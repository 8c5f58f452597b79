/** Orderings used by the merge sort model.

    The sort compares elements through an integer `key`: the C++ routines sort
    plain `int`s, which is the key `Id`; the stability results use elements that
    carry their original position next to the value that is compared. */
module Order {

  /** The key under which plain integers are compared: the value itself. */
  function Id(x: int): (r: int) { x }

  /** `s` is in non-decreasing order of `key`. */
  predicate SortedBy<T>(s: seq<T>, key: T -> int) {
    forall i, j :: 0 <= i < j < |s| ==> key(s[i]) <= key(s[j])
  }

  /** `s` is ascending as a sequence of integers. */
  predicate Ascending(s: seq<int>) {
    SortedBy(s, Id)
  }

  /** Every adjacent pair of `s` is in order. */
  predicate AdjacentInOrder(s: seq<int>) {
    forall i :: 0 <= i < |s| - 1 ==> s[i] <= s[i + 1]
  }

  /** Ordering every pair is the same as ordering every adjacent pair. */
  lemma {:induction false} AscendingIffAdjacent(s: seq<int>)
    ensures Ascending(s) <==> AdjacentInOrder(s)
    decreases |s|
  {
    if AdjacentInOrder(s) && |s| > 1 {
      var t := s[1..];
      assert AdjacentInOrder(t) by {
        forall i | 0 <= i < |t| - 1
          ensures t[i] <= t[i + 1]
        {
          assert t[i] == s[i + 1] && t[i + 1] == s[i + 2];
        }
      }
      AscendingIffAdjacent(t);
      forall i, j | 0 <= i < j < |s|
        ensures s[i] <= s[j]
      {
        if 0 < i {
          assert t[i - 1] <= t[j - 1];
        } else if 1 < j {
          assert s[0] <= s[1] && t[0] <= t[j - 1];
        }
      }
    }
  }

  /** Every element of `s` has a key of at least `v`. */
  predicate AllAtLeast<T>(s: seq<T>, v: int, key: T -> int) {
    forall i :: 0 <= i < |s| ==> v <= key(s[i])
  }

  /** An integer paired with the position it had in the input, so that the
      relative order of equal values can be observed. */
  datatype Tagged = Tagged(value: int, pos: int)

  /** The key under which tagged elements are sorted: the value alone. */
  function Value(x: Tagged): (r: int) { x.value }

  /** `x` comes strictly before `y` in the order (value, then position). */
  predicate Precedes(x: Tagged, y: Tagged) {
    x.value < y.value || (x.value == y.value && x.pos < y.pos)
  }

  /** `s` is strictly ordered by value and, among equal values, by position:
      sorted by value with equal values in their original relative order. */
  predicate StablySorted(s: seq<Tagged>) {
    forall i, j :: 0 <= i < j < |s| ==> Precedes(s[i], s[j])
  }

  /** Every element of `s` comes after `x` in the (value, position) order. */
  predicate AllAfter(s: seq<Tagged>, x: Tagged) {
    forall i :: 0 <= i < |s| ==> Precedes(x, s[i])
  }

  /** Positions strictly increase along `s`: the shape of an unsorted input
      whose elements are tagged with their index. */
  predicate PositionsIncrease(s: seq<Tagged>) {
    forall i, j :: 0 <= i < j < |s| ==> s[i].pos < s[j].pos
  }

  /** Any lower bound on the keys of a sequence bounds every permutation of it. */
  lemma {:induction false} AllAtLeastPermutation<T>(a: seq<T>, b: seq<T>, v: int, key: T -> int)
    requires multiset(a) == multiset(b)
    requires AllAtLeast(a, v, key)
    ensures AllAtLeast(b, v, key)
  {
    forall i | 0 <= i < |b|
      ensures v <= key(b[i])
    {
      assert b[i] in multiset(b);
      assert b[i] in a;
    }
  }

  /** The three parts of a sequence built by putting `x` between `p` and `q`
      are read back by slicing at `|p|` and `|p| + |x|`. */
  lemma SpliceParts<T>(t: seq<T>, p: seq<T>, x: seq<T>, q: seq<T>)
    requires t == p + x + q
    ensures t[..|p|] == p
    ensures t[|p|..|p| + |x|] == x
    ensures t[|p| + |x|..] == q
  {
  }
}
