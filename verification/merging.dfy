/** The merge step: two adjacent runs combined into one, taking from the left
    run whenever the two heads compare equal. */
module Merging {
  import opened Order

  /** Interleaves `left` and `right`, repeatedly taking the smaller head and
      the left head on a tie; once one run is exhausted the rest of the other
      follows unchanged. */
  function Merge<T>(left: seq<T>, right: seq<T>, key: T -> int): (out: seq<T>)
    ensures |out| == |left| + |right|
    decreases |left| + |right|
  {
    if |left| == 0 then right
    else if |right| == 0 then left
    else if key(left[0]) <= key(right[0]) then [left[0]] + Merge(left[1..], right, key)
    else [right[0]] + Merge(left, right[1..], key)
  }

  /** The merge holds exactly the elements of the two runs, each as often as
      it occurs in them. */
  lemma {:induction false} MergePermutes<T>(left: seq<T>, right: seq<T>, key: T -> int)
    ensures multiset(Merge(left, right, key)) == multiset(left) + multiset(right)
    decreases |left| + |right|
  {
    if |left| == 0 || |right| == 0 {
    } else if key(left[0]) <= key(right[0]) {
      MergePermutes(left[1..], right, key);
      assert left == [left[0]] + left[1..];
    } else {
      MergePermutes(left, right[1..], key);
      assert right == [right[0]] + right[1..];
    }
  }

  /** A key bound shared by both runs bounds the merged run. */
  lemma {:induction false} MergeAtLeast<T>(left: seq<T>, right: seq<T>, v: int, key: T -> int)
    requires AllAtLeast(left, v, key) && AllAtLeast(right, v, key)
    ensures AllAtLeast(Merge(left, right, key), v, key)
  {
    MergePermutes(left, right, key);
    AllAtLeastPermutation(left + right, Merge(left, right, key), v, key);
  }

  /** Merging two runs that are each sorted gives a sorted run. */
  lemma {:induction false} MergeSorted<T>(left: seq<T>, right: seq<T>, key: T -> int)
    requires SortedBy(left, key) && SortedBy(right, key)
    ensures SortedBy(Merge(left, right, key), key)
    decreases |left| + |right|
  {
    if |left| == 0 || |right| == 0 {
    } else if key(left[0]) <= key(right[0]) {
      MergeSorted(left[1..], right, key);
      MergeAtLeast(left[1..], right, key(left[0]), key);
    } else {
      MergeSorted(left, right[1..], key);
      MergeAtLeast(left, right[1..], key(right[0]), key);
    }
  }

  /** When either run is empty the merge reproduces the other run. */
  lemma MergeEmptyRun<T>(left: seq<T>, right: seq<T>, key: T -> int)
    ensures |left| == 0 ==> Merge(left, right, key) == right
    ensures |right| == 0 ==> Merge(left, right, key) == left
  {
  }

  /** If every key of `left` is at most every key of `right` and both runs are
      sorted, the merge is their concatenation: ties keep the left run first,
      so an already ordered pair of runs is left as it is. */
  lemma {:induction false} MergeOrderedRuns<T>(left: seq<T>, right: seq<T>, key: T -> int)
    requires SortedBy(left + right, key)
    ensures Merge(left, right, key) == left + right
    decreases |left|
  {
    if |left| == 0 {
      assert left + right == right;
    } else if |right| == 0 {
      assert left + right == left;
    } else {
      assert (left + right)[0] == left[0];
      assert (left + right)[|left|] == right[0];
      assert left[1..] + right == (left + right)[1..];
      MergeOrderedRuns(left[1..], right, key);
      assert left == [left[0]] + left[1..];
    }
  }

  /** Every element of both runs comes after `x`, so every element of the
      merge does. */
  lemma {:induction false} MergeAllAfter(left: seq<Tagged>, right: seq<Tagged>, x: Tagged)
    requires AllAfter(left, x) && AllAfter(right, x)
    ensures AllAfter(Merge(left, right, Value), x)
  {
    var out := Merge(left, right, Value);
    MergePermutes(left, right, Value);
    forall i | 0 <= i < |out|
      ensures Precedes(x, out[i])
    {
      assert out[i] in multiset(out);
      assert out[i] in multiset(left) || out[i] in multiset(right);
      if out[i] in multiset(left) {
        assert out[i] in left;
      } else {
        assert out[i] in right;
      }
    }
  }

  /** Stability of the merge. Runs that are each sorted by value with equal
      values in position order, where every position in the left run is
      smaller than every position in the right run, merge into a run that is
      again sorted by value with equal values in position order: equal values
      from the left run stay ahead of those from the right run. */
  lemma {:induction false} MergeStable(left: seq<Tagged>, right: seq<Tagged>)
    requires StablySorted(left) && StablySorted(right)
    requires forall i, j :: 0 <= i < |left| && 0 <= j < |right| ==> left[i].pos < right[j].pos
    ensures StablySorted(Merge(left, right, Value))
    decreases |left| + |right|
  {
    if |left| == 0 || |right| == 0 {
    } else if Value(left[0]) <= Value(right[0]) {
      MergeStable(left[1..], right);
      assert AllAfter(right, left[0]) by {
        forall j | 0 <= j < |right|
          ensures Precedes(left[0], right[j])
        {
          if 0 < j {
            assert Precedes(right[0], right[j]);
          }
        }
      }
      MergeAllAfter(left[1..], right, left[0]);
    } else {
      MergeStable(left, right[1..]);
      assert AllAfter(left, right[0]) by {
        forall i | 0 <= i < |left|
          ensures Precedes(right[0], left[i])
        {
          if 0 < i {
            assert Precedes(left[0], left[i]);
          }
        }
      }
      MergeAllAfter(left, right[1..], right[0]);
    }
  }

  /** The whole sequence after the merge step on the runs `a[l..m]` and
      `a[m+1..r]` (both bounds inclusive): the merge of the two runs put in
      place of the range `[l, r]`. What it promises is stated by
      `MergeRangeMerges`. */
  function MergeRange<T>(a: seq<T>, l: int, m: int, r: int, key: T -> int): (t: seq<T>)
    requires 0 <= l <= m + 1 <= r + 1 <= |a|
    ensures |t| == |a|
  {
    a[..l] + Merge(a[l..m + 1], a[m + 1..r + 1], key) + a[r + 1..]
  }

  /** The merge step puts the merge of the two runs in place of the range. */
  lemma MergeRangeSplices<T>(a: seq<T>, l: int, m: int, r: int, key: T -> int)
    requires 0 <= l <= m + 1 <= r + 1 <= |a|
    ensures MergeRange(a, l, m, r, key) == a[..l] + Merge(a[l..m + 1], a[m + 1..r + 1], key) + a[r + 1..]
  {
  }

  /** The merge step keeps every position outside `[l, r]`, rearranges the
      elements inside it, and leaves the range sorted when both runs were. */
  lemma MergeRangeMerges<T>(a: seq<T>, l: int, m: int, r: int, key: T -> int)
    requires 0 <= l <= m + 1 <= r + 1 <= |a|
    ensures MergeRange(a, l, m, r, key)[..l] == a[..l]
    ensures MergeRange(a, l, m, r, key)[r + 1..] == a[r + 1..]
    ensures multiset(MergeRange(a, l, m, r, key)[l..r + 1]) == multiset(a[l..r + 1])
    ensures SortedBy(a[l..m + 1], key) && SortedBy(a[m + 1..r + 1], key) ==> SortedBy(MergeRange(a, l, m, r, key)[l..r + 1], key)
  {
    var left, right := a[l..m + 1], a[m + 1..r + 1];
    var merged := Merge(left, right, key);
    SpliceParts(MergeRange(a, l, m, r, key), a[..l], merged, a[r + 1..]);
    assert a[l..r + 1] == left + right;
    MergePermutes(left, right, key);
    if SortedBy(left, key) && SortedBy(right, key) {
      MergeSorted(left, right, key);
    }
  }

  /** The merge read through cursors: what remains to be written once the
      first `i` elements of `left` and the first `j` elements of `right` have
      been taken. This is the form in which the program's loops walk the two
      runs. */
  function MergeFrom<T>(left: seq<T>, right: seq<T>, i: int, j: int, key: T -> int): (out: seq<T>)
    requires 0 <= i <= |left| && 0 <= j <= |right|
    ensures |out| == |left| - i + |right| - j
    decreases |left| - i + |right| - j
  {
    if i == |left| then right[j..]
    else if j == |right| then left[i..]
    else if key(left[i]) <= key(right[j]) then [left[i]] + MergeFrom(left, right, i + 1, j, key)
    else [right[j]] + MergeFrom(left, right, i, j + 1, key)
  }

  /** Reading through cursors is merging what lies after them; in particular
      `MergeFrom(left, right, 0, 0, key)` is the merge of the two runs. */
  lemma {:induction false} MergeFromIsMerge<T>(left: seq<T>, right: seq<T>, i: int, j: int, key: T -> int)
    requires 0 <= i <= |left| && 0 <= j <= |right|
    ensures MergeFrom(left, right, i, j, key) == Merge(left[i..], right[j..], key)
    decreases |left| - i + |right| - j
  {
    if i == |left| {
      assert left[i..] == [];
    } else if j == |right| {
      assert right[j..] == [];
    } else if key(left[i]) <= key(right[j]) {
      MergeFromIsMerge(left, right, i + 1, j, key);
      assert left[i..][1..] == left[i + 1..];
    } else {
      MergeFromIsMerge(left, right, i, j + 1, key);
      assert right[j..][1..] == right[j + 1..];
    }
  }

  /** Taking the head of `left` at the cursors: when it is no larger than the
      head of `right`, or `right` is used up, it is the next element of the
      merge. */
  lemma MergeFromTakesLeft<T>(left: seq<T>, right: seq<T>, i: int, j: int, key: T -> int)
    requires 0 <= i < |left| && 0 <= j <= |right|
    requires j == |right| || key(left[i]) <= key(right[j])
    ensures MergeFrom(left, right, i, j, key) == [left[i]] + MergeFrom(left, right, i + 1, j, key)
  {
    if j == |right| {
      assert left[i..] == [left[i]] + left[i + 1..];
    }
  }

  /** Taking the head of `right` at the cursors: when it is smaller than the
      head of `left`, or `left` is used up, it is the next element of the
      merge. */
  lemma MergeFromTakesRight<T>(left: seq<T>, right: seq<T>, i: int, j: int, key: T -> int)
    requires 0 <= i <= |left| && 0 <= j < |right|
    requires i == |left| || key(right[j]) < key(left[i])
    ensures MergeFrom(left, right, i, j, key) == [right[j]] + MergeFrom(left, right, i, j + 1, key)
  {
    if i == |left| {
      assert right[j..] == [right[j]] + right[j + 1..];
    }
  }

  /** The merge step with an empty left run (`m == l - 1`) or an empty right
      run (`m == r`) changes nothing. */
  lemma MergeRangeEmptyRun<T>(a: seq<T>, l: int, m: int, r: int, key: T -> int)
    requires 0 <= l <= m + 1 <= r + 1 <= |a|
    requires m + 1 == l || m == r
    ensures MergeRange(a, l, m, r, key) == a
  {
    assert a == a[..l] + a[l..r + 1] + a[r + 1..];
    if m + 1 == l {
      assert a[l..m + 1] == [];
      assert a[m + 1..r + 1] == a[l..r + 1];
    } else {
      assert a[m + 1..r + 1] == [];
      assert a[l..m + 1] == a[l..r + 1];
    }
  }
}
