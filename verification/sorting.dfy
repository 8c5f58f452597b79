/** The recursive driver: split a range at its midpoint, sort both halves,
    merge them. */
module Sorting {
  import opened Order
  import opened Merging

  /** The split point of a range `[l, r]` with at least two elements, computed
      as `l + (r - l) / 2` so that no intermediate exceeds `r`. Both halves
      `[l, m]` and `[m+1, r]` are non-empty, hence strictly smaller than the
      range, and the left half is the larger one by at most one element. */
  function Midpoint(l: int, r: int): (m: int)
    requires l < r
    ensures l <= m < r
    ensures 0 <= (m - l + 1) - (r - m) <= 1
  {
    l + (r - l) / 2
  }

  /** The split depends only on the length of the range: shifting the range
      shifts the midpoint by the same amount. */
  lemma MidpointShift(l: int, r: int)
    requires l < r
    ensures Midpoint(l, r) - l == Midpoint(0, r - l)
  {
  }

  /** The number of elements that the driver puts into the left half of a run
      of `n >= 2` elements: the size of `[0, m]` for `m` the midpoint of
      `[0, n - 1]`. */
  function LeftSize(n: int): (h: int)
    requires n >= 2
    ensures 0 < h < n
  {
    Midpoint(0, n - 1) + 1
  }

  /** Merge sort of a whole sequence by `key`, split exactly as the driver
      splits a range: the left half takes the first `LeftSize(|u|)` elements.
      The result is sorted and holds the same elements. */
  function SortSeq<T>(u: seq<T>, key: T -> int): (t: seq<T>)
    ensures |t| == |u|
    decreases |u|
  {
    if |u| <= 1 then u
    else
      var h := LeftSize(|u|);
      Merge(SortSeq(u[..h], key), SortSeq(u[h..], key), key)
  }

  /** Merge sort sorts: the result is in non-decreasing order of `key` and
      holds exactly the elements of the input. */
  lemma {:induction false} SortSeqSorts<T>(u: seq<T>, key: T -> int)
    ensures multiset(SortSeq(u, key)) == multiset(u)
    ensures SortedBy(SortSeq(u, key), key)
    decreases |u|
  {
    if |u| > 1 {
      var h := LeftSize(|u|);
      var left, right := SortSeq(u[..h], key), SortSeq(u[h..], key);
      SortSeqSorts(u[..h], key);
      SortSeqSorts(u[h..], key);
      assert u == u[..h] + u[h..];
      MergePermutes(left, right, key);
      MergeSorted(left, right, key);
    }
  }

  /** The ranges `[l, r]` that the driver accepts: an empty or one-element range
      is accepted whatever its bounds, since it is never touched; a longer one
      must lie inside the sequence. */
  predicate ValidRange(n: int, l: int, r: int) {
    l < r ==> 0 <= l && r < n
  }

  /** The sequence after sorting the range `[l, r]` (both bounds inclusive) by
      `key`: the range is replaced by its contents sorted, and a range of at
      most one element is left as it is. What sorting a longer range promises
      is stated by `SortRangeSorts`. */
  function SortRange<T>(s: seq<T>, l: int, r: int, key: T -> int): (t: seq<T>)
    requires ValidRange(|s|, l, r)
    ensures |t| == |s|
    ensures l >= r ==> t == s
  {
    if l >= r then s
    else s[..l] + SortSeq(s[l..r + 1], key) + s[r + 1..]
  }

  /** Sorting a range `[l, r]` with `l < r` leaves every position outside it
      as it was, rearranges the elements inside it, and puts them in
      non-decreasing order of `key`. */
  lemma SortRangeSorts<T>(s: seq<T>, l: int, r: int, key: T -> int)
    requires 0 <= l < r < |s|
    ensures SortRange(s, l, r, key)[..l] == s[..l]
    ensures SortRange(s, l, r, key)[r + 1..] == s[r + 1..]
    ensures multiset(SortRange(s, l, r, key)[l..r + 1]) == multiset(s[l..r + 1])
    ensures SortedBy(SortRange(s, l, r, key)[l..r + 1], key)
  {
    var t := SortRange(s, l, r, key);
    assert t[l..r + 1] == SortSeq(s[l..r + 1], key);
    SortSeqSorts(s[l..r + 1], key);
  }

  /** For any range inside the sequence, including an empty or one-element
      one, the sorted range is `SortSeq` of its contents put back in place. */
  lemma SortRangeSplices<T>(s: seq<T>, l: int, r: int, key: T -> int)
    requires 0 <= l <= r + 1 <= |s|
    ensures SortRange(s, l, r, key) == s[..l] + SortSeq(s[l..r + 1], key) + s[r + 1..]
  {
    if l >= r {
      assert s == s[..l] + s[l..r + 1] + s[r + 1..];
    }
  }

  /** Splitting a run of at least two elements at the driver's midpoint of
      `[l, r]` splits its contents where `SortSeq` splits them, so sorting the
      run merges the sorted halves `[l, m]` and `[m+1, r]`. */
  lemma SortSeqSplitsAtMidpoint<T>(s: seq<T>, l: int, m: int, r: int, key: T -> int)
    requires 0 <= l < r < |s| && m == Midpoint(l, r)
    ensures SortSeq(s[l..r + 1], key) == Merge(SortSeq(s[l..m + 1], key), SortSeq(s[m + 1..r + 1], key), key)
  {
    var u := s[l..r + 1];
    var h := LeftSize(|u|);
    MidpointShift(l, r);
    assert h == m - l + 1;
    assert u[..h] == s[l..m + 1];
    assert u[h..] == s[m + 1..r + 1];
    SortSeqUnfolds(u, key);
  }

  /** A run of at least two elements is sorted by merging its two halves,
      each sorted on its own. */
  lemma SortSeqUnfolds<T>(u: seq<T>, key: T -> int)
    requires |u| >= 2
    ensures SortSeq(u, key) == Merge(SortSeq(u[..LeftSize(|u|)], key), SortSeq(u[LeftSize(|u|)..], key), key)
  {
  }

  /** Replacing `[l, m]` of `s` by `a` and then `[m+1, r]` by `b` puts `a`
      followed by `b` in place of `[l, r]`. */
  lemma SpliceTwice<T>(s: seq<T>, s1: seq<T>, s2: seq<T>, a: seq<T>, b: seq<T>, l: int, m: int, r: int)
    requires 0 <= l <= m < r < |s|
    requires |a| == m + 1 - l && |b| == r - m
    requires s1 == s[..l] + a + s[m + 1..]
    requires s2 == s1[..m + 1] + b + s1[r + 1..]
    ensures s1[m + 1..r + 1] == s[m + 1..r + 1]
    ensures s2[..l] == s[..l] && s2[r + 1..] == s[r + 1..]
    ensures s2[l..m + 1] == a && s2[m + 1..r + 1] == b
  {
    assert s1[m + 1..] == s[m + 1..];
    assert s2 == s[..l] + a + b + s[r + 1..];
  }

  /** One step of the driver on a range: sorting `[l, m]` and then `[m+1, r]`
      in place and merging the two sorted halves gives the sorted range. This
      connects the in-place recursion to `SortSeq`. */
  lemma SortRangeStep<T>(s: seq<T>, l: int, m: int, r: int, key: T -> int)
    requires 0 <= l < r < |s| && m == Midpoint(l, r)
    ensures SortRange(s, l, r, key) == MergeRange(SortRange(SortRange(s, l, m, key), m + 1, r, key), l, m, r, key)
  {
    var left, right := SortSeq(s[l..m + 1], key), SortSeq(s[m + 1..r + 1], key);
    var s1 := SortRange(s, l, m, key);
    SortRangeSplices(s, l, m, key);
    var s2 := SortRange(s1, m + 1, r, key);
    SortRangeSplices(s1, m + 1, r, key);
    SpliceTwice(s, s1, s2, left, SortSeq(s1[m + 1..r + 1], key), l, m, r);
    MergeRangeSplices(s2, l, m, r, key);
    SortSeqSplitsAtMidpoint(s, l, m, r, key);
    SortRangeSplices(s, l, r, key);
  }

  /** The whole sequence sorted ascending, as the program's driver sorts its
      input: the range `[0, |s| - 1]`. */
  function Sort(s: seq<int>): (t: seq<int>)
    ensures Ascending(t)
    ensures multiset(t) == multiset(s)
  {
    SortWholeSorts(s);
    SortRange(s, 0, |s| - 1, Id)
  }

  /** Sorting the range that covers the whole sequence sorts the sequence. */
  lemma SortWholeSorts(s: seq<int>)
    ensures Ascending(SortRange(s, 0, |s| - 1, Id))
    ensures multiset(SortRange(s, 0, |s| - 1, Id)) == multiset(s)
  {
    var t := SortRange(s, 0, |s| - 1, Id);
    if 0 < |s| - 1 {
      SortRangeSorts(s, 0, |s| - 1, Id);
      assert t[0..|s|] == t && s[0..|s|] == s;
    }
  }

  /** Sorting an already sorted sequence changes nothing, whatever the key:
      the merge of two already ordered halves takes the whole left half
      first. */
  lemma {:induction false} SortSeqSorted<T>(u: seq<T>, key: T -> int)
    requires SortedBy(u, key)
    ensures SortSeq(u, key) == u
    decreases |u|
  {
    if |u| > 1 {
      var h := LeftSize(|u|);
      SortSeqSorted(u[..h], key);
      SortSeqSorted(u[h..], key);
      assert u[..h] + u[h..] == u;
      MergeOrderedRuns(u[..h], u[h..], key);
    }
  }

  /** Sorting a range that is already sorted changes nothing. */
  lemma SortRangeSorted<T>(s: seq<T>, l: int, r: int, key: T -> int)
    requires ValidRange(|s|, l, r)
    requires l < r ==> SortedBy(s[l..r + 1], key)
    ensures SortRange(s, l, r, key) == s
  {
    if l < r {
      SortSeqSorted(s[l..r + 1], key);
      assert s == s[..l] + s[l..r + 1] + s[r + 1..];
    }
  }

  /** Sorting a range twice is sorting it once. */
  lemma SortRangeIdempotent<T>(s: seq<T>, l: int, r: int, key: T -> int)
    requires ValidRange(|s|, l, r)
    ensures SortRange(SortRange(s, l, r, key), l, r, key) == SortRange(s, l, r, key)
  {
    if l < r {
      SortRangeSorts(s, l, r, key);
      SortRangeSorted(SortRange(s, l, r, key), l, r, key);
    }
  }

  /** Stability of the sort. When the elements carry strictly increasing
      positions (their index in the input, say), sorting by value leaves
      equal values in their original relative order. */
  lemma {:induction false} SortSeqStable(u: seq<Tagged>)
    requires PositionsIncrease(u)
    ensures StablySorted(SortSeq(u, Value))
    decreases |u|
  {
    if |u| > 1 {
      var h := LeftSize(|u|);
      assert PositionsIncrease(u[..h]) && PositionsIncrease(u[h..]);
      SortSeqStable(u[..h]);
      SortSeqStable(u[h..]);
      var left, right := SortSeq(u[..h], Value), SortSeq(u[h..], Value);
      SortSeqSorts(u[..h], Value);
      SortSeqSorts(u[h..], Value);
      HalvesKeepPositions(u, h, left, right);
      MergeStable(left, right);
      SortSeqUnfolds(u, Value);
    }
  }

  /** Whatever order the two halves of `u` are put in, every position that
      comes from the first half is smaller than every position that comes from
      the second, when positions increase along `u`. */
  lemma HalvesKeepPositions(u: seq<Tagged>, h: int, left: seq<Tagged>, right: seq<Tagged>)
    requires PositionsIncrease(u) && 0 <= h <= |u|
    requires multiset(left) == multiset(u[..h]) && multiset(right) == multiset(u[h..])
    ensures forall i, j :: 0 <= i < |left| && 0 <= j < |right| ==> left[i].pos < right[j].pos
  {
    forall i, j | 0 <= i < |left| && 0 <= j < |right|
      ensures left[i].pos < right[j].pos
    {
      assert left[i] in multiset(u[..h]);
      assert right[j] in multiset(u[h..]);
      var i' :| 0 <= i' < h && u[..h][i'] == left[i];
      var j' :| 0 <= j' < |u| - h && u[h..][j'] == right[j];
      assert u[i'] == left[i] && u[h + j'] == right[j];
    }
  }

  /** Stability of sorting a range of the sequence in place. */
  lemma SortRangeStable(s: seq<Tagged>, l: int, r: int)
    requires 0 <= l <= r < |s|
    requires PositionsIncrease(s[l..r + 1])
    ensures StablySorted(SortRange(s, l, r, Value)[l..r + 1])
  {
    if l < r {
      SortSeqStable(s[l..r + 1]);
    }
  }

  /** Two ascending sequences with the same elements are equal. */
  lemma {:induction false} AscendingUnique(a: seq<int>, b: seq<int>)
    requires Ascending(a) && Ascending(b)
    requires multiset(a) == multiset(b)
    ensures a == b
    decreases |a|
  {
    assert |a| == |multiset(a)| == |multiset(b)| == |b|;
    if |a| > 0 {
      assert a[0] in multiset(b);
      assert b[0] in multiset(a);
      assert a[0] == b[0];
      assert a == [a[0]] + a[1..];
      assert b == [b[0]] + b[1..];
      assert multiset(a[1..]) == multiset(a) - multiset{a[0]};
      assert multiset(b[1..]) == multiset(b) - multiset{b[0]};
      AscendingUnique(a[1..], b[1..]);
    }
  }

  /** `Sort(s)` is the one ascending rearrangement of `s`: the sorted output is
      ascending with the same elements, and any ascending sequence with the
      same elements is the sorted output. */
  lemma SortIsAscendingPermutation(s: seq<int>, t: seq<int>)
    ensures Sort(s) == t <==> Ascending(t) && multiset(t) == multiset(s)
  {
    if Ascending(t) && multiset(t) == multiset(s) {
      AscendingUnique(Sort(s), t);
    }
  }

  /** Sorting an ascending sequence returns it unchanged. */
  lemma SortAscending(s: seq<int>)
    requires Ascending(s)
    ensures Sort(s) == s
  {
    SortIsAscendingPermutation(s, s);
  }

  /** Every adjacent pair of the sorted output is in order. */
  lemma SortOrdersAdjacentPairs(s: seq<int>)
    ensures AdjacentInOrder(Sort(s))
  {
    AscendingIffAdjacent(Sort(s));
  }

  /** Sorting a sorted sequence again changes nothing. */
  lemma SortIdempotent(s: seq<int>)
    ensures Sort(Sort(s)) == Sort(s)
  {
    SortAscending(Sort(s));
  }
}
