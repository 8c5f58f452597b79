/** The two routines as the program runs them: the array, modelled as a
    sequence value that each write replaces, scratch copies `L` and `R` of the
    two runs, and three loops that write the merged run back over the range.
    Each routine is proved to produce what the functional model in `Merging`
    and `Sorting` computes. */
module InPlace {
  import opened Order
  import Merging
  import Sorting

  /** Copies the `n` elements of `arr` starting at `start`, one by one, as the
      program fills its scratch arrays `L` and `R`. */
  method CopyRun(arr: seq<int>, start: int, n: int) returns (run: seq<int>)
    requires 0 <= start && 0 <= n && start + n <= |arr|
    ensures run == arr[start..start + n]
  {
    run := [];
    var i := 0;
    while i < n
      invariant 0 <= i <= n
      invariant run == arr[start..start + i]
    {
      run := run + [arr[start + i]];
      i := i + 1;
    }
  }

  /** The state of the array part-way through the write-back, when `i`
      elements of `left` and `j` elements of `right` have been taken: the
      range starting at `l` holds the first `i + j` elements of the merge, the
      rest of `a` is untouched, and what the merge still has to write is the
      merge read from the cursors `i` and `j`. */
  predicate Written(cur: seq<int>, a: seq<int>, left: seq<int>, right: seq<int>, l: int, i: int, j: int) {
    0 <= l && 0 <= i <= |left| && 0 <= j <= |right| && l + |left| + |right| <= |a|
    && cur == a[..l] + Merging.MergeFrom(left, right, 0, 0, Id)[..i + j] + a[l + i + j..]
    && Merging.MergeFrom(left, right, 0, 0, Id)[i + j..] == Merging.MergeFrom(left, right, i, j, Id)
  }

  /** Before any write the array is the input, and the whole merge is still
      to be written. */
  lemma NothingWritten(a: seq<int>, left: seq<int>, right: seq<int>, l: int)
    requires 0 <= l && l + |left| + |right| <= |a|
    ensures Written(a, a, left, right, l, 0, 0)
  {
    assert a == a[..l] + Merging.MergeFrom(left, right, 0, 0, Id)[..0] + a[l..];
  }

  /** Writing the head of `left` at position `l + i + j`, when it is no
      larger than the head of `right` or `right` is used up, writes the next
      element of the merge. */
  lemma WriteLeft(cur: seq<int>, a: seq<int>, left: seq<int>, right: seq<int>, l: int, i: int, j: int)
    requires Written(cur, a, left, right, l, i, j)
    requires i < |left| && (j == |right| || left[i] <= right[j])
    ensures l + i + j < |cur|
    ensures Written(cur[l + i + j := left[i]], a, left, right, l, i + 1, j)
  {
    Merging.MergeFromTakesLeft(left, right, i, j, Id);
    WriteNext(cur, a, Merging.MergeFrom(left, right, 0, 0, Id), l, i + j, Merging.MergeFrom(left, right, i + 1, j, Id));
  }

  /** Writing the head of `right`, when it is smaller than the head of `left`
      or `left` is used up, writes the next element of the merge. */
  lemma WriteRight(cur: seq<int>, a: seq<int>, left: seq<int>, right: seq<int>, l: int, i: int, j: int)
    requires Written(cur, a, left, right, l, i, j)
    requires j < |right| && (i == |left| || right[j] < left[i])
    ensures l + i + j < |cur|
    ensures Written(cur[l + i + j := right[j]], a, left, right, l, i, j + 1)
  {
    Merging.MergeFromTakesRight(left, right, i, j, Id);
    WriteNext(cur, a, Merging.MergeFrom(left, right, 0, 0, Id), l, i + j, Merging.MergeFrom(left, right, i, j + 1, Id));
  }

  /** Writing element `n` of `merged` at position `l + n`, when the first `n`
      elements are in place and the rest of `merged` is `merged[n]` followed
      by `rest`, puts the first `n + 1` elements in place. */
  lemma WriteNext(cur: seq<int>, a: seq<int>, merged: seq<int>, l: int, n: int, rest: seq<int>)
    requires 0 <= l && 0 <= n < |merged| && l + |merged| <= |a|
    requires cur == a[..l] + merged[..n] + a[l + n..]
    requires merged[n..] == [merged[n]] + rest
    ensures l + n < |cur|
    ensures cur[l + n := merged[n]] == a[..l] + merged[..n + 1] + a[l + n + 1..]
    ensures merged[n + 1..] == rest
  {
    assert merged[n + 1..] == merged[n..][1..];
    assert merged[..n + 1] == merged[..n] + [merged[n]];
    assert a[l + n..] == [a[l + n]] + a[l + n + 1..];
  }

  /** Once both runs are used up, the range holds the whole merge. */
  lemma AllWritten(cur: seq<int>, a: seq<int>, left: seq<int>, right: seq<int>, l: int)
    requires Written(cur, a, left, right, l, |left|, |right|)
    ensures cur == a[..l] + Merging.Merge(left, right, Id) + a[l + |left| + |right|..]
  {
    Merging.MergeFromIsMerge(left, right, 0, 0, Id);
    var merged := Merging.MergeFrom(left, right, 0, 0, Id);
    assert merged[..|left| + |right|] == merged;
  }

  /** The first loop of the merge: while both runs have elements left, write
      the smaller head, the left one on a tie. It stops with one run used
      up. */
  method TakeSmaller(a: seq<int>, left: seq<int>, right: seq<int>, l: int) returns (arr: seq<int>, i: int, j: int)
    requires 0 <= l && l + |left| + |right| <= |a|
    ensures Written(arr, a, left, right, l, i, j)
    ensures i == |left| || j == |right|
  {
    NothingWritten(a, left, right, l);
    arr := a;
    i, j := 0, 0;
    var k := l;
    while i < |left| && j < |right|
      invariant k == l + i + j
      invariant Written(arr, a, left, right, l, i, j)
      decreases |left| + |right| - i - j
    {
      arr, i, j := WriteSmaller(a, left, right, l, arr, i, j, k);
      k := k + 1;
    }
  }

  /** One pass of the first loop: write the smaller head at `k`, the left one
      on a tie, and advance past it. */
  method WriteSmaller(a: seq<int>, left: seq<int>, right: seq<int>, l: int, arr0: seq<int>, i0: int, j0: int, k: int)
    returns (arr: seq<int>, i: int, j: int)
    requires Written(arr0, a, left, right, l, i0, j0)
    requires i0 < |left| && j0 < |right| && k == l + i0 + j0
    ensures Written(arr, a, left, right, l, i, j)
    ensures i + j == i0 + j0 + 1 && i0 <= i && j0 <= j
  {
    if left[i0] <= right[j0] {
      WriteLeft(arr0, a, left, right, l, i0, j0);
      arr, i, j := arr0[k := left[i0]], i0 + 1, j0;
    } else {
      WriteRight(arr0, a, left, right, l, i0, j0);
      arr, i, j := arr0[k := right[j0]], i0, j0 + 1;
    }
  }

  /** The second loop: copy what is left of `left`. */
  method CopyLeftTail(a: seq<int>, left: seq<int>, right: seq<int>, l: int, arr0: seq<int>, i0: int, j: int) returns (arr: seq<int>, i: int)
    requires Written(arr0, a, left, right, l, i0, j)
    requires i0 == |left| || j == |right|
    ensures Written(arr, a, left, right, l, i, j)
    ensures i == |left|
  {
    arr, i := arr0, i0;
    var k := l + i + j;
    while i < |left|
      invariant k == l + i + j
      invariant i < |left| ==> j == |right|
      invariant Written(arr, a, left, right, l, i, j)
    {
      WriteLeft(arr, a, left, right, l, i, j);
      arr := arr[k := left[i]];
      k := k + 1;
      i := i + 1;
    }
  }

  /** The third loop: copy what is left of `right`. */
  method CopyRightTail(a: seq<int>, left: seq<int>, right: seq<int>, l: int, arr0: seq<int>, j0: int) returns (arr: seq<int>, j: int)
    requires Written(arr0, a, left, right, l, |left|, j0)
    ensures Written(arr, a, left, right, l, |left|, j)
    ensures j == |right|
  {
    arr, j := arr0, j0;
    var i := |left|;
    var k := l + i + j;
    while j < |right|
      invariant k == l + i + j
      invariant Written(arr, a, left, right, l, i, j)
    {
      WriteRight(arr, a, left, right, l, i, j);
      arr := arr[k := right[j]];
      k := k + 1;
      j := j + 1;
    }
  }

  /** Merges the adjacent runs `[l, m]` and `[m+1, r]` (both bounds inclusive)
      of `arr`: the result is the merge step of the functional model. Either
      run may be empty (`m == l - 1` or `m == r`), and then nothing changes. */
  method Merge(arr: seq<int>, l: int, m: int, r: int) returns (out: seq<int>)
    requires 0 <= l <= m + 1 <= r + 1 <= |arr|
    ensures out == Merging.MergeRange(arr, l, m, r, Id)
    ensures m + 1 == l || m == r ==> out == arr
  {
    var n1 := m - l + 1;
    var n2 := r - m;
    var left := CopyRun(arr, l, n1);
    var right := CopyRun(arr, m + 1, n2);
    var i, j;
    out, i, j := TakeSmaller(arr, left, right, l);
    out, i := CopyLeftTail(arr, left, right, l, out, i, j);
    out, j := CopyRightTail(arr, left, right, l, out, j);
    MergeDone(arr, l, m, r, n1, n2, left, right, out);
  }

  /** The array after the three loops is the merge step of the functional
      model. */
  lemma MergeDone(arr: seq<int>, l: int, m: int, r: int, n1: int, n2: int, left: seq<int>, right: seq<int>, out: seq<int>)
    requires 0 <= l <= m + 1 <= r + 1 <= |arr|
    requires n1 == m - l + 1 && n2 == r - m
    requires left == arr[l..l + n1] && right == arr[m + 1..m + 1 + n2]
    requires Written(out, arr, left, right, l, |left|, |right|)
    ensures out == Merging.MergeRange(arr, l, m, r, Id)
    ensures m + 1 == l || m == r ==> out == arr
  {
    AllWritten(out, arr, left, right, l);
    assert l + n1 == m + 1 && m + 1 + n2 == r + 1;
    if m + 1 == l || m == r {
      Merging.MergeRangeEmptyRun(arr, l, m, r, Id);
    }
  }

  /** Sorts the range `[l, r]` (both bounds inclusive) of `arr`: nothing
      happens when `l >= r`; otherwise both halves around the midpoint are
      sorted recursively and then merged. The result is the sorted range of
      the functional model, so it is ascending, a rearrangement of the range,
      and equal to `arr` outside it. */
  method MergeSort(arr: seq<int>, l: int, r: int) returns (out: seq<int>)
    requires Sorting.ValidRange(|arr|, l, r)
    ensures out == Sorting.SortRange(arr, l, r, Id)
    decreases r - l
  {
    if l < r {
      var m := Sorting.Midpoint(l, r);
      var sortedLeft := MergeSort(arr, l, m);
      var sortedBoth := MergeSort(sortedLeft, m + 1, r);
      out := Merge(sortedBoth, l, m, r);
      SortDone(arr, l, m, r, sortedLeft, sortedBoth, out);
    } else {
      out := arr;
    }
  }

  /** Sorting both halves and merging them is sorting the range. */
  lemma SortDone(arr: seq<int>, l: int, m: int, r: int, sortedLeft: seq<int>, sortedBoth: seq<int>, out: seq<int>)
    requires 0 <= l < r < |arr| && m == Sorting.Midpoint(l, r)
    requires sortedLeft == Sorting.SortRange(arr, l, m, Id)
    requires sortedBoth == Sorting.SortRange(sortedLeft, m + 1, r, Id)
    requires out == Merging.MergeRange(sortedBoth, l, m, r, Id)
    ensures out == Sorting.SortRange(arr, l, r, Id)
  {
    Sorting.SortRangeStep(arr, l, m, r, Id);
  }

  /** The program's driver call: the whole array, `[0, size - 1]`, sorted in
      place. An empty array gives the range `[0, -1]`, which is left alone.
      The result is `Sorting.Sort(arr)`, so the concrete outputs stated in
      `Scenarios` are the outputs of this call. */
  method SortAll(arr: seq<int>) returns (out: seq<int>)
    ensures Ascending(out)
    ensures multiset(out) == multiset(arr)
    ensures out == Sorting.Sort(arr)
  {
    out := MergeSort(arr, 0, |arr| - 1);
    Sorting.SortWholeSorts(arr);
    Sorting.SortIsAscendingPermutation(arr, out);
  }
}
