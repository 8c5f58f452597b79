/** Concrete inputs and the outputs the program prints for them. Each is
    derived from the general results: the sorted output is the one ascending
    rearrangement of the input. */
module Scenarios {
  import opened Order
  import opened Sorting

  /** The empty input: the driver is called on `[0, -1]` and does nothing. */
  lemma EmptyInput()
    ensures SortRange([], 0, -1, Id) == []
    ensures Sort([]) == []
  {
    SortAscending([]);
  }

  /** A single element is returned as it is. */
  lemma SingleElement()
    ensures Sort([5]) == [5]
  {
    SortAscending([5]);
  }

  /** Six distinct values in no particular order. */
  lemma ShuffledInput()
    ensures Sort([5, 2, 4, 6, 1, 3]) == [1, 2, 3, 4, 5, 6]
  {
    ShuffledSameElements();
    ShuffledOutputAscending();
    SortIsAscendingPermutation([5, 2, 4, 6, 1, 3], [1, 2, 3, 4, 5, 6]);
  }

  /** The expected output is a rearrangement of the input. */
  lemma ShuffledSameElements()
    ensures multiset([1, 2, 3, 4, 5, 6]) == multiset([5, 2, 4, 6, 1, 3])
  {
    assert multiset([5, 2, 4, 6, 1, 3]) == multiset{5, 2, 4, 6, 1, 3};
    assert multiset{5, 2, 4, 6, 1, 3} == multiset{1, 2, 3, 4, 5, 6};
    assert multiset([1, 2, 3, 4, 5, 6]) == multiset{1, 2, 3, 4, 5, 6};
  }

  /** The expected output is ascending. */
  lemma ShuffledOutputAscending()
    ensures Ascending([1, 2, 3, 4, 5, 6])
  {
  }

  /** Duplicated values, in descending order: equal values end up next to
      each other. */
  lemma DescendingDuplicates()
    ensures Sort([3, 3, 2, 2, 1, 1]) == [1, 1, 2, 2, 3, 3]
  {
    DuplicatesSameElements();
    DuplicatesOutputAscending();
    SortIsAscendingPermutation([3, 3, 2, 2, 1, 1], [1, 1, 2, 2, 3, 3]);
  }

  /** The expected output is a rearrangement of the input. */
  lemma DuplicatesSameElements()
    ensures multiset([1, 1, 2, 2, 3, 3]) == multiset([3, 3, 2, 2, 1, 1])
  {
    assert multiset([3, 3, 2, 2, 1, 1]) == multiset{3, 3, 2, 2, 1, 1};
    assert multiset{3, 3, 2, 2, 1, 1} == multiset{1, 1, 2, 2, 3, 3};
    assert multiset([1, 1, 2, 2, 3, 3]) == multiset{1, 1, 2, 2, 3, 3};
  }

  /** The expected output is ascending. */
  lemma DuplicatesOutputAscending()
    ensures Ascending([1, 1, 2, 2, 3, 3])
  {
  }

  /** An input that is already ascending comes back unchanged. */
  lemma AlreadySorted()
    ensures Sort([1, 2, 3, 4, 5]) == [1, 2, 3, 4, 5]
  {
    AlreadySortedAscending();
    SortAscending([1, 2, 3, 4, 5]);
  }

  /** The expected output is ascending. */
  lemma AlreadySortedAscending()
    ensures Ascending([1, 2, 3, 4, 5])
  {
  }

  /** Negative values are ordered below zero and the positive ones. */
  lemma NegativeValues()
    ensures Sort([-3, 5, -1, 0]) == [-3, -1, 0, 5]
  {
    NegativeSameElements();
    NegativeOutputAscending();
    SortIsAscendingPermutation([-3, 5, -1, 0], [-3, -1, 0, 5]);
  }

  /** The expected output is a rearrangement of the input. */
  lemma NegativeSameElements()
    ensures multiset([-3, -1, 0, 5]) == multiset([-3, 5, -1, 0])
  {
    assert multiset([-3, 5, -1, 0]) == multiset{-3, 5, -1, 0};
    assert multiset{-3, 5, -1, 0} == multiset{-3, -1, 0, 5};
    assert multiset([-3, -1, 0, 5]) == multiset{-3, -1, 0, 5};
  }

  /** The expected output is ascending. */
  lemma NegativeOutputAscending()
    ensures Ascending([-3, -1, 0, 5])
  {
  }
}
