/** The two quicksorts over `std::list`. Both take the first element as the
    pivot, split the rest with `std::partition` into the elements strictly
    less than the pivot and all others, sort the two parts recursively and
    splice `lower ++ [pivot] ++ higher`. Lists become sequences of integers,
    and a future is read as the value it delivers. */
module QuickSort {
  import opened Wrappers

  ghost predicate Sorted(s: seq<int>)
  {
    forall i, j :: 0 <= i < j < |s| ==> s[i] <= s[j]
  }

  /** The part `std::partition` moves to the front: the elements `< pivot`. */
  function Lower(s: seq<int>, pivot: int): (r: seq<int>)
    ensures |r| <= |s|
    ensures forall i :: 0 <= i < |r| ==> r[i] < pivot
  {
    if s == [] then []
    else if s[0] < pivot then [s[0]] + Lower(s[1..], pivot)
    else Lower(s[1..], pivot)
  }

  /** The part left in `input` after the splice: the elements `>= pivot`. */
  function Higher(s: seq<int>, pivot: int): (r: seq<int>)
    ensures |r| <= |s|
    ensures forall i :: 0 <= i < |r| ==> r[i] >= pivot
  {
    if s == [] then []
    else if s[0] < pivot then Higher(s[1..], pivot)
    else [s[0]] + Higher(s[1..], pivot)
  }

  /** The partition loses and invents nothing: the two parts together hold
      exactly the elements of s, so each one is shorter than the input the
      pivot was taken from. */
  lemma {:induction false} PartitionSplits(s: seq<int>, pivot: int)
    ensures multiset(Lower(s, pivot)) + multiset(Higher(s, pivot)) == multiset(s)
    ensures |Lower(s, pivot)| + |Higher(s, pivot)| == |s|
  {
    if s != [] {
      PartitionSplits(s[1..], pivot);
      assert s == [s[0]] + s[1..];
    }
  }

  /** `ManualThreadingQuickSort`; the `std::async` call on the lower part is
      read as the list it returns. */
  function ManualThreadingQuickSort(s: seq<int>): (r: seq<int>)
    ensures |r| == |s|
    decreases |s|
  {
    if s == [] then []
    else
      var pivot := s[0];
      PartitionSplits(s[1..], pivot);
      ManualThreadingQuickSort(Lower(s[1..], pivot)) + [pivot]
        + ManualThreadingQuickSort(Higher(s[1..], pivot))
  }

  /** `ThreadPoolQuickSort`. Sorting the lower part is submitted to the pool;
      `submitFails(lower)` says whether the pool could not take that task,
      in which case the call throws (here: none). Otherwise the caller sorts
      the higher part itself and, while it waits, runs other pending tasks,
      which does not change the list the future delivers. */
  function ThreadPoolQuickSort(s: seq<int>, submitFails: seq<int> -> bool): (r: Option<seq<int>>)
    ensures r.Some? ==> |r.value| == |s|
    decreases |s|
  {
    if s == [] then Some([])
    else
      var pivot := s[0];
      PartitionSplits(s[1..], pivot);
      var lowerPart := Lower(s[1..], pivot);
      if submitFails(lowerPart) then None
      else
        match ThreadPoolQuickSort(lowerPart, submitFails)
        case None => None
        case Some(lower) =>
          match ThreadPoolQuickSort(Higher(s[1..], pivot), submitFails)
          case None => None
          case Some(higher) => Some(lower + [pivot] + higher)
  }

  /** Elements below p, then p, then elements at least p, each part sorted,
      make a sorted sequence. */
  lemma SortedAroundPivot(a: seq<int>, p: int, b: seq<int>)
    requires Sorted(a) && Sorted(b)
    requires forall i :: 0 <= i < |a| ==> a[i] < p
    requires forall i :: 0 <= i < |b| ==> b[i] >= p
    ensures Sorted(a + [p] + b)
  {
    var r := a + [p] + b;
    forall i, j | 0 <= i < j < |r|
      ensures r[i] <= r[j]
    {
      if j < |a| {
      } else if i < |a| {
        assert r[i] == a[i];
      } else if i == |a| {
        assert r[j] == b[j - |a| - 1];
      } else {
        assert r[i] == b[i - |a| - 1] && r[j] == b[j - |a| - 1];
      }
    }
  }

  /** Every element of a sequence with the same elements as a part of the
      partition lies on that part's side of the pivot. */
  lemma SideOfPivot(t: seq<int>, part: seq<int>, p: int, below: bool)
    requires multiset(t) == multiset(part)
    requires below ==> forall i :: 0 <= i < |part| ==> part[i] < p
    requires !below ==> forall i :: 0 <= i < |part| ==> part[i] >= p
    ensures below ==> forall i :: 0 <= i < |t| ==> t[i] < p
    ensures !below ==> forall i :: 0 <= i < |t| ==> t[i] >= p
  {
    forall i | 0 <= i < |t|
      ensures below ==> t[i] < p
      ensures !below ==> t[i] >= p
    {
      assert t[i] in multiset(part);
      var k :| 0 <= k < |part| && part[k] == t[i];
    }
  }

  /** The result is sorted and is a permutation of the input, as the tests
      expect of both quicksorts. */
  lemma {:induction false} QuickSortSortsAndPermutes(s: seq<int>)
    ensures Sorted(ManualThreadingQuickSort(s))
    ensures multiset(ManualThreadingQuickSort(s)) == multiset(s)
    decreases |s|
  {
    if s != [] {
      var p, rest := s[0], s[1..];
      var lo, hi := Lower(rest, p), Higher(rest, p);
      PartitionSplits(rest, p);
      QuickSortSortsAndPermutes(lo);
      QuickSortSortsAndPermutes(hi);
      var a, b := ManualThreadingQuickSort(lo), ManualThreadingQuickSort(hi);
      SideOfPivot(a, lo, p, true);
      SideOfPivot(b, hi, p, false);
      SortedAroundPivot(a, p, b);
      assert s == [p] + rest;
      assert ManualThreadingQuickSort(s) == a + [p] + b;
    }
  }

  /** The pivot (the first element) lands at the position after every
      element less than it; everything before it is smaller and everything
      after it is at least as large. The empty list comes back empty. */
  lemma PivotPosition(s: seq<int>)
    ensures s == [] ==> ManualThreadingQuickSort(s) == []
    ensures s != [] ==>
      var r, k := ManualThreadingQuickSort(s), |Lower(s[1..], s[0])|;
      && k < |r| && r[k] == s[0]
      && (forall i :: 0 <= i < k ==> r[i] < s[0])
      && (forall i :: k < i < |r| ==> r[i] >= s[0])
  {
    if s != [] {
      var p, rest := s[0], s[1..];
      var lo, hi := Lower(rest, p), Higher(rest, p);
      QuickSortSortsAndPermutes(lo);
      QuickSortSortsAndPermutes(hi);
      var a, b := ManualThreadingQuickSort(lo), ManualThreadingQuickSort(hi);
      SideOfPivot(a, lo, p, true);
      SideOfPivot(b, hi, p, false);
      var r := ManualThreadingQuickSort(s);
      assert r == a + [p] + b;
      forall i | |a| < i < |r|
        ensures r[i] >= p
      {
        assert r[i] == b[i - |a| - 1];
      }
    }
  }

  /** There is only one sorted arrangement of a multiset of integers. */
  lemma {:induction false} SortedPermutationUnique(a: seq<int>, b: seq<int>)
    requires Sorted(a) && Sorted(b) && multiset(a) == multiset(b)
    ensures a == b
    decreases |a|
  {
    if a == [] {
      assert |multiset(b)| == 0;
    } else {
      assert |b| == |multiset(b)| == |multiset(a)| == |a|;
      SortedHeadIsLeast(a);
      SortedHeadIsLeast(b);
      assert a[0] in multiset(b) && b[0] in multiset(a);
      TailsSameElements(a, b);
      SortedTail(a);
      SortedTail(b);
      SortedPermutationUnique(a[1..], b[1..]);
      assert a == [a[0]] + a[1..] && b == [b[0]] + b[1..];
    }
  }

  lemma SortedHeadIsLeast(a: seq<int>)
    requires Sorted(a) && a != []
    ensures forall x :: x in multiset(a) ==> a[0] <= x
  {
    forall x | x in multiset(a)
      ensures a[0] <= x
    {
      var k :| 0 <= k < |a| && a[k] == x;
    }
  }

  lemma SortedTail(a: seq<int>)
    requires Sorted(a) && a != []
    ensures Sorted(a[1..])
  {
    forall i, j | 0 <= i < j < |a| - 1
      ensures a[1..][i] <= a[1..][j]
    {
      assert a[1..][i] == a[i + 1] && a[1..][j] == a[j + 1];
    }
  }

  lemma TailsSameElements(a: seq<int>, b: seq<int>)
    requires a != [] && b != [] && a[0] == b[0] && multiset(a) == multiset(b)
    ensures multiset(a[1..]) == multiset(b[1..])
  {
    assert a == [a[0]] + a[1..] && b == [b[0]] + b[1..];
    assert multiset(a[1..]) == multiset(a) - multiset{a[0]};
    assert multiset(b[1..]) == multiset(b) - multiset{b[0]};
  }

  /** The quicksort result is THE sorted permutation of the input: any
      sorted arrangement t of the same elements equals it. In particular the
      order in which `std::partition` leaves each part, which it does not
      promise, cannot change the result. */
  lemma QuickSortIsTheSortedPermutation(s: seq<int>, t: seq<int>)
    requires Sorted(t) && multiset(t) == multiset(s)
    ensures ManualThreadingQuickSort(s) == t
  {
    QuickSortSortsAndPermutes(s);
    SortedPermutationUnique(ManualThreadingQuickSort(s), t);
  }

  /** Sorting any rearrangement of the input gives the same list. */
  lemma PartitionOrderIrrelevant(s: seq<int>, s': seq<int>)
    requires multiset(s) == multiset(s')
    ensures ManualThreadingQuickSort(s) == ManualThreadingQuickSort(s')
  {
    QuickSortSortsAndPermutes(s');
    QuickSortIsTheSortedPermutation(s, ManualThreadingQuickSort(s'));
  }

  /** Whenever the thread-pool quicksort returns a list, it is the list the
      manual-threading quicksort returns. */
  lemma {:induction false} ThreadPoolAgreesWhenItReturns(s: seq<int>, submitFails: seq<int> -> bool)
    ensures ThreadPoolQuickSort(s, submitFails).Some? ==>
              ThreadPoolQuickSort(s, submitFails).value == ManualThreadingQuickSort(s)
    decreases |s|
  {
    if s != [] {
      PartitionSplits(s[1..], s[0]);
      ThreadPoolAgreesWhenItReturns(Lower(s[1..], s[0]), submitFails);
      ThreadPoolAgreesWhenItReturns(Higher(s[1..], s[0]), submitFails);
    }
  }

  /** When no submission fails, it always returns, and returns that list. */
  lemma {:induction false} ThreadPoolReturnsWithoutFailures(s: seq<int>, submitFails: seq<int> -> bool)
    requires forall t :: !submitFails(t)
    ensures ThreadPoolQuickSort(s, submitFails) == Some(ManualThreadingQuickSort(s))
    decreases |s|
  {
    if s != [] {
      PartitionSplits(s[1..], s[0]);
      ThreadPoolReturnsWithoutFailures(Lower(s[1..], s[0]), submitFails);
      ThreadPoolReturnsWithoutFailures(Higher(s[1..], s[0]), submitFails);
    }
  }

  /** A non-empty input whose first submission fails throws: no list. */
  lemma FirstSubmitFailureThrows(s: seq<int>, submitFails: seq<int> -> bool)
    requires s != [] && submitFails(Lower(s[1..], s[0]))
    ensures ThreadPoolQuickSort(s, submitFails).None?
  {
  }
}
