/**
 * The `Sorting` class. The three in-place sorts work on a local sequence `a` that
 * stands for the Python list: every element write of the source is one update of
 * `a`, and the list the caller sees afterwards (which is also the returned list) is
 * the final value of `a`. Quick sort and merge sort build new lists.
 */
module Sorting {
  import opened Sequences

  /** `bubble_sort`. Pass `i` bubbles the largest of `a[..n - i]` up to position
      `n - i - 1`, so the last `i` positions hold the `i` largest elements in order. */
  method BubbleSort(input: seq<int>) returns (a: seq<int>)
    ensures Sorted(a)
    ensures multiset(a) == multiset(input)
  {
    a := input;
    var n := |a|;
    var i := 0;
    while i < n
      invariant 0 <= i <= n == |a|
      invariant multiset(a) == multiset(input)
      invariant forall p, q :: n - i <= p < q < n ==> a[p] <= a[q]
      invariant forall p, q :: 0 <= p < n - i <= q < n ==> a[p] <= a[q]
    {
      a := BubblePass(a, i);
      i := i + 1;
    }
  }

  /** The inner loop of `bubble_sort` for pass `i`: compare neighbours left to right up to
      position `n - i - 1`, swapping any pair out of order. The running maximum moves
      along with `j`. */
  method BubblePass(input: seq<int>, i: int) returns (a: seq<int>)
    requires 0 <= i < |input|
    requires forall p, q :: |input| - i <= p < q < |input| ==> input[p] <= input[q]
    requires forall p, q :: 0 <= p < |input| - i <= q < |input| ==> input[p] <= input[q]
    ensures |a| == |input| && multiset(a) == multiset(input)
    ensures forall p, q :: |a| - i - 1 <= p < q < |a| ==> a[p] <= a[q]
    ensures forall p, q :: 0 <= p < |a| - i - 1 <= q < |a| ==> a[p] <= a[q]
  {
    a := input;
    var n := |a|;
    var j := 0;
    while j < n - i - 1
      invariant 0 <= j <= n - i - 1
      invariant |a| == n
      invariant multiset(a) == multiset(input)
      invariant forall p, q :: n - i <= p < q < n ==> a[p] <= a[q]
      invariant forall p, q :: 0 <= p < n - i <= q < n ==> a[p] <= a[q]
      invariant forall p :: 0 <= p < j ==> a[p] <= a[j]
    {
      if a[j] > a[j + 1] {
        a := Swap(a, j, j + 1);
      }
      j := j + 1;
    }
  }

  /** `selection_sort`. Pass `i` swaps the first minimum of `a[i..]` into position `i`. */
  method SelectionSort(input: seq<int>) returns (a: seq<int>)
    ensures Sorted(a)
    ensures multiset(a) == multiset(input)
  {
    a := input;
    var n := |a|;
    var i := 0;
    while i < n
      invariant 0 <= i <= n == |a|
      invariant multiset(a) == multiset(input)
      invariant forall p, q :: 0 <= p < q < i ==> a[p] <= a[q]
      invariant forall p, q :: 0 <= p < i <= q < n ==> a[p] <= a[q]
    {
      var minIndex := i;
      var j := i + 1;
      while j < n
        invariant i < j <= n
        invariant i <= minIndex < j
        invariant forall q :: i <= q < j ==> a[minIndex] <= a[q]
      {
        if a[j] < a[minIndex] {
          minIndex := j;
        }
        j := j + 1;
      }
      a := Swap(a, i, minIndex);
      i := i + 1;
    }
  }

  /** `insertion_sort`. Pass `i` inserts `a[i]` into the sorted prefix `a[..i]`. */
  method InsertionSort(input: seq<int>) returns (a: seq<int>)
    ensures Sorted(a)
    ensures multiset(a) == multiset(input)
  {
    a := input;
    var n := |a|;
    var i := 1;
    while i < n
      invariant 1 <= i && (i <= n || n == 0) && n == |a|
      invariant multiset(a) == multiset(input)
      invariant forall p, q :: 0 <= p < q < i && q < n ==> a[p] <= a[q]
    {
      a := Insert(a, i);
      i := i + 1;
    }
  }

  /** One pass of `insertion_sort`: lift `key := a[i]` out, shift the larger elements of
      the sorted prefix `a[..i]` one place right, and drop `key` into the gap. While
      shifting, position `j + 1` is the gap: filling it with `key` gives `input` with
      `key` moved to position `j + 1`. */
  method Insert(input: seq<int>, i: int) returns (a: seq<int>)
    requires 0 < i < |input|
    requires forall p, q :: 0 <= p < q < i ==> input[p] <= input[q]
    ensures |a| == |input|
    ensures multiset(a) == multiset(input)
    ensures forall p, q :: 0 <= p < q <= i ==> a[p] <= a[q]
  {
    a := input;
    var key := a[i];
    var j := i - 1;
    assert a[j + 1 := key] == Inserted(input, i, i);
    while j >= 0 && key < a[j]
      invariant -1 <= j < i
      invariant |a| == |input|
      invariant forall k :: 0 <= k <= j ==> a[k] == input[k]
      invariant a[j + 1 := key] == Inserted(input, i, j + 1)
      invariant forall k :: j + 1 <= k < i ==> key < input[k]
    {
      ShiftGap(a, input, i, j);
      a := a[j + 1 := a[j]];
      j := j - 1;
    }
    InsertedSorted(input, i, j + 1);
    InsertedAt(input, i, j + 1);
    a := a[j + 1 := key];
  }

  /** `s` with `s[i]` moved to position `m` and `s[m..i]` one place to the right. */
  function Inserted(s: seq<int>, i: int, m: int): (r: seq<int>)
    requires 0 <= m <= i < |s|
    ensures |r| == |s|
    ensures multiset(r) == multiset(s)
  {
    assert s == s[..m] + s[m..i] + [s[i]] + s[i + 1..];
    s[..m] + [s[i]] + s[m..i] + s[i + 1..]
  }

  /** Position by position: `Inserted(s, i, m)` is `s` before `m`, `s[i]` at `m`, `s`
      shifted right by one on `(m..i]`, and `s` after `i`. */
  lemma InsertedAt(s: seq<int>, i: int, m: int)
    requires 0 <= m <= i < |s|
    ensures forall k :: 0 <= k < m ==> Inserted(s, i, m)[k] == s[k]
    ensures Inserted(s, i, m)[m] == s[i]
    ensures forall k :: m < k <= i ==> Inserted(s, i, m)[k] == s[k - 1]
    ensures forall k :: i < k < |s| ==> Inserted(s, i, m)[k] == s[k]
  {
  }

  /** One shift of the inner loop moves the gap from `j + 1` to `j`. */
  lemma ShiftGap(a: seq<int>, s: seq<int>, i: int, j: int)
    requires 0 <= j < i < |s| && |a| == |s| && a[j] == s[j]
    requires a[j + 1 := s[i]] == Inserted(s, i, j + 1)
    ensures a[j + 1 := a[j]][j := s[i]] == Inserted(s, i, j)
  {
    var b, r := a[j + 1 := a[j]][j := s[i]], Inserted(s, i, j);
    InsertedAt(s, i, j);
    InsertedAt(s, i, j + 1);
    forall k | 0 <= k < |s|
      ensures b[k] == r[k]
    {
      if k != j && k != j + 1 {
        assert b[k] == a[j + 1 := s[i]][k];
      }
    }
  }

  /** Dropping `s[i]` where everything before is at most it and the shifted part is
      above it leaves `[0..i]` sorted. */
  lemma InsertedSorted(s: seq<int>, i: int, m: int)
    requires 0 <= m <= i < |s|
    requires forall p, q :: 0 <= p < q < i ==> s[p] <= s[q]
    requires m > 0 ==> s[m - 1] <= s[i]
    requires forall k :: m <= k < i ==> s[i] < s[k]
    ensures forall p, q :: 0 <= p < q <= i ==> Inserted(s, i, m)[p] <= Inserted(s, i, m)[q]
  {
    var r := Inserted(s, i, m);
    InsertedAt(s, i, m);
    forall p, q | 0 <= p < q <= i
      ensures r[p] <= r[q]
    {
      if q < m {
      } else if q == m {
        if p < m - 1 {
          assert s[p] <= s[m - 1];
        }
      } else if p < m {
        assert s[p] <= s[q - 1];
      } else if p == m {
        assert s[i] < s[q - 1];
      } else {
        assert s[p - 1] <= s[q - 1];
      }
    }
  }

  /** The list comprehension `[x for x in s if x < pivot]`. */
  function Below(s: seq<int>, pivot: int): (r: seq<int>)
    ensures forall x :: x in r ==> x < pivot
    ensures |r| <= |s|
  {
    if s == [] then []
    else if s[0] < pivot then [s[0]] + Below(s[1..], pivot)
    else Below(s[1..], pivot)
  }

  /** The list comprehension `[x for x in s if x == pivot]`. */
  function Level(s: seq<int>, pivot: int): (r: seq<int>)
    ensures forall x :: x in r ==> x == pivot
    ensures pivot in s ==> pivot in r
  {
    if s == [] then []
    else if s[0] == pivot then [s[0]] + Level(s[1..], pivot)
    else Level(s[1..], pivot)
  }

  /** The list comprehension `[x for x in s if x > pivot]`. */
  function Above(s: seq<int>, pivot: int): (r: seq<int>)
    ensures forall x :: x in r ==> x > pivot
  {
    if s == [] then []
    else if s[0] > pivot then [s[0]] + Above(s[1..], pivot)
    else Above(s[1..], pivot)
  }

  /** The three comprehensions split `s` into parts whose multisets add up to `s`'s. */
  lemma {:induction false} Partition(s: seq<int>, pivot: int)
    ensures multiset(Below(s, pivot)) + multiset(Level(s, pivot)) + multiset(Above(s, pivot))
         == multiset(s)
  {
    if s != [] {
      Partition(s[1..], pivot);
      assert s == [s[0]] + s[1..];
    }
  }

  /** Sorted parts below, at and above a pivot join into a sorted list. */
  lemma JoinAroundPivot(left: seq<int>, middle: seq<int>, right: seq<int>,
                        sortedLeft: seq<int>, sortedRight: seq<int>, pivot: int)
    requires forall x :: x in left ==> x < pivot
    requires forall x :: x in middle ==> x == pivot
    requires forall x :: x in right ==> x > pivot
    requires Sorted(sortedLeft) && multiset(sortedLeft) == multiset(left)
    requires Sorted(sortedRight) && multiset(sortedRight) == multiset(right)
    ensures Sorted(sortedLeft + middle + sortedRight)
  {
    forall k | 0 <= k < |sortedLeft|
      ensures sortedLeft[k] < pivot
    {
      assert sortedLeft[k] in multiset(sortedLeft);
      assert sortedLeft[k] in left;
    }
    forall k | 0 <= k < |sortedRight|
      ensures sortedRight[k] > pivot
    {
      assert sortedRight[k] in multiset(sortedRight);
      assert sortedRight[k] in right;
    }
    forall k | 0 <= k < |middle|
      ensures middle[k] == pivot
    {
      assert middle[k] in middle;
    }
    SortedConcat(sortedLeft, middle);
    SortedConcat(sortedLeft + middle, sortedRight);
  }

  /** `quick_sort`: a new ascending list with the same elements; a list of length at
      most 1 comes back as it is. */
  function QuickSort(s: seq<int>): (r: seq<int>)
    ensures Sorted(r)
    ensures multiset(r) == multiset(s)
    ensures |s| <= 1 ==> r == s
    decreases |s|
  {
    if |s| <= 1 then s
    else
      var pivot := s[|s| / 2];
      var left, middle, right := Below(s, pivot), Level(s, pivot), Above(s, pivot);
      Partition(s, pivot);
      assert |left| + |middle| + |right| == |s| by {
        assert |multiset(s)| == |s|;
      }
      assert |middle| >= 1 by {
        assert pivot in middle;
      }
      var sortedLeft, sortedRight := QuickSort(left), QuickSort(right);
      JoinAroundPivot(left, middle, right, sortedLeft, sortedRight, pivot);
      sortedLeft + middle + sortedRight
  }

  /** `_merge`: the two-finger merge of two ascending lists. On equal heads it takes
      from `right`. */
  method Merge(left: seq<int>, right: seq<int>) returns (result: seq<int>)
    requires Sorted(left) && Sorted(right)
    ensures Sorted(result)
    ensures multiset(result) == multiset(left) + multiset(right)
    ensures |result| == |left| + |right|
  {
    result := [];
    var i, j := 0, 0;
    while i < |left| && j < |right|
      invariant 0 <= i <= |left| && 0 <= j <= |right|
      invariant |result| == i + j
      invariant multiset(result) == multiset(left[..i]) + multiset(right[..j])
      invariant Sorted(result)
      invariant forall k :: 0 <= k < |result| && i < |left| ==> result[k] <= left[i]
      invariant forall k :: 0 <= k < |result| && j < |right| ==> result[k] <= right[j]
      decreases |left| - i + |right| - j
    {
      if left[i] < right[j] {
        TakeNext(result, left, i, right, j);
        result := result + [left[i]];
        i := i + 1;
      } else {
        TakeNext(result, right, j, left, i);
        result := result + [right[j]];
        j := j + 1;
      }
    }
    MergeTail(result, left, right, i, j);
    result := result + left[i..];
    result := result + right[j..];
  }

  /** One step of the `_merge` loop: appending `xs[i]`, which is at most `ys[j]`, keeps
      the result sorted and below both lists' next heads. */
  lemma TakeNext(result: seq<int>, xs: seq<int>, i: int, ys: seq<int>, j: int)
    requires Sorted(result) && Sorted(xs)
    requires 0 <= i < |xs| && 0 <= j < |ys| && xs[i] <= ys[j]
    requires forall k :: 0 <= k < |result| ==> result[k] <= xs[i]
    ensures Sorted(result + [xs[i]])
    ensures multiset(xs[..i + 1]) == multiset(xs[..i]) + multiset{xs[i]}
    ensures forall k :: 0 <= k < |result| + 1 ==> (result + [xs[i]])[k] <= ys[j]
    ensures forall k :: 0 <= k < |result| + 1 && i + 1 < |xs| ==> (result + [xs[i]])[k] <= xs[i + 1]
  {
    SortedConcat(result, [xs[i]]);
    assert xs[..i + 1] == xs[..i] + [xs[i]];
  }

  /** A suffix of an ascending list is ascending. */
  lemma SortedSuffix(s: seq<int>, i: int)
    requires Sorted(s) && 0 <= i <= |s|
    ensures Sorted(s[i..])
  {
    forall p, q | 0 <= p < q < |s[i..]|
      ensures s[i..][p] <= s[i..][q]
    {
      assert s[i..][p] == s[i + p] && s[i..][q] == s[i + q];
    }
  }

  /** Once one list of `_merge` is used up, the two `extend` calls finish the merge. */
  lemma MergeTail(result: seq<int>, left: seq<int>, right: seq<int>, i: int, j: int)
    requires Sorted(left) && Sorted(right) && Sorted(result)
    requires 0 <= i <= |left| && 0 <= j <= |right| && (i == |left| || j == |right|)
    requires multiset(result) == multiset(left[..i]) + multiset(right[..j])
    requires forall k :: 0 <= k < |result| && i < |left| ==> result[k] <= left[i]
    requires forall k :: 0 <= k < |result| && j < |right| ==> result[k] <= right[j]
    ensures Sorted(result + left[i..] + right[j..])
    ensures multiset(result + left[i..] + right[j..]) == multiset(left) + multiset(right)
  {
    assert left == left[..i] + left[i..];
    assert right == right[..j] + right[j..];
    SortedSuffix(left, i);
    SortedSuffix(right, j);
    SortedConcat(result, left[i..]);
    SortedConcat(result + left[i..], right[j..]);
  }

  /** `merge_sort`: an ascending permutation of the input; a list of length at most 1
      comes back as it is. */
  method MergeSort(s: seq<int>) returns (r: seq<int>)
    ensures Sorted(r)
    ensures multiset(r) == multiset(s)
    ensures |s| <= 1 ==> r == s
    decreases |s|
  {
    if |s| <= 1 {
      return s;
    }
    var mid := |s| / 2;
    var left := MergeSort(s[..mid]);
    var right := MergeSort(s[mid..]);
    assert s == s[..mid] + s[mid..];
    r := Merge(left, right);
  }

  /** All five sorts return the same list on every input: an ascending permutation is
      unique, so each in-place sort and merge sort agree with quick sort. */
  method SortsAgree(s: seq<int>) returns (bubble: seq<int>, selection: seq<int>,
                                          insertion: seq<int>, merge: seq<int>)
    ensures bubble == QuickSort(s) && selection == QuickSort(s)
    ensures insertion == QuickSort(s) && merge == QuickSort(s)
  {
    bubble := BubbleSort(s);
    selection := SelectionSort(s);
    insertion := InsertionSort(s);
    merge := MergeSort(s);
    SortedUnique(bubble, QuickSort(s));
    SortedUnique(selection, QuickSort(s));
    SortedUnique(insertion, QuickSort(s));
    SortedUnique(merge, QuickSort(s));
  }

  /** Quick sort leaves an ascending list as it is. */
  lemma QuickSortSortedFixed(s: seq<int>)
    requires Sorted(s)
    ensures QuickSort(s) == s
  {
    SortedUnique(QuickSort(s), s);
  }
}
