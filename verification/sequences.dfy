/** Facts about integer sequences shared by the searching and sorting routines. */
module Sequences {

  /** Ascending order (duplicates allowed). */
  predicate Sorted(s: seq<int>) {
    forall i, j :: 0 <= i < j < |s| ==> s[i] <= s[j]
  }

  /** The tuple assignment `s[i], s[j] = s[j], s[i]`. */
  function Swap(s: seq<int>, i: int, j: int): (r: seq<int>)
    requires 0 <= i < |s| && 0 <= j < |s|
    ensures |r| == |s|
    ensures r[i] == s[j] && r[j] == s[i]
    ensures forall k :: 0 <= k < |s| && k != i && k != j ==> r[k] == s[k]
    ensures multiset(r) == multiset(s)
  {
    s[i := s[j]][j := s[i]]
  }

  /** Two sorted sequences, every element of the first at most every element of the
      second, concatenate to a sorted sequence. */
  lemma SortedConcat(a: seq<int>, b: seq<int>)
    requires Sorted(a) && Sorted(b)
    requires forall i, j :: 0 <= i < |a| && 0 <= j < |b| ==> a[i] <= b[j]
    ensures Sorted(a + b)
  {
    var c := a + b;
    forall i, j | 0 <= i < j < |c|
      ensures c[i] <= c[j]
    {
      if j < |a| {
        assert c[i] == a[i] && c[j] == a[j];
      } else if i >= |a| {
        assert c[i] == b[i - |a|] && c[j] == b[j - |a|];
      } else {
        assert c[i] == a[i] && c[j] == b[j - |a|];
      }
    }
  }

  /** The first element of a non-empty sorted sequence is its minimum. */
  lemma SortedHeadIsMin(s: seq<int>)
    requires Sorted(s) && s != []
    ensures forall x :: x in multiset(s) ==> s[0] <= x
  {
    forall x | x in multiset(s)
      ensures s[0] <= x
    {
      assert x in s;
      var k :| 0 <= k < |s| && s[k] == x;
      if k > 0 {
        assert s[0] <= s[k];
      }
    }
  }

  /** A sorted sequence is determined by its multiset: any two sorts of the same input
      agree element for element. */
  lemma {:induction false} SortedUnique(a: seq<int>, b: seq<int>)
    requires Sorted(a) && Sorted(b)
    requires multiset(a) == multiset(b)
    ensures a == b
    decreases |a|
  {
    if a != [] {
      assert |b| == |a| by {
        assert |multiset(a)| == |a| && |multiset(b)| == |b|;
      }
      SortedHeadIsMin(a);
      SortedHeadIsMin(b);
      assert a[0] in multiset(b) && b[0] in multiset(a);
      assert a[0] == b[0];
      assert a == [a[0]] + a[1..];
      assert b == [b[0]] + b[1..];
      assert multiset(a[1..]) == multiset(b[1..]) by {
        assert multiset(a) == multiset([a[0]]) + multiset(a[1..]);
        assert multiset(b) == multiset([b[0]]) + multiset(b[1..]);
        assert multiset(a[1..]) == multiset(a) - multiset{a[0]};
        assert multiset(b[1..]) == multiset(b) - multiset{b[0]};
      }
      assert Sorted(a[1..]) by {
        forall i, j | 0 <= i < j < |a[1..]|
          ensures a[1..][i] <= a[1..][j]
        {
          assert a[1..][i] == a[i + 1] && a[1..][j] == a[j + 1];
        }
      }
      assert Sorted(b[1..]) by {
        forall i, j | 0 <= i < j < |b[1..]|
          ensures b[1..][i] <= b[1..][j]
        {
          assert b[1..][i] == b[i + 1] && b[1..][j] == b[j + 1];
        }
      }
      SortedUnique(a[1..], b[1..]);
    }
  }
}
