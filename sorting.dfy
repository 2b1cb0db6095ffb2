/**
 * The sorts the lookups rely on: JavaScript's `Array.prototype.sort`, which
 * is stable, modelled as an insertion sort that places each element after
 * every element already placed that is not above it.
 */
module Sorting {

  /** `le(a, b)`: the comparator does not put `b` before `a` */
  ghost predicate Total<T(!new)>(le: (T, T) -> bool)
  {
    forall a, b :: le(a, b) || le(b, a)
  }

  ghost predicate Transitive<T(!new)>(le: (T, T) -> bool)
  {
    forall a, b, c :: le(a, b) && le(b, c) ==> le(a, c)
  }

  predicate SortedBy<T>(s: seq<T>, le: (T, T) -> bool)
  {
    forall i, j :: 0 <= i < j < |s| ==> le(s[i], s[j])
  }

  /** `x` placed after the last element of `t` that is not above it */
  function Insert<T>(t: seq<T>, x: T, le: (T, T) -> bool): (r: seq<T>)
    ensures |r| == |t| + 1
    ensures multiset(r) == multiset(t) + multiset{x}
  {
    if t == [] || le(t[|t| - 1], x) then t + [x]
    else
      assert t == t[..|t| - 1] + [t[|t| - 1]];
      Insert(t[..|t| - 1], x, le) + [t[|t| - 1]]
  }

  /** The stable sort of `s` by `le` */
  function InsertionSort<T>(s: seq<T>, le: (T, T) -> bool): (r: seq<T>)
    ensures |r| == |s|
    ensures multiset(r) == multiset(s)
  {
    if s == [] then []
    else
      assert s == s[..|s| - 1] + [s[|s| - 1]];
      Insert(InsertionSort(s[..|s| - 1], le), s[|s| - 1], le)
  }

  lemma {:induction false} InsertSorted<T(!new)>(t: seq<T>, x: T, le: (T, T) -> bool)
    requires Total(le) && Transitive(le) && SortedBy(t, le)
    ensures SortedBy(Insert(t, x, le), le)
    decreases |t|
  {
    if t != [] && !le(t[|t| - 1], x) {
      var init := t[..|t| - 1];
      var last := t[|t| - 1];
      assert SortedBy(init, le);
      InsertSorted(init, x, le);
      var r' := Insert(init, x, le);
      forall i | 0 <= i < |r'|
        ensures le(r'[i], last)
      {
        assert r'[i] in multiset(r');
        if r'[i] != x {
          assert r'[i] in multiset(init);
          var k :| 0 <= k < |init| && init[k] == r'[i];
          assert t[k] == init[k];
        }
      }
    }
  }

  /** With a total, transitive `le`, the sort's result is in order */
  lemma {:induction false} InsertionSortSorted<T(!new)>(s: seq<T>, le: (T, T) -> bool)
    requires Total(le) && Transitive(le)
    ensures SortedBy(InsertionSort(s, le), le)
    decreases |s|
  {
    if s != [] {
      InsertionSortSorted(s[..|s| - 1], le);
      InsertSorted(InsertionSort(s[..|s| - 1], le), s[|s| - 1], le);
    }
  }

  /** Cut after `n` elements, a sorted sequence's prefix leads every element of the rest */
  lemma PrefixLeadsRest<T>(s: seq<T>, le: (T, T) -> bool, n: nat)
    requires SortedBy(s, le) && 0 < n <= |s|
    ensures multiset(s[..n]) <= multiset(s)
    ensures multiset(s) - multiset(s[..n]) == multiset(s[n..])
    ensures forall x :: x in multiset(s[n..]) ==> le(s[n - 1], x)
  {
    assert s == s[..n] + s[n..];
    forall x | x in multiset(s[n..])
      ensures le(s[n - 1], x)
    {
      var k :| 0 <= k < |s[n..]| && s[n..][k] == x;
      assert s[n + k] == x;
    }
  }
}
