/** What several components share: options, bytes, the list operations of Qt they rely on, and the
    few facts about those. */
module Sequences {

  datatype Option<+T> = None | Some(value: T)
  type byte = b: int | 0 <= b < 0x100

  ghost predicate NoDup<T>(s: seq<T>) {
    forall i, j :: 0 <= i < j < |s| ==> s[i] != s[j]
  }

  /** QList::indexOf: the first position of x, or -1. */
  function IndexOf<T(==)>(s: seq<T>, x: T): int {
    if s == [] then -1
    else if s[0] == x then 0
    else
      var k := IndexOf(s[1..], x);
      if k == -1 then -1 else k + 1
  }

  lemma {:induction false} IndexOfFirst<T>(s: seq<T>, x: T)
    ensures var k := IndexOf(s, x);
            if x in s then 0 <= k < |s| && s[k] == x && x !in s[..k] else k == -1
  {
    if s == [] {
    } else {
      var k := IndexOf(s[1..], x);
      IndexOfFirst(s[1..], x);
      assert s == [s[0]] + s[1..];
      assert x in s[1..] ==> s[..k + 1] == [s[0]] + s[1..][..k];
    }
  }

  function WithoutAt<T>(s: seq<T>, k: int): seq<T> {
    if 0 <= k < |s| then s[..k] + s[k + 1..] else s
  }

  /** QList::removeOne: the list without the first occurrence of x. */
  function RemoveOne<T(==)>(s: seq<T>, x: T): seq<T> {
    if x in s then WithoutAt(s, IndexOf(s, x)) else s
  }

  lemma WithoutAtNoDup<T>(s: seq<T>, k: nat)
    requires NoDup(s) && k < |s|
    ensures NoDup(WithoutAt(s, k)) && |WithoutAt(s, k)| == |s| - 1
    ensures forall y :: y in WithoutAt(s, k) <==> y in s && y != s[k]
  {
    var r := WithoutAt(s, k);
    assert forall i :: 0 <= i < |r| ==> r[i] == if i < k then s[i] else s[i + 1];
    forall y | y in s && y != s[k] ensures y in r {
      var i :| 0 <= i < |s| && s[i] == y;
      assert r[if i < k then i else i - 1] == y;
    }
  }

  /** On a duplicate-free list removeOne takes out exactly that element. */
  lemma RemoveOneNoDup<T>(s: seq<T>, x: T)
    requires NoDup(s)
    ensures NoDup(RemoveOne(s, x))
    ensures forall y :: y in RemoveOne(s, x) <==> y in s && y != x
    ensures |RemoveOne(s, x)| == |s| - (if x in s then 1 else 0)
  {
    if x in s {
      IndexOfFirst(s, x);
      WithoutAtNoDup(s, IndexOf(s, x));
    }
  }

  lemma NoDupHead<T>(s: seq<T>)
    requires s != []
    ensures NoDup(s) <==> s[0] !in s[1..] && NoDup(s[1..])
  {
    if NoDup(s) { assert forall i :: 0 <= i < |s[1..]| ==> s[1..][i] == s[i + 1]; }
    if s[0] !in s[1..] && NoDup(s[1..]) {
      forall i, j | 0 <= i < j < |s| ensures s[i] != s[j] {
        assert s[j] == s[1..][j - 1];
        if i > 0 { assert s[i] == s[1..][i - 1]; }
      }
    }
  }

  /** No duplicate is the same as no element counted twice. */
  lemma {:induction false} NoDupCounts<T>(s: seq<T>)
    ensures NoDup(s) <==> forall x :: x in s ==> multiset(s)[x] == 1
  {
    if s == [] {
    } else {
      var rest := s[1..];
      assert s == [s[0]] + rest;
      NoDupCounts(rest);
      NoDupHead(s);
      forall x ensures multiset(s)[x] == multiset(rest)[x] + if x == s[0] then 1 else 0 {}
    }
  }

  lemma Assoc<T>(a: seq<T>, b: seq<T>, c: seq<T>)
    ensures a + (b + c) == a + b + c
  {
  }

  lemma Parts<T>(s: seq<T>, k: nat)
    requires k < |s|
    ensures s == s[..k] + [s[k]] + s[k + 1..]
  {
  }

  lemma RemoveOneSplits<T>(s: seq<T>, x: T)
    requires x in s
    ensures var k := IndexOf(s, x);
            && 0 <= k < |s| && s[k] == x && s == s[..k] + [x] + s[k + 1..]
            && RemoveOne(s, x) == s[..k] + s[k + 1..]
  {
    IndexOfFirst(s, x);
    Parts(s, IndexOf(s, x));
  }

  lemma NotBefore<T>(s: seq<T>, x: T, k: nat)
    requires k <= |s| && x !in s[..k]
    ensures forall i :: 0 <= i < k ==> s[i] != x
  {
    forall i | 0 <= i < k ensures s[i] != x { assert s[..k][i] == s[i]; }
  }

  lemma FirstAt<T>(s: seq<T>, x: T, k: nat, a: seq<T>)
    requires k < |s| && s[k] == x && s[..k] == a && x !in a
    ensures IndexOf(s, x) == k
  {
    IndexOfFirst(s, x);
    NotBefore(s, x, k);
    NotBefore(s, x, IndexOf(s, x));
  }

  /** The list without the first occurrence. */
  lemma RemovesFirst<T>(s: seq<T>, x: T, a: seq<T>, b: seq<T>)
    requires s == a + [x] + b && x !in a
    ensures RemoveOne(s, x) == a + b
  {
    assert s[|a|] == x;
    RemoveOneSplits(s, x);
    FirstAt(s, x, |a|, a);
    assert s[..|a|] == a && s[|a| + 1..] == b;
  }

  lemma RemoveOneItems<T>(s: seq<T>, x: T)
    requires x in s
    ensures multiset(RemoveOne(s, x)) + multiset{x} == multiset(s)
  {
    RemoveOneSplits(s, x);
    var k := IndexOf(s, x);
    assert multiset(s) == multiset(s[..k] + [x] + s[k + 1..]);
  }
}
