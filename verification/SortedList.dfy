/** SortedList: a list kept in order under an order whose keys may change. */
module SortedLists {
  import opened Sequences

  type Order<!T> = (T, T) -> bool

  /** A strict weak order. */
  ghost predicate WeakOrder<T(!new)>(less: Order<T>) {
    (forall x, y :: less(x, y) ==> !less(y, x))
    && (forall x, y, z :: less(x, z) ==> less(x, y) || less(y, z))
  }

  ghost predicate Sorted<T>(less: Order<T>, s: seq<T>) {
    forall i, j :: 0 <= i < j < |s| ==> !less(s[j], s[i])
  }

  // ----- what they compute -----

  /** The scan for the place of item ends at e. */
  predicate Stops<T(==)>(less: Order<T>, e: T, item: T) {
    e == item || less(item, e)
  }

  function Stop<T(==)>(less: Order<T>, s: seq<T>, item: T): (p: nat)
    ensures p <= |s| && (forall j :: 0 <= j < p ==> !Stops(less, s[j], item)) && (p < |s| ==> Stops(less, s[p], item))
  {
    if s == [] || Stops(less, s[0], item) then 0 else 1 + Stop(less, s[1..], item)
  }

  function Inserted<T(==)>(less: Order<T>, s: seq<T>, item: T): seq<T> {
    var p := Stop(less, s, item);
    if p < |s| && s[p] == item then s else s[..p] + [item] + s[p..]
  }

  function Merge<T>(less: Order<T>, a: seq<T>, b: seq<T>): seq<T> {
    if b == [] then a
    else if a == [] then b
    else if less(b[0], a[0]) then [b[0]] + Merge(less, a, b[1..])
    else [a[0]] + Merge(less, a[1..], b)
  }

  function Changed<T(==)>(less: Order<T>, s: seq<T>, item: T): seq<T> {
    Inserted(less, Sequences.RemoveOne(s, item), item)
  }

  /** What is in front of the cursor is final: the rest of the list and the items from i on go
      behind it. */
  predicate MergedUpTo<T(==)>(less: Order<T>, before: seq<T>, items: seq<T>, list: seq<T>, j: nat, i: nat)
    requires j <= |list| && i <= |items|
  {
    Merge(less, before, items) == list[..j] + Merge(less, list[j..], items[i..])
  }

  lemma Shift<T>(s: seq<T>, j: nat, r: seq<T>)
    requires j < |s|
    ensures s[..j] + ([s[j]] + r) == s[..j + 1] + r
  {
  }

  lemma MergePasses<T>(less: Order<T>, s: seq<T>, j: nat, b: seq<T>)
    requires j < |s| && b != [] && !less(b[0], s[j])
    ensures s[..j] + Merge(less, s[j..], b) == s[..j + 1] + Merge(less, s[j + 1..], b)
  {
    assert s[j..][1..] == s[j + 1..];
    Shift(s, j, Merge(less, s[j + 1..], b));
  }

  lemma MergeHead<T>(less: Order<T>, a: seq<T>, b: seq<T>)
    requires b != [] && (a != [] ==> less(b[0], a[0]))
    ensures Merge(less, a, b) == [b[0]] + Merge(less, a, b[1..])
  {
    if a == [] { assert b == [b[0]] + b[1..]; }
  }

  lemma MergeTakes<T>(less: Order<T>, s: seq<T>, j: nat, items: seq<T>, i: nat)
    requires j <= |s| && i < |items| && (j < |s| ==> less(items[i], s[j]))
    ensures var t := s[..j] + [items[i]] + s[j..];
            s[..j] + Merge(less, s[j..], items[i..]) == t[..j + 1] + Merge(less, t[j + 1..], items[i + 1..])
  {
    var t := s[..j] + [items[i]] + s[j..];
    assert t[j + 1..] == s[j..] && t[..j + 1] == s[..j] + [items[i]];
    assert items[i..][1..] == items[i + 1..];
    MergeHead(less, s[j..], items[i..]);
  }

  // ----- one item -----

  lemma Irreflexive<T(!new)>(less: Order<T>, x: T)
    requires WeakOrder(less)
    ensures !less(x, x)
  {
    assert less(x, x) ==> !less(x, x);
  }

  /** An item goes behind everything it is not less than, and in front of the rest. */
  lemma InsertKeepsSorted<T(!new)>(less: Order<T>, s: seq<T>, item: T)
    requires WeakOrder(less) && Sorted(less, s)
    ensures Sorted(less, Inserted(less, s, item))
  {
    var p := Stop(less, s, item);
    forall j | p <= j < |s| && s[p] != item ensures less(item, s[j]) {
      assert less(item, s[p]);
      Irreflexive(less, s[p]);
      assert !less(s[j], s[p]);
    }
  }

  /** In a sorted list an item that is present is found before its place. */
  lemma PresentIsFound<T(!new)>(less: Order<T>, s: seq<T>, item: T)
    requires WeakOrder(less) && Sorted(less, s) && item in s
    ensures Inserted(less, s, item) == s
  {
    var q :| 0 <= q < |s| && s[q] == item;
    var p := Stop(less, s, item);
    assert Stops(less, s[q], item);
    assert p <= q;
    Irreflexive(less, item);
    assert !less(item, s[p]);
  }

  lemma InsertAbsent<T(!new)>(less: Order<T>, s: seq<T>, item: T)
    requires item !in s && NoDup(s)
    ensures var r := Inserted(less, s, item);
            NoDup(r) && multiset(r) == multiset(s) + multiset{item}
  {
    var p := Stop(less, s, item);
    assert s == s[..p] + s[p..];
    assert forall k :: 0 <= k < p ==> s[..p][k] in s;
  }

  /** Single insertion keeps the list sorted and free of duplicates, and adds the item once. */
  lemma InsertKeeps<T(!new)>(less: Order<T>, s: seq<T>, item: T)
    requires WeakOrder(less) && Sorted(less, s) && NoDup(s)
    ensures var r := Inserted(less, s, item);
            Sorted(less, r) && NoDup(r)
            && multiset(r) == multiset(s) + if item in s then multiset{} else multiset{item}
  {
    InsertKeepsSorted(less, s, item);
    if item in s {
      PresentIsFound(less, s, item);
    } else {
      InsertAbsent(less, s, item);
    }
  }

  // ----- a container -----

  lemma ConsItems<T>(x: T, s: seq<T>)
    ensures multiset([x] + s) == multiset{x} + multiset(s)
  {
  }

  lemma HeadItem<T>(s: seq<T>)
    requires s != []
    ensures multiset(s) == multiset{s[0]} + multiset(s[1..])
  {
    assert s == [s[0]] + s[1..];
  }

  lemma {:induction false} MergeItems<T>(less: Order<T>, a: seq<T>, b: seq<T>)
    ensures multiset(Merge(less, a, b)) == multiset(a) + multiset(b)
  {
    if b == [] || a == [] {
    } else if less(b[0], a[0]) {
      MergeItems(less, a, b[1..]);
      HeadItem(b);
      ConsItems(b[0], Merge(less, a, b[1..]));
    } else {
      MergeItems(less, a[1..], b);
      HeadItem(a);
      ConsItems(a[0], Merge(less, a[1..], b));
    }
  }

  lemma SortedHead<T(!new)>(less: Order<T>, x: T, s: seq<T>)
    requires Sorted(less, s) && forall y :: y in s ==> !less(y, x)
    ensures Sorted(less, [x] + s)
  {
  }

  lemma MergeMembers<T(!new)>(less: Order<T>, a: seq<T>, b: seq<T>, y: T)
    requires y in Merge(less, a, b)
    ensures y in a || y in b
  {
    MergeItems(less, a, b);
    assert y in multiset(Merge(less, a, b));
    assert y in multiset(a) || y in multiset(b);
  }

  lemma NotLessThanHead<T(!new)>(less: Order<T>, s: seq<T>, y: T)
    requires WeakOrder(less) && Sorted(less, s) && s != []
    ensures y in s ==> !less(y, s[0])
  {
    Irreflexive(less, s[0]);
  }

  lemma {:induction false} MergeSorted<T(!new)>(less: Order<T>, a: seq<T>, b: seq<T>)
    requires WeakOrder(less) && Sorted(less, a) && Sorted(less, b)
    ensures Sorted(less, Merge(less, a, b))
  {
    if b == [] || a == [] {
    } else if less(b[0], a[0]) {
      MergeSorted(less, a, b[1..]);
      forall y | y in Merge(less, a, b[1..]) ensures !less(y, b[0]) {
        MergeMembers(less, a, b[1..], y);
        NotLessThanHead(less, b, y);
        NotLessThanHead(less, a, y);
      }
      SortedHead(less, b[0], Merge(less, a, b[1..]));
    } else {
      MergeSorted(less, a[1..], b);
      forall y | y in Merge(less, a[1..], b) ensures !less(y, a[0]) {
        MergeMembers(less, a[1..], b, y);
        NotLessThanHead(less, b, y);
        NotLessThanHead(less, a, y);
      }
      SortedHead(less, a[0], Merge(less, a[1..], b));
    }
  }

  // ----- stability -----

  predicate Equivalent<T>(less: Order<T>, x: T, y: T) {
    !less(x, y) && !less(y, x)
  }

  /** The items the order does not tell from x, in their order in s. */
  function Class<T>(less: Order<T>, s: seq<T>, x: T): seq<T> {
    if s == [] then []
    else if Equivalent(less, s[0], x) then [s[0]] + Class(less, s[1..], x)
    else Class(less, s[1..], x)
  }

  lemma {:induction false} ClassEmpty<T>(less: Order<T>, s: seq<T>, x: T)
    requires forall i :: 0 <= i < |s| ==> !Equivalent(less, s[i], x)
    ensures Class(less, s, x) == []
  {
    if s == [] {
    } else {
      ClassEmpty(less, s[1..], x);
    }
  }

  lemma AllAfter<T(!new)>(less: Order<T>, s: seq<T>, y: T, x: T)
    requires WeakOrder(less) && Sorted(less, s) && s != [] && less(y, s[0]) && Equivalent(less, y, x)
    ensures Class(less, s, x) == []
  {
    forall i | 0 <= i < |s| ensures !Equivalent(less, s[i], x) {
      NotLessThanHead(less, s, s[i]);
      assert less(y, s[i]);
      assert less(y, s[i]) ==> less(y, x) || less(x, s[i]);
    }
    ClassEmpty(less, s, x);
  }

  lemma ClassCons<T>(less: Order<T>, y: T, s: seq<T>, x: T)
    ensures Class(less, [y] + s, x) == (if Equivalent(less, y, x) then [y] else []) + Class(less, s, x)
  {
    assert ([y] + s)[1..] == s;
  }

  /** Items of equal rank: those of the list first, then the new ones, each in their own order. */
  lemma {:induction false} MergeIsStable<T(!new)>(less: Order<T>, a: seq<T>, b: seq<T>, x: T)
    requires WeakOrder(less) && Sorted(less, a)
    ensures Class(less, Merge(less, a, b), x) == Class(less, a, x) + Class(less, b, x)
  {
    if b == [] || a == [] {
    } else if less(b[0], a[0]) {
      MergeIsStable(less, a, b[1..], x);
      ClassCons(less, b[0], Merge(less, a, b[1..]), x);
      if Equivalent(less, b[0], x) { AllAfter(less, a, b[0], x); }
    } else {
      MergeIsStable(less, a[1..], b, x);
      ClassCons(less, a[0], Merge(less, a[1..], b), x);
    }
  }

  lemma {:induction false} ClassMembers<T>(less: Order<T>, s: seq<T>, x: T, y: T)
    ensures y in Class(less, s, x) <==> y in s && Equivalent(less, y, x)
  {
    if s == [] {
    } else {
      ClassMembers(less, s[1..], x, y);
    }
  }

  lemma HeadsAgree<T(!new)>(less: Order<T>, s: seq<T>, t: seq<T>)
    requires WeakOrder(less) && Sorted(less, s) && Sorted(less, t) && s != [] && t != []
    requires forall x :: Class(less, s, x) == Class(less, t, x)
    ensures s[0] == t[0]
  {
    Irreflexive(less, s[0]);
    Irreflexive(less, t[0]);
    ClassMembers(less, s, s[0], s[0]);
    ClassMembers(less, t, s[0], s[0]);
    ClassMembers(less, s, t[0], t[0]);
    ClassMembers(less, t, t[0], t[0]);
    NotLessThanHead(less, t, s[0]);
    NotLessThanHead(less, s, t[0]);
    assert Class(less, s, s[0])[0] == s[0];
    assert Class(less, t, s[0])[0] == t[0];
  }

  lemma Cancel<T>(p: seq<T>, a: seq<T>, b: seq<T>)
    requires p + a == p + b
    ensures a == b
  {
    assert a == (p + a)[|p|..] && b == (p + b)[|p|..];
  }

  lemma OwnClass<T(!new)>(less: Order<T>, s: seq<T>)
    requires WeakOrder(less) && s != []
    ensures Class(less, s, s[0]) != []
  {
    Irreflexive(less, s[0]);
  }

  lemma BothEmpty<T(!new)>(less: Order<T>, s: seq<T>, t: seq<T>)
    requires WeakOrder(less)
    requires forall x :: Class(less, s, x) == Class(less, t, x)
    ensures s == [] <==> t == []
  {
    if s != [] { OwnClass(less, s); }
    if t != [] { OwnClass(less, t); }
  }

  /** Being sorted and the order within each rank leave one list only. */
  lemma {:induction false} StableSortIsUnique<T(!new)>(less: Order<T>, s: seq<T>, t: seq<T>)
    requires WeakOrder(less) && Sorted(less, s) && Sorted(less, t)
    requires forall x :: Class(less, s, x) == Class(less, t, x)
    ensures s == t
  {
    BothEmpty(less, s, t);
    if s != [] {
      HeadsAgree(less, s, t);
      forall x ensures Class(less, s[1..], x) == Class(less, t[1..], x) {
        assert Class(less, s, x) == Class(less, t, x);
        ClassCons(less, s[0], s[1..], x);
        ClassCons(less, t[0], t[1..], x);
        assert [s[0]] + s[1..] == s && [t[0]] + t[1..] == t;
        Cancel(if Equivalent(less, s[0], x) then [s[0]] else [], Class(less, s[1..], x), Class(less, t[1..], x));
      }
      StableSortIsUnique(less, s[1..], t[1..]);
      assert [s[0]] + s[1..] == s && [t[0]] + t[1..] == t;
    }
  }

  /** In each rank: the items of a, then those of b. */
  ghost predicate OldBeforeNew<T(!new)>(less: Order<T>, a: seq<T>, b: seq<T>, r: seq<T>) {
    forall x :: Class(less, r, x) == Class(less, a, x) + Class(less, b, x)
  }

  /** The insertion of a sorted container is the stable merge: any sorted list that has, for each
      rank, the old items and then the new ones is the result. */
  lemma MergeIsTheStableMerge<T(!new)>(less: Order<T>, a: seq<T>, b: seq<T>, r: seq<T>)
    requires WeakOrder(less) && Sorted(less, a) && Sorted(less, b)
    ensures r == Merge(less, a, b) <==> Sorted(less, r) && OldBeforeNew(less, a, b, r)
  {
    var m := Merge(less, a, b);
    MergeSorted(less, a, b);
    forall x ensures Class(less, m, x) == Class(less, a, x) + Class(less, b, x) { MergeIsStable(less, a, b, x); }
    assert OldBeforeNew(less, a, b, m);
    if Sorted(less, r) && OldBeforeNew(less, a, b, r) {
      forall x ensures Class(less, r, x) == Class(less, m, x) {
        assert Class(less, r, x) == Class(less, a, x) + Class(less, b, x);
      }
      StableSortIsUnique(less, r, m);
    }
  }

  lemma InsertedCons<T>(s: seq<T>, p: nat, item: T)
    requires p < |s|
    ensures [s[0]] + (s[1..][..p] + [item] + s[1..][p..]) == s[..p + 1] + [item] + s[p + 1..]
  {
  }

  lemma {:induction false} StopAt<T(!new)>(less: Order<T>, a: seq<T>, b: seq<T>, item: T)
    requires forall i :: 0 <= i < |a| ==> a[i] != item && !less(item, a[i])
    requires b == [] || b[0] == item || less(item, b[0])
    ensures Stop(less, a + b, item) == |a|
  {
    if a == [] {
      assert a + b == b;
    } else {
      StopAt(less, a[1..], b, item);
      assert (a + b)[1..] == a[1..] + b && (a + b)[0] == a[0];
    }
  }

  /** The item goes right behind the longest beginning of the list in which it is neither met nor
      less than anything. */
  lemma InsertedPlace<T(!new)>(less: Order<T>, a: seq<T>, b: seq<T>, item: T)
    requires forall i :: 0 <= i < |a| ==> a[i] != item && !less(item, a[i])
    requires b == [] || b[0] == item || less(item, b[0])
    ensures Inserted(less, a + b, item) == if b != [] && b[0] == item then a + b else a + [item] + b
  {
    StopAt(less, a, b, item);
  }

  /** A container of one new item is the same as the item alone. */
  lemma {:induction false} MergeOne<T(!new)>(less: Order<T>, s: seq<T>, item: T)
    requires item !in s
    ensures Merge(less, s, [item]) == Inserted(less, s, item)
  {
    if s != [] && !less(item, s[0]) {
      MergeOne(less, s[1..], item);
      InsertedCons(s, Stop(less, s[1..], item), item);
    }
  }

  // ----- duplicates -----

  /** The insertion of a container brings a duplicate in exactly when an item is in both or
      twice in the container. */
  lemma MergeDuplicatesIff<T(!new)>(less: Order<T>, a: seq<T>, b: seq<T>)
    requires NoDup(a)
    ensures NoDup(Merge(less, a, b)) <==> NoDup(b) && forall x :: x in b ==> x !in a
  {
    var r := Merge(less, a, b);
    MergeItems(less, a, b);
    NoDupCounts(a);
    NoDupCounts(b);
    NoDupCounts(r);
    forall x ensures multiset(r)[x] == multiset(a)[x] + multiset(b)[x] {}
    forall x ensures x in r <==> x in multiset(r) {}
    forall x ensures (x in a <==> x in multiset(a)) && (x in b <==> x in multiset(b)) {}
    if NoDup(r) {
      forall x | x in b ensures x !in a && multiset(b)[x] == 1 {
        assert x in r && multiset(r)[x] == 1;
      }
    }
    if NoDup(b) && forall x :: x in b ==> x !in a {
      forall x | x in r ensures multiset(r)[x] == 1 {}
    }
  }

  /** The same item again. */
  lemma DuplicateComesIn(less: Order<int>)
    requires WeakOrder(less)
    ensures Merge(less, [5], [5]) == [5, 5] && !NoDup(Merge(less, [5], [5]))
  {
    Irreflexive(less, 5);
    var r := Merge(less, [5], [5]);
    assert Merge(less, [], [5]) == [5];
    assert r[0] == r[1];
  }

  // ----- a changed key -----

  lemma WithoutInserted<T(!new)>(less: Order<T>, s: seq<T>, item: T)
    requires item !in s && Sorted(less, Inserted(less, s, item))
    ensures Sorted(less, s)
  {
    var p, r := Stop(less, s, item), Inserted(less, s, item);
    forall i, j | 0 <= i < j < |s| ensures !less(s[j], s[i]) {
      assert r[if i < p then i else i + 1] == s[i] && r[if j < p then j else j + 1] == s[j];
    }
  }

  /** After the key of one item changed: the list is sorted again, with the same items, exactly
      when the other items stand in order. */
  lemma ItemChangedIff<T(!new)>(less: Order<T>, s: seq<T>, item: T)
    requires WeakOrder(less) && NoDup(s) && item in s
    ensures var r := Changed(less, s, item);
            NoDup(r) && multiset(r) == multiset(s)
            && (Sorted(less, r) <==> Sorted(less, Sequences.RemoveOne(s, item)))
  {
    var rest := Sequences.RemoveOne(s, item);
    RemoveOneNoDup(s, item);
    RemoveOneItems(s, item);
    InsertAbsent(less, rest, item);
    if Sorted(less, rest) { InsertKeepsSorted(less, rest, item); }
    if Sorted(less, Inserted(less, rest, item)) { WithoutInserted(less, rest, item); }
  }

  // ----- the list -----

  class SortedList<T(==,!new)> {
    /** The order as the keys of the items stand now: whoever changes a key changes it. */
    var lesserThan: Order<T>
    var list: seq<T>

    constructor (lesserThan: Order<T>)
      ensures this.lesserThan == lesserThan && list == []
    {
      this.lesserThan := lesserThan;
      list := [];
    }

    method Insert(item: T)
      modifies this`list
      ensures list == Inserted(lesserThan, old(list), item)
    {
      for i := 0 to |list|
        invariant list == old(list)
        invariant forall j :: 0 <= j < i ==> !Stops(lesserThan, list[j], item)
      {
        var e := list[i];
        if e == item { return; }
        if lesserThan(item, e) {
          list := list[..i] + [item] + list[i..];
          return;
        }
      }
      list := list + [item];
    }

    /** The insertion of a whole container; the cursor j is never moved back. */
    method InsertAll(items: seq<T>)
      modifies this`list
      ensures list == Merge(lesserThan, old(list), items)
    {
      var j := 0;
      for i := 0 to |items|
        invariant j <= |list| && MergedUpTo(lesserThan, old(list), items, list, j, i)
      {
        var ei := items[i];
        while j < |list| && !lesserThan(ei, list[j])
          invariant j <= |list| && MergedUpTo(lesserThan, old(list), items, list, j, i)
        {
          MergePasses(lesserThan, list, j, items[i..]);
          j := j + 1;
        }
        MergeTakes(lesserThan, list, j, items, i);
        list := list[..j] + [ei] + list[j..];
        j := j + 1;
      }
    }

    method RemoveOne(item: T)
      modifies this`list
      ensures item !in old(list) ==> list == old(list)
      ensures forall a, b :: old(list) == a + [item] + b && item !in a ==> list == a + b
      ensures list == Sequences.RemoveOne(old(list), item)
    {
      forall a, b | list == a + [item] + b && item !in a ensures Sequences.RemoveOne(list, item) == a + b {
        RemovesFirst(list, item, a, b);
      }
      list := Sequences.RemoveOne(list, item);
    }

    method ItemChanged(item: T)
      modifies this`list
      ensures list == Changed(lesserThan, old(list), item)
    {
      RemoveOne(item);
      Insert(item);
    }

    method Clear()
      modifies this`list
      ensures list == []
    {
      list := [];
    }
  }
}
