/** Common::Tree: nodes with a parent pointer and a list of children that is edited in place.
    S is the set of the nodes constructed and not yet deleted. */
module Trees {
  import opened Sequences

  lemma RemoveFirst<T>(s: seq<T>)
    requires s != []
    ensures RemoveOne(s, s[0]) == s[1..]
  {
    assert s[0] in s && IndexOf(s, s[0]) == 0;
  }

  // ----- lists of children -----

  /** QList::move. */
  function Moved<T>(s: seq<T>, from: nat, to: nat): (r: seq<T>)
    requires from < |s| && to < |s|
    ensures |r| == |s|
  {
    var rest := s[..from] + s[from + 1..];
    rest[..to] + [s[from]] + rest[to..]
  }

  function Inserted<T>(s: seq<T>, pos: nat, x: T): (r: seq<T>)
    requires pos <= |s|
    ensures |r| == |s| + 1
  {
    s[..pos] + [x] + s[pos..]
  }

  /** The child stands at its new position, and the others in their order. */
  lemma MovedAt<T>(s: seq<T>, from: nat, to: nat)
    requires from < |s| && to < |s|
    ensures var r := Moved(s, from, to); r[to] == s[from] && r[..to] + r[to + 1..] == s[..from] + s[from + 1..]
  {
    var rest := s[..from] + s[from + 1..];
    var r := Moved(s, from, to);
    assert r[..to] == rest[..to] && r[to + 1..] == rest[to..];
  }

  lemma InsertedAt<T>(s: seq<T>, at: nat, x: T)
    requires at <= |s|
    ensures var r := Inserted(s, at, x); r[at] == x && r[..at] + r[at + 1..] == s
  {
    var r := Inserted(s, at, x);
    assert r[..at] == s[..at] && r[at + 1..] == s[at..];
  }

  lemma InsertedElements<T>(s: seq<T>, at: nat, x: T)
    requires NoDup(s) && at <= |s| && x !in s
    ensures NoDup(Inserted(s, at, x))
    ensures forall y :: y in Inserted(s, at, x) <==> y in s || y == x
  {
    var r := Inserted(s, at, x);
    assert forall i :: 0 <= i < |r| ==> r[i] == if i < at then s[i] else if i == at then x else s[i - 1];
    assert s == s[..at] + s[at..];
  }

  lemma MovedElements<T>(s: seq<T>, from: nat, to: nat)
    requires NoDup(s) && from < |s| && to < |s|
    ensures NoDup(Moved(s, from, to))
    ensures forall x :: x in Moved(s, from, to) <==> x in s
  {
    var rest := WithoutAt(s, from);
    WithoutAtNoDup(s, from);
    InsertedElements(rest, to, s[from]);
    assert Moved(s, from, to) == Inserted(rest, to, s[from]);
  }

  // ----- links and subtrees -----

  ghost predicate NodeOk<Item>(n: Tree<Item>, S: set<Tree<Item>>)
    requires n in S
    reads S
  {
    && n.alive
    && NoDup(n.children)
    && (forall c :: c in n.children ==> c in S && c.parent == n && c.depth == n.depth + 1)
    && (n.parent != null ==> n.parent in S && n in n.parent.children)
  }

  /** Parent and child links agree and no child is listed twice. */
  ghost predicate Inv<Item>(S: set<Tree<Item>>)
    reads S
  {
    forall n {:trigger NodeOk(n, S)} :: n in S ==> NodeOk(n, S)
  }

  /** a is n or one of its ancestors. */
  ghost predicate Above<Item>(a: Tree<Item>, n: Tree<Item>)
    decreases n.depth
  {
    a == n || (n.parent != null && n.parent.depth < n.depth && Above(a, n.parent))
  }

  /** The subtree of a: a and all nodes under it. */
  ghost function Below<Item>(a: Tree<Item>, S: set<Tree<Item>>): set<Tree<Item>> {
    set n | n in S && Above(a, n)
  }

  lemma BelowSelf<Item>(a: Tree<Item>, S: set<Tree<Item>>)
    requires a in S
    ensures a in Below(a, S)
  {
  }

  lemma BelowShrinks<Item>(a: Tree<Item>, S: set<Tree<Item>>, T: set<Tree<Item>>)
    requires S <= T
    ensures Below(a, S) <= Below(a, T)
  {
  }

  lemma {:induction false} AboveDepth<Item>(a: Tree<Item>, n: Tree<Item>)
    requires Above(a, n)
    ensures a.depth <= n.depth && (a != n ==> a.depth < n.depth)
    decreases n.depth
  {
    if a != n { AboveDepth(a, n.parent); }
  }

  lemma {:induction false} AboveTrans<Item>(a: Tree<Item>, b: Tree<Item>, n: Tree<Item>)
    requires Above(a, b) && Above(b, n)
    ensures Above(a, n)
    decreases n.depth
  {
    if b != n {
      AboveTrans(a, b, n.parent);
    }
  }

  /** The subtree of a child is part of its parent's, without the parent. */
  lemma BelowChild<Item>(a: Tree<Item>, c: Tree<Item>, S: set<Tree<Item>>)
    requires Inv(S) && a in S && c in a.children
    ensures c in S && Below(c, S) <= Below(a, S) - {a}
  {
    assert NodeOk(a, S);
    assert Above(a, a);
    forall n | n in Below(c, S) ensures n in Below(a, S) && n != a {
      AboveTrans(a, c, n);
      AboveDepth(c, n);
    }
  }

  /** Below a node there is the node and what is below its children. */
  lemma {:induction false} ThroughChild<Item>(a: Tree<Item>, n: Tree<Item>, S: set<Tree<Item>>) returns (c: Tree<Item>)
    requires Inv(S) && a in S && n in Below(a, S) && n != a
    ensures c in a.children && Above(c, n)
    decreases n.depth
  {
    assert NodeOk(n, S);
    if n.parent == a {
      c := n;
    } else {
      c := ThroughChild(a, n.parent, S);
    }
  }

  lemma OnlySelf<Item>(a: Tree<Item>, S: set<Tree<Item>>)
    requires Inv(S) && a in S && a.children == []
    ensures forall n :: n in S && Above(a, n) ==> n == a
  {
    forall n | n in S && Above(a, n) ensures n == a {
      if n != a {
        var c := ThroughChild(a, n, S);
      }
    }
  }

  // ----- the nodes -----

  /** No member of Tree.h reassigns `parent`, so it is a constant here.  `alive` is false once
      the destructor has run; `depth` bears out that parent links do not run in circles. */
  class Tree<Item> {
    var item: Item
    const parent: Tree?<Item>
    var children: seq<Tree<Item>>
    ghost var alive: bool
    ghost const depth: nat

    constructor (item: Item, parent: Tree?<Item>)
      ensures this.item == item && this.parent == parent && children == [] && alive
      ensures parent != null ==> depth == parent.depth + 1
      ensures parent == null ==> Inv({this})
    {
      this.item, this.parent, children, alive := item, parent, [], true;
      depth := if parent == null then 0 else parent.depth + 1;
    }

    /** QList::move on the list of children; out-of-range positions are ignored. */
    method MoveChild(from: nat, to: nat, ghost S: set<Tree<Item>>)
      requires Inv(S) && this in S
      modifies this`children
      ensures Inv(S)
      ensures |children| == |old(children)|
      ensures if from < |old(children)| && to < |old(children)|
              then && children[to] == old(children)[from]
                   && children[..to] + children[to + 1..] == old(children)[..from] + old(children)[from + 1..]
              else children == old(children)
    {
      if from >= |children| || to >= |children| {
        return;
      }
      assert NodeOk(this, S);
      MovedElements(children, from, to);
      MovedAt(children, from, to);
      children := Moved(children, from, to);
      forall n | n in S ensures NodeOk(n, S) {
        assert old(NodeOk(n, S));
      }
    }

    /** std::sort on the list of children; `sorted` is the order it leaves. */
    method Sort(sorted: seq<Tree<Item>>, ghost S: set<Tree<Item>>)
      requires Inv(S) && this in S && multiset(sorted) == multiset(children)
      modifies this`children
      ensures Inv(S) && children == sorted
    {
      assert NodeOk(this, S);
      NoDupCounts(children);
      forall x | x in sorted ensures multiset(sorted)[x] == 1 {
        assert x in multiset(sorted);
      }
      NoDupCounts(sorted);
      assert forall x :: x in children <==> x in multiset(sorted);
      children := sorted;
      forall n | n in S ensures NodeOk(n, S) {
        assert old(NodeOk(n, S));
      }
    }

    /** insertChild(item, pos): a new leaf at pos, or at the end when pos is too large. */
    method InsertChild(item: Item, pos: nat, ghost S: set<Tree<Item>>) returns (tree: Tree<Item>)
      requires Inv(S) && this in S
      modifies this`children
      ensures fresh(tree) && tree.item == item && tree.parent == this && tree.children == []
      ensures Inv(S + {tree})
      ensures var at := if pos > |old(children)| then |old(children)| else pos;
              && |children| == |old(children)| + 1 && children[at] == tree
              && children[..at] + children[at + 1..] == old(children)
    {
      var at := pos;
      if at > |children| {
        at := |children|;
      }
      tree := new Tree(item, this);
      assert tree !in S;
      assert NodeOk(this, S);
      InsertedElements(children, at, tree);
      InsertedAt(children, at, tree);
      children := Inserted(children, at, tree);
      forall n | n in S + {tree} ensures NodeOk(n, S + {tree}) {
        assert n in S ==> old(NodeOk(n, S));
      }
    }

    /** A node that has a parent stands at its own position in the parent's list. */
    method GetOwnPosition(ghost S: set<Tree<Item>>) returns (pos: int)
      requires Inv(S) && this in S
      ensures if parent == null then pos == 0
              else 0 <= pos < |parent.children| && parent.children[pos] == this
    {
      assert NodeOk(this, S);
      if parent != null {
        IndexOfFirst(parent.children, this);
        return IndexOf(parent.children, this);
      }
      return 0;
    }

    /** The end of the destructor, once no child is left. */
    method Unlink(ghost S: set<Tree<Item>>)
      requires Inv(S) && this in S && children == []
      modifies `alive, (if parent == null then {} else {parent})`children
      ensures Inv(S - {this}) && !alive
      ensures parent != null ==> parent.children == RemoveOne(old(parent.children), this)
    {
      assert NodeOk(this, S);
      if parent != null {
        assert NodeOk(parent, S);
        RemoveOneNoDup(parent.children, this);
        parent.children := RemoveOne(parent.children, this);
      }
      alive := false;
      forall n | n in S - {this} ensures NodeOk(n, S - {this}) {
        assert old(NodeOk(n, S));
      }
    }

    /** The destructor: the children are deleted first, each of them taking itself out of the
        list of this node; then this node takes itself out of its parent's list. */
    method Destroy(ghost S: set<Tree<Item>>)
      requires Inv(S) && this in S
      modifies Below(this, S), (if parent == null then {} else {parent})`children
      ensures Inv(S - Below(this, S))
      ensures forall n :: n in Below(this, S) ==> !n.alive
      ensures parent != null ==> parent.children == RemoveOne(old(parent.children), this)
      ensures parent != null ==>
                forall a: seq<Tree<Item>>, b :: old(parent.children) == a + [this] + b && this !in a ==>
                  parent.children == a + b
      decreases Below(this, S), 1
    {
      ghost var siblings: seq<Tree<Item>> := if parent == null then [] else parent.children;
      BelowSelf(this, S);
      DestroyChildren(S);
      ghost var left := S - Below(this, S) + {this};
      assert NodeOk(this, left);
      Unlink(left);
      assert left - {this} == S - Below(this, S);
      forall a: seq<Tree<Item>>, b | siblings == a + [this] + b && this !in a
        ensures RemoveOne(siblings, this) == a + b
      {
        RemovesFirst(siblings, this, a, b);
      }
    }

    /** The loop over a copy of the list of children. */
    method DestroyChildren(ghost S: set<Tree<Item>>)
      requires Inv(S) && this in S
      modifies Below(this, S) - {this}, this`children
      ensures children == [] && Inv(S - Below(this, S) + {this})
      ensures forall n :: n in Below(this, S) && n != this ==> !n.alive
      decreases Below(this, S), 0
    {
      var list := children;
      ghost var left := S;
      var i := 0;
      assert NodeOk(this, S);
      assert list[i..] == list;
      while i < |list|
        invariant 0 <= i <= |list|
        invariant children == list[i..] && Inv(left) && this in left && left <= S
        invariant forall n :: n in S && n !in left ==> Above(this, n) && n != this && !n.alive
      {
        var c := list[i];
        assert c == children[0] && NodeOk(this, left);
        BelowChild(this, c, left);
        BelowShrinks(this, left, S);
        RemoveFirst(children);
        c.Destroy(left);
        left := left - Below(c, left);
        i := i + 1;
      }
      OnlySelf(this, left);
      assert left == S - Below(this, S) + {this};
    }

    method DeleteAllChildren(ghost S: set<Tree<Item>>)
      requires Inv(S) && this in S
      modifies Below(this, S) - {this}, this`children
      ensures children == [] && Inv(S - Below(this, S) + {this})
      ensures forall n :: n in Below(this, S) && n != this ==> !n.alive
    {
      DestroyChildren(S);
      children := [];
    }
  }
}
