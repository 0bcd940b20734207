/** The value a subtree stands for, and the three orders in which its nodes can be listed. */
module TreeOrders {
  import opened Sequences
  import opened Trees

  datatype Shape<!Item> = Shape(node: Tree<Item>, kids: seq<Shape<Item>>)

  function Roots<Item>(ks: seq<Shape<Item>>): seq<Tree<Item>> {
    seq(|ks|, i requires 0 <= i < |ks| => ks[i].node)
  }

  /** The nodes of S hold this shape. */
  ghost predicate Linked<Item>(sh: Shape<Item>, S: set<Tree<Item>>)
    reads S
  {
    && sh.node in S
    && sh.node.children == Roots(sh.kids)
    && forall k :: k in sh.kids ==> Linked(k, S)
  }

  ghost predicate AllLinked<Item>(ks: seq<Shape<Item>>, S: set<Tree<Item>>)
    reads S
  {
    forall k :: k in ks ==> Linked(k, S)
  }

  /** Every subtree has a shape. */
  ghost function ShapeOf<Item>(n: Tree<Item>, S: set<Tree<Item>>): (sh: Shape<Item>)
    requires Inv(S) && n in S
    reads S
    ensures sh.node == n && Linked(sh, S)
    decreases Below(n, S)
  {
    assert NodeOk(n, S);
    assert forall c :: c in n.children ==> c in S && Below(c, S) < Below(n, S) by {
      BelowSelf(n, S);
      forall c | c in n.children ensures c in S && Below(c, S) < Below(n, S) {
        BelowChild(n, c, S);
      }
    }
    var cs := n.children;
    Shape(n, seq(|cs|, i requires 0 <= i < |cs| && Inv(S) && cs[i] in S && Below(cs[i], S) < Below(n, S) reads S =>
      ShapeOf(cs[i], S)))
  }

  /** ... and only one. */
  lemma {:induction false} ShapeUnique<Item>(a: Shape<Item>, b: Shape<Item>, S: set<Tree<Item>>)
    requires Linked(a, S) && Linked(b, S) && a.node == b.node
    ensures a == b
  {
    assert |a.kids| == |Roots(a.kids)| == |Roots(b.kids)| == |b.kids|;
    forall i | 0 <= i < |a.kids| ensures a.kids[i] == b.kids[i] {
      assert Roots(a.kids)[i] == Roots(b.kids)[i];
      assert a.kids[i] in a.kids && b.kids[i] in b.kids;
      ShapeUnique(a.kids[i], b.kids[i], S);
    }
    assert a.kids == b.kids;
  }

  // ----- the orders -----

  function Pre<Item>(sh: Shape<Item>): seq<Tree<Item>> {
    [sh.node] + PreAll(sh.kids)
  }

  function PreAll<Item>(ks: seq<Shape<Item>>): seq<Tree<Item>> {
    if ks == [] then [] else Pre(ks[0]) + PreAll(ks[1..])
  }

  function Post<Item>(sh: Shape<Item>): seq<Tree<Item>> {
    PostAll(sh.kids) + [sh.node]
  }

  function PostAll<Item>(ks: seq<Shape<Item>>): seq<Tree<Item>> {
    if ks == [] then [] else Post(ks[0]) + PostAll(ks[1..])
  }

  /** The children of ks, one list after the other. */
  function NextLevel<Item>(ks: seq<Shape<Item>>): seq<Shape<Item>> {
    if ks == [] then [] else ks[0].kids + NextLevel(ks[1..])
  }

  function Size<Item>(ks: seq<Shape<Item>>): nat {
    if ks == [] then 0 else 1 + Size(ks[0].kids) + Size(ks[1..])
  }

  lemma {:induction false} SizeAppend<Item>(a: seq<Shape<Item>>, b: seq<Shape<Item>>)
    ensures Size(a + b) == Size(a) + Size(b)
  {
    if a == [] {
      assert a + b == b;
    } else {
      SizeAppend(a[1..], b);
      assert (a + b)[1..] == a[1..] + b;
    }
  }

  lemma {:induction false} SizeNextLevel<Item>(ks: seq<Shape<Item>>)
    ensures Size(NextLevel(ks)) == Size(ks) - |ks|
  {
    if ks == [] {
    } else {
      SizeNextLevel(ks[1..]);
      SizeAppend(ks[0].kids, NextLevel(ks[1..]));
    }
  }

  /** Level by level. */
  function Levels<Item>(ks: seq<Shape<Item>>): seq<Tree<Item>>
    decreases Size(ks)
  {
    if ks == [] then []
    else
      SizeNextLevel(ks);
      Roots(ks) + Levels(NextLevel(ks))
  }

  // ----- concatenation -----

  lemma {:induction false} PreAppend<Item>(a: seq<Shape<Item>>, b: seq<Shape<Item>>)
    ensures PreAll(a + b) == PreAll(a) + PreAll(b)
  {
    if a == [] {
      assert a + b == b;
    } else {
      PreAppend(a[1..], b);
      assert (a + b)[1..] == a[1..] + b;
      Assoc(Pre(a[0]), PreAll(a[1..]), PreAll(b));
    }
  }

  lemma {:induction false} PostAppend<Item>(a: seq<Shape<Item>>, b: seq<Shape<Item>>)
    ensures PostAll(a + b) == PostAll(a) + PostAll(b)
  {
    if a == [] {
      assert a + b == b;
    } else {
      PostAppend(a[1..], b);
      assert (a + b)[1..] == a[1..] + b;
      Assoc(Post(a[0]), PostAll(a[1..]), PostAll(b));
    }
  }

  lemma {:induction false} NextLevelAppend<Item>(a: seq<Shape<Item>>, b: seq<Shape<Item>>)
    ensures NextLevel(a + b) == NextLevel(a) + NextLevel(b)
  {
    if a == [] {
      assert a + b == b;
    } else {
      NextLevelAppend(a[1..], b);
      assert (a + b)[1..] == a[1..] + b;
      Assoc(a[0].kids, NextLevel(a[1..]), NextLevel(b));
    }
  }

  // ----- every order lists every node of the subtree once -----

  /** The nodes under the trees of ks. */
  ghost function Under<Item>(ks: seq<Shape<Item>>, S: set<Tree<Item>>): set<Tree<Item>> {
    set k, n | k in ks && n in Below(k.node, S) :: n
  }

  /** Siblings have nothing below them in common. */
  lemma {:induction false} SameAncestor<Item>(a: Tree<Item>, b: Tree<Item>, n: Tree<Item>)
    requires Above(a, n) && Above(b, n) && a.depth == b.depth
    ensures a == b
    decreases n.depth
  {
    if a == n {
      AboveDepth(b, n);
    } else if b == n {
      AboveDepth(a, n);
    } else {
      SameAncestor(a, b, n.parent);
    }
  }

  lemma KidOf<Item>(sh: Shape<Item>, k: Shape<Item>, S: set<Tree<Item>>)
    requires Inv(S) && Linked(sh, S) && k in sh.kids
    ensures k.node in sh.node.children && k.node.parent == sh.node && k.node.depth == sh.node.depth + 1
  {
    assert NodeOk(sh.node, S);
    var i :| 0 <= i < |sh.kids| && sh.kids[i] == k;
    assert Roots(sh.kids)[i] == k.node;
  }

  lemma BelowIsUnder<Item>(sh: Shape<Item>, S: set<Tree<Item>>)
    requires Inv(S) && Linked(sh, S)
    ensures sh.node !in Under(sh.kids, S) && Below(sh.node, S) == {sh.node} + Under(sh.kids, S)
  {
    var rest := Under(sh.kids, S);
    forall n | n in rest ensures n in Below(sh.node, S) && n != sh.node {
      var k :| k in sh.kids && n in Below(k.node, S);
      KidOf(sh, k, S);
      BelowChild(sh.node, k.node, S);
    }
    forall n | n in Below(sh.node, S) && n != sh.node ensures n in rest {
      var c := ThroughChild(sh.node, n, S);
      var i :| 0 <= i < |sh.kids| && Roots(sh.kids)[i] == c;
      assert sh.kids[i] in sh.kids && n in Below(sh.kids[i].node, S);
    }
    BelowSelf(sh.node, S);
  }

  lemma MultisetUnion<T>(a: set<T>, b: set<T>)
    requires a !! b
    ensures multiset(a + b) == multiset(a) + multiset(b)
  {
  }

  lemma SiblingPair<Item>(sh: Shape<Item>, i: nat, j: nat, S: set<Tree<Item>>)
    requires Inv(S) && Linked(sh, S) && i < j < |sh.kids|
    ensures Below(sh.kids[i].node, S) !! Below(sh.kids[j].node, S)
  {
    assert sh.kids[i] in sh.kids && sh.kids[j] in sh.kids;
    KidOf(sh, sh.kids[i], S);
    KidOf(sh, sh.kids[j], S);
    assert NodeOk(sh.node, S);
    assert Roots(sh.kids)[i] != Roots(sh.kids)[j];
    forall n | n in Below(sh.kids[i].node, S) ensures n !in Below(sh.kids[j].node, S) {
      if n in Below(sh.kids[j].node, S) {
        SameAncestor(sh.kids[i].node, sh.kids[j].node, n);
      }
    }
  }

  /** The tree at position `at` shares no node with the trees after it. */
  lemma SiblingsApart<Item>(sh: Shape<Item>, at: nat, S: set<Tree<Item>>)
    requires Inv(S) && Linked(sh, S) && at < |sh.kids|
    ensures Below(sh.kids[at].node, S) !! Under(sh.kids[at + 1..], S)
    ensures Under(sh.kids[at..], S) == Below(sh.kids[at].node, S) + Under(sh.kids[at + 1..], S)
  {
    var rest := sh.kids[at + 1..];
    forall k | k in rest ensures Below(sh.kids[at].node, S) !! Below(k.node, S) {
      var j :| 0 <= j < |rest| && rest[j] == k;
      SiblingPair(sh, at, at + 1 + j, S);
    }
    assert sh.kids[at..] == [sh.kids[at]] + rest;
  }

  lemma TailOf<T>(s: seq<T>, t: seq<T>, at: nat)
    requires at < |s| && t == s[at..]
    ensures t[0] == s[at] && t[0] in s && t[1..] == s[at + 1..]
  {
  }

  lemma {:induction false} PreOnce<Item>(sh: Shape<Item>, S: set<Tree<Item>>)
    requires Inv(S) && Linked(sh, S)
    ensures multiset(Pre(sh)) == multiset(Below(sh.node, S))
    decreases sh, 1
  {
    PreAllOnce(sh, sh.kids, S);
    BelowIsUnder(sh, S);
    MultisetUnion({sh.node}, Under(sh.kids, S));
  }

  lemma {:induction false} PreAllOnce<Item>(sh: Shape<Item>, ks: seq<Shape<Item>>, S: set<Tree<Item>>)
    requires Inv(S) && Linked(sh, S) && |ks| <= |sh.kids| && ks == sh.kids[|sh.kids| - |ks|..]
    ensures multiset(PreAll(ks)) == multiset(Under(ks, S))
    decreases sh, 0, |ks|
  {
    if ks == [] {
    } else {
      var at := |sh.kids| - |ks|;
      TailOf(sh.kids, ks, at);
      PreOnce(ks[0], S);
      PreAllOnce(sh, ks[1..], S);
      SiblingsApart(sh, at, S);
      MultisetUnion(Below(ks[0].node, S), Under(ks[1..], S));
    }
  }

  lemma {:induction false} PostOnce<Item>(sh: Shape<Item>)
    ensures multiset(Post(sh)) == multiset(Pre(sh))
    decreases sh, 1
  {
    PostAllOnce(sh.kids);
  }

  lemma {:induction false} PostAllOnce<Item>(ks: seq<Shape<Item>>)
    ensures multiset(PostAll(ks)) == multiset(PreAll(ks))
    decreases ks, 0
  {
    if ks == [] {
    } else {
      PostOnce(ks[0]);
      PostAllOnce(ks[1..]);
    }
  }

  lemma PreUnfold<Item>(ks: seq<Shape<Item>>)
    requires ks != []
    ensures PreAll(ks) == [ks[0].node] + PreAll(ks[0].kids) + PreAll(ks[1..])
  {
  }

  lemma RootsUnfold<Item>(ks: seq<Shape<Item>>)
    requires ks != []
    ensures Roots(ks) == [ks[0].node] + Roots(ks[1..])
  {
  }

  lemma NextUnfold<Item>(ks: seq<Shape<Item>>)
    requires ks != []
    ensures PreAll(NextLevel(ks)) == PreAll(ks[0].kids) + PreAll(NextLevel(ks[1..]))
  {
    PreAppend(ks[0].kids, NextLevel(ks[1..]));
  }

  lemma Regroup<T>(x: T, first: seq<T>, rest: seq<T>, roots: seq<T>, next: seq<T>)
    requires multiset(rest) == multiset(roots) + multiset(next)
    ensures multiset([x] + first + rest) == multiset([x] + roots) + multiset(first + next)
  {
  }

  lemma {:induction false} OneLevel<Item>(ks: seq<Shape<Item>>)
    ensures multiset(PreAll(ks)) == multiset(Roots(ks)) + multiset(PreAll(NextLevel(ks)))
  {
    if ks == [] {
    } else {
      OneLevel(ks[1..]);
      PreUnfold(ks);
      RootsUnfold(ks);
      NextUnfold(ks);
      var below, rest, roots, next := PreAll(ks[0].kids), PreAll(ks[1..]), Roots(ks[1..]), PreAll(NextLevel(ks[1..]));
      Regroup(ks[0].node, below, rest, roots, next);
    }
  }

  lemma {:induction false} LevelsOnce<Item>(ks: seq<Shape<Item>>)
    ensures multiset(Levels(ks)) == multiset(PreAll(ks))
    decreases Size(ks)
  {
    if ks == [] {
    } else {
      SizeNextLevel(ks);
      LevelsOnce(NextLevel(ks));
      OneLevel(ks);
    }
  }

  // ----- what tells the orders apart -----

  lemma {:induction false} NextLevelLinked<Item>(ks: seq<Shape<Item>>, S: set<Tree<Item>>, d: nat)
    requires Inv(S) && AllLinked(ks, S) && forall k :: k in ks ==> k.node.depth == d
    ensures AllLinked(NextLevel(ks), S) && forall k :: k in NextLevel(ks) ==> k.node.depth == d + 1
  {
    if ks == [] {
    } else {
      NextLevelLinked(ks[1..], S, d);
      forall k | k in ks[0].kids ensures Linked(k, S) && k.node.depth == d + 1 {
        KidOf(ks[0], k, S);
      }
    }
  }

  /** Level order never goes back to a smaller depth. */
  lemma RootsAt<Item>(ks: seq<Shape<Item>>, d: nat)
    requires forall k :: k in ks ==> k.node.depth == d
    ensures forall n :: n in Roots(ks) ==> n.depth == d
  {
  }

  lemma LevelThenDeeper<Item>(a: seq<Tree<Item>>, b: seq<Tree<Item>>, d: nat)
    requires (forall n :: n in a ==> n.depth == d) && (forall n :: n in b ==> n.depth >= d + 1)
    requires forall i, j :: 0 <= i <= j < |b| ==> b[i].depth <= b[j].depth
    ensures forall n :: n in a + b ==> n.depth >= d
    ensures forall i, j :: 0 <= i <= j < |a + b| ==> (a + b)[i].depth <= (a + b)[j].depth
  {
  }

  lemma {:induction false} LevelsByDepth<Item>(ks: seq<Shape<Item>>, S: set<Tree<Item>>, d: nat)
    requires Inv(S) && AllLinked(ks, S) && forall k :: k in ks ==> k.node.depth == d
    ensures forall n :: n in Levels(ks) ==> n.depth >= d
    ensures forall i, j :: 0 <= i <= j < |Levels(ks)| ==> Levels(ks)[i].depth <= Levels(ks)[j].depth
    decreases Size(ks)
  {
    if ks == [] {
    } else {
      SizeNextLevel(ks);
      NextLevelLinked(ks, S, d);
      LevelsByDepth(NextLevel(ks), S, d + 1);
      RootsAt(ks, d);
      LevelThenDeeper(Roots(ks), Levels(NextLevel(ks)), d);
    }
  }

  function Reversed<T>(s: seq<T>): seq<T> {
    if s == [] then [] else Reversed(s[1..]) + [s[0]]
  }

  lemma {:induction false} ReversedAppend<T>(a: seq<T>, b: seq<T>)
    ensures Reversed(a + b) == Reversed(b) + Reversed(a)
  {
    if a == [] {
      assert a + b == b;
    } else {
      ReversedAppend(a[1..], b);
      assert (a + b)[1..] == a[1..] + b;
      Assoc(Reversed(b), Reversed(a[1..]), [a[0]]);
    }
  }

  /** The tree with every list of children turned round. */
  function Mirror<Item>(sh: Shape<Item>): Shape<Item> {
    Shape(sh.node, MirrorAll(sh.kids))
  }

  function MirrorAll<Item>(ks: seq<Shape<Item>>): seq<Shape<Item>> {
    if ks == [] then [] else MirrorAll(ks[1..]) + [Mirror(ks[0])]
  }

  /** Postorder is the preorder of the mirrored tree, backwards. */
  lemma {:induction false} PostIsMirroredPre<Item>(sh: Shape<Item>)
    ensures Post(sh) == Reversed(Pre(Mirror(sh)))
    decreases sh, 1
  {
    PostAllIsMirroredPre(sh.kids);
    ReversedAppend([sh.node], PreAll(MirrorAll(sh.kids)));
  }

  lemma {:induction false} PostAllIsMirroredPre<Item>(ks: seq<Shape<Item>>)
    ensures PostAll(ks) == Reversed(PreAll(MirrorAll(ks)))
    decreases ks, 0
  {
    if ks == [] {
    } else {
      PostIsMirroredPre(ks[0]);
      PostAllIsMirroredPre(ks[1..]);
      PreAppend(MirrorAll(ks[1..]), [Mirror(ks[0])]);
      var m := Mirror(ks[0]);
      assert PreAll([m]) == Pre(m) by {
        assert [m][1..] == [];
        assert Pre(m) + [] == Pre(m);
      }
      ReversedAppend(PreAll(MirrorAll(ks[1..])), Pre(Mirror(ks[0])));
    }
  }
}
