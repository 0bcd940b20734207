/** What the three orders mean for the places of the nodes: a place is the list of child positions
    that leads from the root of the subtree to the node. */
module TreePaths {
  import opened Sequences
  import opened Trees
  import opened TreeOrders
  import opened TreeIterators

  type Place = seq<nat>

  ghost predicate LeftAt(p: Place, q: Place, l: nat) {
    l < |p| && l < |q| && p[..l] == q[..l] && p[l] < q[l]
  }

  /** The first step at which p and q differ leads further left in p. */
  ghost predicate LeftOf(p: Place, q: Place) {
    exists l :: LeftAt(p, q, l)
  }

  /** Preorder (or postorder): what is above comes before (or behind), and else what is left of it. */
  ghost predicate Comes(post: bool, p: Place, q: Place) {
    LeftOf(p, q) || (if post then q < p else p < q)
  }

  /** Level order: what is higher comes before, and on one level what is left of it. */
  ghost predicate HigherOrLeft(p: Place, q: Place) {
    |p| < |q| || (|p| == |q| && LeftOf(p, q))
  }

  ghost predicate StandsAt<Item>(sh: Shape<Item>, n: Tree<Item>, p: Place) {
    IsPath(sh, p) && At(sh, p).node == n
  }

  /** The nodes listed stand at those places. */
  ghost predicate Stand<Item>(sh: Shape<Item>, nodes: seq<Tree<Item>>, places: seq<Place>) {
    |places| == |nodes| && forall i :: 0 <= i < |nodes| ==> StandsAt(sh, nodes[i], places[i])
  }

  ghost predicate InTurn(post: bool, places: seq<Place>) {
    forall i, j :: 0 <= i < j < |places| ==> Comes(post, places[i], places[j])
  }

  function Below(i: nat, places: seq<Place>): seq<Place> {
    seq(|places|, k requires 0 <= k < |places| => [i] + places[k])
  }

  // ----- preorder and postorder -----

  lemma ComesBelow(post: bool, i: nat, p: Place, q: Place)
    requires Comes(post, p, q)
    ensures Comes(post, [i] + p, [i] + q)
  {
    if LeftOf(p, q) {
      var l: nat :| LeftAt(p, q, l);
      assert ([i] + p)[..l + 1] == [i] + p[..l] && ([i] + q)[..l + 1] == [i] + q[..l];
      assert LeftAt([i] + p, [i] + q, l + 1);
    }
  }

  lemma InTurnBelow(post: bool, i: nat, places: seq<Place>)
    requires InTurn(post, places)
    ensures InTurn(post, Below(i, places))
  {
    var b := Below(i, places);
    forall j, k | 0 <= j < k < |b| ensures Comes(post, b[j], b[k]) {
      ComesBelow(post, i, places[j], places[k]);
    }
  }

  lemma StandBelow<Item>(sh: Shape<Item>, i: nat, nodes: seq<Tree<Item>>, places: seq<Place>)
    requires i < |sh.kids| && Stand(sh.kids[i], nodes, places)
    ensures Stand(sh, nodes, Below(i, places))
  {
    forall k | 0 <= k < |nodes| ensures StandsAt(sh, nodes[k], Below(i, places)[k]) {
      assert StandsAt(sh.kids[i], nodes[k], places[k]);
      assert ([i] + places[k])[1..] == places[k];
    }
  }

  lemma StandAppend<Item>(sh: Shape<Item>, a: seq<Tree<Item>>, b: seq<Tree<Item>>, p: seq<Place>, q: seq<Place>)
    requires Stand(sh, a, p) && Stand(sh, b, q)
    ensures Stand(sh, a + b, p + q)
  {
  }

  /** All from child position i on. */
  ghost predicate From(i: nat, places: seq<Place>) {
    forall k :: 0 <= k < |places| ==> places[k] != [] && places[k][0] >= i
  }

  lemma InTurnAppend(post: bool, i: nat, a: seq<Place>, b: seq<Place>)
    requires InTurn(post, a) && InTurn(post, b) && From(i + 1, b)
    requires forall k :: 0 <= k < |a| ==> a[k] != [] && a[k][0] == i
    ensures InTurn(post, a + b)
  {
    forall j, k | 0 <= j < k < |a + b| ensures Comes(post, (a + b)[j], (a + b)[k]) {
      if j < |a| <= k { assert LeftAt(a[j], b[k - |a|], 0); }
    }
  }

  lemma {:induction false} Places<Item>(post: bool, sh: Shape<Item>) returns (places: seq<Place>)
    ensures Stand(sh, if post then Post(sh) else Pre(sh), places) && InTurn(post, places)
    decreases sh, |sh.kids| + 1
  {
    var rest := PlacesFrom(post, sh, 0);
    assert sh.kids[0..] == sh.kids;
    assert StandsAt(sh, sh.node, []);
    assert Stand(sh, [sh.node], [[]]);
    if post {
      StandAppend(sh, PostAll(sh.kids), [sh.node], rest, [[]]);
      places := rest + [[]];
    } else {
      StandAppend(sh, [sh.node], PreAll(sh.kids), [[]], rest);
      places := [[]] + rest;
    }
  }

  lemma {:induction false} PlacesFrom<Item>(post: bool, sh: Shape<Item>, i: nat) returns (places: seq<Place>)
    requires i <= |sh.kids|
    ensures Stand(sh, if post then PostAll(sh.kids[i..]) else PreAll(sh.kids[i..]), places)
    ensures InTurn(post, places) && From(i, places)
    decreases sh, |sh.kids| - i
  {
    if i == |sh.kids| {
      places := [];
    } else {
      var k := sh.kids[i];
      assert k in sh.kids && sh.kids[i..][0] == k && sh.kids[i..][1..] == sh.kids[i + 1..];
      var own := Places(post, k);
      var rest := PlacesFrom(post, sh, i + 1);
      StandBelow(sh, i, if post then Post(k) else Pre(k), own);
      InTurnBelow(post, i, own);
      InTurnAppend(post, i, Below(i, own), rest);
      StandAppend(sh, if post then Post(k) else Pre(k),
                  if post then PostAll(sh.kids[i + 1..]) else PreAll(sh.kids[i + 1..]), Below(i, own), rest);
      places := Below(i, own) + rest;
    }
  }

  /** Preorder: parents first, siblings and what is below them from left to right. */
  lemma PreByPlaces<Item>(sh: Shape<Item>) returns (places: seq<Place>)
    ensures Stand(sh, Pre(sh), places)
    ensures forall i, j :: 0 <= i < j < |places| ==> places[i] < places[j] || LeftOf(places[i], places[j])
  {
    places := Places(false, sh);
    assert forall i, j :: 0 <= i < j < |places| ==> Comes(false, places[i], places[j]);
  }

  /** Postorder: the same with parents last. */
  lemma PostByPlaces<Item>(sh: Shape<Item>) returns (places: seq<Place>)
    ensures Stand(sh, Post(sh), places)
    ensures forall i, j :: 0 <= i < j < |places| ==> places[j] < places[i] || LeftOf(places[i], places[j])
  {
    places := Places(true, sh);
    assert forall i, j :: 0 <= i < j < |places| ==> Comes(true, places[i], places[j]);
  }

  // ----- level order -----

  ghost predicate LeftToRight(places: seq<Place>) {
    forall i, j :: 0 <= i < j < |places| ==> LeftOf(places[i], places[j])
  }

  /** These subtrees stand at those places, all at depth d, from left to right. */
  ghost predicate Level<Item>(sh: Shape<Item>, ks: seq<Shape<Item>>, places: seq<Place>, d: nat) {
    && |places| == |ks|
    && (forall i :: 0 <= i < |ks| ==> |places[i]| == d && IsPath(sh, places[i]) && At(sh, places[i]) == ks[i])
    && LeftToRight(places)
  }

  function Kids(p: Place, n: nat): seq<Place> {
    seq(n, c => p + [c])
  }

  function NextPlaces<Item>(ks: seq<Shape<Item>>, places: seq<Place>): seq<Place>
    requires |places| == |ks|
  {
    if ks == [] then [] else Kids(places[0], |ks[0].kids|) + NextPlaces(ks[1..], places[1..])
  }

  lemma LeftDiffers(p: Place, q: Place)
    requires LeftOf(p, q)
    ensures p != q
  {
    var l: nat :| LeftAt(p, q, l);
    assert p[l] < q[l];
  }

  lemma KidsLeft(p: Place, q: Place, c: nat, e: nat)
    requires |p| == |q| && (if p == q then c < e else LeftOf(p, q))
    ensures LeftOf(p + [c], q + [e])
  {
    if p == q {
      assert LeftAt(p + [c], q + [e], |p|);
    } else {
      var l: nat :| LeftAt(p, q, l);
      assert (p + [c])[..l] == p[..l] && (q + [e])[..l] == q[..l];
      assert LeftAt(p + [c], q + [e], l);
    }
  }

  /** Every place of the next level lengthens one of this level. */
  lemma {:induction false} NextFrom<Item>(ks: seq<Shape<Item>>, places: seq<Place>, k: nat) returns (i: nat, c: nat)
    requires |places| == |ks| && k < |NextPlaces(ks, places)|
    ensures i < |ks| && c < |ks[i].kids| && NextPlaces(ks, places)[k] == places[i] + [c]
  {
    var n := |ks[0].kids|;
    if k < n {
      i, c := 0, k;
    } else {
      i, c := NextFrom(ks[1..], places[1..], k - n);
      i := i + 1;
    }
  }

  lemma {:induction false} NextLeftToRight<Item>(ks: seq<Shape<Item>>, places: seq<Place>, d: nat)
    requires |places| == |ks| && LeftToRight(places) && forall i :: 0 <= i < |places| ==> |places[i]| == d
    ensures LeftToRight(NextPlaces(ks, places))
  {
    if ks == [] {
    } else {
      var own, rest := Kids(places[0], |ks[0].kids|), NextPlaces(ks[1..], places[1..]);
      NextLeftToRight(ks[1..], places[1..], d);
      forall j, k | 0 <= j < k < |own + rest| ensures LeftOf((own + rest)[j], (own + rest)[k]) {
        if k < |own| {
          KidsLeft(places[0], places[0], j, k);
        } else if j < |own| {
          var i, c := NextFrom(ks[1..], places[1..], k - |own|);
          var q := places[1..][i];
          assert q == places[i + 1] && LeftOf(places[0], q) && rest[k - |own|] == q + [c];
          LeftDiffers(places[0], q);
          KidsLeft(places[0], q, j, c);
        }
      }
    }
  }

  lemma {:induction false} NextStand<Item>(sh: Shape<Item>, ks: seq<Shape<Item>>, places: seq<Place>)
    requires |places| == |ks| && forall i :: 0 <= i < |ks| ==> IsPath(sh, places[i]) && At(sh, places[i]) == ks[i]
    ensures |NextPlaces(ks, places)| == |NextLevel(ks)|
    ensures forall k :: 0 <= k < |NextLevel(ks)| ==>
              IsPath(sh, NextPlaces(ks, places)[k]) && At(sh, NextPlaces(ks, places)[k]) == NextLevel(ks)[k]
  {
    if ks == [] {
    } else {
      NextStand(sh, ks[1..], places[1..]);
      forall c: nat | c < |ks[0].kids|
        ensures IsPath(sh, places[0] + [c]) && At(sh, places[0] + [c]) == ks[0].kids[c]
      {
        OneStep(ks[0], c);
        PathAt(sh, places[0], [c]);
      }
    }
  }

  lemma NextIsLevel<Item>(sh: Shape<Item>, ks: seq<Shape<Item>>, places: seq<Place>, d: nat)
    requires Level(sh, ks, places, d)
    ensures |NextPlaces(ks, places)| == |NextLevel(ks)| && Level(sh, NextLevel(ks), NextPlaces(ks, places), d + 1)
  {
    NextStand(sh, ks, places);
    NextLeftToRight(ks, places, d);
    forall k | 0 <= k < |NextPlaces(ks, places)| ensures |NextPlaces(ks, places)[k]| == d + 1 {
      var i, c := NextFrom(ks, places, k);
    }
  }

  lemma {:induction false} LevelPlaces<Item>(sh: Shape<Item>, ks: seq<Shape<Item>>, places: seq<Place>, d: nat)
    returns (all: seq<Place>)
    requires Level(sh, ks, places, d)
    ensures Stand(sh, Levels(ks), all) && forall i :: 0 <= i < |all| ==> |all[i]| >= d
    ensures forall i, j :: 0 <= i < j < |all| ==> HigherOrLeft(all[i], all[j])
    decreases Size(ks)
  {
    if ks == [] {
      all := [];
    } else {
      SizeNextLevel(ks);
      NextIsLevel(sh, ks, places, d);
      var rest := LevelPlaces(sh, NextLevel(ks), NextPlaces(ks, places), d + 1);
      assert Stand(sh, Roots(ks), places);
      StandAppend(sh, Roots(ks), Levels(NextLevel(ks)), places, rest);
      all := places + rest;
    }
  }

  /** Level order: by depth, and on one level from left to right. */
  lemma LevelsByPlaces<Item>(sh: Shape<Item>) returns (places: seq<Place>)
    ensures Stand(sh, Levels([sh]), places)
    ensures forall i, j :: 0 <= i < j < |places| ==>
              |places[i]| < |places[j]| || (|places[i]| == |places[j]| && LeftOf(places[i], places[j]))
  {
    places := LevelPlaces(sh, [sh], [[]], 0);
    assert forall i, j :: 0 <= i < j < |places| ==> HigherOrLeft(places[i], places[j]);
  }

  /** Without the root the orders are the same less their first or last node. */
  lemma WithoutRoot<Item>(sh: Shape<Item>)
    ensures Pre(sh) == [sh.node] + PreAll(sh.kids)
    ensures Post(sh) == PostAll(sh.kids) + [sh.node]
    ensures Levels([sh]) == [sh.node] + Levels(sh.kids)
  {
    assert NextLevel([sh]) == sh.kids by {
      assert [sh][1..] == [];
      assert sh.kids + [] == sh.kids;
    }
    assert Roots([sh]) == [sh.node];
  }

  lemma {:induction false} LinkedAt<Item>(sh: Shape<Item>, p: Place, S: set<Tree<Item>>)
    requires Linked(sh, S) && IsPath(sh, p)
    ensures Linked(At(sh, p), S)
  {
    if p == [] {
    } else {
      assert sh.kids[p[0]] in sh.kids;
      LinkedAt(sh.kids[p[0]], p[1..], S);
    }
  }

  /** The last step of a place is the position in the parent's list of children. */
  lemma StepIsPosition<Item>(sh: Shape<Item>, p: Place, i: nat, S: set<Tree<Item>>)
    requires Linked(sh, S) && IsPath(sh, p) && i < |At(sh, p).kids|
    ensures IsPath(sh, p + [i]) && i < |At(sh, p).node.children|
    ensures At(sh, p + [i]).node == At(sh, p).node.children[i]
  {
    OneStep(At(sh, p), i);
    PathAt(sh, p, [i]);
    LinkedAt(sh, p, S);
    assert Roots(At(sh, p).kids)[i] == At(sh, p).kids[i].node;
  }
}
