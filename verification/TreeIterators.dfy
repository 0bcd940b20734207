/** The three iterators of Tree.h and the map functions on top of them.  `order` is what the
    calls of Next return one after the other, `index` how many of them were made. */
module TreeIterators {
  import opened Sequences
  import opened Trees
  import opened TreeOrders

  /** The call of Next at position `before` hands out that element of the order; past the end
      it hands out null. */
  ghost predicate Handed<Item>(order: seq<Tree<Item>>, before: nat, t: Tree?<Item>, after: nat) {
    if before >= |order| then t == null && after == before
    else t == order[before] && after == before + 1
  }

  lemma RestAfter<T>(order: seq<T>, index: nat)
    requires index < |order|
    ensures order[index..] != [] && order[index..][0] == order[index] && order[index..][1..] == order[index + 1..]
  {
  }

  /** What taking nodes from a queue and adding their children at its end brings forth. */
  ghost function Queued<Item>(queue: seq<Shape<Item>>): seq<Tree<Item>>
    decreases Size(queue)
  {
    if queue == [] then []
    else
      assert Size(queue[1..] + queue[0].kids) < Size(queue) by {
        SizeAppend(queue[1..], queue[0].kids);
      }
      [queue[0].node] + Queued(queue[1..] + queue[0].kids)
  }

  /** The queue holds the rest of one level and what is known of the next. */
  lemma {:induction false} QueueIsLevelOrder<Item>(level: seq<Shape<Item>>, next: seq<Shape<Item>>)
    ensures Queued(level + next) == Roots(level) + Levels(next + NextLevel(level))
    decreases Size(level + next), |next|
  {
    if level == [] {
      assert level + next == next && next + NextLevel(level) == next;
      if next != [] {
        assert next + [] == next && [] + NextLevel(next) == NextLevel(next);
        assert Size(level + next) == Size(next + []);
        QueueIsLevelOrder(next, []);
      }
    } else {
      var first, rest := level[0], level[1..];
      assert (level + next)[0] == first;
      assert (level + next)[1..] + first.kids == rest + (next + first.kids);
      SizeAppend((level + next)[1..], first.kids);
      QueueIsLevelOrder(rest, next + first.kids);
      Assoc(next, first.kids, NextLevel(rest));
      assert Roots(level) == [first.node] + Roots(rest);
      Assoc([first.node], Roots(rest), Levels(next + NextLevel(level)));
    }
  }

  lemma WholeQueue<Item>(ks: seq<Shape<Item>>)
    ensures Queued(ks) == Levels(ks)
  {
    QueueIsLevelOrder(ks, []);
    assert ks + [] == ks && [] + NextLevel(ks) == NextLevel(ks);
  }

  ghost predicate QueueState<Item>(S: set<Tree<Item>>, nextTrees: seq<Tree<Item>>, todo: seq<Tree<Item>>,
                                   queue: seq<Shape<Item>>)
    reads S
  {
    AllLinked(queue, S) && nextTrees == Roots(queue) && todo == Queued(queue)
  }

  lemma TakeNode<Item>(S: set<Tree<Item>>, nextTrees: seq<Tree<Item>>, todo: seq<Tree<Item>>, queue: seq<Shape<Item>>)
    requires QueueState(S, nextTrees, todo, queue) && nextTrees != []
    ensures nextTrees[0] in S && todo != [] && todo[0] == nextTrees[0]
    ensures QueueState(S, nextTrees[1..] + nextTrees[0].children, todo[1..], queue[1..] + queue[0].kids)
  {
    assert queue[0] in queue;
    assert Roots(queue[1..] + queue[0].kids) == Roots(queue)[1..] + Roots(queue[0].kids);
  }

  class TreeBreadthFirstIterator<Item> {
    var nextTrees: seq<Tree<Item>>
    ghost const S: set<Tree<Item>>
    ghost const order: seq<Tree<Item>>
    ghost var index: nat
    ghost var queue: seq<Shape<Item>>

    ghost predicate Valid()
      reads this, S
    {
      index <= |order| && QueueState(S, nextTrees, order[index..], queue)
    }

    constructor (tree: Tree<Item>, iterateOnRoot: bool, ghost sh: Shape<Item>, ghost S: set<Tree<Item>>)
      requires Linked(sh, S) && sh.node == tree
      ensures Valid() && this.S == S && index == 0
      ensures order == if iterateOnRoot then Levels([sh]) else Levels(sh.kids)
    {
      this.S := S;
      nextTrees := if iterateOnRoot then [tree] else tree.children;
      queue := if iterateOnRoot then [sh] else sh.kids;
      order, index := if iterateOnRoot then Levels([sh]) else Levels(sh.kids), 0;
      WholeQueue([sh]);
      WholeQueue(sh.kids);
    }

    method HasNext() returns (more: bool)
      requires Valid()
      ensures more <==> index < |order|
    {
      return nextTrees != [];
    }

    function ReadChildren(list: seq<Tree<Item>>, parentTree: Tree<Item>): seq<Tree<Item>>
      reads parentTree
    {
      list + parentTree.children
    }

    method Next() returns (t: Tree?<Item>)
      requires Valid()
      modifies this
      ensures Valid() && Handed(order, old(index), t, index)
    {
      if nextTrees == [] {
        return null;
      }
      var tree := nextTrees[0];
      TakeNode(S, nextTrees, order[index..], queue);
      RestAfter(order, index);
      nextTrees, index := ReadChildren(nextTrees[1..], tree), index + 1;
      queue := queue[1..] + queue[0].kids;
      return tree;
    }
  }

  lemma RootsTail<Item>(stack: seq<Shape<Item>>)
    requires stack != []
    ensures Roots(stack[0].kids + stack[1..]) == Roots(stack[0].kids) + Roots(stack)[1..]
  {
  }

  /** The top of the stack gives way to its children. */
  lemma Push<Item>(stack: seq<Shape<Item>>)
    requires stack != []
    ensures PreAll(stack) == [stack[0].node] + PreAll(stack[0].kids + stack[1..])
    ensures Roots(stack[0].kids + stack[1..]) == Roots(stack[0].kids) + Roots(stack)[1..]
  {
    PreAppend(stack[0].kids, stack[1..]);
    assert PreAll(stack) == Pre(stack[0]) + PreAll(stack[1..]);
    RootsTail(stack);
    Assoc([stack[0].node], PreAll(stack[0].kids), PreAll(stack[1..]));
  }

  ghost predicate StackState<Item>(S: set<Tree<Item>>, nextTrees: seq<Tree<Item>>, todo: seq<Tree<Item>>,
                                   stack: seq<Shape<Item>>)
    reads S
  {
    AllLinked(stack, S) && nextTrees == Roots(stack) && todo == PreAll(stack)
  }

  lemma PopNode<Item>(S: set<Tree<Item>>, nextTrees: seq<Tree<Item>>, todo: seq<Tree<Item>>, stack: seq<Shape<Item>>)
    requires StackState(S, nextTrees, todo, stack) && nextTrees != []
    ensures nextTrees[0] in S && todo != [] && todo[0] == nextTrees[0]
    ensures StackState(S, nextTrees[0].children + nextTrees[1..], todo[1..], stack[0].kids + stack[1..])
  {
    assert stack[0] in stack;
    Push(stack);
  }

  class TreeDepthFirstIterator<Item> {
    var nextTrees: seq<Tree<Item>>
    ghost const S: set<Tree<Item>>
    ghost const order: seq<Tree<Item>>
    ghost var index: nat
    ghost var stack: seq<Shape<Item>>

    ghost predicate Valid()
      reads this, S
    {
      index <= |order| && StackState(S, nextTrees, order[index..], stack)
    }

    constructor (tree: Tree<Item>, iterateOnRoot: bool, ghost sh: Shape<Item>, ghost S: set<Tree<Item>>)
      requires Linked(sh, S) && sh.node == tree
      ensures Valid() && this.S == S && index == 0
      ensures order == if iterateOnRoot then Pre(sh) else PreAll(sh.kids)
    {
      this.S := S;
      nextTrees := if iterateOnRoot then [tree] else tree.children;
      stack := if iterateOnRoot then [sh] else sh.kids;
      order, index := PreAll(if iterateOnRoot then [sh] else sh.kids), 0;
      assert PreAll([sh]) == Pre(sh) + [] == Pre(sh);
    }

    method HasNext() returns (more: bool)
      requires Valid()
      ensures more <==> index < |order|
    {
      if stack != [] {
        Push(stack);
      }
      return nextTrees != [];
    }

    /** The children go in front of the list, the last one first. */
    method ReadChildren(list: seq<Tree<Item>>, parentTree: Tree<Item>) returns (r: seq<Tree<Item>>)
      ensures r == parentTree.children + list
    {
      r := list;
      var i := |parentTree.children|;
      while i > 0
        invariant 0 <= i <= |parentTree.children| && r == parentTree.children[i..] + list
      {
        i := i - 1;
        r := [parentTree.children[i]] + r;
      }
    }

    method Next() returns (t: Tree?<Item>)
      requires Valid()
      modifies this
      ensures Valid() && Handed(order, old(index), t, index)
    {
      if nextTrees == [] {
        return null;
      }
      var tree := nextTrees[0];
      PopNode(S, nextTrees, order[index..], stack);
      RestAfter(order, index);
      nextTrees := ReadChildren(nextTrees[1..], tree);
      index, stack := index + 1, stack[0].kids + stack[1..];
      return tree;
    }
  }

  // ----- the stackless iterator -----

  /** The subtree that a list of child positions leads to. */
  ghost predicate IsPath<Item>(sh: Shape<Item>, path: seq<nat>) {
    path == [] || (path[0] < |sh.kids| && IsPath(sh.kids[path[0]], path[1..]))
  }

  ghost function At<Item>(sh: Shape<Item>, path: seq<nat>): Shape<Item>
    requires IsPath(sh, path)
  {
    if path == [] then sh else At(sh.kids[path[0]], path[1..])
  }

  /** What postorder lists after the node at the end of the path. */
  ghost function After<Item>(sh: Shape<Item>, path: seq<nat>): seq<Tree<Item>>
    requires IsPath(sh, path)
  {
    if path == [] then []
    else After(sh.kids[path[0]], path[1..]) + PostAll(sh.kids[path[0] + 1..]) + [sh.node]
  }

  /** The path to the node that postorder lists first. */
  ghost function Leftmost<Item>(sh: Shape<Item>): (path: seq<nat>)
    ensures IsPath(sh, path)
  {
    if sh.kids == [] then [] else [0] + Leftmost(sh.kids[0])
  }

  lemma Regroup4<T>(a: seq<T>, b: seq<T>, c: seq<T>, d: seq<T>)
    ensures (a + b) + c + d == a + (b + c + d)
  {
  }

  lemma {:induction false} LeftmostIsFirst<Item>(sh: Shape<Item>)
    ensures Post(sh) == [At(sh, Leftmost(sh)).node] + After(sh, Leftmost(sh))
  {
    if sh.kids != [] {
      var k, path := sh.kids[0], Leftmost(sh.kids[0]);
      LeftmostIsFirst(k);
      assert Leftmost(sh) == [0] + path && Leftmost(sh)[1..] == path;
      assert At(sh, Leftmost(sh)) == At(k, path);
      Regroup4([At(k, path).node], After(k, path), PostAll(sh.kids[1..]), [sh.node]);
    }
  }

  lemma FirstStep(p: seq<nat>, q: seq<nat>)
    requires p != []
    ensures p + q != [] && (p + q)[0] == p[0] && (p + q)[1..] == p[1..] + q
  {
  }

  lemma {:induction false} PathAt<Item>(sh: Shape<Item>, p: seq<nat>, q: seq<nat>)
    requires IsPath(sh, p) && IsPath(At(sh, p), q)
    ensures IsPath(sh, p + q) && At(sh, p + q) == At(At(sh, p), q)
  {
    if p == [] {
      assert p + q == q;
    } else {
      PathAt(sh.kids[p[0]], p[1..], q);
      FirstStep(p, q);
    }
  }

  lemma {:induction false} PathAppend<Item>(sh: Shape<Item>, p: seq<nat>, q: seq<nat>)
    requires IsPath(sh, p) && IsPath(At(sh, p), q)
    ensures IsPath(sh, p + q) && At(sh, p + q) == At(At(sh, p), q)
    ensures After(sh, p + q) == After(At(sh, p), q) + After(sh, p)
  {
    PathAt(sh, p, q);
    if p == [] {
      assert p + q == q;
    } else {
      var k := sh.kids[p[0]];
      PathAppend(k, p[1..], q);
      FirstStep(p, q);
      Regroup4(After(At(sh, p), q), After(k, p[1..]), PostAll(sh.kids[p[0] + 1..]), [sh.node]);
    }
  }

  /** The step from a child to its next sibling. */
  lemma NextSibling<Item>(up: Shape<Item>, i: nat)
    requires i + 1 < |up.kids|
    ensures var step := [i + 1] + Leftmost(up.kids[i + 1]);
      IsPath(up, step) && At(up, step) == At(up.kids[i + 1], Leftmost(up.kids[i + 1])) &&
      PostAll(up.kids[i + 1..]) + [up.node] == [At(up, step).node] + After(up, step)
  {
    var k := up.kids[i + 1];
    var l := Leftmost(k);
    var step := [i + 1] + l;
    assert step[0] == i + 1 && step[1..] == l;
    LeftmostIsFirst(k);
    var rest := up.kids[i + 2..];
    assert up.kids[i + 1..] == [k] + rest;
    assert PostAll(up.kids[i + 1..]) == Post(k) + PostAll(rest);
    Regroup4([At(k, l).node], After(k, l), PostAll(rest), [up.node]);
  }

  lemma OneStep<Item>(up: Shape<Item>, i: nat)
    requires i < |up.kids|
    ensures IsPath(up, [i]) && At(up, [i]) == up.kids[i]
    ensures After(up, [i]) == PostAll(up.kids[i + 1..]) + [up.node]
    ensures i + 1 == |up.kids| ==> After(up, [i]) == [up.node]
  {
    assert [i][1..] == [];
    if i + 1 == |up.kids| {
      assert up.kids[i + 1..] == [];
    }
  }

  /** The successor in postorder: the leftmost node under the next sibling, else the parent. */
  lemma Successor<Item>(sh: Shape<Item>, p: seq<nat>, i: nat)
    requires IsPath(sh, p) && i < |At(sh, p).kids|
    ensures var up := At(sh, p);
      IsPath(sh, p + [i]) && At(sh, p + [i]) == up.kids[i] &&
      if i + 1 < |up.kids| then
        var q := p + ([i + 1] + Leftmost(up.kids[i + 1]));
        IsPath(sh, q) && At(sh, q) == At(up.kids[i + 1], Leftmost(up.kids[i + 1])) &&
        After(sh, p + [i]) == [At(sh, q).node] + After(sh, q)
      else After(sh, p + [i]) == [up.node] + After(sh, p)
  {
    var up := At(sh, p);
    OneStep(up, i);
    PathAppend(sh, p, [i]);
    if i + 1 < |up.kids| {
      var step := [i + 1] + Leftmost(up.kids[i + 1]);
      NextSibling(up, i);
      PathAppend(sh, p, step);
      Assoc([At(up, step).node], After(up, step), After(sh, p));
    }
  }

  /** Along a path the depth grows by one at each step, so only the empty path leads to the root. */
  lemma {:induction false} PathDepth<Item>(sh: Shape<Item>, path: seq<nat>, S: set<Tree<Item>>)
    requires Inv(S) && Linked(sh, S) && IsPath(sh, path)
    ensures Linked(At(sh, path), S) && At(sh, path).node.depth == sh.node.depth + |path|
  {
    if path == [] {
    } else {
      var k := sh.kids[path[0]];
      assert k in sh.kids;
      KidOf(sh, k, S);
      PathDepth(k, path[1..], S);
    }
  }

  lemma {:induction false} PrefixIsPath<Item>(sh: Shape<Item>, path: seq<nat>)
    requires IsPath(sh, path) && path != []
    ensures var p, i := path[..|path| - 1], path[|path| - 1];
      IsPath(sh, p) && i < |At(sh, p).kids| && IsPath(At(sh, p), [i])
  {
    if |path| == 1 {
      assert path[..0] == [];
      assert [path[0]][1..] == [];
    } else {
      PrefixIsPath(sh.kids[path[0]], path[1..]);
      assert path[1..][..|path| - 2] == path[..|path| - 1][1..];
    }
  }

  /** The last step of a path leads from a parent to the child at that position of its list. */
  lemma SplitPath<Item>(sh: Shape<Item>, path: seq<nat>, S: set<Tree<Item>>)
    requires Inv(S) && Linked(sh, S) && IsPath(sh, path) && path != []
    ensures var p, i := path[..|path| - 1], path[|path| - 1];
      IsPath(sh, p) && p + [i] == path && Linked(At(sh, p), S) && i < |At(sh, p).kids| &&
      var up, n := At(sh, p), At(sh, path).node;
      n == up.kids[i].node && n.parent == up.node && IndexOf(up.node.children, n) == i
  {
    var p, i := path[..|path| - 1], path[|path| - 1];
    PrefixIsPath(sh, path);
    PathDepth(sh, p, S);
    var up := At(sh, p);
    assert p + [i] == path;
    PathAppend(sh, p, [i]);
    KidOf(up, up.kids[i], S);
    assert NodeOk(up.node, S);
    assert Roots(up.kids)[i] == up.kids[i].node;
    IndexOfFirst(up.node.children, up.kids[i].node);
  }

  lemma AfterEndsInRoot<Item>(sh: Shape<Item>, path: seq<nat>)
    requires IsPath(sh, path) && path != []
    ensures After(sh, path) != []
  {
  }

  /** Postorder of the subtree, the root last or omitted. */
  ghost function PostOrder<Item>(sh: Shape<Item>, iterateOnRoot: bool): seq<Tree<Item>> {
    if iterateOnRoot then Post(sh) else PostAll(sh.kids)
  }

  /** Every position of postorder is the end of a path. */
  lemma {:induction false} PathOf<Item>(sh: Shape<Item>, index: nat) returns (path: seq<nat>)
    requires index < |Post(sh)|
    ensures IsPath(sh, path) && Post(sh)[index..] == [At(sh, path).node] + After(sh, path)
  {
    if index == 0 {
      path := Leftmost(sh);
      LeftmostIsFirst(sh);
    } else {
      var before := PathOf(sh, index - 1);
      assert Post(sh)[index - 1..][1..] == Post(sh)[index..];
      var p, i := before[..|before| - 1], before[|before| - 1];
      PrefixIsPath(sh, before);
      assert p + [i] == before;
      Successor(sh, p, i);
      var kids := At(sh, p).kids;
      path := if i + 1 < |kids| then p + ([i + 1] + Leftmost(kids[i + 1])) else p;
    }
  }

  lemma PostLength<Item>(sh: Shape<Item>, iterateOnRoot: bool)
    ensures var order := PostOrder(sh, iterateOnRoot);
      |order| <= |Post(sh)| <= |order| + 1 && order == Post(sh)[..|order|] && (iterateOnRoot ==> order == Post(sh))
    ensures Post(sh)[|Post(sh)| - 1] == sh.node
  {
  }

  /** One step along postorder: `path'` is where it leads from the node below `p`. */
  lemma StepInPost<Item>(sh: Shape<Item>, index: nat, S: set<Tree<Item>>)
    returns (p: seq<nat>, i: nat, path': seq<nat>)
    requires Inv(S) && Linked(sh, S) && index < |Post(sh)| && Post(sh)[index] != sh.node
    ensures IsPath(sh, p) && i < |At(sh, p).kids| && Linked(At(sh, p), S) && IsPath(sh, path')
    ensures var up := At(sh, p);
      && Post(sh)[index].parent == up.node && IndexOf(up.node.children, Post(sh)[index]) == i
      && (if i + 1 < |up.kids|
          then path' != [] && At(sh, path') == At(up.kids[i + 1], Leftmost(up.kids[i + 1]))
          else path' == p)
    ensures index + 1 < |Post(sh)| && Post(sh)[index + 1..] == [At(sh, path').node] + After(sh, path')
  {
    var path := PathOf(sh, index);
    p, i := path[..|path| - 1], path[|path| - 1];
    SplitPath(sh, path, S);
    Successor(sh, p, i);
    RestAfter(Post(sh), index);
    var kids := At(sh, p).kids;
    path' := if i + 1 < |kids| then p + ([i + 1] + Leftmost(kids[i + 1])) else p;
  }

  /** Where a node other than the root hangs, and what postorder lists after it. */
  lemma NextInPost<Item>(sh: Shape<Item>, iterateOnRoot: bool, index: nat, S: set<Tree<Item>>)
    returns (p: seq<nat>, i: nat)
    requires Inv(S) && Linked(sh, S)
    requires index < |PostOrder(sh, iterateOnRoot)| && PostOrder(sh, iterateOnRoot)[index] != sh.node
    ensures IsPath(sh, p) && i < |At(sh, p).kids| && Linked(At(sh, p), S)
    ensures var order, up := PostOrder(sh, iterateOnRoot), At(sh, p);
      order[index].parent == up.node && IndexOf(up.node.children, order[index]) == i &&
      if i + 1 < |up.kids| then
        index + 1 < |order| && order[index + 1] == At(up.kids[i + 1], Leftmost(up.kids[i + 1])).node
      else if p == [] && !iterateOnRoot then index + 1 == |order|
      else index + 1 < |order| && order[index + 1] == up.node
  {
    PostLength(sh, iterateOnRoot);
    var path';
    p, i, path' := StepInPost(sh, index, S);
    if path' != [] {
      AfterEndsInRoot(sh, path');
    }
  }

  lemma RootIsLast<Item>(sh: Shape<Item>, iterateOnRoot: bool, index: nat, S: set<Tree<Item>>)
    requires Inv(S) && Linked(sh, S)
    requires index < |PostOrder(sh, iterateOnRoot)| && PostOrder(sh, iterateOnRoot)[index] == sh.node
    ensures index + 1 == |PostOrder(sh, iterateOnRoot)|
  {
    PostLength(sh, iterateOnRoot);
    var path := PathOf(sh, index);
    PathDepth(sh, path, S);
    assert Post(sh)[index..] == [sh.node];
  }

  class TreeReverseDepthFirstIterator<Item> {
    const iterateOnRoot: bool
    const root: Tree<Item>
    var nextTree: Tree?<Item>
    ghost const S: set<Tree<Item>>
    ghost const shape: Shape<Item>
    ghost const order: seq<Tree<Item>>
    ghost var index: nat

    ghost predicate Valid()
      reads this, S
    {
      && Inv(S) && Linked(shape, S) && shape.node == root && order == PostOrder(shape, iterateOnRoot)
      && index <= |order|
      && nextTree == if index < |order| then order[index] else null
    }

    /** The node reached from child position subTreePosition + 1 by always going to the first
        child; `tree` itself when there is no such position. */
    method GetDeepestTree(tree: Tree<Item>, subTreePosition: int, ghost sub: Shape<Item>, ghost at: seq<nat>)
      returns (t: Tree?<Item>)
      requires Inv(S) && Linked(shape, S) && shape.node == root && IsPath(shape, at) && At(shape, at) == sub
      requires sub.node == tree && Linked(sub, S) && subTreePosition >= -1
      ensures var pos := subTreePosition + 1;
        if pos < |sub.kids| then t == At(sub.kids[pos], Leftmost(sub.kids[pos])).node
        else if at == [] && !iterateOnRoot then t == null
        else t == tree
      decreases sub
    {
      PathDepth(shape, at, S);
      var pos := subTreePosition + 1;
      if |tree.children| > pos {
        ghost var k := sub.kids[pos];
        assert tree.children[pos] == Roots(sub.kids)[pos] == k.node && k in sub.kids;
        assert [pos][1..] == [];
        PathAppend(shape, at, [pos]);
        t := GetDeepestTree(tree.children[pos], -1, k, at + [pos]);
        return;
      }
      if tree == root && !iterateOnRoot {
        return null;
      }
      return tree;
    }

    constructor (tree: Tree<Item>, iterateOnRoot: bool, ghost sh: Shape<Item>, ghost S: set<Tree<Item>>)
      requires Inv(S) && Linked(sh, S) && sh.node == tree
      ensures Valid() && this.S == S && shape == sh && index == 0
      ensures order == PostOrder(sh, iterateOnRoot)
    {
      this.iterateOnRoot, root, nextTree := iterateOnRoot, tree, null;
      this.S, shape := S, sh;
      order, index := PostOrder(sh, iterateOnRoot), 0;
      new;
      PostLength(sh, iterateOnRoot);
      LeftmostIsFirst(sh);
      nextTree := GetDeepestTree(tree, -1, sh, []);
    }

    /** What comes after a node other than the root, found from its parent alone. */
    method Following(current: Tree<Item>) returns (next: Tree?<Item>)
      requires Valid() && current == nextTree && current != root
      ensures index + 1 <= |order|
      ensures next == if index + 1 < |order| then order[index + 1] else null
    {
      ghost var p, i := NextInPost(shape, iterateOnRoot, index, S);
      var parent := current.parent;
      next := GetDeepestTree(parent, IndexOf(parent.children, current), At(shape, p), p);
    }

    method Next() returns (t: Tree?<Item>)
      requires Valid()
      modifies this
      ensures Valid() && Handed(order, old(index), t, index)
    {
      t := nextTree;
      if nextTree == null {
        return;
      }
      if nextTree != root {
        nextTree := Following(nextTree);
      } else {
        RootIsLast(shape, iterateOnRoot, index, S);
        nextTree := null;
      }
      index := index + 1;
    }

    method HasNext() returns (more: bool)
      requires Valid()
      ensures more <==> index < |order|
    {
      return nextTree != null;
    }
  }

  // ----- the map functions -----

  /** `fun` was applied to `visited`: the shortest prefix of the order that ends in a false
      result, or the whole order when there is none; ok tells which. */
  ghost predicate Applied<Item>(order: seq<Tree<Item>>, fun: Tree<Item> -> bool, visited: seq<Tree<Item>>, ok: bool) {
    && visited <= order
    && (forall i :: 0 <= i < |visited| - 1 ==> fun(visited[i]))
    && (if ok then visited == order && (forall n :: n in order ==> fun(n))
        else visited != [] && !fun(visited[|visited| - 1]))
  }

  /** `fun` accepted the nodes visited so far, and `current` comes next. */
  ghost predicate Visiting<Item>(order: seq<Tree<Item>>, fun: Tree<Item> -> bool, visited: seq<Tree<Item>>,
                                 current: Tree?<Item>, index: nat) {
    var k := |visited|;
    && k <= |order| && visited == order[..k]
    && (forall j :: 0 <= j < k ==> fun(visited[j]))
    && (if current == null then index == k == |order| else index == k + 1 <= |order| && current == order[k])
  }

  method MapBreadthFirstWith<Item>(i: TreeBreadthFirstIterator<Item>, fun: Tree<Item> -> bool)
    returns (ok: bool, visited: seq<Tree<Item>>)
    requires i.Valid()
    modifies i
    requires i.index == 0
    ensures Applied(i.order, fun, visited, ok)
  {
    visited := [];
    var current := i.Next();
    while current != null
      invariant i.Valid() && Visiting(i.order, fun, visited, current, i.index)
      decreases |i.order| - |visited|
    {
      var t: Tree<Item> := current;
      visited := visited + [t];
      if !fun(t) {
        return false, visited;
      }
      current := i.Next();
    }
    return true, visited;
  }

  method MapBreadthFirst<Item>(tree: Tree<Item>, fun: Tree<Item> -> bool, iterateOnRoot: bool,
    ghost sh: Shape<Item>, ghost S: set<Tree<Item>>) returns (ok: bool, visited: seq<Tree<Item>>)
    requires Linked(sh, S) && sh.node == tree
    ensures Applied(if iterateOnRoot then Levels([sh]) else Levels(sh.kids), fun, visited, ok)
  {
    var i := new TreeBreadthFirstIterator(tree, iterateOnRoot, sh, S);
    ok, visited := MapBreadthFirstWith(i, fun);
  }

  method MapDepthFirstWith<Item>(i: TreeDepthFirstIterator<Item>, fun: Tree<Item> -> bool)
    returns (ok: bool, visited: seq<Tree<Item>>)
    requires i.Valid()
    modifies i
    requires i.index == 0
    ensures Applied(i.order, fun, visited, ok)
  {
    visited := [];
    var current := i.Next();
    while current != null
      invariant i.Valid() && Visiting(i.order, fun, visited, current, i.index)
      decreases |i.order| - |visited|
    {
      var t: Tree<Item> := current;
      visited := visited + [t];
      if !fun(t) {
        return false, visited;
      }
      current := i.Next();
    }
    return true, visited;
  }

  method MapDepthFirst<Item>(tree: Tree<Item>, fun: Tree<Item> -> bool, iterateOnRoot: bool,
    ghost sh: Shape<Item>, ghost S: set<Tree<Item>>) returns (ok: bool, visited: seq<Tree<Item>>)
    requires Linked(sh, S) && sh.node == tree
    ensures Applied(if iterateOnRoot then Pre(sh) else PreAll(sh.kids), fun, visited, ok)
  {
    var i := new TreeDepthFirstIterator(tree, iterateOnRoot, sh, S);
    ok, visited := MapDepthFirstWith(i, fun);
  }

  method MapReverseDepthFirstWith<Item>(i: TreeReverseDepthFirstIterator<Item>, fun: Tree<Item> -> bool)
    returns (ok: bool, visited: seq<Tree<Item>>)
    requires i.Valid()
    modifies i
    requires i.index == 0
    ensures Applied(i.order, fun, visited, ok)
  {
    visited := [];
    var current := i.Next();
    while current != null
      invariant i.Valid() && Visiting(i.order, fun, visited, current, i.index)
      decreases |i.order| - |visited|
    {
      var t: Tree<Item> := current;
      visited := visited + [t];
      if !fun(t) {
        return false, visited;
      }
      current := i.Next();
    }
    return true, visited;
  }

  method MapReverseDepthFirst<Item>(tree: Tree<Item>, fun: Tree<Item> -> bool, iterateOnRoot: bool,
    ghost sh: Shape<Item>, ghost S: set<Tree<Item>>) returns (ok: bool, visited: seq<Tree<Item>>)
    requires Inv(S) && Linked(sh, S) && sh.node == tree
    ensures Applied(PostOrder(sh, iterateOnRoot), fun, visited, ok)
  {
    var i := new TreeReverseDepthFirstIterator(tree, iterateOnRoot, sh, S);
    ok, visited := MapReverseDepthFirstWith(i, fun);
  }
}
