/**
 sem_3/ial/proj_2/c402: the walks over a binary search tree with explicit stacks, and the
 iterative insertion and disposal.
 */
module Bt {
  import opened BtShape
  import opened BtStack

  /** Leftmost_Inorder. */
  method Leftmost_Inorder(root: Node?, stack: Stack<Node?>, ghost t: Tree) returns (ok: bool)
    requires stack.Valid() && Spans(root, t)
    modifies stack, stack.a
    ensures stack.Valid()
    ensures ok <==> |old(stack.Contents())| + |Spine(t)| < MAXSTACK
    ensures ok ==> stack.Contents() == StackedOn(old(stack.Contents()), t)
  {
    hide Stack<Node?>.Contents, Spans, Nodes, StackedOn, Spine;
    var ptr := root;
    ghost var rest: Tree := t;
    ok := true;
    SpansNode(ptr, rest);
    while ptr != null
      invariant ok && stack.Valid() && Spans(ptr, rest) && (ptr == null <==> rest.Nil?)
      invariant StackedOn(stack.Contents(), rest) == StackedOn(old(stack.Contents()), t)
      decreases rest
    {
      SpansNode(ptr, rest);
      SpineNext(stack.Contents(), [], [], rest);
      ok := stack.SPush(ptr);
      if !ok {
        return;
      }
      SpansNode(ptr, rest);
      rest, ptr := rest.left, ptr.LPtr;
      SpansNode(ptr, rest);
    }
    SpineEnd(stack.Contents(), [], []);
  }

  /** Leftmost_Preorder; `out` is what was printed so far. */
  method Leftmost_Preorder(root: Node?, stack: Stack<Node?>, out: seq<int>, ghost t: Tree)
      returns (ok: bool, out': seq<int>)
    requires stack.Valid() && Spans(root, t)
    modifies stack, stack.a
    ensures stack.Valid()
    ensures ok <==> |old(stack.Contents())| + |Spine(t)| < MAXSTACK
    ensures ok ==> stack.Contents() == StackedOn(old(stack.Contents()), t) && out' == PrintedOn(out, t)
  {
    hide Stack<Node?>.Contents, Spans, Nodes, StackedOn, PrintedOn, Spine;
    var ptr := root;
    ghost var rest: Tree := t;
    ok, out' := true, out;
    SpansNode(ptr, rest);
    while ptr != null
      invariant ok && stack.Valid() && Spans(ptr, rest) && (ptr == null <==> rest.Nil?)
      invariant StackedOn(stack.Contents(), rest) == StackedOn(old(stack.Contents()), t)
      invariant PrintedOn(out', rest) == PrintedOn(out, t)
      decreases rest
    {
      SpansNode(ptr, rest);
      SpineNext(stack.Contents(), [], out', rest);
      out' := out' + [ptr.Cont];
      ok := stack.SPush(ptr);
      if !ok {
        return;
      }
      SpansNode(ptr, rest);
      rest, ptr := rest.left, ptr.LPtr;
      SpansNode(ptr, rest);
    }
    SpineEnd(stack.Contents(), [], out');
  }

  /** Leftmost_Postorder. */
  method Leftmost_Postorder(root: Node?, stackP: Stack<Node?>, stackB: Stack<bool>, ghost t: Tree) returns (ok: bool)
    requires stackP.Valid() && stackB.Valid() && Spans(root, t)
    requires |stackP.Contents()| == |stackB.Contents()|
    modifies stackP, stackP.a, stackB, stackB.a
    ensures stackP.Valid() && stackB.Valid()
    ensures ok <==> |old(stackP.Contents())| + |Spine(t)| < MAXSTACK
    ensures ok ==> stackP.Contents() == StackedOn(old(stackP.Contents()), t)
    ensures ok ==> stackB.Contents() == FlaggedOn(old(stackB.Contents()), t)
  {
    hide Stack<Node?>.Contents, Stack<bool>.Contents, Spans, Nodes, StackedOn, FlaggedOn, Spine;
    var ptr := root;
    ghost var rest: Tree := t;
    ok := true;
    SpansNode(ptr, rest);
    while ptr != null
      invariant ok && stackP.Valid() && stackB.Valid() && Spans(ptr, rest) && (ptr == null <==> rest.Nil?)
      invariant |stackP.Contents()| == |stackB.Contents()|
      invariant StackedOn(stackP.Contents(), rest) == StackedOn(old(stackP.Contents()), t)
      invariant FlaggedOn(stackB.Contents(), rest) == FlaggedOn(old(stackB.Contents()), t)
      decreases rest
    {
      SpansNode(ptr, rest);
      SpineNext(stackP.Contents(), stackB.Contents(), [], rest);
      ok := stackP.SPush(ptr);
      if !ok {
        return;
      }
      ok := stackB.SPush(true);
      SpansNode(ptr, rest);
      rest, ptr := rest.left, ptr.LPtr;
      SpansNode(ptr, rest);
    }
    SpineEnd(stackP.Contents(), stackB.Contents(), []);
  }

  /**
   BTInorder.  The stack suffices for exactly the trees of left depth below MAXSTACK, and
   `peak` is the most it held.
   */
  method BTInorder(root: Node?, ghost t: Tree) returns (ok: bool, out: seq<int>, ghost peak: nat)
    requires Spans(root, t)
    ensures ok <==> LeftDepth(t) < MAXSTACK
    ensures ok ==> out == Inorder(t) && peak == LeftDepth(t)
  {
    hide Stack<Node?>.Contents, Spans, Nodes, Forks, Pointers, AllWithin, Popped, Spine, StackedOn, InAll, Reach,
      Todo, Top, Below;
    ok, out, peak := true, [], 0;
    SpansNode(root, t);
    StackedSpine(t);
    Begin(t);
    BeginIn(t);
    if root != null {
      var stack := new Stack<Node?>.SInit();
      SpansNode(root, t);
      ghost var p := Spine(t);
      ok := Leftmost_Inorder(root, stack, t);
      if !ok {
        return;
      }
      SpansNode(root, t);
      peak := |p|;
      while !stack.SEmpty()
        invariant ok && stack.Valid() && fresh(stack) && fresh(stack.a) && Spans(root, t)
        invariant Forks(p) && AllWithin(p, t) && stack.Contents() == Pointers(p)
        invariant InAll(out, p) == Inorder(t)
        invariant |p| <= peak < MAXSTACK && Reach(peak, p) == LeftDepth(t)
        decreases Todo(p)
      {
        StackedTop(root, t, p);
        StackedPopped(t, p);
        PopIn(out, p);
        PopHeight(peak, p);
        ghost var x := Top(p);
        SpansNode(x.node, x);
        var tmp := stack.STopPop(null);
        SpansNode(tmp, x);
        out := out + [tmp.Cont];
        ok := Leftmost_Inorder(tmp.RPtr, stack, x.right);
        if !ok {
          return;
        }
        p := Popped(p);
        peak := Max(peak, |p|);
        SpansNode(root, t);
      }
      Finished(out, peak);
    }
  }

  /** BTPreorder. */
  method BTPreorder(root: Node?, ghost t: Tree) returns (ok: bool, out: seq<int>, ghost peak: nat)
    requires Spans(root, t)
    ensures ok <==> LeftDepth(t) < MAXSTACK
    ensures ok ==> out == Preorder(t) && peak == LeftDepth(t)
  {
    hide Stack<Node?>.Contents, Spans, Nodes, Forks, Pointers, AllWithin, Popped, Spine, StackedOn, PrintedOn, PreAll,
      Reach, Todo, Top, Below;
    ok, out, peak := true, [], 0;
    SpansNode(root, t);
    StackedSpine(t);
    Begin(t);
    BeginPre(t);
    if root != null {
      var stack := new Stack<Node?>.SInit();
      SpansNode(root, t);
      ghost var p := Spine(t);
      ok, out := Leftmost_Preorder(root, stack, out, t);
      if !ok {
        return;
      }
      SpansNode(root, t);
      peak := |p|;
      while !stack.SEmpty()
        invariant ok && stack.Valid() && fresh(stack) && fresh(stack.a) && Spans(root, t)
        invariant Forks(p) && AllWithin(p, t) && stack.Contents() == Pointers(p)
        invariant PreAll(out, p) == Preorder(t)
        invariant |p| <= peak < MAXSTACK && Reach(peak, p) == LeftDepth(t)
        decreases Todo(p)
      {
        StackedTop(root, t, p);
        StackedPopped(t, p);
        PopPre(out, p);
        PopHeight(peak, p);
        ghost var x := Top(p);
        SpansNode(x.node, x);
        var tmp := stack.STopPop(null);
        SpansNode(tmp, x);
        ok, out := Leftmost_Preorder(tmp.RPtr, stack, out, x.right);
        if !ok {
          return;
        }
        p := Popped(p);
        peak := Max(peak, |p|);
        SpansNode(root, t);
      }
      Finished(out, peak);
    }
  }

  /** BTPostorder 335-337: look at the top node, and take its flag. */
  method TopNode(stackP: Stack<Node?>, stackB: Stack<bool>) returns (tmp: Node?, left: bool)
    requires stackP.Valid() && stackB.Valid()
    requires |stackP.Contents()| == |stackB.Contents()| > 0
    modifies stackP, stackP.a, stackB
    ensures stackP.Valid() && stackB.Valid()
    ensures stackP.Contents() == old(stackP.Contents()) && tmp == Top(old(stackP.Contents()))
    ensures left == Top(old(stackB.Contents())) && stackB.Contents() == Below(old(stackB.Contents()))
  {
    tmp := stackP.STopPop(null);
    var ok := stackP.SPush(tmp);
    left := stackB.STopPop(false);
  }

  /** BTPostorder 339-340: the flag of the top node changes, and its right subtree is next. */
  method GoRight(tmp: Node, stackP: Stack<Node?>, stackB: Stack<bool>, ghost x: Tree, ghost f: seq<bool>)
    returns (ok: bool)
    requires stackP.Valid() && stackB.Valid() && stackB.Contents() == f
    requires |f| + 1 == |stackP.Contents()| < MAXSTACK && x.Fork? && Spans(tmp, x)
    modifies stackP, stackP.a, stackB, stackB.a
    ensures stackP.Valid() && stackB.Valid()
    ensures ok <==> |old(stackP.Contents())| + |Spine(x.right)| < MAXSTACK
    ensures ok ==> stackP.Contents() == StackedOn(old(stackP.Contents()), x.right)
    ensures ok ==> stackB.Contents() == FlaggedOn(f + [false], x.right)
  {
    hide Stack<Node?>.Contents, Stack<bool>.Contents, Spans, Nodes, Spine, StackedOn, FlaggedOn;
    SpansNode(tmp, x);
    ok := stackB.SPush(false);
    SpansNode(tmp, x);
    ok := Leftmost_Postorder(tmp.RPtr, stackP, stackB, x.right);
  }

  /**
   BTPostorder 335-344: a node on top for the first time waits for its right subtree, and is
   printed the second time.
   */
  method PostorderStep(stackP: Stack<Node?>, stackB: Stack<bool>, ghost root: Node?, ghost t: Tree,
                       ghost p: seq<Tree>, ghost f: seq<bool>)
    returns (ok: bool, left: bool, key: int)
    requires stackP.Valid() && stackB.Valid() && stackP.Contents() == Pointers(p) && stackB.Contents() == f
    requires Spans(root, t) && Forks(p) && AllWithin(p, t) && 0 < |f| == |p| < MAXSTACK
    modifies stackP, stackP.a, stackB, stackB.a
    ensures stackP.Valid() && stackB.Valid() && left == Top(f) && Top(p).Fork? && Spans(root, t)
    ensures left ==> (ok <==> |p| + |Spine(Top(p).right)| < MAXSTACK)
    ensures left ==> Forks(Deeper(p)) && AllWithin(Deeper(p), t) && |Deeper(p)| == |p| + |Spine(Top(p).right)|
    ensures left && ok ==>
      stackP.Contents() == Pointers(Deeper(p)) && stackB.Contents() == FlaggedOn(Below(f) + [false], Top(p).right)
    ensures !left ==>
      && ok && key == Top(p).key && Forks(Below(p)) && AllWithin(Below(p), t)
      && stackP.Contents() == Pointers(Below(p)) && stackB.Contents() == Below(f)
  {
    hide Stack<Node?>.Contents, Stack<bool>.Contents, Spans, Nodes, Forks, Pointers, AllWithin, Deeper, Spine,
      StackedOn, FlaggedOn, Below, Top;
    ok, key := true, 0;
    StackedTop(root, t, p);
    StackedDeeper(t, p);
    ghost var x := Top(p);
    SpansNode(x.node, x);
    SpansNode(root, t);
    var tmp;
    tmp, left := TopNode(stackP, stackB);
    if left {
      ok := GoRight(tmp, stackP, stackB, x, Below(f));
    } else {
      tmp := stackP.STopPop(null);
      SpansNode(tmp, x);
      key := tmp.Cont;
    }
  }

  /** BTPostorder.  Both stacks always hold as many values, at most the height of the tree. */
  method BTPostorder(root: Node?, ghost t: Tree) returns (ok: bool, out: seq<int>, ghost peak: nat)
    requires Spans(root, t)
    ensures ok <==> Height(t) < MAXSTACK
    ensures ok ==> out == Postorder(t) && peak == Height(t)
  {
    hide Stack<Node?>.Contents, Stack<bool>.Contents, Spans, Nodes, Forks, Pointers, AllWithin, Deeper, Spine,
      StackedOn, FlaggedOn, PostWalking, PostTodo, Below, Top;
    ok, out, peak := true, [], 0;
    SpansNode(root, t);
    StackedSpine(t);
    PostStarts(t);
    if root != null {
      var stackP := new Stack<Node?>.SInit();
      var stackB := new Stack<bool>.SInit();
      SpansNode(root, t);
      ghost var p, f := Spine(t), FlaggedOn([], t);
      ok := Leftmost_Postorder(root, stackP, stackB, t);
      if !ok {
        return;
      }
      peak := |p|;
      SpansNode(root, t);
      while !stackP.SEmpty()
        invariant ok && stackP.Valid() && fresh(stackP) && fresh(stackP.a)
        invariant stackB.Valid() && fresh(stackB) && fresh(stackB.a) && Spans(root, t)
        invariant Forks(p) && AllWithin(p, t) && stackP.Contents() == Pointers(p)
        invariant |p| == |f| < MAXSTACK && stackB.Contents() == f
        invariant PostWalking(t, out, p, f, peak)
        decreases PostTodo(p, f)
      {
        var left: bool, key: int;
        ok, left, key := PostorderStep(stackP, stackB, root, t, p, f);
        if left {
          PostGoesRight(t, out, p, f, peak);
        } else {
          PostPrints(t, out, p, f, peak);
        }
        if !ok {
          return;
        }
        if left {
          p, f := Deeper(p), FlaggedOn(Below(f) + [false], Top(p).right);
          peak := Max(peak, |p|);
        } else {
          out := out + [key];
          p, f := Below(p), Below(f);
        }
      }
    }
    PostEnds(t, out, peak);
  }

  /** BTDisposeTree 368-373: the right child of the current node, if any, is stacked, and the node freed. */
  method DisposeNode(root: Node, stack: Stack<Node?>, ghost t: Tree, ghost p: seq<Tree>) returns (ok: bool, next: Node?)
    requires stack.Valid() && stack.Contents() == Pointers(p)
    requires t.Fork? && Spans(root, t) && Waiting(p) && AllApart(t, p)
    modifies root, stack, stack.a
    ensures stack.Valid() && (ok <==> t.right.Nil? || |p| + 1 < MAXSTACK)
    ensures ok ==> Spans(next, t.left) && (next == null <==> t.left.Nil?) && root == t.node && !root.live
    ensures ok ==> Waiting(WithRight(t, p)) && stack.Contents() == Pointers(WithRight(t, p))
  {
    hide Stack<Node?>.Contents, Spans, Nodes, Pointers, AllApart, WithRight;
    ok := true;
    WaitingAllocated(p);
    SpansNode(root, t);
    AllApartStep(t, p);
    WaitingPush(t, p);
    WaitingAllocated(WithRight(t, p));
    if root.RPtr != null {
      ok := stack.SPush(root.RPtr);
      if !ok {
        return false, root;
      }
    }
    SpansNode(root, t);
    next := root.LPtr;
    root.Free();
    SpansNode(next, t.left);
  }

  /** BTDisposeTree 365: the tree on top of the stack is the next one. */
  method PopNode(stack: Stack<Node?>, ghost p: seq<Tree>) returns (root: Node?)
    requires stack.Valid() && stack.Contents() == Pointers(p) && |p| > 0 && Waiting(p)
    modifies stack
    ensures stack.Valid() && stack.Contents() == Pointers(Below(p)) && Waiting(Below(p))
    ensures Top(p).Fork? && root == Top(p).node && Spans(root, Top(p))
  {
    hide Stack<Node?>.Contents, Spans, Nodes, Pointers, Top, Below;
    WaitingPop(p);
    WaitingAllocated(Below(p));
    NodesAllocated(Top(p));
    root := stack.STopPop(null);
    SpansNode(root, Top(p));
  }

  /** BTDisposeTree 359-376, from the root on. */
  method DisposeFrom(root: Node?, ghost t: Tree)
    returns (ok: bool, last: Node?, ghost freed: seq<Node>, ghost peak: nat)
    requires Spans(root, t) && Apart(t)
    modifies Nodes(t)
    ensures ok <==> DisposeDepth(t) < MAXSTACK
    ensures ok ==> last == null && freed == PreorderNodes(t) && peak == DisposeDepth(t)
    ensures ok ==> forall n: Node :: n in freed ==> !n.live
  {
    hide Stack<Node?>.Contents, Spans, Nodes, Pointers, Disposing, WithRight, Top, Below, Waiting;
    ghost var rest: Tree, p: seq<Tree> := t, [];
    ok, last, freed, peak := true, root, [], 0;
    DisposeStarts(t);
    SpansNode(root, t);
    if root != null {
      var stack := new Stack<Node?>.SInit();
      SpansNode(root, t);
      NoneWait();
      while last != null || !stack.SEmpty()
        invariant ok && stack.Valid() && fresh(stack) && fresh(stack.a)
        invariant Spans(last, rest) && (last == null <==> rest.Nil?)
        invariant stack.Contents() == Pointers(p) && Waiting(p)
        invariant Disposing(t, freed, rest, p, peak)
        invariant forall n: Node :: n in freed ==> !n.live
        decreases |PreorderNodes(t)| - |freed|, |p|
      {
        if last == null {
          if !stack.SEmpty() {
            DisposePops(t, freed, p, peak);
            last := PopNode(stack, p);
            rest, p := Top(p), Below(p);
          }
        } else {
          SpansNode(last, rest);
          DisposeGoesOn(t, freed, rest, p, peak);
          freed := freed + [last];
          ok, last := DisposeNode(last, stack, rest, p);
          if !ok {
            return;
          }
          rest, p := rest.left, WithRight(rest, p);
          peak := Max(peak, |p|);
        }
      }
    }
    DisposeEnds(t, freed, peak);
  }

  /** The tree behind a `tBTNodePtr *`. */
  class BinTree {
    var root: Node?
    ghost var shape: Tree

    ghost predicate Valid()
      reads this, Nodes(shape)
    {
      Spans(root, shape) && Apart(shape) && Ordered(shape)
    }

    /** BTInit. */
    constructor BTInit()
      ensures Valid() && shape == Nil
    {
      root, shape := null, Nil;
    }

    /** BTInsert; without memory for a node nothing happens. */
    method BTInsert(content: int, memory: bool) returns (ghost n: Node?)
      requires Valid()
      modifies this, Nodes(shape)
      ensures Valid()
      ensures n != null <==> memory && content !in Keys(old(shape))
      ensures n == null ==> shape == old(shape) && root == old(root)
      ensures n != null ==> fresh(n) && shape == Insert(old(shape), content, n)
      ensures Keys(shape) == old(Keys(shape)) + if memory then {content} else {}
    {
      hide Spans, Path, Nodes, Ordered, Apart;
      var tmp, where: Node?, found := root, null, false;
      ghost var t, rest: Tree, path: seq<Tree> := shape, shape, [];
      FoundIffKey(t, content);
      PathStart(t, content);
      SpansNode(tmp, rest);
      while !found && tmp != null
        invariant Spans(tmp, rest) && (tmp == null <==> rest.Nil?)
        invariant found ==> Found(t, content)
        invariant forall i :: 0 <= i < |path| ==> path[i].Fork? && Spans(path[i].node, path[i])
        invariant !found ==> Found(rest, content) == Found(t, content) && Path(path, t, rest, content)
        invariant !found ==> (if |path| == 0 then where == null && t == rest else where == path[|path| - 1].node)
        modifies {}
        decreases !found, rest
      {
        SpansNode(tmp, rest);
        where := tmp;
        if tmp.Cont > content {
          tmp := tmp.LPtr;
        } else if tmp.Cont < content {
          tmp := tmp.RPtr;
        } else {
          found := true;
        }
        if !found {
          PathGrows(path, t, rest, content);
          path, rest := path + [rest], Down(rest, content);
          SpansNode(tmp, rest);
        }
      }
      if found || !memory {
        return null;
      }
      forall i | 0 <= i < |path|
        ensures path[i].Fork? && Holds(path[i], content) && allocated(Nodes(Other(path[i], content)))
        ensures i < |path| - 1 ==> Next(path[i], content) == path[i + 1].node
        ensures where in Nodes(path[i]) && where !in Nodes(Other(path[i], content))
        ensures i < |path| - 1 ==> where != path[i].node
      {
        PathHolds(path, t, rest, content, i);
        PathApart(path, t, rest, content, i);
        PathEnd(path, t, rest, content, i);
      }
      if where != null {
        PathApart(path, t, rest, content, 0);
      }
      hide Other;
      var toBeAdded := new Node(content);
      n := toBeAdded;
      if where == null {
        root := toBeAdded;
        LeafSpans(content, toBeAdded);
      } else {
        if where.Cont > content {
          where.LPtr := toBeAdded;
        } else {
          where.RPtr := toBeAdded;
        }
        PathLinked(path, t, content, toBeAdded, 0);
      }
      shape := Insert(t, content, toBeAdded);
      InsertNodes(t, content, toBeAdded);
      InsertOrdered(t, content, toBeAdded);
    }

    /**
     BTDisposeTree.  Every node is freed once, in pre-order, and none is read afterwards:
     nothing is known of the fields of a freed node.
     */
    method BTDisposeTree() returns (ok: bool, ghost freed: seq<Node>, ghost peak: nat)
      requires Valid()
      modifies this, Nodes(shape)
      ensures ok <==> DisposeDepth(old(shape)) < MAXSTACK
      ensures ok ==> Valid() && root == null && shape == Nil
      ensures ok ==> freed == PreorderNodes(old(shape)) && multiset(freed) == multiset(old(Nodes(shape)))
      ensures ok ==> peak == DisposeDepth(old(shape)) && forall n: Node :: n in freed ==> !n.live
    {
      hide Spans, Nodes;
      ghost var t := shape;
      PreorderNodesOnce(t);
      ok, root, freed, peak := DisposeFrom(root, t);
      shape := Nil;
      NilSpans();
    }
  }

  /**
   Any run of insertions into an empty tree, followed by a listing, sorts the keys and drops
   duplicates; it stays within the stack if and only if the tree that the run builds does.
   */
  method InsertAndList(keys: seq<int>) returns (ok: bool, out: seq<int>)
    ensures ok <==> Depth(Built(keys)) < MAXSTACK
    ensures |keys| < MAXSTACK ==> ok
    ensures ok ==> Ascending(out) && forall x :: x in out <==> x in keys
  {
    hide Spans, Nodes, Apart, Ordered, Keys, LeftDepth, Depth, Built, Bare;
    var tree := new BinTree.BTInit();
    EmptyTree();
    for i := 0 to |keys|
      invariant fresh(tree) && fresh(Nodes(tree.shape)) && tree.Valid()
      invariant forall x :: x in Keys(tree.shape) <==> x in keys[..i]
      invariant Bare(tree.shape) == Built(keys[..i])
    {
      ghost var t := tree.shape;
      FoundIffKey(t, keys[i]);
      ghost var n := tree.BTInsert(keys[i], true);
      if n != null {
        InsertNodes(t, keys[i], n);
      }
      BareInserted(t, keys[i], n, tree.shape);
      BuiltMore(keys[..i], keys[i]);
      assert keys[..i + 1] == keys[..i] + [keys[i]];
    }
    assert keys[..|keys|] == keys;
    ghost var peak: nat;
    BareDepth(tree.shape);
    BuiltDepth(keys);
    InorderKeys(tree.shape);
    InorderAscends(tree.shape);
    ok, out, peak := BTInorder(tree.root, tree.shape);
  }

  lemma {:induction false} BareInserted(t: Tree, k: int, n: Node?, t': Tree)
    requires t' == if n == null then t else Insert(t, k, n)
    requires n == null <==> Found(t, k)
    ensures Bare(t') == InsertKey(Bare(t), k)
  {
    if n == null {
      FoundKept(t, k);
    } else {
      BareInsert(t, k, n);
    }
  }

  /** The run that the overflow test comes too late for: so many descending keys, and no fewer. */
  lemma {:induction false} DescendingRunOverflows(n: nat, from: int)
    ensures Depth(Built(Descending(n, from))) < MAXSTACK <==> n < 30
    ensures Depth(Built(Climbing(n, from))) < MAXSTACK
  {
    DescendingDepth(n, from);
    AscendingDepth(n, from);
  }
}
