/**
 sem_3/ial/proj_2/c401: the recursive operations on a binary search tree.  A function that
 takes a `tBSTNodePtr *` here takes the pointer and returns the new one, which its caller
 stores where the old one was.
 */
module Bst {
  import opened Options
  import opened BstShape

  /** BSTInit. */
  function BSTInit(): (root: Node?)
    ensures Spans(root, Nil)
  {
    null
  }

  /** BSTSearch; `content` is what the caller's variable holds, and keeps if the key is not there. */
  method BSTSearch(root: Node?, k: int, content: int, ghost t: Tree) returns (found: bool, content': int)
    requires Spans(root, t) && Ordered(t)
    ensures found <==> k in Entries(t)
    ensures content' == if found then Entries(t)[k] else content
    decreases t
  {
    SpansNode(root, t);
    if root == null {
      found, content' := false, content;
      return;
    }
    OrderedFork(t);
    ForkEntries(t, k);
    hide Spans, Ordered, Entries;
    if root.Key == k {
      found, content' := true, root.BSTNodeCont;
    } else if root.Key > k {
      found, content' := BSTSearch(root.LPtr, k, content, t.left);
    } else {
      found, content' := BSTSearch(root.RPtr, k, content, t.right);
    }
  }

  /** BSTInsert; `memory` says whether the allocator has room for a node. */
  method BSTInsert(root: Node?, k: int, v: int, memory: bool, ghost t: Tree) returns (root': Node?, ghost n: Node?)
    requires Spans(root, t) && Apart(t)
    modifies Nodes(t)
    ensures n == null || fresh(n)
    ensures Spans(root', Put(t, k, v, n)) && Apart(Put(t, k, v, n))
    ensures Ordered(t) ==> (n != null <==> memory && k !in Entries(t))
    decreases t
  {
    hide Spans, Apart, Nodes, Ordered, Entries, Put;
    SpansNode(root, t);
    root', n := root, null;
    if root == null {
      if memory {
        var toBeAdded := new Node(k, v);
        root', n := toBeAdded, toBeAdded;
      }
      LeafSpans(root', k, v, n);
      return;
    }
    ApartParts(t);
    if Ordered(t) {
      KeySide(t, k);
    }
    if k < root.Key {
      var p;
      p, n := BSTInsert(root.LPtr, k, v, memory, t.left);
      PutNodes(t.left, k, v, n);
      root.LPtr := p;
      NodeSpans(root, t.(left := Put(t.left, k, v, n)));
    } else if k > root.Key {
      var p;
      p, n := BSTInsert(root.RPtr, k, v, memory, t.right);
      PutNodes(t.right, k, v, n);
      root.RPtr := p;
      NodeSpans(root, t.(right := Put(t.right, k, v, n)));
    } else {
      root.BSTNodeCont := v;
      NodeSpans(root, t.(val := v));
    }
    PutFork(t, k, v, n);
    PutNodes(t, k, v, n);
  }

  /** ReplaceByRightmost: the rightmost node gives its key and content to `replaced` and is freed. */
  method ReplaceByRightmost(replaced: Node, root: Node?, ghost t: Tree) returns (root': Node?)
    requires Spans(root, t) && Apart(t) && replaced !in Nodes(t)
    modifies replaced, Nodes(t)
    ensures root == null ==> root' == null && unchanged(replaced)
    ensures root != null ==>
      && Spans(root', DropRightmost(t)) && !Rightmost(t).node.live
      && replaced.Key == Rightmost(t).key && replaced.BSTNodeCont == Rightmost(t).val
      && replaced.LPtr == old(replaced.LPtr) && replaced.RPtr == old(replaced.RPtr)
      && replaced.live == old(replaced.live)
    decreases t
  {
    SpansNode(root, t);
    root' := root;
    if root == null {
      return;
    }
    ApartParts(t);
    hide Spans, Apart, Nodes;
    SpansNode(root.RPtr, t.right);
    if root.RPtr != null {
      DropNodes(t.right);
      var p := ReplaceByRightmost(replaced, root.RPtr, t.right);
      root.RPtr := p;
      NodeSpans(root, DropRightmost(t));
    } else {
      replaced.BSTNodeCont := root.BSTNodeCont;
      replaced.Key := root.Key;
      var tmp := root;
      root' := root.LPtr;
      tmp.Free();
    }
  }

  /** BSTDelete 167-180: the node that holds the key. */
  method DeleteNode(root: Node, ghost t: Tree) returns (root': Node?)
    requires Spans(root, t) && Apart(t) && t.Fork?
    modifies Nodes(t)
    ensures Spans(root', Remove(t, t.key))
    ensures Freed(t, t.key) != null && !Freed(t, t.key).live
  {
    SpansNode(root, t);
    ApartParts(t);
    hide Spans, Apart, Nodes;
    SpansNode(root.LPtr, t.left);
    SpansNode(root.RPtr, t.right);
    root' := root;
    var tmp := root;
    if tmp.RPtr == null && tmp.LPtr == null {
      root' := null;
      tmp.Free();
    } else if tmp.RPtr == null {
      root' := tmp.LPtr;
      tmp.Free();
    } else if tmp.LPtr == null {
      root' := tmp.RPtr;
      tmp.Free();
    } else {
      DropNodes(t.left);
      var p := ReplaceByRightmost(root, root.LPtr, t.left);
      root.LPtr := p;
      NodeSpans(root, Remove(t, t.key));
    }
  }

  /** BSTDelete.  No other node than Freed(t, k) is freed. */
  method BSTDelete(root: Node?, k: int, ghost t: Tree) returns (root': Node?)
    requires Spans(root, t) && Apart(t)
    modifies Nodes(t)
    ensures Spans(root', Remove(t, k)) && Apart(Remove(t, k))
    ensures Freed(t, k) != null ==> !Freed(t, k).live
    decreases t
  {
    SpansNode(root, t);
    root' := root;
    if root == null {
      return;
    }
    ApartParts(t);
    RemoveApart(t, k);
    if k != t.key {
      RemoveFork(t, k);
    }
    hide Spans, Apart, Nodes, Remove, Freed;
    if root.Key > k {
      var p := BSTDelete(root.LPtr, k, t.left);
      root.LPtr := p;
      NodeSpans(root, Remove(t, k));
    } else if root.Key < k {
      var p := BSTDelete(root.RPtr, k, t.right);
      root.RPtr := p;
      NodeSpans(root, Remove(t, k));
    } else {
      root' := DeleteNode(root, t);
    }
  }

  /** BSTDispose: every node is freed, and none twice. */
  method BSTDispose(root: Node?, ghost t: Tree) returns (root': Node?)
    requires Spans(root, t) && Apart(t)
    modifies Nodes(t)
    ensures root' == null
    ensures forall n: Node :: n in Nodes(t) ==> !n.live
    decreases t
  {
    SpansNode(root, t);
    if root == null {
      return null;
    }
    ApartParts(t);
    hide Spans, Apart;
    SpansNode(root.LPtr, t.left);
    var p := BSTDispose(root.RPtr, t.right);
    root.RPtr := p;
    p := BSTDispose(root.LPtr, t.left);
    root.LPtr := p;
    root.Free();
    root' := null;
  }

  // ---------- whole runs ----------

  datatype Op = OpInsert(k: int, v: int, memory: bool) | OpDelete(k: int) | OpSearch(k: int)

  function Apply(op: Op, m: map<int, int>): map<int, int> {
    match op
    case OpInsert(k, v, memory) => if k in m || memory then m[k := v] else m
    case OpDelete(k) => m - {k}
    case OpSearch(_) => m
  }

  /** What a finite map answers to the searches of a run. */
  function Answers(ops: seq<Op>, m: map<int, int>): seq<Option<int>> {
    if |ops| == 0 then [] else
      (if ops[0].OpSearch? then [Lookup(m, ops[0].k)] else []) + Answers(ops[1..], Apply(ops[0], m))
  }

  lemma {:induction false} AnswersStep(ops: seq<Op>, i: nat, m: map<int, int>, out: seq<Option<int>>)
    requires i < |ops|
    ensures var out' := if ops[i].OpSearch? then out + [Lookup(m, ops[i].k)] else out;
      out' + Answers(ops[i + 1..], Apply(ops[i], m)) == out + Answers(ops[i..], m)
  {
    assert ops[i..][1..] == ops[i + 1..];
  }

  /** The tree, from BSTInit on, answers any run as the finite map does. */
  method Execute(ops: seq<Op>) returns (out: seq<Option<int>>)
    ensures out == Answers(ops, map[])
  {
    hide Spans, Apart, Nodes, Ordered, Entries, Answers;
    var root: Node?;
    ghost var t: Tree;
    root, t, out := BSTInit(), Nil, [];
    Initial();
    assert ops[0..] == ops;
    for i := 0 to |ops|
      invariant Spans(root, t) && Apart(t) && Ordered(t) && fresh(Nodes(t))
      invariant out + Answers(ops[i..], Entries(t)) == Answers(ops, map[])
    {
      AnswersStep(ops, i, Entries(t), out);
      SpansNode(root, t);
      match ops[i]
      case OpInsert(k, v, memory) =>
        ghost var n: Node?;
        root, n := BSTInsert(root, k, v, memory, t);
        PutEntries(t, k, v, n);
        PutNodes(t, k, v, n);
        t := Put(t, k, v, n);
      case OpDelete(k) =>
        root := BSTDelete(root, k, t);
        RemoveEntries(t, k);
        RemoveApart(t, k);
        t := Remove(t, k);
      case OpSearch(k) =>
        var found, content := BSTSearch(root, k, 0, t);
        out := out + [if found then Some(content) else None];
    }
    NoMoreAnswers(Entries(t));
    assert ops[|ops|..] == [];
    root := BSTDispose(root, t);
  }

  lemma {:induction false} NoMoreAnswers(m: map<int, int>)
    ensures Answers([], m) == []
  {
  }
}
