/**
 The search tree of sem_3/ial/proj_2/c401: heap nodes, the shape they form, and the finite
 map that the shape stands for.
 */
module BstShape {

  /** struct tBSTNode.  `live` says that the node was allocated and not freed. */
  class Node {
    var Key: int
    var BSTNodeCont: int
    var LPtr: Node?
    var RPtr: Node?
    ghost var live: bool

    constructor (k: int, content: int)
      ensures Key == k && BSTNodeCont == content && LPtr == null && RPtr == null && live
    {
      Key, BSTNodeCont, LPtr, RPtr, live := k, content, null, null, true;
    }

    /** free(): a node is freed once, and nothing is known of its fields afterwards. */
    method Free()
      requires live
      modifies this
      ensures !live
    {
      Key, BSTNodeCont, LPtr, RPtr, live := *, *, *, *, false;
    }
  }

  datatype Tree = Nil | Fork(left: Tree, node: Node, key: int, val: int, right: Tree)

  ghost function Nodes(t: Tree): set<Node> {
    match t
    case Nil => {}
    case Fork(l, n, _, _, r) => {n} + Nodes(l) + Nodes(r)
  }

  /** No node sits at two places. */
  ghost predicate Apart(t: Tree) {
    match t
    case Nil => true
    case Fork(l, n, _, _, r) =>
      n !in Nodes(l) && n !in Nodes(r) && Nodes(l) !! Nodes(r) && Apart(l) && Apart(r)
  }

  /** The live nodes reached from `p` form the tree `t`. */
  ghost predicate Spans(p: Node?, t: Tree)
    reads Nodes(t)
  {
    match t
    case Nil => p == null
    case Fork(l, n, k, v, r) =>
      p == n && n.live && n.Key == k && n.BSTNodeCont == v && Spans(n.LPtr, l) && Spans(n.RPtr, r)
  }

  lemma {:induction false} NodesAllocated(t: Tree)
    ensures allocated(Nodes(t))
  {
    if t.Fork? {
      NodesAllocated(t.left);
      NodesAllocated(t.right);
    }
  }

  /** What `p` points to, when it spans `t`. */
  lemma {:induction false} SpansNode(p: Node?, t: Tree)
    requires Spans(p, t)
    ensures p == null <==> t.Nil?
    ensures t.Fork? ==>
      && p == t.node && p.live && p.Key == t.key && p.BSTNodeCont == t.val
      && Spans(p.LPtr, t.left) && Spans(p.RPtr, t.right)
      && allocated(Nodes(t.left)) && allocated(Nodes(t.right))
    ensures allocated(Nodes(t))
  {
    NodesAllocated(t);
  }

  lemma {:induction false} NodeSpans(p: Node?, t: Tree)
    requires if t.Nil? then p == null else
      && p == t.node && p.live && p.Key == t.key && p.BSTNodeCont == t.val
      && Spans(p.LPtr, t.left) && Spans(p.RPtr, t.right)
    ensures Spans(p, t)
  {
  }

  lemma {:induction false} LeafSpans(p: Node?, k: int, v: int, n: Node?)
    requires p == n
    requires n != null ==> n.live && n.Key == k && n.BSTNodeCont == v && n.LPtr == null && n.RPtr == null
    ensures Spans(p, Put(Nil, k, v, n)) && Apart(Put(Nil, k, v, n)) && Entries(Nil) == map[]
  {
  }

  lemma {:induction false} ApartParts(t: Tree)
    requires Apart(t) && t.Fork?
    ensures Apart(t.left) && Apart(t.right) && Nodes(t) == {t.node} + Nodes(t.left) + Nodes(t.right)
    ensures t.node !in Nodes(t.left) && t.node !in Nodes(t.right) && Nodes(t.left) !! Nodes(t.right)
  {
  }

  // ---------- the map ----------

  ghost function Entries(t: Tree): map<int, int> {
    match t
    case Nil => map[]
    case Fork(l, _, k, v, r) => Entries(l) + Entries(r) + map[k := v]
  }

  ghost predicate Ordered(t: Tree) {
    match t
    case Nil => true
    case Fork(l, _, k, _, r) =>
      Between(l, k, r) && Ordered(l) && Ordered(r)
  }

  lemma {:induction false} Initial()
    ensures Apart(Nil) && Ordered(Nil) && Entries(Nil) == map[] && Nodes(Nil) == {}
  {
  }

  // ---------- the shapes that the operations make ----------

  /** BSTInsert: `n` is the node allocated for a new key, null without memory. */
  function Put(t: Tree, k: int, v: int, n: Node?): Tree {
    match t
    case Nil => if n == null then Nil else Fork(Nil, n, k, v, Nil)
    case Fork(l, m, c, w, r) =>
      if k < c then Fork(Put(l, k, v, n), m, c, w, r)
      else if k > c then Fork(l, m, c, w, Put(r, k, v, n))
      else Fork(l, m, c, v, r)
  }

  /** The rightmost node, and the tree without it. */
  function Rightmost(t: Tree): (m: Tree)
    requires t.Fork?
    ensures m.Fork?
  {
    if t.right.Fork? then Rightmost(t.right) else t
  }

  function DropRightmost(t: Tree): Tree
    requires t.Fork?
  {
    if t.right.Fork? then t.(right := DropRightmost(t.right)) else t.left
  }

  /** BSTDelete. */
  function Remove(t: Tree, k: int): Tree {
    match t
    case Nil => Nil
    case Fork(l, n, c, w, r) =>
      if c > k then Fork(Remove(l, k), n, c, w, r)
      else if c < k then Fork(l, n, c, w, Remove(r, k))
      else if r.Nil? then l
      else if l.Nil? then r
      else Fork(DropRightmost(l), n, Rightmost(l).key, Rightmost(l).val, r)
  }

  /** The node that BSTDelete frees, if any: with two children it is not the one that held the key. */
  function Freed(t: Tree, k: int): Node? {
    match t
    case Nil => null
    case Fork(l, n, c, _, r) =>
      if c > k then Freed(l, k)
      else if c < k then Freed(r, k)
      else if r.Nil? || l.Nil? then n
      else Rightmost(l).node
  }

  lemma {:induction false} PutFork(t: Tree, k: int, v: int, n: Node?)
    requires t.Fork?
    ensures Put(t, k, v, n) ==
      if k < t.key then t.(left := Put(t.left, k, v, n)) else if k > t.key then t.(right := Put(t.right, k, v, n))
      else t.(val := v)
  {
  }

  lemma {:induction false} RemoveFork(t: Tree, k: int)
    requires t.Fork? && k != t.key
    ensures Remove(t, k) == if k < t.key then t.(left := Remove(t.left, k)) else t.(right := Remove(t.right, k))
    ensures Freed(t, k) == if k < t.key then Freed(t.left, k) else Freed(t.right, k)
  {
  }

  // ---------- ... and what they mean for the map ----------

  lemma {:induction false} ForkEntries(t: Tree, x: int)
    requires t.Fork?
    ensures x in Entries(t) <==> x == t.key || x in Entries(t.right) || x in Entries(t.left)
    ensures x in Entries(t) ==>
      Entries(t)[x] ==
        if x == t.key then t.val else if x in Entries(t.right) then Entries(t.right)[x] else Entries(t.left)[x]
  {
  }

  ghost predicate Between(l: Tree, k: int, r: Tree) {
    (forall x :: x in Entries(l) ==> x < k) && (forall x :: x in Entries(r) ==> k < x)
  }

  lemma {:induction false} OrderedFork(t: Tree)
    requires t.Fork?
    ensures Ordered(t) <==> Between(t.left, t.key, t.right) && Ordered(t.left) && Ordered(t.right)
  {
  }

  /** The key is sought where it belongs. */
  lemma {:induction false} KeySide(t: Tree, k: int)
    requires t.Fork? && Ordered(t)
    ensures Ordered(t.left) && Ordered(t.right)
    ensures k in Entries(t) <==>
      k == t.key || if k < t.key then k in Entries(t.left) else k in Entries(t.right)
  {
    OrderedFork(t);
    ForkEntries(t, k);
    hide Ordered, Entries;
  }

  /** `m` with the entry of `k` set to `v`, or dropped. */
  ghost function Changed(m: map<int, int>, k: int, put: bool, v: int): map<int, int> {
    if put then m[k := v] else m - {k}
  }

  /** Changing one entry on the left of the root changes that entry of the tree, ... */
  lemma {:induction false} ChangedLeft(t: Tree, l: Tree, k: int, put: bool, v: int)
    requires t.Fork? && Ordered(t) && k < t.key && Ordered(l) && Entries(l) == Changed(Entries(t.left), k, put, v)
    ensures var s := t.(left := l); Ordered(s) && Entries(s) == Changed(Entries(t), k, put, v)
  {
    var s := t.(left := l);
    OrderedFork(t);
    OrderedFork(s);
    hide Ordered, Entries;
    forall x
      ensures x in Entries(s) <==> x in Changed(Entries(t), k, put, v)
      ensures x in Entries(s) ==> Entries(s)[x] == Changed(Entries(t), k, put, v)[x]
    {
      ForkEntries(t, x);
      ForkEntries(s, x);
    }
  }

  /** ... and so on the right. */
  lemma {:induction false} ChangedRight(t: Tree, r: Tree, k: int, put: bool, v: int)
    requires t.Fork? && Ordered(t) && t.key < k && Ordered(r) && Entries(r) == Changed(Entries(t.right), k, put, v)
    ensures var s := t.(right := r); Ordered(s) && Entries(s) == Changed(Entries(t), k, put, v)
  {
    var s := t.(right := r);
    OrderedFork(t);
    OrderedFork(s);
    hide Ordered, Entries;
    forall x
      ensures x in Entries(s) <==> x in Changed(Entries(t), k, put, v)
      ensures x in Entries(s) ==> Entries(s)[x] == Changed(Entries(t), k, put, v)[x]
    {
      ForkEntries(t, x);
      ForkEntries(s, x);
    }
  }

  lemma {:induction false} PutEntries(t: Tree, k: int, v: int, n: Node?)
    requires Ordered(t)
    ensures Ordered(Put(t, k, v, n))
    ensures Entries(Put(t, k, v, n)) == if k in Entries(t) || n != null then Entries(t)[k := v] else Entries(t)
  {
    if t.Fork? {
      var s, put := Put(t, k, v, n), k in Entries(t) || n != null;
      OrderedFork(t);
      ForkEntries(t, k);
      hide Entries, Ordered;
      if k < t.key {
        PutEntries(t.left, k, v, n);
        ChangedLeft(t, s.left, k, put, v);
      } else if k > t.key {
        PutEntries(t.right, k, v, n);
        ChangedRight(t, s.right, k, put, v);
      } else {
        PutHere(t, v);
      }
    }
  }

  lemma {:induction false} PutHere(t: Tree, v: int)
    requires t.Fork? && Ordered(t)
    ensures Ordered(t.(val := v)) && Entries(t.(val := v)) == Entries(t)[t.key := v]
  {
    hide Between;
  }

  lemma {:induction false} RightmostIsGreatest(t: Tree)
    requires t.Fork? && Ordered(t)
    ensures var m := Rightmost(t);
      && m.key in Entries(t) && Entries(t)[m.key] == m.val
      && (forall x :: x in Entries(t) ==> x <= m.key)
      && Ordered(DropRightmost(t)) && Entries(DropRightmost(t)) == Entries(t) - {m.key}
  {
    OrderedFork(t);
    ForkEntries(t, Rightmost(t).key);
    if t.right.Fork? {
      RightmostIsGreatest(t.right);
      var s, want := DropRightmost(t), Entries(t) - {Rightmost(t).key};
      hide Entries, Ordered;
      forall x
        ensures x in Entries(s) <==> x in want
        ensures x in want ==> Entries(s)[x] == want[x]
      {
        ForkEntries(t, x);
        ForkEntries(s, x);
      }
      OrderedFork(s);
    }
  }

  lemma {:induction false} RemoveEntries(t: Tree, k: int)
    requires Ordered(t)
    ensures Ordered(Remove(t, k)) && Entries(Remove(t, k)) == Entries(t) - {k}
  {
    if t.Fork? {
      OrderedFork(t);
      hide Entries, Ordered;
      if t.key > k {
        RemoveEntries(t.left, k);
        ChangedLeft(t, Remove(t.left, k), k, false, 0);
      } else if t.key < k {
        RemoveEntries(t.right, k);
        ChangedRight(t, Remove(t.right, k), k, false, 0);
      } else {
        RemoveRoot(t);
      }
    }
  }

  /** A root with two children takes over the greatest entry of the left one. */
  lemma {:induction false} RemoveRoot(t: Tree)
    requires t.Fork? && Ordered(t)
    ensures Ordered(Remove(t, t.key)) && Entries(Remove(t, t.key)) == Entries(t) - {t.key}
  {
    OrderedFork(t);
    if t.left.Fork? && t.right.Fork? {
      RightmostIsGreatest(t.left);
      var s, want := Remove(t, t.key), Entries(t) - {t.key};
      OrderedFork(s);
      hide Entries, Ordered;
      forall x
        ensures x in Entries(s) <==> x in want
        ensures x in want ==> Entries(s)[x] == want[x]
      {
        ForkEntries(t, x);
        ForkEntries(s, x);
      }
    }
  }

  // ---------- ... and for the nodes ----------

  lemma {:induction false} PutNodes(t: Tree, k: int, v: int, n: Node?)
    requires Apart(t) && n !in Nodes(t)
    ensures Apart(Put(t, k, v, n)) && Nodes(t) <= Nodes(Put(t, k, v, n))
    ensures Nodes(Put(t, k, v, n)) <= Nodes(t) + if n == null then {} else {n}
  {
    if t.Fork? {
      PutNodes(t.left, k, v, n);
      PutNodes(t.right, k, v, n);
    }
  }

  lemma {:induction false} DropNodes(t: Tree)
    requires t.Fork? && Apart(t)
    ensures Apart(DropRightmost(t)) && Rightmost(t).node in Nodes(t)
    ensures Nodes(DropRightmost(t)) == Nodes(t) - {Rightmost(t).node}
  {
    if t.right.Fork? {
      DropNodes(t.right);
    }
  }

  lemma {:induction false} RemoveApart(t: Tree, k: int)
    requires Apart(t)
    ensures Apart(Remove(t, k)) && Nodes(Remove(t, k)) <= Nodes(t)
  {
    if t.Fork? {
      RemoveApart(t.left, k);
      RemoveApart(t.right, k);
      if t.left.Fork? {
        DropNodes(t.left);
      }
    }
  }

  /** A deletion frees one node if the key is there, and none otherwise. */
  lemma {:induction false} RemoveNodes(t: Tree, k: int)
    requires Apart(t) && Ordered(t)
    ensures Apart(Remove(t, k))
    ensures Freed(t, k) != null <==> k in Entries(t)
    ensures Freed(t, k) != null ==> Freed(t, k) in Nodes(t)
    ensures Nodes(Remove(t, k)) == Nodes(t) - if Freed(t, k) == null then {} else {Freed(t, k)}
  {
    if t.Fork? {
      OrderedFork(t);
      ApartParts(t);
      ForkEntries(t, k);
      hide Entries, Ordered;
      if t.key > k {
        RemoveNodes(t.left, k);
      } else if t.key < k {
        RemoveNodes(t.right, k);
      } else if t.left.Fork? {
        DropNodes(t.left);
      }
    }
  }
}
