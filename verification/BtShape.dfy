/**
 The binary tree of sem_3/ial/proj_2/c402: heap nodes, the shape they form, and what the
 traversals promise about that shape.
 */
module BtShape {

  /** struct tBTNode.  `live` says that the node was allocated and not freed. */
  class Node {
    var Cont: int
    var LPtr: Node?
    var RPtr: Node?
    ghost var live: bool

    constructor (content: int)
      ensures Cont == content && LPtr == null && RPtr == null && live
    {
      Cont, LPtr, RPtr, live := content, null, null, true;
    }

    /** free(): a node is freed once, and nothing is known of its fields afterwards. */
    method Free()
      requires live
      modifies this
      ensures !live
    {
      Cont, LPtr, RPtr, live := *, *, *, false;
    }
  }

  /** The tree that a pointer spans: which node sits where, and the content of each. */
  datatype Tree = Nil | Fork(left: Tree, node: Node, key: int, right: Tree)

  ghost function Nodes(t: Tree): set<Node> {
    match t
    case Nil => {}
    case Fork(l, n, _, r) => {n} + Nodes(l) + Nodes(r)
  }

  /** No node sits at two places. */
  ghost predicate Apart(t: Tree) {
    match t
    case Nil => true
    case Fork(l, n, _, r) =>
      n !in Nodes(l) && n !in Nodes(r) && Nodes(l) !! Nodes(r) && Apart(l) && Apart(r)
  }

  /** The live nodes reached from `p` form the tree `t`. */
  ghost predicate Spans(p: Node?, t: Tree)
    reads Nodes(t)
  {
    match t
    case Nil => p == null
    case Fork(l, n, k, r) => p == n && n.live && n.Cont == k && Spans(n.LPtr, l) && Spans(n.RPtr, r)
  }

  // ---------- the recursive traversals ----------

  function Preorder(t: Tree): seq<int> {
    match t
    case Nil => []
    case Fork(l, _, k, r) => [k] + Preorder(l) + Preorder(r)
  }

  function Inorder(t: Tree): seq<int> {
    match t
    case Nil => []
    case Fork(l, _, k, r) => Inorder(l) + [k] + Inorder(r)
  }

  function Postorder(t: Tree): seq<int> {
    match t
    case Nil => []
    case Fork(l, _, k, r) => Postorder(l) + Postorder(r) + [k]
  }

  /** The nodes in pre-order. */
  function PreorderNodes(t: Tree): seq<Node> {
    match t
    case Nil => []
    case Fork(l, n, _, r) => [n] + PreorderNodes(l) + PreorderNodes(r)
  }

  /** Each node of the tree is listed once. */
  lemma {:induction false} PreorderNodesOnce(t: Tree)
    requires Apart(t)
    ensures multiset(PreorderNodes(t)) == multiset(Nodes(t))
  {
    if t.Fork? {
      PreorderNodesOnce(t.left);
      PreorderNodesOnce(t.right);
      UnionOnce(t.node, Nodes(t.left), Nodes(t.right));
      ListOnce(t.node, PreorderNodes(t.left), PreorderNodes(t.right));
    }
  }

  lemma {:induction false} UnionOnce(n: Node, a: set<Node>, b: set<Node>)
    requires n !in a && n !in b && a !! b
    ensures multiset({n} + a + b) == multiset{n} + (multiset(a) + multiset(b))
  {
    assert multiset(a + b) == multiset(a) + multiset(b);
    assert {n} + a + b == {n} + (a + b);
    assert multiset({n} + (a + b)) == multiset{n} + multiset(a + b);
  }

  lemma {:induction false} ListOnce(n: Node, a: seq<Node>, b: seq<Node>)
    ensures multiset([n] + a + b) == multiset{n} + (multiset(a) + multiset(b))
  {
    assert [n] + a + b == [n] + (a + b);
  }

  // ---------- how high the stacks grow ----------

  function Max(a: nat, b: nat): nat { if a < b then b else a }

  function Height(t: Tree): nat {
    if t.Nil? then 0 else 1 + Max(Height(t.left), Height(t.right))
  }

  /** In pre-order and in-order a node is off the stack before its right subtree is walked. */
  function LeftDepth(t: Tree): nat {
    if t.Nil? then 0 else Max(1 + LeftDepth(t.left), LeftDepth(t.right))
  }

  /** BTDisposeTree stacks only right children. */
  function DisposeDepth(t: Tree): nat {
    if t.Nil? then 0
    else if t.right.Nil? then DisposeDepth(t.left)
    else Max(1 + DisposeDepth(t.left), DisposeDepth(t.right))
  }

  /** So a tree that BTPostorder can walk can be walked and disposed of in every way. */
  lemma {:induction false} HeightIsEnough(t: Tree)
    ensures DisposeDepth(t) <= LeftDepth(t) <= Height(t)
    ensures t.Fork? ==> DisposeDepth(t) < Height(t)
  {
    if t.Fork? {
      HeightIsEnough(t.left);
      HeightIsEnough(t.right);
    }
  }

  // ---------- search trees ----------

  ghost function Keys(t: Tree): set<int> {
    match t
    case Nil => {}
    case Fork(l, _, k, r) => {k} + Keys(l) + Keys(r)
  }

  ghost predicate Ordered(t: Tree) {
    match t
    case Nil => true
    case Fork(l, _, k, r) =>
      (forall x :: x in Keys(l) ==> x < k) && (forall x :: x in Keys(r) ==> k < x) && Ordered(l) && Ordered(r)
  }

  ghost predicate Ascending(s: seq<int>) {
    forall i, j :: 0 <= i < j < |s| ==> s[i] < s[j]
  }

  lemma {:induction false} InorderKeys(t: Tree)
    ensures forall x :: x in Inorder(t) <==> x in Keys(t)
  {
    if t.Fork? {
      InorderKeys(t.left);
      InorderKeys(t.right);
    }
  }

  /** In-order lists the keys of a search tree in ascending order, and only a search tree's. */
  lemma {:induction false} InorderAscends(t: Tree)
    ensures Ordered(t) <==> Ascending(Inorder(t))
  {
    if t.Fork? {
      var l, r := Inorder(t.left), Inorder(t.right);
      var s := Inorder(t);
      InorderAscends(t.left);
      InorderAscends(t.right);
      InorderKeys(t.left);
      InorderKeys(t.right);
      assert s == l + [t.key] + r;
      AscendingAround(l, t.key, r);
    }
  }

  lemma {:induction false} AscendingAround(l: seq<int>, k: int, r: seq<int>)
    ensures Ascending(l + [k] + r) <==>
      Ascending(l) && Ascending(r) && (forall x :: x in l ==> x < k) && (forall x :: x in r ==> k < x)
  {
    if Ascending(l + [k] + r) {
      AscendingParts(l, k, r);
    } else if Ascending(l) && Ascending(r) && (forall x :: x in l ==> x < k) && (forall x :: x in r ==> k < x) {
      forall i, j | 0 <= i < j < |l + [k] + r|
        ensures (l + [k] + r)[i] < (l + [k] + r)[j]
      {
        AscendingPair(l, k, r, i, j);
      }
    }
  }

  lemma {:induction false} AscendingParts(l: seq<int>, k: int, r: seq<int>)
    requires Ascending(l + [k] + r)
    ensures Ascending(l) && Ascending(r) && (forall x :: x in l ==> x < k) && (forall x :: x in r ==> k < x)
  {
    var s := l + [k] + r;
    assert forall i :: 0 <= i < |l| ==> s[i] == l[i];
    assert s[|l|] == k;
    forall i | 0 <= i < |r|
      ensures k < r[i] == s[|l| + 1 + i]
    {
      assert s[|l|] < s[|l| + 1 + i];
    }
    forall i, j | 0 <= i < j < |r|
      ensures r[i] < r[j]
    {
      assert s[|l| + 1 + i] < s[|l| + 1 + j];
    }
  }

  lemma {:induction false} AscendingPair(l: seq<int>, k: int, r: seq<int>, i: nat, j: nat)
    requires Ascending(l) && Ascending(r) && (forall x :: x in l ==> x < k) && (forall x :: x in r ==> k < x)
    requires i < j < |l + [k] + r|
    ensures (l + [k] + r)[i] < (l + [k] + r)[j]
  {
    var s := l + [k] + r;
    if i < |l| {
      assert s[i] == l[i] && l[i] in l;
    }
    if j > |l| {
      assert s[j] == r[j - |l| - 1] && r[j - |l| - 1] in r;
    }
    if i > |l| {
      assert s[i] == r[i - |l| - 1];
    }
  }

  lemma {:induction false} EmptyTree()
    ensures Keys(Nil) == {} && Nodes(Nil) == {} && Height(Nil) == 0 && Bare(Nil) == Empty == Built([])
  {
  }

  /** Whether the search for `k` meets it. */
  predicate Found(t: Tree, k: int) {
    match t
    case Nil => false
    case Fork(l, _, c, r) => if c > k then Found(l, k) else if c < k then Found(r, k) else true
  }

  lemma {:induction false} FoundIffKey(t: Tree, k: int)
    requires Ordered(t)
    ensures Found(t, k) <==> k in Keys(t)
  {
    if t.Fork? {
      FoundIffKey(t.left, k);
      FoundIffKey(t.right, k);
    }
  }

  /** `t` with a new leaf for `k`. */
  function Insert(t: Tree, k: int, n: Node): Tree {
    match t
    case Nil => Fork(Nil, n, k, Nil)
    case Fork(l, m, c, r) => if c > k then Fork(Insert(l, k, n), m, c, r) else Fork(l, m, c, Insert(r, k, n))
  }

  lemma {:induction false} InsertNodes(t: Tree, k: int, n: Node)
    ensures Nodes(Insert(t, k, n)) == Nodes(t) + {n} && Keys(Insert(t, k, n)) == Keys(t) + {k}
    ensures Apart(t) && n !in Nodes(t) ==> Apart(Insert(t, k, n))
  {
    if t.Fork? {
      InsertNodes(t.left, k, n);
      InsertNodes(t.right, k, n);
    }
  }

  lemma {:induction false} InsertOrdered(t: Tree, k: int, n: Node)
    requires Ordered(t) && !Found(t, k)
    ensures Ordered(Insert(t, k, n))
  {
    if t.Fork? {
      if t.key > k {
        InsertOrdered(t.left, k, n);
      } else {
        InsertOrdered(t.right, k, n);
      }
      InsertNodes(t.left, k, n);
      InsertNodes(t.right, k, n);
    }
  }

  // ---------- linking a new leaf ----------

  /** The subtree where the search for `k` goes on, and the other one. */
  function Down(t: Tree, k: int): Tree
    requires t.Fork?
  {
    if t.key > k then t.left else t.right
  }

  function Other(t: Tree, k: int): Tree
    requires t.Fork?
  {
    if t.key > k then t.right else t.left
  }

  /** The trees that the search for `k` meets in `t`. */
  ghost predicate Path(s: seq<Tree>, t: Tree, rest: Tree, k: int) {
    && (forall i :: 0 <= i < |s| ==> s[i].Fork?)
    && (if |s| == 0 then t == rest else s[0] == t && Down(s[|s| - 1], k) == rest)
    && (forall i :: 0 <= i < |s| - 1 ==> Down(s[i], k) == s[i + 1])
  }

  lemma {:induction false} PathStart(t: Tree, k: int)
    ensures Path([], t, t, k)
  {
  }

  lemma {:induction false} PathApart(s: seq<Tree>, t: Tree, rest: Tree, k: int, i: nat)
    requires Path(s, t, rest, k) && i < |s| && Apart(t)
    ensures s[0] == t && Apart(s[i])
  {
    if i > 0 {
      PathApart(s, t, rest, k, i - 1);
    }
  }

  lemma {:induction false} PathGrows(s: seq<Tree>, t: Tree, rest: Tree, k: int)
    requires Path(s, t, rest, k) && rest.Fork?
    ensures Path(s + [rest], t, Down(rest, k), k)
  {
  }

  /** The end of a path lies off everything that its other trees hang on to. */
  lemma {:induction false} PathEnd(s: seq<Tree>, t: Tree, rest: Tree, k: int, i: nat)
    requires Path(s, t, rest, k) && i < |s| && Apart(s[i])
    ensures var w := s[|s| - 1].node;
      && w in Nodes(s[i]) && w !in Nodes(Other(s[i], k)) && Apart(s[|s| - 1])
      && (i < |s| - 1 ==> w != s[i].node)
    decreases |s| - i
  {
    if i < |s| - 1 {
      PathEnd(s, t, rest, k, i + 1);
    }
  }

  /** Node `x.node` still holds its key and the subtree off the path. */
  ghost predicate Holds(x: Tree, k: int)
    requires x.Fork?
    reads {x.node} + Nodes(Other(x, k))
  {
    && x.node.live && x.node.Cont == x.key
    && Spans(if x.key > k then x.node.RPtr else x.node.LPtr, Other(x, k))
  }

  function Next(x: Tree, k: int): Node?
    requires x.Fork?
    reads x.node
  {
    if x.key > k then x.node.LPtr else x.node.RPtr
  }

  lemma {:induction false} PathHolds(s: seq<Tree>, t: Tree, rest: Tree, k: int, i: nat)
    requires Path(s, t, rest, k) && i < |s| && Spans(s[i].node, s[i])
    ensures Holds(s[i], k) && allocated(Nodes(Other(s[i], k)))
    ensures i < |s| - 1 ==> Next(s[i], k) == s[i + 1].node
  {
    NodesAllocated(Other(s[i], k));
  }

  lemma {:induction false} NodesAllocated(t: Tree)
    ensures allocated(Nodes(t))
  {
    if t.Fork? {
      NodesAllocated(t.left);
      NodesAllocated(t.right);
    }
  }

  lemma {:induction false} NilSpans()
    ensures Spans(null, Nil)
  {
  }

  lemma {:induction false} LeafSpans(k: int, n: Node)
    requires n.live && n.Cont == k && n.LPtr == n.RPtr == null
    ensures Spans(n, Insert(Nil, k, n))
  {
  }

  /** Linking the leaf `n` at the end of the path inserts it into every tree of the path. */
  lemma {:induction false} PathLinked(s: seq<Tree>, t: Tree, k: int, n: Node, i: nat)
    requires Path(s, t, Nil, k) && i < |s| && n.live && n.Cont == k && n.LPtr == n.RPtr == null
    requires forall j :: 0 <= j < |s| ==> Holds(s[j], k)
    requires Next(s[|s| - 1], k) == n && forall j :: 0 <= j < |s| - 1 ==> Next(s[j], k) == s[j + 1].node
    ensures Spans(s[i].node, Insert(s[i], k, n))
    decreases |s| - i
  {
    assert Holds(s[i], k);
    if i < |s| - 1 {
      PathLinked(s, t, k, n, i + 1);
      assert Down(s[i], k) == s[i + 1] && Next(s[i], k) == s[i + 1].node;
    } else {
      assert Down(s[i], k) == Nil && Next(s[i], k) == n;
      LeafSpans(k, n);
    }
  }

  /** `s` grows out of `t` by leaves: every node of `t` keeps its place, its key and its non-empty children. */
  ghost predicate Extends(t: Tree, s: Tree) {
    t.Nil? || (s.Fork? && s.node == t.node && s.key == t.key && Extends(t.left, s.left) && Extends(t.right, s.right))
  }

  /** The new node is a leaf, and nothing else moves. */
  lemma {:induction false} InsertAddsALeaf(t: Tree, k: int, n: Node)
    ensures Extends(t, Insert(t, k, n))
    ensures Height(Insert(t, k, n)) <= Height(t) + 1
    ensures |Inorder(Insert(t, k, n))| == |Inorder(t)| + 1
  {
    if t.Fork? {
      InsertAddsALeaf(t.left, k, n);
      InsertAddsALeaf(t.right, k, n);
      ExtendsRefl(t.left);
      ExtendsRefl(t.right);
    }
  }

  // ---------- the keys alone ----------

  /** A tree without its nodes. */
  datatype Shape = Empty | Branch(left: Shape, key: int, right: Shape)

  function Bare(t: Tree): Shape {
    match t
    case Nil => Empty
    case Fork(l, _, k, r) => Branch(Bare(l), k, Bare(r))
  }

  function InsertKey(s: Shape, k: int): Shape {
    match s
    case Empty => Branch(Empty, k, Empty)
    case Branch(l, c, r) =>
      if c > k then Branch(InsertKey(l, k), c, r) else if c < k then Branch(l, c, InsertKey(r, k)) else s
  }

  /** What a run of insertions into an empty tree builds. */
  function Built(keys: seq<int>): Shape {
    if |keys| == 0 then Empty else InsertKey(Built(keys[..|keys| - 1]), keys[|keys| - 1])
  }

  /** The left depth of a tree of that shape. */
  function Depth(s: Shape): nat {
    if s.Empty? then 0 else Max(1 + Depth(s.left), Depth(s.right))
  }

  lemma {:induction false} BareInsert(t: Tree, k: int, n: Node)
    requires !Found(t, k)
    ensures InsertKey(Bare(t), k) == Bare(Insert(t, k, n))
  {
    if t.Fork? {
      if t.key > k {
        BareInsert(t.left, k, n);
      } else {
        BareInsert(t.right, k, n);
      }
    }
  }

  lemma {:induction false} FoundKept(t: Tree, k: int)
    requires Found(t, k)
    ensures InsertKey(Bare(t), k) == Bare(t)
  {
    if t.key > k {
      FoundKept(t.left, k);
    } else if t.key < k {
      FoundKept(t.right, k);
    }
  }

  lemma {:induction false} BuiltMore(keys: seq<int>, k: int)
    ensures Built(keys + [k]) == InsertKey(Built(keys), k)
  {
    assert (keys + [k])[..|keys|] == keys;
  }

  lemma {:induction false} BareDepth(t: Tree)
    ensures Depth(Bare(t)) == LeftDepth(t)
  {
    if t.Fork? {
      BareDepth(t.left);
      BareDepth(t.right);
    }
  }

  lemma {:induction false} InsertKeyDepth(s: Shape, k: int)
    ensures Depth(InsertKey(s, k)) <= Depth(s) + 1
  {
    if s.Branch? {
      InsertKeyDepth(s.left, k);
      InsertKeyDepth(s.right, k);
    }
  }

  lemma {:induction false} BuiltDepth(keys: seq<int>)
    ensures Depth(Built(keys)) <= |keys|
  {
    if |keys| > 0 {
      BuiltDepth(keys[..|keys| - 1]);
      InsertKeyDepth(Built(keys[..|keys| - 1]), keys[|keys| - 1]);
    }
  }

  /** A chain of left children, with keys above `k`. */
  ghost predicate LeftChain(s: Shape, k: int) {
    s.Branch? ==> s.right.Empty? && s.key > k && LeftChain(s.left, k)
  }

  lemma {:induction false} ChainGrows(s: Shape, k: int)
    requires LeftChain(s, k)
    ensures LeftChain(InsertKey(s, k), k - 1) && Depth(InsertKey(s, k)) == Depth(s) + 1
  {
    if s.Branch? {
      ChainGrows(s.left, k);
    }
  }

  function Descending(n: nat, from: int): (s: seq<int>)
    ensures |s| == n
  {
    seq(n, i => from - i)
  }

  /** Descending keys make the deepest tree there is: each adds one to the left depth. */
  lemma {:induction false} DescendingDepth(n: nat, from: int)
    ensures Depth(Built(Descending(n, from))) == n && LeftChain(Built(Descending(n, from)), from - n)
  {
    if n > 0 {
      DescendingDepth(n - 1, from);
      assert Descending(n, from)[..n - 1] == Descending(n - 1, from);
      ChainGrows(Built(Descending(n - 1, from)), from - (n - 1));
    }
  }

  /** A chain of right children, with keys below `k`. */
  ghost predicate RightChain(s: Shape, k: int) {
    s.Branch? ==> s.left.Empty? && s.key < k && RightChain(s.right, k)
  }

  lemma {:induction false} RightChainGrows(s: Shape, k: int)
    requires RightChain(s, k)
    ensures RightChain(InsertKey(s, k), k + 1) && Depth(InsertKey(s, k)) == 1
  {
    if s.Branch? {
      RightChainGrows(s.right, k);
    }
  }

  function Climbing(n: nat, from: int): (s: seq<int>)
    ensures |s| == n
  {
    seq(n, i => from + i)
  }

  /** Ascending keys, however many, make a tree of left depth one. */
  lemma {:induction false} AscendingDepth(n: nat, from: int)
    ensures RightChain(Built(Climbing(n, from)), from + n)
    ensures Depth(Built(Climbing(n, from))) == if n == 0 then 0 else 1
  {
    if n > 0 {
      AscendingDepth(n - 1, from);
      assert Climbing(n, from)[..n - 1] == Climbing(n - 1, from);
      RightChainGrows(Built(Climbing(n - 1, from)), from + n - 1);
    }
  }

  lemma {:induction false} ExtendsRefl(t: Tree)
    ensures Extends(t, t)
  {
    if t.Fork? {
      ExtendsRefl(t.left);
      ExtendsRefl(t.right);
    }
  }
}
