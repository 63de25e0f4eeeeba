/**
 The bounded stacks of sem_3/ial/proj_2/c402, and what the trees waiting on them stand for.
 */
module BtStack {
  import opened BtShape

  const MAXSTACK: nat := 30

  function Top<T>(s: seq<T>): T
    requires |s| > 0
  {
    s[|s| - 1]
  }

  function Below<T>(s: seq<T>): (r: seq<T>)
    requires |s| > 0
    ensures |r| == |s| - 1
  {
    s[..|s| - 1]
  }

  /** tStackP and tStackB.  The cell a[0] is never used, so the stack holds MAXSTACK - 1 values. */
  class Stack<T(0)> {
    const a: array<T>
    var top: nat

    ghost predicate Valid()
      reads this
    {
      a.Length == MAXSTACK && top < MAXSTACK
    }

    ghost function Contents(): (s: seq<T>)
      requires Valid()
      reads this, a
      ensures |s| == top
    {
      a[1..top + 1]
    }

    constructor SInit()
      ensures Valid() && fresh(a) && Contents() == []
    {
      a, top := new T[MAXSTACK], 0;
    }

    /**
     SPushP, SPushB.  `ok` is false when the store would be outside the array: the code
     tests for top == MAXSTACK, one value too late.
     */
    method SPush(x: T) returns (ok: bool)
      requires Valid()
      modifies this, a
      ensures Valid() && (ok <==> |old(Contents())| + 1 < MAXSTACK)
      ensures Contents() == if ok then old(Contents()) + [x] else old(Contents())
    {
      ok := top + 1 < MAXSTACK;
      if ok {
        top := top + 1;
        a[top] := x;
      }
    }

    /** STopPopP, STopPopB; `none` is what an empty stack answers. */
    method STopPop(none: T) returns (x: T)
      requires Valid()
      modifies this
      ensures Valid()
      ensures |old(Contents())| == 0 ==> x == none && Contents() == []
      ensures |old(Contents())| > 0 ==> x == Top(old(Contents())) && Contents() == Below(old(Contents()))
    {
      if top == 0 {
        return none;
      }
      x := a[top];
      top := top - 1;
    }

    predicate SEmpty()
      requires Valid()
      reads this, a
      ensures SEmpty() <==> Contents() == []
    {
      top == 0
    }
  }

  // ---------- the trees on a stack ----------

  /** The pointers of the trees on a stack. */
  function Pointers(p: seq<Tree>): (s: seq<Node?>)
    ensures |s| == |p|
  {
    seq(|p|, i requires 0 <= i < |p| => if p[i].Fork? then p[i].node else null)
  }

  /** The trees whose roots a Leftmost_ function stacks. */
  function Spine(t: Tree): seq<Tree> {
    if t.Nil? then [] else [t] + Spine(t.left)
  }

  function SpineKeys(t: Tree): seq<int> {
    if t.Nil? then [] else [t.key] + SpineKeys(t.left)
  }

  // what stacking the spine of `t` makes of the stacks and of the output

  function StackedOn(c: seq<Node?>, t: Tree): (s: seq<Node?>)
    ensures |s| == |c| + |Spine(t)|
  {
    c + Pointers(Spine(t))
  }

  function FlaggedOn(f: seq<bool>, t: Tree): (s: seq<bool>)
    ensures |s| == |f| + |Spine(t)|
  {
    f + Trues(|Spine(t)|)
  }

  function PrintedOn(out: seq<int>, t: Tree): seq<int> {
    out + SpineKeys(t)
  }

  lemma {:induction false} SpineNext(c: seq<Node?>, f: seq<bool>, out: seq<int>, t: Tree)
    requires t.Fork?
    ensures |Spine(t)| == 1 + |Spine(t.left)|
    ensures StackedOn(c + [t.node], t.left) == StackedOn(c, t)
    ensures FlaggedOn(f + [true], t.left) == FlaggedOn(f, t)
    ensures PrintedOn(out + [t.key], t.left) == PrintedOn(out, t)
  {
    PointersAppend([t], Spine(t.left));
    assert Spine(t) == [t] + Spine(t.left) && SpineKeys(t) == [t.key] + SpineKeys(t.left);
    assert Pointers([t]) == [t.node];
    TruesStep(f, t);
    hide Spine, SpineKeys, Pointers, Trues;
  }

  lemma {:induction false} SpineEnd(c: seq<Node?>, f: seq<bool>, out: seq<int>)
    ensures Spine(Nil) == [] && StackedOn(c, Nil) == c && FlaggedOn(f, Nil) == f && PrintedOn(out, Nil) == out
  {
  }

  function Size(t: Tree): nat {
    if t.Nil? then 0 else 1 + Size(t.left) + Size(t.right)
  }

  ghost predicate Forks(p: seq<Tree>) {
    forall i :: 0 <= i < |p| ==> p[i].Fork?
  }

  /** What the in-order walk has yet to print. */
  ghost function InRest(p: seq<Tree>): seq<int>
    requires Forks(p)
  {
    if |p| == 0 then [] else [Top(p).key] + Inorder(Top(p).right) + InRest(Below(p))
  }

  /** What the pre-order walk has yet to print. */
  ghost function PreRest(p: seq<Tree>): seq<int>
    requires Forks(p)
  {
    if |p| == 0 then [] else Preorder(Top(p).right) + PreRest(Below(p))
  }

  /** How many nodes those walks have yet to take off the stack. */
  ghost function Todo(p: seq<Tree>): nat
    requires Forks(p)
  {
    if |p| == 0 then 0 else 1 + Size(Top(p).right) + Todo(Below(p))
  }

  /** How high the stack will still get once a node is off it. */
  ghost function Room(p: seq<Tree>): nat
    requires Forks(p)
  {
    if |p| == 0 then 0 else Max(|p| - 1 + LeftDepth(Top(p).right), Room(Below(p)))
  }

  lemma {:induction false} SpineIsForks(t: Tree)
    ensures Forks(Spine(t))
  {
    if t.Fork? {
      SpineIsForks(t.left);
    }
  }

  lemma {:induction false} SpineStep(p: seq<Tree>, t: Tree)
    requires t.Fork?
    ensures (p + [t]) + Spine(t.left) == p + Spine(t) && Top(p + [t]) == t && Below(p + [t]) == p
  {
  }

  lemma {:induction false} InTop(p: seq<Tree>, t: Tree)
    requires Forks(p) && t.Fork?
    ensures Forks(p + [t]) && InRest(p + [t]) == [t.key] + Inorder(t.right) + InRest(p)
    ensures Inorder(t) == Inorder(t.left) + [t.key] + Inorder(t.right)
  {
    assert Below(p + [t]) == p;
  }

  /** Stacking the spine of `t` leaves to do what walking `t` would. */
  lemma {:induction false} InSpine(p: seq<Tree>, t: Tree)
    requires Forks(p)
    ensures Forks(p + Spine(t)) && InRest(p + Spine(t)) == Inorder(t) + InRest(p)
    decreases t
  {
    hide InRest, Spine, Inorder, Forks;
    if t.Nil? {
      NoSpine(p, t);
    } else {
      SpineStep(p, t);
      InTop(p, t);
      InSpine(p + [t], t.left);
    }
  }

  lemma {:induction false} PreSpine(p: seq<Tree>, t: Tree)
    requires Forks(p)
    ensures Forks(p + Spine(t)) && SpineKeys(t) + PreRest(p + Spine(t)) == Preorder(t) + PreRest(p)
    decreases t
  {
    if t.Nil? {
      assert p + Spine(t) == p;
    } else {
      SpineStep(p, t);
      PreSpine(p + [t], t.left);
      assert PreRest(p + [t]) == Preorder(t.right) + PreRest(p);
      Regroup(t.key, SpineKeys(t.left), PreRest(p + Spine(t)), Preorder(t.left), Preorder(t.right), PreRest(p));
      hide PreRest, Spine;
    }
  }

  lemma {:induction false} Regroup(k: int, a: seq<int>, b: seq<int>, c: seq<int>, d: seq<int>, e: seq<int>)
    requires a + b == c + (d + e)
    ensures ([k] + a) + b == ([k] + c + d) + e
  {
    assert ([k] + a) + b == [k] + (a + b);
    assert ([k] + c + d) + e == [k] + (c + (d + e));
  }

  /** ... in as many steps ... */
  lemma {:induction false} TodoSpine(p: seq<Tree>, t: Tree)
    requires Forks(p)
    ensures Forks(p + Spine(t)) && Todo(p + Spine(t)) == Size(t) + Todo(p)
    decreases t
  {
    if t.Nil? {
      assert p + Spine(t) == p;
    } else {
      SpineStep(p, t);
      TodoSpine(p + [t], t.left);
    }
  }

  lemma {:induction false} RoomTop(p: seq<Tree>, t: Tree)
    requires Forks(p) && t.Fork?
    ensures Forks(p + [t]) && Room(p + [t]) == Max(|p| + LeftDepth(t.right), Room(p))
    ensures LeftDepth(t) == Max(1 + LeftDepth(t.left), LeftDepth(t.right))
  {
    assert Below(p + [t]) == p;
  }

  lemma {:induction false} NoSpine(p: seq<Tree>, t: Tree)
    requires t.Nil?
    ensures p + Spine(t) == p && LeftDepth(t) == 0 && Inorder(t) == []
  {
  }

  /** ... and as high a stack. */
  lemma {:induction false} RoomSpine(p: seq<Tree>, t: Tree)
    requires Forks(p)
    ensures Forks(p + Spine(t))
    ensures Max(|p + Spine(t)|, Room(p + Spine(t))) == Max(|p| + LeftDepth(t), Room(p))
    decreases t
  {
    hide Room, Spine, LeftDepth, Forks;
    if t.Nil? {
      NoSpine(p, t);
    } else {
      SpineStep(p, t);
      RoomTop(p, t);
      RoomSpine(p + [t], t.left);
    }
  }

  lemma {:induction false} PointersAppend(p: seq<Tree>, q: seq<Tree>)
    ensures Pointers(p + q) == Pointers(p) + Pointers(q)
  {
  }

  /** `x` is one of the subtrees of `t`. */
  ghost predicate Within(x: Tree, t: Tree) {
    x == t || (t.Fork? && (Within(x, t.left) || Within(x, t.right)))
  }

  ghost predicate AllWithin(p: seq<Tree>, t: Tree) {
    forall i :: 0 <= i < |p| ==> Within(p[i], t)
  }

  lemma {:induction false} WithinChild(x: Tree, t: Tree)
    requires x.Fork? && Within(x, t)
    ensures Within(x.left, t) && Within(x.right, t)
  {
    if x != t {
      if Within(x, t.left) {
        WithinChild(x, t.left);
      } else {
        WithinChild(x, t.right);
      }
    }
  }

  lemma {:induction false} SpineWithin(x: Tree, t: Tree)
    requires Within(x, t)
    ensures AllWithin(Spine(x), t)
  {
    if x.Fork? {
      WithinChild(x, t);
      SpineWithin(x.left, t);
    }
  }

  lemma {:induction false} WithinSpans(x: Tree, t: Tree, root: Node?)
    requires Within(x, t) && Spans(root, t) && x.Fork?
    ensures Spans(x.node, x)
  {
    if x != t {
      if Within(x, t.left) {
        WithinSpans(x, t.left, t.node.LPtr);
      } else {
        WithinSpans(x, t.right, t.node.RPtr);
      }
    }
  }

  /** What `p` points to, when it spans `t`. */
  lemma {:induction false} SpansNode(p: Node?, t: Tree)
    requires Spans(p, t)
    ensures p == null <==> t.Nil?
    ensures t.Fork? ==> p == t.node && p.live && p.Cont == t.key && Spans(p.LPtr, t.left) && Spans(p.RPtr, t.right)
    ensures allocated(Nodes(t)) && (t.Fork? ==> allocated(Nodes(t.left)) && allocated(Nodes(t.right)))
  {
    NodesAllocated(t);
  }

  /** The stack after the top node is off and the spine of its right subtree is on. */
  function Popped(p: seq<Tree>): seq<Tree>
    requires |p| > 0 && Top(p).Fork?
  {
    Below(p) + Spine(Top(p).right)
  }

  lemma {:induction false} StackedSpine(t: Tree)
    ensures Forks(Spine(t)) && AllWithin(Spine(t), t) && Pointers(Spine(t)) == StackedOn([], t)
  {
    SpineIsForks(t);
    SpineWithin(t, t);
  }

  lemma {:induction false} StackedTop(root: Node?, t: Tree, p: seq<Tree>)
    requires Spans(root, t) && Forks(p) && AllWithin(p, t) && |p| > 0
    ensures Top(p).Fork? && Spans(Top(p).node, Top(p)) && Top(Pointers(p)) == Top(p).node
    ensures Forks(Below(p)) && AllWithin(Below(p), t) && Below(Pointers(p)) == Pointers(Below(p))
  {
    WithinSpans(Top(p), t, root);
  }

  lemma {:induction false} StackedPopped(t: Tree, p: seq<Tree>)
    requires Forks(p) && AllWithin(p, t) && |p| > 0
    ensures Forks(Popped(p)) && AllWithin(Popped(p), t) && |Popped(p)| == |Below(p)| + |Spine(Top(p).right)|
    ensures Pointers(Popped(p)) == StackedOn(Pointers(Below(p)), Top(p).right)
  {
    WithinChild(Top(p), t);
    SpineIsForks(Top(p).right);
    SpineWithin(Top(p).right, t);
    PointersAppend(Below(p), Spine(Top(p).right));
  }

  /** All that an in-order walk that printed `out` will have printed. */
  ghost function InAll(out: seq<int>, p: seq<Tree>): seq<int>
    requires Forks(p)
  {
    out + InRest(p)
  }

  ghost function PreAll(out: seq<int>, p: seq<Tree>): seq<int>
    requires Forks(p)
  {
    out + PreRest(p)
  }

  /** All the height that a stack that was `peak` high will have had. */
  ghost function Reach(peak: nat, p: seq<Tree>): (h: nat)
    requires Forks(p)
    ensures h >= peak
  {
    Max(peak, Room(p))
  }

  // Taking the top node off keeps what the walk will have printed ...

  lemma {:induction false} PopIn(out: seq<int>, p: seq<Tree>)
    requires |p| > 0 && Forks(p) && Forks(Popped(p))
    ensures InAll(out + [Top(p).key], Popped(p)) == InAll(out, p)
  {
    InSpine(Below(p), Top(p).right);
    assert InRest(p) == [Top(p).key] + InRest(Popped(p));
    hide InRest, Popped;
  }

  lemma {:induction false} PopPre(out: seq<int>, p: seq<Tree>)
    requires |p| > 0 && Forks(p) && Forks(Popped(p))
    ensures PreAll(PrintedOn(out, Top(p).right), Popped(p)) == PreAll(out, p)
  {
    PreSpine(Below(p), Top(p).right);
    assert PreRest(p) == SpineKeys(Top(p).right) + PreRest(Popped(p));
    hide PreRest, Popped;
  }

  // ... and how high the stack will have been.

  lemma {:induction false} PopHeight(peak: nat, p: seq<Tree>)
    requires |p| > 0 && Forks(p) && Forks(Popped(p))
    ensures Reach(Max(peak, |Popped(p)|), Popped(p)) == Reach(peak, p)
    ensures Todo(Popped(p)) < Todo(p)
  {
    TodoSpine(Below(p), Top(p).right);
    RoomSpine(Below(p), Top(p).right);
  }

  /** The walk's end. */
  lemma {:induction false} Finished(out: seq<int>, peak: nat)
    ensures InAll(out, []) == PreAll(out, []) == out && Reach(peak, []) == peak
  {
  }

  /** The walk's start. */
  lemma {:induction false} NoRoom()
    ensures Forks([]) && Room([]) == 0
  {
  }

  lemma {:induction false} Begin(t: Tree)
    requires Forks(Spine(t))
    ensures Reach(|Spine(t)|, Spine(t)) == LeftDepth(t)
  {
    NoRoom();
    hide Room, Spine, LeftDepth, Forks;
    RoomSpine([], t);
    assert [] + Spine(t) == Spine(t);
  }

  lemma {:induction false} BeginIn(t: Tree)
    requires Forks(Spine(t))
    ensures InAll([], Spine(t)) == Inorder(t)
  {
    InSpine([], t);
    assert InRest([]) == [];
    hide InRest, Spine, Inorder;
    assert [] + Spine(t) == Spine(t);
  }

  lemma {:induction false} BeginPre(t: Tree)
    requires Forks(Spine(t))
    ensures PreAll(PrintedOn([], t), Spine(t)) == Preorder(t)
  {
    PreSpine([], t);
    assert PreRest([]) == [];
    hide PreRest, Spine, SpineKeys, Preorder;
    assert [] + Spine(t) == Spine(t) && [] + SpineKeys(t) == SpineKeys(t);
  }

  // ---------- the two stacks of BTPostorder ----------

  function Trues(n: nat): (f: seq<bool>)
    ensures |f| == n
  {
    seq(n, _ => true)
  }

  /** What the post-order walk has yet to print; the flag says that the right subtree is still to be walked. */
  ghost function PostRest(p: seq<Tree>, f: seq<bool>): seq<int>
    requires Forks(p) && |p| == |f|
  {
    if |p| == 0 then [] else
      (if Top(f) then Postorder(Top(p).right) else []) + [Top(p).key] + PostRest(Below(p), Below(f))
  }

  ghost function PostTodo(p: seq<Tree>, f: seq<bool>): nat
    requires Forks(p) && |p| == |f|
  {
    if |p| == 0 then 0 else
      (if Top(f) then 1 + 2 * Size(Top(p).right) else 0) + 1 + PostTodo(Below(p), Below(f))
  }

  ghost function PostRoom(p: seq<Tree>, f: seq<bool>): nat
    requires Forks(p) && |p| == |f|
  {
    if |p| == 0 then 0 else
      Max(if Top(f) then |p| + Height(Top(p).right) else 0, PostRoom(Below(p), Below(f)))
  }

  lemma {:induction false} TruesStep(f: seq<bool>, t: Tree)
    requires t.Fork?
    ensures (f + [true]) + Trues(|Spine(t.left)|) == f + Trues(|Spine(t)|) && Below(f + [true]) == f
  {
  }

  lemma {:induction false} PostSpine(p: seq<Tree>, f: seq<bool>, t: Tree)
    requires Forks(p) && |p| == |f|
    ensures Forks(p + Spine(t)) && |p + Spine(t)| == |f + Trues(|Spine(t)|)|
    ensures PostRest(p + Spine(t), f + Trues(|Spine(t)|)) == Postorder(t) + PostRest(p, f)
    decreases t
  {
    if t.Nil? {
      assert p + Spine(t) == p && f + Trues(|Spine(t)|) == f;
    } else {
      SpineStep(p, t);
      TruesStep(f, t);
      PostSpine(p + [t], f + [true], t.left);
      assert PostRest(p + [t], f + [true]) == Postorder(t.right) + [t.key] + PostRest(p, f);
      hide PostRest, Spine;
    }
  }

  lemma {:induction false} PostTodoSpine(p: seq<Tree>, f: seq<bool>, t: Tree)
    requires Forks(p) && |p| == |f|
    ensures Forks(p + Spine(t)) && |p + Spine(t)| == |f + Trues(|Spine(t)|)|
    ensures PostTodo(p + Spine(t), f + Trues(|Spine(t)|)) == 2 * Size(t) + PostTodo(p, f)
    decreases t
  {
    if t.Nil? {
      assert p + Spine(t) == p && f + Trues(|Spine(t)|) == f;
    } else {
      SpineStep(p, t);
      TruesStep(f, t);
      PostTodoSpine(p + [t], f + [true], t.left);
      assert PostTodo(p + [t], f + [true]) == 1 + 2 * Size(t.right) + 1 + PostTodo(p, f);
      hide PostTodo, Spine;
    }
  }

  lemma {:induction false} PostRoomSpine(p: seq<Tree>, f: seq<bool>, t: Tree)
    requires Forks(p) && |p| == |f|
    ensures Forks(p + Spine(t)) && |p + Spine(t)| == |f + Trues(|Spine(t)|)|
    ensures Max(|p + Spine(t)|, PostRoom(p + Spine(t), f + Trues(|Spine(t)|))) == Max(|p| + Height(t), PostRoom(p, f))
    decreases t
  {
    if t.Nil? {
      assert p + Spine(t) == p && f + Trues(|Spine(t)|) == f;
    } else {
      SpineStep(p, t);
      TruesStep(f, t);
      assert PostRoom(p + [t], f + [true]) == Max(|p| + 1 + Height(t.right), PostRoom(p, f));
      assert Height(t) == 1 + Max(Height(t.left), Height(t.right));
      hide PostRoom, Spine, Height, Trues, Forks;
      PostRoomSpine(p + [t], f + [true], t.left);
    }
  }

  ghost function PostAll(out: seq<int>, p: seq<Tree>, f: seq<bool>): seq<int>
    requires Forks(p) && |p| == |f|
  {
    out + PostRest(p, f)
  }

  ghost function PostReach(peak: nat, p: seq<Tree>, f: seq<bool>): (h: nat)
    requires Forks(p) && |p| == |f|
    ensures h >= peak
  {
    Max(peak, PostRoom(p, f))
  }

  /** The node stack after the spine of the top node's right subtree is on. */
  function Deeper(p: seq<Tree>): seq<Tree>
    requires |p| > 0 && Top(p).Fork?
  {
    p + Spine(Top(p).right)
  }

  lemma {:induction false} StackedDeeper(t: Tree, p: seq<Tree>)
    requires Forks(p) && AllWithin(p, t) && |p| > 0
    ensures Forks(Deeper(p)) && AllWithin(Deeper(p), t) && |Deeper(p)| == |p| + |Spine(Top(p).right)|
    ensures Pointers(Deeper(p)) == StackedOn(Pointers(p), Top(p).right)
    ensures Pointers(Below(p)) + [Top(p).node] == Pointers(p)
  {
    WithinChild(Top(p), t);
    SpineIsForks(Top(p).right);
    SpineWithin(Top(p).right, t);
    PointersAppend(p, Spine(Top(p).right));
  }

  /** A node met for the first time: its flag changes and the spine of its right subtree is stacked. */
  lemma {:induction false} PostRight(out: seq<int>, peak: nat, p: seq<Tree>, f: seq<bool>)
    requires |p| == |f| > 0 && Forks(p) && Top(f) && Forks(Deeper(p)) && |Deeper(p)| == |p| + |Spine(Top(p).right)|
    ensures var q, g := Deeper(p), FlaggedOn(Below(f) + [false], Top(p).right);
      && PostAll(out, q, g) == PostAll(out, p, f)
      && PostTodo(q, g) < PostTodo(p, f)
      && PostReach(Max(peak, |q|), q, g) == PostReach(peak, p, f)
  {
    hide PostRest, PostTodo, PostRoom, Spine, Postorder, Size, Height;
    var h := Below(f) + [false];
    PostUnflagged(p, f);
    PostSpine(p, h, Top(p).right);
    PostTodoSpine(p, h, Top(p).right);
    PostRoomSpine(p, h, Top(p).right);
  }

  lemma {:induction false} PostUnflagged(p: seq<Tree>, f: seq<bool>)
    requires |p| == |f| > 0 && Forks(p) && Top(f)
    ensures var h := Below(f) + [false];
      && PostRest(p, f) == Postorder(Top(p).right) + PostRest(p, h)
      && PostTodo(p, f) == 1 + 2 * Size(Top(p).right) + PostTodo(p, h)
      && PostRoom(p, f) == Max(|p| + Height(Top(p).right), PostRoom(p, h))
  {
    var h := Below(f) + [false];
    assert Below(h) == Below(f);
    assert PostRest(p, h) == [Top(p).key] + PostRest(Below(p), Below(f));
  }

  /** A node met for the second time is printed. */
  lemma {:induction false} PostPrint(out: seq<int>, peak: nat, p: seq<Tree>, f: seq<bool>)
    requires |p| == |f| > 0 && Forks(p) && !Top(f) && |p| <= peak
    ensures var q, g := Below(p), Below(f);
      && Forks(q) && PostAll(out + [Top(p).key], q, g) == PostAll(out, p, f)
      && PostTodo(q, g) < PostTodo(p, f)
      && PostReach(peak, q, g) == PostReach(peak, p, f)
  {
    assert PostRest(p, f) == [Top(p).key] + PostRest(Below(p), Below(f));
  }

  lemma {:induction false} PostFinished(out: seq<int>, peak: nat)
    ensures PostAll(out, [], []) == out && PostReach(peak, [], []) == peak
  {
  }

  lemma {:induction false} PostBegin(t: Tree)
    requires Forks(Spine(t))
    ensures PostAll([], Spine(t), FlaggedOn([], t)) == Postorder(t)
    ensures PostReach(|Spine(t)|, Spine(t), FlaggedOn([], t)) == Height(t)
  {
    PostSpine([], [], t);
    PostRoomSpine([], [], t);
    assert PostRest([], []) == [] && PostRoom([], []) == 0;
    hide PostRest, PostRoom, Spine;
    assert [] + Spine(t) == Spine(t) && [] + Trues(|Spine(t)|) == Trues(|Spine(t)|);
  }

  /** A walk over `t` printed `out`; its stacks are `p` and `f` and were at most `peak` high. */
  ghost predicate PostWalking(t: Tree, out: seq<int>, p: seq<Tree>, f: seq<bool>, peak: nat)
    requires Forks(p) && |p| == |f|
  {
    PostAll(out, p, f) == Postorder(t) && |p| <= peak < MAXSTACK && PostReach(peak, p, f) == Height(t)
  }

  lemma {:induction false} PostStarts(t: Tree)
    requires Forks(Spine(t))
    ensures |Spine(t)| <= Height(t) && (t.Nil? ==> Spine(t) == [] && FlaggedOn([], t) == [])
    ensures |Spine(t)| < MAXSTACK ==> PostWalking(t, [], Spine(t), FlaggedOn([], t), |Spine(t)|)
  {
    PostBegin(t);
    hide PostAll, FlaggedOn, Postorder, Forks;
    if t.Nil? {
      SpineEnd([], [], []);
    }
  }

  lemma {:induction false} PostGoesRight(t: Tree, out: seq<int>, p: seq<Tree>, f: seq<bool>, peak: nat)
    requires |p| == |f| > 0 && Forks(p) && Top(f) && Forks(Deeper(p)) && |Deeper(p)| == |p| + |Spine(Top(p).right)|
    requires PostWalking(t, out, p, f, peak)
    ensures var q, g := Deeper(p), FlaggedOn(Below(f) + [false], Top(p).right);
      && PostTodo(q, g) < PostTodo(p, f)
      && (if |q| < MAXSTACK then PostWalking(t, out, q, g, Max(peak, |q|)) else Height(t) >= MAXSTACK)
  {
    PostRight(out, peak, p, f);
    hide PostAll, PostTodo, Forks, Deeper, FlaggedOn;
  }

  lemma {:induction false} PostPrints(t: Tree, out: seq<int>, p: seq<Tree>, f: seq<bool>, peak: nat)
    requires |p| == |f| > 0 && Forks(p) && !Top(f) && PostWalking(t, out, p, f, peak)
    ensures Forks(Below(p)) && PostTodo(Below(p), Below(f)) < PostTodo(p, f)
    ensures PostWalking(t, out + [Top(p).key], Below(p), Below(f), peak)
  {
    PostPrint(out, peak, p, f);
    hide PostAll, PostTodo, PostReach, Forks, Below;
  }

  lemma {:induction false} PostEnds(t: Tree, out: seq<int>, peak: nat)
    requires Forks([]) && PostWalking(t, out, [], [], peak)
    ensures out == Postorder(t) && peak == Height(t) < MAXSTACK
  {
    PostFinished(out, peak);
  }

  // ---------- the stack of BTDisposeTree ----------

  /** The nodes of the trees on the stack, in the order of their disposal. */
  ghost function FreeRest(p: seq<Tree>): seq<Node> {
    if |p| == 0 then [] else PreorderNodes(Top(p)) + FreeRest(Below(p))
  }

  ghost function FreeRoom(p: seq<Tree>): nat {
    if |p| == 0 then 0 else Max(|p| - 1 + DisposeDepth(Top(p)), FreeRoom(Below(p)))
  }

  /** All that a disposal that freed `freed` will have freed, with `t` current and `p` on the stack. */
  ghost function FreeAll(freed: seq<Node>, t: Tree, p: seq<Tree>): (s: seq<Node>)
    ensures |s| >= |freed|
  {
    freed + (PreorderNodes(t) + FreeRest(p))
  }

  ghost function FreeReach(peak: nat, t: Tree, p: seq<Tree>): (h: nat)
    ensures h >= peak
  {
    Max(peak, Max(|p| + DisposeDepth(t), FreeRoom(p)))
  }

  /** The stack once the right child of `t`, if any, is on it. */
  function WithRight(t: Tree, p: seq<Tree>): (q: seq<Tree>)
    requires t.Fork?
    ensures |q| == |p| + if t.right.Fork? then 1 else 0
  {
    if t.right.Fork? then p + [t.right] else p
  }

  lemma {:induction false} FreeStep(freed: seq<Node>, peak: nat, t: Tree, p: seq<Tree>)
    requires t.Fork? && |p| <= peak
    ensures FreeAll(freed + [t.node], t.left, WithRight(t, p)) == FreeAll(freed, t, p)
    ensures FreeReach(Max(peak, |WithRight(t, p)|), t.left, WithRight(t, p)) == FreeReach(peak, t, p)
  {
    if t.right.Fork? {
      var q := p + [t.right];
      assert Top(q) == t.right && Below(q) == p;
      assert FreeRest(q) == PreorderNodes(t.right) + FreeRest(p);
    } else {
      assert PreorderNodes(t.right) == [];
    }
    assert FreeRest(WithRight(t, p)) == PreorderNodes(t.right) + FreeRest(p);
    FreeRegroup(freed, t.node, PreorderNodes(t.left), PreorderNodes(t.right), FreeRest(p));
  }

  lemma {:induction false} FreeRegroup(a: seq<Node>, n: Node, l: seq<Node>, r: seq<Node>, e: seq<Node>)
    ensures (a + [n]) + (l + (r + e)) == a + (([n] + l + r) + e)
  {
  }

  lemma {:induction false} FreePop(freed: seq<Node>, peak: nat, p: seq<Tree>)
    requires |p| > 0
    ensures FreeAll(freed, Top(p), Below(p)) == FreeAll(freed, Nil, p)
    ensures |p| <= peak ==> FreeReach(peak, Top(p), Below(p)) == FreeReach(peak, Nil, p)
  {
    FreeTop(p);
    NothingToFree();
    hide FreeRest, FreeRoom, PreorderNodes, DisposeDepth, Top, Below;
    assert [] + FreeRest(p) == FreeRest(p);
  }

  lemma {:induction false} FreeTop(p: seq<Tree>)
    requires |p| > 0
    ensures FreeRest(p) == PreorderNodes(Top(p)) + FreeRest(Below(p))
    ensures FreeRoom(p) == Max(|p| - 1 + DisposeDepth(Top(p)), FreeRoom(Below(p)))
  {
    hide Top, Below, PreorderNodes, DisposeDepth;
  }

  lemma {:induction false} NothingToFree()
    ensures PreorderNodes(Nil) == [] && DisposeDepth(Nil) == 0
  {
  }

  lemma {:induction false} FreeEnds(t: Tree, freed: seq<Node>, peak: nat)
    ensures FreeAll([], t, []) == PreorderNodes(t) && FreeReach(0, t, []) == DisposeDepth(t)
    ensures FreeAll(freed, Nil, []) == freed && FreeReach(peak, Nil, []) == peak
  {
  }

  /** The current tree and the trees on the stack share no node. */
  ghost predicate AllApart(t: Tree, p: seq<Tree>) {
    && Apart(t)
    && (forall i :: 0 <= i < |p| ==> Apart(p[i]) && Nodes(p[i]) !! Nodes(t))
    && (forall i, j :: 0 <= i < j < |p| ==> Nodes(p[i]) !! Nodes(p[j]))
  }

  lemma {:induction false} AllApartStep(t: Tree, p: seq<Tree>)
    requires AllApart(t, p) && t.Fork?
    ensures AllApart(t.left, WithRight(t, p)) && t.node !in Nodes(t.left)
    ensures forall i :: 0 <= i < |WithRight(t, p)| ==> t.node !in Nodes(WithRight(t, p)[i])
  {
  }

  /** Every tree still to be disposed of lies in `all`. */
  ghost predicate AllIn(t: Tree, p: seq<Tree>, all: set<Node>) {
    Nodes(t) <= all && forall i :: 0 <= i < |p| ==> Nodes(p[i]) <= all
  }

  lemma {:induction false} AllStart(t: Tree)
    requires Apart(t)
    ensures AllApart(t, []) && AllIn(t, [], Nodes(t))
  {
  }

  lemma {:induction false} AllInStep(t: Tree, p: seq<Tree>, all: set<Node>)
    requires t.Fork? && AllIn(t, p, all)
    ensures AllIn(t.left, WithRight(t, p), all) && t.node in all
  {
  }

  lemma {:induction false} AllInPop(p: seq<Tree>, all: set<Node>)
    requires AllIn(Nil, p, all) && |p| > 0
    ensures AllIn(Top(p), Below(p), all)
  {
  }

  lemma {:induction false} AllApartPop(p: seq<Tree>)
    requires AllApart(Nil, p) && |p| > 0
    ensures AllApart(Top(p), Below(p))
  {
  }

  /** The trees on the stack, spanned by their roots. */
  /**
   A disposal of `t` freed `freed`; it has `rest` to go on with and `p` on the stack, which had at
   most `peak` trees on it.
   */
  ghost predicate Disposing(t: Tree, freed: seq<Node>, rest: Tree, p: seq<Tree>, peak: nat) {
    && AllApart(rest, p) && AllIn(rest, p, Nodes(t))
    && FreeAll(freed, rest, p) == PreorderNodes(t)
    && |p| <= peak < MAXSTACK && FreeReach(peak, rest, p) == DisposeDepth(t)
  }

  lemma {:induction false} DisposeStarts(t: Tree)
    requires Apart(t)
    ensures Disposing(t, [], t, [], 0)
  {
    FreeEnds(t, [], 0);
    AllStart(t);
  }

  lemma {:induction false} DisposePops(t: Tree, freed: seq<Node>, p: seq<Tree>, peak: nat)
    requires Disposing(t, freed, Nil, p, peak) && |p| > 0
    ensures Disposing(t, freed, Top(p), Below(p), peak)
  {
    hide AllApart, AllIn, FreeAll, FreeReach, Top, Below;
    AllApartPop(p);
    AllInPop(p, Nodes(t));
    FreePop(freed, peak, p);
  }

  lemma {:induction false} DisposeGoesOn(t: Tree, freed: seq<Node>, rest: Tree, p: seq<Tree>, peak: nat)
    requires Disposing(t, freed, rest, p, peak) && rest.Fork?
    ensures AllApart(rest, p) && rest.node in Nodes(t) && |freed| < |PreorderNodes(t)|
    ensures rest.right.Nil? || |p| + 1 < MAXSTACK ==>
      Disposing(t, freed + [rest.node], rest.left, WithRight(rest, p), Max(peak, |WithRight(rest, p)|))
    ensures rest.right.Fork? && |p| + 1 >= MAXSTACK ==> DisposeDepth(t) >= MAXSTACK
  {
    hide AllApart, AllIn, FreeAll, FreeReach, WithRight;
    FreeStep(freed, peak, rest, p);
    AllApartStep(rest, p);
    AllInStep(rest, p, Nodes(t));
    assert |FreeAll(freed + [rest.node], rest.left, WithRight(rest, p))| > |freed|;
  }

  lemma {:induction false} DisposeEnds(t: Tree, freed: seq<Node>, peak: nat)
    requires Disposing(t, freed, Nil, [], peak)
    ensures freed == PreorderNodes(t) && peak == DisposeDepth(t) < MAXSTACK
  {
    FreeEnds(t, freed, peak);
  }

  ghost predicate Waiting(p: seq<Tree>)
    reads set i, n | 0 <= i < |p| && n in Nodes(p[i]) :: n
  {
    forall i :: 0 <= i < |p| ==> p[i].Fork? && Spans(p[i].node, p[i])
  }

  lemma {:induction false} NoneWait()
    ensures Waiting([]) && Pointers([]) == []
  {
  }

  lemma {:induction false} WaitingAllocated(p: seq<Tree>)
    ensures forall i :: 0 <= i < |p| ==> allocated(Nodes(p[i]))
  {
    forall i | 0 <= i < |p|
      ensures allocated(Nodes(p[i]))
    {
      NodesAllocated(p[i]);
    }
  }

  lemma {:induction false} WaitingPush(t: Tree, p: seq<Tree>)
    requires Waiting(p) && t.Fork? && Spans(t.node, t)
    ensures Waiting(WithRight(t, p))
    ensures Pointers(WithRight(t, p)) == Pointers(p) + if t.right.Fork? then [t.node.RPtr] else []
  {
  }

  lemma {:induction false} WaitingPop(p: seq<Tree>)
    requires Waiting(p) && |p| > 0
    ensures Waiting(Below(p)) && Top(p).Fork? && Spans(Top(p).node, Top(p))
    ensures Top(Pointers(p)) == Top(p).node && Pointers(Below(p)) == Below(Pointers(p))
  {
  }
}
