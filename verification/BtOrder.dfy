/** What makes the three listings of a tree pre-order, in-order and post-order: which key stands before which. */
module BtOrder {
  import opened BtShape
  import opened BtStack

  /** `a` stands somewhere before `b`. */
  ghost predicate Before(s: seq<int>, a: int, b: int) {
    exists i, j :: 0 <= i < j < |s| && s[i] == a && s[j] == b
  }

  lemma {:induction false} BeforeAcross(s: seq<int>, t: seq<int>, a: int, b: int)
    requires a in s && b in t
    ensures Before(s + t, a, b)
  {
    var i :| 0 <= i < |s| && s[i] == a;
    var j :| 0 <= j < |t| && t[j] == b;
    assert (s + t)[i] == a && (s + t)[|s| + j] == b;
  }

  lemma {:induction false} BeforeWithin(r: seq<int>, s: seq<int>, t: seq<int>, a: int, b: int)
    requires Before(s, a, b)
    ensures Before(r + s + t, a, b)
  {
    var i, j :| 0 <= i < j < |s| && s[i] == a && s[j] == b;
    assert (r + s + t)[|r| + i] == a && (r + s + t)[|r| + j] == b;
  }

  /** Each listing has every key of the tree as often as the tree has it, and no other. */
  lemma {:induction false} ListingsAgree(t: Tree)
    ensures multiset(Preorder(t)) == multiset(Inorder(t)) == multiset(Postorder(t))
    ensures |Preorder(t)| == |Inorder(t)| == |Postorder(t)| == Size(t)
  {
    if t.Fork? {
      ListingsAgree(t.left);
      ListingsAgree(t.right);
    }
  }

  lemma {:induction false} Listed(t: Tree, k: int)
    ensures k in Keys(t) <==> k in Preorder(t)
    ensures k in Keys(t) <==> k in Inorder(t)
    ensures k in Keys(t) <==> k in Postorder(t)
  {
    if t.Fork? {
      Listed(t.left, k);
      Listed(t.right, k);
    }
  }

  /** Pre-order: for every subtree first its root, then the left part, then the right part. */
  lemma {:induction false} RootFirst(t: Tree, x: Tree, a: int, b: int)
    requires Within(x, t) && x.Fork?
    ensures a in Keys(x.left) || a in Keys(x.right) ==> Before(Preorder(t), x.key, a)
    ensures a in Keys(x.left) && b in Keys(x.right) ==> Before(Preorder(t), a, b)
  {
    var l, r := Preorder(t.left), Preorder(t.right);
    assert Preorder(t) == [t.key] + l + r && [t.key] + l + r == [t.key] + (l + r);
    hide Preorder;
    if x == t {
      Listed(t.left, a);
      Listed(t.right, a);
      Listed(t.right, b);
      if a in l || a in r {
        BeforeAcross([t.key], l + r, t.key, a);
      }
      if a in l && b in r {
        BeforeAcross([t.key] + l, r, a, b);
      }
    } else if Within(x, t.left) {
      RootFirst(t.left, x, a, b);
      Lifted([t.key], l, r, x.key, a);
      Lifted([t.key], l, r, a, b);
    } else {
      RootFirst(t.right, x, a, b);
      assert [t.key] + l + r + [] == [t.key] + l + r;
      Lifted([t.key] + l, r, [], x.key, a);
      Lifted([t.key] + l, r, [], a, b);
    }
  }

  lemma {:induction false} Lifted(r: seq<int>, s: seq<int>, t: seq<int>, a: int, b: int)
    ensures Before(s, a, b) ==> Before(r + s + t, a, b)
  {
    if Before(s, a, b) {
      BeforeWithin(r, s, t, a, b);
    }
  }

  /** In-order: for every subtree first the left part, then its root, then the right part. */
  lemma {:induction false} RootBetween(t: Tree, x: Tree, a: int, b: int)
    requires Within(x, t) && x.Fork?
    ensures a in Keys(x.left) ==> Before(Inorder(t), a, x.key)
    ensures b in Keys(x.right) ==> Before(Inorder(t), x.key, b)
  {
    var l, r := Inorder(t.left), Inorder(t.right);
    assert Inorder(t) == l + [t.key] + r && l + [t.key] + r == l + ([t.key] + r);
    hide Inorder;
    if x == t {
      Listed(t.left, a);
      Listed(t.right, b);
      if a in l {
        BeforeAcross(l, [t.key] + r, a, t.key);
      }
      if b in r {
        BeforeAcross(l + [t.key], r, t.key, b);
      }
    } else if Within(x, t.left) {
      RootBetween(t.left, x, a, b);
      assert [] + l + ([t.key] + r) == l + ([t.key] + r);
      Lifted([], l, [t.key] + r, a, x.key);
      Lifted([], l, [t.key] + r, x.key, b);
    } else {
      RootBetween(t.right, x, a, b);
      assert l + [t.key] + r + [] == l + [t.key] + r;
      Lifted(l + [t.key], r, [], a, x.key);
      Lifted(l + [t.key], r, [], x.key, b);
    }
  }

  /** Post-order: for every subtree first the left part, then the right part, then its root. */
  lemma {:induction false} RootLast(t: Tree, x: Tree, a: int, b: int)
    requires Within(x, t) && x.Fork?
    ensures a in Keys(x.left) || a in Keys(x.right) ==> Before(Postorder(t), a, x.key)
    ensures a in Keys(x.left) && b in Keys(x.right) ==> Before(Postorder(t), a, b)
  {
    var l, r := Postorder(t.left), Postorder(t.right);
    assert Postorder(t) == l + r + [t.key] && l + r + [t.key] == l + (r + [t.key]);
    hide Postorder;
    if x == t {
      Listed(t.left, a);
      Listed(t.right, a);
      Listed(t.right, b);
      if a in l || a in r {
        BeforeAcross(l + r, [t.key], a, t.key);
      }
      if a in l && b in r {
        BeforeAcross(l, r + [t.key], a, b);
      }
    } else if Within(x, t.left) {
      RootLast(t.left, x, a, b);
      assert [] + l + (r + [t.key]) == l + (r + [t.key]);
      Lifted([], l, r + [t.key], a, x.key);
      Lifted([], l, r + [t.key], a, b);
    } else {
      RootLast(t.right, x, a, b);
      Lifted(l, r, [t.key], a, x.key);
      Lifted(l, r, [t.key], a, b);
    }
  }
}
