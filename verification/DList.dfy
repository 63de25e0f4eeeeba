/** sem_3/ial/proj_1/c206: a doubly linked list with a cursor. */
module DListSpec {
  import opened Seqs

  /** The values of the list, and the place of the active one, or -1. */
  datatype DList = DList(vals: seq<int>, cur: int)

  ghost predicate Proper(d: DList) { -1 <= d.cur < |d.vals| }

  datatype Op =
    | InsertFirst(v: int, memory: bool)
    | InsertLast(v: int, memory: bool)
    | PreInsert(v: int, memory: bool)
    | PostInsert(v: int, memory: bool)
    | DeleteFirst
    | DeleteLast
    | PreDelete
    | PostDelete
    | First
    | Last
    | Succ
    | Pred
    | Actualize(v: int)
    | Dispose
    | Copy(v: int)
    | CopyFirst(v: int)
    | CopyLast(v: int)
    | Active

  /** What a call tells its caller: the error flag, the caller's variable, or whether an element is active. */
  datatype Answer = Silent | Flag(err: bool) | Copied(err: bool, val: int) | Says(active: bool)

  /** What an operation makes of the list; inserting takes memory, and needs a cursor unless at an end. */
  function Apply(op: Op, d: DList): (r: DList)
    requires -1 <= d.cur < |d.vals|
    ensures -1 <= r.cur < |r.vals|
  {
    var n := |d.vals|;
    match op
    case InsertFirst(v, memory) =>
      if memory then DList(InsertAt(d.vals, 0, v), if d.cur < 0 then -1 else d.cur + 1) else d
    case InsertLast(v, memory) => if memory then DList(InsertAt(d.vals, n, v), d.cur) else d
    case PreInsert(v, memory) =>
      if memory && d.cur >= 0 then DList(InsertAt(d.vals, d.cur, v), d.cur + 1) else d
    case PostInsert(v, memory) =>
      if memory && d.cur >= 0 then DList(InsertAt(d.vals, d.cur + 1, v), d.cur) else d
    case DeleteFirst => if n == 0 then d else DList(RemoveAt(d.vals, 0), if d.cur <= 0 then -1 else d.cur - 1)
    case DeleteLast => if n == 0 then d else DList(RemoveAt(d.vals, n - 1), if d.cur == n - 1 then -1 else d.cur)
    case PreDelete => if d.cur <= 0 then d else DList(RemoveAt(d.vals, d.cur - 1), d.cur - 1)
    case PostDelete => if d.cur < 0 || d.cur == n - 1 then d else DList(RemoveAt(d.vals, d.cur + 1), d.cur)
    case First => DList(d.vals, if n == 0 then -1 else 0)
    case Last => DList(d.vals, n - 1)
    case Succ => DList(d.vals, if 0 <= d.cur < n - 1 then d.cur + 1 else -1)
    case Pred => DList(d.vals, if d.cur > 0 then d.cur - 1 else -1)
    case Actualize(v) => if d.cur < 0 then d else DList(d.vals[d.cur := v], d.cur)
    case Dispose => DList([], -1)
    case _ => d
  }

  /** The answer of an operation; a copy that fails leaves the variable `v` as it is. */
  function Observe(op: Op, d: DList): Answer
    requires -1 <= d.cur < |d.vals|
  {
    var n := |d.vals|;
    match op
    case InsertFirst(_, memory) => Flag(!memory)
    case InsertLast(_, memory) => Flag(!memory)
    case PreInsert(_, memory) => Flag(!memory && d.cur >= 0)
    case PostInsert(_, memory) => Flag(!memory && d.cur >= 0)
    case Copy(v) => if d.cur < 0 then Copied(true, v) else Copied(false, d.vals[d.cur])
    case CopyFirst(v) => if n == 0 then Copied(true, v) else Copied(false, d.vals[0])
    case CopyLast(v) => if n == 0 then Copied(true, v) else Copied(false, d.vals[n - 1])
    case Active => Says(d.cur >= 0)
    case _ => Silent
  }

  function Answers(ops: seq<Op>, d: DList): (r: seq<Answer>)
    requires -1 <= d.cur < |d.vals|
    ensures |r| == |ops|
  {
    if |ops| == 0 then [] else [Observe(ops[0], d)] + Answers(ops[1..], Apply(ops[0], d))
  }

  function ApplyAll(ops: seq<Op>, d: DList): (r: DList)
    requires -1 <= d.cur < |d.vals|
    ensures -1 <= r.cur < |r.vals|
  {
    if |ops| == 0 then d else ApplyAll(ops[1..], Apply(ops[0], d))
  }

  // ---------- what the operations do, in terms of what lies before and behind the active value ----------

  /** Inserting, deleting and changing around the active value `x`, between `a` and `b`. */
  lemma {:induction false} AroundTheActive(a: seq<int>, x: int, b: seq<int>, v: int)
    ensures var d := DList(a + [x] + b, |a|);
      && Apply(PostInsert(v, true), d) == DList(a + [x] + [v] + b, |a|)
      && Apply(PreInsert(v, true), d) == DList(a + [v] + [x] + b, |a| + 1)
      && Apply(PostDelete, d) == (if b == [] then d else DList(a + [x] + b[1..], |a|))
      && Apply(PreDelete, d) == (if a == [] then d else DList(a[..|a| - 1] + [x] + b, |a| - 1))
      && Apply(Actualize(v), d) == DList(a + [v] + b, |a|)
  {
    var s := a + [x] + b;
    assert s[..|a|] == a && s[|a|..] == [x] + b && s[..|a| + 1] == a + [x] && s[|a| + 1..] == b;
    if b != [] {
      assert s[|a| + 2..] == b[1..];
    }
    if a != [] {
      assert s[..|a| - 1] == a[..|a| - 1];
    }
  }

  /** Inserting and deleting at the ends keeps `x` active; ... */
  lemma {:induction false} EndsWithActive(a: seq<int>, x: int, b: seq<int>, v: int)
    ensures var d := DList(a + [x] + b, |a|);
      && Apply(InsertFirst(v, true), d) == DList([v] + a + [x] + b, |a| + 1)
      && Apply(InsertLast(v, true), d) == DList(a + [x] + b + [v], |a|)
  {
    var s := a + [x] + b;
    assert s[..0] == [] && s[0..] == s && s[..|s|] == s && s[|s|..] == [];
  }

  /** ... only deleting `x` itself loses the cursor. */
  lemma {:induction false} EndsDeleted(a: seq<int>, x: int, b: seq<int>)
    ensures var d := DList(a + [x] + b, |a|);
      && Apply(DeleteFirst, d) == (if a == [] then DList(b, -1) else DList(a[1..] + [x] + b, |a| - 1))
      && Apply(DeleteLast, d) == (if b == [] then DList(a, -1) else DList(a + [x] + b[..|b| - 1], |a|))
  {
    var s := a + [x] + b;
    assert s[..0] == [] && s[|s|..] == [];
    assert s[1..] == if a == [] then b else a[1..] + [x] + b;
    assert s[..|s| - 1] == if b == [] then a else a + [x] + b[..|b| - 1];
  }

  /** Moving the cursor, which is lost beyond either end, and reading. */
  lemma {:induction false} MovesAndReads(a: seq<int>, x: int, b: seq<int>, v: int)
    ensures var s, d := a + [x] + b, DList(a + [x] + b, |a|);
      && Apply(Succ, d) == DList(s, if b == [] then -1 else |a| + 1)
      && Apply(Pred, d) == DList(s, if a == [] then -1 else |a| - 1)
      && Apply(First, d) == DList(s, 0) && Apply(Last, d) == DList(s, |a| + |b|)
      && Observe(Copy(v), d) == Copied(false, x) && Observe(Active, d) == Says(true)
      && Observe(CopyFirst(v), d) == Copied(false, if a == [] then x else a[0])
      && Observe(CopyLast(v), d) == Copied(false, if b == [] then x else b[|b| - 1])
  {
  }

  /** A value that is set is the one copied next. */
  lemma {:induction false} ActualizeThenCopy(d: DList, v: int, w: int)
    requires Proper(d)
    ensures Observe(Copy(w), Apply(Actualize(v), d)) == if d.cur >= 0 then Copied(false, v) else Copied(true, w)
  {
    if d.cur >= 0 {
      var a, x, b := d.vals[..d.cur], d.vals[d.cur], d.vals[d.cur + 1..];
      assert d.vals == a + [x] + b;
      AroundTheActive(a, x, b, v);
      MovesAndReads(a, v, b, w);
    }
  }

  /** Without an active value the ends can be changed and the cursor set, ... */
  lemma {:induction false} EndsWithNoneActive(s: seq<int>, v: int)
    ensures var d := DList(s, -1);
      && Apply(InsertFirst(v, true), d) == DList([v] + s, -1) && Apply(InsertLast(v, true), d) == DList(s + [v], -1)
      && Apply(DeleteFirst, d) == (if s == [] then d else DList(s[1..], -1))
      && Apply(DeleteLast, d) == (if s == [] then d else DList(s[..|s| - 1], -1))
      && Apply(First, d) == (if s == [] then d else DList(s, 0))
      && Apply(Last, d) == (if s == [] then d else DList(s, |s| - 1))
  {
    assert s[..0] == [] && s[0..] == s && s[..|s|] == s && s[|s|..] == [];
  }

  /** ... and the rest does nothing. */
  lemma {:induction false} NothingWithNoneActive(s: seq<int>, v: int)
    ensures var d := DList(s, -1);
      && Apply(PostInsert(v, true), d) == d && Apply(PreInsert(v, true), d) == d
      && Apply(PostDelete, d) == d && Apply(PreDelete, d) == d && Apply(Actualize(v), d) == d
      && Apply(Succ, d) == d && Apply(Pred, d) == d
      && Observe(Copy(v), d) == Copied(true, v) && Observe(Active, d) == Says(false)
      && Observe(CopyFirst(v), d) == (if s == [] then Copied(true, v) else Copied(false, s[0]))
      && Observe(CopyLast(v), d) == (if s == [] then Copied(true, v) else Copied(false, s[|s| - 1]))
  {
  }

  /** Without memory nothing is inserted, and the error flag is set if something was to be. */
  lemma {:induction false} NoMemory(d: DList, v: int)
    requires Proper(d)
    ensures Apply(InsertFirst(v, false), d) == Apply(InsertLast(v, false), d) == d
    ensures Apply(PreInsert(v, false), d) == Apply(PostInsert(v, false), d) == d
    ensures Observe(InsertFirst(v, false), d) == Observe(InsertLast(v, false), d) == Flag(true)
    ensures Observe(PreInsert(v, false), d) == Observe(PostInsert(v, false), d) == Flag(d.cur >= 0)
    ensures Observe(InsertFirst(v, true), d) == Observe(InsertLast(v, true), d) == Flag(false)
    ensures Observe(PreInsert(v, true), d) == Observe(PostInsert(v, true), d) == Flag(false)
    ensures Apply(Dispose, d) == DList([], -1)
  {
  }

  /** Each deletion at the cursor undoes the insertion on the same side of it. */
  lemma {:induction false} DeleteUndoesInsert(d: DList, v: int)
    requires Proper(d) && d.cur >= 0
    ensures Apply(PostDelete, Apply(PostInsert(v, true), d)) == d
    ensures Apply(PreDelete, Apply(PreInsert(v, true), d)) == d
    ensures Apply(Pred, Apply(Succ, d)) == d <==> d.cur < |d.vals| - 1
  {
    RemoveInserted(d.vals, d.cur + 1, v);
    RemoveInserted(d.vals, d.cur, v);
  }

  lemma {:induction false} RemoveInserted<T>(s: seq<T>, i: nat, x: T)
    requires i <= |s|
    ensures RemoveAt(InsertAt(s, i, x), i) == s
  {
  }

  /** An end deletion undoes an end insertion, whatever is active. */
  lemma {:induction false} DeleteUndoesInsertAtEnd(d: DList, v: int)
    requires Proper(d)
    ensures Apply(DeleteFirst, Apply(InsertFirst(v, true), d)) == d
    ensures Apply(DeleteLast, Apply(InsertLast(v, true), d)) == d
  {
    RemoveInserted(d.vals, 0, v);
    RemoveInserted(d.vals, |d.vals|, v);
  }
}

module DLists {
  import opened Seqs
  import opened DListSpec

  class Elem {
    var data: int
    var lptr: Elem?
    var rptr: Elem?
    ghost var live: bool

    constructor (val: int)
      ensures data == val && lptr == null && rptr == null && live
    {
      data, lptr, rptr, live := val, null, null, true;
    }

    method Free()
      requires live
      modifies this
      ensures !live
    {
      data, lptr, rptr, live := *, *, *, false;
    }
  }

  function At(s: seq<Elem>, i: int): Elem? { if 0 <= i < |s| then s[i] else null }

  /** Element `i` is linked to its neighbours on both sides. */
  ghost predicate Linked(s: seq<Elem>, i: nat)
    requires i < |s|
    reads s[i]
  {
    s[i].live && s[i].lptr == At(s, i - 1) && s[i].rptr == At(s, i + 1)
  }

  ghost function Values(s: seq<Elem>): (v: seq<int>)
    reads s
    ensures |v| == |s| && forall i :: 0 <= i < |s| ==> v[i] == s[i].data
  {
    seq(|s|, i requires 0 <= i < |s| reads s => s[i].data)
  }

  ghost predicate Differ(s: seq<Elem>, i: nat, j: nat)
    requires i < |s| && j < |s|
  {
    s[i] != s[j]
  }

  ghost predicate Distinct(s: seq<Elem>) {
    forall i, j :: 0 <= i < j < |s| ==> Differ(s, i, j)
  }

  lemma {:induction false} Same(s: seq<Elem>, i: int, j: int)
    requires Distinct(s)
    ensures At(s, i) == (if 0 <= i < |s| then s[i] else null) && At(s, j) == if 0 <= j < |s| then s[j] else null
    ensures At(s, i) == At(s, j) != null ==> i == j
  {
    if 0 <= i < j < |s| {
      assert Differ(s, i, j);
    } else if 0 <= j < i < |s| {
      assert Differ(s, j, i);
    }
  }

  lemma {:induction false} DistinctInserted(s: seq<Elem>, i: nat, e: Elem)
    requires Distinct(s) && i <= |s| && e !in s
    ensures Distinct(InsertAt(s, i, e))
  {
    var r := InsertAt(s, i, e);
    forall a, b | 0 <= a < b < |r|
      ensures Differ(r, a, b)
    {
      if a != i && b != i {
        assert Differ(s, if a < i then a else a - 1, if b < i then b else b - 1);
      }
    }
  }

  lemma {:induction false} DistinctRemoved(s: seq<Elem>, i: nat)
    requires Distinct(s) && i < |s|
    ensures Distinct(RemoveAt(s, i))
  {
    var r := RemoveAt(s, i);
    forall a, b | 0 <= a < b < |r|
      ensures Differ(r, a, b)
    {
      assert Differ(s, if a < i then a else a + 1, if b < i then b else b + 1);
    }
  }

  /** Element `i` is linked to its neighbours and holds its value. */
  ghost predicate Holds(s: seq<Elem>, vals: seq<int>, i: nat)
    requires i < |s| == |vals|
    reads s[i]
  {
    Linked(s, i) && s[i].data == vals[i]
  }

  /** Element `j` of `s`, once `e` is linked in at `i`. */
  ghost predicate LinkedAround(s: seq<Elem>, vals: seq<int>, i: nat, e: Elem, j: nat)
    requires j < |s| == |vals|
    reads s[j]
  {
    && s[j].live && s[j].data == vals[j]
    && s[j].lptr == (if j == i then e else At(s, j - 1))
    && s[j].rptr == (if j + 1 == i then e else At(s, j + 1))
  }

  lemma {:induction false} Inserted(s: seq<Elem>, vals: seq<int>, i: nat, e: Elem)
    requires Distinct(s) && i <= |s| == |vals| && e !in s
    requires e.live && e.lptr == At(s, i - 1) && e.rptr == At(s, i)
    requires forall j :: 0 <= j < |s| ==> LinkedAround(s, vals, i, e, j)
    ensures Distinct(InsertAt(s, i, e)) && forall k :: 0 <= k <= |s| ==> Linked(InsertAt(s, i, e), k)
    ensures Values(InsertAt(s, i, e)) == InsertAt(vals, i, e.data)
  {
    var r := InsertAt(s, i, e);
    DistinctInserted(s, i, e);
    forall k | 0 <= k <= |s|
      ensures Linked(r, k) && r[k].data == InsertAt(vals, i, e.data)[k]
    {
      var j := if k < i then k else k - 1;
      if k != i {
        assert r[k] == s[j] && LinkedAround(s, vals, i, e, j);
      }
      InsertedAt(s, i, e, k - 1);
      InsertedAt(s, i, e, k + 1);
    }
  }

  /** All but the neighbours are as before. */
  lemma {:induction false} AllAround(s: seq<Elem>, vals: seq<int>, i: nat, e: Elem)
    requires i <= |s| == |vals|
    requires i > 0 ==> LinkedAround(s, vals, i, e, i - 1)
    requires i < |s| ==> LinkedAround(s, vals, i, e, i)
    requires forall j :: 0 <= j < |s| && j != i && j + 1 != i ==> Holds(s, vals, j)
    ensures forall j :: 0 <= j < |s| ==> LinkedAround(s, vals, i, e, j)
  {
    forall j | 0 <= j < |s|
      ensures LinkedAround(s, vals, i, e, j)
    {
      assert j != i && j + 1 != i ==> Holds(s, vals, j);
    }
  }

  /** Element `j` of `s`, once element `i` is linked out. */
  ghost predicate LinkedBeside(s: seq<Elem>, vals: seq<int>, i: nat, j: nat)
    requires j < |s| == |vals|
    reads s[j]
  {
    && s[j].live && s[j].data == vals[j]
    && s[j].lptr == (if j == i + 1 then At(s, j - 2) else At(s, j - 1))
    && s[j].rptr == (if j + 1 == i then At(s, j + 2) else At(s, j + 1))
  }

  /** All but the neighbours are as before. */
  lemma {:induction false} AllBeside(s: seq<Elem>, vals: seq<int>, i: nat)
    requires i < |s| == |vals|
    requires i > 0 ==> LinkedBeside(s, vals, i, i - 1)
    requires i + 1 < |s| ==> LinkedBeside(s, vals, i, i + 1)
    requires forall j :: 0 <= j < |s| && j != i && j + 1 != i && j != i + 1 ==> Holds(s, vals, j)
    ensures forall j :: 0 <= j < |s| && j != i ==> LinkedBeside(s, vals, i, j)
  {
    forall j | 0 <= j < |s| && j != i
      ensures LinkedBeside(s, vals, i, j)
    {
      assert j + 1 != i && j != i + 1 ==> Holds(s, vals, j);
    }
  }

  lemma {:induction false} Removed(s: seq<Elem>, vals: seq<int>, i: nat)
    requires Distinct(s) && i < |s| == |vals|
    requires forall j :: 0 <= j < |s| && j != i ==> LinkedBeside(s, vals, i, j)
    ensures Distinct(RemoveAt(s, i)) && forall k :: 0 <= k < |s| - 1 ==> Linked(RemoveAt(s, i), k)
    ensures Values(RemoveAt(s, i)) == RemoveAt(vals, i)
  {
    var r := RemoveAt(s, i);
    DistinctRemoved(s, i);
    forall k | 0 <= k < |s| - 1
      ensures Linked(r, k) && r[k].data == RemoveAt(vals, i)[k]
    {
      var j := if k < i then k else k + 1;
      assert r[k] == s[j] && LinkedBeside(s, vals, i, j);
      RemovedAt(s, i, k - 1);
      RemovedAt(s, i, k + 1);
    }
  }

  lemma {:induction false} InsertedAt(s: seq<Elem>, i: nat, e: Elem, k: int)
    requires i <= |s|
    ensures At(InsertAt(s, i, e), k) == if k == i then e else if k < i then At(s, k) else At(s, k - 1)
  {
  }

  lemma {:induction false} RemovedAt(s: seq<Elem>, i: nat, k: int)
    requires i < |s|
    ensures At(RemoveAt(s, i), k) == if k < i then At(s, k) else At(s, k + 1)
  {
  }

  /** The ends and the active element after an insertion. */
  lemma {:induction false} InsertedEnds(s: seq<Elem>, i: nat, e: Elem, c: int)
    requires i <= |s| && -1 <= c < |s|
    ensures var r := InsertAt(s, i, e);
      && At(r, 0) == (if i == 0 then e else At(s, 0))
      && At(r, |r| - 1) == (if i == |s| then e else At(s, |s| - 1))
      && At(r, if c >= i then c + 1 else c) == At(s, c)
  {
    InsertedAt(s, i, e, 0);
    InsertedAt(s, i, e, |s|);
    InsertedAt(s, i, e, if c >= i then c + 1 else c);
  }

  lemma {:induction false} RemovedEnds(s: seq<Elem>, i: nat, c: int)
    requires i < |s| && -1 <= c < |s|
    ensures var r := RemoveAt(s, i);
      && At(r, 0) == (if i == 0 then At(s, 1) else At(s, 0))
      && At(r, |r| - 1) == (if i == |s| - 1 then At(s, |s| - 2) else At(s, |s| - 1))
      && (c != i ==> At(r, if c > i then c - 1 else c) == At(s, c))
  {
    RemovedAt(s, i, 0);
    RemovedAt(s, i, |s| - 2);
    RemovedAt(s, i, if c > i then c - 1 else c);
  }

  class List {
    var First: Elem?
    var Act: Elem?
    var Last: Elem?
    ghost var elems: seq<Elem>
    ghost var cur: int

    ghost predicate Valid()
      reads this, elems
    {
      && Distinct(elems) && First == At(elems, 0) && Last == At(elems, |elems| - 1)
      && -1 <= cur < |elems| && Act == At(elems, cur)
      && forall i :: 0 <= i < |elems| ==> Linked(elems, i)
    }

    ghost function View(): DList
      reads this, elems
    {
      DList(Values(elems), cur)
    }

    /** What Valid says of the list as a whole ... */
    lemma {:induction false} Whole()
      requires Valid()
      ensures Distinct(elems) && -1 <= cur < |elems| && View() == DList(Values(elems), cur)
      ensures First == At(elems, 0) && Last == At(elems, |elems| - 1) && Act == At(elems, cur)
      ensures forall j :: 0 <= j < |elems| ==> Holds(elems, Values(elems), j)
    {
      hide Distinct;
      forall j | 0 <= j < |elems|
        ensures Holds(elems, Values(elems), j)
      {
        assert Linked(elems, j);
      }
    }

    /** ... and of the element at `i`, if there is one. */
    lemma {:induction false} Element(i: int)
      requires Valid()
      ensures At(elems, i) == if 0 <= i < |elems| then elems[i] else null
      ensures 0 <= i < |elems| ==>
        && elems[i] in elems && elems[i].live && elems[i].data == Values(elems)[i]
        && elems[i].lptr == At(elems, i - 1) && elems[i].rptr == At(elems, i + 1)
    {
      hide Distinct;
      assert 0 <= i < |elems| ==> Linked(elems, i);
    }

    /** `e` was linked into the list `s` at `i`. */
    lemma {:induction false} HasInserted(s: seq<Elem>, vals: seq<int>, i: nat, e: Elem, c: int)
      requires Distinct(s) && i <= |s| == |vals| && e !in s && -1 <= c < |s|
      requires e.live && e.lptr == At(s, i - 1) && e.rptr == At(s, i)
      requires i > 0 ==> LinkedAround(s, vals, i, e, i - 1)
      requires i < |s| ==> LinkedAround(s, vals, i, e, i)
      requires forall j :: 0 <= j < |s| && j != i && j + 1 != i ==> Holds(s, vals, j)
      requires elems == InsertAt(s, i, e) && cur == (if c >= i then c + 1 else c) && Act == At(s, c)
      requires First == (if i == 0 then e else At(s, 0)) && Last == (if i == |s| then e else At(s, |s| - 1))
      ensures Valid() && View() == DList(InsertAt(vals, i, e.data), cur)
      ensures forall x :: x in elems ==> x == e || x in s
    {
      AllAround(s, vals, i, e);
      Inserted(s, vals, i, e);
      InsertedEnds(s, i, e, c);
      hide Distinct, Linked, Values, LinkedAround, Holds;
    }

    /** The element at `i` was linked out of the list `s`. */
    lemma {:induction false} HasRemoved(s: seq<Elem>, vals: seq<int>, i: nat, c: int)
      requires Distinct(s) && i < |s| == |vals| && -1 <= c < |s|
      requires i > 0 ==> LinkedBeside(s, vals, i, i - 1)
      requires i + 1 < |s| ==> LinkedBeside(s, vals, i, i + 1)
      requires forall j :: 0 <= j < |s| && j != i && j + 1 != i && j != i + 1 ==> Holds(s, vals, j)
      requires elems == RemoveAt(s, i) && cur == (if c == i then -1 else if c > i then c - 1 else c)
      requires Act == if c == i then null else At(s, c)
      requires First == (if i == 0 then At(s, 1) else At(s, 0))
      requires Last == (if i == |s| - 1 then At(s, |s| - 2) else At(s, |s| - 1))
      ensures Valid() && View() == DList(RemoveAt(vals, i), cur)
      ensures forall x :: x in elems ==> x in s
    {
      AllBeside(s, vals, i);
      Removed(s, vals, i);
      RemovedEnds(s, i, c);
      hide Distinct, Linked, Values, LinkedBeside, Holds;
    }

    /** DLInitList */
    constructor DLInitList()
      ensures Valid() && View() == DList([], -1) && elems == []
    {
      First, Act, Last, elems, cur := null, null, null, [], -1;
    }

    /** DLInsertFirst; `err` is the error flag, set when there is no memory. */
    method DLInsertFirst(val: int, memory: bool) returns (err: bool)
      requires Valid()
      modifies this, elems
      ensures Valid() && forall e :: e in elems && e !in old(elems) ==> fresh(e)
      ensures View() == Apply(InsertFirst(val, memory), old(View())) && err == !memory
    {
      hide At, Distinct, Values, InsertAt, RemoveAt, Valid, View, Linked, Holds;
      Whole();
      assert Apply(InsertFirst(val, memory), View()) ==
        if memory then DList(InsertAt(View().vals, 0, val), if cur < 0 then -1 else cur + 1) else View();
      hide Apply;
      if !memory {
        return true;
      }
      err := false;
      Element(-1);
      Element(0);
      ghost var s, vals := elems, Values(elems);
      Same(s, 0, |s| - 1);
      var tmp := new Elem(val);
      assert tmp !in s;
      if Last == null {
        Last := tmp;
      } else {
        First.lptr := tmp;
      }
      tmp.rptr := First;
      First := tmp;
      elems, cur := InsertAt(elems, 0, tmp), if cur < 0 then -1 else cur + 1;
      forall j | 0 < j < |s|
        ensures Holds(s, vals, j)
      {
        Same(s, j, 0);
        assert old(Holds(s, vals, j));
      }
      HasInserted(s, vals, 0, tmp, old(cur));
    }

    /** DLInsertLast */
    method DLInsertLast(val: int, memory: bool) returns (err: bool)
      requires Valid()
      modifies this, elems
      ensures Valid() && forall e :: e in elems && e !in old(elems) ==> fresh(e)
      ensures View() == Apply(InsertLast(val, memory), old(View())) && err == !memory
    {
      hide At, Distinct, Values, InsertAt, RemoveAt, Valid, View, Linked, Holds;
      Whole();
      assert Apply(InsertLast(val, memory), View()) ==
        if memory then DList(InsertAt(View().vals, |elems|, val), cur) else View();
      hide Apply;
      if !memory {
        return true;
      }
      err := false;
      ghost var n, s, vals := |elems|, elems, Values(elems);
      Element(n - 1);
      Element(n);
      Same(s, 0, n - 1);
      var tmp := new Elem(val);
      assert tmp !in s;
      if First == null {
        First := tmp;
      } else {
        Last.rptr := tmp;
      }
      tmp.lptr := Last;
      Last := tmp;
      elems := InsertAt(elems, n, tmp);
      forall j | 0 <= j < n - 1
        ensures Holds(s, vals, j)
      {
        Same(s, j, n - 1);
        assert old(Holds(s, vals, j));
      }
      HasInserted(s, vals, n, tmp, old(cur));
    }

    /** DLPostInsert; nothing happens when no element is active. */
    method DLPostInsert(val: int, memory: bool) returns (err: bool)
      requires Valid()
      modifies this, elems
      ensures Valid() && forall e :: e in elems && e !in old(elems) ==> fresh(e)
      ensures View() == Apply(PostInsert(val, memory), old(View())) && err == (!memory && old(cur) >= 0)
    {
      hide At, Distinct, Values, InsertAt, RemoveAt, Valid, View, Linked, Holds;
      Whole();
      Element(cur);
      assert Apply(PostInsert(val, memory), View()) ==
        if memory && cur >= 0 then DList(InsertAt(View().vals, cur + 1, val), cur) else View();
      hide Apply;
      if Act == null {
        return false;
      }
      if !memory {
        return true;
      }
      err := false;
      ghost var c: nat, s, vals := cur + 1, elems, Values(elems);
      Element(c);
      Same(s, c - 1, c);
      Same(s, c - 1, |s| - 1);
      var tmp := new Elem(val);
      assert tmp !in s;
      tmp.lptr := Act;
      if Act == Last {
        Last := tmp;
        tmp.rptr := null;
      } else {
        tmp.rptr := Act.rptr;
        tmp.rptr.lptr := tmp;
      }
      Act.rptr := tmp;
      elems := InsertAt(elems, c, tmp);
      forall j | 0 <= j < |s| && j != c && j + 1 != c
        ensures Holds(s, vals, j)
      {
        Same(s, j, c - 1);
        Same(s, j, c);
        assert old(Holds(s, vals, j));
      }
      HasInserted(s, vals, c, tmp, old(cur));
    }

    /** DLPreInsert */
    method DLPreInsert(val: int, memory: bool) returns (err: bool)
      requires Valid()
      modifies this, elems
      ensures Valid() && forall e :: e in elems && e !in old(elems) ==> fresh(e)
      ensures View() == Apply(PreInsert(val, memory), old(View())) && err == (!memory && old(cur) >= 0)
    {
      hide At, Distinct, Values, InsertAt, RemoveAt, Valid, View, Linked, Holds;
      Whole();
      Element(cur);
      assert Apply(PreInsert(val, memory), View()) ==
        if memory && cur >= 0 then DList(InsertAt(View().vals, cur, val), cur + 1) else View();
      hide Apply;
      if Act == null {
        return false;
      }
      if !memory {
        return true;
      }
      err := false;
      ghost var c: nat, s, vals := cur, elems, Values(elems);
      Element(c - 1);
      Same(s, c, c - 1);
      Same(s, c, 0);
      var tmp := new Elem(val);
      assert tmp !in s;
      tmp.rptr := Act;
      if Act == First {
        First := tmp;
        tmp.lptr := null;
      } else {
        tmp.lptr := Act.lptr;
        tmp.lptr.rptr := tmp;
      }
      Act.lptr := tmp;
      elems, cur := InsertAt(elems, c, tmp), cur + 1;
      forall j | 0 <= j < |s| && j != c && j + 1 != c
        ensures Holds(s, vals, j)
      {
        Same(s, j, c);
        Same(s, j, c - 1);
        assert old(Holds(s, vals, j));
      }
      HasInserted(s, vals, c, tmp, old(cur));
    }

    /** DLDeleteFirst; the removed element is freed, and is no longer active. */
    method DLDeleteFirst() returns (ghost gone: Elem?)
      requires Valid()
      modifies this, elems
      ensures Valid() && forall e :: e in elems ==> e in old(elems)
      ensures View() == Apply(DeleteFirst, old(View()))
      ensures gone == null <==> |elems| == |old(elems)|
      ensures gone != null ==> gone in old(elems) && !gone.live
    {
      hide At, Distinct, Values, InsertAt, RemoveAt, Valid, View, Linked, Holds;
      Whole();
      Element(0);
      assert Apply(DeleteFirst, View()) ==
        if |elems| == 0 then View() else DList(RemoveAt(View().vals, 0), if cur <= 0 then -1 else cur - 1);
      hide Apply;
      if First == null {
        return null;
      }
      Element(-1);
      Element(1);
      ghost var s, vals := elems, Values(elems);
      Same(s, 0, |s| - 1);
      Same(s, 0, 1);
      Same(s, 0, cur);
      var tmp := First;
      if Act == tmp {
        Act := null;
      }
      if First == Last {
        First, Last := null, null;
      } else {
        First := tmp.rptr;
        First.lptr := null;
      }
      tmp.Free();
      gone := tmp;
      elems, cur := RemoveAt(elems, 0), if cur <= 0 then -1 else cur - 1;
      forall j | 1 < j < |s|
        ensures Holds(s, vals, j)
      {
        Same(s, j, 0);
        Same(s, j, 1);
        assert old(Holds(s, vals, j));
      }
      HasRemoved(s, vals, 0, old(cur));
    }

    /** DLDeleteLast */
    method DLDeleteLast() returns (ghost gone: Elem?)
      requires Valid()
      modifies this, elems
      ensures Valid() && forall e :: e in elems ==> e in old(elems)
      ensures View() == Apply(DeleteLast, old(View()))
      ensures gone == null <==> |elems| == |old(elems)|
      ensures gone != null ==> gone in old(elems) && !gone.live
    {
      hide At, Distinct, Values, InsertAt, RemoveAt, Valid, View, Linked, Holds;
      Whole();
      Element(0);
      assert Apply(DeleteLast, View()) ==
        if |elems| == 0 then View()
        else DList(RemoveAt(View().vals, |elems| - 1), if cur == |elems| - 1 then -1 else cur);
      hide Apply;
      if First == null {
        return null;
      }
      ghost var n: nat, s, vals := |elems| - 1, elems, Values(elems);
      Element(n);
      Element(n + 1);
      Element(n - 1);
      Same(s, 0, n);
      Same(s, n - 1, n);
      Same(s, n, cur);
      var tmp := Last;
      if Act == tmp {
        Act := null;
      }
      if First == Last {
        First, Last := null, null;
      } else {
        Last := tmp.lptr;
        Last.rptr := null;
      }
      tmp.Free();
      gone := tmp;
      elems, cur := RemoveAt(elems, n), if cur == n then -1 else cur;
      forall j | 0 <= j < n - 1
        ensures Holds(s, vals, j)
      {
        Same(s, j, n);
        Same(s, j, n - 1);
        assert old(Holds(s, vals, j));
      }
      HasRemoved(s, vals, n, old(cur));
    }

    /** DLPostDelete */
    method DLPostDelete() returns (ghost gone: Elem?)
      requires Valid()
      modifies this, elems
      ensures Valid() && forall e :: e in elems ==> e in old(elems)
      ensures View() == Apply(PostDelete, old(View()))
      ensures gone == null <==> |elems| == |old(elems)|
      ensures gone != null ==> gone in old(elems) && !gone.live
    {
      hide At, Distinct, Values, InsertAt, RemoveAt, Valid, View, Linked, Holds;
      Whole();
      Element(cur);
      Same(elems, cur, |elems| - 1);
      assert Apply(PostDelete, View()) ==
        if cur < 0 || cur == |elems| - 1 then View() else DList(RemoveAt(View().vals, cur + 1), cur);
      hide Apply;
      if Act == null || Act == Last {
        return null;
      }
      ghost var c: nat, s, vals := cur + 1, elems, Values(elems);
      Element(c);
      Element(c + 1);
      Same(s, c - 1, c);
      Same(s, c - 1, c + 1);
      Same(s, c, c + 1);
      Same(s, c, |s| - 1);
      Same(s, c, 0);
      var tmp := Act.rptr;
      if tmp == Last {
        Last := tmp.lptr;
        Last.rptr := null;
      } else {
        Act.rptr := tmp.rptr;
        tmp.rptr.lptr := Act;
      }
      tmp.Free();
      gone := tmp;
      elems := RemoveAt(elems, c);
      forall j | 0 <= j < |s| && j != c && j + 1 != c && j != c + 1
        ensures Holds(s, vals, j)
      {
        Same(s, j, c - 1);
        Same(s, j, c);
        Same(s, j, c + 1);
        assert old(Holds(s, vals, j));
      }
      HasRemoved(s, vals, c, old(cur));
    }

    /** DLPreDelete */
    method DLPreDelete() returns (ghost gone: Elem?)
      requires Valid()
      modifies this, elems
      ensures Valid() && forall e :: e in elems ==> e in old(elems)
      ensures View() == Apply(PreDelete, old(View()))
      ensures gone == null <==> |elems| == |old(elems)|
      ensures gone != null ==> gone in old(elems) && !gone.live
    {
      hide At, Distinct, Values, InsertAt, RemoveAt, Valid, View, Linked, Holds;
      Whole();
      Element(cur);
      Same(elems, cur, 0);
      assert Apply(PreDelete, View()) == if cur <= 0 then View() else DList(RemoveAt(View().vals, cur - 1), cur - 1);
      hide Apply;
      if Act == null || Act == First {
        return null;
      }
      ghost var c: nat, s, vals := cur - 1, elems, Values(elems);
      Element(c);
      Element(c - 1);
      Same(s, c + 1, c);
      Same(s, c + 1, c - 1);
      Same(s, c, c - 1);
      Same(s, c, 0);
      Same(s, c, |s| - 1);
      var tmp := Act.lptr;
      if tmp == First {
        First := tmp.rptr;
        First.lptr := null;
      } else {
        Act.lptr := tmp.lptr;
        tmp.lptr.rptr := Act;
      }
      tmp.Free();
      gone := tmp;
      elems, cur := RemoveAt(elems, c), cur - 1;
      forall j | 0 <= j < |s| && j != c && j + 1 != c && j != c + 1
        ensures Holds(s, vals, j)
      {
        Same(s, j, c + 1);
        Same(s, j, c);
        Same(s, j, c - 1);
        assert old(Holds(s, vals, j));
      }
      HasRemoved(s, vals, c, old(cur));
    }

    /** DLFirst */
    method DLFirst()
      requires Valid()
      modifies this
      ensures Valid() && elems == old(elems) && View() == Apply(DListSpec.Op.First, old(View()))
    {
      Act, cur := First, if |elems| == 0 then -1 else 0;
    }

    /** DLLast */
    method DLLast()
      requires Valid()
      modifies this
      ensures Valid() && elems == old(elems) && View() == Apply(DListSpec.Op.Last, old(View()))
    {
      Act, cur := Last, |elems| - 1;
    }

    /** DLSucc */
    method DLSucc()
      requires Valid()
      modifies this
      ensures Valid() && elems == old(elems) && View() == Apply(Succ, old(View()))
    {
      if Act == null {
        return;
      }
      assert Linked(elems, cur);
      Act, cur := Act.rptr, if cur + 1 < |elems| then cur + 1 else -1;
    }

    /** DLPred */
    method DLPred()
      requires Valid()
      modifies this
      ensures Valid() && elems == old(elems) && View() == Apply(Pred, old(View()))
    {
      if Act == null {
        return;
      }
      assert Linked(elems, cur);
      Act, cur := Act.lptr, cur - 1;
    }

    /** DLActualize */
    method DLActualize(val: int)
      requires Valid()
      modifies this, elems
      ensures Valid() && elems == old(elems) && View() == Apply(Actualize(val), old(View()))
      ensures View().cur == old(View()).cur && |View().vals| == |old(View()).vals|
      ensures View().cur >= 0 ==> View().vals[View().cur] == val
      ensures forall i :: 0 <= i < |View().vals| && i != View().cur ==> View().vals[i] == old(View()).vals[i]
    {
      hide At, Distinct, Values, Valid, View, Linked, Holds;
      Whole();
      Element(cur);
      assert Apply(Actualize(val), View()) == if cur < 0 then View() else DList(View().vals[cur := val], cur);
      hide Apply;
      if Act == null {
        return;
      }
      ghost var c: nat, vals := cur, Values(elems);
      Act.data := val;
      forall i | 0 <= i < |elems| && i != c
        ensures Holds(elems, vals, i)
      {
        Same(elems, i, c);
        assert old(Holds(elems, vals, i));
      }
      HasValue(vals, c);
    }

    /** Element `c` has a new value. */
    lemma {:induction false} HasValue(vals: seq<int>, c: nat)
      requires Distinct(elems) && -1 <= cur < |elems| == |vals| && c < |elems| && elems[c].live
      requires First == At(elems, 0) && Last == At(elems, |elems| - 1) && Act == At(elems, cur)
      requires elems[c].lptr == At(elems, c - 1) && elems[c].rptr == At(elems, c + 1)
      requires forall i :: 0 <= i < |elems| && i != c ==> Holds(elems, vals, i)
      ensures Valid() && View() == DList(vals[c := elems[c].data], cur)
    {
      hide Distinct, At;
      forall i | 0 <= i < |elems|
        ensures Linked(elems, i) && elems[i].data == vals[c := elems[c].data][i]
      {
        assert i != c ==> Holds(elems, vals, i);
      }
      assert Values(elems) == vals[c := elems[c].data];
    }

    /** DLCopyFirst; `val` is what the caller's variable holds, and keeps on an error. */
    method DLCopyFirst(val: int) returns (err: bool, val': int)
      requires Valid()
      ensures err == (View().vals == []) && val' == if err then val else View().vals[0]
    {
      err, val' := First == null, val;
      if !err {
        val' := First.data;
      }
    }

    /** DLCopyLast */
    method DLCopyLast(val: int) returns (err: bool, val': int)
      requires Valid()
      ensures err == (View().vals == []) && val' == if err then val else View().vals[|View().vals| - 1]
    {
      err, val' := Last == null, val;
      if !err {
        val' := Last.data;
      }
    }

    /** DLCopy */
    method DLCopy(val: int) returns (err: bool, val': int)
      requires Valid()
      ensures err == (View().cur < 0) && val' == if err then val else View().vals[View().cur]
    {
      err, val' := Act == null, val;
      if !err {
        val' := Act.data;
      }
    }

    /** DLActive */
    method DLActive() returns (active: bool)
      requires Valid()
      ensures active == (View().cur >= 0)
    {
      active := Act != null;
    }

    /** DLDisposeList: every element is freed, and none twice. */
    method DLDisposeList()
      requires Valid()
      modifies this, elems
      ensures Valid() && elems == [] && View() == Apply(Dispose, old(View()))
      ensures forall e :: e in old(elems) ==> !e.live
    {
      if First == null {
        Last, Act, elems, cur := null, null, [], -1;
        return;
      }
      ghost var k: nat := 0;
      while First != null
        invariant k <= |elems| && elems == old(elems) && First == At(elems, k)
        invariant forall j :: k <= j < |elems| ==> Linked(elems, j)
        invariant forall j :: 0 <= j < k ==> !elems[j].live
        decreases |elems| - k
      {
        Same(elems, k, k);
        assert Linked(elems, k);
        forall j | k < j < |elems|
          ensures elems[j] != elems[k]
        {
          Same(elems, j, k);
        }
        var tmp := First;
        First := First.rptr;
        tmp.Free();
        k := k + 1;
      }
      First, Act, Last := null, null, null;
      elems, cur := [], -1;
    }
  }

  // ---------- whole runs ----------

  method Perform(l: List, op: Op) returns (a: Answer)
    requires l.Valid()
    modifies l, l.elems
    ensures l.Valid() && l.View() == Apply(op, old(l.View()))
    ensures a == Observe(op, old(l.View()))
    ensures forall e :: e in l.elems && e !in old(l.elems) ==> fresh(e)
  {
    ghost var d := l.View();
    ObserveFacts(op, d);
    hide l.Valid, l.View, Apply, Observe;
    var err: bool, val: int, active: bool;
    ghost var gone: Elem?;
    a := Silent;
    match op
    case InsertFirst(v, memory) => err := l.DLInsertFirst(v, memory); a := Flag(err);
    case InsertLast(v, memory) => err := l.DLInsertLast(v, memory); a := Flag(err);
    case PreInsert(v, memory) => err := l.DLPreInsert(v, memory); a := Flag(err);
    case PostInsert(v, memory) => err := l.DLPostInsert(v, memory); a := Flag(err);
    case DeleteFirst => gone := l.DLDeleteFirst();
    case DeleteLast => gone := l.DLDeleteLast();
    case PreDelete => gone := l.DLPreDelete();
    case PostDelete => gone := l.DLPostDelete();
    case First => l.DLFirst();
    case Last => l.DLLast();
    case Succ => l.DLSucc();
    case Pred => l.DLPred();
    case Actualize(v) => l.DLActualize(v);
    case Dispose => l.DLDisposeList();
    case Copy(v) => err, val := l.DLCopy(v); a := Copied(err, val);
    case CopyFirst(v) => err, val := l.DLCopyFirst(v); a := Copied(err, val);
    case CopyLast(v) => err, val := l.DLCopyLast(v); a := Copied(err, val);
    case Active => active := l.DLActive(); a := Says(active);
  }

  lemma {:induction false} ObserveFacts(op: Op, d: DList)
    requires Proper(d)
    ensures op.InsertFirst? || op.InsertLast? ==> Observe(op, d) == Flag(!op.memory)
    ensures op.PreInsert? || op.PostInsert? ==> Observe(op, d) == Flag(!op.memory && d.cur >= 0)
    ensures op.Copy? ==> Observe(op, d) == Copied(d.cur < 0, if d.cur < 0 then op.v else d.vals[d.cur])
    ensures op.CopyFirst? ==> Observe(op, d) == Copied(d.vals == [], if d.vals == [] then op.v else d.vals[0])
    ensures op.CopyLast? ==> Observe(op, d) == Copied(d.vals == [], if d.vals == [] then op.v else d.vals[|d.vals| - 1])
    ensures op.Active? ==> Observe(op, d) == Says(d.cur >= 0)
    ensures op.Copy? || op.CopyFirst? || op.CopyLast? || op.Active? ==> Apply(op, d) == d
    ensures Observe(op, d) == Silent || op.InsertFirst? || op.InsertLast? || op.PreInsert? || op.PostInsert?
      || op.Copy? || op.CopyFirst? || op.CopyLast? || op.Active?
  {
  }

  lemma {:induction false} ApplyOne(ops: seq<Op>, i: nat, d: DList, out: seq<Answer>)
    requires i < |ops| && Proper(d)
    ensures ApplyAll(ops[i..], d) == ApplyAll(ops[i + 1..], Apply(ops[i], d))
    ensures (out + [Observe(ops[i], d)]) + Answers(ops[i + 1..], Apply(ops[i], d)) == out + Answers(ops[i..], d)
  {
    assert ops[i..][1..] == ops[i + 1..];
  }

  lemma {:induction false} ApplyNone(d: DList)
    requires Proper(d)
    ensures ApplyAll([], d) == d && Answers([], d) == []
  {
  }

  /**
   Any run of operations on an empty list is answered as it would be on plain sequences.  At its
   end, `ahead` are the values met from the cursor on, and `vals` those met from the start.
   */
  method Execute(ops: seq<Op>) returns (out: seq<Answer>, ahead: seq<int>, vals: seq<int>)
    ensures out == Answers(ops, DList([], -1))
    ensures var d := ApplyAll(ops, DList([], -1));
      vals == d.vals && ahead == From(d)
  {
    var l := new List.DLInitList();
    out := [];
    hide ApplyAll, Apply, Answers, Observe, l.Valid;
    assert ops[0..] == ops;
    for i := 0 to |ops|
      invariant fresh(l) && l.Valid() && fresh(l.elems) && Proper(l.View())
      invariant ApplyAll(ops[i..], l.View()) == ApplyAll(ops, DList([], -1))
      invariant out + Answers(ops[i..], l.View()) == Answers(ops, DList([], -1))
    {
      ApplyOne(ops, i, l.View(), out);
      ghost var before := l.elems;
      var a := Perform(l, ops[i]);
      forall k | 0 <= k < |l.elems|
        ensures fresh(l.elems[k])
      {
        assert l.elems[k] in before || l.elems[k] !in before;
      }
      out := out + [a];
    }
    assert ops[|ops|..] == [];
    ApplyNone(l.View());
    ahead := Ahead(l);
    vals := Listing(l);
  }

  /** The values from the cursor on. */
  function From(d: DList): seq<int>
    requires -1 <= d.cur < |d.vals|
  {
    if d.cur < 0 then [] else d.vals[d.cur..]
  }

  /** All that a walk that met `out` so far will have met. */
  function Met(out: seq<int>, d: DList): seq<int>
    requires -1 <= d.cur < |d.vals|
  {
    out + From(d)
  }

  lemma {:induction false} CursorStep(d: DList, out: seq<int>)
    requires Proper(d) && d.cur >= 0
    ensures var d' := Apply(Succ, d);
      && d'.vals == d.vals && d'.cur == (if d.cur + 1 < |d.vals| then d.cur + 1 else -1)
      && Met(out + [d.vals[d.cur]], d') == Met(out, d)
  {
  }

  lemma {:induction false} CursorStart(d: DList)
    requires Proper(d)
    ensures Apply(Op.First, d) == DList(d.vals, if d.vals == [] then -1 else 0)
    ensures From(Apply(Op.First, d)) == d.vals
  {
  }

  /** Walking over the list from the cursor on, until no element is active. */
  method Ahead(l: List) returns (vals: seq<int>)
    requires l.Valid()
    modifies l
    ensures l.Valid() && l.elems == old(l.elems) && l.View().vals == old(l.View().vals)
    ensures Proper(old(l.View())) && vals == From(old(l.View()))
  {
    vals := [];
    ghost var d := l.View();
    IsProper(l);
    CursorOff(d, []);
    hide l.Valid, l.View, Apply, From, Met;
    var active := l.DLActive();
    while active
      invariant l.Valid() && l.elems == old(l.elems) && l.View() == d && Proper(d)
      invariant d.vals == old(l.View().vals) && active == (d.cur >= 0) && Met(vals, d) == Met([], old(l.View()))
      decreases if active then |d.vals| - d.cur else 0
    {
      CursorStep(d, vals);
      var val;
      val, active := ReadOn(l);
      vals := vals + [val];
      d := l.View();
      IsProper(l);
    }
    CursorOff(d, vals);
  }

  /** The active value, and on to the next element. */
  method ReadOn(l: List) returns (val: int, active: bool)
    requires l.Valid() && l.View().cur >= 0
    modifies l
    ensures l.Valid() && l.elems == old(l.elems) && l.View() == Apply(Succ, old(l.View()))
    ensures val == old(l.View()).vals[old(l.View()).cur] && active == (l.View().cur >= 0)
  {
    IsProper(l);
    hide l.Valid, l.View, Apply;
    var err;
    err, val := l.DLCopy(0);
    l.DLSucc();
    active := l.DLActive();
  }

  lemma {:induction false} IsProper(l: List)
    requires l.Valid()
    ensures Proper(l.View())
  {
  }

  lemma {:induction false} CursorOff(d: DList, out: seq<int>)
    requires Proper(d)
    ensures d.cur < 0 ==> Met(out, d) == out
    ensures Met([], d) == From(d)
  {
  }

  /** Walking over the list from DLFirst on. */
  method Listing(l: List) returns (vals: seq<int>)
    requires l.Valid()
    modifies l
    ensures vals == old(l.View()).vals
  {
    CursorStart(l.View());
    hide l.Valid, l.View, Apply;
    l.DLFirst();
    vals := Ahead(l);
  }
}
