/**
 The chains of the two hash tables, sem_3/ial/proj_2/c016 and sem_2/ijc/proj_2: heap items,
 the cells that describe a chain of them, and the finite map that chains stand for.
 */
module Chains {
  import opened Options
  import opened Seqs

  /** struct tHTItem and struct htab_listitem.  `live` says that the item was allocated and not freed. */
  class Item {
    var key: string
    var data: int
    var next: Item?
    ghost var live: bool

    constructor (key: string, data: int)
      ensures this.key == key && this.data == data && next == null && live
    {
      this.key, this.data, next, live := key, data, null, true;
    }

    method Free()
      requires live
      modifies this
      ensures !live
    {
      key, data, next, live := *, *, *, false;
    }
  }

  datatype Cell = Cell(item: Item, key: string, data: int)

  function ItemAt(c: seq<Cell>, i: nat): Item? { if i < |c| then c[i].item else null }

  /** Item `i` of the chain is what its cell says, and leads to the next one. */
  ghost predicate Holds(c: seq<Cell>, i: nat)
    requires i < |c|
    reads c[i].item
  {
    c[i].item.live && c[i].item.key == c[i].key && c[i].item.data == c[i].data && c[i].item.next == ItemAt(c, i + 1)
  }

  ghost function ItemsOf(c: seq<Cell>): set<Item> { set x | x in c :: x.item }

  /** `p` leads to the chain of `c`. */
  ghost predicate Leads(p: Item?, c: seq<Cell>)
    reads ItemsOf(c)
  {
    p == ItemAt(c, 0) && forall i :: 0 <= i < |c| ==> Holds(c, i)
  }

  ghost predicate Differ(c: seq<Cell>, i: nat, j: nat)
    requires i < |c| && j < |c|
  {
    c[i].key != c[j].key
  }

  /** No key is in the chain twice. */
  ghost predicate Distinct(c: seq<Cell>) {
    forall i, j :: 0 <= i < j < |c| ==> Differ(c, i, j)
  }

  // ---------- the map of a chain ----------

  function Find(c: seq<Cell>, k: string): Option<int> {
    if |c| == 0 then None else if c[0].key == k then Some(c[0].data) else Find(c[1..], k)
  }

  /** Where a key is decides what is found. */
  lemma {:induction false} FindAt(c: seq<Cell>, i: nat)
    requires i < |c| && Distinct(c)
    ensures Find(c, c[i].key) == Some(c[i].data)
  {
    if i > 0 {
      assert Differ(c, 0, i);
      DistinctTail(c);
      FindAt(c[1..], i - 1);
    }
  }

  lemma {:induction false} DistinctTail(c: seq<Cell>)
    requires Distinct(c) && |c| > 0
    ensures Distinct(c[1..])
  {
    forall i, j | 0 <= i < j < |c| - 1
      ensures Differ(c[1..], i, j)
    {
      assert Differ(c, i + 1, j + 1);
    }
  }

  lemma {:induction false} FindNone(c: seq<Cell>, k: string)
    requires forall i :: 0 <= i < |c| ==> c[i].key != k
    ensures Find(c, k) == None
  {
    if |c| > 0 {
      FindNone(c[1..], k);
    }
  }

  lemma {:induction false} FindAppend(a: seq<Cell>, b: seq<Cell>, k: string)
    ensures Find(a + b, k) == if Find(a, k) == None then Find(b, k) else Find(a, k)
  {
    if |a| == 0 {
      assert a + b == b;
    } else {
      assert (a + b)[1..] == a[1..] + b;
      FindAppend(a[1..], b, k);
    }
  }

  // ---------- what the operations make of a chain ----------

  /** Entry `k` of the map becomes `v`. */
  ghost predicate Sets(c: seq<Cell>, c': seq<Cell>, k: string, v: Option<int>) {
    forall x: string :: Find(c', x) == if x == k then v else Find(c, x)
  }

  lemma {:induction false} ParallelFind(c: seq<Cell>, d: seq<Cell>, k: string)
    requires |c| == |d| && forall i :: 0 <= i < |c| ==> c[i].key == d[i].key && (c[i].key == k || c[i] == d[i])
    ensures forall x: string :: x != k ==> Find(c, x) == Find(d, x)
  {
    if |c| > 0 {
      ParallelFind(c[1..], d[1..], k);
    }
  }

  lemma {:induction false} Updated(c: seq<Cell>, i: nat, v: int)
    requires i < |c| && Distinct(c)
    ensures var c' := c[i := c[i].(data := v)]; Distinct(c') && Sets(c, c', c[i].key, Some(v))
  {
    var c' := c[i := c[i].(data := v)];
    forall a, b | 0 <= a < b < |c|
      ensures Differ(c', a, b)
    {
      assert Differ(c, a, b);
    }
    FindAt(c', i);
    ParallelFind(c, c', c[i].key);
  }

  lemma {:induction false} Prepended(c: seq<Cell>, x: Cell)
    requires Distinct(c) && forall i :: 0 <= i < |c| ==> c[i].key != x.key
    ensures Distinct([x] + c) && Sets(c, [x] + c, x.key, Some(x.data))
  {
    var c' := [x] + c;
    forall a, b | 0 <= a < b < |c'|
      ensures Differ(c', a, b)
    {
      if a > 0 {
        assert Differ(c, a - 1, b - 1);
      }
    }
    assert c'[1..] == c;
  }

  lemma {:induction false} Appended(c: seq<Cell>, x: Cell)
    requires Distinct(c) && forall i :: 0 <= i < |c| ==> c[i].key != x.key
    ensures Distinct(c + [x]) && Sets(c, c + [x], x.key, Some(x.data))
  {
    var c' := c + [x];
    forall a, b | 0 <= a < b < |c'|
      ensures Differ(c', a, b)
    {
      if b < |c| {
        assert Differ(c, a, b);
      }
    }
    forall k: string
      ensures Find(c', k) == if k == x.key then Some(x.data) else Find(c, k)
    {
      FindAppend(c, [x], k);
      FindNone(c, x.key);
      assert [x][1..] == [];
    }
  }

  lemma {:induction false} Removed(c: seq<Cell>, i: nat)
    requires i < |c| && Distinct(c)
    ensures Distinct(RemoveAt(c, i)) && Sets(c, RemoveAt(c, i), c[i].key, None)
  {
    var c' := RemoveAt(c, i);
    forall a, b | 0 <= a < b < |c'|
      ensures Differ(c', a, b)
    {
      assert Differ(c, if a < i then a else a + 1, if b < i then b else b + 1);
    }
    forall j | 0 <= j < |c'|
      ensures c'[j].key != c[i].key
    {
      if j < i {
        assert Differ(c, j, i);
      } else {
        assert Differ(c, i, j + 1);
      }
    }
    FindNone(c', c[i].key);
    forall k: string | k != c[i].key
      ensures Find(c', k) == Find(c, k)
    {
      FindAppend(c[..i], c[i + 1..], k);
      FindAppend(c[..i], c[i..], k);
      assert c == c[..i] + c[i..] && c[i..][1..] == c[i + 1..];
    }
  }

  // ---------- tables ----------

  /** hashCode of c016.c, for keys of non-negative characters, and htab_hash_function. */
  datatype Hash = Sum | Poly

  function SumOf(key: string): nat {
    if |key| == 0 then 1 else SumOf(key[..|key| - 1]) + key[|key| - 1] as nat
  }

  const M32 := 0x1_0000_0000

  function NextHash(h: nat, c: nat): nat { (65599 * h + c) % M32 }

  function PolyOf(key: string): nat {
    if |key| == 0 then 0 else NextHash(PolyOf(key[..|key| - 1]), key[|key| - 1] as nat)
  }

  function Power(n: nat): nat { if n == 0 then 1 else 65599 * Power(n - 1) }

  /** The sum of the characters, and one: the order of the characters makes no difference. */
  lemma {:induction false} SumOfParts(a: string, b: string)
    ensures SumOf(a + b) == SumOf(b + a) == SumOf(a) + SumOf(b) - 1
    decreases |a| + |b|
  {
    if a != [] && b != [] {
      var m, n := |a| - 1, |b| - 1;
      assert (a + b)[..|a| + n] == a + b[..n] && (b + a)[..|b| + m] == b + a[..m];
      SumOfParts(a, b[..n]);
      SumOfParts(a[..m], b);
    } else {
      assert a + b == b + a == if a == [] then b else a;
    }
  }

  /** The hash code of two parts, from theirs: that of the first is moved on by the length of the second. */
  function Joined(p: nat, n: nat, q: nat): nat { (p * Power(n) + q) % M32 }

  /** The characters are the digits of the hash code to the base 65599, modulo 2^32. */
  lemma {:induction false} PolyOfParts(a: string, b: string)
    ensures PolyOf(a + b) == Joined(PolyOf(a), |b|, PolyOf(b)) && PolyOf(b) < M32
  {
    if b == [] {
      assert a + b == a;
      PolyFits(a);
    } else {
      var n := |b| - 1;
      assert (a + b)[..|a| + n] == a + b[..n] && (a + b)[|a| + n] == b[n];
      assert PolyOf(a + b) == NextHash(PolyOf(a + b[..n]), b[n] as nat);
      assert PolyOf(b) == NextHash(PolyOf(b[..n]), b[n] as nat);
      hide PolyOf, Joined;
      PolyOfParts(a, b[..n]);
      Horner(PolyOf(a), n, PolyOf(b[..n]), b[n] as nat);
      hide NextHash;
    }
  }

  lemma {:induction false} Horner(p: nat, n: nat, q: nat, c: nat)
    ensures NextHash(Joined(p, n, q), c) == Joined(p, n + 1, NextHash(q, c)) && NextHash(q, c) < M32
  {
    var w := Power(n);
    NextDigit(p * w + q, c);
    assert 65599 * (p * w + q) + c == p * (65599 * w) + (65599 * q + c);
    AddModulo(p * (65599 * w), 65599 * q + c);
  }

  lemma {:induction false} PolyFits(a: string)
    ensures PolyOf(a) < M32
  {
  }

  lemma {:induction false} AddModulo(x: nat, y: nat)
    ensures (x + y % M32) % M32 == (x + y) % M32
  {
    assert y == y % M32 + M32 * (y / M32);
    Multiple(x + y % M32, y / M32);
  }

  lemma {:induction false} NextDigit(x: nat, c: nat)
    ensures (65599 * (x % M32) + c) % M32 == (65599 * x + c) % M32
  {
    assert x == x % M32 + M32 * (x / M32);
    Multiple(65599 * (x % M32) + c, 65599 * (x / M32));
  }

  lemma {:induction false} Multiple(x: nat, k: nat)
    ensures (x + M32 * k) % M32 == x % M32
  {
    if k > 0 {
      Multiple(x, k - 1);
      assert x + M32 * k == (x + M32 * (k - 1)) + M32;
    }
  }

  function Index(h: Hash, key: string, n: nat): (b: nat)
    requires n > 0
    ensures b < n
  {
    match h
    case Sum => SumOf(key) % n
    case Poly => PolyOf(key) % n
  }

  ghost function Items(chains: seq<seq<Cell>>): set<Item> {
    set c, x | c in chains && x in c :: x.item
  }

  /** The heads lead to the chains. */
  ghost predicate Headed(a: seq<Item?>, chains: seq<seq<Cell>>)
    reads Items(chains)
  {
    |chains| <= |a| && forall b :: 0 <= b < |chains| ==> Leads(a[b], chains[b])
  }

  lemma {:induction false} ItemsAllocated(c: seq<Cell>)
    ensures allocated(ItemsOf(c))
  {
  }

  lemma {:induction false} ChainsAllocated(chains: seq<seq<Cell>>)
    ensures forall b :: 0 <= b < |chains| ==> allocated(ItemsOf(chains[b]))
  {
    forall b | 0 <= b < |chains|
      ensures allocated(ItemsOf(chains[b]))
    {
      ItemsAllocated(chains[b]);
    }
  }

  lemma {:induction false} ChainItems(chains: seq<seq<Cell>>, b: nat)
    requires b < |chains|
    ensures ItemsOf(chains[b]) <= Items(chains)
  {
  }

  /** An item is in one chain, and there once. */
  lemma {:induction false} ChainsApart(h: Hash, a: seq<Item?>, chains: seq<seq<Cell>>, m: map<string, int>, b: nat,
                                       d: nat)
    requires Represents(h, chains, m) && Headed(a, chains) && b < |chains| && d < |chains| && b != d
    ensures ItemsOf(chains[b]) !! ItemsOf(chains[d])
  {
    assert Leads(a[b], chains[b]) && Leads(a[d], chains[d]);
    forall it | it in ItemsOf(chains[b])
      ensures it !in ItemsOf(chains[d])
    {
      ItemIndex(h, a[b], chains[b], b, |chains|, it);
      if it in ItemsOf(chains[d]) {
        ItemIndex(h, a[d], chains[d], d, |chains|, it);
      }
    }
  }

  lemma {:induction false} ItemIndex(h: Hash, p: Item?, c: seq<Cell>, b: nat, n: nat, it: Item)
    requires n > 0 && Leads(p, c) && Hashed(h, c, b, n) && it in ItemsOf(c)
    ensures Index(h, it.key, n) == b
  {
    var x :| x in c && x.item == it;
    var i :| 0 <= i < |c| && c[i] == x;
    assert Holds(c, i);
  }

  lemma {:induction false} CellsApart(p: Item?, c: seq<Cell>, i: nat, j: nat)
    requires Leads(p, c) && Distinct(c) && i < |c| && j < |c| && i != j
    ensures c[i].item != c[j].item
  {
    assert Holds(c, i) && Holds(c, j);
    if i < j {
      assert Differ(c, i, j);
    } else {
      assert Differ(c, j, i);
    }
  }

  /** The keys of chain `b` belong there. */
  ghost predicate Hashed(h: Hash, c: seq<Cell>, b: nat, n: nat)
    requires n > 0
  {
    forall i :: 0 <= i < |c| ==> Index(h, c[i].key, n) == b
  }

  ghost predicate Agrees(h: Hash, chains: seq<seq<Cell>>, m: map<string, int>, k: string)
    requires |chains| > 0
  {
    Lookup(m, k) == Find(chains[Index(h, k, |chains|)], k)
  }

  /** The chains, taken together, stand for the map `m`. */
  ghost predicate Represents(h: Hash, chains: seq<seq<Cell>>, m: map<string, int>) {
    && |chains| > 0
    && (forall b :: 0 <= b < |chains| ==> Distinct(chains[b]) && Hashed(h, chains[b], b, |chains|))
    && (forall k: string :: Agrees(h, chains, m, k))
  }

  function With(m: map<string, int>, k: string, v: Option<int>): map<string, int> {
    match v
    case None => m - {k}
    case Some(x) => m[k := x]
  }

  /** An operation on the chain of `k` is one on the entry of `k`. */
  lemma {:induction false} OneChain(h: Hash, chains: seq<seq<Cell>>, m: map<string, int>, k: string, v: Option<int>,
                                    c: seq<Cell>)
    requires Represents(h, chains, m)
    requires var b := Index(h, k, |chains|); Sets(chains[b], c, k, v) && Distinct(c) && Hashed(h, c, b, |chains|)
    ensures Represents(h, chains[Index(h, k, |chains|) := c], With(m, k, v))
  {
    var b := Index(h, k, |chains|);
    var chains' := chains[b := c];
    hide Index, Find, Distinct, Hashed;
    forall x: string
      ensures Agrees(h, chains', With(m, k, v), x)
    {
      assert Agrees(h, chains, m, x);
    }
  }

  /** What the map has for a key is what its chain has. */
  lemma {:induction false} ChainEntry(h: Hash, chains: seq<seq<Cell>>, m: map<string, int>, k: string)
    requires Represents(h, chains, m)
    ensures Lookup(m, k) == Find(chains[Index(h, k, |chains|)], k)
  {
    assert Agrees(h, chains, m, k);
    hide Represents, Index, Find;
  }

  /** A cell in the chain of its key is the entry of that key. */
  lemma {:induction false} CellEntry(h: Hash, chains: seq<seq<Cell>>, m: map<string, int>, k: string, i: nat)
    requires Represents(h, chains, m)
    requires var c := chains[Index(h, k, |chains|)]; i < |c| && c[i].key == k
    ensures k in m && m[k] == chains[Index(h, k, |chains|)][i].data
  {
    var b := Index(h, k, |chains|);
    assert Distinct(chains[b]) && Agrees(h, chains, m, k);
    FindAt(chains[b], i);
    hide Represents, Distinct, Index, Find;
  }

  /** Chain `b` shares no item with another. */
  lemma {:induction false} Isolated(h: Hash, a: seq<Item?>, chains: seq<seq<Cell>>, m: map<string, int>, b: nat)
    requires Represents(h, chains, m) && Headed(a, chains) && b < |chains|
    ensures Leads(a[b], chains[b]) && Distinct(chains[b]) && Hashed(h, chains[b], b, |chains|)
    ensures ItemsOf(chains[b]) <= Items(chains) && allocated(ItemsOf(chains[b])) && allocated(Items(chains))
    ensures forall d :: 0 <= d < |chains| && d != b ==>
      && Leads(a[d], chains[d]) && ItemsOf(chains[b]) !! ItemsOf(chains[d]) && allocated(ItemsOf(chains[d]))
  {
    forall d | 0 <= d < |chains|
      ensures Leads(a[d], chains[d]) && ItemsOf(chains[d]) <= Items(chains) && allocated(ItemsOf(chains[d]))
      ensures d != b ==> ItemsOf(chains[b]) !! ItemsOf(chains[d])
    {
      ChainItems(chains, d);
      ItemsAllocated(chains[d]);
      if d != b {
        ChainsApart(h, a, chains, m, b, d);
      }
    }
  }

  lemma {:induction false} EmptyTable(h: Hash, a: seq<Item?>, n: nat)
    requires 0 < n <= |a| && forall b :: 0 <= b < n ==> a[b] == null
    ensures Represents(h, seq(n, _ => []), map[]) && Headed(a, seq(n, _ => []))
  {
  }

  /** The heads after chain `b` became `c`. */
  lemma {:induction false} Rejoined(a: seq<Item?>, chains: seq<seq<Cell>>, b: nat, c: seq<Cell>)
    requires b < |chains| <= |a| && Leads(a[b], c)
    requires forall d :: 0 <= d < |chains| && d != b ==> Leads(a[d], chains[d])
    ensures Headed(a, chains[b := c])
    ensures Items(chains[b := c]) <= Items(chains) + ItemsOf(c)
  {
    hide Leads;
    var chains' := chains[b := c];
    forall it | it in Items(chains')
      ensures it in Items(chains) + ItemsOf(c)
    {
      var d, x :| d in chains' && x in d && x.item == it;
      assert d == c || d in chains;
    }
  }

  lemma {:induction false} OtherCells(p: Item?, c: seq<Cell>, i: nat)
    requires Leads(p, c) && Distinct(c) && i < |c|
    ensures forall j :: 0 <= j < |c| && j != i ==> c[j].item != c[i].item
    ensures c[i].item in ItemsOf(c) && forall j :: 0 <= j < |c| ==> Holds(c, j)
  {
    forall j | 0 <= j < |c| && j != i
      ensures c[j].item != c[i].item
    {
      CellsApart(p, c, i, j);
    }
    assert c[i] in c;
  }

  lemma {:induction false} LeadsTo(p: Item?, c: seq<Cell>)
    requires p == ItemAt(c, 0) && forall i :: 0 <= i < |c| ==> Holds(c, i)
    ensures Leads(p, c)
  {
  }

  /** A new item leads to the chain behind it. */
  lemma {:induction false} LeadsMore(p: Item?, c: seq<Cell>, x: Cell)
    requires Leads(p, c) && x.item.live && x.item.key == x.key && x.item.data == x.data && x.item.next == p
    ensures Leads(x.item, [x] + c)
  {
    LeadsFrom(p, c);
    hide Leads;
    var c' := [x] + c;
    forall j | 0 <= j < |c'|
      ensures Holds(c', j)
    {
      if j > 0 {
        assert Holds(c, j - 1);
      }
    }
    LeadsTo(x.item, c');
  }

  lemma {:induction false} LeadsFrom(p: Item?, c: seq<Cell>)
    requires Leads(p, c)
    ensures p == ItemAt(c, 0) && forall i :: 0 <= i < |c| ==> Holds(c, i)
  {
  }

  lemma {:induction false} CellAt(p: Item?, c: seq<Cell>, i: nat)
    requires Leads(p, c) && i < |c|
    ensures c[i].item.key == c[i].key && c[i].item.data == c[i].data
  {
    assert Holds(c, i);
  }

  lemma {:induction false} HashedMore(h: Hash, c: seq<Cell>, c': seq<Cell>, b: nat, n: nat)
    requires n > 0 && Hashed(h, c, b, n) && forall x :: x in c' ==> x in c || Index(h, x.key, n) == b
    ensures Hashed(h, c', b, n)
  {
    hide Index;
    forall i | 0 <= i < |c'|
      ensures Index(h, c'[i].key, n) == b
    {
      assert c'[i] in c';
    }
  }

  lemma {:induction false} RemovedIn(c: seq<Cell>, i: nat)
    requires i < |c|
    ensures forall x :: x in RemoveAt(c, i) ==> x in c
    ensures ItemsOf(RemoveAt(c, i)) <= ItemsOf(c)
  {
  }

  /** Freeing the items of a chain one after the other: each once, and none read afterwards. */
  method FreeChain(p: Item?, ghost c: seq<Cell>)
    requires Leads(p, c) && Distinct(c)
    modifies ItemsOf(c)
    ensures forall it :: it in ItemsOf(c) ==> !it.live
  {
    var next := p;
    ghost var j: nat := 0;
    LeadsFrom(p, c);
    AllCellsApart(p, c);
    hide Leads, Distinct;
    while next != null
      invariant j <= |c| && next == ItemAt(c, j)
      invariant forall t :: j <= t < |c| ==> Holds(c, t)
      invariant forall t :: 0 <= t < j ==> !c[t].item.live
      decreases |c| - j
    {
      assert Holds(c, j) && c[j] in c;
      forall t | j < t < |c|
        ensures c[t].item != c[j].item
      {
        assert ItemsDiffer(c, j, t);
      }
      var tmp := next;
      next := tmp.next;
      tmp.Free();
      j := j + 1;
    }
  }

  ghost predicate ItemsDiffer(c: seq<Cell>, i: nat, j: nat)
    requires i < |c| && j < |c|
  {
    c[i].item != c[j].item
  }

  lemma {:induction false} AllCellsApart(p: Item?, c: seq<Cell>)
    requires Leads(p, c) && Distinct(c)
    ensures forall i, j :: 0 <= i < j < |c| ==> ItemsDiffer(c, i, j)
  {
    forall i, j | 0 <= i < j < |c|
      ensures ItemsDiffer(c, i, j)
    {
      CellsApart(p, c, i, j);
    }
  }

  ghost predicate ChainsDiffer(chains: seq<seq<Cell>>, b: nat, d: nat)
    requires b < |chains| && d < |chains|
  {
    ItemsOf(chains[b]) !! ItemsOf(chains[d])
  }

  lemma {:induction false} DifferentChains(chains: seq<seq<Cell>>, b: nat, d: nat)
    requires b < |chains| && d < |chains| && ChainsDiffer(chains, b, d)
    ensures ItemsOf(chains[b]) !! ItemsOf(chains[d])
  {
  }

  lemma {:induction false} AllChainsApart(h: Hash, a: seq<Item?>, chains: seq<seq<Cell>>, m: map<string, int>)
    requires Represents(h, chains, m) && Headed(a, chains)
    ensures forall b, d :: 0 <= b < |chains| && 0 <= d < |chains| && b != d ==> ChainsDiffer(chains, b, d)
    ensures forall b :: 0 <= b < |chains| ==>
      && Leads(a[b], chains[b]) && Distinct(chains[b])
      && ItemsOf(chains[b]) <= Items(chains) && allocated(ItemsOf(chains[b]))
  {
    forall b | 0 <= b < |chains|
      ensures Leads(a[b], chains[b]) && ItemsOf(chains[b]) <= Items(chains) && allocated(ItemsOf(chains[b]))
    {
      ChainItems(chains, b);
      ItemsAllocated(chains[b]);
    }
    forall b, d | 0 <= b < |chains| && 0 <= d < |chains| && b != d
      ensures ChainsDiffer(chains, b, d)
    {
      ChainsApart(h, a, chains, m, b, d);
    }
  }

  /** All that holds once the chain of `k` became `c` and its head is set. */
  lemma {:induction false} Exchanged(h: Hash, a: seq<Item?>, chains: seq<seq<Cell>>, m: map<string, int>,
                                     k: string, v: Option<int>, b: nat, c: seq<Cell>)
    requires Represents(h, chains, m) && |chains| <= |a| && b == Index(h, k, |chains|)
    requires Distinct(c) && Sets(chains[b], c, k, v)
    requires forall x :: x in c ==> x in chains[b] || x.key == k
    requires Leads(a[b], c) && forall d :: 0 <= d < |chains| && d != b ==> Leads(a[d], chains[d])
    ensures Represents(h, chains[b := c], With(m, k, v)) && Headed(a, chains[b := c])
    ensures ItemsOf(c) <= Items(chains[b := c]) <= Items(chains) + ItemsOf(c)
  {
    HashedMore(h, chains[b], c, b, |chains|);
    OneChain(h, chains, m, k, v, c);
    Rejoined(a, chains, b, c);
    ChainItems(chains[b := c], b);
  }

  lemma {:induction false} UpdatedItems(c: seq<Cell>, i: nat, v: int)
    requires i < |c|
    ensures var c' := c[i := c[i].(data := v)];
      ItemsOf(c') == ItemsOf(c) && forall x :: x in c' ==> x in c || x.key == c[i].key
  {
    var c' := c[i := c[i].(data := v)];
    assert forall j :: 0 <= j < |c| ==> c'[j].item == c[j].item && c[j] in c && c'[j] in c';
  }

  lemma {:induction false} AppendedItems(c: seq<Cell>, x: Cell)
    ensures ItemsOf(c + [x]) == ItemsOf(c) + {x.item} && forall y :: y in c + [x] ==> y in c || y == x
  {
    assert x in c + [x];
  }

  lemma {:induction false} PrependedItems(c: seq<Cell>, x: Cell)
    ensures ItemsOf([x] + c) == ItemsOf(c) + {x.item} && forall y :: y in [x] + c ==> y in c || y == x
  {
    assert x in [x] + c;
  }

  lemma {:induction false} CellItem(c: seq<Cell>, i: nat)
    requires i < |c|
    ensures c[i].item in ItemsOf(c)
  {
    assert c[i] in c;
  }

  /** The walk along a chain: to the item of `key`, or past the last one; `prev` is the item passed last. */
  method Locate(p: Item?, key: string, ghost c: seq<Cell>) returns (tmp: Item?, prev: Item?, ghost i: nat)
    requires Leads(p, c) && Distinct(c)
    ensures i <= |c| && tmp == ItemAt(c, i) && prev == if i == 0 then null else c[i - 1].item
    ensures forall j :: 0 <= j < i ==> c[j].key != key
    ensures tmp != null ==> c[i].key == key && Holds(c, i) && Find(c, key) == Some(c[i].data)
    ensures tmp == null ==> i == |c| && Find(c, key) == None
  {
    LeadsFrom(p, c);
    hide Leads, Distinct, Find;
    tmp, prev, i := p, null, 0;
    while tmp != null
      invariant i <= |c| && tmp == ItemAt(c, i) && prev == if i == 0 then null else c[i - 1].item
      invariant forall j :: 0 <= j < i ==> c[j].key != key
      decreases |c| - i
    {
      assert Holds(c, i);
      if tmp.key == key {
        FindAt(c, i);
        return;
      }
      prev := tmp;
      tmp := tmp.next;
      i := i + 1;
    }
    FindNone(c, key);
  }

  // ---------- changing a chain in place; each returns the new head ----------

  /** The item found gets new data. */
  method SetData(ghost p: Item?, tmp: Item, data: int, ghost c: seq<Cell>, ghost i: nat)
    requires Leads(p, c) && Distinct(c) && i < |c| && tmp == c[i].item
    modifies tmp`data
    ensures Leads(p, c[i := c[i].(data := data)]) && tmp.data == data
  {
    OtherCells(p, c, i);
    LeadsFrom(p, c);
    hide Leads, Distinct;
    tmp.data := data;
    ghost var c' := c[i := c[i].(data := data)];
    forall j | 0 <= j < |c|
      ensures Holds(c', j)
    {
      assert old(Holds(c, j));
    }
    LeadsTo(p, c');
  }

  /** The item found leaves the chain and is freed. */
  method Unlink(p: Item?, prev: Item?, tmp: Item, ghost c: seq<Cell>, ghost i: nat) returns (p': Item?)
    requires Leads(p, c) && Distinct(c) && i < |c| && tmp == c[i].item
    requires prev == if i == 0 then null else c[i - 1].item
    modifies ItemsOf(c)
    ensures Leads(p', RemoveAt(c, i)) && !tmp.live
  {
    OtherCells(p, c, i);
    LeadsFrom(p, c);
    p' := p;
    assert Holds(c, i);
    if prev != null {
      OtherCells(p, c, i - 1);
      assert c[i - 1].item != c[i].item;
    }
    hide Leads, Distinct;
    if prev != null {
      prev.next := tmp.next;
    } else {
      p' := tmp.next;
    }
    tmp.Free();
    ghost var c' := RemoveAt(c, i);
    forall j | 0 <= j < |c'|
      ensures Holds(c', j)
    {
      assert old(Holds(c, if j < i then j else j + 1));
    }
    LeadsTo(p', c');
  }

  /** A new item in front of the chain. */
  method Prepend(p: Item?, key: string, data: int, ghost c: seq<Cell>) returns (tmp: Item)
    requires Leads(p, c)
    ensures fresh(tmp) && Leads(tmp, [Cell(tmp, key, data)] + c) && Leads(p, c)
  {
    ItemsAllocated(c);
    hide Leads, ItemsOf;
    tmp := new Item(key, data);
    if p != null {
      tmp.next := p;
    }
    LeadsMore(p, c, Cell(tmp, key, data));
  }

  /** A new item becomes the last one. */
  method Append(p: Item?, last: Item?, item: Item, ghost c: seq<Cell>, ghost x: Cell) returns (p': Item?)
    requires Leads(p, c) && Distinct(c) && last == if |c| == 0 then null else c[|c| - 1].item
    requires x.item == item && item !in ItemsOf(c) && item.live
    requires item.key == x.key && item.data == x.data && item.next == null
    modifies ItemsOf(c)
    ensures Leads(p', c + [x])
  {
    LeadsFrom(p, c);
    p' := p;
    if last != null {
      OtherCells(p, c, |c| - 1);
    }
    CellItems(c);
    hide Leads, Distinct, ItemsOf;
    if last == null {
      p' := item;
    } else {
      last.next := item;
    }
    ghost var c' := c + [x];
    forall j | 0 <= j < |c'|
      ensures Holds(c', j)
    {
      if j < |c| {
        assert old(Holds(c, j));
      }
    }
    LeadsTo(p', c');
  }

  lemma {:induction false} CellItems(c: seq<Cell>)
    ensures forall i :: 0 <= i < |c| ==> c[i].item in ItemsOf(c)
  {
    forall i | 0 <= i < |c|
      ensures c[i].item in ItemsOf(c)
    {
      CellItem(c, i);
    }
  }
}
