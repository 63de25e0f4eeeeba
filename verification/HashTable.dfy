/** sem_3/ial/proj_2/c016: a table of fixed size with chained synonyms. */
module HashTable {
  import opened Options
  import opened Seqs
  import opened Chains

  const MAX_HTSIZE: nat := 101

  /** tHTable; `HTSIZE` of its cells are used. */
  class HTable {
    const HTSIZE: nat
    const cells: array<Item?>
    ghost var chains: seq<seq<Cell>>
    ghost var m: map<string, int>

    ghost predicate Valid()
      reads this, cells, Items(chains)
    {
      && cells.Length == MAX_HTSIZE && 0 < |chains| == HTSIZE <= MAX_HTSIZE
      && Represents(Sum, chains, m) && Headed(cells[..], chains)
    }

    function Bucket(key: string): (b: nat)
      requires HTSIZE > 0
    {
      Index(Sum, key, HTSIZE)
    }

    /** htInit */
    constructor htInit(htsize: nat)
      requires 0 < htsize <= MAX_HTSIZE
      ensures Valid() && HTSIZE == htsize && m == map[] && fresh(cells) && chains == seq(htsize, _ => [])
    {
      HTSIZE := htsize;
      cells := new Item?[MAX_HTSIZE](_ => null);
      chains := seq(htsize, _ => []);
      m := map[];
      new;
      EmptyTable(Sum, cells[..], htsize);
    }

    /** htSearch */
    method htSearch(key: string) returns (p: Item?, ghost i: nat)
      requires Valid()
      ensures Valid() && (p == null <==> key !in m)
      ensures p == null ==> forall j :: 0 <= j < |chains[Bucket(key)]| ==> chains[Bucket(key)][j].key != key
      ensures p != null ==>
        && i < |chains[Bucket(key)]| && chains[Bucket(key)][i].item == p && chains[Bucket(key)][i].key == key == p.key
        && p.data == m[key]
    {
      hide Represents, Headed, Leads, Distinct, Sets, Items, ItemsOf, Index, Find;
      var index := Bucket(key);
      Isolated(Sum, cells[..], chains, m, index);
      ChainEntry(Sum, chains, m, key);
      var prev: Item?;
      p, prev, i := Locate(cells[index], key, chains[index]);
    }

    /** The chain of `key` has become that of `c`, and starts at `p`. */
    method SetHead(index: nat, p: Item?, ghost key: string, ghost v: Option<int>, ghost c: seq<Cell>)
      requires cells.Length == MAX_HTSIZE && |chains| == HTSIZE <= MAX_HTSIZE && Represents(Sum, chains, m)
      requires index == Bucket(key) && Distinct(c) && Sets(chains[index], c, key, v)
      requires forall x :: x in c ==> x in chains[index] || x.key == key
      requires Leads(p, c) && forall d :: 0 <= d < HTSIZE && d != index ==> Leads(cells[d], chains[d])
      modifies this, cells
      ensures Valid() && m == With(old(m), key, v) && chains == old(chains)[index := c]
      ensures Items(chains) <= old(Items(chains)) + ItemsOf(c)
    {
      hide Represents, Headed, Leads, Distinct, Sets, Items, ItemsOf, Index, With;
      ItemsAllocated(c);
      ChainsAllocated(chains);
      ghost var s, m0 := chains, m;
      cells[index] := p;
      chains, m := s[index := c], With(m, key, v);
      Exchanged(Sum, cells[..], s, m0, key, v, index, c);
    }

    /** htInsert 114-115: the item of the key gets new data. */
    method Update(p: Item, key: string, data: int, ghost i: nat)
      requires Valid() && i < |chains[Bucket(key)]|
      requires chains[Bucket(key)][i].item == p && chains[Bucket(key)][i].key == key
      modifies this, Items(chains)
      ensures Valid() && m == old(m)[key := data] && Items(chains) <= old(Items(chains))
    {
      ghost var index, s, m' := Bucket(key), chains, m[key := data];
      ghost var c := s[index];
      ghost var c' := c[i := c[i].(data := data)];
      Isolated(Sum, cells[..], s, m, index);
      hide Represents, Headed, Leads, Distinct, Sets, Items, ItemsOf, Index, Find;
      Updated(c, i, data);
      UpdatedItems(c, i, data);
      CellItem(c, i);
      SetData(cells[index], p, data, c, i);
      Exchanged(Sum, cells[..], s, m, key, Some(data), index, c');
      chains, m := s[index := c'], m';
    }

    /** htInsert 118-133: a new item becomes the first of its chain. */
    method InsertFirst(key: string, data: int)
      requires Valid() && key !in m
      requires forall j :: 0 <= j < |chains[Bucket(key)]| ==> chains[Bucket(key)][j].key != key
      modifies this, cells
      ensures Valid() && m == old(m)[key := data]
      ensures fresh(Items(chains) - old(Items(chains)))
    {
      var index := Bucket(key);
      ghost var c := chains[index];
      Isolated(Sum, cells[..], chains, m, index);
      hide Represents, Headed, Leads, Distinct, Sets, Items, ItemsOf, Index, Find;
      var tmp := Prepend(cells[index], key, data, c);
      ghost var x := Cell(tmp, key, data);
      Prepended(c, x);
      PrependedItems(c, x);
      SetHead(index, tmp, key, Some(data), [x] + c);
    }

    /** htInsert; `memory` says whether the allocator has room for an item and its key. */
    method htInsert(key: string, data: int, memory: bool)
      requires Valid()
      modifies this, cells, Items(chains)
      ensures Valid() && m == if key in old(m) || memory then old(m)[key := data] else old(m)
      ensures fresh(Items(chains) - old(Items(chains)))
    {
      var p, i := htSearch(key);
      hide Valid, Items;
      if p != null {
        Update(p, key, data, i);
      } else if memory {
        InsertFirst(key, data);
      }
    }

    /** htRead */
    method htRead(key: string) returns (data: Option<int>)
      requires Valid()
      ensures data == Lookup(m, key)
    {
      var p, i := htSearch(key);
      data := if p == null then None else Some(p.data);
    }

    /** htDelete */
    method htDelete(key: string)
      requires Valid()
      modifies this, cells, Items(chains)
      ensures Valid() && m == old(m) - {key}
      ensures Items(chains) <= old(Items(chains))
    {
      hide Represents, Headed, Leads, Distinct, Sets, Items, ItemsOf, Index, Find;
      var index := Bucket(key);
      ghost var c := chains[index];
      Isolated(Sum, cells[..], chains, m, index);
      ChainEntry(Sum, chains, m, key);
      ghost var i: nat;
      var tmp, prev: Item?;
      tmp, prev, i := Locate(cells[index], key, c);
      if tmp == null {
        return;
      }
      ghost var c' := RemoveAt(c, i);
      Removed(c, i);
      RemovedIn(c, i);
      hide RemoveAt;
      var p := Unlink(cells[index], prev, tmp, c, i);
      SetHead(index, p, key, None, c');
    }

    /** htClearAll: every item is freed, and none twice. */
    method htClearAll()
      requires Valid()
      modifies this, cells, Items(chains)
      ensures Valid() && m == map[] && Items(chains) == {}
      ensures forall b, it :: 0 <= b < |old(chains)| && it in ItemsOf(old(chains)[b]) ==> !it.live
    {
      hide Represents, Headed, Leads, Distinct, Hashed, Items, ItemsOf, ChainsDiffer;
      ghost var s := chains;
      AllChainsApart(Sum, cells[..], s, m);
      for i := 0 to HTSIZE
        invariant forall b :: 0 <= b < i ==> cells[b] == null
        invariant forall b, it :: 0 <= b < i && it in ItemsOf(s[b]) ==> !it.live
        invariant forall b :: i <= b < HTSIZE ==> Leads(cells[b], s[b])
        invariant chains == s && unchanged(this)
      {
        forall d | i < d < HTSIZE
          ensures ItemsOf(s[i]) !! ItemsOf(s[d]) && allocated(ItemsOf(s[d]))
        {
          DifferentChains(s, i, d);
        }
        FreeChain(cells[i], s[i]);
        cells[i] := null;
      }
      chains, m := seq(HTSIZE, _ => []), map[];
      EmptyTable(Sum, cells[..], HTSIZE);
      NoItems(HTSIZE);
    }
  }

  // ---------- whole runs ----------

  datatype Op = Insert(key: string, data: int, memory: bool) | Delete(key: string) | Read(key: string) | ClearAll

  function Apply(op: Op, m: map<string, int>): map<string, int> {
    match op
    case Insert(k, v, memory) => if k in m || memory then m[k := v] else m
    case Delete(k) => m - {k}
    case Read(_) => m
    case ClearAll => map[]
  }

  /** What a finite map answers to the reads of a run. */
  function Answers(ops: seq<Op>, m: map<string, int>): seq<Option<int>> {
    if |ops| == 0 then [] else
      (if ops[0].Read? then [Lookup(m, ops[0].key)] else []) + Answers(ops[1..], Apply(ops[0], m))
  }

  lemma {:induction false} AnswersStep(ops: seq<Op>, i: nat, m: map<string, int>, out: seq<Option<int>>)
    requires i < |ops|
    ensures (if ops[i].Read? then out + [Lookup(m, ops[i].key)] else out) + Answers(ops[i + 1..], Apply(ops[i], m))
      == out + Answers(ops[i..], m)
  {
    assert ops[i..][1..] == ops[i + 1..];
  }

  lemma {:induction false} AnswersEnd(m: map<string, int>)
    ensures Answers([], m) == []
  {
  }

  /** A table of any size answers any run as the finite map does. */
  method Execute(htsize: nat, ops: seq<Op>) returns (out: seq<Option<int>>)
    requires 0 < htsize <= MAX_HTSIZE
    ensures out == Answers(ops, map[])
  {
    var t := new HTable.htInit(htsize);
    out := [];
    NoItems(htsize);
    hide Answers, t.Valid, Items;
    assert ops[0..] == ops;
    for i := 0 to |ops|
      invariant fresh(t) && fresh(t.cells) && fresh(Items(t.chains)) && t.Valid()
      invariant out + Answers(ops[i..], t.m) == Answers(ops, map[])
    {
      AnswersStep(ops, i, t.m, out);
      match ops[i]
      case Insert(k, v, memory) => t.htInsert(k, v, memory);
      case Delete(k) => t.htDelete(k);
      case Read(k) =>
        var data := t.htRead(k);
        out := out + [data];
      case ClearAll => t.htClearAll();
    }
    AnswersEnd(t.m);
    assert ops[|ops|..] == [];
  }

  lemma {:induction false} NoItems(n: nat)
    ensures Items(seq(n, _ => [])) == {}
  {
  }
}
