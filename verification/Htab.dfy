/** sem_2/ijc/proj_2/htab_*.c: the word counter's table. */
module Htab {
  import opened Options
  import opened Seqs
  import opened Chains

  /** htab_t */
  class Table {
    var size: int
    const cells: array<Item?>
    ghost var chains: seq<seq<Cell>>
    ghost var m: map<string, int>

    ghost predicate Valid()
      reads this, cells, Items(chains)
    {
      && |chains| == cells.Length > 0 && size == |m|
      && Represents(Poly, chains, m) && Headed(cells[..], chains)
    }

    function Bucket(key: string): (b: nat)
      requires cells.Length > 0
      ensures b < cells.Length
    {
      Index(Poly, key, cells.Length)
    }

    /** htab_init */
    constructor htab_init(arrSize: nat)
      requires 0 < arrSize
      ensures Valid() && m == map[] && fresh(cells) && cells.Length == arrSize && Items(chains) == {}
    {
      size := 0;
      cells := new Item?[arrSize](_ => null);
      chains := seq(arrSize, _ => []);
      m := map[];
      new;
      EmptyTable(Poly, cells[..], arrSize);
    }

    /** htab_find */
    method htab_find(key: string) returns (p: Item?)
      requires Valid()
      ensures Valid() && (p == null <==> key !in m)
      ensures p != null ==> p in Items(chains) && p.key == key && p.data == m[key]
    {
      hide Represents, Headed, Leads, Distinct, Sets, Items, ItemsOf, Index, Find;
      var index := Bucket(key);
      ghost var c := chains[index];
      Isolated(Poly, cells[..], chains, m, index);
      ChainEntry(Poly, chains, m, key);
      ghost var i: nat;
      var previous: Item?;
      p, previous, i := Locate(cells[index], key, c);
      if p != null {
        CellItem(c, i);
      }
    }

    /** The chain of `key` has become that of `c`, and starts at `p`; the table now has `size'` words. */
    method SetHead(index: nat, p: Item?, size': int, ghost key: string, ghost v: Option<int>, ghost c: seq<Cell>)
      requires size' == |With(m, key, v)| && |chains| == cells.Length > 0 && Represents(Poly, chains, m)
      requires index == Bucket(key) && Distinct(c) && Sets(chains[index], c, key, v)
      requires forall x :: x in c ==> x in chains[index] || x.key == key
      requires Leads(p, c) && forall d :: 0 <= d < |chains| && d != index ==> Leads(cells[d], chains[d])
      modifies cells, this
      ensures Valid() && m == With(old(m), key, v) && chains == old(chains)[index := c]
      ensures ItemsOf(c) <= Items(chains) <= old(Items(chains)) + ItemsOf(c)
    {
      hide Represents, Headed, Leads, Distinct, Sets, Items, ItemsOf, Index, With;
      ItemsAllocated(c);
      ChainsAllocated(chains);
      ghost var s, m0 := chains, m;
      cells[index] := p;
      size, chains, m := size', s[index := c], With(m, key, v);
      Exchanged(Poly, cells[..], s, m0, key, v, index, c);
    }

    /** htab_lookup_add 27: one more occurrence of a word in the table. */
    method Increment(key: string, tmp: Item, ghost i: nat)
      requires Valid() && i < |chains[Bucket(key)]|
      requires chains[Bucket(key)][i].item == tmp && chains[Bucket(key)][i].key == key
      modifies this, Items(chains)
      ensures Valid() && key in old(m) && m == old(m)[key := old(m[key]) + 1]
      ensures tmp in Items(chains) && tmp.key == key && tmp.data == m[key]
      ensures Items(chains) <= old(Items(chains))
    {
      hide Represents, Headed, Leads, Distinct, Sets, Items, ItemsOf, Index, Find, Holds;
      ghost var index, s := Bucket(key), chains;
      CellEntry(Poly, s, m, key, i);
      ghost var c, v, m' := s[index], m[key] + 1, m[key := m[key] + 1];
      ghost var c' := c[i := c[i].(data := v)];
      Isolated(Poly, cells[..], s, m, index);
      CellAt(cells[index], c, i);
      assert |m'| == |m|;
      Updated(c, i, v);
      UpdatedItems(c, i, v);
      CellItem(c, i);
      CellItem(c', i);
      SetData(cells[index], tmp, tmp.data + 1, c, i);
      Exchanged(Poly, cells[..], s, m, key, Some(v), index, c');
      chains, m := s[index := c'], m';
    }

    /** htab_lookup_add 39-67: a word that is not in the table. */
    method AddNew(key: string, last: Item?) returns (p: Item)
      requires Valid() && key !in m
      requires var c := chains[Bucket(key)];
        && last == (if |c| == 0 then null else c[|c| - 1].item)
        && forall j :: 0 <= j < |c| ==> c[j].key != key
      modifies this, cells, Items(chains)
      ensures Valid() && m == old(m)[key := 1]
      ensures p in Items(chains) && p.key == key && p.data == 1
      ensures forall x | x in Items(chains) :: x in old(Items(chains)) || fresh(x)
    {
      var index := Bucket(key);
      ghost var c := chains[index];
      Isolated(Poly, cells[..], chains, m, index);
      hide Represents, Headed, Leads, Distinct, Sets, Items, ItemsOf, Index, Find;
      p := new Item(key, 1);
      ghost var x := Cell(p, key, 1);
      ghost var c' := c + [x];
      Appended(c, x);
      AppendedItems(c, x);
      CellItem(c', |c|);
      var head := Append(cells[index], last, p, c, x);
      SetHead(index, head, size + 1, key, Some(1), c');
    }

    /** htab_lookup_add; `memory` says whether the allocator has room for an item and its key. */
    method htab_lookup_add(key: string, memory: bool) returns (p: Item?)
      requires Valid()
      modifies this, cells, Items(chains)
      ensures Valid() && m == Counted(old(m), key, memory)
      ensures m == if key in old(m) then old(m)[key := old(m)[key] + 1] else if memory then old(m)[key := 1] else old(m)
      ensures p == null <==> key !in m
      ensures p != null ==> p in Items(chains) && p.key == key && p.data == m[key]
      ensures forall x | x in Items(chains) :: x in old(Items(chains)) || fresh(x)
    {
      hide Represents, Headed, Leads, Distinct, Sets, Items, ItemsOf, Index, Find;
      var index := Bucket(key);
      Isolated(Poly, cells[..], chains, m, index);
      ChainEntry(Poly, chains, m, key);
      ghost var i: nat;
      var tmp, lastItem: Item?;
      tmp, lastItem, i := Locate(cells[index], key, chains[index]);
      if tmp != null {
        Increment(key, tmp, i);
        return tmp;
      }
      if !memory {
        return null;
      }
      p := AddNew(key, lastItem);
    }

    /** htab_remove */
    method htab_remove(key: string) returns (removed: bool)
      requires Valid()
      modifies this, cells, Items(chains)
      ensures Valid() && m == old(m) - {key} && removed == (key in old(m))
      ensures Items(chains) <= old(Items(chains))
    {
      hide Represents, Headed, Leads, Distinct, Sets, Items, ItemsOf, Index, Find;
      var index := Bucket(key);
      ghost var c := chains[index];
      Isolated(Poly, cells[..], chains, m, index);
      ChainEntry(Poly, chains, m, key);
      ghost var i: nat;
      var tmp, previous: Item?;
      tmp, previous, i := Locate(cells[index], key, c);
      if tmp == null {
        return false;
      }
      assert tmp == c[i].item && key in m && |m - {key}| == |m| - 1;
      ghost var c' := RemoveAt(c, i);
      hide Holds, ItemAt, RemoveAt;
      Removed(c, i);
      RemovedIn(c, i);
      var head := Unlink(cells[index], previous, tmp, c, i);
      SetHead(index, head, size - 1, key, None, c');
      return true;
    }
  }

  /** What htab_lookup_add does to the counts. */
  function Counted(m: map<string, int>, key: string, memory: bool): map<string, int> {
    if key in m then m[key := m[key] + 1] else if memory then m[key := 1] else m
  }

  // ---------- whole runs ----------

  datatype Op = Add(word: string, memory: bool) | Remove(word: string)

  datatype Answer = Count(n: int) | NoMemory | Removal(found: bool)

  function Apply(m: map<string, int>, op: Op): map<string, int> {
    match op
    case Add(w, memory) => Counted(m, w, memory)
    case Remove(w) => m - {w}
  }

  function Final(ops: seq<Op>, m: map<string, int>): map<string, int> {
    if |ops| == 0 then m else Apply(Final(ops[..|ops| - 1], m), ops[|ops| - 1])
  }

  /** No operation from `i` on removes the word. */
  ghost predicate Stays(ops: seq<Op>, w: string, i: nat) {
    forall k :: i <= k < |ops| ==> ops[k] != Remove(w)
  }

  /** By operation `i` the word is in the table to stay: it was there before the run, or an addition put it there. */
  ghost predicate Settled(ops: seq<Op>, w: string, held: bool, i: nat) {
    (held && Stays(ops, w, 0)) || exists j :: 0 <= j <= i < |ops| && ops[j] == Add(w, true) && Stays(ops, w, j)
  }

  /** Operation `i` adds `w`, which the table keeps; `held` says whether it had the word before the run. */
  ghost predicate Adds(ops: seq<Op>, w: string, held: bool, i: nat)
    requires i < |ops|
  {
    ops[i].Add? && ops[i].word == w && Stays(ops, w, i) && Settled(ops, w, held, i)
  }

  /** The additions of `w` that the table still counts after the run. */
  ghost function Additions(ops: seq<Op>, w: string, held: bool): set<nat> {
    set i: nat | i < |ops| && Adds(ops, w, held, i)
  }

  /** How often the word has been added since it last came into the table. */
  ghost function Since(ops: seq<Op>, w: string): nat {
    |Additions(ops, w, false)|
  }

  ghost function Shown(n: int): Option<int> {
    if n > 0 then Some(n) else None
  }

  lemma {:induction false} StaysStep(ops: seq<Op>, op: Op, w: string)
    ensures forall i: nat | i <= |ops| :: Stays(ops + [op], w, i) <==> Stays(ops, w, i) && op != Remove(w)
  {
    var all := ops + [op];
    forall i: nat | i <= |ops| ensures Stays(all, w, i) <==> Stays(ops, w, i) && op != Remove(w) {
      assert all[|ops|] == op;
      if Stays(all, w, i) {
        assert forall k :: i <= k < |ops| ==> all[k] == ops[k];
      }
    }
  }

  /** What one more operation does to the counted additions. */
  lemma {:induction false} AdditionsStep(ops: seq<Op>, op: Op, w: string, held: bool)
    ensures Additions(ops + [op], w, held) ==
      if op == Remove(w) then {}
      else if op.word != w then Additions(ops, w, held)
      else if op.memory || Additions(ops, w, held) != {} || (held && Stays(ops, w, 0))
      then Additions(ops, w, held) + {|ops|}
      else {}
  {
    var all, n := ops + [op], |ops|;
    StaysStep(ops, op, w);
    assert Stays(ops, w, n);
    hide Stays;
    if op != Remove(w) {
      forall i: nat | i < n ensures Settled(all, w, held, i) <==> Settled(ops, w, held, i) {
        assert forall j :: 0 <= j <= i ==> all[j] == ops[j];
      }
      if op.word == w {
        assert Stays(all, w, n);
        if op.memory {
          assert all[n] == Add(w, true);
        } else if i: nat :| i in Additions(ops, w, held) {
          assert Settled(all, w, held, i);
        } else {
          forall j: nat | j < n && all[j] == Add(w, true) && Stays(ops, w, j) ensures j in Additions(ops, w, held) {
            assert Settled(ops, w, held, j);
          }
        }
      }
    }
  }

  /** The count of `w` after a run from the counts `m`. */
  ghost function Total(ops: seq<Op>, m: map<string, int>, w: string): int {
    |Additions(ops, w, w in m)| + if w in m && Stays(ops, w, 0) then m[w] else 0
  }

  lemma {:induction false} TotalStep(ops: seq<Op>, op: Op, m: map<string, int>, w: string)
    requires w in m ==> m[w] > 0
    ensures var n := Total(ops, m, w);
      Total(ops + [op], m, w) ==
        if op == Remove(w) then 0 else if op.word == w && (op.memory || n > 0) then n + 1 else n
  {
    AdditionsStep(ops, op, w, w in m);
    StaysStep(ops, op, w);
    var a := Additions(ops, w, w in m);
    assert |ops| !in a;
    hide Additions, Stays;
    assert |a + {|ops|}| == |a| + 1;
  }

  lemma {:induction false} FinalStep(ops: seq<Op>, op: Op, m: map<string, int>)
    ensures Final(ops + [op], m) == Apply(Final(ops, m), op)
  {
    assert (ops + [op])[..|ops|] == ops;
  }

  /** The table counts, for every word, its additions since it last came in. */
  lemma {:induction false} CountsAreExact(ops: seq<Op>, m: map<string, int>, w: string)
    requires forall x :: x in m ==> m[x] > 0
    ensures Lookup(Final(ops, m), w) == Shown(Total(ops, m, w))
  {
    if |ops| == 0 {
      assert Additions(ops, w, w in m) == {};
    } else {
      var rest, op := ops[..|ops| - 1], ops[|ops| - 1];
      assert ops == rest + [op];
      hide Total, Final;
      CountsAreExact(rest, m, w);
      TotalStep(rest, op, m, w);
      FinalStep(rest, op, m);
    }
  }

  /** From an empty table: the word is present exactly when an addition counts, with the number of those. */
  lemma {:induction false} CountedSince(ops: seq<Op>, w: string)
    ensures Lookup(Final(ops, map[]), w) == Shown(Since(ops, w))
  {
    CountsAreExact(ops, map[], w);
  }

  lemma {:induction false} FinalStart(ops: seq<Op>)
    ensures Final(ops[..0], map[]) == map[]
  {
  }

  function Words(ops: seq<Op>): set<string> {
    set op | op in ops :: op.word
  }

  /** The words of a run that the table still counts. */
  ghost function WordsLeft(ops: seq<Op>): set<string> {
    set w | w in Words(ops) && Since(ops, w) > 0
  }

  lemma {:induction false} WordsLeftAreTheKeys(ops: seq<Op>)
    ensures Final(ops, map[]).Keys == WordsLeft(ops)
  {
    forall w ensures w in Final(ops, map[]) <==> w in WordsLeft(ops) {
      CountedSince(ops, w);
      hide Final, Stays, Settled;
      if Since(ops, w) > 0 {
        var i: nat :| i in Additions(ops, w, false);
        assert ops[i] in ops && ops[i].word == w;
      }
    }
  }

  /** What operation `i` of a run answers. */
  ghost function AnswerAt(ops: seq<Op>, i: nat): Answer
    requires i < |ops|
  {
    match ops[i]
    case Add(w, memory) =>
      var n := Since(ops[..i + 1], w);
      if n > 0 then Count(n) else NoMemory
    case Remove(w) => Removal(Since(ops[..i], w) > 0)
  }

  /** One operation; `before` are those already done. */
  method Perform(t: Table, ops: seq<Op>, i: nat) returns (a: Answer)
    requires t.Valid() && i < |ops| && t.m == Final(ops[..i], map[])
    modifies t, t.cells, Items(t.chains)
    ensures t.Valid() && t.m == Final(ops[..i + 1], map[]) && a == AnswerAt(ops, i)
    ensures allocated(Items(t.chains)) && forall x | x in Items(t.chains) :: x in old(Items(t.chains)) || fresh(x)
  {
    hide Final, Since, t.Valid, Items;
    assert ops[..i + 1] == ops[..i] + [ops[i]];
    FinalStep(ops[..i], ops[i], map[]);
    CountedSince(ops[..i], ops[i].word);
    CountedSince(ops[..i + 1], ops[i].word);
    match ops[i]
    case Add(w, memory) =>
      var p := t.htab_lookup_add(w, memory);
      a := if p == null then NoMemory else Count(p.data);
    case Remove(w) =>
      var removed := t.htab_remove(w);
      a := Removal(removed);
  }

  /** Any run on a fresh table of any size. */
  method RunAll(arrSize: nat, ops: seq<Op>) returns (t: Table, answers: seq<Answer>)
    requires 0 < arrSize
    ensures t.Valid() && t.m == Final(ops, map[])
    ensures |answers| == |ops| && forall i :: 0 <= i < |ops| ==> answers[i] == AnswerAt(ops, i)
  {
    hide Final, AnswerAt;
    t := new Table.htab_init(arrSize);
    answers := [];
    hide t.Valid;
    FinalStart(ops);
    for i := 0 to |ops|
      invariant fresh(t) && fresh(t.cells) && fresh(Items(t.chains)) && t.Valid()
      invariant t.m == Final(ops[..i], map[])
      invariant |answers| == i && forall j :: 0 <= j < i ==> answers[j] == AnswerAt(ops, j)
    {
      var a := Perform(t, ops, i);
      answers := answers + [a];
    }
    assert ops[..|ops|] == ops;
  }

  /** A run and then any queries: the answers, the counts and the number of words are those of the run. */
  method Execute(arrSize: nat, ops: seq<Op>, queries: seq<string>)
    returns (answers: seq<Answer>, size: int, counts: seq<Option<int>>)
    requires 0 < arrSize
    ensures |answers| == |ops| && forall i :: 0 <= i < |ops| ==> answers[i] == AnswerAt(ops, i)
    ensures size == |WordsLeft(ops)|
    ensures |counts| == |queries| && forall i :: 0 <= i < |queries| ==> counts[i] == Shown(Since(ops, queries[i]))
  {
    hide Since, Shown, AnswerAt, WordsLeft, Words, Final, Items;
    var t: Table;
    t, answers := RunAll(arrSize, ops);
    WordsLeftAreTheKeys(ops);
    size := Size(t);
    counts := [];
    for i := 0 to |queries|
      invariant |counts| == i && t.Valid() && t.m == Final(ops, map[])
      invariant forall j :: 0 <= j < i ==> counts[j] == Shown(Since(ops, queries[j]))
    {
      CountedSince(ops, queries[i]);
      var p := t.htab_find(queries[i]);
      counts := counts + [if p == null then None else Some(p.data)];
    }
  }

  /** htab_size */
  method Size(t: Table) returns (size: int)
    requires t.Valid()
    ensures t.Valid() && size == |t.m| == |t.m.Keys|
  {
    size := t.size;
  }
}
