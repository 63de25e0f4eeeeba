/**
 The data structure of sem_3/ips/proj_2/mmal.c as a value: headers at integer addresses,
 linked into one ring that passes through all arenas in list order.
 */
module MmalLayout {
  import opened Seqs

  /** sizeof(Header) and sizeof(Arena); both headers of an arena fit well inside a page. */
  type StructSize = x: int | 0 < x < 16384 witness 24
  const HDR: StructSize
  const ARENA: StructSize
  const PAGE := 128 * 1024

  datatype Header = Header(next: int, size: int, asize: int)
  datatype Arena = Arena(next: int, size: int)

  /** `ring` lists the headers in ring order, `owner[i]` the arena of block `i`, `arenas` the arena list. */
  datatype Layout = Layout(hdr: map<int, Header>, arena: map<int, Arena>,
                           ring: seq<int>, owner: seq<nat>, arenas: seq<int>)

  /** Index of the block after block `i` in the ring. */
  function Succ(n: nat, i: nat): nat { if i + 1 < n then i + 1 else 0 }

  ghost predicate Differ(s: seq<int>, i: nat, j: nat)
    requires i < |s| && j < |s|
  {
    s[i] != s[j]
  }

  ghost predicate Distinct(s: seq<int>) {
    forall i, j :: 0 <= i < j < |s| ==> Differ(s, i, j)
  }

  /** The header of block `i` leads to the next block of the ring. */
  ghost predicate LeadsOn(l: Layout, i: nat)
    requires i < |l.ring| && l.ring[i] in l.hdr
  {
    l.hdr[l.ring[i]].next == l.ring[Succ(|l.ring|, i)]
  }

  /** The headers form one ring that visits every block once. */
  ghost predicate Linked(l: Layout) {
    && |l.ring| > 0 && Distinct(l.ring)
    && (forall i :: 0 <= i < |l.ring| ==> l.ring[i] in l.hdr)
    && (forall i :: 0 <= i < |l.ring| ==> LeadsOn(l, i))
  }

  function ArenaEnd(l: Layout, k: nat): int
    requires k < |l.arenas| && l.arenas[k] in l.arena
  {
    l.arenas[k] + l.arena[l.arenas[k]].size
  }

  /** Arena `k` leads to the next one of the list. */
  ghost predicate ListsOn(arena: map<int, Arena>, arenas: seq<int>, k: nat)
    requires k < |arenas| && arenas[k] in arena
  {
    arena[arenas[k]].next == if k + 1 < |arenas| then arenas[k + 1] else 0
  }

  ghost predicate ArenasApart(arena: map<int, Arena>, arenas: seq<int>, k: nat, m: nat)
    requires k < |arenas| && m < |arenas| && arenas[k] in arena && arenas[m] in arena
  {
    || arenas[k] + arena[arenas[k]].size <= arenas[m]
    || arenas[m] + arena[arenas[m]].size <= arenas[k]
  }

  /** The arenas form a list and do not overlap. */
  ghost predicate ListedIn(arena: map<int, Arena>, arenas: seq<int>) {
    && |arenas| > 0
    && (forall k :: 0 <= k < |arenas| ==> arenas[k] in arena && arenas[k] > 0)
    && (forall k :: 0 <= k < |arenas| ==> arena[arenas[k]].size > ARENA + HDR)
    && (forall k :: 0 <= k < |arenas| ==> ListsOn(arena, arenas, k))
    && (forall k, m :: 0 <= k < m < |arenas| ==> ArenasApart(arena, arenas, k, m))
  }

  ghost predicate Listed(l: Layout) { ListedIn(l.arena, l.arenas) }

  /** One past the last byte of the block whose header is at `h`. */
  function End(l: Layout, h: int): int
    requires h in l.hdr
  {
    h + HDR + l.hdr[h].size
  }

  /**
   A block of `size` payload bytes at `h` in arena `o` is followed at once by the block at
   `h2` of the same arena, or ends where its arena ends and the ring goes on with the first
   block of the next arena.
   */
  ghost predicate Meets(arena: map<int, Arena>, arenas: seq<int>, h: int, size: int, o: nat, h2: int, o2: nat)
    requires o < |arenas| && arenas[o] in arena
  {
    || (o2 == o && h2 == h + HDR + size)
    || (o2 == o + 1 < |arenas| && h + HDR + size == arenas[o] + arena[arenas[o]].size && h2 == arenas[o2] + ARENA)
  }

  /** The last block of the ring ends where the last arena ends. */
  ghost predicate Closes(arena: map<int, Arena>, arenas: seq<int>, h: int, size: int, o: nat)
    requires o < |arenas| && arenas[o] in arena
  {
    o + 1 == |arenas| && h + HDR + size == arenas[o] + arena[arenas[o]].size
  }

  ghost predicate Adjoins(l: Layout, i: nat)
    requires Linked(l) && Listed(l) && |l.owner| == |l.ring| && i < |l.ring| && l.owner[i] < |l.arenas|
  {
    var h, size := l.ring[i], l.hdr[l.ring[i]].size;
    if i + 1 == |l.ring| then Closes(l.arena, l.arenas, h, size, l.owner[i])
    else Meets(l.arena, l.arenas, h, size, l.owner[i], l.ring[i + 1], l.owner[i + 1])
  }

  /** Every arena is exactly covered by header and payload blocks. */
  ghost predicate Tiled(l: Layout) {
    && Linked(l) && Listed(l) && |l.owner| == |l.ring|
    && l.ring[0] == l.arenas[0] + ARENA && l.owner[0] == 0
    && (forall i :: 0 <= i < |l.ring| ==> l.owner[i] < |l.arenas| && l.hdr[l.ring[i]].size >= 0)
    && (forall i :: 0 <= i < |l.ring| ==> Adjoins(l, i))
  }

  ghost predicate Sane(h: Header) {
    0 <= h.asize <= h.size && (h.asize > 0 ==> h.size - h.asize <= 2 * HDR)
  }

  /** The invariant of the allocator. */
  ghost predicate Ok(l: Layout) {
    Tiled(l) && forall i :: 0 <= i < |l.ring| ==> Sane(l.hdr[l.ring[i]])
  }

  // ---------- geometry ----------

  lemma {:induction false} AfterArenaStart(l: Layout, i: nat)
    requires Tiled(l) && i < |l.ring|
    ensures l.arenas[l.owner[i]] + ARENA <= l.ring[i]
  {
    if i > 0 {
      AfterArenaStart(l, i - 1);
      assert Adjoins(l, i - 1);
    }
  }

  lemma {:induction false} BeforeArenaEnd(l: Layout, i: nat)
    requires Tiled(l) && i < |l.ring|
    ensures End(l, l.ring[i]) <= ArenaEnd(l, l.owner[i])
    decreases |l.ring| - i
  {
    assert Adjoins(l, i);
    if i + 1 < |l.ring| {
      BeforeArenaEnd(l, i + 1);
    }
  }

  /** Every block lies inside its arena, behind the arena's own header. */
  lemma {:induction false} InsideArena(l: Layout, i: nat)
    requires Tiled(l) && i < |l.ring|
    ensures l.arenas[l.owner[i]] + ARENA <= l.ring[i] < End(l, l.ring[i]) <= ArenaEnd(l, l.owner[i])
  {
    AfterArenaStart(l, i);
    BeforeArenaEnd(l, i);
  }

  lemma {:induction false} OwnerGrows(l: Layout, i: nat, j: nat)
    requires Tiled(l) && i < j < |l.ring|
    ensures l.owner[i] <= l.owner[j]
    ensures l.owner[i] == l.owner[j] ==> End(l, l.ring[i]) <= l.ring[j]
  {
    assert Adjoins(l, j - 1);
    if i < j - 1 {
      OwnerGrows(l, i, j - 1);
    }
  }

  lemma {:induction false} OtherArena(arena: map<int, Arena>, arenas: seq<int>, k: nat, m: nat)
    requires ListedIn(arena, arenas) && k < |arenas| && m < |arenas|
    ensures k != m ==> ArenasApart(arena, arenas, k, m)
  {
    if k < m {
      assert ArenasApart(arena, arenas, k, m);
    } else if m < k {
      assert ArenasApart(arena, arenas, m, k);
    }
  }

  /** Two blocks, headers included, never overlap. */
  lemma {:induction false} Apart(l: Layout, i: nat, j: nat)
    requires Tiled(l) && i < j < |l.ring|
    ensures End(l, l.ring[i]) <= l.ring[j] || End(l, l.ring[j]) <= l.ring[i]
  {
    OwnerGrows(l, i, j);
    InsideArena(l, i);
    InsideArena(l, j);
    OtherArena(l.arena, l.arenas, l.owner[i], l.owner[j]);
  }

  /** Addresses a program may use: the payload of an allocated block. */
  ghost predicate InPayload(l: Layout, i: nat, a: int)
    requires i < |l.ring| && l.ring[i] in l.hdr
  {
    l.ring[i] + HDR <= a < l.ring[i] + HDR + l.hdr[l.ring[i]].asize
  }

  /** Payloads are pairwise disjoint and inside their arena. */
  lemma {:induction false} PayloadsAreDisjoint(l: Layout, i: nat, j: nat, a: int)
    requires Ok(l) && i < |l.ring| && j < |l.ring| && InPayload(l, i, a) && InPayload(l, j, a)
    ensures i == j
    ensures l.arenas[l.owner[i]] + ARENA + HDR <= a < ArenaEnd(l, l.owner[i])
  {
    InsideArena(l, i);
    if i < j {
      Apart(l, i, j);
    } else if j < i {
      Apart(l, j, i);
    }
  }

  // ---------- allocating: mark block i, splitting it when enough is left over ----------

  predicate ShouldSplit(h: Header, size: int) { h.size > size + 2 * HDR }

  /** hdr_split (req = size) followed by setting asize. */
  function Split(l: Layout, i: nat, size: int): Layout
    requires i < |l.ring| && l.ring[i] in l.hdr && |l.owner| == |l.ring|
  {
    var h := l.ring[i];
    var right := h + HDR + size;
    l.(hdr := l.hdr[right := Header(l.hdr[h].next, l.hdr[h].size - size - HDR, 0)][h := Header(right, size, size)],
       ring := InsertAt(l.ring, i + 1, right),
       owner := InsertAt(l.owner, i + 1, l.owner[i]))
  }

  lemma {:induction false} SplitFields(l: Layout, i: nat, size: int)
    requires i < |l.ring| && l.ring[i] in l.hdr && |l.owner| == |l.ring|
    ensures var l' := Split(l, i, size);
      l'.arena == l.arena && l'.arenas == l.arenas && l'.hdr[l.ring[i]] == Header(l.ring[i] + HDR + size, size, size)
    ensures l.ring[i] in Split(l, i, size).hdr
  {
  }

  function Mark(l: Layout, i: nat, size: int): Layout
    requires i < |l.ring| && l.ring[i] in l.hdr
  {
    l.(hdr := l.hdr[l.ring[i] := l.hdr[l.ring[i]].(asize := size)])
  }

  /** What mmalloc does to the block it chose, and mrealloc to a block that shrinks. */
  function Alloc(l: Layout, i: nat, size: int): Layout
    requires i < |l.ring| && l.ring[i] in l.hdr && |l.owner| == |l.ring|
  {
    if ShouldSplit(l.hdr[l.ring[i]], size) then Split(l, i, size) else Mark(l, i, size)
  }

  /** The header that hdr_split creates is not one of the existing headers. */
  lemma {:induction false} RightIsNew(l: Layout, i: nat, size: int)
    requires Ok(l) && i < |l.ring| && 0 <= size && ShouldSplit(l.hdr[l.ring[i]], size)
    ensures forall j :: 0 <= j < |l.ring| ==> l.ring[j] != l.ring[i] + HDR + size
  {
    forall j | 0 <= j < |l.ring|
      ensures l.ring[j] != l.ring[i] + HDR + size
    {
      if i < j { Apart(l, i, j); } else if j < i { Apart(l, j, i); }
    }
  }

  lemma {:induction false} InsertDistinct(s: seq<int>, i: nat, x: int)
    requires Distinct(s) && i <= |s| && forall j :: 0 <= j < |s| ==> s[j] != x
    ensures Distinct(InsertAt(s, i, x))
  {
    var r := InsertAt(s, i, x);
    forall a, b | 0 <= a < b < |r|
      ensures Differ(r, a, b)
    {
      if a != i && b != i {
        assert Differ(s, if a < i then a else a - 1, if b < i then b else b - 1);
      }
    }
  }

  /** Block `j` of `l'`, when `l'` is `l` with block `i` split. */
  ghost predicate SplitBlock(l: Layout, l': Layout, i: nat, size: int, j: nat)
    requires |l.owner| == |l.ring| && i < |l.ring| && j <= |l.ring|
    requires forall m :: 0 <= m < |l.ring| ==> l.ring[m] in l.hdr
  {
    var h, o := l.hdr[l.ring[i]], if j <= i then j else j - 1;
    && l'.arenas == l.arenas && l'.arena == l.arena
    && |l'.ring| == |l'.owner| == |l.ring| + 1
    && l'.ring[j] == (if j == i + 1 then l.ring[i] + HDR + size else l.ring[o])
    && l'.owner[j] == l.owner[o]
    && l'.ring[j] in l'.hdr
    && l'.hdr[l'.ring[j]] == (if j == i then Header(l.ring[i] + HDR + size, size, size)
                              else if j == i + 1 then Header(h.next, h.size - size - HDR, 0)
                              else l.hdr[l.ring[o]])
  }

  lemma {:induction false} InsertedElement<T>(s: seq<T>, i: nat, x: T, j: nat)
    requires i <= |s| && j <= |s|
    ensures |InsertAt(s, i, x)| == |s| + 1
    ensures InsertAt(s, i, x)[j] == if j < i then s[j] else if j == i then x else s[j - 1]
  {
  }

  lemma {:induction false} OtherBlock(ring: seq<int>, o: nat, i: nat)
    requires Distinct(ring) && o < |ring| && i < |ring|
    ensures ring[o] == ring[i] <==> o == i
  {
    if o < i {
      assert Differ(ring, o, i);
    } else if i < o {
      assert Differ(ring, i, o);
    }
  }

  lemma {:induction false} SplitAt(l: Layout, i: nat, size: int, j: nat)
    requires Linked(l) && |l.owner| == |l.ring| && i < |l.ring| && j <= |l.ring|
    requires forall m :: 0 <= m < |l.ring| ==> l.ring[m] != l.ring[i] + HDR + size
    ensures SplitBlock(l, Split(l, i, size), i, size, j)
  {
    hide InsertAt, Distinct;
    InsertedElement(l.ring, i + 1, l.ring[i] + HDR + size, j);
    InsertedElement(l.owner, i + 1, l.owner[i], j);
    OtherBlock(l.ring, if j <= i then j else j - 1, i);
    assert l.ring[if j <= i then j else j - 1] != l.ring[i] + HDR + size;
    hide Linked;
  }

  lemma {:induction false} SplitLinkedAt(l: Layout, i: nat, size: int, j: nat)
    requires Linked(l) && |l.owner| == |l.ring| && i < |l.ring| && j <= |l.ring|
    requires forall m :: 0 <= m < |l.ring| ==> l.ring[m] != l.ring[i] + HDR + size
    ensures var l' := Split(l, i, size);
      j < |l'.ring| && l'.ring[j] in l'.hdr && LeadsOn(l', j)
  {
    hide Split, InsertAt, Distinct;
    SplitAt(l, i, size, j);
    SplitAt(l, i, size, Succ(|l.ring| + 1, j));
    assert LeadsOn(l, if j <= i then j else j - 1);
    hide Linked;
  }

  lemma {:induction false} SplitLinked(l: Layout, i: nat, size: int)
    requires Linked(l) && |l.owner| == |l.ring| && i < |l.ring|
    requires forall m :: 0 <= m < |l.ring| ==> l.ring[m] != l.ring[i] + HDR + size
    ensures Linked(Split(l, i, size))
  {
    hide InsertAt, Distinct;
    InsertDistinct(l.ring, i + 1, l.ring[i] + HDR + size);
    SplitAt(l, i, size, 0);
    forall j | 0 <= j <= |l.ring|
      ensures var l' := Split(l, i, size);
        j < |l'.ring| && l'.ring[j] in l'.hdr && LeadsOn(l', j)
    {
      SplitLinkedAt(l, i, size, j);
    }
  }

  lemma {:induction false} BlockOk(l: Layout, i: nat)
    requires Ok(l) && i < |l.ring|
    ensures l.owner[i] < |l.arenas| && Adjoins(l, i) && Sane(l.hdr[l.ring[i]])
  {
  }

  lemma {:induction false} SplitAdjoins(l: Layout, l': Layout, i: nat, size: int, j: nat)
    requires Linked(l) && Listed(l) && Linked(l') && Listed(l')
    requires |l.owner| == |l.ring| && i < |l.ring| && j <= |l.ring|
    requires SplitBlock(l, l', i, size, j) && (j < |l.ring| ==> SplitBlock(l, l', i, size, j + 1))
    requires var o := if j <= i then j else j - 1; l.owner[o] < |l.arenas| && Adjoins(l, o)
    ensures Adjoins(l', j)
  {
    hide Linked, ListedIn;
  }

  lemma {:induction false} SplitTiledAt(l: Layout, i: nat, size: int, j: nat)
    requires Ok(l) && i < |l.ring| && j <= |l.ring| && 0 <= size && ShouldSplit(l.hdr[l.ring[i]], size)
    requires forall m :: 0 <= m < |l.ring| ==> l.ring[m] != l.ring[i] + HDR + size
    requires var l' := Split(l, i, size); Linked(l') && Listed(l') && |l'.ring| == |l'.owner| == |l.ring| + 1
    ensures var l' := Split(l, i, size);
      && l'.owner[j] < |l'.arenas| && l'.hdr[l'.ring[j]].size >= 0
      && Adjoins(l', j) && Sane(l'.hdr[l'.ring[j]])
  {
    hide Adjoins, Split, Distinct, ListedIn;
    SplitAt(l, i, size, j);
    if j < |l.ring| {
      SplitAt(l, i, size, j + 1);
    }
    BlockOk(l, if j <= i then j else j - 1);
    SplitAdjoins(l, Split(l, i, size), i, size, j);
  }

  lemma {:induction false} SplitOk(l: Layout, i: nat, size: int)
    requires Ok(l) && i < |l.ring| && 0 <= size && ShouldSplit(l.hdr[l.ring[i]], size)
    ensures Ok(Split(l, i, size))
  {
    hide InsertAt, Distinct, ListedIn, Adjoins, Sane;
    RightIsNew(l, i, size);
    SplitLinked(l, i, size);
    SplitAt(l, i, size, 0);
    forall j | 0 <= j <= |l.ring|
      ensures var l' := Split(l, i, size);
        && l'.owner[j] < |l'.arenas| && l'.hdr[l'.ring[j]].size >= 0
        && Adjoins(l', j) && Sane(l'.hdr[l'.ring[j]])
    {
      SplitTiledAt(l, i, size, j);
    }
  }

  lemma {:induction false} MarkOk(l: Layout, i: nat, size: int)
    requires Ok(l) && i < |l.ring| && Sane(l.hdr[l.ring[i]].(asize := size))
    ensures Ok(Mark(l, i, size))
  {
    hide Distinct, ListedIn;
    MarkLinked(l, i, size);
    var l' := Mark(l, i, size);
    forall j | 0 <= j < |l'.ring|
      ensures Adjoins(l', j)
    {
      assert Adjoins(l, j);
    }
  }

  lemma {:induction false} MarkLinked(l: Layout, i: nat, size: int)
    requires Linked(l) && i < |l.ring|
    ensures Linked(Mark(l, i, size))
  {
    hide Distinct;
    var l' := Mark(l, i, size);
    forall j | 0 <= j < |l'.ring|
      ensures LeadsOn(l', j)
    {
      assert LeadsOn(l, j);
    }
  }

  /** Allocation keeps the invariant, whatever block was chosen. */
  lemma {:induction false} AllocOk(l: Layout, i: nat, size: int)
    requires Ok(l) && i < |l.ring| && 0 <= size <= l.hdr[l.ring[i]].size
    ensures Ok(Alloc(l, i, size))
  {
    hide Adjoins, Distinct, ListedIn;
    if ShouldSplit(l.hdr[l.ring[i]], size) {
      hide Split;
      SplitOk(l, i, size);
    } else {
      MarkOk(l, i, size);
    }
  }
}
