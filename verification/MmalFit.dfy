/** New arenas at the end of the list, and first fit. */
module MmalFit {
  import opened Seqs
  import opened MmalLayout
  import opened MmalFree
  import opened MmalLive

  // ---------- a new arena at the end of the list ----------

  /** allign_page */
  function AlignPage(size: int): int { (size + PAGE - 1) / PAGE * PAGE }

  /** How much first_fit and mmalloc map for a request. */
  function MapSize(size: int): int { AlignPage(size + HDR + ARENA) }

  lemma {:induction false} AlignedUp(size: int)
    requires size >= 0
    ensures size <= AlignPage(size) < size + PAGE && AlignPage(size) % PAGE == 0 && PAGE == 131072
    ensures AlignPage(size) == size <==> size % PAGE == 0
  {
  }

  /** arena_alloc and arena_append when there is an arena already, and the last header linked to the new one. */
  function Grow(l: Layout, base: int, size: int): Layout
    requires |l.ring| > 0 && l.ring[|l.ring| - 1] in l.hdr && |l.arenas| > 0 && l.arenas[|l.arenas| - 1] in l.arena
  {
    var last, a := l.ring[|l.ring| - 1], l.arenas[|l.arenas| - 1];
    Layout(l.hdr[base + ARENA := Header(l.ring[0], size - ARENA - HDR, 0)][last := l.hdr[last].(next := base + ARENA)],
           l.arena[base := Arena(0, size)][a := l.arena[a].(next := base)],
           l.ring + [base + ARENA], l.owner + [|l.arenas|], l.arenas + [base])
  }

  /** What mmap promises: a region that overlaps no arena. */
  ghost predicate Unmapped(l: Layout, base: int, size: int) {
    base > 0 && forall k :: 0 <= k < |l.arenas| && l.arenas[k] in l.arena ==>
      ArenaEnd(l, k) <= base || base + size <= l.arenas[k]
  }

  /** Arena `k` after a new one at `base` was appended. */
  ghost predicate GrownArena(l: Layout, l': Layout, base: int, size: int, k: nat) {
    && k < |l'.arenas| == |l.arenas| + 1 && l'.arenas[k] in l'.arena && l'.arenas[k] > 0
    && ListsOn(l'.arena, l'.arenas, k)
    && if k == |l.arenas| then l'.arenas[k] == base && l'.arena[base].size == size
       else
         && l'.arenas[k] == l.arenas[k] && l.arenas[k] in l.arena
         && l'.arena[l.arenas[k]].size == l.arena[l.arenas[k]].size
  }

  lemma {:induction false} GrowArenaAt(l: Layout, base: int, size: int, k: nat)
    requires Listed(l) && |l.ring| > 0 && l.ring[|l.ring| - 1] in l.hdr
    requires base > 0 && base !in l.arenas && k <= |l.arenas|
    ensures GrownArena(l, Grow(l, base, size), base, size, k)
  {
    LastOnly(l.arenas, l.arena);
    if k < |l.arenas| {
      assert ListsOn(l.arena, l.arenas, k);
    }
  }

  lemma {:induction false} UnmappedApart(l: Layout, base: int, size: int, k: nat)
    requires Unmapped(l, base, size) && k < |l.arenas| && l.arenas[k] in l.arena
    ensures ArenaEnd(l, k) <= base || base + size <= l.arenas[k]
  {
  }

  lemma {:induction false} GrowListed(l: Layout, base: int, size: int)
    requires Listed(l) && |l.ring| > 0 && l.ring[|l.ring| - 1] in l.hdr
    requires Unmapped(l, base, size) && size > ARENA + HDR
    ensures Listed(Grow(l, base, size)) && base !in l.arenas
  {
    var l', n := Grow(l, base, size), |l.arenas|;
    UnmappedIsNew(l, base, size);
    hide Grow, Unmapped;
    GrowArenaAt(l, base, size, n);
    forall k | 0 <= k <= n
      ensures GrownArena(l, l', base, size, k)
      ensures l'.arenas[k] in l'.arena && l'.arenas[k] > 0 && l'.arena[l'.arenas[k]].size > ARENA + HDR
      ensures ListsOn(l'.arena, l'.arenas, k)
    {
      GrowArenaAt(l, base, size, k);
    }
    forall k, m | 0 <= k < m <= n
      ensures GrownArena(l, l', base, size, k) && GrownArena(l, l', base, size, m)
      ensures ArenasApart(l'.arena, l'.arenas, k, m)
    {
      if m < n {
        assert ArenasApart(l.arena, l.arenas, k, m);
      } else {
        UnmappedApart(l, base, size, k);
      }
    }
  }

  lemma {:induction false} UnmappedIsNew(l: Layout, base: int, size: int)
    requires Listed(l) && Unmapped(l, base, size) && size > 0
    ensures base !in l.arenas
  {
  }

  lemma {:induction false} LastOnly(arenas: seq<int>, arena: map<int, Arena>)
    requires ListedIn(arena, arenas)
    ensures forall k :: 0 <= k < |arenas| && arenas[k] == arenas[|arenas| - 1] ==> k == |arenas| - 1
  {
    forall k | 0 <= k < |arenas| && arenas[k] == arenas[|arenas| - 1]
      ensures k == |arenas| - 1
    {
      OtherArena(arena, arenas, k, |arenas| - 1);
    }
  }

  /** Block `i` after a new arena was mapped. */
  ghost predicate GrownBlock(l: Layout, l': Layout, base: int, size: int, i: nat)
    requires |l.ring| > 0 && |l.owner| == |l.ring| && i <= |l.ring|
    requires forall m :: 0 <= m < |l.ring| ==> l.ring[m] in l.hdr
  {
    var n := |l.ring|;
    && |l'.ring| == |l'.owner| == n + 1
    && l'.ring[i] == (if i == n then base + ARENA else l.ring[i])
    && l'.owner[i] == (if i == n then |l.arenas| else l.owner[i])
    && l'.ring[i] in l'.hdr
    && l'.hdr[l'.ring[i]] == (if i == n then Header(l.ring[0], size - ARENA - HDR, 0)
                              else if i == n - 1 then l.hdr[l.ring[i]].(next := base + ARENA)
                              else l.hdr[l.ring[i]])
  }

  lemma {:induction false} NewHeaderIsNew(l: Layout, base: int, size: int)
    requires Ok(l) && Unmapped(l, base, size) && size > ARENA + HDR
    ensures forall i :: 0 <= i < |l.ring| ==> l.ring[i] != base + ARENA
  {
    forall i | 0 <= i < |l.ring|
      ensures l.ring[i] != base + ARENA
    {
      hide Adjoins, Distinct;
      InsideArena(l, i);
    }
  }

  lemma {:induction false} GrowAt(l: Layout, base: int, size: int, i: nat)
    requires Linear(l) && i <= |l.ring| && forall m :: 0 <= m < |l.ring| ==> l.ring[m] != base + ARENA
    ensures GrownBlock(l, Grow(l, base, size), base, size, i)
  {
    hide ListedIn, Distinct;
    if i < |l.ring| {
      OtherBlock(l.ring, i, |l.ring| - 1);
    }
  }

  lemma {:induction false} LastExists(l: Layout)
    requires Linear(l)
    ensures |l.ring| > 0 && l.ring[|l.ring| - 1] in l.hdr && |l.arenas| > 0 && l.arenas[|l.arenas| - 1] in l.arena
  {
  }

  lemma {:induction false} GrowLinkedAt(l: Layout, base: int, size: int, i: nat)
    requires Linear(l) && i <= |l.ring| && forall m :: 0 <= m < |l.ring| ==> l.ring[m] != base + ARENA
    ensures var l' := Grow(l, base, size);
      i < |l'.ring| && l'.ring[i] in l'.hdr && LeadsOn(l', i)
  {
    LastExists(l);
    hide Distinct, ListedIn, Grow;
    GrowAt(l, base, size, i);
    GrowAt(l, base, size, Succ(|l.ring| + 1, i));
    assert i < |l.ring| ==> LeadsOn(l, i);
    hide Linked;
  }

  lemma {:induction false} GrowLinked(l: Layout, base: int, size: int)
    requires Linear(l) && forall m :: 0 <= m < |l.ring| ==> l.ring[m] != base + ARENA
    ensures Linked(Grow(l, base, size))
  {
    hide Distinct, ListedIn;
    LastExists(l);
    InsertDistinct(l.ring, |l.ring|, base + ARENA);
    assert Grow(l, base, size).ring == InsertAt(l.ring, |l.ring|, base + ARENA);
    hide InsertAt, Grow;
    forall i | 0 <= i <= |l.ring|
      ensures var l' := Grow(l, base, size);
        i < |l'.ring| && l'.ring[i] in l'.hdr && LeadsOn(l', i)
    {
      GrowLinkedAt(l, base, size, i);
    }
  }

  lemma {:induction false} NewIsNotListed(l: Layout, base: int, size: int)
    requires Linear(l) && Listed(Grow(l, base, size)) && size > 0
    ensures base !in l.arenas && base > 0
  {
    var l' := Grow(l, base, size);
    assert l'.arenas == l.arenas + [base];
    hide Grow;
    assert l'.arenas[|l.arenas|] == base;
    forall k | 0 <= k < |l.arenas|
      ensures l.arenas[k] != base
    {
      assert l'.arenas[k] == l.arenas[k];
      OtherArena(l'.arena, l'.arenas, k, |l.arenas|);
    }
  }

  lemma {:induction false} GrowAdjoins(l: Layout, base: int, size: int, i: nat)
    requires Ok(l) && Linear(l) && i <= |l.ring| && forall m :: 0 <= m < |l.ring| ==> l.ring[m] != base + ARENA
    requires Linked(Grow(l, base, size)) && Listed(Grow(l, base, size)) && size > ARENA + HDR
    ensures GrownBlock(l, Grow(l, base, size), base, size, i)
    ensures var l' := Grow(l, base, size);
      l'.owner[i] < |l'.arenas| && l'.hdr[l'.ring[i]].size >= 0 && Adjoins(l', i) && Sane(l'.hdr[l'.ring[i]])
  {
    var l', n := Grow(l, base, size), |l.ring|;
    assert l'.arenas == l.arenas + [base];
    NewIsNotListed(l, base, size);
    forall k | 0 <= k <= |l.arenas|
      ensures GrownArena(l, l', base, size, k)
    {
      GrowArenaAt(l, base, size, k);
    }
    GrowAt(l, base, size, i);
    GrowAt(l, base, size, if i < n then i + 1 else i);
    if i < n {
      BlockOk(l, i);
    }
    assert l'.arena[base] == Arena(0, size);
    hide Distinct, ListedIn, Linked, Grow, Ok, Tiled;
  }

  /** A new arena with one free block keeps the invariant. */
  lemma {:induction false} GrowOk(l: Layout, base: int, size: int)
    requires Ok(l) && Unmapped(l, base, size) && size > ARENA + HDR
    ensures Ok(Grow(l, base, size))
  {
    hide Distinct, Adjoins, Sane;
    GrowListed(l, base, size);
    NewHeaderIsNew(l, base, size);
    GrowLinked(l, base, size);
    GrowAt(l, base, size, 0);
    hide ListedIn;
    forall i | 0 <= i <= |l.ring|
      ensures var l' := Grow(l, base, size);
        l'.owner[i] < |l'.arenas| && l'.hdr[l'.ring[i]].size >= 0 && Adjoins(l', i) && Sane(l'.hdr[l'.ring[i]])
    {
      GrowAdjoins(l, base, size, i);
    }
  }

  lemma {:induction false} NextArena(arena: map<int, Arena>, arenas: seq<int>, k: nat)
    requires ListedIn(arena, arenas) && k < |arenas|
    ensures arenas[k] in arena
    ensures k + 1 < |arenas| ==> arena[arenas[k]].next == arenas[k + 1] != 0
    ensures k + 1 == |arenas| ==> arena[arenas[k]].next == 0
  {
    assert ListsOn(arena, arenas, k);
  }

  // ---------- first fit ----------

  /** first_fit's test at 263. */
  predicate Fits(h: Header, size: int) { size < h.size - h.asize }

  /** Block `i` is the first in the ring that passes the test. */
  ghost predicate FirstFit(l: Layout, size: int, i: nat) {
    && i < |l.ring| && l.ring[i] in l.hdr && Fits(l.hdr[l.ring[i]], size)
    && NoFitBelow(l, size, i)
  }

  /** None of the first `n` blocks passes the test. */
  ghost predicate NoFitBelow(l: Layout, size: int, n: nat) {
    forall j :: 0 <= j < n && j < |l.ring| && l.ring[j] in l.hdr ==> !Fits(l.hdr[l.ring[j]], size)
  }

  ghost predicate NoFit(l: Layout, size: int) { NoFitBelow(l, size, |l.ring|) }

  /** A request that would leave no byte of a new arena over: no new arena ever passes the strict test. */
  predicate FillsArena(size: int) { (size + HDR + ARENA) % PAGE == 0 }

  lemma {:induction false} NoneBelow(l: Layout, size: int)
    ensures NoFitBelow(l, size, 0)
  {
  }

  /** Looking at block `i` after `i` blocks that failed. */
  lemma {:induction false} FitOrNot(l: Layout, size: int, i: nat)
    requires i < |l.ring| && l.ring[i] in l.hdr && NoFitBelow(l, size, i)
    ensures Fits(l.hdr[l.ring[i]], size) ==> FirstFit(l, size, i) && !NoFit(l, size)
    ensures !Fits(l.hdr[l.ring[i]], size) ==> NoFitBelow(l, size, i + 1)
  {
  }

  /** For requests of at least two headers only free blocks pass the test. */
  lemma {:induction false} LargeRequestsFitFreeBlocks(l: Layout, size: int, i: nat)
    requires Ok(l) && size >= 2 * HDR && i < |l.ring| && Fits(l.hdr[l.ring[i]], size)
    ensures Free(l, i)
  {
  }

  /** For every smaller positive request there is a heap whose first fit is a block in use. */
  lemma {:induction false} SmallRequestMayHitLiveBlock(size: int) returns (l: Layout)
    requires 0 < size < 2 * HDR
    ensures Ok(l) && FirstFit(l, size, 0) && !Free(l, 0)
  {
    var room := PAGE - ARENA - HDR;
    l := Layout(map[PAGE + ARENA := Header(PAGE + ARENA, room, room - 2 * HDR)],
                map[PAGE := Arena(0, PAGE)], [PAGE + ARENA], [0], [PAGE]);
    assert Adjoins(l, 0);
  }

  /** A fresh arena passes the test for its request unless the request fills it exactly. */
  lemma {:induction false} FreshArenaFits(size: int)
    requires size >= 0
    ensures MapSize(size) > ARENA + HDR
    ensures size < MapSize(size) - ARENA - HDR <==> !FillsArena(size)
  {
    AlignedUp(size + HDR + ARENA);
  }

  /** Mapping a new arena changes no live block. */
  lemma {:induction false} GrowLive(l: Layout, base: int, size: int)
    requires Linear(l) && forall m :: 0 <= m < |l.ring| ==> l.ring[m] != base + ARENA
    ensures Live(Grow(l, base, size)) == Live(l)
  {
    assert l.ring[|l.ring| - 1] in l.ring;
    assert forall h :: h in l.ring ==> h in l.hdr;
    hide ListedIn, Distinct, Linked;
  }

  // ---------- what a walk along the ring needs ----------

  /** The test on the blocks of a ring that grew by a new arena. */
  lemma {:induction false} GrownFits(l: Layout, base: int, size: int)
    requires Ok(l) && Linear(l) && size >= 0 && Unmapped(l, base, MapSize(size)) && NoFit(l, size)
    ensures var l', n := Grow(l, base, MapSize(size)), |l.ring|;
      && |l'.ring| == n + 1 && l'.ring[n] == base + ARENA && l'.ring[n] in l'.hdr && l'.ring[0] == l.ring[0]
      && NoFitBelow(l', size, n)
      && (Fits(l'.hdr[l'.ring[n]], size) <==> !FillsArena(size)) && Free(l', n)
      && l.ring[n - 1] in l'.hdr && l'.hdr[l.ring[n - 1]].next == base + ARENA
      && Live(l') == Live(l) && |l'.arenas| == |l.arenas| + 1
  {
    FreshArenaFits(size);
    assert l.ring[|l.ring| - 1] in l.hdr && l.arenas[|l.arenas| - 1] in l.arena;
    hide Distinct, ListedIn, Adjoins, MapSize, Unmapped, Live, FillsArena;
    NewHeaderIsNew(l, base, MapSize(size));
    GrowLive(l, base, MapSize(size));
    GrowAt(l, base, MapSize(size), |l.ring|);
    GrowAt(l, base, MapSize(size), 0);
    GrowAt(l, base, MapSize(size), |l.ring| - 1);
    forall j | 0 <= j < |l.ring|
      ensures var l' := Grow(l, base, MapSize(size));
        l'.ring[j] in l'.hdr && !Fits(l'.hdr[l'.ring[j]], size)
    {
      GrowAt(l, base, MapSize(size), j);
    }
  }

  /** What a walk along the ring needs to know about block `i`. */
  lemma {:induction false} BlockFacts(l: Layout, i: nat)
    requires Ok(l) && i < |l.ring|
    ensures l.ring[i] in l.hdr && l.ring[i] > 0 && |l.owner| == |l.ring|
    ensures l.hdr[l.ring[i]].next == l.ring[Succ(|l.ring|, i)]
    ensures l.hdr[l.ring[i]].next == l.ring[0] <==> i + 1 == |l.ring|
    ensures Sane(l.hdr[l.ring[i]])
  {
    hide Adjoins, ListedIn;
    InsideArena(l, i);
    assert LeadsOn(l, i);
    OtherBlock(l.ring, Succ(|l.ring|, i), 0);
    var k := l.owner[i];
    PositiveArena(l, k);
  }

  lemma {:induction false} PositiveArena(l: Layout, k: nat)
    requires Listed(l) && k < |l.arenas|
    ensures l.arenas[k] > 0
  {
  }

  lemma {:induction false} EndFacts(l: Layout)
    requires Ok(l)
    ensures |l.ring| > 0 && l.ring[|l.ring| - 1] in l.hdr && l.ring[0] == l.arenas[0] + ARENA && |l.owner| == |l.ring|
    ensures |l.arenas| > 0 && l.arenas[|l.arenas| - 1] in l.arena && l.arenas[0] > 0
    ensures Linear(l)
  {
  }

  // ---------- the first arena ----------

  lemma {:induction false} EmptyHeap(l: Layout, size: int)
    requires l.ring == []
    ensures Live(l) == map[] && NoFit(l, size)
  {
  }

  /** A heap of one arena is tiled by its one free block, whatever else is stored in the memory. */
  lemma {:induction false} OneArena(hdr: map<int, Header>, arena: map<int, Arena>, base: int, size: int)
    requires base > 0 && size > ARENA + HDR
    requires base in arena && arena[base] == Arena(0, size)
    requires base + ARENA in hdr && hdr[base + ARENA] == Header(base + ARENA, size - ARENA - HDR, 0)
    ensures var l := Layout(hdr, arena, [base + ARENA], [0], [base]); Ok(l) && Live(l) == map[]
  {
    var l := Layout(hdr, arena, [base + ARENA], [0], [base]);
    assert Adjoins(l, 0);
  }

  lemma {:induction false} FreshFits(l: Layout, size: int)
    requires |l.ring| == 1 && l.ring[0] in l.hdr && size >= 0
    requires l.hdr[l.ring[0]].size == MapSize(size) - ARENA - HDR && l.hdr[l.ring[0]].asize == 0
    ensures NoFit(l, size) <==> FillsArena(size)
    ensures forall i :: FirstFit(l, size, i) ==> Free(l, i)
  {
    FreshArenaFits(size);
  }

  lemma {:induction false} FirstFitFacts(l: Layout, size: int, i: nat)
    requires Ok(l) && FirstFit(l, size, i) && size >= 0
    ensures i < |l.ring| && l.ring[i] in l.hdr && size <= l.hdr[l.ring[i]].size && l.ring[i] > 0
  {
    BlockFacts(l, i);
  }

  // ---------- what handing out a block does ----------

  /** Block `h`, live before block `i` is allocated, is in the ring afterwards. */
  lemma {:induction false} StillInRing(l: Layout, i: nat, size: int, h: int)
    requires |l.owner| == |l.ring| && i < |l.ring| && l.ring[i] in l.hdr && h in l.ring
    ensures h in Alloc(l, i, size).ring
  {
    InsertMembers(l.ring, i + 1, l.ring[i] + HDR + size);
  }

  /** mrealloc clears asize before it splits or marks, which makes no difference. */
  lemma {:induction false} ClearedAlloc(l: Layout, i: nat, size: int)
    requires i < |l.ring| && l.ring[i] in l.hdr && |l.owner| == |l.ring|
    ensures Alloc(Mark(l, i, 0), i, size) == Alloc(l, i, size)
  {
    var h := l.ring[i];
    if ShouldSplit(l.hdr[h], size) {
      assert Split(Mark(l, i, 0), i, size).hdr == Split(l, i, size).hdr;
    } else {
      assert Mark(Mark(l, i, 0), i, size).hdr == Mark(l, i, size).hdr;
    }
  }

  lemma {:induction false} SizeFacts(l: Layout, i: nat)
    requires Ok(l) && i < |l.ring|
    ensures l.hdr[l.ring[i]].asize <= l.hdr[l.ring[i]].size
  {
  }

  lemma {:induction false} AllocBlock(l: Layout, i: nat, size: int)
    requires Ok(l) && i < |l.ring| && 0 <= size <= l.hdr[l.ring[i]].size
    ensures var l' := Alloc(l, i, size);
      i < |l'.ring| && l'.ring[i] == l.ring[i] && l'.ring[i] in l'.hdr && size <= l'.hdr[l'.ring[i]].size
  {
    hide Adjoins, ListedIn, Distinct;
  }
}
