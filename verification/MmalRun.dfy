/**
 Whole runs of the allocator: the heaps that calls of mmalloc, mfree and mrealloc lead through,
 with the addresses that mmap chooses left open.
 */
module MmalRun {
  import opened Seqs
  import opened MmalLayout
  import opened MmalFree
  import opened MmalLive
  import opened MmalFit
  import opened MmalApart
  import opened MmalBytes

  // ---------- mapping arenas ----------

  ghost predicate NoHeap(l: Layout) { l.ring == [] && l.owner == [] && l.arenas == [] }

  /** No heap yet, or one that satisfies the invariant of the allocator. */
  ghost predicate Sound(l: Layout) { NoHeap(l) || Ok(l) }

  /** The first arena. */
  function First(l: Layout, base: int, size: int): Layout {
    Layout(l.hdr[base + ARENA := Header(base + ARENA, size - ARENA - HDR, 0)], l.arena[base := Arena(0, size)],
           [base + ARENA], [0], [base])
  }

  ghost predicate Growable(l: Layout) {
    |l.ring| > 0 && l.ring[|l.ring| - 1] in l.hdr && |l.arenas| > 0 && l.arenas[|l.arenas| - 1] in l.arena
  }

  /** One more arena for a request of `size` bytes. */
  ghost function MapOne(l: Layout, base: int, size: int): Layout {
    if Growable(l) then Grow(l, base, MapSize(size)) else First(l, base, MapSize(size))
  }

  /** Arenas at the addresses `bases`, one after the other. */
  ghost function MapAll(l: Layout, bases: seq<int>, size: int): Layout {
    if |bases| == 0 then l else MapOne(MapAll(l, bases[..|bases| - 1], size), bases[|bases| - 1], size)
  }

  /** Each mapping is a region that overlaps no arena, and is made because nothing fits. */
  ghost predicate Mappable(l: Layout, bases: seq<int>, size: int) {
    |bases| > 0 ==>
      var before := MapAll(l, bases[..|bases| - 1], size);
      && Mappable(l, bases[..|bases| - 1], size)
      && Unmapped(before, bases[|bases| - 1], MapSize(size)) && NoFit(before, size)
  }

  lemma {:induction false} MapOneSound(l: Layout, base: int, size: int)
    requires Sound(l) && size >= 0 && Unmapped(l, base, MapSize(size))
    ensures Ok(MapOne(l, base, size)) && Live(MapOne(l, base, size)) == Live(l)
  {
    FreshArenaFits(size);
    hide Ok, Live, Unmapped;
    if NoHeap(l) {
      UnmappedIsPositive(l, base, MapSize(size));
      EmptyHeap(l, size);
      OneArena(First(l, base, MapSize(size)).hdr, First(l, base, MapSize(size)).arena, base, MapSize(size));
    } else {
      EndFacts(l);
      GrowOk(l, base, MapSize(size));
      NewHeaderIsNew(l, base, MapSize(size));
      GrowLive(l, base, MapSize(size));
    }
  }

  lemma {:induction false} UnmappedIsPositive(l: Layout, base: int, size: int)
    requires Unmapped(l, base, size)
    ensures base > 0
  {
  }

  /** However many arenas are mapped, the heap stays sound and no live block changes. */
  lemma {:induction false} MapAllSound(l: Layout, bases: seq<int>, size: int)
    requires Sound(l) && size >= 0 && Mappable(l, bases, size)
    ensures Sound(MapAll(l, bases, size)) && Live(MapAll(l, bases, size)) == Live(l)
    ensures bases != [] ==> Ok(MapAll(l, bases, size))
  {
    hide Ok, Live, Unmapped, MapOne;
    if |bases| > 0 {
      MapAllSound(l, bases[..|bases| - 1], size);
      MapOneSound(MapAll(l, bases[..|bases| - 1], size), bases[|bases| - 1], size);
    }
  }

  lemma {:induction false} MapMore(l: Layout, bases: seq<int>, base: int, size: int)
    requires Mappable(l, bases, size)
    requires var mid := MapAll(l, bases, size); Unmapped(mid, base, MapSize(size)) && NoFit(mid, size)
    ensures Mappable(l, bases + [base], size)
    ensures MapAll(l, bases + [base], size) == MapOne(MapAll(l, bases, size), base, size)
  {
    assert (bases + [base])[..|bases|] == bases;
    hide MapOne, Unmapped, NoFit;
  }

  lemma {:induction false} MapThen(l: Layout, a: seq<int>, b: seq<int>, size: int)
    requires Mappable(l, a, size) && Mappable(MapAll(l, a, size), b, size)
    ensures Mappable(l, a + b, size) && MapAll(l, a + b, size) == MapAll(MapAll(l, a, size), b, size)
  {
    hide MapOne, Unmapped, NoFit;
    if |b| == 0 {
      assert a + b == a;
    } else {
      MapThen(l, a, b[..|b| - 1], size);
      assert (a + b)[..|a + b| - 1] == a + b[..|b| - 1];
    }
  }

  lemma {:induction false} MapOneGrows(l: Layout, base: int, size: int)
    requires Ok(l)
    ensures Growable(l) && MapOne(l, base, size) == Grow(l, base, MapSize(size))
  {
    EndFacts(l);
  }

  lemma {:induction false} FirstMapped(l: Layout, base: int, size: int)
    requires NoHeap(l) && NoFit(l, size) && Unmapped(l, base, MapSize(size))
    ensures Mappable(l, [base], size) && MapAll(l, [base], size) == First(l, base, MapSize(size))
  {
    assert [base][..0] == [];
    hide NoFit, Unmapped;
  }

  lemma {:induction false} NothingMapped(l: Layout, size: int)
    ensures MapAll(l, [], size) == l && Mappable(l, [], size)
  {
  }

  // ---------- which block a mapping hands out ----------

  /** The block of a new arena is the only one that can fit, and it is free. */
  lemma {:induction false} MapOneFits(l: Layout, base: int, size: int, i: nat)
    requires Sound(l) && size >= 0 && Unmapped(l, base, MapSize(size)) && NoFit(l, size)
    requires FirstFit(MapOne(l, base, size), size, i)
    ensures var l' := MapOne(l, base, size);
      && i + 1 == |l'.ring| && l'.ring[i] in l'.hdr && l'.hdr[l'.ring[i]].asize == 0
      && l'.hdr[l'.ring[i]].size == MapSize(size) - ARENA - HDR
  {
    hide Ok, Unmapped, MapSize, Live;
    if !NoHeap(l) {
      EndFacts(l);
      GrownFits(l, base, size);
      GrownLast(l, base, MapSize(size));
      hide Grow, NoFit;
    }
  }

  lemma {:induction false} GrownLast(l: Layout, base: int, size: int)
    requires Linear(l) && Growable(l) && l.ring[|l.ring| - 1] != base + ARENA
    ensures var l' := Grow(l, base, size);
      |l'.ring| == |l.ring| + 1 && l'.ring[|l.ring|] == base + ARENA && base + ARENA in l'.hdr
      && l'.hdr[base + ARENA].size == size - ARENA - HDR && l'.hdr[base + ARENA].asize == 0
  {
  }

  /** Either a block of the old heap fits, and nothing is mapped, or the block handed out is free, and last. */
  lemma {:induction false} ChosenBlock(l: Layout, bases: seq<int>, size: int, i: nat)
    requires Sound(l) && size >= 0 && Mappable(l, bases, size) && FirstFit(MapAll(l, bases, size), size, i)
    ensures bases == [] <==> !NoFit(l, size)
    ensures bases != [] ==> var mid := MapAll(l, bases, size);
      && i + 1 == |mid.ring| && mid.ring[i] in mid.hdr && mid.hdr[mid.ring[i]].asize == 0
      && mid.hdr[mid.ring[i]].size == MapSize(size) - ARENA - HDR
  {
    if |bases| == 0 {
      FitsSomewhere(l, size, i);
    } else {
      NothingFitted(l, bases, size);
      MapAllSound(l, bases[..|bases| - 1], size);
      MapOneFits(MapAll(l, bases[..|bases| - 1], size), bases[|bases| - 1], size, i);
    }
  }

  lemma {:induction false} FitsSomewhere(l: Layout, size: int, i: nat)
    requires FirstFit(l, size, i)
    ensures !NoFit(l, size)
  {
  }

  lemma {:induction false} NothingFitted(l: Layout, bases: seq<int>, size: int)
    requires Mappable(l, bases, size) && bases != []
    ensures NoFit(l, size)
  {
    hide NoFit, Unmapped, MapOne;
    if |bases| > 1 {
      NothingFitted(l, bases[..|bases| - 1], size);
    }
  }

  /** The block that first fit finds in the heap as it is, if it finds one, is free. */
  ghost predicate FitsOnlyFree(l: Layout, size: int) {
    forall i: nat :: FirstFit(l, size, i) ==> l.hdr[l.ring[i]].asize == 0
  }

  /** That is so for every request of at least two headers. */
  lemma {:induction false} LargeFitsOnlyFree(l: Layout, size: int)
    requires Ok(l) && size >= 2 * HDR
    ensures FitsOnlyFree(l, size)
  {
    forall i: nat | FirstFit(l, size, i)
      ensures l.hdr[l.ring[i]].asize == 0
    {
      LargeRequestsFitFreeBlocks(l, size, i);
    }
  }

  /** Where block `i` of `l` moves to when first fit picks block `k` of `mid`. */
  lemma {:induction false} MovedBlock(l: Layout, mid: Layout, size: int, i: nat, k: nat)
    requires Ok(l) && i < |l.ring| && l.ring[i] in l.hdr && l.hdr[l.ring[i]].asize > 0
    requires Ok(mid) && FirstFit(mid, size, k) && Live(mid) == Live(l)
    requires if NoFit(l, size) then mid.hdr[mid.ring[k]].asize == 0 else mid == l
    ensures mid.ring[k] == l.ring[i] <==> FirstFit(l, size, i)
    ensures FitsOnlyFree(l, size) <==> mid.ring[k] !in Live(l)
  {
    EndFacts(l);
    LiveBlock(l, i);
    UnusedIff(l, mid, size, k);
    hide Ok, Live, NoFit, Linear, FitsOnlyFree;
    if NoFit(l, size) {
      FreeIsNotLive(mid, k);
      if FirstFit(l, size, i) {
        FitsSomewhere(l, size, i);
      }
    } else if FirstFit(l, size, i) {
      OneFirstFit(l, size, i, k);
    } else if l.ring[i] == l.ring[k] {
      RingOnce(l, i, k);
    }
  }

  /** The block handed out is a free one if and only if the first fit of the heap as it is, if any, is free. */
  lemma {:induction false} UnusedIff(l: Layout, mid: Layout, size: int, k: nat)
    requires Ok(mid) && FirstFit(mid, size, k) && Live(mid) == Live(l)
    requires if NoFit(l, size) then mid.hdr[mid.ring[k]].asize == 0 else mid == l
    ensures FitsOnlyFree(l, size) <==> mid.ring[k] !in Live(l)
  {
    hide Ok, Live, NoFit, NoFitBelow;
    LiveIffUsed(mid, k);
    if NoFit(l, size) {
      NothingFits(l, size);
    } else {
      forall j: nat | FirstFit(l, size, j)
        ensures j == k
      {
        OneFirstFit(l, size, j, k);
      }
    }
  }

  lemma {:induction false} NothingFits(l: Layout, size: int)
    requires NoFit(l, size)
    ensures FitsOnlyFree(l, size)
  {
  }

  lemma {:induction false} RingOnce(l: Layout, i: nat, k: nat)
    requires Linear(l) && i < |l.ring| && k < |l.ring| && l.ring[i] == l.ring[k]
    ensures i == k
  {
    OtherBlock(l.ring, i, k);
  }

  // ---------- adjacent free blocks ----------

  ghost predicate NoFreePairs(l: Layout) { NoHeap(l) || (Linear(l) && Coalesced(l)) }

  /**
   A request after which free blocks are still apart, as far as the heap before the call says:
   what is handed out, and split, does not lie in front of a free block.
   */
  ghost predicate MallocStaysApart(l: Layout, size: int) {
    if NoFit(l, size) then size > 0
    else Linear(l) ==> forall i: nat :: FirstFit(l, size, i) ==> StaysApart(l, i, size)
  }

  lemma {:induction false} MapOneApart(l: Layout, base: int, size: int)
    requires Sound(l) && NoFreePairs(l) && size >= 0 && Unmapped(l, base, MapSize(size))
    ensures Ok(MapOne(l, base, size)) && Linear(MapOne(l, base, size)) && Coalesced(MapOne(l, base, size))
  {
    FreshArenaFits(size);
    MapOneSound(l, base, size);
    EndFacts(MapOne(l, base, size));
    hide Ok, Unmapped, MapSize, Coalesced, Linear;
    if NoHeap(l) {
      OneBlockCoalesced(First(l, base, MapSize(size)));
    } else {
      EndFacts(l);
      GrowApart(l, base, MapSize(size));
    }
  }

  lemma {:induction false} MapAllApart(l: Layout, bases: seq<int>, size: int)
    requires Sound(l) && NoFreePairs(l) && size >= 0 && Mappable(l, bases, size)
    ensures NoFreePairs(MapAll(l, bases, size))
    ensures bases != [] ==> Linear(MapAll(l, bases, size)) && Coalesced(MapAll(l, bases, size))
  {
    hide Sound, Unmapped, MapOne, Coalesced, Linear, NoFit;
    if |bases| > 0 {
      MapAllApart(l, bases[..|bases| - 1], size);
      MapAllSound(l, bases[..|bases| - 1], size);
      MapOneApart(MapAll(l, bases[..|bases| - 1], size), bases[|bases| - 1], size);
    }
  }

  lemma {:induction false} OneFirstFit(l: Layout, size: int, i: nat, j: nat)
    requires FirstFit(l, size, i) && FirstFit(l, size, j)
    ensures i == j
  {
  }

  /** The last block of the ring stays apart from what is split off it, unless it gets no bytes. */
  lemma {:induction false} LastStaysApart(l: Layout, i: nat, size: int)
    requires Linear(l) && i + 1 == |l.ring| && size >= 0 && l.hdr[l.ring[i]].size == MapSize(size) - ARENA - HDR
    ensures StaysApart(l, i, size) <==> size > 0
  {
    AlignedUp(size + HDR + ARENA);
  }

  /** mmalloc keeps free blocks apart exactly when the heap before the call says so. */
  lemma {:induction false} MallocApart(l: Layout, bases: seq<int>, size: int, i: nat)
    requires Sound(l) && NoFreePairs(l) && size >= 0 && Mappable(l, bases, size)
    requires Ok(MapAll(l, bases, size)) && FirstFit(MapAll(l, bases, size), size, i)
    requires |MapAll(l, bases, size).ring| == |MapAll(l, bases, size).owner| && i < |MapAll(l, bases, size).ring|
    requires MapAll(l, bases, size).ring[i] in MapAll(l, bases, size).hdr
    ensures Linear(Alloc(MapAll(l, bases, size), i, size))
    ensures Coalesced(Alloc(MapAll(l, bases, size), i, size)) <==> MallocStaysApart(l, size)
  {
    hide Sound, Ok, Mappable, MapAll, FirstFit, Coalesced, NoFit, StaysApart, Alloc, Linear, MapSize;
    var mid := MapAll(l, bases, size);
    MapAllApart(l, bases, size);
    ChosenBlock(l, bases, size, i);
    FirstFitFacts(mid, size, i);
    AllocOk(mid, i, size);
    EndFacts(mid);
    EndFacts(Alloc(mid, i, size));
    NotNoHeap(mid, i);
    AllocCoalesced(mid, i, size);
    if bases == [] {
      NothingMapped(l, size);
      forall j: nat | FirstFit(l, size, j)
        ensures j == i
      {
        OneFirstFit(l, size, i, j);
      }
    } else {
      LastStaysApart(mid, i, size);
    }
  }

  lemma {:induction false} NotNoHeap(l: Layout, i: nat)
    requires i < |l.ring|
    ensures !NoHeap(l)
  {
  }

  // ---------- runs ----------

  /**
   What a call does to the heap.  `p` and `q` are pointers of the program; the indices say
   where their headers are in the ring, and `bases` which arenas are mapped on the way.
   A move that finds no room is not an event: the code goes on to copy to the null pointer.
   */
  datatype Event =
    | Malloc(size: int, p: int, bases: seq<int>, i: nat)
    | MallocFails(size: int, bases: seq<int>)
    | Release(p: int, i: nat)
    | Shrink(p: int, size: int, i: nat)
    | Move(p: int, size: int, q: int, bases: seq<int>, k: nat, m: nat)

  /** Block `i` of `l` has its header where `p` says. */
  ghost predicate PointsTo(l: Layout, p: int, i: nat) {
    i < |l.ring| && |l.owner| == |l.ring| && l.ring[i] == p - HDR && l.ring[i] in l.hdr
  }

  /** mmalloc hands out block `i` of `mid`, the first that fits. */
  ghost predicate HandsOut(l: Layout, bases: seq<int>, size: int, p: int, i: nat) {
    Mappable(l, bases, size) && FirstFit(MapAll(l, bases, size), size, i) && PointsTo(MapAll(l, bases, size), p, i)
  }

  /** The code takes `l` to `l'`; nothing is required of the heap but the ring, and nothing of the merges. */
  ghost predicate Happens(l: Layout, e: Event, l': Layout) {
    match e
    case Malloc(size, p, bases, i) =>
      0 <= size && HandsOut(l, bases, size, p, i) && l' == Alloc(MapAll(l, bases, size), i, size)
    case MallocFails(size, bases) =>
      0 <= size && Mappable(l, bases, size) && NoFit(MapAll(l, bases, size), size) && l' == MapAll(l, bases, size)
    case Release(p, i) => Linear(l) && PointsTo(l, p, i) && l' == Freed(l, i)
    case Shrink(p, size, i) => PointsTo(l, p, i) && 0 < size <= l.hdr[p - HDR].asize && l' == Alloc(l, i, size)
    case Move(p, size, q, bases, k, m) =>
      && p - HDR in Live(l) && Live(l)[p - HDR] < size && HandsOut(l, bases, size, q, k)
      && var l1 := Alloc(MapAll(l, bases, size), k, size);
      && Linear(l1) && PointsTo(l1, p, m) && l' == Freed(l1, m)
  }

  /** The merges of the event join adjacent blocks of one arena. */
  ghost predicate Safe(l: Layout, e: Event, l': Layout)
    requires Happens(l, e, l')
  {
    match e
    case Release(_, i) => FreeOk(l, i)
    case Move(_, size, _, bases, k, m) => FreeOk(Alloc(MapAll(l, bases, size), k, size), m)
    case _ => true
  }

  /** What the event means for the live blocks. */
  function LiveAfter(live: map<int, int>, e: Event): map<int, int> {
    match e
    case Malloc(size, p, _, _) => if size > 0 then live[p - HDR := size] else live - {p - HDR}
    case MallocFails(_, _) => live
    case Release(p, _) => live - {p - HDR}
    case Shrink(p, size, _) => live[p - HDR := size]
    case Move(p, size, q, _, _, _) => live[q - HDR := size] - {p - HDR}
  }

  /** Handing out no bytes, which frees the block if it was in use. */
  lemma {:induction false} AllocNothing(l: Layout, i: nat)
    requires Ok(l) && i < |l.ring| && |l.owner| == |l.ring| && l.ring[i] in l.hdr
    ensures Live(Alloc(l, i, 0)) == Live(l) - {l.ring[i]}
  {
    EndFacts(l);
    if ShouldSplit(l.hdr[l.ring[i]], 0) {
      RightIsNew(l, i, 0);
      SplitLiveNothing(l, i);
    } else {
      hide Ok, Live;
      MarkLive(l, i);
    }
  }

  lemma {:induction false} SplitLiveNothing(l: Layout, i: nat)
    requires Linear(l) && i < |l.ring|
    requires forall j :: 0 <= j < |l.ring| ==> l.ring[j] != l.ring[i] + HDR
    ensures Live(Split(l, i, 0)) == Live(l) - {l.ring[i]}
  {
    hide ListedIn, Distinct;
    var right := l.ring[i] + HDR;
    InsertMembers(l.ring, i + 1, right);
    LinearFacts(l, i);
    hide InsertAt, Linked;
    var l' := Split(l, i, 0);
    assert right !in l.ring && l.ring[i] in l.ring;
    forall h
      ensures h in Live(l') <==> h in Live(l) - {l.ring[i]}
      ensures h in Live(l') ==> Live(l')[h] == Live(l)[h]
    {
    }
  }

  lemma {:induction false} HandedOut(l: Layout, bases: seq<int>, size: int, p: int, i: nat)
    requires Sound(l) && 0 <= size && HandsOut(l, bases, size, p, i)
    ensures var mid := MapAll(l, bases, size);
      && Ok(mid) && i < |mid.ring| && mid.ring[i] in mid.hdr && 0 <= size <= mid.hdr[mid.ring[i]].size
      && |mid.owner| == |mid.ring|
      && Ok(Alloc(mid, i, size)) && Live(mid) == Live(l)
      && Live(Alloc(mid, i, size)) == if size > 0 then Live(l)[p - HDR := size] else Live(l) - {p - HDR}
  {
    hide Ok, Live, Mappable, MapAll, FirstFit, Alloc;
    var mid := MapAll(l, bases, size);
    MapAllSound(l, bases, size);
    NotNoHeap(mid, i);
    FirstFitFacts(mid, size, i);
    AllocOk(mid, i, size);
    if size > 0 {
      AllocLive(mid, i, size);
    } else {
      AllocNothing(mid, i);
    }
  }

  /** On a sound heap an event leaves a sound heap exactly when its merges are right. */
  lemma {:induction false} StepSound(l: Layout, e: Event, l': Layout)
    requires Sound(l) && Happens(l, e, l')
    ensures Sound(l') <==> Safe(l, e, l')
    ensures Live(l') == LiveAfter(Live(l), e)
  {
    hide Ok, Live, Alloc, MapAll, Mappable, FirstFit, Freed, FreeOk, NoFit, Linear;
    match e
    case Malloc(size, p, bases, i) =>
      HandedOut(l, bases, size, p, i);
    case MallocFails(size, bases) =>
      MapAllSound(l, bases, size);
    case Release(p, i) =>
      FreedSound(l, i);
    case Shrink(p, size, i) =>
      NotNoHeap(l, i);
      SizeFacts(l, i);
      AllocOk(l, i, size);
      AllocLive(l, i, size);
    case Move(p, size, q, bases, k, m) =>
      LivePositive(l, p - HDR);
      HandedOut(l, bases, size, q, k);
      FreedSound(Alloc(MapAll(l, bases, size), k, size), m);
  }

  lemma {:induction false} LivePositive(l: Layout, h: int)
    requires h in Live(l)
    ensures Live(l)[h] > 0
  {
  }

  lemma {:induction false} FreedSound(l: Layout, i: nat)
    requires Sound(l) && Linear(l) && i < |l.ring|
    ensures Sound(Freed(l, i)) <==> FreeOk(l, i)
    ensures Live(Freed(l, i)) == Live(l) - {l.ring[i]}
  {
    hide Ok, Live, Freed, FreeOk;
    FreedOkIff(l, i);
    FreedOkOrBroken(l, i);
    RingNotEmpty(Freed(l, i));
    FreedLive(l, i);
  }

  lemma {:induction false} RingNotEmpty(l: Layout)
    requires Linear(l)
    ensures !NoHeap(l)
  {
  }

  /** A run from a program's start: `ls[j]` becomes `ls[j + 1]` by `es[j]`. */
  ghost predicate Run(ls: seq<Layout>, es: seq<Event>) {
    |ls| == |es| + 1 && NoHeap(ls[0]) && forall j :: 0 <= j < |es| ==> StepAt(ls, es, j)
  }

  ghost predicate StepAt(ls: seq<Layout>, es: seq<Event>, j: nat)
    requires j < |es| && |ls| == |es| + 1
  {
    Happens(ls[j], es[j], ls[j + 1])
  }

  ghost predicate SafeAt(ls: seq<Layout>, es: seq<Event>, j: nat)
    requires j < |es| && |ls| == |es| + 1 && StepAt(ls, es, j)
  {
    Safe(ls[j], es[j], ls[j + 1])
  }

  ghost predicate SafeRun(ls: seq<Layout>, es: seq<Event>) {
    Run(ls, es) && forall j :: 0 <= j < |es| ==> SafeAt(ls, es, j)
  }

  /** A run goes on with any event that can happen next. */
  lemma {:induction false} Extended(ls: seq<Layout>, es: seq<Event>, e: Event, l': Layout)
    requires SafeRun(ls, es) && Happens(ls[|es|], e, l')
    ensures Run(ls + [l'], es + [e]) && forall j :: 0 <= j < |es| ==> SafeAt(ls + [l'], es + [e], j)
    ensures SafeAt(ls + [l'], es + [e], |es|) <==> Safe(ls[|es|], e, l')
    ensures Safe(ls[|es|], e, l') ==> SafeRun(ls + [l'], es + [e])
  {
    hide Happens, Safe;
    forall j | 0 <= j < |es|
      ensures StepAt(ls + [l'], es + [e], j) && SafeAt(ls + [l'], es + [e], j)
    {
      assert StepAt(ls, es, j) && SafeAt(ls, es, j);
    }
  }

  lemma {:induction false} NoEvents(l: Layout)
    requires NoHeap(l)
    ensures SafeRun([l], [])
  {
  }

  /** The live blocks that the program's calls account for. */
  function Lives(es: seq<Event>): map<int, int> {
    if |es| == 0 then map[] else LiveAfter(Lives(es[..|es| - 1]), es[|es| - 1])
  }

  /**
   Every run: as long as all merges were right the heap is sound and its live blocks are those
   the calls account for.
   */
  lemma {:induction false} RunIsSound(ls: seq<Layout>, es: seq<Event>, n: nat)
    requires Run(ls, es) && n <= |es| && forall j :: 0 <= j < n ==> SafeAt(ls, es, j)
    ensures Sound(ls[n]) && Live(ls[n]) == Lives(es[..n])
  {
    hide Happens, Safe, Live, Ok;
    if n == 0 {
      EmptyHeap(ls[0], 0);
    } else {
      RunIsSound(ls, es, n - 1);
      assert StepAt(ls, es, n - 1) && SafeAt(ls, es, n - 1);
      StepSound(ls[n - 1], es[n - 1], ls[n]);
      assert es[..n][..n - 1] == es[..n - 1];
    }
  }

  /** ... and not longer: the heap is sound throughout a run if and only if every merge in it is right. */
  lemma {:induction false} RunIsSoundIff(ls: seq<Layout>, es: seq<Event>)
    requires Run(ls, es)
    ensures (forall n :: 0 <= n <= |es| ==> Sound(ls[n])) <==> (forall j :: 0 <= j < |es| ==> SafeAt(ls, es, j))
  {
    hide Happens, Safe, Sound;
    if forall j :: 0 <= j < |es| ==> SafeAt(ls, es, j) {
      forall n | 0 <= n <= |es|
        ensures Sound(ls[n])
      {
        RunIsSound(ls, es, n);
      }
    } else {
      var j :| 0 <= j < |es| && !SafeAt(ls, es, j);
      assert StepAt(ls, es, j);
      if Sound(ls[j]) {
        StepSound(ls[j], es[j], ls[j + 1]);
      }
    }
  }

  /** In such a run the payloads of two live blocks never overlap. */
  lemma {:induction false} RunPayloadsApart(ls: seq<Layout>, es: seq<Event>, n: nat, g: int, h: int)
    requires Run(ls, es) && n <= |es| && forall j :: 0 <= j < n ==> SafeAt(ls, es, j)
    requires g in Lives(es[..n]) && h in Lives(es[..n]) && g != h
    ensures g + HDR + Lives(es[..n])[g] <= h || h + HDR + Lives(es[..n])[h] <= g
  {
    RunIsSound(ls, es, n);
    LiveApart(ls[n], g, h);
  }

  lemma {:induction false} LiveApart(l: Layout, g: int, h: int)
    requires Sound(l) && g in Live(l) && h in Live(l) && g != h
    ensures g + HDR + Live(l)[g] <= h || h + HDR + Live(l)[h] <= g
  {
    var i :| 0 <= i < |l.ring| && l.ring[i] == g;
    var j :| 0 <= j < |l.ring| && l.ring[j] == h;
    BlockOk(l, i);
    BlockOk(l, j);
    if i < j {
      Apart(l, i, j);
    } else {
      Apart(l, j, i);
    }
  }

  /** The requests of a run of mmalloc and mfree leave free blocks apart. */
  ghost predicate ApartAt(ls: seq<Layout>, es: seq<Event>, j: nat)
    requires j < |es| && |ls| == |es| + 1
  {
    es[j].Malloc? ==> MallocStaysApart(ls[j], es[j].size)
  }

  lemma {:induction false} StepNoFreePairs(l: Layout, e: Event, l': Layout)
    requires Sound(l) && NoFreePairs(l) && Happens(l, e, l')
    requires Safe(l, e, l') && (e.Malloc? || e.MallocFails? || e.Release?)
    ensures NoFreePairs(l') <==> (e.Malloc? ==> MallocStaysApart(l, e.size))
  {
    hide Ok, Alloc, MapAll, Mappable, FirstFit, Freed, FreeOk, NoFit, Linear, Coalesced, MallocStaysApart;
    match e
    case Malloc(size, p, bases, i) =>
      HandedOut(l, bases, size, p, i);
      MallocApart(l, bases, size, i);
      RingNotEmpty(Alloc(MapAll(l, bases, size), i, size));
    case MallocFails(size, bases) =>
      MapAllApart(l, bases, size);
    case Release(p, i) =>
      FreedSound(l, i);
      RingNotEmpty(l);
      FreedApart(l, i);
  }

  /**
   A run of mmalloc and mfree whose merges are right never leaves two adjacent free blocks if
   and only if no request splits a block in front of a free one.
   */
  lemma {:induction false} RunNoFreePairsIff(ls: seq<Layout>, es: seq<Event>)
    requires Run(ls, es) && forall j :: 0 <= j < |es| ==> SafeAt(ls, es, j) && !es[j].Shrink? && !es[j].Move?
    ensures (forall n :: 0 <= n <= |es| ==> NoFreePairs(ls[n])) <==> (forall j :: 0 <= j < |es| ==> ApartAt(ls, es, j))
  {
    hide Happens, Safe, Sound, NoFreePairs, MallocStaysApart;
    if forall j :: 0 <= j < |es| ==> ApartAt(ls, es, j) {
      forall n | 0 <= n <= |es|
        ensures NoFreePairs(ls[n])
      {
        RunNoFreePairs(ls, es, n);
      }
    } else {
      var j :| 0 <= j < |es| && !ApartAt(ls, es, j);
      assert StepAt(ls, es, j) && SafeAt(ls, es, j);
      RunIsSound(ls, es, j);
      if NoFreePairs(ls[j]) {
        StepNoFreePairs(ls[j], es[j], ls[j + 1]);
      }
    }
  }

  lemma {:induction false} RunNoFreePairs(ls: seq<Layout>, es: seq<Event>, n: nat)
    requires Run(ls, es) && forall j :: 0 <= j < |es| ==> SafeAt(ls, es, j) && !es[j].Shrink? && !es[j].Move?
    requires n <= |es| && forall j :: 0 <= j < n ==> ApartAt(ls, es, j)
    ensures NoFreePairs(ls[n])
  {
    hide Happens, Safe, Sound, NoFreePairs, MallocStaysApart;
    if n == 0 {
      NoHeapNoFreePairs(ls[0]);
    } else {
      RunNoFreePairs(ls, es, n - 1);
      RunIsSound(ls, es, n - 1);
      assert StepAt(ls, es, n - 1) && SafeAt(ls, es, n - 1) && ApartAt(ls, es, n - 1);
      StepNoFreePairs(ls[n - 1], es[n - 1], ls[n]);
    }
  }

  lemma {:induction false} NoHeapNoFreePairs(l: Layout)
    requires NoHeap(l)
    ensures NoFreePairs(l)
  {
  }

  /** Requests of at least two headers always meet that condition. */
  lemma {:induction false} LargeStaysApart(l: Layout, size: int)
    requires Sound(l) && NoFreePairs(l) && size >= 2 * HDR
    ensures MallocStaysApart(l, size)
  {
    hide Coalesced;
    if !NoFit(l, size) && Linear(l) {
      forall i: nat | FirstFit(l, size, i)
        ensures StaysApart(l, i, size)
      {
        LargeRequestsFitFreeBlocks(l, size, i);
        FreeStaysApart(l, i, size);
      }
    }
  }
}
