/** The allocator of sem_3/ips/proj_2/mmal.c, method by method. */
module Mmal {
  import opened Seqs
  import opened MmalLayout
  import opened MmalFree
  import opened MmalLive
  import opened MmalFit
  import opened MmalApart
  import opened MmalBytes
  import opened MmalRun
  import opened MmalHeld

  class Allocator {
    var hdr: map<int, Header>      // memory seen as headers
    var arena: map<int, Arena>     // memory seen as arena headers
    var first: int                 // first_arena, 0 for NULL
    var bytes: map<int, int>       // payload bytes
    var budget: nat                // how many more times mmap will succeed
    ghost var ring: seq<int>
    ghost var owner: seq<nat>
    ghost var arenas: seq<int>

    ghost function View(): Layout
      reads this
    {
      Layout(hdr, arena, ring, owner, arenas)
    }

    ghost predicate Empty()
      reads this
    {
      first == 0 && ring == [] && owner == [] && arenas == []
    }

    ghost predicate Rooted()
      reads this
    {
      first != 0 && Listed(View()) && first == arenas[0]
    }

    ghost predicate Valid()
      reads this
    {
      Empty() || (first != 0 && Ok(View()) && first == arenas[0])
    }

    /** No two adjacent free blocks in one arena. */
    ghost predicate NoAdjacentFree()
      reads this
    {
      Empty() || (Linear(View()) && Coalesced(View()))
    }

    constructor (budget: nat)
      ensures Valid() && Empty() && this.budget == budget
    {
      hdr, arena, first, bytes := map[], map[], 0, map[];
      this.budget := budget;
      ring, owner, arenas := [], [], [];
    }

    /** Storing a header overwrites whatever payload bytes were at its address. */
    method StoreHeader(h: int, v: Header)
      modifies this`hdr, this`bytes
      ensures hdr == old(hdr)[h := v] && bytes == Clobber(old(bytes), h, h + HDR)
    {
      hdr := hdr[h := v];
      bytes := Clobber(bytes, h, h + HDR);
    }

    /**
     mmap: fails when the budget is used up, and otherwise returns a region that overlaps no
     arena.  Callers rely on this contract only; the address chosen here is one possibility.
     */
    method Mmap(size: int) returns (base: int)
      requires Empty() || Rooted()
      requires size > 0
      modifies this`budget
      ensures old(budget) == 0 ==> base == 0 && budget == 0
      ensures old(budget) > 0 ==> base > 0 && budget == old(budget) - 1 && Unmapped(View(), base, size)
    {
      if budget == 0 {
        return 0;
      }
      budget := budget - 1;
      base := 1;
      var a := first;
      ghost var k: nat := 0;
      while a != 0
        invariant base > 0 && k <= |arenas|
        invariant a == if k < |arenas| then arenas[k] else 0
        invariant forall m :: 0 <= m < k ==> ArenaEnd(View(), m) <= base
        modifies {}
        decreases |arenas| - k
      {
        NextArena(arena, arenas, k);
        if base < a + arena[a].size {
          base := a + arena[a].size;
        }
        a := arena[a].next;
        k := k + 1;
      }
    }

    /** hdr_ctor, and the link to the first header. */
    method ArenaAlloc(size: int) returns (base: int)
      requires (Empty() || Rooted()) && size > ARENA + HDR
      modifies this`budget, this`hdr, this`arena, this`bytes
      ensures old(budget) == 0 ==> base == 0 && budget == 0
      ensures old(budget) > 0 ==> base > 0 && budget == old(budget) - 1 && Unmapped(old(View()), base, size)
      ensures base == 0 ==> hdr == old(hdr) && arena == old(arena) && bytes == old(bytes)
      ensures base != 0 ==> arena == old(arena)[base := Arena(0, size)]
      ensures base != 0 ==>
        var next := if first != 0 then first + ARENA else base + ARENA;
        hdr == old(hdr)[base + ARENA := Header(next, size - ARENA - HDR, 0)]
      ensures base != 0 ==> bytes == Mapped(old(bytes), base, size)
    {
      hide Empty, Rooted, Unmapped, Zeroed, Clobber;
      base := Mmap(size);
      if base == 0 {
        return 0;
      }
      bytes := Zeroed(bytes, base, base + size);
      arena := arena[base := Arena(0, size)];
      bytes := Clobber(bytes, base, base + ARENA);
      var newHead := base + ARENA;
      StoreHeader(newHead, Header(if first != 0 then first + ARENA else newHead, size - ARENA - HDR, 0));
    }

    /** arena_append: walk to the last arena and link the new one. */
    method ArenaAppend(a: int)
      requires a in arena && arena[a].next == 0 && a !in arenas
      requires Empty() || Rooted()
      modifies this`first, this`arena
      ensures old(first) == 0 ==> first == a && arena == old(arena)
      ensures old(first) != 0 ==> first == old(first) && |arenas| > 0 && arenas[|arenas| - 1] in old(arena)
      ensures old(first) != 0 ==>
        var last := arenas[|arenas| - 1]; arena == old(arena)[last := old(arena)[last].(next := a)]
    {
      if first == 0 {
        first := a;
        return;
      }
      var tmp := first;
      ghost var k: nat := 0;
      while arena[tmp].next != 0
        invariant k < |arenas| && tmp == arenas[k]
        modifies {}
        decreases |arenas| - k
      {
        NextArena(arena, arenas, k);
        tmp := arena[tmp].next;
        k := k + 1;
      }
      NextArena(arena, arenas, k);
      arena := arena[tmp := arena[tmp].(next := a)];
    }

    /** hdr_get_prev; `secondloop` never matters in a ring. */
    method HdrGetPrev(h: int, ghost i: nat) returns (p: int)
      requires Linear(View()) && i < |ring| && ring[i] == h
      ensures p == ring[Pred(|ring|, i)]
    {
      var address, secondloop := h, false;
      p := h;
      ghost var j: nat, steps: nat := i, 0;
      while true
        invariant steps < |ring| && j < |ring| && ring[j] == p
        invariant Linear(View()) && j == if i + steps < |ring| then i + steps else i + steps - |ring|
        invariant secondloop ==> steps > 0
        decreases |ring| - steps
      {
        LinearFacts(View(), j);
        OtherBlock(ring, Succ(|ring|, j), i);
        if hdr[p].next == address {
          return;
        }
        if p == address {
          OtherBlock(ring, j, i);
          if secondloop {
            return;
          }
          secondloop := true;
        }
        p := hdr[p].next;
        j, steps := Succ(|ring|, j), steps + 1;
      }
    }
  
    /** 267-272: map an arena for the request and link it behind the last block of the ring. */
    method MapAtEnd(h: int, size: int) returns (base: int)
      requires Valid() && first != 0 && size >= 0 && |ring| > 0 && h == ring[|ring| - 1]
      modifies this`budget, this`hdr, this`arena, this`bytes, this`ring, this`owner, this`arenas, this`first
      ensures Valid() && first == old(first)
      ensures old(budget) == 0 ==> base == 0 && budget == 0
      ensures old(budget) > 0 ==> base > 0 && budget == old(budget) - 1
      ensures base == 0 ==> View() == old(View()) && bytes == old(bytes)
      ensures base != 0 ==> Unmapped(old(View()), base, MapSize(size))
      ensures old(NoAdjacentFree()) ==> NoAdjacentFree()
      ensures base != 0 ==> View() == Grow(old(View()), base, MapSize(size))
      ensures base != 0 ==> bytes == MappedAfter(old(bytes), base, MapSize(size), h)
    {
      hide Adjoins, Distinct, ListedIn, Sane, Clobber, Mapped, MapSize, Unmapped, Coalesced;
      FreshArenaFits(size);
      ghost var l := View();
      assert l.ring[|l.ring| - 1] in l.hdr;
      base := ArenaAlloc(MapSize(size));
      if base == 0 {
        return;
      }
      GrowOk(l, base, MapSize(size));
      GrowApart(l, base, MapSize(size));
      UnmappedIsNew(l, base, MapSize(size));
      ListedExtra(l.arena, l.arenas, base, Arena(0, MapSize(size)));
      NewHeaderIsNew(l, base, MapSize(size));
      NextArena(l.arena, l.arenas, |l.arenas| - 1);
      ArenaAppend(base);
      StoreHeader(h, hdr[h].(next := base + ARENA));
      ring, owner, arenas := ring + [base + ARENA], owner + [|arenas|], arenas + [base];
      hide Ok, Tiled, Linked;
      assert View() == Grow(l, base, MapSize(size));
    }
  
    /**
     first_fit.  The search goes once around the ring; at its end it maps an arena and goes
     on.  The outer do-while of the code never starts a second round.  `bases` are the arenas
     mapped.
     */
    method FindFirstFit(size: int) returns (h: int, ghost i: nat, ghost bases: seq<int>)
      requires Valid() && first != 0 && size >= 0
      modifies this
      ensures Valid() && first == old(first)
      ensures Mappable(old(View()), bases, size) && View() == MapAll(old(View()), bases, size)
      ensures h != 0 ==> FirstFit(View(), size, i) && h == ring[i] && h in hdr
      ensures h == 0 ==> NoFit(View(), size)
      ensures h == 0 <==> old(NoFit(View(), size)) && (old(budget) == 0 || FillsArena(size))
      // a block fits: nothing is mapped.  None fits, but a new arena will: one is mapped, if the
      // system has one.  No new arena will do: everything the system has is mapped, in vain.
      ensures |bases| == if !old(NoFit(View(), size)) then 0
                         else if FillsArena(size) || old(budget) == 0 then old(budget) else 1
      ensures budget == old(budget) - |bases| && |arenas| == |old(arenas)| + |bases|
      ensures h != 0 && bases != [] ==> h == bases[0] + ARENA && i == |old(ring)| && hdr[h].asize == 0
      ensures bases == [] ==> bytes == old(bytes)
      ensures |bases| == 1 ==> bytes == MappedAfter(old(bytes), bases[0], MapSize(size), old(ring[|ring| - 1]))
      ensures Live(View()) == old(Live(View())) && PayloadsKept(Live(View()), old(bytes), bytes)
      ensures old(NoAdjacentFree()) ==> NoAdjacentFree()
    {
      hide NoAdjacentFree;
      hide Ok, NoFitBelow, FirstFit, MapSize, Unmapped, Mapped, Clobber, FillsArena, PayloadsKept, Live, Fits, Grow,
           MapAll, MapOne, Mappable;
      ghost var v0, b0 := View(), bytes;
      EndFacts(v0);
      NoneBelow(v0, size);
      PayloadsKeptRefl(Live(v0), b0);
      NothingMapped(v0, size);
      var firstH := first + ARENA;
      var address := firstH;
      i, bases := 0, [];
      while true
        invariant Valid() && first == old(first)
        invariant i < |ring| && firstH == ring[i] && address == ring[0] && NoFitBelow(View(), size, i)
        invariant Mappable(v0, bases, size) && View() == MapAll(v0, bases, size)
        invariant budget + |bases| == old(budget) && |arenas| == |v0.arenas| + |bases|
        invariant bases == [] ==> bytes == b0
        invariant bases != [] ==> NoFit(v0, size)
        invariant old(NoAdjacentFree()) ==> NoAdjacentFree()
        invariant |bases| > 1 ==> FillsArena(size)
        invariant |bases| == 1 ==>
          && bytes == MappedAfter(b0, bases[0], MapSize(size), v0.ring[|v0.ring| - 1])
          && i == |v0.ring| && firstH == bases[0] + ARENA
        invariant bases != [] ==> firstH in hdr && hdr[firstH].asize == 0
        invariant bases != [] ==> firstH > 0 && i + 1 == |ring| && (Fits(hdr[firstH], size) <==> !FillsArena(size))
        invariant Live(View()) == Live(v0) && PayloadsKept(Live(v0), b0, bytes)
        decreases budget, |ring| - i
      {
        BlockFacts(View(), i);
        FitOrNot(View(), size, i);
        if Fits(hdr[firstH], size) {
          return firstH, i, bases;
        }
        if hdr[firstH].next == address {
          ghost var v, b := View(), bytes;
          var a := MapAtEnd(firstH, size);
          if a == 0 {
            return 0, i, bases;
          }
          EndFacts(v);
          MapOneGrows(v, a, size);
          MapMore(v0, bases, a, size);
          GrownFits(v, a, size);
          FreshArenaFits(size);
          MappingKeepsPayloads(v, a, MapSize(size), b);
          HeaderStoreKeeps(v, i, Mapped(b, a, MapSize(size)));
          PayloadsKeptTrans(Live(v0), b0, b, Mapped(b, a, MapSize(size)));
          PayloadsKeptTrans(Live(v0), b0, Mapped(b, a, MapSize(size)), bytes);
          bases := bases + [a];
        }
        firstH := hdr[firstH].next;
        i := i + 1;
      }
    }

    /** hdr_split: the block at `h` keeps `size` bytes, the rest becomes a free block behind it. */
    method HdrSplit(h: int, size: int, ghost i: nat) returns (newHeader: int)
      requires Linear(View()) && i < |ring| && h == ring[i] && h + HDR + size !in ring
      modifies this`hdr, this`bytes, this`ring, this`owner
      ensures newHeader == h + HDR + size
      // asize is set by the caller
      ensures var l, l' := old(View()), Split(old(View()), i, size);
        View() == l'.(hdr := l'.hdr[h := Header(newHeader, size, l.hdr[h].asize)])
      ensures bytes == Clobber(Clobber(Clobber(old(bytes), h, h + HDR), newHeader, newHeader + HDR), h, h + HDR)
    {
      LinearFacts(View(), i);
      hide Linked, ListedIn, Clobber;
      newHeader := h + HDR + size;
      var tmp := hdr[h].next;
      StoreHeader(h, hdr[h].(next := newHeader));
      StoreHeader(newHeader, Header(tmp, hdr[h].size - size - HDR, 0));
      StoreHeader(h, hdr[h].(size := size));
      ring, owner := InsertAt(ring, i + 1, newHeader), InsertAt(owner, i + 1, owner[i]);
      assert ring[i] == h;
    }

    /** mmalloc 334-337, and mrealloc 399-402: give the block at `h` to the program. */
    method Take(h: int, size: int, ghost i: nat)
      requires first != 0 && Ok(View()) && first == arenas[0]
      requires i < |ring| && h == ring[i] && 0 <= size <= hdr[h].size
      modifies this`hdr, this`bytes, this`ring, this`owner
      ensures Valid() && View() == Alloc(old(View()), i, size)
      ensures Keeps(Live(old(View())) - {h}, h + HDR, h + HDR + size, old(bytes), bytes)
    {
      hide Ok, Live, Clobber, Keeps, Split;
      ghost var l, b := View(), bytes;
      EndFacts(l);
      BlockFacts(l, i);
      AllocOk(l, i, size);
      if ShouldSplit(hdr[h], size) {
        RightIsNew(l, i, size);
        SplitStoresKeep(l, i, size, h, b);
        var newHeader := HdrSplit(h, size, i);
        SplitFields(l, i, size);
      } else {
        HeaderStoreKeepsOwn(l, i, size, b);
      }
      StoreHeader(h, hdr[h].(asize := size));
      assert View() == Alloc(l, i, size);
    }
  
    /** mmalloc 319-326: the first arena, for a request of `size` bytes. */
    method MapFirst(size: int) returns (a: int)
      requires Empty() && size >= 0
      modifies this
      ensures a == 0 <==> old(budget) == 0
      ensures a == 0 ==> View() == old(View()) && first == budget == 0 && bytes == old(bytes)
      ensures a != 0 ==> Valid() && !Empty() && budget == old(budget) - 1 && (NoFit(View(), size) <==> FillsArena(size))
      ensures a != 0 ==> Mappable(old(View()), [a], size) && View() == MapAll(old(View()), [a], size)
      ensures a != 0 ==> Live(View()) == map[] && |ring| == 1 && Linear(View()) && Coalesced(View())
      ensures a != 0 ==> forall j :: FirstFit(View(), size, j) ==> Free(View(), j)
    {
      hide NoFitBelow, FirstFit, MapSize, Unmapped, Mapped, Clobber, FillsArena, Live, Coalesced, MapAll, MapOne,
        Mappable;
      ghost var v := View();
      FreshArenaFits(size);
      EmptyHeap(v, size);
      a := ArenaAlloc(MapSize(size));
      if a == 0 {
        return;
      }
      ArenaAppend(a);
      ring, owner, arenas := [a + ARENA], [0], [a];
      OneArena(hdr, arena, a, MapSize(size));
      FirstMapped(v, a, size);
      EndFacts(View());
      OneBlockCoalesced(View());
      FreshFits(View(), size);
    }

    /**
     mmalloc.  `mid` is the heap once the block is found, with the arenas at `bases` mapped, and
     `i` the place of that block in its ring.  Free blocks stay apart exactly when the heap
     before the call says so.
     */
    method Mmalloc(size: int) returns (p: int, ghost bases: seq<int>, ghost mid: Layout, ghost i: nat)
      requires Valid() && size >= 0
      modifies this
      ensures Valid() && (old(first) != 0 ==> first == old(first))
      ensures p == 0 <==> old(NoFit(View(), size)) && (old(budget) == 0 || FillsArena(size))
      ensures mid == MapAll(old(View()), bases, size) && (bases == [] ==> mid == old(View()))
      ensures Happens(old(View()), if p == 0 then MallocFails(size, bases) else Malloc(size, p, bases, i), View())
      ensures KeepsPayloads(old(View()), if p == 0 then MallocFails(size, bases) else Malloc(size, p, bases, i),
                            old(bytes), bytes)
      ensures p == 0 ==> Live(View()) == old(Live(View()))
      ensures p != 0 ==>
        && Ok(mid) && FirstFit(mid, size, i) && Live(mid) == old(Live(View()))
        && p == mid.ring[i] + HDR && View() == Alloc(mid, i, size)
      ensures p != 0 ==> (p - HDR !in old(Live(View())) <==> old(FitsOnlyFree(View(), size)))
      ensures !old(NoFit(View(), size)) ==> bases == [] && budget == old(budget)
      ensures p != 0 && old(NoFit(View(), size)) ==> Free(mid, i)
      ensures old(NoAdjacentFree()) ==> (NoAdjacentFree() <==> p == 0 || old(MallocStaysApart(View(), size)))
    {
      hide Ok, NoFitBelow, FirstFit, MapSize, Unmapped, Clobber, FillsArena, PayloadsKept, Live, Alloc, Coalesced,
        Linear,
           MapAll, MapOne, Mappable, MallocStaysApart, FitsOnlyFree;
      ghost var v0, b0, live0 := View(), bytes, Live(View());
      bases := [];
      NothingMapped(v0, size);
      if first == 0 {
        EmptyHeap(v0, size);
        var a := MapFirst(size);
        NothingLive(live0, b0, bytes);
        if a == 0 {
          EmptyHeap(View(), size);
          return 0, [], View(), 0;
        }
        bases := [a];
      } else {
        PayloadsKeptRefl(live0, bytes);
      }
      ghost var v1, b1 := View(), bytes;
      ghost var more;
      var h;
      h, i, more := FindFirstFit(size);
      mid := View();
      MapThen(v0, bases, more, size);
      bases := bases + more;
      PayloadsKeptTrans(live0, b0, b1, bytes);
      if h == 0 {
        return 0, bases, mid, i;
      }
      ChosenBlock(v0, bases, size, i);
      FirstFitFacts(mid, size, i);
      EndFacts(mid);
      ghost var b2 := bytes;
      p := h + HDR;
      HandsOutUnusedIff(v0, bases, size, p, i);
      Take(h, size, i);
      EndFacts(View());
      if NoFreePairs(v0) {
        MallocApart(v0, bases, size, i);
      }
      PayloadsKeptSubset(live0, h, b0, b2);
      KeepsWeaken(live0 - {h}, h, size, b0, b2, bytes);
    }

    /** hdr_merge of the block at `left` with its successor. */
    method HdrMerge(left: int, ghost i: nat)
      requires Linear(View()) && i < |ring| && left == ring[i] && hdr[left].next in hdr
      modifies this`hdr, this`bytes, this`ring, this`owner
      ensures View() == MergeNext(old(View()), i)
      ensures bytes == Clobber(old(bytes), left, left + HDR)
    {
      hide Distinct, ListedIn;
      LinearFacts(View(), i);
      var right := hdr[left].next;
      StoreHeader(left, Header(hdr[right].next, hdr[left].size + HDR + hdr[right].size, hdr[left].asize));
      if |ring| > 1 {
        ring, owner := RemoveAt(ring, Succ(|ring|, i)), RemoveAt(owner, Succ(|owner|, i));
      }
    }

    /** hdr_can_merge only looks at whether both blocks are free. */
    method HdrCanMerge(left: int, right: int) returns (b: bool)
      requires left in hdr && right in hdr
      ensures b <==> hdr[left].asize == 0 && hdr[right].asize == 0
    {
      b := hdr[left].asize == 0 && hdr[right].asize == 0;
    }

    /**
     mfree.  It always leaves one ring; the heap is a valid allocator heap afterwards exactly
     when the merges it makes join adjacent blocks of one arena.
     */
    method Mfree(ptr: int, ghost i: nat)
      requires first != 0 && Ok(View()) && first == arenas[0]
      requires i < |ring| && ring[i] == ptr - HDR
      modifies this`hdr, this`bytes, this`ring, this`owner
      ensures Linear(old(View())) && View() == Freed(old(View()), i) && Linear(View())
      ensures Happens(old(View()), Release(ptr, i), View())
      ensures Valid() <==> FreeOk(old(View()), i)
      ensures Live(View()) == old(Live(View())) - {ptr - HDR}
      ensures KeepsPayloads(old(View()), Release(ptr, i), old(bytes), bytes)
      ensures old(NoAdjacentFree()) && FreeOk(old(View()), i) ==> NoAdjacentFree()
    {
      hide Coalesced, Ok, Live, PayloadsKept, Clobber, MergeNext, Distinct, ListedIn, Linked, FreeOk, SameBytes;
      ghost var l, b0, live := View(), bytes, Live(View());
      var h := ptr - HDR;
      EndFacts(l);
      BlockFacts(l, i);
      StoreHeader(h, hdr[h].(asize := 0));
      HeaderStoreKeeps(l, i, b0);
      ghost var l0, b1 := View(), bytes;
      MarkLinear(l, i, 0);
      LinearFacts(l0, i);
      MergedNextLinear(l0, i);
      assert l0 == Mark(l, i, 0) && hdr[h].asize == 0;
      var can := HdrCanMerge(h, hdr[h].next);
      if can {
        HdrMerge(h, i);
        HeaderStoreKeeps(l, i, b1);
      } else {
        PayloadsKeptRefl(live, bytes);
      }
      ghost var l1, i1, b2 := View(), IndexAfter(l0, i), bytes;
      assert l1 == MergedNext(l0, i);
      MergedNextFree(l0, i);
      PayloadsKeptTrans(live, b0, b1, b2);
      var prev := HdrGetPrev(h, i1);
      if prev < h {
        prev := HdrGetPrev(h, i1);
        LinearFacts(l1, Pred(|l1.ring|, i1));
        can := HdrCanMerge(prev, h);
        if can {
          prev := HdrGetPrev(h, i1);
          PrevIsOld(l0, i);
          ghost var p :| 0 <= p < |l.ring| && l.ring[p] == prev;
          HdrMerge(prev, Pred(|ring|, i1));
          HeaderStoreKeeps(l, p, b2);
          PayloadsKeptTrans(live, b0, b2, bytes);
        }
      }
      assert View() == Freed(l, i);
      hide Freed, Linear;
      FreedOkIff(l, i);
      FreedOkOrBroken(l, i);
      FreedArenas(l, i);
      FreedApart(l, i);
      FreedLive(l, i);
    }
  
    /** mrealloc of an allocated block to at most its old size: in place. */
    method Shrink(ptr: int, size: int, ghost i: nat)
      requires first != 0 && Ok(View()) && first == arenas[0]
      requires i < |ring| && ring[i] == ptr - HDR && 0 < size <= hdr[ptr - HDR].asize
      modifies this`hdr, this`bytes, this`ring, this`owner
      ensures Valid() && View() == Alloc(old(View()), i, size)
      ensures Happens(old(View()), MmalRun.Shrink(ptr, size, i), View())
      ensures KeepsPayloads(old(View()), MmalRun.Shrink(ptr, size, i), old(bytes), bytes)
    {
      hide Ok, Live, Keeps, Clobber, Alloc, Sane;
      ghost var l, b := View(), bytes;
      var head := ptr - HDR;
      var temp := size;
      EndFacts(l);
      BlockFacts(l, i);
      SizeFacts(l, i);
      StoreHeader(head, hdr[head].(asize := 0));
      assert View() == Mark(l, i, 0);
      HeaderStoreKeepsOwn(l, i, size, b);
      ClearedOk(l, i);
      MarkLive(l, i);
      ClearedAlloc(l, i, size);
      ghost var b1 := bytes;
      assert Live(View()) - {head} == Live(l) - {head};
      assert Keeps(Live(l) - {head}, head + HDR, head + HDR + size, b, b1);
      Take(head, temp, i);
      KeepsTrans(Live(l) - {head}, ptr, ptr + size, b, b1, bytes);
    }

    /**
     mrealloc of an allocated block to more than its old size.  `mid` and `k` are the heap and
     the block mmalloc chose, and `m` the place of the old block when it is freed.  `fault`
     says that mmalloc failed and the code goes on to copy to the null pointer.
     */
    method Enlarge(ptr: int, size: int, ghost i: nat)
      returns (p: int, fault: bool, ghost bases: seq<int>, ghost mid: Layout, ghost k: nat, ghost m: nat)
      requires first != 0 && Ok(View()) && first == arenas[0]
      requires i < |ring| && ring[i] == ptr - HDR && 0 < hdr[ptr - HDR].asize < size
      modifies this
      ensures fault <==> old(NoFit(View(), size)) && (old(budget) == 0 || FillsArena(size))
      ensures fault ==> p == 0 && Valid() && Live(View()) == old(Live(View()))
      ensures fault ==> Happens(old(View()), MallocFails(size, bases), View())
      ensures mid == MapAll(old(View()), bases, size) && (!old(NoFit(View(), size)) ==> mid == old(View()))
      ensures !fault ==>
        && Ok(mid) && FirstFit(mid, size, k) && Live(mid) == old(Live(View())) && p == mid.ring[k] + HDR
        && Ok(Alloc(mid, k, size)) && Linear(Alloc(mid, k, size)) && m < |Alloc(mid, k, size).ring|
        && Alloc(mid, k, size).ring[m] == ptr - HDR
        && View() == Freed(Alloc(mid, k, size), m)
        && (Valid() <==> FreeOk(Alloc(mid, k, size), m))
        && Live(View()) == old(Live(View()))[p - HDR := size] - {ptr - HDR}
      ensures !fault ==> Happens(old(View()), Move(ptr, size, p, bases, k, m), View())
      ensures KeepsPayloads(old(View()), if fault then MallocFails(size, bases) else Move(ptr, size, p, bases, k, m),
                            old(bytes), bytes)
      ensures !fault && old(NoFit(View(), size)) ==> Free(mid, k)
    {
      hide Ok, Live, Keeps, FirstFit, NoFitBelow, PayloadsKept, FreeOk, Freed, Alloc, Linear, FillsArena, SameBytes,
        SameContents,
           Copied, Sane, MapAll, Mappable;
      ghost var v, b0, live := View(), bytes, Live(View());
      var head := ptr - HDR;
      EndFacts(v);
      BlockFacts(v, i);
      LiveBlock(v, i);
      m := 0;
      fault := false;
      p, bases, mid, k := Mmalloc(size);
      if p == 0 {
        fault := true;
        return;
      }
      EnlargeSetup(mid, k, size, head);
      m :| 0 <= m < |ring| && ring[m] == head;
      ghost var b1 := bytes;
      bytes := Copied(bytes, p, ptr, hdr[head].asize);
      ghost var l, b2 := View(), bytes;
      Mfree(ptr, m);
      EnlargeKeeps(mid, k, size, head, b0, b1, b2, bytes);
    }

    /**
     mrealloc.  A null pointer may only be passed with a positive size, as mfree does not take
     one.  `e` is what happened to the heap, and `l1` the heap in which a moved block was freed.
     */
    method Mrealloc(ptr: int, size: int, ghost i: nat) returns (p: int, fault: bool, ghost e: Event, ghost l1: Layout)
      requires Valid() && size >= 0
      requires if ptr == 0 then size > 0
               else first != 0 && i < |ring| && ring[i] == ptr - HDR && ptr - HDR in hdr && hdr[ptr - HDR].asize > 0
      modifies this
      ensures Happens(old(View()), e, View())
      ensures fault <==> old(ptr != 0 && size > 0 && size > hdr[ptr - HDR].asize && NoFit(View(), size)) &&
                         (old(budget) == 0 || FillsArena(size))
      // the heap afterwards is valid exactly when the merges of the event join adjacent blocks of one arena
      ensures Valid() <==> Safe(old(View()), e, View())
      ensures Live(View()) == LiveAfter(old(Live(View())), e)
      // freeing
      ensures size == 0 ==> p == 0 && e == Release(ptr, i)
      // allocating
      ensures ptr == 0 ==> Valid() && (p == 0 <==> old(NoFit(View(), size)) && (old(budget) == 0 || FillsArena(size)))
      ensures ptr == 0 && p != 0 ==> e.Malloc? && e.p == p && e.size == size
      ensures (ptr == 0 && p == 0) || fault ==> e.MallocFails? && Valid()
      // the payloads
      ensures KeepsPayloads(old(View()), e, old(bytes), bytes)
      // in place
      ensures ptr != 0 && 0 < size && old(size <= hdr[ptr - HDR].asize) ==>
        && Valid() && p == ptr && e == MmalRun.Shrink(ptr, size, i)
        && Keeps(old(Live(View())) - {ptr - HDR}, ptr, ptr + size, old(bytes), bytes)
      // moving: the content arrives and nothing else changes, if the first fit, where there is one, is free
      ensures ptr != 0 && !fault && old(size > hdr[ptr - HDR].asize) ==>
        && e.Move? && e.p == ptr && e.size == size && e.q == p
        && l1 == Alloc(MapAll(old(View()), e.bases, size), e.k, size) && Linear(l1) && e.m < |l1.ring|
        && (Valid() <==> FreeOk(l1, e.m))
        && (p - HDR in Live(View()) <==> p != ptr)
        && (p - HDR !in old(Live(View())) <==> old(FitsOnlyFree(View(), size)))
        && (p != ptr ==> SameContents(old(bytes), ptr, bytes, p, old(hdr[ptr - HDR].asize)))
      ensures (ptr != 0 && !fault && old(size > hdr[ptr - HDR].asize) && old(FitsOnlyFree(View(), size))) ==>
        && p != ptr && p - HDR !in old(Live(View()))
        && PayloadsKept(old(Live(View())) - {ptr - HDR}, old(bytes), bytes)
      ensures ptr != 0 && !fault && old(size > hdr[ptr - HDR].asize) ==>
        (p == ptr <==> old(FirstFit(View(), size, i)))
    {
      hide Ok, Live, Keeps, FirstFit, NoFitBelow, PayloadsKept, FreeOk, Freed, Alloc, FillsArena, SameBytes,
        SameContents,
           MapAll, Mappable, Linear;
      ghost var v := View();
      fault, l1 := false, View();
      if size == 0 {
        Mfree(ptr, i);
        p, e := 0, Release(ptr, i);
      } else if ptr == 0 {
        ghost var bases, mid, k;
        p, bases, mid, k := Mmalloc(size);
        e := if p == 0 then MallocFails(size, bases) else Malloc(size, p, bases, k);
      } else if size <= hdr[ptr - HDR].asize {
        Shrink(ptr, size, i);
        p, e := ptr, MmalRun.Shrink(ptr, size, i);
      } else {
        ghost var bases, mid, k, m;
        p, fault, bases, mid, k, m := Enlarge(ptr, size, i);
        e := if fault then MallocFails(size, bases) else Move(ptr, size, p, bases, k, m);
        if !fault {
          LiveBlock(v, i);
          FirstFitFacts(mid, size, k);
          EndFacts(mid);
          MovedBlock(v, mid, size, i, k);
          l1 := Alloc(mid, k, size);
          assert p - HDR !in Live(v) ==> Live(v) - {ptr - HDR} - {p - HDR} == Live(v) - {ptr - HDR};
        }
      }
      StepSound(v, e, View());
    }
  }
}
