/** Freeing: merging with the next and the previous block of the ring, and when that is right. */
module MmalFree {
  import opened Seqs
  import opened MmalLayout

  function Pred(n: nat, i: nat): nat { if i > 0 then i - 1 else if n > 0 then n - 1 else 0 }

  /** hdr_merge of block `i` with the block after it, as the code does it. */
  function MergeNext(l: Layout, i: nat): Layout
    requires i < |l.ring| && |l.owner| == |l.ring| && forall k :: 0 <= k < |l.ring| ==> l.ring[k] in l.hdr
  {
    var h, j := l.ring[i], Succ(|l.ring|, i);
    var right := l.hdr[l.ring[j]];
    var l' := l.(hdr := l.hdr[h := Header(right.next, l.hdr[h].size + HDR + right.size, l.hdr[h].asize)]);
    if |l.ring| == 1 then l' else l'.(ring := RemoveAt(l.ring, j), owner := RemoveAt(l.owner, j))
  }

  /** Block `m` of `l'`, when `l'` is `l` with block `i` merged, and there are at least two blocks. */
  ghost predicate MergedBlock(l: Layout, l': Layout, i: nat, m: nat)
    requires |l.owner| == |l.ring| > 1 && i < |l.ring| && m < |l.ring| - 1
    requires forall k :: 0 <= k < |l.ring| ==> l.ring[k] in l.hdr
  {
    var j := Succ(|l.ring|, i);
    var o := if m < j then m else m + 1;
    && l'.arenas == l.arenas && l'.arena == l.arena
    && |l'.ring| == |l'.owner| == |l.ring| - 1
    && l'.ring[m] == l.ring[o] && l'.owner[m] == l.owner[o] && l'.ring[m] in l'.hdr
    && l'.hdr[l'.ring[m]] ==
       if o == i then Header(l.hdr[l.ring[j]].next, l.hdr[l.ring[i]].size + HDR + l.hdr[l.ring[j]].size,
                             l.hdr[l.ring[i]].asize)
       else l.hdr[l.ring[o]]
  }

  lemma {:induction false} MergeAt(l: Layout, i: nat, m: nat)
    requires Linked(l) && |l.owner| == |l.ring| > 1 && i < |l.ring| && m < |l.ring| - 1
    ensures MergedBlock(l, MergeNext(l, i), i, m)
  {
    hide RemoveAt, Distinct;
    var j := Succ(|l.ring|, i);
    RemovedElement(l.ring, j, m);
    RemovedElement(l.owner, j, m);
    OtherBlock(l.ring, if m < j then m else m + 1, i);
  }

  lemma {:induction false} RemovedElement<T>(s: seq<T>, j: nat, m: nat)
    requires j < |s| && m < |s| - 1
    ensures |RemoveAt(s, j)| == |s| - 1 && RemoveAt(s, j)[m] == s[if m < j then m else m + 1]
  {
  }

  lemma {:induction false} MergeLinkedAt(l: Layout, i: nat, m: nat)
    requires Linked(l) && |l.owner| == |l.ring| > 1 && i < |l.ring| && m < |l.ring| - 1
    ensures var l' := MergeNext(l, i);
      m < |l'.ring| && l'.ring[m] in l'.hdr && LeadsOn(l', m)
  {
    hide MergeNext, Distinct;
    var n := |l.ring|;
    MergeAt(l, i, m);
    MergeAt(l, i, Succ(n - 1, m));
    var j := Succ(n, i);
    assert LeadsOn(l, if m < j then m else m + 1) && LeadsOn(l, j);
    hide Linked;
  }

  lemma {:induction false} RemoveDistinct(s: seq<int>, i: nat)
    requires Distinct(s) && i < |s|
    ensures Distinct(RemoveAt(s, i))
  {
    var r := RemoveAt(s, i);
    forall a, b | 0 <= a < b < |r|
      ensures Differ(r, a, b)
    {
      assert Differ(s, if a < i then a else a + 1, if b < i then b else b + 1);
    }
  }

  lemma {:induction false} RemovedIsGone(s: seq<int>, i: nat)
    requires Distinct(s) && i < |s|
    ensures s[i] !in RemoveAt(s, i)
  {
    var r := RemoveAt(s, i);
    forall a | 0 <= a < |r|
      ensures r[a] != s[i]
    {
      OtherBlock(s, if a < i then a else a + 1, i);
    }
  }

  /** A merge leaves one ring, whatever blocks it joins. */
  lemma {:induction false} MergeLinked(l: Layout, i: nat)
    requires Linked(l) && |l.owner| == |l.ring| && i < |l.ring|
    ensures Linked(MergeNext(l, i)) && |MergeNext(l, i).owner| == |MergeNext(l, i).ring|
  {
    if |l.ring| > 1 {
      hide Distinct, RemoveAt;
      RemoveDistinct(l.ring, Succ(|l.ring|, i));
      MergeAt(l, i, 0);
      forall m | 0 <= m < |l.ring| - 1
        ensures var l' := MergeNext(l, i);
          m < |l'.ring| && l'.ring[m] in l'.hdr && LeadsOn(l', m)
      {
        MergeLinkedAt(l, i, m);
      }
    } else {
      assert LeadsOn(l, 0);
    }
  }

  /** The block after `i` starts right behind it. */
  predicate Joins(l: Layout, i: nat)
    requires i < |l.ring| && l.ring[i] in l.hdr
  {
    End(l, l.ring[i]) == l.hdr[l.ring[i]].next
  }

  /** Address adjacency means: next in the ring and in the same arena. */
  lemma {:induction false} JoinsMeansSameArena(l: Layout, i: nat)
    requires Tiled(l) && i < |l.ring|
    ensures Joins(l, i) <==> i + 1 < |l.ring| && l.owner[i + 1] == l.owner[i]
  {
    hide Distinct;
    assert Adjoins(l, i) && LeadsOn(l, i);
    InsideArena(l, i);
    InsideArena(l, Succ(|l.ring|, i));
    OtherArena(l.arena, l.arenas, l.owner[i], l.owner[Succ(|l.ring|, i)]);
  }

  lemma {:induction false} MergeAdjoins(l: Layout, l': Layout, i: nat, m: nat)
    requires Linked(l) && Listed(l) && Linked(l') && Listed(l')
    requires |l.owner| == |l.ring| && i < |l.ring| - 1 && m < |l.ring| - 1
    requires MergedBlock(l, l', i, m) && (m + 1 < |l.ring| - 1 ==> MergedBlock(l, l', i, m + 1))
    requires l.owner[i + 1] == l.owner[i] < |l.arenas| && Adjoins(l, i) && Adjoins(l, i + 1)
    requires var o := if m <= i then m else m + 1; l.owner[o] < |l.arenas| && Adjoins(l, o)
    ensures Adjoins(l', m)
  {
    hide Linked, ListedIn;
  }

  lemma {:induction false} TiledBlock(l: Layout, i: nat)
    requires Tiled(l) && i < |l.ring|
    ensures l.owner[i] < |l.arenas| && Adjoins(l, i) && l.hdr[l.ring[i]].size >= 0
  {
  }

  lemma {:induction false} MergeTiledAt(l: Layout, i: nat, m: nat)
    requires Tiled(l) && i < |l.ring| - 1 && m < |l.ring| - 1 && l.owner[i + 1] == l.owner[i]
    requires var l' := MergeNext(l, i); Linked(l') && Listed(l') && |l'.ring| == |l'.owner| == |l.ring| - 1
    ensures var l' := MergeNext(l, i);
      l'.owner[m] < |l'.arenas| && l'.hdr[l'.ring[m]].size >= 0 && Adjoins(l', m)
  {
    hide Adjoins, MergeNext, Distinct, ListedIn;
    MergeAt(l, i, m);
    if m + 1 < |l.ring| - 1 {
      MergeAt(l, i, m + 1);
    }
    TiledBlock(l, i);
    TiledBlock(l, i + 1);
    TiledBlock(l, if m <= i then m else m + 1);
    MergeAdjoins(l, MergeNext(l, i), i, m);
  }

  /** Merging two blocks of one arena keeps the arenas tiled. */
  lemma {:induction false} MergeTiled(l: Layout, i: nat)
    requires Tiled(l) && i < |l.ring| && Joins(l, i)
    ensures Tiled(MergeNext(l, i)) && i < |MergeNext(l, i).ring| && MergeNext(l, i).ring[i] == l.ring[i]
  {
    hide Distinct, ListedIn, Adjoins;
    JoinsMeansSameArena(l, i);
    MergeLinked(l, i);
    MergeAt(l, i, 0);
    MergeAt(l, i, i);
    forall m | 0 <= m < |l.ring| - 1
      ensures var l' := MergeNext(l, i);
        l'.owner[m] < |l'.arenas| && l'.hdr[l'.ring[m]].size >= 0 && Adjoins(l', m)
    {
      MergeTiledAt(l, i, m);
    }
  }

  // ---------- what a wrong merge breaks ----------

  /** Block `h` starts inside an arena and ends behind it. */
  ghost predicate Overflows(l: Layout, h: int)
    requires h in l.hdr && Listed(l)
  {
    exists k :: 0 <= k < |l.arenas| && l.arenas[k] <= h < ArenaEnd(l, k) < End(l, h)
  }

  /** The ring lost the first header, or some block reaches over the end of its arena. */
  ghost predicate Broken(l: Layout)
    requires Linked(l) && Listed(l)
  {
    l.arenas[0] + ARENA !in l.ring || exists i :: 0 <= i < |l.ring| && Overflows(l, l.ring[i])
  }

  lemma {:induction false} TiledDoesNotOverflow(l: Layout, i: nat, k: nat)
    requires Tiled(l) && i < |l.ring| && k < |l.arenas| && l.arenas[k] <= l.ring[i] < ArenaEnd(l, k)
    ensures End(l, l.ring[i]) <= ArenaEnd(l, k)
  {
    InsideArena(l, i);
    OtherArena(l.arena, l.arenas, l.owner[i], k);
  }

  lemma {:induction false} FirstInRing(l: Layout)
    requires Tiled(l)
    ensures l.arenas[0] + ARENA in l.ring
  {
    assert l.ring[0] in l.ring;
  }

  lemma {:induction false} OverflowBreaks(l: Layout, i: nat, k: nat)
    requires Linked(l) && Listed(l) && i < |l.ring| && k < |l.arenas|
    requires l.arenas[k] <= l.ring[i] < ArenaEnd(l, k) < End(l, l.ring[i])
    ensures Broken(l)
  {
    assert Overflows(l, l.ring[i]);
  }

  lemma {:induction false} TiledIsNotBroken(l: Layout)
    requires Tiled(l)
    ensures !Broken(l)
  {
    FirstInRing(l);
    forall i | 0 <= i < |l.ring|
      ensures !Overflows(l, l.ring[i])
    {
      hide Linked, ListedIn;
      forall k | 0 <= k < |l.arenas| && l.arenas[k] in l.arena && l.arenas[k] <= l.ring[i] < ArenaEnd(l, k)
        ensures End(l, l.ring[i]) <= ArenaEnd(l, k)
      {
        TiledDoesNotOverflow(l, i, k);
      }
    }
  }

  lemma {:induction false} BrokenForAnyOwner(l: Layout, owner: seq<nat>)
    requires Linked(l) && Listed(l) && Broken(l)
    ensures var l' := l.(owner := owner); Linked(l') && Listed(l') && Broken(l')
  {
    hide Distinct, ListedIn;
    var l' := l.(owner := owner);
    forall j | 0 <= j < |l'.ring|
      ensures LeadsOn(l', j)
    {
      assert LeadsOn(l, j);
    }
    if i :| 0 <= i < |l.ring| && Overflows(l, l.ring[i]) {
      assert Overflows(l', l'.ring[i]);
    }
  }

  /** A broken heap is not tiled, under any assignment of blocks to arenas. */
  lemma {:induction false} BrokenIsNotTiled(l: Layout, owner: seq<nat>)
    requires Linked(l) && Listed(l) && Broken(l)
    ensures !Tiled(l.(owner := owner))
  {
    hide Broken, Tiled;
    BrokenForAnyOwner(l, owner);
    if Tiled(l.(owner := owner)) {
      TiledIsNotBroken(l.(owner := owner));
    }
  }

  lemma {:induction false} WrongMergeBreaks(l: Layout, i: nat)
    requires Tiled(l) && i < |l.ring| && !Joins(l, i)
    ensures Linked(MergeNext(l, i)) && Listed(MergeNext(l, i)) && Broken(MergeNext(l, i))
  {
    var l', n := MergeNext(l, i), |l.ring|;
    MergeLinked(l, i);
    JoinsMeansSameArena(l, i);
    InsideArena(l, i);
    assert Adjoins(l, i);
    if n > 1 && i + 1 == n {
      RemovedIsGone(l.ring, 0);
    } else {
      if n > 1 { MergeAt(l, i, i); }
      var k := l.owner[i];
      assert l'.arenas[k] <= l'.ring[i] < ArenaEnd(l', k) < End(l', l'.ring[i]);
      assert Overflows(l', l'.ring[i]);
    }
  }

  // ---------- mfree ----------

  ghost predicate Linear(l: Layout) { Linked(l) && Listed(l) && |l.owner| == |l.ring| }

  predicate Free(l: Layout, i: nat)
    requires i < |l.ring| && l.ring[i] in l.hdr
  {
    l.hdr[l.ring[i]].asize == 0
  }

  /** 352-354: merge block `i`, which is free, with the block after it if that is free too. */
  ghost function MergedNext(l: Layout, i: nat): Layout
    requires Linear(l) && i < |l.ring|
  {
    if Free(l, Succ(|l.ring|, i)) then MergeNext(l, i) else l
  }

  /** Where block `i` is in the ring afterwards: the block after the last one is the first. */
  ghost function IndexAfter(l: Layout, i: nat): nat
    requires Linear(l) && i < |l.ring|
  {
    if Free(l, Succ(|l.ring|, i)) && |l.ring| > 1 && i + 1 == |l.ring| then i - 1 else i
  }

  /** 355-359: merge the block before block `i`, when it lies at a lower address and is free. */
  ghost function MergedPrev(l: Layout, i: nat): Layout
    requires Linear(l) && i < |l.ring|
  {
    var p := Pred(|l.ring|, i);
    if l.ring[p] < l.ring[i] && Free(l, p) then MergeNext(l, p) else l
  }

  lemma {:induction false} MergedNextLinear(l: Layout, i: nat)
    requires Linear(l) && i < |l.ring|
    ensures Linear(MergedNext(l, i))
    ensures IndexAfter(l, i) < |MergedNext(l, i).ring|
    ensures MergedNext(l, i).ring[IndexAfter(l, i)] == l.ring[i]
  {
    hide Distinct;
    MergeLinked(l, i);
    if |l.ring| > 1 {
      MergeAt(l, i, if i + 1 == |l.ring| then i - 1 else i);
    }
  }

  /** The heap after mfree of block `i`, on any heap. */
  ghost function Freed(l: Layout, i: nat): Layout
    requires Linear(l) && i < |l.ring|
  {
    var l0 := Mark(l, i, 0);
    MarkLinear(l, i, 0);
    MergedNextLinear(l0, i);
    MergedPrev(MergedNext(l0, i), IndexAfter(l0, i))
  }

  lemma {:induction false} MarkLinear(l: Layout, i: nat, size: int)
    requires Linear(l) && i < |l.ring|
    ensures Linear(Mark(l, i, size))
  {
    MarkLinked(l, i, size);
  }

  /** The documented precondition of the merge with the next block: adjacent in the same arena. */
  ghost predicate NextOk(l: Layout, i: nat)
    requires Linear(l) && i < |l.ring|
  {
    Succ(|l.ring|, i) == i || Free(l, Succ(|l.ring|, i)) ==> Joins(l, i)
  }

  /** ... and of the merge with the previous block. */
  ghost predicate PrevOk(l: Layout, i: nat)
    requires Linear(l) && i < |l.ring|
  {
    var p := Pred(|l.ring|, i);
    l.ring[p] < l.ring[i] && Free(l, p) ==> Joins(l, p)
  }

  ghost predicate FreeOk(l: Layout, i: nat)
    requires Linear(l) && i < |l.ring|
  {
    NextOk(l, i) && PrevOk(l, i)
  }

  lemma {:induction false} MergeOk(l: Layout, i: nat)
    requires Ok(l) && i < |l.ring| && Joins(l, i) && Free(l, i)
    ensures Ok(MergeNext(l, i))
  {
    hide Distinct, ListedIn, Adjoins;
    MergeTiled(l, i);
    JoinsMeansSameArena(l, i);
    var l' := MergeNext(l, i);
    MergeAt(l, i, 0);
    forall m | 0 <= m < |l'.ring|
      ensures Sane(l'.hdr[l'.ring[m]])
    {
      hide MergeNext;
      MergeAt(l, i, m);
    }
  }

  /** The block before block `i` after the first merge is the block before it at the start. */
  lemma {:induction false} PrevAfterMerge(l: Layout, i: nat)
    requires Ok(l) && i < |l.ring| && Joins(l, i) && Free(l, i)
    requires var l' := MergeNext(l, i); Linear(l') && i < |l'.ring|
    ensures var l', p := MergeNext(l, i), Pred(|l.ring|, i);
      var q := Pred(|l'.ring|, i);
      && l'.ring[i] == l.ring[i]
      && (q == i || (l'.ring[q] == l.ring[p] && l'.hdr[l'.ring[q]] == l.hdr[l.ring[p]]))
  {
    JoinsMeansSameArena(l, i);
    MergeAt(l, i, i);
    MergeAt(l, i, Pred(|MergeNext(l, i).ring|, i));
  }

  lemma {:induction false} ClearedOk(l: Layout, i: nat)
    requires Ok(l) && i < |l.ring|
    ensures Ok(Mark(l, i, 0)) && Linear(Mark(l, i, 0)) && Linear(l)
    ensures FreeOk(Mark(l, i, 0), i) <==> FreeOk(l, i)
  {
    MarkOk(l, i, 0);
    hide Adjoins, Sane, ListedIn, Distinct;
    MarkLinear(l, i, 0);
    ClearedJoins(l, i);
  }

  lemma {:induction false} ClearedJoins(l: Layout, i: nat)
    requires Linear(l) && i < |l.ring| && Linear(Mark(l, i, 0))
    ensures forall j :: 0 <= j < |l.ring| ==> (Joins(Mark(l, i, 0), j) <==> Joins(l, j))
    ensures forall j :: 0 <= j < |l.ring| && j != i ==> (Free(Mark(l, i, 0), j) <==> Free(l, j))
  {
    hide ListedIn, Distinct;
    forall j | 0 <= j < |l.ring|
      ensures Joins(Mark(l, i, 0), j) <==> Joins(l, j)
      ensures j != i ==> (Free(Mark(l, i, 0), j) <==> Free(l, j))
    {
      OtherBlock(l.ring, j, i);
    }
  }

  /** The first merge keeps the invariant and does not change what the second one asks for. */
  lemma {:induction false} FirstMergeOk(l: Layout, i: nat)
    requires Ok(l) && Linear(l) && i < |l.ring| && Free(l, i) && NextOk(l, i)
    ensures var l1, i1 := MergedNext(l, i), IndexAfter(l, i);
      Ok(l1) && Linear(l1) && i1 < |l1.ring| && Free(l1, i1) && (PrevOk(l1, i1) <==> PrevOk(l, i))
  {
    hide Distinct, ListedIn, Adjoins, Sane, MergeNext;
    MergedNextLinear(l, i);
    if Free(l, Succ(|l.ring|, i)) {
      MergeOk(l, i);
      JoinsMeansSameArena(l, i);
      PrevAfterMerge(l, i);
      MergeAt(l, i, i);
      assert LeadsOn(l, i);
    }
  }

  lemma {:induction false} SecondMerge(l: Layout, i: nat)
    requires Ok(l) && Linear(l) && i < |l.ring|
    ensures var l' := MergedPrev(l, i);
      Linear(l') && if PrevOk(l, i) then Ok(l') else Broken(l')
  {
    hide Distinct, ListedIn, Adjoins, Sane, MergeNext, Broken, Joins;
    var p := Pred(|l.ring|, i);
    if l.ring[p] < l.ring[i] && Free(l, p) {
      MergeLinked(l, p);
      SameArenas(l, p);
      if Joins(l, p) {
        MergeOk(l, p);
      } else {
        WrongMergeBreaks(l, p);
      }
    }
  }

  /** A wrong merge with the next block is not made good by merging with the previous one. */
  lemma {:induction false} WrongNextStaysBroken(l: Layout, i: nat)
    requires Ok(l) && Linear(l) && i < |l.ring| && Free(l, Succ(|l.ring|, i)) && !Joins(l, i)
    requires Linear(MergedNext(l, i)) && IndexAfter(l, i) < |MergedNext(l, i).ring|
    ensures var l' := MergedPrev(MergedNext(l, i), IndexAfter(l, i)); Linear(l') && Broken(l')
  {
    hide Distinct, ListedIn, Adjoins, MergeNext, Joins, Broken;
    var l1, i1 := MergedNext(l, i), IndexAfter(l, i);
    var p := Pred(|l1.ring|, i1);
    WrongMergeBreaks(l, i);
    MergeLinked(l1, p);
    SameArenas(l1, p);
    if l1.ring[p] < l1.ring[i1] && Free(l1, p) {
      MergeLength(l, i);
      if i + 1 == |l.ring| || i == 0 {
        FirstStaysLost(l, i, p);
      } else {
        MergedTwiceOverflows(l, i);
      }
    }
  }

  lemma {:induction false} SameArenas(l: Layout, i: nat)
    requires Linear(l) && i < |l.ring|
    ensures MergeNext(l, i).arenas == l.arenas && MergeNext(l, i).arena == l.arena
  {
  }

  lemma {:induction false} MergeLength(l: Layout, i: nat)
    requires Linear(l) && i < |l.ring|
    ensures |MergeNext(l, i).ring| == if |l.ring| == 1 then 1 else |l.ring| - 1
  {
  }

  lemma {:induction false} FirstStaysLost(l: Layout, i: nat, p: nat)
    requires Tiled(l) && Linear(l) && i < |l.ring| && |l.ring| > 1 && (i == 0 || i + 1 == |l.ring|)
    requires var l1 := MergeNext(l, i);
      Linear(l1) && |l1.ring| > 1 && p == Pred(|l1.ring|, if i + 1 == |l.ring| then i - 1 else i)
    requires Linear(MergeNext(MergeNext(l, i), p))
    ensures Broken(MergeNext(MergeNext(l, i), p))
  {
    hide Distinct, ListedIn, Adjoins, MergeNext;
    var l1 := MergeNext(l, i);
    MergeLength(l, i);
    SameArenas(l, i);
    SameArenas(l1, p);
    RingShrinks(l1, p);
    FirstIsLost(l, i);
  }

  lemma {:induction false} RingShrinks(l: Layout, i: nat)
    requires Linear(l) && i < |l.ring|
    ensures forall h :: h in MergeNext(l, i).ring ==> h in l.ring
  {
  }

  /** Merging across the end of the ring, now or for the block before, drops the first header. */
  lemma {:induction false} FirstIsLost(l: Layout, i: nat)
    requires Tiled(l) && Linear(l) && i < |l.ring| && |l.ring| > 1 && (i == 0 || i + 1 == |l.ring|)
    requires Linear(MergeNext(l, i)) && |MergeNext(l, i).ring| > 1
    ensures i + 1 == |l.ring| ==> l.ring[0] !in MergeNext(l, i).ring
    ensures i == 0 ==> var l1 := MergeNext(l, i); l.ring[0] !in MergeNext(l1, |l1.ring| - 1).ring
  {
    RemovedIsGone(l.ring, Succ(|l.ring|, i));
    if i == 0 {
      var l1 := MergeNext(l, i);
      assert l1.ring[0] == l.ring[0];
      RemovedIsGone(l1.ring, 0);
    }
  }

  /** Header of block i - 1 after block i, and then block i - 1, took in their successors. */
  lemma {:induction false} MergedTwiceAt(l: Layout, i: nat)
    requires Linear(l) && 0 < i < |l.ring| - 1 && Linear(MergeNext(l, i)) && i < |MergeNext(l, i).ring|
    requires Linear(MergeNext(MergeNext(l, i), i - 1))
    ensures var l2 := MergeNext(MergeNext(l, i), i - 1);
      && l2.arenas == l.arenas && l2.arena == l.arena && i - 1 < |l2.ring|
      && l2.ring[i - 1] == l.ring[i - 1] && l2.ring[i - 1] in l2.hdr
      && l2.hdr[l2.ring[i - 1]].size
         == l.hdr[l.ring[i - 1]].size + HDR + l.hdr[l.ring[i]].size + HDR + l.hdr[l.ring[i + 1]].size
  {
    hide Distinct, ListedIn, MergeNext;
    var l1 := MergeNext(l, i);
    MergeLength(l, i);
    SameArenas(l, i);
    SameArenas(l1, i - 1);
    MergeAt(l, i, i);
    MergeAt(l, i, i - 1);
    MergeAt(l1, i - 1, i - 1);
  }

  /** Block i - 1 and its two successors together reach over the end of the arena of block i - 1. */
  lemma {:induction false} TwoBlocksReachOver(l: Layout, i: nat)
    requires Tiled(l) && 0 < i < |l.ring| - 1 && !Joins(l, i)
    ensures var k := l.owner[i - 1];
      && l.arenas[k] <= l.ring[i - 1] < ArenaEnd(l, k)
      && ArenaEnd(l, k) < l.ring[i - 1] + HDR + l.hdr[l.ring[i - 1]].size + HDR + l.hdr[l.ring[i]].size
                          + HDR + l.hdr[l.ring[i + 1]].size
  {
    JoinsMeansSameArena(l, i);
    InsideArena(l, i - 1);
    TiledBlock(l, i - 1);
    TiledBlock(l, i);
    TiledBlock(l, i + 1);
    hide Distinct, ListedIn, Linked, Tiled;
  }

  lemma {:induction false} MergedTwiceOverflows(l: Layout, i: nat)
    requires Tiled(l) && Linear(l) && 0 < i < |l.ring| - 1 && !Joins(l, i)
    requires Linear(MergeNext(l, i)) && i < |MergeNext(l, i).ring|
    requires Linear(MergeNext(MergeNext(l, i), i - 1))
    ensures Broken(MergeNext(MergeNext(l, i), i - 1))
  {
    hide Distinct, MergeNext, Adjoins, ListedIn, Broken;
    MergedTwiceAt(l, i);
    TwoBlocksReachOver(l, i);
    OverflowBreaks(MergeNext(MergeNext(l, i), i - 1), i - 1, l.owner[i - 1]);
  }

  /** mfree keeps the invariant when its merges join adjacent blocks of one arena, and breaks it otherwise. */
  lemma {:induction false} FreedOkOrBroken(l: Layout, i: nat)
    requires Ok(l) && i < |l.ring| && Linear(l)
    ensures Linear(Freed(l, i)) && if FreeOk(l, i) then Ok(Freed(l, i)) else Broken(Freed(l, i))
  {
    hide Distinct, ListedIn, Adjoins, Sane, Broken, MergedNext, IndexAfter, MergedPrev, Joins;
    var l0 := Mark(l, i, 0);
    ClearedOk(l, i);
    MergedNextLinear(l0, i);
    if NextOk(l0, i) {
      FirstMergeOk(l0, i);
      SecondMerge(MergedNext(l0, i), IndexAfter(l0, i));
    } else {
      AloneIsFree(l0, i);
      WrongNextStaysBroken(l0, i);
    }
  }

  lemma {:induction false} AloneIsFree(l: Layout, i: nat)
    requires Linear(l) && i < |l.ring| && Free(l, i) && !NextOk(l, i)
    ensures Free(l, Succ(|l.ring|, i)) && !Joins(l, i)
  {
  }

  /** The exact condition under which mfree keeps the arenas tiled, under any assignment of blocks to arenas. */
  lemma {:induction false} FreedOkIff(l: Layout, i: nat)
    requires Ok(l) && i < |l.ring| && Linear(l)
    ensures FreeOk(l, i) <==> exists owner :: Tiled(Freed(l, i).(owner := owner))
    ensures FreeOk(l, i) <==> Ok(Freed(l, i))
  {
    hide Distinct, ListedIn, Adjoins, Sane, Broken, FreeOk, Freed;
    FreedOkOrBroken(l, i);
    var l' := Freed(l, i);
    if FreeOk(l, i) {
      assert l' == l'.(owner := l'.owner);
    } else {
      forall owner
        ensures !Tiled(l'.(owner := owner))
      {
        BrokenIsNotTiled(l', owner);
      }
      assert l' == l'.(owner := l'.owner);
    }
  }

  lemma {:induction false} FreedArenas(l: Layout, i: nat)
    requires Linear(l) && i < |l.ring|
    ensures Freed(l, i).arenas == l.arenas && Freed(l, i).arena == l.arena
  {
    var l0 := Mark(l, i, 0);
    hide Linear, MergedNext, MergedPrev, IndexAfter;
    MarkLinear(l, i, 0);
    MergedNextLinear(l0, i);
    MergedNextArenas(l0, i);
    MergedPrevArenas(MergedNext(l0, i), IndexAfter(l0, i));
  }

  lemma {:induction false} MergedNextArenas(l: Layout, i: nat)
    requires Linear(l) && i < |l.ring|
    ensures MergedNext(l, i).arenas == l.arenas && MergedNext(l, i).arena == l.arena
  {
    hide Distinct, ListedIn;
  }

  lemma {:induction false} MergedPrevArenas(l: Layout, i: nat)
    requires Linear(l) && i < |l.ring|
    ensures MergedPrev(l, i).arenas == l.arenas && MergedPrev(l, i).arena == l.arena
  {
    hide Distinct, ListedIn;
  }

  /** The block before block `i` after the first merge is one of the original blocks. */
  lemma {:induction false} PrevIsOld(l: Layout, i: nat)
    requires Linear(l) && i < |l.ring| && Linear(MergedNext(l, i)) && IndexAfter(l, i) < |MergedNext(l, i).ring|
    ensures var l1 := MergedNext(l, i); l1.ring[Pred(|l1.ring|, IndexAfter(l, i))] in l.ring
  {
    hide Distinct, ListedIn;
    RingShrinks(l, i);
  }
}
