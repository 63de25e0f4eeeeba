/** When the operations leave two adjacent free blocks. */
module MmalApart {
  import opened MmalLayout
  import opened MmalFree
  import opened MmalLive
  import opened MmalFit

  /** Blocks `j` and `j + 1` are not two free blocks of one arena. */
  ghost predicate PairOk(l: Layout, j: nat)
    requires Linear(l) && j < |l.ring| - 1
  {
    l.owner[j] == l.owner[j + 1] ==> !(Free(l, j) && Free(l, j + 1))
  }

  /** Blocks next to each other in one arena are never both free. */
  ghost predicate Coalesced(l: Layout)
    requires Linear(l)
  {
    forall j :: 0 <= j < |l.ring| - 1 ==> PairOk(l, j)
  }

  /** The next block of the same arena is free. */
  ghost predicate FreeBehind(l: Layout, i: nat)
    requires Linear(l) && i < |l.ring|
  {
    i + 1 < |l.ring| && l.owner[i] == l.owner[i + 1] && Free(l, i + 1)
  }

  /** The previous block of the same arena is free. */
  ghost predicate FreeBefore(l: Layout, i: nat)
    requires Linear(l) && i < |l.ring|
  {
    i > 0 && l.owner[i - 1] == l.owner[i] && Free(l, i - 1)
  }

  /** Handing out `size` bytes of block `i` puts no two free blocks side by side. */
  ghost predicate StaysApart(l: Layout, i: nat, size: int)
    requires Linear(l) && i < |l.ring|
  {
    if size > 0 then !(ShouldSplit(l.hdr[l.ring[i]], size) && FreeBehind(l, i))
    else !ShouldSplit(l.hdr[l.ring[i]], size) && (Free(l, i) || !(FreeBefore(l, i) || FreeBehind(l, i)))
  }

  lemma {:induction false} SplitPairBelow(l: Layout, l': Layout, i: nat, size: int, j: nat)
    requires Linear(l) && Coalesced(l) && j <= i < |l.ring| && 0 < size
    requires SplitBlock(l, l', i, size, j) && SplitBlock(l, l', i, size, j + 1) && Linear(l')
    ensures PairOk(l', j)
  {
    hide ListedIn, Distinct;
    if j < i {
      assert PairOk(l, j);
    }
    hide Linked, Coalesced;
  }

  lemma {:induction false} SplitPairAbove(l: Layout, l': Layout, i: nat, size: int, j: nat)
    requires Linear(l) && Coalesced(l) && i < j < |l.ring| && !FreeBehind(l, i) && 0 < size
    requires SplitBlock(l, l', i, size, j) && SplitBlock(l, l', i, size, j + 1) && Linear(l')
    ensures PairOk(l', j)
  {
    hide ListedIn, Distinct;
    assert PairOk(l, j - 1);
    LinearFacts(l, j);
    hide Linked, Coalesced;
  }

  lemma {:induction false} SplitPair(l: Layout, i: nat, size: int, j: nat)
    requires Linear(l) && Coalesced(l) && i < |l.ring| && j < |l.ring| && !FreeBehind(l, i) && 0 < size
    requires forall m :: 0 <= m < |l.ring| ==> l.ring[m] != l.ring[i] + HDR + size
    requires Linear(Split(l, i, size))
    ensures j < |Split(l, i, size).ring| - 1 && PairOk(Split(l, i, size), j)
  {
    hide ListedIn, Distinct, Coalesced, Split, PairOk, FreeBehind;
    SplitAt(l, i, size, j);
    SplitAt(l, i, size, j + 1);
    if j <= i {
      SplitPairBelow(l, Split(l, i, size), i, size, j);
    } else {
      SplitPairAbove(l, Split(l, i, size), i, size, j);
    }
  }

  /** What is split off is free: beside a free block, or behind a block of no bytes, it makes a pair. */
  lemma {:induction false} SplitMakesPair(l: Layout, i: nat, size: int)
    requires Linear(l) && i < |l.ring| && Linear(Split(l, i, size))
    requires forall m :: 0 <= m < |l.ring| ==> l.ring[m] != l.ring[i] + HDR + size
    ensures |Split(l, i, size).ring| == |l.ring| + 1
    ensures size == 0 ==> !PairOk(Split(l, i, size), i)
    ensures FreeBehind(l, i) ==> !PairOk(Split(l, i, size), i + 1)
  {
    hide ListedIn, Distinct, Split;
    SplitAt(l, i, size, i);
    SplitAt(l, i, size, i + 1);
    if FreeBehind(l, i) {
      SplitAt(l, i, size, i + 2);
    }
    hide Linked;
  }

  lemma {:induction false} SplitCoalesced(l: Layout, l': Layout, i: nat, size: int)
    requires Ok(l) && Linear(l) && Coalesced(l) && i < |l.ring| && 0 <= size
    requires ShouldSplit(l.hdr[l.ring[i]], size) && l' == Split(l, i, size) && Linear(l')
    ensures Coalesced(l') <==> size > 0 && !FreeBehind(l, i)
  {
    hide ListedIn, Adjoins, Distinct, Sane, Coalesced, PairOk, FreeBehind;
    RightIsNew(l, i, size);
    SplitMakesPair(l, i, size);
    if size > 0 && !FreeBehind(l, i) {
      forall j | 0 <= j < |l'.ring| - 1
        ensures PairOk(l', j)
      {
        SplitPair(l, i, size, j);
      }
      PairsAreCoalesced(l');
    } else {
      hide Split;
      if Coalesced(l') {
        CoalescedAt(l', i);
        if FreeBehind(l, i) {
          BehindExists(l, i);
          CoalescedAt(l', i + 1);
        }
      }
    }
  }

  lemma {:induction false} BehindExists(l: Layout, i: nat)
    requires Linear(l) && i < |l.ring| && FreeBehind(l, i)
    ensures i + 1 < |l.ring|
  {
  }

  lemma {:induction false} CoalescedAt(l: Layout, j: nat)
    requires Linear(l) && Coalesced(l) && j < |l.ring| - 1
    ensures PairOk(l, j)
  {
  }

  lemma {:induction false} PairsAreCoalesced(l: Layout)
    requires Linear(l) && forall j :: 0 <= j < |l.ring| - 1 ==> PairOk(l, j)
    ensures Coalesced(l)
  {
  }

  lemma {:induction false} MarkedPair(l: Layout, i: nat, size: int, j: nat)
    requires Linear(l) && i < |l.ring| && j < |l.ring| - 1 && PairOk(l, j) && Linear(Mark(l, i, size))
    requires size > 0 || (j != i && j + 1 != i)
    ensures PairOk(Mark(l, i, size), j)
  {
    hide ListedIn;
    OtherBlock(l.ring, j, i);
    OtherBlock(l.ring, j + 1, i);
    hide Distinct;
  }

  lemma {:induction false} MarkCoalesced(l: Layout, i: nat, size: int)
    requires Linear(l) && Coalesced(l) && i < |l.ring| && 0 < size && Linear(Mark(l, i, size))
    ensures Coalesced(Mark(l, i, size))
  {
    hide ListedIn, Distinct, PairOk;
    forall j | 0 <= j < |l.ring| - 1
      ensures PairOk(Mark(l, i, size), j)
    {
      MarkedPair(l, i, size, j);
    }
  }

  /** Handing out no bytes leaves the block free, even one that was in use. */
  lemma {:induction false} MarkFreeCoalesced(l: Layout, i: nat)
    requires Linear(l) && Coalesced(l) && i < |l.ring| && Linear(Mark(l, i, 0))
    ensures Coalesced(Mark(l, i, 0)) <==> Free(l, i) || !(FreeBefore(l, i) || FreeBehind(l, i))
  {
    hide ListedIn;
    var l' := Mark(l, i, 0);
    forall j | 0 <= j < |l.ring|
      ensures j != i ==> (Free(l', j) <==> Free(l, j))
    {
      OtherBlock(l.ring, j, i);
    }
    assert Free(l', i) && l'.owner == l.owner && |l'.ring| == |l.ring|;
    hide Distinct, Linked, Mark, Free, ListedIn;
    if Free(l, i) || !(FreeBefore(l, i) || FreeBehind(l, i)) {
      forall j | 0 <= j < |l.ring| - 1
        ensures PairOk(l', j)
      {
        assert PairOk(l, j);
      }
    } else if FreeBehind(l, i) {
      assert !PairOk(l', i);
    } else {
      assert !PairOk(l', i - 1);
    }
  }

  /** The exact condition under which handing out a block, free or in use, keeps free blocks apart. */
  lemma {:induction false} AllocCoalesced(l: Layout, i: nat, size: int)
    requires Ok(l) && Linear(l) && Coalesced(l) && i < |l.ring| && 0 <= size <= l.hdr[l.ring[i]].size
    requires Linear(Alloc(l, i, size))
    ensures Coalesced(Alloc(l, i, size)) <==> StaysApart(l, i, size)
  {
    hide ListedIn, Adjoins, Distinct, Sane, Split, Mark, Coalesced, Free, FreeBehind, FreeBefore;
    if ShouldSplit(l.hdr[l.ring[i]], size) {
      SplitCoalesced(l, Split(l, i, size), i, size);
    } else if size > 0 {
      MarkCoalesced(l, i, size);
    } else {
      MarkFreeCoalesced(l, i);
    }
  }

  /** A free block can always be handed out. */
  lemma {:induction false} FreeStaysApart(l: Layout, i: nat, size: int)
    requires Linear(l) && Coalesced(l) && i < |l.ring| && Free(l, i) && 0 < size
    ensures StaysApart(l, i, size)
  {
    if i + 1 < |l.ring| {
      assert PairOk(l, i);
    }
  }

  lemma {:induction false} MergeCoalescedAt(l: Layout, i: nat, m: nat)
    requires Linear(l) && i < |l.ring| - 1 && m < |l.ring| - 2 && l.owner[i] == l.owner[i + 1]
    ensures MergedBlock(l, MergeNext(l, i), i, m) && MergedBlock(l, MergeNext(l, i), i, m + 1)
    ensures var l', o, q := MergeNext(l, i), if m <= i then m else m + 1, if m < i then m + 1 else m + 2;
      && (l'.owner[m] == l'.owner[m + 1] <==> l.owner[o] == l.owner[q])
      && (Free(l', m) <==> Free(l, o)) && (Free(l', m + 1) <==> Free(l, q))
  {
    hide ListedIn, Distinct, MergeNext;
    MergeAt(l, i, m);
    MergeAt(l, i, m + 1);
    LinearFacts(l, i);
    LinearFacts(l, if m <= i then m else m + 1);
    LinearFacts(l, if m < i then m + 1 else m + 2);
    hide Linked;
  }

  /** After the first merge only the pair in front of the freed block may still be two free blocks. */
  lemma {:induction false} FirstMergePairs(l: Layout, i: nat)
    requires Ok(l) && Linear(l) && i < |l.ring| && Free(l, i) && NextOk(l, i)
    requires forall j :: 0 <= j < |l.ring| - 1 && j != i && j + 1 != i ==> PairOk(l, j)
    requires Linear(MergedNext(l, i))
    ensures var l1, i1 := MergedNext(l, i), IndexAfter(l, i);
      forall j :: 0 <= j < |l1.ring| - 1 && j + 1 != i1 ==> PairOk(l1, j)
  {
    hide ListedIn, Adjoins, Distinct, Sane, MergeNext, PairOk;
    var l1, i1 := MergedNext(l, i), IndexAfter(l, i);
    if Free(l, Succ(|l.ring|, i)) {
      JoinsMeansSameArena(l, i);
      MergeLength(l, i);
      forall j | 0 <= j < |l1.ring| - 1 && j + 1 != i1
        ensures PairOk(l1, j)
      {
        MergePair(l, i, j);
      }
    } else {
      forall j | 0 <= j < |l1.ring| - 1 && j + 1 != i1
        ensures PairOk(l1, j)
      {
        NextInUse(l, i, j);
      }
    }
  }

  lemma {:induction false} NextInUse(l: Layout, i: nat, j: nat)
    requires Linear(l) && i < |l.ring| && j < |l.ring| - 1 && !Free(l, Succ(|l.ring|, i))
    requires j != i ==> PairOk(l, j)
    ensures PairOk(l, j)
  {
  }

  lemma {:induction false} MergePair(l: Layout, i: nat, j: nat)
    requires Linear(l) && i < |l.ring| - 1 && j < |l.ring| - 2 && l.owner[i] == l.owner[i + 1] && j + 1 != i
    requires Free(l, i) && Free(l, i + 1)
    requires forall m :: 0 <= m < |l.ring| - 1 && m != i && m + 1 != i ==> PairOk(l, m)
    requires Linear(MergeNext(l, i)) && |MergeNext(l, i).ring| == |l.ring| - 1
    ensures PairOk(MergeNext(l, i), j)
  {
    hide ListedIn, Distinct, MergeNext, MergedBlock;
    MergeCoalescedAt(l, i, j);
    assert PairOk(l, if j < i then j else j + 1);
  }

  /** The second merge removes that pair. */
  lemma {:induction false} SecondMergePairs(l: Layout, i: nat)
    requires Ok(l) && Linear(l) && i < |l.ring| && Free(l, i) && PrevOk(l, i)
    requires forall j :: 0 <= j < |l.ring| - 1 && j + 1 != i ==> PairOk(l, j)
    requires Linear(MergedPrev(l, i))
    ensures Coalesced(MergedPrev(l, i))
  {
    hide ListedIn, Adjoins, Distinct, Sane, MergeNext, PairOk;
    var p := Pred(|l.ring|, i);
    var l' := MergedPrev(l, i);
    if l.ring[p] < l.ring[i] && Free(l, p) {
      JoinsMeansSameArena(l, p);
      MergeLength(l, p);
      forall j | 0 <= j < |l'.ring| - 1
        ensures PairOk(l', j)
      {
        MergeOnlyPair(l, p, j);
      }
    } else {
      forall j | 0 <= j < |l.ring| - 1
        ensures PairOk(l, j)
      {
        if j + 1 == i {
          PrevInUse(l, i);
        }
      }
    }
    PairsAreCoalesced(l');
  }

  lemma {:induction false} PrevInUse(l: Layout, i: nat)
    requires Ok(l) && Linear(l) && 0 < i < |l.ring| && !(l.ring[i - 1] < l.ring[i] && Free(l, i - 1))
    ensures PairOk(l, i - 1)
  {
    hide Distinct, ListedIn;
    if l.owner[i - 1] == l.owner[i] {
      assert Adjoins(l, i - 1);
    }
  }

  lemma {:induction false} MergeOnlyPair(l: Layout, p: nat, j: nat)
    requires Linear(l) && p < |l.ring| - 1 && j < |l.ring| - 2 && l.owner[p] == l.owner[p + 1]
    requires Free(l, p) && Free(l, p + 1)
    requires forall m :: 0 <= m < |l.ring| - 1 && m != p ==> PairOk(l, m)
    requires Linear(MergeNext(l, p)) && |MergeNext(l, p).ring| == |l.ring| - 1
    ensures PairOk(MergeNext(l, p), j)
  {
    hide ListedIn, Distinct, MergeNext, MergedBlock;
    MergeCoalescedAt(l, p, j);
    assert PairOk(l, if j < p then j else j + 1);
  }

  /** Under the merge precondition mfree leaves no two adjacent free blocks. */
  lemma {:induction false} FreedCoalesced(l: Layout, i: nat)
    requires Ok(l) && Linear(l) && Coalesced(l) && i < |l.ring| && FreeOk(l, i)
    requires Linear(Freed(l, i))
    ensures Coalesced(Freed(l, i))
  {
    hide ListedIn, Adjoins, Distinct, Sane, MergedNext, MergedPrev, IndexAfter, PairOk;
    var l0 := Mark(l, i, 0);
    ClearedOk(l, i);
    ClearedPairs(l, i);
    MergedNextLinear(l0, i);
    FirstMergeOk(l0, i);
    FirstMergePairs(l0, i);
    SecondMerge(MergedNext(l0, i), IndexAfter(l0, i));
    SecondMergePairs(MergedNext(l0, i), IndexAfter(l0, i));
  }

  lemma {:induction false} ClearedPairs(l: Layout, i: nat)
    requires Linear(l) && Coalesced(l) && i < |l.ring| && Linear(Mark(l, i, 0))
    ensures forall j :: 0 <= j < |l.ring| - 1 && j != i && j + 1 != i ==> PairOk(Mark(l, i, 0), j)
  {
    hide ListedIn, Distinct, PairOk;
    forall j | 0 <= j < |l.ring| - 1 && j != i && j + 1 != i
      ensures PairOk(Mark(l, i, 0), j)
    {
      MarkedPair(l, i, 0, j);
    }
  }

  /** A new arena puts no two free blocks side by side in one arena. */
  lemma {:induction false} GrowCoalesced(l: Layout, base: int, size: int)
    requires Ok(l) && Linear(l) && Coalesced(l) && forall m :: 0 <= m < |l.ring| ==> l.ring[m] != base + ARENA
    requires Linear(Grow(l, base, size))
    ensures Coalesced(Grow(l, base, size))
  {
    BlockOk(l, |l.ring| - 1);
    hide ListedIn, Distinct, Adjoins, Sane;
    forall j | 0 <= j < |l.ring|
      ensures var l' := Grow(l, base, size);
        |l'.ring| == |l.ring| + 1 && PairOk(l', j)
    {
      GrowAt(l, base, size, j);
      GrowAt(l, base, size, j + 1);
      hide Grow, Linked;
      assert j < |l.ring| - 1 ==> PairOk(l, j);
    }
    PairsAreCoalesced(Grow(l, base, size));
  }

  lemma {:induction false} GrowApart(l: Layout, base: int, size: int)
    requires Ok(l) && Unmapped(l, base, size) && size > ARENA + HDR
    ensures Linear(l) && |l.ring| > 0 && l.ring[|l.ring| - 1] in l.hdr
    ensures |l.arenas| > 0 && l.arenas[|l.arenas| - 1] in l.arena
    ensures Linear(Grow(l, base, size)) && (Coalesced(l) ==> Coalesced(Grow(l, base, size)))
  {
    EndFacts(l);
    GrowOk(l, base, size);
    EndFacts(Grow(l, base, size));
    hide Adjoins, Distinct, ListedIn, Sane;
    NewHeaderIsNew(l, base, size);
    if Coalesced(l) {
      GrowCoalesced(l, base, size);
    }
  }

  lemma {:induction false} FreedApart(l: Layout, i: nat)
    requires Ok(l) && i < |l.ring| && Linear(l)
    ensures Linear(Freed(l, i)) && (FreeOk(l, i) && Coalesced(l) ==> Coalesced(Freed(l, i)))
  {
    hide Ok, Coalesced, FreeOk, Freed, Linked, ListedIn;
    FreedOkOrBroken(l, i);
    if FreeOk(l, i) && Coalesced(l) {
      FreedCoalesced(l, i);
    }
  }

  lemma {:induction false} OneBlockCoalesced(l: Layout)
    requires Linear(l) && |l.ring| == 1
    ensures Coalesced(l)
  {
  }
}
