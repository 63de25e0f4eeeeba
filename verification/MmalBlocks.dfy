/** Which blocks handing out and freeing leave, by their headers. */
module MmalBlocks {
  import opened Seqs
  import opened MmalLayout
  import opened MmalFree
  import opened MmalLive

  /**
   Handing out `size` bytes of block `i`: more than two headers left over become a block of their
   own behind them, free and up to the old end; otherwise the block keeps its size.
   */
  lemma {:induction false} HandedOutHeaders(l: Layout, i: nat, size: int, h: int)
    requires Ok(l) && i < |l.ring| && 0 <= size <= l.hdr[l.ring[i]].size
    ensures var g, left, l' := l.ring[i], l.hdr[l.ring[i]].size - size, Alloc(l, i, size);
      && (h in l'.ring <==> h in l.ring || (left > 2 * HDR && h == g + HDR + size))
      && g in l'.hdr && l'.hdr[g].asize == size && l'.hdr[g].size == (if left > 2 * HDR then size else size + left)
      && (left > 2 * HDR ==> g + HDR + size in l'.hdr
                             && l'.hdr[g + HDR + size].size == left - HDR && l'.hdr[g + HDR + size].asize == 0)
  {
    InsertMembers(l.ring, i + 1, l.ring[i] + HDR + size);
    hide Distinct, ListedIn, Adjoins, InsertAt;
  }

  lemma {:induction false} MembersAfterMerge(l: Layout, i: nat, h: int)
    requires Linear(l) && i < |l.ring| && |l.ring| > 1
    ensures h in MergeNext(l, i).ring <==> h in l.ring && h != l.ring[Succ(|l.ring|, i)]
  {
    var j := Succ(|l.ring|, i);
    var r := RemoveAt(l.ring, j);
    RemovedIsGone(l.ring, j);
    if h in l.ring && h != l.ring[j] {
      var k :| 0 <= k < |l.ring| && l.ring[k] == h;
      assert r[if k < j then k else k - 1] == h;
    }
  }

  /** The free block `k`, header and all. */
  predicate FreeAt(l: Layout, k: nat)
    requires k < |l.ring| && l.ring[k] in l.hdr
  {
    l.hdr[l.ring[k]].asize == 0
  }

  /**
   The headers that mfree of block `i` drops from the ring: that of the next block, if it is free,
   and its own, if the previous block is free and at a lower address.
   */
  lemma {:induction false} FreedHeaders(l: Layout, i: nat, h: int)
    requires Linear(l) && i < |l.ring| && |l.ring| >= 3
    ensures var next, prev := Succ(|l.ring|, i), Pred(|l.ring|, i);
      && l.ring[next] in l.hdr && l.ring[prev] in l.hdr
      && (h in Freed(l, i).ring <==>
          && h in l.ring
          && !(h == l.ring[next] && FreeAt(l, next))
          && !(h == l.ring[i] && FreeAt(l, prev) && l.ring[prev] < l.ring[i]))
  {
    var n, l0 := |l.ring|, Mark(l, i, 0);
    MarkLinear(l, i, 0);
    MergedNextLinear(l0, i);
    var next, prev := Succ(n, i), Pred(n, i);
    var l1, i1 := MergedNext(l0, i), IndexAfter(l0, i);
    OtherBlock(l.ring, next, i);
    OtherBlock(l.ring, prev, i);
    OtherBlock(l.ring, prev, next);
    PrevStays(l0, i);
    var p1 := Pred(|l1.ring|, i1);
    MembersAfterMerge(l0, i, h);
    if FreeAt(l, next) {
      MergeLength(l0, i);
    }
    MembersAfterMerge(l1, p1, h);
    assert Succ(|l1.ring|, p1) == i1;
    hide MergeNext, Linear;
  }

  /** With two blocks the previous one is the next one, and with one it is the block itself. */
  lemma {:induction false} FreedHeadersOfFew(l: Layout, i: nat, h: int)
    requires Linear(l) && i < |l.ring| <= 2
    ensures var next := Succ(|l.ring|, i);
      && l.ring[next] in l.hdr
      && (h in Freed(l, i).ring <==> h in l.ring && !(|l.ring| == 2 && h == l.ring[next] && FreeAt(l, next)))
  {
    var l0, next := Mark(l, i, 0), Succ(|l.ring|, i);
    MarkLinear(l, i, 0);
    MergedNextLinear(l0, i);
    OtherBlock(l.ring, next, i);
    if |l.ring| == 2 {
      MembersAfterMerge(l0, i, h);
    }
    hide Distinct, ListedIn;
  }

  /** The block before block `i` is the same after the merge with the next one. */
  lemma {:induction false} PrevStays(l: Layout, i: nat)
    requires Linear(l) && i < |l.ring| && |l.ring| >= 3
    requires Linear(MergedNext(l, i)) && IndexAfter(l, i) < |MergedNext(l, i).ring|
    ensures var l1 := MergedNext(l, i);
      var p, p1 := Pred(|l.ring|, i), Pred(|l1.ring|, IndexAfter(l, i));
      && l1.ring[p1] == l.ring[p] && l.ring[p] in l.hdr && l1.ring[p1] in l1.hdr
      && l1.hdr[l1.ring[p1]] == l.hdr[l.ring[p]]
      && |l1.ring| >= 2
  {
    hide Distinct, ListedIn, MergeNext;
    if Free(l, Succ(|l.ring|, i)) {
      MergeLength(l, i);
      MergeAt(l, i, Pred(|l.ring| - 1, IndexAfter(l, i)));
    }
  }
}
