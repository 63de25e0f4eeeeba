/** The blocks in use: live headers as a finite map. */
module MmalLive {
  import opened Seqs
  import opened MmalLayout
  import opened MmalFree

  /** The headers of allocated blocks, with the number of bytes allocated for the program. */
  ghost function Live(l: Layout): map<int, int> {
    map h | h in l.ring && h in l.hdr && l.hdr[h].asize > 0 :: l.hdr[h].asize
  }

  lemma {:induction false} LinearFacts(l: Layout, i: nat)
    requires Linear(l) && i < |l.ring|
    ensures l.ring[i] in l.hdr && Succ(|l.ring|, i) < |l.ring| && l.ring[Succ(|l.ring|, i)] in l.hdr
    ensures l.hdr[l.ring[i]].next == l.ring[Succ(|l.ring|, i)]
  {
    assert LeadsOn(l, i);
  }

  lemma {:induction false} SplitLive(l: Layout, i: nat, size: int)
    requires Linear(l) && i < |l.ring| && size > 0
    requires forall j :: 0 <= j < |l.ring| ==> l.ring[j] != l.ring[i] + HDR + size
    ensures Live(Split(l, i, size)) == Live(l)[l.ring[i] := size]
  {
    hide ListedIn, Distinct;
    var right := l.ring[i] + HDR + size;
    InsertMembers(l.ring, i + 1, right);
    hide InsertAt;
    var l' := Split(l, i, size);
    assert right !in l.ring;
    forall h
      ensures h in Live(l') <==> h in Live(l)[l.ring[i] := size]
      ensures h in Live(l') ==> Live(l')[h] == Live(l)[l.ring[i] := size][h]
    {
    }
  }

  lemma {:induction false} InsertMembers(s: seq<int>, i: nat, x: int)
    requires i <= |s|
    ensures forall h :: h in InsertAt(s, i, x) <==> h in s || h == x
  {
    forall h | h in s
      ensures h in InsertAt(s, i, x)
    {
      var j :| 0 <= j < |s| && s[j] == h;
      assert InsertAt(s, i, x)[if j < i then j else j + 1] == h;
    }
    assert InsertAt(s, i, x)[i] == x;
  }

  /** mmalloc binds the chosen header to the requested size and leaves every other live block alone. */
  lemma {:induction false} AllocLive(l: Layout, i: nat, size: int)
    requires Ok(l) && i < |l.ring| && 0 < size
    ensures Live(Alloc(l, i, size)) == Live(l)[l.ring[i] := size]
  {
    hide ListedIn, Adjoins;
    if ShouldSplit(l.hdr[l.ring[i]], size) {
      RightIsNew(l, i, size);
      SplitLive(l, i, size);
    } else {
      hide Distinct;
      assert l.ring[i] in l.ring;
    }
  }

  lemma {:induction false} RemoveMembers(s: seq<int>, i: nat)
    requires Distinct(s) && i < |s|
    ensures forall h :: h in RemoveAt(s, i) <==> h in s && h != s[i]
  {
    RemovedIsGone(s, i);
    forall h | h in s && h != s[i]
      ensures h in RemoveAt(s, i)
    {
      var j :| 0 <= j < |s| && s[j] == h;
      assert RemoveAt(s, i)[if j < i then j else j - 1] == h;
    }
  }

  /** Merging two free blocks changes no live block, adjacent or not. */
  lemma {:induction false} MergeLive(l: Layout, i: nat)
    requires Linear(l) && i < |l.ring| && Free(l, i) && Free(l, Succ(|l.ring|, i))
    ensures Live(MergeNext(l, i)) == Live(l)
  {
    LinearFacts(l, i);
    var j := Succ(|l.ring|, i);
    RemoveMembers(l.ring, j);
    hide RemoveAt, Live, Linked, ListedIn;
    forall h
      ensures h in Live(MergeNext(l, i)) <==> h in Live(l)
      ensures h in Live(l) ==> Live(MergeNext(l, i))[h] == Live(l)[h]
    {
      LiveAt(l, h);
      LiveAt(MergeNext(l, i), h);
    }
  }

  /** mfree removes exactly the block it was given from the live blocks. */
  lemma {:induction false} FreedLive(l: Layout, i: nat)
    requires Ok(l) && Linear(l) && i < |l.ring|
    ensures Live(Freed(l, i)) == Live(l) - {l.ring[i]}
  {
    hide ListedIn, Distinct, Adjoins, MergeNext, Sane;
    var l0 := Mark(l, i, 0);
    MarkLinear(l, i, 0);
    MarkLive(l, i);
    MergedNextLinear(l0, i);
    var l1, i1 := MergedNext(l0, i), IndexAfter(l0, i);
    if Free(l0, Succ(|l0.ring|, i)) {
      MergeLive(l0, i);
    }
    MergedNextFree(l0, i);
    var p := Pred(|l1.ring|, i1);
    if l1.ring[p] < l1.ring[i1] && Free(l1, p) {
      assert Succ(|l1.ring|, p) == i1;
      MergeLive(l1, p);
    }
  }

  lemma {:induction false} LiveAt(l: Layout, h: int)
    ensures h in Live(l) <==> h in l.ring && h in l.hdr && l.hdr[h].asize > 0
    ensures h in Live(l) ==> Live(l)[h] == l.hdr[h].asize
  {
  }

  lemma {:induction false} MarkLive(l: Layout, i: nat)
    requires Linear(l) && i < |l.ring|
    ensures Live(Mark(l, i, 0)) == Live(l) - {l.ring[i]}
  {
    LinearFacts(l, i);
    hide Live, Linked, ListedIn;
    forall h
      ensures h in Live(Mark(l, i, 0)) <==> h in Live(l) && h != l.ring[i]
      ensures h in Live(l) && h != l.ring[i] ==> Live(Mark(l, i, 0))[h] == Live(l)[h]
    {
      LiveAt(l, h);
      LiveAt(Mark(l, i, 0), h);
    }
  }

  lemma {:induction false} MergedNextFree(l: Layout, i: nat)
    requires Linear(l) && i < |l.ring| && Free(l, i)
    requires Linear(MergedNext(l, i)) && IndexAfter(l, i) < |MergedNext(l, i).ring|
    ensures Free(MergedNext(l, i), IndexAfter(l, i))
  {
    hide ListedIn, Distinct;
    if Free(l, Succ(|l.ring|, i)) && |l.ring| > 1 {
      MergeAt(l, i, IndexAfter(l, i));
    }
  }

  lemma {:induction false} LiveBlock(l: Layout, i: nat)
    requires i < |l.ring| && l.ring[i] in l.hdr && l.hdr[l.ring[i]].asize > 0
    ensures l.ring[i] in Live(l) && Live(l)[l.ring[i]] == l.hdr[l.ring[i]].asize
  {
  }

  lemma {:induction false} LiveInRing(l: Layout, h: int)
    requires h in Live(l)
    ensures h in l.ring && h in l.hdr && Live(l)[h] == l.hdr[h].asize
  {
  }

  lemma {:induction false} FreeIsNotLive(l: Layout, i: nat)
    requires i < |l.ring| && l.ring[i] in l.hdr && Free(l, i)
    ensures l.ring[i] !in Live(l)
  {
  }

  lemma {:induction false} LiveIffUsed(l: Layout, i: nat)
    requires Ok(l) && i < |l.ring| && l.ring[i] in l.hdr
    ensures l.ring[i] in Live(l) <==> l.hdr[l.ring[i]].asize > 0
    ensures l.hdr[l.ring[i]].asize >= 0
  {
    BlockOk(l, i);
    hide Ok;
    assert l.ring[i] in l.ring;
  }
}
