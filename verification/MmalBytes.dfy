/** The bytes of the payloads: what header stores, new arenas and copies keep. */
module MmalBytes {
  import opened MmalLayout
  import opened MmalFree
  import opened MmalLive
  import opened MmalFit

  // ---------- payload bytes ----------

  /** Two memories agree on the addresses lo <= a < hi, including on which of them hold a payload byte. */
  ghost predicate SameBytes(b: map<int, int>, b': map<int, int>, lo: int, hi: int) {
    forall a :: lo <= a < hi ==> (a in b <==> a in b') && (a in b ==> b[a] == b'[a])
  }

  predicate Within(a: int, lo: int, hi: int) { lo <= a < hi }

  /** The memory after something else than payload was stored at lo <= a < hi. */
  function Clobber(b: map<int, int>, lo: int, hi: int): map<int, int> {
    map a | a in b && !(lo <= a < hi) :: b[a]
  }

  /** A fresh mapping is zero. */
  function Zeroed(b: map<int, int>, lo: int, hi: int): map<int, int> {
    b + map a | lo <= a < hi && Within(a, lo, hi) :: 0
  }

  predicate At(b: map<int, int>, a: int, shift: int) { a + shift in b }

  function Shifted(b: map<int, int>, lo: int, hi: int, shift: int): map<int, int> {
    map a | lo <= a < hi && At(b, a, shift) :: b[a + shift]
  }

  /** memcpy(dst, src, n) */
  function Copied(b: map<int, int>, dst: int, src: int, n: int): map<int, int> {
    Clobber(b, dst, dst + n) +
    Shifted(b, dst, dst + n, src - dst)
  }

  /** The payload of every block of `live` is the same in both memories. */
  ghost predicate PayloadsKept(live: map<int, int>, b: map<int, int>, b': map<int, int>) {
    forall x :: x in live ==> SameBytes(b, b', x + HDR, x + HDR + live[x])
  }

  /** No header or payload of another block lies in the payload of a live block. */
  lemma {:induction false} OthersOutsidePayload(l: Layout, i: nat, x: int)
    requires Ok(l) && i < |l.ring| && x in Live(l) && x != l.ring[i]
    ensures End(l, l.ring[i]) <= x + HDR || x + HDR + Live(l)[x] <= l.ring[i]
  {
    var j :| 0 <= j < |l.ring| && l.ring[j] == x;
    BlockOk(l, j);
    if i < j { Apart(l, i, j); } else { Apart(l, j, i); }
  }

  /** A freshly mapped region contains no live payload. */
  lemma {:induction false} UnmappedOutsidePayload(l: Layout, base: int, size: int, x: int)
    requires Ok(l) && x in Live(l) && Unmapped(l, base, size)
    ensures x + HDR + Live(l)[x] <= base || base + size <= x + HDR
  {
    var j :| 0 <= j < |l.ring| && l.ring[j] == x;
    BlockOk(l, j);
    InsideArena(l, j);
  }

  lemma {:induction false} ListedExtra(arena: map<int, Arena>, arenas: seq<int>, a: int, r: Arena)
    requires ListedIn(arena, arenas) && a !in arenas
    ensures ListedIn(arena[a := r], arenas)
  {
    var arena' := arena[a := r];
    forall k | 0 <= k < |arenas|
      ensures ListsOn(arena', arenas, k)
    {
      assert ListsOn(arena, arenas, k);
    }
    forall k, m | 0 <= k < m < |arenas|
      ensures ArenasApart(arena', arenas, k, m)
    {
      assert ArenasApart(arena, arenas, k, m);
    }
  }

  /** What mapping an arena stores: zeros, the arena's header and the first block's header. */
  function Mapped(b: map<int, int>, base: int, size: int): map<int, int> {
    Clobber(Clobber(Zeroed(b, base, base + size), base, base + ARENA), base + ARENA, base + ARENA + HDR)
  }

  /** ... and the link from the last header `h`. */
  function MappedAfter(b: map<int, int>, base: int, size: int, h: int): map<int, int> {
    Clobber(Mapped(b, base, size), h, h + HDR)
  }

  /** A new arena holds zeros behind its own header and that of its block, and no payload byte in them. */
  lemma {:induction false} NewArenaIsZero(b: map<int, int>, base: int, size: int, a: int)
    requires size > ARENA + HDR && base <= a < base + size
    ensures var b' := Mapped(b, base, size);
      if a < base + ARENA + HDR then a !in b' else a in b' && b'[a] == 0
  {
    assert Within(a, base, base + size);
  }

  lemma {:induction false} MappingKeepsRange(base: int, size: int, b: map<int, int>, lo: int, hi: int)
    requires size > ARENA + HDR && (hi <= base || base + size <= lo)
    ensures SameBytes(b, Mapped(b, base, size), lo, hi)
  {
  }

  lemma {:induction false} MappingKeepsPayloads(l: Layout, base: int, size: int, b: map<int, int>)
    requires Ok(l) && Unmapped(l, base, size) && size > ARENA + HDR
    ensures PayloadsKept(Live(l), b, Mapped(b, base, size))
  {
    hide Ok, Unmapped, Mapped, SameBytes;
    forall x | x in Live(l)
      ensures SameBytes(b, Mapped(b, base, size), x + HDR, x + HDR + Live(l)[x])
    {
      UnmappedOutsidePayload(l, base, size, x);
      MappingKeepsRange(base, size, b, x + HDR, x + HDR + Live(l)[x]);
    }
  }

  lemma {:induction false} PayloadsKeptRefl(live: map<int, int>, b: map<int, int>)
    ensures PayloadsKept(live, b, b)
  {
  }

  lemma {:induction false} PayloadsKeptTrans(live: map<int, int>, b: map<int, int>,
                                             b': map<int, int>, b'': map<int, int>)
    requires PayloadsKept(live, b, b') && PayloadsKept(live, b', b'')
    ensures PayloadsKept(live, b, b'')
  {
  }

  // ---------- header stores and payloads ----------

  lemma {:induction false} ClobberKeepsRange(b: map<int, int>, from: int, to: int, lo: int, hi: int)
    requires hi <= from || to <= lo
    ensures SameBytes(b, Clobber(b, from, to), lo, hi)
  {
  }

  /** Storing a header of the ring touches no payload. */
  lemma {:induction false} HeaderStoreKeeps(l: Layout, i: nat, b: map<int, int>)
    requires Ok(l) && i < |l.ring|
    ensures PayloadsKept(Live(l), b, Clobber(b, l.ring[i], l.ring[i] + HDR))
  {
    BlockFacts(l, i);
    hide Ok, Clobber, SameBytes;
    forall x | x in Live(l)
      ensures SameBytes(b, Clobber(b, l.ring[i], l.ring[i] + HDR), x + HDR, x + HDR + Live(l)[x])
    {
      if x != l.ring[i] {
        OthersOutsidePayload(l, i, x);
      }
      ClobberKeepsRange(b, l.ring[i], l.ring[i] + HDR, x + HDR, x + HDR + Live(l)[x]);
    }
  }

  lemma {:induction false} RightOutsidePayload(l: Layout, i: nat, size: int, x: int)
    requires Ok(l) && i < |l.ring| && 0 <= size && ShouldSplit(l.hdr[l.ring[i]], size) && x in Live(l) - {l.ring[i]}
    ensures var right := l.ring[i] + HDR + size; right + HDR <= x + HDR || x + HDR + Live(l)[x] <= right
  {
    OthersOutsidePayload(l, i, x);
  }

  /** Storing the header that splits block `i` touches no other payload, nor the first bytes of its own. */
  lemma {:induction false} SplitStoreKeeps(l: Layout, i: nat, size: int, b: map<int, int>)
    requires Ok(l) && i < |l.ring| && l.ring[i] in l.hdr && 0 <= size && ShouldSplit(l.hdr[l.ring[i]], size)
    ensures var right := l.ring[i] + HDR + size;
      && PayloadsKept(Live(l) - {l.ring[i]}, b, Clobber(b, right, right + HDR))
      && SameBytes(b, Clobber(b, right, right + HDR), l.ring[i] + HDR, l.ring[i] + HDR + size)
  {
    hide Ok, Clobber, SameBytes;
    var right := l.ring[i] + HDR + size;
    ClobberKeepsRange(b, right, right + HDR, l.ring[i] + HDR, right);
    forall x | x in Live(l) - {l.ring[i]}
      ensures SameBytes(b, Clobber(b, right, right + HDR), x + HDR, x + HDR + Live(l)[x])
    {
      RightOutsidePayload(l, i, size, x);
      ClobberKeepsRange(b, right, right + HDR, x + HDR, x + HDR + Live(l)[x]);
    }
  }

  lemma {:induction false} PayloadsKeptSubset(live: map<int, int>, h: int, b: map<int, int>, b': map<int, int>)
    requires PayloadsKept(live, b, b')
    ensures PayloadsKept(live - {h}, b, b')
  {
  }

  /** A store that keeps the payloads of `live` and the bytes from lo to hi. */
  ghost predicate Keeps(live: map<int, int>, lo: int, hi: int, b: map<int, int>, b': map<int, int>) {
    PayloadsKept(live, b, b') && SameBytes(b, b', lo, hi)
  }

  lemma {:induction false} KeepsTrans(live: map<int, int>, lo: int, hi: int,
                                      b: map<int, int>, b': map<int, int>, b'': map<int, int>)
    requires Keeps(live, lo, hi, b, b') && Keeps(live, lo, hi, b', b'')
    ensures Keeps(live, lo, hi, b, b'')
  {
  }

  lemma {:induction false} HeaderStoreKeepsOwn(l: Layout, i: nat, size: int, b: map<int, int>)
    requires Ok(l) && i < |l.ring|
    ensures Keeps(Live(l) - {l.ring[i]}, l.ring[i] + HDR, l.ring[i] + HDR + size, b,
                  Clobber(b, l.ring[i], l.ring[i] + HDR))
  {
    hide Ok, Live, Clobber, PayloadsKept, SameBytes;
    var h := l.ring[i];
    HeaderStoreKeeps(l, i, b);
    PayloadsKeptSubset(Live(l), h, b, Clobber(b, h, h + HDR));
    ClobberKeepsRange(b, h, h + HDR, h + HDR, h + HDR + size);
  }

  lemma {:induction false} RightStoreKeepsOwn(l: Layout, i: nat, size: int, b: map<int, int>)
    requires Ok(l) && i < |l.ring| && l.ring[i] in l.hdr && 0 <= size && ShouldSplit(l.hdr[l.ring[i]], size)
    ensures Keeps(Live(l) - {l.ring[i]}, l.ring[i] + HDR, l.ring[i] + HDR + size, b,
                  Clobber(b, l.ring[i] + HDR + size, l.ring[i] + HDR + size + HDR))
  {
    hide Ok, Live, Clobber, PayloadsKept, SameBytes;
    SplitStoreKeeps(l, i, size, b);
  }

  lemma {:induction false} KeepsTrans4(live: map<int, int>, lo: int, hi: int, b: map<int, int>,
                                       b1: map<int, int>, b2: map<int, int>, b3: map<int, int>, b4: map<int, int>)
    requires Keeps(live, lo, hi, b, b1) && Keeps(live, lo, hi, b1, b2)
    requires Keeps(live, lo, hi, b2, b3) && Keeps(live, lo, hi, b3, b4)
    ensures Keeps(live, lo, hi, b, b4)
  {
    hide Keeps;
    KeepsTrans(live, lo, hi, b, b1, b2);
    KeepsTrans(live, lo, hi, b, b2, b3);
    KeepsTrans(live, lo, hi, b, b3, b4);
  }

  /** What hdr_split and the new asize store. */
  function SplitStored(b: map<int, int>, h: int, right: int): map<int, int> {
    var b2 := Clobber(Clobber(b, h, h + HDR), right, right + HDR);
    Clobber(Clobber(b2, h, h + HDR), h, h + HDR)
  }

  /** The stores of hdr_split and of the new asize. */
  lemma {:induction false} SplitStoresKeep(l: Layout, i: nat, size: int, h: int, b: map<int, int>)
    requires Ok(l) && i < |l.ring| && h == l.ring[i] && h in l.hdr && 0 <= size && ShouldSplit(l.hdr[h], size)
    ensures Keeps(Live(l) - {h}, h + HDR, h + HDR + size, b, SplitStored(b, h, h + HDR + size))
  {
    hide Ok, Live, Clobber, Keeps, ShouldSplit;
    var b1 := Clobber(b, h, h + HDR);
    var b2 := Clobber(b1, h + HDR + size, h + HDR + size + HDR);
    var b3 := Clobber(b2, h, h + HDR);
    HeaderStoreKeepsOwn(l, i, size, b);
    RightStoreKeepsOwn(l, i, size, b1);
    HeaderStoreKeepsOwn(l, i, size, b2);
    HeaderStoreKeepsOwn(l, i, size, b3);
    KeepsTrans4(Live(l) - {h}, h + HDR, h + HDR + size, b, b1, b2, b3, Clobber(b3, h, h + HDR));
  }

  lemma {:induction false} KeepsWeaken(live: map<int, int>, h: int, size: int,
                                       b: map<int, int>, b': map<int, int>, b'': map<int, int>)
    requires PayloadsKept(live, b, b') && Keeps(live, h + HDR, h + HDR + size, b', b'')
    ensures PayloadsKept(live, b, b'')
  {
    PayloadsKeptTrans(live, b, b', b'');
  }

  lemma {:induction false} NothingLive(live: map<int, int>, b: map<int, int>, b': map<int, int>)
    requires live == map[]
    ensures PayloadsKept(live, b, b')
  {
  }

  // ---------- mrealloc ----------

  predicate SameByte(b: map<int, int>, src: int, b': map<int, int>, dst: int, a: int) {
    (src + a in b <==> dst + a in b') && (src + a in b ==> b[src + a] == b'[dst + a])
  }

  /** `n` bytes at `src` in `b` are the `n` bytes at `dst` in `b'`. */
  ghost predicate SameContents(b: map<int, int>, src: int, b': map<int, int>, dst: int, n: int) {
    forall a :: 0 <= a < n ==> SameByte(b, src, b', dst, a)
  }

  lemma {:induction false} CopyCopies(b: map<int, int>, dst: int, src: int, n: int)
    ensures SameContents(b, src, Copied(b, dst, src, n), dst, n)
  {
    forall a | 0 <= a < n
      ensures SameByte(b, src, Copied(b, dst, src, n), dst, a)
    {
      assert At(b, dst + a, src - dst) <==> src + a in b;
    }
  }

  lemma {:induction false} SameContentsTrans(b0: map<int, int>, b: map<int, int>, src: int,
                                             b': map<int, int>, dst: int, n: int, b1: map<int, int>)
    requires SameBytes(b0, b, src, src + n) && SameContents(b, src, b', dst, n) && SameBytes(b', b1, dst, dst + n)
    ensures SameContents(b0, src, b1, dst, n)
  {
    forall a | 0 <= a < n
      ensures SameByte(b0, src, b1, dst, a)
    {
      assert SameByte(b, src, b', dst, a);
      assert (src + a in b0 <==> src + a in b) && (dst + a in b' <==> dst + a in b1);
    }
  }

  lemma {:induction false} CopyKeepsRange(b: map<int, int>, dst: int, src: int, n: int, lo: int, hi: int)
    requires hi <= dst || dst + n <= lo
    ensures SameBytes(b, Copied(b, dst, src, n), lo, hi)
  {
  }

  /** Copying into the payload of block `i` touches no other payload. */
  lemma {:induction false} CopyKeeps(l: Layout, i: nat, b: map<int, int>, src: int, n: int)
    requires Ok(l) && i < |l.ring| && l.ring[i] in l.hdr && n <= l.hdr[l.ring[i]].size
    ensures PayloadsKept(Live(l) - {l.ring[i]}, b, Copied(b, l.ring[i] + HDR, src, n))
  {
    hide Ok, Copied, SameBytes;
    forall x | x in Live(l) - {l.ring[i]}
      ensures SameBytes(b, Copied(b, l.ring[i] + HDR, src, n), x + HDR, x + HDR + Live(l)[x])
    {
      OthersOutsidePayload(l, i, x);
      CopyKeepsRange(b, l.ring[i] + HDR, src, n, x + HDR, x + HDR + Live(l)[x]);
    }
  }

  lemma {:induction false} PayloadOf(live: map<int, int>, x: int, b: map<int, int>, b': map<int, int>)
    requires PayloadsKept(live, b, b') && x in live
    ensures SameBytes(b, b', x + HDR, x + HDR + live[x])
  {
  }

  lemma {:induction false} Narrower(b: map<int, int>, b': map<int, int>, lo: int, hi: int, hi': int)
    requires SameBytes(b, b', lo, hi) && hi' <= hi
    ensures SameBytes(b, b', lo, hi')
  {
  }

  lemma {:induction false} SubsetKept(live: map<int, int>, live': map<int, int>, b: map<int, int>, b': map<int, int>)
    requires PayloadsKept(live', b, b') && forall x :: x in live ==> x in live' && live[x] == live'[x]
    ensures PayloadsKept(live, b, b')
  {
  }

  /**
   Content of the enlarged block `h` and of all others, from before mmalloc (b0) to after mfree
   (b3).  The block `g` that mmalloc chose may be in use, by `h` itself or by another pointer.
   */
  lemma {:induction false} EnlargeKeeps(mid: Layout, k: nat, size: int, h: int,
                                        b0: map<int, int>, b1: map<int, int>, b2: map<int, int>, b3: map<int, int>)
    requires Ok(mid) && k < |mid.ring| && mid.ring[k] in mid.hdr
    requires h in Live(mid) && Live(mid)[h] < size <= mid.hdr[mid.ring[k]].size
    requires PayloadsKept(Live(mid) - {mid.ring[k]}, b0, b1)
    requires b2 == Copied(b1, mid.ring[k] + HDR, h + HDR, if mid.ring[k] == h then size else Live(mid)[h])
    requires 0 < size && PayloadsKept(Live(Alloc(mid, k, size)), b2, b3)
    ensures PayloadsKept(Live(mid) - {h} - {mid.ring[k]}, b0, b3)
    ensures mid.ring[k] != h ==> SameContents(b0, h + HDR, b3, mid.ring[k] + HDR, Live(mid)[h])
  {
    hide Ok, Live, Alloc, Copied, SameContents, SameBytes, PayloadsKept;
    EndFacts(mid);
    var g, n := mid.ring[k], if mid.ring[k] == h then size else Live(mid)[h];
    var l, live := Alloc(mid, k, size), Live(mid);
    AllocOk(mid, k, size);
    AllocLive(mid, k, size);
    AllocBlock(mid, k, size);
    CopyKeeps(l, k, b1, h + HDR, n);
    if g != h {
      CopyCopies(b1, g + HDR, h + HDR, n);
      PayloadOf(live - {g}, h, b0, b1);
      PayloadOf(Live(l), g, b2, b3);
      Narrower(b2, b3, g + HDR, g + HDR + size, g + HDR + n);
      SameContentsTrans(b0, b1, h + HDR, b2, g + HDR, n, b3);
    }
    SubsetKept(live - {h} - {g}, live - {g}, b0, b1);
    SubsetKept(live - {h} - {g}, Live(l) - {g}, b1, b2);
    SubsetKept(live - {h} - {g}, Live(l), b2, b3);
    PayloadsKeptTrans(live - {h} - {g}, b0, b1, b2);
    PayloadsKeptTrans(live - {h} - {g}, b0, b2, b3);
  }

  /** The heap once mmalloc has found room for the enlarged block. */
  lemma {:induction false} EnlargeSetup(mid: Layout, k: nat, size: int, h: int)
    requires Ok(mid) && FirstFit(mid, size, k) && h in Live(mid) && 0 < size
    ensures k < |mid.ring| && mid.ring[k] in mid.hdr && mid.ring[k] > 0 && size <= mid.hdr[mid.ring[k]].size
    ensures |mid.owner| == |mid.ring|
    ensures var l := Alloc(mid, k, size);
      && Ok(l) && Linear(l) && h in l.ring && h in l.hdr && l.arenas == mid.arenas
      && Live(l) == Live(mid)[mid.ring[k] := size]
      && l.hdr[h].asize == if mid.ring[k] == h then size else Live(mid)[h]
  {
    hide Ok, Live, FirstFit, Linear;
    FirstFitFacts(mid, size, k);
    EndFacts(mid);
    AllocOk(mid, k, size);
    AllocLive(mid, k, size);
    EndFacts(Alloc(mid, k, size));
    LiveInRing(mid, h);
    StillInRing(mid, k, size, h);
    LiveInRing(Alloc(mid, k, size), h);
  }
}
