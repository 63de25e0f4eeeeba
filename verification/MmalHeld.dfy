/** What the program holds in a run of the allocator: whose block is whose, and what becomes of its bytes. */
module MmalHeld {
  import opened MmalLayout
  import opened MmalFree
  import opened MmalLive
  import opened MmalFit
  import opened MmalBytes
  import opened MmalRun

  // ---------- when a block in use is handed out ----------

  /** A request is given a block in use if and only if the first fit of the heap before the call is one. */
  lemma {:induction false} HandsOutUnusedIff(l: Layout, bases: seq<int>, size: int, p: int, i: nat)
    requires Sound(l) && 0 <= size && HandsOut(l, bases, size, p, i)
    ensures p - HDR !in Live(l) <==> FitsOnlyFree(l, size)
  {
    hide Ok, Live, Mappable, MapAll, NoFit, FirstFit, FitsOnlyFree;
    HandedOut(l, bases, size, p, i);
    ChosenBlock(l, bases, size, i);
    if bases == [] {
      NothingMapped(l, size);
    }
    UnusedIff(l, MapAll(l, bases, size), size, i);
  }

  predicate HandsOne(e: Event) { e.Malloc? || e.Move? }

  /** The pointer that the event returns. */
  function Pointer(e: Event): int {
    match e
    case Malloc(_, p, _, _) => p
    case Move(_, _, q, _, _, _) => q
    case _ => 0
  }

  /** The request of the event is given a free block. */
  ghost predicate Unused(l: Layout, e: Event) { HandsOne(e) ==> FitsOnlyFree(l, e.size) }

  lemma {:induction false} EventUnusedIff(l: Layout, e: Event, l': Layout)
    requires Sound(l) && Happens(l, e, l') && HandsOne(e)
    ensures Pointer(e) - HDR !in Live(l) <==> Unused(l, e)
  {
    hide Live, FitsOnlyFree, Sound, HandsOut, Alloc, MapAll, Freed, Linear, PointsTo;
    match e
    case Malloc(size, p, bases, i) =>
      HandsOutUnusedIff(l, bases, size, p, i);
    case Move(p, size, q, bases, k, m) =>
      LivePositive(l, p - HDR);
      HandsOutUnusedIff(l, bases, size, q, k);
  }

  ghost predicate UnusedAt(ls: seq<Layout>, es: seq<Event>, j: nat)
    requires j < |es| && |ls| == |es| + 1
  {
    Unused(ls[j], es[j])
  }

  /** In a run: the pointer that a call returns is not one of a block in use, exactly under that condition. */
  lemma {:induction false} RunHandsOutUnusedIff(ls: seq<Layout>, es: seq<Event>, j: nat)
    requires Run(ls, es) && j < |es| && HandsOne(es[j]) && forall i :: 0 <= i < j ==> SafeAt(ls, es, i)
    ensures Pointer(es[j]) - HDR !in Lives(es[..j]) <==> FitsOnlyFree(ls[j], es[j].size)
  {
    hide Run, SafeAt, Happens, Live, Lives, Sound, FitsOnlyFree;
    StepOf(ls, es, j);
    RunIsSound(ls, es, j);
    EventUnusedIff(ls[j], es[j], ls[j + 1]);
  }

  // ---------- allocations ----------

  predicate GivesUp(e: Event, p: int) { (e.Release? || e.Move?) && e.p == p }

  /**
   What call `j` returned, some bytes at least, has been passed to neither mfree nor a moving
   mrealloc before call `n`.
   */
  ghost predicate Held(es: seq<Event>, j: nat, n: nat)
    requires n <= |es|
  {
    j < n && HandsOne(es[j]) && es[j].size > 0 && forall m :: j < m < n ==> !GivesUp(es[m], Pointer(es[j]))
  }

  /** Every allocation the program holds has a block in use, and no two the same. */
  ghost predicate Exclusive(es: seq<Event>, n: nat)
    requires n <= |es|
  {
    (forall j :: 0 <= j < n ==> HasBlock(es, j, n)) && (forall j, k :: 0 <= j < k < n ==> NotShared(es, j, k, n))
  }

  ghost predicate HasBlock(es: seq<Event>, j: nat, n: nat)
    requires n <= |es|
  {
    Held(es, j, n) ==> Pointer(es[j]) - HDR in Lives(es[..n])
  }

  ghost predicate NotShared(es: seq<Event>, j: nat, k: nat, n: nat)
    requires n <= |es|
  {
    Held(es, j, n) && Held(es, k, n) ==> Pointer(es[j]) != Pointer(es[k])
  }

  lemma {:induction false} LivesStep(es: seq<Event>, n: nat)
    requires n < |es|
    ensures Lives(es[..n + 1]) == LiveAfter(Lives(es[..n]), es[n])
  {
    assert es[..n + 1][..n] == es[..n];
  }

  lemma {:induction false} HeldStep(es: seq<Event>, j: nat, n: nat)
    requires j <= n < |es|
    ensures Held(es, j, n + 1) <==>
      if j == n then HandsOne(es[n]) && es[n].size > 0 else Held(es, j, n) && !GivesUp(es[n], Pointer(es[j]))
  {
  }

  lemma {:induction false} LiveBefore(l: Layout, e: Event, l': Layout)
    requires Happens(l, e, l') && (e.Shrink? || e.Move?)
    ensures e.size > 0 && e.p - HDR in Live(l) && (e.Shrink? ==> e.size <= Live(l)[e.p - HDR])
  {
    hide Live, HandsOut, Linear, Alloc, Freed, MapAll;
    if e.Shrink? {
      LiveBlock(l, e.i);
    } else {
      LivePositive(l, e.p - HDR);
    }
  }

  lemma {:induction false} StepOf(ls: seq<Layout>, es: seq<Event>, n: nat)
    requires Run(ls, es) && n < |es|
    ensures |ls| == |es| + 1 && Happens(ls[n], es[n], ls[n + 1])
  {
    hide Happens;
    assert StepAt(ls, es, n);
  }

  /** What is known of call `n` once the calls before it were right. */
  lemma {:induction false} EventFacts(ls: seq<Layout>, es: seq<Event>, n: nat)
    requires Run(ls, es) && n < |es| && forall i :: 0 <= i < n ==> SafeAt(ls, es, i)
    ensures Lives(es[..n + 1]) == LiveAfter(Lives(es[..n]), es[n])
    ensures es[n].Shrink? || es[n].Move? ==> es[n].p - HDR in Lives(es[..n]) && es[n].size > 0
    ensures HandsOne(es[n]) ==> (Pointer(es[n]) - HDR !in Lives(es[..n]) <==> UnusedAt(ls, es, n))
  {
    hide Run, SafeAt, Happens, Lives, Live, Unused, Sound;
    LivesStep(es, n);
    RunIsSound(ls, es, n);
    StepOf(ls, es, n);
    if HandsOne(es[n]) {
      EventUnusedIff(ls[n], es[n], ls[n + 1]);
    }
    if es[n].Shrink? || es[n].Move? {
      LiveBefore(ls[n], es[n], ls[n + 1]);
    }
  }

  /** Every block in use belongs to an allocation that the program holds. */
  lemma {:induction false} Owner(ls: seq<Layout>, es: seq<Event>, n: nat, h: int) returns (j: nat)
    requires Run(ls, es) && n <= |es| && (forall i :: 0 <= i < n ==> SafeAt(ls, es, i)) && h in Lives(es[..n])
    ensures Held(es, j, n) && Pointer(es[j]) - HDR == h
  {
    var m := n - 1;
    EventFacts(ls, es, m);
    hide Run, SafeAt, UnusedAt, Lives, Held;
    if HandsOne(es[m]) && Pointer(es[m]) - HDR == h {
      j := m;
    } else {
      j := Owner(ls, es, m, h);
      HeldBelow(es, j, m);
    }
    HeldStep(es, j, m);
  }

  lemma {:induction false} HeldBelow(es: seq<Event>, j: nat, n: nat)
    requires n <= |es| && Held(es, j, n)
    ensures j < n
  {
  }

  lemma {:induction false} ExclusiveStep(ls: seq<Layout>, es: seq<Event>, n: nat)
    requires Run(ls, es) && n < |es| && (forall i :: 0 <= i < n ==> SafeAt(ls, es, i)) && Exclusive(es, n)
    ensures Exclusive(es, n + 1) <==> UnusedAt(ls, es, n)
  {
    if UnusedAt(ls, es, n) {
      StaysExclusive(ls, es, n);
    } else {
      UsedIsShared(ls, es, n);
    }
  }

  /** What event `n` leaves of an allocation made before it, when it is given a free block. */
  lemma {:induction false} StaysHeld(ls: seq<Layout>, es: seq<Event>, j: nat, n: nat)
    requires Run(ls, es) && j < n < |es| && (forall i :: 0 <= i < n ==> SafeAt(ls, es, i)) && Held(es, j, n + 1)
    requires UnusedAt(ls, es, n) && HasBlock(es, j, n)
    ensures Held(es, j, n) && Pointer(es[j]) - HDR in Lives(es[..n]) && Pointer(es[j]) - HDR in Lives(es[..n + 1])
    ensures HandsOne(es[n]) ==> Pointer(es[n]) != Pointer(es[j])
  {
    HeldStep(es, j, n);
    EventFacts(ls, es, n);
    hide Run, SafeAt, UnusedAt, Lives, Held;
  }

  /** The allocation that event `n` makes. */
  lemma {:induction false} NewHeld(ls: seq<Layout>, es: seq<Event>, n: nat)
    requires Run(ls, es) && n < |es| && (forall i :: 0 <= i < n ==> SafeAt(ls, es, i)) && UnusedAt(ls, es, n)
    ensures HasBlock(es, n, n + 1)
  {
    HeldStep(es, n, n);
    EventFacts(ls, es, n);
    hide Run, SafeAt, UnusedAt, Lives, Held;
  }

  lemma {:induction false} StaysExclusive(ls: seq<Layout>, es: seq<Event>, n: nat)
    requires Run(ls, es) && n < |es| && (forall i :: 0 <= i < n ==> SafeAt(ls, es, i)) && Exclusive(es, n)
    requires UnusedAt(ls, es, n)
    ensures Exclusive(es, n + 1)
  {
    hide Run, SafeAt, UnusedAt, Lives, Held;
    var n' := n + 1;
    forall j | 0 <= j <= n
      ensures HasBlock(es, j, n')
    {
      if j == n {
        NewHeld(ls, es, n);
      } else if Held(es, j, n + 1) {
        assert HasBlock(es, j, n);
        StaysHeld(ls, es, j, n);
      }
    }
    forall j, k | 0 <= j < k <= n
      ensures NotShared(es, j, k, n')
    {
      if Held(es, j, n + 1) && Held(es, k, n + 1) {
        assert HasBlock(es, j, n);
        StaysHeld(ls, es, j, n);
        HeldStep(es, k, n);
        assert k < n ==> NotShared(es, j, k, n);
      }
    }
  }

  lemma {:induction false} UsedIsShared(ls: seq<Layout>, es: seq<Event>, n: nat)
    requires Run(ls, es) && n < |es| && forall i :: 0 <= i < n ==> SafeAt(ls, es, i)
    requires !UnusedAt(ls, es, n)
    ensures !Exclusive(es, n + 1)
  {
    hide Run, SafeAt, Lives, Held;
    EventFacts(ls, es, n);
    var j := Owner(ls, es, n, Pointer(es[n]) - HDR);
    HeldBelow(es, j, n);
    HeldStep(es, j, n);
    HeldStep(es, n, n);
    hide UnusedAt, Exclusive;
    if Exclusive(es, n + 1) {
      ExclusiveAt(es, j, n, n + 1);
    }
  }

  lemma {:induction false} ExclusiveAt(es: seq<Event>, j: nat, k: nat, n: nat)
    requires j < k < n <= |es| && Exclusive(es, n)
    ensures HasBlock(es, j, n) && HasBlock(es, k, n) && NotShared(es, j, k, n)
  {
  }

  /**
   In a run whose merges are right, the allocations that the program holds have a block each,
   throughout, if and only if no request is given a block in use.
   */
  lemma {:induction false} RunIsExclusiveIff(ls: seq<Layout>, es: seq<Event>)
    requires SafeRun(ls, es)
    ensures (forall n :: 0 <= n <= |es| ==> Exclusive(es, n)) <==> (forall j :: 0 <= j < |es| ==> UnusedAt(ls, es, j))
  {
    hide Exclusive, UnusedAt, SafeAt;
    if forall j :: 0 <= j < |es| ==> UnusedAt(ls, es, j) {
      forall n | 0 <= n <= |es|
        ensures Exclusive(es, n)
      {
        RunIsExclusive(ls, es, n);
      }
    } else if forall n :: 0 <= n <= |es| ==> Exclusive(es, n) {
      forall j | 0 <= j < |es|
        ensures UnusedAt(ls, es, j)
      {
        assert Exclusive(es, j) && Exclusive(es, j + 1);
        ExclusiveStep(ls, es, j);
      }
    }
  }

  lemma {:induction false} RunIsExclusive(ls: seq<Layout>, es: seq<Event>, n: nat)
    requires Run(ls, es) && n <= |es| && forall i :: 0 <= i < n ==> SafeAt(ls, es, i) && UnusedAt(ls, es, i)
    ensures Exclusive(es, n)
  {
    if n > 0 {
      hide Exclusive, UnusedAt, SafeAt;
      RunIsExclusive(ls, es, n - 1);
      ExclusiveStep(ls, es, n - 1);
    }
  }

  /** Requests of at least two headers are never given a block in use. */
  lemma {:induction false} LargeRunIsExclusive(ls: seq<Layout>, es: seq<Event>, n: nat)
    requires SafeRun(ls, es) && n <= |es| && forall j :: 0 <= j < |es| && HandsOne(es[j]) ==> es[j].size >= 2 * HDR
    ensures Exclusive(es, n)
  {
    hide Ok, SafeAt, Happens, FitsOnlyFree, Exclusive;
    forall j | 0 <= j < |es|
      ensures UnusedAt(ls, es, j)
    {
      RunIsSound(ls, es, j);
      if Ok(ls[j]) && HandsOne(es[j]) {
        LargeFitsOnlyFree(ls[j], es[j].size);
      } else if HandsOne(es[j]) {
        EmptyHeap(ls[j], es[j].size);
        NothingFits(ls[j], es[j].size);
      }
    }
    hide Run;
    RunIsExclusive(ls, es, n);
  }

  /** In such a run the payloads of two allocations that the program holds never overlap. */
  lemma {:induction false} HeldPayloadsApart(ls: seq<Layout>, es: seq<Event>, n: nat, j: nat, k: nat)
    requires Run(ls, es) && n <= |es| && forall i :: 0 <= i < n ==> SafeAt(ls, es, i) && UnusedAt(ls, es, i)
    requires j != k && Held(es, j, n) && Held(es, k, n)
    ensures var live, p, q := Lives(es[..n]), Pointer(es[j]), Pointer(es[k]);
      p - HDR in live && q - HDR in live && (p + live[p - HDR] <= q - HDR || q + live[q - HDR] <= p - HDR)
  {
    hide Run, SafeAt, UnusedAt, Lives, Held;
    HeldBelow(es, j, n);
    HeldBelow(es, k, n);
    RunIsExclusive(ls, es, n);
    hide Exclusive;
    ExclusiveAt(es, if j < k then j else k, if j < k then k else j, n);
    RunPayloadsApart(ls, es, n, Pointer(es[j]) - HDR, Pointer(es[k]) - HDR);
  }

  // ---------- the bytes of an allocation ----------

  /** What the event keeps of the payloads: `b` is the memory before the call, `b'` after it. */
  ghost predicate KeepsPayloads(l: Layout, e: Event, b: map<int, int>, b': map<int, int>) {
    match e
    case Malloc(_, p, _, _) => PayloadsKept(Live(l) - {p - HDR}, b, b')
    case MallocFails(_, _) => PayloadsKept(Live(l), b, b')
    case Release(_, _) => PayloadsKept(Live(l), b, b')
    case Shrink(p, size, _) => Keeps(Live(l) - {p - HDR}, p, p + size, b, b')
    case Move(p, _, q, _, _, _) =>
      && PayloadsKept(Live(l) - {p - HDR} - {q - HDR}, b, b')
      && (p != q && p - HDR in Live(l) ==> SameContents(b, p, b', q, Live(l)[p - HDR]))
  }

  /** A block in use that the event neither hands out nor frees keeps its bytes, up to its size afterwards. */
  lemma {:induction false} EventKeeps(l: Layout, e: Event, l': Layout, b: map<int, int>, b': map<int, int>, h: int)
    requires Happens(l, e, l') && KeepsPayloads(l, e, b, b')
    requires h in Live(l) && !GivesUp(e, h + HDR) && (HandsOne(e) ==> Pointer(e) - HDR != h)
    ensures h in LiveAfter(Live(l), e) && LiveAfter(Live(l), e)[h] <= Live(l)[h]
    ensures SameBytes(b, b', h + HDR, h + HDR + LiveAfter(Live(l), e)[h])
  {
    hide Happens, Live, SameBytes, PayloadsKept;
    if e.Shrink? {
      LiveBefore(l, e, l');
    }
    var live := Live(l);
    match e
    case Malloc(_, p, _, _) => PayloadOf(live - {p - HDR}, h, b, b');
    case MallocFails(_, _) => PayloadOf(live, h, b, b');
    case Release(_, _) => PayloadOf(live, h, b, b');
    case Shrink(p, size, _) =>
      if h != p - HDR {
        PayloadOf(live - {p - HDR}, h, b, b');
      }
    case Move(p, _, q, _, _, _) => PayloadOf(live - {p - HDR} - {q - HDR}, h, b, b');
  }

  /** `before[j]` and `after[j]` are the memory before and after call `j`; in between the program writes. */
  ghost predicate Memory(ls: seq<Layout>, es: seq<Event>, before: seq<map<int, int>>, after: seq<map<int, int>>) {
    && |ls| == |es| + 1 && |before| == |after| == |es|
    && forall j :: 0 <= j < |es| ==> KeptAt(ls, es, before, after, j)
  }

  ghost predicate KeptAt(ls: seq<Layout>, es: seq<Event>, before: seq<map<int, int>>, after: seq<map<int, int>>, j: nat)
    requires j < |es| == |before| == |after| && |ls| == |es| + 1
  {
    KeepsPayloads(ls[j], es[j], before[j], after[j])
  }

  /** Between call `m` and the next the program writes none of the `len` bytes from `p` on. */
  ghost predicate NotWritten(before: seq<map<int, int>>, after: seq<map<int, int>>, p: int, len: int, m: nat)
    requires m + 1 < |before| == |after|
  {
    SameBytes(after[m], before[m + 1], p, p + len)
  }

  lemma {:induction false} SameBytesTrans(b: map<int, int>, b1: map<int, int>, b2: map<int, int>, lo: int, hi: int)
    requires SameBytes(b, b1, lo, hi) && SameBytes(b1, b2, lo, hi)
    ensures SameBytes(b, b2, lo, hi)
  {
  }

  lemma {:induction false} HeldLonger(es: seq<Event>, j: nat, n: nat)
    requires 0 < n <= |es| && Held(es, j, n)
    ensures j < n && (j + 1 < n ==> Held(es, j, n - 1) && !GivesUp(es[n - 1], Pointer(es[j])))
  {
    HeldStep(es, j, n - 1);
  }

  /**
   In a run whose merges are right and in which no request is given a block in use, no call
   changes the bytes of an allocation while the program holds it: those from its pointer on, as
   many as are left to it, are what the program last wrote.
   */
  lemma {:induction false} RunKeepsBytes(ls: seq<Layout>, es: seq<Event>, before: seq<map<int, int>>,
                                         after: seq<map<int, int>>, j: nat, n: nat, len: int)
    requires Run(ls, es) && n <= |es| && forall i :: 0 <= i < n ==> SafeAt(ls, es, i) && UnusedAt(ls, es, i)
    requires Memory(ls, es, before, after) && Held(es, j, n)
    requires Pointer(es[j]) - HDR in Lives(es[..n]) ==> len <= Lives(es[..n])[Pointer(es[j]) - HDR]
    requires forall m :: j <= m < n - 1 ==> NotWritten(before, after, Pointer(es[j]), len, m)
    ensures SameBytes(after[j], after[n - 1], Pointer(es[j]), Pointer(es[j]) + len)
  {
    var m, p := n - 1, Pointer(es[j]);
    HeldLonger(es, j, n);
    if j < m {
      assert KeptAt(ls, es, before, after, m) && NotWritten(before, after, p, len, m - 1);
      StepKeepsBytes(ls, es, before[m], after[m], j, m);
      hide Run, SafeAt, UnusedAt, Memory, Lives, Held, SameBytes;
      RunKeepsBytes(ls, es, before, after, j, m, len);
      Narrower(before[m], after[m], p, p + Lives(es[..n])[p - HDR], p + len);
      SameBytesTrans(after[j], after[m - 1], before[m], p, p + len);
      SameBytesTrans(after[j], before[m], after[m], p, p + len);
    } else {
      SameBytesRefl(after[j], p, p + len);
    }
  }

  /** One call of such a run, made while allocation `j` is held. */
  lemma {:induction false} StepKeepsBytes(ls: seq<Layout>, es: seq<Event>, b: map<int, int>, b': map<int, int>,
                                          j: nat, m: nat)
    requires Run(ls, es) && j < m < |es| && forall i :: 0 <= i <= m ==> SafeAt(ls, es, i) && UnusedAt(ls, es, i)
    requires Held(es, j, m + 1) && KeepsPayloads(ls[m], es[m], b, b')
    ensures Held(es, j, m)
    ensures var h, live, live' := Pointer(es[j]) - HDR, Lives(es[..m]), Lives(es[..m + 1]);
      h in live && h in live' && live'[h] <= live[h] && SameBytes(b, b', h + HDR, h + HDR + live'[h])
  {
    hide Run, SafeAt, UnusedAt, Happens, Live, Lives, Held, SameBytes, KeepsPayloads, LiveAfter;
    StepOf(ls, es, m);
    RunIsExclusive(ls, es, m);
    RunIsSound(ls, es, m);
    assert UnusedAt(ls, es, m) && HasBlock(es, j, m);
    hide Exclusive;
    StaysHeld(ls, es, j, m);
    HeldStep(es, j, m);
    LivesStep(es, m);
    EventKeeps(ls[m], es[m], ls[m + 1], b, b', Pointer(es[j]) - HDR);
  }

  lemma {:induction false} SameBytesRefl(b: map<int, int>, lo: int, hi: int)
    ensures SameBytes(b, b, lo, hi)
  {
  }
}
