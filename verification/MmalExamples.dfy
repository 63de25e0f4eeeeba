/** Runs of the allocator that end badly, each from a program's start and by calls the code accepts. */
module MmalExamples {
  import opened Seqs
  import opened MmalLayout
  import opened MmalFree
  import opened MmalLive
  import opened MmalFit
  import opened MmalApart
  import opened MmalBytes
  import opened MmalRun
  import opened MmalHeld

  // ---------- one arena of one page ----------

  /** The payload of a block that fills the arena, and its header. */
  const ROOM: int := PAGE - ARENA - HDR
  const A: int := PAGE + ARENA

  function None(): Layout { Layout(map[], map[], [], [], []) }

  function Single(a: int): Layout {
    Layout(map[A := Header(A, ROOM, a)], map[PAGE := Arena(0, PAGE)], [A], [0], [PAGE])
  }

  /** A block of `s` bytes, `a` of them in use, and the rest of the arena, `b` bytes of it in use. */
  function Pair(s: int, a: int, b: int): Layout {
    var second := A + HDR + s;
    Layout(map[A := Header(second, s, a), second := Header(A, ROOM - s - HDR, b)], map[PAGE := Arena(0, PAGE)],
           [A, second], [0, 0], [PAGE])
  }

  lemma {:induction false} FirstPage(size: int)
    requires 0 <= size <= ROOM
    ensures MapSize(size) == PAGE && Mappable(None(), [PAGE], size) && MapAll(None(), [PAGE], size) == Single(0)
  {
    assert [PAGE][..0] == [];
    assert First(None(), PAGE, PAGE).hdr == Single(0).hdr;
    assert MapOne(None(), PAGE, size) == Single(0);
  }

  /** The first request is smaller than the page, and the rest is split off. */
  lemma {:induction false} TakeFirst(s: int)
    requires 0 < s && s + 2 * HDR < ROOM
    ensures Happens(None(), Malloc(s, A + HDR, [PAGE], 0), Pair(s, s, 0))
  {
    FirstPage(s);
    assert Split(Single(0), 0, s).hdr == Pair(s, s, 0).hdr;
    assert InsertAt([A], 1, A + HDR + s) == [A, A + HDR + s] && InsertAt([0], 1, 0) == [0, 0];
    assert Alloc(Single(0), 0, s) == Pair(s, s, 0);
  }

  /** The first request leaves one byte of the page over. */
  lemma {:induction false} TakePage()
    ensures Happens(None(), Malloc(ROOM - 1, A + HDR, [PAGE], 0), Single(ROOM - 1))
  {
    FirstPage(ROOM - 1);
    assert Alloc(Single(0), 0, ROOM - 1).hdr == Single(ROOM - 1).hdr;
  }

  /** A request that only the second block can meet, and that leaves one byte of it over. */
  lemma {:induction false} TakeSecond(s: int)
    requires 0 < s && s + HDR + 1 < ROOM
    ensures Happens(Pair(s, s, 0), Malloc(ROOM - s - HDR - 1, A + HDR + s + HDR, [], 1), Pair(s, s, ROOM - s - HDR - 1))
  {
    var l, n := Pair(s, s, 0), ROOM - s - HDR - 1;
    assert Mark(l, 1, n).hdr == Pair(s, s, n).hdr;
    assert Alloc(l, 1, n) == Pair(s, s, n);
  }

  /** A request for the first block when it is free and too small to be split. */
  lemma {:induction false} TakeAgain(s: int, n: int, b: int)
    requires 0 < n < s <= n + 2 * HDR && s + HDR < ROOM
    ensures Happens(Pair(s, 0, b), Malloc(n, A + HDR, [], 0), Pair(s, n, b))
  {
    assert Mark(Pair(s, 0, b), 0, n).hdr == Pair(s, n, b).hdr;
    assert Alloc(Pair(s, 0, b), 0, n) == Pair(s, n, b);
  }

  lemma {:induction false} PairOkay(s: int, a: int, b: int)
    requires 0 < s && s + HDR < ROOM && 0 <= a <= s && 0 <= b <= ROOM - s - HDR
    requires (a > 0 ==> s - a <= 2 * HDR) && (b > 0 ==> ROOM - s - HDR - b <= 2 * HDR)
    ensures Ok(Pair(s, a, b)) && Linear(Pair(s, a, b))
  {
    var l := Pair(s, a, b);
    assert Adjoins(l, 0) && Adjoins(l, 1);
  }

  /** Freeing one of two blocks while the other is in use: nothing is merged. */
  lemma {:induction false} FreeBesideUsed(s: int, a: int, b: int, i: nat)
    requires 0 < s && s + HDR < ROOM && i < 2 && (if i == 0 then b > 0 else a > 0)
    requires Linear(Pair(s, a, b))
    ensures var l, l' := Pair(s, a, b), if i == 0 then Pair(s, 0, b) else Pair(s, a, 0);
      Happens(l, Release(l.ring[i] + HDR, i), l') && FreeOk(l, i)
  {
    var l, l' := Pair(s, a, b), if i == 0 then Pair(s, 0, b) else Pair(s, a, 0);
    assert Mark(l, i, 0).hdr == l'.hdr;
    assert Freed(l, i) == l';
  }

  // ---------- two adjacent free blocks ----------

  /**
   A block of four headers, half of it in use, in front of the free rest of its arena: for a small
   request it fits.
   */
  lemma {:induction false} SmallFitsUsed(size: int)
    requires 0 < size < 2 * HDR
    ensures var l := Pair(4 * HDR, 2 * HDR, 0);
      Ok(l) && Linear(l) && Coalesced(l) && FirstFit(l, size, 0) && !Free(l, 0) && !MallocStaysApart(l, size)
  {
    var l := Pair(4 * HDR, 2 * HDR, 0);
    PairOkay(4 * HDR, 2 * HDR, 0);
    assert FirstFit(l, size, 0) && !StaysApart(l, 0, size);
  }

  lemma {:induction false} SmallMalloc(size: int)
    requires 0 < size < 2 * HDR
    ensures var l := Pair(4 * HDR, 2 * HDR, 0);
      && |l.owner| == |l.ring| > 0 && l.ring[0] in l.hdr
      && Happens(l, Malloc(size, A + HDR, [], 0), Alloc(l, 0, size))
  {
    SmallFitsUsed(size);
    NothingMapped(Pair(4 * HDR, 2 * HDR, 0), size);
    hide Alloc, MapAll;
  }

  /** Two blocks in use fill the page; then the first one is freed. */
  lemma {:induction false} FirstOfTwoFreed(s: int) returns (ls: seq<Layout>, es: seq<Event>)
    requires 2 * HDR < s <= 4 * HDR
    ensures var n := ROOM - s - HDR - 1;
      && SafeRun(ls, es) && |es| == 3 && ls[3] == Pair(s, 0, n)
      && es == [Malloc(s, A + HDR, [PAGE], 0), Malloc(n, A + HDR + s + HDR, [], 1), Release(A + HDR, 0)]
  {
    var n := ROOM - s - HDR - 1;
    TakeFirst(s);
    TakeSecond(s);
    PairOkay(s, s, n);
    FreeBesideUsed(s, s, n, 0);
    NoEvents(None());
    hide Happens, Pair, SafeRun, Run, Ok, FreeOk, Linear;
    Extended([None()], [], Malloc(s, A + HDR, [PAGE], 0), Pair(s, s, 0));
    ls, es := [None(), Pair(s, s, 0)], [Malloc(s, A + HDR, [PAGE], 0)];
    assert [None()] + [Pair(s, s, 0)] == ls && [] + [es[0]] == es;
    Extended(ls, es, Malloc(n, A + HDR + s + HDR, [], 1), Pair(s, s, n));
    ls, es := ls + [Pair(s, s, n)], es + [Malloc(n, A + HDR + s + HDR, [], 1)];
    Extended(ls, es, Release(A + HDR, 0), Pair(s, 0, n));
    ls, es := ls + [Pair(s, 0, n)], es + [Release(A + HDR, 0)];
  }

  /**
   For every request of less than two headers a program can bring the allocator there with
   right merges only; the request is then given a block that the program holds already, and
   what it leaves over lies free beside a free block.
   */
  lemma {:induction false} SmallRequestSplitsUsedBlock(size: int) returns (ls: seq<Layout>, es: seq<Event>)
    requires 0 < size < 2 * HDR
    ensures SafeRun(ls, es) && |es| == 6 && forall j :: 0 <= j < 6 ==> es[j].Malloc? || es[j].Release?
    ensures Linear(ls[5]) && FirstFit(ls[5], size, 0) && !Free(ls[5], 0) && NoFreePairs(ls[5])
    ensures es[5].Malloc? && es[5].size == size && Sound(ls[6]) && !NoFreePairs(ls[6])
    ensures es[5].p - HDR in Lives(es[..5]) && Held(es, 3, 6)
    ensures Held(es, 5, 6) && es[3].p == es[5].p && !Exclusive(es, 6)
  {
    var s, n := 4 * HDR, ROOM - 5 * HDR - 1;
    var last, B := Pair(s, 2 * HDR, 0), A + HDR + s;
    SmallFitsUsed(size);
    SmallMalloc(size);
    ls, es := FirstOfTwoFreed(s);
    TakeAgain(s, 2 * HDR, n);
    PairOkay(s, 2 * HDR, n);
    FreeBesideUsed(s, 2 * HDR, n, 1);
    PairAt(s, 2 * HDR, n);
    hide Happens, Pair, SafeRun, Run, MapAll, Ok, Alloc, FirstFit, MallocStaysApart, Coalesced, Linear, FreeOk;
    Extended(ls, es, Malloc(2 * HDR, A + HDR, [], 0), Pair(s, 2 * HDR, n));
    ls, es := ls + [Pair(s, 2 * HDR, n)], es + [Malloc(2 * HDR, A + HDR, [], 0)];
    Extended(ls, es, Release(B + HDR, 1), last);
    ls, es := ls + [last], es + [Release(B + HDR, 1)];
    var e := Malloc(size, A + HDR, [], 0);
    Extended(ls, es, e, Alloc(last, 0, size));
    ls, es := ls + [Alloc(last, 0, size)], es + [e];
    StepSound(last, e, ls[6]);
    StepNoFreePairs(last, e, ls[6]);
    hide *;
    SharedInTheEnd(ls, es);
  }

  /** The request at the end of the run is given a block that the program holds. */
  lemma {:induction false} SharedInTheEnd(ls: seq<Layout>, es: seq<Event>)
    requires SafeRun(ls, es) && |es| == 6 && es[3].Malloc? && es[4].Release? && es[5].Malloc?
    requires es[3].p == es[5].p != es[4].p && es[3].size > 0 && es[5].size > 0
    requires FirstFit(ls[5], es[5].size, 0) && !Free(ls[5], 0)
    ensures es[5].p - HDR in Lives(es[..5]) && Held(es, 3, 6) && Held(es, 5, 6) && !Exclusive(es, 6)
  {
    hide Lives, Exclusive, SafeAt;
    assert !FitsOnlyFree(ls[5], es[5].size);
    RunHandsOutUnusedIff(ls, es, 5);
    UsedIsShared(ls, es, 5);
  }

  lemma {:induction false} PairAt(s: int, a: int, b: int)
    ensures Pair(s, a, b).ring == [A, A + HDR + s] && |Pair(s, a, b).arenas| == 1
  {
  }

  // ---------- mrealloc onto the block itself ----------

  lemma {:induction false} MoveInPlace(s: int, a: int, size: int, b: int)
    requires 0 < a < size && size + a < s <= size + 2 * HDR && s + HDR < ROOM && b > 0
    requires Ok(Pair(s, a, b))
    ensures var l, l', e := Pair(s, a, b), Pair(s, 0, b), Move(A + HDR, size, A + HDR, [], 0, 0);
      Happens(l, e, l') && Safe(l, e, l') && A !in Live(l')
  {
    var l := Pair(s, a, b);
    assert Mark(l, 0, size).hdr == Pair(s, size, b).hdr;
    assert Alloc(l, 0, size) == Pair(s, size, b);
    assert Mark(Pair(s, size, b), 0, 0).hdr == Pair(s, 0, b).hdr;
    assert Freed(Pair(s, size, b), 0) == Pair(s, 0, b);
    assert MapAll(l, [], size) == l;
  }

  /** Growing a block within its own slack: mrealloc returns the same pointer, to a block it has freed. */
  lemma {:induction false} MoveFreesItsResult(size: int) returns (ls: seq<Layout>, es: seq<Event>)
    requires 1 < size < 2 * HDR
    ensures SafeRun(ls, es) && |es| == 5
    ensures es[4].Move? && es[4].size == size && es[4].p == es[4].q && es[4].q - HDR !in Live(ls[5])
  {
    var s := 2 * HDR + 1;
    var n := ROOM - s - HDR - 1;
    ls, es := FirstOfTwoFreed(s);
    TakeAgain(s, 1, n);
    PairOkay(s, 1, n);
    MoveInPlace(s, 1, size, n);
    hide Happens, Pair, SafeRun, Run, MapAll, Ok, Alloc, FirstFit, Linear, FreeOk, Live;
    Extended(ls, es, Malloc(1, A + HDR, [], 0), Pair(s, 1, n));
    ls, es := ls + [Pair(s, 1, n)], es + [Malloc(1, A + HDR, [], 0)];
    var e := Move(A + HDR, size, A + HDR, [], 0, 0);
    Extended(ls, es, e, Pair(s, 0, n));
    ls, es := ls + [Pair(s, 0, n)], es + [e];
  }

  // ---------- merges across arenas ----------

  lemma {:induction false} FreeAlone()
    ensures var l := Single(ROOM - 1);
      && Ok(l) && Linear(l) && PointsTo(l, A + HDR, 0) && !FreeOk(l, 0)
      && Happens(l, Release(A + HDR, 0), Freed(l, 0))
  {
    assert Adjoins(Single(ROOM - 1), 0);
  }

  /** The only block of the ring is merged with itself. */
  lemma {:induction false} OnlyBlockMergesWithItself() returns (ls: seq<Layout>, es: seq<Event>)
    ensures Run(ls, es) && |es| == 2 && SafeAt(ls, es, 0) && !SafeAt(ls, es, 1)
    ensures |ls[1].ring| == 1 && es[1].Release? && !Sound(ls[2])
  {
    TakePage();
    FreeAlone();
    ls := [None(), Single(ROOM - 1), Freed(Single(ROOM - 1), 0)];
    es := [Malloc(ROOM - 1, A + HDR, [PAGE], 0), Release(A + HDR, 0)];
    hide Happens, Ok, Linear, FreeOk, Freed;
    assert StepAt(ls, es, 0) && StepAt(ls, es, 1);
    StepSound(ls[1], es[1], ls[2]);
  }

  lemma {:induction false} FreeLast(s: int, b: int)
    requires 0 < s && s + HDR < ROOM && b > 0 && Linear(Pair(s, 0, b))
    ensures var l := Pair(s, 0, b);
      && PointsTo(l, l.ring[1] + HDR, 1) && Free(l, 0) && !Joins(l, 1) && !FreeOk(l, 1)
      && Happens(l, Release(l.ring[1] + HDR, 1), Freed(l, 1))
  {
  }

  /** The last block of the ring is merged with the first one, which lies before it. */
  lemma {:induction false} LastBlockMergesWithFirst() returns (ls: seq<Layout>, es: seq<Event>)
    ensures Run(ls, es) && |es| == 4 && (forall j :: 0 <= j < 3 ==> SafeAt(ls, es, j)) && !SafeAt(ls, es, 3)
    ensures es[3].Release? && es[3].i + 1 == |ls[3].ring| > 1 && |ls[3].arenas| == 1 && !Sound(ls[4])
  {
    var s, n := 4 * HDR, ROOM - 5 * HDR - 1;
    var B := A + HDR + s;
    ls, es := FirstOfTwoFreed(s);
    PairOkay(s, 0, n);
    FreeLast(s, n);
    PairAt(s, 0, n);
    hide Happens, Pair, SafeRun, MapAll, Ok, Alloc, FirstFit, Linear, FreeOk, Freed;
    var e, l' := Release(B + HDR, 1), Freed(Pair(s, 0, n), 1);
    Extended(ls, es, e, l');
    StepSound(ls[3], e, l');
    ls, es := ls + [l'], es + [e];
  }

  const FAR: int := 3 * PAGE
  const C: int := FAR + ARENA

  /** Two arenas of one block each. */
  function Two(a: int, c: int): Layout {
    Layout(map[A := Header(C, ROOM, a), C := Header(A, ROOM, c)], map[PAGE := Arena(FAR, PAGE), FAR := Arena(0, PAGE)],
           [A, C], [0, 1], [PAGE, FAR])
  }

  lemma {:induction false} FarPage()
    ensures var l, n := Single(ROOM - 1), ROOM - 1;
      MapSize(n) == PAGE && Mappable(l, [FAR], n) && MapAll(l, [FAR], n) == Two(n, 0)
  {
    var l, n := Single(ROOM - 1), ROOM - 1;
    assert [FAR][..0] == [];
    assert MapAll(l, [], n) == l;
    assert Grow(l, FAR, PAGE).hdr == Two(n, 0).hdr && Grow(l, FAR, PAGE).arena == Two(n, 0).arena;
    assert MapOne(l, FAR, n) == Two(n, 0);
  }

  lemma {:induction false} TakeFar()
    ensures Happens(Single(ROOM - 1), Malloc(ROOM - 1, C + HDR, [FAR], 1), Two(ROOM - 1, ROOM - 1))
  {
    FarPage();
    var n := ROOM - 1;
    hide MapAll, Mappable;
    assert Mark(Two(n, 0), 1, n).hdr == Two(n, n).hdr;
    assert Alloc(Two(n, 0), 1, n) == Two(n, n);
  }

  lemma {:induction false} TwoOkay(a: int, c: int)
    requires (a == 0 || a == ROOM - 1) && (c == 0 || c == ROOM - 1)
    ensures Ok(Two(a, c)) && Linear(Two(a, c))
  {
    var l := Two(a, c);
    assert Adjoins(l, 0) && Adjoins(l, 1);
  }

  lemma {:induction false} FreeFar()
    ensures var n := ROOM - 1;
      && Linear(Two(n, n)) && FreeOk(Two(n, n), 1) && Happens(Two(n, n), Release(C + HDR, 1), Two(n, 0))
      && Linear(Two(n, 0)) && !Joins(Two(n, 0), 0) && !FreeOk(Two(n, 0), 0)
      && Happens(Two(n, 0), Release(A + HDR, 0), Freed(Two(n, 0), 0))
      && |Two(n, 0).ring| == 2 && Two(n, 0).owner == [0, 1]
  {
    var n := ROOM - 1;
    TwoOkay(n, n);
    TwoOkay(n, 0);
    assert Mark(Two(n, n), 1, 0).hdr == Two(n, 0).hdr;
    assert Freed(Two(n, n), 1) == Two(n, 0);
  }

  /** A block is merged with the first block of the next arena. */
  lemma {:induction false} BlockMergesWithNextArena() returns (ls: seq<Layout>, es: seq<Event>)
    ensures Run(ls, es) && |es| == 4 && (forall j :: 0 <= j < 3 ==> SafeAt(ls, es, j)) && !SafeAt(ls, es, 3)
    ensures es[3].Release? && es[3].i == 0 && |ls[3].ring| == 2 && ls[3].owner == [0, 1] && !Sound(ls[4])
  {
    var n := ROOM - 1;
    TakePage();
    TakeFar();
    FreeFar();
    TwoOkay(n, 0);
    NoEvents(None());
    hide Happens, MapAll, Ok, Alloc, FirstFit, Linear, FreeOk, Freed, Two, Single, SafeRun;
    Extended([None()], [], Malloc(n, A + HDR, [PAGE], 0), Single(n));
    ls, es := [None(), Single(n)], [Malloc(n, A + HDR, [PAGE], 0)];
    assert [None()] + [Single(n)] == ls && [] + [es[0]] == es;
    Extended(ls, es, Malloc(n, C + HDR, [FAR], 1), Two(n, n));
    ls, es := ls + [Two(n, n)], es + [Malloc(n, C + HDR, [FAR], 1)];
    Extended(ls, es, Release(C + HDR, 1), Two(n, 0));
    ls, es := ls + [Two(n, 0)], es + [Release(C + HDR, 1)];
    var e, l' := Release(A + HDR, 0), Freed(Two(n, 0), 0);
    Extended(ls, es, e, l');
    StepSound(Two(n, 0), e, l');
    ls, es := ls + [l'], es + [e];
  }
}
