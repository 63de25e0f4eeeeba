/** The inductive invariant of the bus protocol, over every interleaving. */
module BusInvariant {
  import opened Options
  import opened BusModel

  /** How many riders are at, or past, the program points that matter to the shared counters. */
  datatype Census = Census(
    holdMutex: nat,     // riders between sem_wait(sem_mutex) and sem_post(sem_mutex)
    holdMutex2: nat,    // riders between sem_wait(sem_mutex2) and sem_post(sem_mutex2)
    started: nat,       // riders that have drawn their number
    entered: nat,       // riders past the increment of waiting
    entering: nat,      // ... whose enter line is not printed yet
    passed: nat,        // riders past sem_wait(sem_bus)
    boarding: nat,      // ... whose boarding line is not printed yet
    baton: nat,         // riders between sem_wait(sem_bus) and sem_post(sem_boarded)
    counted: nat,       // riders past the increment of transported
    released: nat,      // riders past sem_wait(sem_can_finish)
    leaving: nat,       // ... whose finish line is not printed yet
    gone: nat)          // riders that have exited

  function Bit(b: bool): nat { if b then 1 else 0 }

  /** Position of a program point along the code of `rider`. */
  function Place(pc: RiderPc): nat {
    match pc
    case RiderLog(RiderStart, ph) => if ph == Leave then 1 else 0
    case WaitMutexIn => 2
    case IncWaiting => 3
    case RiderLog(Enter, ph) => if ph == Leave then 5 else 4
    case PostMutexIn => 6
    case WaitBus => 7
    case RiderLog(Boarding, ph) => if ph == Leave then 9 else 8
    case PostBoarded => 10
    case WaitMutexOut => 11
    case IncTransported => 12
    case PostMutexOut => 13
    case WaitFinish => 14
    case RiderLog(RiderFinish, ph) => if ph == Leave then 16 else 15
    case RiderDone => 17
  }

  function CensusOf(pc: RiderPc): Census {
    var p := Place(pc);
    Census(Bit(3 <= p <= 6 || 12 <= p <= 13),
           Bit(pc.RiderLog? && pc.ph != Want),
           Bit(p >= 1), Bit(p >= 4), Bit(p == 4), Bit(p >= 8), Bit(p == 8), Bit(8 <= p <= 10),
           Bit(p >= 13), Bit(p >= 15), Bit(p == 15), Bit(p == 17))
  }

  function Add(a: Census, b: Census): Census {
    Census(a.holdMutex + b.holdMutex, a.holdMutex2 + b.holdMutex2, a.started + b.started, a.entered + b.entered,
           a.entering + b.entering, a.passed + b.passed, a.boarding + b.boarding, a.baton + b.baton,
           a.counted + b.counted, a.released + b.released, a.leaving + b.leaving, a.gone + b.gone)
  }

  function Tally(riders: seq<RiderPc>): Census {
    if riders == [] then Census(0, 0, 0, 0, 0, 0, 0, 0, 0, 0, 0, 0)
    else Add(Tally(riders[..|riders| - 1]), CensusOf(riders[|riders| - 1]))
  }

  /** One rider moving from `riders[k]` to `pc` changes the census by exactly that rider. */
  lemma {:induction false} TallyMove(riders: seq<RiderPc>, k: nat, pc: RiderPc)
    requires k < |riders|
    ensures Add(Tally(riders[k := pc]), CensusOf(riders[k])) == Add(Tally(riders), CensusOf(pc))
  {
    hide CensusOf;
    var m := |riders| - 1;
    if k == m {
      assert riders[k := pc][..m] == riders[..m];
    } else {
      TallyMove(riders[..m], k, pc);
      assert riders[k := pc][..m] == riders[..m][k := pc];
    }
  }

  lemma {:induction false} TallyOrder(riders: seq<RiderPc>)
    ensures Ordered(Tally(riders), |riders|)
  {
    if riders != [] {
      TallyOrder(riders[..|riders| - 1]);
    }
  }

  lemma {:induction false} TallyCovers(riders: seq<RiderPc>, k: nat)
    requires k < |riders|
    ensures var t, u := Tally(riders), CensusOf(riders[k]);
      && u.holdMutex <= t.holdMutex && u.holdMutex2 <= t.holdMutex2 && u.started <= t.started
      && u.entered <= t.entered && u.entering <= t.entering && u.passed <= t.passed
      && u.boarding <= t.boarding && u.baton <= t.baton && u.counted <= t.counted
      && u.released <= t.released && u.leaving <= t.leaving && u.gone <= t.gone
  {
    if k < |riders| - 1 {
      TallyCovers(riders[..|riders| - 1], k);
    }
  }

  lemma {:induction false} TallyInit(r: nat, riders: seq<RiderPc>)
    requires |riders| == r && forall k :: 0 <= k < r ==> riders[k] == RiderLog(RiderStart, Want)
    ensures Tally(riders) == Census(0, 0, 0, 0, 0, 0, 0, 0, 0, 0, 0, 0)
  {
    if r > 0 {
      TallyInit(r - 1, riders[..r - 1]);
    }
  }

  /** Position of a log line's three steps along the code of `bus`. */
  function BusLinePlace(line: BusLine): nat {
    match line
    case BusStart => 0
    case Arrival => 5
    case DepartEmpty => 11
    case EndEmpty => 14
    case StartBoarding => 17
    case EndBoarding => 24
    case Depart => 27
    case End => 31
    case BusFinish => 36
  }

  /** Position of a program point along the code of `bus`. */
  function BusPlace(pc: BusPc): nat {
    match pc
    case BusLog(line, ph) => BusLinePlace(line) + (if ph == Want then 0 else if ph == Hold then 1 else 2)
    case TestTransported => 3
    case WaitMutex => 4
    case ChooseN => 8
    case TestEmpty => 9
    case PostMutexEmpty => 10
    case TestBoarding => 20
    case PostBus => 21
    case WaitBoarded => 22
    case Clamp => 23
    case PostMutex => 30
    case TestRelease => 34
    case PostFinish => 35
    case BusDone => 39
  }

  /** The bus is between sem_wait(sem_mutex) and the matching post. */
  predicate BusHoldsMutex(pc: BusPc) {
    var p := BusPlace(pc);
    5 <= p <= 10 || 17 <= p <= 30
  }

  predicate BusHoldsMutex2(pc: BusPc) { pc.BusLog? && pc.ph != Want }

  /** Riders that boarded in the trip under way while `waiting` still counts them. */
  function Taken(s: State): int {
    var p := BusPlace(s.bus);
    if p < 20 || p > 23 then 0
    else if p == 22 then s.i + 1 - s.semBus
    else s.i
  }

  /** Riders that boarded but for whom the bus has not posted sem_can_finish yet. */
  function Owed(s: State): int {
    var p := BusPlace(s.bus);
    if 24 <= p <= 33 then s.n
    else if 34 <= p <= 35 then s.n - s.i
    else Taken(s)
  }

  function Min(a: nat, b: nat): nat { if a > b then b else a }

  /** What the locals `n` and `i` of the bus mean at each program point. */
  ghost predicate Locals(c: Config, s: State) {
    var p := BusPlace(s.bus);
    && (p == 9 || 17 <= p <= 23 ==> s.n == Min(s.waiting, c.capacity))
    && (p == 10 ==> s.waiting == 0)
    && (17 <= p <= 33 ==> 0 < s.n <= c.capacity)
    && (p == 20 || p == 34 ==> s.i <= s.n)
    && (p == 21 || p == 22 || p == 35 ==> s.i < s.n)
    && (p == 23 ==> s.i == s.n)
    && (36 <= p ==> s.transported == c.riders)
  }

  /** The census counts are nested because the program points are passed in order. */
  ghost predicate Ordered(t: Census, r: nat) {
    && t.gone + t.leaving <= t.released <= t.counted
    && t.counted + t.baton <= t.passed
    && t.boarding <= t.baton
    && t.passed + t.entering <= t.entered
    && t.entering <= t.holdMutex
    && t.entered <= t.started <= r
  }

  /** sem_mutex and sem_mutex2 are binary and have one holder at a time. */
  ghost predicate Locks(s: State, t: Census) {
    && s.mutex + t.holdMutex + Bit(BusHoldsMutex(s.bus)) == 1
    && s.mutex2 + t.holdMutex2 + Bit(BusHoldsMutex2(s.bus)) == 1
  }

  /** The shared counters agree with where the riders are. */
  ghost predicate Counters(s: State, t: Census) {
    // one boarding at a time: the baton is out exactly while the bus waits on sem_boarded
    && s.semBus + s.boarded + t.baton == Bit(s.bus == WaitBoarded)
    && s.transported == t.counted
    && s.ridCounter == t.started
    && t.entered - t.passed == s.waiting - Taken(s)
    && t.passed - t.released == s.canFinish + Owed(s)
  }

  /** The invariant, as a relation between a state and the census `t` of its riders. */
  ghost predicate InvWith(c: Config, s: State, t: Census) {
    && |s.riders| == |s.ids| == c.riders
    && Locals(c, s)
    && Locks(s, t)
    && Counters(s, t)
  }

  ghost predicate Inv(c: Config, s: State) {
    InvWith(c, s, Tally(s.riders))
  }

  lemma {:induction false} InitInv(c: Config)
    requires c.Valid()
    ensures Inv(c, Init(c))
  {
    hide Tally;
    TallyInit(c.riders, Init(c).riders);
  }

  lemma {:induction false} BusKeepsLocks(c: Config, s: State, s': State, t: Census)
    requires Locks(s, t) && BusNext(c, s) == Some(s')
    ensures Locks(s', t) && s'.riders == s.riders && s'.ids == s.ids
  {
  }

  lemma {:induction false} BusLogKeepsLocals(c: Config, s: State, s': State, t: Census)
    requires c.Valid() && InvWith(c, s, t) && Ordered(t, c.riders) && BusNext(c, s) == Some(s')
    requires s.bus.BusLog?
    ensures Locals(c, s')
  {
    hide Locks;
  }

  lemma {:induction false} BusWorkKeepsLocals(c: Config, s: State, s': State, t: Census)
    requires c.Valid() && InvWith(c, s, t) && Ordered(t, c.riders) && BusNext(c, s) == Some(s')
    requires !s.bus.BusLog?
    ensures Locals(c, s')
  {
    hide Locks;
  }

  lemma {:induction false} BusKeepsLocals(c: Config, s: State, s': State, t: Census)
    requires c.Valid() && InvWith(c, s, t) && Ordered(t, c.riders) && BusNext(c, s) == Some(s')
    ensures Locals(c, s')
  {
    hide Locals, Locks, Counters, BusNext;
    if s.bus.BusLog? {
      BusLogKeepsLocals(c, s, s', t);
    } else {
      BusWorkKeepsLocals(c, s, s', t);
    }
  }

  lemma {:induction false} BusLogKeepsCounters(c: Config, s: State, s': State, t: Census)
    requires c.Valid() && Locals(c, s) && Counters(s, t) && BusNext(c, s) == Some(s')
    requires s.bus.BusLog?
    ensures Counters(s', t)
  {
  }

  lemma {:induction false} BusWorkKeepsCounters(c: Config, s: State, s': State, t: Census)
    requires c.Valid() && Locals(c, s) && Counters(s, t) && BusNext(c, s) == Some(s')
    requires !s.bus.BusLog?
    ensures Counters(s', t)
  {
  }

  lemma {:induction false} BusKeepsCounters(c: Config, s: State, s': State, t: Census)
    requires c.Valid() && Locals(c, s) && Counters(s, t) && BusNext(c, s) == Some(s')
    ensures Counters(s', t)
  {
    hide Locals, Counters, BusNext;
    if s.bus.BusLog? {
      BusLogKeepsCounters(c, s, s', t);
    } else {
      BusWorkKeepsCounters(c, s, s', t);
    }
  }

  /** What a rider's step does to the census. */
  ghost predicate Moved(s: State, s': State, k: nat, t: Census, t': Census) {
    && RiderStep(s, s', k) && k < |s'.riders|
    && Add(t', CensusOf(s.riders[k])) == Add(t, CensusOf(s'.riders[k]))
  }

  /** Each rider step changes the semaphores and counters exactly as it changes the census. */
  ghost predicate Delta(s: State, s': State, t: Census, t': Census) {
    && s'.bus == s.bus && s'.n == s.n && s'.i == s.i && |s'.ids| == |s.ids|
    && t'.holdMutex - t.holdMutex == s.mutex - s'.mutex
    && t'.holdMutex2 - t.holdMutex2 == s.mutex2 - s'.mutex2
    && t'.baton - t.baton == s.semBus + s.boarded - s'.semBus - s'.boarded
    && t'.counted - t.counted == s'.transported - s.transported
    && t'.started - t.started == s'.ridCounter - s.ridCounter
    && t'.entered - t.entered == s'.waiting - s.waiting
    && t'.passed - t.passed == s.semBus - s'.semBus
    && t'.released - t.released == s.canFinish - s'.canFinish
    && s'.transported >= s.transported && s'.semBus <= s.semBus
  }

  predicate BeforeBoarding(pc: RiderPc) {
    pc.WaitMutexIn? || pc.IncWaiting? || pc.PostMutexIn? || pc.WaitBus?
  }

  lemma {:induction false} PrintLineDelta(s: State, s': State, k: nat, t: Census, t': Census)
    requires Moved(s, s', k, t, t') && s.riders[k].RiderLog?
    requires s.riders[k].ph == Hold
    ensures Delta(s, s', t, t') && s'.waiting == s.waiting
  {
  }

  lemma {:induction false} EnterOrLeaveDelta(s: State, s': State, k: nat, t: Census, t': Census)
    requires Moved(s, s', k, t, t') && s.riders[k].RiderLog?
    requires !(s.riders[k].ph == Hold)
    ensures Delta(s, s', t, t') && s'.waiting == s.waiting
  {
  }

  lemma {:induction false} LogDelta(s: State, s': State, k: nat, t: Census, t': Census)
    requires Moved(s, s', k, t, t') && s.riders[k].RiderLog?
    ensures Delta(s, s', t, t') && s'.waiting == s.waiting
  {
    hide Delta, RiderNext, Add;
    if s.riders[k].ph == Hold {
      PrintLineDelta(s, s', k, t, t');
    } else {
      EnterOrLeaveDelta(s, s', k, t, t');
    }
  }

  lemma {:induction false} BeforeBoardingDelta(s: State, s': State, k: nat, t: Census, t': Census)
    requires Moved(s, s', k, t, t') && !s.riders[k].RiderLog? && BeforeBoarding(s.riders[k])
    ensures Delta(s, s', t, t')
    ensures s'.waiting != s.waiting ==> CensusOf(s.riders[k]).holdMutex == 1
  {
  }

  lemma {:induction false} AfterBoardingDelta(s: State, s': State, k: nat, t: Census, t': Census)
    requires Moved(s, s', k, t, t') && !s.riders[k].RiderLog? && !BeforeBoarding(s.riders[k])
    ensures Delta(s, s', t, t') && s'.waiting == s.waiting
  {
  }

  lemma {:induction false} RiderMoves(s: State, s': State, k: nat)
    requires RiderStep(s, s', k)
    ensures |s'.riders| == |s.riders| && s'.riders == s.riders[k := s'.riders[k]]
  {
  }

  /** The census of all riders before and after one rider's step. */
  lemma {:induction false} RiderStepDelta(s: State, s': State, k: nat)
    requires RiderStep(s, s', k)
    ensures |s'.riders| == |s.riders| && s'.riders == s.riders[k := s'.riders[k]]
    ensures Moved(s, s', k, Tally(s.riders), Tally(s'.riders))
    ensures Delta(s, s', Tally(s.riders), Tally(s'.riders))
    ensures s'.waiting != s.waiting ==> CensusOf(s.riders[k]).holdMutex == 1
  {
    hide Tally, RiderNext, CensusOf, Add;
    var t, t' := Tally(s.riders), Tally(s'.riders);
    RiderMoves(s, s', k);
    TallyMove(s.riders, k, s'.riders[k]);
    if s.riders[k].RiderLog? {
      LogDelta(s, s', k, t, t');
    } else if BeforeBoarding(s.riders[k]) {
      BeforeBoardingDelta(s, s', k, t, t');
    } else {
      AfterBoardingDelta(s, s', k, t, t');
    }
  }

  lemma {:induction false} DeltaKeepsLocals(c: Config, s: State, s': State, t: Census, t': Census)
    requires Locals(c, s) && Locks(s, t) && Delta(s, s', t, t') && t'.counted <= c.riders
    requires s.transported == t.counted
    requires s'.waiting != s.waiting ==> t.holdMutex > 0
    ensures Locals(c, s')
  {
  }

  lemma {:induction false} DeltaKeepsRest(s: State, s': State, t: Census, t': Census)
    requires Locks(s, t) && Counters(s, t) && Delta(s, s', t, t')
    ensures Locks(s', t') && Counters(s', t')
  {
  }

  lemma {:induction false} StepKeepsInv(c: Config, s: State, s': State)
    requires c.Valid() && Inv(c, s) && Step(c, s, s')
    ensures Inv(c, s')
  {
    hide Tally, Locals, Locks, BusNext, RiderNext, CensusOf, Add;
    TallyOrder(s.riders);
    var t := Tally(s.riders);
    if BusNext(c, s) == Some(s') {
      BusKeepsLocks(c, s, s', t);
      BusKeepsLocals(c, s, s', t);
      BusKeepsCounters(c, s, s', t);
    } else {
      var k: nat :| RiderStep(s, s', k);
      RiderStepDelta(s, s', k);
      TallyOrder(s'.riders);
      TallyCovers(s.riders, k);
      var t' := Tally(s'.riders);
      DeltaKeepsLocals(c, s, s', t, t');
      DeltaKeepsRest(s, s', t, t');
    }
  }

  /** The invariant holds in every state of every run. */
  lemma {:induction false} RunKeepsInv(c: Config, run: seq<State>, j: nat)
    requires c.Valid() && RunFromInit(c, run) && j < |run|
    ensures Inv(c, run[j])
  {
    if j == 0 {
      InitInv(c);
    } else {
      RunKeepsInv(c, run, j - 1);
      StepKeepsInv(c, run[j - 1], run[j]);
    }
  }
}
