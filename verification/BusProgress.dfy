/**
 From every reachable state the bus and all riders can still finish.  The bus may circle
 with an empty stop for as long as the riders are slow, so not every run ends; but a run
 that lets an enabled rider go first, and the bus otherwise, does.
 */
module BusProgress {
  import opened Options
  import opened BusModel
  import opened BusInvariant

  /** Steps a rider has left. */
  function RiderLeft(pc: RiderPc): nat {
    34 - 2 * Place(pc) - Bit(pc.RiderLog? && pc.ph == Hold)
  }

  function Left(riders: seq<RiderPc>): nat {
    if riders == [] then 0 else Left(riders[..|riders| - 1]) + RiderLeft(riders[|riders| - 1])
  }

  lemma {:induction false} LeftMove(riders: seq<RiderPc>, k: nat, pc: RiderPc)
    requires k < |riders|
    ensures Left(riders[k := pc]) + RiderLeft(riders[k]) == Left(riders) + RiderLeft(pc)
  {
    hide RiderLeft;
    var m := |riders| - 1;
    if k == m {
      assert riders[k := pc][..m] == riders[..m];
    } else {
      LeftMove(riders[..m], k, pc);
      assert riders[k := pc][..m] == riders[..m][k := pc];
    }
  }

  lemma {:induction false} RiderStepLeft(s: State, s': State, k: nat)
    requires RiderStep(s, s', k)
    ensures Left(s'.riders) < Left(s.riders)
  {
    hide Left;
    LeftMove(s.riders, k, s'.riders[k]);
  }

  /**
   Bus steps until it opens a place for a rider or exits.  It is 0 just where some rider
   must be able to move: after a post of sem_bus, and before an arrival at an empty stop
   while somebody has not been transported yet.
   */
  function Distance(c: Config, s: State): nat {
    var p := BusPlace(s.bus);
    if p >= 36 then if p <= 39 then 39 - p else 0
    else if p <= 2 then 23 - p
    else if p == 3 then
      if s.transported == c.riders then 4 else if s.waiting > 0 then 12 else 0
    else if p <= 9 && s.waiting > 0 then 15 - p
    else if p <= 16 then 37 - p
    else if p == 20 && s.i >= s.n then 33 + 2 * s.n
    else if p <= 21 then 22 - p
    else if p == 22 then if s.semBus > 0 then 0 else 34 + 2 * s.n
    else if p <= 33 then 55 + 2 * s.n - p
    else if s.i >= s.n then 21
    else 20 + 2 * (s.n - s.i) + (if p == 34 then 1 else 0)
  }

  /** The rider cannot move with these semaphore values. */
  predicate Stuck(pc: RiderPc, mutex: nat, mutex2: nat, semBus: nat, canFinish: nat) {
    match pc
    case RiderLog(_, ph) => ph == Want && mutex2 == 0
    case WaitMutexIn => mutex == 0
    case WaitMutexOut => mutex == 0
    case WaitBus => semBus == 0
    case WaitFinish => canFinish == 0
    case RiderDone => true
    case _ => false
  }

  lemma {:induction false} StuckIsBlocked(s: State, k: nat)
    requires k < |s.riders| && k < |s.ids|
    ensures RiderNext(s, k).None? <==> Stuck(s.riders[k], s.mutex, s.mutex2, s.semBus, s.canFinish)
  {
  }

  /** Where the riders are when none of them can move. */
  lemma {:induction false} AllStuck(riders: seq<RiderPc>, mutex: nat, mutex2: nat, semBus: nat, canFinish: nat)
    requires forall k :: 0 <= k < |riders| ==> Stuck(riders[k], mutex, mutex2, semBus, canFinish)
    ensures var t := Tally(riders);
      && t.holdMutex2 == 0
      && (mutex2 > 0 ==> t.holdMutex == 0 && t.baton == 0 && t.released == t.gone)
      && (mutex2 > 0 && mutex > 0 ==> t.entered == |riders| && t.counted == t.passed)
      && (mutex2 > 0 && semBus > 0 ==> t.entered == t.passed)
      && (mutex2 > 0 && mutex > 0 && canFinish > 0 ==> t.counted == t.released)
  {
    if riders != [] {
      AllStuck(riders[..|riders| - 1], mutex, mutex2, semBus, canFinish);
    }
  }

  lemma {:induction false} SomeoneLeft(riders: seq<RiderPc>, k: nat)
    requires k < |riders| && riders[k] != RiderDone
    ensures Tally(riders).gone < |riders|
  {
    var m := |riders| - 1;
    TallyOrder(riders[..m]);
    if k < m {
      SomeoneLeft(riders[..m], k);
    }
  }

  /** Inside a log section the bus is never blocked, and gets closer to leaving it. */
  lemma {:induction false} BusLeavesLog(c: Config, s: State)
    requires Locals(c, s) && BusHoldsMutex2(s.bus)
    ensures BusNext(c, s).Some? && Distance(c, BusNext(c, s).value) < Distance(c, s)
  {
  }

  /** If no rider can move, the bus can, and comes closer to opening a place for one. */
  lemma {:induction false} BusMoves(c: Config, s: State)
    requires c.Valid() && Inv(c, s)
    requires forall k :: 0 <= k < |s.riders| ==> Stuck(s.riders[k], s.mutex, s.mutex2, s.semBus, s.canFinish)
    ensures s.bus == BusDone ==> Tally(s.riders).gone == |s.riders|
    ensures s.bus != BusDone ==> BusNext(c, s).Some? && Distance(c, BusNext(c, s).value) < Distance(c, s)
  {
    hide Tally;
    if BusHoldsMutex2(s.bus) {
      hide Distance, BusNext;
      BusLeavesLog(c, s);
    } else {
      AllStuck(s.riders, s.mutex, s.mutex2, s.semBus, s.canFinish);
      TallyOrder(s.riders);
      BusWorks(c, s, Tally(s.riders));
    }
  }

  lemma {:induction false} BusLogWorks(c: Config, s: State, t: Census)
    requires c.Valid() && InvWith(c, s, t) && Ordered(t, c.riders) && !BusHoldsMutex2(s.bus)
    requires s.mutex2 == 1 && t.holdMutex == 0 && t.baton == 0 && t.released == t.gone
    requires s.mutex > 0 ==> t.entered == c.riders && t.counted == t.passed
    requires s.semBus > 0 ==> t.entered == t.passed
    requires s.mutex > 0 && s.canFinish > 0 ==> t.counted == t.released
    requires s.bus.BusLog?
    ensures s.bus == BusDone ==> t.gone == c.riders
    ensures s.bus != BusDone ==> BusNext(c, s).Some? && Distance(c, BusNext(c, s).value) < Distance(c, s)
  {
  }

  lemma {:induction false} BusStepWorks(c: Config, s: State, t: Census)
    requires c.Valid() && InvWith(c, s, t) && Ordered(t, c.riders) && !BusHoldsMutex2(s.bus)
    requires s.mutex2 == 1 && t.holdMutex == 0 && t.baton == 0 && t.released == t.gone
    requires s.mutex > 0 ==> t.entered == c.riders && t.counted == t.passed
    requires s.semBus > 0 ==> t.entered == t.passed
    requires s.mutex > 0 && s.canFinish > 0 ==> t.counted == t.released
    requires !s.bus.BusLog?
    ensures s.bus == BusDone ==> t.gone == c.riders
    ensures s.bus != BusDone ==> BusNext(c, s).Some? && Distance(c, BusNext(c, s).value) < Distance(c, s)
  {
  }

  /** The rest of the code, where both mutexes are free or held by the bus itself. */
  lemma {:induction false} BusWorks(c: Config, s: State, t: Census)
    requires c.Valid() && InvWith(c, s, t) && Ordered(t, c.riders) && !BusHoldsMutex2(s.bus)
    requires s.mutex2 == 1 && t.holdMutex == 0 && t.baton == 0 && t.released == t.gone
    requires s.mutex > 0 ==> t.entered == c.riders && t.counted == t.passed
    requires s.semBus > 0 ==> t.entered == t.passed
    requires s.mutex > 0 && s.canFinish > 0 ==> t.counted == t.released
    ensures s.bus == BusDone ==> t.gone == c.riders
    ensures s.bus != BusDone ==> BusNext(c, s).Some? && Distance(c, BusNext(c, s).value) < Distance(c, s)
  {
    hide InvWith, Ordered, BusNext, Distance, BusHoldsMutex2;
    if s.bus.BusLog? {
      BusLogWorks(c, s, t);
    } else {
      BusStepWorks(c, s, t);
    }
  }

  /** No reachable unfinished state is deadlocked, and some step makes progress. */
  lemma {:induction false} SomeStepProgresses(c: Config, s: State) returns (s': State)
    requires c.Valid() && Inv(c, s) && !Final(s)
    ensures Step(c, s, s')
    ensures Left(s'.riders) < Left(s.riders)
         || (Left(s'.riders) == Left(s.riders) && Distance(c, s') < Distance(c, s))
  {
    hide Left, Distance, Tally, BusNext, RiderNext, Stuck, Locals, Locks, Counters;
    if k: nat :| k < |s.riders| && k < |s.ids| && RiderNext(s, k).Some? {
      s' := RiderNext(s, k).value;
      assert RiderStep(s, s', k);
      RiderStepLeft(s, s', k);
    } else {
      forall k | 0 <= k < |s.riders|
        ensures Stuck(s.riders[k], s.mutex, s.mutex2, s.semBus, s.canFinish)
      {
        StuckIsBlocked(s, k);
      }
      BusMoves(c, s);
      if s.bus == BusDone {
        var k :| 0 <= k < |s.riders| && s.riders[k] != RiderDone;
        SomeoneLeft(s.riders, k);
      } else {
        s' := BusNext(c, s).value;
        BusKeepsLocks(c, s, s', Tally(s.riders));
      }
    }
  }

  lemma {:induction false} ExtendRun(c: Config, s: State, s': State, rest: seq<State>)
    requires Step(c, s, s') && Run(c, rest) && rest[0] == s'
    ensures Run(c, [s] + rest)
  {
    hide Step;
  }

  /** Some finite continuation from any state of the invariant finishes the bus and all riders. */
  lemma {:induction false} CanFinish(c: Config, s: State) returns (run: seq<State>)
    requires c.Valid() && Inv(c, s)
    ensures Run(c, run) && run[0] == s && Final(run[|run| - 1])
    decreases Left(s.riders), Distance(c, s)
  {
    hide Step, Inv, Left, Distance;
    if Final(s) {
      run := [s];
    } else {
      var s' := SomeStepProgresses(c, s);
      StepKeepsInv(c, s, s');
      var rest := CanFinish(c, s');
      ExtendRun(c, s, s', rest);
      run := [s] + rest;
    }
  }

  /** Every run can be continued to one in which all processes have exited. */
  lemma {:induction false} EveryRunCanFinish(c: Config, run: seq<State>) returns (more: seq<State>)
    requires c.Valid() && RunFromInit(c, run)
    ensures RunFromInit(c, run + more) && Final((run + more)[|run + more| - 1])
  {
    hide Step, Inv;
    RunKeepsInv(c, run, |run| - 1);
    var tail := CanFinish(c, run[|run| - 1]);
    more := tail[1..];
    var all := run + more;
    forall j | 0 <= j < |all| - 1
      ensures Step(c, all[j], all[j + 1])
    {
      if j >= |run| - 1 {
        assert all[j] == tail[j - |run| + 1] && all[j + 1] == tail[j - |run| + 2];
      }
    }
  }
}
