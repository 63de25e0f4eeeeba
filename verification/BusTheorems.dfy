/** What the invariant and the accepted logs mean, for every run of the bus protocol. */
module BusTheorems {
  import opened Options
  import opened BusModel
  import opened BusInvariant
  import opened BusLog

  // ---------- facts about accepted logs ----------

  predicate IsStart(e: Event) { e.EvRiderStart? }
  predicate IsEnter(e: Event) { e.EvEnter? }
  predicate IsBoarding(e: Event) { e.EvBoarding? }
  predicate IsFinish(e: Event) { e.EvRiderFinish? }
  predicate IsBus(e: Event) { !(IsStart(e) || IsEnter(e) || IsBoarding(e) || IsFinish(e)) }

  function Count(log: seq<Line>, p: Event -> bool): nat {
    if log == [] then 0 else Count(log[..|log| - 1], p) + Bit(p(log[|log| - 1].event))
  }

  /** Riders on board for whom the trip's "end" line is still to come. */
  function Aboard(trip: Trip): nat {
    match trip
    case Loading(_, d) => d
    case Loaded(n) => n
    case Riding(n) => n
    case _ => 0
  }

  lemma {:induction false} PrefixAccepted(c: Config, log: seq<Line>, j: nat)
    requires Scan(c, log).Some? && j <= |log|
    ensures Scan(c, log[..j]).Some?
  {
    if j < |log| {
      PrefixAccepted(c, log[..|log| - 1], j);
      assert log[..|log| - 1][..j] == log[..j];
    } else {
      assert log[..j] == log;
    }
  }

  /** The reader accepts line `j` after the lines before it. */
  lemma {:induction false} LineAccepted(c: Config, log: seq<Line>, j: nat)
    requires Scan(c, log).Some? && j < |log|
    ensures Scan(c, log[..j]).Some? && Scan(c, log[..j + 1]).Some?
    ensures Scan(c, log[..j + 1]) == Next(c, Scan(c, log[..j]).value, log[j].event)
  {
    PrefixAccepted(c, log, j + 1);
    assert log[..j + 1][..j] == log[..j];
    hide Next;
  }

  /** The reader's counters are the numbers of lines of each kind. */
  lemma {:induction false} CountersCountLines(c: Config, log: seq<Line>)
    requires Scan(c, log).Some?
    ensures var v := Scan(c, log).value;
      && |v.stages| == Count(log, IsStart) <= c.riders
      && v.waiting + v.boarded == Count(log, IsEnter)
      && v.boarded == Count(log, IsBoarding)
      && v.finished == Count(log, IsFinish)
    ensures Accepts(c, log) ==> forall k :: 0 <= k < |log| ==> log[k].number == k + 1
  {
    if log != [] {
      hide Count;
      var m := |log| - 1;
      CountersCountLines(c, log[..m]);
      CountLast(log, IsStart);
      CountLast(log, IsEnter);
      CountLast(log, IsBoarding);
      CountLast(log, IsFinish);
    } 
  }

  lemma {:induction false} CountLast(log: seq<Line>, p: Event -> bool)
    requires log != []
    ensures Count(log, p) == Count(log[..|log| - 1], p) + Bit(p(log[|log| - 1].event))
  {
  }

  /** Riders are released trip by trip, and nobody finishes without a release. */
  lemma {:induction false} ReleasesFollowTrips(c: Config, log: seq<Line>)
    requires Scan(c, log).Some?
    ensures var v := Scan(c, log).value;
      && v.finished <= v.released && v.released + Aboard(v.trip) == v.boarded
      && (v.trip.Loading? ==> v.trip.aboard <= v.trip.n)
  {
    if log != [] {
      ReleasesFollowTrips(c, log[..|log| - 1]);
    }
  }

  /** Rider numbers are handed out in the order of the start lines, so no two are equal. */
  lemma {:induction false} StartLinesAreNumberedInOrder(c: Config, log: seq<Line>, j: nat)
    requires Accepts(c, log) && j < |log| && log[j].event.EvRiderStart?
    ensures log[j].event.id == Count(log[..j], IsStart) + 1
  {
    PrefixAccepted(c, log, j + 1);
    assert log[..j + 1][..j] == log[..j];
    CountersCountLines(c, log[..j]);
  }

  lemma {:induction false} CountGrows(log: seq<Line>, j: nat, p: Event -> bool)
    requires j < |log| && p(log[j].event)
    ensures Count(log[..j], p) < Count(log, p)
  {
    if j < |log| - 1 {
      CountGrows(log[..|log| - 1], j, p);
      assert log[..|log| - 1][..j] == log[..j];
    }
  }

  lemma {:induction false} RiderNumbersAreDistinct(c: Config, log: seq<Line>, i: nat, j: nat)
    requires Accepts(c, log) && i < j < |log| && log[i].event.EvRiderStart? && log[j].event.EvRiderStart?
    ensures log[i].event.id < log[j].event.id <= c.riders
  {
    StartLinesAreNumberedInOrder(c, log, i);
    StartLinesAreNumberedInOrder(c, log, j);
    hide Scan, Count;
    assert log[..j][..i] == log[..i];
    CountGrows(log[..j], i, IsStart);
    LineAccepted(c, log, j);
    hide Accepts;
  }

  /** While a trip is loading, its "start boarding" line and the lines since then. */
  lemma {:induction false} LoadingSince(c: Config, log: seq<Line>) returns (a: nat)
    requires Scan(c, log).Some? && Scan(c, log).value.trip.Loading?
    ensures var v := Scan(c, log).value;
      && a < |log| && log[a].event.EvStartBoarding?
      && v.trip.n == Min(log[a].event.left, c.capacity)
      && v.trip.aboard == Count(log[a + 1..], IsBoarding)
      && v.waiting + v.trip.aboard == log[a].event.left
      && forall j :: a < j < |log| ==> !IsBus(log[j].event) && !IsEnter(log[j].event)
  {
    hide Count, Scan;
    var m := |log| - 1;
    ScanUnfold(c, log);
    var u := Scan(c, log[..m]).value;
    ScanTripSize(c, log[..m]);
    if u.trip.Loading? {
      a := LoadingSince(c, log[..m]);
      assert log[..m][a + 1..] == log[a + 1..m] == log[a + 1..][..m - a - 1];
      CountLast(log[a + 1..], IsBoarding);
    } else {
      a := m;
      CountNone(log[a + 1..], IsBoarding);
    }
  }

  lemma {:induction false} CountNone(log: seq<Line>, p: Event -> bool)
    requires log == []
    ensures Count(log, p) == 0
  {
  }

  lemma {:induction false} ScanUnfold(c: Config, log: seq<Line>)
    requires Scan(c, log).Some? && Scan(c, log) != Some(Blank)
    ensures log != [] && Scan(c, log[..|log| - 1]).Some?
    ensures Scan(c, log) == Next(c, Scan(c, log[..|log| - 1]).value, log[|log| - 1].event)
  {
  }

  lemma {:induction false} ScanTripSize(c: Config, log: seq<Line>)
    requires Scan(c, log).Some?
    ensures var v := Scan(c, log).value; v.trip.AtStop? ==> v.trip.n == Min(v.waiting, c.capacity)
  {
    if log != [] {
      ScanTripSize(c, log[..|log| - 1]);
    }
  }

  /** Line `b` is the first of the bus after line `j`. */
  ghost predicate NextBusLine(log: seq<Line>, j: nat, b: nat) {
    j < b < |log| && IsBus(log[b].event) && forall i :: j < i < b ==> !IsBus(log[i].event)
  }

  /** After a boarding line the trip is loading until the next bus line. */
  lemma {:induction false} LoadingUntil(c: Config, log: seq<Line>, j: nat)
    requires Scan(c, log).Some? && j < |log| && log[j].event.EvBoarding?
    requires forall i :: j < i < |log| ==> !IsBus(log[i].event)
    ensures Scan(c, log).value.trip.Loading?
  {
    hide Scan;
    var m := |log| - 1;
    LineAccepted(c, log, m);
    assert log[..m + 1] == log;
    if j < m {
      LoadingUntil(c, log[..m], j);
    }
  }

  /** Every boarding line lies between "start boarding" and "end boarding", with no other bus line in between. */
  lemma {:induction false} BoardingIsBracketed(c: Config, log: seq<Line>, j: nat) returns (a: nat)
    requires Accepts(c, log) && j < |log| && log[j].event.EvBoarding?
    ensures a < j && log[a].event.EvStartBoarding?
    ensures forall i :: a < i < j ==> !IsBus(log[i].event) && !IsEnter(log[i].event)
    ensures forall b: nat :: NextBusLine(log, j, b) ==> log[b].event.EvEndBoarding?
  {
    hide Scan;
    LineAccepted(c, log, j);
    a := LoadingSince(c, log[..j]);
    hide Next, Accepts, Count;
    forall b: nat | NextBusLine(log, j, b)
      ensures log[b].event.EvEndBoarding?
    {
      LoadingEnds(c, log, j, b);
    }
  }

  lemma {:induction false} LoadingEnds(c: Config, log: seq<Line>, j: nat, b: nat)
    requires Scan(c, log).Some? && j < |log| && log[j].event.EvBoarding? && NextBusLine(log, j, b)
    ensures log[b].event.EvEndBoarding?
  {
    hide Scan;
    LineAccepted(c, log, b);
    LoadingUntil(c, log[..b], j);
  }

  /** Between "start boarding: w" and the next bus line, exactly min(w, C) riders board. */
  lemma {:induction false} TripBoardsExactly(c: Config, log: seq<Line>, b: nat) returns (a: nat)
    requires Accepts(c, log) && b < |log| && log[b].event.EvEndBoarding?
    ensures a < b && log[a].event.EvStartBoarding?
    ensures forall i :: a < i < b ==> !IsBus(log[i].event) && !IsEnter(log[i].event)
    ensures Count(log[a + 1..b], IsBoarding) == Min(log[a].event.left, c.capacity)
    ensures log[b].event.left == log[a].event.left - Min(log[a].event.left, c.capacity)
  {
    hide Scan, Count;
    LineAccepted(c, log, b);
    a := LoadingSince(c, log[..b]);
    assert log[..b][a + 1..] == log[a + 1..b];
  }

  predicate OpenTrip(trip: Trip) { trip.AtStop? || trip.Loading? || trip.Loaded? }

  /** From the arrival of a boarding trip to its departure nobody enters the stop. */
  lemma {:induction false} NobodyEntersSinceArrival(c: Config, log: seq<Line>) returns (a: nat)
    requires Scan(c, log).Some? && OpenTrip(Scan(c, log).value.trip)
    ensures a < |log| && log[a].event == EvArrival
    ensures forall j :: a < j < |log| ==> !IsEnter(log[j].event) && log[j].event != EvDepart
  {
    var m := |log| - 1;
    ScanUnfold(c, log);
    hide Scan;
    if OpenTrip(Scan(c, log[..m]).value.trip) {
      a := NobodyEntersSinceArrival(c, log[..m]);
    } else {
      a := m;
    }
  }

  lemma {:induction false} NoEndNoRelease(c: Config, log: seq<Line>, e: nat)
    requires Scan(c, log).Some? && e <= |log|
    requires forall j :: e <= j < |log| ==> log[j].event != EvEnd
    ensures Scan(c, log[..e]).Some? && Scan(c, log).value.released == Scan(c, log[..e]).value.released
  {
    var m := |log| - 1;
    PrefixAccepted(c, log, e);
    if e < |log| {
      NoEndNoRelease(c, log[..m], e);
      assert log[..m][..e] == log[..e];
    } else {
      assert log[..e] == log;
    }
  }

  /** No more riders have finished than boarded before the last "end" line. */
  lemma {:induction false} FinishesNeverOutnumberEndedTrips(c: Config, log: seq<Line>, e: nat)
    requires Accepts(c, log) && e <= |log|
    requires forall j :: e <= j < |log| ==> log[j].event != EvEnd
    ensures Count(log, IsFinish) <= Count(log[..e], IsBoarding)
  {
    NoEndNoRelease(c, log, e);
    CountersCountLines(c, log);
    CountersCountLines(c, log[..e]);
    ReleasesFollowTrips(c, log);
    ReleasesFollowTrips(c, log[..e]);
  }

  lemma {:induction false} ClosedStaysClosed(c: Config, log: seq<Line>, j: nat, i: nat)
    requires Scan(c, log).Some? && j < i < |log| && log[j].event == EvBusFinish
    ensures Scan(c, log).value.trip == Closed && !IsBus(log[i].event) && !IsBoarding(log[i].event)
  {
    var m := |log| - 1;
    assert log[..m][..j + 1] == log[..j + 1];
    if i < m {
      ClosedStaysClosed(c, log[..m], j, i);
    } else if j + 1 < m {
      ClosedStaysClosed(c, log[..m], j, m - 1);
    }
  }

  /** The bus finishes only after all riders have boarded, and is not heard of again. */
  lemma {:induction false} BusFinishesLast(c: Config, log: seq<Line>, j: nat)
    requires Accepts(c, log) && j < |log| && log[j].event == EvBusFinish
    ensures Count(log[..j], IsBoarding) == c.riders
    ensures forall i :: j < i < |log| ==> !IsBus(log[i].event) && !IsBoarding(log[i].event)
  {
    PrefixAccepted(c, log, j + 1);
    assert log[..j + 1][..j] == log[..j];
    CountersCountLines(c, log[..j]);
    forall i | j < i < |log|
      ensures !IsBus(log[i].event) && !IsBoarding(log[i].event)
    {
      ClosedStaysClosed(c, log, j, i);
    }
  }

  // ---------- facts about runs ----------

  /** While sem_mutex is free, `waiting` counts exactly the riders between entering and sem_bus. */
  lemma {:induction false} WaitingIsExact(c: Config, run: seq<State>, j: nat)
    requires c.Valid() && RunFromInit(c, run) && j < |run| && run[j].mutex > 0
    ensures var t := Tally(run[j].riders); run[j].waiting == t.entered - t.passed && t.entering == 0
  {
    RunKeepsInv(c, run, j);
    TallyOrder(run[j].riders);
  }

  /**
   One boarding at a time: a token in sem_bus or sem_boarded, or a rider between taking the one
   and posting the other, is there exactly while the bus waits for a rider to board, and then
   there is one.
   */
  lemma {:induction false} OneBoardingAtATime(c: Config, run: seq<State>, j: nat)
    requires c.Valid() && RunFromInit(c, run) && j < |run|
    ensures var s := run[j];
      s.semBus + s.boarded + Tally(s.riders).baton == if s.bus == WaitBoarded then 1 else 0
  {
    hide Tally;
    RunKeepsInv(c, run, j);
  }

  lemma {:induction false} TallyPair(riders: seq<RiderPc>, k: nat, k': nat)
    requires k < k' < |riders|
    ensures var t, u, v := Tally(riders), CensusOf(riders[k]), CensusOf(riders[k']);
      u.holdMutex + v.holdMutex <= t.holdMutex && u.holdMutex2 + v.holdMutex2 <= t.holdMutex2
  {
    hide CensusOf;
    if k' == |riders| - 1 {
      TallyCovers(riders[..k'], k);
    } else {
      TallyPair(riders[..|riders| - 1], k, k');
    }
  }

  /** sem_mutex and sem_mutex2 keep a rider and the bus, and two riders, out of their sections. */
  lemma {:induction false} MutexesExclude(c: Config, run: seq<State>, j: nat, k: nat, k': nat)
    requires c.Valid() && RunFromInit(c, run) && j < |run| && k < |run[j].riders| && k' < |run[j].riders|
    ensures var s, a := run[j], CensusOf(run[j].riders[k]);
      && a.holdMutex + Bit(BusHoldsMutex(s.bus)) + s.mutex <= 1
      && a.holdMutex2 + Bit(BusHoldsMutex2(s.bus)) + s.mutex2 <= 1
    ensures k != k' ==>
      var s, a, b := run[j], CensusOf(run[j].riders[k]), CensusOf(run[j].riders[k']);
      && a.holdMutex + b.holdMutex + Bit(BusHoldsMutex(s.bus)) + s.mutex <= 1
      && a.holdMutex2 + b.holdMutex2 + Bit(BusHoldsMutex2(s.bus)) + s.mutex2 <= 1
  {
    hide Tally, CensusOf;
    RunKeepsInv(c, run, j);
    TallyCovers(run[j].riders, k);
    if k < k' {
      TallyPair(run[j].riders, k, k');
    } else if k' < k {
      TallyPair(run[j].riders, k', k);
    }
  }

  /** The clamp subtracts exactly the riders that boarded, which are min(waiting, C) many. */
  lemma {:induction false} ClampSubtractsTheBoarded(c: Config, run: seq<State>, j: nat)
    requires c.Valid() && RunFromInit(c, run) && j < |run| && run[j].bus == Clamp
    ensures var s, t := run[j], Tally(run[j].riders);
      && s.i == Min(s.waiting, c.capacity) == s.n > 0
      && BusNext(c, s).value.waiting == s.waiting - s.n == t.entered - t.passed
  {
    hide Tally;
    RunKeepsInv(c, run, j);
  }

  /** Number of sem_post(sem_can_finish) in a run. */
  function Posts(run: seq<State>): nat {
    if |run| < 2 then 0
    else Posts(run[..|run| - 1]) +
         Bit(run[|run| - 2].bus == PostFinish && run[|run| - 1].bus == TestRelease)
  }

  lemma {:induction false} StepTokens(c: Config, s: State, s': State)
    requires Step(c, s, s')
    ensures s'.canFinish + Tally(s'.riders).released
         == s.canFinish + Tally(s.riders).released + Bit(s.bus == PostFinish && s'.bus == TestRelease)
  {
    hide Tally, RiderNext;
    if BusNext(c, s) == Some(s') {
    } else {
      var k: nat :| RiderStep(s, s', k);
      RiderStepDelta(s, s', k);
    }
  }

  /** Every token posted to sem_can_finish is either still there or was taken by one rider. */
  lemma {:induction false} PostsAreTokens(c: Config, run: seq<State>)
    requires c.Valid() && RunFromInit(c, run)
    ensures var s := run[|run| - 1]; Posts(run) == s.canFinish + Tally(s.riders).released
  {
    hide Tally, BusNext, RiderNext;
    var m := |run| - 1;
    if m == 0 {
      TallyInit(c.riders, run[0].riders);
    } else {
      PostsAreTokens(c, run[..m]);
      StepTokens(c, run[m - 1], run[m]);
    }
  }

  lemma {:induction false} AllGone(r: nat, riders: seq<RiderPc>)
    requires |riders| == r && forall k :: 0 <= k < r ==> riders[k] == RiderDone
    ensures Tally(riders) == Census(0, 0, r, r, 0, r, 0, 0, r, r, 0, r)
  {
    if r > 0 {
      AllGone(r - 1, riders[..r - 1]);
    }
  }

  /** When everybody has exited, every semaphore is back at its idle value and R tokens were posted. */
  lemma {:induction false} QuiescentAtTheEnd(c: Config, run: seq<State>)
    requires c.Valid() && RunFromInit(c, run) && Final(run[|run| - 1])
    ensures var s := run[|run| - 1];
      && s.mutex == 1 && s.mutex2 == 1 && s.semBus == 0 && s.boarded == 0 && s.canFinish == 0
      && s.waiting == 0 && s.transported == c.riders && Posts(run) == c.riders
  {
    hide Tally;
    RunKeepsInv(c, run, |run| - 1);
    AllGone(c.riders, run[|run| - 1].riders);
    PostsAreTokens(c, run);
  }

  // ---------- the lines of one rider ----------

  /** The line that the event is for rider number `id`. */
  function LineOf(e: Event, id: nat): Option<RiderLine> {
    match e
    case EvRiderStart(r) => if r == id then Some(RiderStart) else None
    case EvEnter(r, _) => if r == id then Some(Enter) else None
    case EvBoarding(r) => if r == id then Some(Boarding) else None
    case EvRiderFinish(r) => if r == id then Some(RiderFinish) else None
    case _ => None
  }

  function LinesOf(log: seq<Line>, id: nat): seq<RiderLine> {
    if log == [] then []
    else LinesOf(log[..|log| - 1], id) +
         match LineOf(log[|log| - 1].event, id) case None => [] case Some(line) => [line]
  }

  const InOrder: seq<RiderLine> := [RiderStart, Enter, Boarding, RiderFinish]

  /** How many of its lines a rider has printed, as the reader of the log knows it. */
  function LinesSeen(v: View, id: nat): nat {
    if !(1 <= id <= |v.stages|) then 0
    else match v.stages[id - 1] case Started => 1 case AtStop => 2 case OnBus => 3 case Off => 4
  }

  lemma {:induction false} NextLine(c: Config, v: View, e: Event, id: nat)
    requires Next(c, v, e).Some? && id >= 1
    ensures var n := LinesSeen(v, id);
      match LineOf(e, id)
      case None => LinesSeen(Next(c, v, e).value, id) == n
      case Some(line) => n < 4 && InOrder[n] == line && LinesSeen(Next(c, v, e).value, id) == n + 1
  {
  }

  /**
   In an accepted log the lines of every rider number are start, enter, boarding and finish, or
   the first of these: in that order, and each at most once.
   */
  lemma {:induction false} RiderLinesInOrder(c: Config, log: seq<Line>, id: nat)
    requires Accepts(c, log) && id >= 1
    ensures var n := LinesSeen(Scan(c, log).value, id); n <= 4 && LinesOf(log, id) == InOrder[..n]
  {
    hide Next;
    if log != [] {
      var front, e := log[..|log| - 1], log[|log| - 1].event;
      PrefixAccepted(c, log, |log| - 1);
      RiderLinesInOrder(c, front, id);
      NextLine(c, Scan(c, front).value, e, id);
      var n := LinesSeen(Scan(c, front).value, id);
      if LineOf(e, id).Some? {
        assert InOrder[..n] + [InOrder[n]] == InOrder[..n + 1];
      }
    }
  }

  function Offs(stages: seq<Stage>): nat {
    if stages == [] then 0 else Offs(stages[..|stages| - 1]) + Bit(stages[|stages| - 1] == Off)
  }

  lemma {:induction false} OffsAt(stages: seq<Stage>, i: nat, stage: Stage)
    requires i < |stages|
    ensures Offs(stages[i := stage]) + Bit(stages[i] == Off) == Offs(stages) + Bit(stage == Off)
  {
    var m := |stages| - 1;
    if i == m {
      assert stages[i := stage][..m] == stages[..m];
    } else {
      OffsAt(stages[..m], i, stage);
      assert stages[i := stage][..m] == stages[..m][i := stage];
    }
  }

  lemma {:induction false} OffsAll(stages: seq<Stage>)
    ensures Offs(stages) <= |stages|
    ensures Offs(stages) == |stages| ==> forall i :: 0 <= i < |stages| ==> stages[i] == Off
  {
    if stages != [] {
      OffsAll(stages[..|stages| - 1]);
    }
  }

  lemma {:induction false} OffsMore(stages: seq<Stage>)
    ensures Offs(stages + [Started]) == Offs(stages)
  {
    assert (stages + [Started])[..|stages|] == stages;
  }

  lemma {:induction false} NextOffs(c: Config, v: View, e: Event)
    requires Next(c, v, e).Some? && Offs(v.stages) == v.finished
    ensures Offs(Next(c, v, e).value.stages) == Next(c, v, e).value.finished
  {
    hide Offs;
    match e
    case EvRiderStart(id) =>
      OffsMore(v.stages);
    case EvEnter(id, _) =>
      OffsAt(v.stages, id - 1, Stage.AtStop);
    case EvBoarding(id) =>
      OffsAt(v.stages, id - 1, OnBus);
    case EvRiderFinish(id) =>
      OffsAt(v.stages, id - 1, Off);
    case _ =>
  }

  lemma {:induction false} ScanOffs(c: Config, log: seq<Line>)
    requires Scan(c, log).Some?
    ensures Offs(Scan(c, log).value.stages) == Scan(c, log).value.finished
  {
    hide Next;
    if log != [] {
      ScanOffs(c, log[..|log| - 1]);
      NextOffs(c, Scan(c, log[..|log| - 1]).value, log[|log| - 1].event);
    }
  }

  /** In the log of a finished run every rider number from 1 to R has each of its four lines once, in order. */
  lemma {:induction false} FinishedRunHasAllLines(c: Config, run: seq<State>, id: nat)
    requires c.Valid() && RunFromInit(c, run) && Final(run[|run| - 1]) && 1 <= id <= c.riders
    ensures LinesOf(run[|run| - 1].log, id) == InOrder
  {
    var s := run[|run| - 1];
    EveryLogIsAccepted(c, run, |run| - 1);
    RunKeepsInv(c, run, |run| - 1);
    AllGone(c.riders, s.riders);
    var v := Scan(c, s.log).value;
    hide Tally, Scan, Next;
    ScanOffs(c, s.log);
    OffsAll(v.stages);
    RiderLinesInOrder(c, s.log, id);
    assert |v.stages| == c.riders && v.finished == c.riders;
    assert InOrder[..4] == InOrder;
  }
}
