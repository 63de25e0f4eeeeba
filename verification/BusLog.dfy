/**
 What the file proj2.out may contain.  `Next` reads a log line by line and rejects it at
 the first line the assignment forbids; it knows nothing about semaphores or program
 points.  Every log the machine can write is accepted.
 */
module BusLog {
  import opened Options
  import opened BusModel
  import opened BusInvariant

  datatype Stage = Started | AtStop | OnBus | Off

  datatype Trip =
    | NotStarted
    | Away
    | AtEmptyStop                       // arrived with nobody waiting
    | AtStop(n: nat)                    // arrived, n riders will board
    | Loading(n: nat, aboard: nat)      // between "start boarding" and "end boarding"
    | Loaded(n: nat)
    | Riding(n: nat)                    // between "depart" and "end"
    | Closed

  datatype View = View(stages: seq<Stage>, trip: Trip, waiting: nat, boarded: nat, finished: nat, released: nat)

  const Blank := View([], NotStarted, 0, 0, 0, 0)

  predicate Is(v: View, id: nat, stage: Stage) {
    1 <= id <= |v.stages| && v.stages[id - 1] == stage
  }

  function Promote(v: View, id: nat, stage: Stage): View
    requires 1 <= id <= |v.stages|
  {
    v.(stages := v.stages[id - 1 := stage])
  }

  /** Reading one more line; None when the line must not occur here. */
  function Next(c: Config, v: View, e: Event): Option<View> {
    match e
    case EvBusStart =>
      if v.trip == NotStarted then Some(v.(trip := Away)) else None
    case EvArrival =>
      if v.trip != Away then None
      else Some(v.(trip := if v.waiting == 0 then AtEmptyStop else Trip.AtStop(Min(v.waiting, c.capacity))))
    case EvStartBoarding(w) =>
      if v.trip.AtStop? && w == v.waiting then Some(v.(trip := Loading(v.trip.n, 0))) else None
    case EvEndBoarding(w) =>
      if v.trip.Loading? && v.trip.aboard == v.trip.n && w == v.waiting then Some(v.(trip := Loaded(v.trip.n)))
      else None
    case EvDepart =>
      if v.trip == AtEmptyStop then Some(v.(trip := Riding(0)))
      else if v.trip.Loaded? then Some(v.(trip := Riding(v.trip.n)))
      else None
    case EvEnd =>
      if v.trip.Riding? then Some(v.(trip := Away, released := v.released + v.trip.n)) else None
    case EvBusFinish =>
      if v.trip == Away && v.boarded == c.riders then Some(v.(trip := Closed)) else None
    case EvRiderStart(id) =>
      if id == |v.stages| + 1 && id <= c.riders then Some(v.(stages := v.stages + [Started])) else None
    case EvEnter(id, w) =>
      if Is(v, id, Started) && w == v.waiting + 1 && !v.trip.AtStop? && !v.trip.Loading? && !v.trip.Loaded?
      then Some(Promote(v, id, Stage.AtStop).(waiting := w))
      else None
    case EvBoarding(id) =>
      if Is(v, id, Stage.AtStop) && v.waiting > 0 && v.trip.Loading? && v.trip.aboard < v.trip.n
      then Some(Promote(v, id, OnBus).(waiting := v.waiting - 1, boarded := v.boarded + 1,
                                       trip := Loading(v.trip.n, v.trip.aboard + 1)))
      else None
    case EvRiderFinish(id) =>
      if Is(v, id, OnBus) && v.finished < v.released
      then Some(Promote(v, id, Off).(finished := v.finished + 1))
      else None
  }

  function Scan(c: Config, log: seq<Line>): Option<View> {
    if log == [] then Some(Blank)
    else match Scan(c, log[..|log| - 1])
         case None => None
         case Some(v) => Next(c, v, log[|log| - 1].event)
  }

  ghost predicate Accepts(c: Config, log: seq<Line>) {
    && (forall j :: 0 <= j < |log| ==> log[j].number == j + 1)
    && Scan(c, log).Some?
  }

  /** What the log must have reported about the trip when the system is in `s`. */
  function TripOf(s: State, t: Census): Trip {
    var p := BusPlace(s.bus);
    if p <= 1 then NotStarted
    else if p <= 6 || p == 16 || 33 <= p <= 37 then Away
    else if p <= 12 then AtEmptyStop   // refined by Arrived while the bus still holds sem_mutex
    else if p <= 15 then Riding(0)
    else if p <= 18 then Trip.AtStop(s.n)
    else if p <= 25 then Loading(s.n, if p == 19 then 0
                                      else if p == 22 then Monus(s.i + 1, s.semBus + t.boarding)
                                      else if p <= 21 then s.i else s.n)
    else if p <= 28 then Loaded(s.n)
    else if p <= 32 then Riding(s.n)
    else Closed
  }

  function Monus(a: nat, b: nat): nat { if a < b then 0 else a - b }

  ghost predicate TripMatches(c: Config, s: State, t: Census, trip: Trip) {
    if 7 <= BusPlace(s.bus) <= 9 && s.waiting > 0 then trip == Trip.AtStop(Min(s.waiting, c.capacity))
    else trip == TripOf(s, t)
  }

  /** Tokens the bus still has to post for trips whose "end" line is printed. */
  function Unposted(s: State): int {
    var p := BusPlace(s.bus);
    if p == 33 then s.n else if p == 34 || p == 35 then s.n - s.i else 0
  }

  ghost predicate NumbersMatch(s: State, t: Census, v: View) {
    && v.boarded == t.passed - t.boarding
    && v.waiting == t.entered - t.entering - v.boarded
    && v.finished == t.released - t.leaving
    && v.released == t.released + s.canFinish + Unposted(s)
  }

  function StageOf(pc: RiderPc): Stage {
    var p := Place(pc);
    if p <= 4 then Started else if p <= 8 then Stage.AtStop else if p <= 15 then OnBus else Off
  }

  /** Every rider that has drawn a number has its own, and the log knows how far it got. */
  ghost predicate StagesMatch(s: State, v: View) {
    && |v.stages| == s.ridCounter && |s.riders| == |s.ids|
    && (forall k :: 0 <= k < |s.riders| && Place(s.riders[k]) >= 1 ==> Is(v, s.ids[k], StageOf(s.riders[k])))
    && (forall k, m :: 0 <= k < m < |s.riders| && Place(s.riders[k]) >= 1 && Place(s.riders[m]) >= 1
          ==> s.ids[k] != s.ids[m])
  }

  ghost predicate Matches(c: Config, s: State, t: Census, v: View) {
    TripMatches(c, s, t, v.trip) && NumbersMatch(s, t, v) && StagesMatch(s, v)
  }

  ghost predicate LogInv(c: Config, s: State) {
    && Accepts(c, s.log) && s.counter == |s.log|
    && Matches(c, s, Tally(s.riders), Scan(c, s.log).value)
  }

  lemma {:induction false} ScanMore(c: Config, log: seq<Line>, line: Line)
    requires Scan(c, log).Some?
    ensures Scan(c, log + [line]) == Next(c, Scan(c, log).value, line.event)
  {
    assert (log + [line])[..|log|] == log;
  }

  /** Bus steps other than printing leave what the log must have reported as it was. */
  lemma {:induction false} BusSectionSilent(c: Config, s: State, s': State, t: Census, v: View)
    requires c.Valid() && InvWith(c, s, t) && BusNext(c, s) == Some(s')
    requires s.bus.BusLog? && s.bus.ph != Hold
    requires Ordered(t, c.riders) && TripMatches(c, s, t, v.trip) && NumbersMatch(s, t, v)
    ensures s'.log == s.log && s'.counter == s.counter && s'.ridCounter == s.ridCounter
    ensures s'.riders == s.riders && s'.ids == s.ids
    ensures TripMatches(c, s', t, v.trip) && NumbersMatch(s', t, v)
  {
  }

  lemma {:induction false} BusWorkKeepsTrip(c: Config, s: State, s': State, t: Census, v: View)
    requires c.Valid() && InvWith(c, s, t) && BusNext(c, s) == Some(s')
    requires !s.bus.BusLog? && TripMatches(c, s, t, v.trip) && Ordered(t, c.riders)
    ensures TripMatches(c, s', t, v.trip)
  {
  }

  lemma {:induction false} BusWorkKeepsNumbers(c: Config, s: State, s': State, t: Census, v: View)
    requires Locals(c, s) && BusNext(c, s) == Some(s') && !s.bus.BusLog? && NumbersMatch(s, t, v)
    ensures s'.log == s.log && s'.counter == s.counter && s'.ridCounter == s.ridCounter
    ensures s'.riders == s.riders && s'.ids == s.ids
    ensures NumbersMatch(s', t, v)
  {
  }

  lemma {:induction false} BusPrintsFirst(c: Config, s: State, s': State, t: Census, v: View)
    requires c.Valid() && InvWith(c, s, t) && BusNext(c, s) == Some(s')
    requires s.bus.BusLog? && s.bus.ph == Hold
    requires Ordered(t, c.riders) && Matches(c, s, t, v)
    requires s.bus.line in {BusStart, Arrival, DepartEmpty, EndEmpty}
    ensures s'.counter == s.counter + 1 && s'.log == s.log + [Line(s.counter + 1, BusEvent(s, s.bus.line))]
    ensures var n := Next(c, v, BusEvent(s, s.bus.line)); n.Some? && Matches(c, s', t, n.value)
  {
  }

  lemma {:induction false} BusPrintsRest(c: Config, s: State, s': State, t: Census, v: View)
    requires c.Valid() && InvWith(c, s, t) && BusNext(c, s) == Some(s')
    requires s.bus.BusLog? && s.bus.ph == Hold
    requires Ordered(t, c.riders) && Matches(c, s, t, v)
    requires !(s.bus.line in {BusStart, Arrival, DepartEmpty, EndEmpty})
    ensures s'.counter == s.counter + 1 && s'.log == s.log + [Line(s.counter + 1, BusEvent(s, s.bus.line))]
    ensures var n := Next(c, v, BusEvent(s, s.bus.line)); n.Some? && Matches(c, s', t, n.value)
  {
  }

  /** A bus line is one the log may contain at this point. */
  lemma {:induction false} BusPrints(c: Config, s: State, s': State, t: Census, v: View)
    requires c.Valid() && InvWith(c, s, t) && BusNext(c, s) == Some(s')
    requires s.bus.BusLog? && s.bus.ph == Hold
    requires Ordered(t, c.riders) && Matches(c, s, t, v)
    ensures s'.counter == s.counter + 1 && s'.log == s.log + [Line(s.counter + 1, BusEvent(s, s.bus.line))]
    ensures var n := Next(c, v, BusEvent(s, s.bus.line)); n.Some? && Matches(c, s', t, n.value)
  {
    hide BusNext, InvWith, Matches, Next, Ordered;
    if s.bus.line in {BusStart, Arrival, DepartEmpty, EndEmpty} {
      BusPrintsFirst(c, s, s', t, v);
    } else {
      BusPrintsRest(c, s, s', t, v);
    }
  }

  lemma {:induction false} BusKeepsLogInv(c: Config, s: State, s': State)
    requires c.Valid() && Inv(c, s) && LogInv(c, s) && BusNext(c, s) == Some(s')
    ensures LogInv(c, s')
  {
    hide Tally, BusNext, Next, TripMatches, NumbersMatch, Locals, Locks, Counters;
    var t, v := Tally(s.riders), Scan(c, s.log).value;
    TallyOrder(s.riders);
    if s.bus.BusLog? && s.bus.ph == Hold {
      BusPrints(c, s, s', t, v);
      ScanMore(c, s.log, Line(s.counter + 1, BusEvent(s, s.bus.line)));
      BusKeepsLocks(c, s, s', t);
    } else if s.bus.BusLog? {
      BusSectionSilent(c, s, s', t, v);
    } else {
      BusWorkKeepsTrip(c, s, s', t, v);
      BusWorkKeepsNumbers(c, s, s', t, v);
    }
  }

  /** What a rider's step does to the lines it still has to print. */
  ghost predicate PrintDelta(s: State, s': State, t: Census, t': Census, e: int, b: int, f: int) {
    && Delta(s, s', t, t')
    && (t'.entered - t'.entering) - (t.entered - t.entering) == e
    && (t'.passed - t'.boarding) - (t.passed - t.boarding) == b
    && (t'.released - t'.leaving) - (t.released - t.leaving) == f
  }

  predicate Printing(pc: RiderPc) { pc.RiderLog? && pc.ph == Hold }

  lemma {:induction false} SectionSilent(s: State, s': State, k: nat, t: Census, t': Census)
    requires Moved(s, s', k, t, t') && Delta(s, s', t, t') && !Printing(s.riders[k])
    requires s.riders[k].RiderLog?
    ensures PrintDelta(s, s', t, t', 0, 0, 0)
    ensures s'.log == s.log && s'.counter == s.counter && s'.ids == s.ids && s'.ridCounter == s.ridCounter
    ensures StageOf(s'.riders[k]) == StageOf(s.riders[k])
    ensures Place(s'.riders[k]) >= 1 <==> Place(s.riders[k]) >= 1
  {
  }

  lemma {:induction false} WorkSilent(s: State, s': State, k: nat, t: Census, t': Census)
    requires Moved(s, s', k, t, t') && Delta(s, s', t, t') && !Printing(s.riders[k])
    requires !s.riders[k].RiderLog?
    ensures PrintDelta(s, s', t, t', 0, 0, 0)
    ensures s'.log == s.log && s'.counter == s.counter && s'.ids == s.ids && s'.ridCounter == s.ridCounter
    ensures StageOf(s'.riders[k]) == StageOf(s.riders[k])
    ensures Place(s'.riders[k]) >= 1 <==> Place(s.riders[k]) >= 1
  {
  }

  /** Riders print nothing, and keep their stage, at every other program point. */
  lemma {:induction false} RiderSilent(s: State, s': State, k: nat, t: Census, t': Census)
    requires Moved(s, s', k, t, t') && Delta(s, s', t, t') && !Printing(s.riders[k])
    ensures PrintDelta(s, s', t, t', 0, 0, 0)
    ensures s'.log == s.log && s'.counter == s.counter && s'.ids == s.ids && s'.ridCounter == s.ridCounter
    ensures StageOf(s'.riders[k]) == StageOf(s.riders[k])
    ensures Place(s'.riders[k]) >= 1 <==> Place(s.riders[k]) >= 1
  {
    hide Delta, PrintDelta, RiderNext, Add;
    if s.riders[k].RiderLog? {
      SectionSilent(s, s', k, t, t');
    } else {
      WorkSilent(s, s', k, t, t');
    }
  }

  lemma {:induction false} SilentKeepsMatches(c: Config, s: State, s': State, k: nat, t: Census, t': Census, v: View)
    requires InvWith(c, s, t) && TripMatches(c, s, t, v.trip) && NumbersMatch(s, t, v)
    requires PrintDelta(s, s', t, t', 0, 0, 0)
    requires s'.waiting != s.waiting ==> t.holdMutex > 0
    ensures TripMatches(c, s', t', v.trip) && NumbersMatch(s', t', v)
  {
  }

  lemma {:induction false} SilentKeepsStages(s: State, s': State, k: nat, v: View)
    requires StagesMatch(s, v) && k < |s.riders| && |s'.riders| == |s.riders|
    requires s'.ids == s.ids && s'.ridCounter == s.ridCounter && s'.riders == s.riders[k := s'.riders[k]]
    requires StageOf(s'.riders[k]) == StageOf(s.riders[k])
    requires Place(s'.riders[k]) >= 1 <==> Place(s.riders[k]) >= 1
    ensures StagesMatch(s', v)
  {
    hide Place, StageOf, Is;
  }

  /** Printing the boarding, enter or finish line moves one rider to the next stage. */
  lemma {:induction false} PromotionKeepsStages(s: State, s': State, k: nat, v: View, v': View)
    requires StagesMatch(s, v) && k < |s.riders| && |s'.riders| == |s.riders|
    requires s'.ids == s.ids && s'.ridCounter == s.ridCounter && s'.riders == s.riders[k := s'.riders[k]]
    requires Place(s.riders[k]) >= 1 && Place(s'.riders[k]) >= 1
    requires 1 <= s.ids[k] <= |v.stages|
    requires v'.stages == v.stages[s.ids[k] - 1 := StageOf(s'.riders[k])]
    ensures StagesMatch(s', v')
  {
    hide Place, StageOf;
  }

  /** Printing the first line adds one rider under a number nobody has. */
  lemma {:induction false} StartKeepsStages(s: State, s': State, k: nat, v: View, v': View)
    requires StagesMatch(s, v) && k < |s.riders| && |s'.riders| == |s.riders|
    requires Place(s.riders[k]) == 0 && Place(s'.riders[k]) == 1
    requires s'.ridCounter == s.ridCounter + 1 && s'.ids == s.ids[k := s'.ridCounter]
    requires s'.riders == s.riders[k := s'.riders[k]]
    requires v'.stages == v.stages + [StageOf(s'.riders[k])]
    ensures StagesMatch(s', v')
  {
    hide Place, StageOf;
  }

  /** The effect of printing a rider line on the state, other than on the census. */
  lemma {:induction false} RiderPrintEffect(s: State, s': State, k: nat)
    requires RiderStep(s, s', k) && Printing(s.riders[k])
    ensures var line := s.riders[k].line;
      && |s'.riders| == |s.riders| && s'.riders == s.riders[k := RiderLog(line, Leave)]
      && (line != RiderStart ==> s'.ids == s.ids && s'.ridCounter == s.ridCounter)
      && (line == RiderStart ==> s'.ridCounter == s.ridCounter + 1 && s'.ids == s.ids[k := s'.ridCounter])
      && s'.counter == s.counter + 1
      && s'.log == s.log + [Line(s.counter + 1, RiderEvent(s, line, s'.ids[k]))]
  {
  }

  /** Rider `k` is about to print `line`, in a state where the invariant and the log's view hold. */
  ghost predicate Prints(c: Config, s: State, s': State, k: nat, line: RiderLine, t: Census, t': Census, v: View) {
    && InvWith(c, s, t) && Ordered(t, c.riders) && Ordered(t', c.riders)
    && TripMatches(c, s, t, v.trip) && NumbersMatch(s, t, v) && StagesMatch(s, v)
    && Moved(s, s', k, t, t') && Delta(s, s', t, t') && s.riders[k] == RiderLog(line, Hold)
    && var u := CensusOf(s.riders[k]);
       u.holdMutex <= t.holdMutex && u.entering <= t.entering && u.boarding <= t.boarding && u.leaving <= t.leaving
  }

  /** The log accepts the rider's line, and its numbers and trip follow the state. */
  ghost predicate Fits(c: Config, s: State, s': State, k: nat, line: RiderLine, t': Census, v: View) {
    k < |s'.ids| &&
    var n := Next(c, v, RiderEvent(s, line, s'.ids[k]));
    n.Some? && TripMatches(c, s', t', n.value.trip) && NumbersMatch(s', t', n.value)
  }

  lemma {:induction false} StartFits(c: Config, s: State, s': State, k: nat, t: Census, t': Census, v: View)
    requires Prints(c, s, s', k, RiderStart, t, t', v)
    ensures Fits(c, s, s', k, RiderStart, t', v)
  {
  }

  lemma {:induction false} EnterFits(c: Config, s: State, s': State, k: nat, t: Census, t': Census, v: View)
    requires Prints(c, s, s', k, Enter, t, t', v)
    ensures Fits(c, s, s', k, Enter, t', v)
  {
  }

  lemma {:induction false} BoardingFits(c: Config, s: State, s': State, k: nat, t: Census, t': Census, v: View)
    requires Prints(c, s, s', k, Boarding, t, t', v)
    ensures Fits(c, s, s', k, Boarding, t', v)
  {
  }

  lemma {:induction false} FinishFits(c: Config, s: State, s': State, k: nat, t: Census, t': Census, v: View)
    requires Prints(c, s, s', k, RiderFinish, t, t', v)
    ensures Fits(c, s, s', k, RiderFinish, t', v)
  {
  }

  lemma {:induction false} RiderPrintKeepsStages(c: Config, s: State, s': State, k: nat, line: RiderLine, v: View)
    requires StagesMatch(s, v) && RiderStep(s, s', k) && s.riders[k] == RiderLog(line, Hold) && k < |s'.ids|
    requires Next(c, v, RiderEvent(s, line, s'.ids[k])).Some?
    ensures StagesMatch(s', Next(c, v, RiderEvent(s, line, s'.ids[k])).value)
  {
    RiderPrintEffect(s, s', k);
    var v' := Next(c, v, RiderEvent(s, line, s'.ids[k])).value;
    hide RiderNext;
    assert Is(v, s.ids[k], StageOf(s.riders[k])) || line == RiderStart;
    if line == RiderStart {
      StartKeepsStages(s, s', k, v, v');
    } else {
      PromotionKeepsStages(s, s', k, v, v');
    }
  }

  lemma {:induction false} RiderLineFits(c: Config, s: State, s': State, k: nat, t: Census, t': Census, v: View)
    requires k < |s.riders| && Printing(s.riders[k])
    requires Prints(c, s, s', k, s.riders[k].line, t, t', v)
    ensures Fits(c, s, s', k, s.riders[k].line, t', v)
  {
    hide Prints, Fits;
    match s.riders[k].line {
      case RiderStart => StartFits(c, s, s', k, t, t', v);
      case Enter => EnterFits(c, s, s', k, t, t', v);
      case Boarding => BoardingFits(c, s, s', k, t, t', v);
      case RiderFinish => FinishFits(c, s, s', k, t, t', v);
    }
  }

  lemma {:induction false} LogGrows(c: Config, s: State, s': State, e: Event, v': View)
    requires Accepts(c, s.log) && s.counter == |s.log| && Next(c, Scan(c, s.log).value, e) == Some(v')
    requires s'.counter == s.counter + 1 && s'.log == s.log + [Line(s.counter + 1, e)]
    requires Matches(c, s', Tally(s'.riders), v')
    ensures LogInv(c, s')
  {
    hide Scan, Next, Matches, Tally;
    ScanMore(c, s.log, Line(s.counter + 1, e));
  }

  lemma {:induction false} RiderPrintKeepsLogInv(c: Config, s: State, s': State, k: nat, t: Census, t': Census)
    requires LogInv(c, s) && t == Tally(s.riders) && t' == Tally(s'.riders)
    requires k < |s.riders| && Printing(s.riders[k])
    requires Prints(c, s, s', k, s.riders[k].line, t, t', Scan(c, s.log).value)
    ensures LogInv(c, s')
  {
    var v, line := Scan(c, s.log).value, s.riders[k].line;
    RiderLineFits(c, s, s', k, t, t', v);
    hide Tally, TripMatches, NumbersMatch, StagesMatch, RiderNext, InvWith, Ordered, CensusOf, Delta, Next, Scan;
    RiderPrintEffect(s, s', k);
    RiderPrintKeepsStages(c, s, s', k, line, v);
    var e := RiderEvent(s, line, s'.ids[k]);
    LogGrows(c, s, s', e, Next(c, v, e).value);
  }

  lemma {:induction false} RiderKeepsLogInv(c: Config, s: State, s': State, k: nat)
    requires c.Valid() && Inv(c, s) && LogInv(c, s) && RiderStep(s, s', k)
    ensures LogInv(c, s')
  {
    hide Tally, Scan, TripMatches, NumbersMatch, StagesMatch, RiderNext, Locals, Locks, Counters, CensusOf, Add;
    var t, t', v := Tally(s.riders), Tally(s'.riders), Scan(c, s.log).value;
    RiderStepDelta(s, s', k);
    TallyOrder(s.riders);
    TallyOrder(s'.riders);
    TallyCovers(s.riders, k);
    if Printing(s.riders[k]) {
      RiderPrintKeepsLogInv(c, s, s', k, t, t');
    } else {
      RiderSilent(s, s', k, t, t');
      SilentKeepsMatches(c, s, s', k, t, t', v);
      SilentKeepsStages(s, s', k, v);
    }
  }

  lemma {:induction false} InitLogInv(c: Config)
    requires c.Valid()
    ensures LogInv(c, Init(c))
  {
    hide Tally;
    TallyInit(c.riders, Init(c).riders);
  }

  /** Every log the machine writes, on any interleaving, is one the reader accepts. */
  lemma {:induction false} EveryLogIsAccepted(c: Config, run: seq<State>, j: nat)
    requires c.Valid() && RunFromInit(c, run) && j < |run|
    ensures LogInv(c, run[j]) && Accepts(c, run[j].log)
  {
    hide LogInv, Inv, BusNext, RiderNext, Tally;
    if j == 0 {
      InitLogInv(c);
    } else {
      EveryLogIsAccepted(c, run, j - 1);
      RunKeepsInv(c, run, j - 1);
      var s, s' := run[j - 1], run[j];
      if BusNext(c, s) == Some(s') {
        BusKeepsLogInv(c, s, s');
      } else {
        var k: nat :| RiderStep(s, s', k);
        RiderKeepsLogInv(c, s, s', k);
      }
    }
    LogInvAccepts(c, run[j]);
  }

  lemma {:induction false} LogInvAccepts(c: Config, s: State)
    requires LogInv(c, s)
    ensures Accepts(c, s.log)
  {
  }
}
