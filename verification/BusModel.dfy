/**
 The bus and rider processes of sem_2/ios/proj_2/proj2.c as a state machine.

 Every semaphore operation, every access to a shared counter and every log line is
 one atomic step of one process, so a run of the machine is an interleaving of the
 bus process with `R` rider processes.  Riders that the generator has not forked yet
 are riders that have not taken their first step.
 */
module BusModel {
  import opened Options

  /** Command line arguments: number of riders and bus capacity (both positive). */
  datatype Config = Config(riders: nat, capacity: nat) {
    ghost predicate Valid() { riders >= 1 && capacity >= 1 }
  }

  /** The three atomic steps around a log line: wait on sem_mutex2, print, post sem_mutex2. */
  datatype Phase = Want | Hold | Leave

  datatype BusLine =
    | BusStart | Arrival | DepartEmpty | EndEmpty | StartBoarding | EndBoarding | Depart | End | BusFinish

  datatype RiderLine = RiderStart | Enter | Boarding | RiderFinish

  /** Program points of `bus`. */
  datatype BusPc =
    | BusLog(line: BusLine, ph: Phase)
    | TestTransported   // 280
    | WaitMutex         // 282
    | ChooseN           // 287-290
    | TestEmpty         // 292
    | PostMutexEmpty    // 293
    | TestBoarding      // 309
    | PostBus           // 310
    | WaitBoarded       // 311
    | Clamp             // 314-318
    | PostMutex         // 327
    | TestRelease       // 334
    | PostFinish        // 335
    | BusDone           // 342

  /** Program points of `rider`. */
  datatype RiderPc =
    | RiderLog(line: RiderLine, ph: Phase)
    | WaitMutexIn       // 352
    | IncWaiting        // 353
    | PostMutexIn       // 357
    | WaitBus           // 359
    | PostBoarded       // 364
    | WaitMutexOut      // 366
    | IncTransported    // 367
    | PostMutexOut      // 368
    | WaitFinish        // 370
    | RiderDone         // 374

  /** What a line of proj2.out says, without its number. */
  datatype Event =
    | EvBusStart | EvArrival | EvStartBoarding(left: nat) | EvEndBoarding(left: nat)
    | EvDepart | EvEnd | EvBusFinish
    | EvRiderStart(id: nat) | EvEnter(id: nat, atStop: nat) | EvBoarding(id: nat) | EvRiderFinish(id: nat)

  datatype Line = Line(number: nat, event: Event)

  datatype State = State(
    bus: BusPc, n: nat, i: nat,                      // the bus process and its locals
    riders: seq<RiderPc>, ids: seq<nat>,             // the riders and their local ridNumber
    mutex: nat, mutex2: nat, semBus: nat, boarded: nat, canFinish: nat,
    waiting: nat, counter: nat, ridCounter: nat, transported: nat,
    log: seq<Line>)

  function Init(c: Config): State {
    State(BusLog(BusStart, Want), 0, 0,
          seq(c.riders, _ => RiderLog(RiderStart, Want)), seq(c.riders, _ => 0),
          1, 1, 0, 0, 0, 0, 0, 0, 0, [])
  }

  /** fprintf of `++(*counter)` followed by the text of the line. */
  function Print(s: State, e: Event): State {
    s.(counter := s.counter + 1, log := s.log + [Line(s.counter + 1, e)])
  }

  function BusEvent(s: State, line: BusLine): Event {
    match line
    case BusStart => EvBusStart
    case Arrival => EvArrival
    case DepartEmpty => EvDepart
    case EndEmpty => EvEnd
    case StartBoarding => EvStartBoarding(s.waiting)
    case EndBoarding => EvEndBoarding(s.waiting)
    case Depart => EvDepart
    case End => EvEnd
    case BusFinish => EvBusFinish
  }

  /** Where the bus goes after the log section of a line. */
  function AfterBusLine(line: BusLine): BusPc {
    match line
    case BusStart => TestTransported
    case Arrival => ChooseN
    case DepartEmpty => BusLog(EndEmpty, Want)
    case EndEmpty => TestTransported
    case StartBoarding => TestBoarding
    case EndBoarding => BusLog(Depart, Want)
    case Depart => PostMutex
    case End => TestRelease
    case BusFinish => BusDone
  }

  /** One step of `bus`; None when it is blocked on a semaphore or has exited. */
  function BusNext(c: Config, s: State): Option<State> {
    match s.bus
    case BusLog(line, Want) =>
      if s.mutex2 == 0 then None else Some(s.(mutex2 := s.mutex2 - 1, bus := BusLog(line, Hold)))
    case BusLog(line, Hold) =>
      Some(Print(s, BusEvent(s, line)).(bus := BusLog(line, Leave)))
    case BusLog(line, Leave) =>
      // both for loops set their index to 0 before the first test
      Some(s.(mutex2 := s.mutex2 + 1, bus := AfterBusLine(line), i := 0))
    case TestTransported =>
      Some(s.(bus := if s.transported != c.riders then WaitMutex else BusLog(BusFinish, Want)))
    case WaitMutex =>
      if s.mutex == 0 then None else Some(s.(mutex := s.mutex - 1, bus := BusLog(Arrival, Want)))
    case ChooseN =>
      Some(s.(n := if s.waiting > c.capacity then c.capacity else s.waiting, bus := TestEmpty))
    case TestEmpty =>
      Some(s.(bus := if s.waiting == 0 then PostMutexEmpty else BusLog(StartBoarding, Want)))
    case PostMutexEmpty =>
      Some(s.(mutex := s.mutex + 1, bus := BusLog(DepartEmpty, Want)))
    case TestBoarding =>
      Some(s.(bus := if s.i < s.n then PostBus else Clamp))
    case PostBus =>
      Some(s.(semBus := s.semBus + 1, bus := WaitBoarded))
    case WaitBoarded =>
      if s.boarded == 0 then None else Some(s.(boarded := s.boarded - 1, i := s.i + 1, bus := TestBoarding))
    case Clamp =>
      var tmp: int := s.waiting - c.capacity;
      Some(s.(waiting := if tmp > 0 then tmp else 0, bus := BusLog(EndBoarding, Want)))
    case PostMutex =>
      Some(s.(mutex := s.mutex + 1, bus := BusLog(End, Want)))
    case TestRelease =>
      Some(s.(bus := if s.i < s.n then PostFinish else TestTransported))
    case PostFinish =>
      Some(s.(canFinish := s.canFinish + 1, i := s.i + 1, bus := TestRelease))
    case BusDone => None
  }

  function RiderEvent(s: State, line: RiderLine, id: nat): Event {
    match line
    case RiderStart => EvRiderStart(id)
    case Enter => EvEnter(id, s.waiting)
    case Boarding => EvBoarding(id)
    case RiderFinish => EvRiderFinish(id)
  }

  function AfterRiderLine(line: RiderLine): RiderPc {
    match line
    case RiderStart => WaitMutexIn
    case Enter => PostMutexIn
    case Boarding => PostBoarded
    case RiderFinish => RiderDone
  }

  function Move(s: State, k: nat, pc: RiderPc): State
    requires k < |s.riders|
  {
    s.(riders := s.riders[k := pc])
  }

  /** One step of rider `k`; None when it is blocked on a semaphore or has exited. */
  function RiderNext(s: State, k: nat): Option<State>
    requires k < |s.riders| && k < |s.ids|
  {
    match s.riders[k]
    case RiderLog(line, Want) =>
      if s.mutex2 == 0 then None else Some(Move(s, k, RiderLog(line, Hold)).(mutex2 := s.mutex2 - 1))
    case RiderLog(line, Hold) =>
      // 348 draws the rider's number inside the same critical section as its first line
      var s1 := if line == RiderStart
                then s.(ridCounter := s.ridCounter + 1, ids := s.ids[k := s.ridCounter + 1]) else s;
      Some(Move(Print(s1, RiderEvent(s1, line, s1.ids[k])), k, RiderLog(line, Leave)))
    case RiderLog(line, Leave) =>
      Some(Move(s, k, AfterRiderLine(line)).(mutex2 := s.mutex2 + 1))
    case WaitMutexIn =>
      if s.mutex == 0 then None else Some(Move(s, k, IncWaiting).(mutex := s.mutex - 1))
    case IncWaiting =>
      Some(Move(s, k, RiderLog(Enter, Want)).(waiting := s.waiting + 1))
    case PostMutexIn =>
      Some(Move(s, k, WaitBus).(mutex := s.mutex + 1))
    case WaitBus =>
      if s.semBus == 0 then None else Some(Move(s, k, RiderLog(Boarding, Want)).(semBus := s.semBus - 1))
    case PostBoarded =>
      Some(Move(s, k, WaitMutexOut).(boarded := s.boarded + 1))
    case WaitMutexOut =>
      if s.mutex == 0 then None else Some(Move(s, k, IncTransported).(mutex := s.mutex - 1))
    case IncTransported =>
      Some(Move(s, k, PostMutexOut).(transported := s.transported + 1))
    case PostMutexOut =>
      Some(Move(s, k, WaitFinish).(mutex := s.mutex + 1))
    case WaitFinish =>
      if s.canFinish == 0 then None else Some(Move(s, k, RiderLog(RiderFinish, Want)).(canFinish := s.canFinish - 1))
    case RiderDone => None
  }

  /** Rider `k` of `s` exists and moves the system to `s'`. */
  ghost predicate RiderStep(s: State, s': State, k: nat) {
    k < |s.riders| && k < |s.ids| && RiderNext(s, k) == Some(s')
  }

  ghost predicate Step(c: Config, s: State, s': State) {
    BusNext(c, s) == Some(s') || exists k: nat :: RiderStep(s, s', k)
  }

  /** A finite run: any interleaving of enabled steps from `run[0]`. */
  ghost predicate Run(c: Config, run: seq<State>) {
    |run| > 0 && forall j :: 0 <= j < |run| - 1 ==> Step(c, run[j], run[j + 1])
  }

  ghost predicate RunFromInit(c: Config, run: seq<State>) {
    Run(c, run) && run[0] == Init(c)
  }

  /** Every process has exited. */
  ghost predicate Final(s: State) {
    s.bus == BusDone && forall k :: 0 <= k < |s.riders| ==> s.riders[k] == RiderDone
  }
}
