/**
 The parallel sed of sem_3/ips/proj_1/psed.c: a main thread reads lines, `k` workers each
 rewrite the current line and print their result in turn.

 One step of a thread is one access to shared state.  An access that the program brackets
 with threadIdMutex or stdOutMutex is one step, and the busy waits of 62-67 and 134-139 are
 steps that are enabled once their condition holds.
 */
module PsedModel {
  import opened Options

  /** Number of workers, standard input line by line, and std::regex_replace per worker. */
  datatype Config = Config(k: nat, input: seq<string>, rep: (nat, string) -> string)

  /** The shared pointer `line`. */
  datatype LineVar = Null | Text(s: string) | Freed

  /** The pointer `result` of a worker. */
  datatype Result = Unset | Nil | Str(s: string)

  datatype MainPc =
    | ReadLine            // 122, 143
    | TestRes             // 123
    | ResetTurn           // 124-126
    | OpenGate(i: nat)    // 128-130
    | AwaitAll            // 134-139
    | FreeLine            // 141
    | NullLine            // 142
    | Wake(i: nat)        // 148-150
    | Join(i: nat)        // 158-162
    | MainDone

  datatype WorkerPc =
    | AtGate              // 49
    | TestLine            // 52
    | Compute             // 58
    | AwaitTurn           // 62-67
    | PrintResult         // 70-72
    | FreeResult          // 74-75
    | Bump                // 77-79
    | FreeLast            // 53-54
    | Exited              // 55

  datatype Worker = Worker(pc: WorkerPc, open: bool, result: Result)   // `open`: its zamky gate is unlocked

  datatype State = State(main: MainPc, res: bool, pos: nat, line: LineVar, turn: nat,
                         workers: seq<Worker>, out: seq<string>)

  /** strcpy in to_cstr copies up to the first NUL. */
  function CStr(s: string): string {
    if s == [] || s[0] == '\0' then [] else [s[0]] + CStr(s[1..])
  }

  /** What worker `j` prints for an input line: its own replacement of the original line. */
  function Rewrite(c: Config, j: nat, text: string): string {
    CStr(c.rep(j, CStr(text)))
  }

  function Init(c: Config): State {
    State(ReadLine, false, 0, Null, 0, seq(c.k, _ => Worker(AtGate, false, Unset)), [])
  }

  function MainNext(c: Config, s: State): Option<State> {
    match s.main
    case ReadLine =>
      if s.pos < |c.input|
      then Some(s.(res := true, line := Text(CStr(c.input[s.pos])), pos := s.pos + 1, main := TestRes))
      else Some(s.(res := false, line := Null, main := TestRes))
    case TestRes => Some(s.(main := if s.res then ResetTurn else Wake(0)))
    case ResetTurn => Some(s.(turn := 0, main := OpenGate(0)))
    case OpenGate(i) =>
      if i < |s.workers| then Some(s.(workers := s.workers[i := s.workers[i].(open := true)], main := OpenGate(i + 1)))
      else Some(s.(main := AwaitAll))
    case AwaitAll => if s.turn != |s.workers| then None else Some(s.(main := FreeLine))
    case FreeLine => Some(s.(line := Freed, main := NullLine))
    case NullLine => Some(s.(line := Null, main := ReadLine))
    case Wake(i) =>
      if i < |s.workers| then Some(s.(workers := s.workers[i := s.workers[i].(open := true)], main := Wake(i + 1)))
      else Some(s.(main := Join(0)))
    case Join(i) =>
      if i < |s.workers| then
        if s.workers[i].pc == Exited then Some(s.(main := Join(i + 1))) else None
      else Some(s.(main := MainDone))
    case MainDone => None
  }

  function Put(s: State, j: nat, w: Worker): State
    requires j < |s.workers|
  {
    s.(workers := s.workers[j := w])
  }

  function WorkerNext(c: Config, s: State, j: nat): Option<State>
    requires j < |s.workers|
  {
    var w := s.workers[j];
    match w.pc
    case AtGate => if w.open then Some(Put(s, j, w.(open := false, pc := TestLine))) else None
    case TestLine => Some(Put(s, j, w.(pc := if s.line == Null then FreeLast else Compute)))
    case Compute =>
      // reading anything but a live line is excluded by Safe below
      Some(Put(s, j, w.(result := Str(CStr(c.rep(j, if s.line.Text? then s.line.s else []))), pc := AwaitTurn)))
    case AwaitTurn => if s.turn != j then None else Some(Put(s, j, w.(pc := PrintResult)))
    case PrintResult =>
      Some(Put(s, j, w.(pc := FreeResult)).(out := s.out + [if w.result.Str? then w.result.s else []]))
    case FreeResult => Some(Put(s, j, w.(result := Nil, pc := Bump)))
    case Bump => Some(Put(s, j, w.(pc := AtGate)).(turn := s.turn + 1))
    case FreeLast => Some(Put(s, j, w.(result := Nil, pc := Exited)))
    case Exited => None
  }

  ghost predicate WorkerStep(c: Config, s: State, s': State, j: nat) {
    j < |s.workers| && WorkerNext(c, s, j) == Some(s')
  }

  ghost predicate Step(c: Config, s: State, s': State) {
    MainNext(c, s) == Some(s') || exists j: nat :: WorkerStep(c, s, s', j)
  }

  ghost predicate Run(c: Config, run: seq<State>) {
    && |run| > 0 && run[0] == Init(c)
    && forall n :: 0 <= n < |run| - 1 ==> Step(c, run[n], run[n + 1])
  }

  /** No thread is about to use memory or a mutex it must not touch (free(result) is treated apart). */
  ghost predicate Safe(s: State) {
    // `line` is never read after it was freed, and only a live line is rewritten or printed
    && (forall j :: 0 <= j < |s.workers| ==>
          && (s.workers[j].pc == TestLine ==> s.line != Freed)
          && (s.workers[j].pc == Compute ==> s.line.Text?)
          && (s.workers[j].pc == PrintResult || s.workers[j].pc == FreeResult ==> s.workers[j].result.Str?))
    // main unlocks a gate only while it is locked
    && (s.main.OpenGate? && s.main.i < |s.workers| ==> !s.workers[s.main.i].open)
    && (s.main.Wake? && s.main.i < |s.workers| ==> !s.workers[s.main.i].open)
  }

  /** A worker is about to free a `result` it never assigned. */
  ghost predicate FreesUnset(s: State) {
    exists j :: 0 <= j < |s.workers| && s.workers[j].pc == FreeLast && s.workers[j].result == Unset
  }

  ghost predicate Finished(s: State) {
    s.main == MainDone && forall j :: 0 <= j < |s.workers| ==> s.workers[j].pc == Exited
  }
}

module PsedProofs {
  import opened Options
  import opened PsedModel

  // ---------- the sequential program ----------

  /** Output of the first `j` workers for one line. */
  function Round(c: Config, text: string, j: nat): seq<string> {
    if j == 0 then [] else Round(c, text, j - 1) + [Rewrite(c, j - 1, text)]
  }

  /** Output for the first `r` lines: lines in order, and for each line the workers in order. */
  function Output(c: Config, r: nat): seq<string>
    requires r <= |c.input|
  {
    if r == 0 then [] else Output(c, r - 1) + Round(c, c.input[r - 1], c.k)
  }

  lemma {:induction false} RoundAt(c: Config, text: string, m: nat, j: nat)
    requires j < m
    ensures |Round(c, text, m)| == m && Round(c, text, m)[j] == Rewrite(c, j, text)
  {
    if j < m - 1 {
      RoundAt(c, text, m - 1, j);
    } else if m > 1 {
      RoundAt(c, text, m - 1, 0);
    }
  }

  /** Line r*k + j of the output is worker j's rewriting of input line r. */
  lemma {:induction false} OutputAt(c: Config, n: nat, r: nat, j: nat)
    requires r < n <= |c.input| && j < c.k
    ensures |Output(c, n)| == n * c.k && r * c.k + j < n * c.k
    ensures Output(c, n)[r * c.k + j] == Rewrite(c, j, c.input[r])
  {
    RoundAt(c, c.input[n - 1], c.k, j);
    assert n * c.k == (n - 1) * c.k + c.k;
    if r < n - 1 {
      OutputAt(c, n - 1, r, j);
    } else {
      OutputLength(c, n - 1);
    }
  }

  lemma {:induction false} OutputLength(c: Config, n: nat)
    requires n <= |c.input| && c.k > 0
    ensures |Output(c, n)| == n * c.k
  {
    if n > 0 {
      OutputLength(c, n - 1);
      RoundAt(c, c.input[n - 1], c.k, 0);
      assert n * c.k == (n - 1) * c.k + c.k;
    }
  }

  lemma {:induction false} RoundPrefix(c: Config, text: string, i: nat, j: nat)
    requires i <= j
    ensures Round(c, text, i) <= Round(c, text, j)
  {
    if i < j {
      RoundPrefix(c, text, i, j - 1);
    }
  }

  lemma {:induction false} OutputPrefix(c: Config, r: nat, n: nat)
    requires r <= n <= |c.input|
    ensures Output(c, r) <= Output(c, n)
  {
    if r < n {
      OutputPrefix(c, r, n - 1);
    }
  }

  // ---------- the invariant ----------

  datatype Mode = Quiet | Working | Ending

  function ModeOf(s: State): Mode {
    match s.main
    case OpenGate(_) => Working
    case AwaitAll => Working
    case Wake(_) => Ending
    case Join(_) => Ending
    case MainDone => Ending
    case _ => Quiet
  }

  /** Workers whose gate main has opened in the current phase are those below this index. */
  function Opened(s: State): nat {
    match s.main
    case OpenGate(i) => i
    case Wake(i) => i
    case AwaitAll => |s.workers|
    case Join(_) => |s.workers|
    case MainDone => |s.workers|
    case _ => 0
  }

  /** The value `result` has when no result is pending: unassigned until the first one was freed. */
  function Empty(c: Config, rounds: nat): Result { if rounds == 0 then Unset else Nil }

  /** Rounds finished before the current one. */
  function Rounds(s: State): nat {
    match s.main
    case TestRes => if s.res && s.pos > 0 then s.pos - 1 else s.pos
    case ResetTurn => if s.pos > 0 then s.pos - 1 else 0
    case OpenGate(_) => if s.pos > 0 then s.pos - 1 else 0
    case AwaitAll => if s.pos > 0 then s.pos - 1 else 0
    case _ => s.pos
  }

  /** Where worker `j` may be. */
  ghost predicate WorkerOk(c: Config, s: State, j: nat)
    requires j < |s.workers|
  {
    var w, e := s.workers[j], Empty(c, Rounds(s));
    if ModeOf(s) == Quiet || j >= Opened(s) then w == Worker(AtGate, false, e)
    else if ModeOf(s) == Ending then
      match w.pc
      case AtGate => w.open && w.result == e
      case TestLine => !w.open && w.result == e
      case FreeLast => !w.open && w.result == e
      case Exited => !w.open
      case _ => false
    else if j < s.turn then w == Worker(AtGate, false, Nil)
    else
      match w.pc
      case AtGate => w.open && w.result == e
      case TestLine => !w.open && w.result == e
      case Compute => !w.open && w.result == e
      case AwaitTurn => !w.open && s.line.Text? && w.result == Str(CStr(c.rep(j, s.line.s)))
      case PrintResult => !w.open && s.line.Text? && w.result == Str(CStr(c.rep(j, s.line.s))) && j == s.turn
      case FreeResult => !w.open && w.result.Str? && j == s.turn
      case Bump => !w.open && w.result == Nil && j == s.turn
      case _ => false
  }

  /** Workers of the current round that have printed. */
  function Printed(s: State): nat {
    if s.turn < |s.workers| && (s.workers[s.turn].pc == FreeResult || s.workers[s.turn].pc == Bump)
    then s.turn + 1 else s.turn
  }

  /** `line` is the input line read last. */
  predicate LineSet(c: Config, s: State) {
    0 < s.pos <= |c.input| && s.line == Text(CStr(c.input[s.pos - 1]))
  }

  predicate MainOk(c: Config, s: State) {
    match s.main
    case ReadLine => s.line == Null
    case TestRes =>
      if s.res then LineSet(c, s) else s.line == Null && s.pos == |c.input|
    case ResetTurn => LineSet(c, s)
    case OpenGate(i) => i <= c.k && s.turn <= i && LineSet(c, s)
    case AwaitAll => s.turn <= c.k && LineSet(c, s)
    case FreeLine => s.pos > 0 && s.line.Text?
    case NullLine => s.line == Freed
    case Wake(i) => i <= c.k && s.line == Null && s.pos == |c.input|
    case Join(i) =>
      && i <= c.k && s.line == Null && s.pos == |c.input|
      && forall j :: 0 <= j < i && j < |s.workers| ==> s.workers[j].pc == Exited
    case MainDone =>
      && s.line == Null && s.pos == |c.input|
      && forall j :: 0 <= j < |s.workers| ==> s.workers[j].pc == Exited
  }

  /** The output so far: all finished rounds, and the turns taken in the current one. */
  function Expected(c: Config, s: State): seq<string>
    requires MainOk(c, s) && s.pos <= |c.input|
  {
    if ModeOf(s) == Working then Output(c, Rounds(s)) + Round(c, c.input[Rounds(s)], Printed(s))
    else Output(c, Rounds(s))
  }

  ghost predicate Inv(c: Config, s: State) {
    && |s.workers| == c.k && s.pos <= |c.input|
    && MainOk(c, s)
    && (forall j :: 0 <= j < |s.workers| ==> WorkerOk(c, s, j))
    && s.out == Expected(c, s)
  }

  lemma {:induction false} InitInv(c: Config)
    ensures Inv(c, Init(c))
  {
  }

  lemma {:induction false} MainKeepsMain(c: Config, s: State, s': State)
    requires Inv(c, s) && MainNext(c, s) == Some(s')
    ensures |s'.workers| == c.k && s'.pos <= |c.input| && s'.out == s.out && MainOk(c, s')
  {
    hide CStr, Expected, WorkerOk;
  }

  lemma {:induction false} MainKeepsWorkers(c: Config, s: State, s': State)
    requires Inv(c, s) && MainNext(c, s) == Some(s')
    ensures |s'.workers| == c.k && forall j :: 0 <= j < |s'.workers| ==> WorkerOk(c, s', j)
  {
    hide CStr, Expected;
    forall j | 0 <= j < |s'.workers|
      ensures WorkerOk(c, s', j)
    {
      MainKeepsWorker(c, s, s', j);
    }
  }

  lemma {:induction false} MainKeepsWorker(c: Config, s: State, s': State, j: nat)
    requires Inv(c, s) && MainNext(c, s) == Some(s') && j < |s.workers|
    ensures j < |s'.workers| && WorkerOk(c, s', j)
  {
    hide CStr, Expected;
    assert WorkerOk(c, s, j);
  }

  lemma {:induction false} FirstTurn(c: Config, s: State, s': State)
    requires MainOk(c, s) && MainOk(c, s') && MainNext(c, s) == Some(s') && s.main == ResetTurn
    requires |s.workers| == c.k && s.pos <= |c.input| && (c.k > 0 ==> s.workers[0].pc == AtGate)
    ensures Expected(c, s') == Expected(c, s)
  {
    hide CStr, Output;
    assert Expected(c, s') == Output(c, Rounds(s)) + [];
  }

  lemma {:induction false} LastTurn(c: Config, s: State, s': State)
    requires MainOk(c, s) && MainOk(c, s') && MainNext(c, s) == Some(s') && s.main == AwaitAll
    requires |s.workers| == c.k && s.pos <= |c.input|
    ensures Expected(c, s') == Expected(c, s)
  {
    hide CStr, Round;
    assert Printed(s) == c.k;
  }

  lemma {:induction false} OtherTurn(c: Config, s: State, s': State)
    requires MainOk(c, s) && MainOk(c, s') && MainNext(c, s) == Some(s')
    requires s.main != ResetTurn && s.main != AwaitAll
    requires |s.workers| == |s'.workers| == c.k && s.pos <= |c.input| && s'.pos <= |c.input|
    ensures Expected(c, s') == Expected(c, s)
  {
    hide CStr, Output, Round, LineSet;
  }

  lemma {:induction false} WorkerKeepsWorkers(c: Config, s: State, s': State, j: nat)
    requires Inv(c, s) && WorkerStep(c, s, s', j)
    ensures |s'.workers| == c.k && s'.pos == s.pos && s'.main == s.main && s'.res == s.res
    ensures MainOk(c, s') && forall i :: 0 <= i < |s'.workers| ==> WorkerOk(c, s', i)
  {
    hide CStr, Expected;
    assert WorkerOk(c, s, j);
    forall i | 0 <= i < |s'.workers|
      ensures WorkerOk(c, s', i)
    {
      WorkerKeepsWorker(c, s, s', j, i);
    }
  }

  lemma {:induction false} WorkerKeepsWorker(c: Config, s: State, s': State, j: nat, i: nat)
    requires Inv(c, s) && WorkerStep(c, s, s', j) && i < |s.workers|
    ensures i < |s'.workers| && WorkerOk(c, s', i)
  {
    assert WorkerOk(c, s, j) && WorkerOk(c, s, i);
    if i == j {
      WorkerKeepsItself(c, s, s', j);
    } else {
      WorkerKeepsOther(c, s, s', j, i);
    }
  }

  lemma {:induction false} WorkerKeepsItself(c: Config, s: State, s': State, j: nat)
    requires WorkerStep(c, s, s', j) && WorkerOk(c, s, j) && |s.workers| == c.k && MainOk(c, s)
    ensures j < |s'.workers| && WorkerOk(c, s', j)
  {
    hide CStr;
  }

  lemma {:induction false} WorkerKeepsOther(c: Config, s: State, s': State, j: nat, i: nat)
    requires WorkerStep(c, s, s', j) && i < |s.workers| && i != j
    requires WorkerOk(c, s, j) && WorkerOk(c, s, i) && |s.workers| == c.k && MainOk(c, s)
    ensures i < |s'.workers| && WorkerOk(c, s', i)
  {
    hide CStr;
  }

  /** Only printing adds output, and only the worker whose turn it is prints. */
  lemma {:induction false} WorkerKeepsOutput(c: Config, s: State, s': State, j: nat)
    requires Inv(c, s) && WorkerStep(c, s, s', j) && MainOk(c, s')
    ensures s'.out == Expected(c, s')
  {
    hide CStr;
    assert WorkerOk(c, s, j);
    if s.workers[j].pc == PrintResult {
      hide WorkerOk;
      var text := c.input[Rounds(s)];
      assert Printed(s) == j && Printed(s') == j + 1;
      assert Round(c, text, j + 1) == Round(c, text, j) + [Rewrite(c, j, text)];
    } else {
      hide Round, Output;
      SilentKeepsPrinted(c, s, s', j);
    }
  }

  lemma {:induction false} SilentKeepsPrinted(c: Config, s: State, s': State, j: nat)
    requires Inv(c, s) && WorkerStep(c, s, s', j) && s.workers[j].pc != PrintResult
    ensures s'.out == s.out && (ModeOf(s) == Working ==> Printed(s') == Printed(s))
  {
    hide CStr, Expected, MainOk;
    assert WorkerOk(c, s, j);
    if s.workers[j].pc == Bump && j + 1 < |s.workers| {
      assert WorkerOk(c, s, j + 1);
    }
  }

  lemma {:induction false} StepKeepsInv(c: Config, s: State, s': State)
    requires Inv(c, s) && Step(c, s, s')
    ensures Inv(c, s')
  {
    hide WorkerNext, Expected, CStr;
    if MainNext(c, s) == Some(s') {
      MainKeepsMain(c, s, s');
      MainKeepsWorkers(c, s, s');
      assert c.k > 0 ==> WorkerOk(c, s, 0);
      if s.main == ResetTurn {
        FirstTurn(c, s, s');
      } else if s.main == AwaitAll {
        LastTurn(c, s, s');
      } else {
        OtherTurn(c, s, s');
      }
    } else {
      hide *;
      var j: nat :| WorkerStep(c, s, s', j);
      WorkerKeepsWorkers(c, s, s', j);
      WorkerKeepsOutput(c, s, s', j);
    }
  }

  lemma {:induction false} RunKeepsInv(c: Config, run: seq<State>, n: nat)
    requires Run(c, run) && n < |run|
    ensures Inv(c, run[n])
  {
    hide Inv, Step, Init;
    if n == 0 {
      InitInv(c);
    } else {
      RunKeepsInv(c, run, n - 1);
      StepKeepsInv(c, run[n - 1], run[n]);
    }
  }

  // ---------- what it means ----------

  /** At every moment of every interleaving the output is a prefix of the sequential program's. */
  lemma {:induction false} OutputIsPrefix(c: Config, run: seq<State>, n: nat)
    requires Run(c, run) && n < |run|
    ensures run[n].out <= Output(c, |c.input|)
  {
    hide Run, Inv, Output, Round, Rounds, Printed, ModeOf;
    RunKeepsInv(c, run, n);
    var s := run[n];
    PrintedInTime(c, s);
    if ModeOf(s) == Working {
      RoundIsPrefix(c, Rounds(s), Printed(s));
      OutputPrefix(c, Rounds(s) + 1, |c.input|);
    } else {
      OutputPrefix(c, Rounds(s), |c.input|);
    }
  }

  lemma {:induction false} PrintedInTime(c: Config, s: State)
    requires Inv(c, s)
    ensures Rounds(s) <= |c.input| && (ModeOf(s) == Working ==> Rounds(s) < |c.input| && Printed(s) <= c.k)
    ensures s.out == if ModeOf(s) == Working then Output(c, Rounds(s)) + Round(c, c.input[Rounds(s)], Printed(s))
                     else Output(c, Rounds(s))
  {
    hide CStr, Output, Round;
  }

  /** The first turns of a round are part of it. */
  lemma {:induction false} RoundIsPrefix(c: Config, r: nat, j: nat)
    requires r < |c.input| && j <= c.k
    ensures Output(c, r) + Round(c, c.input[r], j) <= Output(c, r + 1)
  {
    RoundPrefix(c, c.input[r], j, c.k);
    assert Output(c, r + 1) == Output(c, r) + Round(c, c.input[r], c.k);
    hide Round, Output;
  }

  /** When main has joined all workers the output is complete, and every worker has exited. */
  lemma {:induction false} OutputIsComplete(c: Config, run: seq<State>, n: nat)
    requires Run(c, run) && n < |run| && run[n].main == MainDone
    ensures run[n].out == Output(c, |c.input|) && Finished(run[n])
  {
    hide Run;
    RunKeepsInv(c, run, n);
  }

  // ---------- what is printed, in terms of the replacements themselves ----------

  /** What strcpy copies: the string up to its first NUL, or all of it. */
  lemma {:induction false} CStrStopsAtNul(s: string)
    ensures CStr(s) <= s && '\0' !in CStr(s)
    ensures |CStr(s)| == |s| || s[|CStr(s)|] == '\0'
  {
    if s != [] && s[0] != '\0' {
      CStrStopsAtNul(s[1..]);
    }
  }

  lemma {:induction false} CStrOfPlain(s: string)
    ensures CStr(s) == s <==> '\0' !in s
  {
    CStrStopsAtNul(s);
    hide CStr;
  }

  /** No line and no replacement of a line has a NUL in it. */
  ghost predicate Plain(c: Config) {
    forall r: nat, j: nat :: r < |c.input| ==> PlainAt(c, r, j)
  }

  ghost predicate PlainAt(c: Config, r: nat, j: nat)
    requires r < |c.input|
  {
    '\0' !in c.input[r] && '\0' !in c.rep(j, c.input[r])
  }

  /** Without NULs, line r*k + j of what a finished run printed is worker j's replacement of line r. */
  lemma {:induction false} FinishedOutput(c: Config, run: seq<State>, r: nat, j: nat)
    requires |run| > 0 && Run(c, run) && run[|run| - 1].main == MainDone && Plain(c) && r < |c.input| && j < c.k
    ensures var out := run[|run| - 1].out;
      |out| == |c.input| * c.k && r * c.k + j < |out| && out[r * c.k + j] == c.rep(j, c.input[r])
  {
    hide Run;
    OutputIsComplete(c, run, |run| - 1);
    OutputAt(c, |c.input|, r, j);
    assert PlainAt(c, r, j);
    hide CStr, Output, Finished, Plain;
    CStrOfPlain(c.input[r]);
    CStrOfPlain(c.rep(j, c.input[r]));
  }

  /** No thread reads a freed or unset line, and no gate is unlocked twice. */
  lemma {:induction false} EveryStateIsSafe(c: Config, run: seq<State>, n: nat)
    requires Run(c, run) && n < |run|
    ensures Safe(run[n])
  {
    hide Run, Expected, CStr;
    RunKeepsInv(c, run, n);
    var s := run[n];
    forall j | 0 <= j < |s.workers|
      ensures s.workers[j].pc == TestLine ==> s.line != Freed
      ensures s.workers[j].pc == Compute ==> s.line.Text?
      ensures s.workers[j].pc == PrintResult || s.workers[j].pc == FreeResult ==> s.workers[j].result.Str?
    {
      assert WorkerOk(c, s, j);
    }
    if (s.main.OpenGate? || s.main.Wake?) && s.main.i < |s.workers| {
      assert WorkerOk(c, s, s.main.i);
    }
  }

  /** With at least one input line, no worker frees a `result` it never assigned... */
  lemma {:induction false} NoUnsetFree(c: Config, run: seq<State>, n: nat)
    requires Run(c, run) && n < |run| && |c.input| > 0
    ensures !FreesUnset(run[n])
  {
    hide Run, Expected, CStr;
    RunKeepsInv(c, run, n);
    var s := run[n];
    forall j | 0 <= j < |s.workers|
      ensures !(s.workers[j].pc == FreeLast && s.workers[j].result == Unset)
    {
      assert WorkerOk(c, s, j);
    }
  }

  /** ... and on empty input a worker does. */
  lemma {:induction false} EmptyInputFreesUnset(c: Config) returns (run: seq<State>)
    requires c.k > 0 && c.input == []
    ensures Run(c, run) && FreesUnset(run[|run| - 1])
  {
    var s0 := Init(c);
    var s1 := MainNext(c, s0).value;
    var s2 := MainNext(c, s1).value;
    var s3 := MainNext(c, s2).value;
    var s4 := WorkerNext(c, s3, 0).value;
    var s5 := WorkerNext(c, s4, 0).value;
    assert WorkerStep(c, s3, s4, 0) && WorkerStep(c, s4, s5, 0);
    run := [s0, s1, s2, s3, s4, s5];
    assert s5.workers[0] == Worker(FreeLast, false, Unset);
  }

  /** free(result) at 53 is harmless in every run exactly when there is an input line. */
  lemma {:induction false} UnsetFreeIffEmptyInput(c: Config)
    requires c.k > 0
    ensures (exists run, n :: Run(c, run) && 0 <= n < |run| && FreesUnset(run[n])) <==> c.input == []
  {
    if c.input == [] {
      var run := EmptyInputFreesUnset(c);
      assert FreesUnset(run[|run| - 1]);
    } else {
      forall run, n | Run(c, run) && 0 <= n < |run|
        ensures !FreesUnset(run[n])
      {
        NoUnsetFree(c, run, n);
      }
    }
  }

  // ---------- termination ----------

  /** Steps worker `w` can still take before it waits at its locked gate or exits. */
  function WorkerLeft(line: LineVar, w: Worker): nat {
    match w.pc
    case AtGate => if !w.open then 0 else if line == Null then 3 else 7
    case TestLine => if line == Null then 2 else 6
    case Compute => 5
    case AwaitTurn => 4
    case PrintResult => 3
    case FreeResult => 2
    case Bump => 1
    case FreeLast => 1
    case Exited => 0
  }

  function WorkersLeft(line: LineVar, ws: seq<Worker>): nat {
    if ws == [] then 0 else WorkersLeft(line, ws[..|ws| - 1]) + WorkerLeft(line, ws[|ws| - 1])
  }

  /** Steps for the lines not read yet, and for waking and joining the workers. */
  function LinesLeft(c: Config, pos: nat): nat
    decreases |c.input| - pos
  {
    if pos >= |c.input| then 5 * c.k + 4 else 8 * c.k + 7 + LinesLeft(c, pos + 1)
  }

  /** Steps main and the workers it has still to start can take. */
  function MainLeft(c: Config, s: State): nat {
    var k := c.k;
    match s.main
    case ReadLine => LinesLeft(c, s.pos)
    case TestRes => if s.res then 8 * k + 6 + LinesLeft(c, s.pos) else 5 * k + 3
    case ResetTurn => 8 * k + 5 + LinesLeft(c, s.pos)
    case OpenGate(i) => (if i <= k then 8 * (k - i) else 0) + 4 + LinesLeft(c, s.pos)
    case AwaitAll => 3 + LinesLeft(c, s.pos)
    case FreeLine => 2 + LinesLeft(c, s.pos)
    case NullLine => 1 + LinesLeft(c, s.pos)
    case Wake(i) => (if i <= k then 4 * (k - i) else 0) + k + 2
    case Join(i) => (if i <= k then k - i else 0) + 1
    case MainDone => 0
  }

  /** Total number of steps left in any run from `s`. */
  function StepsLeft(c: Config, s: State): nat {
    MainLeft(c, s) + WorkersLeft(s.line, s.workers)
  }

  lemma {:induction false} PutLeft(line: LineVar, ws: seq<Worker>, j: nat, w: Worker)
    requires j < |ws|
    ensures WorkersLeft(line, ws[j := w]) + WorkerLeft(line, ws[j]) == WorkersLeft(line, ws) + WorkerLeft(line, w)
  {
    hide WorkerLeft;
    var m := |ws| - 1;
    if j == m {
      assert ws[j := w][..m] == ws[..m];
    } else {
      PutLeft(line, ws[..m], j, w);
      assert ws[j := w][..m] == ws[..m][j := w];
    }
  }

  lemma {:induction false} QuietLeft(line: LineVar, ws: seq<Worker>)
    requires forall j :: 0 <= j < |ws| ==> ws[j].pc == AtGate && !ws[j].open
    ensures WorkersLeft(line, ws) == 0
  {
    if ws != [] {
      QuietLeft(line, ws[..|ws| - 1]);
    }
  }

  /** Between rounds nobody works; a gate about to be opened has its worker waiting behind it. */
  lemma {:induction false} WorkersRest(c: Config, s: State, s': State)
    requires Inv(c, s) && MainNext(c, s) == Some(s')
    ensures s'.line != s.line ==> WorkersLeft(s.line, s.workers) == 0 == WorkersLeft(s'.line, s.workers)
    ensures (s.main.OpenGate? || s.main.Wake?) && s.main.i < |s.workers|
        ==> s.workers[s.main.i].pc == AtGate && !s.workers[s.main.i].open
  {
    hide CStr, Expected, WorkersLeft;
    if (s.main.OpenGate? || s.main.Wake?) && s.main.i < |s.workers| {
      assert WorkerOk(c, s, s.main.i);
    } else if s'.line != s.line {
      forall j | 0 <= j < |s.workers|
        ensures s.workers[j].pc == AtGate && !s.workers[j].open
      {
        assert WorkerOk(c, s, j);
      }
      QuietLeft(s.line, s.workers);
      QuietLeft(s'.line, s.workers);
    }
  }

  lemma {:induction false} MainStepLeft(c: Config, s: State, s': State)
    requires Inv(c, s) && MainNext(c, s) == Some(s')
    ensures StepsLeft(c, s') + 1 == StepsLeft(c, s)
  {
    hide CStr, Expected, WorkersLeft, WorkerOk, StepsLeft;
    WorkersRest(c, s, s');
    if (s.main.OpenGate? || s.main.Wake?) && s.main.i < |s.workers| {
      GateStepLeft(c, s, s');
    } else {
      QuietStepLeft(c, s, s');
    }
  }

  lemma {:induction false} GateStepLeft(c: Config, s: State, s': State)
    requires |s.workers| == c.k && MainNext(c, s) == Some(s') && (s.main.OpenGate? || s.main.Wake?)
    requires s.main.i < |s.workers| && s.workers[s.main.i].pc == AtGate && !s.workers[s.main.i].open && MainOk(c, s)
    ensures StepsLeft(c, s') + 1 == StepsLeft(c, s)
  {
    hide CStr, WorkersLeft;
    PutLeft(s.line, s.workers, s.main.i, s'.workers[s.main.i]);
  }

  lemma {:induction false} QuietStepLeft(c: Config, s: State, s': State)
    requires |s.workers| == c.k && s.pos <= |c.input| && MainOk(c, s) && MainNext(c, s) == Some(s')
    requires !((s.main.OpenGate? || s.main.Wake?) && s.main.i < |s.workers|)
    requires s'.line != s.line ==> WorkersLeft(s.line, s.workers) == 0 == WorkersLeft(s'.line, s.workers)
    ensures StepsLeft(c, s') + 1 == StepsLeft(c, s)
  {
    hide CStr, WorkersLeft;
    if ModeOf(s) == Quiet {
      QuietLeftDrops(c, s, s');
    } else {
      LoopEndLeftDrops(c, s, s');
    }
    hide MainLeft, MainOk, MainNext;
  }

  lemma {:induction false} QuietLeftDrops(c: Config, s: State, s': State)
    requires s.pos <= |c.input| && MainOk(c, s) && MainNext(c, s) == Some(s') && ModeOf(s) == Quiet
    ensures MainLeft(c, s') + 1 == MainLeft(c, s) && s'.workers == s.workers
  {
    hide CStr;
  }

  lemma {:induction false} LoopEndLeftDrops(c: Config, s: State, s': State)
    requires |s.workers| == c.k && s.pos <= |c.input| && MainOk(c, s)
    requires MainNext(c, s) == Some(s') && ModeOf(s) != Quiet
    requires !((s.main.OpenGate? || s.main.Wake?) && s.main.i < |s.workers|)
    ensures MainLeft(c, s') + 1 == MainLeft(c, s) && s'.workers == s.workers && s'.line == s.line
  {
    hide CStr, LinesLeft;
  }

  lemma {:induction false} WorkerStepLeft(c: Config, s: State, s': State, j: nat)
    requires Inv(c, s) && WorkerStep(c, s, s', j)
    ensures StepsLeft(c, s') + 1 == StepsLeft(c, s)
  {
    hide CStr, Expected, WorkersLeft, MainLeft, MainOk, Rounds;
    assert WorkerOk(c, s, j);
    MainLeftSame(c, s, s', j);
    PutLeft(s.line, s.workers, j, s'.workers[j]);
  }

  lemma {:induction false} MainLeftSame(c: Config, s: State, s': State, j: nat)
    requires WorkerStep(c, s, s', j)
    ensures MainLeft(c, s') == MainLeft(c, s) && s'.line == s.line
  {
    hide CStr;
  }

  /** Every step of every thread uses up exactly one of the steps left. */
  lemma {:induction false} StepUsesOne(c: Config, s: State, s': State)
    requires Inv(c, s) && Step(c, s, s')
    ensures StepsLeft(c, s') + 1 == StepsLeft(c, s)
  {
    hide StepsLeft, WorkerNext;
    if MainNext(c, s) == Some(s') {
      MainStepLeft(c, s, s');
    } else {
      var j: nat :| WorkerStep(c, s, s', j);
      WorkerStepLeft(c, s, s', j);
    }
  }

  lemma {:induction false} LinesLeftIs(c: Config, pos: nat)
    requires pos <= |c.input|
    ensures LinesLeft(c, pos) == (|c.input| - pos) * (8 * c.k + 7) + 5 * c.k + 4
    decreases |c.input| - pos
  {
    if pos < |c.input| {
      LinesLeftIs(c, pos + 1);
      assert (|c.input| - pos) * (8 * c.k + 7) == (|c.input| - pos - 1) * (8 * c.k + 7) + (8 * c.k + 7);
    }
  }

  lemma {:induction false} RunUses(c: Config, run: seq<State>, n: nat)
    requires Run(c, run) && n < |run|
    ensures StepsLeft(c, run[n]) + n == StepsLeft(c, Init(c))
  {
    hide StepsLeft, Inv, Step;
    if n > 0 {
      RunUses(c, run, n - 1);
      RunKeepsInv(c, run, n - 1);
      StepUsesOne(c, run[n - 1], run[n]);
    }
  }

  /** Every run ends: after `n` steps exactly the rest of N * (8k + 7) + 5k + 4 steps are left. */
  lemma {:induction false} EveryRunTerminates(c: Config, run: seq<State>, n: nat)
    requires Run(c, run) && n < |run|
    ensures n + StepsLeft(c, run[n]) == |c.input| * (8 * c.k + 7) + 5 * c.k + 4
  {
    hide Run;
    RunUses(c, run, n);
    QuietLeft(Null, Init(c).workers);
    LinesLeftIs(c, 0);
  }

  /** Every thread is blocked or has returned. */
  ghost predicate NobodyMoves(c: Config, s: State) {
    MainNext(c, s).None? && forall j :: 0 <= j < |s.workers| ==> WorkerNext(c, s, j).None?
  }

  /** While main is blocked, the worker whose turn it is, or the next one to join, can move. */
  lemma {:induction false} AwaitedCanMove(c: Config, s: State) returns (j: nat)
    requires Inv(c, s) && MainNext(c, s).None? && s.main != MainDone
    ensures j < |s.workers| && WorkerNext(c, s, j).Some?
    ensures if s.main == AwaitAll then j == s.turn else s.main.Join? && j == s.main.i
  {
    hide CStr, Expected;
    j := if s.main == AwaitAll then s.turn else s.main.i;
    assert WorkerOk(c, s, j);
  }

  /** No deadlock: nobody can move only when every thread has finished. */
  lemma {:induction false} NoDeadlock(c: Config, s: State)
    requires Inv(c, s) && NobodyMoves(c, s)
    ensures Finished(s)
  {
    hide CStr, Expected, WorkerNext;
    if s.main != MainDone {
      var j := AwaitedCanMove(c, s);
    }
  }

  /** A run that nobody can extend has printed everything, in exactly the predicted number of steps. */
  lemma {:induction false} MaximalRunIsCorrect(c: Config, run: seq<State>)
    requires Run(c, run) && NobodyMoves(c, run[|run| - 1])
    ensures Finished(run[|run| - 1]) && run[|run| - 1].out == Output(c, |c.input|)
    ensures |run| - 1 == |c.input| * (8 * c.k + 7) + 5 * c.k + 4
  {
    hide Step, Inv, NobodyMoves, StepsLeft;
    var s := run[|run| - 1];
    RunKeepsInv(c, run, |run| - 1);
    NoDeadlock(c, s);
    OutputIsComplete(c, run, |run| - 1);
    EveryRunTerminates(c, run, |run| - 1);
    FinishedHasNoSteps(c, s);
  }

  lemma {:induction false} FinishedHasNoSteps(c: Config, s: State)
    requires Finished(s)
    ensures StepsLeft(c, s) == 0
  {
    ExitedLeft(s.line, s.workers);
  }

  lemma {:induction false} ExitedLeft(line: LineVar, ws: seq<Worker>)
    requires forall j :: 0 <= j < |ws| ==> ws[j].pc == Exited
    ensures WorkersLeft(line, ws) == 0
  {
    if ws != [] {
      ExitedLeft(line, ws[..|ws| - 1]);
    }
  }
}
