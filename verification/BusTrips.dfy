/** The lines of the bus, and the numbers of waiting riders in them, on accepted logs and in finished runs. */
module BusTrips {
  import opened Options
  import opened BusModel
  import opened BusInvariant
  import opened BusLog
  import opened BusTheorems

  // ---------- how many riders wait ----------

  /** Riders at the stop, by the first `j` lines: those that entered less those that boarded. */
  function AtTheStop(log: seq<Line>, j: nat): int
    requires j <= |log|
  {
    Count(log[..j], IsEnter) - Count(log[..j], IsBoarding)
  }

  /** Every enter line says how many riders are at the stop, the one that entered included. */
  lemma {:induction false} EnterLinesCount(c: Config, log: seq<Line>, j: nat)
    requires Accepts(c, log) && j < |log| && log[j].event.EvEnter?
    ensures log[j].event.atStop == Count(log[..j + 1], IsEnter) - Count(log[..j], IsBoarding)
    ensures log[j].event.atStop == AtTheStop(log, j) + 1
  {
    LineAccepted(c, log, j);
    CountersCountLines(c, log[..j]);
    assert log[..j + 1][..j] == log[..j];
    CountLast(log[..j + 1], IsEnter);
    hide Scan, Count;
  }

  /** "start boarding" and "end boarding" say how many are there. */
  lemma {:induction false} BoardingLinesCount(c: Config, log: seq<Line>, j: nat)
    requires Accepts(c, log) && j < |log|
    ensures log[j].event.EvStartBoarding? || log[j].event.EvEndBoarding? ==> log[j].event.left == AtTheStop(log, j)
  {
    LineAccepted(c, log, j);
    CountersCountLines(c, log[..j]);
    hide Scan, Count;
  }

  // ---------- the order of the bus lines ----------

  /** The bus events of a log, in order. */
  function BusLines(log: seq<Line>): seq<Event> {
    if log == [] then []
    else
      var e := log[|log| - 1].event;
      BusLines(log[..|log| - 1]) + if IsBus(e) then [e] else []
  }

  /** Complete trips one after the other, each without boarding or with it. */
  ghost predicate Trips(es: seq<Event>) {
    || es == []
    || (|es| >= 3 && es[..3] == [EvArrival, EvDepart, EvEnd] && Trips(es[3..]))
    || (|es| >= 5 && FullTrip(es[..5]) && Trips(es[5..]))
  }

  predicate FullTrip(es: seq<Event>) {
    && |es| == 5 && es[0] == EvArrival && es[1].EvStartBoarding? && es[2].EvEndBoarding?
    && es[3] == EvDepart && es[4] == EvEnd
  }

  lemma {:induction false} TripsAppend(a: seq<Event>, b: seq<Event>)
    requires Trips(a) && Trips(b)
    ensures Trips(a + b)
  {
    if a == [] {
      assert a + b == b;
    } else {
      var n := if |a| >= 3 && a[..3] == [EvArrival, EvDepart, EvEnd] && Trips(a[3..]) then 3 else 5;
      TripsAppend(a[n..], b);
      assert (a + b)[n..] == a[n..] + b && (a + b)[..n] == a[..n];
    }
  }

  lemma {:induction false} OneTrip(es: seq<Event>)
    requires es == [EvArrival, EvDepart, EvEnd] || FullTrip(es)
    ensures Trips(es)
  {
    assert es[|es|..] == [] && es[..|es|] == es;
  }

  /** Trips are made of the five lines of a trip, so none of them starts or finishes the bus. */
  lemma {:induction false} TripLines(es: seq<Event>)
    requires Trips(es)
    ensures EvBusStart !in es && EvBusFinish !in es
  {
    if es != [] {
      var n := if |es| >= 3 && es[..3] == [EvArrival, EvDepart, EvEnd] && Trips(es[3..]) then 3 else 5;
      TripLines(es[n..]);
      assert es == es[..n] + es[n..];
    }
  }

  /** What a trip that is not over has printed. */
  ghost predicate Begun(trip: Trip, es: seq<Event>) {
    match trip
    case NotStarted => false
    case Away => es == []
    case AtEmptyStop => es == [EvArrival]
    case AtStop(_) => es == [EvArrival]
    case Loading(_, _) => |es| == 2 && es[0] == EvArrival && es[1].EvStartBoarding?
    case Loaded(_) => |es| == 3 && es[0] == EvArrival && es[1].EvStartBoarding? && es[2].EvEndBoarding?
    case Riding(_) => es == [EvArrival, EvDepart] || (|es| == 4 && FullTrip(es + [EvEnd]))
    case Closed => es == [EvBusFinish]
  }

  lemma {:induction false} NextBegun(c: Config, v: View, e: Event, es: seq<Event>)
    requires Next(c, v, e).Some? && Begun(v.trip, es)
    ensures var trip := Next(c, v, e).value.trip;
      if !IsBus(e) then Begun(trip, es)
      else if e == EvEnd then Begun(trip, []) && (es + [e] == [EvArrival, EvDepart, EvEnd] || FullTrip(es + [e]))
      else Begun(trip, es + [e])
  {
  }

  lemma {:induction false} OneMoreLine(c: Config, log: seq<Line>)
    requires Scan(c, log).Some? && log != []
    ensures Scan(c, log[..|log| - 1]).Some?
    ensures Scan(c, log) == Next(c, Scan(c, log[..|log| - 1]).value, log[|log| - 1].event)
    ensures BusLines(log) ==
      BusLines(log[..|log| - 1]) + if IsBus(log[|log| - 1].event) then [log[|log| - 1].event] else []
  {
    hide Next, IsBus;
  }

  lemma {:induction false} Regroup(a: Event, ts: seq<Event>, es: seq<Event>, e: Event)
    ensures [a] + ts + es + [e] == [a] + ts + (es + [e]) == [a] + (ts + (es + [e])) + []
    ensures [a] + ts + es + [] == [a] + ts + es
  {
  }

  /** The bus lines of an accepted log: its start, complete trips, and what was printed since. */
  lemma {:induction false} BusLinesSoFar(c: Config, log: seq<Line>) returns (ts: seq<Event>, es: seq<Event>)
    requires Scan(c, log).Some?
    ensures if Scan(c, log).value.trip == NotStarted then BusLines(log) == []
            else BusLines(log) == [EvBusStart] + ts + es && Trips(ts) && Begun(Scan(c, log).value.trip, es)
  {
    ts, es := [], [];
    if log != [] {
      var m := |log| - 1;
      hide Scan, Next, Begun, FullTrip, Trips, BusLines;
      OneMoreLine(c, log);
      var v, e := Scan(c, log[..m]).value, log[m].event;
      ts, es := BusLinesSoFar(c, log[..m]);
      if v.trip == NotStarted {
        FirstBusLine(c, v, e);
        JustStarted();
        ts, es := [], [];
      } else {
        NextBegun(c, v, e, es);
        Regroup(EvBusStart, ts, es, e);
        if e == EvEnd {
          OneTrip(es + [e]);
          TripsAppend(ts, es + [e]);
          ts, es := ts + (es + [e]), [];
        } else if IsBus(e) {
          es := es + [e];
        }
      }
    }
  }

  lemma {:induction false} JustStarted()
    ensures Trips([]) && Begun(Away, [])
  {
  }

  lemma {:induction false} FirstBusLine(c: Config, v: View, e: Event)
    requires Next(c, v, e).Some? && v.trip == NotStarted
    ensures if IsBus(e) then e == EvBusStart && Next(c, v, e).value.trip == Away
            else Next(c, v, e).value.trip == NotStarted
  {
  }

  /**
   The log of a finished run: the bus prints "start" first and "finish" last, each once, and
   between them complete trips of arrival, depart and end, or of arrival, start boarding, end
   boarding, depart and end.
   */
  lemma {:induction false} FinishedBusLines(c: Config, run: seq<State>) returns (ts: seq<Event>)
    requires c.Valid() && RunFromInit(c, run) && Final(run[|run| - 1])
    ensures BusLines(run[|run| - 1].log) == [EvBusStart] + ts + [EvBusFinish]
    ensures Trips(ts) && EvBusStart !in ts && EvBusFinish !in ts
  {
    var s := run[|run| - 1];
    EveryLogIsAccepted(c, run, |run| - 1);
    ClosedWhenDone(c, s);
    hide LogInv, Next, Scan;
    var es;
    ts, es := BusLinesSoFar(c, s.log);
    TripLines(ts);
  }

  lemma {:induction false} ClosedWhenDone(c: Config, s: State)
    requires LogInv(c, s) && s.bus == BusDone
    ensures Scan(c, s.log).Some? && Scan(c, s.log).value.trip == Closed
  {
    hide Scan, Tally, StagesMatch, NumbersMatch;
  }

  // ---------- trips with and without boarding ----------

  /** Between bus lines the reader's trip stays what it is, but for the riders on board. */
  lemma {:induction false} TripUntil(c: Config, log: seq<Line>, j: nat)
    requires Scan(c, log).Some? && j < |log| && forall i :: j < i < |log| ==> !IsBus(log[i].event)
    ensures Scan(c, log[..j + 1]).Some?
    ensures !Scan(c, log[..j + 1]).value.trip.Loading? ==> Scan(c, log).value.trip == Scan(c, log[..j + 1]).value.trip
    ensures Scan(c, log[..j + 1]).value.trip.AtStop? ==>
      Scan(c, log).value.waiting == Scan(c, log[..j + 1]).value.waiting
  {
    hide Scan;
    var m := |log| - 1;
    LineAccepted(c, log, m);
    assert log[..m + 1] == log;
    if j < m {
      TripUntil(c, log[..m], j);
      assert log[..m][..j + 1] == log[..j + 1];
    }
  }

  /** After an arrival the bus departs at once if nobody is at the stop, and otherwise boards. */
  lemma {:induction false} EmptyTripIff(c: Config, log: seq<Line>, j: nat, b: nat)
    requires Accepts(c, log) && j < |log| && log[j].event == EvArrival && NextBusLine(log, j, b)
    ensures if AtTheStop(log, j) == 0 then log[b].event == EvDepart
            else log[b].event.EvStartBoarding? && log[b].event.left == AtTheStop(log, j)
  {
    LineAccepted(c, log, j);
    LineAccepted(c, log, b);
    CountersCountLines(c, log[..j]);
    hide Scan, Count, Accepts;
    TripUntil(c, log[..b], j);
    assert log[..b][..j + 1] == log[..j + 1];
  }
}
