/**
 The messages of sem_5/isa/proj/d6r.cpp: RFC 8415 sections 9.1, 9.2, 21.1, 21.10 and 21.18, and RFC 6939 section 4.
 */
module RelayFormat {
  import opened Options

  type byte = x: int | 0 <= x < 256

  const BUFF_SIZE: nat := 1024
  const HEADER: nat := 34

  const RELAY_FORW: byte := 12
  const RELAY_REPL: byte := 13

  const OPTION_RELAY_MSG: nat := 9
  const OPTION_INTERFACE_ID: nat := 18
  const OPTION_CLIENT_LINKLAYER_ADDR: nat := 79

  datatype Opt = Opt(code: nat, data: seq<byte>)

  // ---------- the bytes of a message ----------

  /** A 16-bit number in network order. */
  function Bytes16(n: nat): (s: seq<byte>)
    requires n < 0x10000
    ensures |s| == 2
  {
    [n / 256, n % 256]
  }

  function U16(b: seq<byte>, at: nat): (n: nat)
    requires at + 2 <= |b|
    ensures n < 0x10000
  {
    var high: int := b[at];
    high * 256 + b[at + 1]
  }

  predicate Encodable(o: Opt) { o.code < 0x10000 && |o.data| < 0x10000 }

  predicate AllEncodable(opts: seq<Opt>) { forall i :: 0 <= i < |opts| ==> Encodable(opts[i]) }

  function EncodeOpt(o: Opt): (s: seq<byte>)
    requires Encodable(o)
    ensures |s| == 4 + |o.data|
  {
    Bytes16(o.code) + Bytes16(|o.data|) + o.data
  }

  function EncodeOpts(opts: seq<Opt>): (s: seq<byte>)
    requires AllEncodable(opts)
    ensures opts == [] <==> s == []
  {
    if |opts| == 0 then [] else EncodeOpt(opts[0]) + EncodeOpts(opts[1..])
  }

  /** A relay message of section 9: its type, hop count and addresses, and then its options. */
  function Encode(kind: byte, hops: byte, link: seq<byte>, peer: seq<byte>, opts: seq<Opt>): seq<byte>
    requires AllEncodable(opts)
  {
    [kind, hops] + link + peer + EncodeOpts(opts)
  }

  /** Reading an option back from where it was written. */
  lemma {:induction false} HeadOption(b: seq<byte>, at: nat, end: nat, opts: seq<Opt>)
    requires at <= end <= |b| && AllEncodable(opts) && |opts| > 0 && b[at..end] == EncodeOpts(opts)
    ensures var o := opts[0];
      && at + 4 + |o.data| <= end && U16(b, at) == o.code && U16(b, at + 2) == |o.data|
      && b[at + 4..at + 4 + |o.data|] == o.data
      && b[at + 4 + |o.data|..end] == EncodeOpts(opts[1..])
  {
    var o, s := opts[0], b[at..end];
    assert s == EncodeOpt(o) + EncodeOpts(opts[1..]);
    var e := EncodeOpt(o);
    assert forall k :: 0 <= k < |e| ==> b[at + k] == s[k] == e[k];
    assert e[0] == o.code / 256 && e[1] == o.code % 256 && e[2] == |o.data| / 256 && e[3] == |o.data| % 256;
    assert b[at + 4..at + 4 + |o.data|] == e[4..] == o.data;
    assert b[at + |e|..end] == s[|e|..] == EncodeOpts(opts[1..]);
  }

  // ---------- what the walk over the options of a Relay-reply is to find ----------

  /** The payload of the Relay Message option, if seen, and the interface_name buffer. */
  datatype Seen = Seen(relay: Option<seq<byte>>, name: seq<byte>)

  const ZEROS: seq<byte> := [0, 0, 0, 0, 0, 0, 0, 0, 0, 0, 0, 0, 0, 0, 0, 0]

  /** The buffer with `data` copied to its start. */
  function Overlay(name: seq<byte>, data: seq<byte>): (r: seq<byte>)
    requires |data| <= |name|
    ensures |r| == |name|
  {
    data + name[|data|..]
  }

  /** What one option does; None when its interface-id is larger than the buffer it is copied to. */
  function See(s: Seen, o: Opt): (r: Option<Seen>)
    requires |s.name| == 16
    ensures r.Some? ==> |r.value.name| == 16
  {
    if o.code == OPTION_INTERFACE_ID then
      if |o.data| <= 16 then Some(s.(name := Overlay(s.name, o.data))) else None
    else if o.code == OPTION_RELAY_MSG then Some(s.(relay := Some(o.data)))
    else Some(s)
  }

  predicate Complete(s: Seen)
    requires |s.name| == 16
  {
    s.relay.Some? && s.name[0] != 0
  }

  /** The options are looked at in order until both are found. */
  function Walk(opts: seq<Opt>, s: Seen): (r: Option<Seen>)
    requires |s.name| == 16
    ensures r.Some? ==> |r.value.name| == 16
  {
    if |opts| == 0 then Some(s) else
      var r := See(s, opts[0]);
      if r == None || Complete(r.value) then r else Walk(opts[1..], r.value)
  }

  /** Once a Relay Message and a name are there, nothing that follows is looked at. */
  lemma {:induction false} WalkStops(opts: seq<Opt>, more: seq<Opt>, s: Seen)
    requires |s.name| == 16 && opts != [] && Walk(opts, s).Some?
    requires Walk(opts, s).value.relay.Some? && Walk(opts, s).value.name[0] != 0
    ensures Walk(opts + more, s) == Walk(opts, s)
  {
    var s' := See(s, opts[0]).value;
    assert (opts + more)[1..] == opts[1..] + more;
    if !Complete(s') {
      WalkStops(opts[1..], more, s');
    }
  }

  /** Until then every option counts: without a Relay Message or a name the walk goes on to the end. */
  lemma {:induction false} WalkGoesOn(opts: seq<Opt>, more: seq<Opt>, s: Seen)
    requires |s.name| == 16 && Walk(opts, s).Some? && (s.relay == None || s.name[0] == 0)
    requires Walk(opts, s).value.relay == None || Walk(opts, s).value.name[0] == 0
    ensures Walk(opts + more, s) == Walk(more, Walk(opts, s).value)
  {
    if opts == [] {
      assert opts + more == more;
    } else {
      var s' := See(s, opts[0]).value;
      assert (opts + more)[1..] == opts[1..] + more;
      WalkGoesOn(opts[1..], more, s');
    }
  }

  function RelayCount(opts: seq<Opt>): nat {
    if |opts| == 0 then 0 else (if opts[0].code == OPTION_RELAY_MSG then 1 else 0) + RelayCount(opts[1..])
  }

  /** The interface-ids that say something. */
  function IdCount(opts: seq<Opt>): nat {
    if |opts| == 0 then 0 else (if IsId(opts[0]) then 1 else 0) + IdCount(opts[1..])
  }

  predicate IsId(o: Opt) { o.code == OPTION_INTERFACE_ID && |o.data| > 0 }

  predicate ShortIds(opts: seq<Opt>) {
    forall i :: 0 <= i < |opts| && opts[i].code == OPTION_INTERFACE_ID ==> |opts[i].data| <= 15
  }

  function FirstRelay(opts: seq<Opt>): Option<seq<byte>> {
    if |opts| == 0 then None else if opts[0].code == OPTION_RELAY_MSG then Some(opts[0].data) else FirstRelay(opts[1..])
  }

  function FirstId(opts: seq<Opt>): (s: seq<byte>) {
    if |opts| == 0 then [] else if IsId(opts[0]) then opts[0].data else FirstId(opts[1..])
  }

  /** An interface name in the buffer. */
  function Pad(name: seq<byte>): (r: seq<byte>)
    requires |name| <= 15
    ensures |r| == 16
  {
    Overlay(ZEROS, name)
  }

  lemma {:induction false} FirstIdIsShort(opts: seq<Opt>)
    requires ShortIds(opts)
    ensures |FirstId(opts)| <= 15
  {
    if |opts| > 0 && !IsId(opts[0]) {
      FirstIdIsShort(opts[1..]);
    }
  }

  lemma {:induction false} NothingLeft(opts: seq<Opt>)
    ensures RelayCount(opts) == 0 ==> FirstRelay(opts) == None
    ensures IdCount(opts) == 0 ==> FirstId(opts) == []
  {
    if |opts| > 0 {
      NothingLeft(opts[1..]);
    }
  }

  /** From any state in which nothing is seen twice, the walk finds what there is. */
  lemma {:induction false} WalkFinds(opts: seq<Opt>, s: Seen)
    requires |s.name| == 16 && ShortIds(opts)
    requires (if s.relay.Some? then 1 else 0) + RelayCount(opts) <= 1
    requires (if s.name != ZEROS then 1 else 0) + IdCount(opts) <= 1
    ensures |FirstId(opts)| <= 15
    ensures Walk(opts, s) == Some(Seen(if s.relay.Some? then s.relay else FirstRelay(opts),
                                       if s.name != ZEROS then s.name else Pad(FirstId(opts))))
  {
    hide Walk, See, Pad, RelayCount, IdCount, FirstRelay, FirstId;
    FirstIdIsShort(opts);
    NothingLeft(opts);
    NoOption(s);
    if |opts| > 0 {
      NothingLeft(opts[1..]);
      FirstOption(opts);
      SeeOne(s, opts[0]);
      var s' := See(s, opts[0]).value;
      WalkStep(opts, s, s');
      if !Complete(s') {
        WalkFinds(opts[1..], s');
      }
    }
  }

  lemma {:induction false} NoOption(s: Seen)
    requires |s.name| == 16
    ensures Walk([], s) == Some(s) && Pad([]) == ZEROS && FirstRelay([]) == None && FirstId([]) == []
  {
  }

  lemma {:induction false} FirstOption(opts: seq<Opt>)
    requires |opts| > 0
    ensures RelayCount(opts) == (if opts[0].code == OPTION_RELAY_MSG then 1 else 0) + RelayCount(opts[1..])
    ensures IdCount(opts) == (if IsId(opts[0]) then 1 else 0) + IdCount(opts[1..])
    ensures FirstRelay(opts) == if opts[0].code == OPTION_RELAY_MSG then Some(opts[0].data) else FirstRelay(opts[1..])
    ensures FirstId(opts) == if IsId(opts[0]) then opts[0].data else FirstId(opts[1..])
  {
  }

  lemma {:induction false} SeeOne(s: Seen, o: Opt)
    requires |s.name| == 16 && (o.code == OPTION_INTERFACE_ID ==> |o.data| <= 15)
    ensures See(s, o).Some?
    ensures See(s, o).value.relay == if o.code == OPTION_RELAY_MSG then Some(o.data) else s.relay
    ensures !IsId(o) ==> See(s, o).value.name == s.name
    ensures IsId(o) && s.name == ZEROS ==> See(s, o).value.name == Pad(o.data)
  {
    assert o.data == [] ==> Overlay(s.name, o.data) == s.name;
  }

  /**
   Wherever it stands among the options, the one Relay Message is found, and so is the one
   interface-id that says something, if there is one.
   */
  lemma {:induction false} FoundInAnyOrder(opts: seq<Opt>, payload: seq<byte>, name: seq<byte>)
    requires ShortIds(opts) && RelayCount(opts) == 1 && Opt(OPTION_RELAY_MSG, payload) in opts
    requires if name == [] then IdCount(opts) == 0 else IdCount(opts) == 1 && Opt(OPTION_INTERFACE_ID, name) in opts
    ensures |name| <= 15 && Walk(opts, Seen(None, ZEROS)) == Some(Seen(Some(payload), Pad(name)))
  {
    WalkFinds(opts, Seen(None, ZEROS));
    FirstIsTheOne(opts, payload, name);
  }

  lemma {:induction false} FirstIsTheOne(opts: seq<Opt>, payload: seq<byte>, name: seq<byte>)
    ensures RelayCount(opts) == 1 && Opt(OPTION_RELAY_MSG, payload) in opts ==> FirstRelay(opts) == Some(payload)
    ensures IdCount(opts) == 0 ==> FirstId(opts) == []
    ensures IdCount(opts) == 1 && Opt(OPTION_INTERFACE_ID, name) in opts && name != [] ==> FirstId(opts) == name
  {
    if |opts| > 0 {
      FirstIsTheOne(opts[1..], payload, name);
      CountIn(opts[1..], payload, name);
      assert opts == [opts[0]] + opts[1..];
    }
  }

  lemma {:induction false} CountIn(opts: seq<Opt>, payload: seq<byte>, name: seq<byte>)
    ensures Opt(OPTION_RELAY_MSG, payload) in opts ==> RelayCount(opts) > 0
    ensures Opt(OPTION_INTERFACE_ID, name) in opts && name != [] ==> IdCount(opts) > 0
  {
    if |opts| > 0 {
      CountIn(opts[1..], payload, name);
    }
  }

  // ---------- what the walk does to any list of options ----------

  /** An interface-id that does not fit the buffer it is copied to. */
  predicate Oversized(o: Opt) { o.code == OPTION_INTERFACE_ID && |o.data| > 16 }

  /** How many options are looked at: the walk ends when both are found, or when an interface-id does not fit. */
  function Looked(opts: seq<Opt>, s: Seen): (n: nat)
    requires |s.name| == 16
    ensures n <= |opts|
  {
    if |opts| == 0 then 0 else
      var r := See(s, opts[0]);
      if r == None || Complete(r.value) then 1 else 1 + Looked(opts[1..], r.value)
  }

  /** The interface-ids of some options, in order. */
  function Ids(opts: seq<Opt>): seq<seq<byte>> {
    if |opts| == 0 then [] else
      (if opts[0].code == OPTION_INTERFACE_ID then [opts[0].data] else []) + Ids(opts[1..])
  }

  /** The last of the Relay Messages. */
  function LastRelay(opts: seq<Opt>): Option<seq<byte>> {
    if |opts| == 0 then None else
      var r := LastRelay(opts[1..]);
      if r == None && opts[0].code == OPTION_RELAY_MSG then Some(opts[0].data) else r
  }

  predicate FitAll(ids: seq<seq<byte>>) { forall i :: 0 <= i < |ids| ==> |ids[i]| <= 16 }

  /** The buffer after the ids were copied to its start one after the other. */
  function Overlaid(name: seq<byte>, ids: seq<seq<byte>>): (r: seq<byte>)
    requires |name| == 16 && FitAll(ids)
    ensures |r| == 16
    decreases ids
  {
    if |ids| == 0 then name else Overlaid(Overlay(name, ids[0]), ids[1..])
  }

  lemma {:induction false} NoneLookedAt(opts: seq<Opt>, s: Seen)
    requires |s.name| == 16
    ensures Walk(opts, s) == None <==> exists i :: 0 <= i < Looked(opts, s) && Oversized(opts[i])
  {
    if |opts| > 0 {
      var r := See(s, opts[0]);
      if r == None {
        assert Oversized(opts[0]);
      } else if !Complete(r.value) {
        NoneLookedAt(opts[1..], r.value);
        assert forall i :: 0 <= i < |opts| - 1 ==> opts[1..][i] == opts[i + 1];
        if exists i :: 0 <= i < Looked(opts, s) && Oversized(opts[i]) {
          var i :| 0 <= i < Looked(opts, s) && Oversized(opts[i]);
          assert Oversized(opts[1..][i - 1]);
        }
      }
    }
  }

  /**
   The walk over any options: it fails exactly when it looks at an interface-id that does not
   fit, and otherwise finds the last Relay Message it looked at and the ids copied over each other.
   */
  lemma {:induction false} WalkOverlays(opts: seq<Opt>, s: Seen)
    requires |s.name| == 16
    ensures Walk(opts, s) == None <==> exists i :: 0 <= i < Looked(opts, s) && Oversized(opts[i])
    ensures Walk(opts, s).Some? ==>
      var seen := opts[..Looked(opts, s)];
      && FitAll(Ids(seen))
      && Walk(opts, s).value.name == Overlaid(s.name, Ids(seen))
      && Walk(opts, s).value.relay == if LastRelay(seen) == None then s.relay else LastRelay(seen)
  {
    NoneLookedAt(opts, s);
    if Walk(opts, s).Some? && |opts| > 0 {
      var s', n := See(s, opts[0]).value, Looked(opts, s);
      LookedCons(opts, n);
      if Complete(s') {
        NothingSeen(s'.name);
        assert opts[1..][..0] == [];
      } else {
        WalkOverlays(opts[1..], s');
      }
      hide Ids, LastRelay, Walk, Looked, Complete;
      if opts[0].code == OPTION_INTERFACE_ID {
        OverlaidCons(s.name, Ids(opts[1..][..n - 1]), opts[0].data);
      }
    }
  }

  /** The first `n` options are the first one and the others. */
  lemma {:induction false} LookedCons(opts: seq<Opt>, n: nat)
    requires 0 < n <= |opts|
    ensures var rest := opts[1..][..n - 1];
      && Ids(opts[..n]) == (if opts[0].code == OPTION_INTERFACE_ID then [opts[0].data] + Ids(rest) else Ids(rest))
      && LastRelay(opts[..n]) ==
         if LastRelay(rest) == None && opts[0].code == OPTION_RELAY_MSG then Some(opts[0].data) else LastRelay(rest)
  {
    assert opts[..n][1..] == opts[1..][..n - 1];
    assert [] + Ids(opts[1..][..n - 1]) == Ids(opts[1..][..n - 1]);
  }

  lemma {:induction false} NothingSeen(name: seq<byte>)
    requires |name| == 16
    ensures Ids([]) == [] && LastRelay([]) == None && Overlaid(name, []) == name
  {
  }

  lemma {:induction false} OverlaidCons(name: seq<byte>, ids: seq<seq<byte>>, id: seq<byte>)
    requires |name| == 16 && FitAll(ids) && |id| <= 16
    ensures FitAll([id] + ids) && Overlaid(name, [id] + ids) == Overlaid(Overlay(name, id), ids)
  {
    assert ([id] + ids)[1..] == ids;
  }

  /** Which id a byte of the buffer comes from: the last one that is long enough. */
  ghost predicate ComesFrom(name: seq<byte>, ids: seq<seq<byte>>, j: nat, b: byte)
    requires |name| == 16 && j < 16
  {
    if forall i :: 0 <= i < |ids| ==> |ids[i]| <= j then b == name[j]
    else exists i :: 0 <= i < |ids| && |ids[i]| > j && ids[i][j] == b && LastLonger(ids, i, j)
  }

  predicate LastLonger(ids: seq<seq<byte>>, i: nat, j: nat) {
    forall k :: i < k < |ids| ==> |ids[k]| <= j
  }

  lemma {:induction false} LastLongerTail(ids: seq<seq<byte>>, rest: seq<seq<byte>>, i: nat, j: nat)
    requires |rest| + 1 == |ids| && (forall k :: 0 <= k < |rest| ==> rest[k] == ids[k + 1]) && LastLonger(rest, i, j)
    ensures LastLonger(ids, i + 1, j)
  {
    forall k | i + 1 < k < |ids|
      ensures |ids[k]| <= j
    {
      assert |rest[k - 1]| <= j;
    }
  }

  lemma {:induction false} OverlaidByte(name: seq<byte>, ids: seq<seq<byte>>, j: nat)
    requires |name| == 16 && FitAll(ids) && j < 16
    ensures ComesFrom(name, ids, j, Overlaid(name, ids)[j])
    decreases ids
  {
    if |ids| > 0 {
      var rest := ids[1..];
      assert forall i :: 0 <= i < |rest| ==> rest[i] == ids[i + 1];
      OverlaidByte(Overlay(name, ids[0]), rest, j);
      if forall i :: 0 <= i < |rest| ==> |rest[i]| <= j {
        assert LastLonger(ids, 0, j);
      } else {
        var i: nat :| i < |rest| && |rest[i]| > j && rest[i][j] == Overlaid(name, ids)[j] && LastLonger(rest, i, j);
        assert ids[i + 1] == rest[i];
        LastLongerTail(ids, rest, i, j);
        assert LastLonger(ids, i + 1, j);
      }
    }
  }

  lemma {:induction false} OverlaidLast(name: seq<byte>, ids: seq<seq<byte>>, b: seq<byte>)
    requires |name| == 16 && FitAll(ids) && |b| <= 16
    ensures FitAll(ids + [b]) && Overlaid(name, ids + [b]) == Overlay(Overlaid(name, ids), b)
    decreases ids
  {
    if |ids| == 0 {
      assert ([b])[1..] == [] && ids + [b] == [b];
    } else {
      assert (ids + [b])[1..] == ids[1..] + [b];
      OverlaidLast(Overlay(name, ids[0]), ids[1..], b);
    }
  }

  /** After several ids the last one is recovered if and only if what it leaves of the others is zero. */
  lemma {:induction false} LastIdRecoveredIff(ids: seq<seq<byte>>, b: seq<byte>)
    requires FitAll(ids) && |b| <= 15
    ensures FitAll(ids + [b])
    ensures Overlaid(ZEROS, ids + [b]) == Pad(b) <==> forall j :: |b| <= j < 16 ==> Overlaid(ZEROS, ids)[j] == 0
  {
    OverlaidLast(ZEROS, ids, b);
    var before := Overlaid(ZEROS, ids);
    var after := Overlay(before, b);
    assert forall j :: 0 <= j < |b| ==> after[j] == Pad(b)[j] == b[j];
    assert forall j :: |b| <= j < 16 ==> after[j] == before[j] && Pad(b)[j] == 0;
  }

  /** ... of the walk over any options: which id is last among those it looks at, and what it leaves. */
  lemma {:induction false} WalkRecoversLastIdIff(opts: seq<Opt>, ids: seq<seq<byte>>, b: seq<byte>)
    requires Walk(opts, Seen(None, ZEROS)).Some? && |b| <= 15
    requires Ids(opts[..Looked(opts, Seen(None, ZEROS))]) == ids + [b]
    ensures FitAll(ids)
    ensures Walk(opts, Seen(None, ZEROS)).value.name == Pad(b) <==>
      forall j :: |b| <= j < 16 ==> Overlaid(ZEROS, ids)[j] == 0
  {
    WalkOverlays(opts, Seen(None, ZEROS));
    assert forall i :: 0 <= i < |ids| ==> ids[i] == (ids + [b])[i];
    LastIdRecoveredIff(ids, b);
  }

  /** Two ids and a Relay Message: the walk finds the second id if and only if the first has only zeros beyond it. */
  lemma {:induction false} SecondIdRecoveredIff(a: seq<byte>, b: seq<byte>, msg: seq<byte>)
    requires |a| <= 15 && |b| <= 15
    ensures var opts := [Opt(OPTION_INTERFACE_ID, a), Opt(OPTION_INTERFACE_ID, b), Opt(OPTION_RELAY_MSG, msg)];
      && Walk(opts, Seen(None, ZEROS)) == Some(Seen(Some(msg), Overlay(Pad(a), b)))
      && (Overlay(Pad(a), b) == Pad(b) <==> forall k :: |b| <= k < |a| ==> a[k] == 0)
  {
    var opts := [Opt(OPTION_INTERFACE_ID, a), Opt(OPTION_INTERFACE_ID, b), Opt(OPTION_RELAY_MSG, msg)];
    var s1, s2 := Seen(None, Pad(a)), Seen(None, Overlay(Pad(a), b));
    var s3 := Seen(Some(msg), s2.name);
    assert opts[1..] == [opts[1], opts[2]] && opts[1..][1..] == [opts[2]] && [opts[2]][1..] == [];
    SecondId(Pad(a), b);
    PadBytes(a, b);
    hide Overlay, Pad;
    WalkStep(opts, Seen(None, ZEROS), s1);
    WalkStep(opts[1..], s1, s2);
    WalkStep([opts[2]], s2, s3);
  }

  lemma {:induction false} WalkStep(opts: seq<Opt>, s: Seen, s': Seen)
    requires |s.name| == 16 && |opts| > 0 && See(s, opts[0]) == Some(s') && |s'.name| == 16
    ensures Walk(opts, s) == if Complete(s') then Some(s') else Walk(opts[1..], s')
    ensures Walk([], s) == Some(s)
  {
  }

  lemma {:induction false} SecondId(name: seq<byte>, b: seq<byte>)
    requires |name| == 16 && |b| <= 15
    ensures Overlay(name, b) == Pad(b) <==> forall k :: |b| <= k < 16 ==> name[k] == 0
  {
    var after := Overlay(name, b);
    assert forall k :: 0 <= k < |b| ==> after[k] == Pad(b)[k];
    assert forall k :: |b| <= k < 16 ==> after[k] == name[k] && Pad(b)[k] == 0;
  }

  lemma {:induction false} PadBytes(a: seq<byte>, b: seq<byte>)
    requires |a| <= 15
    ensures (forall k :: |b| <= k < 16 ==> Pad(a)[k] == 0) <==> (forall k :: |b| <= k < |a| ==> a[k] == 0)
  {
    assert forall k :: 0 <= k < |a| ==> Pad(a)[k] == a[k];
    assert forall k :: |a| <= k < 16 ==> Pad(a)[k] == 0;
  }

  predicate AnyOversized(opts: seq<Opt>) { exists i :: 0 <= i < |opts| && Oversized(opts[i]) }

  /**
   With at most one Relay Message and at most one interface-id that says something, the walk
   fails if and only if that id does not fit the buffer it is copied to.
   */
  lemma {:induction false} OverrunIff(opts: seq<Opt>, s: Seen)
    requires |s.name| == 16
    requires (if s.relay.Some? then 1 else 0) + RelayCount(opts) <= 1
    requires (if s.name != ZEROS then 1 else 0) + IdCount(opts) <= 1
    ensures Walk(opts, s) == None <==> AnyOversized(opts)
  {
    if |opts| > 0 {
      assert opts == [opts[0]] + opts[1..];
      var r := See(s, opts[0]);
      if r == None {
        assert Oversized(opts[0]);
      } else if Complete(r.value) {
        FewIds(opts, s);
      } else {
        OverrunRest(opts, s);
        OverrunIff(opts[1..], r.value);
      }
    }
  }

  lemma {:induction false} OverrunRest(opts: seq<Opt>, s: Seen)
    requires |s.name| == 16 && |opts| > 0 && See(s, opts[0]).Some?
    requires (if s.name != ZEROS then 1 else 0) + IdCount(opts) <= 1
    ensures (if See(s, opts[0]).value.name != ZEROS then 1 else 0) + IdCount(opts[1..]) <= 1
    ensures AnyOversized(opts) <==> AnyOversized(opts[1..])
  {
    assert !IsId(opts[0]) && opts[0].code == OPTION_INTERFACE_ID ==> Overlay(s.name, opts[0].data) == s.name;
    if AnyOversized(opts) {
      var i :| 0 <= i < |opts| && Oversized(opts[i]);
      assert Oversized(opts[1..][i - 1]);
    }
    if AnyOversized(opts[1..]) {
      var i :| 0 <= i < |opts[1..]| && Oversized(opts[1..][i]);
      assert Oversized(opts[i + 1]);
    }
  }

  /** When both are found, no further id that says something is left. */
  lemma {:induction false} FewIds(opts: seq<Opt>, s: Seen)
    requires |s.name| == 16 && |opts| > 0 && See(s, opts[0]).Some? && Complete(See(s, opts[0]).value)
    requires (if s.name != ZEROS then 1 else 0) + IdCount(opts) <= 1
    ensures !AnyOversized(opts)
  {
    OverrunRest(opts, s);
    if AnyOversized(opts[1..]) {
      var i :| 0 <= i < |opts[1..]| && Oversized(opts[1..][i]);
      IdCounted(opts[1..], i);
    }
  }

  lemma {:induction false} IdCounted(opts: seq<Opt>, i: nat)
    requires i < |opts| && IsId(opts[i])
    ensures IdCount(opts) > 0
  {
    if i > 0 {
      IdCounted(opts[1..], i - 1);
    }
  }
}
