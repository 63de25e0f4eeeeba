/** sem_5/isa/proj/d6r.cpp: the relay between the clients of a link and a DHCPv6 server. */
module Relay {
  import opened Options
  import opened RelayFormat

  // ---------- building a Relay-forward ----------

  /** The messages of a client that are relayed. */
  predicate Relayed(kind: byte) { kind in {1, 3, 4, 5, 6, 8, 9, 11} }

  /** The options of a Relay-forward: the client's message, its MAC address and the name of its interface. */
  function ForwardOpts(msg: seq<byte>, mac: seq<byte>, ifname: seq<byte>): (opts: seq<Opt>)
    requires |msg| < 0x10000 && |mac| == 6 && |ifname| < 16
    ensures AllEncodable(opts)
  {
    [Opt(OPTION_RELAY_MSG, msg), Opt(OPTION_CLIENT_LINKLAYER_ADDR, Bytes16(1) + mac), Opt(OPTION_INTERFACE_ID, ifname)]
  }

  /** Which bytes of a buffer are written, given that a further `n` are written at `at`. */
  ghost function Wrote(done: seq<bool>, at: nat, n: nat): (r: seq<bool>)
    requires at + n <= |done|
    ensures |r| == |done|
  {
    done[..at] + seq(n, _ => true) + done[at + n..]
  }

  /** The bytes of `b` that are written agree with `want`. */
  ghost predicate Agrees(b: seq<byte>, want: seq<byte>, done: seq<bool>) {
    |b| == |want| == |done| && forall k :: 0 <= k < |b| && done[k] ==> b[k] == want[k]
  }

  /** The bytes of `want` at `at` are `data`, and none is written yet. */
  ghost predicate Pending(want: seq<byte>, done: seq<bool>, at: nat, data: seq<byte>) {
    && |done| == |want| && at + |data| <= |want|
    && want[at..at + |data|] == data
    && forall k :: at <= k < at + |data| ==> !done[k]
  }

  /** memcpy to offset `at` of a buffer that is to become `want`; no byte is written twice. */
  method Store(buf: array<byte>, at: nat, data: seq<byte>, ghost want: seq<byte>, ghost done: seq<bool>)
      returns (ghost done': seq<bool>)
    requires Agrees(buf[..], want, done) && Pending(want, done, at, data)
    modifies buf
    ensures Agrees(buf[..], want, done') && done' == Wrote(done, at, |data|)
  {
    for i := 0 to |data|
      invariant buf[at..at + i] == data[..i]
      invariant forall k :: 0 <= k < buf.Length && !(at <= k < at + i) ==> buf[k] == old(buf[k])
    {
      buf[at + i] := data[i];
    }
    done' := Wrote(done, at, |data|);
    assert buf[at..at + |data|] == data;
    forall k | 0 <= k < buf.Length && done'[k]
      ensures buf[k] == want[k]
    {
      if at <= k < at + |data| {
        assert buf[k] == buf[at..at + |data|][k - at] == want[at..at + |data|][k - at];
      }
    }
  }

  ghost predicate AllDone(done: seq<bool>) { forall k :: 0 <= k < |done| ==> done[k] }

  lemma {:induction false} AllWritten(b: seq<byte>, want: seq<byte>, done: seq<bool>)
    requires Agrees(b, want, done) && AllDone(done)
    ensures b == want
  {
  }

  lemma {:induction false} WroteMore(done: seq<bool>, at: nat, n: nat, m: nat)
    requires at + n + m <= |done|
    ensures Wrote(Wrote(done, at, n), at + n, m) == Wrote(done, at, n + m)
    ensures Wrote(Wrote(done, at + n, m), at, n) == Wrote(done, at, n + m)
  {
  }

  /** Of two adjoining parts, either can be written first. */
  lemma {:induction false} PendingParts(want: seq<byte>, done: seq<bool>, at: nat, a: seq<byte>, b: seq<byte>)
    requires Pending(want, done, at, a + b)
    ensures Pending(want, done, at, a) && Pending(want, Wrote(done, at, |a|), at + |a|, b)
    ensures Pending(want, done, at + |a|, b) && Pending(want, Wrote(done, at + |a|, |b|), at, a)
  {
    var w := want[at..at + |a + b|];
    assert want[at..at + |a|] == w[..|a|] == a;
    assert want[at + |a|..at + |a| + |b|] == w[|a|..] == b;
  }

  /** The fields of the fixed part, in the order of the code. */
  method FillHeader(buf: array<byte>, link: seq<byte>, peer: seq<byte>, ghost want: seq<byte>, ghost done: seq<bool>)
      returns (ghost done': seq<bool>)
    requires |link| == 16 && |peer| == 16
    requires Agrees(buf[..], want, done) && Pending(want, done, 0, ([RELAY_FORW] + [0]) + (link + peer))
    modifies buf
    ensures Agrees(buf[..], want, done') && done' == Wrote(done, 0, HEADER)
  {
    PendingParts(want, done, 0, [RELAY_FORW] + [0], link + peer);
    PendingParts(want, done, 0, [RELAY_FORW], [0]);
    WroteMore(done, 0, 1, 1);
    done' := Wrote(done, 0, 2);
    PendingParts(want, done', 2, link, peer);
    WroteMore(done', 2, 16, 16);
    WroteMore(done, 0, 2, 32);
    hide Agrees, Pending, Wrote;
    done' := Store(buf, 1, [0], want, done);
    done' := Store(buf, 0, [RELAY_FORW], want, done');
    done' := Store(buf, 18, peer, want, done');
    done' := Store(buf, 2, link, want, done');
  }

  lemma {:induction false} OptionParts(want: seq<byte>, done: seq<bool>, at: nat, c: seq<byte>, l: seq<byte>,
                                       data: seq<byte>, more: seq<byte>)
    requires |c| == |l| == 2 && Pending(want, done, at, c + l + (data + more))
    ensures Pending(want, done, at, c) && at + 4 + |data| + |more| <= |done|
    ensures var done1 := Wrote(done, at, 2);
      && Pending(want, done1, at + 2, l)
      && var done2 := Wrote(done1, at + 2, 2);
      && Pending(want, done2, at + 4, data)
      && var done3 := Wrote(done2, at + 4, |data|);
      && Pending(want, done3, at + 4 + |data|, more)
      && Wrote(done3, at + 4 + |data|, |more|) == Wrote(done, at, 4 + |data + more|)
  {
    PendingParts(want, done, at, c + l, data + more);
    PendingParts(want, done, at, c, l);
    WroteMore(done, at, 2, 2);
    PendingParts(want, Wrote(done, at, 4), at + 4, data, more);
    WroteMore(Wrote(done, at, 4), at + 4, |data|, |more|);
    WroteMore(done, at, 4, |data + more|);
    hide Pending, Wrote;
  }

  /** The fields of an option whose data are `data` and then `more`. */
  method FillOption(buf: array<byte>, at: nat, code: nat, data: seq<byte>, more: seq<byte>,
                    ghost want: seq<byte>, ghost done: seq<bool>)
      returns (ghost done': seq<bool>)
    requires code < 0x10000 && |data + more| < 0x10000
    requires Agrees(buf[..], want, done) && Pending(want, done, at, EncodeOpt(Opt(code, data + more)))
    modifies buf
    ensures Agrees(buf[..], want, done') && done' == Wrote(done, at, 4 + |data + more|)
  {
    var c, l := Bytes16(code), Bytes16(|data + more|);
    OptionParts(want, done, at, c, l, data, more);
    hide Agrees, Pending, Wrote, EncodeOpt, Bytes16;
    done' := Store(buf, at, c, want, done);
    done' := Store(buf, at + 2, l, want, done');
    done' := Store(buf, at + 4, data, want, done');
    done' := Store(buf, at + 4 + |data|, more, want, done');
  }

  /** A Relay-forward is its fixed part and its three options. */
  lemma {:induction false} ForwardParts(link: seq<byte>, peer: seq<byte>, opts: seq<Opt>)
    requires |link| == 16 && |peer| == 16 && |opts| == 3 && AllEncodable(opts)
    ensures Encode(RELAY_FORW, 0, link, peer, opts) ==
      ([RELAY_FORW] + [0]) + (link + peer) + (EncodeOpt(opts[0]) + (EncodeOpt(opts[1]) + EncodeOpt(opts[2])))
  {
    assert EncodeOpts(opts[3..]) == [];
    assert opts[2..][1..] == opts[3..];
    assert opts[1..][1..] == opts[2..];
    assert EncodeOpts(opts[1..]) == EncodeOpt(opts[1]) + EncodeOpt(opts[2]);
    hide EncodeOpts, EncodeOpt;
  }

  lemma {:induction false} AllPending(want: seq<byte>)
    ensures Pending(want, seq(|want|, _ => false), 0, want)
  {
  }

  /**
   handle_packet_from_client 311-356: the message sent to the server for the client's message
   `msg`, which is the payload of a UDP datagram.  Every byte of the buffer is written, and
   written once.  Relayed are Solicit, Request, Confirm, Renew, Rebind, Release, Decline and
   Information-request, by their numbers in section 7.3 of RFC 8415.
   */
  method BuildForward(link: seq<byte>, peer: seq<byte>, msg: seq<byte>, mac: seq<byte>, ifname: seq<byte>)
      returns (out: Option<seq<byte>>)
    requires |link| == 16 && |peer| == 16 && |mac| == 6 && |ifname| < 16 && 0 < |msg| <= 0xFFFF - 8
    ensures out ==
      if Relayed(msg[0]) then Some(Encode(RELAY_FORW, 0, link, peer, ForwardOpts(msg, mac, ifname))) else None
    ensures out.Some? <==> msg[0] in {1, 3, 4, 5, 6, 8, 9, 11}
    ensures out.Some? ==> ForwardLayout(out.value, link, peer, msg, mac, ifname)
  {
    hide ForwardLayout, Encode, EncodeOpt, ForwardOpts, Agrees, Pending, Wrote, AllDone;
    if !Relayed(msg[0]) {
      return None;
    }
    ForwardBytes(link, peer, msg, mac, ifname);
    var size := HEADER + 4 + |msg| + 12 + 4 + |ifname|;
    var buf := new byte[size];
    ghost var want := Encode(RELAY_FORW, 0, link, peer, ForwardOpts(msg, mac, ifname));
    ghost var done := seq(size, _ => false);
    ForwardPending(link, peer, msg, mac, ifname, want, done);
    NothingWritten(buf[..], want, done);
    assert msg + [] == msg && ifname + [] == ifname;
    done := FillHeader(buf, link, peer, want, done);
    var relay := HEADER;
    done := FillOption(buf, relay, OPTION_RELAY_MSG, msg, [], want, done);
    var linkLayer := relay + 4 + |msg|;
    done := FillOption(buf, linkLayer, OPTION_CLIENT_LINKLAYER_ADDR, Bytes16(1), mac, want, done);
    var interfaceId := linkLayer + 12;
    done := FillOption(buf, interfaceId, OPTION_INTERFACE_ID, ifname, [], want, done);
    AllWritten(buf[..], want, done);
    out := Some(buf[..]);
  }

  /**
   A Relay-forward, byte by byte: type 12 and no hops (RFC 8415 section 9.1), the addresses, option 9 with
   the message (21.10), option 79 with hardware type 1 and the MAC address (RFC 6939 section 4), and
   option 18 with the name of the interface (21.18).
   */
  ghost predicate ForwardLayout(b: seq<byte>, link: seq<byte>, peer: seq<byte>, msg: seq<byte>, mac: seq<byte>,
                                ifname: seq<byte>) {
    var at := 38 + |msg|;
    && |link| == |peer| == 16 && |mac| == 6 && |b| == at + 16 + |ifname|
    && b[0] == 12 && b[1] == 0 && b[2..18] == link && b[18..34] == peer
    && b[34] == 0 && b[35] == 9 && b[36] == |msg| / 256 && b[37] == |msg| % 256 && b[38..at] == msg
    && b[at..at + 6] == [0, 79, 0, 8, 0, 1] && b[at + 6..at + 12] == mac
    && b[at + 12..at + 16] == [0, 18, 0, |ifname|] && b[at + 16..] == ifname
  }

  lemma {:induction false} ForwardBytes(link: seq<byte>, peer: seq<byte>, msg: seq<byte>, mac: seq<byte>,
                                        ifname: seq<byte>)
    requires |link| == 16 && |peer| == 16 && |mac| == 6 && |ifname| < 16 && |msg| <= 0xFFFF - 8
    ensures var b := Encode(RELAY_FORW, 0, link, peer, ForwardOpts(msg, mac, ifname));
      ForwardLayout(b, link, peer, msg, mac, ifname)
  {
    var opts := ForwardOpts(msg, mac, ifname);
    var b, at := Encode(RELAY_FORW, 0, link, peer, opts), 38 + |msg|;
    ForwardParts(link, peer, opts);
    var o1, o2, o3 := EncodeOpt(opts[0]), EncodeOpt(opts[1]), EncodeOpt(opts[2]);
    assert o1 == [0, 9, |msg| / 256, |msg| % 256] + msg;
    assert o2 == [0, 79, 0, 8, 0, 1] + mac;
    assert o3 == [0, 18, 0, |ifname|] + ifname;
    hide Encode, EncodeOpt, ForwardOpts;
    assert b == [12, 0] + link + peer + (o1 + (o2 + o3));
    assert b[2..18] == link && b[18..34] == peer && b[34..at] == o1 && b[at..at + 12] == o2 && b[at + 12..] == o3;
    assert b[38..at] == o1[4..] && b[34..38] == o1[..4];
    assert b[at..at + 6] == o2[..6] && b[at + 6..at + 12] == o2[6..];
    assert b[at + 12..at + 16] == o3[..4] && b[at + 16..] == o3[4..];
  }

  lemma {:induction false} NothingWritten(b: seq<byte>, want: seq<byte>, done: seq<bool>)
    requires |b| == |want| == |done| && forall k :: 0 <= k < |done| ==> !done[k]
    ensures Agrees(b, want, done)
  {
  }

  /** The parts of a Relay-forward, one after the other, are all of it. */
  lemma {:induction false} ForwardPending(link: seq<byte>, peer: seq<byte>, msg: seq<byte>, mac: seq<byte>,
                                          ifname: seq<byte>,
                                          want: seq<byte>, done: seq<bool>)
    requires |link| == 16 && |peer| == 16 && |mac| == 6 && |ifname| < 16 && |msg| <= 0xFFFF - 8
    requires want == Encode(RELAY_FORW, 0, link, peer, ForwardOpts(msg, mac, ifname))
    requires done == seq(HEADER + 4 + |msg| + 12 + 4 + |ifname|, _ => false)
    ensures |want| == |done| && Pending(want, done, 0, ([RELAY_FORW] + [0]) + (link + peer))
    ensures var done1 := Wrote(done, 0, HEADER);
      && Pending(want, done1, HEADER, EncodeOpt(Opt(OPTION_RELAY_MSG, msg)))
      && var done2, at2 := Wrote(done1, HEADER, 4 + |msg|), HEADER + 4 + |msg|;
      && Pending(want, done2, at2, EncodeOpt(Opt(OPTION_CLIENT_LINKLAYER_ADDR, Bytes16(1) + mac)))
      && var done3, at3 := Wrote(done2, at2, 12), at2 + 12;
      && Pending(want, done3, at3, EncodeOpt(Opt(OPTION_INTERFACE_ID, ifname)))
      && AllDone(Wrote(done3, at3, 4 + |ifname|))
  {
    var opts, head := ForwardOpts(msg, mac, ifname), ([RELAY_FORW] + [0]) + (link + peer);
    var a, b, c := EncodeOpt(opts[0]), EncodeOpt(opts[1]), EncodeOpt(opts[2]);
    var done1 := Wrote(done, 0, HEADER);
    ForwardParts(link, peer, opts);
    assert |a| == 4 + |msg| && |b| == 12 && |c| == 4 + |ifname|;
    AllPending(want);
    hide Encode, EncodeOpt, Pending;
    PendingParts(want, done, 0, head, a + (b + c));
    PendingParts(want, done1, HEADER, a, b + c);
    PendingParts(want, Wrote(done1, HEADER, |a|), HEADER + |a|, b, c);
    WroteMore(done, 0, HEADER, |a|);
    WroteMore(done, 0, HEADER + |a|, |b|);
    WroteMore(done, 0, HEADER + |a| + |b|, |c|);
  }

  // ---------- taking a Relay-reply apart ----------

  /** What becomes of a message from the server; OutOfBuffer if an access would leave its buffer. */
  datatype Outcome =
    | WrongType
    | NoRelayMessage
    | OutOfBuffer
    | Send(peer: seq<byte>, name: seq<byte>, payload: seq<byte>)

  /** The first bytes of the buffer are a Relay-reply with these options. */
  ghost predicate IsReply(buffer: seq<byte>, readCount: nat, hops: byte, link: seq<byte>, peer: seq<byte>,
                          opts: seq<Opt>) {
    && readCount <= |buffer| && |link| == 16 && |peer| == 16 && |opts| > 0 && AllEncodable(opts)
    && buffer[..readCount] == Encode(RELAY_REPL, hops, link, peer, opts)
  }

  /** What the walk over the options leads to. */
  ghost function Answer(peer: seq<byte>, r: Option<Seen>): Outcome {
    match r
    case None => OutOfBuffer
    case Some(Seen(None, _)) => NoRelayMessage
    case Some(Seen(Some(payload), name)) => Send(peer, name, payload)
  }

  /** The option at `at` lies within the buffer. */
  predicate Held(buffer: seq<byte>, at: nat) {
    at + 4 <= |buffer| && at + 4 + U16(buffer, at + 2) <= |buffer|
  }

  function DataAt(buffer: seq<byte>, at: nat): seq<byte>
    requires Held(buffer, at)
  {
    buffer[at + 4..at + 4 + U16(buffer, at + 2)]
  }

  ghost function Pointed(buffer: seq<byte>, relay: nat): Option<seq<byte>>
    requires relay != 0 ==> Held(buffer, relay)
  {
    if relay == 0 then None else Some(DataAt(buffer, relay))
  }

  lemma {:induction false} ReplyParts(buffer: seq<byte>, readCount: nat, hops: byte, link: seq<byte>, peer: seq<byte>,
                                      opts: seq<Opt>)
    requires IsReply(buffer, readCount, hops, link, peer, opts)
    ensures HEADER < readCount && buffer[0] == RELAY_REPL && buffer[18..34] == peer
    ensures buffer[HEADER..readCount] == EncodeOpts(opts)
  {
    var b := buffer[..readCount];
    hide EncodeOpts;
    assert b == [RELAY_REPL, hops] + link + peer + EncodeOpts(opts);
    assert buffer[18..34] == b[18..34] == peer;
    assert buffer[0] == b[0];
    assert buffer[HEADER..readCount] == b[HEADER..];
  }

  /** What remains to be walked: the options `rest` from `at` on, from the state `s`. */
  ghost predicate Remaining(buffer: seq<byte>, at: nat, readCount: nat, rest: seq<Opt>, s: Seen, all: Option<Seen>) {
    && at <= readCount <= |buffer| && AllEncodable(rest) && |rest| > 0 && |s.name| == 16
    && buffer[at..readCount] == EncodeOpts(rest)
    && Walk(rest, s) == all
  }

  lemma {:induction false} RemainingStep(buffer: seq<byte>, at: nat, readCount: nat, rest: seq<Opt>, s: Seen,
                                         all: Option<Seen>)
    requires Remaining(buffer, at, readCount, rest, s, all)
    ensures Held(buffer, at) && U16(buffer, at) == rest[0].code && DataAt(buffer, at) == rest[0].data
    ensures See(s, rest[0]) == None ==> all == None
    ensures See(s, rest[0]).Some? ==>
      var s', next := See(s, rest[0]).value, at + 4 + |rest[0].data|;
      && |s'.name| == 16 && next <= readCount
      && (next == readCount || Complete(s') ==> all == Some(s'))
      && (next < readCount && !Complete(s') ==> Remaining(buffer, next, readCount, rest[1..], s', all))
  {
    HeadOption(buffer, at, readCount, rest);
    var next := at + 4 + |rest[0].data|;
    hide EncodeOpt;
    if next == readCount {
      assert EncodeOpts(rest[1..]) == buffer[next..readCount] == [];
      assert rest[1..] == [];
      if See(s, rest[0]).Some? {
        assert Walk(rest[1..], See(s, rest[0]).value) == See(s, rest[0]);
      }
    }
  }

  // ---------- the walk over any buffer ----------

  /** Where the n-th option starts, counting from 0, by the lengths that the buffer itself gives. */
  ghost function Offset(buffer: seq<byte>, n: nat): (at: nat)
    ensures at >= HEADER + 4 * n
  {
    if n == 0 then HEADER else
      var before := Offset(buffer, n - 1);
      before + 4 + if before + 4 <= |buffer| then U16(buffer, before + 2) else 0
  }

  /** The code of the n-th option, if the buffer holds its head. */
  ghost function CodeOf(buffer: seq<byte>, n: nat): int {
    if Offset(buffer, n) + 4 <= |buffer| then U16(buffer, Offset(buffer, n)) else -1
  }

  /** Looking at the n-th option touches nothing outside the buffer and the 16 bytes for the name. */
  ghost predicate Fine(buffer: seq<byte>, n: nat) {
    var at := Offset(buffer, n);
    && at + 4 <= |buffer|
    && (CodeOf(buffer, n) == OPTION_INTERFACE_ID ==> U16(buffer, at + 2) <= 16 && Held(buffer, at))
  }

  /** The last Relay Message among the first n options, or 0. */
  ghost function RelayOf(buffer: seq<byte>, n: nat): nat {
    if n == 0 then 0
    else if CodeOf(buffer, n - 1) == OPTION_RELAY_MSG then Offset(buffer, n - 1)
    else RelayOf(buffer, n - 1)
  }

  /** The name after the first n options. */
  ghost function NameOf(buffer: seq<byte>, n: nat): (name: seq<byte>)
    ensures |name| == 16
  {
    if n == 0 then ZEROS
    else if CodeOf(buffer, n - 1) == OPTION_INTERFACE_ID && Fine(buffer, n - 1)
    then Overlay(NameOf(buffer, n - 1), DataAt(buffer, Offset(buffer, n - 1)))
    else NameOf(buffer, n - 1)
  }

  /** The walk does not go on after the first n options. */
  ghost predicate StopsAfter(buffer: seq<byte>, readCount: nat, n: nat) {
    Offset(buffer, n) >= readCount || (RelayOf(buffer, n) != 0 && NameOf(buffer, n)[0] != 0)
  }

  /** The n-th option is looked at. */
  ghost predicate Reached(buffer: seq<byte>, readCount: nat, n: nat) {
    forall m: nat :: m < n ==> Passed(buffer, readCount, m)
  }

  ghost predicate Passed(buffer: seq<byte>, readCount: nat, m: nat) {
    Fine(buffer, m) && !StopsAfter(buffer, readCount, m + 1)
  }

  /** The walk ends at the n-th option, with that outcome. */
  ghost predicate EndsAt(buffer: seq<byte>, readCount: nat, n: nat, o: Outcome)
    requires |buffer| >= HEADER
  {
    && Reached(buffer, readCount, n)
    && if !Fine(buffer, n) then o == OutOfBuffer else
         var relay := RelayOf(buffer, n + 1);
         && StopsAfter(buffer, readCount, n + 1)
         && o == if relay == 0 then NoRelayMessage
                 else if !Held(buffer, relay) then OutOfBuffer
                 else Send(buffer[18..34], NameOf(buffer, n + 1), DataAt(buffer, relay))
  }

  lemma {:induction false} BeforeReached(buffer: seq<byte>, readCount: nat, m: nat, n: nat)
    requires Reached(buffer, readCount, n) && m < n
    ensures Fine(buffer, m) && !StopsAfter(buffer, readCount, m + 1)
  {
    assert Passed(buffer, readCount, m);
  }

  lemma {:induction false} ReachedNext(buffer: seq<byte>, readCount: nat, n: nat)
    requires Reached(buffer, readCount, n) && Fine(buffer, n) && !StopsAfter(buffer, readCount, n + 1)
    ensures Reached(buffer, readCount, n + 1)
  {
    assert Passed(buffer, readCount, n);
    hide Passed, Fine, StopsAfter;
  }

  /** What looking at the n-th option does, once the buffer holds its head. */
  lemma {:induction false} OneOption(buffer: seq<byte>, n: nat)
    requires Offset(buffer, n) + 4 <= |buffer|
    ensures var at := Offset(buffer, n);
      var code, length := U16(buffer, at), U16(buffer, at + 2);
      && Offset(buffer, n + 1) == at + 4 + length
      && (Fine(buffer, n) <==> (code == OPTION_INTERFACE_ID ==> length <= 16 && Held(buffer, at)))
      && RelayOf(buffer, n + 1) == (if code == OPTION_RELAY_MSG then at else RelayOf(buffer, n))
      && (Fine(buffer, n) && code == OPTION_INTERFACE_ID ==>
            NameOf(buffer, n + 1) == Overlay(NameOf(buffer, n), DataAt(buffer, at)))
      && (code != OPTION_INTERFACE_ID ==> NameOf(buffer, n + 1) == NameOf(buffer, n))
  {
  }

  /** There is one place where the walk can end, and one outcome. */
  lemma {:induction false} EndsOnce(buffer: seq<byte>, readCount: nat, n: nat, o: Outcome, n': nat, o': Outcome)
    requires |buffer| >= HEADER && EndsAt(buffer, readCount, n, o) && EndsAt(buffer, readCount, n', o')
    ensures n == n' && o == o'
  {
    hide Fine, StopsAfter, Reached, RelayOf, NameOf, Held;
    if n < n' {
      BeforeReached(buffer, readCount, n, n');
    } else if n' < n {
      BeforeReached(buffer, readCount, n', n);
    }
  }

  /**
   The outcome on a buffer that says it is a Relay-reply: an access leaves the buffer or the
   bytes of the name exactly when an option that is looked at, or the message sent on, does not fit.
   */
  lemma {:induction false} OutOfBufferIff(buffer: seq<byte>, readCount: nat, n: nat, o: Outcome)
    requires |buffer| >= HEADER && EndsAt(buffer, readCount, n, o)
    ensures o == OutOfBuffer <==>
      || (exists m: nat :: Reached(buffer, readCount, m) && !Fine(buffer, m))
      || (RelayOf(buffer, n + 1) != 0 && !Held(buffer, RelayOf(buffer, n + 1)))
  {
    hide StopsAfter, RelayOf, NameOf, Held, Reached, Fine;
    if Fine(buffer, n) {
      forall m: nat | Reached(buffer, readCount, m)
        ensures Fine(buffer, m)
      {
        if m > n {
          BeforeReached(buffer, readCount, n, m);
        } else if m < n {
          BeforeReached(buffer, readCount, m, n);
        }
      }
    }
  }

  /**
   process_msg_from_server, up to the message that is sent on.  The walk keeps the offset `i`
   at the current option and ends, on any buffer, where EndsAt says.
   */
  method ProcessReply(buffer: seq<byte>, readCount: nat) returns (outcome: Outcome, ghost n: nat)
    requires |buffer| == BUFF_SIZE && readCount <= BUFF_SIZE
    ensures outcome == WrongType <==> buffer[0] != 13
    ensures buffer[0] == 13 ==> EndsAt(buffer, readCount, n, outcome)
  {
    n := 0;
    if buffer[0] != RELAY_REPL {
      return WrongType, n;
    }
    var i, option, relay: nat, name := HEADER, HEADER, 0, ZEROS;
    Unlooked(buffer, readCount);
    hide Reached, Fine, CodeOf, RelayOf, NameOf, Offset, DataAt, U16, Held, Overlay, EndsAt;
    while true
      invariant i == option == Offset(buffer, n) >= HEADER && |name| == 16
      invariant relay == RelayOf(buffer, n) && name == NameOf(buffer, n) && Reached(buffer, readCount, n)
      decreases BUFF_SIZE - i
    {
      if option + 4 > |buffer| {
        HeadOutside(buffer, n);
        EndsBadly(buffer, readCount, n);
        return OutOfBuffer, n;
      }
      OneOption(buffer, n);
      var code, length := U16(buffer, option), U16(buffer, option + 2);
      if code == OPTION_INTERFACE_ID {
        if length > |name| || !Held(buffer, option) {
          EndsBadly(buffer, readCount, n);
          return OutOfBuffer, n;
        }
        name := Overlay(name, DataAt(buffer, option));
      } else if code == OPTION_RELAY_MSG {
        relay := option;
      }
      i := i + length + 4;
      if i >= readCount || (relay != 0 && name[0] != 0) {
        break;
      }
      option := option + 4 + length;
      ReachedNext(buffer, readCount, n);
      n := n + 1;
    }
    EndsWell(buffer, readCount, n);
    if relay == 0 {
      return NoRelayMessage, n;
    }
    if !Held(buffer, relay) {
      return OutOfBuffer, n;
    }
    outcome := Send(buffer[18..34], name, DataAt(buffer, relay));
  }

  lemma {:induction false} EndsBadly(buffer: seq<byte>, readCount: nat, n: nat)
    requires |buffer| >= HEADER && Reached(buffer, readCount, n) && !Fine(buffer, n)
    ensures EndsAt(buffer, readCount, n, OutOfBuffer)
  {
    hide Reached, Fine;
  }

  lemma {:induction false} EndsWell(buffer: seq<byte>, readCount: nat, n: nat)
    requires |buffer| >= HEADER && Reached(buffer, readCount, n) && Fine(buffer, n)
    requires Offset(buffer, n + 1) >= readCount || (RelayOf(buffer, n + 1) != 0 && NameOf(buffer, n + 1)[0] != 0)
    ensures var relay := RelayOf(buffer, n + 1);
      EndsAt(buffer, readCount, n, if relay == 0 then NoRelayMessage
                                   else if !Held(buffer, relay) then OutOfBuffer
                                   else Send(buffer[18..34], NameOf(buffer, n + 1), DataAt(buffer, relay)))
  {
    hide Reached, Fine, RelayOf, NameOf, Offset, Held, DataAt;
  }

  lemma {:induction false} HeadOutside(buffer: seq<byte>, n: nat)
    requires Offset(buffer, n) + 4 > |buffer|
    ensures !Fine(buffer, n)
  {
  }

  lemma {:induction false} Unlooked(buffer: seq<byte>, readCount: nat)
    ensures Offset(buffer, 0) == HEADER && RelayOf(buffer, 0) == 0 && NameOf(buffer, 0) == ZEROS
    ensures Reached(buffer, readCount, 0)
  {
  }

  // ---------- ... over a well-formed Relay-reply ----------

  /** The state of Walk after the first n options. */
  ghost function SeenAfter(buffer: seq<byte>, n: nat): (s: Seen)
    requires RelayOf(buffer, n) != 0 ==> Held(buffer, RelayOf(buffer, n))
    ensures |s.name| == 16
  {
    Seen(Pointed(buffer, RelayOf(buffer, n)), NameOf(buffer, n))
  }

  /** Looking at the n-th option, when it is `o`, does what See says. */
  lemma {:induction false} SeesOption(buffer: seq<byte>, n: nat, o: Opt)
    requires RelayOf(buffer, n) != 0 ==> Held(buffer, RelayOf(buffer, n))
    requires var at := Offset(buffer, n); Held(buffer, at) && U16(buffer, at) == o.code && DataAt(buffer, at) == o.data
    ensures Offset(buffer, n + 1) == Offset(buffer, n) + 4 + |o.data|
    ensures Fine(buffer, n) <==> See(SeenAfter(buffer, n), o).Some?
    ensures RelayOf(buffer, n + 1) != 0 ==> Held(buffer, RelayOf(buffer, n + 1))
    ensures Fine(buffer, n) ==> See(SeenAfter(buffer, n), o) == Some(SeenAfter(buffer, n + 1))
    ensures Complete(SeenAfter(buffer, n)) <==> RelayOf(buffer, n) != 0 && NameOf(buffer, n)[0] != 0
    ensures Complete(SeenAfter(buffer, n + 1)) <==> RelayOf(buffer, n + 1) != 0 && NameOf(buffer, n + 1)[0] != 0
  {
    OneOption(buffer, n);
    hide RelayOf, NameOf, Offset, Fine, Overlay;
  }

  lemma {:induction false} EndsReached(buffer: seq<byte>, readCount: nat, n: nat, o: Outcome)
    requires |buffer| >= HEADER && EndsAt(buffer, readCount, n, o)
    ensures Reached(buffer, readCount, n)
  {
  }

  lemma {:induction false} EndsHere(buffer: seq<byte>, readCount: nat, n: nat, o: Outcome)
    requires |buffer| >= HEADER && EndsAt(buffer, readCount, n, o)
    requires RelayOf(buffer, n + 1) != 0 ==> Held(buffer, RelayOf(buffer, n + 1))
    ensures !Fine(buffer, n) ==> o == Answer(buffer[18..34], None)
    ensures Fine(buffer, n) ==>
      && StopsAfter(buffer, readCount, n + 1)
      && o == Answer(buffer[18..34], Some(SeenAfter(buffer, n + 1)))
  {
    hide RelayOf, NameOf, Offset, Fine, StopsAfter, Reached, DataAt, Held;
  }

  /** Looking at option `m` leaves the walk over the options where the walk over the buffer is. */
  lemma {:induction false} AsWalkStep(buffer: seq<byte>, readCount: nat, m: nat, rest: seq<Opt>, all: Option<Seen>)
    requires RelayOf(buffer, m) != 0 ==> Held(buffer, RelayOf(buffer, m))
    requires Remaining(buffer, Offset(buffer, m), readCount, rest, SeenAfter(buffer, m), all)
    ensures |rest| > 0 && (RelayOf(buffer, m + 1) != 0 ==> Held(buffer, RelayOf(buffer, m + 1)))
    ensures !Fine(buffer, m) ==> all == None
    ensures Fine(buffer, m) && StopsAfter(buffer, readCount, m + 1) ==> all == Some(SeenAfter(buffer, m + 1))
    ensures Fine(buffer, m) && !StopsAfter(buffer, readCount, m + 1) ==>
      Remaining(buffer, Offset(buffer, m + 1), readCount, rest[1..], SeenAfter(buffer, m + 1), all)
  {
    RemainingStep(buffer, Offset(buffer, m), readCount, rest, SeenAfter(buffer, m), all);
    hide Remaining, RelayOf, NameOf, Offset, Fine, See, Complete, U16, Held, DataAt, SeenAfter;
    SeesOption(buffer, m, rest[0]);
  }
  /** From any option on, the walk over the buffer ends as the walk over the options that are left. */
  lemma {:induction false} EndsAsWalk(buffer: seq<byte>, readCount: nat, m: nat, rest: seq<Opt>, all: Option<Seen>,
                                      n: nat, o: Outcome)
    requires |buffer| >= HEADER && m <= n && EndsAt(buffer, readCount, n, o)
    requires RelayOf(buffer, m) != 0 ==> Held(buffer, RelayOf(buffer, m))
    requires Remaining(buffer, Offset(buffer, m), readCount, rest, SeenAfter(buffer, m), all)
    ensures o == Answer(buffer[18..34], all)
    decreases n - m
  {
    hide Remaining, RelayOf, NameOf, Offset, Fine, StopsAfter, See, Complete, Reached, U16, Held, DataAt, EndsAt,
      Answer;
    AsWalkStep(buffer, readCount, m, rest, all);
    EndsReached(buffer, readCount, n, o);
    if m < n {
      BeforeReached(buffer, readCount, m, n);
      EndsAsWalk(buffer, readCount, m + 1, rest[1..], all, n, o);
    } else {
      EndsHere(buffer, readCount, n, o);
    }
  }

  /**
   On a well-formed Relay-reply the outcome is what Walk says of its options, and an access
   leaves the bytes of the name exactly when an option that is looked at is an interface-id of
   more than 16 bytes.
   */
  lemma {:induction false} ReplyIsAnswered(buffer: seq<byte>, readCount: nat, hops: byte, link: seq<byte>,
                                           peer: seq<byte>,
                                           opts: seq<Opt>, n: nat, o: Outcome)
    requires IsReply(buffer, readCount, hops, link, peer, opts) && |buffer| >= HEADER && EndsAt(buffer, readCount, n, o)
    ensures o == Answer(peer, Walk(opts, Seen(None, ZEROS)))
    ensures o == OutOfBuffer <==> AnyOversized(opts[..Looked(opts, Seen(None, ZEROS))])
  {
    ReplyParts(buffer, readCount, hops, link, peer, opts);
    Unlooked(buffer, readCount);
    LooksOversized(opts);
    assert Remaining(buffer, HEADER, readCount, opts, SeenAfter(buffer, 0), Walk(opts, Seen(None, ZEROS)));
    hide Remaining, EndsAt, Walk, IsReply, Looked, AnyOversized;
    EndsAsWalk(buffer, readCount, 0, opts, Walk(opts, Seen(None, ZEROS)), n, o);
  }

  /** ... and, with one Relay Message and one interface-id at most, exactly when that id has more than 16 bytes. */
  lemma {:induction false} ReplyOverrunsIff(buffer: seq<byte>, readCount: nat, hops: byte, link: seq<byte>,
                                            peer: seq<byte>,
                                            opts: seq<Opt>, n: nat, o: Outcome)
    requires IsReply(buffer, readCount, hops, link, peer, opts) && |buffer| >= HEADER && EndsAt(buffer, readCount, n, o)
    requires RelayCount(opts) <= 1 && IdCount(opts) <= 1
    ensures o == OutOfBuffer <==> AnyOversized(opts)
  {
    hide EndsAt, Walk, IsReply, Looked, AnyOversized;
    ReplyIsAnswered(buffer, readCount, hops, link, peer, opts, n, o);
    LooksOversized(opts);
    OverrunIff(opts, Seen(None, ZEROS));
  }

  lemma {:induction false} LooksOversized(opts: seq<Opt>)
    ensures Walk(opts, Seen(None, ZEROS)) == None <==> AnyOversized(opts[..Looked(opts, Seen(None, ZEROS))])
  {
    var n := Looked(opts, Seen(None, ZEROS));
    NoneLookedAt(opts, Seen(None, ZEROS));
    assert forall i :: 0 <= i < n ==> opts[..n][i] == opts[i];
    if exists i :: 0 <= i < n && Oversized(opts[i]) {
      var i :| 0 <= i < n && Oversized(opts[i]);
      assert Oversized(opts[..n][i]);
    }
  }

  /**
   The options that the relay sends come back: a server that answers `reply` and returns the
   interface-id, with any options the relay does not look at, has `reply` sent on to the
   client from the client's interface.
   */
  lemma {:induction false} ReplyReachesItsInterface(opts: seq<Opt>, reply: seq<byte>, ifname: seq<byte>,
                                                    peer: seq<byte>)
    requires 0 < |ifname| <= 15 && ShortIds(opts) && RelayCount(opts) == 1 && IdCount(opts) == 1
    requires Opt(OPTION_RELAY_MSG, reply) in opts && Opt(OPTION_INTERFACE_ID, ifname) in opts
    ensures Answer(peer, Walk(opts, Seen(None, ZEROS))) == Send(peer, Pad(ifname), reply)
  {
    FoundInAnyOrder(opts, reply, ifname);
  }

  /** `name` in a buffer of 16 bytes, behind it zeros. */
  ghost predicate Padded(buffer: seq<byte>, name: seq<byte>) {
    |buffer| == 16 && |name| <= 16 && buffer[..|name|] == name && forall k :: |name| <= k < 16 ==> buffer[k] == 0
  }

  /** An option at `at`, byte by byte: code and length in network order, and the data. */
  ghost predicate OptionAt(b: seq<byte>, at: nat, code: nat, data: seq<byte>) {
    && code < 256 && at + 4 + |data| <= |b|
    && b[at] == 0 && b[at + 1] == code && b[at + 2] == |data| / 256 && b[at + 3] == |data| % 256
    && b[at + 4..at + 4 + |data|] == data
  }

  /**
   A Relay-reply byte by byte: type 13, the client's address at 18, and from 34 on option 18 with
   an interface name and option 9 with the reply, in either order.  The reply is sent to that
   address from that interface.
   */
  lemma {:induction false} ReplyInBytes(buffer: seq<byte>, readCount: nat, name: seq<byte>, reply: seq<byte>,
                                        n: nat, o: Outcome)
    requires |buffer| == BUFF_SIZE && readCount == 42 + |name| + |reply| <= BUFF_SIZE
    requires buffer[0] == 13 && 0 < |name| <= 15 && name[0] != 0
    requires || (OptionAt(buffer, 34, 18, name) && OptionAt(buffer, 38 + |name|, 9, reply))
             || (OptionAt(buffer, 34, 9, reply) && OptionAt(buffer, 38 + |reply|, 18, name))
    requires EndsAt(buffer, readCount, n, o)
    ensures o.Send? && o.peer == buffer[18..34] && o.payload == reply && Padded(o.name, name)
  {
    hide EndsAt;
    var id, msg := Opt(OPTION_INTERFACE_ID, name), Opt(OPTION_RELAY_MSG, reply);
    if OptionAt(buffer, 34, 18, name) && OptionAt(buffer, 38 + |name|, 9, reply) {
      TwoOptions(buffer, readCount, id, msg);
      AnswersInBytes(buffer, readCount, [id, msg], name, reply, n, o);
    } else {
      TwoOptions(buffer, readCount, msg, id);
      AnswersInBytes(buffer, readCount, [msg, id], name, reply, n, o);
    }
  }

  lemma {:induction false} TwoOptions(buffer: seq<byte>, readCount: nat, a: Opt, b: Opt)
    requires HEADER <= readCount == 42 + |a.data| + |b.data| <= |buffer| && buffer[0] == 13
    requires Encodable(a) && Encodable(b)
    requires OptionAt(buffer, 34, a.code, a.data) && OptionAt(buffer, 38 + |a.data|, b.code, b.data)
    ensures IsReply(buffer, readCount, buffer[1], buffer[2..18], buffer[18..34], [a, b])
  {
    var opts := [a, b];
    assert opts[1..] == [b] && [b][1..] == [];
    assert EncodeOpts([]) == [] && EncodeOpts([b]) == EncodeOpt(b) + EncodeOpts([]);
    assert EncodeOpts(opts) == EncodeOpt(a) + EncodeOpts([b]);
    assert buffer[34..38 + |a.data|] == EncodeOpt(a);
    assert buffer[38 + |a.data|..readCount] == EncodeOpt(b);
    hide EncodeOpt, EncodeOpts, OptionAt;
    var at := 38 + |a.data|;
    assert buffer[..readCount] ==
      [buffer[0], buffer[1]] + buffer[2..18] + buffer[18..34] + (buffer[34..at] + buffer[at..readCount]);
  }

  lemma {:induction false} AnswersInBytes(buffer: seq<byte>, readCount: nat, opts: seq<Opt>, name: seq<byte>,
                                          reply: seq<byte>, n: nat, o: Outcome)
    requires |buffer| >= HEADER && IsReply(buffer, readCount, buffer[1], buffer[2..18], buffer[18..34], opts)
    requires 0 < |name| <= 15 && EndsAt(buffer, readCount, n, o)
    requires var id, msg := Opt(OPTION_INTERFACE_ID, name), Opt(OPTION_RELAY_MSG, reply);
      opts == [id, msg] || opts == [msg, id]
    ensures o.Send? && o.peer == buffer[18..34] && o.payload == reply && Padded(o.name, name)
  {
    hide IsReply, EndsAt, Walk, Looked, AnyOversized;
    var peer := buffer[18..34];
    ReplyIsAnswered(buffer, readCount, buffer[1], buffer[2..18], peer, opts, n, o);
    TwoCounts(opts, name, reply);
    hide RelayCount, IdCount, Answer;
    ReplyReachesItsInterface(opts, reply, name, peer);
    assert Padded(Pad(name), name);
  }

  lemma {:induction false} TwoCounts(opts: seq<Opt>, name: seq<byte>, reply: seq<byte>)
    requires 0 < |name| <= 15
    requires var id, msg := Opt(OPTION_INTERFACE_ID, name), Opt(OPTION_RELAY_MSG, reply);
      opts == [id, msg] || opts == [msg, id]
    ensures ShortIds(opts) && RelayCount(opts) == 1 && IdCount(opts) == 1
    ensures Opt(OPTION_RELAY_MSG, reply) in opts && Opt(OPTION_INTERFACE_ID, name) in opts
  {
    FirstOption(opts);
    FirstOption(opts[1..]);
    assert opts[1..][1..] == [] && opts[0] in opts && opts[1] in opts;
    assert RelayCount([]) == 0 && IdCount([]) == 0;
    hide RelayCount, IdCount;
  }

  /** What BuildForward writes, the walk reads back. */
  lemma {:induction false} ForwardRoundTrip(msg: seq<byte>, mac: seq<byte>, ifname: seq<byte>)
    requires |msg| < 0x10000 && |mac| == 6 && |ifname| < 16
    ensures Walk(ForwardOpts(msg, mac, ifname), Seen(None, ZEROS)) == Some(Seen(Some(msg), Pad(ifname)))
  {
    var opts := ForwardOpts(msg, mac, ifname);
    assert opts[1..][1..] == opts[2..] && opts[2..][1..] == opts[3..] == [];
    var n := if ifname == [] then 0 else 1;
    assert RelayCount(opts[3..]) == 0 && IdCount(opts[3..]) == 0;
    assert RelayCount(opts[2..]) == 0 && IdCount(opts[2..]) == n;
    assert RelayCount(opts[1..]) == 0 && IdCount(opts[1..]) == n;
    assert opts[0] == Opt(OPTION_RELAY_MSG, msg) && opts[2] == Opt(OPTION_INTERFACE_ID, ifname);
    FoundInAnyOrder(opts, msg, ifname);
  }
}
