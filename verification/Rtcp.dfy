// The RTCP side of the RIST sender (examples/rist_tx.c): a loop over a compound
// datagram that remembers sender reports, measures a round trip on receiver
// reports and answers receiver reference times.
module Rtcp {
  import opened BigEndian
  import opened Chunks
  import opened Machine

  // ---------------------------------------------------------------------
  // Fields
  // ---------------------------------------------------------------------

  // Packet types, block types and sizes in bytes (sections 6.4.1 and 6.4.2 of
  // RFC 3550, sections 2, 4.4 and 4.5 of RFC 3611).
  const PT_SR := 200
  const PT_RR := 201
  const PT_XR := 207
  const SR_SIZE := 28
  const RR_SIZE := 32
  const XR_HEADER_SIZE := 8
  const RRTR_BT := 4
  const RRTR_SIZE := 12
  const DLRR_BT := 5
  const DLRR_SIZE := 16

  const UCLOCK_FREQ := 27_000_000

  type Packet = seq<byte>

  function U16At(p: seq<byte>, at: nat): nat
    requires at + 2 <= |p|
  {
    (p[at] as int) * 256 + p[at + 1] as int
  }

  function U32At(p: seq<byte>, at: nat): (r: nat)
    requires at + 4 <= |p|
    ensures r < 0x1_0000_0000
  {
    U16At(p, at) * 0x1_0000 + U16At(p, at + 2)
  }

  function U64At(p: seq<byte>, at: nat): u64
    requires at + 8 <= |p|
  {
    U32At(p, at) * 0x1_0000_0000 + U32At(p, at + 4)
  }

  predicate CheckHdr(p: seq<byte>)
    requires |p| >= 4
  {
    p[0] / 64 == 2
  }

  // The size announced by the header: rtcp_get_length counts 32-bit words
  // after the first.
  function Size(p: seq<byte>): nat
    requires |p| >= 4
  {
    4 + 4 * U16At(p, 2)
  }

  // The middle 32 bits of an NTP time.
  function Middle(ntp: u64): nat {
    ntp / 0x1_0000 % 0x1_0000_0000
  }

  // ---------------------------------------------------------------------
  // One packet
  // ---------------------------------------------------------------------

  // The two variables kept between datagrams, and the arrival time of the
  // datagram, which receiver reports overwrite; UINT64_MAX is unknown.
  datatype State = State(lastSrNtp: u64, lastSrCr: u64, crSys: u64)

  datatype Reply = Reply(crSys: Option<u64>, bytes: Packet)

  function WithSr(st: State, rtp: seq<byte>): State
    requires |rtp| >= SR_SIZE
  {
    State(U64At(rtp, 8), if st.crSys != UINT64_MAX then st.crSys else st.lastSrCr, st.crSys)
  }

  // A receiver report that quotes the last sender report.
  predicate Matches(st: State, rtp: seq<byte>)
    requires |rtp| >= 4
  {
    && |rtp| >= RR_SIZE && rtp[1] == PT_RR && rtp[0] % 32 >= 1
    && U32At(rtp, 24) == Middle(st.lastSrNtp)
  }

  function Hold(rtp: seq<byte>): nat
    requires |rtp| >= RR_SIZE
  {
    U64(U32At(rtp, 28) * UCLOCK_FREQ) / 65536
  }

  function WithRr(st: State, rtp: seq<byte>): State
    requires |rtp| >= RR_SIZE
  {
    if st.crSys != UINT64_MAX then
      st.(crSys := U64(U64(st.crSys - st.lastSrCr) - Hold(rtp)))
    else
      st
  }

  // The bytes rtp starts with ask for a reply.
  predicate Asks(rtp: seq<byte>)
    requires |rtp| >= 4
  {
    && |rtp| >= XR_HEADER_SIZE + RRTR_SIZE && rtp[1] == PT_XR
    && rtp[8] == RRTR_BT && (U16At(rtp, 10) + 1) * 4 == RRTR_SIZE
  }

  // The extended report sent back: no sender of its own, one DLRR block.
  function XrReply(ssrc: seq<byte>, ntp: u64): Packet {
    [0x80, PT_XR, 0, 5] + [0, 0, 0, 0] + [DLRR_BT, 0, 0, 3] + ssrc + Bytes32(Middle(ntp)) + [0, 0, 0, 0]
  }

  function ReplyTo(rtp: seq<byte>): Packet
    requires |rtp| >= XR_HEADER_SIZE + RRTR_SIZE
  {
    XrReply(rtp[4..8], U64At(rtp, 12))
  }

  // The switch.  It sees all the bytes that are left, not only the packet.
  function Handle(st: State, rtp: seq<byte>): (State, seq<Reply>)
    requires |rtp| >= 4
  {
    if rtp[1] == PT_SR && |rtp| >= SR_SIZE then
      (WithSr(st, rtp), [])
    else if Matches(st, rtp) then
      (WithRr(st, rtp), [])
    else if Asks(rtp) then
      (st, [Reply(if st.crSys != UINT64_MAX then Some(st.crSys) else None, ReplyTo(rtp))])
    else
      (st, [])
  }

  // ---------------------------------------------------------------------
  // The switch in bytes
  // ---------------------------------------------------------------------

  // The fields are numbers with the most significant byte first.
  lemma FieldNumbers(p: seq<byte>, at: nat)
    ensures at + 2 <= |p| ==> U16At(p, at) == Number(p[at..at + 2])
    ensures at + 4 <= |p| ==> U32At(p, at) == Number(p[at..at + 4])
    ensures at + 8 <= |p| ==> U64At(p, at) == Number(p[at..at + 8])
  {
    if at + 2 <= |p| {
      NumberOf(p[at..at + 2]);
    }
    if at + 4 <= |p| {
      NumberOf(p[at..at + 4]);
    }
    if at + 8 <= |p| {
      NumberOf(p[at + 4..at + 8]);
      assert p[at..at + 8] == p[at..at + 4] + p[at + 4..at + 8];
      NumberAppend(p[at..at + 4], p[at + 4..at + 8]);
    }
    hide Number;
  }

  // The middle of a time of 8 bytes are the 4 bytes in its middle.
  lemma MiddleField(p: seq<byte>, at: nat)
    requires at + 8 <= |p|
    ensures Middle(U64At(p, at)) == U32At(p, at + 2)
  {
    MiddleOf(U16At(p, at), U16At(p, at + 2), U16At(p, at + 4), U16At(p, at + 6));
  }

  lemma MiddleOf(a: nat, b: nat, c: nat, d: nat)
    requires a < 0x1_0000 && b < 0x1_0000 && c < 0x1_0000 && d < 0x1_0000
    ensures ((a * 0x1_0000 + b) * 0x1_0000_0000 + (c * 0x1_0000 + d)) / 0x1_0000 % 0x1_0000_0000 == b * 0x1_0000 + c
  {
    var x := (a * 0x1_0000 + b) * 0x1_0000_0000 + (c * 0x1_0000 + d);
    assert x / 0x1_0000 == a * 0x1_0000_0000 + (b * 0x1_0000 + c);
    Remainder(x / 0x1_0000, a, b * 0x1_0000 + c);
  }

  lemma SameField(p: seq<byte>, at: nat, q: seq<byte>, to: nat)
    requires at + 4 <= |p| && to + 4 <= |q|
    ensures U32At(p, at) == U32At(q, to) <==> p[at..at + 4] == q[to..to + 4]
    ensures Bytes32(U32At(p, at)) == p[at..at + 4]
  {
    hide Number, Bytes32, U32At;
    FieldNumbers(p, at);
    FieldNumbers(q, to);
    NumberBytes32(p[at..at + 4]);
    NumberBytes32(q[to..to + 4]);
  }

  lemma SubtractTwice(x: int, y: int, z: int)
    ensures U64(U64(x - y) - z) == U64(x - (y + z))
  {
  }

  // A sender report: its time is stored, and its arrival if that is known.
  lemma SenderReport(st: State, rtp: seq<byte>)
    requires |rtp| >= 28 && rtp[1] == 200
    ensures var (st', out) := Handle(st, rtp);
      && out == [] && st'.crSys == st.crSys && st'.lastSrNtp == Number(rtp[8..16])
      && st'.lastSrCr == if st.crSys != 0xFFFF_FFFF_FFFF_FFFF then st.crSys else st.lastSrCr
  {
    hide Number;
    FieldNumbers(rtp, 8);
  }

  // A receiver report with a block: it matches if it quotes the middle of the
  // stored time, and then the round trip replaces a known arrival time.
  lemma ReceiverReport(st: State, rtp: seq<byte>)
    requires |rtp| >= 32 && rtp[1] == 201 && rtp[0] % 32 >= 1
    ensures var hold := Number(rtp[28..32]) * 27_000_000 / 65_536;
      Handle(st, rtp) ==
        if Number(rtp[24..28]) == st.lastSrNtp / 0x1_0000 % 0x1_0000_0000 && st.crSys != 0xFFFF_FFFF_FFFF_FFFF then
          (st.(crSys := U64(st.crSys - st.lastSrCr - hold)), [])
        else
          (st, [])
  {
    hide Number, U64;
    FieldNumbers(rtp, 24);
    FieldNumbers(rtp, 28);
    SmallU64(U32At(rtp, 28) * 27_000_000);
    hide U32At;
    SubtractTwice(st.crSys, st.lastSrCr, Hold(rtp));
  }

  // A report whose first block is a receiver reference time is answered.
  lemma ReferenceTime(st: State, rtp: seq<byte>)
    requires |rtp| >= 20 && rtp[1] == 207 && rtp[8] == 4 && rtp[10] == 0 && rtp[11] == 2
    ensures Handle(st, rtp) == (st, [Reply(
      if st.crSys != 0xFFFF_FFFF_FFFF_FFFF then Some(st.crSys) else None,
      [0x80, 207, 0, 5] + [0, 0, 0, 0] + [5, 0, 0, 3] + rtp[4..8] + rtp[14..18] + [0, 0, 0, 0])])
  {
    MiddleField(rtp, 12);
    SameField(rtp, 14, rtp, 14);
    hide Bytes32, U32At, U64At, Middle;
  }

  // Nothing else does anything.
  lemma OtherPackets(st: State, rtp: seq<byte>)
    requires |rtp| >= 4
    requires !(rtp[1] == 200 && |rtp| >= 28)
    requires !(rtp[1] == 201 && |rtp| >= 32 && rtp[0] % 32 >= 1)
    requires !(rtp[1] == 207 && |rtp| >= 20 && rtp[8] == 4 && rtp[10] == 0 && rtp[11] == 2)
    ensures Handle(st, rtp) == (st, [])
  {
    hide U32At, U64At, ReplyTo, WithRr, WithSr;
  }

  // What a receiver report must quote of the sender report in front of it.
  lemma QuotedBytes(st: State, sr: seq<byte>, rr: seq<byte>)
    requires |sr| >= 28 && sr[1] == 200 && |rr| >= 4
    ensures Matches(Handle(st, sr).0, rr) <==>
      |rr| >= 32 && rr[1] == 201 && rr[0] % 32 >= 1 && rr[24..28] == sr[10..14]
  {
    MiddleField(sr, 8);
    if |rr| >= 32 {
      SameField(rr, 24, sr, 10);
    }
    hide U32At, U64At, Middle, ReplyTo;
  }

  // ---------------------------------------------------------------------
  // The walk over a datagram
  // ---------------------------------------------------------------------

  datatype Walk = Walk(visited: seq<Packet>, replies: seq<Reply>, st: State, rest: seq<byte>)

  // A packet the loop accepts starts here.
  predicate Starts(buf: seq<byte>) {
    |buf| >= 4 && CheckHdr(buf) && Size(buf) <= |buf|
  }

  function Parse(st: State, buf: seq<byte>): Walk
    decreases |buf|
  {
    if !Starts(buf) then
      Walk([], [], st, buf)
    else
      var (st', out) := Handle(st, buf);
      var w := Parse(st', buf[Size(buf)..]);
      Walk([buf[..Size(buf)]] + w.visited, out + w.replies, w.st, w.rest)
  }

  // Exactly one packet, as its header announces it (section 6.1 of RFC 3550).
  predicate WellFormed(p: Packet) {
    |p| >= 4 && CheckHdr(p) && Size(p) == |p|
  }

  ghost predicate AllWellFormed(ps: seq<Packet>) {
    forall i: nat :: i < |ps| ==> WellFormed(ps[i])
  }

  lemma ParseStep(st: State, buf: seq<byte>)
    requires Starts(buf)
    ensures WellFormed(buf[..Size(buf)]) && Size(buf) > 0
    ensures var w := Parse(Handle(st, buf).0, buf[Size(buf)..]);
      Parse(st, buf) == Walk([buf[..Size(buf)]] + w.visited, Handle(st, buf).1 + w.replies, w.st, w.rest)
  {
    hide Handle;
  }

  lemma ParseStops(st: State, buf: seq<byte>)
    ensures !Starts(buf) ==> Parse(st, buf) == Walk([], [], st, buf)
  {
  }

  // On arbitrary bytes the packets visited are well-formed and tile a prefix
  // of the datagram, and where the loop stops no well-formed packet starts.
  lemma {:induction false} VisitedTile(st: State, buf: seq<byte>)
    ensures var w := Parse(st, buf);
      && Flatten(w.visited) + w.rest == buf
      && AllWellFormed(w.visited)
      && !Starts(w.rest)
    decreases |buf|
  {
    FlattenCons([]);
    ParseStops(st, buf);
    hide Handle, Parse, Flatten, WellFormed;
    if !Starts(buf) {
      assert [] + buf == buf;
    } else {
      ParseStep(st, buf);
      hide AllWellFormed;
      var n := Size(buf);
      hide Size;
      VisitedTile(Handle(st, buf).0, buf[n..]);
      var w := Parse(Handle(st, buf).0, buf[n..]);
      assert buf == buf[..n] + buf[n..];
      TileCons(buf[..n], w.visited, w.rest);
    }
  }

  // The same in bytes.
  lemma VisitedBytes(st: State, buf: seq<byte>)
    ensures forall i: nat :: i < |Parse(st, buf).visited| ==>
      var p := Parse(st, buf).visited[i];
      |p| >= 4 && p[0] / 64 == 2 && |p| == 4 * (1 + 256 * (p[2] as int) + p[3] as int)
    ensures var r := Parse(st, buf).rest;
      |r| < 4 || r[0] / 64 != 2 || |r| < 4 * (1 + 256 * (r[2] as int) + r[3] as int)
  {
    VisitedTile(st, buf);
    hide Parse, Flatten;
    forall i: nat | i < |Parse(st, buf).visited|
      ensures WellFormed(Parse(st, buf).visited[i])
    {
    }
  }

  lemma TileCons(p: Packet, visited: seq<Packet>, rest: seq<byte>)
    requires WellFormed(p) && AllWellFormed(visited)
    ensures Flatten([p] + visited) + rest == p + (Flatten(visited) + rest)
    ensures AllWellFormed([p] + visited)
  {
    hide Flatten, WellFormed;
    FlattenConcat([p], visited);
    FlattenOne(p);
    Associate(p, Flatten(visited), rest);
  }

  // A packet in front of other bytes is found whole.
  lemma Front(p: Packet, back: seq<byte>)
    requires WellFormed(p)
    ensures Starts(p + back) && Size(p + back) == |p|
    ensures (p + back)[..|p|] == p && (p + back)[|p|..] == back
  {
    assert (p + back)[2] == p[2] && (p + back)[3] == p[3];
  }

  lemma ParseFront(st: State, p: Packet, back: seq<byte>)
    requires WellFormed(p)
    ensures var (st', out) := Handle(st, p + back);
      var w := Parse(st', back);
      Parse(st, p + back) == Walk([p] + w.visited, out + w.replies, w.st, w.rest)
  {
    hide Handle;
    Front(p, back);
  }

  // ---------------------------------------------------------------------
  // The state in the middle of a datagram
  // ---------------------------------------------------------------------

  // The bytes that are left when the first of these packets is visited.
  function Left(ps: seq<Packet>, back: seq<byte>): seq<byte>
    requires ps != []
  {
    ps[0] + (Flatten(ps[1..]) + back)
  }

  lemma LeftLong(ps: seq<Packet>, back: seq<byte>)
    requires ps != [] && AllWellFormed(ps)
    ensures |Left(ps, back)| >= 4 && Left(ps, back) == ps[0] + (Flatten(ps[1..]) + back)
    ensures WellFormed(ps[0]) && AllWellFormed(ps[1..])
  {
  }

  // The state after visiting the packets ps in front of the bytes back.
  ghost function Behind(st: State, ps: seq<Packet>, back: seq<byte>): State
    requires AllWellFormed(ps)
    decreases |ps|
  {
    if ps == [] then st else Behind(Handle(st, Left(ps, back)).0, ps[1..], back)
  }

  lemma {:induction false} ParseBehind(st: State, ps: seq<Packet>, back: seq<byte>)
    requires AllWellFormed(ps)
    ensures var w, v := Parse(st, Flatten(ps) + back), Parse(Behind(st, ps, back), back);
      w.visited == ps + v.visited && w.st == v.st && w.rest == v.rest
    decreases |ps|
  {
    FlattenCons(ps);
    hide Handle, Parse, Flatten, WellFormed;
    if ps == [] {
      assert [] + back == back && [] + Parse(st, back).visited == Parse(st, back).visited;
    } else {
      LeftLong(ps, back);
      var p, later := ps[0], Flatten(ps[1..]) + back;
      Associate(p, Flatten(ps[1..]), back);
      ParseFront(st, p, later);
      ParseBehind(Handle(st, p + later).0, ps[1..], back);
      Reassociate(ps, Parse(Behind(st, ps, back), back).visited);
    }
  }

  // Any datagram leaves the state behind the packets visited in it.
  lemma WalkBehind(st: State, buf: seq<byte>)
    ensures var w := Parse(st, buf);
      && AllWellFormed(w.visited) && Flatten(w.visited) + w.rest == buf
      && w.st == Behind(st, w.visited, w.rest)
  {
    hide Parse, Behind;
    var w := Parse(st, buf);
    VisitedTile(st, buf);
    ParseBehind(st, w.visited, w.rest);
    ParseStops(Behind(st, w.visited, w.rest), w.rest);
  }

  lemma {:induction false} BehindConcat(st: State, ps: seq<Packet>, qs: seq<Packet>, back: seq<byte>)
    requires AllWellFormed(ps) && AllWellFormed(qs)
    ensures AllWellFormed(ps + qs)
    ensures Behind(st, ps + qs, back) == Behind(Behind(st, ps, Flatten(qs) + back), qs, back)
    decreases |ps|
  {
    hide Handle, Flatten, WellFormed;
    if ps == [] {
      assert ps + qs == qs;
    } else {
      LeftLong(ps, Flatten(qs) + back);
      Reassociate(ps, qs);
      LeftConcat(ps, qs, back);
      BehindConcat(Handle(st, Left(ps + qs, back)).0, ps[1..], qs, back);
    }
  }

  lemma LeftConcat(ps: seq<Packet>, qs: seq<Packet>, back: seq<byte>)
    requires ps != []
    ensures Left(ps + qs, back) == Left(ps, Flatten(qs) + back) && (ps + qs)[1..] == ps[1..] + qs
  {
    hide Flatten;
    assert (ps + qs)[1..] == ps[1..] + qs;
    FlattenConcat(ps[1..], qs);
    Associate(Flatten(ps[1..]), Flatten(qs), back);
  }

  lemma BehindOne(st: State, ps: seq<Packet>, q: Packet, back: seq<byte>)
    requires AllWellFormed(ps) && WellFormed(q)
    ensures AllWellFormed(ps + [q])
    ensures Behind(st, ps + [q], back) == Handle(Behind(st, ps, q + back), q + back).0
  {
    hide Handle, Flatten, WellFormed;
    BehindConcat(st, ps, [q], back);
    FlattenOne(q);
    FlattenCons([]);
    assert [q][1..] == [] && [] + back == back;
  }

  // ---------------------------------------------------------------------
  // What the loop consumes
  // ---------------------------------------------------------------------

  // On any compound of well-formed packets the loop visits exactly those, in
  // order, and nothing is left.
  lemma CompoundRoundTrip(st: State, ps: seq<Packet>)
    requires AllWellFormed(ps)
    ensures Parse(st, Flatten(ps)).visited == ps && Parse(st, Flatten(ps)).rest == []
  {
    hide Parse, Behind, Flatten;
    ParseBehind(st, ps, []);
    ParseStops(Behind(st, ps, []), []);
    assert Flatten(ps) + [] == Flatten(ps) && ps + [] == ps;
  }

  // The loop consumes a datagram entirely if and only if it is a compound of
  // well-formed packets, whatever the state it starts in.
  lemma ConsumesCompounds(st: State, buf: seq<byte>)
    ensures Parse(st, buf).rest == [] <==> exists ps :: AllWellFormed(ps) && Flatten(ps) == buf
  {
    hide Parse;
    var w := Parse(st, buf);
    VisitedTile(st, buf);
    if w.rest == [] {
      assert Flatten(w.visited) + [] == Flatten(w.visited);
      assert AllWellFormed(w.visited) && Flatten(w.visited) == buf;
    }
    if ps :| AllWellFormed(ps) && Flatten(ps) == buf {
      CompoundRoundTrip(st, ps);
    }
  }

  // ---------------------------------------------------------------------
  // Replies
  // ---------------------------------------------------------------------

  // The first block of an extended report lies inside the report.
  predicate FirstBlockFits(p: Packet)
    requires |p| >= 4
  {
    p[1] == PT_XR ==> |p| >= 8 && (|p| > 8 ==> |p| >= 12 && 12 + 4 * U16At(p, 10) <= |p|)
  }

  ghost predicate AllFit(ps: seq<Packet>) {
    forall i: nat :: i < |ps| ==> WellFormed(ps[i]) && FirstBlockFits(ps[i])
  }

  // The replies the packets of a datagram call for, one by one.
  function Answers(ps: seq<Packet>): seq<Packet>
    requires forall i: nat :: i < |ps| ==> |ps[i]| >= 4
  {
    if ps == [] then []
    else (if Asks(ps[0]) then [ReplyTo(ps[0])] else []) + Answers(ps[1..])
  }

  function ReplyBytes(rs: seq<Reply>): seq<Packet> {
    seq(|rs|, i requires 0 <= i < |rs| => rs[i].bytes)
  }

  // What follows a packet cannot make it ask for a reply.
  lemma AsksAlone(p: Packet, ps: seq<Packet>)
    requires WellFormed(p) && FirstBlockFits(p) && AllWellFormed(ps)
    ensures Asks(p + Flatten(ps)) <==> Asks(p)
    ensures Asks(p) ==> ReplyTo(p + Flatten(ps)) == ReplyTo(p)
  {
    var b := p + Flatten(ps);
    assert b[..4] == p[..4];
    if |p| == 8 && p[1] == PT_XR {
      FlattenCons(ps);
      if ps != [] {
        assert b[8] == ps[0][0] && CheckHdr(ps[0]);
      }
    } else if |p| >= 20 {
      assert b[4..8] == p[4..8];
      assert forall i: nat :: i < 20 ==> b[i] == p[i];
    }
  }

  // The replies to a datagram of well-formed packets are, in order, the
  // answers to exactly the packets that ask for one.
  lemma {:induction false} RepliesAnswer(st: State, ps: seq<Packet>)
    requires AllFit(ps)
    decreases |ps|
    ensures ReplyBytes(Parse(st, Flatten(ps)).replies) == Answers(ps)
  {
    if ps != [] {
      var p, back := ps[0], Flatten(ps[1..]);
      ParseFront(st, p, back);
      AsksAlone(p, ps[1..]);
      HandleReplies(st, p + back);
      FlattenCons(ps);
      hide Handle, Parse, ReplyTo, Flatten, Asks, WellFormed, FirstBlockFits, ReplyBytes;
      var st', out := Handle(st, p + back).0, Handle(st, p + back).1;
      RepliesAnswer(st', ps[1..]);
      ReplyBytesConcat(out, Parse(st', back).replies);
    }
  }

  lemma ReplyBytesConcat(a: seq<Reply>, b: seq<Reply>)
    ensures ReplyBytes(a + b) == ReplyBytes(a) + ReplyBytes(b)
  {
  }

  lemma HandleReplies(st: State, rtp: seq<byte>)
    requires |rtp| >= 4
    ensures ReplyBytes(Handle(st, rtp).1) == if Asks(rtp) then [ReplyTo(rtp)] else []
  {
  }

  // Each reply is one well-formed packet, which the same loop consumes without
  // answering it; it carries the SSRC of the sender and the middle of its time.
  lemma ReplyIsReport(st: State, rtp: seq<byte>)
    requires |rtp| >= 4 && Asks(rtp)
    ensures var r := ReplyTo(rtp);
      && WellFormed(r) && FirstBlockFits(r) && |r| == XR_HEADER_SIZE + DLRR_SIZE
      && r[1] == PT_XR && r[8] == DLRR_BT && 12 + 4 * U16At(r, 10) == |r|
      && r[12..16] == rtp[4..8] && r[16..20] == rtp[14..18] && r[20..24] == [0, 0, 0, 0]
      && Parse(st, r) == Walk([r], [], st, [])
  {
    var r := ReplyTo(rtp);
    MiddleField(rtp, 12);
    SameField(rtp, 14, rtp, 14);
    hide Bytes32, Middle, U64At, U32At;
    assert r[12..16] == rtp[4..8] && r[16..20] == rtp[14..18] && r[20..24] == [0, 0, 0, 0];
    assert r + [] == r;
    ParseFront(st, r, []);
  }

  // The NTP time of the last sender report of a datagram.
  function LastNtp(ps: seq<Packet>, ntp: u64): u64
    requires forall i: nat :: i < |ps| ==> |ps[i]| >= 4 && (ps[i][1] == PT_SR ==> |ps[i]| >= SR_SIZE)
  {
    if ps == [] then ntp
    else LastNtp(ps[1..], if ps[0][1] == PT_SR then U64At(ps[0], 8) else ntp)
  }

  // After a datagram whose sender reports are complete, the stored NTP time is
  // that of the last of them, whatever else the datagram holds.
  lemma {:induction false} StoredNtp(st: State, ps: seq<Packet>)
    requires AllWellFormed(ps) && forall i: nat :: i < |ps| && ps[i][1] == PT_SR ==> |ps[i]| >= SR_SIZE
    ensures Parse(st, Flatten(ps)).st.lastSrNtp == LastNtp(ps, st.lastSrNtp)
    decreases |ps|
  {
    FlattenCons(ps);
    if ps == [] {
      ParseStops(st, []);
    } else {
      var p, back := ps[0], Flatten(ps[1..]);
      ParseFront(st, p, back);
      NtpAfter(st, p, back);
      hide Parse, Handle, Flatten, WellFormed;
      StoredNtp(Handle(st, p + back).0, ps[1..]);
    }
  }

  lemma NtpAfter(st: State, p: Packet, back: seq<byte>)
    requires |p| >= 4 && (p[1] == PT_SR ==> |p| >= SR_SIZE)
    ensures Handle(st, p + back).0.lastSrNtp == if p[1] == PT_SR then U64At(p, 8) else st.lastSrNtp
  {
  }

  // ---------------------------------------------------------------------
  // The arrival time
  // ---------------------------------------------------------------------

  // What the switch takes off the arrival time.
  function Taken(st: State, rtp: seq<byte>): nat
    requires |rtp| >= 4
  {
    if Matches(st, rtp) && st.crSys != UINT64_MAX then st.lastSrCr + Hold(rtp) else 0
  }

  // ... over the packets ps in front of the bytes back.
  ghost function Subtracted(st: State, ps: seq<Packet>, back: seq<byte>): nat
    requires AllWellFormed(ps)
    decreases |ps|
  {
    if ps == [] then 0
    else Taken(st, Left(ps, back)) + Subtracted(Handle(st, Left(ps, back)).0, ps[1..], back)
  }

  // Some of them is a receiver report that quotes the sender report stored by
  // then, met while the arrival time is known.
  ghost predicate MatchMet(st: State, ps: seq<Packet>, back: seq<byte>)
    requires AllWellFormed(ps)
    decreases |ps|
  {
    ps != [] && (
      || (Matches(st, Left(ps, back)) && st.crSys != UINT64_MAX)
      || MatchMet(Handle(st, Left(ps, back)).0, ps[1..], back))
  }

  lemma HandleTakes(st: State, rtp: seq<byte>)
    requires |rtp| >= 4
    ensures Handle(st, rtp).0.crSys == U64(st.crSys - Taken(st, rtp))
  {
    hide Hold, U64At, ReplyTo;
    SmallU64(st.crSys);
    if Matches(st, rtp) {
      SubtractTwice(st.crSys, st.lastSrCr, Hold(rtp));
    }
  }

  // Behind any packets the arrival time is what it was less all that was taken
  // off it, modulo 2^64.
  lemma {:induction false} ArrivalBehind(st: State, ps: seq<Packet>, back: seq<byte>)
    requires AllWellFormed(ps)
    ensures Behind(st, ps, back).crSys == U64(st.crSys - Subtracted(st, ps, back))
    decreases |ps|
  {
    hide Handle, Taken, U64, WellFormed;
    if ps == [] {
      SmallU64(st.crSys);
    } else {
      LeftLong(ps, back);
      var rtp := Left(ps, back);
      hide Left;
      HandleTakes(st, rtp);
      ArrivalBehind(Handle(st, rtp).0, ps[1..], back);
      SubtractTwice(st.crSys, Taken(st, rtp), Subtracted(Handle(st, rtp).0, ps[1..], back));
    }
  }

  // The same for any datagram, from its first byte to where the loop stops.
  lemma ArrivalAfter(st: State, buf: seq<byte>)
    ensures var w := Parse(st, buf);
      AllWellFormed(w.visited) && w.st.crSys == U64(st.crSys - Subtracted(st, w.visited, w.rest))
  {
    hide Parse, Behind, Subtracted;
    WalkBehind(st, buf);
    ArrivalBehind(st, Parse(st, buf).visited, Parse(st, buf).rest);
  }

  lemma {:induction false} NothingTaken(st: State, ps: seq<Packet>, back: seq<byte>)
    requires AllWellFormed(ps)
    ensures st.crSys == UINT64_MAX ==> !MatchMet(st, ps, back)
    ensures !MatchMet(st, ps, back) ==> Subtracted(st, ps, back) == 0 && Behind(st, ps, back).crSys == st.crSys
    decreases |ps|
  {
    hide Handle, Matches, Hold, WellFormed;
    if ps != [] {
      LeftLong(ps, back);
      var rtp := Left(ps, back);
      hide Left;
      HandleTakes(st, rtp);
      SmallU64(st.crSys);
      hide U64;
      NothingTaken(Handle(st, rtp).0, ps[1..], back);
    }
  }

  // The same over a whole datagram.
  ghost predicate MatchMetIn(st: State, buf: seq<byte>) {
    var w := Parse(st, buf);
    VisitedTile(st, buf);
    MatchMet(st, w.visited, w.rest)
  }

  lemma MetFirst(st: State, buf: seq<byte>)
    requires Starts(buf) && !MatchMetIn(st, buf)
    ensures st.crSys == UINT64_MAX || !Matches(st, buf)
    ensures !MatchMetIn(Handle(st, buf).0, buf[Size(buf)..])
  {
    ParseStep(st, buf);
    var head, later := buf[..Size(buf)], buf[Size(buf)..];
    assert buf == head + later;
    hide Handle, Parse, WellFormed, Starts, Size, Flatten, Matches;
    var w := Parse(Handle(st, buf).0, later);
    VisitedTile(Handle(st, buf).0, later);
    VisitedTile(st, buf);
    var ps := [head] + w.visited;
    assert ps[0] == head && ps[1..] == w.visited;
    assert Left(ps, w.rest) == buf;
  }

  // As long as no matching receiver report is met, and in particular while it
  // is unknown, the arrival time survives and the replies carry it, or nothing.
  lemma {:induction false} ArrivalKept(st: State, buf: seq<byte>)
    requires st.crSys == UINT64_MAX || !MatchMetIn(st, buf)
    ensures var w := Parse(st, buf);
      && w.st.crSys == st.crSys
      && (st.crSys == UINT64_MAX ==> w.st.lastSrCr == st.lastSrCr)
      && forall r :: r in w.replies ==> r.crSys == if st.crSys == UINT64_MAX then None else Some(st.crSys)
    decreases |buf|
  {
    ParseStops(st, buf);
    hide Parse, WellFormed, MatchMetIn;
    if Starts(buf) {
      ParseStep(st, buf);
      if st.crSys != UINT64_MAX {
        MetFirst(st, buf);
      }
      HandleKeeps(st, buf);
      hide Handle, Starts, Size;
      ArrivalKept(Handle(st, buf).0, buf[Size(buf)..]);
    }
  }

  lemma HandleKeeps(st: State, rtp: seq<byte>)
    requires |rtp| >= 4 && (st.crSys == UINT64_MAX || !Matches(st, rtp))
    ensures var (st', out) := Handle(st, rtp);
      && st'.crSys == st.crSys
      && (st.crSys == UINT64_MAX ==> st'.lastSrCr == st.lastSrCr)
      && forall r :: r in out ==> r.crSys == if st.crSys == UINT64_MAX then None else Some(st.crSys)
  {
    hide Matches, U64At, ReplyTo, Hold;
  }

  // A matching receiver report replaces the arrival time of its datagram by a
  // round trip.  A sender report behind any packets is stamped with what is
  // left of the arrival time, unless that happens to read as unknown; it is
  // the arrival time if and only if what was taken off is 0 modulo 2^64.
  lemma StampAfterReports(st: State, ps: seq<Packet>, sr: Packet, back: seq<byte>)
    requires AllWellFormed(ps) && WellFormed(sr) && |sr| >= 28 && sr[1] == 200
    ensures AllWellFormed(ps + [sr])
    ensures var taken := Subtracted(st, ps, sr + back);
      var cr, stamp := U64(st.crSys - taken), Behind(st, ps + [sr], back).lastSrCr;
      && stamp == (if cr != 0xFFFF_FFFF_FFFF_FFFF then cr else Behind(st, ps, sr + back).lastSrCr)
      && (cr == st.crSys <==> U64(taken) == 0)
  {
    hide Behind, Subtracted, Handle, U64, AllWellFormed, WellFormed, U64At;
    BehindOne(st, ps, sr, back);
    ArrivalBehind(st, ps, sr + back);
    SameModulo(st.crSys, Subtracted(st, ps, sr + back));
    HandleStamps(Behind(st, ps, sr + back), sr, back);
  }

  lemma SameModulo(x: u64, y: nat)
    ensures U64(x - y) == x <==> U64(y) == 0
  {
  }

  lemma HandleStamps(st: State, sr: Packet, back: seq<byte>)
    requires |sr| >= SR_SIZE && sr[1] == PT_SR
    ensures Handle(st, sr + back).0
         == State(U64At(sr, 8), if st.crSys != UINT64_MAX then st.crSys else st.lastSrCr, st.crSys)
  {
  }

  // A sender report and a receiver report all of whose times are 0.
  const SR_ZERO: Packet := [0x80, PT_SR, 0, 6] + seq(24, _ => 0)
  const RR_ZERO: Packet := [0x81, PT_RR, 0, 7] + seq(28, _ => 0)

  lemma ZeroReports()
    ensures WellFormed(SR_ZERO) && |SR_ZERO| >= SR_SIZE && SR_ZERO[1] == PT_SR && U64At(SR_ZERO, 8) == 0
    ensures WellFormed(RR_ZERO) && |RR_ZERO| >= RR_SIZE && Hold(RR_ZERO) == 0
    ensures forall cr, now :: Matches(State(0, cr, now), RR_ZERO)
  {
    assert U32At(SR_ZERO, 8) == 0 && U32At(SR_ZERO, 12) == 0;
    assert U32At(RR_ZERO, 24) == 0 && U32At(RR_ZERO, 28) == 0;
  }

  // A datagram that goes wrong: the report of a sender report seen at time 5,
  // and behind it a sender report, which arrives at 100 and is stamped 95.
  lemma StampFails()
    ensures WellFormed(SR_ZERO) && WellFormed(RR_ZERO)
    ensures var st := Parse(State(0, 0, 5), SR_ZERO).st;
      && st == State(0, 5, 5)
      && Parse(st.(crSys := 100), RR_ZERO + SR_ZERO).st == State(0, 95, 95)
  {
    ZeroReports();
    hide Parse, Handle, WellFormed, Matches, U64At, Hold, SR_ZERO, RR_ZERO;
    ParseAlone(State(0, 0, 5), SR_ZERO);
    HandleStamps(State(0, 0, 5), SR_ZERO, []);
    assert SR_ZERO + [] == SR_ZERO;
    var st := State(0, 5, 100);
    ParseFront(st, RR_ZERO, SR_ZERO);
    HandleReport(st, RR_ZERO, SR_ZERO);
    ParseAlone(State(0, 5, 95), SR_ZERO);
    HandleStamps(State(0, 5, 95), SR_ZERO, []);
  }

  lemma ParseAlone(st: State, p: Packet)
    requires WellFormed(p)
    ensures Parse(st, p).st == Handle(st, p).0
  {
    hide Handle;
    assert p + [] == p;
    ParseFront(st, p, []);
    assert !Starts([]);
  }

  lemma HandleReport(st: State, rr: Packet, back: seq<byte>)
    requires |rr| >= 4 && Matches(st, rr)
    ensures Matches(st, rr + back) && Handle(st, rr + back).0 == WithRr(st, rr)
  {
    SameHold(rr, back);
  }

  lemma SameHold(rr: Packet, back: seq<byte>)
    requires |rr| >= RR_SIZE
    ensures Hold(rr + back) == Hold(rr) && U32At(rr + back, 24) == U32At(rr, 24)
  {
  }

  // ---------------------------------------------------------------------
  // Round-trip time
  // ---------------------------------------------------------------------

  // A receiver report quotes the last sender report and says how long the
  // receiver held it, a real number of clock ticks rounded down to 1/65536 s.
  ghost predicate Reports(st: State, rr: Packet, hold: real) {
    && WellFormed(rr) && Matches(st, rr)
    && hold >= 0.0
    && U32At(rr, 28) == (hold * 65536.0 / UCLOCK_FREQ as real).Floor
  }

  lemma HoldBounds(delay: nat, hold: real)
    requires hold >= 0.0 && delay < 0x1_0000_0000
    requires delay == (hold * 65536.0 / UCLOCK_FREQ as real).Floor
    ensures var h := delay * UCLOCK_FREQ / 65536;
      && hold - UCLOCK_FREQ as real / 65536.0 - 1.0 < h as real <= hold
      && U64(delay * UCLOCK_FREQ) == delay * UCLOCK_FREQ
  {
  }

  // The computed round trip (section 6.4.1 of RFC 3550), whatever follows the
  // report, is at least the true one and exceeds it by less than a 65536th of a
  // second and one tick.
  lemma RttBound(st: State, rr: Packet, back: seq<byte>, hold: real)
    requires Reports(st, rr, hold) && st.crSys != UINT64_MAX
    requires st.lastSrCr as real + hold <= st.crSys as real
    ensures var cr, rtt := Handle(st, rr + back).0.crSys, st.crSys as real - st.lastSrCr as real - hold;
      rtt <= cr as real < rtt + 27_000_000.0 / 65_536.0 + 1.0
  {
    HoldBounds(U32At(rr, 28), hold);
    HandleReport(st, rr, back);
    hide Handle, WellFormed, Matches, U32At;
    RttOf(st, Hold(rr), hold);
  }

  lemma RttOf(st: State, h: nat, hold: real)
    requires st.lastSrCr as real + hold <= st.crSys as real
    requires hold - UCLOCK_FREQ as real / 65536.0 - 1.0 < h as real <= hold
    ensures var cr, rtt := U64(U64(st.crSys - st.lastSrCr) - h), st.crSys as real - st.lastSrCr as real - hold;
      rtt <= cr as real < rtt + UCLOCK_FREQ as real / 65536.0 + 1.0
  {
    hide U64;
    assert st.lastSrCr as real + h as real <= st.crSys as real;
    assert st.lastSrCr + h <= st.crSys;
    SmallU64(st.crSys - st.lastSrCr);
    SmallU64(st.crSys - st.lastSrCr - h);
  }

  ghost predicate NoSenderReport(ps: seq<Packet>) {
    forall i: nat :: i < |ps| ==> |ps[i]| >= 2 && ps[i][1] != PT_SR
  }

  lemma {:induction false} StampKept(st: State, ps: seq<Packet>, back: seq<byte>)
    requires AllWellFormed(ps) && NoSenderReport(ps)
    ensures var st' := Behind(st, ps, back); st'.lastSrNtp == st.lastSrNtp && st'.lastSrCr == st.lastSrCr
    decreases |ps|
  {
    hide Flatten;
    if ps != [] {
      HandleKeepsStamp(st, Left(ps, back));
      hide Handle, WellFormed;
      StampKept(Handle(st, Left(ps, back)).0, ps[1..], back);
    }
  }

  lemma HandleKeepsStamp(st: State, rtp: seq<byte>)
    requires |rtp| >= 4 && rtp[1] != PT_SR
    ensures var st' := Handle(st, rtp).0; st'.lastSrNtp == st.lastSrNtp && st'.lastSrCr == st.lastSrCr
  {
  }

  // The last sender report of a datagram, met before any matching receiver
  // report, is stored with the arrival time.
  lemma LastStored(st: State, buf: seq<byte>, ps: seq<Packet>, sr: Packet, qs: seq<Packet>)
    requires AllWellFormed(ps) && AllWellFormed(qs) && Parse(st, buf).visited == ps + [sr] + qs
    requires WellFormed(sr) && |sr| >= SR_SIZE && sr[1] == PT_SR && NoSenderReport(qs)
    requires !MatchMet(st, ps, sr + (Flatten(qs) + Parse(st, buf).rest)) && st.crSys != UINT64_MAX
    ensures Parse(st, buf).st.lastSrNtp == U64At(sr, 8) && Parse(st, buf).st.lastSrCr == st.crSys
  {
    hide Parse, Behind, MatchMet, Handle, WellFormed, AllWellFormed, NoSenderReport, Flatten;
    var w := Parse(st, buf);
    var back := Flatten(qs) + w.rest;
    WalkBehind(st, buf);
    BehindOne(st, ps, sr, back);
    BehindConcat(st, ps + [sr], qs, w.rest);
    NothingTaken(st, ps, sr + back);
    HandleStamps(Behind(st, ps, sr + back), sr, back);
    StampKept(Behind(st, ps + [sr], back), qs, w.rest);
  }

  // Over two datagrams, whatever else they hold: the last sender report of the
  // first, seen at time a, and in the second, seen at time b, the first report
  // that quotes it.
  lemma RoundTrip(st: State, buf: seq<byte>, ps: seq<Packet>, sr: Packet, qs: seq<Packet>,
                  us: seq<Packet>, rr: Packet, back: seq<byte>, b: u64, hold: real)
    requires AllWellFormed(ps) && AllWellFormed(qs) && Parse(st, buf).visited == ps + [sr] + qs
    requires WellFormed(sr) && |sr| >= SR_SIZE && sr[1] == PT_SR && NoSenderReport(qs)
    requires !MatchMet(st, ps, sr + (Flatten(qs) + Parse(st, buf).rest)) && st.crSys != UINT64_MAX
    requires AllWellFormed(us) && NoSenderReport(us) && Reports(State(U64At(sr, 8), st.crSys, b), rr, hold)
    requires !MatchMet(Parse(st, buf).st.(crSys := b), us, rr + back)
    requires b != UINT64_MAX && st.crSys as real + hold <= b as real
    ensures AllWellFormed(us + [rr])
    ensures |rr| >= 32 && rr[24..28] == sr[10..14]
    ensures var cr := Behind(Parse(st, buf).st.(crSys := b), us + [rr], back).crSys;
      var rtt := b as real - st.crSys as real - hold;
      rtt <= cr as real < rtt + 27_000_000.0 / 65_536.0 + 1.0
  {
    LastStored(st, buf, ps, sr, qs);
    MiddleField(sr, 8);
    SameField(rr, 24, sr, 10);
    hide Parse, Behind, MatchMet, Handle, AllWellFormed, NoSenderReport, Flatten, Middle, U64At, U32At;
    var st1 := Parse(st, buf).st.(crSys := b);
    StampKept(st1, us, rr + back);
    NothingTaken(st1, us, rr + back);
    RttBound(Behind(st1, us, rr + back), rr, back, hold);
    BehindOne(st1, us, rr, back);
  }

  // ---------------------------------------------------------------------
  // The responder
  // ---------------------------------------------------------------------

  // What the loop tests in front of the packet at rtp, and what it passes over.
  lemma LoopGuard(buf: seq<byte>, rtp: nat)
    requires rtp <= |buf|
    ensures Starts(buf[rtp..]) <==>
      && rtp + 4 <= |buf| && buf[rtp] / 64 == 2
      && rtp + 4 + 4 * ((buf[rtp + 2] as int) * 256 + buf[rtp + 3] as int) <= |buf|
    ensures rtp + 4 <= |buf| ==>
      Size(buf[rtp..]) == 4 + 4 * ((buf[rtp + 2] as int) * 256 + buf[rtp + 3] as int)
  {
  }

  lemma LoopStep(st: State, buf: seq<byte>, rtp: nat)
    requires rtp <= |buf| && Starts(buf[rtp..])
    ensures var left := buf[rtp..];
      var next := rtp + Size(left);
      && next <= |buf|
      && var v := Parse(Handle(st, left).0, buf[next..]);
      && Parse(st, left).replies == Handle(st, left).1 + v.replies && Parse(st, left).st == v.st
  {
    ParseStep(st, buf[rtp..]);
    hide Parse, Handle;
    var left := buf[rtp..];
    assert left[Size(left)..] == buf[rtp + Size(left)..];
  }

  class Responder {
    // last_sr_ntp and last_sr_cr
    var lastSrNtp: u64
    var lastSrCr: u64

    constructor ()
      ensures lastSrNtp == 0 && lastSrCr == 0
    {
      lastSrNtp, lastSrCr := 0, 0;
    }

    ghost function Current(crSys: u64): State
      reads this
    {
      State(lastSrNtp, lastSrCr, crSys)
    }

    // parse_rtcp: the replies it sends, in order.
    method ParseRtcp(buf: seq<byte>, crSys: u64) returns (replies: seq<Reply>)
      modifies this
      ensures replies == Parse(old(Current(crSys)), buf).replies
      ensures Current(Parse(old(Current(crSys)), buf).st.crSys) == Parse(old(Current(crSys)), buf).st
    {
      replies := [];
      var rtp, cr := 0, crSys;
      var s := |buf|;
      ghost var w := Parse(Current(crSys), buf);
      assert buf[0..] == buf && [] + w.replies == w.replies;
      hide Handle, Parse, Starts, Size;
      while s > 0
        invariant 0 <= rtp <= |buf| && s == |buf| - rtp
        invariant w.replies == replies + Parse(Current(cr), buf[rtp..]).replies
        invariant w.st == Parse(Current(cr), buf[rtp..]).st
        decreases s
      {
        LoopGuard(buf, rtp);
        if s < 4 || buf[rtp] / 64 != 2 {
          break;
        }
        var len := 4 + 4 * ((buf[rtp + 2] as int) * 256 + buf[rtp + 3] as int);
        if len > s {
          break;
        }
        LoopStep(Current(cr), buf, rtp);
        var out: seq<Reply>;
        out, cr := HandlePacket(buf[rtp..], cr);
        Associate(replies, out, Parse(Current(cr), buf[rtp + len..]).replies);
        replies := replies + out;
        s := s - len;
        rtp := rtp + len;
      }
      LoopGuard(buf, rtp);
      ParseStops(Current(cr), buf[rtp..]);
    }

    // The switch of parse_rtcp.
    method HandlePacket(rtp: seq<byte>, crSys: u64) returns (out: seq<Reply>, crSys': u64)
      requires |rtp| >= 4
      modifies this
      ensures (Current(crSys'), out) == Handle(old(Current(crSys)), rtp)
    {
      out, crSys' := [], crSys;
      if rtp[1] == PT_SR {
        if |rtp| < SR_SIZE {
          return;
        }
        if crSys != UINT64_MAX {
          lastSrCr := crSys;
        }
        lastSrNtp := U32At(rtp, 8) * 0x1_0000_0000 + U32At(rtp, 12);
      } else if rtp[1] == PT_RR {
        if |rtp| < RR_SIZE || rtp[0] % 32 < 1 {
          return;
        }
        var delay, lastSr := U32At(rtp, 28), U32At(rtp, 24);
        if lastSr != lastSrNtp / 0x1_0000 % 0x1_0000_0000 {
          return;
        }
        if crSys != UINT64_MAX {
          crSys' := U64(crSys' - lastSrCr);
          crSys' := U64(crSys' - U64(delay * UCLOCK_FREQ) / 65536);
        }
      } else if rtp[1] == PT_XR {
        if |rtp| < XR_HEADER_SIZE + RRTR_SIZE {
          return;
        }
        if rtp[8] != RRTR_BT || (U16At(rtp, 10) + 1) * 4 != RRTR_SIZE {
          return;
        }
        var buf := BuildReply(rtp[4..8], U64At(rtp, 12));
        out := [Reply(if crSys != UINT64_MAX then Some(crSys) else None, buf[..])];
      }
    }
  }

  // The reply buffer, written field by field.
  method BuildReply(ssrc: seq<byte>, ntp: u64) returns (buf: array<byte>)
    requires |ssrc| == 4
    ensures fresh(buf) && buf[..] == XrReply(ssrc, ntp)
    ensures buf[..12] == [0x80, 207, 0, 5, 0, 0, 0, 0, 5, 0, 0, 3] && buf[12..16] == ssrc
    ensures Number(buf[16..20]) == ntp / 0x1_0000 % 0x1_0000_0000 && buf[20..] == [0, 0, 0, 0]
  {
    Bytes32Number(Middle(ntp));
    hide Bytes32, Number;
    buf := new byte[XR_HEADER_SIZE + DLRR_SIZE];
    PutHeader(buf);
    PutDlrr(buf, ssrc, Middle(ntp));
    assert buf[..24] == buf[..];
    assert buf[16..20] == Bytes32(Middle(ntp));
  }

  // rtcp_set_rtp_version, rtcp_set_pt, rtcp_set_length, rtcp_xr_set_ssrc_sender
  method PutHeader(buf: array<byte>)
    requires buf.Length == XR_HEADER_SIZE + DLRR_SIZE
    modifies buf
    ensures buf[..8] == [0x80, PT_XR, 0, 5] + [0, 0, 0, 0]
  {
    Put(buf, 0, [0x80, PT_XR]);
    Put(buf, 2, [0, buf.Length / 4 - 1]);
    Put(buf, 4, [0, 0, 0, 0]);
  }

  // rtcp_xr_set_bt, rtcp_xr_dlrr_set_reserved, rtcp_xr_set_length and the three
  // fields of the block.
  method PutDlrr(buf: array<byte>, ssrc: seq<byte>, lrr: nat)
    requires buf.Length == XR_HEADER_SIZE + DLRR_SIZE && |ssrc| == 4
    modifies buf
    ensures buf[..24] == old(buf[..8]) + [DLRR_BT, 0, 0, 3] + ssrc + Bytes32(lrr) + [0, 0, 0, 0]
  {
    hide Bytes32;
    Put(buf, 8, [DLRR_BT, 0]);
    Put(buf, 10, [0, DLRR_SIZE / 4 - 1]);
    Put(buf, 12, ssrc);
    Put(buf, 16, Bytes32(lrr));
    Put(buf, 20, [0, 0, 0, 0]);
  }

  // Writes a field behind the fields already written.
  method Put(buf: array<byte>, at: nat, field: seq<byte>)
    requires at + |field| <= buf.Length
    modifies buf
    ensures buf[..at + |field|] == old(buf[..at]) + field
  {
    for i := 0 to |field|
      invariant buf[..at + i] == old(buf[..at]) + field[..i]
    {
      buf[at + i] := field[i];
    }
  }
}
