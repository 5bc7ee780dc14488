/**
 * The whole RTP link: a sender, a network that loses, repeats and reorders packets and parities at will,
 * the packet buffer, and the assembler with its parked frames.
 */
module RtpLink {
  import opened Bytes
  import opened Options
  import opened MediaTypes
  import opened Fec
  import opened NalUnits
  import opened RtpServers
  import opened RtpReceivers
  import opened RtpLoss
  import opened RtpRuns
  import opened JitterBuffers
  import opened JitterRuns
  import opened JitterOrder
  import Timestamps

  datatype Link = Link(
    mtu: nat,
    ssrc: u32,
    sent: seq<Clip>,             // every frame with packets, in order
    nextSeq: nat,                // packets sent so far
    ticks: int,                  // the last unwrapped 90 kHz time
    jitter: World<RtpPacket>,
    asm: Asm)

  datatype Event =
    | SendFrame(f: Frame)
    | Deliver(i: nat, j: nat, nowTicks: int, now: int)   // packet j of frame i, for the first time or again
    | DeliverParity(i: nat)                              // the parity datagram of frame i
    | PopPacket(now: int)
    | Rtt(ms: real)

  ghost function Start(mtu: nat, ssrc: u32): Link {
    Link(mtu, ssrc, [], 0, 0, Fresh(1024, 10_000), Asm(NO_FRAME, map[], [], [], 0))
  }

  /** 90 kHz ticks to milliseconds, rounded towards zero. */
  function FromTicks(ticks: int): int {
    if ticks >= 0 then ticks / 90 else -(-ticks / 90)
  }

  /** A packet with its capture time worked out. */
  function Timed(p: RtpPacket, ticks: int): RtpPacket {
    p.(captureMs := FromTicks(ticks))
  }

  /** One packet out of the buffer, and the pass over parked frames behind it. */
  ghost function Took(a: Asm, p: RtpPacket, now: int): Asm {
    if Follows(a.cur, p)
        && forall i :: 0 <= i < |Assembled(a, p, now).zombies| ==> WellParked(Assembled(a, p, now).zombies[i])
    then Passed(Assembled(a, p, now), now)
    else a
  }

  ghost function Received(s: Link, d: bytes, nowTicks: int, now: int): Link {
    match ParseRtp(d)
    case None => s
    case Some(p) =>
      var ticks := Timestamps.Extend(s.ticks, p.ts, nowTicks);
      var u := Timed(p, ticks);
      s.(ticks := ticks, jitter := Step(s.jitter, Push(u.seqNo, u.captureMs * 1000, u, now)))
  }

  ghost function Next(s: Link, e: Event): Link
    requires s.mtu > RTP_HEADER + 2
    requires e.Deliver? ==> e.i < |s.sent| && e.j < |s.sent[e.i].ps|
    requires e.DeliverParity? ==> e.i < |s.sent|
  {
    match e
    case SendFrame(f) =>
      var ps := FramePackets(f, s.mtu, s.nextSeq, s.ssrc);
      if ps == [] then s else s.(sent := s.sent + [Clip(f, s.nextSeq, ps)], nextSeq := s.nextSeq + |ps|)
    case Deliver(i, j, nowTicks, now) => Received(s, s.sent[i].ps[j], nowTicks, now)
    case DeliverParity(i) =>
      var d := ParityPacket(s.sent[i].f, s.sent[i].ps);
      s.(asm := s.asm.(fec := WithParity(s.asm.fec, Decode(d).captureLo, Announced(d))))
    case PopPacket(now) =>
      var t := s.(jitter := Step(s.jitter, Pop(now)));
      (match PopSpec(s.jitter.st, now).out
       case None => t
       case Some(u) => t.(asm := Took(s.asm, u.data, now)))
    case Rtt(ms) => s.(jitter := Step(s.jitter, SetRtt(ms)))
  }

  /** Within one half of the 32-bit range of 90 kHz ticks from base on. */
  ghost predicate InRange(ticks: int, base: int) {
    base <= ticks < base + HALF
  }

  /**
   * Frames carry distinct timestamps, and no more than 65536 packets are sent; clocks agree to
   * half the timestamp range; no packet re-aligns the buffer past packets it still holds.
   */
  ghost predicate Allowed(s: Link, e: Event, base: int) {
    s.mtu > RTP_HEADER + 2 &&
    match e
    case SendFrame(f) =>
      && s.nextSeq + |FramePackets(f, s.mtu, s.nextSeq, s.ssrc)| <= 0x1_0000
      && InRange(InMillis(f.captureUs) * 90, base)
      && forall i :: 0 <= i < |s.sent| ==> Timestamp(s.sent[i].f) != Timestamp(f)
    case Deliver(i, j, nowTicks, _) =>
      && i < |s.sent| && j < |s.sent[i].ps| && InRange(nowTicks, base)
      && s.sent[i].q0 + j < 0x1_0000 && !Overleaps(s.jitter.st, s.sent[i].q0 + j)
    case DeliverParity(i) => i < |s.sent|
    case _ => true
  }

  ghost predicate Run(states: seq<Link>, es: seq<Event>, base: int) {
    && |states| == |es| + 1
    && RTP_HEADER + 2 < states[0].mtu < 0x1_0000 && states[0] == Start(states[0].mtu, states[0].ssrc)
    && forall i :: 0 <= i < |es| ==> Allowed(states[i], es[i], base) && states[i + 1] == Next(states[i], es[i])
  }

  // ---- the invariant ----

  /** One past the last number that left the buffer. */
  ghost function Bound(w: World<RtpPacket>): nat {
    if w.popped == [] then 0 else w.popped[|w.popped| - 1].seqNo + 1
  }

  ghost predicate Arrived(q: u32, p: RtpPacket, sent: seq<Clip>) {
    q == p.seqNo && exists i: nat, j: nat :: IsPacket(p, sent, i, j)
  }

  ghost predicate Recorded(c: Clip, mtu: nat, ssrc: u32, nextSeq: nat, base: int)
    requires mtu > RTP_HEADER + 2
  {
    && c.ps == FramePackets(c.f, mtu, c.q0, ssrc) && c.q0 + |c.ps| <= nextSeq
    && InRange(Millis(c) * 90, base)
  }

  ghost predicate SenderOk(mtu: nat, ssrc: u32, sent: seq<Clip>, nextSeq: nat, base: int) {
    && RTP_HEADER + 2 < mtu < 0x1_0000 && nextSeq <= 0x1_0000 && ClipsOk(sent)
    && forall i :: 0 <= i < |sent| ==> Recorded(sent[i], mtu, ssrc, nextSeq, base)
  }

  ghost predicate BufferOk(w: World<RtpPacket>, sent: seq<Clip>) {
    && Ordered(w, 0) && Genuine(w)
    && forall a :: a in w.accepted ==> Arrived(a.0, a.1, sent)
  }

  ghost predicate Sound(s: Link, base: int) {
    && SenderOk(s.mtu, s.ssrc, s.sent, s.nextSeq, base) && (s.ticks == 0 || InRange(s.ticks, base))
    && BufferOk(s.jitter, s.sent)
    && AsmOk(s.asm, s.sent, Bound(s.jitter)) && DueTwice(s.asm, s.sent, Bound(s.jitter))
    && LastTouched(s.asm, s.sent, Bound(s.jitter))
  }

  // ---- sending ----

  /** Equal keys come from equal timestamps. */
  lemma KeyFollowsTimestamp(x: int, y: int)
    requires x % TWO32 == y % TWO32
    ensures x * 90 % TWO32 == y * 90 % TWO32
  {
    var d := x / TWO32 - y / TWO32;
    assert x == y + d * TWO32;
    assert x * 90 == y * 90 + d * 90 * TWO32;
    MultipleDropped(y * 90, d * 90);
  }

  lemma MultipleDropped(v: int, k: int)
    ensures (v + k * TWO32) % TWO32 == v % TWO32
  {
  }

  lemma SentClipOk(s: Link, f: Frame)
    requires RTP_HEADER + 2 < s.mtu && s.nextSeq + |FramePackets(f, s.mtu, s.nextSeq, s.ssrc)| <= 0x1_0000
    requires FramePackets(f, s.mtu, s.nextSeq, s.ssrc) != []
    ensures ClipOk(Clip(f, s.nextSeq, FramePackets(f, s.mtu, s.nextSeq, s.ssrc)))
  {
    hide FramePackets, PacketSeq;
    var ps := FramePackets(f, s.mtu, s.nextSeq, s.ssrc);
    forall j | 0 <= j < |ps|
      ensures |ps[j]| > RTP_HEADER
    {
      PacketsWellFormed(f, s.mtu, s.nextSeq, s.ssrc, j);
    }
  }

  lemma MoreClips(sent: seq<Clip>, c: Clip)
    requires ClipsOk(sent) && ClipOk(c)
    requires forall i :: 0 <= i < |sent| ==> sent[i].q0 + |sent[i].ps| <= c.q0 && Timestamp(sent[i].f) != Timestamp(c.f)
    ensures ClipsOk(sent + [c])
  {
    hide ClipOk;
    forall i | 0 <= i < |sent|
      ensures KeyOf(sent[i]) != KeyOf(c)
    {
      if KeyOf(sent[i]) == KeyOf(c) {
        KeyFollowsTimestamp(Millis(sent[i]), Millis(c));
      }
    }
  }

  lemma SenderGoesOn(s: Link, f: Frame, base: int)
    requires SenderOk(s.mtu, s.ssrc, s.sent, s.nextSeq, base) && Allowed(s, SendFrame(f), base)
    ensures var t := Next(s, SendFrame(f)); SenderOk(t.mtu, t.ssrc, t.sent, t.nextSeq, base)
  {
    var ps := FramePackets(f, s.mtu, s.nextSeq, s.ssrc);
    if ps != [] {
      SentClipOk(s, f);
      hide FramePackets, ClipsOk, ClipOk, Timestamp;
      MoreClips(s.sent, Clip(f, s.nextSeq, ps));
    }
  }

  lemma BufferSeesMore(w: World<RtpPacket>, sent: seq<Clip>, c: Clip)
    requires BufferOk(w, sent)
    ensures BufferOk(w, sent + [c])
  {
    hide Ordered, Genuine, Timestamp, Millis;
    forall a | a in w.accepted
      ensures Arrived(a.0, a.1, sent + [c])
    {
      assert Arrived(a.0, a.1, sent);
      var i: nat, j: nat :| IsPacket(a.1, sent, i, j);
      assert IsPacket(a.1, sent + [c], i, j);
    }
  }

  lemma {:induction false} NeverShown(out: seq<OutFrame>, ms: int)
    requires forall x :: x in out ==> x.frameId != ms
    ensures TimesShown(out, ms) == 0
  {
    if out != [] {
      NeverShown(out[..|out| - 1], ms);
    }
  }

  lemma {:induction false} NeverParked(zs: seq<FrameState>, ms: int)
    requires forall z :: z in zs ==> z.captureMs != ms
    ensures Parked(zs, ms) == 0
    decreases |zs|
  {
    if zs != [] {
      NeverParked(zs[1..], ms);
    }
  }

  /** A frame that was not sent yet is not due at all. */
  lemma NotDueYet(a: Asm, sent: seq<Clip>, bound: nat, ms: int, w: nat)
    requires AsmOk(a, sent, bound) && forall i :: 0 <= i < |sent| ==> Millis(sent[i]) != ms
    ensures Due(a, ms, w) == 0
  {
    hide FromClip, Collecting, Millis, TimesShown, Parked;
    forall x | x in a.out
      ensures x.frameId != ms
    {
      var i :| 0 <= i < |sent| && FromClip(Some(x), sent[i]);
      ShownMillis(x, sent[i]);
    }
    forall z | CollectedFrom(z, sent)
      ensures z.captureMs != ms
    {
      var i :| 0 <= i < |sent| && Collecting(z, sent[i]);
      SameMillis(z, sent[i]);
    }
    NeverShown(a.out, ms);
    NeverParked(a.zombies, ms);
    ParkedNoFrame();
  }

  lemma ShownMillis(x: OutFrame, c: Clip)
    requires FromClip(Some(x), c)
    ensures x.frameId == Millis(c)
  {
    hide Unpack;
  }

  lemma MoreTouched(a: Asm, sent: seq<Clip>, bound: nat, c: Clip)
    requires LastTouched(a, sent, bound)
    ensures LastTouched(a, sent + [c], bound)
  {
    hide Collecting;
    if bound != 0 {
      var e :| 0 <= e < |sent| && EndsIn(a, sent[e], bound);
      assert EndsIn(a, (sent + [c])[e], bound);
    }
  }

  lemma MoreDue(a: Asm, sent: seq<Clip>, bound: nat, c: Clip)
    requires AsmOk(a, sent, bound) && DueTwice(a, sent, bound)
    requires forall i :: 0 <= i < |sent| ==> Millis(sent[i]) != Millis(c)
    ensures DueTwice(a, sent + [c], bound)
  {
    NotDueYet(a, sent, bound, Millis(c), Weight(a.cur));
    hide AsmOk, Due, Millis, Weight;
  }

  lemma SendStaysSound(s: Link, f: Frame, base: int)
    requires Sound(s, base) && Allowed(s, SendFrame(f), base)
    ensures Sound(Next(s, SendFrame(f)), base)
  {
    SenderGoesOn(s, f, base);
    hide SenderOk, BufferOk, AsmOk, DueTwice, LastTouched, Timestamp, FramePackets;
    var ps := FramePackets(f, s.mtu, s.nextSeq, s.ssrc);
    if ps != [] {
      var c := Clip(f, s.nextSeq, ps);
      DistinctMillis(s, f);
      BufferSeesMore(s.jitter, s.sent, c);
      OneMoreClip(s.asm, s.sent, Bound(s.jitter), c);
      MoreTouched(s.asm, s.sent, Bound(s.jitter), c);
      MoreDue(s.asm, s.sent, Bound(s.jitter), c);
    }
  }

  lemma DistinctMillis(s: Link, f: Frame)
    requires forall i :: 0 <= i < |s.sent| ==> Timestamp(s.sent[i].f) != Timestamp(f)
    ensures forall i :: 0 <= i < |s.sent| ==> Millis(s.sent[i]) != InMillis(f.captureUs)
  {
  }

  // ---- delivery ----

  /** A packet of a sent frame parses to its number, timestamp, marker and octets. */
  lemma PacketParses(c: Clip, mtu: nat, ssrc: u32, j: nat)
    requires RTP_HEADER + 2 < mtu && c.ps == FramePackets(c.f, mtu, c.q0, ssrc) && ClipOk(c) && j < |c.ps|
    ensures ParseRtp(c.ps[j]) == Some(RtpPacket(c.q0 + j, Timestamp(c.f), j == |c.ps| - 1, 0, c.ps[j]))
  {
    hide Nalus, AllPayloads, RtpHeader, PacketSeq, Timestamp, Octet1, Octet2, Octet3, Low, Number16, Number32, Millis;
    NalusNonEmpty(c.f.data);
    var pls := AllPayloads(Nalus(c.f.data), mtu);
    RtpServers.PacketAt(pls, c.q0, Timestamp(c.f), ssrc, j);
    HeaderFacts(j == |pls| - 1, (c.q0 + j) % 0x1_0000, Timestamp(c.f), ssrc, pls[j]);
    Number32Octets(Timestamp(c.f));
    SeqOf(c.ps[j]);
  }

  /** The capture time read off a packet is the sender's, to the millisecond. */
  lemma TimeRecovered(last: int, nowTicks: int, c: Clip, base: int)
    requires last == 0 || InRange(last, base)
    requires InRange(nowTicks, base) && InRange(Millis(c) * 90, base)
    ensures Timestamps.Extend(last, Timestamp(c.f), nowTicks) == Millis(c) * 90
    ensures FromTicks(Millis(c) * 90) == Millis(c)
  {
    hide Timestamps.Nearest;
    Timestamps.NearestRecovers(if last == 0 then nowTicks else last, Millis(c) * 90);
  }

  /** What delivering packet j of frame i does: the true packet goes into the buffer. */
  lemma DeliveryIs(s: Link, e: Event, base: int)
    requires Sound(s, base) && Allowed(s, e, base) && e.Deliver?
    ensures var c := s.sent[e.i];
            var p := RtpPacket(c.q0 + e.j, Timestamp(c.f), e.j == |c.ps| - 1, Millis(c), c.ps[e.j]);
            && IsPacket(p, s.sent, e.i, e.j)
            && Next(s, e) == s.(ticks := Millis(c) * 90, jitter := Step(s.jitter, Push(p.seqNo, Millis(c) * 1000, p,
                e.now)))
  {
    hide Sound, Overleaps, PushSpec, Step, ParseRtp, Timestamp, FramePackets, Timestamps.Extend, Millis, ClipOk;
    SenderFacts(s, e.i, base);
    PacketParses(s.sent[e.i], s.mtu, s.ssrc, e.j);
    TimeRecovered(s.ticks, e.nowTicks, s.sent[e.i], base);
    ClipFits(s.sent[e.i]);
    NextDelivers(s, e);
  }

  lemma NextDelivers(s: Link, e: Event)
    requires s.mtu > RTP_HEADER + 2 && e.Deliver? && e.i < |s.sent| && e.j < |s.sent[e.i].ps|
    requires ParseRtp(s.sent[e.i].ps[e.j]).Some?
    ensures var p := ParseRtp(s.sent[e.i].ps[e.j]).value;
            var ticks := Timestamps.Extend(s.ticks, p.ts, e.nowTicks);
            Next(s, e) == s.(ticks := ticks, jitter := Step(s.jitter, Push(p.seqNo, Timed(p, ticks).captureMs * 1000,
                Timed(p, ticks), e.now)))
  {
    hide Step, ParseRtp, Timestamps.Extend;
  }

  lemma ClipFits(c: Clip)
    requires ClipOk(c)
    ensures c.q0 + |c.ps| <= 0x1_0000
  {
  }

  lemma SenderFacts(s: Link, i: nat, base: int)
    requires Sound(s, base) && i < |s.sent|
    ensures RTP_HEADER + 2 < s.mtu < 0x1_0000 && ClipOk(s.sent[i])
    ensures s.sent[i].ps == FramePackets(s.sent[i].f, s.mtu, s.sent[i].q0, s.ssrc)
    ensures InRange(Millis(s.sent[i]) * 90, base)
    ensures s.ticks == 0 || InRange(s.ticks, base)
  {
    hide ClipOk, AsmOk, DueTwice, LastTouched, BufferOk, FramePackets, Millis;
  }

  lemma BufferTakes(w: World<RtpPacket>, sent: seq<Clip>, p: RtpPacket, genUs: int, now: int, i: nat, j: nat)
    requires BufferOk(w, sent) && IsPacket(p, sent, i, j) && !Overleaps(w.st, p.seqNo)
    ensures BufferOk(Step(w, Push(p.seqNo, genUs, p, now)), sent)
    ensures Step(w, Push(p.seqNo, genUs, p, now)).popped == w.popped
  {
    hide Ordered, Genuine, Overleaps, PushSpec, Timestamp, Millis;
    StepStaysOrdered(w, Push(p.seqNo, genUs, p, now), 0);
    assert Arrived(p.seqNo, p, sent);
  }

  lemma DeliverStaysSound(s: Link, e: Event, base: int)
    requires Sound(s, base) && Allowed(s, e, base) && e.Deliver?
    ensures Sound(Next(s, e), base)
  {
    hide Sound, Step, Timestamp, Millis, IsPacket, Overleaps, Next, FramePackets;
    DeliveryIs(s, e, base);
    SenderFacts(s, e.i, base);
    var c := s.sent[e.i];
    var p := RtpPacket(c.q0 + e.j, Timestamp(c.f), e.j == |c.ps| - 1, Millis(c), c.ps[e.j]);
    PacketDelivered(s, p, Millis(c) * 90, Millis(c) * 1000, e.now, e.i, e.j, base);
  }

  lemma PacketDelivered(s: Link, p: RtpPacket, ticks: int, genUs: int, now: int, i: nat, j: nat, base: int)
    requires Sound(s, base) && IsPacket(p, s.sent, i, j) && !Overleaps(s.jitter.st, p.seqNo) && InRange(ticks, base)
    ensures Sound(s.(ticks := ticks, jitter := Step(s.jitter, Push(p.seqNo, genUs, p, now))), base)
  {
    hide SenderOk, AsmOk, DueTwice, LastTouched, BufferOk, Step, IsPacket, Overleaps, InRange;
    BufferTakes(s.jitter, s.sent, p, genUs, now, i, j);
  }

  // ---- parities ----

  /** The parity datagram carries the frame's key and parity. */
  lemma ParityArrives(c: Clip, mtu: nat, ssrc: u32)
    requires RTP_HEADER + 2 < mtu < 0x1_0000 && c.ps == FramePackets(c.f, mtu, c.q0, ssrc)
    ensures var d := ParityPacket(c.f, c.ps);
            |d| >= HEADER_SIZE && Decode(d).captureLo == KeyOf(c) && Announced(d) == Parity(c.ps)
  {
    hide Parity, FramePackets, Decode, Encode, Announced, ParityPacket;
    ParityFits(c, mtu, ssrc);
    var h := ParityHeader(c);
    ParityIs(c);
    DecodeEncode(h, Parity(c.ps));
    PayloadFollows(h, Parity(c.ps));
    ParityFields(c);
    AnnouncedWhole(Encode(h) + Parity(c.ps));
  }

  function ParityHeader(c: Clip): UdpHeader {
    UdpHeader(FEC, c.f.frameId % TWO32, FEC_SEQ, |c.ps| % 0x1_0000, c.f.frameId % TWO32, KeyOf(c),
              |Parity(c.ps)| % 0x1_0000, 0).SetKeyframe(c.f.keyframe)
  }

  lemma ParityIs(c: Clip)
    ensures ParityPacket(c.f, c.ps) == Encode(ParityHeader(c)) + Parity(c.ps)
  {
    hide Parity, Encode;
  }

  lemma ParityFields(c: Clip)
    ensures ParityHeader(c).captureLo == KeyOf(c) && ParityHeader(c).payloadLen == |Parity(c.ps)| % 0x1_0000
  {
    hide Parity;
  }

  /** A datagram that announces its whole payload. */
  lemma AnnouncedWhole(d: bytes)
    requires |d| >= HEADER_SIZE && Decode(d).payloadLen == |d| - HEADER_SIZE
    ensures Announced(d) == d[HEADER_SIZE..]
  {
    hide Decode;
  }

  lemma ParityFits(c: Clip, mtu: nat, ssrc: u32)
    requires RTP_HEADER + 2 < mtu && c.ps == FramePackets(c.f, mtu, c.q0, ssrc)
    ensures |Parity(c.ps)| <= mtu
  {
    hide FramePackets;
    forall d | d in c.ps
      ensures |d| <= mtu
    {
      var j :| 0 <= j < |c.ps| && c.ps[j] == d;
      PacketsWellFormed(c.f, mtu, c.q0, ssrc, j);
    }
  }

  lemma ParityStaysSound(s: Link, i: nat, base: int)
    requires Sound(s, base) && i < |s.sent|
    ensures s.mtu > RTP_HEADER + 2 && Sound(Next(s, DeliverParity(i)), base)
  {
    hide Sound, Timestamp, Millis, FramePackets, ParityPacket, Decode, Announced, WithParity, Parity, KeyOf;
    SenderFacts(s, i, base);
    ParityArrives(s.sent[i], s.mtu, s.ssrc);
    ParityStored(s, i, base);
  }

  lemma ParityStored(s: Link, i: nat, base: int)
    requires Sound(s, base) && i < |s.sent|
    ensures Sound(s.(asm := s.asm.(fec := WithParity(s.asm.fec, KeyOf(s.sent[i]), Parity(s.sent[i].ps)))), base)
  {
    hide SenderOk, BufferOk, WithParity, Parity, KeyOf, AsmOk, DueTwice, LastTouched, Bound;
    AsmParities(s.asm, s.sent, Bound(s.jitter));
    WithParityOk(s.asm.fec, s.sent, i);
    SameButParities(s.asm, WithParity(s.asm.fec, KeyOf(s.sent[i]), Parity(s.sent[i].ps)), s.sent, Bound(s.jitter));
  }

  lemma AsmParities(a: Asm, sent: seq<Clip>, bound: nat)
    requires AsmOk(a, sent, bound)
    ensures ParitiesOk(a.fec, sent)
  {
    hide CollectedFrom, ShownFrom, ParitiesOk;
  }

  lemma SameButParities(a: Asm, fec: map<u32, bytes>, sent: seq<Clip>, bound: nat)
    requires AsmOk(a, sent, bound) && DueTwice(a, sent, bound) && LastTouched(a, sent, bound) && ParitiesOk(fec, sent)
    ensures var b := a.(fec := fec); AsmOk(b, sent, bound) && DueTwice(b, sent, bound) && LastTouched(b, sent, bound)
  {
    hide CollectedFrom, ShownFrom, Collecting, TimesShown, Parked, Millis, ParitiesOk;
    if bound != 0 {
      var e :| 0 <= e < |sent| && EndsIn(a, sent[e], bound);
      assert EndsIn(a.(fec := fec), sent[e], bound);
    }
  }

  // ---- a packet leaves the buffer ----

  lemma TookSound(a: Asm, sent: seq<Clip>, bound: nat, p: RtpPacket, i: nat, j: nat, now: int)
    requires ClipsOk(sent) && AsmOk(a, sent, bound) && DueTwice(a, sent, bound) && LastTouched(a, sent, bound)
    requires IsPacket(p, sent, i, j) && bound <= p.seqNo
    ensures Follows(a.cur, p)
    ensures var b := Took(a, p, now);
            AsmOk(b, sent, p.seqNo + 1) && DueTwice(b, sent, p.seqNo + 1) && LastTouched(b, sent, p.seqNo + 1)
    ensures var b := Assembled(a, p, now);
            (forall k :: 0 <= k < |b.zombies| ==> WellParked(b.zombies[k])) && Took(a, p, now) == Passed(b, now)
  {
    hide ClipsOk, AsmOk, DueTwice, LastTouched, IsPacket, Assembled, VisitedAll, WellParked, Follows;
    AssembledOk(a, sent, bound, p, i, j, now);
    AssembledTwice(a, sent, bound, p, i, j, now);
    var b := Assembled(a, p, now);
    ParkedAside(b, sent, p.seqNo + 1);
    VisitedAllOk(b.(zombies := []), sent, p.seqNo + 1, b.zombies, now);
    PassedTwice(b, sent, p.seqNo + 1, now);
  }

  lemma PoppedIsNew(w: World<RtpPacket>, sent: seq<Clip>, now: int)
    requires BufferOk(w, sent) && PopSpec(w.st, now).out.Some?
    ensures var u := PopSpec(w.st, now).out.value;
            && Bound(w) <= u.seqNo == u.data.seqNo && Arrived(u.seqNo, u.data, sent)
            && Bound(Step(w, Pop(now))) == u.seqNo + 1
  {
    hide PopSpec, Arrived;
    PopTakesTheOldest(w.st, now, 0);
    var u := PopSpec(w.st, now).out.value;
    assert Arrived(u.seqNo, u.data, sent);
    ArrivedNumber(u.seqNo, u.data, sent);
  }

  lemma ArrivedNumber(q: u32, p: RtpPacket, sent: seq<Clip>)
    requires Arrived(q, p, sent)
    ensures q == p.seqNo
  {
    hide IsPacket;
  }

  lemma BufferGoesOn(w: World<RtpPacket>, sent: seq<Clip>, e: JitterRuns.Event<RtpPacket>)
    requires BufferOk(w, sent) && !e.Push?
    ensures BufferOk(Step(w, e), sent)
    ensures e.SetRtt? || PopSpec(w.st, e.now).out.None? ==> Bound(Step(w, e)) == Bound(w)
  {
    hide Ordered, Genuine, PopSpec, Retuned, Arrived;
    StepStaysOrdered(w, e, 0);
  }

  lemma SenderMtu(s: Link, base: int)
    requires SenderOk(s.mtu, s.ssrc, s.sent, s.nextSeq, base)
    ensures s.mtu > RTP_HEADER + 2 && ClipsOk(s.sent)
  {
    hide ClipsOk, Recorded;
  }

  lemma PopStaysSound(s: Link, now: int, base: int)
    requires Sound(s, base)
    ensures s.mtu > RTP_HEADER + 2 && Sound(Next(s, PopPacket(now)), base)
  {
    hide SenderOk, AsmOk, DueTwice, LastTouched, BufferOk, Step, PopSpec, Took, Bound, ClipsOk, InRange, IsPacket;
    SenderMtu(s, base);
    BufferGoesOn(s.jitter, s.sent, Pop(now));
    if PopSpec(s.jitter.st, now).out.Some? {
      PoppedIsNew(s.jitter, s.sent, now);
      var u := PopSpec(s.jitter.st, now).out.value;
      var i: nat, j: nat :| IsPacket(u.data, s.sent, i, j);
      TookSound(s.asm, s.sent, Bound(s.jitter), u.data, i, j, now);
    }
  }

  lemma NextStaysSound(s: Link, e: Event, base: int)
    requires Sound(s, base) && Allowed(s, e, base)
    ensures Sound(Next(s, e), base)
  {
    match e {
      case SendFrame(f) => SendStaysSound(s, f, base);
      case Deliver(_, _, _, _) => DeliverStaysSound(s, e, base);
      case DeliverParity(i) => ParityStaysSound(s, i, base);
      case PopPacket(now) => PopStaysSound(s, now, base);
      case Rtt(ms) =>
        hide SenderOk, AsmOk, DueTwice, LastTouched, BufferOk, Step, Bound;
        BufferGoesOn(s.jitter, s.sent, SetRtt(ms));
    }
  }

  // ---- whole runs ----

  lemma {:induction false} RunIsSound(states: seq<Link>, es: seq<Event>, base: int, n: nat)
    requires Run(states, es, base) && n <= |es|
    ensures Sound(states[n], base)
  {
    hide Run, Sound, Next, Allowed;
    RunShape(states, es, base);
    if n == 0 {
      StartIsSound(states[0], base);
    } else {
      RunIsSound(states, es, base, n - 1);
      RunStep(states, es, base, n - 1);
      NextStaysSound(states[n - 1], es[n - 1], base);
    }
  }

  lemma RunShape(states: seq<Link>, es: seq<Event>, base: int)
    requires Run(states, es, base)
    ensures |states| == |es| + 1 && RTP_HEADER + 2 < states[0].mtu < 0x1_0000
    ensures states[0] == Start(states[0].mtu, states[0].ssrc)
  {
    hide Next, Allowed;
  }

  lemma RunStep(states: seq<Link>, es: seq<Event>, base: int, k: nat)
    requires Run(states, es, base) && k < |es|
    ensures |states| == |es| + 1 && Allowed(states[k], es[k], base) && states[k + 1] == Next(states[k], es[k])
  {
    hide Next;
  }

  lemma StartIsSound(s: Link, base: int)
    requires RTP_HEADER + 2 < s.mtu < 0x1_0000 && s == Start(s.mtu, s.ssrc)
    ensures Sound(s, base)
  {
  }

  /**
   * Every packet that leaves the buffer follows those before it, so the assembler is always defined: numbers rise
   * within a frame, and the pass over parked frames finds each of them non-empty.
   */
  lemma PacketsFollow(states: seq<Link>, es: seq<Event>, base: int, n: nat)
    requires Run(states, es, base) && n < |es| && es[n].PopPacket?
    ensures |states| == |es| + 1
    ensures var s := states[n];
            var r := PopSpec(s.jitter.st, es[n].now);
            r.out.Some? ==>
              && Follows(s.asm.cur, r.out.value.data)
              && var b := Assembled(s.asm, r.out.value.data, es[n].now);
                 (forall k :: 0 <= k < |b.zombies| ==> WellParked(b.zombies[k]))
                     && states[n + 1].asm == Passed(b, es[n].now)
  {
    hide Run, Sound, Next, Allowed, PopSpec, Assembled, Passed, WellParked, Took, Follows;
    RunIsSound(states, es, base, n);
    RunStep(states, es, base, n);
    var s := states[n];
    if PopSpec(s.jitter.st, es[n].now).out.Some? {
      PopTakes(s, es[n].now, base);
    }
  }

  lemma PopTakes(s: Link, now: int, base: int)
    requires Sound(s, base) && PopSpec(s.jitter.st, now).out.Some?
    ensures s.mtu > RTP_HEADER + 2
    ensures var p := PopSpec(s.jitter.st, now).out.value.data;
            && Follows(s.asm.cur, p)
            && var b := Assembled(s.asm, p, now);
               (forall k :: 0 <= k < |b.zombies| ==> WellParked(b.zombies[k]))
                   && Next(s, PopPacket(now)).asm == Passed(b, now)
  {
    hide SenderOk, AsmOk, DueTwice, LastTouched, BufferOk, Step, PopSpec, Took, Bound, ClipsOk, InRange, IsPacket,
         Assembled,
         Passed, WellParked, Follows;
    SenderMtu(s, base);
    PoppedIsNew(s.jitter, s.sent, now);
    var u := PopSpec(s.jitter.st, now).out.value;
    var i: nat, j: nat :| IsPacket(u.data, s.sent, i, j);
    TookSound(s.asm, s.sent, Bound(s.jitter), u.data, i, j, now);
  }

  /**
   * Where every emitted frame comes from. Over every run of sending, losing, repeating, reordering and
   * delivering packets and parities, each frame the assembler emits is what the packets of one sent
   * frame from some packet k on unpack to, all of them or with one packet m between k and the last
   * rebuilt; and it carries that frame's capture time.
   */
  lemma EveryEmission(states: seq<Link>, es: seq<Event>, base: int, x: OutFrame) returns (i: nat)
    requires Run(states, es, base) && |states| == |es| + 1 && x in states[|es|].asm.out
    ensures var s := states[|es|];
            && i < |s.sent| && s.mtu > RTP_HEADER + 2
            && s.sent[i].ps == FramePackets(s.sent[i].f, s.mtu, s.sent[i].q0, s.ssrc)
            && x.frameId == Millis(s.sent[i]) && x.captureUs == Millis(s.sent[i]) * 1000
            && (s.sent[i].f.captureUs >= 0 ==> x.captureUs <= s.sent[i].f.captureUs < x.captureUs + 1000)
            && FromClip(Some(x), s.sent[i])
  {
    hide Run, Sound, FromClip, FramePackets, Millis;
    RunIsSound(states, es, base, |es|);
    i := ShownBy(states[|es|], base, x);
    SenderFacts(states[|es|], i, base);
    ShownTime(x, states[|es|].sent[i]);
    WholeMillis(states[|es|].sent[i]);
  }

  lemma WholeMillis(c: Clip)
    ensures c.f.captureUs >= 0 ==> Millis(c) * 1000 <= c.f.captureUs < Millis(c) * 1000 + 1000
  {
  }

  lemma ShownBy(s: Link, base: int, x: OutFrame) returns (i: nat)
    requires Sound(s, base) && x in s.asm.out
    ensures i < |s.sent| && FromClip(Some(x), s.sent[i])
  {
    hide SenderOk, BufferOk, DueTwice, LastTouched, FromClip, CollectedFrom, ParitiesOk;
    assert ShownFrom(x, s.sent);
    i :| 0 <= i < |s.sent| && FromClip(Some(x), s.sent[i]);
  }

  lemma ShownTime(x: OutFrame, c: Clip)
    requires FromClip(Some(x), c)
    ensures x.frameId == Millis(c) && x.captureUs == Millis(c) * 1000
  {
    hide Unpack, Millis;
  }

  /** At most twice: over every run no frame sent is emitted three times, repaired and parked frames included. */
  lemma AtMostTwice(states: seq<Link>, es: seq<Event>, base: int, i: nat)
    requires Run(states, es, base) && |states| == |es| + 1 && i < |states[|es|].sent|
    ensures TimesShown(states[|es|].asm.out, Millis(states[|es|].sent[i])) <= 2
  {
    hide Run, Sound, Millis;
    RunIsSound(states, es, base, |es|);
    DueAtMost(states[|es|], base, i);
  }

  lemma DueAtMost(s: Link, base: int, i: nat)
    requires Sound(s, base) && i < |s.sent|
    ensures TimesShown(s.asm.out, Millis(s.sent[i])) <= 2
  {
    hide SenderOk, BufferOk, AsmOk, LastTouched, TimesShown, Millis;
  }
}
