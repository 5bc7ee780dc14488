/**
 * The RTP sender: NAL units become Single NAL Unit packets or FU-A fragments (sections 5.6 and 5.8
 * of RFC 6184), and one parity packet covers whole packets of the frame, headers included.
 */
module RtpServers {
  import opened Octets
  import opened Bytes
  import opened Options
  import opened MediaTypes
  import opened Fec
  import opened NackManagers
  import opened NalUnits

  const RTP_HEADER := 12
  const FU_A := 28

  /** The 12-octet RTP header: version 2, payload type 96. */
  function RtpHeader(marker: bool, seqNo: u16, timestamp: u32, ssrc: u32): (s: bytes)
    ensures |s| == RTP_HEADER
  {
    [0x80, if marker then 0xE0 else 0x60, Octet1(seqNo), Low(seqNo),
     Octet3(timestamp), Octet2(timestamp), Octet1(timestamp), Low(timestamp),
     Octet3(ssrc), Octet2(ssrc), Octet1(ssrc), Low(ssrc)]
  }

  function NalType(b: byte): byte {
    b % 32
  }

  /** The two octets in front of an FU-A fragment: the unit's header bits with type 28, then S, E and its type. */
  function FuHead(hdr: byte, first: bool, last: bool): bytes {
    [hdr / 32 * 32 + FU_A, (if first then 0x80 else 0) + (if last then 0x40 else 0) + NalType(hdr)]
  }

  /** The fragments of what follows a unit's header octet. */
  function FuPayloads(hdr: byte, rest: bytes, first: bool, maxPayload: nat): seq<bytes>
    requires maxPayload > 0
    decreases |rest|
  {
    if rest == [] then []
    else if |rest| <= maxPayload then [FuHead(hdr, first, true) + rest]
    else [FuHead(hdr, first, false) + rest[..maxPayload]] + FuPayloads(hdr, rest[maxPayload..], false, maxPayload)
  }

  predicate Single(nal: bytes, mtu: nat) {
    |nal| + RTP_HEADER <= mtu
  }

  function Payloads(nal: bytes, mtu: nat): seq<bytes>
    requires mtu > RTP_HEADER + 2
  {
    if Single(nal, mtu) || nal == [] then [nal] else FuPayloads(nal[0], nal[1..], true, mtu - RTP_HEADER - 2)
  }

  function AllPayloads(nals: seq<bytes>, mtu: nat): seq<bytes>
    requires mtu > RTP_HEADER + 2
  {
    if nals == [] then [] else AllPayloads(nals[..|nals| - 1], mtu) + Payloads(nals[|nals| - 1], mtu)
  }

  /** Microseconds to milliseconds, rounded towards zero. */
  function InMillis(us: int): int {
    if us >= 0 then us / 1000 else -(-us / 1000)
  }

  function Timestamp(f: Frame): u32 {
    InMillis(f.captureUs) * 90 % TWO32
  }

  function Packet(payloads: seq<bytes>, i: nat, marker: bool, seqNo: nat, timestamp: u32, ssrc: u32): bytes
    requires i < |payloads|
  {
    RtpHeader(marker, (seqNo + i) % 0x1_0000, timestamp, ssrc) + payloads[i]
  }

  /** All packets of a frame: consecutive numbers, one timestamp, the marker on the last. */
  function Packets(payloads: seq<bytes>, seqNo: nat, timestamp: u32, ssrc: u32): (ps: seq<bytes>)
    ensures |ps| == |payloads|
  {
    seq(|payloads|, i requires 0 <= i < |payloads| => Packet(payloads, i, i == |payloads| - 1, seqNo, timestamp, ssrc))
  }

  function FramePackets(f: Frame, mtu: nat, seqNo: nat, ssrc: u32): seq<bytes>
    requires mtu > RTP_HEADER + 2
  {
    Packets(AllPayloads(Nalus(f.data), mtu), seqNo, Timestamp(f), ssrc)
  }

  function ParityPacket(f: Frame, packets: seq<bytes>): bytes {
    Encode(UdpHeader(FEC, f.frameId % TWO32, FEC_SEQ, |packets| % 0x1_0000, f.frameId % TWO32,
                     InMillis(f.captureUs) % TWO32, |Parity(packets)| % 0x1_0000, 0).SetKeyframe(f.keyframe))
    + Parity(packets)
  }

  function PacketSeq(p: bytes): u16
    requires |p| >= RTP_HEADER
  {
    Number16(p[2], p[3])
  }

  function RtpRemembered(packets: seq<bytes>): (h: seq<Sent>)
    requires forall i :: 0 <= i < |packets| ==> |packets[i]| >= RTP_HEADER
    ensures |h| == |packets|
  {
    seq(|packets|, i requires 0 <= i < |packets| => Sent(0, PacketSeq(packets[i]), packets[i]))
  }

  // ---- the shape of FU-A ----

  /** The S and E bits of a fragment, as section 5.8 of RFC 6184 places them. */
  predicate StartBit(pl: bytes)
    requires |pl| >= 2
  {
    pl[1] >= 0x80
  }

  predicate EndBit(pl: bytes)
    requires |pl| >= 2
  {
    pl[1] % 0x80 >= 0x40
  }

  function ChunkSum(pls: seq<bytes>): int {
    if pls == [] then 0 else |pls[0]| - 2 + ChunkSum(pls[1..])
  }

  /** Fragments are at most maxPayload long, carry the unit's type, start only first and end only last. */
  ghost predicate FuShape(pls: seq<bytes>, hdr: byte, first: bool, maxPayload: nat) {
    forall i :: 0 <= i < |pls| ==>
      && 3 <= |pls[i]| <= maxPayload + 2
      && NalType(pls[i][0]) == FU_A && pls[i][0] / 32 == hdr / 32 && NalType(pls[i][1]) == NalType(hdr)
      && (StartBit(pls[i]) <==> first && i == 0)
      && (EndBit(pls[i]) <==> i == |pls| - 1)
      && (i < |pls| - 1 ==> |pls[i]| == maxPayload + 2)
  }

  lemma HeadBits(hdr: byte, first: bool, last: bool, chunk: bytes)
    ensures var pl := FuHead(hdr, first, last) + chunk;
            && NalType(pl[0]) == FU_A && pl[0] / 32 == hdr / 32 && NalType(pl[1]) == NalType(hdr)
            && (StartBit(pl) <==> first) && (EndBit(pl) <==> last) && |pl| == 2 + |chunk| && pl[2..] == chunk
  {
  }

  lemma {:induction false} FuPayloadsShape(hdr: byte, rest: bytes, first: bool, maxPayload: nat)
    requires maxPayload > 0 && rest != []
    ensures var pls := FuPayloads(hdr, rest, first, maxPayload);
            pls != [] && FuShape(pls, hdr, first, maxPayload) && ChunkSum(pls) == |rest|
            && (|pls| == 1 <==> |rest| <= maxPayload)
    decreases |rest|
  {
    hide FuHead, NalType, StartBit, EndBit;
    if |rest| <= maxPayload {
      HeadBits(hdr, first, true, rest);
    } else {
      HeadBits(hdr, first, false, rest[..maxPayload]);
      FuPayloadsShape(hdr, rest[maxPayload..], false, maxPayload);
    }
  }

  /**
   * A unit too long for one packet is cut into at least two fragments of at most mtu octets with
   * their 12-octet RTP header, all but the last full; each is of type 28 with the unit's other header bits, and names
   * the unit's type; exactly the first has S, exactly the last has E, so never both in one; the fragments add up to
   * the unit without its header octet.
   */
  lemma FuAWellFormed(nal: bytes, mtu: nat)
    requires mtu > RTP_HEADER + 2 && nal != [] && !Single(nal, mtu)
    ensures var pls := Payloads(nal, mtu);
            && |pls| >= 2 && ChunkSum(pls) == |nal| - 1
            && forall i :: 0 <= i < |pls| ==>
                 && 3 <= |pls[i]| <= mtu - 12 && (i < |pls| - 1 ==> |pls[i]| == mtu - 12)
                 && pls[i][0] % 32 == 28 && pls[i][0] / 32 == nal[0] / 32 && pls[i][1] % 32 == nal[0] % 32
                 && (pls[i][1] >= 0x80 <==> i == 0) && (pls[i][1] % 0x80 >= 0x40 <==> i == |pls| - 1)
  {
    hide FuPayloads;
    FuPayloadsShape(nal[0], nal[1..], true, mtu - RTP_HEADER - 2);
  }

  /** The 12 octets in front of every packet, as section 5.1 of RFC 3550 lays them out. */
  lemma PacketHeader(f: Frame, mtu: nat, seqNo: nat, ssrc: u32, i: nat)
    requires mtu > RTP_HEADER + 2 && i < |FramePackets(f, mtu, seqNo, ssrc)|
    ensures var ps := FramePackets(f, mtu, seqNo, ssrc);
            var p := ps[i];
            && |p| > 12 && p[0] == 0x80 && p[1] == (if i == |ps| - 1 then 0x80 else 0) + 96
            && Number16(p[2], p[3]) == (seqNo + i) % 0x1_0000
            && Number32(p[4], p[5], p[6], p[7]) == InMillis(f.captureUs) * 90 % 0x1_0000_0000
            && Number32(p[8], p[9], p[10], p[11]) == ssrc
  {
    hide Nalus, AllPayloads, Octet1, Octet2, Octet3, Low, Number16, Number32;
    NalusNonEmpty(f.data);
    PayloadSizes(Nalus(f.data), mtu, i);
    var pls := AllPayloads(Nalus(f.data), mtu);
    PacketAt(pls, seqNo, Timestamp(f), ssrc, i);
    Number16Octets((seqNo + i) % 0x1_0000);
    Number32Octets(Timestamp(f));
    Number32Octets(ssrc);
  }

  lemma {:induction false} PayloadSizes(nals: seq<bytes>, mtu: nat, i: nat)
    requires mtu > RTP_HEADER + 2 && i < |AllPayloads(nals, mtu)|
    requires forall k :: 0 <= k < |nals| ==> nals[k] != []
    ensures 1 <= |AllPayloads(nals, mtu)[i]| <= mtu - RTP_HEADER
  {
    hide FuPayloads;
    var n := |nals| - 1;
    if i < |AllPayloads(nals[..n], mtu)| {
      PayloadSizes(nals[..n], mtu, i);
    } else if !Single(nals[n], mtu) {
      FuPayloadsShape(nals[n][0], nals[n][1..], true, mtu - RTP_HEADER - 2);
    }
  }

  /** The cutter never yields an empty unit. */
  lemma {:induction false} NalusNonEmpty(s: bytes)
    ensures forall k :: 0 <= k < |Nalus(s)| ==> Nalus(s)[k] != []
    decreases |s|
  {
    hide Nalus, FirstCode, CodeLen;
    NalusStep(s);
    var at := FirstCode(s);
    if at < |s| {
      FirstCodeFacts(s, at);
      var rest := s[at + CodeLen(s[at..])..];
      var n := FirstCode(rest);
      if n > 0 {
        NalusNonEmpty(rest[n..]);
      }
    }
  }

  /** Every packet of a frame fits the MTU, is numbered consecutively modulo 2^16, and only the last is marked. */
  lemma PacketsWellFormed(f: Frame, mtu: nat, seqNo: nat, ssrc: u32, i: nat)
    requires mtu > RTP_HEADER + 2 && i < |FramePackets(f, mtu, seqNo, ssrc)|
    ensures var ps := FramePackets(f, mtu, seqNo, ssrc);
            && RTP_HEADER < |ps[i]| <= mtu && ps[i][0] == 0x80
            && PacketSeq(ps[i]) == (seqNo + i) % 0x1_0000
            && (ps[i][1] >= 0x80 <==> i == |ps| - 1)
  {
    hide Nalus, AllPayloads, RtpHeader, PacketSeq, Timestamp;
    NalusNonEmpty(f.data);
    PayloadSizes(Nalus(f.data), mtu, i);
    var pls := AllPayloads(Nalus(f.data), mtu);
    PacketAt(pls, seqNo, Timestamp(f), ssrc, i);
    HeaderFacts(i == |pls| - 1, (seqNo + i) % 0x1_0000, Timestamp(f), ssrc, pls[i]);
  }

  lemma PacketAt(payloads: seq<bytes>, seqNo: nat, timestamp: u32, ssrc: u32, i: nat)
    requires i < |payloads|
    ensures Packets(payloads, seqNo, timestamp, ssrc)[i] ==
            RtpHeader(i == |payloads| - 1, (seqNo + i) % 0x1_0000, timestamp, ssrc) + payloads[i]
  {
    var marker := i == |payloads| - 1;
    assert Packets(payloads, seqNo, timestamp, ssrc)[i] == Packet(payloads, i, marker, seqNo, timestamp, ssrc);
  }

  lemma HeaderFacts(marker: bool, q: u16, timestamp: u32, ssrc: u32, payload: bytes)
    ensures var p := RtpHeader(marker, q, timestamp, ssrc) + payload;
            && |p| == RTP_HEADER + |payload| && p[0] == 0x80 && (p[1] >= 0x80 <==> marker)
            && PacketSeq(p) == q && p[RTP_HEADER..] == payload
            && p[4] == Octet3(timestamp) && p[5] == Octet2(timestamp) && p[6] == Octet1(timestamp)
                && p[7] == Low(timestamp)
  {
    hide Octet1, Octet2, Octet3, Low, Number16;
    Number16Octets(q);
  }

  // ---- the code ----

  /** Packets before the last one is marked. */
  function Unmarked(payloads: seq<bytes>, seqNo: nat, timestamp: u32, ssrc: u32): (ps: seq<bytes>)
    ensures |ps| == |payloads|
  {
    seq(|payloads|, i requires 0 <= i < |payloads| => Packet(payloads, i, false, seqNo, timestamp, ssrc))
  }

  lemma UnmarkedAppend(a: seq<bytes>, b: seq<bytes>, seqNo: nat, q: u16, timestamp: u32, ssrc: u32)
    requires q == (seqNo + |a|) % 0x1_0000
    ensures Unmarked(a + b, seqNo, timestamp, ssrc) == Unmarked(a, seqNo, timestamp, ssrc) + Unmarked(b, q,
            timestamp, ssrc)
  {
    hide RtpHeader;
    forall i | 0 <= i < |b|
      ensures Unmarked(a + b, seqNo, timestamp, ssrc)[|a| + i] == Unmarked(b, q, timestamp, ssrc)[i]
    {
      assert (seqNo + (|a| + i)) % 0x1_0000 == (q + i) % 0x1_0000 by { ShiftModulo(seqNo + |a|, i); }
    }
  }

  lemma ShiftModulo(x: nat, i: nat)
    ensures (x + i) % 0x1_0000 == (x % 0x1_0000 + i) % 0x1_0000
  {
  }

  /** Marking the last packet turns the unmarked packets into the frame's packets. */
  lemma MarkingLast(payloads: seq<bytes>, seqNo: nat, timestamp: u32, ssrc: u32)
    requires payloads != []
    ensures var us, n := Unmarked(payloads, seqNo, timestamp, ssrc), |payloads| - 1;
            |us[n]| >= RTP_HEADER && us[n][1] == 0x60
                && us[n := us[n][1 := 0xE0]] == Packets(payloads, seqNo, timestamp, ssrc)
  {
    hide Octet1, Octet2, Octet3, Low;
    var us, n := Unmarked(payloads, seqNo, timestamp, ssrc), |payloads| - 1;
    forall i | 0 <= i <= n
      ensures us[n := us[n][1 := 0xE0]][i] == Packets(payloads, seqNo, timestamp, ssrc)[i]
    {
      PacketAt(payloads, seqNo, timestamp, ssrc, i);
    }
  }

  class RtpServer {
    const mtu: nat
    const ssrc: u32
    const nack: NackManager
    var seqNo: u16
    var injected: seq<bytes>   // everything handed to the link simulator, in order

    /** The cache has been told every packet under its own number, and the counter goes on from there. */
    ghost predicate Valid()
      reads this, nack
    {
      nack.Valid() && Numbered(nack.history) && seqNo == |nack.history| % 0x1_0000
    }

    constructor (mtu: nat, nackCache: nat, ssrc: u32)
      ensures this.mtu == mtu && this.ssrc == ssrc && seqNo == 0 && injected == [] && fresh(nack)
      ensures Valid() && nack.history == [] && nack.cache == nackCache
    {
      this.mtu, this.ssrc := mtu, ssrc;
      nack := new NackManager(nackCache);
      seqNo, injected := 0, [];
    }

    method NextPacket(payload: bytes, timestamp: u32) returns (pkt: bytes)
      modifies this`seqNo
      ensures pkt == RtpHeader(false, old(seqNo), timestamp, ssrc) + payload
      ensures seqNo == (old(seqNo) + 1) % 0x1_0000
    {
      pkt := RtpHeader(false, seqNo, timestamp, ssrc) + payload;
      seqNo := (seqNo + 1) % 0x1_0000;
    }

    /** The body of the unit loop: one packet, or one per FU-A fragment. */
    method PackNal(nal: bytes, timestamp: u32) returns (packets: seq<bytes>)
      requires mtu > RTP_HEADER + 2 && nal != []
      modifies this`seqNo
      ensures packets == Unmarked(Payloads(nal, mtu), old(seqNo), timestamp, ssrc)
      ensures seqNo == (old(seqNo) + |packets|) % 0x1_0000
    {
      hide RtpHeader, Unmarked, FuPayloads;
      if |nal| <= mtu - RTP_HEADER {
        UnmarkedOne(nal, seqNo, timestamp, ssrc);
        var pkt := NextPacket(nal, timestamp);
        return [pkt];
      }
      packets := Fragment(nal, timestamp);
    }

    /** The FU-A loop. */
    method Fragment(nal: bytes, timestamp: u32) returns (packets: seq<bytes>)
      requires mtu > RTP_HEADER + 2 && |nal| > 1
      modifies this`seqNo
      ensures packets ==
              Unmarked(FuPayloads(nal[0], nal[1..], true, mtu - RTP_HEADER - 2), old(seqNo), timestamp, ssrc)
      ensures seqNo == (old(seqNo) + |packets|) % 0x1_0000
    {
      hide RtpHeader, Unmarked, FuPayloads, FuHead;
      var maxPayload := mtu - RTP_HEADER - 2;
      var payloadOff: nat, remain: nat := 1, |nal| - 1;
      packets := [];
      ghost var done: seq<bytes> := [];
      ghost var whole := FuPayloads(nal[0], nal[1..], true, maxPayload);
      ghost var rest := whole;
      UnmarkedNothing(seqNo, timestamp, ssrc);
      while remain > 0
        invariant 1 <= payloadOff && payloadOff + remain == |nal|
        invariant rest == FuPayloads(nal[0], nal[payloadOff..], payloadOff == 1, maxPayload)
        invariant whole == done + rest
        invariant packets == Unmarked(done, old(seqNo), timestamp, ssrc)
        invariant |packets| == |done| && seqNo == (old(seqNo) + |done|) % 0x1_0000
        decreases remain
      {
        var chunk := if maxPayload < remain then maxPayload else remain;
        var first := payloadOff == 1;
        var last := chunk == remain;
        var payload := FuHead(nal[0], first, last) + nal[payloadOff..payloadOff + chunk];
        FuStep(nal, payloadOff, first, maxPayload);
        UnmarkedAppend(done, [payload], old(seqNo), seqNo, timestamp, ssrc);
        UnmarkedOne(payload, seqNo, timestamp, ssrc);
        rest := FuPayloads(nal[0], nal[payloadOff + chunk..], false, maxPayload);
        assert done + ([payload] + rest) == (done + [payload]) + rest;
        done := done + [payload];
        var pkt := NextPacket(payload, timestamp);
        packets := packets + [pkt];
        payloadOff := payloadOff + chunk;
        remain := remain - chunk;
      }
      FuNothing(nal[0], nal[payloadOff..], payloadOff == 1, maxPayload);
      assert done + [] == done;
    }

    /** send_frame: cut, packetise, mark, add the parity packet, remember and hand on. */
    method SendFrame(f: Frame)
      requires mtu > RTP_HEADER + 2 && Valid()
      modifies this, nack
      ensures Valid()
      ensures var ps := FramePackets(f, mtu, old(seqNo), ssrc);
              && seqNo == (old(seqNo) + |ps|) % 0x1_0000
              && (forall i :: 0 <= i < |ps| ==> |ps[i]| >= RTP_HEADER)
              && injected == old(injected) + (if ps == [] then [] else ps + [ParityPacket(f, ps)])
              && nack.history == old(nack.history) + RtpRemembered(ps)
    {
      hide FramePackets, RtpRemembered, ParityPacket, Numbered, Timestamp, Encode;
      ghost var past, ps := nack.history, FramePackets(f, mtu, seqNo, ssrc);
      var packets := Packetise(f);
      PacketsLongEnough(f, mtu, old(seqNo), ssrc);
      ghost var more := RtpRemembered(ps);
      forall i | 0 <= i < |more|
        ensures Has(more[i], 0, (|past| + i) % 0x1_0000)
      {
        PacketsWellFormed(f, mtu, old(seqNo), ssrc, i);
        RememberedAs(ps, i);
        ShiftModulo(|past|, i);
      }
      NumberedFurther(past, more);
      ShiftModulo(|past|, |ps|);
      if packets == [] {
        NoneRemembered();
        assert injected + [] == injected && nack.history + [] == nack.history;
        return;
      }
      SendAll(packets);
      var pkt := ParityDatagram(f, packets);
      injected := injected + [pkt];
      assert old(injected) + ps + [pkt] == old(injected) + (ps + [pkt]);
    }

    /** The packets of the frame, the last of them marked. */
    method Packetise(f: Frame) returns (packets: seq<bytes>)
      requires mtu > RTP_HEADER + 2
      modifies this`seqNo
      ensures packets == FramePackets(f, mtu, old(seqNo), ssrc)
      ensures seqNo == (old(seqNo) + |packets|) % 0x1_0000
    {
      hide RtpHeader, Nalus, FuPayloads, Packets, Unmarked, AllPayloads;
      var timestamp := Timestamp(f);
      packets := CutAndPack(f, timestamp);
      if packets == [] {
        assert FramePackets(f, mtu, old(seqNo), ssrc) == [];
        return;
      }
      MarkingLast(AllPayloads(Nalus(f.data), mtu), old(seqNo), timestamp, ssrc);
      var n := |packets| - 1;
      packets := packets[n := packets[n][1 := packets[n][1] + 0x80]];
    }

    /** The parity over whole packets, behind its own header. */
    method ParityDatagram(f: Frame, packets: seq<bytes>) returns (pkt: bytes)
      ensures pkt == ParityPacket(f, packets)
    {
      hide Parity;
      var parity := FecGenerate(packets);
      var h := BLANK.(payloadType := FEC, groupId := f.frameId % TWO32, fragmentSeq := FEC_SEQ,
                      fragmentCnt := |packets| % 0x1_0000, frameId := f.frameId % TWO32,
                      captureLo := InMillis(f.captureUs) % TWO32,
                      payloadLen := |parity| % 0x1_0000).SetKeyframe(f.keyframe);
      pkt := Encode(h) + parity;
    }

    method CutAndPack(f: Frame, timestamp: u32) returns (packets: seq<bytes>)
      requires mtu > RTP_HEADER + 2
      modifies this`seqNo
      ensures packets == Unmarked(AllPayloads(Nalus(f.data), mtu), old(seqNo), timestamp, ssrc)
      ensures seqNo == (old(seqNo) + |packets|) % 0x1_0000
    {
      hide RtpHeader, Nalus, Payloads, Unmarked;
      packets := [];
      var pos := 0;
      ghost var cut: seq<bytes> := [];
      assert f.data[0..] == f.data;
      UnmarkedNothing(seqNo, timestamp, ssrc);
      while pos < |f.data|
        invariant pos <= |f.data|
        invariant cut + Nalus(f.data[pos..]) == Nalus(f.data)
        invariant packets == Unmarked(AllPayloads(cut, mtu), old(seqNo), timestamp, ssrc)
        invariant seqNo == (old(seqNo) + |packets|) % 0x1_0000
        decreases |f.data| - pos
      {
        var r := NextNalu(f.data, pos);
        if r == None {
          break;
        }
        var (start, len) := r.value;
        var nal := f.data[start..start + len];
        ghost var before := AllPayloads(cut, mtu);
        ghost var rest := Nalus(f.data[start + len..]);
        assert cut + ([nal] + rest) == (cut + [nal]) + rest;
        assert (cut + [nal])[..|cut|] == cut;
        UnmarkedAppend(before, Payloads(nal, mtu), old(seqNo), seqNo, timestamp, ssrc);
        cut := cut + [nal];
        var more := PackNal(nal, timestamp);
        packets := packets + more;
        pos := start + len;
      }
      if pos == |f.data| {
        assert f.data[pos..] == [];
        NothingToCut();
      }
      assert cut + [] == cut;
    }

    method SendAll(packets: seq<bytes>)
      requires nack.Valid() && forall i :: 0 <= i < |packets| ==> |packets[i]| >= RTP_HEADER
      modifies this`injected, nack
      ensures nack.Valid() && injected == old(injected) + packets
      ensures nack.history == old(nack.history) + RtpRemembered(packets)
    {
      ghost var hs := RtpRemembered(packets);
      for i := 0 to |packets|
        invariant nack.Valid() && injected == old(injected) + packets[..i]
        invariant nack.history == old(nack.history) + hs[..i]
      {
        nack.Remember(0, PacketSeq(packets[i]), packets[i]);
        injected := injected + [packets[i]];
        assert packets[..i + 1] == packets[..i] + [packets[i]] && hs[..i + 1] == hs[..i] + [hs[i]];
      }
      assert packets[..|packets|] == packets && hs[..|packets|] == hs;
    }

    /** As long as it holds at most 65536 packets, the resend cache never holds two under one key. */
    lemma CachedKeysDistinct(a: nat, b: nat)
      requires Valid() && nack.cache <= 0x1_0000 && a < b < |nack.items|
      ensures nack.items[a].groupId == nack.items[b].groupId == 0
      ensures nack.items[a].fragmentSeq != nack.items[b].fragmentSeq
    {
      NumbersDistinct(nack.history, nack.cache, a, b);
    }

    /** A larger cache does, as soon as it holds more packets than there are numbers. */
    lemma CachedKeysCollide()
      requires Valid() && |nack.items| > 0x1_0000
      ensures var a, b := |nack.items| - 1 - 0x1_0000, |nack.items| - 1;
              nack.items[a].groupId == nack.items[b].groupId && nack.items[a].fragmentSeq == nack.items[b].fragmentSeq
    {
      var off := |nack.history| - |nack.items|;
      var last := |nack.history| - 1;
      assert nack.items[|nack.items| - 1] == nack.history[last];
      assert nack.items[|nack.items| - 1 - 0x1_0000] == nack.history[last - 0x1_0000];
      ShiftModulo(last - 0x1_0000, 0x1_0000);
    }

    /** A request for the number of any cached packet is answered with that very packet. */
    lemma FoundIsNamed(i: nat)
      requires Valid() && nack.cache <= 0x1_0000 && i < |nack.items|
      ensures FindLast(nack.items, 0, nack.items[i].fragmentSeq) == Some(nack.items[i].raw)
    {
      hide FindLast, Numbered;
      var q := nack.items[i].fragmentSeq;
      var k := FindLastMeaning(nack.items, 0, q);
      ItemsInGroupZero(nack.history, nack.cache, i);
      if i < k {
        CachedKeysDistinct(i, k);
      }
    }
  }

  lemma ItemsInGroupZero(history: seq<Sent>, capacity: nat, i: nat)
    requires Numbered(history) && i < |Window(history, capacity)|
    ensures Window(history, capacity)[i].groupId == 0
  {
  }

  lemma NoneRemembered()
    ensures RtpRemembered([]) == []
  {
  }

  lemma RememberedAs(ps: seq<bytes>, i: nat)
    requires i < |ps| && forall k :: 0 <= k < |ps| ==> |ps[k]| >= RTP_HEADER
    ensures RtpRemembered(ps)[i] == Sent(0, PacketSeq(ps[i]), ps[i])
  {
    hide PacketSeq;
  }

  lemma SeqOf(p: bytes)
    requires |p| >= RTP_HEADER
    ensures PacketSeq(p) == Number16(p[2], p[3])
  {
  }

  lemma FuNothing(hdr: byte, rest: bytes, first: bool, maxPayload: nat)
    requires maxPayload > 0 && rest == []
    ensures FuPayloads(hdr, rest, first, maxPayload) == []
  {
  }

  lemma UnmarkedOne(payload: bytes, q: u16, timestamp: u32, ssrc: u32)
    ensures Unmarked([payload], q, timestamp, ssrc) == [RtpHeader(false, q, timestamp, ssrc) + payload]
  {
    hide RtpHeader;
  }

  lemma UnmarkedNothing(seqNo: nat, timestamp: u32, ssrc: u32)
    ensures Unmarked([], seqNo, timestamp, ssrc) == []
  {
  }

  lemma PacketsLongEnough(f: Frame, mtu: nat, seqNo: nat, ssrc: u32)
    requires mtu > RTP_HEADER + 2
    ensures var ps := FramePackets(f, mtu, seqNo, ssrc); forall i :: 0 <= i < |ps| ==> |ps[i]| >= RTP_HEADER
  {
    hide FramePackets, PacketSeq;
    var ps := FramePackets(f, mtu, seqNo, ssrc);
    forall i | 0 <= i < |ps|
      ensures |ps[i]| >= RTP_HEADER
    {
      PacketsWellFormed(f, mtu, seqNo, ssrc, i);
    }
  }

  lemma FuStep(nal: bytes, off: nat, first: bool, maxPayload: nat)
    requires 1 <= off < |nal| && maxPayload > 0
    ensures var remain := |nal| - off;
            var chunk := if maxPayload < remain then maxPayload else remain;
            FuPayloads(nal[0], nal[off..], first, maxPayload) ==
              [FuHead(nal[0], first, chunk == remain) + nal[off..off + chunk]]
              + FuPayloads(nal[0], nal[off + chunk..], false, maxPayload)
  {
    hide FuHead;
    var rest := nal[off..];
    if |rest| <= maxPayload {
      assert nal[off..|nal|] == rest && nal[|nal|..] == [];
    } else {
      assert rest[..maxPayload] == nal[off..off + maxPayload] && rest[maxPayload..] == nal[off + maxPayload..];
    }
  }
}
