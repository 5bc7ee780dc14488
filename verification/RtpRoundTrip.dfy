/**
 * What the RTP receiver makes of the RTP sender's packets: the exact round trip of NAL units, and
 * the repair of one whole packet.
 */
module RtpRoundTrip {
  import opened Octets
  import opened Bytes
  import opened MediaTypes
  import opened NalUnits
  import opened RtpServers
  import opened RtpReceivers

  // ---- payloads and packets ----

  function UnpackAll(a: Stream, pls: seq<bytes>): Stream
    requires forall i :: 0 <= i < |pls| ==> pls[i] != []
    decreases |pls|
  {
    if pls == [] then a else UnpackAll(UnpackPayload(a, pls[0]), pls[1..])
  }

  ghost predicate NonEmpty(pls: seq<bytes>) {
    forall i :: 0 <= i < |pls| ==> pls[i] != []
  }

  lemma {:induction false} UnpackAppend(a: Stream, xs: seq<bytes>, ys: seq<bytes>)
    ensures Unpack(a, xs + ys) == Unpack(Unpack(a, xs), ys)
    decreases |xs|
  {
    if xs == [] {
      assert xs + ys == ys;
    } else {
      assert (xs + ys)[1..] == xs[1..] + ys;
      UnpackHead(a, xs + ys);
      UnpackAppend(UnpackPacket(a, xs[0]), xs[1..], ys);
    }
  }

  lemma {:induction false} UnpackAllAppend(a: Stream, xs: seq<bytes>, ys: seq<bytes>)
    requires NonEmpty(xs) && NonEmpty(ys)
    ensures NonEmpty(xs + ys) && UnpackAll(a, xs + ys) == UnpackAll(UnpackAll(a, xs), ys)
    decreases |xs|
  {
    hide UnpackPayload;
    if xs == [] {
      assert xs + ys == ys;
    } else {
      assert (xs + ys)[1..] == xs[1..] + ys;
      UnpackAllAppend(UnpackPayload(a, xs[0]), xs[1..], ys);
    }
  }

  /** A packet unpacks as its payload does. */
  ghost predicate Carries(raw: bytes, pl: bytes) {
    |raw| >= RTP_HEADER && raw[RTP_HEADER..] == pl
  }

  lemma {:induction false} UnpackCarried(a: Stream, raws: seq<bytes>, pls: seq<bytes>)
    requires |raws| == |pls| && NonEmpty(pls) && forall i :: 0 <= i < |raws| ==> Carries(raws[i], pls[i])
    ensures Unpack(a, raws) == UnpackAll(a, pls)
    decreases |raws|
  {
    if raws != [] {
      hide UnpackPayload;
      assert Carries(raws[0], pls[0]) && |raws[0]| >= 13;
      UnpackCarried(UnpackPayload(a, pls[0]), raws[1..], pls[1..]);
    }
  }

  lemma PacketsCarry(pls: seq<bytes>, seqNo: nat, timestamp: u32, ssrc: u32, i: nat)
    requires i < |pls|
    ensures Carries(Packets(pls, seqNo, timestamp, ssrc)[i], pls[i])
  {
    hide RtpHeader, Packets;
    PacketAt(pls, seqNo, timestamp, ssrc, i);
  }

  // ---- one unit ----

  function Opened(a: Stream, nal: bytes): Stream
    requires nal != []
  {
    Stream(a.annexb + CODE4 + nal, a.keyframe || NalType(nal[0]) == 5, false)
  }

  lemma HeadUnpacks(a: Stream, hdr: byte, first: bool, last: bool, chunk: bytes)
    ensures var pl := FuHead(hdr, first, last) + chunk;
            UnpackPayload(a, pl) ==
              if first then Stream(a.annexb + CODE4 + [hdr] + chunk, a.keyframe || NalType(hdr) == 5, !last)
              else Stream(if a.fuActive then a.annexb + chunk else a.annexb, a.keyframe, a.fuActive && !last)
  {
    HeadBits(hdr, first, last, chunk);
    assert hdr / 32 * 32 + NalType(hdr) == hdr;
    hide FuHead;
  }

  lemma {:induction false} FuPayloadsNonEmpty(hdr: byte, rest: bytes, first: bool, maxPayload: nat)
    requires maxPayload > 0
    ensures NonEmpty(FuPayloads(hdr, rest, first, maxPayload))
    decreases |rest|
  {
    if |rest| > maxPayload {
      FuPayloadsNonEmpty(hdr, rest[maxPayload..], false, maxPayload);
    }
  }

  /** The fragments after the first continue the unit that is open. */
  lemma {:induction false} FuContinues(a: Stream, hdr: byte, rest: bytes, maxPayload: nat)
    requires maxPayload > 0 && rest != [] && a.fuActive
    ensures NonEmpty(FuPayloads(hdr, rest, false, maxPayload))
    ensures UnpackAll(a, FuPayloads(hdr, rest, false, maxPayload)) == Stream(a.annexb + rest, a.keyframe, false)
    decreases |rest|
  {
    FuPayloadsNonEmpty(hdr, rest, false, maxPayload);
    hide UnpackPayload, FuHead;
    if |rest| <= maxPayload {
      HeadUnpacks(a, hdr, false, true, rest);
      UnpackOnly(a, FuHead(hdr, false, true) + rest);
    } else {
      var pl, more := FuHead(hdr, false, false) + rest[..maxPayload], rest[maxPayload..];
      HeadUnpacks(a, hdr, false, false, rest[..maxPayload]);
      FuContinues(UnpackPayload(a, pl), hdr, more, maxPayload);
      assert FuPayloads(hdr, rest, false, maxPayload)[1..] == FuPayloads(hdr, more, false, maxPayload);
      assert a.annexb + rest[..maxPayload] + more == a.annexb + rest;
    }
  }

  lemma UnpackOnly(a: Stream, pl: bytes)
    requires pl != []
    ensures UnpackAll(a, [pl]) == UnpackPayload(a, pl)
  {
    hide UnpackPayload;
    assert [pl][1..] == [];
  }

  lemma FuUnpacks(a: Stream, nal: bytes, maxPayload: nat)
    requires maxPayload > 0 && |nal| > maxPayload + 1
    ensures NonEmpty(FuPayloads(nal[0], nal[1..], true, maxPayload))
    ensures UnpackAll(a, FuPayloads(nal[0], nal[1..], true, maxPayload)) == Opened(a, nal)
  {
    var hdr, rest := nal[0], nal[1..];
    FuPayloadsNonEmpty(hdr, rest, true, maxPayload);
    hide UnpackPayload, FuHead, NalType;
    var pl, more := FuHead(hdr, true, false) + rest[..maxPayload], rest[maxPayload..];
    HeadUnpacks(a, hdr, true, false, rest[..maxPayload]);
    var b := UnpackPayload(a, pl);
    FuContinues(b, hdr, more, maxPayload);
    assert FuPayloads(hdr, rest, true, maxPayload)[1..] == FuPayloads(hdr, more, false, maxPayload);
    JoinUnit(a.annexb, hdr, rest, maxPayload, nal);
  }

  lemma JoinUnit(x: bytes, hdr: byte, rest: bytes, n: nat, nal: bytes)
    requires n <= |rest| && nal == [hdr] + rest
    ensures x + CODE4 + [hdr] + rest[..n] + rest[n..] == x + CODE4 + nal
  {
    assert rest[..n] + rest[n..] == rest;
    assert x + CODE4 + [hdr] + rest[..n] + rest[n..] == x + CODE4 + ([hdr] + (rest[..n] + rest[n..]));
  }

  /** A unit whose packet the receiver would take for an FU-A fragment. */
  predicate Mistaken(nal: bytes, mtu: nat)
    requires nal != []
  {
    |nal| + 12 <= mtu && nal[0] % 32 == 28
  }

  lemma NalUnpacks(a: Stream, nal: bytes, mtu: nat)
    requires mtu > RTP_HEADER + 2 && nal != []
    ensures NonEmpty(Payloads(nal, mtu))
    ensures !Mistaken(nal, mtu) ==> UnpackAll(a, Payloads(nal, mtu)) == Opened(a, nal)
    ensures |UnpackAll(a, Payloads(nal, mtu)).annexb| <= |a.annexb| + 4 + |nal|
    ensures Mistaken(nal, mtu) ==> |UnpackAll(a, Payloads(nal, mtu)).annexb| < |a.annexb| + 4 + |nal|
  {
    hide FuPayloads;
    if Single(nal, mtu) {
      UnpackOnly(a, nal);
    } else {
      FuUnpacks(a, nal, mtu - RTP_HEADER - 2);
    }
  }

  // ---- a whole frame ----

  /** Each unit behind a 4-octet start code. */
  function AnnexB(nals: seq<bytes>): bytes {
    if nals == [] then [] else AnnexB(nals[..|nals| - 1]) + CODE4 + nals[|nals| - 1]
  }

  ghost predicate HasIdr(nals: seq<bytes>) {
    exists i :: 0 <= i < |nals| && nals[i] != [] && NalType(nals[i][0]) == 5
  }

  /** No unit is mistaken for a fragment. */
  ghost predicate Clear(nals: seq<bytes>, mtu: nat)
    requires NonEmpty(nals)
  {
    forall i :: 0 <= i < |nals| ==> !Mistaken(nals[i], mtu)
  }

  lemma ClearAfter(nals: seq<bytes>, mtu: nat)
    requires NonEmpty(nals) && nals != []
    ensures NonEmpty(nals[..|nals| - 1])
    ensures Clear(nals, mtu) <==> Clear(nals[..|nals| - 1], mtu) && !Mistaken(nals[|nals| - 1], mtu)
  {
    hide Mistaken;
    var front := nals[..|nals| - 1];
    assert forall i :: 0 <= i < |front| ==> front[i] == nals[i];
  }

  lemma {:induction false} AllUnpack(nals: seq<bytes>, mtu: nat)
    requires mtu > RTP_HEADER + 2 && NonEmpty(nals)
    ensures NonEmpty(AllPayloads(nals, mtu))
    ensures var a := UnpackAll(NOTHING, AllPayloads(nals, mtu));
            && |a.annexb| <= |AnnexB(nals)|
            && (a.annexb == AnnexB(nals) <==> Clear(nals, mtu))
            && (Clear(nals, mtu) ==> (a.keyframe <==> HasIdr(nals)))
            && (!Clear(nals, mtu) ==> |a.annexb| < |AnnexB(nals)|)
  {
    if nals != [] {
      hide UnpackAll, Payloads, NalType, Mistaken, Clear, HasIdr;
      var n := |nals| - 1;
      var front, nal := nals[..n], nals[n];
      ClearAfter(nals, mtu);
      AllUnpack(front, mtu);
      var a := UnpackAll(NOTHING, AllPayloads(front, mtu));
      NalUnpacks(a, nal, mtu);
      UnpackAllAppend(NOTHING, AllPayloads(front, mtu), Payloads(nal, mtu));
      KeyAfter(nals);
    }
  }

  lemma KeyAfter(nals: seq<bytes>)
    requires nals != [] && nals[|nals| - 1] != []
    ensures HasIdr(nals) <==> HasIdr(nals[..|nals| - 1]) || NalType(nals[|nals| - 1][0]) == 5
  {
    var front := nals[..|nals| - 1];
    if HasIdr(front) {
      var i :| 0 <= i < |front| && front[i] != [] && NalType(front[i][0]) == 5;
      assert nals[i] == front[i];
    }
    if HasIdr(nals) {
      var i :| 0 <= i < |nals| && nals[i] != [] && NalType(nals[i][0]) == 5;
      assert i < |front| ==> front[i] == nals[i];
    }
  }

  /** Unpacking a frame's packets, in order, from nothing. */
  lemma FramePacketsUnpack(f: Frame, mtu: nat, seqNo: nat, ssrc: u32)
    requires mtu > RTP_HEADER + 2
    ensures NonEmpty(Nalus(f.data)) && NonEmpty(AllPayloads(Nalus(f.data), mtu))
    ensures Unpack(NOTHING, FramePackets(f, mtu, seqNo, ssrc)) == UnpackAll(NOTHING, AllPayloads(Nalus(f.data), mtu))
  {
    NalusNonEmpty(f.data);
    AllUnpack(Nalus(f.data), mtu);
    hide Packets, UnpackAll, Unpack, AllPayloads, Nalus, Carries, Timestamp;
    var pls, ts := AllPayloads(Nalus(f.data), mtu), Timestamp(f);
    forall i | 0 <= i < |pls|
      ensures Carries(Packets(pls, seqNo, ts, ssrc)[i], pls[i])
    {
      PacketsCarry(pls, seqNo, ts, ssrc, i);
    }
    UnpackCarried(NOTHING, Packets(pls, seqNo, ts, ssrc), pls);
  }

  /**
   * The RTP round trip. For a frame joined from NAL units with any mix of start codes, and any MTU
   * above 14, feeding all packets of the frame to the unpacker gives each unit behind a 4-octet
   * start code, with the keyframe flag set exactly when some unit has type 5, provided the stream
   * can be cut at all. It does so if and only if no unit that fits one packet has type 28, which
   * the receiver takes for an FU-A fragment.
   */
  lemma RoundTrip(f: Frame, ns: seq<Nal>, mtu: nat, seqNo: nat, ssrc: u32)
    requires mtu > RTP_HEADER + 2 && f.data == Joined(ns) && Separable(ns)
    ensures var a, bodies := Unpack(NOTHING, FramePackets(f, mtu, seqNo, ssrc)), Bodies(ns);
            && NonEmpty(bodies)
            && (a.annexb == AnnexB(bodies) <==> Clear(bodies, mtu))
            && (a.annexb == AnnexB(bodies) ==> (a.keyframe <==> HasIdr(bodies)))
  {
    CutInvertsJoin(ns);
    FramePacketsUnpack(f, mtu, seqNo, ssrc);
    AllUnpack(Bodies(ns), mtu);
    hide UnpackAll, Unpack, FramePackets, AllPayloads, AnnexB, Clear, HasIdr;
  }
}
