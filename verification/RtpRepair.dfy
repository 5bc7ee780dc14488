/**
 * One frame at the RTP receiver: which sets of packets it takes for complete, and what becomes of
 * the frame when exactly one packet is rebuilt from the parity over whole packets.
 */
module RtpRepair {
  import opened Octets
  import opened Bytes
  import opened Options
  import opened Sets
  import opened MediaTypes
  import opened Fec
  import opened NalUnits
  import opened RtpServers
  import opened RtpReceivers
  import opened RtpRoundTrip

  /** f holds exactly the packets ps[i], i in got, numbered from q0 on without crossing the 16-bit wrap. */
  ghost predicate Gathered(f: FrameState, ps: seq<bytes>, q0: nat, got: set<nat>) {
    && q0 + |ps| <= 0x1_0000
    && (forall k :: k in f.raws <==> q0 <= k < q0 + |ps| && k - q0 in got)
    && (forall k :: k in f.raws ==> f.raws[k] == ps[k - q0])
  }

  function Interval(lo: nat, n: nat): (s: set<u16>)
    requires lo + n <= 0x1_0000
    ensures |s| == n
    ensures forall q: u16 :: q in s <==> lo <= q < lo + n
  {
    if n == 0 then {} else Interval(lo, n - 1) + {lo + n - 1}
  }

  /**
   * What the receiver takes for a complete frame. Packets come in order, so the first one collected
   * has the lowest number k that arrived at all. The frame passes for complete exactly when
   * everything from k to the marked end is there: a loss in the middle or at the end is noticed,
   * a lost head is not.
   */
  lemma CompleteMeansSuffix(f: FrameState, ps: seq<bytes>, q0: nat, got: set<nat>, k: nat)
    requires Gathered(f, ps, q0, got) && k < |ps| && k in got && f.firstSeq == q0 + k
    requires forall i :: i in got ==> k <= i < |ps|
    requires f.markerSeen <==> |ps| - 1 in got
    ensures NoWrap(f)
    ensures LooksComplete(f) <==> forall i: nat :: k <= i < |ps| ==> i in got
  {
    hide LastSeq, MaxOf, Interval;
    var n := |ps|;
    var first: u16 := q0 + k;
    assert first in f.raws;
    var whole := Interval(q0 + k, n - k);
    if forall i: nat :: k <= i < n ==> i in got {
      assert n - 1 in got;
      LastSeqIs(f, q0 + (n - 1));
      forall q: u16 | q0 + k <= q < q0 + n
        ensures q in f.raws
      {
        var i: nat := q - q0;
        assert i in got;
      }
      assert f.raws.Keys == whole;
    } else if f.markerSeen {
      LastSeqIs(f, q0 + (n - 1));
      var i: nat :| k <= i < n && i !in got;
      var hole: u16 := q0 + i;
      assert f.raws.Keys <= whole - {hole};
      SubsetSize(f.raws.Keys, whole - {hole});
    }
  }

  // ---- one packet missing ----

  /** A frame all of whose packets but one in its interior have arrived. */
  ghost predicate OneMissing(f: FrameState, ps: seq<bytes>, q0: nat, m: nat) {
    && 0 < m < |ps| - 1 && q0 + |ps| <= 0x1_0000
    && f.started && f.markerSeen && f.firstSeq == q0
    && (forall q: u16 :: q in f.raws <==> q0 <= q < q0 + |ps| && q != q0 + m)
    && (forall q: u16 :: q in f.raws ==> f.raws[q] == ps[q - q0])
    && (forall i :: 0 <= i < |ps| ==> |ps[i]| > RTP_HEADER && PacketSeq(ps[i]) == q0 + i)
  }

  lemma LastSeqIs(f: FrameState, end: u16)
    requires end in f.raws && forall q :: q in f.raws ==> q <= end
    ensures f.raws != map[] && LastSeq(f) == end
  {
    hide MaxOf;
    assert f.raws != map[];
  }

  lemma AllButOneSize(keys: set<u16>, lo: nat, n: nat, hole: u16)
    requires lo + n <= 0x1_0000 && lo <= hole < lo + n
    requires forall q: u16 :: q in keys <==> lo <= q < lo + n && q != hole
    ensures |keys| == n - 1
  {
    hide Interval;
    assert keys == Interval(lo, n) - {hole};
  }

  lemma OneMissingShape(f: FrameState, ps: seq<bytes>, q0: nat, m: nat)
    requires OneMissing(f, ps, q0, m)
    ensures NoWrap(f) && f.raws != map[] && Span(f) == |ps| && |f.raws| == |ps| - 1
    ensures Slots(f, |ps|) == ps[m := []]
  {
    hide LastSeq, PacketSeq;
    LastSeqIs(f, q0 + (|ps| - 1));
    AllButOneSize(f.raws.Keys, q0, |ps|, q0 + m);
    OneMissingSlots(f, ps, q0, m);
  }

  lemma OneMissingSlots(f: FrameState, ps: seq<bytes>, q0: nat, m: nat)
    requires OneMissing(f, ps, q0, m)
    ensures Slots(f, |ps|) == ps[m := []]
  {
    hide PacketSeq;
    forall i | 0 <= i < |ps|
      ensures Slots(f, |ps|)[i] == ps[m := []][i]
    {
      var q: u16 := q0 + i;
      assert q in f.raws <==> i != m;
    }
  }

  lemma MissingOfOne(ps: seq<bytes>, m: nat, parity: bytes)
    requires m < |ps| && parity != [] && forall i :: 0 <= i < |ps| ==> ps[i] != []
    ensures Missing(ps[m := []] + [parity]) == 1
  {
    MissingZero(ps);
    MissingFill(ps[m := []], m, ps[m]);
    assert ps[m := []][m := ps[m]] == ps;
    MissingAppend(ps[m := []], parity);
  }

  lemma KnownMaxLen(ps: seq<bytes>, m: nat)
    requires m < |ps|
    ensures MaxLen(ps[m := []] + [Parity(ps)]) == MaxLen(ps)
  {
    var n := MaxLen(ps);
    assert |Parity(ps)| == n;
    hide Parity, MaxLen;
    var known := ps[m := []] + [Parity(ps)];
    assert known[|ps|] == Parity(ps);
    forall i | 0 <= i < |known|
      ensures |known[i]| <= n
    {
      if i < |ps| && i != m {
        assert ps[i] in ps;
      }
    }
    LongestIs(known, n, |ps|);
  }

  lemma LongestIs(ds: seq<bytes>, n: nat, at: nat)
    requires at < |ds| && |ds[at]| == n && forall i :: 0 <= i < |ds| ==> |ds[i]| <= n
    ensures MaxLen(ds) == n
  {
    hide MaxLen;
    assert ds[at] in ds;
  }

  lemma RebuiltIsPadded(ps: seq<bytes>, m: nat)
    requires m < |ps|
    ensures Rebuilt(ps[m := []], Parity(ps)) == PadTo(ps[m], MaxLen(ps))
  {
    hide XorAt, PadTo, MaxLen, Columns;
    KnownMaxLen(ps, m);
    assert ps[m] in ps;
    ErasureLaw(ps, m, MaxLen(ps));
  }

  lemma PaddedHeader(p: bytes, n: nat)
    requires |p| >= RTP_HEADER
    ensures |PadTo(p, n)| >= RTP_HEADER && PadTo(p, n)[..RTP_HEADER] == p[..RTP_HEADER]
            && PacketSeq(PadTo(p, n)) == PacketSeq(p)
  {
    hide Zeros, Number16;
  }

  /**
   * Whole-packet repair: with the parity of the frame's packets at hand and exactly one interior packet
   * missing, the frame is finished, from the lost packet with zeros behind it; its header is the lost
   * packet's own, so its number selects exactly the empty slot.
   */
  lemma RepairFillsTheGap(f: FrameState, ps: seq<bytes>, q0: nat, m: nat, explicitMarker: bool, now: int)
    requires OneMissing(f, ps, q0, m)
    ensures NoWrap(f)
    ensures var rec := PadTo(ps[m], MaxLen(ps));
            && rec[..RTP_HEADER] == ps[m][..RTP_HEADER] && PacketSeq(rec) == q0 + m
            && WithExtra(Slots(f, Span(f)), f.firstSeq, rec) == ps[m := rec]
            && Finalized(f, Some(Parity(ps)), explicitMarker, now) == Repairs(Emitted(f, rec))
  {
    hide OneMissing, Columns, Missing, Slots, NoWrap, Span, PadTo, MaxLen, Emitted, Rebuilt, PacketSeq, Parity,
         Finalized,
         WithExtra;
    OneMissingFacts(f, ps, q0, m);
    OneMissingShape(f, ps, q0, m);
    var rec := PadTo(ps[m], MaxLen(ps));
    RebuiltIsPadded(ps, m);
    ParityNotEmpty(ps, m);
    MissingOfOne(ps, m, Parity(ps));
    FinalizedRepairs(f, Parity(ps), explicitMarker, now);
    PaddedHeader(ps[m], MaxLen(ps));
    WithExtraAt(ps[m := []], q0, rec, m);
    assert ps[m := []][m := rec] == ps[m := rec];
  }

  lemma OneMissingFacts(f: FrameState, ps: seq<bytes>, q0: nat, m: nat)
    requires OneMissing(f, ps, q0, m)
    ensures f.started && f.markerSeen && f.firstSeq == q0 && m < |ps|
    ensures |ps[m]| > RTP_HEADER && PacketSeq(ps[m]) == q0 + m
    ensures forall i :: 0 <= i < |ps| ==> ps[i] != []
  {
    hide PacketSeq;
  }

  lemma FinalizedRepairs(f: FrameState, parity: bytes, explicitMarker: bool, now: int)
    requires NoWrap(f) && f.started && f.markerSeen && f.raws != map[] && |f.raws| == Span(f) - 1
    requires Missing(Slots(f, Span(f)) + [parity]) == 1
    ensures Finalized(f, Some(parity), explicitMarker, now) == Repairs(Emitted(f, Rebuilt(Slots(f, Span(f)), parity)))
  {
    hide Missing, Slots, NoWrap, Span, Emitted, Rebuilt;
  }

  lemma WithExtraAt(slots: seq<bytes>, firstSeq: u16, extra: bytes, idx: nat)
    requires |extra| >= RTP_HEADER && PacketSeq(extra) == firstSeq + idx && idx < |slots|
    ensures WithExtra(slots, firstSeq, extra) == slots[idx := extra]
  {
    hide PacketSeq;
  }

  lemma ParityNotEmpty(ps: seq<bytes>, m: nat)
    requires m < |ps| && ps[m] != []
    ensures Parity(ps) != []
  {
    assert ps[m] in ps;
  }

  // ---- what the padding does to the stream ----

  /** The payload is written out when it is unpacked: it opens a unit or continues an open one. */
  predicate Contributes(a: Stream, pl: bytes) {
    pl != [] && (NalType(pl[0]) == FU_A ==> |pl| >= 2 && (StartBit(pl) || a.fuActive))
  }

  predicate WellFed(a: Stream, pls: seq<bytes>)
    decreases |pls|
  {
    pls == [] || (Contributes(a, pls[0]) && WellFed(UnpackPayload(a, pls[0]), pls[1..]))
  }

  lemma {:induction false} WellFedAppend(a: Stream, xs: seq<bytes>, ys: seq<bytes>)
    requires NonEmpty(xs) && WellFed(a, xs) && WellFed(UnpackAll(a, xs), ys)
    ensures WellFed(a, xs + ys)
    decreases |xs|
  {
    hide UnpackPayload, Contributes;
    if xs == [] {
      assert xs + ys == ys;
    } else {
      assert (xs + ys)[1..] == xs[1..] + ys;
      WellFedAppend(UnpackPayload(a, xs[0]), xs[1..], ys);
    }
  }

  lemma {:induction false} WellFedAt(a: Stream, pls: seq<bytes>, m: nat)
    requires WellFed(a, pls) && m < |pls| && NonEmpty(pls)
    ensures Contributes(UnpackAll(a, pls[..m]), pls[m])
    decreases m
  {
    hide UnpackPayload, Contributes;
    if m > 0 {
      assert pls[..m][1..] == pls[1..][..m - 1];
      WellFedAt(UnpackPayload(a, pls[0]), pls[1..], m - 1);
    }
  }

  lemma {:induction false} FuWellFed(a: Stream, hdr: byte, rest: bytes, first: bool, maxPayload: nat)
    requires maxPayload > 0 && rest != [] && (first || a.fuActive)
    ensures WellFed(a, FuPayloads(hdr, rest, first, maxPayload))
    decreases |rest|
  {
    hide UnpackPayload, FuHead, NalType, StartBit, EndBit;
    var last := |rest| <= maxPayload;
    var chunk := if last then rest else rest[..maxPayload];
    var pl := FuHead(hdr, first, last) + chunk;
    HeadBits(hdr, first, last, chunk);
    HeadUnpacks(a, hdr, first, last, chunk);
    if !last {
      FuWellFed(UnpackPayload(a, pl), hdr, rest[maxPayload..], false, maxPayload);
      assert FuPayloads(hdr, rest, first, maxPayload)[1..] == FuPayloads(hdr, rest[maxPayload..], false, maxPayload);
    } else {
      var one: seq<bytes> := [pl];
      assert one[1..] == [];
    }
  }

  lemma {:induction false} AllWellFed(nals: seq<bytes>, mtu: nat)
    requires mtu > RTP_HEADER + 2 && NonEmpty(nals) && Clear(nals, mtu)
    ensures NonEmpty(AllPayloads(nals, mtu)) && WellFed(NOTHING, AllPayloads(nals, mtu))
  {
    AllUnpack(nals, mtu);
    if nals != [] {
      var n := |nals| - 1;
      var front, nal := nals[..n], nals[n];
      AllWellFed(front, mtu);
      var a := UnpackAll(NOTHING, AllPayloads(front, mtu));
      NalUnpacks(a, nal, mtu);
      NalWellFed(a, nal, mtu);
      hide UnpackAll, Payloads, WellFed, NonEmpty;
      WellFedAppend(NOTHING, AllPayloads(front, mtu), Payloads(nal, mtu));
    }
  }

  lemma NalWellFed(a: Stream, nal: bytes, mtu: nat)
    requires mtu > RTP_HEADER + 2 && nal != [] && !Mistaken(nal, mtu)
    ensures WellFed(a, Payloads(nal, mtu))
  {
    hide UnpackPayload;
    if Single(nal, mtu) {
      var one: seq<bytes> := [nal];
      assert one[1..] == [];
    } else {
      FuWellFed(a, nal[0], nal[1..], true, mtu - RTP_HEADER - 2);
    }
  }

  lemma PaddingIsAppended(a: Stream, pl: bytes, z: nat)
    requires Contributes(a, pl)
    ensures UnpackPayload(a, pl + Zeros(z)) ==
            UnpackPayload(a, pl).(annexb := UnpackPayload(a, pl).annexb + Zeros(z))
  {
    var p := pl + Zeros(z);
    assert p[0] == pl[0];
    if NalType(pl[0]) == FU_A {
      assert p[1] == pl[1] && p[2..] == pl[2..] + Zeros(z);
      var hdr := pl[0] / 32 * 32 + NalType(pl[1]);
      hide Zeros, NalType;
      assert a.annexb + CODE4 + [hdr] + (pl[2..] + Zeros(z)) == a.annexb + CODE4 + [hdr] + pl[2..] + Zeros(z);
      assert a.annexb + (pl[2..] + Zeros(z)) == a.annexb + pl[2..] + Zeros(z);
    } else {
      assert a.annexb + CODE4 + (pl + Zeros(z)) == a.annexb + CODE4 + pl + Zeros(z);
    }
  }

  /** What was written before does not influence what is written next. */
  lemma {:induction false} UnpackBehind(x: bytes, a: Stream, raws: seq<bytes>)
    ensures Unpack(a.(annexb := x + a.annexb), raws) == Unpack(a, raws).(annexb := x + Unpack(a, raws).annexb)
    decreases |raws|
  {
    if raws != [] {
      PacketBehind(x, a, raws[0]);
      UnpackBehind(x, UnpackPacket(a, raws[0]), raws[1..]);
    }
  }

  lemma PacketBehind(x: bytes, a: Stream, raw: bytes)
    ensures UnpackPacket(a.(annexb := x + a.annexb), raw) ==
            UnpackPacket(a, raw).(annexb := x + UnpackPacket(a, raw).annexb)
  {
    if |raw| >= 13 {
      var pl := raw[RTP_HEADER..];
      var y := a.annexb;
      if |pl| >= 2 {
        var hdr := pl[0] / 32 * 32 + NalType(pl[1]);
        assert x + y + CODE4 + [hdr] + pl[2..] == x + (y + CODE4 + [hdr] + pl[2..]);
        assert x + y + pl[2..] == x + (y + pl[2..]);
      }
      assert x + y + CODE4 + pl == x + (y + CODE4 + pl);
      hide NalType, StartBit, EndBit;
    }
  }

  // ---- the repaired frame ----

  /** The streams of two packet sequences that differ only in zeros behind packet m. */
  lemma PaddedStream(ps: seq<bytes>, m: nat, z: nat)
    requires m < |ps| && |ps[m]| > RTP_HEADER
    requires Contributes(Unpack(NOTHING, ps[..m]), ps[m][RTP_HEADER..])
    ensures var head := Unpack(NOTHING, ps[..m + 1]);
            var tail := Unpack(head.(annexb := []), ps[m + 1..]);
            && Unpack(NOTHING, ps) == tail.(annexb := head.annexb + tail.annexb)
            && Unpack(NOTHING, ps[m := ps[m] + Zeros(z)]) == tail.(annexb := head.annexb + Zeros(z) + tail.annexb)
  {
    hide UnpackPayload, Contributes, Zeros, Unpack;
    var a, pl := Unpack(NOTHING, ps[..m]), ps[m][RTP_HEADER..];
    var rest := ps[m + 1..];
    var padded := ps[m] + Zeros(z);
    assert ps == ps[..m] + [ps[m]] + rest && ps[..m + 1] == ps[..m] + [ps[m]];
    assert ps[m := padded] == ps[..m] + [padded] + rest;
    assert padded[RTP_HEADER..] == pl + Zeros(z);
    UnpackAppend(NOTHING, ps[..m] + [ps[m]], rest);
    UnpackAppend(NOTHING, ps[..m], [ps[m]]);
    UnpackAppend(NOTHING, ps[..m] + [padded], rest);
    UnpackAppend(NOTHING, ps[..m], [padded]);
    UnpackSingle(a, ps[m]);
    UnpackSingle(a, padded);
    PaddingIsAppended(a, pl, z);
    var head := UnpackPacket(a, ps[m]);
    var bare := head.(annexb := []);
    UnpackBehind(head.annexb, bare, rest);
    UnpackBehind(head.annexb + Zeros(z), bare, rest);
    assert head.annexb + [] == head.annexb && head.annexb + Zeros(z) + [] == head.annexb + Zeros(z);
  }

  lemma UnpackSingle(a: Stream, raw: bytes)
    ensures Unpack(a, [raw]) == UnpackPacket(a, raw)
  {
    assert [raw][1..] == [];
  }

  /** A fragment that is not its unit's last is as long as a packet can be. */
  lemma {:induction false} InnerFragmentsAreFull(nals: seq<bytes>, mtu: nat, i: nat)
    requires mtu > RTP_HEADER + 2 && NonEmpty(nals) && i < |AllPayloads(nals, mtu)|
    requires Clear(nals, mtu)
    ensures var pl := AllPayloads(nals, mtu)[i];
            pl != [] && (NalType(pl[0]) == FU_A ==> |pl| >= 2 && (!EndBit(pl) ==> |pl| == mtu - RTP_HEADER))
  {
    hide FuPayloads, EndBit, StartBit;
    var n := |nals| - 1;
    if i < |AllPayloads(nals[..n], mtu)| {
      InnerFragmentsAreFull(nals[..n], mtu, i);
    } else if !Single(nals[n], mtu) {
      FuPayloadsShape(nals[n][0], nals[n][1..], true, mtu - RTP_HEADER - 2);
    }
  }

  lemma PacketsMaxLen(f: Frame, mtu: nat, seqNo: nat, ssrc: u32)
    requires mtu > RTP_HEADER + 2
    ensures MaxLen(FramePackets(f, mtu, seqNo, ssrc)) <= mtu
  {
    hide FramePackets, PacketSeq;
    var ps := FramePackets(f, mtu, seqNo, ssrc);
    forall p | p in ps
      ensures |p| <= mtu
    {
      var i :| 0 <= i < |ps| && ps[i] == p;
      PacketsWellFormed(f, mtu, seqNo, ssrc, i);
    }
  }

  lemma PacketContributes(f: Frame, mtu: nat, seqNo: nat, ssrc: u32, m: nat)
    requires mtu > RTP_HEADER + 2 && m < |FramePackets(f, mtu, seqNo, ssrc)| && NonEmpty(Nalus(f.data))
    requires Clear(Nalus(f.data), mtu)
    ensures var ps := FramePackets(f, mtu, seqNo, ssrc);
            && |ps[m]| > RTP_HEADER
            && Contributes(Unpack(NOTHING, ps[..m]), ps[m][RTP_HEADER..])
            && (NalType(ps[m][RTP_HEADER]) == FU_A && |ps[m]| >= RTP_HEADER + 2 && !EndBit(ps[m][RTP_HEADER..]) ==>
                  |ps[m]| == mtu)
  {
    PacketsWellFormed(f, mtu, seqNo, ssrc, m);
    AllWellFed(Nalus(f.data), mtu);
    InnerFragmentsAreFull(Nalus(f.data), mtu, m);
    var pls, ts := AllPayloads(Nalus(f.data), mtu), Timestamp(f);
    hide Packets, UnpackAll, Unpack, AllPayloads, Nalus, Timestamp, WellFed, UnpackPayload, Contributes, PacketSeq,
         EndBit,
         NalType, Clear;
    var ps := Packets(pls, seqNo, ts, ssrc);
    forall i | 0 <= i < |pls|
      ensures Carries(ps[i], pls[i])
    {
      PacketsCarry(pls, seqNo, ts, ssrc, i);
    }
    WellFedAt(NOTHING, pls, m);
    UnpackCarried(NOTHING, ps[..m], pls[..m]);
  }

  /** The lossless stream with the rebuilt packet's padding right behind what packet m wrote. */
  function Repadded(ps: seq<bytes>, m: nat): bytes
    requires m < |ps|
  {
    var lossless, at := Unpack(NOTHING, ps).annexb, |Unpack(NOTHING, ps[..m + 1]).annexb|;
    var z := if MaxLen(ps) > |ps[m]| then MaxLen(ps) - |ps[m]| else 0;
    if at <= |lossless| then lossless[..at] + Zeros(z) + lossless[at..] else lossless
  }

  lemma RepaddedStream(ps: seq<bytes>, m: nat)
    requires m < |ps| && |ps[m]| > RTP_HEADER
    requires Contributes(Unpack(NOTHING, ps[..m]), ps[m][RTP_HEADER..])
    ensures var lossless, repaired := Unpack(NOTHING, ps), Unpack(NOTHING, ps[m := PadTo(ps[m], MaxLen(ps))]);
            && |Unpack(NOTHING, ps[..m + 1]).annexb| <= |lossless.annexb|
            && repaired.annexb == Repadded(ps, m) && repaired.keyframe == lossless.keyframe
            && (Repadded(ps, m) == lossless.annexb <==> |ps[m]| == MaxLen(ps))
  {
    hide Unpack, MaxLen, Contributes, Zeros, PadTo;
    assert ps[m] in ps;
    var z := MaxLen(ps) - |ps[m]|;
    var lossless := Unpack(NOTHING, ps);
    PaddedStream(ps, m, z);
    PadIs(ps[m], MaxLen(ps));
    var head := Unpack(NOTHING, ps[..m + 1]);
    var tail := Unpack(head.(annexb := []), ps[m + 1..]);
    Splice(head.annexb, Zeros(z), tail.annexb);
  }

  lemma PadIs(p: bytes, n: nat)
    requires n >= |p|
    ensures PadTo(p, n) == p + Zeros(n - |p|)
  {
  }

  lemma Splice(a: bytes, z: bytes, b: bytes)
    ensures (a + b)[..|a|] == a && (a + b)[|a|..] == b
    ensures a + z + b == a + b <==> z == []
  {
    assert |a + z + b| == |a + b| + |z|;
    assert z == [] ==> a + z + b == a + b;
  }

  /**
   * The repaired frame. Take the packets of a frame none of whose units is mistaken, with one interior
   * packet missing and the frame's parity at hand. The frame that is emitted is the lossless one with
   * the padding of the rebuilt packet right behind that packet's payload, and the same keyframe flag.
   * It equals the lossless frame exactly when the lost packet was as long as the longest of the
   * frame, as every fragment of a unit but its last is.
   */
  lemma RepairedFrame(f: FrameState, fr: Frame, mtu: nat, q0: nat, ssrc: u32, m: nat, explicitMarker: bool, now: int)
    requires mtu > RTP_HEADER + 2 && NonEmpty(Nalus(fr.data))
    requires Clear(Nalus(fr.data), mtu)
    requires OneMissing(f, FramePackets(fr, mtu, q0, ssrc), q0, m)
    ensures NoWrap(f)
    ensures var ps := FramePackets(fr, mtu, q0, ssrc);
            var data := Repadded(ps, m);
            Finalized(f, Some(Parity(ps)), explicitMarker, now) ==
              Repairs(if data == [] then None
                      else Some(OutFrame(f.captureMs * 1000, f.captureMs, Unpack(NOTHING, ps).keyframe, data)))
    ensures var ps := FramePackets(fr, mtu, q0, ssrc);
            && (Repadded(ps, m) == Unpack(NOTHING, ps).annexb <==> |ps[m]| == MaxLen(ps))
            && |ps[m]| > RTP_HEADER
            && (NalType(ps[m][RTP_HEADER]) == FU_A && |ps[m]| >= RTP_HEADER + 2 && !EndBit(ps[m][RTP_HEADER..]) ==>
                  |ps[m]| == MaxLen(ps))
  {
    var ps := FramePackets(fr, mtu, q0, ssrc);
    assert 0 < m < |ps|;
    PacketContributes(fr, mtu, q0, ssrc, m);
    PacketsMaxLen(fr, mtu, q0, ssrc);
    hide FramePackets, OneMissing, Parity, Nalus, Unpack, Finalized, NoWrap, Contributes, EndBit, NalType, Clear,
         Span, Slots,
         WithExtra, Repadded, PadTo, MaxLen;
    RepairFillsTheGap(f, ps, q0, m, explicitMarker, now);
    assert ps[m] in ps;
    RepaddedStream(ps, m);
  }
}
