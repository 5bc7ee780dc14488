/**
 * The RTP assembler over a whole lossless stream: every packet of every frame arrives in order. The
 * assembler emits a complete frame when its marked packet comes, leaves it in place, and emits it
 * again when the next frame begins.
 */
module RtpAssembly {
  import opened Bytes
  import opened Options
  import opened RtpServers
  import opened RtpReceivers
  import opened RtpRepair
  import opened RtpRoundTrip
  import opened MediaTypes
  import opened NalUnits

  /** One frame's packets, numbered from q0 on, with the clock at each arrival. */
  datatype Burst = Burst(ts: u32, captureMs: int, q0: nat, ps: seq<bytes>, at: seq<int>)

  ghost predicate Whole(b: Burst) {
    0 < |b.ps| == |b.at| && b.q0 + |b.ps| <= 0x1_0000
  }

  function PacketOf(b: Burst, i: nat): RtpPacket
    requires i < |b.ps| && b.q0 + |b.ps| <= 0x1_0000
  {
    RtpPacket(b.q0 + i, b.ts, i == |b.ps| - 1, b.captureMs, b.ps[i])
  }

  /** The frame being collected after the first i packets. */
  ghost function Held(b: Burst, i: nat): FrameState
    requires Whole(b) && i <= |b.ps|
  {
    FrameState(true, i == |b.ps|, b.captureMs, b.ts, b.q0,
               map q | q in Interval(b.q0, i) :: b.ps[q - b.q0], b.at[0])
  }

  /** What the frame is worth. */
  ghost function Worth(b: Burst): Option<OutFrame> {
    var a := Unpack(NOTHING, b.ps);
    if a.annexb == [] then None else Some(OutFrame(b.captureMs * 1000, b.captureMs, a.keyframe, a.annexb))
  }

  lemma HeldNoWrap(b: Burst, i: nat)
    requires Whole(b) && i <= |b.ps|
    ensures NoWrap(Held(b, i))
  {
  }

  lemma HeldWhole(b: Burst)
    requires Whole(b)
    ensures var f := Held(b, |b.ps|);
            NoWrap(f) && f.raws != map[] && LooksComplete(f) && Emitted(f, []) == Worth(b)
  {
    var n := |b.ps|;
    var f := Held(b, n);
    hide LastSeq, Unpack, Interval;
    var end: u16 := b.q0 + (n - 1);
    assert end in f.raws;
    LastSeqIs(f, end);
    assert f.raws.Keys == Interval(b.q0, n);
    HeldSlots(b);
    assert WithExtra(Slots(f, n), f.firstSeq, []) == b.ps;
  }

  lemma HeldSlots(b: Burst)
    requires Whole(b)
    ensures Slots(Held(b, |b.ps|), |b.ps|) == b.ps
  {
    forall i | 0 <= i < |b.ps|
      ensures Slots(Held(b, |b.ps|), |b.ps|)[i] == b.ps[i]
    {
      var q: u16 := b.q0 + i;
      assert q in Held(b, |b.ps|).raws;
    }
  }

  /** Finishing a complete frame emits it and changes nothing else. */
  lemma FinishWhole(st: Asm, b: Burst, explicitMarker: bool, now: int)
    requires Whole(b) && st.cur == Held(b, |b.ps|)
    ensures NoWrap(st.cur) && Finish(st, explicitMarker, now) == st.(out := st.out + Emission(Worth(b)))
  {
    HeldWhole(b);
    hide LooksComplete, Emitted, Held, NoWrap, Worth, Span, Slots;
    HeldStarted(b);
  }

  lemma HeldStarted(b: Burst)
    requires Whole(b)
    ensures Held(b, |b.ps|).started
  {
  }

  lemma AddedNext(b: Burst, i: nat)
    requires Whole(b) && i < |b.ps|
    ensures WithPacket(Held(b, i), PacketOf(b, i)) == Held(b, i + 1)
    ensures Follows(Held(b, i), PacketOf(b, i))
  {
    var f, g := WithPacket(Held(b, i), PacketOf(b, i)), Held(b, i + 1);
    assert f.raws.Keys == g.raws.Keys;
    assert f.raws == g.raws;
  }

  /** The state after the first i packets of a burst, 0 < i: the frame before it is finished first. */
  ghost function After(st: Asm, b: Burst, i: nat): Asm
    requires NoWrap(st.cur) && Whole(b) && i <= |b.ps|
  {
    var s := Finish(st, false, b.at[0]).(cur := Held(b, i));
    if i < |b.ps| then s else s.(out := s.out + Emission(Worth(b)))
  }

  /** The first i packets of the burst take the assembler from st to s. */
  ghost predicate Takes(st: Asm, b: Burst, i: nat, s: Asm)
    requires Whole(b) && i <= |b.ps|
  {
    if i == 0 then s == st
    else
      var j: nat := i - 1;
      exists mid :: Takes(st, b, j, mid) && Arrives(mid, b, j, s)
  }

  ghost predicate Arrives(mid: Asm, b: Burst, i: nat, s: Asm)
    requires Whole(b) && i < |b.ps|
  {
    Follows(mid.cur, PacketOf(b, i)) && s == Assembled(mid, PacketOf(b, i), b.at[i])
  }

  ghost predicate Ready(st: Asm, b: Burst) {
    NoWrap(st.cur) && (st.cur.started ==> st.cur.ts != b.ts)
  }

  lemma FirstArrives(st: Asm, b: Burst)
    requires Whole(b) && Ready(st, b)
    ensures Arrives(st, b, 0, After(st, b, 1))
  {
    AddedNext(b, 0);
    NewIsHeld(b);
    HeldNoWrap(b, 1);
    hide Finish, Held, WithPacket, NewFrame, Worth, NoWrap;
    if |b.ps| == 1 {
      FinishWhole(Finish(st, false, b.at[0]).(cur := Held(b, 1)), b, true, b.at[0]);
    }
  }

  lemma LaterArrives(st: Asm, b: Burst, i: nat)
    requires Whole(b) && Ready(st, b) && 0 < i < |b.ps|
    ensures Arrives(After(st, b, i), b, i, After(st, b, i + 1))
  {
    AddedNext(b, i);
    HeldTs(b, i);
    HeldNoWrap(b, i + 1);
    hide Finish, Held, WithPacket, Worth, NoWrap;
    if i + 1 == |b.ps| {
      FinishWhole(Finish(st, false, b.at[0]).(cur := Held(b, i + 1)), b, true, b.at[i]);
    }
  }

  /** The packets of a burst lead to that state and to no other. */
  lemma {:induction false} BurstTaken(st: Asm, b: Burst, i: nat, s: Asm)
    requires Whole(b) && Ready(st, b) && 0 < i <= |b.ps|
    ensures Takes(st, b, i, s) <==> s == After(st, b, i)
  {
    ReadyNoWrap(st, b);
    hide After, Ready, Arrives;
    if i == 1 {
      FirstArrives(st, b);
      ArrivesOnce(st, b, 0, After(st, b, 1), s);
      assert Takes(st, b, 0, st);
    } else {
      var j: nat := i - 1;
      BurstTaken(st, b, j, After(st, b, j));
      LaterArrives(st, b, j);
      ArrivesOnce(After(st, b, j), b, j, After(st, b, i), s);
      forall mid | Takes(st, b, j, mid)
        ensures mid == After(st, b, j)
      {
        BurstTaken(st, b, j, mid);
      }
    }
  }

  lemma ReadyNoWrap(st: Asm, b: Burst)
    requires Ready(st, b)
    ensures NoWrap(st.cur)
  {
  }

  lemma ArrivesOnce(mid: Asm, b: Burst, i: nat, s: Asm, t: Asm)
    requires Whole(b) && i < |b.ps| && Arrives(mid, b, i, s)
    ensures Arrives(mid, b, i, t) <==> s == t
  {
    hide Assembled, Follows;
  }

  lemma NewIsHeld(b: Burst)
    requires Whole(b)
    ensures NewFrame(PacketOf(b, 0), b.at[0]) == Held(b, 0)
  {
    hide Interval;
    assert Interval(b.q0, 0) == {};
    assert Held(b, 0).raws == map[];
  }

  lemma HeldTs(b: Burst, i: nat)
    requires Whole(b) && i <= |b.ps|
    ensures Held(b, i).started && Held(b, i).ts == b.ts
  {
  }

  // ---- the stream ----

  /** Successive frames carry different timestamps. */
  ghost predicate Stream(bs: seq<Burst>) {
    (forall i :: 0 <= i < |bs| ==> Whole(bs[i])) && (forall i :: 0 < i < |bs| ==> bs[i].ts != bs[i - 1].ts)
  }

  /** Every frame twice, except the last one so far. */
  ghost function Twice(bs: seq<Burst>): seq<OutFrame> {
    if bs == [] then []
    else
      var n := |bs| - 1;
      Twice(bs[..n]) + (if n > 0 then Emission(Worth(bs[n - 1])) else []) + Emission(Worth(bs[n]))
  }

  /** The packets of all these frames, in order, take the assembler from st to s. */
  ghost predicate TakesAll(st: Asm, bs: seq<Burst>, s: Asm)
    requires forall i :: 0 <= i < |bs| ==> Whole(bs[i])
  {
    if bs == [] then s == st
    else
      var n := |bs| - 1;
      exists mid :: TakesAll(st, bs[..n], mid) && Takes(mid, bs[n], |bs[n].ps|, s)
  }

  /** The state after a stream: each frame emitted when it was whole and again when the next began. */
  ghost function Streamed(st: Asm, bs: seq<Burst>): Asm
    requires Stream(bs)
  {
    if bs == [] then st
    else
      var b := bs[|bs| - 1];
      st.(cur := Held(b, |b.ps|), out := st.out + Twice(bs))
  }

  lemma StreamedStep(st: Asm, bs: seq<Burst>)
    requires st.cur == NO_FRAME && Stream(bs) && bs != []
    ensures Stream(bs[..|bs| - 1])
    ensures var n := |bs| - 1;
            var mid := Streamed(st, bs[..n]);
            Ready(mid, bs[n]) && After(mid, bs[n], |bs[n].ps|) == Streamed(st, bs)
  {
    var n := |bs| - 1;
    StreamFront(bs);
    hide Stream, Worth, After, Twice, Streamed, Held, Ready, Emission;
    StreamedIs(st, bs);
    var front := bs[..n];
    if n > 0 {
      assert front[n - 1] == bs[n - 1];
      StreamedIs(st, front);
      NextBurst(Streamed(st, front), bs[n - 1], bs[n]);
      Regroup(st.out, Twice(front), Emission(Worth(bs[n - 1])), Emission(Worth(bs[n])));
    } else {
      FirstBurst(st, bs[0]);
      StreamedNone(st);
      assert front == [];
      Regroup(st.out, [], [], Emission(Worth(bs[0])));
    }
  }

  lemma Regroup<T>(a: seq<T>, b: seq<T>, c: seq<T>, d: seq<T>)
    ensures a + b + c + d == a + (b + c + d)
  {
  }

  lemma StreamFront(bs: seq<Burst>)
    requires Stream(bs) && bs != []
    ensures var n := |bs| - 1;
            Stream(bs[..n]) && Whole(bs[n]) && (n > 0 ==> Whole(bs[n - 1]) && bs[n - 1].ts != bs[n].ts)
  {
    hide Whole;
  }

  lemma StreamedNone(st: Asm)
    ensures Stream([]) && Streamed(st, []) == st && Twice([]) == []
  {
  }

  lemma FirstBurst(st: Asm, b: Burst)
    requires st.cur == NO_FRAME && Whole(b)
    ensures Ready(st, b)
    ensures After(st, b, |b.ps|) == st.(cur := Held(b, |b.ps|), out := st.out + Emission(Worth(b)))
  {
    FinishNothing(st, b.at[0]);
    hide Held, Worth, NoWrap, Finish;
  }

  lemma StreamedIs(st: Asm, bs: seq<Burst>)
    requires Stream(bs) && bs != []
    ensures var n := |bs| - 1;
            && Streamed(st, bs) == st.(cur := Held(bs[n], |bs[n].ps|), out := st.out + Twice(bs))
            && Twice(bs) == Twice(bs[..n]) + (if n > 0 then Emission(Worth(bs[n - 1])) else []) + Emission(Worth(bs[n]))
  {
    hide Held, Worth;
  }

  /** A burst after a whole frame: that frame is emitted again, then the burst's own. */
  lemma NextBurst(mid: Asm, a: Burst, b: Burst)
    requires Whole(a) && Whole(b) && a.ts != b.ts && mid.cur == Held(a, |a.ps|)
    ensures Ready(mid, b)
    ensures After(mid, b, |b.ps|) ==
            mid.(cur := Held(b, |b.ps|), out := mid.out + Emission(Worth(a)) + Emission(Worth(b)))
  {
    HeldTs(a, |a.ps|);
    hide Held, Worth, NoWrap, Finish;
    FinishWhole(mid, a, false, b.at[0]);
  }

  lemma FinishNothing(st: Asm, now: int)
    requires st.cur == NO_FRAME
    ensures NoWrap(st.cur) && !st.cur.started && Finish(st, false, now) == st
  {
  }

  /**
   * Over any lossless stream the assembler's output is every frame twice in a row, except that the last
   * is still waiting for its second time; nothing is parked, dropped or counted as lost. A frame is
   * therefore not emitted at most once.
   */
  lemma {:induction false} EveryFrameTwice(st: Asm, bs: seq<Burst>, s: Asm)
    requires st.cur == NO_FRAME && Stream(bs)
    ensures TakesAll(st, bs, s) <==> s == Streamed(st, bs)
    decreases |bs|
  {
    if bs != [] {
      var n := |bs| - 1;
      var b := bs[n];
      StreamedStep(st, bs);
      hide Streamed, Twice, After, Takes, Ready;
      EveryFrameTwice(st, bs[..n], Streamed(st, bs[..n]));
      BurstTaken(Streamed(st, bs[..n]), b, |b.ps|, s);
      forall mid | TakesAll(st, bs[..n], mid)
        ensures mid == Streamed(st, bs[..n])
      {
        EveryFrameTwice(st, bs[..n], mid);
      }
    }
  }

  // ---- from the sender ----

  /** b is what send_frame put on the wire for f, with the capture time recovered from the timestamp. */
  ghost predicate Sends(b: Burst, f: Frame, mtu: nat, ssrc: u32)
    requires mtu > RTP_HEADER + 2
  {
    b.ps == FramePackets(f, mtu, b.q0, ssrc) && b.ts == Timestamp(f) && b.captureMs == InMillis(f.captureUs)
  }

  /** Parsing packet i of a sent burst gives the packet the assembler takes in, but for the capture time. */
  lemma SentPacketParses(b: Burst, f: Frame, mtu: nat, ssrc: u32, i: nat)
    requires mtu > RTP_HEADER + 2 && Whole(b) && Sends(b, f, mtu, ssrc) && i < |b.ps|
    ensures ParseRtp(b.ps[i]) == Some(PacketOf(b, i).(captureMs := 0))
  {
    hide Nalus, AllPayloads, RtpHeader, PacketSeq, Timestamp, Octet1, Octet2, Octet3, Low, Number16, Number32;
    NalusNonEmpty(f.data);
    var pls := AllPayloads(Nalus(f.data), mtu);
    PacketAt(pls, b.q0, Timestamp(f), ssrc, i);
    HeaderFacts(i == |pls| - 1, (b.q0 + i) % 0x1_0000, Timestamp(f), ssrc, pls[i]);
    Number32Octets(Timestamp(f));
    SeqOf(b.ps[i]);
  }

  /**
   * What the assembler makes of a sent frame: its NAL units, each behind a 4-octet start code, under
   * its capture time in milliseconds, provided the units can be cut apart and none is mistaken for a
   * fragment. With EveryFrameTwice, this is what the receiver puts out over a lossless stream.
   */
  lemma SentFrameComesOut(b: Burst, f: Frame, ns: seq<Nal>, mtu: nat, ssrc: u32)
    requires mtu > RTP_HEADER + 2 && Whole(b) && Sends(b, f, mtu, ssrc)
    requires f.data == Joined(ns) && Separable(ns) && ns != []
    ensures NonEmpty(Bodies(ns))
    ensures Clear(Bodies(ns), mtu) ==>
              Worth(b) == Some(OutFrame(b.captureMs * 1000, b.captureMs, HasIdr(Bodies(ns)), AnnexB(Bodies(ns))))
  {
    RoundTrip(f, ns, mtu, b.q0, ssrc);
    AnnexBSome(Bodies(ns));
    hide Unpack, FramePackets, AnnexB, Clear, HasIdr, Separable, Joined, NonEmpty;
  }

  lemma AnnexBSome(nals: seq<bytes>)
    requires nals != []
    ensures AnnexB(nals) != []
  {
  }
}
