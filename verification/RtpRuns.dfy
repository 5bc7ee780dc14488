/**
 * The RTP assembler over runs with loss: whichever packets of the frames sent leave the packet buffer, in
 * order, and whatever becomes of the parities, every frame emitted comes from one frame sent.
 */
module RtpRuns {
  import opened Bytes
  import opened Options
  import opened Fec
  import opened RtpServers
  import opened RtpReceivers
  import opened RtpLoss

  // ---- the frames sent ----

  function KeyOf(c: Clip): u32 {
    Millis(c) % TWO32
  }

  /** Frames sent in order: packet numbers do not repeat, nor do timestamps. */
  ghost predicate ClipsOk(sent: seq<Clip>) {
    && (forall i :: 0 <= i < |sent| ==> ClipOk(sent[i]))
    && (forall i, j :: 0 <= i < j < |sent| ==>
          && sent[i].q0 + |sent[i].ps| <= sent[j].q0
          && Timestamp(sent[i].f) != Timestamp(sent[j].f) && KeyOf(sent[i]) != KeyOf(sent[j]))
  }

  /** p is packet j of frame i, as it leaves the packet buffer. */
  ghost predicate IsPacket(p: RtpPacket, sent: seq<Clip>, i: nat, j: nat) {
    i < |sent| && j < |sent[i].ps| && sent[i].q0 + |sent[i].ps| <= 0x1_0000
    && p == RtpPacket(sent[i].q0 + j, Timestamp(sent[i].f), j == |sent[i].ps| - 1, Millis(sent[i]), sent[i].ps[j])
  }

  // ---- the invariant ----

  ghost predicate CollectedFrom(f: FrameState, sent: seq<Clip>) {
    exists i :: 0 <= i < |sent| && Collecting(f, sent[i])
  }

  ghost predicate ParityOf(key: u32, parity: bytes, sent: seq<Clip>) {
    exists i :: 0 <= i < |sent| && key == KeyOf(sent[i]) && parity == Parity(sent[i].ps)
  }

  ghost predicate ShownFrom(x: OutFrame, sent: seq<Clip>) {
    exists i :: 0 <= i < |sent| && FromClip(Some(x), sent[i])
  }

  ghost predicate ParitiesOk(fec: map<u32, bytes>, sent: seq<Clip>) {
    forall k :: k in fec ==> ParityOf(k, fec[k], sent)
  }

  ghost predicate AsmOk(a: Asm, sent: seq<Clip>, bound: nat) {
    && (a.cur == NO_FRAME || CollectedFrom(a.cur, sent))
    && (forall q :: q in a.cur.raws ==> q < bound)
    && (forall z :: z in a.zombies ==> CollectedFrom(z, sent))
    && ParitiesOk(a.fec, sent)
    && (forall x :: x in a.out ==> ShownFrom(x, sent))
  }

  // ---- steps ----

  lemma OwnParity(fec: map<u32, bytes>, sent: seq<Clip>, f: FrameState, i: nat)
    requires ClipsOk(sent) && ParitiesOk(fec, sent) && i < |sent| && Collecting(f, sent[i])
    ensures Own(ParityFor(fec, f.captureMs), sent[i])
  {
    SameMillis(f, sent[i]);
    hide Collecting, ClipOk, Parity;
    var key := f.captureMs % TWO32;
    if key in fec {
      assert ParityOf(key, fec[key], sent);
    }
  }

  lemma EmissionShown(o: Option<OutFrame>, sent: seq<Clip>, i: nat)
    requires i < |sent| && FromClip(o, sent[i])
    ensures forall x :: x in Emission(o) ==> ShownFrom(x, sent)
  {
    hide FromClip;
  }

  lemma FinishOk(a: Asm, sent: seq<Clip>, bound: nat, explicitMarker: bool, now: int)
    requires ClipsOk(sent) && AsmOk(a, sent, bound)
    ensures NoWrap(a.cur) && AsmOk(Finish(a, explicitMarker, now), sent, bound)
    ensures var c := Finish(a, explicitMarker, now).cur; c == a.cur || c == NO_FRAME
  {
    hide ClipsOk, Collecting, FromClip, Finalized, ShownFrom;
    if a.cur == NO_FRAME {
      NothingFinalized(ParityFor(a.fec, a.cur.captureMs), explicitMarker, now);
    } else {
      var i :| 0 <= i < |sent| && Collecting(a.cur, sent[i]);
      OwnParity(a.fec, sent, a.cur, i);
      FinalizedFromClip(a.cur, sent[i], ParityFor(a.fec, a.cur.captureMs), explicitMarker, now);
      var outcome := Finalized(a.cur, ParityFor(a.fec, a.cur.captureMs), explicitMarker, now);
      if outcome.Emits? {
        EmissionShown(outcome.out, sent, i);
      } else if outcome.Repairs? {
        EmissionShown(outcome.fixed, sent, i);
      }
    }
  }

  lemma NothingFinalized(parity: Option<bytes>, explicitMarker: bool, now: int)
    ensures NoWrap(NO_FRAME) && Finalized(NO_FRAME, parity, explicitMarker, now) == Untouched
  {
  }

  /** The first packet of a frame that has got through begins it. */
  lemma BeginsCollecting(p: RtpPacket, sent: seq<Clip>, i: nat, j: nat, now: int)
    requires ClipsOk(sent) && IsPacket(p, sent, i, j)
    ensures i < |sent| && Collecting(WithPacket(NewFrame(p, now), p), sent[i])
  {
  }

  /** A later packet of the frame being collected is added to it. */
  lemma GoesOnCollecting(f: FrameState, p: RtpPacket, sent: seq<Clip>, i: nat, j: nat)
    requires ClipsOk(sent) && IsPacket(p, sent, i, j) && CollectedFrom(f, sent) && p.ts == f.ts
    requires forall q :: q in f.raws ==> q < p.seqNo
    ensures i < |sent| && Collecting(WithPacket(f, p), sent[i]) && f.firstSeq <= p.seqNo
  {
    var k :| 0 <= k < |sent| && Collecting(f, sent[k]);
    SameClip(sent, f, i, k);
    AddsPacket(f, p, sent, i, j);
  }

  lemma SameClip(sent: seq<Clip>, f: FrameState, i: nat, k: nat)
    requires ClipsOk(sent) && i < |sent| && k < |sent| && Collecting(f, sent[k]) && f.ts == Timestamp(sent[i].f)
    ensures i == k
  {
    hide ClipOk, Timestamp;
  }

  lemma AddsPacket(f: FrameState, p: RtpPacket, sent: seq<Clip>, i: nat, j: nat)
    requires IsPacket(p, sent, i, j) && Collecting(f, sent[i])
    requires forall q :: q in f.raws ==> q < p.seqNo
    ensures Collecting(WithPacket(f, p), sent[i]) && f.firstSeq <= p.seqNo
  {
    hide ClipOk, Timestamp;
  }

  /** One packet leaves the buffer: it follows, and the invariant stays. */
  lemma AssembledOk(a: Asm, sent: seq<Clip>, bound: nat, p: RtpPacket, i: nat, j: nat, now: int)
    requires ClipsOk(sent) && AsmOk(a, sent, bound) && IsPacket(p, sent, i, j) && bound <= p.seqNo
    ensures Follows(a.cur, p) && AsmOk(Assembled(a, p, now), sent, p.seqNo + 1)
  {
    hide ClipsOk, Collecting, ShownFrom, Finish, IsPacket, NoWrap, WithPacket, NewFrame, ParitiesOk;
    FinishOk(a, sent, bound, false, now);
    var ready := if !a.cur.started || p.ts != a.cur.ts then Finish(a, false, now).(cur := NewFrame(p, now)) else a;
    var added := ready.(cur := WithPacket(ready.cur, p));
    if !a.cur.started || p.ts != a.cur.ts {
      BeginsCollecting(p, sent, i, j, now);
      BeginsBelow(p, now);
    } else {
      StartedIsCollected(a.cur, sent);
      GoesOnCollecting(a.cur, p, sent, i, j);
      GoesOnBelow(a.cur, p, bound);
    }
    assert CollectedFrom(added.cur, sent);
    assert AsmOk(added, sent, p.seqNo + 1);
    FinishOk(added, sent, p.seqNo + 1, true, now);
  }

  lemma BeginsBelow(p: RtpPacket, now: int)
    ensures forall q :: q in WithPacket(NewFrame(p, now), p).raws ==> q < p.seqNo + 1
  {
  }

  lemma GoesOnBelow(f: FrameState, p: RtpPacket, bound: nat)
    requires bound <= p.seqNo && forall q :: q in f.raws ==> q < bound
    ensures forall q :: q in WithPacket(f, p).raws ==> q < p.seqNo + 1
  {
  }

  lemma StartedIsCollected(f: FrameState, sent: seq<Clip>)
    requires f.started && (f == NO_FRAME || CollectedFrom(f, sent))
    ensures CollectedFrom(f, sent)
  {
    hide Collecting;
  }

  // ---- the pass over parked frames ----

  lemma VisitedOk(a: Asm, sent: seq<Clip>, bound: nat, z: FrameState, now: int)
    requires ClipsOk(sent) && AsmOk(a, sent, bound) && CollectedFrom(z, sent)
    ensures WellParked(z) && AsmOk(Visited(a, z, now), sent, bound)
  {
    hide ClipsOk, Collecting, FromClip, FateOf, ShownFrom, WellParked;
    var i :| 0 <= i < |sent| && Collecting(z, sent[i]);
    OwnParity(a.fec, sent, z, i);
    FateFromClip(z, sent[i], ParityFor(a.fec, z.captureMs), now);
    var fate := FateOf(z, ParityFor(a.fec, z.captureMs), now);
    if fate.Recovered? {
      EmissionShown(fate.fixed, sent, i);
    }
  }

  lemma {:induction false} VisitedAllOk(a: Asm, sent: seq<Clip>, bound: nat, zs: seq<FrameState>, now: int)
    requires ClipsOk(sent) && AsmOk(a, sent, bound) && forall z :: z in zs ==> CollectedFrom(z, sent)
    ensures forall i :: 0 <= i < |zs| ==> WellParked(zs[i])
    ensures AsmOk(VisitedAll(a, zs, now), sent, bound)
    decreases |zs|
  {
    hide ClipsOk, CollectedFrom, AsmOk, Visited, WellParked;
    if zs != [] {
      VisitedOk(a, sent, bound, zs[0], now);
      VisitedAllOk(Visited(a, zs[0], now), sent, bound, zs[1..], now);
      assert forall i :: 0 < i < |zs| ==> zs[i] == zs[1..][i - 1];
    }
  }

  /** The pass over parked frames takes them aside first. */
  lemma ParkedAside(a: Asm, sent: seq<Clip>, bound: nat)
    requires AsmOk(a, sent, bound)
    ensures AsmOk(a.(zombies := []), sent, bound) && forall z :: z in a.zombies ==> CollectedFrom(z, sent)
  {
    hide CollectedFrom, ParitiesOk, ShownFrom;
  }

  // ---- parities and new frames ----

  lemma WithParityOk(fec: map<u32, bytes>, sent: seq<Clip>, i: nat)
    requires ParitiesOk(fec, sent) && i < |sent|
    ensures ParitiesOk(WithParity(fec, KeyOf(sent[i]), Parity(sent[i].ps)), sent)
  {
    hide Parity;
  }

  lemma OneMoreClip(a: Asm, sent: seq<Clip>, bound: nat, c: Clip)
    requires AsmOk(a, sent, bound)
    ensures AsmOk(a, sent + [c], bound)
  {
    hide Collecting, FromClip, Parity;
    var more := sent + [c];
    assert forall i :: 0 <= i < |sent| ==> more[i] == sent[i];
    forall f | CollectedFrom(f, sent)
      ensures CollectedFrom(f, more)
    {
      var i :| 0 <= i < |sent| && Collecting(f, sent[i]);
      assert Collecting(f, more[i]);
    }
    forall k, p | ParityOf(k, p, sent)
      ensures ParityOf(k, p, more)
    {
      var i :| 0 <= i < |sent| && k == KeyOf(sent[i]) && p == Parity(sent[i].ps);
      assert k == KeyOf(more[i]) && p == Parity(more[i].ps);
    }
    forall x | ShownFrom(x, sent)
      ensures ShownFrom(x, more)
    {
      var i :| 0 <= i < |sent| && FromClip(Some(x), sent[i]);
      assert FromClip(Some(x), more[i]);
    }
  }

  // ---- how often a frame is emitted ----

  function TimesShown(out: seq<OutFrame>, ms: int): nat {
    if out == [] then 0 else TimesShown(out[..|out| - 1], ms) + if out[|out| - 1].frameId == ms then 1 else 0
  }

  function Parked(zs: seq<FrameState>, ms: int): nat {
    if zs == [] then 0 else (if zs[0].captureMs == ms then 1 else 0) + Parked(zs[1..], ms)
  }

  /** How often the frame of this capture time was emitted, and may still be: w more times while it is in place. */
  function Due(a: Asm, ms: int, w: nat): nat {
    TimesShown(a.out, ms) + (if a.cur.started && a.cur.captureMs == ms then w else 0) + Parked(a.zombies, ms)
  }

  function Weight(f: FrameState): nat {
    if f.markerSeen then 1 else 2
  }

  /** No frame sent is due more than twice; one that no packet has come through of yet is due twice. */
  ghost predicate DueTwice(a: Asm, sent: seq<Clip>, bound: nat) {
    forall i :: 0 <= i < |sent| ==>
      Due(a, Millis(sent[i]), Weight(a.cur)) + (if bound <= sent[i].q0 then 2 else 0) <= 2
  }

  /** The last packet that came through belongs to the frame in place, or was its frame's last. */
  ghost predicate LastTouched(a: Asm, sent: seq<Clip>, bound: nat) {
    bound == 0 || exists e :: 0 <= e < |sent| && EndsIn(a, sent[e], bound)
  }

  ghost predicate EndsIn(a: Asm, c: Clip, bound: nat) {
    c.q0 < bound <= c.q0 + |c.ps| && (Collecting(a.cur, c) || bound == c.q0 + |c.ps|)
  }

  lemma CountEmission(out: seq<OutFrame>, o: Option<OutFrame>, c: Clip, ms: int)
    requires FromClip(o, c)
    ensures TimesShown(out + Emission(o), ms) <= TimesShown(out, ms) + if ms == Millis(c) then 1 else 0
  {
    hide Unpack;
    if o.Some? {
      assert (out + [o.value])[..|out|] == out;
    } else {
      assert out + [] == out;
    }
  }

  lemma {:induction false} ParkedSnoc(zs: seq<FrameState>, z: FrameState, ms: int)
    ensures Parked(zs + [z], ms) == Parked(zs, ms) + if z.captureMs == ms then 1 else 0
    decreases |zs|
  {
    if zs == [] {
      assert [z][1..] == [];
    } else {
      ParkedSnoc(zs[1..], z, ms);
      assert (zs + [z])[1..] == zs[1..] + [z];
    }
  }

  /** A finish uses up one of the emissions the frame in place is due. */
  lemma FinishDue(a: Asm, sent: seq<Clip>, bound: nat, explicitMarker: bool, now: int, ms: int, w: nat)
    requires ClipsOk(sent) && AsmOk(a, sent, bound) && w > 0
    ensures NoWrap(a.cur) && Due(Finish(a, explicitMarker, now), ms, w - 1) <= Due(a, ms, w)
  {
    hide ClipsOk, Collecting, FromClip, Finalized, ShownFrom, TimesShown, Parked;
    if a.cur == NO_FRAME {
      NothingFinalized(ParityFor(a.fec, a.cur.captureMs), explicitMarker, now);
    } else {
      var i :| 0 <= i < |sent| && Collecting(a.cur, sent[i]);
      OwnParity(a.fec, sent, a.cur, i);
      FinalizedFromClip(a.cur, sent[i], ParityFor(a.fec, a.cur.captureMs), explicitMarker, now);
      CollectingFacts(a.cur, sent[i]);
      var outcome := Finalized(a.cur, ParityFor(a.fec, a.cur.captureMs), explicitMarker, now);
      ParkedSnoc(a.zombies, a.cur, ms);
      ParkedNoFrame();
      if outcome.Emits? {
        CountEmission(a.out, outcome.out, sent[i], ms);
      } else if outcome.Repairs? {
        CountEmission(a.out, outcome.fixed, sent[i], ms);
      }
    }
  }

  lemma ParkedNoFrame()
    ensures !NO_FRAME.started
  {
  }

  lemma CollectingFacts(f: FrameState, c: Clip)
    requires Collecting(f, c)
    ensures f.started && f.captureMs == Millis(c) && f.ts == Timestamp(c.f)
  {
  }

  lemma VisitedDue(a: Asm, sent: seq<Clip>, bound: nat, z: FrameState, now: int, ms: int, w: nat)
    requires ClipsOk(sent) && AsmOk(a, sent, bound) && CollectedFrom(z, sent)
    ensures WellParked(z)
    ensures Due(Visited(a, z, now), ms, w) <= Due(a, ms, w) + if z.captureMs == ms then 1 else 0
    ensures Visited(a, z, now).cur == a.cur
  {
    hide ClipsOk, Collecting, FromClip, FateOf, ShownFrom, WellParked, TimesShown, Parked;
    var i :| 0 <= i < |sent| && Collecting(z, sent[i]);
    OwnParity(a.fec, sent, z, i);
    CollectingFacts(z, sent[i]);
    FateFromClip(z, sent[i], ParityFor(a.fec, z.captureMs), now);
    var fate := FateOf(z, ParityFor(a.fec, z.captureMs), now);
    ParkedSnoc(a.zombies, z, ms);
    if fate.Recovered? {
      CountEmission(a.out, fate.fixed, sent[i], ms);
    }
  }

  lemma {:induction false} VisitedAllDue(a: Asm, sent: seq<Clip>, bound: nat, zs: seq<FrameState>, now: int, ms: int,
                                         w: nat)
    requires ClipsOk(sent) && AsmOk(a, sent, bound) && forall z :: z in zs ==> CollectedFrom(z, sent)
    ensures forall i :: 0 <= i < |zs| ==> WellParked(zs[i])
    ensures Due(VisitedAll(a, zs, now), ms, w) <= Due(a, ms, w) + Parked(zs, ms)
    ensures VisitedAll(a, zs, now).cur == a.cur
    decreases |zs|
  {
    hide ClipsOk, CollectedFrom, AsmOk, Visited, WellParked, Due;
    VisitedAllOk(a, sent, bound, zs, now);
    if zs != [] {
      VisitedOk(a, sent, bound, zs[0], now);
      VisitedDue(a, sent, bound, zs[0], now, ms, w);
      VisitedAllDue(Visited(a, zs[0], now), sent, bound, zs[1..], now, ms, w);
    }
  }

  lemma PassedDue(a: Asm, sent: seq<Clip>, bound: nat, now: int, ms: int, w: nat)
    requires ClipsOk(sent) && AsmOk(a, sent, bound)
    ensures forall i :: 0 <= i < |a.zombies| ==> WellParked(a.zombies[i])
    ensures Due(Passed(a, now), ms, w) <= Due(a, ms, w) && Passed(a, now).cur == a.cur
  {
    hide ClipsOk, CollectedFrom, VisitedAll, WellParked, ParitiesOk, ShownFrom, TimesShown;
    VisitedAllDue(a.(zombies := []), sent, bound, a.zombies, now, ms, w);
  }

  lemma PassedTwice(a: Asm, sent: seq<Clip>, bound: nat, now: int)
    requires ClipsOk(sent) && AsmOk(a, sent, bound) && DueTwice(a, sent, bound) && LastTouched(a, sent, bound)
    ensures forall i :: 0 <= i < |a.zombies| ==> WellParked(a.zombies[i])
    ensures DueTwice(Passed(a, now), sent, bound) && LastTouched(Passed(a, now), sent, bound)
  {
    hide ClipsOk, AsmOk, Passed, WellParked, Due, Collecting, Weight;
    PassedDue(a, sent, bound, now, 0, 0);
    forall i | 0 <= i < |sent|
      ensures Due(Passed(a, now), Millis(sent[i]), Weight(a.cur)) <= Due(a, Millis(sent[i]), Weight(a.cur))
    {
      PassedDue(a, sent, bound, now, Millis(sent[i]), Weight(a.cur));
    }
    if bound != 0 {
      var e :| 0 <= e < |sent| && EndsIn(a, sent[e], bound);
      assert EndsIn(Passed(a, now), sent[e], bound);
    }
  }

  /** A packet that does not belong to the frame in place is the first of its frame to come through. */
  lemma FirstOfItsFrame(a: Asm, sent: seq<Clip>, bound: nat, p: RtpPacket, i: nat, j: nat)
    requires ClipsOk(sent) && LastTouched(a, sent, bound) && IsPacket(p, sent, i, j) && bound <= p.seqNo
    ensures Collecting(a.cur, sent[i]) || bound <= sent[i].q0
  {
    PacketFacts(p, sent, i, j);
    hide ClipsOk, Collecting, IsPacket;
    if bound != 0 {
      var e :| 0 <= e < |sent| && EndsIn(a, sent[e], bound);
      Apart(sent, i, e);
    }
  }

  lemma Apart(sent: seq<Clip>, i: nat, e: nat)
    requires ClipsOk(sent) && i < |sent| && e < |sent|
    ensures i < e ==> sent[i].q0 + |sent[i].ps| <= sent[e].q0
    ensures e < i ==> sent[e].q0 + |sent[e].ps| <= sent[i].q0
  {
    hide ClipOk, Timestamp;
  }

  lemma AssembledTwice(a: Asm, sent: seq<Clip>, bound: nat, p: RtpPacket, i: nat, j: nat, now: int)
    requires ClipsOk(sent) && AsmOk(a, sent, bound) && IsPacket(p, sent, i, j) && bound <= p.seqNo
    requires DueTwice(a, sent, bound) && LastTouched(a, sent, bound)
    ensures Follows(a.cur, p)
    ensures DueTwice(Assembled(a, p, now), sent, p.seqNo + 1) && LastTouched(Assembled(a, p, now), sent, p.seqNo + 1)
  {
    hide ClipsOk, Collecting, ShownFrom, Finish, IsPacket, NoWrap, WithPacket, NewFrame, AsmOk, Due, DueTwice,
         LastTouched,
         Weight;
    AssembledOk(a, sent, bound, p, i, j, now);
    var added := Added(a, p, now);
    AddedOk(a, sent, bound, p, i, j, now);
    forall k | 0 <= k < |sent|
      ensures Due(added, Millis(sent[k]), 2) + (if p.seqNo + 1 <= sent[k].q0 then 2 else 0) <= 2
    {
      AddedDue(a, sent, bound, p, i, j, now, k);
    }
    if p.marker {
      MarkedTwice(added, sent, p, i, j, now);
    } else {
      UnmarkedTwice(added, sent, p, i, j);
    }
  }

  /** The state with the packet added, before its marker counts. */
  ghost function Added(a: Asm, p: RtpPacket, now: int): Asm
    requires NoWrap(a.cur)
  {
    var ready := if !a.cur.started || p.ts != a.cur.ts then Finish(a, false, now).(cur := NewFrame(p, now)) else a;
    ready.(cur := WithPacket(ready.cur, p))
  }

  lemma AddedOk(a: Asm, sent: seq<Clip>, bound: nat, p: RtpPacket, i: nat, j: nat, now: int)
    requires ClipsOk(sent) && AsmOk(a, sent, bound) && IsPacket(p, sent, i, j) && bound <= p.seqNo
    ensures NoWrap(a.cur) && AsmOk(Added(a, p, now), sent, p.seqNo + 1)
    ensures i < |sent| && Collecting(Added(a, p, now).cur, sent[i]) && p.seqNo in Added(a, p, now).cur.raws
  {
    hide ClipsOk, Collecting, ShownFrom, Finish, IsPacket, NoWrap, WithPacket, NewFrame, ParitiesOk;
    FinishOk(a, sent, bound, false, now);
    HoldsPacket(a.cur, p);
    HoldsPacket(NewFrame(p, now), p);
    if !a.cur.started || p.ts != a.cur.ts {
      BeginsCollecting(p, sent, i, j, now);
      BeginsBelow(p, now);
    } else {
      StartedIsCollected(a.cur, sent);
      GoesOnCollecting(a.cur, p, sent, i, j);
      GoesOnBelow(a.cur, p, bound);
    }
  }

  lemma HoldsPacket(f: FrameState, p: RtpPacket)
    ensures p.seqNo in WithPacket(f, p).raws
  {
  }

  /** Adding a packet leaves no frame due more than twice, the frame in place counting twice. */
  lemma AddedDue(a: Asm, sent: seq<Clip>, bound: nat, p: RtpPacket, i: nat, j: nat, now: int, k: nat)
    requires ClipsOk(sent) && AsmOk(a, sent, bound) && IsPacket(p, sent, i, j) && bound <= p.seqNo && k < |sent|
    requires DueTwice(a, sent, bound) && LastTouched(a, sent, bound)
    ensures NoWrap(a.cur)
    ensures Due(Added(a, p, now), Millis(sent[k]), 2) + (if p.seqNo + 1 <= sent[k].q0 then 2 else 0) <= 2
  {
    PacketFacts(p, sent, i, j);
    FirstOfItsFrame(a, sent, bound, p, i, j);
    if i != k {
      DifferentFrames(sent, i, k);
    }
    NoWrapOf(a, sent, bound);
    DueTwiceAt(a, sent, bound, k);
    hide ClipsOk, AsmOk, Collecting, Finish, IsPacket, NoWrap, LastTouched, Due, DueTwice, Weight, Millis, Timestamp,
         WithPacket,
         NewFrame;
    var ms := Millis(sent[k]);
    if !a.cur.started || p.ts != a.cur.ts {
      WeightPositive(a.cur);
      FinishDue(a, sent, bound, false, now, ms, Weight(a.cur));
      NotInPlace(a, sent, i);
      BeganDue(Finish(a, false, now), p, now, ms, Weight(a.cur) - 1);
    } else {
      GoesOnUnmarked(a, sent, bound, p, i, j);
      GoesOnDue(a, p, ms);
    }
  }

  lemma DueTwiceAt(a: Asm, sent: seq<Clip>, bound: nat, k: nat)
    requires DueTwice(a, sent, bound) && k < |sent|
    ensures Due(a, Millis(sent[k]), Weight(a.cur)) + (if bound <= sent[k].q0 then 2 else 0) <= 2
  {
    hide Due, Millis, Weight;
  }

  lemma WeightPositive(f: FrameState)
    ensures Weight(f) > 0
  {
  }

  lemma BeganDue(a: Asm, p: RtpPacket, now: int, ms: int, w: nat)
    ensures Due(a.(cur := WithPacket(NewFrame(p, now), p)), ms, 2) <= Due(a, ms, w) + if ms == p.captureMs then 2 else 0
  {
  }

  lemma GoesOnDue(a: Asm, p: RtpPacket, ms: int)
    requires !a.cur.markerSeen
    ensures Due(a.(cur := WithPacket(a.cur, p)), ms, 2) == Due(a, ms, Weight(a.cur))
  {
  }

  lemma NoWrapOf(a: Asm, sent: seq<Clip>, bound: nat)
    requires ClipsOk(sent) && AsmOk(a, sent, bound)
    ensures NoWrap(a.cur)
  {
    hide ClipsOk, AsmOk, NoWrap;
    FinishOk(a, sent, bound, false, 0);
  }

  lemma PacketFacts(p: RtpPacket, sent: seq<Clip>, i: nat, j: nat)
    requires IsPacket(p, sent, i, j)
    ensures i < |sent| && p.captureMs == Millis(sent[i]) && p.ts == Timestamp(sent[i].f)
    ensures sent[i].q0 <= p.seqNo < sent[i].q0 + |sent[i].ps|
  {
  }

  lemma DifferentFrames(sent: seq<Clip>, i: nat, k: nat)
    requires ClipsOk(sent) && i < |sent| && k < |sent| && i != k
    ensures Millis(sent[i]) != Millis(sent[k])
  {
    hide ClipOk, Millis;
  }

  lemma NotInPlace(a: Asm, sent: seq<Clip>, i: nat)
    requires i < |sent| && (!a.cur.started || Timestamp(sent[i].f) != a.cur.ts)
    ensures !Collecting(a.cur, sent[i])
  {
  }

  /** The marked packet is the last of its frame: nothing follows it. */
  lemma GoesOnUnmarked(a: Asm, sent: seq<Clip>, bound: nat, p: RtpPacket, i: nat, j: nat)
    requires ClipsOk(sent) && AsmOk(a, sent, bound) && IsPacket(p, sent, i, j) && bound <= p.seqNo
    requires a.cur.started && a.cur.ts == p.ts
    ensures !a.cur.markerSeen
  {
    StartedIsCollected(a.cur, sent);
    var k :| 0 <= k < |sent| && Collecting(a.cur, sent[k]);
    SameClip(sent, a.cur, i, k);
    hide ClipOk, Timestamp, Millis;
  }

  lemma MarkedTwice(added: Asm, sent: seq<Clip>, p: RtpPacket, i: nat, j: nat, now: int)
    requires ClipsOk(sent) && AsmOk(added, sent, p.seqNo + 1) && IsPacket(p, sent, i, j) && p.marker
    requires Collecting(added.cur, sent[i]) && p.seqNo in added.cur.raws
    requires forall k :: 0 <= k < |sent| ==>
             Due(added, Millis(sent[k]), 2) + (if p.seqNo + 1 <= sent[k].q0 then 2 else 0) <= 2
    ensures NoWrap(added.cur)
    ensures var b := Finish(added, true, now); DueTwice(b, sent, p.seqNo + 1) && LastTouched(b, sent, p.seqNo + 1)
  {
    MarkedIsLast(added.cur, sent, p, i, j);
    FinishOk(added, sent, p.seqNo + 1, true, now);
    hide ClipsOk, AsmOk, Collecting, Finish, IsPacket, NoWrap, TimesShown, Parked, Millis, Timestamp;
    var b := Finish(added, true, now);
    forall k | 0 <= k < |sent|
      ensures Due(b, Millis(sent[k]), Weight(b.cur)) + (if p.seqNo + 1 <= sent[k].q0 then 2 else 0) <= 2
    {
      FinishDue(added, sent, p.seqNo + 1, true, now, Millis(sent[k]), 2);
    }
    assert EndsIn(b, sent[i], p.seqNo + 1);
  }

  lemma MarkedIsLast(f: FrameState, sent: seq<Clip>, p: RtpPacket, i: nat, j: nat)
    requires IsPacket(p, sent, i, j) && p.marker && Collecting(f, sent[i]) && p.seqNo in f.raws
    ensures f.markerSeen && sent[i].q0 < p.seqNo + 1 == sent[i].q0 + |sent[i].ps|
  {
    hide ClipOk, Timestamp, Millis;
  }

  lemma UnmarkedTwice(added: Asm, sent: seq<Clip>, p: RtpPacket, i: nat, j: nat)
    requires AsmOk(added, sent, p.seqNo + 1) && IsPacket(p, sent, i, j) && !p.marker && Collecting(added.cur, sent[i])
    requires forall k :: 0 <= k < |sent| ==>
             Due(added, Millis(sent[k]), 2) + (if p.seqNo + 1 <= sent[k].q0 then 2 else 0) <= 2
    ensures DueTwice(added, sent, p.seqNo + 1) && LastTouched(added, sent, p.seqNo + 1)
  {
    UnmarkedIsNotLast(added.cur, sent, p, i, j);
    hide AsmOk, Collecting, IsPacket, TimesShown, Parked, Millis, Timestamp;
    assert EndsIn(added, sent[i], p.seqNo + 1);
  }

  lemma UnmarkedIsNotLast(f: FrameState, sent: seq<Clip>, p: RtpPacket, i: nat, j: nat)
    requires IsPacket(p, sent, i, j) && !p.marker && Collecting(f, sent[i])
             && forall q :: q in f.raws ==> q < p.seqNo + 1
    ensures !f.markerSeen && sent[i].q0 < p.seqNo + 1 <= sent[i].q0 + |sent[i].ps|
  {
    hide ClipOk, Timestamp, Millis;
  }
}
