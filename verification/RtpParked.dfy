/**
 * A frame whose parity comes late: its marked packet comes through with one packet missing and no parity, so it is
 * parked; when the parity comes in time, the next packet that comes through makes the assembler emit it, repaired.
 */
module RtpParked {
  import opened Bytes
  import opened Options
  import opened Fec
  import opened MediaTypes
  import opened RtpServers
  import opened RtpReceivers
  import opened RtpRepair
  import opened RtpLoss
  import opened RtpRuns
  import opened RtpLink
  import opened RtpParity
  import opened JitterBuffers
  import opened JitterRuns
  import opened JitterOrder

  function Key(f: FrameState): u32 {
    f.captureMs % TWO32
  }

  /** No two frames parked have the same key, nor does the frame in place have that of a parked one. */
  ghost predicate Distinct(zs: seq<FrameState>) {
    forall x, y :: 0 <= x < y < |zs| ==> Key(zs[x]) != Key(zs[y])
  }

  ghost predicate Apart(zs: seq<FrameState>, key: u32) {
    forall z :: z in zs ==> Key(z) != key
  }

  ghost predicate Alone(a: Asm) {
    Distinct(a.zombies) && (a.cur.started ==> Apart(a.zombies, Key(a.cur)))
  }

  lemma DistinctSnoc(zs: seq<FrameState>, z: FrameState)
    requires Distinct(zs) && Apart(zs, Key(z))
    ensures Distinct(zs + [z])
  {
    forall x, y | 0 <= x < y < |zs + [z]|
      ensures Key((zs + [z])[x]) != Key((zs + [z])[y])
    {
      if y == |zs| {
        assert zs[x] in zs;
      }
    }
  }

  lemma DistinctHead(zs: seq<FrameState>, z: FrameState, rest: seq<FrameState>)
    requires Distinct(zs + [z] + rest)
    ensures Distinct(zs + rest) && Distinct((zs + [z]) + rest)
  {
    var all, less := zs + [z] + rest, zs + rest;
    forall x, y | 0 <= x < y < |less|
      ensures Key(less[x]) != Key(less[y])
    {
      var i, j := if x < |zs| then x else x + 1, if y < |zs| then y else y + 1;
      assert less[x] == all[i] && less[y] == all[j];
    }
  }

  lemma {:induction false} PassStaysDistinct(a: Asm, zs: seq<FrameState>, now: int)
    requires forall i :: 0 <= i < |zs| ==> WellParked(zs[i])
    requires Distinct(a.zombies + zs)
    ensures Distinct(VisitedAll(a, zs, now).zombies)
    decreases |zs|
  {
    hide Visited, WellParked, Distinct;
    if zs == [] {
      assert a.zombies + zs == a.zombies;
    } else {
      VisitedKeeps(a, zs[0], now, 0);
      assert zs == [zs[0]] + zs[1..];
      assert a.zombies + zs == a.zombies + [zs[0]] + zs[1..];
      DistinctHead(a.zombies, zs[0], zs[1..]);
      PassStaysDistinct(Visited(a, zs[0], now), zs[1..], now);
    }
  }

  /** One packet of frame e: a new frame begins only where no parked frame has its key. */
  lemma TookStaysAlone(a: Asm, sent: seq<Clip>, bound: nat, p: RtpPacket, e: nat, j: nat, now: int)
    requires ClipsOk(sent) && AsmOk(a, sent, bound) && IsPacket(p, sent, e, j) && bound <= p.seqNo
    requires ParkedBelow(a.zombies, bound) && Alone(a)
    ensures Alone(Took(a, p, now))
  {
    hide ClipsOk, Collecting, IsPacket, AsmOk, FrameWith, Assembled, VisitedAll, Follows, WellParked, ParkedBelow,
         Alone, Distinct, Apart;
    FrameWithIs(a, sent, bound, p, e, j, now);
    NewIsApart(a, sent, bound, p, e, j, now);
    if Follows(a.cur, p) && Passable(Assembled(a, p, now)) {
      AssembledAlone(a, p, now);
      PassedAlone(Assembled(a, p, now), now);
    }
  }

  /** The frame of the packet that comes through is apart from what is parked. */
  lemma NewIsApart(a: Asm, sent: seq<Clip>, bound: nat, p: RtpPacket, e: nat, j: nat, now: int)
    requires ClipsOk(sent) && AsmOk(a, sent, bound) && IsPacket(p, sent, e, j) && bound <= p.seqNo
    requires ParkedBelow(a.zombies, bound)
    ensures Apart(a.zombies, Key(FrameWith(a, p, now)))
  {
    FrameWithIs(a, sent, bound, p, e, j, now);
    CurBelow(a, sent, bound);
    PacketPlace(p, sent, e, j);
    SameMillis(FrameWith(a, p, now), sent[e]);
    hide ClipsOk, Collecting, IsPacket, AsmOk, FrameWith;
    forall z | z in a.zombies
      ensures Key(z) != Key(FrameWith(a, p, now))
    {
      NotMarkedYet(z, sent, bound, e);
    }
  }

  lemma AssembledAlone(a: Asm, p: RtpPacket, now: int)
    requires Follows(a.cur, p) && Alone(a) && Apart(a.zombies, Key(FrameWith(a, p, now)))
    ensures Alone(Assembled(a, p, now))
  {
    WithFollows(a.cur, p, now);
    var ready := if !a.cur.started || p.ts != a.cur.ts then Finish(a, false, now).(cur := NewFrame(p, now)) else a;
    var added := ready.(cur := WithPacket(ready.cur, p));
    hide Finish, WithPacket, NewFrame, Distinct, Apart, NoWrap;
    FinishKeeps(a, false, now, 0);
    if p.marker {
      FinishPlaces(added, now);
      DistinctSnocIf(added.zombies, added.cur);
    }
  }

  lemma DistinctSnocIf(zs: seq<FrameState>, z: FrameState)
    ensures Distinct(zs) && Apart(zs, Key(z)) ==> Distinct(zs + [z])
  {
    hide Distinct, Apart;
    if Distinct(zs) && Apart(zs, Key(z)) {
      DistinctSnoc(zs, z);
    }
  }

  /** Finishing leaves the frame in place, or clears it, perhaps parking it. */
  lemma FinishPlaces(a: Asm, now: int)
    requires NoWrap(a.cur)
    ensures var b := Finish(a, true, now);
            || (b.zombies == a.zombies && (b.cur == a.cur || !b.cur.started))
            || (b.zombies == a.zombies + [a.cur] && !b.cur.started)
  {
    hide Emitted, Slots, Span, Missing, Rebuilt, NoWrap;
  }

  lemma PassedAlone(a: Asm, now: int)
    requires Alone(a) && Passable(a)
    ensures Alone(Passed(a, now))
  {
    hide VisitedAll, WellParked, Distinct;
    assert [] + a.zombies == a.zombies;
    PassStaysDistinct(a.(zombies := []), a.zombies, now);
    VisitedAllAppends(a.(zombies := []), a.zombies, now);
    PassKeepsCur(a.(zombies := []), a.zombies, now);
  }

  lemma {:induction false} PassKeepsCur(a: Asm, zs: seq<FrameState>, now: int)
    requires forall i :: 0 <= i < |zs| ==> WellParked(zs[i])
    ensures VisitedAll(a, zs, now).cur == a.cur
    decreases |zs|
  {
    hide FateOf, WellParked;
    if zs != [] {
      PassKeepsCur(Visited(a, zs[0], now), zs[1..], now);
    }
  }

  // ---- on the link ----

  lemma NextStaysAlone(s: Link, e: RtpLink.Event, base: int)
    requires Sound(s, base) && Allowed(s, e, base) && ParkedBelow(s.asm.zombies, Bound(s.jitter)) && Alone(s.asm)
    ensures Alone(RtpLink.Next(s, e).asm)
  {
    match e {
      case SendFrame(_) => hide Sound, FramePackets, Alone;
      case Deliver(_, _, _, _) => hide Sound, Alone; DeliverKeepsBound(s, e, base);
      case DeliverParity(_) => hide Sound, ParityPacket, Decode, Announced, WithParity, Distinct, Apart;
      case PopPacket(now) => hide Sound, Alone, RtpLink.Next, ParkedBelow; PopStaysAlone(s, now, base);
      case Rtt(_) => hide Sound, Step, Alone;
    }
  }

  lemma PopStaysAlone(s: Link, now: int, base: int)
    requires Sound(s, base) && s.mtu > RTP_HEADER + 2 && ParkedBelow(s.asm.zombies, Bound(s.jitter)) && Alone(s.asm)
    ensures Alone(RtpLink.Next(s, PopPacket(now)).asm)
  {
    hide SenderOk, AsmOk, DueTwice, LastTouched, BufferOk, Step, PopSpec, Took, Bound, ParkedBelow, ClipsOk, IsPacket,
         Alone;
    SenderMtu(s, base);
    if PopSpec(s.jitter.st, now).out.Some? {
      PoppedIsNew(s.jitter, s.sent, now);
      var p := PopSpec(s.jitter.st, now).out.value.data;
      var e: nat, j: nat :| IsPacket(p, s.sent, e, j);
      TookStaysAlone(s.asm, s.sent, Bound(s.jitter), p, e, j, now);
    }
  }

  lemma {:induction false} RunStaysAlone(states: seq<Link>, es: seq<RtpLink.Event>, base: int, n: nat)
    requires RtpLink.Run(states, es, base) && n <= |es|
    ensures Alone(states[n].asm)
  {
    hide RtpLink.Run, Sound, RtpLink.Next, Allowed, Bound, ParkedBelow;
    RunShape(states, es, base);
    if n > 0 {
      RunStaysAlone(states, es, base, n - 1);
      RunIsSound(states, es, base, n - 1);
      RunParks(states, es, base, n - 1);
      RunStep(states, es, base, n - 1);
      NextStaysAlone(states[n - 1], es[n - 1], base);
    }
  }

  // ---- a parked frame waits ----

  lemma VisitedWaits(a: Asm, z: FrameState, now: int)
    requires WellParked(z)
    ensures Visited(a, z, now).fec.Keys <= a.fec.Keys
    ensures Key(z) !in a.fec && now - z.firstSeenUs <= 250_000 ==> Visited(a, z, now).zombies == a.zombies + [z]
    ensures Visited(a, z, now).zombies == a.zombies || Visited(a, z, now).zombies == a.zombies + [z]
  {
    hide Emitted, Slots, Span, Missing, Rebuilt, NoWrap;
  }

  /** The pass keeps a frame whose parity is not there and that began at most 250 ms ago. */
  lemma {:induction false} PassWaits(a: Asm, zs: seq<FrameState>, z: FrameState, now: int)
    requires forall i :: 0 <= i < |zs| ==> WellParked(zs[i])
    requires z in a.zombies + zs && Key(z) !in a.fec && now - z.firstSeenUs <= 250_000
    ensures z in VisitedAll(a, zs, now).zombies && Key(z) !in VisitedAll(a, zs, now).fec
    decreases |zs|
  {
    hide Visited, WellParked;
    if zs != [] {
      VisitedWaits(a, zs[0], now);
      PassWaits(Visited(a, zs[0], now), zs[1..], z, now);
    }
  }

  lemma FinishTakes(a: Asm, explicitMarker: bool, now: int)
    requires NoWrap(a.cur)
    ensures Finish(a, explicitMarker, now).fec.Keys <= a.fec.Keys
  {
    hide Emitted, Slots, Span, Missing, Rebuilt, NoWrap;
  }

  lemma AssembledTakes(a: Asm, p: RtpPacket, now: int)
    requires Follows(a.cur, p)
    ensures Assembled(a, p, now).fec.Keys <= a.fec.Keys
    ensures forall z :: z in a.zombies ==> z in Assembled(a, p, now).zombies
  {
    AssembledKeeps(a, p, now, 0);
    WithFollows(a.cur, p, now);
    var ready := if !a.cur.started || p.ts != a.cur.ts then Finish(a, false, now).(cur := NewFrame(p, now)) else a;
    var added := ready.(cur := WithPacket(ready.cur, p));
    hide Finish, WithPacket, NewFrame, NoWrap;
    FinishTakes(a, false, now);
    if p.marker {
      FinishTakes(added, true, now);
    }
  }

  lemma TookWaits(a: Asm, p: RtpPacket, z: FrameState, now: int)
    requires z in a.zombies && Key(z) !in a.fec && now - z.firstSeenUs <= 250_000
    ensures z in Took(a, p, now).zombies && Key(z) !in Took(a, p, now).fec
  {
    hide Follows, WellParked, Assembled, VisitedAll;
    if Follows(a.cur, p) && Passable(Assembled(a, p, now)) {
      var b := Assembled(a, p, now);
      AssembledTakes(a, p, now);
      PassWaits(b.(zombies := []), b.zombies, z, now);
    }
  }

  /** This step hands a packet to the assembler. */
  ghost predicate HandsOn(s: Link, e: RtpLink.Event) {
    e.PopPacket? && PopSpec(s.jitter.st, e.now).out.Some?
  }

  /** The frame is parked, and its parity is not there. */
  ghost predicate Waits(a: Asm, z: FrameState, key: u32) {
    z in a.zombies && Key(z) == key && key !in a.fec
  }

  lemma StepWaits(s: Link, e: RtpLink.Event, base: int, z: FrameState, i: nat)
    requires Sound(s, base) && Allowed(s, e, base) && i < |s.sent| && Waits(s.asm, z, KeyOf(s.sent[i]))
    requires e != DeliverParity(i) && (e.PopPacket? ==> e.now - z.firstSeenUs <= 250_000)
    ensures Waits(RtpLink.Next(s, e).asm, z, KeyOf(s.sent[i]))
  {
    match e {
      case SendFrame(_) => hide Sound, FramePackets, KeyOf;
      case Deliver(_, _, _, _) => hide Sound, KeyOf; DeliverKeepsBound(s, e, base);
      case DeliverParity(j) => hide Sound, RtpLink.Next, KeyOf; OtherParity(s, i, j, base);
      case PopPacket(now) =>
        hide Sound, PopSpec, Took, Step, KeyOf;
        if PopSpec(s.jitter.st, now).out.Some? {
          TookWaits(s.asm, PopSpec(s.jitter.st, now).out.value.data, z, now);
        }
      case Rtt(_) => hide Sound, Step, KeyOf;
    }
  }

  /** Another frame's parity has another key. */
  lemma OtherParity(s: Link, i: nat, j: nat, base: int)
    requires Sound(s, base) && i < |s.sent| && j < |s.sent| && i != j
    ensures s.mtu > RTP_HEADER + 2
    ensures var t := RtpLink.Next(s, DeliverParity(j));
            t.asm.zombies == s.asm.zombies && t.asm.cur == s.asm.cur && t.asm.out == s.asm.out
            && (KeyOf(s.sent[i]) in t.asm.fec ==> KeyOf(s.sent[i]) in s.asm.fec)
  {
    hide Sound, RtpLink.Next, Parity, ParityPacket, WithParity, KeyOf, Stored, FramePackets, ClipOk, Millis;
    SenderFacts(s, j, base);
    ParityArrives(s.sent[j], s.mtu, s.ssrc);
    NextStores(s, j);
    ParityTouchesFec(s, j);
    WithParityStores(s.asm.fec, KeyOf(s.sent[j]), Parity(s.sent[j].ps));
    KeysDiffer(s, base, i, j);
    StoredFrom(s.asm.fec, WithParity(s.asm.fec, KeyOf(s.sent[j]), Parity(s.sent[j].ps)), KeyOf(s.sent[j]),
               Parity(s.sent[j].ps), KeyOf(s.sent[i]));
  }

  lemma ParityTouchesFec(s: Link, j: nat)
    requires s.mtu > RTP_HEADER + 2 && j < |s.sent|
    ensures var t := RtpLink.Next(s, DeliverParity(j));
            t.asm == s.asm.(fec := t.asm.fec) && t.jitter == s.jitter && t.sent == s.sent
  {
    hide ParityPacket, WithParity, Decode, Announced;
  }

  lemma StoredFrom(fec: map<u32, bytes>, after: map<u32, bytes>, more: u32, parity: bytes, key: u32)
    requires Stored(fec, after, more, parity) && key != more
    ensures key in after ==> key in fec
  {
  }

  lemma KeysDiffer(s: Link, base: int, i: nat, j: nat)
    requires Sound(s, base) && i < |s.sent| && j < |s.sent| && i != j
    ensures KeyOf(s.sent[i]) != KeyOf(s.sent[j])
  {
    hide AsmOk, DueTwice, LastTouched, BufferOk, ClipOk, Recorded, Millis, Timestamp, KeyOf;
  }

  // ---- it is parked ----

  /** A marked packet of the frame in place, one packet short and without parity: the frame is parked. */
  lemma TookParksFrame(a: Asm, sent: seq<Clip>, bound: nat, p: RtpPacket, i: nat, k: nat, j: nat, now: int)
    requires ClipsOk(sent) && AsmOk(a, sent, bound) && DueTwice(a, sent, bound) && LastTouched(a, sent, bound)
    requires i < |sent| && IsPacket(p, sent, i, |sent[i].ps| - 1) && bound <= p.seqNo
    requires LacksOne(a.cur, sent[i], k, j) && KeyOf(sent[i]) !in a.fec && now - a.cur.firstSeenUs < 250_000
    ensures var f := FrameWith(a, p, now);
            && Waits(Took(a, p, now), f, KeyOf(sent[i])) && ParkedShort(f, sent[i], k, j)
            && f.firstSeenUs == a.cur.firstSeenUs
  {
    hide Collecting, AsmOk, DueTwice, LastTouched, ClipsOk, IsPacket, Took, WithPacket, Finalized, WellParked, Follows,
         Span, NoWrap, KeyOf, Timestamp, Millis, FrameWith, Assembled, Passed, LacksOne, Finish, VisitedAll;
    var c := sent[i];
    var f := FrameWith(a, p, now);
    ClipHasPackets(sent, i);
    PacketPlace(p, sent, i, |c.ps| - 1);
    FrameWithIs(a, sent, bound, p, i, |c.ps| - 1, now);
    TookSound(a, sent, bound, p, i, |c.ps| - 1, now);
    SameMillis(f, c);
    KeyIs(f, c);
    LackingFrame(a, p, now, c, k, j);
    OneShortWithLast(f, c, k, j);
    FrameIsFinished(a, p, now);
    SameBeginning(a, p, now);
    MarkedStarted(f, c);
    FinishWithoutParity(f, true, now);
    ParkedByFinish(a.(cur := f), now);
    var b := Assembled(a, p, now);
    LastIn(a.zombies, f);
    PassWaits(b.(zombies := []), b.zombies, f, now);
    PassedIs(b, now);
  }

  lemma PassedIs(a: Asm, now: int)
    requires Passable(a)
    ensures Passed(a, now) == VisitedAll(a.(zombies := []), a.zombies, now)
  {
    hide VisitedAll, WellParked;
  }

  lemma LastIn(zs: seq<FrameState>, z: FrameState)
    ensures z in zs + [z] && [] + (zs + [z]) == zs + [z]
  {
    assert (zs + [z])[|zs|] == z;
  }

  lemma KeyIs(f: FrameState, c: Clip)
    requires f.captureMs == Millis(c)
    ensures Key(f) == KeyOf(c)
  {
  }

  lemma MarkedStarted(f: FrameState, c: Clip)
    requires Collecting(f, c)
    ensures f.started && f.raws != map[]
  {
  }

  lemma SameBeginning(a: Asm, p: RtpPacket, now: int)
    requires a.cur.started && p.ts == a.cur.ts
    ensures FrameWith(a, p, now).firstSeenUs == a.cur.firstSeenUs
  {
  }

  lemma ParkedByFinish(a: Asm, now: int)
    requires NoWrap(a.cur) && Key(a.cur) !in a.fec && Finalized(a.cur, None, true, now) == Parks
    ensures Finish(a, true, now) == a.(cur := NO_FRAME, zombies := a.zombies + [a.cur])
  {
    hide Finalized, NoWrap;
  }

  lemma PopParksFrame(s: Link, e: RtpLink.Event, base: int, i: nat, k: nat, j: nat)
    requires Sound(s, base) && Allowed(s, e, base) && i < |s.sent| && Brings(s, e, s.sent[i])
    requires LacksOne(s.asm.cur, s.sent[i], k, j) && KeyOf(s.sent[i]) !in s.asm.fec
    requires e.now - s.asm.cur.firstSeenUs < 250_000
    ensures exists z :: Waits(RtpLink.Next(s, e).asm, z, KeyOf(s.sent[i])) && ParkedShort(z, s.sent[i], k, j)
                        && z.firstSeenUs == s.asm.cur.firstSeenUs
  {
    hide SenderOk, AsmOk, DueTwice, LastTouched, BufferOk, PopSpec, Bound, ClipsOk, KeyOf, Took, Step, LacksOne,
         IsPacket, Waits, ParkedShort;
    SenderMtu(s, base);
    PoppedIsNew(s.jitter, s.sent, e.now);
    var p := PopSpec(s.jitter.st, e.now).out.value.data;
    var x: nat, y: nat :| IsPacket(p, s.sent, x, y);
    OwnerOfLast(s.sent, p, x, y, i);
    TookParksFrame(s.asm, s.sent, Bound(s.jitter), p, i, k, j, e.now);
  }

  // ---- and repaired ----

  lemma TookRepairsParked(a: Asm, sent: seq<Clip>, bound: nat, p: RtpPacket, e: nat, y: nat, z: FrameState, i: nat,
                          k: nat, j: nat, now: int)
    requires ClipsOk(sent) && AsmOk(a, sent, bound) && DueTwice(a, sent, bound) && LastTouched(a, sent, bound)
    requires IsPacket(p, sent, e, y) && bound <= p.seqNo && ParkedBelow(a.zombies, bound) && Alone(a)
    requires i < |sent| && z in a.zombies && ParkedShort(z, sent[i], k, j)
    requires Key(z) == KeyOf(sent[i]) && KeyOf(sent[i]) in a.fec
    ensures k < j < |sent[i].ps| && sent[i].q0 + |sent[i].ps| <= 0x1_0000
    ensures PutsOut(a.out, Emission(Shown(sent[i], Patched(sent[i], k, j))), Took(a, p, now).out)
  {
    hide Collecting, AsmOk, DueTwice, LastTouched, ClipsOk, IsPacket, Took, WellParked, Follows, KeyOf, FrameWith,
         Assembled, VisitedAll, Shown, Patched, Emission, ParkedShort, Alone, ParkedBelow, Passed, PutsOut;
    TookSound(a, sent, bound, p, e, y, now);
    NewIsApart(a, sent, bound, p, e, y, now);
    ApartFrom(a, z);
    AssembledOk(a, sent, bound, p, e, y, now);
    AssembledKeeps(a, p, now, Key(z));
    KeyNotNew(a, p, z, now);
    MarkedIsStarted(a, sent, bound);
    var b := Assembled(a, p, now);
    AssembledTakes(a, p, now);
    NewIsApart(a, sent, bound, p, e, y, now);
    AssembledAlone(a, p, now);
    AloneDistinct(b);
    ParkedAside(b, sent, p.seqNo + 1);
    var x: nat :| x < |b.zombies| && b.zombies[x] == z;
    OthersApart(b.zombies, x);
    ParkedFrameRepaired(b.(zombies := []), sent, p.seqNo + 1, b.zombies, x, i, k, j, now);
    PassedIs(b, now);
    PutsOutSince(a.out, b.out, Emission(Shown(sent[i], Patched(sent[i], k, j))), Took(a, p, now).out);
  }

  lemma MarkedIsStarted(a: Asm, sent: seq<Clip>, bound: nat)
    requires AsmOk(a, sent, bound)
    ensures a.cur.markerSeen ==> a.cur.started
  {
    CurBelow(a, sent, bound);
    hide AsmOk, ClipOk, Millis, Timestamp;
  }

  lemma AloneDistinct(a: Asm)
    requires Alone(a)
    ensures Distinct(a.zombies)
  {
    hide Distinct, Apart;
  }

  lemma OthersApart(zs: seq<FrameState>, x: nat)
    requires Distinct(zs) && x < |zs|
    ensures forall y :: 0 <= y < x ==> Key(zs[y]) != Key(zs[x])
  {
  }

  lemma ApartFrom(a: Asm, z: FrameState)
    requires Alone(a) && z in a.zombies
    ensures a.cur.started ==> Key(a.cur) != Key(z)
  {
    hide Distinct;
  }

  lemma KeyNotNew(a: Asm, p: RtpPacket, z: FrameState, now: int)
    requires z in a.zombies && Apart(a.zombies, Key(FrameWith(a, p, now)))
    ensures Key(FrameWith(a, p, now)) != Key(z)
  {
    hide FrameWith;
  }

  /** Its parity is there now. */
  ghost predicate Mendable(a: Asm, z: FrameState, key: u32) {
    z in a.zombies && Key(z) == key && key in a.fec
  }

  lemma ParityComes(s: Link, base: int, z: FrameState, i: nat)
    requires Sound(s, base) && i < |s.sent| && Waits(s.asm, z, KeyOf(s.sent[i]))
    requires !PushesOut(s, DeliverParity(i), KeyOf(s.sent[i]))
    ensures s.mtu > RTP_HEADER + 2 && Mendable(RtpLink.Next(s, DeliverParity(i)).asm, z, KeyOf(s.sent[i]))
  {
    hide Sound, RtpLink.Next, KeyOf, PushesOut;
    StoredStays(s, i, i, base);
    ParityTouchesFec(s, i);
  }

  lemma StepKeepsMendable(s: Link, e: RtpLink.Event, base: int, z: FrameState, i: nat)
    requires Sound(s, base) && Allowed(s, e, base) && i < |s.sent| && Mendable(s.asm, z, KeyOf(s.sent[i]))
    requires !HandsOn(s, e) && !PushesOut(s, e, KeyOf(s.sent[i]))
    ensures Mendable(RtpLink.Next(s, e).asm, z, KeyOf(s.sent[i]))
  {
    match e {
      case SendFrame(_) => hide Sound, FramePackets, KeyOf;
      case Deliver(_, _, _, _) => hide Sound, KeyOf; DeliverKeepsBound(s, e, base);
      case DeliverParity(j) =>
        hide Sound, RtpLink.Next, KeyOf, PushesOut;
        StoredStays(s, i, j, base);
        ParityTouchesFec(s, j);
      case PopPacket(_) => hide Sound, PopSpec, Took, Step, KeyOf;
      case Rtt(_) => hide Sound, Step, KeyOf;
    }
  }

  lemma PopRepairsParked(s: Link, e: RtpLink.Event, base: int, z: FrameState, i: nat, k: nat, j: nat)
    requires Sound(s, base) && Allowed(s, e, base) && i < |s.sent| && Mendable(s.asm, z, KeyOf(s.sent[i]))
    requires ParkedShort(z, s.sent[i], k, j) && HandsOn(s, e)
    requires ParkedBelow(s.asm.zombies, Bound(s.jitter)) && Alone(s.asm)
    ensures k < j < |s.sent[i].ps| && s.sent[i].q0 + |s.sent[i].ps| <= 0x1_0000
    ensures PutsOut(s.asm.out, Emission(Shown(s.sent[i], Patched(s.sent[i], k, j))), RtpLink.Next(s, e).asm.out)
  {
    hide SenderOk, AsmOk, DueTwice, LastTouched, BufferOk, PopSpec, Bound, ClipsOk, KeyOf, Took, Step, IsPacket, Shown,
         Patched, Emission, ParkedShort, ParkedBelow, Alone, PutsOut;
    SenderMtu(s, base);
    PoppedIsNew(s.jitter, s.sent, e.now);
    var p := PopSpec(s.jitter.st, e.now).out.value.data;
    var x: nat, y: nat :| IsPacket(p, s.sent, x, y);
    TookRepairsParked(s.asm, s.sent, Bound(s.jitter), p, x, y, z, i, k, j, e.now);
  }

  // ---- whole runs ----

  /** Nothing in steps a up to b brings the parity of frame i, and no pop comes more than 250 ms after `first`. */
  ghost predicate StillWithout(es: seq<RtpLink.Event>, a: nat, b: nat, i: nat, first: int)
    requires a <= b <= |es|
  {
    forall x :: a <= x < b ==> es[x] != DeliverParity(i) && (es[x].PopPacket? ==> es[x].now - first <= 250_000)
  }

  /** Nothing in steps a up to b hands a packet on or pushes the parity under `key` out. */
  ghost predicate Quiet(states: seq<Link>, es: seq<RtpLink.Event>, a: nat, b: nat, key: u32)
    requires a <= b <= |es| && |states| == |es| + 1
  {
    forall x :: a <= x < b ==> !HandsOn(states[x], es[x]) && !PushesOut(states[x], es[x], key)
  }

  lemma {:induction false} StaysWaiting(states: seq<Link>, es: seq<RtpLink.Event>, base: int, q: nat, n: nat,
                                        z: FrameState, i: nat)
    requires RtpLink.Run(states, es, base) && q <= n <= |es| && i < |states[q].sent|
    requires Waits(states[q].asm, z, KeyOf(states[q].sent[i])) && StillWithout(es, q, n, i, z.firstSeenUs)
    ensures i < |states[n].sent| && states[n].sent[i] == states[q].sent[i]
    ensures Waits(states[n].asm, z, KeyOf(states[q].sent[i]))
    decreases n
  {
    hide RtpLink.Run, Sound, RtpLink.Next, Allowed, KeyOf, Waits, Bound;
    RunShape(states, es, base);
    BoundRises(states, es, base, q, n);
    if q < n {
      StaysWaiting(states, es, base, q, n - 1, z, i);
      RunIsSound(states, es, base, n - 1);
      RunStep(states, es, base, n - 1);
      StepWaits(states[n - 1], es[n - 1], base, z, i);
    }
  }

  lemma {:induction false} StaysMendable(states: seq<Link>, es: seq<RtpLink.Event>, base: int, n: nat, m: nat,
                                         z: FrameState, i: nat)
    requires RtpLink.Run(states, es, base) && n <= m <= |es| && i < |states[n].sent|
    requires Mendable(states[n].asm, z, KeyOf(states[n].sent[i]))
    requires Quiet(states, es, n, m, KeyOf(states[n].sent[i]))
    ensures i < |states[m].sent| && states[m].sent[i] == states[n].sent[i]
    ensures Mendable(states[m].asm, z, KeyOf(states[n].sent[i]))
    decreases m
  {
    hide RtpLink.Run, Sound, RtpLink.Next, Allowed, KeyOf, Mendable, Bound, HandsOn, PushesOut;
    RunShape(states, es, base);
    BoundRises(states, es, base, n, m);
    if n < m {
      StaysMendable(states, es, base, n, m - 1, z, i);
      RunIsSound(states, es, base, m - 1);
      RunStep(states, es, base, m - 1);
      StepKeepsMendable(states[m - 1], es[m - 1], base, z, i);
    }
  }

  /**
   * A late parity repairs. At step q of any run the last packet of frame i comes through while the assembler holds its
   * packets from k on but for packet j, its parity not being there. If the parity arrives at a later step n, no pop
   * before it comes 250 ms after the frame began, and it is not pushed out, then the next step m that hands a packet
   * on emits the frame with packet j rebuilt.
   */
  lemma LateParityRepairs(states: seq<Link>, es: seq<RtpLink.Event>, base: int, q: nat, n: nat, m: nat, i: nat, k: nat,
                          j: nat)
    requires RtpLink.Run(states, es, base) && q < n < m < |es| && i < |states[q].sent|
    requires Brings(states[q], es[q], states[q].sent[i]) && LacksOne(states[q].asm.cur, states[q].sent[i], k, j)
    requires KeyOf(states[q].sent[i]) !in states[q].asm.fec && es[q].now - states[q].asm.cur.firstSeenUs < 250_000
    requires es[n] == DeliverParity(i) && StillWithout(es, q + 1, n, i, states[q].asm.cur.firstSeenUs)
    requires Quiet(states, es, n, m, KeyOf(states[q].sent[i])) && HandsOn(states[m], es[m])
    ensures var c := states[q].sent[i];
            && k < j < |c.ps| && c.q0 + |c.ps| <= 0x1_0000
            && PutsOut(states[m].asm.out, Emission(Shown(c, Patched(c, k, j))), states[m + 1].asm.out)
  {
    hide RtpLink.Run, Sound, RtpLink.Next, Allowed, KeyOf, Mendable, Waits, Bound, HandsOn, PushesOut, Brings, LacksOne,
         ParkedShort, Shown, Patched, Emission, StillWithout, Quiet, ParkedBelow, Alone, PutsOut;
    RunShape(states, es, base);
    var c := states[q].sent[i];
    RunIsSound(states, es, base, q);
    RunStep(states, es, base, q);
    PopParksFrame(states[q], es[q], base, i, k, j);
    var z :| Waits(states[q + 1].asm, z, KeyOf(c)) && ParkedShort(z, c, k, j)
             && z.firstSeenUs == states[q].asm.cur.firstSeenUs;
    BoundRises(states, es, base, q, q + 1);
    StaysWaiting(states, es, base, q + 1, n, z, i);
    RunIsSound(states, es, base, n);
    RunStep(states, es, base, n);
    QuietFirst(states, es, n, m, KeyOf(c));
    ParityComes(states[n], base, z, i);
    BoundRises(states, es, base, n, n + 1);
    StaysMendable(states, es, base, n + 1, m, z, i);
    RunIsSound(states, es, base, m);
    RunParks(states, es, base, m);
    RunStaysAlone(states, es, base, m);
    RunStep(states, es, base, m);
    PopRepairsParked(states[m], es[m], base, z, i, k, j);
  }

  lemma QuietFirst(states: seq<Link>, es: seq<RtpLink.Event>, n: nat, m: nat, key: u32)
    requires n < m <= |es| && |states| == |es| + 1 && Quiet(states, es, n, m, key)
    ensures !PushesOut(states[n], es[n], key) && Quiet(states, es, n + 1, m, key)
  {
    hide HandsOn, PushesOut;
  }
}
