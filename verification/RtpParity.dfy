/**
 * What a stored parity is good for: it stays until it is used or pushed out, and when its frame's marked packet comes
 * through with one packet missing, the frame is emitted with that packet rebuilt.
 */
module RtpParity {
  import opened Bytes
  import opened Options
  import opened Fec
  import opened MediaTypes
  import opened RtpServers
  import opened RtpReceivers
  import opened RtpRepair
  import opened RtpLoss
  import opened RtpRuns
  import opened RtpLink
  import opened JitterBuffers
  import opened JitterRuns
  import opened JitterOrder

  // ---- what uses a parity up, and what is parked ----

  /** Parked frames have their marked packet, and everything in them came through before `bound`. */
  ghost predicate ParkedBelow(zs: seq<FrameState>, bound: nat) {
    forall z :: z in zs ==> z.markerSeen && forall q :: q in z.raws ==> q < bound
  }

  /** Only the parity of a marked frame is used up by finishing it. */
  lemma FinishKeeps(a: Asm, explicitMarker: bool, now: int, key: u32)
    requires NoWrap(a.cur)
    ensures var b := Finish(a, explicitMarker, now);
            && (key in a.fec && (a.cur.markerSeen ==> a.cur.captureMs % TWO32 != key) ==> key in b.fec)
            && a.out <= b.out
            && (b.zombies == a.zombies || (explicitMarker && b.zombies == a.zombies + [a.cur]))
  {
    hide Emitted, Slots, Span, Missing, Rebuilt, NoWrap;
  }

  lemma VisitedKeeps(a: Asm, z: FrameState, now: int, key: u32)
    requires WellParked(z)
    ensures var b := Visited(a, z, now);
            && (key in a.fec && (z.markerSeen ==> z.captureMs % TWO32 != key) ==> key in b.fec)
            && a.out <= b.out && (b.zombies == a.zombies || b.zombies == a.zombies + [z])
  {
    hide Emitted, Slots, Span, Missing, Rebuilt, WellParked;
  }

  lemma {:induction false} VisitedAllKeeps(a: Asm, zs: seq<FrameState>, now: int, key: u32)
    requires forall i :: 0 <= i < |zs| ==> WellParked(zs[i])
    requires forall z :: z in zs ==> z.markerSeen ==> z.captureMs % TWO32 != key
    ensures key in a.fec ==> key in VisitedAll(a, zs, now).fec
    decreases |zs|
  {
    hide Visited, WellParked;
    if zs != [] {
      VisitedKeeps(a, zs[0], now, key);
      VisitedAllKeeps(Visited(a, zs[0], now), zs[1..], now, key);
    }
  }

  lemma {:induction false} VisitedAllAppends(a: Asm, zs: seq<FrameState>, now: int)
    requires forall i :: 0 <= i < |zs| ==> WellParked(zs[i])
    ensures a.out <= VisitedAll(a, zs, now).out
    ensures forall z :: z in VisitedAll(a, zs, now).zombies ==> z in a.zombies || z in zs
    decreases |zs|
  {
    hide Visited, WellParked;
    if zs != [] {
      VisitedKeeps(a, zs[0], now, 0);
      VisitedAllAppends(Visited(a, zs[0], now), zs[1..], now);
    }
  }

  /** The frame in place once a packet was added. */
  ghost function FrameWith(a: Asm, p: RtpPacket, now: int): FrameState {
    WithPacket(if !a.cur.started || p.ts != a.cur.ts then NewFrame(p, now) else a.cur, p)
  }

  lemma AssembledKeeps(a: Asm, p: RtpPacket, now: int, key: u32)
    requires Follows(a.cur, p)
    ensures var b, used := Assembled(a, p, now), a.cur.markerSeen && a.cur.captureMs % TWO32 == key;
            && (key in a.fec && !used && (p.marker ==> FrameWith(a, p, now).captureMs % TWO32 != key) ==> key in b.fec)
            && a.out <= b.out
            && (b.zombies == a.zombies || (p.marker && b.zombies == a.zombies + [FrameWith(a, p, now)]))
  {
    hide Finish, WithPacket;
    FinishKeeps(a, false, now, key);
    WithFollows(a.cur, p, now);
    var ready := if !a.cur.started || p.ts != a.cur.ts then Finish(a, false, now).(cur := NewFrame(p, now)) else a;
    var added := ready.(cur := WithPacket(ready.cur, p));
    WithPacketKeeps(ready.cur, p);
    if p.marker {
      FinishKeeps(added, true, now, key);
    }
  }

  lemma WithFollows(f: FrameState, p: RtpPacket, now: int)
    requires Follows(f, p)
    ensures NoWrap(f) && NoWrap(WithPacket(if !f.started || p.ts != f.ts then NewFrame(p, now) else f, p))
  {
  }

  lemma WithPacketKeeps(f: FrameState, p: RtpPacket)
    ensures var g := WithPacket(f, p);
            && g.captureMs == f.captureMs && g.started == f.started && g.ts == f.ts && g.firstSeq == f.firstSeq
            && (p.marker ==> g.markerSeen) && g.raws.Keys == f.raws.Keys + {p.seqNo}
  {
  }

  lemma WithBelow(a: Asm, p: RtpPacket, now: int, bound: nat)
    requires bound <= p.seqNo && forall q :: q in a.cur.raws ==> q < bound
    ensures forall q :: q in FrameWith(a, p, now).raws ==> q < p.seqNo + 1
    ensures p.marker ==> FrameWith(a, p, now).markerSeen
  {
  }

  ghost predicate Passable(a: Asm) {
    forall i :: 0 <= i < |a.zombies| ==> WellParked(a.zombies[i])
  }

  /** One packet through the assembler and the pass behind it. */
  lemma TookParks(a: Asm, p: RtpPacket, now: int, bound: nat)
    requires ParkedBelow(a.zombies, bound) && bound <= p.seqNo && forall q :: q in a.cur.raws ==> q < bound
    ensures ParkedBelow(Took(a, p, now).zombies, p.seqNo + 1)
  {
    hide Follows, WellParked, FrameWith, Assembled, VisitedAll;
    if Follows(a.cur, p) && Passable(Assembled(a, p, now)) {
      var b := Assembled(a, p, now);
      AssembledKeeps(a, p, now, 0);
      WithBelow(a, p, now, bound);
      VisitedAllAppends(b.(zombies := []), b.zombies, now);
    }
  }

  /** It does not use up a parity of a frame none of whose marked states is in place or parked. */
  lemma TookKeeps(a: Asm, p: RtpPacket, now: int, key: u32)
    requires key in a.fec
    requires forall z :: z in a.zombies + [a.cur] ==> z.markerSeen ==> z.captureMs % TWO32 != key
    requires p.marker ==> FrameWith(a, p, now).captureMs % TWO32 != key
    ensures key in Took(a, p, now).fec
  {
    hide Follows, WellParked, FrameWith, Assembled, VisitedAll;
    if Follows(a.cur, p) && Passable(Assembled(a, p, now)) {
      var b := Assembled(a, p, now);
      assert a.cur in a.zombies + [a.cur];
      AssembledKeeps(a, p, now, key);
      forall z | z in b.zombies
        ensures z.markerSeen ==> z.captureMs % TWO32 != key
      {
        assert z in a.zombies ==> z in a.zombies + [a.cur];
      }
      VisitedAllKeeps(b.(zombies := []), b.zombies, now, key);
    }
  }

  // ---- on the link ----

  lemma CurBelow(a: Asm, sent: seq<Clip>, bound: nat)
    requires AsmOk(a, sent, bound)
    ensures forall q :: q in a.cur.raws ==> q < bound
    ensures a.cur == NO_FRAME || CollectedFrom(a.cur, sent)
    ensures forall z :: z in a.zombies ==> CollectedFrom(z, sent)
  {
    hide CollectedFrom, ParitiesOk, ShownFrom;
  }

  /** Packets leave the buffer in rising order, so whatever is parked lies below the last of them. */
  lemma NextParks(s: Link, e: RtpLink.Event, base: int)
    requires Sound(s, base) && Allowed(s, e, base) && ParkedBelow(s.asm.zombies, Bound(s.jitter))
    ensures var t := RtpLink.Next(s, e);
            ParkedBelow(t.asm.zombies, Bound(t.jitter)) && Bound(s.jitter) <= Bound(t.jitter)
  {
    match e {
      case SendFrame(_) => hide Sound, FramePackets, ParkedBelow;
      case Deliver(_, _, _, _) => hide Sound, ParkedBelow; DeliverKeepsBound(s, e, base);
      case DeliverParity(_) => hide Sound, ParityPacket, Decode, Announced, WithParity, ParkedBelow;
      case PopPacket(now) => hide ParkedBelow; PopParks(s, now, base);
      case Rtt(ms) =>
        hide SenderOk, AsmOk, DueTwice, LastTouched, BufferOk, Step, Bound, ParkedBelow;
        BufferGoesOn(s.jitter, s.sent, SetRtt(ms));
    }
  }

  lemma DeliverKeepsBound(s: Link, e: RtpLink.Event, base: int)
    requires Sound(s, base) && Allowed(s, e, base) && e.Deliver?
    ensures var t := RtpLink.Next(s, e); t.asm == s.asm && Bound(t.jitter) == Bound(s.jitter)
  {
    DeliveryIs(s, e, base);
    hide Sound, RtpLink.Next, PushSpec, Timestamp, Millis, Allowed;
  }

  lemma PopParks(s: Link, now: int, base: int)
    requires Sound(s, base) && s.mtu > RTP_HEADER + 2 && ParkedBelow(s.asm.zombies, Bound(s.jitter))
    ensures var t := RtpLink.Next(s, PopPacket(now));
            ParkedBelow(t.asm.zombies, Bound(t.jitter)) && Bound(s.jitter) <= Bound(t.jitter)
  {
    hide SenderOk, AsmOk, DueTwice, LastTouched, BufferOk, Step, PopSpec, Took, Bound, ParkedBelow;
    BufferGoesOn(s.jitter, s.sent, Pop(now));
    if PopSpec(s.jitter.st, now).out.Some? {
      PoppedIsNew(s.jitter, s.sent, now);
      CurBelow(s.asm, s.sent, Bound(s.jitter));
      TookParks(s.asm, PopSpec(s.jitter.st, now).out.value.data, now, Bound(s.jitter));
    }
  }

  lemma {:induction false} RunParks(states: seq<Link>, es: seq<RtpLink.Event>, base: int, n: nat)
    requires RtpLink.Run(states, es, base) && n <= |es|
    ensures ParkedBelow(states[n].asm.zombies, Bound(states[n].jitter))
  {
    hide RtpLink.Run, Sound, RtpLink.Next, Allowed, Bound;
    RunShape(states, es, base);
    if n > 0 {
      RunParks(states, es, base, n - 1);
      RunIsSound(states, es, base, n - 1);
      RunStep(states, es, base, n - 1);
      NextParks(states[n - 1], es[n - 1], base);
    }
  }

  lemma {:induction false} BoundRises(states: seq<Link>, es: seq<RtpLink.Event>, base: int, n: nat, m: nat)
    requires RtpLink.Run(states, es, base) && n <= m <= |es|
    ensures Bound(states[n].jitter) <= Bound(states[m].jitter)
    ensures states[n].sent <= states[m].sent
    decreases m
  {
    hide RtpLink.Run, Sound, RtpLink.Next, Allowed, Bound, ParkedBelow;
    RunShape(states, es, base);
    if n < m {
      BoundRises(states, es, base, n, m - 1);
      RunIsSound(states, es, base, m - 1);
      RunParks(states, es, base, m - 1);
      RunStep(states, es, base, m - 1);
      NextParks(states[m - 1], es[m - 1], base);
      SentGrows(states[m - 1], es[m - 1], base);
    }
  }

  lemma SentGrows(s: Link, e: RtpLink.Event, base: int)
    requires Allowed(s, e, base)
    ensures s.sent <= RtpLink.Next(s, e).sent
  {
    hide FramePackets, Step, PopSpec, Took, WithParity, ParityPacket, Timestamp, Received;
    if e.Deliver? {
      ReceivedKeepsSent(s, s.sent[e.i].ps[e.j], e.nowTicks, e.now);
    }
  }

  lemma ReceivedKeepsSent(s: Link, d: bytes, nowTicks: int, now: int)
    ensures Received(s, d, nowTicks, now).sent == s.sent
  {
    hide Step;
  }

  /** This parity datagram pushes the parity under `key` out: more than 64, and it has the smallest key. */
  ghost predicate PushesOut(s: Link, e: RtpLink.Event, key: u32) {
    && e.DeliverParity? && e.i < |s.sent|
    && var keys := s.asm.fec.Keys + {KeyOf(s.sent[e.i])};
       |keys| > 64 && forall k :: k in keys ==> key <= k
  }

  /** A marked state of a frame means that the frame's last packet came through; before that, there is none. */
  lemma NotMarkedYet(z: FrameState, sent: seq<Clip>, bound: nat, i: nat)
    requires ClipsOk(sent) && CollectedFrom(z, sent) && i < |sent| && bound < sent[i].q0 + |sent[i].ps|
    requires z.markerSeen && forall q :: q in z.raws ==> q < bound
    ensures z.captureMs % TWO32 != KeyOf(sent[i])
  {
    hide ClipOk, Timestamp, Millis;
    var k :| 0 <= k < |sent| && Collecting(z, sent[k]);
    SameMillis(z, sent[k]);
    MarkedHoldsLast(z, sent[k]);
    if k == i {
      assert false;
    }
  }

  lemma MarkedHoldsLast(z: FrameState, c: Clip)
    requires Collecting(z, c) && z.markerSeen
    ensures c.q0 + |c.ps| >= 1 && exists q :: q in z.raws && q == c.q0 + |c.ps| - 1
  {
  }

  // ---- a parity stays ----

  /** The last packet of frame i did not come through yet. */
  ghost predicate Ahead(s: Link, i: nat) {
    i < |s.sent| && Bound(s.jitter) < s.sent[i].q0 + |s.sent[i].ps|
  }

  lemma StoredStays(s: Link, i: nat, j: nat, base: int)
    requires Sound(s, base) && i < |s.sent| && j < |s.sent| && !PushesOut(s, DeliverParity(j), KeyOf(s.sent[i]))
    ensures s.mtu > RTP_HEADER + 2
    ensures var t, key := RtpLink.Next(s, DeliverParity(j)), KeyOf(s.sent[i]);
            key in s.asm.fec || i == j ==> key in t.asm.fec
  {
    hide Sound, RtpLink.Next, Parity, ParityPacket, WithParity, KeyOf, Stored, FramePackets, ClipOk, Millis;
    SenderFacts(s, j, base);
    ParityArrives(s.sent[j], s.mtu, s.ssrc);
    NextStores(s, j);
    WithParityStores(s.asm.fec, KeyOf(s.sent[j]), Parity(s.sent[j].ps));
    if KeyOf(s.sent[i]) in s.asm.fec || i == j {
      StoredKeeps(s.asm.fec, WithParity(s.asm.fec, KeyOf(s.sent[j]), Parity(s.sent[j].ps)), KeyOf(s.sent[j]),
                  Parity(s.sent[j].ps), KeyOf(s.sent[i]));
    }
  }

  lemma NextStores(s: Link, j: nat)
    requires s.mtu > RTP_HEADER + 2 && j < |s.sent|
    requires |ParityPacket(s.sent[j].f, s.sent[j].ps)| >= HEADER_SIZE
    ensures var d := ParityPacket(s.sent[j].f, s.sent[j].ps);
            RtpLink.Next(s, DeliverParity(j)).asm.fec == WithParity(s.asm.fec, Decode(d).captureLo, Announced(d))
  {
    hide ParityPacket, WithParity, Decode, Announced;
  }

  lemma StoredKeeps(fec: map<u32, bytes>, after: map<u32, bytes>, more: u32, parity: bytes, key: u32)
    requires Stored(fec, after, more, parity) && (key in fec || key == more)
    requires var keys := fec.Keys + {more}; !(|keys| > 64 && forall k :: k in keys ==> key <= k)
    ensures key in after
  {
  }

  /** The frame in place after a packet: that packet's frame. */
  lemma FrameWithIs(a: Asm, sent: seq<Clip>, bound: nat, p: RtpPacket, i: nat, j: nat, now: int)
    requires ClipsOk(sent) && AsmOk(a, sent, bound) && IsPacket(p, sent, i, j) && bound <= p.seqNo
    ensures i < |sent| && Collecting(FrameWith(a, p, now), sent[i])
  {
    CurBelow(a, sent, bound);
    hide ClipsOk, Collecting, IsPacket, WithPacket, NewFrame, AsmOk;
    if !a.cur.started || p.ts != a.cur.ts {
      BeginsCollecting(p, sent, i, j, now);
    } else {
      StartedIsCollected(a.cur, sent);
      GoesOnCollecting(a.cur, p, sent, i, j);
    }
  }

  lemma PopKeepsParity(s: Link, now: int, base: int, i: nat)
    requires Sound(s, base) && s.mtu > RTP_HEADER + 2 && ParkedBelow(s.asm.zombies, Bound(s.jitter))
    requires i < |s.sent| && KeyOf(s.sent[i]) in s.asm.fec && Ahead(RtpLink.Next(s, PopPacket(now)), i)
    ensures KeyOf(s.sent[i]) in RtpLink.Next(s, PopPacket(now)).asm.fec
  {
    hide SenderOk, AsmOk, DueTwice, LastTouched, BufferOk, Step, PopSpec, Took, Bound, ParkedBelow, ClipsOk, KeyOf,
         IsPacket;
    SenderMtu(s, base);
    BufferGoesOn(s.jitter, s.sent, Pop(now));
    if PopSpec(s.jitter.st, now).out.Some? {
      PoppedIsNew(s.jitter, s.sent, now);
      var p := PopSpec(s.jitter.st, now).out.value.data;
      var e: nat, j: nat :| IsPacket(p, s.sent, e, j);
      TookKeepsParity(s.asm, s.sent, Bound(s.jitter), p, e, j, now, i);
    }
  }

  lemma TookKeepsParity(a: Asm, sent: seq<Clip>, bound: nat, p: RtpPacket, e: nat, j: nat, now: int, i: nat)
    requires ClipsOk(sent) && AsmOk(a, sent, bound) && IsPacket(p, sent, e, j) && bound <= p.seqNo
    requires ParkedBelow(a.zombies, bound) && i < |sent| && KeyOf(sent[i]) in a.fec
    requires p.seqNo + 1 < sent[i].q0 + |sent[i].ps|
    ensures KeyOf(sent[i]) in Took(a, p, now).fec
  {
    hide ClipsOk, Collecting, IsPacket, AsmOk, Took, KeyOf, FrameWith;
    CurBelow(a, sent, bound);
    FrameWithIs(a, sent, bound, p, e, j, now);
    WithBelow(a, p, now, bound);
    forall z | z in a.zombies + [a.cur]
      ensures z.markerSeen ==> z.captureMs % TWO32 != KeyOf(sent[i])
    {
      if z.markerSeen {
        assert z in a.zombies || z == a.cur;
        NotMarkedYet(z, sent, p.seqNo + 1, i);
      }
    }
    if p.marker {
      assert CollectedFrom(FrameWith(a, p, now), sent);
      NotMarkedYet(FrameWith(a, p, now), sent, p.seqNo + 1, i);
    }
    TookKeeps(a, p, now, KeyOf(sent[i]));
  }

  /** A step keeps a stored parity unless it pushes it out or brings its frame's last packet through. */
  lemma StepKeepsParity(s: Link, e: RtpLink.Event, base: int, i: nat)
    requires Sound(s, base) && Allowed(s, e, base) && ParkedBelow(s.asm.zombies, Bound(s.jitter))
    requires i < |s.sent| && KeyOf(s.sent[i]) in s.asm.fec && !PushesOut(s, e, KeyOf(s.sent[i]))
    requires Ahead(RtpLink.Next(s, e), i)
    ensures KeyOf(s.sent[i]) in RtpLink.Next(s, e).asm.fec
  {
    match e {
      case SendFrame(_) => hide Sound, FramePackets, ParkedBelow, Ahead, KeyOf;
      case Deliver(_, _, _, _) => hide Sound, ParkedBelow, Ahead, KeyOf; DeliverKeepsBound(s, e, base);
      case DeliverParity(j) =>
        hide Sound, RtpLink.Next, ParkedBelow, Ahead, KeyOf, PushesOut;
        StoredStays(s, i, j, base);
      case PopPacket(now) => hide Sound, RtpLink.Next, ParkedBelow, Ahead, KeyOf; PopKeepsParity(s, now, base, i);
      case Rtt(_) => hide Sound, Step, ParkedBelow, Ahead, KeyOf;
    }
  }

  /** From its delivery on, a parity is there until its frame's last packet comes through, unless it is pushed out. */
  lemma {:induction false} ParityStays(states: seq<Link>, es: seq<RtpLink.Event>, base: int, n: nat, m: nat, i: nat)
    requires RtpLink.Run(states, es, base) && n < m <= |es| && es[n] == DeliverParity(i) && i < |states[n].sent|
    requires forall k :: n <= k < m ==> !PushesOut(states[k], es[k], KeyOf(states[n].sent[i]))
    requires Ahead(states[m], i)
    ensures KeyOf(states[n].sent[i]) in states[m].asm.fec
    decreases m
  {
    hide RtpLink.Run, Sound, RtpLink.Next, Allowed, Bound, ParkedBelow, KeyOf, PushesOut;
    RunShape(states, es, base);
    RunIsSound(states, es, base, m - 1);
    RunStep(states, es, base, m - 1);
    BoundRises(states, es, base, n, m - 1);
    BoundRises(states, es, base, m - 1, m);
    if m == n + 1 {
      StoredStays(states[n], i, i, base);
    } else {
      ParityStays(states, es, base, n, m - 1, i);
      RunParks(states, es, base, m - 1);
      StepKeepsParity(states[m - 1], es[m - 1], base, i);
    }
  }

  // ---- and repairs ----

  /** The frame in place holds its packets from k on up to the last but one, all but packet j. */
  ghost predicate LacksOne(f: FrameState, c: Clip, k: nat, j: nat) {
    && k < j < |c.ps| - 1 && f.started && f.ts == Timestamp(c.f)
    && forall q: u16 :: q in f.raws <==> c.q0 + k <= q < c.q0 + |c.ps| - 1 && q != c.q0 + j
  }

  /** With the last packet it is one packet short. */
  lemma OneShortWithLast(f: FrameState, c: Clip, k: nat, j: nat)
    requires Collecting(f, c) && k < j < |c.ps| - 1
    requires forall q: u16 :: q in f.raws <==> c.q0 + k <= q < c.q0 + |c.ps| && q != c.q0 + j
    ensures f.markerSeen && f.firstSeq == c.q0 + k && NoWrap(f) && |f.raws| == Span(f) - 1
  {
    var last: u16 := c.q0 + (|c.ps| - 1);
    var first, gone: u16 := c.q0 + k, c.q0 + j;
    assert last in f.raws && first in f.raws;
    CollectingShape(f, c);
    hide Span, NoWrap;
    assert f.raws.Keys == Interval(c.q0 + k, |c.ps| - k) - {gone};
  }

  lemma ParityIsThere(a: Asm, sent: seq<Clip>, bound: nat, i: nat)
    requires AsmOk(a, sent, bound) && ClipsOk(sent) && i < |sent| && KeyOf(sent[i]) in a.fec
    ensures ParityFor(a.fec, Millis(sent[i])) == Some(Parity(sent[i].ps))
  {
    hide CollectedFrom, ShownFrom, ClipOk, Parity, Timestamp, Millis;
    assert ParityOf(KeyOf(sent[i]), a.fec[KeyOf(sent[i])], sent);
  }

  lemma TookRepairs(a: Asm, sent: seq<Clip>, bound: nat, p: RtpPacket, i: nat, k: nat, j: nat, now: int)
    requires ClipsOk(sent) && AsmOk(a, sent, bound) && DueTwice(a, sent, bound) && LastTouched(a, sent, bound)
    requires i < |sent| && IsPacket(p, sent, i, |sent[i].ps| - 1) && bound <= p.seqNo
    requires LacksOne(a.cur, sent[i], k, j) && KeyOf(sent[i]) in a.fec
    ensures sent[i].q0 + |sent[i].ps| <= 0x1_0000
    ensures a.out + Emission(Shown(sent[i], Patched(sent[i], k, j))) <= Took(a, p, now).out
  {
    hide Collecting, AsmOk, DueTwice, LastTouched, ClipsOk, IsPacket, Took, WithPacket, Shown, Patched, Finalized,
         Parity, WellParked, Follows, Span, NoWrap, KeyOf, Timestamp, Millis, FrameWith, Assembled, Passed, LacksOne,
         ParityFor,
         Finish, Emission;
    var c := sent[i];
    var f := FrameWith(a, p, now);
    ClipHasPackets(sent, i);
    PacketPlace(p, sent, i, |c.ps| - 1);
    FrameWithIs(a, sent, bound, p, i, |c.ps| - 1, now);
    ParityIsThere(a, sent, bound, i);
    TookSound(a, sent, bound, p, i, |c.ps| - 1, now);
    SameMillis(f, c);
    LackingFrame(a, p, now, c, k, j);
    OneShortWithLast(f, c, k, j);
    var m := RepairedFrom(f, c, true, now);
    OnlyGap(f, c, k, j, m);
    FrameIsFinished(a, p, now);
    RepairEmits(a.(cur := f), Shown(c, Patched(c, k, j)), Parity(c.ps), now);
    PassAppends(Assembled(a, p, now), now);
  }

  lemma ClipHasPackets(sent: seq<Clip>, i: nat)
    requires ClipsOk(sent) && i < |sent|
    ensures sent[i].ps != []
  {
    hide Timestamp;
  }

  lemma LackingFrame(a: Asm, p: RtpPacket, now: int, c: Clip, k: nat, j: nat)
    requires LacksOne(a.cur, c, k, j) && p.ts == Timestamp(c.f) && p.seqNo == c.q0 + |c.ps| - 1
    ensures k < j < |c.ps| - 1 && a.cur.started && p.ts == a.cur.ts
    ensures forall q: u16 :: q in FrameWith(a, p, now).raws <==> c.q0 + k <= q < c.q0 + |c.ps| && q != c.q0 + j
  {
    hide Timestamp;
  }

  lemma RepairEmits(a: Asm, o: Option<OutFrame>, parity: bytes, now: int)
    requires NoWrap(a.cur) && ParityFor(a.fec, a.cur.captureMs) == Some(parity)
    requires Finalized(a.cur, Some(parity), true, now) == Repairs(o)
    ensures Finish(a, true, now).out == a.out + Emission(o)
  {
    hide Finalized, NoWrap;
  }

  lemma PassAppends(a: Asm, now: int)
    requires Passable(a)
    ensures a.out <= Passed(a, now).out
  {
    VisitedAllAppends(a.(zombies := []), a.zombies, now);
  }

  lemma PacketPlace(p: RtpPacket, sent: seq<Clip>, i: nat, j: nat)
    requires IsPacket(p, sent, i, j)
    ensures i < |sent| && j < |sent[i].ps| && p.seqNo == sent[i].q0 + j && p.ts == Timestamp(sent[i].f)
    ensures p.marker <==> j == |sent[i].ps| - 1
    ensures sent[i].q0 + |sent[i].ps| <= 0x1_0000
  {
    hide Timestamp, Millis;
  }

  lemma OnlyGap(f: FrameState, c: Clip, k: nat, j: nat, m: nat)
    requires forall q: u16 :: q in f.raws <==> c.q0 + k <= q < c.q0 + |c.ps| && q != c.q0 + j
    requires k < m < |c.ps| - 1 && c.q0 + |c.ps| <= 0x1_0000 && forall q: u16 :: q in f.raws ==> q != c.q0 + m
    ensures m == j
  {
    var q: u16 := c.q0 + m;
    assert q !in f.raws;
  }

  /** A marked packet of the frame in place is added, and the frame finished. */
  lemma FrameIsFinished(a: Asm, p: RtpPacket, now: int)
    requires Follows(a.cur, p) && a.cur.started && p.ts == a.cur.ts && p.marker
    ensures var added := a.(cur := FrameWith(a, p, now));
            NoWrap(added.cur) && Assembled(a, p, now) == Finish(added, true, now)
  {
    WithFollows(a.cur, p, now);
    hide Finish, WithPacket, NoWrap;
  }

  /**
   * A stored parity repairs. Let the parity of frame i arrive at step n of any run, and let no later parity push it
   * out. If a later step m hands on the frame's last packet while the assembler holds its packets from k on but for
   * packet j, then that step emits the frame with packet j rebuilt; with nothing missing in front (k == 0) that is
   * the sent frame with zeros behind packet j.
   */
  lemma StoredParityRepairs(states: seq<Link>, es: seq<RtpLink.Event>, base: int, n: nat, m: nat, i: nat, k: nat,
                            j: nat)
    requires RtpLink.Run(states, es, base) && n < m < |es| && es[n] == DeliverParity(i) && i < |states[n].sent|
    requires forall x :: n <= x < m ==> !PushesOut(states[x], es[x], KeyOf(states[n].sent[i]))
    requires Brings(states[m], es[m], states[n].sent[i]) && LacksOne(states[m].asm.cur, states[n].sent[i], k, j)
    ensures var c := states[n].sent[i];
            && c.q0 + |c.ps| <= 0x1_0000
            && states[m].asm.out + Emission(Shown(c, Patched(c, k, j))) <= states[m + 1].asm.out
            && (k == 0 ==> Shown(c, Patched(c, k, j)) == Shown(c, c.ps[j := PadTo(c.ps[j], MaxLen(c.ps))]))
  {
    hide RtpLink.Run, Sound, RtpLink.Next, Allowed, Bound, ParkedBelow, KeyOf, PushesOut, Shown, Patched, Brings,
         LacksOne, Ahead, Emission, PadTo, MaxLen;
    RunShape(states, es, base);
    var c := states[n].sent[i];
    RunIsSound(states, es, base, m);
    RunStep(states, es, base, m);
    BoundRises(states, es, base, n, m);
    BroughtIsAhead(states[m], es[m], base, i);
    ParityStays(states, es, base, n, m, i);
    PopRepairs(states[m], es[m], base, i, k, j);
    if k == 0 {
      LackingPlace(states[m].asm.cur, c, k, j);
      HeadAtHand(states[m], base, i, j);
    }
  }

  /** This pop hands on the last packet of the frame. */
  ghost predicate Brings(s: Link, e: RtpLink.Event, c: Clip) {
    && e.PopPacket? && PopSpec(s.jitter.st, e.now).out.Some?
    && PopSpec(s.jitter.st, e.now).out.value.seqNo == c.q0 + |c.ps| - 1
  }

  lemma LackingPlace(f: FrameState, c: Clip, k: nat, j: nat)
    requires LacksOne(f, c, k, j)
    ensures k < j < |c.ps| - 1
  {
  }

  lemma BroughtIsAhead(s: Link, e: RtpLink.Event, base: int, i: nat)
    requires Sound(s, base) && i < |s.sent| && Brings(s, e, s.sent[i])
    ensures Ahead(s, i)
  {
    hide SenderOk, AsmOk, DueTwice, LastTouched, BufferOk, PopSpec, Bound;
    PoppedIsNew(s.jitter, s.sent, e.now);
  }

  lemma PopRepairs(s: Link, e: RtpLink.Event, base: int, i: nat, k: nat, j: nat)
    requires Sound(s, base) && Allowed(s, e, base) && i < |s.sent| && Brings(s, e, s.sent[i])
    requires LacksOne(s.asm.cur, s.sent[i], k, j) && KeyOf(s.sent[i]) in s.asm.fec
    ensures k < j < |s.sent[i].ps| && s.sent[i].q0 + |s.sent[i].ps| <= 0x1_0000
    ensures s.asm.out + Emission(Shown(s.sent[i], Patched(s.sent[i], k, j))) <= RtpLink.Next(s, e).asm.out
  {
    hide SenderOk, AsmOk, DueTwice, LastTouched, BufferOk, PopSpec, Bound, ClipsOk, KeyOf, Took, Step, LacksOne,
         IsPacket, Shown, Patched, Emission;
    SenderMtu(s, base);
    LackingPlace(s.asm.cur, s.sent[i], k, j);
    PoppedIsNew(s.jitter, s.sent, e.now);
    var p := PopSpec(s.jitter.st, e.now).out.value.data;
    var x: nat, y: nat :| IsPacket(p, s.sent, x, y);
    OwnerOfLast(s.sent, p, x, y, i);
    TookRepairs(s.asm, s.sent, Bound(s.jitter), p, i, k, j, e.now);
  }

  /** A packet number belongs to one frame. */
  lemma OwnerOfLast(sent: seq<Clip>, p: RtpPacket, x: nat, y: nat, i: nat)
    requires ClipsOk(sent) && IsPacket(p, sent, x, y) && i < |sent| && p.seqNo == sent[i].q0 + |sent[i].ps| - 1
    ensures x == i && y == |sent[i].ps| - 1
  {
    hide Timestamp, Millis, KeyOf;
    assert ClipOk(sent[i]) && ClipOk(sent[x]);
  }

  /** With the head at hand, what is rebuilt is the lost packet, padded. */
  lemma HeadAtHand(s: Link, base: int, i: nat, j: nat)
    requires Sound(s, base) && i < |s.sent| && 0 < j < |s.sent[i].ps| - 1
    ensures var c := s.sent[i];
            c.q0 + |c.ps| <= 0x1_0000
            && Shown(c, Patched(c, 0, j)) == Shown(c, c.ps[j := PadTo(c.ps[j], MaxLen(c.ps))])
  {
    hide Sound, Shown, Patched, FramePackets, PacketSeq, PadTo, MaxLen, Millis, InRange, ClipOk;
    var c := s.sent[i];
    SenderFacts(s, i, base);
    ClipFits(c);
    PacketsWellFormed(c.f, s.mtu, c.q0, s.ssrc, j);
    MendedWithHead(Shown(c, Patched(c, 0, j)), c, j);
  }

  // ---- parked frames ----

  /** The pass over parked frames repairs what finishing would repair. */
  lemma FateFollows(z: FrameState, parity: bytes, o: Option<OutFrame>, now: int)
    requires WellParked(z) && Finalized(z, Some(parity), true, now) == Repairs(o)
    ensures FateOf(z, Some(parity), now) == Recovered(o)
  {
    hide Emitted, Slots, Span, Missing, Rebuilt, NoWrap;
  }

  /** A parked frame that holds its packets from k on but for packet j. */
  ghost predicate ParkedShort(z: FrameState, c: Clip, k: nat, j: nat) {
    && Collecting(z, c) && k < j < |c.ps| - 1
    && forall q: u16 :: q in z.raws <==> c.q0 + k <= q < c.q0 + |c.ps| && q != c.q0 + j
  }

  lemma ParkedIsRepaired(a: Asm, sent: seq<Clip>, bound: nat, z: FrameState, i: nat, k: nat, j: nat, now: int)
    requires ClipsOk(sent) && AsmOk(a, sent, bound) && i < |sent| && KeyOf(sent[i]) in a.fec
    requires ParkedShort(z, sent[i], k, j)
    ensures WellParked(z) && k < j < |sent[i].ps| && sent[i].q0 + |sent[i].ps| <= 0x1_0000
    ensures Visited(a, z, now).out == a.out + Emission(Shown(sent[i], Patched(sent[i], k, j)))
  {
    hide AsmOk, ClipsOk, KeyOf, Finalized, FateOf, Shown, Patched, Parity, Span, NoWrap, Collecting, Millis, Emission;
    var c := sent[i];
    OneShortWithLast(z, c, k, j);
    CollectingShape(z, c);
    ParityIsThere(a, sent, bound, i);
    SameMillis(z, c);
    var m := RepairedFrom(z, c, true, now);
    OnlyGap(z, c, k, j, m);
    FateFollows(z, Parity(c.ps), Shown(c, Patched(c, k, j)), now);
  }

  /**
   * A parity repairs a parked frame too: the next pass over the parked frames emits the x-th of them with its missing
   * packet rebuilt, if its parity is stored and no frame parked before it has the same capture time.
   */
  lemma {:induction false} ParkedFrameRepaired(a: Asm, sent: seq<Clip>, bound: nat, zs: seq<FrameState>, x: nat, i: nat,
                                               k: nat, j: nat, now: int)
    requires ClipsOk(sent) && AsmOk(a, sent, bound) && forall z :: z in zs ==> CollectedFrom(z, sent)
    requires i < |sent| && KeyOf(sent[i]) in a.fec && x < |zs| && ParkedShort(zs[x], sent[i], k, j)
    requires forall y :: 0 <= y < x ==> zs[y].captureMs % TWO32 != KeyOf(sent[i])
    ensures k < j < |sent[i].ps| && sent[i].q0 + |sent[i].ps| <= 0x1_0000
    ensures forall y :: 0 <= y < |zs| ==> WellParked(zs[y])
    ensures PutsOut(a.out, Emission(Shown(sent[i], Patched(sent[i], k, j))), VisitedAll(a, zs, now).out)
    decreases |zs|
  {
    hide ClipsOk, AsmOk, KeyOf, CollectedFrom, ParkedShort, Visited, WellParked, Shown, Patched, Emission;
    VisitedAllOk(a, sent, bound, zs, now);
    var b := Visited(a, zs[0], now);
    if x == 0 {
      ParkedIsRepaired(a, sent, bound, zs[0], i, k, j, now);
      VisitedAllAppends(b, zs[1..], now);
      PutsOutFirst(a.out, Emission(Shown(sent[i], Patched(sent[i], k, j))), VisitedAll(a, zs, now).out);
    } else {
      VisitedKeeps(a, zs[0], now, KeyOf(sent[i]));
      VisitedOk(a, sent, bound, zs[0], now);
      ParkedFrameRepaired(b, sent, bound, zs[1..], x - 1, i, k, j, now);
      PutsOutSince(a.out, b.out, Emission(Shown(sent[i], Patched(sent[i], k, j))), VisitedAll(a, zs, now).out);
    }
  }

  /** The output goes on from `before`, and `more` is among what is new. */
  ghost predicate PutsOut(before: seq<OutFrame>, more: seq<OutFrame>, out: seq<OutFrame>) {
    before <= out && exists n :: |before| <= n <= |out| && more <= out[n..]
  }

  lemma PutsOutFirst(before: seq<OutFrame>, more: seq<OutFrame>, out: seq<OutFrame>)
    requires before + more <= out
    ensures PutsOut(before, more, out)
  {
    assert more <= out[|before|..];
  }

  lemma PutsOutSince(older: seq<OutFrame>, before: seq<OutFrame>, more: seq<OutFrame>, out: seq<OutFrame>)
    requires older <= before && PutsOut(before, more, out)
    ensures PutsOut(older, more, out)
  {
  }

  // ---- how long a frame is waited for ----

  /** A frame that is incomplete and has no parity is parked at its marked packet when it began less than 250 ms ago. */
  lemma FinishWithoutParity(f: FrameState, explicitMarker: bool, now: int)
    requires NoWrap(f) && f.started && f.raws != map[] && !(f.markerSeen && |f.raws| == Span(f))
    ensures |f.raws| <= Span(f)
    ensures Finalized(f, None, explicitMarker, now) ==
            if explicitMarker && now - f.firstSeenUs < 250_000 then Parks else Drops(Span(f) - |f.raws|)
  {
    hide Span, NoWrap;
    SpanHoldsAll(f);
  }

  /** A parked frame without its parity is given up when it began more than 250 ms ago, and counted packet by packet. */
  lemma FateWithoutParity(z: FrameState, now: int)
    requires WellParked(z)
    ensures |z.raws| <= Span(z)
    ensures FateOf(z, None, now) == if now - z.firstSeenUs > 250_000 then Expired(Span(z) - |z.raws|) else Kept
  {
    hide Span, NoWrap;
    SpanHoldsAll(z);
  }

  lemma VisitedAge(a: Asm, z: FrameState, now: int)
    requires WellParked(z)
    ensures Visited(a, z, now).zombies != a.zombies ==> now - z.firstSeenUs <= 250_000
    ensures Visited(a, z, now).zombies == a.zombies || Visited(a, z, now).zombies == a.zombies + [z]
  {
    hide Emitted, Slots, Span, Missing, Rebuilt, NoWrap;
  }

  lemma {:induction false} VisitedAllAge(a: Asm, zs: seq<FrameState>, now: int)
    requires forall i :: 0 <= i < |zs| ==> WellParked(zs[i])
    requires forall z :: z in a.zombies ==> now - z.firstSeenUs <= 250_000
    ensures forall z :: z in VisitedAll(a, zs, now).zombies ==> now - z.firstSeenUs <= 250_000
    decreases |zs|
  {
    hide Visited, WellParked;
    if zs != [] {
      VisitedAge(a, zs[0], now);
      VisitedAllAge(Visited(a, zs[0], now), zs[1..], now);
    }
  }

  /** No frame stays parked: over any run, whenever a packet comes through, none that began 250 ms earlier is left. */
  lemma ParkedBriefly(states: seq<Link>, es: seq<RtpLink.Event>, base: int, n: nat)
    requires RtpLink.Run(states, es, base) && n < |es| && es[n].PopPacket?
    requires PopSpec(states[n].jitter.st, es[n].now).out.Some?
    ensures forall z :: z in states[n + 1].asm.zombies ==> es[n].now - z.firstSeenUs <= 250_000
  {
    hide RtpLink.Run, PopSpec, Assembled, WellParked, Follows;
    RunShape(states, es, base);
    PacketsFollow(states, es, base, n);
    var p := PopSpec(states[n].jitter.st, es[n].now).out.value.data;
    var b := Assembled(states[n].asm, p, es[n].now);
    VisitedAllAge(b.(zombies := []), b.zombies, es[n].now);
  }
}
