/**
 * Requests on the RTP link: every number the packet buffer asks for belongs to a packet that was sent, the server's
 * cache answers with that very packet, and in time it fills the gap.
 */
module RtpResend {
  import opened Bytes
  import opened Options
  import opened MediaTypes
  import opened NackManagers
  import opened RtpServers
  import opened RtpReceivers
  import opened RtpLoss
  import opened RtpRuns
  import opened RtpLink
  import opened JitterBuffers
  import opened JitterRuns
  import opened JitterDrain
  import opened JitterOrder
  import opened UdpReceivers
  import UdpThreshold

  // ---- the sender's cache ----

  /** The frames sent carry all the numbers below nextSeq, without a gap. */
  ghost predicate Contiguous(sent: seq<Clip>, nextSeq: nat) {
    if sent == [] then nextSeq == 0
    else
      var c := sent[|sent| - 1];
      c.q0 + |c.ps| == nextSeq && Contiguous(sent[..|sent| - 1], c.q0)
  }

  lemma {:induction false} RunIsContiguous(states: seq<Link>, es: seq<RtpLink.Event>, base: int, n: nat)
    requires RtpLink.Run(states, es, base) && n <= |es|
    ensures Contiguous(states[n].sent, states[n].nextSeq)
  {
    hide RtpLink.Run, RtpLink.Next, Allowed;
    RunShape(states, es, base);
    if n > 0 {
      RunIsContiguous(states, es, base, n - 1);
      RunStep(states, es, base, n - 1);
      NextIsContiguous(states[n - 1], es[n - 1], base);
    }
  }

  lemma NextIsContiguous(s: Link, e: RtpLink.Event, base: int)
    requires Contiguous(s.sent, s.nextSeq) && Allowed(s, e, base)
    ensures Contiguous(RtpLink.Next(s, e).sent, RtpLink.Next(s, e).nextSeq)
  {
    hide FramePackets, Step, PopSpec, Took, WithParity, ParityPacket, Timestamp;
    match e {
      case SendFrame(f) =>
        var t := RtpLink.Next(s, e);
        assert t.sent != s.sent ==> t.sent[..|t.sent| - 1] == s.sent;
      case _ =>
    }
  }

  /** Everything the server was told to remember: RtpServer.SendFrame appends the packets of each frame. */
  ghost function History(sent: seq<Clip>): seq<Sent>
    requires forall i :: 0 <= i < |sent| ==> ClipOk(sent[i])
  {
    if sent == [] then []
    else
      assert ClipOk(sent[|sent| - 1]);
      History(sent[..|sent| - 1]) + RtpRemembered(sent[|sent| - 1].ps)
  }

  lemma {:induction false} HistoryAt(sent: seq<Clip>, nextSeq: nat, i: nat, j: nat)
    requires forall k :: 0 <= k < |sent| ==> ClipOk(sent[k])
    requires Contiguous(sent, nextSeq)
    ensures |History(sent)| == nextSeq
    ensures i < |sent| && j < |sent[i].ps| ==>
            sent[i].q0 + j < nextSeq && History(sent)[sent[i].q0 + j].raw == sent[i].ps[j]
    decreases |sent|
  {
    hide ClipOk, RtpRemembered;
    if sent != [] {
      var n := |sent| - 1;
      HistoryAt(sent[..n], sent[n].q0, i, j);
      if i == n && j < |sent[n].ps| {
        RememberedRaw(sent[n], j);
      }
    }
  }

  lemma RememberedRaw(c: Clip, j: nat)
    requires ClipOk(c) && j < |c.ps|
    ensures RtpRemembered(c.ps)[j].raw == c.ps[j]
  {
    hide PacketSeq;
    RememberedAs(c.ps, j);
  }

  lemma {:induction false} HistoryNumbered(sent: seq<Clip>, mtu: nat, ssrc: u32, nextSeq: nat)
    requires mtu > RTP_HEADER + 2 && Contiguous(sent, nextSeq)
    requires forall k :: 0 <= k < |sent| ==>
               ClipOk(sent[k]) && sent[k].ps == FramePackets(sent[k].f, mtu, sent[k].q0, ssrc)
    ensures Numbered(History(sent))
    decreases |sent|
  {
    hide PacketSeq, FramePackets, Numbered, RtpRemembered;
    if sent == [] {
      NothingNumbered();
    } else {
      var c := sent[|sent| - 1];
      HistoryNumbered(sent[..|sent| - 1], mtu, ssrc, c.q0);
      HistoryAt(sent[..|sent| - 1], c.q0, 0, 0);
      forall i | 0 <= i < |c.ps|
        ensures Has(RtpRemembered(c.ps)[i], 0, (c.q0 + i) % 0x1_0000)
      {
        PacketsWellFormed(c.f, mtu, c.q0, ssrc, i);
        RememberedAs(c.ps, i);
      }
      NumberedFurther(History(sent[..|sent| - 1]), RtpRemembered(c.ps));
    }
  }

  lemma NothingNumbered()
    ensures Numbered([])
  {
  }

  /** Fewer than 65536 consecutive numbers do not wrap. */
  lemma NumberAt(history: seq<Sent>, x: nat, q: u16)
    requires Numbered(history) && x < |history| <= 0x1_0000
    ensures Has(history[x], 0, q) <==> x == q
  {
  }

  lemma WindowAt(history: seq<Sent>, capacity: nat, a: nat)
    requires a < |Window(history, capacity)|
    ensures |history| >= |Window(history, capacity)|
    ensures Window(history, capacity)[a] == history[|history| - |Window(history, capacity)| + a]
  {
  }

  /** Looking a number up among consecutive ones: found exactly while it is in the window. */
  lemma LookedUp(history: seq<Sent>, capacity: nat, q: nat)
    requires Numbered(history) && q < |history| <= 0x1_0000
    ensures FindLast(Window(history, capacity), 0, q) ==
            if |history| <= q + capacity then Some(history[q].raw) else None
  {
    var w := Window(history, capacity);
    var off := |history| - |w|;
    assert off == if |history| <= capacity then 0 else |history| - capacity;
    hide FindLast, Window, Has, Numbered;
    forall a | 0 <= a < |w|
      ensures w[a] == history[off + a] && (Has(w[a], 0, q) <==> a == q - off)
    {
      WindowAt(history, capacity, a);
      NumberAt(history, off + a, q);
    }
    FoundAt(w, q, q - off);
  }

  lemma FoundAt(items: seq<Sent>, q: u16, at: int)
    requires at < |items| && forall a :: 0 <= a < |items| ==> (Has(items[a], 0, q) <==> a == at)
    ensures FindLast(items, 0, q) == if 0 <= at then Some(items[at].raw) else None
  {
    hide FindLast, Has;
    var k := FindLastMeaning(items, 0, q);
  }

  /** The packet a number belongs to. */
  lemma {:induction false} Owner(sent: seq<Clip>, nextSeq: nat, q: nat) returns (i: nat, j: nat)
    requires Contiguous(sent, nextSeq) && q < nextSeq
    ensures i < |sent| && j < |sent[i].ps| && sent[i].q0 + j == q
    decreases |sent|
  {
    var n := |sent| - 1;
    if q >= sent[n].q0 {
      i, j := n, q - sent[n].q0;
    } else {
      i, j := Owner(sent[..n], sent[n].q0, q);
    }
  }

  // ---- what is asked for ----

  /** The numbers a step asks for: the missing head when a pop waits for it, the gap in front of an arrival. */
  ghost function AskedFor(s: Link, e: RtpLink.Event): seq<u32>
    requires e.Deliver? ==> e.i < |s.sent| && e.j < |s.sent[e.i].ps| && s.sent[e.i].q0 + e.j < 0x1_0000
  {
    match e
    case PopPacket(now) => PopSpec(s.jitter.st, now).asked
    case Deliver(i, j, _, now) =>
      var c := s.sent[i];
      var p := RtpPacket(c.q0 + j, Timestamp(c.f), j == |c.ps| - 1, Millis(c), c.ps[j]);
      PushSpec(s.jitter.st, p.seqNo, Millis(c) * 1000, p, now).asked
    case _ => []
  }

  lemma PopAsks<T>(s: State<T>, now: int, q: u32)
    requires q in PopSpec(s, now).asked
    ensures s.started && s.buf != map[] && q == s.nextOut && q !in s.buf
  {
    hide Starved, Taken;
  }

  /** A push asks for absent numbers between the read position and its own. */
  lemma PushAsks<T>(s: State<T>, q0: u32, gen: int, data: T, now: int, q: u32)
    requires Ready(s, 0) && q0 < 0x1_0000 && q in PushSpec(s, q0, gen, data, now).asked
    ensures s.started && s.nextOut <= q < q0 && q !in s.buf
  {
    hide Scan, Evicted, Estimated, SeqDelta, SeqLt;
    var present := if q0 in s.buf then s.buf.Keys else s.buf[q0 := Unit(q0, gen, now, data)].Keys;
    if s.started {
      WindowCompare(q0, s.nextOut, 0);
      if s.nextOut <= q0 <= s.nextOut + LEAP {
        ScanAsksForTheGap(s.lastNackUs, present, s.nextOut, q0 - s.nextOut, now, s.nackIntervalUs, q);
        GapBelow(q, s.nextOut, q0);
      }
    } else {
      WindowCompare(q0, q0, 0);
      ScanAsksForTheGap(s.lastNackUs, present, q0, 0, now, s.nackIntervalUs, q);
      GapBelow(q, q0, q0);
    }
  }

  lemma GapBelow(q: u32, from: u32, to: u32)
    requires from <= to <= from + LEAP && to < 0x1_0000
    ensures InGap(q, from, to - from) ==> from <= q < to
  {
  }

  lemma BufferedWasSent(s: Link, base: int, k: u32)
    requires Sound(s, base) && k in s.jitter.st.buf
    ensures k < s.nextSeq
  {
    hide AsmOk, DueTwice, LastTouched, Increasing, InRange, Millis, Timestamp, FramePackets, ClipsOk;
    var u := s.jitter.st.buf[k];
    assert (u.seqNo, u.data) in s.jitter.accepted;
    assert Arrived(u.seqNo, u.data, s.sent);
    var i: nat, j: nat :| IsPacket(u.data, s.sent, i, j);
    assert Recorded(s.sent[i], s.mtu, s.ssrc, s.nextSeq, base);
  }

  lemma BufferReady(s: Link, base: int)
    requires Sound(s, base)
    ensures Ready(s.jitter.st, 0) && s.nextSeq <= 0x1_0000
  {
    hide AsmOk, DueTwice, LastTouched, Increasing, Arrived, Recorded, ClipsOk;
  }

  /** Whatever is asked for was sent, is not held and was not given up. */
  lemma AskedWasSent(s: Link, e: RtpLink.Event, base: int, q: u32)
    requires Sound(s, base) && Allowed(s, e, base) && q in AskedFor(s, e)
    ensures q < s.nextSeq <= 0x1_0000 && s.jitter.st.started && s.jitter.st.nextOut <= q && q !in s.jitter.st.buf
  {
    hide Sound, PushSpec, PopSpec, Overleaps, Timestamp, FramePackets, Millis;
    BufferReady(s, base);
    match e {
      case PopPacket(now) =>
        PopAsks(s.jitter.st, now, q);
        var k :| k in s.jitter.st.buf;
        BufferedWasSent(s, base, k);
      case Deliver(i, j, _, now) =>
        var c := s.sent[i];
        var p := RtpPacket(c.q0 + j, Timestamp(c.f), j == |c.ps| - 1, Millis(c), c.ps[j]);
        PushAsks(s.jitter.st, p.seqNo, Millis(c) * 1000, p, now, q);
        ClipBelow(s, base, i);
    }
  }

  lemma ClipBelow(s: Link, base: int, i: nat)
    requires Sound(s, base) && i < |s.sent|
    ensures s.sent[i].q0 + |s.sent[i].ps| <= s.nextSeq
  {
    hide AsmOk, DueTwice, LastTouched, BufferOk, ClipsOk, FramePackets, InRange, Millis;
    assert Recorded(s.sent[i], s.mtu, s.ssrc, s.nextSeq, base);
  }

  // ---- the answer ----

  lemma ClipsGiven(s: Link, base: int)
    requires Sound(s, base)
    ensures s.mtu > RTP_HEADER + 2
    ensures forall i :: 0 <= i < |s.sent| ==>
              ClipOk(s.sent[i]) && s.sent[i].ps == FramePackets(s.sent[i].f, s.mtu, s.sent[i].q0, s.ssrc)
  {
    hide Sound, ClipOk, FramePackets, Millis, InRange;
    SenderBasics(s, base);
    forall i | 0 <= i < |s.sent|
      ensures ClipOk(s.sent[i]) && s.sent[i].ps == FramePackets(s.sent[i].f, s.mtu, s.sent[i].q0, s.ssrc)
    {
      SenderFacts(s, i, base);
    }
  }

  lemma SenderBasics(s: Link, base: int)
    requires Sound(s, base)
    ensures RTP_HEADER + 2 < s.mtu
  {
    hide AsmOk, DueTwice, LastTouched, BufferOk, ClipsOk, Recorded;
  }

  /**
   * The answer to a request, in every reachable state: a request for a number that was sent is answered with the
   * packet of that number exactly as long as no more than the cache's capacity was sent from it
   * on, and with nothing afterwards.
   */
  lemma RequestIsAnswered(states: seq<Link>, es: seq<RtpLink.Event>, base: int, n: nat, q: u32, capacity: nat)
    returns (i: nat, j: nat)
    requires RtpLink.Run(states, es, base) && n <= |es| && q < states[n].nextSeq && q < 0x1_0000
    ensures var s := states[n];
            && i < |s.sent| && j < |s.sent[i].ps| && s.sent[i].q0 + j == q
            && (forall k :: 0 <= k < |s.sent| ==> ClipOk(s.sent[k]))
            && Resends(Window(History(s.sent), capacity), Requests(NackPacket([Request(0, q)])[HEADER_SIZE..])) ==
               if s.nextSeq <= q + capacity then [s.sent[i].ps[j]] else []
  {
    hide RtpLink.Run, Sound, ClipOk, FramePackets, Requests, Window, FindLast, History, NackPacket, Numbered;
    RunShape(states, es, base);
    RunIsSound(states, es, base, n);
    RunIsContiguous(states, es, base, n);
    var s := states[n];
    ClipsGiven(s, base);
    BufferReady(s, base);
    i, j := Owner(s.sent, s.nextSeq, q);
    HistoryAt(s.sent, s.nextSeq, i, j);
    HistoryNumbered(s.sent, s.mtu, s.ssrc, s.nextSeq);
    LookedUp(History(s.sent), capacity, q);
    UdpThreshold.NackPacketRoundTrip([Request(0, q)]);
    OneResend(Window(History(s.sent), capacity), q);
  }

  lemma OneResend(items: seq<Sent>, q: u16)
    ensures Resends(items, [Request(0, q)]) ==
            if FindLast(items, 0, q).Some? then [FindLast(items, 0, q).value] else []
  {
    hide FindLast;
    assert [Request(0, q)][..0] == [];
    assert Resends(items, []) == [];
  }

  // ---- the arrival ----

  /** What a step of the link does to the packet buffer. */
  lemma JitterStep(s: Link, e: RtpLink.Event, base: int) returns (j: Option<JitterRuns.Event<RtpPacket>>)
    requires Sound(s, base) && Allowed(s, e, base)
    ensures RtpLink.Next(s, e).jitter == if j.Some? then Step(s.jitter, j.value) else s.jitter
  {
    hide Sound, Step, PopSpec, Took, FramePackets, ParityPacket, Overleaps, Timestamp, WithParity;
    j := None;
    match e {
      case Deliver(i, k, _, now) =>
        DeliveryIs(s, e, base);
        var c := s.sent[i];
        j := Some(Push(c.q0 + k, Millis(c) * 1000,
                       RtpPacket(c.q0 + k, Timestamp(c.f), k == |c.ps| - 1, Millis(c), c.ps[k]), now));
      case PopPacket(now) => j := Some(Pop(now));
      case Rtt(ms) => j := Some(SetRtt(ms));
      case _ =>
    }
  }

  /** The link's packet buffer goes through a run of its own, so all that holds of such runs holds on the link. */
  lemma {:induction false} BufferIsRun(states: seq<Link>, es: seq<RtpLink.Event>, base: int, n: nat)
    returns (js: seq<JitterRuns.Event<RtpPacket>>)
    requires RtpLink.Run(states, es, base) && n <= |es|
    ensures states[n].jitter == JitterRuns.Run(Fresh(1024, 10_000), js)
  {
    hide RtpLink.Run, RtpLink.Next, Allowed, Sound, Step;
    RunShape(states, es, base);
    js := [];
    if n > 0 {
      js := BufferIsRun(states, es, base, n - 1);
      RunIsSound(states, es, base, n - 1);
      RunStep(states, es, base, n - 1);
      var j := JitterStep(states[n - 1], es[n - 1], base);
      if j.Some? {
        assert (js + [j.value])[..|js|] == js;
        js := js + [j.value];
      }
    }
  }

  /** The buffer's books, and what was ever accepted. */
  lemma {:induction false} RunIsBooked(states: seq<Link>, es: seq<RtpLink.Event>, base: int, n: nat)
    requires RtpLink.Run(states, es, base) && n <= |es|
    ensures var w := states[n].jitter;
            Balanced(w) && w.st.maxUnits == 1024 && forall p :: p in w.accepted ==> Entered(w, p.0)
  {
    hide RtpLink.Run, RtpLink.Next, Allowed, Sound, Balanced, Step, Entered;
    RunShape(states, es, base);
    if n == 0 {
      StartIsBooked(states[0]);
    } else {
      RunIsBooked(states, es, base, n - 1);
      RunIsSound(states, es, base, n - 1);
      RunStep(states, es, base, n - 1);
      var j := JitterStep(states[n - 1], es[n - 1], base);
      if j.Some? {
        StepBalances(states[n - 1].jitter, j.value);
        StepEnters(states[n - 1].jitter, j.value);
        LimitKept(states[n - 1].jitter, j.value);
      }
    }
  }

  lemma StartIsBooked(s: Link)
    requires s == Start(s.mtu, s.ssrc)
    ensures Balanced(s.jitter) && s.jitter.accepted == [] && s.jitter.st.maxUnits == 1024
  {
  }

  lemma LimitKept<T>(w: World<T>, e: JitterRuns.Event<T>)
    ensures Step(w, e).st.maxUnits == w.st.maxUnits
    ensures forall p :: p in w.accepted ==> p in Step(w, e).accepted
  {
    hide Evicted, Scan, Estimated, Retuned, SeqLt, SeqDelta, Starved, MinKey;
  }

  lemma {:induction false} AcceptedStays(states: seq<Link>, es: seq<RtpLink.Event>, base: int, m: nat, n: nat)
    requires RtpLink.Run(states, es, base) && m <= n <= |es|
    ensures forall p :: p in states[m].jitter.accepted ==> p in states[n].jitter.accepted
    decreases n
  {
    hide RtpLink.Run, RtpLink.Next, Allowed, Sound, Step;
    RunShape(states, es, base);
    if m < n {
      AcceptedStays(states, es, base, m, n - 1);
      RunIsSound(states, es, base, n - 1);
      RunStep(states, es, base, n - 1);
      var j := JitterStep(states[n - 1], es[n - 1], base);
      if j.Some? {
        LimitKept(states[n - 1].jitter, j.value);
      }
    }
  }

  /** With room in the buffer, a number that is absent and not given up takes its place. */
  lemma PushFills<T>(w: World<T>, q: u32, gen: int, data: T, now: int)
    requires Ready(w.st, 0) && q < 0x1_0000 && w.st.started && w.st.nextOut <= q && q !in w.st.buf
    requires |w.st.buf| < w.st.maxUnits
    ensures var v := Step(w, Push(q, gen, data, now));
            && q in v.st.buf && v.st.buf[q] == Unit(q, gen, now, data) && v.accepted == w.accepted + [(q, data)]
            && v.st.buf == w.st.buf[q := Unit(q, gen, now, data)]
  {
    hide PushSpec, SeqLt, SeqDelta, Leaps;
    WindowCompare(q, w.st.nextOut, 0);
    PushShape(w.st, q, gen, data, now);
    FilledFacts(w.st.buf, Unit(q, gen, now, data));
  }

  /** An accepted number is held, was handed on or was evicted. */
  lemma AcceptedFate<T(!new)>(w: World<T>, p: (u32, T))
    requires Balanced(w) && p in w.accepted && Entered(w, p.0)
    ensures p.0 in w.st.buf || Left(w, p.0)
  {
    hide Count, WellKeyed;
    var u :| u in w.inserted && u.seqNo == p.0;
    assert Conserved(w, u);
    CountIsMembership(w.inserted, u);
    CountIsMembership(w.popped, u);
    CountIsMembership(w.evicted, u);
  }

  /**
   * The request loop closes. Let a step of any run ask for a number. Its packet was sent, and the server answers
   * with it as long as no more than the cache's capacity was sent from it on. If that packet arrives at a
   * later step m, before its number is given up and while the buffer has room, it fills the gap, and
   * at every later point it is still held, was handed on or was evicted.
   */
  lemma RequestLoopCloses(states: seq<Link>, es: seq<RtpLink.Event>, base: int, n: nat, q: u32, capacity: nat,
                          m: nat, k: nat)
    returns (i: nat, j: nat)
    requires RtpLink.Run(states, es, base) && n <= m < k <= |es| && q in AskedFor(states[n], es[n])
    ensures q < 0x1_0000 && Answered(states[n], q, capacity, i, j)
    ensures Arrives(states[m], es[m], q) ==>
              && Fills(states[m], es[m], states[m + 1], q)
              && (q in states[k].jitter.st.buf || Left(states[k].jitter, q))
  {
    hide RtpLink.Run, RtpLink.Next, Sound, AskedFor, Arrives, Fills, Allowed, Resends, Requests, Window, History,
         NackPacket, ClipOk, Left;
    RunShape(states, es, base);
    RunStep(states, es, base, n);
    RunIsSound(states, es, base, n);
    AskedWasSent(states[n], es[n], base, q);
    i, j := RequestIsAnswered(states, es, base, n, q, capacity);
    if Arrives(states[m], es[m], q) {
      ArrivalFills(states, es, base, m, k, q);
    }
  }

  /** A request for q is answered with packet j of frame i, or not any more. */
  ghost predicate Answered(s: Link, q: u16, capacity: nat, i: nat, j: nat) {
    && i < |s.sent| && j < |s.sent[i].ps| && s.sent[i].q0 + j == q
    && q !in s.jitter.st.buf && s.jitter.st.nextOut <= q
    && (forall k :: 0 <= k < |s.sent| ==> ClipOk(s.sent[k]))
    && Resends(Window(History(s.sent), capacity), Requests(NackPacket([Request(0, q)])[HEADER_SIZE..])) ==
       if s.nextSeq <= q + capacity then [s.sent[i].ps[j]] else []
  }

  /** The packet numbered q arrives in time. */
  ghost predicate Arrives(s: Link, e: RtpLink.Event, q: u32) {
    && e.Deliver? && e.i < |s.sent| && e.j < |s.sent[e.i].ps| && s.sent[e.i].q0 + e.j == q
    && s.jitter.st.started && s.jitter.st.nextOut <= q && q !in s.jitter.st.buf
    && |s.jitter.st.buf| < s.jitter.st.maxUnits
  }

  /** It is held under its number, and everything else still is. */
  ghost predicate Fills(s: Link, e: RtpLink.Event, t: Link, q: u32)
    requires e.Deliver? && e.i < |s.sent| && e.j < |s.sent[e.i].ps|
  {
    && q in t.jitter.st.buf && t.jitter.st.buf[q].data.raw == s.sent[e.i].ps[e.j]
    && t.jitter.st.buf == s.jitter.st.buf[q := t.jitter.st.buf[q]]
  }

  lemma ArrivalFills(states: seq<Link>, es: seq<RtpLink.Event>, base: int, m: nat, k: nat, q: u32)
    requires RtpLink.Run(states, es, base) && m < k <= |es| && Arrives(states[m], es[m], q)
    ensures Fills(states[m], es[m], states[m + 1], q)
    ensures q in states[k].jitter.st.buf || Left(states[k].jitter, q)
  {
    hide RtpLink.Run, RtpLink.Next, Sound, Allowed, Balanced, Entered, Ready, Left;
    RunShape(states, es, base);
    RunStep(states, es, base, m);
    RunIsSound(states, es, base, m);
    BufferReady(states[m], base);
    RunIsBooked(states, es, base, k);
    var p := DeliveredFills(states[m], es[m], base, q);
    AcceptedStays(states, es, base, m + 1, k);
    AcceptedFate(states[k].jitter, (q, p));
  }

  lemma DeliveredFills(s: Link, e: RtpLink.Event, base: int, q: u32) returns (p: RtpPacket)
    requires Sound(s, base) && Allowed(s, e, base) && Arrives(s, e, q)
    ensures Fills(s, e, RtpLink.Next(s, e), q) && (q, p) in RtpLink.Next(s, e).jitter.accepted
  {
    hide Sound, Overleaps, Step, Ready, FramePackets, Timestamp, Millis;
    BufferReady(s, base);
    DeliveryIs(s, e, base);
    var c := s.sent[e.i];
    p := RtpPacket(c.q0 + e.j, Timestamp(c.f), e.j == |c.ps| - 1, Millis(c), c.ps[e.j]);
    PushFills(s.jitter, q, Millis(c) * 1000, p, e.now);
  }
}
