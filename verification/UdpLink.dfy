/**
 * The whole UDP link: a sender, a network that loses, repeats and reorders at will, resends on
 * request, the receiver's groups and its resequencing buffer. The network is the set of all
 * datagrams ever put on it; a step may deliver any of them any number of times.
 */
module UdpLink {
  import opened Bytes
  import opened Options
  import opened MediaTypes
  import opened NackManagers
  import opened UdpServers
  import opened UdpReceivers
  import opened UdpRepair
  import opened JitterBuffers
  import opened JitterRuns
  import opened JitterDrain
  import opened JitterOrder
  import Timestamps

  /** A frame a group handed on, and whether its last fragment had itself arrived. */
  datatype Done = Done(out: Assembled, lastArrived: bool)

  datatype Link = Link(
    size: nat,                      // payload octets per datagram: mtu - 24
    capacity: nat,                  // of the resend cache
    sent: map<u32, Frame>,          // by frame number modulo 2^32
    history: seq<Sent>,             // everything the resend cache was told
    wire: set<bytes>,
    groups: map<u32, Group>,
    lastCaptureUs: int,
    jitter: World<Assembled>,
    done: seq<Done>)

  datatype Event =
    | SendFrame(f: Frame)
    | Control(d: bytes)             // a statistics or ping-reply datagram
    | Resend(payload: bytes)        // the server handling any request payload whatever
    | Deliver(d: bytes, now: int)
    | PopFrame(now: int)
    | Rtt(ms: real)

  ghost function Start(size: nat, capacity: nat): Link {
    Link(size, capacity, map[], [], {}, map[], 0, Fresh(256, 10_000), [])
  }

  /** Whether the last slot was already filled when the group finished. */
  function LastArrived(groups: map<u32, Group>, h: UdpHeader, payload: bytes, captureUs: int, now: int): bool {
    var g := Admitted(if h.groupId in groups then groups[h.groupId] else NEW_GROUP, h, captureUs, now);
    match Stored(g, h, payload)
    case None => false
    case Some(g2) => g2.frags != [] && Last(g2.frags) != []
  }

  ghost function Received(s: Link, d: bytes, now: int): Link
    requires WellSized(s.groups) && |d| >= HEADER_SIZE
  {
    var h, payload := Decode(d), d[HEADER_SIZE..];
    var captureUs := Timestamps.Extend(s.lastCaptureUs, h.captureLo, now);
    var m := OnMediaSpec(s.groups, h, payload, captureUs, now);
    var t := s.(groups := m.groups, lastCaptureUs := captureUs);
    match m.done
    case None => t
    case Some(a) =>
      t.(done := s.done + [Done(a, LastArrived(s.groups, h, payload, captureUs, now))],
         jitter := Step(s.jitter, Push(a.frameId, a.captureUs, a, now)))
  }

  ghost function Next(s: Link, e: Event): Link
    requires WellSized(s.groups) && s.size > 0
  {
    match e
    case SendFrame(f) =>
      s.(sent := s.sent[f.frameId % TWO32 := f],
         history := s.history + RememberedAll(f, s.size),
         wire := s.wire + set d | d in Datagrams(f, s.size))
    case Control(d) => s.(wire := s.wire + {d})
    case Resend(payload) =>
      s.(wire := s.wire + set d | d in Resends(Window(s.history, s.capacity), Requests(payload)))
    case Deliver(d, now) => if IsMedia(d) then Received(s, d, now) else s
    case PopFrame(now) => s.(jitter := Step(s.jitter, Pop(now)))
    case Rtt(ms) => s.(jitter := Step(s.jitter, SetRtt(ms)))
  }

  /** Frames have distinct numbers and fit the format; only what is on the wire is delivered. */
  ghost predicate Allowed(s: Link, e: Event) {
    match e
    case SendFrame(f) => f.frameId % TWO32 !in s.sent && Sendable(f, s.size)
    case Control(d) => !IsMedia(d)
    case Deliver(d, _) => d in s.wire
    case _ => true
  }

  ghost predicate Run(states: seq<Link>, es: seq<Event>) {
    && |states| == |es| + 1
    && states[0].size > 0 && states[0] == Start(states[0].size, states[0].capacity)
    && forall i :: 0 <= i < |es| ==>
         WellSized(states[i].groups) && states[i].size > 0 && Allowed(states[i], es[i])
             && states[i + 1] == Next(states[i], es[i])
  }

  // ---- the invariant ----

  /** d is datagram i of a frame that was sent. */
  ghost predicate Original(d: bytes, sent: map<u32, Frame>, size: nat, gid: u32, i: nat) {
    && gid in sent && Sendable(sent[gid], size) && sent[gid].frameId % TWO32 == gid
    && i <= |Fragments(sent[gid], size)| && d == Datagram(sent[gid], size, i)
  }

  ghost predicate IsOriginal(d: bytes, sent: map<u32, Frame>, size: nat) {
    exists gid, i :: Original(d, sent, size, gid, i)
  }

  ghost predicate GroupsSound(s: Link) {
    && WellSized(s.groups)
    && forall gid :: gid in s.groups ==>
         gid in s.sent && s.size > 0 && s.groups[gid].frags != [] && Faithful(s.groups[gid], s.sent[gid], s.size)
  }

  ghost predicate DoneSound(x: Done, s: Link) {
    && x.out.frameId in s.sent && s.size > 0
    && Sendable(s.sent[x.out.frameId], s.size)
    && Restored(x.out, x.lastArrived, s.sent[x.out.frameId], s.size)
  }

  ghost predicate Sound(s: Link) {
    && s.size > 0
    && (forall gid :: gid in s.sent ==> s.sent[gid].frameId % TWO32 == gid && Sendable(s.sent[gid], s.size))
    && (forall d :: d in s.wire ==> IsMedia(d) ==> IsOriginal(d, s.sent, s.size))
    && (forall h :: h in s.history ==> IsOriginal(h.raw, s.sent, s.size))
    && GroupsSound(s)
    && (forall x :: x in s.done ==> DoneSound(x, s))
    && (forall p :: p in s.jitter.accepted ==> p.1.frameId == p.0 && exists x :: x in s.done && x.out == p.1)
  }

  lemma OriginalGrows(d: bytes, sent: map<u32, Frame>, size: nat, gid: u32, f: Frame)
    requires IsOriginal(d, sent, size) && gid !in sent
    ensures IsOriginal(d, sent[gid := f], size)
  {
    hide Datagram, Sendable, Fragments;
    var k, i :| Original(d, sent, size, k, i);
    assert Original(d, sent[gid := f], size, k, i);
  }

  lemma SentIsOriginal(s: Link, f: Frame, d: bytes)
    requires Sendable(f, s.size) && d in Datagrams(f, s.size)
    ensures IsOriginal(d, s.sent[f.frameId % TWO32 := f], s.size)
  {
    hide Datagram, Fragments;
    assert s.size > 0;
    hide Sendable;
    var i :| 0 <= i < |Datagrams(f, s.size)| && Datagrams(f, s.size)[i] == d;
    assert Original(d, s.sent[f.frameId % TWO32 := f], s.size, f.frameId % TWO32, i);
  }

  lemma RememberedIsSent(f: Frame, size: nat, h: Sent)
    requires size > 0 && h in RememberedAll(f, size)
    ensures h.raw in Datagrams(f, size)
  {
    hide Datagram, Fragments;
    var i :| 0 <= i < |RememberedAll(f, size)| && RememberedAll(f, size)[i] == h;
    assert Datagrams(f, size)[i] == h.raw;
  }

  lemma SendStaysSound(s: Link, f: Frame)
    requires Sound(s) && Allowed(s, SendFrame(f))
    ensures Sound(Next(s, SendFrame(f)))
  {
    hide Datagrams, RememberedAll, IsMedia, Sendable, Faithful, Restored, WellSized, IsOriginal;
    var t := Next(s, SendFrame(f));
    forall d | d in t.wire && IsMedia(d)
      ensures IsOriginal(d, t.sent, t.size)
    {
      if d in s.wire {
        OriginalGrows(d, s.sent, s.size, f.frameId % TWO32, f);
      } else {
        SentIsOriginal(s, f, d);
      }
    }
    forall h | h in t.history
      ensures IsOriginal(h.raw, t.sent, t.size)
    {
      if h in s.history {
        OriginalGrows(h.raw, s.sent, s.size, f.frameId % TWO32, f);
      } else {
        RememberedIsSent(f, s.size, h);
        SentIsOriginal(s, f, h.raw);
      }
    }
  }

  lemma {:induction false} ResentWasRemembered(items: seq<Sent>, rs: seq<Request>, d: bytes)
    requires d in Resends(items, rs)
    ensures exists h :: h in items && h.raw == d
  {
    hide FindLast;
    var n := |rs| - 1;
    if d in Resends(items, rs[..n]) {
      ResentWasRemembered(items, rs[..n], d);
    } else {
      var i := FindLastMeaning(items, rs[n].groupId, rs[n].fragmentSeq);
      assert items[i] in items;
    }
  }

  lemma ResendStaysSound(s: Link, payload: bytes)
    requires Sound(s)
    ensures Sound(Next(s, Resend(payload)))
  {
    hide Resends, Requests, IsMedia, Sendable, Faithful, Restored, WellSized, IsOriginal;
    var items := Window(s.history, s.capacity);
    var t := Next(s, Resend(payload));
    forall d | d in t.wire && IsMedia(d)
      ensures IsOriginal(d, t.sent, t.size)
    {
      if d !in s.wire {
        ResentWasRemembered(items, Requests(payload), d);
        var h :| h in items && h.raw == d;
        assert h in s.history;
      }
    }
  }

  // ---- delivery ----

  /** One genuine datagram of frame f, at a receiver whose group for it (if any) is faithful. */
  lemma MediaStep(groups: map<u32, Group>, f: Frame, size: nat, i: nat, captureUs: int, now: int)
    requires WellSized(groups) && Sendable(f, size) && i <= |Fragments(f, size)|
    requires var gid := f.frameId % TWO32; gid in groups ==> groups[gid].frags != [] && Faithful(groups[gid], f, size)
    ensures var gid := f.frameId % TWO32;
            var h, payload := BlockHeader(f, size, i), Block(f, size, i);
            var m := OnMediaSpec(groups, h, payload, captureUs, now);
            match m.done
            case Some(a) => Restored(a, LastArrived(groups, h, payload, captureUs, now), f, size)
                && m.groups == groups - {gid}
                            && a.captureUs == (if gid in groups then groups[gid].captureUs else captureUs)
            case None => m.groups == groups - {gid} ||
                         (gid in m.groups && m.groups == groups[gid := m.groups[gid]]
                          && m.groups[gid].frags != [] && Faithful(m.groups[gid], f, size)
                          && m.groups[gid].captureUs == (if gid in groups then groups[gid].captureUs else captureUs))
  {
    assert size > 0;
    var gid, h, payload := f.frameId % TWO32, BlockHeader(f, size, i), Block(f, size, i);
    var g0 := if gid in groups then groups[gid] else NEW_GROUP;
    var g1 := Admitted(g0, h, captureUs, now);
    HeaderFields(f, size, i);
    AdmittedFaithful(f, size, i, captureUs, now);
    FragmentsNonEmpty(f, size);
    assert g1.captureUs == (if gid in groups then g0.captureUs else captureUs);
    hide Faithful, Fragments, Sendable, WellSized, Judged, BlockHeader, Block, Restored, Stored, Admitted,
         StoredBlock, Last,
         OnMediaSpec;
    StoredFaithful(g1, f, size, i);
    var g2 := StoredBlock(g1, f, size, i);
    StoredKeepsCapture(g1, f, size, i);
    FaithfulSize(g2, f, size);
    MediaIsJudged(groups, h, payload, captureUs, now, g2);
    if Judged(g2, now).Finished? {
      FinishedIsWhole(g2, f, size, now);
    } else {
      JudgedFaithful(g2, f, size, now);
    }
  }

  lemma StoredKeepsCapture(g: Group, f: Frame, size: nat, i: nat)
    requires Sendable(f, size) && Faithful(g, f, size) && i <= |Fragments(f, size)|
    ensures StoredBlock(g, f, size, i).captureUs == g.captureUs
  {
  }

  lemma JudgedFaithful(g: Group, f: Frame, size: nat, now: int)
    requires size > 0 && |g.frags| < 0x1_0000 && Faithful(g, f, size)
    ensures Judged(g, now).Waiting? ==>
              && Faithful(Judged(g, now).g, f, size) && |Judged(g, now).g.frags| == |g.frags|
              && Judged(g, now).g.captureUs == g.captureUs
  {
    hide Complete, Repairable, RepairedFrags, NackPacket, MissingRequests, AssembledFrom;
  }

  lemma WireIsOriginal(s: Link)
    requires Sound(s)
    ensures forall d :: d in s.wire && IsMedia(d) ==> IsOriginal(d, s.sent, s.size)
  {
    hide IsMedia, IsOriginal, Sendable, GroupsSound;
  }

  lemma ReceivedStaysSound(s: Link, d: bytes, now: int, gid: u32, i: nat)
    requires Sound(s) && Original(d, s.sent, s.size, gid, i)
    ensures WellSized(s.groups) && |d| >= HEADER_SIZE && Sound(Received(s, d, now))
  {
    hide Datagram, IsMedia, Decode;
    DatagramArrives(s.sent[gid], s.size, i);
    OriginalReceived(s, d, now, gid, i);
  }

  lemma OriginalReceived(s: Link, d: bytes, now: int, gid: u32, i: nat)
    requires Sound(s) && Original(d, s.sent, s.size, gid, i) && |d| >= HEADER_SIZE
    requires Decode(d) == BlockHeader(s.sent[gid], s.size, i) && d[HEADER_SIZE..] == Block(s.sent[gid], s.size, i)
    ensures Sound(Received(s, d, now))
  {
    hide Datagram, Decode, Sendable, Faithful, Restored, OnMediaSpec, BlockHeader, Block, Fragments, IsOriginal,
         PushSpec,
         LastArrived, IsMedia;
    var f, h, payload := s.sent[gid], Decode(d), d[HEADER_SIZE..];
    var captureUs := Timestamps.Extend(s.lastCaptureUs, h.captureLo, now);
    MediaStep(s.groups, f, s.size, i, captureUs, now);
    OnMediaWellSized(s.groups, h, payload, captureUs, now);
    hide WellSized;
    var m := OnMediaSpec(s.groups, h, payload, captureUs, now);
    var t := Received(s, d, now);
    GroupsAfter(s, t, gid);
    if m.done.Some? {
      RestoredId(m.done.value, LastArrived(s.groups, h, payload, captureUs, now), f, s.size);
      HandedOnStaysSound(s, t, Done(m.done.value, LastArrived(s.groups, h, payload, captureUs, now)), now);
    }
  }

  lemma RestoredId(out: Assembled, lastArrived: bool, f: Frame, size: nat)
    requires size > 0 && Restored(out, lastArrived, f, size)
    ensures out.frameId == f.frameId % TWO32
  {
  }

  lemma HandedOnStaysSound(s: Link, t: Link, x: Done, now: int)
    requires Sound(s) && GroupsSound(t) && DoneSound(x, s)
    requires t.size == s.size && t.sent == s.sent && t.wire == s.wire && t.history == s.history
    requires t.done == s.done + [x]
    requires t.jitter == Step(s.jitter, Push(x.out.frameId, x.out.captureUs, x.out, now))
    ensures Sound(t)
  {
    hide IsMedia, Sendable, Restored, IsOriginal, PushSpec, GroupsSound;
    AcceptedAfter(s, t, x, now);
  }

  lemma GroupsAfter(s: Link, t: Link, gid: u32)
    requires GroupsSound(s) && WellSized(t.groups) && t.sent == s.sent && t.size == s.size > 0 && gid in s.sent
    requires t.groups == s.groups - {gid} ||
             (gid in t.groups && t.groups == s.groups[gid := t.groups[gid]]
              && t.groups[gid].frags != [] && Faithful(t.groups[gid], s.sent[gid], s.size))
    ensures GroupsSound(t)
  {
    hide Faithful, WellSized;
  }

  lemma AcceptedAfter(s: Link, t: Link, x: Done, now: int)
    requires t.done == s.done + [x]
    requires forall p :: p in s.jitter.accepted ==> p.1.frameId == p.0 && exists y :: y in s.done && y.out == p.1
    requires t.jitter == Step(s.jitter, Push(x.out.frameId, x.out.captureUs, x.out, now))
    ensures forall p :: p in t.jitter.accepted ==> p.1.frameId == p.0 && exists y :: y in t.done && y.out == p.1
  {
    hide PushSpec;
    forall p | p in t.jitter.accepted
      ensures p.1.frameId == p.0 && exists y :: y in t.done && y.out == p.1
    {
      if p in s.jitter.accepted {
        var y :| y in s.done && y.out == p.1;
        assert y in t.done;
      } else {
        assert x in t.done;
      }
    }
  }

  lemma NextStaysSound(s: Link, e: Event)
    requires Sound(s) && Allowed(s, e)
    ensures Sound(Next(s, e))
  {
    hide IsMedia, Sendable, Faithful, Restored, PopSpec, SetRttSpec, Received, Datagram, Fragments;
    WireIsOriginal(s);
    match e {
      case SendFrame(f) => SendStaysSound(s, f);
      case Control(d) =>
      case Resend(payload) => ResendStaysSound(s, payload);
      case Deliver(d, now) =>
        if IsMedia(d) {
          var gid, i :| Original(d, s.sent, s.size, gid, i);
          ReceivedStaysSound(s, d, now, gid, i);
        }
      case PopFrame(_) =>
      case Rtt(_) =>
    }
  }

  // ---- whole runs ----

  lemma {:induction false} RunIsSound(states: seq<Link>, es: seq<Event>, n: nat)
    requires Run(states, es) && n <= |es|
    ensures Sound(states[n]) && JitterOrder.Genuine(states[n].jitter)
  {
    hide Sound, Next, Sendable, Allowed, JitterOrder.Genuine;
    if n == 0 {
      StartIsSound(states[0]);
    } else {
      RunIsSound(states, es, n - 1);
      NextStaysSound(states[n - 1], es[n - 1]);
      NextJitter(states[n - 1], es[n - 1]);
      var j := JitterEvent(states[n - 1], es[n - 1]);
      if j.Some? {
        StaysGenuine(states[n - 1].jitter, j.value);
      }
    }
  }

  lemma StartIsSound(s: Link)
    requires s.size > 0 && s == Start(s.size, s.capacity)
    ensures Sound(s) && JitterOrder.Genuine(s.jitter)
  {
  }

  /** What a step of the link does to the resequencing buffer. */
  ghost function JitterEvent(s: Link, e: Event): Option<JitterRuns.Event<Assembled>>
    requires WellSized(s.groups)
  {
    match e
    case Deliver(d, now) =>
      if !IsMedia(d) then None
      else
        var h := Decode(d);
        var captureUs := Timestamps.Extend(s.lastCaptureUs, h.captureLo, now);
        var m := OnMediaSpec(s.groups, h, d[HEADER_SIZE..], captureUs, now);
        (match m.done
         case None => None
         case Some(a) => Some(Push(a.frameId, a.captureUs, a, now)))
    case PopFrame(now) => Some(Pop(now))
    case Rtt(ms) => Some(SetRtt(ms))
    case _ => None
  }

  lemma NextJitter(s: Link, e: Event)
    requires WellSized(s.groups) && s.size > 0
    ensures var j := JitterEvent(s, e);
            Next(s, e).jitter == if j.Some? then Step(s.jitter, j.value) else s.jitter
  {
    hide OnMediaSpec, Step, LastArrived, Decode, Resends, Datagrams, RememberedAll;
  }

  /** The link's buffer goes through a run of its own, so all that holds of runs of the buffer holds on the link. */
  lemma {:induction false} BufferIsRun(states: seq<Link>, es: seq<Event>, n: nat)
    returns (js: seq<JitterRuns.Event<Assembled>>)
    requires Run(states, es) && n <= |es|
    ensures states[n].jitter == JitterRuns.Run(Fresh(256, 10_000), js)
  {
    hide Next, Sendable, Allowed, Step;
    js := [];
    if n > 0 {
      js := BufferIsRun(states, es, n - 1);
      NextJitter(states[n - 1], es[n - 1]);
      var j := JitterEvent(states[n - 1], es[n - 1]);
      if j.Some? {
        assert (js + [j.value])[..|js|] == js;
        js := js + [j.value];
      }
    }
  }

  /** A popped unit is a frame that was sent: its bytes, then only zeros, fewer than a fragment's worth. */
  ghost predicate Intact(u: Unit<Assembled>, s: Link) {
    && u.seqNo in s.sent
    && var f, a := s.sent[u.seqNo], u.data;
       && a.frameId == u.seqNo == f.frameId % TWO32 && a.keyframe == f.keyframe
       && f.data <= a.annexb && |a.annexb| - |f.data| < s.size
       && (forall i :: |f.data| <= i < |a.annexb| ==> a.annexb[i] == 0)
  }

  /** The unit comes from a group that finished, and is exact unless that group's last fragment was rebuilt short. */
  ghost predicate Accounted(u: Unit<Assembled>, s: Link) {
    exists x :: x in s.done && x.out == u.data && u.seqNo in s.sent && s.size > 0 &&
      (u.data.annexb == s.sent[u.seqNo].data <==>
        x.lastArrived || |s.sent[u.seqNo].data| <= s.size || |s.sent[u.seqNo].data| % s.size == 0)
  }

  lemma AcceptedIsIntact(s: Link, u: Unit<Assembled>)
    requires Sound(s) && (u.seqNo, u.data) in s.jitter.accepted
    ensures Intact(u, s) && Accounted(u, s)
  {
    hide Sendable, IsMedia, IsOriginal, GroupsSound;
    var p := (u.seqNo, u.data);
    var x :| x in s.done && x.out == p.1;
    assert DoneSound(x, s);
    RestoredExactly(x.out, x.lastArrived, s.sent[x.out.frameId], s.size);
  }

  /**
   * End-to-end integrity. Over every run of sending, losing, repeating, reordering, resending,
   * delivering and popping, with distinct frame numbers, non-empty frames and at most 65534
   * fragments each, every frame handed to the reader is the frame sent under its number followed
   * by fewer than one fragment of zeros, and it is exact precisely when its last fragment had
   * arrived itself, or fills a whole fragment, or is the only one.
   */
  lemma EndToEndIntegrity(states: seq<Link>, es: seq<Event>, u: Unit<Assembled>)
    requires Run(states, es) && u in states[|es|].jitter.popped
    ensures Intact(u, states[|es|]) && Accounted(u, states[|es|])
  {
    hide Sound, Next, Allowed, Sendable, Intact, Accounted;
    RunIsSound(states, es, |es|);
    AcceptedIsIntact(states[|es|], u);
  }

  /** Frame numbers clear of the 32-bit wrap, and no re-alignment past a frame still buffered. */
  ghost predicate Orderly(states: seq<Link>, es: seq<Event>, base: u32)
    requires Run(states, es)
  {
    forall i :: 0 <= i < |es| ==>
      var j := JitterEvent(states[i], es[i]);
      j.Some? ==> Safe(states[i].jitter, j.value, base)
  }

  lemma {:induction false} RunIsOrdered(states: seq<Link>, es: seq<Event>, base: u32, n: nat)
    requires Run(states, es) && Orderly(states, es, base) && n <= |es|
    ensures Ordered(states[n].jitter, base) && JitterOrder.Genuine(states[n].jitter)
  {
    hide Sound, Next, Sendable, Allowed, JitterOrder.Genuine, Ordered, Safe, JitterEvent;
    if n == 0 {
      StartIsSound(states[0]);
      FreshIsOrdered<Assembled>(256, 10_000, base);
    } else {
      RunIsOrdered(states, es, base, n - 1);
      NextJitter(states[n - 1], es[n - 1]);
      var j := JitterEvent(states[n - 1], es[n - 1]);
      if j.Some? {
        StepStaysOrdered(states[n - 1].jitter, j.value, base);
      }
    }
  }

  /**
   * In-order, at-most-once delivery end to end: under the same run, as long as frame numbers stay
   * clear of the wrap and no re-alignment passes a buffered frame, the reader gets strictly
   * increasing frame numbers, each of them an intact frame. Groups recreated by late duplicates
   * after a frame was handed on change nothing.
   */
  lemma EndToEndOrder(states: seq<Link>, es: seq<Event>, base: u32)
    requires Run(states, es) && Orderly(states, es, base)
    ensures Increasing(states[|es|].jitter.popped)
    ensures forall u :: u in states[|es|].jitter.popped ==> Intact(u, states[|es|])
  {
    RunIsOrdered(states, es, base, |es|);
    hide Run, Orderly, Intact;
    forall u | u in states[|es|].jitter.popped
      ensures Intact(u, states[|es|])
    {
      EndToEndIntegrity(states, es, u);
    }
  }

  // ---- everything accepted is read ----

  lemma {:induction false} RunIsBalanced(states: seq<Link>, es: seq<Event>, n: nat)
    requires Run(states, es) && n <= |es|
    ensures var w := states[n].jitter; Balanced(w) && forall p :: p in w.accepted ==> Entered(w, p.0)
  {
    hide Next, Sendable, Allowed, Balanced, Step, Entered;
    if n == 0 {
      StartIsBalanced(states[0]);
    } else {
      RunIsBalanced(states, es, n - 1);
      NextJitter(states[n - 1], es[n - 1]);
      var j := JitterEvent(states[n - 1], es[n - 1]);
      if j.Some? {
        StepBalances(states[n - 1].jitter, j.value);
        StepEnters(states[n - 1].jitter, j.value);
      }
    }
  }

  lemma StartIsBalanced(s: Link)
    requires s == Start(s.size, s.capacity)
    ensures Balanced(s.jitter) && s.jitter.accepted == []
  {
  }

  lemma {:induction false} PopsOnLink(states: seq<Link>, es: seq<Event>, n: nat, ts: seq<int>)
    requires Run(states, es) && n + |ts| <= |es|
    requires forall i :: 0 <= i < |ts| ==> es[n + i] == PopFrame(ts[i])
    ensures states[n + |ts|].jitter == JitterRuns.Run(states[n].jitter, Pops(ts))
  {
    hide Step, Sendable;
    if ts != [] {
      var m := |ts| - 1;
      PopsOnLink(states, es, n, ts[..m]);
      assert Pops<Assembled>(ts)[..m] == Pops<Assembled>(ts[..m]) && Pops<Assembled>(ts)[m] == Pop(ts[m]);
      assert es[n + m] == PopFrame(ts[m]);
    }
  }

  /**
   * Progress on the link: at any point of any run, as many reads as there are frames buffered, spaced more than the
   * depth apart, hand on exactly those frames, and then every frame number the buffer ever accepted was
   * handed on or evicted.
   */
  lemma EveryFrameIsRead(states: seq<Link>, es: seq<Event>, n: nat, ts: seq<int>)
    requires Run(states, es) && n + |ts| <= |es|
    requires forall i :: 0 <= i < |ts| ==> es[n + i] == PopFrame(ts[i])
    requires |ts| == |states[n].jitter.st.buf| && Spaced(states[n].jitter.st, ts)
    ensures HandsOnAll(states[n].jitter, states[n + |ts|].jitter)
  {
    hide Next, Allowed, Spaced, HandsOnAll, Balanced, Entered;
    RunIsBalanced(states, es, n);
    PopsOnLink(states, es, n, ts);
    PopsDrain(states[n].jitter, ts);
  }

  // ---- capture times ----

  /** Capture times and clock readings within one half of the 32-bit range. */
  ghost predicate InTime(e: Event, base: int) {
    match e
    case SendFrame(f) => base <= f.captureUs < base + HALF
    case Deliver(_, now) => base <= now < base + HALF
    case _ => true
  }

  /** Every capture time the receiver has worked out is the sender's. */
  ghost predicate OnTime(s: Link, base: int) {
    && (s.lastCaptureUs == 0 || base <= s.lastCaptureUs < base + HALF)
    && (forall gid :: gid in s.sent ==> base <= s.sent[gid].captureUs < base + HALF)
    && (forall gid :: gid in s.groups ==> gid in s.sent && s.groups[gid].captureUs == s.sent[gid].captureUs)
    && (forall x :: x in s.done ==> x.out.frameId in s.sent && x.out.captureUs == s.sent[x.out.frameId].captureUs)
  }

  lemma CaptureUnwraps(last: int, f: Frame, size: nat, i: nat, now: int, base: int)
    requires Sendable(f, size) && i <= |Fragments(f, size)|
    requires last == 0 || base <= last < base + HALF
    requires base <= now < base + HALF && base <= f.captureUs < base + HALF
    ensures Timestamps.Extend(last, BlockHeader(f, size, i).captureLo, now) == f.captureUs
  {
    hide Fragments, Timestamps.Nearest;
    HeaderFields(f, size, i);
    Timestamps.NearestRecovers(if last == 0 then now else last, f.captureUs);
  }

  lemma DeliveryOnTime(s: Link, d: bytes, now: int, base: int, gid: u32, i: nat)
    requires Sound(s) && OnTime(s, base) && Original(d, s.sent, s.size, gid, i) && base <= now < base + HALF
    ensures WellSized(s.groups) && |d| >= HEADER_SIZE && OnTime(Received(s, d, now), base)
  {
    hide Datagram, IsMedia, Decode;
    DatagramArrives(s.sent[gid], s.size, i);
    OriginalOnTime(s, d, now, base, gid, i);
  }

  lemma OriginalOnTime(s: Link, d: bytes, now: int, base: int, gid: u32, i: nat)
    requires Sound(s) && OnTime(s, base) && base <= now < base + HALF
    requires Original(d, s.sent, s.size, gid, i) && |d| >= HEADER_SIZE
    requires Decode(d) == BlockHeader(s.sent[gid], s.size, i) && d[HEADER_SIZE..] == Block(s.sent[gid], s.size, i)
    ensures OnTime(Received(s, d, now), base)
  {
    SoundGroups(s);
    var f, h, payload := s.sent[gid], Decode(d), d[HEADER_SIZE..];
    hide Sendable, Faithful, OnMediaSpec, BlockHeader, Block, Fragments, IsOriginal, PushSpec, LastArrived, Sound,
         Datagram,
         Decode, Restored, Timestamps.Extend, IsMedia;
    CaptureUnwraps(s.lastCaptureUs, f, s.size, i, now, base);
    MediaStep(s.groups, f, s.size, i, f.captureUs, now);
    hide WellSized;
    var m := OnMediaSpec(s.groups, h, payload, f.captureUs, now);
    if m.done.Some? {
      RestoredId(m.done.value, LastArrived(s.groups, h, payload, f.captureUs, now), f, s.size);
    }
    TimesAfter(s, Received(s, d, now), base, gid, m);
  }

  lemma TimesAfter(s: Link, t: Link, base: int, gid: u32, m: Media)
    requires OnTime(s, base) && gid in s.sent
    requires t.sent == s.sent && t.lastCaptureUs == s.sent[gid].captureUs && t.groups == m.groups
    requires m.groups == s.groups - {gid} ||
             (gid in m.groups && m.groups == s.groups[gid := m.groups[gid]]
                 && m.groups[gid].captureUs == s.sent[gid].captureUs)
    requires match m.done
             case None => t.done == s.done
             case Some(a) => a.frameId == gid && a.captureUs == s.sent[gid].captureUs &&
                             |t.done| == |s.done| + 1 && t.done[..|s.done|] == s.done && t.done[|s.done|].out == a
    ensures OnTime(t, base)
  {
    forall x | x in t.done
      ensures x.out.frameId in t.sent && x.out.captureUs == t.sent[x.out.frameId].captureUs
    {
      assert x in s.done || x == t.done[|s.done|];
    }
  }

  lemma SoundGroups(s: Link)
    requires Sound(s)
    ensures GroupsSound(s) && s.size > 0
    ensures forall gid :: gid in s.sent ==> s.sent[gid].frameId % TWO32 == gid && Sendable(s.sent[gid], s.size)
  {
    hide Sendable;
  }

  lemma NextOnTime(s: Link, e: Event, base: int)
    requires Sound(s) && OnTime(s, base) && Allowed(s, e) && InTime(e, base)
    ensures OnTime(Next(s, e), base)
  {
    hide Sound, Sendable, Received, IsMedia, Resends, Datagrams, RememberedAll, Step, Datagram, Fragments;
    SoundGroups(s);
    WireIsOriginal(s);
    if e.Deliver? && IsMedia(e.d) {
      var gid, i :| Original(e.d, s.sent, s.size, gid, i);
      DeliveryOnTime(s, e.d, e.now, base, gid, i);
    }
  }

  lemma {:induction false} CaptureTimesRecovered(states: seq<Link>, es: seq<Event>, base: int, n: nat)
    requires Run(states, es) && n <= |es| && forall i :: 0 <= i < |es| ==> InTime(es[i], base)
    ensures OnTime(states[n], base)
  {
    hide Sound, Next, Sendable, Allowed, InTime;
    if n > 0 {
      RunIsSound(states, es, n - 1);
      CaptureTimesRecovered(states, es, base, n - 1);
      NextOnTime(states[n - 1], es[n - 1], base);
    }
  }
}
