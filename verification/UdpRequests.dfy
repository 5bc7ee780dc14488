/**
 * When the UDP receiver asks for missing fragments: a delivery that leaves a group open asks for what the group lacks
 * exactly when no request for it went out in the last 10 ms, and such a request closes the resend loop.
 */
module UdpRequests {
  import opened Bytes
  import opened Options
  import opened MediaTypes
  import opened NackManagers
  import opened UdpServers
  import opened UdpReceivers
  import opened UdpRepair
  import opened UdpThreshold
  import opened UdpLink
  import opened UdpResend
  import Fec
  import JitterRuns
  import Timestamps

  // ---- one datagram ----

  /** What one datagram asks for and records, if it fits its group. */
  ghost predicate AsksRightly(m: Media, gid: u32, before: int, now: int) {
    gid in m.groups ==>
      var g := m.groups[gid];
      && |g.frags| < 0x1_0000
      && m.asked == (if now - before >= 10_000 then [RequestPacket(g)] else [])
      && g.lastNackUs == (if now - before >= 10_000 then now else before)
  }

  lemma JudgedAsks(g: Group, now: int)
    requires |g.frags| < 0x1_0000
    ensures match Judged(g, now)
            case Waiting(g3, asked) =>
              && |g3.frags| < 0x1_0000
              && asked == (if now - g.lastNackUs >= 10_000 then [RequestPacket(g3)] else [])
              && g3.lastNackUs == (if now - g.lastNackUs >= 10_000 then now else g.lastNackUs)
            case _ => true
  {
    hide Complete, Repairable, RepairedFrags, NackPacket, MissingRequests, AssembledFrom, Fec.Missing;
  }

  /** One genuine datagram of a frame, at any receiver whose group for it is faithful or absent. */
  lemma DatagramAsks(groups: map<u32, Group>, f: Frame, size: nat, i: nat, captureUs: int, now: int)
    requires WellSized(groups) && Sendable(f, size) && i <= |Fragments(f, size)|
    requires var gid := f.frameId % TWO32; gid in groups ==> groups[gid].frags != [] && Faithful(groups[gid], f, size)
    ensures var gid := f.frameId % TWO32;
            var m := OnMediaSpec(groups, BlockHeader(f, size, i), Block(f, size, i), captureUs, now);
            && AsksRightly(m, gid, if gid in groups then groups[gid].lastNackUs else 0, now)
            && (forall k :: k != gid && k in m.groups ==> k in groups && m.groups[k] == groups[k])
            && (m.done.Some? ==> m.asked == [])
  {
    SendablePositive(f, size);
    hide Holds, Faithful, Fragments, Sendable, WellSized, Judged, BlockHeader, Block, Stored, Admitted, StoredBlock,
         OnMediaSpec, HeldBy, RequestPacket;
    var gid, h, payload := f.frameId % TWO32, BlockHeader(f, size, i), Block(f, size, i);
    var g0 := if gid in groups then groups[gid] else NEW_GROUP;
    var g1 := Admitted(g0, h, captureUs, now);
    AdmittedHolds(groups, f, size, i, captureUs, now);
    HeaderFields(f, size, i);
    var held := if gid in groups then HeldBy(g0) else {};
    HoldsIsFaithful(g1, f, size, held);
    StoredFaithful(g1, f, size, i);
    StoringHolds(g1, f, size, held, i);
    var g2 := StoredBlock(g1, f, size, i);
    HoldsIsFaithful(g2, f, size, held + {i});
    FaithfulSize(g2, f, size);
    SendableCount(f, size);
    AdmittedKeepsNack(g0, h, captureUs, now);
    StoredKeepsNack(g1, f, size, i);
    JudgedAsks(g2, now);
    MediaAsks(groups, h, payload, captureUs, now, g2);
  }

  lemma JudgedLoses(g: Group, now: int)
    requires |g.frags| < 0x1_0000
    ensures match Judged(g, now) case GivenUp(lost, _) => lost == Fec.Missing(g.frags) case _ => true
  {
    hide Complete, Repairable, RepairedFrags, NackPacket, MissingRequests, AssembledFrom, Fec.Missing;
  }

  lemma MediaLoses(groups: map<u32, Group>, h: UdpHeader, payload: bytes, captureUs: int, now: int, g: Group)
    requires WellSized(groups) && |g.frags| < 0x1_0000
    requires var g0 := if h.groupId in groups then groups[h.groupId] else NEW_GROUP;
             Stored(Admitted(g0, h, captureUs, now), h, payload) == Some(g)
    ensures var m := OnMediaSpec(groups, h, payload, captureUs, now);
            m.lost == if m.done.None? && h.groupId !in m.groups then Fec.Missing(g.frags) else 0
  {
    JudgedLoses(g, now);
    hide WellSized, Judged, Stored, Admitted, Fec.Missing;
  }

  /** The loss count: a datagram with which a group is given up adds the fragments still missing, any other nothing. */
  lemma DatagramLoses(groups: map<u32, Group>, f: Frame, size: nat, i: nat, captureUs: int, now: int)
    requires WellSized(groups) && Sendable(f, size) && i <= |Fragments(f, size)|
    requires var gid := f.frameId % TWO32; gid in groups ==> groups[gid].frags != [] && Faithful(groups[gid], f, size)
    ensures var gid, k := f.frameId % TWO32, if size > 0 then |Fragments(f, size)| else 0;
            var m := OnMediaSpec(groups, BlockHeader(f, size, i), Block(f, size, i), captureUs, now);
            var held := (if gid in groups then HeldBy(groups[gid]) else {}) + {i};
            m.lost == if m.done.None? && gid !in m.groups then k - |Below(held, k)| else 0
  {
    SendablePositive(f, size);
    hide Holds, Faithful, Fragments, Sendable, WellSized, Judged, BlockHeader, Block, Stored, Admitted, StoredBlock,
         OnMediaSpec, HeldBy, Below, Fec.Missing, FilledBy;
    var gid, h, payload := f.frameId % TWO32, BlockHeader(f, size, i), Block(f, size, i);
    var g0 := if gid in groups then groups[gid] else NEW_GROUP;
    var g1 := Admitted(g0, h, captureUs, now);
    AdmittedHolds(groups, f, size, i, captureUs, now);
    HeaderFields(f, size, i);
    var held := if gid in groups then HeldBy(g0) else {};
    HoldsIsFaithful(g1, f, size, held);
    StoredFaithful(g1, f, size, i);
    StoringHolds(g1, f, size, held, i);
    var g2 := StoredBlock(g1, f, size, i);
    HoldsIsFaithful(g2, f, size, held + {i});
    FaithfulSize(g2, f, size);
    SendableCount(f, size);
    HoldsFilled(g2, f, size, held + {i});
    MissingCounts(g2.frags, held + {i});
    MediaLoses(groups, h, payload, captureUs, now, g2);
  }

  lemma HoldsFilled(g: Group, f: Frame, size: nat, s: set<nat>)
    requires Sendable(f, size) && Holds(g, f, size, s)
    ensures size > 0 && FilledBy(g.frags, s) && |g.frags| == |Fragments(f, size)|
  {
    hide Fragments;
  }

  lemma AdmittedKeepsNack(g: Group, h: UdpHeader, captureUs: int, now: int)
    ensures Admitted(g, h, captureUs, now).lastNackUs == g.lastNackUs && NEW_GROUP.lastNackUs == 0
  {
  }

  lemma StoredKeepsNack(g: Group, f: Frame, size: nat, i: nat)
    requires Sendable(f, size) && Faithful(g, f, size) && i <= |Fragments(f, size)|
    ensures StoredBlock(g, f, size, i).lastNackUs == g.lastNackUs
  {
    hide Fragments, Datagram;
  }

  lemma MediaAsks(groups: map<u32, Group>, h: UdpHeader, payload: bytes, captureUs: int, now: int, g: Group)
    requires WellSized(groups)
    requires |g.frags| < 0x1_0000
    requires var g0 := if h.groupId in groups then groups[h.groupId] else NEW_GROUP;
             Stored(Admitted(g0, h, captureUs, now), h, payload) == Some(g)
    ensures var m := OnMediaSpec(groups, h, payload, captureUs, now);
            && m.asked == (match Judged(g, now)
                           case Finished(_) => []
                           case Waiting(_, asked) => asked
                           case GivenUp(_, asked) => asked)
            && (m.done.Some? ==> m.asked == [])
            && (h.groupId in m.groups ==> Judged(g, now).Waiting? && m.groups[h.groupId] == Judged(g, now).g)
            && (forall k :: k != h.groupId && k in m.groups ==> k in groups && m.groups[k] == groups[k])
  {
    hide WellSized, Judged, Stored, Admitted;
  }

  // ---- one step of the link ----

  /** The request packets a step makes the receiver send. */
  ghost function AskedBy(s: Link, e: Event): seq<bytes>
    requires WellSized(s.groups)
  {
    if e.Deliver? && IsMedia(e.d) then
      var h := Decode(e.d);
      OnMediaSpec(s.groups, h, e.d[HEADER_SIZE..], Timestamps.Extend(s.lastCaptureUs, h.captureLo, e.now), e.now).asked
    else []
  }

  /** A step delivers a datagram of this group. */
  ghost predicate Feeds(e: Event, gid: u32) {
    e.Deliver? && IsMedia(e.d) && Decode(e.d).groupId == gid
  }

  /** What a step does to the requests for one group that is open behind it. */
  ghost predicate GroupAsks(s: Link, e: Event, t: Link, gid: u32)
    requires WellSized(s.groups)
  {
    gid in t.groups ==>
      var before := if gid in s.groups then s.groups[gid].lastNackUs else 0;
      if Feeds(e, gid) then
        && |t.groups[gid].frags| < 0x1_0000
        && AskedBy(s, e) == (if e.now - before >= 10_000 then [RequestPacket(t.groups[gid])] else [])
        && t.groups[gid].lastNackUs == (if e.now - before >= 10_000 then e.now else before)
      else gid in s.groups && t.groups[gid] == s.groups[gid]
  }

  lemma DeliveryAsks(s: Link, e: Event, gid: u32, from: u32, i: nat)
    requires Sound(s) && e.Deliver? && Original(e.d, s.sent, s.size, from, i)
    ensures WellSized(s.groups) && s.size > 0 && GroupAsks(s, e, Next(s, e), gid)
    ensures |Next(s, e).done| > |s.done| ==> AskedBy(s, e) == []
  {
    hide Sound, Sendable, Faithful, WellSized, OnMediaSpec, BlockHeader, Block, Fragments, Datagram, Decode, IsMedia,
         Timestamps.Extend, Received, Next, RequestPacket, AskedBy, Feeds, GroupAsks, AsksRightly;
    SoundGroups(s);
    OriginalKnown(s, e.d, from, i);
    var f := s.sent[from];
    DatagramArrives(f, s.size, i);
    DatagramIsMedia(f, s.size, i);
    SendableCount(f, s.size);
    HeaderFields(f, s.size, i);
    var h := Decode(e.d);
    var captureUs := Timestamps.Extend(s.lastCaptureUs, h.captureLo, e.now);
    DatagramAsks(s.groups, f, s.size, i, captureUs, e.now);
    NextReceives(s, e.d, e.now);
    ReceivedShape(s, e.d, e.now);
    AskedIs(s, e, gid);
    Transfer(OnMediaSpec(s.groups, h, e.d[HEADER_SIZE..], captureUs, e.now), s, e, Next(s, e), from, gid);
  }

  lemma OriginalKnown(s: Link, d: bytes, from: u32, i: nat)
    requires Sound(s) && Original(d, s.sent, s.size, from, i)
    ensures from in s.sent && s.sent[from].frameId % TWO32 == from && Sendable(s.sent[from], s.size) && s.size > 0
    ensures i <= |Fragments(s.sent[from], s.size)| && d == Datagram(s.sent[from], s.size, i)
    ensures from in s.groups ==> s.groups[from].frags != [] && Faithful(s.groups[from], s.sent[from], s.size)
  {
    hide Sendable, Faithful, Datagram, Fragments;
  }

  lemma AskedIs(s: Link, e: Event, gid: u32)
    requires WellSized(s.groups) && e.Deliver? && IsMedia(e.d) && |e.d| >= HEADER_SIZE
    ensures var h := Decode(e.d);
            var captureUs := Timestamps.Extend(s.lastCaptureUs, h.captureLo, e.now);
            && AskedBy(s, e) == OnMediaSpec(s.groups, h, e.d[HEADER_SIZE..], captureUs, e.now).asked
            && (Feeds(e, gid) <==> h.groupId == gid)
  {
    hide OnMediaSpec, Decode, IsMedia, WellSized, Timestamps.Extend;
  }

  lemma Transfer(m: Media, s: Link, e: Event, t: Link, from: u32, gid: u32)
    requires WellSized(s.groups) && e.Deliver? && t.groups == m.groups && AskedBy(s, e) == m.asked
    requires Feeds(e, gid) <==> gid == from
    requires AsksRightly(m, from, if from in s.groups then s.groups[from].lastNackUs else 0, e.now)
    requires forall k :: k != from && k in m.groups ==> k in s.groups && m.groups[k] == s.groups[k]
    ensures GroupAsks(s, e, t, gid)
  {
    hide WellSized, AskedBy, Feeds, RequestPacket;
  }

  lemma StepAsks(s: Link, e: Event, gid: u32)
    requires Sound(s) && Allowed(s, e) && WellSized(s.groups) && s.size > 0
    ensures GroupAsks(s, e, Next(s, e), gid)
    ensures |Next(s, e).done| > |s.done| ==> AskedBy(s, e) == []
  {
    hide Sound, Sendable, WellSized, IsMedia, Next, Datagram, Fragments, AskedBy, RequestPacket, Decode;
    if e.Deliver? && IsMedia(e.d) {
      WireIsOriginal(s);
      var from, i :| Original(e.d, s.sent, s.size, from, i);
      DeliveryAsks(s, e, gid, from, i);
    } else {
      QuietStep(s, e);
    }
  }

  // ---- whole runs ----

  /** When the group was last asked for since it was opened; 0 when it was not. */
  ghost function LastRequest(states: seq<Link>, es: seq<Event>, n: nat, gid: u32): int
    requires Run(states, es) && n <= |es|
    decreases n
  {
    if n == 0 || gid !in states[n].groups then 0
    else if Feeds(es[n - 1], gid) && AskedBy(states[n - 1], es[n - 1]) != [] then es[n - 1].now
    else LastRequest(states, es, n - 1, gid)
  }

  lemma {:induction false} LastRequestKept(states: seq<Link>, es: seq<Event>, n: nat, gid: u32)
    requires Run(states, es) && n <= |es|
    ensures LastRequest(states, es, n, gid) == if gid in states[n].groups then states[n].groups[gid].lastNackUs else 0
    decreases n
  {
    hide Sound, Next, Allowed, WellSized, AskedBy, Feeds, RequestPacket;
    if n > 0 {
      LastRequestKept(states, es, n - 1, gid);
      RunIsSound(states, es, n - 1);
      StepAsks(states[n - 1], es[n - 1], gid);
    }
  }

  /**
   * When the receiver asks. At any step of any run, a delivery that leaves its group open sends the group's request
   * packet if and only if no request for the group went out in the last 10 ms since it was opened; and a
   * delivery that hands a frame on sends none.
   */
  lemma AsksExactlyWhen(states: seq<Link>, es: seq<Event>, n: nat, gid: u32)
    requires Run(states, es) && n < |es| && Feeds(es[n], gid)
    ensures gid in states[n + 1].groups ==>
              var g := states[n + 1].groups[gid];
              && |g.frags| < 0x1_0000
              && AskedBy(states[n], es[n]) ==
                 if es[n].now - LastRequest(states, es, n, gid) >= 10_000 then [RequestPacket(g)] else []
    ensures |states[n + 1].done| > |states[n].done| ==> AskedBy(states[n], es[n]) == []
  {
    hide Sound, Next, Allowed, WellSized, AskedBy, Feeds, RequestPacket, LastRequest;
    RunIsSound(states, es, n);
    StepAsks(states[n], es[n], gid);
    LastRequestKept(states, es, n, gid);
  }

  /** The group stays open from state k + 1 to state n, and no datagram of it comes at an earlier clock reading. */
  ghost predicate OpenSince(states: seq<Link>, es: seq<Event>, k: nat, n: nat, gid: u32)
    requires |states| == |es| + 1 && k < n <= |es|
  {
    && Feeds(es[k], gid) && (forall x :: k < x <= n ==> gid in states[x].groups)
    && (forall x :: k < x < n ==> Feeds(es[x], gid) ==> es[k].now <= es[x].now)
  }

  lemma {:induction false} RequestRemembered(states: seq<Link>, es: seq<Event>, k: nat, n: nat, gid: u32)
    requires Run(states, es) && k < n <= |es| && OpenSince(states, es, k, n, gid)
    requires AskedBy(states[k], es[k]) != []
    ensures LastRequest(states, es, n, gid) >= es[k].now
    decreases n
  {
    hide Sound, Next, Allowed, WellSized, AskedBy, Feeds, Run;
    RunShape(states, es);
    if n > k + 1 {
      RequestRemembered(states, es, k, n - 1, gid);
    }
    LastRequestIs(states, es, n, gid);
  }

  lemma LastRequestIs(states: seq<Link>, es: seq<Event>, n: nat, gid: u32)
    requires Run(states, es) && 0 < n <= |es| && gid in states[n].groups
    ensures LastRequest(states, es, n, gid) ==
            if Feeds(es[n - 1], gid) && AskedBy(states[n - 1], es[n - 1]) != [] then es[n - 1].now
            else LastRequest(states, es, n - 1, gid)
  {
    hide Next, Allowed, AskedBy, Feeds;
  }

  /** Two requests for one group while it stays open are at least 10 ms apart. */
  lemma RequestsAreSpaced(states: seq<Link>, es: seq<Event>, k: nat, n: nat, gid: u32)
    requires Run(states, es) && k < n < |es| && OpenSince(states, es, k, n, gid) && Feeds(es[n], gid)
    requires gid in states[n + 1].groups && AskedBy(states[k], es[k]) != [] && AskedBy(states[n], es[n]) != []
    ensures es[n].now - es[k].now >= 10_000
  {
    hide Sound, Next, Allowed, WellSized, AskedBy, Feeds, RequestPacket, LastRequest, OpenSince;
    AsksExactlyWhen(states, es, n, gid);
    RequestRemembered(states, es, k, n, gid);
  }

  // ---- the loop ----

  lemma {:induction false} SentStays(states: seq<Link>, es: seq<Event>, n: nat, r: nat, gid: u32)
    requires Run(states, es) && n <= r <= |es| && gid in states[n].sent
    ensures gid in states[r].sent && states[r].sent[gid] == states[n].sent[gid]
    ensures states[r].size == states[n].size && states[r].capacity == states[n].capacity
    decreases r
  {
    hide Next, Allowed, WellSized, Run;
    RunShape(states, es);
    if n < r {
      SentStays(states, es, n, r - 1, gid);
      RunStep(states, es, r - 1);
      SameSize(states[r - 1], es[r - 1]);
      NextKeepsSent(states[r - 1], es[r - 1], gid);
    }
  }

  lemma NextKeepsSent(s: Link, e: Event, gid: u32)
    requires WellSized(s.groups) && s.size > 0 && Allowed(s, e) && gid in s.sent
    ensures gid in Next(s, e).sent && Next(s, e).sent[gid] == s.sent[gid]
  {
    hide WellSized, OnMediaSpec, Resends, JitterRuns.Step, LastArrived, Decode, IsMedia, Sendable;
  }

  lemma {:induction false} DeliveredSince(es: seq<Event>, a: nat, b: nat, m: nat, f: Frame, size: nat)
    requires a <= b <= m <= |es| && size > 0
    ensures UdpResend.Delivered(es, b, m, f, size) <= UdpResend.Delivered(es, a, m, f, size)
    decreases m
  {
    hide Index;
    if b < m {
      DeliveredSince(es, a, b, m - 1, f, size);
    }
  }

  /** Every datagram of a frame sent at step n may be delivered at any later step. */
  lemma {:induction false} StaysOnWire(states: seq<Link>, es: seq<Event>, n: nat, m: nat, i: nat)
    requires Run(states, es) && n < m <= |es| && es[n].SendFrame?
    ensures var s, f := states[n], es[n].f;
            s.size > 0 && (i <= |Fragments(f, s.size)| ==> Datagram(f, s.size, i) in states[m].wire)
    decreases m
  {
    hide Next, Allowed, WellSized, Run, Fragments, Datagram;
    RunShape(states, es);
    RunStep(states, es, n);
    if m == n + 1 {
      SentIsOnWire(states[n], es[n].f, i);
    } else {
      StaysOnWire(states, es, n, m - 1, i);
      RunStep(states, es, m - 1);
      WireGrows(states[m - 1], es[m - 1]);
    }
  }

  lemma SentIsOnWire(s: Link, f: Frame, i: nat)
    requires WellSized(s.groups) && s.size > 0
    ensures i <= |Fragments(f, s.size)| ==> Datagram(f, s.size, i) in Next(s, SendFrame(f)).wire
  {
    hide WellSized, Fragments, Datagram;
    if i <= |Fragments(f, s.size)| {
      assert Datagrams(f, s.size)[i] == Datagram(f, s.size, i);
    }
  }

  lemma WireGrows(s: Link, e: Event)
    requires WellSized(s.groups) && s.size > 0
    ensures s.wire <= Next(s, e).wire
  {
    hide WellSized, OnMediaSpec, Resends, JitterRuns.Step, LastArrived, Decode, IsMedia, RememberedAll, Datagrams;
  }

  // ---- how long a fragment stays cached ----

  /** How many datagrams were sent by steps n up to m: each frame's fragments and its parity. */
  ghost function SentBetween(es: seq<Event>, size: nat, n: nat, m: nat): nat
    requires size > 0 && n <= m <= |es|
    decreases m
  {
    if m == n then 0
    else SentBetween(es, size, n, m - 1) + if es[m - 1].SendFrame? then |Fragments(es[m - 1].f, size)| + 1 else 0
  }

  lemma NextRemembers(s: Link, e: Event)
    requires WellSized(s.groups) && s.size > 0
    ensures Next(s, e).history == s.history + if e.SendFrame? then RememberedAll(e.f, s.size) else []
  {
    hide WellSized, OnMediaSpec, Resends, JitterRuns.Step, LastArrived, Decode, IsMedia, RememberedAll, Datagrams;
    assert s.history + [] == s.history;
  }

  lemma {:induction false} HistoryGrows(states: seq<Link>, es: seq<Event>, n: nat, m: nat)
    requires Run(states, es) && n <= m <= |es|
    ensures states[n].size > 0 && states[m].size == states[n].size && states[m].capacity == states[n].capacity
    ensures states[n].history <= states[m].history
    ensures |states[m].history| == |states[n].history| + SentBetween(es, states[n].size, n, m)
    decreases m
  {
    hide Next, Allowed, WellSized, Run, RememberedAll, Fragments;
    RunShape(states, es);
    RunIsSound(states, es, n);
    SoundGroups(states[n]);
    if n < m {
      HistoryGrows(states, es, n, m - 1);
      RunStep(states, es, m - 1);
      SameSize(states[m - 1], es[m - 1]);
      NextRemembers(states[m - 1], es[m - 1]);
    }
  }

  /**
   * A fragment stays cached. Fragment i of a frame sent at step n is in the server's cache at any later point as long
   * as, from the fragment on, no more datagrams were sent than the cache holds.
   */
  lemma StaysCached(states: seq<Link>, es: seq<Event>, n: nat, m: nat, i: nat)
    requires Run(states, es) && n < m <= |es| && es[n].SendFrame?
    ensures var s, f := states[n], es[n].f;
            && s.size > 0
            && (i < |Fragments(f, s.size)| && SentBetween(es, s.size, n, m) <= s.capacity + i ==>
                  Cached(Window(states[m].history, states[m].capacity), f, i))
  {
    hide Next, Allowed, WellSized, Run, Datagram, Fragments, SentBetween, Window;
    RunShape(states, es);
    RunStep(states, es, n);
    var s, f := states[n], es[n].f;
    HistoryGrows(states, es, n, m);
    HistoryGrows(states, es, n + 1, m);
    NextRemembers(s, es[n]);
    SentCount(states, es, n);
    if i < |Fragments(f, s.size)| && SentBetween(es, s.size, n, m) <= s.capacity + i {
      var at := |s.history| + i;
      assert states[n + 1].history[at] == RememberedAll(f, s.size)[i];
      assert states[m].history[at] == Remembered(f, s.size, i);
      InWindow(states[m].history, states[m].capacity, at);
      var w := Window(states[m].history, states[m].capacity);
      var j := at - (|states[m].history| - |w|);
      assert w[j] == Remembered(f, s.size, i);
      assert Has(w[j], f.frameId % TWO32, i);
    }
  }

  /** A frame just sent has its parity in the cache, under the number 65535. */
  lemma ParityCached(s: Link, f: Frame)
    requires WellSized(s.groups) && s.size > 0 && s.capacity > 0
    ensures FindLast(Window(Next(s, SendFrame(f)).history, s.capacity), f.frameId % TWO32, 65535)
            == Some(Datagram(f, s.size, |Fragments(f, s.size)|))
  {
    hide Next, WellSized, Datagram, Fragments;
    NextRemembers(s, SendFrame(f));
    var n, more := |Fragments(f, s.size)|, RememberedAll(f, s.size);
    assert more[n] == Remembered(f, s.size, n);
    var h := Next(s, SendFrame(f)).history;
    assert h[|h| - 1] == more[n];
    InWindow(h, s.capacity, |h| - 1);
  }

  lemma SentCount(states: seq<Link>, es: seq<Event>, n: nat)
    requires Run(states, es) && n < |es| && es[n].SendFrame?
    ensures states[n].size > 0 && |Fragments(es[n].f, states[n].size)| <= 65534
  {
    hide Next, WellSized, Fragments;
  }

  lemma InWindow(history: seq<Sent>, capacity: nat, at: nat)
    requires at < |history| && |history| <= at + capacity
    ensures var w := Window(history, capacity);
            |history| - |w| <= at && |w| <= |history| && w[at - (|history| - |w|)] == history[at]
  {
  }

  /**
   * The resend loop, from the delivery that asks. A delivery leaves its group open, and no request for it went out in
   * the last 10 ms: then the receiver sends the group's request packet. Let the server handle that packet at any later
   * step r while it still caches what is asked for: the originals of all missing fragments are then on the wire, and
   * in every continuation that delivers each of them within the group's lifetime the frame is handed on.
   */
  lemma AskedLoopCloses(states: seq<Link>, es: seq<Event>, n: nat, r: nat, m: nat, gid: u32)
    requires Run(states, es) && n < r < m <= |es| && Feeds(es[n], gid) && gid in states[n + 1].groups
    requires es[n].now - LastRequest(states, es, n, gid) >= 10_000 && es[r].Resend?
    requires forall k :: n + 1 <= k < m ==> InGroupLifetime(es[k], states[n + 1], gid)
    ensures var s := states[n + 1];
            var g := s.groups[gid];
            && gid in s.sent && s.size > 0 && |g.frags| < 0x1_0000
            && AskedBy(states[n], es[n]) == [RequestPacket(g)] && |RequestPacket(g)| >= HEADER_SIZE
            && (es[r].payload == RequestPacket(g)[HEADER_SIZE..] && AllCached(states[r], s.sent[gid], g) ==>
                  && AllOnWire(states[r + 1], s.sent[gid], g)
                  && (MissingDelivered(es, r + 1, m, s.sent[gid], s.size, g) ==> HandedOn(states[m], |s.done|, gid)))
  {
    hide Run, Sound, Next, Allowed, WellSized, AskedBy, Feeds, RequestPacket, LastRequest, HeldBy, UdpResend.Delivered,
         Fragments, HandedOn, InLifetime, EmptySlots, AllCached, AllOnWire, Sendable, Faithful;
    RunShape(states, es);
    AsksExactlyWhen(states, es, n, gid);
    RunIsSound(states, es, n + 1);
    GroupKnown(states[n + 1], gid);
    RequestLength(states[n + 1].groups[gid]);
    var s := states[n + 1];
    var f, g := s.sent[gid], s.groups[gid];
    FinishesByThreshold(states, es, n + 1, m, gid);
    MissingSlots(g, f, s.size);
    if es[r].payload == RequestPacket(g)[HEADER_SIZE..] && AllCached(states[r], f, g) {
      SentStays(states, es, n + 1, r, gid);
      AnswerOnWire(states, es, r, f, g, gid);
      if MissingDelivered(es, r + 1, m, f, s.size, g) {
        DeliveredSince(es, n + 1, r + 1, m, f, s.size);
        EnoughAltogether(HeldBy(g), UdpResend.Delivered(es, n + 1, m, f, s.size), EmptySlots(g.frags),
                         |Fragments(f, s.size)|);
      }
    }
  }

  /** Every fragment the group lacks is delivered by steps a up to b. */
  ghost predicate MissingDelivered(es: seq<Event>, a: nat, b: nat, f: Frame, size: nat, g: Group)
    requires a <= b <= |es| && size > 0
  {
    forall i :: i in EmptySlots(g.frags) ==> i in UdpResend.Delivered(es, a, b, f, size)
  }

  ghost predicate AllCached(s: Link, f: Frame, g: Group) {
    forall i :: i in EmptySlots(g.frags) ==> Cached(Window(s.history, s.capacity), f, i)
  }

  ghost predicate AllOnWire(s: Link, f: Frame, g: Group) {
    forall i :: i in EmptySlots(g.frags) ==>
      s.size > 0 && i <= |Fragments(f, s.size)| && Datagram(f, s.size, i) in s.wire
  }

  lemma MissingSlots(g: Group, f: Frame, size: nat)
    requires Sendable(f, size) && Faithful(g, f, size)
    ensures size > 0 && forall i: nat :: i in EmptySlots(g.frags) <==> i < |Fragments(f, size)| && i !in HeldBy(g)
  {
    hide Fragments, EmptySlots, Sendable, Holds, Faithful;
    SendablePositive(f, size);
    FaithfulHolds(g, f, size);
    RequestAnswered(g, f, size, HeldBy(g), []);
  }

  lemma AnswerOnWire(states: seq<Link>, es: seq<Event>, r: nat, f: Frame, g: Group, gid: u32)
    requires Run(states, es) && r < |es| && gid in states[r].sent && states[r].sent[gid] == f
    requires states[r].size > 0 && Sendable(f, states[r].size) && Faithful(g, f, states[r].size)
    requires |g.frags| < 0x1_0000 && |RequestPacket(g)| >= HEADER_SIZE
    requires es[r] == Resend(RequestPacket(g)[HEADER_SIZE..]) && AllCached(states[r], f, g)
    ensures AllOnWire(states[r + 1], f, g)
  {
    hide Run, Sound, Next, Allowed, WellSized, RequestPacket, HeldBy, Fragments, EmptySlots, Sendable, Faithful, Window,
         Requests, Resends, Originals, Datagram, Cached, CacheFaithful;
    RunShape(states, es);
    var s, items := states[r], Window(states[r].history, states[r].capacity);
    var slots := EmptySlots(g.frags);
    RunStep(states, es, r);
    SameSize(s, es[r]);
    CacheIsFaithful(states, es, r, gid);
    FaithfulHolds(g, f, s.size);
    RequestAnswered(g, f, s.size, HeldBy(g), items);
    AllCachedAllSent(items, f, s.size, slots);
    forall i | i in slots
      ensures i <= |Fragments(f, s.size)| && Datagram(f, s.size, i) in states[r + 1].wire
    {
      var a :| 0 <= a < |slots| && slots[a] == i;
      assert Originals(items, f, s.size, slots)[a] == Datagram(f, s.size, i);
      ResentIsOnWire(s, RequestPacket(g)[HEADER_SIZE..], Datagram(f, s.size, i));
    }
  }
}
