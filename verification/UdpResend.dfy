/**
 * The resend loop on the whole link: in every reachable state the cache holds the datagrams its keys
 * name, so a request is answered with originals; and a group is handed on exactly when it has been
 * delivered as many distinct datagrams as the frame has fragments.
 */
module UdpResend {
  import opened Bytes
  import opened Options
  import opened MediaTypes
  import opened Sets
  import opened NackManagers
  import opened UdpServers
  import opened UdpReceivers
  import opened UdpRepair
  import opened UdpThreshold
  import opened UdpLink
  import Fec
  import JitterRuns
  import Timestamps

  lemma RunShape(states: seq<Link>, es: seq<Event>)
    requires Run(states, es)
    ensures |states| == |es| + 1
  {
  }

  // ---- what the cache holds ----

  /** h is the cache entry of some datagram of a frame that was sent. */
  ghost predicate Keyed(h: Sent, sent: map<u32, Frame>, size: nat) {
    && h.groupId in sent && Sendable(sent[h.groupId], size) && sent[h.groupId].frameId % TWO32 == h.groupId
    && exists i: nat :: i <= |Fragments(sent[h.groupId], size)| && h == Remembered(sent[h.groupId], size, i)
  }

  ghost predicate HistoryKeyed(s: Link) {
    forall h :: h in s.history ==> Keyed(h, s.sent, s.size)
  }

  lemma RememberedIsKeyed(f: Frame, size: nat, sent: map<u32, Frame>, h: Sent)
    requires Sendable(f, size) && h in RememberedAll(f, size)
    ensures Keyed(h, sent[f.frameId % TWO32 := f], size)
  {
    assert size > 0;
    hide Fragments, Datagram, Sendable;
    var i: nat :| i < |RememberedAll(f, size)| && RememberedAll(f, size)[i] == h;
    assert h == Remembered(f, size, i);
  }

  lemma SendKeepsKeys(s: Link, f: Frame)
    requires HistoryKeyed(s) && s.size > 0 && WellSized(s.groups) && Allowed(s, SendFrame(f))
    ensures HistoryKeyed(Next(s, SendFrame(f)))
  {
    hide Datagrams, RememberedAll, Sendable, WellSized, Keyed;
    var t := Next(s, SendFrame(f));
    forall h | h in t.history
      ensures Keyed(h, t.sent, t.size)
    {
      if h in s.history {
        KeyedGrows(h, s.sent, s.size, f);
      } else {
        RememberedIsKeyed(f, s.size, s.sent, h);
      }
    }
  }

  lemma KeyedGrows(h: Sent, sent: map<u32, Frame>, size: nat, f: Frame)
    requires Keyed(h, sent, size) && f.frameId % TWO32 !in sent
    ensures Keyed(h, sent[f.frameId % TWO32 := f], size)
  {
    hide Remembered, Fragments, Sendable;
  }

  lemma {:induction false} RunIsKeyed(states: seq<Link>, es: seq<Event>, n: nat)
    requires Run(states, es) && n <= |es|
    ensures HistoryKeyed(states[n])
  {
    hide Next, Allowed, HistoryKeyed, WellSized;
    if n == 0 {
      NothingRemembered(states[0]);
    } else {
      RunIsKeyed(states, es, n - 1);
      match es[n - 1] {
        case SendFrame(f) => SendKeepsKeys(states[n - 1], f);
        case e => NextKeepsHistory(states[n - 1], e);
      }
    }
  }

  lemma NothingRemembered(s: Link)
    requires s == Start(s.size, s.capacity)
    ensures HistoryKeyed(s)
  {
  }

  lemma NextKeepsHistory(s: Link, e: Event)
    requires WellSized(s.groups) && s.size > 0 && !e.SendFrame?
    ensures Next(s, e).history == s.history && Next(s, e).sent == s.sent && Next(s, e).size == s.size
    ensures HistoryKeyed(s) ==> HistoryKeyed(Next(s, e))
  {
    hide Keyed, OnMediaSpec, Resends, JitterRuns.Step, LastArrived, Decode, IsMedia;
  }

  /** In every reachable state each cached entry of a frame's fragment is that fragment's datagram. */
  lemma CacheIsFaithful(states: seq<Link>, es: seq<Event>, n: nat, gid: u32)
    requires Run(states, es) && n <= |es| && gid in states[n].sent
    ensures var s := states[n];
            s.size > 0 && s.sent[gid].frameId % TWO32 == gid && Sendable(s.sent[gid], s.size)
            && CacheFaithful(Window(s.history, s.capacity), s.sent[gid], s.size)
  {
    hide Run, Next;
    RunShape(states, es);
    var s := states[n];
    RunIsSound(states, es, n);
    RunIsKeyed(states, es, n);
    SoundGroups(s);
    hide Sound, Sendable;
    forall h | h in Window(s.history, s.capacity) && h.groupId == gid
        && h.fragmentSeq < |Fragments(s.sent[gid], s.size)|
      ensures h.raw == Datagram(s.sent[gid], s.size, h.fragmentSeq)
    {
      assert h in s.history;
      KeyNamesFragment(h, s.sent, s.size);
    }
  }

  lemma KeyNamesFragment(h: Sent, sent: map<u32, Frame>, size: nat)
    requires size > 0 && Keyed(h, sent, size) && h.fragmentSeq < |Fragments(sent[h.groupId], size)|
    ensures h.raw == Datagram(sent[h.groupId], size, h.fragmentSeq)
  {
    hide Fragments, Datagram;
  }

  // ---- what one datagram does to its group ----

  /** The datagrams a group holds: its filled slots, and K for the parity. */
  function HeldBy(g: Group): set<nat> {
    (set i: nat | i < |g.frags| && g.frags[i] != []) + if g.fecSeen then {|g.frags|} else {}
  }

  lemma FaithfulHolds(g: Group, f: Frame, size: nat)
    requires Sendable(f, size) && Faithful(g, f, size)
    ensures Holds(g, f, size, HeldBy(g)) && forall i :: i in HeldBy(g) ==> i <= |Fragments(f, size)|
  {
    hide Fragments, Fec.Parity;
  }

  lemma HoldsExactly(g: Group, f: Frame, size: nat, s: set<nat>)
    requires Sendable(f, size) && Holds(g, f, size, s) && forall i :: i in s ==> i <= |Fragments(f, size)|
    ensures HeldBy(g) == s
  {
    hide Fragments, Fec.Parity;
  }

  /** What a group that is given one more datagram becomes; None when it is handed on or given up. */
  ghost predicate Grown(m: Media, groups: map<u32, Group>, f: Frame, size: nat, t: set<nat>, first: int, now: int) {
    var gid, k := f.frameId % TWO32, if size > 0 then |Fragments(f, size)| else 0;
    if |t| >= k then m.done.Some? && m.done.value.frameId == gid && m.groups == groups - {gid}
    else
      && m.done == None
      && if now - first > 250_000 then m.groups == groups - {gid}
         else gid in m.groups && m.groups == groups[gid := m.groups[gid]]
              && HeldBy(m.groups[gid]) == t && m.groups[gid].firstRecvUs == first
  }

  /**
   * One genuine datagram of a frame, at any receiver whose group for it is faithful or absent: the frame is
   * handed on exactly when the group then has as many datagrams as the frame has fragments; otherwise
   * the group has one datagram more, or is given up when it is older than 250 ms.
   */
  lemma DatagramJudged(groups: map<u32, Group>, f: Frame, size: nat, i: nat, captureUs: int, now: int)
    requires WellSized(groups) && Sendable(f, size) && i <= |Fragments(f, size)|
    requires var gid := f.frameId % TWO32; gid in groups ==> groups[gid].frags != [] && Faithful(groups[gid], f, size)
    ensures var gid := f.frameId % TWO32;
            var held := if gid in groups then HeldBy(groups[gid]) else {};
            Grown(OnMediaSpec(groups, BlockHeader(f, size, i), Block(f, size, i), captureUs, now), groups, f, size,
                  held + {i}, if gid in groups then groups[gid].firstRecvUs else now, now)
  {
    SendablePositive(f, size);
    hide Holds, Faithful, Fragments, Sendable, WellSized, Judged, BlockHeader, Block, Restored, Stored, Admitted,
         StoredBlock, OnMediaSpec, HeldBy, Grown;
    var gid, h, payload := f.frameId % TWO32, BlockHeader(f, size, i), Block(f, size, i);
    var g0 := if gid in groups then groups[gid] else NEW_GROUP;
    var g1 := Admitted(g0, h, captureUs, now);
    var held := if gid in groups then HeldBy(g0) else {};
    AdmittedHolds(groups, f, size, i, captureUs, now);
    HeaderFields(f, size, i);
    HoldsIsFaithful(g1, f, size, held);
    StoredFaithful(g1, f, size, i);
    StoringHolds(g1, f, size, held, i);
    var g2 := StoredBlock(g1, f, size, i);
    StoredKeepsTime(g1, f, size, i);
    HoldsIsFaithful(g2, f, size, held + {i});
    FaithfulSize(g2, f, size);
    SendableCount(f, size);
    MediaIsJudged(groups, h, payload, captureUs, now, g2);
    VerdictGrows(OnMediaSpec(groups, h, payload, captureUs, now), groups, g2, f, size, held + {i}, now);
  }

  lemma SendablePositive(f: Frame, size: nat)
    requires Sendable(f, size)
    ensures size > 0
  {
  }

  lemma SendableCount(f: Frame, size: nat)
    requires Sendable(f, size)
    ensures |Fragments(f, size)| <= 65534
  {
  }

  lemma VerdictGrows(m: Media, groups: map<u32, Group>, g: Group, f: Frame, size: nat, t: set<nat>, now: int)
    requires Sendable(f, size) && |g.frags| < 0x1_0000 && Holds(g, f, size, t)
    requires forall i :: i in t ==> i <= |Fragments(f, size)|
    requires match Judged(g, now)
             case Finished(out) => m.done == Some(out) && m.groups == groups - {f.frameId % TWO32}
             case Waiting(g3, _) => m.done == None && m.groups == groups[f.frameId % TWO32 := g3]
             case GivenUp(_, _) => m.done == None && m.groups == groups - {f.frameId % TWO32}
    ensures Grown(m, groups, f, size, t, g.firstRecvUs, now)
  {
    SendablePositive(f, size);
    hide Holds, Faithful, Fragments, Sendable, Judged, Restored, HeldBy;
    FinishesAtK(g, f, size, t, now);
    if Judged(g, now).Finished? {
      HoldsIsFaithful(g, f, size, t);
      FinishedIsWhole(g, f, size, now);
      RestoredId(Judged(g, now).out, UdpRepair.Last(g.frags) != [], f, size);
    } else {
      JudgedHolds(g, f, size, t, now);
    }
  }

  lemma AdmittedHolds(groups: map<u32, Group>, f: Frame, size: nat, i: nat, captureUs: int, now: int)
    requires Sendable(f, size) && i <= |Fragments(f, size)|
    requires var gid := f.frameId % TWO32; gid in groups ==> groups[gid].frags != [] && Faithful(groups[gid], f, size)
    ensures var gid := f.frameId % TWO32;
            var held := if gid in groups then HeldBy(groups[gid]) else {};
            var g1 := Admitted(if gid in groups then groups[gid] else NEW_GROUP, BlockHeader(f, size, i), captureUs,
                now);
            && Holds(g1, f, size, held) && (forall j :: j in held ==> j <= |Fragments(f, size)|)
            && g1.firstRecvUs == (if gid in groups then groups[gid].firstRecvUs else now)
  {
    hide Faithful, Fragments, BlockHeader, Holds, Sendable;
    var gid := f.frameId % TWO32;
    if gid in groups {
      FaithfulHolds(groups[gid], f, size);
    } else {
      FreshHolds(f, size, Arrival(i, captureUs, now));
    }
  }

  lemma JudgedHolds(g: Group, f: Frame, size: nat, t: set<nat>, now: int)
    requires Sendable(f, size) && |g.frags| < 0x1_0000 && Holds(g, f, size, t)
    requires forall i :: i in t ==> i <= |Fragments(f, size)|
    requires !Judged(g, now).Finished?
    ensures now - g.firstRecvUs > 250_000 ==> Judged(g, now).GivenUp?
    ensures now - g.firstRecvUs <= 250_000 ==>
              Judged(g, now).Waiting? && HeldBy(Judged(g, now).g) == t && Judged(g, now).g.firstRecvUs == g.firstRecvUs
  {
    HoldsExactly(g, f, size, t);
    hide Holds, Fec.Missing, Complete, Repairable, RepairedFrags, NackPacket, MissingRequests, AssembledFrom;
  }

  // ---- one step of the link ----

  /** Delivering datagram i of frame gid: the group grows, is handed on, or is given up, and nothing else changes. */
  lemma DeliveryGrows(s: Link, d: bytes, now: int, gid: u32, i: nat) returns (m: Media)
    requires Sound(s) && Original(d, s.sent, s.size, gid, i)
    ensures WellSized(s.groups) && s.size > 0 && IsMedia(d)
    ensures var t := Next(s, Deliver(d, now));
            && t.sent == s.sent && t.size == s.size && t.groups == m.groups
            && (if m.done.None? then t.done == s.done
                else |t.done| == |s.done| + 1 && t.done[..|s.done|] == s.done && t.done[|s.done|].out == m.done.value)
    ensures var held := if gid in s.groups then HeldBy(s.groups[gid]) else {};
            Grown(m, s.groups, s.sent[gid], s.size, held + {i},
                if gid in s.groups then s.groups[gid].firstRecvUs else now, now)
  {
    SoundGroups(s);
    hide Sound, Sendable, Faithful, WellSized, OnMediaSpec, BlockHeader, Block, Fragments, Datagram, Decode, IsMedia,
         HeldBy,
         Grown, Timestamps.Extend, Received, Next;
    var f := s.sent[gid];
    DatagramArrives(f, s.size, i);
    DatagramIsMedia(f, s.size, i);
    var h := Decode(d);
    var captureUs := Timestamps.Extend(s.lastCaptureUs, h.captureLo, now);
    DatagramJudged(s.groups, f, s.size, i, captureUs, now);
    m := OnMediaSpec(s.groups, h, d[HEADER_SIZE..], captureUs, now);
    NextReceives(s, d, now);
    ReceivedShape(s, d, now);
  }

  lemma NextReceives(s: Link, d: bytes, now: int)
    requires WellSized(s.groups) && s.size > 0 && IsMedia(d) && |d| >= HEADER_SIZE
    ensures Next(s, Deliver(d, now)) == Received(s, d, now)
  {
    hide Received, WellSized, IsMedia;
  }

  lemma ReceivedShape(s: Link, d: bytes, now: int)
    requires WellSized(s.groups) && |d| >= HEADER_SIZE
    ensures var h, t := Decode(d), Received(s, d, now);
            var captureUs := Timestamps.Extend(s.lastCaptureUs, h.captureLo, now);
            var m := OnMediaSpec(s.groups, h, d[HEADER_SIZE..], captureUs, now);
            && t.sent == s.sent && t.size == s.size && t.groups == m.groups
            && (if m.done.None? then t.done == s.done
                else |t.done| == |s.done| + 1 && t.done[..|s.done|] == s.done && t.done[|s.done|].out == m.done.value)
  {
    hide WellSized, OnMediaSpec, Decode, LastArrived, JitterRuns.Step, Timestamps.Extend;
  }

  /** Which of a frame's datagrams a step delivers. */
  ghost function Index(e: Event, f: Frame, size: nat): set<nat>
    requires size > 0
  {
    set i: nat | i <= |Fragments(f, size)| && e.Deliver? && e.d == Datagram(f, size, i)
  }

  /** Datagrams of different frames, or of one frame with different numbers, differ. */
  lemma DatagramsDiffer(f: Frame, g: Frame, size: nat, i: nat, j: nat)
    requires Sendable(f, size) && Sendable(g, size) && i <= |Fragments(f, size)| && j <= |Fragments(g, size)|
    requires Datagram(f, size, i) == Datagram(g, size, j)
    ensures f.frameId % TWO32 == g.frameId % TWO32 && (f == g ==> i == j)
  {
    SendablePositive(f, size);
    SendableCount(f, size);
    hide Fragments, Datagram, Sendable, BlockHeader, Block, Decode, IsMedia;
    HeaderFields(f, size, i);
    HeaderFields(g, size, j);
    DatagramArrives(f, size, i);
    DatagramArrives(g, size, j);
  }

  lemma IndexOfOriginal(e: Event, sent: map<u32, Frame>, size: nat, gid: u32, i: nat, tracked: u32)
    requires e.Deliver? && Original(e.d, sent, size, gid, i)
    requires tracked in sent && Sendable(sent[tracked], size) && sent[tracked].frameId % TWO32 == tracked
    ensures size > 0 && Index(e, sent[tracked], size) == if gid == tracked then {i} else {}
  {
    SendablePositive(sent[tracked], size);
    hide Datagram, Fragments, Sendable;
    forall j: nat | j <= |Fragments(sent[tracked], size)| && e.d == Datagram(sent[tracked], size, j)
      ensures gid == tracked && j == i
    {
      DatagramsDiffer(sent[gid], sent[tracked], size, i, j);
    }
  }

  lemma IndexOfOther(e: Event, f: Frame, size: nat)
    requires size > 0 && (e.Deliver? ==> !IsMedia(e.d))
    ensures Index(e, f, size) == {}
  {
    hide Datagram, Fragments, IsMedia;
    forall j: nat | j <= |Fragments(f, size)| && e.Deliver? && e.d == Datagram(f, size, j)
      ensures false
    {
      DatagramArrives(f, size, j);
      DatagramIsMedia(f, size, j);
    }
  }

  /** Frame gid was handed on after the first n hand-overs. */
  ghost predicate HandedOn(s: Link, n: nat, gid: u32) {
    exists j :: n <= j < |s.done| && s.done[j].out.frameId == gid
  }

  /** The group of frame f, given the datagrams t since it was opened at `first`. */
  ghost predicate Tracked(s: Link, n: nat, f: Frame, t: set<nat>, first: int) {
    var gid := f.frameId % TWO32;
    && s.size > 0 && gid in s.sent && s.sent[gid] == f && n <= |s.done|
    && if |t| >= |Fragments(f, s.size)| then HandedOn(s, n, gid)
       else !HandedOn(s, n, gid) && gid in s.groups && HeldBy(s.groups[gid]) == t && s.groups[gid].firstRecvUs == first
  }

  /** A datagram of frame f, if this step delivers one, comes no later than 250 ms after `first`. */
  ghost predicate InLifetime(e: Event, f: Frame, size: nat, first: int) {
    e.Deliver? && size > 0 && Index(e, f, size) != {} ==> e.now - first <= 250_000
  }

  /** The same for the group gid that is open in state s. */
  ghost predicate InGroupLifetime(e: Event, s: Link, gid: u32)
    requires gid in s.groups
  {
    gid in s.sent ==> InLifetime(e, s.sent[gid], s.size, s.groups[gid].firstRecvUs)
  }

  lemma QuietStep(s: Link, e: Event)
    requires Sound(s) && Allowed(s, e) && WellSized(s.groups) && s.size > 0
    requires e.Deliver? ==> !IsMedia(e.d)
    ensures var t := Next(s, e);
            && t.size == s.size && t.groups == s.groups && t.done == s.done
            && forall gid :: gid in s.sent ==> gid in t.sent && t.sent[gid] == s.sent[gid]
  {
    hide Sound, IsMedia, Sendable, Resends, Requests, Datagrams, RememberedAll, JitterRuns.Step, Received;
  }

  lemma TrackedStays(s: Link, t: Link, n: nat, f: Frame, held: set<nat>, first: int)
    requires Tracked(s, n, f, held, first) && t.size == s.size && f.frameId % TWO32 in t.sent
             && t.sent[f.frameId % TWO32] == f
    requires t.done == s.done && t.groups == s.groups
    ensures Tracked(t, n, f, held, first)
  {
    hide Fragments, HeldBy;
  }

  lemma StepTracked(s: Link, e: Event, n: nat, f: Frame, held: set<nat>, first: int)
    requires Sound(s) && Allowed(s, e) && WellSized(s.groups) && Tracked(s, n, f, held, first)
    requires InLifetime(e, f, s.size, first)
    ensures s.size > 0 && Tracked(Next(s, e), n, f, held + Index(e, f, s.size), first)
  {
    hide Sound, Sendable, WellSized, Tracked, Index, IsMedia, Next, GroupsSound, DoneSound, Fragments, Datagram, HeldBy,
         Grown, Decode;
    SoundGroups(s);
    WireIsOriginal(s);
    TrackedFrame(s, n, f, held, first);
    assert held + {} == held;
    if e.Deliver? && IsMedia(e.d) {
      var gid, i :| Original(e.d, s.sent, s.size, gid, i);
      var m := DeliveryGrows(s, e.d, e.now, gid, i);
      IndexOfOriginal(e, s.sent, s.size, gid, i, f.frameId % TWO32);
      if gid == f.frameId % TWO32 {
        if |held| < |Fragments(f, s.size)| {
          OpenGroup(s, n, f, held, first);
        }
        OwnDelivery(s, Next(s, e), m, n, f, held, first, i, e.now);
      } else {
        OtherDelivery(s, Next(s, e), m, n, f, held, first, s.sent[gid],
                      (if gid in s.groups then HeldBy(s.groups[gid]) else {}) + {i},
                      if gid in s.groups then s.groups[gid].firstRecvUs else e.now, e.now);
      }
    } else {
      IndexOfOther(e, f, s.size);
      QuietStep(s, e);
      TrackedStays(s, Next(s, e), n, f, held, first);
    }
  }

  lemma TrackedFrame(s: Link, n: nat, f: Frame, held: set<nat>, first: int)
    requires Tracked(s, n, f, held, first)
    ensures s.size > 0 && f.frameId % TWO32 in s.sent && s.sent[f.frameId % TWO32] == f
  {
    hide Fragments, HeldBy;
  }

  lemma OpenGroup(s: Link, n: nat, f: Frame, held: set<nat>, first: int)
    requires Tracked(s, n, f, held, first) && |held| < |Fragments(f, s.size)|
    ensures var gid := f.frameId % TWO32;
            gid in s.groups && HeldBy(s.groups[gid]) == held && s.groups[gid].firstRecvUs == first
  {
    hide HeldBy, Fragments;
  }

  lemma OwnDelivery(s: Link, t: Link, m: Media, n: nat, f: Frame, held: set<nat>, first: int, i: nat, now: int)
    requires Tracked(s, n, f, held, first) && t.size == s.size && t.sent == s.sent && t.groups == m.groups
    requires if m.done.None? then t.done == s.done
             else |t.done| == |s.done| + 1 && t.done[..|s.done|] == s.done && t.done[|s.done|].out == m.done.value
    requires var gid := f.frameId % TWO32;
             gid in s.groups && |held| < |Fragments(f, s.size)| ==>
               now - first <= 250_000 && Grown(m, s.groups, f, s.size, held + {i}, first, now)
    ensures Tracked(t, n, f, held + {i}, first)
  {
    hide Fragments, HeldBy;
    SubsetSize(held, held + {i});
    if |held| >= |Fragments(f, s.size)| {
      StillHandedOn(s, t, n, f.frameId % TWO32);
    }
  }

  lemma StillHandedOn(s: Link, t: Link, n: nat, gid: u32)
    requires HandedOn(s, n, gid) && |s.done| <= |t.done| && t.done[..|s.done|] == s.done
    ensures HandedOn(t, n, gid)
  {
    var j :| n <= j < |s.done| && s.done[j].out.frameId == gid;
    assert t.done[j] == s.done[j];
  }

  lemma OtherDelivery(s: Link, t: Link, m: Media, n: nat, f: Frame, held: set<nat>, first: int, g: Frame, got: set<nat>,
                      since: int, now: int)
    requires Tracked(s, n, f, held, first) && t.size == s.size && t.sent == s.sent && t.groups == m.groups
    requires if m.done.None? then t.done == s.done
             else |t.done| == |s.done| + 1 && t.done[..|s.done|] == s.done && t.done[|s.done|].out == m.done.value
    requires g.frameId % TWO32 != f.frameId % TWO32 && Grown(m, s.groups, g, s.size, got, since, now)
    ensures Tracked(t, n, f, held, first)
  {
    hide Fragments, HeldBy;
    assert forall j :: n <= j < |s.done| ==> t.done[j] == s.done[j];
  }

  // ---- whole runs ----

  /** No group in the map holds enough to be handed on. */
  ghost predicate GroupsOpen(s: Link) {
    s.size > 0 && forall gid :: gid in s.groups ==>
      gid in s.sent && |HeldBy(s.groups[gid])| < |Fragments(s.sent[gid], s.size)|
  }

  lemma NextKeepsOpen(s: Link, e: Event)
    requires Sound(s) && Allowed(s, e) && WellSized(s.groups) && GroupsOpen(s)
    ensures GroupsOpen(Next(s, e))
  {
    SoundGroups(s);
    hide Sendable, WellSized, IsMedia, Next, GroupsSound, DoneSound, Fragments, HeldBy, Datagram, Grown, GroupsOpen;
    if e.Deliver? && IsMedia(e.d) {
      var gid, i :| Original(e.d, s.sent, s.size, gid, i);
      hide Sound;
      var m := DeliveryGrows(s, e.d, e.now, gid, i);
      OpenAfter(s, Next(s, e), m, gid, (if gid in s.groups then HeldBy(s.groups[gid]) else {}) + {i},
                if gid in s.groups then s.groups[gid].firstRecvUs else e.now, e.now);
    } else {
      hide Sound;
      QuietStep(s, e);
      OpenStays(s, Next(s, e));
    }
  }

  lemma OpenAfter(s: Link, t: Link, m: Media, gid: u32, got: set<nat>, first: int, now: int)
    requires GroupsOpen(s) && gid in s.sent && s.sent[gid].frameId % TWO32 == gid
    requires t.size == s.size && t.sent == s.sent && t.groups == m.groups
    requires Grown(m, s.groups, s.sent[gid], s.size, got, first, now)
    ensures GroupsOpen(t)
  {
    hide Fragments, HeldBy;
  }

  lemma OpenStays(s: Link, t: Link)
    requires GroupsOpen(s) && t.size == s.size && t.groups == s.groups
    requires forall gid :: gid in s.sent ==> gid in t.sent && t.sent[gid] == s.sent[gid]
    ensures GroupsOpen(t)
  {
    hide Fragments, HeldBy;
  }

  lemma {:induction false} RunIsOpen(states: seq<Link>, es: seq<Event>, n: nat)
    requires Run(states, es) && n <= |es|
    ensures GroupsOpen(states[n])
  {
    hide Next, Allowed, GroupsOpen, WellSized, Sound;
    if n == 0 {
      NoGroups(states[0]);
    } else {
      RunIsOpen(states, es, n - 1);
      RunIsSound(states, es, n - 1);
      NextKeepsOpen(states[n - 1], es[n - 1]);
    }
  }

  lemma NoGroups(s: Link)
    requires s.size > 0 && s == Start(s.size, s.capacity)
    ensures GroupsOpen(s)
  {
  }

  /** The datagrams of a frame delivered by steps n up to m. */
  ghost function Delivered(es: seq<Event>, n: nat, m: nat, f: Frame, size: nat): set<nat>
    requires n <= m <= |es| && size > 0
    decreases m
  {
    if m == n then {} else Delivered(es, n, m - 1, f, size) + Index(es[m - 1], f, size)
  }

  /** The group gid of state n, followed up to state m. */
  ghost predicate Followed(s: Link, t: Link, gid: u32, more: set<nat>)
    requires gid in s.groups
  {
    && gid in s.sent && s.size > 0 && t.size == s.size && s.sent[gid].frameId % TWO32 == gid
    && Tracked(t, |s.done|, s.sent[gid], HeldBy(s.groups[gid]) + more, s.groups[gid].firstRecvUs)
  }

  lemma FollowedFromHere(states: seq<Link>, es: seq<Event>, n: nat, gid: u32)
    requires Run(states, es) && n <= |es| && gid in states[n].groups
    ensures Followed(states[n], states[n], gid, {})
  {
    hide Run, Tracked, Sound, HeldBy, GroupsOpen, Faithful, Fragments, Sendable;
    RunShape(states, es);
    var s := states[n];
    RunIsSound(states, es, n);
    RunIsOpen(states, es, n);
    GroupKnown(s, gid);
    TrackedFromHere(s, gid);
    assert HeldBy(s.groups[gid]) + {} == HeldBy(s.groups[gid]);
  }

  lemma {:induction false} RunTracked(states: seq<Link>, es: seq<Event>, n: nat, m: nat, gid: u32)
    requires Run(states, es) && n <= m <= |es| && gid in states[n].groups
    requires forall k :: n <= k < m ==> InGroupLifetime(es[k], states[n], gid)
    ensures gid in states[n].sent && states[n].size > 0
    ensures Followed(states[n], states[m], gid, Delivered(es, n, m, states[n].sent[gid], states[n].size))
    decreases m
  {
    hide Run, Followed, InLifetime, Delivered;
    RunShape(states, es);
    var s := states[n];
    FollowedFromHere(states, es, n, gid);
    FollowedKnown(s, s, gid, {});
    if m == n {
      NoneDelivered(es, n, s.sent[gid], s.size);
    } else {
      RunTracked(states, es, n, m - 1, gid);
      FollowedFurther(states, es, n, m, gid);
    }
  }

  lemma FollowedKnown(s: Link, t: Link, gid: u32, more: set<nat>)
    requires gid in s.groups && Followed(s, t, gid, more)
    ensures gid in s.sent && s.size > 0 && s.sent[gid].frameId % TWO32 == gid
  {
    hide Tracked;
  }

  lemma FollowedFurther(states: seq<Link>, es: seq<Event>, n: nat, m: nat, gid: u32)
    requires Run(states, es) && n < m <= |es| && gid in states[n].groups && gid in states[n].sent && states[n].size > 0
    requires Followed(states[n], states[m - 1], gid, Delivered(es, n, m - 1, states[n].sent[gid], states[n].size))
    requires InLifetime(es[m - 1], states[n].sent[gid], states[n].size, states[n].groups[gid].firstRecvUs)
    ensures Followed(states[n], states[m], gid, Delivered(es, n, m, states[n].sent[gid], states[n].size))
  {
    hide Run, Tracked, InLifetime, Delivered, HeldBy;
    RunShape(states, es);
    var s := states[n];
    TrackedFurther(states, es, n, m, |s.done|, s.sent[gid], s.size, HeldBy(s.groups[gid]), s.groups[gid].firstRecvUs);
  }

  lemma TrackedFurther(states: seq<Link>, es: seq<Event>, n: nat, m: nat, before: nat, f: Frame, size: nat,
                       held: set<nat>,
                       first: int)
    requires Run(states, es) && n < m <= |es| && size > 0 && states[m - 1].size == size
    requires Tracked(states[m - 1], before, f, held + Delivered(es, n, m - 1, f, size), first)
    requires InLifetime(es[m - 1], f, size, first)
    ensures Tracked(states[m], before, f, held + Delivered(es, n, m, f, size), first) && states[m].size == size
  {
    hide Run, Next, Allowed, WellSized, Tracked, Sound, InLifetime, Index, Delivered;
    RunShape(states, es);
    RunIsSound(states, es, m - 1);
    RunStep(states, es, m - 1);
    var so := held + Delivered(es, n, m - 1, f, size);
    StepTracked(states[m - 1], es[m - 1], before, f, so, first);
    SameSize(states[m - 1], es[m - 1]);
    OneMoreDelivered(es, n, m, f, size);
    assert held + (Delivered(es, n, m - 1, f, size) + Index(es[m - 1], f, size)) == so + Index(es[m - 1], f, size);
  }

  lemma RunStep(states: seq<Link>, es: seq<Event>, k: nat)
    requires Run(states, es) && k < |es|
    ensures WellSized(states[k].groups) && states[k].size > 0 && Allowed(states[k], es[k])
    ensures states[k + 1] == Next(states[k], es[k])
  {
    hide WellSized, Allowed, Next;
  }

  lemma NoneDelivered(es: seq<Event>, n: nat, f: Frame, size: nat)
    requires n <= |es| && size > 0
    ensures Delivered(es, n, n, f, size) == {}
  {
  }

  lemma OneMoreDelivered(es: seq<Event>, n: nat, m: nat, f: Frame, size: nat)
    requires n < m <= |es| && size > 0
    ensures Delivered(es, n, m, f, size) == Delivered(es, n, m - 1, f, size) + Index(es[m - 1], f, size)
  {
    hide Index;
  }

  lemma SameSize(s: Link, e: Event)
    requires WellSized(s.groups) && s.size > 0
    ensures Next(s, e).size == s.size && Next(s, e).capacity == s.capacity
  {
    hide OnMediaSpec, Resends, JitterRuns.Step, LastArrived, Decode, IsMedia, WellSized;
  }

  lemma GroupKnown(s: Link, gid: u32)
    requires Sound(s) && gid in s.groups
    ensures s.size > 0 && gid in s.sent && s.sent[gid].frameId % TWO32 == gid && Sendable(s.sent[gid], s.size)
    ensures s.groups[gid].frags != [] && Faithful(s.groups[gid], s.sent[gid], s.size)
  {
    hide Sendable, Faithful;
  }

  lemma TrackedFromHere(s: Link, gid: u32)
    requires GroupsOpen(s) && gid in s.groups && gid in s.sent && s.sent[gid].frameId % TWO32 == gid
    ensures Tracked(s, |s.done|, s.sent[gid], HeldBy(s.groups[gid]), s.groups[gid].firstRecvUs)
  {
    hide HeldBy, Fragments;
  }

  /**
   * The erasure-code threshold on the whole link. From any reachable state, whatever else happens, a group is
   * handed on within its lifetime exactly when the datagrams it held and those delivered to it since
   * are at least as many as the frame has fragments.
   */
  lemma FinishesByThreshold(states: seq<Link>, es: seq<Event>, n: nat, m: nat, gid: u32)
    requires Run(states, es) && n <= m <= |es| && gid in states[n].groups
    requires forall k :: n <= k < m ==> InGroupLifetime(es[k], states[n], gid)
    ensures var s := states[n];
            && gid in s.sent && s.size > 0
            && (HandedOn(states[m], |s.done|, gid) <==>
                  |HeldBy(s.groups[gid]) + Delivered(es, n, m, s.sent[gid], s.size)| >= |Fragments(s.sent[gid],
                      s.size)|)
  {
    hide Run, HeldBy, Delivered, Fragments, HandedOn, InLifetime;
    RunTracked(states, es, n, m, gid);
  }

  /**
   * A request on the link. In every reachable state the request packet of a group names exactly the
   * fragments it lacks, and handling it puts the originals of just those still cached on the wire.
   */
  lemma RequestIsAnswered(states: seq<Link>, es: seq<Event>, n: nat, gid: u32)
    requires Run(states, es) && n <= |es| && gid in states[n].groups
    ensures var s := states[n];
            var g := s.groups[gid];
            && gid in s.sent && s.size > 0 && |g.frags| < 0x1_0000
            && SlotsOf(EmptySlots(g.frags), s.sent[gid], s.size)
            && (forall i: nat :: i in EmptySlots(g.frags) <==> i < |Fragments(s.sent[gid], s.size)| && i !in HeldBy(g))
            && Resends(Window(s.history, s.capacity), Requests(RequestPacket(g)[HEADER_SIZE..])) ==
               Originals(Window(s.history, s.capacity), s.sent[gid], s.size, EmptySlots(g.frags))
  {
    hide Run;
    RunShape(states, es);
    var s := states[n];
    RunIsSound(states, es, n);
    GroupKnown(s, gid);
    CacheIsFaithful(states, es, n, gid);
    hide Sound, Sendable, Faithful, Resends, Requests, RequestPacket, Originals, EmptySlots, HeldBy, Fragments,
         CacheFaithful;
    FaithfulHolds(s.groups[gid], s.sent[gid], s.size);
    RequestAnswered(s.groups[gid], s.sent[gid], s.size, HeldBy(s.groups[gid]), Window(s.history, s.capacity));
  }

  /**
   * The NACK loop closes on the link. Take any reachable state with an open group, all of whose missing
   * fragments are still cached, and let the server handle the group's request. The originals of all
   * of them are then on the wire, and in every continuation that delivers each of them within the
   * group's lifetime, whatever else it does, the frame is handed on.
   */
  lemma NackLoopClosesOnLink(states: seq<Link>, es: seq<Event>, n: nat, m: nat, gid: u32)
    requires Run(states, es) && n < m <= |es| && gid in states[n].groups
    requires gid in states[n].sent && states[n].size > 0 && |states[n].groups[gid].frags| < 0x1_0000
    requires es[n] == Resend(RequestPacket(states[n].groups[gid])[HEADER_SIZE..])
    requires var s := states[n];
             forall i :: i in EmptySlots(s.groups[gid].frags) ==> Cached(Window(s.history, s.capacity), s.sent[gid], i)
    requires forall k :: n <= k < m ==> InGroupLifetime(es[k], states[n], gid)
    ensures var s := states[n];
            forall i :: i in EmptySlots(s.groups[gid].frags) ==>
              i <= |Fragments(s.sent[gid], s.size)| && Datagram(s.sent[gid], s.size, i) in states[n + 1].wire
    ensures var s := states[n];
            (forall i :: i in EmptySlots(s.groups[gid].frags) ==> i in Delivered(es, n + 1, m, s.sent[gid], s.size)) ==>
              HandedOn(states[m], |s.done|, gid)
  {
    hide Run, Sound, Sendable, Faithful, Resends, Requests, RequestPacket, Originals, EmptySlots, HeldBy, Fragments,
         Cached,
         Datagram, InLifetime, Delivered, HandedOn, WellSized, Window, Allowed, Next;
    RunShape(states, es);
    var s, t := states[n], states[n + 1];
    RunStep(states, es, n);
    var f, g := s.sent[gid], s.groups[gid];
    var slots := EmptySlots(g.frags);
    RequestIsAnswered(states, es, n, gid);
    RequestLength(g);
    FinishesByThreshold(states, es, n, m, gid);
    AllCachedAllSent(Window(s.history, s.capacity), f, s.size, slots);
    forall i | i in slots
      ensures i <= |Fragments(f, s.size)| && Datagram(f, s.size, i) in t.wire
    {
      var a :| 0 <= a < |slots| && slots[a] == i;
      assert Originals(Window(s.history, s.capacity), f, s.size, slots)[a] == Datagram(f, s.size, i);
      ResentIsOnWire(s, RequestPacket(g)[HEADER_SIZE..], Datagram(f, s.size, i));
    }
    if forall i :: i in slots ==> i in Delivered(es, n + 1, m, f, s.size) {
      DeliveredLater(es, n, m, f, s.size);
      EnoughAltogether(HeldBy(g), Delivered(es, n, m, f, s.size), slots, |Fragments(f, s.size)|);
    }
  }

  lemma RequestLength(g: Group)
    requires |g.frags| < 0x1_0000
    ensures |RequestPacket(g)| >= HEADER_SIZE
  {
  }

  lemma ResentIsOnWire(s: Link, payload: bytes, d: bytes)
    requires WellSized(s.groups) && s.size > 0
    requires d in Resends(Window(s.history, s.capacity), Requests(payload))
    ensures d in Next(s, Resend(payload)).wire
  {
    hide Resends, Requests, Window, WellSized;
  }

  lemma {:induction false} DeliveredLater(es: seq<Event>, n: nat, m: nat, f: Frame, size: nat)
    requires n < m <= |es| && size > 0
    ensures Delivered(es, n + 1, m, f, size) <= Delivered(es, n, m, f, size)
    decreases m
  {
    hide Index;
    if m > n + 1 {
      DeliveredLater(es, n, m - 1, f, size);
    }
  }

  lemma EnoughAltogether(held: set<nat>, more: set<nat>, slots: seq<nat>, k: nat)
    requires forall i: nat :: i in slots <==> i < k && i !in held
    requires forall i :: i in slots ==> i in more
    ensures |held + more| >= k
  {
    forall i | i in Range(k)
      ensures i in held + more
    {
      assert i in slots || i in held;
    }
    SubsetSize(Range(k), held + more);
  }
}
