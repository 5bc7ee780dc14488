/** When a group finishes, and how the resend loop makes it finish. */
module UdpThreshold {
  import opened Bytes
  import opened Options
  import opened Sets
  import opened MediaTypes
  import opened Fec
  import opened NackManagers
  import opened UdpServers
  import opened UdpReceivers
  import opened UdpRepair

  /** Datagram i of the frame (K is the parity) arriving, with the capture time read off it and the clock. */
  datatype Arrival = Arrival(i: nat, captureUs: int, now: int)

  datatype Progress =
    | Collecting(groups: map<u32, Group>)
    | Delivered(out: Assembled)

  ghost predicate Plausible(f: Frame, size: nat, xs: seq<Arrival>) {
    Sendable(f, size) &&
    forall j :: 0 <= j < |xs| ==> xs[j].i <= |Fragments(f, size)| && xs[j].now - xs[0].now <= 250_000
  }

  /** The receiver fed with these arrivals until the frame is first handed on. */
  ghost function Fed(groups: map<u32, Group>, f: Frame, size: nat, xs: seq<Arrival>): Progress
    requires WellSized(groups) && Plausible(f, size, xs)
    ensures var p := Fed(groups, f, size, xs); p.Collecting? ==> WellSized(p.groups)
  {
    if xs == [] then Collecting(groups)
    else
      match Fed(groups, f, size, xs[..|xs| - 1])
      case Delivered(out) => Delivered(out)
      case Collecting(gs) =>
        var x := xs[|xs| - 1];
        OnMediaWellSized(gs, BlockHeader(f, size, x.i), Block(f, size, x.i), x.captureUs, x.now);
        var m := OnMediaSpec(gs, BlockHeader(f, size, x.i), Block(f, size, x.i), x.captureUs, x.now);
        if m.done.Some? then Delivered(m.done.value) else Collecting(m.groups)
  }

  function Seen(xs: seq<Arrival>): set<nat> {
    set x | x in xs :: x.i
  }

  // ---- counting slots ----

  function Below(s: set<nat>, n: nat): set<nat> {
    set i | i in s && i < n
  }

  ghost predicate FilledBy(frags: seq<bytes>, s: set<nat>) {
    forall i :: 0 <= i < |frags| ==> (frags[i] != [] <==> i in s)
  }

  lemma {:induction false} MissingCounts(frags: seq<bytes>, s: set<nat>)
    requires FilledBy(frags, s)
    ensures Missing(frags) + |Below(s, |frags|)| == |frags|
  {
    if frags == [] {
      assert Below(s, 0) == {};
    } else {
      var n := |frags| - 1;
      MissingCounts(frags[..n], s);
      if n in s {
        assert Below(s, n + 1) == Below(s, n) + {n};
      } else {
        assert Below(s, n + 1) == Below(s, n);
      }
    }
  }

  lemma SplitSeen(s: set<nat>, k: nat)
    requires forall i :: i in s ==> i <= k
    ensures |s| == |Below(s, k)| + if k in s then 1 else 0
  {
    if k in s {
      assert s == Below(s, k) + {k};
    } else {
      assert s == Below(s, k);
    }
  }

  /** A faithful group holding exactly the datagrams in s. */
  ghost predicate Holds(g: Group, f: Frame, size: nat, s: set<nat>)
    requires size > 0
  {
    && Faithful(g, f, size)
    && FilledBy(g.frags, s)
    && (g.fecSeen <==> |Fragments(f, size)| in s)
  }

  /** Such a group finishes exactly when K of the K + 1 datagrams are there. */
  lemma FinishesAtK(g: Group, f: Frame, size: nat, s: set<nat>, now: int)
    requires Sendable(f, size) && Holds(g, f, size, s)
    requires forall i :: i in s ==> i <= |Fragments(f, size)|
    ensures Judged(g, now).Finished? <==> |s| >= |Fragments(f, size)|
  {
    hide Fragments, Parity, RepairedFrags, AssembledFrom, NackPacket, MissingRequests;
    var k := |Fragments(f, size)|;
    MissingCounts(g.frags, s);
    SplitSeen(s, k);
    MissingAppend(g.frags, g.parity);
    FragmentsNonEmpty(f, size);
    BelowBound(s, k);
  }

  lemma {:induction false} BelowBound(s: set<nat>, k: nat)
    ensures |Below(s, k)| <= k
  {
    if k > 0 {
      BelowBound(s, k - 1);
      assert Below(s, k) <= Below(s, k - 1) + {k - 1};
      SubsetSize(Below(s, k), Below(s, k - 1) + {k - 1});
    } else {
      assert Below(s, 0) == {};
    }
  }

  lemma StoringHolds(g: Group, f: Frame, size: nat, s: set<nat>, i: nat)
    requires Sendable(f, size) && i <= |Fragments(f, size)| && Holds(g, f, size, s)
    ensures Holds(StoredBlock(g, f, size, i), f, size, s + {i})
  {
    hide Fragments, Parity;
    StoredFaithful(g, f, size, i);
    FragmentsNonEmpty(f, size);
  }

  // ---- the threshold ----

  ghost predicate Tracks(p: Progress, groups: map<u32, Group>, f: Frame, size: nat, xs: seq<Arrival>)
    requires Plausible(f, size, xs)
  {
    var gid := f.frameId % TWO32;
    match p
    case Delivered(out) => |Seen(xs)| >= |Fragments(f, size)| && exists whole :: Restored(out, whole, f, size)
    case Collecting(gs) =>
      && |Seen(xs)| < |Fragments(f, size)|
      && if xs == [] then gs == groups
         else OpenOn(gs, groups, f, size, Seen(xs), xs[0].now)
  }

  /** Nothing but this frame's group has changed, and it holds the datagrams in s. */
  ghost predicate OpenOn(gs: map<u32, Group>, groups: map<u32, Group>, f: Frame, size: nat, s: set<nat>, first: int)
    requires size > 0
  {
    var gid := f.frameId % TWO32;
    gid in gs && gs == groups[gid := gs[gid]] && gs[gid].firstRecvUs == first && Holds(gs[gid], f, size, s)
  }

  lemma OpenOnEarlier(gs: map<u32, Group>, mid: map<u32, Group>, groups: map<u32, Group>, y: Group, f: Frame, size: nat,
                      s: set<nat>, first: int)
    requires size > 0 && OpenOn(gs, mid, f, size, s, first) && mid == groups[f.frameId % TWO32 := y]
    ensures OpenOn(gs, groups, f, size, s, first)
  {
    hide Holds;
  }

  /** One more datagram for a group that already holds s (nothing, for a new group). */
  lemma OneMore(g0: Group, groups: map<u32, Group>, f: Frame, size: nat, s: set<nat>, x: Arrival, g1: Group)
    requires Sendable(f, size) && WellSized(groups) && x.i <= |Fragments(f, size)|
    requires g0 == if f.frameId % TWO32 in groups then groups[f.frameId % TWO32] else NEW_GROUP
    requires g1 == Admitted(g0, BlockHeader(f, size, x.i), x.captureUs, x.now)
    requires Holds(g1, f, size, s) && x.now - g1.firstRecvUs <= 250_000
    requires forall i :: i in s ==> i <= |Fragments(f, size)|
    ensures var m := OnMediaSpec(groups, BlockHeader(f, size, x.i), Block(f, size, x.i), x.captureUs, x.now);
            && (m.done.Some? <==> |s + {x.i}| >= |Fragments(f, size)|)
            && (m.done.Some? ==> exists whole :: Restored(m.done.value, whole, f, size))
            && (m.done.None? ==> OpenOn(m.groups, groups, f, size, s + {x.i}, g1.firstRecvUs))
  {
    assert size > 0;
    hide Admitted, Stored, Holds, Sendable, WellSized, Fragments, Judged, BlockHeader, Block, Restored, OnMediaSpec,
         StoredBlock, OpenOn, Faithful;
    HeaderFields(f, size, x.i);
    HoldsIsFaithful(g1, f, size, s);
    StoredFaithful(g1, f, size, x.i);
    StoringHolds(g1, f, size, s, x.i);
    var g2 := StoredBlock(g1, f, size, x.i);
    var t := s + {x.i};
    HoldsIsFaithful(g2, f, size, t);
    FaithfulSize(g2, f, size);
    FinishesAtK(g2, f, size, t, x.now);
    StoredKeepsTime(g1, f, size, x.i);
    MediaIsJudged(groups, BlockHeader(f, size, x.i), Block(f, size, x.i), x.captureUs, x.now, g2);
    if Judged(g2, x.now).Finished? {
      FinishedIsWhole(g2, f, size, x.now);
    } else {
      JudgedOpen(g2, groups, f, size, t, x.now);
    }
  }

  lemma StoredKeepsTime(g: Group, f: Frame, size: nat, i: nat)
    requires Sendable(f, size) && Faithful(g, f, size) && i <= |Fragments(f, size)|
    ensures StoredBlock(g, f, size, i).firstRecvUs == g.firstRecvUs
  {
  }

  lemma JudgedOpen(g: Group, groups: map<u32, Group>, f: Frame, size: nat, s: set<nat>, now: int)
    requires size > 0 && |g.frags| < 0x1_0000 && Holds(g, f, size, s)
    requires !Judged(g, now).Finished? && now - g.firstRecvUs <= 250_000
    ensures Judged(g, now).Waiting?
    ensures OpenOn(groups[f.frameId % TWO32 := Judged(g, now).g], groups, f, size, s, g.firstRecvUs)
  {
    hide Holds, Complete, Repairable, Missing, RepairedFrags, NackPacket, MissingRequests, AssembledFrom;
    HoldsKeepsNackTime(g, f, size, s, now);
  }

  lemma HoldsIsFaithful(g: Group, f: Frame, size: nat, s: set<nat>)
    requires size > 0 && Holds(g, f, size, s)
    ensures Faithful(g, f, size)
  {
  }

  lemma HoldsKeepsNackTime(g: Group, f: Frame, size: nat, s: set<nat>, now: int)
    requires size > 0 && Holds(g, f, size, s)
    ensures Holds(g.(lastNackUs := now), f, size, s)
  {
  }

  lemma FreshHolds(f: Frame, size: nat, x: Arrival)
    requires Sendable(f, size) && x.i <= |Fragments(f, size)|
    ensures var g := Admitted(NEW_GROUP, BlockHeader(f, size, x.i), x.captureUs, x.now);
            Holds(g, f, size, {}) && g.firstRecvUs == x.now
  {
    hide Fragments, BlockHeader, Parity;
    AdmittedFaithful(f, size, x.i, x.captureUs, x.now);
    HeaderFields(f, size, x.i);
  }

  lemma HeldIsAdmitted(g: Group, f: Frame, size: nat, s: set<nat>, h: UdpHeader, captureUs: int, now: int)
    requires Sendable(f, size) && Holds(g, f, size, s)
    ensures Admitted(g, h, captureUs, now) == g
  {
    FragmentsNonEmpty(f, size);
  }

  lemma SeenSnoc(xs: seq<Arrival>)
    requires xs != []
    ensures Seen(xs) == Seen(xs[..|xs| - 1]) + {xs[|xs| - 1].i}
  {
    var ys, x := xs[..|xs| - 1], xs[|xs| - 1];
    assert xs == ys + [x];
  }

  lemma SeenBound(f: Frame, size: nat, xs: seq<Arrival>)
    requires Plausible(f, size, xs)
    ensures forall i :: i in Seen(xs) ==> i <= |Fragments(f, size)|
  {
    hide Fragments;
  }

  lemma TrackFirst(groups: map<u32, Group>, f: Frame, size: nat, x: Arrival)
    requires WellSized(groups) && f.frameId % TWO32 !in groups
    requires Plausible(f, size, [x]) && x.i <= |Fragments(f, size)| && Sendable(f, size) && size > 0
    ensures var m := OnMediaSpec(groups, BlockHeader(f, size, x.i), Block(f, size, x.i), x.captureUs, x.now);
            Tracks(if m.done.Some? then Delivered(m.done.value) else Collecting(m.groups), groups, f, size, [x])
  {
    hide Fragments, Plausible, Sendable, Holds, WellSized, OnMediaSpec, BlockHeader, Block, Restored, Admitted, Seen,
         OpenOn;
    SeenSnoc([x]);
    NothingSeen();
    FreshHolds(f, size, x);
    OneMore(NEW_GROUP, groups, f, size, {}, x, Admitted(NEW_GROUP, BlockHeader(f, size, x.i), x.captureUs, x.now));
  }

  lemma TrackOneMore(groups: map<u32, Group>, gs: map<u32, Group>, f: Frame, size: nat, ys: seq<Arrival>, x: Arrival)
    requires WellSized(gs) && f.frameId % TWO32 !in groups
    requires Plausible(f, size, ys) && Plausible(f, size, ys + [x]) && x.i <= |Fragments(f, size)|
    requires Tracks(Collecting(gs), groups, f, size, ys)
    ensures var m := OnMediaSpec(gs, BlockHeader(f, size, x.i), Block(f, size, x.i), x.captureUs, x.now);
            Tracks(if m.done.Some? then Delivered(m.done.value) else Collecting(m.groups), groups, f, size, ys + [x])
  {
    assert (ys + [x])[|ys|] == x && (ys + [x])[..|ys|] == ys;
    hide Fragments, Plausible, Sendable, Holds, WellSized, OnMediaSpec, BlockHeader, Block, Restored, Admitted, Seen,
         OpenOn;
    PlausibleSendable(f, size, ys);
    if ys == [] {
      assert [] + [x] == [x];
      TrackFirst(groups, f, size, x);
    } else {
      var first, gid, h := ys[0].now, f.frameId % TWO32, BlockHeader(f, size, x.i);
      var m := OnMediaSpec(gs, h, Block(f, size, x.i), x.captureUs, x.now);
      assert (ys + [x])[0].now == first;
      SeenBound(f, size, ys);
      SeenSnoc(ys + [x]);
      OpenOnGroup(gs, groups, f, size, Seen(ys), first);
      HeldIsAdmitted(gs[gid], f, size, Seen(ys), h, x.captureUs, x.now);
      OneMore(gs[gid], gs, f, size, Seen(ys), x, gs[gid]);
      if m.done.None? {
        OpenOnEarlier(m.groups, gs, groups, gs[gid], f, size, Seen(ys + [x]), first);
      }
    }
  }

  lemma PlausibleSendable(f: Frame, size: nat, xs: seq<Arrival>)
    requires Plausible(f, size, xs)
    ensures Sendable(f, size) && size > 0
  {
  }

  lemma OpenOnGroup(gs: map<u32, Group>, groups: map<u32, Group>, f: Frame, size: nat, s: set<nat>, first: int)
    requires size > 0 && OpenOn(gs, groups, f, size, s, first)
    ensures var gid := f.frameId % TWO32;
            gid in gs && gs == groups[gid := gs[gid]] && gs[gid].firstRecvUs == first && Holds(gs[gid], f, size, s)
  {
  }

  lemma {:induction false} Tracking(groups: map<u32, Group>, f: Frame, size: nat, xs: seq<Arrival>)
    requires WellSized(groups) && Plausible(f, size, xs) && f.frameId % TWO32 !in groups
    ensures Tracks(Fed(groups, f, size, xs), groups, f, size, xs)
  {
    assert size > 0;
    hide Fragments, Sendable, Holds, WellSized, OnMediaSpec, BlockHeader, Block, Restored, Seen;
    if xs == [] {
      FragmentsSome(f, size);
      NothingSeen();
    } else {
      var ys, x := xs[..|xs| - 1], xs[|xs| - 1];
      assert xs == ys + [x];
      Tracking(groups, f, size, ys);
      var p := Fed(groups, f, size, ys);
      if p.Delivered? {
        SeenSnoc(xs);
        SubsetSize(Seen(ys), Seen(xs));
      } else {
        hide Tracks;
        TrackOneMore(groups, p.groups, f, size, ys, x);
      }
    }
  }

  lemma NothingSeen()
    ensures Seen([]) == {}
  {
  }

  lemma FragmentsSome(f: Frame, size: nat)
    requires size > 0
    ensures |Fragments(f, size)| > 0
  {
  }

  /**
   * The erasure-code threshold. Feed a receiver that has no group for the frame any arrivals of its
   * K fragments and the parity, in any order and with any duplicates, within 250 ms of the first:
   * the frame is first handed on exactly with the K-th distinct datagram, whichever K of the K + 1
   * they are, and until then every other group is left alone.
   */
  lemma ErasureThreshold(groups: map<u32, Group>, f: Frame, size: nat, xs: seq<Arrival>)
    requires WellSized(groups) && Plausible(f, size, xs) && f.frameId % TWO32 !in groups
    ensures var p := Fed(groups, f, size, xs);
            && (p.Delivered? <==> |Seen(xs)| >= |Fragments(f, size)|)
            && (p.Delivered? ==> exists whole :: Restored(p.out, whole, f, size))
            && (p.Collecting? ==> p.groups - {f.frameId % TWO32} == groups)
  {
    hide Fragments, Fed, Restored, Seen, Holds;
    Tracking(groups, f, size, xs);
    var p, gid := Fed(groups, f, size, xs), f.frameId % TWO32;
    if p.Collecting? && xs != [] {
      assert p.groups == groups[gid := p.groups[gid]];
      assert p.groups - {gid} == groups;
    } else if p.Collecting? {
      assert groups - {gid} == groups;
    }
  }

  // ---- the resend loop ----

  /** Indices of the empty slots, ascending. */
  function EmptySlots(frags: seq<bytes>): seq<nat> {
    if frags == [] then []
    else
      var n := |frags| - 1;
      EmptySlots(frags[..n]) + if frags[n] == [] then [n] else []
  }

  lemma {:induction false} EmptySlotsMeaning(frags: seq<bytes>, i: nat)
    ensures i in EmptySlots(frags) <==> i < |frags| && frags[i] == []
    ensures forall a, b :: 0 <= a < b < |EmptySlots(frags)| ==> EmptySlots(frags)[a] < EmptySlots(frags)[b]
    ensures forall a :: 0 <= a < |EmptySlots(frags)| ==> EmptySlots(frags)[a] < |frags|
  {
    if frags != [] {
      EmptySlotsMeaning(frags[..|frags| - 1], i);
    }
  }

  lemma {:induction false} RequestsNameEmptySlots(frameId: u32, frags: seq<bytes>)
    requires |frags| < 0x1_0000
    ensures |MissingRequests(frameId, frags)| == |EmptySlots(frags)|
    ensures forall a :: 0 <= a < |EmptySlots(frags)| ==>
              EmptySlots(frags)[a] < 0x1_0000
                  && MissingRequests(frameId, frags)[a] == Request(frameId, EmptySlots(frags)[a])
  {
    if frags != [] {
      RequestsNameEmptySlots(frameId, frags[..|frags| - 1]);
    }
  }

  /** The server reads exactly the receiver's requests out of a request packet. */
  lemma NackPacketRoundTrip(rs: seq<Request>)
    ensures Requests(NackPacket(rs)[HEADER_SIZE..]) == rs
  {
    hide Encode, Requests, EncodeRequests;
    RequestsRoundTrip(rs);
    var h := BLANK.(payloadType := NACK, payloadLen := RECORD * |rs| % 0x1_0000);
    assert (Encode(h) + EncodeRequests(rs))[HEADER_SIZE..] == EncodeRequests(rs);
  }

  /** Every entry of this frame's fragments in the cache is the fragment's original datagram. */
  ghost predicate CacheFaithful(items: seq<Sent>, f: Frame, size: nat)
    requires size > 0
  {
    forall s :: s in items && s.groupId == f.frameId % TWO32 && s.fragmentSeq < |Fragments(f, size)| ==>
      s.raw == Datagram(f, size, s.fragmentSeq)
  }

  ghost predicate Cached(items: seq<Sent>, f: Frame, i: nat) {
    i < 0x1_0000 && exists j :: 0 <= j < |items| && Has(items[j], f.frameId % TWO32, i)
  }

  lemma FindGivesOriginal(items: seq<Sent>, f: Frame, size: nat, i: nat)
    requires size > 0 && CacheFaithful(items, f, size) && i < |Fragments(f, size)| && i < 0x1_0000
    ensures FindLast(items, f.frameId % TWO32, i) ==
            if Cached(items, f, i) then Some(Datagram(f, size, i)) else None
  {
    hide Fragments, Datagram;
    var j := FindLastMeaning(items, f.frameId % TWO32, i);
  }

  ghost predicate SlotsOf(slots: seq<nat>, f: Frame, size: nat)
    requires size > 0
  {
    forall a :: 0 <= a < |slots| ==> slots[a] < |Fragments(f, size)| && slots[a] < 0x1_0000
  }

  /** The answer to the requests for some slots: the originals of those still cached, in that order. */
  ghost function Originals(items: seq<Sent>, f: Frame, size: nat, slots: seq<nat>): seq<bytes>
    requires size > 0 && SlotsOf(slots, f, size)
  {
    if slots == [] then []
    else
      var n := |slots| - 1;
      Originals(items, f, size, slots[..n]) + if Cached(items, f, slots[n]) then [Datagram(f, size, slots[n])] else []
  }

  lemma {:induction false} ResendsAreOriginals(items: seq<Sent>, f: Frame, size: nat, rs: seq<Request>, slots: seq<nat>)
    requires size > 0 && CacheFaithful(items, f, size) && |rs| == |slots| && SlotsOf(slots, f, size)
    requires forall a :: 0 <= a < |slots| ==> rs[a] == Request(f.frameId % TWO32, slots[a])
    ensures Resends(items, rs) == Originals(items, f, size, slots)
  {
    hide Fragments, Datagram, FindLast, Cached, CacheFaithful;
    if slots != [] {
      var n := |slots| - 1;
      ResendsAreOriginals(items, f, size, rs[..n], slots[..n]);
      FindGivesOriginal(items, f, size, slots[n]);
    }
  }

  lemma {:induction false} AllCachedAllSent(items: seq<Sent>, f: Frame, size: nat, slots: seq<nat>)
    requires size > 0 && SlotsOf(slots, f, size)
    requires forall a :: 0 <= a < |slots| ==> Cached(items, f, slots[a])
    ensures |Originals(items, f, size, slots)| == |slots|
    ensures forall a :: 0 <= a < |slots| ==> Originals(items, f, size, slots)[a] == Datagram(f, size, slots[a])
  {
    hide Fragments, Datagram, Cached;
    if slots != [] {
      AllCachedAllSent(items, f, size, slots[..|slots| - 1]);
    }
  }

  /** The request packet the receiver sends for a group. */
  function RequestPacket(g: Group): bytes
    requires |g.frags| < 0x1_0000
  {
    NackPacket(MissingRequests(g.frameId, g.frags))
  }

  /** What on_media asks the server for is the request packet of the group it leaves behind. */
  lemma AskedIsRequest(groups: map<u32, Group>, h: UdpHeader, payload: bytes, captureUs: int, now: int)
    requires WellSized(groups)
    ensures var m := OnMediaSpec(groups, h, payload, captureUs, now);
            m.asked != [] && h.groupId in m.groups ==>
              |m.groups[h.groupId].frags| < 0x1_0000 && m.asked == [RequestPacket(m.groups[h.groupId])]
  {
    hide NackPacket, MissingRequests, Missing, Complete, Repairable, RepairedFrags, AssembledFrom;
    OnMediaWellSized(groups, h, payload, captureUs, now);
  }

  lemma HoldsSizes(g: Group, f: Frame, size: nat, s: set<nat>)
    requires Sendable(f, size) && Holds(g, f, size, s)
    ensures |g.frags| == |Fragments(f, size)| < 0x1_0000 && g.frameId == f.frameId % TWO32
    ensures forall i :: 0 <= i < |g.frags| ==> (g.frags[i] == [] <==> i !in s)
    ensures size > 0
  {
  }

  lemma SlotsAreMissing(frags: seq<bytes>, s: set<nat>)
    requires forall i :: 0 <= i < |frags| ==> (frags[i] == [] <==> i !in s)
    ensures forall i: nat :: i in EmptySlots(frags) <==> i < |frags| && i !in s
    ensures forall a :: 0 <= a < |EmptySlots(frags)| ==> EmptySlots(frags)[a] < |frags|
  {
    hide EmptySlots;
    forall i: nat
      ensures i in EmptySlots(frags) <==> i < |frags| && i !in s
    {
      EmptySlotsMeaning(frags, i);
    }
    EmptySlotsMeaning(frags, 0);
  }

  /**
   * The request packet of a group names exactly the fragments it lacks, lowest first, and the
   * server answers it with the byte-identical originals of just those that are still in its cache.
   */
  lemma RequestAnswered(g: Group, f: Frame, size: nat, s: set<nat>, items: seq<Sent>)
    requires Sendable(f, size) && Holds(g, f, size, s) && CacheFaithful(items, f, size)
    ensures |g.frags| < 0x1_0000 && SlotsOf(EmptySlots(g.frags), f, size)
    ensures forall i: nat :: i in EmptySlots(g.frags) <==> i < |Fragments(f, size)| && i !in s
    ensures Resends(items, Requests(RequestPacket(g)[HEADER_SIZE..])) == Originals(items, f, size, EmptySlots(g.frags))
  {
    HoldsSizes(g, f, size, s);
    hide Fragments, Holds, Sendable, Resends, Requests, NackPacket, Originals, MissingRequests, EmptySlots,
         CacheFaithful;
    var slots := EmptySlots(g.frags);
    SlotsAreMissing(g.frags, s);
    RequestsNameEmptySlots(g.frameId, g.frags);
    NackPacketRoundTrip(MissingRequests(g.frameId, g.frags));
    ResendsAreOriginals(items, f, size, MissingRequests(g.frameId, g.frags), slots);
  }

  /** The group being collected after some arrivals. */
  ghost function Collected(groups: map<u32, Group>, f: Frame, size: nat, xs: seq<Arrival>): Group
    requires WellSized(groups) && Plausible(f, size, xs) && f.frameId % TWO32 !in groups
    requires xs != [] && Fed(groups, f, size, xs).Collecting?
    ensures Holds(Collected(groups, f, size, xs), f, size, Seen(xs))
  {
    hide Holds, Fed, Restored;
    Tracking(groups, f, size, xs);
    Fed(groups, f, size, xs).groups[f.frameId % TWO32]
  }

  /**
   * The NACK loop closes. If every fragment a collecting group lacks is still in the sender's cache,
   * the answer to its request packet is the originals of all of them, and their arrival within
   * the group's lifetime hands the frame on.
   */
  lemma NackLoopCloses(groups: map<u32, Group>, f: Frame, size: nat, xs: seq<Arrival>, items: seq<Sent>,
                       back: seq<Arrival>)
    requires WellSized(groups) && f.frameId % TWO32 !in groups && xs != []
    requires Plausible(f, size, xs) && Plausible(f, size, xs + back)
    requires Fed(groups, f, size, xs).Collecting? && CacheFaithful(items, f, size)
    requires var slots := EmptySlots(Collected(groups, f, size, xs).frags);
             && (forall i :: i in slots ==> Cached(items, f, i))
             && |back| == |slots| && forall a :: 0 <= a < |back| ==> back[a].i == slots[a]
    ensures var g := Collected(groups, f, size, xs);
            && |g.frags| < 0x1_0000
            && var answer := Resends(items, Requests(RequestPacket(g)[HEADER_SIZE..]));
               |answer| == |back| && forall a :: 0 <= a < |back| ==>
                 back[a].i <= |Fragments(f, size)| && answer[a] == Datagram(f, size, back[a].i)
    ensures Fed(groups, f, size, xs + back).Delivered?
  {
    PlausibleBack(f, size, xs, back);
    hide Fragments, Fed, Resends, Requests, RequestPacket, Originals, Datagram, Seen, EmptySlots, CacheFaithful, Cached,
         Restored, Holds, Collected, Sendable, Plausible, WellSized, SlotsOf;
    var g := Collected(groups, f, size, xs);
    var slots := EmptySlots(g.frags);
    RequestAnswered(g, f, size, Seen(xs), items);
    AllCachedAllSent(items, f, size, slots);
    AllSeenAfter(f, size, xs, back, slots);
    ErasureThreshold(groups, f, size, xs + back);
  }

  lemma PlausibleBack(f: Frame, size: nat, xs: seq<Arrival>, back: seq<Arrival>)
    requires Plausible(f, size, xs + back)
    ensures size > 0 && Sendable(f, size) && forall a :: 0 <= a < |back| ==> back[a].i <= |Fragments(f, size)|
  {
    hide Fragments;
    forall a | 0 <= a < |back|
      ensures back[a].i <= |Fragments(f, size)|
    {
      assert (xs + back)[|xs| + a] == back[a];
    }
  }

  lemma AllSeenAfter(f: Frame, size: nat, xs: seq<Arrival>, back: seq<Arrival>, slots: seq<nat>)
    requires size > 0 && |back| == |slots| && forall a :: 0 <= a < |back| ==> back[a].i == slots[a]
    requires forall i: nat :: i in slots <==> i < |Fragments(f, size)| && i !in Seen(xs)
    ensures |Seen(xs + back)| >= |Fragments(f, size)|
  {
    hide Fragments;
    var k := |Fragments(f, size)|;
    forall i | i in Range(k)
      ensures i in Seen(xs + back)
    {
      if i in Seen(xs) {
        var x :| x in xs && x.i == i;
        assert x in xs + back;
      } else {
        assert i in slots;
        var a :| 0 <= a < |slots| && slots[a] == i;
        assert (xs + back)[|xs| + a] == back[a];
        assert back[a] in xs + back;
      }
    }
    SubsetSize(Range(k), Seen(xs + back));
  }

  function Range(k: nat): (s: set<nat>)
    ensures |s| == k
    ensures forall i: nat :: i in s <==> i < k
  {
    if k == 0 then {} else Range(k - 1) + {k - 1}
  }
}
