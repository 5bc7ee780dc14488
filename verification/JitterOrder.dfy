/**
 * What a run of the resequencing buffer promises its reader: units in increasing order, each at
 * most once, and a bounded wait for the next one.
 */
module JitterOrder {
  import opened Bytes
  import opened Options
  import opened Sets
  import opened JitterBuffers
  import opened JitterRuns

  // ---- bounded waiting ----

  /** The depth stays in its band, and a recorded gap is never older than the last pop. */
  ghost predicate Paced<T>(w: World<T>) {
    var p := w.st.pacing;
    && 0.0 <= p.jitterUs <= JITTER_CAP_US as real
    && MIN_DELAY_US <= p.targetUs <= MAX_DELAY_US
    && p.maxWaitUs == 2 * p.targetUs + 50_000
    && w.st.lastPopUs <= w.clock
    && (w.st.headMissingSinceUs != 0 ==> w.st.lastPopUs <= w.st.headMissingSinceUs <= w.clock)
  }

  lemma RetunedPaces(p: Pacing)
    ensures MIN_DELAY_US <= Retuned(p).targetUs <= MAX_DELAY_US
    ensures Retuned(p).maxWaitUs == 2 * Retuned(p).targetUs + 50_000
    ensures Retuned(p).jitterUs == p.jitterUs
  {
    hide Truncate;
  }

  lemma EwmaStays(j: real, d: int)
    requires 0.0 <= j <= JITTER_CAP_US as real
    ensures 0.0 <= Ewma(j, d) <= JITTER_CAP_US as real
  {
  }

  lemma EstimatedPaces(p: Pacing, gen: int, now: int)
    requires 0.0 <= p.jitterUs <= JITTER_CAP_US as real
    requires MIN_DELAY_US <= p.targetUs <= MAX_DELAY_US && p.maxWaitUs == 2 * p.targetUs + 50_000
    ensures var q := Estimated(p, gen, now);
            && 0.0 <= q.jitterUs <= JITTER_CAP_US as real
            && MIN_DELAY_US <= q.targetUs <= MAX_DELAY_US && q.maxWaitUs == 2 * q.targetUs + 50_000
  {
    hide Retuned, Ewma;
    var j := Ewma(p.jitterUs, (now - p.lastArrivalUs) - (gen - p.lastGenUs));
    EwmaStays(p.jitterUs, (now - p.lastArrivalUs) - (gen - p.lastGenUs));
    RetunedPaces(p.(jitterUs := j));
  }

  lemma PushPacing<T>(s: State<T>, q: u32, gen: int, data: T, now: int)
    ensures var r := PushSpec(s, q, gen, data, now);
            && (r.st.pacing == s.pacing || r.st.pacing == Estimated(s.pacing, gen, now))
            && r.st.lastPopUs == s.lastPopUs && r.st.headMissingSinceUs == s.headMissingSinceUs
  {
    hide Estimated, Scan, Evicted;
  }

  lemma {:induction false} PacingOverRuns<T>(maxUnits: nat, interval: int, es: seq<Event<T>>)
    requires TimelyRun(Fresh(maxUnits, interval), es)
    ensures Paced(Run(Fresh(maxUnits, interval), es))
  {
    hide Estimated, Retuned, PushSpec;
    if es != [] {
      var w, e := Run(Fresh(maxUnits, interval), es[..|es| - 1]), es[|es| - 1];
      PacingOverRuns(maxUnits, interval, es[..|es| - 1]);
      match e {
        case Push(q, gen, data, now) =>
          PushPacing(w.st, q, gen, data, now);
          EstimatedPaces(w.st.pacing, gen, now);
        case Pop(_) =>
        case SetRtt(ms) => RetunedPaces(w.st.pacing.(rttMs := ms));
      }
    }
  }

  lemma PopFailsWhilePaced<T>(w: World<T>, now: int)
    requires Paced(w) && w.clock <= now
    requires w.st.started && w.st.buf != map[]
    ensures PopSpec(w.st, now).out.None? <==>
              && now - w.st.lastPopUs <= w.st.pacing.targetUs
              && (w.st.nextOut in w.st.buf ==> now - w.st.buf[w.st.nextOut].firstRecvUs < w.st.pacing.targetUs)
  {
    hide Taken, MinKey;
  }

  /**
   * The wait for the head is bounded by the depth alone: after every run a pop on a non-empty buffer
   * fails exactly while the last pop is at most `target` ago and the next unit is missing or has been
   * held for less than `target`, and `target` is between 15 and 250 ms. The separate gap timeout plays no
   * part.
   */
  lemma PopFailsExactlyWhile<T>(maxUnits: nat, interval: int, es: seq<Event<T>>, now: int)
    requires TimelyRun(Fresh(maxUnits, interval), es)
    requires var w := Run(Fresh(maxUnits, interval), es); w.clock <= now && w.st.started && w.st.buf != map[]
    ensures var s := Run(Fresh(maxUnits, interval), es).st;
            var target := s.pacing.targetUs;
            && 15_000 <= target <= 250_000
            && (PopSpec(s, now).out.None? <==>
                  && now - s.lastPopUs <= target
                  && (s.nextOut in s.buf ==> now - s.buf[s.nextOut].firstRecvUs < target))
  {
    hide PopSpec, Run;
    PacingOverRuns(maxUnits, interval, es);
    PopFailsWhilePaced(Run(Fresh(maxUnits, interval), es), now);
  }

  // ---- order ----

  /** Numbers that stay clear of the 32-bit wrap: a half-range starting at base. */
  ghost predicate InWindow(q: u32, base: u32) {
    base <= q < base + HALF && q < TWO32 - 1
  }

  ghost predicate Increasing<T>(us: seq<Unit<T>>) {
    forall i, j :: 0 <= i < j < |us| ==> us[i].seqNo < us[j].seqNo
  }

  /** Re-aligning while something is still buffered. */
  ghost predicate Overleaps<T>(s: State<T>, q: u32) {
    s.started && Leaps(s.nextOut, q) && s.buf != map[]
  }

  ghost predicate Safe<T>(w: World<T>, e: Event<T>, base: u32) {
    e.Push? ==> InWindow(e.seqNo, base) && !Overleaps(w.st, e.seqNo)
  }

  ghost predicate SafeRun<T>(w: World<T>, es: seq<Event<T>>, base: u32) {
    es == [] || (SafeRun(w, es[..|es| - 1], base) && Safe(Run(w, es[..|es| - 1]), es[|es| - 1], base))
  }

  ghost predicate Ready<T>(s: State<T>, base: u32) {
    && WellKeyed(s.buf)
    && (forall k :: k in s.buf ==> s.nextOut <= k <= s.nextOut + LEAP && InWindow(k, base))
    && (if s.started then base <= s.nextOut <= base + HALF else s.buf == map[])
  }

  ghost predicate Genuine<T>(w: World<T>) {
    && (forall k :: k in w.st.buf ==> (w.st.buf[k].seqNo, w.st.buf[k].data) in w.accepted)
    && (forall u :: u in w.popped ==> (u.seqNo, u.data) in w.accepted)
  }

  ghost predicate Ordered<T>(w: World<T>, base: u32) {
    && Ready(w.st, base)
    && (!w.st.started ==> w.popped == [])
    && Increasing(w.popped)
    && (forall i :: 0 <= i < |w.popped| ==> w.popped[i].seqNo < w.st.nextOut)
  }

  lemma WindowCompare(q: u32, n: u32, base: u32)
    requires InWindow(q, base) && base <= n <= base + HALF
    ensures SeqLt(q, n) <==> q < n
    ensures q >= n ==> SeqDelta(q, n) == q - n
  {
  }

  lemma PushStaysReady<T>(s: State<T>, u: Unit<T>, r: PushResult<T>, base: u32)
    requires Ready(s, base) && InWindow(u.seqNo, base) && !Overleaps(s, u.seqNo)
    requires !(s.started && SeqLt(u.seqNo, s.nextOut))
    requires Shaped(s, u, r)
    ensures Ready(r.st, base)
    ensures s.started ==> s.nextOut <= r.st.nextOut
    ensures forall k :: k in r.st.buf ==> r.st.buf[k] == u || (k in s.buf && r.st.buf[k] == s.buf[k])
  {
    hide Evicted, SeqDelta, SeqLt;
    var at := if s.started then s.nextOut else u.seqNo;
    WindowCompare(u.seqNo, at, base);
    FilledFacts(s.buf, u);
    EvictedSizes(Filled(s.buf, u), s.maxUnits);
    forall k | k in r.st.buf
      ensures k in Filled(s.buf, u) && r.st.buf[k] == Filled(s.buf, u)[k]
    {
      EvictedKeeps(Filled(s.buf, u), s.maxUnits, k);
    }
  }

  lemma PushStaysOrdered<T>(w: World<T>, e: Event<T>, base: u32)
    requires Ordered(w, base) && Genuine(w) && e.Push? && Safe(w, e, base)
    ensures Ordered(Step(w, e), base) && Genuine(Step(w, e))
  {
    hide PushSpec, Shaped, Ready, Overleaps, SeqLt;
    var s, u := w.st, Unit(e.seqNo, e.genUs, e.now, e.data);
    var r := PushSpec(s, e.seqNo, e.genUs, e.data, e.now);
    if s.started && SeqLt(e.seqNo, s.nextOut) {
      PushRejected(s, e.seqNo, e.genUs, e.data, e.now);
    } else {
      PushShape(s, e.seqNo, e.genUs, e.data, e.now);
      ShapeAccepts(s, u, r);
      PushStaysReady(s, u, r, base);
    }
  }

  lemma ShapeAccepts<T>(s: State<T>, u: Unit<T>, r: PushResult<T>)
    requires Shaped(s, u, r)
    ensures r.ok && r.st.started
  {
  }

  /** A successful pop hands on the oldest number there is, and moves just past it. */
  lemma PopTakesTheOldest<T>(s: State<T>, now: int, base: u32)
    requires Ready(s, base) && PopSpec(s, now).out.Some?
    ensures var r := PopSpec(s, now);
            var u := r.out.value;
            && u.seqNo in s.buf && s.buf[u.seqNo] == u && r.st.buf == s.buf - {u.seqNo}
            && s.nextOut <= u.seqNo && r.st.nextOut == u.seqNo + 1
            && (forall k :: k in s.buf ==> u.seqNo <= k)
            && r.skipped == u.seqNo - s.nextOut
            && r.st.started == s.started && base <= r.st.nextOut <= base + HALF
  {
    hide Starved;
  }

  lemma PopStaysOrdered<T>(w: World<T>, e: Event<T>, base: u32)
    requires Ordered(w, base) && Genuine(w) && e.Pop?
    ensures Ordered(Step(w, e), base) && Genuine(Step(w, e))
  {
    hide PopSpec, InWindow, Ready, Genuine, Increasing;
    OrderedReady(w, base);
    PopOfNothing(w.st, e.now);
    var r := PopSpec(w.st, e.now);
    if r.out.Some? {
      PopTakesTheOldest(w.st, e.now, base);
      TakenStaysReady(w.st, r, base);
      OneMoreInOrder(w, r.out.value);
      PopStaysGenuine(w, e);
    } else {
      SameStaysReady(w.st, r.st, base);
      PopStaysGenuine(w, e);
    }
  }

  lemma OrderedReady<T>(w: World<T>, base: u32)
    requires Ordered(w, base)
    ensures Ready(w.st, base) && Increasing(w.popped)
  {
    hide Ready, Increasing;
  }

  lemma TakenStaysReady<T>(s: State<T>, r: PopResult<T>, base: u32)
    requires Ready(s, base) && r.out.Some?
    requires var u := r.out.value;
             && u.seqNo in s.buf && r.st.buf == s.buf - {u.seqNo} && r.st.nextOut == u.seqNo + 1
                 && r.st.started == s.started
             && base <= r.st.nextOut <= base + HALF && forall k :: k in s.buf ==> u.seqNo <= k
    requires s.nextOut <= r.out.value.seqNo
    ensures Ready(r.st, base) && r.st.started
  {
    hide InWindow;
  }

  lemma SameStaysReady<T>(s: State<T>, t: State<T>, base: u32)
    requires Ready(s, base) && t.buf == s.buf && t.nextOut == s.nextOut && t.started == s.started
    ensures Ready(t, base)
  {
    hide InWindow;
  }

  lemma OneMoreInOrder<T>(w: World<T>, u: Unit<T>)
    requires Increasing(w.popped) && forall i :: 0 <= i < |w.popped| ==> w.popped[i].seqNo < u.seqNo
    ensures Increasing(w.popped + [u])
  {
  }

  lemma PopOfNothing<T>(s: State<T>, now: int)
    ensures var r := PopSpec(s, now);
            r.out.None? ==>
              r.skipped == 0 && r.st.buf == s.buf && r.st.nextOut == s.nextOut && r.st.started == s.started
  {
    hide Starved;
  }

  lemma {:induction false} InOrderFrom<T>(w: World<T>, es: seq<Event<T>>, base: u32)
    requires Ordered(w, base) && Genuine(w) && SafeRun(w, es, base)
    ensures Ordered(Run(w, es), base) && Genuine(Run(w, es))
  {
    hide Ordered, Genuine, Safe, Overleaps, SetRttSpec, PushSpec, PopSpec;
    if es != [] {
      var v, e := Run(w, es[..|es| - 1]), es[|es| - 1];
      InOrderFrom(w, es[..|es| - 1], base);
      StepStaysOrdered(v, e, base);
    }
  }

  lemma StepStaysOrdered<T>(w: World<T>, e: Event<T>, base: u32)
    requires Ordered(w, base) && Genuine(w) && Safe(w, e, base)
    ensures Ordered(Step(w, e), base) && Genuine(Step(w, e))
  {
    hide Step, Ordered, Genuine, Safe;
    match e {
      case Push(_, _, _, _) => PushStaysOrdered(w, e, base);
      case Pop(_) => PopStaysOrdered(w, e, base);
      case SetRtt(_) => RttStaysOrdered(w, e, base);
    }
  }

  lemma RttStaysOrdered<T>(w: World<T>, e: Event<T>, base: u32)
    requires Ordered(w, base) && Genuine(w) && e.SetRtt?
    ensures Ordered(Step(w, e), base) && Genuine(Step(w, e))
  {
    hide Retuned;
  }

  /** Whatever the order, nothing is handed on that was not accepted. */
  lemma StaysGenuine<T>(w: World<T>, e: Event<T>)
    requires Genuine(w)
    ensures Genuine(Step(w, e))
  {
    hide Retuned;
    match e {
      case Push(q, gen, data, now) => hide PushSpec; PushStaysGenuine(w, e);
      case Pop(now) => hide PopSpec; PopStaysGenuine(w, e);
      case SetRtt(_) =>
    }
  }

  lemma PushStaysGenuine<T>(w: World<T>, e: Event<T>)
    requires Genuine(w) && e.Push?
    ensures Genuine(Step(w, e))
  {
    var s, u := w.st, Unit(e.seqNo, e.genUs, e.now, e.data);
    hide PushSpec, SeqLt, Evicted;
    var r := PushSpec(s, e.seqNo, e.genUs, e.data, e.now);
    if s.started && SeqLt(e.seqNo, s.nextOut) {
      PushRejected(s, e.seqNo, e.genUs, e.data, e.now);
    } else {
      PushShape(s, e.seqNo, e.genUs, e.data, e.now);
      forall k | k in r.st.buf
        ensures r.st.buf[k] == u || (k in s.buf && r.st.buf[k] == s.buf[k])
      {
        EvictedKeeps(Filled(s.buf, u), s.maxUnits, k);
      }
    }
  }

  lemma PopStaysGenuine<T>(w: World<T>, e: Event<T>)
    requires Genuine(w) && e.Pop?
    ensures Genuine(Step(w, e))
  {
    hide Starved, SeqDelta;
    var r := PopSpec(w.st, e.now);
    assert r.out.Some? ==> exists k :: k in w.st.buf && w.st.buf[k] == r.out.value;
  }

  lemma FreshIsOrdered<T>(maxUnits: nat, interval: int, base: u32)
    ensures Ordered<T>(Fresh(maxUnits, interval), base) && Genuine<T>(Fresh(maxUnits, interval))
  {
  }

  /**
   * In-order, at-most-once delivery: over every interleaving of pushes, pops and RTT updates, with
   * any duplicates, late arrivals, losses and overflows, the numbers handed on strictly increase
   * and every unit handed on was accepted under its number, as long as the numbers stay clear of
   * the 32-bit wrap and no push re-aligns past a unit that is still buffered.
   */
  lemma InOrderDelivery<T>(maxUnits: nat, interval: int, es: seq<Event<T>>, base: u32)
    requires SafeRun(Fresh(maxUnits, interval), es, base)
    ensures var w := Run(Fresh(maxUnits, interval), es);
            && Increasing(w.popped)
            && (forall u :: u in w.popped ==> (u.seqNo, u.data) in w.accepted)
  {
    hide Run, SafeRun;
    FreshIsOrdered<T>(maxUnits, interval, base);
    InOrderFrom(Fresh(maxUnits, interval), es, base);
  }

  // ---- and exactly when it holds ----

  ghost function Pops<T>(ts: seq<int>): seq<Event<T>> {
    seq(|ts|, i requires 0 <= i < |ts| => Pop(ts[i]))
  }

  lemma {:induction false} PopsAreSafe<T>(w: World<T>, ts: seq<int>, base: u32)
    ensures SafeRun(w, Pops<T>(ts), base)
  {
    if ts != [] {
      var n := |ts| - 1;
      assert Pops<T>(ts)[..n] == Pops<T>(ts[..n]);
      PopsAreSafe(w, ts[..n], base);
    }
  }

  /** Two late enough pops after a push that re-aligned past buffered units: newest first, then older. */
  lemma LeapInverts<T>(w: World<T>, e: Event<T>, base: u32) returns (t1: int, t2: int)
    requires Ordered(w, base) && Genuine(w) && |w.st.buf| <= w.st.maxUnits && w.st.maxUnits >= 2
    requires e.Push? && InWindow(e.seqNo, base) && Overleaps(w.st, e.seqNo)
    ensures TimelyRun(Step(w, e), Pops([t1, t2]))
    ensures !Increasing(Run(Step(w, e), Pops([t1, t2])).popped)
  {
    hide PushSpec, PopSpec, Ordered, Genuine, Starved, Leaps, Overleaps, InWindow, WellKeyed;
    var q := e.seqNo;
    var v := Step(w, e);
    var s1 := v.st;
    var k := LeapLeaves(w, e, base);
    t1 := LateEnough(s1, v.clock);
    var v1 := Step(v, Pop(t1));
    HeadIsTaken(s1, t1);
    var s2 := v1.st;
    t2 := LateEnough(s2, v1.clock);
    GapIsSkipped(s2, t2, k);
    var v2 := Step(v1, Pop(t2));
    var one, two := Pops<T>([t1]), Pops<T>([t1, t2]);
    assert one[..|one| - 1] == [] && one[|one| - 1] == Pop(t1);
    assert Run(v, one) == v1 && TimelyRun(v, one);
    assert two[..|two| - 1] == one && two[|two| - 1] == Pop(t2);
    assert Run(v, two) == v2 && TimelyRun(v, two);
    assert v2.popped[|w.popped|].seqNo == q && v2.popped[|w.popped| + 1].seqNo <= k;
  }

  lemma LateEnough<T>(s: State<T>, clock: int) returns (t: int)
    ensures t >= clock && Starved(s, t)
  {
    t := s.lastPopUs + s.pacing.targetUs + 1;
    t := if t < clock then clock else t;
  }

  lemma LeapLeaves<T>(w: World<T>, e: Event<T>, base: u32) returns (older: u32)
    requires Ordered(w, base) && |w.st.buf| <= w.st.maxUnits && w.st.maxUnits >= 2
    requires e.Push? && InWindow(e.seqNo, base) && Overleaps(w.st, e.seqNo)
    ensures var v, q := Step(w, e), e.seqNo;
            && v.popped == w.popped && v.st.started && v.st.nextOut == q
            && WellKeyed(v.st.buf)
            && q in v.st.buf && Next(q) !in v.st.buf
            && older in v.st.buf && older < q
  {
    hide PushSpec, SeqLt, SeqDelta, Evicted;
    var s, u := w.st, Unit(e.seqNo, e.genUs, e.now, e.data);
    var r := PushSpec(s, u.seqNo, e.genUs, e.data, e.now);
    PushShape(s, u.seqNo, e.genUs, e.data, e.now);
    FilledFacts(s.buf, u);
    var filled := Filled(s.buf, u);
    assert forall k :: k in s.buf ==> k < u.seqNo by {
      WindowCompare(u.seqNo, s.nextOut, base);
    }
    OneEviction(filled, s.maxUnits);
    EvictedSizes(filled, s.maxUnits);
    older := Another(r.st.buf, u.seqNo);
    EvictedKeeps(filled, s.maxUnits, older);
    if Next(u.seqNo) in r.st.buf {
      EvictedKeeps(filled, s.maxUnits, Next(u.seqNo));
    }
  }

  /** One unit too many costs the smallest one; the largest stays. */
  lemma OneEviction<T>(buf: map<u32, Unit<T>>, maxUnits: nat)
    requires |buf| <= maxUnits + 1
    ensures var kept := Evicted(buf, maxUnits).0;
            && (forall k, j :: k in buf && j in buf && j < k ==> k in kept)
            && |kept| == if |buf| <= maxUnits then |buf| else maxUnits
  {
    if |buf| > maxUnits {
      DropShrinks(buf, MinKey(buf.Keys));
    }
  }

  lemma Another<T>(buf: map<u32, T>, q: u32) returns (k: u32)
    requires |buf| >= 2
    ensures k in buf && k != q
  {
    if forall k :: k in buf ==> k == q {
      assert buf.Keys <= {q};
      SubsetSize(buf.Keys, {q});
      assert false;
    }
    k :| k in buf && k != q;
  }

  lemma HeadIsTaken<T>(s: State<T>, now: int)
    requires s.started && WellKeyed(s.buf) && s.nextOut in s.buf && Starved(s, now)
    ensures var r := PopSpec(s, now);
            r.out == Some(s.buf[s.nextOut]) && s.buf[s.nextOut].seqNo == s.nextOut
              && r.st.buf == s.buf - {s.nextOut} && r.st.nextOut == Next(s.nextOut) && r.st.started
                  && WellKeyed(r.st.buf)
  {
  }

  lemma GapIsSkipped<T>(s: State<T>, now: int, k: u32)
    requires s.started && WellKeyed(s.buf) && s.nextOut !in s.buf && Starved(s, now) && k in s.buf
    ensures var r := PopSpec(s, now); r.out.Some? && r.out.value.seqNo <= k
  {
  }

  /**
   * The guard is exact. After any safe run of a buffer of at least two units, one more push keeps
   * the order of everything handed on in every safe continuation if and only if it does not re-align past units
   * that are still buffered.
   */
  lemma OrderHingesOnLeaps<T>(maxUnits: nat, interval: int, es: seq<Event<T>>, e: Event<T>, base: u32)
    requires maxUnits >= 2
    requires SafeRun(Fresh(maxUnits, interval), es, base)
    requires e.Push? && InWindow(e.seqNo, base)
    ensures var w := Run(Fresh(maxUnits, interval), es);
            (forall fs :: SafeRun(Step(w, e), fs, base) && TimelyRun(Step(w, e), fs) ==>
                            Increasing(Run(Step(w, e), fs).popped))
              <==> !Overleaps(w.st, e.seqNo)
  {
    hide Step, Overleaps, Increasing, InWindow, WellKeyed, TimelyRun;
    var w := Run(Fresh(maxUnits, interval), es);
    FreshIsOrdered<T>(maxUnits, interval, base);
    InOrderFrom(Fresh(maxUnits, interval), es, base);
    SizesOverRuns<T>(maxUnits, interval, es);
    if Overleaps(w.st, e.seqNo) {
      var t1, t2 := LeapInverts(w, e, base);
      PopsAreSafe(Step(w, e), [t1, t2], base);
    } else {
      PushStaysOrdered(w, e, base);
      forall fs: seq<Event<T>> | SafeRun(Step(w, e), fs, base)
        ensures Increasing(Run(Step(w, e), fs).popped)
      {
        InOrderFrom(Step(w, e), fs, base);
      }
    }
  }

  // ---- sixteen-bit numbers ----

  /** The RTP link feeds the buffer plain 16-bit numbers. */
  ghost predicate Sixteen<T>(es: seq<Event<T>>) {
    forall i :: 0 <= i < |es| ==> es[i].Push? ==> es[i].seqNo < 0x1_0000
  }

  ghost predicate Stalled<T>(s: State<T>) {
    s.started && s.nextOut == 0x1_0000 && s.buf == map[]
  }

  /** A buffer that has moved past 65535 refuses every 16-bit number and hands nothing on. */
  lemma {:induction false} StalledForever<T>(w: World<T>, es: seq<Event<T>>)
    requires Stalled(w.st) && Sixteen(es)
    ensures var v := Run(w, es); Stalled(v.st) && v.popped == w.popped && v.accepted == w.accepted
  {
    hide Retuned;
    if es != [] {
      var front := es[..|es| - 1];
      StalledForever(w, front);
      match es[|es| - 1] {
        case Push(q, gen, data, now) => PushRejected(Run(w, front).st, q, gen, data, now);
        case Pop(_) =>
        case SetRtt(_) =>
      }
    }
  }

  /** 65535 was handed on. */
  ghost predicate LastHandedOn<T>(w: World<T>) {
    exists u :: u in w.popped && u.seqNo == 0xFFFF
  }

  /**
   * Which 16-bit numbers get in: after any safe run a push is accepted if and only if the buffer has not started or
   * the number is not below the read position. There is no wrapping at 16 bits: a number that
   * wrapped is refused as soon as the read position is past it.
   */
  lemma AcceptedExactly<T>(maxUnits: nat, interval: int, es: seq<Event<T>>, q: u32, gen: int, data: T, now: int)
    requires SafeRun(Fresh(maxUnits, interval), es, 0) && Sixteen(es) && q < 0x1_0000
    ensures var s := Run(Fresh(maxUnits, interval), es).st;
            PushSpec(s, q, gen, data, now).ok <==> !s.started || s.nextOut <= q
  {
    var s := Run(Fresh<T>(maxUnits, interval), es).st;
    FreshIsOrdered<T>(maxUnits, interval, 0);
    InOrderFrom(Fresh(maxUnits, interval), es, 0);
    hide Run, SafeRun, PushSpec;
    RefusedExactly(s, q, gen, data, now);
  }

  lemma RefusedExactly<T>(s: State<T>, q: u32, gen: int, data: T, now: int)
    requires Ready(s, 0) && q < 0x1_0000
    ensures PushSpec(s, q, gen, data, now).ok <==> !s.started || s.nextOut <= q
  {
    hide PushSpec, SeqLt, Shaped;
    if s.started {
      WindowCompare(q, s.nextOut, 0);
    }
    if s.started && SeqLt(q, s.nextOut) {
      PushRejected(s, q, gen, data, now);
    } else {
      PushShape(s, q, gen, data, now);
      ShapeAccepts(s, Unit(q, gen, now, data), PushSpec(s, q, gen, data, now));
    }
  }

  /**
   * The 16-bit wrap stops the buffer for good: after any safe run over 16-bit numbers, no 16-bit number is accepted
   * any more, whatever comes, if and only if 65535 was handed on; and then nothing is handed on any more.
   */
  lemma WrapStops<T(!new)>(maxUnits: nat, interval: int, es: seq<Event<T>>, x: T)
    requires SafeRun(Fresh(maxUnits, interval), es, 0) && Sixteen(es)
    ensures var w := Run(Fresh(maxUnits, interval), es);
            && ((forall more :: Sixteen(more) ==> Run(w, more).accepted == w.accepted) <==> LastHandedOn(w))
            && (LastHandedOn(w) ==> forall more :: Sixteen(more) ==> Run(w, more).popped == w.popped)
  {
    var w := Run(Fresh<T>(maxUnits, interval), es);
    FreshIsOrdered<T>(maxUnits, interval, 0);
    InOrderFrom(Fresh(maxUnits, interval), es, 0);
    AcceptedSixteen<T>(maxUnits, interval, es);
    hide Small, Ordered, Genuine, SafeRun, Stalled;
    if LastHandedOn(w) {
      PastTheEnd(w);
      forall more: seq<Event<T>> | Sixteen(more)
        ensures Run(w, more).accepted == w.accepted && Run(w, more).popped == w.popped
      {
        StalledForever(w, more);
      }
    } else {
      var more := [Push(0xFFFF, 0, x, 0)];
      LastIsAccepted(w, x);
      assert Sixteen(more);
    }
  }

  /** As long as 65535 was not handed on, it is still accepted. */
  lemma LastIsAccepted<T>(w: World<T>, x: T)
    requires Small(w) && Ordered(w, 0) && !LastHandedOn(w)
    ensures Run(w, [Push(0xFFFF, 0, x, 0)]).accepted != w.accepted
  {
    var e: Event<T> := Push(0xFFFF, 0, x, 0);
    hide PushSpec, InWindow;
    RefusedExactly(w.st, 0xFFFF, 0, x, 0);
    assert [e][..0] == [] && Run(w, [e]) == Step(w, e);
    assert |Step(w, e).accepted| == |w.accepted| + 1;
  }

  /**
   * It need not come to that: once 65534 was handed on, every number below 65535 is refused, although 65535 was
   * not handed on.
   */
  lemma RefusedBeforeTheEnd<T>(x: T, q: u32)
    requires q < 0xFFFF
    ensures var es := [Push(0xFFFE, 0, x, 1), Pop(1_000_000)];
            var w := Run(Fresh(1024, 10_000), es);
            && SafeRun(Fresh(1024, 10_000), es, 0) && Sixteen(es) && !LastHandedOn(w)
            && !PushSpec(w.st, q, 0, x, 1_000_001).ok && PushSpec(w.st, 0xFFFF, 0, x, 1_000_001).ok
  {
    var w0 := Fresh<T>(1024, 10_000);
    var push: Event<T>, pop: Event<T> := Push(0xFFFE, 0, x, 1), Pop(1_000_000);
    var one, es := [push], [push, pop];
    assert one[..0] == [] && es[..1] == one;
    var w1 := Step(w0, push);
    assert Run(w0, one) == w1 && Run(w0, es) == Step(w1, pop);
    FirstPush(w0, x);
    hide PushSpec;
    FirstPop(w1);
    assert SafeRun(w0, [], 0) && SafeRun(w0, one, 0);
    AcceptedExactly(1024, 10_000, es, q, 0, x, 1_000_001);
    AcceptedExactly(1024, 10_000, es, 0xFFFF, 0, x, 1_000_001);
  }

  lemma FirstPush<T>(w: World<T>, x: T)
    requires w == Fresh<T>(1024, 10_000)
    ensures var v := Step(w, Push(0xFFFE, 0, x, 1));
            && v.popped == [] && v.st.started && v.st.nextOut == 0xFFFE && v.st.lastPopUs == 0
            && v.st.buf == map[0xFFFE := Unit(0xFFFE, 0, 1, x)] && v.st.pacing.targetUs <= 250_000
  {
    hide PushSpec, SeqLt, SeqDelta, Leaps;
    PushShape(w.st, 0xFFFE, 0, x, 1);
    PushPacing(w.st, 0xFFFE, 0, x, 1);
    EstimatedPaces(w.st.pacing, 0, 1);
    NoLeap(0xFFFE);
    assert Filled(w.st.buf, Unit(0xFFFE, 0, 1, x)) == map[0xFFFE := Unit(0xFFFE, 0, 1, x)];
  }

  lemma NoLeap(q: u32)
    ensures !Leaps(q, q)
  {
  }

  lemma FirstPop<T>(w: World<T>)
    requires w.popped == [] && w.st.started && w.st.nextOut == 0xFFFE && w.st.lastPopUs == 0
    requires 0xFFFE in w.st.buf && w.st.buf[0xFFFE].seqNo == 0xFFFE && w.st.pacing.targetUs <= 250_000
    ensures var v := Step(w, Pop(1_000_000));
            v.popped == [w.st.buf[0xFFFE]] && v.st.started && v.st.nextOut == 0xFFFF
  {
  }

  ghost predicate Small<T>(w: World<T>) {
    && (forall p :: p in w.accepted ==> p.0 < 0x1_0000) && (w.st.started ==> w.st.nextOut <= 0x1_0000)
    && (w.st.started && w.st.nextOut == 0x1_0000 ==> LastHandedOn(w))
  }

  lemma {:induction false} AcceptedSixteen<T>(maxUnits: nat, interval: int, es: seq<Event<T>>)
    requires SafeRun(Fresh(maxUnits, interval), es, 0) && Sixteen(es)
    ensures Small(Run(Fresh<T>(maxUnits, interval), es))
  {
    hide Step, Safe, Ordered, Genuine;
    if es != [] {
      var front := es[..|es| - 1];
      AcceptedSixteen<T>(maxUnits, interval, front);
      FreshIsOrdered<T>(maxUnits, interval, 0);
      InOrderFrom(Fresh<T>(maxUnits, interval), front, 0);
      StepStaysSmall(Run(Fresh<T>(maxUnits, interval), front), es[|es| - 1]);
    }
  }

  lemma StepStaysSmall<T>(w: World<T>, e: Event<T>)
    requires Small(w) && Ordered(w, 0) && Genuine(w) && (e.Push? ==> e.seqNo < 0x1_0000)
    ensures Small(Step(w, e))
  {
    hide PushSpec, PopSpec, Retuned, Leaps, SeqLt, Evicted, InWindow;
    match e {
      case Push(q, gen, data, now) =>
        if w.st.started && SeqLt(q, w.st.nextOut) {
          PushRejected(w.st, q, gen, data, now);
        } else {
          PushShape(w.st, q, gen, data, now);
        }
      case Pop(now) =>
        PopOfNothing(w.st, now);
        if PopSpec(w.st, now).out.Some? {
          PopTakesTheOldest(w.st, now, 0);
          BufferSmall(w);
        }
      case SetRtt(_) =>
    }
  }

  lemma BufferSmall<T>(w: World<T>)
    requires Small(w) && Ordered(w, 0) && Genuine(w)
    ensures forall k :: k in w.st.buf ==> k < 0x1_0000
  {
    hide InWindow;
  }

  lemma PastTheEnd<T>(w: World<T>)
    requires Small(w) && Ordered(w, 0) && Genuine(w) && LastHandedOn(w)
    ensures Stalled(w.st)
  {
    BufferSmall(w);
    hide InWindow;
  }
}
