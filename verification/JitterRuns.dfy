/**
 * Whole runs of the resequencing buffer: any interleaving of pushes, pops and RTT updates, with
 * duplicates, late arrivals and losses, and what they keep.
 */
module JitterRuns {
  import opened Bytes
  import opened JitterBuffers

  datatype Event<T> =
    | Push(seqNo: u32, genUs: int, data: T, now: int)
    | Pop(now: int)
    | SetRtt(ms: real)

  /** A buffer together with everything that went in and out of it so far. */
  datatype World<T> = World(
    st: State<T>,
    clock: int,
    first: u32,                 // the number the buffer started from
    accepted: seq<(u32, T)>,    // every push that returned true
    inserted: seq<Unit<T>>,     // the units that were put into the map
    popped: seq<Unit<T>>,
    evicted: seq<Unit<T>>,
    skipped: nat,
    realigned: nat)

  ghost function Fresh<T>(maxUnits: nat, nackIntervalUs: int): World<T> {
    World(Initial(maxUnits, nackIntervalUs), 0, 0, [], [], [], [], 0, 0)
  }

  ghost function Step<T>(w: World<T>, e: Event<T>): World<T> {
    match e
    case Push(q, gen, data, now) =>
      var r := PushSpec(w.st, q, gen, data, now);
      w.(st := r.st, clock := now,
         first := if w.st.started then w.first else q,
         accepted := if r.ok then w.accepted + [(q, data)] else w.accepted,
         inserted := if r.isNew then w.inserted + [Unit(q, gen, now, data)] else w.inserted,
         evicted := w.evicted + r.evicted,
         realigned := w.realigned + r.jumped)
    case Pop(now) =>
      var r := PopSpec(w.st, now);
      w.(st := r.st, clock := now,
         popped := if r.out.Some? then w.popped + [r.out.value] else w.popped,
         skipped := w.skipped + r.skipped)
    case SetRtt(ms) => w.(st := SetRttSpec(w.st, ms))
  }

  ghost function Run<T>(w: World<T>, es: seq<Event<T>>): World<T> {
    if es == [] then w else Step(Run(w, es[..|es| - 1]), es[|es| - 1])
  }

  /** The clock never runs backwards. */
  ghost predicate Timely<T>(w: World<T>, e: Event<T>) {
    e.SetRtt? || w.clock <= e.now
  }

  ghost predicate TimelyRun<T>(w: World<T>, es: seq<Event<T>>) {
    es == [] || (TimelyRun(w, es[..|es| - 1]) && Timely(Run(w, es[..|es| - 1]), es[|es| - 1]))
  }

  // ---- facts about one eviction pass and one scan ----

  ghost predicate WellKeyed<T>(buf: map<u32, Unit<T>>) {
    forall k :: k in buf ==> buf[k].seqNo == k
  }

  /** How often a unit is held: 0 or 1, since it can only sit under its own number. */
  ghost function Held<T>(buf: map<u32, Unit<T>>, u: Unit<T>): nat {
    if u.seqNo in buf && buf[u.seqNo] == u then 1 else 0
  }

  ghost function Count<T>(us: seq<Unit<T>>, u: Unit<T>): nat {
    if us == [] then 0 else Count(us[..|us| - 1], u) + if us[|us| - 1] == u then 1 else 0
  }

  lemma CountSnoc<T>(us: seq<Unit<T>>, x: Unit<T>, u: Unit<T>)
    ensures Count(us + [x], u) == Count(us, u) + if x == u then 1 else 0
  {
    assert (us + [x])[..|us|] == us;
  }

  lemma {:induction false} CountAppend<T>(a: seq<Unit<T>>, b: seq<Unit<T>>, u: Unit<T>)
    ensures Count(a + b, u) == Count(a, u) + Count(b, u)
  {
    if b == [] {
      assert a + b == a;
    } else {
      var c, x := b[..|b| - 1], b[|b| - 1];
      CountAppend(a, c, u);
      assert b == c + [x];
      assert a + b == (a + c) + [x];
      CountSnoc(a + c, x, u);
    }
  }

  lemma {:induction false} EvictedSizes<T>(buf: map<u32, Unit<T>>, maxUnits: nat)
    requires WellKeyed(buf)
    ensures var (kept, out) := Evicted(buf, maxUnits);
            && WellKeyed(kept)
            && |kept| <= maxUnits
            && |kept| + |out| == |buf|
    decreases |buf|
  {
    if |buf| > maxUnits {
      var k := MinKey(buf.Keys);
      DropShrinks(buf, k);
      EvictedSizes(buf - {k}, maxUnits);
    }
  }

  lemma {:induction false} EvictedKeeps<T>(buf: map<u32, Unit<T>>, maxUnits: nat, k: u32)
    requires k in Evicted(buf, maxUnits).0
    ensures k in buf && Evicted(buf, maxUnits).0[k] == buf[k]
    decreases |buf|
  {
    if |buf| > maxUnits {
      var m := MinKey(buf.Keys);
      DropShrinks(buf, m);
      EvictedKeeps(buf - {m}, maxUnits, k);
    }
  }

  /** An eviction pass only moves units: each is still held or is in the evicted list, never both. */
  lemma {:induction false} EvictedMoves<T>(buf: map<u32, Unit<T>>, maxUnits: nat, u: Unit<T>)
    requires WellKeyed(buf)
    ensures var (kept, out) := Evicted(buf, maxUnits); Held(buf, u) == Held(kept, u) + Count(out, u)
    decreases |buf|
  {
    if |buf| > maxUnits {
      var k := MinKey(buf.Keys);
      DropShrinks(buf, k);
      EvictedMoves(buf - {k}, maxUnits, u);
      var out := Evicted(buf - {k}, maxUnits).1;
      CountAppend([buf[k]], out, u);
      CountSnoc([], buf[k], u);
      assert [] + [buf[k]] == [buf[k]];
    }
  }

  // ---- conservation ----

  /**
   * The books of a run, whatever happened in it (realigns, wraps and overflows included):
   * every unit ever inserted was popped, was evicted or is still held, exactly once;
   * the read position is the first number plus everything popped, skipped and re-aligned over;
   * the loss counter holds the skipped numbers plus the evicted units;
   * the unit counter overstates the buffer by exactly the evictions;
   * and the buffer never holds more than its limit.
   */
  ghost predicate Balanced<T(!new)>(w: World<T>) {
    && WellKeyed(w.st.buf)
    && (forall u :: Conserved(w, u))
    && w.st.netLost == w.skipped + |w.evicted|
    && w.st.totalBuffered == |w.st.buf| + |w.evicted|
    && |w.st.buf| <= w.st.maxUnits
    && if w.st.started then w.st.nextOut == Wrap(w.first + |w.popped| + w.skipped + w.realigned)
       else w.st.buf == map[] && w.popped == [] && w.skipped == 0 && w.realigned == 0 && w.evicted == []
  }

  ghost predicate Conserved<T>(w: World<T>, u: Unit<T>) {
    Count(w.inserted, u) == Count(w.popped, u) + Count(w.evicted, u) + Held(w.st.buf, u)
  }

  /** The 32-bit value of an unbounded count. */
  function Wrap(n: nat): u32 {
    if n < TWO32 then n else Wrap(n - TWO32)
  }

  lemma {:induction false} WrapIsModulo(n: nat)
    ensures Wrap(n) == n % TWO32
  {
    if n >= TWO32 {
      WrapIsModulo(n - TWO32);
    }
  }

  lemma {:induction false} WrapShift(base: nat, d: nat)
    ensures Wrap(base + d) == Wrap(Wrap(base) + d)
  {
    if base >= TWO32 {
      WrapShift(base - TWO32, d);
    }
  }

  lemma DeltaAdvances(a: u32, b: u32)
    ensures Wrap(b + SeqDelta(a, b)) == a
    ensures Wrap(a + 1) == Next(a)
  {
  }

  lemma RealignPosition(at: u32, q: u32, jumped: nat)
    requires jumped == if Leaps(at, q) then SeqDelta(q, at) else 0
    ensures Wrap(at + jumped) == if Leaps(at, q) then q else at
  {
    DeltaAdvances(q, at);
  }

  function Filled<T>(buf: map<u32, Unit<T>>, u: Unit<T>): map<u32, Unit<T>> {
    if u.seqNo in buf then buf else buf[u.seqNo := u]
  }

  lemma FilledFacts<T>(buf: map<u32, Unit<T>>, u: Unit<T>)
    requires WellKeyed(buf)
    ensures WellKeyed(Filled(buf, u))
    ensures Filled(buf, u).Keys == buf.Keys + {u.seqNo}
    ensures |Filled(buf, u)| == |buf| + if u.seqNo in buf then 0 else 1
  {
    assert Filled(buf, u).Keys == buf.Keys + {u.seqNo};
  }

  /** The parts of an accepted push that matter below, without the estimate and the gap scan. */
  ghost predicate Shaped<T>(s: State<T>, u: Unit<T>, r: PushResult<T>) {
    var q := u.seqNo;
    var at := if s.started then s.nextOut else q;
    && r.ok && r.isNew == (q !in s.buf)
    && r.st.buf == Evicted(Filled(s.buf, u), s.maxUnits).0
    && r.evicted == Evicted(Filled(s.buf, u), s.maxUnits).1
    && r.st.totalBuffered == s.totalBuffered + (if r.isNew then 1 else 0)
    && r.st.netLost == s.netLost + |r.evicted|
    && r.st.started && r.st.maxUnits == s.maxUnits
    && r.st.nextOut == (if Leaps(at, q) then q else at)
    && r.jumped == (if Leaps(at, q) then SeqDelta(q, at) else 0)
    && r.st.lastPopUs == s.lastPopUs && r.st.headMissingSinceUs == s.headMissingSinceUs
  }

  lemma PushRejected<T>(s: State<T>, q: u32, gen: int, data: T, now: int)
    requires s.started && SeqLt(q, s.nextOut)
    ensures PushSpec(s, q, gen, data, now) == PushResult(s, false, [], false, 0, [])
  {
  }

  lemma PushShape<T>(s: State<T>, q: u32, gen: int, data: T, now: int)
    requires !(s.started && SeqLt(q, s.nextOut))
    ensures Shaped(s, Unit(q, gen, now, data), PushSpec(s, q, gen, data, now))
  {
    hide Estimated, Evicted, SeqDelta, SeqLt, Leaps, Scan;
  }

  /** What one accepted push does to the counters and to the read position. */
  ghost predicate PushEffect<T>(s: State<T>, q: u32, r: PushResult<T>) {
    && WellKeyed(r.st.buf) && |r.st.buf| <= s.maxUnits
    && |s.buf| + (if r.isNew then 1 else 0) == |r.st.buf| + |r.evicted|
    && r.st.totalBuffered == s.totalBuffered + (if r.isNew then 1 else 0)
    && r.st.netLost == s.netLost + |r.evicted|
    && r.st.started && r.st.maxUnits == s.maxUnits
    && r.st.nextOut == Wrap((if s.started then s.nextOut else q) + r.jumped)
  }

  lemma PushHasEffect<T>(s: State<T>, u: Unit<T>, r: PushResult<T>)
    requires WellKeyed(s.buf) && Shaped(s, u, r)
    ensures PushEffect(s, u.seqNo, r)
  {
    hide Wrap, SeqDelta, SeqLt, Leaps, Evicted, MinKey, Filled, WellKeyed;
    RealignPosition(if s.started then s.nextOut else u.seqNo, u.seqNo, r.jumped);
    FilledFacts(s.buf, u);
    EvictedSizes(Filled(s.buf, u), s.maxUnits);
  }

  lemma PushConserves<T>(w: World<T>, e: Event<T>, u: Unit<T>)
    requires e.Push? && WellKeyed(w.st.buf) && Conserved(w, u)
    ensures Conserved(Step(w, e), u)
  {
    hide Evicted, PushSpec, Wrap, Count;
    var s, x := w.st, Unit(e.seqNo, e.genUs, e.now, e.data);
    if !(s.started && SeqLt(e.seqNo, s.nextOut)) {
      PushShape(s, e.seqNo, e.genUs, e.data, e.now);
      FilledFacts(s.buf, x);
      EvictedMoves(Filled(s.buf, x), s.maxUnits, u);
      CountSnoc(w.inserted, x, u);
      CountAppend(w.evicted, PushSpec(s, e.seqNo, e.genUs, e.data, e.now).evicted, u);
    } else {
      PushRejected(s, e.seqNo, e.genUs, e.data, e.now);
      assert w.evicted + [] == w.evicted;
    }
  }

  lemma PopConserves<T>(w: World<T>, e: Event<T>, u: Unit<T>)
    requires e.Pop? && WellKeyed(w.st.buf) && Conserved(w, u)
    ensures Conserved(Step(w, e), u)
  {
    hide Count, SeqDelta, Starved;
    var r := PopSpec(w.st, e.now);
    if r.out.Some? {
      CountSnoc(w.popped, r.out.value, u);
    }
  }

  lemma PushBalances<T(!new)>(w: World<T>, e: Event<T>)
    requires Balanced(w) && e.Push?
    ensures Balanced(Step(w, e))
  {
    hide Wrap, Count, Conserved;
    forall u
      ensures Conserved(Step(w, e), u)
    {
      PushConserves(w, e, u);
    }
    var s, r := w.st, PushSpec(w.st, e.seqNo, e.genUs, e.data, e.now);
    if s.started && SeqLt(e.seqNo, s.nextOut) {
      assert w.evicted + [] == w.evicted;
    } else {
      PushShape(s, e.seqNo, e.genUs, e.data, e.now);
      PushHasEffect(s, Unit(e.seqNo, e.genUs, e.now, e.data), r);
      WrapShift(w.first + |w.popped| + w.skipped + w.realigned, r.jumped);
    }
  }

  /** What one successful pop does to the counters and to the read position. */
  ghost predicate PopEffect<T>(s: State<T>, r: PopResult<T>) {
    && WellKeyed(r.st.buf)
    && |s.buf| == |r.st.buf| + 1
    && r.st.totalBuffered == s.totalBuffered - 1
    && r.st.netLost == s.netLost + r.skipped
    && r.st.started == s.started && r.st.maxUnits == s.maxUnits
    && r.st.nextOut == Wrap(s.nextOut + (r.skipped + 1))
  }

  lemma PopHasEffect<T>(s: State<T>, now: int)
    requires WellKeyed(s.buf) && PopSpec(s, now).out.Some?
    ensures PopEffect(s, PopSpec(s, now))
  {
    var k := if s.nextOut in s.buf then s.nextOut else MinKey(s.buf.Keys);
    DropShrinks(s.buf, k);
    DeltaAdvances(k, s.nextOut);
    WrapShift(s.nextOut + SeqDelta(k, s.nextOut), 1);
  }

  lemma PopBalances<T(!new)>(w: World<T>, e: Event<T>)
    requires Balanced(w) && e.Pop?
    ensures Balanced(Step(w, e))
  {
    hide Wrap, Count, Conserved, SeqDelta, Starved;
    forall u
      ensures Conserved(Step(w, e), u)
    {
      PopConserves(w, e, u);
    }
    var r := PopSpec(w.st, e.now);
    if r.out.None? {
      assert r.st == w.st.(headMissingSinceUs := r.st.headMissingSinceUs) && r.skipped == 0;
    } else {
      PopHasEffect(w.st, e.now);
      WrapShift(w.first + |w.popped| + w.skipped + w.realigned, r.skipped + 1);
    }
  }

  lemma StepBalances<T(!new)>(w: World<T>, e: Event<T>)
    requires Balanced(w)
    ensures Balanced(Step(w, e))
  {
    match e {
      case Push(_, _, _, _) => hide Balanced; PushBalances(w, e);
      case Pop(_) => hide Balanced; PopBalances(w, e);
      case SetRtt(_) => assert forall u :: Conserved(w, u) ==> Conserved(Step(w, e), u);
    }
  }

  lemma {:induction false} ConservationOverRuns<T(!new)>(maxUnits: nat, nackIntervalUs: int, es: seq<Event<T>>)
    ensures Balanced(Run(Fresh(maxUnits, nackIntervalUs), es))
  {
    if es != [] {
      ConservationOverRuns(maxUnits, nackIntervalUs, es[..|es| - 1]);
      StepBalances(Run(Fresh(maxUnits, nackIntervalUs), es[..|es| - 1]), es[|es| - 1]);
    }
  }

  /** The size bound on its own, for payloads of any type. */
  lemma {:induction false} SizesOverRuns<T>(maxUnits: nat, nackIntervalUs: int, es: seq<Event<T>>)
    ensures var st := Run(Fresh<T>(maxUnits, nackIntervalUs), es).st;
            WellKeyed(st.buf) && |st.buf| <= st.maxUnits == maxUnits
  {
    hide PushSpec, PopSpec, Wrap, Retuned;
    if es != [] {
      SizesOverRuns(maxUnits, nackIntervalUs, es[..|es| - 1]);
      var s, e := Run(Fresh<T>(maxUnits, nackIntervalUs), es[..|es| - 1]).st, es[|es| - 1];
      match e {
        case Push(q, gen, data, now) =>
          if s.started && SeqLt(q, s.nextOut) {
            PushRejected(s, q, gen, data, now);
          } else {
            PushShape(s, q, gen, data, now);
            PushHasEffect(s, Unit(q, gen, now, data), PushSpec(s, q, gen, data, now));
          }
        case Pop(now) =>
          PopKeepsBuffer(s, now);
          if PopSpec(s, now).out.Some? {
            PopHasEffect(s, now);
          }
        case SetRtt(_) =>
      }
    }
  }

  lemma PopKeepsBuffer<T>(s: State<T>, now: int)
    ensures PopSpec(s, now).out.None? ==>
            PopSpec(s, now).st == s.(headMissingSinceUs := PopSpec(s, now).st.headMissingSinceUs)
  {
    hide Starved, Taken, SeqDelta;
  }
}
