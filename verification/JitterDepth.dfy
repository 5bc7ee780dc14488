/**
 * The adaptive depth: what the jitter estimate and the depth are after any run, in terms of the arrivals alone.
 */
module JitterDepth {
  import opened Bytes
  import opened JitterBuffers
  import opened JitterRuns
  import opened JitterOrder
  import UdpReceivers

  // ---- which arrivals count ----

  /** A unit arrives in order when it is the very next one, or the first of all. */
  ghost predicate InOrder<T>(w: World<T>, e: Event<T>) {
    e.Push? && (w.st.started ==> e.seqNo == w.st.nextOut)
  }

  /** When the last unit that arrived in order came, and when it was generated. */
  ghost function Marks<T>(w: World<T>, es: seq<Event<T>>): (int, int) {
    if es == [] then (w.st.pacing.lastArrivalUs, w.st.pacing.lastGenUs)
    else
      var front, e := es[..|es| - 1], es[|es| - 1];
      if InOrder(Run(w, front), e) then (e.now, e.genUs) else Marks(w, front)
  }

  /** An arrival in order is measured against the one before it, if there is one and no clock ran backwards. */
  ghost predicate Measures<T>(w: World<T>, front: seq<Event<T>>, e: Event<T>) {
    var (arrival, gen) := Marks(w, front);
    InOrder(Run(w, front), e) && arrival != 0 && e.genUs > gen && e.now >= arrival
  }

  /** By how much the gap between two arrivals differs from the gap between their generations, at most 200 ms. */
  ghost function Deviation<T>(w: World<T>, front: seq<Event<T>>, e: Event<T>): int
    requires Measures(w, front, e)
  {
    var (arrival, gen) := Marks(w, front);
    var d := (e.now - arrival) - (e.genUs - gen);
    var abs := if d < 0 then -d else d;
    if abs > 200_000 then 200_000 else abs
  }

  lemma PushPaces<T>(s: State<T>, q: u32, gen: int, data: T, now: int)
    ensures PushSpec(s, q, gen, data, now).st.pacing ==
            if s.started && q != s.nextOut then s.pacing else Estimated(s.pacing, gen, now)
  {
    hide Estimated, Evicted, Scan, Leaps;
  }

  lemma PopPaces<T>(s: State<T>, now: int)
    ensures PopSpec(s, now).st.pacing == s.pacing
  {
    hide Starved, SeqDelta;
  }

  /** What one event does to the two marks. */
  lemma StepMarks<T>(w: World<T>, e: Event<T>)
    ensures var p, r := w.st.pacing, Step(w, e).st.pacing;
            (r.lastArrivalUs, r.lastGenUs) == if InOrder(w, e) then (e.now, e.genUs) else (p.lastArrivalUs, p.lastGenUs)
  {
    hide PushSpec, PopSpec, Ewma;
    match e {
      case Push(q, gen, data, now) => PushPaces(w.st, q, gen, data, now);
      case Pop(now) => PopPaces(w.st, now);
      case SetRtt(_) =>
    }
  }

  lemma {:induction false} MarksOverRuns<T>(w: World<T>, es: seq<Event<T>>)
    ensures var p := Run(w, es).st.pacing; (p.lastArrivalUs, p.lastGenUs) == Marks(w, es)
  {
    hide Step, InOrder;
    if es != [] {
      MarksOverRuns(w, es[..|es| - 1]);
      StepMarks(Run(w, es[..|es| - 1]), es[|es| - 1]);
    }
  }

  // ---- the estimate ----

  function Power(x: real, n: nat): real {
    if n == 0 then 1.0 else x * Power(x, n - 1)
  }

  /** How many arrivals were measured. */
  ghost function Measured<T>(w: World<T>, es: seq<Event<T>>): nat {
    if es == [] then 0
    else
      var front, e := es[..|es| - 1], es[|es| - 1];
      Measured(w, front) + if Measures(w, front, e) then 1 else 0
  }

  ghost predicate AllDeviate<T>(w: World<T>, es: seq<Event<T>>, d: int) {
    es == [] ||
    var front, e := es[..|es| - 1], es[|es| - 1];
    AllDeviate(w, front, d) && (Measures(w, front, e) ==> Deviation(w, front, e) == d)
  }

  /** One event: a measured arrival moves the estimate a sixteenth of the way, nothing else moves it. */
  lemma StepEstimates<T>(w: World<T>, es: seq<Event<T>>, e: Event<T>)
    ensures var j, k := Run(w, es).st.pacing.jitterUs, Step(Run(w, es), e).st.pacing.jitterUs;
            if Measures(w, es, e) then 16.0 * k == 15.0 * j + Deviation(w, es, e) as real else k == j
  {
    MarksOverRuns(w, es);
    var v := Run(w, es);
    hide PushSpec, PopSpec, Run, Marks;
    match e {
      case Push(q, gen, data, now) => PushPaces(v.st, q, gen, data, now);
      case Pop(now) => PopPaces(v.st, now);
      case SetRtt(_) =>
    }
  }

  /**
   * The estimate converges. Over any events at all, late, repeated and reordered arrivals, pops and RTT updates
   * included: if every measured arrival deviates by d, then n of them leave the distance between the
   * estimate and d multiplied by (15/16)^n.
   */
  lemma {:induction false} EstimateConverges<T>(w: World<T>, es: seq<Event<T>>, d: int)
    requires AllDeviate(w, es, d)
    ensures Run(w, es).st.pacing.jitterUs - d as real ==
            (w.st.pacing.jitterUs - d as real) * Power(15.0 / 16.0, Measured(w, es))
  {
    hide Step, Measures, Deviation;
    if es != [] {
      var front, e := es[..|es| - 1], es[|es| - 1];
      EstimateConverges(w, front, d);
      StepEstimates(w, front, e);
      Shrinks(Run(w, front).st.pacing.jitterUs, Run(w, es).st.pacing.jitterUs, w.st.pacing.jitterUs, d as real,
              Power(15.0 / 16.0, Measured(w, front)), Measures(w, front, e));
    }
  }

  lemma Shrinks(j: real, k: real, j0: real, d: real, p: real, hit: bool)
    requires j - d == (j0 - d) * p && if hit then 16.0 * k == 15.0 * j + d else k == j
    ensures k - d == (j0 - d) * if hit then 15.0 / 16.0 * p else p
  {
    if hit {
      assert k - d == 15.0 / 16.0 * (j - d);
      assert 15.0 / 16.0 * ((j0 - d) * p) == (j0 - d) * (15.0 / 16.0 * p);
    }
  }

  // ---- the depth ----

  /** The depth is three times the jitter plus the RTT, in whole microseconds, kept within 15 to 250 ms. */
  ghost predicate Fits(p: Pacing) {
    var x := 3.0 * p.jitterUs + 1000.0 * p.rttMs;
    && (x < 15_000.0 ==> p.targetUs == 15_000)
    && (15_000.0 <= x < 250_000.0 ==> p.targetUs as real <= x < p.targetUs as real + 1.0)
    && (x >= 250_000.0 ==> p.targetUs == 250_000)
  }

  lemma RetunedFits(p: Pacing)
    ensures Fits(Retuned(p)) && Retuned(p).jitterUs == p.jitterUs && Retuned(p).rttMs == p.rttMs
  {
    var x := 3.0 * p.jitterUs + p.rttMs * 1000.0;
    assert x.Floor as real <= x < x.Floor as real + 1.0;
  }

  /** The depth was set at least once: an RTT was reported or an arrival was measured. */
  ghost predicate Tuned<T>(w: World<T>, es: seq<Event<T>>) {
    es != [] &&
    var front, e := es[..|es| - 1], es[|es| - 1];
    Tuned(w, front) || e.SetRtt? || Measures(w, front, e)
  }

  /** The RTT last reported. */
  ghost function LastRtt<T>(es: seq<Event<T>>): real {
    if es == [] then 0.0 else if es[|es| - 1].SetRtt? then es[|es| - 1].ms else LastRtt(es[..|es| - 1])
  }

  lemma StepTunes<T>(w: World<T>, es: seq<Event<T>>, e: Event<T>)
    ensures var p, r := Run(w, es).st.pacing, Step(Run(w, es), e).st.pacing;
            && r.rttMs == (if e.SetRtt? then e.ms else p.rttMs)
            && if e.SetRtt? || Measures(w, es, e) then Fits(r)
               else r.jitterUs == p.jitterUs && r.targetUs == p.targetUs
  {
    MarksOverRuns(w, es);
    var v := Run(w, es);
    hide PushSpec, PopSpec, Run, Marks, Retuned, Fits, Ewma;
    match e {
      case Push(q, gen, data, now) =>
        PushPaces(v.st, q, gen, data, now);
        if Measures(w, es, e) {
          var dArr, dGen := now - v.st.pacing.lastArrivalUs, gen - v.st.pacing.lastGenUs;
          var p := v.st.pacing.(jitterUs := Ewma(v.st.pacing.jitterUs, dArr - dGen));
          RetunedFits(p);
          FitsIgnoresMarks(Retuned(p), now, gen);
        }
      case Pop(now) => PopPaces(v.st, now);
      case SetRtt(ms) => RetunedFits(v.st.pacing.(rttMs := ms));
    }
  }

  lemma FitsIgnoresMarks(p: Pacing, arrival: int, gen: int)
    ensures Fits(p.(lastArrivalUs := arrival, lastGenUs := gen)) == Fits(p)
  {
  }

  /**
   * The depth adapts: after any run, once an RTT was reported or an arrival measured, it is three times the jitter
   * plus the RTT last reported, within its band; before that it is 40 ms.
   */
  lemma {:induction false} DepthOverRuns<T>(maxUnits: nat, interval: int, es: seq<Event<T>>)
    ensures var w := Fresh<T>(maxUnits, interval);
            var p := Run(w, es).st.pacing;
            && p.rttMs == LastRtt(es)
            && if Tuned(w, es) then Fits(p) else p.jitterUs == 0.0 && p.targetUs == 40_000
  {
    hide Step, Measures, Fits;
    if es != [] {
      var w := Fresh<T>(maxUnits, interval);
      DepthOverRuns<T>(maxUnits, interval, es[..|es| - 1]);
      StepTunes(w, es[..|es| - 1], es[|es| - 1]);
      var p, r := Run(w, es[..|es| - 1]).st.pacing, Run(w, es).st.pacing;
      if r.jitterUs == p.jitterUs && r.rttMs == p.rttMs && r.targetUs == p.targetUs {
        SameFits(p, r);
      }
    }
  }

  lemma SameFits(p: Pacing, r: Pacing)
    requires r.jitterUs == p.jitterUs && r.rttMs == p.rttMs && r.targetUs == p.targetUs
    ensures Fits(p) == Fits(r)
  {
  }

  // ---- the round-trip time ----

  /** The RTT after these samples in turn. */
  function Averaged(rtt: real, samples: seq<real>): real {
    if samples == [] then rtt
    else UdpReceivers.Smoothed(Averaged(rtt, samples[..|samples| - 1]), samples[|samples| - 1])
  }

  /**
   * The RTT settles: the first sample is taken as it is, and from any other value n equal samples leave the distance
   * from them multiplied by (7/8)^n.
   */
  lemma {:induction false} RttSettles(rtt: real, samples: seq<real>, x: real)
    requires rtt >= 0.0 && x > 0.0 && samples != [] && forall i :: 0 <= i < |samples| ==> samples[i] == x
    ensures Averaged(rtt, samples) > 0.0
    ensures Averaged(rtt, samples) - x == if rtt == 0.0 then 0.0 else (rtt - x) * Power(7.0 / 8.0, |samples|)
    decreases |samples|
  {
    var n := |samples| - 1;
    if n == 0 {
      assert Averaged(rtt, samples[..0]) == rtt;
      assert Power(7.0 / 8.0, 1) == 7.0 / 8.0 * Power(7.0 / 8.0, 0);
    } else {
      RttSettles(rtt, samples[..n], x);
      SevenEighths(Averaged(rtt, samples[..n]), Averaged(rtt, samples), x);
      if rtt != 0.0 {
        assert 7.0 / 8.0 * ((rtt - x) * Power(7.0 / 8.0, n)) == (rtt - x) * (7.0 / 8.0 * Power(7.0 / 8.0, n));
      }
    }
  }

  lemma SevenEighths(r: real, t: real, x: real)
    requires r > 0.0 && x > 0.0 && t == UdpReceivers.Smoothed(r, x)
    ensures t > 0.0 && t - x == 7.0 / 8.0 * (r - x)
  {
  }
}
