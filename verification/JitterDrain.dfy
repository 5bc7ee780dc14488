/**
 * Nothing stays behind in the resequencing buffer: as many pops as there are units, spaced more than the depth
 * apart, hand on exactly what is held.
 */
module JitterDrain {
  import opened Bytes
  import opened JitterBuffers
  import opened JitterRuns
  import opened JitterOrder

  /** When the last pop was, after pops at these times. */
  function Latest<T>(s: State<T>, ts: seq<int>): int {
    if ts == [] then s.lastPopUs else ts[|ts| - 1]
  }

  /** Every pop comes more than the depth after the one before it. */
  ghost predicate Spaced<T>(s: State<T>, ts: seq<int>) {
    ts == [] ||
    (Spaced(s, ts[..|ts| - 1])
     && Latest(s, ts[..|ts| - 1]) + s.pacing.targetUs < ts[|ts| - 1])
  }

  /** A pop that late hands a unit on whenever one is held, missing head or not. */
  lemma LatePopYields<T>(s: State<T>, now: int)
    requires WellKeyed(s.buf) && s.started && s.buf != map[] && Starved(s, now)
    ensures var r := PopSpec(s, now);
            r.out.Some? && |r.st.buf| == |s.buf| - 1 && r.st.lastPopUs == now && r.st.pacing == s.pacing
  {
    PopHasEffect(s, now);
  }

  lemma {:induction false} PopsYield<T(!new)>(w: World<T>, ts: seq<int>)
    requires Balanced(w) && |ts| <= |w.st.buf| && Spaced(w.st, ts)
    ensures var v := Run(w, Pops(ts));
            && Balanced(v) && |v.st.buf| == |w.st.buf| - |ts|
            && |v.popped| == |w.popped| + |ts| && v.evicted == w.evicted
            && v.inserted == w.inserted && v.accepted == w.accepted
            && v.st.pacing == w.st.pacing && v.st.lastPopUs == Latest(w.st, ts)
  {
    hide Balanced, PopSpec;
    if ts != [] {
      var n := |ts| - 1;
      var v := Run(w, Pops(ts[..n]));
      assert Pops<T>(ts)[..n] == Pops<T>(ts[..n]) && Pops<T>(ts)[n] == Pop(ts[n]);
      PopsYield(w, ts[..n]);
      BalancedShape(v);
      LatePopYields(v.st, ts[n]);
      StepBalances(v, Pop(ts[n]));
    }
  }

  lemma BalancedShape<T(!new)>(w: World<T>)
    requires Balanced(w)
    ensures WellKeyed(w.st.buf) && (w.st.buf != map[] ==> w.st.started)
  {
    hide WellKeyed, Conserved;
  }

  // ---- every accepted number ----

  ghost predicate Entered<T>(w: World<T>, q: u32) {
    exists u :: u in w.inserted && u.seqNo == q
  }

  ghost predicate Left<T>(w: World<T>, q: u32) {
    (exists u :: u in w.popped && u.seqNo == q) || (exists u :: u in w.evicted && u.seqNo == q)
  }

  lemma {:induction false} CountIsMembership<T>(us: seq<Unit<T>>, u: Unit<T>)
    ensures Count(us, u) > 0 <==> u in us
  {
    if us != [] {
      CountIsMembership(us[..|us| - 1], u);
    }
  }

  /** A push is accepted only as a new unit or beside one of its number that is held. */
  lemma StepEnters<T(!new)>(w: World<T>, e: Event<T>)
    requires Balanced(w) && forall p :: p in w.accepted ==> Entered(w, p.0)
    ensures forall p :: p in Step(w, e).accepted ==> Entered(Step(w, e), p.0)
  {
    hide PushSpec, PopSpec, Retuned, Count, Balanced, SeqLt;
    var v := Step(w, e);
    forall p | p in v.accepted
      ensures Entered(v, p.0)
    {
      if p in w.accepted {
        var u :| u in w.inserted && u.seqNo == p.0;
        assert u in v.inserted;
      } else if w.st.started && SeqLt(e.seqNo, w.st.nextOut) {
        PushRejected(w.st, e.seqNo, e.genUs, e.data, e.now);
        assert false;
      } else {
        PushEnters(w, e);
      }
    }
  }

  lemma PushEnters<T(!new)>(w: World<T>, e: Event<T>)
    requires Balanced(w) && e.Push? && !(w.st.started && SeqLt(e.seqNo, w.st.nextOut))
    ensures Entered(Step(w, e), e.seqNo)
  {
    var x := Unit(e.seqNo, e.genUs, e.now, e.data);
    hide PushSpec, Balanced, Count, Evicted, SeqLt, SeqDelta, Leaps;
    PushShape(w.st, e.seqNo, e.genUs, e.data, e.now);
    if e.seqNo in w.st.buf {
      var u := w.st.buf[e.seqNo];
      HeldWasInserted(w, e.seqNo);
      assert u in Step(w, e).inserted;
    } else {
      assert x in Step(w, e).inserted;
    }
  }

  lemma HeldWasInserted<T(!new)>(w: World<T>, q: u32)
    requires Balanced(w) && q in w.st.buf
    ensures w.st.buf[q] in w.inserted && w.st.buf[q].seqNo == q
  {
    hide Count;
    assert Conserved(w, w.st.buf[q]);
    CountIsMembership(w.inserted, w.st.buf[q]);
  }

  lemma {:induction false} AcceptedEntered<T(!new)>(maxUnits: nat, interval: int, es: seq<Event<T>>)
    ensures var w := Run(Fresh<T>(maxUnits, interval), es);
            forall p :: p in w.accepted ==> Entered(w, p.0)
  {
    hide Step, Balanced, Entered;
    if es != [] {
      AcceptedEntered<T>(maxUnits, interval, es[..|es| - 1]);
      ConservationOverRuns<T>(maxUnits, interval, es[..|es| - 1]);
      StepEnters(Run(Fresh<T>(maxUnits, interval), es[..|es| - 1]), es[|es| - 1]);
    }
  }

  // ---- draining ----

  /** Whatever is held comes out, each unit once and nothing else, and then every accepted number has left. */
  ghost predicate HandsOnAll<T(!new)>(w: World<T>, v: World<T>) {
    && v.st.buf == map[] && v.evicted == w.evicted && v.accepted == w.accepted
    && (forall u :: Count(v.popped, u) == Count(w.popped, u) + Held(w.st.buf, u))
    && (forall p :: p in v.accepted ==> Left(v, p.0))
  }

  /** From any balanced state, one late pop for each unit held empties the buffer. */
  lemma PopsDrain<T(!new)>(w: World<T>, ts: seq<int>)
    requires Balanced(w) && |ts| == |w.st.buf| && Spaced(w.st, ts)
    requires forall p :: p in w.accepted ==> Entered(w, p.0)
    ensures HandsOnAll(w, Run(w, Pops(ts))) && |Run(w, Pops(ts)).popped| == |w.popped| + |ts|
  {
    hide Run, Spaced, Count, WellKeyed;
    PopsYield(w, ts);
    var v := Run(w, Pops(ts));
    assert v.st.buf == map[];
    forall u
      ensures Count(v.popped, u) == Count(w.popped, u) + Held(w.st.buf, u)
    {
      assert Conserved(w, u) && Conserved(v, u);
    }
    forall p | p in v.accepted
      ensures Left(v, p.0)
    {
      var u :| u in w.inserted && u.seqNo == p.0;
      InsertedLeft(v, u);
    }
  }

  lemma InsertedLeft<T(!new)>(v: World<T>, u: Unit<T>)
    requires Balanced(v) && v.st.buf == map[] && u in v.inserted
    ensures Left(v, u.seqNo)
  {
    hide Count, WellKeyed;
    assert Conserved(v, u);
    CountIsMembership(v.inserted, u);
    CountIsMembership(v.popped, u);
    CountIsMembership(v.evicted, u);
  }

  /**
   * Progress: after any run whatever, n pops spaced more than the depth apart empty a buffer of n units. They hand
   * on exactly the units held, and with that every number ever accepted was handed on or evicted.
   */
  lemma EveryUnitLeaves<T(!new)>(maxUnits: nat, interval: int, es: seq<Event<T>>, ts: seq<int>)
    requires var w := Run(Fresh<T>(maxUnits, interval), es); |ts| == |w.st.buf| && Spaced(w.st, ts)
    ensures var w := Run(Fresh<T>(maxUnits, interval), es);
            HandsOnAll(w, Run(w, Pops(ts))) && |Run(w, Pops(ts)).popped| == |w.popped| + |ts|
  {
    hide HandsOnAll, Balanced, Spaced, Run, Entered;
    ConservationOverRuns<T>(maxUnits, interval, es);
    AcceptedEntered<T>(maxUnits, interval, es);
    PopsDrain(Run(Fresh<T>(maxUnits, interval), es), ts);
  }
}
