/**
 * What the loss rate does: over every run, the packets dropped are exactly those whose random draw lies below the
 * rate, whatever the delays and the draining threads' turns in between.
 */
module LossRates {
  import opened Bytes
  import opened LossSimulators

  /** One packet offered, with its two random draws and the clock, or one turn of the draining loop. */
  datatype Input =
    | Offer(data: bytes, uniform: real, draw: u32, now: int)
    | Turn(now: int)

  ghost predicate Follows(cfg: Config, w: World, v: World, e: Input) {
    match e
    case Offer(data, uniform, draw, now) =>
      draw <= cfg.jitterMs && w.clock <= now && v == Injected(cfg, w, data, uniform, draw, now)
    case Turn(now) => DrainStep(w, v) && v.clock == now
  }

  ghost predicate RunOn(cfg: Config, ws: seq<World>, es: seq<Input>) {
    && |ws| == |es| + 1 && ws[0] == IDLE
    && forall i :: 0 <= i < |es| ==> Follows(cfg, ws[i], ws[i + 1], es[i])
  }

  /** Every run is a run on some inputs, and the other way round. */
  lemma {:induction false} RunHasInputs(cfg: Config, ws: seq<World>) returns (es: seq<Input>)
    requires Run(cfg, ws)
    ensures RunOn(cfg, ws, es)
    decreases |ws|
  {
    var n := |ws| - 1;
    es := [];
    if n > 0 {
      hide Follows, Next;
      RunFront(cfg, ws);
      var front := RunHasInputs(cfg, ws[..n]);
      var e := SomeInput(cfg, ws[n - 1], ws[n]);
      es := front + [e];
      forall i | 0 <= i < |es|
        ensures Follows(cfg, ws[i], ws[i + 1], es[i])
      {
        if i < |front| {
          assert Follows(cfg, ws[..n][i], ws[..n][i + 1], front[i]);
        }
      }
    }
  }

  lemma RunFront(cfg: Config, ws: seq<World>)
    requires Run(cfg, ws) && |ws| > 1
    ensures Run(cfg, ws[..|ws| - 1]) && Next(cfg, ws[|ws| - 2], ws[|ws| - 1])
  {
    hide Next;
  }

  lemma SomeInput(cfg: Config, w: World, v: World) returns (e: Input)
    requires Next(cfg, w, v)
    ensures Follows(cfg, w, v, e)
  {
    hide Injected, DrainStep;
    if InjectStep(cfg, w, v) {
      var data: bytes, uniform: real, draw: u32 :|
        draw <= cfg.jitterMs && w.clock <= v.clock && v == Injected(cfg, w, data, uniform, draw, v.clock);
      e := Offer(data, uniform, draw, v.clock);
    } else {
      e := Turn(v.clock);
    }
  }

  lemma InputsMakeRun(cfg: Config, ws: seq<World>, es: seq<Input>)
    requires RunOn(cfg, ws, es)
    ensures Run(cfg, ws)
  {
    hide Next, Follows;
    forall i | 0 < i < |ws|
      ensures Next(cfg, ws[i - 1], ws[i])
    {
      assert Follows(cfg, ws[i - 1], ws[i - 1 + 1], es[i - 1]);
      FollowsIsNext(cfg, ws[i - 1], ws[i], es[i - 1]);
    }
  }

  lemma FollowsIsNext(cfg: Config, w: World, v: World, e: Input)
    requires Follows(cfg, w, v, e)
    ensures Next(cfg, w, v)
  {
    hide DelayMs, DrainStep;
    if e.Offer? {
      assert v.clock == e.now;
    }
  }

  /** The draws are uniform in [0, 1). */
  ghost predicate Drawn(es: seq<Input>) {
    forall i :: 0 <= i < |es| ==> es[i].Offer? ==> 0.0 <= es[i].uniform < 1.0
  }

  /** How many packets were offered. */
  function Offers(es: seq<Input>): nat {
    if es == [] then 0 else Offers(es[..|es| - 1]) + if es[|es| - 1].Offer? then 1 else 0
  }

  /** How many draws lie below the rate. */
  function Below(es: seq<Input>, rate: real): nat {
    if es == [] then 0
    else
      var e := es[|es| - 1];
      Below(es[..|es| - 1], rate) + if e.Offer? && e.uniform < rate then 1 else 0
  }

  /** The packets whose draws do not. */
  function Through(es: seq<Input>, rate: real): seq<bytes> {
    if es == [] then []
    else
      var e := es[|es| - 1];
      Through(es[..|es| - 1], rate) + if e.Offer? && !(e.uniform < rate) then [e.data] else []
  }

  function Contents(xs: seq<Arrival>): (ds: seq<bytes>)
    ensures |ds| == |xs|
  {
    seq(|xs|, i requires 0 <= i < |xs| => xs[i].packet.data)
  }

  /** One input: dropped or accepted, by the draw alone. */
  lemma OneInput(cfg: Config, w: World, v: World, e: Input)
    requires Follows(cfg, w, v, e) && (e.Offer? ==> 0.0 <= e.uniform < 1.0)
    ensures var gone := e.Offer? && e.uniform < cfg.loss;
            && v.dropped == w.dropped + (if gone then 1 else 0)
            && v.offered == w.offered + (if e.Offer? then 1 else 0)
            && Contents(v.accepted) == Contents(w.accepted) + (if e.Offer? && !gone then [e.data] else [])
  {
    hide DelayMs;
    assert Contents(w.accepted) + [] == Contents(w.accepted);
  }

  /**
   * Over every run the packets dropped are as many as draws lie below the rate, and the packets let through are the
   * others, in the order they were offered.
   */
  lemma {:induction false} LossIsDraws(cfg: Config, ws: seq<World>, es: seq<Input>)
    requires RunOn(cfg, ws, es) && Drawn(es)
    ensures var w := ws[|es|];
            && w.offered == Offers(es) && w.dropped == Below(es, cfg.loss)
            && Contents(w.accepted) == Through(es, cfg.loss)
    decreases |es|
  {
    hide Follows, Contents;
    if es == [] {
      NothingAccepted();
    } else {
      var n := |es| - 1;
      forall i | 0 <= i < n
        ensures Follows(cfg, ws[..n + 1][i], ws[..n + 1][i + 1], es[..n][i])
      {
        assert Follows(cfg, ws[i], ws[i + 1], es[i]);
      }
      LossIsDraws(cfg, ws[..n + 1], es[..n]);
      OneInput(cfg, ws[n], ws[n + 1], es[n]);
    }
  }

  lemma NothingAccepted()
    ensures Contents(IDLE.accepted) == [] && IDLE.dropped == 0 && IDLE.offered == 0
  {
  }

  /** On the same inputs, whatever a lower rate drops a higher one drops too. */
  lemma LowerRateDropsLess(low: Config, high: Config, ws: seq<World>, vs: seq<World>, es: seq<Input>, i: nat)
    requires RunOn(low, ws, es) && RunOn(high, vs, es) && Drawn(es) && low.loss <= high.loss && i < |es|
    ensures ws[i + 1].dropped > ws[i].dropped ==> vs[i + 1].dropped > vs[i].dropped
  {
    hide Follows;
    OneInput(low, ws[i], ws[i + 1], es[i]);
    OneInput(high, vs[i], vs[i + 1], es[i]);
  }

  /** At rate 0 every packet gets through, at rate 1 none does. */
  lemma ExtremeRates(cfg: Config, ws: seq<World>, es: seq<Input>)
    requires RunOn(cfg, ws, es) && Drawn(es)
    ensures cfg.loss <= 0.0 ==> ws[|es|].dropped == 0 && |ws[|es|].accepted| == Offers(es)
    ensures cfg.loss >= 1.0 ==> ws[|es|].dropped == Offers(es) && ws[|es|].accepted == []
  {
    LossIsDraws(cfg, ws, es);
    AllOrNone(es, cfg.loss);
  }

  lemma {:induction false} AllOrNone(es: seq<Input>, rate: real)
    requires Drawn(es)
    ensures Below(es, rate) + |Through(es, rate)| == Offers(es)
    ensures rate <= 0.0 ==> Below(es, rate) == 0
    ensures rate >= 1.0 ==> Below(es, rate) == Offers(es)
    decreases |es|
  {
    if es != [] {
      AllOrNone(es[..|es| - 1], rate);
    }
  }
}
