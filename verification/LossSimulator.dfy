/**
 * The weak-network simulator: packets are dropped, sent at once, or kept until they are due. The
 * random draws and the clock are inputs.
 */
module LossSimulators {
  import opened Bytes

  datatype Config = Config(loss: real, delayMs: u32, jitterMs: u32)

  /** An entry of the heap; the smallest due time is on top. */
  datatype Pending = Pending(dueUs: int, data: bytes)

  /** A packet handed to the sender, when, and whether it came out of the heap. */
  datatype Leaving = Leaving(packet: Pending, at: int, queued: bool)

  /** A packet that was not dropped, and when it came. */
  datatype Arrival = Arrival(at: int, packet: Pending)

  datatype World = World(
    pending: multiset<Pending>,
    leaving: seq<Leaving>,
    accepted: seq<Arrival>,
    offered: nat,
    dropped: nat,
    clock: int)

  const IDLE := World(multiset{}, [], [], 0, 0, 0)

  predicate Drops(cfg: Config, uniform: real) {
    cfg.loss > 0.0 && uniform < cfg.loss
  }

  /** The delay of a packet in milliseconds, in 32-bit arithmetic; the draw is up to jitterMs. */
  function DelayMs(cfg: Config, draw: u32): u32 {
    if cfg.jitterMs > 0 then (cfg.delayMs + draw) % TWO32 else cfg.delayMs
  }

  ghost function Lost(w: World, now: int): World {
    w.(offered := w.offered + 1, dropped := w.dropped + 1, clock := now)
  }

  ghost function SentAtOnce(w: World, p: Pending, now: int): World {
    w.(offered := w.offered + 1, accepted := w.accepted + [Arrival(now, p)], clock := now,
       leaving := w.leaving + [Leaving(p, now, false)])
  }

  ghost function Kept(w: World, p: Pending, now: int): World {
    w.(offered := w.offered + 1, accepted := w.accepted + [Arrival(now, p)], clock := now,
       pending := w.pending + multiset{p})
  }

  ghost function Injected(cfg: Config, w: World, data: bytes, uniform: real, draw: u32, now: int): World {
    if Drops(cfg, uniform) then Lost(w, now)
    else
      var d: nat := DelayMs(cfg, draw);
      var p := Pending(now + d * 1000, data);
      if d == 0 then SentAtOnce(w, p, now) else Kept(w, p, now)
  }

  ghost predicate Top(pending: multiset<Pending>, p: Pending) {
    p in pending && forall q :: q in pending ==> p.dueUs <= q.dueUs
  }

  ghost function Popped(w: World, p: Pending, now: int): World {
    w.(pending := w.pending - multiset{p}, leaving := w.leaving + [Leaving(p, now, true)], clock := now)
  }

  /** One critical section of inject, at a clock reading not before the last one. */
  ghost predicate InjectStep(cfg: Config, w: World, v: World) {
    exists data: bytes, uniform: real, draw: u32 ::
      draw <= cfg.jitterMs && w.clock <= v.clock && v == Injected(cfg, w, data, uniform, draw, v.clock)
  }

  /** One turn of drain_loop that sends; a turn that only waits changes nothing but the clock. */
  ghost predicate DrainStep(w: World, v: World) {
    w.clock <= v.clock &&
    (v == w.(clock := v.clock) || exists p :: Top(w.pending, p) && p.dueUs <= v.clock && v == Popped(w, p, v.clock))
  }

  ghost predicate Next(cfg: Config, w: World, v: World) {
    InjectStep(cfg, w, v) || DrainStep(w, v)
  }

  ghost predicate Run(cfg: Config, ws: seq<World>) {
    ws != [] && ws[0] == IDLE && forall i :: 0 < i < |ws| ==> Next(cfg, ws[i - 1], ws[i])
  }

  // ---- the code ----

  class LossSimulator {
    const cfg: Config
    var pending: multiset<Pending>
    var sent: seq<bytes>            // what the sender was handed
    ghost var log: World

    ghost predicate Valid()
      reads this
    {
      pending == log.pending && sent == Datas(log.leaving)
    }

    constructor (loss: real, delayMs: u32, jitterMs: u32)
      ensures Valid() && log == IDLE && cfg == Config(loss, delayMs, jitterMs)
    {
      cfg := Config(loss, delayMs, jitterMs);
      pending, sent, log := multiset{}, [], IDLE;
    }

    /** true when sent, perhaps later; false when dropped. */
    method Inject(data: bytes, uniform: real, draw: u32, now: int) returns (kept: bool)
      requires Valid() && draw <= cfg.jitterMs && log.clock <= now
      modifies this
      ensures Valid() && log == Injected(cfg, old(log), data, uniform, draw, now)
      ensures InjectStep(cfg, old(log), log) && (kept <==> cfg.loss <= 0.0 || uniform >= cfg.loss)
    {
      hide Datas;
      log := Injected(cfg, log, data, uniform, draw, now);
      if cfg.loss > 0.0 {
        if uniform < cfg.loss {
          return false;
        }
      }
      var d := cfg.delayMs;
      if cfg.jitterMs > 0 {
        d := (d + draw) % TWO32;
      }
      ghost var p := Pending(now + d * 1000, data);
      if d == 0 {
        DatasSnoc(old(log).leaving, Leaving(p, now, false));
        sent := sent + [data];
        return true;
      }
      pending := pending + multiset{Pending(now + d * 1000, data)};
      return true;
    }

    /** One turn of drain_loop. */
    method DrainTurn(now: int) returns (wait: bool)
      requires Valid() && log.clock <= now
      modifies this
      ensures Valid() && DrainStep(old(log), log) && log.clock == now
      ensures wait <==> forall p :: p in old(pending) ==> p.dueUs > now
    {
      hide Datas;
      if pending == multiset{} {
        log := log.(clock := now);
        return true;
      }
      var pkt := Least();
      if pkt.dueUs > now {
        log := log.(clock := now);
        return true;
      }
      DatasSnoc(log.leaving, Leaving(pkt, now, true));
      log := Popped(log, pkt, now);
      pending := pending - multiset{pkt};
      sent := sent + [pkt.data];
      return false;
    }

    /** pending_.top(): some entry with the smallest due time. */
    method Least() returns (p: Pending)
      requires pending != multiset{}
      ensures Top(pending, p)
    {
      ghost var w := SomeLeast(pending);
      p :| p in pending && forall q :: q in pending ==> p.dueUs <= q.dueUs;
    }
  }

  ghost function Datas(ls: seq<Leaving>): seq<bytes> {
    seq(|ls|, i requires 0 <= i < |ls| => ls[i].packet.data)
  }

  lemma {:induction false} SomeLeast(m: multiset<Pending>) returns (p: Pending)
    requires m != multiset{}
    ensures Top(m, p)
    decreases |m|
  {
    var x :| x in m;
    var rest := m - multiset{x};
    p := x;
    if rest != multiset{} {
      var y := SomeLeast(rest);
      p := if x.dueUs <= y.dueUs then x else y;
    }
    forall q | q in m
      ensures p.dueUs <= q.dueUs
    {
      assert q == x || q in rest;
    }
  }

  lemma DatasSnoc(ls: seq<Leaving>, l: Leaving)
    ensures Datas(ls + [l]) == Datas(ls) + [l.packet.data]
  {
  }

  // ---- whole runs ----

  ghost function Packets(ls: seq<Leaving>): multiset<Pending> {
    if ls == [] then multiset{} else Packets(ls[..|ls| - 1]) + multiset{ls[|ls| - 1].packet}
  }

  ghost function Arrived(xs: seq<Arrival>): multiset<Pending> {
    if xs == [] then multiset{} else Arrived(xs[..|xs| - 1]) + multiset{xs[|xs| - 1].packet}
  }

  ghost predicate InOrder(w: World) {
    && (forall i, j :: 0 <= i < j < |w.leaving| && w.leaving[i].queued && w.leaving[j].queued ==>
          w.leaving[i].packet.dueUs <= w.leaving[j].packet.dueUs)
    && (forall i, p :: 0 <= i < |w.leaving| && w.leaving[i].queued && p in w.pending ==>
          w.leaving[i].packet.dueUs <= p.dueUs)
  }

  ghost predicate OnTime(w: World) {
    forall i :: 0 <= i < |w.leaving| ==>
      w.leaving[i].packet.dueUs <= w.leaving[i].at <= w.clock
      && (!w.leaving[i].queued ==> w.leaving[i].packet.dueUs == w.leaving[i].at)
  }

  ghost predicate Conserved(w: World) {
    Arrived(w.accepted) == Packets(w.leaving) + w.pending && w.offered == w.dropped + |w.accepted|
  }

  ghost predicate Sound(w: World) {
    InOrder(w) && OnTime(w) && Conserved(w)
  }

  lemma PacketsSnoc(ls: seq<Leaving>, l: Leaving)
    ensures Packets(ls + [l]) == Packets(ls) + multiset{l.packet}
  {
    assert (ls + [l])[..|ls|] == ls;
  }

  lemma ArrivedSnoc(xs: seq<Arrival>, x: Arrival)
    ensures Arrived(xs + [x]) == Arrived(xs) + multiset{x.packet}
  {
    assert (xs + [x])[..|xs|] == xs;
  }

  lemma SentAtOnceSound(w: World, p: Pending, now: int)
    requires Sound(w) && w.clock <= now == p.dueUs
    ensures Sound(SentAtOnce(w, p, now))
  {
    hide Packets, Arrived;
    PacketsSnoc(w.leaving, Leaving(p, now, false));
    ArrivedSnoc(w.accepted, Arrival(now, p));
  }

  lemma KeptSound(w: World, p: Pending, now: int)
    requires Sound(w) && w.clock <= now <= p.dueUs
    ensures Sound(Kept(w, p, now))
  {
    KeptOrder(w, p, now);
    hide Packets, Arrived, InOrder;
    ArrivedSnoc(w.accepted, Arrival(now, p));
  }

  /** A new entry is due no earlier than now, and what has left was due by now. */
  lemma KeptOrder(w: World, p: Pending, now: int)
    requires InOrder(w) && OnTime(w) && w.clock <= now <= p.dueUs
    ensures InOrder(Kept(w, p, now))
  {
    forall i, q | 0 <= i < |w.leaving| && w.leaving[i].queued && q in w.pending + multiset{p}
      ensures w.leaving[i].packet.dueUs <= q.dueUs
    {
      assert q == p || q in w.pending;
    }
  }

  lemma PopSound(w: World, p: Pending, now: int)
    requires Sound(w) && w.clock <= now && Top(w.pending, p) && p.dueUs <= now
    ensures Sound(Popped(w, p, now))
  {
    PopOrder(w, p, now);
    PopOnTime(w, p, now);
    hide Packets, Arrived, InOrder, OnTime;
    PacketsSnoc(w.leaving, Leaving(p, now, true));
    MovesOver(Arrived(w.accepted), Packets(w.leaving), w.pending, p);
  }

  lemma MovesOver(all: multiset<Pending>, out: multiset<Pending>, rest: multiset<Pending>, p: Pending)
    requires all == out + rest && p in rest
    ensures all == (out + multiset{p}) + (rest - multiset{p})
  {
  }

  lemma PopOnTime(w: World, p: Pending, now: int)
    requires OnTime(w) && w.clock <= now && p.dueUs <= now
    ensures OnTime(Popped(w, p, now))
  {
  }

  lemma PopOrder(w: World, p: Pending, now: int)
    requires InOrder(w) && Top(w.pending, p)
    ensures InOrder(Popped(w, p, now))
  {
    assert forall q :: q in w.pending - multiset{p} ==> q in w.pending;
  }

  lemma InjectSound(cfg: Config, w: World, data: bytes, uniform: real, draw: u32, now: int)
    requires Sound(w) && w.clock <= now
    ensures Sound(Injected(cfg, w, data, uniform, draw, now))
  {
    hide InOrder, OnTime, Conserved, SentAtOnce, Kept, Drops;
    var d: nat := DelayMs(cfg, draw);
    var p := Pending(now + d * 1000, data);
    if Drops(cfg, uniform) {
      LostSound(w, now);
    } else if d == 0 {
      SentAtOnceSound(w, p, now);
    } else {
      KeptSound(w, p, now);
    }
  }

  lemma LostSound(w: World, now: int)
    requires Sound(w) && w.clock <= now
    ensures Sound(Lost(w, now))
  {
    hide Packets, Arrived;
  }

  /**
   * Over every run: packets leave the heap in the order of their due times and never early, whatever
   * is still pending is due no earlier than what has left it, and the packets accepted are those sent
   * and those pending, each as often as it came.
   */
  lemma {:induction false} SoundOverRuns(cfg: Config, ws: seq<World>)
    requires Run(cfg, ws)
    ensures Sound(ws[|ws| - 1])
    decreases |ws|
  {
    var n := |ws| - 1;
    hide Next, Sound;
    if n > 0 {
      SoundOverRuns(cfg, ws[..n]);
      NextSound(cfg, ws[n - 1], ws[n]);
    } else {
      IdleSound();
    }
  }

  lemma IdleSound()
    ensures Sound(IDLE)
  {
  }

  lemma NextSound(cfg: Config, w: World, v: World)
    requires Sound(w) && Next(cfg, w, v)
    ensures Sound(v)
  {
    hide Injected, Popped, InOrder, OnTime, Conserved, Top;
    WaitSound(w, v.clock);
    if InjectStep(cfg, w, v) {
      var data: bytes, uniform: real, draw: u32 :|
        draw <= cfg.jitterMs && w.clock <= v.clock && v == Injected(cfg, w, data, uniform, draw, v.clock);
      InjectSound(cfg, w, data, uniform, draw, v.clock);
    } else if v != w.(clock := v.clock) {
      var p :| Top(w.pending, p) && p.dueUs <= v.clock && v == Popped(w, p, v.clock);
      PopSound(w, p, v.clock);
    }
  }

  lemma WaitSound(w: World, now: int)
    requires Sound(w)
    ensures w.clock <= now ==> Sound(w.(clock := now))
  {
    hide Packets, Arrived;
  }

  // ---- reordering ----

  /** Every accepted packet is due its delay after it came. */
  ghost predicate DelaysFit(cfg: Config, w: World) {
    forall a :: a in w.accepted ==>
      cfg.delayMs * 1000 <= a.packet.dueUs - a.at <= (cfg.delayMs + cfg.jitterMs) * 1000
  }

  lemma {:induction false} DelaysOverRuns(cfg: Config, ws: seq<World>)
    requires Run(cfg, ws) && cfg.delayMs + cfg.jitterMs < TWO32
    ensures DelaysFit(cfg, ws[|ws| - 1])
    decreases |ws|
  {
    var n := |ws| - 1;
    hide Next, DelaysFit;
    if n > 0 {
      DelaysOverRuns(cfg, ws[..n]);
      NextFits(cfg, ws[n - 1], ws[n]);
    } else {
      IdleFits(cfg);
    }
  }

  lemma IdleFits(cfg: Config)
    ensures DelaysFit(cfg, IDLE)
  {
  }

  lemma NextFits(cfg: Config, w: World, v: World)
    requires DelaysFit(cfg, w) && Next(cfg, w, v) && cfg.delayMs + cfg.jitterMs < TWO32
    ensures DelaysFit(cfg, v)
  {
    hide Top, Drops;
  }

  /**
   * Jitter bounds reordering: of two packets that left the heap, the later one came at most jitterMs
   * before the earlier one.
   */
  lemma ReorderWindow(cfg: Config, ws: seq<World>, i: nat, j: nat, a: Arrival, b: Arrival)
    requires Run(cfg, ws) && cfg.delayMs + cfg.jitterMs < TWO32
    requires var w := ws[|ws| - 1];
             i < j < |w.leaving| && w.leaving[i].queued && w.leaving[j].queued
             && a in w.accepted && b in w.accepted && a.packet == w.leaving[i].packet && b.packet == w.leaving[j].packet
    ensures a.at - cfg.jitterMs * 1000 <= b.at
  {
    SoundOverRuns(cfg, ws);
    DelaysOverRuns(cfg, ws);
    hide Run, Next, Conserved, OnTime;
  }

  /** No two packets come at the same clock reading. */
  ghost predicate Spaced(ws: seq<World>) {
    forall i :: 0 < i < |ws| ==> |ws[i].accepted| > |ws[i - 1].accepted| ==> ws[i - 1].clock < ws[i].clock
  }

  /** What has left is what came first, and the rest is pending. */
  ghost predicate Fifo(w: World) {
    && |w.leaving| <= |w.accepted|
    && (forall i :: 0 <= i < |w.leaving| ==> w.leaving[i].packet == w.accepted[i].packet)
    && w.pending == Arrived(w.accepted[|w.leaving|..])
  }

  ghost predicate Rising(cfg: Config, w: World) {
    && (forall i :: 0 <= i < |w.accepted| ==>
          w.accepted[i].packet.dueUs == w.accepted[i].at + cfg.delayMs * 1000 && w.accepted[i].at <= w.clock)
    && (forall i, j :: 0 <= i < j < |w.accepted| ==> w.accepted[i].at < w.accepted[j].at)
  }

  lemma {:induction false} ArrivedHolds(xs: seq<Arrival>, i: nat)
    requires i < |xs|
    ensures xs[i].packet in Arrived(xs)
    decreases |xs|
  {
    var n := |xs| - 1;
    if i < n {
      ArrivedHolds(xs[..n], i);
    }
  }

  lemma {:induction false} ArrivedFrom(xs: seq<Arrival>, p: Pending) returns (i: nat)
    requires p in Arrived(xs)
    ensures i < |xs| && xs[i].packet == p
    decreases |xs|
  {
    var n := |xs| - 1;
    i := n;
    if xs[n].packet != p {
      i := ArrivedFrom(xs[..n], p);
    }
  }

  lemma {:induction false} ArrivedFirst(xs: seq<Arrival>)
    requires xs != []
    ensures Arrived(xs) == multiset{xs[0].packet} + Arrived(xs[1..])
    decreases |xs|
  {
    var n := |xs| - 1;
    ArrivedLast(xs);
    if n > 0 {
      ArrivedLast(xs[1..]);
      assert xs[..n][1..] == xs[1..][..n - 1];
      hide Arrived;
      ArrivedFirst(xs[..n]);
      Regroup(multiset{xs[0].packet}, Arrived(xs[..n][1..]), multiset{xs[n].packet});
    } else {
      assert xs[..0] == [] && xs[1..] == [];
    }
  }

  lemma ArrivedLast(xs: seq<Arrival>)
    requires xs != []
    ensures Arrived(xs) == Arrived(xs[..|xs| - 1]) + multiset{xs[|xs| - 1].packet}
  {
  }

  lemma Regroup(a: multiset<Pending>, b: multiset<Pending>, c: multiset<Pending>)
    ensures a + b + c == a + (b + c)
  {
  }

  /** With rising due times the top of the heap is the first that came. */
  lemma TopIsFirst(cfg: Config, w: World, p: Pending)
    requires Fifo(w) && Rising(cfg, w) && Top(w.pending, p)
    ensures var k := |w.leaving|; k < |w.accepted| && p == w.accepted[k].packet
  {
    hide Arrived;
    var k := |w.leaving|;
    var rest := w.accepted[k..];
    var i := ArrivedFrom(rest, p);
    ArrivedHolds(rest, 0);
    assert rest[0].packet in w.pending;
    assert rest[0] == w.accepted[k] && rest[i] == w.accepted[k + i];
  }

  lemma MinusOne(m: multiset<Pending>, x: Pending, r: multiset<Pending>)
    requires m == multiset{x} + r
    ensures m - multiset{x} == r
  {
  }

  lemma PendingAfter(w: World)
    requires Fifo(w) && |w.leaving| < |w.accepted|
    ensures var k := |w.leaving|; w.pending - multiset{w.accepted[k].packet} == Arrived(w.accepted[k + 1..])
  {
    hide Arrived;
    var rest := w.accepted[|w.leaving|..];
    ArrivedFirst(rest);
    assert rest[1..] == w.accepted[|w.leaving| + 1..];
    MinusOne(w.pending, rest[0].packet, Arrived(rest[1..]));
  }

  lemma PopFifo(cfg: Config, w: World, p: Pending, now: int)
    requires Fifo(w) && Rising(cfg, w) && Top(w.pending, p)
    ensures Fifo(Popped(w, p, now))
  {
    TopIsFirst(cfg, w, p);
    PendingAfter(w);
    hide Arrived, Top, Rising;
  }

  lemma PopRising(cfg: Config, w: World, p: Pending, now: int)
    requires Rising(cfg, w) && w.clock <= now
    ensures Rising(cfg, Popped(w, p, now))
  {
  }

  lemma SentFifo(cfg: Config, w: World, p: Pending, now: int)
    requires Fifo(w) && |w.leaving| == |w.accepted|
    ensures Fifo(SentAtOnce(w, p, now))
  {
    hide Arrived;
    var k := |w.leaving|;
    assert w.accepted[k..] == [] && (w.accepted + [Arrival(now, p)])[k + 1..] == [];
  }

  lemma KeptFifo(cfg: Config, w: World, p: Pending, now: int)
    requires Fifo(w)
    ensures Fifo(Kept(w, p, now))
  {
    hide Arrived;
    var k, a := |w.leaving|, Arrival(now, p);
    ArrivedSnoc(w.accepted[k..], a);
    assert (w.accepted + [a])[k..] == w.accepted[k..] + [a];
  }

  lemma OneMoreRising(cfg: Config, w: World, p: Pending, now: int)
    requires Rising(cfg, w) && w.clock < now && p.dueUs == now + cfg.delayMs * 1000
    ensures Rising(cfg, SentAtOnce(w, p, now)) && Rising(cfg, Kept(w, p, now))
  {
  }

  lemma LaterSame(cfg: Config, w: World, now: int)
    requires Fifo(w) && Rising(cfg, w) && w.clock <= now
    ensures Fifo(w.(clock := now)) && Rising(cfg, w.(clock := now))
    ensures Fifo(Lost(w, now)) && Rising(cfg, Lost(w, now))
  {
    hide Arrived;
  }

  lemma InjectFifo(cfg: Config, w: World, data: bytes, uniform: real, draw: u32, now: int)
    requires Ordered(cfg, w) && cfg.jitterMs == 0
    requires w.clock <= now && (!Drops(cfg, uniform) ==> w.clock < now)
    ensures Ordered(cfg, Injected(cfg, w, data, uniform, draw, now))
  {
    hide Fifo, Rising, Drops;
    var p := Pending(now + cfg.delayMs * 1000, data);
    if Drops(cfg, uniform) {
      LaterSame(cfg, w, now);
    } else {
      OneMoreRising(cfg, w, p, now);
      if cfg.delayMs == 0 {
        SentFifo(cfg, w, p, now);
      } else {
        KeptFifo(cfg, w, p, now);
      }
    }
  }

  ghost predicate Ordered(cfg: Config, w: World) {
    Fifo(w) && Rising(cfg, w) && (cfg.delayMs == 0 ==> |w.leaving| == |w.accepted|)
  }

  lemma PoppedFromSome(cfg: Config, w: World, p: Pending)
    requires Ordered(cfg, w) && Top(w.pending, p)
    ensures cfg.delayMs > 0
  {
    TopIsFirst(cfg, w, p);
    hide Fifo, Rising, Top;
  }

  lemma NextFifo(cfg: Config, w: World, v: World)
    requires Ordered(cfg, w) && cfg.jitterMs == 0
    requires Next(cfg, w, v) && (|v.accepted| > |w.accepted| ==> w.clock < v.clock)
    ensures Ordered(cfg, v)
  {
    hide Fifo, Rising, Top, Drops;
    if InjectStep(cfg, w, v) {
      var data: bytes, uniform: real, draw: u32 :|
        draw <= cfg.jitterMs && w.clock <= v.clock && v == Injected(cfg, w, data, uniform, draw, v.clock);
      InjectFifo(cfg, w, data, uniform, draw, v.clock);
    } else {
      LaterSame(cfg, w, v.clock);
      if v != w.(clock := v.clock) {
        var p :| Top(w.pending, p) && p.dueUs <= v.clock && v == Popped(w, p, v.clock);
        PopFifo(cfg, w, p, v.clock);
        PopRising(cfg, w, p, v.clock);
        PoppedFromSome(cfg, w, p);
      }
    }
  }

  /**
   * Without jitter the simulator only delays: as long as no two packets come at the same microsecond,
   * they leave in the order they came. With no delay either, each leaves as it comes.
   */
  lemma {:induction false} FifoWithoutJitter(cfg: Config, ws: seq<World>)
    requires Run(cfg, ws) && Spaced(ws) && cfg.jitterMs == 0
    ensures Ordered(cfg, ws[|ws| - 1])
    decreases |ws|
  {
    var n := |ws| - 1;
    hide Next, Fifo, Rising;
    if n > 0 {
      var front := ws[..n];
      FifoWithoutJitter(cfg, front);
      assert front[n - 1] == ws[n - 1];
      NextFifo(cfg, ws[n - 1], ws[n]);
    } else {
      IdleOrdered(cfg);
    }
  }

  lemma IdleOrdered(cfg: Config)
    ensures Fifo(IDLE) && Rising(cfg, IDLE)
  {
  }
}
