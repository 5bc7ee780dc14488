/**
 * The resequencing buffer: reorders units by 32-bit sequence number, notices gaps, adapts its
 * depth to the measured jitter and hands units on one at a time.
 *
 * The functions on `State` say what each call does; the class at the end is the code itself,
 * proved against them. Every call takes the clock reading it sees as `now`.
 */
module JitterBuffers {
  import opened Bytes
  import opened Options

  datatype Unit<T> = Unit(seqNo: u32, genUs: int, firstRecvUs: int, data: T)

  const MIN_DELAY_US := 15_000
  const MAX_DELAY_US := 250_000
  const JITTER_CAP_US := 200_000
  const LEAP := 1024
  const NACK_RECORDS := 4096

  /** The jitter estimate and the depth derived from it. */
  datatype Pacing = Pacing(
    lastArrivalUs: int,
    lastGenUs: int,
    jitterUs: real,
    rttMs: real,
    targetUs: int,
    maxWaitUs: int)

  datatype State<T> = State(
    buf: map<u32, Unit<T>>,
    nextOut: u32,
    started: bool,
    headMissingSinceUs: int,
    lastPopUs: int,
    pacing: Pacing,
    lastNackUs: map<u32, int>,
    totalBuffered: int,
    netLost: nat,
    maxUnits: nat,
    nackIntervalUs: int)

  const UNTUNED := Pacing(0, 0, 0.0, 0.0, 40_000, 130_000)

  function Initial<T>(maxUnits: nat, nackIntervalUs: int): State<T> {
    State(map[], 0, false, 0, 0, UNTUNED, map[], 0, 0, maxUnits, nackIntervalUs)
  }

  // ---- 32-bit sequence arithmetic ----

  /** How far a lies ahead of b, modulo 2^32. */
  function SeqDelta(a: u32, b: u32): u32 {
    if a >= b then a - b else a + TWO32 - b
  }

  /** Wrap-safe "a is older than b": the difference read as a signed 32-bit number is negative. */
  predicate SeqLt(a: u32, b: u32) {
    SeqDelta(a, b) >= TWO32 / 2
  }

  function Next(a: u32): u32 {
    if a + 1 == TWO32 then 0 else a + 1
  }

  ghost function MinKey(keys: set<u32>): (k: u32)
    requires keys != {}
    ensures k in keys && forall j :: j in keys ==> k <= j
    decreases |keys|
  {
    var x :| x in keys;
    if keys == {x} then x
    else
      assert keys - {x} != {};
      var m := MinKey(keys - {x});
      assert forall j :: j in keys ==> j == x || j in keys - {x};
      if m < x then m else x
  }

  lemma NextIsCloser(a: u32, b: u32)
    requires a != b
    ensures SeqDelta(a, Next(b)) == SeqDelta(a, b) - 1
  {
  }

  /** buf_.begin(): the smallest key. */
  method First<V>(m: map<u32, V>) returns (k: u32)
    requires m != map[]
    ensures k == MinKey(m.Keys)
  {
    ghost var w := MinKey(m.Keys);
    assert w in m && forall j :: j in m ==> w <= j;
    k :| k in m && forall j :: j in m ==> k <= j;
  }

  // ---- jitter estimate and target depth ----

  /** A C++ cast of a double to int64: towards zero. */
  function Truncate(x: real): int {
    if x >= 0.0 then x.Floor else -((-x).Floor)
  }

  function Clamp(x: int, lo: int, hi: int): int {
    var a := if x < lo then lo else x;
    if a > hi then hi else a
  }

  function Retuned(p: Pacing): Pacing {
    var target := Clamp(Truncate(3.0 * p.jitterUs + p.rttMs * 1000.0), MIN_DELAY_US, MAX_DELAY_US);
    p.(targetUs := target, maxWaitUs := 2 * target + 50_000)
  }

  function Ewma(jitter: real, d: int): real {
    var abs := if d < 0 then -d else d;
    var capped := if abs > JITTER_CAP_US then JITTER_CAP_US else abs;
    jitter + (capped as real - jitter) / 16.0
  }

  /** The estimate after a unit that arrived in order. */
  function Estimated(p: Pacing, genUs: int, now: int): Pacing {
    var dArr, dGen := now - p.lastArrivalUs, genUs - p.lastGenUs;
    var q := if p.lastArrivalUs != 0 && dGen > 0 && dArr >= 0
             then Retuned(p.(jitterUs := Ewma(p.jitterUs, dArr - dGen))) else p;
    q.(lastArrivalUs := now, lastGenUs := genUs)
  }

  // ---- push ----

  /** One gap request: throttled per number, with the record cleared wholesale once it grows too large. */
  function Asked(record: map<u32, int>, q: u32, now: int, interval: int): (map<u32, int>, bool) {
    if q in record && now - record[q] < interval then (record, false)
    else
      var r := record[q := now];
      (if |r| > NACK_RECORDS then map[] else r, true)
  }

  /** The gap scan over `gap` numbers from `from` on: the new record and the numbers asked for. */
  function Scan(record: map<u32, int>, present: set<u32>, from: u32, gap: nat, now: int, interval: int)
    : (map<u32, int>, seq<u32>)
    decreases gap
  {
    if gap == 0 then (record, [])
    else if from in present then Scan(record, present, Next(from), gap - 1, now, interval)
    else
      var (r1, hit) := Asked(record, from, now, interval);
      var (r2, rest) := Scan(r1, present, Next(from), gap - 1, now, interval);
      (r2, (if hit then [from] else []) + rest)
  }

  /** One turn of the scan, with what was asked for before it. */
  lemma ScanStep(record: map<u32, int>, present: set<u32>, from: u32, gap: nat, now: int, interval: int,
                 before: seq<u32>)
    requires gap > 0
    ensures var (r1, hit) := if from in present then (record, false) else Asked(record, from, now, interval);
            var whole := Scan(record, present, from, gap, now, interval);
            var rest := Scan(r1, present, Next(from), gap - 1, now, interval);
            && whole.0 == rest.0
            && before + whole.1 == (if hit then before + [from] else before) + rest.1
  {
    var (r1, hit) := if from in present then (record, false) else Asked(record, from, now, interval);
    var rest := Scan(r1, present, Next(from), gap - 1, now, interval).1;
    assert before + ([from] + rest) == (before + [from]) + rest;
    assert [] + rest == rest;
  }

  /** Overflow: drop the numerically smallest units until at most maxUnits are left. */
  ghost function Evicted<T>(buf: map<u32, Unit<T>>, maxUnits: nat): (map<u32, Unit<T>>, seq<Unit<T>>)
    decreases |buf|
  {
    if |buf| <= maxUnits then (buf, [])
    else
      var k := MinKey(buf.Keys);
      DropShrinks(buf, k);
      var (rest, out) := Evicted(buf - {k}, maxUnits);
      (rest, [buf[k]] + out)
  }

  lemma DropShrinks<T>(m: map<u32, T>, k: u32)
    requires k in m
    ensures |m - {k}| == |m| - 1 && (m - {k}).Keys == m.Keys - {k}
  {
    assert (m - {k}).Keys == m.Keys - {k};
  }

  datatype PushResult<T> = PushResult(
    st: State<T>,
    ok: bool,
    asked: seq<u32>,         // numbers requested through the gap callback
    isNew: bool,             // the unit was not buffered before
    jumped: nat,             // numbers passed over by re-aligning to a far-away unit
    evicted: seq<Unit<T>>)   // units dropped because of overflow

  /** A number this far ahead makes the buffer re-align to it instead of asking for the gap. */
  predicate Leaps(nextOut: u32, seqNo: u32) {
    !SeqLt(seqNo, nextOut) && SeqDelta(seqNo, nextOut) > LEAP
  }

  function Begun<T>(s: State<T>, seqNo: u32): State<T> {
    if s.started then s else s.(started := true, nextOut := seqNo)
  }

  function Inserted<T>(s: State<T>, u: Unit<T>): State<T> {
    if u.seqNo in s.buf then s
    else s.(buf := s.buf[u.seqNo := u], totalBuffered := s.totalBuffered + 1)
  }

  /** The gap check: re-align to a far-away unit, or scan the gap in front of it. */
  function Detected<T>(s: State<T>, seqNo: u32, now: int): (State<T>, seq<u32>) {
    if SeqLt(seqNo, s.nextOut) then (s, [])
    else if Leaps(s.nextOut, seqNo) then (s.(nextOut := seqNo), [])
    else
      var (record, asked) :=
        Scan(s.lastNackUs, s.buf.Keys, s.nextOut, SeqDelta(seqNo, s.nextOut), now, s.nackIntervalUs);
      (s.(lastNackUs := record), asked)
  }

  ghost function Trimmed<T>(s: State<T>): (State<T>, seq<Unit<T>>) {
    var (kept, evicted) := Evicted(s.buf, s.maxUnits);
    (s.(buf := kept, netLost := s.netLost + |evicted|), evicted)
  }

  ghost function PushSpec<T>(s: State<T>, seqNo: u32, genUs: int, data: T, now: int): PushResult<T> {
    if s.started && SeqLt(seqNo, s.nextOut) then PushResult(s, false, [], false, 0, [])
    else
      var s1 := Begun(s, seqNo);
      var s2 := if seqNo == s1.nextOut then s1.(pacing := Estimated(s1.pacing, genUs, now)) else s1;
      var s3 := Inserted(s2, Unit(seqNo, genUs, now, data));
      var (s4, asked) := Detected(s3, seqNo, now);
      var (s5, evicted) := Trimmed(s4);
      PushResult(s5, true, asked, seqNo !in s.buf,
                 if Leaps(s1.nextOut, seqNo) then SeqDelta(seqNo, s1.nextOut) else 0, evicted)
  }

  // ---- pop ----

  datatype PopResult<T> = PopResult(
    st: State<T>,
    out: Option<Unit<T>>,
    asked: seq<u32>,   // numbers requested through the gap callback
    skipped: nat)      // numbers given up by jumping over a gap

  predicate Starved<T>(s: State<T>, now: int) {
    now - s.lastPopUs > s.pacing.targetUs
  }

  function Taken<T>(s: State<T>, k: u32, now: int): State<T>
    requires k in s.buf
  {
    s.(buf := s.buf - {k}, nextOut := Next(s.buf[k].seqNo), lastPopUs := now, headMissingSinceUs := 0,
       totalBuffered := s.totalBuffered - 1)
  }

  ghost function PopSpec<T>(s: State<T>, now: int): PopResult<T> {
    if !s.started || s.buf == map[] then PopResult(s, None, [], 0)
    else if s.nextOut !in s.buf then
      var since := if s.headMissingSinceUs == 0 then now else s.headMissingSinceUs;
      if now - since < s.pacing.maxWaitUs && !Starved(s, now) then
        PopResult(s.(headMissingSinceUs := since), None, [s.nextOut], 0)
      else
        var head := MinKey(s.buf.Keys);
        var lost := SeqDelta(head, s.nextOut);
        PopResult(Taken(s, head, now).(netLost := s.netLost + lost), Some(s.buf[head]), [], lost)
    else if now - s.buf[s.nextOut].firstRecvUs < s.pacing.targetUs && !Starved(s, now) then
      PopResult(s.(headMissingSinceUs := 0), None, [], 0)
    else
      PopResult(Taken(s, s.nextOut, now), Some(s.buf[s.nextOut]), [], 0)
  }

  ghost function SetRttSpec<T>(s: State<T>, ms: real): State<T> {
    s.(pacing := Retuned(s.pacing.(rttMs := ms)))
  }

  // ---- what the gap scan asks for ----

  ghost predicate InGap(q: u32, from: u32, gap: nat) {
    SeqDelta(q, from) < gap
  }

  lemma GapStep(q: u32, from: u32, gap: nat)
    requires 0 < gap < TWO32
    ensures InGap(q, from, gap) <==> q == from || InGap(q, Next(from), gap - 1)
  {
  }

  /**
   * Within one push every number asked for is an absent number of the gap, and every absent number
   * of the gap is asked for now or was asked for less than the throttling interval ago.
   */
  lemma {:induction false} ScanAsksForTheGap(record: map<u32, int>, present: set<u32>, from: u32, gap: nat,
                                             now: int, interval: int, q: u32)
    requires gap <= LEAP
    ensures var asked := Scan(record, present, from, gap, now, interval).1;
            && (q in asked ==> InGap(q, from, gap) && q !in present)
            && (InGap(q, from, gap) && q !in present && q !in asked ==>
                  q in record && now - record[q] < interval)
    decreases gap
  {
    if gap > 0 {
      GapStep(q, from, gap);
      var r1 := if from in present then record else Asked(record, from, now, interval).0;
      ScanAsksForTheGap(r1, present, Next(from), gap - 1, now, interval, q);
      assert q != from && q in r1 ==> q in record && r1[q] == record[q];
    }
  }

  // ---- the code ----

  class JitterBuffer<T> {
    var buf: map<u32, Unit<T>>
    var nextOut: u32
    var started: bool
    var headMissingSinceUs: int
    var lastPopUs: int
    var pacing: Pacing
    var lastNackUs: map<u32, int>
    var totalBuffered: int
    var netLost: nat
    const maxUnits: nat
    const nackIntervalUs: int

    ghost function St(): State<T>
      reads this
    {
      State(buf, nextOut, started, headMissingSinceUs, lastPopUs, pacing, lastNackUs, totalBuffered, netLost,
            maxUnits, nackIntervalUs)
    }

    constructor (maxUnits: nat, nackIntervalUs: int)
      ensures St() == Initial(maxUnits, nackIntervalUs)
    {
      this.maxUnits, this.nackIntervalUs := maxUnits, nackIntervalUs;
      buf, nextOut, started := map[], 0, false;
      headMissingSinceUs, lastPopUs, pacing, lastNackUs := 0, 0, UNTUNED, map[];
      totalBuffered, netLost := 0, 0;
    }

    method SetRttMs(ms: real)
      modifies this
      ensures St() == SetRttSpec(old(St()), ms)
    {
      pacing := pacing.(rttMs := ms);
      RetuneTargetLocked();
    }

    method RetuneTargetLocked()
      modifies this`pacing
      ensures pacing == Retuned(old(pacing))
    {
      var target := Truncate(3.0 * pacing.jitterUs + pacing.rttMs * 1000.0);
      target := if target < MIN_DELAY_US then MIN_DELAY_US else target;
      target := if target > MAX_DELAY_US then MAX_DELAY_US else target;
      pacing := pacing.(targetUs := target);
      pacing := pacing.(maxWaitUs := 2 * pacing.targetUs + 50_000);
    }

    method MaybeNackLocked(q: u32, now: int) returns (hit: bool)
      modifies this`lastNackUs
      ensures (lastNackUs, hit) == Asked(old(lastNackUs), q, now, nackIntervalUs)
    {
      if q in lastNackUs && now - lastNackUs[q] < nackIntervalUs {
        return false;
      }
      lastNackUs := lastNackUs[q := now];
      if |lastNackUs| > NACK_RECORDS {
        lastNackUs := map[];
      }
      return true;
    }

    method DetectMissingLocked(arrived: u32, now: int) returns (asked: seq<u32>)
      modifies this`lastNackUs, this`nextOut
      ensures (St(), asked) == Detected(old(St()), arrived, now)
    {
      asked := [];
      if SeqLt(arrived, nextOut) || arrived == nextOut {
        return;
      }
      var gap := SeqDelta(arrived, nextOut);
      if gap > LEAP {
        nextOut := arrived;
        return;
      }
      asked := ScanGap(arrived, now);
    }

    /** The loop over the gap in front of a unit that is not far away. */
    method ScanGap(arrived: u32, now: int) returns (asked: seq<u32>)
      modifies this`lastNackUs
      ensures (lastNackUs, asked) ==
              Scan(old(lastNackUs), buf.Keys, nextOut, SeqDelta(arrived, nextOut), now, nackIntervalUs)
    {
      var s := nextOut;
      asked := [];
      ghost var present, left := buf.Keys, SeqDelta(arrived, s);
      ghost var whole := Scan(lastNackUs, present, s, left, now, nackIntervalUs);
      ghost var todo := whole;
      assert [] + todo.1 == todo.1;
      while s != arrived
        invariant left == SeqDelta(arrived, s)
        invariant todo == Scan(lastNackUs, present, s, left, now, nackIntervalUs)
        invariant whole == (todo.0, asked + todo.1)
        decreases left
      {
        NextIsCloser(arrived, s);
        ScanStep(lastNackUs, present, s, left, now, nackIntervalUs, asked);
        if s !in buf {
          var hit := MaybeNackLocked(s, now);
          if hit {
            asked := asked + [s];
          }
        }
        s := Next(s);
        left := left - 1;
        todo := Scan(lastNackUs, present, s, left, now, nackIntervalUs);
      }
      assert asked + [] == asked;
    }

    method EvictOverflowLocked()
      modifies this`buf, this`netLost
      ensures var (kept, out) := Evicted(old(buf), maxUnits);
              buf == kept && netLost == old(netLost) + |out|
    {
      ghost var all := Evicted(buf, maxUnits);
      ghost var gone := [];
      assert gone + all.1 == all.1;
      while |buf| > maxUnits
        invariant all.0 == Evicted(buf, maxUnits).0 && all.1 == gone + Evicted(buf, maxUnits).1
        invariant netLost == old(netLost) + |gone|
        decreases |buf|
      {
        var first := First(buf);
        DropShrinks(buf, first);
        ghost var later := Evicted(buf - {first}, maxUnits).1;
        assert gone + ([buf[first]] + later) == (gone + [buf[first]]) + later;
        gone := gone + [buf[first]];
        buf := buf - {first};
        netLost := netLost + 1;
      }
    }

    /** Inserts a unit; false means it is older than what was already handed on. */
    method Push(seqNo: u32, genUs: int, data: T, now: int) returns (ok: bool, asked: seq<u32>)
      modifies this
      ensures var r := PushSpec(old(St()), seqNo, genUs, data, now);
              St() == r.st && ok == r.ok && asked == r.asked
    {
      ghost var s0 := St();
      if started && SeqLt(seqNo, nextOut) {
        return false, [];
      }
      if !started {
        started := true;
        nextOut := seqNo;
      }
      assert St() == Begun(s0, seqNo);
      if seqNo == nextOut {
        EstimateJitter(genUs, now);
      }
      ghost var s2 := St();
      if seqNo !in buf {
        buf := buf[seqNo := Unit(seqNo, genUs, now, data)];
        totalBuffered := totalBuffered + 1;
      }
      assert St() == Inserted(s2, Unit(seqNo, genUs, now, data));
      asked := DetectMissingLocked(seqNo, now);
      ghost var s4 := St();
      EvictOverflowLocked();
      assert St() == Trimmed(s4).0;
      ok := true;
    }

    /** The jitter estimate, updated only by units that arrive in order. */
    method EstimateJitter(genUs: int, now: int)
      modifies this`pacing
      ensures pacing == Estimated(old(pacing), genUs, now)
    {
      if pacing.lastArrivalUs != 0 {
        var dArr := now - pacing.lastArrivalUs;
        var dGen := genUs - pacing.lastGenUs;
        if dGen > 0 && dArr >= 0 {
          var d := dArr - dGen;
          if d < 0 {
            d := -d;
          }
          if d > JITTER_CAP_US {
            d := JITTER_CAP_US;
          }
          pacing := pacing.(jitterUs := pacing.jitterUs + (d as real - pacing.jitterUs) / 16.0);
          RetuneTargetLocked();
        }
      }
      pacing := pacing.(lastArrivalUs := now, lastGenUs := genUs);
    }

    /** Takes the next unit if its turn has come. */
    method Pop(now: int) returns (out: Option<Unit<T>>, asked: seq<u32>)
      modifies this
      ensures var r := PopSpec(old(St()), now);
              St() == r.st && out == r.out && asked == r.asked
    {
      ghost var s0 := St();
      ghost var r := PopSpec(s0, now);
      out, asked := None, [];
      if !started || |buf| == 0 {
        assert St() == r.st;
        return;
      }
      var starved := now - lastPopUs > pacing.targetUs;
      var key := nextOut;
      if nextOut !in buf {
        if headMissingSinceUs == 0 {
          headMissingSinceUs := now;
        }
        if now - headMissingSinceUs < pacing.maxWaitUs && !starved {
          asked := [nextOut];
          assert St() == r.st;
          return;
        }
        var head := First(buf);
        netLost := netLost + SeqDelta(head, nextOut);
        nextOut := head;
        headMissingSinceUs := 0;
        key := head;
        assert r ==
          PopResult(Taken(s0, head, now).(netLost := netLost), Some(buf[head]), [], SeqDelta(head, s0.nextOut));
      } else {
        headMissingSinceUs := 0;
        var heldUs := now - buf[nextOut].firstRecvUs;
        if heldUs < pacing.targetUs && !starved {
          assert St() == r.st;
          return;
        }
        assert r == PopResult(Taken(s0, key, now), Some(buf[key]), [], 0);
      }
      out := Take(key, now);
    }

    /** The last lines of pop: hand the unit on and move past it. */
    method Take(key: u32, now: int) returns (out: Option<Unit<T>>)
      requires key in buf && headMissingSinceUs == 0
      modifies this
      ensures St() == Taken(old(St()), key, now) && out == Some(old(buf[key]))
    {
      out := Some(buf[key]);
      nextOut := Next(buf[key].seqNo);
      buf := buf - {key};
      lastPopUs := now;
      totalBuffered := totalBuffered - 1;
    }
  }
}
