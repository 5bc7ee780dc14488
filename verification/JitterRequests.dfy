/**
 * What the resequencing buffer asks for: exactly the head a pop waits for, and exactly the gap in front of an arrival,
 * each number at most once per throttling interval.
 */
module JitterRequests {
  import opened Bytes
  import opened Options
  import opened JitterBuffers
  import opened JitterRuns
  import opened JitterOrder

  // ---- a pop ----

  /** A pop asks for the head exactly when the head is missing behind which something is held, and it waits for it. */
  lemma WaitingPopAsks<T>(s: State<T>, now: int)
    ensures PopSpec(s, now).asked ==
            if s.started && s.buf != map[] && s.nextOut !in s.buf && PopSpec(s, now).out.None? then [s.nextOut] else []
  {
    hide Starved, SeqDelta, Taken;
  }

  /** After any run: a missing head is asked for exactly as long as the last pop is at most the depth ago. */
  lemma HeadIsAskedFor<T>(maxUnits: nat, interval: int, es: seq<Event<T>>, now: int)
    requires TimelyRun(Fresh(maxUnits, interval), es)
    requires var w := Run(Fresh(maxUnits, interval), es);
             w.clock <= now && w.st.started && w.st.buf != map[] && w.st.nextOut !in w.st.buf
    ensures var s := Run(Fresh(maxUnits, interval), es).st;
            PopSpec(s, now).asked == if now - s.lastPopUs <= s.pacing.targetUs then [s.nextOut] else []
  {
    hide PopSpec, Run;
    PopFailsExactlyWhile(maxUnits, interval, es, now);
    WaitingPopAsks(Run(Fresh(maxUnits, interval), es).st, now);
  }

  // ---- one scan ----

  ghost predicate Throttled(record: map<u32, int>, q: u32, now: int, interval: int) {
    q in record && now - record[q] < interval
  }

  /** What one scan does to the record, as long as the record is not cleared. */
  ghost predicate Recorded(record: map<u32, int>, after: map<u32, int>, asked: seq<u32>, now: int) {
    forall q :: (q in after <==> q in record || q in asked)
                && (q in asked ==> after[q] == now) && (q !in asked && q in record ==> after[q] == record[q])
  }

  lemma AskedRecords(record: map<u32, int>, q: u32, now: int, interval: int)
    requires |record| < 4096
    ensures var (after, hit) := Asked(record, q, now, interval);
            && (hit <==> !Throttled(record, q, now, interval))
            && after == (if hit then record[q := now] else record) && |after| <= |record| + 1
  {
    assert record[q := now].Keys == record.Keys + {q};
  }

  /** What one scan does to one number. */
  lemma {:induction false} ScanOne(record: map<u32, int>, present: set<u32>, from: u32, gap: nat, now: int,
                                   interval: int, q: u32)
    requires gap <= 1024 && |record| + gap <= 4096
    ensures var (after, asked) := Scan(record, present, from, gap, now, interval);
            && |after| <= |record| + gap && (q in after <==> q in record || q in asked)
            && (q in asked ==> after[q] == now) && (q !in asked && q in record ==> after[q] == record[q])
            && (q in asked <==> InGap(q, from, gap) && q !in present && !Throttled(record, q, now, interval))
    decreases gap
  {
    if gap > 0 {
      GapStep(q, from, gap);
      FromIsOut(from, gap);
      AskedRecords(record, from, now, interval);
      var r1 := if from in present then record else Asked(record, from, now, interval).0;
      hide InGap, Asked;
      ScanOne(r1, present, Next(from), gap - 1, now, interval, q);
    }
  }

  /** The scan asks for exactly the absent numbers of the gap that are not throttled. */
  lemma ScanIsExact(record: map<u32, int>, present: set<u32>, from: u32, gap: nat, now: int, interval: int)
    requires gap <= 1024 && |record| + gap <= 4096
    ensures var (after, asked) := Scan(record, present, from, gap, now, interval);
            && Recorded(record, after, asked, now)
            && forall q :: q in asked <==>
                 InGap(q, from, gap) && q !in present && !Throttled(record, q, now, interval)
  {
    hide Scan, InGap, Throttled;
    var (after, asked) := Scan(record, present, from, gap, now, interval);
    forall q: u32
      ensures (q in after <==> q in record || q in asked)
              && (q in asked ==> after[q] == now) && (q !in asked && q in record ==> after[q] == record[q])
    {
      ScanOne(record, present, from, gap, now, interval, q);
    }
    forall q: u32
      ensures q in asked <==> InGap(q, from, gap) && q !in present && !Throttled(record, q, now, interval)
    {
      ScanOne(record, present, from, gap, now, interval, q);
    }
  }

  lemma FromIsOut(from: u32, gap: nat)
    requires 0 < gap <= 1024
    ensures !InGap(from, Next(from), gap - 1)
  {
  }

  // ---- whole runs ----

  /** The numbers a push asks for. */
  ghost function AskedIn<T>(w: World<T>, e: Event<T>): seq<u32> {
    match e
    case Push(q, gen, data, now) => PushSpec(w.st, q, gen, data, now).asked
    case _ => []
  }

  /** When an arrival last asked for this number. */
  ghost function LastAsked<T>(w: World<T>, es: seq<Event<T>>, q: u32): Option<int> {
    if es == [] then None
    else
      var front, e := es[..|es| - 1], es[|es| - 1];
      if q in AskedIn(Run(w, front), e) then Some(e.now) else LastAsked(w, front, q)
  }

  /** The record of requests never grows to where it is cleared. */
  ghost predicate Uncleared<T>(w: World<T>, es: seq<Event<T>>) {
    es == [] || (Uncleared(w, es[..|es| - 1]) && |Run(w, es[..|es| - 1]).st.lastNackUs| + 1024 <= 4096)
  }

  /** The gap in front of an accepted arrival that does not re-align the buffer. */
  ghost predicate InFront<T>(s: State<T>, seqNo: u32, q: u32) {
    && s.started && !SeqLt(seqNo, s.nextOut) && SeqDelta(seqNo, s.nextOut) <= 1024
    && SeqDelta(q, s.nextOut) < SeqDelta(seqNo, s.nextOut)
  }

  /** One arrival: it asks for exactly what is absent in front of it and not throttled, and that is recorded. */
  lemma PushIsExact<T>(s: State<T>, seqNo: u32, gen: int, data: T, now: int)
    requires |s.lastNackUs| + 1024 <= 4096
    ensures var r := PushSpec(s, seqNo, gen, data, now);
            && Recorded(s.lastNackUs, r.st.lastNackUs, r.asked, now)
            && (forall q :: q in r.asked <==>
                  InFront(s, seqNo, q) && q !in s.buf && !Throttled(s.lastNackUs, q, now, s.nackIntervalUs))
            && r.st.nackIntervalUs == s.nackIntervalUs
  {
    hide PushSpec, Throttled, Recorded, InGap, SeqDelta, SeqLt;
    NothingRecorded(s.lastNackUs, now);
    PushScans(s, seqNo, gen, data, now);
    if s.started && !SeqLt(seqNo, s.nextOut) && SeqDelta(seqNo, s.nextOut) <= 1024 {
      var gap := SeqDelta(seqNo, s.nextOut);
      ScanIsExact(s.lastNackUs, s.buf.Keys + {seqNo}, s.nextOut, gap, now, s.nackIntervalUs);
      forall q: u32
        ensures InGap(q, s.nextOut, gap) <==> SeqDelta(q, s.nextOut) < gap
      {
        GapIs(q, s.nextOut, gap);
      }
    }
  }

  lemma GapIs(q: u32, from: u32, gap: nat)
    ensures InGap(q, from, gap) <==> SeqDelta(q, from) < gap
  {
  }

  /** Which scan a push makes, if any. */
  lemma PushScans<T>(s: State<T>, seqNo: u32, gen: int, data: T, now: int)
    ensures var r := PushSpec(s, seqNo, gen, data, now);
            && r.st.nackIntervalUs == s.nackIntervalUs
            && (r.st.lastNackUs, r.asked) ==
               if s.started && !SeqLt(seqNo, s.nextOut) && SeqDelta(seqNo, s.nextOut) <= 1024
               then Scan(s.lastNackUs, s.buf.Keys + {seqNo}, s.nextOut, SeqDelta(seqNo, s.nextOut), now,
                         s.nackIntervalUs)
               else (s.lastNackUs, [])
  {
    hide Evicted, Estimated;
    assert Inserted(s, Unit(seqNo, gen, now, data)).buf.Keys == s.buf.Keys + {seqNo};
  }

  lemma NothingRecorded(record: map<u32, int>, now: int)
    ensures Recorded(record, record, [], now)
  {
  }

  /** What is recorded is when each number was last asked for. */
  lemma {:induction false} RecordIsLastAsked<T>(maxUnits: nat, interval: int, es: seq<Event<T>>)
    requires Uncleared(Fresh<T>(maxUnits, interval), es)
    ensures var w := Fresh<T>(maxUnits, interval);
            var s := Run(w, es).st;
            && s.nackIntervalUs == interval
            && forall q :: (q in s.lastNackUs <==> LastAsked(w, es, q).Some?)
                           && (q in s.lastNackUs ==> LastAsked(w, es, q) == Some(s.lastNackUs[q]))
  {
    hide Step, AskedIn;
    if es != [] {
      var w := Fresh<T>(maxUnits, interval);
      var front, e := es[..|es| - 1], es[|es| - 1];
      RecordIsLastAsked<T>(maxUnits, interval, front);
      StepRecords(Run(w, front), e);
    }
  }

  lemma StepRecords<T>(w: World<T>, e: Event<T>)
    requires |w.st.lastNackUs| + 1024 <= 4096
    ensures var s, t := w.st, Step(w, e).st;
            && t.nackIntervalUs == s.nackIntervalUs
            && forall q :: (q in t.lastNackUs <==> q in s.lastNackUs || q in AskedIn(w, e))
                           && (q in AskedIn(w, e) ==> t.lastNackUs[q] == e.now)
                           && (q !in AskedIn(w, e) && q in s.lastNackUs ==> t.lastNackUs[q] == s.lastNackUs[q])
  {
    hide PushSpec, Retuned, SeqDelta, SeqLt;
    match e {
      case Push(q, gen, data, now) => PushIsExact(w.st, q, gen, data, now);
      case Pop(now) => PopKeepsRecord(w.st, now);
      case SetRtt(_) =>
    }
  }

  lemma PopKeepsRecord<T>(s: State<T>, now: int)
    ensures PopSpec(s, now).st.lastNackUs == s.lastNackUs && PopSpec(s, now).st.nackIntervalUs == s.nackIntervalUs
  {
    hide Starved, SeqDelta;
  }

  /**
   * After any run, an arrival asks for a number exactly when the number is absent in the gap in front of it and was not
   * asked for by an arrival less than the interval ago.
   */
  lemma GapIsAskedFor<T>(maxUnits: nat, interval: int, es: seq<Event<T>>, e: Event<T>, q: u32)
    requires Uncleared(Fresh<T>(maxUnits, interval), es + [e]) && e.Push?
    ensures var w := Fresh<T>(maxUnits, interval);
            var s := Run(w, es).st;
            var last := LastAsked(w, es, q);
            q in AskedIn(Run(w, es), e) <==>
              InFront(s, e.seqNo, q) && q !in s.buf && (last.Some? ==> e.now - last.value >= interval)
  {
    assert (es + [e])[..|es|] == es;
    hide Run, LastAsked, InFront, PushSpec;
    RecordIsLastAsked<T>(maxUnits, interval, es);
    PushIsExact(Run(Fresh<T>(maxUnits, interval), es).st, e.seqNo, e.genUs, e.data, e.now);
  }

  /** An accepted arrival that reaches at most 1024 numbers ahead leaves the read position; one further on takes it. */
  lemma FarArrivalRealigns<T>(s: State<T>, seqNo: u32, gen: int, data: T, now: int)
    requires s.started
    ensures var r := PushSpec(s, seqNo, gen, data, now);
            && r.ok == !SeqLt(seqNo, s.nextOut)
            && r.st.nextOut == (if r.ok && SeqDelta(seqNo, s.nextOut) > 1024 then seqNo else s.nextOut)
            && r.jumped == (if r.ok && SeqDelta(seqNo, s.nextOut) > 1024 then SeqDelta(seqNo, s.nextOut) else 0)
            && (r.ok && SeqDelta(seqNo, s.nextOut) > 1024 ==> r.asked == [])
  {
    hide Evicted, Estimated;
  }
}
