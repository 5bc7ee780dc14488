/**
 * One frame at the RTP receiver after any loss: what the assembler makes of whatever part of its packets came,
 * with the parity over all of them.
 */
module RtpLoss {
  import opened Octets
  import opened Bytes
  import opened Options
  import opened MediaTypes
  import opened Sets
  import opened Fec
  import opened RtpServers
  import opened RtpReceivers
  import opened RtpRepair

  /** A frame that was sent: its packets, numbered from q0 on. */
  datatype Clip = Clip(f: Frame, q0: nat, ps: seq<bytes>)

  function Millis(c: Clip): int {
    InMillis(c.f.captureUs)
  }

  ghost predicate ClipOk(c: Clip) {
    && c.ps != [] && c.q0 + |c.ps| <= 0x1_0000
    && forall j :: 0 <= j < |c.ps| ==> |c.ps[j]| > RTP_HEADER
  }

  /** f is being collected from some packets of c; they came in order, so the first has the lowest number. */
  ghost predicate Collecting(f: FrameState, c: Clip) {
    && ClipOk(c) && f.started && f.captureMs == Millis(c) && f.ts == Timestamp(c.f)
    && f.firstSeq in f.raws && c.q0 <= f.firstSeq
    && (forall q: u16 :: q in f.raws ==> f.firstSeq <= q < c.q0 + |c.ps| && f.raws[q] == c.ps[q - c.q0])
    && (f.markerSeen <==> c.q0 + |c.ps| - 1 in f.raws.Keys)
  }

  /** What a list of packets of the frame is worth. */
  ghost function Shown(c: Clip, raws: seq<bytes>): Option<OutFrame> {
    var a := Unpack(NOTHING, raws);
    if a.annexb == [] then None else Some(OutFrame(Millis(c) * 1000, Millis(c), a.keyframe, a.annexb))
  }

  /** What is rebuilt for packet m when the first k packets are missing too: all of these packets at once. */
  function Mixed(ps: seq<bytes>, k: nat, m: nat): bytes
    requires k <= m < |ps|
  {
    Columns(ps[..k] + [ps[m]], MaxLen(ps))
  }

  /** The packets from k on, the rebuilt one put where its own number says. */
  function Patched(c: Clip, k: nat, m: nat): seq<bytes>
    requires k <= m < |c.ps| && c.q0 + |c.ps| <= 0x1_0000
  {
    WithExtra(c.ps[k..][m - k := []], c.q0 + k, Mixed(c.ps, k, m))
  }

  ghost predicate Plain(o: Option<OutFrame>, c: Clip, k: nat) {
    k < |c.ps| && o == Shown(c, c.ps[k..])
  }

  ghost predicate Mended(o: Option<OutFrame>, c: Clip, k: nat, m: nat) {
    k < m < |c.ps| - 1 && c.q0 + |c.ps| <= 0x1_0000 && o == Shown(c, Patched(c, k, m))
  }

  // ---- a collected frame ----

  lemma CollectingShape(f: FrameState, c: Clip)
    requires Collecting(f, c)
    ensures NoWrap(f) && f.raws != map[] && c.q0 <= f.firstSeq < c.q0 + |c.ps| <= 0x1_0000
    ensures Span(f) <= c.q0 + |c.ps| - f.firstSeq && (f.markerSeen ==> Span(f) == c.q0 + |c.ps| - f.firstSeq)
  {
    hide MaxOf;
    if f.markerSeen {
      var end: u16 := c.q0 + (|c.ps| - 1);
      LastSeqIs(f, end);
    }
  }

  lemma KeysInside(f: FrameState, c: Clip)
    requires Collecting(f, c)
    ensures NoWrap(f) && f.raws != map[] && f.firstSeq + Span(f) <= 0x1_0000
    ensures f.raws.Keys <= Interval(f.firstSeq, Span(f))
  {
    hide MaxOf;
  }

  lemma HeldPackets(f: FrameState, c: Clip)
    requires Collecting(f, c)
    ensures c.q0 <= f.firstSeq
    ensures forall q: u16 :: q in f.raws ==> f.firstSeq <= q < c.q0 + |c.ps| && f.raws[q] == c.ps[q - c.q0]
  {
  }

  /** The slots of a frame that holds all of its span but the numbers in `gap`. */
  lemma SlotsAre(f: FrameState, c: Clip, n: nat, gap: set<u16>)
    requires Collecting(f, c) && f.firstSeq + n <= c.q0 + |c.ps| && f.firstSeq + n <= 0x1_0000
    requires Interval(f.firstSeq, n) == f.raws.Keys + gap && f.raws.Keys !! gap
    ensures forall i :: 0 <= i < n ==>
              Slots(f, n)[i] == if f.firstSeq + i in gap then [] else c.ps[f.firstSeq - c.q0 + i]
  {
    hide Interval;
    HeldPackets(f, c);
    hide Collecting, ClipOk;
    forall i | 0 <= i < n
      ensures Slots(f, n)[i] == if f.firstSeq + i in gap then [] else c.ps[f.firstSeq - c.q0 + i]
    {
      var q: u16 := f.firstSeq + i;
      assert q in Interval(f.firstSeq, n);
    }
  }

  /** A frame that looks complete holds everything from its first packet on. */
  lemma CompleteIsSuffix(f: FrameState, c: Clip)
    requires Collecting(f, c) && NoWrap(f) && LooksComplete(f)
    ensures c.q0 <= f.firstSeq < c.q0 + |c.ps|
    ensures Slots(f, Span(f)) == c.ps[f.firstSeq - c.q0..]
  {
    hide LastSeq, Span, Interval, Collecting, NoWrap, Slots;
    CollectingShape(f, c);
    KeysInside(f, c);
    SameSize(f.raws.Keys, Interval(f.firstSeq, Span(f)));
    assert f.raws.Keys + {} == f.raws.Keys;
    SlotsAre(f, c, Span(f), {});
  }

  /** A marked frame one packet short lacks exactly one packet, and not its last. */
  lemma ShortLacksOne(f: FrameState, c: Clip) returns (m: nat)
    requires Collecting(f, c) && NoWrap(f) && f.markerSeen && |f.raws| == Span(f) - 1
    ensures c.q0 <= f.firstSeq < c.q0 + |c.ps|
    ensures var k := f.firstSeq - c.q0;
            k < m < |c.ps| - 1 && Slots(f, Span(f)) == c.ps[k..][m - k := []]
    ensures forall q: u16 :: q in f.raws ==> q != c.q0 + m
  {
    hide LastSeq, Span, Interval, Collecting, NoWrap, Slots;
    CollectingShape(f, c);
    KeysInside(f, c);
    var q := OneShort(f.raws.Keys, Interval(f.firstSeq, Span(f)));
    EndsHeld(f, c);
    SlotsAre(f, c, Span(f), {q});
    m := q - c.q0;
  }

  lemma EndsHeld(f: FrameState, c: Clip)
    requires Collecting(f, c) && f.markerSeen
    ensures f.firstSeq in f.raws && c.q0 + |c.ps| - 1 in f.raws.Keys
  {
  }

  // ---- the algebra of a repair without the head ----

  lemma {:induction false} XorAtJoin(a: seq<bytes>, b: seq<bytes>, i: nat)
    ensures XorAt(a + b, i) == Xor(XorAt(a, i), XorAt(b, i))
  {
    hide Xor;
    if b == [] {
      assert a + b == a;
      XorZero(XorAt(a, i));
    } else {
      var n := |b| - 1;
      XorAtJoin(a, b[..n], i);
      assert (a + b)[..|a + b| - 1] == a + b[..n];
      XorAssociates(XorAt(a, i), XorAt(b[..n], i), At(b[n], i));
    }
  }

  /** (t ^ ((h ^ (t ^ x)))) == h ^ x */
  lemma XorOut(t: byte, h: byte, x: byte)
    ensures Xor(t, Xor(h, Xor(t, x))) == Xor(h, x)
  {
    hide Xor;
    XorCommutes(t, x);
    XorAssociates(h, x, t);
    XorCommutes(t, Xor(Xor(h, x), t));
    XorAssociates(Xor(h, x), t, t);
    XorSelf(t);
    XorZero(Xor(h, x));
  }

  lemma MixedColumn(ps: seq<bytes>, k: nat, m: nat, i: nat)
    requires k <= m < |ps|
    ensures XorAt(ps[k..][m - k := []] + [Parity(ps)], i) == XorAt(ps[..k] + [ps[m]], i)
  {
    hide Xor, Parity;
    var head, tail := ps[..k], ps[k..];
    var rest := tail[m - k := []];
    var t, h, x := XorAt(rest, i), XorAt(head, i), At(ps[m], i);
    assert (rest + [Parity(ps)])[..|rest|] == rest;
    assert (head + [ps[m]])[..k] == head;
    XorAtParity(ps, i);
    assert ps == head + tail;
    XorAtJoin(head, tail, i);
    XorAtDrop(tail, m - k, i);
    XorOut(t, h, x);
  }

  /** What the parity and the packets at hand rebuild. */
  lemma RebuiltIsMixed(ps: seq<bytes>, k: nat, m: nat)
    requires k <= m < |ps|
    ensures Rebuilt(ps[k..][m - k := []], Parity(ps)) == Mixed(ps, k, m)
  {
    hide XorAt, MaxLen, Parity;
    var known := ps[k..][m - k := []] + [Parity(ps)];
    KnownLongest(ps, k, m);
    forall i: nat | i < MaxLen(ps)
      ensures Columns(known, MaxLen(ps))[i] == Mixed(ps, k, m)[i]
    {
      MixedColumn(ps, k, m, i);
    }
  }

  lemma ParityLength(ps: seq<bytes>)
    ensures |Parity(ps)| == MaxLen(ps)
  {
  }

  lemma KnownLongest(ps: seq<bytes>, k: nat, m: nat)
    requires k <= m < |ps|
    ensures MaxLen(ps[k..][m - k := []] + [Parity(ps)]) == MaxLen(ps)
  {
    ParityLength(ps);
    hide Parity, MaxLen;
    var n := MaxLen(ps);
    var known := ps[k..][m - k := []] + [Parity(ps)];
    forall i | 0 <= i < |known|
      ensures |known[i]| <= n
    {
      if i < |known| - 1 && i != m - k {
        assert known[i] == ps[k + i] && ps[k + i] in ps;
      }
    }
    LongestIs(known, n, |known| - 1);
  }

  /** With the head at hand the rebuilt packet is the lost one, padded. */
  lemma MixedWithHead(ps: seq<bytes>, m: nat)
    requires m < |ps|
    ensures Mixed(ps, 0, m) == PadTo(ps[m], MaxLen(ps))
  {
    hide Rebuilt, Mixed, Parity, MaxLen, PadTo;
    RebuiltIsMixed(ps, 0, m);
    RebuiltIsPadded(ps, m);
    assert ps[0..] == ps;
  }

  /** These blocks cancel out over n columns. */
  ghost predicate Vanishes(ds: seq<bytes>, n: nat) {
    forall i: nat :: i < n ==> XorAt(ds, i) == 0
  }

  /**
   * With the first k packets lost as well, the rebuilt packet is the lost one, padded, if and only if those k packets
   * cancel out, octet by octet.
   */
  lemma MixedIsRight(ps: seq<bytes>, k: nat, m: nat)
    requires k <= m < |ps|
    ensures Mixed(ps, k, m) == PadTo(ps[m], MaxLen(ps)) <==> Vanishes(ps[..k], MaxLen(ps))
  {
    if Mixed(ps, k, m) == PadTo(ps[m], MaxLen(ps)) {
      forall i: nat | i < MaxLen(ps)
        ensures XorAt(ps[..k], i) == 0
      {
        ColumnIsRight(ps, k, m, i);
      }
    }
    if Vanishes(ps[..k], MaxLen(ps)) {
      VanishingIsRight(ps, k, m);
    }
  }

  lemma VanishingIsRight(ps: seq<bytes>, k: nat, m: nat)
    requires k <= m < |ps| && Vanishes(ps[..k], MaxLen(ps))
    ensures Mixed(ps, k, m) == PadTo(ps[m], MaxLen(ps))
  {
    SameLength(ps, k, m);
    forall i: nat | i < MaxLen(ps)
      ensures Mixed(ps, k, m)[i] == PadTo(ps[m], MaxLen(ps))[i]
    {
      ColumnIsRight(ps, k, m, i);
    }
  }

  lemma ColumnIsRight(ps: seq<bytes>, k: nat, m: nat, i: nat)
    requires k <= m < |ps| && i < MaxLen(ps)
    ensures |Mixed(ps, k, m)| == |PadTo(ps[m], MaxLen(ps))| == MaxLen(ps)
    ensures Mixed(ps, k, m)[i] == PadTo(ps[m], MaxLen(ps))[i] <==> XorAt(ps[..k], i) == 0
  {
    hide Xor, MaxLen, XorAt, At, PadTo, Mixed;
    SameLength(ps, k, m);
    assert ps[m] in ps;
    PaddedAt(ps[m], MaxLen(ps), i);
    MixedAt(ps, k, m, i);
    Cancels(XorAt(ps[..k], i), At(ps[m], i));
  }

  lemma SameLength(ps: seq<bytes>, k: nat, m: nat)
    requires k <= m < |ps|
    ensures |Mixed(ps, k, m)| == |PadTo(ps[m], MaxLen(ps))| == MaxLen(ps)
  {
    hide XorAt, MaxLen;
    assert ps[m] in ps;
  }

  lemma MixedAt(ps: seq<bytes>, k: nat, m: nat, i: nat)
    requires k <= m < |ps| && i < MaxLen(ps)
    ensures |Mixed(ps, k, m)| == MaxLen(ps) && Mixed(ps, k, m)[i] == Xor(XorAt(ps[..k], i), At(ps[m], i))
  {
    hide Xor, MaxLen;
    assert (ps[..k] + [ps[m]])[..k] == ps[..k];
  }

  lemma PaddedAt(d: bytes, n: nat, i: nat)
    requires |d| <= n && i < n
    ensures |PadTo(d, n)| == n && PadTo(d, n)[i] == At(d, i)
  {
  }

  lemma Cancels(a: byte, b: byte)
    ensures Xor(a, b) == b <==> a == 0
  {
    hide Xor;
    XorCommutes(a, b);
    XorCommutes(0, b);
    XorZero(b);
    XorAssociates(a, b, b);
    XorSelf(b);
    XorZero(a);
  }

  lemma {:induction false} FirstOctets(ps: seq<bytes>)
    requires forall j :: 0 <= j < |ps| ==> ps[j] != [] && ps[j][0] == 0x80
    ensures XorAt(ps, 0) == if |ps| % 2 == 1 then 0x80 else 0
  {
    hide Xor;
    if ps != [] {
      FirstOctets(ps[..|ps| - 1]);
      XorSelf(0x80);
      XorCommutes(0, 0x80);
      XorZero(0x80);
    }
  }

  /** RTP packets in number order. */
  ghost predicate Consecutive(ps: seq<bytes>, q0: nat) {
    forall j :: 0 <= j < |ps| ==> |ps[j]| > RTP_HEADER && ps[j][0] == 0x80 && ps[j][3] % 2 == (q0 + j) % 2
  }

  lemma XorLowBit(a: byte, b: byte)
    ensures Xor(a, b) % 2 == if a % 2 == b % 2 then 0 else 1
  {
    hide XorLow;
    assert Xor(a, b) == XorLow(a, b, 8);
    LowBitOf(a, b, 8);
  }

  lemma LowBitOf(a: nat, b: nat, k: nat)
    requires k > 0
    ensures XorLow(a, b, k) % 2 == if a % 2 == b % 2 then 0 else 1
  {
  }

  /** How many of k consecutive numbers are odd, modulo 2. */
  function OddOnes(q0: nat, k: nat): nat {
    if k == 0 then 0 else (OddOnes(q0, k - 1) + (q0 + k - 1) % 2) % 2
  }

  lemma {:induction false} OddOnesOf(q0: nat, k: nat)
    ensures k % 4 == 0 ==> OddOnes(q0, k) == 0
    ensures k % 4 == 2 ==> OddOnes(q0, k) == 1
    decreases k
  {
    if k >= 2 {
      OddOnesOf(q0, k - 2);
      assert OddOnes(q0, k - 1) == (OddOnes(q0, k - 2) + (q0 + k - 2) % 2) % 2;
    }
  }

  lemma {:induction false} NumberOctets(ps: seq<bytes>, q0: nat)
    requires Consecutive(ps, q0)
    ensures XorAt(ps, 3) % 2 == OddOnes(q0, |ps|)
    decreases |ps|
  {
    hide Xor;
    if ps != [] {
      var n := |ps| - 1;
      NumberOctets(ps[..n], q0);
      XorLowBit(XorAt(ps[..n], 3), ps[n][3]);
    }
  }

  /**
   * Lost packets in front cancel out only in fours: with any other number of them, what is rebuilt is not the lost
   * packet. An odd number leaves the version octet, two more than a multiple of four the lowest bit of the numbers.
   */
  lemma HeadIsWrong(ps: seq<bytes>, q0: nat, k: nat, m: nat)
    requires k <= m < |ps| && k % 4 != 0 && Consecutive(ps, q0)
    ensures Mixed(ps, k, m) != PadTo(ps[m], MaxLen(ps))
  {
    hide Mixed, PadTo, MaxLen, XorAt, Consecutive;
    PrefixConsecutive(ps, q0, k);
    ColumnLeft(ps[..k], q0);
    SomeColumn(ps, q0, m);
    MixedIsRight(ps, k, m);
  }

  lemma PrefixConsecutive(ps: seq<bytes>, q0: nat, k: nat)
    requires k <= |ps| && Consecutive(ps, q0)
    ensures Consecutive(ps[..k], q0)
  {
  }

  lemma ColumnLeft(ps: seq<bytes>, q0: nat)
    requires |ps| % 4 != 0 && Consecutive(ps, q0)
    ensures XorAt(ps, 0) != 0 || XorAt(ps, 3) != 0
  {
    hide XorAt;
    FirstOctets(ps);
    NumberOctets(ps, q0);
    OddOnesOf(q0, |ps|);
  }

  /** The packets of a sent frame are such packets. */
  lemma SentAreConsecutive(f: Frame, mtu: nat, q0: nat, ssrc: u32)
    requires mtu > RTP_HEADER + 2
    ensures Consecutive(FramePackets(f, mtu, q0, ssrc), q0)
  {
    hide FramePackets, PacketSeq;
    var ps := FramePackets(f, mtu, q0, ssrc);
    forall j | 0 <= j < |ps|
      ensures |ps[j]| > RTP_HEADER && ps[j][0] == 0x80 && ps[j][3] % 2 == (q0 + j) % 2
    {
      PacketsWellFormed(f, mtu, q0, ssrc, j);
      LastBit(ps[j], q0 + j);
    }
  }

  lemma LastBit(p: bytes, q: nat)
    requires |p| >= RTP_HEADER && PacketSeq(p) == q % 0x1_0000
    ensures p[3] % 2 == q % 2
  {
  }

  lemma SomeColumn(ps: seq<bytes>, q0: nat, m: nat)
    requires m < |ps| && Consecutive(ps, q0)
    ensures MaxLen(ps) > RTP_HEADER
  {
    assert ps[m] in ps;
  }

  // ---- what finalize_frame and the pass over parked frames emit ----

  /** The parities at hand for a frame are its own. */
  ghost predicate Own(parity: Option<bytes>, c: Clip) {
    parity.Some? ==> parity.value == Parity(c.ps)
  }

  lemma EmittedPlain(f: FrameState, c: Clip)
    requires Collecting(f, c) && NoWrap(f) && LooksComplete(f)
    ensures c.q0 <= f.firstSeq && Plain(Emitted(f, []), c, f.firstSeq - c.q0)
  {
    hide Unpack, Slots, Span, Collecting, NoWrap, LooksComplete;
    CollectingShape(f, c);
    CompleteIsSuffix(f, c);
    SameMillis(f, c);
    assert WithExtra(c.ps[f.firstSeq - c.q0..], f.firstSeq, []) == c.ps[f.firstSeq - c.q0..];
  }

  lemma EmittedMended(f: FrameState, c: Clip) returns (m: nat)
    requires Collecting(f, c) && NoWrap(f) && f.markerSeen && |f.raws| == Span(f) - 1
    ensures c.q0 <= f.firstSeq
    ensures Mended(Emitted(f, Rebuilt(Slots(f, Span(f)), Parity(c.ps))), c, f.firstSeq - c.q0, m)
  {
    hide Unpack, Slots, Span, Rebuilt, Mixed, Collecting, NoWrap, Parity;
    CollectingShape(f, c);
    m := ShortLacksOne(f, c);
    RebuiltIsMixed(c.ps, f.firstSeq - c.q0, m);
    SameMillis(f, c);
  }

  lemma SameMillis(f: FrameState, c: Clip)
    requires Collecting(f, c)
    ensures f.captureMs == Millis(c)
  {
  }

  /** An emission is what a suffix of the frame's packets is worth, or such a suffix with one packet rebuilt. */
  ghost predicate FromClip(o: Option<OutFrame>, c: Clip) {
    (exists k: nat :: Plain(o, c, k)) || (exists k: nat, m: nat :: Mended(o, c, k, m))
  }

  lemma FinalizedFromClip(f: FrameState, c: Clip, parity: Option<bytes>, explicitMarker: bool, now: int)
    requires Collecting(f, c) && Own(parity, c)
    ensures NoWrap(f)
    ensures match Finalized(f, parity, explicitMarker, now)
            case Emits(o) => FromClip(o, c)
            case Repairs(o) => FromClip(o, c)
            case Parks => f.markerSeen || explicitMarker
            case _ => true
  {
    CollectingShape(f, c);
    hide Collecting, Span, Slots, Emitted, Rebuilt, Missing, Plain, Mended, NoWrap;
    var outcome := Finalized(f, parity, explicitMarker, now);
    if outcome.Emits? {
      EmittedPlain(f, c);
    } else if outcome.Repairs? {
      var m := EmittedMended(f, c);
    }
  }

  lemma FateFromClip(z: FrameState, c: Clip, parity: Option<bytes>, now: int)
    requires Collecting(z, c) && Own(parity, c)
    ensures WellParked(z)
    ensures FateOf(z, parity, now).Recovered? ==> FromClip(FateOf(z, parity, now).fixed, c)
  {
    CollectingShape(z, c);
    hide Collecting, Span, Slots, Emitted, Rebuilt, Missing, Plain, Mended, NoWrap;
    if FateOf(z, parity, now).Recovered? {
      var m := EmittedMended(z, c);
    }
  }

  /**
   * The repair, whatever part of the head was lost: a marked frame one packet short of what follows its first
   * received packet is emitted with the packet the parity gives, put where that packet's own
   * number says.
   */
  lemma RepairedFrom(f: FrameState, c: Clip, explicitMarker: bool, now: int) returns (m: nat)
    requires Collecting(f, c) && NoWrap(f) && f.markerSeen && |f.raws| == Span(f) - 1
    ensures c.q0 <= f.firstSeq
    ensures var k := f.firstSeq - c.q0;
            && k < m < |c.ps| - 1
            && Finalized(f, Some(Parity(c.ps)), explicitMarker, now) == Repairs(Shown(c, Patched(c, k, m)))
    ensures forall q: u16 :: q in f.raws ==> q != c.q0 + m
  {
    hide Collecting, Span, Slots, Emitted, Rebuilt, Missing, NoWrap, Parity, Patched, Shown;
    CollectingShape(f, c);
    m := ShortLacksOne(f, c);
    var k := f.firstSeq - c.q0;
    PacketsNotEmpty(f, c);
    ParityOfSome(c.ps);
    MissingOfOne(c.ps[k..], m - k, Parity(c.ps));
    MendedIs(f, c, k, m);
    FinalizedRepairs(f, Parity(c.ps), explicitMarker, now);
  }

  lemma PacketsNotEmpty(f: FrameState, c: Clip)
    requires Collecting(f, c)
    ensures f.started && c.ps != [] && forall i :: 0 <= i < |c.ps| ==> c.ps[i] != []
  {
  }

  lemma ParityOfSome(ps: seq<bytes>)
    requires ps != [] && ps[0] != []
    ensures Parity(ps) != []
  {
    hide MaxLen;
    ParityLength(ps);
    assert ps[0] in ps;
    ParityNotEmpty(ps, 0);
  }

  lemma MendedIs(f: FrameState, c: Clip, k: nat, m: nat)
    requires Collecting(f, c) && NoWrap(f) && k <= m < |c.ps| && c.q0 + |c.ps| <= 0x1_0000 && f.firstSeq == c.q0 + k
    requires Slots(f, Span(f)) == c.ps[k..][m - k := []]
    ensures Emitted(f, Rebuilt(Slots(f, Span(f)), Parity(c.ps))) == Shown(c, Patched(c, k, m))
  {
    hide Unpack, Slots, Span, Rebuilt, Mixed, Collecting, NoWrap, Parity;
    RebuiltIsMixed(c.ps, k, m);
    SameMillis(f, c);
  }

  /** With the head at hand a repair gives the frame with zeros behind the rebuilt packet, and nothing else changed. */
  lemma MendedWithHead(o: Option<OutFrame>, c: Clip, m: nat)
    requires ClipOk(c) && Mended(o, c, 0, m) && PacketSeq(c.ps[m]) == c.q0 + m
    ensures o == Shown(c, c.ps[m := PadTo(c.ps[m], MaxLen(c.ps))])
  {
    hide PadTo, MaxLen, PacketSeq, Unpack, Mixed;
    MixedWithHead(c.ps, m);
    PaddedHeader(c.ps[m], MaxLen(c.ps));
    assert c.ps[0..] == c.ps;
    WithExtraAt(c.ps[m := []], c.q0, PadTo(c.ps[m], MaxLen(c.ps)), m);
    assert c.ps[m := []][m := PadTo(c.ps[m], MaxLen(c.ps))] == c.ps[m := PadTo(c.ps[m], MaxLen(c.ps))];
  }
}
