/**
 * The RTP receiver's assembler: packets in sequence order are collected per frame, a single missing
 * packet is rebuilt by XOR over whole packets, and payloads are unpacked into an Annex-B stream.
 */
module RtpReceivers {
  import opened Bytes
  import opened Options
  import opened Fec
  import opened MediaTypes
  import opened RtpServers
  import JitterBuffers

  datatype RtpPacket = RtpPacket(seqNo: u16, ts: u32, marker: bool, captureMs: int, raw: bytes)

  datatype OutFrame = OutFrame(captureUs: int, frameId: int, keyframe: bool, data: bytes)

  // ---- parsing ----

  /** parse_rtp: version 2 without padding, extension or contributing sources. */
  function ParseRtp(d: bytes): Option<RtpPacket> {
    if |d| < RTP_HEADER || d[0] != 0x80 then None
    else Some(RtpPacket(Number16(d[2], d[3]), Number32(d[4], d[5], d[6], d[7]), d[1] >= 0x80, 0, d))
  }

  // ---- unpacking ----

  /** The Annex-B stream being written. */
  datatype Stream = Stream(annexb: bytes, keyframe: bool, fuActive: bool)

  const CODE4: bytes := [0, 0, 0, 1]

  function UnpackPayload(a: Stream, pl: bytes): Stream
    requires pl != []
  {
    if NalType(pl[0]) == FU_A then
      if |pl| < 2 then a
      else
        var hdr := pl[0] / 32 * 32 + NalType(pl[1]);
        var b := if StartBit(pl) then
                   Stream(a.annexb + CODE4 + [hdr] + pl[2..], a.keyframe || NalType(hdr) == 5, true)
                 else if a.fuActive then a.(annexb := a.annexb + pl[2..])
                 else a;
        if EndBit(pl) then b.(fuActive := false) else b
    else Stream(a.annexb + CODE4 + pl, a.keyframe || NalType(pl[0]) == 5, false)
  }

  /** A whole packet; anything without payload is passed over. */
  function UnpackPacket(a: Stream, raw: bytes): Stream {
    if |raw| < 13 then a else UnpackPayload(a, raw[RTP_HEADER..])
  }

  function Unpack(a: Stream, raws: seq<bytes>): Stream
    decreases |raws|
  {
    if raws == [] then a else Unpack(UnpackPacket(a, raws[0]), raws[1..])
  }

  const NOTHING := Stream([], false, false)

  // ---- one frame's packets ----

  /** Packets of the frame being collected, by sequence number. */
  datatype FrameState = FrameState(
    started: bool,
    markerSeen: bool,
    captureMs: int,
    ts: u32,
    firstSeq: u16,
    raws: map<u16, bytes>,
    firstSeenUs: int)

  const NO_FRAME := FrameState(false, false, 0, 0, 0, map[], 0)

  /** No packet is numbered below the first one: the frame does not cross the 16-bit wrap. */
  ghost predicate NoWrap(f: FrameState) {
    forall k :: k in f.raws ==> f.firstSeq <= k
  }

  ghost function LastSeq(f: FrameState): (k: u16)
    requires f.raws != map[]
    ensures k in f.raws && forall j :: j in f.raws ==> j <= k
  {
    MaxOf(f.raws.Keys)
  }

  ghost function MaxOf(keys: set<u16>): (k: u16)
    requires keys != {}
    ensures k in keys && forall j :: j in keys ==> j <= k
    decreases |keys|
  {
    var x :| x in keys;
    if keys == {x} then x
    else
      assert keys - {x} != {};
      var m := MaxOf(keys - {x});
      assert forall j :: j in keys ==> j == x || j in keys - {x};
      if m > x then m else x
  }

  ghost function Span(f: FrameState): nat
    requires NoWrap(f)
  {
    if f.raws == map[] then 0 else LastSeq(f) - f.firstSeq + 1
  }

  /** One slot per number from the first to the last; a missing packet leaves its slot empty. */
  function Slots(f: FrameState, span: nat): (s: seq<bytes>)
    ensures |s| == span
  {
    seq(span, i requires 0 <= i < span => if f.firstSeq + i in f.raws then f.raws[f.firstSeq + i] else [])
  }

  /** The slots with a rebuilt packet put where its own sequence number says. */
  function WithExtra(slots: seq<bytes>, firstSeq: u16, extra: bytes): (s: seq<bytes>)
    ensures |s| == |slots|
  {
    if |extra| < RTP_HEADER then slots
    else
      var idx := PacketSeq(extra) - firstSeq;
      if 0 <= idx < |slots| then slots[idx := extra] else slots
  }

  ghost function Emitted(f: FrameState, extra: bytes): Option<OutFrame>
    requires NoWrap(f)
  {
    var a := Unpack(NOTHING, WithExtra(Slots(f, Span(f)), f.firstSeq, extra));
    if a.annexb == [] then None else Some(OutFrame(f.captureMs * 1000, f.captureMs, a.keyframe, a.annexb))
  }

  ghost predicate LooksComplete(f: FrameState)
    requires NoWrap(f)
  {
    |f.raws| == Span(f) && f.markerSeen
  }

  /** The packet rebuilt from the slots and the parity, up to the longest of them. */
  function Rebuilt(slots: seq<bytes>, parity: bytes): bytes {
    Columns(slots + [parity], MaxLen(slots + [parity]))
  }

  /** What finalize_frame does with the frame being collected. */
  datatype Outcome =
    | Untouched                        // nothing collected
    | Emits(out: Option<OutFrame>)     // the frame stays in place afterwards
    | Repairs(fixed: Option<OutFrame>) // emitted with a rebuilt packet; the parity is used up, the frame stays
    | Parks                            // kept aside for late packets; collecting starts over
    | Drops(lost: nat)                 // given up; collecting starts over

  ghost function Finalized(f: FrameState, parity: Option<bytes>, explicitMarker: bool, now: int): Outcome
    requires NoWrap(f)
  {
    if !f.started || f.raws == map[] then Untouched
    else
      var span := Span(f);
      var slots := Slots(f, span);
      if LooksComplete(f) then Emits(Emitted(f, []))
      else if |f.raws| == span - 1 && parity.Some? && f.markerSeen && Missing(slots + [parity.value]) == 1 then
        Repairs(Emitted(f, Rebuilt(slots, parity.value)))
      else if explicitMarker && now - f.firstSeenUs < 250_000 then Parks
      else
        SpanHoldsAll(f);
        Drops(span - |f.raws|)
  }

  /** The assembler's state. */
  datatype Asm = Asm(cur: FrameState, fec: map<u32, bytes>, zombies: seq<FrameState>, out: seq<OutFrame>, netLost: nat)

  function ParityFor(fec: map<u32, bytes>, captureMs: int): Option<bytes> {
    if captureMs % TWO32 in fec then Some(fec[captureMs % TWO32]) else None
  }

  function Emission(o: Option<OutFrame>): seq<OutFrame> {
    match o case None => [] case Some(x) => [x]
  }

  ghost function Finish(st: Asm, explicitMarker: bool, now: int): Asm
    requires NoWrap(st.cur)
  {
    match Finalized(st.cur, ParityFor(st.fec, st.cur.captureMs), explicitMarker, now)
    case Untouched => st
    case Emits(o) => st.(out := st.out + Emission(o))
    case Repairs(o) => st.(out := st.out + Emission(o), fec := st.fec - {st.cur.captureMs % TWO32})
    case Parks => st.(cur := NO_FRAME, zombies := st.zombies + [st.cur])
    case Drops(lost) => st.(cur := NO_FRAME, netLost := st.netLost + lost)
  }

  /** Adding one packet to the frame it belongs to; an earlier packet of the same number stays. */
  function WithPacket(f: FrameState, p: RtpPacket): FrameState {
    f.(markerSeen := f.markerSeen || p.marker, raws := if p.seqNo in f.raws then f.raws else f.raws[p.seqNo := p.raw])
  }

  function NewFrame(p: RtpPacket, now: int): FrameState {
    FrameState(true, false, p.captureMs, p.ts, p.seqNo, map[], now)
  }

  /** Packets come in order within a frame, clear of the 16-bit wrap. */
  ghost predicate Follows(f: FrameState, p: RtpPacket) {
    NoWrap(f) && (f.started && p.ts == f.ts ==> f.firstSeq <= p.seqNo)
  }

  /** One packet leaving the resequencing buffer. */
  ghost function Assembled(st: Asm, p: RtpPacket, now: int): Asm
    requires Follows(st.cur, p)
  {
    var ready := if !st.cur.started || p.ts != st.cur.ts then Finish(st, false, now).(cur := NewFrame(p, now)) else st;
    var added := ready.(cur := WithPacket(ready.cur, p));
    if p.marker then Finish(added, true, now) else added
  }

  // ---- stored parities ----

  const MAX_PARITIES := 64

  /** A parity that arrives; beyond 64 of them the one with the smallest key goes. */
  ghost function WithParity(fec: map<u32, bytes>, key: u32, parity: bytes): map<u32, bytes> {
    var more := fec[key := parity];
    if |more| > MAX_PARITIES then more - {JitterBuffers.MinKey(more.Keys)} else more
  }

  /** The parity is there, nothing else changed, and out of more than 64 just the one with the smallest key is gone. */
  ghost predicate Stored(fec: map<u32, bytes>, after: map<u32, bytes>, key: u32, parity: bytes) {
    var keys := fec.Keys + {key};
    && (forall k :: k in after ==> k in keys && after[k] == if k == key then parity else fec[k])
    && if |keys| <= 64 then after.Keys == keys
       else exists least :: least in keys && (forall k :: k in keys ==> least <= k) && after.Keys == keys - {least}
  }

  lemma WithParityStores(fec: map<u32, bytes>, key: u32, parity: bytes)
    ensures Stored(fec, WithParity(fec, key, parity), key, parity)
  {
    var more := fec[key := parity];
    assert more.Keys == fec.Keys + {key};
    if |more| > 64 {
      var least := JitterBuffers.MinKey(more.Keys);
      assert (more - {least}).Keys == more.Keys - {least};
    }
  }

  /** The payload of a datagram with the private header, cut to the length it announces. */
  function Announced(d: bytes): bytes
    requires |d| >= HEADER_SIZE
  {
    var len := Decode(d).payloadLen;
    if 0 < len < |d| - HEADER_SIZE then d[HEADER_SIZE..HEADER_SIZE + len] else d[HEADER_SIZE..]
  }

  // ---- parked frames ----

  ghost predicate WellParked(z: FrameState) {
    NoWrap(z) && z.raws != map[]
  }

  /** What the pass over parked frames does with one of them. */
  datatype Fate =
    | Recovered(fixed: Option<OutFrame>)   // repaired after all, and the parity used up
    | Expired(lost: nat)                   // given up
    | Kept

  ghost function FateOf(z: FrameState, parity: Option<bytes>, now: int): Fate
    requires WellParked(z)
  {
    var span := Span(z);
    var slots := Slots(z, span);
    if parity.Some? && z.markerSeen && |z.raws| == span - 1 && Missing(slots + [parity.value]) == 1 then
      Recovered(Emitted(z, Rebuilt(slots, parity.value)))
    else if now - z.firstSeenUs > 250_000 then
      SpanHoldsAll(z);
      Expired(span - |z.raws|)
    else Kept
  }

  ghost function Visited(st: Asm, z: FrameState, now: int): Asm
    requires WellParked(z)
  {
    match FateOf(z, ParityFor(st.fec, z.captureMs), now)
    case Recovered(o) => st.(out := st.out + Emission(o), fec := st.fec - {z.captureMs % TWO32})
    case Expired(lost) => st.(netLost := st.netLost + lost)
    case Kept => st.(zombies := st.zombies + [z])
  }

  ghost function VisitedAll(st: Asm, zs: seq<FrameState>, now: int): Asm
    requires forall i :: 0 <= i < |zs| ==> WellParked(zs[i])
    decreases |zs|
  {
    if zs == [] then st else VisitedAll(Visited(st, zs[0], now), zs[1..], now)
  }

  /** expire_zombies: every parked frame once, in order. */
  ghost function Passed(st: Asm, now: int): Asm
    requires forall i :: 0 <= i < |st.zombies| ==> WellParked(st.zombies[i])
  {
    VisitedAll(st.(zombies := []), st.zombies, now)
  }

  lemma {:induction false} KeysFit(keys: set<u16>, lo: nat, hi: nat)
    requires forall k :: k in keys ==> lo <= k < hi
    ensures |keys| <= if lo < hi then hi - lo else 0
    decreases if lo < hi then hi - lo else 0
  {
    if lo < hi {
      var rest := keys - {hi - 1};
      KeysFit(rest, lo, hi - 1);
      assert hi - 1 in keys ==> keys == rest + {hi - 1};
      assert hi - 1 !in keys ==> keys == rest;
    } else {
      assert keys == {};
    }
  }

  lemma SpanHoldsAll(f: FrameState)
    requires NoWrap(f)
    ensures |f.raws| <= Span(f)
  {
    if f.raws != map[] {
      KeysFit(f.raws.Keys, f.firstSeq, LastSeq(f) + 1);
    }
  }

  // ---- the code ----

  class RtpReceiver {
    var cur: FrameState
    var fec: map<u32, bytes>      // parity by capture time in milliseconds
    var zombies: seq<FrameState>
    var out: seq<OutFrame>        // every frame pushed to the output queue
    var netLost: nat

    ghost function St(): Asm
      reads this
    {
      Asm(cur, fec, zombies, out, netLost)
    }

    constructor ()
      ensures St() == Asm(NO_FRAME, map[], [], [], 0)
    {
      cur, fec, zombies, out, netLost := NO_FRAME, map[], [], [], 0;
    }

    /** raws.rbegin()->first. */
    static method LastKey(f: FrameState) returns (k: u16)
      requires f.raws != map[]
      ensures k == LastSeq(f)
    {
      ghost var w := LastSeq(f);
      assert w in f.raws && forall j :: j in f.raws ==> j <= w;
      k :| k in f.raws && forall j :: j in f.raws ==> j <= k;
    }

    static method FillSlots(f: FrameState, span: nat) returns (slots: seq<bytes>)
      ensures slots == Slots(f, span)
    {
      var a := new bytes[span](_ => []);
      for i := 0 to span
        invariant forall j :: 0 <= j < i ==> a[j] == Slots(f, span)[j]
        invariant forall j :: i <= j < span ==> a[j] == []
      {
        if f.firstSeq + i in f.raws {
          a[i] := f.raws[f.firstSeq + i];
        }
      }
      slots := a[..];
    }

    /** The unpacking loop of emit. */
    static method UnpackLoop(ordered: seq<bytes>) returns (annexb: bytes, keyframe: bool)
      ensures var a := Unpack(NOTHING, ordered); annexb == a.annexb && keyframe == a.keyframe
    {
      annexb, keyframe := [], false;
      var fuActive := false;
      assert ordered[0..] == ordered;
      for i := 0 to |ordered|
        invariant Unpack(NOTHING, ordered) == Unpack(Stream(annexb, keyframe, fuActive), ordered[i..])
      {
        var raw := ordered[i];
        ghost var before := Stream(annexb, keyframe, fuActive);
        UnpackHead(before, ordered[i..]);
        assert ordered[i..][1..] == ordered[i + 1..];
        if |raw| >= 13 {
          annexb, keyframe, fuActive := UnpackOne(annexb, keyframe, fuActive, raw[RTP_HEADER..]);
        }
      }
      assert ordered[|ordered|..] == [];
    }

    static method UnpackOne(annexb0: bytes, keyframe0: bool, fuActive0: bool, pl: bytes)
      returns (annexb: bytes, keyframe: bool, fuActive: bool)
      requires pl != []
      ensures Stream(annexb, keyframe, fuActive) == UnpackPayload(Stream(annexb0, keyframe0, fuActive0), pl)
    {
      annexb, keyframe, fuActive := annexb0, keyframe0, fuActive0;
      var nt := pl[0] % 32;
      if nt == FU_A {
        if |pl| < 2 {
          return;
        }
        var fu := pl[1];
        if fu >= 0x80 {
          fuActive := true;
          var nalHdr := pl[0] / 32 * 32 + fu % 32;
          annexb := annexb + CODE4;
          annexb := annexb + [nalHdr];
          if nalHdr % 32 == 5 {
            keyframe := true;
          }
          annexb := annexb + pl[2..];
        } else if fuActive {
          annexb := annexb + pl[2..];
        }
        if fu % 0x80 >= 0x40 {
          fuActive := false;
        }
      } else {
        fuActive := false;
        annexb := annexb + CODE4;
        annexb := annexb + pl;
        if nt == 5 {
          keyframe := true;
        }
      }
    }

    method Emit(f: FrameState, extra: bytes)
      requires NoWrap(f) && (extra != [] ==> |extra| >= RTP_HEADER)
      modifies this`out
      ensures out == old(out) + match Emitted(f, extra) case None => [] case Some(o) => [o]
    {
      hide Unpack, LastSeq;
      var span := 0;
      if |f.raws| > 0 {
        var last := LastKey(f);
        span := last - f.firstSeq + 1;
      }
      var ordered := FillSlots(f, span);
      if extra != [] {
        var idx := PacketSeq(extra) - f.firstSeq;
        if 0 <= idx < span {
          ordered := ordered[idx := extra];
        }
      }
      var annexb, keyframe := UnpackLoop(ordered);
      if annexb == [] {
        assert out + [] == out;
        return;
      }
      out := out + [OutFrame(f.captureMs * 1000, f.captureMs, keyframe, annexb)];
    }

    method FinalizeFrame(explicitMarker: bool, now: int)
      requires NoWrap(cur) && forall k :: k in cur.raws ==> |cur.raws[k]| >= RTP_HEADER
      modifies this
      ensures St() == Finish(old(St()), explicitMarker, now)
    {
      hide Emitted, Slots, Missing, Columns, LastSeq, MaxLen;
      if !cur.started || |cur.raws| == 0 {
        return;
      }
      var last := LastKey(cur);
      var span := last - cur.firstSeq + 1;
      SpanHoldsAll(cur);
      if |cur.raws| == span && cur.markerSeen {
        Emit(cur, []);
        return;
      }
      var key := cur.captureMs % TWO32;
      if |cur.raws| == span - 1 && key in fec && cur.markerSeen {
        var ok, rec := Rebuild(cur, span, fec[key]);
        if ok {
          Emit(cur, rec);
          fec := fec - {key};
          return;
        }
      }
      if explicitMarker && now - cur.firstSeenUs < 250_000 {
        zombies := zombies + [cur];
      } else {
        netLost := netLost + (span - |cur.raws|);
      }
      cur := NO_FRAME;
    }

    /** The body of assemble_loop for one packet, up to the pass over parked frames. */
    method Assemble(p: RtpPacket, now: int)
      requires Follows(cur, p) && |p.raw| >= RTP_HEADER && forall k :: k in cur.raws ==> |cur.raws[k]| >= RTP_HEADER
      modifies this
      ensures St() == Assembled(old(St()), p, now)
    {
      hide Finalized;
      if !cur.started || p.ts != cur.ts {
        FinalizeFrame(false, now);
        cur := FrameState(true, false, p.captureMs, p.ts, p.seqNo, map[], now);
      }
      cur := cur.(markerSeen := cur.markerSeen || p.marker);
      if p.seqNo !in cur.raws {
        cur := cur.(raws := cur.raws[p.seqNo := p.raw]);
      }
      if p.marker {
        FinalizeFrame(true, now);
      }
    }

    /** What the receive loop does with a parity datagram. */
    method StoreParity(d: bytes)
      requires |d| >= HEADER_SIZE
      modifies this`fec
      ensures fec == WithParity(old(fec), Decode(d).captureLo, Announced(d))
      ensures Stored(old(fec), fec, Decode(d).captureLo, Announced(d))
    {
      hide Stored;
      var h := ReadHeader(d);
      var payload := d[HEADER_SIZE..];
      if 0 < h.payloadLen < |payload| {
        payload := d[HEADER_SIZE..HEADER_SIZE + h.payloadLen];
      }
      assert payload == Announced(d);
      fec := fec[h.captureLo := payload];
      if |fec| > MAX_PARITIES {
        var oldest := JitterBuffers.First(fec);
        fec := fec - {oldest};
      }
      WithParityStores(old(fec), h.captureLo, payload);
    }

    /** recover_zombie, for a frame that lacks one packet. */
    method RecoverZombie(z: FrameState, parity: bytes) returns (ok: bool)
      requires WellParked(z) && |z.raws| == Span(z) - 1 && forall k :: k in z.raws ==> |z.raws[k]| >= RTP_HEADER
      modifies this`out
      ensures ok <==> Missing(Slots(z, Span(z)) + [parity]) == 1
      ensures out == old(out) + if ok then Emission(Emitted(z, Rebuilt(Slots(z, Span(z)), parity))) else []
    {
      hide Emitted, Slots, Missing, Columns, LastSeq, MaxLen;
      var last := LastKey(z);
      var rec;
      ok, rec := Rebuild(z, last - z.firstSeq + 1, parity);
      if ok {
        Emit(z, rec);
      }
    }

    /** The body of the pass for one parked frame. */
    method Visit(z: FrameState, now: int)
      requires WellParked(z) && forall k :: k in z.raws ==> |z.raws[k]| >= RTP_HEADER
      modifies this
      ensures St() == Visited(old(St()), z, now)
    {
      hide Emitted, Slots, Missing, Columns, LastSeq, MaxLen, Rebuilt, NoWrap;
      var key := z.captureMs % TWO32;
      var last := LastKey(z);
      var span := last - z.firstSeq + 1;
      SpanHoldsAll(z);
      if key in fec && z.markerSeen {
        if |z.raws| == span - 1 {
          var done := RecoverZombie(z, fec[key]);
          if done {
            fec := fec - {key};
            return;
          }
        }
      }
      if now - z.firstSeenUs > 250_000 {
        netLost := netLost + (span - |z.raws|);
        return;
      }
      zombies := zombies + [z];
    }

    method ExpireZombies(now: int)
      requires forall i :: 0 <= i < |zombies| ==> WellParked(zombies[i])
      requires forall i :: 0 <= i < |zombies| ==> forall k :: k in zombies[i].raws ==>
               |zombies[i].raws[k]| >= RTP_HEADER
      modifies this
      ensures St() == Passed(old(St()), now)
    {
      hide Visited, WellParked;
      var parked := zombies;
      zombies := [];
      ghost var start := St();
      assert parked[0..] == parked;
      for i := 0 to |parked|
        invariant VisitedAll(St(), parked[i..], now) == VisitedAll(start, parked, now)
      {
        Visit(parked[i], now);
        assert parked[i..][1..] == parked[i + 1..];
      }
    }

    /** The repair attempt: the slots with the parity behind them. */
    static method Rebuild(f: FrameState, span: nat, parity: bytes) returns (ok: bool, rec: bytes)
      requires NoWrap(f) && f.raws != map[] && span == Span(f) && |f.raws| == span - 1
      requires forall k :: k in f.raws ==> |f.raws[k]| >= RTP_HEADER
      ensures ok <==> Missing(Slots(f, span) + [parity]) == 1
      ensures ok ==> rec == Rebuilt(Slots(f, span), parity) && |rec| >= RTP_HEADER
    {
      LongEnough(f, span, parity);
      hide Missing, Columns, LastSeq, MaxLen, Slots, Span, NoWrap;
      var slots := FillSlots(f, span);
      var missingIdx := MissingSlot(f, span);
      EmptySlot(f, span, missingIdx);
      ghost var before := slots + [parity];
      var known := new bytes[span + 1](i requires 0 <= i <= span => if i < span then slots[i] else parity);
      assert known[..] == before;
      var maxLen := LongestOf(known[..]);
      ok := FecRecover(known, maxLen);
      rec := known[missingIdx];
      assert before[missingIdx] == [];
    }

    static method MissingSlot(f: FrameState, span: nat) returns (idx: nat)
      requires NoWrap(f) && f.raws != map[] && span == Span(f) && |f.raws| == span - 1
      ensures idx < span && f.firstSeq + idx !in f.raws
    {
      idx := span;
      for s := 0 to span
        invariant idx == span || (idx < s && f.firstSeq + idx !in f.raws)
        invariant idx == span ==> forall q: u16 :: f.firstSeq <= q < f.firstSeq + s ==> q in f.raws
      {
        if f.firstSeq + s !in f.raws {
          idx := s;
        }
      }
      if idx == span {
        AllPresent(f, span);
      }
    }
  }

  lemma EmptySlot(f: FrameState, span: nat, idx: nat)
    requires idx < span && f.firstSeq + idx !in f.raws
    ensures Slots(f, span)[idx] == []
  {
  }

  lemma UnpackHead(a: Stream, raws: seq<bytes>)
    requires raws != []
    ensures Unpack(a, raws) == Unpack(UnpackPacket(a, raws[0]), raws[1..])
  {
  }

  /** If every number of the span is present there are as many packets as numbers. */
  lemma {:induction false} IntervalSize(keys: set<u16>, lo: nat, n: nat)
    requires lo + n <= 0x1_0000 && forall q: u16 :: lo <= q < lo + n ==> q in keys
    ensures |keys| >= n
    decreases n
  {
    if n > 0 {
      var k: u16 := lo + (n - 1);
      assert k in keys;
      IntervalSize(keys - {k}, lo, n - 1);
    }
  }

  lemma AllPresent(f: FrameState, span: nat)
    requires NoWrap(f) && f.raws != map[] && span == Span(f)
    requires forall q: u16 :: f.firstSeq <= q < f.firstSeq + span ==> q in f.raws
    ensures |f.raws| >= span
  {
    IntervalSize(f.raws.Keys, f.firstSeq, span);
  }

  lemma LongEnough(f: FrameState, span: nat, parity: bytes)
    requires NoWrap(f) && f.raws != map[] && span == Span(f)
    requires forall k :: k in f.raws ==> |f.raws[k]| >= RTP_HEADER
    ensures |Rebuilt(Slots(f, span), parity)| >= RTP_HEADER
  {
    var k := LastSeq(f);
    var s := Slots(f, span) + [parity];
    assert s[k - f.firstSeq] == f.raws[k];
    assert f.raws[k] in s;
  }
}
