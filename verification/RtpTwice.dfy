/**
 * How often the RTP assembler emits a frame. Its marked packet finishes it for the first time; the next
 * frame's first packet finishes whatever is still in place once more. In between the stored
 * parities may change in any way.
 */
module RtpTwice {
  import opened Bytes
  import opened Options
  import opened Fec
  import opened RtpReceivers
  import opened RtpRepair
  import opened Sets

  function Key(f: FrameState): u32 {
    f.captureMs % TWO32
  }

  /** A frame one packet short has an empty slot. */
  lemma ShortHasGap(f: FrameState)
    requires NoWrap(f) && f.raws != map[] && |f.raws| == Span(f) - 1
    ensures Missing(Slots(f, Span(f))) > 0
  {
    hide LastSeq, Missing, Interval;
    var span := Span(f);
    var all := Interval(f.firstSeq, span);
    assert !(all <= f.raws.Keys) by {
      if all <= f.raws.Keys {
        SubsetSize(all, f.raws.Keys);
      }
    }
    var q :| q in all && q !in f.raws;
    EmptySlot(f, span, q - f.firstSeq);
    MissingZero(Slots(f, span));
  }

  /** What is repaired from one parity can be repaired from any other that is not empty. */
  lemma RepairableAgain(f: FrameState, parity: bytes, other: bytes)
    requires NoWrap(f) && f.raws != map[] && |f.raws| == Span(f) - 1 && Missing(Slots(f, Span(f)) + [parity]) == 1
    ensures Missing(Slots(f, Span(f)) + [other]) == 1 <==> other != []
  {
    hide Slots, Span;
    ShortHasGap(f);
    MissingAppend(Slots(f, Span(f)), parity);
    MissingAppend(Slots(f, Span(f)), other);
  }

  /**
   * The second finish, from any state, with the parities in between changed to `fec`. A complete frame is
   * emitted again; a repaired one is repaired again, from the parity then stored, if there is one
   * that is not empty, and is otherwise given up with one packet lost; after any other first finish
   * nothing happens.
   */
  lemma SecondFinish(st: Asm, fec: map<u32, bytes>, t1: int, t2: int)
    requires NoWrap(st.cur)
    ensures NoWrap(Finish(st, true, t1).cur)
    ensures var f, mid := st.cur, Finish(st, true, t1).(fec := fec);
            Finish(mid, false, t2) ==
              match Finalized(f, ParityFor(st.fec, f.captureMs), true, t1)
              case Emits(o) => mid.(out := mid.out + Emission(o))
              case Repairs(_) =>
                if Key(f) in fec && fec[Key(f)] != [] then
                  mid.(out := mid.out + Emission(Emitted(f, Rebuilt(Slots(f, Span(f)), fec[Key(f)]))),
                      fec := fec - {Key(f)})
                else mid.(cur := NO_FRAME, netLost := mid.netLost + 1)
              case _ => mid
  {
    hide Emitted, Slots, Span, Missing, Rebuilt, LooksComplete, NoWrap;
    var f := st.cur;
    NothingIsClear();
    if Finalized(f, ParityFor(st.fec, f.captureMs), true, t1).Repairs? {
      var p := ParityFor(st.fec, f.captureMs).value;
      var q := if Key(f) in fec then fec[Key(f)] else [];
      RepairableAgain(f, p, q);
    }
  }

  lemma NothingIsClear()
    ensures NoWrap(NO_FRAME)
  {
  }

  /**
   * Once or twice. Whatever state a marked packet leaves, if it makes the assembler emit x, the next
   * frame's first packet makes it emit x again exactly when the frame was complete or its
   * parity is stored again by then; otherwise it emits nothing.
   */
  lemma EmittedTwiceExactlyWhen(st: Asm, fec: map<u32, bytes>, x: OutFrame, t1: int, t2: int)
    requires NoWrap(st.cur) && Finish(st, true, t1).out == st.out + [x]
    requires Key(st.cur) in fec && Key(st.cur) in st.fec ==> fec[Key(st.cur)] == st.fec[Key(st.cur)]
    ensures NoWrap(Finish(st, true, t1).cur)
    ensures var first := Finish(st, true, t1);
            var second := Finish(first.(fec := fec), false, t2);
            && (second.out == first.out + [x] <==> LooksComplete(st.cur) || Key(st.cur) in fec)
            && (second.out == first.out + [x] || second.out == first.out)
  {
    SecondFinish(st, fec, t1, t2);
    var f := st.cur;
    var outcome := Finalized(f, ParityFor(st.fec, f.captureMs), true, t1);
    WhatEmits(st, x, t1);
    hide Emitted, Slots, Span, Missing, Rebuilt, LooksComplete, NoWrap, Finalized;
    var first := Finish(st, true, t1);
    assert |first.out + [x]| > |first.out|;
  }

  /** A finish that emits x found the frame complete, or repaired it from a parity that is not empty. */
  lemma WhatEmits(st: Asm, x: OutFrame, now: int)
    requires NoWrap(st.cur) && Finish(st, true, now).out == st.out + [x]
    ensures var f := st.cur;
            var outcome := Finalized(f, ParityFor(st.fec, f.captureMs), true, now);
            && (LooksComplete(f) ==> outcome == Emits(Some(x)))
            && (!LooksComplete(f) ==> outcome == Repairs(Some(x)) && Key(f) in st.fec && st.fec[Key(f)] != []
                                      && Emitted(f, Rebuilt(Slots(f, Span(f)), st.fec[Key(f)])) == Some(x))
  {
    hide Emitted, Slots, Span, Missing, Rebuilt, NoWrap;
    var f := st.cur;
    var outcome := Finalized(f, ParityFor(st.fec, f.captureMs), true, now);
    LongerByOne(st.out, x);
    if outcome.Repairs? {
      var p := st.fec[Key(f)];
      RepairableAgain(f, p, p);
    }
  }

  lemma LongerByOne(out: seq<OutFrame>, x: OutFrame)
    ensures out + [] == out && out != out + [x]
    ensures forall y: OutFrame :: out + [y] == out + [x] ==> y == x
  {
    forall y: OutFrame | out + [y] == out + [x]
      ensures y == x
    {
      assert (out + [y])[|out|] == (out + [x])[|out|];
    }
  }

  /** The same over packets: p is marked and finishes its frame, q begins another one. */
  lemma TwiceOverPackets(st: Asm, p: RtpPacket, fec: map<u32, bytes>, q: RtpPacket, x: OutFrame, t1: int, t2: int)
    requires Follows(st.cur, p) && p.marker && q.ts != p.ts && !q.marker
    requires var s := Gathering(st, p, t1);
             && NoWrap(s.cur) && Assembled(st, p, t1).out == s.out + [x]
             && (Key(s.cur) in fec && Key(s.cur) in s.fec ==> fec[Key(s.cur)] == s.fec[Key(s.cur)])
    ensures var s, first := Gathering(st, p, t1), Assembled(st, p, t1);
            && Follows(first.(fec := fec).cur, q)
            && var second := Assembled(first.(fec := fec), q, t2);
               && (second.out == first.out + [x] <==> LooksComplete(s.cur) || Key(s.cur) in fec)
               && (second.out == first.out + [x] || second.out == first.out)
  {
    var s := Gathering(st, p, t1);
    GatheringTs(st, p, t1);
    hide LooksComplete, NoWrap, Gathering, WithPacket;
    AssembledGathers(st, p, t1);
    EmittedTwiceExactlyWhen(s, fec, x, t1, t2);
    FinishTs(s, t1);
    NewFrameBegins(Finish(s, true, t1).(fec := fec), q, t2);
  }

  /** The state in which the marked packet's frame is finished. */
  ghost function Gathering(st: Asm, p: RtpPacket, now: int): Asm
    requires Follows(st.cur, p)
  {
    var ready := if !st.cur.started || p.ts != st.cur.ts then Finish(st, false, now).(cur := NewFrame(p, now)) else st;
    ready.(cur := WithPacket(ready.cur, p))
  }

  lemma GatheringTs(st: Asm, p: RtpPacket, now: int)
    requires Follows(st.cur, p)
    ensures var s := Gathering(st, p, now); s.cur.started && s.cur.ts == p.ts
  {
    hide Finalized;
  }

  lemma AssembledGathers(st: Asm, p: RtpPacket, now: int)
    requires Follows(st.cur, p) && p.marker && NoWrap(Gathering(st, p, now).cur)
    ensures Assembled(st, p, now) == Finish(Gathering(st, p, now), true, now)
  {
    hide Finish;
  }

  lemma FinishTs(st: Asm, now: int)
    requires NoWrap(st.cur)
    ensures var c := Finish(st, true, now).cur; c == st.cur || c == NO_FRAME
  {
    hide Finalized, NoWrap;
  }

  lemma NewFrameBegins(st: Asm, q: RtpPacket, now: int)
    requires NoWrap(st.cur) && !q.marker && (st.cur.started ==> q.ts != st.cur.ts)
    ensures Follows(st.cur, q) && Assembled(st, q, now).out == Finish(st, false, now).out
  {
    hide Finish, NoWrap;
  }
}
