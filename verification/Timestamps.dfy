/**
 * 32-bit timestamps unwrapped to full width. The UDP receiver does this to capture times in
 * microseconds, the RTP receiver to 90 kHz ticks; the first packet is unwrapped around the local
 * clock, every later one around the previous result.
 */
module Timestamps {
  import opened Bytes

  /** The value with low half `lo` that the code settles on around `ref`. */
  function Nearest(ref: int, lo: u32): int {
    var c := ref / TWO32 * TWO32 + lo;
    if c > ref + HALF then c - TWO32 else if c < ref - HALF then c + TWO32 else c
  }

  function Extend(last: int, lo: u32, now: int): int {
    Nearest(if last == 0 then now else last, lo)
  }

  /**
   * Exactly when unwrapping recovers the true value: it lies strictly less than 2^31 away from the
   * reference, or exactly 2^31 away in the same 2^32 epoch.
   */
  lemma NearestRecovers(ref: int, v: int)
    ensures Nearest(ref, v % TWO32) == v <==>
              -HALF < v - ref < HALF || ((v - ref == HALF || v - ref == -HALF) && v / TWO32 == ref / TWO32)
  {
    var d := v - ref;
    if -HALF <= d <= HALF {
      var e := v / TWO32 - ref / TWO32;
      assert -1 <= e <= 1;
    }
  }

  /** The results for a whole stream of low halves. */
  function Unwrapped(last: int, los: seq<u32>, now: int): seq<int>
    decreases |los|
  {
    if los == [] then []
    else
      var v := Extend(last, los[0], now);
      [v] + Unwrapped(v, los[1..], now)
  }

  function LowHalves(vs: seq<int>): (los: seq<u32>)
    ensures |los| == |vs|
  {
    seq(|vs|, i requires 0 <= i < |vs| => vs[i] % TWO32)
  }

  /** The first value near the clock, each later one near its predecessor, none of them zero. */
  ghost predicate CloseTogether(ref: int, vs: seq<int>)
    decreases |vs|
  {
    vs == [] || (-HALF < vs[0] - ref < HALF && vs[0] != 0 && CloseTogether(vs[0], vs[1..]))
  }

  lemma {:induction false} StreamRecovered(last: int, vs: seq<int>, now: int)
    requires CloseTogether(if last == 0 then now else last, vs)
    ensures Unwrapped(last, LowHalves(vs), now) == vs
    decreases |vs|
  {
    if vs != [] {
      hide Nearest;
      NearestRecovers(if last == 0 then now else last, vs[0]);
      assert LowHalves(vs)[1..] == LowHalves(vs[1..]);
      StreamRecovered(vs[0], vs[1..], now);
    }
  }

  /**
   * Capture times sent over RTP: the 90 kHz stamp of a capture time comes back as that time in
   * milliseconds, and names the same parity slot the sender put in its parity packet.
   */
  lemma CaptureMillisRecovered(captureUs: nat, ref: int)
    requires var ticks := captureUs / 1000 * 90; -HALF < ticks - ref < HALF
    ensures var ts := captureUs / 1000 * 90 % TWO32;
            Nearest(ref, ts) / 90 == captureUs / 1000
    ensures var ts := captureUs / 1000 * 90 % TWO32;
            Nearest(ref, ts) / 90 % TWO32 == captureUs / 1000 % TWO32
  {
    hide Nearest;
    NearestRecovers(ref, captureUs / 1000 * 90);
    NinetyTimes(captureUs / 1000);
  }

  lemma NinetyTimes(ms: nat)
    ensures ms * 90 / 90 == ms
  {
  }

  // ---- the code ----

  /** extend_capture_us and extend_ts90; the result is also the new reference. */
  method ExtendFrom(last: int, lo: u32, now: int) returns (candidate: int)
    ensures candidate == Extend(last, lo, now)
  {
    if last == 0 {
      candidate := now / TWO32 * TWO32 + lo;
      if candidate > now + HALF {
        candidate := candidate - TWO32;
      }
      if candidate < now - HALF {
        candidate := candidate + TWO32;
      }
      return;
    }
    candidate := last / TWO32 * TWO32 + lo;
    ghost var start := candidate;
    while candidate + HALF < last
      invariant candidate == start || (candidate == start + TWO32 && start + HALF < last)
      decreases last - candidate
    {
      candidate := candidate + TWO32;
    }
    ghost var raised := candidate;
    while candidate > last + HALF
      invariant candidate == raised || (candidate == raised - TWO32 && raised > last + HALF)
      decreases candidate - last
    {
      candidate := candidate - TWO32;
    }
  }
}
