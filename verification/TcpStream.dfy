/** The TCP stream round trip: what the client reads of what the server wrote. */
module TcpStream {
  import opened Octets
  import opened Bytes
  import opened MediaTypes
  import opened TcpWire

  /** A frame as the client sees it: the frame number is cut to 32 bits, the capture time to 64. */
  function Received(f: Frame): Frame {
    Frame(Signed64(Unsigned64(f.captureUs)), f.frameId % TWO32, f.keyframe, f.data)
  }

  /** A signed 64-bit capture time and a frame number of 32 bits come through unchanged. */
  lemma ReceivedSame(f: Frame)
    ensures Received(f) == f <==> -TWO63 <= f.captureUs < TWO63 && 0 <= f.frameId < TWO32
  {
  }

  /** The video frames among the messages, as the client should see them. */
  function Videos(ms: seq<Msg>): seq<Frame> {
    if ms == [] then []
    else (match ms[0] case Video(f) => [Received(f)] case Stats(_, _) => []) + Videos(ms[1..])
  }

  ghost predicate Fits(m: Msg) {
    |Packet(m)| <= 16_777_216
  }

  lemma HeaderParts(flags: byte, frameId: u32, captureUs: int, data: bytes)
    ensures var p := Header(flags, frameId, captureUs) + data;
            && TcpMagicOk(p) && p[4] == flags && p[HEADER..] == data
            && Load(p[8..12]) == frameId && Load(p[12..20]) == Unsigned64(captureUs)
  {
    hide Store, Load, Unsigned64;
    var p := Header(flags, frameId, captureUs) + data;
    Pow256Values();
    LoadStore(frameId, 4);
    UnsignedBound(captureUs);
    LoadStore(Unsigned64(captureUs), 8);
    assert p[..4] == [0x52, 0x54, 0x56, 0x31];
    assert p[8..12] == Store(frameId, 4);
    assert p[12..20] == Store(Unsigned64(captureUs), 8);
  }

  lemma UnsignedBound(n: int)
    ensures Unsigned64(n) < TWO64
  {
  }

  /** A whole packet gives the client its frame; metrics never show up as video. */
  lemma PacketYields(m: Msg)
    ensures Yield(Packet(m)) == Videos([m])
  {
    hide Header, Load, TcpMagicOk, Unsigned64, Signed64;
    assert [m][1..] == [];
    match m
    case Video(f) => HeaderParts(if f.keyframe then 1 else 0, f.frameId % TWO32, f.captureUs, f.data);
    case Stats(json, nowUs) => HeaderParts(2, 0, nowUs, json);
  }

  lemma LengthPrefix(m: Msg, rest: bytes)
    requires |Packet(m)| < TWO32
    ensures var s := Printed(m) + rest;
            && |s| == 4 + |Packet(m)| + |rest| && Load(s[..4]) == |Packet(m)|
            && s[4..4 + |Packet(m)|] == Packet(m) && s[4 + |Packet(m)|..] == rest
  {
    hide Packet, Store, Load;
    var s := Printed(m) + rest;
    Pow256Values();
    LoadStore(|Packet(m)|, 4);
    assert s[..4] == Store(|Packet(m)|, 4);
  }

  lemma ReadOne(m: Msg, rest: bytes)
    requires |Packet(m)| < TWO32
    ensures Read(Printed(m) + rest) ==
            if Fits(m) then Reading(Videos([m]) + Read(rest).frames, Read(rest).end)
            else Reading([], BadLength(|Packet(m)|))
  {
    hide Packet, Load, Yield, Printed, Videos;
    LengthPrefix(m, rest);
    PacketYields(m);
  }

  /** A length below the header's 20 octets or above 16 MiB ends the reading at once, and no other length does. */
  lemma LengthBounds(s: bytes)
    requires |s| >= 4
    ensures var total := Load(s[..4]);
            Read(s) == Reading([], BadLength(total)) <==> total < 20 || total > 16_777_216
  {
    hide Load, Yield;
    if 20 <= Load(s[..4]) <= 16_777_216 && |s| >= 4 + Load(s[..4]) {
      EndsBadly(s[4 + Load(s[..4])..]);
    }
  }

  lemma {:induction false} EndsBadly(s: bytes)
    ensures Read(s).end.BadLength? ==> Read(s).end.total < 20 || Read(s).end.total > 16_777_216
    decreases |s|
  {
    hide Load, Yield;
    if |s| >= 4 && 20 <= Load(s[..4]) <= 16_777_216 && |s| >= 4 + Load(s[..4]) {
      EndsBadly(s[4 + Load(s[..4])..]);
    }
  }

  /** Messages that all fit are read through: their video frames, in order and no others, then the rest. */
  lemma {:induction false} AllRead(ms: seq<Msg>, tail: bytes)
    requires forall i :: 0 <= i < |ms| ==> Fits(ms[i])
    ensures Read(Stream(ms) + tail) == Reading(Videos(ms) + Read(tail).frames, Read(tail).end)
    decreases |ms|
  {
    hide Packet, Read, Printed;
    if ms == [] {
      assert [] + tail == tail;
      assert [] + Read(tail).frames == Read(tail).frames;
    } else {
      var rest := ms[1..];
      ReadOne(ms[0], Stream(rest) + tail);
      AllRead(rest, tail);
      assert Stream(ms) + tail == Printed(ms[0]) + (Stream(rest) + tail);
      VideosSplit(ms, Read(tail).frames);
    }
  }

  lemma {:induction false} StreamSplit(ms: seq<Msg>, k: nat)
    requires k < |ms|
    ensures Stream(ms) == Stream(ms[..k]) + (Printed(ms[k]) + Stream(ms[k + 1..]))
    decreases |ms|
  {
    hide Printed;
    if k > 0 {
      StreamSplit(ms[1..], k - 1);
      assert ms[..k][1..] == ms[1..][..k - 1] && ms[1..][k..] == ms[k + 1..];
    }
  }

  /** A message too long for the client ends the connection there, with the frames before it. */
  lemma StopsAt(ms: seq<Msg>, k: nat)
    requires k < |ms| && 16_777_216 < |Packet(ms[k])| < TWO32
    requires forall i :: 0 <= i < k ==> Fits(ms[i])
    ensures Read(Stream(ms)) == Reading(Videos(ms[..k]), BadLength(|Packet(ms[k])|))
  {
    StreamSplit(ms, k);
    ReadOne(ms[k], Stream(ms[k + 1..]));
    AllRead(ms[..k], Printed(ms[k]) + Stream(ms[k + 1..]));
    hide Read, Stream, Printed, Videos;
    assert Videos(ms[..k]) + [] == Videos(ms[..k]);
  }

  lemma {:induction false} FirstMisfit(ms: seq<Msg>) returns (k: nat)
    requires exists i :: 0 <= i < |ms| && !Fits(ms[i])
    ensures k < |ms| && !Fits(ms[k]) && forall i :: 0 <= i < k ==> Fits(ms[i])
    decreases |ms|
  {
    hide Fits;
    k := 0;
    if Fits(ms[0]) {
      var i :| 0 <= i < |ms| && !Fits(ms[i]);
      assert ms[1..][i - 1] == ms[i];
      var j := FirstMisfit(ms[1..]);
      k := j + 1;
      assert forall i :: 1 <= i < k ==> ms[i] == ms[1..][i - 1];
    }
  }

  /**
   * The round trip, for messages below 4 GiB: the client reads the whole stream, ending with the video
   * frames sent, in order and no others, if and only if each message is at most 16 MiB with its header.
   */
  lemma RoundTrip(ms: seq<Msg>)
    requires forall i :: 0 <= i < |ms| ==> |Packet(ms[i])| < TWO32
    ensures Read(Stream(ms)) == Reading(Videos(ms), Closed) <==> forall i :: 0 <= i < |ms| ==> Fits(ms[i])
  {
    hide Packet, Stream, Videos;
    if forall i :: 0 <= i < |ms| ==> Fits(ms[i]) {
      AllRead(ms, []);
      assert Stream(ms) + [] == Stream(ms);
      assert Videos(ms) + [] == Videos(ms);
    } else {
      var k := FirstMisfit(ms);
      StopsAt(ms, k);
    }
  }

  lemma VideosSplit(ms: seq<Msg>, more: seq<Frame>)
    requires ms != []
    ensures Videos(ms) == Videos([ms[0]]) + Videos(ms[1..])
    ensures Videos(ms) + more == Videos([ms[0]]) + (Videos(ms[1..]) + more)
  {
    hide Received;
    assert [ms[0]][1..] == [];
    assert Videos([]) == [];
  }

  /** A connection that breaks anywhere, even inside a frame, costs frames only at the end. */
  lemma {:induction false} BrokenOff(s: bytes, n: nat)
    requires n <= |s|
    ensures Read(s[..n]).frames <= Read(s).frames
    decreases |s|
  {
    hide Load, Yield;
    if n >= 4 {
      assert s[..n][..4] == s[..4];
      var total := Load(s[..4]);
      if HEADER <= total <= MAX_TOTAL && n >= 4 + total {
        BrokenOff(s[4 + total..], n - (4 + total));
        assert s[..n][4..4 + total] == s[4..4 + total];
        assert s[..n][4 + total..] == s[4 + total..][..n - (4 + total)];
      }
    }
  }

  /** From the server's calls to the client's output, whatever the order of frames and metrics. */
  lemma StreamRoundTrip(server: ServerSide)
    requires server.Valid() && forall i :: 0 <= i < |server.sent| ==> Fits(server.sent[i])
    ensures Read(server.wire) == Reading(Videos(server.sent), Closed)
  {
    hide Packet, Stream, Videos, Read;
    AllRead(server.sent, []);
    assert server.wire + [] == server.wire;
    assert Videos(server.sent) + [] == Videos(server.sent);
    EmptyRead();
  }

  lemma EmptyRead()
    ensures Read([]) == Reading([], Closed)
  {
  }
}
