/**
 * The TCP transport: length-prefixed frames with a 20-octet header, the server's two writers of one
 * connection, and the client's blocking read loop.
 */
module TcpWire {
  import opened Octets
  import opened Bytes
  import opened MediaTypes

  const HEADER := 20
  const MAX_TOTAL := 16 * 1024 * 1024
  const TWO63 := 0x8000_0000_0000_0000

  /** What a connection carries: a video frame, or the server's metrics text at some clock reading. */
  datatype Msg = Video(frame: Frame) | Stats(json: bytes, nowUs: int)

  function Unsigned64(n: int): nat {
    n % TWO64
  }

  /** static_cast<int64_t>. */
  function Signed64(v: nat): int
    requires v < TWO64
  {
    if v < TWO63 then v else v - TWO64
  }

  function Header(flags: byte, frameId: u32, captureUs: int): (h: bytes)
    ensures |h| == HEADER
  {
    [0x52, 0x54, 0x56, 0x31, flags, 0, 0, 0] + Store(frameId, 4) + Store(Unsigned64(captureUs), 8)
  }

  function Packet(m: Msg): (p: bytes)
    ensures |p| >= HEADER
  {
    match m
    case Video(f) => Header(if f.keyframe then 1 else 0, f.frameId % TWO32, f.captureUs) + f.data
    case Stats(json, nowUs) => Header(2, 0, nowUs) + json
  }

  /** A message on the wire; the length is cut to 32 bits. */
  function Printed(m: Msg): bytes {
    Store(|Packet(m)| % TWO32, 4) + Packet(m)
  }

  function Stream(ms: seq<Msg>): bytes {
    if ms == [] then [] else Printed(ms[0]) + Stream(ms[1..])
  }

  // ---- the reader ----

  datatype End =
    | Closed                  // the connection ended, perhaps inside a frame
    | BadLength(total: nat)   // a length outside the bounds: the client gives up

  datatype Reading = Reading(frames: seq<Frame>, end: End)

  predicate TcpMagicOk(buf: bytes)
    requires |buf| >= 4
  {
    buf[..4] == [0x52, 0x54, 0x56, 0x31]
  }

  function FrameOf(buf: bytes): Frame
    requires |buf| >= HEADER
  {
    LoadBound(buf[12..20]); Pow256Values();
    Frame(Signed64(Load(buf[12..20])), Load(buf[8..12]), buf[4] % 2 == 1, buf[HEADER..])
  }

  /** What one whole packet adds to the output: nothing for a bad magic or for metrics. */
  function Yield(buf: bytes): seq<Frame>
    requires |buf| >= HEADER
  {
    if !TcpMagicOk(buf) || buf[4] / 2 % 2 == 1 then [] else [FrameOf(buf)]
  }

  /** What the client makes of all the octets it will ever get. */
  function Read(s: bytes): Reading {
    if |s| < 4 then Reading([], Closed)
    else
      var total := Load(s[..4]);
      if total < HEADER || total > MAX_TOTAL then Reading([], BadLength(total))
      else if |s| < 4 + total then Reading([], Closed)
      else
        var rest := Read(s[4 + total..]);
        rest.(frames := Yield(s[4..4 + total]) + rest.frames)
  }

  // ---- the server's side of one connection ----

  lemma FourOctets(v: u32)
    ensures Store(v, 4) == [Octet3(v), Octet2(v), Octet1(v), Low(v)]
  {
    hide Low;
    var a, b, c := v / 256, v / 256 / 256, v / 256 / 256 / 256;
    assert Store(c, 1) == Store(c / 256, 0) + [Low(c)] == [Low(c)];
    assert Store(b, 2) == Store(c, 1) + [Low(b)] == [Low(c), Low(b)];
    assert Store(a, 3) == Store(b, 2) + [Low(a)] == [Low(c), Low(b), Low(a)];
  }

  /** Both forms of write_header, once the flags are known. */
  method WriteTcpHeader(buf: array<byte>, flags: byte, frameId: u32, captureUs: int)
    requires buf.Length >= HEADER
    modifies buf
    ensures buf[..HEADER] == Header(flags, frameId, captureUs)
    ensures buf[HEADER..] == old(buf[HEADER..])
  {
    hide Store, Octet1, Octet2, Octet3, Low;
    buf[0], buf[1], buf[2], buf[3] := 0x52, 0x54, 0x56, 0x31;
    buf[4] := flags;
    buf[5], buf[6], buf[7] := 0, 0, 0;
    Put32(buf, 8, frameId);
    FourOctets(frameId);
    assert buf[8..12] == Store(frameId, 4);
    ghost var front := buf[..12];
    assert buf[HEADER..] == old(buf[HEADER..]);
    StoreBe64(buf, 12, Unsigned64(captureUs));
    assert buf[..HEADER] == front + buf[12..HEADER];
    assert front == [0x52, 0x54, 0x56, 0x31, flags, 0, 0, 0] + Store(frameId, 4);
  }

  class ServerSide {
    var wire: bytes        // every octet handed to the socket
    ghost var sent: seq<Msg>

    ghost predicate Valid()
      reads this
    {
      wire == Stream(sent)
    }

    constructor ()
      ensures Valid() && sent == []
    {
      wire, sent := [], [];
    }

    /** One turn of send_loop: header and data copied into a fresh packet, then length and packet. */
    method SendFrame(f: Frame)
      requires Valid()
      modifies this
      ensures Valid() && sent == old(sent) + [Video(f)]
    {
      hide Header, Stream;
      var pkt := new byte[HEADER + |f.data|](_ => 0);
      WriteTcpHeader(pkt, if f.keyframe then 1 else 0, f.frameId % TWO32, f.captureUs);
      CopyPayload(pkt, f.data);
      assert pkt[..] == pkt[..HEADER] + pkt[HEADER..];
      Send(pkt[..], Video(f));
    }

    /** One turn of stats_loop, for this client. */
    method SendStats(json: bytes, nowUs: int)
      requires Valid()
      modifies this
      ensures Valid() && sent == old(sent) + [Stats(json, nowUs)]
    {
      hide Header, Stream;
      var pkt := new byte[HEADER + |json|](_ => 0);
      WriteTcpHeader(pkt, 2, 0, nowUs);
      CopyPayload(pkt, json);
      assert pkt[..] == pkt[..HEADER] + pkt[HEADER..];
      Send(pkt[..], Stats(json, nowUs));
    }

    /** Length and packet under the send lock. */
    method Send(pkt: bytes, ghost m: Msg)
      requires Valid() && pkt == Packet(m)
      modifies this
      ensures Valid() && sent == old(sent) + [m]
    {
      hide Packet;
      StreamSnoc(sent, m);
      wire := wire + Store(|pkt| % TWO32, 4);
      wire := wire + pkt;
      sent := sent + [m];
    }
  }

  lemma {:induction false} StreamSnoc(ms: seq<Msg>, m: Msg)
    ensures Stream(ms + [m]) == Stream(ms) + Store(|Packet(m)| % TWO32, 4) + Packet(m)
  {
    hide Packet;
    if ms == [] {
      assert Stream([m]) == Printed(m) + Stream([]);
    } else {
      StreamSnoc(ms[1..], m);
      assert (ms + [m])[1..] == ms[1..] + [m];
    }
  }

  /** memcpy of the payload behind the header. */
  method CopyPayload(pkt: array<byte>, data: bytes)
    requires pkt.Length == HEADER + |data|
    modifies pkt
    ensures pkt[..HEADER] == old(pkt[..HEADER]) && pkt[HEADER..] == data
  {
    for i := 0 to |data|
      invariant forall k :: 0 <= k < HEADER ==> pkt[k] == old(pkt[k])
      invariant forall k :: 0 <= k < i ==> pkt[HEADER + k] == data[k]
    {
      pkt[HEADER + i] := data[i];
    }
    assert forall k :: 0 <= k < |data| ==> pkt[HEADER..][k] == pkt[HEADER + k];
  }

  // ---- the client ----

  class ClientSide {
    var input: bytes       // what is still to be received
    var out: seq<Frame>    // every frame pushed to the output queue
    var running: bool

    constructor (s: bytes)
      ensures input == s && out == [] && running
    {
      input, out, running := s, [], true;
    }

    /** recv: some of the octets at hand, at least one unless the connection ended. */
    method Recv(want: nat) returns (got: bytes)
      requires want > 0
      modifies this`input
      ensures got + input == old(input) && |got| <= want
      ensures got == [] ==> old(input) == []
    {
      if input == [] {
        got := [];
      } else {
        var n :| 1 <= n <= |input| && n <= want;
        got, input := input[..n], input[n..];
      }
    }

    /** read_all: exactly len octets, in however many recvs, or failure. */
    method ReadAll(len: nat) returns (ok: bool, buf: bytes)
      modifies this`input
      ensures ok <==> |old(input)| >= len
      ensures ok ==> buf == old(input)[..len] && input == old(input)[len..]
    {
      buf := [];
      while |buf| < len
        invariant buf + input == old(input) && |buf| <= len
      {
        var got := Recv(len - |buf|);
        if got == [] {
          ok := false;
          return;
        }
        buf := buf + got;
      }
      ok := true;
    }

    /** The receive loop, until the stream ends or a length is out of bounds. */
    method Loop() returns (ghost end: End)
      requires running
      modifies this
      ensures !running
      ensures Reading(out, end) == Reading(old(out) + Read(old(input)).frames, Read(old(input)).end)
    {
      hide Load, Yield;
      end := Closed;
      ghost var was := out;
      assert out + Read(input).frames == was + Read(old(input)).frames;
      while running
        invariant running && end == Closed
        invariant out + Read(input).frames == was + Read(old(input)).frames
        invariant Read(input).end == Read(old(input)).end
        decreases |input|
      {
        ghost var s := input;
        var ok, lenbuf := ReadAll(4);
        if !ok {
          assert out + [] == out;
          break;
        }
        var total := LoadWord(lenbuf);
        if total < HEADER || total > MAX_TOTAL {
          end := BadLength(total);
          assert out + [] == out;
          break;
        }
        var buf;
        ok, buf := ReadAll(total);
        if !ok {
          assert out + [] == out;
          break;
        }
        assert s[4..][..total] == s[4..4 + total] && s[4..][total..] == s[4 + total..];
        ghost var before := out;
        Take(buf);
        assert before + (Yield(buf) + Read(input).frames) == out + Read(input).frames;
      }
      running := false;
    }

    /** ntohl of the four octets of a length. */
    static method LoadWord(b: bytes) returns (n: nat)
      requires |b| == 4
      ensures n == Load(b)
    {
      n := Number32(b[0], b[1], b[2], b[3]);
      LoadFour(b);
    }

    /** What the loop does with one whole packet. */
    method Take(buf: bytes)
      requires |buf| >= HEADER
      modifies this`out
      ensures out == old(out) + Yield(buf)
    {
      if !TcpMagicOk(buf) {
        return;
      }
      if buf[4] / 2 % 2 == 1 {
        return;
      }
      var keyframe := buf[4] % 2 == 1;
      var frameId := LoadWord(buf[8..12]);
      var capture := LoadBe64(buf, 12);
      out := out + [Frame(Signed64(capture), frameId, keyframe, buf[HEADER..])];
    }
  }

  lemma LoadFour(b: bytes)
    requires |b| == 4
    ensures Load(b) == Number32(b[0], b[1], b[2], b[3])
  {
    assert Load(b[..1]) == b[0] by { assert b[..1][..0] == []; }
    assert Load(b[..2]) == Load(b[..1]) * 256 + b[1] by { assert b[..2][..1] == b[..1]; }
    assert Load(b[..3]) == Load(b[..2]) * 256 + b[2] by { assert b[..3][..2] == b[..2]; }
  }
}
