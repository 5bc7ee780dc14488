/** The WebSocket server (sections 5.2 to 5.5 of RFC 6455): writing frames, and the receive loop of one client. */
module WsServers {
  import opened Octets
  import opened Bytes
  import opened MediaTypes

  // Opcodes of section 5.2.
  const CONTINUATION := 0
  const TEXT := 1
  const BINARY := 2
  const CLOSE := 8
  const PING := 9
  const PONG := 10

  // ---- writing ----

  /** The length field and whatever extends it, in the server's choice of form. */
  function LengthField(n: nat, maskBit: nat): (s: bytes)
    requires n < TWO64 && (maskBit == 0 || maskBit == 128)
    ensures |s| == if n < 126 then 1 else if n <= 0xFFFF then 3 else 9
  {
    if n < 126 then [n + maskBit]
    else if n <= 0xFFFF then [126 + maskBit] + Store(n, 2)
    else [127 + maskBit] + Store(n, 8)
  }

  /** What broadcast puts on the wire: a final, unmasked frame. */
  function Broadcast(opcode: nat, data: bytes): bytes
    requires opcode < 16 && |data| < TWO64
  {
    [128 + opcode] + LengthField(|data|, 0) + data
  }

  /** The answer to a ping; only seven bits of the length are written. */
  function PongFrame(payload: bytes): bytes {
    [0x8A, |payload| % 128] + payload
  }

  /** broadcast's frame building, octet by octet. */
  method BuildFrame(opcode: nat, data: bytes) returns (frame: bytes)
    requires opcode < 16 && |data| < TWO64
    ensures frame == Broadcast(opcode, data)
  {
    var len := |data|;
    frame := [128 + opcode];
    if len < 126 {
      frame := frame + [len];
    } else if len <= 0xFFFF {
      TwoOctets(len);
      frame := frame + [126];
      frame := frame + [len / 256];
      frame := frame + [Low(len)];
    } else {
      frame := frame + [127];
      ghost var head := frame;
      var i := 8;
      while i > 0
        invariant 0 <= i <= 8
        invariant frame == head + Store(Shifted(len, i), 8 - i)
      {
        i := i - 1;
        ShiftOnce(len, i);
        frame := frame + [Low(Shifted(len, i))];
      }
    }
    frame := frame + data;
  }

  /** len >> (8 * k). */
  function Shifted(n: nat, k: nat): nat {
    if k == 0 then n else Shifted(n, k - 1) / 256
  }

  lemma ShiftOnce(n: nat, k: nat)
    ensures Shifted(n, k + 1) == Shifted(n, k) / 256
  {
  }

  lemma TwoOctets(n: nat)
    requires n <= 0xFFFF
    ensures n / 256 < 256 && Store(n, 2) == [n / 256, Low(n)]
  {
    assert Store(n / 256, 1) == Store(n / 256 / 256, 0) + [Low(n / 256)];
  }

  // ---- parsing ----

  datatype Parse =
    | NeedMore                                                   // wait for more octets
    | Whole(fin: bool, opcode: nat, payload: bytes, used: nat)   // a whole frame, of so many octets
    | TooLong                                                    // header and payload exceed a 64-bit size

  /** Octet i of the repeated masking key; no key at all masks nothing. */
  function KeyAt(key: bytes, i: nat): byte
    requires |key| == 0 || |key| == 4
  {
    if key == [] then 0 else key[i % 4]
  }

  /** Section 5.3: masking and unmasking are the same operation. */
  function Unmask(key: bytes, payload: bytes): (r: bytes)
    requires |key| == 0 || |key| == 4
    ensures |r| == |payload|
  {
    seq(|payload|, i requires 0 <= i < |payload| => Xor(payload[i], KeyAt(key, i)))
  }

  /** How many octets extend a seven-bit length. */
  function Extension(len7: nat): nat {
    if len7 == 126 then 2 else if len7 == 127 then 8 else 0
  }

  /** The first frame of a buffer, when it is all there. */
  function ParseFrame(buf: bytes): Parse {
    if |buf| < 2 then NeedMore
    else
      var len7 := buf[1] % 128;
      var at := 2 + Extension(len7);
      if |buf| < at then NeedMore
      else
        var len := if at == 2 then len7 else Load(buf[2..at]);
        var hdr := at + if buf[1] >= 128 then 4 else 0;
        if |buf| < hdr then NeedMore
        else if hdr + len >= TWO64 then TooLong
        else if |buf| < hdr + len then NeedMore
        else Whole(buf[0] >= 128, buf[0] % 16, Unmask(buf[at..hdr], buf[hdr..hdr + len]), hdr + len)
  }

  lemma FrameUses(buf: bytes)
    requires ParseFrame(buf).Whole?
    ensures 2 <= ParseFrame(buf).used <= |buf|
  {
    hide Unmask, Load;
  }

  // ---- one client ----

  /** What the loop does to the outside: a text handed to the callback, or an answer to a ping. */
  datatype Event = Message(text: bytes) | Pong(frame: bytes)

  datatype Conn = Conn(buf: bytes, op: nat, msg: bytes, alive: bool, events: seq<Event>)

  const OPENED := Conn([], 0, [], true, [])

  /** One whole frame. */
  function Handle(c: Conn, fin: bool, opcode: nat, payload: bytes): Conn {
    if opcode == CLOSE then c.(alive := false)
    else if opcode == PING then c.(events := c.events + [Pong(PongFrame(payload))])
    else if opcode == PONG then c
    else Flush(Collect(c, opcode, payload), fin)
  }

  /** A first fragment starts the message over, a continuation extends it, anything else leaves it. */
  function Collect(c: Conn, opcode: nat, payload: bytes): Conn {
    if opcode == TEXT || opcode == BINARY then c.(op := opcode, msg := payload)
    else if opcode == CONTINUATION then c.(msg := c.msg + payload)
    else c
  }

  function Flush(c: Conn, fin: bool): Conn {
    if !fin || c.msg == [] then c
    else c.(msg := [], events := c.events + if c.op == TEXT then [Message(c.msg)] else [])
  }

  /** The inner loop: handle frames for as long as whole ones are there. */
  function Drain(c: Conn): Conn
    decreases |c.buf|
  {
    match ParseFrame(c.buf)
    case NeedMore => c
    case TooLong => c.(alive := false)
    case Whole(fin, opcode, payload, used) =>
      FrameUses(c.buf);
      var d := Handle(c.(buf := c.buf[used..]), fin, opcode, payload);
      if d.alive then Drain(d) else d
  }

  /** One recv; a connection that was closed reads no more. */
  function Feed(c: Conn, chunk: bytes): Conn {
    if c.alive then Drain(c.(buf := c.buf + chunk)) else c
  }

  class Client {
    var buf: bytes
    var curOpcode: nat
    var msg: bytes
    var alive: bool
    var events: seq<Event>

    function St(): Conn
      reads this
    {
      Conn(buf, curOpcode, msg, alive, events)
    }

    constructor ()
      ensures St() == OPENED
    {
      buf, curOpcode, msg, alive, events := [], 0, [], true, [];
    }

    /** The extended length, two octets or eight, the most significant first. */
    static method LoadLength(s: bytes) returns (len: nat)
      ensures len == Load(s)
    {
      len := 0;
      for i := 0 to |s|
        invariant len == Load(s[..i])
      {
        assert s[..i + 1][..i] == s[..i];
        len := len * 256 + s[i];
      }
      assert s[..|s|] == s;
    }

    /** Unmasking in place, the key repeated over the payload. */
    static method UnmaskInPlace(key: bytes, payload: array<byte>)
      requires |key| == 4
      modifies payload
      ensures payload[..] == Unmask(key, old(payload[..]))
    {
      hide Xor, KeyAt;
      ghost var was := payload[..];
      for i := 0 to payload.Length
        invariant forall j :: 0 <= j < i ==> payload[j] == Unmask(key, was)[j]
        invariant forall j :: i <= j < payload.Length ==> payload[j] == was[j]
      {
        payload[i] := Xor(payload[i], KeyAt(key, i));
      }
    }

    /** The parsing half of the inner loop. */
    static method Parse(buf: bytes) returns (r: Parse)
      ensures r == ParseFrame(buf)
    {
      hide Load, Unmask;
      if |buf| < 2 {
        return NeedMore;
      }
      var fin, opcode, masked := buf[0] >= 128, buf[0] % 16, buf[1] >= 128;
      var len, hdr := buf[1] % 128, 2;
      if len == 126 {
        if |buf| < 4 {
          return NeedMore;
        }
        len := LoadLength(buf[2..4]);
        hdr := 4;
      } else if len == 127 {
        if |buf| < 10 {
          return NeedMore;
        }
        len := LoadLength(buf[2..10]);
        hdr := 10;
      }
      ghost var at := hdr;
      var key: bytes := [];
      if masked {
        if |buf| < hdr + 4 {
          return NeedMore;
        }
        key := buf[hdr..hdr + 4];
        hdr := hdr + 4;
      }
      if hdr + len >= TWO64 {
        return TooLong;
      }
      if |buf| < hdr + len {
        return NeedMore;
      }
      assert key == buf[at..hdr];
      var data := Payload(key, buf[hdr..hdr + len]);
      r := Whole(fin, opcode, data, hdr + len);
    }

    static method Payload(key: bytes, raw: bytes) returns (data: bytes)
      requires |key| == 0 || |key| == 4
      ensures data == Unmask(key, raw)
    {
      if key == [] {
        NoKey(raw);
        data := raw;
      } else {
        var a := new byte[|raw|](i requires 0 <= i < |raw| => raw[i]);
        assert a[..] == raw;
        UnmaskInPlace(key, a);
        data := a[..];
      }
    }

    /** The inner for (;;) after one recv. */
    method Receive(chunk: bytes)
      modifies this
      ensures St() == Feed(old(St()), chunk)
    {
      hide ParseFrame, Handle;
      if !alive {
        return;
      }
      buf := buf + chunk;
      while true
        invariant alive && Drain(St()) == Feed(old(St()), chunk)
        decreases |buf|
      {
        var p := Parse(buf);
        if p.NeedMore? {
          break;
        }
        if p.TooLong? {
          alive := false;
          return;
        }
        FrameUses(buf);
        buf := buf[p.used..];
        HandleOne(p.fin, p.opcode, p.payload);
        if !alive {
          return;
        }
      }
    }

    /** What the loop does with one frame. */
    method HandleOne(fin: bool, opcode: nat, payload: bytes)
      modifies this
      ensures St() == Handle(old(St()), fin, opcode, payload) && buf == old(buf)
    {
      hide PongFrame;
      if opcode == CLOSE {
        alive := false;
        return;
      }
      if opcode == PING {
        var pong := PongFrame(payload);
        events := events + [Pong(pong)];
        return;
      }
      if opcode == PONG {
        return;
      }
      if opcode == TEXT || opcode == BINARY {
        curOpcode := opcode;
        msg := payload;
      } else if opcode == CONTINUATION {
        msg := msg + payload;
      }
      if fin && msg != [] {
        if curOpcode == TEXT {
          events := events + [Message(msg)];
        }
        msg := [];
      }
    }
  }

  lemma NoKey(payload: bytes)
    ensures Unmask([], payload) == payload
  {
    hide Xor;
    forall i | 0 <= i < |payload|
      ensures Unmask([], payload)[i] == payload[i]
    {
      XorZero(payload[i]);
    }
  }
}
