/** The encoded frame, the 24-octet datagram header and the 64-bit big-endian helpers. */
module MediaTypes {
  import opened Octets
  import opened Bytes

  const TWO64 := 0x1_0000_0000_0000_0000

  datatype Frame = Frame(captureUs: int, frameId: int, keyframe: bool, data: bytes)

  // Payload types of the private header.
  const DATA: byte := 0
  const FEC: byte := 1
  const NACK: byte := 2
  const STATS_PONG: byte := 4
  const STATS_JSON: byte := 5

  const HEADER_SIZE := 24
  const FEC_SEQ: u16 := 0xFFFF

  datatype UdpHeader = UdpHeader(
    payloadType: byte,
    groupId: u32,
    fragmentSeq: u16,
    fragmentCnt: u16,
    frameId: u32,
    captureLo: u32,
    payloadLen: u16,
    flags: byte)
  {
    predicate Keyframe() {
      flags % 2 == 1
    }

    function SetKeyframe(on: bool): UdpHeader {
      this.(flags := flags / 2 * 2 + if on then 1 else 0)
    }
  }

  const BLANK := UdpHeader(0, 0, 0, 0, 0, 0, 0, 0)

  /** Octet i of a written header. */
  function HeaderOctet(h: UdpHeader, i: nat): byte
    requires i < HEADER_SIZE
  {
    match i
    case 0 => 0x52
    case 1 => 0x54
    case 2 => 1
    case 3 => h.payloadType
    case 4 => Octet3(h.groupId)
    case 5 => Octet2(h.groupId)
    case 6 => Octet1(h.groupId)
    case 7 => Low(h.groupId)
    case 8 => Octet1(h.fragmentSeq)
    case 9 => Low(h.fragmentSeq)
    case 10 => Octet1(h.fragmentCnt)
    case 11 => Low(h.fragmentCnt)
    case 12 => Octet3(h.frameId)
    case 13 => Octet2(h.frameId)
    case 14 => Octet1(h.frameId)
    case 15 => Low(h.frameId)
    case 16 => Octet3(h.captureLo)
    case 17 => Octet2(h.captureLo)
    case 18 => Octet1(h.captureLo)
    case 19 => Low(h.captureLo)
    case 20 => Octet1(h.payloadLen)
    case 21 => Low(h.payloadLen)
    case 22 => h.flags
    case _ => 0
  }

  function Encode(h: UdpHeader): (s: bytes)
    ensures |s| == HEADER_SIZE
  {
    seq(HEADER_SIZE, i requires 0 <= i < HEADER_SIZE => HeaderOctet(h, i))
  }

  function Field16(s: bytes, at: nat): u16
    requires at + 2 <= |s|
  {
    Number16(s[at], s[at + 1])
  }

  function Field32(s: bytes, at: nat): u32
    requires at + 4 <= |s|
  {
    Number32(s[at], s[at + 1], s[at + 2], s[at + 3])
  }

  predicate MagicOk(s: bytes)
    requires |s| >= 2
  {
    s[0] == 0x52 && s[1] == 0x54
  }

  function Decode(s: bytes): UdpHeader
    requires |s| >= HEADER_SIZE
  {
    UdpHeader(s[3], Field32(s, 4), Field16(s, 8), Field16(s, 10), Field32(s, 12),
              Field32(s, 16), Field16(s, 20), s[22])
  }

  /** Reading back a written header, whatever payload follows it. */
  lemma DecodeEncode(h: UdpHeader, payload: bytes)
    ensures Decode(Encode(h) + payload) == h
  {
    hide Low, Octet1, Octet2, Octet3, Number16, Number32;
    Number32Octets(h.groupId); Number32Octets(h.frameId); Number32Octets(h.captureLo);
    Number16Octets(h.fragmentSeq); Number16Octets(h.fragmentCnt); Number16Octets(h.payloadLen);
  }

  /** Such a datagram begins with the magic, and the payload is what follows the header. */
  lemma PayloadFollows(h: UdpHeader, payload: bytes)
    ensures MagicOk(Encode(h) + payload) && (Encode(h) + payload)[HEADER_SIZE..] == payload
  {
  }

  /** Setting the keyframe bit is what reading it returns, and it leaves the other seven bits alone. */
  lemma KeyframeBit(h: UdpHeader, on: bool)
    ensures h.SetKeyframe(on).Keyframe() == on
    ensures h.SetKeyframe(on).flags / 2 == h.flags / 2
  {
  }

  // ---- the in-place forms ----

  /** UdpHeader::write: overwrites the first 24 octets of a caller's buffer and nothing else. */
  method WriteHeader(h: UdpHeader, buf: array<byte>)
    requires buf.Length >= HEADER_SIZE
    modifies buf
    ensures buf[..HEADER_SIZE] == Encode(h)
    ensures buf[HEADER_SIZE..] == old(buf[HEADER_SIZE..])
  {
    hide HeaderOctet;
    WriteGroup(h, buf);
    WriteFrame(h, buf);
  }

  /** Octets 0 to 11: magic, version, type, group and fragment numbers. */
  method WriteGroup(h: UdpHeader, buf: array<byte>)
    requires buf.Length >= HEADER_SIZE
    modifies buf
    ensures forall i :: 0 <= i < 12 ==> buf[i] == HeaderOctet(h, i)
    ensures forall i :: 12 <= i < buf.Length ==> buf[i] == old(buf[i])
  {
    hide Low, Octet1, Octet2, Octet3;
    buf[0], buf[1], buf[2], buf[3] := 0x52, 0x54, 1, h.payloadType;
    Put32(buf, 4, h.groupId);
    Put16(buf, 8, h.fragmentSeq);
    Put16(buf, 10, h.fragmentCnt);
  }

  /** Octets 12 to 23: frame number, capture time, payload length and flags. */
  method WriteFrame(h: UdpHeader, buf: array<byte>)
    requires buf.Length >= HEADER_SIZE
    modifies buf
    ensures forall i :: 12 <= i < HEADER_SIZE ==> buf[i] == HeaderOctet(h, i)
    ensures forall i :: 0 <= i < buf.Length && !(12 <= i < HEADER_SIZE) ==> buf[i] == old(buf[i])
  {
    hide Low, Octet1, Octet2, Octet3;
    Put32(buf, 12, h.frameId);
    Put32(buf, 16, h.captureLo);
    Put16(buf, 20, h.payloadLen);
    buf[22], buf[23] := h.flags, 0;
  }

  /** htons and memcpy. */
  method Put16(buf: array<byte>, at: nat, v: u16)
    requires at + 2 <= buf.Length
    modifies buf
    ensures buf[at] == Octet1(v) && buf[at + 1] == Low(v)
    ensures forall i :: 0 <= i < buf.Length && !(at <= i < at + 2) ==> buf[i] == old(buf[i])
  {
    buf[at], buf[at + 1] := Octet1(v), Low(v);
  }

  /** htonl and memcpy. */
  method Put32(buf: array<byte>, at: nat, v: u32)
    requires at + 4 <= buf.Length
    modifies buf
    ensures buf[at] == Octet3(v) && buf[at + 1] == Octet2(v) && buf[at + 2] == Octet1(v) && buf[at + 3] == Low(v)
    ensures forall i :: 0 <= i < buf.Length && !(at <= i < at + 4) ==> buf[i] == old(buf[i])
  {
    buf[at], buf[at + 1], buf[at + 2], buf[at + 3] := Octet3(v), Octet2(v), Octet1(v), Low(v);
  }

  /** UdpHeader::read: the fields, each from its own place. */
  method ReadHeader(buf: seq<byte>) returns (h: UdpHeader)
    requires |buf| >= HEADER_SIZE
    ensures h == Decode(buf)
  {
    h := BLANK;
    h := h.(payloadType := buf[3]);
    h := h.(groupId := Field32(buf, 4));
    h := h.(fragmentSeq := Field16(buf, 8), fragmentCnt := Field16(buf, 10));
    h := h.(frameId := Field32(buf, 12), captureLo := Field32(buf, 16));
    h := h.(payloadLen := Field16(buf, 20));
    h := h.(flags := buf[22]);
  }

  /** store_be64: the last octet first. */
  method StoreBe64(buf: array<byte>, at: nat, v: nat)
    requires at + 8 <= buf.Length
    modifies buf
    ensures buf[..at] == old(buf[..at]) && buf[at..at + 8] == Store(v, 8)
    ensures buf[at + 8..] == old(buf[at + 8..])
  {
    var w, i := v, 8;
    ghost var before := buf[..];
    assert Store(w, i) + [] == Store(v, 8);
    while i > 0
      invariant 0 <= i <= 8
      invariant buf[..at + i] == before[..at + i]
      invariant Store(w, i) + buf[at + i..at + 8] == Store(v, 8)
      invariant buf[at + 8..] == before[at + 8..]
    {
      ghost var rest := buf[at + i..at + 8];
      i := i - 1;
      buf[at + i] := Low(w);
      assert buf[at + i..at + 8] == [Low(w)] + rest;
      assert Store(w, i + 1) + rest == Store(w / 256, i) + ([Low(w)] + rest);
      w := w / 256;
    }
  }

  /** load_be64: shift in one octet after the other. */
  method LoadBe64(buf: seq<byte>, at: nat) returns (v: nat)
    requires at + 8 <= |buf|
    ensures v == Load(buf[at..at + 8]) < TWO64
  {
    v := 0;
    for i := 0 to 8
      invariant v == Load(buf[at..at + i])
    {
      assert buf[at..at + i + 1][..i] == buf[at..at + i];
      v := v * 256 + buf[at + i];
    }
    LoadBound(buf[at..at + 8]); Pow256Values();
  }
}
