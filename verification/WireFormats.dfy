/** What every message looks like octet by octet, with the numbers the formats fix. */
module WireFormats {
  import opened Octets
  import opened Bytes
  import opened Options
  import opened MediaTypes
  import opened Fec
  import opened NackManagers
  import opened UdpServers
  import opened UdpReceivers
  import opened RtpServers
  import opened RtpReceivers
  import TcpWire
  import WsServers

  lemma LoadTwo(s: bytes)
    requires |s| == 2
    ensures Load(s) == Number16(s[0], s[1])
  {
    assert s[..1] == [s[0]] && s[..1][..0] == [];
    assert Load(s[..1]) == s[0];
  }

  lemma LoadFour(s: bytes)
    requires |s| == 4
    ensures Load(s) == Number32(s[0], s[1], s[2], s[3])
  {
    assert s[..3][..2] == s[..2];
    LoadTwo(s[..2]);
  }

  lemma OctetAt(h: UdpHeader, payload: bytes, i: nat)
    requires i < 24
    ensures (Encode(h) + payload)[i] == HeaderOctet(h, i)
  {
    hide HeaderOctet;
  }

  /** The private datagram header: "RT", version 1, then the fields in network byte order, each at its place. */
  lemma HeaderLayout(h: UdpHeader, payload: bytes)
    ensures var d := Encode(h) + payload;
            && |d| == 24 + |payload| && d[..4] == [0x52, 0x54, 1, h.payloadType]
            && Load(d[4..8]) == h.groupId && Load(d[8..10]) == h.fragmentSeq && Load(d[10..12]) == h.fragmentCnt
            && Load(d[12..16]) == h.frameId && Load(d[16..20]) == h.captureLo && Load(d[20..22]) == h.payloadLen
            && d[22] == h.flags && d[23] == 0 && d[24..] == payload
  {
    hide Low, Octet1, Octet2, Octet3, Number16, Number32, Load;
    var d := Encode(h) + payload;
    LoadFour(d[4..8]); LoadTwo(d[8..10]); LoadTwo(d[10..12]);
    LoadFour(d[12..16]); LoadFour(d[16..20]); LoadTwo(d[20..22]);
    OctetAt(h, payload, 12); OctetAt(h, payload, 13); OctetAt(h, payload, 14); OctetAt(h, payload, 15);
    OctetAt(h, payload, 16); OctetAt(h, payload, 17); OctetAt(h, payload, 18); OctetAt(h, payload, 19);
    OctetAt(h, payload, 20); OctetAt(h, payload, 21);
    Number32Octets(h.groupId); Number32Octets(h.frameId); Number32Octets(h.captureLo);
    Number16Octets(h.fragmentSeq); Number16Octets(h.fragmentCnt); Number16Octets(h.payloadLen);
    assert d[..4] == [0x52, 0x54, 1, h.payloadType];
  }

  /** A frame's datagrams: type 0 with the fragment's number, and type 1 with number 65535 for the parity. */
  lemma DatagramLayout(f: Frame, size: nat, i: nat)
    requires size > 0 && i <= |Fragments(f, size)|
    ensures var fs, d := Fragments(f, size), Datagram(f, size, i);
            var block := if i < |fs| then fs[i] else Parity(fs);
            && d[..4] == [0x52, 0x54, 1, if i < |fs| then 0 else 1]
            && Load(d[4..8]) == f.frameId % 0x1_0000_0000 == Load(d[12..16])
            && Load(d[8..10]) == (if i < |fs| then i % 0x1_0000 else 0xFFFF) && Load(d[10..12]) == (|fs| + 1) % 0x1_0000
            && Load(d[16..20]) == f.captureUs % 0x1_0000_0000 && Load(d[20..22]) == |block| % 0x1_0000
            && d[22] == (if f.keyframe then 1 else 0) && d[24..] == block
  {
    hide Encode, Load, Fragments, Parity;
    var fs := Fragments(f, size);
    if i < |fs| {
      HeaderLayout(FrameHeader(f, DATA, i % 0x1_0000, |fs|, |fs[i]|), fs[i]);
    } else {
      HeaderLayout(FrameHeader(f, FEC, FEC_SEQ, |fs|, |Parity(fs)|), Parity(fs));
    }
  }

  /** A request packet: type 2, and a 6-octet record for each fragment asked for. */
  lemma RequestLayout(rs: seq<Request>, k: nat)
    requires k < |rs|
    ensures var d := NackPacket(rs);
            && d[..4] == [0x52, 0x54, 1, 2] && |d| == 24 + 6 * |rs| && Load(d[20..22]) == 6 * |rs| % 0x1_0000
            && Load(d[24 + 6 * k..28 + 6 * k]) == rs[k].groupId
            && Load(d[28 + 6 * k..30 + 6 * k]) == rs[k].fragmentSeq
  {
    hide Encode, Load, Number16, Number32, EncodeRequests;
    var d, body := NackPacket(rs), EncodeRequests(rs);
    HeaderLayout(BLANK.(payloadType := NACK, payloadLen := RECORD * |rs| % 0x1_0000), body);
    RequestsRoundTrip(rs);
    assert DecodeRequest(body, RECORD * k) == Requests(body)[k];
    assert d[24..] == body;
    LoadFour(d[24 + 6 * k..28 + 6 * k]);
    LoadTwo(d[28 + 6 * k..30 + 6 * k]);
    assert d[24 + 6 * k..30 + 6 * k] == body[6 * k..6 * k + 6];
  }

  /** An RTP frame's parity: type 1, number 65535, and the capture time in milliseconds. */
  lemma RtpParityLayout(f: Frame, ps: seq<bytes>)
    ensures var d := ParityPacket(f, ps);
            && d[..4] == [0x52, 0x54, 1, 1]
            && Load(d[4..8]) == f.frameId % 0x1_0000_0000 == Load(d[12..16])
            && Load(d[8..10]) == 0xFFFF && Load(d[10..12]) == |ps| % 0x1_0000
            && (f.captureUs >= 0 ==> Load(d[16..20]) == f.captureUs / 1000 % 0x1_0000_0000)
            && Load(d[20..22]) == |Parity(ps)| % 0x1_0000
            && d[22] == (if f.keyframe then 1 else 0) && d[24..] == Parity(ps)
  {
    hide Encode, Load, Parity;
    HeaderLayout(UdpHeader(FEC, f.frameId % TWO32, FEC_SEQ, |ps| % 0x1_0000, f.frameId % TWO32,
                           InMillis(f.captureUs) % TWO32, |Parity(ps)| % 0x1_0000, 0).SetKeyframe(f.keyframe),
                 Parity(ps));
  }

  /** Which datagrams the UDP receiver takes for media: whole headers with the magic, but types 4 and 5. */
  lemma Dispatch(d: bytes)
    ensures IsMedia(d) <==> |d| >= 24 && d[0] == 0x52 && d[1] == 0x54 && d[3] != 4 && d[3] != 5
    ensures IsPong(d) <==> |d| >= 32 && d[0] == 0x52 && d[1] == 0x54 && d[3] == 4
  {
  }

  /** The RTP receiver keeps of a parity datagram what its length field announces, if that is less than what came. */
  lemma AnnouncedPayload(h: UdpHeader, payload: bytes)
    ensures var d := Encode(h) + payload;
            Announced(d) == if 0 < h.payloadLen < |payload| then payload[..h.payloadLen] else payload
  {
    hide Encode, Decode;
    DecodeEncode(h, payload);
    PayloadFollows(h, payload);
    var d := Encode(h) + payload;
    if 0 < h.payloadLen < |payload| {
      assert d[24..24 + h.payloadLen] == d[24..][..h.payloadLen];
    }
  }

  /** A TCP message: its length, "RTV1", flags 1 for a keyframe and 2 for metrics, the fields, the data. */
  lemma TcpLayout(m: TcpWire.Msg)
    ensures var d := TcpWire.Printed(m);
            var data := match m case Video(f) => f.data case Stats(json, _) => json;
            && |d| == 24 + |data| && d[4..8] == [0x52, 0x54, 0x56, 0x31] && d[9..12] == [0, 0, 0] && d[24..] == data
            && Load(d[..4]) == (20 + |data|) % 0x1_0000_0000
            && d[8] == (match m case Video(f) => if f.keyframe then 1 else 0 case Stats(_, _) => 2)
            && Load(d[12..16]) == (match m case Video(f) => f.frameId % 0x1_0000_0000 case Stats(_, _) => 0)
            && Load(d[16..24]) == (match m case Video(f) => f.captureUs case Stats(_, nowUs) => nowUs)
                                  % 0x1_0000_0000_0000_0000
  {
    hide Load, Store, TcpWire.Header;
    match m {
      case Video(f) => TcpParts(if f.keyframe then 1 else 0, f.frameId % TWO32, f.captureUs, f.data);
      case Stats(json, nowUs) => TcpParts(2, 0, nowUs, json);
    }
  }

  lemma TcpParts(flags: byte, frameId: u32, at: int, data: bytes)
    ensures var p := TcpWire.Header(flags, frameId, at) + data;
            var d := Store(|p| % TWO32, 4) + p;
            && |p| == 20 + |data| && Load(d[..4]) == |p| % TWO32 && d[4..8] == [0x52, 0x54, 0x56, 0x31]
            && d[8] == flags && d[9..12] == [0, 0, 0] && Load(d[12..16]) == frameId
            && Load(d[16..24]) == at % TWO64 && d[24..] == data
  {
    hide Load, Store;
    var p := TcpWire.Header(flags, frameId, at) + data;
    var d := Store(|p| % TWO32, 4) + p;
    Pow256Values();
    LoadStore(|p| % TWO32, 4);
    LoadStore(frameId, 4);
    LoadStore(TcpWire.Unsigned64(at), 8);
    assert d[..4] == Store(|p| % TWO32, 4);
    assert d[12..16] == Store(frameId, 4);
    assert d[16..24] == Store(TcpWire.Unsigned64(at), 8);
  }

  /** A WebSocket frame from the server: FIN and opcode, then the length in one, three or nine octets, then the data. */
  lemma BroadcastLayout(opcode: nat, data: bytes)
    requires opcode < 16 && |data| < TWO64
    ensures var d, n := WsServers.Broadcast(opcode, data), |data|;
            && d[0] == 128 + opcode
            && if n <= 125 then d[1] == n && d[2..] == data
               else if n <= 65535 then d[1] == 126 && Load(d[2..4]) == n && d[4..] == data
               else d[1] == 127 && Load(d[2..10]) == n && d[10..] == data
  {
    hide Load, Store;
    var d, n := WsServers.Broadcast(opcode, data), |data|;
    Pow256Values();
    if 126 <= n <= 65535 {
      LoadStore(n, 2);
      assert d[2..4] == Store(n, 2);
    } else if n > 65535 {
      LoadStore(n, 8);
      assert d[2..10] == Store(n, 8);
    }
  }

  const HELLO: bytes := [0x48, 0x65, 0x6C, 0x6C, 0x6F]

  /** Sample frames of section 5.7 of RFC 6455: "Hello" whole and in two fragments. */
  lemma SampleFrames()
    ensures WsServers.ParseFrame([0x81, 5] + HELLO) == WsServers.Whole(true, 1, HELLO, 7)
    ensures WsServers.ParseFrame([0x01, 3] + HELLO[..3]) == WsServers.Whole(false, 1, HELLO[..3], 5)
    ensures WsServers.ParseFrame([0x80, 2] + HELLO[3..]) == WsServers.Whole(true, 0, HELLO[3..], 4)
  {
    hide Load, WsServers.Unmask;
    WsServers.NoKey(HELLO);
    WsServers.NoKey(HELLO[..3]);
    WsServers.NoKey(HELLO[3..]);
    var hello, hel, lo := [0x81, 5] + HELLO, [0x01, 3] + HELLO[..3], [0x80, 2] + HELLO[3..];
    assert hello[2..2] == [] && hello[2..7] == HELLO;
    assert hel[2..2] == [] && hel[2..5] == HELLO[..3] && lo[2..2] == [] && lo[2..4] == HELLO[3..];
  }
}
