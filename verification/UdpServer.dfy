/** The UDP sender: a frame becomes K data fragments and one parity fragment. */
module UdpServers {
  import opened Octets
  import opened Bytes
  import opened MediaTypes
  import opened Fec
  import opened NackManagers

  /** Cutting a frame into pieces of `size` octets; the last piece takes what is left. */
  function Chop(data: bytes, size: nat): (fs: seq<bytes>)
    requires size > 0
    ensures |fs| > 0
    decreases |data|
  {
    if |data| <= size then [data] else [data[..size]] + Chop(data[size..], size)
  }

  lemma {:induction false} ChopJoins(data: bytes, size: nat)
    requires size > 0
    ensures Concat(Chop(data, size)) == data
    decreases |data|
  {
    if |data| > size {
      ChopJoins(data[size..], size);
      assert Chop(data, size)[1..] == Chop(data[size..], size);
    }
  }

  /** Every piece but the last is full, and the last is empty only when the frame is. */
  lemma {:induction false} ChopSizes(data: bytes, size: nat, i: nat)
    requires size > 0 && i < |Chop(data, size)|
    ensures var fs := Chop(data, size);
            && |fs[i]| <= size
            && (i < |fs| - 1 ==> |fs[i]| == size)
            && (fs[i] == [] <==> data == [])
    decreases |data|
  {
    if |data| > size && i > 0 {
      ChopSizes(data[size..], size, i - 1);
    }
  }

  /** Piece i starts i full pieces into the frame. */
  lemma {:induction false} ChopAt(data: bytes, size: nat, i: nat)
    requires size > 0 && i < |Chop(data, size)|
    ensures i * size <= |data|
    ensures Chop(data, size)[i] ==
            data[i * size..i * size + (if size < |data| - i * size then size else |data| - i * size)]
    decreases |data|
  {
    if |data| > size && i > 0 {
      var rest := data[size..];
      ChopAt(rest, size, i - 1);
      assert i * size == size + (i - 1) * size;
      assert rest[(i - 1) * size..] == data[i * size..];
    }
  }

  /** The number of pieces is the rounded-up quotient, and one for an empty frame. */
  lemma {:induction false} ChopCount(data: bytes, size: nat)
    requires size > 0
    ensures |Chop(data, size)| == if data == [] then 1 else (|data| + size - 1) / size
    decreases |data|
  {
    hide Chop;
    if |data| > size {
      assert |Chop(data, size)| == 1 + |Chop(data[size..], size)| by { ChopMore(data, size); }
      ChopCount(data[size..], size);
      DivStep(|data| + size - 1, size);
    } else {
      ChopOnce(data, size);
      if data != [] {
        DivUnique(|data| + size - 1, size, 1, |data| - 1);
      }
    }
  }

  lemma ChopOnce(data: bytes, size: nat)
    requires 0 < size && |data| <= size
    ensures Chop(data, size) == [data]
  {
  }

  lemma ChopMore(data: bytes, size: nat)
    requires 0 < size < |data|
    ensures Chop(data, size) == [data[..size]] + Chop(data[size..], size)
  {
  }

  lemma DivStep(x: nat, d: nat)
    requires d > 0 && x >= d
    ensures x / d == (x - d) / d + 1
  {
    var q, r := (x - d) / d, (x - d) % d;
    assert x - d == q * d + r;
    assert x == (q + 1) * d + r;
    DivUnique(x, d, q + 1, r);
  }

  lemma DivUnique(x: nat, d: nat, q: nat, r: nat)
    requires d > 0 && x == q * d + r && r < d
    ensures x / d == q
  {
    var p, s := x / d, x % d;
    assert x == p * d + s && s < d;
    assert (q - p) * d == s - r;
    if q > p {
      MulGrows(q - p, d);
    } else if p > q {
      assert (p - q) * d == r - s;
      MulGrows(p - q, d);
    }
  }

  lemma MulGrows(k: nat, d: nat)
    requires k >= 1
    ensures k * d >= d
  {
  }

  /** The bytes all sizes of pieces add up to: no piece is longer than the parity, the first is as long. */
  lemma ChopMaxLen(data: bytes, size: nat)
    requires size > 0
    ensures MaxLen(Chop(data, size)) == if |data| <= size then |data| else size
  {
    var fs := Chop(data, size);
    assert fs[0] in fs;
    forall d | d in fs
      ensures |d| <= if |data| <= size then |data| else size
    {
      var i :| 0 <= i < |fs| && fs[i] == d;
      ChopSizes(data, size, i);
    }
  }

  // ---- datagrams ----

  function FrameHeader(f: Frame, payloadType: byte, seqNo: u16, cnt: nat, len: nat): UdpHeader {
    UdpHeader(payloadType, f.frameId % TWO32, seqNo, (cnt + 1) % 0x1_0000, f.frameId % TWO32,
              f.captureUs % TWO32, len % 0x1_0000, 0).SetKeyframe(f.keyframe)
  }

  function Fragments(f: Frame, size: nat): seq<bytes>
    requires size > 0
  {
    Chop(f.data, size)
  }

  /** Fragment i on the wire; i = K is the parity fragment. */
  function Datagram(f: Frame, size: nat, i: nat): bytes
    requires size > 0 && i <= |Fragments(f, size)|
  {
    var fs := Fragments(f, size);
    if i < |fs| then Encode(FrameHeader(f, DATA, i % 0x1_0000, |fs|, |fs[i]|)) + fs[i]
    else Encode(FrameHeader(f, FEC, FEC_SEQ, |fs|, |Parity(fs)|)) + Parity(fs)
  }

  function Datagrams(f: Frame, size: nat): (ds: seq<bytes>)
    requires size > 0
    ensures |ds| == |Fragments(f, size)| + 1
  {
    seq(|Fragments(f, size)| + 1, i requires 0 <= i <= |Fragments(f, size)| => Datagram(f, size, i))
  }

  /** What the resend cache records for datagram i. */
  function Remembered(f: Frame, size: nat, i: nat): Sent
    requires size > 0 && i <= |Fragments(f, size)|
  {
    Sent(f.frameId % TWO32, if i < |Fragments(f, size)| then i % 0x1_0000 else FEC_SEQ, Datagram(f, size, i))
  }

  function RememberedAll(f: Frame, size: nat): (h: seq<Sent>)
    requires size > 0
    ensures |h| == |Fragments(f, size)| + 1
  {
    seq(|Fragments(f, size)| + 1, i requires 0 <= i <= |Fragments(f, size)| => Remembered(f, size, i))
  }

  lemma OneMoreDatagram(f: Frame, size: nat, i: nat)
    requires size > 0 && i <= |Fragments(f, size)|
    ensures Datagrams(f, size)[..i + 1] == Datagrams(f, size)[..i] + [Datagram(f, size, i)]
    ensures RememberedAll(f, size)[..i + 1] == RememberedAll(f, size)[..i] + [Remembered(f, size, i)]
  {
    hide Datagram, Remembered, Fragments;
  }

  // ---- the code ----

  class UdpServer {
    const mtu: nat
    const nack: NackManager
    var injected: seq<bytes>   // everything handed to the link simulator, in order

    constructor (mtu: nat, nackCache: nat)
      ensures this.mtu == mtu && injected == [] && fresh(nack)
      ensures nack.Valid() && nack.history == [] && nack.cache == nackCache
    {
      this.mtu := mtu;
      nack := new NackManager(nackCache);
      injected := [];
    }

    method CutFrame(data: bytes, size: nat) returns (fragments: seq<bytes>)
      requires size > 0
      ensures fragments == Chop(data, size)
    {
      var cnt := (|data| + size - 1) / size;
      if cnt == 0 {
        cnt := 1;
      }
      ChopCount(data, size);
      QuotientZero(|data|, size);
      fragments := [];
      for i := 0 to cnt
        invariant fragments == Chop(data, size)[..i]
      {
        ChopAt(data, size, i);
        assert Chop(data, size)[..i + 1] == Chop(data, size)[..i] + [Chop(data, size)[i]];
        var off := i * size;
        var len := if size < |data| - off then size else |data| - off;
        fragments := fragments + [data[off..off + len]];
      }
    }

    method Emit(f: Frame, seqNo: u16, cnt: nat, payload: bytes, isFec: bool)
      requires nack.Valid()
      modifies this, nack
      ensures nack.Valid()
      ensures var h := FrameHeader(f, if isFec then FEC else DATA, if isFec then FEC_SEQ else seqNo, cnt, |payload|);
              && injected == old(injected) + [Encode(h) + payload]
              && nack.history ==
                 old(nack.history) + [Sent(f.frameId % TWO32, if isFec then FEC_SEQ else seqNo, Encode(h) + payload)]
    {
      var pkt := new byte[HEADER_SIZE + |payload|](_ => 0);
      var h := BLANK.(payloadType := DATA, groupId := f.frameId % TWO32,
                      fragmentSeq := if isFec then FEC_SEQ else seqNo, fragmentCnt := (cnt + 1) % 0x1_0000,
                      frameId := f.frameId % TWO32, captureLo := f.captureUs % TWO32,
                      payloadLen := |payload| % 0x1_0000).SetKeyframe(f.keyframe);
      WriteHeader(h, pkt);
      forall i | 0 <= i < |payload| {
        pkt[HEADER_SIZE + i] := payload[i];
      }
      assert pkt[HEADER_SIZE..] == payload;
      assert pkt[..HEADER_SIZE] == Encode(h);
      if isFec {
        h := h.(payloadType := FEC);
        WriteHeader(h, pkt);
      }
      assert h == FrameHeader(f, if isFec then FEC else DATA, if isFec then FEC_SEQ else seqNo, cnt, |payload|);
      assert pkt[..HEADER_SIZE] == Encode(h) && pkt[HEADER_SIZE..] == payload;
      var raw := pkt[..];
      assert raw == pkt[..HEADER_SIZE] + pkt[HEADER_SIZE..];
      nack.Remember(h.groupId, h.fragmentSeq, raw);
      injected := injected + [raw];
    }

    method SendFrame(f: Frame)
      requires mtu > HEADER_SIZE
      requires nack.Valid()
      modifies this, nack
      ensures nack.Valid()
      ensures injected == old(injected) + Datagrams(f, mtu - HEADER_SIZE)
      ensures nack.history == old(nack.history) + RememberedAll(f, mtu - HEADER_SIZE)
    {
      hide Chop, Parity, FrameHeader, Encode, Datagrams, RememberedAll;
      var size := mtu - HEADER_SIZE;
      var fragments := CutFrame(f.data, size);
      var parity := FecGenerate(fragments);
      var cnt := |fragments|;
      ghost var ds, hs := Datagrams(f, size), RememberedAll(f, size);
      for i := 0 to cnt
        invariant nack.Valid()
        invariant injected == old(injected) + ds[..i]
        invariant nack.history == old(nack.history) + hs[..i]
      {
        Emit(f, i % 0x1_0000, cnt, fragments[i], false);
        OneMoreDatagram(f, size, i);
      }
      Emit(f, FEC_SEQ, cnt, parity, true);
      OneMoreDatagram(f, size, cnt);
      assert ds[..cnt + 1] == ds && hs[..cnt + 1] == hs;
    }
  }

  lemma QuotientZero(n: nat, size: nat)
    requires size > 0
    ensures (n + size - 1) / size == 0 <==> n == 0
  {
    if n == 0 {
      DivUnique(size - 1, size, 0, size - 1);
    } else {
      DivStep(n + size - 1, size);
    }
  }
}
