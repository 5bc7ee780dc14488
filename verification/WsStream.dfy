/**
 * The receive loop over a whole TCP stream: it does not matter how the stream is cut into chunks, the
 * frames written by broadcast or by a client are read back, and a fragmented message reaches the
 * callback once. Opcodes are the numbers of section 5.2 of RFC 6455: 0 continuation, 1 text, 2 binary, 9 ping, 10 pong.
 */
module WsStream {
  import opened Octets
  import opened Bytes
  import opened MediaTypes
  import opened WsServers

  // ---- chunks ----

  /** More octets never change a frame that is already whole. */
  lemma ParseExtends(b: bytes, more: bytes)
    requires !ParseFrame(b).NeedMore?
    ensures ParseFrame(b + more) == ParseFrame(b)
  {
    hide Load, Unmask;
    var len7 := b[1] % 128;
    var at := 2 + Extension(len7);
    var len := if at == 2 then len7 else Load(b[2..at]);
    var hdr := at + if b[1] >= 128 then 4 else 0;
    assert (b + more)[2..at] == b[2..at];
    if hdr + len < TWO64 {
      assert (b + more)[at..hdr] == b[at..hdr];
      assert (b + more)[hdr..hdr + len] == b[hdr..hdr + len];
    }
  }

  /** Equal in all that can still be observed: a closed connection's leftover octets do not count. */
  ghost predicate Alike(c: Conn, d: Conn) {
    c.(buf := []) == d.(buf := []) && (c.alive ==> c.buf == d.buf)
  }

  /** Between two recvs no whole frame is left in the buffer. */
  ghost predicate Settled(c: Conn) {
    c.alive ==> ParseFrame(c.buf).NeedMore?
  }

  lemma HandleIgnoresBuffer(c: Conn, b: bytes, fin: bool, opcode: nat, payload: bytes)
    ensures Handle(c.(buf := b), fin, opcode, payload) == Handle(c, fin, opcode, payload).(buf := b)
    ensures Handle(c, fin, opcode, payload).buf == c.buf
  {
    hide PongFrame;
  }

  lemma {:induction false} DrainSettles(c: Conn)
    ensures Settled(Drain(c))
    decreases |c.buf|
  {
    hide ParseFrame, Handle;
    var p := ParseFrame(c.buf);
    if p.Whole? {
      FrameUses(c.buf);
      HandleIgnoresBuffer(c, c.buf[p.used..], p.fin, p.opcode, p.payload);
      DrainSettles(Handle(c.(buf := c.buf[p.used..]), p.fin, p.opcode, p.payload));
    }
  }

  lemma {:induction false} DrainSplit(c: Conn, more: bytes)
    requires c.alive
    ensures Alike(Feed(Drain(c), more), Drain(c.(buf := c.buf + more)))
    decreases |c.buf|
  {
    hide ParseFrame, Handle;
    var p := ParseFrame(c.buf);
    if !p.NeedMore? {
      ParseExtends(c.buf, more);
    }
    if p.Whole? {
      FrameUses(c.buf);
      FrameUses(c.buf + more);
      var rest := c.buf[p.used..];
      assert (c.buf + more)[p.used..] == rest + more;
      HandleIgnoresBuffer(c, rest, p.fin, p.opcode, p.payload);
      HandleIgnoresBuffer(c, rest + more, p.fin, p.opcode, p.payload);
      var d := Handle(c.(buf := rest), p.fin, p.opcode, p.payload);
      if d.alive {
        DrainSplit(d, more);
      }
    }
  }

  /** Two recvs do what one of the same octets does. */
  lemma FeedSplit(c: Conn, a: bytes, b: bytes)
    ensures Alike(Feed(Feed(c, a), b), Feed(c, a + b))
  {
    hide Drain;
    if c.alive {
      DrainSplit(c.(buf := c.buf + a), b);
      assert c.buf + a + b == c.buf + (a + b);
    }
  }

  ghost function FeedAll(c: Conn, chunks: seq<bytes>): Conn
    decreases |chunks|
  {
    if chunks == [] then c else FeedAll(Feed(c, chunks[0]), chunks[1..])
  }

  /**
   * Chunk independence: from any state between two recvs, however the octets that follow are cut, the
   * callbacks and pongs are those of the uncut stream in the same order, and until a close frame the
   * parser ends in the same state.
   */
  lemma {:induction false} ChunkIndependence(c: Conn, chunks: seq<bytes>)
    requires Settled(c)
    ensures Alike(FeedAll(c, chunks), Feed(c, Concat(chunks)))
    ensures Settled(FeedAll(c, chunks))
    decreases |chunks|
  {
    hide Drain, ParseFrame;
    if chunks == [] {
      assert c.buf + [] == c.buf;
      if c.alive {
        DrainSettled(c);
      }
    } else {
      var d := Feed(c, chunks[0]);
      FeedSettles(c, chunks[0]);
      ChunkIndependence(d, chunks[1..]);
      FeedSplit(c, chunks[0], Concat(chunks[1..]));
    }
  }

  lemma FeedSettles(c: Conn, chunk: bytes)
    requires Settled(c)
    ensures Settled(Feed(c, chunk))
  {
    if c.alive {
      DrainSettles(c.(buf := c.buf + chunk));
    }
  }

  lemma DrainSettled(c: Conn)
    requires Settled(c) && c.alive
    ensures Drain(c) == c
  {
  }

  // ---- frames ----

  /** A frame as either end may write it; a client masks, the server does not. */
  datatype WireFrame = WireFrame(fin: bool, opcode: nat, key: bytes, payload: bytes)

  ghost predicate Proper(f: WireFrame) {
    f.opcode < 16 && (|f.key| == 0 || |f.key| == 4) && |f.payload| + 14 < TWO64
  }

  ghost function Wire(f: WireFrame): bytes
    requires Proper(f)
  {
    [f.opcode + if f.fin then 128 else 0] + LengthField(|f.payload|, if f.key == [] then 0 else 128)
    + f.key + Unmask(f.key, f.payload)
  }

  lemma {:induction false} UnmaskTwice(key: bytes, payload: bytes)
    requires |key| == 0 || |key| == 4
    ensures Unmask(key, Unmask(key, payload)) == payload
  {
    hide Xor, KeyAt;
    forall i | 0 <= i < |payload|
      ensures Unmask(key, Unmask(key, payload))[i] == payload[i]
    {
      XorAssociates(payload[i], KeyAt(key, i), KeyAt(key, i));
      XorSelf(KeyAt(key, i));
      XorZero(payload[i]);
    }
  }

  /** Reading the length field back. */
  lemma LengthRead(n: nat, maskBit: nat, first: byte, rest: bytes)
    requires n < TWO64 && (maskBit == 0 || maskBit == 128)
    ensures var s, l := LengthField(n, maskBit), LengthField(n, maskBit)[0];
            var at := 2 + Extension(l % 128);
            && |s| + 1 == at && (l >= 128 <==> maskBit == 128)
            && n == if at == 2 then l % 128 else Load(([first] + s + rest)[2..at])
  {
    hide Store, Load;
    Pow256Values();
    var s := LengthField(n, maskBit);
    if n < 126 {
    } else if n <= 0xFFFF {
      LoadStore(n, 2);
      assert ([first] + s + rest)[2..4] == Store(n, 2);
    } else {
      LoadStore(n, 8);
      assert ([first] + s + rest)[2..10] == Store(n, 8);
    }
  }

  /** A buffer laid out like this parses like this. */
  lemma ParseLaidOut(buf: bytes, at: nat, key: bytes, body: bytes)
    requires |key| == 0 || |key| == 4
    requires at >= 2 && at + |key| + |body| <= |buf| && at + |key| + |body| < TWO64
    requires at == 2 + Extension(buf[1] % 128) && (buf[1] >= 128 <==> key != [])
    requires |body| == if at == 2 then buf[1] % 128 else Load(buf[2..at])
    requires buf[at..at + |key|] == key && buf[at + |key|..at + |key| + |body|] == body
    ensures ParseFrame(buf) == Whole(buf[0] >= 128, buf[0] % 16, Unmask(key, body), at + |key| + |body|)
  {
    hide Load, Unmask, Extension;
  }

  lemma Slices(first: byte, s: bytes, key: bytes, body: bytes, rest: bytes)
    ensures var buf, at := [first] + s + key + body + rest, 1 + |s|;
            && buf == [first] + s + (key + body + rest)
            && buf[at..at + |key|] == key && buf[at + |key|..at + |key| + |body|] == body
  {
  }

  /** What is written is read back, whatever follows it. */
  lemma ParseWire(f: WireFrame, rest: bytes)
    requires Proper(f)
    ensures ParseFrame(Wire(f) + rest) == Whole(f.fin, f.opcode, f.payload, |Wire(f)|)
  {
    hide LengthField, Load, Unmask, ParseFrame, Extension;
    var maskBit := if f.key == [] then 0 else 128;
    var first := f.opcode + if f.fin then 128 else 0;
    var s, body := LengthField(|f.payload|, maskBit), Unmask(f.key, f.payload);
    LengthRead(|f.payload|, maskBit, first, f.key + body + rest);
    Slices(first, s, f.key, body, rest);
    ParseLaidOut(Wire(f) + rest, 1 + |s|, f.key, body);
    UnmaskTwice(f.key, f.payload);
  }

  /** The server's frames are such frames: final and unmasked. */
  lemma BroadcastIsWire(opcode: nat, data: bytes)
    requires opcode < 16 && |data| + 14 < TWO64
    ensures Broadcast(opcode, data) == Wire(WireFrame(true, opcode, [], data))
  {
    NoKey(data);
    hide LengthField, Unmask;
    assert [128 + opcode] + LengthField(|data|, 0) + [] + data == Broadcast(opcode, data);
  }

  /** Parsing a broadcast gives back (FIN, opcode, data) for every length. */
  lemma BroadcastRoundTrip(opcode: nat, data: bytes, rest: bytes)
    requires opcode < 16 && |data| + 14 < TWO64
    ensures ParseFrame(Broadcast(opcode, data) + rest) == Whole(true, opcode, data, |Broadcast(opcode, data)|)
  {
    BroadcastIsWire(opcode, data);
    ParseWire(WireFrame(true, opcode, [], data), rest);
  }

  /** No frame that parses to the same payload has a shorter head (section 5.2 wants the minimal form). */
  lemma BroadcastIsShortest(b: bytes, opcode: nat)
    requires ParseFrame(b).Whole? && opcode < 16
    ensures |ParseFrame(b).payload| < TWO64
    ensures |Broadcast(opcode, ParseFrame(b).payload)| + (if b[1] >= 128 then 4 else 0) <= ParseFrame(b).used
  {
    var len7 := b[1] % 128;
    Pow256Values();
    if len7 == 126 {
      LoadBound(b[2..4]);
    }
    hide Load, Unmask;
  }

  /** The answer to a ping reads back as a pong of the same payload exactly up to 125 octets. */
  lemma PongRoundTrip(payload: bytes, rest: bytes)
    ensures ParseFrame(PongFrame(payload) + rest) == Whole(true, 10, payload, |payload| + 2) <==> |payload| <= 125
  {
    hide Load, Unmask;
    var b, len7 := PongFrame(payload) + rest, |payload| % 128;
    if |payload| <= 125 {
      assert b[2..2] == [];
      assert b[2..2 + |payload|] == payload;
      NoKey(payload);
    } else if len7 < 126 && ParseFrame(b).Whole? {
      assert |ParseFrame(b).payload| == len7;
    } else if ParseFrame(b).Whole? {
      assert ParseFrame(b).used >= 4 + |ParseFrame(b).payload|;
    }
  }

  ghost predicate AllProper(fs: seq<WireFrame>) {
    forall i :: 0 <= i < |fs| ==> Proper(fs[i])
  }

  ghost function Wires(fs: seq<WireFrame>): bytes
    requires AllProper(fs)
  {
    if fs == [] then [] else Wire(fs[0]) + Wires(fs[1..])
  }

  ghost function HandleAll(c: Conn, fs: seq<WireFrame>): Conn
    decreases |fs|
  {
    if fs == [] || !c.alive then c
    else HandleAll(Handle(c, fs[0].fin, fs[0].opcode, fs[0].payload), fs[1..])
  }

  /** Receiving the octets of a list of frames is handling the frames one by one. */
  lemma {:induction false} DrainWires(c: Conn, fs: seq<WireFrame>)
    requires AllProper(fs) && c.alive && c.buf == []
    ensures Alike(Feed(c, Wires(fs)), HandleAll(c, fs))
    decreases |fs|
  {
    hide ParseFrame, Handle, Wire, Proper;
    if fs == [] {
      EmptyNeedsMore();
      assert c.buf + [] == [];
    } else {
      var f, rest := fs[0], Wires(fs[1..]);
      ParseWire(f, rest);
      var b := Wire(f) + rest;
      FrameUses(b);
      assert c.buf + b == b && b[|Wire(f)|..] == rest;
      HandleIgnoresBuffer(c, rest, f.fin, f.opcode, f.payload);
      var d := Handle(c, f.fin, f.opcode, f.payload);
      if d.alive {
        DrainWires(d, fs[1..]);
        assert d.buf + rest == rest;
      }
    }
  }

  lemma EmptyNeedsMore()
    ensures ParseFrame([]).NeedMore?
  {
  }

  // ---- messages ----

  ghost predicate Control(f: WireFrame) {
    f.opcode == 9 || f.opcode == 10
  }

  /** The frames that carry data, in order. */
  ghost function Data(fs: seq<WireFrame>): seq<WireFrame> {
    if fs == [] then [] else (if Control(fs[0]) then [] else [fs[0]]) + Data(fs[1..])
  }

  /** The pongs owed to the pings among the frames, in order. */
  ghost function Owed(fs: seq<WireFrame>): seq<bytes> {
    if fs == [] then [] else (if fs[0].opcode == 9 then [PongFrame(fs[0].payload)] else []) + Owed(fs[1..])
  }

  /**
   * Section 5.4: the first fragment names the kind (unless already begun), the others continue it, the last
   * is final.
   */
  ghost predicate Fragments(ds: seq<WireFrame>, kind: nat, begun: bool) {
    forall i :: 0 <= i < |ds| ==> ds[i].opcode == (if i == 0 && !begun then kind else 0)
                                  && (ds[i].fin <==> i == |ds| - 1)
  }

  ghost function Text(ds: seq<WireFrame>): bytes {
    if ds == [] then [] else ds[0].payload + Text(ds[1..])
  }

  ghost function Texts(es: seq<Event>): seq<bytes> {
    if es == [] then []
    else
      var n := |es| - 1;
      Texts(es[..n]) + match es[n] case Message(t) => [t] case Pong(_) => []
  }

  ghost function Pongs(es: seq<Event>): seq<bytes> {
    if es == [] then []
    else
      var n := |es| - 1;
      Pongs(es[..n]) + match es[n] case Message(_) => [] case Pong(p) => [p]
  }

  lemma OneEvent(es: seq<Event>, e: Event)
    ensures Texts(es + [e]) == Texts(es) + match e case Message(t) => [t] case Pong(_) => []
    ensures Pongs(es + [e]) == Pongs(es) + match e case Message(_) => [] case Pong(p) => [p]
  {
    assert (es + [e])[..|es|] == es;
  }

  ghost function Callbacks(kind: nat, text: bytes): seq<bytes> {
    if kind == 1 && text != [] then [text] else []
  }

  /** What handling the frames of one message, with data frames ds, makes of a connection. */
  ghost predicate Gathered(c: Conn, d: Conn, owed: seq<bytes>, ds: seq<WireFrame>, kind: nat, text: bytes) {
    && d.alive
    && Pongs(d.events) == Pongs(c.events) + owed
    && if ds == [] then d.op == c.op && d.msg == c.msg && Texts(d.events) == Texts(c.events)
       else d.msg == [] && Texts(d.events) == Texts(c.events) + Callbacks(kind, text)
  }

  lemma {:induction false} Gather(c: Conn, fs: seq<WireFrame>, kind: nat, begun: bool)
    requires c.alive && (kind == 1 || kind == 2) && (begun ==> c.op == kind)
    requires Fragments(Data(fs), kind, begun)
    ensures Gathered(c, HandleAll(c, fs), Owed(fs), Data(fs), kind, (if begun then c.msg else []) + Text(Data(fs)))
    decreases |fs|
  {
    if fs == [] {
      assert Pongs(c.events) + [] == Pongs(c.events);
    } else {
      var f, rest := fs[0], fs[1..];
      var d := Handle(c, f.fin, f.opcode, f.payload);
      var so := if begun then c.msg else [];
      hide Handle, Texts, Pongs, Fragments, Text, Gathered, PongFrame, Callbacks;
      if Control(f) {
        assert Data(fs) == Data(rest);
        GatherControl(c, f);
        Gather(d, rest, kind, begun);
        PastControl(c, d, HandleAll(d, rest), f, rest, kind, so + Text(Data(rest)));
      } else {
        DataTail(fs, kind, begun);
        GatherData(c, f, kind, begun);
        Gather(d, rest, kind, true);
        TextOf(f, Data(rest), so);
        assert Owed(fs) == Owed(rest);
        PastData(c, d, HandleAll(d, rest), f, rest, kind, so + f.payload);
      }
    }
  }

  lemma PastControl(c: Conn, d: Conn, e: Conn, f: WireFrame, rest: seq<WireFrame>, kind: nat, text: bytes)
    requires d.op == c.op && d.msg == c.msg && Texts(d.events) == Texts(c.events)
    requires Pongs(d.events) == Pongs(c.events) + if f.opcode == 9 then [PongFrame(f.payload)] else []
    requires Gathered(d, e, Owed(rest), Data(rest), kind, text)
    ensures Gathered(c, e, Owed([f] + rest), Data(rest), kind, text)
  {
    assert ([f] + rest)[1..] == rest;
    hide Texts, Pongs, Data, PongFrame, Callbacks;
    var head := if f.opcode == 9 then [PongFrame(f.payload)] else [];
    assert Pongs(c.events) + head + Owed(rest) == Pongs(c.events) + (head + Owed(rest));
  }

  lemma PastData(c: Conn, d: Conn, e: Conn, f: WireFrame, rest: seq<WireFrame>, kind: nat, so: bytes)
    requires Pongs(d.events) == Pongs(c.events) && d.msg == (if f.fin then [] else so)
    requires Texts(d.events) == Texts(c.events) + if f.fin then Callbacks(kind, so) else []
    requires f.fin <==> Data(rest) == []
    requires Gathered(d, e, Owed(rest), Data(rest), kind, d.msg + Text(Data(rest)))
    ensures Gathered(c, e, Owed(rest), [f] + Data(rest), kind, so + Text(Data(rest)))
  {
    hide Texts, Pongs, Data, Owed, Callbacks;
    assert so + [] == so;
  }

  lemma GatherControl(c: Conn, f: WireFrame)
    requires Control(f)
    ensures var d := Handle(c, f.fin, f.opcode, f.payload);
            && d.alive == c.alive && d.op == c.op && d.msg == c.msg && Texts(d.events) == Texts(c.events)
            && Pongs(d.events) == Pongs(c.events) + if f.opcode == 9 then [PongFrame(f.payload)] else []
  {
    OneEvent(c.events, Pong(PongFrame(f.payload)));
  }

  lemma GatherData(c: Conn, f: WireFrame, kind: nat, begun: bool)
    requires (kind == 1 || kind == 2) && (begun ==> c.op == kind)
    requires f.opcode == if begun then 0 else kind
    ensures var d, so := Handle(c, f.fin, f.opcode, f.payload), (if begun then c.msg else []) + f.payload;
            && d.alive == c.alive && d.op == kind && Pongs(d.events) == Pongs(c.events)
            && d.msg == (if f.fin then [] else so)
            && Texts(d.events) == Texts(c.events) + if f.fin then Callbacks(kind, so) else []
  {
    hide Texts, Pongs;
    var so := (if begun then c.msg else []) + f.payload;
    assert !begun ==> so == f.payload;
    OneEvent(c.events, Message(so));
    assert c.events + [] == c.events;
  }

  lemma DataTail(fs: seq<WireFrame>, kind: nat, begun: bool)
    requires fs != [] && !Control(fs[0]) && Fragments(Data(fs), kind, begun)
    ensures Data(fs) == [fs[0]] + Data(fs[1..])
    ensures Fragments(Data(fs[1..]), kind, true) && fs[0].opcode == (if begun then 0 else kind)
    ensures fs[0].fin <==> Data(fs[1..]) == []
  {
    var ds, rest := Data(fs), Data(fs[1..]);
    assert ds[0] == fs[0];
    forall i | 0 <= i < |rest|
      ensures rest[i].opcode == 0 && (rest[i].fin <==> i == |rest| - 1)
    {
      assert rest[i] == ds[i + 1];
    }
  }

  lemma TextOf(f: WireFrame, ds: seq<WireFrame>, before: bytes)
    ensures before + Text([f] + ds) == before + f.payload + Text(ds)
  {
    assert ([f] + ds)[1..] == ds;
  }

  /**
   * A fragmented message with pings and pongs anywhere between and around its fragments, cut into
   * chunks in any way: the callback is called exactly once, with the original text, if the message is
   * a non-empty text, and not at all otherwise; every ping is answered, in order.
   */
  lemma MessageArrives(c: Conn, chunks: seq<bytes>, fs: seq<WireFrame>, kind: nat)
    requires c.alive && c.buf == [] && AllProper(fs) && (kind == 1 || kind == 2)
    requires Data(fs) != [] && Fragments(Data(fs), kind, false)
    requires Concat(chunks) == Wires(fs)
    ensures var d := FeedAll(c, chunks);
            && d.alive && d.buf == [] && d.msg == []
            && Texts(d.events) == Texts(c.events) + Callbacks(kind, Text(Data(fs)))
            && Pongs(d.events) == Pongs(c.events) + Owed(fs)
  {
    EmptyNeedsMore();
    hide Feed, FeedAll, HandleAll, Wires, Data, Fragments, Texts, Pongs, Owed, ParseFrame, Concat, AllProper, Text;
    ChunkIndependence(c, chunks);
    DrainWires(c, fs);
    Gather(c, fs, kind, false);
    HandleAllKeepsBuffer(c, fs);
    assert [] + Text(Data(fs)) == Text(Data(fs));
  }

  lemma {:induction false} HandleAllKeepsBuffer(c: Conn, fs: seq<WireFrame>)
    ensures HandleAll(c, fs).buf == c.buf
    decreases |fs|
  {
    hide Handle;
    if fs != [] && c.alive {
      var f := fs[0];
      HandleIgnoresBuffer(c, [], f.fin, f.opcode, f.payload);
      HandleAllKeepsBuffer(Handle(c, f.fin, f.opcode, f.payload), fs[1..]);
    }
  }
}
