/**
 * The end of a WebSocket connection: a close frame (opcode 8 of section 5.2 of RFC 6455) ends it wherever it comes,
 * nothing behind it counts, and nothing else ends it.
 */
module WsClose {
  import opened Bytes
  import opened MediaTypes
  import opened WsServers
  import opened WsStream

  ghost predicate NoClose(fs: seq<WireFrame>) {
    forall i :: 0 <= i < |fs| ==> fs[i].opcode != 8
  }

  /** Every ping before a close is answered and the connection is still open; a close among the frames ends it. */
  lemma {:induction false} OpenUntilClose(c: Conn, fs: seq<WireFrame>)
    requires c.alive
    ensures HandleAll(c, fs).alive <==> NoClose(fs)
    ensures NoClose(fs) ==> Pongs(HandleAll(c, fs).events) == Pongs(c.events) + Owed(fs)
    decreases |fs|
  {
    hide Texts, Pongs, PongFrame, Handle;
    if fs == [] {
      assert Pongs(c.events) + [] == Pongs(c.events);
    } else {
      var f := fs[0];
      var d := Handle(c, f.fin, f.opcode, f.payload);
      OneFrame(c, f);
      if d.alive {
        OpenUntilClose(d, fs[1..]);
        assert NoClose(fs) <==> NoClose(fs[1..]);
        var head := if f.opcode == 9 then [PongFrame(f.payload)] else [];
        assert Pongs(c.events) + head + Owed(fs[1..]) == Pongs(c.events) + (head + Owed(fs[1..]));
      }
    }
  }

  lemma OneFrame(c: Conn, f: WireFrame)
    requires c.alive
    ensures var d := Handle(c, f.fin, f.opcode, f.payload);
            && (d.alive <==> f.opcode != 8)
            && (d.alive ==>
                  Pongs(d.events) == Pongs(c.events) + if f.opcode == 9 then [PongFrame(f.payload)] else [])
            && (!d.alive ==> d.events == c.events)
  {
    hide Texts, Pongs, PongFrame;
    OneEvent(c.events, Pong(PongFrame(f.payload)));
    var so := if f.opcode == 1 || f.opcode == 2 then f.payload
              else if f.opcode == 0 then c.msg + f.payload
              else c.msg;
    OneEvent(c.events, Message(so));
    assert c.events + [] == c.events;
    assert Pongs(c.events) + [] == Pongs(c.events);
  }

  lemma {:induction false} HandleAllSplit(c: Conn, fs: seq<WireFrame>, gs: seq<WireFrame>)
    ensures HandleAll(c, fs + gs) == HandleAll(HandleAll(c, fs), gs)
    decreases |fs|
  {
    hide Handle;
    if fs == [] {
      assert [] + gs == gs;
    } else if c.alive {
      assert (fs + gs)[1..] == fs[1..] + gs;
      HandleAllSplit(Handle(c, fs[0].fin, fs[0].opcode, fs[0].payload), fs[1..], gs);
    }
  }

  /** A stream of frames with any octets behind them, in any chunks. */
  lemma StreamHandled(c: Conn, chunks: seq<bytes>, fs: seq<WireFrame>, tail: bytes)
    requires c.alive && c.buf == [] && AllProper(fs) && Concat(chunks) == Wires(fs) + tail
    ensures var d, e := FeedAll(c, chunks), HandleAll(c, fs);
            && (!e.alive ==> !d.alive && d.events == e.events)
            && (tail == [] ==> Alike(d, e))
  {
    hide Drain, ParseFrame, HandleAll, Wires, FeedAll, Concat;
    EmptyNeedsMore();
    ChunkIndependence(c, chunks);
    DrainWires(c, fs);
    FeedSplit(c, Wires(fs), tail);
    if tail == [] {
      assert Wires(fs) + tail == Wires(fs);
    }
  }

  /**
   * A close frame ends the connection. After any frames without one, a close frame with any key, payload and FIN bit
   * and then any octets at all, in any chunks: the connection is closed, what was called back and answered is what
   * the frames before it alone make of the connection, and that includes a pong for each of their pings.
   */
  lemma CloseEnds(c: Conn, chunks: seq<bytes>, fs: seq<WireFrame>, k: WireFrame, tail: bytes)
    requires c.alive && c.buf == [] && AllProper(fs) && NoClose(fs) && Proper(k) && k.opcode == 8
    requires Concat(chunks) == Wires(fs) + Wire(k) + tail
    ensures var d := FeedAll(c, chunks);
            && !d.alive && d.events == FeedAll(c, [Wires(fs)]).events
            && Pongs(d.events) == Pongs(c.events) + Owed(fs)
  {
    hide HandleAll, Wires, Wire, FeedAll, Concat, Pongs, Owed, Proper, Alike;
    WiresSnoc(fs, k);
    HandleAllSplit(c, fs, [k]);
    OpenUntilClose(c, fs);
    CloseHandled(HandleAll(c, fs), k);
    StreamHandled(c, chunks, fs + [k], tail);
    OneChunk(Wires(fs));
    StreamHandled(c, [Wires(fs)], fs, []);
    AlikeEvents(FeedAll(c, [Wires(fs)]), HandleAll(c, fs));
  }

  lemma AlikeEvents(c: Conn, d: Conn)
    requires Alike(c, d)
    ensures c.events == d.events && c.alive == d.alive
  {
  }

  lemma CloseHandled(c: Conn, k: WireFrame)
    requires c.alive && k.opcode == 8
    ensures var d := HandleAll(c, [k]); !d.alive && d.events == c.events
  {
    hide Handle;
    OneFrame(c, k);
    assert [k][1..] == [];
  }

  lemma OneChunk(b: bytes)
    ensures Concat([b]) == b + []
  {
    assert [b][1..] == [] && [b][..0] == [];
  }

  lemma {:induction false} WiresSnoc(fs: seq<WireFrame>, k: WireFrame)
    requires AllProper(fs) && Proper(k)
    ensures AllProper(fs + [k]) && Wires(fs + [k]) == Wires(fs) + Wire(k)
    decreases |fs|
  {
    hide Wire, Proper;
    if fs == [] {
      assert [] + [k] == [k] && [k][1..] == [];
      assert Wires([k]) == Wire(k) + [];
    } else {
      assert (fs + [k])[1..] == fs[1..] + [k];
      WiresSnoc(fs[1..], k);
    }
  }

  /** Nothing else ends it: after whole frames, in any chunks, the connection is open exactly when none was a close. */
  lemma OpenExactlyWithoutClose(c: Conn, chunks: seq<bytes>, fs: seq<WireFrame>)
    requires c.alive && c.buf == [] && AllProper(fs) && Concat(chunks) == Wires(fs)
    ensures FeedAll(c, chunks).alive <==> NoClose(fs)
  {
    hide HandleAll, Wires, FeedAll, Concat, Alike;
    assert Wires(fs) + [] == Wires(fs);
    StreamHandled(c, chunks, fs, []);
    AlikeEvents(FeedAll(c, chunks), HandleAll(c, fs));
    OpenUntilClose(c, fs);
  }

  // ---- whole conversations ----

  /** The frames of one whole message of section 5.4, with pings and pongs among them. */
  datatype Spoken = Spoken(kind: nat, frames: seq<WireFrame>)

  ghost predicate WholeMessage(m: Spoken) {
    (m.kind == 1 || m.kind == 2) && Data(m.frames) != [] && WsStream.Fragments(Data(m.frames), m.kind, false)
  }

  ghost function Flat(ms: seq<Spoken>): seq<WireFrame> {
    if ms == [] then [] else ms[0].frames + Flat(ms[1..])
  }

  /** The non-empty texts among the messages. */
  ghost function Said(ms: seq<Spoken>): seq<bytes> {
    if ms == [] then []
    else
      var t := Text(Data(ms[0].frames));
      (if ms[0].kind == 1 && t != [] then [t] else []) + Said(ms[1..])
  }

  /** The beginning of a message that was not finished, or only pings and pongs. */
  ghost predicate Unfinished(fs: seq<WireFrame>) {
    forall i :: 0 <= i < |fs| ==> !Control(fs[i]) ==> fs[i].opcode <= 2 && !fs[i].fin
  }

  lemma {:induction false} UnfinishedSilent(c: Conn, fs: seq<WireFrame>)
    requires c.alive && Unfinished(fs)
    ensures HandleAll(c, fs).alive && Texts(HandleAll(c, fs).events) == Texts(c.events)
    decreases |fs|
  {
    if fs != [] {
      var f := fs[0];
      hide Texts, Pongs, PongFrame;
      OneEvent(c.events, Pong(PongFrame(f.payload)));
      assert Texts(c.events) + [] == Texts(c.events);
      UnfinishedSilent(Handle(c, f.fin, f.opcode, f.payload), fs[1..]);
    }
  }

  lemma {:induction false} ConversationHandled(c: Conn, ms: seq<Spoken>)
    requires c.alive && forall i :: 0 <= i < |ms| ==> WholeMessage(ms[i])
    ensures var d := HandleAll(c, Flat(ms)); d.alive && Texts(d.events) == Texts(c.events) + Said(ms)
    decreases |ms|
  {
    hide Texts, Pongs, Data, Text, HandleAll;
    if ms == [] {
      NothingHandled(c);
      assert Texts(c.events) + [] == Texts(c.events);
    } else {
      var m := ms[0];
      Gather(c, m.frames, m.kind, false);
      var d := HandleAll(c, m.frames);
      assert [] + Text(Data(m.frames)) == Text(Data(m.frames));
      HandleAllSplit(c, m.frames, Flat(ms[1..]));
      ConversationHandled(d, ms[1..]);
      var t := Callbacks(m.kind, Text(Data(m.frames)));
      assert Texts(c.events) + t + Said(ms[1..]) == Texts(c.events) + (t + Said(ms[1..]));
    }
  }

  lemma NothingHandled(c: Conn)
    ensures HandleAll(c, []) == c
  {
  }

  /**
   * A whole conversation: any messages, perhaps the beginning of one more, a close frame, and any octets, in any
   * chunks. Each non-empty text is called back once, in order, each ping before the close is answered, in order, and
   * the connection is closed.
   */
  lemma ConversationCloses(c: Conn, chunks: seq<bytes>, ms: seq<Spoken>, part: seq<WireFrame>, k: WireFrame,
                           tail: bytes)
    requires c.alive && c.buf == [] && Proper(k) && k.opcode == 8
    requires (forall i :: 0 <= i < |ms| ==> WholeMessage(ms[i])) && Unfinished(part) && AllProper(Flat(ms) + part)
    requires Concat(chunks) == Wires(Flat(ms) + part) + Wire(k) + tail
    ensures var d := FeedAll(c, chunks);
            && !d.alive && Texts(d.events) == Texts(c.events) + Said(ms)
            && Pongs(d.events) == Pongs(c.events) + Owed(Flat(ms) + part)
  {
    hide HandleAll, Wires, Wire, FeedAll, Concat, Pongs, Owed, Proper, Alike, WholeMessage, Unfinished, Flat, Said,
         Texts;
    var fs := Flat(ms) + part;
    ConversationHandled(c, ms);
    HandleAllSplit(c, Flat(ms), part);
    UnfinishedSilent(HandleAll(c, Flat(ms)), part);
    OpenUntilClose(c, fs);
    CloseEnds(c, chunks, fs, k, tail);
    OneChunk(Wires(fs));
    StreamHandled(c, [Wires(fs)], fs, []);
    AlikeEvents(FeedAll(c, [Wires(fs)]), HandleAll(c, fs));
  }
}
