/** The read buffer put to work on both directions: the client reads the
    server's messages with message::decode, the server reads the client's
    with the client-to-server decoder, modelled by message::parse, each with
    its direction's heading and end tokens. */
module Framing {
  import opened Bytes
  import opened ReadBuffers
  import ClientMessage
  import ServerMessage

  /** What the client's read passes to the buffer. */
  const ClientSide: Protocol<ClientMessage.Message> :=
    Protocol(s => ClientMessage.Decode(s), ClientMessage.HEADING, ClientMessage.END)

  /** What the server's read passes to the buffer. */
  const ServerSide: Protocol<ServerMessage.Message> :=
    Protocol(s => ServerMessage.Parse(s), ServerMessage.HEADING, ServerMessage.END)

  lemma ClientSideWellBehaved()
    ensures WellBehaved(ClientSide)
  {
    forall s: seq<byte>
      ensures ClientSide.parse(s).cursor <= |s|
    {
      assert ClientSide.parse(s) == ClientMessage.Decode(s);
    }
  }

  lemma ServerSideWellBehaved()
    ensures WellBehaved(ServerSide)
  {
    forall s: seq<byte>
      ensures ServerSide.parse(s).cursor <= |s|
    {
      assert ServerSide.parse(s) == ServerMessage.Parse(s);
    }
  }

  // ---------------------------------------------------------------------------
  // Whole frames

  /** An encoded message, behind bytes that hold no heading and followed by
      anything, is what the client reads; the read drops the garbage and the
      frame and keeps what follows. */
  lemma ClientReadsFrame(garbage: seq<byte>, m: ClientMessage.Message, rest: seq<byte>, capacity: nat)
    requires ClientMessage.HEADING !in garbage
    requires ClientMessage.Encodable(m)
    requires m.Text? ==> ClientMessage.END !in m.sender
    ensures WellBehaved(ClientSide)
    ensures var buf := garbage + ClientMessage.Wire(m) + rest;
      var r := Extract(ClientSide, buf, capacity, 0);
      r.msg == Some(m) && r.cut <= |buf| && buf[r.cut..] == rest
  {
    ClientSideWellBehaved();
    var w := ClientMessage.Wire(m);
    ClientMessage.WireDelimited(m);
    ClientMessage.WireEndsOnce(m);
    ClientMessage.DecodeWire(m, []);
    assert w + [] == w;
    assert ClientSide.parse(w) == ClientMessage.Decode(w);
    ExtractFrameAfterGarbage(ClientSide, garbage, w, rest, capacity);
  }

  /** The same for the server: a framable message, whose unicast target holds
      no END, is what the server reads. */
  lemma ServerReadsFrame(garbage: seq<byte>, m: ServerMessage.Message, rest: seq<byte>, capacity: nat)
    requires ServerMessage.HEADING !in garbage
    requires ServerMessage.Framable(m)
    requires m.Unicast? ==> ServerMessage.END !in m.target
    ensures WellBehaved(ServerSide)
    ensures var buf := garbage + ServerMessage.WireFormat(m) + rest;
      var r := Extract(ServerSide, buf, capacity, 0);
      r.msg == Some(m) && r.cut <= |buf| && buf[r.cut..] == rest
  {
    ServerSideWellBehaved();
    var w := ServerMessage.WireFormat(m);
    ServerMessage.WireFormatDelimited(m);
    ServerMessage.WireFormatEndsOnce(m);
    ServerMessage.ParseWireFormat(m, []);
    assert w + [] == w;
    assert ServerSide.parse(w) == ServerMessage.Parse(w);
    ExtractFrameAfterGarbage(ServerSide, garbage, w, rest, capacity);
  }

  // ---------------------------------------------------------------------------
  // Frames split across receives

  /** A frame that has only partly arrived is kept whole for the next read,
      as long as the buffer has room left. */
  lemma ClientKeepsPartialFrame(m: ClientMessage.Message, k: nat, capacity: nat)
    requires ClientMessage.Encodable(m)
    requires m.Text? ==> ClientMessage.END !in m.sender
    requires 0 < k < |ClientMessage.Wire(m)| && k != capacity
    ensures WellBehaved(ClientSide)
    ensures Extract(ClientSide, ClientMessage.Wire(m)[..k], capacity, 0) == Extracted(None, 0)
  {
    ClientSideWellBehaved();
    ClientMessage.WireDelimited(m);
    ClientMessage.WireEndsOnce(m);
    ExtractFramePrefix(ClientSide, ClientMessage.Wire(m), k, capacity);
  }

  /** The same on the server side: a framable message that has only partly
      arrived is kept whole. */
  lemma ServerKeepsPartialFrame(m: ServerMessage.Message, k: nat, capacity: nat)
    requires ServerMessage.Framable(m)
    requires m.Unicast? ==> ServerMessage.END !in m.target
    requires 0 < k < |ServerMessage.WireFormat(m)| && k != capacity
    ensures WellBehaved(ServerSide)
    ensures Extract(ServerSide, ServerMessage.WireFormat(m)[..k], capacity, 0) == Extracted(None, 0)
  {
    ServerSideWellBehaved();
    ServerMessage.WireFormatDelimited(m);
    ServerMessage.WireFormatEndsOnce(m);
    ExtractFramePrefix(ServerSide, ServerMessage.WireFormat(m), k, capacity);
  }

  /** A receive that delivers `piece`, cut to the room the buffer has left. */
  function Arrival(piece: seq<byte>): (recv: nat -> seq<byte>)
    ensures Receivable(recv)
  {
    (n: nat) => if |piece| <= n then piece else piece[..n]
  }

  lemma ArrivalDelivers(piece: seq<byte>, n: nat)
    requires |piece| <= n
    ensures Arrival(piece)(n) == piece
  {
  }

  /** Two reads on a fresh client buffer while a message arrives in two
      pieces, the second followed by `rest`: the first read returns nothing
      and keeps the first piece, the second returns the message and keeps
      only `rest`. */
  method ClientReadsSplitFrame(m: ClientMessage.Message, k: nat, rest: seq<byte>, capacity: nat)
    returns (first: Option<ClientMessage.Message>, second: Option<ClientMessage.Message>, left: seq<byte>)
    requires ClientMessage.Encodable(m)
    requires m.Text? ==> ClientMessage.END !in m.sender
    requires 0 < k < |ClientMessage.Wire(m)|
    requires |ClientMessage.Wire(m)| + |rest| < capacity
    ensures first == None && second == Some(m) && left == rest
  {
    var w := ClientMessage.Wire(m);
    FirstPieceKept(m, k, capacity);
    SecondPieceCompletes(m, k, rest, capacity);
    var reader := new ReadBuffer(capacity);
    assert [] + w[..k] == w[..k];
    first := reader.Read(Arrival(w[..k]), ClientSide);
    second := reader.Read(Arrival(w[k..] + rest), ClientSide);
    left := reader.buffer;
  }

  /** What the first read of ClientReadsSplitFrame receives and extracts. */
  lemma FirstPieceKept(m: ClientMessage.Message, k: nat, capacity: nat)
    requires ClientMessage.Encodable(m)
    requires m.Text? ==> ClientMessage.END !in m.sender
    requires 0 < k < |ClientMessage.Wire(m)| < capacity
    ensures WellBehaved(ClientSide)
    ensures var piece := ClientMessage.Wire(m)[..k];
      Received([], capacity, Arrival(piece)) == piece
      && Extract(ClientSide, piece, capacity, 0) == Extracted(None, 0)
  {
    ArrivalDelivers(ClientMessage.Wire(m)[..k], capacity);
    ClientKeepsPartialFrame(m, k, capacity);
  }

  /** What the second read of ClientReadsSplitFrame receives and extracts. */
  lemma SecondPieceCompletes(m: ClientMessage.Message, k: nat, rest: seq<byte>, capacity: nat)
    requires ClientMessage.Encodable(m)
    requires m.Text? ==> ClientMessage.END !in m.sender
    requires 0 < k < |ClientMessage.Wire(m)|
    requires |ClientMessage.Wire(m)| + |rest| < capacity
    ensures WellBehaved(ClientSide)
    ensures var w := ClientMessage.Wire(m);
      Received(w[..k], capacity, Arrival(w[k..] + rest)) == w[k..] + rest
      && var buf := w[..k] + (w[k..] + rest);
         var r := Extract(ClientSide, buf, capacity, 0);
         r.msg == Some(m) && buf[r.cut..] == rest
  {
    var w := ClientMessage.Wire(m);
    ArrivalDelivers(w[k..] + rest, capacity - k);
    ClientReadsFrame([], m, rest, capacity);
    Rejoined(w, k, rest);
  }

  lemma Rejoined(w: seq<byte>, k: nat, rest: seq<byte>)
    requires k <= |w|
    ensures w[..k] + (w[k..] + rest) == [] + w + rest
  {
    assert w[..k] + w[k..] == w;
  }

  /** A frame longer than the buffer can never complete: once the buffer is
      full without an END after the heading, it is cleared. */
  lemma ServerDropsOverlongFrame(buf: seq<byte>)
    requires |buf| > 0 && buf[0] == ServerMessage.HEADING && ServerMessage.END !in buf
    ensures WellBehaved(ServerSide)
    ensures Extract(ServerSide, buf, |buf|, 0) == Extracted(None, |buf|)
  {
    ServerSideWellBehaved();
    assert buf[0..] == buf;
    ExtractPartial(ServerSide, buf, |buf|, 0);
  }

  // ---------------------------------------------------------------------------
  // The loop as written spins on short frames

  /** A three-byte client frame with an unknown tag: every decoder gives up
      without moving the cursor, so the loop as written finds the same frame
      again and again. The corrected loop steps past the heading, finds no
      other and clears the buffer. */
  lemma ClientReaderSpins(capacity: nat)
    ensures WellBehaved(ClientSide)
    ensures ScanStep(ClientSide, [0x01, 0x33, 0x04], capacity, 0) == Again(0, 0)
    ensures Extract(ClientSide, [0x01, 0x33, 0x04], capacity, 0) == Extracted(None, 3)
  {
    ClientSideWellBehaved();
    var buf: seq<byte> := [0x01, 0x33, 0x04];
    FindIs(buf, 0, ClientMessage.HEADING, 0);
    FindIs(buf, 0, ClientMessage.END, 2);
    assert buf[0..3] == buf;
    assert ClientMessage.Decode(buf).cursor == 0;
    ScanStepOnFrame(ClientSide, buf, capacity, 0, 0, 2);
    ExtractAgain(ClientSide, buf, capacity, 0, 0, 0);
    FindIs(buf, 1, ClientMessage.HEADING, 3);
    PassNoHeading(ClientSide, buf, capacity, 1);
  }

  /** The same on the server side with a two-byte frame, shorter than any
      message, so that parse gives up at once. */
  lemma ServerReaderSpins(capacity: nat)
    ensures WellBehaved(ServerSide)
    ensures ScanStep(ServerSide, [0x01, 0x04], capacity, 0) == Again(0, 0)
    ensures Extract(ServerSide, [0x01, 0x04], capacity, 0) == Extracted(None, 2)
  {
    ServerSideWellBehaved();
    var buf: seq<byte> := [0x01, 0x04];
    FindIs(buf, 0, ServerMessage.HEADING, 0);
    FindIs(buf, 0, ServerMessage.END, 1);
    assert buf[0..2] == buf;
    assert ServerMessage.Parse(buf).cursor == 0;
    ScanStepOnFrame(ServerSide, buf, capacity, 0, 0, 1);
    ExtractAgain(ServerSide, buf, capacity, 0, 0, 0);
    FindIs(buf, 1, ServerMessage.HEADING, 2);
    PassNoHeading(ServerSide, buf, capacity, 1);
  }
}
