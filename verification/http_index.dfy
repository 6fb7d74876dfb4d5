/** The firmware download of src/http_index.c: an image that leaves in chunks, one per poll, over many polls. */
module HttpIndex {
  import opened Bytes
  import opened Buffers
  import opened UsbNetwork
  import opened Slices
  import opened TcpWire
  import opened TcpStream
  import opened TcpLog
  import opened Tcpip
  import opened Http
  import C = Chunked

  const BASE: uint32 := 0x0800_0000   // where the image is in memory
  const IMAGE := 32768                // its size
  const PIECES := 49
  const RESPONSE_ROOM := 330                  // the header of a response and those of its segment
  // stand for the addresses of http_firmware_bin and http_index in the context of a connection
  const FIRMWARE := 1
  const INDEX := 2

  type Image = s: seq<byte> | |s| == IMAGE witness seq(IMAGE, _ => 0)

  // ---------- the pieces of the image ----------

  function Piece(flash: Image, i: nat): seq<byte>
    requires i < PIECES
  {
    flash[682 * i..Min(682 * i + 682, IMAGE)]
  }

  /** The first n pieces. */
  function Pieces(flash: Image, n: nat): (s: seq<seq<byte>>)
    requires n <= PIECES
    ensures |s| == n
  {
    if n == 0 then [] else Pieces(flash, n - 1) + [Piece(flash, n - 1)]
  }

  /** They make up the beginning of the image, and all of them the whole image. */
  lemma {:induction false} PiecesMakeUp(flash: Image, n: nat)
    requires n <= PIECES
    ensures C.Flatten(Pieces(flash, n)) == flash[..Min(682 * n, IMAGE)]
    ensures forall i :: 0 <= i < n ==> 0 < |Pieces(flash, n)[i]| <= CHUNK_SIZE
  {
    if n > 0 {
      PiecesMakeUp(flash, n - 1);
      assert Pieces(flash, n)[..n - 1] == Pieces(flash, n - 1);
      assert flash[..682 * (n - 1)] + Piece(flash, n - 1) == flash[..Min(682 * n, IMAGE)];
    }
  }

  /** The body of the response after n turns: n chunks, and the last chunk when all pieces are out. */
  function Body(flash: Image, n: nat): seq<byte>
    requires n <= PIECES + 1
  {
    if n <= PIECES then C.Encoded(Pieces(flash, n)) else C.Encoded(Pieces(flash, PIECES)) + C.LAST_CHUNK
  }

  /** What turn n sends. */
  function Sends(flash: Image, n: nat): seq<byte>
    requires n <= PIECES
  {
    if n < PIECES then C.Chunk(Piece(flash, n)) else C.LAST_CHUNK
  }

  lemma BodyGrows(flash: Image, n: nat)
    requires n <= PIECES
    ensures Body(flash, n + 1) == Body(flash, n) + Sends(flash, n)
  {
    hide C.Chunk;
    if n < PIECES {
      assert Pieces(flash, n + 1)[..n] == Pieces(flash, n);
    }
  }

  /** What the turns send, octet by octet: 48 times a chunk with the size "000002aa", 682 octets of the image, then one
      with the size "00000020" and the last 32 octets, then "0" and an empty chunk. */
  lemma TurnsInOctets(flash: Image, n: nat)
    requires n < 50
    ensures Sends(flash, n)
              == if n < 48 then [48, 48, 48, 48, 48, 50, 97, 97, 13, 10] + flash[682 * n..682 * n + 682] + [13, 10]
                 else if n == 48 then [48, 48, 48, 48, 48, 48, 50, 48, 13, 10] + flash[32736..] + [13, 10]
                 else [48, 13, 10, 13, 10]
  {
    hide C.Hex;
    C.SizeDigits();
    if n < 49 {
      var size := |Piece(flash, n)|;
      assert size == if n < 48 then 682 else 32;
      assert C.Hex(size, 8) + [C.CR, C.LF] == C.Hex(size, 8) + [13, 10];
    }
  }

  /** A client that reads the complete body gets the image, in 49 chunks. */
  lemma BodyIsImage(flash: Image)
    ensures C.Decode(Body(flash, PIECES + 1)) == C.Message(Pieces(flash, PIECES), [])
    ensures C.Flatten(Pieces(flash, PIECES)) == flash
  {
    hide C.Decode, C.Encoded;
    PiecesMakeUp(flash, PIECES);
    assert flash[..IMAGE] == flash;
    C.DecodeInvertsEncode(Pieces(flash, PIECES), []);
    assert Body(flash, PIECES + 1) + [] == Body(flash, PIECES + 1);
  }

  // ---------- one turn ----------

  datatype Turn = Skipped | SentPiece | SentLast

  /** There is room on the line and a buffer for a full chunk. */
  ghost predicate MaySend(net: Stack)
    reads net.usb, net.usb.freeList, net.usb.transmitQueue
  {
    net.usb.Pending() < 2 && FirstFit(net.usb.freeList.nodes, 768) < |net.usb.freeList.nodes|
  }

  lemma MaySendMeans(net: Stack)
    ensures MaySend(net) <==>
            net.usb.Pending() <= 1 && exists b :: b in net.usb.freeList.nodes && b.MaxSize() >= 768
  {
    var free := net.usb.freeList.nodes;
    FirstFitIs(free, 768);
    assert FirstFit(free, 768) < |free| ==> free[FirstFit(free, 768)] in free;
  }

  /** http_firmware_bin without a request: the piece at the current position, or the last chunk behind the last
      piece. The last chunk always finds a buffer, as the one for a full chunk has just been given back. */
  method FirmwarePoll(net: Stack, conn: Conn, flash: Image, now: uint32) returns (turn: Turn)
    requires net.Ready() && conn.Valid() && conn.established && BASE <= conn.position <= BASE + IMAGE
    modifies conn`position, conn`handler, conn`established, conn`rx, conn`txSequence, conn`lastAckSent, conn`lastEvent,
             conn`log, net.Footprint()
    ensures net.Ready() && conn.Valid() && conn.established
    ensures turn.Skipped? <==> !old(MaySend(net))
    ensures TurnTaken(net, conn, flash, turn)
    ensures net.usb.OthersKept(null)
  {
    hide UsbNet.Valid, Little16, Emitted, Tiled, OpensWithSyn, FirstFit, C.Chunk, Stack.Footprint, SegmentAt, Grown,
         Payloads;
    net.Outside(conn);
    GrownNot(net.RouteOf(conn), conn.log, net.usb.submitted);
    var queued := net.usb.GetTxQueueSize();
    net.usb.Undisturbed();
    turn := Skipped;
    if queued < 2 {
      turn := FirmwareChunk(net, conn, flash, now);
    }
  }

  /** What a turn does to its connection. */
  twostate predicate TurnTaken(net: Stack, conn: Conn, flash: Image, turn: Turn)
    requires BASE <= old(conn.position) <= BASE + IMAGE
    reads conn, net.usb, net.usb.transmitQueue
  {
    var from := old(conn.position) - BASE;
    var to := Min(from + CHUNK_SIZE, IMAGE);
    net.InStep(conn) && conn.rx == old(conn.rx) &&
    match turn
    case Skipped => unchanged(conn) && net.usb.submitted == old(net.usb.submitted)
    case SentPiece =>
      from < IMAGE && net.Emits(conn, ACK, C.Chunk(flash[from..to]))
      && Payloads(conn.log) == old(Payloads(conn.log)) + C.Chunk(flash[from..to])
      && conn.position == BASE + to && conn.handler == old(conn.handler)
    case SentLast =>
      from == IMAGE && net.Emits(conn, ACK, C.LAST_CHUNK)
      && Payloads(conn.log) == old(Payloads(conn.log)) + C.LAST_CHUNK
      && conn.position == old(conn.position) && conn.handler == 0
  }

  method FirmwareChunk(net: Stack, conn: Conn, flash: Image, now: uint32) returns (turn: Turn)
    requires net.Ready() && conn.Valid() && conn.established && BASE <= conn.position <= BASE + IMAGE
    modifies conn`position, conn`handler, conn`established, conn`rx, conn`txSequence, conn`lastAckSent, conn`lastEvent,
             conn`log, net.Footprint()
    ensures net.Ready() && conn.Valid() && conn.established
    ensures turn.Skipped? <==> FirstFit(old(net.usb.freeList.nodes), 768) == |old(net.usb.freeList.nodes)|
    ensures TurnTaken(net, conn, flash, turn)
    ensures net.usb.OthersKept(null)
  {
    hide UsbNet.Valid, Emitted, Tiled, OpensWithSyn, FirstFit, C.Chunk, Stack.Footprint, SegmentAt, Grown, Payloads;
    net.Outside(conn);
    GrownNot(net.RouteOf(conn), conn.log, net.usb.submitted);
    var p := AllocateChunk(net, CHUNK_SIZE);
    if p.Null? {
      return Skipped;
    }
    net.Inside(p.ref.buf);
    turn := UseChunk(net, conn, p.ref, flash, now);
  }

  method UseChunk(net: Stack, conn: Conn, chunk: Ref, flash: Image, now: uint32) returns (turn: Turn)
    requires net.Ready() && conn.Valid() && conn.established && BASE <= conn.position <= BASE + IMAGE
    requires ChunkSlice(net, chunk) && net.Filled(chunk, []) && chunk.MaxSize() >= CHUNK_SIZE
    modifies conn`position, conn`handler, conn`established, conn`rx, conn`txSequence, conn`lastAckSent, conn`lastEvent,
             conn`log, net.Footprint()
    ensures net.Ready() && conn.Valid() && conn.established
    ensures TurnTaken(net, conn, flash, turn) && !turn.Skipped?
    ensures net.usb.OthersKept(chunk.buf) && !net.Owns(chunk.buf)
  {
    hide UsbNet.Valid, Emitted, Tiled, OpensWithSyn, FirstFit, C.Chunk, Stack.Footprint, SegmentAt, Grown, Payloads;
    net.Outside(conn);
    var pos := conn.position - BASE;
    var maxLen := Min(IMAGE - pos, chunk.MaxSize());
    if maxLen > 0 {
      turn := SentPiece;
      SendPiece(net, conn, chunk, flash[pos..pos + maxLen], now);
    } else {
      turn := SentLast;
      FinishBody(net, conn, chunk, now);
    }
  }

  method SendPiece(net: Stack, conn: Conn, chunk: Ref, piece: seq<byte>, now: uint32)
    requires net.Ready() && conn.Valid() && conn.established
    requires ChunkSlice(net, chunk) && |piece| <= chunk.MaxSize() && conn.position + |piece| < 0x1_0000_0000
    modifies conn`position, conn`txSequence, conn`lastAckSent, conn`lastEvent, conn`log, net.Footprint()
    ensures net.Ready() && conn.Valid()
    ensures net.Emits(conn, ACK, C.Chunk(piece)) && conn.position == old(conn.position) + |piece|
    ensures net.InStep(conn) && Payloads(conn.log) == old(Payloads(conn.log)) + C.Chunk(piece)
    ensures net.usb.OthersKept(chunk.buf) && !net.Owns(chunk.buf)
  {
    hide UsbNet.Valid, Little16, Emitted, Tiled, OpensWithSyn, FirstFit, C.Chunk, Stack.Footprint, SegmentAt, Grown,
         Payloads;
    net.Outside(conn);
    net.Inside(chunk.buf);
    FillChunk(net, chunk, piece);
    label Filled:
    conn.position := conn.position + |piece|;
    net.usb.Undisturbed@Filled();
    SendChunk(net, conn, chunk, now, piece);
  }

  method FinishBody(net: Stack, conn: Conn, chunk: Ref, now: uint32)
    requires net.Ready() && conn.Valid() && conn.established
    requires ChunkSlice(net, chunk) && net.Filled(chunk, []) && chunk.MaxSize() >= 0
    modifies conn`handler, conn`established, conn`rx, conn`txSequence, conn`lastAckSent, conn`lastEvent, conn`log,
             net.Footprint()
    ensures net.Ready() && conn.Valid() && conn.established && conn.rx == old(conn.rx)
    ensures net.Emits(conn, ACK, C.LAST_CHUNK) && conn.handler == 0
    ensures net.InStep(conn) && Payloads(conn.log) == old(Payloads(conn.log)) + C.LAST_CHUNK
    ensures net.usb.OthersKept(chunk.buf) && !net.Owns(chunk.buf)
  {
    hide UsbNet.Valid, Little16, Emitted, Tiled, OpensWithSyn, FirstFit, Inserted, Stack.Footprint, SegmentAt, Grown,
         Payloads;
    net.Outside(conn);
    JustReleased(net.usb.freeList.nodes, chunk.buf, 79);
    ReleaseChunk(net, chunk);
    var sent := SendLastChunk(net, conn, now);
  }

  // ---------- progress ----------

  /** Behind the first h bytes that the connection has sent, n turns of the download have been taken; whatever follows
      a complete body belongs to later responses. */
  ghost predicate Downloading(conn: Conn, h: nat, flash: Image, n: nat)
    reads conn
  {
    && h <= |Payloads(conn.log)| && n <= PIECES + 1
    && (if n <= PIECES
        then Payloads(conn.log)[h..] == Body(flash, n)
             && conn.position == BASE + Min(CHUNK_SIZE * n, IMAGE) && conn.handler == FIRMWARE
        else Body(flash, n) <= Payloads(conn.log)[h..])
  }

  /** A client that reads a complete body gets all pieces, and the rest is left for later. */
  lemma CompleteBody(conn: Conn, h: nat, flash: Image)
    requires Downloading(conn, h, flash, PIECES + 1)
    ensures C.Decode(Payloads(conn.log)[h..])
              == C.Message(Pieces(flash, PIECES), Payloads(conn.log)[h + |Body(flash, PIECES + 1)|..])
  {
    hide C.Decode, C.Encoded;
    var sent, body := Payloads(conn.log)[h..], Body(flash, PIECES + 1);
    var rest := sent[|body|..];
    PiecesMakeUp(flash, PIECES);
    C.DecodeInvertsEncode(Pieces(flash, PIECES), rest);
    assert sent == C.Encoded(Pieces(flash, PIECES)) + C.LAST_CHUNK + rest;
    assert rest == Payloads(conn.log)[h + |body|..];
  }

  /** What a turn of the download adds. */
  lemma LogGrows(sent: seq<byte>, sent': seq<byte>, h: nat, flash: Image, n: nat)
    requires n <= PIECES && sent' == sent + Sends(flash, n)
    requires h <= |sent| && sent[h..] == Body(flash, n)
    ensures h <= |sent'| && sent'[h..] == Body(flash, n + 1)
  {
    hide Body, Sends;
    BodyGrows(flash, n);
  }

  /** http_firmware_bin for a new request. */
  method FirmwareRequest(net: Stack, conn: Conn, header: seq<byte>, flash: Image, now: uint32)
    requires net.Ready() && conn.Valid() && conn.established && |header| <= 256 && conn.handler == FIRMWARE
    modifies conn`position, conn`handler, conn`established, conn`rx, conn`txSequence, conn`lastAckSent, conn`lastEvent,
             conn`log, net.Footprint()
    ensures net.Ready() && conn.Valid() && conn.log != []
    ensures conn.established ==> Payloads(conn.log) == old(Payloads(conn.log)) + header
                                 && Downloading(conn, |Payloads(conn.log)|, flash, 0)
    ensures conn.rx == old(conn.rx) || conn.rx == old(conn.rx).(open := false)
    ensures net.InStep(conn) && net.Acknowledges(conn) && conn.position == BASE && conn.handler == FIRMWARE
    ensures conn.position == 0x0800_0000
    ensures conn.established <==> old(net.LineOf()).Fits(RESPONSE_ROOM)
    ensures net.usb.OthersKept(null)
  {
    hide UsbNet.Valid, Emitted, Tiled, OpensWithSyn, FirstFit, Stack.Footprint, Downloading, Payloads, SegmentAt,
         Grown;
    net.Outside(conn);
    HasRoom(net.LineOf());
    var sent := StartResponse(net, conn, header, 256, false, now);
    label Started:
    conn.position := BASE;
    net.usb.Undisturbed@Started();
    if sent {
      Begun(conn, flash);
    }
  }

  lemma HasRoom(line: Line)
    ensures line.Fits(RESPONSE_ROOM) <==> FirstFit(line.free, 256 + HEADER_SIZE) < |line.free|
  {
  }

  lemma Begun(conn: Conn, flash: Image)
    requires conn.position == BASE && conn.handler == FIRMWARE
    ensures Downloading(conn, |Payloads(conn.log)|, flash, 0)
  {
    assert Pieces(flash, 0) == [];
  }
}
