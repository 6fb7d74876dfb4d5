/** Chunked responses (src/http.c) and the firmware download (src/http_index.c), on top of the connections. */
module Http {
  import opened Bytes
  import opened Buffers
  import opened UsbNetwork
  import opened Slices
  import opened TcpWire
  import opened TcpStream
  import opened TcpLog
  import opened Tcpip
  import C = Chunked

  const CHUNK_HEADER := 10   // HTTP_CHUNK_HEADER_SIZE
  const CHUNK_TRAILER := 2   // HTTP_CHUNK_TRAILER_SIZE
  const CHUNK_SIZE := 682    // HTTP_CHUNK_SIZE: the headers and both parts of the chunk frame make 768

  // ---------- chunks: slices of payloads that leave room for the chunk frame ----------

  /** A chunk as http_allocate_chunk makes it: the second of two nested slices. */
  ghost predicate ChunkSlice(net: Stack, r: Ref)
    reads net.usb, r.buf.data
  {
    && r.off == HEADER_SIZE + CHUNK_HEADER && r.Valid()
    && net.Payload(Outer(r)) && Outer(r).MaxSize() == r.MaxSize() + CHUNK_HEADER + CHUNK_TRAILER
  }

  function Outer(r: Ref): Ref {
    Ref(r.buf, HEADER_SIZE)
  }

  /** `buffer_slice(outer, HTTP_CHUNK_HEADER_SIZE, HTTP_CHUNK_TRAILER_SIZE)` */
  method CutChunk(net: Stack, outer: Ref) returns (r: Ref)
    requires net.Ready() && net.Payload(outer) && outer.DataSize() == 0
    requires outer.MaxSize() >= CHUNK_HEADER + CHUNK_TRAILER
    modifies outer.buf.data
    ensures net.Ready() && r == Ref(outer.buf, HEADER_SIZE + CHUNK_HEADER) && ChunkSlice(net, r) && r.DataSize() == 0
    ensures r.MaxSize() == old(outer.MaxSize()) - CHUNK_HEADER - CHUNK_TRAILER
    ensures net.usb.OthersKept(outer.buf)
  {
    hide UsbNet.Lists, UsbNet.Sending, UsbNet.Receiving, Little16;
    net.usb.Apart();
    net.usb.DataApart({outer.buf}, net.usb.pool - {outer.buf});
    r := BufferSlice(outer, CHUNK_HEADER, CHUNK_TRAILER);
    net.usb.HeldWritten(outer.buf);
  }

  /** `buffer_unslice(chunk, HTTP_CHUNK_HEADER_SIZE, HTTP_CHUNK_TRAILER_SIZE)` */
  method UncutChunk(net: Stack, r: Ref, ghost body: seq<byte>) returns (outer: Ref)
    requires net.Ready() && ChunkSlice(net, r) && net.Filled(r, body) && |body| <= r.MaxSize()
    modifies r.buf`dataSize, r.buf.data
    ensures net.Ready() && outer == Outer(r) && net.Payload(outer)
    ensures outer.DataSize() == |body| + CHUNK_HEADER + CHUNK_TRAILER
    ensures net.Filled(r, body) && outer.MaxSize() == old(outer.MaxSize())
    ensures net.usb.OthersKept(r.buf)
  {
    hide UsbNet.Lists, UsbNet.Sending, UsbNet.Receiving;
    net.usb.Apart();
    net.usb.DataApart({r.buf}, net.usb.pool - {r.buf});
    ghost var was: seq<byte> := r.buf.data[..];
    outer := BufferUnslice(r, CHUNK_HEADER, CHUNK_TRAILER);
    PayloadKept(was, r.buf.data[..], HEADER_SIZE, body, r.off);
    net.usb.HeldWritten(r.buf);
  }

  /** http_allocate_chunk */
  method AllocateChunk(net: Stack, size: nat) returns (chunk: Pointer)
    requires net.Ready()
    modifies net.Footprint()
    ensures net.Ready() && net.usb.submitted == old(net.usb.submitted)
    ensures chunk.Null? <==> FirstFit(old(net.usb.freeList.nodes), size + 86) == |old(net.usb.freeList.nodes)|
    ensures chunk.To? ==> var r := chunk.ref;
              ChunkSlice(net, r) && !old(net.Owns(r.buf)) && net.Filled(r, []) && r.MaxSize() >= size
    ensures net.usb.OthersKept(if chunk.Null? then null else chunk.ref.buf)
  {
    hide UsbNet.Valid, FirstFit, Little16, Stack.Footprint;
    var outer := net.Allocate(CHUNK_HEADER + size + CHUNK_TRAILER);
    if outer.Null? {
      return Null;
    }
    net.Inside(outer.ref.buf);
    var r := CutChunk(net, outer.ref);
    chunk := To(r);
  }

  /** http_release_chunk */
  method ReleaseChunk(net: Stack, r: Ref)
    requires net.Ready() && ChunkSlice(net, r) && net.Filled(r, [])
    modifies net.Footprint()
    ensures net.Ready() && net.usb.submitted == old(net.usb.submitted)
    ensures net.usb.freeList.nodes == Inserted(old(net.usb.freeList.nodes), r.buf)
    ensures net.usb.OthersKept(r.buf) && !net.Owns(r.buf)
  {
    hide UsbNet.Valid, Inserted, Little16, Stack.Footprint;
    net.Inside(r.buf);
    var outer := UncutChunk(net, r, []);
    net.Release(outer);
  }

  /** The owner of a chunk fills it, up to its size. */
  method FillChunk(net: Stack, r: Ref, body: seq<byte>)
    requires net.Ready() && ChunkSlice(net, r) && |body| <= r.MaxSize()
    modifies r.buf`dataSize, r.buf.data
    ensures net.Ready() && ChunkSlice(net, r) && net.Filled(r, body) && r.MaxSize() == old(r.MaxSize())
    ensures net.usb.OthersKept(r.buf)
  {
    hide UsbNet.Lists, UsbNet.Sending, UsbNet.Receiving, Wrote;
    net.usb.Apart();
    net.usb.DataApart({r.buf}, net.usb.pool - {r.buf});
    Fill(r, body);
    net.usb.HeldWritten(r.buf);
  }

  /** snprintf of the size, which leaves a NUL behind the carriage return, and the three stores after it */
  method WriteFrame(data: array<byte>, at: nat, size: nat, ghost body: seq<byte>)
    requires size == |body| + CHUNK_HEADER + CHUNK_TRAILER && at + size <= data.Length
    requires data[at + CHUNK_HEADER..at + CHUNK_HEADER + |body|] == body
    modifies data
    ensures data[at..at + size] == C.Chunk(body)
    ensures OnlyChanged(data, at, at + size)
  {
    hide C.Hex, Overlaid;
    ghost var was: seq<byte> := data[..];
    var digits := C.Hex(size - CHUNK_HEADER - CHUNK_TRAILER, 8);
    Store(data, at, digits + [C.CR, 0]);
    ghost var stored: seq<byte> := data[..];
    data[at + 9] := C.LF;
    data[at + size - 2] := C.CR;
    data[at + size - 1] := C.LF;
    Framed(was, at, size, digits, body);
    assert data[..] == stored[at + 9 := C.LF][at + size - 2 := C.CR][at + size - 1 := C.LF];
    assert data[at..at + size] == data[..][at..at + size];
  }

  /** The four stores leave the frame around the body, and all else as it was. */
  lemma Framed(was: seq<byte>, at: nat, size: nat, digits: seq<byte>, body: seq<byte>)
    requires |digits| == 8 && size == |body| + 12 && at + size <= |was|
    requires was[at + 10..at + 10 + |body|] == body
    ensures var s := Overlaid(was, at, digits + [C.CR, 0]);
            var t := s[at + 9 := C.LF][at + size - 2 := C.CR][at + size - 1 := C.LF];
            && t[at..at + size] == digits + [C.CR, C.LF] + body + [C.CR, C.LF]
            && forall i :: 0 <= i < |was| && !(at <= i < at + size) ==> t[i] == was[i]
  {
    var s := Overlaid(was, at, digits + [C.CR, 0]);
    var t := s[at + 9 := C.LF][at + size - 2 := C.CR][at + size - 1 := C.LF];
    assert t[at..at + 8] == digits && t[at + 8..at + 10] == [C.CR, C.LF];
    assert t[at + 10..at + 10 + |body|] == body && t[at + 10 + |body|..at + size] == [C.CR, C.LF];
    assert t[at..at + size]
             == t[at..at + 8] + t[at + 8..at + 10] + t[at + 10..at + 10 + |body|] + t[at + 10 + |body|..at + size];
  }

  method FrameChunk(net: Stack, outer: Ref, ghost body: seq<byte>)
    requires net.Ready() && net.Payload(outer) && outer.DataSize() == |body| + CHUNK_HEADER + CHUNK_TRAILER
    requires outer.DataSize() <= outer.MaxSize()
    requires Slices.PayloadAt(outer.buf.data[..], HEADER_SIZE + CHUNK_HEADER, body)
    modifies outer.buf.data
    ensures net.Ready() && net.Payload(outer) && net.Filled(outer, C.Chunk(body))
    ensures net.usb.OthersKept(outer.buf)
  {
    hide UsbNet.Lists, UsbNet.Sending, UsbNet.Receiving, C.Chunk;
    net.usb.Apart();
    net.usb.DataApart({outer.buf}, net.usb.pool - {outer.buf});
    ChunkLength(body);
    assert outer.buf.data[..][HEADER_SIZE + CHUNK_HEADER..][..|body|] == body;
    WriteFrame(outer.buf.data, HEADER_SIZE, outer.DataSize(), body);
    net.usb.HeldWritten(outer.buf);
  }

  lemma ChunkLength(body: seq<byte>)
    ensures |C.Chunk(body)| == |body| + CHUNK_HEADER + CHUNK_TRAILER
  {
  }

  /** http_send_chunk */
  method SendChunk(net: Stack, conn: Conn, chunk: Ref, now: uint32, ghost body: seq<byte>)
    requires net.Ready() && conn.Valid() && conn.established
    requires ChunkSlice(net, chunk) && net.Filled(chunk, body) && |body| <= chunk.MaxSize()
    modifies conn`txSequence, conn`lastAckSent, conn`lastEvent, conn`log, net.Footprint()
    ensures net.Ready() && conn.Valid()
    ensures conn.lastEvent == now && net.Emits(conn, ACK, C.Chunk(body))
    ensures net.InStep(conn) && Payloads(conn.log) == old(Payloads(conn.log)) + C.Chunk(body)
    ensures net.usb.OthersKept(chunk.buf) && !net.Owns(chunk.buf)
  {
    hide UsbNet.Valid, Little16, Emitted, Tiled, OpensWithSyn, C.Chunk, Stack.Footprint, SegmentAt, Grown, Payloads;
    net.Outside(conn);
    net.Inside(chunk.buf);
    var outer := UncutChunk(net, chunk, body);
    assert chunk.buf.data[..][chunk.off..chunk.off + |body|] == chunk.buf.data[chunk.off..chunk.off + |body|];
    FrameChunk(net, outer, body);
    net.Send(conn, outer, now, C.Chunk(body));
  }

  /** http_send_last_chunk. Without a buffer for it, the connection is closed. */
  method SendLastChunk(net: Stack, conn: Conn, now: uint32) returns (sent: bool)
    requires net.Ready() && conn.Valid() && conn.established
    modifies conn`established, conn`rx, conn`txSequence, conn`lastAckSent, conn`lastEvent, conn`log, conn`handler,
             net.Footprint()
    ensures net.Ready() && conn.Valid()
    ensures sent <==> FirstFit(old(net.usb.freeList.nodes), 79) < |old(net.usb.freeList.nodes)|
    ensures sent ==> conn.established && conn.rx == old(conn.rx) && conn.handler == 0
    ensures sent ==> net.Emits(conn, ACK, C.LAST_CHUNK) && Payloads(conn.log) == old(Payloads(conn.log)) + C.LAST_CHUNK
    ensures !sent ==> !conn.established && conn.handler == old(conn.handler)
    ensures net.InStep(conn)
    ensures net.usb.OthersKept(null)
  {
    hide UsbNet.Valid, Little16, Emitted, Tiled, OpensWithSyn, FirstFit, Stack.Footprint, SegmentAt, Grown, Payloads;
    net.Outside(conn);
    ghost var x := Sent(conn.txSequence, C.LAST_CHUNK, ACK, conn.rxSequence, |net.usb.submitted|);
    PayloadsAppend(conn.log, x);
    sent := net.SendBytes(conn, C.LAST_CHUNK, now);
    if !sent {
      net.Close(conn, now);
      return;
    }
    label Sent:
    conn.handler := 0;
    net.usb.Undisturbed@Sent();
  }

  /** http_start_response, up to its text: a header, or with `done` a whole response. Without a buffer, the connection
      is closed. */
  method StartResponse(net: Stack, conn: Conn, text: seq<byte>, room: nat, done: bool, now: uint32) returns (sent: bool)
    requires net.Ready() && conn.Valid() && conn.established && |text| <= room
    modifies conn`established, conn`rx, conn`txSequence, conn`lastAckSent, conn`lastEvent, conn`log, conn`handler,
             net.Footprint()
    ensures net.Ready() && conn.Valid() && conn.log != []
    ensures sent <==> FirstFit(old(net.usb.freeList.nodes), room + HEADER_SIZE) < |old(net.usb.freeList.nodes)|
    ensures sent ==> conn.established && conn.rx == old(conn.rx) && net.Emits(conn, ACK, text)
                     && Payloads(conn.log) == old(Payloads(conn.log)) + text
    ensures !sent ==> conn.rx == old(conn.rx).(open := false) && Payloads(conn.log) == old(Payloads(conn.log))
    ensures conn.handler == if sent && done then 0 else old(conn.handler)
    ensures net.InStep(conn) && net.Acknowledges(conn)
    ensures net.usb.OthersKept(null)
  {
    hide UsbNet.Valid, Little16, Emitted, Tiled, OpensWithSyn, FirstFit, Stack.Footprint, SegmentAt, Grown, Payloads;
    net.Outside(conn);
    var p := net.Allocate(room);
    sent := p.To?;
    if !sent {
      net.Close(conn, now);
      return;
    }
    Respond(net, conn, p.ref, text, done, now);
  }

  method Respond(net: Stack, conn: Conn, r: Ref, text: seq<byte>, done: bool, now: uint32)
    requires net.Ready() && conn.Valid() && conn.established && net.Payload(r) && |text| <= r.MaxSize()
    modifies conn`txSequence, conn`lastAckSent, conn`lastEvent, conn`log, conn`handler, net.Footprint()
    ensures net.Ready() && conn.Valid()
    ensures net.Emits(conn, ACK, text) && Payloads(conn.log) == old(Payloads(conn.log)) + text
    ensures conn.handler == if done then 0 else old(conn.handler)
    ensures net.InStep(conn) && net.usb.OthersKept(r.buf) && !net.Owns(r.buf)
  {
    hide UsbNet.Valid, Little16, Emitted, Tiled, OpensWithSyn, FirstFit, Stack.Footprint, SegmentAt, Grown, Payloads;
    net.Outside(conn);
    net.Inside(r.buf);
    net.FillPayload(r, text);
    label Filled:
    if done {
      conn.handler := 0;
    }
    net.usb.Undisturbed@Filled();
    net.Send(conn, r, now, text);
  }
}
