/** The HTTP server of src/http.c on a connection: requests, their dispatch, and the responses that go on over many
    polls. */
module HttpServer {
  import opened Bytes
  import opened Framing
  import opened Buffers
  import opened UsbNetwork
  import opened Slices
  import opened TcpWire
  import opened TcpStream
  import opened TcpLog
  import opened Tcpip
  import opened TcpSession
  import opened Http
  import opened HttpIndex
  import C = Chunked
  import R = HttpRequest
  import S = Session

  // "/api/firmware.bin" and "/"
  const FIRMWARE_URL: seq<byte> := [47, 97, 112, 105, 47, 102, 105, 114, 109, 119, 97, 114, 101, 46, 98, 105, 110]
  const INDEX_URL: seq<byte> := [47]

  /** What the model does not determine about a callback: what lies behind the payload in memory, the text of the
      response, if one begins, and how long its body is. */
  datatype Surroundings = Surroundings(behind: seq<byte>, text: seq<byte>, bodyLen: nat) {
    predicate Valid() {
      R.Stopper(behind) && |text| <= 256
    }
  }

  /** The handler in the context of an open connection is one of the two states that the handlers leave. */
  ghost predicate Sound(conn: Conn)
    reads conn
  {
    conn.established ==>
      conn.handler == 0 || (conn.handler == FIRMWARE && BASE <= conn.position <= BASE + IMAGE)
  }

  // ---------- requests ----------

  /** The parser at work on a payload of the network stack. */
  method ParsePayload(net: Stack, r: Ref, behind: seq<byte>) returns (outcome: R.Outcome)
    requires net.Ready() && net.Payload(r) && net.WithinBounds(r) && R.Stopper(behind)
    modifies r.buf.data
    ensures net.Ready() && net.Payload(r) && net.WithinBounds(r)
    ensures (R.Memory(r.buf.data, behind), outcome) == old(R.ParseIn(r.buf.data, behind, r.off, r.off + r.DataSize()))
    ensures net.usb.OthersKept(r.buf)
  {
    hide UsbNet.Lists, UsbNet.Sending, UsbNet.Receiving, R.Parse;
    net.usb.Apart();
    net.usb.DataApart({r.buf}, net.usb.pool - {r.buf});
    ghost var s, size := R.Memory(r.buf.data, behind), r.DataSize();
    outcome := R.HandleNewRequest(r.buf.data, behind, r.off, r.off + r.DataSize());
    R.LastIsBehind(r.buf.data, behind);
    ParsedWithin(s, r.off, r.off + size, behind);
    assert forall i :: 0 <= i < r.off ==> R.Memory(r.buf.data, behind)[i] == r.buf.data[i];
    net.usb.HeldWritten(r.buf);
  }

  lemma ParsedWithin(s: seq<byte>, start: nat, end: nat, behind: seq<byte>)
    requires start <= end <= |s| - |behind| && R.Stopper(behind) && s[|s| - 1] == behind[|behind| - 1]
    ensures var t := R.Parse(s, start, end).0; |t| == |s| && forall i :: 0 <= i < start ==> t[i] == s[i]
  {
    hide R.Parse;
    R.ParseWithin(s, start, end);
  }

  /** http_dispatch: the handler for the URL, which begins a response, or an error response. */
  method Dispatch(net: Stack, conn: Conn, url: seq<byte>, w: Surroundings, flash: Image, now: uint32)
    requires net.Ready() && conn.Valid() && conn.established && conn.handler == 0 && w.Valid()
    modifies conn`position, conn`handler, conn`established, conn`rx, conn`txSequence, conn`lastAckSent, conn`lastEvent,
             conn`log, net.Footprint()
    ensures net.Ready() && conn.Valid() && conn.log != [] && Sound(conn)
    ensures Responded(net, conn, w.text)
    ensures conn.established && url == FIRMWARE_URL ==> Downloading(conn, |Payloads(conn.log)|, flash, 0)
    ensures url == FIRMWARE_URL ==> (conn.established <==> old(net.LineOf()).Fits(RESPONSE_ROOM))
    ensures conn.established && url != FIRMWARE_URL ==> conn.handler == 0
    ensures net.usb.OthersKept(null)
  {
    hide UsbNet.Valid, Stack.Footprint, Tiled, OpensWithSyn, FirstFit, Emitted, SegmentAt, Grown, Payloads,
         Downloading;
    net.Outside(conn);
    if url == FIRMWARE_URL {
      conn.handler := FIRMWARE;
      net.usb.Undisturbed();
      FirmwareRequest(net, conn, w.text, flash, now);
    } else {
      conn.handler := if url == INDEX_URL then INDEX else 0;
      net.usb.Undisturbed();
      var sent := StartResponse(net, conn, w.text, 256 + w.bodyLen, true, now);
    }
  }

  /** A response has begun, or the connection is closed for want of a buffer. */
  twostate predicate Responded(net: Stack, conn: Conn, text: seq<byte>)
    reads conn, net.usb, net.usb.transmitQueue
  {
    && (conn.rx == old(conn.rx) || conn.rx == old(conn.rx).(open := false))
    && (conn.established ==> Payloads(conn.log) == old(Payloads(conn.log)) + text)
    && net.InStep(conn) && net.Acknowledges(conn)
  }

  /** A download begins if there is a buffer for the header of the response; otherwise the connection is closed. */
  ghost predicate Begins(conn: Conn, line: Line, flash: Image)
    reads conn
  {
    && (conn.established <==> line.Fits(RESPONSE_ROOM))
    && (conn.established ==> Downloading(conn, |Payloads(conn.log)|, flash, 0))
  }

  /** handle_new_request: an unknown method is answered, an invalid request is not. */
  method NewRequest(net: Stack, conn: Conn, r: Ref, w: Surroundings, flash: Image, now: uint32) returns (status: bool)
    requires net.Ready() && conn.Valid() && conn.established && conn.handler == 0 && w.Valid()
    requires net.Payload(r) && net.WithinBounds(r)
    modifies conn`position, conn`handler, conn`established, conn`rx, conn`txSequence, conn`lastAckSent, conn`lastEvent,
             conn`log, net.Footprint()
    ensures net.Ready() && conn.Valid() && conn.log != [] && Sound(conn) && net.Payload(r)
    ensures status <==> !old(R.ParseIn(r.buf.data, w.behind, r.off, r.off + r.DataSize())).1.Invalid?
    ensures if status then Responded(net, conn, w.text)
            else unchanged(conn) && net.usb.submitted == old(net.usb.submitted)
    ensures net.InStep(conn)
    ensures var parsed := old(R.ParseIn(r.buf.data, w.behind, r.off, r.off + r.DataSize()));
            Asks(parsed, FIRMWARE_URL) ==> Begins(conn, old(net.LineOf()), flash)
    ensures net.usb.OthersKept(r.buf)
  {
    hide UsbNet.Valid, Stack.Footprint, Tiled, OpensWithSyn, FirstFit, Emitted, SegmentAt, Grown, Payloads,
         Downloading, R.ParseIn, R.CString, Little16;
    net.Outside(conn);
    net.Inside(r.buf);
    GrownNot(net.RouteOf(conn), conn.log, net.usb.submitted);
    var outcome := ParsePayload(net, r, w.behind);
    status := !outcome.Invalid?;
    if status {
      ghost var parsed := old(R.ParseIn(r.buf.data, w.behind, r.off, r.off + r.DataSize()));
      Answer(net, conn, r, outcome, w, flash, now, parsed);
    }
  }

  /** The end of handle_new_request. */
  method Answer(net: Stack, conn: Conn, r: Ref, outcome: R.Outcome, w: Surroundings, flash: Image, now: uint32,
                ghost parsed: (seq<byte>, R.Outcome))
    requires net.Ready() && conn.Valid() && conn.established && conn.handler == 0 && w.Valid()
    requires net.Payload(r) && !outcome.Invalid? && parsed == (R.Memory(r.buf.data, w.behind), outcome)
    modifies conn`position, conn`handler, conn`established, conn`rx, conn`txSequence, conn`lastAckSent, conn`lastEvent,
             conn`log, net.Footprint()
    ensures net.Ready() && conn.Valid() && conn.log != [] && Sound(conn) && net.Payload(r)
    ensures Responded(net, conn, w.text)
    ensures Asks(parsed, FIRMWARE_URL) ==> Begins(conn, old(net.LineOf()), flash)
    ensures net.usb.OthersKept(null)
  {
    hide UsbNet.Valid, Stack.Footprint, Tiled, OpensWithSyn, FirstFit, Emitted, SegmentAt, Grown, Payloads,
         Downloading, Little16, R.CString;
    net.Outside(conn);
    ghost var contents := r.buf.data[..];
    if outcome.UnknownMethod? {
      var sent := StartResponse(net, conn, w.text, 256 + w.bodyLen, true, now);
    } else {
      Dispatch(net, conn, R.CString(R.Memory(r.buf.data, w.behind), outcome.request.url), w, flash, now);
    }
    assert r.buf.data[..] == contents;
  }

  /** The request is for this URL. */
  predicate Asks(parsed: (seq<byte>, R.Outcome), url: seq<byte>) {
    parsed.1.Parsed? && R.CString(parsed.0, parsed.1.request.url) == url
  }

  /** The case of a connection without a response in progress: the payload is parsed and released. */
  method HandleRequest(net: Stack, conn: Conn, r: Ref, w: Surroundings, flash: Image, now: uint32)
    requires net.Ready() && conn.Valid() && conn.established && conn.handler == 0 && w.Valid()
    requires net.Payload(r) && net.WithinBounds(r)
    modifies conn`position, conn`handler, conn`established, conn`rx, conn`txSequence, conn`lastAckSent, conn`lastEvent,
             conn`log, net.Footprint()
    ensures net.Ready() && conn.Valid() && conn.log != [] && Sound(conn)
    ensures net.InStep(conn) && (conn.rx == old(conn.rx) || conn.rx == old(conn.rx).(open := false))
    ensures old(R.ParseIn(r.buf.data, w.behind, r.off, r.off + r.DataSize())).1.Invalid? ==>
              !conn.established && Payloads(conn.log) == old(Payloads(conn.log))
    ensures conn.established ==> Payloads(conn.log) == old(Payloads(conn.log)) + w.text
    ensures var parsed := old(R.ParseIn(r.buf.data, w.behind, r.off, r.off + r.DataSize()));
            Asks(parsed, FIRMWARE_URL) ==> Begins(conn, old(net.LineOf()), flash)
    ensures net.usb.OthersKept(r.buf) && !net.Owns(r.buf)
  {
    hide UsbNet.Valid, Stack.Footprint, Tiled, OpensWithSyn, FirstFit, Emitted, SegmentAt, Grown, Payloads, Inserted,
         R.ParseIn, R.CString, Little16;
    net.Outside(conn);
    var status := NewRequest(net, conn, r, w, flash, now);
    net.Release(r);
    if !status {
      net.Close(conn, now);
    }
  }

  /** A request that a client words for some URL asks for it, wherever it lies in memory. */
  lemma WordedRequestAsks(s: seq<byte>, start: nat, w: R.Wording)
    requires w.Valid() && R.Laid(s, start, w.Bytes())
    requires start + |w.Bytes()| <= |s| - 4 && !R.IsSpace(s[|s| - 1])
    ensures Asks(R.Parse(s, start, start + |w.Bytes()|), w.url)
  {
    hide R.Parse, R.CString;
    R.RequestRecovered(s, start, w);
  }

  /** The bytes are a request that a client words for this URL. */
  ghost predicate RequestFor(bytes: seq<byte>, url: seq<byte>) {
    exists q: R.Wording :: q.Valid() && q.url == url && q.Bytes() == bytes
  }

  /** "GET /api/firmware.bin HTTP/1.1" and an empty line ask for the firmware. */
  lemma PlainRequest()
    ensures RequestFor([71, 69, 84, 32]
                       + [47, 97, 112, 105, 47, 102, 105, 114, 109, 119, 97, 114, 101, 46, 98, 105, 110]
                       + [32] + ([72, 84, 84, 80, 47, 49, 46, 49] + [13, 10, 13, 10]), FIRMWARE_URL)
  {
    hide R.Wording.Valid;
    var rest := [72, 84, 84, 80, 47, 49, 46, 49];
    ValidRequest(R.Get, R.None, rest, []);
    var behind := rest + [13, 10, 13, 10];
    assert behind + [] == behind;
    WordedRequest(R.Wording([], R.Get, FIRMWARE_URL, R.None, 32, rest, []), FIRMWARE_URL, behind);
  }

  /** So do "POST /api/firmware.bin?x=1 HTTP/1.1", "Host: a", an empty line, and "hi". */
  lemma PostedRequest()
    ensures RequestFor([80, 79, 83, 84, 32]
                       + ([47, 97, 112, 105, 47, 102, 105, 114, 109, 119, 97, 114, 101, 46, 98, 105, 110]
                          + ([63] + [120, 61, 49]))
                       + [32]
                       + ([72, 84, 84, 80, 47, 49, 46, 49] + [13, 10] + [72, 111, 115, 116, 58, 32, 97]
                          + [13, 10, 13, 10] + [104, 105]), FIRMWARE_URL)
  {
    hide R.Wording.Valid;
    var rest := [72, 84, 84, 80, 47, 49, 46, 49] + [13, 10] + [72, 111, 115, 116, 58, 32, 97];
    ValidRequest(R.Post, R.Some([120, 61, 49]), rest, [104, 105]);
    WordedRequest(R.Wording([], R.Post, FIRMWARE_URL, R.Some([120, 61, 49]), 32, rest, [104, 105]),
                  FIRMWARE_URL + ([63] + [120, 61, 49]), rest + [13, 10, 13, 10] + [104, 105]);
  }

  lemma ValidRequest(m: R.Method, query: R.Option<seq<byte>>, rest: seq<byte>, body: seq<byte>)
    requires query.None? || query == R.Some([120, 61, 49])
    requires forall i :: 0 <= i < |rest| - 2 ==> !(rest[i] == 13 && rest[i + 1] == 10 && rest[i + 2] == 13)
    requires rest != [] && rest[|rest| - 1] != 10 && rest[|rest| - 1] != 13 && |body| < 0x1_0000_0000
    ensures R.Wording([], m, FIRMWARE_URL, query, 32, rest, body).Valid()
  {
  }

  lemma WordedRequest(q: R.Wording, target: seq<byte>, behind: seq<byte>)
    requires q.Valid() && q.lead == [] && q.Target() == target && q.Behind() == behind
    ensures RequestFor(q.Name() + target + [q.sep] + behind, q.url)
  {
    hide R.Wording.Valid, R.Wording.Name;
    assert q.Bytes() == q.Name() + target + [q.sep] + behind;
  }

  /** And so is a payload that holds such a request. */
  lemma PayloadAsks(net: Stack, r: Ref, bytes: seq<byte>, behind: seq<byte>, url: seq<byte>)
    requires net.Payload(r) && net.Filled(r, bytes) && R.Stopper(behind) && RequestFor(bytes, url)
    ensures Asks(R.ParseIn(r.buf.data, behind, r.off, r.off + r.DataSize()), url)
  {
    hide R.Parse, R.CString, R.Wording.Valid, R.Wording.Bytes, Little16;
    var q: R.Wording :| q.Valid() && q.url == url && q.Bytes() == bytes;
    var s := R.Memory(r.buf.data, behind);
    R.LastIsBehind(r.buf.data, behind);
    forall i | 0 <= i < |bytes|
      ensures s[r.off + i] == bytes[i]
    {
      assert bytes[i] == r.buf.data[r.off..r.off + |bytes|][i];
    }
    WordedRequestAsks(s, r.off, q);
  }

  // ---------- callbacks ----------

  /** How far the download of a connection has got: nothing is known of one, or n turns have been taken of the one whose
      body begins behind the first h bytes sent. */
  datatype Stage = Unknown | Stage(h: nat, n: nat) {
    function Advanced(turn: bool): Stage {
      if Stage? && n <= PIECES && turn then Stage(h, n + 1) else this
    }
  }

  ghost predicate At(conn: Conn, flash: Image, stage: Stage)
    reads conn
  {
    stage.Stage? ==> Downloading(conn, stage.h, flash, stage.n)
  }

  /** handle_http_connection. A payload is released if and only if no response is in progress: one that arrives while a
      response is being sent stays with the callback, which has forgotten it. */
  method HandleConnection(net: Stack, conn: Conn, payload: Pointer, w: Surroundings, flash: Image, now: uint32,
                          ghost stage: Stage) returns (turn: HttpIndex.Turn, ghost next: Stage)
    requires net.Ready() && conn.Valid() && conn.log != [] && Sound(conn) && At(conn, flash, stage) && w.Valid()
    requires payload.To? ==> net.Payload(payload.ref) && net.WithinBounds(payload.ref)
    modifies conn`position, conn`handler, conn`established, conn`rx, conn`txSequence, conn`lastAckSent, conn`lastEvent,
             conn`log, net.Footprint()
    ensures net.Ready() && conn.Valid() && conn.log != [] && Sound(conn)
    ensures At(conn, flash, next) && next == stage.Advanced(!turn.Skipped?)
    ensures turn.Skipped? <==> !old(conn.established && conn.handler != 0 && MaySend(net))
    ensures net.InStep(conn) && (conn.rx == old(conn.rx) || conn.rx == old(conn.rx).(open := false))
    ensures payload.Null? || old(conn.handler) != 0 ==> conn.rx == old(conn.rx) && net.Acknowledges(conn)
    ensures payload.To? && old(conn.established && conn.handler == 0) ==>
              var r, parsed := payload.ref,
                               old(R.ParseIn(payload.ref.buf.data, w.behind, payload.ref.off,
                                             payload.ref.off + payload.ref.DataSize()));
              && (parsed.1.Invalid? ==> !conn.established)
              && (Asks(parsed, FIRMWARE_URL) ==> Begins(conn, old(net.LineOf()), flash))
    ensures payload.To? ==> (net.Owns(payload.ref.buf) <==> !old(conn.established && conn.handler == 0))
    ensures net.usb.OthersKept(if payload.To? then payload.ref.buf else null)
  {
    hide UsbNet.Valid, Stack.Footprint, Tiled, OpensWithSyn, FirstFit, Emitted, SegmentAt, Grown, Payloads, R.ParseIn,
         R.CString, Little16, Body, C.Chunk;
    net.Outside(conn);
    GrownNot(net.RouteOf(conn), conn.log, net.usb.submitted);
    turn, next := Skipped, stage;
    if conn.established {
      if conn.handler == 0 {
        if payload.To? {
          HandleRequest(net, conn, payload.ref, w, flash, now);
          PayloadsPrefix(old(conn.log), conn.log);
        }
      } else {
        turn := FirmwarePoll(net, conn, flash, now);
        PayloadsPrefix(old(conn.log), conn.log);
        next := stage.Advanced(!turn.Skipped?);
        if next != stage {
          LogGrows(old(Payloads(conn.log)), Payloads(conn.log), stage.h, flash, stage.n);
        }
      }
    }
  }

  /** handle_tcp_active for a connection to the server: data that is taken goes to the parser if no response is in
      progress, and is lost with its buffer otherwise. A request for the firmware begins a download. */
  method Segment(net: Stack, conn: Conn, packet: Buffer, w: Surroundings, flash: Image, now: uint32, ghost stage: Stage)
    returns (ghost next: Stage)
    requires net.Ready() && conn.Valid() && conn.established && Sound(conn) && At(conn, flash, stage) && w.Valid()
    requires net.Owns(packet) && packet.dataSize <= packet.MaxSize()
    requires Stack.WellFormed(packet.data[..packet.dataSize])
    modifies conn, net.Footprint()
    ensures net.Ready() && conn.Valid() && conn.log != [] && Sound(conn) && At(conn, flash, next)
    ensures net.Identity(conn) && net.InStep(conn)
    ensures var s, f := old(conn.rx), old(packet.data[..packet.dataSize]);
            var a := Stack.ArrivalOf(f);
            && conn.lastAckReceived == Get32(f, 62)
            && (conn.rx == OnSegment(s, a) || conn.rx == OnSegment(s, a).(open := false))
            && (!Takes(s, a) || old(conn.handler) != 0 ==> conn.rx == OnSegment(s, a))
            && next == stage.Advanced(Takes(s, a) && old(conn.handler != 0 && MaySend(net)))
            && (net.Owns(packet) <==> Takes(s, a) && old(conn.handler) != 0)
            && (Takes(s, a) && old(conn.handler) == 0 && RequestFor(a.payload, FIRMWARE_URL) && !a.last ==>
                  Begins(conn, old(net.LineOf()), flash))
    ensures net.usb.OthersKept(packet)
  {
    hide UsbNet.Valid, Tiled, OpensWithSyn, Get16, Get32, Stack.Footprint, Stack.Payload, FirstFit, Inserted, Grown,
         Emitted, SegmentAt, Payloads, Little16, Body, RequestFor, Begins;
    net.Outside(conn);
    GrownNot(net.RouteOf(conn), conn.log, net.usb.submitted);
    next := stage;
    ghost var a := Stack.ArrivalOf(packet.data[..packet.dataSize]);
    var control := Get16(packet.data[..packet.dataSize], 66);
    var fate, payload := net.BeginSegment(conn, packet, now);
    match fate
    case Ignored =>
    case Refused => CloseAt(net, conn, flash, now, stage);
    case Taken =>
      assert payload.To? ==> net.LineOf() == old(net.LineOf());
      next := Delivered(net, conn, payload, control, w, flash, now, stage, a.payload);
  }

  /** The rest of it for a segment whose data was taken. */
  method Delivered(net: Stack, conn: Conn, payload: Pointer, control: uint16, w: Surroundings, flash: Image,
                   now: uint32, ghost stage: Stage, ghost bytes: seq<byte>) returns (ghost next: Stage)
    requires net.Ready() && conn.Valid() && conn.established && Sound(conn) && At(conn, flash, stage) && w.Valid()
    requires payload.To? ==> net.Payload(payload.ref) && net.Filled(payload.ref, bytes)
    modifies conn, net.Footprint()
    ensures net.Ready() && conn.Valid() && conn.log != [] && Sound(conn) && At(conn, flash, next)
    ensures net.Identity(conn) && net.InStep(conn) && conn.lastAckReceived == old(conn.lastAckReceived)
    ensures var s := old(conn.rx);
            var t := if Ends(control) then s.(next := Plus(s.next, 1), open := false) else s;
            && (conn.rx == t || conn.rx == t.(open := false))
            && (payload.Null? || old(conn.handler) != 0 ==> conn.rx == t)
    ensures next == stage.Advanced(payload.To? && old(conn.handler != 0 && MaySend(net)))
    ensures payload.To? ==> (net.Owns(payload.ref.buf) <==> old(conn.handler) != 0)
    ensures payload.To? && old(conn.handler) == 0 && RequestFor(bytes, FIRMWARE_URL) && !Ends(control) ==>
              Begins(conn, old(net.LineOf()), flash)
    ensures net.usb.OthersKept(if payload.To? then payload.ref.buf else null)
  {
    hide UsbNet.Valid, Tiled, OpensWithSyn, Stack.Footprint, Stack.Payload, FirstFit, Grown, Payloads, Body, MaySend,
         R.ParseIn, Asks, RequestFor, Begins, Little16;
    net.Outside(conn);
    GrownNot(net.RouteOf(conn), conn.log, net.usb.submitted);
    next := stage;
    if payload.To? {
      if RequestFor(bytes, FIRMWARE_URL) {
        PayloadAsks(net, payload.ref, bytes, w.behind, FIRMWARE_URL);
      }
      var turn;
      turn, next := HandleConnection(net, conn, payload, w, flash, now, stage);
    }
    if Ends(control) {
      ghost var log, frames := conn.log, net.usb.submitted;
      net.EndOfStream(conn, now);
      GrownTwice(net.RouteOf(conn), old(conn.log), old(net.usb.submitted), log, frames, conn.log, net.usb.submitted);
    }
  }

  /** The connection's turn in tcp_poll. */
  method Poll(net: Stack, conn: Conn, w: Surroundings, flash: Image, now: uint32, ghost stage: Stage)
    returns (stuck: bool, ghost next: Stage)
    requires net.Ready() && conn.Valid() && conn.log != [] && Sound(conn) && At(conn, flash, stage) && w.Valid()
    modifies conn, net.Footprint()
    ensures net.Ready() && conn.Valid() && conn.log != [] && Sound(conn) && At(conn, flash, next)
    ensures next == stage.Advanced(old(conn.established && conn.handler != 0 && MaySend(net)))
    ensures net.Identity(conn) && net.InStep(conn)
    ensures stuck <==> old(conn.established && conn.lastAckSent != conn.rxSequence) && conn.log == old(conn.log)
    ensures conn.established <==>
            old(conn.established) && (stuck || !OverLimit(conn.txSequence, conn.lastAckReceived))
    ensures conn.rx == old(conn.rx).(open := conn.established) && net.usb.OthersKept(null)
  {
    hide UsbNet.Valid, Tiled, OpensWithSyn, Stack.Footprint, FirstFit, Grown, Payloads, Downloading, MaySend, OverLimit,
         R.ParseIn, Asks, Begins;
    net.Outside(conn);
    GrownNot(net.RouteOf(conn), conn.log, net.usb.submitted);
    stuck, next := false, stage;
    if conn.established {
      var turn;
      turn, next := HandleConnection(net, conn, Null, w, flash, now, stage);
      if conn.lastAckSent != conn.rxSequence {
        stuck := true;
      } else if OverLimit(conn.txSequence, conn.lastAckReceived) {
        ghost var log, frames := conn.log, net.usb.submitted;
        CloseAt(net, conn, flash, now, next);
        GrownTwice(net.RouteOf(conn), old(conn.log), old(net.usb.submitted), log, frames, conn.log, net.usb.submitted);
      }
    }
  }

  /** tcpip_close, wherever a download has got to. */
  method CloseAt(net: Stack, conn: Conn, flash: Image, now: uint32, ghost stage: Stage)
    requires net.Ready() && conn.Valid() && conn.log != [] && At(conn, flash, stage)
    modifies conn`established, conn`rx, conn`txSequence, conn`lastAckSent, conn`lastEvent, conn`log, net.Footprint()
    ensures net.Ready() && conn.Valid() && conn.log != [] && !conn.established && At(conn, flash, stage)
    ensures conn.rx == old(conn.rx).(open := false) && conn.txSequence == old(conn.txSequence)
    ensures net.InStep(conn) && net.usb.OthersKept(null)
  {
    hide UsbNet.Valid, Tiled, OpensWithSyn, Stack.Footprint, FirstFit, Grown, Payloads, Body, Emitted, SegmentAt,
         Without;
    net.Outside(conn);
    net.Close(conn, now);
  }

  // ---------- whole downloads ----------

  datatype Step =
    | Receive(w: Surroundings, now: uint32)
    | TcpPoll(w: Surroundings, now: uint32)
    | Elsewhere(e: S.Event)
  {
    predicate Valid() {
      !Elsewhere? ==> w.Valid()
    }
  }

  /** A download over any schedule of polls, with frames of the client (acknowledgements, further data, the end of its
      stream) and anything else going on in between: what has been sent is the encoding of the pieces before the
      current position, in frames that were really given to the network, and a complete body is read as the image. */
  method Download(net: Stack, conn: Conn, ghost h: nat, flash: Image, schedule: seq<Step>)
    returns (stuck: bool, ghost n: nat)
    requires net.Ready() && conn.Valid() && conn.log != [] && Sound(conn) && Downloading(conn, h, flash, 0)
    requires net.Recorded(conn) && forall i :: 0 <= i < |schedule| ==> schedule[i].Valid()
    modifies conn, S.Objects(net.usb)
    ensures net.Ready() && conn.Valid() && Downloading(conn, h, flash, n) && net.Recorded(conn)
    ensures n == PIECES + 1 ==>
              C.Decode(Payloads(conn.log)[h..])
                == C.Message(Pieces(flash, PIECES), Payloads(conn.log)[h + |Body(flash, PIECES + 1)|..])
  {
    hide UsbNet.Valid, Conn.Valid, Sound, Stack.Footprint, S.Objects, Downloading, C.Decode, TcpLog.Recorded;
    Apart(net, conn);
    stuck, n := false, 0;
    for i := 0 to |schedule|
      invariant net.Ready() && conn.Valid() && conn.log != [] && Sound(conn) && Downloading(conn, h, flash, n)
      invariant net.Recorded(conn)
    {
      stuck, n := TakeStep(net, conn, h, flash, schedule[i], n);
      if stuck {
        break;
      }
    }
    if n == PIECES + 1 {
      CompleteBody(conn, h, flash);
    }
    DownloadBound(conn, h, flash, n);
  }

  lemma DownloadBound(conn: Conn, h: nat, flash: Image, n: nat)
    requires Downloading(conn, h, flash, n)
    ensures h <= |Payloads(conn.log)| && n <= PIECES + 1
    ensures n == PIECES + 1 ==> h + |Body(flash, PIECES + 1)| <= |Payloads(conn.log)|
  {
  }

  /** While the link is down, tcpip_poll does nothing. */
  method TakeStep(net: Stack, conn: Conn, ghost h: nat, flash: Image, step: Step, ghost n: nat)
    returns (stuck: bool, ghost m: nat)
    requires net.Ready() && conn.Valid() && conn.log != [] && Sound(conn) && Downloading(conn, h, flash, n)
    requires net.Recorded(conn) && step.Valid()
    modifies conn, S.Objects(net.usb)
    ensures net.Ready() && conn.Valid() && conn.log != [] && Sound(conn) && Downloading(conn, h, flash, m)
    ensures net.Recorded(conn)
    ensures step.Receive? ==> OneTaken(net.usb)
    ensures step.Receive? ==>
              && !stuck && n <= m <= n + 1
              && if Reached(net, conn) then HearsLast(net, conn) else unchanged(conn) && m == n
    ensures step.TcpPoll? ==>
              && m == (if n <= PIECES && old(net.usb.connected && conn.established && MaySend(net)) then n + 1 else n)
              && (stuck <==> old(net.usb.connected && conn.established && conn.lastAckSent != conn.rxSequence)
                             && conn.log == old(conn.log))
              && (conn.established <==>
                  old(conn.established)
                  && (!old(net.usb.connected) || stuck || !OverLimit(conn.txSequence, conn.lastAckReceived)))
    ensures step.Elsewhere? ==> !stuck && m == n && unchanged(conn)
  {
    hide UsbNet.Valid, Tiled, OpensWithSyn, S.Objects, Payloads, Stack.Footprint, FirstFit, TcpLog.Recorded, Grown,
         OverLimit, Deframe, Body, HearsLast;
    Apart(net, conn);
    ghost var v, submitted := ViewOf(net, conn), net.usb.submitted;
    stuck, m := false, n;
    match step
    case Receive(w, now) =>
      if net.usb.connected {
        m := ReceiveFrame(net, conn, h, flash, w, now, n);
      }
    case TcpPoll(w, now) =>
      if net.usb.connected {
        ghost var next;
        stuck, next := Poll(net, conn, w, flash, now, Stage(h, n));
        m := next.n;
        RecordedGrown(v.route, v.log, submitted, conn.log, net.usb.submitted);
      }
    case Elsewhere(e) =>
      Meanwhile(net, e);
      RecordedStays(v.route, v.log, submitted, net.usb.submitted);
  }

  method ReceiveFrame(net: Stack, conn: Conn, ghost h: nat, flash: Image, w: Surroundings, now: uint32, ghost n: nat)
    returns (ghost m: nat)
    requires net.Ready() && conn.Valid() && conn.log != [] && Sound(conn) && Downloading(conn, h, flash, n)
    requires net.Recorded(conn) && w.Valid()
    modifies conn, S.Objects(net.usb)
    ensures net.Ready() && conn.Valid() && conn.log != [] && Sound(conn) && Downloading(conn, h, flash, m)
    ensures net.Recorded(conn)
    ensures |TakenFrames(net.usb)|
              == |old(TakenFrames(net.usb))| + if old(net.usb.received.nodes) != [] then 1 else 0
    ensures n <= m <= n + 1 && if Reached(net, conn) then HearsLast(net, conn) else unchanged(conn) && m == n
  {
    hide UsbNet.Valid, Tiled, OpensWithSyn, S.Objects, Payloads, Stack.Footprint, FirstFit, TcpLog.Recorded, Grown,
         Trimmed, Get16, Get32, Deframe, Body, OnSegment, MaySend, Begins, RequestFor;
    Apart(net, conn);
    ghost var v, submitted := ViewOf(net, conn), net.usb.submitted;
    m := n;
    var packet;
    ghost var frame;
    packet, frame := NextSegment(net, conn);
    if packet != null {
      ghost var next := Segment(net, conn, packet, w, flash, now, Stage(h, n));
      m := next.n;
      RecordedGrown(v.route, v.log, submitted, conn.log, net.usb.submitted);
    } else {
      RecordedStays(v.route, v.log, submitted, net.usb.submitted);
    }
  }

  /** From the frame with the request to the last chunk: on an open connection without a response in progress, a request
      for the firmware that continues the stream is answered by the header and then, over any schedule, by the pieces of
      the image, if there is a buffer for the header; otherwise the connection is closed. */
  method RequestThenDownload(net: Stack, conn: Conn, packet: Buffer, w: Surroundings, flash: Image, now: uint32,
                             schedule: seq<Step>) returns (begun: bool, stuck: bool, ghost h: nat, ghost n: nat)
    requires net.Ready() && conn.Valid() && conn.established && conn.handler == 0 && net.Recorded(conn) && w.Valid()
    requires net.Owns(packet) && packet.dataSize <= packet.MaxSize()
    requires Stack.WellFormed(packet.data[..packet.dataSize])
    requires var a := Stack.ArrivalOf(packet.data[..packet.dataSize]);
             a.sequence == conn.rxSequence && !a.last && RequestFor(a.payload, FIRMWARE_URL)
    requires forall i :: 0 <= i < |schedule| ==> schedule[i].Valid()
    modifies conn, S.Objects(net.usb)
    ensures net.Ready() && conn.Valid() && net.Recorded(conn)
    ensures begun <==> old(net.LineOf()).Fits(RESPONSE_ROOM)
    ensures !begun ==> !conn.established
    ensures begun ==> Downloading(conn, h, flash, n)
    ensures begun && n == PIECES + 1 ==>
              C.Decode(Payloads(conn.log)[h..])
                == C.Message(Pieces(flash, PIECES), Payloads(conn.log)[h + |Body(flash, PIECES + 1)|..])
  {
    hide UsbNet.Valid, Tiled, OpensWithSyn, S.Objects, Payloads, Stack.Footprint, FirstFit, TcpLog.Recorded, Grown,
         Get16, Get32, Body, OnSegment, MaySend, RequestFor, Pieces, C.Decode, C.Encoded;
    Apart(net, conn);
    ghost var v, submitted := ViewOf(net, conn), net.usb.submitted;
    RequestNotEmpty(Stack.ArrivalOf(packet.data[..packet.dataSize]).payload, FIRMWARE_URL);
    ghost var next := Segment(net, conn, packet, w, flash, now, Unknown);
    RecordedGrown(v.route, v.log, submitted, conn.log, net.usb.submitted);
    begun, stuck, h, n := conn.established, false, |Payloads(conn.log)|, 0;
    if begun {
      stuck, n := Download(net, conn, h, flash, schedule);
    }
  }

  lemma RequestNotEmpty(bytes: seq<byte>, url: seq<byte>)
    requires RequestFor(bytes, url)
    ensures bytes != []
  {
    var q: R.Wording :| q.Valid() && q.url == url && q.Bytes() == bytes;
    assert |q.Bytes()| > |q.Behind()|;
  }
}
