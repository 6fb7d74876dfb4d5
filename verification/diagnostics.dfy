/** The echo, discard and character generator services of src/tcpip_diagnostics.c (RFC 862, RFC 863, RFC 864). */
module Diagnostics {
  import opened Bytes
  import opened Framing
  import opened Buffers
  import opened UsbNetwork
  import opened Slices
  import opened TcpWire
  import opened TcpStream
  import opened TcpLog
  import opened Tcpip
  import opened TcpSession
  import S = Session

  /** What one turn of the main loop may bring to a connection: a frame, a poll, or anything that happens elsewhere. */
  datatype Turn = Receive(now: uint32) | Poll(now: uint32) | Elsewhere(e: S.Event)

  // ---------- echo ----------

  /** echo_callback */
  method EchoCallback(net: Stack, conn: Conn, payload: Pointer, now: uint32, ghost bytes: seq<byte>)
    requires net.Ready() && conn.Valid() && conn.established
    requires payload.To? ==> net.Payload(payload.ref) && net.Filled(payload.ref, bytes)
    modifies conn`txSequence, conn`lastAckSent, conn`lastEvent, conn`log, net.Footprint()
    ensures net.Ready() && conn.Valid()
    ensures payload.To? ==> net.Emits(conn, ACK, bytes) && Payloads(conn.log) == old(Payloads(conn.log)) + bytes
    ensures payload.Null? ==> unchanged(conn) && net.usb.submitted == old(net.usb.submitted)
    ensures net.InStep(conn)
    ensures net.usb.OthersKept(if payload.To? then payload.ref.buf else null)
    ensures payload.To? ==> !net.Owns(payload.ref.buf)
  {
    hide UsbNet.Valid, Stack.Payload, Stack.Filled, Stack.Footprint, Tiled, OpensWithSyn, Grown, Emitted, SegmentAt,
         Payloads;
    GrownNot(net.RouteOf(conn), conn.log, net.usb.submitted);
    if payload.To? {
      net.Send(conn, payload.ref, now, bytes);
    }
  }

  /** The connection has sent back exactly what it was given, and acknowledged all of it. */
  ghost predicate Echoes(conn: Conn)
    reads conn
  {
    Payloads(conn.log) == conn.rx.delivered && (conn.established ==> conn.lastAckSent == conn.rxSequence)
  }

  /** handle_tcp_active for a connection to the echo port. Data that continues the stream comes back at once, in a
      frame of its own that acknowledges it, and the buffer of the segment is given up in any case. */
  method EchoSegment(net: Stack, conn: Conn, packet: Buffer, now: uint32)
    requires net.Ready() && conn.Valid() && conn.established
    requires net.Owns(packet) && packet.dataSize <= packet.MaxSize()
    requires Stack.WellFormed(packet.data[..packet.dataSize])
    modifies conn, net.Footprint()
    ensures net.Ready() && conn.Valid() && conn.log != []
    ensures conn.rx == OnSegment(old(conn.rx), Stack.ArrivalOf(old(packet.data[..packet.dataSize])))
    ensures net.Identity(conn) && net.InStep(conn)
    ensures var a, s := Stack.ArrivalOf(old(packet.data[..packet.dataSize])), old(conn.rx);
              a.payload != [] && !Resend(s, a) && !Ahead(s, a) ==>
                && |old(net.usb.submitted)| < |net.usb.submitted|
                && EchoOf(net.usb.submitted[|old(net.usb.submitted)|], a.payload, old(conn.txSequence),
                          Plus(s.next, |a.payload|))
    ensures old(Echoes(conn)) ==> Echoes(conn)
    ensures net.usb.OthersKept(packet) && !net.Owns(packet)
  {
    hide UsbNet.Valid, Tiled, OpensWithSyn, Get16, Get32, Stack.Footprint, Stack.Payload, Stack.Filled, FirstFit,
         Inserted, Grown, Emitted, SegmentAt, EchoOf, Payloads, Little16;
    net.Outside(conn);
    GrownNot(net.RouteOf(conn), conn.log, net.usb.submitted);
    ghost var a := Stack.ArrivalOf(packet.data[..packet.dataSize]);
    var control := Get16(packet.data[..packet.dataSize], 66);
    var fate, payload := net.BeginSegment(conn, packet, now);
    match fate
    case Ignored =>
    case Refused => net.Close(conn, now);
    case Taken => EchoDelivered(net, conn, packet, payload, control, now, a.payload);
  }

  /** The rest of it for a segment whose data was taken. */
  method EchoDelivered(net: Stack, conn: Conn, packet: Buffer, payload: Pointer, control: uint16, now: uint32,
                       ghost bytes: seq<byte>)
    requires net.Ready() && conn.Valid() && conn.established
    requires if bytes == [] then payload == Null && !net.Owns(packet)
             else payload == To(Ref(packet, HEADER_SIZE)) && net.Payload(payload.ref) && net.Filled(payload.ref, bytes)
    modifies conn, net.Footprint()
    ensures net.Ready() && conn.Valid() && conn.log != []
    ensures var s := old(conn.rx); conn.rx == if Ends(control) then s.(next := Plus(s.next, 1), open := false) else s
    ensures net.Identity(conn) && net.InStep(conn)
    ensures bytes != [] ==>
              && |old(net.usb.submitted)| < |net.usb.submitted|
              && EchoOf(net.usb.submitted[|old(net.usb.submitted)|], bytes, old(conn.txSequence), old(conn.rxSequence))
    ensures Payloads(conn.log) == old(Payloads(conn.log)) + bytes
    ensures conn.established ==> conn.lastAckSent == if bytes == [] then old(conn.lastAckSent) else conn.rxSequence
    ensures net.usb.OthersKept(packet) && !net.Owns(packet)
  {
    hide UsbNet.Valid, Tiled, OpensWithSyn, Stack.Footprint, Stack.Payload, Stack.Filled, Grown, Emitted, SegmentAt,
         EchoOf, Payloads;
    net.Outside(conn);
    assert Payloads(conn.log) + [] == Payloads(conn.log);
    ghost var x := Sent(conn.txSequence, bytes, ACK, conn.rxSequence, |net.usb.submitted|);
    EchoFields(net.RouteOf(conn), x);
    EchoCallback(net, conn, payload, now, bytes);
    if Ends(control) {
      ghost var log, frames := conn.log, net.usb.submitted;
      net.EndOfStream(conn, now);
      GrownTwice(net.RouteOf(conn), old(conn.log), old(net.usb.submitted), log, frames, conn.log, net.usb.submitted);
    }
  }

  /** What the peer finds in the echoed frame. */
  ghost predicate EchoOf(f: seq<byte>, data: seq<byte>, sequence: uint32, ack: uint32) {
    && |f| == HEADER_SIZE + |data| && f[HEADER_SIZE..] == data
    && Get16(f, 18) == |f| - PAYLOAD_AT && Get32(f, 58) == sequence && Get32(f, 62) == ack
  }

  lemma EchoFields(r: Route, x: Sent)
    requires x.control == ACK
    ensures SegmentAt(r, x).Valid() ==> EchoOf(Emitted(SegmentAt(r, x)), x.payload, x.sequence, x.ack)
  {
    hide Emitted;
    if SegmentAt(r, x).Valid() {
      EmittedFields(SegmentAt(r, x));
    }
  }

  /** A connection's turn in tcp_poll. An echo connection never reaches the call with a null pointer. */
  method EchoPoll(net: Stack, conn: Conn, now: uint32)
    requires net.Ready() && conn.Valid() && conn.log != [] && Echoes(conn)
    modifies conn, net.Footprint()
    ensures net.Ready() && conn.Valid() && conn.log != [] && Echoes(conn)
    ensures conn.established <==> old(conn.established && !OverLimit(conn.txSequence, conn.lastAckReceived))
    ensures conn.rx == old(conn.rx) || conn.rx == old(conn.rx).(open := false)
    ensures net.Identity(conn) && net.InStep(conn) && net.usb.OthersKept(null)
  {
    hide UsbNet.Valid, Tiled, OpensWithSyn, Stack.Footprint, Grown, Emitted, SegmentAt, Payloads, OverLimit, FirstFit;
    net.Outside(conn);
    GrownNot(net.RouteOf(conn), conn.log, net.usb.submitted);
    if conn.established {
      EchoCallback(net, conn, Null, now, []);
      assert conn.lastAckSent == conn.rxSequence;
      if OverLimit(conn.txSequence, conn.lastAckReceived) {
        net.Close(conn, now);
      }
    }
  }

  /** Over any schedule, an echo connection has sent back what it was given: what the frames of its peer make of the
      stream, and in frames that were really given to the network. It forgets nothing of it, and keeps no buffer. */
  method EchoAll(net: Stack, conn: Conn, schedule: seq<Turn>, ghost h: History) returns (ghost h': History)
    requires net.Ready() && conn.Valid() && conn.log != [] && Echoes(conn) && net.usb.NoneHeld()
    requires Accounted(ViewOf(net, conn), h, TakenFrames(net.usb), net.usb.submitted)
    modifies conn, S.Objects(net.usb)
    ensures net.Ready() && conn.Valid() && Echoes(conn) && net.usb.NoneHeld()
    ensures Accounted(ViewOf(net, conn), h', TakenFrames(net.usb), net.usb.submitted)
    ensures GoesOn(old(ViewOf(net, conn)), h, ViewOf(net, conn), h', |old(TakenFrames(net.usb))|)
  {
    hide UsbNet.Valid, Conn.Valid, Echoes, Deframe, S.Objects, Accounted, Stack.Footprint, GoesOn;
    Apart(net, conn);
    h' := h;
    GoesNowhere(ViewOf(net, conn), h, |TakenFrames(net.usb)|);
    for i := 0 to |schedule|
      invariant net.Ready() && conn.Valid() && conn.log != [] && Echoes(conn) && net.usb.NoneHeld()
      invariant Accounted(ViewOf(net, conn), h', TakenFrames(net.usb), net.usb.submitted)
      invariant GoesOn(old(ViewOf(net, conn)), h, ViewOf(net, conn), h', |old(TakenFrames(net.usb))|)
      invariant old(TakenFrames(net.usb)) <= TakenFrames(net.usb)
    {
      ghost var v, h1, n := ViewOf(net, conn), h', |TakenFrames(net.usb)|;
      h' := EchoTurn(net, conn, schedule[i], h');
      GoesOnTwice(old(ViewOf(net, conn)), h, v, h1, ViewOf(net, conn), h', |old(TakenFrames(net.usb))|, n);
    }
  }

  /** While the link is down, tcpip_poll does nothing. */
  method EchoTurn(net: Stack, conn: Conn, turn: Turn, ghost h: History) returns (ghost h': History)
    requires net.Ready() && conn.Valid() && conn.log != [] && Echoes(conn) && net.usb.NoneHeld()
    requires Accounted(ViewOf(net, conn), h, TakenFrames(net.usb), net.usb.submitted)
    modifies conn, S.Objects(net.usb)
    ensures net.Ready() && conn.Valid() && conn.log != [] && Echoes(conn) && net.usb.NoneHeld()
    ensures Accounted(ViewOf(net, conn), h', TakenFrames(net.usb), net.usb.submitted)
    ensures GoesOn(old(ViewOf(net, conn)), h, ViewOf(net, conn), h', |old(TakenFrames(net.usb))|)
    ensures old(TakenFrames(net.usb)) <= TakenFrames(net.usb)
    ensures turn.Receive? ==> OneTaken(net.usb)
    ensures h.History? && h' == if turn.Receive? && Reached(net, conn)
                                then Hears(h, Heard(|old(TakenFrames(net.usb))|, Stack.ArrivalOf(LastFrame(net.usb))))
                                else h
    ensures turn.Poll? && old(net.usb.connected) ==>
              (conn.established <==> old(conn.established && !OverLimit(conn.txSequence, conn.lastAckReceived)))
  {
    hide UsbNet.Valid, Tiled, OpensWithSyn, Deframe, S.Objects, Accounted, Stack.Footprint, Payloads, Grown,
         OverLimit, GoesOn, Echoes, Trimmed;
    AccountedSome(ViewOf(net, conn), h, TakenFrames(net.usb), net.usb.submitted);
    Apart(net, conn);
    ghost var v, frames, submitted := ViewOf(net, conn), TakenFrames(net.usb), net.usb.submitted;
    h' := h;
    GoesNowhere(v, h, |frames|);
    AccountedStays(v, h, frames, submitted, frames, submitted);
    match turn
    case Receive(now) =>
      if net.usb.connected {
        h' := EchoFrame(net, conn, now, h);
      }
    case Poll(now) =>
      if net.usb.connected {
        EchoPoll(net, conn, now);
        AccountedChanges(v, ViewOf(net, conn), h, frames, submitted, net.usb.submitted);
      }
    case Elsewhere(e) =>
      Meanwhile(net, e);
      AccountedStays(v, h, frames, submitted, TakenFrames(net.usb), net.usb.submitted);
  }

  method EchoFrame(net: Stack, conn: Conn, now: uint32, ghost h: History) returns (ghost h': History)
    requires net.Ready() && conn.Valid() && conn.log != [] && Echoes(conn) && net.usb.NoneHeld()
    requires Accounted(ViewOf(net, conn), h, TakenFrames(net.usb), net.usb.submitted)
    modifies conn, S.Objects(net.usb)
    ensures net.Ready() && conn.Valid() && conn.log != [] && Echoes(conn) && net.usb.NoneHeld()
    ensures Accounted(ViewOf(net, conn), h', TakenFrames(net.usb), net.usb.submitted)
    ensures GoesOn(old(ViewOf(net, conn)), h, ViewOf(net, conn), h', |old(TakenFrames(net.usb))|)
    ensures old(TakenFrames(net.usb)) <= TakenFrames(net.usb)
    ensures |TakenFrames(net.usb)|
              == |old(TakenFrames(net.usb))| + if old(net.usb.received.nodes) != [] then 1 else 0
    ensures h.History? && h' == if Reached(net, conn)
                                then Hears(h, Heard(|old(TakenFrames(net.usb))|, Stack.ArrivalOf(LastFrame(net.usb))))
                                else h
  {
    hide UsbNet.Valid, Tiled, OpensWithSyn, Deframe, S.Objects, Accounted, Stack.Footprint, Payloads, Grown, Trimmed,
         Get16, Get32, OnSegment, EchoOf, GoesOn;
    AccountedSome(ViewOf(net, conn), h, TakenFrames(net.usb), net.usb.submitted);
    Apart(net, conn);
    ghost var v, frames, submitted := ViewOf(net, conn), TakenFrames(net.usb), net.usb.submitted;
    h' := h;
    var packet;
    ghost var frame;
    packet, frame := NextSegment(net, conn);
    if packet != null {
      EchoSegment(net, conn, packet, now);
      ghost var x := Heard(|frames|, Stack.ArrivalOf(Trimmed(frame)));
      AccountedHears(v, ViewOf(net, conn), h, x, frames, submitted, net.usb.submitted, []);
      h' := Hears(h, x);
      assert Brings(v.route, x, frames + [frame]);
    } else {
      GoesNowhere(v, h, |frames|);
      AccountedStays(v, h, frames, submitted, TakenFrames(net.usb), net.usb.submitted);
    }
  }

  // ---------- discard ----------

  /** discard_callback */
  method DiscardCallback(net: Stack, payload: Pointer)
    requires net.Ready()
    requires payload.To? ==> net.Payload(payload.ref)
    modifies net.Footprint()
    ensures net.Ready() && net.usb.submitted == old(net.usb.submitted)
    ensures payload.To? ==> net.usb.freeList.nodes == Inserted(old(net.usb.freeList.nodes), payload.ref.buf)
  {
    hide UsbNet.Valid, Stack.Payload, Stack.Footprint, Inserted;
    if payload.To? {
      net.Release(payload.ref);
    }
  }

  /** A discarded segment is never acknowledged: the first poll after it reaches the call that unslices NULL. */
  method DiscardThenPoll(net: Stack, conn: Conn, packet: Buffer, now: uint32) returns (stuck: bool)
    requires net.Ready() && conn.Valid() && conn.established && conn.lastAckSent == conn.rxSequence
    requires net.Owns(packet) && packet.dataSize <= packet.MaxSize()
    requires Stack.WellFormed(packet.data[..packet.dataSize])
    requires var a := Stack.ArrivalOf(packet.data[..packet.dataSize]);
             0 < |a.payload| < MODULUS && a.sequence == conn.rxSequence && !a.last
    modifies conn, net.Footprint()
    ensures stuck
  {
    hide UsbNet.Valid, Stack.Payload, Stack.Filled, Stack.Footprint, Tiled, OpensWithSyn, Inserted, UsbNet.OthersKept,
         OverLimit, Get16, Get32, Grown;
    net.Outside(conn);
    var fate, payload := net.BeginSegment(conn, packet, now);
    assert conn.rxSequence != conn.lastAckSent;
    DiscardCallback(net, payload);
    stuck := net.PollConnection(conn, [], now);
  }

  // ---------- character generator ----------

  const LINE := 74   // 72 characters, carriage return, line feed

  /** Position in the cycle of the 95 printing characters. */
  function Phase(x: nat): (p: nat)
    ensures p < 95
  {
    x % 95
  }

  lemma PhaseStep(x: nat)
    ensures Phase(x + 1) == if Phase(x) == 94 then 0 else Phase(x) + 1
  {
  }

  lemma LineStep(k: nat)
    ensures if k % LINE == LINE - 1 then (k + 1) % LINE == 0 && (k + 1) / LINE == k / LINE + 1
            else (k + 1) % LINE == k % LINE + 1 && (k + 1) / LINE == k / LINE
  {
  }

  /** Byte k of the stream (RFC 864): line k / 74 starts one character further than the line before it. */
  function CharAt(k: nat): byte {
    var n, c := k / LINE, k % LINE;
    if c < 72 then 32 + Phase(1 + n + c) else if c == 72 then 13 else 10
  }

  /** The pattern of RFC 864: lines of 72 characters, carriage return and line feed; the first one has the characters 33
      to 104, and from one character to the next, and from one line to the next, the code goes up by one, from 126 to
      32. */
  lemma PatternOfLines(k: nat)
    ensures k < 72 ==> CharAt(k) == 33 + k
    ensures k % 74 == 72 ==> CharAt(k) == 13
    ensures k % 74 == 73 ==> CharAt(k) == 10
    ensures k % 74 < 71 ==> CharAt(k + 1) == if CharAt(k) == 126 then 32 else CharAt(k) + 1
    ensures k % 74 < 72 ==> CharAt(k + 74) == if CharAt(k) == 126 then 32 else CharAt(k) + 1
  {
    var n, c := k / LINE, k % LINE;
    LineStep(k);
    NextLine(k);
    PhaseStep(1 + n + c);
    hide Phase;
    if k < 72 {
      SmallPhase(k);
    }
  }

  lemma NextLine(k: nat)
    ensures (k + 74) / 74 == k / 74 + 1 && (k + 74) % 74 == k % 74
  {
  }

  lemma SmallPhase(k: nat)
    requires k < 72
    ensures k / LINE == 0 && k % LINE == k && Phase(1 + k) == 1 + k
  {
  }

  function Stream(from: nat, n: nat): (s: seq<byte>)
    ensures |s| == n
  {
    if n == 0 then [] else Stream(from, n - 1) + [CharAt(from + n - 1)]
  }

  lemma {:induction false} StreamConcat(a: nat, m: nat, n: nat)
    ensures Stream(a, m) + Stream(a + m, n) == Stream(a, m + n)
  {
    if n > 0 {
      StreamConcat(a, m, n - 1);
      assert Stream(a, m) + Stream(a + m, n) == Stream(a, m) + Stream(a + m, n - 1) + [CharAt(a + m + n - 1)];
    } else {
      assert Stream(a, m) + [] == Stream(a, m);
    }
  }

  /** Seen as a whole, the stream is the closed form at every position. */
  lemma {:induction false} StreamAt(n: nat, k: nat)
    requires k < n
    ensures Stream(0, n)[k] == CharAt(k)
  {
    if k < n - 1 {
      StreamAt(n - 1, k);
    }
  }

  /** The static variables of chargen_callback. */
  class Generator {
    var charPhase: nat
    var linePhase: nat
    var linepos: nat
    ghost var produced: nat   // bytes generated since the last reset

    /** The three counters are determined by the number of bytes produced. */
    ghost predicate Valid()
      reads this
    {
      At(produced / LINE, produced % LINE)
    }

    /** The counters in front of column c of line n. */
    ghost predicate At(n: nat, c: nat)
      reads this
    {
      linepos == c && linePhase == Phase(2 + n) && charPhase == Phase(1 + n + Min(c, 72))
    }

    constructor ()
      ensures Valid() && produced == 0
    {
      charPhase, linePhase, linepos, produced := 1, 2, 0, 0;
    }

    /** One turn of the loop. */
    method Next() returns (b: byte)
      requires Valid()
      modifies this
      ensures Valid() && produced == old(produced) + 1
      ensures b == CharAt(old(produced))
    {
      hide Phase;
      LineStep(produced);
      b := Generate(produced / LINE, produced % LINE);
      produced := produced + 1;
    }

    /** The body of the loop in column c of line n. */
    method Generate(ghost n: nat, ghost c: nat) returns (b: byte)
      requires At(n, c) && c < LINE
      modifies this
      ensures if c == LINE - 1 then At(n + 1, 0) else At(n, c + 1)
      ensures b == if c < 72 then 32 + Phase(1 + n + c) else if c == 72 then 13 else 10
      ensures produced == old(produced)
    {
      hide Phase;
      PhaseStep(1 + n + c);
      PhaseStep(2 + n);
      linepos := linepos + 1;
      if linepos <= 72 {
        b := 32 + charPhase;
        charPhase := charPhase + 1;
        if charPhase == 95 {
          charPhase := 0;
        }
      } else if linepos == 73 {
        b := 13;
      } else {
        b := 10;
        linepos := 0;
        charPhase := linePhase;
        linePhase := linePhase + 1;
        if linePhase == 95 {
          linePhase := 0;
        }
      }
    }

    /** What chargen_callback does on a closed connection. */
    method Reset()
      modifies this
      ensures Valid() && produced == 0
    {
      charPhase, linePhase, linepos, produced := 1, 2, 0, 0;
    }

    /** The loop of chargen_callback: the payload is filled up with the next bytes of the stream. */
    method FillUp(net: Stack, r: Ref)
      requires Valid() && net.Ready() && net.Payload(r) && net.Filled(r, [])
      modifies this, r.buf`dataSize, r.buf.data
      ensures Valid() && net.Ready() && net.Payload(r)
      ensures net.Filled(r, Stream(old(produced), r.MaxSize())) && r.MaxSize() == old(r.MaxSize())
      ensures produced == old(produced) + r.MaxSize()
      ensures net.usb.OthersKept(r.buf)
    {
      hide UsbNet.Valid, At, CharAt, Little16;
      ghost var from := produced;
      while r.DataSize() < r.MaxSize()
        invariant Valid() && net.Ready() && net.Payload(r) && r.MaxSize() == old(r.MaxSize())
        invariant from <= produced && net.Filled(r, Stream(from, produced - from)) && r.DataSize() <= r.MaxSize()
        invariant net.usb.OthersKept(r.buf)
        decreases r.MaxSize() - r.DataSize()
      {
        Turn(net, r, Stream(from, produced - from));
      }
    }

    method Turn(net: Stack, r: Ref, ghost bytes: seq<byte>)
      requires Valid() && net.Ready() && net.Payload(r) && net.Filled(r, bytes) && |bytes| < r.MaxSize()
      modifies this, r.buf`dataSize, r.buf.data
      ensures Valid() && net.Ready() && net.Payload(r) && r.MaxSize() == old(r.MaxSize())
      ensures produced == old(produced) + 1 && net.Filled(r, bytes + [CharAt(old(produced))])
      ensures net.usb.OthersKept(r.buf)
    {
      hide UsbNet.Lists, UsbNet.Sending, UsbNet.Receiving, At, CharAt, Little16;
      var b := Next();
      net.usb.Undisturbed();
      net.Append(r, b, bytes);
    }

    /** chargen_callback. The generator serves the next bytes of its stream in one segment, or skips this turn when
        the line is busy or no buffer is free. On a closed connection it starts over, but goes on all the same, up to
        the assertion in tcpip_send. Unless it fails, no buffer is kept. */
    method Callback(net: Stack, conn: Conn, payload: Pointer, now: uint32) returns (outcome: Outcome)
      requires Valid() && net.Ready() && conn.Valid()
      requires payload.To? ==> net.Payload(payload.ref)
      modifies this, conn`txSequence, conn`lastAckSent, conn`lastEvent, conn`log, net.Footprint()
      ensures Valid() && net.Ready() && conn.Valid()
      ensures Result(net, conn, outcome, if old(conn.established) then old(produced) else 0)
      ensures outcome.AssertionFails? <==> old(!conn.established && MayServe(net, payload))
      ensures outcome.Served? <==> old(conn.established && MayServe(net, payload))
      ensures !outcome.AssertionFails? ==> net.Leaves(After(Released(old(net.LineOf()), payload), outcome.Served?))
      ensures !outcome.AssertionFails? ==>
                net.usb.OthersKept(BufferOf(payload)) && (payload.To? ==> !net.Owns(payload.ref.buf))
    {
      hide UsbNet.Valid, At, CharAt, Little16, Stack.Footprint, Tiled, OpensWithSyn, Inserted, FirstFit, Emitted,
           Stream, SegmentAt, Grown, Payloads, Without;
      net.Outside(conn);
      NotInFootprint(net);
      if !conn.established {
        Reset();
        net.usb.Undisturbed();
      }
      if payload.To? {
        net.Release(payload.ref);
      }
      outcome := IfLineFree(net, conn, now);
    }

    lemma NotInFootprint(net: Stack)
      ensures this !in net.Footprint()
    {
    }

    /** There is room on the line and, once the payload is released, a buffer for a full segment. */
    ghost predicate MayServe(net: Stack, payload: Pointer)
      reads net.usb, net.usb.freeList, net.usb.transmitQueue
    {
      Room(Released(net.LineOf(), payload))
    }

    twostate predicate Result(net: Stack, conn: Conn, outcome: Outcome, from: nat)
      reads this, conn, net.usb, net.usb.transmitQueue
    {
      net.InStep(conn) &&
      match outcome
      case Served =>
        net.Emits(conn, ACK, Stream(from, MAX_PAYLOAD)) && produced == from + MAX_PAYLOAD
        && Payloads(conn.log) == old(Payloads(conn.log)) + Stream(from, MAX_PAYLOAD)
      case Skipped => unchanged(conn) && net.usb.submitted == old(net.usb.submitted) && produced == from
      case AssertionFails => unchanged(conn) && net.usb.submitted == old(net.usb.submitted)
    }

    method IfLineFree(net: Stack, conn: Conn, now: uint32) returns (outcome: Outcome)
      requires Valid() && net.Ready() && conn.Valid()
      modifies this, conn`txSequence, conn`lastAckSent, conn`lastEvent, conn`log, net.Footprint()
      ensures Valid() && net.Ready() && conn.Valid()
      ensures Result(net, conn, outcome, old(produced))
      ensures outcome.AssertionFails? <==> old(!conn.established && MayServe(net, Null))
      ensures outcome.Served? <==> old(conn.established && MayServe(net, Null))
      ensures !outcome.AssertionFails? ==> net.Leaves(After(old(net.LineOf()), outcome.Served?))
      ensures !outcome.AssertionFails? ==> net.usb.OthersKept(null)
    {
      hide UsbNet.Lists, UsbNet.Sending, UsbNet.Receiving, At, CharAt, Little16, Stack.Footprint, Tiled, OpensWithSyn,
           FirstFit, Emitted, SegmentAt, Grown, Payloads, Stream, Without;
      net.Outside(conn);
      NotInFootprint(net);
      GrownNot(net.RouteOf(conn), conn.log, net.usb.submitted);
      FitsExactly(net.LineOf(), HEADER_SIZE + MAX_PAYLOAD);
      var queued := net.usb.GetTxQueueSize();
      net.usb.Undisturbed();
      outcome := Skipped;
      if queued < 2 {
        outcome := ServeSegment(net, conn, now);
      }
    }

    method ServeSegment(net: Stack, conn: Conn, now: uint32) returns (outcome: Outcome)
      requires Valid() && net.Ready() && conn.Valid()
      modifies this, conn`txSequence, conn`lastAckSent, conn`lastEvent, conn`log, net.Footprint()
      ensures Valid() && net.Ready() && conn.Valid()
      ensures Result(net, conn, outcome, old(produced))
      ensures var buffer := old(net.LineOf()).Fits(HEADER_SIZE + MAX_PAYLOAD);
              && (outcome.AssertionFails? <==> buffer && !conn.established)
              && (outcome.Served? <==> buffer && conn.established)
      ensures !outcome.AssertionFails? ==> net.Leaves(After(old(net.LineOf()), outcome.Served?))
      ensures !outcome.AssertionFails? ==> net.usb.OthersKept(null)
    {
      hide UsbNet.Valid, At, CharAt, Little16, Stack.Footprint, Tiled, OpensWithSyn, FirstFit, Emitted, SegmentAt,
           Grown, Payloads, Without;
      net.Outside(conn);
      NotInFootprint(net);
      GrownNot(net.RouteOf(conn), conn.log, net.usb.submitted);
      FitsExactly(net.LineOf(), HEADER_SIZE + MAX_PAYLOAD);
      var p := net.Allocate(MAX_PAYLOAD);
      if p.Null? {
        return Skipped;
      }
      net.Inside(p.ref.buf);
      outcome := FillAndSend(net, conn, p.ref, now);
    }

    method FillAndSend(net: Stack, conn: Conn, r: Ref, now: uint32) returns (outcome: Outcome)
      requires Valid() && net.Ready() && conn.Valid()
      requires net.Payload(r) && r.DataSize() == 0 && r.MaxSize() >= MAX_PAYLOAD
      modifies this, conn`txSequence, conn`lastAckSent, conn`lastEvent, conn`log, net.Footprint()
      ensures Valid() && net.Ready() && conn.Valid()
      ensures Result(net, conn, outcome, old(produced))
      ensures outcome == if conn.established then Served else AssertionFails
      ensures outcome.Served? ==> net.Leaves(Line(old(net.usb.Pending()) + 1, old(net.usb.freeList.nodes)))
      ensures outcome.Served? ==> net.usb.OthersKept(r.buf) && !net.Owns(r.buf)
    {
      hide UsbNet.Valid, At, CharAt, Little16, Stack.Footprint, Tiled, OpensWithSyn, FirstFit, Emitted, SegmentAt,
           Grown, Payloads;
      net.Outside(conn);
      NotInFootprint(net);
      GrownNot(net.RouteOf(conn), conn.log, net.usb.submitted);
      net.Inside(r.buf);
      assert net.Filled(r, []);
      FillUp(net, r);
      if !conn.established {
        return AssertionFails;
      }
      assert net.LineOf() == old(net.LineOf());
      net.Send(conn, r, now, Stream(old(produced), MAX_PAYLOAD));
      return Served;
    }

    // ---------- a connection to the generator ----------

    /** All that the connection has sent is the beginning of the stream, n bytes of it; while it is open, these are
        all bytes that the generator has produced. */
    ghost predicate Serves(conn: Conn, n: nat)
      reads this, conn
    {
      Payloads(conn.log) == Stream(0, n) && (conn.established ==> n == produced)
    }

    lemma ServedMore(n: nat)
      ensures Stream(0, n) + Stream(n, MAX_PAYLOAD) == Stream(0, n + MAX_PAYLOAD)
    {
      StreamConcat(0, n, MAX_PAYLOAD);
    }

    /** One call of the callback while the connection is open. */
    method Serve(net: Stack, conn: Conn, payload: Pointer, now: uint32, ghost n: nat) returns (ghost m: nat)
      requires Valid() && net.Ready() && conn.Valid() && conn.established && Serves(conn, n)
      requires payload.To? ==> net.Payload(payload.ref)
      modifies this, conn`txSequence, conn`lastAckSent, conn`lastEvent, conn`log, net.Footprint()
      ensures Valid() && net.Ready() && conn.Valid() && Serves(conn, m)
      ensures m == if old(MayServe(net, payload)) then n + MAX_PAYLOAD else n
      ensures net.InStep(conn) && net.Acknowledges(conn)
      ensures net.Leaves(Tried(Released(old(net.LineOf()), payload)))
      ensures net.usb.OthersKept(BufferOf(payload)) && (payload.To? ==> !net.Owns(payload.ref.buf))
    {
      hide UsbNet.Valid, At, CharAt, Little16, Stack.Footprint, Tiled, OpensWithSyn, Inserted, FirstFit, Emitted,
           Stream, SegmentAt, Grown, Payloads, Without;
      net.Outside(conn);
      var outcome := Callback(net, conn, payload, now);
      m := n;
      if outcome.Served? {
        m := n + MAX_PAYLOAD;
        ServedMore(n);
        assert |conn.log| == |old(conn.log)| + 1;
      }
    }

    /** The call that tcpip_close makes when the connection is closed already. */
    method Dismiss(net: Stack, conn: Conn, now: uint32, ghost n: nat) returns (end: End)
      requires Valid() && net.Ready() && conn.Valid() && !conn.established && Serves(conn, n)
      modifies this, conn`txSequence, conn`lastAckSent, conn`lastEvent, conn`log, net.Footprint()
      ensures Valid() && net.Ready() && conn.Valid() && unchanged(conn) && Serves(conn, n)
      ensures net.usb.submitted == old(net.usb.submitted) && net.InStep(conn)
      ensures end == if old(MayServe(net, Null)) then AssertionFailure else Continues
      ensures end.Continues? ==> net.usb.OthersKept(null)
    {
      hide UsbNet.Valid, At, CharAt, Little16, Stack.Footprint, Tiled, OpensWithSyn, Inserted, FirstFit, Emitted,
           Stream, SegmentAt, Grown, Payloads, Without;
      var outcome := Callback(net, conn, Null, now);
      end := if outcome.AssertionFails? then AssertionFailure else Continues;
    }

    /** tcpip_close with its callback: it ends at the assertion exactly when, behind the FIN, the line has room and a
        buffer is free. */
    method Close(net: Stack, conn: Conn, now: uint32, ghost n: nat) returns (end: End)
      requires Valid() && net.Ready() && conn.Valid() && conn.established && Serves(conn, n)
      modifies this, conn, net.Footprint()
      ensures Valid() && net.Ready() && conn.Valid() && conn.log != [] && !conn.established && Serves(conn, n)
      ensures conn.rx == old(conn.rx).(open := false) && !end.NullSend?
      ensures net.Identity(conn) && net.InStep(conn) && unchanged(conn`txSequence, conn`lastAckReceived)
      ensures old(net.usb.WorkConserving()) ==> end == Ending(old(net.LineOf()))
      ensures end.Continues? ==> net.usb.OthersKept(null)
    {
      hide UsbNet.Valid, At, CharAt, Stack.Footprint, Tiled, OpensWithSyn, FirstFit, Emitted, Stream, SegmentAt, Grown,
           Payloads, Without;
      net.Outside(conn);
      NotInFootprint(net);
      net.Close(conn, now);
      ghost var log, frames := conn.log, net.usb.submitted;
      end := Dismiss(net, conn, now, n);
      GrownTwice(net.RouteOf(conn), old(conn.log), old(net.usb.submitted), log, frames, conn.log, net.usb.submitted);
    }

    /** The end of the peer's stream, with the callback of tcpip_close. */
    method Finish(net: Stack, conn: Conn, now: uint32, ghost n: nat) returns (end: End)
      requires Valid() && net.Ready() && conn.Valid() && conn.established && Serves(conn, n)
      modifies this, conn, net.Footprint()
      ensures Valid() && net.Ready() && conn.Valid() && conn.log != [] && !conn.established && Serves(conn, n)
      ensures conn.rx == old(conn.rx).(next := Plus(old(conn.rx.next), 1), open := false) && !end.NullSend?
      ensures net.Identity(conn) && net.InStep(conn) && unchanged(conn`lastAckReceived)
      ensures old(net.usb.WorkConserving()) ==> end == Ending(old(net.LineOf()))
      ensures end.Continues? ==> net.usb.OthersKept(null)
    {
      hide UsbNet.Valid, At, CharAt, Stack.Footprint, Tiled, OpensWithSyn, FirstFit, Emitted, Stream, SegmentAt, Grown,
           Payloads, Without;
      net.Outside(conn);
      NotInFootprint(net);
      net.EndOfStream(conn, now);
      ghost var log, frames := conn.log, net.usb.submitted;
      end := Dismiss(net, conn, now, n);
      GrownTwice(net.RouteOf(conn), old(conn.log), old(net.usb.submitted), log, frames, conn.log, net.usb.submitted);
    }

    /** handle_tcp_active for a connection to the generator. Data that is taken is answered by the next bytes of the
        stream, if the line has room; the end of the connection may end at the assertion. */
    method Segment(net: Stack, conn: Conn, packet: Buffer, now: uint32, ghost n: nat) returns (end: End, ghost m: nat)
      requires Valid() && net.Ready() && conn.Valid() && conn.established && Serves(conn, n)
      requires net.Owns(packet) && packet.dataSize <= packet.MaxSize()
      requires Stack.WellFormed(packet.data[..packet.dataSize])
      modifies this, conn, net.Footprint()
      ensures Valid() && net.Ready() && conn.Valid() && conn.log != [] && Serves(conn, m)
      ensures net.Identity(conn) && net.InStep(conn) && !end.NullSend?
      ensures var s, f := old(conn.rx), old(packet.data[..packet.dataSize]);
              var a, line := Stack.ArrivalOf(f), old(net.LineOf()).Releases(packet);
              && conn.rx == OnSegment(s, a) && conn.lastAckReceived == Get32(f, 62)
              && m == (if Takes(s, a) && Room(line) then n + MAX_PAYLOAD else n)
              && (old(net.usb.WorkConserving()) ==>
                    end == if OnSegment(s, a).open then Continues
                           else Ending(if Takes(s, a) then Tried(line) else line))
      ensures end.Continues? ==> net.usb.OthersKept(packet) && !net.Owns(packet)
    {
      hide UsbNet.Valid, At, CharAt, Stack.Footprint, Tiled, OpensWithSyn, Get16, Get32, Stream, Stack.Payload,
           Stack.Filled, Inserted, Grown, Payloads, FirstFit, Without;
      net.Outside(conn);
      NotInFootprint(net);
      GrownNot(net.RouteOf(conn), conn.log, net.usb.submitted);
      end, m := Continues, n;
      var control := Get16(packet.data[..packet.dataSize], 66);
      var fate, payload := net.BeginSegment(conn, packet, now);
      match fate
      case Ignored =>
      case Refused => end := Close(net, conn, now, n);
      case Taken => end, m := Delivered(net, conn, payload, control, now, n);
    }

    /** The rest of it for a segment whose data was taken. */
    method Delivered(net: Stack, conn: Conn, payload: Pointer, control: uint16, now: uint32, ghost n: nat)
      returns (end: End, ghost m: nat)
      requires Valid() && net.Ready() && conn.Valid() && conn.established && Serves(conn, n)
      requires payload.To? ==> net.Payload(payload.ref)
      modifies this, conn, net.Footprint()
      ensures Valid() && net.Ready() && conn.Valid() && conn.log != [] && Serves(conn, m)
      ensures net.Identity(conn) && net.InStep(conn) && !end.NullSend? && unchanged(conn`lastAckReceived)
      ensures var s := old(conn.rx);
              conn.rx == if Ends(control) then s.(next := Plus(s.next, 1), open := false) else s
      ensures m == if payload.To? && old(MayServe(net, payload)) then n + MAX_PAYLOAD else n
      ensures old(net.usb.WorkConserving()) ==>
                var line := Released(old(net.LineOf()), payload);
                end == if Ends(control) then Ending(if payload.To? then Tried(line) else line) else Continues
      ensures end.Continues? ==>
                net.usb.OthersKept(BufferOf(payload)) && (payload.To? ==> !net.Owns(payload.ref.buf))
    {
      hide UsbNet.Valid, At, CharAt, Stack.Footprint, Tiled, OpensWithSyn, Stream, Stack.Payload, Grown, Payloads,
           Serves, Inserted, FirstFit, Without, Room;
      net.Outside(conn);
      NotInFootprint(net);
      GrownNot(net.RouteOf(conn), conn.log, net.usb.submitted);
      end, m := Continues, n;
      if payload.To? {
        m := Serve(net, conn, payload, now, n);
      }
      if Ends(control) {
        ghost var log, frames := conn.log, net.usb.submitted;
        end := Finish(net, conn, now, m);
        GrownTwice(net.RouteOf(conn), old(conn.log), old(net.usb.submitted), log, frames, conn.log, net.usb.submitted);
      }
    }

    /** The connection's turn in tcp_poll. */
    method Poll(net: Stack, conn: Conn, now: uint32, ghost n: nat) returns (end: End, ghost m: nat)
      requires Valid() && net.Ready() && conn.Valid() && conn.log != [] && Serves(conn, n)
      modifies this, conn, net.Footprint()
      ensures Valid() && net.Ready() && conn.Valid() && conn.log != [] && Serves(conn, m)
      ensures net.Identity(conn) && net.InStep(conn)
      ensures m == if old(conn.established && MayServe(net, Null)) then n + MAX_PAYLOAD else n
      ensures end.NullSend? <==>
              old(conn.established && conn.lastAckSent != conn.rxSequence) && conn.log == old(conn.log)
      ensures conn.established <==>
              old(conn.established) && (end.NullSend? || !OverLimit(conn.txSequence, conn.lastAckReceived))
      ensures conn.rx == old(conn.rx).(open := conn.established)
      ensures old(net.usb.WorkConserving()) ==>
                (end.AssertionFailure? <==>
                   old(conn.established) && !conn.established && Room(Tried(old(net.LineOf())).Sends(HEADER_SIZE)))
      ensures !end.AssertionFailure? ==> net.usb.OthersKept(null)
    {
      hide UsbNet.Valid, At, CharAt, Stack.Footprint, Tiled, OpensWithSyn, Stream, Grown, Payloads, Serves,
           OverLimit, FirstFit, Without, Room;
      net.Outside(conn);
      NotInFootprint(net);
      GrownNot(net.RouteOf(conn), conn.log, net.usb.submitted);
      end, m := Continues, n;
      if conn.established {
        m := Serve(net, conn, Null, now, n);
        if conn.lastAckSent != conn.rxSequence {
          end := NullSend;
        } else if OverLimit(conn.txSequence, conn.lastAckReceived) {
          ghost var log, frames := conn.log, net.usb.submitted;
          end := Close(net, conn, now, m);
          GrownTwice(net.RouteOf(conn), old(conn.log), old(net.usb.submitted), log, frames, conn.log,
                     net.usb.submitted);
        }
      }
    }
  }

  /** The buffer of a payload. */
  function BufferOf(payload: Pointer): Buffer? {
    if payload.To? then payload.ref.buf else null
  }

  /** The line once the payload is released. */
  function Released(line: Line, payload: Pointer): Line {
    if payload.To? then line.Releases(payload.ref.buf) else line
  }

  /** Fewer than two frames under way, and a buffer for a full segment. */
  predicate Room(line: Line) {
    line.pending < 2 && line.Fits(HEADER_SIZE + MAX_PAYLOAD)
  }

  lemma RoomMeans(line: Line)
    ensures Room(line) <==> line.pending <= 1 && exists b :: b in line.free && b.MaxSize() >= 768
  {
    FirstFitIs(line.free, 768);
    var k := FirstFit(line.free, 768);
    assert k < |line.free| ==> line.free[k] in line.free;
  }

  function After(line: Line, served: bool): Line {
    if served then line.Sends(HEADER_SIZE + MAX_PAYLOAD) else line
  }

  /** The line after a call of the callback on an open connection. */
  function Tried(line: Line): Line {
    After(line, Room(line))
  }

  /** How the closing of a connection ends: the callback of tcpip_close finds the line as the FIN has left it. */
  function Ending(line: Line): End {
    if Room(line.Sends(HEADER_SIZE)) then AssertionFailure else Continues
  }

  lemma FitsExactly(line: Line, size: int)
    ensures line.Fits(size) <==> FirstFit(line.free, size) != |line.free|
  {
    FirstFitIs(line.free, size);
  }

  datatype Outcome = Served | Skipped | AssertionFails

  /** How a turn may end: the firmware goes on, unslices a null pointer in tcp_poll, or stops at the assertion in
      tcpip_send. */
  datatype End = Continues | NullSend | AssertionFailure

  const MAX_PAYLOAD := 768 - HEADER_SIZE   // TCPIP_MAX_PAYLOAD

  // ---------- whole sessions of the character generator ----------

  /** Over any schedule, what a fresh generator has sent on its connection is the stream of RFC 864 from the beginning,
      in frames that were really given to the network. Until the assertion fails, no buffer is kept. */
  method ServeAll(net: Stack, gen: Generator, conn: Conn, schedule: seq<Turn>) returns (end: End, ghost n: nat)
    requires gen.Valid() && net.Ready() && conn.Valid() && conn.log != [] && gen.Serves(conn, 0) && net.Recorded(conn)
    requires net.usb.NoneHeld()
    modifies gen, conn, S.Objects(net.usb)
    ensures gen.Valid() && net.Ready() && conn.Valid() && gen.Serves(conn, n) && net.Recorded(conn)
    ensures !end.AssertionFailure? ==> net.usb.NoneHeld()
    ensures |Payloads(conn.log)| == n && forall k :: 0 <= k < n ==> Payloads(conn.log)[k] == CharAt(k)
  {
    hide UsbNet.Valid, Conn.Valid, S.Objects, CharAt, Payloads, Generator.At, TcpLog.Recorded;
    SessionApart(net, gen, conn);
    end, n := Continues, 0;
    for i := 0 to |schedule|
      invariant gen.Valid() && net.Ready() && conn.Valid() && conn.log != []
      invariant gen.Serves(conn, n) && net.Recorded(conn) && net.usb.NoneHeld() && end.Continues?
    {
      end, n := ServeTurn(net, gen, conn, schedule[i], n);
      if !end.Continues? {
        break;
      }
    }
    forall k | 0 <= k < n
      ensures Payloads(conn.log)[k] == CharAt(k)
    {
      StreamAt(n, k);
    }
  }

  lemma SessionApart(net: Stack, gen: Generator, conn: Conn)
    ensures gen !in S.Objects(net.usb) && conn !in S.Objects(net.usb) && net.Footprint() <= S.Objects(net.usb)
  {
  }

  /** While the link is down, tcpip_poll does nothing. */
  method ServeTurn(net: Stack, gen: Generator, conn: Conn, turn: Turn, ghost n: nat) returns (end: End, ghost m: nat)
    requires gen.Valid() && net.Ready() && conn.Valid() && conn.log != [] && gen.Serves(conn, n) && net.Recorded(conn)
    requires net.usb.NoneHeld()
    modifies gen, conn, S.Objects(net.usb)
    ensures gen.Valid() && net.Ready() && conn.Valid() && conn.log != [] && gen.Serves(conn, m) && net.Recorded(conn)
    ensures !end.AssertionFailure? ==> net.usb.NoneHeld()
    ensures turn.Poll? ==>
              m == if old(net.usb.connected && conn.established && gen.MayServe(net, Null)) then n + MAX_PAYLOAD else n
    ensures turn.Receive? ==> OneTaken(net.usb)
    ensures turn.Receive? ==> if Reached(net, conn) then HearsLast(net, conn) else end.Continues? && unchanged(conn)
    ensures turn.Elsewhere? ==> end.Continues? && m == n && unchanged(conn) && unchanged(gen)
  {
    hide UsbNet.Valid, Tiled, OpensWithSyn, S.Objects, Payloads, Generator.At, Stack.Footprint, Stream, FirstFit,
         TcpLog.Recorded, Grown, OverLimit, Trimmed, Get16, Deframe, Inserted, IsSegment, HearsLast;
    SessionApart(net, gen, conn);
    ghost var v, submitted := ViewOf(net, conn), net.usb.submitted;
    end, m := Continues, n;
    match turn
    case Receive(now) =>
      if net.usb.connected {
        end, m := ServeFrame(net, gen, conn, now, n);
      }
    case Poll(now) =>
      if net.usb.connected {
        end, m := gen.Poll(net, conn, now, n);
        RecordedGrown(v.route, v.log, submitted, conn.log, net.usb.submitted);
      }
    case Elsewhere(e) =>
      Meanwhile(net, e);
      RecordedStays(v.route, v.log, submitted, net.usb.submitted);
  }

  method ServeFrame(net: Stack, gen: Generator, conn: Conn, now: uint32, ghost n: nat) returns (end: End, ghost m: nat)
    requires gen.Valid() && net.Ready() && conn.Valid() && conn.log != [] && gen.Serves(conn, n) && net.Recorded(conn)
    requires net.usb.NoneHeld()
    modifies gen, conn, S.Objects(net.usb)
    ensures gen.Valid() && net.Ready() && conn.Valid() && conn.log != [] && gen.Serves(conn, m) && net.Recorded(conn)
    ensures !end.AssertionFailure? ==> net.usb.NoneHeld()
    ensures |TakenFrames(net.usb)|
              == |old(TakenFrames(net.usb))| + if old(net.usb.received.nodes) != [] then 1 else 0
    ensures if Reached(net, conn) then HearsLast(net, conn) else end.Continues? && unchanged(conn)
  {
    hide UsbNet.Valid, Tiled, OpensWithSyn, S.Objects, Payloads, Generator.At, Stack.Footprint, Stream, FirstFit,
         TcpLog.Recorded, Grown, OverLimit, Trimmed, Get16, Deframe, Inserted, OnSegment, Room;
    SessionApart(net, gen, conn);
    ghost var v, submitted := ViewOf(net, conn), net.usb.submitted;
    end, m := Continues, n;
    var packet;
    ghost var frame;
    packet, frame := NextSegment(net, conn);
    if packet != null {
      end, m := gen.Segment(net, conn, packet, now, n);
      RecordedGrown(v.route, v.log, submitted, conn.log, net.usb.submitted);
    }
  }

  // ---------- a closed connection ----------

  /** When the line is idle and two large buffers are free, closing a connection to the generator stops the firmware
      at the assertion in tcpip_send: the callback of tcpip_close sends on the connection that was just closed. */
  method CloseWhileIdle(net: Stack, gen: Generator, conn: Conn, now: uint32, a: Buffer, b: Buffer) returns (end: End)
    requires gen.Valid() && net.Ready() && conn.Valid() && conn.log != [] && net.usb.Pending() == 0
    requires a in net.usb.freeList.nodes && b in net.usb.freeList.nodes && a != b
    requires a.MaxSize() == b.MaxSize() == HEADER_SIZE + MAX_PAYLOAD
    modifies gen, conn, net.Footprint()
    ensures end.AssertionFailure?
  {
    hide UsbNet.Lists, UsbNet.Sending, UsbNet.Receiving, Generator.At, Stack.Footprint, Tiled, OpensWithSyn, FirstFit,
         Stream, Emitted, SegmentAt, Grown, Payloads;
    net.Outside(conn);
    gen.NotInFootprint(net);
    net.usb.Apart();
    FirstFitIs(net.usb.freeList.nodes, HEADER_SIZE);
    ghost var k := FirstFit(net.usb.freeList.nodes, HEADER_SIZE);
    ghost var c := if net.usb.freeList.nodes[k] == a then b else a;
    net.Close(conn, now);
    net.usb.Apart();
    net.usb.FreeListed(c);
    FirstFitIs(net.usb.freeList.nodes, HEADER_SIZE + MAX_PAYLOAD);
    var outcome := gen.Callback(net, conn, Null, now);
    end := if outcome.AssertionFails? then AssertionFailure else Continues;
  }
}
