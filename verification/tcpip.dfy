/** Connections and segments of src/tcpip.c, on top of the USB network device. */
module Tcpip {
  import opened Bytes
  import opened Buffers
  import opened UsbNetwork
  import opened Slices
  import opened TcpWire
  import opened TcpStream
  import opened TcpLog
  import opened Checksum

  const MAX_CONNECTIONS := 4   // TCPIP_MAX_CONNECTIONS
  const NO_MAC: seq<byte> := [0, 0, 0, 0, 0, 0]
  const NO_ADDR: seq<byte> := [0, 0, 0, 0, 0, 0, 0, 0, 0, 0, 0, 0, 0, 0, 0, 0]

  /** A `buffer_t *` that may be NULL. */
  datatype Pointer = Null | To(ref: Ref)

  /** The line and the pool as an application sees them: how many frames are under way, and which buffers are free. */
  datatype Line = Line(pending: int, free: seq<Buffer>) {
    predicate Fits(size: int) {
      FirstFit(free, size) < |free|
    }

    /** A frame is allocated and sent, if there is a buffer for it. */
    function Sends(size: int): Line {
      var k := FirstFit(free, size);
      FirstFitIs(free, size);
      if k < |free| then Line(pending + 1, Without(free, k)) else this
    }

    function Releases(b: Buffer): Line {
      Line(pending, Inserted(free, b))
    }
  }

  /** What becomes of the data of a received segment. */
  datatype Fate = Ignored | Refused | Taken

  /** What an application's callback may do with its connection. A callback is any sequence of these; it does not
      touch a closed connection, as the assertion in tcpip_send demands. */
  datatype AppCall = ReleasePayload | ReplyPayload | SendData(bytes: seq<byte>) | CloseConnection

  /** tcpip_conn_t */
  class Conn {
    var established: bool      // state
    var peerAddr: seq<byte>
    var peerMac: seq<byte>
    var peerPort: uint16
    var localPort: uint16
    var txSequence: uint32
    var rxSequence: uint32
    var lastAckSent: uint32
    var lastAckReceived: uint32
    var lastEvent: uint32
    var position: uint32       // context[0]
    var handler: nat           // context[TCPIP_CONTEXT_WORDS - 1], 0 for none
    // history of the connection
    ghost var start: uint32         // sequence number of its SYN
    ghost var log: seq<Sent>        // segments emitted, in order
    ghost var rx: RxState           // what has been received

    ghost predicate Addressed()
      reads this
    {
      |peerAddr| == 16 && |peerMac| == 6
    }

    /** The sequence numbers say exactly what has been sent and received. */
    ghost predicate Valid()
      reads this
    {
      && Addressed()
      && Tiled(log, start, txSequence)
      && OpensWithSyn(log) && (established ==> log != [])
      && rx.next == rxSequence && rx.open == established
    }

    /** A closed connection as memset leaves it. */
    constructor ()
      ensures Valid() && !established && log == [] && rx == RxState(0, false, [])
    {
      established, peerAddr, peerMac, peerPort, localPort := false, NO_ADDR, NO_MAC, 0, 0;
      txSequence, rxSequence, lastAckSent, lastAckReceived, lastEvent := 0, 0, 0, 0, 0;
      position, handler := 0, 0;
      start, log, rx := 0, [], RxState(0, false, []);
    }

    /** What handle_tcp_syn takes over from the headers of a SYN. */
    method FillIn(f: seq<byte>, port: uint16, clock: uint32)
      requires Blank() && |f| >= HEADER_SIZE
      modifies this
      ensures established && localPort == port && log == []
      ensures peerAddr == f[22..38] && peerMac == f[6..12] && peerPort == Get16(f, 54)
      ensures rxSequence == Plus(Get32(f, 58), 1) && txSequence == Plus(rxSequence, clock)
      ensures lastAckReceived == txSequence && start == txSequence && rx == RxState(rxSequence, true, [])
    {
      established, localPort := true, port;
      peerAddr, peerMac, peerPort := f[22..38], f[6..12], Get16(f, 54);
      rxSequence := Plus(Get32(f, 58), 1);
      txSequence := Plus(rxSequence, clock);
      lastAckReceived := txSequence;
      start, rx := txSequence, RxState(rxSequence, true, []);
    }

    /** The last four statements of tcpip_send_ctrl. */
    method Advance(payloadLen: nat, now: uint32, ghost sent: Sent)
      modifies `txSequence, `lastAckSent, `lastEvent, `log
      ensures txSequence == Plus(old(txSequence), payloadLen) && lastAckSent == rxSequence && lastEvent == now
      ensures log == old(log) + [sent]
    {
      txSequence := Plus(txSequence, payloadLen);
      lastAckSent := rxSequence;
      lastEvent := now;
      log := log + [sent];
    }

    ghost predicate Blank()
      reads this
    {
      && Valid() && !established && log == [] && rx == RxState(0, false, [])
      && peerPort == localPort == 0 && txSequence == rxSequence == lastAckSent == lastAckReceived == lastEvent == 0
      && position == 0 && handler == 0
    }

    /** memset(conn, 0, sizeof(tcpip_conn_t)) */
    method Clear()
      modifies this
      ensures Blank()
    {
      hide Tiled, OpensWithSyn;
      NothingSent();
      ClearFields();
      start, log, rx := 0, [], RxState(0, false, []);
    }

    method ClearFields()
      modifies this
      ensures !established && peerAddr == NO_ADDR && peerMac == NO_MAC && peerPort == localPort == 0
      ensures txSequence == rxSequence == lastAckSent == lastAckReceived == lastEvent == 0
      ensures position == 0 && handler == 0
    {
      established, peerAddr, peerMac, peerPort, localPort := false, NO_ADDR, NO_MAC, 0, 0;
      txSequence, rxSequence, lastAckSent, lastAckReceived, lastEvent := 0, 0, 0, 0, 0;
      position, handler := 0, 0;
    }
  }

  /** The globals of the module: connections, own addresses, and the network device underneath. */
  class Stack {
    const usb: UsbNet
    const conns: seq<Conn>     // g_tcpip_connections
    const ports: seq<uint16>   // g_tcpip_listeners, 0 for a free slot
    const localMac: seq<byte>
    const localAddr: seq<byte>

    constructor (usb: UsbNet, conns: seq<Conn>, ports: seq<uint16>, localMac: seq<byte>, localAddr: seq<byte>)
      ensures this.usb == usb && this.conns == conns && this.ports == ports
      ensures this.localMac == localMac && this.localAddr == localAddr
    {
      this.usb, this.conns, this.ports, this.localMac, this.localAddr := usb, conns, ports, localMac, localAddr;
    }

    /** Every connection of the table is in order. */
    ghost predicate Table()
      reads conns
    {
      && (forall i, j :: 0 <= i < j < |conns| ==> conns[i] != conns[j])
      && (forall i :: 0 <= i < |conns| ==> conns[i].Valid())
    }

    ghost predicate Ready()
      reads usb, usb.freeList, usb.received, usb.transmitQueue, usb.pool`ptr, usb.Busy()`dataSize, Data(usb.Busy())
    {
      usb.Valid() && |localMac| == 6 && |localAddr| == 16
    }

    ghost function Footprint(): set<object> {
      {usb, usb.freeList, usb.transmitQueue} + usb.pool + Data(usb.pool)
    }

    /** Connections are not part of the network device, whereas its buffers and their storage are. */
    lemma Outside(c: Conn)
      ensures c !in Footprint()
    {
    }

    lemma OutsideAll()
      ensures forall i :: 0 <= i < |conns| ==> conns[i] !in Footprint()
    {
    }

    lemma Inside(b: Buffer)
      requires b in usb.pool
      ensures b in Footprint() && b.data in Footprint()
    {
    }

    ghost predicate Owns(b: Buffer)
      reads usb
    {
      b in usb.pool && b in usb.place && usb.place[b] == Held
    }

    /** What the headers of a connection's segments have in common. */
    function RouteOf(conn: Conn): Route
      reads conn
    {
      Route(conn.peerMac, localMac, localAddr, conn.peerAddr, conn.localPort, conn.peerPort)
    }

    function SegmentOf(conn: Conn, control: uint16, payload: seq<byte>): Segment
      reads conn
    {
      SegmentAt(RouteOf(conn), Sent(conn.txSequence, payload, control, conn.rxSequence, 0))
    }

    /** One segment goes out. It starts where the connection's last one ended, acknowledges everything received so far
        and carries the payload; the next one will start behind it. */
    twostate predicate Emits(conn: Conn, control: uint16, payload: seq<byte>)
      reads conn, usb
    {
      var x := Sent(old(conn.txSequence), payload, control, conn.rxSequence, |old(usb.submitted)|);
      && SegmentAt(old(RouteOf(conn)), x).Valid()
      && usb.submitted == old(usb.submitted) + [Emitted(SegmentAt(old(RouteOf(conn)), x))]
      && conn.log == old(conn.log) + [x]
      && conn.txSequence == Plus(old(conn.txSequence), |payload|)
      && conn.lastAckSent == conn.rxSequence
    }

    /** Frames were sent but none was taken, and the line goes on working. */
    twostate predicate Onward()
      reads usb, usb.transmitQueue
    {
      old(usb.submitted) <= usb.submitted && unchanged(usb`taken, usb`packetsIn) && usb.Steady()
    }

    ghost function LineOf(): Line
      reads usb, usb.freeList, usb.transmitQueue
    {
      Line(usb.Pending(), usb.freeList.nodes)
    }

    /** In a device that conserves work, the line is like this afterwards. */
    twostate predicate Leaves(line: Line)
      reads usb, usb.freeList, usb.transmitQueue
    {
      old(usb.WorkConserving()) ==> LineOf() == line
    }

    /** Log and frames have grown together: every frame that went out is a segment of this connection, and every
        segment logged is a frame that went out. */
    twostate predicate InStep(conn: Conn)
      reads conn, usb, usb.transmitQueue
    {
      && Grown(RouteOf(conn), old(conn.log), old(usb.submitted), conn.log, usb.submitted)
      && old(conn.log) <= conn.log && Onward()
    }

    /** Every segment of the connection is one of the frames given to the network device. */
    ghost predicate Recorded(conn: Conn)
      reads conn, usb
    {
      TcpLog.Recorded(RouteOf(conn), conn.log, usb.submitted)
    }

    /** Whatever is sent acknowledges everything received so far. */
    twostate predicate Acknowledges(conn: Conn)
      reads conn
    {
      && conn.rxSequence == old(conn.rxSequence)
      && conn.lastAckSent == if conn.log == old(conn.log) then old(conn.lastAckSent) else conn.rxSequence
    }

    /** The lists of the network device are objects of their own, with buffers of the pool on them. */
    lemma ListsWithin()
      requires Ready()
      ensures usb.freeList != usb.transmitQueue
      ensures usb.freeList.Nodes() <= usb.pool && usb.transmitQueue.Nodes() <= usb.pool
    {
      hide UsbNet.Lists, UsbNet.Sending, UsbNet.Receiving;
      usb.Apart();
    }

    /** An empty control packet of our own, if there is a buffer for it. */
    method AllocateControl() returns (packet: Buffer?)
      requires Ready()
      modifies Footprint()
      ensures Ready() && usb.submitted == old(usb.submitted)
      ensures packet != null ==> Owns(packet) && !old(Owns(packet))
      ensures packet != null ==> packet.dataSize == HEADER_SIZE <= packet.MaxSize()
      ensures packet == null <==> FirstFit(old(usb.freeList.nodes), HEADER_SIZE) == |old(usb.freeList.nodes)|
      ensures packet != null ==> packet == old(usb.freeList.nodes[FirstFit(usb.freeList.nodes, HEADER_SIZE)])
      ensures usb.OthersKept(packet) && StillHeld(old(usb.place), usb.place, packet)
      ensures usb.Pending() == old(usb.Pending())
      ensures Line(usb.Pending() + (if packet != null then 1 else 0), usb.freeList.nodes)
                == old(LineOf()).Sends(HEADER_SIZE)
    {
      hide UsbNet.Valid, FirstFit, Without;
      ListsWithin();
      packet := usb.BufferAllocate(HEADER_SIZE);
      if packet != null {
        Empty(packet);
      }
    }

    /** `packet->data_size = TCPIP_HEADER_SIZE` */
    method Empty(packet: Buffer)
      requires Ready() && Owns(packet)
      modifies packet`dataSize
      ensures Ready() && packet.dataSize == HEADER_SIZE <= packet.MaxSize()
    {
      hide UsbNet.Lists, UsbNet.Sending, UsbNet.Receiving;
      usb.Apart();
      packet.dataSize := HEADER_SIZE;
      usb.HeldWritten(packet);
    }

    /** The headers go in front of a payload that is in place already. */
    method WriteHeaders(packet: Buffer, seg: Segment)
      requires Ready() && Owns(packet) && seg.Valid()
      requires HEADER_SIZE + |seg.options| + |seg.payload| <= packet.MaxSize()
      requires packet.data[HEADER_SIZE + |seg.options|..HEADER_SIZE + |seg.options| + |seg.payload|] == seg.payload
      modifies packet`dataSize, packet.data
      ensures Ready() && packet.Holds(Emitted(seg))
    {
      hide UsbNet.Lists, UsbNet.Sending, UsbNet.Receiving, Emitted;
      usb.Apart();
      usb.DataApart({packet}, usb.pool - {packet});
      EmittedLength(seg);
      WriteSegment(packet.data, seg);
      packet.dataSize := HEADER_SIZE + |seg.options| + |seg.payload|;
      usb.HeldWritten(packet);
    }

    /** tcpip_send_ctrl. A packet of the caller's has its payload behind room for the headers; without one, a buffer
        for a bare control segment is taken, and if there is none the segment is dropped. */
    method SendCtrl(conn: Conn, packet: Buffer?, control: uint16, now: uint32, ghost payload: seq<byte>)
      returns (sent: bool)
      requires Ready() && conn.Addressed() && control < 0x1000
      requires packet != null ==> Owns(packet) && Carries(packet, payload)
      requires packet == null ==> payload == []
      requires HasSyn(control) ==> packet != null
      modifies conn`txSequence, conn`lastAckSent, conn`lastEvent, conn`log, Footprint()
      ensures Ready()
      ensures sent <==> packet != null || FirstFit(old(usb.freeList.nodes), HEADER_SIZE) < |old(usb.freeList.nodes)|
      ensures !sent ==> unchanged(conn) && usb.submitted == old(usb.submitted)
      ensures sent ==> conn.lastEvent == now && Emits(conn, control, payload)
      ensures sent ==> Posted(conn, usb.submitted[|old(usb.submitted)|], old(conn.txSequence), control, payload)
      ensures InStep(conn) && Payloads(conn.log) == old(Payloads(conn.log)) + payload
      ensures usb.OthersKept(packet) && (packet != null ==> !Owns(packet))
      ensures usb.Pending() == old(usb.Pending()) + if sent then 1 else 0
      ensures StillHeld(old(usb.place), usb.place, if packet != null || !sent then packet
                        else old(usb.freeList.nodes[FirstFit(usb.freeList.nodes, HEADER_SIZE)]))
      ensures Leaves(if packet == null then old(LineOf()).Sends(HEADER_SIZE)
                     else Line(old(usb.Pending()) + 1, old(usb.freeList.nodes)))
    {
      hide UsbNet.Valid, SegmentAt, Emitted, FirstFit, Grown, Payloads, Posted, Without;
      if packet == null {
        sent := SendBare(conn, control, now);
        assert Payloads(conn.log) == old(Payloads(conn.log)) + payload;
      } else {
        sent := true;
        ListsWithin();
        SendBuffer(conn, packet, control, now, payload);
      }
      if sent {
        EmittedIsPosted(conn, conn.log[|conn.log| - 1]);
      }
    }

    /** The frame is addressed to the peer of the connection, with its numbers, these control bits and this payload. */
    ghost predicate Posted(conn: Conn, g: seq<byte>, sequence: uint32, control: uint16, payload: seq<byte>)
      reads conn
    {
      && 74 + |payload| <= |g|
      && g[0..6] == conn.peerMac && g[6..12] == localMac && g[22..38] == localAddr && g[38..54] == conn.peerAddr
      && g[54..56] == Put16(conn.localPort) && g[56..58] == Put16(conn.peerPort)
      && g[58..62] == Put32(sequence) && g[62..66] == Put32(conn.rxSequence)
      && g[67] == control % 256 && g[|g| - |payload|..] == payload
    }

    lemma EmittedIsPosted(conn: Conn, x: Sent)
      requires SegmentAt(RouteOf(conn), x).Valid() && x.ack == conn.rxSequence
      ensures Posted(conn, Emitted(SegmentAt(RouteOf(conn), x)), x.sequence, x.control, x.payload)
    {
      hide SegmentAt, Emitted, Put16, Put32;
      OnTheWire(RouteOf(conn), x);
    }

    lemma EmptyPayload(packet: Buffer)
      requires packet.dataSize == HEADER_SIZE <= packet.MaxSize()
      ensures Carries(packet, [])
    {
    }

    /** tcpip_send_ctrl without a packet of the caller's. */
    method SendBare(conn: Conn, control: uint16, now: uint32) returns (sent: bool)
      requires Ready() && conn.Addressed() && control < 0x1000 && !HasSyn(control)
      modifies conn`txSequence, conn`lastAckSent, conn`lastEvent, conn`log, Footprint()
      ensures Ready()
      ensures sent <==> FirstFit(old(usb.freeList.nodes), HEADER_SIZE) < |old(usb.freeList.nodes)|
      ensures !sent ==> unchanged(conn) && usb.submitted == old(usb.submitted)
      ensures sent ==> conn.lastEvent == now && Emits(conn, control, [])
      ensures InStep(conn) && Payloads(conn.log) == old(Payloads(conn.log))
      ensures usb.OthersKept(null)
      ensures usb.Pending() == old(usb.Pending()) + if sent then 1 else 0
      ensures StillHeld(old(usb.place), usb.place, if !sent then null
                        else old(usb.freeList.nodes[FirstFit(usb.freeList.nodes, HEADER_SIZE)]))
      ensures Leaves(old(LineOf()).Sends(HEADER_SIZE))
    {
      hide UsbNet.Valid, SegmentAt, Emitted, FirstFit, Grown, Payloads, Without, Carries;
      GrownNot(RouteOf(conn), conn.log, usb.submitted);
      var packet := AllocateControl();
      if packet == null {
        return false;
      }
      sent := true;
      ListsWithin();
      EmptyPayload(packet);
      SendBuffer(conn, packet, control, now, []);
      assert Payloads(conn.log) == old(Payloads(conn.log));
    }

    /** The packet has room for the headers, and the payload behind it. */
    ghost predicate Carries(packet: Buffer, payload: seq<byte>)
      reads packet`dataSize, packet.data
    {
      && packet.dataSize == HEADER_SIZE + |payload| <= packet.MaxSize()
      && packet.data[HEADER_SIZE..packet.dataSize] == payload
    }

    method SendBuffer(conn: Conn, packet: Buffer, control: uint16, now: uint32, ghost payload: seq<byte>)
      requires Ready() && conn.Addressed() && control < 0x1000
      requires Owns(packet) && Carries(packet, payload)
      modifies conn`txSequence, conn`lastAckSent, conn`lastEvent, conn`log, usb, usb.freeList, usb.transmitQueue,
               usb.pool`ptr, usb.transmitQueue.Nodes()`dataSize, packet`dataSize, packet.data
      ensures Ready()
      ensures conn.lastEvent == now && Emits(conn, control, payload)
      ensures InStep(conn) && Payloads(conn.log) == old(Payloads(conn.log)) + payload
      ensures usb.OthersKept(packet) && StillHeld(old(usb.place), usb.place, packet) && !Owns(packet)
      ensures usb.Pending() == old(usb.Pending()) + 1
      ensures Leaves(Line(old(usb.Pending()) + 1, old(usb.freeList.nodes)))
    {
      hide UsbNet.Lists, UsbNet.Sending, UsbNet.Receiving, Emitted, Grown, Payloads;
      usb.Apart();
      var payloadLen := packet.dataSize - HEADER_SIZE;
      ghost var x := Sent(conn.txSequence, payload, control, conn.rxSequence, |usb.submitted|);
      WriteHeaders(packet, SegmentOf(conn, control, packet.data[HEADER_SIZE..packet.dataSize]));
      assert LineOf() == old(LineOf());
      SendWritten(conn, packet, payloadLen, now, x);
    }

    /** The statements behind the headers, and the record of the segment. */
    method SendWritten(conn: Conn, packet: Buffer, payloadLen: nat, now: uint32, ghost x: Sent)
      requires Ready() && Owns(packet) && SegmentAt(RouteOf(conn), x).Valid()
      requires packet.Holds(Emitted(SegmentAt(RouteOf(conn), x))) && payloadLen == |x.payload|
      requires x == Sent(conn.txSequence, x.payload, x.control, conn.rxSequence, |usb.submitted|)
      modifies conn`txSequence, conn`lastAckSent, conn`lastEvent, conn`log, usb, usb.freeList, usb.transmitQueue,
               usb.pool`ptr, usb.transmitQueue.Nodes()`dataSize, packet`dataSize, packet.data
      ensures Ready()
      ensures conn.lastEvent == now && Emits(conn, x.control, x.payload)
      ensures InStep(conn) && Payloads(conn.log) == old(Payloads(conn.log)) + x.payload
      ensures usb.OthersKept(packet) && StillHeld(old(usb.place), usb.place, packet) && !Owns(packet)
      ensures usb.Pending() == old(usb.Pending()) + 1
      ensures Leaves(Line(old(usb.Pending()) + 1, old(usb.freeList.nodes)))
    {
      hide UsbNet.Lists, UsbNet.Sending, UsbNet.Receiving, UsbNet.Separate, Emitted, Grown, Payloads, SegmentAt;
      GrownByOne(RouteOf(conn), conn.log, usb.submitted, x);
      PayloadsAppend(conn.log, x);
      EmittedLength(SegmentAt(RouteOf(conn), x));
      conn.Advance(payloadLen, now, x);
      usb.Undisturbed();
      usb.Transmit(packet);
    }

    // ---------- payloads: slices of packets that leave room for the headers ----------

    /** A slice as tcpip_allocate and handle_tcp_active make it. */
    ghost predicate Payload(r: Ref)
      reads usb, r.buf.data
    {
      Owns(r.buf) && r.off == HEADER_SIZE && r.Valid() && r.MaxSize() + HEADER_SIZE == r.buf.MaxSize() <= 768
    }

    /** tcpip_allocate */
    method Allocate(size: nat) returns (payload: Pointer)
      requires Ready()
      modifies Footprint()
      ensures Ready() && usb.submitted == old(usb.submitted)
      ensures payload.Null? <==> FirstFit(old(usb.freeList.nodes), size + HEADER_SIZE) == |old(usb.freeList.nodes)|
      ensures payload.To? ==> var r := payload.ref;
                Payload(r) && !old(Owns(r.buf)) && r.DataSize() == 0 && r.MaxSize() >= size
      ensures usb.OthersKept(if payload.Null? then null else payload.ref.buf)
      ensures usb.Pending() == old(usb.Pending())
      ensures payload.To? ==> Line(usb.Pending() + 1, usb.freeList.nodes) == old(LineOf()).Sends(size + HEADER_SIZE)
      ensures payload.Null? ==> usb.freeList.nodes == old(usb.freeList.nodes)
    {
      hide UsbNet.Lists, UsbNet.Sending, UsbNet.Receiving, UsbNet.Separate, FirstFit, Without, Little16;
      usb.Apart();
      var packet := usb.BufferAllocate(size + HEADER_SIZE);
      if packet == null {
        return Null;
      }
      label Allocated:
      var r := Cut(packet);
      payload := To(r);
    }

    /** `buffer_slice(packet, TCPIP_HEADER_SIZE, 0)` */
    method Cut(packet: Buffer) returns (r: Ref)
      requires Ready() && Owns(packet) && packet.MaxSize() >= HEADER_SIZE
      modifies packet.data
      ensures Ready() && r == Ref(packet, HEADER_SIZE) && Payload(r)
      ensures r.DataSize() == if packet.dataSize >= HEADER_SIZE then packet.dataSize - HEADER_SIZE else 0
      ensures packet.data[HEADER_SIZE..] == old(packet.data[HEADER_SIZE..])
    {
      hide UsbNet.Lists, UsbNet.Sending, UsbNet.Receiving, Little16;
      usb.Apart();
      usb.DataApart({packet}, usb.pool - {packet});
      assert packet.MaxSize() <= 768;
      r := BufferSlice(Ref(packet, 0), HEADER_SIZE, 0);
      usb.HeldWritten(packet);
    }

    /** `buffer_unslice(payload, TCPIP_HEADER_SIZE, 0)` */
    method Uncut(r: Ref) returns (packet: Buffer)
      requires Ready() && Payload(r)
      modifies r.buf`dataSize, r.buf.data
      ensures Ready() && packet == r.buf && packet.dataSize == (old(r.DataSize()) + HEADER_SIZE) % 0x1_0000
      ensures packet.data[..] == old(packet.data[..])
      ensures usb.OthersKept(r.buf)
    {
      hide UsbNet.Lists, UsbNet.Sending, UsbNet.Receiving, Little16;
      usb.Apart();
      usb.DataApart({r.buf}, usb.pool - {r.buf});
      var outer := BufferUnslice(r, HEADER_SIZE, 0);
      packet := outer.buf;
      usb.HeldWritten(packet);
    }

    /** The slice holds exactly these bytes. */
    ghost predicate Filled(r: Ref, bytes: seq<byte>)
      reads r.buf`dataSize, r.buf.data
    {
      && r.Valid() && r.DataSize() == |bytes| && r.off + |bytes| <= r.buf.data.Length
      && r.buf.data[r.off..r.off + |bytes|] == bytes
    }

    /** tcpip_release */
    method Release(r: Ref)
      requires Ready() && Payload(r)
      modifies Footprint()
      ensures Ready() && usb.submitted == old(usb.submitted)
      ensures usb.freeList.nodes == Inserted(old(usb.freeList.nodes), r.buf)
      ensures usb.OthersKept(r.buf) && !Owns(r.buf) && usb.Pending() == old(usb.Pending())
    {
      hide UsbNet.Lists, UsbNet.Sending, UsbNet.Receiving, UsbNet.Separate, Inserted, Little16;
      usb.Apart();
      var packet := Uncut(r);
      usb.BufferRelease(packet);
    }

    /** tcpip_send: the payload goes out in one segment that starts where the last one ended and acknowledges
        everything received so far. */
    method Send(conn: Conn, r: Ref, now: uint32, ghost payload: seq<byte>)
      requires Ready() && conn.Valid() && conn.established
      requires Payload(r) && Filled(r, payload)
      modifies conn`txSequence, conn`lastAckSent, conn`lastEvent, conn`log, Footprint()
      ensures Ready() && conn.Valid()
      ensures conn.lastEvent == now && Emits(conn, ACK, payload)
      ensures InStep(conn) && Payloads(conn.log) == old(Payloads(conn.log)) + payload
      ensures usb.OthersKept(r.buf) && !Owns(r.buf)
      ensures Leaves(Line(old(usb.Pending()) + 1, old(usb.freeList.nodes)))
    {
      hide UsbNet.Valid, Emitted, Little16, Tiled, OpensWithSyn, FirstFit, Footprint, Grown, Payloads, Posted, Without;
      Outside(conn);
      Inside(r.buf);
      var packet := Uncut(r);
      ghost var x := Sent(conn.txSequence, payload, ACK, conn.rxSequence, |usb.submitted|);
      TiledAppend(conn.log, conn.start, conn.txSequence, x);
      OpensAppend(conn.log, x);
      var _ := SendCtrl(conn, packet, ACK, now, payload);
    }

    /** tcpip_close. The application is told by a callback on the connection, which is closed by then. */
    method Close(conn: Conn, now: uint32)
      requires Ready() && conn.Valid() && conn.log != []
      modifies conn`established, conn`rx, conn`txSequence, conn`lastAckSent, conn`lastEvent, conn`log, Footprint()
      ensures Ready() && conn.Valid() && !conn.established && conn.log != []
      ensures conn.rx == old(conn.rx).(open := false)
      ensures if FirstFit(old(usb.freeList.nodes), HEADER_SIZE) < |old(usb.freeList.nodes)|
              then Emits(conn, FIN + ACK, [])
              else usb.submitted == old(usb.submitted) && conn.log == old(conn.log)
                   && conn.lastAckSent == old(conn.lastAckSent)
      ensures conn.txSequence == old(conn.txSequence)
      ensures InStep(conn) && Payloads(conn.log) == old(Payloads(conn.log))
      ensures usb.OthersKept(null)
      ensures usb.Pending() <= old(usb.Pending()) + 1
      ensures FirstFit(old(usb.freeList.nodes), HEADER_SIZE) < |old(usb.freeList.nodes)| ==>
                StillHeld(old(usb.place), usb.place, old(usb.freeList.nodes[FirstFit(usb.freeList.nodes, HEADER_SIZE)]))
      ensures Leaves(old(LineOf()).Sends(HEADER_SIZE))
    {
      hide UsbNet.Valid, StillHeld, SegmentAt, Emitted, Tiled, OpensWithSyn, FirstFit, Grown, Payloads, Footprint,
           Posted, Without;
      Outside(conn);
      ghost var x := Sent(conn.txSequence, [], FIN + ACK, conn.rxSequence, |usb.submitted|);
      TiledAppend(conn.log, conn.start, conn.txSequence, x);
      OpensAppend(conn.log, x);
      var _ := SendCtrl(conn, null, FIN + ACK, now, []);
      label Sent:
      conn.established := false;
      conn.rx := conn.rx.(open := false);
      usb.Undisturbed@Sent();
    }

    // ---------- callbacks ----------

    /** The size fields of the slice are consistent with the storage behind it. */
    ghost predicate WithinBounds(r: Ref)
      reads r.buf`dataSize, r.buf.data
    {
      r.Valid() && r.off + r.DataSize() <= r.buf.data.Length
    }

    /** Fill in an allocated payload. */
    method FillPayload(r: Ref, bytes: seq<byte>)
      requires Ready() && Payload(r) && |bytes| <= r.MaxSize()
      modifies r.buf`dataSize, r.buf.data
      ensures Ready() && Payload(r) && Filled(r, bytes)
      ensures usb.OthersKept(r.buf)
    {
      hide UsbNet.Lists, UsbNet.Sending, UsbNet.Receiving, Little16, Wrote;
      usb.Apart();
      usb.DataApart({r.buf}, usb.pool - {r.buf});
      Fill(r, bytes);
      usb.HeldWritten(r.buf);
    }

    /** One more byte at the end of an allocated payload. */
    method Append(r: Ref, b: byte, ghost bytes: seq<byte>)
      requires Ready() && Payload(r) && Filled(r, bytes) && |bytes| < r.MaxSize()
      modifies r.buf`dataSize, r.buf.data
      ensures Ready() && Payload(r) && Filled(r, bytes + [b]) && r.MaxSize() == old(r.MaxSize())
      ensures usb.OthersKept(r.buf)
    {
      hide UsbNet.Lists, UsbNet.Sending, UsbNet.Receiving, Little16;
      usb.Apart();
      usb.DataApart({r.buf}, usb.pool - {r.buf});
      PushByte(r, b);
      usb.HeldWritten(r.buf);
    }

    /** tcpip_allocate, memcpy and tcpip_send: whatever an application has to say, if there is a buffer for it. */
    method SendBytes(conn: Conn, bytes: seq<byte>, now: uint32) returns (sent: bool)
      requires Ready() && conn.Valid() && conn.established
      modifies conn`txSequence, conn`lastAckSent, conn`lastEvent, conn`log, Footprint()
      ensures Ready() && conn.Valid()
      ensures sent <==> FirstFit(old(usb.freeList.nodes), |bytes| + HEADER_SIZE) < |old(usb.freeList.nodes)|
      ensures if sent then Emits(conn, ACK, bytes)
              else unchanged(conn) && usb.submitted == old(usb.submitted)
      ensures InStep(conn)
      ensures usb.OthersKept(null)
      ensures Leaves(old(LineOf()).Sends(|bytes| + HEADER_SIZE))
    {
      hide UsbNet.Valid, Little16, Emitted, Tiled, OpensWithSyn, FirstFit, WithinBounds, Footprint, Grown, Payloads;
      Outside(conn);
      GrownNot(RouteOf(conn), conn.log, usb.submitted);
      var p := Allocate(|bytes|);
      sent := p.To?;
      if sent {
        Inside(p.ref.buf);
        FillPayload(p.ref, bytes);
        Send(conn, p.ref, now, bytes);
      }
    }

    /** conn->callback(conn, payload), for any application. */
    method Callback(conn: Conn, payload: Pointer, script: seq<AppCall>, now: uint32)
      requires Ready() && conn.Valid() && conn.log != []
      requires payload.To? ==> Payload(payload.ref) && WithinBounds(payload.ref)
      modifies conn`established, conn`rx, conn`txSequence, conn`lastAckSent, conn`lastEvent, conn`log, Footprint()
      ensures Ready() && conn.Valid() && conn.log != []
      ensures conn.rx == old(conn.rx) || conn.rx == old(conn.rx).(open := false)
      ensures CloseConnection !in script ==> conn.rx == old(conn.rx)
      ensures CloseConnection in script ==> !conn.established
      ensures (forall i :: 0 <= i < |script| ==> script[i].ReleasePayload?) ==> unchanged(conn)
      ensures InStep(conn) && Acknowledges(conn)
    {
      hide UsbNet.Valid, Tiled, OpensWithSyn, WithinBounds, Footprint, Grown;
      Outside(conn);
      GrownNot(RouteOf(conn), conn.log, usb.submitted);
      var p := payload;
      for i := 0 to |script|
        invariant Ready() && conn.Valid() && conn.log != []
        invariant p.To? ==> Payload(p.ref) && WithinBounds(p.ref)
        invariant InStep(conn) && Acknowledges(conn)
        invariant conn.rx == old(conn.rx) || conn.rx == old(conn.rx).(open := false)
        invariant CloseConnection !in script ==> conn.rx == old(conn.rx)
        invariant CloseConnection in script[..i] ==> !conn.established
        invariant (forall j :: 0 <= j < |script| ==> script[j].ReleasePayload?) ==> unchanged(conn)
      {
        ghost var log, frames := conn.log, usb.submitted;
        assert script[..i + 1] == script[..i] + [script[i]];
        p := Call(conn, p, script[i], now);
        GrownTwice(RouteOf(conn), old(conn.log), old(usb.submitted), log, frames, conn.log, usb.submitted);
      }
    }

    method Call(conn: Conn, p: Pointer, call: AppCall, now: uint32) returns (q: Pointer)
      requires Ready() && conn.Valid() && conn.log != []
      requires p.To? ==> Payload(p.ref) && WithinBounds(p.ref)
      modifies conn`established, conn`rx, conn`txSequence, conn`lastAckSent, conn`lastEvent, conn`log, Footprint()
      ensures Ready() && conn.Valid() && conn.log != []
      ensures q.To? ==> Payload(q.ref) && WithinBounds(q.ref)
      ensures conn.rx == old(conn.rx) || (call.CloseConnection? && conn.rx == old(conn.rx).(open := false))
      ensures call.ReleasePayload? ==> unchanged(conn)
      ensures CallDone(conn, p, call, q)
      ensures InStep(conn) && Acknowledges(conn)
    {
      hide UsbNet.Valid, Little16, Emitted, Tiled, OpensWithSyn, FirstFit, Inserted, SegmentOf, Footprint, Grown,
           Payloads, Leaves, Without;
      Outside(conn);
      GrownNot(RouteOf(conn), conn.log, usb.submitted);
      q := p;
      match call
      case ReleasePayload =>
        if p.To? {
          Release(p.ref);
          q := Null;
        }
      case ReplyPayload =>
        if p.To? && conn.established {
          Send(conn, p.ref, now, Contents(p.ref));
          q := Null;
        }
      case SendData(bytes) =>
        if conn.established {
          var _ := SendBytes(conn, bytes, now);
          PayloadKept(p);
        }
      case CloseConnection =>
        if conn.established {
          Close(conn, now);
          PayloadKept(p);
        }
    }

    /** What the call was for has been done: the payload is free again, or has gone back to the peer; the bytes have
        gone out, if there was a buffer for them; the connection is closed. */
    twostate predicate CallDone(conn: Conn, p: Pointer, call: AppCall, new q: Pointer)
      reads conn, usb, usb.freeList, Storage(p)
    {
      match call
      case ReleasePayload =>
        q == Null && (p.To? ==> usb.freeList.nodes == Inserted(old(usb.freeList.nodes), p.ref.buf))
      case ReplyPayload =>
        if p.To? && old(conn.established && WithinBounds(p.ref))
        then q == Null && Emits(conn, ACK, old(Contents(p.ref)))
        else q == p && unchanged(conn)
      case SendData(bytes) =>
        q == p &&
        if old(conn.established && FirstFit(usb.freeList.nodes, |bytes| + HEADER_SIZE) < |usb.freeList.nodes|)
        then Emits(conn, ACK, bytes) else unchanged(conn)
      case CloseConnection => q == p && !conn.established
    }

    ghost function Storage(p: Pointer): set<object> {
      if p.To? then {p.ref.buf, p.ref.buf.data} else {}
    }

    ghost function Contents(r: Ref): seq<byte>
      requires WithinBounds(r)
      reads r.buf`dataSize, r.buf.data
    {
      r.buf.data[r.off..r.off + r.DataSize()]
    }

    /** A payload that the application still has survives whatever else it does. */
    twostate lemma PayloadKept(p: Pointer)
      requires usb.OthersKept(null)
      ensures p.To? && old(Payload(p.ref) && WithinBounds(p.ref)) ==> Payload(p.ref) && WithinBounds(p.ref)
    {
      if p.To? && old(Payload(p.ref)) {
        assert p.ref.buf.data[..] == old(p.ref.buf.data[..]);
      }
    }

    // ---------- received segments ----------

    /** Where the payload of a received frame starts, options included. */
    static function DataOffset(f: seq<byte>): nat
      requires |f| >= HEADER_SIZE
    {
      PAYLOAD_AT + Get16(f, 66) / 0x1000 * 4
    }

    /** The headers lie inside the frame. */
    static predicate WellFormed(f: seq<byte>) {
      |f| >= HEADER_SIZE && HEADER_SIZE <= DataOffset(f) <= |f|
    }

    static function ArrivalOf(f: seq<byte>): Arrival
      requires WellFormed(f)
    {
      Arrival(Get32(f, 58), f[DataOffset(f)..], Ends(Get16(f, 66)))
    }

    /** What is read of a frame, in octets: the data starts behind the options, FIN or RST ends the stream. */
    static lemma ArrivalInOctets(f: seq<byte>)
      requires |f| >= 74
      ensures WellFormed(f) <==> 74 <= 54 + f[66] / 16 * 4 <= |f|
      ensures WellFormed(f) ==>
                ArrivalOf(f) == Arrival(0x100_0000 * f[58] as int + 0x1_0000 * f[59] as int
                                        + 0x100 * f[60] as int + f[61],
                                        f[54 + f[66] / 16 * 4..], f[67] % 2 == 1 || f[67] / 4 % 2 == 1)
    {
      hide Ends;
      ControlOctet(f);
    }

    /** A segment matches an open connection if it comes from its peer's address and port and is for its own port. */
    lemma MatchInOctets(c: Conn, f: seq<byte>)
      requires |f| >= 74
      ensures Matches(c, f) <==>
              && c.established && f[22..38] == c.peerAddr
              && f[54..56] == Put16(c.peerPort) && f[56..58] == Put16(c.localPort)
    {
      ReadInOrder(f, 54);
      ReadInOrder(f, 56);
    }

    predicate Matches(c: Conn, f: seq<byte>)
      requires |f| >= HEADER_SIZE
      reads c
    {
      c.established && c.localPort == Get16(f, 56) && c.peerPort == Get16(f, 54) && c.peerAddr == f[22..38]
    }

    ghost predicate FirstMatch(f: seq<byte>, k: nat)
      requires |f| >= HEADER_SIZE
      reads conns
    {
      k <= |conns| && (forall i :: 0 <= i < k ==> !Matches(conns[i], f)) && (k < |conns| ==> Matches(conns[k], f))
    }

    /** The loop of handle_tcp_active over the table. */
    method FindConnection(f: seq<byte>) returns (k: nat)
      requires |f| >= HEADER_SIZE
      ensures FirstMatch(f, k)
    {
      k := 0;
      while k < |conns| && !Matches(conns[k], f)
        invariant k <= |conns| && forall i :: 0 <= i < k ==> !Matches(conns[i], f)
      {
        k := k + 1;
      }
    }

    /** `buffer_release(packet)` */
    method Drop(packet: Buffer)
      requires Ready() && Owns(packet)
      modifies Footprint()
      ensures Ready() && usb.submitted == old(usb.submitted) && !Owns(packet) && usb.OthersKept(packet)
      ensures usb.freeList.nodes == Inserted(old(usb.freeList.nodes), packet)
      ensures Onward() && usb.Pending() == old(usb.Pending())
    {
      hide UsbNet.Lists, UsbNet.Sending, UsbNet.Receiving, UsbNet.Separate, Inserted;
      usb.Apart();
      usb.BufferRelease(packet);
    }

    /** The options are cut out by moving the payload, which then becomes a slice of the packet. */
    method TakePayload(packet: Buffer, offset: nat) returns (r: Ref)
      requires Ready() && Owns(packet) && HEADER_SIZE <= offset <= packet.dataSize <= packet.MaxSize()
      modifies packet`dataSize, packet.data
      ensures Ready() && r == Ref(packet, HEADER_SIZE) && Payload(r)
      ensures Filled(r, old(packet.data[offset..packet.dataSize]))
      ensures usb.OthersKept(packet)
    {
      hide UsbNet.Lists, UsbNet.Sending, UsbNet.Receiving, Little16;
      usb.Apart();
      usb.DataApart({packet}, usb.pool - {packet});
      ghost var payload := packet.data[offset..packet.dataSize];
      StripOptions(packet, offset);
      usb.HeldWritten(packet);
      r := Cut(packet);
      BehindHeaders(packet.data, |payload|);
    }

    static lemma BehindHeaders(data: array<byte>, n: nat)
      requires HEADER_SIZE + n <= data.Length
      ensures data[HEADER_SIZE..HEADER_SIZE + n] == data[HEADER_SIZE..][..n]
    {
    }

    /** The memmove of handle_tcp_active. */
    method StripOptions(packet: Buffer, offset: nat)
      requires HEADER_SIZE <= offset <= packet.dataSize <= packet.MaxSize()
      modifies packet`dataSize, packet.data
      ensures Carries(packet, old(packet.data[offset..packet.dataSize]))
    {
      if offset > HEADER_SIZE {
        var len := packet.dataSize - offset;
        forall i | 0 <= i < len {
          packet.data[HEADER_SIZE + i] := packet.data[offset + i];
        }
        packet.dataSize := HEADER_SIZE + len;
      }
    }

    /** handle_tcp_active for the connection that the segment belongs to, up to the callback: what becomes of its
        data. */
    method BeginSegment(conn: Conn, packet: Buffer, now: uint32) returns (fate: Fate, payload: Pointer)
      requires Ready() && conn.Valid() && conn.established && Owns(packet) && packet.dataSize <= packet.MaxSize()
      requires WellFormed(packet.data[..packet.dataSize])
      modifies conn`lastAckReceived, conn`lastEvent, conn`rxSequence, conn`rx, Footprint()
      ensures Ready() && conn.Valid()
      ensures var a := ArrivalOf(old(packet.data[..packet.dataSize]));
              Judged(conn, packet, a, fate) && payload == Given(packet, a, fate)
      ensures conn.lastAckReceived == Get32(old(packet.data[..packet.dataSize]), 62) && conn.lastEvent == now
      ensures usb.submitted == old(usb.submitted) && Onward() && unchanged(usb`taken, usb`packetsIn)
      ensures usb.OthersKept(packet)
      ensures usb.Pending() == old(usb.Pending())
    {
      hide UsbNet.Valid, Tiled, OpensWithSyn, Get16, Get32, Footprint, Payload, Filled, Inserted;
      Outside(conn);
      var f := packet.data[..packet.dataSize];
      conn.lastAckReceived := Get32(f, 62);
      conn.lastEvent := now;
      usb.Undisturbed();
      fate, payload := SegmentData(conn, packet, DataOffset(f), Get32(f, 58), f[DataOffset(f)..], Ends(Get16(f, 66)));
    }

    /** A segment whose data has come before is ignored, one with something missing before it is refused, and the data
        of any other is taken and becomes the payload for the callback. */
    twostate predicate Judged(conn: Conn, packet: Buffer, a: Arrival, fate: Fate)
      reads conn, usb, usb.freeList, packet, packet.data
    {
      var s := old(conn.rx);
      && (fate.Ignored? <==> a.payload != [] && Resend(s, a))
      && (fate.Refused? <==> a.payload != [] && Ahead(s, a))
      && conn.rx == (if fate.Taken? then s.(next := Plus(s.next, |a.payload|), delivered := s.delivered + a.payload)
                     else s)
      && (if fate.Taken? && a.payload != []
          then Payload(Ref(packet, HEADER_SIZE)) && Filled(Ref(packet, HEADER_SIZE), a.payload)
               && usb.freeList.nodes == old(usb.freeList.nodes)
          else !Owns(packet) && usb.freeList.nodes == Inserted(old(usb.freeList.nodes), packet))
    }

    /** What the callback is called with; it is not called without data. */
    function Given(packet: Buffer, a: Arrival, fate: Fate): Pointer {
      if fate.Taken? && a.payload != [] then To(Ref(packet, HEADER_SIZE)) else Null
    }

    /** The cases of handle_tcp_active. */
    method SegmentData(conn: Conn, packet: Buffer, offset: nat, sequence: uint32, ghost data: seq<byte>,
                       ghost last: bool)
      returns (fate: Fate, payload: Pointer)
      requires Ready() && conn.Valid() && conn.established
      requires Owns(packet) && HEADER_SIZE <= offset <= packet.dataSize <= packet.MaxSize()
      requires data == packet.data[offset..packet.dataSize]
      modifies conn`rxSequence, conn`rx, Footprint()
      ensures Ready() && conn.Valid()
      ensures Judged(conn, packet, Arrival(sequence, data, last), fate)
      ensures payload == Given(packet, Arrival(sequence, data, last), fate)
      ensures unchanged(usb`taken, usb`packetsIn, usb`submitted)
      ensures usb.OthersKept(packet)
      ensures usb.Pending() == old(usb.Pending())
    {
      hide UsbNet.Valid, Tiled, OpensWithSyn, FirstFit, Inserted, Little16, Footprint;
      Outside(conn);
      Inside(packet);
      fate, payload := Ignored, Null;
      if packet.dataSize == offset {
        Drop(packet);
        fate := Taken;
      } else if sequence < conn.rxSequence && Plus(sequence, WINDOW_SIZE) > conn.rxSequence {
        Drop(packet);
      } else if sequence > conn.rxSequence {
        Drop(packet);
        fate := Refused;
      } else {
        var r := AcceptData(conn, packet, offset, data);
        fate, payload := Taken, To(r);
      }
    }

    method AcceptData(conn: Conn, packet: Buffer, offset: nat, ghost data: seq<byte>) returns (r: Ref)
      requires Ready() && conn.Valid()
      requires Owns(packet) && HEADER_SIZE <= offset <= packet.dataSize <= packet.MaxSize()
      requires data == packet.data[offset..packet.dataSize]
      modifies conn`rxSequence, conn`rx, packet`dataSize, packet.data
      ensures Ready() && conn.Valid()
      ensures var s := old(conn.rx);
              conn.rx == s.(next := Plus(s.next, |data|), delivered := s.delivered + data)
      ensures r == Ref(packet, HEADER_SIZE) && Payload(r) && Filled(r, data)
      ensures usb.OthersKept(packet)
    {
      hide UsbNet.Valid, Tiled, OpensWithSyn, Little16, Footprint;
      Outside(conn);
      Inside(packet);
      conn.rxSequence := Plus(conn.rxSequence, packet.dataSize - offset);
      conn.rx := conn.rx.(next := conn.rxSequence, delivered := conn.rx.delivered + data);
      usb.Undisturbed();
      r := TakePayload(packet, offset);
    }

    /** Dropping a packet makes room for a control segment. */
    lemma Room(packet: Buffer)
      requires Ready() && Owns(packet)
      ensures var nodes := Inserted(usb.freeList.nodes, packet); FirstFit(nodes, HEADER_SIZE) < |nodes|
    {
      hide UsbNet.Lists, UsbNet.Sending, UsbNet.Receiving, FirstFit, Inserted;
      usb.Apart();
      JustReleased(usb.freeList.nodes, packet, HEADER_SIZE);
    }

    /** handle_tcp_active for the connection that the segment belongs to, and any application. */
    method ActiveSegment(conn: Conn, packet: Buffer, script: seq<AppCall>, now: uint32)
      requires Ready() && conn.Valid() && conn.established && Owns(packet) && packet.dataSize <= packet.MaxSize()
      requires WellFormed(packet.data[..packet.dataSize])
      modifies conn, Footprint()
      ensures Ready() && conn.Valid() && conn.log != []
      ensures ResultOf(conn.rx, OnSegment(old(conn.rx), ArrivalOf(old(packet.data[..packet.dataSize]))), script)
      ensures var a, s := ArrivalOf(old(packet.data[..packet.dataSize])), old(conn.rx);
              a.payload != [] ==>
                && (Resend(s, a) ==> conn.log == old(conn.log) && usb.submitted == old(usb.submitted))
                && (Ahead(s, a) ==> Emits(conn, FIN + ACK, []))
                && (!Resend(s, a) && !Ahead(s, a) && CloseConnection in script ==> !conn.established)
      ensures Identity(conn) && InStep(conn)
      ensures conn.lastAckReceived == Get32(old(packet.data[..packet.dataSize]), 62)
    {
      hide UsbNet.Valid, Tiled, OpensWithSyn, Get16, Get32, UsbNet.OthersKept, Footprint, Payload, FirstFit, Inserted,
           Little16, Grown, Emitted, SegmentAt, Line.Sends, Leaves, Payloads;
      Outside(conn);
      Room(packet);
      GrownNot(RouteOf(conn), conn.log, usb.submitted);
      ghost var a := ArrivalOf(packet.data[..packet.dataSize]);
      var control := Get16(packet.data[..packet.dataSize], 66);
      var fate, payload := BeginSegment(conn, packet, now);
      if fate.Refused? {
        Close(conn, now);
      } else if fate.Taken? {
        Deliver(conn, payload, script, control, now);
      }
    }

    /** The rest of handle_tcp_active for a segment whose data was taken. */
    method Deliver(conn: Conn, payload: Pointer, script: seq<AppCall>, control: uint16, now: uint32)
      requires Ready() && conn.Valid() && conn.log != []
      requires payload.To? ==> Payload(payload.ref) && WithinBounds(payload.ref)
      modifies conn, Footprint()
      ensures Ready() && conn.Valid() && conn.log != []
      ensures var s := old(conn.rx);
              ResultOf(conn.rx, if Ends(control) then RxState(Plus(s.next, 1), false, s.delivered) else s, script)
      ensures Identity(conn) && InStep(conn) && conn.lastAckReceived == old(conn.lastAckReceived)
      ensures payload.To? && CloseConnection in script ==> !conn.established
    {
      hide UsbNet.Valid, Tiled, OpensWithSyn, UsbNet.OthersKept, Footprint, Payload, WithinBounds, Grown;
      Outside(conn);
      GrownNot(RouteOf(conn), conn.log, usb.submitted);
      if payload.To? {
        Callback(conn, payload, script, now);
      }
      if Ends(control) {
        ghost var log, frames := conn.log, usb.submitted;
        EndOfStream(conn, now);
        GrownTwice(RouteOf(conn), old(conn.log), old(usb.submitted), log, frames, conn.log, usb.submitted);
      }
    }

    /** The state is this one, except that an application that closes connections may have closed it. */
    ghost predicate ResultOf(now: RxState, expected: RxState, script: seq<AppCall>) {
      now == expected || (CloseConnection in script && now == expected.(open := false))
    }

    /** What FIN or RST causes. */
    method EndOfStream(conn: Conn, now: uint32)
      requires Ready() && conn.Valid() && conn.log != []
      modifies conn, Footprint()
      ensures Ready() && conn.Valid() && conn.log != [] && !conn.established
      ensures conn.rx == old(conn.rx).(next := Plus(old(conn.rx.next), 1), open := false)
      ensures Identity(conn) && InStep(conn) && Payloads(conn.log) == old(Payloads(conn.log))
      ensures unchanged(conn`lastAckReceived, conn`position, conn`handler)
      ensures usb.OthersKept(null)
      ensures Leaves(old(LineOf()).Sends(HEADER_SIZE))
    {
      hide UsbNet.Lists, UsbNet.Sending, UsbNet.Receiving, Tiled, OpensWithSyn, FirstFit, Emitted, SegmentOf,
           Footprint, Grown, Payloads;
      Outside(conn);
      conn.rxSequence := Plus(conn.rxSequence, 1);
      conn.rx := conn.rx.(next := conn.rxSequence);
      usb.Undisturbed();
      Close(conn, now);
    }

    /** The ends of a connection do not change. */
    twostate predicate Identity(conn: Conn)
      reads conn
    {
      && conn.start == old(conn.start) && conn.peerAddr == old(conn.peerAddr) && conn.peerMac == old(conn.peerMac)
      && conn.peerPort == old(conn.peerPort) && conn.localPort == old(conn.localPort)
    }

    /** handle_tcp_active. A connection's segment changes that connection alone, by the rules of TcpStream.OnSegment;
        a bare acknowledgement for nobody is ignored, and anything else for nobody is answered with a reset. */
    method HandleTcpActive(packet: Buffer, script: seq<AppCall>, now: uint32) returns (k: nat)
      requires Ready() && Table() && Owns(packet) && packet.dataSize <= packet.MaxSize()
      requires WellFormed(packet.data[..packet.dataSize])
      modifies conns, Footprint()
      ensures Ready() && Table()
      ensures old(FirstMatch(packet.data[..packet.dataSize], k))
      ensures forall i :: 0 <= i < |conns| && i != k ==> unchanged(conns[i])
      ensures k < |conns| ==>
                var a := ArrivalOf(old(packet.data[..packet.dataSize]));
                && ResultOf(conns[k].rx, OnSegment(old(conns[k].rx), a), script)
                && Identity(conns[k]) && InStep(conns[k])
      ensures Onward()
      ensures k == |conns| ==>
                var f := old(packet.data[..packet.dataSize]);
                if HasAck(Get16(f, 66)) && DataOffset(f) == |f| then usb.submitted == old(usb.submitted)
                else usb.submitted == old(usb.submitted) + [Reset(f)] && Refuses(Reset(f), f)
    {
      hide UsbNet.Valid, Tiled, OpensWithSyn, Little16, Get32, Get16, OnSegment, Reset, UsbNet.OthersKept, Footprint,
           Grown, Refuses;
      OutsideAll();
      var f := packet.data[..packet.dataSize];
      k := FindConnection(f);
      usb.Undisturbed();
      if k < |conns| {
        ActiveSegment(conns[k], packet, script, now);
      } else if HasAck(Get16(f, 66)) && packet.dataSize == DataOffset(f) {
        Drop(packet);
      } else {
        SendReset(packet);
      }
    }

    /** The reset that answers a frame: its addresses and ports exchanged, its acknowledgement number as sequence
        number and its sequence number, or the next one after a SYN, as acknowledgement. */
    function Reset(f: seq<byte>): seq<byte>
      requires |f| >= HEADER_SIZE && |localMac| == 6 && |localAddr| == 16
    {
      var ack := if HasSyn(Get16(f, 66)) then Plus(Get32(f, 58), 1) else Get32(f, 58);
      var g := ResetHeaders(f, ack);
      ResetLayout(f, ack);
      var checksum := 0xFFFF - OnesComplement(ReceiverSum(g));
      g[70 := checksum / 256][71 := checksum % 256]
    }

    function ResetHeaders(f: seq<byte>, ack: uint32): seq<byte>
      requires |f| >= HEADER_SIZE
    {
      f[6..12] + localMac + Put16(0x86DD)
      + [0x60, 0, 0, 0] + Put16(20) + [f[20], 255] + localAddr + f[22..38]
      + f[56..58] + f[54..56] + f[62..66] + Put32(ack) + Put16(0x5000 + RST + ACK) + f[68..70] + [0, 0] + [0, 0]
    }

    lemma ResetLayout(f: seq<byte>, ack: uint32)
      requires |f| >= HEADER_SIZE && |localMac| == 6 && |localAddr| == 16
      ensures var g := ResetHeaders(f, ack);
              && |g| == HEADER_SIZE && Get16(g, 18) == 20 && g[70] == 0 && g[71] == 0
              && g[38..54] == f[22..38] && g[54..56] == f[56..58] && g[56..58] == f[54..56]
              && g[58..62] == f[62..66] && Get32(g, 62) == ack && Get16(g, 66) == 0x5000 + RST + ACK
    {
    }

    /** The frame is the right refusal of another one: it goes back to where that came from, port by port, continues
        with the number that its sender expects, and acknowledges its number, behind a SYN the next one. */
    ghost predicate Refuses(g: seq<byte>, f: seq<byte>)
      requires |f| >= 74
    {
      && |g| == 74 && g[0..6] == f[6..12] && g[6..12] == localMac && g[12..18] == [0x86, 0xDD, 0x60, 0, 0, 0]
      && g[18..20] == [0, 20] && g[20] == f[20] && g[21] == 255
      && g[22..38] == localAddr && g[38..54] == f[22..38] && g[54..56] == f[56..58] && g[56..58] == f[54..56]
      && g[58..62] == f[62..66]
      && g[62..66] == Put32((Get32(f, 58) + if f[67] / 2 % 2 == 1 then 1 else 0) % 0x1_0000_0000)
      && g[66..68] == [0x50, 0x14] && g[72..74] == [0, 0]
    }

    lemma ResetRefuses(f: seq<byte>)
      requires |f| >= HEADER_SIZE && |localMac| == 6 && |localAddr| == 16
      ensures Refuses(Reset(f), f)
    {
      hide ReceiverSum, OnesComplement, HasSyn, Get16, Get32, Put32, ResetHeaders;
      var g := Reset(f);
      ControlOctet(f);
      var ack := if HasSyn(Get16(f, 66)) then Plus(Get32(f, 58), 1) else Get32(f, 58);
      ResetLayout(f, ack);
      ResetOctets(f, ack);
      var h := ResetHeaders(f, ack);
      RestAsBefore(h, g, 0xFFFF - OnesComplement(ReceiverSum(h)));
    }

    static lemma RestAsBefore(h: seq<byte>, g: seq<byte>, checksum: uint16)
      requires |h| == 74 && g == h[70 := checksum / 256][71 := checksum % 256]
      ensures |g| == 74 && g[0..6] == h[0..6] && g[6..12] == h[6..12] && g[12..18] == h[12..18]
      ensures g[18..20] == h[18..20] && g[20] == h[20] && g[21] == h[21]
      ensures g[22..38] == h[22..38] && g[38..54] == h[38..54]
      ensures g[54..56] == h[54..56] && g[56..58] == h[56..58] && g[58..62] == h[58..62] && g[62..66] == h[62..66]
      ensures g[66..68] == h[66..68] && g[72..74] == h[72..74]
    {
    }

    lemma ResetOctets(f: seq<byte>, ack: uint32)
      requires |f| >= HEADER_SIZE && |localMac| == 6 && |localAddr| == 16
      ensures var h := ResetHeaders(f, ack);
              && |h| == 74 && h[0..6] == f[6..12] && h[6..12] == localMac && h[12..18] == [0x86, 0xDD, 0x60, 0, 0, 0]
              && h[18..20] == [0, 20] && h[20] == f[20] && h[21] == 255
              && h[22..38] == localAddr && h[38..54] == f[22..38] && h[54..56] == f[56..58] && h[56..58] == f[54..56]
              && h[58..62] == f[62..66] && h[62..66] == Put32(ack) && h[66..68] == [0x50, 0x14] && h[72..74] == [0, 0]
    {
      hide Put32, Get32;
    }

    /** A reset passes the check of its receiver. */
    lemma ResetChecks(f: seq<byte>)
      requires |f| >= HEADER_SIZE && |localMac| == 6 && |localAddr| == 16
      ensures var g := Reset(f);
              |g| == HEADER_SIZE && Get16(g, 18) == 20 && OnesComplement(ReceiverSum(g)) == 0xFFFF
    {
      hide ResetHeaders, ReceiverSum, Get16, OnesComplement;
      var ack := if HasSyn(Get16(f, 66)) then Plus(Get32(f, 58), 1) else Get32(f, 58);
      ResetLayout(f, ack);
      var g := ResetHeaders(f, ack);
      SumStored(g, 16, 0xFFFF - OnesComplement(ReceiverSum(g)));
      ComplementFolds(ReceiverSum(g));
    }

    /** tcp_send_rst */
    method SendReset(packet: Buffer)
      requires Ready() && Owns(packet) && HEADER_SIZE <= packet.dataSize <= packet.MaxSize()
      modifies Footprint()
      ensures Ready()
      ensures usb.submitted == old(usb.submitted) + [Reset(old(packet.data[..packet.dataSize]))]
      ensures Refuses(usb.submitted[|old(usb.submitted)|], old(packet.data[..packet.dataSize]))
      ensures usb.OthersKept(packet) && Onward()
    {
      hide UsbNet.Lists, UsbNet.Sending, UsbNet.Receiving, ReceiverSum, Get16, Get32, OnesComplement, ResetHeaders,
           Reset, Refuses;
      usb.Apart();
      ResetRefuses(packet.data[..packet.dataSize]);
      WriteReset(packet);
      usb.Transmit(packet);
    }

    method WriteReset(packet: Buffer)
      requires Ready() && Owns(packet) && HEADER_SIZE <= packet.dataSize <= packet.MaxSize()
      modifies packet`dataSize, packet.data
      ensures Ready() && packet.Holds(Reset(old(packet.data[..packet.dataSize])))
      ensures usb.OthersKept(packet)
    {
      hide UsbNet.Lists, UsbNet.Sending, UsbNet.Receiving, ReceiverSum, Get16, Get32, OnesComplement, ResetHeaders;
      usb.Apart();
      usb.DataApart({packet}, usb.pool - {packet});
      var f := packet.data[..packet.dataSize];
      var ack := if HasSyn(Get16(f, 66)) then Plus(Get32(f, 58), 1) else Get32(f, 58);
      ResetLayout(f, ack);
      ghost var tail := packet.data[HEADER_SIZE..];
      Store(packet.data, 0, ResetHeaders(f, ack));
      packet.dataSize := HEADER_SIZE;
      assert packet.data[..] == ResetHeaders(f, ack) + tail;
      FinishReset(packet.data, ResetHeaders(f, ack), tail);
      usb.HeldWritten(packet);
    }

    static method FinishReset(data: array<byte>, g: seq<byte>, ghost tail: seq<byte>)
      requires data[..] == g + tail && |g| == HEADER_SIZE && Get16(g, 18) == 20 && g[70] == 0 && g[71] == 0
      modifies data
      ensures var checksum := 0xFFFF - OnesComplement(ReceiverSum(g));
              data[..HEADER_SIZE] == g[70 := checksum / 256][71 := checksum % 256]
    {
      hide ReceiverSum, Get16, OnesComplement;
      PrefixFields(g, tail);
      var checksum := StoreChecksum(data, 16);
    }

    static lemma PrefixFields(g: seq<byte>, tail: seq<byte>)
      requires |g| == HEADER_SIZE && Get16(g, 18) == 20
      ensures Get16(g + tail, 18) == 20 && ReceiverSum(g + tail) == ReceiverSum(g)
    {
      SumOfPrefix(g, tail);
    }

    // ---------- opening and closing connections ----------

    /** `time_now - conn->last_event`, a uint32_t subtraction */
    function Age(now: uint32, event: uint32): uint32 {
      InFlight(now, event)
    }

    /** The first slot of the greatest age among the first n. */
    ghost predicate Oldest(now: uint32, k: nat, n: nat)
      reads conns
    {
      && k < n <= |conns|
      && (forall i :: 0 <= i < n ==> Age(now, conns[i].lastEvent) <= Age(now, conns[k].lastEvent))
      && (forall i :: 0 <= i < k ==> Age(now, conns[i].lastEvent) < Age(now, conns[k].lastEvent))
    }

    ghost predicate FirstClosed(k: nat)
      reads conns
    {
      k < |conns| && !conns[k].established && forall i :: 0 <= i < k ==> conns[i].established
    }

    /** The slot that a new connection gets. */
    ghost predicate SlotFor(now: uint32, k: nat)
      reads conns
    {
      if forall i :: 0 <= i < |conns| ==> conns[i].established then Oldest(now, k, |conns|) else FirstClosed(k)
    }

    /** A closed slot is preferred, the first one if there are several. */
    lemma ClosedSlotFirst(now: uint32, k: nat)
      requires SlotFor(now, k) && exists i :: 0 <= i < |conns| && !conns[i].established
      ensures k < |conns| && !conns[k].established && forall i :: 0 <= i < k ==> conns[i].established
    {
    }

    /** Otherwise it is the slot for which the most time has passed since its last event, whatever wraps there are. */
    lemma OldestSlot(now: uint32, k: nat, passed: seq<uint32>)
      requires SlotFor(now, k) && conns != [] && forall i :: 0 <= i < |conns| ==> conns[i].established
      requires |passed| == |conns|
      requires forall i :: 0 <= i < |conns| ==> (conns[i].lastEvent + passed[i]) % 0x1_0000_0000 == now
      ensures k < |conns|
      ensures forall i :: 0 <= i < |conns| ==> passed[i] <= passed[k] && (i < k ==> passed[i] < passed[k])
    {
      forall i | 0 <= i < |conns|
        ensures Age(now, conns[i].lastEvent) == passed[i]
      {
        AgeIsTimePassed(now, conns[i].lastEvent, passed[i]);
      }
    }

    lemma AgeIsTimePassed(now: uint32, event: uint32, passed: uint32)
      requires (event + passed) % 0x1_0000_0000 == now
      ensures Age(now, event) == passed
    {
    }

    /** While the clock has not wrapped, that is the slot with the earliest last event. */
    lemma EarliestSlot(now: uint32, k: nat)
      requires SlotFor(now, k) && conns != [] && forall i :: 0 <= i < |conns| ==> conns[i].established
      requires forall i :: 0 <= i < |conns| ==> conns[i].lastEvent <= now
      ensures k < |conns| && forall i :: 0 <= i < |conns| ==> conns[k].lastEvent <= conns[i].lastEvent
    {
      var passed: seq<uint32> := seq(|conns|, i requires 0 <= i < |conns| reads conns => now - conns[i].lastEvent);
      OldestSlot(now, k, passed);
    }

    /** The loop of allocate_connection. */
    method ChooseSlot(now: uint32) returns (k: nat, free: bool)
      requires conns != []
      ensures k < |conns| && SlotFor(now, k) && free == !conns[k].established
    {
      var oldest := 0;
      for i := 0 to |conns|
        invariant forall j :: 0 <= j < i ==> conns[j].established
        invariant if i == 0 then oldest == 0 else Oldest(now, oldest, i)
      {
        if !conns[i].established {
          return i, true;
        }
        if Age(now, conns[i].lastEvent) > Age(now, conns[oldest].lastEvent) {
          oldest := i;
        }
      }
      return oldest, false;
    }

    /** A connection that was open is told so by a FIN, as long as there is a buffer for it. */
    twostate predicate Farewell(conn: Conn)
      reads usb
    {
      if old(conn.established) && FirstFit(old(usb.freeList.nodes), HEADER_SIZE) < |old(usb.freeList.nodes)|
      then old(SegmentOf(conn, FIN + ACK, [])).Valid()
           && usb.submitted == old(usb.submitted) + [Emitted(old(SegmentOf(conn, FIN + ACK, [])))]
      else usb.submitted == old(usb.submitted)
    }

    /** The slot is emptied, after a farewell to the peer that still uses it. */
    method Recycle(conn: Conn, free: bool, now: uint32)
      requires Ready() && conn.Valid() && free == !conn.established
      modifies conn, Footprint()
      ensures Ready() && conn.Blank()
      ensures Farewell(conn) && Onward()
      ensures usb.OthersKept(null)
    {
      hide UsbNet.Lists, UsbNet.Sending, UsbNet.Receiving, Tiled, OpensWithSyn, FirstFit, Emitted, Footprint, Grown,
           Payloads;
      Outside(conn);
      if !free {
        Close(conn, now);
      }
      assert Farewell(conn);
      label Closed:
      conn.Clear();
      usb.Undisturbed@Closed();
    }

    /** allocate_connection: a closed slot if there is one, otherwise the one without an event for the longest time,
        which is closed first. No other connection changes. */
    method AllocateConnection(now: uint32) returns (k: nat)
      requires Ready() && Table() && conns != []
      modifies conns, Footprint()
      ensures Ready() && Table() && k < |conns|
      ensures forall i :: 0 <= i < |conns| && i != k ==> unchanged(conns[i])
      ensures conns[k].Blank()
      ensures old(SlotFor(now, k))
      ensures Farewell(conns[k]) && Onward()
      ensures usb.OthersKept(null)
    {
      hide UsbNet.Lists, UsbNet.Sending, UsbNet.Receiving, Tiled, OpensWithSyn, FirstFit, Emitted, SlotFor, Footprint;
      OutsideAll();
      var free;
      k, free := ChooseSlot(now);
      usb.Undisturbed();
      Recycle(conns[k], free, now);
    }

    /** handle_tcp_syn once a listener is found: the slot is filled in from the headers of the SYN, and the packet
        itself goes back as SYN and ACK. */
    method Establish(conn: Conn, packet: Buffer, port: uint16, clock: uint32, now: uint32)
      requires Ready() && conn.Blank() && Owns(packet) && HEADER_SIZE <= packet.dataSize <= packet.MaxSize()
      requires port == Get16(packet.data[..packet.dataSize], 56)
      modifies conn, Footprint()
      ensures Ready() && conn.Valid() && conn.established
      ensures var f := old(packet.data[..packet.dataSize]);
              var next := Plus(Get32(f, 58), 1);
              && Peers(conn, f) && conn.rx == RxState(next, true, [])
              && conn.start == Plus(next, clock) && conn.txSequence == Plus(conn.start, 1)
              && conn.lastAckReceived == conn.start && conn.lastAckSent == next
              && conn.log == [Sent(conn.start, [], SYN + ACK, next, |old(usb.submitted)|)]
      ensures Recorded(conn) && |usb.submitted| == |old(usb.submitted)| + 1 && Onward()
      ensures usb.OthersKept(packet)
    {
      hide UsbNet.Lists, UsbNet.Sending, UsbNet.Receiving, Tiled, OpensWithSyn, FirstFit, Emitted, Get16, Get32,
           TcpLog.Recorded, Footprint;
      Outside(conn);
      Inside(packet);
      conn.FillIn(packet.data[..packet.dataSize], port, clock);
      usb.Undisturbed();
      label Filled:
      packet.dataSize := HEADER_SIZE;
      usb.HeldWritten@Filled(packet);
      AnswerSyn(conn, packet, now);
    }

    method AnswerSyn(conn: Conn, packet: Buffer, now: uint32)
      requires Ready() && conn.Addressed() && conn.log == [] && conn.established
      requires conn.start == conn.txSequence && conn.rx == RxState(conn.rxSequence, true, [])
      requires Owns(packet) && packet.dataSize == HEADER_SIZE
      modifies conn`txSequence, conn`lastAckSent, conn`lastEvent, conn`log, Footprint()
      ensures Ready() && conn.Valid()
      ensures conn.txSequence == Plus(conn.start, 1) && conn.lastAckSent == conn.rxSequence
      ensures conn.log == [Sent(conn.start, [], SYN + ACK, conn.rxSequence, |old(usb.submitted)|)]
      ensures Recorded(conn) && |usb.submitted| == |old(usb.submitted)| + 1 && Onward()
      ensures usb.OthersKept(packet)
    {
      hide UsbNet.Lists, UsbNet.Sending, UsbNet.Receiving, Tiled, OpensWithSyn, FirstFit, Emitted, Footprint, Grown,
           Payloads, TcpLog.Recorded, SegmentAt, Posted, Without;
      Outside(conn);
      usb.Apart();
      assert packet.data[HEADER_SIZE..packet.dataSize] == [];
      var _ := SendCtrl(conn, packet, SYN + ACK, now, []);
      assert conn.log == [Sent(conn.start, [], SYN + ACK, conn.rxSequence, |old(usb.submitted)|)];
      SynLogged(conn.start, conn.rxSequence, |old(usb.submitted)|);
      NothingRecorded(RouteOf(conn), usb.submitted);
      RecordedGrown(RouteOf(conn), [], old(usb.submitted), conn.log, usb.submitted);
      label Answered:
      conn.txSequence := Plus(conn.txSequence, 1);
      usb.Undisturbed@Answered();
    }

    /** The connection is the one between the sender and the addressee of the frame. */
    ghost predicate Peers(c: Conn, f: seq<byte>)
      requires |f| >= HEADER_SIZE
      reads c
    {
      && c.peerAddr == f[22..38] && c.peerMac == f[6..12]
      && c.peerPort == Get16(f, 54) && c.localPort == Get16(f, 56)
    }

    /** The connection was opened by this SYN, has answered it and expects the byte behind it. */
    ghost predicate Opened(c: Conn, f: seq<byte>, clock: uint32)
      requires |f| >= HEADER_SIZE
      reads c
    {
      var next := Plus(Get32(f, 58), 1);
      && Peers(c, f) && c.start == Plus(next, clock) && c.log != []
      && c.log[0] == Sent(c.start, [], SYN + ACK, next, c.log[0].at)
      && (c.rx == RxState(next, true, []) || c.rx == RxState(next, false, []))
    }

    /** That is: its segments go back to where the SYN came from, port by port. */
    lemma PostedToPeer(c: Conn, f: seq<byte>, g: seq<byte>, sequence: uint32, control: uint16, payload: seq<byte>)
      requires |f| >= 74 && Peers(c, f) && Posted(c, g, sequence, control, payload)
      ensures g[0..6] == f[6..12] && g[6..12] == localMac && g[22..38] == localAddr && g[38..54] == f[22..38]
      ensures g[54..56] == f[56..58] && g[56..58] == f[54..56]
    {
      hide Put16;
      ReadInOrder(f, 54);
      ReadInOrder(f, 56);
    }

    ghost predicate FirstListener(port: uint16, i: nat) {
      i <= |ports| && port !in ports[..i] && (i < |ports| ==> ports[i] == port)
    }

    /** The loop of handle_tcp_syn over the listeners. */
    method FindListener(port: uint16) returns (i: nat)
      ensures FirstListener(port, i)
    {
      i := 0;
      while i < |ports| && ports[i] != port
        invariant i <= |ports| && port !in ports[..i]
      {
        i := i + 1;
      }
    }

    /** With the four services registered (HTTP, echo, discard and character generator), a SYN to port 0 finds the first
        of the free slots, which has no callback. */
    lemma SynToPortZero(f: seq<byte>, i: nat)
      requires ports == [80, 7, 9, 19, 0, 0, 0, 0] && |f| >= HEADER_SIZE && f[56..58] == [0, 0]
      ensures FirstListener(Get16(f, 56), i) <==> i == 4
      ensures Get16(f, 56) == 0 && 0 in ports
    {
      assert f[56] == f[56..58][0] && f[57] == f[56..58][1];
      assert ports[4] == 0;
      if i > 4 && i <= |ports| {
        assert ports[..i][4] == 0;
      }
    }

    /** handle_tcp_syn: a connection for a listening port, a reset for any other. A SYN to port 0 matches a free slot of
        the listeners, and the callback of the new connection is a null pointer: `nullCall` tells that it is called. */
    method HandleTcpSyn(packet: Buffer, script: seq<AppCall>, clock: uint32, now: uint32)
      returns (k: nat, nullCall: bool)
      requires Ready() && Table() && conns != [] && Owns(packet)
      requires HEADER_SIZE <= packet.dataSize <= packet.MaxSize()
      modifies conns, Footprint()
      ensures Ready() && Table() && k <= |conns|
      ensures forall i :: 0 <= i < |conns| && i != k ==> unchanged(conns[i])
      ensures var f := old(packet.data[..packet.dataSize]);
              && (k == |conns| <==> Get16(f, 56) !in ports)
              && (k == |conns| ==> usb.submitted == old(usb.submitted) + [Reset(f)] && Refuses(Reset(f), f))
              && (k < |conns| ==>
                    old(SlotFor(now, k)) && Opened(conns[k], f, clock) && Recorded(conns[k]))
              && (nullCall <==> Get16(f, 56) == 0 && 0 in ports)
              && (k < |conns| ==> (conns[k].established <==> nullCall || CloseConnection !in script))
      ensures Onward()
    {
      hide UsbNet.Valid, Tiled, OpensWithSyn, FirstFit, Emitted, Get16, Get32, Reset, SlotFor, SegmentOf, Opened,
           UsbNet.OthersKept, Footprint, TcpLog.Recorded, Refuses;
      OutsideAll();
      ghost var f := packet.data[..packet.dataSize];
      var port := Get16(packet.data[..packet.dataSize], 56);
      var i := FindListener(port);
      usb.Undisturbed();
      if i == |ports| {
        SendReset(packet);
        return |conns|, false;
      }
      k, nullCall := AcceptSyn(packet, script, port, clock, now, f);
    }

    /** handle_tcp_syn for a listener. */
    method AcceptSyn(packet: Buffer, script: seq<AppCall>, port: uint16, clock: uint32, now: uint32, ghost f: seq<byte>)
      returns (k: nat, nullCall: bool)
      requires Ready() && Table() && conns != [] && Owns(packet)
      requires packet.Holds(f) && HEADER_SIZE <= |f| && port == Get16(f, 56)
      modifies conns, Footprint()
      ensures Ready() && Table() && k < |conns|
      ensures forall i :: 0 <= i < |conns| && i != k ==> unchanged(conns[i])
      ensures old(SlotFor(now, k)) && Opened(conns[k], f, clock) && Recorded(conns[k]) && Onward()
      ensures nullCall <==> port == 0
      ensures conns[k].established <==> nullCall || CloseConnection !in script
    {
      hide UsbNet.Valid, Tiled, OpensWithSyn, FirstFit, Emitted, Get16, Get32, Reset, SlotFor, SegmentOf, Opened,
           Farewell, Footprint, TcpLog.Recorded;
      OutsideAll();
      Inside(packet);
      k := AllocateConnection(now);
      nullCall := OpenAndCall(conns[k], packet, script, port, clock, now, f);
    }

    method OpenAndCall(conn: Conn, packet: Buffer, script: seq<AppCall>, port: uint16, clock: uint32, now: uint32,
                       ghost f: seq<byte>) returns (nullCall: bool)
      requires Ready() && conn.Blank() && Owns(packet) && packet.Holds(f)
      requires HEADER_SIZE <= |f| && port == Get16(f, 56)
      modifies conn, Footprint()
      ensures Ready() && conn.Valid() && Opened(conn, f, clock) && Recorded(conn) && Onward()
      ensures nullCall <==> port == 0
      ensures conn.established <==> nullCall || CloseConnection !in script
    {
      hide UsbNet.Valid, Tiled, OpensWithSyn, Emitted, Get16, Get32, SegmentOf, Footprint, TcpLog.Recorded;
      Outside(conn);
      Establish(conn, packet, port, clock, now);
      nullCall := port == 0;
      if !nullCall {
        ghost var log, frames := conn.log, usb.submitted;
        Callback(conn, Null, script, now);
        RecordedGrown(RouteOf(conn), log, frames, conn.log, usb.submitted);
      }
    }

    // ---------- polling ----------

    /** One connection's turn in tcp_poll. The acknowledgement of data to which the application has not replied is
        sent by a call that unslices a null pointer: `stuck` tells that this call is reached. */
    method PollConnection(conn: Conn, script: seq<AppCall>, now: uint32) returns (stuck: bool)
      requires Ready() && conn.Valid()
      modifies conn, Footprint()
      ensures Ready() && conn.Valid() && Identity(conn) && InStep(conn) && Onward()
      ensures !old(conn.established) ==> unchanged(conn) && usb.submitted == old(usb.submitted)
      ensures stuck <==> old(conn.established && conn.lastAckSent != conn.rxSequence) && conn.log == old(conn.log)
      ensures CloseConnection in script ==> !conn.established
      ensures !stuck && conn.established ==>
                conn.lastAckSent == conn.rxSequence && !OverLimit(conn.txSequence, conn.lastAckReceived)
      ensures script == [] ==> (stuck <==> old(conn.established && conn.lastAckSent != conn.rxSequence))
      ensures conn.rx == old(conn.rx) || conn.rx == old(conn.rx).(open := false)
      ensures !stuck && OverLimit(conn.txSequence, conn.lastAckReceived) ==> !conn.established || !old(conn.established)
      ensures old(conn.established) && CloseConnection !in script ==>
                (conn.established <==> stuck || !OverLimit(conn.txSequence, conn.lastAckReceived))
    {
      hide UsbNet.Lists, UsbNet.Sending, UsbNet.Receiving, Tiled, OpensWithSyn, FirstFit, Emitted, SegmentOf,
           OverLimit, Footprint, Grown, Payloads;
      Outside(conn);
      GrownNot(RouteOf(conn), conn.log, usb.submitted);
      stuck := false;
      if conn.established {
        Callback(conn, Null, script, now);
        if conn.lastAckSent != conn.rxSequence {
          stuck := true;
        } else if OverLimit(conn.txSequence, conn.lastAckReceived) {
          ghost var log, frames := conn.log, usb.submitted;
          Close(conn, now);
          GrownTwice(RouteOf(conn), old(conn.log), old(usb.submitted), log, frames, conn.log, usb.submitted);
        }
      }
    }
  }
}
