/** The whole system after start-up (src/main.c). */
module Firmware {
  import opened Bytes
  import opened Framing
  import opened Buffers
  import opened UsbNetwork
  import opened TcpStream
  import opened Tcpip
  import opened TcpSession
  import S = Session

  /** usbnet_init and the tables of the TCP layer: the state that all invariants start from. */
  method Boot(ports: seq<uint16>, mac: seq<byte>, addr: seq<byte>) returns (net: Stack)
    requires |mac| == 6 && |addr| == 16
    ensures net.Ready() && net.Table() && net.usb.Fresh() && net.usb.Flowing() && net.usb.NoneHeld()
    ensures |net.conns| == 4 && forall i :: 0 <= i < |net.conns| ==> Vacant(net.conns[i])
    ensures net.localMac == mac && net.localAddr == addr && net.ports == ports
    ensures fresh(S.Objects(net.usb)) && forall i :: 0 <= i < |net.conns| ==> fresh(net.conns[i])
  {
    hide UsbNet.Valid, Tiled, OpensWithSyn, UsbNet.Fresh, S.Objects;
    var conns := NewConnections();
    var usb := NewDevice();
    label Initialised:
    net := new Stack(usb, conns, ports, mac, addr);
    usb.Undisturbed@Initialised();
  }

  /** usbnet_init on the static storage of the program. */
  method NewDevice() returns (usb: UsbNet)
    ensures fresh(S.Objects(usb)) && usb in S.Objects(usb) && usb.Valid() && usb.Fresh()
    ensures usb.Flowing() && usb.NoneHeld()
  {
    hide UsbNet.Valid, UsbNet.Separate, Deframe, Framed, Distinct;
    usb := new UsbNet();
    usb.Init();
  }

  /** A slot in which no connection has been yet. */
  ghost predicate Vacant(conn: Conn)
    reads conn
  {
    !conn.established && conn.log == [] && conn.rx == RxState(0, false, [])
  }

  /** g_tcpip_connections before any of them is used. */
  method NewConnections() returns (conns: seq<Conn>)
    ensures |conns| == MAX_CONNECTIONS && forall i, j :: 0 <= i < j < |conns| ==> conns[i] != conns[j]
    ensures forall i :: 0 <= i < |conns| ==> fresh(conns[i]) && conns[i].Valid() && Vacant(conns[i])
  {
    hide Tiled, OpensWithSyn;
    conns := [];
    for i := 0 to MAX_CONNECTIONS
      invariant |conns| == i && forall j, k :: 0 <= j < k < i ==> conns[j] != conns[k]
      invariant forall j :: 0 <= j < i ==> fresh(conns[j]) && conns[j].Valid() && Vacant(conns[j])
    {
      var c := new Conn();
      conns := conns + [c];
    }
  }

  /** The program of src/main.c, for as long as the schedule lasts: in every state that it reaches, everything that a
      connection has delivered and sent is accounted for by the frames received and sent, and a device that waits for a
      frame has sent everything. */
  method Session(ports: seq<uint16>, mac: seq<byte>, addr: seq<byte>, schedule: seq<Step>)
    returns (net: Stack, stop: Stop, ghost hs: seq<History>)
    requires |mac| == 6 && |addr| == 16
    ensures net.Ready() && net.Table() && |net.conns| == 4
    ensures AllAccounted(Views(net), hs, TakenFrames(net.usb), net.usb.submitted)
    ensures stop.NullCalled? ==> LastCallsNull(net)
    ensures if net.usb.connected
            then (net.usb.txWaiting <==> net.usb.completions == |Framed(net.usb.submitted)|)
                 && (net.usb.txWaiting ==> net.usb.wire == Framed(net.usb.submitted))
            else net.usb.transmitQueue.nodes == []
  {
    hide UsbNet.Valid, Stack.Table, S.Objects, AllAccounted, UsbNet.Fresh, Framed, AllFollow,
         LastCallsNull;
    net := Boot(ports, mac, addr);
    InitiallyAccounted(net);
    stop, hs := RunTable(net, schedule, seq(|net.conns|, i => Unused));
    if net.usb.connected {
      S.ValidProgress(net.usb);
    }
  }
}
