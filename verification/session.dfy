/** What the steps of the USB network device amount to over a whole session, and the main loop that takes them
    (src/main.c, with usbd_poll delivering the events of the driver). */
module Session {
  import opened Framing
  import opened Buffers
  import opened UsbNetwork

  // ---------- what holds in every reachable state ----------

  /** Packets written, packets left of the current frame and packets of the queued frames, in this order,
      are the framing of everything submitted. */
  lemma TransmitIsFifo(u: UsbNet)
    requires u.Sending()
    ensures var left := if u.txBuffer == null then [] else Packets(u.txBuffer.data[u.txWritten..u.txBuffer.dataSize]);
            var n := |u.submitted| - |u.transmitQueue.nodes|;
            u.wire + left + Framed(u.submitted[n..]) == Framed(u.submitted)
  {
    hide Framed, FullPackets, Packets;
    var n := |u.submitted| - |u.transmitQueue.nodes|;
    assert u.submitted[..n] + u.submitted[n..] == u.submitted;
    FramedConcat(u.submitted[..n], u.submitted[n..]);
    if u.txBuffer != null {
      var f := u.submitted[n - 1];
      HoldsSlice(u.txBuffer, f, u.txWritten, |f|);
      SplitPackets(f, u.txWritten);
      FramedStep(u.submitted, n - 1);
      Assoc(Framed(u.submitted[..n - 1]), FullPackets(f[..u.txWritten]), Packets(f[u.txWritten..]));
    }
  }

  /** Frame k leaves the device exactly when as many packets have completed as it and the frames before it have:
      a frame of n bytes takes floor(n / 64) + 1 of them. */
  lemma FrameDone(u: UsbNet, k: nat)
    requires u.Sending() && k < |u.submitted|
    ensures k < u.Done() <==> |Framed(u.submitted[..k + 1])| <= u.completions
    ensures |Framed(u.submitted[..k + 1])| == |Framed(u.submitted[..k])| + |u.submitted[k]| / 64 + 1
  {
    hide Framed, FullPackets, Packets;
    u.TxCounted();
    FramedStep(u.submitted, k);
    if k < u.Done() {
      FramedMonotone(u.submitted, k + 1, u.Done());
    } else {
      FramedMonotone(u.submitted, u.Done() + 1, k + 1);
    }
  }

  /** Completions still to come. Each completion callback takes one off. */
  ghost function Outstanding(u: UsbNet): int
    reads u
  {
    |Framed(u.submitted)| - u.completions
  }

  /** A connected device that conserves work stops only when everything submitted has completed. */
  lemma Progress(u: UsbNet)
    requires u.Sending() && u.WorkConserving() && u.connected
    ensures Outstanding(u) >= 0
    ensures Outstanding(u) == 0 <==> u.txWaiting
    ensures u.txWaiting ==> u.wire == Framed(u.submitted)
    ensures Outstanding(u) > 0 ==> u.inBusy
  {
    hide Framed, FullPackets, Packets;
    u.TxCounted();
    assert u.submitted[..|u.submitted|] == u.submitted;
    if u.txWaiting {
      assert u.Done() == |u.submitted|;
    } else {
      FramedMonotone(u.submitted, u.Done() + 1, |u.submitted|);
    }
  }

  /** Whatever the schedule of polls and buffer shortages was: the packets of the host make up some frames and part of
      another, and each of these frames is queued whole if it fits a buffer, cut to 768 bytes or dropped otherwise. */
  lemma ReceivesFrames(u: UsbNet) returns (fs: seq<Frame>, tail: Frame)
    requires u.Receiving()
    ensures Aligned(|tail|) && u.packetsIn == Framed(fs) + FullPackets(tail)
    ensures |AcceptAll(fs)| == u.taken + |u.received.nodes|
    ensures forall i :: 0 <= i < |u.received.nodes| ==> u.received.nodes[i].Holds(AcceptAll(fs)[u.taken + i])
    ensures if u.rxBuffer == null then tail == [] else u.RxHolds(tail)
  {
    hide Framed, FullPackets, UsbNet.RxHolds, Deframe, AcceptAll;
    fs, tail := Decompose(u.packetsIn);
  }

  /** So a host that is known to have sent these frames, and part of another, gets just these queued. */
  lemma ReceivesSent(u: UsbNet, fs: seq<Frame>, tail: Frame)
    requires u.Receiving() && Aligned(|tail|) && u.packetsIn == Framed(fs) + FullPackets(tail)
    ensures |AcceptAll(fs)| == u.taken + |u.received.nodes|
    ensures forall i :: 0 <= i < |u.received.nodes| ==> u.received.nodes[i].Holds(AcceptAll(fs)[u.taken + i])
    ensures if u.rxBuffer == null then tail == [] else u.RxHolds(tail)
  {
    hide Framed, FullPackets, UsbNet.RxHolds;
    DeframeStream(fs, tail);
  }

  /** One device feeding another: for frames that fit a buffer the second queues exactly what was given to the
      first, in order, and never anything else on the way. */
  lemma Loopback(a: UsbNet, b: UsbNet)
    requires a.Sending() && b.Receiving() && b.packetsIn <= a.wire
    requires forall i :: 0 <= i < |a.submitted| ==> |a.submitted[i]| <= BUFFER_SIZE
    ensures Deframe(b.packetsIn).frames <= a.submitted
    ensures a.txWaiting && a.transmitQueue.nodes == [] && b.packetsIn == a.wire ==>
              Deframe(b.packetsIn) == Deframer(a.submitted, [])
  {
    hide Framed, FullPackets, Packets, Accept, Deframe;
    TransmitIsFifo(a);
    PrefixRoundTrip(a.submitted, b.packetsIn);
    if a.txWaiting && a.transmitQueue.nodes == [] {
      assert a.submitted[..a.Done()] == a.submitted;
      RoundTrip(a.submitted);
    }
  }

  // ---------- the main loop ----------

  /** What one turn of the main loop may bring: an event of the driver, a poll, or work on a frame, which tcpip_poll
      does only while the link is up. An event that cannot happen in the current state (a packet while the endpoint
      answers NAK) is skipped. */
  datatype Event =
    | HostSends(p: Packet)
    | HostTakes
    | AltSetting
    | StatusSent
    | Poll
    | TakeFrame
    | SendFrame(f: Frame)

  ghost function Objects(u: UsbNet): set<object> {
    {u, u.freeList, u.received, u.transmitQueue, u.tempBuffer} + u.pool + Data(u.pool)
  }

  /** The frames that the main loop takes are, in order, the frames that the packets read so far make up; the
      packets written so far are a prefix of the framing of the frames sent, and all of it as soon as the connected
      device waits for a frame. No buffer is lost. */
  method MainLoop(u: UsbNet, schedule: seq<Event>) returns (read: seq<Packet>, got: seq<Frame>, sent: seq<Frame>)
    requires u.Valid() && u.Fresh() && u.NoneHeld()
    modifies Objects(u)
    ensures u.Valid() && u.packetsIn == read && u.submitted == sent
    ensures got <= Deframe(read).frames
    ensures u.wire <= Framed(sent)
    ensures u.Flowing() && u.NoneHeld()
    ensures u.connected ==>
              (u.txWaiting <==> u.completions == |Framed(sent)|) && (u.txWaiting ==> u.wire == Framed(sent))
    ensures !u.connected ==> sent == []
  {
    hide UsbNet.Valid, Framed, Deframe;
    read, got, sent := [], [], [];
    for i := 0 to |schedule|
      invariant u.Valid() && u.packetsIn == read && u.submitted == sent && u.Flowing() && u.NoneHeld()
      invariant u.taken == |got| && got <= Deframe(read).frames
      invariant !u.connected ==> sent == []
    {
      match schedule[i]
      case HostSends(p) =>
        var taken := HostSendsStep(u, p);
        if taken {
          DeframeMonotone(read, [p]);
          read := read + [p];
        }
      case TakeFrame =>
        var f := TakeFrameStep(u);
        got := got + f;
      case SendFrame(f) =>
        var accepted := SendFrameStep(u, f);
        if accepted {
          sent := sent + [f];
        }
      case _ =>
        DriverStep(u, schedule[i]);
    }
    WireIsPrefix(u);
    if u.connected {
      ValidProgress(u);
    }
  }

  /** Progress in every reachable state. */
  lemma ValidProgress(u: UsbNet)
    requires u.Valid() && u.Flowing() && u.connected
    ensures Outstanding(u) >= 0
    ensures Outstanding(u) == 0 <==> u.txWaiting
    ensures u.txWaiting ==> u.wire == Framed(u.submitted)
    ensures Outstanding(u) > 0 ==> u.inBusy
  {
    Progress(u);
  }

  /** What every step keeps. */
  twostate predicate Orderly(u: UsbNet)
    reads u`place, u`connected, u`txWaiting, u.transmitQueue
  {
    u.HeldSame() && (old(u.Flowing()) ==> u.Flowing()) && (old(u.connected) ==> u.connected)
  }

  lemma WireIsPrefix(u: UsbNet)
    requires u.Valid()
    ensures u.wire <= Framed(u.submitted)
  {
    TransmitIsFifo(u);
  }

  method HostSendsStep(u: UsbNet, p: Packet) returns (taken: bool)
    requires u.Valid()
    modifies Objects(u)
    ensures u.Valid() && u.submitted == old(u.submitted) && u.taken == old(u.taken)
    ensures taken <==> !old(u.outNak) && |p| <= 64
    ensures u.packetsIn == if taken then old(u.packetsIn) + [p] else old(u.packetsIn)
    ensures Orderly(u)
  {
    hide UsbNet.Lists, UsbNet.Sending, UsbNet.Receiving;
    u.Apart();
    taken := !u.outNak && |p| <= PACKET_SIZE;
    if taken {
      u.CdcecmRxCallback(p);
    }
  }

  method TakeFrameStep(u: UsbNet) returns (f: seq<Frame>)
    requires u.Valid()
    modifies Objects(u)
    ensures u.Valid() && u.submitted == old(u.submitted) && u.packetsIn == old(u.packetsIn)
    ensures u.taken == old(u.taken) + |f| && u.taken <= |Deframe(u.packetsIn).frames|
    ensures f == Deframe(u.packetsIn).frames[old(u.taken)..u.taken]
    ensures |f| == if old(u.connected && u.received.nodes != []) then 1 else 0
    ensures Orderly(u)
  {
    hide UsbNet.Lists, UsbNet.Sending, UsbNet.RxSlotOk, UsbNet.Separate, UsbNet.OthersKept, Inserted, Deframe;
    u.Apart();
    f := [];
    if !u.connected {
      return;
    }
    var b := u.Receive();
    if b != null {
      f := [b.data[..b.dataSize]];
      u.BufferRelease(b);
    }
  }

  method SendFrameStep(u: UsbNet, f: Frame) returns (accepted: bool)
    requires u.Valid()
    modifies Objects(u)
    ensures u.Valid() && u.taken == old(u.taken) && u.packetsIn == old(u.packetsIn)
    ensures u.submitted == if accepted then old(u.submitted) + [f] else old(u.submitted)
    ensures accepted <==>
            u.connected && exists b :: b in old(u.freeList.nodes) && b.MaxSize() >= |f|
    ensures Orderly(u)
  {
    hide UsbNet.Lists, UsbNet.Sending, UsbNet.Receiving, UsbNet.Separate, UsbNet.OthersKept, FirstFit, Without;
    u.Apart();
    if !u.connected {
      return false;
    }
    FirstFitIs(u.freeList.nodes, |f|);
    assert FirstFit(u.freeList.nodes, |f|) < |u.freeList.nodes| ==>
             u.freeList.nodes[FirstFit(u.freeList.nodes, |f|)] in u.freeList.nodes;
    var b := u.BufferAllocate(|f|);
    accepted := b != null;
    if accepted {
      FillAndTransmit(u, b, f);
    }
  }

  method FillAndTransmit(u: UsbNet, b: Buffer, f: Frame)
    requires u.Valid() && b in u.pool && u.place[b] == Held && |f| <= b.MaxSize() && u.connected
    modifies Objects(u)
    ensures u.Valid() && u.taken == old(u.taken) && u.packetsIn == old(u.packetsIn)
    ensures u.submitted == old(u.submitted) + [f]
    ensures u.connected && (old(u.Flowing()) ==> u.Flowing())
    ensures StillHeld(old(u.place), u.place, b) && b in u.place && u.place[b] != Held
  {
    hide UsbNet.Lists, UsbNet.Sending, UsbNet.Receiving, UsbNet.Separate, UsbNet.OthersKept;
    FillHeld(u, b, f);
    u.Apart();
    u.Transmit(b);
  }

  method FillHeld(u: UsbNet, b: Buffer, f: Frame)
    requires u.Valid() && b in u.pool && u.place[b] == Held && |f| <= b.MaxSize()
    modifies b`dataSize, b.data
    ensures u.Valid() && b.Holds(f)
  {
    hide UsbNet.Lists, UsbNet.Sending, UsbNet.Receiving;
    u.Apart();
    u.DataApart({b}, u.pool - {b});
    forall i | 0 <= i < |f| {
      b.data[i] := f[i];
    }
    b.dataSize := |f|;
    u.HeldWritten(b);
  }

  method DriverStep(u: UsbNet, e: Event)
    requires u.Valid() && !e.HostSends? && !e.TakeFrame? && !e.SendFrame?
    modifies Objects(u)
    ensures u.Valid() && u.submitted == old(u.submitted) && u.taken == old(u.taken) && u.packetsIn == old(u.packetsIn)
    ensures u.completions == old(u.completions) + if e.HostTakes? && old(u.inBusy) then 1 else 0
    ensures u.connected <==> old(u.connected) || (e.StatusSent? && old(u.sendStatus))
    ensures e.AltSetting? ==> u.sendStatus
    ensures e.Poll? && u.connected && u.outNak && old(u.rxWaiting) ==>
              u.received.nodes != [] || forall b :: b in old(u.freeList.nodes) ==> b.MaxSize() < old(u.Wanted())
    ensures Orderly(u)
  {
    hide UsbNet.Lists, UsbNet.Sending, UsbNet.Receiving;
    u.Apart();
    match e
    case HostTakes => if u.inBusy { u.InCompleted(); }
    case AltSetting => u.SendConnectionStatus();
    case StatusSent => u.StatusCallback();
    case Poll =>
      FirstFitIs(u.freeList.nodes, u.Wanted());
      u.Poll();
  }

  /** Any one event. */
  method OneStep(u: UsbNet, e: Event)
    requires u.Valid()
    modifies Objects(u)
    ensures u.Valid() && old(u.packetsIn) <= u.packetsIn && old(u.submitted) <= u.submitted
    ensures old(u.taken) <= u.taken && (!e.TakeFrame? ==> u.taken == old(u.taken))
    ensures Orderly(u)
  {
    hide UsbNet.Valid, Deframe;
    match e
    case HostSends(p) => var _ := HostSendsStep(u, p);
    case TakeFrame => var _ := TakeFrameStep(u);
    case SendFrame(f) => var _ := SendFrameStep(u, f);
    case _ => DriverStep(u, e);
  }
}
