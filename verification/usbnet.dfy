/** The CDC-ECM frame path of src/usbnet.c: buffers move between the free list, the receive slot, the received
    queue, the transmit queue, the transmit slot and the main loop, and the two bulk endpoints carry packets. */
module UsbNetwork {
  import opened Bytes
  import opened Framing
  import opened Buffers

  const SMALLBUF_SIZE := 128   // USBNET_SMALLBUF_SIZE
  const BUFFER_COUNT := 4      // USBNET_BUFFER_COUNT
  const SMALLBUF_COUNT := 2    // USBNET_SMALLBUF_COUNT
  const MAX_RX_QUEUE := 1      // USBNET_MAX_RX_QUEUE

  /** Where a buffer of the pool is. `Held`: a local variable of the code that runs at the moment has it. */
  datatype Place = Free | RxSlot | Received | TxQueue | TxSlot | Held

  /** `place` is a total function on the pool, so these equivalences put each buffer in exactly one place:
      the free list, the received queue, the transmit queue, one of the two slots, or the running code. */
  ghost function Slot(b: Buffer?): set<Buffer> {
    if b == null then {} else {b}
  }

  ghost function Data(s: set<Buffer>): set<array<byte>> {
    set b | b in s :: b.data
  }

  ghost predicate Owned(pool: set<Buffer>, place: map<Buffer, Place>, free: seq<Buffer>,
                        rxq: seq<Buffer>, txq: seq<Buffer>, rx: Buffer?, tx: Buffer?)
  {
    && place.Keys == pool
    && Listed(place, Free, free) && Listed(place, Received, rxq) && Listed(place, TxQueue, txq)
    && InSlot(place, RxSlot, rx) && InSlot(place, TxSlot, tx)
  }

  ghost predicate Listed(place: map<Buffer, Place>, p: Place, s: seq<Buffer>) {
    && (forall b :: b in place ==> (place[b] == p <==> b in s))
    && (forall b :: b in s ==> b in place)
  }

  ghost predicate InSlot(place: map<Buffer, Place>, p: Place, slot: Buffer?) {
    && (forall b :: b in place ==> (place[b] == p <==> b == slot))
    && (slot != null ==> slot in place)
  }

  /** A buffer leaves a list. */
  lemma ListedRemoved(place: map<Buffer, Place>, p: Place, s: seq<Buffer>, k: nat, to: Place)
    requires Listed(place, p, s) && Distinct(s) && k < |s| && to != p
    ensures Listed(place[s[k] := to], p, Without(s, k))
  {
    WithoutAt(s, k);
  }

  /** A buffer enters a list. */
  lemma ListedAdded(place: map<Buffer, Place>, p: Place, s: seq<Buffer>, k: nat, b: Buffer)
    requires Listed(place, p, s) && k <= |s| && b in place
    ensures Listed(place[b := p], p, With(s, k, b))
  {
    WithAt(s, k, b);
  }

  lemma OwnedTake(pool: set<Buffer>, place: map<Buffer, Place>, free: seq<Buffer>, rxq: seq<Buffer>,
                  txq: seq<Buffer>, rx: Buffer?, tx: Buffer?, k: nat)
    requires Owned(pool, place, free, rxq, txq, rx, tx) && Distinct(free) && k < |free|
    ensures Owned(pool, place[free[k] := Held], Without(free, k), rxq, txq, rx, tx)
  {
    ListedRemoved(place, Free, free, k, Held);
  }

  lemma OwnedGive(pool: set<Buffer>, place: map<Buffer, Place>, free: seq<Buffer>, rxq: seq<Buffer>,
                  txq: seq<Buffer>, rx: Buffer?, tx: Buffer?, b: Buffer)
    requires Owned(pool, place, free, rxq, txq, rx, tx) && b in place && place[b] == Held
    ensures Owned(pool, place[b := Free], Inserted(free, b), rxq, txq, rx, tx)
  {
    ListedAdded(place, Free, free, FirstFit(free, b.MaxSize()), b);
  }

  lemma OwnedToRx(pool: set<Buffer>, place: map<Buffer, Place>, free: seq<Buffer>, rxq: seq<Buffer>,
                  txq: seq<Buffer>, tx: Buffer?, b: Buffer)
    requires Owned(pool, place, free, rxq, txq, null, tx) && b in place && place[b] == Held
    ensures Owned(pool, place[b := RxSlot], free, rxq, txq, b, tx)
  {
  }

  lemma OwnedSwapRx(pool: set<Buffer>, place: map<Buffer, Place>, free: seq<Buffer>, rxq: seq<Buffer>,
                    txq: seq<Buffer>, tx: Buffer?, a: Buffer, b: Buffer)
    requires Owned(pool, place, free, rxq, txq, a, tx) && b in place && place[b] == Held
    ensures Owned(pool, place[a := Held][b := RxSlot], free, rxq, txq, b, tx)
  {
  }

  lemma OwnedRxToQueue(pool: set<Buffer>, place: map<Buffer, Place>, free: seq<Buffer>, rxq: seq<Buffer>,
                       txq: seq<Buffer>, tx: Buffer?, b: Buffer)
    requires Owned(pool, place, free, rxq, txq, b, tx)
    ensures b !in rxq
    ensures Owned(pool, place[b := Received], free, rxq + [b], txq, null, tx)
  {
  }

  lemma OwnedRxToHeld(pool: set<Buffer>, place: map<Buffer, Place>, free: seq<Buffer>, rxq: seq<Buffer>,
                      txq: seq<Buffer>, tx: Buffer?, b: Buffer)
    requires Owned(pool, place, free, rxq, txq, b, tx)
    ensures Owned(pool, place[b := Held], free, rxq, txq, null, tx)
  {
  }

  lemma OwnedPopRx(pool: set<Buffer>, place: map<Buffer, Place>, free: seq<Buffer>, rxq: seq<Buffer>,
                   txq: seq<Buffer>, rx: Buffer?, tx: Buffer?)
    requires Owned(pool, place, free, rxq, txq, rx, tx) && rxq != [] && Distinct(rxq)
    ensures Owned(pool, place[rxq[0] := Held], free, rxq[1..], txq, rx, tx)
  {
    assert rxq == [rxq[0]] + rxq[1..];
    assert rxq[0] in rxq && rxq[0] !in rxq[1..];
  }

  lemma OwnedPopTx(pool: set<Buffer>, place: map<Buffer, Place>, free: seq<Buffer>, rxq: seq<Buffer>,
                   txq: seq<Buffer>, rx: Buffer?)
    requires Owned(pool, place, free, rxq, txq, rx, null) && txq != [] && Distinct(txq)
    ensures Owned(pool, place[txq[0] := TxSlot], free, rxq, txq[1..], rx, txq[0])
  {
    assert txq == [txq[0]] + txq[1..];
    assert txq[0] in txq && txq[0] !in txq[1..];
  }

  lemma OwnedAppend(pool: set<Buffer>, place: map<Buffer, Place>, free: seq<Buffer>, rxq: seq<Buffer>,
                    txq: seq<Buffer>, rx: Buffer?, tx: Buffer?, b: Buffer)
    requires Owned(pool, place, free, rxq, txq, rx, tx) && b in place && place[b] == Held
    ensures Owned(pool, place[b := TxQueue], free, rxq, txq + [b], rx, tx)
  {
  }

  lemma OwnedTxToHeld(pool: set<Buffer>, place: map<Buffer, Place>, free: seq<Buffer>, rxq: seq<Buffer>,
                      txq: seq<Buffer>, rx: Buffer?, b: Buffer)
    requires Owned(pool, place, free, rxq, txq, rx, b)
    ensures Owned(pool, place[b := Held], free, rxq, txq, rx, null)
  {
  }

  twostate predicate Untouched(s: set<Buffer>)
    reads s, Data(s)
  {
    forall b :: b in s ==> unchanged(b`dataSize) && unchanged(b.data)
  }

  /** Buffers other than `b` belong to the main loop afterwards if and only if they did before, and free ones stay
      free. */
  ghost predicate StillHeld(was: map<Buffer, Place>, now: map<Buffer, Place>, b: Buffer?) {
    forall x :: x in was && x != b ==>
      x in now && (was[x] == Held <==> now[x] == Held) && (was[x] == Free ==> now[x] == Free)
  }

  class UsbNet {
    // g_usbnet_bigbuffers and g_usbnet_smallbuffers
    const buffers: seq<Buffer>
    // g_freelist, g_usbnet_received, g_usbnet_transmit_queue
    const freeList: BufferList
    const received: BufferList
    const transmitQueue: BufferList
    // g_rx_buffer, g_rx_waiting_for_buffer, g_rx_discard, g_usb_temp_buffer
    var rxBuffer: Buffer?
    var rxWaiting: bool
    var rxDiscard: bool
    const tempBuffer: array<byte>
    // g_cdcecm_tx_bytes_written, g_cdcecm_tx_waiting_for_frame, g_cdcecm_current_tx_buffer
    var txWritten: nat
    var txWaiting: bool
    var txBuffer: Buffer?
    // g_cdcecm_connected, g_cdcecm_send_connection_status
    var connected: bool
    var sendStatus: bool
    // the driver: NAK bit of the OUT endpoint, packet pending in the IN endpoint
    var outNak: bool
    var inBusy: bool

    ghost const pool: set<Buffer>
    ghost var place: map<Buffer, Place>
    // history of the session
    ghost var packetsIn: seq<Packet>    // packets read from the OUT endpoint
    ghost var taken: nat                // frames handed to the main loop
    ghost var submitted: seq<Frame>     // frames given to usbnet_transmit
    ghost var wire: seq<Packet>         // packets written to the IN endpoint
    ghost var completions: nat          // of these, how many have completed

    // ---------- ownership ----------

    ghost predicate Separate()
    {
      && freeList != received && freeList != transmitQueue && received != transmitQueue
      && tempBuffer.Length == 160
      && (forall b :: b in pool ==> b.data != tempBuffer && SMALLBUF_SIZE <= b.MaxSize() <= BUFFER_SIZE)
      && (forall a, b :: a in pool && b in pool && a != b ==> a.data != b.data)
    }

    ghost predicate Ownership()
      reads this, freeList, received, transmitQueue
    {
      Owned(pool, place, freeList.nodes, received.nodes, transmitQueue.nodes, rxBuffer, txBuffer)
    }

    ghost predicate Lists()
      reads this, freeList, received, transmitQueue, pool`ptr
    {
      && Separate() && Ownership()
      && freeList.Valid() && received.Valid() && transmitQueue.Valid()
      && Sorted(freeList.nodes)
    }

    // ---------- transmit ----------

    /** Frames that are neither queued nor in progress: all their packets have completed. */
    ghost function Done(): int
      reads `submitted, `txWaiting, transmitQueue
    {
      |submitted| - |transmitQueue.nodes| - (if txWaiting then 0 else 1)
    }

    ghost predicate Queued()
      reads `submitted, transmitQueue, transmitQueue.Nodes()`dataSize, Data(transmitQueue.Nodes())
    {
      var n := |submitted| - |transmitQueue.nodes|;
      n >= 0 && forall i :: 0 <= i < |transmitQueue.nodes| ==> transmitQueue.nodes[i].Holds(submitted[n + i])
    }

    /** How much of the frame in progress is on the wire. */
    ghost predicate InProgress()
      reads `submitted, `txWaiting, `txBuffer, `txWritten, `wire, transmitQueue,
            Slot(txBuffer)`dataSize, Data(Slot(txBuffer))
    {
      && 0 <= Done() < |submitted|
      && (txBuffer == null ==> wire == Framed(submitted[..Done() + 1]))
      && (txBuffer != null ==>
            var f := submitted[Done()];
            txBuffer.Holds(f) && Aligned(txWritten) && txWritten <= |f|
            && wire == Framed(submitted[..Done()]) + FullPackets(f[..txWritten]))
    }

    ghost predicate Sending()
      reads `submitted, `txWaiting, `txBuffer, `txWritten, `wire, `completions, `inBusy, `connected, transmitQueue,
            Slot(txBuffer)`dataSize, Data(Slot(txBuffer)), transmitQueue.Nodes()`dataSize, Data(transmitQueue.Nodes())
    {
      && Queued()
      && |wire| == completions + (if inBusy then 1 else 0)
      && (txBuffer != null ==> !txWaiting && txWritten > 0)
      && (txWaiting ==> !inBusy && wire == Framed(submitted[..Done()]))
      && (!txWaiting ==> connected && inBusy && InProgress())
    }

    // ---------- receive ----------

    /** The receive slot holds what is known of a frame whose bytes so far are `f`. */
    ghost predicate RxHolds(f: seq<byte>)
      reads `rxBuffer, `rxDiscard, Slot(rxBuffer)`dataSize, Data(Slot(rxBuffer))
    {
      && rxBuffer != null
      && rxBuffer.dataSize == |f| % 0x1_0000
      && (if rxDiscard
          then |f| >= BUFFER_SIZE && rxBuffer.MaxSize() >= BUFFER_SIZE
               && rxBuffer.data[..BUFFER_SIZE] == f[..BUFFER_SIZE]
          else |f| <= BUFFER_SIZE && rxBuffer.Holds(f))
    }

    /** All complete frames so far are `frames`; the ones not yet taken are in the received queue. */
    ghost predicate RxQueued(frames: seq<Frame>)
      reads `taken, received, received.Nodes()`dataSize, Data(received.Nodes())
    {
      && |frames| == taken + |received.nodes|
      && |received.nodes| <= MAX_RX_QUEUE
      && forall i :: 0 <= i < |received.nodes| ==> received.nodes[i].Holds(frames[taken + i])
    }

    /** Room that the next packet needs. */
    ghost function Wanted(): int
      reads `rxBuffer, Slot(rxBuffer)`dataSize
    {
      PACKET_SIZE + if rxBuffer == null then 0 else rxBuffer.dataSize
    }

    ghost predicate RoomForPacket()
      reads `rxBuffer, `rxDiscard, Slot(rxBuffer)`dataSize
    {
      rxBuffer != null && (rxDiscard || rxBuffer.dataSize + PACKET_SIZE <= Min(rxBuffer.MaxSize(), BUFFER_SIZE))
    }

    /** The receive slot between two packets, `partial` being the unfinished frame. */
    ghost predicate RxSlotOk(partial: seq<byte>)
      reads `rxBuffer, `rxDiscard, received, Slot(rxBuffer)`dataSize, Data(Slot(rxBuffer))
    {
      && Aligned(|partial|)
      && (if rxBuffer == null then partial == [] && !rxDiscard
          else RxHolds(partial) && received.nodes == [])
    }

    ghost predicate Receiving()
      reads `rxBuffer, `rxDiscard, `rxWaiting, `outNak, `packetsIn, `taken, received, Slot(rxBuffer)`dataSize,
            Data(Slot(rxBuffer)), received.Nodes()`dataSize, Data(received.Nodes())
    {
      && (forall i :: 0 <= i < |packetsIn| ==> |packetsIn[i]| <= PACKET_SIZE)
      && RxQueued(Deframe(packetsIn).frames)
      && RxSlotOk(Deframe(packetsIn).partial)
      && outNak == rxWaiting
      && (!outNak ==> RoomForPacket())
    }

    // ---------- the invariant of a session ----------

    /** The buffers whose contents matter: all but the free ones and those of the running code. */
    ghost function Busy(): set<Buffer>
      reads this, received, transmitQueue
    {
      Slot(rxBuffer) + Slot(txBuffer) + received.Nodes() + transmitQueue.Nodes()
    }

    ghost predicate Valid()
      reads this, freeList, received, transmitQueue, pool`ptr, Busy()`dataSize, Data(Busy())
    {
      Lists() && Sending() && Receiving()
    }

    /** The transmit side does not notice what happens to other buffers. */
    twostate lemma SendingKept()
      requires unchanged(`submitted, `txWaiting, `txBuffer, `txWritten, `wire, `completions, `inBusy, `connected)
      requires unchanged(transmitQueue) && Untouched(Slot(txBuffer) + transmitQueue.Nodes())
      ensures old(Sending()) ==> Sending()
    {
    }

    /** Reassigning the slots leaves the lists as they are. */
    twostate lemma ListsKept()
      requires old(Lists()) && Ownership()
      requires unchanged(freeList) && unchanged(received) && unchanged(transmitQueue)
      requires forall b :: b in pool ==> b.ptr == old(b.ptr)
      ensures Lists()
    {
      freeList.Kept();
      received.Kept();
      transmitQueue.Kept();
    }

    /** Steps that move no buffer. */
    twostate lemma ListsSame()
      requires old(Lists()) && unchanged(`place, `rxBuffer, `txBuffer)
      requires unchanged(freeList) && unchanged(received) && unchanged(transmitQueue)
      requires forall b :: b in pool ==> b.ptr == old(b.ptr)
      ensures Lists()
    {
      ListsKept();
    }

    /** No buffer is in two places, and no two places share storage. */
    lemma Apart()
      requires Lists()
      ensures place.Keys == pool
      ensures forall b :: b in freeList.nodes ==> b in pool && place[b] == Free
      ensures forall b :: b in received.nodes ==> b in pool && place[b] == Received
      ensures forall b :: b in transmitQueue.nodes ==> b in pool && place[b] == TxQueue
      ensures rxBuffer != null ==> rxBuffer in pool && place[rxBuffer] == RxSlot
      ensures txBuffer != null ==> txBuffer in pool && place[txBuffer] == TxSlot
      ensures Distinct(freeList.nodes) && Distinct(received.nodes) && Distinct(transmitQueue.nodes)
      ensures Separate() && freeList != received && freeList != transmitQueue && received != transmitQueue
    {
    }

    /** What is on the lists belongs to the pool. */
    lemma Within()
      requires Valid()
      ensures freeList != transmitQueue && received != transmitQueue
      ensures freeList.Nodes() <= pool && transmitQueue.Nodes() <= pool
    {
      hide Sending, Receiving;
    }

    lemma FreeListed(b: Buffer)
      requires Lists() && b in pool && place[b] == Free
      ensures b in freeList.nodes
    {
    }

    lemma Apiece()
      requires Lists()
      ensures freeList.Valid() && received.Valid() && transmitQueue.Valid() && Sorted(freeList.nodes) && Ownership()
    {
    }

    lemma Together()
      requires Separate() && Ownership() && freeList.Valid() && received.Valid() && transmitQueue.Valid()
      requires Sorted(freeList.nodes)
      ensures Lists()
    {
    }

    lemma DataApart(s: set<Buffer>, t: set<Buffer>)
      requires Separate() && s <= pool && t <= pool && s !! t
      ensures Data(s) !! Data(t) && tempBuffer !in Data(s)
    {
    }

    // ---------- src/buffer.c on the pool ----------

    method TakeFree(size: int) returns (b: Buffer?)
      requires Lists()
      modifies `place, freeList, pool`ptr, freeList.Nodes()`dataSize
      ensures Lists()
      ensures var k := FirstFit(old(freeList.nodes), size);
              if k == |old(freeList.nodes)|
              then b == null && freeList.nodes == old(freeList.nodes) && place == old(place)
              else b == old(freeList.nodes[k]) && b in pool && b.dataSize == 0
                   && freeList.nodes == Without(old(freeList.nodes), k)
                   && place == old(place)[b := Held] && old(place[b]) == Free
      ensures freeList.Nodes() + Slot(b) == old(freeList.Nodes())
      ensures old(Sending()) ==> Sending()
    {
      hide Lists, Sending, FirstFit, Without;
      Apart();
      b := Detach(size);
      SendingKept();
    }

    method Detach(size: int) returns (b: Buffer?)
      requires Lists()
      modifies `place, freeList, pool`ptr, freeList.Nodes()`dataSize
      ensures Lists()
      ensures var k := FirstFit(old(freeList.nodes), size);
              if k == |old(freeList.nodes)|
              then b == null && freeList.nodes == old(freeList.nodes) && place == old(place)
              else b == old(freeList.nodes[k]) && b in pool && b.dataSize == 0
                   && freeList.nodes == Without(old(freeList.nodes), k)
                   && place == old(place)[b := Held] && old(place[b]) == Free
      ensures freeList.Nodes() + Slot(b) == old(freeList.Nodes())
    {
      hide Lists, Owned, Separate, Sorted, FirstFit, BufferList.Valid, Without, Distinct;
      Apart();
      Apiece();
      ghost var s, k := freeList.nodes, FirstFit(freeList.nodes, size);
      if k < |s| {
        SortedWithout(s, k);
        WithoutAt(s, k);
        OwnedTake(pool, place, s, received.nodes, transmitQueue.nodes, rxBuffer, txBuffer, k);
      }
      b := freeList.Allocate(size);
      received.Kept();
      transmitQueue.Kept();
      if b != null {
        place := place[b := Held];
      }
      Together();
    }

    method GiveBack(b: Buffer)
      requires Lists() && b in pool && place[b] == Held
      modifies `place, freeList, pool`ptr, b`dataSize
      ensures Lists()
      ensures freeList.nodes == Inserted(old(freeList.nodes), b) && place == old(place)[b := Free]
      ensures b.dataSize == 0
      ensures freeList.Nodes() == old(freeList.Nodes()) + {b}
      ensures old(Sending()) ==> Sending()
    {
      hide Owned, Sorted, FirstFit, BufferList.Valid, Sending;
      Apart();
      ghost var s := freeList.nodes;
      SortedInserted(s, b);
      WithAt(s, FirstFit(s, b.MaxSize()), b);
      OwnedGive(pool, place, s, received.nodes, transmitQueue.nodes, rxBuffer, txBuffer, b);
      freeList.Release(b);
      received.Kept();
      transmitQueue.Kept();
      place := place[b := Free];
      SendingKept();
    }

    twostate lemma ReceivingKept()
      requires unchanged(`rxBuffer, `rxDiscard, `rxWaiting, `outNak, `packetsIn, `taken)
      requires unchanged(received) && Untouched(Slot(rxBuffer) + received.Nodes())
      ensures old(Receiving()) ==> Receiving()
    {
    }

    // ---------- receive path ----------

    /** First half of rx_alloc_buffer: storage for the first packet of a frame. */
    method RxFirstBuffer(size: int)
      requires Lists() && Sending() && rxBuffer == null
      modifies `rxBuffer, `place, freeList, pool`ptr, freeList.Nodes()`dataSize
      ensures Lists() && Sending()
      ensures rxBuffer != null ==> rxBuffer.dataSize == 0 && rxBuffer.MaxSize() >= size
      ensures rxBuffer == null ==> FirstFit(old(freeList.nodes), size) == |old(freeList.nodes)|
      ensures freeList.Nodes() + Slot(rxBuffer) == old(freeList.Nodes() + Slot(rxBuffer))
    {
      hide Lists, Sending, FirstFit, Without;
      FirstFitIs(freeList.nodes, size);
      var b := TakeFree(size);
      if b != null {
        RxOccupy(b);
      }
    }

    method RxOccupy(b: Buffer)
      requires Lists() && Sending() && rxBuffer == null && b in pool && place[b] == Held
      modifies `rxBuffer, `place
      ensures Lists() && Sending() && rxBuffer == b
    {
      hide Lists, Owned, Separate, BufferList.Valid, Sorted, Distinct, Sending;
      Apart();
      Apiece();
      OwnedToRx(pool, place, freeList.nodes, received.nodes, transmitQueue.nodes, txBuffer, b);
      rxBuffer := b;
      place := place[b := RxSlot];
      ListsKept();
      SendingKept();
    }

    /** memcpy of the bytes in use, and of their number. */
    static method CopyContents(from: Buffer, to: Buffer, ghost f: seq<byte>)
      requires from.Holds(f) && |f| <= to.MaxSize() && from.data != to.data && from != to
      modifies to`dataSize, to.data
      ensures to.Holds(f)
    {
      forall i | 0 <= i < from.dataSize {
        to.data[i] := from.data[i];
      }
      to.dataSize := from.dataSize;
    }

    /** `buffer_release(g_rx_buffer); g_rx_buffer = newbuf` */
    method RxReplaceBuffer(newbuf: Buffer)
      requires Lists() && Sending() && rxBuffer != null && newbuf in pool && place[newbuf] == Held
      modifies `rxBuffer, `place, freeList, pool`ptr, rxBuffer`dataSize
      ensures Lists() && Sending() && rxBuffer == newbuf
      ensures Untouched({newbuf})
      ensures freeList.Nodes() == old(freeList.Nodes() + Slot(rxBuffer))
    {
      hide Lists, Owned, Separate, BufferList.Valid, Sorted, Distinct, Sending, FirstFit, Inserted, Without;
      Apart();
      Apiece();
      var oldbuf := rxBuffer;
      OwnedSwapRx(pool, place, freeList.nodes, received.nodes, transmitQueue.nodes, txBuffer, oldbuf, newbuf);
      place := place[oldbuf := Held][newbuf := RxSlot];
      rxBuffer := newbuf;
      ListsKept();
      SendingKept();
      GiveBack(oldbuf);
    }

    /** Second half of rx_alloc_buffer: continue an unfinished frame in a bigger buffer, if there is one. */
    method RxGrowBuffer(size: int, ghost f: seq<byte>)
      requires Lists() && Sending() && !rxDiscard && RxHolds(f) && rxBuffer.MaxSize() < size
      modifies `rxBuffer, `place, freeList, pool`ptr, freeList.Nodes()`dataSize, rxBuffer`dataSize,
               Data(freeList.Nodes())
      ensures Lists() && Sending() && RxHolds(f)
      ensures rxBuffer.MaxSize() >= size || FirstFit(old(freeList.nodes), size) == |old(freeList.nodes)|
      ensures freeList.Nodes() + Slot(rxBuffer) == old(freeList.Nodes() + Slot(rxBuffer))
    {
      hide Lists, Owned, BufferList.Valid, Sorted, Sending, FirstFit, Without, Inserted;
      FirstFitIs(freeList.nodes, size);
      Apart();
      var newbuf := TakeFree(size);
      if newbuf != null {
        Apart();
        RxMoveContents(newbuf, f);
      }
    }

    /** The memcpy of rx_alloc_buffer, and the change of buffers after it. */
    method RxMoveContents(newbuf: Buffer, ghost f: seq<byte>)
      requires Lists() && Sending() && !rxDiscard && RxHolds(f)
      requires newbuf in pool && place[newbuf] == Held && |f| <= newbuf.MaxSize()
      modifies `rxBuffer, `place, freeList, pool`ptr, rxBuffer`dataSize, newbuf`dataSize, newbuf.data
      ensures Lists() && Sending() && RxHolds(f) && rxBuffer == newbuf
      ensures freeList.Nodes() == old(freeList.Nodes() + Slot(rxBuffer))
    {
      hide Owned, BufferList.Valid, Sorted, Sending;
      Apart();
      DataApart(Slot(rxBuffer) + Slot(txBuffer) + transmitQueue.Nodes(), {newbuf});
      CopyContents(rxBuffer, newbuf, f);
      ListsSame();
      SendingKept();
      RxReplaceBuffer(newbuf);
    }

    /** From here on the bytes of the frame go to the scratch area. */
    method RxStartDiscard(ghost f: seq<byte>)
      requires RxHolds(f) && Aligned(|f|) && (rxDiscard || rxBuffer.dataSize + PACKET_SIZE > BUFFER_SIZE)
      modifies `rxDiscard, `rxWaiting
      ensures RxHolds(f) && rxDiscard && !rxWaiting
    {
      rxDiscard := true;
      rxWaiting := false;
    }

    /** The two ways in which rx_alloc_buffer asks for storage. */
    method RxObtainBuffer(size: int, ghost f: seq<byte>)
      requires Lists() && Sending() && RxSlotOk(f) && !rxDiscard && size == Wanted()
      modifies `rxBuffer, `place, freeList, pool`ptr, freeList.Nodes()`dataSize, Slot(rxBuffer)`dataSize,
               Data(freeList.Nodes())
      ensures Lists() && Sending() && RxSlotOk(f)
      ensures rxBuffer != null ==> rxBuffer.dataSize == |f|
      ensures rxBuffer == null || rxBuffer.MaxSize() < size ==>
                received.nodes != [] || FirstFit(old(freeList.nodes), size) == |old(freeList.nodes)|
      ensures old(rxBuffer) != null ==> rxBuffer != null
      ensures freeList.Nodes() + Slot(rxBuffer) == old(freeList.Nodes() + Slot(rxBuffer))
      ensures received.nodes == old(received.nodes) && Untouched(received.Nodes())
    {
      hide Owned, BufferList.Valid, Sorted, Sending, FirstFit;
      if rxBuffer == null {
        var queued := received.Size();
        SendingKept();
        if queued < MAX_RX_QUEUE {
          RxFirstBuffer(size);
        }
      } else if rxBuffer.MaxSize() < size {
        RxGrowBuffer(size, f);
      }
    }

    /** rx_alloc_buffer, called with the number of bytes that must fit: those already there and one packet. */
    method RxAllocBuffer(size: int, ghost f: seq<byte>) returns (bufOk: bool)
      requires Lists() && Sending() && RxSlotOk(f)
      requires size == Wanted()
      modifies `rxBuffer, `rxDiscard, `rxWaiting, `place, freeList, pool`ptr, freeList.Nodes()`dataSize,
               Slot(rxBuffer)`dataSize, Data(freeList.Nodes())
      ensures Lists() && Sending() && RxSlotOk(f)
      ensures bufOk == !rxWaiting && (bufOk ==> RoomForPacket())
      ensures old(rxBuffer) != null ==> rxBuffer != null
      ensures !bufOk ==> received.nodes != [] || FirstFit(old(freeList.nodes), size) == |old(freeList.nodes)|
      ensures freeList.Nodes() + Slot(rxBuffer) == old(freeList.Nodes() + Slot(rxBuffer))
      ensures received.nodes == old(received.nodes) && Untouched(received.Nodes())
    {
      hide Lists, Sending, FirstFit, Listed, Data, Done;
      if rxDiscard || (rxBuffer != null && size > BUFFER_SIZE) {
        RxStartDiscard(f);
        ListsSame();
        SendingKept();
        return true;
      }
      RxObtainBuffer(size, f);
      bufOk := rxBuffer != null && rxBuffer.MaxSize() >= size;
      label Chosen:
      rxWaiting := !bufOk;
      ListsSame@Chosen();
      SendingKept@Chosen();
    }

    /** usbd_ep_read_packet into rx_buffer_ptr(): the packet goes behind the bytes already there, or to the
        scratch area; the byte counter is 16 bits wide. */
    method RxStore(p: Packet, ghost f: seq<byte>)
      requires Lists() && Sending() && RxHolds(f) && RoomForPacket() && |p| <= PACKET_SIZE
      modifies `outNak, `packetsIn, rxBuffer`dataSize, Data(Slot(rxBuffer)), tempBuffer
      ensures Lists() && Sending() && RxHolds(f + p) && packetsIn == old(packetsIn) + [p]
    {
      hide Owned, BufferList.Valid, Sorted, Sending;
      outNak := true;   // until we know whether there is space for the next packet
      packetsIn := packetsIn + [p];
      Apart();
      DataApart(Slot(rxBuffer), Slot(txBuffer) + transmitQueue.Nodes());
      ReadPacket(p, f);
      ListsSame();
      SendingKept();
    }

    method ReadPacket(p: Packet, ghost f: seq<byte>)
      requires Separate() && rxBuffer in pool && RxHolds(f) && RoomForPacket() && |p| <= PACKET_SIZE
      modifies rxBuffer`dataSize, rxBuffer.data, tempBuffer
      ensures RxHolds(f + p)
    {
      var at := if rxDiscard then 0 else rxBuffer.dataSize;
      var buf := if rxDiscard then tempBuffer else rxBuffer.data;
      if rxDiscard {
        assert (f + p)[..BUFFER_SIZE] == f[..BUFFER_SIZE];
      }
      Store(buf, at, p);
      rxBuffer.dataSize := (rxBuffer.dataSize + |p|) % 0x1_0000;
      if !rxDiscard {
        assert rxBuffer.data[..at + |p|] == f + p;
      }
    }

    /** `bufferlist_append(&g_usbnet_received, g_rx_buffer); g_rx_buffer = NULL` */
    method RxQueueFrame(ghost f: Frame, ghost frames: seq<Frame>)
      requires Lists() && Sending() && rxBuffer != null && rxBuffer.Holds(f)
      requires RxQueued(frames) && received.nodes == []
      modifies `rxBuffer, `place, received, pool`ptr
      ensures Lists() && Sending() && rxBuffer == null && RxQueued(frames + [f])
      ensures received.nodes == old(received.nodes) + [old(rxBuffer)]
    {
      hide Lists, Owned, Separate, BufferList.Valid, Sorted, Distinct, Sending;
      Apart();
      Apiece();
      OwnedRxToQueue(pool, place, freeList.nodes, received.nodes, transmitQueue.nodes, txBuffer, rxBuffer);
      received.Append(rxBuffer);
      place := place[rxBuffer := Received];
      rxBuffer := null;
      freeList.Kept();
      transmitQueue.Kept();
      Together();
      SendingKept();
    }

    /** `buffer_release(g_rx_buffer); g_rx_buffer = NULL; g_rx_discard = false` */
    method RxDropFrame()
      requires Lists() && Sending() && rxBuffer != null
      modifies `rxBuffer, `rxDiscard, `place, freeList, pool`ptr, rxBuffer`dataSize
      ensures Lists() && Sending() && rxBuffer == null && !rxDiscard
      ensures freeList.Nodes() == old(freeList.Nodes() + Slot(rxBuffer))
    {
      hide Lists, Sending, Inserted;
      var b := rxBuffer;
      RxVacate();
      GiveBack(b);
    }

    method RxVacate()
      requires Lists() && Sending() && rxBuffer != null
      modifies `rxBuffer, `rxDiscard, `place
      ensures Lists() && Sending() && rxBuffer == null && !rxDiscard
      ensures old(rxBuffer) in pool && place == old(place)[old(rxBuffer) := Held]
    {
      hide Lists, Owned, Separate, BufferList.Valid, Sorted, Distinct, Sending;
      Apart();
      Apiece();
      OwnedRxToHeld(pool, place, freeList.nodes, received.nodes, transmitQueue.nodes, txBuffer, rxBuffer);
      place := place[rxBuffer := Held];
      rxBuffer, rxDiscard := null, false;
      ListsKept();
      SendingKept();
    }

    /** rx_done up to its last statement: the frame `f` is complete. */
    method RxFinishFrame(ghost f: Frame, ghost frames: seq<Frame>)
      requires Lists() && Sending() && RxHolds(f)
      requires RxQueued(frames) && received.nodes == []
      modifies `rxBuffer, `rxDiscard, `place, freeList, received, pool`ptr, rxBuffer`dataSize
      ensures Lists() && Sending() && RxQueued(frames + Accept(f)) && rxBuffer == null && !rxDiscard
      ensures RxQueued(frames + if |f| <= 768 then [f] else if |f| % 65536 <= 769 then [f[..768]] else [])
      ensures received.nodes == [] <==> |f| > 768 && |f| % 65536 > 769
      ensures RxSide() == old(RxSide()) && freeList.Nodes() <= old(freeList.Nodes() + Slot(rxBuffer))
    {
      hide Lists, Sending;
      Apart();
      RxTruncate(f);
      if !rxDiscard {
        RxQueueFrame(if |f| <= BUFFER_SIZE then f else f[..BUFFER_SIZE], frames);
      } else {
        RxDropFrame();
      }
    }

    /** The test of rx_done for a full buffer followed by an empty packet. */
    method RxTruncate(ghost f: Frame)
      requires Lists() && Sending() && RxHolds(f)
      modifies `rxDiscard, rxBuffer`dataSize
      ensures Lists() && Sending() && rxDiscard == (Accept(f) == [])
      ensures !rxDiscard ==> rxBuffer.Holds(if |f| <= BUFFER_SIZE then f else f[..BUFFER_SIZE])
    {
      hide Owned, BufferList.Valid, Sorted, Sending;
      Apart();
      if rxDiscard && rxBuffer.dataSize <= BUFFER_SIZE + 1 {
        rxBuffer.dataSize := BUFFER_SIZE;
        rxDiscard := false;
      }
      ListsSame();
      SendingKept();
    }

    twostate lemma RxQueuedKept(frames: seq<Frame>)
      requires old(RxQueued(frames)) && unchanged(`taken)
      requires received.nodes == old(received.nodes) && Untouched(received.Nodes())
      ensures RxQueued(frames)
    {
    }

    /** rx_done */
    method RxDone(ghost f: Frame, ghost frames: seq<Frame>)
      requires Lists() && Sending() && RxHolds(f)
      requires RxQueued(frames) && received.nodes == []
      modifies `rxBuffer, `rxDiscard, `rxWaiting, `place, freeList, received, pool`ptr, freeList.Nodes()`dataSize,
               rxBuffer`dataSize, Data(freeList.Nodes()), rxBuffer.data
      ensures Lists() && Sending() && RxQueued(frames + Accept(f)) && RxSlotOk([])
      ensures RxQueued(frames + if |f| <= 768 then [f] else if |f| % 65536 <= 769 then [f[..768]] else [])
      ensures received.nodes == [] <==> |f| > 768 && |f| % 65536 > 769
      ensures freeList.Nodes() + Slot(rxBuffer) <= old(freeList.Nodes() + Slot(rxBuffer))
      ensures RxSide() == old(RxSide())
    {
      hide Lists, Sending, RxQueued;
      RxFinishFrame(f, frames);
      label Finished:
      var _ := RxAllocBuffer(PACKET_SIZE, []);
      RxQueuedKept@Finished(frames + Accept(f));
    }

    /** cdcecm_continue_rx: the OUT endpoint answers NAK exactly while there is no room for a packet. */
    method CdcecmContinueRx(ghost d: Deframer)
      requires Lists() && Sending() && RxSlotOk(d.partial) && RxQueued(d.frames)
      modifies `rxBuffer, `rxDiscard, `rxWaiting, `outNak, `place, freeList, pool`ptr, freeList.Nodes()`dataSize,
               Slot(rxBuffer)`dataSize, Data(freeList.Nodes())
      ensures Lists() && Sending() && RxSlotOk(d.partial) && RxQueued(d.frames)
      ensures outNak == rxWaiting && (!outNak ==> RoomForPacket())
      ensures outNak ==> received.nodes != [] || FirstFit(old(freeList.nodes), old(Wanted())) == |old(freeList.nodes)|
      ensures RxSide() == old(RxSide())
    {
      hide Lists, Sending, RxQueued, FirstFit;
      var status := RxContinue(d);
      NakSet(!status, d);
    }

    /** usbd_ep_nak_set */
    method NakSet(nak: bool, ghost d: Deframer)
      requires Lists() && Sending() && RxSlotOk(d.partial) && RxQueued(d.frames)
      modifies `outNak
      ensures Lists() && Sending() && RxSlotOk(d.partial) && RxQueued(d.frames) && outNak == nak
    {
      hide Lists, Sending, RxQueued;
      outNak := nak;
      ListsSame();
      SendingKept();
      RxQueuedKept(d.frames);
    }

    /** `rx_alloc_buffer(current_size + USBNET_USB_PACKET_SIZE)` */
    method RxContinue(ghost d: Deframer) returns (status: bool)
      requires Lists() && Sending() && RxSlotOk(d.partial) && RxQueued(d.frames)
      modifies `rxBuffer, `rxDiscard, `rxWaiting, `place, freeList, pool`ptr, freeList.Nodes()`dataSize,
               Slot(rxBuffer)`dataSize, Data(freeList.Nodes())
      ensures Lists() && Sending() && RxSlotOk(d.partial) && RxQueued(d.frames)
      ensures status == !rxWaiting && (status ==> RoomForPacket())
      ensures !status ==> received.nodes != [] || FirstFit(old(freeList.nodes), old(Wanted())) == |old(freeList.nodes)|
      ensures RxSide() == old(RxSide())
    {
      hide Lists, Sending, RxQueued, FirstFit;
      var currentSize := if rxBuffer == null then 0 else rxBuffer.dataSize;
      status := RxAllocBuffer(currentSize + PACKET_SIZE, d.partial);
      RxQueuedKept(d.frames);
    }

    /** cdcecm_rx_callback: the driver delivers one packet, which it does only while the endpoint does not NAK. */
    method CdcecmRxCallback(p: Packet)
      requires Valid() && !outNak && |p| <= PACKET_SIZE
      modifies `rxBuffer, `rxDiscard, `rxWaiting, `outNak, `place, `packetsIn, freeList, received, pool`ptr,
               freeList.Nodes()`dataSize, Slot(rxBuffer)`dataSize, Data(freeList.Nodes()), Data(Slot(rxBuffer)),
               tempBuffer
      ensures Valid() && packetsIn == old(packetsIn) + [p]
      ensures HeldSame()
    {
      hide Valid, Feed, Deframe, RxSide;
      Within();
      RxPacket(p);
      RxHeldSame();
    }

    method RxPacket(p: Packet)
      requires Valid() && !outNak && |p| <= PACKET_SIZE
      modifies `rxBuffer, `rxDiscard, `rxWaiting, `outNak, `place, `packetsIn, freeList, received, pool`ptr,
               freeList.Nodes()`dataSize, Slot(rxBuffer)`dataSize, Data(freeList.Nodes()), Data(Slot(rxBuffer)),
               tempBuffer
      ensures Valid() && packetsIn == old(packetsIn) + [p]
      ensures RxSide() == old(RxSide())
    {
      hide Lists, Sending, Framed, Accept, RxQueued;
      assert rxBuffer != null;
      assert rxDiscard || rxBuffer.MaxSize() >= rxBuffer.dataSize + PACKET_SIZE;
      ghost var d := Deframe(packetsIn);
      DeframeAppend(packetsIn, p);
      Apart();
      label Before:
      RxStore(p, d.partial);
      RxQueuedKept@Before(d.frames);
      RxStored(p, d);
    }

    /** The rest of the callback once the packet is stored. */
    method RxStored(p: Packet, ghost d: Deframer)
      requires Lists() && Sending() && RxHolds(d.partial + p) && RxQueued(d.frames) && received.nodes == []
      requires Aligned(|d.partial|) && |p| <= PACKET_SIZE
      modifies `rxBuffer, `rxDiscard, `rxWaiting, `outNak, `place, freeList, received, pool`ptr,
               freeList.Nodes()`dataSize, Slot(rxBuffer)`dataSize, Data(freeList.Nodes()), Data(Slot(rxBuffer))
      ensures Lists() && Sending() && RxSlotOk(Feed(d, p).partial) && RxQueued(Feed(d, p).frames)
      ensures outNak == rxWaiting && (!outNak ==> RoomForPacket())
      ensures RxSide() == old(RxSide())
    {
      hide Lists, Sending, Accept, RxQueued, RoomForPacket;
      if |p| < PACKET_SIZE {
        RxDone(d.partial + p, d.frames);
      }
      CdcecmContinueRx(Feed(d, p));
    }

    // ---------- transmit path ----------

    /** The IN endpoint is idle in the middle of a frame, or after its last packet. */
    ghost predicate TxReady()
      reads `submitted, `txWaiting, `txBuffer, `txWritten, `wire, `completions, `inBusy, `connected, transmitQueue,
            Slot(txBuffer)`dataSize, Data(Slot(txBuffer)), transmitQueue.Nodes()`dataSize, Data(transmitQueue.Nodes())
    {
      Queued() && |wire| == completions && !inBusy && connected && !txWaiting && InProgress()
    }

    /** usbd_ep_write_packet: a busy endpoint takes nothing. */
    method WritePacket(buf: array<byte>, at: nat, len: nat) returns (written: nat)
      requires at + len <= buf.Length && len <= PACKET_SIZE
      modifies `inBusy, `wire
      ensures if old(inBusy) then written == 0 && inBusy && wire == old(wire)
              else written == len && inBusy && wire == old(wire) + [buf[at..at + len]]
    {
      if inBusy {
        return 0;
      }
      inBusy := true;
      wire := wire + [buf[at..at + len]];
      return len;
    }

    /** First branch of cdcecm_tx_callback: the next packet of the frame in progress. */
    method TxNextPacket()
      requires Lists() && TxReady() && txBuffer != null
      modifies `txBuffer, `txWritten, `wire, `inBusy, `place, freeList, pool`ptr, txBuffer`dataSize
      ensures Lists() && Sending()
      ensures |wire| == |old(wire)| + 1
      ensures StillHeld(old(place), place, null)
      ensures unchanged(transmitQueue) && unchanged(`submitted) && !txWaiting
      ensures old(txBuffer.dataSize - txWritten) >= PACKET_SIZE ==> freeList.nodes == old(freeList.nodes)
    {
      hide Lists, Queued, Framed, FullPackets;
      Apart();
      var len := TxWriteNext();
      if len < PACKET_SIZE {
        TxReleaseFrame();
      }
    }

    /** A full packet leaves the frame in progress; a short one is its last. */
    method TxWriteNext() returns (len: nat)
      requires Lists() && TxReady() && txBuffer != null
      modifies `txWritten, `wire, `inBusy
      ensures Lists() && Queued() && inBusy && |wire| == |old(wire)| + 1
      ensures len == Min(old(txBuffer.dataSize - txWritten), PACKET_SIZE)
      ensures len >= PACKET_SIZE ==> Sending()
      ensures len < PACKET_SIZE ==> 0 <= Done() < |submitted| && wire == Framed(submitted[..Done() + 1])
    {
      hide Lists, Separate, Framed, FullPackets, BufferList.Valid;
      Apart();
      ghost var d, f := Done(), submitted[Done()];
      var maxLen := Min(txBuffer.dataSize - txWritten, PACKET_SIZE);
      NextPacket(submitted, d, txWritten, maxLen);
      HoldsSlice(txBuffer, f, txWritten, txWritten + maxLen);
      assert !inBusy;
      len := WritePacket(txBuffer.data, txWritten, maxLen);
      txWritten := txWritten + len;
      ListsSame();
    }

    /** `buffer_release(g_cdcecm_current_tx_buffer); g_cdcecm_current_tx_buffer = NULL` */
    method TxReleaseFrame()
      requires Lists() && Queued() && txBuffer != null
      modifies `txBuffer, `place, freeList, pool`ptr, txBuffer`dataSize
      ensures Lists() && Queued() && txBuffer == null
      ensures StillHeld(old(place), place, null)
    {
      hide Lists, Owned, Separate, BufferList.Valid, Sorted, Distinct, Queued, Inserted;
      Apart();
      Apiece();
      var b := txBuffer;
      OwnedTxToHeld(pool, place, freeList.nodes, received.nodes, transmitQueue.nodes, rxBuffer, b);
      place := place[b := Held];
      txBuffer := null;
      ListsKept();
      GiveBack(b);
      QueuedSame();
    }

    /** cdcecm_tx_callback */
    method CdcecmTxCallback()
      requires Lists() && TxReady()
      modifies `txWaiting, `txBuffer, `txWritten, `wire, `inBusy, `place, freeList, transmitQueue, pool`ptr,
               Slot(txBuffer)`dataSize, transmitQueue.Nodes()`dataSize
      ensures Lists() && Sending()
      ensures connected && transmitQueue.nodes != [] ==> !txWaiting
      ensures StillHeld(old(place), place, null)
      ensures Pending() == |old(transmitQueue.nodes)| + if old(txBuffer) == null then 0 else 1
      ensures old(txBuffer != null && txBuffer.dataSize - txWritten >= PACKET_SIZE) ==>
                freeList.nodes == old(freeList.nodes)
      decreases if txBuffer == null then 2 else 0
    {
      hide Lists, Sending, Queued, Framed, FullPackets;
      if txBuffer != null {
        TxNextPacket();
      } else {
        CdcecmStartTx();
      }
    }

    /** cdcecm_start_tx */
    method CdcecmStartTx()
      requires Lists() && Queued() && |wire| == completions && !inBusy && txBuffer == null
      requires wire == Framed(submitted[..|submitted| - |transmitQueue.nodes|])
      requires connected || txWaiting
      modifies `txWaiting, `txBuffer, `txWritten, `wire, `inBusy, `place, freeList, transmitQueue, pool`ptr,
               transmitQueue.Nodes()`dataSize
      ensures Lists() && Sending()
      ensures connected && transmitQueue.nodes != [] ==> !txWaiting
      ensures StillHeld(old(place), place, null)
      ensures Pending() == |old(transmitQueue.nodes)|
      ensures old(transmitQueue.nodes == [] || transmitQueue.nodes[0].dataSize >= PACKET_SIZE) ==>
                freeList.nodes == old(freeList.nodes)
      decreases 1
    {
      hide Owned, BufferList.Valid, Sorted, Framed, FullPackets;
      if !connected {
        return;
      }
      ghost var n := |submitted| - |transmitQueue.nodes|;
      var buffer := TxPop();
      label Popped:
      if buffer != null {
        txWaiting := false;
        txWritten := 0;
        NothingSent(wire, submitted[n]);
        ListsSame@Popped();
        CdcecmTxCallback();
      } else {
        txWaiting := true;
      }
    }

    twostate lemma QueuedSame()
      requires old(Queued()) && unchanged(`submitted) && transmitQueue.nodes == old(transmitQueue.nodes)
      requires Untouched(transmitQueue.Nodes())
      ensures Queued()
    {
    }

    twostate lemma InProgressSame()
      requires old(InProgress()) && unchanged(`submitted, `txWaiting, `txBuffer, `txWritten, `wire)
      requires transmitQueue.nodes == old(transmitQueue.nodes) && Untouched(Slot(txBuffer))
      ensures InProgress()
    {
    }

    twostate lemma QueuedPopped()
      requires old(Queued()) && old(transmitQueue.nodes) != [] && transmitQueue.nodes == old(transmitQueue.nodes)[1..]
      requires unchanged(`submitted) && Untouched(old(transmitQueue.Nodes()))
      ensures Queued() && old(transmitQueue.nodes[0]).Holds(submitted[|submitted| - |transmitQueue.nodes| - 1])
    {
    }

    /** `g_cdcecm_current_tx_buffer = bufferlist_popfront(&g_usbnet_transmit_queue)` */
    method TxPop() returns (buffer: Buffer?)
      requires Lists() && Queued() && txBuffer == null
      modifies `txBuffer, `place, transmitQueue, pool`ptr
      ensures Lists() && Queued() && txBuffer == buffer
      ensures StillHeld(old(place), place, null)
      ensures if old(transmitQueue.nodes) == [] then buffer == null && transmitQueue.nodes == []
              else buffer == old(transmitQueue.nodes[0]) && transmitQueue.nodes == old(transmitQueue.nodes[1..])
                   && buffer.Holds(submitted[|submitted| - |transmitQueue.nodes| - 1])
    {
      hide Lists, Queued, StillHeld;
      buffer := TxUnlink();
      if buffer == null {
        QueuedSame();
      } else {
        QueuedPopped();
      }
    }

    method TxUnlink() returns (buffer: Buffer?)
      requires Lists() && txBuffer == null
      modifies `txBuffer, `place, transmitQueue, pool`ptr
      ensures Lists() && txBuffer == buffer
      ensures StillHeld(old(place), place, null)
      ensures if old(transmitQueue.nodes) == [] then buffer == null && transmitQueue.nodes == []
              else buffer == old(transmitQueue.nodes[0]) && transmitQueue.nodes == old(transmitQueue.nodes[1..])
    {
      hide Lists, Owned, Separate, BufferList.Valid, Sorted, Distinct;
      Apart();
      Apiece();
      if transmitQueue.nodes != [] {
        OwnedPopTx(pool, place, freeList.nodes, received.nodes, transmitQueue.nodes, rxBuffer);
      }
      buffer := transmitQueue.PopFront();
      freeList.Kept();
      received.Kept();
      txBuffer := buffer;
      if buffer != null {
        place := place[buffer := TxSlot];
      }
      Together();
    }

    // ---------- the steps of a session ----------

    /** A frame in the transmit queue is not waiting for anything but the frames before it. */
    ghost predicate WorkConserving()
      reads `connected, `txWaiting, transmitQueue
    {
      connected && transmitQueue.nodes != [] ==> !txWaiting
    }

    /** Nothing is queued before the link is up, and the device conserves work. */
    ghost predicate Flowing()
      reads `connected, `txWaiting, transmitQueue
    {
      WorkConserving() && (connected || transmitQueue.nodes == [])
    }

    /** The link stays as it is, and work stays conserved. */
    twostate predicate Steady()
      reads `connected, `txWaiting, transmitQueue
    {
      connected == old(connected) && (old(WorkConserving()) ==> WorkConserving())
    }

    /** The running code has no buffer. */
    ghost predicate NoneHeld()
      reads `place
    {
      forall x :: x in pool && x in place ==> place[x] != Held
    }

    /** The running code has no buffer but this one. */
    ghost predicate OnlyHeld(b: Buffer?)
      reads `place
    {
      forall x :: x in pool && x in place && place[x] == Held ==> x == b
    }

    /** The running code has the same buffers as before. */
    twostate predicate HeldSame()
      reads `place
    {
      forall x :: x in pool ==> (x in old(place) && old(place[x]) == Held <==> x in place && place[x] == Held)
    }

    /** The buffers that are free or on the receive side. */
    ghost function RxSide(): set<Buffer>
      reads `rxBuffer, freeList, received
    {
      freeList.Nodes() + Slot(rxBuffer) + received.Nodes()
    }

    /** A buffer belongs to the running code exactly when it is nowhere else. */
    lemma HeldElsewhere(b: Buffer)
      requires Lists() && b in pool
      ensures b in place && (place[b] == Held <==> b !in RxSide() + transmitQueue.Nodes() + Slot(txBuffer))
    {
    }

    twostate lemma RxHeldSame()
      requires old(Valid()) && Valid() && RxSide() == old(RxSide())
      requires unchanged(`txBuffer) && transmitQueue.nodes == old(transmitQueue.nodes)
      ensures HeldSame()
    {
      hide Lists, Sending, Receiving, RxSide;
      forall x | x in pool
        ensures x in old(place) && old(place[x]) == Held <==> x in place && place[x] == Held
      {
        HeldElsewhere(x);
        WasHeldElsewhere(x);
      }
    }

    twostate lemma WasHeldElsewhere(b: Buffer)
      requires old(Lists()) && b in pool
      ensures old(b in place && (place[b] == Held <==> b !in RxSide() + transmitQueue.Nodes() + Slot(txBuffer)))
    {
    }

    /** Of the buffers other than `b`, the main loop has exactly those it had, with their contents, and nothing is
        received. */
    twostate predicate OthersKept(b: Buffer?)
      reads `place, `taken, `packetsIn, `connected, `txWaiting, transmitQueue, pool, Data(pool)
    {
      unchanged(`taken, `packetsIn) && Steady() &&
      forall x :: x in pool && x != b ==>
        (x in old(place) && old(place[x]) == Held <==> x in place && place[x] == Held)
        && (x in place && place[x] == Held ==> unchanged(x`dataSize) && unchanged(x.data))
    }

    /** Frames submitted whose last packet has not completed. */
    ghost function Pending(): int
      reads `submitted, `txWaiting, transmitQueue
    {
      |submitted| - Done()
    }

    /** The host has taken the packet of the IN endpoint; the driver calls cdcecm_tx_callback. */
    method InCompleted()
      requires Valid() && inBusy
      modifies `txWaiting, `txBuffer, `txWritten, `wire, `inBusy, `completions, `place, freeList, transmitQueue,
               pool`ptr, Slot(txBuffer)`dataSize, transmitQueue.Nodes()`dataSize
      ensures Valid() && WorkConserving()
      ensures completions == old(completions) + 1
      ensures StillHeld(old(place), place, null) && connected
    {
      hide Lists, Sending, Receiving, TxReady, Separate;
      EndpointIdle();
      Apart();
      label Idle:
      CdcecmTxCallback();
      ReceivingKept@Idle();
    }

    method EndpointIdle()
      requires Valid() && inBusy
      modifies `inBusy, `completions
      ensures Lists() && TxReady() && Receiving() && completions == old(completions) + 1 && connected
    {
      hide Lists, Receiving, Framed, FullPackets, Queued, InProgress;
      inBusy := false;
      completions := completions + 1;
      ListsSame();
      QueuedSame();
      InProgressSame();
      ReceivingKept();
    }

    /** usbnet_transmit */
    method Transmit(buffer: Buffer)
      requires Valid() && buffer in pool && place[buffer] == Held && buffer.dataSize <= buffer.MaxSize()
      modifies `txWaiting, `txBuffer, `txWritten, `wire, `inBusy, `place, `submitted, freeList, transmitQueue,
               pool`ptr, transmitQueue.Nodes()`dataSize, buffer`dataSize
      ensures Valid() && WorkConserving()
      ensures submitted == old(submitted + [buffer.data[..buffer.dataSize]])
      ensures OthersKept(buffer)
      ensures Pending() == old(Pending()) + 1
      ensures StillHeld(old(place), place, buffer) && buffer in place && place[buffer] != Held
      ensures old(WorkConserving() && buffer.dataSize >= PACKET_SIZE) ==>
                freeList.nodes == old(freeList.nodes)
    {
      hide Valid;
      Within();
      TxAppend(buffer);
      Within();
      TxKick();
    }

    /** `if (g_cdcecm_tx_waiting_for_frame && g_cdcecm_connected) cdcecm_start_tx()` */
    method TxKick()
      requires Valid()
      modifies `txWaiting, `txBuffer, `txWritten, `wire, `inBusy, `place, freeList, transmitQueue,
               pool`ptr, transmitQueue.Nodes()`dataSize
      ensures Valid() && WorkConserving()
      ensures StillHeld(old(place), place, null)
      ensures Pending() == old(Pending())
      ensures OthersKept(null)
      ensures old(!txWaiting || !connected || transmitQueue.nodes == []
                  || transmitQueue.nodes[0].dataSize >= PACKET_SIZE) ==>
                freeList.nodes == old(freeList.nodes)
    {
      hide Lists, Separate, Receiving, Framed, FullPackets, Queued, InProgress;
      if txWaiting && connected {
        Apart();
        CdcecmStartTx();
        ReceivingKept();
      }
    }

    /** `bufferlist_append(&g_usbnet_transmit_queue, buffer)` */
    method TxAppend(buffer: Buffer)
      requires Valid() && buffer in pool && place[buffer] == Held && buffer.dataSize <= buffer.MaxSize()
      modifies `place, `submitted, transmitQueue, pool`ptr
      ensures Valid()
      ensures submitted == old(submitted) + [buffer.data[..buffer.dataSize]]
      ensures transmitQueue.nodes == old(transmitQueue.nodes) + [buffer]
      ensures place == old(place)[buffer := TxQueue]
      ensures Pending() == old(Pending()) + 1
    {
      hide Lists, Sending, Receiving;
      Apart();
      TxLink(buffer);
      label Linked:
      submitted := submitted + [buffer.data[..buffer.dataSize]];
      ListsSame@Linked();
      SendingAppended(buffer);
      ReceivingKept();
    }

    method TxLink(buffer: Buffer)
      requires Lists() && buffer in pool && place[buffer] == Held
      modifies `place, transmitQueue, pool`ptr
      ensures Lists()
      ensures transmitQueue.nodes == old(transmitQueue.nodes) + [buffer]
      ensures place == old(place)[buffer := TxQueue]
    {
      hide Owned, BufferList.Valid, Sorted;
      Apart();
      OwnedAppend(pool, place, freeList.nodes, received.nodes, transmitQueue.nodes, rxBuffer, txBuffer, buffer);
      transmitQueue.Append(buffer);
      place := place[buffer := TxQueue];
      freeList.Kept();
      received.Kept();
    }

    /** Submitting a frame changes nothing about the frames before it. */
    twostate lemma SendingAppended(buffer: Buffer)
      requires old(Sending()) && buffer.dataSize <= buffer.MaxSize()
      requires transmitQueue.nodes == old(transmitQueue.nodes) + [buffer]
      requires submitted == old(submitted) + [buffer.data[..buffer.dataSize]]
      requires unchanged(`txWaiting, `txBuffer, `txWritten, `wire, `completions, `inBusy, `connected)
      requires Untouched(Slot(txBuffer) + old(transmitQueue.Nodes()))
      ensures Sending()
    {
      hide Framed, FullPackets;
      assert Done() == old(Done());
      assert submitted[..Done()] == old(submitted)[..Done()];
      if !txWaiting {
        assert submitted[..Done() + 1] == old(submitted)[..Done() + 1];
      }
    }

    /** buffer_allocate, called by the main loop */
    method BufferAllocate(size: int) returns (b: Buffer?)
      requires Valid()
      modifies `place, freeList, pool`ptr, freeList.Nodes()`dataSize
      ensures Valid()
      ensures var k := FirstFit(old(freeList.nodes), size);
              if k == |old(freeList.nodes)|
              then b == null && freeList.nodes == old(freeList.nodes) && place == old(place)
              else b == old(freeList.nodes[k]) && b in pool && b.dataSize == 0 && b.MaxSize() >= size
                   && freeList.nodes == Without(old(freeList.nodes), k) && place == old(place)[b := Held]
      ensures OthersKept(b) && (b != null ==> old(place[b]) == Free)
    {
      hide Lists, Sending, Receiving, Separate, FirstFit, Without;
      Apart();
      FirstFitIs(freeList.nodes, size);
      b := TakeFree(size);
      ReceivingKept();
    }

    /** buffer_release, called by the main loop */
    method BufferRelease(b: Buffer)
      requires Valid() && b in pool && place[b] == Held
      modifies `place, freeList, pool`ptr, b`dataSize
      ensures Valid()
      ensures freeList.nodes == Inserted(old(freeList.nodes), b) && place == old(place)[b := Free]
      ensures OthersKept(b)
    {
      hide Lists, Sending, Receiving;
      Apart();
      GiveBack(b);
      ReceivingKept();
    }

    twostate lemma RxTaken(frames: seq<Frame>)
      requires old(RxQueued(frames)) && Untouched(old(received.Nodes()))
      requires if old(received.nodes) == [] then taken == old(taken) && received.nodes == []
               else taken == old(taken) + 1 && received.nodes == old(received.nodes)[1..]
      requires unchanged(`rxBuffer, `rxDiscard) && Untouched(Slot(rxBuffer))
      ensures RxQueued(frames) && received.nodes == []
      ensures forall f :: old(RxSlotOk(f)) ==> RxSlotOk(f)
      ensures old(received.nodes) != [] ==> taken <= |frames| && old(received.nodes[0]).Holds(frames[taken - 1])
    {
    }

    /** Changes elsewhere in memory do not matter. */
    twostate lemma Undisturbed()
      requires old(Valid())
      requires unchanged(this) && unchanged(freeList) && unchanged(received) && unchanged(transmitQueue)
      requires forall x :: x in pool ==> unchanged(x) && unchanged(x.data)
      ensures Valid()
    {
      hide Lists, Sending, Receiving;
      ListsSame();
      Apart();
      SendingKept();
      ReceivingKept();
    }

    /** The main loop may do what it likes with the contents of the buffers it holds. */
    twostate lemma HeldWritten(b: Buffer)
      requires old(Valid()) && b in pool && old(place[b]) == Held
      requires unchanged(this) && unchanged(freeList) && unchanged(received) && unchanged(transmitQueue)
      requires forall x :: x in pool ==> x.ptr == old(x.ptr)
      requires Untouched(pool - {b})
      ensures Valid() && OthersKept(b)
    {
      hide Lists, Sending, Receiving;
      ListsSame();
      Apart();
      SendingKept();
      ReceivingKept();
    }

    /** usbnet_receive: frames leave the received queue in the order in which they were completed. */
    method Receive() returns (b: Buffer?)
      requires Valid()
      modifies `place, `taken, received, pool`ptr
      ensures Valid()
      ensures b == null <==> old(received.nodes) == []
      ensures if b == null then taken == old(taken) && place == old(place)
              else taken == old(taken) + 1 && place == old(place)[b := Held] && b in pool && old(place[b]) == Received
                   && taken <= |Deframe(packetsIn).frames| && b.Holds(Deframe(packetsIn).frames[taken - 1])
    {
      hide Lists, Sending, RxQueued, RxSlotOk, Separate, Distinct, Buffer.Holds, Deframe;
      Apart();
      b := RxPop();
      SendingKept();
      RxTaken(Deframe(packetsIn).frames);
    }

    /** `bufferlist_popfront(&g_usbnet_received)` */
    method RxPop() returns (b: Buffer?)
      requires Lists()
      modifies `place, `taken, received, pool`ptr
      ensures Lists()
      ensures if old(received.nodes) == []
              then b == null && received.nodes == [] && place == old(place) && taken == old(taken)
              else b == old(received.nodes[0]) && b in pool && received.nodes == old(received.nodes)[1..]
                   && place == old(place)[b := Held] && taken == old(taken) + 1 && old(place[b]) == Received
    {
      hide Lists, Owned, Separate, BufferList.Valid, Sorted, Distinct;
      Apart();
      Apiece();
      if received.nodes != [] {
        OwnedPopRx(pool, place, freeList.nodes, received.nodes, transmitQueue.nodes, rxBuffer, txBuffer);
      }
      b := received.PopFront();
      freeList.Kept();
      transmitQueue.Kept();
      if b != null {
        place := place[b := Held];
        taken := taken + 1;
      }
      Together();
    }

    /** usbnet_poll */
    method Poll()
      requires Valid()
      modifies `rxBuffer, `rxDiscard, `rxWaiting, `outNak, `place, freeList, pool`ptr, freeList.Nodes()`dataSize,
               Slot(rxBuffer)`dataSize, Data(freeList.Nodes())
      ensures Valid()
      ensures connected && outNak ==>
                received.nodes != [] || FirstFit(old(freeList.nodes), old(Wanted())) == |old(freeList.nodes)|
      ensures HeldSame()
    {
      hide Lists, Sending, RxQueued, RxSlotOk, FirstFit;
      if rxWaiting {
        if connected {
          Within();
          CdcecmContinueRx(Deframe(packetsIn));
          RxHeldSame();
        }
      }
    }

    /** usbnet_get_tx_queue_size: exactly the frames whose last packet has not completed yet. */
    method GetTxQueueSize() returns (n: nat)
      requires Valid()
      ensures n == |submitted| - Done()
      ensures |Framed(submitted[..Done()])| <= completions
      ensures n > 0 ==> completions < |Framed(submitted[..Done() + 1])|
    {
      hide Sending, Receiving, Owned, Sorted;
      var beingTransmitted := if txWaiting then 0 else 1;
      var queued := transmitQueue.Size();
      n := queued + beingTransmitted;
      SendingKept();
      TxCounted();
    }

    /** The completed packets are those of the first Done() frames and not yet all of the next one. */
    lemma TxCounted()
      requires Sending()
      ensures 0 <= Done() <= |submitted|
      ensures |Framed(submitted[..Done()])| <= completions
      ensures Done() < |submitted| ==> completions < |Framed(submitted[..Done() + 1])|
    {
      hide Framed, FullPackets, Packets;
      if Done() < |submitted| {
        FramedStep(submitted, Done());
        if txBuffer != null {
          FullPacketCount(submitted[Done()][..txWritten]);
        }
      }
    }

    /** cdcecm_send_connection_status */
    method SendConnectionStatus()
      requires Valid()
      modifies `sendStatus
      ensures Valid() && sendStatus
    {
      hide Lists, Sending, Receiving;
      sendStatus := true;
      ListsSame();
      SendingKept();
      ReceivingKept();
    }

    /** cdcecm_status_callback: the link comes up. */
    method StatusCallback()
      requires Valid()
      modifies `sendStatus, `connected
      ensures Valid() && connected == (old(connected) || old(sendStatus))
      ensures WorkConserving() <==> old(WorkConserving()) && (old(connected) || !connected || transmitQueue.nodes == [])
    {
      hide Lists, Queued, InProgress, Receiving;
      if sendStatus {
        sendStatus := false;
        connected := true;
      }
      ListsSame();
      QueuedSame();
      if !txWaiting {
        InProgressSame();
      }
      ReceivingKept();
    }

    // ---------- usbnet_init ----------

    /** The static storage of the program before usbnet_init. */
    constructor ()
      ensures Static()
      ensures |buffers| == 6 && forall i :: 0 <= i < 6 ==> buffers[i].MaxSize() == if i < 4 then 768 else 128
      ensures fresh(freeList) && fresh(received) && fresh(transmitQueue)
      ensures fresh(Elems(buffers)) && fresh(Data(Elems(buffers))) && fresh(tempBuffer)
    {
      hide Distinct, Framed, Deframe, Sizes;
      SizesAre();
      var all := NewBuffers(Sizes());
      buffers := all;
      freeList := new BufferList();
      received := new BufferList();
      transmitQueue := new BufferList();
      tempBuffer := new byte[160](_ => 0);
      pool := Elems(all);
      place := map b | b in Elems(all) :: Held;
      rxBuffer, rxWaiting, rxDiscard := null, false, false;
      txWritten, txWaiting, txBuffer := 0, true, null;
      connected, sendStatus, outNak, inBusy := false, false, false, false;
      packetsIn, taken, submitted, wire, completions := [], 0, [], [], 0;
    }

    /** The sizes of the static buffers. */
    static function Sizes(): seq<uint16> {
      [BUFFER_SIZE, BUFFER_SIZE, BUFFER_SIZE, BUFFER_SIZE, SMALLBUF_SIZE, SMALLBUF_SIZE]
    }

    static lemma SizesAre()
      ensures |Sizes()| == BUFFER_COUNT + SMALLBUF_COUNT
      ensures forall i :: 0 <= i < |Sizes()| ==> Sizes()[i] == if i < BUFFER_COUNT then BUFFER_SIZE else SMALLBUF_SIZE
    {
    }

    /** Nothing has happened yet: the host may send, and has received nothing. */
    ghost predicate Fresh()
      reads this, transmitQueue
    {
      && !connected && !outNak && transmitQueue.nodes == []
      && packetsIn == [] && taken == 0 && submitted == [] && wire == [] && completions == 0
    }

    ghost predicate Idle()
      reads this, freeList, received, transmitQueue
    {
      && freeList.nodes == [] && received.nodes == [] && Fresh()
      && freeList.head == null && received.head == null && transmitQueue.head == null
      && rxBuffer == null && txBuffer == null && !rxDiscard && txWaiting && !inBusy
    }

    ghost predicate Static()
      reads this, freeList, received, transmitQueue
    {
      && Separate() && Idle()
      && place.Keys == pool && (forall b :: b in place ==> place[b] == Held)
      && pool == Elems(buffers) && Distinct(buffers) && |buffers| == BUFFER_COUNT + SMALLBUF_COUNT
      && (forall i :: 0 <= i < |buffers| ==>
            buffers[i].MaxSize() == if i < BUFFER_COUNT then BUFFER_SIZE else SMALLBUF_SIZE)
    }

    lemma Initial()
      requires Static()
      ensures Lists() && Sending() && freeList.Valid()
    {
    }

    /** usbnet_init: all buffers go to the free list, then one of them to the receive slot. */
    method Init()
      requires Static()
      modifies `rxBuffer, `rxDiscard, `rxWaiting, `place, freeList, pool`ptr, pool`dataSize, Data(pool)
      ensures Valid() && Fresh() && NoneHeld()
      ensures |pool| == 6
    {
      hide Lists, Sending, FirstFit, Separate;
      DistinctCount(buffers);
      Initial();
      Apart();
      ReleaseAll(buffers);
      FirstFitIs(freeList.nodes, PACKET_SIZE);
      assert buffers[5] in freeList.nodes;
      assert pool <= freeList.Nodes();
      InitReceive();
    }

    /** "Preallocate buffer for first incoming packet" */
    method InitReceive()
      requires Lists() && Sending() && FirstFit(freeList.nodes, PACKET_SIZE) < |freeList.nodes|
      requires rxBuffer == null && !rxDiscard && received.nodes == [] && Fresh() && pool <= freeList.Nodes()
      modifies `rxBuffer, `rxDiscard, `rxWaiting, `place, freeList, pool`ptr, freeList.Nodes()`dataSize,
               Data(freeList.Nodes())
      ensures Valid() && Fresh() && NoneHeld()
    {
      hide Lists, Sending, FirstFit, Separate;
      Apart();
      var _ := RxAllocBuffer(PACKET_SIZE, []);
      forall b | b in pool
        ensures b in place && place[b] != Held
      {
        HeldElsewhere(b);
      }
    }

    /** Static storage for buffers of the given sizes. */
    static method NewBuffers(sizes: seq<uint16>) returns (s: seq<Buffer>)
      ensures |s| == |sizes| && Distinct(s) && fresh(Elems(s)) && fresh(Data(Elems(s)))
      ensures forall i :: 0 <= i < |s| ==> s[i].MaxSize() == sizes[i]
      ensures forall a, b :: a in s && b in s && a != b ==> a.data != b.data
    {
      s := [];
      for i := 0 to |sizes|
        invariant |s| == i && Distinct(s) && fresh(Elems(s)) && fresh(Data(Elems(s)))
        invariant forall j :: 0 <= j < i ==> s[j].MaxSize() == sizes[j]
        invariant forall a, b :: a in s && b in s && a != b ==> a.data != b.data
      {
        var b := new Buffer(sizes[i]);
        assert Elems(s + [b]) == Elems(s) + {b};
        assert Data(Elems(s) + {b}) == Data(Elems(s)) + {b.data};
        s := s + [b];
      }
    }

    /** The loops of usbnet_init that put the static buffers on the free list. */
    method ReleaseAll(all: seq<Buffer>)
      requires Lists() && Sending() && Distinct(all)
      requires forall b :: b in all ==> b in pool && place[b] == Held
      modifies `place, freeList, pool`ptr, Elems(all)`dataSize
      ensures Lists() && Sending() && freeList.Nodes() <= pool
      ensures forall b :: b in all ==> b in freeList.nodes
    {
      hide Lists, Sending;
      Apart();
      for i := 0 to |all|
        invariant Lists() && Sending() && place.Keys == pool && freeList.Nodes() <= pool
        invariant forall j :: i <= j < |all| ==> place[all[j]] == Held
        invariant forall j :: 0 <= j < i ==> all[j] in freeList.Nodes()
      {
        GiveBack(all[i]);
      }
    }
  }
}
