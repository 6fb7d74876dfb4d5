# A model of the USB network device, its TCP stack and the services on it

The firmware makes a microcontroller appear as a USB Ethernet adapter with a small IPv6 host behind it. This
project models three layers of it as one stateful system that shares six buffers, and proves what each layer
promises to the next.

**Buffers and USB frames** (`buffers.dfy`, `framing.dfy`, `usbnet.dfy`, `session.dfy`). `UsbNetwork.UsbNet` is the
state of `src/usbnet.c`: buffers are heap objects linked by their one `ptr` field into the free list, the received
queue and the transmit queue, or sit in the receive or transmit slot, or belong to the running code. Its `Valid()` is
the invariant of a configured session. It says that every buffer is in exactly one place, that the packets written and
the packets still to be written are the framing of all frames submitted, that the frames received are what a pure
deframer makes of the packets read, and that there is room for a packet whenever the endpoint does not answer NAK, which
is what the assertions of the receive callback need. Every callback, poll and call of the public interface keeps it.
`Session` draws the conclusions for whole sessions.

**TCP** (`slices.dfy`, `checksum.dfy`, `tcpwire.dfy`, `tcpstream.dfy`, `tcplog.dfy`, `tcpip.dfy`, `tcpsession.dfy`).
Slices have their headers inside the storage of the buffer they are cut from, as in the C code. Headers are written in
place and are compared with the fields of a segment. Each connection carries a history of what it has sent and received;
`Conn.Valid()` ties the sequence numbers to it, and `TcpLog` ties the history to the frames that the network device was
really given. `TcpStream` states what the sequence numbers guarantee about streams. `TcpSession` runs the whole connection
table, from the packets that the host writes to the bytes that the applications are given and the frames that go out. Each
slot has a history, which begins with the SYN that opened it; `TcpSession.FramesGivePrefix` draws the conclusion from the
frames of the peer alone. `Firmware` starts it.

**Services** (`diagnostics.dfy`, `chunked.dfy`, `http.dfy`, `http_index.dfy`, `http_request.dfy`, `http_server.dfy`). Echo,
discard and the character generator; chunked responses, the request parser, which works in place, the dispatch of
requests, and the firmware download. The whole-session results about them (`EchoAll`, `ServeAll`, `Download`) follow one
connection through received frames, polls with their tests for unacknowledged data and for the limit, and any other
device event. `HttpServer.RequestThenDownload` starts from the frame that holds the request.

What the functions in these contracts mean is stated once more in octets and plain numbers, without these functions:
`Framing.FateOfFrame` and `DroppedFrame` for received frames, `TcpLog.OnTheWire` and `Stack.ResetRefuses` for frames sent,
`TcpSession.AlongInOctets` and `TcpStream.SegmentRules` for segments received, `Stack.OldestSlot` for the table,
`TcpWire.SumOfPseudoHeader` for checksums, `HttpRequest.WhiteSpace`, `InvalidExactly` and `HttpServer.PlainRequest` for
requests, `HttpIndex.TurnsInOctets` and `Diagnostics.PatternOfLines` for what the services send.

The driver of the USB peripheral appears as follows: a packet of at most 64 bytes arrives only while the OUT endpoint
does not answer NAK, an idle IN endpoint takes a packet, a busy one takes nothing, and a completion is reported once.
The current time is a parameter of the operations that read the clock. The members named "step", "turn" or "schedule"
take these events in any order.

## Where the code does not do what it is meant to

Each of these follows from a contract or a lemma, which also says when the code does what is meant.

- A frame of 769 bytes is queued as its first 768, and so is a longer frame whose length modulo 65536 is at most 769,
  since the size field has 16 bits and counts on while discarding (`src/usbnet.c:203-206`, `src/usbnet.c:303`). The comment
  there has only a frame of 768 bytes and its empty packet in mind. `Framing.Accept` is the exact rule,
  `Framing.LongFrameQueued` gives inputs.
- A frame queued before the link comes up would wait until another one is submitted: `UsbNet.StatusCallback` keeps work
  conservation if and only if nothing was queued. In this firmware nothing is, as `tcpip_poll` returns while unconnected
  (`src/tcpip.c:707`): `UsbNet.Flowing` says so of every state that `Session.MainLoop`, `TcpSession.RunTable` and
  `Firmware.Session` reach. Only another user of `usbnet_transmit` could break it.
- A SYN to port 0 matches a free slot of the listeners, and the callback of the new connection, a null pointer, is called
  (`src/tcpip.c:507-528`). `Stack.HandleTcpSyn` says exactly when, `Stack.SynToPortZero` gives the input.
- An old segment is taken for new data if it is a window or more behind, or if the sum with the window wraps
  (`src/tcpip.c:566-572`). `TcpStream.MissedIsExact` says that this is the only way to damage the stream,
  `TcpStream.StaleCopyAccepted` gives an input.
- `tcp_poll` acknowledges data by `tcpip_send(conn, NULL)`, which unslices a null pointer (`src/tcpip.c:633`). The result
  `stuck` of `Stack.PollConnection` says exactly when; `Diagnostics.DiscardThenPoll` gives a run.
- The limit on unacknowledged data compares sequence numbers without regard to wrap (`src/tcpip.c:636`).
  `TcpStream.LimitIsExact` says for which numbers it is right, `TcpStream.LimitMisjudged` gives wrong ones of both kinds.
- On a closed connection the character generator goes on to call `tcpip_send`, whose assertion then fails
  (`src/tcpip_diagnostics.c:27-67`). `tcpip_close` itself makes such a call (`src/tcpip.c:433`). `Generator.Callback`,
  `Generator.Close`, `Generator.Segment` and `Generator.Poll` say exactly when, `Diagnostics.CloseWhileIdle` gives a run.
- A payload that arrives while a response is in progress is never released (`src/http.c:113-116`):
  `HttpServer.HandleConnection` says that this is the only case on an open connection, and `HttpServer.Segment` which
  frames bring it about.
- A blank line that begins inside the payload and ends in what lies behind it in memory is accepted, and the length of the
  body then wraps to nearly 2^32 (`src/http.c:78-87`). `HttpRequest.BodyLengthIsExact` says exactly when,
  `HttpRequest.StraddlingBlankLine` gives an input.

## Model

| member | source | states |
|---|---|---|
| `Bytes.Put16` | src/network_std.h:33-38 | a 16-bit field written in network order is read back as the same number |
| `Bytes.Put32` | src/network_std.h:40-45 | a 32-bit field written in network order is read back as the same number |
| `Bytes.StoredInOrder` | src/network_std.h:33-45 | the octets of a stored field, the most significant one first |
| `Bytes.ReadInOrder` | src/network_std.h:19-31 | the number that is read from the octets at any place, the first one most significant |
| `Buffers.AllocationIsBestFit` | src/buffer.c:14-28 | the search of the sorted free list returns a smallest adequate buffer, and fails only when no free buffer is large enough |
| `Buffers.SortedInserted` | src/buffer.c:7 | releasing keeps the free list sorted by size |
| `Buffers.InsertedElements` | src/buffer.c:38-57 | releasing loses and invents no buffer: the list has the same elements and the released one |
| `Buffers.AllocateThenRelease` | src/buffer.c:10-57 | allocating a buffer and releasing it restores the exact order of the free list |
| `Buffers.ReleaseThenAllocate` | src/buffer.c:10-57 | releasing a buffer and allocating its size gets that very buffer and restores the exact order of the free list |
| `Buffers.JustReleased` | src/buffer.c:10-57 | after a release, an allocation of at most that size succeeds |
| `Buffers.BufferList.Unlink` | src/buffer.c:20-22 | taking element k out through the link that leads to it leaves the other elements in order |
| `Buffers.BufferList.LinkBefore` | src/buffer.c:55-56 | storing into the link that leads to position k puts the buffer there and moves no other |
| `Buffers.BufferList.Allocate` | src/buffer.c:10-36 | relinks in place: the first buffer that fits leaves the list with ptr cleared and size zero; without one nothing changes |
| `Buffers.BufferList.Release` | src/buffer.c:38-57 | relinks in place: the buffer goes in front of the first one that is not smaller |
| `Buffers.BufferList.Append` | src/buffer.c:93-103 | the buffer becomes the last element; the assertion against double insertion holds |
| `Buffers.BufferList.PopFront` | src/buffer.c:105-118 | the first element leaves the list, NULL for an empty list |
| `Buffers.BufferList.Size` | src/buffer.c:120-129 | the number of elements |
| `Framing.PacketCount` | src/usbnet.c:340-356 | a frame of n bytes takes exactly floor(n/64)+1 packets |
| `Framing.PacketAt` | src/usbnet.c:344-348 | packet i of a frame is its i-th 64-byte window |
| `Framing.OneShortPacket` | src/usbnet.c:350-355 | exactly the last packet of a frame is shorter than 64 bytes, also for lengths that are multiples of 64 |
| `Framing.DeframeFramed` | src/usbnet.c:201-223 | each frame is accepted, truncated or dropped by its own length alone; nothing of it is left over for the next |
| `Framing.LongFrameQueued` | src/usbnet.c:203-206 | frames of 769 and of 65536 bytes are queued as their first 768 |
| `Framing.FateOfFrame` | src/usbnet.c:201-223 | among any other frames, a frame of at most 768 bytes is queued whole, one whose length modulo 65536 is at most 769 as its first 768 bytes, and any other not at all |
| `Framing.DroppedFrame` | src/usbnet.c:203-221 | a frame leaves no trace if and only if it is longer than 768 bytes and its length modulo 65536 is more than 769, as for every frame of 770 to 65535 bytes |
| `Framing.RoundTrip` | src/usbnet.c:201-362 | reassembly undoes segmentation for every list of frames of at most 768 bytes |
| `Framing.PrefixRoundTrip` | src/usbnet.c:201-362 | a packet stream cut off anywhere still yields a prefix of the frames that were framed |
| `Framing.DeframeMonotone` | src/usbnet.c:294-312 | later packets never change frames that are complete |
| `UsbNetwork.UsbNet.RxFirstBuffer` | src/usbnet.c:163-170 | a buffer large enough goes from the free list to the receive slot; the slot stays empty only when none fits |
| `UsbNetwork.UsbNet.RxReplaceBuffer` | src/usbnet.c:179-180 | the old receive buffer returns to the free list, the new one is in the slot, no other contents change |
| `UsbNetwork.UsbNet.RxGrowBuffer` | src/usbnet.c:171-182 | an unfinished frame moves to a larger buffer without losing a byte, and the small one returns to the free list |
| `UsbNetwork.UsbNet.RxStartDiscard` | src/usbnet.c:156-161 | discarding starts only when the frame cannot fit, and the 768 bytes already there stay |
| `UsbNetwork.UsbNet.CopyContents` | src/usbnet.c:177-178 | all bytes in use are copied |
| `UsbNetwork.UsbNet.RxAllocBuffer` | src/usbnet.c:154-187 | success means a buffer with room for one more packet, or discarding; failure means a frame still waits to be taken or no free buffer fits |
| `UsbNetwork.UsbNet.ReadPacket` | src/usbnet.c:189-199 | a packet goes behind the bytes already there, or to the scratch area while the 16-bit size keeps counting |
| `UsbNetwork.UsbNet.RxQueueFrame` | src/usbnet.c:212-213 | the frame is the newest in the received queue and the slot is empty |
| `UsbNetwork.UsbNet.RxDropFrame` | src/usbnet.c:218-220 | the buffer returns to the free list, slot and discard flag are cleared |
| `UsbNetwork.UsbNet.RxFinishFrame` | src/usbnet.c:201-221 | a complete frame is queued whole, queued as its first 768 bytes, or dropped, as its length says, 16-bit wrap included; a dropped one leaves the received queue empty |
| `UsbNetwork.UsbNet.RxDone` | src/usbnet.c:201-223 | the same, after which the slot is ready for the next frame |
| `UsbNetwork.UsbNet.CdcecmContinueRx` | src/usbnet.c:287-292 | the endpoint stops answering NAK exactly when there is room for a packet |
| `UsbNetwork.UsbNet.CdcecmRxCallback` | src/usbnet.c:294-312 | its two assertions hold whenever the endpoint does not answer NAK, and the session invariant holds afterwards for the packets read so far |
| `UsbNetwork.UsbNet.WritePacket` | src/usbnet.c:346-347 | an idle endpoint takes the packet, a busy one takes nothing |
| `UsbNetwork.UsbNet.TxNextPacket` | src/usbnet.c:342-356 | meets an idle endpoint and puts the next packet of the frame on the wire; a short packet ends the frame and frees its buffer |
| `UsbNetwork.UsbNet.TxReleaseFrame` | src/usbnet.c:353-354 | the buffer of a finished frame returns to the free list and the slot is empty |
| `UsbNetwork.UsbNet.CdcecmTxCallback` | src/usbnet.c:340-362 | keeps the transmit invariant and leaves no queued frame waiting |
| `UsbNetwork.UsbNet.CdcecmStartTx` | src/usbnet.c:318-338 | starts the oldest queued frame; its assertion holds |
| `UsbNetwork.UsbNet.TxPop` | src/usbnet.c:324-329 | the oldest queued frame, the first not yet started of those submitted, moves to the transmit slot |
| `UsbNetwork.UsbNet.InCompleted` | src/usbnet.c:340-362 | every completion keeps all invariants and leaves the device work-conserving |
| `UsbNetwork.UsbNet.Transmit` | src/usbnet.c:757-771 | the frame is appended to what has been submitted; the buffer changes hands; all invariants hold |
| `UsbNetwork.UsbNet.TxKick` | src/usbnet.c:762-765 | a waiting, connected transmitter starts; no frame is left waiting |
| `UsbNetwork.UsbNet.GetTxQueueSize` | src/usbnet.c:773-778 | the number reported is the number of submitted frames whose last packet has not completed |
| `UsbNetwork.UsbNet.Receive` | src/usbnet.c:780-784 | hands out the frames that the packets read make up, in order, each exactly once |
| `UsbNetwork.UsbNet.Poll` | src/usbnet.c:786-799 | while connected, the endpoint goes on answering NAK only if a frame still waits to be taken or no free buffer is large enough |
| `UsbNetwork.UsbNet.StatusCallback` | src/usbnet.c:231-264 | the link comes up; work conservation survives if and only if no frame was queued before |
| `UsbNetwork.UsbNet.BufferAllocate` | src/buffer.c:10-36 | inside a session: the invariant holds, and other buffers of the running code are left alone |
| `UsbNetwork.UsbNet.BufferRelease` | src/buffer.c:38-57 | inside a session: the invariant holds, and other buffers of the running code are left alone |
| `UsbNetwork.UsbNet.Apart` | src/usbnet.c:154-362 | in every reachable state a buffer is in one place only, and no two places share storage |
| `UsbNetwork.UsbNet.TxCounted` | src/usbnet.c:773-778 | the completed packets are those of the finished frames and not yet all of the next one |
| `UsbNetwork.UsbNet.constructor` | src/usbnet.h:8-11 | the static buffers: four of 768 and two of 128 bytes, all different, with storage of their own |
| `Firmware.Boot` | src/main.c:19-23 | the state after start-up satisfies every invariant: device, connection table, nothing sent or received, no buffer held, nothing queued |
| `Firmware.Session` | src/main.c:19-30 | from start-up on, over any schedule, the table is in order, every connection is accounted for from its SYN on, a connected device that waits for a frame has sent everything, and one that is not connected has nothing queued |
| `UsbNetwork.UsbNet.Init` | src/usbnet.c:74-88 | establishes the session invariant, all buffers but one on the free list |
| `Session.TransmitIsFifo` | src/usbnet.c:318-362 | packets written, packets left of the current frame and packets of queued frames always are the framing of all submitted frames in order |
| `Session.FrameDone` | src/usbnet.c:340-362 | frame k is finished exactly when the completions reach the packet count of the first k+1 frames, each taking floor(n/64)+1 |
| `Session.Progress` | src/usbnet.c:757-778 | a connected, work-conserving device is idle exactly when every submitted packet has completed; otherwise a packet is pending |
| `Session.ValidProgress` | src/tcpip.c:707-708 | the same in every state that a session reaches, as nothing is queued before the link is up |
| `Session.ReceivesFrames` | src/usbnet.c:201-312 | whatever packets were read, they make up some frames and part of another, and the frames queued are the accepted parts of those |
| `Session.ReceivesSent` | src/usbnet.c:201-312 | whatever the polls and buffer shortages were, the frames queued are the accepted parts of the frames the host sent |
| `Session.Loopback` | src/usbnet.c:201-362 | one device feeding another reproduces the submitted frames in order |
| `Session.MainLoop` | src/main.c:25-30 | over any schedule, frames taken are a prefix of what the packets read make up, packets written a prefix of the framing of what was sent, and all of it once a connected device waits; no buffer is lost |
| `Slices.BufferSlice` | src/buffer.c:131-148 | the slice has the size that is left, and only its header, in the reserved prefix, is written |
| `Slices.BufferUnslice` | src/buffer.c:150-156 | the outer buffer has its old limit, and its contents have grown by prefix and suffix |
| `Slices.SetDataSize` | src/buffer.c:154 | the size of a slice is stored in its header and nowhere else |
| `Slices.PushByte` | src/tcpip_diagnostics.c:51 | one byte more at the end of the contents, the others unchanged |
| `Slices.HeadersInside` | src/buffer.c:134 | the headers of nested slices lie in bytes that the layers have reserved |
| `Slices.ThroughLayers` | src/buffer.c:131-156 | slicing through any number of layers, filling and unslicing in reverse loses nothing and writes reserved bytes and payload only |
| `Checksum.WordSumBound` | src/tcpip.c:20-29 | the sum of up to 65535 bytes stays far below 32 bits |
| `Checksum.WordSumConcat` | src/tcpip.c:20-29 | sums of adjacent parts add up when the first has even length |
| `Checksum.WordSumStore` | src/tcpip.c:52-64 | a word stored at an even offset over zeros adds its value |
| `Checksum.ComplementFolds` | src/tcpip.c:31-39 | a sum and its complemented fold make up all ones |
| `Checksum.OnesComplementIsResidue` | src/tcpip.c:31-39 | the one's complement sum is the plain sum modulo 65535, and zero only for zero |
| `Checksum.WordSumWords` | src/tcpip.c:20-29 | two octets are one word, the first its high half; a single last octet is the high half of its word |
| `Checksum.Ipsum` | src/tcpip.c:20-29 | the 32-bit loop computes the sum of big-endian words without overflow |
| `Checksum.FoldSum` | src/tcpip.c:31-39 | the loop ends with the complement of the one's complement sum: with the plain sum it makes a multiple of 65535, and it is 0xFFFF only for zero |
| `Checksum.FoldStep` | src/tcpip.c:33-36 | one fold makes the number smaller and keeps its one's complement value |
| `TcpWire.PacketSum` | src/tcpip.c:41-64 | the 32-bit sum over pseudo-header and payload equals the receiver's sum; no overflow |
| `TcpWire.SumOfPseudoHeader` | src/tcpip.c:41-64 | the receiver's sum is the sum over the octets of the IPv6 pseudo-header, with a length of four octets, and the payload behind it |
| `TcpWire.StoreChecksum` | src/tcpip.c:41-65 | the checksum stored at an even offset (2 for ICMPv6, 16 for TCP) makes the receiver's sum fold to 0xFFFF, and nothing else changes |
| `TcpWire.SumStored` | src/tcpip.c:54-64 | storing a checksum over a zero field adds exactly its value to the receiver's sum |
| `TcpWire.EmittedFields` | src/tcpip.c:371-386 | every field of an emitted segment but the checksum, read at its offset in the standards, has its intended value, version and options included, and the IPv6 length is the frame size minus 54 |
| `TcpWire.EmittedOctets` | src/tcpip.c:371-386 | the same octet by octet |
| `TcpWire.ControlBits` | src/network_std.h:86-90 | which bits are SYN and ACK, and that FIN or RST alone ends a connection |
| `TcpWire.EmittedChecks` | src/tcpip.c:387 | every emitted segment passes the check of its receiver |
| `TcpWire.WriteSegment` | src/tcpip.c:356-387 | the stores into the packet, in front of a payload in place, leave exactly that segment |
| `TcpWire.WriteChecksum` | src/tcpip.c:387 | filling in the checksum over the written headers makes the packet the emitted segment |
| `TcpStream.StepTracks` | src/tcpip.c:564-601 | one segment that is not missed leaves the stream alone or extends it correctly |
| `TcpStream.SegmentRules` | src/tcpip.c:564-601 | in numbers: what data with the expected number, older data, data from further on, and FIN or RST do to an open connection |
| `TcpStream.DeliversPrefix` | src/tcpip.c:546-605 | under loss, repetition and reordering, and across sequence number wrap, the bytes delivered are a prefix of the peer's stream of length rx_sequence minus its first value |
| `TcpStream.DeliversAll` | src/tcpip.c:546-605 | nothing is lost either: pieces that arrive in order, with recognised old ones among them, are all delivered |
| `TcpStream.MissedIsExact` | src/tcpip.c:566-579 | a data segment leaves the stream intact if and only if it is not an old one that both plain comparisons let through |
| `TcpStream.MissedWithoutWrap` | src/tcpip.c:566-579 | without wrap, those are exactly the segments a full window or more behind |
| `TcpStream.StaleCopyAccepted` | src/tcpip.c:566-581 | a late copy of the first byte after 16384 bytes is delivered as new data |
| `TcpStream.TiledAppend` | src/tcpip.c:391 | sending one more segment where the last one ended keeps the ranges contiguous |
| `TcpStream.TiledAt` | src/tcpip.c:382-391 | segment i starts at the initial number plus the space of all segments before it, mod 2^32 |
| `TcpStream.SpaceIsPayload` | src/tcpip.c:525-526 | the space used is one for the SYN plus all payload bytes |
| `TcpStream.SentIsSlice` | src/tcpip.c:382-391 | segment i carries exactly the bytes of the sent stream at the position that its sequence number says, and ends the stream if it has FIN |
| `TcpStream.EndToEnd` | src/tcpip.c:331-605 | one connection end fed by another, FIN included, delivers a prefix of what was sent, for any choice and order of segments |
| `TcpStream.EverythingArrives` | src/tcpip.c:331-605 | the segments of a sender, received once each and in order, deliver everything that was sent, and the end mark is noticed |
| `TcpStream.LimitIsExact` | src/tcpip.c:636 | the plain comparison agrees with the number of bytes in flight if and only if number and limit have both wrapped or neither has |
| `TcpStream.LimitInNumbers` | src/tcpip.c:636 | the limit is 32768 behind the acknowledged number, modulo 2^32 |
| `TcpStream.LimitMisjudged` | src/tcpip.c:636 | numbers for which it lets 69632 bytes in flight pass, and numbers for which it takes 2048 for too many |
| `TcpLog.GrownByOne` | src/tcpip.c:391-395 | a segment that is sent and logged is the next frame |
| `TcpLog.GrownTwice` | src/tcpip.c:391-395 | what log and frames gain in two steps they gain together |
| `TcpLog.RecordedGrown` | src/tcpip.c:391-395 | the log of a connection stays a record, in order, of frames given to the network |
| `TcpLog.OnTheWire` | src/tcpip.c:355-387 | a frame of a connection octet by octet: from our addresses and port to those of the peer, with the numbers, control bits and payload of its entry in the log, and with the option of a SYN |
| `Tcpip.Conn.Clear` | src/tcpip.c:495 | a cleared slot is in order, has sent and delivered nothing, and all its fields are zero |
| `Tcpip.Stack.SendCtrl` | src/tcpip.c:331-396 | one segment goes out, where the last one ended, acknowledging all that was received: the next frame of the network has the addresses and ports of the connection, these numbers, control bits and payload; without a packet and a free buffer nothing changes |
| `Tcpip.Stack.Allocate` | src/tcpip.c:398-412 | a payload slice with room for the headers in front, NULL exactly when no buffer fits |
| `Tcpip.Stack.Cut` | src/tcpip.c:405 | the slice behind the headers, with the bytes there unchanged |
| `Tcpip.Stack.Uncut` | src/tcpip.c:423 | the packet around a slice, every byte unchanged and its size larger by the headers |
| `Tcpip.Stack.Release` | src/tcpip.c:414-417 | the buffer behind the slice returns to its place in the free list |
| `Tcpip.Stack.Send` | src/tcpip.c:419-425 | the payload goes out unchanged in one segment, and the connection stays in order |
| `Tcpip.Stack.Close` | src/tcpip.c:427-432 | FIN and ACK go out if there is a buffer; the connection is closed either way |
| `Tcpip.Stack.Callback` | src/tcpip.h:18-21 | whatever series of calls an application makes, every new frame is a segment logged by the connection and every logged segment such a frame, what is sent acknowledges all that was received, and a connection that the application closes is closed |
| `Tcpip.Stack.Call` | src/tcpip.c:398-434 | each single call does what it is for: the payload is free again or goes back to the peer, the bytes go out if there is a buffer for them, the connection is closed |
| `Tcpip.Stack.TakePayload` | src/tcpip.c:581-590 | options are cut out by the move, and the slice holds exactly the data of the segment |
| `Tcpip.Stack.StripOptions` | src/tcpip.c:583-587 | the overlapping move puts the data right behind the headers |
| `Tcpip.Stack.SegmentData` | src/tcpip.c:564-595 | repeated data is ignored, data ahead is refused, any other is taken and becomes the payload; otherwise the buffer is free again |
| `Tcpip.Stack.AcceptData` | src/tcpip.c:581-589 | the expected number advances by the data, which is what the callback is given |
| `Tcpip.Stack.BeginSegment` | src/tcpip.c:560-595 | the same cases, decided by the frame's own data offset and numbers, and the acknowledgement is noted |
| `Tcpip.Stack.EndOfStream` | src/tcpip.c:597-601 | FIN or RST takes one number and closes the connection, which keeps its record of frames |
| `Tcpip.Stack.ActiveSegment` | src/tcpip.c:554-604 | for any application: the receive state moves as TcpStream.OnSegment says, or is closed; a repeated segment sends nothing, one ahead is always answered by FIN and ACK; the acknowledgement is noted, and every new frame is one of the connection's segments |
| `Tcpip.Stack.FindConnection` | src/tcpip.c:552-558 | the first established connection with these ends |
| `Tcpip.Stack.MatchInOctets` | src/tcpip.c:555-558 | the octets of a frame that decide whether it is for a connection |
| `Tcpip.Stack.ArrivalInOctets` | src/tcpip.c:546-550 | number, data behind the options, and end mark, as octets of a frame |
| `Tcpip.Stack.HandleTcpActive` | src/tcpip.c:538-617 | a segment changes its own connection alone; a bare ACK for nobody is ignored, anything else for nobody is answered by the right reset |
| `Tcpip.Stack.ResetLayout` | src/tcpip.c:444-461 | a reset has addresses, ports and numbers exchanged |
| `Tcpip.Stack.ResetChecks` | src/tcpip.c:462 | a reset passes the check of its receiver |
| `Tcpip.Stack.ResetRefuses` | src/tcpip.c:436-462 | every octet of a reset but the checksum: addresses and ports exchanged, the expected number, the number behind a SYN or the same number acknowledged, RST and ACK |
| `Tcpip.Stack.SendReset` | src/tcpip.c:436-465 | the frame is rewritten in place into its reset, which goes back to where it came from, port by port, and acknowledges its number, behind a SYN the next one |
| `Tcpip.Stack.ChooseSlot` | src/tcpip.c:472-486 | the first closed slot, otherwise the first of greatest age mod 2^32, for any table and any timestamps |
| `Tcpip.Stack.ClosedSlotFirst` | src/tcpip.c:474-478 | if any slot is closed, the chosen one is the first closed one |
| `Tcpip.Stack.OldestSlot` | src/tcpip.c:480-485 | otherwise the most time has passed since its last event, and strictly more than for any slot before it, whatever wraps there are |
| `Tcpip.Stack.EarliestSlot` | src/tcpip.c:480-485 | while the clock has not wrapped, its last event is the earliest of all |
| `Tcpip.Stack.Recycle` | src/tcpip.c:488-495 | an open connection is closed first; the slot is then empty |
| `Tcpip.Stack.AllocateConnection` | src/tcpip.c:467-497 | that slot, emptied, after a farewell to a peer that still uses it; every other slot is unchanged |
| `Tcpip.Stack.Establish` | src/tcpip.c:511-526 | fields from the SYN; the reply acknowledges it and takes one sequence number |
| `Tcpip.Stack.PostedToPeer` | src/tcpip.c:371-383 | what a connection sends has the addresses and ports of its SYN exchanged |
| `Tcpip.Stack.AnswerSyn` | src/tcpip.c:524-526 | the reply with its MSS option goes out and takes one sequence number |
| `Tcpip.Stack.FindListener` | src/tcpip.c:507-509 | the first listener for the port |
| `Tcpip.Stack.HandleTcpSyn` | src/tcpip.c:499-536 | a connection for a listening port, the right reset for any other; a null callback is called if and only if the port is 0 and a listener slot is free, and otherwise the application's is, which may close the connection at once |
| `Tcpip.Stack.SynToPortZero` | src/tcpip.c:507-509 | with the four services registered, a SYN to port 0 is such a SYN: it finds the fifth slot, which is free |
| `Tcpip.Stack.PollConnection` | src/tcpip.c:624-641 | for any application: tcpip_send(conn, NULL) is reached if and only if data was unacknowledged before the callback and the callback sends nothing; otherwise the connection is closed if and only if the limit is passed or the application closes it, and an open one has acknowledged everything |
| `TcpSession.Trim` | src/tcpip.c:678-684 | bytes behind the IPv6 packet are cut off |
| `TcpSession.PaddingCutOff` | src/tcpip.c:678-684 | whatever the link layer has put behind an IPv6 packet is cut off, and nothing else |
| `TcpSession.AlongInOctets` | src/tcpip.c:498-558 | which octets make a frame one of TCP, a SYN or a segment of a connection's peer |
| `TcpSession.TakePacket` | src/tcpip.c:705-737 | the next frame in order, if there is one, without its padding |
| `TcpSession.ReplayTracks` | src/tcpip.c:546-605 | for segments with parts of one stream, none missed, what is delivered is a prefix of that stream |
| `TcpSession.GivenIsPrefix` | src/tcpip.c:546-605 | so it is in every accounted-for state, whether the connection was closed in between or not |
| `TcpSession.WithinWindow` | src/tcpip.c:566-579 | while numbers do not wrap, a frame of the peer is not too old if and only if it starts less than a window behind the end of every earlier one |
| `TcpSession.OfferedIsGenuine` | src/tcpip.c:546-605 | if the peer's frames behind its SYN are parts of one stream, none of them too old, then so is what any connection hears of them |
| `TcpSession.FramesGivePrefix` | src/tcpip.c:546-605 | from the frames of the peer alone: if they offer one stream, what the application is given is a prefix of it, whatever was lost, repeated or reordered |
| `TcpSession.AccountedHears` | src/tcpip.c:554-604 | a segment for an open connection keeps it accounted for by the frames received and sent; nothing that it has sent or delivered is forgotten |
| `TcpSession.SegmentPacket` | src/tcpip.c:552-617 | a segment is heard by the first connection of the table that it matches, and every other is left alone |
| `TcpSession.SynPacket` | src/tcpip.c:499-536 | a SYN for a listening port gives the chosen slot a history that begins with this SYN and has heard nothing; any other is reset; the others stay accounted for |
| `TcpSession.HandlePacket` | src/tcpip.c:671-703 | the dispatch: a SYN takes a slot or is reset, a segment is heard by the first connection that it matches, anything but TCP is dropped and its buffer freed; every connection stays accounted for, and a null callback is called exactly for a SYN to port 0 with a free listener slot |
| `TcpSession.HandleFrame` | src/tcpip.c:705-737 | while the link is up, the next frame is taken and has this effect; while it is down nothing happens |
| `TcpSession.PollAll` | src/tcpip.c:620-643 | so does a poll of all connections, whatever their applications do; one that is not stopped leaves every open connection with everything acknowledged and within the limit |
| `TcpSession.RunTable` | src/tcpip.c:705-741 | over any schedule of frames, polls and device events, for every connection of the table, what it has delivered is what the segments in its peer's frames behind its SYN make of it, and what it has sent is among the frames given to the network; a slot forgets nothing unless a later SYN takes it, and no work is left waiting |
| `TcpSession.EmittedArrives` | src/tcpip.c:371-387 | a segment that one such device emits is received with its number, data and end mark |
| `TcpSession.MirrorComesAlong` | src/tcpip.c:371-558 | what the device at the other end of a route emits is a segment of the peer on this route, and its SYN opens it |
| `TcpSession.SentBack` | src/tcpip.c:371-383 | everything that a connection has ever sent went to the hardware address, address and port that its SYN came from, from ours and the port that it was for |
| `TcpSession.SentIsGenuine` | src/tcpip.c:382-391 | what one such device sends is a genuine part of the stream of its payloads |
| `TcpSession.BetweenDevices` | src/tcpip.c:331-605 | if the device at the other end of the route is another such device, the application is given a prefix of what the application there has sent, as long as no frame is too old |
| `Diagnostics.EchoCallback` | src/tcpip_diagnostics.c:5-11 | sends the payload back, or does nothing without one |
| `Diagnostics.EchoSegment` | src/tcpip_diagnostics.c:5-11 | of a received frame, options or not, data that continues the stream comes back in the next frame, with right lengths and an acknowledgement that covers it; what was sent stays equal to what was delivered, and the buffer is given up |
| `Diagnostics.EchoPoll` | src/tcpip_diagnostics.c:5-11 | an echo connection never reaches the call with a null pointer, is closed if and only if the limit is passed, and keeps no buffer |
| `Diagnostics.EchoAll` | src/tcpip_diagnostics.c:5-11 | over any schedule, an echo connection has sent exactly the bytes that its peer's frames delivered, in frames given to the network; it forgets nothing, keeps its SYN and leaves no buffer held |
| `Diagnostics.DiscardCallback` | src/tcpip_diagnostics.c:13-19 | the payload's buffer returns to the free list and nothing is sent |
| `Diagnostics.DiscardThenPoll` | src/tcpip_diagnostics.c:13-19 | after a frame with the expected data on a discard connection, the next poll reaches tcpip_send(conn, NULL) |
| `Diagnostics.Generator.Next` | src/tcpip_diagnostics.c:48-64 | one turn yields the next byte of the closed form, from any point of the stream |
| `Diagnostics.Generator.FillUp` | src/tcpip_diagnostics.c:45-65 | the loop fills the payload to its limit with the next bytes of the stream |
| `Diagnostics.StreamConcat` | src/tcpip_diagnostics.c:46-65 | pieces of the stream join up wherever it is cut |
| `Diagnostics.StreamAt` | src/tcpip_diagnostics.c:44-65 | byte k is 32 + (1 + n + c) mod 95 in line n = k/74, column c = k mod 74 < 72, then CR, then LF (RFC 864) |
| `Diagnostics.PatternOfLines` | src/tcpip_diagnostics.c:44-65 | the pattern of RFC 864 in numbers: the first line is 33 to 104, each character and each line is one further on, 126 followed by 32 |
| `Diagnostics.Generator.Callback` | src/tcpip_diagnostics.c:21-70 | sends the next 694 bytes if and only if the connection is open, the line has room and, the payload released, a buffer is free; in that case on a closed connection the assertion in tcpip_send fails; otherwise no buffer is kept |
| `Diagnostics.Generator.Close` | src/tcpip.c:427-434 | tcpip_close with the callback that it makes: in a device that conserves work, as every reachable one does, the assertion fails if and only if, behind the FIN, fewer than two frames are under way and a full buffer is free |
| `Diagnostics.Generator.Finish` | src/tcpip.c:597-601 | the same at the end of the peer's stream, which takes one number |
| `Diagnostics.Generator.Segment` | src/tcpip.c:554-604 | the receive state follows TcpStream.OnSegment and the acknowledgement is noted; data that is taken is answered by 694 bytes exactly when the line has room; in a device that conserves work, the assertion fails exactly when the segment closes the connection and the line that it leaves behind the FIN has room |
| `Diagnostics.Generator.Poll` | src/tcpip.c:624-641 | a poll adds 694 bytes exactly when the line has room and a buffer is free; null pointer and limit are reached exactly as in any poll, and the assertion fails exactly when the connection is closed and the line behind the FIN has room |
| `Diagnostics.ServeAll` | src/tcpip_diagnostics.c:21-70 | over any schedule of frames, polls and device events, what a fresh generator's connection has sent is the stream of RFC 864 from its first byte, in frames given to the network, and no buffer stays held until the assertion fails |
| `Diagnostics.CloseWhileIdle` | src/tcpip_diagnostics.c:27-67 | closing a connection to the generator while the line is idle and two large buffers are free stops at the assertion |
| `Chunked.DecodeChunk` | src/http.c:205-208 | a reader takes off one chunk with an eight-digit size at a time |
| `Chunked.DecodeInvertsEncode` | src/http.c:200-224 | decoding (RFC 9112, section 7.1) any series of non-empty chunks and the last chunk yields that series, whatever follows |
| `Http.AllocateChunk` | src/http.c:182-193 | a slice within a slice, with room for the chunk frame around it, NULL exactly when no buffer fits |
| `Http.ReleaseChunk` | src/http.c:195-198 | the buffer behind both slices returns to its place in the free list |
| `Http.WriteFrame` | src/http.c:205-208 | the stores around the body leave exactly one chunk, the NUL of snprintf overwritten |
| `Http.SendChunk` | src/http.c:200-210 | the segment that goes out carries exactly the chunk of the slice's contents |
| `Http.SendLastChunk` | src/http.c:212-228 | sends the last chunk and ends the response, or closes the connection when there is no buffer |
| `Http.StartResponse` | src/http.c:138-179 | the text goes out in a buffer with the given room, and a finished response clears the handler; without a buffer the connection is closed |
| `HttpIndex.PiecesMakeUp` | src/http_index.c:26-39 | the pieces make up the image from its beginning; none is empty or larger than a chunk |
| `HttpIndex.TurnsInOctets` | src/http_index.c:26-46 | what the turns send, octet by octet: 48 chunks of 682 octets of the image, one of the last 32, and the last chunk |
| `HttpIndex.BodyIsImage` | src/http_index.c:14-49 | a client that decodes the complete body gets 49 chunks that make up the image |
| `HttpIndex.CompleteBody` | src/http_index.c:14-49 | what a client decodes from the bytes sent since the header is all pieces, and the rest belongs to later responses |
| `HttpIndex.FirmwarePoll` | src/http_index.c:21-48 | a turn is skipped exactly when two frames are pending or no buffer fits; otherwise the next piece goes out, or behind the last one the last chunk, which never lacks a buffer |
| `HttpIndex.MaySendMeans` | src/http_index.c:21-24 | at most one frame under way and a free buffer of at least 768 bytes |
| `HttpIndex.FirmwareChunk` | src/http_index.c:23-47 | with room on the line, the turn is skipped exactly when no buffer fits |
| `HttpIndex.SendPiece` | src/http_index.c:37-40 | the piece goes out as one chunk and the position moves behind it |
| `HttpIndex.FinishBody` | src/http_index.c:44-45 | the chunk's buffer is given back, so that the last chunk always finds one |
| `HttpIndex.FirmwareRequest` | src/http_index.c:16-20 | starts a response and a download at position zero if a buffer of 330 bytes is free, and closes the connection otherwise |
| `HttpServer.ParsePayload` | src/http.c:31-91 | the parser on a payload of the network stack, which stays a payload |
| `HttpServer.Dispatch` | src/http.c:13-29 | the firmware URL begins a download if there is a buffer for the header, every other one a finished response |
| `HttpServer.NewRequest` | src/http.c:31-92 | the status is false exactly for an invalid request; an unknown method is answered |
| `HttpServer.WordedRequestAsks` | src/http.c:31-92 | a request worded for a URL, anywhere in memory, is a request for it |
| `HttpServer.PayloadAsks` | src/http.c:31-92 | so is a payload that holds such a request |
| `HttpServer.PlainRequest` | src/http.c:13-92 | the octets of GET /api/firmware.bin HTTP/1.1 and an empty line are a request for the firmware |
| `HttpServer.PostedRequest` | src/http.c:13-92 | so are those of a POST request with a query, a header line and a body |
| `HttpServer.HandleRequest` | src/http.c:100-111 | the payload is parsed and released, and an invalid request closes the connection |
| `HttpServer.HandleConnection` | src/http.c:94-118 | on any connection: a payload is released if and only if the connection is open and no response is in progress; an invalid request closes it, one for the firmware begins a download; a response in progress goes on exactly when the line has room and a buffer is free |
| `HttpServer.Segment` | src/tcpip.c:554-604 | a frame of the client, on any open connection: the receive state follows TcpStream.OnSegment unless the connection is closed, a well-worded request for the firmware begins a download at position zero if a buffer of 330 bytes is free and closes the connection otherwise, a download in progress advances exactly when data is taken and it may send, and the buffer is lost exactly when data arrives during a response |
| `HttpServer.Poll` | src/tcpip.c:624-641 | on any connection: a poll advances a download exactly when the line has room and a buffer is free; the null pointer and the limit are reached exactly as in any poll |
| `HttpServer.TakeStep` | src/http_index.c:14-49 | the same for each step of a session: a frame adds at most one turn and its acknowledgement is noted, a poll adds one exactly when it may, anything else adds none |
| `HttpServer.Download` | src/http_index.c:14-49 | over any schedule of frames (acknowledgements, data, FIN), polls and device events, the body sent is the encoding of the pieces before the current position, in frames given to the network; a complete one decodes to all 49 |
| `HttpServer.RequestThenDownload` | src/http.c:94-118 | from the frame with the request: a download begins if and only if a buffer of 330 bytes is free, and then goes on over any schedule as stated; otherwise the connection is closed |
| `HttpRequest.FindBlankLine` | src/http.c:78-84 | hopping between carriage returns finds the first CRLFCRLF and misses none |
| `HttpRequest.SkipSpacesAt` | src/http.c:38 | the first byte that is not a space |
| `HttpRequest.FindWordEnd` | src/http.c:58 | the first space, question mark or end behind a position |
| `HttpRequest.WhiteSpace` | src/http.c:38-58 | which bytes are white space and which end a URL or a query |
| `HttpRequest.UnknownMethodExactly` | src/http.c:38-53 | the method is unknown if and only if neither GET nor POST, with its space, is the first thing behind any white space |
| `HttpRequest.InvalidExactly` | src/http.c:55-84 | a request is invalid if and only if its URL or its query does not end inside the payload or no blank line follows; otherwise URL and query are where they begin |
| `HttpRequest.HandleNewRequest` | src/http.c:31-91 | outcome and memory, NULs included, are those of the pure parser |
| `HttpRequest.ParseWithin` | src/http.c:65-75 | the parser writes nothing outside the payload |
| `HttpRequest.HeadersFound` | src/http.c:78-87 | the search ends behind the headers, and the body is all that follows |
| `HttpRequest.BodyLengthIsExact` | src/http.c:78-87 | the length of the body reaches to the end of the payload if and only if a blank line lies inside the payload; otherwise it wraps |
| `HttpRequest.StraddlingBlankLine` | src/http.c:78-87 | a payload of eight bytes, with two stale bytes behind it, that gives a body of 4294967294 bytes |
| `HttpRequest.RequestRecovered` | src/http.c:31-92 | for every GET or POST rendered with URL, optional query, headers and body, a client's condition on them in byte values, the parser recovers method, URL, query and body |

## Left out

- RNDIS: its command channel returns at once (`src/usbnet.c:456`), so it never connects and its transmit path is never
  entered.
- A second `usbnet_set_config`: it clears the connected flags but not the state of the two directions; one configured
  session is modelled.
- USB descriptors, endpoint registers, control requests, the contents of notifications, board setup, timers, debug
  output and the C library.
- Interrupts: the callbacks and the calls of the main loop are steps that do not interrupt one another, which is what
  CM_ATOMIC_CONTEXT and the polled driver of `src/main.c` provide.
- Malformed packets: the data offset of a segment is assumed to lie behind the TCP header and inside the frame, as
  `data_len` is a subtraction without a check (`src/tcpip.c:550`).
- ICMPv6 messages and advertisements: their fields are constants; their checksum is TcpWire.StoreChecksum at offset 2.
- TcpSession.HandlePacket: drops ICMPv6 messages as it drops any packet without TCP.
- Registration of listeners and of URL handlers; the two handlers and their URLs are fixed (`src/http_index.c:51-58`).
- Tcpip.Stack.Callback: an application is any finite series of releases, replies, sends and closes, and sends nothing on
  a connection that is closed already; of the four services only the character generator does, and has its own model.
- Tcpip.Stack.Close: leaves out the callback at the end of tcpip_close, on the connection that is closed by then. Echo,
  discard and HTTP do nothing in it, and Diagnostics.Generator.Close includes it.
- Uniqueness of connections: handle_tcp_syn does not look for an existing connection of the same peer. A segment belongs
  to the first connection that it matches.
- Diagnostics.ServeAll: one connection to the generator, whose counters are shared by all; a second one would take bytes
  out of the stream of the first.
- Diagnostics.EchoAll, HttpServer.Download: frames for other connections are dropped, and the slot is not taken by
  another SYN; TcpSession.RunTable covers both, for any applications.
- Tcpip.Stack.SendCtrl: flags are below 0x1000, and a segment with SYN is always sent in a packet of the caller's, as its
  only caller does.
- HttpServer.Dispatch: the text of a response is a parameter of at most 256 bytes, as buffer_printf depends on vsnprintf;
  which text it is remains open.
- HttpServer.ParsePayload: what lies behind the buffer in memory is a parameter that goes on for at least four bytes and
  ends in one that is not a space, because memcmp and isspace read beyond the end of the payload.
- Pointer representation: the ptr field of a slice is four zero bytes; addresses of functions are numbers, 0 for none.
