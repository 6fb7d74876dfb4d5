/** The segments of a connection among the frames that were given to the network. */
module TcpLog {
  import opened Bytes
  import opened TcpWire
  import opened TcpStream

  /** Everything in the headers of a connection's segments that stays the same. */
  datatype Route = Route(peerMac: seq<byte>, localMac: seq<byte>, localAddr: seq<byte>, peerAddr: seq<byte>,
                         localPort: uint16, peerPort: uint16)
  {
    ghost predicate Valid() {
      |peerMac| == 6 && |localMac| == 6 && |localAddr| == 16 && |peerAddr| == 16
    }
  }

  /** A SYN without data announces the largest segment that fits a buffer. */
  function Options(control: uint16, payloadLen: nat): seq<byte> {
    if HasSyn(control) && payloadLen == 0 then [2, 4] + Put16(768 - HEADER_SIZE) else []
  }

  /** The segment behind an entry of the log. */
  function SegmentAt(r: Route, x: Sent): TcpWire.Segment {
    Segment.Segment(r.peerMac, r.localMac, r.localAddr, r.peerAddr, r.localPort, r.peerPort, x.sequence, x.ack,
                    x.control, Options(x.control, |x.payload|), x.payload)
  }

  /** The frame behind an entry, octet by octet but for the checksum: it goes from here to the peer of the route, port
      by port, with the numbers and the control bits of the entry, and announces a window of 16384. A SYN without data
      has the option for segments of at most 694 octets (RFC 9293, section 3.7.1). */
  lemma OnTheWire(r: Route, x: Sent)
    requires SegmentAt(r, x).Valid()
    ensures var f := Emitted(SegmentAt(r, x));
            var options := if x.control / 2 % 2 == 1 && x.payload == [] then [2, 4, 2, 182] else [];
            && |f| == 74 + |options| + |x.payload|
            && f[0..6] == r.peerMac && f[6..12] == r.localMac && f[12..18] == [0x86, 0xDD, 0x60, 0, 0, 0]
            && f[18..20] == Put16(|f| - 54) && f[20] == 6 && f[21] == 255
            && f[22..38] == r.localAddr && f[38..54] == r.peerAddr
            && f[54..56] == Put16(r.localPort) && f[56..58] == Put16(r.peerPort)
            && f[58..62] == Put32(x.sequence) && f[62..66] == Put32(x.ack)
            && f[66] == 16 * (5 + |options| / 4) + x.control / 256 && f[67] == x.control % 256
            && f[68..70] == [0x40, 0] && f[72..74] == [0, 0]
            && f[74..74 + |options|] == options && f[74 + |options|..] == x.payload
  {
    hide Emitted, Put32;
    EmittedOctets(SegmentAt(r, x));
    assert Put16(694) == [2, 182];
  }

  /** The entry is what the frame with its number says. */
  ghost predicate IsFrame(r: Route, x: Sent, frames: seq<seq<byte>>) {
    x.at < |frames| && SegmentAt(r, x).Valid() && frames[x.at] == Emitted(SegmentAt(r, x))
  }

  /** Every entry of the log is one of the frames, in the same order. */
  ghost predicate Recorded(r: Route, log: seq<Sent>, frames: seq<seq<byte>>) {
    && (forall i :: 0 <= i < |log| ==> IsFrame(r, log[i], frames))
    && (forall i, j :: 0 <= i < j < |log| ==> log[i].at < log[j].at)
  }

  /** Log and frames have grown together: every new frame is the segment of a new entry, and the other way round. */
  ghost predicate Grown(r: Route, log: seq<Sent>, frames: seq<seq<byte>>, log': seq<Sent>, frames': seq<seq<byte>>) {
    && log <= log' && frames <= frames' && |frames'| - |frames| == |log'| - |log|
    && (forall i :: |log| <= i < |log'| ==> log'[i].at == |frames| + (i - |log|) && IsFrame(r, log'[i], frames'))
  }

  lemma NothingRecorded(r: Route, frames: seq<seq<byte>>)
    ensures Recorded(r, [], frames)
  {
  }

  lemma GrownNot(r: Route, log: seq<Sent>, frames: seq<seq<byte>>)
    ensures Grown(r, log, frames, log, frames)
  {
  }

  lemma GrownByOne(r: Route, log: seq<Sent>, frames: seq<seq<byte>>, x: Sent)
    requires SegmentAt(r, x).Valid() && x.at == |frames|
    ensures Grown(r, log, frames, log + [x], frames + [Emitted(SegmentAt(r, x))])
  {
    hide Emitted, SegmentAt;
  }

  lemma IsFrameStays(r: Route, x: Sent, frames: seq<seq<byte>>, frames': seq<seq<byte>>)
    requires IsFrame(r, x, frames) && frames <= frames'
    ensures IsFrame(r, x, frames')
  {
  }

  lemma GrownTwice(r: Route, log: seq<Sent>, frames: seq<seq<byte>>, log1: seq<Sent>, frames1: seq<seq<byte>>,
                   log2: seq<Sent>, frames2: seq<seq<byte>>)
    requires Grown(r, log, frames, log1, frames1) && Grown(r, log1, frames1, log2, frames2)
    ensures Grown(r, log, frames, log2, frames2) && log <= log1 <= log2
  {
    hide IsFrame;
    forall i | |log| <= i < |log1|
      ensures log2[i].at == |frames| + (i - |log|) && IsFrame(r, log2[i], frames2)
    {
      assert log2[i] == log1[i];
      IsFrameStays(r, log1[i], frames1, frames2);
    }
  }

  /** The log stays a record of the frames while both grow together, */
  lemma RecordedGrown(r: Route, log: seq<Sent>, frames: seq<seq<byte>>, log': seq<Sent>, frames': seq<seq<byte>>)
    requires Recorded(r, log, frames) && Grown(r, log, frames, log', frames')
    ensures Recorded(r, log', frames')
  {
    RecordedStays(r, log, frames, frames');
    assert forall i :: 0 <= i < |log| ==> log'[i] == log[i];
    assert forall i :: 0 <= i < |log'| ==> IsFrame(r, log'[i], frames');
  }

  /** and while other frames go out. */
  lemma RecordedStays(r: Route, log: seq<Sent>, frames: seq<seq<byte>>, frames': seq<seq<byte>>)
    requires Recorded(r, log, frames) && frames <= frames'
    ensures Recorded(r, log, frames')
  {
    forall i | 0 <= i < |log|
      ensures IsFrame(r, log[i], frames')
    {
      IsFrameStays(r, log[i], frames, frames');
    }
  }
}
