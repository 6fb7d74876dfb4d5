/** The connection table over a whole session: from the packets that the USB host writes to the streams that the
    applications are given, and back to the frames that the device sends (tcpip_poll). */
module TcpSession {
  import opened Bytes
  import opened Framing
  import opened Buffers
  import opened UsbNetwork
  import opened TcpWire
  import opened TcpStream
  import opened TcpLog
  import opened Tcpip
  import S = Session

  // ---------- frames ----------

  /** handle_ipv6 cuts off what the link layer has added behind the packet. */
  function Trimmed(f: Frame): Frame {
    if |f| >= PAYLOAD_AT && |f| > PAYLOAD_AT + Get16(f, 18) then f[..PAYLOAD_AT + Get16(f, 18)] else f
  }

  /** A TCP segment in an IPv6 packet, with room for its headers. */
  predicate IsTcp(f: Frame) {
    |f| >= HEADER_SIZE && Get16(f, 12) == 0x86DD && f[20] == 6
  }

  /** One with sound headers and without SYN. */
  predicate IsSegment(f: Frame) {
    IsTcp(f) && Stack.WellFormed(f) && !HasSyn(Get16(f, 66))
  }

  /** The frame comes from the peer of this route. */
  predicate Along(r: Route, f: Frame) {
    IsSegment(f) && BetweenEnds(r, f)
  }

  /** A SYN of this peer, to which the byte with this number is the next one. */
  predicate OpenedBy(r: Route, start: uint32, f: Frame) {
    && IsTcp(f) && HasSyn(Get16(f, 66)) && BetweenEnds(r, f) && f[6..12] == r.peerMac
    && start == Plus(Get32(f, 58), 1)
  }

  predicate BetweenEnds(r: Route, f: Frame)
    requires |f| >= HEADER_SIZE
  {
    Get16(f, 56) == r.localPort && Get16(f, 54) == r.peerPort && f[22..38] == r.peerAddr
  }

  /** The same in octets: IPv6 (0x86DD) with TCP (6) in it, from the port and the address of the peer to ours, a data
      offset behind the headers and inside the frame; SYN tells the one from the other. */
  lemma AlongInOctets(r: Route, f: Frame, start: uint32)
    ensures IsTcp(f) <==> |f| >= 74 && f[12..14] == [0x86, 0xDD] && f[20] == 6
    ensures Along(r, f) <==>
            && IsTcp(f) && f[67] / 2 % 2 == 0 && 74 <= 54 + f[66] / 16 * 4 <= |f|
            && f[22..38] == r.peerAddr && f[54..56] == Put16(r.peerPort) && f[56..58] == Put16(r.localPort)
    ensures OpenedBy(r, start, f) <==>
            && IsTcp(f) && f[67] / 2 % 2 == 1 && f[6..12] == r.peerMac
            && f[22..38] == r.peerAddr && f[54..56] == Put16(r.peerPort) && f[56..58] == Put16(r.localPort)
            && start == (Get32(f, 58) + 1) % 0x1_0000_0000
  {
    hide Put16, Get32, Put32;
    ReadInOrder(f, 54);
    ReadInOrder(f, 56);
    TcpInOctets(f);
    if |f| >= 74 {
      ControlOctet(f);
    }
  }

  lemma TcpInOctets(f: Frame)
    ensures IsTcp(f) <==> |f| >= 74 && f[12..14] == [0x86, 0xDD] && f[20] == 6
  {
  }

  /** Whatever the link layer has put behind an IPv6 packet is cut off, and nothing else. */
  lemma PaddingCutOff(f: Frame, padding: seq<byte>)
    ensures |f| >= 54 && |f| == 54 + 0x100 * f[18] as int + f[19] ==> Trimmed(f + padding) == f
    ensures |f| < 54 || |f| <= 54 + 0x100 * f[18] as int + f[19] ==> Trimmed(f) == f
  {
  }

  /** The frames handed to the main loop so far. */
  ghost function TakenFrames(u: UsbNet): seq<Frame>
    reads u
  {
    var fs := Deframe(u.packetsIn).frames;
    if u.taken <= |fs| then fs[..u.taken] else fs
  }

  // ---------- what a connection has heard ----------

  /** A segment, and the number of the frame that carried it. */
  datatype Heard = Heard(at: nat, segment: Arrival)

  /** What has come for a slot of the table: nothing so far, or a SYN in the frame with number `syn` and then segments;
      `start` is the number of the first byte behind the SYN. */
  datatype History = Unused | History(syn: nat, start: uint32, heard: seq<Heard>)

  function Replay(h: History): RxState
    requires h.History?
    decreases |h.heard|
  {
    if h.heard == [] then RxState(h.start, true, [])
    else OnSegment(Replay(Before(h)), h.heard[|h.heard| - 1].segment)
  }

  function Before(h: History): History
    requires h.History? && h.heard != []
  {
    FirstHeard(h, |h.heard| - 1)
  }

  function FirstHeard(h: History, n: nat): History
    requires h.History? && n <= |h.heard|
  {
    h.(heard := h.heard[..n])
  }

  function Hears(h: History, x: Heard): History
    requires h.History?
  {
    h.(heard := h.heard + [x])
  }

  /** The state is what the history makes of it, except that the application or the device may have closed it. */
  ghost predicate Explains(h: History, rx: RxState)
    requires h.History?
  {
    rx == Replay(h) || rx == Replay(h).(open := false)
  }

  /** The history consists of frames from the peer, in the order in which they came, the SYN first. */
  ghost predicate FromFrames(r: Route, h: History, frames: seq<Frame>)
    requires h.History?
  {
    && h.syn < |frames| && OpenedBy(r, h.start, Trimmed(frames[h.syn]))
    && (forall i :: 0 <= i < |h.heard| ==> h.syn < h.heard[i].at && Brings(r, h.heard[i], frames))
    && (forall i, j :: 0 <= i < j < |h.heard| ==> h.heard[i].at < h.heard[j].at)
  }

  ghost predicate Brings(r: Route, x: Heard, frames: seq<Frame>) {
    && x.at < |frames| && Along(r, Trimmed(frames[x.at]))
    && x.segment == Stack.ArrivalOf(Trimmed(frames[x.at]))
  }

  /** What the rest of the system sees of a connection. */
  datatype View = View(route: Route, rx: RxState, log: seq<Sent>)

  ghost function ViewOf(net: Stack, conn: Conn): (v: View)
    reads conn
  {
    View(net.RouteOf(conn), conn.rx, conn.log)
  }

  /** Nothing is made up: all that a connection has delivered comes from frames of its peer, and all that it has sent
      is among the frames given to the network. */
  ghost predicate Accounted(v: View, h: History, frames: seq<Frame>, submitted: seq<Frame>) {
    && TcpLog.Recorded(v.route, v.log, submitted)
    && (if h.Unused? then v.rx == RxState(0, false, []) && v.log == []
        else Explains(h, v.rx) && FromFrames(v.route, h, frames))
  }

  /** The connection has gone on: nothing that it has sent or delivered is forgotten, and what it has heard since then
      are frames from number n on. */
  ghost predicate GoesOn(v: View, h: History, v': View, h': History, n: nat) {
    && v'.route == v.route && v.log <= v'.log && v.rx.delivered <= v'.rx.delivered && (v'.rx.open ==> v.rx.open)
    && (h.Unused? <==> h'.Unused?)
    && (h.History? ==>
          && h'.syn == h.syn && h'.start == h.start && h.heard <= h'.heard
          && forall i :: |h.heard| <= i < |h'.heard| ==> h'.heard[i].at >= n)
  }

  /** The connection has gone on, or its slot was given to a SYN among the frames from number n on. */
  ghost predicate Follows(v: View, h: History, v': View, h': History, n: nat) {
    GoesOn(v, h, v', h', n) || (h'.History? && h'.syn >= n)
  }

  lemma GoesNowhere(v: View, h: History, n: nat)
    ensures GoesOn(v, h, v, h, n)
  {
  }

  lemma GoesOnTwice(v: View, h: History, v1: View, h1: History, v2: View, h2: History, n: nat, m: nat)
    requires GoesOn(v, h, v1, h1, n) && GoesOn(v1, h1, v2, h2, m) && n <= m
    ensures GoesOn(v, h, v2, h2, n)
  {
    if h.History? {
      assert forall i :: 0 <= i < |h1.heard| ==> h2.heard[i] == h1.heard[i];
    }
  }

  lemma StillOpened(v: View, h: History, v': View, h': History, n: nat)
    ensures GoesOn(v, h, v', h', n) && h.History? ==> h'.History? && h'.syn == h.syn
  {
  }

  lemma FollowsTwice(v: View, h: History, v1: View, h1: History, v2: View, h2: History, n: nat, m: nat)
    requires Follows(v, h, v1, h1, n) && Follows(v1, h1, v2, h2, m) && n <= m
    ensures Follows(v, h, v2, h2, n)
  {
    hide GoesOn;
    if GoesOn(v, h, v1, h1, n) && GoesOn(v1, h1, v2, h2, m) {
      GoesOnTwice(v, h, v1, h1, v2, h2, n, m);
    } else {
      StillOpened(v1, h1, v2, h2, m);
    }
  }

  lemma AccountedStays(v: View, h: History, frames: seq<Frame>, submitted: seq<Frame>, frames': seq<Frame>,
                       submitted': seq<Frame>)
    requires Accounted(v, h, frames, submitted) && frames <= frames' && submitted <= submitted'
    ensures Accounted(v, h, frames', submitted')
  {
    hide Along, OpenedBy, Trimmed, Stack.ArrivalOf, TcpLog.Recorded, Replay;
    RecordedStays(v.route, v.log, submitted, submitted');
  }

  /** One more segment for an open connection. */
  lemma AccountedHears(v: View, v': View, h: History, x: Heard, frames: seq<Frame>, submitted: seq<Frame>,
                       submitted': seq<Frame>, script: seq<AppCall>)
    requires Accounted(v, h, frames, submitted) && v.rx.open
    requires v'.route == v.route && Grown(v.route, v.log, submitted, v'.log, submitted')
    requires v'.rx == OnSegment(v.rx, x.segment) || v'.rx == OnSegment(v.rx, x.segment).(open := false)
    requires x.at == |frames|
    ensures h.History? && GoesOn(v, h, v', Hears(h, x), |frames|)
    ensures forall f :: Brings(v.route, x, frames + [f]) ==> Accounted(v', Hears(h, x), frames + [f], submitted')
  {
    hide FromFrames, Brings, TcpLog.Recorded, Grown, OnSegment;
    RecordedGrown(v.route, v.log, submitted, v'.log, submitted');
    LogKept(v.route, v.log, submitted, v'.log, submitted');
    DeliversMore(v.rx, x.segment);
    assert Before(Hears(h, x)) == h;
    forall f | Brings(v.route, x, frames + [f])
      ensures FromFrames(v.route, Hears(h, x), frames + [f])
    {
      HeardFromFrames(v.route, h, x, frames, f);
    }
  }

  lemma DeliversMore(s: RxState, a: Arrival)
    ensures s.delivered <= OnSegment(s, a).delivered
  {
  }

  lemma HeardFromFrames(r: Route, h: History, x: Heard, frames: seq<Frame>, f: Frame)
    requires h.History? && FromFrames(r, h, frames) && x.at == |frames| && Brings(r, x, frames + [f])
    ensures FromFrames(r, Hears(h, x), frames + [f])
  {
    hide Along, OpenedBy, Trimmed, Stack.ArrivalOf;
    var heard := Hears(h, x).heard;
    forall i | 0 <= i < |heard|
      ensures h.syn < heard[i].at && Brings(r, heard[i], frames + [f])
    {
      assert i < |h.heard| ==> Brings(r, h.heard[i], frames);
    }
  }

  lemma LogKept(r: Route, log: seq<Sent>, frames: seq<Frame>, log': seq<Sent>, frames': seq<Frame>)
    requires Grown(r, log, frames, log', frames')
    ensures log <= log'
  {
  }

  /** A connection that hears nothing may be closed, and may send. */
  lemma AccountedChanges(v: View, v': View, h: History, frames: seq<Frame>, submitted: seq<Frame>,
                         submitted': seq<Frame>)
    requires Accounted(v, h, frames, submitted) && v'.route == v.route && (h.Unused? ==> v' == v)
    requires v'.rx == v.rx || v'.rx == v.rx.(open := false)
    requires Grown(v.route, v.log, submitted, v'.log, submitted')
    ensures Accounted(v', h, frames, submitted') && GoesOn(v, h, v', h, |frames|)
  {
    hide FromFrames, TcpLog.Recorded, Grown, Replay;
    RecordedGrown(v.route, v.log, submitted, v'.log, submitted');
    LogKept(v.route, v.log, submitted, v'.log, submitted');
  }

  /** A slot with a record of what was sent has been opened by a SYN. */
  lemma AccountedSome(v: View, h: History, frames: seq<Frame>, submitted: seq<Frame>)
    requires Accounted(v, h, frames, submitted) && v.log != []
    ensures h.History?
  {
  }

  // ---------- what the applications are given ----------

  /** Every segment heard carries a part of the stream, and none is so old that it is taken for new. */
  ghost predicate Genuine(h: History, stream: seq<byte>)
    requires h.History?
  {
    forall i :: 0 <= i < |h.heard| ==> PartOf(FirstHeard(h, i), h.heard[i].segment, stream)
  }

  ghost predicate PartOf(h: History, a: Arrival, stream: seq<byte>)
    requires h.History?
  {
    FromStream(a, stream, h.start) && (Replay(h).open ==> !Missed(Replay(h), a))
  }

  lemma GenuineBefore(h: History, stream: seq<byte>)
    requires h.History? && h.heard != [] && Genuine(h, stream)
    ensures Genuine(Before(h), stream) && PartOf(Before(h), h.heard[|h.heard| - 1].segment, stream)
  {
    hide PartOf;
    forall i | 0 <= i < |h.heard| - 1
      ensures FirstHeard(Before(h), i) == FirstHeard(h, i)
    {
      assert Before(h).heard[..i] == h.heard[..i];
    }
  }

  lemma {:induction false} ReplayTracks(h: History, stream: seq<byte>)
    requires h.History? && |stream| < MODULUS && Genuine(h, stream)
    ensures Tracks(Replay(h), stream, h.start)
    decreases |h.heard|
  {
    if h.heard != [] {
      hide Missed, OnSegment, FromStream, Genuine;
      GenuineBefore(h, stream);
      ReplayTracks(Before(h), stream);
      GenuineTracks(Replay(Before(h)), h.heard[|h.heard| - 1].segment, stream, h.start);
    }
  }

  /** Lost, repeated and reordered segments notwithstanding, an application is given a prefix of its peer's stream. */
  lemma GivenIsPrefix(v: View, h: History, frames: seq<Frame>, submitted: seq<Frame>, stream: seq<byte>)
    requires Accounted(v, h, frames, submitted) && h.History? && |stream| < MODULUS && Genuine(h, stream)
    ensures v.rx.delivered <= stream
    ensures Tracks(v.rx, stream, h.start)
  {
    ReplayTracks(h, stream);
  }

  // ---------- the same from the frames of the peer alone ----------

  /** Frame i comes from this peer and behind this SYN. */
  predicate Behind(r: Route, frames: seq<Frame>, syn: nat, i: nat) {
    syn < i < |frames| && Along(r, Trimmed(frames[i]))
  }

  function Brought(r: Route, frames: seq<Frame>, syn: nat, i: nat): Arrival
    requires Behind(r, frames, syn, i)
  {
    Stack.ArrivalOf(Trimmed(frames[i]))
  }

  /** Where in the stream a receiver may have got to: its beginning, or the end of an earlier frame. */
  ghost predicate Reachable(r: Route, frames: seq<Frame>, syn: nat, offs: seq<nat>, i: nat, e: nat)
    requires |offs| == |frames|
  {
    e == 0 || exists j: nat | j < i && Behind(r, frames, syn, j) :: e == offs[j] + |Brought(r, frames, syn, j).payload|
  }

  /** The frame carries the bytes of the stream from its position on, */
  ghost predicate Carries(r: Route, frames: seq<Frame>, syn: nat, start: uint32, stream: seq<byte>, offs: seq<nat>,
                          i: nat)
    requires Behind(r, frames, syn, i) && |offs| == |frames|
  {
    var a := Brought(r, frames, syn, i);
    var e := Carried(offs[i], |a.payload|, a.last);
    InStream(e, stream) && a == TcpStream.Segment(e, stream, start)
  }

  /** and is not so old that a receiver which has got to one of the positions within its reach takes it for new. */
  ghost predicate Offered(r: Route, frames: seq<Frame>, syn: nat, start: uint32, stream: seq<byte>, offs: seq<nat>,
                          i: nat)
    requires Behind(r, frames, syn, i) && |offs| == |frames|
  {
    && Carries(r, frames, syn, start, stream, offs, i)
    && forall at: nat :: Reachable(r, frames, syn, offs, i, at) ==>
         !Missed(RxState(Plus(start, at), true, []), Brought(r, frames, syn, i))
  }

  /** What the peer has sent behind its SYN is one stream, in pieces at the given positions, in any order and with any
      repetitions. */
  ghost predicate Offers(r: Route, frames: seq<Frame>, syn: nat, start: uint32, stream: seq<byte>, offs: seq<nat>) {
    && |offs| == |frames|
    && forall i: nat :: Behind(r, frames, syn, i) ==> Offered(r, frames, syn, start, stream, offs, i)
  }

  /** While the sequence numbers do not wrap, "not so old" means: less than a window behind every earlier frame. */
  lemma WithinWindow(r: Route, frames: seq<Frame>, syn: nat, start: uint32, stream: seq<byte>, offs: seq<nat>, i: nat)
    requires Behind(r, frames, syn, i) && |offs| == |frames| && start + |stream| + WINDOW_SIZE < MODULUS
    requires forall j: nat :: Behind(r, frames, syn, j) && j <= i ==> Carries(r, frames, syn, start, stream, offs, j)
    ensures Offered(r, frames, syn, start, stream, offs, i) <==>
            (Brought(r, frames, syn, i).payload == [] ||
             forall j: nat | j < i && Behind(r, frames, syn, j) ::
               offs[j] + |Brought(r, frames, syn, j).payload| < offs[i] + WINDOW_SIZE)
  {
    hide Trimmed, Along, Brought;
    var a := Brought(r, frames, syn, i);
    assert Carries(r, frames, syn, start, stream, offs, i);
    forall e: nat | e <= |stream|
      ensures Missed(RxState(Plus(start, e), true, []), a) <==> a.payload != [] && offs[i] + WINDOW_SIZE <= e
    {
    }
    forall e: nat | Reachable(r, frames, syn, offs, i, e)
      ensures e <= |stream|
    {
      assert forall j: nat :: Behind(r, frames, syn, j) && j <= i ==> Carries(r, frames, syn, start, stream, offs, j);
    }
    forall j: nat | j < i && Behind(r, frames, syn, j)
      ensures Reachable(r, frames, syn, offs, i, offs[j] + |Brought(r, frames, syn, j).payload|)
      ensures Carries(r, frames, syn, start, stream, offs, j)
    {
    }
  }

  /** An open connection has got to the beginning of the stream, or to the end of a frame that it has heard. */
  ghost predicate GotTo(h: History, frames: seq<Frame>, offs: seq<nat>)
    requires h.History? && |offs| == |frames|
  {
    Replay(h).open && Replay(h).delivered != [] ==>
      exists j :: 0 <= j < |h.heard| && EndsAt(h.heard[j], frames, offs, |Replay(h).delivered|)
  }

  ghost predicate EndsAt(x: Heard, frames: seq<Frame>, offs: seq<nat>, e: nat)
    requires |offs| == |frames|
  {
    x.at < |frames| && e == offs[x.at] + |x.segment.payload|
  }

  /** What a connection hears of such a peer is genuine. */
  lemma {:induction false} OfferedIsGenuine(r: Route, h: History, frames: seq<Frame>, stream: seq<byte>, offs: seq<nat>)
    requires h.History? && FromFrames(r, h, frames) && |stream| < MODULUS
    requires Offers(r, frames, h.syn, h.start, stream, offs)
    ensures Genuine(h, stream) && GotTo(h, frames, offs)
    decreases |h.heard|
  {
    if h.heard != [] {
      hide Trimmed, Along, OpenedBy, Stack.ArrivalOf, Offers, OnSegment, Genuine, GotTo;
      var b, x := Before(h), h.heard[|h.heard| - 1];
      assert forall i :: 0 <= i < |b.heard| ==> b.heard[i] == h.heard[i];
      OfferedIsGenuine(r, b, frames, stream, offs);
      ReplayTracks(b, stream);
      OneOffered(r, b, x, frames, stream, offs);
      GenuineAfter(h, stream);
      GotFurther(h, frames, offs);
    } else {
      assert Genuine(h, stream);
    }
  }

  lemma GotFurther(h: History, frames: seq<Frame>, offs: seq<nat>)
    requires h.History? && h.heard != [] && |offs| == |frames| && GotTo(Before(h), frames, offs)
    requires var x, s, t := h.heard[|h.heard| - 1], Replay(Before(h)), Replay(h);
             t.open ==> s.open && (t.delivered == s.delivered || EndsAt(x, frames, offs, |t.delivered|))
    ensures GotTo(h, frames, offs)
  {
    hide EndsAt, Replay;
    var b := Before(h);
    if Replay(h).open && Replay(h).delivered != [] && Replay(h).delivered == Replay(b).delivered {
      var j :| 0 <= j < |b.heard| && EndsAt(b.heard[j], frames, offs, |Replay(b).delivered|);
      assert h.heard[j] == b.heard[j];
    }
  }

  lemma GotReachable(r: Route, h: History, x: Heard, frames: seq<Frame>, offs: seq<nat>)
    requires h.History? && |offs| == |frames| && GotTo(h, frames, offs) && Replay(h).open
    requires forall i :: 0 <= i < |h.heard| ==>
               h.syn < h.heard[i].at < x.at && Brings(r, h.heard[i], frames)
    ensures Reachable(r, frames, h.syn, offs, x.at, |Replay(h).delivered|)
  {
    hide Trimmed, Along, Stack.ArrivalOf, Replay;
    if Replay(h).delivered != [] {
      var j :| 0 <= j < |h.heard| && EndsAt(h.heard[j], frames, offs, |Replay(h).delivered|);
      assert Behind(r, frames, h.syn, h.heard[j].at);
    }
  }

  lemma GenuineAfter(h: History, stream: seq<byte>)
    requires h.History? && h.heard != []
    requires Genuine(Before(h), stream) && PartOf(Before(h), h.heard[|h.heard| - 1].segment, stream)
    ensures Genuine(h, stream)
  {
    hide PartOf;
    forall i | 0 <= i < |h.heard| - 1
      ensures FirstHeard(Before(h), i) == FirstHeard(h, i)
    {
      assert Before(h).heard[..i] == h.heard[..i];
    }
  }

  lemma OneOffered(r: Route, b: History, x: Heard, frames: seq<Frame>, stream: seq<byte>, offs: seq<nat>)
    requires b.History? && Offers(r, frames, b.syn, b.start, stream, offs) && |stream| < MODULUS
    requires b.syn < x.at && Brings(r, x, frames)
    requires Tracks(Replay(b), stream, b.start) && GotTo(b, frames, offs)
    requires forall i :: 0 <= i < |b.heard| ==> b.syn < b.heard[i].at < x.at && Brings(r, b.heard[i], frames)
    ensures PartOf(b, x.segment, stream)
    ensures var s, t := Replay(b), OnSegment(Replay(b), x.segment);
            t.open ==> s.open && (t.delivered == s.delivered || EndsAt(x, frames, offs, |t.delivered|))
  {
    hide Trimmed, Along, Stack.ArrivalOf, Replay, GotTo, Reachable;
    assert Behind(r, frames, b.syn, x.at);
    assert Offered(r, frames, b.syn, b.start, stream, offs, x.at);
    if Replay(b).open {
      GotReachable(r, b, x, frames, offs);
      NextOffered(Replay(b), x.segment, offs[x.at], stream, b.start);
    }
  }

  lemma NextOffered(s: RxState, a: Arrival, off: nat, stream: seq<byte>, start: uint32)
    requires |stream| < MODULUS && s.open && Tracks(s, stream, start)
    requires InStream(Carried(off, |a.payload|, a.last), stream)
    requires a == TcpStream.Segment(Carried(off, |a.payload|, a.last), stream, start)
    requires !Missed(RxState(Plus(start, |s.delivered|), true, []), a)
    ensures FromStream(a, stream, start) && !Missed(s, a)
    ensures var t := OnSegment(s, a);
            t.open ==> t.delivered == s.delivered || |t.delivered| == off + |a.payload|
  {
    if a.payload != [] && !Resend(s, a) && !Ahead(s, a) {
      assert a.sequence == s.next;
      SamePosition(start, off, |s.delivered|);
    }
  }

  /** So what the applications are given depends on the frames of the peer alone: whatever the schedule was, it is a
      prefix of the stream that the peer offers. */
  lemma FramesGivePrefix(v: View, h: History, frames: seq<Frame>, submitted: seq<Frame>, stream: seq<byte>,
                         offs: seq<nat>)
    requires Accounted(v, h, frames, submitted) && |stream| < MODULUS
    requires h.History? ==> Offers(v.route, frames, h.syn, h.start, stream, offs)
    ensures v.rx.delivered <= stream
    ensures h.History? ==> Tracks(v.rx, stream, h.start)
  {
    if h.History? {
      OfferedIsGenuine(v.route, h, frames, stream, offs);
      ReplayTracks(h, stream);
    }
  }

  // ---------- steps of the main loop ----------

  lemma Apart(net: Stack, conn: Conn)
    ensures conn !in S.Objects(net.usb) && net.Footprint() <= S.Objects(net.usb)
    ensures {net.usb, net.usb.received} + net.usb.pool <= S.Objects(net.usb)
  {
  }

  lemma ApartAll(net: Stack)
    ensures forall i :: 0 <= i < |net.conns| ==> net.conns[i] !in S.Objects(net.usb)
    ensures net.Footprint() <= S.Objects(net.usb) && {net.usb, net.usb.received} + net.usb.pool <= S.Objects(net.usb)
  {
  }

  /** usbnet_receive, and the beginning of handle_ipv6. */
  method TakePacket(net: Stack) returns (packet: Buffer?, ghost frame: Frame)
    requires net.Ready()
    modifies S.Objects(net.usb)
    ensures net.Ready() && net.usb.submitted == old(net.usb.submitted)
    ensures packet == null <==> old(net.usb.received.nodes) == []
    ensures packet == null ==> TakenFrames(net.usb) == old(TakenFrames(net.usb))
    ensures packet != null ==> net.Owns(packet) && !old(net.Owns(packet)) && packet.dataSize <= packet.MaxSize()
    ensures packet != null ==> packet.data[..packet.dataSize] == Trimmed(frame)
    ensures packet != null ==> TakenFrames(net.usb) == old(TakenFrames(net.usb)) + [frame]
    ensures net.usb.Steady() && (old(net.usb.NoneHeld()) ==> net.usb.OnlyHeld(packet))
  {
    hide UsbNet.Lists, UsbNet.Sending, UsbNet.Receiving, Stack.Footprint, S.Objects, Deframe, Trimmed;
    ApartAll(net);
    net.usb.Apart();
    ghost var fs := Deframe(net.usb.packetsIn).frames;
    TakenWithin(net.usb);
    packet := net.usb.Receive();
    frame := [];
    if packet != null {
      frame := packet.data[..packet.dataSize];
      assert fs[..net.usb.taken] == fs[..net.usb.taken - 1] + [fs[net.usb.taken - 1]];
      Trim(net, packet);
    }
  }

  lemma TakenWithin(u: UsbNet)
    requires u.Valid()
    ensures u.taken <= |Deframe(u.packetsIn).frames|
  {
  }

  method Trim(net: Stack, packet: Buffer)
    requires net.Ready() && net.Owns(packet) && packet.dataSize <= packet.MaxSize()
    modifies packet`dataSize
    ensures net.Ready() && packet.dataSize <= packet.MaxSize()
    ensures packet.data[..packet.dataSize] == Trimmed(old(packet.data[..packet.dataSize]))
  {
    hide UsbNet.Lists, UsbNet.Sending, UsbNet.Receiving;
    net.usb.Apart();
    var f := packet.data[..packet.dataSize];
    if |f| >= PAYLOAD_AT && |f| > PAYLOAD_AT + Get16(f, 18) {
      packet.dataSize := PAYLOAD_AT + Get16(f, 18);
    }
    net.usb.HeldWritten(packet);
  }

  /** Anything that happens elsewhere in the device. */
  method Meanwhile(net: Stack, e: S.Event)
    requires net.Ready()
    modifies S.Objects(net.usb)
    ensures net.Ready() && old(net.usb.submitted) <= net.usb.submitted
    ensures old(TakenFrames(net.usb)) <= TakenFrames(net.usb)
    ensures S.Orderly(net.usb)
  {
    hide UsbNet.Valid, S.Objects, Deframe;
    ghost var was := net.usb.packetsIn;
    TakenWithin(net.usb);
    S.OneStep(net.usb, e);
    TakenWithin(net.usb);
    DeframeMonotone(was, net.usb.packetsIn[|was|..]);
    assert was + net.usb.packetsIn[|was|..] == net.usb.packetsIn;
  }

  /** The next frame for a connection; frames for others are dropped. */
  method NextSegment(net: Stack, conn: Conn) returns (packet: Buffer?, ghost frame: Frame)
    requires net.Ready()
    modifies S.Objects(net.usb)
    ensures net.Ready() && net.usb.submitted == old(net.usb.submitted)
    ensures TakenFrames(net.usb)
              == old(TakenFrames(net.usb)) + if old(net.usb.received.nodes) != [] then [frame] else []
    ensures packet == null <==>
              old(net.usb.received.nodes) == [] || !IsSegment(Trimmed(frame)) || !net.Matches(conn, Trimmed(frame))
    ensures packet != null ==>
              && net.Owns(packet) && packet.dataSize <= packet.MaxSize()
              && packet.data[..packet.dataSize] == Trimmed(frame) && IsSegment(Trimmed(frame))
              && net.Matches(conn, Trimmed(frame)) && TakenFrames(net.usb) == old(TakenFrames(net.usb)) + [frame]
    ensures net.usb.Steady() && (old(net.usb.NoneHeld()) ==> net.usb.OnlyHeld(packet))
  {
    hide UsbNet.Valid, Stack.Footprint, Deframe, S.Objects, Trimmed, Get16, Inserted;
    Apart(net, conn);
    packet, frame := TakePacket(net);
    if packet != null {
      var f := packet.data[..packet.dataSize];
      if !(IsSegment(f) && net.Matches(conn, f)) {
        net.Drop(packet);
        packet := null;
      }
    }
  }

  /** The frame taken last, after the link layer's padding is cut off. */
  ghost function LastFrame(u: UsbNet): Frame
    requires TakenFrames(u) != []
    reads u
  {
    Trimmed(TakenFrames(u)[|TakenFrames(u)| - 1])
  }

  /** One more frame was taken, which is a segment for this connection. */
  twostate predicate Reached(net: Stack, conn: Conn)
    reads net.usb, conn
  {
    |TakenFrames(net.usb)| == |old(TakenFrames(net.usb))| + 1 &&
    var f := LastFrame(net.usb);
    IsSegment(f) && old(net.Matches(conn, f))
  }

  /** That segment is noted: its acknowledgement, and its data by the rules for any received data, unless the connection
      is closed. */
  twostate predicate HearsLast(net: Stack, conn: Conn)
    requires TakenFrames(net.usb) != [] && IsSegment(LastFrame(net.usb))
    reads net.usb, conn
  {
    var f := LastFrame(net.usb);
    var s := OnSegment(old(conn.rx), Stack.ArrivalOf(f));
    conn.lastAckReceived == Get32(f, 62) && (conn.rx == s || conn.rx == s.(open := false))
  }

  /** While the link is up, one turn takes one frame, if there is any. */
  twostate predicate OneTaken(u: UsbNet)
    reads u, u.received
  {
    |TakenFrames(u)| == |old(TakenFrames(u))| + if old(u.connected && u.received.nodes != []) then 1 else 0
  }

  // ---------- the whole table ----------

  ghost function Views(net: Stack): (vs: seq<View>)
    reads net.conns
    ensures |vs| == |net.conns| && forall i :: 0 <= i < |vs| ==> vs[i] == ViewOf(net, net.conns[i])
  {
    seq(|net.conns|, i requires 0 <= i < |net.conns| reads net.conns => ViewOf(net, net.conns[i]))
  }

  ghost predicate AllAccounted(vs: seq<View>, hs: seq<History>, frames: seq<Frame>, submitted: seq<Frame>) {
    |vs| == |hs| && forall i :: 0 <= i < |vs| ==> Accounted(vs[i], hs[i], frames, submitted)
  }

  ghost predicate AllFollow(vs: seq<View>, hs: seq<History>, vs': seq<View>, hs': seq<History>, n: nat) {
    && |vs| == |hs| == |vs'| == |hs'|
    && forall i :: 0 <= i < |vs| ==> Follows(vs[i], hs[i], vs'[i], hs'[i], n)
  }

  lemma AllFollowTwice(vs: seq<View>, hs: seq<History>, vs1: seq<View>, hs1: seq<History>, vs2: seq<View>,
                       hs2: seq<History>, n: nat, m: nat)
    requires AllFollow(vs, hs, vs1, hs1, n) && AllFollow(vs1, hs1, vs2, hs2, m) && n <= m
    ensures AllFollow(vs, hs, vs2, hs2, n)
  {
    hide Follows;
    forall i | 0 <= i < |vs|
      ensures Follows(vs[i], hs[i], vs2[i], hs2[i], n)
    {
      FollowsTwice(vs[i], hs[i], vs1[i], hs1[i], vs2[i], hs2[i], n, m);
    }
  }

  lemma AllStay(vs: seq<View>, hs: seq<History>, frames: seq<Frame>, submitted: seq<Frame>, frames': seq<Frame>,
                submitted': seq<Frame>)
    requires AllAccounted(vs, hs, frames, submitted) && frames <= frames' && submitted <= submitted'
    ensures AllAccounted(vs, hs, frames', submitted') && AllFollow(vs, hs, vs, hs, |frames|)
  {
    hide Accounted;
    forall i | 0 <= i < |vs|
      ensures Accounted(vs[i], hs[i], frames', submitted')
    {
      AccountedStays(vs[i], hs[i], frames, submitted, frames', submitted');
    }
  }

  /** Connection k has changed and the others have not. */
  lemma OneChanges(vs: seq<View>, vs': seq<View>, k: nat, hs: seq<History>, h: History, frames: seq<Frame>,
                   submitted: seq<Frame>, frames': seq<Frame>, submitted': seq<Frame>)
    requires AllAccounted(vs, hs, frames, submitted) && frames <= frames' && submitted <= submitted'
    requires |vs'| == |vs| && k < |vs| && forall i :: 0 <= i < |vs| && i != k ==> vs'[i] == vs[i]
    requires Accounted(vs'[k], h, frames', submitted') && Follows(vs[k], hs[k], vs'[k], h, |frames|)
    ensures AllAccounted(vs', hs[k := h], frames', submitted')
    ensures AllFollow(vs, hs, vs', hs[k := h], |frames|)
  {
    hide Accounted, Follows;
    AllStay(vs, hs, frames, submitted, frames', submitted');
  }

  /** The rest of handle_ipv6, and handle_tcp: a SYN takes a slot or is reset, a segment is heard by the first
      connection that it matches, and anything else is dropped. */
  method HandlePacket(net: Stack, packet: Buffer, script: seq<AppCall>, clock: uint32, now: uint32,
                      ghost frames: seq<Frame>, ghost frame: Frame, ghost hs: seq<History>)
    returns (k: nat, nullCall: bool, ghost hs': seq<History>)
    requires net.Ready() && net.Table() && net.conns != [] && net.Owns(packet) && packet.dataSize <= packet.MaxSize()
    requires packet.data[..packet.dataSize] == Trimmed(frame)
    requires AllAccounted(Views(net), hs, frames, net.usb.submitted)
    modifies net.conns, net.Footprint()
    ensures net.Ready() && net.Table() && net.Onward()
    ensures AllAccounted(Views(net), hs', frames + [frame], net.usb.submitted)
    ensures AllFollow(old(Views(net)), hs, Views(net), hs', |frames|)
    ensures nullCall <==> CallsNull(net, Trimmed(frame))
    ensures |hs'| == |hs| == |net.conns|
    ensures var f := Trimmed(frame);
            IsTcp(f) && HasSyn(Get16(f, 66)) ==>
              && (k < |hs| <==> Get16(f, 56) in net.ports)
              && (if k < |hs| then hs' == hs[k := History(|frames|, Plus(Get32(f, 58), 1), [])]
                  else hs' == hs && net.usb.submitted == old(net.usb.submitted) + [net.Reset(f)])
    ensures var f := Trimmed(frame);
            IsSegment(f) ==>
              && old(net.FirstMatch(Trimmed(frame), k))
              && (k < |hs| ==> hs[k].History? && hs' == hs[k := Hears(hs[k], Heard(|frames|, Stack.ArrivalOf(f)))])
              && (k == |hs| ==> hs' == hs)
    ensures var f := Trimmed(frame);
            |f| < 74 || f[12..14] != [0x86, 0xDD] || f[20] != 6 ==>
              && !net.Owns(packet) && net.usb.freeList.nodes == Inserted(old(net.usb.freeList.nodes), packet)
              && hs' == hs && Views(net) == old(Views(net)) && net.usb.submitted == old(net.usb.submitted)
  {
    hide UsbNet.Valid, Stack.Footprint, Stack.Table, AllAccounted, Get16, Trimmed, UsbNet.OthersKept, AllFollow,
         Inserted, IsTcp;
    net.OutsideAll();
    var f := packet.data[..packet.dataSize];
    k, nullCall := |net.conns|, false;
    TcpInOctets(f);
    SameLength(Views(net), hs, frames, net.usb.submitted);
    if IsTcp(f) && HasSyn(Get16(f, 66)) {
      k, nullCall, hs' := SynPacket(net, packet, script, clock, now, frames, frame, hs);
    } else if IsTcp(f) && Stack.WellFormed(f) {
      k, hs' := SegmentPacket(net, packet, script, now, frames, frame, hs);
    } else {
      ghost var vs := Views(net);
      DropPacket(net, packet);
      assert Views(net) == vs;
      AllStay(vs, hs, frames, net.usb.submitted, frames + [frame], net.usb.submitted);
      hs' := hs;
    }
  }

  /** A SYN to port 0, while a slot of the listeners is free. */
  predicate CallsNull(net: Stack, f: Frame) {
    IsTcp(f) && HasSyn(Get16(f, 66)) && Get16(f, 56) == 0 && 0 in net.ports
  }

  /** The frame taken last is such a SYN. */
  ghost predicate LastCallsNull(net: Stack)
    reads net.usb
  {
    var frames := TakenFrames(net.usb);
    frames != [] && CallsNull(net, Trimmed(frames[|frames| - 1]))
  }

  method DropPacket(net: Stack, packet: Buffer)
    requires net.Ready() && net.Table() && net.Owns(packet)
    modifies net.Footprint()
    ensures net.Ready() && net.Table() && net.Onward() && net.usb.submitted == old(net.usb.submitted)
    ensures !net.Owns(packet) && net.usb.freeList.nodes == Inserted(old(net.usb.freeList.nodes), packet)
  {
    hide UsbNet.Valid, Stack.Footprint, Tiled, OpensWithSyn, Inserted;
    net.OutsideAll();
    net.Drop(packet);
  }

  /** A SYN for a listening port empties a slot, and its history begins with this SYN. */
  method SynPacket(net: Stack, packet: Buffer, script: seq<AppCall>, clock: uint32, now: uint32,
                   ghost frames: seq<Frame>, ghost frame: Frame, ghost hs: seq<History>)
    returns (k: nat, nullCall: bool, ghost hs': seq<History>)
    requires net.Ready() && net.Table() && net.conns != [] && net.Owns(packet) && packet.dataSize <= packet.MaxSize()
    requires packet.data[..packet.dataSize] == Trimmed(frame)
    requires IsTcp(Trimmed(frame)) && HasSyn(Get16(Trimmed(frame), 66))
    requires AllAccounted(Views(net), hs, frames, net.usb.submitted)
    modifies net.conns, net.Footprint()
    ensures net.Ready() && net.Table() && net.Onward()
    ensures AllAccounted(Views(net), hs', frames + [frame], net.usb.submitted)
    ensures AllFollow(old(Views(net)), hs, Views(net), hs', |frames|)
    ensures |hs'| == |hs| == |net.conns| && (k < |hs| <==> Get16(Trimmed(frame), 56) in net.ports)
    ensures if k < |hs|
            then old(net.SlotFor(now, k))
                 && hs' == hs[k := History(|frames|, Plus(Get32(Trimmed(frame), 58), 1), [])]
            else hs' == hs && net.usb.submitted == old(net.usb.submitted) + [net.Reset(Trimmed(frame))]
    ensures nullCall <==> CallsNull(net, Trimmed(frame))
  {
    hide UsbNet.Valid, Stack.Footprint, Stack.Table, Get16, Get32, Trimmed, TcpLog.Recorded, AllAccounted, Stack.Reset,
         Stack.SlotFor, AllFollow;
    ghost var vs, submitted := Views(net), net.usb.submitted;
    SameLength(vs, hs, frames, submitted);
    k, nullCall := net.HandleTcpSyn(packet, script, clock, now);
    if k < |net.conns| {
      ghost var h := History(|frames|, Plus(Get32(Trimmed(frame), 58), 1), []);
      assert (frames + [frame])[|frames|] == frame;
      OneChanges(vs, Views(net), k, hs, h, frames, submitted, frames + [frame], net.usb.submitted);
      hs' := hs[k := h];
    } else {
      assert Views(net) == vs;
      AllStay(vs, hs, frames, submitted, frames + [frame], net.usb.submitted);
      hs' := hs;
    }
  }

  /** A segment is heard by the first connection of the table that it matches, and by no other. */
  method SegmentPacket(net: Stack, packet: Buffer, script: seq<AppCall>, now: uint32, ghost frames: seq<Frame>,
                       ghost frame: Frame, ghost hs: seq<History>) returns (k: nat, ghost hs': seq<History>)
    requires net.Ready() && net.Table() && net.Owns(packet) && packet.dataSize <= packet.MaxSize()
    requires packet.data[..packet.dataSize] == Trimmed(frame) && IsSegment(Trimmed(frame))
    requires AllAccounted(Views(net), hs, frames, net.usb.submitted)
    modifies net.conns, net.Footprint()
    ensures net.Ready() && net.Table() && net.Onward()
    ensures AllAccounted(Views(net), hs', frames + [frame], net.usb.submitted)
    ensures AllFollow(old(Views(net)), hs, Views(net), hs', |frames|)
    ensures |hs'| == |hs| == |net.conns| && old(net.FirstMatch(packet.data[..packet.dataSize], k))
    ensures k < |hs| ==> hs[k].History?
    ensures hs' == if k == |hs| then hs else hs[k := Hears(hs[k], Heard(|frames|, Stack.ArrivalOf(Trimmed(frame))))]
  {
    hide UsbNet.Valid, Stack.Footprint, Stack.Table, Get16, Get32, Trimmed, Grown, AllAccounted, Accounted,
         Stack.Reset, OnSegment, AllFollow, GoesOn;
    ghost var vs, submitted := Views(net), net.usb.submitted;
    ghost var x := Heard(|frames|, Stack.ArrivalOf(Trimmed(frame)));
    OpenAsEstablished(net);
    SameLength(vs, hs, frames, submitted);
    k := net.HandleTcpActive(packet, script, now);
    if k < |net.conns| {
      assert Brings(vs[k].route, x, frames + [frame]);
      OneAccounted(vs, hs, k, frames, submitted);
      AccountedHears(vs[k], Views(net)[k], hs[k], x, frames, submitted, net.usb.submitted, script);
      OneChanges(vs, Views(net), k, hs, Hears(hs[k], x), frames, submitted, frames + [frame], net.usb.submitted);
      hs' := hs[k := Hears(hs[k], x)];
    } else {
      assert Views(net) == vs;
      AllStay(vs, hs, frames, submitted, frames + [frame], net.usb.submitted);
      hs' := hs;
    }
  }

  lemma SameLength(vs: seq<View>, hs: seq<History>, frames: seq<Frame>, submitted: seq<Frame>)
    requires AllAccounted(vs, hs, frames, submitted)
    ensures |hs| == |vs|
  {
  }

  lemma OpenAsEstablished(net: Stack)
    requires net.Table()
    ensures forall i :: 0 <= i < |net.conns| ==> net.conns[i].rx.open == net.conns[i].established
  {
  }

  lemma OneAccounted(vs: seq<View>, hs: seq<History>, k: nat, frames: seq<Frame>, submitted: seq<Frame>)
    requires AllAccounted(vs, hs, frames, submitted) && k < |vs|
    ensures |hs| == |vs| && Accounted(vs[k], hs[k], frames, submitted)
  {
  }

  // ---------- whole sessions ----------

  /** What one turn of the main loop may bring: a frame, with whatever an application does when it is called; a poll of
      all connections; or anything else that happens in the device. While the link is down, tcpip_poll does nothing. */
  datatype Step =
    | Receive(script: seq<AppCall>, clock: uint32, now: uint32)
    | Poll(scripts: seq<seq<AppCall>>, now: uint32)
    | Elsewhere(e: S.Event)

  /** How a session may end: it goes on, or a null pointer is sent in tcp_poll or called in handle_tcp_syn. */
  datatype Stop = Running | NullSent | NullCalled

  /** Everything is accounted for as before, and nothing of it is forgotten. */
  twostate predicate Continued(net: Stack, hs: seq<History>, hs': seq<History>)
    reads net.conns, net.usb
  {
    && AllAccounted(Views(net), hs', TakenFrames(net.usb), net.usb.submitted)
    && AllFollow(old(Views(net)), hs, Views(net), hs', |old(TakenFrames(net.usb))|)
    && old(TakenFrames(net.usb)) <= TakenFrames(net.usb)
  }

  /** tcpip_poll for one frame. */
  method HandleFrame(net: Stack, script: seq<AppCall>, clock: uint32, now: uint32, ghost hs: seq<History>)
    returns (k: nat, stop: Stop, ghost hs': seq<History>)
    requires net.Ready() && net.Table() && net.conns != [] && net.usb.Flowing()
    requires AllAccounted(Views(net), hs, TakenFrames(net.usb), net.usb.submitted)
    modifies net.conns, S.Objects(net.usb)
    ensures net.Ready() && net.Table() && net.usb.Flowing()
    ensures Continued(net, hs, hs') && |hs'| == |hs| == |net.conns|
    ensures OneTaken(net.usb)
    ensures |TakenFrames(net.usb)| > |old(TakenFrames(net.usb))| ==>
              var f, n := LastFrame(net.usb), |old(TakenFrames(net.usb))|;
              && (IsTcp(f) && HasSyn(Get16(f, 66)) ==>
                    && (k < |hs| <==> Get16(f, 56) in net.ports)
                    && hs' == if k < |hs| then hs[k := History(n, Plus(Get32(f, 58), 1), [])] else hs)
              && (IsSegment(f) ==>
                    && old(net.FirstMatch(f, k)) && (k < |hs| ==> hs[k].History?)
                    && hs' == if k < |hs| then hs[k := Hears(hs[k], Heard(n, Stack.ArrivalOf(f)))] else hs)
    ensures !old(net.usb.connected) ==> Views(net) == old(Views(net)) && net.usb.submitted == old(net.usb.submitted)
    ensures stop.NullCalled? <==> |TakenFrames(net.usb)| > |old(TakenFrames(net.usb))| && LastCallsNull(net)
    ensures !stop.NullSent?
  {
    hide UsbNet.Valid, Stack.Footprint, Conn.Valid, AllAccounted, Deframe, S.Objects, Trimmed, AllFollow, StillHeld;
    ApartAll(net);
    ghost var vs, frames := Views(net), TakenFrames(net.usb);
    AllStay(vs, hs, frames, net.usb.submitted, frames, net.usb.submitted);
    k, stop, hs' := |net.conns|, Running, hs;
    SameLength(vs, hs, frames, net.usb.submitted);
    if net.usb.connected {
      var packet;
      ghost var frame;
      packet, frame := TakePacket(net);
      assert Views(net) == vs;
      if packet != null {
        var nullCall;
        k, nullCall, hs' := HandlePacket(net, packet, script, clock, now, frames, frame, hs);
        stop := if nullCall then NullCalled else Running;
      }
    }
  }

  /** tcp_poll. It stops where tcpip_send is called with a null pointer. */
  method PollAll(net: Stack, scripts: seq<seq<AppCall>>, now: uint32, ghost hs: seq<History>) returns (stop: Stop)
    requires net.Ready() && net.Table() && net.usb.Flowing()
    requires AllAccounted(Views(net), hs, TakenFrames(net.usb), net.usb.submitted)
    modifies net.conns, net.Footprint()
    ensures net.Ready() && net.Table() && net.usb.Flowing()
    ensures Continued(net, hs, hs) && !stop.NullCalled?
    ensures stop.Running? && net.usb.connected ==> forall i :: 0 <= i < |net.conns| ==> Settled(net.conns[i])
  {
    hide UsbNet.Valid, Stack.Footprint, AllAccounted, Deframe, Stack.Table, AllFollow;
    stop := Running;
    AllStay(Views(net), hs, TakenFrames(net.usb), net.usb.submitted, TakenFrames(net.usb), net.usb.submitted);
    if net.usb.connected {
      AllDifferent(net);
      for i := 0 to |net.conns|
        invariant net.Ready() && net.Table() && net.usb.Flowing() && net.usb.connected
        invariant Continued(net, hs, hs)
        invariant forall j :: 0 <= j < i ==> Settled(net.conns[j])
      {
        ghost var vs, n := Views(net), |TakenFrames(net.usb)|;
        var stuck := PollOne(net, i, if i < |scripts| then scripts[i] else [], now, hs);
        AllFollowTwice(old(Views(net)), hs, vs, hs, Views(net), hs, |old(TakenFrames(net.usb))|, n);
        if stuck {
          return NullSent;
        }
      }
    }
  }

  lemma AllDifferent(net: Stack)
    requires net.Table()
    ensures forall i, j :: 0 <= i < j < |net.conns| ==> net.conns[i] != net.conns[j]
    ensures forall i :: 0 <= i < |net.conns| ==> net.conns[i] !in net.Footprint()
  {
  }

  /** An open connection has acknowledged all it has received, and its peer is not too far behind. */
  ghost predicate Settled(conn: Conn)
    reads conn
  {
    conn.established ==> conn.lastAckSent == conn.rxSequence && !OverLimit(conn.txSequence, conn.lastAckReceived)
  }

  method PollOne(net: Stack, k: nat, script: seq<AppCall>, now: uint32, ghost hs: seq<History>) returns (stuck: bool)
    requires net.Ready() && net.Table() && net.usb.Flowing() && net.usb.connected && k < |net.conns|
    requires AllAccounted(Views(net), hs, TakenFrames(net.usb), net.usb.submitted)
    modifies net.conns[k], net.Footprint()
    ensures net.Ready() && net.Table() && net.usb.Flowing() && net.usb.connected
    ensures Continued(net, hs, hs) && (!stuck ==> Settled(net.conns[k]))
  {
    hide UsbNet.Valid, Stack.Footprint, Tiled, OpensWithSyn, AllAccounted, Deframe, Grown, OverLimit, TcpLog.Recorded,
         FromFrames, AllFollow, GoesOn;
    net.OutsideAll();
    ghost var vs, frames, submitted := Views(net), TakenFrames(net.usb), net.usb.submitted;
    OneAccounted(vs, hs, k, frames, submitted);
    stuck := net.PollConnection(net.conns[k], script, now);
    ghost var v := Views(net)[k];
    AccountedChanges(vs[k], v, hs[k], frames, submitted, net.usb.submitted);
    OneChanges(vs, Views(net), k, hs, hs[k], frames, submitted, frames, net.usb.submitted);
    assert hs[k := hs[k]] == hs;
  }

  /** Over any schedule, from a state in which everything is accounted for, everything stays accounted for: for every
      connection of the table, what it has delivered is what the segments in frames from its peer make of it, and
      what it has sent is among the frames given to the network. No connection forgets anything, unless its slot is
      given to a new SYN. */
  method RunTable(net: Stack, schedule: seq<Step>, ghost hs: seq<History>)
    returns (stop: Stop, ghost hs': seq<History>)
    requires net.Ready() && net.Table() && net.conns != [] && net.usb.Flowing()
    requires AllAccounted(Views(net), hs, TakenFrames(net.usb), net.usb.submitted)
    modifies net.conns, S.Objects(net.usb)
    ensures net.Ready() && net.Table() && net.usb.Flowing()
    ensures Continued(net, hs, hs')
    ensures stop.NullCalled? ==> LastCallsNull(net)
  {
    hide UsbNet.Valid, Conn.Valid, AllAccounted, Deframe, S.Objects, Stack.Footprint, AllFollow, CallsNull, Trimmed;
    ApartAll(net);
    stop, hs' := Running, hs;
    AllStay(Views(net), hs, TakenFrames(net.usb), net.usb.submitted, TakenFrames(net.usb), net.usb.submitted);
    for i := 0 to |schedule|
      invariant net.Ready() && net.Table() && net.usb.Flowing()
      invariant Continued(net, hs, hs') && stop.Running?
    {
      ghost var vs, hs1, n := Views(net), hs', |TakenFrames(net.usb)|;
      stop, hs' := TakeStep(net, schedule[i], hs');
      AllFollowTwice(old(Views(net)), hs, vs, hs1, Views(net), hs', |old(TakenFrames(net.usb))|, n);
      if !stop.Running? {
        return;
      }
    }
  }

  method TakeStep(net: Stack, step: Step, ghost hs: seq<History>) returns (stop: Stop, ghost hs': seq<History>)
    requires net.Ready() && net.Table() && net.conns != [] && net.usb.Flowing()
    requires AllAccounted(Views(net), hs, TakenFrames(net.usb), net.usb.submitted)
    modifies net.conns, S.Objects(net.usb)
    ensures net.Ready() && net.Table() && net.usb.Flowing()
    ensures Continued(net, hs, hs')
    ensures stop.NullCalled? ==> LastCallsNull(net)
  {
    hide UsbNet.Valid, Conn.Valid, AllAccounted, Deframe, S.Objects, Stack.Footprint, AllFollow, CallsNull, Trimmed;
    ApartAll(net);
    stop, hs' := Running, hs;
    match step
    case Receive(script, clock, now) =>
      var k;
      k, stop, hs' := HandleFrame(net, script, clock, now, hs);
    case Poll(scripts, now) =>
      stop := PollAll(net, scripts, now, hs);
    case Elsewhere(e) =>
      OtherStep(net, e, hs);
  }

  method OtherStep(net: Stack, e: S.Event, ghost hs: seq<History>)
    requires net.Ready() && net.Table() && net.usb.Flowing()
    requires AllAccounted(Views(net), hs, TakenFrames(net.usb), net.usb.submitted)
    modifies S.Objects(net.usb)
    ensures net.Ready() && net.Table() && net.usb.Flowing()
    ensures Continued(net, hs, hs)
  {
    hide UsbNet.Valid, Tiled, OpensWithSyn, AllAccounted, Deframe, S.Objects, AllFollow;
    ApartAll(net);
    ghost var vs, frames, submitted := Views(net), TakenFrames(net.usb), net.usb.submitted;
    Meanwhile(net, e);
    assert Views(net) == vs;
    AllStay(vs, hs, frames, submitted, TakenFrames(net.usb), net.usb.submitted);
  }

  /** After start-up everything is accounted for, as no slot has been used. */
  lemma InitiallyAccounted(net: Stack)
    requires forall i :: 0 <= i < |net.conns| ==> net.conns[i].log == [] && net.conns[i].rx == RxState(0, false, [])
    ensures AllAccounted(Views(net), seq(|net.conns|, i => Unused), TakenFrames(net.usb), net.usb.submitted)
  {
    hide Deframe;
  }

  // ---------- both ends ----------

  /** A segment that one such device has sent is received as what was sent. */
  lemma EmittedArrives(r: Route, x: Sent)
    requires SegmentAt(r, x).Valid() && !HasSyn(x.control)
    ensures var f := Emitted(SegmentAt(r, x));
            Trimmed(f) == f && IsSegment(f) && Stack.ArrivalOf(f) == ArrivalFrom(x)
  {
    hide Emitted, Get16, Get32;
    var s := SegmentAt(r, x);
    EmittedFields(s);
    FlagsRead(Get16(Emitted(s), 66), x.control);
    assert Emitted(s)[HEADER_SIZE + 0..] == s.payload;
  }

  lemma FlagsRead(word: uint16, control: uint16)
    requires word % 0x1000 == control
    ensures HasSyn(word) == HasSyn(control) && Ends(word) == Ends(control)
  {
    var q := word / 0x1000;
    assert word == 0x1000 * q + control;
    assert word / 2 == 0x800 * q + control / 2;
    assert word / 4 == 0x400 * q + control / 4;
  }

  /** Everything that a connection has sent went back to where its SYN had come from: to that hardware address, address
      and port, from ours and from the port that the SYN was for. */
  lemma SentBack(net: Stack, conn: Conn, h: History, frames: seq<Frame>, submitted: seq<Frame>, i: nat)
    requires Accounted(ViewOf(net, conn), h, frames, submitted) && i < |conn.log|
    ensures h.History? && h.syn < |frames| && conn.log[i].at < |submitted|
    ensures var f, g := Trimmed(frames[h.syn]), submitted[conn.log[i].at];
            && |f| >= 74 && |g| >= 74
            && g[0..6] == f[6..12] && g[6..12] == net.localMac && g[22..38] == net.localAddr && g[38..54] == f[22..38]
            && g[54..56] == f[56..58] && g[56..58] == f[54..56]
            && g[58..62] == Put32(conn.log[i].sequence) && g[62..66] == Put32(conn.log[i].ack)
            && |conn.log[i].payload| <= |g| && g[|g| - |conn.log[i].payload|..] == conn.log[i].payload
  {
    hide Emitted, SegmentAt, Trimmed, Put16, Put32, Get32, Replay;
    var r, x := net.RouteOf(conn), conn.log[i];
    assert IsFrame(r, x, submitted);
    OnTheWire(r, x);
    AlongInOctets(r, Trimmed(frames[h.syn]), h.start);
  }

  /** The route of the other end. */
  function Mirror(r: Route): Route {
    Route(r.localMac, r.peerMac, r.peerAddr, r.localAddr, r.peerPort, r.localPort)
  }

  /** What the device at the other end of a route sends comes along this route, and its SYN opens it. */
  lemma MirrorComesAlong(r: Route, x: Sent)
    requires SegmentAt(Mirror(r), x).Valid()
    ensures var f := Emitted(SegmentAt(Mirror(r), x));
            && (!HasSyn(x.control) ==> Along(r, f))
            && (HasSyn(x.control) ==> OpenedBy(r, Plus(x.sequence, 1), f))
  {
    hide Emitted, Put16, Put32, Get16, Get32;
    var f := Emitted(SegmentAt(Mirror(r), x));
    OnTheWire(Mirror(r), x);
    AlongInOctets(r, f, Plus(x.sequence, 1));
    EmittedFields(SegmentAt(Mirror(r), x));
    FlagsRead(Get16(f, 66), x.control);
    ControlOctet(f);
    assert f[12..14] == f[12..18][..2];
    if !HasSyn(x.control) {
      EmittedArrives(Mirror(r), x);
    }
  }

  /** What one such device sends behind its SYN is a genuine part of the stream of its payloads. */
  lemma SentIsGenuine(log: seq<Sent>, start: uint32, next: uint32, i: nat)
    requires Tiled(log, start, next) && OpensWithSyn(log) && 0 < i < |log|
    ensures FromStream(ArrivalFrom(log[i]), Payloads(log), Plus(start, 1))
  {
    SentIsSlice(log, start, next, i);
    var c := Carry(log, i);
    assert c == TcpStream.Carried(c.off, |log[i].payload|, Ends(log[i].control));
  }

  function Positions(log: seq<Sent>, picks: seq<nat>): (offs: seq<nat>)
    requires forall i :: 0 <= i < |picks| ==> picks[i] <= |log|
    ensures |offs| == |picks|
  {
    seq(|picks|, i requires 0 <= i < |picks| => |Payloads(log[..picks[i]])|)
  }

  /** The peer is another such device at the other end: its SYN is the first segment of the log of its connection, and
      every frame that comes from it later is one of the other segments, frame i the one with number picks[i]. */
  ghost predicate ComesFrom(r: Route, frames: seq<Frame>, syn: nat, log: seq<Sent>, picks: seq<nat>) {
    && |picks| == |frames| && (forall i :: 0 <= i < |picks| ==> picks[i] < |log|)
    && syn < |frames| && IsEmitted(Trimmed(frames[syn]), Mirror(r), log, 0)
    && forall i: nat :: Behind(r, frames, syn, i) ==> 0 < picks[i] && IsEmitted(frames[i], Mirror(r), log, picks[i])
  }

  ghost predicate IsEmitted(f: Frame, back: Route, log: seq<Sent>, i: nat) {
    i < |log| && SegmentAt(back, log[i]).Valid() && f == Emitted(SegmentAt(back, log[i]))
  }

  lemma EmittedCarries(r: Route, frames: seq<Frame>, h: History, log: seq<Sent>, start: uint32, next: uint32,
                       picks: seq<nat>, i: nat)
    requires h.History? && ComesFrom(r, frames, h.syn, log, picks) && Behind(r, frames, h.syn, i)
    requires OpenedBy(r, h.start, Trimmed(frames[h.syn])) && Tiled(log, start, next) && OpensWithSyn(log)
    ensures Carries(r, frames, h.syn, h.start, Payloads(log), Positions(log, picks), i)
  {
    hide Emitted, Tiled, Along, OpenedBy, SegmentAt, TcpStream.Segment, Trimmed, IsSegment, Stack.ArrivalOf;
    var x := log[picks[i]];
    EmittedArrives(Mirror(r), x);
    SentIsSlice(log, start, next, picks[i]);
    SynNumber(r, h.start, Trimmed(frames[h.syn]), log, start, next);
  }

  /** The SYN of such a device has the first number of its log. */
  lemma SynNumber(r: Route, first: uint32, f: Frame, log: seq<Sent>, start: uint32, next: uint32)
    requires OpenedBy(r, first, f) && IsEmitted(f, Mirror(r), log, 0) && Tiled(log, start, next)
    ensures first == Plus(start, 1)
  {
    hide Emitted, Get16, Get32, Tiled, Along;
    EmittedFields(SegmentAt(Mirror(r), log[0]));
    TiledAt(log, start, next, 0);
    assert log[..0] == [];
  }

  /** Between two such devices, the application at one end is given a prefix of what the application at the other end
      has sent, as long as no frame is so old that it is taken for new. */
  lemma BetweenDevices(v: View, h: History, frames: seq<Frame>, submitted: seq<Frame>, log: seq<Sent>,
                       start: uint32, next: uint32, picks: seq<nat>)
    requires Accounted(v, h, frames, submitted) && h.History?
    requires Tiled(log, start, next) && OpensWithSyn(log) && |Payloads(log)| < MODULUS
    requires ComesFrom(v.route, frames, h.syn, log, picks)
    requires forall i: nat, e: nat ::
               Behind(v.route, frames, h.syn, i) && Reachable(v.route, frames, h.syn, Positions(log, picks), i, e) ==>
                 !Missed(RxState(Plus(h.start, e), true, []), Brought(v.route, frames, h.syn, i))
    ensures v.rx.delivered <= Payloads(log)
  {
    hide Trimmed, Along, OpenedBy, Tiled, OpensWithSyn, ComesFrom, Carries, Reachable, Brought;
    PicksForAll(v.route, frames, h.syn, log, picks);
    var r, offs := v.route, Positions(log, picks);
    forall i: nat | Behind(r, frames, h.syn, i)
      ensures Offered(r, frames, h.syn, h.start, Payloads(log), offs, i)
    {
      EmittedCarries(r, frames, h, log, start, next, picks, i);
    }
    FramesGivePrefix(v, h, frames, submitted, Payloads(log), offs);
  }

  lemma PicksForAll(r: Route, frames: seq<Frame>, syn: nat, log: seq<Sent>, picks: seq<nat>)
    requires ComesFrom(r, frames, syn, log, picks)
    ensures |picks| == |frames| && forall i :: 0 <= i < |picks| ==> picks[i] < |log|
  {
  }
}
