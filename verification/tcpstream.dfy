/** What the sequence numbers of src/tcpip.c guarantee about the byte streams of one connection
    (RFC 9293, section 3.4). */
module TcpStream {
  import opened Bytes
  import opened TcpWire

  const MODULUS := 0x1_0000_0000

  /** uint32_t addition */
  function Plus(a: uint32, n: int): uint32
    requires n >= 0
  {
    (a + n) % MODULUS
  }

  /** Numbers of 32 bits wrap once. */
  lemma NumbersWrap(a: uint32, n: uint32)
    ensures Plus(a, n) == if a + n < 0x1_0000_0000 then a + n else a + n - 0x1_0000_0000
  {
  }

  // ---------- receiving: the decisions of handle_tcp_active ----------

  datatype RxState = RxState(next: uint32, open: bool, delivered: seq<byte>)

  /** A segment for this connection; `last` if it carries FIN or RST. */
  datatype Arrival = Arrival(sequence: uint32, payload: seq<byte>, last: bool)

  predicate Resend(s: RxState, a: Arrival) {
    a.sequence < s.next && Plus(a.sequence, WINDOW_SIZE) > s.next
  }

  predicate Ahead(s: RxState, a: Arrival) {
    a.sequence > s.next
  }

  /** The segment has data, and the data is taken. */
  predicate Takes(s: RxState, a: Arrival) {
    a.payload != [] && !Resend(s, a) && !Ahead(s, a)
  }

  function OnSegment(s: RxState, a: Arrival): RxState
  {
    if !s.open then s
    else if a.payload != [] && Resend(s, a) then s
    else if a.payload != [] && Ahead(s, a) then s.(open := false)
    else
      var t := s.(next := Plus(s.next, |a.payload|), delivered := s.delivered + a.payload);
      if a.last then t.(next := Plus(t.next, 1), open := false) else t
  }

  /** What handle_tcp_active does, in numbers: data with the expected number, and a segment without data whatever its
      number is, counts; older data by less than 16384 is ignored, and data from further on closes the connection. FIN
      or RST takes up one number and closes it, unless its segment is ignored. */
  lemma SegmentRules(s: RxState, a: Arrival)
    requires s.open
    ensures a.payload == [] || a.sequence == s.next ==>
              OnSegment(s, a) == RxState((s.next + |a.payload| + if a.last then 1 else 0) % 0x1_0000_0000, !a.last,
                                         s.delivered + a.payload)
    ensures a.payload != [] && a.sequence < s.next < a.sequence + 16384 < 0x1_0000_0000 ==> OnSegment(s, a) == s
    ensures a.payload != [] && a.sequence > s.next ==> OnSegment(s, a) == RxState(s.next, false, s.delivered)
  {
    PlusPlus(s.next, |a.payload|, 1);
  }

  /** The one case in which data other than the expected is taken for it: an old sequence number that the plain
      comparisons do not recognise, because it lies a window or more behind or because the window sum wraps. */
  predicate Missed(s: RxState, a: Arrival) {
    a.payload != [] && a.sequence < s.next && Plus(a.sequence, WINDOW_SIZE) <= s.next
  }

  /** A segment that the peer sent: n bytes of its stream from position `off`. The network may lose, repeat and
      reorder such segments, and the application may close the connection in between. */
  datatype Event = Carried(off: nat, n: nat, last: bool) | AppCloses

  predicate InStream(e: Event, stream: seq<byte>) {
    e.Carried? ==> e.off + e.n <= |stream|
  }

  function Segment(e: Event, stream: seq<byte>, start: uint32): Arrival
    requires e.Carried? && InStream(e, stream)
  {
    Arrival(Plus(start, e.off), stream[e.off..e.off + e.n], e.last)
  }

  function Step(s: RxState, e: Event, stream: seq<byte>, start: uint32): RxState
    requires InStream(e, stream)
  {
    if e.AppCloses? then s.(open := false) else OnSegment(s, Segment(e, stream, start))
  }

  ghost predicate AllInStream(es: seq<Event>, stream: seq<byte>) {
    forall i :: 0 <= i < |es| ==> InStream(es[i], stream)
  }

  function Run(es: seq<Event>, stream: seq<byte>, start: uint32): RxState
    requires AllInStream(es, stream)
  {
    if es == [] then RxState(start, true, [])
    else Step(Run(es[..|es| - 1], stream, start), es[|es| - 1], stream, start)
  }

  ghost predicate NoneMissed(es: seq<Event>, stream: seq<byte>, start: uint32)
    requires AllInStream(es, stream)
  {
    forall i :: 0 <= i < |es| && es[i].Carried? ==> !Missed(Run(es[..i], stream, start), Segment(es[i], stream, start))
  }

  /** The bytes delivered are the stream up to the next expected sequence number. */
  ghost predicate Tracks(s: RxState, stream: seq<byte>, start: uint32) {
    s.delivered <= stream && (s.open ==> s.next == Plus(start, |s.delivered|))
  }

  lemma SamePosition(start: uint32, i: nat, j: nat)
    requires i < MODULUS && j < MODULUS && Plus(start, i) == Plus(start, j)
    ensures i == j
  {
  }

  lemma StepTracks(s: RxState, e: Event, stream: seq<byte>, start: uint32)
    requires |stream| < MODULUS && InStream(e, stream) && Tracks(s, stream, start)
    requires e.Carried? && s.open ==> !Missed(s, Segment(e, stream, start))
    ensures Tracks(Step(s, e, stream, start), stream, start)
  {
    if e.Carried? && s.open && e.n > 0 {
      var a := Segment(e, stream, start);
      if !Resend(s, a) && !Ahead(s, a) {
        assert a.sequence == s.next;
        SamePosition(start, e.off, |s.delivered|);
        assert s.delivered + a.payload == stream[..e.off + e.n];
        PlusPlus(start, e.off, e.n);
      }
    }
  }

  /** The segment carries bytes of the peer's stream, at the position that its sequence number says. */
  ghost predicate FromStream(a: Arrival, stream: seq<byte>, start: uint32) {
    exists off: nat ::
      && InStream(Carried(off, |a.payload|, a.last), stream)
      && a == Segment(Carried(off, |a.payload|, a.last), stream, start)
  }

  lemma GenuineTracks(s: RxState, a: Arrival, stream: seq<byte>, start: uint32)
    requires |stream| < MODULUS && Tracks(s, stream, start) && FromStream(a, stream, start)
    requires s.open ==> !Missed(s, a)
    ensures Tracks(OnSegment(s, a), stream, start)
  {
    var off: nat :| InStream(Carried(off, |a.payload|, a.last), stream)
                    && a == Segment(Carried(off, |a.payload|, a.last), stream, start);
    StepTracks(s, Carried(off, |a.payload|, a.last), stream, start);
  }

  lemma PlusPlus(a: uint32, i: nat, j: nat)
    ensures Plus(Plus(a, i), j) == Plus(a, i + j)
  {
  }

  /** Whatever the network does, and across any wrap of the sequence numbers, what the application is given is a
      prefix of the peer's stream, and the next expected sequence number says how long it is. */
  lemma {:induction false} DeliversPrefix(es: seq<Event>, stream: seq<byte>, start: uint32)
    requires |stream| < MODULUS && AllInStream(es, stream) && NoneMissed(es, stream, start)
    ensures Tracks(Run(es, stream, start), stream, start)
  {
    if es != [] {
      var before := es[..|es| - 1];
      forall i | 0 <= i < |before|
        ensures es[..i] == before[..i]
      {
      }
      assert NoneMissed(before, stream, start);
      DeliversPrefix(before, stream, start);
      StepTracks(Run(before, stream, start), es[|es| - 1], stream, start);
    }
  }

  /** The hypothesis is exactly what is needed: a step leaves the stream alone or extends it correctly if and only if
      its segment is not missed by the comparisons. */
  lemma MissedIsExact(s: RxState, e: Event, stream: seq<byte>, start: uint32)
    requires |stream| < MODULUS && e.Carried? && InStream(e, stream) && e.n > 0
    requires s.open && Tracks(s, stream, start)
    ensures var d, a := Step(s, e, stream, start).delivered, Segment(e, stream, start);
            (d == s.delivered || d == stream[..e.off + e.n]) <==> !Missed(s, a)
  {
    var a := Segment(e, stream, start);
    if a.sequence == s.next {
      SamePosition(start, e.off, |s.delivered|);
      assert s.delivered + a.payload == stream[..e.off + e.n];
    } else if Missed(s, a) {
      assert e.off != |s.delivered|;
      assert |s.delivered + a.payload| != |stream[..e.off + e.n]|;
    }
  }

  /** While the sequence numbers do not wrap, only a segment from a full window or more behind is missed. */
  lemma MissedWithoutWrap(s: RxState, e: Event, stream: seq<byte>, start: uint32)
    requires e.Carried? && InStream(e, stream) && e.n > 0 && s.open && Tracks(s, stream, start)
    requires start + |stream| + WINDOW_SIZE < MODULUS
    ensures Missed(s, Segment(e, stream, start)) <==> e.off + WINDOW_SIZE <= |s.delivered|
  {
  }

  /** How far the stream has come when its pieces arrive in order, with older ones among them. */
  function Reach(es: seq<Event>): nat {
    if es == [] then 0
    else
      var r, e := Reach(es[..|es| - 1]), es[|es| - 1];
      if e.Carried? && e.off == r then r + e.n else r
  }

  /** The next piece, or one that is recognised as an old one. */
  ghost predicate InTurn(e: Event, r: nat, stream: seq<byte>, start: uint32)
    requires InStream(e, stream)
  {
    e.Carried? && (e.off == r || e.n == 0 || Resend(RxState(Plus(start, r), true, []), Segment(e, stream, start)))
  }

  /** Nothing is lost either: when the pieces arrive in order, all of them are delivered. */
  lemma {:induction false} DeliversAll(es: seq<Event>, stream: seq<byte>, start: uint32)
    requires AllInStream(es, stream)
    requires forall i :: 0 <= i < |es| ==> InTurn(es[i], Reach(es[..i]), stream, start) && !es[i].last
    ensures Reach(es) <= |stream|
    ensures Run(es, stream, start) == RxState(Plus(start, Reach(es)), true, stream[..Reach(es)])
  {
    if es != [] {
      var before, e := es[..|es| - 1], es[|es| - 1];
      forall i | 0 <= i < |before|
        ensures es[..i] == before[..i]
      {
      }
      DeliversAll(before, stream, start);
      assert InTurn(e, Reach(before), stream, start);
      NextInTurn(e, Reach(before), stream, start);
    }
  }

  lemma NextInTurn(e: Event, r: nat, stream: seq<byte>, start: uint32)
    requires InStream(e, stream) && InTurn(e, r, stream, start) && !e.last && r <= |stream|
    ensures var q := if e.off == r then r + e.n else r;
            q <= |stream| && Step(RxState(Plus(start, r), true, stream[..r]), e, stream, start)
                               == RxState(Plus(start, q), true, stream[..q])
  {
    PlusPlus(start, e.off, e.n);
    PlusPlus(start, r, e.n);
    if e.off == r {
      assert stream[..r] + stream[r..r + e.n] == stream[..r + e.n];
    } else if e.n == 0 {
      assert stream[..r] + [] == stream[..r];
    }
  }

  /** A stream that is received twice: after 16384 bytes, a late copy of the first byte is taken for the next one. */
  lemma StaleCopyAccepted(stream: seq<byte>, start: uint32)
    requires |stream| >= WINDOW_SIZE && start + |stream| + WINDOW_SIZE < MODULUS
    ensures var s := RxState(Plus(start, WINDOW_SIZE), true, stream[..WINDOW_SIZE]);
            var late := Carried(0, 1, false);
            Tracks(s, stream, start) && Step(s, late, stream, start).delivered == stream[..WINDOW_SIZE] + stream[..1]
  {
    assert stream[0..0 + 1] == stream[..1];
  }

  // ---------- sending ----------

  /** One emitted segment; it was frame number `at` of those given to the network. A SYN takes up one sequence
      number. */
  datatype Sent = Sent(sequence: uint32, payload: seq<byte>, control: uint16, ack: uint32, at: nat)

  function Space(x: Sent): nat {
    |x.payload| + if HasSyn(x.control) then 1 else 0
  }

  /** Every segment begins where the one before it ended; `next` is where the last one ends. */
  ghost predicate Tiled(log: seq<Sent>, start: uint32, next: uint32) {
    if log == [] then next == start
    else var x := log[|log| - 1]; Tiled(log[..|log| - 1], start, x.sequence) && next == Plus(x.sequence, Space(x))
  }

  function TotalSpace(log: seq<Sent>): nat {
    if log == [] then 0 else TotalSpace(log[..|log| - 1]) + Space(log[|log| - 1])
  }

  function Payloads(log: seq<Sent>): seq<byte> {
    if log == [] then [] else Payloads(log[..|log| - 1]) + log[|log| - 1].payload
  }

  lemma NothingSent()
    ensures Tiled([], 0, 0) && OpensWithSyn([])
  {
  }

  lemma PayloadsAppend(log: seq<Sent>, x: Sent)
    ensures Payloads(log + [x]) == Payloads(log) + x.payload
  {
    assert (log + [x])[..|log|] == log;
  }

  lemma {:induction false} PayloadsPrefix(log: seq<Sent>, log': seq<Sent>)
    requires log <= log'
    ensures Payloads(log) <= Payloads(log')
    decreases |log'|
  {
    if |log| < |log'| {
      PayloadsPrefix(log, log'[..|log'| - 1]);
    } else {
      assert log == log';
    }
  }

  lemma SynLogged(start: uint32, ack: uint32, at: nat)
    ensures var log := [Sent(start, [], SYN + ACK, ack, at)];
            Tiled(log, start, Plus(start, 1)) && OpensWithSyn(log)
  {
    var log := [Sent(start, [], SYN + ACK, ack, at)];
    assert log[..0] == [];
  }

  /** Sending one more segment where the last one ended keeps the log tiled. */
  lemma TiledAppend(log: seq<Sent>, start: uint32, next: uint32, x: Sent)
    requires Tiled(log, start, next) && x.sequence == next
    ensures Tiled(log + [x], start, Plus(next, Space(x)))
    ensures Payloads(log + [x]) == Payloads(log) + x.payload
  {
    assert (log + [x])[..|log|] == log;
  }

  lemma {:induction false} TiledAt(log: seq<Sent>, start: uint32, next: uint32, i: nat)
    requires Tiled(log, start, next) && i <= |log|
    ensures (if i == |log| then next else log[i].sequence) == Plus(start, TotalSpace(log[..i]))
  {
    if log == [] {
    } else {
      var before, x := log[..|log| - 1], log[|log| - 1];
      if i == |log| {
        assert log[..i] == log;
        TiledAt(before, start, x.sequence, |before|);
        assert before[..|before|] == before;
        PlusPlus(start, TotalSpace(before), Space(x));
      } else {
        TiledAt(before, start, x.sequence, i);
        assert log[..i] == before[..i];
      }
    }
  }

  lemma {:induction false} PayloadAt(log: seq<Sent>, i: nat)
    requires i < |log|
    ensures var off := |Payloads(log[..i])|;
            off + |log[i].payload| <= |Payloads(log)| && Payloads(log)[off..off + |log[i].payload|] == log[i].payload
  {
    var before := log[..|log| - 1];
    if i < |before| {
      PayloadAt(before, i);
      assert log[..i] == before[..i];
    }
  }

  /** A connection opens with a SYN and sends no other. */
  ghost predicate OpensWithSyn(log: seq<Sent>) {
    forall i :: 0 <= i < |log| ==> (HasSyn(log[i].control) <==> i == 0) && (i == 0 ==> log[i].payload == [])
  }

  lemma OpensAppend(log: seq<Sent>, x: Sent)
    requires OpensWithSyn(log) && log != [] && !HasSyn(x.control)
    ensures OpensWithSyn(log + [x])
  {
  }

  lemma {:induction false} SpaceIsPayload(log: seq<Sent>)
    requires OpensWithSyn(log) && log != []
    ensures TotalSpace(log) == 1 + |Payloads(log)|
  {
    if |log| > 1 {
      SpaceIsPayload(log[..|log| - 1]);
    } else {
      assert log[..0] == [];
    }
  }

  /** What a receiver makes of a segment, if it is no SYN. */
  function ArrivalFrom(x: Sent): Arrival {
    Arrival(x.sequence, x.payload, Ends(x.control))
  }

  /** Where segment i lies in the stream of all payloads. */
  function Carry(log: seq<Sent>, i: nat): Event
    requires i < |log|
  {
    Carried(|Payloads(log[..i])|, |log[i].payload|, Ends(log[i].control))
  }

  /** Segment i carries the bytes of the sent stream at the position that its sequence number says: no gap, no
      overlap, and sorting the segments by position rebuilds everything that was sent. */
  lemma SentIsSlice(log: seq<Sent>, start: uint32, next: uint32, i: nat)
    requires Tiled(log, start, next) && OpensWithSyn(log) && 0 < i < |log|
    ensures var stream := Payloads(log);
            && InStream(Carry(log, i), stream)
            && Segment(Carry(log, i), stream, Plus(start, 1)) == ArrivalFrom(log[i])
  {
    TiledAt(log, start, next, i);
    PayloadAt(log, i);
    SpaceIsPayload(log[..i]);
    PlusPlus(start, 1, |Payloads(log[..i])|);
  }

  /** What a network makes of the segments of a sender: any choice of them, in any order and any number of times. */
  function Choose(log: seq<Sent>, picks: seq<nat>): (es: seq<Event>)
    requires forall k :: 0 <= k < |picks| ==> 0 < picks[k] < |log|
    ensures |es| == |picks|
  {
    seq(|picks|, k requires 0 <= k < |picks| => Carry(log, picks[k]))
  }

  /** One such connection end talking to another: the receiver's application sees a prefix of what the sender's
      application sent. */
  lemma EndToEnd(log: seq<Sent>, start: uint32, next: uint32, picks: seq<nat>)
    requires Tiled(log, start, next) && OpensWithSyn(log) && |Payloads(log)| < MODULUS
    requires forall k :: 0 <= k < |picks| ==> 0 < picks[k] < |log|
    ensures AllInStream(Choose(log, picks), Payloads(log))
    ensures NoneMissed(Choose(log, picks), Payloads(log), Plus(start, 1)) ==>
              Run(Choose(log, picks), Payloads(log), Plus(start, 1)).delivered <= Payloads(log)
    ensures forall k :: 0 <= k < |picks| ==>
              Segment(Choose(log, picks)[k], Payloads(log), Plus(start, 1)) == ArrivalFrom(log[picks[k]])
  {
    var es := Choose(log, picks);
    forall k | 0 <= k < |picks|
      ensures InStream(es[k], Payloads(log))
      ensures Segment(es[k], Payloads(log), Plus(start, 1)) == ArrivalFrom(log[picks[k]])
    {
      SentIsSlice(log, start, next, picks[k]);
    }
    if NoneMissed(es, Payloads(log), Plus(start, 1)) {
      DeliversPrefix(es, Payloads(log), Plus(start, 1));
    }
  }

  /** Received once each and in order, they deliver everything that was sent, and the end mark of the last one is
      noticed. */
  lemma EverythingArrives(log: seq<Sent>, start: uint32, next: uint32)
    requires Tiled(log, start, next) && OpensWithSyn(log) && log != []
    requires forall i :: 0 < i < |log| - 1 ==> !Ends(log[i].control)
    ensures var picks := seq(|log| - 1, i requires 0 <= i < |log| - 1 => i + 1);
            AllInStream(Choose(log, picks), Payloads(log)) &&
            var s := Run(Choose(log, picks), Payloads(log), Plus(start, 1));
            s.delivered == Payloads(log) && (s.open <==> |log| == 1 || !Ends(log[|log| - 1].control))
  {
    hide Tiled, OpensWithSyn, Payloads, Reach, InTurn, Run, Step, Segment, InStream;
    var n := |log| - 1;
    var picks: seq<nat> := seq(n, i requires 0 <= i < n => i + 1);
    var es, stream := Choose(log, picks), Payloads(log);
    forall i | 0 <= i < n
      ensures InStream(es[i], stream)
    {
      SentIsSlice(log, start, next, i + 1);
    }
    if n > 0 {
      InOrderArrives(log, es, Plus(start, 1));
    } else {
      NoneArrives(log, Plus(start, 1));
    }
  }

  lemma NoneArrives(log: seq<Sent>, start: uint32)
    requires |log| == 1 && OpensWithSyn(log)
    ensures AllInStream([], Payloads(log)) && Run([], Payloads(log), start) == RxState(start, true, Payloads(log))
  {
    assert log[..0] == [];
  }

  lemma InOrderArrives(log: seq<Sent>, es: seq<Event>, start: uint32)
    requires OpensWithSyn(log) && es != [] && |log| == |es| + 1 && AllInStream(es, Payloads(log))
    requires forall i :: 0 <= i < |es| ==> es[i] == Carry(log, i + 1)
    requires forall i :: 0 < i < |log| - 1 ==> !Ends(log[i].control)
    ensures var s := Run(es, Payloads(log), start);
            s.delivered == Payloads(log) && (s.open <==> !Ends(log[|log| - 1].control))
  {
    hide Payloads, Reach, OpensWithSyn, Step, Segment;
    var n, stream := |es|, Payloads(log);
    var before, e := es[..n - 1], es[n - 1];
    forall i | 0 <= i < n
      ensures Reach(es[..i]) == es[i].off
    {
      ReachIsPayload(log, es, i);
    }
    assert forall i :: 0 <= i < n - 1 ==> before[..i] == es[..i];
    DeliversAll(before, stream, start);
    PayloadAt(log, n);
    LastPayload(log);
    LastArrives(e, Reach(before), stream, start);
  }

  lemma LastPayload(log: seq<Sent>)
    requires log != []
    ensures |Payloads(log[..|log| - 1])| + |log[|log| - 1].payload| == |Payloads(log)|
  {
  }

  lemma LastArrives(e: Event, r: nat, stream: seq<byte>, start: uint32)
    requires e.Carried? && e.off == r && r + e.n == |stream|
    ensures var s := Step(RxState(Plus(start, r), true, stream[..r]), e, stream, start);
            s.delivered == stream && s.open == !e.last
  {
    assert stream[..r] + stream[r..] == stream;
  }

  lemma {:induction false} ReachIsPayload(log: seq<Sent>, es: seq<Event>, k: nat)
    requires OpensWithSyn(log) && |log| == |es| + 1 && k <= |es|
    requires forall i :: 0 <= i < |es| ==> es[i] == Carry(log, i + 1)
    ensures Reach(es[..k]) == |Payloads(log[..k + 1])|
  {
    if k == 0 {
      assert log[..1][..0] == [];
    } else {
      ReachIsPayload(log, es, k - 1);
      assert es[..k][..k - 1] == es[..k - 1];
      assert log[..k + 1][..k] == log[..k];
    }
  }

  // ---------- unacknowledged data: the limit of tcp_poll ----------

  /** `conn->tx_sequence > conn->last_ack_received + 2 * TCPIP_WINDOW_SIZE` */
  predicate OverLimit(sent: uint32, acked: uint32) {
    sent > Plus(acked, 2 * WINDOW_SIZE)
  }

  /** How many sequence numbers are really outstanding. */
  function InFlight(sent: uint32, acked: uint32): uint32 {
    (sent - acked + MODULUS) % MODULUS
  }

  /** A limit of 32768, without regard to wrap, and the number that takes the acknowledged one to the one sent. */
  lemma LimitInNumbers(sent: uint32, acked: uint32)
    ensures OverLimit(sent, acked) <==> sent > (acked + 32768) % 0x1_0000_0000
    ensures Plus(acked, InFlight(sent, acked)) == sent
  {
  }

  /** The plain comparison says what is meant exactly when the sequence number and the limit have both wrapped past
      the acknowledged number, or neither has. */
  lemma LimitIsExact(sent: uint32, acked: uint32)
    ensures (OverLimit(sent, acked) <==> InFlight(sent, acked) > 2 * WINDOW_SIZE) <==>
            (sent >= acked <==> acked + 2 * WINDOW_SIZE < MODULUS)
  {
  }

  /** Near a wrap the comparison errs both ways: it lets 69632 bytes in flight pass, and takes 2048 for too many. */
  lemma LimitMisjudged()
    ensures InFlight(0x1000, 0xFFFF_0000) == 69632 && !OverLimit(0x1000, 0xFFFF_0000)
    ensures InFlight(0xFFFF_F800, 0xFFFF_F000) == 2048 && OverLimit(0xFFFF_F800, 0xFFFF_F000)
  {
  }
}
