/** The Ethernet, IPv6 and TCP headers that src/tcpip.c reads and writes in place (network_std.h; RFC 8200,
    section 3; RFC 9293, section 3.1). */
module TcpWire {
  import opened Bytes
  import opened Checksum

  const HEADER_SIZE := 74          // TCPIP_HEADER_SIZE: 14 + 40 + 20
  const IPV6_AT := 14
  const PAYLOAD_AT := 54           // what the IPv6 payload length counts starts here
  const WINDOW_SIZE := 16384       // TCPIP_WINDOW_SIZE
  const ACK: uint16 := 0x10
  const RST: uint16 := 0x04
  const SYN: uint16 := 0x02
  const FIN: uint16 := 0x01

  predicate HasSyn(control: uint16) {
    control / 2 % 2 == 1
  }

  predicate HasAck(control: uint16) {
    control / 16 % 2 == 1
  }

  /** FIN or RST */
  predicate Ends(control: uint16) {
    control % 2 == 1 || control / 4 % 2 == 1
  }

  /** The control bits of the TCP header (RFC 9293, section 3.1), each 0 or 1, below the data offset and the reserved
      bits: FIN and SYN are the lowest two, and RST alone ends a connection as FIN does. */
  lemma ControlBits(above: nat, urg: nat, ack: nat, psh: nat, rst: nat, syn: nat, fin: nat)
    requires urg <= 1 && ack <= 1 && psh <= 1 && rst <= 1 && syn <= 1 && fin <= 1 && above < 0x400
    ensures var control := 64 * above + 32 * urg + 16 * ack + 8 * psh + 4 * rst + 2 * syn + fin;
            && (HasSyn(control) <==> syn == 1) && (HasAck(control) <==> ack == 1)
            && (Ends(control) <==> fin == 1 || rst == 1)
    ensures FIN == 1 && SYN == 2 && RST == 4 && ACK == 16
  {
    var x4 := 4 * above + 2 * urg + ack;
    Divides(16, x4, 8 * psh + 4 * rst + 2 * syn + fin);
    Divides(4, 4 * x4 + 2 * psh + rst, 2 * syn + fin);
    Divides(2, 8 * x4 + 4 * psh + 2 * rst + syn, fin);
    Divides(2, 2 * above + urg, ack);
    Divides(2, 2 * x4 + psh, rst);
    Divides(2, 4 * x4 + 2 * psh + rst, syn);
  }

  lemma Divides(d: nat, q: nat, r: nat)
    requires d in {2, 4, 16} && r < d
    ensures (d * q + r) / d == q && (d * q + r) % d == r
  {
  }

  /** Of the 16 bits with the data offset and the control bits, the second octet of a frame decides. */
  lemma ControlOctet(f: seq<byte>)
    requires |f| >= HEADER_SIZE
    ensures HasSyn(Get16(f, 66)) <==> f[67] / 2 % 2 == 1
    ensures Ends(Get16(f, 66)) <==> f[67] % 2 == 1 || f[67] / 4 % 2 == 1
    ensures Get16(f, 66) / 0x1000 == f[66] / 16
  {
    var h: nat, l: nat := f[66], f[67];
    Divides(2, 128 * h + l / 2, l % 2);
    Divides(4, 64 * h + l / 4, l % 4);
    Divides(2, 64 * h + l / 4, l / 2 % 2);
    Divides(2, 32 * h + l / 8, l / 4 % 2);
  }

  /** Everything that distinguishes one emitted segment from another. */
  datatype Segment = Segment(
    dstMac: seq<byte>, srcMac: seq<byte>, srcAddr: seq<byte>, dstAddr: seq<byte>,
    srcPort: uint16, dstPort: uint16, sequence: uint32, ack: uint32, flags: uint16,
    options: seq<byte>, payload: seq<byte>)
  {
    ghost predicate Valid() {
      && |dstMac| == 6 && |srcMac| == 6 && |srcAddr| == 16 && |dstAddr| == 16
      && flags < 0x1000
      && |options| % 4 == 0 && |options| <= 40
      && 20 + |options| + |payload| < 0x1_0000
    }
  }

  // ---------- the format ----------

  function Ethernet(s: Segment): seq<byte> {
    s.dstMac + s.srcMac + Put16(0x86DD)
  }

  function Ipv6(s: Segment): seq<byte>
    requires s.Valid()
  {
    [0x60, 0, 0, 0] + Put16(20 + |s.options| + |s.payload|) + [6, 255] + s.srcAddr + s.dstAddr
  }

  function Tcp(s: Segment, checksum: uint16): seq<byte>
    requires s.Valid()
  {
    Put16(s.srcPort) + Put16(s.dstPort) + Put32(s.sequence) + Put32(s.ack)
    + Put16((5 + |s.options| / 4) * 0x1000 + s.flags as int) + Put16(WINDOW_SIZE) + Put16(checksum) + Put16(0)
  }

  function Packet(s: Segment, checksum: uint16): seq<byte>
    requires s.Valid()
  {
    Ethernet(s) + Ipv6(s) + Tcp(s, checksum) + s.options + s.payload
  }

  /** The sum over pseudo-header and payload that a receiver forms. */
  function ReceiverSum(f: seq<byte>): nat
    requires |f| >= PAYLOAD_AT && |f| >= PAYLOAD_AT + Get16(f, 18)
  {
    WordSum(f[22..38]) + WordSum(f[38..54]) + WordSum(f[18..20]) + f[20] as int
    + WordSum(f[PAYLOAD_AT..PAYLOAD_AT + Get16(f, 18)])
  }

  /** It is the sum over the octets of the pseudo-header (RFC 8200, section 8.1: source, destination, length of the
      upper layer in four octets, three zeros, next header), followed by the payload. */
  lemma SumOfPseudoHeader(f: seq<byte>)
    requires |f| >= PAYLOAD_AT && |f| >= 54 + 256 * f[18] as int + f[19] as int
    ensures ReceiverSum(f)
              == WordSum(f[22..38] + f[38..54] + [0, 0, f[18], f[19]] + [0, 0, 0, f[20]]
                         + f[54..54 + 256 * f[18] as int + f[19] as int])
  {
    hide WordSum;
    var body := f[54..54 + 256 * f[18] as int + f[19] as int];
    assert f[18..20] == [f[18], f[19]];
    WordSumWords(0, 0, [f[18], f[19]]);
    WordSumWords(0, 0, [0, f[20]]);
    WordSumWords(0, f[20], []);
    assert [0, f[20]] + [] == [0, f[20]];
    assert [0, 0] + [f[18], f[19]] == [0, 0, f[18], f[19]] && [0, 0] + [0, f[20]] == [0, 0, 0, f[20]];
    WordSumConcat(f[22..38], f[38..54]);
    WordSumConcat(f[22..38] + f[38..54], [0, 0, f[18], f[19]]);
    WordSumConcat(f[22..38] + f[38..54] + [0, 0, f[18], f[19]], [0, 0, 0, f[20]]);
    WordSumConcat(f[22..38] + f[38..54] + [0, 0, f[18], f[19]] + [0, 0, 0, f[20]], body);
  }

  // ---------- reading the fields back ----------

  lemma EthernetFields(s: Segment)
    requires s.Valid()
    ensures var f := Ethernet(s);
            |f| == 14 && f[0..6] == s.dstMac && f[6..12] == s.srcMac && Get16(f, 12) == 0x86DD
  {
  }

  lemma Ipv6Fields(s: Segment)
    requires s.Valid()
    ensures var f := Ipv6(s);
            && |f| == 40 && f[0..4] == [0x60, 0, 0, 0] && Get16(f, 4) == 20 + |s.options| + |s.payload|
            && f[6] == 6 && f[7] == 255
            && f[8..24] == s.srcAddr && f[24..40] == s.dstAddr
  {
  }

  lemma TcpFields(s: Segment, checksum: uint16)
    requires s.Valid()
    ensures var f := Tcp(s, checksum);
            && |f| == 20 && Get16(f, 0) == s.srcPort && Get16(f, 2) == s.dstPort
            && Get32(f, 4) == s.sequence && Get32(f, 8) == s.ack
            && Get16(f, 12) % 0x1000 == s.flags && Get16(f, 12) / 0x1000 * 4 == 20 + |s.options|
            && Get16(f, 14) == WINDOW_SIZE && Get16(f, 16) == checksum && Get16(f, 18) == 0
  {
  }

  /** A field keeps its value when the header that holds it is put at offset n of a frame. */
  lemma FieldAt(f: seq<byte>, g: seq<byte>, n: nat, i: nat)
    requires n + |g| <= |f| && f[n..n + |g|] == g
    ensures i + 2 <= |g| ==> Get16(f, n + i) == Get16(g, i)
    ensures i + 4 <= |g| ==> Get32(f, n + i) == Get32(g, i)
  {
    assert forall j {:trigger g[j]} :: 0 <= j < |g| ==> f[n + j] == g[j];
  }

  lemma PartAt(f: seq<byte>, g: seq<byte>, n: nat, i: nat, j: nat)
    requires n + |g| <= |f| && f[n..n + |g|] == g && i <= j <= |g|
    ensures f[n + i..n + j] == g[i..j]
  {
    assert forall k {:trigger g[k]} :: 0 <= k < |g| ==> f[n + k] == g[k];
  }

  lemma Layout(s: Segment, checksum: uint16)
    requires s.Valid()
    ensures var f := Packet(s, checksum);
            && |f| == HEADER_SIZE + |s.options| + |s.payload|
            && f[0..14] == Ethernet(s) && f[14..54] == Ipv6(s) && f[54..74] == Tcp(s, checksum)
            && f[HEADER_SIZE..HEADER_SIZE + |s.options|] == s.options && f[HEADER_SIZE + |s.options|..] == s.payload
  {
    hide Ethernet, Ipv6, Tcp;
    EthernetFields(s);
    Ipv6Fields(s);
    TcpFields(s, checksum);
  }

  /** A receiver that reads an emitted frame at the standard offsets finds exactly what was put in. */
  lemma Fields(s: Segment, checksum: uint16)
    requires s.Valid()
    ensures var f := Packet(s, checksum);
            && |f| == HEADER_SIZE + |s.options| + |s.payload|
            && f[0..6] == s.dstMac && f[6..12] == s.srcMac && Get16(f, 12) == 0x86DD && f[14..18] == [0x60, 0, 0, 0]
            && Get16(f, 18) == |f| - PAYLOAD_AT && f[20] == 6 && f[21] == 255
            && f[22..38] == s.srcAddr && f[38..54] == s.dstAddr
            && Get16(f, 54) == s.srcPort && Get16(f, 56) == s.dstPort
            && Get32(f, 58) == s.sequence && Get32(f, 62) == s.ack
            && Get16(f, 66) % 0x1000 == s.flags
            && PAYLOAD_AT + Get16(f, 66) / 0x1000 * 4 == HEADER_SIZE + |s.options|
            && Get16(f, 68) == WINDOW_SIZE && Get16(f, 70) == checksum && Get16(f, 72) == 0
            && f[HEADER_SIZE..HEADER_SIZE + |s.options|] == s.options && f[HEADER_SIZE + |s.options|..] == s.payload
  {
    hide Ethernet, Ipv6, Tcp, Packet, Get16, Get32;
    Layout(s, checksum);
    EthernetFields(s);
    Ipv6Fields(s);
    TcpFields(s, checksum);
    var f, e, p, t := Packet(s, checksum), Ethernet(s), Ipv6(s), Tcp(s, checksum);
    FieldAt(f, e, 0, 12);
    FieldAt(f, p, 14, 4);
    assert f[20] == p[6] && f[21] == p[7];
    PartAt(f, e, 0, 0, 6);
    PartAt(f, e, 0, 6, 12);
    PartAt(f, p, 14, 0, 4);
    PartAt(f, p, 14, 8, 24);
    PartAt(f, p, 14, 24, 40);
    FieldAt(f, t, 54, 0);
    FieldAt(f, t, 54, 2);
    FieldAt(f, t, 54, 4);
    FieldAt(f, t, 54, 8);
    FieldAt(f, t, 54, 12);
    FieldAt(f, t, 54, 14);
    FieldAt(f, t, 54, 16);
    FieldAt(f, t, 54, 18);
  }

  // ---------- checksums in place ----------

  /** icmp_checksum and tcp_checksum, whose fields lie at offsets 2 and 16 of the payload, and the store of their
      result: afterwards the receiver's sum is all ones, whatever the packet is. */
  method StoreChecksum(data: array<byte>, at: nat) returns (checksum: uint16)
    requires data.Length >= PAYLOAD_AT && data.Length >= PAYLOAD_AT + Get16(data[..], 18)
    requires at % 2 == 0 && at + 2 <= Get16(data[..], 18)
    modifies data
    ensures forall i :: 0 <= i < data.Length && !(PAYLOAD_AT + at <= i < PAYLOAD_AT + at + 2) ==>
              data[i] == old(data[i])
    ensures Get16(data[..], 18) == old(Get16(data[..], 18))
    ensures OnesComplement(ReceiverSum(data[..])) == 0xFFFF
    ensures data[..] == old(data[..])[PAYLOAD_AT + at := checksum / 256][PAYLOAD_AT + at + 1 := checksum % 256]
    ensures old(data[PAYLOAD_AT + at]) == 0 && old(data[PAYLOAD_AT + at + 1]) == 0 ==>
              checksum == 0xFFFF - OnesComplement(old(ReceiverSum(data[..])))
  {
    hide ReceiverSum, WordSum, OnesComplement;
    data[PAYLOAD_AT + at], data[PAYLOAD_AT + at + 1] := 0, 0;
    ghost var zeroed: seq<byte> := data[..];
    assert old(data[PAYLOAD_AT + at]) == 0 && old(data[PAYLOAD_AT + at + 1]) == 0 ==> zeroed == old(data[..]);
    var sum := PacketSum(data);
    checksum := FoldSum(sum);
    data[PAYLOAD_AT + at], data[PAYLOAD_AT + at + 1] := checksum / 256, checksum % 256;
    SumStored(zeroed, at, checksum);
    assert data[..] == zeroed[PAYLOAD_AT + at := checksum / 256][PAYLOAD_AT + at + 1 := checksum % 256];
    ComplementFolds(sum);
  }

  /** The 32-bit sum over pseudo-header and payload, which cannot overflow. */
  method PacketSum(data: array<byte>) returns (sum: uint32)
    requires data.Length >= PAYLOAD_AT && data.Length >= PAYLOAD_AT + Get16(data[..], 18)
    ensures sum == ReceiverSum(data[..])
  {
    var length := Get16(data[..], 18);
    var source := Ipsum(data, 22, 16);
    var dest := Ipsum(data, 38, 16);
    var len := Ipsum(data, 18, 2);
    var body := Ipsum(data, PAYLOAD_AT, length);
    SameSlices(data, length);
    WordSumBound(data[22..38]);
    WordSumBound(data[38..54]);
    WordSumBound(data[18..20]);
    WordSumBound(data[PAYLOAD_AT..PAYLOAD_AT + length]);
    sum := (source + dest + len + data[20] as int + body) % 0x1_0000_0000;
  }

  lemma SameSlices(data: array<byte>, length: nat)
    requires PAYLOAD_AT + length <= data.Length
    ensures data[..][22..38] == data[22..38] && data[..][38..54] == data[38..54] && data[..][18..20] == data[18..20]
    ensures data[..][PAYLOAD_AT..PAYLOAD_AT + length] == data[PAYLOAD_AT..PAYLOAD_AT + length]
  {
  }

  lemma SumStored(f: seq<byte>, at: nat, checksum: uint16)
    requires |f| >= PAYLOAD_AT && |f| >= PAYLOAD_AT + Get16(f, 18) && at % 2 == 0 && at + 2 <= Get16(f, 18)
    requires f[PAYLOAD_AT + at] == 0 && f[PAYLOAD_AT + at + 1] == 0
    ensures var g := f[PAYLOAD_AT + at := checksum / 256][PAYLOAD_AT + at + 1 := checksum % 256];
            Get16(g, 18) == Get16(f, 18) && ReceiverSum(g) == ReceiverSum(f) + checksum
  {
    hide WordSum;
    var g: seq<byte> := f[PAYLOAD_AT + at := checksum / 256][PAYLOAD_AT + at + 1 := checksum % 256];
    var n := Get16(f, 18);
    var body: seq<byte> := f[PAYLOAD_AT..PAYLOAD_AT + n];
    assert g[22..38] == f[22..38] && g[38..54] == f[38..54] && g[18..20] == f[18..20];
    assert g[PAYLOAD_AT..PAYLOAD_AT + n] == body[at := checksum / 256][at + 1 := checksum % 256];
    WordSumStore(body, at, checksum / 256, checksum % 256);
  }

  /** The segment as it goes out. */
  function Emitted(s: Segment): seq<byte>
    requires s.Valid()
  {
    Summable(s);
    Packet(s, 0xFFFF - OnesComplement(ReceiverSum(Packet(s, 0))))
  }

  lemma Summable(s: Segment)
    requires s.Valid()
    ensures var f := Packet(s, 0); |f| >= PAYLOAD_AT && |f| >= PAYLOAD_AT + Get16(f, 18)
  {
    Fields(s, 0);
  }

  lemma PacketWithChecksum(s: Segment, checksum: uint16)
    requires s.Valid()
    ensures |Packet(s, 0)| >= HEADER_SIZE
    ensures Packet(s, checksum) == Packet(s, 0)[70 := checksum / 256][71 := checksum % 256]
  {
    hide Ethernet, Ipv6;
    EthernetFields(s);
    Ipv6Fields(s);
    TcpFields(s, 0);
    var f: seq<byte> := Tcp(s, 0);
    assert Tcp(s, checksum) == f[16 := checksum / 256][17 := checksum % 256];
  }

  /** The fields of an emitted segment, read at the offsets of the standards. */
  lemma EmittedFields(s: Segment)
    requires s.Valid()
    ensures var f := Emitted(s);
            && |f| == HEADER_SIZE + |s.options| + |s.payload|
            && f[0..6] == s.dstMac && f[6..12] == s.srcMac && Get16(f, 12) == 0x86DD && f[14..18] == [0x60, 0, 0, 0]
            && Get16(f, 18) == |f| - PAYLOAD_AT && f[20] == 6 && f[21] == 255
            && f[22..38] == s.srcAddr && f[38..54] == s.dstAddr
            && Get16(f, 54) == s.srcPort && Get16(f, 56) == s.dstPort
            && Get32(f, 58) == s.sequence && Get32(f, 62) == s.ack && Get16(f, 66) % 0x1000 == s.flags
            && PAYLOAD_AT + Get16(f, 66) / 0x1000 * 4 == HEADER_SIZE + |s.options|
            && Get16(f, 68) == WINDOW_SIZE && Get16(f, 72) == 0
            && f[HEADER_SIZE..HEADER_SIZE + |s.options|] == s.options && f[HEADER_SIZE + |s.options|..] == s.payload
  {
    hide Packet, ReceiverSum, Get16, Get32;
    Summable(s);
    Fields(s, 0xFFFF - OnesComplement(ReceiverSum(Packet(s, 0))));
  }

  /** The same octet by octet. */
  lemma EmittedOctets(s: Segment)
    requires s.Valid()
    ensures var f := Emitted(s);
            && |f| == 74 + |s.options| + |s.payload|
            && f[0..6] == s.dstMac && f[6..12] == s.srcMac && f[12..18] == [0x86, 0xDD, 0x60, 0, 0, 0]
            && f[18..20] == Put16(|f| - 54) && f[20] == 6 && f[21] == 255
            && f[22..38] == s.srcAddr && f[38..54] == s.dstAddr
            && f[54..56] == Put16(s.srcPort) && f[56..58] == Put16(s.dstPort)
            && f[58..62] == Put32(s.sequence) && f[62..66] == Put32(s.ack)
            && f[66] == 16 * (5 + |s.options| / 4) + s.flags / 256 && f[67] == s.flags % 256
            && f[68..70] == [0x40, 0] && f[72..74] == [0, 0]
            && f[74..74 + |s.options|] == s.options && f[74 + |s.options|..] == s.payload
  {
    hide Emitted, Put16, Put32, Get16, Get32;
    var f := Emitted(s);
    EmittedFields(s);
    ReadInOrder(f, 12);
    ReadInOrder(f, 18);
    ReadInOrder(f, 54);
    ReadInOrder(f, 56);
    ReadInOrder(f, 58);
    ReadInOrder(f, 62);
    ReadInOrder(f, 68);
    ReadInOrder(f, 72);
    Constants();
    assert f[12..18] == f[12..14] + f[14..18];
    ReadInOrder(f, 66);
    ControlOctets(Get16(f, 66), s.flags, f[66], f[67], 5 + |s.options| / 4);
  }

  lemma Constants()
    ensures Put16(0x86DD) == [0x86, 0xDD] && Put16(WINDOW_SIZE) == [0x40, 0] && Put16(0) == [0, 0]
  {
  }

  lemma ControlOctets(word: uint16, control: uint16, hi: byte, lo: byte, offset: nat)
    requires word == 256 * hi as int + lo as int && word % 0x1000 == control && word / 0x1000 == offset
    ensures hi == 16 * offset + control / 256 && lo == control % 256
  {
  }

  /** Every emitted segment passes the check of its receiver. */
  lemma EmittedChecks(s: Segment)
    requires s.Valid()
    ensures var f := Emitted(s);
            |f| >= PAYLOAD_AT && |f| == PAYLOAD_AT + Get16(f, 18) && OnesComplement(ReceiverSum(f)) == 0xFFFF
  {
    hide Packet, ReceiverSum, Get16;
    Fields(s, 0);
    var f, n := Packet(s, 0), ReceiverSum(Packet(s, 0));
    var checksum := 0xFFFF - OnesComplement(n);
    Fields(s, checksum);
    PacketWithChecksum(s, checksum);
    ZeroField(f);
    SumStored(f, 16, checksum);
    ComplementFolds(n);
  }

  lemma EmittedLength(s: Segment)
    requires s.Valid()
    ensures |Emitted(s)| == HEADER_SIZE + |s.options| + |s.payload|
  {
    Fields(s, 0xFFFF - OnesComplement(ReceiverSum(Packet(s, 0))));
  }

  lemma ZeroField(f: seq<byte>)
    requires |f| >= HEADER_SIZE && Get16(f, 70) == 0
    ensures f[70] == 0 && f[71] == 0
  {
  }

  /** The stores of tcpip_send_ctrl, in front of a payload that is in place already. */
  method WriteSegment(data: array<byte>, s: Segment)
    requires s.Valid() && data.Length >= HEADER_SIZE + |s.options| + |s.payload|
    requires data[HEADER_SIZE + |s.options|..HEADER_SIZE + |s.options| + |s.payload|] == s.payload
    modifies data
    ensures data[..HEADER_SIZE + |s.options| + |s.payload|] == Emitted(s)
    ensures data[HEADER_SIZE + |s.options| + |s.payload|..] == old(data[HEADER_SIZE + |s.options| + |s.payload|..])
  {
    hide Ethernet, Ipv6, Tcp, ReceiverSum, Overlaid, Emitted;
    EthernetFields(s);
    Ipv6Fields(s);
    TcpFields(s, 0);
    ghost var n := HEADER_SIZE + |s.options| + |s.payload|;
    ghost var d, tail := data[..], data[n..];
    Store(data, HEADER_SIZE, s.options);
    Store(data, 0, Ethernet(s));
    Store(data, IPV6_AT, Ipv6(s));
    Store(data, PAYLOAD_AT, Tcp(s, 0));
    Assembled(d, s.options, Ethernet(s), Ipv6(s), Tcp(s, 0));
    assert d[HEADER_SIZE + |s.options|..] == s.payload + tail;
    assert data[..] == Packet(s, 0) + tail;
    WriteChecksum(data, s, tail);
    EmittedLength(s);
    Halves(data[..], Emitted(s), tail);
  }

  lemma Halves(d: seq<byte>, a: seq<byte>, b: seq<byte>)
    requires d == a + b
    ensures d[..|a|] == a && d[|a|..] == b
  {
  }

  lemma Assembled(d: seq<byte>, o: seq<byte>, e: seq<byte>, p: seq<byte>, t: seq<byte>)
    requires |e| == 14 && |p| == 40 && |t| == 20 && HEADER_SIZE + |o| <= |d|
    ensures Overlaid(Overlaid(Overlaid(Overlaid(d, HEADER_SIZE, o), 0, e), IPV6_AT, p), PAYLOAD_AT, t)
              == e + p + t + o + d[HEADER_SIZE + |o|..]
  {
    var rest := o + d[HEADER_SIZE + |o|..];
    assert Overlaid(d, HEADER_SIZE, o) == d[..HEADER_SIZE] + rest;
    assert Overlaid(d[..HEADER_SIZE] + rest, 0, e) == e + d[14..HEADER_SIZE] + rest;
    assert Overlaid(e + d[14..HEADER_SIZE] + rest, IPV6_AT, p) == e + p + d[PAYLOAD_AT..HEADER_SIZE] + rest;
    assert Overlaid(e + p + d[PAYLOAD_AT..HEADER_SIZE] + rest, PAYLOAD_AT, t) == e + p + t + rest;
    assert e + p + t + rest == e + p + t + o + d[HEADER_SIZE + |o|..];
  }

  method WriteChecksum(data: array<byte>, s: Segment, ghost tail: seq<byte>)
    requires s.Valid() && data[..] == Packet(s, 0) + tail
    modifies data
    ensures data[..] == Emitted(s) + tail
  {
    hide Packet, ReceiverSum, Get16;
    Fields(s, 0);
    PacketWithChecksum(s, 0);
    SumOfPrefix(Packet(s, 0), tail);
    ZeroField(Packet(s, 0));
    var checksum := StoreChecksum(data, 16);
    PacketWithChecksum(s, checksum);
    UpdatePrefix(Packet(s, 0), tail, 70, checksum / 256);
    UpdatePrefix(Packet(s, 0)[70 := checksum / 256], tail, 71, checksum % 256);
    assert Emitted(s) == Packet(s, checksum);
  }

  lemma UpdatePrefix(a: seq<byte>, b: seq<byte>, i: nat, x: byte)
    requires i < |a|
    ensures (a + b)[i := x] == a[i := x] + b
  {
  }

  /** Bytes behind the packet do not count. */
  lemma SumOfPrefix(f: seq<byte>, tail: seq<byte>)
    requires |f| >= PAYLOAD_AT && |f| == PAYLOAD_AT + Get16(f, 18)
    ensures Get16(f + tail, 18) == Get16(f, 18) && ReceiverSum(f + tail) == ReceiverSum(f)
  {
    var g := f + tail;
    assert g[18] == f[18] && g[19] == f[19];
    assert g[22..38] == f[22..38] && g[38..54] == f[38..54] && g[18..20] == f[18..20];
    assert g[PAYLOAD_AT..|f|] == f[PAYLOAD_AT..|f|];
  }
}
