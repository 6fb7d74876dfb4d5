/** The pure framer and deframer of a USB bulk pipe: a frame is cut into 64-byte packets and
    ended by the first packet that is shorter (USB 2.0, section 5.8.3). */
module Framing {
  import opened Bytes

  const PACKET_SIZE := 64    // USBNET_USB_PACKET_SIZE
  const BUFFER_SIZE := 768   // USBNET_BUFFER_SIZE

  type Frame = seq<byte>
  type Packet = seq<byte>    // at most PACKET_SIZE bytes

  predicate Aligned(n: nat) {
    n % 64 == 0
  }

  // ---------- transmit side ----------

  function Packets(f: Frame): seq<Packet>
  {
    if |f| < PACKET_SIZE then [f] else [f[..PACKET_SIZE]] + Packets(f[PACKET_SIZE..])
  }

  function Framed(fs: seq<Frame>): seq<Packet>
  {
    if fs == [] then [] else Framed(fs[..|fs| - 1]) + Packets(fs[|fs| - 1])
  }

  /** A frame of n bytes takes floor(n / 64) + 1 packets. */
  lemma {:induction false} PacketCount(f: Frame)
    ensures |Packets(f)| == |f| / 64 + 1
  {
    if |f| >= PACKET_SIZE {
      PacketCount(f[PACKET_SIZE..]);
    }
  }

  lemma SliceOfDrop<T>(s: seq<T>, n: nat, lo: nat, hi: nat)
    requires n <= |s| && lo <= hi <= |s| - n
    ensures s[n..][lo..hi] == s[n + lo..n + hi]
  {
  }

  /** Packet number i of a frame is exactly its i-th 64-byte window. */
  lemma {:induction false} PacketAt(f: Frame, i: nat)
    requires i <= |f| / 64
    ensures |Packets(f)| == |f| / 64 + 1
    ensures Packets(f)[i] == f[PACKET_SIZE * i..Min(PACKET_SIZE * (i + 1), |f|)]
  {
    PacketCount(f);
    if i > 0 {
      var rest := f[PACKET_SIZE..];
      PacketAt(rest, i - 1);
      var lo, hi := PACKET_SIZE * (i - 1), Min(PACKET_SIZE * i, |rest|);
      SliceOfDrop(f, PACKET_SIZE, lo, hi);
    }
  }

  /** Only the last packet of a frame is short, so a reader can find the end of the frame. */
  lemma {:induction false} OneShortPacket(f: Frame)
    ensures forall i :: 0 <= i < |Packets(f)| ==> (|Packets(f)[i]| < PACKET_SIZE <==> i == |Packets(f)| - 1)
  {
    PacketCount(f);
    forall i | 0 <= i < |Packets(f)|
      ensures |Packets(f)[i]| < PACKET_SIZE <==> i == |Packets(f)| - 1
    {
      PacketAt(f, i);
    }
  }

  lemma FramedAppend(fs: seq<Frame>, f: Frame)
    ensures Framed(fs + [f]) == Framed(fs) + Packets(f)
  {
    assert (fs + [f])[..|fs|] == fs;
  }

  lemma {:induction false} FramedConcat(fs: seq<Frame>, gs: seq<Frame>)
    ensures Framed(fs + gs) == Framed(fs) + Framed(gs)
  {
    if gs == [] {
      assert fs + gs == fs;
    } else {
      var hs, g := gs[..|gs| - 1], gs[|gs| - 1];
      FramedConcat(fs, hs);
      assert Framed(fs + gs) == Framed(fs + hs) + Packets(g) by {
        assert fs + gs == (fs + hs) + [g];
        FramedAppend(fs + hs, g);
      }
      Assoc(Framed(fs), Framed(hs), Packets(g));
    }
  }

  // ---------- receive side ----------

  /** What the receiver queues for a complete frame. The byte counter is 16 bits wide, and a frame that
      leaves 768 or 769 in it is taken for a full buffer followed by its terminating packet. */
  function Accept(f: Frame): seq<Frame>
  {
    if |f| <= BUFFER_SIZE then [f]
    else if |f| % 0x1_0000 <= BUFFER_SIZE + 1 then [f[..BUFFER_SIZE]]
    else []
  }

  /** Frames that are too long for a buffer and are queued all the same: of 769 bytes, and of 65536. */
  lemma LongFrameQueued(f: Frame)
    requires |f| == 769 || |f| == 65536
    ensures |f| > BUFFER_SIZE && Accept(f) == [f[..BUFFER_SIZE]]
  {
  }

  datatype Deframer = Deframer(frames: seq<Frame>, partial: seq<byte>)

  function Feed(d: Deframer, p: Packet): Deframer
  {
    if |p| < PACKET_SIZE then Deframer(d.frames + Accept(d.partial + p), [])
    else Deframer(d.frames, d.partial + p)
  }

  function Deframe(ps: seq<Packet>): Deframer
  {
    if ps == [] then Deframer([], []) else Feed(Deframe(ps[..|ps| - 1]), ps[|ps| - 1])
  }

  lemma DeframeAppend(ps: seq<Packet>, p: Packet)
    ensures Deframe(ps + [p]) == Feed(Deframe(ps), p)
  {
    assert (ps + [p])[..|ps|] == ps;
  }

  /** Feeding the packets of one frame to a receiver that holds some bytes of it already. */
  lemma {:induction false} DeframeOne(ps: seq<Packet>, got: seq<byte>, f: Frame)
    requires Deframe(ps).partial == got
    ensures Deframe(ps + Packets(f)) == Deframer(Deframe(ps).frames + Accept(got + f), [])
    decreases |f|
  {
    if |f| < PACKET_SIZE {
      DeframeAppend(ps, f);
    } else {
      var p, rest := f[..PACKET_SIZE], f[PACKET_SIZE..];
      calc {
        Deframe(ps + Packets(f));
        { assert ps + Packets(f) == (ps + [p]) + Packets(rest); }
        Deframe((ps + [p]) + Packets(rest));
        { DeframeAppend(ps, p); DeframeOne(ps + [p], got + p, rest); }
        Deframer(Deframe(ps + [p]).frames + Accept((got + p) + rest), []);
        { DeframeAppend(ps, p); assert (got + p) + rest == got + f; }
        Deframer(Deframe(ps).frames + Accept(got + f), []);
      }
    }
  }

  function AcceptAll(fs: seq<Frame>): seq<Frame>
  {
    if fs == [] then [] else AcceptAll(fs[..|fs| - 1]) + Accept(fs[|fs| - 1])
  }

  /** Each frame is judged by its own length alone: nothing of one frame is left over for the next. */
  lemma {:induction false} DeframeFramed(fs: seq<Frame>)
    ensures Deframe(Framed(fs)) == Deframer(AcceptAll(fs), [])
  {
    if fs != [] {
      DeframeFramed(fs[..|fs| - 1]);
      var done := fs[..|fs| - 1];
      assert [] + fs[|fs| - 1] == fs[|fs| - 1];
      DeframeOne(Framed(done), [], fs[|fs| - 1]);
    }
  }

  lemma {:induction false} AcceptAllFit(fs: seq<Frame>)
    requires forall i :: 0 <= i < |fs| ==> |fs[i]| <= BUFFER_SIZE
    ensures AcceptAll(fs) == fs
  {
    if fs != [] {
      AcceptAllFit(fs[..|fs| - 1]);
    }
  }

  lemma {:induction false} AcceptAllConcat(fs: seq<Frame>, gs: seq<Frame>)
    ensures AcceptAll(fs + gs) == AcceptAll(fs) + AcceptAll(gs)
  {
    if gs == [] {
      assert fs + gs == fs;
    } else {
      var hs, g := gs[..|gs| - 1], gs[|gs| - 1];
      hide Accept;
      AcceptAllConcat(fs, hs);
      assert fs + gs == (fs + hs) + [g];
      AcceptAllAppend(fs + hs, g);
      Assoc(AcceptAll(fs), AcceptAll(hs), Accept(g));
    }
  }

  /** What becomes of a frame among others: it is queued whole, or cut to its first 768 bytes, or dropped. */
  lemma FateOfFrame(a: seq<Frame>, f: Frame, b: seq<Frame>)
    ensures Deframe(Framed(a + [f] + b)).frames
              == Deframe(Framed(a)).frames
                 + (if |f| <= 768 then [f] else if |f| % 65536 <= 769 then [f[..768]] else [])
                 + Deframe(Framed(b)).frames
  {
    hide Deframe, Framed, AcceptAll;
    DeframeFramed(a + [f] + b);
    DeframeFramed(a);
    DeframeFramed(b);
    AcceptAllConcat(a + [f], b);
    AcceptAllAppend(a, f);
  }

  /** A frame is dropped without a trace if and only if it is too long and does not leave 769 or less in a counter of 16
      bits: so is every frame of 770 to 65535 bytes. */
  lemma DroppedFrame(a: seq<Frame>, f: Frame, b: seq<Frame>)
    ensures Deframe(Framed(a + [f] + b)) == Deframe(Framed(a + b)) <==> |f| > 768 && |f| % 65536 > 769
    ensures 770 <= |f| < 65536 ==> Deframe(Framed(a + [f] + b)) == Deframe(Framed(a + b))
  {
    hide Deframe, Framed, AcceptAll;
    FateOfFrame(a, f, b);
    DeframeFramed(a + [f] + b);
    DeframeFramed(a + b);
    DeframeFramed(a);
    DeframeFramed(b);
    AcceptAllConcat(a, b);
    assert AcceptAll(a) + [] + AcceptAll(b) == AcceptAll(a) + AcceptAll(b);
  }

  /** Segmentation and reassembly undo each other for every list of frames that fit a buffer. */
  lemma RoundTrip(fs: seq<Frame>)
    requires forall i :: 0 <= i < |fs| ==> |fs[i]| <= BUFFER_SIZE
    ensures Deframe(Framed(fs)) == Deframer(fs, [])
  {
    DeframeFramed(fs);
    AcceptAllFit(fs);
  }

  /** Reassembly only ever adds frames as more packets arrive. */
  lemma {:induction false} DeframeMonotone(ps: seq<Packet>, qs: seq<Packet>)
    ensures Deframe(ps).frames <= Deframe(ps + qs).frames
  {
    if qs == [] {
      assert ps + qs == ps;
    } else {
      var rs := qs[..|qs| - 1];
      DeframeMonotone(ps, rs);
      DeframeAppend(ps + rs, qs[|qs| - 1]);
      assert ps + qs == (ps + rs) + [qs[|qs| - 1]];
    }
  }

  /** Cut off anywhere, a stream of packets still yields a prefix of the frames that were framed. */
  lemma PrefixRoundTrip(fs: seq<Frame>, ps: seq<Packet>)
    requires forall i :: 0 <= i < |fs| ==> |fs[i]| <= BUFFER_SIZE
    requires ps <= Framed(fs)
    ensures Deframe(ps).frames <= fs
  {
    RoundTrip(fs);
    var qs := Framed(fs)[|ps|..];
    assert ps + qs == Framed(fs);
    DeframeMonotone(ps, qs);
  }

  /** The packets of `t` that are full, for a frame whose length is a multiple of 64. */
  function FullPackets(t: Frame): seq<Packet>
  {
    if |t| < PACKET_SIZE then [] else [t[..PACKET_SIZE]] + FullPackets(t[PACKET_SIZE..])
  }

  lemma {:induction false} PacketsExtend(t: Frame, p: Packet)
    requires Aligned(|t|) && |p| <= PACKET_SIZE
    ensures |p| < PACKET_SIZE ==> Packets(t + p) == FullPackets(t) + [p]
    ensures |p| == PACKET_SIZE ==> FullPackets(t + p) == FullPackets(t) + [p]
  {
    if t == [] {
      assert t + p == p;
      assert p[..|p|] == p;
    } else {
      var u := t[PACKET_SIZE..];
      PacketsExtend(u, p);
      assert (t + p)[..PACKET_SIZE] == t[..PACKET_SIZE];
      assert (t + p)[PACKET_SIZE..] == u + p;
    }
  }

  /** Every packet sequence is the framing of some frames followed by full packets of an unfinished one,
      and the deframer finds exactly these frames and that unfinished part. */
  lemma {:induction false} Decompose(ps: seq<Packet>) returns (fs: seq<Frame>, tail: Frame)
    requires forall i :: 0 <= i < |ps| ==> |ps[i]| <= PACKET_SIZE
    ensures Aligned(|tail|)
    ensures ps == Framed(fs) + FullPackets(tail)
    ensures Deframe(ps) == Deframer(AcceptAll(fs), tail)
  {
    hide Framed, FullPackets, AcceptAll, Accept, Deframe, Feed;
    if ps == [] {
      fs, tail := [], [];
      NothingYet();
    } else {
      var qs, p := ps[..|ps| - 1], ps[|ps| - 1];
      var gs, t := Decompose(qs);
      fs, tail := Extended(gs, t, p);
      assert ps == qs + [p];
      DeframeAppend(qs, p);
    }
  }

  lemma NothingYet()
    ensures Framed([]) == [] && FullPackets([]) == [] && Deframe([]) == Deframer(AcceptAll([]), [])
  {
  }

  lemma Extended(gs: seq<Frame>, t: Frame, p: Packet) returns (fs: seq<Frame>, tail: Frame)
    requires Aligned(|t|) && |p| <= PACKET_SIZE
    ensures Aligned(|tail|)
    ensures Framed(fs) + FullPackets(tail) == Framed(gs) + FullPackets(t) + [p]
    ensures Deframer(AcceptAll(fs), tail) == Feed(Deframer(AcceptAll(gs), t), p)
  {
    hide Framed, FullPackets, Packets, AcceptAll, Accept;
    PacketsExtend(t, p);
    Assoc(Framed(gs), FullPackets(t), [p]);
    NothingYet();
    if |p| < PACKET_SIZE {
      fs, tail := gs + [t + p], [];
      FramedAppend(gs, t + p);
      AcceptAllAppend(gs, t + p);
    } else {
      fs, tail := gs, t + p;
      assert |tail| == |t| + 64;
    }
  }

  lemma Assoc<T>(a: seq<T>, b: seq<T>, c: seq<T>)
    ensures (a + b) + c == a + (b + c)
  {
  }

  lemma AcceptAllAppend(fs: seq<Frame>, f: Frame)
    ensures AcceptAll(fs + [f]) == AcceptAll(fs) + Accept(f)
  {
    assert (fs + [f])[..|fs|] == fs;
  }

  lemma {:induction false} FullPacketCount(t: Frame)
    ensures |FullPackets(t)| == |t| / 64
  {
    if |t| >= PACKET_SIZE {
      FullPacketCount(t[PACKET_SIZE..]);
    }
  }

  /** The packets of frame number d come right behind those of the frames before it. */
  lemma FramedStep(fs: seq<Frame>, d: nat)
    requires d < |fs|
    ensures Framed(fs[..d + 1]) == Framed(fs[..d]) + Packets(fs[d])
    ensures |Framed(fs[..d + 1])| == |Framed(fs[..d])| + |fs[d]| / 64 + 1
  {
    assert fs[..d + 1] == fs[..d] + [fs[d]];
    FramedAppend(fs[..d], fs[d]);
    PacketCount(fs[d]);
  }

  lemma NothingSent(ps: seq<Packet>, f: Frame)
    ensures ps == ps + FullPackets(f[..0])
  {
  }

  /** One more packet of frame number d, of which w bytes are on the wire already. */
  lemma NextPacket(fs: seq<Frame>, d: nat, w: nat, n: nat)
    requires d < |fs| && Aligned(w) && w <= |fs[d]| && n == Min(PACKET_SIZE, |fs[d]| - w)
    ensures var f, p := fs[d], fs[d][w..w + n];
            var before := Framed(fs[..d]) + FullPackets(f[..w]);
            && (n < PACKET_SIZE ==> before + [p] == Framed(fs[..d + 1]))
            && (n == PACKET_SIZE ==> before + [p] == Framed(fs[..d]) + FullPackets(f[..w + n]))
  {
    var f, p := fs[d], fs[d][w..w + n];
    assert f[..w] + p == f[..w + n];
    PacketsExtend(f[..w], p);
    Assoc(Framed(fs[..d]), FullPackets(f[..w]), [p]);
    if n < PACKET_SIZE {
      assert f[..w + n] == f;
      assert fs[..d + 1] == fs[..d] + [f];
      FramedAppend(fs[..d], f);
    }
  }

  lemma {:induction false} SplitPackets(f: Frame, w: nat)
    requires Aligned(w) && w <= |f|
    ensures FullPackets(f[..w]) + Packets(f[w..]) == Packets(f)
    decreases w
  {
    if w == 0 {
      assert f[0..] == f;
    } else {
      var g := f[PACKET_SIZE..];
      SplitPackets(g, w - PACKET_SIZE);
      assert g[w - PACKET_SIZE..] == f[w..];
      assert f[..w][PACKET_SIZE..] == g[..w - PACKET_SIZE];
      assert f[..w][..PACKET_SIZE] == f[..PACKET_SIZE];
    }
  }

  /** Longer prefixes of a list of frames take more packets. */
  lemma {:induction false} FramedMonotone(fs: seq<Frame>, a: nat, b: nat)
    requires a <= b <= |fs|
    ensures |Framed(fs[..a])| <= |Framed(fs[..b])|
    decreases b
  {
    if a < b {
      FramedMonotone(fs, a, b - 1);
      FramedStep(fs, b - 1);
    }
  }

  /** The state of the receiver after complete frames and the full packets of an unfinished one. */
  lemma {:induction false} DeframeStream(fs: seq<Frame>, tail: Frame)
    requires Aligned(|tail|)
    ensures Deframe(Framed(fs) + FullPackets(tail)) == Deframer(AcceptAll(fs), tail)
    decreases |tail|
  {
    if tail == [] {
      assert Framed(fs) + [] == Framed(fs);
      DeframeFramed(fs);
    } else {
      var t, p := tail[..|tail| - 64], tail[|tail| - 64..];
      assert t + p == tail && Aligned(|t|);
      DeframeStream(fs, t);
      PacketsExtend(t, p);
      Assoc(Framed(fs), FullPackets(t), [p]);
      DeframeAppend(Framed(fs) + FullPackets(t), p);
    }
  }
}
