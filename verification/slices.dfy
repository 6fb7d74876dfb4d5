/** buffer_slice and buffer_unslice of src/buffer.c: a lower layer sees the middle part of a buffer as a buffer of
    its own, whose header is written into the bytes that the upper layer has reserved in front of it. */
module Slices {
  import opened Bytes
  import opened Buffers

  const STRUCT_SIZE := 8   // sizeof(buffer_t): ptr (4 bytes), max_size (2), data_size (2), little endian

  function Little16(s: seq<byte>, at: nat): uint16
    requires at + 2 <= |s|
  {
    s[at] as int + 256 * (s[at + 1] as int)
  }

  /** A `buffer_t *`: a buffer of the pool (off == 0), or a slice of it whose data starts at byte `off` of the
      storage and whose header is in the eight bytes before. */
  datatype Ref = Ref(buf: Buffer, off: nat) {
    ghost predicate Valid() {
      off == 0 || STRUCT_SIZE <= off <= buf.data.Length
    }

    function MaxSize(): int
      requires Valid()
      reads buf.data
    {
      if off == 0 then buf.MaxSize() else Little16(buf.data[..], off - 4)
    }

    function DataSize(): uint16
      requires Valid()
      reads buf`dataSize, buf.data
    {
      if off == 0 then buf.dataSize else Little16(buf.data[..], off - 2)
    }

    /** The storage really extends as far as the header says. */
    ghost predicate Fits()
      reads buf.data
    {
      Valid() && off + MaxSize() <= buf.data.Length
    }
  }

  /** The fields of a slice's header, low byte first, right in front of its data. */
  lemma HeaderInOctets(r: Ref)
    requires 8 <= r.off <= r.buf.data.Length
    ensures r.MaxSize() == r.buf.data[r.off - 4] as int + 256 * r.buf.data[r.off - 3] as int
    ensures r.DataSize() == r.buf.data[r.off - 2] as int + 256 * r.buf.data[r.off - 1] as int
  {
  }

  /** Byte i of the storage belongs to the header of the slice at `off`. */
  predicate InHeader(off: nat, i: nat) {
    off - STRUCT_SIZE <= i < off
  }

  twostate predicate OnlyChanged(data: array<byte>, lo: int, hi: int)
    reads data
  {
    forall i :: 0 <= i < data.Length && !(lo <= i < hi) ==> data[i] == old(data[i])
  }

  /** `r->data_size = n` */
  method SetDataSize(r: Ref, n: uint16)
    requires r.Valid()
    modifies r.buf`dataSize, r.buf.data
    ensures r.DataSize() == n && r.MaxSize() == old(r.MaxSize())
    ensures OnlyChanged(r.buf.data, if r.off == 0 then 0 else r.off - 2, r.off)
    ensures r.off > 0 ==> r.buf.dataSize == old(r.buf.dataSize)
  {
    if r.off == 0 {
      r.buf.dataSize := n;
    } else {
      r.buf.data[r.off - 2], r.buf.data[r.off - 1] := n % 256, n / 256;
    }
  }

  /** buffer_slice: writes nothing but the new header, which lies in the reserved prefix. */
  method BufferSlice(r: Ref, prefix: nat, suffix: nat) returns (inner: Ref)
    requires r.Fits() && prefix >= STRUCT_SIZE && prefix + suffix <= r.MaxSize() < 0x1_0000
    modifies r.buf.data
    ensures inner == Ref(r.buf, r.off + prefix) && inner.Fits()
    ensures inner.MaxSize() == r.MaxSize() - prefix - suffix
    ensures inner.DataSize() == if r.DataSize() >= prefix + suffix then r.DataSize() - prefix - suffix else 0
    ensures r.MaxSize() == old(r.MaxSize()) && r.DataSize() == old(r.DataSize())
    ensures OnlyChanged(r.buf.data, r.off + prefix - STRUCT_SIZE, r.off + prefix)
  {
    inner := Ref(r.buf, r.off + prefix);
    var max := r.MaxSize() - prefix - suffix;
    var size := if r.DataSize() >= prefix + suffix then r.DataSize() - prefix - suffix else 0;
    Store(r.buf.data, inner.off - STRUCT_SIZE, [0, 0, 0, 0, max % 256, max / 256, size % 256, size / 256]);
  }

  /** buffer_unslice: its assertion holds as long as nobody has touched the two headers. */
  method BufferUnslice(r: Ref, prefix: nat, suffix: nat) returns (outer: Ref)
    requires r.Valid() && prefix >= STRUCT_SIZE && r.off >= prefix && Ref(r.buf, r.off - prefix).Valid()
    requires Ref(r.buf, r.off - prefix).MaxSize() == r.MaxSize() + prefix + suffix
    modifies r.buf`dataSize, r.buf.data
    ensures outer == Ref(r.buf, r.off - prefix)
    ensures outer.MaxSize() == old(outer.MaxSize())
    ensures outer.DataSize() == (old(r.DataSize()) + prefix + suffix) % 0x1_0000
    ensures OnlyChanged(r.buf.data, if outer.off == 0 then 0 else outer.off - 2, outer.off)
    ensures outer.off > 0 ==> r.buf.dataSize == old(r.buf.dataSize)
  {
    outer := Ref(r.buf, r.off - prefix);
    SetDataSize(outer, (r.DataSize() + prefix + suffix) % 0x1_0000);
  }

  // ---------- any number of layers ----------

  /** What one layer keeps for itself in front of and behind the part that it hands down. */
  datatype Layer = Layer(prefix: nat, suffix: nat)

  function Reserved(layers: seq<Layer>): nat {
    if layers == [] then 0 else layers[0].prefix + layers[0].suffix + Reserved(layers[1..])
  }

  function Prefixes(layers: seq<Layer>): nat {
    if layers == [] then 0 else layers[0].prefix + Prefixes(layers[1..])
  }

  /** Byte i is in one of the headers of the slices cut at these layers, the outermost starting at `off`. */
  ghost predicate InSomeHeader(off: nat, layers: seq<Layer>, i: nat)
    decreases |layers|
  {
    layers != [] &&
    (InHeader(off + layers[0].prefix, i) || InSomeHeader(off + layers[0].prefix, layers[1..], i))
  }

  lemma {:induction false} HeadersInside(off: nat, layers: seq<Layer>, i: nat)
    requires forall k :: 0 <= k < |layers| ==> layers[k].prefix >= STRUCT_SIZE
    requires InSomeHeader(off, layers, i)
    ensures off <= i < off + Prefixes(layers)
    decreases |layers|
  {
    if !InHeader(off + layers[0].prefix, i) {
      HeadersInside(off + layers[0].prefix, layers[1..], i);
    }
  }

  /** Sending n bytes of payload through these layers writes the size field of the outer header, the headers of the
      slices, which lie in reserved bytes, and the payload: nothing else. */
  ghost predicate Wrote(was: seq<byte>, now: seq<byte>, off: nat, layers: seq<Layer>, n: nat) {
    |was| == |now| && forall i :: 0 <= i < |now| ==> now[i] == was[i] || MayWrite(off, layers, n, i)
  }

  ghost predicate MayWrite(off: nat, layers: seq<Layer>, n: nat, i: nat) {
    || off - 2 <= i < off
    || InSomeHeader(off, layers, i)
    || off + Prefixes(layers) <= i < off + Prefixes(layers) + n
  }

  lemma WroteBehind(was: seq<byte>, now: seq<byte>, off: nat, layers: seq<Layer>, n: nat)
    requires Wrote(was, now, off, layers, n)
    requires forall k :: 0 <= k < |layers| ==> layers[k].prefix >= STRUCT_SIZE
    ensures forall i :: 0 <= i < off - 2 && i < |now| ==> now[i] == was[i]
  {
    forall i: nat | InSomeHeader(off, layers, i)
      ensures off <= i
    {
      HeadersInside(off, layers, i);
    }
  }

  /** The outermost layer adds its own header to what the layers inside it write. */
  lemma WroteLayer(a: seq<byte>, b: seq<byte>, c: seq<byte>, d: seq<byte>, off: nat, layers: seq<Layer>, n: nat)
    requires layers != [] && layers[0].prefix >= STRUCT_SIZE && |a| == |b| && |c| == |d|
    requires forall i :: 0 <= i < |a| && !InHeader(off + layers[0].prefix, i) ==> b[i] == a[i]
    requires Wrote(b, c, off + layers[0].prefix, layers[1..], n)
    requires forall i :: 0 <= i < |c| && !(off - 2 <= i < off) ==> d[i] == c[i]
    ensures Wrote(a, d, off, layers, n)
  {
    forall i | 0 <= i < |d| && d[i] != a[i]
      ensures MayWrite(off, layers, n, i)
    {
      var inner := off + layers[0].prefix;
      assert off - 2 <= i < off || InHeader(inner, i) || MayWrite(inner, layers[1..], n, i);
    }
  }

  /** Slicing through any number of layers, filling the innermost slice and unslicing in reverse order loses
      nothing: the outer buffer has its size limit back, its contents have grown by exactly what the layers
      reserve, the payload is intact, and besides it only bytes that some layer has reserved were written. */
  method ThroughLayers(r: Ref, layers: seq<Layer>, payload: seq<byte>)
    requires r.Fits() && r.MaxSize() < 0x1_0000
    requires forall k :: 0 <= k < |layers| ==> layers[k].prefix >= STRUCT_SIZE
    requires Reserved(layers) + |payload| <= r.MaxSize()
    modifies r.buf`dataSize, r.buf.data
    ensures r.MaxSize() == old(r.MaxSize())
    ensures r.DataSize() == |payload| + Reserved(layers)
    ensures PayloadAt(r.buf.data[..], r.off + Prefixes(layers), payload)
    ensures Wrote(old(r.buf.data[..]), r.buf.data[..], r.off, layers, |payload|)
    ensures r.off > 0 ==> r.buf.dataSize == old(r.buf.dataSize)
    decreases |layers|
  {
    hide MayWrite, Little16, Reserved, Prefixes, InSomeHeader;
    LayerSums(layers);
    if layers == [] {
      Fill(r, payload);
    } else {
      var layer := layers[0];
      ghost var a: seq<byte> := r.buf.data[..];
      var inner := BufferSlice(r, layer.prefix, layer.suffix);
      ghost var b: seq<byte> := r.buf.data[..];
      label Sliced:
      ThroughLayers(inner, layers[1..], payload);
      ghost var c: seq<byte> := r.buf.data[..];
      WroteBehind(b, c, inner.off, layers[1..], |payload|);
      SizeKept@Sliced(r);
      var outer := BufferUnslice(inner, layer.prefix, layer.suffix);
      WroteLayer(a, b, c, r.buf.data[..], r.off, layers, |payload|);
      PayloadKept(c, r.buf.data[..], inner.off, payload, r.off + Prefixes(layers));
    }
  }

  lemma LayerSums(layers: seq<Layer>)
    ensures if layers == [] then Reserved(layers) == Prefixes(layers) == 0
            else Reserved(layers) == layers[0].prefix + layers[0].suffix + Reserved(layers[1..])
                 && Prefixes(layers) == layers[0].prefix + Prefixes(layers[1..])
  {
  }

  ghost predicate PayloadAt(s: seq<byte>, at: nat, payload: seq<byte>) {
    at + |payload| <= |s| && s[at..at + |payload|] == payload
  }

  lemma PayloadKept(c: seq<byte>, d: seq<byte>, behind: nat, payload: seq<byte>, at: nat)
    requires |c| == |d| && behind <= at && PayloadAt(c, at, payload)
    requires forall i :: behind <= i < |c| ==> d[i] == c[i]
    ensures PayloadAt(d, at, payload)
  {
    assert d[at..at + |payload|] == c[at..at + |payload|];
  }

  /** The owner of the innermost slice fills it. */
  method Fill(r: Ref, payload: seq<byte>)
    requires r.Fits() && |payload| <= r.MaxSize() < 0x1_0000
    modifies r.buf`dataSize, r.buf.data
    ensures r.MaxSize() == old(r.MaxSize()) && r.DataSize() == |payload|
    ensures PayloadAt(r.buf.data[..], r.off, payload)
    ensures OnlyChanged(r.buf.data, r.off - 2, r.off + |payload|)
    ensures Wrote(old(r.buf.data[..]), r.buf.data[..], r.off, [], |payload|)
    ensures r.off > 0 ==> r.buf.dataSize == old(r.buf.dataSize)
  {
    Store(r.buf.data, r.off, payload);
    ghost var c: seq<byte> := r.buf.data[..];
    SetDataSize(r, |payload|);
    PayloadKept(c, r.buf.data[..], r.off, payload, r.off);
  }

  twostate lemma SizeKept(r: Ref)
    requires r.Valid()
    requires forall i :: 0 <= i < r.off - 2 && i < r.buf.data.Length ==> r.buf.data[i] == old(r.buf.data[i])
    ensures r.MaxSize() == old(r.MaxSize())
  {
  }

  /** `r->data[r->data_size++] = b` */
  method PushByte(r: Ref, b: byte)
    requires r.Fits() && r.DataSize() < r.MaxSize() < 0x1_0000
    modifies r.buf`dataSize, r.buf.data
    ensures r.MaxSize() == old(r.MaxSize()) && r.DataSize() == old(r.DataSize()) + 1
    ensures r.buf.data[r.off..r.off + r.DataSize()] == old(r.buf.data[r.off..r.off + r.DataSize()]) + [b]
    ensures r.off > 0 ==> r.buf.dataSize == old(r.buf.dataSize)
  {
    var n := r.DataSize();
    r.buf.data[r.off + n] := b;
    label Stored:
    assert r.buf.data[r.off..r.off + n + 1] == old(r.buf.data[r.off..r.off + n]) + [b];
    SetDataSize(r, n + 1);
    assert r.buf.data[r.off..r.off + n + 1] == old@Stored(r.buf.data[r.off..r.off + n + 1]);
  }
}
