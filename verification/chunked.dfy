/** The chunked transfer coding (RFC 9112, section 7.1), as src/http.c writes it and as a client reads it. */
module Chunked {
  import opened Bytes

  const CR: byte := 13
  const LF: byte := 10
  const LAST_CHUNK: seq<byte> := [48, CR, LF, CR, LF]   // "0\r\n\r\n"

  // ---------- writing ----------

  function HexDigit(d: nat): byte
    requires d < 16
  {
    if d < 10 then 48 + d else 87 + d
  }

  /** printf("%0*x", width, n) for an n that fits */
  function Hex(n: nat, width: nat): (s: seq<byte>)
    ensures |s| == width
  {
    if width == 0 then [] else Hex(n / 16, width - 1) + [HexDigit(n % 16)]
  }

  /** One chunk, with its size in eight digits. */
  function Chunk(body: seq<byte>): seq<byte> {
    Hex(|body|, 8) + [CR, LF] + body + [CR, LF]
  }

  function Encoded(chunks: seq<seq<byte>>): seq<byte> {
    if chunks == [] then [] else Encoded(chunks[..|chunks| - 1]) + Chunk(chunks[|chunks| - 1])
  }

  function Flatten(chunks: seq<seq<byte>>): seq<byte> {
    if chunks == [] then [] else Flatten(chunks[..|chunks| - 1]) + chunks[|chunks| - 1]
  }

  // ---------- reading ----------

  predicate IsHex(b: byte) {
    48 <= b <= 57 || 97 <= b <= 102 || 65 <= b <= 70
  }

  function HexValue(b: byte): nat
    requires IsHex(b)
  {
    if b <= 57 then b - 48 else if b <= 70 then b - 55 else b - 87
  }

  /** Reads hexadecimal digits as far as they go; `value` is the number read so far. */
  function ScanHex(s: seq<byte>, value: nat): (nat, seq<byte>)
  {
    if s != [] && IsHex(s[0]) then ScanHex(s[1..], 16 * value + HexValue(s[0])) else (value, s)
  }

  datatype Message = Malformed | Message(chunks: seq<seq<byte>>, rest: seq<byte>)

  /** A chunked message without extensions and trailers, and what follows it. */
  function Decode(s: seq<byte>): Message
    decreases |s|
  {
    if s == [] || !IsHex(s[0]) then Malformed
    else
      var (size, t) := ScanHex(s, 0);
      ScanShrinks(s, 0);
      if |t| < size + 4 || t[0] != CR || t[1] != LF || t[2 + size] != CR || t[3 + size] != LF then Malformed
      else if size == 0 then Message([], t[4..])
      else match Decode(t[4 + size..])
        case Malformed => Malformed
        case Message(chunks, rest) => Message([t[2..2 + size]] + chunks, rest)
  }

  lemma {:induction false} ScanShrinks(s: seq<byte>, value: nat)
    ensures |ScanHex(s, value).1| <= |s|
  {
    if s != [] && IsHex(s[0]) {
      ScanShrinks(s[1..], 16 * value + HexValue(s[0]));
    }
  }

  function Pow16(w: nat): nat {
    if w == 0 then 1 else 16 * Pow16(w - 1)
  }

  lemma {:induction false} ScanReadsHex(n: nat, width: nat, rest: seq<byte>)
    requires n < Pow16(width)
    ensures ScanHex(Hex(n, width) + rest, 0) == ScanHex(rest, n)
  {
    if width == 0 {
      assert Hex(n, 0) + rest == rest;
    } else {
      var d := HexDigit(n % 16);
      assert Hex(n, width) + rest == Hex(n / 16, width - 1) + ([d] + rest);
      ScanReadsHex(n / 16, width - 1, [d] + rest);
      assert ([d] + rest)[1..] == rest;
      DigitValue(n % 16);
    }
  }

  lemma DigitValue(d: nat)
    requires d < 16
    ensures IsHex(HexDigit(d)) && HexValue(HexDigit(d)) == d
  {
  }

  lemma {:induction false} FirstDigitIsHex(n: nat, width: nat)
    requires width > 0
    ensures IsHex(Hex(n, width)[0])
  {
    if width > 1 {
      FirstDigitIsHex(n / 16, width - 1);
    }
  }

  lemma SizeDigits()
    ensures Hex(682, 8) == [48, 48, 48, 48, 48, 50, 97, 97] && Hex(32, 8) == [48, 48, 48, 48, 48, 48, 50, 48]
  {
    assert Hex(0, 5) == [48, 48, 48, 48, 48];
    assert Hex(682, 8) == Hex(0, 5) + [50, 97, 97];
    assert Hex(32, 8) == Hex(0, 5) + [48, 50, 48];
  }

  /** A reader takes off one chunk at a time. */
  lemma DecodeChunk(body: seq<byte>, rest: seq<byte>)
    requires 0 < |body| < 0x1_0000_0000
    ensures Decode(Chunk(body) + rest) ==
            match Decode(rest) case Malformed => Malformed case Message(cs, r) => Message([body] + cs, r)
  {
    hide Hex, ScanHex, Pow16;
    var s := Chunk(body) + rest;
    var tail := [CR, LF] + body + [CR, LF] + rest;
    assert s == Hex(|body|, 8) + tail;
    FirstDigitIsHex(|body|, 8);
    EightDigits();
    ScanReadsHex(|body|, 8, tail);
    ScanStops(tail, |body|);
    assert tail[2..2 + |body|] == body && tail[4 + |body|..] == rest;
  }

  lemma EightDigits()
    ensures Pow16(8) == 0x1_0000_0000
  {
    assert Pow16(2) == 256;
    assert Pow16(4) == 0x1_0000;
    assert Pow16(6) == 0x100_0000;
  }

  lemma ScanStops(s: seq<byte>, value: nat)
    requires s != [] && s[0] == CR
    ensures ScanHex(s, value) == (value, s)
  {
  }

  lemma DecodeLast(rest: seq<byte>)
    ensures Decode(LAST_CHUNK + rest) == Message([], rest)
  {
    var s := LAST_CHUNK + rest;
    assert s[0] == 48 && s[1..] == [CR, LF, CR, LF] + rest;
    ScanStops(s[1..], 0);
    assert s[1..][4..] == rest;
  }

  lemma {:induction false} EncodedFirst(chunks: seq<seq<byte>>)
    requires chunks != []
    ensures Encoded(chunks) == Chunk(chunks[0]) + Encoded(chunks[1..])
    decreases |chunks|
  {
    hide Chunk;
    var init := chunks[..|chunks| - 1];
    if init == [] {
      assert chunks[1..] == [];
      assert Encoded(init) == [];
    } else {
      EncodedFirst(init);
      assert init[1..] == chunks[1..][..|chunks| - 2];
    }
  }

  /** Reading undoes writing: any sequence of non-empty chunks with the last chunk behind it is read as these chunks,
      whatever follows. */
  lemma {:induction false} DecodeInvertsEncode(chunks: seq<seq<byte>>, rest: seq<byte>)
    requires forall i :: 0 <= i < |chunks| ==> 0 < |chunks[i]| < 0x1_0000_0000
    ensures Decode(Encoded(chunks) + LAST_CHUNK + rest) == Message(chunks, rest)
    decreases |chunks|
  {
    hide Chunk, Decode;
    if chunks == [] {
      assert Encoded([]) + LAST_CHUNK + rest == LAST_CHUNK + rest;
      DecodeLast(rest);
    } else {
      EncodedFirst(chunks);
      DecodeInvertsEncode(chunks[1..], rest);
      DecodeChunk(chunks[0], Encoded(chunks[1..]) + LAST_CHUNK + rest);
      assert Encoded(chunks) + LAST_CHUNK + rest == Chunk(chunks[0]) + (Encoded(chunks[1..]) + LAST_CHUNK + rest);
      assert [chunks[0]] + chunks[1..] == chunks;
    }
  }
}
