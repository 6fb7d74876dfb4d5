/** Octets and the fixed-width integers that the firmware stores in memory and on the wire. */
module Bytes {

  type byte = x: int | 0 <= x < 256
  type uint16 = x: int | 0 <= x < 0x1_0000
  type uint32 = x: int | 0 <= x < 0x1_0000_0000

  function Min(a: int, b: int): (m: int)
    ensures m <= a && m <= b && (m == a || m == b)
  {
    if a < b then a else b
  }

  // ---------- big-endian fields (network_std.h) ----------

  function Put16(x: uint16): (s: seq<byte>)
    ensures |s| == 2 && Get16(s, 0) == x
  {
    [x / 256, x % 256]
  }

  function Put32(x: uint32): (s: seq<byte>)
    ensures |s| == 4 && Get32(s, 0) == x
  {
    Put16(x / 0x1_0000) + Put16(x % 0x1_0000)
  }

  function Get16(s: seq<byte>, at: nat): uint16
    requires at + 2 <= |s|
  {
    256 * (s[at] as int) + s[at + 1] as int
  }

  function Get32(s: seq<byte>, at: nat): uint32
    requires at + 4 <= |s|
  {
    0x1_0000 * (Get16(s, at) as int) + Get16(s, at + 2) as int
  }

  /** The most significant byte of a field comes first, */
  lemma StoredInOrder(a: byte, b: byte, c: byte, d: byte)
    ensures Put16(0x100 * a + b) == [a, b]
    ensures Put32(0x100_0000 * a + 0x1_0000 * b + 0x100 * c + d) == [a, b, c, d]
  {
    assert (0x100_0000 * a + 0x1_0000 * b + 0x100 * c + d) / 0x1_0000 == 0x100 * a + b;
  }

  /** and is read first. */
  lemma ReadInOrder(s: seq<byte>, at: nat)
    ensures at + 2 <= |s| ==> Get16(s, at) == 0x100 * s[at] as int + s[at + 1]
    ensures at + 4 <= |s| ==>
              Get32(s, at) == 0x100_0000 * s[at] as int + 0x1_0000 * s[at + 1] as int
                              + 0x100 * s[at + 2] as int + s[at + 3]
    ensures at + 2 <= |s| ==> s[at..at + 2] == Put16(Get16(s, at))
    ensures at + 4 <= |s| ==> s[at..at + 4] == Put32(Get32(s, at))
  {
    if at + 2 <= |s| {
      StoredInOrder(0, 0, s[at], s[at + 1]);
      assert Put16(Get16(s, at)) == [s[at], s[at + 1]];
    }
    if at + 4 <= |s| {
      StoredInOrder(s[at], s[at + 1], s[at + 2], s[at + 3]);
    }
  }

  /** The bytes d after s has been stored at position `at`. */
  function Overlaid(d: seq<byte>, at: nat, s: seq<byte>): (e: seq<byte>)
    requires at + |s| <= |d|
    ensures |e| == |d|
  {
    d[..at] + s + d[at + |s|..]
  }

  /** memcpy into an array */
  method Store(data: array<byte>, at: nat, s: seq<byte>)
    requires at + |s| <= data.Length
    modifies data
    ensures data[..] == Overlaid(old(data[..]), at, s)
  {
    forall i | 0 <= i < |s| {
      data[at + i] := s[i];
    }
  }
}
