/** The Internet checksum of src/tcpip.c (RFC 1071; RFC 8200, section 8.1; RFC 4443, section 2.3). */
module Checksum {
  import opened Bytes

  // ---------- reference: sums of big-endian 16-bit words ----------

  /** Value of the octets as 16-bit big-endian words, an odd last octet being the high half of its word. */
  function WordSum(s: seq<byte>): nat
  {
    if s == [] then 0
    else WordSum(s[..|s| - 1]) + Octet(s[|s| - 1], |s| - 1)
  }

  /** Contribution of one octet at position i: high half of its word if i is even. */
  function Octet(b: byte, i: nat): nat
  {
    if i % 2 == 1 then b else 256 * (b as int)
  }

  /** The one's complement sum of words whose plain sum is n: the number from 1 to 65535 congruent to n,
      and 0 only for 0. */
  function OnesComplement(n: nat): uint16
  {
    if n == 0 then 0 else (n - 1) % 65535 + 1
  }

  lemma {:induction false} WordSumBound(s: seq<byte>)
    ensures 2 * WordSum(s) <= 65535 * (|s| + 1)
  {
    if |s| >= 2 {
      var t := s[..|s| - 2];
      WordSumBound(t);
      assert s[..|s| - 1][..|s| - 2] == t;
      WordSumTwo(s);
    }
  }

  /** The last two octets of an even number make up one word. */
  lemma WordSumTwo(s: seq<byte>)
    requires |s| >= 2
    ensures WordSum(s) == WordSum(s[..|s| - 2]) + Octet(s[|s| - 2], |s| - 2) + Octet(s[|s| - 1], |s| - 1)
  {
    var t := s[..|s| - 1];
    assert t[..|t| - 1] == s[..|s| - 2];
  }

  lemma WordSumPush(s: seq<byte>, b: byte)
    ensures WordSum(s + [b]) == WordSum(s) + Octet(b, |s|)
  {
    assert (s + [b])[..|s|] == s;
  }

  lemma OctetShift(b: byte, m: nat, i: nat)
    requires m % 2 == 0
    ensures Octet(b, m + i) == Octet(b, i)
  {
  }

  lemma {:induction false} WordSumConcat(a: seq<byte>, b: seq<byte>)
    requires |a| % 2 == 0
    ensures WordSum(a + b) == WordSum(a) + WordSum(b)
  {
    if b == [] {
      assert a + b == a;
    } else {
      var c, x := b[..|b| - 1], b[|b| - 1];
      WordSumConcat(a, c);
      WordSumPush(a + c, x);
      OctetShift(x, |a|, |c|);
      assert a + b == (a + c) + [x];
    }
  }

  /** Storing a word where there was a zero word adds its value, as long as it starts at an even offset. */
  lemma WordSumStore(s: seq<byte>, at: nat, hi: byte, lo: byte)
    requires at % 2 == 0 && at + 2 <= |s| && s[at] == 0 && s[at + 1] == 0
    ensures WordSum(s[at := hi][at + 1 := lo]) == WordSum(s) + 256 * (hi as int) + lo as int
  {
    var a, b := s[..at], s[at + 2..];
    assert s == a + ([0, 0] + b);
    assert s[at := hi][at + 1 := lo] == a + ([hi, lo] + b);
    WordSumSpliced(a, 0, 0, b);
    WordSumSpliced(a, hi, lo, b);
  }

  lemma WordSumSpliced(a: seq<byte>, hi: byte, lo: byte, b: seq<byte>)
    requires |a| % 2 == 0
    ensures WordSum(a + ([hi, lo] + b)) == WordSum(a) + 256 * (hi as int) + lo as int + WordSum(b)
  {
    WordSumConcat(a, [hi, lo] + b);
    WordSumConcat([hi, lo], b);
    WordSumPush([], hi);
    WordSumPush([hi], lo);
    assert [] + [hi] == [hi] && [hi] + [lo] == [hi, lo];
  }

  /** It is the plain sum modulo 65535, where 65535 stands for zero unless nothing at all was added up. */
  lemma OnesComplementIsResidue(n: nat)
    ensures OnesComplement(n) % 65535 == n % 65535
    ensures OnesComplement(n) == 0 <==> n == 0
  {
    if n > 0 {
      var q, r := (n - 1) / 65535, (n - 1) % 65535;
      assert n == 65535 * q + (r + 1);
      Residue(q, r + 1);
    }
  }

  lemma Residue(q: nat, m: nat)
    ensures (65535 * q + m) % 65535 == m % 65535
  {
    var k := m / 65535;
    assert 65535 * q + m == 65535 * (q + k) + m % 65535;
  }

  /** Two octets make up a word, the first one its high half; a single last octet is the high half of its word. */
  lemma WordSumWords(hi: byte, lo: byte, rest: seq<byte>)
    ensures WordSum([]) == 0 && WordSum([hi]) == 256 * hi as int
    ensures WordSum([hi, lo] + rest) == 256 * hi as int + lo as int + WordSum(rest)
  {
    WordSumSpliced([], hi, lo, rest);
    assert [] + ([hi, lo] + rest) == [hi, lo] + rest;
  }

  /** A sum and its complemented one's complement sum make up all ones, which is what the receiver checks. */
  lemma ComplementFolds(n: nat)
    ensures OnesComplement(n + (0xFFFF - OnesComplement(n))) == 0xFFFF
  {
    if n > 0 {
      var q := (n - 1) / 65535;
      assert n + (0xFFFF - OnesComplement(n)) == 65535 * (q + 1);
      assert (65535 * (q + 1) - 1) % 65535 == 65534 by {
        assert 65535 * (q + 1) - 1 == 65535 * q + 65534;
      }
    }
  }

  // ---------- the code ----------

  /** ipsum: the running sum is 32 bits wide and never wraps for a length that fits a packet. */
  method Ipsum(data: array<byte>, at: nat, length: nat) returns (sum: uint32)
    requires at + length <= data.Length && length < 0x1_0000
    ensures sum == WordSum(data[at..at + length])
  {
    sum := 0;
    for i := 0 to length
      invariant sum == WordSum(data[at..at + i])
    {
      var term := Octet(data[at + i], i);   // bytes[i] << ((i & 1) ? 0 : 8)
      assert data[at..at + i + 1][..i] == data[at..at + i];
      WordSumBound(data[at..at + i + 1]);
      assert sum + term == WordSum(data[at..at + i + 1]);
      sum := (sum + term) % 0x1_0000_0000;
    }
  }

  /** foldsum: the loop ends, and its result is the complement of the one's complement sum. */
  method FoldSum(n: uint32) returns (checksum: uint16)
    ensures checksum == 0xFFFF - OnesComplement(n)
    ensures (checksum + n) % 65535 == 0 && (checksum == 0xFFFF <==> n == 0)
  {
    var sum := n;
    while sum / 0x1_0000 != 0
      invariant OnesComplement(sum) == OnesComplement(n)
      decreases sum
    {
      var next := sum % 0x1_0000 + sum / 0x1_0000;
      FoldStep(sum);
      sum := next;
    }
    checksum := 0xFFFF - sum;
    OnesComplementIsResidue(n);
    Residue(n / 65535, n % 65535 + checksum);
  }

  lemma FoldStep(n: nat)
    requires n >= 0x1_0000
    ensures n % 0x1_0000 + n / 0x1_0000 < n
    ensures OnesComplement(n % 0x1_0000 + n / 0x1_0000) == OnesComplement(n)
  {
    var h, l := n / 0x1_0000, n % 0x1_0000;
    var m := h + l;
    assert n - m == 65535 * h;
    SameResidue(m, h);
  }

  lemma {:induction false} SameResidue(m: nat, h: nat)
    requires m > 0
    ensures OnesComplement(m + 65535 * h) == OnesComplement(m)
  {
    if h > 0 {
      SameResidue(m, h - 1);
      assert (m + 65535 * h - 1) == (m + 65535 * (h - 1) - 1) + 65535;
    }
  }
}
