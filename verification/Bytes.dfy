/** Little-endian 32-bit words in byte sequences, and the byte-wise comparison and carry chain of
    timelock.dfy. */
module Bytes {
  newtype byte = x: int | 0 <= x < 256

  type u32 = x: int | 0 <= x < 0x1_0000_0000

  function Int(b: byte): (n: nat)
    ensures n < 256
  {
    b as int
  }

  /** The word that four bytes hold, least significant first. */
  function Word4(b0: byte, b1: byte, b2: byte, b3: byte): u32 {
    Int(b0) + 256 * Int(b1) + 65536 * Int(b2) + 16777216 * Int(b3)
  }

  function U32(s: seq<byte>, o: nat): u32
    requires o + 4 <= |s|
  {
    Word4(s[o], s[o + 1], s[o + 2], s[o + 3])
  }

  /** uint32_to_bytes */
  function Bytes32(v: u32): (b: seq<byte>)
    ensures |b| == 4
  {
    [(v % 256) as byte, (v / 256 % 256) as byte, (v / 65536 % 256) as byte, (v / 16777216) as byte]
  }

  /** s with the bytes from o on replaced by piece. */
  function Patch(s: seq<byte>, o: nat, piece: seq<byte>): (r: seq<byte>)
    requires o + |piece| <= |s|
    ensures |r| == |s|
  {
    s[..o] + piece + s[o + |piece|..]
  }

  lemma DigitsOf(v: nat)
    ensures v == v % 256 + 256 * (v / 256 % 256) + 65536 * (v / 65536 % 256) + 16777216 * (v / 16777216)
  {
    assert v / 65536 == v / 256 / 256;
    assert v / 16777216 == v / 65536 / 256;
  }

  lemma WordRoundTrip(v: u32)
    ensures U32(Bytes32(v), 0) == v
  {
    DigitsOf(v);
  }

  lemma WordIsInjective(a0: byte, a1: byte, a2: byte, a3: byte, b0: byte, b1: byte, b2: byte, b3: byte)
    requires Word4(a0, a1, a2, a3) == Word4(b0, b1, b2, b3)
    ensures a0 == b0 && a1 == b1 && a2 == b2 && a3 == b3
  {
    hide Int;
    LowDigit(Int(a0), Int(a1) + 256 * Int(a2) + 65536 * Int(a3), Int(b0), Int(b1) + 256 * Int(b2) + 65536 * Int(b3));
    LowDigit(Int(a1), Int(a2) + 256 * Int(a3), Int(b1), Int(b2) + 256 * Int(b3));
    LowDigit(Int(a2), Int(a3), Int(b2), Int(b3));
    IntIsInjective(a0, b0);
    IntIsInjective(a1, b1);
    IntIsInjective(a2, b2);
    IntIsInjective(a3, b3);
  }

  lemma LowDigit(x: nat, y: nat, x': nat, y': nat)
    requires x < 256 && x' < 256 && x + 256 * y == x' + 256 * y'
    ensures x == x' && y == y'
  {
  }

  lemma IntIsInjective(a: byte, b: byte)
    requires Int(a) == Int(b)
    ensures a == b
  {
  }

  lemma BytesRoundTrip(s: seq<byte>, o: nat)
    requires o + 4 <= |s|
    ensures Bytes32(U32(s, o)) == s[o..o + 4]
  {
    var b := Bytes32(U32(s, o));
    WordRoundTrip(U32(s, o));
    WordIsInjective(b[0], b[1], b[2], b[3], s[o], s[o + 1], s[o + 2], s[o + 3]);
  }

  lemma IntOf(b: byte)
    ensures b == 0 ==> Int(b) == 0
    ensures b == 1 ==> Int(b) == 1
  {
  }

  lemma LowWord(s: seq<byte>, o: nat)
    requires o + 4 <= |s| && Int(s[o + 1]) == 0 && Int(s[o + 2]) == 0 && Int(s[o + 3]) == 0
    ensures U32(s, o) == Int(s[o])
  {
    hide Int;
  }

  // ---- Byte-wise predicates ----

  /** GreaterThanBytes: from the most significant byte down. */
  predicate GreaterBytes(a: seq<byte>, i: nat, b: seq<byte>, j: nat)
    requires i + 4 <= |a| && j + 4 <= |b|
  {
    if a[i + 3] != b[j + 3] then a[i + 3] > b[j + 3]
    else if a[i + 2] != b[j + 2] then a[i + 2] > b[j + 2]
    else if a[i + 1] != b[j + 1] then a[i + 1] > b[j + 1]
    else a[i] > b[j]
  }

  lemma GreaterBytesIsGreater(a: seq<byte>, i: nat, b: seq<byte>, j: nat)
    requires i + 4 <= |a| && j + 4 <= |b|
    ensures GreaterBytes(a, i, b, j) <==> U32(a, i) > U32(b, j)
  {
  }

  /** IsOddBytes */
  predicate OddBytes(a: seq<byte>, i: nat)
    requires i + 4 <= |a|
  {
    a[i] % 2 == 1
  }

  lemma OddBytesIsOdd(a: seq<byte>, i: nat)
    requires i + 4 <= |a|
    ensures OddBytes(a, i) <==> U32(a, i) % 2 == 1
  {
    assert U32(a, i) == Int(a[i]) + 2 * (128 * Int(a[i + 1]) + 32768 * Int(a[i + 2]) + 8388608 * Int(a[i + 3]));
  }

  /** WouldOverflowBytes: the carry out of the top byte. */
  predicate WouldOverflow(a: seq<byte>, i: nat, b: seq<byte>, j: nat)
    requires i + 4 <= |a| && j + 4 <= |b|
  {
    var carry0 := (Int(a[i]) + Int(b[j])) / 256;
    var carry1 := (Int(a[i + 1]) + Int(b[j + 1]) + carry0) / 256;
    var carry2 := (Int(a[i + 2]) + Int(b[j + 2]) + carry1) / 256;
    var carry3 := (Int(a[i + 3]) + Int(b[j + 3]) + carry2) / 256;
    carry3 > 0
  }

  /** The carry chain halts the gatekeeper exactly when the two words sum to 2^32 or more. */
  lemma OverflowIsCarry(a: seq<byte>, i: nat, b: seq<byte>, j: nat)
    requires i + 4 <= |a| && j + 4 <= |b|
    ensures WouldOverflow(a, i, b, j) <==> U32(a, i) + U32(b, j) >= 0x1_0000_0000
  {
    ChainOfCarries(Int(a[i]) + Int(b[j]), Int(a[i + 1]) + Int(b[j + 1]),
                   Int(a[i + 2]) + Int(b[j + 2]), Int(a[i + 3]) + Int(b[j + 3]));
  }

  /** The digits and the last carry of a chain make up the sum. */
  lemma ChainOfCarries(s0: nat, s1: nat, s2: nat, s3: nat)
    ensures
      var c0 := s0 / 256;
      var c1 := (s1 + c0) / 256;
      var c2 := (s2 + c1) / 256;
      var c3 := (s3 + c2) / 256;
      s0 + 256 * s1 + 65536 * s2 + 16777216 * s3
      == s0 % 256 + 256 * ((s1 + c0) % 256) + 65536 * ((s2 + c1) % 256) + 16777216 * ((s3 + c2) % 256)
         + 0x1_0000_0000 * c3
  {
  }

  // ---- Byte-wise writes, in place ----

  method WriteBytes(a: array<byte>, i: nat, b: array<byte>, j: nat)
    requires a != b && i + 4 <= a.Length && j + 4 <= b.Length
    modifies a
    ensures a[..] == Patch(old(a[..]), i, b[j..j + 4])
  {
    a[i] := b[j];
    a[i + 1] := b[j + 1];
    a[i + 2] := b[j + 2];
    a[i + 3] := b[j + 3];
    ghost var piece := b[j..j + 4];
    assert piece == [b[j], b[j + 1], b[j + 2], b[j + 3]];
  }

  lemma Remainder(x: nat)
    ensures x == 256 * (x / 256) + x % 256 && x % 256 < 256
  {
  }

  lemma NoCarry(x: nat)
    requires !(x / 256 > 0)
    ensures x % 256 == x
  {
  }

  lemma WordOf(d0: nat, d1: nat, d2: nat, d3: nat)
    requires d0 < 256 && d1 < 256 && d2 < 256 && d3 < 256
    ensures Word4(d0 as byte, d1 as byte, d2 as byte, d3 as byte) == d0 + 256 * d1 + 65536 * d2 + 16777216 * d3
  {
  }

  lemma WouldOverflowLast(a: seq<byte>, i: nat, b: seq<byte>, j: nat, sum0: nat, sum1: nat, sum2: nat, sum3: nat)
    requires i + 4 <= |a| && j + 4 <= |b|
    requires sum0 == Int(a[i]) + Int(b[j]) && sum1 == Int(a[i + 1]) + Int(b[j + 1]) + sum0 / 256
    requires sum2 == Int(a[i + 2]) + Int(b[j + 2]) + sum1 / 256
    requires sum3 == Int(a[i + 3]) + Int(b[j + 3]) + sum2 / 256
    ensures WouldOverflow(a, i, b, j) <==> sum3 / 256 > 0
  {
    hide Int;
  }

  /** The digits of the sum, when there is no carry out of the top one. */
  lemma SumDigits(a: seq<byte>, i: nat, b: seq<byte>, j: nat, sum0: nat, sum1: nat, sum2: nat, sum3: nat)
    requires i + 4 <= |a| && j + 4 <= |b| && !WouldOverflow(a, i, b, j)
    requires sum0 == Int(a[i]) + Int(b[j]) && sum1 == Int(a[i + 1]) + Int(b[j + 1]) + sum0 / 256
    requires sum2 == Int(a[i + 2]) + Int(b[j + 2]) + sum1 / 256
    requires sum3 == Int(a[i + 3]) + Int(b[j + 3]) + sum2 / 256
    ensures U32(a, i) + U32(b, j)
      == Word4((sum0 % 256) as byte, (sum1 % 256) as byte, (sum2 % 256) as byte, (sum3 % 256) as byte)
  {
    hide Int, WouldOverflow;
    WouldOverflowLast(a, i, b, j, sum0, sum1, sum2, sum3);
    WordOf(sum0 % 256, sum1 % 256, sum2 % 256, sum3 % 256);
    NoCarry(sum3);
    Remainder(sum0);
    Remainder(sum1);
    Remainder(sum2);
  }

  /** AddUint32Bytes: ripple-carry addition into a. */
  method AddBytes(a: array<byte>, i: nat, b: array<byte>, j: nat)
    requires a != b && i + 4 <= a.Length && j + 4 <= b.Length
    requires !WouldOverflow(a[..], i, b[..], j)
    modifies a
    ensures U32(a[..], i) == old(U32(a[..], i)) + U32(b[..], j)
    ensures forall k :: 0 <= k < a.Length && !(i <= k < i + 4) ==> a[k] == old(a[k])
  {
    hide WouldOverflow, Word4, Int;
    ghost var was := a[..];
    var sum0 := Int(a[i]) + Int(b[j]);
    a[i] := (sum0 % 256) as byte;
    var sum1 := Int(a[i + 1]) + Int(b[j + 1]) + sum0 / 256;
    a[i + 1] := (sum1 % 256) as byte;
    var sum2 := Int(a[i + 2]) + Int(b[j + 2]) + sum1 / 256;
    a[i + 2] := (sum2 % 256) as byte;
    var sum3 := Int(a[i + 3]) + Int(b[j + 3]) + sum2 / 256;
    a[i + 3] := (sum3 % 256) as byte;
    SumDigits(was, i, b[..], j, sum0, sum1, sum2, sum3);
  }
}
