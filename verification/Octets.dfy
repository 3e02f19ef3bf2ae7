/** Octets and the fixed-width integer encodings that every wire format of the repository uses. */
module Octets {
  type byte = x: int | 0 <= x < 0x100
  type Bytes = seq<byte>

  datatype Option<+T> = None | Some(value: T)

  /** The octets of an ASCII text. */
  function Ascii(s: string): Bytes
    requires forall i | 0 <= i < |s| :: s[i] < 128 as char
  {
    seq(|s|, i requires 0 <= i < |s| => s[i] as int)
  }

  // Two- and four-octet unsigned integers, most significant octet first.

  /** The least significant octet. */
  function LowOctet(v: nat): byte {
    v - v / 0x100 * 0x100
  }

  function Be16(v: nat): (s: Bytes)
    requires v < 0x1_0000
    ensures |s| == 2
  {
    [v / 0x100, LowOctet(v)]
  }

  function FromBe16(high: byte, low: byte): nat {
    high * 0x100 + low
  }

  lemma Be16OfOctets(high: byte, low: byte)
    ensures FromBe16(high, low) < 0x1_0000 && Be16(FromBe16(high, low)) == [high, low]
  {
  }

  function Be32(v: nat): Bytes
    requires v < 0x1_0000_0000
  {
    [v / 0x100_0000, LowOctet(v / 0x1_0000), LowOctet(v / 0x100), LowOctet(v)]
  }

  function FromBe32(b0: byte, b1: byte, b2: byte, b3: byte): nat {
    b0 * 0x100_0000 + b1 * 0x1_0000 + b2 * 0x100 + b3
  }

  lemma Be32Inverse(v: nat)
    requires v < 0x1_0000_0000
    ensures FromBe32(v / 0x100_0000, LowOctet(v / 0x1_0000), LowOctet(v / 0x100), LowOctet(v)) == v
  {
    assert v / 0x1_0000 == v / 0x100 / 0x100;
    assert v / 0x100_0000 == v / 0x100 / 0x100 / 0x100;
  }

  lemma Be32OfOctets(b0: byte, b1: byte, b2: byte, b3: byte)
    ensures FromBe32(b0, b1, b2, b3) < 0x1_0000_0000
    ensures Be32(FromBe32(b0, b1, b2, b3)) == [b0, b1, b2, b3]
  {
    var v := FromBe32(b0, b1, b2, b3);
    var high := b0 * 0x1_0000 + b1 * 0x100 + b2;
    assert v == high * 0x100 + b3;
    assert v / 0x100 == high && LowOctet(v) == b3;
    Quotients(v);
    assert high / 0x100 == b0 * 0x100 + b1;
  }

  lemma Quotients(v: nat)
    ensures v / 0x1_0000 == v / 0x100 / 0x100
    ensures v / 0x100_0000 == v / 0x100 / 0x100 / 0x100
  {
  }

  // A two's complement reading of a 32-bit word and of one octet.

  function Signed32(v: nat): int
    requires v < 0x1_0000_0000
  {
    if v < 0x8000_0000 then v else v - 0x1_0000_0000
  }

  function Unsigned32(v: int): nat
    requires -0x8000_0000 <= v < 0x8000_0000
  {
    if v < 0 then v + 0x1_0000_0000 else v
  }

  function Signed8(b: byte): int {
    if b < 0x80 then b else b - 0x100
  }

  // Big-endian encoding of any width.

  function Pow256(n: nat): nat {
    if n == 0 then 1 else 0x100 * Pow256(n - 1)
  }

  function BigEndian(v: nat, n: nat): (s: Bytes)
    ensures |s| == n
  {
    if n == 0 then [] else BigEndian(v / 0x100, n - 1) + [LowOctet(v)]
  }

  function FromBigEndian(s: Bytes): nat {
    if s == [] then 0 else FromBigEndian(s[..|s| - 1]) * 0x100 + s[|s| - 1]
  }

  lemma {:induction false} BigEndianInverse(v: nat, n: nat)
    requires v < Pow256(n)
    ensures FromBigEndian(BigEndian(v, n)) == v
  {
    if n > 0 {
      BigEndianInverse(v / 0x100, n - 1);
      var s := BigEndian(v, n);
      assert s[..n - 1] == BigEndian(v / 0x100, n - 1);
    }
  }

  lemma {:induction false} FromBigEndianInverse(s: Bytes)
    ensures FromBigEndian(s) < Pow256(|s|)
    ensures BigEndian(FromBigEndian(s), |s|) == s
  {
    if s != [] {
      FromBigEndianInverse(s[..|s| - 1]);
      assert s == s[..|s| - 1] + [s[|s| - 1]];
    }
  }

  lemma FromBigEndian32(s: Bytes)
    requires |s| == 4
    ensures FromBigEndian(s) == FromBe32(s[0], s[1], s[2], s[3])
  {
    assert s[..3][..2] == s[..2] && s[..2][..1] == s[..1] && s[..1][..0] == [];
    var high: nat, low: nat := s[0], s[1];
    assert FromBigEndian(s[..1]) == high;
    assert FromBigEndian(s[..2]) == high * 0x100 + low;
    assert FromBigEndian(s[..3]) == (high * 0x100 + low) * 0x100 + s[2];
  }
}
