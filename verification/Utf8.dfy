/**
 The UTF-8 validators of the Linux and Windows receivers, which are the same algorithm, against
 the encoding defined in sections 3 and 4 of RFC 3629.
 */
module Utf8 {
  import opened Octets

  predicate IsScalar(c: int) {
    0 <= c < 0xD800 || 0xE000 <= c <= 0x10FFFF
  }

  type Scalar = c: int | 0 <= c < 0xD800 || 0xE000 <= c <= 0x10FFFF

  /** The one encoding that section 3 of RFC 3629 gives each scalar value. */
  function EncodeScalar(c: Scalar): Bytes {
    if c < 0x80 then [c]
    else if c < 0x800 then [0xC0 + c / 0x40, Tail(c)]
    else if c < 0x1_0000 then [0xE0 + c / 0x1000, Tail(c / 0x40), Tail(c)]
    else [0xF0 + c / 0x4_0000, Tail(c / 0x1000), Tail(c / 0x40), Tail(c)]
  }

  /** A continuation octet, which carries the last six bits of a number. */
  function Tail(x: nat): (t: byte)
    ensures 0x80 <= t < 0xC0
  {
    0x80 + (x - x / 0x40 * 0x40)
  }

  function Encode(text: seq<Scalar>): Bytes {
    if text == [] then [] else EncodeScalar(text[0]) + Encode(text[1..])
  }

  ghost predicate IsUtf8(s: Bytes) {
    exists text: seq<Scalar> :: Encode(text) == s
  }

  // What the validator reads off a lead octet: how many continuation octets follow, and its payload bits.

  function Continuations(first: byte): int {
    if first < 0x80 then 0
    else if first / 0x20 == 0x6 then 1
    else if first / 0x10 == 0xE then 2
    else if first / 0x8 == 0x1E then 3
    else -1
  }

  function LeadBits(first: byte): nat {
    if first < 0x80 then first
    else if first / 0x20 == 0x6 then first % 0x20
    else if first / 0x10 == 0xE then first % 0x10
    else first % 0x8
  }

  function Accumulate(bits: nat, s: Bytes): nat {
    if s == [] then bits else Accumulate(bits, s[..|s| - 1]) * 0x40 + s[|s| - 1] % 0x40
  }

  predicate Minimal(continuation: int, codepoint: nat) {
    && (continuation == 1 ==> codepoint >= 0x80)
    && (continuation == 2 ==> codepoint >= 0x800)
    && (continuation == 3 ==> codepoint >= 0x1_0000)
    && IsScalar(codepoint)
  }

  /** The validator accepts the first character of s. */
  predicate GoodStart(s: Bytes)
    requires s != []
  {
    var n := Continuations(s[0]);
    && 0 <= n < |s|
    && (forall j | 1 <= j <= n :: s[j] / 0x40 == 2)
    && Minimal(n, Accumulate(LeadBits(s[0]), s[1..1 + n]))
  }

  lemma AccumulateUnrolled(bits: nat, s: Bytes)
    requires |s| <= 3
    ensures |s| == 0 ==> Accumulate(bits, s) == bits
    ensures |s| == 1 ==> Accumulate(bits, s) == bits * 0x40 + s[0] % 0x40
    ensures |s| == 2 ==> Accumulate(bits, s) == (bits * 0x40 + s[0] % 0x40) * 0x40 + s[1] % 0x40
    ensures |s| == 3 ==>
      Accumulate(bits, s) == ((bits * 0x40 + s[0] % 0x40) * 0x40 + s[1] % 0x40) * 0x40 + s[2] % 0x40
  {
    if |s| == 3 {
      assert s[..2][..1] == s[..1];
      assert s[..2][..1][..0] == [];
    }
    if |s| == 2 {
      assert s[..1][..0] == [];
    }
  }

  lemma Sextets(lead: nat, a: nat, b: nat, d: nat)
    requires a < 0x40 && b < 0x40 && d < 0x40
    ensures var c := ((lead * 0x40 + a) * 0x40 + b) * 0x40 + d;
            c / 0x4_0000 == lead && c / 0x1000 % 0x40 == a && c / 0x40 % 0x40 == b && c % 0x40 == d
  {
    var c := ((lead * 0x40 + a) * 0x40 + b) * 0x40 + d;
    assert c / 0x40 == (lead * 0x40 + a) * 0x40 + b;
    assert c / 0x1000 == c / 0x40 / 0x40 == lead * 0x40 + a;
    assert c / 0x4_0000 == c / 0x1000 / 0x40 == lead;
  }

  lemma TwoOctets(s0: byte, s1: byte, c: Scalar)
    requires Continuations(s0) == 1 && s1 / 0x40 == 2
    requires c == LeadBits(s0) * 0x40 + s1 % 0x40 && c >= 0x80
    ensures EncodeScalar(c) == [s0, s1]
  {
    assert c / 0x40 == LeadBits(s0) && c % 0x40 == s1 % 0x40;
  }

  lemma ThreeOctets(s0: byte, s1: byte, s2: byte, c: Scalar)
    requires Continuations(s0) == 2 && s1 / 0x40 == 2 && s2 / 0x40 == 2
    requires c == (LeadBits(s0) * 0x40 + s1 % 0x40) * 0x40 + s2 % 0x40 && c >= 0x800
    ensures EncodeScalar(c) == [s0, s1, s2]
  {
    Sextets(0, LeadBits(s0), s1 % 0x40, s2 % 0x40);
  }

  lemma FourOctets(s0: byte, s1: byte, s2: byte, s3: byte, c: Scalar)
    requires Continuations(s0) == 3 && s1 / 0x40 == 2 && s2 / 0x40 == 2 && s3 / 0x40 == 2
    requires c == ((LeadBits(s0) * 0x40 + s1 % 0x40) * 0x40 + s2 % 0x40) * 0x40 + s3 % 0x40 && c >= 0x1_0000
    ensures EncodeScalar(c) == [s0, s1, s2, s3]
  {
    Sextets(LeadBits(s0), s1 % 0x40, s2 % 0x40, s3 % 0x40);
  }

  /** A character accepted by the validator is the encoding of the scalar value it accumulated. */
  lemma GoodStartIsEncoding(s: Bytes) returns (c: Scalar)
    requires s != [] && GoodStart(s)
    ensures EncodeScalar(c) == s[..1 + Continuations(s[0])]
  {
    var n, lead := Continuations(s[0]), LeadBits(s[0]);
    AccumulateUnrolled(lead, s[1..1 + n]);
    c := Accumulate(lead, s[1..1 + n]);
    if n == 1 {
      TwoOctets(s[0], s[1], c);
    } else if n == 2 {
      ThreeOctets(s[0], s[1], s[2], c);
    } else if n == 3 {
      FourOctets(s[0], s[1], s[2], s[3], c);
    }
  }

  lemma FromSextets(c: nat)
    ensures c == ((c / 0x4_0000 * 0x40 + c / 0x1000 % 0x40) * 0x40 + c / 0x40 % 0x40) * 0x40 + c % 0x40
    ensures c / 0x1000 == c / 0x4_0000 * 0x40 + c / 0x1000 % 0x40
    ensures c / 0x40 == c / 0x1000 * 0x40 + c / 0x40 % 0x40
  {
    assert c / 0x1000 == c / 0x40 / 0x40;
    assert c / 0x4_0000 == c / 0x1000 / 0x40;
  }

  /** The validator accepts the encoding of every scalar value, and accumulates that value. */
  lemma EncodingAccumulates(c: Scalar)
    ensures Continuations(EncodeScalar(c)[0]) == |EncodeScalar(c)| - 1
    ensures forall j | 1 <= j < |EncodeScalar(c)| :: EncodeScalar(c)[j] / 0x40 == 2
    ensures Accumulate(LeadBits(EncodeScalar(c)[0]), EncodeScalar(c)[1..]) == c
  {
    FromSextets(c);
    LeadOfEncoding(c);
    hide LeadBits, Continuations;
    AccumulateUnrolled(LeadBits(EncodeScalar(c)[0]), EncodeScalar(c)[1..]);
  }

  lemma LeadOfEncoding(c: Scalar)
    ensures Continuations(EncodeScalar(c)[0]) == |EncodeScalar(c)| - 1
    ensures LeadBits(EncodeScalar(c)[0]) ==
              if c < 0x80 then c else if c < 0x800 then c / 0x40 else if c < 0x1_0000 then c / 0x1000 else c / 0x4_0000
  {
  }

  lemma EncodingIsGoodStart(c: Scalar, rest: Bytes)
    ensures GoodStart(EncodeScalar(c) + rest)
    ensures Continuations(EncodeScalar(c)[0]) == |EncodeScalar(c)| - 1
    ensures Accumulate(LeadBits(EncodeScalar(c)[0]), EncodeScalar(c)[1..]) == c
  {
    EncodingAccumulates(c);
    var e := EncodeScalar(c);
    assert (e + rest)[1..|e|] == e[1..];
  }

  /** One turn of the validator's loop: the text is well formed iff it starts well and its remainder is well formed. */
  lemma FirstCharacter(s: Bytes)
    requires s != []
    ensures IsUtf8(s) <==> GoodStart(s) && IsUtf8(s[1 + Continuations(s[0])..])
  {
    if IsUtf8(s) {
      var text: seq<Scalar> :| Encode(text) == s;
      var head, rest := EncodeScalar(text[0]), Encode(text[1..]);
      EncodingIsGoodStart(text[0], rest);
      assert s == head + rest;
      assert s[|head|..] == rest;
    }
    if GoodStart(s) && IsUtf8(s[1 + Continuations(s[0])..]) {
      var n := 1 + Continuations(s[0]);
      var c := GoodStartIsEncoding(s);
      var text: seq<Scalar> :| Encode(text) == s[n..];
      assert ([c] + text)[1..] == text;
      assert Encode([c] + text) == s[..n] + s[n..] == s;
    }
  }

  method ValidUtf8(value: Bytes) returns (valid: bool)
    ensures valid <==> IsUtf8(value)
  {
    var i := 0;
    assert value[0..] == value;
    while i < |value|
      invariant 0 <= i <= |value|
      invariant IsUtf8(value) <==> IsUtf8(value[i..])
    {
      FirstCharacter(value[i..]);
      var good, next := ValidCharacter(value, i);
      if !good {
        return false;
      }
      assert value[i..][next - i..] == value[next..];
      i := next;
    }
    assert value[i..] == [] == Encode([]);
    valid := true;
  }

  lemma OneMoreOctet(lead: nat, s: Bytes, j: nat)
    requires 1 + j < |s|
    ensures Accumulate(lead, s[1..2 + j]) == Accumulate(lead, s[1..1 + j]) * 0x40 + s[1 + j] % 0x40
  {
    assert s[1..2 + j][..j] == s[1..1 + j];
  }

  /** The body of the validator's loop, which reads one character at offset i. */
  method ValidCharacter(value: Bytes, start: nat) returns (good: bool, i: nat)
    requires start < |value|
    ensures good <==> GoodStart(value[start..])
    ensures good ==> i == start + 1 + Continuations(value[start])
  {
    ghost var s := value[start..];
    var first := value[start];
    i := start + 1;
    if first <= 0x7F {
      assert s[1..1] == [];
      return true, i;
    }
    var continuation := 0;
    var codepoint: nat := 0;
    if first / 0x20 == 0x6 {
      continuation, codepoint := 1, first % 0x20;
    } else if first / 0x10 == 0xE {
      continuation, codepoint := 2, first % 0x10;
    } else if first / 0x8 == 0x1E {
      continuation, codepoint := 3, first % 0x8;
    } else {
      return false, i;
    }
    if i + continuation > |value| {
      return false, i;
    }
    assert continuation == Continuations(first) && codepoint == LeadBits(first);
    hide Continuations, LeadBits;
    good, i, codepoint := ReadContinuations(value, start, continuation, codepoint);
    if !good {
      return false, i;
    }
    good := !(
      || (continuation == 1 && codepoint < 0x80)
      || (continuation == 2 && codepoint < 0x800)
      || (continuation == 3 && codepoint < 0x1_0000)
      || codepoint > 0x10FFFF
      || 0xD800 <= codepoint <= 0xDFFF);
  }

  /** The inner loop over the continuation octets. */
  method ReadContinuations(value: Bytes, start: nat, continuation: nat, lead: nat)
      returns (good: bool, i: nat, codepoint: nat)
    requires start + 1 + continuation <= |value|
    ensures good <==> forall k | 1 <= k <= continuation :: value[start..][k] / 0x40 == 2
    ensures good ==> i == start + 1 + continuation && codepoint == Accumulate(lead, value[start..][1..1 + continuation])
  {
    ghost var s := value[start..];
    i, codepoint := start + 1, lead;
    assert s[1..1] == [];
    var j := 0;
    while j < continuation
      invariant 0 <= j <= continuation && i == start + 1 + j
      invariant forall k | 1 <= k <= j :: s[k] / 0x40 == 2
      invariant codepoint == Accumulate(lead, s[1..1 + j])
    {
      hide Accumulate;
      var next := value[i];
      assert next == s[1 + j];
      i := i + 1;
      if next / 0x40 != 2 {
        return false, i, codepoint;
      }
      OneMoreOctet(lead, s, j);
      codepoint := codepoint * 0x40 + next % 0x40;
      j := j + 1;
    }
    good := true;
  }

  /** No two texts share an encoding, so what a well-formed string says is determined by its octets. */
  lemma {:induction false} EncodeInjective(a: seq<Scalar>, b: seq<Scalar>)
    requires Encode(a) == Encode(b)
    ensures a == b
  {
    if a != [] && b != [] {
      var s := Encode(a);
      EncodingIsGoodStart(a[0], Encode(a[1..]));
      EncodingIsGoodStart(b[0], Encode(b[1..]));
      var n := |EncodeScalar(a[0])|;
      assert s[0] == EncodeScalar(a[0])[0] == EncodeScalar(b[0])[0];
      assert EncodeScalar(a[0]) == s[..n] == EncodeScalar(b[0]);
      assert Encode(a[1..]) == s[n..] == Encode(b[1..]);
      EncodeInjective(a[1..], b[1..]);
      assert a == [a[0]] + a[1..] && b == [b[0]] + b[1..];
    }
  }
}
