/** The phone's HKDF-Expand loop against section 2.3 of RFC 5869, for any MAC with outputs of 32 octets. */
module Hkdf {
  import opened Octets

  const HASH_SIZE: nat := 32
  const MAX_OUTPUT: nat := 255 * HASH_SIZE

  /** The MAC of a key and a message. */
  type Mac = (Bytes, Bytes) -> Bytes

  ghost predicate Sized(mac: Mac) {
    forall key, message :: |mac(key, message)| == HASH_SIZE
  }

  /** T(i), where T(0) is empty. */
  function T(mac: Mac, prk: Bytes, info: Bytes, i: nat): Bytes
    requires i <= 255
  {
    if i == 0 then [] else mac(prk, T(mac, prk, info, i - 1) + info + [i])
  }

  /** T(1) | T(2) | ... | T(n) */
  function Blocks(mac: Mac, prk: Bytes, info: Bytes, n: nat): Bytes
    requires n <= 255
  {
    if n == 0 then [] else Blocks(mac, prk, info, n - 1) + T(mac, prk, info, n)
  }

  lemma {:induction false} BlocksSize(mac: Mac, prk: Bytes, info: Bytes, n: nat)
    requires Sized(mac) && n <= 255
    ensures |Blocks(mac, prk, info, n)| == n * HASH_SIZE
  {
    if n > 0 {
      BlocksSize(mac, prk, info, n - 1);
    }
  }

  /** The first octets of the blocks, of which there are as many as it takes. */
  ghost function OutputKeyingMaterial(mac: Mac, prk: Bytes, info: Bytes, length: nat): (okm: Bytes)
    requires Sized(mac) && length <= MAX_OUTPUT
    ensures |okm| == length
  {
    BlocksSize(mac, prk, info, (length + 31) / HASH_SIZE);
    Blocks(mac, prk, info, (length + 31) / HASH_SIZE)[..length]
  }

  lemma {:induction false} BlocksExtend(mac: Mac, prk: Bytes, info: Bytes, m: nat, n: nat)
    requires Sized(mac) && m <= n <= 255
    ensures |Blocks(mac, prk, info, m)| == m * HASH_SIZE <= |Blocks(mac, prk, info, n)|
    ensures Blocks(mac, prk, info, n)[..m * HASH_SIZE] == Blocks(mac, prk, info, m)
    decreases n
  {
    BlocksSize(mac, prk, info, m);
    BlocksSize(mac, prk, info, n);
    if m < n {
      BlocksExtend(mac, prk, info, m, n - 1);
    }
  }

  /** hkdfExpand */
  method HkdfExpand(mac: Mac, prk: Bytes, info: Bytes, outputLength: nat) returns (output: array<byte>)
    requires Sized(mac) && outputLength <= MAX_OUTPUT
    ensures fresh(output) && output[..] == OutputKeyingMaterial(mac, prk, info, outputLength)
  {
    hide T, Blocks;
    output := new byte[outputLength](i => 0);
    var previous: Bytes := [];
    var offset: nat, counter: nat := 0, 1;
    ghost var okm := OutputKeyingMaterial(mac, prk, info, outputLength);
    assert T(mac, prk, info, 0) == [] by { NoBlock(mac, prk, info); }
    while offset < outputLength
      invariant 1 <= counter <= (outputLength + 31) / HASH_SIZE + 1 && previous == T(mac, prk, info, counter - 1)
      invariant offset == if (counter - 1) * HASH_SIZE < outputLength then (counter - 1) * HASH_SIZE else outputLength
      invariant output[..offset] == okm[..offset]
      decreases outputLength - offset
    {
      NextBlock(mac, prk, info, outputLength, counter);
      previous := mac(prk, previous + info + [counter]);
      var copyLength := if |previous| < outputLength - offset then |previous| else outputLength - offset;
      Copy(output, offset, previous[..copyLength]);
      offset := offset + copyLength;
      counter := counter + 1;
    }
    assert okm[..outputLength] == okm;
  }

  method Copy(output: array<byte>, offset: nat, octets: Bytes)
    requires offset + |octets| <= output.Length
    modifies output
    ensures output[..offset + |octets|] == old(output[..offset]) + octets
  {
    forall i | 0 <= i < |octets| {
      output[offset + i] := octets[i];
    }
  }

  lemma NoBlock(mac: Mac, prk: Bytes, info: Bytes)
    ensures T(mac, prk, info, 0) == []
  {
  }

  /** The octets of the output from one block on. */
  lemma NextBlock(mac: Mac, prk: Bytes, info: Bytes, length: nat, counter: nat)
    requires Sized(mac) && length <= MAX_OUTPUT && 1 <= counter && (counter - 1) * HASH_SIZE < length
    ensures counter <= 255
    ensures var okm, offset := OutputKeyingMaterial(mac, prk, info, length), (counter - 1) * HASH_SIZE;
            var block := mac(prk, T(mac, prk, info, counter - 1) + info + [counter]);
            var size := if HASH_SIZE < length - offset then HASH_SIZE else length - offset;
            && block == T(mac, prk, info, counter)
            && okm[..offset + size] == okm[..offset] + block[..size]
  {
    var n := (length + 31) / HASH_SIZE;
    BlocksSize(mac, prk, info, n);
    BlocksExtend(mac, prk, info, counter - 1, n);
    BlocksExtend(mac, prk, info, counter, n);
    var blocks, offset := Blocks(mac, prk, info, n), (counter - 1) * HASH_SIZE;
    var done, block := Blocks(mac, prk, info, counter - 1), T(mac, prk, info, counter);
    var size := if HASH_SIZE < length - offset then HASH_SIZE else length - offset;
    assert Blocks(mac, prk, info, counter) == done + block;
    hide T, Blocks;
    BlockAt(blocks, done, block, offset, size);
    assert blocks[..length][..offset + size] == blocks[..offset + size] &&
        blocks[..length][..offset] == blocks[..offset];
  }

  lemma BlockAt(blocks: Bytes, done: Bytes, block: Bytes, offset: nat, length: nat)
    requires |done| == offset && length <= |block| && offset + |block| <= |blocks|
    requires blocks[..offset + |block|] == done + block && blocks[..offset] == done
    ensures blocks[..offset + length] == blocks[..offset] + block[..length]
  {
    assert blocks[..offset + length] == blocks[..offset + |block|][..offset + length];
  }

  /** A shorter output is a prefix of a longer one. */
  lemma ShorterIsPrefix(mac: Mac, prk: Bytes, info: Bytes, a: nat, b: nat)
    requires Sized(mac) && a <= b <= MAX_OUTPUT
    ensures OutputKeyingMaterial(mac, prk, info, a) == OutputKeyingMaterial(mac, prk, info, b)[..a]
  {
    var m, n := (a + 31) / HASH_SIZE, (b + 31) / HASH_SIZE;
    BlocksExtend(mac, prk, info, m, n);
    BlocksSize(mac, prk, info, n);
    assert Blocks(mac, prk, info, n)[..m * HASH_SIZE][..a] == Blocks(mac, prk, info, n)[..a];
  }

  /** The keys of the channel have one block: they are the MAC of the info and the octet 1. */
  lemma OneBlock(mac: Mac, prk: Bytes, info: Bytes)
    requires Sized(mac)
    ensures OutputKeyingMaterial(mac, prk, info, HASH_SIZE) == mac(prk, info + [1])
  {
    BlocksSize(mac, prk, info, 1);
    assert Blocks(mac, prk, info, 0) + T(mac, prk, info, 1) == T(mac, prk, info, 1);
    assert T(mac, prk, info, 0) + info + [1] == info + [1];
  }
}
