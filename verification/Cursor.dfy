/** Reading fields off a received message, field by field, and the octets that each field is written as. */
module Cursor {
  import opened Octets
  import opened Utf8

  /** Short: more octets may complete the field. Bad: no further octets can make it acceptable. */
  datatype Read<+T> = Got(value: T, rest: Bytes) | Short | Bad

  predicate NoControls(s: Bytes) {
    forall i | 0 <= i < |s| :: s[i] >= 0x20 && s[i] != 0x7F
  }

  /** The control characters are the first 32 and DEL, wherever they stand. */
  lemma ControlsExactly(before: Bytes, c: byte, after: Bytes)
    ensures NoControls([])
    ensures NoControls(before + [c] + after) <==> NoControls(before) && NoControls(after) && c > 31 && c != 127
  {
    var s := before + [c] + after;
    assert forall i | 0 <= i < |before| :: s[i] == before[i];
    assert s[|before|] == c;
    assert forall i | 0 <= i < |after| :: s[|before| + 1 + i] == after[i];
  }

  /** Strings are UTF-8; some readers refuse control characters as well. */
  ghost predicate Allowed(s: Bytes, clean: bool) {
    IsUtf8(s) && (clean ==> NoControls(s))
  }

  function TakeU8(s: Bytes): Read<byte> {
    if |s| < 1 then Short else Got(s[0], s[1..])
  }

  function TakeU16(s: Bytes): Read<nat> {
    if |s| < 2 then Short else Got(FromBe16(s[0], s[1]), s[2..])
  }

  function TakeU32(s: Bytes): Read<nat> {
    if |s| < 4 then Short else Got(FromBe32(s[0], s[1], s[2], s[3]), s[4..])
  }

  ghost function TakeText(s: Bytes, limit: nat, clean: bool): Read<Bytes> {
    if |s| < 2 then Short
    else
      var n := FromBe16(s[0], s[1]);
      if n > limit then Bad
      else if |s| < 2 + n then Short
      else if !Allowed(s[2..2 + n], clean) then Bad
      else Got(s[2..2 + n], s[2 + n..])
  }

  function TextBytes(text: Bytes): Bytes
    requires |text| < 0x1_0000
  {
    Be16(|text|) + text
  }

  lemma TakeWrittenU16(v: nat, rest: Bytes)
    requires v < 0x1_0000
    ensures TakeU16(Be16(v) + rest) == Got(v, rest)
  {
  }

  /** Fixed fields: what is written is read back whatever follows, and fewer octets than a field has are too few. */
  lemma FixedFields(b: byte, v: nat, rest: Bytes)
    requires v < 0x1_0000_0000
    ensures TakeU8([b] + rest) == Got(b, rest) && TakeU32(Be32(v) + rest) == Got(v, rest)
    ensures TakeU8(rest) == Short <==> rest == []
    ensures TakeU16(rest) == Short <==> |rest| < 2
    ensures TakeU32(rest) == Short <==> |rest| < 4
  {
    Be32Inverse(v);
    assert (Be32(v) + rest)[4..] == rest && ([b] + rest)[1..] == rest;
  }

  lemma TakeWrittenText(text: Bytes, rest: Bytes, limit: nat, clean: bool)
    requires |text| <= limit < 0x1_0000 && Allowed(text, clean)
    ensures TakeText(TextBytes(text) + rest, limit, clean) == Got(text, rest)
  {
    var s := TextBytes(text) + rest;
    assert s[2..2 + |text|] == text && s[2 + |text|..] == rest;
  }

  lemma TakenU16WasWritten(s: Bytes)
    requires TakeU16(s).Got?
    ensures TakeU16(s).value < 0x1_0000 && s == Be16(TakeU16(s).value) + TakeU16(s).rest
  {
    Be16OfOctets(s[0], s[1]);
  }

  lemma TakenTextWasWritten(s: Bytes, limit: nat, clean: bool)
    requires limit < 0x1_0000 && TakeText(s, limit, clean).Got?
    ensures var r := TakeText(s, limit, clean);
            |r.value| <= limit && Allowed(r.value, clean) && s == TextBytes(r.value) + r.rest
  {
    Be16OfOctets(s[0], s[1]);
    TextSplit(s, FromBe16(s[0], s[1]));
  }

  lemma TextSplit(s: Bytes, n: nat)
    requires n < 0x1_0000 && 2 + n <= |s| && Be16(n) == [s[0], s[1]]
    ensures s == TextBytes(s[2..2 + n]) + s[2 + n..]
  {
    hide Be16;
  }

  /** Further octets leave what has been read, and what has been refused, as it is. */
  lemma TakeTextExtends(s: Bytes, more: Bytes, limit: nat, clean: bool)
    ensures TakeText(s, limit, clean).Bad? ==> TakeText(s + more, limit, clean).Bad?
    ensures TakeText(s, limit, clean).Got? ==>
              TakeText(s + more, limit, clean) == Got(TakeText(s, limit, clean).value,
                  TakeText(s, limit, clean).rest + more)
  {
    if |s| >= 2 && |s| >= 2 + FromBe16(s[0], s[1]) {
      var n := FromBe16(s[0], s[1]);
      assert (s + more)[2..2 + n] == s[2..2 + n] && (s + more)[2 + n..] == s[2 + n..] + more;
    }
  }

  // ---------------------------------------------------------------- lists of fields

  ghost function TakeMany<T>(take: Bytes -> Read<T>, s: Bytes, count: nat): Read<seq<T>>
    decreases count
  {
    if count == 0 then Got([], s) else
    match take(s)
    case Short => Short
    case Bad => Bad
    case Got(x, rest) => Prepended([x], TakeMany(take, rest, count - 1))
  }

  ghost function Prepended<T>(xs: seq<T>, r: Read<seq<T>>): Read<seq<T>> {
    match r
    case Short => Short
    case Bad => Bad
    case Got(ys, rest) => Got(xs + ys, rest)
  }

  lemma TakeManyStep<T>(take: Bytes -> Read<T>, s: Bytes, count: nat)
    ensures count == 0 ==> TakeMany(take, s, count) == Got([], s)
    ensures count > 0 && take(s).Short? ==> TakeMany(take, s, count) == Short
    ensures count > 0 && take(s).Bad? ==> TakeMany(take, s, count) == Bad
    ensures count > 0 && take(s).Got? ==>
              TakeMany(take, s, count) == Prepended([take(s).value], TakeMany(take, take(s).rest, count - 1))
  {
  }

  lemma PrependOne<T>(xs: seq<T>, x: T, r: Read<seq<T>>)
    ensures Prepended(xs, Prepended([x], r)) == Prepended(xs + [x], r)
  {
    if r.Got? {
      assert xs + ([x] + r.value) == xs + [x] + r.value;
    }
  }

  function WriteMany<T>(write: T -> Bytes, xs: seq<T>): Bytes {
    if xs == [] then [] else write(xs[0]) + WriteMany(write, xs[1..])
  }

  /** take reads back the valid values that write writes, and reads nothing else. */
  ghost predicate Inverse<T(!new)>(take: Bytes -> Read<T>, write: T -> Bytes, valid: T -> bool) {
    && (forall x, rest {:trigger write(x) + rest} | valid(x) :: take(write(x) + rest) == Got(x, rest))
    && (forall s {:trigger take(s)} | take(s).Got? :: valid(take(s).value) && s == write(take(s).value) + take(s).rest)
  }

  ghost predicate All<T>(valid: T -> bool, xs: seq<T>) {
    forall i | 0 <= i < |xs| :: valid(xs[i])
  }

  lemma {:induction false} ManyInverse<T(!new)>(take: Bytes -> Read<T>, write: T -> Bytes, valid: T -> bool,
      xs: seq<T>, rest: Bytes)
    requires Inverse(take, write, valid) && All(valid, xs)
    ensures TakeMany(take, WriteMany(write, xs) + rest, |xs|) == Got(xs, rest)
    decreases |xs|
  {
    if xs == [] {
      assert WriteMany(write, xs) + rest == rest;
    } else {
      var more := WriteMany(write, xs[1..]) + rest;
      ManyInverse(take, write, valid, xs[1..], rest);
      assert WriteMany(write, xs) + rest == write(xs[0]) + more;
      assert [xs[0]] + xs[1..] == xs;
    }
  }

  lemma {:induction false} ManyWereWritten<T(!new)>(take: Bytes -> Read<T>, write: T -> Bytes, valid: T -> bool,
      s: Bytes, count: nat)
    requires Inverse(take, write, valid) && TakeMany(take, s, count).Got?
    ensures var r := TakeMany(take, s, count);
            |r.value| == count && All(valid, r.value) && s == WriteMany(write, r.value) + r.rest
    decreases count
  {
    if count > 0 {
      var one := take(s);
      ManyWereWritten(take, write, valid, one.rest, count - 1);
      var more := TakeMany(take, one.rest, count - 1);
      assert ([one.value] + more.value)[1..] == more.value;
      assert s == write(one.value) + WriteMany(write, more.value) + more.rest;
    }
  }

  /** An object that reads a message from left to right. */
  class Reader {
    const bytes: Bytes
    var offset: nat

    constructor (bytes: Bytes)
      ensures this.bytes == bytes && offset == 0 && Rest() == bytes
    {
      this.bytes, offset := bytes, 0;
    }

    predicate Valid()
      reads this
    {
      offset <= |bytes|
    }

    function Rest(): Bytes
      reads this
    {
      if offset <= |bytes| then bytes[offset..] else []
    }

    method U8() returns (r: Read<byte>)
      requires Valid()
      modifies this
      ensures Valid() && r == TakeU8(old(Rest()))
      ensures if r.Got? then Rest() == r.rest && offset == old(offset) + 1 else offset == old(offset)
    {
      if 1 > |bytes| - offset {
        return Short;
      }
      var value := bytes[offset];
      offset := offset + 1;
      r := Got(value, Rest());
    }

    method U16() returns (r: Read<nat>)
      requires Valid()
      modifies this
      ensures Valid() && r == TakeU16(old(Rest()))
      ensures if r.Got? then Rest() == r.rest && offset == old(offset) + 2 else offset == old(offset)
    {
      if 2 > |bytes| - offset {
        return Short;
      }
      var value := FromBe16(bytes[offset], bytes[offset + 1]);
      offset := offset + 2;
      r := Got(value, Rest());
    }

    method U32() returns (r: Read<nat>)
      requires Valid()
      modifies this
      ensures Valid() && r == TakeU32(old(Rest()))
      ensures if r.Got? then Rest() == r.rest && offset == old(offset) + 4 else offset == old(offset)
    {
      if 4 > |bytes| - offset {
        return Short;
      }
      ghost var was := Rest();
      var value: nat, i: nat := 0, 0;
      while i < 4
        invariant 0 <= i <= 4 && offset == old(offset) + i <= |bytes|
        invariant value == FromBigEndian(was[..i])
      {
        assert was[..i + 1][..i] == was[..i] && bytes[offset] == was[i];
        value := value * 0x100 + bytes[offset];
        offset := offset + 1;
        i := i + 1;
      }
      FromBigEndian32(was[..4]);
      r := Got(value, Rest());
    }

    method Text(limit: nat, clean: bool) returns (r: Read<Bytes>)
      requires Valid()
      modifies this
      ensures Valid() && r == TakeText(old(Rest()), limit, clean)
      ensures r.Got? ==> Rest() == r.rest
    {
      ghost var was := Rest();
      var length := U16();
      if length.Short? {
        return Short;
      }
      var n := length.value;
      if n > limit {
        return Bad;
      }
      if n > |bytes| - offset {
        return Short;
      }
      var value := bytes[offset..offset + n];
      assert value == was[2..2 + n];
      offset := offset + n;
      var ok := ValidUtf8(value);
      if ok && clean {
        ok := WithoutControls(value);
      }
      if !ok {
        return Bad;
      }
      assert Rest() == was[2 + n..];
      r := Got(value, Rest());
    }
  }

  method WithoutControls(value: Bytes) returns (ok: bool)
    ensures ok <==> NoControls(value)
  {
    for i := 0 to |value|
      invariant NoControls(value[..i])
    {
      if value[i] < 0x20 || value[i] == 0x7F {
        return false;
      }
    }
    assert value[..|value|] == value;
    return true;
  }

  /** A buffer of exact size that is filled from left to right. */
  class OutBuffer {
    const data: array<byte>
    var position: nat

    constructor (size: nat)
      ensures Valid() && fresh(data) && data.Length == size && position == 0
    {
      data := new byte[size];
      position := 0;
    }

    predicate Valid()
      reads this
    {
      position <= data.Length
    }

    function Written(): Bytes
      requires Valid()
      reads this, data
    {
      data[..position]
    }

    /** Putting octets past the end of the buffer would be an error, so room is a precondition. */
    method Put(octets: Bytes)
      requires Valid() && position + |octets| <= data.Length
      modifies this, data
      ensures Valid() && Written() == old(Written()) + octets && position == old(position) + |octets|
    {
      forall i | 0 <= i < |octets| {
        data[position + i] := octets[i];
      }
      position := position + |octets|;
    }

    method PutText(text: Bytes)
      requires Valid() && |text| < 0x1_0000 && position + 2 + |text| <= data.Length
      modifies this, data
      ensures Valid() && Written() == old(Written()) + TextBytes(text) && position == old(position) + 2 + |text|
    {
      ghost var was := Written();
      Put(Be16(|text|));
      Put(text);
      assert was + Be16(|text|) + text == was + TextBytes(text);
    }
  }
}
