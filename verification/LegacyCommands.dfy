/**
 The command stream from the Windows controller to the phone: single-octet tags, 16-bit fields that are
 little-endian here although they are big-endian inside the activation packet, and no outer framing.
 */
module LegacyCommands {
  import opened Octets
  import opened Utf8
  import opened Activation
  import opened Framing
  import Cursor
  import Sender = ControllerPackets

  // The phone's table of tags.

  const RESOLUTION: byte := 0x01
  const ACTIVATION: byte := 0x02
  const CAMERA: byte := 0x03
  const CORRECTION_FILTER: byte := 0x05
  const EFFECT_FILTER: byte := 0x06
  const ROTATION: byte := 0x07
  const BITRATE: byte := 0x08
  const ADAPTIVE_BITRATE: byte := 0x09
  const STABILIZATION: byte := 0x0A
  const FLASH: byte := 0x0B
  const FOCUS: byte := 0x0C
  const CODEC: byte := 0x0D
  const FPS: byte := 0x0E
  const ZOOM: byte := 0x0F
  const FLIP: byte := 0x10

  const READ_SIZE: nat := 512
  const MAX_PENDING: nat := 65536
  /** 39 octets up to the filter count, 128 filters of at most 134, and the effect name. */
  const LONGEST_MESSAGE: nat := 39 + 128 * 134 + 2 + 128

  // ---------------------------------------------------------------- where a message ends

  function Upto(s: Bytes, size: nat): Cut {
    if |s| < size then Incomplete else Whole(size)
  }

  function EffectEnd(s: Bytes, offset: nat): Cut {
    if |s| < offset + 2 then Incomplete
    else if FromBe16(s[offset], s[offset + 1]) > 128 then Malformed
    else Upto(s, offset + 2 + FromBe16(s[offset], s[offset + 1]))
  }

  function FiltersEnd(s: Bytes, offset: nat, count: nat): Cut
    decreases count
  {
    if count == 0 then EffectEnd(s, offset)
    else if |s| < offset + 2 then Incomplete
    else
      var nameLength := FromBe16(s[offset], s[offset + 1]);
      if nameLength > 128 then Malformed
      else if |s| < offset + 2 + nameLength + 4 then Incomplete
      else FiltersEnd(s, offset + 2 + nameLength + 4, count - 1)
  }

  function MessageEnd(s: Bytes): Cut {
    if s == [] then Incomplete
    else if s[0] == CAMERA then Whole(1)
    else if s[0] in {ROTATION, FOCUS, FPS, FLASH, CODEC, STABILIZATION, FLIP} then Upto(s, 2)
    else if s[0] == BITRATE then Upto(s, 3)
    else if s[0] in {RESOLUTION, ADAPTIVE_BITRATE, ZOOM} then Upto(s, 5)
    else if s[0] in {EFFECT_FILTER, CORRECTION_FILTER} then
      if |s| < 2 then Incomplete
      else if s[1] > 128 then Malformed
      else Upto(s, 2 + s[1] as nat + if s[0] == CORRECTION_FILTER then 1 else 0)
    else if s[0] == ACTIVATION then
      if |s| < 39 then Incomplete
      else if FromBe16(s[37], s[38]) > 128 then Malformed
      else FiltersEnd(s, 39, FromBe16(s[37], s[38]))
    else Malformed
  }

  /** legacyMessageLength; Incomplete stands for null and Malformed for an exception. */
  method LegacyMessageLength(data: Bytes) returns (r: Cut)
    ensures r == MessageEnd(data)
  {
    if data == [] {
      return Incomplete;
    }
    var kind := data[0];
    var fixed: nat;
    if kind == CAMERA {
      fixed := 1;
    } else if kind == RESOLUTION {
      fixed := 5;
    } else if kind in {ROTATION, FOCUS, FPS, FLASH, CODEC, STABILIZATION, FLIP} {
      fixed := 2;
    } else if kind == BITRATE {
      fixed := 3;
    } else if kind in {ADAPTIVE_BITRATE, ZOOM} {
      fixed := 5;
    } else if kind in {EFFECT_FILTER, CORRECTION_FILTER} {
      if |data| < 2 {
        return Incomplete;
      }
      var nameLength: nat := data[1];
      if nameLength > 128 {
        return Malformed;
      }
      fixed := 2 + nameLength + if kind == CORRECTION_FILTER then 1 else 0;
    } else if kind == ACTIVATION {
      r := ActivationLength(data);
      return;
    } else {
      return Malformed;
    }
    r := if |data| < fixed then Incomplete else Whole(fixed);
  }

  method ActivationLength(data: Bytes) returns (r: Cut)
    requires data != [] && data[0] == ACTIVATION
    ensures r == MessageEnd(data)
  {
    if |data| < 39 {
      return Incomplete;
    }
    var filterCount := FromBe16(data[37], data[38]);
    if filterCount > 128 {
      return Malformed;
    }
    var offset: nat := 39;
    var i: nat := 0;
    while i < filterCount
      invariant i <= filterCount
      invariant MessageEnd(data) == FiltersEnd(data, offset, filterCount - i)
    {
      if |data| < offset + 2 {
        return Incomplete;
      }
      var nameLength := FromBe16(data[offset], data[offset + 1]);
      if nameLength > 128 {
        return Malformed;
      }
      offset := offset + 2 + nameLength + 4;
      if |data| < offset {
        return Incomplete;
      }
      i := i + 1;
    }
    if |data| < offset + 2 {
      return Incomplete;
    }
    var effectLength := FromBe16(data[offset], data[offset + 1]);
    if effectLength > 128 {
      return Malformed;
    }
    var fixed := offset + 2 + effectLength;
    r := if |data| < fixed then Incomplete else Whole(fixed);
  }

  lemma {:induction false} FiltersEndExtends(s: Bytes, more: Bytes, offset: nat, count: nat)
    ensures FiltersEnd(s, offset, count) != Incomplete ==>
              FiltersEnd(s + more, offset, count) == FiltersEnd(s, offset, count)
    ensures FiltersEnd(s, offset, count).Whole? ==> offset < FiltersEnd(s, offset, count).size <= |s|
    ensures FiltersEnd(s, offset, count) == Incomplete ==> |s| < offset + 134 * count + 130
    decreases count
  {
    if count > 0 && |s| >= offset + 2 {
      FiltersEndExtends(s, more, offset + 2 + FromBe16(s[offset], s[offset + 1]) + 4, count - 1);
    }
  }

  /** More octets never move the end of a message, and an incomplete message is shorter than the longest one. */
  lemma MessageEndExtends(s: Bytes, more: Bytes)
    ensures MessageEnd(s) != Incomplete ==> MessageEnd(s + more) == MessageEnd(s)
    ensures MessageEnd(s).Whole? ==> 1 <= MessageEnd(s).size <= |s|
    ensures MessageEnd(s) == Incomplete ==> |s| < LONGEST_MESSAGE
  {
    if s != [] && s[0] == ACTIVATION && |s| >= 39 {
      hide FiltersEnd;
      FiltersEndExtends(s, more, 39, FromBe16(s[37], s[38]));
    }
  }

  // ---------------------------------------------------------------- what a message means

  /** The zoom factor is carried as the 32 bits of a single-precision number. */
  datatype Command =
    | Activate(options: Options)
    | SwapCamera
    | SetResolution(width: int, height: int)
    | Rotate(degrees: int)
    | ApplyEffectFilter(name: Bytes)
    | ApplyCorrectionFilter(name: Bytes, value: int)
    | SetBitrate(bitrate: int)
    | SetAdaptiveBitrate(min: int, max: int)
    | SetStabilization(on: bool)
    | SetFlash(on: bool)
    | SetH265Codec(on: bool)
    | SetFocusMode(mode: int)
    | SetFPS(fps: int)
    | Zoom(bits: int)
    | Flip(horizontally: bool)

  function Le16(s: Bytes, k: nat): nat
    requires k + 2 <= |s|
  {
    FromBe16(s[k + 1], s[k])
  }

  function Le32(s: Bytes): nat
    requires |s| == 4
  {
    FromBe32(s[3], s[2], s[1], s[0])
  }

  /** The single-precision numbers from 1.0 to 10.0 are those whose bits lie between those of 1.0 and 10.0. */
  predicate ZoomInRange(bits: int) {
    0x3F80_0000 <= bits <= 0x4120_0000
  }

  function Pow2(n: int): (p: real)
    ensures p > 0.0
    decreases if n < 0 then -n else n
  {
    if n == 0 then 1.0 else if n > 0 then 2.0 * Pow2(n - 1) else Pow2(n + 1) / 2.0
  }

  /** Single precision: a sign, eight bits of exponent, 23 bits of fraction. The largest exponent is not a number. */
  predicate Finite(bits: nat) {
    bits / 0x80_0000 % 0x100 != 0xFF
  }

  /** The size of a number with these fields; exponent 0 stands for the numbers close to zero. */
  function Size(exponent: nat, fraction: nat): real {
    if exponent == 0 then fraction as real * Pow2(-149)
    else (0x80_0000 + fraction) as real * Pow2(exponent - 150)
  }

  function SingleValue(bits: nat): real {
    var size := Size(bits / 0x80_0000 % 0x100, bits % 0x80_0000);
    if bits / 0x8000_0000 % 2 == 1 then 0.0 - size else size
  }

  lemma {:induction false} Pow2Monotone(m: int, n: int)
    requires m <= n
    ensures Pow2(m) <= Pow2(n)
    decreases n - m
  {
    if m < n {
      Pow2Monotone(m, n - 1);
      assert Pow2(n) == 2.0 * Pow2(n - 1);
    }
  }

  lemma Pow2Values()
    ensures Pow2(-19) == 1.0 / 524288.0 && Pow2(-20) == 1.0 / 1048576.0 && Pow2(-21) == 1.0 / 2097152.0
    ensures Pow2(-22) == 1.0 / 4194304.0 && Pow2(-23) == 1.0 / 8388608.0 && Pow2(-24) == 1.0 / 16777216.0
  {
    assert Pow2(-4) == 1.0 / 16.0;
    assert Pow2(-8) == 1.0 / 256.0;
    assert Pow2(-12) == 1.0 / 4096.0;
    assert Pow2(-16) == 1.0 / 65536.0;
    assert Pow2(-19) == 1.0 / 524288.0 && Pow2(-20) == 1.0 / 1048576.0;
    assert Pow2(-21) == 1.0 / 2097152.0 && Pow2(-22) == 1.0 / 4194304.0;
  }

  lemma Scaled(x: real, y: real, p: real, q: real)
    requires 0.0 <= x <= y && 0.0 < p <= q
    ensures 0.0 <= x * p <= y * q
  {
    assert x * p <= y * p && y * p <= y * q;
  }

  lemma TooSmall(exponent: nat, fraction: nat)
    requires exponent < 127 && fraction < 0x80_0000
    ensures 0.0 <= Size(exponent, fraction) < 1.0
  {
    Pow2Values();
    if exponent == 0 {
      Pow2Monotone(-149, -24);
      Scaled(fraction as real, 8388607.0, Pow2(-149), Pow2(-24));
    } else {
      Pow2Monotone(exponent - 150, -24);
      Scaled((0x80_0000 + fraction) as real, 16777215.0, Pow2(exponent - 150), Pow2(-24));
    }
    hide Pow2;
  }

  lemma TooLarge(exponent: nat, fraction: nat)
    requires exponent > 130
    ensures Size(exponent, fraction) >= 16.0
  {
    Pow2Values();
    Pow2Monotone(-19, exponent - 150);
    Scaled(8388608.0, (0x80_0000 + fraction) as real, Pow2(-19), Pow2(exponent - 150));
    hide Pow2;
  }

  lemma SizeInRange(exponent: nat, fraction: nat)
    requires fraction < 0x80_0000
    ensures 0.0 <= Size(exponent, fraction)
    ensures 1.0 <= Size(exponent, fraction) <= 10.0 <==>
              127 <= exponent <= 129 || (exponent == 130 && fraction <= 0x20_0000)
  {
    if exponent < 127 {
      TooSmall(exponent, fraction);
    } else if exponent > 130 {
      TooLarge(exponent, fraction);
    } else {
      Pow2Values();
    }
    hide Pow2;
  }

  lemma Fields(bits: nat)
    requires bits < 0x1_0000_0000
    ensures var sign, exponent, fraction := bits / 0x8000_0000 % 2, bits / 0x80_0000 % 0x100, bits % 0x80_0000;
            bits == sign * 0x8000_0000 + exponent * 0x80_0000 + fraction && sign <= 1
  {
    var high := bits / 0x80_0000;
    assert bits == high * 0x80_0000 + bits % 0x80_0000 && bits / 0x8000_0000 == high / 0x100;
    assert high == high / 0x100 * 0x100 + high % 0x100;
  }

  /** The zoom factors in range are the finite single-precision numbers from 1.0 to 10.0. */
  lemma ZoomInRangeExactly(bits: nat)
    requires bits < 0x1_0000_0000
    ensures ZoomInRange(bits) <==> Finite(bits) && 1.0 <= SingleValue(bits) <= 10.0
  {
    Fields(bits);
    var sign, exponent, fraction := bits / 0x8000_0000 % 2, bits / 0x80_0000 % 0x100, bits % 0x80_0000;
    assert SingleValue(bits) == if sign == 1 then 0.0 - Size(exponent, fraction) else Size(exponent, fraction);
    SizeInRange(exponent, fraction);
    InRangeByFields(bits, sign, exponent, fraction);
    hide *;
    FiniteMeans(bits);
  }

  lemma FiniteMeans(bits: nat)
    ensures Finite(bits) <==> bits / 0x80_0000 % 0x100 != 0xFF
  {
  }

  lemma InRangeByFields(bits: nat, sign: nat, exponent: nat, fraction: nat)
    requires sign <= 1 && exponent < 0x100 && fraction < 0x80_0000
    requires bits == sign * 0x8000_0000 + exponent * 0x80_0000 + fraction
    ensures ZoomInRange(bits) <==>
              sign == 0 && (127 <= exponent <= 129 || (exponent == 130 && fraction <= 0x20_0000))
  {
  }

  ghost predicate ValidName(name: Bytes) {
    1 <= |name| <= 128 && IsUtf8(name)
  }

  /** handlePacket; None stands for an exception. */
  ghost function Decode(message: Bytes, repository: Repository): Option<Command>
    requires message != []
  {
    var tag, p := message[0], message[1..];
    if tag == ACTIVATION then
      match Parse(p, repository)
      case None => None
      case Some(o) => Some(Activate(o))
    else if tag in {EFFECT_FILTER, CORRECTION_FILTER} then DecodeFilter(tag == CORRECTION_FILTER, p)
    else DecodeFixed(tag, p)
  }

  ghost function DecodeFilter(correction: bool, p: Bytes): Option<Command> {
    if p == [] then None
    else
      var end: nat := 1 + p[0] as nat;
      if |p| != end + (if correction then 1 else 0) || !ValidName(p[1..end]) then None
      else if correction then Some(ApplyCorrectionFilter(p[1..end], Signed8(p[end])))
      else Some(ApplyEffectFilter(p[1..end]))
  }

  function DecodeFixed(tag: byte, p: Bytes): Option<Command> {
    if |p| == 0 then
      if tag == CAMERA then Some(SwapCamera) else None
    else if |p| == 1 then DecodeOctet(tag, p[0])
    else if |p| == 2 then
      if tag == BITRATE && 64 <= Le16(p, 0) <= 25_000 then Some(SetBitrate(Le16(p, 0))) else None
    else if |p| == 4 then
      if tag == RESOLUTION && ValidSize(Le16(p, 0), Le16(p, 2)) then Some(SetResolution(Le16(p, 0), Le16(p, 2)))
      else if tag == ADAPTIVE_BITRATE && 64 <= Le16(p, 0) <= Le16(p, 2) <= 25_000 then
        Some(SetAdaptiveBitrate(Le16(p, 0), Le16(p, 2)))
      else if tag == ZOOM && ZoomInRange(Le32(p)) then Some(Zoom(Le32(p)))
      else None
    else None
  }

  function DecodeOctet(tag: byte, b: byte): Option<Command> {
    if tag == ROTATION then Some(Rotate(b))
    else if tag == STABILIZATION && b <= 1 then Some(SetStabilization(b == 1))
    else if tag == FLASH && b <= 1 then Some(SetFlash(b == 1))
    else if tag == CODEC && b <= 1 then Some(SetH265Codec(b == 1))
    else if tag == FOCUS && b <= 1 then Some(SetFocusMode(b))
    else if tag == FPS && 1 <= b <= 60 then Some(SetFPS(b))
    else if tag == FLIP && b <= 1 then Some(Flip(b == 1))
    else None
  }

  method HandlePacket(message: Bytes, repository: Repository) returns (r: Option<Command>)
    requires message != []
    ensures r == Decode(message, repository)
  {
    var tag, payload := message[0], message[1..];
    if tag == ACTIVATION {
      var o := Deserialize(payload, repository);
      return if o.None? then None else Some(Activate(o.value));
    }
    if tag in {EFFECT_FILTER, CORRECTION_FILTER} {
      var correction := tag == CORRECTION_FILTER;
      if payload == [] {
        return None;
      }
      var nameLength: nat := payload[0];
      if !(1 <= nameLength <= 128) || |payload| != 1 + nameLength + (if correction then 1 else 0) {
        return None;
      }
      var name := payload[1..1 + nameLength];
      var ok := ValidUtf8(name);
      if !ok {
        return None;
      }
      return Some(if correction then ApplyCorrectionFilter(name, Signed8(payload[|payload| - 1]))
                  else ApplyEffectFilter(name));
    }
    r := HandleFixed(tag, payload);
  }

  /** The branches for commands of fixed size. */
  method HandleFixed(tag: byte, payload: Bytes) returns (r: Option<Command>)
    ensures r == DecodeFixed(tag, payload)
  {
    var size := if tag == CAMERA then 0 else if tag == BITRATE then 2
                else if tag in {RESOLUTION, ADAPTIVE_BITRATE, ZOOM} then 4 else 1;
    if |payload| != size {
      return None;
    }
    if tag == CAMERA {
      return Some(SwapCamera);
    } else if tag == RESOLUTION {
      var width, height := Le16(payload, 0), Le16(payload, 2);
      if width < 160 || width > 8192 || height < 160 || height > 8192 || width * height > 16_777_216 {
        return None;
      }
      return Some(SetResolution(width, height));
    } else if tag == ROTATION {
      return Some(Rotate(payload[0]));
    } else if tag == BITRATE {
      var value := Le16(payload, 0);
      return if 64 <= value <= 25_000 then Some(SetBitrate(value)) else None;
    } else if tag == ADAPTIVE_BITRATE {
      var min, max := Le16(payload, 0), Le16(payload, 2);
      return if 64 <= min <= 25_000 && min <= max <= 25_000 then Some(SetAdaptiveBitrate(min, max)) else None;
    } else if tag in {STABILIZATION, FLASH, CODEC} {
      if payload[0] != 0 && payload[0] != 1 {
        return None;
      }
      var value := payload[0] == 1;
      return Some(if tag == STABILIZATION then SetStabilization(value)
                  else if tag == FLASH then SetFlash(value)
                  else SetH265Codec(value));
    } else if tag == FOCUS {
      return if 0 <= payload[0] <= 1 then Some(SetFocusMode(payload[0])) else None;
    } else if tag == FPS {
      return if 1 <= payload[0] <= 60 then Some(SetFPS(payload[0])) else None;
    } else if tag == ZOOM {
      return if ZoomInRange(Le32(payload)) then Some(Zoom(Le32(payload))) else None;
    } else if tag == FLIP {
      return if 0 <= payload[0] <= 1 then Some(Flip(payload[0] != 0)) else None;
    }
    return None;
  }

  // ---------------------------------------------------------------- reassembly on the phone

  ghost function CutCommand(s: Bytes, repository: Repository): Cut {
    match MessageEnd(s)
    case Incomplete => Incomplete
    case Malformed => Malformed
    case Whole(n) =>
      if 1 <= n <= |s| && Decode(s[..n], repository).Some? then Whole(n) else Malformed
  }

  ghost function CommandCutter(repository: Repository): Cutter {
    s => CutCommand(s, repository)
  }

  lemma CommandCutterStable(repository: Repository)
    ensures Stable(CommandCutter(repository))
  {
    hide MessageEnd, Decode;
    var cut := CommandCutter(repository);
    assert cut([]) == Incomplete by { assert MessageEnd([]) == Incomplete by { EmptyIsIncomplete(); } }
    forall s, more ensures cut(s) != Incomplete ==> cut(s + more) == cut(s) {
      MessageEndExtends(s, more);
      if MessageEnd(s).Whole? {
        assert (s + more)[..MessageEnd(s).size] == s[..MessageEnd(s).size];
      }
    }
  }

  lemma EmptyIsIncomplete()
    ensures MessageEnd([]) == Incomplete
  {
  }

  /** The commands that a series of messages applies. */
  ghost function Applied(messages: seq<Bytes>, repository: Repository): seq<Command> {
    if messages == [] then []
    else
      var last := messages[|messages| - 1];
      Applied(messages[..|messages| - 1], repository)
      + (if last != [] && Decode(last, repository).Some? then [Decode(last, repository).value] else [])
  }

  class StreamActivity {
    const repository: Repository
    var legacyPending: Bytes
    var closed: bool
    var applied: seq<Command>    // the calls made on the streamer
    ghost var progress: Progress

    constructor (repository: Repository)
      ensures Valid() && progress == FRESH && this.repository == repository
    {
      this.repository := repository;
      legacyPending, closed, applied, progress := [], false, [], FRESH;
    }

    ghost predicate Valid()
      reads this
    {
      && legacyPending == progress.pending && closed == progress.rejected
      && applied == Applied(progress.messages, repository)
      && (closed || MessageEnd(legacyPending) == Incomplete)
    }

    /**
     onLegacyBytesReceived. The whole effect is that of parsing what was pending together with the new
     octets. Of the check on the number of octets only the emptiness test can fail.
     */
    method OnLegacyBytesReceived(chunk: Bytes)
      requires Valid() && !closed && 1 <= |chunk| <= READ_SIZE
      modifies this
      ensures Valid() && progress == Feed(CommandCutter(repository), old(progress), chunk)
    {
      hide MessageEnd, Decode;
      MessageEndExtends(legacyPending, []);
      if |legacyPending| + |chunk| > MAX_PENDING {
        assert false;
      }
      legacyPending := legacyPending + chunk;
      ghost var cut := CommandCutter(repository);
      ghost var before, all := progress.messages, legacyPending;
      progress := Progress(before, legacyPending, false);
      assert Feed(cut, old(progress), chunk) == After(before, Greedy(cut, all));
      while true
        invariant legacyPending == progress.pending && !closed && !progress.rejected
        invariant applied == Applied(progress.messages, repository)
        invariant After(before, Greedy(cut, all)) == After(progress.messages, Greedy(cut, legacyPending))
        decreases |legacyPending|
      {
        var length := LegacyMessageLength(legacyPending);
        MessageEndExtends(legacyPending, []);
        if length == Incomplete {
          assert progress.messages + [] == progress.messages;
          return;
        }
        var command := None;
        if length.Whole? {
          command := HandlePacket(legacyPending[..length.size], repository);
        }
        if command.None? {
          closed := true;
          legacyPending := [];
          progress := Progress(progress.messages, [], true);
          assert progress.messages + [] == progress.messages;
          return;
        }
        applied := applied + [command.value];
        ghost var message := legacyPending[..length.size];
        AppliedOneMore(progress.messages, message, repository);
        AfterAfter(progress.messages, [message], Greedy(cut, legacyPending[length.size..]));
        legacyPending := legacyPending[length.size..];
        progress := Progress(progress.messages + [message], legacyPending, false);
      }
    }
  }

  lemma AppliedOneMore(messages: seq<Bytes>, message: Bytes, repository: Repository)
    requires message != [] && Decode(message, repository).Some?
    ensures Applied(messages + [message], repository) ==
              Applied(messages, repository) + [Decode(message, repository).value]
  {
    assert (messages + [message])[..|messages|] == messages;
  }

  // ---------------------------------------------------------------- the Windows encoders

  function Low(v: int): byte {
    v % 0x100
  }

  function High(v: int): byte {
    v / 0x100 % 0x100
  }

  /** The packet that the manager builds; narrowing casts keep the low octets. */
  function Encode(c: Command): (s: Bytes)
    requires c.Activate? ==> Encodable(c.options)
    ensures s != []
  {
    match c
    case Activate(o) => [Sender.ACTIVATION] + ActivationBytes(o)
    case SwapCamera => [Sender.CAMERA]
    case SetResolution(w, h) => [Sender.RESOLUTION, Low(w), High(w), Low(h), High(h)]
    case Rotate(d) => [Sender.ROTATION, Low(d)]
    case ApplyEffectFilter(name) => [Sender.EFFECT_FILTER, Low(|name|)] + name
    case ApplyCorrectionFilter(name, v) => [Sender.CORRECTION_FILTER, Low(|name|)] + name + [Low(v)]
    case SetBitrate(b) => [Sender.BITRATE, Low(b), High(b)]
    case SetAdaptiveBitrate(min, max) => [Sender.ADAPTIVE_BITRATE, Low(min), High(min), Low(max), High(max)]
    case SetStabilization(on) => [Sender.STABILIZATION, Flag(on)]
    case SetFlash(on) => [Sender.FLASH, Flag(on)]
    case SetH265Codec(on) => [Sender.CODEC, Flag(on)]
    case SetFocusMode(mode) => [Sender.FOCUS, Low(mode)]
    case SetFPS(fps) => [Sender.FPS, Low(fps)]
    case Zoom(bits) => [Sender.ZOOM, Low(bits), High(bits), Low(bits / 0x1_0000), High(bits / 0x1_0000)]
    case Flip(h) => [Sender.FLIP, Flag(h)]
  }

  /** The commands that mean on the phone what they meant on the controller. */
  ghost predicate InRange(c: Command, repository: Repository) {
    match c
    case Activate(o) => Accepted(o, repository)
    case SwapCamera => true
    case SetResolution(w, h) => ValidSize(w, h)
    case Rotate(d) => 0 <= d < 0x100
    case ApplyEffectFilter(name) => ValidName(name)
    case ApplyCorrectionFilter(name, v) => ValidName(name) && -0x80 <= v < 0x80
    case SetBitrate(b) => 64 <= b <= 25_000
    case SetAdaptiveBitrate(min, max) => 64 <= min <= max <= 25_000
    case SetStabilization(_) => true
    case SetFlash(_) => true
    case SetH265Codec(_) => true
    case SetFocusMode(mode) => 0 <= mode <= 1
    case SetFPS(fps) => 1 <= fps <= 60
    case Zoom(bits) => ZoomInRange(bits)
    case Flip(_) => true
  }

  lemma LowHigh(v: int)
    ensures FromBe16(High(v), Low(v)) == v % 0x1_0000
  {
    var q, h := v / 0x100, v / 0x100 / 0x100;
    assert v == q * 0x100 + v % 0x100 && q == h * 0x100 + q % 0x100;
    Remainder(h, q % 0x100 * 0x100 + v % 0x100);
  }

  lemma Remainder(h: int, r: int)
    requires 0 <= r < 0x1_0000
    ensures (h * 0x1_0000 + r) % 0x1_0000 == r
  {
  }

  lemma LowHigh32(v: int)
    requires 0 <= v < 0x1_0000_0000
    ensures FromBe32(High(v / 0x1_0000), Low(v / 0x1_0000), High(v), Low(v)) == v
  {
    hide Low, High;
    LowHigh(v / 0x1_0000);
    LowHigh(v);
    TwoHalves(High(v / 0x1_0000), Low(v / 0x1_0000), High(v), Low(v));
  }

  lemma TwoHalves(b0: byte, b1: byte, b2: byte, b3: byte)
    ensures FromBe32(b0, b1, b2, b3) == FromBe16(b0, b1) * 0x1_0000 + FromBe16(b2, b3)
    ensures FromBe32(b0, b1, b2, b3) < 0x1_0000_0000
  {
  }

  ghost predicate ComesBack(c: Command)
    requires !c.Activate?
  {
    DecodeFixed(Encode(c)[0], Encode(c)[1..]) == Some(c)
  }

  lemma WordsRoundTrip(w: int, h: int, repository: Repository)
    ensures ComesBack(SetResolution(w, h)) <==> InRange(SetResolution(w, h), repository)
    ensures ComesBack(SetAdaptiveBitrate(w, h)) <==> InRange(SetAdaptiveBitrate(w, h), repository)
    ensures ComesBack(SetBitrate(w)) <==> InRange(SetBitrate(w), repository)
  {
    LowHigh(w);
    LowHigh(h);
    hide Low, High, FromBe16;
    var p: Bytes := [Low(w), High(w), Low(h), High(h)];
    assert Encode(SetResolution(w, h))[1..] == p && Encode(SetAdaptiveBitrate(w, h))[1..] == p;
    assert Encode(SetBitrate(w))[1..] == [Low(w), High(w)];
  }

  lemma ZoomRoundTrip(bits: int)
    ensures ComesBack(Zoom(bits)) <==> ZoomInRange(bits)
  {
    if 0 <= bits < 0x1_0000_0000 {
      LowHigh32(bits);
    }
    hide Low, High, FromBe16, FromBe32;
    var p: Bytes := [Low(bits), High(bits), Low(bits / 0x1_0000), High(bits / 0x1_0000)];
    assert Encode(Zoom(bits))[1..] == p;
  }

  lemma OctetRoundTrip(c: Command, repository: Repository)
    requires c.SwapCamera? || c.Rotate? || c.SetStabilization? || c.SetFlash? || c.SetH265Codec? || c.SetFocusMode? ||
              c.SetFPS? || c.Flip?
    ensures ComesBack(c) <==> InRange(c, repository)
  {
    var s := Encode(c);
    assert c.SwapCamera? || |s[1..]| == 1;
  }

  lemma FixedRoundTrip(c: Command, repository: Repository)
    requires !c.Activate? && !c.ApplyEffectFilter? && !c.ApplyCorrectionFilter?
    ensures Decode(Encode(c), repository) == Some(c) <==> InRange(c, repository)
  {
    assert Decode(Encode(c), repository) == DecodeFixed(Encode(c)[0], Encode(c)[1..]) by {
      hide DecodeFixed, Low, High, Parse, DecodeFilter;
    }
    hide Decode, DecodeFixed, Encode;
    match c
    case SetResolution(w, h) => WordsRoundTrip(w, h, repository);
    case SetBitrate(b) => WordsRoundTrip(b, 0, repository);
    case SetAdaptiveBitrate(min, max) => WordsRoundTrip(min, max, repository);
    case Zoom(bits) => ZoomRoundTrip(bits);
    case _ => OctetRoundTrip(c, repository);
  }

  lemma FilterDecoded(correction: bool, name: Bytes, tail: Bytes)
    requires |tail| == if correction then 1 else 0
    ensures DecodeFilter(correction, [Low(|name|)] + name + tail) ==
              if !ValidName(name) then None
              else if correction then Some(ApplyCorrectionFilter(name, Signed8(tail[0])))
              else Some(ApplyEffectFilter(name))
  {
    hide IsUtf8, Signed8;
    var p := [Low(|name|)] + name + tail;
    if 1 <= |name| <= 128 {
      assert p[0] == |name| && p[1..1 + |name|] == name;
      assert correction ==> p[1 + |name|] == tail[0];
    }
  }

  lemma FilterRoundTrip(c: Command, repository: Repository)
    requires c.ApplyEffectFilter? || c.ApplyCorrectionFilter?
    ensures Decode(Encode(c), repository) == Some(c) <==> InRange(c, repository)
  {
    hide DecodeFixed, Low, Parse, DecodeFilter, Signed8;
    var tail: Bytes := if c.ApplyCorrectionFilter? then [Low(c.value)] else [];
    assert Encode(c)[1..] == [Low(|c.name|)] + c.name + tail;
    FilterDecoded(c.ApplyCorrectionFilter?, c.name, tail);
    if c.ApplyCorrectionFilter? {
      SignedLow(c.value);
    }
  }

  lemma SignedLow(v: int)
    ensures Signed8(Low(v)) == v <==> -0x80 <= v < 0x80
  {
  }

  lemma ActivateRoundTrip(c: Command, repository: Repository)
    requires c.Activate? && Encodable(c.options)
    ensures Decode(Encode(c), repository) == Some(c) <==> InRange(c, repository)
  {
    hide Parse, ActivationBytes;
    var p := Encode(c)[1..];
    assert p == ActivationBytes(c.options);
    if Accepted(c.options, repository) {
      ActivationRoundTrip(c.options, repository);
    }
    if Parse(p, repository).Some? {
      ParsedWasWritten(p, repository);
    }
  }

  /** A command means the same at both ends exactly when its arguments are in range. */
  lemma MeansTheSameExactly(c: Command, repository: Repository)
    requires c.Activate? ==> Encodable(c.options)
    ensures Decode(Encode(c), repository) == Some(c) <==> InRange(c, repository)
  {
    if c.Activate? {
      ActivateRoundTrip(c, repository);
    } else if c.ApplyEffectFilter? || c.ApplyCorrectionFilter? {
      FilterRoundTrip(c, repository);
    } else {
      FixedRoundTrip(c, repository);
    }
  }

  /** By how much the streamer turns the picture; it ignores other angles. */
  function Turned(degrees: int): int {
    if degrees in {0, 90, 180, 270} then degrees else 0
  }

  /** A rotation is carried out as asked only for three angles: one octet has no room for 270, nor a sign for -90. */
  lemma RotationsCarriedOutExactly(degrees: int, repository: Repository)
    ensures Decode(Encode(Rotate(degrees)), repository) == Some(Rotate(Low(degrees)))
    ensures Turned(Low(degrees)) == degrees <==> degrees in {0, 90, 180}
  {
    FixedRoundTrip(Rotate(Low(degrees)), repository);
    assert Low(Low(degrees)) == Low(degrees);
  }

  /** The lists of correction filters end where legacyMessageLength looks for the effect. */
  lemma {:induction false} FiltersEndFound(before: Bytes, cs: seq<Correction>, effect: Bytes, rest: Bytes)
    requires EncodableList(cs) && (forall i | 0 <= i < |cs| :: |cs[i].name| <= 128) && |effect| <= 128
    ensures var s := before + (CorrectionsBytes(cs) + Cursor.TextBytes(effect)) + rest;
            FiltersEnd(s, |before|, |cs|) == Whole(|s| - |rest|)
    decreases |cs|
  {
    if cs == [] {
      LengthField(before, effect, rest);
      assert CorrectionsBytes(cs) + Cursor.TextBytes(effect) == Cursor.TextBytes(effect);
    } else {
      var one, more, last := CorrectionBytes(cs[0]), CorrectionsBytes(cs[1..]), Cursor.TextBytes(effect);
      Regroup(before, one, more, last, rest);
      FilterSkipped(before, cs[0], more + last + rest, |cs|);
      FiltersEndFound(before + one, cs[1..], effect, rest);
      hide FiltersEnd, Cursor.TextBytes, CorrectionBytes;
    }
  }

  lemma Regroup(a: Bytes, b: Bytes, c: Bytes, d: Bytes, e: Bytes)
    ensures a + (b + c + d) + e == (a + b) + (c + d) + e == a + b + (c + d + e)
  {
  }

  lemma FilterSkipped(before: Bytes, c: Correction, after: Bytes, count: nat)
    requires EncodableCorrection(c) && |c.name| <= 128 && count > 0
    ensures FiltersEnd(before + CorrectionBytes(c) + after, |before|, count)
         == FiltersEnd(before + CorrectionBytes(c) + after, |before + CorrectionBytes(c)|, count - 1)
  {
    var s := before + CorrectionBytes(c) + after;
    LengthField(before, c.name, Word(c.value) + after);
    assert s == before + Cursor.TextBytes(c.name) + (Word(c.value) + after);
  }

  lemma LengthField(before: Bytes, text: Bytes, after: Bytes)
    requires |text| <= 128
    ensures var s := before + Cursor.TextBytes(text) + after;
            |s| >= |before| + 2 && FromBe16(s[|before|], s[|before| + 1]) == |text|
  {
  }

  /** Whatever follows an activation packet, its end is found exactly. */
  lemma ActivationEndFound(o: Options, repository: Repository, rest: Bytes)
    requires Accepted(o, repository) && Encodable(o)
    ensures MessageEnd([Sender.ACTIVATION] + ActivationBytes(o) + rest) == Whole(1 + |ActivationBytes(o)|)
  {
    hide FixedBytes, CorrectionsBytes, FiltersEnd;
    forall i | 0 <= i < |o.corrections| ensures |o.corrections[i].name| <= 128 {
      assert ValidCorrection(o.corrections[i], repository);
    }
    var before := [Sender.ACTIVATION] + FixedBytes(o) + Be16(|o.corrections|);
    FiltersEndFound(before, o.corrections, o.effect, rest);
    assert [Sender.ACTIVATION] + ActivationBytes(o) + rest
        == before + (CorrectionsBytes(o.corrections) + Cursor.TextBytes(o.effect)) + rest;
  }

  lemma CommandEndFound(c: Command, repository: Repository)
    requires InRange(c, repository) && (c.Activate? ==> Encodable(c.options))
    ensures MessageEnd(Encode(c)) == Whole(|Encode(c)|)
  {
    if c.Activate? {
      hide MessageEnd, ActivationBytes;
      ActivationEndFound(c.options, repository, []);
      assert [Sender.ACTIVATION] + ActivationBytes(c.options) + [] == Encode(c);
    } else {
      ShortCommandEndFound(c);
    }
  }

  lemma ShortCommandEndFound(c: Command)
    requires !c.Activate? && (c.ApplyEffectFilter? || c.ApplyCorrectionFilter? ==> |c.name| <= 128)
    ensures MessageEnd(Encode(c)) == Whole(|Encode(c)|)
  {
    hide FiltersEnd, FromBe16;
    if c.ApplyEffectFilter? || c.ApplyCorrectionFilter? {
      assert Encode(c)[1] == |c.name|;
    } else {
      hide Low, High;
      var s := Encode(c);
    }
  }

  // ---------------------------------------------------------------- controller to phone

  ghost predicate AllInRange(commands: seq<Command>, repository: Repository) {
    forall i | 0 <= i < |commands| ::
      InRange(commands[i], repository) && (commands[i].Activate? ==> Encodable(commands[i].options))
  }

  ghost function Sent(commands: seq<Command>, repository: Repository): (messages: seq<Bytes>)
    requires AllInRange(commands, repository)
    ensures |messages| == |commands|
    ensures forall i | 0 <= i < |commands| :: messages[i] == Encode(commands[i])
  {
    seq(|commands|, i requires 0 <= i < |commands| => Encode(commands[i]))
  }

  lemma SentAreExact(commands: seq<Command>, repository: Repository)
    requires AllInRange(commands, repository)
    ensures Exact(CommandCutter(repository), Sent(commands, repository))
  {
    hide Encode, Decode, MessageEnd, InRange;
    forall i | 0 <= i < |commands|
      ensures CutCommand(Sent(commands, repository)[i], repository) == Whole(|Sent(commands, repository)[i]|)
    {
      var m := Encode(commands[i]);
      CommandEndFound(commands[i], repository);
      MeansTheSameExactly(commands[i], repository);
      assert m[..|m|] == m;
    }
  }

  lemma {:induction false} SentAreApplied(commands: seq<Command>, repository: Repository)
    requires AllInRange(commands, repository)
    ensures Applied(Sent(commands, repository), repository) == commands
  {
    hide Encode, Decode, InRange;
    if commands != [] {
      var init, last := commands[..|commands| - 1], commands[|commands| - 1];
      SentAreApplied(init, repository);
      MeansTheSameExactly(last, repository);
      assert Sent(commands, repository)[..|commands| - 1] == Sent(init, repository);
      assert commands == init + [last];
    }
  }

  /**
   Any list of in-range commands, concatenated and cut into reads in any way, is applied on the phone as
   the same commands with the same arguments in the same order.
   */
  lemma CommandsArrive(commands: seq<Command>, chunks: seq<Bytes>, repository: Repository)
    requires AllInRange(commands, repository)
    requires Framing.Flatten(chunks) == Framing.Flatten(Sent(commands, repository))
    ensures var p := FeedAll(CommandCutter(repository), chunks);
            Applied(p.messages, repository) == commands && p.pending == [] && !p.rejected
  {
    var cut, sent := CommandCutter(repository), Sent(commands, repository);
    CommandCutterStable(repository);
    ChunkingIsIrrelevant(cut, chunks);
    SentAreApplied(commands, repository);
    SentAreExact(commands, repository);
    SentIsReceived(cut, sent, []);
    NothingLeft(cut);
    assert Framing.Flatten(sent) + [] == Framing.Flatten(chunks);
    assert sent + [] == sent;
  }

  lemma NothingLeft(cut: Cutter)
    requires Stable(cut)
    ensures Greedy(cut, []) == FRESH
  {
  }

  // ---------------------------------------------------------------- whatever arrives at the phone

  ghost predicate WasEncoded(message: Bytes, repository: Repository)
    requires message != [] && Decode(message, repository).Some?
  {
    var c := Decode(message, repository).value;
    InRange(c, repository) && (c.Activate? ==> Encodable(c.options)) && Encode(c) == message
  }

  lemma Le16Octets(s: Bytes, k: nat)
    requires k + 2 <= |s|
    ensures Low(Le16(s, k)) == s[k] && High(Le16(s, k)) == s[k + 1]
  {
    var v, low: nat, high: nat := Le16(s, k), s[k], s[k + 1];
    assert v == high * 0x100 + low && v / 0x100 == high;
  }

  lemma Le32Octets(s: Bytes)
    requires |s| == 4
    ensures var v := Le32(s);
            && Low(v) == s[0] && High(v) == s[1] && Low(v / 0x1_0000) == s[2] && High(v / 0x1_0000) == s[3]
  {
    var v, low, high := Le32(s), Le16(s, 0), Le16(s, 2);
    assert v == high * 0x1_0000 + low && 0 <= low < 0x1_0000;
    assert v / 0x1_0000 == high && v % 0x1_0000 == low;
    Le16Octets(s, 0);
    Le16Octets(s, 2);
    SameLowHalf(v, high, low);
  }

  lemma SameLowHalf(v: int, high: int, low: int)
    requires v == high * 0x1_0000 + low
    ensures Low(v) == Low(low) && High(v) == High(low)
  {
    assert v == (high * 0x100) * 0x100 + low;
    var q := low / 0x100;
    assert low == q * 0x100 + low % 0x100;
    assert v == (high * 0x100 + q) * 0x100 + low % 0x100;
    assert v / 0x100 == high * 0x100 + q && v % 0x100 == low % 0x100;
    assert q == q / 0x100 * 0x100 + q % 0x100;
    assert high * 0x100 + q == (high + q / 0x100) * 0x100 + q % 0x100;
  }

  lemma FixedWasEncoded(message: Bytes, repository: Repository)
    requires message != [] && message[0] !in {ACTIVATION, EFFECT_FILTER, CORRECTION_FILTER}
    requires Decode(message, repository).Some?
    ensures WasEncoded(message, repository)
  {
    var tag, p := message[0], message[1..];
    hide Parse, DecodeFilter, IsUtf8;
    if |p| == 2 || |p| == 4 {
      Le16Octets(p, 0);
    }
    if |p| == 4 {
      Le16Octets(p, 2);
      Le32Octets(p);
    }
    hide Low, High, Le16, Le32;
    assert message == [tag] + p;
  }

  lemma FilterWasEncoded(message: Bytes, repository: Repository)
    requires message != [] && message[0] in {EFFECT_FILTER, CORRECTION_FILTER}
    requires Decode(message, repository).Some?
    ensures WasEncoded(message, repository)
  {
    hide IsUtf8;
    var tag, p := message[0], message[1..];
    var end: nat := 1 + p[0] as nat;
    assert message == [tag] + [p[0]] + p[1..end] + p[end..];
  }

  lemma ActivationWasEncoded(message: Bytes, repository: Repository)
    requires message != [] && message[0] == ACTIVATION
    requires Decode(message, repository).Some?
    ensures WasEncoded(message, repository)
  {
    hide Parse, ActivationBytes, Accepted, Encodable;
    ParsedWasWritten(message[1..], repository);
    assert message == [message[0]] + message[1..];
  }

  /** A message that the phone takes is the encoding of a command in range. */
  lemma DecodedWasEncoded(message: Bytes, repository: Repository)
    requires message != [] && Decode(message, repository).Some?
    ensures WasEncoded(message, repository)
  {
    hide Decode, WasEncoded;
    if message[0] == ACTIVATION {
      ActivationWasEncoded(message, repository);
    } else if message[0] in {EFFECT_FILTER, CORRECTION_FILTER} {
      FilterWasEncoded(message, repository);
    } else {
      FixedWasEncoded(message, repository);
    }
  }

  ghost predicate AllDecode(messages: seq<Bytes>, repository: Repository) {
    forall i | 0 <= i < |messages| :: messages[i] != [] && Decode(messages[i], repository).Some?
  }

  lemma {:induction false} GreedyDecodes(s: Bytes, repository: Repository)
    ensures AllDecode(Greedy(CommandCutter(repository), s).messages, repository)
    decreases |s|
  {
    hide Decode, MessageEnd;
    var cut := CommandCutter(repository);
    if cut(s).Whole? {
      GreedyDecodes(s[cut(s).size..], repository);
    }
  }

  lemma {:induction false} AppliedAreMessages(messages: seq<Bytes>, repository: Repository)
    requires AllDecode(messages, repository)
    ensures AllInRange(Applied(messages, repository), repository)
    ensures Sent(Applied(messages, repository), repository) == messages
  {
    hide Decode, Encode, InRange, Encodable;
    if messages != [] {
      var init, last := messages[..|messages| - 1], messages[|messages| - 1];
      AppliedAreMessages(init, repository);
      DecodedWasEncoded(last, repository);
      assert messages == init + [last];
    }
  }

  /**
   Whatever octets arrive and in what pieces: every command that the phone applies is in range, and as long as the
   stream is not refused it consists of exactly their encodings, followed by the beginning of one more message.
   */
  lemma AppliedIsTheStream(chunks: seq<Bytes>, repository: Repository)
    ensures var p := FeedAll(CommandCutter(repository), chunks);
            var commands := Applied(p.messages, repository);
            && AllInRange(commands, repository)
            && (!p.rejected ==> Framing.Flatten(chunks) == Framing.Flatten(Sent(commands, repository)) + p.pending
                                && CutCommand(p.pending, repository) == Incomplete)
  {
    var cut, s := CommandCutter(repository), Framing.Flatten(chunks);
    CommandCutterStable(repository);
    ChunkingIsIrrelevant(cut, chunks);
    GreedyDecodes(s, repository);
    AppliedAreMessages(Greedy(cut, s).messages, repository);
    PendingIsIncomplete(cut, s);
    if !Greedy(cut, s).rejected {
      ReceivedWasSent(cut, s);
    }
  }
}
