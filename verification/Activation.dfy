/** The activation packet: written by the Windows and Linux controllers, parsed by the phone. */
module Activation {
  import opened Octets
  import opened Utf8
  import opened Cursor

  const MAX_PACKET: nat := 0x1_0000
  const MAX_FILTERS: nat := 128
  const MAX_FILTER_NAME: nat := 128
  const FIXED_SIZE: nat := 36

  datatype Category = NONE | CORRECTION | EFFECT | DISTORTION | ARTISTIC

  /** FilterRepository.getCategory; an unknown name has category NONE. */
  type Repository = Bytes -> Category

  datatype Correction = Correction(name: Bytes, value: int)

  /** What an activation packet says; bit rates are in bit/s. */
  datatype Options = Options(
    fps: int, width: int, height: int, camera: int, adaptive: bool,
    bitrate: int, minBitrate: int, maxBitrate: int,
    stabilization: bool, flash: bool, h265: bool, focusMode: int,
    corrections: seq<Correction>, effect: Bytes)

  /** The camera that the phone opens. */
  datatype Facing = BACK | FRONT

  function FacingOf(o: Options): Facing {
    if o.camera == 1 then BACK else FRONT
  }

  predicate Int32(v: int) {
    -0x8000_0000 <= v < 0x8000_0000
  }

  predicate EncodableCorrection(c: Correction) {
    |c.name| < 0x1_0000 && Int32(c.value)
  }

  predicate EncodableList(cs: seq<Correction>) {
    forall i | 0 <= i < |cs| :: EncodableCorrection(cs[i])
  }

  /** The values that the wire format can carry at all. */
  predicate Encodable(o: Options) {
    && Int32(o.fps) && Int32(o.width) && Int32(o.height) && Int32(o.camera)
    && Int32(o.bitrate) && Int32(o.minBitrate) && Int32(o.maxBitrate) && Int32(o.focusMode)
    && |o.corrections| < 0x1_0000 && |o.effect| < 0x1_0000
    && EncodableList(o.corrections)
  }

  predicate ValidSize(width: int, height: int) {
    160 <= width <= 8192 && 160 <= height <= 8192 && width * height <= 16_777_216
  }

  /** The ranges that the phone checks on the fixed fields. */
  predicate FixedInRange(o: Options) {
    && 1 <= o.fps <= 60 && ValidSize(o.width, o.height) && 0 <= o.camera <= 1
    && 64_000 <= o.bitrate <= 50_000_000 && 64_000 <= o.minBitrate <= o.maxBitrate <= 50_000_000
    && 0 <= o.focusMode <= 1
  }

  ghost predicate ValidCorrection(c: Correction, repository: Repository) {
    |c.name| <= MAX_FILTER_NAME && IsUtf8(c.name) && -100 <= c.value <= 100 && repository(c.name) == CORRECTION
  }

  ghost predicate ValidList(cs: seq<Correction>, repository: Repository) {
    forall i | 0 <= i < |cs| :: ValidCorrection(cs[i], repository)
  }

  ghost predicate ValidEffect(name: Bytes, repository: Repository) {
    |name| <= MAX_FILTER_NAME && IsUtf8(name) && (name == [] || repository(name) == EFFECT)
  }

  /** The options that the phone takes. */
  ghost predicate Accepted(o: Options, repository: Repository) {
    && FixedInRange(o)
    && |o.corrections| <= MAX_FILTERS
    && ValidList(o.corrections, repository)
    && ValidEffect(o.effect, repository)
  }

  // ---------------------------------------------------------------- the wire format

  function Flag(b: bool): byte {
    if b then 1 else 0
  }

  function Word(v: int): (s: Bytes)
    requires Int32(v)
    ensures |s| == 4
  {
    Be32(Unsigned32(v))
  }

  function FixedBytes(o: Options): (s: Bytes)
    requires Encodable(o)
    ensures |s| == FIXED_SIZE
  {
    Word(o.fps) + Word(o.width) + Word(o.height) + Word(o.camera) + [Flag(o.adaptive)]
    + (Word(o.bitrate) + Word(o.minBitrate) + Word(o.maxBitrate))
    + [Flag(o.stabilization), Flag(o.flash), Flag(o.h265)] + Word(o.focusMode)
  }

  function CorrectionBytes(c: Correction): Bytes
    requires EncodableCorrection(c)
  {
    TextBytes(c.name) + Word(c.value)
  }

  function CorrectionsBytes(cs: seq<Correction>): Bytes
    requires EncodableList(cs)
  {
    if cs == [] then [] else CorrectionBytes(cs[0]) + CorrectionsBytes(cs[1..])
  }

  function TailBytes(o: Options): Bytes
    requires Encodable(o)
  {
    Be16(|o.corrections|) + (CorrectionsBytes(o.corrections) + TextBytes(o.effect))
  }

  function ActivationBytes(o: Options): Bytes
    requires Encodable(o)
  {
    FixedBytes(o) + TailBytes(o)
  }

  // ---------------------------------------------------------------- the phone's parser

  function WordAt(s: Bytes, k: nat): int
    requires k + 4 <= |s|
  {
    Be32Bound(s[k], s[k + 1], s[k + 2], s[k + 3]);
    Signed32(FromBe32(s[k], s[k + 1], s[k + 2], s[k + 3]))
  }

  lemma Be32Bound(b0: byte, b1: byte, b2: byte, b3: byte)
    ensures FromBe32(b0, b1, b2, b3) < 0x1_0000_0000
  {
  }

  function Fixed(s: Bytes): Options
    requires |s| >= FIXED_SIZE
  {
    Options(WordAt(s, 0), WordAt(s, 4), WordAt(s, 8), WordAt(s, 12), s[16] == 1,
            WordAt(s, 17), WordAt(s, 21), WordAt(s, 25), s[29] == 1, s[30] == 1, s[31] == 1, WordAt(s, 32), [], [])
  }

  predicate FlagsValid(s: Bytes)
    requires |s| >= FIXED_SIZE
  {
    s[16] <= 1 && s[29] <= 1 && s[30] <= 1 && s[31] <= 1
  }

  ghost function TakeCorrection(s: Bytes, repository: Repository): Read<Correction> {
    match TakeText(s, MAX_FILTER_NAME, false)
    case Short => Short
    case Bad => Bad
    case Got(name, s1) =>
      if |s1| < 4 then Short
      else
        var c := Correction(name, WordAt(s1, 0));
        if !ValidCorrection(c, repository) then Bad else Got(c, s1[4..])
  }

  ghost function TakeCorrections(s: Bytes, count: nat, repository: Repository): Read<seq<Correction>> {
    if count == 0 then Got([], s) else
    match TakeCorrection(s, repository)
    case Short => Short
    case Bad => Bad
    case Got(c, rest) => Prepended([c], TakeCorrections(rest, count - 1, repository))
  }

  /** Everything after the fixed fields. */
  ghost function ParseTail(o: Options, s: Bytes, repository: Repository): Option<Options> {
    if |s| < 2 || FromBe16(s[0], s[1]) > MAX_FILTERS then None
    else
      match TakeCorrections(s[2..], FromBe16(s[0], s[1]), repository)
      case Short => None
      case Bad => None
      case Got(cs, s1) =>
        match TakeText(s1, MAX_FILTER_NAME, false)
        case Short => None
        case Bad => None
        case Got(effect, rest) =>
          if rest != [] || (effect != [] && repository(effect) != EFFECT) then None
          else Some(o.(corrections := cs, effect := effect))
  }

  ghost function Parse(s: Bytes, repository: Repository): Option<Options> {
    if !(40 <= |s| <= MAX_PACKET) || !FlagsValid(s) || !FixedInRange(Fixed(s)) then None
    else ParseTail(Fixed(s), s[FIXED_SIZE..], repository)
  }

  /** The checks of the fixed fields. */
  method Required(o: Options) returns (ok: bool)
    ensures ok <==> FixedInRange(o)
  {
    if o.camera < 0 || o.camera > 1 || o.fps < 1 || o.fps > 60 {
      return false;
    }
    if o.width < 160 || o.width > 8192 || o.height < 160 || o.height > 8192 || o.width * o.height > 16_777_216 {
      return false;
    }
    if o.bitrate < 64_000 || o.bitrate > 50_000_000 || o.minBitrate < 64_000 || o.minBitrate > 50_000_000
       || o.maxBitrate < 64_000 || o.maxBitrate > 50_000_000 || o.minBitrate > o.maxBitrate {
      return false;
    }
    ok := 0 <= o.focusMode <= 1;
  }

  /** StreamOptions.deserialize */
  method Deserialize(data: Bytes, repository: Repository) returns (r: Option<Options>)
    ensures r == Parse(data, repository)
  {
    if |data| < 40 || |data| > MAX_PACKET {
      return None;
    }
    var reader := new Reader(data);
    var fixed, ok := ReadFixed(reader);
    if !ok {
      return None;
    }
    ok := Required(fixed);
    if !ok {
      return None;
    }
    ghost var tail := reader.Rest();
    var filterCount := reader.U16();
    if filterCount.Short? || filterCount.value > MAX_FILTERS {
      return None;
    }
    var corrections := ReadCorrections(reader, filterCount.value, repository);
    if !corrections.Got? {
      return None;
    }
    var effect := reader.Text(MAX_FILTER_NAME, false);
    if !effect.Got? || effect.rest != [] {
      return None;
    }
    if effect.value != [] && repository(effect.value) != EFFECT {
      return None;
    }
    r := Some(fixed.(corrections := corrections.value, effect := effect.value));
  }

  method ReadCorrections(reader: Reader, n: nat, repository: Repository) returns (r: Read<seq<Correction>>)
    requires reader.Valid()
    modifies reader
    ensures reader.Valid() && r == TakeCorrections(old(reader.Rest()), n, repository)
    ensures r.Got? ==> reader.Rest() == r.rest
  {
    hide TakeCorrection;
    var corrections: seq<Correction> := [];
    ghost var expected := TakeCorrections(reader.Rest(), n, repository);
    assert expected.Got? ==> [] + expected.value == expected.value;
    var i := 0;
    while i < n
      invariant 0 <= i <= n && reader.Valid()
      invariant expected == Prepended(corrections, TakeCorrections(reader.Rest(), n - i, repository))
    {
      var c := ReadCorrection(reader, repository);
      if !c.Got? {
        return if c.Short? then Short else Bad;
      }
      PrependOne(corrections, c.value, TakeCorrections(c.rest, n - i - 1, repository));
      corrections := corrections + [c.value];
      i := i + 1;
    }
    assert corrections + [] == corrections;
    r := Got(corrections, reader.Rest());
  }

  method ReadCorrection(reader: Reader, repository: Repository) returns (r: Read<Correction>)
    requires reader.Valid()
    modifies reader
    ensures reader.Valid() && r == TakeCorrection(old(reader.Rest()), repository)
    ensures r.Got? ==> reader.Rest() == r.rest
  {
    var name := reader.Text(MAX_FILTER_NAME, false);
    if !name.Got? {
      return if name.Short? then Short else Bad;
    }
    ghost var s1 := reader.Rest();
    assert IsUtf8(name.value) && |name.value| <= MAX_FILTER_NAME;
    if |reader.bytes| - reader.offset < 4 {
      return Short;
    }
    var value := ReadInt(reader);
    assert value == WordAt(s1, 0);
    if !(-100 <= value <= 100) || repository(name.value) != CORRECTION {
      return Bad;
    }
    r := Got(Correction(name.value, value), reader.Rest());
  }

  method ReadFixed(reader: Reader) returns (o: Options, ok: bool)
    requires reader.offset == 0 && |reader.bytes| >= 40
    modifies reader
    ensures reader.offset == FIXED_SIZE && o == Fixed(reader.bytes) && ok == FlagsValid(reader.bytes)
  {
    var fps, width, height, camera, adaptive, ok1 := ReadGeometry(reader);
    var bitrate := ReadInt(reader);
    var minBitrate := ReadInt(reader);
    var maxBitrate := ReadInt(reader);
    var stabilization, flash, h265, ok2 := ReadFlags(reader);
    var focusMode := ReadInt(reader);
    ok := ok1 && ok2;
    o := Options(fps, width, height, camera, adaptive, bitrate, minBitrate, maxBitrate,
                 stabilization, flash, h265, focusMode, [], []);
  }

  method ReadGeometry(reader: Reader) returns (fps: int, width: int, height: int, camera: int, adaptive: bool, ok: bool)
    requires reader.offset == 0 && |reader.bytes| >= 40
    modifies reader
    ensures var s := reader.bytes;
            && reader.offset == 17 && fps == WordAt(s, 0) && width == WordAt(s, 4) && height == WordAt(s, 8)
            && camera == WordAt(s, 12) && adaptive == (s[16] == 1) && ok == (s[16] <= 1)
  {
    fps := ReadInt(reader);
    width := ReadInt(reader);
    height := ReadInt(reader);
    camera := ReadInt(reader);
    adaptive, ok := ReadBool(reader);
  }

  method ReadFlags(reader: Reader) returns (a: bool, b: bool, c: bool, ok: bool)
    requires reader.offset == 29 && |reader.bytes| >= 40
    modifies reader
    ensures var s := reader.bytes;
            && reader.offset == 32 && a == (s[29] == 1) && b == (s[30] == 1) && c == (s[31] == 1)
            && ok == (s[29] <= 1 && s[30] <= 1 && s[31] <= 1)
  {
    var ok1, ok2, ok3;
    a, ok1 := ReadBool(reader);
    b, ok2 := ReadBool(reader);
    c, ok3 := ReadBool(reader);
    ok := ok1 && ok2 && ok3;
  }

  method ReadInt(reader: Reader) returns (v: int)
    requires reader.offset + 4 <= |reader.bytes|
    modifies reader
    ensures reader.offset == old(reader.offset) + 4 && v == WordAt(reader.bytes, old(reader.offset))
  {
    var word := reader.U32();
    Be32Bound(reader.bytes[old(reader.offset)], reader.bytes[old(reader.offset) + 1],
              reader.bytes[old(reader.offset) + 2], reader.bytes[old(reader.offset) + 3]);
    v := Signed32(word.value);
  }

  method ReadBool(reader: Reader) returns (b: bool, ok: bool)
    requires reader.offset + 1 <= |reader.bytes|
    modifies reader
    ensures reader.offset == old(reader.offset) + 1
    ensures b == (reader.bytes[old(reader.offset)] == 1) && ok == (reader.bytes[old(reader.offset)] <= 1)
  {
    var octet := reader.U8();
    b, ok := octet.value == 1, octet.value <= 1;
  }

  // ---------------------------------------------------------------- the parser inverts the format

  lemma WordInverse(v: int)
    requires Int32(v)
    ensures WordAt(Word(v), 0) == v
  {
    Be32Inverse(Unsigned32(v));
  }

  lemma WordAtPosition(before: Bytes, v: int, after: Bytes)
    requires Int32(v)
    ensures WordAt(before + Word(v) + after, |before|) == v
  {
    var s := before + Word(v) + after;
    assert s[|before|] == Word(v)[0] && s[|before| + 1] == Word(v)[1];
    assert s[|before| + 2] == Word(v)[2] && s[|before| + 3] == Word(v)[3];
    WordInverse(v);
  }

  lemma WordOfOctets(s: Bytes, k: nat)
    requires k + 4 <= |s|
    ensures Int32(WordAt(s, k)) && Word(WordAt(s, k)) == s[k..k + 4]
  {
    Be32OfOctets(s[k], s[k + 1], s[k + 2], s[k + 3]);
  }

  lemma FixedInverse(o: Options, tail: Bytes)
    requires Encodable(o)
    ensures Fixed(FixedBytes(o) + tail) == o.(corrections := [], effect := [])
    ensures FlagsValid(FixedBytes(o) + tail)
  {
    hide Word, WordAt;
    var s := FixedBytes(o) + tail;
    assert s[0..4] == Word(o.fps) && s[4..8] == Word(o.width) && s[8..12] == Word(o.height) &&
        s[12..16] == Word(o.camera);
    assert s[17..21] == Word(o.bitrate) && s[21..25] == Word(o.minBitrate) && s[25..29] == Word(o.maxBitrate);
    assert s[32..36] == Word(o.focusMode);
    forall k, v | 0 <= k <= 32 && Int32(v) && s[k..k + 4] == Word(v) ensures WordAt(s, k) == v {
      assert s == s[..k] + Word(v) + s[k + 4..];
      WordAtPosition(s[..k], v, s[k + 4..]);
    }
  }

  lemma FixedWasWritten(s: Bytes)
    requires |s| >= FIXED_SIZE && FlagsValid(s)
    ensures Encodable(Fixed(s)) && FixedBytes(Fixed(s)) == s[..FIXED_SIZE]
  {
    hide Word, WordAt;
    WordOfOctets(s, 0);
    WordOfOctets(s, 4);
    WordOfOctets(s, 8);
    WordOfOctets(s, 12);
    WordOfOctets(s, 17);
    WordOfOctets(s, 21);
    WordOfOctets(s, 25);
    WordOfOctets(s, 32);
    assert s[..FIXED_SIZE] == s[0..4] + s[4..8] + s[8..12] + s[12..16] + [s[16]]
                              + (s[17..21] + s[21..25] + s[25..29]) + [s[29], s[30], s[31]] + s[32..36];
  }

  lemma CorrectionInverse(c: Correction, rest: Bytes, repository: Repository)
    requires ValidCorrection(c, repository)
    ensures TakeCorrection(CorrectionBytes(c) + rest, repository) == Got(c, rest)
  {
    hide Word, WordAt, TextBytes, TakeText;
    var after := Word(c.value) + rest;
    assert CorrectionBytes(c) + rest == TextBytes(c.name) + after;
    TakeWrittenText(c.name, after, MAX_FILTER_NAME, false);
    WordAtPosition([], c.value, rest);
    assert [] + Word(c.value) + rest == after;
    assert after[4..] == rest;
  }

  lemma CorrectionWasWritten(s: Bytes, repository: Repository)
    requires TakeCorrection(s, repository).Got?
    ensures var r := TakeCorrection(s, repository);
            ValidCorrection(r.value, repository) && s == CorrectionBytes(r.value) + r.rest
  {
    TakenTextWasWritten(s, MAX_FILTER_NAME, false);
    var s1 := TakeText(s, MAX_FILTER_NAME, false).rest;
    WordOfOctets(s1, 0);
    assert s1 == s1[0..4] + s1[4..];
  }

  lemma {:induction false} CorrectionsInverse(cs: seq<Correction>, rest: Bytes, repository: Repository)
    requires ValidList(cs, repository) && EncodableList(cs)
    ensures TakeCorrections(CorrectionsBytes(cs) + rest, |cs|, repository) == Got(cs, rest)
    decreases cs
  {
    hide CorrectionBytes, TakeCorrection, ValidCorrection, EncodableCorrection;
    if cs == [] {
      assert CorrectionsBytes(cs) + rest == rest;
    } else {
      var more := CorrectionsBytes(cs[1..]) + rest;
      CorrectionsInverse(cs[1..], rest, repository);
      CorrectionInverse(cs[0], more, repository);
      assert CorrectionsBytes(cs) + rest == CorrectionBytes(cs[0]) + more;
      assert [cs[0]] + cs[1..] == cs;
    }
  }

  lemma {:induction false} CorrectionsWereWritten(s: Bytes, count: nat, repository: Repository)
    requires TakeCorrections(s, count, repository).Got?
    ensures var r := TakeCorrections(s, count, repository);
            |r.value| == count && ValidList(r.value, repository) && EncodableList(r.value) &&
                s == CorrectionsBytes(r.value) + r.rest
    decreases count
  {
    hide CorrectionBytes, TakeCorrection, ValidCorrection, EncodableCorrection;
    if count > 0 {
      CorrectionWasWritten(s, repository);
      var one := TakeCorrection(s, repository);
      CorrectionsWereWritten(one.rest, count - 1, repository);
      var more := TakeCorrections(one.rest, count - 1, repository);
      PrependBytes(one.value, more.value);
      assert s == CorrectionBytes(one.value) + CorrectionsBytes(more.value) + more.rest;
    }
  }

  lemma PrependBytes(c: Correction, cs: seq<Correction>)
    requires EncodableCorrection(c) && EncodableList(cs)
    ensures EncodableList([c] + cs) && CorrectionsBytes([c] + cs) == CorrectionBytes(c) + CorrectionsBytes(cs)
  {
    assert ([c] + cs)[1..] == cs;
  }

  lemma TailInverse(o: Options, repository: Repository)
    requires Accepted(o, repository) && Encodable(o)
    ensures ParseTail(o.(corrections := [], effect := []), TailBytes(o), repository) == Some(o)
  {
    hide TakeCorrections, TakeText, CorrectionsBytes;
    var s := TailBytes(o);
    CorrectionsInverse(o.corrections, TextBytes(o.effect), repository);
    assert s[2..] == CorrectionsBytes(o.corrections) + TextBytes(o.effect);
    TakeWrittenText(o.effect, [], MAX_FILTER_NAME, false);
    assert TextBytes(o.effect) + [] == TextBytes(o.effect);
  }

  lemma TailWasWritten(o: Options, s: Bytes, repository: Repository)
    requires ParseTail(o, s, repository).Some? && FixedInRange(o)
    ensures var p := ParseTail(o, s, repository).value;
            Accepted(p, repository) && Encodable(p) && TailBytes(p) == s
  {
    hide TakeCorrections, TakeText, CorrectionsBytes, FromBe16, Be16;
    var n := FromBe16(s[0], s[1]);
    Be16OfOctets(s[0], s[1]);
    CorrectionsWereWritten(s[2..], n, repository);
    var r := TakeCorrections(s[2..], n, repository);
    TakenTextWasWritten(r.rest, MAX_FILTER_NAME, false);
    var t := TakeText(r.rest, MAX_FILTER_NAME, false);
    assert TextBytes(t.value) + [] == TextBytes(t.value);
    assert s == [s[0], s[1]] + s[2..];
  }

  lemma {:induction false} CorrectionsSize(cs: seq<Correction>)
    requires EncodableList(cs) && forall i | 0 <= i < |cs| :: |cs[i].name| <= MAX_FILTER_NAME
    ensures |CorrectionsBytes(cs)| <= 134 * |cs|
  {
    if cs != [] {
      CorrectionsSize(cs[1..]);
    }
  }

  lemma AcceptedIsEncodable(o: Options, repository: Repository)
    requires Accepted(o, repository)
    ensures Encodable(o)
  {
    forall i | 0 <= i < |o.corrections| ensures EncodableCorrection(o.corrections[i]) {
      assert ValidCorrection(o.corrections[i], repository);
    }
  }

  /** Every field of accepted options comes back from the packet that carries them. */
  lemma ActivationRoundTrip(o: Options, repository: Repository)
    requires Accepted(o, repository) && Encodable(o)
    ensures Parse(ActivationBytes(o), repository) == Some(o)
  {
    var s := ActivationBytes(o);
    FixedInverse(o, TailBytes(o));
    assert s[FIXED_SIZE..] == TailBytes(o);
    TailInverse(o, repository);
    forall i | 0 <= i < |o.corrections| ensures |o.corrections[i].name| <= MAX_FILTER_NAME {
      assert ValidCorrection(o.corrections[i], repository);
    }
    CorrectionsSize(o.corrections);
  }

  /** Whatever the phone accepts is acceptable, and its packet is exactly the octets that were received. */
  lemma ParsedWasWritten(s: Bytes, repository: Repository)
    requires Parse(s, repository).Some?
    ensures var o := Parse(s, repository).value;
            Accepted(o, repository) && Encodable(o) && ActivationBytes(o) == s
  {
    FixedWasWritten(s);
    TailWasWritten(Fixed(s), s[FIXED_SIZE..], repository);
    assert s == s[..FIXED_SIZE] + s[FIXED_SIZE..];
  }

  // ---------------------------------------------------------------- the Linux controller

  /** The packet that buildActivationPacket makes of its ten settings: no filters, no effect. */
  method BuildActivationPacket(o: Options) returns (packet: Bytes)
    requires Encodable(o) && o.corrections == [] && o.effect == []
    ensures packet == ActivationBytes(o) && |packet| == 40
  {
    hide FixedBytes;
    packet := WriteSettings(o);
    packet := packet + Be16(0);
    packet := packet + Be16(0);
    assert TailBytes(o) == Be16(0) + Be16(0);
  }

  method WriteSettings(o: Options) returns (packet: Bytes)
    requires Encodable(o)
    ensures packet == FixedBytes(o)
  {
    hide Word;
    packet := [];
    packet := packet + Word(o.fps);
    packet := packet + Word(o.width);
    packet := packet + Word(o.height);
    packet := packet + Word(o.camera);
    packet := packet + [Flag(o.adaptive)];
    var rates := [];
    rates := rates + Word(o.bitrate);
    rates := rates + Word(o.minBitrate);
    rates := rates + Word(o.maxBitrate);
    packet := packet + rates;
    packet := packet + [Flag(o.stabilization), Flag(o.flash), Flag(o.h265)];
    packet := packet + Word(o.focusMode);
  }

  const LINUX_DEFAULT := Options(30, 640, 480, 1, false, 4_096_000, 512_000, 25_600_000, false, false, false, 0, [], [])

  /** The activation that handleClient sends is accepted by every phone: the back camera at 640 x 480 and 30 fps. */
  lemma LinuxDefaultArrives(repository: Repository)
    ensures Parse(ActivationBytes(LINUX_DEFAULT), repository) == Some(LINUX_DEFAULT)
    ensures var o := Parse(ActivationBytes(LINUX_DEFAULT), repository).value;
            && FacingOf(o) == BACK && (o.width, o.height, o.fps) == (640, 480, 30)
            && (o.bitrate, o.minBitrate, o.maxBitrate) == (4000 * 1024, 500 * 1024, 25_000 * 1024)
            && !o.adaptive && !o.stabilization && !o.flash && !o.h265 && o.focusMode == 0
            && o.corrections == [] && o.effect == []
  {
    assert Encode([]) == [];
    ActivationRoundTrip(LINUX_DEFAULT, repository);
  }

  // ---------------------------------------------------------------- the Windows controller

  const MAX_STRING: nat := 2048

  /** The settings of one device; bit rates are in kbit/s. */
  datatype DeviceState = DeviceState(
    fps: int, width: int, height: int, backCameraActive: bool, adaptiveBitrate: bool,
    bitrate: int, minBitrate: int, maxBitrate: int,
    stabilizationEnabled: bool, flashEnabled: bool, h265Enabled: bool, focusMode: int,
    filterSliderValues: seq<Correction>, activeEffectFilter: Bytes)

  /** The options that a device state stands for. */
  function WireOptions(d: DeviceState): Options {
    Options(d.fps, d.width, d.height, if d.backCameraActive then 1 else 0, d.adaptiveBitrate,
            d.bitrate * 1024, d.minBitrate * 1024, d.maxBitrate * 1024,
            d.stabilizationEnabled, d.flashEnabled, d.h265Enabled, d.focusMode,
            d.filterSliderValues, d.activeEffectFilter)
  }

  predicate Serializable(d: DeviceState) {
    && 1 <= d.fps <= 60 && ValidSize(d.width, d.height) && 0 <= d.focusMode <= 1
    && 64 <= d.bitrate <= 25_000 && 64 <= d.minBitrate <= d.maxBitrate <= 25_000
    && |d.filterSliderValues| <= MAX_FILTERS
  }

  predicate SlidersSerializable(cs: seq<Correction>) {
    forall i | 0 <= i < |cs| :: |cs[i].name| <= 2048 && -100 <= cs[i].value <= 100
  }

  /** SerializeStreamOptions; None stands for an exception. */
  method SerializeStreamOptions(d: DeviceState) returns (r: Option<Bytes>)
    ensures r.Some? ==>
              && Serializable(d) && SlidersSerializable(d.filterSliderValues) && |d.activeEffectFilter| <= 2048
              && Encodable(WireOptions(d)) && r.value == [0] + ActivationBytes(WireOptions(d))
    ensures r.None? ==>
              !(&& Serializable(d) && SlidersSerializable(d.filterSliderValues) && |d.activeEffectFilter| <= 2048
                && Encodable(WireOptions(d)) && 1 + |ActivationBytes(WireOptions(d))| <= 65_536)
  {
    hide FixedBytes, CorrectionsBytes, TextBytes, Be16;
    if d.fps < 1 || d.fps > 60 || d.width < 160 || d.height < 160 || d.width > 8192 || d.height > 8192
       || d.width * d.height > 16_777_216 || d.focusMode < 0 || d.focusMode > 1
       || |d.filterSliderValues| > MAX_FILTERS || d.bitrate < 64 || d.bitrate > 25_000 || d.minBitrate < 64
       || d.minBitrate > 25_000 || d.maxBitrate < d.minBitrate || d.maxBitrate > 25_000 {
      return None;
    }
    var buffer: Bytes := [0];
    buffer := buffer + FixedBytes(WireOptions(d).(corrections := [], effect := []));
    buffer := buffer + Be16(|d.filterSliderValues|);
    var sliders := WriteSliders(d.filterSliderValues);
    if sliders.None? || |d.activeEffectFilter| > MAX_STRING {
      return None;
    }
    buffer := buffer + sliders.value;
    buffer := buffer + TextBytes(d.activeEffectFilter);
    SameFixedBytes(WireOptions(d));
    assert buffer == [0] + ActivationBytes(WireOptions(d));
    if |buffer| > MAX_PACKET {
      return None;
    }
    r := Some(buffer);
  }

  lemma SameFixedBytes(o: Options)
    requires Encodable(o)
    ensures FixedBytes(o.(corrections := [], effect := [])) == FixedBytes(o)
  {
  }

  method WriteSliders(sliders: seq<Correction>) returns (r: Option<Bytes>)
    ensures r.Some? <==> SlidersSerializable(sliders)
    ensures r.Some? ==> EncodableList(sliders) && r.value == CorrectionsBytes(sliders)
  {
    var buffer := [];
    var i := 0;
    while i < |sliders|
      invariant 0 <= i <= |sliders|
      invariant SlidersSerializable(sliders[..i]) && EncodableList(sliders[..i])
      invariant buffer == CorrectionsBytes(sliders[..i])
    {
      var slider := sliders[i];
      if slider.value < -100 || slider.value > 100 || |slider.name| > MAX_STRING {
        return None;
      }
      assert sliders[..i + 1] == sliders[..i] + [slider];
      CorrectionsAppend(sliders[..i], slider);
      buffer := buffer + CorrectionBytes(slider);
      i := i + 1;
    }
    assert sliders[..i] == sliders;
    r := Some(buffer);
  }

  lemma {:induction false} CorrectionsAppend(cs: seq<Correction>, c: Correction)
    requires EncodableList(cs) && EncodableCorrection(c)
    ensures EncodableList(cs + [c]) && CorrectionsBytes(cs + [c]) == CorrectionsBytes(cs) + CorrectionBytes(c)
  {
    hide CorrectionBytes, EncodableCorrection;
    if cs == [] {
      assert CorrectionsBytes([c]) == CorrectionBytes(c) + CorrectionsBytes([]);
    } else {
      CorrectionsAppend(cs[1..], c);
      assert (cs + [c])[1..] == cs[1..] + [c];
    }
  }

  lemma ShortEffect(name: Bytes, repository: Repository)
    requires ValidEffect(name, repository)
    ensures |name| <= MAX_FILTER_NAME
  {
  }

  /** The names in a device state are filters that the phone knows, under the categories it wants. */
  ghost predicate FiltersRecognised(d: DeviceState, repository: Repository) {
    && ValidList(d.filterSliderValues, repository)
    && ValidEffect(d.activeEffectFilter, repository)
  }

  /** The phone's options do what the settings of the controller say. */
  predicate Carries(o: Options, d: DeviceState) {
    && (FacingOf(o) == BACK <==> d.backCameraActive)
    && o.fps == d.fps && o.width == d.width && o.height == d.height
    && o.bitrate == 1024 * d.bitrate && o.minBitrate == 1024 * d.minBitrate && o.maxBitrate == 1024 * d.maxBitrate
    && (o.adaptive <==> d.adaptiveBitrate) && (o.stabilization <==> d.stabilizationEnabled)
    && (o.flash <==> d.flashEnabled) && (o.h265 <==> d.h265Enabled) && o.focusMode == d.focusMode
    && o.corrections == d.filterSliderValues && o.effect == d.activeEffectFilter
  }

  /**
   From Windows to the phone: every state whose filters the phone knows is serialised, fits, and what the phone
   parses carries it. Kilobits times 1024 stay within 32 bits and within the phone's range of bit rates.
   */
  lemma WindowsActivationArrives(d: DeviceState, repository: Repository)
    requires Serializable(d) && FiltersRecognised(d, repository)
    ensures SlidersSerializable(d.filterSliderValues) && |d.activeEffectFilter| <= 2048
    ensures Encodable(WireOptions(d)) && Accepted(WireOptions(d), repository)
    ensures 1 + |ActivationBytes(WireOptions(d))| <= 65_536
    ensures var packet := [0] + ActivationBytes(WireOptions(d));
            var parsed := Parse(packet[1..], repository);
            parsed == Some(WireOptions(d)) && Carries(parsed.value, d)
  {
    hide Parse, FixedBytes, CorrectionsBytes, ValidEffect;
    var o := WireOptions(d);
    ShortEffect(o.effect, repository);
    forall i | 0 <= i < |d.filterSliderValues|
      ensures |d.filterSliderValues[i].name| <= MAX_FILTER_NAME && -100 <= d.filterSliderValues[i].value <= 100
    {
      assert ValidCorrection(d.filterSliderValues[i], repository);
    }
    AcceptedIsEncodable(o, repository);
    CorrectionsSize(o.corrections);
    ActivationRoundTrip(o, repository);
    assert ([0] + ActivationBytes(o))[1..] == ActivationBytes(o);
  }
}
