/** The settings file of the Windows receiver: its printer and its parser. */
module SettingsFile {
  import opened Octets
  import opened TextLines

  // ---------------------------------------------------------------- numbers

  predicate IsDigit(c: char) {
    '0' <= c <= '9'
  }

  function Digits(v: nat): (s: string)
    ensures s != "" && forall i | 0 <= i < |s| :: IsDigit(s[i])
  {
    if v < 10 then [v as char + '0'] else Digits(v / 10) + [(v % 10) as char + '0']
  }

  /** An integer as operator<< prints it. */
  function Decimal(v: int): (s: string)
    ensures s != "" && IsDigit(s[|s| - 1])
    ensures forall i | 0 <= i < |s| :: IsDigit(s[i]) || s[i] == '-'
  {
    if v < 0 then "-" + Digits(-v) else Digits(v)
  }

  function DigitCount(s: string): (n: nat)
    ensures n <= |s|
  {
    if s == "" || !IsDigit(s[0]) then 0 else 1 + DigitCount(s[1..])
  }

  function Number(s: string): nat {
    if s == "" || !IsDigit(s[|s| - 1]) then 0 else Number(s[..|s| - 1]) * 10 + (s[|s| - 1] - '0') as nat
  }

  predicate IsSpace(c: char) {
    c in " \t\n\r\U{0B}\U{0C}"
  }

  function SkipSpace(s: string): string {
    if s != "" && IsSpace(s[0]) then SkipSpace(s[1..]) else s
  }

  /** std::atoi, for numbers within the range of int. */
  function Atoi(s: string): int {
    var t := SkipSpace(s);
    if t != "" && t[0] == '-' then 0 - Number(t[1..][..DigitCount(t[1..])])
    else
      var u := if t != "" && t[0] == '+' then t[1..] else t;
      Number(u[..DigitCount(u)])
  }

  lemma {:induction false} NumberOfDigits(v: nat)
    ensures Number(Digits(v)) == v
  {
    if v >= 10 {
      NumberOfDigits(v / 10);
      assert Digits(v)[..|Digits(v)| - 1] == Digits(v / 10);
    } else {
      assert Digits(v)[..0] == "";
    }
  }

  lemma {:induction false} AllDigits(s: string)
    requires forall i | 0 <= i < |s| :: IsDigit(s[i])
    ensures DigitCount(s) == |s|
  {
    if s != "" {
      AllDigits(s[1..]);
    }
  }

  lemma NoSpace(s: string)
    requires s != "" && (IsDigit(s[0]) || s[0] == '-')
    ensures SkipSpace(s) == s
  {
  }

  lemma AtoiOfDecimal(v: int)
    ensures Atoi(Decimal(v)) == v
  {
    var d := Digits(if v < 0 then -v else v);
    AllDigits(d);
    NumberOfDigits(if v < 0 then -v else v);
    NoSpace(Decimal(v));
    hide SkipSpace, Digits, Number, DigitCount;
    assert d[..|d|] == d;
    assert ("-" + d)[1..] == d;
  }

  lemma {:induction false} SpacesSkipped(space: string, s: string)
    requires (forall i | 0 <= i < |space| :: IsSpace(space[i])) && (s == "" || !IsSpace(s[0]))
    ensures SkipSpace(space + s) == s
  {
    if space == "" {
      assert space + s == s;
    } else {
      SpacesSkipped(space[1..], s);
      assert (space + s)[1..] == space[1..] + s;
    }
  }

  lemma {:induction false} DigitsThen(d: string, tail: string)
    requires (forall i | 0 <= i < |d| :: IsDigit(d[i])) && (tail == "" || !IsDigit(tail[0]))
    ensures DigitCount(d + tail) == |d| && (d + tail)[..|d|] == d
  {
    if d == "" {
      assert d + tail == tail;
    } else {
      DigitsThen(d[1..], tail);
      assert (d + tail)[1..] == d[1..] + tail;
    }
  }

  /** Numbers are printed with a sign if negative, and without leading zeros. */
  lemma {:induction false} DigitsShape(v: nat)
    ensures Digits(v)[0] == '0' <==> v == 0
    ensures Digits(v)[0] == '0' ==> |Digits(v)| == 1
  {
    if v >= 10 {
      DigitsShape(v / 10);
    }
  }

  lemma DecimalShape(v: int)
    ensures Decimal(v)[0] == '-' <==> v < 0
    ensures Decimal(v)[0] == '0' ==> Decimal(v) == "0"
    ensures v < 0 ==> Decimal(v)[1..] == Decimal(-v)
  {
    DigitsShape(if v < 0 then -v else v);
    assert IsDigit(Digits(if v < 0 then -v else v)[0]);
    assert v < 0 ==> Decimal(v)[1..] == Digits(-v);
  }

  lemma AtoiAfterSpace(space: string, s: string)
    requires (forall i | 0 <= i < |space| :: IsSpace(space[i])) && (s == "" || !IsSpace(s[0]))
    ensures Atoi(space + s) == Atoi(s)
  {
    SpacesSkipped(space, s);
    SpacesSkipped("", s);
    assert "" + s == s;
    hide SkipSpace, Number, DigitCount;
  }

  lemma AtoiOfDigits(v: nat, tail: string)
    requires tail == "" || !IsDigit(tail[0])
    ensures var s := Digits(v) + tail; Atoi(s) == Atoi("+" + s) == v && Atoi("-" + s) == 0 - v
  {
    var d := Digits(v);
    var s := d + tail;
    assert IsDigit(d[0]) && s[0] == d[0];
    DigitsThen(d, tail);
    NumberOfDigits(v);
    AtoiSigned(s);
    hide Atoi, Digits, Number, DigitCount;
  }

  lemma AtoiSigned(s: string)
    requires s != "" && IsDigit(s[0])
    ensures var n := Number(s[..DigitCount(s)]); Atoi(s) == Atoi("+" + s) == n && Atoi("-" + s) == 0 - n
  {
    assert SkipSpace(s) == s && SkipSpace("+" + s) == "+" + s && SkipSpace("-" + s) == "-" + s;
    hide SkipSpace, Number, DigitCount;
    assert ("+" + s)[1..] == s && ("-" + s)[1..] == s;
  }

  lemma AtoiOfDecimalThen(v: int, tail: string)
    requires tail == "" || !IsDigit(tail[0])
    ensures var s := Decimal(v) + tail;
            s != "" && !IsSpace(s[0]) && Atoi(s) == v && (v >= 0 ==> Atoi("+" + s) == v)
  {
    var d := Digits(if v < 0 then -v else v);
    AtoiOfDigits(if v < 0 then -v else v, tail);
    assert IsDigit(d[0]);
    hide Atoi, Digits;
    assert Decimal(v) + tail == if v < 0 then "-" + (d + tail) else d + tail;
  }

  /** White space before a number, a plus sign, and whatever follows its digits make no difference. */
  lemma AtoiReads(space: string, v: int, tail: string)
    requires (forall i | 0 <= i < |space| :: IsSpace(space[i])) && (tail == "" || !IsDigit(tail[0]))
    ensures Atoi(space + (Decimal(v) + tail)) == v
    ensures v >= 0 ==> Atoi(space + ("+" + (Decimal(v) + tail))) == v
  {
    AtoiOfDecimalThen(v, tail);
    hide Atoi, Decimal;
    AtoiAfterSpace(space, Decimal(v) + tail);
    AtoiAfterSpace(space, "+" + (Decimal(v) + tail));
  }

  // ---------------------------------------------------------------- what is stored

  datatype StreamOptions = StreamOptions(
    fps: int, width: int, height: int, backCameraActive: bool,
    adaptiveBitrate: bool, bitrate: int, minBitrate: int, maxBitrate: int,
    stabilizationEnabled: bool, flashEnabled: bool, h265Enabled: bool, focusMode: int,
    filterSliderValues: map<string, int>, activeEffectFilter: string, zoom: real)

  const DEFAULT := StreamOptions(30, 640, 480, true, false, 4000, 2000, 12000, false, false, false, 0, map[], "", 1.0)

  datatype Store = Store(settings: map<string, int>, devices: map<string, StreamOptions>)

  const SAVE_DEVICE_STATES := "SAVE_DEVICE_STATES"

  // ---------------------------------------------------------------- the parser

  /** The position of the first c, or -1. */
  function IndexOf(s: string, c: char): (k: int)
    ensures -1 <= k < |s| && (k >= 0 ==> s[k] == c)
    ensures forall i | 0 <= i < (if k < 0 then |s| else k) :: s[i] != c
  {
    if s == "" then -1
    else if s[0] == c then 0
    else
      var k := IndexOf(s[1..], c);
      if k < 0 then -1 else k + 1
  }

  predicate HasPrefix(s: string, prefix: string) {
    |prefix| <= |s| && s[..|prefix|] == prefix
  }

  function WithResolution(state: StreamOptions, val: string): StreamOptions {
    var xPos := IndexOf(val, 'x');
    if xPos < 0 then state else state.(width := Atoi(val[..xPos]), height := Atoi(val[xPos + 1..]))
  }

  /** A resolution is two numbers around the first x; without one it is left alone. */
  lemma ResolutionRead(state: StreamOptions, width: string, height: string)
    requires forall i | 0 <= i < |width| :: width[i] != 'x'
    ensures var r := WithResolution(state, width + "x" + height);
            r == state.(width := Atoi(width), height := Atoi(height))
    ensures WithResolution(state, width) == state
  {
    var val := width + "x" + height;
    assert val[..|width|] == width && val[|width|] == 'x' && val[|width| + 1..] == height;
    assert forall i | 0 <= i < |width| :: val[i] == width[i];
    hide Atoi;
  }

  const FIXED_KEYS := {"fps", "back_cam", "res", "adaptive_br", "bitrate", "min_br", "max_br", "stab", "flash",
      "h265", "focus"}

  function ParseFixed(state: StreamOptions, key: string, val: string): (s: StreamOptions)
    ensures s.filterSliderValues == state.filterSliderValues && s.activeEffectFilter == state.activeEffectFilter
  {
    if key == "fps" then state.(fps := Atoi(val))
    else if key == "back_cam" then state.(backCameraActive := val == "1")
    else if key == "res" then WithResolution(state, val)
    else if key == "adaptive_br" then state.(adaptiveBitrate := val == "1")
    else if key == "bitrate" then state.(bitrate := Atoi(val))
    else if key == "min_br" then state.(minBitrate := Atoi(val))
    else if key == "max_br" then state.(maxBitrate := Atoi(val))
    else if key == "stab" then state.(stabilizationEnabled := val == "1")
    else if key == "flash" then state.(flashEnabled := val == "1")
    else if key == "h265" then state.(h265Enabled := val == "1")
    else if key == "focus" then state.(focusMode := Atoi(val))
    else state
  }

  function ParseDeviceLine(state: StreamOptions, key: string, val: string): StreamOptions {
    if key in FIXED_KEYS then ParseFixed(state, key, val)
    else if HasPrefix(key, "C:") then state.(filterSliderValues := state.filterSliderValues[key[2..] := Atoi(val)])
    else if HasPrefix(key, "E:") then state.(activeEffectFilter := val)
    else state
  }

  /** The parser between two lines: what it has read, and the device whose section it is in. */
  datatype Parser = Parser(store: Store, current: Option<string>)

  predicate IsHeader(line: string) {
    line != "" && line[0] == '[' && line[|line| - 1] == ']' && |line| >= 2
  }

  function ParseHeader(p: Parser, section: string): Parser {
    if HasPrefix(section, "DEVICE:") then
      var name := section[7..];
      var devices := p.store.devices;
      Parser(p.store.(devices := if name in devices then devices else devices[name := DEFAULT]), Some(name))
    else p.(current := None)
  }

  function ParseEntry(p: Parser, key: string, val: string): Parser {
    match p.current
    case None => p.(store := p.store.(settings := p.store.settings[key := Atoi(val)]))
    case Some(name) =>
      var state := if name in p.store.devices then p.store.devices[name] else DEFAULT;
      p.(store := p.store.(devices := p.store.devices[name := ParseDeviceLine(state, key, val)]))
  }

  function ParseLine(p: Parser, line: string): Parser {
    if line == "" then p
    else if IsHeader(line) then ParseHeader(p, line[1..|line| - 1])
    else
      var pos := IndexOf(line, '=');
      if pos < 0 then p else ParseEntry(p, line[..pos], line[pos + 1..])
  }

  function ParseLines(p: Parser, lines: seq<string>): Parser
    decreases |lines|
  {
    if lines == [] then p else ParseLines(ParseLine(p, lines[0]), lines[1..])
  }

  /** A line in brackets is a header, also an empty one; and nothing else is. */
  lemma HeaderExactly(line: string, section: string)
    ensures IsHeader("[" + section + "]")
    ensures IsHeader(line) <==> |line| >= 2 && line == "[" + line[1..|line| - 1] + "]"
  {
    var header := "[" + section + "]";
    assert header[|header| - 1] == ']';
  }

  /** A device header opens that device's section; what an earlier section of the device has set is kept. */
  lemma SectionOpens(p: Parser, name: string)
    ensures var q, devices := ParseLine(p, "[DEVICE:" + name + "]"), p.store.devices;
            && q.current == Some(name) && q.store.settings == p.store.settings
            && q.store.devices == devices[name := if name in devices then devices[name] else DEFAULT]
    ensures DEFAULT.fps == 30 && DEFAULT.width == 640 && DEFAULT.height == 480 && DEFAULT.backCameraActive
    ensures DEFAULT.bitrate == 4000 && DEFAULT.minBitrate == 2000 && DEFAULT.maxBitrate == 12_000
    ensures !DEFAULT.adaptiveBitrate && !DEFAULT.stabilizationEnabled && !DEFAULT.flashEnabled && !DEFAULT.h265Enabled
    ensures DEFAULT.focusMode == 0 && DEFAULT.filterSliderValues == map[] && DEFAULT.activeEffectFilter == ""
  {
    var line := "[DEVICE:" + name + "]";
    var section := "DEVICE:" + name;
    assert line[1..|line| - 1] == section && section[7..] == name && section[..7] == "DEVICE:";
    assert name in p.store.devices ==> p.store.devices[name := p.store.devices[name]] == p.store.devices;
  }

  /** Any other header closes the section, so that what follows is global. */
  lemma OtherHeaderCloses(p: Parser, section: string)
    requires !("DEVICE:" <= section)
    ensures ParseLine(p, "[" + section + "]") == p.(current := None)
  {
    var line := "[" + section + "]";
    assert line[1..|line| - 1] == section;
  }

  /** A key that is not one of the eleven and has neither prefix says nothing about a device. */
  lemma UnknownKeyIgnored(state: StreamOptions, key: string, val: string)
    requires key !in {"fps", "back_cam", "res", "adaptive_br", "bitrate", "min_br", "max_br"}
    requires key !in {"stab", "flash", "h265", "focus"}
    requires !("C:" <= key) && !("E:" <= key)
    ensures ParseDeviceLine(state, key, val) == state
  {
    hide ParseFixed;
  }

  const EMPTY := Parser(Store(map[], map[]), None)

  function Parsed(text: string): Store {
    ParseLines(EMPTY, LinesOf(text)).store
  }

  lemma {:induction false} ParseMore(p: Parser, a: seq<string>, b: seq<string>)
    ensures ParseLines(p, a + b) == ParseLines(ParseLines(p, a), b)
    decreases |a|
  {
    hide ParseLine;
    if a == [] {
      assert a + b == b;
    } else {
      ParseMore(ParseLine(p, a[0]), a[1..], b);
      assert (a + b)[1..] == a[1..] + b;
    }
  }

  lemma ParseOne(p: Parser, line: string)
    ensures ParseLines(p, [line]) == ParseLine(p, line)
  {
  }

  // ---------------------------------------------------------------- one line of each kind

  predicate Plain(key: string) {
    OneLine(key) && forall i | 0 <= i < |key| :: key[i] != '='
  }

  function Entry(key: string, val: string): string {
    key + ("=" + val)
  }

  lemma IndexOfIs(before: string, c: char, after: string)
    requires forall i | 0 <= i < |before| :: before[i] != c
    ensures IndexOf(before + ([c] + after), c) == |before|
  {
    var s := before + ([c] + after);
    assert s[|before|] == c && forall i | 0 <= i < |before| :: s[i] == before[i];
  }

  lemma EntryParsed(p: Parser, key: string, val: string)
    requires Plain(key) && !IsHeader(Entry(key, val))
    ensures ParseLine(p, Entry(key, val)) == ParseEntry(p, key, val)
  {
    hide ParseEntry, IsHeader, ParseHeader;
    IndexOfIs(key, '=', val);
    assert ['='] == "=";
    var line := Entry(key, val);
    assert line[..|key|] == key && line[|key| + 1..] == val;
  }

  function FlagText(b: bool): string {
    if b then "1" else "0"
  }

  lemma NumbersParsed(s: StreamOptions, v: int)
    ensures ParseDeviceLine(s, "fps", Decimal(v)) == s.(fps := v)
    ensures ParseDeviceLine(s, "bitrate", Decimal(v)) == s.(bitrate := v)
    ensures ParseDeviceLine(s, "min_br", Decimal(v)) == s.(minBitrate := v)
    ensures ParseDeviceLine(s, "max_br", Decimal(v)) == s.(maxBitrate := v)
    ensures ParseDeviceLine(s, "focus", Decimal(v)) == s.(focusMode := v)
  {
    AtoiOfDecimal(v);
    hide Atoi, Decimal, WithResolution;
  }

  lemma FlagsParsed(s: StreamOptions, b: bool)
    ensures ParseDeviceLine(s, "back_cam", FlagText(b)) == s.(backCameraActive := b)
    ensures ParseDeviceLine(s, "adaptive_br", FlagText(b)) == s.(adaptiveBitrate := b)
    ensures ParseDeviceLine(s, "stab", FlagText(b)) == s.(stabilizationEnabled := b)
    ensures ParseDeviceLine(s, "flash", FlagText(b)) == s.(flashEnabled := b)
    ensures ParseDeviceLine(s, "h265", FlagText(b)) == s.(h265Enabled := b)
  {
    assert FlagText(b) == "1" <==> b;
    hide Atoi, Decimal, WithResolution, FlagText;
  }

  lemma ResolutionParsed(s: StreamOptions, w: int, h: int)
    ensures ParseDeviceLine(s, "res", Decimal(w) + ("x" + Decimal(h))) == s.(width := w, height := h)
  {
    AtoiOfDecimal(w);
    AtoiOfDecimal(h);
    hide Atoi, Decimal, ParseDeviceLine;
    assert ParseDeviceLine(s, "res", Decimal(w) + ("x" + Decimal(h))) ==
        WithResolution(s, Decimal(w) + ("x" + Decimal(h))) by {
      ResolutionKey(s, Decimal(w) + ("x" + Decimal(h)));
    }
    IndexOfIs(Decimal(w), 'x', Decimal(h));
    assert ['x'] == "x";
    var val := Decimal(w) + ("x" + Decimal(h));
    assert val[..|Decimal(w)|] == Decimal(w) && val[|Decimal(w)| + 1..] == Decimal(h);
  }

  lemma ResolutionKey(s: StreamOptions, val: string)
    ensures ParseDeviceLine(s, "res", val) == WithResolution(s, val)
  {
    hide Atoi, WithResolution;
  }

  lemma FiltersParsed(s: StreamOptions, filter: string, v: int, effect: string)
    ensures ParseDeviceLine(s, "C:" + filter, Decimal(v)) == s.(filterSliderValues := s.filterSliderValues[filter := v])
    ensures ParseDeviceLine(s, "E:", effect) == s.(activeEffectFilter := effect)
  {
    AtoiOfDecimal(v);
    hide Atoi, Decimal, WithResolution;
    var key := "C:" + filter;
    assert key[0] == 'C' && key[1] == ':' && key[..2] == "C:" && key[2..] == filter;
  }

  // ---------------------------------------------------------------- the printer

  function PictureEntries(s: StreamOptions): seq<(string, string)> {
    [("fps", Decimal(s.fps)), ("res", Decimal(s.width) + ("x" + Decimal(s.height))),
     ("back_cam", FlagText(s.backCameraActive))]
  }

  function BitrateEntries(s: StreamOptions): seq<(string, string)> {
    [("adaptive_br", FlagText(s.adaptiveBitrate)), ("bitrate", Decimal(s.bitrate)),
     ("min_br", Decimal(s.minBitrate)), ("max_br", Decimal(s.maxBitrate))]
  }

  function CameraEntries(s: StreamOptions): seq<(string, string)> {
    [("stab", FlagText(s.stabilizationEnabled)), ("flash", FlagText(s.flashEnabled)),
     ("h265", FlagText(s.h265Enabled)), ("focus", Decimal(s.focusMode))]
  }

  function FixedEntries(s: StreamOptions): seq<(string, string)> {
    PictureEntries(s) + (BitrateEntries(s) + CameraEntries(s))
  }

  /** One entry for each filter, in the order in which the map is traversed. */
  function SliderEntries(sliders: map<string, int>, order: seq<string>): seq<(string, string)>
    requires forall i | 0 <= i < |order| :: order[i] in sliders
  {
    seq(|order|, i requires 0 <= i < |order| => ("C:" + order[i], Decimal(sliders[order[i]])))
  }

  function EntryLines(entries: seq<(string, string)>): seq<string> {
    seq(|entries|, i requires 0 <= i < |entries| => Entry(entries[i].0, entries[i].1))
  }

  function Header(name: string): string {
    "[DEVICE:" + (name + "]")
  }

  function Folded(s: StreamOptions, entries: seq<(string, string)>): StreamOptions
    decreases |entries|
  {
    if entries == [] then s else Folded(ParseDeviceLine(s, entries[0].0, entries[0].1), entries[1..])
  }

  lemma FoldOne(s: StreamOptions, key: string, val: string, rest: seq<(string, string)>)
    ensures Folded(s, [(key, val)] + rest) == Folded(ParseDeviceLine(s, key, val), rest)
  {
    assert ([(key, val)] + rest)[1..] == rest;
  }

  lemma {:induction false} FoldMore(s: StreamOptions, a: seq<(string, string)>, b: seq<(string, string)>)
    ensures Folded(s, a + b) == Folded(Folded(s, a), b)
    decreases |a|
  {
    hide ParseDeviceLine;
    if a == [] {
      assert a + b == b;
    } else {
      FoldMore(ParseDeviceLine(s, a[0].0, a[0].1), a[1..], b);
      assert (a + b)[1..] == a[1..] + b;
    }
  }

  function FoldEntry(s: StreamOptions, entry: (string, string)): StreamOptions {
    ParseDeviceLine(s, entry.0, entry.1)
  }

  lemma FoldFew(s: StreamOptions, e: seq<(string, string)>)
    ensures |e| == 3 ==> Folded(s, e) == FoldEntry(FoldEntry(FoldEntry(s, e[0]), e[1]), e[2])
    ensures |e| == 4 ==> Folded(s, e) == FoldEntry(FoldEntry(FoldEntry(FoldEntry(s, e[0]), e[1]), e[2]), e[3])
    decreases |e|
  {
    hide ParseDeviceLine;
    if |e| == 4 {
      FoldFew(FoldEntry(s, e[0]), e[1..]);
    } else if |e| == 3 {
      var s1 := FoldEntry(s, e[0]);
      assert Folded(s, e) == Folded(s1, e[1..]);
      assert Folded(s1, e[1..]) == Folded(FoldEntry(s1, e[1]), e[2..]) by {
        assert e[1..][0] == e[1] && e[1..][1..] == e[2..];
      }
      var s2 := FoldEntry(s1, e[1]);
      assert e[2..] == [e[2]] && [e[2]][1..] == [];
      assert Folded(s2, [e[2]]) == Folded(FoldEntry(s2, e[2]), []);
    }
  }

  lemma PictureFolded(d: StreamOptions, s: StreamOptions)
    ensures Folded(d, PictureEntries(s))
         == d.(fps := s.fps, width := s.width, height := s.height, backCameraActive := s.backCameraActive)
  {
    hide ParseDeviceLine, Decimal, FlagText, Folded;
    var d1 := d.(fps := s.fps);
    var d2 := d1.(width := s.width, height := s.height);
    NumbersParsed(d, s.fps);
    ResolutionParsed(d1, s.width, s.height);
    FlagsParsed(d2, s.backCameraActive);
    var e := PictureEntries(s);
    FoldFew(d, e);
  }

  lemma BitratesFolded(d: StreamOptions, s: StreamOptions)
    ensures Folded(d, BitrateEntries(s))
         == d.(adaptiveBitrate := s.adaptiveBitrate, bitrate := s.bitrate, minBitrate := s.minBitrate,
             maxBitrate := s.maxBitrate)
  {
    hide ParseDeviceLine, Decimal, FlagText, Folded;
    var d1 := d.(adaptiveBitrate := s.adaptiveBitrate);
    var d2 := d1.(bitrate := s.bitrate);
    var d3 := d2.(minBitrate := s.minBitrate);
    FlagsParsed(d, s.adaptiveBitrate);
    NumbersParsed(d1, s.bitrate);
    NumbersParsed(d2, s.minBitrate);
    NumbersParsed(d3, s.maxBitrate);
    var e := BitrateEntries(s);
    FoldFew(d, e);
  }

  lemma CameraFolded(d: StreamOptions, s: StreamOptions)
    ensures Folded(d, CameraEntries(s))
         == d.(stabilizationEnabled := s.stabilizationEnabled, flashEnabled := s.flashEnabled,
             h265Enabled := s.h265Enabled,
               focusMode := s.focusMode)
  {
    hide ParseDeviceLine, Decimal, FlagText, Folded;
    var d1 := d.(stabilizationEnabled := s.stabilizationEnabled);
    var d2 := d1.(flashEnabled := s.flashEnabled);
    var d3 := d2.(h265Enabled := s.h265Enabled);
    FlagsParsed(d, s.stabilizationEnabled);
    FlagsParsed(d1, s.flashEnabled);
    FlagsParsed(d2, s.h265Enabled);
    NumbersParsed(d3, s.focusMode);
    var e := CameraEntries(s);
    FoldFew(d, e);
  }

  lemma FixedFolded(d: StreamOptions, s: StreamOptions)
    ensures Folded(d, FixedEntries(s)) ==
              s.(filterSliderValues := d.filterSliderValues, activeEffectFilter := d.activeEffectFilter, zoom := d.zoom)
  {
    hide Folded, PictureEntries, BitrateEntries, CameraEntries;
    FoldMore(d, PictureEntries(s), BitrateEntries(s) + CameraEntries(s));
    PictureFolded(d, s);
    var d1 := Folded(d, PictureEntries(s));
    FoldMore(d1, BitrateEntries(s), CameraEntries(s));
    BitratesFolded(d1, s);
    CameraFolded(Folded(d1, BitrateEntries(s)), s);
  }

  // ---------------------------------------------------------------- a whole device section

  /** The order in which a map is traversed: each key once. */
  ghost predicate Enumerates<V>(order: seq<string>, m: map<string, V>) {
    && (forall i | 0 <= i < |order| :: order[i] in m)
    && (forall i, j | 0 <= i < j < |order| :: order[i] != order[j])
    && (forall k | k in m :: k in order)
  }

  /** The part of a map whose keys are in a list. */
  ghost function Restricted<V>(m: map<string, V>, keys: seq<string>): map<string, V> {
    map k | k in m && k in keys :: m[k]
  }

  lemma RestrictedMore<V>(m: map<string, V>, keys: seq<string>)
    requires keys != [] && keys[|keys| - 1] in m
    ensures Restricted(m, keys) == Restricted(m, keys[..|keys| - 1])[keys[|keys| - 1] := m[keys[|keys| - 1]]]
  {
    var init, last := keys[..|keys| - 1], keys[|keys| - 1];
    assert keys == init + [last];
  }

  lemma {:induction false} SlidersFolded(s: StreamOptions, sliders: map<string, int>, order: seq<string>)
    requires s.filterSliderValues == map[] && forall i | 0 <= i < |order| :: order[i] in sliders
    ensures Folded(s, SliderEntries(sliders, order)) == s.(filterSliderValues := Restricted(sliders, order))
  {
    hide ParseDeviceLine, Decimal, Folded;
    if order == [] {
      assert SliderEntries(sliders, order) == [];
      assert Restricted(sliders, order) == map[];
      FoldNone(s);
    } else {
      var init, last := order[..|order| - 1], order[|order| - 1];
      SlidersFolded(s, sliders, init);
      var e := ("C:" + last, Decimal(sliders[last]));
      assert SliderEntries(sliders, order) == SliderEntries(sliders, init) + [e];
      FoldMore(s, SliderEntries(sliders, init), [e]);
      var t := Folded(s, SliderEntries(sliders, init));
      FoldOne(t, e.0, e.1, []);
      assert [e] + [] == [e];
      FoldNone(ParseDeviceLine(t, e.0, e.1));
      FiltersParsed(t, last, sliders[last], "");
      RestrictedMore(sliders, order);
    }
  }

  lemma FoldNone(s: StreamOptions)
    ensures Folded(s, []) == s
  {
  }

  ghost predicate EntrySafe(key: string) {
    Plain(key) && key != "" && key[0] != '['
  }

  ghost predicate EntriesSafe(entries: seq<(string, string)>) {
    forall i | 0 <= i < |entries| :: EntrySafe(entries[i].0)
  }

  function InDevice(p: Parser, name: string, s: StreamOptions): Parser {
    Parser(p.store.(devices := p.store.devices[name := s]), Some(name))
  }

  lemma DeviceEntryParsed(p: Parser, name: string, s: StreamOptions, key: string, val: string)
    requires EntrySafe(key)
    ensures ParseLine(InDevice(p, name, s), Entry(key, val)) == InDevice(p, name, ParseDeviceLine(s, key, val))
  {
    var q := InDevice(p, name, s);
    EntryParsed(q, key, val);
    assert p.store.devices[name := s][name := ParseDeviceLine(s, key, val)] ==
        p.store.devices[name := ParseDeviceLine(s, key, val)];
    hide ParseDeviceLine, ParseLine, Entry;
  }

  lemma {:induction false} DeviceEntriesParsed(p: Parser, name: string, s: StreamOptions,
      entries: seq<(string, string)>)
    requires EntriesSafe(entries)
    ensures ParseLines(InDevice(p, name, s), EntryLines(entries)) == InDevice(p, name, Folded(s, entries))
    decreases |entries|
  {
    hide ParseDeviceLine, ParseLine, Entry, EntrySafe, InDevice;
    if entries != [] {
      var key, val := entries[0].0, entries[0].1;
      DeviceEntryParsed(p, name, s, key, val);
      DeviceEntriesParsed(p, name, ParseDeviceLine(s, key, val), entries[1..]);
      assert EntryLines(entries)[1..] == EntryLines(entries[1..]);
    }
  }

  function SectionEntries(s: StreamOptions, order: seq<string>): seq<(string, string)>
    requires forall i | 0 <= i < |order| :: order[i] in s.filterSliderValues
  {
    FixedEntries(s) + (SliderEntries(s.filterSliderValues, order) + [("E:", s.activeEffectFilter)])
  }

  function SectionLines(name: string, s: StreamOptions, order: seq<string>): seq<string>
    requires forall i | 0 <= i < |order| :: order[i] in s.filterSliderValues
  {
    [Header(name)] + (EntryLines(SectionEntries(s, order)) + [""])
  }

  lemma EntryInText(entries: seq<(string, string)>, i: nat, key: string, val: string)
    requires i < |entries| && entries[i] == (key, val)
    ensures |EntryLines(entries)| == |entries| && EntryLines(entries)[i] == key + "=" + val
  {
    assert key + ("=" + val) == key + "=" + val;
  }

  lemma EntriesInText(s: StreamOptions)
    ensures var e := FixedEntries(s);
            && |e| == 11
            && e[0] == ("fps", Decimal(s.fps))
            && e[1] == ("res", Decimal(s.width) + ("x" + Decimal(s.height)))
            && e[2] == ("back_cam", if s.backCameraActive then "1" else "0")
            && e[3] == ("adaptive_br", if s.adaptiveBitrate then "1" else "0")
            && e[4] == ("bitrate", Decimal(s.bitrate))
            && e[5] == ("min_br", Decimal(s.minBitrate))
            && e[6] == ("max_br", Decimal(s.maxBitrate))
            && e[7] == ("stab", if s.stabilizationEnabled then "1" else "0")
            && e[8] == ("flash", if s.flashEnabled then "1" else "0")
            && e[9] == ("h265", if s.h265Enabled then "1" else "0")
            && e[10] == ("focus", Decimal(s.focusMode))
  {
    hide Decimal;
  }

  /** A section as text: its header, eleven lines that EntriesInText lists, the sliders, the effect and a blank line. */
  lemma SectionInText(name: string, s: StreamOptions, order: seq<string>, i: nat)
    requires forall i | 0 <= i < |order| :: order[i] in s.filterSliderValues
    ensures var lines, n := SectionLines(name, s, order), |order|;
            && |lines| == 14 + n
            && lines[0] == "[DEVICE:" + name + "]"
            && (i < 11 ==> lines[1 + i] == FixedEntries(s)[i].0 + "=" + FixedEntries(s)[i].1)
            && (i < n ==> lines[12 + i] == "C:" + order[i] + "=" + Decimal(s.filterSliderValues[order[i]]))
            && lines[12 + n] == "E:" + "=" + s.activeEffectFilter && lines[13 + n] == ""
  {
    hide Decimal, FixedEntries;
    var n, fixed, sliders := |order|, FixedEntries(s), SliderEntries(s.filterSliderValues, order);
    var e := SectionEntries(s, order);
    assert |fixed| == 11 by { EntriesInText(s); }
    assert e == fixed + (sliders + [("E:", s.activeEffectFilter)]);
    assert "[DEVICE:" + (name + "]") == "[DEVICE:" + name + "]";
    if i < 11 {
      EntryInText(e, i, fixed[i].0, fixed[i].1);
    }
    if i < n {
      EntryInText(e, 11 + i, "C:" + order[i], Decimal(s.filterSliderValues[order[i]]));
    }
    EntryInText(e, 11 + n, "E:", s.activeEffectFilter);
    hide EntryLines, SectionEntries;
    var lines := SectionLines(name, s, order);
    assert lines == [Header(name)] + (EntryLines(e) + [""]);
  }

  /** What the file format can express of one device. */
  ghost predicate DeviceClean(name: string, s: StreamOptions) {
    && OneLine(name) && OneLine(s.activeEffectFilter)
    && forall f | f in s.filterSliderValues :: Plain(f)
  }

  lemma SectionFolded(s: StreamOptions, order: seq<string>)
    requires Enumerates(order, s.filterSliderValues)
    ensures Folded(DEFAULT, SectionEntries(s, order)) == s.(zoom := DEFAULT.zoom)
  {
    hide Folded, FixedEntries, SliderEntries, ParseDeviceLine;
    var e := ("E:", s.activeEffectFilter);
    FoldMore(DEFAULT, FixedEntries(s), SliderEntries(s.filterSliderValues, order) + [e]);
    FixedFolded(DEFAULT, s);
    var s1 := Folded(DEFAULT, FixedEntries(s));
    FoldMore(s1, SliderEntries(s.filterSliderValues, order), [e]);
    SlidersFolded(s1, s.filterSliderValues, order);
    assert Restricted(s.filterSliderValues, order) == s.filterSliderValues;
    var s2 := s1.(filterSliderValues := s.filterSliderValues);
    FoldOne(s2, e.0, e.1, []);
    assert [e] + [] == [e];
    FoldNone(ParseDeviceLine(s2, e.0, e.1));
    FiltersParsed(s2, "", 0, s.activeEffectFilter);
  }

  lemma SectionSafe(s: StreamOptions, order: seq<string>)
    requires Enumerates(order, s.filterSliderValues) && forall f | f in s.filterSliderValues :: Plain(f)
    ensures EntriesSafe(SectionEntries(s, order))
  {
    FixedSafe(s);
    var sliders := SliderEntries(s.filterSliderValues, order);
    forall i | 0 <= i < |sliders| ensures EntrySafe(sliders[i].0) {
      assert Plain(order[i]);
    }
    hide FixedEntries, SliderEntries;
  }

  lemma FixedSafe(s: StreamOptions)
    ensures EntriesSafe(FixedEntries(s))
  {
    hide Decimal, FlagText;
    assert EntriesSafe(PictureEntries(s));
    assert EntriesSafe(BitrateEntries(s));
    assert EntriesSafe(CameraEntries(s));
    hide PictureEntries, BitrateEntries, CameraEntries, EntrySafe;
  }

  lemma HeaderParsed(p: Parser, name: string)
    requires name !in p.store.devices
    ensures ParseLine(p, Header(name)) == InDevice(p, name, DEFAULT)
  {
    var line := Header(name);
    var section := line[1..|line| - 1];
    assert line[0] == '[' && line[|line| - 1] == ']';
    assert section == "DEVICE:" + name;
    assert section[..7] == "DEVICE:" && section[7..] == name;
  }

  /** A device section read after others adds that device, with all its settings but the zoom. */
  lemma SectionParsed(p: Parser, name: string, s: StreamOptions, order: seq<string>)
    requires name !in p.store.devices && DeviceClean(name, s) && Enumerates(order, s.filterSliderValues)
    ensures ParseLines(p, SectionLines(name, s, order)) == InDevice(p, name, s.(zoom := DEFAULT.zoom))
  {
    SectionSafe(s, order);
    SectionFolded(s, order);
    hide SectionEntries, ParseLine, ParseLines, Header, InDevice, Folded;
    var lines := EntryLines(SectionEntries(s, order));
    ParseMore(p, [Header(name)], lines + [""]);
    ParseOne(p, Header(name));
    HeaderParsed(p, name);
    ParseMore(InDevice(p, name, DEFAULT), lines, [""]);
    DeviceEntriesParsed(p, name, DEFAULT, SectionEntries(s, order));
    BlankParsed(InDevice(p, name, s.(zoom := DEFAULT.zoom)));
  }

  lemma BlankParsed(p: Parser)
    ensures ParseLines(p, [""]) == p
  {
    ParseOne(p, "");
  }

  // ---------------------------------------------------------------- the whole file

  /** The orders in which the maps are traversed: sorted in the program, any order here. */
  datatype Order = Order(globals: seq<string>, devices: seq<string>, sliders: map<string, seq<string>>)

  ghost predicate Orders(o: Order, store: Store) {
    && Enumerates(o.globals, store.settings) && Enumerates(o.devices, store.devices)
    && forall n | n in store.devices :: n in o.sliders && Enumerates(o.sliders[n], store.devices[n].filterSliderValues)
  }

  function GlobalLines(settings: map<string, int>, order: seq<string>): seq<string>
    requires forall i | 0 <= i < |order| :: order[i] in settings
  {
    seq(|order|, i requires 0 <= i < |order| => Entry(order[i], Decimal(settings[order[i]])))
  }

  ghost predicate Listed(devices: map<string, StreamOptions>, names: seq<string>, sliders: map<string, seq<string>>) {
    forall i | 0 <= i < |names| ::
      && names[i] in devices && names[i] in sliders
      && Enumerates(sliders[names[i]], devices[names[i]].filterSliderValues)
  }

  ghost function DeviceLines(devices: map<string, StreamOptions>, names: seq<string>,
      sliders: map<string, seq<string>>): seq<string>
    requires Listed(devices, names, sliders)
  {
    if names == [] then []
    else
      var init, last := names[..|names| - 1], names[|names| - 1];
      assert Listed(devices, init, sliders);
      DeviceLines(devices, init, sliders) + SectionLines(last, devices[last], sliders[last])
  }

  ghost function FileLines(store: Store, o: Order): seq<string>
    requires Orders(o, store)
  {
    GlobalLines(store.settings, o.globals) + ([""] + DeviceLines(store.devices, o.devices, o.sliders))
  }

  /** What the file format can express. */
  ghost predicate Clean(store: Store) {
    && (forall k | k in store.settings :: Plain(k))
    && (forall n | n in store.devices :: DeviceClean(n, store.devices[n]))
  }

  /** The zoom factor is not saved. */
  ghost function Unzoomed(devices: map<string, StreamOptions>): map<string, StreamOptions> {
    map n | n in devices :: devices[n].(zoom := DEFAULT.zoom)
  }

  lemma GlobalEntryParsed(p: Parser, key: string, v: int)
    requires Plain(key) && p.current == None
    ensures ParseLine(p, Entry(key, Decimal(v))) == p.(store := p.store.(settings := p.store.settings[key := v]))
  {
    AtoiOfDecimal(v);
    hide Decimal, Atoi, ParseLine;
    var line := Entry(key, Decimal(v));
    assert line[|line| - 1] == Decimal(v)[|Decimal(v)| - 1];
    EntryParsed(p, key, Decimal(v));
  }

  lemma {:induction false} GlobalsParsed(settings: map<string, int>, order: seq<string>)
    requires forall i | 0 <= i < |order| :: order[i] in settings && Plain(order[i])
    ensures ParseLines(EMPTY, GlobalLines(settings, order)) == Parser(Store(Restricted(settings, order), map[]), None)
  {
    hide ParseLine, Entry, Decimal, Plain;
    if order == [] {
      assert Restricted(settings, order) == map[];
    } else {
      var init, last := order[..|order| - 1], order[|order| - 1];
      GlobalsParsed(settings, init);
      var line := Entry(last, Decimal(settings[last]));
      assert GlobalLines(settings, order) == GlobalLines(settings, init) + [line];
      ParseMore(EMPTY, GlobalLines(settings, init), [line]);
      ParseOne(Parser(Store(Restricted(settings, init), map[]), None), line);
      GlobalEntryParsed(Parser(Store(Restricted(settings, init), map[]), None), last, settings[last]);
      RestrictedMore(settings, order);
    }
  }

  lemma {:induction false} DevicesParsed(p: Parser, devices: map<string, StreamOptions>, names: seq<string>,
      sliders: map<string, seq<string>>)
    requires p.store.devices == map[] && Listed(devices, names, sliders)
    requires forall n | n in devices :: DeviceClean(n, devices[n])
    requires forall i, j | 0 <= i < j < |names| :: names[i] != names[j]
    ensures var q := ParseLines(p, DeviceLines(devices, names, sliders));
            q.store == Store(p.store.settings, Restricted(Unzoomed(devices), names))
  {
    hide ParseLine, DeviceClean, SectionLines;
    if names == [] {
      assert Restricted(Unzoomed(devices), names) == map[];
    } else {
      var init, last := names[..|names| - 1], names[|names| - 1];
      DevicesParsed(p, devices, init, sliders);
      var section := SectionLines(last, devices[last], sliders[last]);
      ParseMore(p, DeviceLines(devices, init, sliders), section);
      var q := ParseLines(p, DeviceLines(devices, init, sliders));
      hide ParseLines;
      SectionParsed(q, last, devices[last], sliders[last]);
      RestrictedMore(Unzoomed(devices), names);
    }
  }

  lemma FileParsed(store: Store, o: Order)
    requires Orders(o, store) && Clean(store)
    ensures ParseLines(EMPTY, FileLines(store, o)).store == Store(store.settings, Unzoomed(store.devices))
  {
    hide ParseLines, DeviceClean, GlobalLines, DeviceLines;
    var globals := GlobalLines(store.settings, o.globals);
    var devices := DeviceLines(store.devices, o.devices, o.sliders);
    ParseMore(EMPTY, globals, [""] + devices);
    GlobalsParsed(store.settings, o.globals);
    var p := ParseLines(EMPTY, globals);
    ParseMore(p, [""], devices);
    BlankParsed(p);
    DevicesParsed(p, store.devices, o.devices, o.sliders);
    assert Restricted(store.settings, o.globals) == store.settings;
    assert Restricted(Unzoomed(store.devices), o.devices) == Unzoomed(store.devices);
  }

  // ---------------------------------------------------------------- lines and text

  lemma EntryOneLine(key: string, val: string)
    requires OneLine(key) && OneLine(val)
    ensures OneLine(Entry(key, val))
  {
  }

  lemma DecimalOneLine(v: int)
    ensures OneLine(Decimal(v))
  {
    hide Decimal;
  }

  ghost predicate EntriesOneLine(entries: seq<(string, string)>) {
    forall i | 0 <= i < |entries| :: OneLine(entries[i].0) && OneLine(entries[i].1)
  }

  lemma FlagOneLine(b: bool)
    ensures OneLine(FlagText(b))
  {
  }

  lemma PictureOneLine(s: StreamOptions)
    ensures EntriesOneLine(PictureEntries(s))
  {
    DecimalOneLine(s.fps);
    DecimalOneLine(s.width);
    DecimalOneLine(s.height);
    FlagOneLine(s.backCameraActive);
    hide Decimal, FlagText;
  }

  lemma BitratesOneLine(s: StreamOptions)
    ensures EntriesOneLine(BitrateEntries(s))
  {
    DecimalOneLine(s.bitrate);
    DecimalOneLine(s.minBitrate);
    DecimalOneLine(s.maxBitrate);
    FlagOneLine(s.adaptiveBitrate);
    hide Decimal, FlagText;
  }

  lemma CameraOneLine(s: StreamOptions)
    ensures EntriesOneLine(CameraEntries(s))
  {
    DecimalOneLine(s.focusMode);
    FlagOneLine(s.stabilizationEnabled);
    FlagOneLine(s.flashEnabled);
    FlagOneLine(s.h265Enabled);
    hide Decimal, FlagText;
  }

  lemma FixedOneLine(s: StreamOptions)
    ensures AllOneLine(EntryLines(FixedEntries(s)))
  {
    PictureOneLine(s);
    BitratesOneLine(s);
    CameraOneLine(s);
    hide PictureEntries, BitrateEntries, CameraEntries, OneLine, Entry;
    assert EntriesOneLine(FixedEntries(s));
    forall i | 0 <= i < |FixedEntries(s)| ensures OneLine(EntryLines(FixedEntries(s))[i]) {
      EntryOneLine(FixedEntries(s)[i].0, FixedEntries(s)[i].1);
    }
  }

  lemma SectionOneLine(name: string, s: StreamOptions, order: seq<string>)
    requires DeviceClean(name, s) && Enumerates(order, s.filterSliderValues)
    ensures AllOneLine(SectionLines(name, s, order))
  {
    FixedOneLine(s);
    assert OneLine(Header(name)) && OneLine("");
    var sliders := SliderEntries(s.filterSliderValues, order);
    forall i | 0 <= i < |order| ensures OneLine(Entry(sliders[i].0, sliders[i].1)) {
      assert Plain(order[i]);
      DecimalOneLine(s.filterSliderValues[order[i]]);
      hide Decimal;
      EntryOneLine(sliders[i].0, sliders[i].1);
    }
    EntryOneLine("E:", s.activeEffectFilter);
    hide FixedEntries, OneLine, Entry, Header;
    var fixed, e := FixedEntries(s), SectionEntries(s, order);
    forall i | 0 <= i < |e| ensures OneLine(EntryLines(e)[i]) {
      if i < |fixed| {
        assert e[i] == fixed[i] && EntryLines(fixed)[i] == EntryLines(e)[i];
      } else if i < |fixed| + |sliders| {
        assert e[i] == sliders[i - |fixed|];
      }
    }
  }

  lemma {:induction false} DevicesOneLine(devices: map<string, StreamOptions>, names: seq<string>,
      sliders: map<string, seq<string>>)
    requires Listed(devices, names, sliders) && forall n | n in devices :: DeviceClean(n, devices[n])
    ensures AllOneLine(DeviceLines(devices, names, sliders))
  {
    hide OneLine, DeviceClean, SectionLines;
    if names != [] {
      var last := names[|names| - 1];
      DevicesOneLine(devices, names[..|names| - 1], sliders);
      SectionOneLine(last, devices[last], sliders[last]);
    }
  }

  lemma FileOneLine(store: Store, o: Order)
    requires Orders(o, store) && Clean(store)
    ensures AllOneLine(FileLines(store, o))
  {
    DevicesOneLine(store.devices, o.devices, o.sliders);
    assert OneLine("");
    var globals := GlobalLines(store.settings, o.globals);
    forall i | 0 <= i < |globals| ensures OneLine(globals[i]) {
      assert Plain(o.globals[i]);
      DecimalOneLine(store.settings[o.globals[i]]);
      hide Decimal;
      EntryOneLine(o.globals[i], Decimal(store.settings[o.globals[i]]));
    }
    hide GlobalLines, DeviceLines, OneLine;
  }

  /** Nothing that the format cannot express is ever read. */
  lemma ParsedLineIsClean(p: Parser, line: string)
    requires Clean(p.store) && OneLine(line) && (p.current.Some? ==> OneLine(p.current.value))
    ensures var q := ParseLine(p, line); Clean(q.store) && (q.current.Some? ==> OneLine(q.current.value))
  {
    hide Atoi;
    if line == "" {
    } else if IsHeader(line) {
      var section := line[1..|line| - 1];
      assert OneLine(section) && forall n | 0 <= n <= |section| :: OneLine(section[n..]);
    } else {
      var pos := IndexOf(line, '=');
      if pos >= 0 {
        ParsedEntryIsClean(p, line[..pos], line[pos + 1..]);
      }
    }
  }

  lemma ParsedEntryIsClean(p: Parser, key: string, val: string)
    requires Clean(p.store) && Plain(key) && OneLine(val) && (p.current.Some? ==> OneLine(p.current.value))
    ensures Clean(ParseEntry(p, key, val).store)
  {
    hide Atoi, Plain;
    if p.current.Some? {
      var name := p.current.value;
      var s := if name in p.store.devices then p.store.devices[name] else DEFAULT;
      assert DeviceClean(name, s);
      ParsedDeviceLineIsClean(name, s, key, val);
      hide DeviceClean, ParseDeviceLine;
    }
  }

  lemma ParsedDeviceLineIsClean(name: string, s: StreamOptions, key: string, val: string)
    requires DeviceClean(name, s) && Plain(key) && OneLine(val)
    ensures DeviceClean(name, ParseDeviceLine(s, key, val))
  {
    ParsedDeviceLineShape(s, key, val);
    hide ParseDeviceLine;
    assert |key| >= 2 ==> Plain(key[2..]);
  }

  lemma ParsedDeviceLineShape(s: StreamOptions, key: string, val: string)
    ensures var t := ParseDeviceLine(s, key, val);
            && (t.filterSliderValues == s.filterSliderValues
                || (|key| >= 2 && t.filterSliderValues == s.filterSliderValues[key[2..] := Atoi(val)]))
            && (t.activeEffectFilter == s.activeEffectFilter || t.activeEffectFilter == val)
  {
    hide Atoi, ParseFixed;
  }

  lemma {:induction false} ParsedIsClean(p: Parser, lines: seq<string>)
    requires AllOneLine(lines) && Clean(p.store) && (p.current.Some? ==> OneLine(p.current.value))
    ensures Clean(ParseLines(p, lines).store)
    decreases |lines|
  {
    hide Clean, ParseLine, OneLine;
    if lines != [] {
      ParsedLineIsClean(p, lines[0]);
      ParsedIsClean(ParseLine(p, lines[0]), lines[1..]);
    }
  }

  // ---------------------------------------------------------------- device sections kept while the feature is off

  predicate Mentions(s: string, word: string) {
    exists i | 0 <= i <= |s| :: HasPrefix(s[i..], word)
  }

  /** A word is mentioned wherever it stands in a line, and only if it stands there. */
  lemma MentionsWherever(before: string, word: string, after: string)
    ensures Mentions(before + word + after, word)
  {
    var t := before + word + after;
    assert HasPrefix(t[|before|..], word) by { assert t[|before|..][..|word|] == word; }
  }

  lemma MentionedSomewhere(s: string, word: string) returns (before: string, after: string)
    requires Mentions(s, word)
    ensures s == before + word + after
  {
    var i :| 0 <= i <= |s| && HasPrefix(s[i..], word);
    before, after := s[..i], s[i + |word|..];
    assert s == s[..i] + s[i..] && s[i..] == s[i..][..|word|] + s[i..][|word|..];
  }

  function InsideNext(inside: bool, line: string): bool {
    if line != "" && line[0] == '[' then Mentions(line, "DEVICE:") else inside
  }

  function PreservedLines(inside: bool, lines: seq<string>): seq<string>
    decreases |lines|
  {
    if lines == [] then []
    else
      var now := InsideNext(inside, lines[0]);
      (if now && lines[0] != "" then [lines[0]] else []) + PreservedLines(now, lines[1..])
  }

  lemma PreservedStep(inside: bool, line: string, more: seq<string>)
    ensures var now := InsideNext(inside, line);
            PreservedLines(inside, [line] + more) ==
                (if now && line != "" then [line] else []) + PreservedLines(now, more)
  {
    hide InsideNext;
    assert ([line] + more)[1..] == more;
  }

  lemma NoLines()
    ensures LinesOf("") == [] && forall inside :: PreservedLines(inside, []) == []
  {
  }

  /** The lines that can be preserved: the first is a header, no line is empty, and no section is of another kind. */
  ghost predicate Preservable(lines: seq<string>) {
    && (forall i | 0 <= i < |lines| :: lines[i] != "" && (lines[i][0] == '[' ==> Mentions(lines[i], "DEVICE:")))
    && (lines != [] ==> lines[0][0] == '[')
  }

  lemma {:induction false} PreservedArePreservable(inside: bool, lines: seq<string>)
    ensures var p := PreservedLines(inside, lines);
            && (forall i | 0 <= i < |p| :: p[i] != "" && (p[i][0] == '[' ==> Mentions(p[i], "DEVICE:")))
            && (!inside ==> Preservable(p))
    decreases |lines|
  {
    hide Mentions;
    if lines != [] {
      PreservedArePreservable(InsideNext(inside, lines[0]), lines[1..]);
    }
  }

  lemma {:induction false} PreservableStay(inside: bool, lines: seq<string>)
    requires (inside || Preservable(lines))
    requires forall i | 0 <= i < |lines| :: lines[i] != "" && (lines[i][0] == '[' ==> Mentions(lines[i], "DEVICE:"))
    ensures PreservedLines(inside, lines) == lines
    decreases |lines|
  {
    hide Mentions;
    if lines != [] {
      PreservableStay(true, lines[1..]);
    }
  }

  lemma {:induction false} PreservedMore(inside: bool, a: seq<string>, b: seq<string>)
    requires Preservable(b)
    ensures PreservedLines(inside, a + b) == PreservedLines(inside, a) + b
    decreases |a|
  {
    hide Mentions, Preservable, InsideNext;
    if a == [] {
      assert a + b == b;
      PreservableStay(inside, b) by { PreservableParts(b); }
    } else {
      assert (a + b)[1..] == a[1..] + b;
      PreservedMore(InsideNext(inside, a[0]), a[1..], b);
    }
  }

  lemma PreservableParts(b: seq<string>)
    requires Preservable(b)
    ensures forall i | 0 <= i < |b| :: b[i] != "" && (b[i][0] == '[' ==> Mentions(b[i], "DEVICE:"))
  {
    hide Mentions;
  }

  /** A line of the global settings that could be taken for the header of a device section. */
  predicate LikeHeader(line: string) {
    line != "" && line[0] == '[' && Mentions(line, "DEVICE:")
  }

  lemma {:induction false} NothingPreservedExactly(lines: seq<string>)
    ensures PreservedLines(false, lines) == [] <==> forall i | 0 <= i < |lines| :: !LikeHeader(lines[i])
    decreases |lines|
  {
    hide Mentions;
    if lines != [] {
      NothingPreservedExactly(lines[1..]);
    }
  }

  /**
   While device states are not saved, the device sections of the old file are written back as they were and
   are read back as they were, exactly when no global setting looks like the header of a device section.
   */
  lemma SectionsSurviveExactly(former: seq<string>, globals: seq<string>)
    ensures PreservedLines(false, globals + [""] + PreservedLines(false, former)) == PreservedLines(false, former)
       <==> forall i | 0 <= i < |globals| :: !LikeHeader(globals[i])
  {
    hide PreservedLines, LikeHeader;
    PreservedArePreservable(false, former);
    PreservedMore(false, globals + [""], PreservedLines(false, former));
    NothingPreservedExactly(globals + [""]);
    assert !LikeHeader("") by { BlankIsNoHeader(); }
    assert forall i | 0 <= i < |globals| :: (globals + [""])[i] == globals[i];
    assert (globals + [""])[|globals|] == "";
    var p := PreservedLines(false, globals + [""]);
    assert p + PreservedLines(false, former) == PreservedLines(false, former) ==> |p| == 0;
  }

  lemma BlankIsNoHeader()
    ensures !LikeHeader("")
  {
  }

  // ---------------------------------------------------------------- global settings while the feature is off

  /** The global settings that lines assign when nothing precedes them. */
  function GlobalsOf(lines: seq<string>): map<string, int> {
    ParseLines(EMPTY, lines).store.settings
  }

  predicate Agrees(m: map<string, int>, n: map<string, int>) {
    forall k | k in m :: k in n && m[k] == n[k]
  }

  lemma OverlayLine(g: map<string, int>, p: Parser, q: Parser, line: string)
    requires p.current == q.current && p.store.devices == q.store.devices && p.store.settings == g + q.store.settings
    ensures var p', q' := ParseLine(p, line), ParseLine(q, line);
            && p'.current == q'.current && p'.store.devices == q'.store.devices
            && p'.store.settings == g + q'.store.settings
  {
    hide Atoi, ParseDeviceLine, IndexOf, HasPrefix;
  }

  /** Settings from before show through wherever the lines assign nothing. */
  lemma {:induction false} Overlay(g: map<string, int>, p: Parser, q: Parser, lines: seq<string>)
    requires p.current == q.current && p.store.devices == q.store.devices && p.store.settings == g + q.store.settings
    ensures ParseLines(p, lines).store.settings == g + ParseLines(q, lines).store.settings
    decreases |lines|
  {
    hide ParseLine;
    if lines != [] {
      OverlayLine(g, p, q, lines[0]);
      Overlay(g, ParseLine(p, lines[0]), ParseLine(q, lines[0]), lines[1..]);
    }
  }

  /** Global settings that are followed by preserved lines are read as they were, but for what those lines assign. */
  lemma GlobalsThenPreserved(g: map<string, int>, order: seq<string>, preserved: seq<string>)
    requires Enumerates(order, g) && forall k | k in g :: Plain(k)
    ensures ParseLines(EMPTY, GlobalLines(g, order) + [""] + preserved).store.settings == g + GlobalsOf(preserved)
  {
    hide ParseLines, ParseLine, GlobalLines, Plain;
    var globals := GlobalLines(g, order);
    ParseMore(EMPTY, globals + [""], preserved);
    ParseMore(EMPTY, globals, [""]);
    GlobalsParsed(g, order);
    assert Restricted(g, order) == g;
    var p := Parser(Store(g, map[]), None);
    BlankParsed(p);
    assert g + map[] == g;
    Overlay(g, p, EMPTY, preserved);
  }

  lemma {:induction false} PreservedOneLine(inside: bool, lines: seq<string>)
    requires AllOneLine(lines)
    ensures AllOneLine(PreservedLines(inside, lines))
    decreases |lines|
  {
    hide OneLine, InsideNext;
    if lines != [] {
      PreservedOneLine(InsideNext(inside, lines[0]), lines[1..]);
    }
  }

  lemma GlobalsOneLine(g: map<string, int>, order: seq<string>)
    requires Enumerates(order, g) && forall k | k in g :: Plain(k)
    ensures AllOneLine(GlobalLines(g, order))
  {
    var globals := GlobalLines(g, order);
    forall i | 0 <= i < |globals| ensures OneLine(globals[i]) {
      assert Plain(order[i]);
      DecimalOneLine(g[order[i]]);
      hide Decimal;
      EntryOneLine(order[i], Decimal(g[order[i]]));
    }
  }

  /**
   While device states are not saved, the global settings are read back as they were exactly when they agree
   with whatever the preserved lines assign by themselves.
   */
  lemma GlobalsSurviveExactly(g: map<string, int>, order: seq<string>, former: seq<string>)
    requires Enumerates(order, g) && (forall k | k in g :: Plain(k)) && AllOneLine(former)
    ensures var preserved := PreservedLines(false, former);
            Parsed(Lines(GlobalLines(g, order) + [""] + preserved)).settings == g <==> Agrees(GlobalsOf(preserved), g)
  {
    hide ParseLines, GlobalLines, PreservedLines, Plain, OneLine;
    var preserved := PreservedLines(false, former);
    PreservedOneLine(false, former);
    GlobalsOneLine(g, order);
    assert OneLine("") by { BlankOneLine(); }
    LinesOfLines(GlobalLines(g, order) + [""] + preserved);
    GlobalsThenPreserved(g, order, preserved);
    hide GlobalsOf;
    var m := GlobalsOf(preserved);
    if g + m == g {
      forall k | k in m ensures k in g && m[k] == g[k] {
        assert (g + m)[k] == m[k];
      }
    }
  }

  /** The files whose global settings survive loading, saving and loading again, while device states are not saved. */
  lemma LoadedGlobalsSurviveExactly(text: string, order: seq<string>)
    requires Enumerates(order, Parsed(text).settings)
    ensures var g, preserved := Parsed(text).settings, PreservedLines(false, LinesOf(text));
            Parsed(Lines(GlobalLines(g, order) + [""] + preserved)).settings == g <==> Agrees(GlobalsOf(preserved), g)
  {
    hide ParseLines, Plain, Enumerates, GlobalLines, PreservedLines;
    LinesOfAreLines(text);
    assert Clean(EMPTY.store);
    ParsedIsClean(EMPTY, LinesOf(text));
    GlobalsSurviveExactly(Parsed(text).settings, order, LinesOf(text));
  }

  /** The device sections of a loaded file survive that exactly when no global setting looks like such a header. */
  lemma LoadedSectionsSurviveExactly(text: string, order: seq<string>)
    requires Enumerates(order, Parsed(text).settings)
    ensures var g, preserved := Parsed(text).settings, PreservedLines(false, LinesOf(text));
            PreservedLines(false, LinesOf(Lines(GlobalLines(g, order) + [""] + preserved))) == preserved
            <==> forall i | 0 <= i < |GlobalLines(g, order)| :: !LikeHeader(GlobalLines(g, order)[i])
  {
    hide ParseLines, Plain, GlobalLines, PreservedLines, LikeHeader;
    var g, former := Parsed(text).settings, LinesOf(text);
    LinesOfAreLines(text);
    assert Clean(EMPTY.store);
    ParsedIsClean(EMPTY, former);
    PreservedOneLine(false, former);
    GlobalsOneLine(g, order);
    BlankOneLine();
    LinesOfLines(GlobalLines(g, order) + [""] + PreservedLines(false, former));
    SectionsSurviveExactly(former, GlobalLines(g, order));
  }

  lemma BlankOneLine()
    ensures OneLine("")
  {
  }

  /** A line that both passes over the file take for the header of a device section. */
  predicate IsDeviceHeader(line: string) {
    IsHeader(line) && HasPrefix(line[1..|line| - 1], "DEVICE:")
  }

  /** Preserved lines assign no global settings if each of them that begins with a bracket is such a header. */
  lemma {:induction false} DeviceSectionsAssignNothing(p: Parser, lines: seq<string>)
    requires p.current.Some? || (lines != [] ==> lines[0] != "" && lines[0][0] == '[')
    requires forall i | 0 <= i < |lines| :: lines[i] != "" && lines[i][0] == '[' ==> IsDeviceHeader(lines[i])
    ensures ParseLines(p, lines).store.settings == p.store.settings
    decreases |lines|
  {
    hide Atoi, ParseDeviceLine, IndexOf, HasPrefix;
    if lines != [] {
      DeviceSectionsAssignNothing(ParseLine(p, lines[0]), lines[1..]);
    }
  }

  /** A header such as [Old DEVICE:x] is preserved, but what follows it is read as a global setting again. */
  lemma OldHeaderOverrides(g: map<string, int>, order: seq<string>)
    requires Enumerates(order, g) && (forall k | k in g :: Plain(k)) && "fps" in g && g["fps"] != 30
    ensures var former := ["[Old DEVICE:x]", Entry("fps", Decimal(30))];
            && PreservedLines(false, former) == former
            && Parsed(Lines(GlobalLines(g, order) + [""] + former)).settings != g
  {
    var former := ["[Old DEVICE:x]", Entry("fps", Decimal(30))];
    OldHeader();
    hide ParseLine, Enumerates, Plain, GlobalLines, Decimal, Mentions, IsHeader, Entry;
    assert Plain("fps") by { FpsPlain(); }
    var p := ParseLine(EMPTY, former[0]);
    GlobalEntryParsed(p, "fps", 30);
    assert former[1..] == [former[1]] && former[1..][1..] == [];
    assert ParseLines(EMPTY, former) == ParseLines(p, former[1..]);
    ParseOne(p, former[1]);
    assert GlobalsOf(former)["fps"] == 30;
    assert AllOneLine(former) by { OldHeaderOneLine(); }
    PreservedOld(former[0], former[1]);
    GlobalsSurviveExactly(g, order, former);
  }

  lemma OldHeader()
    ensures ParseLine(EMPTY, "[Old DEVICE:x]") == EMPTY
  {
    var line := "[Old DEVICE:x]";
    assert IsHeader(line) && line[1..|line| - 1][0] == 'O' && "DEVICE:"[0] == 'D';
    assert !HasPrefix(line[1..|line| - 1], "DEVICE:") by {
      assert |line[1..|line| - 1]| > 0 ==> line[1..|line| - 1][..7][0] == 'O';
    }
  }

  lemma FpsPlain()
    ensures Plain("fps")
  {
  }

  lemma OldHeaderOneLine()
    ensures OneLine("[Old DEVICE:x]") && OneLine(Entry("fps", Decimal(30)))
  {
    DecimalOneLine(30);
    hide Decimal;
    EntryOneLine("fps", Decimal(30));
  }

  lemma PreservedOld(header: string, entry: string)
    requires header == "[Old DEVICE:x]" && entry == Entry("fps", Decimal(30))
    ensures PreservedLines(false, [header, entry]) == [header, entry]
  {
    assert header[5..][..7] == "DEVICE:";
    assert HasPrefix(header[5..], "DEVICE:");
    assert Mentions(header, "DEVICE:");
    assert entry[0] == 'f';
    hide Mentions, Decimal;
    PreservedStep(true, entry, []);
    PreservedStep(false, header, [entry]);
    NoLines();
    assert [entry] + [] == [entry] && [header] + [entry] == [header, entry];
  }

  // ---------------------------------------------------------------- loading and saving

  method Traverse<V>(m: map<string, V>) returns (order: seq<string>)
    ensures Enumerates(order, m)
  {
    order := [];
    var left := m.Keys;
    while left != {}
      invariant left <= m.Keys
      invariant forall i | 0 <= i < |order| :: order[i] in m && order[i] !in left
      invariant forall i, j | 0 <= i < j < |order| :: order[i] != order[j]
      invariant forall k | k in m && k !in left :: k in order
      decreases |left|
    {
      var k :| k in left;
      order := order + [k];
      left := left - {k};
    }
  }

  method PrintGlobals(settings: map<string, int>) returns (lines: seq<string>, order: seq<string>)
    ensures Enumerates(order, settings) && lines == GlobalLines(settings, order)
  {
    order := Traverse(settings);
    lines := [];
    for i := 0 to |order|
      invariant lines == GlobalLines(settings, order[..i])
    {
      lines := lines + [Entry(order[i], Decimal(settings[order[i]]))];
    }
    assert order[..|order|] == order;
  }

  method PrintDevices(devices: map<string, StreamOptions>)
    returns (lines: seq<string>, names: seq<string>, ghost sliders: map<string, seq<string>>)
    ensures Enumerates(names, devices) && Listed(devices, names, sliders) &&
              lines == DeviceLines(devices, names, sliders)
  {
    hide SectionLines, Enumerates;
    names := Traverse(devices);
    assert forall i, j | 0 <= i < j < |names| :: names[i] != names[j] by { Distinct(names, devices); }
    assert forall i | 0 <= i < |names| :: names[i] in devices by { Distinct(names, devices); }
    sliders := map[];
    lines := [];
    for i := 0 to |names|
      invariant Listed(devices, names[..i], sliders)
      invariant lines == DeviceLines(devices, names[..i], sliders)
    {
      var state := devices[names[i]];
      var filters := Traverse(state.filterSliderValues);
      Distinct(filters, state.filterSliderValues);
      ghost var was := sliders;
      sliders := sliders[names[i] := filters];
      SameDeviceLines(devices, names[..i], was, sliders);
      assert names[..i + 1][..i] == names[..i];
      lines := lines + SectionLines(names[i], state, filters);
    }
    assert names[..|names|] == names;
  }

  lemma Distinct<V>(order: seq<string>, m: map<string, V>)
    requires Enumerates(order, m)
    ensures forall i | 0 <= i < |order| :: order[i] in m
    ensures forall i, j | 0 <= i < j < |order| :: order[i] != order[j]
  {
  }

  lemma {:induction false} SameDeviceLines(devices: map<string, StreamOptions>, names: seq<string>,
      a: map<string, seq<string>>, b: map<string, seq<string>>)
    requires Listed(devices, names, a) && forall i | 0 <= i < |names| :: names[i] in b && a[names[i]] == b[names[i]]
    ensures Listed(devices, names, b) && DeviceLines(devices, names, a) == DeviceLines(devices, names, b)
  {
    hide SectionLines, Enumerates;
    if names != [] {
      SameDeviceLines(devices, names[..|names| - 1], a, b);
    }
  }

  class Settings {
    var settings: map<string, int>
    var loadedDeviceStates: map<string, StreamOptions>
    var preservedDeviceLines: seq<string>
    var file: Option<string>    // the text of the configuration file, if it can be opened

    constructor ()
      ensures settings == map[] && loadedDeviceStates == map[] && preservedDeviceLines == [] && file == None
    {
      settings, loadedDeviceStates, preservedDeviceLines, file := map[], map[], [], None;
    }

    function Value(): Store
      reads this
    {
      Store(settings, loadedDeviceStates)
    }

    function Get(name: string): int
      reads this
    {
      if name in settings then settings[name] else -1
    }

    method Load()
      modifies this
      ensures file == old(file)
      ensures file.None? ==> Value() == old(Value()) && preservedDeviceLines == old(preservedDeviceLines)
      ensures file.Some? ==> Value() == Parsed(file.value)
      ensures file.Some? ==>
                preservedDeviceLines ==
                  if Get("SAVE_DEVICE_STATES") == 1 then [] else PreservedLines(false, LinesOf(file.value))
    {
      if file.None? {
        return;
      }
      var text := file.value;
      settings, loadedDeviceStates, preservedDeviceLines := map[], map[], [];
      var current: Option<string> := None;
      var cursor := 0;
      assert text[0..] == text;
      while cursor < |text|
        invariant cursor <= |text| && file == Some(text) && preservedDeviceLines == []
        invariant ParseLines(EMPTY, LinesOf(text)) == ParseLines(Parser(Value(), current), LinesOf(text[cursor..]))
      {
        var line, next := GetLine(text, cursor);
        current := LoadLine(line, current);
        cursor := next;
      }
      assert text[cursor..] == "";
      if Get(SAVE_DEVICE_STATES) != 1 {
        CachePreservedLines();
      }
    }

    method LoadLine(line: string, current: Option<string>) returns (next: Option<string>)
      modifies this
      ensures Parser(Value(), next) == ParseLine(Parser(old(Value()), current), line)
      ensures file == old(file) && preservedDeviceLines == old(preservedDeviceLines)
    {
      next := current;
      if line == "" {
        return;
      }
      if line[0] == '[' && line[|line| - 1] == ']' {
        var currentSection := line[1..|line| - 1];
        if HasPrefix(currentSection, "DEVICE:") {
          var devName := currentSection[7..];
          if devName !in loadedDeviceStates {
            loadedDeviceStates := loadedDeviceStates[devName := DEFAULT];
          }
          next := Some(devName);
        } else {
          next := None;
        }
        return;
      }
      var pos := IndexOf(line, '=');
      if pos < 0 {
        return;
      }
      var key, valStr := line[..pos], line[pos + 1..];
      if current.Some? {
        var state := if current.value in loadedDeviceStates then loadedDeviceStates[current.value] else DEFAULT;
        loadedDeviceStates := loadedDeviceStates[current.value := ParseDeviceLine(state, key, valStr)];
      } else {
        settings := settings[key := Atoi(valStr)];
      }
    }

    method CachePreservedLines()
      requires file.Some?
      modifies this`preservedDeviceLines
      ensures preservedDeviceLines == old(preservedDeviceLines) + PreservedLines(false, LinesOf(file.value))
    {
      hide Mentions, PreservedLines, LinesOf;
      var text := file.value;
      var insideDeviceSection := false;
      var cursor := 0;
      ghost var all := old(preservedDeviceLines) + PreservedLines(false, LinesOf(text));
      assert text[0..] == text;
      while cursor < |text|
        invariant cursor <= |text|
        invariant all == preservedDeviceLines + PreservedLines(insideDeviceSection, LinesOf(text[cursor..]))
      {
        var line, next := GetLine(text, cursor);
        PreservedStep(insideDeviceSection, line, LinesOf(text[next..]));
        cursor := next;
        if line != "" {
          if line[0] == '[' && Mentions(line, "DEVICE:") {
            insideDeviceSection := true;
          } else if line[0] == '[' {
            insideDeviceSection := false;
          }
          if insideDeviceSection {
            preservedDeviceLines := preservedDeviceLines + [line];
          }
        }
      }
      assert text[cursor..] == "";
      NoLines();
      assert preservedDeviceLines + [] == preservedDeviceLines;
    }

    /** Save; a file that cannot be opened for writing stays as it is. */
    method Save(writable: bool) returns (ghost order: Order)
      modifies this`file
      ensures !writable ==> file == old(file)
      ensures writable ==> file.Some?
      ensures writable && Get("SAVE_DEVICE_STATES") == 1 ==>
                Orders(order, Value()) && file.value == Lines(FileLines(Value(), order))
      ensures writable && Get("SAVE_DEVICE_STATES") != 1 ==>
                && Enumerates(order.globals, settings)
                && file.value == Lines(GlobalLines(settings, order.globals) + [""] + preservedDeviceLines)
    {
      hide GlobalLines, DeviceLines, Enumerates;
      var globals, order1 := PrintGlobals(settings);
      var lines := globals + [""];
      if Get(SAVE_DEVICE_STATES) == 1 {
        var sections, names;
        ghost var sliders;
        sections, names, sliders := PrintDevices(loadedDeviceStates);
        order := Order(order1, names, sliders);
        OrdersListed(order, Value());
        assert lines + sections == globals + ([""] + sections);
        lines := lines + sections;
      } else {
        order := Order(order1, [], map[]);
        lines := lines + preservedDeviceLines;
      }
      if writable {
        file := Some(Lines(lines));
      }
    }
  }

  lemma OrdersListed(o: Order, store: Store)
    requires Enumerates(o.globals, store.settings) && Enumerates(o.devices, store.devices)
    requires Listed(store.devices, o.devices, o.sliders)
    ensures Orders(o, store)
  {
    forall n | n in store.devices
      ensures n in o.sliders && Enumerates(o.sliders[n], store.devices[n].filterSliderValues)
    {
      assert n in o.devices;
    }
  }

  /** std::getline from a position that is not the end. */
  method GetLine(text: string, cursor: nat) returns (line: string, next: nat)
    requires cursor < |text|
    ensures cursor < next <= |text| && LinesOf(text[cursor..]) == [line] + LinesOf(text[next..])
  {
    ghost var rest := text[cursor..];
    var end := cursor;
    while end < |text| && text[end] != '\n'
      invariant cursor <= end <= |text|
      invariant forall i | cursor <= i < end :: text[i] != '\n'
    {
      end := end + 1;
    }
    line := text[cursor..end];
    next := if end < |text| then end + 1 else end;
    LineEnds(text, cursor, end);
  }

  lemma LineEnds(text: string, cursor: nat, end: nat)
    requires cursor <= end <= |text| && cursor < |text| && (end < |text| ==> text[end] == '\n')
    requires forall i | cursor <= i < end :: text[i] != '\n'
    ensures LinesOf(text[cursor..]) == [text[cursor..end]] + LinesOf(text[if end < |text| then end + 1 else end..])
  {
    var rest := text[cursor..];
    LineLengthFrom(text, cursor, end);
    hide LineLength;
    assert rest[..end - cursor] == text[cursor..end];
    if end < |text| {
      assert rest[end - cursor + 1..] == text[end + 1..];
    }
  }

  lemma LineLengthFrom(text: string, cursor: nat, end: nat)
    requires cursor <= end <= |text| && (end < |text| ==> text[end] == '\n')
    requires forall i | cursor <= i < end :: text[i] != '\n'
    ensures LineLength(text[cursor..]) == end - cursor
  {
    var rest := text[cursor..];
    var n := LineLength(rest);
    assert forall i | cursor <= i < |text| :: text[i] == rest[i - cursor];
    assert n < |rest| ==> text[cursor + n] == '\n';
  }

  /**
   What is saved is what is loaded again, but for the zoom, in whichever order the maps are traversed,
   exactly when the keys and the names are ones that the format can express.
   */
  lemma SavedIsLoadedExactly(store: Store, o: Order)
    requires Orders(o, store)
    ensures Parsed(Lines(FileLines(store, o))) == Store(store.settings, Unzoomed(store.devices)) <==> Clean(store)
  {
    hide ParseLines, DeviceClean;
    if Clean(store) {
      FileOneLine(store, o);
      LinesOfLines(FileLines(store, o));
      FileParsed(store, o);
    }
    var text := Lines(FileLines(store, o));
    if Parsed(text) == Store(store.settings, Unzoomed(store.devices)) {
      LinesOfAreLines(text);
      ParsedIsClean(EMPTY, LinesOf(text));
      UnzoomedClean(store);
    }
  }

  lemma UnzoomedClean(store: Store)
    requires Clean(Store(store.settings, Unzoomed(store.devices)))
    ensures Clean(store)
  {
    forall n | n in store.devices ensures DeviceClean(n, store.devices[n]) {
      assert DeviceClean(n, Unzoomed(store.devices)[n]);
    }
  }
}
