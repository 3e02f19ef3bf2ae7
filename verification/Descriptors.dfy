/** Device descriptors: written by the phone, parsed by the Linux and the Windows receivers. */
module Descriptors {
  import opened Octets
  import opened Utf8
  import opened Cursor

  const MAX_DESCRIPTOR: nat := 0x1_0000
  const MAX_STRING: nat := 2048
  const MAX_LIST: nat := 128
  const MAX_DIMENSION: nat := 8192
  const LAST_CATEGORY: nat := 4

  datatype Resolution = Resolution(width: nat, height: nat)
  datatype Filter = Filter(name: Bytes, category: byte)
  datatype Descriptor = Descriptor(name: Bytes, url: Bytes, front: seq<Resolution>, back: seq<Resolution>,
      filters: seq<Filter>)

  /** The two parsers differ in some limits only; loopback stands for the Windows check of the URL. */
  datatype Parser = Linux | Windows(loopback: Bytes -> bool)

  function NameLimit(p: Parser): (limit: nat)
    ensures limit <= MAX_STRING
  {
    if p.Linux? then MAX_STRING else 256
  }

  predicate UrlAccepted(p: Parser, url: Bytes) {
    if p.Linux? then url != [] else p.loopback(url)
  }

  ghost predicate ValidResolution(r: Resolution) {
    1 <= r.width <= 8192 && 1 <= r.height <= 8192
  }

  ghost predicate LinuxFilter(f: Filter) {
    |f.name| <= 2048 && Allowed(f.name, true) && f.category <= 4
  }

  ghost predicate WindowsFilter(f: Filter) {
    1 <= |f.name| <= 128 && Allowed(f.name, true) && f.category <= 4
  }

  ghost function ValidFilter(p: Parser): Filter -> bool {
    if p.Linux? then LinuxFilter else WindowsFilter
  }

  // ---------------------------------------------------------------- the wire format

  function ResolutionBytes(r: Resolution): Bytes {
    if r.width < 0x1_0000 && r.height < 0x1_0000 then Be16(r.width) + Be16(r.height) else []
  }

  function FilterBytes(f: Filter): Bytes {
    if |f.name| < 0x1_0000 then TextBytes(f.name) + [f.category] else []
  }

  function ListBytes<T>(write: T -> Bytes, xs: seq<T>): Bytes {
    if |xs| < 0x1_0000 then Be16(|xs|) + WriteMany(write, xs) else []
  }

  function DescriptorBytes(d: Descriptor): Bytes
    requires |d.name| < 0x1_0000 && |d.url| < 0x1_0000
  {
    TextBytes(d.name) + TextBytes(d.url) + ListBytes(ResolutionBytes, d.front) + ListBytes(ResolutionBytes, d.back)
    + ListBytes(FilterBytes, d.filters)
  }

  /** The descriptors within the limits of a receiver. */
  ghost predicate Acceptable(d: Descriptor, p: Parser) {
    && 1 <= |d.name| <= (if p.Linux? then 2048 else 256) && Allowed(d.name, true)
    && |d.url| <= 2048 && Allowed(d.url, true) && UrlAccepted(p, d.url)
    && |d.front| <= 128 && All(ValidResolution, d.front)
    && |d.back| <= 128 && All(ValidResolution, d.back)
    && |d.filters| <= 128 && All(ValidFilter(p), d.filters)
    && |DescriptorBytes(d)| <= 65_536
  }

  // ---------------------------------------------------------------- what the parsers read

  ghost function TakeResolution(s: Bytes): Read<Resolution> {
    if |s| < 4 then Short
    else
      var r := Resolution(FromBe16(s[0], s[1]), FromBe16(s[2], s[3]));
      if ValidResolution(r) then Got(r, s[4..]) else Bad
  }

  ghost function TakeLinuxFilter(s: Bytes): Read<Filter> {
    match TakeText(s, MAX_STRING, true)
    case Short => Short
    case Bad => Bad
    case Got(name, s1) =>
      if s1 == [] then Short else if s1[0] <= LAST_CATEGORY then Got(Filter(name, s1[0]), s1[1..]) else Bad
  }

  ghost function TakeWindowsFilter(s: Bytes): Read<Filter> {
    match TakeText(s, 128, true)
    case Short => Short
    case Bad => Bad
    case Got(name, s1) =>
      if s1 == [] then Short
      else if s1[0] <= LAST_CATEGORY && name != [] then Got(Filter(name, s1[0]), s1[1..])
      else Bad
  }

  ghost function TakeFilter(p: Parser): Bytes -> Read<Filter> {
    if p.Linux? then TakeLinuxFilter else TakeWindowsFilter
  }

  ghost function TakeList<T>(take: Bytes -> Read<T>, s: Bytes): Read<seq<T>> {
    match TakeU16(s)
    case Short => Short
    case Bad => Bad
    case Got(count, rest) => if count > MAX_LIST then Bad else TakeMany(take, rest, count)
  }

  /** Two lists of one kind, and one of another. */
  ghost function TakeThree<A, B>(takeA: Bytes -> Read<A>, takeB: Bytes -> Read<B>, s: Bytes)
    : Read<(seq<A>, seq<A>, seq<B>)>
  {
    match TakeList(takeA, s)
    case Short => Short
    case Bad => Bad
    case Got(front, s1) =>
      match TakeList(takeA, s1)
      case Short => Short
      case Bad => Bad
      case Got(back, s2) =>
        match TakeList(takeB, s2)
        case Short => Short
        case Bad => Bad
        case Got(filters, s3) => Got((front, back, filters), s3)
  }

  ghost function TakeLists(name: Bytes, url: Bytes, s: Bytes, p: Parser): Read<Descriptor> {
    match TakeThree(TakeResolution, TakeFilter(p), s)
    case Short => Short
    case Bad => Bad
    case Got(lists, rest) => Got(Descriptor(name, url, lists.0, lists.1, lists.2), rest)
  }

  ghost function TakeDescriptor(s: Bytes, p: Parser): Read<Descriptor> {
    match TakeText(s, NameLimit(p), true)
    case Short => Short
    case Bad => Bad
    case Got(name, s1) =>
      match TakeText(s1, MAX_STRING, true)
      case Short => Short
      case Bad => Bad
      case Got(url, s2) => if name == [] || !UrlAccepted(p, url) then Bad else TakeLists(name, url, s2, p)
  }

  ghost function Parse(s: Bytes, p: Parser): Option<Descriptor> {
    if |s| > MAX_DESCRIPTOR then None
    else
      var r := TakeDescriptor(s, p);
      if r.Got? && r.rest == [] then Some(r.value) else None
  }

  // ---------------------------------------------------------------- the parsers

  /** parseDeviceDescriptor and DeserializeDeviceDescriptor; None stands for an exception. */
  method ParseDeviceDescriptor(data: Bytes, p: Parser) returns (r: Option<Descriptor>)
    ensures r == Parse(data, p)
  {
    hide TakeText, TakeLists;
    if |data| > MAX_DESCRIPTOR {
      return None;
    }
    var reader := new Reader(data);
    var name := reader.Text(NameLimit(p), true);
    if !name.Got? {
      return None;
    }
    var url := reader.Text(MAX_STRING, true);
    if !url.Got? || name.value == [] || !UrlAccepted(p, url.value) {
      return None;
    }
    var d := ReadLists(reader, name.value, url.value, p);
    r := if d.Got? && d.rest == [] then Some(d.value) else None;
  }

  method ReadLists(reader: Reader, name: Bytes, url: Bytes, p: Parser) returns (r: Read<Descriptor>)
    requires reader.Valid()
    modifies reader
    ensures reader.Valid() && r == TakeLists(name, url, old(reader.Rest()), p)
  {
    hide TakeList;
    var front := ReadResolutions(reader);
    if !front.Got? {
      return if front.Short? then Short else Bad;
    }
    var back := ReadResolutions(reader);
    if !back.Got? {
      return if back.Short? then Short else Bad;
    }
    var filters := ReadFilters(reader, p);
    if !filters.Got? {
      return if filters.Short? then Short else Bad;
    }
    r := Got(Descriptor(name, url, front.value, back.value, filters.value), filters.rest);
  }

  method ReadResolutions(reader: Reader) returns (r: Read<seq<Resolution>>)
    requires reader.Valid()
    modifies reader
    ensures reader.Valid() && r == TakeList(TakeResolution, old(reader.Rest()))
    ensures r.Got? ==> reader.Rest() == r.rest
  {
    hide TakeResolution, FromBe16, TakeMany;
    var count := reader.U16();
    if !count.Got? {
      return Short;
    }
    if count.value > MAX_LIST {
      return Bad;
    }
    r := ReadManyResolutions(reader, count.value);
  }

  /** The loop over the counted list. */
  method ReadManyResolutions(reader: Reader, count: nat) returns (r: Read<seq<Resolution>>)
    requires reader.Valid()
    modifies reader
    ensures reader.Valid() && r == TakeMany(TakeResolution, old(reader.Rest()), count)
    ensures r.Got? ==> reader.Rest() == r.rest
  {
    hide TakeResolution, TakeMany;
    var resolutions: seq<Resolution> := [];
    ghost var expected := TakeMany(TakeResolution, reader.Rest(), count);
    assert expected.Got? ==> [] + expected.value == expected.value;
    var i := 0;
    while i < count
      invariant 0 <= i <= count && reader.Valid()
      invariant expected == Prepended(resolutions, TakeMany(TakeResolution, reader.Rest(), count - i))
    {
      TakeManyStep(TakeResolution, reader.Rest(), count - i);
      var one := ReadResolution(reader);
      if !one.Got? {
        return if one.Short? then Short else Bad;
      }
      PrependOne(resolutions, one.value, TakeMany(TakeResolution, one.rest, count - i - 1));
      resolutions := resolutions + [one.value];
      i := i + 1;
    }
    TakeManyStep(TakeResolution, reader.Rest(), 0);
    assert resolutions + [] == resolutions;
    r := Got(resolutions, reader.Rest());
  }

  method ReadResolution(reader: Reader) returns (r: Read<Resolution>)
    requires reader.Valid()
    modifies reader
    ensures reader.Valid() && r == TakeResolution(old(reader.Rest()))
    ensures r.Got? ==> reader.Rest() == r.rest
  {
    hide FromBe16;
    ghost var s := reader.Rest();
    var width := reader.U16();
    if !width.Got? {
      return Short;
    }
    var height := reader.U16();
    if !height.Got? {
      return Short;
    }
    assert s[2..][0] == s[2] && s[2..][1] == s[3] && s[2..][2..] == s[4..];
    if width.value == 0 || height.value == 0 || width.value > MAX_DIMENSION || height.value > MAX_DIMENSION {
      return Bad;
    }
    r := Got(Resolution(width.value, height.value), reader.Rest());
  }

  method ReadFilters(reader: Reader, p: Parser) returns (r: Read<seq<Filter>>)
    requires reader.Valid()
    modifies reader
    ensures reader.Valid() && r == TakeList(TakeFilter(p), old(reader.Rest()))
    ensures r.Got? ==> reader.Rest() == r.rest
  {
    hide TakeFilter, FromBe16, TakeMany;
    var count := reader.U16();
    if !count.Got? {
      return Short;
    }
    if count.value > MAX_LIST {
      return Bad;
    }
    r := ReadManyFilters(reader, count.value, p);
  }

  /** The loop over the counted list. */
  method ReadManyFilters(reader: Reader, count: nat, p: Parser) returns (r: Read<seq<Filter>>)
    requires reader.Valid()
    modifies reader
    ensures reader.Valid() && r == TakeMany(TakeFilter(p), old(reader.Rest()), count)
    ensures r.Got? ==> reader.Rest() == r.rest
  {
    hide TakeFilter, TakeMany;
    var filters: seq<Filter> := [];
    ghost var expected := TakeMany(TakeFilter(p), reader.Rest(), count);
    assert expected.Got? ==> [] + expected.value == expected.value;
    var i := 0;
    while i < count
      invariant 0 <= i <= count && reader.Valid()
      invariant expected == Prepended(filters, TakeMany(TakeFilter(p), reader.Rest(), count - i))
    {
      TakeManyStep(TakeFilter(p), reader.Rest(), count - i);
      var one := ReadFilter(reader, p);
      if !one.Got? {
        return if one.Short? then Short else Bad;
      }
      PrependOne(filters, one.value, TakeMany(TakeFilter(p), one.rest, count - i - 1));
      filters := filters + [one.value];
      i := i + 1;
    }
    TakeManyStep(TakeFilter(p), reader.Rest(), 0);
    assert filters + [] == filters;
    r := Got(filters, reader.Rest());
  }

  method ReadFilter(reader: Reader, p: Parser) returns (r: Read<Filter>)
    requires reader.Valid()
    modifies reader
    ensures reader.Valid() && r == TakeFilter(p)(old(reader.Rest()))
    ensures r.Got? ==> reader.Rest() == r.rest
  {
    hide TakeText;
    var name := reader.Text(if p.Linux? then MAX_STRING else 128, true);
    if !name.Got? {
      return if name.Short? then Short else Bad;
    }
    var category := reader.U8();
    if !category.Got? {
      return Short;
    }
    if category.value > LAST_CATEGORY || (p.Windows? && name.value == []) {
      return Bad;
    }
    r := Got(Filter(name.value, category.value), reader.Rest());
  }

  // ---------------------------------------------------------------- the format and the parsers are inverse

  lemma ResolutionInverse()
    ensures Inverse(TakeResolution, ResolutionBytes, ValidResolution)
  {
    forall r, rest | ValidResolution(r) ensures TakeResolution(ResolutionBytes(r) + rest) == Got(r, rest) {
      assert (ResolutionBytes(r) + rest)[4..] == rest;
    }
    forall s | TakeResolution(s).Got?
      ensures ValidResolution(TakeResolution(s).value) &&
                s == ResolutionBytes(TakeResolution(s).value) + TakeResolution(s).rest
    {
      Be16OfOctets(s[0], s[1]);
      Be16OfOctets(s[2], s[3]);
      hide Be16, FromBe16;
      assert s == [s[0], s[1]] + [s[2], s[3]] + s[4..];
    }
  }

  lemma FilterInverse(p: Parser)
    ensures Inverse(TakeFilter(p), FilterBytes, ValidFilter(p))
  {
    hide TakeText, TextBytes;
    forall f, rest | ValidFilter(p)(f) ensures TakeFilter(p)(FilterBytes(f) + rest) == Got(f, rest) {
      assert FilterBytes(f) + rest == TextBytes(f.name) + ([f.category] + rest);
      TakeWrittenText(f.name, [f.category] + rest, if p.Linux? then MAX_STRING else 128, true);
    }
    forall s | TakeFilter(p)(s).Got?
      ensures ValidFilter(p)(TakeFilter(p)(s).value) && s == FilterBytes(TakeFilter(p)(s).value) + TakeFilter(p)(s).rest
    {
      var limit := if p.Linux? then MAX_STRING else 128;
      TakenTextWasWritten(s, limit, true);
      var s1 := TakeText(s, limit, true).rest;
      assert s1 == [s1[0]] + s1[1..];
    }
  }

  lemma ListInverse<T(!new)>(take: Bytes -> Read<T>, write: T -> Bytes, valid: T -> bool, xs: seq<T>, rest: Bytes)
    requires Inverse(take, write, valid) && All(valid, xs) && |xs| <= MAX_LIST
    ensures TakeList(take, ListBytes(write, xs) + rest) == Got(xs, rest)
  {
    hide Inverse, TakeU16, Be16, TakeMany;
    assert ListBytes(write, xs) + rest == Be16(|xs|) + (WriteMany(write, xs) + rest);
    TakeWrittenU16(|xs|, WriteMany(write, xs) + rest);
    ManyInverse(take, write, valid, xs, rest);
  }

  lemma ListWasWritten<T(!new)>(take: Bytes -> Read<T>, write: T -> Bytes, valid: T -> bool, s: Bytes)
    requires Inverse(take, write, valid) && TakeList(take, s).Got?
    ensures var r := TakeList(take, s);
            |r.value| <= MAX_LIST && All(valid, r.value) && s == ListBytes(write, r.value) + r.rest
  {
    hide Inverse, TakeU16, Be16, TakeMany;
    TakenU16WasWritten(s);
    var count := TakeU16(s);
    ManyWereWritten(take, write, valid, count.rest, count.value);
    var r := TakeMany(take, count.rest, count.value);
    assert s == Be16(count.value) + WriteMany(write, r.value) + r.rest;
  }

  lemma ThreeInverse<A(!new), B(!new)>(takeA: Bytes -> Read<A>, writeA: A -> Bytes, validA: A -> bool,
                                       takeB: Bytes -> Read<B>, writeB: B -> Bytes, validB: B -> bool,
                                       front: seq<A>, back: seq<A>, filters: seq<B>)
    requires Inverse(takeA, writeA, validA) && Inverse(takeB, writeB, validB)
    requires All(validA, front) && All(validA, back) && All(validB, filters)
    requires |front| <= MAX_LIST && |back| <= MAX_LIST && |filters| <= MAX_LIST
    ensures TakeThree(takeA, takeB, ListBytes(writeA, front) +
              (ListBytes(writeA, back) + (ListBytes(writeB, filters) + [])))
         == Got((front, back, filters), [])
  {
    hide TakeList, ListBytes, All, Inverse;
    var s2 := ListBytes(writeB, filters) + [];
    var s1 := ListBytes(writeA, back) + s2;
    ListInverse(takeA, writeA, validA, front, s1);
    ListInverse(takeA, writeA, validA, back, s2);
    ListInverse(takeB, writeB, validB, filters, []);
  }

  lemma ThreeWereWritten<A(!new), B(!new)>(takeA: Bytes -> Read<A>, writeA: A -> Bytes, validA: A -> bool,
                                           takeB: Bytes -> Read<B>, writeB: B -> Bytes, validB: B -> bool, s: Bytes)
    requires Inverse(takeA, writeA, validA) && Inverse(takeB, writeB, validB) && TakeThree(takeA, takeB, s).Got?
    ensures var (front, back, filters) := TakeThree(takeA, takeB, s).value;
            && |front| <= MAX_LIST && All(validA, front) && |back| <= MAX_LIST && All(validA, back)
            && |filters| <= MAX_LIST && All(validB, filters)
            && s == ListBytes(writeA, front) + (ListBytes(writeA, back) +
                (ListBytes(writeB, filters) + TakeThree(takeA, takeB, s).rest))
  {
    hide TakeList, ListBytes, All, Inverse;
    ListWasWritten(takeA, writeA, validA, s);
    var s1 := TakeList(takeA, s).rest;
    ListWasWritten(takeA, writeA, validA, s1);
    ListWasWritten(takeB, writeB, validB, TakeList(takeA, s1).rest);
  }

  lemma Regroup(a: Bytes, b: Bytes, c: Bytes, d: Bytes, e: Bytes)
    ensures a + b + c + d + e == a + (b + (c + (d + (e + []))))
  {
  }

  /** Every acceptable descriptor comes back from its octets. */
  lemma DescriptorRoundTrip(d: Descriptor, p: Parser)
    requires Acceptable(d, p)
    ensures Parse(DescriptorBytes(d), p) == Some(d)
  {
    hide TakeText, TextBytes, ListBytes, All, UrlAccepted;
    var lists := ListBytes(ResolutionBytes, d.front) +
        (ListBytes(ResolutionBytes, d.back) + (ListBytes(FilterBytes, d.filters) + []));
    Regroup(TextBytes(d.name), TextBytes(d.url), ListBytes(ResolutionBytes, d.front),
            ListBytes(ResolutionBytes, d.back), ListBytes(FilterBytes, d.filters));
    TakeWrittenText(d.name, TextBytes(d.url) + lists, NameLimit(p), true);
    TakeWrittenText(d.url, lists, MAX_STRING, true);
    ResolutionInverse();
    FilterInverse(p);
    hide Inverse, TakeThree, TakeFilter, ValidFilter;
    ThreeInverse(TakeResolution, ResolutionBytes, ValidResolution, TakeFilter(p), FilterBytes, ValidFilter(p),
                 d.front, d.back, d.filters);
  }

  /** Whatever a parser accepts is acceptable, and is written as exactly the octets that were parsed. */
  lemma ParsedWasWritten(s: Bytes, p: Parser)
    requires Parse(s, p).Some?
    ensures Acceptable(Parse(s, p).value, p) && DescriptorBytes(Parse(s, p).value) == s
  {
    hide TakeText, TextBytes, ListBytes, All, UrlAccepted;
    TakenTextWasWritten(s, NameLimit(p), true);
    var name := TakeText(s, NameLimit(p), true);
    TakenTextWasWritten(name.rest, MAX_STRING, true);
    var url := TakeText(name.rest, MAX_STRING, true);
    ResolutionInverse();
    FilterInverse(p);
    hide Inverse, TakeThree, TakeFilter, ValidFilter;
    ThreeWereWritten(TakeResolution, ResolutionBytes, ValidResolution, TakeFilter(p), FilterBytes, ValidFilter(p),
        url.rest);
    var d := Parse(s, p).value;
    Regroup(TextBytes(d.name), TextBytes(d.url), ListBytes(ResolutionBytes, d.front),
            ListBytes(ResolutionBytes, d.back), ListBytes(FilterBytes, d.filters));
  }

  // ---------------------------------------------------------------- the phone's writer

  const MAX_PAYLOAD: nat := 0x1_0000

  predicate PhoneResolution(r: Resolution) {
    1 <= r.width <= 8192 && 1 <= r.height <= 8192 && r.width * r.height <= 16_777_216
  }

  predicate PhoneFilter(f: Filter) {
    1 <= |f.name| <= 128
  }

  /** What DeviceDescriptor.serialize requires; blank stands for the test of Unicode white space. */
  predicate PhoneAccepts(d: Descriptor, blank: Bytes -> bool) {
    && !blank(d.name) && |d.name| <= 256 && |d.url| <= 2048
    && |d.front| <= 128 && |d.back| <= 128 && |d.filters| <= 128
    && (forall i | 0 <= i < |d.front| :: PhoneResolution(d.front[i]))
    && (forall i | 0 <= i < |d.back| :: PhoneResolution(d.back[i]))
    && (forall i | 0 <= i < |d.filters| :: PhoneFilter(d.filters[i]))
  }

  /** What the phone's types guarantee: strings are UTF-8 once encoded, and categories are those of an enumeration. */
  ghost predicate OnPhone(d: Descriptor) {
    && IsUtf8(d.name) && IsUtf8(d.url)
    && forall i | 0 <= i < |d.filters| :: IsUtf8(d.filters[i].name) && d.filters[i].category <= LAST_CATEGORY
  }

  function FilterSizes(fs: seq<Filter>): nat {
    if fs == [] then 0 else FilterSizes(fs[..|fs| - 1]) + (2 + |fs[|fs| - 1].name| + 1)
  }

  lemma {:induction false} WriteManyAppend<T>(write: T -> Bytes, xs: seq<T>, x: T)
    ensures WriteMany(write, xs + [x]) == WriteMany(write, xs) + write(x)
  {
    if xs == [] {
      assert WriteMany(write, [x]) == write(x) + WriteMany(write, []);
    } else {
      WriteManyAppend(write, xs[1..], x);
      assert (xs + [x])[1..] == xs[1..] + [x];
    }
  }

  lemma {:induction false} ResolutionsSize(rs: seq<Resolution>)
    requires forall i | 0 <= i < |rs| :: PhoneResolution(rs[i])
    ensures |WriteMany(ResolutionBytes, rs)| == 4 * |rs|
  {
    if rs != [] {
      ResolutionsSize(rs[1..]);
    }
  }

  lemma {:induction false} FiltersSize(fs: seq<Filter>)
    requires forall i | 0 <= i < |fs| :: PhoneFilter(fs[i])
    ensures |WriteMany(FilterBytes, fs)| == FilterSizes(fs) <= 131 * |fs|
  {
    if fs != [] {
      var init, last := fs[..|fs| - 1], fs[|fs| - 1];
      FiltersSize(init);
      WriteManyAppend(FilterBytes, init, last);
      assert fs == init + [last];
    }
  }

  /** The size that serialize computes is that of the format, and the final size check never fails. */
  lemma SizeIsExact(d: Descriptor, blank: Bytes -> bool)
    requires PhoneAccepts(d, blank)
    ensures |DescriptorBytes(d)| == 2 + |d.name| + (2 + |d.url|) + (2 + |d.front| * 4) + (2 + |d.back| * 4) + 2 +
              FilterSizes(d.filters)
    ensures |DescriptorBytes(d)| <= MAX_PAYLOAD
  {
    ResolutionsSize(d.front);
    ResolutionsSize(d.back);
    FiltersSize(d.filters);
  }

  /** The checks at the beginning of serialize. */
  method Required(d: Descriptor, blank: Bytes -> bool) returns (ok: bool)
    ensures ok <==> PhoneAccepts(d, blank)
  {
    if blank(d.name) || |d.name| > 256 || |d.url| > 2048 {
      return false;
    }
    if |d.front| > 128 || |d.back| > 128 || |d.filters| > 128 {
      return false;
    }
    ok := ResolutionsRequired(d.front + d.back);
    if !ok {
      assert forall i | 0 <= i < |d.front| :: (d.front + d.back)[i] == d.front[i];
      assert forall i | 0 <= i < |d.back| :: (d.front + d.back)[|d.front| + i] == d.back[i];
      return;
    }
    assert forall i | 0 <= i < |d.front| :: (d.front + d.back)[i] == d.front[i];
    assert forall i | 0 <= i < |d.back| :: (d.front + d.back)[|d.front| + i] == d.back[i];
    for i := 0 to |d.filters|
      invariant forall j | 0 <= j < i :: PhoneFilter(d.filters[j])
    {
      if |d.filters[i].name| < 1 || |d.filters[i].name| > 128 {
        return false;
      }
    }
  }

  method ResolutionsRequired(rs: seq<Resolution>) returns (ok: bool)
    ensures ok <==> forall i | 0 <= i < |rs| :: PhoneResolution(rs[i])
  {
    for i := 0 to |rs|
      invariant forall j | 0 <= j < i :: PhoneResolution(rs[j])
    {
      var r := rs[i];
      if r.width < 1 || r.width > 8192 || r.height < 1 || r.height > 8192 || r.width * r.height > 16_777_216 {
        return false;
      }
    }
    ok := true;
  }

  /** DeviceDescriptor.serialize; None stands for an exception. */
  method Serialize(d: Descriptor, blank: Bytes -> bool) returns (r: Option<array<byte>>)
    ensures r.Some? <==> PhoneAccepts(d, blank)
    ensures r.Some? ==> r.value[..] == DescriptorBytes(d)
  {
    hide DescriptorBytes;
    var required := Required(d, blank);
    if !required {
      return None;
    }
    var requiredSize := 0;
    requiredSize := requiredSize + 2 + |d.name|;
    requiredSize := requiredSize + 2 + |d.url|;
    requiredSize := requiredSize + 2 + |d.front| * 4;
    requiredSize := requiredSize + 2 + |d.back| * 4;
    requiredSize := requiredSize + 2;
    requiredSize := requiredSize + FilterSizes(d.filters);
    SizeIsExact(d, blank);
    assert requiredSize == |DescriptorBytes(d)|;
    var buffer := new OutBuffer(requiredSize);
    if requiredSize > MAX_PAYLOAD {
      return None;
    }
    Fill(buffer, d, blank);
    assert buffer.Written() == buffer.data[..];
    r := Some(buffer.data);
  }

  method Fill(buffer: OutBuffer, d: Descriptor, blank: Bytes -> bool)
    requires PhoneAccepts(d, blank) && buffer.Valid() && buffer.position == 0 &&
              buffer.data.Length == |DescriptorBytes(d)|
    modifies buffer, buffer.data
    ensures buffer.Valid() && buffer.Written() == DescriptorBytes(d)
  {
    hide TextBytes, ListBytes;
    ResolutionsSize(d.front);
    ResolutionsSize(d.back);
    FiltersSize(d.filters);
    assert |ListBytes(ResolutionBytes, d.front)| == 2 + 4 * |d.front| &&
        |ListBytes(ResolutionBytes, d.back)| == 2 + 4 * |d.back|
        && |ListBytes(FilterBytes, d.filters)| == 2 + FilterSizes(d.filters)
        && |TextBytes(d.name)| == 2 + |d.name| && |TextBytes(d.url)| == 2 + |d.url| by { ListSizes(d, blank); }
    buffer.PutText(d.name);
    buffer.PutText(d.url);
    PutResolutions(buffer, d.front);
    PutResolutions(buffer, d.back);
    PutFilters(buffer, d.filters);
    assert [] + TextBytes(d.name) == TextBytes(d.name);
  }

  lemma ListSizes(d: Descriptor, blank: Bytes -> bool)
    requires PhoneAccepts(d, blank)
    ensures |ListBytes(ResolutionBytes, d.front)| == 2 + 4 * |d.front| &&
              |ListBytes(ResolutionBytes, d.back)| == 2 + 4 * |d.back|
    ensures |ListBytes(FilterBytes, d.filters)| == 2 + FilterSizes(d.filters)
    ensures |TextBytes(d.name)| == 2 + |d.name| && |TextBytes(d.url)| == 2 + |d.url|
  {
    ResolutionsSize(d.front);
    ResolutionsSize(d.back);
    FiltersSize(d.filters);
  }

  method PutResolutions(buffer: OutBuffer, rs: seq<Resolution>)
    requires |rs| <= MAX_LIST && (forall i | 0 <= i < |rs| :: PhoneResolution(rs[i]))
    requires buffer.Valid() && buffer.position + 2 + 4 * |rs| <= buffer.data.Length
    modifies buffer, buffer.data
    ensures buffer.Valid() && buffer.Written() == old(buffer.Written()) + ListBytes(ResolutionBytes, rs)
    ensures buffer.position == old(buffer.position) + 2 + 4 * |rs|
  {
    hide Be16, ResolutionBytes, PhoneResolution;
    ghost var was := buffer.Written();
    buffer.Put(Be16(|rs|));
    assert rs[..0] == [];
    for i := 0 to |rs|
      invariant buffer.Valid() && buffer.position == old(buffer.position) + 2 + 4 * i
      invariant buffer.Written() == was + (Be16(|rs|) + WriteMany(ResolutionBytes, rs[..i]))
    {
      PutResolution(buffer, rs[i]);
      OneMore(was, |rs|, ResolutionBytes, rs, i);
    }
    assert rs[..|rs|] == rs;
  }

  method PutResolution(buffer: OutBuffer, r: Resolution)
    requires PhoneResolution(r) && buffer.Valid() && buffer.position + 4 <= buffer.data.Length
    modifies buffer, buffer.data
    ensures buffer.Valid() && buffer.Written() == old(buffer.Written()) + ResolutionBytes(r)
    ensures buffer.position == old(buffer.position) + 4
  {
    hide Be16;
    ghost var was := buffer.Written();
    buffer.Put(Be16(r.width));
    buffer.Put(Be16(r.height));
    assert was + Be16(r.width) + Be16(r.height) == was + ResolutionBytes(r);
  }

  lemma OneMore<T>(was: Bytes, count: nat, write: T -> Bytes, xs: seq<T>, i: nat)
    requires i < |xs| && count < 0x1_0000
    ensures was + (Be16(count) + WriteMany(write, xs[..i])) + write(xs[i]) ==
              was + (Be16(count) + WriteMany(write, xs[..i + 1]))
  {
    hide Be16;
    WriteManyAppend(write, xs[..i], xs[i]);
    assert xs[..i + 1] == xs[..i] + [xs[i]];
  }

  method PutFilters(buffer: OutBuffer, fs: seq<Filter>)
    requires |fs| <= MAX_LIST && (forall i | 0 <= i < |fs| :: PhoneFilter(fs[i]))
    requires buffer.Valid() && buffer.position + 2 + FilterSizes(fs) <= buffer.data.Length
    modifies buffer, buffer.data
    ensures buffer.Valid() && buffer.Written() == old(buffer.Written()) + ListBytes(FilterBytes, fs)
  {
    hide Be16, TextBytes, FilterBytes, PhoneFilter;
    ghost var was := buffer.Written();
    buffer.Put(Be16(|fs|));
    assert fs[..0] == [];
    for i := 0 to |fs|
      invariant buffer.Valid() && buffer.position == old(buffer.position) + 2 + FilterSizes(fs[..i])
      invariant buffer.Written() == was + (Be16(|fs|) + WriteMany(FilterBytes, fs[..i]))
    {
      SizesGrow(fs, i);
      PutFilter(buffer, fs[i]);
      OneMore(was, |fs|, FilterBytes, fs, i);
    }
    assert fs[..|fs|] == fs;
  }

  method PutFilter(buffer: OutBuffer, f: Filter)
    requires PhoneFilter(f) && buffer.Valid() && buffer.position + 3 + |f.name| <= buffer.data.Length
    modifies buffer, buffer.data
    ensures buffer.Valid() && buffer.Written() == old(buffer.Written()) + FilterBytes(f)
    ensures buffer.position == old(buffer.position) + 3 + |f.name|
  {
    hide TextBytes;
    ghost var was := buffer.Written();
    buffer.PutText(f.name);
    buffer.Put([f.category]);
    assert was + TextBytes(f.name) + [f.category] == was + FilterBytes(f);
  }

  lemma {:induction false} SizesGrow(fs: seq<Filter>, i: nat)
    requires i < |fs|
    ensures FilterSizes(fs[..i + 1]) == FilterSizes(fs[..i]) + (2 + |fs[i].name| + 1) <= FilterSizes(fs)
  {
    assert fs[..i + 1][..i] == fs[..i];
    if i + 1 < |fs| {
      SizesGrow(fs[..|fs| - 1], i);
      assert fs[..|fs| - 1][..i + 1] == fs[..i + 1] && fs[..|fs| - 1][..i] == fs[..i];
    } else {
      assert fs[..i + 1] == fs;
    }
  }

  // ---------------------------------------------------------------- from the phone to a receiver

  ghost predicate FiltersClean(d: Descriptor) {
    forall i | 0 <= i < |d.filters| :: NoControls(d.filters[i].name)
  }

  /**
   A descriptor that the phone serialises is understood by a receiver exactly when its strings have no
   control characters and the receiver takes its URL; for Linux that means a URL that is not empty.
   */
  lemma DescriptorArrivesExactly(d: Descriptor, p: Parser, blank: Bytes -> bool)
    requires PhoneAccepts(d, blank) && OnPhone(d) && blank([])
    ensures Parse(DescriptorBytes(d), p) == Some(d)
       <==> NoControls(d.name) && NoControls(d.url) && FiltersClean(d) && UrlAccepted(p, d.url)
  {
    hide DescriptorBytes, Parse;
    if NoControls(d.name) && NoControls(d.url) && FiltersClean(d) && UrlAccepted(p, d.url) {
      SizeIsExact(d, blank);
      assert d.name != [];
      assert All(ValidResolution, d.front) && All(ValidResolution, d.back);
      assert All(ValidFilter(p), d.filters);
      DescriptorRoundTrip(d, p);
    }
    if Parse(DescriptorBytes(d), p) == Some(d) {
      ParsedWasWritten(DescriptorBytes(d), p);
      forall i | 0 <= i < |d.filters| ensures NoControls(d.filters[i].name) {
        assert ValidFilter(p)(d.filters[i]);
      }
    }
  }
}
