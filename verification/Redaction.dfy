/**
 Removal of RTSP credentials from diagnostic text, line by line. Characters stand for octets; std::tolower is that of
 the C locale.
 */
module Redaction {
  import opened Octets
  import opened TextLines

  // ---------------------------------------------------------------- schemes, authorities and userinfo

  /** c is the character w or, if w is a small letter, its capital. */
  predicate Is(c: char, w: char) {
    c == w || ('a' <= w <= 'z' && c as int == w as int - 'a' as int + 'A' as int)
  }

  /** The word stands at position p, in any case of letters. */
  predicate Matches(s: string, p: nat, word: string) {
    p + |word| <= |s| && forall i | 0 <= i < |word| :: Is(s[p + i], word[i])
  }

  /** The length of the scheme at position p, or 0. */
  function SchemeLength(s: string, p: nat): (n: nat)
    ensures n > 0 ==> 7 <= n <= 8 && p + n <= |s|
  {
    if Matches(s, p, "rtsps://") then 8 else if Matches(s, p, "rtsp://") then 7 else 0
  }

  /** The first position of a scheme in s at or after p; the length of s if there is none. */
  function FirstScheme(s: string, p: nat): (k: nat)
    requires p <= |s|
    ensures p <= k <= |s| && (k < |s| ==> SchemeLength(s, k) > 0)
    ensures forall i: nat | p <= i < k :: SchemeLength(s, i) == 0
    decreases |s| - p
  {
    if p == |s| || SchemeLength(s, p) > 0 then p else FirstScheme(s, p + 1)
  }

  predicate Delimiter(c: char) {
    c in "/?# \t\r\n\"'<>)]}"
  }

  predicate DelimiterFree(s: string) {
    forall i | 0 <= i < |s| :: !Delimiter(s[i])
  }

  /** The number of characters before the first delimiter. */
  function AuthorityLength(s: string): (n: nat)
    ensures n <= |s| && DelimiterFree(s[..n]) && (n < |s| ==> Delimiter(s[n]))
  {
    if s == "" || Delimiter(s[0]) then 0
    else
      var n := AuthorityLength(s[1..]);
      assert s[..1 + n] == [s[0]] + s[1..][..n];
      1 + n
  }

  /** The position of the last '@', or -1. */
  function LastAt(s: string): (k: int)
    ensures -1 <= k < |s| && (k >= 0 ==> s[k] == '@')
    ensures forall i | k < i < |s| :: s[i] != '@'
  {
    if s == "" then -1 else if s[|s| - 1] == '@' then |s| - 1 else LastAt(s[..|s| - 1])
  }

  // ---------------------------------------------------------------- a line as the scanner sees it

  /** The text around the first URL of a line. */
  datatype Around = Around(before: string, scheme: string, authority: string, after: string)

  function Joined(a: Around): string {
    a.before + a.scheme + (a.authority + a.after)
  }

  predicate SchemeFree(s: string) {
    FirstScheme(s, 0) == |s|
  }

  function FirstUrl(s: string): (a: Around)
    requires !SchemeFree(s)
    ensures |a.after| < |s|
  {
    var k := FirstScheme(s, 0);
    var start := k + SchemeLength(s, k);
    var tail := s[start..];
    var n := AuthorityLength(tail);
    Around(s[..k], s[k..start], tail[..n], tail[n..])
  }

  predicate StopsAt(s: string) {
    s == "" || Delimiter(s[0])
  }

  /** A URL that the scanner can find: a scheme, the first one, and an authority that goes as far as it can. */
  predicate Findable(a: Around) {
    && SchemeLength(a.scheme, 0) == |a.scheme| > 0
    && FirstScheme(a.before + a.scheme, 0) == |a.before|
    && DelimiterFree(a.authority) && StopsAt(a.after)
  }

  /** Text without a scheme, or a first URL and the line that starts behind its authority. */
  datatype Line = End(text: string) | Url(before: string, scheme: string, authority: string, rest: Line)

  function Text(l: Line): string {
    match l
    case End(text) => text
    case Url(before, scheme, authority, rest) => Joined(Around(before, scheme, authority, Text(rest)))
  }

  function Scan(s: string): Line
    decreases |s|
  {
    if SchemeFree(s) then End(s)
    else
      var a := FirstUrl(s);
      Url(a.before, a.scheme, a.authority, Scan(a.after))
  }

  /** The lines that the scanner can produce. */
  predicate Scanned(l: Line) {
    match l
    case End(text) => SchemeFree(text)
    case Url(before, scheme, authority, rest) =>
      Findable(Around(before, scheme, authority, Text(rest))) && Scanned(rest)
  }

  const REDACTED := "[REDACTED]"

  function HideUser(authority: string, user: string): string {
    if LastAt(authority) < 0 then authority else user + authority[LastAt(authority)..]
  }

  function Urls(l: Line): nat {
    match l
    case End(_) => 0
    case Url(_, _, _, rest) => 1 + Urls(rest)
  }

  /** The line with the userinfo of its URLs, wherever there is any, replaced by these texts. */
  function With(l: Line, users: seq<string>): Line
    requires |users| == Urls(l)
  {
    match l
    case End(_) => l
    case Url(before, scheme, authority, rest) =>
      Url(before, scheme, HideUser(authority, users[0]), With(rest, users[1..]))
  }

  function Redacted(l: Line): string {
    match l
    case End(text) => text
    case Url(before, scheme, authority, rest) =>
      Joined(Around(before, scheme, HideUser(authority, REDACTED), Redacted(rest)))
  }

  function Redact(s: string): string {
    Redacted(Scan(s))
  }

  // ---------------------------------------------------------------- scanning is unambiguous

  /** A scheme, and the absence of one before it, depend on nothing that follows the scheme. */
  lemma SchemeIsLocal(s: string, t: string, k: nat)
    requires k <= |s| && SchemeLength(s, k) > 0
    requires k + SchemeLength(s, k) <= |t| && forall i: nat | i < k + SchemeLength(s, k) :: s[i] == t[i]
    ensures SchemeLength(t, k) == SchemeLength(s, k)
    ensures forall i: nat | i < k && SchemeLength(s, i) == 0 :: SchemeLength(t, i) == 0
  {
    if SchemeLength(s, k) == 7 {
      assert Is(t[k + 4], "rtsp://"[4]) && !Is(t[k + 4], "rtsps://"[4]);
    }
  }

  lemma FirstSchemeIs(s: string, k: nat)
    requires k < |s| && SchemeLength(s, k) > 0 && forall i: nat | i < k :: SchemeLength(s, i) == 0
    ensures FirstScheme(s, 0) == k
  {
    hide SchemeLength;
  }

  lemma MatchMoved(s: string, k: nat, t: string, j: nat, word: string)
    requires Matches(s, k, word) && j + |word| <= |t| && s[k..k + |word|] == t[j..j + |word|]
    ensures Matches(t, j, word)
  {
    forall i | 0 <= i < |word| ensures Is(t[j + i], word[i]) {
      assert t[j..j + |word|][i] == t[j + i] && s[k..k + |word|][i] == s[k + i];
    }
  }

  lemma SchemeMoved(s: string, k: nat, t: string, j: nat)
    requires var n := SchemeLength(s, k); 0 < n && j + n <= |t| && s[k..k + n] == t[j..j + n]
    ensures SchemeLength(t, j) == SchemeLength(s, k)
  {
    if SchemeLength(s, k) == 7 {
      MatchMoved(s, k, t, j, "rtsp://");
      assert Is(t[j + 4], "rtsp://"[4]) && !Is(t[j + 4], "rtsps://"[4]);
    } else {
      MatchMoved(s, k, t, j, "rtsps://");
    }
  }

  lemma AuthorityLengthIs(authority: string, after: string)
    requires DelimiterFree(authority) && StopsAt(after)
    ensures AuthorityLength(authority + after) == |authority|
  {
    var n, s := AuthorityLength(authority + after), authority + after;
    assert forall i | 0 <= i < n :: s[..n][i] == s[i];
    assert forall i | 0 <= i < |authority| :: s[i] == authority[i];
    assert after != "" ==> s[|authority|] == after[0];
  }

  lemma FirstUrlIsFindable(s: string)
    requires !SchemeFree(s)
    ensures Joined(FirstUrl(s)) == s && Findable(FirstUrl(s))
  {
    hide SchemeLength, DelimiterFree, StopsAt, FirstScheme, FirstUrl, AuthorityLength;
    var k := FirstScheme(s, 0);
    var start := k + SchemeLength(s, k);
    var n := AuthorityLength(s[start..]);
    FirstUrlIs(s, k, start, s[start..], n);
    AuthorityThenStop(s[start..]);
    FirstSchemeStays(s);
    Pieces(s, k, start);
  }

  lemma Pieces(s: string, k: nat, start: nat)
    requires k <= start <= |s|
    ensures s[..k] + s[k..start] == s[..start] && s == s[..start] + s[start..]
    ensures forall n: nat | n <= |s| - start :: s[start..] == s[start..][..n] + s[start..][n..]
  {
  }

  lemma AuthorityThenStop(s: string)
    ensures var n := AuthorityLength(s); DelimiterFree(s[..n]) && StopsAt(s[n..])
  {
  }

  lemma FirstSchemeStays(s: string)
    requires !SchemeFree(s)
    ensures var k := FirstScheme(s, 0); var n := SchemeLength(s, k);
            FirstScheme(s[..k + n], 0) == k && SchemeLength(s[k..k + n], 0) == n > 0
  {
    hide SchemeLength, FirstScheme;
    var k := FirstScheme(s, 0);
    var n := SchemeLength(s, k);
    var scheme, head := s[k..k + n], s[..k + n];
    assert scheme[0..n] == scheme;
    SchemeMoved(s, k, scheme, 0);
    SchemeIsLocal(s, head, k);
    FirstSchemeIs(head, k);
  }

  lemma FindableIsFirst(a: Around)
    requires Findable(a)
    ensures !SchemeFree(Joined(a)) && FirstUrl(Joined(a)) == a
  {
    hide SchemeLength, DelimiterFree, StopsAt, FirstScheme, AuthorityLength;
    var t, tail := a.before + a.scheme, a.authority + a.after;
    assert t[..|a.before|] == a.before && t[|a.before|..] == a.scheme;
    FirstSchemeThere(t, tail, |a.before|);
    AuthorityLengthIs(a.authority, a.after);
    assert tail[..|a.authority|] == a.authority && tail[|a.authority|..] == a.after;
  }

  lemma FirstSchemeThere(t: string, tail: string, k: nat)
    requires k <= |t| && FirstScheme(t, 0) == k && SchemeLength(t[k..], 0) == |t| - k > 0
    ensures FirstScheme(t + tail, 0) == k && k + SchemeLength(t + tail, k) == |t|
    ensures (t + tail)[..k] == t[..k] && (t + tail)[k..|t|] == t[k..] && (t + tail)[|t|..] == tail
  {
    hide SchemeLength;
    assert t[k..][0..|t| - k] == t[k..|t|];
    SchemeMoved(t[k..], 0, t, k);
    SchemeIsLocal(t, t + tail, k);
    FirstSchemeIs(t + tail, k);
  }

  /** The scanner splits a line without changing it. */
  lemma {:induction false} ScanSplits(s: string)
    ensures Text(Scan(s)) == s && Scanned(Scan(s))
    decreases |s|
  {
    hide FirstUrl, Findable, SchemeFree, Joined;
    if !SchemeFree(s) {
      ScanSplits(FirstUrl(s).after);
      FirstUrlIsFindable(s);
    }
  }

  /** There is one way only in which a line can be split. */
  lemma {:induction false} ScannedIsScan(l: Line)
    requires Scanned(l)
    ensures Scan(Text(l)) == l
  {
    hide FirstUrl, Findable, SchemeFree, Joined;
    match l
    case End(_) =>
    case Url(before, scheme, authority, rest) =>
      ScannedIsScan(rest);
      FindableIsFirst(Around(before, scheme, authority, Text(rest)));
  }

  // ---------------------------------------------------------------- the case of letters

  predicate SameLetter(c: char, d: char) {
    || c == d
    || ('A' <= c <= 'Z' && d as int == c as int + 32)
    || ('A' <= d <= 'Z' && c as int == d as int + 32)
  }

  /** Two texts that differ at most in the case of ASCII letters. */
  predicate SameUpToCase(a: string, b: string) {
    |a| == |b| && forall i | 0 <= i < |a| :: SameLetter(a[i], b[i])
  }

  /** Two lines with the same URLs at the same places. */
  predicate SameScan(l: Line, m: Line) {
    match (l, m)
    case (End(s), End(t)) => SameUpToCase(s, t)
    case (Url(before, scheme, authority, rest), Url(before', scheme', authority', rest')) =>
      && SameUpToCase(before, before') && SameUpToCase(scheme, scheme') && SameUpToCase(authority, authority')
      && LastAt(authority) == LastAt(authority') && SameScan(rest, rest')
    case _ => false
  }

  lemma SameSchemes(a: string, b: string, p: nat)
    requires SameUpToCase(a, b)
    ensures SchemeLength(a, p) == SchemeLength(b, p)
  {
    SameMatches(a, b, p, "rtsps://");
    SameMatches(a, b, p, "rtsp://");
  }

  lemma SameMatches(a: string, b: string, p: nat, word: string)
    requires SameUpToCase(a, b) && word in {"rtsps://", "rtsp://"}
    ensures Matches(a, p, word) <==> Matches(b, p, word)
  {
    if p + |word| <= |a| {
      forall i | 0 <= i < |word| ensures Is(a[p + i], word[i]) <==> Is(b[p + i], word[i]) {
        assert SameLetter(a[p + i], b[p + i]);
        assert !('A' <= word[i] <= 'Z');
      }
    }
  }

  lemma SameFirstScheme(a: string, b: string)
    requires SameUpToCase(a, b)
    ensures FirstScheme(a, 0) == FirstScheme(b, 0)
  {
    hide SchemeLength, SameUpToCase;
    assert |a| == |b| by { SameSizes(a, b); }
    forall p: nat ensures SchemeLength(a, p) == SchemeLength(b, p) {
      SameSchemes(a, b, p);
    }
    var k := FirstScheme(b, 0);
    if k < |b| {
      FirstSchemeIs(a, k);
    }
  }

  lemma SameSizes(a: string, b: string)
    requires SameUpToCase(a, b)
    ensures |a| == |b|
  {
  }

  lemma SameParts(a: string, b: string, i: nat, j: nat)
    requires SameUpToCase(a, b) && i <= j <= |a|
    ensures SameUpToCase(a[i..j], b[i..j])
  {
    hide SameLetter;
    assert forall k | 0 <= k < j - i :: a[i..j][k] == a[i + k] && b[i..j][k] == b[i + k];
  }

  lemma SameJoined(a: string, b: string, c: string, d: string)
    requires SameUpToCase(a, b) && SameUpToCase(c, d)
    ensures SameUpToCase(a + c, b + d)
  {
    hide SameLetter;
  }

  lemma SameAuthority(a: string, b: string)
    requires SameUpToCase(a, b)
    ensures AuthorityLength(a) == AuthorityLength(b)
  {
    var n := AuthorityLength(a);
    forall i | 0 <= i < |a| ensures Delimiter(a[i]) <==> Delimiter(b[i]) {
      assert SameLetter(a[i], b[i]);
    }
    assert forall i | 0 <= i < n :: a[..n][i] == a[i] && b[..n][i] == b[i];
    AuthorityLengthIs(b[..n], b[n..]);
    assert b == b[..n] + b[n..];
  }

  lemma SameLastAt(a: string, b: string)
    requires SameUpToCase(a, b)
    ensures LastAt(a) == LastAt(b)
    ensures SameUpToCase(HideUser(a, REDACTED), HideUser(b, REDACTED))
  {
    var k := LastAt(a);
    forall i | 0 <= i < |a| ensures a[i] == '@' <==> b[i] == '@' {
      assert SameLetter(a[i], b[i]);
    }
    LastAtIs(b, k);
    if k >= 0 {
      SameParts(a, b, k, |a|);
      SameJoined(REDACTED, REDACTED, a[k..], b[k..]);
    }
  }

  lemma SameSplit(s: string, t: string)
    requires SameUpToCase(s, t)
    ensures var n := AuthorityLength(s);
            n == AuthorityLength(t) && SameUpToCase(s[..n], t[..n]) && SameUpToCase(s[n..], t[n..])
  {
    hide AuthorityLength, SameUpToCase;
    var n := AuthorityLength(s);
    SameAuthority(s, t);
    SameSizes(s, t);
    SameParts(s, t, 0, n);
    SameParts(s, t, n, |s|);
    assert s[0..n] == s[..n] && t[0..n] == t[..n] && s[n..|s|] == s[n..] && t[n..|t|] == t[n..];
  }

  lemma SameHead(a: string, b: string)
    requires SameUpToCase(a, b) && !SchemeFree(a)
    ensures !SchemeFree(b)
    ensures var k := FirstScheme(a, 0); var start := k + SchemeLength(a, k);
            && FirstScheme(b, 0) == k && SchemeLength(b, k) == SchemeLength(a, k) && start <= |a| == |b|
            && SameUpToCase(a[..k], b[..k]) && SameUpToCase(a[k..start], b[k..start])
            && SameUpToCase(a[start..], b[start..])
  {
    hide FirstScheme, SchemeLength, SameUpToCase;
    SameFirstScheme(a, b);
    SameSizes(a, b);
    var k := FirstScheme(a, 0);
    SameSchemes(a, b, k);
    var start := k + SchemeLength(a, k);
    SameParts(a, b, 0, k);
    SameParts(a, b, k, start);
    SameParts(a, b, start, |a|);
    assert a[start..|a|] == a[start..] && b[start..|b|] == b[start..] && a[0..k] == a[..k] && b[0..k] == b[..k];
  }

  lemma SameFirstUrl(a: string, b: string)
    requires SameUpToCase(a, b) && !SchemeFree(a)
    ensures !SchemeFree(b)
    ensures var x, y := FirstUrl(a), FirstUrl(b);
            && SameUpToCase(x.before, y.before) && SameUpToCase(x.scheme, y.scheme)
            && SameUpToCase(x.authority, y.authority) && SameUpToCase(x.after, y.after)
  {
    hide FirstScheme, SchemeLength, FirstUrl, AuthorityLength, SameUpToCase;
    SameHead(a, b);
    var k := FirstScheme(a, 0);
    var start := k + SchemeLength(a, k);
    SameSplit(a[start..], b[start..]);
    FirstUrlIs(a, k, start, a[start..], AuthorityLength(a[start..]));
    FirstUrlIs(b, k, start, b[start..], AuthorityLength(b[start..]));
  }

  lemma SameSchemeFree(a: string, b: string)
    requires SameUpToCase(a, b) && SchemeFree(a)
    ensures SchemeFree(b)
  {
    hide FirstScheme, SameUpToCase;
    SameFirstScheme(a, b);
    SameSizes(a, b);
  }

  /** The case of letters does not matter: the same userinfo is found and hidden in both lines. */
  lemma {:induction false} CaseIsIrrelevant(a: string, b: string)
    requires SameUpToCase(a, b)
    ensures SameScan(Scan(a), Scan(b)) && SameUpToCase(Redact(a), Redact(b))
    decreases |a|
  {
    hide FirstUrl, SchemeFree, SameUpToCase, HideUser, LastAt;
    if SchemeFree(a) {
      SameSchemeFree(a, b);
    } else {
      SameFirstUrl(a, b);
      var x, y := FirstUrl(a), FirstUrl(b);
      SameLastAt(x.authority, y.authority);
      CaseIsIrrelevant(x.after, y.after);
      SameJoined(x.before, y.before, x.scheme, y.scheme);
      var hidden, hidden' := HideUser(x.authority, REDACTED), HideUser(y.authority, REDACTED);
      SameJoined(hidden, hidden', Redact(x.after), Redact(y.after));
      SameJoined(x.before + x.scheme, y.before + y.scheme, hidden + Redact(x.after), hidden' + Redact(y.after));
    }
  }

  // ---------------------------------------------------------------- redactCompleteLine

  /** Whether a scheme begins somewhere depends on nothing that precedes it. */
  lemma SchemeShift(before: string, s: string, p: nat)
    ensures SchemeLength(before + s, |before| + p) == SchemeLength(s, p)
  {
    MatchShift(before, s, p, "rtsps://");
    MatchShift(before, s, p, "rtsp://");
  }

  lemma MatchShift(before: string, s: string, p: nat, word: string)
    ensures Matches(before + s, |before| + p, word) <==> Matches(s, p, word)
  {
    var t := before + s;
    assert forall j | |before| <= j < |t| :: t[j] == s[j - |before|];
  }

  // std::tolower
  function Lower(c: char): char {
    if 'A' <= c <= 'Z' then c + 32 as char else c
  }

  lemma LowerIs(c: char, w: char)
    requires !('A' <= w <= 'Z')
    ensures Lower(c) == w <==> Is(c, w)
  {
  }

  method MatchesScheme(value: string, pos: nat, scheme: string) returns (matches: bool)
    requires forall i | 0 <= i < |scheme| :: !('A' <= scheme[i] <= 'Z')
    ensures matches <==> Matches(value, pos, scheme)
  {
    hide Is;
    if pos + |scheme| > |value| {
      return false;
    }
    for i := 0 to |scheme|
      invariant forall j | 0 <= j < i :: Is(value[pos + j], scheme[j])
    {
      LowerIs(value[pos + i], scheme[i]);
      if Lower(value[pos + i]) != scheme[i] {
        return false;
      }
    }
    return true;
  }

  method StartsWithRtspScheme(value: string, pos: nat) returns (starts: bool)
    ensures starts <==> SchemeLength(value, pos) > 0
  {
    starts := MatchesScheme(value, pos, "rtsps://");
    if !starts {
      starts := MatchesScheme(value, pos, "rtsp://");
    }
  }

  method FindScheme(line: string, cursor: nat) returns (schemePos: Option<nat>)
    requires cursor < |line|
    ensures match schemePos
            case None => SchemeFree(line[cursor..])
            case Some(k) => cursor <= k && !SchemeFree(line[cursor..]) && k - cursor == FirstScheme(line[cursor..], 0)
    ensures schemePos.Some? ==>
              SchemeLength(line, schemePos.value) == SchemeLength(line[cursor..], schemePos.value - cursor) > 0
  {
    hide SchemeLength;
    ghost var s := line[cursor..];
    forall p: nat ensures SchemeLength(line, cursor + p) == SchemeLength(s, p) {
      assert line == line[..cursor] + s;
      SchemeShift(line[..cursor], s, p);
    }
    var i := cursor;
    while i + 7 <= |line|
      invariant cursor <= i
      invariant forall p: nat | p < i - cursor :: SchemeLength(s, p) == 0
    {
      assert SchemeLength(s, i - cursor) == SchemeLength(line, cursor + (i - cursor));
      var starts := StartsWithRtspScheme(line, i);
      if starts {
        FirstSchemeIs(s, i - cursor);
        return Some(i);
      }
      i := i + 1;
    }
    TooLate(s, i - cursor);
    return None;
  }

  lemma TooLate(s: string, i: nat)
    requires i + 7 > |s| && forall p: nat | p < i :: SchemeLength(s, p) == 0
    ensures SchemeFree(s)
  {
  }

  /** std::string::rfind of '@' from a position that may be the end. */
  method FindLastAt(line: string, from: nat) returns (at: int)
    requires from <= |line|
    ensures -1 <= at <= from && (at >= 0 ==> at < |line| && line[at] == '@')
    ensures forall i | at < i < |line| && i <= from :: line[i] != '@'
  {
    at := if from < |line| then from else |line| - 1;
    while at >= 0 && line[at] != '@'
      invariant -1 <= at <= from && at < |line|
      invariant forall i | at < i < |line| && i <= from :: line[i] != '@'
    {
      at := at - 1;
    }
  }

  method FindDelimiter(line: string, from: nat) returns (k: nat)
    requires from <= |line|
    ensures from <= k <= |line| && k - from == AuthorityLength(line[from..])
  {
    k := from;
    while k < |line| && !Delimiter(line[k])
      invariant from <= k <= |line| && DelimiterFree(line[from..k])
    {
      assert line[from..k + 1] == line[from..k] + [line[k]];
      k := k + 1;
    }
    AuthorityLengthIs(line[from..k], line[k..]);
    assert line[from..] == line[from..k] + line[k..];
  }

  lemma LastAtIs(s: string, k: int)
    requires -1 <= k < |s| && (k >= 0 ==> s[k] == '@') && forall i | k < i < |s| :: s[i] != '@'
    ensures LastAt(s) == k
  {
  }

  /** The line with the userinfo of every URL that its scan finds replaced, and nothing else changed. */
  method RedactCompleteLine(line: string) returns (output: string)
    ensures output == Redact(line)
  {
    hide Redact, SchemeLength, SchemeFree, FirstScheme, AuthorityLength, HideUser;
    output := "";
    var cursor := 0;
    assert line[0..] == line;
    while cursor < |line|
      invariant cursor <= |line|
      invariant Redact(line) == output + Redact(line[cursor..])
      decreases |line| - cursor
    {
      var schemePos := FindScheme(line, cursor);
      if schemePos.None? {
        RedactNothing(line[cursor..]);
        output := output + line[cursor..];
        return;
      }
      var k := schemePos.value;
      var isRtsps := k + 8 <= |line| && Lower(line[k + 4]) == 's';
      if isRtsps {
        isRtsps := StartsWithRtspScheme(line, k);
      }
      var authorityStart := k + if isRtsps then 8 else 7;
      WhichScheme(line, k);
      var authorityEnd := FindDelimiter(line, authorityStart);
      var text := RedactAuthority(line, authorityStart, authorityEnd);
      NextUrl(line, cursor, k, authorityStart, authorityEnd);
      Append(output, line[cursor..k], line[k..authorityStart], text, Redact(line[authorityEnd..]));
      output := output + line[cursor..k] + line[k..authorityStart] + text;
      cursor := authorityEnd;
    }
    EmptySchemeFree();
    RedactNothing(line[cursor..]);
  }

  lemma EmptySchemeFree()
    ensures SchemeFree("")
  {
  }

  lemma RedactNothing(s: string)
    requires SchemeFree(s)
    ensures Redact(s) == s
  {
  }

  lemma Append(a: string, b: string, c: string, d: string, e: string)
    ensures a + (b + c + (d + e)) == a + b + c + d + e
  {
  }

  method RedactAuthority(line: string, authorityStart: nat, authorityEnd: nat) returns (text: string)
    requires authorityStart <= authorityEnd <= |line|
    requires authorityEnd < |line| ==> Delimiter(line[authorityEnd])
    ensures text == HideUser(line[authorityStart..authorityEnd], REDACTED)
  {
    var at := FindLastAt(line, authorityEnd);
    LastAtInside(line, authorityStart, authorityEnd, at);
    if authorityStart <= at < authorityEnd {
      text := "[REDACTED]@" + line[at + 1..authorityEnd];
      assert line[authorityStart..authorityEnd][at - authorityStart..] == [line[at]] + line[at + 1..authorityEnd];
    } else {
      text := line[authorityStart..authorityEnd];
    }
  }

  lemma LastAtInside(line: string, start: nat, end: nat, at: int)
    requires start <= end <= |line| && (end < |line| ==> Delimiter(line[end]))
    requires -1 <= at <= end && (at >= 0 ==> at < |line| && line[at] == '@')
    requires forall i | at < i < |line| && i <= end :: line[i] != '@'
    ensures LastAt(line[start..end]) == (if at >= start then at - start else -1)
    ensures at != end || end == |line|
  {
    hide LastAt;
    var authority := line[start..end];
    assert forall i | 0 <= i < end - start :: authority[i] == line[start + i];
    assert at == end ==> end == |line|;
    LastAtIs(authority, if at >= start then at - start else -1);
  }

  lemma WhichScheme(line: string, k: nat)
    requires SchemeLength(line, k) > 0
    ensures SchemeLength(line, k) == if k + 8 <= |line| && Lower(line[k + 4]) == 's' then 8 else 7
  {
    assert "rtsps://"[4] == 's' && "rtsp://"[4] == ':';
    assert k + 4 < |line|;
    LowerIs(line[k + 4], 's');
  }

  lemma NextUrl(line: string, cursor: nat, k: nat, start: nat, end: nat)
    requires cursor < |line| && !SchemeFree(line[cursor..]) && k == cursor + FirstScheme(line[cursor..], 0)
    requires start == k + SchemeLength(line[cursor..], k - cursor) <= |line|
    requires end == start + AuthorityLength(line[start..])
    ensures Redact(line[cursor..]) == line[cursor..k] + line[k..start] +
              (HideUser(line[start..end], REDACTED) + Redact(line[end..]))
  {
    hide SchemeLength, SchemeFree, FirstScheme, FirstUrl, AuthorityLength, HideUser, Redact;
    var s := line[cursor..];
    RedactFirst(s);
    SliceOfTail(line, cursor, cursor, k);
    SliceOfTail(line, cursor, k, start);
    FirstUrlIs(s, k - cursor, start - cursor, line[start..], end - start);
    SliceOfTail(line, start, start, end);
  }

  lemma FirstUrlIs(s: string, k: nat, start: nat, tail: string, n: nat)
    requires !SchemeFree(s) && k == FirstScheme(s, 0) && start == k + SchemeLength(s, k) && tail == s[start..] &&
              n == AuthorityLength(tail)
    ensures FirstUrl(s) == Around(s[..k], s[k..start], tail[..n], tail[n..])
  {
    hide SchemeLength, SchemeFree, FirstScheme, AuthorityLength;
  }

  lemma SliceOfTail(line: string, from: nat, i: nat, j: nat)
    requires from <= i <= j <= |line|
    ensures line[from..][i - from..j - from] == line[i..j]
    ensures line[from..][j - from..] == line[j..]
  {
  }

  lemma RedactFirst(s: string)
    requires !SchemeFree(s)
    ensures var a := FirstUrl(s); Redact(s) == a.before + a.scheme + (HideUser(a.authority, REDACTED) + Redact(a.after))
  {
    hide SchemeFree, FirstUrl, HideUser;
  }

  // ---------------------------------------------------------------- what redaction hides, and what it keeps

  ghost predicate AllDelimiterFree(users: seq<string>) {
    forall i | 0 <= i < |users| :: DelimiterFree(users[i])
  }

  function Users(l: Line): seq<string> {
    match l
    case End(_) => []
    case Url(_, _, authority, rest) =>
      [if LastAt(authority) < 0 then "" else authority[..LastAt(authority)]] + Users(rest)
  }

  function Repeated(n: nat): seq<string> {
    seq(n, i => REDACTED)
  }

  lemma HideUserAgain(authority: string, user: string)
    ensures HideUser(HideUser(authority, user), REDACTED) == HideUser(authority, REDACTED)
    ensures DelimiterFree(authority) && DelimiterFree(user) ==> DelimiterFree(HideUser(authority, user))
  {
    var k := LastAt(authority);
    if k >= 0 {
      var hidden := HideUser(authority, user);
      assert hidden[|user|..] == authority[k..];
      assert forall i | |user| <= i < |hidden| :: hidden[i] == authority[k + (i - |user|)];
      LastAtIs(hidden, |user|);
    }
  }

  lemma {:induction false} WithIsScanned(l: Line, users: seq<string>)
    requires Scanned(l) && |users| == Urls(l) && AllDelimiterFree(users)
    ensures Scanned(With(l, users)) && Redacted(With(l, users)) == Redacted(l)
    ensures StopsAt(Text(With(l, users))) <==> StopsAt(Text(l))
  {
    hide SchemeFree, DelimiterFree, HideUser, FirstScheme, SchemeLength, Delimiter;
    match l
    case End(_) =>
    case Url(before, scheme, authority, rest) =>
      WithIsScanned(rest, users[1..]);
      HideUserAgain(authority, users[0]);
      SameStart(before, scheme, authority + Text(rest), HideUser(authority, users[0]) + Text(With(rest, users[1..])));
  }

  lemma SameStart(before: string, scheme: string, after: string, after': string)
    requires scheme != ""
    ensures StopsAt(before + scheme + after) <==> StopsAt(before + scheme + after')
  {
  }

  /** Lines that differ only in the userinfo of the URLs found by the scan are redacted to the same text. */
  lemma RedactionHidesUserinfo(line: string, users: seq<string>)
    requires |users| == Urls(Scan(line)) && AllDelimiterFree(users)
    ensures Redact(Text(With(Scan(line), users))) == Redact(line)
  {
    ScanSplits(line);
    WithIsScanned(Scan(line), users);
    ScannedIsScan(With(Scan(line), users));
  }

  lemma {:induction false} OnlyUsersDiffer(l: Line)
    ensures |Users(l)| == Urls(l) && With(l, Users(l)) == l
    ensures Text(With(l, Repeated(Urls(l)))) == Redacted(l)
  {
    hide Joined;
    match l
    case End(_) =>
    case Url(before, scheme, authority, rest) =>
      OnlyUsersDiffer(rest);
      assert Users(l)[1..] == Users(rest);
      assert Repeated(Urls(l))[1..] == Repeated(Urls(rest));
      OneUserDiffers(authority);
  }

  lemma OneUserDiffers(authority: string)
    ensures HideUser(authority, if LastAt(authority) < 0 then "" else authority[..LastAt(authority)]) == authority
  {
  }

  /** The output is the line itself but for the userinfo: put the original texts back and the line is restored. */
  lemma EverythingElseIsKept(line: string)
    ensures var l := Scan(line);
            && Redact(line) == Text(With(l, Repeated(Urls(l))))
            && |Users(l)| == Urls(l) && Text(With(l, Users(l))) == line
  {
    ScanSplits(line);
    OnlyUsersDiffer(Scan(line));
  }

  // ---------------------------------------------------------------- the log, line by line

  const MAX_LINE: nat := 8192
  const NOTICE := "[diagnostic line omitted: exceeds limit]\n"

  function SanitizeChar(c: char): char {
    if c in "\n\r\t" || ' ' <= c <= '~' then c else '?'
  }

  function Sanitized(s: string): string {
    seq(|s|, i requires 0 <= i < |s| => SanitizeChar(s[i]))
  }

  method Sanitize(input: string) returns (output: string)
    ensures output == Sanitized(input)
  {
    output := "";
    for i := 0 to |input|
      invariant output == Sanitized(input)[..i]
    {
      var c := input[i];
      output := output + [if c == '\n' || c == '\r' || c == '\t' || (' ' <= c <= '~') then c else '?'];
    }
  }

  /** What the log shows of one complete line, given without its newline. */
  function Shown(line: string): string {
    if |line| <= MAX_LINE then Sanitized(Redact(line + "\n")) else NOTICE
  }

  /** Printable ASCII and the white space that is let through. */
  predicate Harmless(c: char) {
    c == '\t' || c == '\n' || c == '\r' || ' ' <= c <= '~'
  }

  /** Sanitising leaves harmless characters only, and leaves those as they are. */
  lemma SanitizedIsHarmless(s: string)
    ensures |Sanitized(s)| == |s|
    ensures forall i | 0 <= i < |s| :: Harmless(Sanitized(s)[i])
    ensures forall i | 0 <= i < |s| :: if Harmless(s[i]) then Sanitized(s)[i] == s[i] else Sanitized(s)[i] == '?'
  {
  }

  /** What the log shows of a text, complete line by complete line. */
  function Log(s: string): string
    decreases |s|
  {
    var n := LineLength(s);
    if n == |s| then "" else Shown(s[..n]) + Log(s[n + 1..])
  }

  /** The text behind the last newline. */
  function Unfinished(s: string): string
    decreases |s|
  {
    var n := LineLength(s);
    if n == |s| then s else Unfinished(s[n + 1..])
  }

  lemma LogOfLine(line: string, rest: string)
    requires OneLine(line)
    ensures Log(line + ("\n" + rest)) == Shown(line) + Log(rest)
    ensures Unfinished(line + ("\n" + rest)) == Unfinished(rest)
    ensures Log(line) == "" && Unfinished(line) == line
  {
    hide Shown, LineLength;
    LineLengthIs(line, rest);
    var s := line + ("\n" + rest);
    assert s[..|line|] == line && s[|line| + 1..] == rest;
  }

  /** A log is continued from nothing but the unfinished line. */
  lemma {:induction false} LogContinues(s: string, t: string)
    ensures OneLine(Unfinished(s))
    ensures Log(s + t) == Log(s) + Log(Unfinished(s) + t)
    ensures Unfinished(s + t) == Unfinished(Unfinished(s) + t)
    decreases |s|
  {
    hide *;
    SplitLine(s);
    var n := LineLength(s);
    var line := s[..n];
    if n == |s| {
      assert line == s;
      LogOfLine(line, "");
      assert "" + Log(s + t) == Log(s + t);
    } else {
      var rest := s[n + 1..];
      LogOfLine(line, rest);
      LogOfLine(line, rest + t);
      assert s + t == line + ("\n" + (rest + t));
      LogContinues(rest, t);
      assert Shown(line) + (Log(rest) + Log(Unfinished(rest) + t)) ==
          Shown(line) + Log(rest) + Log(Unfinished(rest) + t);
    }
  }

  class DiagnosticLineRedactor {
    var pending: string
    var discarding: bool
    ghost var unfinished: string    // all that has arrived of the current line

    ghost predicate Valid()
      reads this
    {
      && OneLine(unfinished)
      && discarding == (|unfinished| > MAX_LINE)
      && pending == (if discarding then "" else unfinished)
    }

    constructor ()
      ensures Valid() && unfinished == ""
    {
      pending, discarding, unfinished := "", false, "";
    }

    /**
     What is shown is the log of the lines that this chunk completes. Between characters never more than
     the line limit is pending.
     */
    method Consume(chunk: string) returns (output: string)
      requires Valid()
      modifies this
      ensures Valid() && |pending| <= MAX_LINE
      ensures output == Log(old(unfinished) + chunk)
      ensures unfinished == Unfinished(old(unfinished) + chunk)
    {
      hide Log, Unfinished, Shown;
      output := "";
      ghost var before := unfinished;
      LogOfLine(before, "");
      assert before + chunk[..0] == before;
      for i := 0 to |chunk|
        invariant Valid() && |pending| <= MAX_LINE
        invariant output == Log(before + chunk[..i])
        invariant unfinished == Unfinished(before + chunk[..i])
      {
        assert before + chunk[..i + 1] == before + chunk[..i] + [chunk[i]];
        LogContinues(before + chunk[..i], [chunk[i]]);
        var shown := ConsumeChar(chunk[i]);
        output := output + shown;
      }
      assert chunk[..|chunk|] == chunk;
    }

    method ConsumeChar(c: char) returns (output: string)
      requires Valid()
      modifies this
      ensures Valid() && |pending| <= MAX_LINE
      ensures output == Log(old(unfinished) + [c])
      ensures unfinished == Unfinished(old(unfinished) + [c])
    {
      OneMoreChar(unfinished, c);
      hide Log, Unfinished;
      ghost var line := unfinished;
      unfinished := Unfinished(unfinished + [c]);
      if discarding {
        if c == '\n' {
          discarding := false;
          return NOTICE;
        }
        return "";
      }
      pending := pending + [c];
      if c == '\n' {
        var redacted := RedactCompleteLine(pending);
        output := Sanitize(redacted);
        pending := "";
      } else {
        if |pending| > MAX_LINE {
          pending := "";
          discarding := true;
        }
        output := "";
      }
    }

    /** Nothing of an unfinished line is ever shown. */
    method Finish()
      requires Valid()
      modifies this
      ensures Valid() && unfinished == ""
    {
      pending, discarding, unfinished := "", false, "";
    }
  }

  lemma OneMoreChar(line: string, c: char)
    requires OneLine(line)
    ensures Log(line + [c]) == (if c == '\n' then Shown(line) else "")
    ensures Unfinished(line + [c]) == (if c == '\n' then "" else line + [c])
  {
    hide Shown;
    if c == '\n' {
      assert line + [c] == line + ("\n" + "");
      LogOfLine(line, "");
      LogOfLine("", "");
      assert Shown(line) + "" == Shown(line);
    } else {
      LogOfLine(line + [c], "");
    }
  }

  function Concat(chunks: seq<string>): string {
    if chunks == [] then "" else Concat(chunks[..|chunks| - 1]) + chunks[|chunks| - 1]
  }

  /** What consecutive calls of Consume show, and the line that they leave unfinished. */
  function Consumed(chunks: seq<string>): (string, string) {
    if chunks == [] then ("", "")
    else
      var (output, unfinished) := Consumed(chunks[..|chunks| - 1]);
      var text := unfinished + chunks[|chunks| - 1];
      (output + Log(text), Unfinished(text))
  }

  /** However a text is cut into chunks, the same is shown. */
  lemma {:induction false} ChunksAreIrrelevant(chunks: seq<string>)
    ensures Consumed(chunks) == (Log(Concat(chunks)), Unfinished(Concat(chunks)))
  {
    hide Log, Unfinished;
    if chunks == [] {
      LogOfLine("", "");
    } else {
      ChunksAreIrrelevant(chunks[..|chunks| - 1]);
      LogContinues(Concat(chunks[..|chunks| - 1]), chunks[|chunks| - 1]);
    }
  }

  predicate AllHarmless(s: string) {
    forall i | 0 <= i < |s| :: Harmless(s[i])
  }

  lemma ShownIsHarmless(line: string)
    ensures AllHarmless(Shown(line))
  {
    hide Harmless, Redact, Sanitized;
    SanitizedIsHarmless(Redact(line + "\n"));
    NoticeIsHarmless();
  }

  lemma {:induction false} LogOfTextIsHarmless(s: string)
    ensures AllHarmless(Log(s))
    decreases |s|
  {
    hide LineLength, Shown, Harmless;
    var n := LineLength(s);
    if n < |s| {
      ShownIsHarmless(s[..n]);
      LogOfTextIsHarmless(s[n + 1..]);
    }
  }

  lemma NoticeIsHarmless()
    ensures AllHarmless(NOTICE)
  {
  }

  /** Nothing but printable ASCII and plain white space reaches the log, whatever octets arrive and in what chunks. */
  lemma LogIsHarmless(chunks: seq<string>)
    ensures AllHarmless(Consumed(chunks).0)
  {
    ChunksAreIrrelevant(chunks);
    LogOfTextIsHarmless(Concat(chunks));
  }

  function ShownLines(lines: seq<string>): string {
    if lines == [] then "" else Shown(lines[0]) + ShownLines(lines[1..])
  }

  lemma {:induction false} LogOfLines(lines: seq<string>, tail: string)
    requires (forall i | 0 <= i < |lines| :: OneLine(lines[i])) && OneLine(tail)
    ensures Log(Lines(lines) + tail) == ShownLines(lines) && Unfinished(Lines(lines) + tail) == tail
  {
    hide Log, Unfinished, OneLine;
    if lines == [] {
      assert Lines(lines) + tail == tail;
      LogOfLine(tail, "");
    } else {
      LogOfLines(lines[1..], tail);
      LogOfLine(lines[0], Lines(lines[1..]) + tail);
      assert Lines(lines) + tail == lines[0] + ("\n" + (Lines(lines[1..]) + tail));
    }
  }

  /**
   For every cut of a text into chunks: each complete line is shown once, in order, redacted and sanitised
   or as the notice, and nothing of the unfinished tail.
   */
  lemma RedactorShowsLines(lines: seq<string>, tail: string, chunks: seq<string>)
    requires (forall i | 0 <= i < |lines| :: OneLine(lines[i])) && OneLine(tail)
    requires Concat(chunks) == Lines(lines) + tail
    ensures Consumed(chunks) == (ShownLines(lines), tail)
  {
    ChunksAreIrrelevant(chunks);
    LogOfLines(lines, tail);
  }
}
