/**
 What the redaction of a line shows and what it hides, with userinfo defined by the syntax of URLs (RFC 3986)
 and not by what the scanner takes for one.
 */
module Userinfo {
  import opened Octets
  import opened Redaction
  import opened TextLines

  // ---------------------------------------------------------------- userinfo, independently of the scanner

  /**
   What ends the authority of a URL: the next component (section 3.2 of RFC 3986), or the white space, double
   quote or angle bracket that sets the URL off in text (its appendix C).
   */
  predicate EndsAuthority(c: char) {
    c in "/?# \t\r\n\"<>"
  }

  /** The characters before the first one that ends the authority. */
  function Authority(s: string): string {
    if s == "" || EndsAuthority(s[0]) then "" else [s[0]] + Authority(s[1..])
  }

  /** The userinfo of an authority: what precedes its last '@'. */
  function UserinfoOf(authority: string): Option<string> {
    if LastAt(authority) < 0 then None else Some(authority[..LastAt(authority)])
  }

  /** The userinfo of the URL whose scheme begins at position p. */
  function UserinfoAt(s: string, p: nat): Option<string> {
    if SchemeLength(s, p) == 0 then None else UserinfoOf(Authority(s[p + SchemeLength(s, p)..]))
  }

  predicate Placeholder(user: Option<string>) {
    user.Some? ==> user.value == REDACTED
  }

  /** No URL, wherever it begins, shows other userinfo than the placeholder. */
  ghost predicate NothingShown(s: string) {
    forall p: nat :: Placeholder(UserinfoAt(s, p))
  }

  /** A scheme at q with no delimiter of the scanner between it and position p. */
  predicate Chained(s: string, q: nat, p: nat) {
    SchemeLength(s, q) > 0 && q + SchemeLength(s, q) <= p <= |s| && DelimiterFree(s[q + SchemeLength(s, q)..p])
  }

  /** A URL nested in the authority of another one that is not itself nested so: every second URL of a chain. */
  predicate Nested(s: string, p: nat) {
    exists q: nat | q < p :: Chained(s, q, p) && !Nested(s, q)
  }

  /** Userinfo that the scanner does hide: its URL is not nested, and it holds none of the scanner's delimiters. */
  predicate CanBeHidden(s: string, p: nat) {
    Placeholder(UserinfoAt(s, p)) || (!Nested(s, p) && DelimiterFree(UserinfoAt(s, p).value))
  }

  lemma {:induction false} AuthorityIs(authority: string, after: string)
    requires forall i | 0 <= i < |authority| :: !EndsAuthority(authority[i])
    ensures Authority(authority + after) == authority + Authority(after)
  {
    if authority == "" {
      assert authority + after == after;
    } else {
      AuthorityIs(authority[1..], after);
      assert (authority + after)[1..] == authority[1..] + after;
      assert authority == [authority[0]] + authority[1..];
      hide EndsAuthority;
    }
  }

  /** Nothing behind a character that ends the authority matters. */
  lemma {:induction false} AuthorityIsLocal(s: string, x: string, y: string)
    requires exists i | 0 <= i < |s| :: EndsAuthority(s[i])
    ensures Authority(s + x) == Authority(s + y)
  {
    if !EndsAuthority(s[0]) {
      assert exists i | 0 <= i < |s[1..]| :: EndsAuthority(s[1..][i]) by {
        var i :| 0 <= i < |s| && EndsAuthority(s[i]);
        assert s[1..][i - 1] == s[i];
      }
      AuthorityIsLocal(s[1..], x, y);
      assert (s + x)[1..] == s[1..] + x && (s + y)[1..] == s[1..] + y;
    }
  }

  lemma {:induction false} AuthorityPrefix(s: string)
    ensures Authority(s) <= s && forall i | 0 <= i < |Authority(s)| :: !EndsAuthority(Authority(s)[i])
  {
    if s != "" && !EndsAuthority(s[0]) {
      AuthorityPrefix(s[1..]);
    }
  }

  lemma DelimitersEndAuthorities(c: char)
    ensures EndsAuthority(c) ==> Delimiter(c)
  {
  }

  // ---------------------------------------------------------------- where a line has schemes

  /** The scan finds a scheme at position p. */
  predicate Finds(l: Line, p: int): (found: bool)
    ensures found ==> p >= 0
  {
    match l
    case End(_) => false
    case Url(before, scheme, authority, rest) =>
      p == |before| || Finds(rest, p - (|before| + |scheme| + |authority|))
  }

  /** Where a scheme begins that ends with the authority and two slashes behind it; -1 if none does. */
  function SchemeStart(authority: string, after: string): int {
    var n := |authority|;
    if !(|after| >= 2 && after[0] == '/' && after[1] == '/') then -1
    else if n >= 6 && Matches(authority, n - 6, "rtsps:") then n - 6
    else if n >= 5 && Matches(authority, n - 5, "rtsp:") then n - 5
    else -1
  }

  /** No scheme begins behind the first character of a scheme. */
  lemma NoSchemeInScheme(s: string, k: nat, p: nat)
    requires SchemeLength(s, k) > 0 && k < p < k + SchemeLength(s, k)
    ensures SchemeLength(s, p) == 0
  {
    assert !Is(s[p], 'r') by {
      var word := if SchemeLength(s, k) == 8 then "rtsps://" else "rtsp://";
      assert Is(s[k + (p - k)], word[p - k]) && word[p - k] != 'r';
    }
    NoSchemeWithoutR(s, p);
  }

  lemma NoSchemeWithoutR(s: string, p: nat)
    requires p < |s| && !Is(s[p], 'r')
    ensures SchemeLength(s, p) == 0
  {
    assert s[p + 0] == s[p] && "rtsps://"[0] == "rtsp://"[0] == 'r';
  }

  predicate EndsLike(authority: string, after: string, p: nat, base: string) {
    |after| >= 2 && after[0] == '/' && after[1] == '/' && p + |base| == |authority| && Matches(authority, p, base)
  }

  lemma WordBehind(authority: string, after: string, p: nat, base: string)
    requires EndsLike(authority, after, p, base)
    ensures Matches(authority + after, p, base + "//")
  {
    var s, word, m := authority + after, base + "//", |base|;
    forall i | 0 <= i < m + 2 ensures Is(s[p + i], word[i]) {
      if i < m {
        assert s[p + i] == authority[p + i];
      } else {
        assert s[p + i] == after[i - m];
      }
    }
  }

  lemma WordEndsAuthority(authority: string, after: string, p: nat, base: string)
    requires DelimiterFree(authority) && StopsAt(after) && p < |authority|
    requires DelimiterFree(base) && base != "" && Matches(authority + after, p, base + "//")
    ensures EndsLike(authority, after, p, base)
  {
    var s, word, n, m := authority + after, base + "//", |authority|, |base|;
    assert word[m] == '/' && word[m + 1] == '/';
    assert forall i | 0 <= i < m :: word[i] == base[i];
    assert forall i | 0 <= i < n :: s[i] == authority[i];
    assert Is(s[p + m], '/') && Is(s[p + (m + 1)], '/');
    assert p + m >= n;
    assert s[n] == after[0] && Is(s[p + (n - p)], word[n - p]);
    assert p + m == n;
    assert after[1] == s[p + (m + 1)];
    forall i | 0 <= i < m ensures Is(authority[p + i], base[i]) {
      assert Is(s[p + i], word[i]);
    }
  }

  lemma WordInAuthority(authority: string, after: string, p: nat, base: string)
    requires DelimiterFree(authority) && StopsAt(after) && p < |authority| && DelimiterFree(base) && base != ""
    ensures Matches(authority + after, p, base + "//") <==> EndsLike(authority, after, p, base)
  {
    if Matches(authority + after, p, base + "//") {
      WordEndsAuthority(authority, after, p, base);
    }
    if EndsLike(authority, after, p, base) {
      WordBehind(authority, after, p, base);
    }
  }

  /** A scheme that begins inside an authority ends with the two characters behind it. */
  lemma SchemeInAuthority(authority: string, after: string, p: nat)
    requires DelimiterFree(authority) && StopsAt(after) && p < |authority|
    ensures SchemeLength(authority + after, p) > 0 <==> p == SchemeStart(authority, after)
    ensures SchemeLength(authority + after, p) > 0 ==> p + SchemeLength(authority + after, p) == |authority| + 2
  {
    assert DelimiterFree("rtsps:") && DelimiterFree("rtsp:");
    hide Matches, DelimiterFree, StopsAt, Delimiter;
    WordInAuthority(authority, after, p, "rtsps:");
    WordInAuthority(authority, after, p, "rtsp:");
    assert "rtsps:" + "//" == "rtsps://" && "rtsp:" + "//" == "rtsp://";
    OneEnding(authority);
  }

  lemma OneEnding(authority: string)
    ensures var n := |authority|;
            n >= 6 && Matches(authority, n - 6, "rtsps:") ==> !Matches(authority, n - 5, "rtsp:")
  {
    var n := |authority|;
    if n >= 6 && Matches(authority, n - 6, "rtsps:") {
      assert Is(authority[n - 6 + 1], "rtsps:"[1]) && !Is(authority[n - 6 + 1], "rtsp:"[0]);
      assert !Is(authority[n - 5 + 0], "rtsp:"[0]);
    }
  }

  lemma SchemeStartInside(authority: string, after: string)
    ensures SchemeStart(authority, after) < |authority|
  {
  }

  /** A scheme, the first one of its text, and nothing before it. */
  predicate IsHead(before: string, scheme: string) {
    SchemeLength(scheme, 0) == |scheme| > 0 && FirstScheme(before + scheme, 0) == |before|
  }

  lemma SchemesOfHead(before: string, scheme: string, tail: string, p: nat)
    requires IsHead(before, scheme) && p < |before + scheme|
    ensures SchemeLength(before + scheme + tail, p) == if p == |before| then |scheme| else 0
  {
    hide SchemeLength;
    var head, s := before + scheme, before + scheme + tail;
    assert head[|before|..] == scheme;
    FirstSchemeThere(head, tail, |before|);
    if p > |before| {
      NoSchemeInScheme(s, |before|, p);
    }
  }

  lemma UserinfoShift(before: string, s: string, p: nat)
    ensures UserinfoAt(before + s, |before| + p) == UserinfoAt(s, p)
  {
    SchemeShift(before, s, p);
    hide SchemeLength, UserinfoOf, Authority;
    var n := SchemeLength(s, p);
    if n > 0 {
      assert (before + s)[|before| + p + n..] == s[p + n..];
    }
  }

  /** No scheme begins in the placeholder, nor in front of an '@' and across it. */
  lemma NoSchemeInPlaceholder(tail: string, p: nat)
    requires p < |REDACTED|
    ensures SchemeLength(REDACTED + tail, p) == 0
  {
    var s := REDACTED + tail;
    if p == 1 {
      assert !Is(s[p + 1], 't') && "rtsps://"[1] == "rtsp://"[1] == 't';
    } else {
      assert s[p] == REDACTED[p];
      NoSchemeWithoutR(s, p);
    }
  }

  /** The userinfo of a URL text, in front of whose host the placeholder may stand. */
  lemma UserinfoBehindHead(hidden: string, host: string, after: string, q: nat)
    requires hidden in {"", REDACTED} && DelimiterFree(host) && StopsAt(after)
    ensures var user := UserinfoAt(hidden + host + after, q);
            if q < |hidden| then user == None
            else if q < |hidden + host| then
              user == if q - |hidden| == SchemeStart(host, after) then UserinfoOf(Authority(after[2..])) else None
            else user == UserinfoAt(after, q - |hidden + host|)
  {
    hide SchemeLength, SchemeStart, DelimiterFree, StopsAt, UserinfoOf, Authority;
    assert hidden + host + after == hidden + (host + after);
    if q < |hidden| {
      NoSchemeInPlaceholder(host + after, q);
    } else {
      UserinfoShift(hidden, host + after, q - |hidden|);
      if q < |hidden + host| {
        SchemeInAuthority(host, after, q - |hidden|);
        if q - |hidden| == SchemeStart(host, after) {
          SchemeStartNeedsSlashes(host, after);
          assert (host + after)[|host| + 2..] == after[2..];
        }
      } else {
        UserinfoShift(host, after, q - |hidden + host|);
      }
    }
  }

  lemma SchemeStartNeedsSlashes(authority: string, after: string)
    ensures SchemeStart(authority, after) >= 0 ==> |after| >= 2 && after[0] == '/' && after[1] == '/'
  {
  }

  /** The userinfo of a line at each position, one URL at a time. */
  lemma UserinfoInUrl(before: string, scheme: string, hidden: string, host: string, after: string, p: nat)
    requires IsHead(before, scheme) && hidden in {"", REDACTED} && DelimiterFree(host) && StopsAt(after)
    ensures var user, start := UserinfoAt(before + scheme + (hidden + host + after), p), |before + scheme|;
            if p < start then user == if p == |before| then UserinfoOf(hidden + host + Authority(after)) else None
            else if p - start < |hidden| then user == None
            else if p - start < |hidden + host| then
              user ==
                if p - start - |hidden| == SchemeStart(host, after) then UserinfoOf(Authority(after[2..])) else None
            else user == UserinfoAt(after, p - start - |hidden + host|)
  {
    hide SchemeLength, SchemeStart, DelimiterFree, StopsAt, UserinfoOf, Authority, FirstScheme;
    var head, tail := before + scheme, hidden + host + after;
    if p < |head| {
      SchemesOfHead(before, scheme, tail, p);
      if p == |before| {
        assert (head + tail)[|head|..] == tail;
        AuthorityBehindHead(hidden, host, after);
      }
    } else {
      UserinfoShift(head, tail, p - |head|);
      UserinfoBehindHead(hidden, host, after, p - |head|);
    }
  }

  lemma AuthorityBehindHead(hidden: string, host: string, after: string)
    requires hidden in {"", REDACTED} && DelimiterFree(host)
    ensures Authority(hidden + host + after) == hidden + host + Authority(after)
  {
    forall i | 0 <= i < |hidden + host| ensures !EndsAuthority((hidden + host)[i]) {
      DelimitersEndAuthorities((hidden + host)[i]);
      assert i >= |hidden| ==> (hidden + host)[i] == host[i - |hidden|];
    }
    hide EndsAuthority;
    AuthorityIs(hidden + host, after);
  }

  // ---------------------------------------------------------------- what the output shows

  function Hidden(authority: string): string {
    if LastAt(authority) < 0 then "" else REDACTED
  }

  function Host(authority: string): string {
    if LastAt(authority) < 0 then authority else authority[LastAt(authority)..]
  }

  /** The userinfo of this URL and that of one nested in its authority are hidden. */
  predicate HiddenHere(authority: string, after: string) {
    var user := UserinfoOf(authority + Authority(after));
    && (Placeholder(user) || DelimiterFree(user.value))
    && (SchemeStart(authority, after) >= 0 ==> Placeholder(UserinfoOf(Authority(after[2..]))))
  }

  predicate AllHidden(l: Line) {
    match l
    case End(_) => true
    case Url(_, _, authority, rest) => HiddenHere(authority, Text(rest)) && AllHidden(rest)
  }

  lemma HostIsDelimiterFree(authority: string)
    requires DelimiterFree(authority)
    ensures DelimiterFree(Host(authority)) && HideUser(authority, REDACTED) == Hidden(authority) + Host(authority)
  {
    hide Delimiter;
  }

  predicate StartsWithSlashes(s: string) {
    |s| >= 2 && s[0] == '/' && s[1] == '/'
  }

  /** A scheme that ends with the authority lies behind its last '@'. */
  lemma NestedInHost(authority: string, after: string, out: string)
    requires StartsWithSlashes(after) <==> StartsWithSlashes(out)
    ensures SchemeStart(authority, after) >= 0 <==> SchemeStart(Host(authority), out) >= 0
  {
    EndsInHost(authority, "rtsps:");
    EndsInHost(authority, "rtsp:");
    SchemeStartMeans(authority, after);
    SchemeStartMeans(Host(authority), out);
    hide *;
  }

  lemma SchemeStartMeans(authority: string, after: string)
    ensures SchemeStart(authority, after) >= 0 <==>
              StartsWithSlashes(after) && (EndsWith(authority, "rtsps:") || EndsWith(authority, "rtsp:"))
  {
    hide Matches;
    assert |"rtsps:"| == 6 && |"rtsp:"| == 5;
  }

  predicate EndsWith(s: string, word: string) {
    |s| >= |word| && Matches(s, |s| - |word|, word)
  }

  lemma EndsInHost(authority: string, word: string)
    requires |word| > 0 && forall i | 0 <= i < |word| :: word[i] != '@'
    ensures EndsWith(authority, word) <==> EndsWith(Host(authority), word)
  {
    var host, k := Host(authority), LastAt(authority);
    if k >= 0 && |host| >= |word| {
      assert authority == authority[..k] + host;
      MatchShift(authority[..k], host, |host| - |word|, word);
    } else if k >= 0 && |authority| >= |word| {
      var start := |authority| - |word|;
      assert !Is(authority[start + (k - start)], word[k - start]);
    }
  }

  /** Up to where its first authority ends, the rest of a line is the same in the output. */
  lemma RestAgrees(rest: Line)
    requires Scanned(rest)
    ensures var after, out := Text(rest), Redacted(rest);
            && (StopsAt(after) <==> StopsAt(out)) && Authority(after) == Authority(out)
            && (StartsWithSlashes(after) <==> StartsWithSlashes(out))
            && (StartsWithSlashes(after) ==> Authority(after[2..]) == Authority(out[2..]))
  {
    if rest.Url? {
      var head := rest.before + rest.scheme;
      SchemeEnds(rest.scheme);
      HeadDecides(head, rest.authority + Text(rest.rest), HideUser(rest.authority, REDACTED) + Redacted(rest.rest));
    }
  }

  lemma SchemeEnds(scheme: string)
    requires SchemeLength(scheme, 0) == |scheme| > 0
    ensures |scheme| >= 7 && scheme[|scheme| - 1] == '/'
  {
    assert "rtsps://"[7] == "rtsp://"[6] == '/';
    assert Is(scheme[0 + (|scheme| - 1)], '/');
  }

  lemma HeadDecides(head: string, x: string, y: string)
    requires |head| >= 7 && head[|head| - 1] == '/'
    ensures var after, out := head + x, head + y;
            && (StopsAt(after) <==> StopsAt(out)) && Authority(after) == Authority(out)
            && (StartsWithSlashes(after) <==> StartsWithSlashes(out)) && Authority(after[2..]) == Authority(out[2..])
  {
    assert EndsAuthority(head[|head| - 1]) && EndsAuthority(head[2..][|head| - 3]);
    hide EndsAuthority, Delimiter;
    AuthorityIsLocal(head, x, y);
    AuthorityIsLocal(head[2..], x, y);
    assert (head + x)[2..] == head[2..] + x && (head + y)[2..] == head[2..] + y;
  }

  /** Hiding what precedes the last '@' before a delimiter of the scanner. */
  lemma HiddenExactly(authority: string, more: string)
    requires DelimiterFree(authority) && StopsAt(more)
    ensures Placeholder(UserinfoOf(Hidden(authority) + Host(authority) + more)) <==>
              Placeholder(UserinfoOf(authority + more)) || DelimiterFree(UserinfoOf(authority + more).value)
  {
    hide LastAt, Delimiter, Hidden, Host;
    if LastAt(more) >= 0 {
      DelimiterBeforeAt(more);
      HiddenWithMore(authority, more);
    } else if LastAt(authority) >= 0 {
      HiddenAlone(authority, more);
    } else {
      LastAtBefore(authority, more);
      assert Hidden(authority) + Host(authority) == authority by { HostWithoutAt(authority); }
    }
  }

  lemma DelimiterBeforeAt(more: string)
    requires StopsAt(more) && LastAt(more) >= 0
    ensures LastAt(more) > 0 && Delimiter(more[0])
  {
    hide LastAt;
  }

  lemma HostWithoutAt(authority: string)
    requires LastAt(authority) < 0
    ensures Hidden(authority) + Host(authority) == authority
  {
  }

  lemma HiddenWithMore(a: string, more: string)
    requires DelimiterFree(a) && LastAt(more) > 0 && Delimiter(more[0])
    ensures UserinfoOf(a + more).Some? && !DelimiterFree(UserinfoOf(a + more).value)
    ensures Placeholder(UserinfoOf(Hidden(a) + Host(a) + more)) <==> Placeholder(UserinfoOf(a + more))
  {
    UserinfoWithMore(a, more);
    NotDelimiterFree(a, more, LastAt(more));
    if LastAt(a) < 0 {
      HostWithoutAt(a);
    } else {
      NeitherIsPlaceholder(a, more);
    }
    hide *;
  }

  lemma NeitherIsPlaceholder(a: string, more: string)
    requires LastAt(a) >= 0 && LastAt(more) >= 0
    ensures !Placeholder(UserinfoOf(Hidden(a) + Host(a) + more)) && !Placeholder(UserinfoOf(a + more))
  {
    UserinfoWithMore(a, more);
    UserinfoWithMore(Hidden(a) + Host(a), more);
    NotRedacted(a, more, LastAt(more));
    TooLong(a, more, LastAt(more));
    hide UserinfoOf, LastAt, Hidden, Host;
  }

  lemma NotDelimiterFree(a: string, more: string, e: nat)
    requires 0 < e <= |more| && Delimiter(more[0])
    ensures !DelimiterFree((a + more)[..|a| + e])
  {
    hide Delimiter;
    assert (a + more)[..|a| + e][|a|] == more[0];
  }

  lemma UserinfoWithMore(b: string, more: string)
    requires LastAt(more) >= 0
    ensures UserinfoOf(b + more) == Some((b + more)[..|b| + LastAt(more)])
  {
    LastAtBehind(b, more);
    hide LastAt;
  }

  lemma TooLong(a: string, more: string, e: nat)
    requires LastAt(a) >= 0 && e <= |more|
    ensures var b := Hidden(a) + Host(a); (b + more)[..|b| + e] != REDACTED
  {
    var b := Hidden(a) + Host(a);
    assert |b| > |REDACTED|;
    hide LastAt, Hidden, Host;
    assert |(b + more)[..|b| + e]| > |REDACTED|;
  }

  lemma NotRedacted(a: string, more: string, e: nat)
    requires LastAt(a) >= 0 && e <= |more|
    ensures (a + more)[..|a| + e] != REDACTED
  {
    hide LastAt;
    assert (a + more)[..|a| + e][LastAt(a)] == '@';
    assert forall i | 0 <= i < |REDACTED| :: REDACTED[i] != '@';
  }

  lemma HiddenAlone(a: string, more: string)
    requires DelimiterFree(a) && LastAt(a) >= 0 && LastAt(more) < 0
    ensures UserinfoOf(a + more).Some? && DelimiterFree(UserinfoOf(a + more).value)
    ensures UserinfoOf(Hidden(a) + Host(a) + more) == Some(REDACTED)
  {
    LastAtBefore(a, more);
    LastAtBefore(Hidden(a) + Host(a), more);
    LastAtOfHidden(a);
    assert (a + more)[..LastAt(a)] == a[..LastAt(a)] by { hide *; }
    assert DelimiterFree(a[..LastAt(a)]) by { hide LastAt, Delimiter; }
    var b := Hidden(a) + Host(a);
    assert b[..|REDACTED|] == REDACTED by { hide LastAt; }
    hide LastAt, Hidden, Host, DelimiterFree;
    assert (b + more)[..|REDACTED|] == b[..|REDACTED|];
  }

  lemma LastAtOfHidden(a: string)
    requires LastAt(a) >= 0
    ensures LastAt(Hidden(a) + Host(a)) == |REDACTED| < |Hidden(a) + Host(a)|
  {
    hide LastAt;
    var b := Hidden(a) + Host(a);
    assert forall i | |REDACTED| <= i < |b| :: b[i] == a[LastAt(a) + (i - |REDACTED|)];
    LastAtIs(b, |REDACTED|);
  }

  lemma LastAtBehind(a: string, more: string)
    requires LastAt(more) >= 0
    ensures LastAt(a + more) == |a| + LastAt(more)
  {
    hide LastAt;
    var s := a + more;
    assert forall i | |a| <= i < |s| :: s[i] == more[i - |a|];
    LastAtIs(s, |a| + LastAt(more));
  }

  lemma LastAtBefore(a: string, more: string)
    requires LastAt(more) < 0
    ensures LastAt(a + more) == LastAt(a)
  {
    hide LastAt;
    var s := a + more;
    assert forall i | |a| <= i < |s| :: s[i] == more[i - |a|];
    LastAtIs(s, LastAt(a));
  }

  lemma AuthorityStops(after: string)
    requires StopsAt(after)
    ensures StopsAt(Authority(after))
  {
  }

  /** What the text of one URL shows, with or without the placeholder in front of its host. */
  lemma ShownInUrl(before: string, scheme: string, hidden: string, host: string, after: string)
    requires IsHead(before, scheme) && hidden in {"", REDACTED} && DelimiterFree(host) && StopsAt(after)
    ensures NothingShown(before + scheme + (hidden + host + after)) <==>
              && Placeholder(UserinfoOf(hidden + host + Authority(after)))
              && (SchemeStart(host, after) >= 0 ==> Placeholder(UserinfoOf(Authority(after[2..]))))
              && NothingShown(after)
  {
    hide IsHead, DelimiterFree, StopsAt, UserinfoOf, Authority, UserinfoAt, SchemeStart, Placeholder;
    SchemeStartInside(host, after);
    SchemeStartNeedsSlashes(host, after);
    assert UserinfoOf("") == None by { NoUserinfo(); }
    assert Placeholder(None) by { NoUserinfo(); }
    var s, start, width := before + scheme + (hidden + host + after), |before + scheme|, |hidden + host|;
    if NothingShown(s) {
      assert |before| < start by { HeadIsLonger(before, scheme); }
      UserinfoInUrl(before, scheme, hidden, host, after, |before|);
      assert Placeholder(UserinfoAt(s, |before|));
      if SchemeStart(host, after) >= 0 {
        var p := start + |hidden| + SchemeStart(host, after);
        UserinfoInUrl(before, scheme, hidden, host, after, p);
        assert Placeholder(UserinfoAt(s, p));
      }
      forall r: nat ensures Placeholder(UserinfoAt(after, r)) {
        UserinfoInUrl(before, scheme, hidden, host, after, start + width + r);
        assert Placeholder(UserinfoAt(s, start + width + r));
      }
    }
    if && Placeholder(UserinfoOf(hidden + host + Authority(after))) && NothingShown(after)
       && (SchemeStart(host, after) >= 0 ==> Placeholder(UserinfoOf(Authority(after[2..])))) {
      forall p: nat ensures Placeholder(UserinfoAt(s, p)) {
        UserinfoInUrl(before, scheme, hidden, host, after, p);
      }
    }
  }

  lemma NoUserinfo()
    ensures UserinfoOf("") == None && Placeholder(None)
  {
  }

  lemma HeadIsLonger(before: string, scheme: string)
    requires IsHead(before, scheme)
    ensures |before| < |before + scheme|
  {
    hide SchemeLength, FirstScheme;
  }

  lemma OutputOfUrl(before: string, scheme: string, authority: string, rest: Line)
    requires Findable(Around(before, scheme, authority, Text(rest))) && Scanned(rest)
    ensures NothingShown(Redacted(Url(before, scheme, authority, rest))) <==>
              HiddenHere(authority, Text(rest)) && NothingShown(Redacted(rest))
  {
    var after, out := Text(rest), Redacted(rest);
    assert IsHead(before, scheme) && DelimiterFree(authority) && StopsAt(after);
    hide IsHead, Findable, DelimiterFree, StopsAt, UserinfoOf, Authority, SchemeStart, Host, Hidden, NothingShown;
    RestAgrees(rest);
    HostIsDelimiterFree(authority);
    NestedInHost(authority, after, out);
    AuthorityStops(after);
    HiddenExactly(authority, Authority(after));
    assert Hidden(authority) in {"", REDACTED} by { HiddenIs(authority); }
    ShownInUrl(before, scheme, Hidden(authority), Host(authority), out);
    SchemeStartNeedsSlashes(authority, after);
    hide Placeholder, HideUser;
  }

  lemma HiddenIs(authority: string)
    ensures Hidden(authority) in {"", REDACTED}
  {
  }

  /** The output shows nothing exactly if at each URL of the scan everything is hidden. */
  lemma {:induction false} OutputShowsNothing(l: Line)
    requires Scanned(l)
    ensures NothingShown(Redacted(l)) <==> AllHidden(l)
  {
    hide Findable, HiddenHere, NothingShown;
    match l
    case End(text) => assert NothingShown(text) by { SchemeFreeShowsNothing(text); }
    case Url(before, scheme, authority, rest) =>
      OutputShowsNothing(rest);
      OutputOfUrl(before, scheme, authority, rest);
  }

  lemma SchemeFreeShowsNothing(s: string)
    requires SchemeFree(s)
    ensures NothingShown(s) && forall p: nat :: SchemeLength(s, p) == 0
  {
    forall p: nat ensures SchemeLength(s, p) == 0 {
    }
    hide SchemeLength;
  }

  ghost predicate Hideable(l: Line, p: nat) {
    var user := UserinfoAt(Text(l), p);
    Placeholder(user) || (Finds(l, p) && DelimiterFree(user.value))
  }

  ghost predicate AllHideable(l: Line) {
    forall p: nat :: Hideable(l, p)
  }

  lemma InputOfUrl(before: string, scheme: string, authority: string, rest: Line, p: nat)
    requires Findable(Around(before, scheme, authority, Text(rest)))
    ensures var after, start := Text(rest), |before + scheme|;
            Hideable(Url(before, scheme, authority, rest), p) <==>
              if p < start then
                (p == |before| ==>
                   var user := UserinfoOf(authority + Authority(after)); Placeholder(user) || DelimiterFree(user.value))
              else if p < start + |authority| then
                (p - start == SchemeStart(authority, after) ==> Placeholder(UserinfoOf(Authority(after[2..]))))
              else Hideable(rest, p - start - |authority|)
  {
    UserinfoInLine(before, scheme, authority, rest, p);
    FoundInUrl(before, scheme, authority, rest, p);
    SchemeStartNeedsSlashes(authority, Text(rest));
    SchemeNotEmpty(before, scheme, authority, Text(rest));
    assert Placeholder(None);
    hide Findable, Finds, Text, DelimiterFree, UserinfoOf, Authority, SchemeStart, UserinfoAt, Placeholder;
  }

  lemma UserinfoInLine(before: string, scheme: string, authority: string, rest: Line, p: nat)
    requires Findable(Around(before, scheme, authority, Text(rest)))
    ensures var user, after, start := UserinfoAt(Text(Url(before, scheme, authority, rest)), p), Text(rest),
              |before + scheme|;
            if p < start then user == if p == |before| then UserinfoOf(authority + Authority(after)) else None
            else if p - start < |authority| then
              user == if p - start == SchemeStart(authority, after) then UserinfoOf(Authority(after[2..])) else None
            else user == UserinfoAt(after, p - start - |authority|)
  {
    var after := Text(rest);
    assert IsHead(before, scheme) && DelimiterFree(authority) && StopsAt(after);
    hide IsHead, Findable, DelimiterFree, StopsAt, UserinfoOf, Authority, SchemeStart, UserinfoAt;
    UserinfoInUrl(before, scheme, "", authority, after, p);
    assert "" + authority == authority;
  }

  lemma FoundInUrl(before: string, scheme: string, authority: string, rest: Line, p: nat)
    requires |before| < |before + scheme|
    ensures var l, start := Url(before, scheme, authority, rest), |before + scheme|;
            && (p < start + |authority| ==> (Finds(l, p) <==> p == |before|))
            && (p >= start + |authority| ==> (Finds(l, p) <==> Finds(rest, p - start - |authority|)))
  {
  }

  lemma {:induction false} InputIsHideable(l: Line)
    requires Scanned(l)
    ensures AllHideable(l) <==> AllHidden(l)
  {
    hide Findable, Hideable, SchemeStart, UserinfoOf, Authority, DelimiterFree, Placeholder;
    match l
    case End(text) =>
      forall p: nat ensures Hideable(l, p) {
        assert Placeholder(UserinfoAt(text, p)) by { SchemeFreeShowsNothing(text); }
        HideableIfPlaceholder(l, p);
      }
    case Url(before, scheme, authority, rest) =>
      InputIsHideable(rest);
      var start, nested := |before + scheme|, SchemeStart(authority, Text(rest));
      SchemeStartInside(authority, Text(rest));
      SchemeNotEmpty(before, scheme, authority, Text(rest));
      if AllHideable(l) {
        assert Hideable(l, |before|);
        InputOfUrl(before, scheme, authority, rest, |before|);
        if nested >= 0 {
          assert Hideable(l, start + nested);
          InputOfUrl(before, scheme, authority, rest, start + nested);
        }
        forall r: nat ensures Hideable(rest, r) {
          assert Hideable(l, start + |authority| + r);
          InputOfUrl(before, scheme, authority, rest, start + |authority| + r);
        }
      }
      if AllHidden(l) {
        forall p: nat ensures Hideable(l, p) {
          InputOfUrl(before, scheme, authority, rest, p);
        }
      }
  }

  lemma HideableIfPlaceholder(l: Line, p: nat)
    requires Placeholder(UserinfoAt(Text(l), p))
    ensures Hideable(l, p)
  {
  }

  lemma SchemeNotEmpty(before: string, scheme: string, authority: string, after: string)
    requires Findable(Around(before, scheme, authority, after))
    ensures |before| < |before + scheme|
  {
  }

  // ---------------------------------------------------------------- which schemes the scan finds

  lemma FirstIsNotNested(before: string, scheme: string, tail: string)
    requires IsHead(before, scheme)
    ensures !Nested(before + scheme + tail, |before|)
  {
    hide SchemeLength, IsHead;
    HeadIsLonger(before, scheme);
    forall q: nat | q < |before| ensures !Chained(before + scheme + tail, q, |before|) {
      SchemesOfHead(before, scheme, tail, q);
    }
  }

  lemma InsideIsNested(before: string, scheme: string, authority: string, after: string, q: nat)
    requires IsHead(before, scheme) && DelimiterFree(authority) && q < |authority|
    ensures Nested(before + scheme + (authority + after), |before + scheme| + q)
  {
    hide SchemeLength, IsHead, FirstScheme;
    var s, start := before + scheme + (authority + after), |before + scheme|;
    HeadIsLonger(before, scheme);
    SchemesOfHead(before, scheme, authority + after, |before|);
    FirstIsNotNested(before, scheme, authority + after);
    assert s[start..start + q] == authority[..q];
    assert SchemeLength(s, |before|) > 0 by { SchemeIsLonger(before, scheme); }
    assert Chained(s, |before|, start + q);
  }

  lemma SchemeIsLonger(before: string, scheme: string)
    requires IsHead(before, scheme)
    ensures |scheme| > 0
  {
  }

  lemma ChainedShift(before: string, s: string, q: nat, p: nat)
    ensures Chained(before + s, |before| + q, |before| + p) <==> Chained(s, q, p)
  {
    SchemeShift(before, s, q);
    hide SchemeLength, DelimiterFree;
    var n := SchemeLength(s, q);
    if n > 0 && q + n <= p <= |s| {
      assert (before + s)[|before| + q + n..|before| + p] == s[q + n..p];
    }
  }

  /** A URL behind the delimiter that ends an authority is not nested in that authority. */
  lemma NotAcross(before: string, scheme: string, authority: string, after: string, r: nat)
    requires IsHead(before, scheme) && StopsAt(after) && 0 < r <= |after|
    ensures !Chained(before + scheme + (authority + after), |before|, |before + scheme + authority| + r)
  {
    hide SchemeLength, Delimiter, IsHead;
    HeadIsLonger(before, scheme);
    SchemesOfHead(before, scheme, authority + after, |before|);
    var s, start, end := before + scheme + (authority + after), |before + scheme|, |before + scheme + authority| + r;
    assert s[start..end][|authority|] == after[0];
  }

  lemma {:induction false} NestedShift(before: string, scheme: string, authority: string, after: string, r: nat)
    requires IsHead(before, scheme) && DelimiterFree(authority) && StopsAt(after) && SchemeLength(after, r) > 0
    ensures Nested(before + scheme + (authority + after), |before + scheme + authority| + r) <==> Nested(after, r)
    decreases r
  {
    hide SchemeLength, IsHead, DelimiterFree, StopsAt, Chained;
    var base := before + scheme + authority;
    var s, start := before + scheme + (authority + after), |before + scheme|;
    assert s == base + after;
    HeadIsLonger(before, scheme);
    SchemeBehindStop(after, r);
    forall q: nat | q < |base| + r && Chained(s, q, |base| + r) && !Nested(s, q) ensures Nested(after, r) {
      assert SchemeLength(s, q) > 0 by { ChainedHasScheme(s, q, |base| + r); }
      if q < start {
        SchemesOfHead(before, scheme, authority + after, q);
        NotAcross(before, scheme, authority, after, r);
      } else if q < |base| {
        InsideIsNested(before, scheme, authority, after, q - start);
      } else {
        ChainedShift(base, after, q - |base|, r);
        ChainedHasScheme(after, q - |base|, r);
        NestedShift(before, scheme, authority, after, q - |base|);
      }
    }
    forall q: nat | q < r && Chained(after, q, r) && !Nested(after, q) ensures Nested(s, |base| + r) {
      ChainedShift(base, after, q, r);
      ChainedHasScheme(after, q, r);
      NestedShift(before, scheme, authority, after, q);
    }
  }

  lemma ChainedHasScheme(s: string, q: nat, p: nat)
    requires Chained(s, q, p)
    ensures SchemeLength(s, q) > 0
  {
  }

  lemma SchemeBehindStop(after: string, r: nat)
    requires StopsAt(after) && SchemeLength(after, r) > 0
    ensures 0 < r <= |after|
  {
    if r == 0 {
      NoSchemeWithoutR(after, 0) by { assert !Is(after[0], 'r'); }
    }
  }

  /** The scan finds exactly the schemes that are not nested. */
  lemma {:induction false} FoundUnlessNested(l: Line, p: nat)
    requires Scanned(l) && SchemeLength(Text(l), p) > 0
    ensures Finds(l, p) <==> !Nested(Text(l), p)
  {
    hide SchemeLength, SchemeFree, DelimiterFree, StopsAt, Nested;
    match l
    case End(text) => SchemeFreeShowsNothing(text);
    case Url(before, scheme, authority, rest) =>
      var after, start := Text(rest), |before + scheme|;
      assert IsHead(before, scheme);
      hide IsHead;
      assert Text(l) == before + scheme + (authority + after) == before + scheme + authority + after;
      HeadIsLonger(before, scheme);
      FoundInUrl(before, scheme, authority, rest, p);
      if p < start {
        SchemesOfHead(before, scheme, authority + after, p);
        FirstIsNotNested(before, scheme, authority + after);
      } else if p < start + |authority| {
        InsideIsNested(before, scheme, authority, after, p - start);
      } else {
        var r := p - start - |authority|;
        SchemeShift(before + scheme + authority, after, r);
        FoundUnlessNested(rest, r);
        NestedShift(before, scheme, authority, after, r);
      }
  }

  /**
   The output shows no userinfo exactly when each URL of the line that has any is not nested in another one
   and its userinfo holds none of the delimiters of the scanner; userinfo that already is the placeholder does
   no harm. Of the scanner's delimiters, userinfo can hold an apostrophe and closing brackets of three kinds.
   */
  lemma NothingShownExactly(line: string)
    ensures NothingShown(Redact(line)) <==> forall p: nat :: CanBeHidden(line, p)
  {
    hide Scanned, NothingShown, Nested, Hideable;
    var l := Scan(line);
    ScanSplits(line);
    OutputShowsNothing(l);
    InputIsHideable(l);
    forall p: nat ensures Hideable(l, p) <==> CanBeHidden(line, p) {
      HideableMeans(l, p);
    }
    hide CanBeHidden;
  }

  lemma HideableMeans(l: Line, p: nat)
    requires Scanned(l)
    ensures Hideable(l, p) <==> CanBeHidden(Text(l), p)
  {
    hide Scanned, Nested, DelimiterFree, UserinfoOf, Authority, SchemeLength, Finds, Text;
    if SchemeLength(Text(l), p) > 0 {
      FoundUnlessNested(l, p);
    } else {
      assert UserinfoAt(Text(l), p) == None;
    }
  }

  /** The delimiters of the scanner that can be part of an authority. */
  lemma ExtraDelimiters(c: char)
    ensures Delimiter(c) && !EndsAuthority(c) <==> c in "')]}"
  {
  }

  /** A closing parenthesis in the password, which section 3.2.1 of RFC 3986 allows, leaves rtsp://u:p)w@h as it is. */
  lemma PasswordWithParenthesisIsShown()
    ensures var line := "rtsp://" + ("u:p" + (")w" + "@h"));
            Redact(line) == line && UserinfoAt(line, 0) == Some("u:p" + ")w")
  {
    ExampleParts();
    hide *;
    ShownInTwoParts("u:p", ")w" + "@h");
    UserinfoInTwoParts("u:p", ")w", "@h");
  }

  lemma ExampleParts()
    ensures DelimiterFree("u:p") && LastAt("u:p") < 0 && LastAt("@h") == 0
    ensures StopsAt(")w" + "@h") && WithoutR(")w" + "@h")
    ensures Uncut("u:p") && Uncut(")w") && Uncut("@h")
  {
    LastAtIs("u:p", -1);
    LastAtIs("@h", 0);
    hide LastAt;
  }

  predicate WithoutR(s: string) {
    forall i | 0 <= i < |s| :: !Is(s[i], 'r')
  }

  predicate Uncut(s: string) {
    forall i | 0 <= i < |s| :: !EndsAuthority(s[i])
  }

  lemma UserinfoInTwoParts(first: string, second: string, host: string)
    requires Uncut(first) && Uncut(second) && Uncut(host) && LastAt(host) == 0
    ensures UserinfoAt("rtsp://" + (first + (second + host)), 0) == Some(first + second)
  {
    hide *;
    var authority := first + (second + host);
    UncutJoined(second, host);
    UncutJoined(first, second + host);
    UncutAuthority(authority);
    UserinfoOfUrl(authority);
    UserinfoWithMore(first + second, host);
    assert authority == first + second + host;
    PrefixOfJoined(first + second, host);
  }

  lemma PrefixOfJoined(a: string, b: string)
    ensures (a + b)[..|a| + 0] == a
  {
  }

  lemma UncutJoined(a: string, b: string)
    requires Uncut(a) && Uncut(b)
    ensures Uncut(a + b)
  {
    hide EndsAuthority;
  }

  lemma UncutAuthority(authority: string)
    requires Uncut(authority)
    ensures Authority(authority) == authority
  {
    AuthorityIs(authority, "");
    assert authority + "" == authority;
  }

  lemma UserinfoOfUrl(authority: string)
    ensures UserinfoAt("rtsp://" + authority, 0) == UserinfoOf(Authority(authority))
  {
    var scheme := "rtsp://";
    assert SchemeLength(scheme, 0) == 7;
    SchemeMoved(scheme, 0, scheme + authority, 0) by {
      assert (scheme + authority)[0..7] == scheme == scheme[0..7];
    }
    hide SchemeLength, UserinfoOf, Authority;
    assert (scheme + authority)[0 + 7..] == authority;
  }

  /** Without an '@' before the scanner's delimiter nothing is hidden. */
  lemma ShownInTwoParts(first: string, second: string)
    requires DelimiterFree(first) && LastAt(first) < 0 && StopsAt(second) && WithoutR(second)
    ensures Redact("rtsp://" + (first + second)) == "rtsp://" + (first + second)
  {
    FirstSchemeIs("rtsp://", 0);
    SchemeNeedsR(second);
    RedactNothing(second);
    assert HideUser(first, REDACTED) == first by { hide LastAt; }
    hide *;
    RedactUrl(first, second);
  }

  /** Behind an authority that ends like a scheme, everything is shown as it is: rtsp://u@rtsp://v@h keeps v. */
  lemma NestedUserinfoSurvives()
    ensures Redact("rtsp://" + (("u" + "@rtsp:") + "//v@h")) == "rtsp://" + (("[REDACTED]" + "@rtsp:") + "//v@h")
  {
    SchemeNeedsR("//v@h");
    ShownBehindNested("u", "//v@h");
  }

  lemma ShownBehindNested(user: string, inner: string)
    requires DelimiterFree(user) && StopsAt(inner) && SchemeFree(inner)
    ensures Redact("rtsp://" + ((user + "@rtsp:") + inner)) == "rtsp://" + (("[REDACTED]" + "@rtsp:") + inner)
  {
    hide Redact, HideUser, SchemeFree, FirstScheme, StopsAt, LastAt;
    FirstSchemeIs("rtsp://", 0);
    RedactNothing(inner);
    UserHidden(user, "@rtsp:");
    RedactUrl(user + "@rtsp:", inner);
  }

  lemma RedactUrl(authority: string, after: string)
    requires FirstScheme("rtsp://", 0) == 0 && DelimiterFree(authority) && StopsAt(after)
    ensures Redact("rtsp://" + (authority + after)) == "rtsp://" + (HideUser(authority, REDACTED) + Redact(after))
  {
    var scheme := "rtsp://";
    assert SchemeLength(scheme, 0) == |scheme|;
    var a := Around("", scheme, authority, after);
    assert "" + scheme == scheme;
    hide FirstScheme, SchemeLength, DelimiterFree, Delimiter, Redact;
    FindableIsFirst(a);
    RedactFirst(Joined(a));
  }

  lemma UserHidden(user: string, host: string)
    requires host != "" && host[0] == '@' && forall i | 1 <= i < |host| :: host[i] != '@'
    ensures HideUser(user + host, REDACTED) == "[REDACTED]" + host
  {
    LastAtIs(user + host, |user|);
    assert (user + host)[|user|..] == host;
  }

  lemma SchemeNeedsR(s: string)
    requires forall i | 0 <= i < |s| :: !Is(s[i], 'r')
    ensures SchemeFree(s)
  {
    forall p: nat | p < |s| ensures SchemeLength(s, p) == 0 {
      NoSchemeWithoutR(s, p);
    }
  }

  // ---------------------------------------------------------------- what the log shows

  predicate EndsWithNewline(s: string) {
    s != "" && s[|s| - 1] == '\n'
  }

  lemma TextOfUrl(l: Line)
    requires l.Url?
    ensures Text(l) == l.before + l.scheme + (l.authority + Text(l.rest))
  {
  }

  lemma {:induction false} OutputEndsWithNewline(l: Line)
    requires Scanned(l) && EndsWithNewline(Text(l))
    ensures EndsWithNewline(Redacted(l))
  {
    if l.Url? {
      hide DelimiterFree, StopsAt, HideUser, SchemeLength, FirstScheme, Text;
      var head, after := l.before + l.scheme, Text(l.rest);
      assert Findable(Around(l.before, l.scheme, l.authority, after));
      assert Text(l) == head + (l.authority + after) by { TextOfUrl(l); }
      SchemeEnds(l.scheme);
      NewlineBehindAuthority(head, l.authority, after);
      OutputEndsWithNewline(l.rest);
      assert Redacted(l) == head + (HideUser(l.authority, REDACTED) + Redacted(l.rest));
    }
  }

  lemma NewlineBehindAuthority(head: string, authority: string, after: string)
    requires head != "" && head[|head| - 1] == '/' && DelimiterFree(authority)
    requires EndsWithNewline(head + (authority + after))
    ensures EndsWithNewline(after)
  {
    var s := head + (authority + after);
    assert Delimiter('\n');
    hide Delimiter;
    assert s[|head| - 1] == head[|head| - 1];
    assert forall i | 0 <= i < |authority| :: s[|head| + i] == authority[i];
    assert after != "" ==> s[|s| - 1] == after[|after| - 1];
  }

  /** The characters of a scheme, none of which is a newline, so that no scheme goes beyond the end of a line. */
  lemma SchemeWithinLine(a: string, b: string, p: nat)
    requires EndsWithNewline(a) && p < |a|
    ensures SchemeLength(a + b, p) == SchemeLength(a, p)
    ensures SchemeLength(a, p) > 0 ==> p + SchemeLength(a, p) < |a|
  {
    MatchWithinLine(a, b, p, "rtsps://");
    MatchWithinLine(a, b, p, "rtsp://");
  }

  lemma MatchWithinLine(a: string, b: string, p: nat, word: string)
    requires EndsWithNewline(a) && p < |a| && word in {"rtsps://", "rtsp://"}
    ensures Matches(a + b, p, word) <==> Matches(a, p, word)
    ensures Matches(a, p, word) ==> p + |word| < |a|
  {
    var s, last := a + b, |a| - 1;
    assert forall i | 0 <= i < |a| :: s[i] == a[i];
    assert forall i | 0 <= i < |word| :: !Is('\n', word[i]);
    if last - p < |word| {
      assert !Is(s[p + (last - p)], word[last - p]);
      assert !Is(a[p + (last - p)], word[last - p]);
    }
  }

  /** Lines one after another show what each of them shows. */
  lemma LinesShowNothing(a: string, b: string)
    requires a == "" || EndsWithNewline(a)
    ensures NothingShown(a + b) <==> NothingShown(a) && NothingShown(b)
  {
    hide SchemeLength, UserinfoOf, Authority, Placeholder, UserinfoAt;
    forall p: nat
      ensures p < |a| ==> UserinfoAt(a + b, p) == UserinfoAt(a, p)
      ensures p >= |a| ==> UserinfoAt(a, p) == None && UserinfoAt(a + b, p) == UserinfoAt(b, p - |a|)
    {
      if p < |a| {
        UserinfoWithinLine(a, b, p);
      } else {
        UserinfoShift(a, b, p - |a|);
        NothingBehind(a, p);
      }
    }
    assert Placeholder(None) by { NoUserinfo(); }
    if NothingShown(a + b) {
      forall p: nat ensures Placeholder(UserinfoAt(a, p)) {
        assert Placeholder(UserinfoAt(a + b, p));
      }
      forall p: nat ensures Placeholder(UserinfoAt(b, p)) {
        assert Placeholder(UserinfoAt(a + b, |a| + p)) && |a| + p - |a| == p;
      }
    }
    if NothingShown(a) && NothingShown(b) {
      forall p: nat ensures Placeholder(UserinfoAt(a + b, p)) {
        assert Placeholder(UserinfoAt(a, p));
        assert p >= |a| ==> Placeholder(UserinfoAt(b, p - |a|));
      }
    }
  }

  lemma NothingBehind(s: string, p: nat)
    requires p >= |s|
    ensures UserinfoAt(s, p) == None
  {
  }

  lemma UserinfoWithinLine(a: string, b: string, p: nat)
    requires EndsWithNewline(a) && p < |a|
    ensures UserinfoAt(a + b, p) == UserinfoAt(a, p)
  {
    SchemeWithinLine(a, b, p);
    hide SchemeLength, UserinfoOf, Authority;
    var n := SchemeLength(a, p);
    if n > 0 {
      var tail := a[p + n..];
      assert tail[|tail| - 1] == '\n' && EndsAuthority('\n');
      hide EndsAuthority;
      AuthorityIsLocal(tail, b, "");
      assert (a + b)[p + n..] == tail + b && tail + "" == tail;
    }
  }

  /** Sanitising changes no scheme, and at most lets an authority end earlier. */
  lemma SanitizedShowsNothing(s: string)
    requires NothingShown(s)
    ensures NothingShown(Sanitized(s))
  {
    hide SchemeLength, UserinfoOf, Authority, Placeholder;
    forall p: nat ensures Placeholder(UserinfoAt(Sanitized(s), p)) {
      SanitizedScheme(s, p);
      assert Placeholder(UserinfoAt(s, p));
      var n := SchemeLength(s, p);
      if n > 0 {
        SanitizedAuthority(s[p + n..]);
        assert Sanitized(s)[p + n..] == Sanitized(s[p + n..]);
        ShorterShowsNothing(Authority(s[p + n..]), Authority(Sanitized(s[p + n..])));
      } else {
        assert Placeholder(None) by { NoUserinfo(); }
      }
    }
  }

  lemma SanitizedScheme(s: string, p: nat)
    ensures SchemeLength(Sanitized(s), p) == SchemeLength(s, p)
  {
    SanitizedMatch(s, p, "rtsps://");
    SanitizedMatch(s, p, "rtsp://");
  }

  lemma SanitizedMatch(s: string, p: nat, word: string)
    requires word in {"rtsps://", "rtsp://"}
    ensures Matches(Sanitized(s), p, word) <==> Matches(s, p, word)
  {
    assert forall i | 0 <= i < |word| :: ' ' <= word[i] <= '~' && word[i] != '?';
    forall c: char, i | 0 <= i < |word| ensures Is(SanitizeChar(c), word[i]) <==> Is(c, word[i]) {
      SanitizedChar(c, word[i]);
    }
    hide Is, SanitizeChar;
    assert forall i | 0 <= i < |s| :: Sanitized(s)[i] == SanitizeChar(s[i]);
  }

  lemma SanitizedChar(c: char, w: char)
    requires ' ' <= w <= '~' && w != '?'
    ensures Is(SanitizeChar(c), w) <==> Is(c, w)
  {
  }

  lemma {:induction false} SanitizedAuthority(s: string)
    ensures Authority(Sanitized(s)) <= Authority(s)
  {
    if s != "" && !EndsAuthority(SanitizeChar(s[0])) {
      SanitizedAuthority(s[1..]);
      assert Sanitized(s)[1..] == Sanitized(s[1..]);
    }
  }

  lemma ShorterShowsNothing(authority: string, shorter: string)
    requires shorter <= authority && Placeholder(UserinfoOf(authority))
    ensures Placeholder(UserinfoOf(shorter))
  {
    var k := LastAt(authority);
    assert forall i | 0 <= i < |shorter| :: shorter[i] == authority[i];
    if k < |shorter| {
      LastAtIs(shorter, k);
    } else {
      assert authority[..k] == REDACTED;
      assert forall i | 0 <= i < k :: authority[..k][i] == authority[i];
      assert forall i | 0 <= i < |REDACTED| :: REDACTED[i] != '@';
      LastAtIs(shorter, -1);
    }
  }

  /** Each URL in the line has userinfo that is hidden, or the line is too long to be shown. */
  ghost predicate LineCanBeHidden(line: string) {
    |line| <= 8192 ==> forall p: nat :: CanBeHidden(line + "\n", p)
  }

  /** A line that sanitising leaves as it is. */
  predicate Printable(s: string) {
    forall i | 0 <= i < |s| :: SanitizeChar(s[i]) == s[i]
  }

  lemma ShownShowsNothing(line: string)
    ensures EndsWithNewline(Shown(line))
    ensures LineCanBeHidden(line) ==> NothingShown(Shown(line))
    ensures Printable(line) ==> (LineCanBeHidden(line) <==> NothingShown(Shown(line)))
  {
    if |line| <= MAX_LINE {
      var s := line + "\n";
      NothingShownExactly(s);
      RedactEndsWithNewline(s);
      if NothingShown(Redact(s)) {
        SanitizedShowsNothing(Redact(s));
      }
      if Printable(line) {
        RedactIsPrintable(line);
      }
      hide CanBeHidden, NothingShown, Redact, Sanitized, Printable;
    } else {
      NoticeShowsNothing();
      assert EndsWithNewline(NOTICE);
    }
  }

  lemma RedactIsPrintable(line: string)
    requires Printable(line)
    ensures Sanitized(Redact(line + "\n")) == Redact(line + "\n")
  {
    ScanSplits(line + "\n");
    assert Printable(line + "\n") by { assert SanitizeChar('\n') == '\n'; hide SanitizeChar; }
    OutputIsPrintable(Scan(line + "\n"));
  }

  lemma {:induction false} OutputIsPrintable(l: Line)
    requires Printable(Text(l))
    ensures Printable(Redacted(l))
  {
    if l.Url? {
      var head, after := l.before + l.scheme, Text(l.rest);
      assert Text(l) == head + (l.authority + after);
      PrintableParts(head, l.authority + after);
      PrintableParts(l.authority, after);
      OutputIsPrintable(l.rest);
      HostIsPrintable(l.authority);
      assert Redacted(l) == head + (HideUser(l.authority, REDACTED) + Redacted(l.rest));
      PrintableParts(HideUser(l.authority, REDACTED), Redacted(l.rest));
      PrintableParts(head, HideUser(l.authority, REDACTED) + Redacted(l.rest));
    }
  }

  lemma PrintableParts(a: string, b: string)
    ensures Printable(a + b) <==> Printable(a) && Printable(b)
  {
    hide SanitizeChar;
    assert forall i | 0 <= i < |a| :: (a + b)[i] == a[i];
    assert forall i | 0 <= i < |b| :: (a + b)[|a| + i] == b[i];
  }

  lemma HostIsPrintable(authority: string)
    requires Printable(authority)
    ensures Printable(HideUser(authority, REDACTED))
  {
    var k := LastAt(authority);
    if k >= 0 {
      assert authority == authority[..k] + authority[k..];
      PrintableParts(authority[..k], authority[k..]);
      assert Printable(REDACTED);
      PrintableParts(REDACTED, authority[k..]);
    }
  }

  lemma RedactEndsWithNewline(s: string)
    requires EndsWithNewline(s)
    ensures EndsWithNewline(Redact(s)) && EndsWithNewline(Sanitized(Redact(s)))
  {
    hide Scan, Scanned, Redacted, Text;
    ScanSplits(s);
    OutputEndsWithNewline(Scan(s));
    assert SanitizeChar('\n') == '\n';
    hide SanitizeChar;
  }

  lemma NoticeShowsNothing()
    ensures NothingShown(NOTICE)
  {
    assert WithoutR(NOTICE);
    SchemeNeedsR(NOTICE);
    SchemeFreeShowsNothing(NOTICE);
  }

  lemma {:induction false} LogLinesShowNothing(lines: seq<string>)
    ensures NothingShown(ShownLines(lines)) <==> forall i | 0 <= i < |lines| :: NothingShown(Shown(lines[i]))
  {
    hide NothingShown, Shown, EndsWithNewline;
    if lines == [] {
      assert NothingShown("") by { SchemeFreeShowsNothing(""); }
    } else {
      ShownShowsNothing(lines[0]);
      LogLinesShowNothing(lines[1..]);
      LinesShowNothing(Shown(lines[0]), ShownLines(lines[1..]));
      assert forall i | 1 <= i < |lines| :: lines[i] == lines[1..][i - 1];
    }
  }

  /**
   The log of a text, cut into chunks in any way, shows no userinfo exactly when none of its complete lines does
   where it is shown; the unfinished tail does not matter. It shows none if in each line that is short enough to
   be shown the userinfo of every URL can be hidden, and when all characters of the lines are printable, only then.
   */
  lemma LogShowsNothing(lines: seq<string>, tail: string, chunks: seq<string>)
    requires (forall i | 0 <= i < |lines| :: OneLine(lines[i])) && OneLine(tail)
    requires Concat(chunks) == Lines(lines) + tail
    ensures NothingShown(Consumed(chunks).0) <==> forall i | 0 <= i < |lines| :: NothingShown(Shown(lines[i]))
    ensures (forall i | 0 <= i < |lines| :: LineCanBeHidden(lines[i])) ==> NothingShown(Consumed(chunks).0)
    ensures (forall i | 0 <= i < |lines| :: Printable(lines[i])) ==>
              (NothingShown(Consumed(chunks).0) <==> forall i | 0 <= i < |lines| :: LineCanBeHidden(lines[i]))
  {
    hide LineCanBeHidden, OneLine, NothingShown, Shown, Printable;
    RedactorShowsLines(lines, tail, chunks);
    LogLinesShowNothing(lines);
    forall i | 0 <= i < |lines|
      ensures LineCanBeHidden(lines[i]) ==> NothingShown(Shown(lines[i]))
      ensures Printable(lines[i]) ==> (LineCanBeHidden(lines[i]) <==> NothingShown(Shown(lines[i])))
    {
      ShownShowsNothing(lines[i]);
    }
  }
}
