/** Text as lines that newlines end. */
module TextLines {
  /** The number of characters before the first newline. */
  function LineLength(s: string): (n: nat)
    ensures n <= |s| && (n < |s| ==> s[n] == '\n')
    ensures forall i | 0 <= i < n :: s[i] != '\n'
  {
    if s == "" || s[0] == '\n' then 0 else 1 + LineLength(s[1..])
  }

  predicate OneLine(s: string) {
    forall i | 0 <= i < |s| :: s[i] != '\n'
  }

  lemma LineLengthIs(line: string, rest: string)
    requires OneLine(line)
    ensures LineLength(line + ("\n" + rest)) == |line|
    ensures LineLength(line) == |line|
  {
    var s := line + ("\n" + rest);
    assert s[|line|] == '\n' && forall i | 0 <= i < |line| :: s[i] == line[i];
  }

  lemma SplitLine(s: string)
    ensures var n := LineLength(s); OneLine(s[..n]) && (n < |s| ==> s == s[..n] + ("\n" + s[n + 1..]))
  {
    var n := LineLength(s);
    hide LineLength;
    if n < |s| {
      SplitAt(s, n);
      assert [s[n]] == "\n";
    }
  }

  lemma SplitAt(s: string, n: nat)
    requires n < |s|
    ensures s == s[..n] + ([s[n]] + s[n + 1..])
  {
  }

  function Lines(lines: seq<string>): string {
    if lines == [] then "" else lines[0] + ("\n" + Lines(lines[1..]))
  }

  /** The lines that std::getline yields: a last line without a newline counts if it is not empty. */
  function LinesOf(text: string): seq<string>
    decreases |text|
  {
    if text == "" then []
    else
      var n := LineLength(text);
      [text[..n]] + if n == |text| then [] else LinesOf(text[n + 1..])
  }

  ghost predicate AllOneLine(lines: seq<string>) {
    forall i | 0 <= i < |lines| :: OneLine(lines[i])
  }

  lemma {:induction false} LinesOfLines(lines: seq<string>)
    requires AllOneLine(lines)
    ensures LinesOf(Lines(lines)) == lines
  {
    hide OneLine, LineLength;
    if lines != [] {
      var rest := Lines(lines[1..]);
      var text := lines[0] + ("\n" + rest);
      LineLengthIs(lines[0], rest);
      assert text[..|lines[0]|] == lines[0] && text[|lines[0]| + 1..] == rest;
      LinesOfLines(lines[1..]);
    }
  }

  lemma {:induction false} LinesOfAreLines(text: string)
    ensures AllOneLine(LinesOf(text))
    decreases |text|
  {
    hide OneLine;
    if text != "" {
      SplitLine(text);
      var n := LineLength(text);
      if n < |text| {
        LinesOfAreLines(text[n + 1..]);
      }
    }
  }
}
