/** Error reports: written by the phone, reassembled from a byte stream by the Windows connection. */
module ErrorReports {
  import opened Octets
  import opened Utf8
  import opened Cursor
  import opened Framing

  const MAX_ERROR: nat := 1024
  const MAX_DESCRIPTION: nat := 2048
  const MAX_PENDING: nat := 4096
  const READ_SIZE: nat := 512

  /** severity is 0 for a warning and 1 for an error. */
  datatype Report = Report(severity: byte, error: Bytes, description: Bytes)

  /** The reports whose limits the Windows parser shares. */
  ghost predicate Acceptable(r: Report) {
    && r.severity <= 1
    && |r.error| <= 1024 && Allowed(r.error, true)
    && |r.description| <= 2048 && Allowed(r.description, true)
  }

  /** ByteBuffer.putShort keeps the low sixteen bits of a length. */
  function LowWord(n: nat): (w: nat)
    ensures w < 0x1_0000 && (n < 0x1_0000 ==> w == n)
  {
    n - n / 0x1_0000 * 0x1_0000
  }

  function FieldBytes(text: Bytes): Bytes {
    Be16(LowWord(|text|)) + text
  }

  function ReportBytes(r: Report): Bytes {
    [r.severity] + FieldBytes(r.error) + FieldBytes(r.description)
  }

  /** ErrorReport.serialize: the buffer has exactly the size that the fields need, also when a length is cut. */
  method Serialize(r: Report) returns (octets: array<byte>)
    ensures octets[..] == ReportBytes(r)
  {
    hide Be16, LowWord;
    var requiredSize := 0;
    requiredSize := requiredSize + 1;
    requiredSize := requiredSize + 2 + |r.error|;
    requiredSize := requiredSize + 2 + |r.description|;
    var buffer := new OutBuffer(requiredSize);
    buffer.Put([r.severity]);
    PutString(buffer, r.error);
    PutString(buffer, r.description);
    assert buffer.Written() == buffer.data[..];
    octets := buffer.data;
  }

  method PutString(buffer: OutBuffer, text: Bytes)
    requires buffer.Valid() && buffer.position + 2 + |text| <= buffer.data.Length
    modifies buffer, buffer.data
    ensures buffer.Valid() && buffer.Written() == old(buffer.Written()) + FieldBytes(text)
    ensures buffer.position == old(buffer.position) + 2 + |text|
  {
    hide Be16, LowWord;
    ghost var was := buffer.Written();
    buffer.Put(Be16(LowWord(|text|)));
    buffer.Put(text);
    assert was + Be16(LowWord(|text|)) + text == was + FieldBytes(text);
  }

  lemma FieldIsText(text: Bytes)
    requires |text| < 0x1_0000
    ensures FieldBytes(text) == TextBytes(text)
  {
    hide Be16;
  }

  // ---------------------------------------------------------------- one report

  ghost function TakeReport(s: Bytes): Read<Report> {
    match TakeU8(s)
    case Short => Short
    case Bad => Bad
    case Got(severity, s1) =>
      if severity > 1 then Bad else
      match TakeText(s1, MAX_ERROR, true)
      case Short => Short
      case Bad => Bad
      case Got(error, s2) =>
        match TakeText(s2, MAX_DESCRIPTION, true)
        case Short => Short
        case Bad => Bad
        case Got(description, s3) => Got(Report(severity, error, description), s3)
  }

  /** DeserializeErrorReport; the size limit of 64 KiB is never met because at most 4096 octets are pending. */
  method Deserialize(bytes: Bytes) returns (r: Read<Report>, consumed: nat)
    ensures r == TakeReport(bytes)
    ensures r.Got? ==> consumed <= |bytes| && r.rest == bytes[consumed..]
  {
    consumed := 0;
    var reader := new Reader(bytes);
    var severity := reader.U8();
    if severity.Short? {
      return Short, 0;
    }
    if severity.value > 1 {
      return Bad, 0;
    }
    var error := reader.Text(MAX_ERROR, true);
    if !error.Got? {
      return if error.Short? then Short else Bad, 0;
    }
    var description := reader.Text(MAX_DESCRIPTION, true);
    if !description.Got? {
      return if description.Short? then Short else Bad, 0;
    }
    consumed := reader.offset;
    r := Got(Report(severity.value, error.value, description.value), description.rest);
  }

  /** Every acceptable report is read back, whatever follows it. */
  lemma WrittenIsTaken(r: Report, rest: Bytes)
    requires Acceptable(r)
    ensures TakeReport(ReportBytes(r) + rest) == Got(r, rest)
  {
    var text, more := TextBytes(r.error), TextBytes(r.description) + rest;
    WrittenParts(r, rest);
    TakeWrittenText(r.error, more, MAX_ERROR, true);
    TakeWrittenText(r.description, rest, MAX_DESCRIPTION, true);
    var s := ReportBytes(r) + rest;
    hide TakeText, TextBytes, ReportBytes, Acceptable;
    assert s[1..] == text + more;
  }

  lemma WrittenParts(r: Report, rest: Bytes)
    requires |r.error| < 0x1_0000 && |r.description| < 0x1_0000
    ensures ReportBytes(r) + rest == [r.severity] + (TextBytes(r.error) + (TextBytes(r.description) + rest))
  {
    FieldIsText(r.error);
    FieldIsText(r.description);
    hide TextBytes, FieldBytes;
  }

  /** Whatever is read is acceptable, and its encoding is exactly the octets that were consumed. */
  lemma TakenWasWritten(s: Bytes)
    requires TakeReport(s).Got?
    ensures Acceptable(TakeReport(s).value) && s == ReportBytes(TakeReport(s).value) + TakeReport(s).rest
  {
    hide TakeText, TextBytes, FieldBytes;
    var s1 := s[1..];
    TakenTextWasWritten(s1, MAX_ERROR, true);
    FieldIsText(TakeText(s1, MAX_ERROR, true).value);
    var s2 := TakeText(s1, MAX_ERROR, true).rest;
    TakenTextWasWritten(s2, MAX_DESCRIPTION, true);
    FieldIsText(TakeText(s2, MAX_DESCRIPTION, true).value);
    assert s == [s[0]] + s1;
  }

  // ---------------------------------------------------------------- the stream

  ghost function CutReport(s: Bytes): Cut {
    match TakeReport(s)
    case Short => Incomplete
    case Bad => Malformed
    case Got(_, rest) => if |rest| < |s| then Whole(|s| - |rest|) else Malformed
  }

  lemma CutReportStable()
    ensures Stable(CutReport)
  {
    forall s ensures CutReport(s).Whole? ==> 1 <= CutReport(s).size <= |s| {
    }
    forall s, more ensures CutReport(s) != Incomplete ==> CutReport(s + more) == CutReport(s) {
      ExtendReport(s, more);
    }
  }

  /** What has been read, when more octets have arrived. */
  function Extended<T>(r: Read<T>, more: Bytes): Read<T> {
    if r.Got? then Got(r.value, r.rest + more) else r
  }

  lemma ExtendReport(s: Bytes, more: Bytes)
    ensures TakeReport(s) != Short ==> TakeReport(s + more) == Extended(TakeReport(s), more)
  {
    hide TakeText;
    if s != [] {
      var s1 := s[1..];
      assert (s + more)[1..] == s1 + more;
      TakeTextExtends(s1, more, MAX_ERROR, true);
      if TakeText(s1, MAX_ERROR, true).Got? {
        TakeTextExtends(TakeText(s1, MAX_ERROR, true).rest, more, MAX_DESCRIPTION, true);
      }
    }
  }

  /** An incomplete report is shorter than the longest report, so a further read cannot overflow the pending limit. */
  lemma IncompleteIsShort(s: Bytes)
    requires TakeReport(s).Short?
    ensures |s| < 1 + 2 + MAX_ERROR + 2 + MAX_DESCRIPTION
    ensures |s| + READ_SIZE <= MAX_PENDING
  {
  }

  ghost function Reports(messages: seq<Bytes>): seq<Report> {
    if messages == [] then []
    else Reports(messages[..|messages| - 1]) +
           (if TakeReport(messages[|messages| - 1]).Got? then [TakeReport(messages[|messages| - 1]).value] else [])
  }

  lemma {:induction false} ReportsConcatenate(a: seq<Bytes>, b: seq<Bytes>)
    ensures Reports(a + b) == Reports(a) + Reports(b)
  {
    hide TakeReport;
    if b == [] {
      assert a + b == a;
    } else {
      ReportsConcatenate(a, b[..|b| - 1]);
      assert (a + b)[..|a + b| - 1] == a + b[..|b| - 1];
    }
  }

  class Connection {
    var pendingBytes: Bytes
    var closed: bool
    var delivered: seq<Report>   // the calls of onBytesReceived
    ghost var progress: Progress

    constructor ()
      ensures Valid() && progress == FRESH
    {
      pendingBytes, closed, delivered, progress := [], false, [], FRESH;
    }

    ghost predicate Valid()
      reads this
    {
      && pendingBytes == progress.pending && closed == progress.rejected && delivered == Reports(progress.messages)
      && (closed || TakeReport(pendingBytes).Short?)
    }

    /**
     The completion handler of one read. The whole effect is that of parsing what was pending together
     with the new octets; the branch that rejects an oversized report is never taken.
     */
    method OnRead(chunk: Bytes)
      requires Valid() && !closed && |chunk| <= READ_SIZE
      modifies this
      ensures Valid() && progress == Feed(CutReport, old(progress), chunk)
    {
      hide TakeReport, Reports;
      IncompleteIsShort(pendingBytes);
      if |pendingBytes| + |chunk| > MAX_PENDING {
        assert false;
      }
      pendingBytes := pendingBytes + chunk;
      ghost var before := progress.messages;
      ghost var all := pendingBytes;
      progress := Progress(before, pendingBytes, false);
      assert Feed(CutReport, old(progress), chunk) == After(before, Greedy(CutReport, all));
      while pendingBytes != []
        invariant pendingBytes == progress.pending && !closed && !progress.rejected
        invariant delivered == Reports(progress.messages)
        invariant After(before, Greedy(CutReport, all)) == After(progress.messages, Greedy(CutReport, pendingBytes))
        decreases |pendingBytes|
      {
        var r, consumed := Deserialize(pendingBytes);
        if r.Short? {
          assert progress.messages + [] == progress.messages;
          return;
        }
        if r.Bad? || consumed == 0 {
          if r.Got? { TakenWasWritten(pendingBytes); }
          closed := true;
          pendingBytes := [];
          progress := Progress(progress.messages, [], true);
          assert progress.messages + [] == progress.messages;
          return;
        }
        delivered := delivered + [r.value];
        ghost var message := pendingBytes[..consumed];
        OneMoreReport(progress.messages, pendingBytes, consumed);
        pendingBytes := pendingBytes[consumed..];
        progress := Progress(progress.messages + [message], pendingBytes, false);
      }
      assert CutReport([]) == Incomplete by { CutReportStable(); }
      assert progress.messages + [] == progress.messages;
    }
  }

  lemma OneReport(s: Bytes, consumed: nat)
    requires TakeReport(s).Got? && consumed <= |s| && TakeReport(s).rest == s[consumed..]
    ensures consumed > 0 && CutReport(s) == Whole(consumed)
    ensures TakeReport(s[..consumed]) == Got(TakeReport(s).value, [])
  {
    TakenWasWritten(s);
    var r := TakeReport(s).value;
    WrittenIsTaken(r, []);
    assert ReportBytes(r) + [] == ReportBytes(r);
    assert s[..consumed] == ReportBytes(r);
  }

  lemma OneMoreReport(messages: seq<Bytes>, s: Bytes, consumed: nat)
    requires TakeReport(s).Got? && consumed <= |s| && TakeReport(s).rest == s[consumed..]
    ensures consumed > 0
    ensures Reports(messages + [s[..consumed]]) == Reports(messages) + [TakeReport(s).value]
    ensures After(messages, Greedy(CutReport, s)) == After(messages + [s[..consumed]], Greedy(CutReport, s[consumed..]))
  {
    OneReport(s, consumed);
    hide TakeReport;
    ReportsConcatenate(messages, [s[..consumed]]);
    AfterAfter(messages, [s[..consumed]], Greedy(CutReport, s[consumed..]));
    assert Greedy(CutReport, s) == After([s[..consumed]], Greedy(CutReport, s[consumed..]));
    assert Reports([s[..consumed]]) == [TakeReport(s).value];
  }

  // ---------------------------------------------------------------- phone to controller

  ghost predicate AllAcceptable(reports: seq<Report>) {
    forall i | 0 <= i < |reports| :: Acceptable(reports[i])
  }

  ghost function Sent(reports: seq<Report>): (messages: seq<Bytes>)
    ensures |messages| == |reports|
    ensures forall i | 0 <= i < |reports| :: messages[i] == ReportBytes(reports[i])
  {
    seq(|reports|, i requires 0 <= i < |reports| => ReportBytes(reports[i]))
  }

  lemma WrittenIsCut(r: Report)
    requires Acceptable(r)
    ensures TakeReport(ReportBytes(r)) == Got(r, []) && CutReport(ReportBytes(r)) == Whole(|ReportBytes(r)|)
  {
    hide TakeReport, FieldBytes, Acceptable;
    WrittenIsTaken(r, []);
    assert ReportBytes(r) != [];
    hide ReportBytes;
    assert ReportBytes(r) + [] == ReportBytes(r);
  }

  lemma SentAreExact(reports: seq<Report>)
    requires AllAcceptable(reports)
    ensures Exact(CutReport, Sent(reports))
  {
    forall i | 0 <= i < |reports| ensures CutReport(Sent(reports)[i]) == Whole(|Sent(reports)[i]|) {
      WrittenIsCut(reports[i]);
    }
  }

  lemma {:induction false} SentAreReports(reports: seq<Report>)
    requires AllAcceptable(reports)
    ensures Reports(Sent(reports)) == reports
  {
    hide ReportBytes, TakeReport, Acceptable;
    if reports != [] {
      var init, last := reports[..|reports| - 1], reports[|reports| - 1];
      SentAreReports(init);
      WrittenIsCut(last);
      assert Sent(reports)[..|reports| - 1] == Sent(init);
      assert reports == init + [last];
    }
  }

  /**
   The reports that the phone serialises are delivered in order and without loss, however the stream of
   their octets is cut into reads.
   */
  lemma ReportsArrive(reports: seq<Report>, chunks: seq<Bytes>)
    requires AllAcceptable(reports) && Framing.Flatten(chunks) == Framing.Flatten(Sent(reports))
    ensures var p := FeedAll(CutReport, chunks);
            Reports(p.messages) == reports && p.pending == [] && !p.rejected
  {
    CutReportStable();
    ChunkingIsIrrelevant(CutReport, chunks);
    SentAreReports(reports);
    SentAreExact(reports);
    SentIsReceived(CutReport, Sent(reports), []);
    assert Framing.Flatten(Sent(reports)) + [] == Framing.Flatten(chunks);
    assert Sent(reports) + [] == Sent(reports);
  }

  lemma {:induction false} DeliveredAreAcceptable(messages: seq<Bytes>)
    ensures AllAcceptable(Reports(messages))
  {
    hide TakeReport, Acceptable;
    if messages != [] {
      var last := messages[|messages| - 1];
      DeliveredAreAcceptable(messages[..|messages| - 1]);
      if TakeReport(last).Got? {
        TakenWasWritten(last);
      }
    }
  }

  /**
   What the phone serialises, cut into reads in any way, is delivered as it was exactly when every report is
   within the limits of the controller; a longer string does not come through, not even one whose length wraps.
   */
  lemma ReportsArriveExactly(reports: seq<Report>, chunks: seq<Bytes>)
    requires Framing.Flatten(chunks) == Framing.Flatten(Sent(reports))
    ensures var p := FeedAll(CutReport, chunks);
            Reports(p.messages) == reports && p.pending == [] && !p.rejected <==> AllAcceptable(reports)
  {
    hide Sent, Acceptable;
    if AllAcceptable(reports) {
      ReportsArrive(reports, chunks);
    }
    DeliveredAreAcceptable(FeedAll(CutReport, chunks).messages);
  }
}
