/**
 Messages in a byte stream that arrives in pieces. A cutter looks at the octets received so far and
 says where the first message ends; a stable cutter does not change its mind when more octets arrive.
 */
module Framing {
  import opened Octets

  datatype Cut = Incomplete | Malformed | Whole(size: nat)

  type Cutter = Bytes -> Cut

  ghost predicate Stable(cut: Cutter) {
    && cut([]) == Incomplete
    && (forall s :: cut(s).Whole? ==> 1 <= cut(s).size <= |s|)
    && (forall s, t {:trigger cut(s + t)} :: cut(s) != Incomplete ==> cut(s + t) == cut(s))
  }

  /** What has been delivered, what is still pending, and whether the stream has been rejected. */
  datatype Progress = Progress(messages: seq<Bytes>, pending: Bytes, rejected: bool)

  const FRESH := Progress([], [], false)

  function After(messages: seq<Bytes>, p: Progress): Progress {
    p.(messages := messages + p.messages)
  }

  /** One greedy parse of a whole stream. */
  function Greedy(cut: Cutter, s: Bytes): Progress
    decreases |s|
  {
    match cut(s)
    case Incomplete => Progress([], s, false)
    case Malformed => Progress([], [], true)
    case Whole(n) =>
      if 1 <= n <= |s| then After([s[..n]], Greedy(cut, s[n..])) else Progress([], [], true)
  }

  /** Receiving one more piece: what is pending is parsed again together with it. */
  function Feed(cut: Cutter, p: Progress, chunk: Bytes): Progress {
    if p.rejected then p else After(p.messages, Greedy(cut, p.pending + chunk))
  }

  function FeedAll(cut: Cutter, chunks: seq<Bytes>): Progress {
    if chunks == [] then FRESH else Feed(cut, FeedAll(cut, chunks[..|chunks| - 1]), chunks[|chunks| - 1])
  }

  function Flatten(chunks: seq<Bytes>): Bytes {
    if chunks == [] then [] else Flatten(chunks[..|chunks| - 1]) + chunks[|chunks| - 1]
  }

  /** More octets after s continue the parse exactly where s left it. */
  lemma {:induction false} GreedyContinues(cut: Cutter, s: Bytes, t: Bytes)
    requires Stable(cut)
    ensures Greedy(cut, s + t) == Feed(cut, Greedy(cut, s), t)
    decreases |s|
  {
    match cut(s)
    case Incomplete =>
    case Malformed =>
      assert cut(s + t) == Malformed;
    case Whole(n) =>
      assert cut(s + t) == Whole(n);
      assert (s + t)[..n] == s[..n] && (s + t)[n..] == s[n..] + t;
      GreedyContinues(cut, s[n..], t);
      AfterFeed(cut, [s[..n]], Greedy(cut, s[n..]), t);
  }

  lemma AfterFeed(cut: Cutter, messages: seq<Bytes>, p: Progress, t: Bytes)
    ensures Feed(cut, After(messages, p), t) == After(messages, Feed(cut, p, t))
  {
    if !p.rejected {
      var q := Greedy(cut, p.pending + t);
      assert messages + p.messages + q.messages == messages + (p.messages + q.messages);
    }
  }

  /** However a stream is cut into pieces, the result is that of one greedy parse of all of it. */
  lemma {:induction false} ChunkingIsIrrelevant(cut: Cutter, chunks: seq<Bytes>)
    requires Stable(cut)
    ensures FeedAll(cut, chunks) == Greedy(cut, Flatten(chunks))
  {
    if chunks != [] {
      var rest := chunks[..|chunks| - 1];
      ChunkingIsIrrelevant(cut, rest);
      GreedyContinues(cut, Flatten(rest), chunks[|chunks| - 1]);
    }
  }

  /** What stays pending is an incomplete message. */
  lemma {:induction false} PendingIsIncomplete(cut: Cutter, s: Bytes)
    requires Stable(cut)
    ensures Greedy(cut, s).rejected || cut(Greedy(cut, s).pending) == Incomplete
    ensures Greedy(cut, s).rejected ==> Greedy(cut, s).pending == []
    decreases |s|
  {
    if cut(s).Whole? {
      PendingIsIncomplete(cut, s[cut(s).size..]);
    }
  }

  /** The cutter delimits every one of these messages exactly. */
  ghost predicate Exact(cut: Cutter, messages: seq<Bytes>) {
    forall i | 0 <= i < |messages| :: messages[i] != [] && cut(messages[i]) == Whole(|messages[i]|)
  }

  lemma OneMessage(cut: Cutter, message: Bytes, tail: Bytes)
    requires Stable(cut) && message != [] && cut(message) == Whole(|message|)
    ensures Greedy(cut, message + tail) == After([message], Greedy(cut, tail))
  {
    assert cut(message + tail) == Whole(|message|);
    assert (message + tail)[..|message|] == message && (message + tail)[|message|..] == tail;
  }

  lemma {:induction false} FlattenFirst(first: Bytes, rest: seq<Bytes>)
    ensures Flatten([first] + rest) == first + Flatten(rest)
  {
    if rest != [] {
      var init := rest[..|rest| - 1];
      FlattenFirst(first, init);
      assert ([first] + rest)[..|rest|] == [first] + init;
    }
  }

  lemma FlattenSplit(messages: seq<Bytes>, tail: Bytes)
    requires messages != []
    ensures Flatten(messages) + tail == messages[0] + (Flatten(messages[1..]) + tail)
  {
    FlattenFirst(messages[0], messages[1..]);
    assert [messages[0]] + messages[1..] == messages;
  }

  lemma AfterAfter(a: seq<Bytes>, b: seq<Bytes>, p: Progress)
    ensures After(a, After(b, p)) == After(a + b, p)
  {
    assert a + (b + p.messages) == a + b + p.messages;
  }

  /** A sender that concatenates messages is understood message by message. */
  lemma {:induction false} SentIsReceived(cut: Cutter, messages: seq<Bytes>, tail: Bytes)
    requires Stable(cut) && Exact(cut, messages)
    ensures Greedy(cut, Flatten(messages) + tail) == After(messages, Greedy(cut, tail))
    decreases |messages|
  {
    if messages == [] {
      assert Flatten(messages) + tail == tail;
      assert [] + Greedy(cut, tail).messages == Greedy(cut, tail).messages;
    } else {
      var first, rest := messages[0], messages[1..];
      FlattenSplit(messages, tail);
      OneMessage(cut, first, Flatten(rest) + tail);
      SentIsReceived(cut, rest, tail);
      AfterAfter([first], rest, Greedy(cut, tail));
      assert [first] + rest == messages;
    }
  }

  /** Nothing is lost or invented: the delivered messages and what is pending make up the stream. */
  lemma {:induction false} ReceivedWasSent(cut: Cutter, s: Bytes)
    requires !Greedy(cut, s).rejected
    ensures s == Flatten(Greedy(cut, s).messages) + Greedy(cut, s).pending
    decreases |s|
  {
    if cut(s).Whole? {
      var n := cut(s).size;
      ReceivedWasSent(cut, s[n..]);
      Contents(s[..n], Greedy(cut, s[n..]));
      assert s == s[..n] + s[n..];
    }
  }

  lemma Contents(first: Bytes, p: Progress)
    ensures var q := After([first], p);
            Flatten(q.messages) + q.pending == first + (Flatten(p.messages) + p.pending)
  {
    var q := After([first], p);
    FlattenSplit(q.messages, q.pending);
    assert q.messages[1..] == p.messages;
  }
}
