/** OCAM v2 framing over a byte stream that the network cuts into pieces of its own choosing. */
module Wire {
  import opened Octets

  const VERSION: byte := 2
  const MAX_PAYLOAD: nat := 0x1_0000
  const HEADER_SIZE: nat := 10
  const MAGIC: Bytes := [0x4F, 0x43, 0x41, 0x4D]

  const SERVER_HELLO: byte := 1
  const CLIENT_AUTH: byte := 2
  const SERVER_AUTH: byte := 3

  datatype Frame = Frame(kind: byte, payload: Bytes)

  function Header(kind: byte, size: nat): (h: Bytes)
    requires size < 0x1_0000_0000
    ensures |h| == HEADER_SIZE
  {
    MAGIC + [VERSION, kind] + Be32(size)
  }

  function FrameBytes(f: Frame): Bytes
    requires |f.payload| <= MAX_PAYLOAD
  {
    Header(f.kind, |f.payload|) + f.payload
  }

  /** A frame on the wire: the magic, version 2, the type, the size in four octets, and at most 65536 octets. */
  lemma FrameOnTheWire(f: Frame)
    requires |f.payload| <= 65_536
    ensures var b := FrameBytes(f);
            && |b| == 10 + |f.payload| && b[..4] == Ascii("OCAM") && b[4] == 2 && b[5] == f.kind
            && FromBe32(b[6], b[7], b[8], b[9]) == |f.payload| && b[10..] == f.payload
  {
    Be32Inverse(|f.payload|);
  }

  /** The type and the size can be read back from a header, so authenticating a header authenticates both. */
  lemma HeaderInjective(k: byte, m: nat, l: byte, n: nat)
    requires m < 0x1_0000_0000 && n < 0x1_0000_0000
    requires Header(k, m) == Header(l, n)
    ensures k == l && m == n
  {
    var h := Header(k, m);
    assert h[5] == k && Header(l, n)[5] == l;
    assert h[6..] == Be32(m) && Header(l, n)[6..] == Be32(n);
    Be32Inverse(m);
    Be32Inverse(n);
    assert Be32(m) == Be32(n);
  }

  /** A stream begins with at most one frame: where the first frame ends is decided by its octets. */
  lemma FrameBytesPrefixFree(f: Frame, g: Frame, s: Bytes, t: Bytes)
    requires |f.payload| <= MAX_PAYLOAD && |g.payload| <= MAX_PAYLOAD
    requires FrameBytes(f) + s == FrameBytes(g) + t
    ensures f == g && s == t
  {
    var stream := FrameBytes(f) + s;
    assert stream[..10] == Header(f.kind, |f.payload|);
    assert stream[..10] == Header(g.kind, |g.payload|);
    HeaderInjective(f.kind, |f.payload|, g.kind, |g.payload|);
    assert stream[10..10 + |f.payload|] == f.payload;
    assert stream[10..10 + |f.payload|] == g.payload;
    assert stream[10 + |f.payload|..] == s;
    assert stream[10 + |f.payload|..] == t;
  }

  ghost predicate StartsWithFrame(stream: Bytes) {
    exists f: Frame :: |f.payload| <= MAX_PAYLOAD && FrameBytes(f) <= stream
  }

  /** What one poll-and-transfer attempt on the socket meets. */
  datatype Readiness = Ready(count: nat) | Interrupted | TimedOut | Broken

  class Socket {
    var incoming: Bytes               // what the network delivers, in order
    var outgoing: Bytes               // what this end has written, in order
    var schedule: seq<Readiness>      // the network's choices for the attempts to come

    constructor (incoming: Bytes, schedule: seq<Readiness>)
      ensures this.incoming == incoming && this.schedule == schedule && outgoing == []
    {
      this.incoming, this.schedule, outgoing := incoming, schedule, [];
    }
  }

  /** The next n attempts all move something. */
  ghost predicate Willing(schedule: seq<Readiness>, n: nat) {
    |schedule| >= n && forall i | 0 <= i < n :: schedule[i].Ready? && schedule[i].count > 0
  }

  /** At most n attempts have been made in between. */
  ghost predicate Spent(before: seq<Readiness>, after: seq<Readiness>, n: nat) {
    exists used :: 0 <= used <= n && used <= |before| && after == before[used..]
  }

  lemma StillWilling(before: seq<Readiness>, after: seq<Readiness>, n: nat, more: nat)
    requires Willing(before, n + more) && Spent(before, after, n)
    ensures Willing(after, more)
    ensures forall later, m: nat :: Spent(after, later, m) ==> Spent(before, later, n + m)
  {
    var used :| 0 <= used <= n && used <= |before| && after == before[used..];
    forall later, m: nat | Spent(after, later, m) ensures Spent(before, later, n + m) {
      var u :| 0 <= u <= m && u <= |after| && later == after[u..];
      assert later == before[used + u..];
    }
  }

  /** Moves data.Length octets in or out; `moved` is how many went through before the call returned. */
  method Transfer(socket: Socket, data: array<byte>, writing: bool) returns (ok: bool, ghost moved: nat)
    modifies socket, data
    ensures moved <= data.Length && (ok <==> moved == data.Length)
    ensures writing ==> data[..] == old(data[..]) && socket.incoming == old(socket.incoming)
    ensures writing ==> socket.outgoing == old(socket.outgoing) + data[..moved]
    ensures !writing ==> socket.outgoing == old(socket.outgoing)
    ensures !writing ==> old(socket.incoming) == data[..moved] + socket.incoming
    ensures Willing(old(socket.schedule), data.Length) && (writing || |old(socket.incoming)| >= data.Length) ==>
              ok && Spent(old(socket.schedule), socket.schedule, data.Length)
  {
    ghost var used := 0;
    ghost var willing := Willing(socket.schedule, data.Length) && (writing || |socket.incoming| >= data.Length);
    var offset := 0;
    while offset < data.Length
      invariant 0 <= offset <= data.Length
      invariant writing ==> data[..] == old(data[..]) && socket.incoming == old(socket.incoming)
      invariant writing ==> socket.outgoing == old(socket.outgoing) + data[..offset]
      invariant !writing ==> socket.outgoing == old(socket.outgoing)
      invariant !writing ==> old(socket.incoming) == data[..offset] + socket.incoming
      invariant 0 <= used <= |old(socket.schedule)| && socket.schedule == old(socket.schedule)[used..]
      invariant willing ==> used <= offset
      decreases |socket.schedule|
    {
      if socket.schedule == [] {
        return false, offset;
      }
      var attempt := socket.schedule[0];
      assert willing ==> attempt == old(socket.schedule)[used];
      socket.schedule, used := socket.schedule[1..], used + 1;
      match attempt {
        case Interrupted =>
          continue;
        case TimedOut =>
          return false, offset;
        case Broken =>
          return false, offset;
        case Ready(limit) =>
          var count := if limit < data.Length - offset then limit else data.Length - offset;
          if !writing && count > |socket.incoming| {
            count := |socket.incoming|;
          }
          if count == 0 {
            return false, offset;
          }
          if writing {
            WritePiece(socket, data, offset, count);
          } else {
            ReadPiece(socket, data, offset, count);
          }
          offset := offset + count;
      }
    }
    return true, offset;
  }

  method WritePiece(socket: Socket, data: array<byte>, offset: nat, count: nat)
    requires offset + count <= data.Length
    modifies socket`outgoing
    ensures socket.outgoing == old(socket.outgoing) + data[offset..offset + count]
    ensures forall prefix: Bytes {:trigger prefix + data[..offset]} ::
              prefix + data[..offset] + data[offset..offset + count] == prefix + data[..offset + count]
  {
    socket.outgoing := socket.outgoing + data[offset..offset + count];
    assert data[..offset] + data[offset..offset + count] == data[..offset + count];
  }

  method ReadPiece(socket: Socket, data: array<byte>, offset: nat, count: nat)
    requires offset + count <= data.Length && count <= |socket.incoming|
    modifies socket`incoming, data
    ensures old(data[..offset] + socket.incoming) == data[..offset + count] + socket.incoming
  {
    forall i | offset <= i < offset + count {
      data[i] := socket.incoming[i - offset];
    }
    socket.incoming := socket.incoming[count..];
  }

  method WriteOctets(socket: Socket, octets: Bytes) returns (ok: bool, ghost moved: nat)
    modifies socket
    ensures moved <= |octets| && (ok <==> moved == |octets|)
    ensures socket.incoming == old(socket.incoming)
    ensures socket.outgoing == old(socket.outgoing) + octets[..moved]
    ensures Willing(old(socket.schedule), |octets|) ==>
              ok && Spent(old(socket.schedule), socket.schedule, |octets|)
  {
    var buffer := new byte[|octets|](i requires 0 <= i < |octets| => octets[i]);
    assert buffer[..] == octets;
    ok, moved := Transfer(socket, buffer, true);
  }

  method ReadOctets(socket: Socket, size: nat) returns (ok: bool, octets: Bytes)
    modifies socket
    ensures socket.outgoing == old(socket.outgoing)
    ensures ok ==> |octets| == size && old(socket.incoming) == octets + socket.incoming
    ensures Willing(old(socket.schedule), size) && |old(socket.incoming)| >= size ==>
              ok && Spent(old(socket.schedule), socket.schedule, size)
  {
    var buffer := new byte[size];
    ghost var moved;
    ok, moved := Transfer(socket, buffer, false);
    octets := buffer[..];
  }

  /** Writes one frame; when it fails, what got out is a proper prefix of that frame. */
  method SendFrame(socket: Socket, f: Frame) returns (ok: bool)
    modifies socket
    ensures socket.incoming == old(socket.incoming)
    ensures ok ==> |f.payload| <= MAX_PAYLOAD && socket.outgoing == old(socket.outgoing) + FrameBytes(f)
    ensures |f.payload| > MAX_PAYLOAD ==> socket.outgoing == old(socket.outgoing)
    ensures !ok && |f.payload| <= MAX_PAYLOAD ==>
              exists n :: 0 <= n < |FrameBytes(f)| && socket.outgoing == old(socket.outgoing) + FrameBytes(f)[..n]
    ensures |f.payload| <= MAX_PAYLOAD && Willing(old(socket.schedule), HEADER_SIZE + |f.payload|) ==>
              ok && Spent(old(socket.schedule), socket.schedule, HEADER_SIZE + |f.payload|)
  {
    hide Willing, Spent;
    if |f.payload| > MAX_PAYLOAD {
      return false;
    }
    ghost var schedule := socket.schedule;
    if Willing(schedule, HEADER_SIZE + |f.payload|) { LessWilling(schedule, HEADER_SIZE, |f.payload|); }
    var header := Header(f.kind, |f.payload|);
    ghost var moved;
    ok, moved := WriteOctets(socket, header);
    FrameGoesOut(old(socket.outgoing), f, moved);
    hide Header, FrameBytes;
    if Willing(schedule, HEADER_SIZE + |f.payload|) {
      StillWilling(schedule, socket.schedule, HEADER_SIZE, |f.payload|);
    }
    NothingSpent(socket.schedule);
    if ok && f.payload != [] {
      ok, moved := WriteOctets(socket, f.payload);
      FrameGoesOut(old(socket.outgoing), f, HEADER_SIZE + moved);
    }
  }

  /** What has gone out after some octets of a frame: part of its header, or its header and part of its payload. */
  lemma FrameGoesOut(before: Bytes, f: Frame, n: nat)
    requires |f.payload| <= MAX_PAYLOAD && n <= HEADER_SIZE + |f.payload|
    ensures var h := Header(f.kind, |f.payload|);
            && |FrameBytes(f)| == HEADER_SIZE + |f.payload|
            && before + FrameBytes(f)[..n] ==
                 (if n <= HEADER_SIZE then before + h[..n]
                  else before + h[..HEADER_SIZE] + f.payload[..n - HEADER_SIZE])
            && (n == HEADER_SIZE + |f.payload| ==> FrameBytes(f)[..n] == FrameBytes(f))
            && (n == HEADER_SIZE ==> FrameBytes(f)[..n] == h[..n])
  {
    hide Header;
    var h := Header(f.kind, |f.payload|);
    assert n > HEADER_SIZE ==> FrameBytes(f)[..n] == h[..HEADER_SIZE] + f.payload[..n - HEADER_SIZE];
    assert n <= HEADER_SIZE ==> FrameBytes(f)[..n] == h[..n];
  }

  /**
   Reads one frame. Success means that the stream began with exactly the octets of that frame,
   however the network had cut it, and that nothing after them was consumed.
   */
  method ReceiveFrame(socket: Socket) returns (ok: bool, f: Frame)
    modifies socket
    ensures socket.outgoing == old(socket.outgoing)
    ensures ok ==> |f.payload| <= 65_536 && old(socket.incoming) == FrameBytes(f) + socket.incoming
    ensures StartsWithFrame(old(socket.incoming)) && Willing(old(socket.schedule), HEADER_SIZE + MAX_PAYLOAD) ==>
              ok && Spent(old(socket.schedule), socket.schedule, HEADER_SIZE + MAX_PAYLOAD)
  {
    hide Willing, Spent, StartsWithFrame, Header;
    ghost var schedule := socket.schedule;
    if Willing(schedule, HEADER_SIZE + MAX_PAYLOAD) { LessWilling(schedule, HEADER_SIZE, MAX_PAYLOAD); }
    f := Frame(0, []);
    var kind, size;
    ok, kind, size := ReceiveHeader(socket);
    if !ok {
      return;
    }
    if Willing(schedule, HEADER_SIZE + MAX_PAYLOAD) && Spent(schedule, socket.schedule, HEADER_SIZE) {
      StillWilling(schedule, socket.schedule, HEADER_SIZE, MAX_PAYLOAD);
      LessWilling(socket.schedule, size, MAX_PAYLOAD - size);
    }
    NothingSpent(socket.schedule);
    SpentMore(size);
    f := Frame(kind, []);
    if size != 0 {
      var payload;
      ok, payload := ReadOctets(socket, size);
      f := Frame(kind, payload);
    }
  }

  method ReceiveHeader(socket: Socket) returns (ok: bool, kind: byte, size: nat)
    modifies socket
    ensures socket.outgoing == old(socket.outgoing)
    ensures ok ==> size <= MAX_PAYLOAD && old(socket.incoming) == Header(kind, size) + socket.incoming
    ensures StartsWithFrame(old(socket.incoming)) && Willing(old(socket.schedule), HEADER_SIZE) ==>
              ok && size <= |socket.incoming| && Spent(old(socket.schedule), socket.schedule, HEADER_SIZE)
  {
    hide Willing, Spent;
    ghost var stream := socket.incoming;
    if StartsWithFrame(stream) { FrameStart(stream); }
    kind, size := 0, 0;
    var header;
    ok, header := ReadOctets(socket, HEADER_SIZE);
    assert ok ==> stream[..HEADER_SIZE] == header;
    if !ok || header[..4] != MAGIC || header[4] != VERSION {
      return false, kind, size;
    }
    kind, size := header[5], FromBe32(header[6], header[7], header[8], header[9]);
    if size > MAX_PAYLOAD {
      return false, kind, size;
    }
    HeaderFromFields(header);
  }

  lemma LessWilling(schedule: seq<Readiness>, n: nat, more: nat)
    requires Willing(schedule, n + more)
    ensures Willing(schedule, n)
  {
  }

  lemma NothingSpent(schedule: seq<Readiness>)
    ensures Spent(schedule, schedule, 0)
  {
    assert schedule[0..] == schedule;
  }

  lemma SpentMore(size: nat)
    requires size <= MAX_PAYLOAD
    ensures forall a, b :: Spent(a, b, size) ==> Spent(a, b, MAX_PAYLOAD)
    ensures forall a, b :: Spent(a, b, 0) ==> Spent(a, b, MAX_PAYLOAD)
  {
  }

  lemma FrameStart(stream: Bytes)
    requires StartsWithFrame(stream)
    ensures |stream| >= HEADER_SIZE && stream[..HEADER_SIZE][..4] == MAGIC && stream[4] == VERSION
    ensures var size := FromBe32(stream[6], stream[7], stream[8], stream[9]);
            size <= MAX_PAYLOAD && HEADER_SIZE + size <= |stream|
  {
    var f: Frame :| |f.payload| <= MAX_PAYLOAD && FrameBytes(f) <= stream;
    var h := Header(f.kind, |f.payload|);
    assert stream[..HEADER_SIZE] == h && h[..4] == MAGIC;
    assert stream[6..10] == h[6..10] == Be32(|f.payload|);
    Be32Inverse(|f.payload|);
    assert stream[6] == stream[6..10][0] && stream[7] == stream[6..10][1];
    assert stream[8] == stream[6..10][2] && stream[9] == stream[6..10][3];
  }

  lemma HeaderFromFields(h: Bytes)
    requires |h| == HEADER_SIZE && h[..4] == MAGIC && h[4] == VERSION
    ensures h == Header(h[5], FromBe32(h[6], h[7], h[8], h[9]))
  {
    Be32OfOctets(h[6], h[7], h[8], h[9]);
    assert h == h[..4] + [h[4], h[5]] + [h[6], h[7], h[8], h[9]];
  }
}
