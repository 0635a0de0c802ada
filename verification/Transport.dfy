/** The transport as it runs (ts/src/tcp-transport.ts): two reads of the header, two loops over
    the size table, and a read loop that waits for the socket's buffer to fill. */
module Transport {
  import opened Wrappers
  import opened Bytes
  import opened Framing

  /** A socket: the bytes buffered so far and the chunks still to arrive. */
  class Socket {
    var buffer: seq<Byte>
    var arrivals: seq<seq<Byte>>

    constructor (arrivals: seq<seq<Byte>>)
      ensures this.buffer == [] && this.arrivals == arrivals
    {
      this.buffer, this.arrivals := [], arrivals;
    }

    /** Every byte not yet read, however it is split. */
    ghost function Stream(): seq<Byte>
      reads this
    {
      buffer + Flatten(arrivals)
    }

    /** `socket.read(len)`: exactly `len` bytes, or null while fewer are buffered. */
    method Read(len: nat) returns (buf: Option<seq<Byte>>)
      modifies this`buffer
      ensures |old(buffer)| < len ==> buf.None? && buffer == old(buffer)
      ensures |old(buffer)| >= len ==> buf == Some(old(buffer)[..len]) && buffer == old(buffer)[len..]
    {
      if |buffer| < len {
        return None;
      }
      buf := Some(buffer[..len]);
      buffer := buffer[len..];
    }

    /** The next "readable" event: one more chunk is in the buffer. Without one it never fires. */
    method Readable() returns (fired: bool)
      modifies this
      ensures fired == (old(arrivals) != [])
      ensures fired ==> buffer == old(buffer) + old(arrivals)[0] && arrivals == old(arrivals)[1..]
      ensures !fired ==> buffer == old(buffer) && arrivals == old(arrivals)
      ensures Stream() == old(Stream())
    {
      if arrivals == [] {
        return false;
      }
      Associative(buffer, arrivals[0], Flatten(arrivals[1..]));
      buffer := buffer + arrivals[0];
      arrivals := arrivals[1..];
      return true;
    }
  }

  datatype ReadResult = Bytes(buf: seq<Byte>) | InvalidLength | Starved

  /** What reading `len` bytes gives on a stream, all of it present at once. */
  function ReadBytesSpec(s: seq<Byte>, len: nat): ReadResult {
    if len == 0 then InvalidLength else if |s| < len then Starved else Bytes(s[..len])
  }

  lemma TakeFromBuffer(buffer: seq<Byte>, later: seq<Byte>, len: nat)
    requires len <= |buffer|
    ensures (buffer + later)[..len] == buffer[..len]
    ensures (buffer + later)[len..] == buffer[len..] + later
  {
  }

  /** A stream with its first `i` bytes gone, and then `j` more. */
  lemma DropTwice(s: seq<Byte>, i: nat, j: nat)
    requires i + j <= |s|
    ensures s[i..][j..] == s[i + j..] && s[i..][..j] == s[i..i + j]
  {
  }

  /** The sizes are read from the table alone. */
  lemma SizesOfPrefix(table: seq<Byte>, more: seq<Byte>, n: nat)
    requires 4 * n <= |table|
    ensures Sizes(table + more, n) == Sizes(table, n)
  {
    forall i | 0 <= i < n
      ensures Sizes(table + more, n)[i] == Sizes(table, n)[i]
    {
      SliceOfPrefix(table, more, 4 * i, 4 * i + 4);
    }
  }

  /** What is left to do once the header is in. */
  lemma AfterHeader(s: seq<Byte>, n: nat, h: nat, table: seq<Byte>, total: nat)
    requires |s| >= 4 && n == Count(s) < ARRAY_LIMIT && h == HeaderSize(n) <= |s|
    requires table == s[4..h] && total == WORD_SIZE * Sum(Sizes(table, n))
    ensures total == 0 ==> Receive(s) == Rejected(InvalidReadLength) && Consumed(s) == h
    ensures 0 < total && |s| < h + total ==> Receive(s) == Waiting && Consumed(s) == h
    ensures 0 < total && h + total <= |s| ==>
              Receive(s) == Received(s[..4] + table + s[h..h + total]) && Consumed(s) == h + total
  {
    TableOfStream(s, n, h);
    if h + total <= |s| {
      Reassemble(s, 4, h, h, h + total);
      assert s[..4] + s[4..h] + s[h..h] == s[..4] + s[4..h];
    }
  }

  lemma TableOfStream(s: seq<Byte>, n: nat, h: nat)
    requires 4 <= h <= |s| && 4 * n <= h - 4
    ensures Sizes(s[4..h], n) == Sizes(s[4..], n)
  {
    SizesOfPrefix(s[4..h], s[h..], n);
    assert s[4..] == s[4..h] + s[h..];
  }

  /** Reading the size table, in terms of the whole stream. */
  lemma HeaderRead(s: seq<Byte>, h: nat, segmentSizeSize: nat)
    requires |s| >= 4 && h == 4 + segmentSizeSize && segmentSizeSize > 0
    ensures ReadBytesSpec(s[4..], segmentSizeSize) == if |s| < h then Starved else Bytes(s[4..h])
    ensures |s| >= h ==> s[4..][segmentSizeSize..] == s[h..]
  {
    if |s| >= h {
      DropTwice(s, 4, segmentSizeSize);
    }
  }

  /** What a stream whose segments cannot be asked for gives. */
  lemma BeforeSegments(s: seq<Byte>)
    requires |s| >= 4
    ensures |s| < HeaderSize(Count(s)) ==> Receive(s) == Waiting && Consumed(s) == 4
    ensures |s| >= HeaderSize(Count(s)) && Count(s) >= ARRAY_LIMIT ==>
              Receive(s) == Rejected(InvalidArrayLength) && Consumed(s) == HeaderSize(Count(s))
  {
  }

  class TCPTransport {
    const socket: Socket

    constructor (socket: Socket)
      ensures this.socket == socket
    {
      this.socket := socket;
    }

    /** ts/src/tcp-transport.ts:61-73. The result depends on the stream, not on its chunks. */
    method ReadBytes(len: nat) returns (r: ReadResult)
      modifies socket
      ensures r == ReadBytesSpec(old(socket.Stream()), len)
      ensures socket.Stream() == if r.Bytes? then old(socket.Stream())[len..] else old(socket.Stream())
    {
      if len == 0 {
        return InvalidLength;
      }
      while true
        invariant socket.Stream() == old(socket.Stream())
        decreases |socket.arrivals|
      {
        ghost var before, later := socket.buffer, Flatten(socket.arrivals);
        var buf := socket.Read(len);
        if buf.Some? {
          TakeFromBuffer(before, later, len);
          return Bytes(buf.value);
        }
        var fired := socket.Readable();
        if !fired {
          return Starved;
        }
      }
    }

    /** The size table with its padding (ts/src/tcp-transport.ts:28-35). */
    method SizeTableLength(n: nat) returns (segmentSizeSize: nat)
      ensures 4 + segmentSizeSize == HeaderSize(n) == WORD_SIZE * (n / 2 + 1)
    {
      var offset := 4;
      segmentSizeSize := n * 4;
      offset := offset + segmentSizeSize;
      if offset % WORD_SIZE != 0 {
        var padding := WORD_SIZE - offset % WORD_SIZE;
        offset := offset + padding;
        segmentSizeSize := segmentSizeSize + padding;
      }
    }

    /** ts/src/tcp-transport.ts:38-41 */
    method ReadSizes(bufSegmentsSize: seq<Byte>, n: nat) returns (wordsPerSegment: array<nat>)
      requires 4 * n <= |bufSegmentsSize|
      ensures fresh(wordsPerSegment) && wordsPerSegment[..] == Sizes(bufSegmentsSize, n)
    {
      wordsPerSegment := new nat[n];
      for i := 0 to n
        invariant forall j :: 0 <= j < i ==> wordsPerSegment[j] == Sizes(bufSegmentsSize, n)[j]
      {
        wordsPerSegment[i] := Decode(bufSegmentsSize[4 * i..4 * i + 4]);
      }
    }

    /** ts/src/tcp-transport.ts:43-46 */
    method TotalWords(wordsPerSegment: array<nat>) returns (totalSegmentWords: nat)
      ensures totalSegmentWords == Sum(wordsPerSegment[..])
      ensures forall i :: 0 <= i <= wordsPerSegment.Length ==> Sum(wordsPerSegment[..i]) <= totalSegmentWords
    {
      totalSegmentWords := 0;
      for i := 0 to wordsPerSegment.Length
        invariant totalSegmentWords == Sum(wordsPerSegment[..i])
      {
        assert wordsPerSegment[..i + 1][..i] == wordsPerSegment[..i];
        totalSegmentWords := totalSegmentWords + wordsPerSegment[i];
      }
      assert wordsPerSegment[..wordsPerSegment.Length] == wordsPerSegment[..];
      forall i | 0 <= i <= wordsPerSegment.Length
        ensures Sum(wordsPerSegment[..i]) <= totalSegmentWords
      {
        PartialSums(wordsPerSegment[..], i);
        assert wordsPerSegment[..][..i] == wordsPerSegment[..i];
      }
    }

    /** ts/src/tcp-transport.ts:38-54: the sizes, the segments, and the whole frame. */
    method RecvSegments(n: nat, bufNumSegments: seq<Byte>, bufSegmentsSize: seq<Byte>, ghost s: seq<Byte>)
      returns (r: Receipt)
      requires |s| >= 4 && n == Count(s) < ARRAY_LIMIT && HeaderSize(n) <= |s|
      requires bufNumSegments == s[..4] && bufSegmentsSize == s[4..HeaderSize(n)]
      requires socket.Stream() == s[HeaderSize(n)..]
      modifies socket
      ensures r == Receive(s) && socket.Stream() == s[Consumed(s)..]
    {
      var wordsPerSegment := ReadSizes(bufSegmentsSize, n);
      var totalSegmentWords := TotalWords(wordsPerSegment);
      var totalSegmentSize := totalSegmentWords * WORD_SIZE;
      ghost var h := HeaderSize(n);
      AfterHeader(s, n, h, bufSegmentsSize, totalSegmentSize);
      var body := ReadBytes(totalSegmentSize);
      match body
      case InvalidLength => return Rejected(InvalidReadLength);
      case Starved => return Waiting;
      case Bytes(bufSegments) =>
        DropTwice(s, h, totalSegmentSize);
        return Received(bufNumSegments + bufSegmentsSize + bufSegments);
    }

    /** ts/src/tcp-transport.ts:26-54: the size table and what follows it. */
    method RecvAfterCount(n: nat, bufNumSegments: seq<Byte>, ghost s: seq<Byte>) returns (r: Receipt)
      requires |s| >= 4 && n == Count(s) && bufNumSegments == s[..4] && socket.Stream() == s[4..]
      modifies socket
      ensures r == Receive(s) && socket.Stream() == s[Consumed(s)..]
    {
      var segmentSizeSize := SizeTableLength(n);
      ghost var h := HeaderSize(n);
      BeforeSegments(s);
      var table := ReadBytes(segmentSizeSize);
      HeaderRead(s, h, segmentSizeSize);
      if !table.Bytes? {
        return Waiting;
      }
      if n >= ARRAY_LIMIT {
        return Rejected(InvalidArrayLength);
      }
      r := RecvSegments(n, bufNumSegments, table.buf, s);
    }

    /** ts/src/tcp-transport.ts:20-59, up to the point where the frame is handed to the message
        parser. */
    method RecvMessage() returns (r: Receipt)
      modifies socket
      ensures r == Receive(old(socket.Stream()))
      ensures socket.Stream() == old(socket.Stream())[Consumed(old(socket.Stream()))..]
    {
      var count := ReadBytes(4);
      if !count.Bytes? {
        return Waiting;
      }
      var n := Decode(count.buf) + 1;
      r := RecvAfterCount(n, count.buf, old(socket.Stream()));
    }
  }

  /** `receipts` were received from `start`; `left` calls on `now` make up the rest. */
  ghost predicate Underway(start: seq<Byte>, k: nat, receipts: seq<Receipt>, now: seq<Byte>, left: nat) {
    && ReceiveMany(start, k) == receipts + ReceiveMany(now, left)
    && Remainder(start, k) == Remainder(now, left)
  }

  lemma ReceiveStep(start: seq<Byte>, k: nat, receipts: seq<Receipt>, now: seq<Byte>, left: nat)
    requires Underway(start, k, receipts, now, left) && left > 0
    ensures var rest, more := now[Consumed(now)..], receipts + [Receive(now)];
            if Receive(now).Waiting? then ReceiveMany(start, k) == more && Remainder(start, k) == rest
            else Underway(start, k, more, rest, left - 1)
  {
    if !Receive(now).Waiting? {
      Regroup(receipts, Receive(now), ReceiveMany(now[Consumed(now)..], left - 1));
    }
  }

  lemma ReceiveStart(start: seq<Byte>, k: nat)
    ensures Underway(start, k, [], start, k)
  {
    assert [] + ReceiveMany(start, k) == ReceiveMany(start, k);
  }

  lemma ReceiveEnd(start: seq<Byte>, k: nat, receipts: seq<Receipt>, now: seq<Byte>)
    requires Underway(start, k, receipts, now, 0)
    ensures ReceiveMany(start, k) == receipts && Remainder(start, k) == now
  {
    assert receipts + [] == receipts;
  }

  lemma Regroup(a: seq<Receipt>, r: Receipt, b: seq<Receipt>)
    ensures a + ([r] + b) == a + [r] + b
  {
  }

  /** The connection's receive loop: one message after another. */
  method ReceiveLoop(transport: TCPTransport, k: nat) returns (receipts: seq<Receipt>)
    modifies transport.socket
    ensures receipts == ReceiveMany(old(transport.socket.Stream()), k)
    ensures transport.socket.Stream() == Remainder(old(transport.socket.Stream()), k)
  {
    receipts := [];
    var left := k;
    ghost var start := transport.socket.Stream();
    ReceiveStart(start, k);
    while left > 0
      invariant left >= 0
      invariant Underway(start, k, receipts, transport.socket.Stream(), left)
    {
      ReceiveStep(start, k, receipts, transport.socket.Stream(), left);
      var r := transport.RecvMessage();
      receipts := receipts + [r];
      if r.Waiting? {
        return;
      }
      left := left - 1;
    }
    ReceiveEnd(start, k, receipts, transport.socket.Stream());
  }

  /** Chunking independence: frames sent as one byte stream come out the same, in order, however
      the network cuts the stream into arrivals, and what follows them stays unread. */
  method ReceivePackets(socket: Socket, ghost packets: seq<Packet>, ghost rest: seq<Byte>, k: nat)
    returns (receipts: seq<Receipt>)
    requires AllValid(packets) && k == |packets|
    requires socket.Stream() == Framing.Stream(packets) + rest
    modifies socket
    ensures receipts == Receipts(packets) && socket.Stream() == rest
  {
    var transport := new TCPTransport(socket);
    StreamRoundTrip(packets, rest);
    receipts := ReceiveLoop(transport, k);
  }
}
