/** The framing of messages on a byte stream (Cap'n Proto encoding specification, "Serialization
    Over a Stream"), and what one `recvMessage` makes of the bytes that arrive
    (ts/src/tcp-transport.ts:20-59). */
module Framing {
  import opened Wrappers
  import opened Bytes

  const WORD_SIZE := 8

  const ARRAY_LIMIT := 0x1_0000_0000             // `new Array(n)` throws from here on

  // ---------------------------------------------------------------------------------------
  // The standard's encoder

  /** Padding that brings the count and `n` sizes to a word boundary. */
  function PaddingSize(n: nat): nat {
    if n % 2 == 0 then 4 else 0
  }

  /** The count word, the size table and the padding. */
  function HeaderSize(n: nat): nat {
    4 + 4 * n + PaddingSize(n)
  }

  /** A message is a non-empty list of segments of whole words. */
  predicate Encodable(m: seq<seq<Byte>>) {
    && 0 < |m| < ARRAY_LIMIT
    && (forall i :: 0 <= i < |m| ==> |m[i]| % WORD_SIZE == 0 && |m[i]| / WORD_SIZE < Limit(4))
  }

  /** The standard allows a message of no words at all; the code refuses it. */
  predicate ValidMessage(m: seq<seq<Byte>>) {
    Encodable(m) && Flatten(m) != []
  }

  function Flatten(chunks: seq<seq<Byte>>): seq<Byte> {
    if chunks == [] then [] else chunks[0] + Flatten(chunks[1..])
  }

  function SizeTable(m: seq<seq<Byte>>): (s: seq<Byte>)
    ensures |s| == 4 * |m|
  {
    if m == [] then [] else Encode(|m[0]| / WORD_SIZE, 4) + SizeTable(m[1..])
  }

  /** The padding bytes are not looked at by the receiver, so they are a parameter. */
  function Frame(m: seq<seq<Byte>>, padding: seq<Byte>): seq<Byte>
    requires |m| > 0
  {
    Encode(|m| - 1, 4) + SizeTable(m) + padding + Flatten(m)
  }

  // ---------------------------------------------------------------------------------------
  // The receiver

  datatype Fault = InvalidReadLength | InvalidArrayLength

  datatype Receipt =
    | Received(frame: seq<Byte>)
    | Rejected(fault: Fault)
    | Waiting                        // the bytes that complete the frame have not arrived

  /** The segment count a stream declares. */
  function Count(s: seq<Byte>): nat
    requires |s| >= 4
  {
    Decode(s[..4]) + 1
  }

  function Sizes(table: seq<Byte>, n: nat): (r: seq<nat>)
    requires 4 * n <= |table|
    ensures |r| == n
  {
    seq(n, i requires 0 <= i < n => Decode(table[4 * i..4 * i + 4]))
  }

  function Sum(xs: seq<nat>): nat {
    if xs == [] then 0 else Sum(xs[..|xs| - 1]) + xs[|xs| - 1]
  }

  /** The bytes of all segments a complete header declares. */
  function BodySize(s: seq<Byte>): nat
    requires |s| >= 4 && |s| >= HeaderSize(Count(s))
  {
    WORD_SIZE * Sum(Sizes(s[4..], Count(s)))
  }

  function Receive(s: seq<Byte>): Receipt {
    if |s| < 4 || |s| < HeaderSize(Count(s)) then Waiting
    else if Count(s) >= ARRAY_LIMIT then Rejected(InvalidArrayLength)
    else if BodySize(s) == 0 then Rejected(InvalidReadLength)
    else if |s| < HeaderSize(Count(s)) + BodySize(s) then Waiting
    else Received(s[..HeaderSize(Count(s)) + BodySize(s)])
  }

  /** How many bytes one `recvMessage` takes off the stream. */
  function Consumed(s: seq<Byte>): (n: nat)
    ensures n <= |s|
    ensures Receive(s).Received? ==> Receive(s).frame == s[..n]
  {
    if |s| < 4 then 0
    else if |s| < HeaderSize(Count(s)) then 4
    else if Receive(s).Received? then HeaderSize(Count(s)) + BodySize(s)
    else HeaderSize(Count(s))
  }

  // ---------------------------------------------------------------------------------------
  // Header arithmetic

  /** The header is a whole number of words, one for every two segments and one more; padding is
      there exactly for an even count, and every size lies inside the table. */
  lemma HeaderArithmetic(n: nat)
    ensures HeaderSize(n) == WORD_SIZE * (n / 2 + 1)
    ensures PaddingSize(n) != 0 <==> n % 2 == 0
    ensures forall i: nat :: i < n ==> 4 + 4 * i + 4 <= HeaderSize(n)
  {
  }

  /** A complete header is refused exactly when the count is beyond an array's length or every
      declared segment is empty. */
  lemma RejectedExactly(s: seq<Byte>)
    requires |s| >= 4 && |s| >= HeaderSize(Count(s))
    ensures Receive(s) == Rejected(InvalidArrayLength) <==> Count(s) >= 0x1_0000_0000
    ensures Receive(s) == Rejected(InvalidReadLength) <==>
            Count(s) < 0x1_0000_0000 && forall i :: 0 <= i < Count(s) ==> Sizes(s[4..], Count(s))[i] == 0
  {
    SumZero(Sizes(s[4..], Count(s)));
  }

  lemma {:induction false} SumZero(xs: seq<nat>)
    ensures Sum(xs) == 0 <==> forall i :: 0 <= i < |xs| ==> xs[i] == 0
  {
    if xs != [] {
      var n := |xs| - 1;
      SumZero(xs[..n]);
      if Sum(xs) == 0 {
        assert forall i :: 0 <= i < n ==> xs[..n][i] == 0 && xs[i] == xs[..n][i];
      }
    }
  }

  lemma {:induction false} SumBound(xs: seq<nat>, limit: nat)
    requires forall i :: 0 <= i < |xs| ==> xs[i] <= limit
    ensures Sum(xs) <= |xs| * limit
  {
    if xs != [] {
      SumBound(xs[..|xs| - 1], limit);
      assert |xs| * limit == (|xs| - 1) * limit + limit;
    }
  }

  lemma {:induction false} SumConstant(n: nat, x: nat)
    ensures Sum(seq(n, _ => x)) == n * x
  {
    if n > 0 {
      SumConstant(n - 1, x);
      assert seq(n, _ => x)[..n - 1] == seq(n - 1, _ => x);
    }
  }

  predicate FitTable(xs: seq<nat>) {
    forall i :: 0 <= i < |xs| ==> xs[i] < ARRAY_LIMIT
  }

  /** The largest total of `n` sizes is that of `n` largest sizes. */
  lemma SumLimit(n: nat, limit: nat)
    ensures n * (ARRAY_LIMIT - 1) <= limit <==> forall xs :: |xs| == n && FitTable(xs) ==> Sum(xs) <= limit
  {
    forall xs | |xs| == n && FitTable(xs)
      ensures Sum(xs) <= n * (ARRAY_LIMIT - 1)
    {
      SumBound(xs, ARRAY_LIMIT - 1);
    }
    var largest := seq(n, _ => ARRAY_LIMIT - 1);
    SumConstant(n, ARRAY_LIMIT - 1);
    assert |largest| == n && FitTable(largest);
  }

  /** The loop adds up words: its total is at most 2^53, so that float64 addition is exact, for every
      size table of `n` entries if and only if n is at most 2^21; multiplying by 8 is exact in
      binary. */
  lemma WordBounds(n: nat)
    ensures n <= 0x20_0000 <==> forall xs :: |xs| == n && FitTable(xs) ==> Sum(xs) <= MAX_EXACT
  {
    SumLimit(n, MAX_EXACT);
  }

  /** The total byte length itself is below 2^53 for every size table if and only if there are at
      most 2^18 entries. */
  lemma ReceiveBounds(n: nat)
    ensures n <= 0x4_0000 <==> forall xs :: |xs| == n && FitTable(xs) ==> WORD_SIZE * Sum(xs) < MAX_EXACT
  {
    SumLimit(n, MAX_EXACT / WORD_SIZE - 1);
    assert forall x: nat :: WORD_SIZE * x < MAX_EXACT <==> x <= MAX_EXACT / WORD_SIZE - 1;
  }

  /** No partial sum is larger than the total. */
  lemma {:induction false} PartialSums(xs: seq<nat>, i: nat)
    requires i <= |xs|
    ensures Sum(xs[..i]) <= Sum(xs)
  {
    if i < |xs| {
      PartialSums(xs[..|xs| - 1], i);
      assert xs[..|xs| - 1][..i] == xs[..i];
    } else {
      assert xs[..i] == xs;
    }
  }

  // ---------------------------------------------------------------------------------------
  // Round trip

  /** Words of each segment. */
  function Words(m: seq<seq<Byte>>): seq<nat> {
    seq(|m|, i requires 0 <= i < |m| => |m[i]| / WORD_SIZE)
  }

  lemma SliceOfPrefix(a: seq<Byte>, b: seq<Byte>, lo: nat, hi: nat)
    requires lo <= hi <= |a|
    ensures (a + b)[lo..hi] == a[lo..hi]
  {
  }

  lemma SliceOfSuffix(a: seq<Byte>, b: seq<Byte>, lo: nat, hi: nat)
    requires lo <= hi <= |b|
    ensures (a + b)[|a| + lo..|a| + hi] == b[lo..hi]
  {
  }

  lemma {:induction false} SizeTableAt(m: seq<seq<Byte>>, i: nat)
    requires i < |m|
    ensures SizeTable(m)[4 * i..4 * i + 4] == Encode(|m[i]| / WORD_SIZE, 4)
  {
    var first, rest := Encode(|m[0]| / WORD_SIZE, 4), SizeTable(m[1..]);
    if i == 0 {
      SliceOfPrefix(first, rest, 0, 4);
    } else {
      SizeTableAt(m[1..], i - 1);
      SliceOfSuffix(first, rest, 4 * (i - 1), 4 * (i - 1) + 4);
    }
  }

  lemma {:induction false} FlattenSize(m: seq<seq<Byte>>)
    requires forall i :: 0 <= i < |m| ==> |m[i]| % WORD_SIZE == 0
    ensures |Flatten(m)| == WORD_SIZE * Sum(Words(m))
  {
    if m != [] {
      var n := |m| - 1;
      FlattenSize(m[..n]);
      FlattenAppend(m[..n], m[n]);
      assert m[..n] + [m[n]] == m;
      assert Words(m)[..n] == Words(m[..n]);
    }
  }

  lemma {:induction false} FlattenAppend(chunks: seq<seq<Byte>>, last: seq<Byte>)
    ensures Flatten(chunks + [last]) == Flatten(chunks) + last
  {
    if chunks == [] {
      assert chunks + [last] == [last] && [last][1..] == [];
      assert Flatten([last]) == last + [];
    } else {
      FlattenAppend(chunks[1..], last);
      assert (chunks + [last])[1..] == chunks[1..] + [last];
    }
  }

  lemma SizesOfTable(m: seq<seq<Byte>>, more: seq<Byte>)
    requires forall i :: 0 <= i < |m| ==> |m[i]| / WORD_SIZE < Limit(4)
    ensures Sizes(SizeTable(m) + more, |m|) == Words(m)
  {
    forall i | 0 <= i < |m|
      ensures Sizes(SizeTable(m) + more, |m|)[i] == Words(m)[i]
    {
      SliceOfPrefix(SizeTable(m), more, 4 * i, 4 * i + 4);
      SizeTableAt(m, i);
      DecodeEncode(|m[i]| / WORD_SIZE, 4);
    }
  }

  lemma FiveParts(a: seq<Byte>, b: seq<Byte>, c: seq<Byte>, d: seq<Byte>, e: seq<Byte>)
    ensures var s := a + b + c + d + e;
            && s[..|a|] == a && s[|a|..] == b + (c + d + e)
            && s[|a + b|..|a + b + c|] == c && s[|a + b + c|..|a + b + c + d|] == d
            && s[..|a + b + c + d|] == a + b + c + d && s[|a + b + c + d|..] == e
  {
  }

  lemma FrameHeader(m: seq<seq<Byte>>, padding: seq<Byte>, rest: seq<Byte>)
    requires Encodable(m) && |padding| == PaddingSize(|m|)
    ensures var s := Frame(m, padding) + rest;
            && |s| >= HeaderSize(|m|) && Count(s) == |m|
            && Sizes(s[4..], |m|) == Words(m)
  {
    var count := Encode(|m| - 1, 4);
    FiveParts(count, SizeTable(m), padding, Flatten(m), rest);
    Limits();
    DecodeEncode(|m| - 1, 4);
    SizesOfTable(m, padding + Flatten(m) + rest);
  }

  /** One frame is taken off the stream whole, whatever its padding holds, and nothing after it is
      touched; it is received if and only if it carries at least one word. */
  lemma FrameReceived(m: seq<seq<Byte>>, padding: seq<Byte>, rest: seq<Byte>)
    requires Encodable(m) && |padding| == PaddingSize(|m|)
    ensures var s := Frame(m, padding) + rest;
            && Receive(s) == (if ValidMessage(m) then Received(Frame(m, padding)) else Rejected(InvalidReadLength))
            && s[Consumed(s)..] == rest
  {
    var s := Frame(m, padding) + rest;
    FrameHeader(m, padding, rest);
    FlattenSize(m);
    assert s[..|Frame(m, padding)|] == Frame(m, padding);
  }

  /** A concrete case: the smallest message there is, one empty segment, is refused. */
  lemma EmptyMessageExample(rest: seq<Byte>)
    ensures Encodable([[]])
    ensures Receive(Frame([[]], []) + rest) == Rejected(InvalidReadLength)
  {
    FrameReceived([[]], [], rest);
  }

  /** Two concrete frames: one word in one segment, and two segments of one word with padding. */
  lemma FrameExample(a: seq<Byte>, b: seq<Byte>, padding: seq<Byte>)
    requires |a| == |b| == 8 && |padding| == 4
    ensures Frame([a], []) == [0, 0, 0, 0, 1, 0, 0, 0] + a
    ensures Frame([a, b], padding) == [1, 0, 0, 0, 1, 0, 0, 0, 1, 0, 0, 0] + padding + a + b
  {
    SmallNumber(0);
    SmallNumber(1);
    OneSegment(a);
    OneSegment(b);
    assert [a, b][1..] == [b];
    assert SizeTable([a, b]) == Encode(1, 4) + SizeTable([b]);
  }

  lemma OneSegment(a: seq<Byte>)
    ensures SizeTable([a]) == Encode(|a| / WORD_SIZE, 4) && Flatten([a]) == a
  {
    assert [a][1..] == [];
  }

  lemma SmallNumber(n: Byte)
    ensures Encode(n, 4) == [n, 0, 0, 0]
  {
    assert Encode(0, 1) == [0] + Encode(0, 0);
    assert Encode(0, 2) == [0] + Encode(0, 1);
    assert Encode(0, 3) == [0] + Encode(0, 2);
  }

  /** The segments of given word counts that `body` is made of. */
  function Cut(body: seq<Byte>, words: seq<nat>): (m: seq<seq<Byte>>)
    requires |body| == WORD_SIZE * Sum(words)
    ensures |m| == |words| && Flatten(m) == body
    ensures forall i :: 0 <= i < |m| ==> |m[i]| == WORD_SIZE * words[i]
    decreases |words|
  {
    if words == [] then []
    else
      var n := |words| - 1;
      var k := WORD_SIZE * Sum(words[..n]);
      var m := Cut(body[..k], words[..n]);
      FlattenAppend(m, body[k..]);
      m + [body[k..]]
  }

  /** Conversely, whatever is received is a frame: the count, the size table, padding and
      segments of the declared sizes, exactly the bytes consumed. */
  lemma ReceivedIsFrame(s: seq<Byte>) returns (m: seq<seq<Byte>>, padding: seq<Byte>)
    requires Receive(s).Received?
    ensures ValidMessage(m) && |padding| == PaddingSize(|m|)
    ensures Receive(s).frame == Frame(m, padding)
    ensures s == Frame(m, padding) + s[Consumed(s)..]
  {
    var h, body := HeaderSize(Count(s)), BodySize(s);
    m := ReceivedSegments(s);
    padding := s[4 + 4 * |m|..h];
    CountBytes(s);
    SizeTableOf(s[4..], |m|, m);
    Rebuild(s, m, h, body);
  }

  /** The segments a receipt carries. */
  lemma ReceivedSegments(s: seq<Byte>) returns (m: seq<seq<Byte>>)
    requires Receive(s).Received?
    ensures var h, body := HeaderSize(Count(s)), BodySize(s);
            && |m| == Count(s) < ARRAY_LIMIT && h + body <= |s| && Flatten(m) == s[h..h + body] && body > 0
            && Receive(s).frame == s[..h + body] && Consumed(s) == h + body
    ensures forall i :: 0 <= i < |m| ==> |m[i]| == WORD_SIZE * Sizes(s[4..], |m|)[i]
  {
    var h := HeaderSize(Count(s));
    m := Cut(s[h..h + BodySize(s)], Sizes(s[4..], Count(s)));
  }

  /** A count, a size table, padding and segments that lie one after the other are a frame. */
  lemma Rebuild(s: seq<Byte>, m: seq<seq<Byte>>, h: nat, body: nat)
    requires |m| > 0 && h == HeaderSize(|m|) && h + body <= |s|
    requires s[..4] == Encode(|m| - 1, 4) && s[4..][..4 * |m|] == SizeTable(m) && s[h..h + body] == Flatten(m)
    ensures Frame(m, s[4 + 4 * |m|..h]) == s[..h + body]
    ensures s == s[..h + body] + s[h + body..]
  {
    Reassemble(s, 4, 4 + 4 * |m|, h, h + body);
  }

  lemma CountBytes(s: seq<Byte>)
    requires |s| >= 4
    ensures s[..4] == Encode(Count(s) - 1, 4)
  {
    EncodeDecode(s[..4]);
  }

  lemma Reassemble(s: seq<Byte>, i: nat, j: nat, k: nat, l: nat)
    requires i <= j <= k <= l <= |s|
    ensures s[i..][..j - i] == s[i..j]
    ensures s[..i] + s[i..j] + s[j..k] + s[k..l] == s[..l]
    ensures s == s[..l] + s[l..]
  {
  }

  /** Segments of the declared sizes have the declared size table. */
  lemma SizeTableOf(table: seq<Byte>, n: nat, m: seq<seq<Byte>>)
    requires 4 * n <= |table| && |m| == n
    requires forall i :: 0 <= i < n ==> |m[i]| == WORD_SIZE * Sizes(table, n)[i]
    ensures SizeTable(m) == table[..4 * n]
    ensures forall i :: 0 <= i < n ==> |m[i]| % WORD_SIZE == 0 && |m[i]| / WORD_SIZE < Limit(4)
  {
    forall i | 0 <= i < n
      ensures SizeTable(m)[4 * i..4 * i + 4] == table[..4 * n][4 * i..4 * i + 4]
      ensures |m[i]| % WORD_SIZE == 0 && |m[i]| / WORD_SIZE < Limit(4)
    {
      SizeEntry(table, n, m, i);
    }
    EqualByFours(SizeTable(m), table[..4 * n], n);
  }

  lemma SizeEntry(table: seq<Byte>, n: nat, m: seq<seq<Byte>>, i: nat)
    requires 4 * n <= |table| && |m| == n && i < n && |m[i]| == WORD_SIZE * Sizes(table, n)[i]
    ensures SizeTable(m)[4 * i..4 * i + 4] == table[..4 * n][4 * i..4 * i + 4]
    ensures |m[i]| % WORD_SIZE == 0 && |m[i]| / WORD_SIZE < Limit(4)
  {
    var entry := table[4 * i..4 * i + 4];
    assert |m[i]| == WORD_SIZE * Decode(entry);
    SizeTableAt(m, i);
    EncodeDecode(entry);
    SliceOfPrefix(table[..4 * n], table[4 * n..], 4 * i, 4 * i + 4);
    assert table == table[..4 * n] + table[4 * n..];
  }

  lemma EqualByFours(a: seq<Byte>, b: seq<Byte>, n: nat)
    requires |a| == |b| == 4 * n
    requires forall i :: 0 <= i < n ==> a[4 * i..4 * i + 4] == b[4 * i..4 * i + 4]
    ensures a == b
  {
    forall j | 0 <= j < |a|
      ensures a[j] == b[j]
    {
      var i := j / 4;
      assert a[j] == a[4 * i..4 * i + 4][j % 4] && b[j] == b[4 * i..4 * i + 4][j % 4];
    }
  }

  // ---------------------------------------------------------------------------------------
  // Many messages

  /** The receipts of up to `k` calls of `recvMessage`, one after the other. A call that waits for
      bytes that never come does not return, so none follows it. */
  function ReceiveMany(s: seq<Byte>, k: nat): seq<Receipt> {
    if k == 0 then []
    else if Receive(s).Waiting? then [Waiting]
    else [Receive(s)] + ReceiveMany(s[Consumed(s)..], k - 1)
  }

  function Remainder(s: seq<Byte>, k: nat): seq<Byte> {
    if k == 0 then s
    else if Receive(s).Waiting? then s[Consumed(s)..]
    else Remainder(s[Consumed(s)..], k - 1)
  }

  datatype Packet = Packet(m: seq<seq<Byte>>, padding: seq<Byte>) {
    predicate Valid() {
      ValidMessage(m) && |padding| == PaddingSize(|m|)
    }
  }

  predicate AllValid(packets: seq<Packet>) {
    packets != [] ==> packets[0].Valid() && AllValid(packets[1..])
  }

  lemma {:induction false} AllValidExactly(packets: seq<Packet>)
    ensures AllValid(packets) <==> forall i :: 0 <= i < |packets| ==> packets[i].Valid()
  {
    if packets != [] {
      AllValidExactly(packets[1..]);
      assert forall i :: 0 < i < |packets| ==> packets[i] == packets[1..][i - 1];
    }
  }

  function Stream(packets: seq<Packet>): seq<Byte>
    requires AllValid(packets)
  {
    if packets == [] then [] else Frame(packets[0].m, packets[0].padding) + Stream(packets[1..])
  }

  function Receipts(packets: seq<Packet>): seq<Receipt>
    requires AllValid(packets)
  {
    if packets == [] then []
    else [Received(Frame(packets[0].m, packets[0].padding))] + Receipts(packets[1..])
  }

  lemma Associative(a: seq<Byte>, b: seq<Byte>, c: seq<Byte>)
    ensures a + b + c == a + (b + c)
  {
  }

  lemma ReceiveOneMore(frame: seq<Byte>, rest: seq<Byte>, k: nat)
    requires Receive(frame + rest) == Received(frame) && (frame + rest)[Consumed(frame + rest)..] == rest
    ensures ReceiveMany(frame + rest, k + 1) == [Received(frame)] + ReceiveMany(rest, k)
    ensures Remainder(frame + rest, k + 1) == Remainder(rest, k)
  {
  }

  /** The frames sent are the frames received, in order, and no byte of what follows is consumed. */
  lemma {:induction false} StreamRoundTrip(packets: seq<Packet>, rest: seq<Byte>)
    requires AllValid(packets)
    ensures ReceiveMany(Stream(packets) + rest, |packets|) == Receipts(packets)
    ensures Remainder(Stream(packets) + rest, |packets|) == rest
  {
    if packets == [] {
      assert Stream(packets) + rest == rest;
    } else {
      var p, tail := packets[0], packets[1..];
      var s := Stream(tail) + rest;
      FrameReceived(p.m, p.padding, s);
      StreamRoundTrip(tail, rest);
      ReceiveOneMore(Frame(p.m, p.padding), s, |tail|);
      Associative(Frame(p.m, p.padding), Stream(tail), rest);
    }
  }

  /** Two valid frames followed by anything: equal streams carry equal frames, so no frame is a
      proper prefix of another. */
  lemma FramesArePrefixFree(a: Packet, b: Packet, restA: seq<Byte>, restB: seq<Byte>)
    requires a.Valid() && b.Valid()
    requires Frame(a.m, a.padding) + restA == Frame(b.m, b.padding) + restB
    ensures a == b && restA == restB
  {
    FrameReceived(a.m, a.padding, restA);
    FrameReceived(b.m, b.padding, restB);
    FrameHeader(a.m, a.padding, restA);
    FrameHeader(b.m, b.padding, restB);
    var f, h, n := Frame(a.m, a.padding), HeaderSize(|a.m|), |a.m|;
    assert a.padding == f[4 + 4 * n..h] == b.padding;
    assert Flatten(a.m) == f[h..] == Flatten(b.m);
    assert Words(a.m) == Words(b.m);
    FlattenInjective(a.m, b.m);
  }

  lemma {:induction false} FlattenInjective(a: seq<seq<Byte>>, b: seq<seq<Byte>>)
    requires |a| == |b| && Flatten(a) == Flatten(b)
    requires forall i :: 0 <= i < |a| ==> |a[i]| % WORD_SIZE == |b[i]| % WORD_SIZE == 0
    requires Words(a) == Words(b)
    ensures a == b
  {
    if a != [] {
      assert |a[0]| / WORD_SIZE == Words(a)[0] == Words(b)[0] == |b[0]| / WORD_SIZE;
      assert a[0] == Flatten(a)[..|a[0]|] == b[0];
      assert Flatten(a[1..]) == Flatten(a)[|a[0]|..] == Flatten(b[1..]);
      assert Words(a[1..]) == Words(a)[1..] == Words(b[1..]);
      FlattenInjective(a[1..], b[1..]);
      assert a == [a[0]] + a[1..] && b == [b[0]] + b[1..];
    }
  }
}
