/** The audio and video frame records (schema/frames.capnp:8-34), written by Go, TypeScript and
    Rust. */
module Records {
  import opened Bytes
  import opened Layout

  /** A record's scalar fields as the accessors place them: by byte offset in Go and TypeScript, by
      element index in Rust. */
  datatype Placement = Placement(size: nat, offsets: seq<Slot>, elements: seq<Slot>) {
    /** A byte offset and the matching element index are the same place, inside the struct, and no
        two fields share a byte. */
    predicate WellPlaced() {
      && offsets == elements
      && (forall i :: 0 <= i < |offsets| ==> offsets[i].Fits(size))
      && (forall i, j :: 0 <= i < j < |offsets| ==> offsets[i].Disjoint(offsets[j]))
    }

    function At(language: Language, field: nat): Slot
      requires field < |offsets| && field < |elements|
    {
      if language.Rust? then elements[field] else offsets[field]
    }
  }

  type Record = r: Placement | r.WellPlaced() witness Placement(0, [], [])

  /** num, den: go/frames/frames.capnp.go:37-51, ts/src/frames.capnp.ts:12-15,
      rust/src/schema/frames_capnp.rs:53-59, 115-129 */
  const RATIONAL: Record := Placement(8, [Slot(0, 4), Slot(4, 4)], [Element(4, 0), Element(4, 1)])

  /** numSamples, channels, streamId: go/frames/frames.capnp.go:104-151,
      ts/src/frames.capnp.ts:20-31, rust/src/schema/frames_capnp.rs:194-211, 274-311 */
  const AUDIO_FRAME: Record := Placement(16, [Slot(0, 4), Slot(4, 2), Slot(8, 4)],
                                          [Element(4, 0), Element(2, 2), Element(4, 2)])

  /** width, height, pixelFormat, streamId: go/frames/frames.capnp.go:222-277,
      ts/src/frames.capnp.ts:46-59, rust/src/schema/frames_capnp.rs:394-415, 478-523 */
  const VIDEO_FRAME: Record := Placement(16, [Slot(0, 4), Slot(4, 4), Slot(8, 2), Slot(12, 4)],
                                          [Element(4, 0), Element(4, 1), Element(2, 4), Element(4, 3)])

  /** The bytes of each field, in every language: num and den. */
  lemma RationalBytes(l: Language, data: seq<Byte>, v: nat)
    requires |data| == 8
    ensures RATIONAL.size == 8 && |RATIONAL.offsets| == 2
    ensures Put(data, RATIONAL.At(l, 0), v) == Encode(v, 4) + data[4..]
    ensures Put(data, RATIONAL.At(l, 1), v) == data[..4] + Encode(v, 4)
  {
  }

  /** numSamples, channels and streamId; bytes 6, 7 and 12 to 15 belong to no field. */
  lemma AudioFrameBytes(l: Language, data: seq<Byte>, v: nat)
    requires |data| == 16
    ensures AUDIO_FRAME.size == 16 && |AUDIO_FRAME.offsets| == 3
    ensures Put(data, AUDIO_FRAME.At(l, 0), v) == Encode(v, 4) + data[4..]
    ensures Put(data, AUDIO_FRAME.At(l, 1), v) == data[..4] + Encode(v, 2) + data[6..]
    ensures Put(data, AUDIO_FRAME.At(l, 2), v) == data[..8] + Encode(v, 4) + data[12..]
  {
  }

  /** width, height, pixelFormat and streamId; bytes 10 and 11 belong to no field. */
  lemma VideoFrameBytes(l: Language, data: seq<Byte>, v: nat)
    requires |data| == 16
    ensures VIDEO_FRAME.size == 16 && |VIDEO_FRAME.offsets| == 4
    ensures Put(data, VIDEO_FRAME.At(l, 0), v) == Encode(v, 4) + data[4..]
    ensures Put(data, VIDEO_FRAME.At(l, 1), v) == data[..4] + Encode(v, 4) + data[8..]
    ensures Put(data, VIDEO_FRAME.At(l, 2), v) == data[..8] + Encode(v, 2) + data[10..]
    ensures Put(data, VIDEO_FRAME.At(l, 3), v) == data[..12] + Encode(v, 4)
  {
  }

  /** One setter call. */
  datatype Write = Write(language: Language, field: nat, value: nat)

  predicate ValidWrites(r: Record, writes: seq<Write>) {
    forall i :: 0 <= i < |writes| ==>
      writes[i].field < |r.offsets| && writes[i].value < Limit(r.offsets[writes[i].field].width)
  }

  /** A field takes any value of its own width: 16 bits for channels and pixelFormat, 32 for the
      others. */
  lemma ValidWritesExactly(writes: seq<Write>)
    ensures ValidWrites(RATIONAL, writes) <==>
            forall w :: w in writes ==> w.field < 2 && w.value < 0x1_0000_0000
    ensures ValidWrites(AUDIO_FRAME, writes) <==>
            forall w :: w in writes ==> w.field < 3 && w.value < if w.field == 1 then 0x1_0000 else 0x1_0000_0000
    ensures ValidWrites(VIDEO_FRAME, writes) <==>
            forall w :: w in writes ==> w.field < 4 && w.value < if w.field == 2 then 0x1_0000 else 0x1_0000_0000
  {
    Limits();
  }

  function Run(r: Record, data: seq<Byte>, writes: seq<Write>): (d: seq<Byte>)
    requires |data| == r.size && ValidWrites(r, writes)
    ensures |d| == r.size
  {
    if writes == [] then data
    else
      var n := |writes| - 1;
      var w := writes[n];
      Put(Run(r, data, writes[..n]), r.At(w.language, w.field), w.value)
  }

  /** The value a field was last given, or the one it started with. */
  function LastWritten(writes: seq<Write>, field: nat, initial: nat): nat {
    if writes == [] then initial
    else
      var w := writes[|writes| - 1];
      if w.field == field then w.value else LastWritten(writes[..|writes| - 1], field, initial)
  }

  /** After any mix of the three languages' setters, every getter of each language returns the last
      value written to its field. */
  lemma {:induction false} RecordRefinement(r: Record, data: seq<Byte>, writes: seq<Write>, reader: Language,
                                            field: nat)
    requires |data| == r.size && ValidWrites(r, writes) && field < |r.offsets|
    ensures Get(Run(r, data, writes), r.At(reader, field)) ==
            LastWritten(writes, field, Get(data, r.At(reader, field)))
  {
    if writes != [] {
      var n := |writes| - 1;
      var w, before := writes[n], Run(r, data, writes[..n]);
      var slot := r.At(w.language, w.field);
      RecordRefinement(r, data, writes[..n], reader, field);
      if w.field == field {
        GetPut(before, slot, w.value);
      } else {
        GetPutOther(before, slot, w.value, r.At(reader, field));
      }
    }
  }

  // ---------------------------------------------------------------------------------------
  // Enumerants

  const PIXEL_FORMAT := 2        // the field's position in VIDEO_FRAME

  datatype PixelFormat = Rgba | NotInSchema(code: nat)

  /** Rust's getter checks the stored code against the schema, Go's returns it as it is
      (rust/src/schema/frames_capnp.rs:409-411, 563-571). */
  function RustPixelFormat(data: seq<Byte>): PixelFormat
    requires |data| == VIDEO_FRAME.size
  {
    var code := Get(data, VIDEO_FRAME.At(Rust, PIXEL_FORMAT));
    if code == 0 then Rgba else NotInSchema(code)
  }

  /** The code is bytes 8 and 9, and rgba's is 0. */
  lemma PixelFormatBytes(data: seq<Byte>)
    requires |data| == 16
    ensures RustPixelFormat(data) ==
            if data[8] == 0 && data[9] == 0 then Rgba else NotInSchema(data[8] as int + 256 * data[9] as int)
  {
    var two := data[8..10];
    assert two[1..] == [data[9]];
    assert Decode([data[9]]) == data[9] + 256 * Decode([]);
  }

  /** Rust's setter takes an enumerant, so it can only store a code of the schema. */
  predicate RustWritesEnumerants(writes: seq<Write>) {
    forall i :: 0 <= i < |writes| && writes[i].language.Rust? && writes[i].field == PIXEL_FORMAT ==>
      writes[i].value == 0
  }

  lemma RustWritesExactly(writes: seq<Write>)
    ensures RustWritesEnumerants(writes) <==>
            forall w :: w in writes && w.language.Rust? && w.field == 2 ==> w.value == 0
  {
  }

  /** After any setters of a video frame, Rust reports a code outside the schema exactly when the
      last one written is not rgba's, and reports that code; in a frame that started with a code of
      the schema, another language wrote it. */
  lemma PixelFormatRefinement(data: seq<Byte>, writes: seq<Write>)
    requires |data| == VIDEO_FRAME.size && ValidWrites(VIDEO_FRAME, writes) && RustWritesEnumerants(writes)
    ensures var initial := Get(data, VIDEO_FRAME.At(Rust, PIXEL_FORMAT));
            var last := LastWritten(writes, PIXEL_FORMAT, initial);
            var format := RustPixelFormat(Run(VIDEO_FRAME, data, writes));
            && format == (if last == 0 then Rgba else NotInSchema(last))
            && (initial == 0 && format.NotInSchema? ==>
                  exists w :: w in writes && !w.language.Rust? && w.field == PIXEL_FORMAT && w.value == format.code)
  {
    RecordRefinement(VIDEO_FRAME, data, writes, Rust, PIXEL_FORMAT);
    LastWriteExists(writes, PIXEL_FORMAT, 0);
  }

  lemma {:induction false} LastWriteExists(writes: seq<Write>, field: nat, initial: nat)
    ensures var last := LastWritten(writes, field, initial);
            last == initial || exists w :: w in writes && w.field == field && w.value == last
  {
    if writes != [] {
      var n := |writes| - 1;
      assert writes[n] in writes;
      LastWriteExists(writes[..n], field, initial);
    }
  }
}
