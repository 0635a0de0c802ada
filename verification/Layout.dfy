/** Scalar fields in a struct's data section: what the generated accessors read and write, by byte
    offset (Go, TypeScript) or by element index (Rust). */
module Layout {
  import opened Bytes

  datatype Language = Go | TypeScript | Rust

  /** `width` bytes at `offset`. */
  datatype Slot = Slot(offset: nat, width: nat) {
    predicate Fits(size: nat) {
      offset + width <= size
    }

    predicate Disjoint(other: Slot) {
      offset + width <= other.offset || other.offset + other.width <= offset
    }
  }

  /** Rust's `get_data_field::<T>(index)`: the offset counts elements of the field's own width. */
  function Element(width: nat, index: nat): Slot {
    Slot(width * index, width)
  }

  function Get(data: seq<Byte>, f: Slot): nat
    requires f.Fits(|data|)
  {
    Decode(data[f.offset..f.offset + f.width])
  }

  function Put(data: seq<Byte>, f: Slot, v: nat): (r: seq<Byte>)
    requires f.Fits(|data|)
    ensures |r| == |data|
  {
    data[..f.offset] + Encode(v, f.width) + data[f.offset + f.width..]
  }

  lemma GetPut(data: seq<Byte>, f: Slot, v: nat)
    requires f.Fits(|data|) && v < Limit(f.width)
    ensures Get(Put(data, f, v), f) == v
  {
    MiddleSlice(data[..f.offset], Encode(v, f.width), data[f.offset + f.width..]);
    DecodeEncode(v, f.width);
  }

  lemma GetPutOther(data: seq<Byte>, f: Slot, v: nat, g: Slot)
    requires f.Fits(|data|) && g.Fits(|data|) && f.Disjoint(g)
    ensures Get(Put(data, f, v), g) == Get(data, g)
  {
    OuterSlice(data, f.offset, Encode(v, f.width), g.offset, g.offset + g.width);
  }

  lemma MiddleSlice(a: seq<Byte>, b: seq<Byte>, c: seq<Byte>)
    ensures (a + b + c)[|a|..|a| + |b|] == b
  {
  }

  /** Replacing a stretch of `data` keeps every slice outside it. */
  lemma OuterSlice(data: seq<Byte>, offset: nat, bytes: seq<Byte>, lo: nat, hi: nat)
    requires offset + |bytes| <= |data| && lo <= hi <= |data|
    requires hi <= offset || offset + |bytes| <= lo
    ensures (data[..offset] + bytes + data[offset + |bytes|..])[lo..hi] == data[lo..hi]
  {
    var after := data[..offset] + bytes + data[offset + |bytes|..];
    forall j | lo <= j < hi
      ensures after[j] == data[j]
    {
    }
    assert |after[lo..hi]| == |data[lo..hi]|;
    forall j | 0 <= j < hi - lo
      ensures after[lo..hi][j] == data[lo..hi][j]
    {
      assert after[lo..hi][j] == after[lo + j];
    }
  }

  /** The data section of a struct under construction. */
  class DataSection {
    var data: array<Byte>

    constructor (size: nat)
      ensures fresh(data) && data[..] == seq(size, _ => 0)
    {
      data := new Byte[size](_ => 0);
    }

    /** Write the bytes of `v`, least significant first. */
    method Set(f: Slot, v: nat)
      requires f.Fits(data.Length)
      modifies data
      ensures data[..] == Put(old(data[..]), f, v)
    {
      ghost var before, bytes := data[..], Encode(v, f.width);
      var rest := v;
      var i := 0;
      assert bytes[0..] == bytes;
      while i < f.width
        invariant 0 <= i <= f.width
        invariant bytes[i..] == Encode(rest, f.width - i)
        invariant forall j :: 0 <= j < data.Length ==>
                    data[j] == if f.offset <= j < f.offset + i then bytes[j - f.offset] else before[j]
      {
        assert bytes[i..][0] == bytes[i] && bytes[i..][1..] == bytes[i + 1..];
        data[f.offset + i] := rest % 256;
        rest := rest / 256;
        i := i + 1;
      }
      PutPointwise(before, f, v, data[..]);
    }
  }

  lemma PutPointwise(before: seq<Byte>, f: Slot, v: nat, after: seq<Byte>)
    requires f.Fits(|before|) && |after| == |before|
    requires forall j :: 0 <= j < |after| ==>
               after[j] == if f.offset <= j < f.offset + f.width then Encode(v, f.width)[j - f.offset] else before[j]
    ensures after == Put(before, f, v)
  {
  }
}
