/** Little-endian integers as byte sequences. */
module Bytes {

  type Byte = b: int | 0 <= b < 256

  /** 256 to the power `width`: one more than the largest value of that many bytes. */
  function Limit(width: nat): nat {
    if width == 0 then 1 else 256 * Limit(width - 1)
  }

  function Encode(v: nat, width: nat): (s: seq<Byte>)
    ensures |s| == width
  {
    if width == 0 then [] else [v % 256] + Encode(v / 256, width - 1)
  }

  function Decode(s: seq<Byte>): nat {
    if s == [] then 0 else s[0] + 256 * Decode(s[1..])
  }

  lemma {:induction false} DecodeEncode(v: nat, width: nat)
    requires v < Limit(width)
    ensures Decode(Encode(v, width)) == v
  {
    if width > 0 {
      DecodeEncode(v / 256, width - 1);
      assert Encode(v, width)[1..] == Encode(v / 256, width - 1);
    }
  }

  lemma {:induction false} EncodeDecode(s: seq<Byte>)
    ensures Decode(s) < Limit(|s|) && Encode(Decode(s), |s|) == s
  {
    if s != [] {
      EncodeDecode(s[1..]);
      LowByte(s[0], Decode(s[1..]));
      assert s == [s[0]] + s[1..];
    }
  }

  lemma LowByte(b: Byte, v: nat)
    ensures (b + 256 * v) % 256 == b && (b + 256 * v) / 256 == v
  {
  }

  /** Least significant byte first: byte `i` counts multiples of 256 to the power `i`. */
  lemma {:induction false} LittleEndian(v: nat, width: nat, i: nat)
    requires i < width
    ensures Limit(i) > 0 && Encode(v, width)[i] == v / Limit(i) % 256
  {
    if i > 0 {
      LittleEndian(v / 256, width - 1, i - 1);
      assert Encode(v, width)[i] == Encode(v / 256, width - 1)[i - 1];
      DivideTwice(v, Limit(i - 1));
    }
  }

  lemma DivideTwice(v: nat, m: nat)
    requires m > 0
    ensures v / 256 / m == v / (256 * m)
  {
    var a, b := v / 256, v % 256;
    var q, c := a / m, a % m;
    DivisionLaw(a, m);
    Regroup(m, q, c, b);
    QuotientUnique(v, 256 * m, q, 256 * c + b);
  }

  lemma DivisionLaw(a: nat, m: nat)
    requires m > 0
    ensures a == m * (a / m) + a % m && 0 <= a % m < m
  {
  }

  lemma Regroup(m: nat, q: nat, c: nat, b: nat)
    ensures 256 * (m * q + c) + b == 256 * m * q + (256 * c + b)
  {
    assert 256 * (m * q) == 256 * m * q;
  }

  lemma QuotientUnique(a: nat, m: nat, q: nat, r: nat)
    requires a == m * q + r && r < m
    ensures a / m == q
  {
    var q' := a / m;
    DivisionLaw(a, m);
    if q' < q {
      ProductMonotone(m, q' + 1, q);
    } else if q < q' {
      ProductMonotone(m, q + 1, q');
    }
  }

  lemma ProductMonotone(m: nat, x: nat, y: nat)
    requires x <= y
    ensures m * x <= m * y
  {
  }

  lemma Limits()
    ensures Limit(2) == 0x1_0000 && Limit(4) == 0x1_0000_0000 && Limit(8) == 0x1_0000_0000_0000_0000
  {
    assert Limit(2) == 0x1_0000;
    assert Limit(4) == 256 * (256 * Limit(2));
    assert Limit(6) == 256 * (256 * Limit(4));
    assert Limit(8) == 256 * (256 * Limit(6));
  }
}
