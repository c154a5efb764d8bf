/** The masks and shifts of ortp/src/b64.c on bytes, as divisions and remainders. */
module Base64Bits {
  import opened Base64Spec
  import opened Base64Laws

  lemma Successor(v: bv8)
    requires v < 255
    ensures (v + 1) as int == v as int + 1
  {
  }

  /** The bits of a byte value. */
  function Bits(x: Byte): (v: bv8)
    ensures v as int == x
    decreases x
  {
    if x == 0 then 0
    else
      var w := Bits(x - 1);
      Successor(w);
      w + 1
  }

  lemma ByteSlices(v: bv8)
    ensures ((v & 0xfc) >> 2) as int == v as int / 4
    ensures ((v & 0xf0) >> 4) as int == v as int / 16
    ensures ((v & 0xc0) >> 6) as int == v as int / 64
    ensures (v & 0x3f) as int == v as int % 64
  {
  }

  lemma Right2ShiftedLeft(v: bv8)
    ensures ((v & 0x03) << 4) as int == v as int % 4 * 16
  {
  }

  lemma Right4ShiftedLeft(v: bv8)
    ensures ((v & 0x0f) << 2) as int == v as int % 16 * 4
  {
  }

  lemma IndexSlices(v: bv8)
    requires v < 64
    ensures ((v & 0x30) >> 4) as int == v as int / 16
    ensures ((v & 0x3c) >> 2) as int == v as int / 4
    ensures (v << 2) as int == v as int * 4
  {
  }

  lemma IndexRight4ShiftedLeft(v: bv8)
    requires v < 64
    ensures ((v & 0x0f) << 4) as int == v as int % 16 * 16
  {
  }

  lemma IndexRight2ShiftedLeft(v: bv8)
    requires v < 64
    ensures ((v & 0x03) << 6) as int == v as int % 4 * 64
  {
  }

  /** Four indexes cut out of three bytes; C adds the two slices of an index as integers. */
  method SliceBytes(a: Byte, b: Byte, c: Byte) returns (c0: Sextet, c1: Sextet, c2: Sextet, c3: Sextet)
    ensures c0 == a / 4 && c1 == a % 4 * 16 + b / 16 && c2 == b % 16 * 4 + c / 64 && c3 == c % 64
  {
    hide Bits;
    var v0, v1, v2 := Bits(a), Bits(b), Bits(c);
    ByteSlices(v0);
    ByteSlices(v1);
    ByteSlices(v2);
    Right2ShiftedLeft(v0);
    Right4ShiftedLeft(v1);
    c0 := ((v0 & 0xfc) >> 2) as int;
    c1 := ((v0 & 0x03) << 4) as int + ((v1 & 0xf0) >> 4) as int;
    c2 := ((v1 & 0x0f) << 2) as int + ((v2 & 0xc0) >> 6) as int;
    c3 := (v2 & 0x3f) as int;
  }

  /** The bytes put together from four indexes are the base-256 digits of the same 24-bit number. */
  lemma IndexBytes(w: Sextet, x: Sextet, y: Sextet, z: Sextet)
    ensures Bytes24(w, x, y, z) == [w * 4 + x / 16, x % 16 * 16 + y / 4, y % 4 * 64 + z]
  {
    Digits256(((w * 64 + x) * 64 + y) * 64 + z, w * 4 + x / 16, x % 16 * 16 + y / 4, y % 4 * 64 + z);
  }

  method JoinFirst(w: Sextet, x: Sextet) returns (b: Byte)
    ensures b == w * 4 + x / 16
  {
    hide Bits;
    var i0, i1 := Bits(w), Bits(x);
    BelowSixtyFour(i0);
    BelowSixtyFour(i1);
    IndexSlices(i0);
    IndexSlices(i1);
    b := (i0 << 2) as int + ((i1 & 0x30) >> 4) as int;
  }

  method JoinSecond(x: Sextet, y: Sextet) returns (b: Byte)
    ensures b == x % 16 * 16 + y / 4
  {
    hide Bits;
    var i1, i2 := Bits(x), Bits(y);
    BelowSixtyFour(i1);
    BelowSixtyFour(i2);
    IndexRight4ShiftedLeft(i1);
    IndexSlices(i2);
    b := ((i1 & 0x0f) << 4) as int + ((i2 & 0x3c) >> 2) as int;
  }

  method JoinThird(y: Sextet, z: Sextet) returns (b: Byte)
    ensures b == y % 4 * 64 + z
  {
    hide Bits;
    var i2 := Bits(y);
    BelowSixtyFour(i2);
    IndexRight2ShiftedLeft(i2);
    b := ((i2 & 0x03) << 6) as int + z;
  }

  /** Three bytes put together from four indexes. */
  method JoinIndexes(w: Sextet, x: Sextet, y: Sextet, z: Sextet) returns (b0: Byte, b1: Byte, b2: Byte)
    ensures Bytes24(w, x, y, z) == [b0, b1, b2]
  {
    hide Bytes24;
    b0 := JoinFirst(w, x);
    b1 := JoinSecond(x, y);
    b2 := JoinThird(y, z);
    IndexBytes(w, x, y, z);
  }

  lemma BelowSixtyFour(v: bv8)
    requires v as int < 64
    ensures v < 64
  {
  }
}
