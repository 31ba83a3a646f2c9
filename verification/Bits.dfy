/** Bytes as numbers, and the forms that the bytes of a UTF-8 encoding have. */
module Bits {
  import opened Prelude

  /** The byte with the given value, bit by bit. */
  function ToByte(x: nat): Byte
    requires x < 256
  {
    if x == 0 then 0 else Doubled(ToByte(x / 2), x % 2 == 1)
  }

  function Doubled(b: Byte, one: bool): Byte {
    (b << 1) | (if one then 1 else 0)
  }

  lemma DoubledIs(b: Byte, one: bool)
    requires b < 128
    ensures Doubled(b, one) as int == 2 * (b as int) + if one then 1 else 0
  {
  }

  lemma TopBitFree(b: Byte)
    ensures b as int < 128 <==> b < 128
  {
  }

  lemma {:induction false} AsByte(x: nat)
    requires x < 256
    ensures ToByte(x) as int == x
  {
    if x > 0 {
      AsByte(x / 2);
      TopBitFree(ToByte(x / 2));
      DoubledIs(ToByte(x / 2), x % 2 == 1);
    }
  }

  lemma SameByte(x: nat, y: nat)
    requires x < 256 && y < 256
    ensures ToByte(x) == ToByte(y) <==> x == y
  {
    AsByte(x);
    AsByte(y);
  }

  /** The byte with the given upper and lower digit. */
  function ByteOf(h: nat, l: nat): Byte
    requires h < 16 && l < 16
  {
    ToByte(16 * h + l)
  }

  lemma JoinValue(a: Byte, b: Byte)
    requires a < 16 && b < 16
    ensures ((a << 4) | b) as int == 16 * (a as int) + b as int
  {
  }

  lemma Below(a: Byte)
    ensures a as int < 16 <==> a < 16
  {
  }

  /** Two digits put together are the byte that has them. */
  lemma {:induction false} DigitsMakeByte(h: nat, l: nat)
    requires h < 16 && l < 16
    ensures ToByte(h) < 16 && ToByte(l) < 16 && (ToByte(h) << 4) | ToByte(l) == ByteOf(h, l)
  {
    AsByte(h);
    AsByte(l);
    AsByte(16 * h + l);
    Below(ToByte(h));
    Below(ToByte(l));
    JoinValue(ToByte(h), ToByte(l));
    SameNumber((ToByte(h) << 4) | ToByte(l), ByteOf(h, l));
  }

  lemma SameNumber(a: Byte, b: Byte)
    requires a as int == b as int
    ensures a == b
  {
  }

  // ----- forms

  function Lead(form: nat, bits: nat): Byte
    requires form + bits < 256
  {
    ToByte(form + bits)
  }

  function Continuation(c: nat): Byte {
    ToByte(0x80 + c % 0x40)
  }

  /** The last six bits of a byte that has the form 10xxxxxx. */
  function Trailing(b: Byte): Option<nat> {
    if b & 0xC0 == 0x80 then Some((b & 0x3F) as int) else None
  }

  /** The last bits of a first byte 0xxxxxxx, 110xxxxx, 1110xxxx or 11110xxx, the form of
      which tells how many bytes there are. */
  function Leading(b: Byte, count: nat): Option<nat> {
    if count == 1 && b & 0x80 == 0 then Some(b as int)
    else if count == 2 && b & 0xE0 == 0xC0 then Some((b & 0x1F) as int)
    else if count == 3 && b & 0xF0 == 0xE0 then Some((b & 0x0F) as int)
    else if count == 4 && b & 0xF8 == 0xF0 then Some((b & 0x07) as int)
    else None
  }

  /** The bit patterns as ranges of numbers. */
  lemma ByteClasses(b: Byte)
    ensures b & 0x80 == 0 <==> b as int < 0x80
    ensures b & 0xC0 == 0x80 <==> 0x80 <= b as int < 0xC0
    ensures b & 0xE0 == 0xC0 <==> 0xC0 <= b as int < 0xE0
    ensures b & 0xF0 == 0xE0 <==> 0xE0 <= b as int < 0xF0
    ensures b & 0xF8 == 0xF0 <==> 0xF0 <= b as int < 0xF8
  {
  }

  lemma SixBits(b: Byte)
    ensures (b & 0x3F) as int == b as int % 0x40
  {
  }

  lemma FiveBits(b: Byte)
    ensures (b & 0x1F) as int == b as int % 0x20
  {
  }

  lemma FourBits(b: Byte)
    ensures (b & 0x0F) as int == b as int % 0x10
  {
  }

  lemma ThreeBits(b: Byte)
    ensures (b & 0x07) as int == b as int % 0x08
  {
  }

  /** A trailing byte holds the last six bits of a number exactly if it is its continuation. */
  lemma {:induction false} TrailingIs(b: Byte, c: nat)
    ensures Trailing(b) == Some(c % 0x40) <==> b == Continuation(c)
    ensures Trailing(b).Some? ==> Trailing(b).value < 0x40
  {
    AsByte(0x80 + c % 0x40);
    ByteClasses(b);
    SixBits(b);
    if b as int == 0x80 + c % 0x40 {
      SameNumber(b, Continuation(c));
    }
  }

  /** What the first byte of an encoding of the given length looks like. */
  function LeadOf(count: nat, bits: nat): Byte
    requires 1 <= count <= 4 && bits < LeadRoom(count)
  {
    Lead(if count == 1 then 0 else if count == 2 then 0xC0 else if count == 3 then 0xE0 else 0xF0, bits)
  }

  function LeadRoom(count: nat): nat {
    if count == 1 then 0x80 else if count == 2 then 0x20 else if count == 3 then 0x10 else 0x08
  }

  lemma {:induction false} LeadingOne(b: Byte, bits: nat)
    requires bits < 0x80
    ensures b & 0x80 == 0 && b as int == bits <==> b == Lead(0, bits)
  {
    AsByte(bits);
    ByteClasses(b);
    if b as int == bits {
      SameNumber(b, Lead(0, bits));
    }
  }

  lemma {:induction false} LeadingTwo(b: Byte, bits: nat)
    requires bits < 0x20
    ensures b & 0xE0 == 0xC0 && (b & 0x1F) as int == bits <==> b == Lead(0xC0, bits)
  {
    AsByte(0xC0 + bits);
    ByteClasses(b);
    FiveBits(b);
    if b as int == 0xC0 + bits {
      SameNumber(b, Lead(0xC0, bits));
    }
  }

  lemma {:induction false} LeadingThree(b: Byte, bits: nat)
    requires bits < 0x10
    ensures b & 0xF0 == 0xE0 && (b & 0x0F) as int == bits <==> b == Lead(0xE0, bits)
  {
    AsByte(0xE0 + bits);
    ByteClasses(b);
    FourBits(b);
    if b as int == 0xE0 + bits {
      SameNumber(b, Lead(0xE0, bits));
    }
  }

  lemma {:induction false} LeadingFour(b: Byte, bits: nat)
    requires bits < 0x08
    ensures b & 0xF8 == 0xF0 && (b & 0x07) as int == bits <==> b == Lead(0xF0, bits)
  {
    AsByte(0xF0 + bits);
    ByteClasses(b);
    ThreeBits(b);
    if b as int == 0xF0 + bits {
      SameNumber(b, Lead(0xF0, bits));
    }
  }

  lemma {:induction false} LeadingIs(b: Byte, count: nat, bits: nat)
    requires 1 <= count <= 4 && bits < LeadRoom(count)
    ensures Leading(b, count) == Some(bits) <==> b == LeadOf(count, bits)
  {
    if count == 1 {
      LeadingOne(b, bits);
    } else if count == 2 {
      LeadingTwo(b, bits);
    } else if count == 3 {
      LeadingThree(b, bits);
    } else {
      LeadingFour(b, bits);
    }
  }
}
