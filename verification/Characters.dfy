/** What typed characters stand for: hex digits, and the bytes of their UTF-8 encoding. */
module Characters {
  import opened Prelude
  import opened Bits

  // ----- hex digits

  const LowerDigits: string := "0123456789abcdef"
  const UpperDigits: string := "0123456789ABCDEF"

  /** The character is the digit d, in either case. */
  predicate NamesDigit(ch: char, d: nat)
    requires d < 16
  {
    ch == LowerDigits[d] || ch == UpperDigits[d]
  }

  predicate IsHexDigit(ch: char) {
    '0' <= ch <= '9' || 'a' <= ch <= 'f' || 'A' <= ch <= 'F'
  }

  function DigitValue(ch: char): (d: nat)
    requires IsHexDigit(ch)
    ensures d < 16
  {
    if ch <= '9' then ch as int - '0' as int
    else if ch <= 'F' then ch as int - 'A' as int + 10
    else ch as int - 'a' as int + 10
  }

  function HexDigit(ch: char): Option<Byte> {
    if IsHexDigit(ch) then Some(ToByte(DigitValue(ch))) else None
  }

  lemma DigitValueNames(ch: char, d: nat)
    requires d < 16
    ensures IsHexDigit(ch) && DigitValue(ch) == d <==> NamesDigit(ch, d)
  {
  }

  /** A character is a digit exactly if it stands in one of the two alphabets, and its place
      there is the digit. */
  lemma {:induction false} HexDigitIs(ch: char, d: nat)
    requires d < 16
    ensures HexDigit(ch) == Some(ToByte(d)) <==> NamesDigit(ch, d)
  {
    DigitValueNames(ch, d);
    if IsHexDigit(ch) {
      SameByte(DigitValue(ch), d);
    }
  }

  /** There are no other digits. */
  lemma {:induction false} NoOtherDigits(ch: char)
    ensures HexDigit(ch).Some? <==> exists d: nat :: d < 16 && NamesDigit(ch, d)
  {
    if IsHexDigit(ch) {
      DigitValueNames(ch, DigitValue(ch));
    }
    if d: nat :| d < 16 && NamesDigit(ch, d) {
      HexDigitIs(ch, d);
    }
  }

  lemma DigitA()
    ensures HexDigit('a') == Some(10)
  {
    HexDigitIs('a', 10);
  }

  // ----- UTF-8

  /** The UTF-8 encoding of a character. */
  function Encode(ch: char): (bytes: Doc)
    ensures 1 <= |bytes| <= 4
  {
    var c := ch as int;
    if c < 0x80 then [ToByte(c)]
    else if c < 0x800 then [Lead(0xC0, c / 0x40), Continuation(c)]
    else if c < 0x1_0000 then [Lead(0xE0, c / 0x1000), Continuation(c / 0x40), Continuation(c)]
    else [Lead(0xF0, c / 0x4_0000), Continuation(c / 0x1000), Continuation(c / 0x40), Continuation(c)]
  }

  // ----- reading it back

  /** Six more bits. */
  function Append(high: Option<nat>, low: Option<nat>): Option<nat> {
    if high.Some? && low.Some? then Some(high.value * 0x40 + low.value) else None
  }

  /** The code point that the bytes make up. */
  function Assemble(bytes: Doc): Option<nat> {
    if |bytes| == 0 then None else AssembleUpTo(bytes, |bytes|)
  }

  function AssembleUpTo(bytes: Doc, k: nat): Option<nat>
    requires 1 <= k <= |bytes|
  {
    if k == 1 then Leading(bytes[0], |bytes|) else Append(AssembleUpTo(bytes, k - 1), Trailing(bytes[k - 1]))
  }

  /** How many bytes a code point takes. */
  function Width(c: nat): nat {
    if c < 0x80 then 1 else if c < 0x800 then 2 else if c < 0x1_0000 then 3 else 4
  }

  /** The character that the bytes encode, if they do. Longer forms than needed, surrogates
      and anything past the last code point are no encodings. */
  function Decode(bytes: Doc): Option<char> {
    var c := Assemble(bytes);
    if c.Some? && Width(c.value) == |bytes| && (c.value < 0xD800 || 0xE000 <= c.value < 0x11_0000) then Some(c.value as char)
    else None
  }

  lemma {:induction false} AppendIs(high: Option<nat>, low: Option<nat>, c: nat)
    requires low.Some? ==> low.value < 0x40
    ensures Append(high, low) == Some(c) <==> high == Some(c / 0x40) && low == Some(c % 0x40)
  {
  }

  /** The number without its last `k` groups of six bits. */
  function Shorter(c: nat, k: nat): nat {
    if k == 0 then c else Shorter(c / 0x40, k - 1)
  }

  lemma {:induction false} AssembleIs(bytes: Doc, k: nat, c: nat)
    requires 1 <= k <= |bytes| <= 4 && Shorter(c, k - 1) < LeadRoom(|bytes|)
    ensures AssembleUpTo(bytes, k) == Some(c) <==>
            && bytes[0] == LeadOf(|bytes|, Shorter(c, k - 1))
            && forall j :: 0 < j < k ==> bytes[j] == Continuation(Shorter(c, k - 1 - j))
    decreases k
  {
    if k == 1 {
      LeadingIs(bytes[0], |bytes|, c);
    } else {
      AssembleIs(bytes, k - 1, c / 0x40);
      TrailingIs(bytes[k - 1], c);
      AppendIs(AssembleUpTo(bytes, k - 1), Trailing(bytes[k - 1]), c);
      assert forall m: nat :: Shorter(c / 0x40, m) == Shorter(c, m + 1);
      assert Shorter(c, 0) == c;
    }
  }

  lemma ShorterIs(c: nat)
    ensures Shorter(c, 0) == c && Shorter(c, 1) == c / 0x40
    ensures Shorter(c, 2) == c / 0x1000 && Shorter(c, 3) == c / 0x4_0000
  {
    assert Shorter(c / 0x40 / 0x40 / 0x40, 0) == c / 0x40 / 0x40 / 0x40;
    assert Shorter(c / 0x40 / 0x40, 1) == c / 0x40 / 0x40 / 0x40;
    assert Shorter(c / 0x40, 2) == c / 0x40 / 0x40 / 0x40;
  }

  /** The bytes are a first byte and continuations, as the number of bytes demands. */
  ghost predicate Spells(bytes: Doc, c: nat)
    requires 1 <= |bytes| <= 4 && Shorter(c, |bytes| - 1) < LeadRoom(|bytes|)
  {
    && bytes[0] == LeadOf(|bytes|, Shorter(c, |bytes| - 1))
    && forall j :: 0 < j < |bytes| ==> bytes[j] == Continuation(Shorter(c, |bytes| - 1 - j))
  }

  lemma {:induction false} EncodeSpells(ch: char)
    ensures |Encode(ch)| == Width(ch as int) && Shorter(ch as int, |Encode(ch)| - 1) < LeadRoom(|Encode(ch)|)
    ensures Spells(Encode(ch), ch as int)
  {
    ShorterIs(ch as int);
  }

  lemma {:induction false} SpellsOnce(a: Doc, b: Doc, c: nat)
    requires 1 <= |a| == |b| <= 4 && Shorter(c, |a| - 1) < LeadRoom(|a|) && Spells(a, c)
    ensures Spells(b, c) <==> a == b
  {
    if Spells(b, c) {
      forall j | 0 <= j < |a| ensures a[j] == b[j] {
      }
    }
  }

  /** The encoding is the only byte string that decodes to the character. */
  lemma {:induction false} DecodesIff(bytes: Doc, ch: char)
    ensures Decode(bytes) == Some(ch) <==> bytes == Encode(ch)
  {
    var c := ch as int;
    EncodeSpells(ch);
    if |bytes| == Width(c) {
      SpellsOnce(Encode(ch), bytes, c);
      AssembleIs(bytes, |bytes|, c);
    }
  }

  /** A character below 128 is its own byte; the bytes after the first of any other are
      continuation bytes. */
  lemma {:induction false} EncodeForm(ch: char)
    ensures ch as int < 0x80 <==> |Encode(ch)| == 1
    ensures ch as int < 0x80 ==> Encode(ch)[0] as int == ch as int
    ensures forall i :: 0 < i < |Encode(ch)| ==> Encode(ch)[i] & 0xC0 == 0x80
  {
    EncodeSpells(ch);
    if ch as int < 0x80 {
      AsByte(ch as int);
    }
    forall i | 0 < i < |Encode(ch)| ensures Encode(ch)[i] & 0xC0 == 0x80 {
      TrailingIs(Encode(ch)[i], Shorter(ch as int, |Encode(ch)| - 1 - i));
    }
  }
}
