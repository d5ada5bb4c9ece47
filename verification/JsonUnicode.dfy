/** What `\u` escapes mean (section 7 of RFC 8259): the decoder turns them into UTF-8. */
module JsonUnicode {
  import opened Common
  import opened JsonText
  import opened JsonLex
  import Utf8

  /** A code unit as an escape with lower-case digits. */
  function UnitText(u: nat): Bytes
    requires u < 0x1_0000
  {
    [BACKSLASH, LOWER_U, HexChar(u / 0x1000), HexChar(u / 0x100 % 0x10), HexChar(u / 0x10 % 0x10), HexChar(u % 0x10)]
  }

  predicate Surrogate(c: nat) { 0xD800 <= c < 0xE000 }

  function High(c: nat): nat { 0xD800 + (c - 0x1_0000) / 0x400 }

  function LowUnit(c: nat): nat { 0xDC00 + (c - 0x1_0000) % 0x400 }

  /** A code point as one escape, or as a pair of surrogates. */
  function EscapeText(c: nat): Bytes
    requires c < 0x11_0000
  {
    if c < 0x1_0000 then UnitText(c) else UnitText(High(c)) + UnitText(LowUnit(c))
  }

  lemma HexOf(d: nat)
    requires d < 16
    ensures HexDigit(HexChar(d)) == d
  {
  }

  lemma HexGroups(u: nat)
    ensures u == u / 0x10 * 0x10 + u % 0x10
    ensures u / 0x10 == u / 0x100 * 0x10 + u / 0x10 % 0x10
    ensures u / 0x100 == u / 0x1000 * 0x10 + u / 0x100 % 0x10
  {
  }

  lemma ReadUnit(data: Bytes, i: nat, u: nat)
    requires u < 0x1_0000 && Has(data, i, UnitText(u))
    ensures i + 6 <= |data| && At(data, i) == BACKSLASH && At(data, i + 1) == LOWER_U && Hex4(data, i + 2) == u
  {
    hide HexDigit, HexChar;
    var e := UnitText(u);
    HasAt(data, i, e, 0);
    HasAt(data, i, e, 1);
    HasAt(data, i, e, 2);
    HasAt(data, i, e, 3);
    HasAt(data, i, e, 4);
    HasAt(data, i, e, 5);
    HexOf(u / 0x1000);
    HexOf(u / 0x100 % 0x10);
    HexOf(u / 0x10 % 0x10);
    HexOf(u % 0x10);
    HexGroups(u);
  }

  /** The two UTF-8 writers of the repository agree. */
  lemma WritersAgree(c: nat)
    requires c < 0x11_0000
    ensures JsonLex.Utf8(c) == Utf8.Encoded(c)
  {
  }

  /** Every code point that is no surrogate, escaped, is read as its UTF-8 bytes; a low surrogate
      without a high one before it is refused. */
  lemma EscapedCodePoint(data: Bytes, i: nat, c: nat)
    requires c < 0x11_0000 && Has(data, i, EscapeText(c))
    ensures !Surrogate(c) ==> UnicodeEscape(data, i) == Unescaped(Utf8.Encoded(c), |EscapeText(c)|)
    ensures 0xDC00 <= c < 0xE000 ==> UnicodeEscape(data, i) == BadEscape
  {
    hide Has, HexChar, Hex4, JsonLex.Utf8, Utf8.Encoded;
    if c < 0x1_0000 {
      ReadUnit(data, i, c);
      WritersAgree(c);
    } else {
      HasSplit(data, i, UnitText(High(c)), UnitText(LowUnit(c)));
      ReadUnit(data, i, High(c));
      ReadUnit(data, i + 6, LowUnit(c));
      WritersAgree(c);
    }
  }
}
