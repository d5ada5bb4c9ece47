/** The tokenizer of lua-cjson, as functions of the text and a position. The text is followed
    by a terminator, and nothing beyond the terminator is ever looked at. */
module JsonLex {
  import opened Common
  import opened JsonText

  datatype Token =
    | ObjBegin | ObjEnd | ArrBegin | ArrEnd | Colon | Comma
    | StringToken(s: Bytes) | IntToken(n: Int64) | BoolToken(b: bool) | NullToken
    | End | ErrorToken

  datatype Lexed = Lexed(token: Token, ptr: nat)

  /** The byte at a position: the terminator at the end. */
  function At(data: Bytes, i: nat): Byte
    requires i <= |data|
  {
    if i < |data| then data[i] else 0
  }

  /** A zero byte inside the text also ends it, so a position is passed only if it is not
      zero. */
  predicate Whitespace(b: Byte) { b == 0x20 || b == 0x09 || b == 0x0A || b == 0x0D }

  function SkipWhitespace(data: Bytes, i: nat): (j: nat)
    requires i <= |data|
    ensures i <= j <= |data| && !Whitespace(At(data, j))
    decreases |data| - i
  {
    if Whitespace(At(data, i)) then SkipWhitespace(data, i + 1) else i
  }

  // ---- strings ---------------------------------------------------------------------------

  /** hexdigit2int; -1 for no digit. */
  function HexDigit(b: Byte): (d: int)
    ensures -1 <= d < 16
  {
    if 0x30 <= b <= 0x39 then b - 0x30
    else if 0x61 <= b <= 0x66 then b - 0x61 + 10
    else if 0x41 <= b <= 0x46 then b - 0x41 + 10
    else -1
  }

  /** decode_hex4: four digits from i on; -1 if one is missing. The terminator is no digit, so
      the reading stops there. */
  function Hex4(data: Bytes, i: nat): (r: int)
    requires i <= |data|
    ensures -1 <= r < 0x1_0000
    ensures r >= 0 ==> i + 4 <= |data|
  {
    if HexDigit(At(data, i)) < 0 then -1
    else if HexDigit(At(data, i + 1)) < 0 then -1
    else if HexDigit(At(data, i + 2)) < 0 then -1
    else if HexDigit(At(data, i + 3)) < 0 then -1
    else HexDigit(At(data, i)) * 0x1000 + HexDigit(At(data, i + 1)) * 0x100
         + HexDigit(At(data, i + 2)) * 0x10 + HexDigit(At(data, i + 3))
  }

  /** codepoint_to_utf8 */
  function Utf8(c: nat): (r: Bytes)
    requires c <= 0x1F_FFFF
    ensures 1 <= |r| <= 4 && (c <= 0xFFFF ==> |r| <= 3)
  {
    if c <= 0x7F then [c]
    else if c <= 0x7FF then [c / 0x40 + 0xC0, c % 0x40 + 0x80]
    else if c <= 0xFFFF then [c / 0x1000 + 0xE0, (c / 0x40) % 0x40 + 0x80, c % 0x40 + 0x80]
    else [c / 0x4_0000 + 0xF0, (c / 0x1000) % 0x40 + 0x80, (c / 0x40) % 0x40 + 0x80, c % 0x40 + 0x80]
  }

  datatype Unescaped = Unescaped(bytes: Bytes, length: nat) | BadEscape

  /** json_append_unicode_escape for an escape that starts at i: the UTF-8 bytes and the
      length of the escape. */
  function UnicodeEscape(data: Bytes, i: nat): (r: Unescaped)
    requires i + 2 <= |data|
    ensures r.Unescaped? ==> i + r.length <= |data| && 6 <= r.length && 1 <= |r.bytes| <= r.length
  {
    var unit := Hex4(data, i + 2);
    if unit < 0 then BadEscape
    else if 0xD800 <= unit < 0xE000 then
      if unit >= 0xDC00 then BadEscape
      else if At(data, i + 6) != BACKSLASH then BadEscape
      else if At(data, i + 7) != LOWER_U then BadEscape
      else
        var low := Hex4(data, i + 8);
        if low < 0xDC00 || low >= 0xE000 then BadEscape
        else Unescaped(Utf8((unit - 0xD800) * 0x400 + (low - 0xDC00) + 0x1_0000), 12)
    else Unescaped(Utf8(unit), 6)
  }

  /** escape2char; 0 for no escape. */
  function EscapeChar(b: Byte): (e: Byte)
    ensures e == LOWER_U <==> b == LOWER_U
    ensures b == 0 ==> e == 0
  {
    if b == QUOTE || b == BACKSLASH || b == SLASH || b == LOWER_U then b
    else if b == 0x62 then 0x08
    else if b == 0x74 then 0x09
    else if b == 0x6E then 0x0A
    else if b == 0x66 then 0x0C
    else if b == 0x72 then 0x0D
    else 0
  }

  /** The loop of json_next_string_token from position i on, with `acc` decoded so far. */
  function LexString(data: Bytes, i: nat, acc: Bytes): (r: Lexed)
    requires i <= |data|
    ensures r.ptr <= |data|
    ensures r.token.StringToken? ==> r.ptr > i && |r.token.s| - |acc| <= r.ptr - i - 1
    ensures r.token.StringToken? || r.token.ErrorToken?
    decreases |data| - i
  {
    var ch := At(data, i);
    if ch == QUOTE then Lexed(StringToken(acc), i + 1)
    else if ch == 0 then Lexed(ErrorToken, i)
    else if ch == BACKSLASH then
      var e := EscapeChar(At(data, i + 1));
      if e == LOWER_U then
        var u := UnicodeEscape(data, i);
        if u.BadEscape? then Lexed(ErrorToken, i) else LexString(data, i + u.length, acc + u.bytes)
      else if e == 0 then Lexed(ErrorToken, i)
      else LexString(data, i + 2, acc + [e])
    else LexString(data, i + 1, acc + [ch])
  }

  // ---- integers --------------------------------------------------------------------------

  /** A digit in the given base; -1 for none. */
  function DigitIn(b: Byte, base: nat): (d: int)
    ensures -1 <= d < 16
  {
    var d := HexDigit(b);
    if d < base then d else -1
  }

  datatype Scanned = Scanned(value: nat, end: nat)

  function Scan(data: Bytes, i: nat, base: nat, acc: nat): (r: Scanned)
    requires i <= |data| && base >= 1
    ensures i <= r.end <= |data|
    decreases |data| - i
  {
    var d := DigitIn(At(data, i), base);
    if d < 0 then Scanned(acc, i) else Scan(data, i + 1, base, acc * base + d)
  }

  function Clamp(n: int): Int64 {
    if n < -INT64 then -INT64 else if n >= INT64 then INT64 - 1 else n
  }

  /** strtoll with base 0, from an optional sign on. */
  function Strtoll(data: Bytes, i: nat): (r: Lexed)
    requires i <= |data|
    ensures i <= r.ptr <= |data|
    ensures r.token.IntToken? ==> r.ptr > i
    ensures r.token.IntToken? || r.token.ErrorToken?
  {
    var j := if At(data, i) == MINUS || At(data, i) == PLUS then i + 1 else i;
    var hex := At(data, j) == ZERO && (At(data, j + 1) == 0x78 || At(data, j + 1) == 0x58)
        && HexDigit(At(data, j + 2)) >= 0;
    var r := if hex then Scan(data, j + 2, 16, 0)
             else if At(data, j) == ZERO then Scan(data, j, 8, 0)
             else Scan(data, j, 10, 0);
    if r.end == j then Lexed(ErrorToken, i)
    else
      var n: int := r.value;
      Lexed(IntToken(Clamp(if At(data, i) == MINUS then -n else n)), r.end)
  }

  // ---- tokens ----------------------------------------------------------------------------

  predicate StartsWith(data: Bytes, i: nat, word: Bytes)
    requires i <= |data|
  {
    i + |word| <= |data| && data[i..i + |word|] == word
  }

  /** json_next_token at a position that is not whitespace, with invalid numbers let through as
      by default. Numbers with a fraction or an exponent are not modelled. */
  function LexAt(data: Bytes, i: nat): (r: Lexed)
    requires i <= |data|
    ensures i <= r.ptr <= |data|
    ensures r.token.End? || r.token.ErrorToken? || r.ptr > i
  {
    var ch := At(data, i);
    if ch == 0 then Lexed(End, i)
    else if ch == OPEN_OBJ then Lexed(ObjBegin, i + 1)
    else if ch == CLOSE_OBJ then Lexed(ObjEnd, i + 1)
    else if ch == OPEN_ARR then Lexed(ArrBegin, i + 1)
    else if ch == CLOSE_ARR then Lexed(ArrEnd, i + 1)
    else if ch == COMMA then Lexed(Comma, i + 1)
    else if ch == COLON then Lexed(Colon, i + 1)
    else if ch == QUOTE then
      var r := LexString(data, i + 1, []);
      if r.token.ErrorToken? then Lexed(ErrorToken, i) else r
    else if ch == MINUS || ch == PLUS || ZERO <= ch <= ZERO + 9 then
      var r := Strtoll(data, i);
      if r.token.ErrorToken? || At(data, r.ptr) == 0x2E || At(data, r.ptr) == 0x65 || At(data, r.ptr) == 0x45
      then Lexed(ErrorToken, i) else r
    else if StartsWith(data, i, TRUE_TEXT) then Lexed(BoolToken(true), i + 4)
    else if StartsWith(data, i, FALSE_TEXT) then Lexed(BoolToken(false), i + 5)
    else if StartsWith(data, i, NULL_TEXT) then Lexed(NullToken, i + 4)
    else Lexed(ErrorToken, i)
  }

  function Lex(data: Bytes, i: nat): (r: Lexed)
    requires i <= |data|
    ensures i <= r.ptr <= |data|
    ensures r.token.End? || r.token.ErrorToken? || r.ptr > i
  {
    LexAt(data, SkipWhitespace(data, i))
  }

  // ---- the encoder's text, read back -------------------------------------------------------

  /** The text has `piece` at position i. */
  ghost predicate Has(data: Bytes, i: nat, piece: Bytes) {
    i + |piece| <= |data| && data[i..i + |piece|] == piece
  }

  lemma HasSplit(data: Bytes, i: nat, a: Bytes, b: Bytes)
    requires Has(data, i, a + b)
    ensures Has(data, i, a) && Has(data, i + |a|, b)
  {
    var whole := data[i..i + |a + b|];
    assert whole[..|a|] == a && whole[|a|..] == b;
    assert data[i..i + |a|] == whole[..|a|];
    assert data[i + |a|..i + |a| + |b|] == whole[|a|..];
  }

  lemma HasAt(data: Bytes, i: nat, piece: Bytes, k: nat)
    requires Has(data, i, piece) && k < |piece|
    ensures i + k < |data| && At(data, i + k) == piece[k]
  {
    assert data[i..i + |piece|][k] == piece[k];
  }

  lemma StringEnds(data: Bytes, i: nat, acc: Bytes)
    requires i < |data| && data[i] == QUOTE
    ensures LexString(data, i, acc) == Lexed(StringToken(acc), i + 1)
  {
  }

  /** What may follow a value: the end, a blank, a comma or a closing bracket. */
  predicate Delimiter(b: Byte) { b == 0 || Whitespace(b) || b == COMMA || b == CLOSE_ARR || b == CLOSE_OBJ }

  lemma {:induction false} ScanNatText(data: Bytes, i: nat, n: nat)
    requires Has(data, i, NatText(n))
    ensures Scan(data, i, 10, 0) == Scan(data, i + |NatText(n)|, 10, n)
    decreases n
  {
    hide Scan;
    if n < 10 {
      HasAt(data, i, NatText(n), 0);
      ScanStep(data, i, 10, 0);
    } else {
      HasSplit(data, i, NatText(n / 10), [ZERO + n % 10]);
      ScanNatText(data, i, n / 10);
      var j := i + |NatText(n / 10)|;
      HasAt(data, j, [ZERO + n % 10], 0);
      ScanStep(data, j, 10, n / 10);
    }
  }

  lemma ScanStep(data: Bytes, i: nat, base: nat, acc: nat)
    requires i < |data| && base >= 1 && DigitIn(At(data, i), base) >= 0
    ensures Scan(data, i, base, acc) == Scan(data, i + 1, base, acc * base + DigitIn(At(data, i), base))
  {
  }

  lemma ScanStop(data: Bytes, i: nat, base: nat, acc: nat)
    requires i <= |data| && base >= 1 && DigitIn(At(data, i), base) < 0
    ensures Scan(data, i, base, acc) == Scanned(acc, i)
  {
  }

  /** The digits of a natural number, at a position where strtoll has dealt with the sign. */
  lemma ScanNumber(data: Bytes, j: nat, n: nat)
    requires Has(data, j, NatText(n)) && Delimiter(At(data, j + |NatText(n)|))
    ensures var base := if At(data, j) == ZERO then 8 else 10;
            Scan(data, j, base, 0) == Scanned(n, j + |NatText(n)|)
  {
    hide Scan;
    var k := j + |NatText(n)|;
    HasAt(data, j, NatText(n), 0);
    if n == 0 {
      ScanStep(data, j, 8, 0);
      ScanStop(data, k, 8, 0);
    } else {
      ScanNatText(data, j, n);
      ScanStop(data, k, 10, n);
    }
  }

  /** The digits behind the sign, if there is one. */
  lemma StrtollDigits(data: Bytes, i: nat, j: nat, m: nat)
    requires i <= j <= i + 1 && Has(data, j, NatText(m)) && Delimiter(At(data, j + |NatText(m)|))
    requires if j > i then At(data, i) == MINUS else ZERO <= At(data, i) <= ZERO + 9
    ensures var x: int := m;
            Strtoll(data, i) == Lexed(IntToken(Clamp(if j > i then -x else x)), j + |NatText(m)|)
  {
    hide Scan, NatText, Clamp, HexDigit;
    HasAt(data, j, NatText(m), 0);
    ScanNumber(data, j, m);
    NotHex(data, j, m);
  }

  /** A zero is followed by a delimiter, so it does not start a hexadecimal number. */
  lemma NotHex(data: Bytes, j: nat, m: nat)
    requires Has(data, j, NatText(m)) && Delimiter(At(data, j + |NatText(m)|))
    ensures j < |data|
    ensures !(At(data, j) == ZERO && (At(data, j + 1) == 0x78 || At(data, j + 1) == 0x58))
  {
    hide NatText;
    HasAt(data, j, NatText(m), 0);
    OneDigit();
  }

  lemma OneDigit()
    ensures |NatText(0)| == 1
  {
  }

  lemma LexWord(data: Bytes, i: nat, word: Bytes)
    requires Has(data, i, word) && (word == TRUE_TEXT || word == FALSE_TEXT || word == NULL_TEXT)
    ensures Lex(data, i) == Lexed(if word == NULL_TEXT then NullToken else BoolToken(word == TRUE_TEXT), i + |word|)
  {
    HasAt(data, i, word, 0);
    assert StartsWith(data, i, word);
    assert word != TRUE_TEXT ==> !StartsWith(data, i, TRUE_TEXT) by {
      assert StartsWith(data, i, TRUE_TEXT) ==> data[i..i + 4][0] == 0x74;
      assert At(data, i) == word[0];
    }
    assert word == NULL_TEXT ==> !StartsWith(data, i, FALSE_TEXT) by {
      assert StartsWith(data, i, FALSE_TEXT) ==> data[i..i + 5][0] == 0x66;
    }
  }
}
