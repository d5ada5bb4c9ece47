/** The decoder reads every text of the JSON grammar, and the encoder writes such texts. */
module JsonRead {
  import opened Common
  import opened JsonText
  import opened JsonLex
  import opened JsonParse
  import opened JsonGrammar
  import opened DtoaDigits
  import JsonUnicode
  import Utf8

  // ---- blanks --------------------------------------------------------------------------------------

  /** Blanks before a token do not matter. */
  lemma {:induction false} LexBlank(data: Bytes, i: nat, w: Bytes)
    requires IsBlank(w) && Has(data, i, w)
    ensures Lex(data, i) == Lex(data, i + |w|)
    decreases |w|
  {
    hide LexAt;
    if w != [] {
      HasAt(data, i, w, 0);
      assert w == w[..1] + w[1..];
      HasSplit(data, i, w[..1], w[1..]);
      LexBlank(data, i + 1, w[1..]);
    }
  }

  /** A blank, or something else that ends a number, follows. */
  lemma BlankDelimits(data: Bytes, i: nat, w: Bytes)
    requires IsBlank(w) && Has(data, i, w) && Delimiter(At(data, i + |w|))
    ensures Delimiter(At(data, i))
  {
    if w != [] { HasAt(data, i, w, 0); }
  }

  // ---- strings -------------------------------------------------------------------------------------

  lemma AsciiHas(data: Bytes, i: nat, s: string, k: nat)
    requires Has(data, i, Ascii(s)) && k < |s|
    ensures i + k < |data| && At(data, i + k) == s[k] as int % 256
  {
    HasAt(data, i, Ascii(s), k);
  }

  lemma HexRead(c: char)
    requires IsHex(c)
    ensures HexDigit(c as int % 256) == HexOf(c)
  {
  }

  /** decode_hex4 on four hexadecimal digits of either case. */
  lemma UnitRead(data: Bytes, i: nat, h: string)
    requires IsUnit(h) && Has(data, i, Ascii("\\u" + h))
    ensures i + 6 <= |data| && At(data, i) == BACKSLASH && At(data, i + 1) == LOWER_U && Hex4(data, i + 2) == UnitOf(h)
  {
    hide HexDigit, HexOf, Ascii, Has;
    var s := "\\u" + h;
    AsciiHas(data, i, s, 0);
    AsciiHas(data, i, s, 1);
    AsciiHas(data, i, s, 2);
    AsciiHas(data, i, s, 3);
    AsciiHas(data, i, s, 4);
    AsciiHas(data, i, s, 5);
    HexRead(h[0]);
    HexRead(h[1]);
    HexRead(h[2]);
    HexRead(h[3]);
  }

  lemma CodeRead(data: Bytes, i: nat, h: string)
    requires CharOk(Code(h)) && Has(data, i, CharText(Code(h)))
    ensures i + 6 <= |data| && At(data, i) == BACKSLASH && At(data, i + 1) == LOWER_U
    ensures UnicodeEscape(data, i) == Unescaped(CharValue(Code(h)), 6)
  {
    hide Has, Hex4, UnitOf, Ascii, JsonLex.Utf8, Utf8.Encoded;
    UnitRead(data, i, h);
    JsonUnicode.WritersAgree(UnitOf(h));
  }

  lemma PairRead(data: Bytes, i: nat, h: string, l: string)
    requires CharOk(Surrogates(h, l)) && Has(data, i, CharText(Surrogates(h, l)))
    ensures i + 12 <= |data| && At(data, i) == BACKSLASH && At(data, i + 1) == LOWER_U
    ensures UnicodeEscape(data, i) == Unescaped(CharValue(Surrogates(h, l)), 12)
  {
    hide Has, Hex4, UnitOf, Ascii, JsonLex.Utf8, Utf8.Encoded;
    PairText2(h, l);
    HasSplit(data, i, Ascii("\\u" + h), Ascii("\\u" + l));
    UnitRead(data, i, h);
    UnitRead(data, i + 6, l);
    TenBits(UnitOf(h), UnitOf(l));
    JsonUnicode.WritersAgree(0x1_0000 + UnitOf(h) % 0x400 * 0x400 + UnitOf(l) % 0x400);
  }

  lemma PairText2(h: string, l: string)
    ensures Ascii("\\u" + h + "\\u" + l) == Ascii("\\u" + h) + Ascii("\\u" + l)
  {
  }

  lemma TenBits(hi: nat, lo: nat)
    requires 0xD800 <= hi < 0xDC00 <= lo < 0xE000
    ensures (hi - 0xD800) * 0x400 + (lo - 0xDC00) + 0x1_0000 == 0x1_0000 + hi % 0x400 * 0x400 + lo % 0x400
  {
  }

  /** Reading one character of a string. */
  lemma CharRead(data: Bytes, i: nat, acc: Bytes, c: StringChar)
    requires CharOk(c) && Has(data, i, CharText(c))
    ensures LexString(data, i, acc) == LexString(data, i + |CharText(c)|, acc + CharValue(c))
  {
    hide UnicodeEscape, Utf8.Encoded, UnitOf;
    match c
    case Plain(b) => HasAt(data, i, [b], 0);
    case Short(letter) => ShortRead(data, i, letter);
    case Code(h) => CodeRead(data, i, h);
    case Surrogates(h, l) => PairRead(data, i, h, l);
  }

  /** escape2char on the eight short escapes. */
  lemma ShortRead(data: Bytes, i: nat, letter: char)
    requires IsShort(letter) && Has(data, i, Ascii(['\\', letter]))
    ensures i + 2 <= |data| && At(data, i) == BACKSLASH
    ensures EscapeChar(At(data, i + 1)) == ShortValue(letter)
    ensures ShortValue(letter) != LOWER_U && ShortValue(letter) != 0
  {
    AsciiHas(data, i, ['\\', letter], 0);
    AsciiHas(data, i, ['\\', letter], 1);
  }

  lemma {:induction false} CharsRead(data: Bytes, i: nat, acc: Bytes, cs: seq<StringChar>)
    requires CharsOk(cs) && Has(data, i, CharsText(cs))
    ensures LexString(data, i, acc) == LexString(data, i + |CharsText(cs)|, acc + CharsValue(cs))
    decreases |cs|
  {
    hide LexString, CharText, CharValue, CharOk;
    if cs == [] {
      assert acc + CharsValue(cs) == acc;
    } else {
      var front, c := cs[..|cs| - 1], cs[|cs| - 1];
      HasSplit(data, i, CharsText(front), CharText(c));
      CharsRead(data, i, acc, front);
      CharRead(data, i + |CharsText(front)|, acc + CharsValue(front), c);
      assert acc + CharsValue(front) + CharValue(c) == acc + CharsValue(cs);
    }
  }

  /** The token of a string of the grammar is what the string denotes. */
  lemma LexQuoted(data: Bytes, i: nat, cs: seq<StringChar>)
    requires CharsOk(cs) && Has(data, i, QuotedText(cs))
    ensures Lex(data, i) == Lexed(StringToken(CharsValue(cs)), i + |QuotedText(cs)|)
  {
    hide LexString, CharsText, CharsValue, CharsOk;
    var q := Ascii("\"");
    assert q == [QUOTE] && QuotedText(cs) == q + (CharsText(cs) + q);
    HasSplit(data, i, q, CharsText(cs) + q);
    HasSplit(data, i + 1, CharsText(cs), q);
    HasAt(data, i, q, 0);
    HasAt(data, i + 1 + |CharsText(cs)|, q, 0);
    CharsRead(data, i + 1, [], cs);
    assert [] + CharsValue(cs) == CharsValue(cs);
    StringEnds(data, i + 1 + |CharsText(cs)|, CharsValue(cs));
  }

  // ---- numbers -------------------------------------------------------------------------------------

  /** Digits without a leading zero are the text of their value. */
  lemma {:induction false} DigitsAreNat(ds: seq<Digit>)
    requires ds != [] && (ds[0] == 0 ==> |ds| == 1)
    ensures DigitsText(ds) == NatText(Dec(ds)) && (ds[0] != 0 ==> Dec(ds) > 0)
    decreases |ds|
  {
    hide NatText, DigitsText;
    if |ds| == 1 {
      OneDigitText(ds);
    } else {
      var k := |ds| - 1;
      DigitsAreNat(ds[..k]);
      DigitsTextSnoc(ds);
      NatTextSnoc(Dec(ds[..k]), ds[k]);
    }
  }

  lemma OneDigitText(ds: seq<Digit>)
    requires |ds| == 1
    ensures DigitsText(ds) == NatText(Dec(ds)) && Dec(ds) == ds[0]
  {
    assert ds[..0] == [];
    assert DigitsText(ds) == [ZERO + ds[0]];
  }

  lemma DigitsTextSnoc(ds: seq<Digit>)
    requires ds != []
    ensures var k := |ds| - 1; DigitsText(ds) == DigitsText(ds[..k]) + [ZERO + ds[k]]
  {
  }

  lemma NatTextSnoc(n: nat, d: Digit)
    requires n > 0
    ensures NatText(10 * n + d) == NatText(n) + [ZERO + d]
  {
    assert (10 * n + d) / 10 == n && (10 * n + d) % 10 == d;
  }

  /** The token of an integer of the grammar is the nearest 64-bit integer. */
  lemma LexNumber(data: Bytes, i: nat, negative: bool, ds: seq<Digit>)
    requires ds != [] && (ds[0] == 0 ==> |ds| == 1)
    requires var t := NumberTree(negative, ds); Has(data, i, TreeText(t)) && Delimiter(At(data, i + |TreeText(t)|))
    ensures var t := NumberTree(negative, ds);
            Lex(data, i) == Lexed(IntToken(Saturated(Signed(negative, Dec(ds)))), i + |TreeText(t)|)
  {
    hide NatText, Dec, Has, Strtoll, Lex, DigitsText, Delimiter, Clamp, Saturated;
    var m := Dec(ds);
    DigitsAreNat(ds);
    var sign := if negative then Ascii("-") else [];
    assert TreeText(NumberTree(negative, ds)) == sign + NatText(m);
    HasSplit(data, i, sign, NatText(m));
    if negative {
      AsciiHas(data, i, "-", 0);
    } else {
      HasAt(data, i, NatText(m), 0);
    }
    StrtollDigits(data, i, i + |sign|, m);
    SaturatedIsClamp(Signed(negative, m));
    LexStrtoll(data, i);
  }

  lemma SaturatedIsClamp(n: int)
    ensures Saturated(n) == Clamp(n)
  {
  }

  /** A number that ends at a delimiter is a token. */
  lemma LexStrtoll(data: Bytes, i: nat)
    requires i < |data| && (At(data, i) == MINUS || ZERO <= At(data, i) <= ZERO + 9)
    requires Strtoll(data, i).token.IntToken? && Delimiter(At(data, Strtoll(data, i).ptr))
    ensures Lex(data, i) == Strtoll(data, i)
  {
    hide Strtoll, LexString, StartsWith;
  }

  // ---- values --------------------------------------------------------------------------------------

  /** What the parser makes of a tree at depth d whose text ends at ptr. */
  function ExpectedTree(t: Tree, limit: nat, d: nat, ptr: nat): Parsed {
    if d + TreeDepth(t) <= limit then Ok(Meaning(t), ptr) else Err(TooDeep)
  }

  lemma Words()
    ensures Ascii("null") == NULL_TEXT && Ascii("true") == TRUE_TEXT && Ascii("false") == FALSE_TEXT
    ensures Ascii("[") == [OPEN_ARR] && Ascii("]") == [CLOSE_ARR]
    ensures Ascii("{") == [OPEN_OBJ] && Ascii("}") == [CLOSE_OBJ]
    ensures Ascii(",") == [COMMA] && Ascii(":") == [COLON] && Ascii("\"") == [QUOTE]
  {
  }

  /** Inside any text, the text of a tree is parsed to its meaning if and only if its depth is within
      the limit. */
  lemma {:induction false} ReadTree(t: Tree, data: Bytes, limit: nat, i: nat, d: nat)
    requires TreeOk(t) && Has(data, i, TreeText(t)) && Delimiter(At(data, i + |TreeText(t)|)) && d <= limit
    ensures var l := Lex(data, i);
            Value(data, limit, l.token, l.ptr, d) == ExpectedTree(t, limit, d, i + |TreeText(t)|)
    decreases t, 2
  {
    hide Lex, QuotedText, CharsValue, CharsOk, ItemTexts, MemberTexts, ItemsDeep, MembersDeep, Items, Pairs, Dec,
         DigitsText, Table;
    match t
    case NullTree => Words(); LexWord(data, i, NULL_TEXT);
    case BoolTree(b) => Words(); LexWord(data, i, if b then TRUE_TEXT else FALSE_TEXT);
    case NumberTree(negative, digits) => LexNumber(data, i, negative, digits);
    case StringTree(chars) => LexQuoted(data, i, chars);
    case ArrayTree(items, blank) => ReadArray(t, items, blank, data, limit, i, d);
    case ObjectTree(members, blank) => ReadObject(t, members, blank, data, limit, i, d);
  }

  /** A value between blanks, with a mark behind them. */
  lemma {:induction false} ReadItem(x: Item, rest: Bytes, data: Bytes, limit: nat, i: nat, d: nat)
    returns (j: nat)
    requires ItemOk(x) && Has(data, i, ItemText(x) + rest) && rest != [] && d <= limit
    requires rest[0] == COMMA || rest[0] == CLOSE_ARR || rest[0] == CLOSE_OBJ
    ensures i <= j <= |data| && i + |ItemText(x)| <= |data| && Has(data, i + |ItemText(x)|, rest)
    ensures var l := Lex(data, i); Value(data, limit, l.token, l.ptr, d) == ExpectedTree(x.value, limit, d, j)
    ensures Lex(data, j) == Lex(data, i + |ItemText(x)|)
    decreases x, 1
  {
    hide Lex, Value, Has, TreeText, TreeOk, IsBlank, Delimiter, At, ExpectedTree, ItemText;
    var v := i + |x.before|;
    ItemParts(x, rest, data, i);
    j := v + |TreeText(x.value)|;
    MarkDelimits(data, j + |x.after|, rest);
    BlankDelimits(data, j, x.after);
    ReadTree(x.value, data, limit, v, d);
  }

  /** Where the parts of an item are. */
  lemma ItemParts(x: Item, rest: Bytes, data: Bytes, i: nat)
    requires IsBlank(x.before) && IsBlank(x.after) && Has(data, i, ItemText(x) + rest)
    ensures var text, v := TreeText(x.value), i + |x.before|;
            var j := v + |text|;
            && i + |ItemText(x)| == j + |x.after| && j + |x.after| + |rest| <= |data|
            && Has(data, v, text) && Has(data, j, x.after) && Has(data, j + |x.after|, rest)
            && Lex(data, i) == Lex(data, v) && Lex(data, j) == Lex(data, j + |x.after|)
  {
    hide Lex, Has, TreeText, IsBlank;
    var text := TreeText(x.value);
    assert ItemText(x) + rest == x.before + (text + (x.after + rest));
    HasSplit(data, i, x.before, text + (x.after + rest));
    var v := i + |x.before|;
    HasSplit(data, v, text, x.after + rest);
    var j := v + |text|;
    HasSplit(data, j, x.after, rest);
    HasFits(data, j + |x.after|, rest);
    LexBlank(data, i, x.before);
    LexBlank(data, j, x.after);
  }

  lemma MarkDelimits(data: Bytes, i: nat, rest: Bytes)
    requires Has(data, i, rest) && rest != []
    requires rest[0] == COMMA || rest[0] == CLOSE_ARR || rest[0] == CLOSE_OBJ
    ensures i + |rest| <= |data| && Delimiter(At(data, i))
  {
    HasAt(data, i, rest, 0);
  }

  // ---- arrays --------------------------------------------------------------------------------------

  /** One turn of the array loop. */
  lemma ItemsUnroll(data: Bytes, limit: nat, i: nat, d: nat, acc: seq<Json>, r: Parsed)
    requires i <= |data| && (r.Ok? ==> r.ptr <= |data|)
    requires var l := Lex(data, i); Value(data, limit, l.token, l.ptr, d) == r
    ensures r.Err? ==> Items(data, limit, i, d, acc) == r
    ensures r.Ok? ==>
              var e := Lex(data, r.ptr);
              Items(data, limit, i, d, acc)
              == if e.token.ArrEnd? then Ok(Arr(acc + [r.value]), e.ptr)
                 else if e.token.Comma? then Items(data, limit, e.ptr, d, acc + [r.value])
                 else Err(Syntax)
  {
    hide Lex, Value;
  }

  /** What follows the first item. */
  ghost function AfterItem(items: seq<Item>): Bytes
    requires items != []
  {
    if |items| == 1 then [CLOSE_ARR] else [COMMA] + (ItemTexts(items[1..]) + [CLOSE_ARR])
  }

  lemma ItemsSplit(items: seq<Item>)
    requires items != []
    ensures ItemTexts(items) + [CLOSE_ARR] == ItemText(items[0]) + AfterItem(items)
    ensures |ItemTexts(items)| + 1 == |ItemText(items[0])| + |AfterItem(items)|
    ensures ItemsDeep(items) == Max(TreeDepth(items[0].value), ItemsDeep(items[1..]))
    ensures Meanings(items) == [Meaning(items[0].value)] + Meanings(items[1..])
  {
    hide ItemText, TreeDepth, Meaning;
    Words();
    if |items| > 1 {
      Regroup(ItemText(items[0]), [COMMA], ItemTexts(items[1..]), [CLOSE_ARR]);
    }
  }

  lemma NoItems()
    ensures ItemsDeep([]) == 0 && Meanings([]) == []
  {
  }

  lemma {:induction false} ReadItems(items: seq<Item>, data: Bytes, limit: nat, i: nat, d: nat, acc: seq<Json>)
    requires items != [] && (forall k | 0 <= k < |items| :: ItemOk(items[k])) && d <= limit
    requires Has(data, i, ItemTexts(items) + [CLOSE_ARR])
    ensures Items(data, limit, i, d, acc)
            == if d + ItemsDeep(items) <= limit then Ok(Arr(acc + Meanings(items)), i + |ItemTexts(items)| + 1)
               else Err(TooDeep)
    ensures !Lex(data, i).token.ArrEnd?
    decreases items, 0
  {
    hide Lex, ItemOk, ItemText, Value, TreeDepth, Items, ItemTexts, ItemsDeep, Meaning, Meanings, Has, Delimiter, At;
    var x, rest := items[0], AfterItem(items);
    ItemsSplit(items);
    var j := ReadItem(x, rest, data, limit, i, d);
    NotClosed(data, limit, i, d, ExpectedTree(x.value, limit, d, j));
    ItemsUnroll(data, limit, i, d, acc, ExpectedTree(x.value, limit, d, j));
    if d + TreeDepth(x.value) <= limit {
      var k := i + |ItemText(x)|;
      MarkRead(data, k, rest);
      if |items| == 1 {
        NoItems();
        assert acc + [Meaning(x.value)] == acc + Meanings(items);
      } else {
        HasSplit(data, k, [COMMA], ItemTexts(items[1..]) + [CLOSE_ARR]);
        ReadItems(items[1..], data, limit, k + 1, d, acc + [Meaning(x.value)]);
        assert acc + [Meaning(x.value)] + Meanings(items[1..]) == acc + Meanings(items);
      }
    }
  }

  /** A token that starts a value is no closing bracket. */
  lemma NotClosed(data: Bytes, limit: nat, i: nat, d: nat, r: Parsed)
    requires i <= |data| && (r.Ok? || r == Err(TooDeep))
    requires var l := Lex(data, i); Value(data, limit, l.token, l.ptr, d) == r
    ensures !Lex(data, i).token.ArrEnd? && !Lex(data, i).token.ObjEnd?
  {
    hide Lex, Array, Object;
  }

  lemma MarkRead(data: Bytes, j: nat, rest: Bytes)
    requires Has(data, j, rest) && rest != []
    requires rest[0] == COMMA || rest[0] == CLOSE_ARR || rest[0] == CLOSE_OBJ
    ensures j < |data|
    ensures Lex(data, j)
            == Lexed(if rest[0] == COMMA then Comma else if rest[0] == CLOSE_ARR then ArrEnd else ObjEnd, j + 1)
  {
    hide Lex;
    HasAt(data, j, rest, 0);
    LexMark(data, j, rest[0]);
  }

  lemma {:induction false} ReadArray(t: Tree, items: seq<Item>, blank: Bytes, data: Bytes, limit: nat, i: nat, d: nat)
    requires t == ArrayTree(items, blank) && TreeOk(t) && Has(data, i, TreeText(t)) && d <= limit
    ensures var l := Lex(data, i);
            Value(data, limit, l.token, l.ptr, d) == ExpectedTree(t, limit, d, i + |TreeText(t)|)
    decreases t, 1
  {
    hide Lex, Items, ItemTexts, ItemsDeep, Meanings, ItemOk, IsBlank;
    Words();
    var body := (if items == [] then blank else ItemTexts(items)) + [CLOSE_ARR];
    assert TreeText(t) == [OPEN_ARR] + body;
    HasSplit(data, i, [OPEN_ARR], body);
    HasAt(data, i, [OPEN_ARR], 0);
    LexMark(data, i, OPEN_ARR);
    if d + 1 <= limit {
      if items == [] {
        HasSplit(data, i + 1, blank, [CLOSE_ARR]);
        LexBlank(data, i + 1, blank);
        MarkRead(data, i + 1 + |blank|, [CLOSE_ARR]);
        NoItems();
      } else {
        ReadItems(items, data, limit, i + 1, d + 1, []);
        assert [] + Meanings(items) == Meanings(items);
      }
    }
  }

  // ---- objects -------------------------------------------------------------------------------------

  /** One turn of the object loop, for a pair whose key ends at k and whose colon ends at c. */
  lemma PairsUnroll(data: Bytes, limit: nat, i: nat, d: nat, acc: seq<Pair>, key: Bytes, k: nat, c: nat, r: Parsed)
    requires i <= |data| && k <= |data| && c <= |data| && (r.Ok? ==> c <= r.ptr <= |data|)
    requires Lex(data, i) == Lexed(StringToken(key), k) && Lex(data, k) == Lexed(Colon, c)
    requires var l := Lex(data, c); Value(data, limit, l.token, l.ptr, d) == r
    ensures r.Err? ==> Pairs(data, limit, i, d, acc) == r
    ensures r.Ok? ==>
              var e := Lex(data, r.ptr);
              Pairs(data, limit, i, d, acc)
              == if e.token.ObjEnd? then Ok(Obj(RawSet(acc, key, r.value)), e.ptr)
                 else if e.token.Comma? then Pairs(data, limit, e.ptr, d, RawSet(acc, key, r.value))
                 else Err(Syntax)
  {
    hide Lex, Value, RawSet;
  }

  /** The key and the colon of a member. */
  lemma ReadKey(p: ObjectMember, rest: Bytes, data: Bytes, i: nat) returns (k: nat, c: nat)
    requires MemberOk(p) && Has(data, i, MemberText(p) + rest)
    ensures i <= k <= c <= |data| && c + |ItemText(p.item)| == i + |MemberText(p)|
    ensures Lex(data, i) == Lexed(StringToken(CharsValue(p.key)), k) && Lex(data, k) == Lexed(Colon, c)
    ensures Has(data, c, ItemText(p.item) + rest)
  {
    hide Lex, Has, QuotedText, ItemText, CharsValue, CharsOk, IsBlank, ItemOk;
    Words();
    var tail := ItemText(p.item) + rest;
    MemberSplit(p, rest);
    HasSplit(data, i, p.before, QuotedText(p.key) + (p.behind + ([COLON] + tail)));
    LexBlank(data, i, p.before);
    var q := i + |p.before|;
    HasSplit(data, q, QuotedText(p.key), p.behind + ([COLON] + tail));
    LexQuoted(data, q, p.key);
    k := q + |QuotedText(p.key)|;
    HasSplit(data, k, p.behind, [COLON] + tail);
    LexBlank(data, k, p.behind);
    c := k + |p.behind| + 1;
    HasSplit(data, c - 1, [COLON], tail);
    HasAt(data, c - 1, [COLON], 0);
    LexMark(data, c - 1, COLON);
    HasFits(data, c, tail);
  }

  lemma HasFits(data: Bytes, i: nat, piece: Bytes)
    requires Has(data, i, piece)
    ensures i + |piece| <= |data|
  {
  }

  lemma MemberSplit(p: ObjectMember, rest: Bytes)
    ensures MemberText(p) + rest
            == p.before + (QuotedText(p.key) + (p.behind + ([COLON] + (ItemText(p.item) + rest))))
    ensures |MemberText(p)| == |p.before| + |QuotedText(p.key)| + |p.behind| + 1 + |ItemText(p.item)|
  {
    hide QuotedText, ItemText;
    Words();
  }

  ghost function AfterMember(members: seq<ObjectMember>): Bytes
    requires members != []
  {
    if |members| == 1 then [CLOSE_OBJ] else [COMMA] + (MemberTexts(members[1..]) + [CLOSE_OBJ])
  }

  lemma MembersSplit(members: seq<ObjectMember>)
    requires members != []
    ensures MemberTexts(members) + [CLOSE_OBJ] == MemberText(members[0]) + AfterMember(members)
    ensures |MemberTexts(members)| + 1 == |MemberText(members[0])| + |AfterMember(members)|
    ensures MembersDeep(members) == Max(TreeDepth(members[0].item.value), MembersDeep(members[1..]))
    ensures Entries(members) == [EntryOf(members[0])] + Entries(members[1..])
  {
    hide MemberText, TreeDepth, Meaning, CharsValue;
    Words();
    if |members| > 1 {
      Regroup(MemberText(members[0]), [COMMA], MemberTexts(members[1..]), [CLOSE_OBJ]);
    }
  }

  function EntryOf(p: ObjectMember): Pair { Pair(CharsValue(p.key), Meaning(p.item.value)) }

  lemma NoMembers()
    ensures MembersDeep([]) == 0 && Entries([]) == [] && Table([]) == []
  {
  }

  lemma TableNext(done: seq<Pair>, p: Pair)
    ensures RawSet(Table(done), p.key, p.value) == Table(done + [p])
  {
    assert (done + [p])[..|done|] == done;
  }

  lemma {:induction false} ReadMembers(done: seq<Pair>, members: seq<ObjectMember>, data: Bytes, limit: nat,
                                       i: nat, d: nat)
    requires members != [] && (forall k | 0 <= k < |members| :: MemberOk(members[k])) && d <= limit
    requires Has(data, i, MemberTexts(members) + [CLOSE_OBJ])
    ensures Pairs(data, limit, i, d, Table(done))
            == if d + MembersDeep(members) <= limit
               then Ok(Obj(Table(done + Entries(members))), i + |MemberTexts(members)| + 1) else Err(TooDeep)
    ensures !Lex(data, i).token.ObjEnd?
    decreases members, 0
  {
    hide Lex, ItemText, MemberText, Value, TreeDepth, Pairs, MemberTexts, MembersDeep, Meaning, Entries, Table,
         Has, Delimiter, At, RawSet, CharsValue, CharsOk, IsBlank;
    var p, rest := members[0], AfterMember(members);
    MembersSplit(members);
    var c0, c := ReadKey(p, rest, data, i);
    assert ItemOk(p.item);
    hide MemberOk;
    var j := ReadItem(p.item, rest, data, limit, c, d);
    PairsUnroll(data, limit, i, d, Table(done), CharsValue(p.key), c0, c, ExpectedTree(p.item.value, limit, d, j));
    if d + TreeDepth(p.item.value) <= limit {
      var e, k := EntryOf(p), i + |MemberText(p)|;
      MarkRead(data, k, rest);
      TableNext(done, e);
      if |members| == 1 {
        NoMembers();
        assert done + [e] == done + Entries(members);
      } else {
        HasSplit(data, k, [COMMA], MemberTexts(members[1..]) + [CLOSE_OBJ]);
        ReadMembers(done + [e], members[1..], data, limit, k + 1, d);
        assert done + [e] + Entries(members[1..]) == done + Entries(members);
      }
    }
  }

  lemma {:induction false} ReadObject(t: Tree, members: seq<ObjectMember>, blank: Bytes, data: Bytes, limit: nat,
                                      i: nat, d: nat)
    requires t == ObjectTree(members, blank) && TreeOk(t) && Has(data, i, TreeText(t)) && d <= limit
    ensures var l := Lex(data, i);
            Value(data, limit, l.token, l.ptr, d) == ExpectedTree(t, limit, d, i + |TreeText(t)|)
    decreases t, 1
  {
    hide Lex, Pairs, MemberTexts, MembersDeep, Entries, MemberOk, IsBlank, Table;
    Words();
    var body := (if members == [] then blank else MemberTexts(members)) + [CLOSE_OBJ];
    assert TreeText(t) == [OPEN_OBJ] + body;
    HasSplit(data, i, [OPEN_OBJ], body);
    HasAt(data, i, [OPEN_OBJ], 0);
    LexMark(data, i, OPEN_OBJ);
    NoMembers();
    if d + 1 <= limit {
      if members == [] {
        HasSplit(data, i + 1, blank, [CLOSE_OBJ]);
        LexBlank(data, i + 1, blank);
        MarkRead(data, i + 1 + |blank|, [CLOSE_OBJ]);
      } else {
        ReadMembers([], members, data, limit, i + 1, d + 1);
        assert [] + Entries(members) == Entries(members);
      }
    }
  }

  // ---- whole texts ---------------------------------------------------------------------------------

  /** The decoder on every JSON text whose numbers are integers: it gives what the text denotes if its
      depth is within the limit, and refuses it for its depth otherwise. */
  lemma DecodeText(x: Item, limit: nat)
    requires ItemOk(x)
    ensures Decode(ItemText(x), limit)
            == if TreeDepth(x.value) <= limit then Decoded(Meaning(x.value)) else Rejected(TooDeep)
  {
    hide Lex, Value, TreeText, TreeOk, TreeDepth, IsBlank, Meaning, ItemText, ItemOk;
    var data := ItemText(x);
    ItemNoZero(x);
    var i, j := WholeItem(x, limit);
    DecodeUnroll(data, limit, i, ExpectedTree(x.value, limit, 0, j));
  }

  lemma DecodeUnroll(data: Bytes, limit: nat, i: nat, r: Parsed)
    requires 0 !in data && i <= |data| && Lex(data, 0) == Lex(data, i)
    requires var l := Lex(data, i); Value(data, limit, l.token, l.ptr, 0) == r
    requires r.Ok? ==> r.ptr <= |data| && Lex(data, r.ptr).token.End?
    ensures Decode(data, limit) == if r.Err? then Rejected(r.error) else Decoded(r.value)
  {
    hide Lex, Value;
  }

  lemma WholeItem(x: Item, limit: nat) returns (i: nat, j: nat)
    requires ItemOk(x)
    ensures var data := ItemText(x);
            && i <= j <= |data| && Lex(data, 0) == Lex(data, i) && Lex(data, j).token.End?
            && (var l := Lex(data, i); Value(data, limit, l.token, l.ptr, 0) == ExpectedTree(x.value, limit, 0, j))
  {
    hide Lex, Value, TreeText, TreeOk, IsBlank, ExpectedTree, ItemText, Has;
    var data := ItemText(x);
    WholeHas(data);
    ItemParts(x, [], data, 0);
    i := |x.before|;
    j := i + |TreeText(x.value)|;
    BlankDelimits(data, j, x.after);
    ReadTree(x.value, data, limit, i, 0);
    LexEnd(data);
  }

  lemma WholeHas(data: Bytes)
    ensures Has(data, 0, data + [])
  {
    assert data[0..0 + |data|] == data && data + [] == data;
  }

  lemma {:induction false} ItemNoZero(x: Item)
    requires ItemOk(x)
    ensures 0 !in ItemText(x)
    decreases x, 0
  {
    hide TreeText, TreeOk;
    TreeNoZero(x.value);
  }

  lemma {:induction false} TreeNoZero(t: Tree)
    requires TreeOk(t)
    ensures 0 !in TreeText(t)
    decreases t, 1
  {
    hide CharsText, CharsOk, ItemTexts, MemberTexts, ItemOk, MemberOk;
    Words();
    match t
    case StringTree(chars) => CharsNoZero(chars);
    case ArrayTree(items, _) => if items != [] { ItemsNoZero(items); }
    case ObjectTree(members, _) => if members != [] { MembersNoZero(members); }
    case NumberTree(_, digits) => MinusNoZero();
    case _ =>
  }

  lemma MinusNoZero()
    ensures Ascii("-") == [MINUS]
  {
  }

  lemma {:induction false} CharsNoZero(cs: seq<StringChar>)
    requires CharsOk(cs)
    ensures 0 !in CharsText(cs)
  {
    hide CharText, CharOk;
    if cs != [] {
      CharsNoZero(cs[..|cs| - 1]);
      CharNoZero(cs[|cs| - 1]);
    }
  }

  lemma CharNoZero(c: StringChar)
    requires CharOk(c)
    ensures 0 !in CharText(c)
  {
    hide UnitOf, Ascii;
    match c
    case Plain(_) =>
    case Short(letter) => AsciiNoZero(['\\', letter]);
    case Code(h) => UnitNoZero(h);
    case Surrogates(h, l) =>
      UnitNoZero(h);
      UnitNoZero(l);
      PairText2(h, l);
  }

  lemma UnitNoZero(h: string)
    requires IsUnit(h)
    ensures 0 !in Ascii("\\u" + h)
  {
    hide Ascii;
    var s := "\\u" + h;
    assert s == ['\\', 'u', h[0], h[1], h[2], h[3]];
    AsciiNoZero(s);
  }

  lemma AsciiNoZero(s: string)
    requires forall c <- s :: c as int % 256 != 0
    ensures 0 !in Ascii(s)
  {
    forall i | 0 <= i < |s| ensures Ascii(s)[i] != 0 { assert s[i] in s; }
  }

  lemma {:induction false} ItemsNoZero(items: seq<Item>)
    requires items != [] && forall k | 0 <= k < |items| :: ItemOk(items[k])
    ensures 0 !in ItemTexts(items)
    decreases items, 0
  {
    hide ItemText, ItemOk;
    ItemNoZero(items[0]);
    if |items| > 1 { ItemsNoZero(items[1..]); }
  }

  lemma {:induction false} MemberNoZero(p: ObjectMember)
    requires MemberOk(p)
    ensures 0 !in MemberText(p)
    decreases p, 0
  {
    hide ItemText, ItemOk, CharsText, CharsOk;
    Words();
    CharsNoZero(p.key);
    ItemNoZero(p.item);
  }

  lemma {:induction false} MembersNoZero(members: seq<ObjectMember>)
    requires members != [] && forall k | 0 <= k < |members| :: MemberOk(members[k])
    ensures 0 !in MemberTexts(members)
    decreases members, 0
  {
    hide MemberText, MemberOk;
    MemberNoZero(members[0]);
    Words();
    if |members| > 1 { MembersNoZero(members[1..]); }
  }

  // ---- the encoder's texts ---------------------------------------------------------------------------

  function HexLetter(d: nat): char { if d < 10 then '0' + d as char else 'a' + ((d - 10) % 6) as char }

  /** How the encoder writes a byte. */
  function CharOf(b: Byte): StringChar {
    if b == 0x08 then Short('b') else if b == 0x09 then Short('t') else if b == 0x0A then Short('n')
    else if b == 0x0C then Short('f') else if b == 0x0D then Short('r')
    else if b == 0x22 then Short('"') else if b == 0x2F then Short('/') else if b == 0x5C then Short('\\')
    else if b < 0x20 || b == 0x7F then Code(['0', '0', HexLetter(b / 16), HexLetter(b % 16)])
    else Plain(b)
  }

  lemma CharOfByte(b: Byte)
    ensures CharOk(CharOf(b)) && CharText(CharOf(b)) == Escape(b) && CharValue(CharOf(b)) == [b]
  {
    if CharOf(b).Code? {
      CodeOfByte(b);
    }
  }

  /** char2escape, in characters. */
  lemma EscapeTable(b: Byte)
    ensures b == 0x08 ==> Escape(b) == ['\\' as int, 'b' as int]
    ensures b == 0x09 ==> Escape(b) == ['\\' as int, 't' as int]
    ensures b == 0x0A ==> Escape(b) == ['\\' as int, 'n' as int]
    ensures b == 0x0C ==> Escape(b) == ['\\' as int, 'f' as int]
    ensures b == 0x0D ==> Escape(b) == ['\\' as int, 'r' as int]
    ensures b == '"' as int || b == '/' as int || b == '\\' as int ==> Escape(b) == ['\\' as int, b]
    ensures b == 0x7F ==> Escape(b) == ['\\' as int, 'u' as int, '0' as int, '0' as int, '7' as int, 'f' as int]
    ensures b == 0x1F ==> Escape(b) == ['\\' as int, 'u' as int, '0' as int, '0' as int, '1' as int, 'f' as int]
    ensures 0x20 <= b && b != 0x7F && b != '"' as int && b != '/' as int && b != '\\' as int ==> Escape(b) == [b]
  {
  }

  lemma CodeOfByte(b: Byte)
    requires b < 0x20 || b == 0x7F
    ensures var h := ['0', '0', HexLetter(b / 16), HexLetter(b % 16)];
            && IsUnit(h) && UnitOf(h) == b && CharValue(Code(h)) == [b]
            && CharText(Code(h)) == [BACKSLASH, LOWER_U, ZERO, ZERO, HexChar(b / 16), HexChar(b % 16)]
  {
    LetterIsHex(b / 16);
    LetterIsHex(b % 16);
    hide HexLetter, HexChar, HexOf;
    var h := ['0', '0', HexLetter(b / 16), HexLetter(b % 16)];
    LetterIsHex(0);
    assert HexOf('0') == 0 by { ZeroHex(); }
    assert Ascii("\\u" + h) == [BACKSLASH, LOWER_U, ZERO, ZERO, HexChar(b / 16), HexChar(b % 16)];
  }

  lemma ZeroHex()
    ensures HexOf('0') == 0
  {
  }

  lemma LetterIsHex(d: nat)
    requires d < 16
    ensures IsHex(HexLetter(d)) && HexOf(HexLetter(d)) == d && HexLetter(d) as int % 256 == HexChar(d)
  {
  }

  function CharsOf(s: Bytes): (cs: seq<StringChar>)
    ensures |cs| == |s|
  {
    seq(|s|, i requires 0 <= i < |s| => CharOf(s[i]))
  }

  lemma {:induction false} CharsOfString(s: Bytes)
    ensures CharsOk(CharsOf(s)) && CharsText(CharsOf(s)) == Escaped(s) && CharsValue(CharsOf(s)) == s
  {
    hide CharOf, CharText, CharValue, Escape, CharOk;
    forall i | 0 <= i < |s| ensures CharOk(CharsOf(s)[i]) { CharOfByte(s[i]); }
    if s != [] {
      var k := |s| - 1;
      CharsOfString(s[..k]);
      CharOfByte(s[k]);
      assert CharsOf(s)[..k] == CharsOf(s[..k]);
    }
  }

  lemma QuotedString(s: Bytes)
    ensures CharsOk(CharsOf(s)) && QuotedText(CharsOf(s)) == StringText(s) && CharsValue(CharsOf(s)) == s
  {
    hide CharsOf, CharsText, CharsValue, Escaped, CharsOk;
    CharsOfString(s);
    Words();
  }

  function NatDigits(n: nat): seq<Digit> { if n < 10 then [n] else NatDigits(n / 10) + [n % 10] }

  lemma {:induction false} NatDigitsOk(n: nat)
    ensures var ds := NatDigits(n);
            && ds != [] && (ds[0] == 0 <==> n == 0) && (n < 10 ==> |ds| == 1)
            && Dec(ds) == n && DigitsText(ds) == NatText(n)
  {
    var ds := NatDigits(n);
    if n < 10 {
      assert ds[..0] == [];
      assert DigitsText(ds) == [ZERO + n];
    } else {
      NatDigitsOk(n / 10);
      DecSnoc(NatDigits(n / 10), n % 10);
      assert DigitsText(ds) == DigitsText(NatDigits(n / 10)) + [ZERO + n % 10];
    }
  }

  /** The tree of the text the encoder gives a value. */
  function TreeOf(v: Json): Tree
    decreases v, 1
  {
    match v
    case Null => NullTree
    case Bool(b) => BoolTree(b)
    case Int(n) => NumberTree(n < 0, NatDigits(Magnitude(n)))
    case Str(s) => StringTree(CharsOf(s))
    case Arr(items) => ArrayTree(ItemsOf(items), [])
    case Obj(pairs) => ObjectTree(MembersOf(pairs), [])
  }

  function Magnitude(n: int): nat { if n < 0 then -n else n }

  function ItemsOf(items: seq<Json>): (xs: seq<Item>)
    ensures |xs| == |items|
    decreases items, 0
  {
    if items == [] then [] else [Item([], TreeOf(items[0]), [])] + ItemsOf(items[1..])
  }

  function MembersOf(pairs: seq<Pair>): (ps: seq<ObjectMember>)
    ensures |ps| == |pairs|
    decreases pairs, 0
  {
    if pairs == [] then []
    else [MemberOf(pairs[0])] + MembersOf(pairs[1..])
  }

  function MemberOf(p: Pair): ObjectMember
    decreases p, 0
  {
    ObjectMember([], CharsOf(p.key), [], Item([], TreeOf(p.value), []))
  }

  /** The encoder's text of a value is a JSON text that denotes the value. */
  lemma {:induction false} EncodedText(v: Json)
    requires TableLike(v)
    ensures TreeOk(TreeOf(v)) && TreeText(TreeOf(v)) == Text(v)
    ensures Meaning(TreeOf(v)) == v && TreeDepth(TreeOf(v)) == Depth(v)
    decreases v, 1
  {
    hide StringText, QuotedText, CharsOf, CharsValue, CharsOk, DistinctKeys, Table, ItemOk, MemberOk, NatText, Dec,
         DigitsText, ItemTexts, MemberTexts, ItemsText, PairsText, Meanings, Entries, ItemsOf, MembersOf, ItemsDeep,
         MembersDeep, ItemsDepth, PairsDepth, NatDigits;
    Words();
    match v
    case Null =>
    case Bool(b) =>
    case Int(n) => EncodedInt(n);
    case Str(s) => QuotedString(s);
    case Arr(items) => EncodedItems(items);
    case Obj(pairs) =>
      if pairs == [] {
        NoMembersOf();
      } else {
        EncodedPairs(pairs);
        TableOfDistinct(pairs);
      }
  }

  lemma EncodedInt(n: Int64)
    ensures var t := TreeOf(Int(n)); TreeOk(t) && TreeText(t) == IntText(n) && Meaning(t) == Int(n)
  {
    hide NatText, Dec, DigitsText, NatDigits;
    MinusNoZero();
    NatDigitsOk(Magnitude(n));
  }

  lemma NoMembersOf()
    ensures MembersOf([]) == [] && Entries([]) == [] && Table([]) == [] && PairsText([]) == []
    ensures MembersDeep([]) == 0 && PairsDepth([]) == 0
  {
  }

  lemma {:induction false} EncodedItems(items: seq<Json>)
    requires items != [] && forall k | 0 <= k < |items| :: TableLike(items[k])
    ensures var xs := ItemsOf(items);
            && (forall k | 0 <= k < |xs| :: ItemOk(xs[k])) && ItemTexts(xs) == ItemsText(items)
            && Meanings(xs) == items && ItemsDeep(xs) == ItemsDepth(items)
    decreases items, 0
  {
    hide TreeOf, TreeOk, TreeText, Text, Meaning, TreeDepth, Depth, TableLike;
    EncodedText(items[0]);
    Words();
    var xs := ItemsOf(items);
    assert xs[1..] == ItemsOf(items[1..]);
    if |items| > 1 {
      EncodedItems(items[1..]);
    } else {
      assert items[1..] == [] && ItemsOf([]) == [];
    }
    assert items == [items[0]] + items[1..];
  }

  lemma {:induction false} EncodedPairs(pairs: seq<Pair>)
    requires pairs != [] && forall k | 0 <= k < |pairs| :: TableLike(pairs[k].value)
    ensures var ps := MembersOf(pairs);
            && (forall k | 0 <= k < |ps| :: MemberOk(ps[k])) && MemberTexts(ps) == PairsText(pairs)
            && Entries(ps) == pairs && MembersDeep(ps) == PairsDepth(pairs)
    decreases pairs, 0
  {
    hide TreeOf, TreeDepth, Depth, TableLike, CharsOf, MemberText, PairText, MemberOk, CharsValue, Meaning, TreeText,
         TreeOk, Text;
    EncodedText(pairs[0].value);
    Words();
    var ps := MembersOf(pairs);
    MemberOfPair(pairs[0]);
    assert ps[1..] == MembersOf(pairs[1..]) && ps[0] == MemberOf(pairs[0]);
    if |pairs| > 1 {
      EncodedPairs(pairs[1..]);
    } else {
      assert pairs[1..] == [] && MembersOf([]) == [];
    }
    assert pairs == [pairs[0]] + pairs[1..];
  }

  lemma MemberOfPair(p: Pair)
    requires TreeOk(TreeOf(p.value)) && TreeText(TreeOf(p.value)) == Text(p.value)
    ensures MemberOk(MemberOf(p)) && MemberText(MemberOf(p)) == PairText(p) && CharsValue(MemberOf(p).key) == p.key
  {
    hide TreeOf, TreeOk, TreeText, Text, CharsOf, CharsOk, CharsValue, StringText, QuotedText;
    QuotedString(p.key);
    Words();
    assert ItemText(MemberOf(p).item) == Text(p.value);
  }

  /** The token of the text of a byte string is the string. */
  lemma LexStringText(data: Bytes, i: nat, s: Bytes)
    requires Has(data, i, StringText(s))
    ensures Lex(data, i) == Lexed(StringToken(s), i + |StringText(s)|)
  {
    hide Lex, Has, StringText, QuotedText, CharsOf, CharsValue, CharsOk;
    QuotedString(s);
    LexQuoted(data, i, CharsOf(s));
  }

  /** The token of the text of an integer is the integer. */
  lemma LexIntText(data: Bytes, i: nat, n: Int64)
    requires Has(data, i, IntText(n)) && Delimiter(At(data, i + |IntText(n)|))
    ensures Lex(data, i) == Lexed(IntToken(n), i + |IntText(n)|)
  {
    hide Lex, Has, IntText, Delimiter, Dec, NatDigits, At;
    EncodedInt(n);
    LexNumber(data, i, n < 0, NatDigits(Magnitude(n)));
  }

  /** Inside any text, the text of a value is parsed to the value if and only if its depth is within
      the limit. */
  lemma ParseText(v: Json, data: Bytes, limit: nat, i: nat, d: nat)
    requires TableLike(v) && Has(data, i, Text(v)) && Delimiter(At(data, i + |Text(v)|)) && d <= limit
    ensures var l := Lex(data, i);
            Value(data, limit, l.token, l.ptr, d)
            == if d + Depth(v) <= limit then Ok(v, i + |Text(v)|) else Err(TooDeep)
  {
    hide Lex, Value, Has, Text, Depth, TableLike, Delimiter, At, TreeOf, TreeOk, TreeText, TreeDepth, Meaning;
    EncodedText(v);
    ReadTree(TreeOf(v), data, limit, i, d);
  }

  /** Decoding the encoding of a value gives the value back exactly when its depth is within
      the limit; otherwise it is refused for its depth. */
  lemma RoundTrip(v: Json, limit: nat)
    requires TableLike(v)
    ensures Decode(Text(v), limit) == if Depth(v) <= limit then Decoded(v) else Rejected(TooDeep)
  {
    hide Decode, TableLike, Text, Depth, TreeText, TreeOk, TreeOf, Meaning, TreeDepth;
    EncodedText(v);
    DecodeText(Item([], TreeOf(v), []), limit);
    assert ItemText(Item([], TreeOf(v), [])) == Text(v);
  }
}
