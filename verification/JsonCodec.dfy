/** The encoder and the decoder of lua-cjson as they run: a growing buffer, and a parser that
    moves a pointer and counts its depth. */
module JsonCodec {
  import opened Common
  import opened JsonText
  import opened JsonLex
  import opened JsonParse
  import JsonRead

  // ---- encoding -----------------------------------------------------------------------------

  lemma {:induction false} ItemsTextSnoc(items: seq<Json>, i: nat)
    requires i < |items|
    ensures ItemsText(items[..i + 1]) == if i == 0 then Text(items[0])
            else ItemsText(items[..i]) + [COMMA] + Text(items[i])
    decreases |items|
  {
    hide Text;
    if i > 0 {
      var t := items[1..];
      ItemsTextSnoc(t, i - 1);
      assert items[..i + 1][1..] == t[..i] && items[..i][1..] == t[..i - 1];
      if i == 1 {
        assert items[..2][1..] == [items[1]] && items[..1] == [items[0]];
      } else {
        Regroup(Text(items[0]), [COMMA], ItemsText(t[..i - 1]) + [COMMA], Text(t[i - 1]));
        assert ItemsText(items[..i]) == Text(items[0]) + [COMMA] + ItemsText(t[..i - 1]);
      }
    }
  }

  lemma {:induction false} PairsTextSnoc(pairs: seq<Pair>, i: nat)
    requires i < |pairs|
    ensures PairsText(pairs[..i + 1]) == if i == 0 then PairText(pairs[0])
            else PairsText(pairs[..i]) + [COMMA] + PairText(pairs[i])
    decreases |pairs|
  {
    hide PairText;
    if i > 0 {
      var t := pairs[1..];
      PairsTextSnoc(t, i - 1);
      assert pairs[..i + 1][1..] == t[..i] && pairs[..i][1..] == t[..i - 1];
      if i == 1 {
        assert pairs[..2][1..] == [pairs[1]] && pairs[..1] == [pairs[0]];
      } else {
        Regroup(PairText(pairs[0]), [COMMA], PairsText(t[..i - 1]) + [COMMA], PairText(t[i - 1]));
        assert PairsText(pairs[..i]) == PairText(pairs[0]) + [COMMA] + PairsText(t[..i - 1]);
      }
    }
  }

  /** The room json_append_string asks for is enough: no byte takes more than six. */
  lemma StringTextLength(s: Bytes)
    ensures |StringText(s)| <= 6 * |s| + 2
  {
    EscapedLength(s);
  }

  lemma {:induction false} EscapedLength(s: Bytes)
    ensures |Escaped(s)| <= 6 * |s|
    decreases |s|
  {
    if s != [] { EscapedLength(s[..|s| - 1]); }
  }

  /** It is not more than enough: a zero byte takes six. */
  lemma RoomIsNeeded(n: nat)
    ensures |StringText(seq(n, _ => 0))| == 6 * n + 2
  {
    EscapedZeros(n);
  }

  lemma {:induction false} EscapedZeros(n: nat)
    ensures |Escaped(seq(n, _ => 0))| == 6 * n
  {
    if n > 0 {
      var s: Bytes := seq(n, _ => 0);
      assert s[..n - 1] == seq(n - 1, _ => 0);
      EscapedZeros(n - 1);
    }
  }

  lemma {:induction false} ItemsDepthAtMost(items: seq<Json>, n: int)
    ensures ItemsDepth(items) <= n <==> 0 <= n && forall i | 0 <= i < |items| :: Depth(items[i]) <= n
  {
    hide Depth;
    if items != [] {
      ItemsDepthAtMost(items[1..], n);
      assert forall i | 0 <= i < |items| - 1 :: items[1..][i] == items[i + 1];
      assert forall i | 1 <= i < |items| :: items[i] == items[1..][i - 1];
    }
  }

  lemma {:induction false} PairsDepthAtMost(pairs: seq<Pair>, n: int)
    ensures PairsDepth(pairs) <= n <==> 0 <= n && forall i | 0 <= i < |pairs| :: Depth(pairs[i].value) <= n
  {
    hide Depth;
    if pairs != [] {
      PairsDepthAtMost(pairs[1..], n);
      assert forall i | 0 <= i < |pairs| - 1 :: pairs[1..][i] == pairs[i + 1];
      assert forall i | 1 <= i < |pairs| :: pairs[i] == pairs[1..][i - 1];
    }
  }

  class Encoder {
    const maxDepth: nat
    var buf: Bytes

    constructor (maxDepth: nat)
      ensures this.maxDepth == maxDepth && buf == []
    {
      this.maxDepth := maxDepth;
      buf := [];
    }

    /** json_append_string */
    method AppendString(s: Bytes)
      modifies this
      ensures buf == old(buf) + StringText(s) && |buf| <= |old(buf)| + 6 * |s| + 2
    {
      hide Escape;
      StringTextLength(s);
      ghost var was := buf;
      buf := buf + [QUOTE];
      var i: nat := 0;
      while i < |s|
        invariant i <= |s| && buf == was + ([QUOTE] + Escaped(s[..i]))
      {
        assert s[..i + 1][..i] == s[..i];
        buf := buf + Escape(s[i]);
        i := i + 1;
      }
      assert s[..|s|] == s;
      buf := buf + [QUOTE];
    }

    /** json_append_array; false for excessive nesting. */
    method AppendArray(items: seq<Json>, depth: nat) returns (ok: bool)
      requires depth <= maxDepth
      modifies this
      ensures ok <==> depth + ItemsDepth(items) <= maxDepth
      ensures ok ==> buf == old(buf) + ([OPEN_ARR] + ItemsText(items) + [CLOSE_ARR])
      decreases items, 0
    {
      hide Text, Depth, ItemsText, ItemsDepth;
      ItemsDepthAtMost(items, maxDepth - depth);
      ghost var was := buf;
      buf := buf + [OPEN_ARR];
      var i: nat, comma := 0, false;
      NoItems();
      while i < |items|
        invariant i <= |items| && comma == (i > 0)
        invariant buf == was + ([OPEN_ARR] + ItemsText(items[..i]))
        invariant forall k | 0 <= k < i :: depth + Depth(items[k]) <= maxDepth
      {
        ItemsTextSnoc(items, i);
        if comma {
          buf := buf + [COMMA];
        } else {
          comma := true;
        }
        ok := AppendData(items[i], depth);
        if !ok { return; }
        i := i + 1;
      }
      assert items[..|items|] == items;
      buf := buf + [CLOSE_ARR];
      ok := true;
    }

    lemma NoItems()
      ensures ItemsText([]) == []
    {
    }

    /** json_append_object; false for excessive nesting. */
    method AppendObject(pairs: seq<Pair>, depth: nat) returns (ok: bool)
      requires depth <= maxDepth
      modifies this
      ensures ok <==> depth + PairsDepth(pairs) <= maxDepth
      ensures ok ==> buf == old(buf) + ([OPEN_OBJ] + PairsText(pairs) + [CLOSE_OBJ])
      decreases pairs, 0
    {
      hide Text, Depth, PairsText, PairText, PairsDepth;
      PairsDepthAtMost(pairs, maxDepth - depth);
      ghost var was := buf;
      buf := buf + [OPEN_OBJ];
      var i: nat, comma := 0, false;
      NoPairs();
      while i < |pairs|
        invariant i <= |pairs| && comma == (i > 0)
        invariant buf == was + ([OPEN_OBJ] + PairsText(pairs[..i]))
        invariant forall k | 0 <= k < i :: depth + Depth(pairs[k].value) <= maxDepth
      {
        PairsTextSnoc(pairs, i);
        if comma {
          buf := buf + [COMMA];
        } else {
          comma := true;
        }
        ok := AppendPair(pairs[i], depth);
        if !ok { return; }
        i := i + 1;
      }
      assert pairs[..|pairs|] == pairs;
      buf := buf + [CLOSE_OBJ];
      ok := true;
    }

    /** One turn of the loop of json_append_object. */
    method AppendPair(p: Pair, depth: nat) returns (ok: bool)
      requires depth <= maxDepth
      modifies this
      ensures ok <==> depth + Depth(p.value) <= maxDepth
      ensures ok ==> buf == old(buf) + PairText(p)
      decreases p, 2
    {
      hide Text, Depth, StringText;
      AppendString(p.key);
      buf := buf + [COLON];
      ok := AppendData(p.value, depth);
    }

    /** json_append_data; false for excessive nesting. */
    method AppendData(v: Json, depth: nat) returns (ok: bool)
      requires depth <= maxDepth
      modifies this
      ensures ok <==> depth + Depth(v) <= maxDepth
      ensures ok ==> buf == old(buf) + Text(v)
      decreases v, 1
    {
      hide StringText, IntText, ItemsText, PairsText, ItemsDepth, PairsDepth;
      ok := true;
      match v {
        case Null => buf := buf + NULL_TEXT;
        case Bool(b) => buf := buf + (if b then TRUE_TEXT else FALSE_TEXT);
        case Int(n) => buf := buf + IntText(n);
        case Str(s) => AppendString(s);
        case Arr(items) =>
          if depth + 1 > maxDepth { return false; }
          ok := AppendArray(items, depth + 1);
        case Obj(pairs) =>
          if depth + 1 > maxDepth { return false; }
          ok := AppendObject(pairs, depth + 1);
      }
    }
  }

  // ---- decoding -----------------------------------------------------------------------------

  class Parser {
    const data: Bytes
    const limit: nat
    var ptr: nat
    var tmp: Bytes
    var currentDepth: nat

    predicate Valid()
      reads this
    {
      ptr <= |data|
    }

    constructor (data: Bytes, limit: nat)
      ensures this.data == data && this.limit == limit && ptr == 0 && currentDepth == 0
    {
      this.data := data;
      this.limit := limit;
      ptr := 0;
      tmp := [];
      currentDepth := 0;
    }

    /** json_next_string_token, with `ptr` at the opening quote. The temporary buffer is never
        longer than the text, which is the capacity it is given. */
    method NextString() returns (t: Token)
      requires Valid() && ptr < |data| && data[ptr] == QUOTE
      modifies this`ptr, this`tmp
      ensures Valid() && ptr > old(ptr) && Lexed(t, ptr) == LexString(data, old(ptr) + 1, [])
      ensures t.StringToken? ==> t.s == tmp
      ensures |tmp| < |data|
    {
      hide UnicodeEscape, EscapeChar;
      ghost var start := ptr + 1;
      ptr := ptr + 1;
      tmp := [];
      while At(data, ptr) != QUOTE
        invariant Valid() && ptr >= start
        invariant LexString(data, ptr, tmp) == LexString(data, start, [])
        invariant |tmp| <= ptr - start
        decreases |data| - ptr
      {
        var ch := At(data, ptr);
        if ch == 0 { return ErrorToken; }
        if ch == BACKSLASH {
          ch := EscapeChar(At(data, ptr + 1));
          if ch == LOWER_U {
            var u := UnicodeEscape(data, ptr);
            if u.BadEscape? { return ErrorToken; }
            tmp := tmp + u.bytes;
            ptr := ptr + u.length;
            continue;
          }
          if ch == 0 { return ErrorToken; }
          ptr := ptr + 1;
        }
        tmp := tmp + [ch];
        ptr := ptr + 1;
      }
      ptr := ptr + 1;
      t := StringToken(tmp);
    }

    /** json_next_token */
    method NextToken() returns (t: Token)
      requires Valid()
      modifies this`ptr, this`tmp
      ensures Valid() && ptr >= old(ptr) && t == Lex(data, old(ptr)).token
      ensures !t.ErrorToken? ==> ptr == Lex(data, old(ptr)).ptr
    {
      hide LexString, Strtoll, StartsWith;
      while Whitespace(At(data, ptr))
        invariant Valid() && ptr >= old(ptr) && SkipWhitespace(data, ptr) == SkipWhitespace(data, old(ptr))
        decreases |data| - ptr
      {
        ptr := ptr + 1;
      }
      var ch := At(data, ptr);
      if ch == 0 { return End; }
      if IsMark(ch) {
        t := MarkToken(ch);
        ptr := ptr + 1;
      } else if ch == QUOTE {
        t := NextString();
      } else if ch == MINUS || ch == PLUS || ZERO <= ch <= ZERO + 9 {
        var l := Strtoll(data, ptr);
        if l.token.ErrorToken? { return ErrorToken; }
        if At(data, l.ptr) == 0x2E || At(data, l.ptr) == 0x65 || At(data, l.ptr) == 0x45 { return ErrorToken; }
        t := l.token;
        ptr := l.ptr;
      } else if StartsWith(data, ptr, TRUE_TEXT) {
        t := BoolToken(true);
        WordFits(data, ptr, TRUE_TEXT);
        ptr := ptr + 4;
      } else if StartsWith(data, ptr, FALSE_TEXT) {
        t := BoolToken(false);
        WordFits(data, ptr, FALSE_TEXT);
        ptr := ptr + 5;
      } else if StartsWith(data, ptr, NULL_TEXT) {
        t := NullToken;
        WordFits(data, ptr, NULL_TEXT);
        ptr := ptr + 4;
      } else {
        t := ErrorToken;
      }
    }

    /** What the parser did is what the function `parsed` says, and on success it is back at
        the depth it started from. */
    ghost predicate Follows(r: Decoded, parsed: Parsed, depth: nat)
      reads this
    {
      match parsed
      case Ok(v, i) => Valid() && r == Decoded(v) && ptr == i && currentDepth == depth
      case Err(e) => r == Rejected(e)
    }

    /** json_process_value */
    method ProcessValue(t: Token) returns (r: Decoded)
      requires Valid()
      modifies this
      ensures Follows(r, Value(data, limit, t, old(ptr), old(currentDepth)), old(currentDepth))
      decreases |data| - ptr + (if Opens(t) then 1 else 0), 1
    {
      hide Array, Object;
      match t {
        case StringToken(s) => r := Decoded(Str(s));
        case IntToken(n) => r := Decoded(Int(n));
        case BoolToken(b) => r := Decoded(Bool(b));
        case NullToken => r := Decoded(Null);
        case ArrBegin => r := ParseArrayContext();
        case ObjBegin => r := ParseObjectContext();
        case _ => r := Rejected(Syntax);
      }
    }

    /** json_decode_descend; false for excessive nesting. */
    method Descend() returns (ok: bool)
      modifies this`currentDepth
      ensures currentDepth == old(currentDepth) + 1 && (ok <==> currentDepth <= limit)
    {
      currentDepth := currentDepth + 1;
      ok := currentDepth <= limit;
    }

    /** json_parse_array_context */
    method ParseArrayContext() returns (r: Decoded)
      requires Valid()
      modifies this
      ensures Follows(r, Array(data, limit, old(ptr), old(currentDepth)), old(currentDepth))
      decreases |data| - ptr, 3
    {
      hide Lex, Value, Items;
      var ok := Descend();
      if !ok { return Rejected(TooDeep); }
      ghost var start, at, depth := ptr, ptr, currentDepth;
      var t := NextToken();
      if t.ArrEnd? {
        currentDepth := currentDepth - 1;
        return Decoded(Obj([]));
      }
      var items: seq<Json> := [];
      while true
        invariant Valid() && start <= at <= ptr && currentDepth == depth
        invariant t == Lex(data, at).token && (!t.ErrorToken? ==> ptr == Lex(data, at).ptr)
        invariant Items(data, limit, at, depth, items) == Items(data, limit, start, depth, [])
        decreases |data| - at
      {
        ItemsStep(data, limit, at, depth, items);
        TokenValue(data, limit, t, ptr, Lex(data, at).ptr, depth);
        r := ProcessValue(t);
        if r.Rejected? { return; }
        items := items + [r.value];
        t := NextToken();
        if t.ArrEnd? {
          currentDepth := currentDepth - 1;
          return Decoded(Arr(items));
        }
        if !t.Comma? { return Rejected(Syntax); }
        at := ptr;
        t := NextToken();
      }
    }

    /** The value behind a colon. */
    method ParseMemberValue() returns (r: Decoded)
      requires Valid()
      modifies this
      ensures var l := Lex(data, old(ptr));
              Follows(r, Value(data, limit, l.token, l.ptr, old(currentDepth)), old(currentDepth))
      decreases |data| - ptr, 2
    {
      hide Lex, Value;
      ghost var before := ptr;
      var t := NextToken();
      TokenValue(data, limit, t, ptr, Lex(data, before).ptr, currentDepth);
      r := ProcessValue(t);
    }

    /** json_parse_object_context */
    method ParseObjectContext() returns (r: Decoded)
      requires Valid()
      modifies this
      ensures Follows(r, Object(data, limit, old(ptr), old(currentDepth)), old(currentDepth))
      decreases |data| - ptr, 3
    {
      hide Lex, Value, Pairs, RawSet;
      var ok := Descend();
      if !ok { return Rejected(TooDeep); }
      ghost var start, at, depth := ptr, ptr, currentDepth;
      var t := NextToken();
      if t.ObjEnd? {
        currentDepth := currentDepth - 1;
        return Decoded(Obj([]));
      }
      var pairs: seq<Pair> := [];
      while true
        invariant Valid() && start <= at <= ptr && currentDepth == depth
        invariant t == Lex(data, at).token && (!t.ErrorToken? ==> ptr == Lex(data, at).ptr)
        invariant Pairs(data, limit, at, depth, pairs) == Pairs(data, limit, start, depth, [])
        decreases |data| - at
      {
        PairsStep(data, limit, at, depth, pairs);
        if !t.StringToken? { return Rejected(Syntax); }
        var key := t.s;
        t := NextToken();
        if !t.Colon? { return Rejected(Syntax); }
        r := ParseMemberValue();
        if r.Rejected? { return; }
        pairs := RawSet(pairs, key, r.value);
        t := NextToken();
        if t.ObjEnd? {
          currentDepth := currentDepth - 1;
          return Decoded(Obj(pairs));
        }
        if !t.Comma? { return Rejected(Syntax); }
        at := ptr;
        t := NextToken();
      }
    }

    /** json_decode, on a fresh parser */
    method Run() returns (r: Decoded)
      requires ptr == 0 && currentDepth == 0
      modifies this
      ensures r == Decode(data, limit)
      ensures r.Decoded? ==> currentDepth == 0
    {
      hide Lex, Value;
      if |data| >= 2 && (data[0] == 0 || data[1] == 0) { return Rejected(Syntax); }
      var t := NextToken();
      TokenValue(data, limit, t, ptr, Lex(data, 0).ptr, 0);
      r := ProcessValue(t);
      if r.Rejected? { return; }
      t := NextToken();
      if !t.End? { return Rejected(Syntax); }
    }
  }

  predicate IsMark(b: Byte) {
    b == OPEN_OBJ || b == CLOSE_OBJ || b == OPEN_ARR || b == CLOSE_ARR || b == COMMA || b == COLON
  }

  function MarkToken(b: Byte): Token
    requires IsMark(b)
  {
    if b == OPEN_OBJ then ObjBegin
    else if b == CLOSE_OBJ then ObjEnd
    else if b == OPEN_ARR then ArrBegin
    else if b == CLOSE_ARR then ArrEnd
    else if b == COMMA then Comma
    else Colon
  }

  lemma WordFits(data: Bytes, i: nat, word: Bytes)
    requires i <= |data| && StartsWith(data, i, word)
    ensures i + |word| <= |data|
  {
  }

  /** An error token is refused wherever the parser stands. */
  lemma TokenValue(data: Bytes, limit: nat, t: Token, i: nat, j: nat, d: nat)
    requires i <= |data| && j <= |data| && (!t.ErrorToken? ==> i == j)
    ensures Value(data, limit, t, i, d) == Value(data, limit, t, j, d)
  {
    hide Array, Object;
  }

  /** One turn of the array loop. */
  lemma ItemsStep(data: Bytes, limit: nat, i: nat, d: nat, acc: seq<Json>)
    requires i <= |data|
    ensures var l := Lex(data, i);
            var v := Value(data, limit, l.token, l.ptr, d);
            && (v.Err? ==> Items(data, limit, i, d, acc) == v)
            && (v.Ok? ==>
                  var e := Lex(data, v.ptr);
                  Items(data, limit, i, d, acc)
                  == if e.token.ArrEnd? then Ok(Arr(acc + [v.value]), e.ptr)
                     else if e.token.Comma? then Items(data, limit, e.ptr, d, acc + [v.value])
                     else Err(Syntax))
  {
    hide Lex, Value;
  }

  /** One turn of the object loop. */
  lemma PairsStep(data: Bytes, limit: nat, i: nat, d: nat, acc: seq<Pair>)
    requires i <= |data|
    ensures var k := Lex(data, i);
            && (!k.token.StringToken? ==> Pairs(data, limit, i, d, acc) == Err(Syntax))
            && (k.token.StringToken? ==>
                  var c := Lex(data, k.ptr);
                  && (!c.token.Colon? ==> Pairs(data, limit, i, d, acc) == Err(Syntax))
                  && (c.token.Colon? ==>
                        var l := Lex(data, c.ptr);
                        var v := Value(data, limit, l.token, l.ptr, d);
                        && (v.Err? ==> Pairs(data, limit, i, d, acc) == v)
                        && (v.Ok? ==>
                              var acc' := RawSet(acc, k.token.s, v.value);
                              var e := Lex(data, v.ptr);
                              Pairs(data, limit, i, d, acc)
                              == if e.token.ObjEnd? then Ok(Obj(acc'), e.ptr)
                                 else if e.token.Comma? then Pairs(data, limit, e.ptr, d, acc')
                                 else Err(Syntax))))
  {
    hide Lex, Value, RawSet;
  }

  /** json_encode */
  method EncodeText(v: Json, maxDepth: nat) returns (ok: bool, text: Bytes)
    ensures ok <==> Depth(v) <= maxDepth
    ensures ok ==> text == Text(v)
  {
    hide Text, Depth;
    var e := new Encoder(maxDepth);
    ok := e.AppendData(v, 0);
    text := e.buf;
    assert [] + Text(v) == Text(v);
  }

  /** json_decode */
  method DecodeText(data: Bytes, limit: nat) returns (r: Decoded)
    ensures r == Decode(data, limit)
  {
    var p := new Parser(data, limit);
    r := p.Run();
  }

  /** What is encoded under one limit and decoded under another comes back whenever its depth is
      within both, and only then. */
  method Recode(v: Json, encodeLimit: nat, decodeLimit: nat) returns (encoded: bool, r: Decoded)
    requires TableLike(v)
    ensures encoded <==> Depth(v) <= encodeLimit
    ensures encoded ==> r == if Depth(v) <= decodeLimit then Decoded(v) else Rejected(TooDeep)
  {
    hide *;
    var text;
    encoded, text := EncodeText(v, encodeLimit);
    if !encoded { return false, Rejected(TooDeep); }
    r := DecodeText(text, decodeLimit);
    JsonRead.RoundTrip(v, decodeLimit);
  }
}
