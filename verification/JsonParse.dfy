/** The recursive-descent parser of lua-cjson as functions. */
module JsonParse {
  import opened Common
  import opened JsonText
  import opened JsonLex

  datatype Error = Syntax | TooDeep

  datatype Parsed = Ok(value: Json, ptr: nat) | Err(error: Error)

  /** lua_rawset: a key that is present gets the new value in place. */
  function RawSet(pairs: seq<Pair>, key: Bytes, value: Json): seq<Pair> {
    if pairs == [] then [Pair(key, value)]
    else if pairs[0].key == key then [Pair(key, value)] + pairs[1..]
    else [pairs[0]] + RawSet(pairs[1..], key, value)
  }

  predicate Opens(t: Token) { t.ArrBegin? || t.ObjBegin? }

  /** json_process_value: `t` has been read, `i` is behind it, and the value is at depth d. */
  function Value(data: Bytes, limit: nat, t: Token, i: nat, d: nat): (r: Parsed)
    requires i <= |data|
    ensures r.Ok? ==> i <= r.ptr <= |data|
    decreases |data| - i + (if Opens(t) then 1 else 0), 1
  {
    match t
    case StringToken(s) => Ok(Str(s), i)
    case IntToken(n) => Ok(Int(n), i)
    case BoolToken(b) => Ok(Bool(b), i)
    case NullToken => Ok(Null, i)
    case ArrBegin => Array(data, limit, i, d)
    case ObjBegin => Object(data, limit, i, d)
    case _ => Err(Syntax)
  }

  /** json_parse_array_context. An empty array is an empty table. */
  function Array(data: Bytes, limit: nat, i: nat, d: nat): (r: Parsed)
    requires i <= |data|
    ensures r.Ok? ==> i <= r.ptr <= |data|
    decreases |data| - i, 3
  {
    if d + 1 > limit then Err(TooDeep)
    else
      var l := Lex(data, i);
      if l.token.ArrEnd? then Ok(Obj([]), l.ptr) else Items(data, limit, i, d + 1, [])
  }

  /** The loop of json_parse_array_context, before the token of the next item. */
  function Items(data: Bytes, limit: nat, i: nat, d: nat, acc: seq<Json>): (r: Parsed)
    requires i <= |data|
    ensures r.Ok? ==> i <= r.ptr <= |data|
    decreases |data| - i, 2
  {
    var l := Lex(data, i);
    var v := Value(data, limit, l.token, l.ptr, d);
    if v.Err? then v
    else
      var e := Lex(data, v.ptr);
      if e.token.ArrEnd? then Ok(Arr(acc + [v.value]), e.ptr)
      else if e.token.Comma? then Items(data, limit, e.ptr, d, acc + [v.value])
      else Err(Syntax)
  }

  /** json_parse_object_context */
  function Object(data: Bytes, limit: nat, i: nat, d: nat): (r: Parsed)
    requires i <= |data|
    ensures r.Ok? ==> i <= r.ptr <= |data|
    decreases |data| - i, 3
  {
    if d + 1 > limit then Err(TooDeep)
    else
      var l := Lex(data, i);
      if l.token.ObjEnd? then Ok(Obj([]), l.ptr) else Pairs(data, limit, i, d + 1, [])
  }

  /** The loop of json_parse_object_context, before the token of the next key. */
  function Pairs(data: Bytes, limit: nat, i: nat, d: nat, acc: seq<Pair>): (r: Parsed)
    requires i <= |data|
    ensures r.Ok? ==> i <= r.ptr <= |data|
    decreases |data| - i, 2
  {
    var k := Lex(data, i);
    if !k.token.StringToken? then Err(Syntax)
    else
      var c := Lex(data, k.ptr);
      if !c.token.Colon? then Err(Syntax)
      else
        var l := Lex(data, c.ptr);
        var v := Value(data, limit, l.token, l.ptr, d);
        if v.Err? then v
        else
          var acc' := RawSet(acc, k.token.s, v.value);
          var e := Lex(data, v.ptr);
          if e.token.ObjEnd? then Ok(Obj(acc'), e.ptr)
          else if e.token.Comma? then Pairs(data, limit, e.ptr, d, acc')
          else Err(Syntax)
  }

  datatype Decoded = Decoded(value: Json) | Rejected(error: Error)

  /** json_decode */
  function Decode(data: Bytes, limit: nat): Decoded {
    if |data| >= 2 && (data[0] == 0 || data[1] == 0) then Rejected(Syntax)
    else
      var l := Lex(data, 0);
      var v := Value(data, limit, l.token, l.ptr, 0);
      if v.Err? then Rejected(v.error)
      else if Lex(data, v.ptr).token.End? then Decoded(v.value) else Rejected(Syntax)
  }

  // ---- tables and marks --------------------------------------------------------------------

  lemma {:induction false} RawSetNew(pairs: seq<Pair>, key: Bytes, value: Json)
    requires forall i | 0 <= i < |pairs| :: pairs[i].key != key
    ensures RawSet(pairs, key, value) == pairs + [Pair(key, value)]
  {
    if pairs != [] {
      RawSetNew(pairs[1..], key, value);
      assert pairs == [pairs[0]] + pairs[1..];
    }
  }

  lemma LexMark(data: Bytes, i: nat, b: Byte)
    requires i < |data| && data[i] == b
    requires b == COMMA || b == COLON || b == OPEN_ARR || b == CLOSE_ARR || b == OPEN_OBJ || b == CLOSE_OBJ
    ensures Lex(data, i)
            == Lexed(if b == COMMA then Comma else if b == COLON then Colon else if b == OPEN_ARR then ArrBegin
                                  else if b == CLOSE_ARR then ArrEnd else if b == OPEN_OBJ then ObjBegin
                                      else ObjEnd, i + 1)
  {
  }

  lemma LexEnd(data: Bytes)
    ensures Lex(data, |data|).token.End?
  {
  }

  lemma Regroup(a: Bytes, b: Bytes, c: Bytes, d: Bytes)
    ensures a + b + c + d == a + (b + (c + d))
  {
  }

  lemma NoPairs()
    ensures PairsText([]) == [] && PairsDepth([]) == 0
  {
  }
}
