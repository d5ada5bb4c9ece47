/** JSON values of lua-cjson and the text the encoder gives them. */
module JsonText {
  import opened Common

  const INT64: int := 0x8000_0000_0000_0000

  type Int64 = n: int | -INT64 <= n < INT64

  /** A Lua value the codec handles: a table with keys 1..n is an array, any other table an
      object, given by its pairs in the order `lua_next` visits them. */
  datatype Json =
    | Null
    | Bool(b: bool)
    | Int(n: Int64)
    | Str(s: Bytes)
    | Arr(items: seq<Json>)
    | Obj(pairs: seq<Pair>)

  datatype Pair = Pair(key: Bytes, value: Json)

  /** What a Lua table can be: arrays are not empty (an empty table is an object), and the
      keys of an object are distinct. */
  ghost predicate TableLike(v: Json) {
    match v
    case Arr(items) => items != [] && forall i | 0 <= i < |items| :: TableLike(items[i])
    case Obj(pairs) => DistinctKeys(pairs) && forall i | 0 <= i < |pairs| :: TableLike(pairs[i].value)
    case _ => true
  }

  ghost predicate DistinctKeys(pairs: seq<Pair>) {
    forall i, j | 0 <= i < j < |pairs| :: pairs[i].key != pairs[j].key
  }

  // ---- text ------------------------------------------------------------------------------

  const QUOTE: Byte := 0x22
  const BACKSLASH: Byte := 0x5C
  const SLASH: Byte := 0x2F
  const COMMA: Byte := 0x2C
  const COLON: Byte := 0x3A
  const OPEN_ARR: Byte := 0x5B
  const CLOSE_ARR: Byte := 0x5D
  const OPEN_OBJ: Byte := 0x7B
  const CLOSE_OBJ: Byte := 0x7D
  const MINUS: Byte := 0x2D
  const PLUS: Byte := 0x2B
  const ZERO: Byte := 0x30
  const LOWER_U: Byte := 0x75

  const NULL_TEXT: Bytes := [0x6E, 0x75, 0x6C, 0x6C]
  const TRUE_TEXT: Bytes := [0x74, 0x72, 0x75, 0x65]
  const FALSE_TEXT: Bytes := [0x66, 0x61, 0x6C, 0x73, 0x65]

  function HexChar(d: nat): Byte
    requires d < 16
  {
    if d < 10 then 0x30 + d else 0x61 + d - 10
  }

  /** char2escape: how a byte appears inside a string. */
  function Escape(b: Byte): Bytes {
    if b == 0x08 then [BACKSLASH, 0x62]
    else if b == 0x09 then [BACKSLASH, 0x74]
    else if b == 0x0A then [BACKSLASH, 0x6E]
    else if b == 0x0C then [BACKSLASH, 0x66]
    else if b == 0x0D then [BACKSLASH, 0x72]
    else if b == QUOTE || b == SLASH || b == BACKSLASH then [BACKSLASH, b]
    else if b < 0x20 || b == 0x7F then [BACKSLASH, LOWER_U, ZERO, ZERO, HexChar(b / 16), HexChar(b % 16)]
    else [b]
  }

  /** The escaped bytes of a string. */
  function Escaped(s: Bytes): Bytes {
    if s == [] then [] else Escaped(s[..|s| - 1]) + Escape(s[|s| - 1])
  }

  function StringText(s: Bytes): Bytes { [QUOTE] + Escaped(s) + [QUOTE] }

  function NatText(n: nat): (r: Bytes)
    ensures r != [] && forall i | 0 <= i < |r| :: ZERO <= r[i] <= ZERO + 9
    ensures r[0] == ZERO <==> n == 0
  {
    if n < 10 then [ZERO + n] else NatText(n / 10) + [ZERO + n % 10]
  }

  function IntText(n: int): Bytes { if n < 0 then [MINUS] + NatText(-n) else NatText(n) }

  /** json_append_data, as text. */
  function Text(v: Json): Bytes
    decreases v, 1
  {
    match v
    case Null => NULL_TEXT
    case Bool(b) => if b then TRUE_TEXT else FALSE_TEXT
    case Int(n) => IntText(n)
    case Str(s) => StringText(s)
    case Arr(items) => [OPEN_ARR] + ItemsText(items) + [CLOSE_ARR]
    case Obj(pairs) => [OPEN_OBJ] + PairsText(pairs) + [CLOSE_OBJ]
  }

  function ItemsText(items: seq<Json>): Bytes
    decreases items, 0
  {
    if items == [] then [] else if |items| == 1 then Text(items[0])
    else Text(items[0]) + [COMMA] + ItemsText(items[1..])
  }

  function PairText(p: Pair): Bytes
    decreases p, 0
  {
    StringText(p.key) + [COLON] + Text(p.value)
  }

  function PairsText(pairs: seq<Pair>): Bytes
    decreases pairs, 0
  {
    if pairs == [] then [] else if |pairs| == 1 then PairText(pairs[0])
    else PairText(pairs[0]) + [COMMA] + PairsText(pairs[1..])
  }

  /** How deeply tables are nested. */
  function Depth(v: Json): nat
    decreases v, 1
  {
    match v
    case Arr(items) => 1 + ItemsDepth(items)
    case Obj(pairs) => 1 + PairsDepth(pairs)
    case _ => 0
  }

  function Max(a: nat, b: nat): nat { if a <= b then b else a }

  function ItemsDepth(items: seq<Json>): nat
    decreases items, 0
  {
    if items == [] then 0 else Max(Depth(items[0]), ItemsDepth(items[1..]))
  }

  function PairsDepth(pairs: seq<Pair>): nat
    decreases pairs, 0
  {
    if pairs == [] then 0 else Max(Depth(pairs[0].value), PairsDepth(pairs[1..]))
  }
}
