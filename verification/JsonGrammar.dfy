/** JSON texts as RFC 8259 writes them, with integers for numbers: their syntax trees, the text of a
    tree, and what the codec's values make of it. */
module JsonGrammar {
  import opened Common
  import opened JsonText
  import opened JsonParse
  import opened DtoaDigits
  import Utf8

  function Ascii(s: string): (r: Bytes)
    ensures |r| == |s|
  {
    seq(|s|, i requires 0 <= i < |s| => s[i] as int % 256)
  }

  // ---- strings (section 7) -----------------------------------------------------------------------

  /** A character of a string: a byte as it is, a two-character escape, an escaped code unit, or an
      escaped surrogate pair. */
  datatype StringChar = Plain(b: Byte) | Short(letter: char) | Code(hex: string) | Surrogates(high: string, low: string)

  predicate IsHex(c: char) { '0' <= c <= '9' || 'a' <= c <= 'f' || 'A' <= c <= 'F' }

  function HexOf(c: char): (d: nat)
    ensures d < 16
  {
    if '0' <= c <= '9' then c as int - '0' as int
    else if 'a' <= c <= 'f' then 10 + c as int - 'a' as int
    else if 'A' <= c <= 'F' then 10 + c as int - 'A' as int
    else 0
  }

  predicate IsUnit(h: string) { |h| == 4 && IsHex(h[0]) && IsHex(h[1]) && IsHex(h[2]) && IsHex(h[3]) }

  /** The code unit four hexadecimal digits denote. */
  function UnitOf(h: string): (u: nat)
    ensures u < 0x1_0000
  {
    if |h| != 4 then 0
    else HexOf(h[0]) * 0x1000 + HexOf(h[1]) * 0x100 + HexOf(h[2]) * 0x10 + HexOf(h[3])
  }

  predicate IsShort(c: char) {
    c == '"' || c == '\\' || c == '/' || c == 'b' || c == 'f' || c == 'n' || c == 'r' || c == 't'
  }

  /** Backspace, form feed, line feed, carriage return, tab, or the character itself. */
  function ShortValue(c: char): Byte {
    if c == 'b' then 0x08 else if c == 'f' then 0x0C else if c == 'n' then 0x0A else if c == 'r' then 0x0D
    else if c == 't' then 0x09 else c as int % 256
  }

  /** Bytes from 0x80 on are taken to be parts of UTF-8 sequences. Escaped surrogates come in pairs. */
  predicate CharOk(c: StringChar) {
    match c
    case Plain(b) => b >= 0x20 && b != '"' as int && b != '\\' as int
    case Short(letter) => IsShort(letter)
    case Code(h) => IsUnit(h) && !(0xD800 <= UnitOf(h) < 0xE000)
    case Surrogates(h, l) => IsUnit(h) && IsUnit(l) && 0xD800 <= UnitOf(h) < 0xDC00 <= UnitOf(l) < 0xE000
  }

  function CharText(c: StringChar): Bytes {
    match c
    case Plain(b) => [b]
    case Short(letter) => Ascii(['\\', letter])
    case Code(h) => Ascii("\\u" + h)
    case Surrogates(h, l) => Ascii("\\u" + h + "\\u" + l)
  }

  /** The bytes a character stands for: code points in UTF-8. A surrogate carries ten bits. */
  function CharValue(c: StringChar): Bytes {
    match c
    case Plain(b) => [b]
    case Short(letter) => [ShortValue(letter)]
    case Code(h) => Utf8.Encoded(UnitOf(h))
    case Surrogates(h, l) => Utf8.Encoded(0x1_0000 + UnitOf(h) % 0x400 * 0x400 + UnitOf(l) % 0x400)
  }

  predicate CharsOk(cs: seq<StringChar>) { forall i | 0 <= i < |cs| :: CharOk(cs[i]) }

  function CharsText(cs: seq<StringChar>): Bytes {
    if cs == [] then [] else CharsText(cs[..|cs| - 1]) + CharText(cs[|cs| - 1])
  }

  function CharsValue(cs: seq<StringChar>): Bytes {
    if cs == [] then [] else CharsValue(cs[..|cs| - 1]) + CharValue(cs[|cs| - 1])
  }

  function QuotedText(cs: seq<StringChar>): Bytes { Ascii("\"") + CharsText(cs) + Ascii("\"") }

  // ---- values (sections 2 to 6) --------------------------------------------------------------------

  predicate IsBlank(w: Bytes) {
    forall i | 0 <= i < |w| :: w[i] == ' ' as int || w[i] == '\t' as int || w[i] == '\n' as int || w[i] == '\r' as int
  }

  datatype Tree =
    | NullTree
    | BoolTree(b: bool)
    | NumberTree(negative: bool, digits: seq<Digit>)
    | StringTree(chars: seq<StringChar>)
    | ArrayTree(items: seq<Item>, blank: Bytes)
    | ObjectTree(members: seq<ObjectMember>, blank: Bytes)

  /** A value between blanks. */
  datatype Item = Item(before: Bytes, value: Tree, after: Bytes)

  datatype ObjectMember = ObjectMember(before: Bytes, key: seq<StringChar>, behind: Bytes, item: Item)

  /** int has no leading zero. */
  ghost predicate TreeOk(t: Tree)
    decreases t, 1
  {
    match t
    case NumberTree(_, digits) => digits != [] && (digits[0] == 0 ==> |digits| == 1)
    case StringTree(chars) => CharsOk(chars)
    case ArrayTree(items, blank) => IsBlank(blank) && forall i | 0 <= i < |items| :: ItemOk(items[i])
    case ObjectTree(members, blank) => IsBlank(blank) && forall i | 0 <= i < |members| :: MemberOk(members[i])
    case _ => true
  }

  ghost predicate ItemOk(x: Item)
    decreases x, 0
  {
    IsBlank(x.before) && TreeOk(x.value) && IsBlank(x.after)
  }

  ghost predicate MemberOk(p: ObjectMember)
    decreases p, 0
  {
    IsBlank(p.before) && CharsOk(p.key) && IsBlank(p.behind) && ItemOk(p.item)
  }

  function DigitsText(ds: seq<Digit>): (r: Bytes)
    ensures |r| == |ds|
  {
    seq(|ds|, i requires 0 <= i < |ds| => '0' as int + ds[i])
  }

  function TreeText(t: Tree): Bytes
    decreases t, 1
  {
    match t
    case NullTree => Ascii("null")
    case BoolTree(b) => if b then Ascii("true") else Ascii("false")
    case NumberTree(negative, digits) => (if negative then Ascii("-") else []) + DigitsText(digits)
    case StringTree(chars) => QuotedText(chars)
    case ArrayTree(items, blank) => Ascii("[") + (if items == [] then blank else ItemTexts(items)) + Ascii("]")
    case ObjectTree(members, blank) =>
      Ascii("{") + (if members == [] then blank else MemberTexts(members)) + Ascii("}")
  }

  function ItemText(x: Item): Bytes
    decreases x, 0
  {
    x.before + TreeText(x.value) + x.after
  }

  function ItemTexts(items: seq<Item>): Bytes
    requires items != []
    decreases items, 0
  {
    if |items| == 1 then ItemText(items[0]) else ItemText(items[0]) + Ascii(",") + ItemTexts(items[1..])
  }

  function MemberText(p: ObjectMember): Bytes
    decreases p, 0
  {
    p.before + QuotedText(p.key) + p.behind + Ascii(":") + ItemText(p.item)
  }

  function MemberTexts(members: seq<ObjectMember>): Bytes
    requires members != []
    decreases members, 0
  {
    if |members| == 1 then MemberText(members[0]) else MemberText(members[0]) + Ascii(",") + MemberTexts(members[1..])
  }

  /** The nearest 64-bit integer. */
  function Saturated(n: int): Int64 {
    if n < -INT64 then -INT64 else if n >= INT64 then INT64 - 1 else n
  }

  function Signed(negative: bool, m: nat): int {
    var n: int := m;
    if negative then -n else n
  }

  /** The value of a tree. Lua has one empty table, and in a table the last value of a key counts. */
  function Meaning(t: Tree): Json
    decreases t, 1
  {
    match t
    case NullTree => Null
    case BoolTree(b) => Bool(b)
    case NumberTree(negative, digits) => Int(Saturated(Signed(negative, Dec(digits))))
    case StringTree(chars) => Str(CharsValue(chars))
    case ArrayTree(items, _) => if items == [] then Obj([]) else Arr(Meanings(items))
    case ObjectTree(members, _) => Obj(Table(Entries(members)))
  }

  function Meanings(items: seq<Item>): (vs: seq<Json>)
    ensures |vs| == |items| && forall i | 0 <= i < |items| :: vs[i] == Meaning(items[i].value)
    decreases items, 0
  {
    if items == [] then [] else [Meaning(items[0].value)] + Meanings(items[1..])
  }

  function Entries(members: seq<ObjectMember>): (ps: seq<Pair>)
    ensures |ps| == |members|
    ensures forall i | 0 <= i < |members| ::
              ps[i] == Pair(CharsValue(members[i].key), Meaning(members[i].item.value))
    decreases members, 0
  {
    if members == [] then []
    else [Pair(CharsValue(members[0].key), Meaning(members[0].item.value))] + Entries(members[1..])
  }

  /** How deeply arrays and objects are nested. */
  function TreeDepth(t: Tree): nat
    decreases t, 1
  {
    match t
    case ArrayTree(items, _) => 1 + ItemsDeep(items)
    case ObjectTree(members, _) => 1 + MembersDeep(members)
    case _ => 0
  }

  function ItemsDeep(items: seq<Item>): nat
    decreases items, 0
  {
    if items == [] then 0 else Max(TreeDepth(items[0].value), ItemsDeep(items[1..]))
  }

  function MembersDeep(members: seq<ObjectMember>): nat
    decreases members, 0
  {
    if members == [] then 0 else Max(TreeDepth(members[0].item.value), MembersDeep(members[1..]))
  }

  // ---- tables --------------------------------------------------------------------------------------

  /** A table after the given assignments. */
  function Table(entries: seq<Pair>): seq<Pair> {
    if entries == [] then []
    else RawSet(Table(entries[..|entries| - 1]), entries[|entries| - 1].key, entries[|entries| - 1].value)
  }

  /** An assignment of a key that no later one repeats. */
  ghost predicate LastOf(entries: seq<Pair>, p: Pair) {
    exists i :: 0 <= i < |entries| && entries[i] == p && forall j | i < j < |entries| :: entries[j].key != p.key
  }

  lemma {:induction false} RawSetMeans(pairs: seq<Pair>, key: Bytes, value: Json, p: Pair)
    requires DistinctKeys(pairs)
    ensures p in RawSet(pairs, key, value) <==> if p.key == key then p.value == value else p in pairs
    ensures DistinctKeys(RawSet(pairs, key, value))
    decreases |pairs|
  {
    if pairs != [] {
      var rest := pairs[1..];
      assert pairs == [pairs[0]] + rest;
      if pairs[0].key == key {
        assert p in rest ==> p.key != key;
      } else {
        RawSetMeans(rest, key, value, p);
        RawSetKeys(rest, key, value);
      }
    }
  }

  lemma {:induction false} RawSetKeys(pairs: seq<Pair>, key: Bytes, value: Json)
    ensures forall q <- RawSet(pairs, key, value) :: q.key == key || exists p <- pairs :: p.key == q.key
  {
    if pairs != [] && pairs[0].key != key {
      RawSetKeys(pairs[1..], key, value);
    }
  }

  /** A table has distinct keys, and holds for each key the value it was given last. */
  lemma {:induction false} TableMeans(entries: seq<Pair>, p: Pair)
    ensures DistinctKeys(Table(entries))
    ensures p in Table(entries) <==> LastOf(entries, p)
    decreases |entries|
  {
    hide DistinctKeys, LastOf, RawSet;
    if entries == [] {
      NoEntries(p);
    } else {
      var k := |entries| - 1;
      TableMeans(entries[..k], p);
      RawSetMeans(Table(entries[..k]), entries[k].key, entries[k].value, p);
      LastOfSnoc(entries, p);
    }
  }

  lemma NoEntries(p: Pair)
    ensures DistinctKeys([]) && !LastOf([], p)
  {
  }

  lemma LastOfSnoc(entries: seq<Pair>, p: Pair)
    requires entries != []
    ensures var k := |entries| - 1;
            LastOf(entries, p)
            <==> if p.key == entries[k].key then p.value == entries[k].value else LastOf(entries[..k], p)
  {
    var k := |entries| - 1;
    if p == entries[k] {
      assert entries[k] == p;
    }
    if p.key != entries[k].key && LastOf(entries[..k], p) {
      var i :| 0 <= i < k && entries[..k][i] == p && forall j | i < j < k :: entries[..k][j].key != p.key;
      assert entries[i] == p;
      forall j | i < j < |entries| ensures entries[j].key != p.key {
        if j < k { assert entries[..k][j] == entries[j]; }
      }
    }
    if LastOf(entries, p) && p.key != entries[k].key {
      var i :| 0 <= i < |entries| && entries[i] == p && forall j | i < j < |entries| :: entries[j].key != p.key;
      assert entries[..k][i] == p;
      assert forall j | i < j < k :: entries[..k][j] == entries[j];
    }
  }

  /** Assignments of distinct keys are kept as they are. */
  lemma {:induction false} TableOfDistinct(entries: seq<Pair>)
    requires DistinctKeys(entries)
    ensures Table(entries) == entries
    decreases |entries|
  {
    if entries != [] {
      var k := |entries| - 1;
      TableOfDistinct(entries[..k]);
      RawSetNew(entries[..k], entries[k].key, entries[k].value);
    }
  }
}
