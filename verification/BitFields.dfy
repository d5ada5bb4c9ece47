/** Reading and writing bit-fields in memory (luaffifb, set_value and cdata_index). */
module BitFields {
  import opened Common
  import opened Bignum
  import opened Bits
  import opened StructLayout

  /** Memory as one little-endian number. */
  function Num(s: seq<Byte>): nat {
    if s == [] then 0 else Shl(Num(s[1..]), 8) + s[0]
  }

  function BytesOf(w: nat, n: nat): (s: seq<Byte>)
    ensures |s| == n
    decreases n
  {
    if n == 0 then [] else BytePower(); [Low(w, 8)] + BytesOf(Shr(w, 8), n - 1)
  }

  /** The bits of a member, as a number. */
  function ValueOf(s: seq<Byte>, p: Placed): nat { Field(Num(s), Start(p), Width(p.m)) }

  // ---- words in memory ---------------------------------------------------------------------------

  lemma {:induction false} ShlSum(a: nat, b: nat, n: nat)
    ensures Shl(a + b, n) == Shl(a, n) + Shl(b, n)
  {
    if n > 0 { ShlSum(a, b, n - 1); }
  }

  lemma {:induction false} ShlTwice(a: nat, m: nat, n: nat)
    ensures Shl(Shl(a, m), n) == Shl(a, m + n)
  {
    if n > 0 { ShlTwice(a, m, n - 1); }
  }

  lemma {:induction false} ShlBelow(a: nat, m: nat, b: nat, n: nat)
    requires a < Pow(2, m) && b < Pow(2, n)
    ensures Shl(a, n) + b < Pow(2, m + n)
    decreases n
  {
    if n > 0 { ShlBelow(a, m, b / 2, n - 1); }
  }

  lemma BytePower()
    ensures Pow(2, 8) == 256
  {
    assert Pow(2, 4) == 16;
  }

  /** The first k bytes are the low 8k bits. */
  lemma {:induction false} NumSplit(s: seq<Byte>, k: nat)
    requires k <= |s|
    ensures Num(s) == Shl(Num(s[k..]), 8 * k) + Num(s[..k]) && Num(s[..k]) < Pow(2, 8 * k)
    decreases k
  {
    hide Shl, Pow;
    if k == 0 {
      assert s[0..] == s && Shl(Num(s), 0) == Num(s) && Pow(2, 0) == 1 by { NoShift(Num(s)); }
    } else {
      var t := s[1..];
      NumSplit(t, k - 1);
      assert t[k - 1..] == s[k..] && s[..k][1..] == t[..k - 1];
      ShlSum(Shl(Num(s[k..]), 8 * (k - 1)), Num(t[..k - 1]), 8);
      ShlTwice(Num(s[k..]), 8 * (k - 1), 8);
      BytePower();
      ShlBelow(Num(t[..k - 1]), 8 * (k - 1), s[0], 8);
    }
  }

  lemma NoShift(a: nat)
    ensures Shl(a, 0) == a && Pow(2, 0) == 1
  {
  }

  lemma {:induction false} NumBytes(w: nat, n: nat)
    ensures Num(BytesOf(w, n)) == Low(w, 8 * n)
    decreases n
  {
    hide Shl, Shr, Low;
    if n == 0 {
      NoLow(w);
    } else {
      NumBytes(Shr(w, 8), n - 1);
      LowBytes(w, 8, 8 * (n - 1));
      assert BytesOf(w, n)[1..] == BytesOf(Shr(w, 8), n - 1);
    }
  }

  lemma NoLow(w: nat)
    ensures Low(w, 0) == 0
  {
  }

  lemma {:induction false} LowBytes(w: nat, m: nat, n: nat)
    ensures Low(w, m + n) == Shl(Low(Shr(w, m), n), m) + Low(w, m)
    decreases m
  {
    if m > 0 { LowBytes(w / 2, m - 1, n); }
  }

  /** A field inside the 64-bit word at a byte offset, put into the word, is put into memory. */
  lemma PutWord(s: seq<Byte>, off: nat, p: nat, w: nat, v: nat)
    requires off + 8 <= |s| && p + w <= 64
    ensures var word := Num(s[off..off + 8]);
            && Num(s[..off] + BytesOf(Put(word, p, w, v), 8) + s[off + 8..]) == Put(Num(s), 8 * off + p, w, v)
            && Field(Num(s), 8 * off + p, w) == Field(word, p, w)
            && word < Pow(2, 64)
  {
    hide Num, Shl, Pow, Put, BytesOf, Field, Low;
    var bytes := s[off..off + 8];
    var a, word, r := Num(s[..off]), Num(bytes), Num(s[off + 8..]);
    WordSplit(s, off);
    PutAbove(Shl(r, 64) + word, a, 8 * off, p, w, v);
    PutBelow(r, word, 64, p, w, v);
    PutBound(word, 64, p, w, v);
    FieldAbove(Shl(r, 64) + word, a, 8 * off, p, w);
    FieldBelow(r, word, 64, p, w);
    var word' := Put(word, p, w, v);
    NumBytes(word', 8);
    LowAll(word', 64);
    var s' := s[..off] + BytesOf(word', 8) + s[off + 8..];
    assert s'[..off] == s[..off] && s'[off..off + 8] == BytesOf(word', 8) && s'[off + 8..] == s[off + 8..];
    WordSplit(s', off);
  }

  lemma WordSplit(s: seq<Byte>, off: nat)
    requires off + 8 <= |s|
    ensures Num(s) == Shl(Shl(Num(s[off + 8..]), 64) + Num(s[off..off + 8]), 8 * off) + Num(s[..off])
    ensures Num(s[off..off + 8]) < Pow(2, 64) && Num(s[..off]) < Pow(2, 8 * off)
  {
    hide Num, Shl, Pow;
    NumSplit(s, off);
    var t := s[off..];
    NumSplit(t, 8);
    assert t[8..] == s[off + 8..] && t[..8] == s[off..off + 8];
  }

  // ---- bits --------------------------------------------------------------------------------------

  function Bit(x: nat, k: nat): nat { x / Pow(2, k) % 2 }

  /** Bit j of a member is bit (b + j) % 8 of byte (b + j) / 8, b being the bit it starts at. */
  lemma BitOfValue(s: seq<Byte>, p: Placed, j: nat)
    requires j < Width(p.m) && Start(p) + j < 8 * |s|
    ensures var k := 8 * p.offset + p.bitOffset + j;
            Bit(ValueOf(s, p), j) == Bit(s[k / 8], k % 8)
  {
    hide Num, Shr, Low, Width, Pow;
    var x, b := Num(s), Start(p);
    ShrIsQuotient(ValueOf(s, p), j);
    BitOfLow(Shr(x, b), Width(p.m), j);
    ShrTwice(x, b, j);
    BitOfNum(s, b + j);
    ShrIsQuotient(s[(b + j) / 8], (b + j) % 8);
  }

  lemma {:induction false} ShrTwice(x: nat, m: nat, n: nat)
    ensures Shr(Shr(x, m), n) == Shr(x, m + n)
  {
    if m > 0 { ShrTwice(x / 2, m - 1, n); }
  }

  lemma {:induction false} BitOfLow(x: nat, w: nat, j: nat)
    requires j < w
    ensures Shr(Low(x, w), j) % 2 == Shr(x, j) % 2
  {
    if j > 0 { BitOfLow(x / 2, w - 1, j - 1); }
  }

  lemma {:induction false} BitOfNum(s: seq<Byte>, k: nat)
    requires k < 8 * |s|
    ensures Shr(Num(s), k) % 2 == Shr(s[k / 8], k % 8) % 2
  {
    hide Shr, Shl;
    var n := Num(s[1..]);
    assert Shl(n, 8) + s[0] == 256 * n + s[0] by { ShlIsTimes(n, 8); BytePower(); }
    if k < 8 {
      LowerBits(n, s[0], 8, k);
      BytePower();
    } else {
      ShrTwice(256 * n + s[0], 8, k - 8);
      assert Shr(256 * n + s[0], 8) == n by { ShrIsQuotient(256 * n + s[0], 8); BytePower(); }
      BitOfNum(s[1..], k - 8);
      assert (k - 8) / 8 == k / 8 - 1 && (k - 8) % 8 == k % 8;
    }
  }

  /** What lies from bit m on does not reach the bits below. */
  lemma {:induction false} LowerBits(n: nat, b: nat, m: nat, k: nat)
    requires k < m
    ensures Shr(Pow(2, m) * n + b, k) % 2 == Shr(b, k) % 2
    decreases k
  {
    var q := Pow(2, m - 1) * n;
    assert Pow(2, m) * n == 2 * q;
    if k > 0 {
      LowerBits(n, b / 2, m - 1, k - 1);
      assert (2 * q + b) / 2 == q + b / 2;
    }
  }

  // ---- access -------------------------------------------------------------------------------------

  /** The bit-field branch of set_value, for fields whose masks are defined. The field takes the
      value, cut to its width, and no member that shares no bit with it changes. */
  method SetBits(mem: array<Byte>, place: Placed, value: nat)
    requires place.m.shape.BitField? && place.offset + 8 <= mem.Length
    requires place.bitOffset + place.m.shape.width < 64
    modifies mem
    ensures Num(mem[..]) == Put(old(Num(mem[..])), Start(place), place.m.shape.width, value)
    ensures ValueOf(mem[..], place) == Low(value, place.m.shape.width)
    ensures forall e: Placed | Apart(place, e) :: ValueOf(mem[..], e) == old(ValueOf(mem[..], e))
  {
    hide *;
    ghost var s := mem[..];
    var off, p, w := place.offset, place.bitOffset, place.m.shape.width;
    Pow2Grows(p + w, 64);
    var hiMask, lowMask := Pow(2, 64) - Pow(2, p + w), Pow(2, p) - 1;
    var val := And(value, Pow(2, w) - 1);
    val := Shl(val, p);
    var word := Num(mem[off..off + 8]);
    assert s[off..off + 8] == mem[off..off + 8];
    word := Or(val, And(word, Or(hiMask, lowMask)));
    PutWord(s, off, p, w, value);
    WriteIsPut(Num(s[off..off + 8]), p, w, value);
    var bytes := BytesOf(word, 8);
    forall i | 0 <= i < 8 { mem[off + i] := bytes[i]; }
    assert mem[..] == s[..off] + bytes + s[off + 8..];
    FieldsAfter(s, mem[..], place, value);
  }

  /** Writing a bit-field of a struct: it reads back, and no member that comes from another declared
      member changes. Of the members that share an unnamed union with it, those change that share a
      bit with it. */
  method WriteMember(mem: array<Byte>, ghost ms: seq<Member>, members: seq<Placed>, n: nat, value: nat)
    requires OwnersApart(ms, members) && n < |members| && Writable(members[n], mem.Length)
    modifies mem
    ensures ValueOf(mem[..], members[n]) == Low(value, members[n].m.shape.width)
    ensures forall j | 0 <= j < |members| && (Owner(ms, j) != Owner(ms, n) || Apart(members[n], members[j])) ::
              ValueOf(mem[..], members[j]) == old(ValueOf(mem[..], members[j]))
  {
    hide ValueOf, Low, Start, Width, Put, Num, Owner, Count;
    SetBits(mem, members[n], value);
    forall j | 0 <= j < |members| && (Owner(ms, j) != Owner(ms, n) || Apart(members[n], members[j]))
      ensures ValueOf(mem[..], members[j]) == old(ValueOf(mem[..], members[j]))
    {
      assert Apart(members[n], members[j]) || Apart(members[j], members[n]);
    }
  }

  /** The masks of a bit-field are defined, and its eight bytes are there. */
  predicate Writable(p: Placed, size: nat) {
    p.m.shape.BitField? && p.offset + 8 <= size && p.bitOffset + p.m.shape.width < 64
  }

  /** `uint64_t x : 64` */
  function WholeWord(): Member { Member(true, false, 8, 7, false, 0, BitField(64), false, []) }

  /** It can be declared, and its masks are undefined wherever it is put. */
  lemma WholeWordNotWritable(ps: seq<nat>, size: nat)
    requires LaidOut([WholeWord()], ps)
    ensures Declared(WholeWord()) && Contained(WholeWord()) && Legal([WholeWord()])
    ensures Flattened([WholeWord()], ps) == [Placed(WholeWord(), 0, 0)]
    ensures !Writable(Placed(WholeWord(), 0, 0), size)
  {
    var ms := [WholeWord()];
    assert First(ms[0], 0, ps[0]) && Allowed(ms[0], 0);
    assert ms[..0] == [] && Flattened(ms[..0], ps[..0]) == [];
  }

  /** Laying out a struct and writing the n-th member a user sees, if it is a bit-field that can be
      written: it reads back, and no member from another declared member changes. */
  method WriteInStruct(ms: seq<Member>, alignMask: nat, mem: array<Byte>, n: nat, value: nat)
    returns (ok: bool, members: seq<Placed>, ghost ps: seq<nat>)
    requires IsMask(alignMask) && forall m <- ms :: Declared(m) && Contained(m)
    modifies mem
    ensures ok ==> Legal(ms) && LaidOut(ms, ps) && members == Flattened(ms, ps)
    ensures ok <==> Legal(ms) && n < |members| && Writable(members[n], mem.Length)
    ensures !ok ==> mem[..] == old(mem[..])
    ensures ok ==> ValueOf(mem[..], members[n]) == Low(value, members[n].m.shape.width)
    ensures ok ==> forall j | 0 <= j < |members| && Owner(ms, j) != Owner(ms, n) ::
                     ValueOf(mem[..], members[j]) == old(ValueOf(mem[..], members[j]))
  {
    hide Legal, LaidOut, Flattened, ValueOf, Low, Owner, OwnersApart, Writable, Declared, Contained, IsMask, Extent,
         Fits, HasBits, MaskOf, Inside, End;
    var record := new Record(false, alignMask);
    ok, members, ps := record.PlaceMembers(ms);
    if !ok { return; }
    assert LaidOut(ms, ps) by { StructArranged(ms, ps); }
    ok := n < |members| && Writable(members[n], mem.Length);
    if ok {
      FlattenedApart(ms, ps);
      WriteMember(mem, ms, members, n, value);
    }
  }

  lemma StructArranged(ms: seq<Member>, ps: seq<nat>)
    ensures Arranged(false, ms, ps) <==> LaidOut(ms, ps)
  {
  }

  lemma WriteIsPut(word: nat, p: nat, w: nat, value: nat)
    requires word < Pow(2, 64) && p + w <= 64
    ensures Pow(2, p + w) <= Pow(2, 64)
    ensures Or(Shl(And(value, Pow(2, w) - 1), p), And(word, Or(Pow(2, 64) - Pow(2, p + w), Pow(2, p) - 1)))
            == Put(word, p, w, value)
  {
    hide Pow, And, Or, Shl, Low, Put;
    Pow2Grows(p + w, 64);
    AndLow(value, w);
    MaskedWrite(word, p, w, value, 64);
  }

  lemma FieldsAfter(s: seq<Byte>, s': seq<Byte>, place: Placed, value: nat)
    requires place.m.shape.BitField?
             && Num(s') == Put(Num(s), 8 * place.offset + place.bitOffset, place.m.shape.width, value)
    ensures Start(place) == 8 * place.offset + place.bitOffset
    ensures ValueOf(s', place) == Low(value, place.m.shape.width)
    ensures forall e: Placed | Apart(place, e) :: ValueOf(s', e) == ValueOf(s, e)
  {
    hide Num, Put, Field, Low, ByteSize;
    var x, p, w := Num(s), Start(place), place.m.shape.width;
    FieldOfPut(x, p, w, value);
    forall e: Placed | Apart(place, e) ensures ValueOf(s', e) == ValueOf(s, e) {
      OtherField(x, p, w, value, Start(e), Width(e.m));
    }
  }

  /** The integer bit-field branches of cdata_index. */
  method GetBits(mem: array<Byte>, place: Placed) returns (value: nat)
    requires place.m.shape.BitField? && place.offset + 8 <= mem.Length
    requires place.m.shape.width < 64 && place.bitOffset + place.m.shape.width <= 64
    ensures value == ValueOf(mem[..], place)
  {
    hide *;
    var off, p, w := place.offset, place.bitOffset, place.m.shape.width;
    var word := Num(mem[off..off + 8]);
    value := And(Shr(word, p), Pow(2, w) - 1);
    assert mem[..][off..off + 8] == mem[off..off + 8];
    PutWord(mem[..], off, p, w, 0);
    ReadIsField(mem[..], place, word);
  }

  lemma ReadIsField(s: seq<Byte>, place: Placed, word: nat)
    requires place.m.shape.BitField?
    requires Field(Num(s), 8 * place.offset + place.bitOffset, place.m.shape.width)
             == Field(word, place.bitOffset, place.m.shape.width)
    ensures And(Shr(word, place.bitOffset), Pow(2, place.m.shape.width) - 1) == ValueOf(s, place)
  {
    hide Num, And, Shr, Pow, Low, ByteSize;
    AndLow(Shr(word, place.bitOffset), place.m.shape.width);
  }

  /** The boolean bit-field branch of cdata_index. */
  method GetBool(mem: array<Byte>, place: Placed) returns (b: bool)
    requires place.m.shape == BitField(1) && place.offset + 8 <= mem.Length && place.bitOffset < 8
    ensures b <==> ValueOf(mem[..], place) == 1
  {
    hide *;
    var off, p := place.offset, place.bitOffset;
    var word := Num(mem[off..off + 8]);
    b := And(word, Pow(2, p)) != 0;
    assert mem[..][off..off + 8] == mem[off..off + 8];
    PutWord(mem[..], off, p, 1, 0);
    AndBit(word, p);
    ReadIsField(mem[..], place, word);
    SameField(mem[..], place);
  }

  lemma SameField(s: seq<Byte>, place: Placed)
    requires place.m.shape.BitField?
    ensures ValueOf(s, place) == Field(Num(s), 8 * place.offset + place.bitOffset, place.m.shape.width)
  {
    hide Num, Field;
  }
}
