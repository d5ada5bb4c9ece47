/** The layout of C structs and unions with bit-fields (luaffifb, GCC rules). */
module StructLayout {
  import opened Bits
  import opened Bignum

  // ---- types -----------------------------------------------------------------------------------

  datatype Shape = Plain | Array(count: nat) | BitField(width: nat)

  /** A member as declared: what the parser knows before it is placed. `subs` are the members of
      a struct or union type. */
  datatype Member = Member(
    named: bool,
    isRecord: bool,
    baseSize: nat,
    alignMask: nat,
    isPacked: bool,
    pointers: nat,
    shape: Shape,
    hasBitField: bool,
    subs: seq<Placed>)

  /** A member with its place. */
  datatype Placed = Placed(m: Member, offset: nat, bitOffset: nat)

  const POINTER_SIZE: nat := 8

  /** Alignments are 1, 2, 4, 8 or 16, kept as masks. */
  predicate IsMask(mask: nat) { mask == 0 || mask == 1 || mask == 3 || mask == 7 || mask == 15 }

  /** What parsing a declaration ensures: bit-fields have an integer type and are not wider
      than it. */
  predicate Declared(m: Member) {
    && IsMask(m.alignMask)
    && (m.shape.BitField? ==> !m.isRecord && 1 <= m.baseSize <= 8 && m.shape.width <= 8 * m.baseSize)
  }

  /** How many bytes a member that is no bit-field takes. */
  function ByteSize(m: Member): nat
    requires !m.shape.BitField?
  {
    match m.shape
    case Array(n) => n * (if m.pointers > 1 then POINTER_SIZE else m.baseSize)
    case Plain => if m.pointers > 0 then POINTER_SIZE else m.baseSize
  }

  /** How many bits a member takes. */
  function Width(m: Member): nat {
    if m.shape.BitField? then m.shape.width else 8 * ByteSize(m)
  }

  /** The type of the elements of an array: the parser counts the array as one pointer level. */
  function Element(m: Member): Member
    requires m.pointers >= 1
  {
    m.(shape := Plain, pointers := m.pointers - 1)
  }

  lemma ArrayWidth(m: Member)
    requires m.shape.Array? && m.pointers >= 1
    ensures Width(m) == m.shape.count * Width(Element(m))
  {
    var n, w := m.shape.count, Width(Element(m)) / 8;
    assert 8 * (n * w) == n * (8 * w);
  }

  function AlignDown(x: nat, mask: nat): nat { x - x % (mask + 1) }

  function AlignUp(x: nat, mask: nat): nat { AlignDown(x + mask, mask) }

  /** The macros' `&` with the complement of a mask, in a word of the given width, is rounding. */
  lemma AlignByMask(x: nat, mask: nat, bits: nat)
    requires IsMask(mask) && 4 <= bits && x < Pow(2, bits)
    ensures mask < Pow(2, bits) && And(x, Pow(2, bits) - 1 - mask) == AlignDown(x, mask)
  {
    hide Pow, And, Low, IsMask;
    var n := MaskBits(mask);
    AndHigh(x, n, bits);
    LowIsRemainder(x, n);
  }

  lemma MaskBits(mask: nat) returns (n: nat)
    requires IsMask(mask)
    ensures n <= 4 && Pow(2, n) == mask + 1
  {
    hide Pow;
    SmallPowers();
    n := if mask == 0 then 0 else if mask == 1 then 1 else if mask == 3 then 2 else if mask == 7 then 3 else 4;
  }

  lemma SmallPowers()
    ensures Pow(2, 0) == 1 && Pow(2, 1) == 2 && Pow(2, 2) == 4 && Pow(2, 3) == 8 && Pow(2, 4) == 16
  {
    assert Pow(2, 2) == 2 * Pow(2, 1);
    assert Pow(2, 3) == 2 * Pow(2, 2);
    assert Pow(2, 4) == 2 * Pow(2, 3);
  }

  lemma {:induction false} LowIsRemainder(x: nat, n: nat)
    ensures Low(x, n) == x % Pow(2, n)
  {
    if n > 0 {
      LowIsRemainder(x / 2, n - 1);
      HalfFirst(x, Pow(2, n - 1));
    }
  }

  /** A remainder, taken without the last bit first. */
  lemma HalfFirst(x: nat, p: nat)
    requires p > 0
    ensures x % (2 * p) == 2 * (x / 2 % p) + x % 2
  {
    var h := x / 2;
    var q := h / p;
    assert h == p * q + h % p;
    assert (2 * p) * q == 2 * (p * q) && (2 * p) * (q + 1) == 2 * (p * q) + 2 * p;
    QuotientUnique(x, 2 * p, q);
  }

  // ---- what a layout is -------------------------------------------------------------------------

  /** Bit p is a place for a member: a bit-field does not run over the end of its type's storage
      unit, `:0` and every other member start at a multiple of the alignment, and a packed
      bit-field goes anywhere. */
  predicate Allowed(m: Member, p: nat) {
    var unit := 8 * (m.alignMask + 1);
    if m.shape.BitField? && m.isPacked then true
    else if m.shape.BitField? && m.shape.width > 0 then p % unit + m.shape.width <= 8 * m.baseSize
    else p % unit == 0
  }

  /** p is the first place at or after bit c. */
  ghost predicate First(m: Member, c: nat, p: nat) {
    && c <= p && Allowed(m, p)
    && forall q | c <= q < p :: !Allowed(m, q)
  }

  /** Where the first k members end. */
  function End(ms: seq<Member>, ps: seq<nat>, k: nat): nat
    requires k <= |ms| == |ps|
  {
    if k == 0 then 0 else ps[k - 1] + Width(ms[k - 1])
  }

  /** An array ends where its elements, one behind the other, end. */
  lemma ArraysEnd(ms: seq<Member>, ps: seq<nat>)
    requires |ms| == |ps|
    ensures forall i | 0 <= i < |ms| && ms[i].shape.Array? && ms[i].pointers >= 1 ::
              End(ms, ps, i + 1) == ps[i] + ms[i].shape.count * Width(Element(ms[i]))
  {
    hide Width;
    forall i | 0 <= i < |ms| && ms[i].shape.Array? && ms[i].pointers >= 1
      ensures End(ms, ps, i + 1) == ps[i] + ms[i].shape.count * Width(Element(ms[i]))
    {
      ArrayWidth(ms[i]);
    }
  }

  /** Each member of a struct is at the first place behind the one before it. */
  ghost predicate LaidOut(ms: seq<Member>, ps: seq<nat>) {
    && |ps| == |ms|
    && forall k | 0 <= k < |ms| :: First(ms[k], End(ms, ps, k), ps[k])
  }

  /** Members are in order and share no bit. */
  lemma {:induction false} InOrder(ms: seq<Member>, ps: seq<nat>, i: nat, j: nat)
    requires LaidOut(ms, ps) && i < j <= |ms|
    ensures ps[i] + Width(ms[i]) <= End(ms, ps, j)
    decreases j
  {
    hide Width, Allowed;
    if i < j - 1 {
      InOrder(ms, ps, i, j - 1);
      assert First(ms[j - 1], End(ms, ps, j - 1), ps[j - 1]);
    }
  }

  lemma FirstUnique(m: Member, c: nat, p: nat, q: nat)
    requires First(m, c, p) && First(m, c, q)
    ensures p == q
  {
    hide Allowed;
  }

  lemma {:induction false} SamePlace(ms: seq<Member>, ps: seq<nat>, qs: seq<nat>, k: nat)
    requires LaidOut(ms, ps) && LaidOut(ms, qs) && k < |ms|
    ensures ps[k] == qs[k]
    decreases k
  {
    hide Width, First;
    if k > 0 { SamePlace(ms, ps, qs, k - 1); }
    FirstUnique(ms[k], End(ms, ps, k), ps[k], qs[k]);
  }

  /** The layout is determined by the members. */
  lemma LayoutUnique(ms: seq<Member>, ps: seq<nat>, qs: seq<nat>)
    requires LaidOut(ms, ps) && LaidOut(ms, qs)
    ensures ps == qs
  {
    forall k | 0 <= k < |ms| ensures ps[k] == qs[k] {
      SamePlace(ms, ps, qs, k);
    }
  }

  /** A bit-field that is not packed lies within one storage unit of its type, and a unit starts
      at a multiple of the alignment. */
  lemma InOneUnit(m: Member, p: nat)
    requires Declared(m) && m.shape.BitField? && !m.isPacked && m.shape.width > 0 && Allowed(m, p)
    ensures var unit := 8 * AlignDown(p / 8, m.alignMask);
            unit <= p && p + m.shape.width <= unit + 8 * m.baseSize
  {
    UnitStart(p, m.alignMask);
  }

  lemma UnitStart(p: nat, mask: nat)
    ensures p % (8 * (mask + 1)) == p - 8 * AlignDown(p / 8, mask)
  {
    var a, b := mask + 1, p / 8;
    var q := b / a;
    assert b == a * q + b % a;
    assert (8 * a) * q == 8 * (a * q) && (8 * a) * (q + 1) == 8 * (a * q) + 8 * a;
    QuotientUnique(p, 8 * a, q);
  }

  // ---- placing a member ---------------------------------------------------------------------------

  /** Rounding a bit position up to a multiple of the alignment. */
  lemma RoundUp(c: nat, mask: nat)
    ensures var p, unit := 8 * AlignUp((c + 7) / 8, mask), 8 * (mask + 1);
            && p % unit == 0 && c <= p
            && (c % unit == 0 ==> p == c)
            && forall q | c <= q < p :: q % unit >= c % unit && q % unit != 0
  {
    hide AlignUp;
    var unit, p := 8 * (mask + 1), 8 * AlignUp((c + 7) / 8, mask);
    var k := RoundUpBlock(c, mask);
    QuotientUnique(p, unit, k);
    if c < p {
      QuotientUnique(c, unit, k - 1);
      forall q | c <= q < p ensures q % unit >= c % unit && q % unit != 0 {
        QuotientUnique(q, unit, k - 1);
      }
    }
  }

  /** The multiple of the alignment that a position is rounded up to. */
  lemma RoundUpBlock(c: nat, mask: nat) returns (k: nat)
    ensures var p, unit := 8 * AlignUp((c + 7) / 8, mask), 8 * (mask + 1);
            p == unit * k && c <= p < c + unit && unit * (k - 1) == p - unit && unit * (k + 1) == p + unit
  {
    var a, b := mask + 1, (c + 7) / 8;
    k := (b + mask) / a;
    assert b + mask == a * k + (b + mask) % a;
    BlockArith(a, k);
  }

  lemma BlockArith(a: int, k: int)
    ensures (8 * a) * k == 8 * (a * k) && (8 * a) * (k - 1) == 8 * (a * k) - 8 * a
    ensures (8 * a) * (k + 1) == 8 * (a * k) + 8 * a
  {
  }

  /** The alignment a member asks of its struct or union: unnamed bit-fields of a struct ask none. */
  function AlignOf(m: Member, inUnion: bool): nat {
    if !inUnion && m.shape.BitField? && !m.named then 0 else m.alignMask
  }

  /** How many bytes a member makes a union have. */
  function UnionSize(m: Member): nat {
    if m.shape.BitField? then m.alignMask + 1 else ByteSize(m)
  }

  function Max(a: nat, b: nat): nat { if a <= b then b else a }

  datatype Position = Position(place: Placed, bitOffset: nat) | ZeroLengthNamed

  /** Where a placed member starts, in bits. */
  function Start(p: Placed): nat { 8 * p.offset + p.bitOffset }

  /** A struct or union type whose members are being placed. */
  class Record {
    const isUnion: bool
    var baseSize: nat
    var alignMask: nat
    var hasBitField: bool

    /** Nothing placed yet; an attribute may have raised the alignment. */
    constructor (isUnion: bool, alignMask: nat)
      ensures this.isUnion == isUnion && this.alignMask == alignMask && baseSize == 0 && !hasBitField
    {
      this.isUnion := isUnion;
      this.alignMask := alignMask;
      baseSize := 0;
      hasBitField := false;
    }

    /** The bit-field branch. */
    method PlaceBits(m: Member, bitOffset: nat) returns (place: Placed, next: nat)
      requires Declared(m) && m.shape.BitField? && bitOffset < 8
      modifies this`baseSize
      ensures place.m == m && place.bitOffset < 8 && next < 8
      ensures First(m, 8 * old(baseSize) + bitOffset, Start(place))
      ensures 8 * baseSize + next == Start(place) + Width(m)
    {
      hide First, AlignUp, AlignDown, IsMask, Width;
      ghost var c := 8 * baseSize + bitOffset;
      var offset := bitOffset;
      var bitsUsed := (baseSize - AlignDown(baseSize, m.alignMask)) * 8 + offset;
      BitsUsed(baseSize, offset, m.alignMask);
      if !m.isPacked && (m.shape.width == 0 || bitsUsed + m.shape.width > m.baseSize * 8) {
        baseSize := baseSize + (offset + 7) / 8;
        assert baseSize == (c + 7) / 8;
        baseSize := AlignUp(baseSize, m.alignMask);
        offset := 0;
        FirstRealigned(m, c);
      } else {
        FirstHere(m, c);
      }
      place := Placed(m, baseSize, offset);
      offset := offset + m.shape.width;
      baseSize := baseSize + offset / 8;
      next := offset % 8;
      WidthOfBits(m);
    }

    /** The branch for members that are no bit-fields. */
    method PlaceBytes(m: Member, bitOffset: nat) returns (place: Placed)
      requires Declared(m) && !m.shape.BitField? && bitOffset < 8
      modifies this`baseSize
      ensures place.m == m && place.bitOffset == 0
      ensures First(m, 8 * old(baseSize) + bitOffset, Start(place))
      ensures 8 * baseSize == Start(place) + Width(m)
    {
      hide First, AlignUp, Allowed, IsMask;
      ghost var c := 8 * baseSize + bitOffset;
      baseSize := baseSize + (bitOffset + 7) / 8;
      assert baseSize == (c + 7) / 8;
      baseSize := AlignUp(baseSize, m.alignMask);
      FirstRealigned(m, c);
      place := Placed(m, baseSize, 0);
      baseSize := baseSize + ByteSize(m);
    }

    /** calculate_member_position */
    method PlaceMember(m: Member, bitOffset: nat) returns (r: Position)
      requires Declared(m) && bitOffset < 8
      modifies this
      ensures r.ZeroLengthNamed? <==> !isUnion && m.named && m.shape == BitField(0)
      ensures r.Position? ==>
                && r.place.m == m && r.place.bitOffset < 8 && r.bitOffset < 8
                && alignMask == Max(old(alignMask), AlignOf(m, isUnion))
                && hasBitField == (old(hasBitField) || m.hasBitField || m.shape.BitField?)
      ensures r.Position? && isUnion ==>
                Start(r.place) == 0 && r.bitOffset == bitOffset && baseSize == Max(old(baseSize), UnionSize(m))
      ensures r.Position? && !isUnion ==>
                && First(m, 8 * old(baseSize) + bitOffset, Start(r.place))
                && 8 * baseSize + r.bitOffset == Start(r.place) + Width(m)
    {
      hide First, Width, IsMask, ByteSize;
      var mask := m.alignMask;
      if isUnion {
        baseSize := Max(baseSize, UnionSize(m));
        r := Position(Placed(m, 0, 0), bitOffset);
      } else if m.shape.BitField? {
        if m.named && m.shape.width == 0 { return ZeroLengthNamed; }
        var place, next := PlaceBits(m, bitOffset);
        r := Position(place, next);
        if !m.named { mask := 0; }
      } else {
        var place := PlaceBytes(m, bitOffset);
        r := Position(place, 0);
      }
      if mask > alignMask { alignMask := mask; }
      if m.hasBitField || m.shape.BitField? { hasBitField := true; }
    }

    /** calculate_struct_offsets: the members a user of the type sees, with the bit each declared
        member starts at; false for a named bit-field of length 0 in a struct. */
    method PlaceMembers(ms: seq<Member>) returns (ok: bool, flat: seq<Placed>, ghost ps: seq<nat>)
      requires baseSize == 0 && IsMask(alignMask) && forall m <- ms :: Declared(m)
      modifies this
      ensures ok <==> isUnion || Legal(ms)
      ensures ok ==>
                && Arranged(isUnion, ms, ps) && flat == Flattened(ms, ps)
                && alignMask == MaskOf(ms, old(alignMask), isUnion) && IsMask(alignMask)
                && Fits(baseSize, alignMask, Extent(isUnion, ms, ps))
                && (hasBitField <==> old(hasBitField) || HasBits(ms))
      ensures ok && !isUnion ==>
                forall i | 0 <= i < |ms| && ms[i].shape.Array? && ms[i].pointers >= 1 ::
                  End(ms, ps, i + 1) == ps[i] + ms[i].shape.count * Width(Element(ms[i]))
      ensures isUnion ==>
                ((forall k | 0 <= k < |ms| :: Held(ms[k], baseSize))
                 <==> forall k | 0 <= k < |ms| :: Narrow(ms[k], AlignUp(UnionMax(ms), alignMask)))
    {
      hide *;
      var i: nat, bitOffset: nat := 0, 0;
      flat, ps := [], [];
      assert ms[..0] == [];
      Nothing(isUnion, alignMask);
      while i < |ms|
        invariant i <= |ms| && bitOffset < 8
        invariant alignMask == MaskOf(ms[..i], old(alignMask), isUnion)
        invariant |ps| == i && Arranged(isUnion, ms[..i], ps) && flat == Flattened(ms[..i], ps)
        invariant 8 * baseSize + bitOffset == Extent(isUnion, ms[..i], ps)
        invariant isUnion ==> bitOffset == 0
        invariant hasBitField <==> old(hasBitField) || HasBits(ms[..i])
        invariant isUnion || Legal(ms[..i])
      {
        var m := ms[i];
        var r := PlaceMember(m, bitOffset);
        FlagsOne(ms, i);
        if r.ZeroLengthNamed? { return false, flat, ps; }
        flat := flat + EntriesOf(m, r.place);
        EntriesAt(m, r.place);
        MaskOne(ms, i, old(alignMask), isUnion);
        if isUnion {
          OneMoreUnion(ms, i, ps);
        } else {
          OneMore(ms, i, ps, Start(r.place));
        }
        ps := ps + [Start(r.place)];
        bitOffset := r.bitOffset;
        i := i + 1;
      }
      assert ms[..i] == ms;
      MaskOfIsMask(ms, old(alignMask), isUnion);
      baseSize := baseSize + (bitOffset + 7) / 8;
      if baseSize == 0 { baseSize := 1; }
      FitsAligned(Extent(isUnion, ms, ps), alignMask, baseSize);
      baseSize := AlignUp(baseSize, alignMask);
      if isUnion { UnionHolds(ms, ps, baseSize, alignMask); }
      ArraysEnd(ms, ps);
      ok := true;
    }
  }

  /** The members of a struct follow each other, those of a union all start at bit 0. */
  ghost predicate Arranged(isUnion: bool, ms: seq<Member>, ps: seq<nat>) {
    if isUnion then |ps| == |ms| && forall p <- ps :: p == 0 else LaidOut(ms, ps)
  }

  function UnionMax(ms: seq<Member>): nat {
    if ms == [] then 0 else Max(UnionMax(ms[..|ms| - 1]), UnionSize(ms[|ms| - 1]))
  }

  /** How many bits the members need. */
  function Extent(isUnion: bool, ms: seq<Member>, ps: seq<nat>): nat
    requires |ms| == |ps|
  {
    if isUnion then 8 * UnionMax(ms) else End(ms, ps, |ms|)
  }

  /** No named bit-field has length 0. */
  predicate Legal(ms: seq<Member>) { forall m <- ms :: !(m.named && m.shape == BitField(0)) }

  predicate HasBits(ms: seq<Member>) { exists m <- ms :: m.hasBitField || m.shape.BitField? }

  lemma FlagsOne(ms: seq<Member>, i: nat)
    requires i < |ms|
    ensures HasBits(ms[..i + 1]) <==> HasBits(ms[..i]) || ms[i].hasBitField || ms[i].shape.BitField?
    ensures Legal(ms[..i + 1]) <==> Legal(ms[..i]) && !(ms[i].named && ms[i].shape == BitField(0))
    ensures ms[i].named && ms[i].shape == BitField(0) ==> !Legal(ms)
  {
    assert ms[..i + 1] == ms[..i] + [ms[i]];
    assert ms[i] in ms[..i + 1];
  }

  lemma Nothing(isUnion: bool, mask: nat)
    ensures MaskOf([], mask, isUnion) == mask && Arranged(isUnion, [], []) && Flattened([], []) == []
    ensures Extent(isUnion, [], []) == 0 && !HasBits([]) && Legal([])
  {
  }

  // ---- the members a user sees ---------------------------------------------------------------------

  /** copy_submembers: the members of an unnamed struct or union, moved to its place. */
  function Moved(subs: seq<Placed>, offset: nat): seq<Placed> {
    seq(|subs|, i requires 0 <= i < |subs| => subs[i].(offset := subs[i].offset + offset))
  }

  /** What a placed member adds to its struct. */
  function EntriesOf(m: Member, place: Placed): seq<Placed> {
    if m.named then [place] else if m.isRecord then Moved(m.subs, place.offset) else []
  }

  /** The same, from the bit the member starts at. */
  function Entries(m: Member, p: nat): seq<Placed> { EntriesOf(m, Placed(m, p / 8, p % 8)) }

  function Flattened(ms: seq<Member>, ps: seq<nat>): seq<Placed>
    requires |ms| == |ps|
  {
    if ms == [] then [] else
      var k := |ms| - 1;
      Flattened(ms[..k], ps[..k]) + Entries(ms[k], ps[k])
  }

  function MaskOf(ms: seq<Member>, initial: nat, inUnion: bool): nat {
    if ms == [] then initial else Max(MaskOf(ms[..|ms| - 1], initial, inUnion), AlignOf(ms[|ms| - 1], inUnion))
  }

  /** The size is the least positive multiple of the alignment that holds all members. */
  predicate Holds(size: nat, mask: nat, end: nat) { size >= 1 && size % (mask + 1) == 0 && 8 * size >= end }

  ghost predicate Fits(size: nat, mask: nat, end: nat) {
    Holds(size, mask, end) && forall t: nat | Holds(t, mask, end) :: size <= t
  }

  lemma FitsAligned(end: nat, mask: nat, bytes: nat)
    requires bytes == if end == 0 then 1 else (end + 7) / 8
    ensures Fits(AlignUp(bytes, mask), mask, end)
  {
    hide AlignUp;
    LeastMultiple(bytes, mask);
    forall t: nat | Holds(t, mask, end) ensures AlignUp(bytes, mask) <= t {
      NoSmaller(bytes, mask, t);
    }
  }

  lemma LeastMultiple(x: nat, mask: nat)
    ensures x <= AlignUp(x, mask) < x + mask + 1 && AlignUp(x, mask) % (mask + 1) == 0
  {
    var a := mask + 1;
    var k := (x + mask) / a;
    assert x + mask == a * k + (x + mask) % a;
    QuotientUnique(a * k, a, k);
  }

  lemma NoSmaller(x: nat, mask: nat, t: nat)
    requires x <= t && t % (mask + 1) == 0
    ensures AlignUp(x, mask) <= t
  {
    hide AlignUp;
    var a, size := mask + 1, AlignUp(x, mask);
    LeastMultiple(x, mask);
    var j, k := t / a, size / a;
    assert t == a * j && size == a * k;
    if j < k { ScaleUp(j, k - 1, a); }
  }

  lemma {:induction false} MaskOfIsMask(ms: seq<Member>, initial: nat, inUnion: bool)
    requires IsMask(initial) && forall m <- ms :: Declared(m)
    ensures IsMask(MaskOf(ms, initial, inUnion))
  {
    hide IsMask;
    if ms != [] {
      MaskOfIsMask(ms[..|ms| - 1], initial, inUnion);
      assert Declared(ms[|ms| - 1]) && IsMask(0) by { NoAlignment(); }
    }
  }

  lemma NoAlignment()
    ensures IsMask(0)
  {
  }

  lemma EntriesAt(m: Member, place: Placed)
    requires place.m == m && place.bitOffset < 8
    ensures EntriesOf(m, place) == Entries(m, Start(place))
  {
  }

  lemma OneMore(ms: seq<Member>, i: nat, ps: seq<nat>, p: nat)
    requires i < |ms| && |ps| == i && Arranged(false, ms[..i], ps) && First(ms[i], Extent(false, ms[..i], ps), p)
    ensures Arranged(false, ms[..i + 1], ps + [p])
    ensures Flattened(ms[..i + 1], ps + [p]) == Flattened(ms[..i], ps) + Entries(ms[i], p)
    ensures Extent(false, ms[..i + 1], ps + [p]) == p + Width(ms[i])
  {
    hide First, Entries, Width, LaidOut;
    var ns, qs := ms[..i + 1], ps + [p];
    assert ns[..i] == ms[..i] && qs[..i] == ps;
    OneMoreLaidOut(ms, i, ps, p);
  }

  lemma OneMoreLaidOut(ms: seq<Member>, i: nat, ps: seq<nat>, p: nat)
    requires i < |ms| && |ps| == i && LaidOut(ms[..i], ps) && First(ms[i], End(ms[..i], ps, i), p)
    ensures LaidOut(ms[..i + 1], ps + [p])
  {
    hide First, Width;
    var ns, qs := ms[..i + 1], ps + [p];
    forall k | 0 <= k < |ns| ensures First(ns[k], End(ns, qs, k), qs[k]) {
      SameEnd(ms, i, ps, p, k);
      if k < i {
        assert First(ms[..i][k], End(ms[..i], ps, k), ps[k]);
      }
    }
  }

  lemma SameEnd(ms: seq<Member>, i: nat, ps: seq<nat>, p: nat, k: nat)
    requires k <= i < |ms| && |ps| == i
    ensures End(ms[..i + 1], ps + [p], k) == End(ms[..i], ps, k)
  {
    hide Width;
  }

  lemma OneMoreUnion(ms: seq<Member>, i: nat, ps: seq<nat>)
    requires i < |ms| && |ps| == i && Arranged(true, ms[..i], ps)
    ensures Arranged(true, ms[..i + 1], ps + [0])
    ensures Flattened(ms[..i + 1], ps + [0]) == Flattened(ms[..i], ps) + Entries(ms[i], 0)
    ensures Extent(true, ms[..i + 1], ps + [0]) == 8 * Max(UnionMax(ms[..i]), UnionSize(ms[i]))
    ensures Extent(true, ms[..i], ps) == 8 * UnionMax(ms[..i])
  {
    hide Entries, UnionSize, Max;
    assert ms[..i + 1][..i] == ms[..i] && (ps + [0])[..i] == ps;
  }

  lemma MaskOne(ms: seq<Member>, i: nat, initial: nat, inUnion: bool)
    requires i < |ms|
    ensures MaskOf(ms[..i + 1], initial, inUnion) == Max(MaskOf(ms[..i], initial, inUnion), AlignOf(ms[i], inUnion))
  {
    assert ms[..i + 1][..i] == ms[..i];
  }

  lemma BitsUsed(base: nat, offset: nat, mask: nat)
    requires offset < 8
    ensures (base - AlignDown(base, mask)) * 8 + offset == (8 * base + offset) % (8 * (mask + 1))
  {
    hide AlignDown;
    assert (8 * base + offset) / 8 == base;
    UnitStart(8 * base + offset, mask);
  }

  lemma WidthOfBits(m: Member)
    requires m.shape.BitField?
    ensures Width(m) == m.shape.width
  {
  }

  /** A bit-field that fits stays where the last one ended. */
  lemma FirstHere(m: Member, c: nat)
    requires m.shape.BitField?
    requires m.isPacked || (m.shape.width > 0 && c % (8 * (m.alignMask + 1)) + m.shape.width <= 8 * m.baseSize)
    ensures First(m, c, c)
  {
  }

  /** Otherwise the next multiple of the alignment is the first place. */
  lemma FirstRealigned(m: Member, c: nat)
    requires Declared(m) && !(m.shape.BitField? && m.isPacked)
    requires m.shape.BitField? && m.shape.width > 0 ==>
               c % (8 * (m.alignMask + 1)) + m.shape.width > 8 * m.baseSize
    ensures First(m, c, 8 * AlignUp((c + 7) / 8, m.alignMask))
  {
    hide AlignUp, IsMask;
    RoundUp(c, m.alignMask);
  }

  // ---- what holds of every layout -------------------------------------------------------------------

  /** Two placed members share no bit. */
  predicate Apart(a: Placed, b: Placed) {
    Start(a) + Width(a.m) <= Start(b) || Start(b) + Width(b.m) <= Start(a)
  }

  ghost predicate AllApart(f: seq<Placed>) { forall i, j | 0 <= i < j < |f| :: Apart(f[i], f[j]) }

  ghost predicate Inside(f: seq<Placed>, lo: nat, hi: nat) {
    forall e <- f :: lo <= Start(e) && Start(e) + Width(e.m) <= hi
  }

  /** The members of an unnamed struct or union lie within it. Those of a union may overlap. */
  ghost predicate Contained(m: Member) {
    !m.named && m.isRecord && !m.shape.BitField? ==> Inside(m.subs, 0, Width(m))
  }

  lemma EntriesInside(m: Member, p: nat)
    requires Declared(m) && Contained(m) && Allowed(m, p)
    ensures Inside(Entries(m, p), p, p + Width(m))
    ensures !m.named && m.isRecord ==> (AllApart(Entries(m, p)) <==> AllApart(m.subs))
  {
    hide Width, IsMask;
    if !m.named && m.isRecord {
      assert p % 8 == 0 by { WholeBytes(p, m.alignMask + 1); }
      MovedBy(m.subs, p / 8);
    }
  }

  lemma MovedBy(subs: seq<Placed>, offset: nat)
    ensures |Moved(subs, offset)| == |subs|
    ensures forall i | 0 <= i < |subs| ::
              var e := Moved(subs, offset)[i]; Start(e) == 8 * offset + Start(subs[i]) && e.m == subs[i].m
    ensures AllApart(Moved(subs, offset)) <==> AllApart(subs)
  {
    hide Width;
    var f := Moved(subs, offset);
    forall i, j | 0 <= i < j < |f| ensures Apart(f[i], f[j]) <==> Apart(subs[i], subs[j]) {
      assert Start(f[i]) == 8 * offset + Start(subs[i]) && Start(f[j]) == 8 * offset + Start(subs[j]);
    }
  }

  lemma WholeBytes(p: nat, a: nat)
    requires a > 0 && p % (8 * a) == 0
    ensures p % 8 == 0
  {
    var q := p / (8 * a);
    assert p == (8 * a) * q && (8 * a) * q == 8 * (a * q);
  }

  /** How many members a declared member shows to a user. */
  function EntryCount(m: Member): nat { if m.named then 1 else if m.isRecord then |m.subs| else 0 }

  function Count(ms: seq<Member>): nat {
    if ms == [] then 0 else Count(ms[..|ms| - 1]) + EntryCount(ms[|ms| - 1])
  }

  /** The declared member that the j-th member a user sees comes from. */
  function Owner(ms: seq<Member>, j: nat): nat {
    if ms == [] then 0
    else if j < Count(ms[..|ms| - 1]) then Owner(ms[..|ms| - 1], j) else |ms| - 1
  }

  /** Members that come from different declared members share no bit. */
  ghost predicate OwnersApart(ms: seq<Member>, f: seq<Placed>) {
    |f| == Count(ms) && forall i, j | 0 <= i < j < |f| && Owner(ms, i) != Owner(ms, j) :: Apart(f[i], f[j])
  }

  /** The members a user of a struct sees lie within the struct, and those that come from different
      declared members share no bit. */
  lemma {:induction false} FlattenedApart(ms: seq<Member>, ps: seq<nat>)
    requires LaidOut(ms, ps) && forall m <- ms :: Declared(m) && Contained(m)
    ensures OwnersApart(ms, Flattened(ms, ps)) && Inside(Flattened(ms, ps), 0, End(ms, ps, |ms|))
    decreases |ms|
  {
    hide Width, Declared, Contained, Entries, Allowed, Apart;
    if ms != [] {
      var k := |ms| - 1;
      var ns, qs := ms[..k], ps[..k];
      Prefix(ms, ps, k);
      FlattenedApart(ns, qs);
      assert First(ms[k], End(ms, ps, k), ps[k]) && ms[k] in ms;
      EntriesInside(ms[k], ps[k]);
      EntriesCounted(ms[k], ps[k]);
      JoinOwners(ms, Flattened(ns, qs), Entries(ms[k], ps[k]), End(ms, ps, k), ps[k], ps[k] + Width(ms[k]));
    }
  }

  lemma EntriesCounted(m: Member, p: nat)
    ensures |Entries(m, p)| == EntryCount(m)
  {
  }

  lemma JoinOwners(ms: seq<Member>, f: seq<Placed>, g: seq<Placed>, mid: nat, p: nat, end: nat)
    requires ms != [] && OwnersApart(ms[..|ms| - 1], f) && |g| == EntryCount(ms[|ms| - 1])
    requires Inside(f, 0, mid) && Inside(g, p, end) && mid <= p <= end
    ensures OwnersApart(ms, f + g) && Inside(f + g, 0, end)
  {
    hide Width, Start, EntryCount;
    forall i, j | 0 <= i < j < |f + g| && Owner(ms, i) != Owner(ms, j) ensures Apart((f + g)[i], (f + g)[j]) {
      if j < |f| {
        assert Apart(f[i], f[j]);
      } else {
        assert f[i] in f && g[j - |f|] in g;
      }
    }
  }

  /** No two members that an unnamed struct or union shows share a bit. */
  ghost predicate SubsApart(m: Member) { !m.named && m.isRecord ==> AllApart(m.subs) }

  /** No two members a user sees share a bit if and only if that holds in each unnamed member. */
  lemma {:induction false} FlattenedAllApart(ms: seq<Member>, ps: seq<nat>)
    requires LaidOut(ms, ps) && forall m <- ms :: Declared(m) && Contained(m)
    ensures AllApart(Flattened(ms, ps)) <==> forall m <- ms :: SubsApart(m)
    decreases |ms|
  {
    hide Width, Declared, Contained, Entries, Allowed, AllApart, SubsApart, OwnersApart, First, Inside;
    if ms == [] {
      NoneApart();
    } else {
      var k := |ms| - 1;
      var ns, qs := ms[..k], ps[..k];
      Prefix(ms, ps, k);
      FlattenedAllApart(ns, qs);
      OneMoreApart(ms, ps);
      assert ms == ns + [ms[k]];
    }
  }

  lemma OneMoreApart(ms: seq<Member>, ps: seq<nat>)
    requires LaidOut(ms, ps) && ms != [] && forall m <- ms :: Declared(m) && Contained(m)
    ensures var k := |ms| - 1;
            AllApart(Flattened(ms, ps)) <==> AllApart(Flattened(ms[..k], ps[..k])) && SubsApart(ms[k])
  {
    hide Width, Declared, Contained, Entries, Allowed, AllApart, Inside, OwnersApart;
    var k := |ms| - 1;
    var ns, qs := ms[..k], ps[..k];
    Prefix(ms, ps, k);
    FlattenedApart(ns, qs);
    assert First(ms[k], End(ms, ps, k), ps[k]) && ms[k] in ms;
    EntriesInside(ms[k], ps[k]);
    FewEntries(ms[k], ps[k]);
    JoinApart(Flattened(ns, qs), Entries(ms[k], ps[k]), End(ms, ps, k), ps[k], ps[k] + Width(ms[k]));
  }

  lemma NoneApart()
    ensures AllApart([])
  {
  }

  lemma FewEntries(m: Member, p: nat)
    ensures m.named || !m.isRecord ==> AllApart(Entries(m, p))
  {
  }

  lemma Prefix(ms: seq<Member>, ps: seq<nat>, k: nat)
    requires LaidOut(ms, ps) && k <= |ms|
    ensures LaidOut(ms[..k], ps[..k]) && End(ms[..k], ps[..k], k) == End(ms, ps, k)
  {
    hide Width, First;
    forall i | 0 <= i < k ensures First(ms[..k][i], End(ms[..k], ps[..k], i), ps[..k][i]) {
      assert First(ms[i], End(ms, ps, i), ps[i]);
    }
  }

  lemma JoinApart(f: seq<Placed>, g: seq<Placed>, mid: nat, p: nat, end: nat)
    requires Inside(f, 0, mid) && Inside(g, p, end) && mid <= p
    ensures AllApart(f + g) <==> AllApart(f) && AllApart(g)
  {
    hide Width, Start;
    if AllApart(f + g) {
      forall i, j | 0 <= i < j < |f| ensures Apart(f[i], f[j]) {
        assert Apart((f + g)[i], (f + g)[j]);
      }
      forall i, j | 0 <= i < j < |g| ensures Apart(g[i], g[j]) {
        assert Apart((f + g)[|f| + i], (f + g)[|f| + j]);
      }
    }
    if AllApart(f) && AllApart(g) {
      JoinedApart(f, g, mid, p, end);
    }
  }

  lemma JoinedApart(f: seq<Placed>, g: seq<Placed>, mid: nat, p: nat, end: nat)
    requires AllApart(f) && AllApart(g) && Inside(f, 0, mid) && Inside(g, p, end) && mid <= p
    ensures AllApart(f + g)
  {
    hide Width, Start;
    forall i, j | 0 <= i < j < |f + g| ensures Apart((f + g)[i], (f + g)[j]) {
      if j < |f| {
        assert Apart(f[i], f[j]);
      } else if i >= |f| {
        assert Apart(g[i - |f|], g[j - |f|]);
      } else {
        assert f[i] in f && g[j - |f|] in g;
      }
    }
  }

  /** The members of a finished struct lie within it, so structs and unions nest to any depth. */
  lemma StructIsContained(ms: seq<Member>, ps: seq<nat>, size: nat, mask: nat, m: Member)
    requires LaidOut(ms, ps) && (forall n <- ms :: Declared(n) && Contained(n)) && Fits(size, mask, End(ms, ps, |ms|))
    requires m.shape == Plain && m.pointers == 0 && m.baseSize == size && m.subs == Flattened(ms, ps)
    ensures Contained(m)
  {
    FlattenedApart(ms, ps);
    assert Width(m) == 8 * size;
  }

  lemma MaskDivides(small: nat, large: nat)
    requires IsMask(small) && IsMask(large) && small <= large
    ensures (large + 1) % (small + 1) == 0
  {
  }

  lemma MultipleOfMultiple(x: nat, b: nat, a: nat)
    requires a > 0 && b > 0 && x % b == 0 && b % a == 0
    ensures x % a == 0
  {
    var i, j := x / b, b / a;
    assert b == a * j && x == b * i;
    assert (a * j) * i == a * (j * i);
    QuotientUnique(x, a, j * i);
  }

  lemma SumOfMultiples(x: nat, y: nat, a: nat, k: nat)
    requires a > 0 && x % a == 0 && y % a == 0
    ensures (k * x + y) % a == 0
  {
    var i, j := x / a, y / a;
    assert x == a * i && y == a * j;
    assert k * (a * i) == a * (k * i);
    assert a * (k * i) + a * j == a * (k * i + j);
    QuotientUnique(k * x + y, a, k * i + j);
  }

  /** In an array of structs every member of every element is aligned as it asks. */
  lemma AlignedInArray(m: Member, p: nat, size: nat, mask: nat, k: nat)
    requires IsMask(mask) && Declared(m) && !m.shape.BitField? && Allowed(m, p)
    requires m.alignMask <= mask && size % (mask + 1) == 0
    ensures p % 8 == 0 && (k * size + p / 8) % (m.alignMask + 1) == 0
  {
    hide IsMask;
    var a := m.alignMask + 1;
    WholeBytes(p, a);
    ByteMultiple(p, a);
    MaskDivides(m.alignMask, mask);
    MultipleOfMultiple(size, mask + 1, a);
    SumOfMultiples(size, p / 8, a, k);
  }

  lemma ByteMultiple(p: nat, a: nat)
    requires a > 0 && p % (8 * a) == 0
    ensures (p / 8) % a == 0
  {
    var q := p / (8 * a);
    assert p == (8 * a) * q && (8 * a) * q == 8 * (a * q);
    QuotientUnique(p / 8, a, q);
  }

  /** Every member's alignment is at most that of the struct or union. */
  lemma {:induction false} MaskCovers(ms: seq<Member>, initial: nat, inUnion: bool, k: nat)
    requires k < |ms|
    ensures AlignOf(ms[k], inUnion) <= MaskOf(ms, initial, inUnion)
    decreases |ms|
  {
    if k < |ms| - 1 {
      MaskCovers(ms[..|ms| - 1], initial, inUnion, k);
    }
  }

  // ---- unions ---------------------------------------------------------------------------------------

  lemma {:induction false} UnionMaxCovers(ms: seq<Member>, k: nat)
    requires k < |ms|
    ensures UnionSize(ms[k]) <= UnionMax(ms)
    decreases |ms|
  {
    hide UnionSize;
    if k < |ms| - 1 {
      UnionMaxCovers(ms[..|ms| - 1], k);
    }
  }

  lemma FitsUnique(a: nat, b: nat, mask: nat, end: nat)
    requires Fits(a, mask, end) && Fits(b, mask, end)
    ensures a == b
  {
  }

  /** The union holds the member. */
  predicate Held(m: Member, size: nat) { Width(m) <= 8 * size }

  /** The member is no bit-field wider than that. */
  predicate Narrow(m: Member, bytes: nat) { m.shape.BitField? ==> m.shape.width <= 8 * bytes }

  lemma HeldIsNarrow(ms: seq<Member>, ps: seq<nat>, size: nat, mask: nat, k: nat)
    requires k < |ms| == |ps| && Fits(size, mask, Extent(true, ms, ps))
    ensures Held(ms[k], size) <==> Narrow(ms[k], AlignUp(UnionMax(ms), mask))
  {
    hide AlignUp, ByteSize;
    UnionMaxCovers(ms, k);
    if ms[k].shape.BitField? {
      FitsAligned(8 * UnionMax(ms), mask, UnionMax(ms));
      FitsUnique(size, AlignUp(UnionMax(ms), mask), mask, 8 * UnionMax(ms));
    }
  }

  /** A union holds all its members if and only if no bit-field is wider than the largest of the other
      members and the alignments of the bit-fields, rounded up to the alignment of the union. */
  lemma UnionHolds(ms: seq<Member>, ps: seq<nat>, size: nat, mask: nat)
    requires |ms| == |ps| && Fits(size, mask, Extent(true, ms, ps))
    ensures (forall k | 0 <= k < |ms| :: Held(ms[k], size))
       <==> (forall k | 0 <= k < |ms| :: Narrow(ms[k], AlignUp(UnionMax(ms), mask)))
  {
    hide Held, Narrow, AlignUp, Fits;
    forall k | 0 <= k < |ms| ensures Held(ms[k], size) <==> Narrow(ms[k], AlignUp(UnionMax(ms), mask)) {
      HeldIsNarrow(ms, ps, size, mask, k);
    }
  }

  /** `union { int x : 9 __attribute__((packed)); }` */
  function PackedNine(): Member { Member(true, false, 4, 0, true, 0, BitField(9), false, []) }

  /** It gets one byte, which does not hold its nine bits. */
  lemma PackedNineTooWide(size: nat)
    requires Fits(size, MaskOf([PackedNine()], 0, true), Extent(true, [PackedNine()], [0]))
    ensures Declared(PackedNine()) && size == 1 && !Held(PackedNine(), size)
  {
    var ms := [PackedNine()];
    assert ms[..0] == [] && UnionMax(ms) == 1 && MaskOf(ms, 0, true) == 0;
    assert Holds(1, 0, 8);
  }

  /** The members of a finished union that holds them lie within it. */
  lemma UnionIsContained(ms: seq<Member>, ps: seq<nat>, size: nat, m: Member)
    requires Arranged(true, ms, ps) &&
             forall k | 0 <= k < |ms| :: Declared(ms[k]) && Contained(ms[k]) && Held(ms[k], size)
    requires m.shape == Plain && m.pointers == 0 && m.baseSize == size && m.subs == Flattened(ms, ps)
    ensures Contained(m)
  {
    UnionInside(ms, ps, size);
    assert Width(m) == 8 * size;
  }

  lemma {:induction false} UnionInside(ms: seq<Member>, ps: seq<nat>, size: nat)
    requires Arranged(true, ms, ps) &&
             forall k | 0 <= k < |ms| :: Declared(ms[k]) && Contained(ms[k]) && Held(ms[k], size)
    ensures Inside(Flattened(ms, ps), 0, 8 * size)
    decreases |ms|
  {
    hide Declared, Contained, Entries, Width;
    if ms != [] {
      var k := |ms| - 1;
      assert ps[k] in ps && forall p <- ps[..k] :: p in ps;
      UnionInside(ms[..k], ps[..k], size);
      AllowedAtZero(ms[k]);
      EntriesInside(ms[k], 0);
    }
  }

  lemma AllowedAtZero(m: Member)
    requires Declared(m)
    ensures Allowed(m, 0)
  {
    assert 0 % (8 * (m.alignMask + 1)) == 0;
  }
}
