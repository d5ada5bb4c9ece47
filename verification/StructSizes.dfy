/** What the sizes of a layout mean: arrays and their elements, unions, and alignments. */
module StructSizes {
  import opened StructLayout

  /** ctype_size: the size of a type, for members that are no bit-fields. */
  function CtypeSize(m: Member): nat {
    var isArray := if m.shape.Array? then 1 else 0;
    var count := if m.shape.Array? then m.shape.count else 1;
    if m.pointers - isArray != 0 then POINTER_SIZE * count else m.baseSize * count
  }

  /** The layout gives a member the room that the size of its type says. The parser counts an array as
      one pointer level. */
  lemma RoomIsSize(m: Member)
    requires !m.shape.BitField? && (m.shape.Array? ==> m.pointers >= 1)
    ensures Width(m) == 8 * CtypeSize(m)
  {
  }

  /** A pointer takes eight bytes, and a type that is neither pointer nor array its own size. */
  lemma PlainWidth(m: Member)
    requires m.shape == Plain
    ensures m.pointers > 0 ==> Width(m) == 64
    ensures m.pointers == 0 ==> Width(m) == 8 * m.baseSize
  {
  }

  /** The elements of an array member of a struct lie one behind the other from its place on, and the
      next member is at the first place behind the last of them. */
  lemma ElementsInOrder(ms: seq<Member>, ps: seq<nat>, i: nat, k: nat)
    requires LaidOut(ms, ps) && i < |ms| && ms[i].shape.Array? && ms[i].pointers >= 1
    ensures var n, w := ms[i].shape.count, Width(Element(ms[i]));
            && End(ms, ps, i + 1) == ps[i] + n * w
            && (k < n ==> ps[i] + k * w + w <= End(ms, ps, i + 1))
            && (i + 1 < |ms| ==> First(ms[i + 1], ps[i] + n * w, ps[i + 1]))
  {
    hide Width, First;
    ArrayWidth(ms[i]);
    if i + 1 < |ms| {
      assert First(ms[i + 1], End(ms, ps, i + 1), ps[i + 1]);
    }
    InsideArray(ms[i].shape.count, k, Width(Element(ms[i])));
  }

  lemma InsideArray(n: nat, k: nat, w: nat)
    ensures k < n ==> k * w + w <= n * w
  {
    if k < n {
      var rest := n - k - 1;
      assert n * w == k * w + w + rest * w;
    }
  }

  /** `char a[3]` and `int b` */
  function ThreeChars(): Member { Member(true, false, 1, 0, false, 1, Array(3), false, []) }

  function OneInt(): Member { Member(true, false, 4, 3, false, 0, Plain, false, []) }

  /** In `struct { char a[3]; int b; }` b is at byte 4, and the struct has 8 bytes. */
  lemma CharsThenInt(ps: seq<nat>, size: nat)
    requires LaidOut([ThreeChars(), OneInt()], ps)
    requires Fits(size, MaskOf([ThreeChars(), OneInt()], 0, false), Extent(false, [ThreeChars(), OneInt()], ps))
    ensures ps == [0, 32] && size == 8
  {
    hide Fits;
    var ms := [ThreeChars(), OneInt()];
    assert First(ms[0], 0, ps[0]) && Allowed(ms[0], 0);
    assert First(ms[1], 24, ps[1]) && Allowed(ms[1], 32);
    assert ms[..1] == [ThreeChars()] && ms[..1][..0] == [];
    assert MaskOf(ms[..1], 0, false) == 0 && MaskOf(ms, 0, false) == 3;
    EndSize(size);
  }

  lemma EndSize(size: nat)
    ensures Fits(size, 3, 64) <==> size == 8
  {
    assert Holds(8, 3, 64);
  }

  // ---- alignments ----------------------------------------------------------------------------------

  /** The alignment of a struct or union is that of a member, or the one it had to begin with. */
  lemma {:induction false} MaskAttained(ms: seq<Member>, initial: nat, inUnion: bool)
    ensures var mask := MaskOf(ms, initial, inUnion);
            mask >= initial && (mask == initial || exists m <- ms :: mask == m.alignMask)
  {
    if ms != [] {
      MaskAttained(ms[..|ms| - 1], initial, inUnion);
      assert ms[|ms| - 1] in ms;
    }
  }

  // ---- unions --------------------------------------------------------------------------------------

  /** The size holds every member that is no bit-field, and for every bit-field its alignment. */
  ghost predicate Roomy(ms: seq<Member>, size: nat) {
    forall m <- ms :: if m.shape.BitField? then m.alignMask < size else Width(m) <= 8 * size
  }

  lemma {:induction false} RoomyIsMax(ms: seq<Member>, size: nat)
    ensures Roomy(ms, size) <==> UnionMax(ms) <= size
  {
    if ms != [] {
      var k := |ms| - 1;
      RoomyIsMax(ms[..k], size);
      assert ms == ms[..k] + [ms[k]];
    }
  }

  /** A union has the least positive size that is a multiple of its alignment and is roomy. */
  lemma UnionIsLeast(ms: seq<Member>, ps: seq<nat>, size: nat, mask: nat)
    requires |ms| == |ps| && Fits(size, mask, Extent(true, ms, ps))
    ensures size >= 1 && size % (mask + 1) == 0 && Roomy(ms, size)
    ensures forall t: nat | t >= 1 && t % (mask + 1) == 0 && Roomy(ms, t) :: size <= t
  {
    hide Roomy;
    RoomyIsMax(ms, size);
    forall t: nat | t >= 1 && t % (mask + 1) == 0 && Roomy(ms, t) ensures size <= t {
      RoomyIsMax(ms, t);
      assert Holds(t, mask, Extent(true, ms, ps));
    }
  }
}
