/** Known answers of XXH32: the digest of no bytes, and of a text that takes every path. */
module XxHashAnswers {
  import opened Common
  import opened Bignum
  import opened Bits
  import opened XxHash

  // ---- words, by arithmetic ------------------------------------------------------------------------

  /** Disjoint bits are added. */
  lemma {:induction false} OrIsSum(x: nat, y: nat, n: nat)
    requires y < Pow(2, n)
    ensures Or(x * Pow(2, n), y) == x * Pow(2, n) + y
    decreases n
  {
    hide Or, Pow;
    if n == 0 {
      OrNothing(x);
    } else {
      OrHalf(x, y, n);
      OrIsSum(x, y / 2, n - 1);
    }
  }

  lemma OrNothing(x: nat)
    ensures Pow(2, 0) == 1 && Or(x * 1, 0) == x
  {
  }

  lemma OrHalf(x: nat, y: nat, n: nat)
    requires n > 0 && y < Pow(2, n)
    ensures y / 2 < Pow(2, n - 1)
    ensures Or(x * Pow(2, n), y) == 2 * Or(x * Pow(2, n - 1), y / 2) + y % 2
    ensures x * Pow(2, n) == 2 * (x * Pow(2, n - 1))
  {
    var h := Pow(2, n - 1);
    TwiceProduct(x, h);
    EvenOr(x * h, y);
  }

  lemma EvenOr(z: nat, y: nat)
    ensures Or(2 * z, y) == 2 * Or(z, y / 2) + y % 2
  {
    if z > 0 && y > 0 {
      HalfOr(2 * z, y);
    } else if y > 0 {
      assert Or(0, y) == y && Or(0, y / 2) == y / 2;
    }
  }

  lemma RotlIs(x: Word, r: nat, p: nat, q: nat)
    requires r <= 32 && p == Pow(2, r) && q == Pow(2, 32 - r)
    ensures q > 0 && Rotl(x, r) == x % q * p + x / q
  {
    hide Pow, Or, Shl, Shr;
    Whole(r);
    ShlIsTimes(x, r);
    ShrIsQuotient(x, 32 - r);
    CutProduct(x, p, q);
    QuotientBelowPower(x, p, q);
    OrIsSum(x % q, x / q, r);
    SumBelow(x, p, q);
  }

  lemma {:induction false} Whole(r: nat)
    requires r <= 32
    ensures Pow(2, r) * Pow(2, 32 - r) == U32 && Pow(2, r) > 0 && Pow(2, 32 - r) > 0
  {
    hide Pow;
    PowAdd(2, r, 32 - r);
    Bits32();
  }

  lemma Bits32()
    ensures Pow(2, 32) == U32
  {
    Powers();
  }

  lemma CutProduct(x: nat, p: nat, q: nat)
    requires p > 0 && q > 0 && p * q == U32
    ensures x * p % U32 == x % q * p
  {
    var d, m := x / q, x % q;
    assert x == q * d + m;
    assert x * p == U32 * d + m * p by { assert (q * d) * p == (p * q) * d; }
    ScaleUp(m + 1, q, p);
    assert (m + 1) * p == m * p + p;
    assert U32 * (d + 1) == U32 * d + U32 && q * p == p * q;
    QuotientUnique(x * p, U32, d);
  }

  lemma QuotientBelowPower(x: Word, p: nat, q: nat)
    requires p > 0 && q > 0 && p * q == U32
    ensures x / q < p
  {
    QuotientBelow(x, q, p);
  }

  lemma SumBelow(x: nat, p: nat, q: nat)
    requires p > 0 && q > 0 && p * q == U32 && x / q < p
    ensures x % q * p + x / q < U32
  {
    var m := x % q;
    ScaleUp(m + 1, q, p);
    assert (m + 1) * p == m * p + p && q * p == p * q;
  }

  // ---- exclusive or, by hexadecimal digits ---------------------------------------------------------

  type Bit = b: int | 0 <= b < 2

  function Differ(p: Bit, q: Bit): Bit { if p == q then 0 else 1 }

  lemma XorBit(x: nat, y: nat, p: Bit, q: Bit)
    ensures Xor(2 * x + p, 2 * y + q) == 2 * Xor(x, y) + Differ(p, q)
  {
    assert (2 * x + p) / 2 == x && (2 * y + q) / 2 == y;
    if x == 0 && y == 0 { assert Xor(0, q) == q; }
  }

  /** One more hexadecimal digit, given by its bits. */
  lemma XorNext(x: nat, y: nat, z: nat, a: Bit, b: Bit, c: Bit, d: Bit, e: Bit, f: Bit, g: Bit, h: Bit)
    requires Xor(x, y) == z
    ensures Xor(16 * x + 8 * a + 4 * b + 2 * c + d, 16 * y + 8 * e + 4 * f + 2 * g + h)
            == 16 * z + 8 * Differ(a, e) + 4 * Differ(b, f) + 2 * Differ(c, g) + Differ(d, h)
  {
    hide Xor, Differ;
    XorBit(x, y, a, e);
    XorBit(2 * x + a, 2 * y + e, b, f);
    XorBit(4 * x + 2 * a + b, 4 * y + 2 * e + f, c, g);
    XorBit(8 * x + 4 * a + 2 * b + c, 8 * y + 4 * e + 2 * f + g, d, h);
    assert 2 * (8 * x + 4 * a + 2 * b + c) + d == 16 * x + 8 * a + 4 * b + 2 * c + d;
    assert 2 * (8 * y + 4 * e + 2 * f + g) + h == 16 * y + 8 * e + 4 * f + 2 * g + h;
  }

  lemma PowNext(n: nat)
    ensures Pow(2, 0) == 1 && Pow(2, n + 1) == 2 * Pow(2, n)
  {
  }

  lemma PowersTo8()
    ensures Pow(2, 1) == 0x2 && Pow(2, 7) == 0x80 && Pow(2, 8) == 0x100
  {
    hide Pow;
    PowNext(0); PowNext(1); PowNext(2); PowNext(3); PowNext(4); PowNext(5); PowNext(6); PowNext(7);
  }

  lemma PowersTo16()
    ensures Pow(2, 11) == 0x800 && Pow(2, 12) == 0x1000 && Pow(2, 13) == 0x2000 && Pow(2, 14) == 0x4000
    ensures Pow(2, 15) == 0x8000 && Pow(2, 16) == 0x10000
  {
    hide Pow;
    PowersTo8();
    PowNext(8); PowNext(9); PowNext(10); PowNext(11); PowNext(12); PowNext(13); PowNext(14); PowNext(15);
  }

  lemma PowersTo24()
    ensures Pow(2, 17) == 0x20000 && Pow(2, 18) == 0x40000 && Pow(2, 19) == 0x80000 && Pow(2, 20) == 0x100000
    ensures Pow(2, 21) == 0x200000 && Pow(2, 24) == 0x1000000
  {
    hide Pow;
    PowersTo16();
    PowNext(16); PowNext(17); PowNext(18); PowNext(19); PowNext(20); PowNext(21); PowNext(22); PowNext(23);
  }

  lemma PowersTo32()
    ensures Pow(2, 25) == 0x2000000 && Pow(2, 31) == 0x80000000 && Pow(2, 32) == 0x100000000
  {
    hide Pow;
    PowersTo24();
    PowNext(24); PowNext(25); PowNext(26); PowNext(27); PowNext(28); PowNext(29); PowNext(30); PowNext(31);
  }

  lemma Powers()
    ensures Pow(2, 1) == 0x2 && Pow(2, 7) == 0x80 && Pow(2, 8) == 0x100 && Pow(2, 11) == 0x800
    ensures Pow(2, 12) == 0x1000 && Pow(2, 13) == 0x2000 && Pow(2, 14) == 0x4000 && Pow(2, 15) == 0x8000
    ensures Pow(2, 16) == 0x10000 && Pow(2, 17) == 0x20000 && Pow(2, 18) == 0x40000 && Pow(2, 19) == 0x80000
    ensures Pow(2, 20) == 0x100000 && Pow(2, 21) == 0x200000 && Pow(2, 24) == 0x1000000 && Pow(2, 25) == 0x2000000
    ensures Pow(2, 31) == 0x80000000 && Pow(2, 32) == 0x100000000
  {
    hide Pow;
    PowersTo8();
    PowersTo16();
    PowersTo24();
    PowersTo32();
  }

  lemma FirstDigits(x: nat)
    ensures Xor(x, 0) == x
  {
  }

  // ---- the steps of the hash -----------------------------------------------------------------------

  /** One lane: `a` is the sum, `r` its rotation. */
  lemma LaneIs(v: Word, w: Word, a: Word, r: Word)
    requires a == (v + w * 2246822519) % 0x1_0000_0000 && r == a % 0x8_0000 * 0x2000 + a / 0x8_0000
    ensures Lane(v, w) == r * 2654435761 % 0x1_0000_0000
  {
    hide Rotl, Pow;
    Powers();
    RotlIs(a, 13, 0x2000, 0x8_0000);
    AddCut(v, w * PRIME_2);
  }

  lemma AddCut(a: nat, b: nat)
    ensures (a + b % U32) % U32 == (a + b) % U32
  {
  }

  lemma MixWordIs(h: Word, w: Word, a: Word, r: Word)
    requires a == (h + w * 3266489917) % 0x1_0000_0000 && r == a % 0x8000 * 0x2_0000 + a / 0x8000
    ensures MixWord(h, w) == r * 668265263 % 0x1_0000_0000
  {
    hide Rotl, Pow;
    Powers();
    RotlIs(a, 17, 0x2_0000, 0x8000);
    AddCut(h, w * PRIME_3);
  }

  lemma MixByteIs(h: Word, b: Byte, a: Word, r: Word)
    requires a == (h + b * 374761393) % 0x1_0000_0000 && r == a % 0x20_0000 * 0x800 + a / 0x20_0000
    ensures MixByte(h, b) == r * 2654435761 % 0x1_0000_0000
  {
    hide Rotl, Pow;
    Powers();
    RotlIs(a, 11, 0x800, 0x20_0000);
    AddCut(h, b * PRIME_5);
  }

  lemma MergeIs(l: Lanes, a: Word, b: Word, c: Word, d: Word)
    requires a == l.v1 % 0x8000_0000 * 2 + l.v1 / 0x8000_0000
    requires b == l.v2 % 0x200_0000 * 0x80 + l.v2 / 0x200_0000
    requires c == l.v3 % 0x10_0000 * 0x1000 + l.v3 / 0x10_0000
    requires d == l.v4 % 0x4000 * 0x4_0000 + l.v4 / 0x4000
    ensures Merge(l) == (a + b + c + d) % 0x1_0000_0000
  {
    hide Rotl, Pow, Add;
    Powers();
    AddFour(a, b, c, d);
    RotlIs(l.v1, 1, 2, 0x8000_0000);
    RotlIs(l.v2, 7, 0x80, 0x200_0000);
    RotlIs(l.v3, 12, 0x1000, 0x10_0000);
    RotlIs(l.v4, 18, 0x4_0000, 0x4000);
  }

  lemma AddFour(a: nat, b: nat, c: nat, d: nat)
    ensures Add(Add(a, b), Add(c, d)) == (a + b + c + d) % U32
  {
    var x, y := a + b, c + d;
    AddCut(x % U32, y);
    AddCut(y, x);
  }

  /** The final mix, with the three exclusive ors given. */
  lemma AvalancheIs(h: Word, a: Word, b: Word, c: Word, d: Word, e: Word)
    requires Xor(h, h / 0x8000) == a && b == a * 2246822519 % 0x1_0000_0000
    requires Xor(b, b / 0x2000) == c && d == c * 3266489917 % 0x1_0000_0000
    requires Xor(d, d / 0x1_0000) == e
    ensures Avalanche(h) == e
  {
    hide Xor, Pow, XorShift;
    Powers();
    XorShiftIs(h, 15, 0x8000, a);
    XorShiftIs(b, 13, 0x2000, c);
    XorShiftIs(d, 16, 0x1_0000, e);
  }

  lemma XorShiftIs(h: Word, n: nat, p: nat, a: Word)
    requires p == Pow(2, n) && p > 0 && Xor(h, h / p) == a
    ensures XorShift(h, n) == a
  {
    hide Xor, Pow, Shr;
    ShrIsQuotient(h, n);
  }

  lemma StripeIs(l: Lanes, s: seq<Byte>, w1: Word, w2: Word, w3: Word, w4: Word)
    requires |s| == 16 && Le32(s[0..4]) == w1 && Le32(s[4..8]) == w2 && Le32(s[8..12]) == w3 && Le32(s[12..16]) == w4
    ensures Stripe(l, s) == Lanes(Lane(l.v1, w1), Lane(l.v2, w2), Lane(l.v3, w3), Lane(l.v4, w4))
  {
    hide Lane, Le32;
    assert s[..4] == s[0..4] && s[12..] == s[12..16];
  }

  // ---- the digests --------------------------------------------------------------------------------

  lemma XorEmptyA()
    ensures Xor(0x165667B1, 0x2CAC) == 0x16564B1D
  {
    hide Xor;
    FirstDigits(0x165);
    XorNext(0x165, 0x0, 0x165, 0, 1, 1, 0, 0, 0, 0, 0);
    XorNext(0x1656, 0x0, 0x1656, 0, 1, 1, 0, 0, 0, 1, 0);
    XorNext(0x16566, 0x2, 0x16564, 0, 1, 1, 1, 1, 1, 0, 0);
    XorNext(0x165667, 0x2C, 0x16564B, 1, 0, 1, 1, 1, 0, 1, 0);
    XorNext(0x165667B, 0x2CA, 0x16564B1, 0, 0, 0, 1, 1, 1, 0, 0);
  }

  lemma XorEmptyB()
    ensures Xor(0x7E00CC7B, 0x3F006) == 0x7E033C7D
  {
    hide Xor;
    FirstDigits(0x7E0);
    XorNext(0x7E0, 0x0, 0x7E0, 0, 0, 0, 0, 0, 0, 1, 1);
    XorNext(0x7E00, 0x3, 0x7E03, 1, 1, 0, 0, 1, 1, 1, 1);
    XorNext(0x7E00C, 0x3F, 0x7E033, 1, 1, 0, 0, 0, 0, 0, 0);
    XorNext(0x7E00CC, 0x3F0, 0x7E033C, 0, 1, 1, 1, 0, 0, 0, 0);
    XorNext(0x7E00CC7, 0x3F00, 0x7E033C7, 1, 0, 1, 1, 0, 1, 1, 0);
  }

  lemma XorEmptyC()
    ensures Xor(0x2CC5FC9, 0x2CC) == 0x2CC5D05
  {
    hide Xor;
    FirstDigits(0x2CC);
    XorNext(0x2CC, 0x0, 0x2CC, 0, 1, 0, 1, 0, 0, 0, 0);
    XorNext(0x2CC5, 0x0, 0x2CC5, 1, 1, 1, 1, 0, 0, 1, 0);
    XorNext(0x2CC5F, 0x2, 0x2CC5D, 1, 1, 0, 0, 1, 1, 0, 0);
    XorNext(0x2CC5FC, 0x2C, 0x2CC5D0, 1, 0, 0, 1, 1, 1, 0, 0);
  }

  lemma AvalancheEmpty()
    ensures Avalanche(0x165667B1) == 0x2CC5D05
  {
    hide Xor, Avalanche;
    XorEmptyA();
    XorEmptyB();
    XorEmptyC();
    AvalancheIs(0x165667B1, 0x16564B1D, 0x7E00CC7B, 0x7E033C7D, 0x2CC5FC9, 0x2CC5D05);
  }

  /** The digest of no bytes with seed 0. */
  lemma EmptyDigest()
    ensures Hash(0, []) == 0x2CC5D05
  {
    hide Avalanche;
    AvalancheEmpty();
  }

  /** "Nobody inspects the spammish repetition" */
  const BLOCK_1: seq<Byte> := [78, 111, 98, 111, 100, 121, 32, 105, 110, 115, 112, 101, 99, 116, 115, 32]

  const BLOCK_2: seq<Byte> := [116, 104, 101, 32, 115, 112, 97, 109, 109, 105, 115, 104, 32, 114, 101, 112]

  const REST: seq<Byte> := [101, 116, 105, 116, 105, 111, 110]

  const TEXT: seq<Byte> := BLOCK_1 + BLOCK_2 + REST

  lemma TextStart()
    ensures Start(0) == Lanes(0x24234428, 0x85EBCA77, 0x0, 0x61C8864F)
  {
  }

  lemma Lane1()
    ensures Lane(0x24234428, 0x6F626F4E) == 0x46A700A
  {
    hide Lane;
    LaneIs(0x24234428, 0x6F626F4E, 0x49528D6A, 0x51AD492A);
  }

  lemma Lane2()
    ensures Lane(0x85EBCA77, 0x69207964) == 0xBFADF8E3
  {
    hide Lane;
    LaneIs(0x85EBCA77, 0x69207964, 0x66991FF3, 0x23FE6CD3);
  }

  lemma Lane3()
    ensures Lane(0x0, 0x6570736E) == 0x5B32B4AA
  {
    hide Lane;
    LaneIs(0x0, 0x6570736E, 0xFE547422, 0x8E845FCA);
  }

  lemma Lane4()
    ensures Lane(0x61C8864F, 0x20737463) == 0x137E5555
  {
    hide Lane;
    LaneIs(0x61C8864F, 0x20737463, 0xD72ABE54, 0x57CA9AE5);
  }

  lemma Words1()
    ensures Le32(BLOCK_1[0..4]) == 0x6F626F4E && Le32(BLOCK_1[4..8]) == 0x69207964
    ensures Le32(BLOCK_1[8..12]) == 0x6570736E && Le32(BLOCK_1[12..16]) == 0x20737463
  {
    assert BLOCK_1[0..4] == [78, 111, 98, 111];
    assert BLOCK_1[4..8] == [100, 121, 32, 105];
    assert BLOCK_1[8..12] == [110, 115, 112, 101];
    assert BLOCK_1[12..16] == [99, 116, 115, 32];
  }

  lemma TextStripe1()
    ensures Stripe(Lanes(0x24234428, 0x85EBCA77, 0x0, 0x61C8864F), BLOCK_1)
            == Lanes(0x46A700A, 0xBFADF8E3, 0x5B32B4AA, 0x137E5555)
  {
    hide Lane, Le32, Stripe;
    Words1();
    Lane1();
    Lane2();
    Lane3();
    Lane4();
    StripeIs(Lanes(0x24234428, 0x85EBCA77, 0x0, 0x61C8864F), BLOCK_1,
             0x6F626F4E, 0x69207964, 0x6570736E, 0x20737463);
  }

  lemma Lane5()
    ensures Lane(0x46A700A, 0x20656874) == 0x719A836E
  {
    hide Lane;
    LaneIs(0x46A700A, 0x20656874, 0x3E7585F6, 0xB0BEC7CE);
  }

  lemma Lane6()
    ensures Lane(0xBFADF8E3, 0x6D617073) == 0x514C1DE8
  {
    hide Lane;
    LaneIs(0xBFADF8E3, 0x6D617073, 0x7344FC58, 0x9F8B0E68);
  }

  lemma Lane7()
    ensures Lane(0x5B32B4AA, 0x6873696D) == 0x97FA4BA2
  {
    hide Lane;
    LaneIs(0x5B32B4AA, 0x6873696D, 0x6217B855, 0xF70AAC42);
  }

  lemma Lane8()
    ensures Lane(0x137E5555, 0x70657220) == 0x242A97A2
  {
    hide Lane;
    LaneIs(0x137E5555, 0x70657220, 0xC213A235, 0x7446B842);
  }

  lemma Words2()
    ensures Le32(BLOCK_2[0..4]) == 0x20656874 && Le32(BLOCK_2[4..8]) == 0x6D617073
    ensures Le32(BLOCK_2[8..12]) == 0x6873696D && Le32(BLOCK_2[12..16]) == 0x70657220
  {
    assert BLOCK_2[0..4] == [116, 104, 101, 32];
    assert BLOCK_2[4..8] == [115, 112, 97, 109];
    assert BLOCK_2[8..12] == [109, 105, 115, 104];
    assert BLOCK_2[12..16] == [32, 114, 101, 112];
  }

  lemma TextStripe2()
    ensures Stripe(Lanes(0x46A700A, 0xBFADF8E3, 0x5B32B4AA, 0x137E5555), BLOCK_2)
            == Lanes(0x719A836E, 0x514C1DE8, 0x97FA4BA2, 0x242A97A2)
  {
    hide Lane, Le32, Stripe;
    Words2();
    Lane5();
    Lane6();
    Lane7();
    Lane8();
    StripeIs(Lanes(0x46A700A, 0xBFADF8E3, 0x5B32B4AA, 0x137E5555), BLOCK_2,
             0x20656874, 0x6D617073, 0x6873696D, 0x70657220);
  }

  lemma TextWord()
    ensures MixWord(0x8C86B554, 0x74697465) == 0x9B51544
  {
    hide MixWord;
    MixWordIs(0x8C86B554, 0x74697465, 0x6EFE1765, 0x2ECADDFC);
  }

  lemma TextByte1()
    ensures MixByte(0x9B51544, 105) == 0xCDEFD3C9
  {
    hide MixByte;
    MixByteIs(0x9B51544, 105, 0x33259CDD, 0x2CE6E999);
  }

  lemma TextByte2()
    ensures MixByte(0xCDEFD3C9, 111) == 0x3852087B
  {
    hide MixByte;
    MixByteIs(0xCDEFD3C9, 111, 0x7D66C988, 0x364C43EB);
  }

  lemma TextByte3()
    ensures MixByte(0x3852087B, 110) == 0xB3A7011B
  {
    hide MixByte;
    MixByteIs(0x3852087B, 110, 0xD1729689, 0x94B44E8B);
  }

  lemma TextLanes()
    ensures Stripes(Start(0), TEXT) == Lanes(0x719A836E, 0x514C1DE8, 0x97FA4BA2, 0x242A97A2)
  {
    hide Stripe, Start, Stripes;
    TextStart();
    TextStripe1();
    TextStripe2();
    SplitText();
    StripesStep(Start(0), TEXT);
    StripesStep(Stripe(Start(0), BLOCK_1), BLOCK_2 + REST);
    NoStripe(Lanes(0x719A836E, 0x514C1DE8, 0x97FA4BA2, 0x242A97A2), REST);
  }

  lemma SplitText()
    ensures |TEXT| == 39 && TEXT[..16] == BLOCK_1 && TEXT[16..] == BLOCK_2 + REST
    ensures (BLOCK_2 + REST)[..16] == BLOCK_2 && (BLOCK_2 + REST)[16..] == REST && |REST| == 7 && |BLOCK_2 + REST| == 23
    ensures Rest(TEXT) == REST
  {
  }

  lemma StripesStep(l: Lanes, s: seq<Byte>)
    requires |s| >= 16
    ensures Stripes(l, s) == Stripes(Stripe(l, s[..16]), s[16..])
  {
    hide Stripe;
  }

  lemma TextMerged()
    ensures Merge(Lanes(0x719A836E, 0x514C1DE8, 0x97FA4BA2, 0x242A97A2)) == 0x8C86B52D
  {
    hide Merge;
    MergeIs(Lanes(0x719A836E, 0x514C1DE8, 0x97FA4BA2, 0x242A97A2),
            0xE33506DC, 0xA60EF428, 0xA4BA297F, 0x5E8890AA);
  }

  lemma TextTail()
    ensures Tail(0x8C86B554, Rest(TEXT)) == 0xB3A7011B
  {
    hide MixWord, MixByte, Le32, Tail, TailBytes, Rest;
    SplitText();
    RestWord();
    TextWord();
    TextByte1();
    TextByte2();
    TextByte3();
    assert REST[4..] == [105, 111, 110];
    TailFour(0x8C86B554, REST);
    BytesMixed(0x9B51544, 105, 111, 110);
  }

  lemma RestWord()
    ensures Le32(REST[..4]) == 0x74697465
  {
    assert REST[..4] == [101, 116, 105, 116];
  }

  lemma TailFour(h: Word, s: seq<Byte>)
    requires 4 <= |s| < 8
    ensures Tail(h, s) == TailBytes(MixWord(h, Le32(s[..4])), s[4..])
  {
    hide MixWord, Le32, TailBytes;
  }

  lemma BytesStep(h: Word, s: seq<Byte>)
    requires s != []
    ensures TailBytes(h, s) == TailBytes(MixByte(h, s[0]), s[1..])
    ensures |s| == 1 ==> TailBytes(h, s) == MixByte(h, s[0])
  {
    hide MixByte;
  }

  lemma BytesMixed(h: Word, a: Byte, b: Byte, c: Byte)
    ensures TailBytes(h, [a, b, c]) == MixByte(MixByte(MixByte(h, a), b), c)
  {
    hide MixByte, TailBytes;
    var s: seq<Byte> := [a, b, c];
    BytesStep(h, s);
    assert s[1..] == [b, c];
    BytesStep(MixByte(h, a), [b, c]);
    assert [b, c][1..] == [c];
    BytesStep(MixByte(MixByte(h, a), b), [c]);
  }

  lemma XorTextA()
    ensures Xor(0xB3A7011B, 0x1674E) == 0xB3A66655
  {
    hide Xor;
    FirstDigits(0xB3A);
    XorNext(0xB3A, 0x0, 0xB3A, 0, 1, 1, 1, 0, 0, 0, 1);
    XorNext(0xB3A7, 0x1, 0xB3A6, 0, 0, 0, 0, 0, 1, 1, 0);
    XorNext(0xB3A70, 0x16, 0xB3A66, 0, 0, 0, 1, 0, 1, 1, 1);
    XorNext(0xB3A701, 0x167, 0xB3A666, 0, 0, 0, 1, 0, 1, 0, 0);
    XorNext(0xB3A7011, 0x1674, 0xB3A6665, 1, 0, 1, 1, 1, 1, 1, 0);
  }

  lemma XorTextB()
    ensures Xor(0xE81FA383, 0x740FD) == 0xE818E37E
  {
    hide Xor;
    FirstDigits(0xE81);
    XorNext(0xE81, 0x0, 0xE81, 1, 1, 1, 1, 0, 1, 1, 1);
    XorNext(0xE81F, 0x7, 0xE818, 1, 0, 1, 0, 0, 1, 0, 0);
    XorNext(0xE81FA, 0x74, 0xE818E, 0, 0, 1, 1, 0, 0, 0, 0);
    XorNext(0xE81FA3, 0x740, 0xE818E3, 1, 0, 0, 0, 1, 1, 1, 1);
    XorNext(0xE81FA38, 0x740F, 0xE818E37, 0, 0, 1, 1, 1, 1, 0, 1);
  }

  lemma XorTextC()
    ensures Xor(0xE229D906, 0xE229) == 0xE2293B2F
  {
    hide Xor;
    FirstDigits(0xE229);
    XorNext(0xE229, 0x0, 0xE229, 1, 1, 0, 1, 1, 1, 1, 0);
    XorNext(0xE229D, 0xE, 0xE2293, 1, 0, 0, 1, 0, 0, 1, 0);
    XorNext(0xE229D9, 0xE2, 0xE2293B, 0, 0, 0, 0, 0, 0, 1, 0);
    XorNext(0xE229D90, 0xE22, 0xE2293B2, 0, 1, 1, 0, 1, 0, 0, 1);
  }

  lemma AvalancheText()
    ensures Avalanche(0xB3A7011B) == 0xE2293B2F
  {
    hide Xor, Avalanche;
    XorTextA();
    XorTextB();
    XorTextC();
    AvalancheIs(0xB3A7011B, 0xB3A66655, 0xE81FA383, 0xE818E37E, 0xE229D906, 0xE2293B2F);
  }

  /** The digest of the text with seed 0. */
  lemma TextDigest()
    ensures Hash(0, TEXT) == 0xE2293B2F
  {
    hide Avalanche, Tail, Rest, Merge, Stripes, Start;
    SplitText();
    TextLanes();
    TextMerged();
    TextTail();
    AvalancheText();
  }
  lemma Lane9()
    ensures Lane(0x24234429, 0x6F626F4E) == 0xF3A0900A
  {
    hide Lane;
    LaneIs(0x24234429, 0x6F626F4E, 0x49528D6B, 0x51AD692A);
  }

  lemma Lane10()
    ensures Lane(0x85EBCA78, 0x69207964) == 0xAEE418E3
  {
    hide Lane;
    LaneIs(0x85EBCA78, 0x69207964, 0x66991FF4, 0x23FE8CD3);
  }

  lemma Lane11()
    ensures Lane(0x1, 0x6570736E) == 0x4A68D4AA
  {
    hide Lane;
    LaneIs(0x1, 0x6570736E, 0xFE547423, 0x8E847FCA);
  }

  lemma Lane12()
    ensures Lane(0x61C88650, 0x20737463) == 0x2B47555
  {
    hide Lane;
    LaneIs(0x61C88650, 0x20737463, 0xD72ABE55, 0x57CABAE5);
  }


  // ---- another seed ----------------------------------------------------------------------------------

  lemma XorSeededA()
    ensures Xor(0xBBEC4173, 0x177D8) == 0xBBED36AB
  {
    hide Xor;
    FirstDigits(0xBBE);
    XorNext(0xBBE, 0x0, 0xBBE, 1, 1, 0, 0, 0, 0, 0, 1);
    XorNext(0xBBEC, 0x1, 0xBBED, 0, 1, 0, 0, 0, 1, 1, 1);
    XorNext(0xBBEC4, 0x17, 0xBBED3, 0, 0, 0, 1, 0, 1, 1, 1);
    XorNext(0xBBEC41, 0x177, 0xBBED36, 0, 1, 1, 1, 1, 1, 0, 1);
    XorNext(0xBBEC417, 0x177D, 0xBBED36A, 0, 0, 1, 1, 1, 0, 0, 0);
  }

  lemma XorSeededB()
    ensures Xor(0x8E60577D, 0x47302) == 0x8E64247F
  {
    hide Xor;
    FirstDigits(0x8E6);
    XorNext(0x8E6, 0x0, 0x8E6, 0, 0, 0, 0, 0, 1, 0, 0);
    XorNext(0x8E60, 0x4, 0x8E64, 0, 1, 0, 1, 0, 1, 1, 1);
    XorNext(0x8E605, 0x47, 0x8E642, 0, 1, 1, 1, 0, 0, 1, 1);
    XorNext(0x8E6057, 0x473, 0x8E6424, 0, 1, 1, 1, 0, 0, 0, 0);
    XorNext(0x8E60577, 0x4730, 0x8E64247, 1, 1, 0, 1, 0, 0, 1, 0);
  }

  lemma XorSeededC()
    ensures Xor(0x9CF90443, 0x9CF9) == 0x9CF998BA
  {
    hide Xor;
    FirstDigits(0x9CF9);
    XorNext(0x9CF9, 0x0, 0x9CF9, 0, 0, 0, 0, 1, 0, 0, 1);
    XorNext(0x9CF90, 0x9, 0x9CF99, 0, 1, 0, 0, 1, 1, 0, 0);
    XorNext(0x9CF904, 0x9C, 0x9CF998, 0, 1, 0, 0, 1, 1, 1, 1);
    XorNext(0x9CF9044, 0x9CF, 0x9CF998B, 0, 0, 1, 1, 1, 0, 0, 1);
  }

  lemma AvalancheSeeded()
    ensures Avalanche(0xBBEC4173) == 0x9CF998BA
  {
    hide Xor, Avalanche;
    XorSeededA();
    XorSeededB();
    XorSeededC();
    AvalancheIs(0xBBEC4173, 0xBBED36AB, 0x8E60577D, 0x8E64247F, 0x9CF90443, 0x9CF998BA);
  }

  lemma SeededStripe()
    ensures Stripe(Lanes(0x24234429, 0x85EBCA78, 0x1, 0x61C88650), BLOCK_1)
            == Lanes(0xF3A0900A, 0xAEE418E3, 0x4A68D4AA, 0x2B47555)
  {
    hide Lane, Le32, Stripe;
    Words1();
    Lane9();
    Lane10();
    Lane11();
    Lane12();
    StripeIs(Lanes(0x24234429, 0x85EBCA78, 0x1, 0x61C88650), BLOCK_1,
             0x6F626F4E, 0x69207964, 0x6570736E, 0x20737463);
  }

  lemma SeededStart()
    ensures Start(1) == Lanes(0x24234429, 0x85EBCA78, 0x1, 0x61C88650)
  {
  }

  lemma SeededMerged()
    ensures Merge(Lanes(0xF3A0900A, 0xAEE418E3, 0x4A68D4AA, 0x2B47555)) == 0xBBEC4163
  {
    hide Merge;
    MergeIs(Lanes(0xF3A0900A, 0xAEE418E3, 0x4A68D4AA, 0x2B47555),
            0xE7412015, 0x720C71D7, 0x8D4AA4A6, 0xD5540AD1);
  }

  /** The digest of the first 16 bytes of the text with seed 1. */
  lemma SeededDigest()
    ensures Hash(1, BLOCK_1) == 0x9CF998BA
  {
    hide Avalanche, Merge, Stripe, Start;
    SeededStart();
    SeededStripe();
    OneStripe(Start(1), BLOCK_1);
    SeededMerged();
    AvalancheSeeded();
    assert Rest(BLOCK_1) == [] && Tail(0xBBEC4173, []) == 0xBBEC4173;
  }
}
