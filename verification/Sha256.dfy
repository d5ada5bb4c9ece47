/** SHA-256 with the functions and constants of FIPS 180-4, and its answer for the message "abc". */
module Sha256 {
  import opened Common
  import opened Sha2Spec
  import Sha2

  // ---- the algorithm (sections 4.1.2, 4.2.2 and 5.3.3) -----------------------------------------------

  function Ch(x: bv32, y: bv32, z: bv32): bv32 { (x & y) ^ ((!x) & z) }

  function Maj(x: bv32, y: bv32, z: bv32): bv32 { (x & y) ^ (x & z) ^ (y & z) }

  function BigSigma0(x: bv32): bv32 { x.RotateRight(2) ^ x.RotateRight(13) ^ x.RotateRight(22) }

  function BigSigma1(x: bv32): bv32 { x.RotateRight(6) ^ x.RotateRight(11) ^ x.RotateRight(25) }

  function SmallSigma0(x: bv32): bv32 { x.RotateRight(7) ^ x.RotateRight(18) ^ (x >> 3) }

  function SmallSigma1(x: bv32): bv32 { x.RotateRight(17) ^ x.RotateRight(19) ^ (x >> 10) }

  /** The constant of a round. */
  function Constant(t: nat): nat {
    if t < 8 then CONSTANTS_0[t] else if t < 16 then CONSTANTS_1[t - 8] else if t < 24 then CONSTANTS_2[t - 16]
    else if t < 32 then CONSTANTS_3[t - 24] else if t < 40 then CONSTANTS_4[t - 32]
    else if t < 48 then CONSTANTS_5[t - 40] else if t < 56 then CONSTANTS_6[t - 48]
    else if t < 64 then CONSTANTS_7[t - 56] else 0
  }

  const CONSTANTS_0: seq<nat> := [
    0x428A2F98, 0x71374491, 0xB5C0FBCF, 0xE9B5DBA5, 0x3956C25B, 0x59F111F1, 0x923F82A4, 0xAB1C5ED5]

  const CONSTANTS_1: seq<nat> := [
    0xD807AA98, 0x12835B01, 0x243185BE, 0x550C7DC3, 0x72BE5D74, 0x80DEB1FE, 0x9BDC06A7, 0xC19BF174]

  const CONSTANTS_2: seq<nat> := [
    0xE49B69C1, 0xEFBE4786, 0x0FC19DC6, 0x240CA1CC, 0x2DE92C6F, 0x4A7484AA, 0x5CB0A9DC, 0x76F988DA]

  const CONSTANTS_3: seq<nat> := [
    0x983E5152, 0xA831C66D, 0xB00327C8, 0xBF597FC7, 0xC6E00BF3, 0xD5A79147, 0x06CA6351, 0x14292967]

  const CONSTANTS_4: seq<nat> := [
    0x27B70A85, 0x2E1B2138, 0x4D2C6DFC, 0x53380D13, 0x650A7354, 0x766A0ABB, 0x81C2C92E, 0x92722C85]

  const CONSTANTS_5: seq<nat> := [
    0xA2BFE8A1, 0xA81A664B, 0xC24B8B70, 0xC76C51A3, 0xD192E819, 0xD6990624, 0xF40E3585, 0x106AA070]

  const CONSTANTS_6: seq<nat> := [
    0x19A4C116, 0x1E376C08, 0x2748774C, 0x34B0BCB5, 0x391C0CB3, 0x4ED8AA4A, 0x5B9CCA4F, 0x682E6FF3]

  const CONSTANTS_7: seq<nat> := [
    0x748F82EE, 0x78A5636F, 0x84C87814, 0x8CC70208, 0x90BEFFFA, 0xA4506CEB, 0xBEF9A3F7, 0xC67178F2]

  /** A word as a number. */
  function Num(x: bv32): nat { x as nat }

  /** A number as a word. */
  function Bits(n: nat): bv32 { if n < 0x1_0000_0000 then n as bv32 else 0 }

  const SHA_256: Algorithm := Algorithm(
    4, 64,
    Regs(0x6A09E667, 0xBB67AE85, 0x3C6EF372, 0xA54FF53A,
         0x510E527F, 0x9B05688C, 0x1F83D9AB, 0x5BE0CD19),
    t => Constant(t),
    (x, y, z) => Num(Ch(Bits(x), Bits(y), Bits(z))),
    (x, y, z) => Num(Maj(Bits(x), Bits(y), Bits(z))),
    x => Num(BigSigma0(Bits(x))),
    x => Num(BigSigma1(Bits(x))),
    x => Num(SmallSigma0(Bits(x))),
    x => Num(SmallSigma1(Bits(x))))

  lemma BitsOf(x: bv32)
    ensures Bits(Num(x)) == x
  {
  }

  // ---- the schedule of the padded message "abc" --------------------------------------------------------

  const MESSAGE: Bytes := [0x61, 0x62, 0x63]

  const BLOCK: Bytes := [0x61, 0x62, 0x63, 0x80] + Zeros(52) + [0, 0, 0, 0, 0, 0, 0, 24]

  lemma Block()
    ensures MESSAGE + Padding(SHA_256, 3) == BLOCK && |BLOCK| == BlockSize(SHA_256) == 64
  {
    LengthField();
    assert ZeroCount(SHA_256, 3) == 52;
  }

  lemma LengthField()
    ensures BeBytes(24, 8) == [0, 0, 0, 0, 0, 0, 0, 24]
  {
    assert BeBytes(0, 4) == [0, 0, 0, 0];
  }

  /** Word t of the schedule is w. */
  ghost predicate IsWord(t: nat, w: nat) {
    forall block: Bytes | block == BLOCK && |block| == BlockSize(SHA_256) :: Schedule(SHA_256, block, t) == w
  }

  lemma BeFour(s: Bytes)
    requires |s| == 4
    ensures var a: int, b: int, c: int, d: int := s[0], s[1], s[2], s[3];
            Be(s) == 0x100_0000 * a + 0x1_0000 * b + 0x100 * c + d
  {
    assert s[..3][..2] == s[..2] && s[..2][..1] == s[..1] && s[..1][..0] == [];
    BeSnoc(s);
    BeSnoc(s[..3]);
    BeSnoc(s[..2]);
    BeSnoc(s[..1]);
  }

  lemma BeSnoc(s: Bytes)
    requires s != []
    ensures Be(s) == 256 * Be(s[..|s| - 1]) + s[|s| - 1] && Be([]) == 0
  {
  }

  /** A word of the block by its bytes. */
  lemma WordOfBlock(t: nat, s: Bytes, a: int, b: int, c: int, d: int)
    requires t < 16 && |BLOCK| == 64 && s == BLOCK[4 * t..4 * t + 4] && |s| == 4
    requires a == s[0] && b == s[1] && c == s[2] && d == s[3]
    ensures IsWord(t, 0x100_0000 * a + 0x1_0000 * b + 0x100 * c + d)
  {
    hide Be;
    Block();
    BeFour(s);
    assert WordStart(SHA_256, t) == 4 * t;
  }

  /** The first 16 words. */
  lemma FirstWords(t: nat)
    requires t < 16
    ensures IsWord(t, if t == 0 then 0x61626380 else if t == 15 then 24 else 0)
  {
    hide IsWord;
    Block();
    if t == 0 {
      WordOfBlock(t, BLOCK[4 * t..4 * t + 4], 0x61, 0x62, 0x63, 0x80);
    } else if t == 15 {
      WordOfBlock(t, BLOCK[4 * t..4 * t + 4], 0, 0, 0, 24);
    } else {
      WordOfBlock(t, BLOCK[4 * t..4 * t + 4], 0, 0, 0, 0);
    }
  }

  lemma WordFound(t: nat, w: nat)
    requires IsWord(t, w)
    ensures |BLOCK| == BlockSize(SHA_256) && Schedule(SHA_256, BLOCK, t) == w
  {
    hide Schedule;
    Block();
  }

  /** One more word. */
  lemma Next(t: nat, a: bv32, b: nat, c: bv32, d: nat, x: bv32, y: bv32, w: nat)
    requires t >= 16 && IsWord(t - 2, Num(a)) && IsWord(t - 7, b) && IsWord(t - 15, Num(c)) && IsWord(t - 16, d)
    requires SmallSigma1(a) == x && SmallSigma0(c) == y && w == (d + (Num(x) + b + Num(y))) % 0x1_0000_0000
    ensures IsWord(t, w)
  {
    hide SmallSigma0, SmallSigma1, Schedule, Cut, IsWord, Num;
    WordGiven(t, a, b, c, d, x, y);
    CutIs(d + (Num(x) + b + Num(y)));
  }

  lemma SmallSums(a: bv32, c: bv32)
    ensures SHA_256.smallSigma1(Num(a)) == Num(SmallSigma1(a))
    ensures SHA_256.smallSigma0(Num(c)) == Num(SmallSigma0(c))
  {
    hide SmallSigma0, SmallSigma1, Bits, Num;
    BitsOf(a);
    BitsOf(c);
  }

  lemma WordGiven(t: nat, a: bv32, b: nat, c: bv32, d: nat, x: bv32, y: bv32)
    requires t >= 16 && IsWord(t - 2, Num(a)) && IsWord(t - 7, b) && IsWord(t - 15, Num(c)) && IsWord(t - 16, d)
    requires SmallSigma1(a) == x && SmallSigma0(c) == y
    ensures IsWord(t, Cut(SHA_256, d + (Num(x) + b + Num(y))))
  {
    hide SmallSigma0, SmallSigma1, Bits, Schedule, Cut, SHA_256, BLOCK, Num;
    Block();
    SmallSums(a, c);
    Sha2.ScheduleNext(SHA_256, BLOCK, t);
    WordFound(t - 2, Num(a));
    WordFound(t - 7, b);
    WordFound(t - 15, Num(c));
    WordFound(t - 16, d);
  }

  lemma Words0()
    ensures IsWord(0, 0x61626380) && IsWord(1, 0x00000000) && IsWord(2, 0x00000000) && IsWord(3, 0x00000000)
    ensures IsWord(4, 0x00000000) && IsWord(5, 0x00000000) && IsWord(6, 0x00000000) && IsWord(7, 0x00000000)
  {
    hide IsWord;
    assert IsWord(0, 0x61626380) by { FirstWords(0); }
    assert IsWord(1, 0x00000000) by { FirstWords(1); }
    assert IsWord(2, 0x00000000) by { FirstWords(2); }
    assert IsWord(3, 0x00000000) by { FirstWords(3); }
    assert IsWord(4, 0x00000000) by { FirstWords(4); }
    assert IsWord(5, 0x00000000) by { FirstWords(5); }
    assert IsWord(6, 0x00000000) by { FirstWords(6); }
    assert IsWord(7, 0x00000000) by { FirstWords(7); }
  }

  lemma Words8()
    ensures IsWord(8, 0x00000000) && IsWord(9, 0x00000000) && IsWord(10, 0x00000000) && IsWord(11, 0x00000000)
    ensures IsWord(12, 0x00000000) && IsWord(13, 0x00000000) && IsWord(14, 0x00000000) && IsWord(15, 0x00000018)
  {
    hide IsWord;
    assert IsWord(8, 0x00000000) by { FirstWords(8); }
    assert IsWord(9, 0x00000000) by { FirstWords(9); }
    assert IsWord(10, 0x00000000) by { FirstWords(10); }
    assert IsWord(11, 0x00000000) by { FirstWords(11); }
    assert IsWord(12, 0x00000000) by { FirstWords(12); }
    assert IsWord(13, 0x00000000) by { FirstWords(13); }
    assert IsWord(14, 0x00000000) by { FirstWords(14); }
    assert IsWord(15, 0x00000018) by { FirstWords(15); }
  }

  lemma Words16()
    ensures IsWord(16, 0x61626380) && IsWord(17, 0x000F0000) && IsWord(18, 0x7DA86405) && IsWord(19, 0x600003C6)
    ensures IsWord(20, 0x3E9D7B78) && IsWord(21, 0x0183FC00) && IsWord(22, 0x12DCBFDB) && IsWord(23, 0xE2E2C38E)
  {
    hide IsWord;
    Words0();
    Words8();
    assert IsWord(16, 0x61626380) by {
      Next(16, 0x00000000, 0x00000000, 0x00000000, 0x61626380, 0x00000000, 0x00000000, 0x61626380);
    }
    assert IsWord(17, 0x000F0000) by {
      Next(17, 0x00000018, 0x00000000, 0x00000000, 0x00000000, 0x000F0000, 0x00000000, 0x000F0000);
    }
    assert IsWord(18, 0x7DA86405) by {
      Next(18, 0x61626380, 0x00000000, 0x00000000, 0x00000000, 0x7DA86405, 0x00000000, 0x7DA86405);
    }
    assert IsWord(19, 0x600003C6) by {
      Next(19, 0x000F0000, 0x00000000, 0x00000000, 0x00000000, 0x600003C6, 0x00000000, 0x600003C6);
    }
    assert IsWord(20, 0x3E9D7B78) by {
      Next(20, 0x7DA86405, 0x00000000, 0x00000000, 0x00000000, 0x3E9D7B78, 0x00000000, 0x3E9D7B78);
    }
    assert IsWord(21, 0x0183FC00) by {
      Next(21, 0x600003C6, 0x00000000, 0x00000000, 0x00000000, 0x0183FC00, 0x00000000, 0x0183FC00);
    }
    assert IsWord(22, 0x12DCBFDB) by {
      Next(22, 0x3E9D7B78, 0x00000018, 0x00000000, 0x00000000, 0x12DCBFC3, 0x00000000, 0x12DCBFDB);
    }
    assert IsWord(23, 0xE2E2C38E) by {
      Next(23, 0x0183FC00, 0x61626380, 0x00000000, 0x00000000, 0x8180600E, 0x00000000, 0xE2E2C38E);
    }
  }

  lemma Words24()
    ensures IsWord(24, 0xC8215C1A) && IsWord(25, 0xB73679A2) && IsWord(26, 0xE5BC3909) && IsWord(27, 0x32663C5B)
    ensures IsWord(28, 0x9D209D67) && IsWord(29, 0xEC8726CB) && IsWord(30, 0x702138A4) && IsWord(31, 0xD3B7973B)
  {
    hide IsWord;
    Words8();
    Words16();
    assert IsWord(24, 0xC8215C1A) by {
      Next(24, 0x12DCBFDB, 0x000F0000, 0x00000000, 0x00000000, 0xC8125C1A, 0x00000000, 0xC8215C1A);
    }
    assert IsWord(25, 0xB73679A2) by {
      Next(25, 0xE2E2C38E, 0x7DA86405, 0x00000000, 0x00000000, 0x398E159D, 0x00000000, 0xB73679A2);
    }
    assert IsWord(26, 0xE5BC3909) by {
      Next(26, 0xC8215C1A, 0x600003C6, 0x00000000, 0x00000000, 0x85BC3543, 0x00000000, 0xE5BC3909);
    }
    assert IsWord(27, 0x32663C5B) by {
      Next(27, 0xB73679A2, 0x3E9D7B78, 0x00000000, 0x00000000, 0xF3C8C0E3, 0x00000000, 0x32663C5B);
    }
    assert IsWord(28, 0x9D209D67) by {
      Next(28, 0xE5BC3909, 0x0183FC00, 0x00000000, 0x00000000, 0x9B9CA167, 0x00000000, 0x9D209D67);
    }
    assert IsWord(29, 0xEC8726CB) by {
      Next(29, 0x32663C5B, 0x12DCBFDB, 0x00000000, 0x00000000, 0xD9AA66F0, 0x00000000, 0xEC8726CB);
    }
    assert IsWord(30, 0x702138A4) by {
      Next(30, 0x9D209D67, 0xE2E2C38E, 0x00000018, 0x00000000, 0x5D387513, 0x30060003, 0x702138A4);
    }
    assert IsWord(31, 0xD3B7973B) by {
      Next(31, 0xEC8726CB, 0xC8215C1A, 0x61626380, 0x00000018, 0x7787AA1A, 0x940E90EF, 0xD3B7973B);
    }
  }

  lemma Words32()
    ensures IsWord(32, 0x93F5997F) && IsWord(33, 0x3B68BA73) && IsWord(34, 0xAFF4FFC1) && IsWord(35, 0xF10A5C62)
    ensures IsWord(36, 0x0A8B3996) && IsWord(37, 0x72AF830A) && IsWord(38, 0x9409E33E) && IsWord(39, 0x24641522)
  {
    hide IsWord;
    Words16();
    Words24();
    assert IsWord(32, 0x93F5997F) by {
      Next(32, 0x702138A4, 0xB73679A2, 0x000F0000, 0x61626380, 0xBB5ABE5A, 0xC001FE03, 0x93F5997F);
    }
    assert IsWord(33, 0x3B68BA73) by {
      Next(33, 0xD3B7973B, 0xE5BC3909, 0x7DA86405, 0x000F0000, 0x394E7E48, 0x1C4F0322, 0x3B68BA73);
    }
    assert IsWord(34, 0xAFF4FFC1) by {
      Next(34, 0x93F5997F, 0x32663C5B, 0x600003C6, 0x7DA86405, 0x7FB4C6E2, 0x8031987F, 0xAFF4FFC1);
    }
    assert IsWord(35, 0xF10A5C62) by {
      Next(35, 0x3B68BA73, 0x9D209D67, 0x3E9D7B78, 0x600003C6, 0x4A7920F7, 0xA9709A3E, 0xF10A5C62);
    }
    assert IsWord(36, 0x0A8B3996) by {
      Next(36, 0xAFF4FFC1, 0xEC8726CB, 0x0183FC00, 0x3E9D7B78, 0xE0331F3B, 0xFF337818, 0x0A8B3996);
    }
    assert IsWord(37, 0x72AF830A) by {
      Next(37, 0xF10A5C62, 0x702138A4, 0x12DCBFDB, 0x0183FC00, 0x65816433, 0x9B88EA33, 0x72AF830A);
    }
    assert IsWord(38, 0x9409E33E) by {
      Next(38, 0x0A8B3996, 0xD3B7973B, 0xE2E2C38E, 0x12DCBFDB, 0xFBFB66DA, 0xB17A254E, 0x9409E33E);
    }
    assert IsWord(39, 0x24641522) by {
      Next(39, 0x72AF830A, 0x93F5997F, 0xC8215C1A, 0xE2E2C38E, 0x31F8DCE2, 0x7B92DB33, 0x24641522);
    }
  }

  lemma Words40()
    ensures IsWord(40, 0x9F47BF94) && IsWord(41, 0xF0A64F5A) && IsWord(42, 0x3E246A79) && IsWord(43, 0x27333BA3)
    ensures IsWord(44, 0x0C4763F2) && IsWord(45, 0x840ABF27) && IsWord(46, 0x7A290D5D) && IsWord(47, 0x065C43DA)
  {
    hide IsWord;
    Words24();
    Words32();
    assert IsWord(40, 0x9F47BF94) by {
      Next(40, 0x9409E33E, 0x3B68BA73, 0xB73679A2, 0xC8215C1A, 0xCDDD9AFD, 0xCDE00E0A, 0x9F47BF94);
    }
    assert IsWord(41, 0xF0A64F5A) by {
      Next(41, 0x24641522, 0xAFF4FFC1, 0xE5BC3909, 0xB73679A2, 0x883C4FBB, 0x013E863C, 0xF0A64F5A);
    }
    assert IsWord(42, 0x3E246A79) by {
      Next(42, 0x9F47BF94, 0xF10A5C62, 0x32663C5B, 0xE5BC3909, 0x281F0DA4, 0x3F3EC76A, 0x3E246A79);
    }
    assert IsWord(43, 0x27333BA3) by {
      Next(43, 0xF0A64F5A, 0x0A8B3996, 0x9D209D67, 0x32663C5B, 0xEE7A0FD4, 0xFBC7B5DE, 0x27333BA3);
    }
    assert IsWord(44, 0x0C4763F2) by {
      Next(44, 0x3E246A79, 0x72AF830A, 0xEC8726CB, 0x9D209D67, 0xB87C31CC, 0x43FB11B5, 0x0C4763F2);
    }
    assert IsWord(45, 0x840ABF27) by {
      Next(45, 0x27333BA3, 0x9409E33E, 0x702138A4, 0xEC8726CB, 0xFAAC3BB1, 0x08CD796D, 0x840ABF27);
    }
    assert IsWord(46, 0x7A290D5D) by {
      Next(46, 0x0C4763F2, 0x24641522, 0xD3B7973B, 0x702138A4, 0x5D845673, 0x881F6924, 0x7A290D5D);
    }
    assert IsWord(47, 0x065C43DA) by {
      Next(47, 0x840ABF27, 0x9F47BF94, 0x93F5997F, 0xD3B7973B, 0x0856302B, 0x8B06BCE0, 0x065C43DA);
    }
  }

  lemma Words48()
    ensures IsWord(48, 0xFB3E89CB) && IsWord(49, 0xCC7617DB) && IsWord(50, 0xB9E66C34) && IsWord(51, 0xA9993667)
    ensures IsWord(52, 0x84BADEDD) && IsWord(53, 0xC21462BC) && IsWord(54, 0x1487472C) && IsWord(55, 0xB20F7A99)
  {
    hide IsWord;
    Words32();
    Words40();
    assert IsWord(48, 0xFB3E89CB) by {
      Next(48, 0x7A290D5D, 0xF0A64F5A, 0x3B68BA73, 0x93F5997F, 0xA71B9812, 0xCF8708E0, 0xFB3E89CB);
    }
    assert IsWord(49, 0xCC7617DB) by {
      Next(49, 0x065C43DA, 0x3E246A79, 0xAFF4FFC1, 0x3B68BA73, 0xA997D4F5, 0xA9511DFA, 0xCC7617DB);
    }
    assert IsWord(50, 0xB9E66C34) by {
      Next(50, 0xFB3E89CB, 0x27333BA3, 0xF10A5C62, 0xAFF4FFC1, 0x95E24D5A, 0x4CDBE376, 0xB9E66C34);
    }
    assert IsWord(51, 0xA9993667) by {
      Next(51, 0xCC7617DB, 0x0C4763F2, 0x0A8B3996, 0xF10A5C62, 0xC9258230, 0xE321F3E3, 0xA9993667);
    }
    assert IsWord(52, 0x84BADEDD) by {
      Next(52, 0xB9E66C34, 0x840ABF27, 0x72AF830A, 0x0A8B3996, 0xFBB2B254, 0xFA7233CC, 0x84BADEDD);
    }
    assert IsWord(53, 0xC21462BC) by {
      Next(53, 0xA9993667, 0x7A290D5D, 0x9409E33E, 0x72AF830A, 0xBDD547B2, 0x17668AA3, 0xC21462BC);
    }
    assert IsWord(54, 0x1487472C) by {
      Next(54, 0x84BADEDD, 0x065C43DA, 0x24641522, 0x9409E33E, 0x34945C7D, 0x458CC397, 0x1487472C);
    }
    assert IsWord(55, 0xB20F7A99) by {
      Next(55, 0xC21462BC, 0xFB3E89CB, 0x9F47BF94, 0x24641522, 0xBD397C50, 0xD5335F5C, 0xB20F7A99);
    }
  }

  lemma Words56()
    ensures IsWord(56, 0xEF57B9CD) && IsWord(57, 0xEBE6B238) && IsWord(58, 0x9FE3095E) && IsWord(59, 0x78BC8D4B)
    ensures IsWord(60, 0xA43FCF15) && IsWord(61, 0x668B2FF8) && IsWord(62, 0xEEABA2CC) && IsWord(63, 0x12B1EDEB)
  {
    hide IsWord;
    Words40();
    Words48();
    assert IsWord(56, 0xEF57B9CD) by {
      Next(56, 0x1487472C, 0xCC7617DB, 0xF0A64F5A, 0x9F47BF94, 0x4B76A902, 0x3823395C, 0xEF57B9CD);
    }
    assert IsWord(57, 0xEBE6B238) by {
      Next(57, 0xB20F7A99, 0xB9E66C34, 0x3E246A79, 0xF0A64F5A, 0x52336C98, 0xEF268A12, 0xEBE6B238);
    }
    assert IsWord(58, 0x9FE3095E) by {
      Next(58, 0xEF57B9CD, 0xA9993667, 0x27333BA3, 0x3E246A79, 0x2BE49FAF, 0x8C40C8CF, 0x9FE3095E);
    }
    assert IsWord(59, 0x78BC8D4B) by {
      Next(59, 0xEBE6B238, 0x84BADEDD, 0x0C4763F2, 0x27333BA3, 0x8F619123, 0x3D6CE1A8, 0x78BC8D4B);
    }
    assert IsWord(60, 0xA43FCF15) by {
      Next(60, 0x9FE3095E, 0xC21462BC, 0x840ABF27, 0x0C4763F2, 0xE5A364CF, 0xF040A398, 0xA43FCF15);
    }
    assert IsWord(61, 0x668B2FF8) by {
      Next(61, 0x78BC8D4B, 0x1487472C, 0x7A290D5D, 0x840ABF27, 0xD712FC6A, 0xF6E62D3B, 0x668B2FF8);
    }
    assert IsWord(62, 0xEEABA2CC) by {
      Next(62, 0xA43FCF15, 0xB20F7A99, 0x065C43DA, 0x7A290D5D, 0x1E41696B, 0xA431B16B, 0xEEABA2CC);
    }
    assert IsWord(63, 0x12B1EDEB) by {
      Next(63, 0x668B2FF8, 0xEF57B9CD, 0xFB3E89CB, 0x065C43DA, 0xF21A9D5F, 0x2AE352E5, 0x12B1EDEB);
    }
  }

  // ---- the rounds ------------------------------------------------------------------------------------

  datatype Eight = Eight(a: bv32, b: bv32, c: bv32, d: bv32, e: bv32, f: bv32, g: bv32, h: bv32)
  {
    function Numbers(): Regs {
      Regs(Num(a), Num(b), Num(c), Num(d), Num(e), Num(f), Num(g), Num(h))
    }
  }

  /** The registers after t rounds. */
  ghost predicate After(t: nat, r: Eight) {
    |BLOCK| == BlockSize(SHA_256) && Rounds(SHA_256, BLOCK, SHA_256.initial, t) == r.Numbers()
  }

  /** One round: k and w are its constant and its word, s and c belong to the first sum, u and m to the
      second one, and x and y are the new registers. */
  lemma Step(t: nat, r: Eight, k: nat, w: nat, s: bv32, c: bv32, u: bv32, m: bv32, x: bv32, y: bv32) returns (r': Eight)
    requires t < 64 && After(t, r) && Constant(t) == k && IsWord(t, w)
    requires BigSigma1(r.e) == s && Ch(r.e, r.f, r.g) == c && BigSigma0(r.a) == u && Maj(r.a, r.b, r.c) == m
    requires var t1 := (Num(r.h) + Num(s) + Num(c) + k + w) % 0x1_0000_0000;
             && Num(x) == (t1 + (Num(u) + Num(m)) % 0x1_0000_0000) % 0x1_0000_0000
             && Num(y) == (Num(r.d) + t1) % 0x1_0000_0000
    ensures r' == Eight(x, r.a, r.b, r.c, y, r.e, r.f, r.g) && After(t + 1, r')
  {
    hide Ch, Maj, BigSigma0, BigSigma1, Bits, Constant, Round, Schedule, Rounds, Num;
    r' := Eight(x, r.a, r.b, r.c, y, r.e, r.f, r.g);
    RoundOf(t, r, k, w, Num(s), Num(c), Num(u), Num(m));
    WordFound(t, w);
    Sha2.NextRound(SHA_256, BLOCK, SHA_256.initial, t);
  }

  lemma RoundOf(t: nat, r: Eight, k: nat, w: nat, s: nat, c: nat, u: nat, m: nat)
    requires Constant(t) == k && Num(BigSigma1(r.e)) == s && Num(Ch(r.e, r.f, r.g)) == c
    requires Num(BigSigma0(r.a)) == u && Num(Maj(r.a, r.b, r.c)) == m
    ensures var n := r.Numbers();
            var t1, t2 := (n.h + s + c + k + w) % 0x1_0000_0000, (u + m) % 0x1_0000_0000;
            Round(SHA_256, n, t, w)
            == Regs((t1 + t2) % 0x1_0000_0000, n.a, n.b, n.c, (n.d + t1) % 0x1_0000_0000, n.e, n.f, n.g)
  {
    hide Ch, Maj, BigSigma0, BigSigma1, Constant, Cut, Temp1, Temp2, SHA_256, Round, Num;
    SecondSum(r, u, m);
    FirstSum(t, r, k, w, s, c);
    var t1, t2 := (r.Numbers().h + s + c + k + w) % 0x1_0000_0000, (u + m) % 0x1_0000_0000;
    CutIs(t1 + t2);
    CutIs(r.Numbers().d + t1);
    RoundFrom(r.Numbers(), t, w, t1, t2);
  }

  lemma RoundFrom(r: Regs, t: nat, w: nat, t1: nat, t2: nat)
    requires Temp1(SHA_256, r, t, w) == t1 && Temp2(SHA_256, r) == t2
    ensures Round(SHA_256, r, t, w)
            == Regs(Cut(SHA_256, t1 + t2), r.a, r.b, r.c, Cut(SHA_256, r.d + t1), r.e, r.f, r.g)
  {
    hide Temp1, Temp2, Cut;
  }

  lemma CutIs(x: nat)
    ensures Cut(SHA_256, x) == x % 0x1_0000_0000
  {
  }

  lemma FirstSum(t: nat, r: Eight, k: nat, w: nat, s: nat, c: nat)
    requires Constant(t) == k && Num(BigSigma1(r.e)) == s && Num(Ch(r.e, r.f, r.g)) == c
    ensures Temp1(SHA_256, r.Numbers(), t, w) == (r.Numbers().h + s + c + k + w) % 0x1_0000_0000
  {
    hide Ch, BigSigma1, Bits, Constant, Cut, Num;
    BitsOf(r.e);
    BitsOf(r.f);
    BitsOf(r.g);
    CutIs(r.Numbers().h + s + c + k + w);
  }

  lemma SecondSum(r: Eight, u: nat, m: nat)
    requires Num(BigSigma0(r.a)) == u && Num(Maj(r.a, r.b, r.c)) == m
    ensures Temp2(SHA_256, r.Numbers()) == (u + m) % 0x1_0000_0000
  {
    hide Maj, BigSigma0, Bits, Cut, Num;
    BitsOf(r.a);
    BitsOf(r.b);
    BitsOf(r.c);
    CutIs(u + m);
  }

  lemma Rounds4()
    ensures After(4, Eight(0xD550F666, 0xC8C347A7, 0x5A6AD9AD, 0x5D6AEBCD,
                    0x24E00850, 0xF92939EB, 0x78CE7989, 0xFA2A4622))
  {
    hide After, IsWord, Constant;
    Begin();
    Words0();
    Constants0();
    var r := Eight(0x6A09E667, 0xBB67AE85, 0x3C6EF372, 0xA54FF53A,
                   0x510E527F, 0x9B05688C, 0x1F83D9AB, 0x5BE0CD19);
    r := Step(0, r, 0x428A2F98, 0x61626380, 0x3587272B, 0x1F85C98C, 0xCE20B47E, 0x3A6FE667,
              0x5D6AEBCD, 0xFA2A4622);
    r := Step(1, r, 0x71374491, 0x00000000, 0x5A94FD2D, 0x510F6AAE, 0xA29F64D1, 0x7B6BEEC5,
              0x5A6AD9AD, 0x78CE7989);
    r := Step(2, r, 0xB5C0FBCF, 0x00000000, 0x73F0E495, 0x790A4276, 0x3096D054, 0x5A6AEBED,
              0xC8C347A7, 0xF92939EB);
    r := Step(3, r, 0xE9B5DBA5, 0x00000000, 0x0607743C, 0x7A0A7F89, 0xC21008D0, 0x586ACBAD,
              0xD550F666, 0x24E00850);
  }

  lemma Constants0()
    ensures Constant(0) == 0x428A2F98 && Constant(1) == 0x71374491
    ensures Constant(2) == 0xB5C0FBCF && Constant(3) == 0xE9B5DBA5
    ensures Constant(4) == 0x3956C25B && Constant(5) == 0x59F111F1
    ensures Constant(6) == 0x923F82A4 && Constant(7) == 0xAB1C5ED5
  {
  }

  lemma Rounds8()
    ensures After(8, Eight(0x85A07B5F, 0xE5030380, 0x2B4209F5, 0x04409A6A,
                    0x0C657A79, 0x9B27A401, 0x714260AD, 0x43ADA245))
  {
    hide After, IsWord, Constant;
    Rounds4();
    Words0();
    Constants0();
    var r := Eight(0xD550F666, 0xC8C347A7, 0x5A6AD9AD, 0x5D6AEBCD,
                   0x24E00850, 0xF92939EB, 0x78CE7989, 0xFA2A4622);
    r := Step(4, r, 0x3956C25B, 0x00000000, 0x3A933432, 0x782E79C9, 0x45BB0C4B, 0xD842D7A7,
              0x04409A6A, 0x43ADA245);
    r := Step(5, r, 0x59F111F1, 0x00000000, 0x8B77E19C, 0xB8A019EA, 0x5029AC8F, 0xC440D666,
              0x2B4209F5, 0x714260AD);
    r := Step(6, r, 0x923F82A4, 0x00000000, 0x015B7776, 0x45A02855, 0x0D5E0CC0, 0x05409A66,
              0xE5030380, 0x9B27A401);
    r := Step(7, r, 0xAB1C5ED5, 0x00000000, 0x158DFAA9, 0x518A2245, 0x2949EB6C, 0x25420BE0,
              0x85A07B5F, 0x0C657A79);
  }

  lemma Rounds12()
    ensures After(12, Eight(0xF71FC5A9, 0x4798A3F4, 0x8C87346B, 0x8E04ECB9,
                    0x816FD6E9, 0x436B23E8, 0x1CC92596, 0x32CA2D8C))
  {
    hide After, IsWord, Constant;
    Rounds8();
    Words8();
    Constants8();
    var r := Eight(0x85A07B5F, 0xE5030380, 0x2B4209F5, 0x04409A6A,
                   0x0C657A79, 0x9B27A401, 0x714260AD, 0x43ADA245);
    r := Step(8, r, 0xD807AA98, 0x00000000, 0x99AD25C0, 0x79272085, 0xBA794DC2, 0xA5020BD5,
              0x8E04ECB9, 0x32CA2D8C);
    r := Step(9, r, 0x12835B01, 0x00000000, 0xE45BB7EA, 0x8965A809, 0x15FFAD31, 0x85006B99,
              0x8C87346B, 0x1CC92596);
    r := Step(10, r, 0x243185BE, 0x00000000, 0x8E2276BC, 0x10EC7FED, 0x5CAC0711, 0x8C847C7B,
              0x4798A3F4, 0x436B23E8);
    r := Step(11, r, 0x550C7DC3, 0x00000000, 0x699435CA, 0x30C92D84, 0x6CCBC526, 0x8E84A4F9,
              0xF71FC5A9, 0x816FD6E9);
  }

  lemma Constants8()
    ensures Constant(8) == 0xD807AA98 && Constant(9) == 0x12835B01
    ensures Constant(10) == 0x243185BE && Constant(11) == 0x550C7DC3
    ensures Constant(12) == 0x72BE5D74 && Constant(13) == 0x80DEB1FE
    ensures Constant(14) == 0x9BDC06A7 && Constant(15) == 0xC19BF174
  {
  }

  lemma Rounds16()
    ensures After(16, Eight(0xB0FA238E, 0xC0645FDE, 0xD932EB16, 0x87912990,
                    0x07590DCD, 0x0B92F20C, 0x745A48DE, 0x1E578218))
  {
    hide After, IsWord, Constant;
    Rounds12();
    Words8();
    Constants8();
    var r := Eight(0xF71FC5A9, 0x4798A3F4, 0x8C87346B, 0x8E04ECB9,
                   0x816FD6E9, 0x436B23E8, 0x1CC92596, 0x32CA2D8C);
    r := Step(12, r, 0x72BE5D74, 0x00000000, 0xCCDEE661, 0x1DEB23FE, 0x2F9EEE48, 0xC79FA5E9,
              0x87912990, 0x1E578218);
    r := Step(13, r, 0x80DEB1FE, 0x00000000, 0x08BB98F7, 0x416FA3E8, 0x29C634F3, 0xC799A1B0,
              0xD932EB16, 0x745A48DE);
    r := Step(14, r, 0x9BDC06A7, 0x00000000, 0x4F3B8D50, 0x95779639, 0x25562836, 0xD713E990,
              0xC0645FDE, 0x0B92F20C);
    r := Step(15, r, 0xC19BF174, 0x00000018, 0xB8D63F93, 0x1457401C, 0xDF906FD4, 0xC1306B96,
              0xB0FA238E, 0x07590DCD);
  }

  lemma Rounds20()
    ensures After(20, Eight(0xE1F20C33, 0xFE777BBF, 0xC2FBD9D1, 0x21DA9A9B,
                    0xB0638179, 0xCC899961, 0x846EE454, 0x8034229C))
  {
    hide After, IsWord, Constant;
    Rounds16();
    Words16();
    Constants16();
    var r := Eight(0xB0FA238E, 0xC0645FDE, 0xD932EB16, 0x87912990,
                   0x07590DCD, 0x0B92F20C, 0x745A48DE, 0x1E578218);
    r := Step(16, r, 0xE49B69C1, 0x61626380, 0x213B6995, 0x7312401E, 0x58C535F1, 0xD0726B9E,
              0x21DA9A9B, 0x8034229C);
    r := Step(17, r, 0xEFBE4786, 0x000F0000, 0x3B81984E, 0x0B92D08C, 0x76C5C4F5, 0xA0FA1B9E,
              0xC2FBD9D1, 0x846EE454);
    r := Step(18, r, 0x0FC19DC6, 0x7DA86405, 0xEFF31C0F, 0x8335299D, 0x5157A6A1, 0xA0FA9B9B,
              0xFE777BBF, 0xCC899961);
    r := Step(19, r, 0x240CA1CC, 0x600003C6, 0xEFC707B0, 0x843CA2DC, 0xFF8CD2AD, 0xE2FBDB9B,
              0xE1F20C33, 0xB0638179);
  }

  lemma Constants16()
    ensures Constant(16) == 0xE49B69C1 && Constant(17) == 0xEFBE4786
    ensures Constant(18) == 0x0FC19DC6 && Constant(19) == 0x240CA1CC
    ensures Constant(20) == 0x2DE92C6F && Constant(21) == 0x4A7484AA
    ensures Constant(22) == 0x5CB0A9DC && Constant(23) == 0x76F988DA
  {
  }

  lemma Rounds24()
    ensures After(24, Eight(0xC5D53D8D, 0xA7A3623F, 0xC2606D6D, 0x9DC68B63,
                    0xAA47C347, 0x49F5114A, 0xE1257970, 0x8ADA8930))
  {
    hide After, IsWord, Constant;
    Rounds20();
    Words16();
    Constants16();
    var r := Eight(0xE1F20C33, 0xFE777BBF, 0xC2FBD9D1, 0x21DA9A9B,
                   0xB0638179, 0xCC899961, 0x846EE454, 0x8034229C);
    r := Step(20, r, 0x2DE92C6F, 0x3E9D7B78, 0xF8373EAD, 0x840DE565, 0x51D3431B, 0xE2F359B3,
              0x9DC68B63, 0x8ADA8930);
    r := Step(21, r, 0x4A7484AA, 0x0183FC00, 0x897EA930, 0xC4439171, 0xA640C29B, 0xFDF60B33,
              0xC2606D6D, 0xE1257970);
    r := Step(22, r, 0x5CB0A9DC, 0x12DCBFDB, 0x7F24093A, 0x90428939, 0x9A43BF51, 0xC1E20D63,
              0xA7A3623F, 0x49F5114A);
    r := Step(23, r, 0x76F988DA, 0xE2E2C38E, 0xFAE64FC3, 0xC32F9970, 0x759D1B0A, 0x87E26B6F,
              0xC5D53D8D, 0xAA47C347);
  }

  lemma Rounds28()
    ensures After(28, Eight(0x77D37528, 0xB62EC4BC, 0xCDE8037D, 0x1C2C2838,
                    0xEDFFBFF8, 0xC74C6516, 0x14383D8E, 0x2823EF91))
  {
    hide After, IsWord, Constant;
    Rounds24();
    Words24();
    Constants24();
    var r := Eight(0xC5D53D8D, 0xA7A3623F, 0xC2606D6D, 0x9DC68B63,
                   0xAA47C347, 0x49F5114A, 0xE1257970, 0x8ADA8930);
    r := Step(24, r, 0x983E5152, 0xC8215C1A, 0x55BDF420, 0x49653972, 0xC9ED56DD, 0xC7E16D2D,
              0x1C2C2838, 0x2823EF91);
    r := Step(25, r, 0xA831C66D, 0xB73679A2, 0xA7724357, 0x69D7D34B, 0xF66B0B1F, 0x85A5283D,
              0xCDE8037D, 0x14383D8E);
    r := Step(26, r, 0xB00327C8, 0xE5BC3909, 0x958CA0FB, 0xAA67EFC1, 0xC89998A8, 0xCDEC293D,
              0xB62EC4BC, 0xC74C6516);
    r := Step(27, r, 0xBF597FC7, 0x32663C5B, 0x5FF7537B, 0x2C2BAF87, 0xB37CF281, 0x9C2C003C,
              0x77D37528, 0xEDFFBFF8);
  }

  lemma Constants24()
    ensures Constant(24) == 0x983E5152 && Constant(25) == 0xA831C66D
    ensures Constant(26) == 0xB00327C8 && Constant(27) == 0xBF597FC7
    ensures Constant(28) == 0xC6E00BF3 && Constant(29) == 0xD5A79147
    ensures Constant(30) == 0x06CA6351 && Constant(31) == 0x14292967
  {
  }

  lemma Rounds32()
    ensures After(32, Eight(0x73B33BF5, 0xEA992A22, 0xA0060B30, 0x363482C9,
                    0xBA591112, 0x0109AB3A, 0xADE79437, 0x6112A3B7))
  {
    hide After, IsWord, Constant;
    Rounds28();
    Words24();
    Constants24();
    var r := Eight(0x77D37528, 0xB62EC4BC, 0xCDE8037D, 0x1C2C2838,
                   0xEDFFBFF8, 0xC74C6516, 0x14383D8E, 0x2823EF91);
    r := Step(28, r, 0xC6E00BF3, 0x9D209D67, 0xE375BD7E, 0xD54C2516, 0xF963C20E, 0xF7EA453C,
              0x363482C9, 0x6112A3B7);
    r := Step(29, r, 0xD5A79147, 0xEC8726CB, 0x2239B36A, 0xE75EE7B0, 0x89CFB5CE, 0x3636C4A8,
              0xA0060B30, 0xADE79437);
    r := Step(30, r, 0x06CA6351, 0x702138A4, 0xAB883974, 0x611AABFF, 0x69A8407C, 0x36160328,
              0xEA992A22, 0x0109AB3A);
    r := Step(31, r, 0x14292967, 0xD3B7973B, 0x0B919A99, 0x611380B7, 0x8F1995EB, 0xA2140A20,
              0x73B33BF5, 0xBA591112);
  }

  lemma Rounds36()
    ensures After(36, Eight(0x65A0CFE4, 0xA9A7738C, 0xFE604DF5, 0x98E12507,
                    0xF4B002D6, 0x085F3833, 0x59249DD3, 0x9CD9F5F6))
  {
    hide After, IsWord, Constant;
    Rounds32();
    Words32();
    Constants32();
    var r := Eight(0x73B33BF5, 0xEA992A22, 0xA0060B30, 0x363482C9,
                   0xBA591112, 0x0109AB3A, 0xADE79437, 0x6112A3B7);
    r := Step(32, r, 0x27B70A85, 0x93F5997F, 0x4436A63B, 0x05AF8537, 0x4FA886AA, 0xE2932B30,
              0x98E12507, 0x9CD9F5F6);
    r := Step(33, r, 0x2E1B2138, 0x3B68BA73, 0x085A07A7, 0x99591B1A, 0x4A90902B, 0xFAB12B27,
              0xFE604DF5, 0x59249DD3);
    r := Step(34, r, 0x4D2C6DFC, 0xAFF4FFC1, 0x65415F48, 0xBA5995D2, 0x91003786, 0xFAE12DF5,
              0xA9A7738C, 0x085F3833);
    r := Step(35, r, 0x53380D13, 0xF10A5C62, 0xE5DC6E83, 0x9C84DDD7, 0x2BC2A37E, 0xB8E16585,
              0x65A0CFE4, 0xF4B002D6);
  }

  lemma Constants32()
    ensures Constant(32) == 0x27B70A85 && Constant(33) == 0x2E1B2138
    ensures Constant(34) == 0x4D2C6DFC && Constant(35) == 0x53380D13
    ensures Constant(36) == 0x650A7354 && Constant(37) == 0x766A0ABB
    ensures Constant(38) == 0x81C2C92E && Constant(39) == 0x92722C85
  {
  }

  lemma Rounds40()
    ensures After(40, Eight(0x79EA687A, 0x6DC57A8A, 0x34DF1604, 0x41A65CB1,
                    0x1EFBC0A0, 0xF0781BC8, 0xA507A53D, 0x0772A26B))
  {
    hide After, IsWord, Constant;
    Rounds36();
    Words32();
    Constants32();
    var r := Eight(0x65A0CFE4, 0xA9A7738C, 0xFE604DF5, 0x98E12507,
                   0xF4B002D6, 0x085F3833, 0x59249DD3, 0x9CD9F5F6);
    r := Step(36, r, 0x650A7354, 0x0A8B3996, 0x590D3D71, 0x09149D13, 0xE5748F69, 0xEDA04FE4,
              0x41A65CB1, 0x0772A26B);
    r := Step(37, r, 0x766A0ABB, 0x72AF830A, 0x582C115E, 0x0C3D1A52, 0x2C915F18, 0x61A65FA4,
              0x34DF1604, 0xA507A53D);
    r := Step(38, r, 0x81C2C92E, 0x9409E33E, 0xD2F220B2, 0x55B2A2EB, 0xC14E73AA, 0x65A65EA4,
              0x6DC57A8A, 0xF0781BC8);
    r := Step(39, r, 0x92722C85, 0x24641522, 0x66D20B14, 0xA702A12B, 0x5AC8193E, 0x65C75E80,
              0x79EA687A, 0x1EFBC0A0);
  }

  lemma Rounds44()
    ensures After(44, Eight(0x9D4BAF93, 0x17AA0DFE, 0xDF46652F, 0xD6670766,
                    0xFDA24C2E, 0xDECD4715, 0x838B2711, 0x26352D63))
  {
    hide After, IsWord, Constant;
    Rounds40();
    Words40();
    Constants40();
    var r := Eight(0x79EA687A, 0x6DC57A8A, 0x34DF1604, 0x41A65CB1,
                   0x1EFBC0A0, 0xF0781BC8, 0xA507A53D, 0x0772A26B);
    r := Step(40, r, 0xA2BFE8A1, 0x9F47BF94, 0xE9986075, 0xB17C259D, 0x7408BCAA, 0x7DCF7A0A,
              0xD6670766, 0x26352D63);
    r := Step(41, r, 0xA81A664B, 0xF0A64F5A, 0x3A6AA383, 0xD67912A8, 0x12B2E9B8, 0x7DE76A6A,
              0xDF46652F, 0x838B2711);
    r := Step(42, r, 0xC24B8B70, 0x3E246A79, 0x61ADD539, 0x1E71E5A1, 0xC73BDC05, 0xDF66656E,
              0x17AA0DFE, 0xDECD4715);
    r := Step(43, r, 0xC76C51A3, 0x27333BA3, 0xD363665B, 0xA2B92F73, 0x422DC671, 0xD766056E,
              0x9D4BAF93, 0xFDA24C2E);
  }

  lemma Constants40()
    ensures Constant(40) == 0xA2BFE8A1 && Constant(41) == 0xA81A664B
    ensures Constant(42) == 0xC24B8B70 && Constant(43) == 0xC76C51A3
    ensures Constant(44) == 0xD192E819 && Constant(45) == 0xD6990624
    ensures Constant(46) == 0xF40E3585 && Constant(47) == 0x106AA070
  {
  }

  lemma Rounds48()
    ensures After(48, Eight(0x4172328D, 0xA14C14B0, 0x72AB4B91, 0x26628815,
                    0xFECF0BC6, 0xD57B94A9, 0xB7755DA1, 0xA80F11F0))
  {
    hide After, IsWord, Constant;
    Rounds44();
    Words40();
    Constants40();
    var r := Eight(0x9D4BAF93, 0x17AA0DFE, 0xDF46652F, 0xD6670766,
                   0xFDA24C2E, 0xDECD4715, 0x838B2711, 0x26352D63);
    r := Step(44, r, 0xD192E819, 0x0C4763F2, 0xEF0F2A07, 0xDE896715, 0xB5704FCC, 0x9F4A2DBF,
              0x26628815, 0xA80F11F0);
    r := Step(45, r, 0xD6990624, 0x840ABF27, 0xFB3DC5F1, 0xFEC24625, 0x8311C588, 0x176A8D97,
              0x72AB4B91, 0xB7755DA1);
    r := Step(46, r, 0xF40E3585, 0x7A290D5D, 0x8845EB06, 0xE88711AE, 0xAD0F0274, 0x366B8B91,
              0xA14C14B0, 0xD57B94A9);
    r := Step(47, r, 0x106AA070, 0x065C43DA, 0x8FA515CA, 0xBD7515F1, 0xBD84CDC9, 0x226A0891,
              0x4172328D, 0xFECF0BC6);
  }

  lemma Rounds52()
    ensures After(52, Eight(0x886E7A22, 0x7A0508A1, 0xF11BFAA8, 0x05757CEB,
                    0x49231C1E, 0x52F1CCF7, 0x6E5C390C, 0xBD714038))
  {
    hide After, IsWord, Constant;
    Rounds48();
    Words48();
    Constants48();
    var r := Eight(0x4172328D, 0xA14C14B0, 0x72AB4B91, 0x26628815,
                   0xFECF0BC6, 0xD57B94A9, 0xB7755DA1, 0xA80F11F0);
    r := Step(48, r, 0x19A4C116, 0xFB3E89CB, 0x04A106B1, 0xD57B54A1, 0x0CFCB237, 0x616A1291,
              0x05757CEB, 0xBD714038);
    r := Step(49, r, 0x1E376C08, 0xCC7617DB, 0x5D427776, 0xFC4B9481, 0xF3F6D884, 0x017434A9,
              0xF11BFAA8, 0x6E5C390C);
    r := Step(50, r, 0x2748774C, 0xB9E66C34, 0x3E283D54, 0xBCD302CA, 0x86EBD5B1, 0x41737AA9,
              0x7A0508A1, 0x52F1CCF7);
    r := Step(51, r, 0x34B0BCB5, 0xA9993667, 0x3B47E2A3, 0xEF50080C, 0x0FA817E8, 0x711578A9,
              0x886E7A22, 0x49231C1E);
  }

  lemma Constants48()
    ensures Constant(48) == 0x19A4C116 && Constant(49) == 0x1E376C08
    ensures Constant(50) == 0x2748774C && Constant(51) == 0x34B0BCB5
    ensures Constant(52) == 0x391C0CB3 && Constant(53) == 0x4ED8AA4A
    ensures Constant(54) == 0x5B9CCA4F && Constant(55) == 0x682E6FF3
  {
  }

  lemma Rounds56()
    ensures After(56, Eight(0x38CC9913, 0x3EC45CDB, 0xF5702FDB, 0x101FD28F,
                    0x54CB266B, 0xE50E1B4F, 0x9F4787C3, 0x529E7D00))
  {
    hide After, IsWord, Constant;
    Rounds52();
    Words48();
    Constants48();
    var r := Eight(0x886E7A22, 0x7A0508A1, 0xF11BFAA8, 0x05757CEB,
                   0x49231C1E, 0x52F1CCF7, 0x6E5C390C, 0xBD714038);
    r := Step(52, r, 0x391C0CB3, 0x84BADEDD, 0x6B63A737, 0x667D2D16, 0xCAE757DA, 0xF80F7AA0,
              0x101FD28F, 0x529E7D00);
    r := Step(53, r, 0x4ED8AA4A, 0xC21462BC, 0xEE7EAA12, 0x40639CF7, 0x2F35481D, 0x180F5AA3,
              0xF5702FDB, 0x9F4787C3);
    r := Step(54, r, 0x5B9CCA4F, 0x1487472C, 0x55CD1720, 0x52261D1C, 0x433CCFA2, 0x907E7A8B,
              0x3EC45CDB, 0xE50E1B4F);
    r := Step(55, r, 0x682E6FF3, 0xB20F7A99, 0xD1653E5C, 0x97966743, 0x381B8DEF, 0x34545EDB,
              0x38CC9913, 0x54CB266B);
  }

  lemma Rounds60()
    ensures After(60, Eight(0xB6AE8FFF, 0xFFB70472, 0xC062D46F, 0xFCD1887B,
                    0xB21BAD3D, 0x6D83BFC6, 0x7E44008E, 0x9B5E906C))
  {
    hide After, IsWord, Constant;
    Rounds56();
    Words56();
    Constants56();
    var r := Eight(0x38CC9913, 0x3EC45CDB, 0xF5702FDB, 0x101FD28F,
                   0x54CB266B, 0xE50E1B4F, 0x9F4787C3, 0x529E7D00);
    r := Step(56, r, 0x748F82EE, 0xEF57B9CD, 0x05AA8057, 0xCF0E83CB, 0x34CEACC3, 0x3CC41DDB,
              0xFCD1887B, 0x9B5E906C);
    r := Step(57, r, 0x78A5636F, 0xEBE6B238, 0x10B627DE, 0x744A0B6B, 0xFACA6B61, 0x3CC4985B,
              0xC062D46F, 0x7E44008E);
    r := Step(58, r, 0x84C87814, 0x9FE3095E, 0x0A369FBD, 0x1ACF266D, 0xD837090C, 0xF8C0987B,
              0xFFB70472, 0x6D83BFC6);
    r := Step(59, r, 0x8CC70208, 0x78BC8D4B, 0x20A45DBE, 0xFE5C00AE, 0x406BF75A, 0xFCF3847B,
              0xB6AE8FFF, 0xB21BAD3D);
  }

  lemma Constants56()
    ensures Constant(56) == 0x748F82EE && Constant(57) == 0x78A5636F
    ensures Constant(58) == 0x84C87814 && Constant(59) == 0x8CC70208
    ensures Constant(60) == 0x90BEFFFA && Constant(61) == 0xA4506CEB
    ensures Constant(62) == 0xBEF9A3F7 && Constant(63) == 0xC67178F2
  {
  }

  lemma Rounds64()
    ensures After(64, Eight(0x506E3058, 0xD39A2165, 0x04D24D6C, 0xB85E2CE9,
                    0x5EF50F24, 0xFB121210, 0x948D25B6, 0x961F4894))
  {
    hide After, IsWord, Constant;
    Rounds60();
    Words56();
    Constants56();
    var r := Eight(0xB6AE8FFF, 0xFFB70472, 0xC062D46F, 0xFCD1887B,
                   0xB21BAD3D, 0x6D83BFC6, 0x7E44008E, 0x9B5E906C);
    r := Step(60, r, 0x90BEFFFA, 0xA43FCF15, 0x5CA8B318, 0x6C47AD86, 0x2869E851, 0xF6A6847F,
              0xB85E2CE9, 0x961F4894);
    r := Step(61, r, 0xA4506CEB, 0x668B2FF8, 0x4F6EF480, 0xFB9BBF56, 0x71E9EF2A, 0xBEBE0CFB,
              0x04D24D6C, 0x948D25B6);
    r := Step(62, r, 0xBEF9A3F7, 0xEEABA2CC, 0x2A127E78, 0xB61F889D, 0x236105DA, 0xB4DE0DED,
              0xD39A2165, 0xFB121210);
    r := Step(63, r, 0xC67178F2, 0x12B1EDEB, 0x88FA2277, 0x940D4894, 0x174D83C6, 0x90DA2D6D,
              0x506E3058, 0x5EF50F24);
  }

  lemma Begin()
    ensures After(0, Eight(0x6A09E667, 0xBB67AE85, 0x3C6EF372, 0xA54FF53A,
                    0x510E527F, 0x9B05688C, 0x1F83D9AB, 0x5BE0CD19))
  {
    Block();
  }

  // ---- the digest ------------------------------------------------------------------------------------

  lemma Compressed()
    ensures |BLOCK| == BlockSize(SHA_256)
    ensures Compress(SHA_256, SHA_256.initial, BLOCK)
            == Regs(0xBA7816BF, 0x8F01CFEA, 0x414140DE, 0x5DAE2223,
                    0xB00361A3, 0x96177A9C, 0xB410FF61, 0xF20015AD)
  {
    hide Rounds;
    Block();
    Rounds64();
  }

  lemma FourBytes(w: nat, a: Byte, b: Byte, c: Byte, d: Byte)
    requires w == 0x100_0000 * a + 0x1_0000 * b + 0x100 * c + d
    ensures BeBytes(w, 4) == [a, b, c, d]
  {
    assert w / 256 == 0x1_0000 * a + 0x100 * b + c && w / 256 / 256 == 0x100 * a + b;
    assert BeBytes(w / 256 / 256 / 256, 1) == [a];
  }

  /** The digest of "abc". */
  lemma AbcDigest()
    ensures Proper(SHA_256)
    ensures Digest(SHA_256, MESSAGE)
            == [0xBA, 0x78, 0x16, 0xBF, 0x8F, 0x01, 0xCF, 0xEA,
                0x41, 0x41, 0x40, 0xDE, 0x5D, 0xAE, 0x22, 0x23,
                0xB0, 0x03, 0x61, 0xA3, 0x96, 0x17, 0x7A, 0x9C,
                0xB4, 0x10, 0xFF, 0x61, 0xF2, 0x00, 0x15, 0xAD]
  {
    hide Padding, Compress, BeBytes;
    Block();
    Compressed();
    OneBlock(SHA_256, SHA_256.initial, BLOCK);
    FourBytes(0xBA7816BF, 0xBA, 0x78, 0x16, 0xBF);
    FourBytes(0x8F01CFEA, 0x8F, 0x01, 0xCF, 0xEA);
    FourBytes(0x414140DE, 0x41, 0x41, 0x40, 0xDE);
    FourBytes(0x5DAE2223, 0x5D, 0xAE, 0x22, 0x23);
    FourBytes(0xB00361A3, 0xB0, 0x03, 0x61, 0xA3);
    FourBytes(0x96177A9C, 0x96, 0x17, 0x7A, 0x9C);
    FourBytes(0xB410FF61, 0xB4, 0x10, 0xFF, 0x61);
    FourBytes(0xF20015AD, 0xF2, 0x00, 0x15, 0xAD);
  }
}
