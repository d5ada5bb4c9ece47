/** SHA-256 and SHA-512 as sections 5 and 6 of FIPS 180-4 define them, over any logical functions
    and constants. */
module Sha2Spec {
  import opened Common
  import opened Bignum

  /** The word size in bytes, the rounds, and the six logical functions with the constants. */
  datatype Algorithm = Algorithm(
    wordBytes: nat,
    rounds: nat,
    initial: Regs,
    k: nat -> nat,
    ch: (nat, nat, nat) -> nat,
    maj: (nat, nat, nat) -> nat,
    bigSigma0: nat -> nat,
    bigSigma1: nat -> nat,
    smallSigma0: nat -> nat,
    smallSigma1: nat -> nat)

  datatype Regs = Regs(a: nat, b: nat, c: nat, d: nat, e: nat, f: nat, g: nat, h: nat)

  /** SHA-256 has 4-byte words and 64 rounds, SHA-512 8-byte words and 80. */
  predicate Proper(alg: Algorithm) {
    (alg.wordBytes == 4 && alg.rounds == 64) || (alg.wordBytes == 8 && alg.rounds == 80)
  }

  function Modulus(alg: Algorithm): (m: nat)
    ensures m > 0
  {
    if alg.wordBytes == 4 then U32 else U64
  }

  /** A sum, cut to the word size. */
  function Cut(alg: Algorithm, x: nat): (w: nat)
    ensures w < Modulus(alg)
  {
    x % Modulus(alg)
  }

  function BlockSize(alg: Algorithm): (n: nat)
    ensures alg.wordBytes > 0 ==> n > 0
  {
    16 * alg.wordBytes
  }

  function LengthSize(alg: Algorithm): nat { 2 * alg.wordBytes }

  // ---- words -----------------------------------------------------------------------------------

  function Be(s: Bytes): nat {
    if s == [] then 0 else 256 * Be(s[..|s| - 1]) + s[|s| - 1]
  }

  function BeBytes(w: nat, n: nat): (s: Bytes)
    ensures |s| == n
    decreases n
  {
    if n == 0 then [] else BeBytes(w / 256, n - 1) + [w % 256]
  }

  // ---- the compression function --------------------------------------------------------------------

  /** Where word t of a block starts. */
  function WordStart(alg: Algorithm, t: nat): (p: nat)
    requires t < 16
    ensures p + alg.wordBytes <= BlockSize(alg)
  {
    WordsFit(alg.wordBytes, t, 16);
    t * alg.wordBytes
  }

  lemma WordsFit(n: nat, i: nat, j: nat)
    requires i < j
    ensures i * n + n <= j * n && (i + 1) * n == i * n + n
  {
    ScaleUp(i + 1, j, n);
  }

  lemma WordOrder(alg: Algorithm, i: nat, j: nat)
    requires i < j < 16
    ensures WordStart(alg, i) + alg.wordBytes <= WordStart(alg, j)
    ensures j == i + 1 ==> WordStart(alg, i) + alg.wordBytes == WordStart(alg, j)
  {
    WordsFit(alg.wordBytes, i, j);
  }

  function WordAt(alg: Algorithm, block: Bytes, t: nat): nat
    requires |block| == BlockSize(alg) && t < 16
  {
    Be(block[WordStart(alg, t)..WordStart(alg, t) + alg.wordBytes])
  }

  /** The message schedule. */
  function Schedule(alg: Algorithm, block: Bytes, t: nat): nat
    requires |block| == BlockSize(alg)
  {
    if t < 16 then WordAt(alg, block, t)
    else
      Cut(alg, Schedule(alg, block, t - 16)
               + (alg.smallSigma1(Schedule(alg, block, t - 2)) + Schedule(alg, block, t - 7)
                  + alg.smallSigma0(Schedule(alg, block, t - 15))))
  }

  function Temp1(alg: Algorithm, r: Regs, t: nat, w: nat): nat {
    Cut(alg, r.h + alg.bigSigma1(r.e) + alg.ch(r.e, r.f, r.g) + alg.k(t) + w)
  }

  function Temp2(alg: Algorithm, r: Regs): nat { Cut(alg, alg.bigSigma0(r.a) + alg.maj(r.a, r.b, r.c)) }

  function Round(alg: Algorithm, r: Regs, t: nat, w: nat): Regs {
    var t1, t2 := Temp1(alg, r, t, w), Temp2(alg, r);
    Regs(Cut(alg, t1 + t2), r.a, r.b, r.c, Cut(alg, r.d + t1), r.e, r.f, r.g)
  }

  /** The registers after the first t rounds. */
  function Rounds(alg: Algorithm, block: Bytes, r: Regs, t: nat): Regs
    requires |block| == BlockSize(alg)
  {
    if t == 0 then r else Round(alg, Rounds(alg, block, r, t - 1), t - 1, Schedule(alg, block, t - 1))
  }

  function Sum(alg: Algorithm, r: Regs, s: Regs): Regs {
    Regs(Cut(alg, r.a + s.a), Cut(alg, r.b + s.b), Cut(alg, r.c + s.c), Cut(alg, r.d + s.d),
         Cut(alg, r.e + s.e), Cut(alg, r.f + s.f), Cut(alg, r.g + s.g), Cut(alg, r.h + s.h))
  }

  function Compress(alg: Algorithm, r: Regs, block: Bytes): Regs
    requires |block| == BlockSize(alg)
  {
    Sum(alg, r, Rounds(alg, block, r, alg.rounds))
  }

  // ---- messages ------------------------------------------------------------------------------------

  /** All whole blocks; what is left behind them does not count. */
  function Blocks(alg: Algorithm, r: Regs, s: Bytes): Regs
    requires alg.wordBytes > 0
    decreases |s|
  {
    if |s| < BlockSize(alg) then r
    else Blocks(alg, Compress(alg, r, s[..BlockSize(alg)]), s[BlockSize(alg)..])
  }

  function Zeros(n: nat): (s: Bytes)
    ensures |s| == n
  {
    seq(n, i => 0)
  }

  /** How many zero bytes complete the last block. */
  function ZeroCount(alg: Algorithm, n: nat): nat
    requires alg.wordBytes > 0
  {
    (BlockSize(alg) - (n + 1 + LengthSize(alg)) % BlockSize(alg)) % BlockSize(alg)
  }

  /** A bit 1, zeros, and the length in bits. */
  function Padding(alg: Algorithm, n: nat): Bytes
    requires alg.wordBytes > 0
  {
    [0x80] + Zeros(ZeroCount(alg, n)) + BeBytes(8 * n, LengthSize(alg))
  }

  /** The padding completes a block with as few bytes as possible: a bit 1, zeros, and the length of the
      message in bits, highest byte first, in twice the word size. */
  lemma PaddingMeans(alg: Algorithm, n: nat)
    requires Proper(alg)
    ensures var p, b, w := Padding(alg, n), 16 * alg.wordBytes, 2 * alg.wordBytes;
            && (n + |p|) % b == 0 && 1 + w <= |p| < 1 + w + b
            && p[0] == 0x80 && (forall i | 1 <= i < |p| - w :: p[i] == 0)
            && Be(p[|p| - w..]) == 8 * n % Pow(256, w)
  {
    hide Be, BeBytes, Pow;
    var p, w := Padding(alg, n), 2 * alg.wordBytes;
    assert p[|p| - w..] == BeBytes(8 * n, w);
    BeOfBytes(8 * n, w);
    Completes(n + 1 + w, 16 * alg.wordBytes);
  }

  lemma Completes(x: nat, b: nat)
    requires b == 64 || b == 128
    ensures (x + (b - x % b) % b) % b == 0
  {
  }

  lemma {:induction false} BeOfBytes(x: nat, n: nat)
    ensures Be(BeBytes(x, n)) == x % Pow(256, n)
  {
    if n > 0 {
      BeOfBytes(x / 256, n - 1);
      ModSplit(x, Pow(256, n - 1));
    }
  }

  function Output(alg: Algorithm, r: Regs): Bytes {
    var n := alg.wordBytes;
    BeBytes(r.a, n) + BeBytes(r.b, n) + BeBytes(r.c, n) + BeBytes(r.d, n)
    + BeBytes(r.e, n) + BeBytes(r.f, n) + BeBytes(r.g, n) + BeBytes(r.h, n)
  }

  function Digest(alg: Algorithm, message: Bytes): Bytes
    requires alg.wordBytes > 0
  {
    Output(alg, Blocks(alg, alg.initial, message + Padding(alg, |message|)))
  }

  // ---- blocks --------------------------------------------------------------------------------------

  /** Whole blocks can be taken in parts. */
  lemma {:induction false} BlocksJoin(alg: Algorithm, r: Regs, a: Bytes, b: Bytes)
    requires alg.wordBytes > 0 && |a| % BlockSize(alg) == 0
    ensures Blocks(alg, r, a + b) == Blocks(alg, Blocks(alg, r, a), b)
    decreases |a|
  {
    hide Compress, Blocks, BlockSize;
    var n := BlockSize(alg);
    if a == [] {
      assert a + b == b;
      NoBlock(alg, r, a);
    } else {
      DropBlock(|a|, n);
      assert (a + b)[..n] == a[..n] && (a + b)[n..] == a[n..] + b;
      FirstBlock(alg, r, a);
      FirstBlock(alg, r, a + b);
      BlocksJoin(alg, Compress(alg, r, a[..n]), a[n..], b);
    }
  }

  lemma FirstBlock(alg: Algorithm, r: Regs, s: Bytes)
    requires alg.wordBytes > 0 && |s| >= BlockSize(alg)
    ensures BlockSize(alg) > 0
    ensures Blocks(alg, r, s) == Blocks(alg, Compress(alg, r, s[..BlockSize(alg)]), s[BlockSize(alg)..])
  {
    hide Compress;
  }

  lemma DropBlock(x: nat, n: nat)
    requires n > 0 && x > 0 && x % n == 0
    ensures x >= n && (x - n) % n == 0
  {
    var q := x / n;
    assert x == n * q && n * (q - 1) == n * q - n;
    QuotientUnique(x - n, n, q - 1);
  }

  lemma MultipleRemainder(q: nat, n: nat)
    requires n > 0
    ensures (n * q) % n == 0
  {
    QuotientUnique(n * q, n, q);
  }

  lemma OneBlock(alg: Algorithm, r: Regs, s: Bytes)
    requires alg.wordBytes > 0 && |s| == BlockSize(alg)
    ensures Blocks(alg, r, s) == Compress(alg, r, s)
  {
    hide Compress;
    var n := BlockSize(alg);
    assert s[..n] == s;
    assert Blocks(alg, Compress(alg, r, s), s[n..]) == Compress(alg, r, s);
  }

  lemma NoBlock(alg: Algorithm, r: Regs, s: Bytes)
    requires alg.wordBytes > 0 && (|s| < BlockSize(alg) || s == [])
    ensures BlockSize(alg) > 0 && Blocks(alg, r, s) == r
  {
  }

  /** The length field only sees the length modulo what it can hold. */
  lemma {:induction false} BeBytesMod(w: nat, n: nat, m: nat)
    requires m > 0 && m % Pow(256, n) == 0
    ensures BeBytes(w % m, n) == BeBytes(w, n)
  {
    if n > 0 {
      var p := Pow(256, n - 1);
      var q := m / Pow(256, n);
      assert m == 256 * (p * q);
      var m' := p * q;
      MultipleRemainder(q, p);
      assert w % m % 256 == w % 256 && w % m / 256 == w / 256 % m' by { ModSplit(w, m'); }
      BeBytesMod(w / 256, n - 1, m');
    }
  }

  lemma ModSplit(w: nat, m: nat)
    requires m > 0
    ensures w % (256 * m) % 256 == w % 256 && w % (256 * m) / 256 == w / 256 % m
  {
    var x, q := w / 256, w / 256 / m;
    assert x == m * q + x % m;
    assert (256 * m) * q == 256 * (m * q);
    assert w == (256 * m) * q + (256 * (x % m) + w % 256);
    QuotientUnique(w, 256 * m, q);
  }

  lemma {:induction false} BeBytesJoin(hi: nat, lo: nat, m: nat, n: nat)
    requires lo < Pow(256, n)
    ensures BeBytes(hi, m) + BeBytes(lo, n) == BeBytes(hi * Pow(256, n) + lo, m + n)
    decreases n
  {
    if n == 0 {
      assert BeBytes(hi, m) + BeBytes(lo, 0) == BeBytes(hi, m);
    } else {
      var w := hi * Pow(256, n) + lo;
      assert hi * Pow(256, n) == 256 * (hi * Pow(256, n - 1));
      BeBytesJoin(hi, lo / 256, m, n - 1);
      assert w / 256 == hi * Pow(256, n - 1) + lo / 256 && w % 256 == lo % 256;
      assert BeBytes(hi, m) + (BeBytes(lo / 256, n - 1) + [lo % 256])
          == (BeBytes(hi, m) + BeBytes(lo / 256, n - 1)) + [lo % 256];
    }
  }
}
