/** The bignum path of dtoa for a fixed number of significant digits (mode 2). */
module Dtoa {
  import opened Bignum
  import opened BigintPool
  import opened BigintArith
  import opened BigintDivide
  import opened DtoaDigits
  import opened Decimals

  /** The number to print after the exponent check: below the divisor, it is scaled up. */
  function Scaled(b: nat, s: nat): nat { if b < s then 10 * b else b }

  /** One more digit: the remainder times ten, divided by `s`. */
  method NextQuorem(pool: Pool, ghost F: set<Bigint>, b0: Bigint, s: Bigint, ghost ds: seq<Digit>, ghost x: nat)
    returns (q: Digit, b: Bigint)
    requires pool.Valid() && pool.Owned(b0) && pool.Owned(s) && b0 != s
    requires b0.Normal() && b0.Value() > 0 && FourZeroBits(s) && Emitted(ds, x, s.Value(), b0.Value())
    requires pool.free <= F && b0 in F && s !in F
    modifies pool`freelist, pool`free, F
    ensures pool.Valid() && pool.Owned(b) && pool.Owned(s) && b != s && Reducible(b)
    ensures Emitted(ds + [q], x, s.Value(), b.Value())
    ensures b.Value() == 0 ==> q != 0
    ensures pool.free <= F && (b in F || fresh(b))
  {
    hide Val, Pow, Dec, Emitted, Pool.Valid;
    NextDigit(ds, x, s.Value(), b0.Value());
    ghost var rem := b0.Value();
    b := MultAdd(pool, b0, 10, 0);
    RemainderFits(ds, x, s.Value(), rem);
    q := Quorem(b, s);
    NonzeroQuotient(10 * rem, s.Value());
  }

  lemma RemainderFits(ds: seq<Digit>, x: nat, s: nat, rem: nat)
    requires Emitted(ds, x, s, rem)
    ensures rem < s && rem * 10 + 0 < 10 * s
  {
  }

  lemma NonzeroQuotient(x: nat, s: nat)
    requires s > 0 && x > 0
    ensures x % s == 0 ==> x / s != 0
  {
  }

  /** The zero test of the loop. */
  lemma ZeroTest(b: Bigint)
    requires Reducible(b)
    ensures b.Valid() && |b.x| > 0
    ensures b.x[0] == 0 && b.wds <= 1 <==> b.Value() == 0
    ensures b.Value() > 0 ==> b.Normal()
  {
    hide Val, Weight;
    NoWords(b.x, []);
    if b.wds >= 1 {
      TopWord(b.x[..b.wds]);
      if b.wds == 1 {
        assert b.x[..1] == [b.x[0]];
        OneWord(b.x[0]);
      }
    }
  }

  /** The digit loop: digits of b / s until the division is exact or ilim digits are out. */
  method Generate(pool: Pool, b0: Bigint, s: Bigint, ilim: nat) returns (ds: seq<Digit>, b: Bigint)
    requires pool.Valid() && pool.Owned(b0) && pool.Owned(s) && b0 != s
    requires b0.Normal() && FourZeroBits(s) && ilim >= 1
    requires s.Value() <= b0.Value() < 10 * s.Value()
    modifies pool`freelist, pool`free, pool.free, b0
    ensures pool.Valid() && pool.Owned(b) && pool.Owned(s) && b != s && Reducible(b)
    ensures Emitted(ds, old(b0.Value()), s.Value(), b.Value())
    ensures 1 <= |ds| <= ilim && ds[0] != 0
    ensures b.Value() == 0 ==> ds[|ds| - 1] != 0
    ensures b.Value() > 0 ==> |ds| == ilim
    ensures b in old(pool.free) || b == b0 || fresh(b)
    ensures forall v | v in pool.free :: v in old(pool.free) || v == b0 || fresh(v)
  {
    hide Val, Pow, Dec, Pool.Valid, Reducible, Emitted;
    ghost var F := pool.free + {b0};
    ghost var x, d := b0.Value(), s.Value();
    b := b0;
    PositiveDivisor(s);
    FirstDigit(x, d);
    var q := Quorem(b, s);
    ds := [q];
    ZeroTest(b);
    while !(b.x[0] == 0 && b.wds <= 1) && |ds| < ilim
      invariant pool.Valid() && pool.Owned(b) && pool.Owned(s) && b != s && Reducible(b) && FourZeroBits(s)
      invariant s.Valid() && s.Value() == d && b.Valid() && |b.x| > 0 && Emitted(ds, x, d, b.Value())
      invariant b.x[0] == 0 && b.wds <= 1 <==> b.Value() == 0
      invariant b.Value() > 0 ==> b.Normal()
      invariant ds[0] != 0 && |ds| <= ilim && (b.Value() == 0 ==> ds[|ds| - 1] != 0)
      invariant (forall v | v in pool.free :: v in F || fresh(v)) && (b in F || fresh(b)) && s !in F
      decreases ilim - |ds|
    {
      q, b := NextQuorem(pool, pool.free + {b}, b, s, ds, x);
      ds := ds + [q];
      ZeroTest(b);
    }
  }

  /** x / s rounded half to even to n digits, when one of them is before the point. */
  ghost function Significant(x: nat, s: nat, n: nat): nat
    requires s > 0 && n >= 1
  {
    RoundHalfEven(x * Pow(10, n - 1), s)
  }

  /** What the printed digits and exponent mean: `out` denotes x / s, scaled to its leading
      digit, rounded half to even to `n` significant digits, and `k` is the decimal
      exponent of that digit. */
  ghost predicate Printed(out: seq<Digit>, k: int, k0: int, x: nat, s: nat, n: nat)
    requires s > 0 && n >= 1
  {
    var k1 := if x < s then k0 - 1 else k0;
    && Clean(out)
    && Denotes(out, k - k1, n, Significant(Scaled(x, s), s, n))
  }

  /** x / s * 10^k0 */
  ghost function Ratio(x: nat, s: nat, k0: int): real
    requires s > 0
  {
    x as real / s as real * Ten(k0)
  }

  /** What is printed is the number rounded half to even to `n` significant digits. */
  lemma PrintedIsNearest(out: seq<Digit>, k: int, k0: int, x: nat, s: nat, n: nat)
    requires s > 0 && n >= 1 && s <= 10 * x && x < 10 * s && Printed(out, k, k0, x, s, n)
    ensures Nearest(n, ValueAt(Dec(out), k + 1 - |out|), Ratio(x, s, k0)) && Clean(out)
  {
    hide Dec, Pow, RoundHalfEven, Clean, Nearest, Times, Ten, Ratio;
    var k1 := if x < s then k0 - 1 else k0;
    var y, f := Scaled(x, s), k1 + 1 - n;
    var r := RoundHalfEven(y * Pow(10, n - 1), s);
    ScaledRatio(x, s, k0, n);
    ScaledBounds(y, s, n);
    RoundedNearest(y * Pow(10, n - 1), s, n, f, Ratio(x, s, k0));
    AsMultiple(Dec(out), k + 1 - |out|, f);
    assert k + 1 - |out| - f == n + (k - k1) - |out|;
    AsMultiple(r, f, f);
  }

  lemma ScaledRatio(x: nat, s: nat, k0: int, n: nat)
    requires s > 0 && n >= 1
    ensures var k1 := if x < s then k0 - 1 else k0;
            Ratio(x, s, k0) * s as real == (Scaled(x, s) * Pow(10, n - 1)) as real * Ten(k1 + 1 - n)
  {
    hide Ten, Pow, Times;
    var k1 := if x < s then k0 - 1 else k0;
    Divided(x, s, Ten(k0));
    TenNext(k0 - 1);
    TenPow(k1 + 1 - n, n - 1);
    MovePower(Scaled(x, s), Pow(10, n - 1), Ten(k1 + 1 - n));
  }

  lemma Divided(x: nat, s: nat, t: real)
    requires s > 0
    ensures x as real / s as real * t * s as real == x as real * t
  {
    var q := x as real / s as real;
    assert q * s as real == x as real;
    assert q * t * s as real == q * s as real * t;
  }

  lemma MovePower(y: nat, p: nat, t: real)
    ensures (y * p) as real * t == y as real * (p as real * t)
  {
    assert (y * p) as real == y as real * p as real;
  }

  lemma ScaledBounds(y: nat, s: nat, n: nat)
    requires s > 0 && n >= 1 && s <= y < 10 * s
    ensures Pow(10, n - 1) * s <= y * Pow(10, n - 1) < Pow(10, n) * s
  {
    hide Pow;
    var p := Pow(10, n - 1);
    PowGrows(10, n - 1);
    PowUnfold(n);
    Ordering(s - 1, y, p);
    Ordering(y, 10 * s, p);
    assert (s - 1) * p == s * p - p && s * p == p * s && (10 * s) * p == (10 * p) * s;
    if s < y { Ordering(s, y, p); }
  }

  /** Rounding the last digit: up when the remainder is more than half, or half and the
      digit is odd. */
  method RoundLast(pool: Pool, ds: seq<Digit>, b0: Bigint, s: Bigint, ghost x: nat)
    returns (out: seq<Digit>, up: int)
    requires pool.Valid() && pool.Owned(b0) && pool.Owned(s) && b0 != s
    requires Reducible(b0) && b0.Value() > 0 && FourZeroBits(s)
    requires Emitted(ds, x, s.Value(), b0.Value()) && ds[0] != 0
    modifies pool`freelist, pool`free, pool.free
    ensures pool.Valid() && s.Value() > 0 && Clean(out)
    ensures Denotes(out, up, |ds|, Significant(x, s.Value(), |ds|))
  {
    hide Val, Pow, Dec, Pool.Valid, Denotes, Clean;
    ZeroTest(b0);
    PositiveDivisor(s);
    ghost var rem := b0.Value();
    RoundEmitted(ds, x, s.Value(), rem);
    PowOne();
    var b := LShift(pool, b0, 1);
    assert b.Value() == 2 * rem;
    var j := Cmp(b, s);
    if j > 0 || (j == 0 && ds[|ds| - 1] % 2 == 1) {
      out, up := RoundOff(ds);
    } else {
      out := TrimZeros(ds);
      up := 0;
    }
    pool.Bfree(b);
  }

  lemma PowOne()
    ensures Pow(2, 1) == 2
  {
  }

  /** The exponent check, the digit loop and the final rounding of mode 2. */
  method Print(pool: Pool, b0: Bigint, s: Bigint, ilim: nat, k0: int, kCheck: bool)
    returns (out: seq<Digit>, k: int)
    requires pool.Valid() && pool.Owned(b0) && pool.Owned(s) && b0 != s
    requires b0.Normal() && FourZeroBits(s) && ilim >= 1
    requires s.Value() <= 10 * b0.Value() && b0.Value() < 10 * s.Value()
    requires !kCheck ==> s.Value() <= b0.Value()
    modifies pool`freelist, pool`free, pool.free, b0
    ensures pool.Valid() && s.Value() == old(s.Value()) > 0
    ensures Printed(out, k, k0, old(b0.Value()), old(s.Value()), ilim)
    ensures Nearest(ilim, ValueAt(Dec(out), k + 1 - |out|), Ratio(old(b0.Value()), old(s.Value()), k0)) && Clean(out)
  {
    hide Val, Pow, Dec, Pool.Valid, Emitted, RoundHalfEven, Denotes, Nearest, Ratio, ValueAt;
    PositiveDivisor(s);
    ghost var x, d := b0.Value(), s.Value();
    var b := b0;
    k := k0;
    if kCheck {
      var c := Cmp(b, s);
      if c < 0 {
        k := k - 1;
        b := MultAdd(pool, b, 10, 0);
      }
    }
    ghost var y := Scaled(x, d);
    assert b.Value() == y;
    k, out := DigitsAndRounding(pool, pool.free + {b}, b, s, y, d, ilim, k);
    PrintedIsNearest(out, k, k0, x, d, ilim);
  }

  /** Print, after the exponent check. */
  method DigitsAndRounding(pool: Pool, ghost F: set<Bigint>, b0: Bigint, s: Bigint, ghost x: nat, ghost d: nat,
                           ilim: nat, k0: int)
    returns (k: int, out: seq<Digit>)
    requires pool.Valid() && pool.Owned(b0) && pool.Owned(s) && b0 != s
    requires b0.Normal() && FourZeroBits(s) && ilim >= 1
    requires x == b0.Value() && d == s.Value() > 0 && d <= x < 10 * d
    requires pool.free <= F && b0 in F && s !in F
    modifies pool`freelist, pool`free, F
    ensures pool.Valid() && Clean(out)
    ensures Denotes(out, k - k0, ilim, Significant(x, d, ilim))
  {
    hide Val, Pow, Dec, Pool.Valid, Emitted, RoundHalfEven;
    var ds, b := Generate(pool, b0, s, ilim);
    assert s.Value() == d;
    ZeroTest(b);
    if b.x[0] == 0 && b.wds <= 1 {
      RoundExact(ds, x, d, ilim);
      k, out := k0, ds;
      pool.Bfree(b);
    } else {
      var up;
      out, up := RoundLast(pool, ds, b, s, x);
      k := k0 + up;
    }
  }

  /** b * 5^e5, without work for e5 = 0. */
  method TimesPowerOfFive(pool: Pool, ghost F: set<Bigint>, ghost C: set<Bigint>, b0: Bigint, e5: nat)
      returns (b: Bigint)
    requires pool.Valid() && pool.Owned(b0) && b0.Normal() && b0.Value() > 0
    requires pool.free <= F && b0 in F && forall v | v in pool.cache :: v in C
    modifies pool, F, C`next
    ensures pool.Valid() && pool.Owned(b) && b.Normal()
    ensures b.Value() == old(b0.Value()) * Pow(5, e5) > 0
    ensures old(pool.cache) <= pool.cache && (b in F || fresh(b))
    ensures forall v | v in pool.free :: v in F || fresh(v)
    ensures forall v | v in pool.cache :: v in F || v in C || fresh(v)
  {
    hide Val, Pow, Pool.Valid;
    b := b0;
    PositiveProduct(b.Value(), 5, e5);
    if e5 > 0 {
      b := Pow5Mult(pool, F, C, b0, e5);
    } else {
      PowFiveZero();
    }
  }

  lemma PowFiveZero()
    ensures Pow(5, 0) == 1
  {
  }

  /** b * 2^e2, without work for e2 = 0. */
  method TimesPowerOfTwo(pool: Pool, ghost F: set<Bigint>, b0: Bigint, e2: nat) returns (b: Bigint)
    requires pool.Valid() && pool.Owned(b0) && b0.Normal() && b0.Value() > 0
    requires pool.free <= F && b0 in F
    modifies pool`freelist, pool`free, F
    ensures pool.Valid() && pool.Owned(b) && b.Normal()
    ensures b.Value() == old(b0.Value()) * Pow(2, e2) > 0
    ensures (b in F || fresh(b)) && forall v | v in pool.free :: v in F || fresh(v)
  {
    hide Val, Pow, Pool.Valid;
    b := b0;
    PositiveProduct(b.Value(), 2, e2);
    if e2 > 0 {
      b := LShift(pool, b0, e2);
    } else {
      PowZero();
    }
  }

  /** Cancelling the common power of two, then aligning both sides by the same shift,
      multiplies numerator and denominator by the same factor. */
  lemma CommonShift(v: nat, f: nat, b2: nat, s2: nat, b2': nat, s2': nat, x: nat, d: nat)
    requires b2' - b2 == s2' - s2
    requires x == (v * Pow(2, b2)) && d == f * Pow(2, s2) && v > 0 && f > 0
    ensures b2' >= b2 ==> v * Pow(2, b2') == x * Pow(2, b2' - b2) && f * Pow(2, s2') == d * Pow(2, b2' - b2)
    ensures b2' < b2 ==> x == (v * Pow(2, b2')) * Pow(2, b2 - b2') && d == (f * Pow(2, s2')) * Pow(2, b2 - b2')
  {
    hide Pow;
    if b2' >= b2 {
      PowAdd(2, b2, b2' - b2);
      PowAdd(2, s2, b2' - b2);
      Associate(v, Pow(2, b2), Pow(2, b2' - b2));
      Associate(f, Pow(2, s2), Pow(2, b2' - b2));
    } else {
      PowAdd(2, b2', b2 - b2');
      PowAdd(2, s2', b2 - b2');
      Associate(v, Pow(2, b2'), Pow(2, b2 - b2'));
      Associate(f, Pow(2, s2'), Pow(2, b2 - b2'));
    }
  }

  /** Printed does not change under a common factor. */
  lemma PrintedScale(out: seq<Digit>, k: int, k0: int, x: nat, s: nat, n: nat, c: nat)
    requires s > 0 && n >= 1 && c > 0
    ensures s * c > 0 && (Printed(out, k, k0, x * c, s * c, n) <==> Printed(out, k, k0, x, s, n))
  {
    hide Pow, Dec, Clean, Denotes, RoundHalfEven, Scaled;
    Ordering(x, s, c);
    var y, p := Scaled(x, s), Pow(10, n - 1);
    ScaledScale(x, s, c);
    RoundScale(y * p, s, c);
    Exchange(y, c, p);
  }

  lemma ScaledScale(x: nat, s: nat, c: nat)
    requires s > 0 && c > 0
    ensures Scaled(x * c, s * c) == Scaled(x, s) * c
  {
    Ordering(x, s, c);
  }

  lemma Exchange(y: nat, c: nat, p: nat)
    ensures (y * c) * p == (y * p) * c
  {
  }

  /** Shifting both sides so that the divisor has four leading zero bits. */
  method Align(pool: Pool, ghost F: set<Bigint>, b0: Bigint, s0: Bigint, b2: nat, s2: nat)
    returns (b: Bigint, s: Bigint, i: nat)
    requires pool.Valid() && pool.Owned(b0) && pool.Owned(s0) && b0 != s0
    requires b0.Normal() && s0.Normal() && b0.Value() > 0 && s0.Value() > 0
    requires pool.free <= F && b0 in F && s0 in F
    modifies pool`freelist, pool`free, F
    ensures pool.Valid() && pool.Owned(b) && pool.Owned(s) && b != s && b.Normal() && FourZeroBits(s)
    ensures b.Value() == old(b0.Value()) * Pow(2, b2 + i) && s.Value() == old(s0.Value()) * Pow(2, s2 + i)
    ensures (b in F || fresh(b)) && (s in F || fresh(s)) && forall v | v in pool.free :: v in F || fresh(v)
  {
    hide Val, Pow, Weight, Pool.Valid, Aligns;
    ghost var h;
    i, h := DShift(s0, s2);
    ghost var v, t, n := s0.Value(), s0.x[s0.wds - 1], s0.wds - 1;
    TopWord(s0.x[..s0.wds]);
    ghost var N := AlignedRange(v, t, n, h, s2 + i);
    b := TimesPowerOfTwo(pool, pool.free + {b0}, b0, b2 + i);
    s := TimesPowerOfTwo(pool, pool.free + {s0}, s0, s2 + i);
    TopInRange(s, N);
  }

  lemma DivisorValue(f: nat, s5: nat)
    ensures 1 * Pow(5, s5) == Pow(5, s5) > 0
  {
  }

  /** The numerator and the denominator dtoa works with. */
  ghost function Numerator(v: nat, b2: nat, b5: nat): nat { (v * Pow(5, b5)) * Pow(2, b2) }

  ghost function Denominator(s2: nat, s5: nat): nat { Pow(5, s5) * Pow(2, s2) }

  /** Mode 2 of dtoa from the integer mantissa on: prints
      v * 2^b2 * 5^b5 / (2^s2 * 5^s5) to `ilim` significant digits, half to even, when the
      exponent estimate k0 is right or one too high. */
  method Mode2(pool: Pool, ghost F: set<Bigint>, ghost C: set<Bigint>, b0: Bigint,
               b2: nat, b5: nat, s2: nat, s5: nat, ilim: nat, k0: int, kCheck: bool)
    returns (out: seq<Digit>, k: int)
    requires pool.Valid() && pool.Owned(b0) && b0.Normal() && b0.Value() > 0 && ilim >= 1
    requires pool.free <= F && b0 in F && forall v | v in pool.cache :: v in C
    requires Denominator(s2, s5) <= 10 * Numerator(b0.Value(), b2, b5)
    requires Numerator(b0.Value(), b2, b5) < 10 * Denominator(s2, s5)
    requires !kCheck ==> Denominator(s2, s5) <= Numerator(b0.Value(), b2, b5)
    modifies pool, F, C`next
    ensures pool.Valid() && old(pool.cache) <= pool.cache && Denominator(s2, s5) > 0
    ensures Printed(out, k, k0, Numerator(old(b0.Value()), b2, b5), Denominator(s2, s5), ilim)
    ensures Nearest(ilim, ValueAt(Dec(out), k + 1 - |out|),
                    Ratio(Numerator(old(b0.Value()), b2, b5), Denominator(s2, s5), k0)) && Clean(out)
  {
    hide Val, Pow, Pool.Valid, Printed, Numerator, Denominator, FourZeroBits, Nearest, Ratio, ValueAt, Dec, Clean;
    ghost var x, d := Numerator(b0.Value(), b2, b5), Denominator(s2, s5);
    var b, s;
    ghost var c, c';
    b, s, c, c' := Prepare(pool, F, C, b0, b2, b5, s2, s5);
    PositiveDivisor(s);
    ghost var y, e := b.Value(), s.Value();
    SameRatio(x, d, c, y, e, c');
    out, k := Print(pool, b, s, ilim, k0, kCheck);
    PrintedRatio(out, k, k0, x, d, c, y, e, c', ilim);
    PrintedIsNearest(out, k, k0, x, d, ilim);
  }

  /** The divisor 5^s5. */
  method PowerOfFive(pool: Pool, ghost F: set<Bigint>, ghost C: set<Bigint>, s5: nat) returns (s: Bigint)
    requires pool.Valid() && pool.free <= F && forall v | v in pool.cache :: v in C
    modifies pool, F, C`next
    ensures pool.Valid() && pool.Owned(s) && s.Normal() && s.Value() == Pow(5, s5) > 0
    ensures old(pool.cache) <= pool.cache && (s in F || fresh(s))
    ensures forall v | v in pool.free :: v in F || fresh(v)
    ensures forall v | v in pool.cache :: v in F || v in C || fresh(v)
  {
    hide Val, Pow, Pool.Valid;
    s := I2b(pool, 1);
    s := TimesPowerOfFive(pool, F + {s}, C, s, s5);
    DivisorValue(1, s5);
  }

  /** dtoa up to the exponent check: both sides multiplied out and aligned. */
  method Prepare(pool: Pool, ghost F: set<Bigint>, ghost C: set<Bigint>, b0: Bigint, b2: nat, b5: nat, s2: nat, s5: nat)
    returns (b: Bigint, s: Bigint, ghost c: nat, ghost c': nat)
    requires pool.Valid() && pool.Owned(b0) && b0.Normal() && b0.Value() > 0
    requires pool.free <= F && b0 in F && forall v | v in pool.cache :: v in C
    modifies pool, F, C`next
    ensures pool.Valid() && old(pool.cache) <= pool.cache
    ensures pool.Owned(b) && pool.Owned(s) && b != s && b.Normal() && FourZeroBits(s)
    ensures c >= 1 && c' >= 1
    ensures b.Value() * c' == Numerator(old(b0.Value()), b2, b5) * c
    ensures s.Value() * c' == Denominator(s2, s5) * c
    ensures (b in F || fresh(b)) && forall v | v in pool.free :: v in F || fresh(v)
  {
    hide Val, Pow, Pool.Valid, FourZeroBits, Factor, Bigint.Normal;
    var m := if b2 < s2 then b2 else s2;
    b, s := FivePowers(pool, F, C, b0, b5, s5);
    ghost var v, f := b.Value(), s.Value();
    var i;
    b, s, i := Align(pool, pool.free + {b, s}, b, s, b2 - m, s2 - m);
    c, c' := Factor(m, i), Factor(i, m);
    FactorOut(v, f, b2, s2, m, i, v * Pow(2, b2), f * Pow(2, s2));
  }

  /** The factors 5^b5 and 5^s5. */
  method FivePowers(pool: Pool, ghost F: set<Bigint>, ghost C: set<Bigint>, b0: Bigint, b5: nat, s5: nat)
    returns (b: Bigint, s: Bigint)
    requires pool.Valid() && pool.Owned(b0) && b0.Normal() && b0.Value() > 0
    requires pool.free <= F && b0 in F && forall v | v in pool.cache :: v in C
    modifies pool, F, C`next
    ensures pool.Valid() && old(pool.cache) <= pool.cache
    ensures pool.Owned(b) && pool.Owned(s) && b != s && b.Normal() && s.Normal()
    ensures b.Value() == old(b0.Value()) * Pow(5, b5) > 0 && s.Value() == Pow(5, s5) > 0
    ensures (b in F || fresh(b)) && (s in F || fresh(s)) && forall v | v in pool.free :: v in F || fresh(v)
  {
    hide Val, Pow, Pool.Valid, Bigint.Normal;
    b := TimesPowerOfFive(pool, F, C, b0, b5);
    s := PowerOfFive(pool, pool.free, (set u | u in pool.cache), s5);
  }

  lemma SameRatio(x: nat, d: nat, c: nat, y: nat, e: nat, c': nat)
    requires c >= 1 && c' >= 1 && y * c' == x * c && e * c' == d * c && e > 0
    ensures d > 0 && (y < e <==> x < d)
    ensures (y < 10 * e <==> x < 10 * d) && (e <= 10 * y <==> d <= 10 * x)
  {
    Ordering(0, e, c');
    Ordering(0, d, c);
    SameOrder(x, d, c, y, e, c', 1, 1);
    SameOrder(x, d, c, y, e, c', 1, 10);
    SameOrder(x, d, c, y, e, c', 10, 1);
  }

  lemma SameOrder(x: nat, d: nat, c: nat, y: nat, e: nat, c': nat, p: nat, q: nat)
    requires c >= 1 && c' >= 1 && y * c' == x * c && e * c' == d * c
    ensures p * y < q * e <==> p * x < q * d
  {
    Ordering(p * y, q * e, c');
    Ordering(p * x, q * d, c);
    Associate(p, y, c');
    Associate(q, e, c');
    Associate(p, x, c);
    Associate(q, d, c);
  }

  lemma PrintedRatio(out: seq<Digit>, k: int, k0: int, x: nat, d: nat, c: nat, y: nat, e: nat, c': nat, n: nat)
    requires c >= 1 && c' >= 1 && y * c' == x * c && e * c' == d * c && e > 0 && d > 0 && n >= 1
    ensures Printed(out, k, k0, y, e, n) <==> Printed(out, k, k0, x, d, n)
  {
    hide Printed;
    PrintedScale(out, k, k0, x, d, n, c);
    PrintedScale(out, k, k0, y, e, n, c');
  }

  /** The factor by which one side's shift exceeds the other's. */
  ghost function Factor(m: nat, i: nat): (r: nat)
    ensures r >= 1
  {
    if i >= m then Pow(2, i - m) else 1
  }

  lemma FactorOut(v: nat, f: nat, b2: nat, s2: nat, m: nat, i: nat, x: nat, d: nat)
    requires m <= b2 && m <= s2 && v > 0 && f > 0
    requires x == v * Pow(2, b2) && d == f * Pow(2, s2)
    ensures (v * Pow(2, b2 - m + i)) * Factor(i, m) == x * Factor(m, i)
    ensures (f * Pow(2, s2 - m + i)) * Factor(i, m) == d * Factor(m, i)
  {
    hide Pow;
    CommonShift(v, f, b2, s2, b2 - m + i, s2 - m + i, x, d);
    PowZero();
  }
}
