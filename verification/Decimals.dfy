/** Decimals as real numbers, and what it means to round to a number of significant digits. */
module Decimals {
  import opened Bignum
  import opened DtoaDigits

  /** 10^e */
  function Ten(e: int): (t: real)
    ensures t > 0.0
    decreases if e < 0 then -e else e
  {
    if e == 0 then 1.0 else if e > 0 then 10.0 * Ten(e - 1) else Ten(e + 1) / 10.0
  }

  function Times(m: nat, u: real): real { m as real * u }

  function ValueAt(m: nat, e: int): real { Times(m, Ten(e)) }

  function Distance(a: real, b: real): real { if a >= b then a - b else b - a }

  /** a has at most n significant digits. */
  ghost predicate HasDigits(n: nat, a: real) {
    exists m: nat, e: int :: m < Pow(10, n) && a == ValueAt(m, e)
  }

  /** a is an even multiple of 10^e. */
  ghost predicate EvenAt(a: real, e: int) { exists j: nat :: a == ValueAt(2 * j, e) }

  /** a is v rounded half to even to n significant digits: no decimal with n significant digits, whatever
      its exponent, is nearer to v, and if another one is as near, then a is the one whose last digit
      (the n-th, counted from the leading digit of v) is even. */
  ghost predicate Nearest(n: nat, a: real, v: real) {
    && HasDigits(n, a)
    && (forall m: nat, e: int | m < Pow(10, n) :: Distance(a, v) <= Distance(ValueAt(m, e), v))
    && (forall m: nat, e: int, l: int | m < Pow(10, n) && ValueAt(m, e) != a && Ten(l) <= v < Ten(l + 1) ::
          Distance(a, v) == Distance(ValueAt(m, e), v) ==> EvenAt(a, l + 1 - n))
  }

  lemma TenNext(e: int)
    ensures Ten(e + 1) == 10.0 * Ten(e)
  {
  }

  lemma {:induction false} TenPow(e: int, n: nat)
    ensures Ten(e + n) == Pow(10, n) as real * Ten(e)
  {
    hide Ten;
    if n > 0 {
      TenPow(e, n - 1);
      TenNext(e + n - 1);
      assert Pow(10, n) == 10 * Pow(10, n - 1);
    } else {
      assert Pow(10, 0) == 1;
    }
  }

  lemma {:induction false} TenGrows(e: int, f: int)
    requires e <= f
    ensures Ten(e) <= Ten(f)
    decreases f - e
  {
    if e < f {
      TenNext(f - 1);
      TenGrows(e, f - 1);
    }
  }

  /** Only one power of ten leads a number. */
  lemma LeadUnique(v: real, l: int, k: int)
    requires Ten(l) <= v < Ten(l + 1) && Ten(k) <= v < Ten(k + 1)
    ensures l == k
  {
    if l < k { TenGrows(l + 1, k); }
    if k < l { TenGrows(k + 1, l); }
  }

  // ---- rounding a ratio --------------------------------------------------------------------------

  function AbsDiff(a: nat, b: nat): nat { if a >= b then a - b else b - a }

  /** How far m * u is from v, scaled by s. */
  lemma ErrorScaled(m: nat, x: nat, s: nat, u: real, v: real)
    requires v * s as real == x as real * u && u > 0.0 && s > 0
    ensures Distance(Times(m, u), v) * s as real == AbsDiff(m * s, x) as real * u
  {
    var a, t := m as real * u, s as real;
    assert (a - v) * t == (m as real * t - x as real) * u;
    assert (m * s) as real == m as real * t;
    if a >= v {
      assert (a - v) * t >= 0.0;
      SignKept(m as real * t - x as real, u);
    } else {
      assert (v - a) * t > 0.0;
      SignKept(x as real - m as real * t, u);
    }
  }

  lemma SignKept(a: real, u: real)
    requires u > 0.0
    ensures a * u >= 0.0 <==> a >= 0.0
  {
  }

  lemma Compare(d: real, f: real, a: nat, b: nat, u: real, t: real)
    requires d * t == a as real * u && f * t == b as real * u && t > 0.0 && u > 0.0
    ensures (a <= b <==> d <= f) && (a == b <==> d == f)
  {
    assert (f - d) * t == (b as real - a as real) * u;
    SignKept(f - d, t);
    SignKept(b as real - a as real, u);
    SignKept(d - f, t);
    SignKept(a as real - b as real, u);
  }

  /** Among the multiples of u, the rounded quotient is nearest to v. */
  lemma NearestMultiple(x: nat, s: nat, u: real, v: real, m: nat)
    requires s > 0 && u > 0.0 && v * s as real == x as real * u
    ensures var r := RoundHalfEven(x, s);
            && Distance(Times(r, u), v) <= Distance(Times(m, u), v)
            && (Distance(Times(r, u), v) == Distance(Times(m, u), v) && m != r ==> r % 2 == 0)
  {
    hide RoundHalfEven, Distance, AbsDiff, Times;
    var r, t := RoundHalfEven(x, s), s as real;
    RoundedDiff(x, s, m);
    ErrorScaled(r, x, s, u, v);
    ErrorScaled(m, x, s, u, v);
    Compare(Distance(Times(r, u), v), Distance(Times(m, u), v), AbsDiff(r * s, x), AbsDiff(m * s, x), u, t);
  }

  lemma RoundedDiff(x: nat, s: nat, m: nat)
    requires s > 0
    ensures var r := RoundHalfEven(x, s);
            && AbsDiff(r * s, x) <= AbsDiff(m * s, x)
            && (AbsDiff(r * s, x) == AbsDiff(m * s, x) && m != r ==> r % 2 == 0)
  {
    hide RoundHalfEven;
    RoundedIsNearest(x, s, m);
  }

  /** Rounding x / s * 10^f, when n digits stand before the unit 10^f, rounds to n significant digits. */
  lemma RoundedNearest(x: nat, s: nat, n: nat, f: int, v: real)
    requires s > 0 && n >= 1 && v * s as real == x as real * Ten(f)
    requires Pow(10, n - 1) * s <= x < Pow(10, n) * s
    ensures Nearest(n, ValueAt(RoundHalfEven(x, s), f), v)
  {
    hide RoundHalfEven, Distance, Ten, Pow;
    var r := RoundHalfEven(x, s);
    var a := ValueAt(r, f);
    RoundedHasDigits(x, s, n, f);
    forall m: nat, e: int | m < Pow(10, n)
      ensures Distance(a, v) <= Distance(ValueAt(m, e), v)
      ensures Distance(a, v) == Distance(ValueAt(m, e), v) && ValueAt(m, e) != a ==> r % 2 == 0
    {
      if e >= f {
        CoarseCandidate(x, s, f, v, m, e);
      } else {
        FineCandidate(x, s, n, f, v, m, e);
      }
    }
    forall m: nat, e: int, l: int | m < Pow(10, n) && ValueAt(m, e) != a && Ten(l) <= v < Ten(l + 1)
      ensures Distance(a, v) == Distance(ValueAt(m, e), v) ==> EvenAt(a, l + 1 - n)
    {
      if Distance(a, v) == Distance(ValueAt(m, e), v) {
        LeadOf(x, s, n, f, v);
        LeadUnique(v, l, f + n - 1);
        assert a == ValueAt(2 * (r / 2), f);
      }
    }
  }

  lemma RoundedHasDigits(x: nat, s: nat, n: nat, f: int)
    requires s > 0 && n >= 1 && x < Pow(10, n) * s
    ensures HasDigits(n, ValueAt(RoundHalfEven(x, s), f))
  {
    hide RoundHalfEven, Ten, Pow;
    var r := RoundHalfEven(x, s);
    RoundedAtMost(x, s, Pow(10, n));
    if r == Pow(10, n) {
      TenPow(f, n);
      assert ValueAt(r, f) == ValueAt(1, f + n);
      OneDigit(n);
    }
  }

  lemma OneDigit(n: nat)
    requires n >= 1
    ensures 1 < Pow(10, n)
  {
    PowGrows(10, n - 1);
  }

  lemma RoundedAtMost(x: nat, s: nat, m: nat)
    requires s > 0 && x < m * s
    ensures RoundHalfEven(x, s) <= m
  {
    var q := x / s;
    assert x == s * q + x % s;
    if q >= m { ScaleUp(m, q, s); }
  }

  /** A candidate that is a multiple of the unit. */
  lemma CoarseCandidate(x: nat, s: nat, f: int, v: real, m: nat, e: int)
    requires s > 0 && v * s as real == x as real * Ten(f) && e >= f
    ensures var r := RoundHalfEven(x, s);
            && Distance(ValueAt(r, f), v) <= Distance(ValueAt(m, e), v)
            && (Distance(ValueAt(r, f), v) == Distance(ValueAt(m, e), v) && ValueAt(m, e) != ValueAt(r, f)
                ==> r % 2 == 0)
  {
    hide RoundHalfEven, Distance, Ten, Pow;
    hide Times;
    var w, t := m * Pow(10, e - f), Ten(f);
    AsMultiple(m, e, f);
    NearestMultiple(x, s, t, v, w);
  }

  lemma AsMultiple(m: nat, e: int, f: int)
    requires e >= f
    ensures ValueAt(m, e) == Times(m * Pow(10, e - f), Ten(f))
  {
    hide Ten, Pow;
    TenPow(f, e - f);
    TimesPower(m, Pow(10, e - f), Ten(f));
  }

  lemma TimesPower(m: nat, p: nat, u: real)
    ensures Times(m, p as real * u) == Times(m * p, u)
  {
    assert (m * p) as real == m as real * p as real;
  }

  /** A candidate with a smaller unit is below the leading power of ten. */
  lemma FineCandidate(x: nat, s: nat, n: nat, f: int, v: real, m: nat, e: int)
    requires s > 0 && n >= 1 && v * s as real == x as real * Ten(f) && Pow(10, n - 1) * s <= x
    requires m < Pow(10, n) && e < f
    ensures Distance(ValueAt(RoundHalfEven(x, s), f), v) < Distance(ValueAt(m, e), v)
  {
    hide RoundHalfEven, Ten, Pow;
    hide Times, Distance;
    var p, t := Pow(10, n - 1), Ten(f);
    var r := RoundHalfEven(x, s);
    NearestMultiple(x, s, t, v, p);
    LeadingBelow(x, s, p, t, v);
    FineBelow(n, f, m, e);
    FartherBelow(ValueAt(m, e), Times(p, t), v);
  }

  lemma FartherBelow(a: real, b: real, v: real)
    requires a < b <= v
    ensures Distance(b, v) < Distance(a, v)
  {
  }

  lemma LeadingBelow(x: nat, s: nat, p: nat, u: real, v: real)
    requires s > 0 && u > 0.0 && v * s as real == x as real * u && p * s <= x
    ensures Times(p, u) <= v
  {
    assert (v - p as real * u) * s as real == (x as real - (p * s) as real) * u;
    SignKept(x as real - (p * s) as real, u);
    SignKept(v - p as real * u, s as real);
  }

  lemma LeadingAbove(x: nat, s: nat, p: nat, u: real, v: real)
    requires s > 0 && u > 0.0 && v * s as real == x as real * u && x < p * s
    ensures v < Times(p, u)
  {
    assert (p as real * u - v) * s as real == ((p * s) as real - x as real) * u;
    SignKept(x as real - (p * s) as real, u);
    SignKept(v - p as real * u, s as real);
  }

  lemma FineBelow(n: nat, f: int, m: nat, e: int)
    requires n >= 1 && m < Pow(10, n) && e < f
    ensures ValueAt(m, e) < Times(Pow(10, n - 1), Ten(f))
  {
    hide Ten, Pow;
    var p := Pow(10, n - 1);
    TenGrows(e, f - 1);
    TenNext(f - 1);
    PowUnfold(n);
    var t, u := Ten(e), Ten(f - 1);
    TimesLess(m, 10 * p, t, u);
    assert (10 * p) as real * u == p as real * (10.0 * u);
  }

  lemma PowUnfold(n: nat)
    requires n >= 1
    ensures Pow(10, n) == 10 * Pow(10, n - 1)
  {
  }

  lemma LessTimes(a: real, b: real, t: real)
    requires a < b && t > 0.0
    ensures a * t < b * t
  {
    SignKept(a - b, t);
    assert (a - b) * t == a * t - b * t;
  }

  lemma TimesLess(m: nat, p: nat, t: real, u: real)
    requires m < p && 0.0 < t <= u
    ensures m as real * t < p as real * u
  {
    LessTimes(m as real, p as real, t);
    SignKept(u - t, p as real);
    assert (u - t) * p as real == p as real * u - p as real * t;
  }

  /** The leading power of ten of v. */
  lemma LeadOf(x: nat, s: nat, n: nat, f: int, v: real)
    requires s > 0 && n >= 1 && v * s as real == x as real * Ten(f)
    requires Pow(10, n - 1) * s <= x < Pow(10, n) * s
    ensures Ten(f + n - 1) <= v < Ten(f + n)
  {
    hide Ten, Pow;
    LeadingBelow(x, s, Pow(10, n - 1), Ten(f), v);
    LeadingAbove(x, s, Pow(10, n), Ten(f), v);
    TenPow(f, n - 1);
    TenPow(f, n);
  }

  // ---- one result ----------------------------------------------------------------------------------

  /** Rounding has one result. */
  lemma NearestUnique(n: nat, a: real, b: real, v: real, l: int)
    requires n >= 1 && Nearest(n, a, v) && Nearest(n, b, v) && Ten(l) <= v < Ten(l + 1)
    ensures a == b
  {
    hide Ten, Distance, ValueAt;
    if a != b {
      NearestAgainst(n, a, v, b, l);
      NearestAgainst(n, b, v, a, l);
    }
    if a < b { NearestBetween(n, a, b, v, l); }
    if b < a { NearestBetween(n, b, a, v, l); }
  }

  /** Between two even multiples that are as near there is an odd one that is nearer. */
  lemma NearestBetween(n: nat, a: real, b: real, v: real, l: int)
    requires n >= 1 && Nearest(n, a, v) && HasDigits(n, b) && Ten(l) <= v < Ten(l + 1) && a < b
    ensures Distance(a, v) == Distance(b, v) ==> !EvenAt(b, l + 1 - n)
    ensures Distance(a, v) <= Distance(b, v)
  {
    hide Ten, Pow, ValueAt, Distance;
    NearestAgainst(n, a, v, b, l);
    if Distance(a, v) == Distance(b, v) && EvenAt(b, l + 1 - n) {
      Midway(a, b, v);
      var i: nat :| a == ValueAt(2 * i, l + 1 - n);
      var j: nat :| b == ValueAt(2 * j, l + 1 - n);
      var m := 2 * i + 1;
      Between(i, j, l + 1 - n);
      BelowNext(2 * i, n, l, v);
      PowUnfold(n);
      Inside(a, b, v, ValueAt(m, l + 1 - n));
      assert false;
    }
  }

  lemma NearestAgainst(n: nat, a: real, v: real, b: real, l: int)
    requires Nearest(n, a, v) && HasDigits(n, b) && Ten(l) <= v < Ten(l + 1) && a != b
    ensures Distance(a, v) <= Distance(b, v)
    ensures Distance(a, v) == Distance(b, v) ==> EvenAt(a, l + 1 - n)
  {
    hide Ten, Pow, ValueAt, Distance;
    var m: nat, e: int :| m < Pow(10, n) && b == ValueAt(m, e);
  }

  lemma Midway(a: real, b: real, v: real)
    requires a < b && Distance(a, v) == Distance(b, v)
    ensures a < v < b && v - a == b - v
  {
  }

  lemma Inside(a: real, b: real, v: real, c: real)
    requires a < c < b && v - a == b - v
    ensures Distance(c, v) < Distance(a, v)
  {
  }

  lemma Between(i: nat, j: nat, e: int)
    requires ValueAt(2 * i, e) < ValueAt(2 * j, e)
    ensures ValueAt(2 * i, e) < ValueAt(2 * i + 1, e) < ValueAt(2 * j, e)
  {
    hide Ten, Times;
    var t := Ten(e);
    if j <= i { NotBelow(2 * j, 2 * i, t); }
    TimesBelow(2 * i, 2 * i + 1, t);
    TimesBelow(2 * i + 1, 2 * j, t);
  }

  lemma TimesBelow(i: nat, j: nat, t: real)
    requires t > 0.0
    ensures i < j ==> Times(i, t) < Times(j, t)
  {
    if i < j { LessTimes(i as real, j as real, t); }
  }

  lemma NotBelow(j: nat, i: nat, t: real)
    requires j <= i && t > 0.0
    ensures Times(j, t) <= Times(i, t)
  {
    TimesBelow(j, i, t);
  }

  lemma BelowNext(m: nat, n: nat, l: int, v: real)
    requires n >= 1 && ValueAt(m, l + 1 - n) < v < Ten(l + 1)
    ensures m < Pow(10, n)
  {
    hide Ten, Pow;
    TenPow(l + 1 - n, n);
    if m >= Pow(10, n) { NotBelow(Pow(10, n), m, Ten(l + 1 - n)); }
  }
}
