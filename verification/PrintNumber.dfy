/** From a ratio to JSON text: dtoa's digits, formatted. */
module PrintNumber {
  import opened Bignum
  import opened BigintPool
  import opened DtoaDigits
  import opened Decimals
  import opened Dtoa
  import opened JsonNumber
  import opened GFormat

  lemma {:induction false} DecAtLeast(ds: seq<Digit>)
    requires ds != [] && ds[0] != 0
    ensures Dec(ds) >= Pow(10, |ds| - 1)
  {
    if |ds| > 1 {
      DecAtLeast(ds[..|ds| - 1]);
    } else {
      assert ds[..0] == [];
    }
  }

  /** Rounding never gives more digits than asked for: a carry out of all nines leaves one digit. */
  lemma FewDigits(out: seq<Digit>, up: int, n: nat, r: nat)
    requires Clean(out) && Denotes(out, up, n, r) && n >= 1 && r <= Pow(10, n)
    ensures |out| <= n
  {
    hide Dec, Pow;
    if |out| == n + 1 {
      assert Pow(10, 0) == 1 by { TenPowers(); }
      DecAtLeast(out);
      PowersEndInZero(n);
      LastDigit(out);
    }
  }

  lemma PowersEndInZero(n: nat)
    requires n >= 1
    ensures Pow(10, n) % 10 == 0
  {
    hide Pow;
    PowGrows(10, n - 1);
    TenTimes(Pow(10, n - 1));
  }

  lemma TenTimes(p: nat)
    ensures (10 * p) % 10 == 0
  {
  }

  lemma LastDigit(ds: seq<Digit>)
    requires ds != []
    ensures Dec(ds) % 10 == ds[|ds| - 1]
  {
  }

  lemma PrintedIsShort(out: seq<Digit>, k: int, k0: int, x: nat, s: nat, n: nat)
    requires s > 0 && n >= 1 && s <= 10 * x && x < 10 * s && Printed(out, k, k0, x, s, n)
    ensures |out| <= n && Clean(out)
  {
    hide Dec, Pow, RoundHalfEven, Denotes, Clean;
    SignificantBelow(Scaled(x, s), s, n);
    FewDigits(out, k - (if x < s then k0 - 1 else k0), n, Significant(Scaled(x, s), s, n));
  }

  lemma SignificantBelow(y: nat, s: nat, n: nat)
    requires s > 0 && n >= 1 && y < 10 * s
    ensures Significant(y, s, n) <= Pow(10, n)
  {
    hide Pow, RoundHalfEven;
    var p := Pow(10, n - 1);
    PowGrows(10, n - 1);
    PowUnfold(n);
    ScaleBelow(y, 10 * s, p);
    assert (10 * s) * p == (10 * p) * s;
    RoundedAtMost(y * p, s, 10 * p);
  }

  lemma ScaleBelow(y: nat, z: nat, p: nat)
    requires y < z && p >= 1
    ensures y * p < z * p
  {
    ScaleUp(y + 1, z, p);
    assert (y + 1) * p == y * p + p;
  }

  /** Two ways to write the same number have the same value. */
  lemma SameValue(a: Decimal, b: Decimal)
    requires Same(a, b)
    ensures ValueAt(a.m, a.e) == ValueAt(b.m, b.e)
  {
    hide Times, Ten, Pow;
    if a.e >= b.e {
      AsMultiple(a.m, a.e, b.e);
    } else {
      AsMultiple(b.m, b.e, a.e);
    }
  }

  /** The text reads as x / s * 10^k0, rounded half to even to `precision` significant digits. */
  ghost predicate ReadsAs(text: string, negative: bool, precision: nat, v: real) {
    match Read(text)
    case None => false
    case Some(d) => d.negative == negative && Nearest(precision, ValueAt(d.m, d.e), v)
  }

  /** fpconv_g_fmt with the digits of dtoa: the text of a positive ratio is a JSON number that denotes
      exactly the ratio rounded half to even to `precision` significant digits. */
  method PrintRatio(pool: Pool, ghost F: set<Bigint>, ghost C: set<Bigint>, negative: bool, b0: Bigint,
                    b2: nat, b5: nat, s2: nat, s5: nat, precision: nat, k0: int, kCheck: bool)
    returns (text: string, ghost out: seq<Digit>, ghost k: int)
    requires pool.Valid() && pool.Owned(b0) && b0.Normal() && b0.Value() > 0 && precision >= 1
    requires pool.free <= F && b0 in F && forall v | v in pool.cache :: v in C
    requires Denominator(s2, s5) <= 10 * Numerator(b0.Value(), b2, b5)
    requires Numerator(b0.Value(), b2, b5) < 10 * Denominator(s2, s5)
    requires !kCheck ==> Denominator(s2, s5) <= Numerator(b0.Value(), b2, b5)
    modifies pool, F, C`next
    ensures Denominator(s2, s5) > 0
    ensures Printed(out, k, k0, Numerator(old(b0.Value()), b2, b5), Denominator(s2, s5), precision)
    ensures k + 1 != SPECIAL ==> Read(text).Some? && Same(Read(text).value, Meant(negative, out, k + 1))
    ensures k + 1 != SPECIAL ==>
              ReadsAs(text, negative, precision,
                      Ratio(Numerator(old(b0.Value()), b2, b5), Denominator(s2, s5), k0))
    ensures -1000 < k < 1000 ==> |text| <= precision + 7
  {
    hide Printed, Numerator, Denominator, Read, Clean, Nearest, ValueAt, Ratio, Dec;
    ghost var x := Numerator(b0.Value(), b2, b5);
    var digits, exponent := Mode2(pool, F, C, b0, b2, b5, s2, s5, precision, k0, kCheck);
    PrintedIsShort(digits, exponent, k0, x, Denominator(s2, s5), precision);
    text := Format(negative, digits, exponent + 1, precision);
    out, k := digits, exponent;
    if k + 1 != SPECIAL {
      SameValue(Read(text).value, Meant(negative, out, k + 1));
    }
  }
}
