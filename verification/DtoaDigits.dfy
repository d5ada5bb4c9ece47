/** Decimal digit strings and correct rounding, as plain arithmetic. */
module DtoaDigits {
  import opened Bignum

  type Digit = d: int | 0 <= d < 10

  /** The integer a digit string denotes, most significant digit first. */
  function Dec(ds: seq<Digit>): nat {
    if ds == [] then 0 else 10 * Dec(ds[..|ds| - 1]) + ds[|ds| - 1]
  }

  lemma DecSnoc(ds: seq<Digit>, d: Digit)
    ensures Dec(ds + [d]) == 10 * Dec(ds) + d
  {
    assert (ds + [d])[..|ds|] == ds;
  }

  /** x / s rounded to the nearest integer, ties to the even one. */
  function RoundHalfEven(x: nat, s: nat): nat
    requires s > 0
  {
    var q, r := x / s, x % s;
    if 2 * r > s || (2 * r == s && q % 2 == 1) then q + 1 else q
  }

  /** The rounded integer is a nearest one, and among two nearest ones the even one. */
  lemma RoundedIsNearest(x: nat, s: nat, n: nat)
    requires s > 0
    ensures var r := RoundHalfEven(x, s);
            var err := if r * s >= x then r * s - x else x - r * s;
            var other := if n * s >= x then n * s - x else x - n * s;
            err <= other && (err == other && n != r ==> r % 2 == 0)
  {
    var q, r := x / s, x % s;
    assert x == q * s + r;
    assert (q + 1) * s == q * s + s;
    if n < q {
      ScaleUp(n, q - 1, s);
      assert (q - 1) * s == q * s - s;
    } else if n > q + 1 {
      ScaleUp(q + 2, n, s);
      assert (q + 2) * s == q * s + 2 * s;
    }
  }

  /** After some digits of x / s: what has been emitted and the remainder. */
  ghost predicate Emitted(ds: seq<Digit>, x: nat, s: nat, rem: nat) {
    ds != [] && rem < s && x * Pow(10, |ds| - 1) == Dec(ds) * s + rem
  }

  lemma FirstDigit(x: nat, s: nat)
    requires s > 0 && s <= x < 10 * s
    ensures 1 <= x / s <= 9 && Emitted([x / s], x, s, x % s)
  {
    var q, r := x / s, x % s;
    assert x == q * s + r;
    if q >= 10 { ScaleUp(10, q, s); }
    assert q >= 1;
    var d: Digit := q;
    assert [d][..0] == [];
    assert Pow(10, 0) == 1;
  }

  lemma NextDigit(ds: seq<Digit>, x: nat, s: nat, rem: nat)
    requires Emitted(ds, x, s, rem)
    ensures 0 <= (10 * rem) / s <= 9
    ensures Emitted(ds + [(10 * rem) / s], x, s, (10 * rem) % s)
  {
    hide Pow, Dec;
    var q, r := (10 * rem) / s, (10 * rem) % s;
    TenfoldRest(rem, s);
    DecSnoc(ds, q);
    PowGrows(10, |ds| - 1);
    var p, d := Pow(10, |ds| - 1), Dec(ds);
    Reorder(x, 10, p);
    TenfoldDigits(d, q, s);
  }

  lemma TenfoldRest(rem: nat, s: nat)
    requires rem < s
    ensures 0 <= (10 * rem) / s <= 9 && 10 * rem == (10 * rem) / s * s + (10 * rem) % s
  {
    QuotientBelow(10 * rem, s, 10);
  }

  lemma TenfoldDigits(d: nat, q: nat, s: nat)
    ensures (10 * d + q) * s == 10 * (d * s) + q * s
  {
  }

  /** The last digit decides the parity of the quotient. */
  lemma LastDigitParity(ds: seq<Digit>)
    requires ds != []
    ensures Dec(ds) % 2 == ds[|ds| - 1] % 2
  {
  }

  /** Emitted digits against the rounding of x * 10^(n-1) / s. */
  lemma RoundEmitted(ds: seq<Digit>, x: nat, s: nat, rem: nat)
    requires Emitted(ds, x, s, rem)
    ensures RoundHalfEven(x * Pow(10, |ds| - 1), s)
         == if 2 * rem > s || (2 * rem == s && ds[|ds| - 1] % 2 == 1) then Dec(ds) + 1 else Dec(ds)
  {
    hide Pow, Dec;
    LastDigitParity(ds);
    assert s * Dec(ds) == Dec(ds) * s;
    Distribute1(s, Dec(ds));
    QuotientUnique(x * Pow(10, |ds| - 1), s, Dec(ds));
  }

  lemma Distribute1(s: int, q: int)
    ensures s * (q + 1) == s * q + s
  {
  }

  /** An early exact end: the missing digits are zeros, and nothing is rounded. */
  lemma RoundExact(ds: seq<Digit>, x: nat, s: nat, n: nat)
    requires Emitted(ds, x, s, 0) && |ds| <= n
    ensures RoundHalfEven(x * Pow(10, n - 1), s) == Dec(ds) * Pow(10, n - |ds|)
  {
    hide Pow, Dec;
    var d, e := Dec(ds), n - |ds|;
    PowAdd(10, |ds| - 1, e);
    var p, q := Pow(10, |ds| - 1), Pow(10, e);
    assert x * (p * q) == (d * q) * s by {
      Associate(x, p, q);
      assert (d * s) * q == (d * q) * s;
    }
    assert s * (d * q) == (d * q) * s;
    Distribute1(s, d * q);
    QuotientUnique(x * Pow(10, n - 1), s, d * q);
  }

  /** No digit string of n digits reaches 10^n, and only the all-nines string is next to it. */
  lemma {:induction false} DecBound(ds: seq<Digit>)
    ensures Dec(ds) < Pow(10, |ds|)
    ensures (forall i | 0 <= i < |ds| :: ds[i] == 9) ==> Dec(ds) + 1 == Pow(10, |ds|)
  {
    if ds != [] {
      DecBound(ds[..|ds| - 1]);
    }
  }

  /** Zeros at the end of a digit string. */
  lemma {:induction false} DecZeros(ds: seq<Digit>, n: nat)
    requires n <= |ds| && forall i | n <= i < |ds| :: ds[i] == 0
    ensures Dec(ds) == Dec(ds[..n]) * Pow(10, |ds| - n)
    decreases |ds|
  {
    hide Pow;
    if n == |ds| {
      assert ds[..n] == ds;
      assert Pow(10, 0) == 1 by { PowZeroTen(); }
    } else {
      var t := ds[..|ds| - 1];
      DecZeros(t, n);
      assert t[..n] == ds[..n];
      PowGrows(10, |t| - n);
      Reorder(10, Dec(ds[..n]), Pow(10, |t| - n));
    }
  }

  lemma PowZeroTen()
    ensures Pow(10, 0) == 1
  {
  }

  /** Nines at the end of a digit string, plus one. */
  lemma {:induction false} DecNines(ds: seq<Digit>, n: nat)
    requires n <= |ds| && forall i | n <= i < |ds| :: ds[i] == 9
    ensures Dec(ds) + 1 == (Dec(ds[..n]) + 1) * Pow(10, |ds| - n)
    decreases |ds|
  {
    hide Pow;
    if n == |ds| {
      assert ds[..n] == ds;
      PowZeroTen();
    } else {
      var t := ds[..|ds| - 1];
      DecNines(t, n);
      assert t[..n] == ds[..n];
      PowGrows(10, |t| - n);
      Reorder(10, Dec(ds[..n]) + 1, Pow(10, |t| - n));
    }
  }

  /** What dtoa returns: digits without leading or trailing zeros, and the exponent. */
  ghost predicate Clean(ds: seq<Digit>) {
    ds != [] && ds[0] != 0 && ds[|ds| - 1] != 0
  }

  /** The digits `out`, with the exponent raised by `up`, denote the n-digit integer r. */
  ghost predicate Denotes(out: seq<Digit>, up: int, n: nat, r: nat) {
    0 <= up <= 1 && |out| <= n + up && Dec(out) * Pow(10, n + up - |out|) == r
  }

  /** The roundoff loop: one is added to the last digit, dropping the nines it carries
      over; all nines become a single one with the next exponent. */
  method RoundOff(ds: seq<Digit>) returns (out: seq<Digit>, up: int)
    requires ds != [] && ds[0] != 0
    ensures Clean(out) && Denotes(out, up, |ds|, Dec(ds) + 1)
  {
    hide Pow, Dec;
    var n: nat := |ds|;
    while n > 0 && ds[n - 1] == 9
      invariant n <= |ds| && forall i | n <= i < |ds| :: ds[i] == 9
    {
      n := n - 1;
    }
    DecNines(ds, n);
    if n == 0 {
      out, up := [1], 1;
      AllNines(ds);
    } else {
      var last: Digit := ds[n - 1] + 1;
      out, up := ds[..n - 1] + [last], 0;
      assert ds[..n] == ds[..n - 1] + [ds[n - 1]];
      DecSnoc(ds[..n - 1], last);
      DecSnoc(ds[..n - 1], ds[n - 1]);
    }
  }

  lemma AllNines(ds: seq<Digit>)
    requires Dec(ds) + 1 == (Dec(ds[..0]) + 1) * Pow(10, |ds| - 0)
    ensures Dec([1]) * Pow(10, |ds| + 1 - 1) == Dec(ds) + 1
  {
    var one: seq<Digit> := [1];
    assert one[..0] == [];
  }

  /** The trimming loop: zeros at the end are dropped. */
  method TrimZeros(ds: seq<Digit>) returns (out: seq<Digit>)
    requires ds != [] && ds[0] != 0
    ensures Clean(out) && Denotes(out, 0, |ds|, Dec(ds))
  {
    hide Pow, Dec;
    var n: nat := |ds|;
    while ds[n - 1] == 0
      invariant 1 <= n <= |ds| && forall i | n <= i < |ds| :: ds[i] == 0
      decreases n
    {
      n := n - 1;
    }
    DecZeros(ds, n);
    out := ds[..n];
  }

  /** A common factor does not change the rounding. */
  lemma RoundScale(x: nat, s: nat, c: nat)
    requires s > 0 && c > 0
    ensures s * c > 0 && RoundHalfEven(x * c, s * c) == RoundHalfEven(x, s)
  {
    var q, r := x / s, x % s;
    assert x == s * q + r;
    ScaleUp(1, c, s);
    assert s * c == c * s;
    assert x * c == (s * c) * q + r * c by {
      assert (s * q + r) * c == (s * q) * c + r * c;
      assert (s * q) * c == (s * c) * q;
    }
    ScaleUp(r + 1, s, c);
    ScaleUp(0, r, c);
    Distribute1(s * c, q);
    QuotientUnique(x * c, s * c, q);
    Ordering(2 * r, s, c);
    assert 2 * (r * c) == (2 * r) * c;
  }

  lemma Ordering(a: int, b: int, c: int)
    requires c > 0
    ensures a < b <==> a * c < b * c
    ensures a == b <==> a * c == b * c
  {
    if a < b { ScaleUp(a + 1, b, c); }
    if b < a { ScaleUp(b + 1, a, c); }
  }
}
