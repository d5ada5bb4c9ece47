/** Bitwise operations on natural numbers, defined bit by bit from the lowest. */
module Bits {
  import opened Bignum

  /** `a & b` */
  function And(a: nat, b: nat): nat {
    if a == 0 || b == 0 then 0 else 2 * And(a / 2, b / 2) + (if a % 2 == 1 && b % 2 == 1 then 1 else 0)
  }

  /** `a | b` */
  function Or(a: nat, b: nat): nat
    decreases a + b
  {
    if a == 0 then b else if b == 0 then a
    else 2 * Or(a / 2, b / 2) + (if a % 2 == 1 || b % 2 == 1 then 1 else 0)
  }

  /** `a ^ b` */
  function Xor(a: nat, b: nat): nat
    decreases a + b
  {
    if a == 0 then b else if b == 0 then a
    else 2 * Xor(a / 2, b / 2) + (if a % 2 != b % 2 then 1 else 0)
  }

  /** `a << n` in unbounded arithmetic */
  function Shl(a: nat, n: nat): nat { if n == 0 then a else 2 * Shl(a, n - 1) }

  /** `a >> n` */
  function Shr(a: nat, n: nat): nat { if n == 0 then a else Shr(a / 2, n - 1) }

  /** The low n bits of a. */
  function Low(a: nat, n: nat): (r: nat)
    ensures r < Pow(2, n)
  {
    if n == 0 then 0 else 2 * Low(a / 2, n - 1) + a % 2
  }

  /** The w bits of x from bit p on. */
  function Field(x: nat, p: nat, w: nat): nat { Low(Shr(x, p), w) }

  /** x with its w bits from bit p on replaced by those of v. */
  function Put(x: nat, p: nat, w: nat, v: nat): nat
    decreases p, w
  {
    if p > 0 then 2 * Put(x / 2, p - 1, w, v) + x % 2
    else if w > 0 then 2 * Put(x / 2, 0, w - 1, v / 2) + v % 2
    else x
  }

  // ---- one step ------------------------------------------------------------------------------

  lemma HalfAnd(a: nat, b: nat)
    ensures And(a, b) / 2 == And(a / 2, b / 2) && And(a, b) % 2 == (if a % 2 == 1 && b % 2 == 1 then 1 else 0)
  {
  }

  lemma HalfOr(a: nat, b: nat)
    ensures Or(a, b) / 2 == Or(a / 2, b / 2) && Or(a, b) % 2 == (if a % 2 == 1 || b % 2 == 1 then 1 else 0)
  {
  }

  lemma FieldTail(y: nat, b: nat, q: nat, u: nat)
    requires b < 2 && q > 0
    ensures Field(2 * y + b, q, u) == Field(y, q - 1, u)
  {
  }

  lemma FieldHead(y: nat, b: nat, u: nat)
    requires b < 2 && u > 0
    ensures Field(2 * y + b, 0, u) == 2 * Field(y, 0, u - 1) + b
  {
  }

  lemma FieldNone(x: nat, q: nat)
    ensures Field(x, q, 0) == 0
  {
  }

  lemma PutTail(y: nat, b: nat, p: nat, w: nat, v: nat)
    requires b < 2 && p > 0
    ensures Put(2 * y + b, p, w, v) == 2 * Put(y, p - 1, w, v) + b
  {
  }

  lemma PutHead(y: nat, b: nat, w: nat, v: nat)
    requires b < 2 && w > 0
    ensures Put(2 * y + b, 0, w, v) == 2 * Put(y, 0, w - 1, v / 2) + v % 2
  {
  }

  lemma PutNone(x: nat, v: nat)
    ensures Put(x, 0, 0, v) == x
  {
  }

  lemma LowHead(v: nat, w: nat)
    requires w > 0
    ensures Low(v, w) == 2 * Low(v / 2, w - 1) + v % 2
  {
  }

  lemma Halves(x: nat)
    ensures x == 2 * (x / 2) + x % 2 && x % 2 < 2
  {
  }

  /** A number with n bits below it, without its last bit. */
  lemma ShlHalf(r: nat, l: nat, n: nat)
    requires n > 0 && l < Pow(2, n)
    ensures Shl(r, n) + l == 2 * (Shl(r, n - 1) + l / 2) + l % 2 && l % 2 < 2 && l / 2 < Pow(2, n - 1)
  {
  }

  lemma NoShl(r: nat, l: nat)
    requires l < Pow(2, 0)
    ensures Shl(r, 0) + l == r && l == 0
  {
  }

  // ---- reading and writing fields --------------------------------------------------------------

  /** A field reads back what was put there, cut to its width. */
  lemma {:induction false} FieldOfPut(x: nat, p: nat, w: nat, v: nat)
    ensures Field(Put(x, p, w, v), p, w) == Low(v, w)
    decreases p, w
  {
    hide Field, Put, Low;
    Halves(x);
    Halves(v);
    if p > 0 {
      FieldOfPut(x / 2, p - 1, w, v);
      PutTail(x / 2, x % 2, p, w, v);
      FieldTail(Put(x / 2, p - 1, w, v), x % 2, p, w);
    } else if w > 0 {
      FieldOfPut(x / 2, 0, w - 1, v / 2);
      PutHead(x / 2, x % 2, w, v);
      FieldHead(Put(x / 2, 0, w - 1, v / 2), v % 2, w);
      LowHead(v, w);
    } else {
      FieldNone(Put(x, 0, 0, v), 0);
      LowNone(v);
    }
  }

  lemma LowNone(v: nat)
    ensures Low(v, 0) == 0
  {
  }

  /** A field that shares no bit with the one put keeps its value. */
  lemma {:induction false} OtherField(x: nat, p: nat, w: nat, v: nat, q: nat, u: nat)
    requires q + u <= p || p + w <= q
    ensures Field(Put(x, p, w, v), q, u) == Field(x, q, u)
    decreases p, w, q, u
  {
    hide Field, Put;
    Halves(x);
    Halves(v);
    if u == 0 {
      FieldNone(Put(x, p, w, v), q);
      FieldNone(x, q);
    } else if p == 0 && w == 0 {
      PutNone(x, v);
    } else {
      OtherFieldStep(x, p, w, v, q, u);
      if p == 0 {
        OtherField(x / 2, 0, w - 1, v / 2, q - 1, u);
      } else if q > 0 {
        OtherField(x / 2, p - 1, w, v, q - 1, u);
      } else {
        OtherField(x / 2, p - 1, w, v, 0, u - 1);
      }
    }
  }

  /** Both fields one bit further down. */
  lemma OtherFieldStep(x: nat, p: nat, w: nat, v: nat, q: nat, u: nat)
    requires (q + u <= p || p + w <= q) && u > 0 && (p > 0 || w > 0)
    ensures p == 0 ==> q > 0
    ensures var y := if p > 0 then Put(x / 2, p - 1, w, v) else Put(x / 2, 0, w - 1, v / 2);
            && (q > 0 ==>
                  Field(Put(x, p, w, v), q, u) == Field(y, q - 1, u)
                  && Field(x, q, u) == Field(x / 2, q - 1, u))
            && (q == 0 ==> Field(Put(x, p, w, v), 0, u) == 2 * Field(y, 0, u - 1) + x % 2
                           && Field(x, 0, u) == 2 * Field(x / 2, 0, u - 1) + x % 2)
  {
    hide Field, Put;
    Halves(x);
    Halves(v);
    var y := if p > 0 then Put(x / 2, p - 1, w, v) else Put(x / 2, 0, w - 1, v / 2);
    var b := if p > 0 then x % 2 else v % 2;
    if p > 0 { PutTail(x / 2, x % 2, p, w, v); } else { PutHead(x / 2, x % 2, w, v); }
    if q > 0 {
      FieldTail(y, b, q, u);
      FieldTail(x / 2, x % 2, q, u);
    } else {
      FieldHead(y, b, u);
      FieldHead(x / 2, x % 2, u);
    }
  }

  /** `(1 << n) - 1`, without its last bit. */
  lemma LowMask(n: nat)
    requires n > 0
    ensures (Pow(2, n) - 1) / 2 == Pow(2, n - 1) - 1 && (Pow(2, n) - 1) % 2 == 1
  {
  }

  /** `x & ((1 << n) - 1)` */
  lemma {:induction false} AndLow(x: nat, n: nat)
    ensures And(x, Pow(2, n) - 1) == Low(x, n)
  {
    hide And, Low, Pow;
    if n > 0 {
      AndLow(x / 2, n - 1);
      LowMask(n);
      HalfAnd(x, Pow(2, n) - 1);
      LowHead(x, n);
      Halves(And(x, Pow(2, n) - 1));
    } else {
      AndZero(x);
      LowNone(x);
    }
  }

  lemma AndZero(x: nat)
    ensures And(x, 0) == 0 && Pow(2, 0) == 1
  {
  }

  /** `x & (1 << n)` */
  lemma {:induction false} AndBit(x: nat, n: nat)
    ensures And(x, Pow(2, n)) != 0 <==> Field(x, n, 1) == 1
  {
    hide And, Field, Pow;
    BitMask(n);
    HalfAnd(x, Pow(2, n));
    Halves(x);
    Halves(And(x, Pow(2, n)));
    if n > 0 {
      AndBit(x / 2, n - 1);
      FieldTail(x / 2, x % 2, n, 1);
    } else {
      FieldHead(x / 2, x % 2, 1);
      FieldNone(x / 2, 0);
      AndZero(x / 2);
    }
  }

  lemma BitMask(n: nat)
    ensures Pow(2, n) / 2 == (if n > 0 then Pow(2, n - 1) else 0) && Pow(2, n) % 2 == (if n > 0 then 0 else 1)
  {
  }

  lemma {:induction false} Pow2Grows(m: nat, n: nat)
    requires m <= n
    ensures Pow(2, m) <= Pow(2, n)
  {
    if m < n { Pow2Grows(m, n - 1); }
  }

  lemma HalfMasked(val: nat, x: nat, hi: nat, low: nat)
    ensures var r := Or(val, And(x, Or(hi, low)));
            && r / 2 == Or(val / 2, And(x / 2, Or(hi / 2, low / 2)))
            && r % 2 == (if val % 2 == 1 || (x % 2 == 1 && (hi % 2 == 1 || low % 2 == 1)) then 1 else 0)
  {
    hide And, Or;
    HalfOr(hi, low);
    HalfAnd(x, Or(hi, low));
    HalfOr(val, And(x, Or(hi, low)));
  }

  function Masked(x: nat, p: nat, w: nat, v: nat, n: nat): nat
    requires p + w <= n
  {
    Pow2Grows(p + w, n);
    Or(Shl(Low(v, w), p), And(x, Or(Pow(2, n) - Pow(2, p + w), Pow(2, p) - 1)))
  }

  /** The masked read-modify-write of an n-bit word puts the field. */
  lemma {:induction false} MaskedWrite(x: nat, p: nat, w: nat, v: nat, n: nat)
    requires x < Pow(2, n) && p + w <= n
    ensures Masked(x, p, w, v, n) == Put(x, p, w, v)
    decreases n
  {
    hide And, Or, Masked;
    if p > 0 {
      MaskedWrite(x / 2, p - 1, w, v, n - 1);
      MaskedBelow(x, p, w, v, n);
    } else if w > 0 {
      MaskedWrite(x / 2, 0, w - 1, v / 2, n - 1);
      MaskedWithin(x, w, v, n);
    } else if n > 0 {
      MaskedWrite(x / 2, 0, 0, v, n - 1);
      MaskedOver(x, v, n);
    } else {
      NoBits(v);
    }
  }

  lemma MaskedBelow(x: nat, p: nat, w: nat, v: nat, n: nat)
    requires 0 < p && p + w <= n
    ensures Masked(x, p, w, v, n) == 2 * Masked(x / 2, p - 1, w, v, n - 1) + x % 2
  {
    hide And, Or;
    Pow2Grows(p + w, n);
    HalfMasked(Shl(Low(v, w), p), x, Pow(2, n) - Pow(2, p + w), Pow(2, p) - 1);
  }

  lemma MaskedWithin(x: nat, w: nat, v: nat, n: nat)
    requires 0 < w <= n
    ensures Masked(x, 0, w, v, n) == 2 * Masked(x / 2, 0, w - 1, v / 2, n - 1) + v % 2
  {
    hide And, Or;
    Pow2Grows(w, n);
    HalfMasked(Low(v, w), x, Pow(2, n) - Pow(2, w), 0);
  }

  lemma MaskedOver(x: nat, v: nat, n: nat)
    requires 0 < n
    ensures Masked(x, 0, 0, v, n) == 2 * Masked(x / 2, 0, 0, v, n - 1) + x % 2
  {
    hide And, Or;
    HalfMasked(0, x, Pow(2, n) - 1, 0);
  }

  lemma NoBits(v: nat)
    ensures Masked(0, 0, 0, v, 0) == 0
  {
  }

  /** A field above the n low bits is put in what lies above them. */
  lemma {:induction false} PutAbove(r: nat, l: nat, n: nat, p: nat, w: nat, v: nat)
    requires l < Pow(2, n)
    ensures Put(Shl(r, n) + l, n + p, w, v) == Shl(Put(r, p, w, v), n) + l
    decreases n
  {
    hide Put, Shl, Pow;
    if n > 0 {
      ShlHalf(r, l, n);
      ShlHalf(Put(r, p, w, v), l, n);
      PutAbove(r, l / 2, n - 1, p, w, v);
      PutTail(Shl(r, n - 1) + l / 2, l % 2, n + p, w, v);
    } else {
      NoShl(r, l);
      NoShl(Put(r, p, w, v), l);
    }
  }

  /** A field within the n low bits leaves what lies above them. */
  lemma {:induction false} PutBelow(r: nat, l: nat, n: nat, p: nat, w: nat, v: nat)
    requires l < Pow(2, n) && p + w <= n
    ensures Put(Shl(r, n) + l, p, w, v) == Shl(r, n) + Put(l, p, w, v)
    decreases n
  {
    hide Put, Shl, Pow;
    if p == 0 && w == 0 {
      PutNone(Shl(r, n) + l, v);
      PutNone(l, v);
    } else {
      ShlHalf(r, l, n);
      ShlHalf(r, 0, n);
      Halves(l);
      if p > 0 {
        PutBelow(r, l / 2, n - 1, p - 1, w, v);
        PutTail(Shl(r, n - 1) + l / 2, l % 2, p, w, v);
        PutTail(l / 2, l % 2, p, w, v);
      } else {
        PutBelow(r, l / 2, n - 1, 0, w - 1, v / 2);
        PutHead(Shl(r, n - 1) + l / 2, l % 2, w, v);
        PutHead(l / 2, l % 2, w, v);
      }
    }
  }

  lemma {:induction false} PutBound(l: nat, n: nat, p: nat, w: nat, v: nat)
    requires l < Pow(2, n) && p + w <= n
    ensures Put(l, p, w, v) < Pow(2, n)
    decreases n
  {
    hide Put;
    if p == 0 && w == 0 {
      PutNone(l, v);
    } else {
      Halves(l);
      Halves(v);
      if p > 0 {
        PutBound(l / 2, n - 1, p - 1, w, v);
        PutTail(l / 2, l % 2, p, w, v);
      } else {
        PutBound(l / 2, n - 1, 0, w - 1, v / 2);
        PutHead(l / 2, l % 2, w, v);
      }
    }
  }

  /** A field within the n low bits is read from them alone. */
  lemma {:induction false} FieldBelow(r: nat, l: nat, n: nat, p: nat, w: nat)
    requires l < Pow(2, n) && p + w <= n
    ensures Field(Shl(r, n) + l, p, w) == Field(l, p, w)
    decreases n
  {
    hide Field, Shl, Pow;
    if w == 0 {
      FieldNone(Shl(r, n) + l, p);
      FieldNone(l, p);
    } else {
      ShlHalf(r, l, n);
      Halves(l);
      if p > 0 {
        FieldBelow(r, l / 2, n - 1, p - 1, w);
        FieldTail(Shl(r, n - 1) + l / 2, l % 2, p, w);
        FieldTail(l / 2, l % 2, p, w);
      } else {
        FieldBelow(r, l / 2, n - 1, 0, w - 1);
        FieldHead(Shl(r, n - 1) + l / 2, l % 2, w);
        FieldHead(l / 2, l % 2, w);
      }
    }
  }

  lemma {:induction false} FieldAbove(r: nat, l: nat, n: nat, p: nat, w: nat)
    requires l < Pow(2, n)
    ensures Field(Shl(r, n) + l, n + p, w) == Field(r, p, w)
    decreases n
  {
    hide Field, Shl, Pow;
    if n > 0 {
      ShlHalf(r, l, n);
      FieldAbove(r, l / 2, n - 1, p, w);
      FieldTail(Shl(r, n - 1) + l / 2, l % 2, n + p, w);
    } else {
      NoShl(r, l);
    }
  }

  /** `x & ~((1 << n) - 1)` in a word of m bits rounds down to a multiple of 1 << n. */
  lemma {:induction false} AndHigh(x: nat, n: nat, m: nat)
    requires n <= m && x < Pow(2, m)
    ensures Pow(2, n) <= Pow(2, m) && And(x, Pow(2, m) - Pow(2, n)) == x - Low(x, n)
  {
    hide And;
    Pow2Grows(n, m);
    HalfAnd(x, Pow(2, m) - Pow(2, n));
    if n > 0 {
      AndHigh(x / 2, n - 1, m - 1);
    } else {
      AndLow(x, m);
      LowAll(x, m);
    }
  }

  lemma {:induction false} LowAll(x: nat, n: nat)
    requires x < Pow(2, n)
    ensures Low(x, n) == x
  {
    if n > 0 { LowAll(x / 2, n - 1); }
  }

  // ---- shifts ------------------------------------------------------------------------------------

  /** Shifts are products and quotients. */
  lemma {:induction false} ShlIsTimes(x: nat, n: nat)
    ensures Shl(x, n) == x * Pow(2, n)
  {
    if n > 0 {
      ShlIsTimes(x, n - 1);
      TwiceProduct(x, Pow(2, n - 1));
    }
  }

  lemma TwiceProduct(x: nat, p: nat)
    ensures x * (2 * p) == 2 * (x * p)
  {
  }

  lemma {:induction false} ShrIsQuotient(x: nat, n: nat)
    ensures Shr(x, n) == x / Pow(2, n)
  {
    if n > 0 {
      ShrIsQuotient(x / 2, n - 1);
      HalfOfQuotient(x, Pow(2, n - 1));
    }
  }

  lemma HalfOfQuotient(x: nat, p: nat)
    requires p > 0
    ensures x / 2 / p == x / (2 * p)
  {
    var h := x / 2;
    var q := h / p;
    assert h == p * q + h % p;
    assert (2 * p) * q == 2 * (p * q) && (2 * p) * (q + 1) == 2 * (p * q) + 2 * p;
    QuotientUnique(x, 2 * p, q);
  }
}
