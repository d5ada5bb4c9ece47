/** Little-endian strings of 32-bit words and the integers they denote, with the carry and
    borrow steps of dtoa.c as lemmas about those integers. */
module Bignum {

  const BASE: int := 0x1_0000_0000

  type Word = w: int | 0 <= w < BASE

  function Pow(b: nat, e: nat): (r: nat)
    ensures b >= 1 ==> r >= 1
  {
    if e == 0 then 1 else b * Pow(b, e - 1)
  }

  lemma PowGrows(b: nat, e: nat)
    requires b >= 1
    ensures Pow(b, e + 1) == b * Pow(b, e) && Pow(b, e) >= 1
  {
  }

  lemma {:induction false} PowAdd(b: nat, e: nat, f: nat)
    ensures Pow(b, e + f) == Pow(b, e) * Pow(b, f)
  {
    if e > 0 {
      PowAdd(b, e - 1, f);
      Associate(b, Pow(b, e - 1), Pow(b, f));
    }
  }

  lemma {:induction false} PowMul(b: nat, e: nat, f: nat)
    ensures Pow(Pow(b, e), f) == Pow(b, e * f)
  {
    if f == 0 {
      assert e * f == 0;
    } else {
      PowMul(b, e, f - 1);
      PowAdd(b, e, e * (f - 1));
      assert e * f == e + e * (f - 1);
    }
  }

  /** Squaring halves the exponent. */
  lemma PowHalf(p: nat, k: nat)
    ensures Pow(p, k) == (if k % 2 == 1 then p else 1) * Pow(p * p, k / 2)
  {
    var h := k / 2;
    PowMul(p, 2, h);
    assert Pow(p, 2) == p * Pow(p, 1) == p * p;
    if k % 2 == 1 {
      assert k == 2 * h + 1;
    } else {
      assert k == 2 * h;
    }
  }

  /** The weight of word `i`. */
  function Weight(i: nat): (r: nat)
    ensures r >= 1
  {
    if i == 0 then 1 else BASE * Weight(i - 1)
  }

  function Val(s: seq<Word>): nat {
    if s == [] then 0 else Val(s[..|s| - 1]) + s[|s| - 1] * Weight(|s| - 1)
  }

  lemma ValSnoc(s: seq<Word>, w: Word)
    ensures Val(s + [w]) == Val(s) + w * Weight(|s|)
  {
    assert (s + [w])[..|s|] == s;
  }

  /** One more word of a prefix. */
  lemma ValNext(s: seq<Word>, i: nat)
    requires i < |s|
    ensures Val(s[..i + 1]) == Val(s[..i]) + s[i] * Weight(i)
  {
    assert s[..i + 1] == s[..i] + [s[i]];
    ValSnoc(s[..i], s[i]);
  }

  lemma {:induction false} ValBound(s: seq<Word>)
    ensures Val(s) < Weight(|s|)
  {
    if s != [] {
      var n := |s| - 1;
      ValBound(s[..n]);
      var x: int, w := s[n], Weight(n);
      assert x * w + w <= BASE * w by { ScaleUp(x + 1, BASE, w); }
    }
  }

  lemma ScaleUp(a: int, b: int, p: int)
    requires a <= b && 0 <= p
    ensures a * p <= b * p
  {
  }

  /** Leading zero words do not count. */
  lemma {:induction false} ValZeros(s: seq<Word>, n: nat)
    requires n <= |s| && forall i | n <= i < |s| :: s[i] == 0
    ensures Val(s) == Val(s[..n])
    decreases |s|
  {
    if n == |s| {
      assert s[..n] == s;
    } else {
      var t := s[..|s| - 1];
      ValZeros(t, n);
      assert t[..n] == s[..n];
    }
  }

  lemma {:induction false} WeightAdd(i: nat, j: nat)
    ensures Weight(i + j) == Weight(i) * Weight(j)
  {
    if i > 0 {
      WeightAdd(i - 1, j);
      Associate(BASE, Weight(i - 1), Weight(j));
    }
  }

  lemma Associate(a: int, b: int, c: int)
    ensures a * (b * c) == (a * b) * c
  {
  }

  lemma Reorder(a: int, b: int, c: int)
    ensures a * (b * c) == b * (a * c)
  {
  }

  /** Splitting at word `i`. */
  lemma {:induction false} ValSplit(s: seq<Word>, i: nat)
    requires i <= |s|
    ensures Val(s) == Val(s[..i]) + Weight(i) * Val(s[i..])
    decreases |s| - i
  {
    hide Weight, Val;
    if i == |s| {
      assert s[..i] == s && s[i..] == [];
      NoVal();
    } else {
      var n := |s| - 1;
      var t, w := s[..n], s[n];
      var x: int := w;
      SliceSnoc(s, i);
      ValSnoc(t, w);
      ValSplit(t, i);
      ValSnoc(t[i..], w);
      WeightAdd(i, n - i);
      SplitArith(Weight(i), Val(t[i..]), x, Weight(n - i));
    }
  }

  lemma NoVal()
    ensures Val([]) == 0
  {
  }

  lemma SliceSnoc(s: seq<Word>, i: nat)
    requires i < |s|
    ensures var n := |s| - 1;
            s == s[..n] + [s[n]] && s[..n][..i] == s[..i] && s[i..] == s[..n][i..] + [s[n]] && |s[..n][i..]| == n - i
  {
  }

  lemma SplitArith(a: int, v: int, x: int, w: int)
    ensures a * v + x * (a * w) == a * (v + x * w)
  {
    assert x * (a * w) == a * (x * w);
  }

  // ---- carry steps ------------------------------------------------------------------

  /** One step of multiplying by a single word with a carry (multadd, mult, quorem). */
  lemma CarryStep(done: int, source: int, m: int, x: int, addend: int, carry: int, y: int, p: int)
    requires y == x * m + carry
    requires done + carry * p == source * m + addend
    ensures (done + (y % BASE) * p) + (y / BASE) * (BASE * p) == (source + x * p) * m + addend
  {
    var q, r := y / BASE, y % BASE;
    assert y == q * BASE + r;
    assert r * p + q * (BASE * p) == y * p by { Spread(q, BASE, r, p); }
    assert (x * m + carry) * p == (x * p) * m + carry * p by { Spread2(x, m, carry, p); }
    assert (source + x * p) * m == source * m + (x * p) * m;
  }

  lemma Spread(q: int, b: int, r: int, p: int)
    ensures r * p + q * (b * p) == (q * b + r) * p
  {
    Associate(q, b, p);
  }

  lemma Spread2(x: int, m: int, c: int, p: int)
    ensures (x * m + c) * p == (x * p) * m + c * p
  {
    assert (x * m) * p == (x * p) * m;
  }

  /** One step of a subtraction with a borrow (diff, quorem): `y` is the difference as a
      64-bit unsigned number, of which bit 32 is the borrow. */
  lemma BorrowStep(done: int, a: int, b: int, x: int, s: int, borrow: int, borrow': int, w: int, p: int)
    requires done - borrow * p == a - b
    requires x - s - borrow == w - borrow' * BASE
    ensures (done + w * p) - borrow' * (BASE * p) == (a + x * p) - (b + s * p)
  {
    assert w == x - s - borrow + borrow' * BASE;
    assert w * p == x * p - s * p - borrow * p + borrow' * BASE * p;
    Associate(borrow', BASE, p);
  }

  /** Two's complement subtraction on 64 bits: bit 32 of the result is 1 exactly when the
      difference is negative. */
  function Sub64(x: int): int { x % 0x1_0000_0000_0000_0000 }

  lemma BorrowBit(x: Word, s: Word, borrow: int)
    requires borrow == 0 || borrow == 1
    ensures var y := Sub64(x - s - borrow);
            var b' := (y / BASE) % 2;
            && (b' == 0 || b' == 1)
            && x - s - borrow == y % BASE - b' * BASE
  {
    var d := x - s - borrow;
    if d < 0 {
      assert Sub64(d) == d + 0x1_0000_0000_0000_0000;
      assert Sub64(d) / BASE == BASE - 1;
    } else {
      assert Sub64(d) == d;
    }
  }

  /** The state of a carry loop after `i` words: `cur` holds the low words of
      source * m + addend, and the carry what is left of them. */
  ghost predicate Carried(source: seq<Word>, cur: seq<Word>, m: int, addend: int, carry: int, i: nat) {
    && i <= |source| == |cur|
    && cur[i..] == source[i..]
    && Val(cur[..i]) + carry * Weight(i) == Val(source[..i]) * m + addend
  }

  lemma CarriedStart(source: seq<Word>, m: int, addend: int)
    ensures Carried(source, source, m, addend, addend, 0)
  {
  }

  lemma CarriedStep(source: seq<Word>, cur: seq<Word>, m: int, addend: int, carry: int, i: nat)
    requires Carried(source, cur, m, addend, carry, i) && i < |source|
    ensures var y := cur[i] * m + carry;
            Carried(source, cur[i := y % BASE], m, addend, y / BASE, i + 1)
  {
    hide Val, Weight;
    var y: int := cur[i] * m + carry;
    var cur' := cur[i := y % BASE];
    assert source[i] == source[i..][0] == cur[i..][0] == cur[i];
    ValNext(source, i);
    ValNext(cur', i);
    assert cur'[..i] == cur[..i];
    CarryStep(Val(cur[..i]), Val(source[..i]), m, source[i], addend, carry, y, Weight(i));
    WeightNext(i);
    assert cur'[i + 1..] == cur[i..][1..] == source[i..][1..] == source[i + 1..];
  }

  lemma CarriedEnd(source: seq<Word>, cur: seq<Word>, m: int, addend: int, carry: int)
    requires Carried(source, cur, m, addend, carry, |source|)
    ensures Val(cur) + carry * Weight(|cur|) == Val(source) * m + addend
  {
    assert cur[..|source|] == cur && source[..|source|] == source;
  }

  lemma WeightNext(i: nat)
    ensures Weight(i + 1) == BASE * Weight(i)
  {
  }

  /** The size of the carry when multiplying by a C `int`. */
  lemma CarryBound(x: Word, m: int, carry: int)
    requires 0 <= m < 0x8000_0000 && 0 <= carry < 0x8000_0000
    ensures 0 <= x * m + carry < 0x1_0000_0000_0000_0000
    ensures 0 <= (x * m + carry) / BASE < 0x8000_0000
  {
    ScaleUp(x, BASE - 1, m);
    assert 0 <= x * m <= (BASE - 1) * m;
    assert x * m + carry < BASE * 0x8000_0000;
  }

  // ---- rows of a product --------------------------------------------------------------

  /** The state of the inner loop of mult: the window of `cur` at `j` holds the low words
      of the old window plus a[..i] * y; everything else is as it was. */
  ghost predicate RowProgress(start: seq<Word>, cur: seq<Word>, a: seq<Word>, y: int, carry: int, j: nat, i: nat) {
    && |cur| == |start| && i <= |a| && j + |a| < |start|
    && (forall k | 0 <= k < |start| && !(j <= k < j + i) :: cur[k] == start[k])
    && Val(cur[j..j + i]) + carry * Weight(i) == Val(start[j..j + i]) + Val(a[..i]) * y
  }

  lemma RowStart(start: seq<Word>, a: seq<Word>, y: int, j: nat)
    requires j + |a| < |start|
    ensures RowProgress(start, start, a, y, 0, j, 0)
  {
  }

  lemma WindowNext(s: seq<Word>, j: nat, i: nat)
    requires j + i < |s|
    ensures Val(s[j..j + i + 1]) == Val(s[j..j + i]) + s[j + i] * Weight(i)
  {
    assert s[j..j + i + 1] == s[j..j + i] + [s[j + i]];
    ValSnoc(s[j..j + i], s[j + i]);
  }

  lemma RowStep(start: seq<Word>, cur: seq<Word>, a: seq<Word>, y: int, carry: int, j: nat, i: nat)
    requires RowProgress(start, cur, a, y, carry, j, i) && i < |a|
    ensures var z := a[i] * y + cur[j + i] + carry;
            RowProgress(start, cur[j + i := z % BASE], a, y, z / BASE, j, i + 1)
  {
    hide Val, Weight;
    var z: int := a[i] * y + cur[j + i] + carry;
    var cur' := cur[j + i := z % BASE];
    WindowNext(start, j, i);
    WindowNext(cur', j, i);
    assert cur'[j..j + i] == cur[j..j + i];
    ValNext(a, i);
    WeightNext(i);
    RowArith(Val(cur[j..j + i]), Val(start[j..j + i]), Val(a[..i]), a[i], y, start[j + i], carry, z, Weight(i));
  }

  lemma RowArith(done: int, was: int, source: int, x: int, y: int, s: int, carry: int, z: int, p: int)
    requires done + carry * p == was + source * y
    requires z == x * y + s + carry
    ensures (done + (z % BASE) * p) + (z / BASE) * (BASE * p) == (was + s * p) + (source + x * p) * y
  {
    var q, r := z / BASE, z % BASE;
    assert z == q * BASE + r;
    Spread(q, BASE, r, p);
    Spread2(x, y, s + carry, p);
    assert (s + carry) * p == s * p + carry * p;
    assert (source + x * p) * y == source * y + (x * p) * y;
  }

  /** Bounds that keep the 64-bit intermediate of mult from overflowing. */
  lemma RowBound(x: Word, y: Word, s: Word, carry: Word)
    ensures 0 <= x * y + s + carry < 0x1_0000_0000_0000_0000
    ensures 0 <= (x * y + s + carry) / BASE < BASE
  {
    var a: int, b: int, z: int := x, y, x * y;
    ScaleUp(0, a, b);
    ScaleUp(a, BASE - 1, b);
    HighWord(z + s + carry);
  }

  lemma HighWord(z: int)
    requires 0 <= z < 0x1_0000_0000_0000_0000
    ensures 0 <= z / BASE < BASE
  {
  }

  lemma WindowSplit(s: seq<Word>, j: nat, n: nat)
    requires j + n <= |s|
    ensures Val(s[..j + n]) == Val(s[..j]) + Weight(j) * Val(s[j..j + n])
  {
    hide Val, Weight;
    var t := s[..j + n];
    ValSplit(t, j);
    assert t[..j] == s[..j] && t[j..] == s[j..j + n];
  }

  lemma RowFacts(start: seq<Word>, cur: seq<Word>, a: seq<Word>, y: int, carry: int, j: nat)
    requires RowProgress(start, cur, a, y, carry, j, |a|)
    ensures |cur| == |start| > j + |a| && cur[..j] == start[..j]
    ensures Val(cur[j..j + |a|]) + carry * Weight(|a|) == Val(start[j..j + |a|]) + Val(a) * y
  {
    hide Val, Weight;
    assert a[..|a|] == a;
  }

  /** A finished row adds a * y at weight j. */
  lemma RowEnd(start: seq<Word>, cur: seq<Word>, a: seq<Word>, y: int, carry: Word, j: nat)
    requires RowProgress(start, cur, a, y, carry, j, |a|)
    ensures var top := j + |a|;
            Val(cur[top := carry][..top + 1]) == Val(start[..top]) + (Val(a) * y) * Weight(j)
  {
    hide Val, Weight, RowProgress;
    RowFacts(start, cur, a, y, carry, j);
    var top := j + |a|;
    assert cur[top := carry][..top + 1] == cur[..top] + [carry];
    ValSnoc(cur[..top], carry);
    WindowSplit(cur, j, |a|);
    WindowSplit(start, j, |a|);
    WeightAdd(j, |a|);
    RowEndArith(Weight(j), Val(cur[j..top]), Val(start[j..top]), carry, Weight(|a|), Val(a) * y);
  }

  lemma RowEndArith(w: int, v: int, u: int, c: int, p: int, t: int)
    requires v + c * p == u + t
    ensures w * v + c * (w * p) == w * u + t * w
  {
    assert w * (v + c * p) == w * v + c * (w * p) by {
      assert w * (v + c * p) == w * v + w * (c * p);
      Reorder(w, c, p);
    }
    assert w * (u + t) == w * u + t * w;
  }

  /** One more word of the multiplier. */
  lemma ProductStep(a: int, b: seq<Word>, j: nat, before: int, after: int)
    requires j < |b| && before == a * Val(b[..j])
    requires after == before + (a * b[j]) * Weight(j)
    ensures after == a * Val(b[..j + 1])
  {
    hide Val, Weight;
    ValNext(b, j);
    var x: int, v, w := b[j], Val(b[..j]), Weight(j);
    assert a * (v + x * w) == a * v + (a * x) * w by {
      Associate(a, x, w);
    }
  }

  /** Without leading zero words, the number of words is determined by the value. */
  lemma TopWord(s: seq<Word>)
    requires s != []
    ensures s[|s| - 1] != 0 <==> Val(s) >= Weight(|s| - 1)
    ensures Val(s) >= s[|s| - 1] * Weight(|s| - 1)
    ensures Val(s) < (s[|s| - 1] as int + 1) * Weight(|s| - 1)
  {
    hide Weight;
    var n := |s| - 1;
    ValBound(s[..n]);
    var x: int, w := s[n], Weight(n);
    if x != 0 {
      ScaleUp(1, x, w);
    }
    assert (x + 1) * w == x * w + w;
  }

  // ---- division by a deliberate underestimate -----------------------------------------

  /** The state of the subtracting loop of quorem after `i` words: `cur` holds the low
      words of b - s * q, up to what the carry and the borrow still owe. */
  ghost predicate Reduced(b: seq<Word>, cur: seq<Word>, s: seq<Word>, q: int, carry: int, borrow: int, i: nat) {
    && i <= |b| == |cur| == |s|
    && cur[i..] == b[i..]
    && (borrow == 0 || borrow == 1)
    && Val(cur[..i]) - borrow * Weight(i) == Val(b[..i]) - (Val(s[..i]) * q - carry * Weight(i))
  }

  lemma ReducedStart(b: seq<Word>, s: seq<Word>, q: int)
    requires |b| == |s|
    ensures Reduced(b, b, s, q, 0, 0, 0)
  {
  }

  lemma ReducedStep(b: seq<Word>, cur: seq<Word>, s: seq<Word>, q: int, carry: int, borrow: int, i: nat)
    requires Reduced(b, cur, s, q, carry, borrow, i) && i < |b|
    ensures var ys := s[i] * q + carry;
            var y := Sub64(cur[i] - ys % BASE - borrow);
            Reduced(b, cur[i := y % BASE], s, q, ys / BASE, (y / BASE) % 2, i + 1)
  {
    hide Val, Weight, Sub64;
    var ys: int := s[i] * q + carry;
    var y := Sub64(cur[i] - ys % BASE - borrow);
    var cur' := cur[i := y % BASE];
    assert b[i] == b[i..][0] == cur[i..][0] == cur[i];
    ValNext(b, i);
    ValNext(s, i);
    ValNext(cur', i);
    assert cur'[..i] == cur[..i];
    WeightNext(i);
    BorrowBit(cur[i], ys % BASE, borrow);
    var p, v := Weight(i), Val(s[..i]);
    CarryStep(v * q - carry * p, v, q, s[i], 0, carry, ys, p);
    BorrowStep(Val(cur[..i]), Val(b[..i]), v * q - carry * p, b[i], ys % BASE, borrow, (y / BASE) % 2, y % BASE, p);
    assert cur'[i + 1..] == cur[i..][1..] == b[i..][1..] == b[i + 1..];
  }

  /** When the product is not larger, nothing is owed at the end. */
  lemma ReducedEnd(b: seq<Word>, cur: seq<Word>, s: seq<Word>, q: int, carry: int, borrow: int)
    requires Reduced(b, cur, s, q, carry, borrow, |b|) && Val(s) * q <= Val(b) && q >= 0 && carry >= 0
    ensures Val(cur) == Val(b) - Val(s) * q
  {
    hide Val, Weight, Reduced;
    ReducedAll(b, cur, s, q, carry, borrow);
    ValBound(b);
    ValBound(cur);
    ScaleUp(0, Val(s), q);
    OwesNothing(Val(cur), Val(b), Val(s) * q, carry, borrow, Weight(|b|));
  }

  lemma ReducedAll(b: seq<Word>, cur: seq<Word>, s: seq<Word>, q: int, carry: int, borrow: int)
    requires Reduced(b, cur, s, q, carry, borrow, |b|)
    ensures |cur| == |b| && Val(cur) - borrow * Weight(|b|) == Val(b) - (Val(s) * q - carry * Weight(|b|))
  {
    hide Val, Weight;
    assert cur[..|b|] == cur && b[..|b|] == b && s[..|b|] == s;
  }

  lemma SumTimes(a: int, b: int, w: int)
    ensures (a + b) * w == a * w + b * w
  {
  }

  lemma OwesNothing(v: int, b: int, t: int, carry: int, borrow: int, w: int)
    requires 0 <= v < w && 0 <= b - t < w
    requires v - borrow * w == b - (t - carry * w)
    ensures v == b - t
  {
    var k := carry + borrow;
    SumTimes(carry, borrow, w);
    if k >= 1 { ScaleUp(1, k, w); }
    if k <= -1 { ScaleUp(k, -1, w); }
  }

  /** The quotient estimate from the top words is never too large, and short by at most
      one, when the divisor's top word has exactly four leading zero bits. */
  lemma EstimateClose(b: int, s: int, bt: int, st: int, w: int)
    requires 0x800_0000 <= st < 0x1000_0000 && 0 <= bt < BASE && w >= 1
    requires bt * w <= b < (bt + 1) * w && st * w <= s < (st + 1) * w
    ensures var q := bt / (st + 1); 0 <= q <= 32 && s * q <= b < s * (q + 2)
  {
    var q := bt / (st + 1);
    QuotientBelow(bt, st + 1, 33);
    NextTimes(q, st + 1);
    EstimateLow(b, s, bt, st, w, q);
    EstimateHigh(b, s, bt, st, w, q);
  }

  lemma NextTimes(q: int, d: int)
    ensures (q + 1) * d == q * d + d
  {
  }

  lemma EstimateLow(b: int, s: int, bt: int, st: int, w: int, q: int)
    requires q >= 0 && w >= 1 && q * (st + 1) <= bt && bt * w <= b && s < (st + 1) * w
    ensures s * q <= b
  {
    ScaleUp(s, (st + 1) * w, q);
    assert ((st + 1) * w) * q == (q * (st + 1)) * w;
    ScaleUp(q * (st + 1), bt, w);
  }

  lemma EstimateHigh(b: int, s: int, bt: int, st: int, w: int, q: int)
    requires 0 <= q <= 32 && bt < (q + 1) * (st + 1) && st >= 0x800_0000 && w >= 1
    requires b < (bt + 1) * w && st * w <= s
    ensures b < s * (q + 2)
  {
    assert (q + 1) * (st + 1) <= (q + 2) * st;
    ScaleUp(bt + 1, (q + 2) * st, w);
    ScaleUp(st * w, s, q + 2);
    assert (st * w) * (q + 2) == ((q + 2) * st) * w;
  }

  /** A bound on a quotient. */
  lemma QuotientBelow(x: nat, s: nat, m: nat)
    requires s > 0 && x < m * s
    ensures x / s < m && x == x / s * s + x % s && x % s < s
  {
    var q := x / s;
    DivisionOf(x, s);
    if q >= m { ScaleUp(m, q, s); }
  }

  lemma DivisionOf(x: nat, s: nat)
    requires s > 0
    ensures x == x / s * s + x % s && 0 <= x % s < s && x / s >= 0
  {
    Commute(s, x / s);
  }

  lemma Commute(a: int, b: int)
    ensures a * b == b * a
  {
  }

  /** Euclidean division is determined by its bounds. */
  lemma QuotientUnique(b: int, s: int, q: int)
    requires s > 0 && s * q <= b < s * (q + 1)
    ensures b / s == q && b % s == b - s * q
  {
    var q', r' := b / s, b % s;
    assert b == s * q' + r';
    if q' >= q + 1 { ScaleUp(q + 1, q', s); }
    if q' <= q - 1 { ScaleUp(q', q - 1, s); }
  }
}
