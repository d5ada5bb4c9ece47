/** Comparison, subtraction, shifting and one-digit division of dtoa.c. */
module BigintDivide {
  import opened Bignum
  import opened BigintPool
  import opened BigintArith

  /** A number in the form the operations leave it in: normal, or zero without words. */
  ghost predicate Reducible(b: Bigint)
    reads b
  {
    b.Valid() && (b.Normal() || (b.wds == 0 && b.x[0] == 0))
  }

  /** More words without leading zeros mean a larger number. */
  lemma MoreWordsLarger(a: seq<Word>, b: seq<Word>)
    requires |a| > |b| && a[|a| - 1] != 0
    ensures Val(a) > Val(b)
  {
    hide Val, Weight;
    TopWord(a);
    ValBound(b);
    WeightGrows(|b|, |a| - 1);
  }

  lemma {:induction false} WeightGrows(i: nat, j: nat)
    requires i <= j
    ensures Weight(i) <= Weight(j)
  {
    if i < j {
      WeightGrows(i, j - 1);
    }
  }

  /** Words that agree above index `n` compare as their word `n` does. */
  lemma FirstDifference(a: seq<Word>, b: seq<Word>, n: nat)
    requires |a| == |b| && n < |a| && a[n + 1..] == b[n + 1..] && a[n] < b[n]
    ensures Val(a) < Val(b)
  {
    hide Val, Weight;
    ValSplit(a, n + 1);
    ValSplit(b, n + 1);
    ValNext(a, n);
    ValNext(b, n);
    ValBound(a[..n]);
    var x: int, y: int := a[n], b[n];
    ScaleUp(x + 1, y, Weight(n));
    assert (x + 1) * Weight(n) == x * Weight(n) + Weight(n);
  }

  /** cmp: the sign of the difference. */
  method Cmp(a: Bigint, b: Bigint) returns (r: int)
    requires Reducible(a) && b.Normal() && (a.wds == 0 ==> b.Value() > 0)
    ensures r < 0 <==> a.Value() < b.Value()
    ensures r == 0 <==> a.Value() == b.Value()
  {
    hide Val, Weight, Pow;
    var i, j := a.wds, b.wds;
    ghost var va, vb := a.x[..a.wds], b.x[..b.wds];
    if i != j {
      if i > j { MoreWordsLarger(va, vb); }
      else if i > 0 { MoreWordsLarger(vb, va); }
      else { assert va == []; NoWords([], []); }
      return i - j;
    }
    var n: nat := j;
    while n > 0
      invariant n <= j && va[n..] == vb[n..]
    {
      n := n - 1;
      if a.x[n] != b.x[n] {
        if a.x[n] < b.x[n] {
          FirstDifference(va, vb, n);
          return -1;
        } else {
          FirstDifference(vb, va, n);
          return 1;
        }
      }
      assert va[n..] == [va[n]] + va[n + 1..] && vb[n..] == [vb[n]] + vb[n + 1..];
    }
    assert va == va[0..] == vb[0..] == vb;
    return 0;
  }

  /** The subtracting loops of quorem: b - s * q in place, on the words of s. */
  method SubMul(b: Bigint, s: seq<Word>, q: int)
    requires |s| <= |b.x| && 0 <= q < 0x8000_0000 && Val(s) * q <= Val(b.x[..|s|])
    modifies b`x
    ensures |b.x| == old(|b.x|)
    ensures Val(b.x[..|s|]) == Val(old(b.x[..|s|])) - Val(s) * q
  {
    hide Val, Weight, Reduced, Sub64;
    ghost var was := b.x[..|s|];
    var i: nat, carry: int, borrow: int := 0, 0, 0;
    ReducedStart(was, s, q);
    while i < |s|
      invariant i <= |s| && |b.x| == old(|b.x|) && 0 <= carry < 0x8000_0000
      invariant Reduced(was, b.x[..|s|], s, q, carry, borrow, i)
    {
      ReducedStep(was, b.x[..|s|], s, q, carry, borrow, i);
      CarryBound(s[i], q, carry);
      var ys: int := s[i] * q + carry;
      var y := Sub64(b.x[i] - ys % BASE - borrow);
      ghost var before := b.x;
      carry, borrow := ys / BASE, (y / BASE) % 2;
      b.x := b.x[i := y % BASE];
      assert b.x[..|s|] == before[..|s|][i := y % BASE];
      i := i + 1;
    }
    ReducedEnd(was, b.x[..|s|], s, q, carry, borrow);
  }

  /** The word count after a subtraction: leading zero words below `n` are dropped. */
  method Strip(b: Bigint, n0: nat)
    requires b.Valid() && b.wds == n0 + 1
    modifies b`wds
    ensures Reducible(b) && b.wds <= n0 + 1 && b.Value() == old(b.Value())
    ensures b.wds == n0 + 1 ==> b.x[n0] != 0
  {
    hide Val, Pow;
    if b.x[n0] == 0 {
      var n: nat, e: int := n0, n0 - 1;
      while e > 0 && b.x[e] == 0
        invariant 0 <= n <= n0 && e == n - 1 && forall k | n <= k <= n0 :: b.x[k] == 0
      {
        n, e := n - 1, e - 1;
      }
      ValZeros(b.x[..n0 + 1], n);
      assert b.x[..n0 + 1][..n] == b.x[..n];
      b.wds := n;
    }
  }

  /** The divisor's top word has exactly four leading zero bits. */
  ghost predicate FourZeroBits(s: Bigint)
    reads s
  {
    s.Normal() && 0x800_0000 <= s.x[s.wds - 1] < 0x1000_0000
  }

  /** A dividend below ten times the divisor has no more words than it. */
  lemma FitsDivisor(b: Bigint, s: Bigint)
    requires b.Normal() && FourZeroBits(s) && b.Value() < 10 * s.Value()
    ensures b.wds <= s.wds
  {
    hide Val, Weight;
    var n := s.wds - 1;
    TopWord(s.x[..s.wds]);
    TopWord(b.x[..b.wds]);
    var st: int := s.x[n];
    ScaleUp(10 * (st + 1), BASE, Weight(n));
    assert 10 * ((st + 1) * Weight(n)) == (10 * (st + 1)) * Weight(n);
    WeightNext(n);
    if b.wds > s.wds {
      WeightGrows(s.wds, b.wds - 1);
    }
  }

  lemma PositiveDivisor(s: Bigint)
    requires FourZeroBits(s)
    ensures s.Value() > 0
  {
    hide Val, Weight;
    TopWord(s.x[..s.wds]);
  }

  /** quorem: the quotient digit, leaving the remainder in place. */
  method Quorem(b: Bigint, s: Bigint) returns (q: int)
    requires b != s && b.Normal() && FourZeroBits(s) && b.Value() < 10 * s.Value()
    modifies b`x, b`wds
    ensures s.Value() > 0 && q == old(b.Value()) / s.Value()
    ensures Reducible(b) && b.Value() == old(b.Value()) % s.Value()
  {
    hide Val, Weight, Pow;
    PositiveDivisor(s);
    FitsDivisor(b, s);
    ghost var v, d := b.Value(), s.Value();
    var n: int := s.wds;
    if b.wds < n {
      MoreWordsLarger(s.x[..s.wds], b.x[..b.wds]);
      QuotientUnique(v, d, 0);
      q := 0;
      return;
    }
    n := n - 1;
    TopEstimate(b, s);
    q := b.x[n] / (s.x[n] as int + 1);
    q := Correct(b, s, n, q);
  }

  lemma TopEstimate(b: Bigint, s: Bigint)
    requires b.Normal() && FourZeroBits(s) && b.wds == s.wds
    ensures var q := b.x[b.wds - 1] / (s.x[s.wds - 1] as int + 1);
            0 <= q <= 32 && s.Value() * q <= b.Value() < s.Value() * (q + 2)
  {
    hide Val, Weight;
    TopWord(s.x[..s.wds]);
    TopWord(b.x[..b.wds]);
    EstimateClose(b.Value(), s.Value(), b.x[b.wds - 1], s.x[s.wds - 1], Weight(s.wds - 1));
  }

  /** quorem after the estimate: subtract, and once more if the estimate was short. */
  method Correct(b: Bigint, s: Bigint, n: nat, q0: int) returns (q: int)
    requires b != s && b.Normal() && s.Normal() && s.Value() > 0 && b.wds == s.wds == n + 1
    requires 0 <= q0 <= 32 && s.Value() * q0 <= b.Value() < s.Value() * (q0 + 2)
    modifies b`x, b`wds
    ensures q == old(b.Value()) / s.Value()
    ensures Reducible(b) && b.Value() == old(b.Value()) % s.Value()
  {
    hide Val, Weight, Pow;
    q := q0;
    ghost var v, d := b.Value(), s.Value();
    if q != 0 {
      SubMul(b, s.x[..n + 1], q);
      Strip(b, n);
    }
    Distribute(d, q);
    NoWords(b.x, []);
    var c := Cmp(b, s);
    if c >= 0 {
      assert b.wds == n + 1 by {
        if b.wds < n + 1 && n > 0 { MoreWordsLarger(s.x[..s.wds], b.x[..b.wds]); }
      }
      q := q + 1;
      SubMul(b, s.x[..n + 1], 1);
      Strip(b, n);
    }
    QuotientUnique(v, d, q);
  }

  lemma Distribute(d: int, q: int)
    ensures d * (q + 1) == d * q + d && d * (q + 2) == d * q + d + d
  {
  }

  // ---- shifting -------------------------------------------------------------------------

  /** lshift, the capacity: doubled until `need` words fit. */
  method Capacity(k: nat, need: nat) returns (k1: nat)
    ensures k1 >= k && need <= Pow(2, k1)
    ensures forall j | k <= j < k1 :: Pow(2, j) < need
  {
    var i := Pow(2, k);
    k1 := k;
    while need > i
      invariant k1 >= k && i == Pow(2, k1) >= 1
      invariant forall j | k <= j < k1 :: Pow(2, j) < need
      decreases need - i
    {
      PowGrows(2, k1);
      i, k1 := 2 * i, k1 + 1;
    }
  }

  /** The shifting loop of lshift: the words of `s` times 2^k for k < 32. The bits moved in
      from the word below are disjoint from the shifted word, so the `or` is a sum. */
  method ShiftWords(s: seq<Word>, k: nat) returns (t: seq<Word>, z: Word)
    requires 0 < k < 32
    ensures |t| == |s| && Val(t) + z * Weight(|s|) == Val(s) * Pow(2, k)
  {
    hide Val, Weight, Pow, Carried;
    var m: int := Pow(2, k);
    ShiftFactor(k);
    t, z := s, 0;
    var i: nat := 0;
    CarriedStart(s, m, 0);
    while i < |s|
      invariant i <= |s| == |t| && z < m
      invariant Carried(s, t, m, 0, z, i)
    {
      var low, high := ShiftWord(s, t, k, z, i);
      t, z := t[i := low], high;
      i := i + 1;
    }
    CarriedEnd(s, t, m, 0, z);
  }

  /** One word of the shifting loop: the shifted word with the bits from below, and the bits
      shifted out. */
  method ShiftWord(s: seq<Word>, ghost t: seq<Word>, k: nat, z: Word, i: nat) returns (low: Word, high: Word)
    requires 0 < k < 32 && i < |s| && z < Pow(2, k) && Carried(s, t, Pow(2, k), 0, z, i)
    ensures i < |t| && high < Pow(2, k) && Carried(s, t[i := low], Pow(2, k), 0, high, i + 1)
  {
    hide Val, Weight, Pow, Carried;
    ShiftFactor(k);
    CarriedSame(s, t, Pow(2, k), z, i);
    CarriedStep(s, t, Pow(2, k), 0, z, i);
    ShiftSplit(s[i], k, z);
    low, high := (s[i] * Pow(2, k)) % BASE + z, s[i] / Pow(2, 32 - k);
  }

  lemma CarriedSame(s: seq<Word>, t: seq<Word>, m: int, z: int, i: nat)
    requires Carried(s, t, m, 0, z, i) && i < |s|
    ensures i < |t| && s[i] == t[i]
  {
    assert s[i] == s[i..][0] == t[i..][0] == t[i];
  }

  lemma ShiftFactor(k: nat)
    requires 0 < k < 32
    ensures 2 <= Pow(2, k) < 0x1_0000_0000 && Pow(2, k) * Pow(2, 32 - k) == BASE
  {
    hide Pow;
    PowAdd(2, k, 32 - k);
    Pow32();
    PowGrows(2, k - 1);
    PowGrows(2, 32 - k - 1);
    var a, c := Pow(2, k), Pow(2, 32 - k);
    assert 2 * a <= c * a by { ScaleUp(2, c, a); }
    assert c * a == a * c;
  }

  lemma Pow32()
    ensures Pow(2, 32) == BASE
  {
    assert Pow(2, 0) == 1;
    PowAdd(2, 1, 1);
    PowAdd(2, 2, 2);
    PowAdd(2, 4, 4);
    PowAdd(2, 8, 8);
    PowAdd(2, 16, 16);
  }

  /** A shifted word and the bits from below: no carry between them. */
  lemma ShiftSplit(x: Word, k: nat, z: int)
    requires 0 < k < 32 && 0 <= z < Pow(2, k)
    ensures var m := Pow(2, k);
            && (x * m) % BASE + z == (x * m + z) % BASE < BASE
            && x / Pow(2, 32 - k) == (x * m + z) / BASE < m
  {
    hide Pow;
    ShiftFactor(k);
    ShiftArith(x, Pow(2, k), Pow(2, 32 - k), z);
  }

  lemma ShiftArith(x: int, m: int, c: int, z: int)
    requires m >= 1 && c >= 1 && m * c == BASE && 0 <= z < m && 0 <= x < BASE
    ensures (x * m) % BASE + z == (x * m + z) % BASE < BASE
    ensures x / c == (x * m + z) / BASE < m
  {
    var q, r := x / c, x % c;
    assert x == q * c + r;
    assert x * m == q * BASE + r * m by {
      assert (q * c + r) * m == q * (m * c) + r * m;
    }
    ScaleUp(r + 1, c, m);
    assert r * m + m <= BASE;
    assert 0 <= r * m by { ScaleUp(0, r, m); }
    QuotientUnique(x * m + z, BASE, q);
    QuotientUnique(x * m, BASE, q);
    if q >= m { ScaleUp(m, q, c); }
  }

  /** Zero words below multiply by the weight. */
  lemma {:induction false} ValShifted(n: nat, t: seq<Word>)
    ensures Val(seq(n, _ => 0) + t) == Weight(n) * Val(t)
  {
    hide Val, Weight;
    var z: seq<Word> := seq(n, _ => 0);
    ValSplit(z + t, n);
    assert (z + t)[..n] == z && (z + t)[n..] == t;
    ValZeros(z, 0);
    assert z[..0] == [];
    NoWords([], []);
  }

  lemma {:induction false} WeightIsPower(n: nat)
    ensures Weight(n) == Pow(2, 32 * n)
  {
    if n > 0 {
      WeightIsPower(n - 1);
      PowAdd(2, 32, 32 * (n - 1));
      Pow32();
    }
  }

  /** lshift: b * 2^k in a new object; the old one goes back to the pool. */
  method LShift(pool: Pool, b: Bigint, k: nat) returns (b1: Bigint)
    requires pool.Valid() && pool.Owned(b) && b.Normal()
    modifies pool`freelist, pool`free, pool.free
    ensures pool.Valid() && pool.Owned(b1) && b1.wds >= 1 && (old(b.Value()) > 0 ==> b1.Normal())
    ensures b1.Value() == old(b.Value()) * Pow(2, k)
    ensures b1 in old(pool.free) || fresh(b1)
    ensures pool.free <= old(pool.free) + {b}
  {
    hide Val, Weight, Pow, Pool.Valid;
    var n, k' := k / 32, k % 32;
    var k1 := Capacity(b.k, n + b.wds + 1);
    b1 := pool.Balloc(k1);
    var t, z: Word := b.x[..b.wds], 0;
    PowZero();
    if k' != 0 {
      t, z := ShiftWords(b.x[..b.wds], k');
    }
    if b.Value() > 0 { NonzeroTop(b.x[..b.wds]); }
    Fill(b1, b.x[..b.wds], t, z, n, k', k);
    pool.Bfree(b);
  }

  lemma PowZero()
    ensures Pow(2, 0) == 1
  {
  }

  lemma NonzeroTop(s: seq<Word>)
    requires |s| >= 1 && (|s| > 1 ==> s[|s| - 1] != 0) && Val(s) > 0
    ensures s[|s| - 1] != 0
  {
    if |s| == 1 {
      assert s == [s[0]];
      OneWord(s[0]);
    }
  }

  /** lshift, the result: `n` zero words, the shifted words, and what was shifted out. */
  method Fill(b1: Bigint, ghost s: seq<Word>, t: seq<Word>, z: Word, n: nat, ghost k': nat, ghost k: nat)
    requires b1.Valid() && n + |t| + 1 <= |b1.x| && |t| == |s| >= 1 && (Val(s) > 0 ==> s[|s| - 1] != 0)
    requires k == 32 * n + k' && Val(t) + z * Weight(|s|) == Val(s) * Pow(2, k')
    modifies b1`x, b1`wds
    ensures b1.Valid() && b1.wds >= 1 && (Val(s) > 0 ==> b1.Normal()) && b1.Value() == Val(s) * Pow(2, k)
  {
    hide Val, Weight, Pow;
    var low: seq<Word> := seq(n, _ => 0);
    ShiftedValue(s, t, z, n, k', k);
    if z == 0 && Val(s) > 0 { ShiftedNormal(s, t, z, n, k'); }
    b1.x := low + t + [z] + b1.x[n + |t| + 1..];
    b1.wds := if z != 0 then n + |t| + 1 else n + |t|;
    assert b1.x[..b1.wds] == if z != 0 then low + (t + [z]) else low + t;
  }

  lemma ShiftedValue(s: seq<Word>, t: seq<Word>, z: Word, n: nat, k': nat, k: nat)
    requires |t| == |s| && k == 32 * n + k'
    requires Val(t) + z * Weight(|s|) == Val(s) * Pow(2, k')
    ensures Val(seq(n, _ => 0) + (t + [z])) == Val(s) * Pow(2, k)
    ensures z == 0 ==> Val(seq(n, _ => 0) + t) == Val(s) * Pow(2, k)
  {
    hide Val, Weight, Pow;
    ValSnoc(t, z);
    ValShifted(n, t + [z]);
    ValShifted(n, t);
    WeightIsPower(n);
    PowAdd(2, 32 * n, k');
    Reorder(Weight(n), Val(s), Pow(2, k'));
  }

  lemma ShiftedNormal(s: seq<Word>, t: seq<Word>, z: Word, n: nat, k': nat)
    requires |t| == |s| >= 1 && s[|s| - 1] != 0 && z == 0
    requires Val(t) == Val(s) * Pow(2, k')
    ensures t[|t| - 1] != 0
  {
    hide Val, Pow;
    StillNormal(s, t, Pow(2, k'), 0);
  }

  // ---- subtraction ----------------------------------------------------------------------

  /** One word of diff. */
  lemma DiffStep(a: seq<Word>, cur: seq<Word>, s: seq<Word>, borrow: int, i: nat)
    requires Reduced(a, cur, s, 1, 0, borrow, i) && i < |a|
    ensures var y := Sub64(a[i] - s[i] - borrow);
            Reduced(a, cur[i := y % BASE], s, 1, 0, (y / BASE) % 2, i + 1)
  {
    hide Val, Weight, Sub64;
    ReducedStep(a, cur, s, 1, 0, borrow, i);
    assert a[i] == a[i..][0] == cur[i..][0] == cur[i];
    assert s[i] * 1 + 0 == s[i];
  }

  /** The loops of diff: a - b on the words of `a`, with `b` the smaller number. */
  method DiffWords(a: seq<Word>, b: seq<Word>) returns (c: seq<Word>)
    requires |b| <= |a| && Val(b) <= Val(a)
    ensures |c| == |a| && Val(c) == Val(a) - Val(b)
  {
    hide Val, Weight, Reduced, Sub64;
    ghost var s: seq<Word> := b + seq(|a| - |b|, _ => 0);
    ValZeros(s, |b|);
    assert s[..|b|] == b;
    c := a;
    var borrow, i: nat := 0, 0;
    ReducedStart(a, s, 1);
    while i < |b|
      invariant i <= |b| && |c| == |a|
      invariant Reduced(a, c, s, 1, 0, borrow, i)
    {
      DiffStep(a, c, s, borrow, i);
      var u: int, w: int := a[i], b[i];
      var y := Sub64(u - w - borrow);
      borrow, c := (y / BASE) % 2, c[i := y % BASE];
      i := i + 1;
    }
    while i < |a|
      invariant |b| <= i <= |a| == |c|
      invariant Reduced(a, c, s, 1, 0, borrow, i)
    {
      DiffStep(a, c, s, borrow, i);
      var y := Sub64(a[i] - borrow);
      borrow, c := (y / BASE) % 2, c[i := y % BASE];
      i := i + 1;
    }
    ReducedEnd(a, c, s, 1, 0, borrow);
  }

  /** diff: |a - b| in a new object, whose sign tells whether a < b. */
  method Diff(pool: Pool, a: Bigint, b: Bigint) returns (c: Bigint)
    requires pool.Valid() && a.Normal() && b.Normal() && a !in pool.free && b !in pool.free
    modifies pool`freelist, pool`free, pool.free
    ensures pool.Valid() && pool.Owned(c) && c.Normal()
    ensures c.Value() as int == if a.Value() < b.Value() then b.Value() - a.Value() else a.Value() - b.Value()
    ensures c.sign == if a.Value() < b.Value() then 1 else 0
    ensures c in old(pool.free) || fresh(c)
    ensures pool.free <= old(pool.free)
  {
    hide Val, Weight, Pow, Pool.Valid;
    var i := Cmp(a, b);
    if i == 0 {
      c := I2b0(pool);
    } else if i < 0 {
      c := Difference(pool, b, a, 1);
    } else {
      c := Difference(pool, a, b, 0);
    }
  }

  /** The zero that diff returns for equal numbers. */
  method I2b0(pool: Pool) returns (c: Bigint)
    requires pool.Valid()
    modifies pool`freelist, pool`free, pool.free
    ensures pool.Valid() && pool.Owned(c) && c.Normal() && c.Value() == 0 && c.sign == 0
    ensures c in old(pool.free) || fresh(c)
    ensures pool.free <= old(pool.free)
  {
    hide Pool.Valid, Val;
    c := pool.Balloc(0);
    c.wds := 1;
    c.x := c.x[0 := 0];
    assert c.x[..1] == [0];
    OneWord(0);
  }

  /** diff for a > b. */
  method Difference(pool: Pool, a: Bigint, b: Bigint, sign: int) returns (c: Bigint)
    requires pool.Valid() && a.Normal() && b.Normal() && a !in pool.free && b !in pool.free
    requires b.Value() < a.Value()
    modifies pool`freelist, pool`free, pool.free
    ensures pool.Valid() && pool.Owned(c) && c.Normal() && c.sign == sign
    ensures c.Value() == a.Value() - b.Value()
    ensures c in old(pool.free) || fresh(c)
    ensures pool.free <= old(pool.free)
  {
    hide Val, Weight, Pow, Pool.Valid;
    if b.wds > a.wds { MoreWordsLarger(b.x[..b.wds], a.x[..a.wds]); }
    c := pool.Balloc(a.k);
    c.sign := sign;
    var d := DiffWords(a.x[..a.wds], b.x[..b.wds]);
    c.x := d + c.x[|d|..];
    assert c.x[..|d|] == d;
    Trim(c, |d|);
  }

  // ---- alignment of the divisor -----------------------------------------------------------

  /** hi0bits: the number of leading zero bits of a word, 32 for zero. */
  method Hi0Bits(x: Word) returns (k: nat)
    ensures x == 0 ==> k == 32
    ensures x > 0 ==> k < 32 && 0x8000_0000 <= x * Pow(2, k) < BASE
  {
    hide Pow;
    SmallPowersOfTwo();
    var y: int := x;
    k := 0;
    if y < 0x1_0000 {
      k, y := 16, y * 0x1_0000;
    }
    assert y == x * Pow(2, k);
    if y < 0x100_0000 {
      PowAdd(2, k, 8);
      Associate(x, Pow(2, k), Pow(2, 8));
      k, y := k + 8, y * 0x100;
    }
    assert y == x * Pow(2, k);
    if y < 0x1000_0000 {
      PowAdd(2, k, 4);
      Associate(x, Pow(2, k), Pow(2, 4));
      k, y := k + 4, y * 0x10;
    }
    assert y == x * Pow(2, k);
    if y < 0x4000_0000 {
      PowAdd(2, k, 2);
      Associate(x, Pow(2, k), Pow(2, 2));
      k, y := k + 2, y * 4;
    }
    assert y == x * Pow(2, k);
    if y < 0x8000_0000 {
      PowAdd(2, k, 1);
      Associate(x, Pow(2, k), Pow(2, 1));
      k := k + 1;
      if y < 0x4000_0000 {
        k := 32;
      }
    }
  }

  lemma SmallPowersOfTwo()
    ensures Pow(2, 0) == 1 && Pow(2, 1) == 2 && Pow(2, 2) == 4 && Pow(2, 4) == 16
    ensures Pow(2, 8) == 0x100 && Pow(2, 16) == 0x1_0000
  {
    assert Pow(2, 0) == 1;
    PowAdd(2, 1, 1);
    PowAdd(2, 2, 2);
    PowAdd(2, 4, 4);
    PowAdd(2, 8, 8);
  }

  /** dshift: how much more to shift `b` by, beyond p2, to leave four leading zero bits. */
  method DShift(b: Bigint, p2: int) returns (rv: nat, ghost h: nat)
    requires b.Normal() && b.Value() > 0
    ensures rv < 32
    ensures Aligns(b.x[b.wds - 1], h, (if p2 > 0 then p2 else 0) + rv)
  {
    hide Val, Pow;
    NonzeroTop(b.x[..b.wds]);
    var zeros := Hi0Bits(b.x[b.wds - 1]);
    h := zeros;
    var r := zeros as int - 4;
    if p2 > 0 { r := r - p2; }
    rv := r % 32;
    ShiftLeavesFour(zeros, if p2 > 0 then p2 else 0);
  }

  lemma ShiftLeavesFour(h: nat, p2: nat)
    ensures (p2 + (h - 4 - p2) % 32 - h + 4) % 32 == 0
  {
  }

  /** A word with `h` leading zero bits, and a shift that leaves four of them. */
  ghost predicate Aligns(top: Word, h: nat, shift: int) {
    h < 32 && 0x8000_0000 <= top * Pow(2, h) < BASE && (shift - h + 4) % 32 == 0
  }

  /** A number between 2^27 and 2^28 times a weight has four leading zero bits. */
  lemma TopInRange(s: Bigint, N: nat)
    requires s.Normal() && 0x800_0000 * Weight(N) <= s.Value() < 0x1000_0000 * Weight(N)
    ensures FourZeroBits(s)
  {
    hide Val, Weight;
    var n := s.wds - 1;
    TopWord(s.x[..s.wds]);
    ValBound(s.x[..s.wds]);
    WeightNext(n);
    WeightNext(N);
    if n < N {
      WeightGrows(s.wds, N);
    } else if n > N {
      WeightGrows(N + 1, n);
    } else {
      var t: int, w := s.x[n], Weight(n);
      if t >= 0x1000_0000 { ScaleUp(0x1000_0000, t, w); }
      if t + 1 <= 0x800_0000 { ScaleUp(t + 1, 0x800_0000, w); }
    }
  }

  /** Shifting by an aligning amount leaves four leading zero bits. */
  lemma AlignedRange(v: nat, t: Word, n: nat, h: nat, e: nat) returns (N: nat)
    requires Aligns(t, h, e) && t * Weight(n) <= v < (t as int + 1) * Weight(n)
    ensures 0x800_0000 * Weight(N) <= v * Pow(2, e) < 0x1000_0000 * Weight(N)
  {
    hide Weight, Pow;
    var m := (e - h + 4) / 32;
    N := n + m;
    WeightAdd(n, m);
    AlignedPowers(h, e, m);
    RoomAbove(t, h);
    AlignedLow(v, t, Weight(n), Weight(m), Pow(2, h), Pow(2, e));
    AlignedHigh(v, t, Weight(n), Weight(m), Pow(2, h), Pow(2, e));
  }

  lemma AlignedPowers(h: nat, e: nat, m: nat)
    requires e + 4 == h + 32 * m
    ensures Pow(2, e) * 16 == Pow(2, h) * Weight(m)
  {
    hide Weight, Pow;
    WeightIsPower(m);
    PowAdd(2, e, 4);
    PowAdd(2, h, 32 * m);
    SmallPowersOfTwo();
  }

  lemma RoomAbove(t: Word, h: nat)
    requires h < 32 && t * Pow(2, h) < BASE
    ensures (t as int + 1) * Pow(2, h) <= BASE
  {
    hide Pow;
    SmallPowersOfTwo();
    if h > 0 {
      ShiftFactor(h);
      var p, c := Pow(2, h), Pow(2, 32 - h);
      if t >= c { ScaleUp(c, t, p); }
      ScaleUp(t as int + 1, c, p);
    }
  }

  lemma Regroup(a: int, b: int, c: int, d: int)
    ensures (a * b) * (c * d) == (a * c) * (b * d)
  {
    Associate(a * b, c, d);
    Associate(a * c, b, d);
    assert (a * b) * c == (a * c) * b;
  }

  lemma AlignedLow(v: int, t: int, w: int, wm: int, ph: int, pe: int)
    requires w >= 1 && wm >= 1 && ph >= 1
    requires t * w <= v && 0x8000_0000 <= t * ph && pe * 16 == ph * wm
    ensures 0x800_0000 * (w * wm) <= v * pe
  {
    var u := ph * wm;
    assert u >= 0 by { ScaleUp(0, ph, wm); }
    assert w * wm >= 0 by { ScaleUp(0, w, wm); }
    ScaleUp(t * w, v, u);
    Regroup(t, w, ph, wm);
    ScaleUp(0x8000_0000, t * ph, w * wm);
    Associate(v, pe, 16);
  }

  lemma AlignedHigh(v: int, t: int, w: int, wm: int, ph: int, pe: int)
    requires w >= 1 && wm >= 1 && ph >= 1
    requires v < (t + 1) * w && (t + 1) * ph <= BASE && pe * 16 == ph * wm
    ensures v * pe < 0x1000_0000 * (w * wm)
  {
    var u := ph * wm;
    assert u >= 1 by { ScaleUp(1, ph, wm); }
    assert w * wm >= 0 by { ScaleUp(0, w, wm); }
    ScaleUp(v + 1, (t + 1) * w, u);
    assert (v + 1) * u == v * u + u;
    Regroup(t + 1, w, ph, wm);
    ScaleUp((t + 1) * ph, BASE, w * wm);
    Associate(v, pe, 16);
  }
}
