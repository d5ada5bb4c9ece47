/** The arithmetic of dtoa.c on pooled integers. */
module BigintArith {
  import opened Bignum
  import opened BigintPool

  /** The loop of multadd, in place: the low words of b * m + a, and the carry. */
  method MultAddWords(b: Bigint, m: int, a: int) returns (carry: Word)
    requires b.Valid() && b.wds >= 1
    requires 0 <= m < 0x8000_0000 && 0 <= a < 0x8000_0000
    modifies b`x
    ensures b.Valid() && carry < 0x8000_0000
    ensures Val(b.x[..b.wds]) + carry * Weight(b.wds) == old(b.Value()) * m + a
  {
    hide Val, Weight, Pow, Carried;
    ghost var source := b.x[..b.wds];
    ghost var rest := b.x[b.wds..];
    var i: nat := 0;
    carry := a;
    CarriedStart(source, m, a);
    while i < b.wds
      invariant i <= b.wds && |b.x| == old(|b.x|) && carry < 0x8000_0000
      invariant Carried(source, b.x[..b.wds], m, a, carry, i)
    {
      CarriedStep(source, b.x[..b.wds], m, a, carry, i);
      CarryBound(b.x[i], m, carry);
      var y: int := b.x[i] * m + carry;
      ghost var before := b.x;
      carry := y / BASE;
      b.x := b.x[i := y % BASE];
      assert b.x[..b.wds] == before[..b.wds][i := y % BASE];
      i := i + 1;
    }
    CarriedEnd(source, b.x[..b.wds], m, a, carry);
  }

  /** multadd: b * m + a, in place where it fits. */
  method MultAdd(pool: Pool, b: Bigint, m: int, a: int) returns (r: Bigint)
    requires pool.Valid() && pool.Owned(b) && b.wds >= 1
    requires 0 <= m < 0x8000_0000 && 0 <= a < 0x8000_0000
    modifies pool`freelist, pool`free, pool.free, b
    ensures pool.Valid() && pool.Owned(r) && r.wds >= 1
    ensures r.Value() == old(b.Value()) * m + a
    ensures r == b || r in old(pool.free) || fresh(r)
    ensures pool.free <= old(pool.free) + {b}
    ensures r.wds == old(b.wds) || r.wds == old(b.wds) + 1
    ensures old(b.Normal()) && m >= 1 ==> r.Normal()
  {
    hide Val, Weight, Pow, Pool.Valid;
    var carry := MultAddWords(b, m, a);
    r := b;
    if carry != 0 {
      r := Append(pool, b, carry);
    } else if m >= 1 {
      StillNormal(old(b.x[..b.wds]), b.x[..b.wds], m, a);
    }
  }

  lemma StillNormal(s: seq<Word>, t: seq<Word>, m: int, a: int)
    requires |s| == |t| >= 1 && m >= 1 && a >= 0 && Val(t) == Val(s) * m + a
    ensures s[|s| - 1] != 0 ==> t[|t| - 1] != 0
  {
    hide Val, Weight;
    TopWord(s);
    TopWord(t);
    ScaleUp(1, m, Val(s));
  }

  /** The end of multadd: one more word, in a larger object when the capacity is used up. */
  method Append(pool: Pool, b: Bigint, carry: Word) returns (r: Bigint)
    requires pool.Valid() && pool.Owned(b)
    modifies pool`freelist, pool`free, pool.free, b
    ensures pool.Valid() && pool.Owned(r) && r.wds == old(b.wds) + 1
    ensures r.Value() == old(b.Value()) + carry * Weight(old(b.wds))
    ensures r == b || r in old(pool.free) || fresh(r)
    ensures pool.free <= old(pool.free) + {b}
    ensures r.x[r.wds - 1] == carry
  {
    hide Val, Weight, Pow, Pool.Valid;
    r := b;
    ValSnoc(b.x[..b.wds], carry);
    if b.wds >= |b.x| {
      r := pool.Balloc(b.k + 1);
      PowGrows(2, b.k);
      r.x := b.x[..b.wds] + r.x[b.wds..];
      r.sign, r.wds := b.sign, b.wds;
      pool.Bfree(b);
    }
    r.x := r.x[r.wds := carry];
    r.wds := r.wds + 1;
    assert r.x[..r.wds] == old(b.x[..b.wds]) + [carry];
  }

  /** The inner loop of mult: adds a * y to the words of `c` from `j` on. */
  method AddRow(c: Bigint, a: seq<Word>, y: Word, j: nat)
    requires j + |a| < |c.x|
    modifies c`x
    ensures |c.x| == old(|c.x|)
    ensures Val(c.x[..j + |a| + 1]) == Val(old(c.x)[..j + |a|]) + (Val(a) * y) * Weight(j)
    ensures forall k | j + |a| < k < |c.x| :: c.x[k] == old(c.x[k])
  {
    hide Val, Weight;
    ghost var start := c.x;
    var i: nat, carry: Word := 0, 0;
    RowStart(start, a, y, j);
    while i < |a|
      invariant i <= |a| && |c.x| == |start|
      invariant RowProgress(start, c.x, a, y, carry, j, i)
    {
      RowStep(start, c.x, a, y, carry, j, i);
      RowBound(a[i], y, c.x[j + i], carry);
      var z: int := a[i] * y + c.x[j + i] + carry;
      carry := z / BASE;
      c.x := c.x[j + i := z % BASE];
      i := i + 1;
    }
    RowEnd(start, c.x, a, y, carry, j);
    c.x := c.x[j + |a| := carry];
  }

  /** The outer loop of mult, on words that are already zero. */
  method MultWords(c: Bigint, a: seq<Word>, b: seq<Word>)
    requires |a| + |b| <= |c.x| && forall k | 0 <= k < |a| + |b| :: c.x[k] == 0
    modifies c`x
    ensures |c.x| == old(|c.x|)
    ensures Val(c.x[..|a| + |b|]) == Val(a) * Val(b)
  {
    hide Val, Weight;
    var j: nat := 0;
    ValZeros(c.x[..|a|], 0);
    NoWords(c.x, b);
    while j < |b|
      invariant j <= |b| && |c.x| == old(|c.x|)
      invariant Val(c.x[..j + |a|]) == Val(a) * Val(b[..j])
      invariant forall k | j + |a| <= k < |a| + |b| :: c.x[k] == 0
    {
      var y := b[j];
      ghost var before := c.x;
      if y != 0 {
        AddRow(c, a, y, j);
      } else {
        ValNext(c.x, j + |a|);
      }
      ProductStep(Val(a), b, j, Val(before[..j + |a|]), Val(c.x[..j + |a| + 1]));
      j := j + 1;
    }
    assert b[..|b|] == b;
  }

  lemma NoWords(s: seq<Word>, b: seq<Word>)
    ensures Val(s[..0]) == 0 && Val(b[..0]) == 0
  {
  }

  /** mult: the product, in an object of its own. */
  method Mult(pool: Pool, a0: Bigint, b0: Bigint) returns (c: Bigint)
    requires pool.Valid() && a0.Valid() && b0.Valid() && a0 !in pool.free && b0 !in pool.free
    modifies pool`freelist, pool`free, pool.free
    ensures pool.Valid() && pool.Owned(c) && c.Value() == a0.Value() * b0.Value()
    ensures c in old(pool.free) || fresh(c)
    ensures pool.free <= old(pool.free)
    ensures c.Value() > 0 ==> c.Normal()
  {
    hide Val, Weight, Pow, Pool.Valid;
    var a, b := a0, b0;
    if a.wds < b.wds {
      a, b := b, a;
    }
    var k, wc := a.k, a.wds + b.wds;
    PowGrows(2, k);
    if wc > |a.x| {
      k := k + 1;
    }
    c := pool.Balloc(k);
    c.x := seq(wc, _ => 0) + c.x[wc..];
    MultWords(c, a.x[..a.wds], b.x[..b.wds]);
    Trim(c, wc);
  }

  /** The end of mult: leading zero words are dropped. */
  method Trim(c: Bigint, n: nat)
    requires c.Valid() && n <= |c.x|
    modifies c`wds
    ensures c.Valid() && c.wds <= n && c.Value() == Val(c.x[..n])
    ensures c.Value() > 0 ==> c.Normal()
  {
    hide Val;
    assert Val([]) == 0 by { NoWords([], []); }
    var wc: nat := n;
    while wc > 0 && c.x[wc - 1] == 0
      invariant wc <= n && forall k | wc <= k < n :: c.x[k] == 0
    {
      wc := wc - 1;
    }
    ValZeros(c.x[..n], wc);
    assert c.x[..n][..wc] == c.x[..wc];
    c.wds := wc;
  }

  /** i2b */
  method I2b(pool: Pool, i: Word) returns (b: Bigint)
    requires pool.Valid()
    modifies pool`freelist, pool`free, pool.free
    ensures pool.Valid() && pool.Owned(b) && b.Normal() && b.Value() == i
    ensures b in old(pool.free) || fresh(b)
    ensures pool.free <= old(pool.free)
  {
    hide Pool.Valid;
    b := pool.Balloc(1);
    b.x := b.x[0 := i];
    b.wds := 1;
    assert b.x[..1] == [i];
    OneWord(i);
  }

  lemma OneWord(i: Word)
    ensures Val([i]) == i
  {
    assert [i][..0] == [];
  }

  /** pow5mult, the first cached power: 625 is made on first use. */
  method FirstPower(pool: Pool) returns (p5: Bigint)
    requires pool.Valid()
    modifies pool, pool.free
    ensures pool.Valid() && old(pool.cache) <= pool.cache && pool.cache != [] && p5 == pool.cache[0]
    ensures pool.free <= old(pool.free)
    ensures forall v | v in pool.cache :: v in old(pool.cache) || v in old(pool.free) || fresh(v)
  {
    hide Val, Pool.FreeLists;
    if pool.p5s == null {
      p5 := I2b(pool, 625);
      p5.next := null;
      pool.p5s := p5;
      pool.cache := [p5];
      Power625();
    } else {
      p5 := pool.p5s;
    }
  }

  lemma Power625()
    ensures Pow(5, CacheExponent(0)) == 625
  {
    assert Pow(2, 0) == 1;
    assert Pow(5, 4) == 5 * Pow(5, 3) == 5 * (5 * Pow(5, 2)) == 5 * (5 * (5 * Pow(5, 1)));
    assert Pow(5, 1) == 5;
  }

  lemma SquareOfPower(i: nat)
    ensures Pow(5, CacheExponent(i)) * Pow(5, CacheExponent(i)) == Pow(5, CacheExponent(i + 1)) >= 1
  {
    PowAdd(5, CacheExponent(i), CacheExponent(i));
    PowGrows(2, i);
    assert CacheExponent(i + 1) == CacheExponent(i) + CacheExponent(i);
  }

  /** pow5mult, the next cached power: the square is made on first use and kept. */
  method NextPower(pool: Pool, ghost F: set<Bigint>, ghost C: set<Bigint>, ghost i: nat, p5: Bigint)
      returns (p51: Bigint)
    requires pool.Valid() && i < |pool.cache| && p5 == pool.cache[i]
    requires pool.free <= F && forall v | v in pool.cache :: v in C
    modifies pool, F, C`next
    ensures pool.Valid() && old(pool.cache) <= pool.cache && i + 1 < |pool.cache| && p51 == pool.cache[i + 1]
    ensures pool.free <= old(pool.free)
    ensures forall v | v in pool.cache :: v in old(pool.cache) || v in old(pool.free) || fresh(v)
  {
    hide Val, Pow, Pool.Valid;
    pool.CachedAt(i);
    if p5.next == null {
      p51 := Mult(pool, p5, p5);
      SquareOfPower(i);
      pool.Extend(p5, p51);
    } else {
      p51 := p5.next;
    }
  }

  /** One turn of the loop of pow5mult: multiply if the exponent is odd. */
  method Pow5Odd(pool: Pool, ghost S: set<Bigint>, b0: Bigint, k: nat, ghost j: nat, p5: Bigint) returns (b: Bigint)
    requires pool.Valid() && pool.Owned(b0) && (b0.Value() > 0 ==> b0.Normal())
    requires j < |pool.cache| && p5 == pool.cache[j]
    requires pool.free <= S && b0 in S
    modifies pool, S
    ensures pool.Valid() && pool.Owned(b) && (b.Value() > 0 ==> b.Normal()) && pool.cache == old(pool.cache)
    ensures b.Value() == old(b0.Value()) * (if k % 2 == 1 then Pow(5, CacheExponent(j)) else 1)
    ensures (forall v | v in pool.free :: v in S) && (b in S || fresh(b))
  {
    hide Val, Pow, Pool.Valid, CacheExponent;
    b := b0;
    if k % 2 == 1 {
      pool.CachedAt(j);
      b := Mult(pool, b0, p5);
      pool.Bfree(b0);
    }
  }

  lemma PositiveProduct(v: nat, p: nat, e: nat)
    requires v > 0 && p > 0
    ensures v * Pow(p, e) > 0
  {
  }

  /** pow5mult: b * 5^k, for every k. The cache only grows, and what it held is not
      touched but for the link of its last node. `F` holds the free objects and `b0`, `C`
      the cached ones. */
  method Pow5Mult(pool: Pool, ghost F: set<Bigint>, ghost C: set<Bigint>, b0: Bigint, k0: nat) returns (b: Bigint)
    requires pool.Valid() && pool.Owned(b0) && b0.Normal()
    requires pool.free <= F && b0 in F && forall v | v in pool.cache :: v in C
    modifies pool, F, C`next
    ensures pool.Valid() && pool.Owned(b) && (b.Value() > 0 ==> b.Normal())
    ensures b.Value() == old(b0.Value()) * Pow(5, k0)
    ensures old(pool.cache) <= pool.cache
    ensures b in F || fresh(b)
    ensures forall v | v in pool.free :: v in F || fresh(v)
    ensures forall v | v in pool.cache :: v in F || v in C || fresh(v)
  {
    hide Val, Pow, Pool.Valid, CacheExponent;
    b := b0;
    var i, k := k0 % 4, k0 / 4;
    SmallPower(k0);
    var c := if i == 0 then 1 else if i == 1 then 5 else if i == 2 then 25 else 125;
    if i != 0 {
      b := MultAdd(pool, b, c, 0);
    }
    if k == 0 { return; }
    b := Pow5Loop(pool, F + {b}, C, b, k);
    Associate(old(b0.Value()), c, Pow(5, 4 * k));
  }

  /** The part of pow5mult that walks the cache. */
  method Pow5Loop(pool: Pool, ghost F: set<Bigint>, ghost C: set<Bigint>, b0: Bigint, k0: nat) returns (b: Bigint)
    requires pool.Valid() && pool.Owned(b0) && b0.Normal() && k0 >= 1
    requires pool.free <= F && b0 in F && forall v | v in pool.cache :: v in C
    modifies pool, F, C`next
    ensures pool.Valid() && pool.Owned(b) && (b.Value() > 0 ==> b.Normal())
    ensures b.Value() == old(b0.Value()) * Pow(5, 4 * k0)
    ensures old(pool.cache) <= pool.cache
    ensures b in F || fresh(b)
    ensures forall v | v in pool.free :: v in F || fresh(v)
    ensures forall v | v in pool.cache :: v in F || v in C || fresh(v)
  {
    hide Val, Pow, Pool.Valid, CacheExponent;
    ghost var T := b0.Value() * Pow(5, 4 * k0);
    b := b0;
    var p5 := FirstPower(pool);
    var k := k0;
    ghost var j: nat := 0;
    LoopStart(k0);
    while true
      invariant k >= 1 && pool.Valid() && pool.Owned(b) && (b.Value() > 0 ==> b.Normal())
      invariant j < |pool.cache| && p5 == pool.cache[j] && old(pool.cache) <= pool.cache
      invariant forall v | v in pool.free :: v in F || fresh(v)
      invariant forall v | v in pool.cache :: v in C || v in F || fresh(v)
      invariant b in F || fresh(b)
      invariant b.Value() * Pow(Pow(5, CacheExponent(j)), k) == T
      decreases k
    {
      LoopStep(b.Value(), j, k);
      b := Pow5Odd(pool, pool.free + {b}, b, k, j, p5);
      k := k / 2;
      if k == 0 {
        break;
      }
      p5 := NextPower(pool, pool.free, (set v | v in pool.cache), j, p5);
      j := j + 1;
    }
  }

  lemma SmallPower(k: nat)
    ensures k / 4 == 0 ==> Pow(5, 4 * (k / 4)) == 1
    ensures Pow(5, k) == (if k % 4 == 0 then 1 else if k % 4 == 1 then 5 else if k % 4 == 2 then 25
            else 125) * Pow(5, 4 * (k / 4))
  {
    PowAdd(5, k % 4, 4 * (k / 4));
    assert Pow(5, 0) == 1;
    assert Pow(5, 1) == 5 * Pow(5, 0);
    assert Pow(5, 2) == 5 * Pow(5, 1);
    assert Pow(5, 3) == 5 * Pow(5, 2);
  }

  lemma LoopStart(k: nat)
    ensures Pow(Pow(5, CacheExponent(0)), k) == Pow(5, 4 * k)
  {
    assert CacheExponent(0) == 4;
    PowMul(5, 4, k);
  }

  /** The exponent that is left after one turn, against the next power. */
  lemma LoopStep(v: nat, j: nat, k: nat)
    ensures var p := Pow(5, CacheExponent(j));
            v * Pow(p, k) == (v * (if k % 2 == 1 then p else 1)) * Pow(Pow(5, CacheExponent(j + 1)), k / 2)
    ensures k / 2 == 0 ==> Pow(Pow(5, CacheExponent(j + 1)), k / 2) == 1
  {
    hide CacheExponent;
    var p := Pow(5, CacheExponent(j));
    PowHalf(p, k);
    SquareOfPower(j);
    Associate(v, if k % 2 == 1 then p else 1, Pow(p * p, k / 2));
  }
}
