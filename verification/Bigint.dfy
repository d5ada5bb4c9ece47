/** The multiple-precision integers of dtoa.c: objects whose words are updated in place,
    drawn from and returned to a pool, and a cache of powers of five that extends itself. */
module BigintPool {
  import opened Bignum

  const KMAX := 7

  class Bigint {
    const k: nat
    var sign: int
    var wds: nat
    var x: seq<Word>       // as many words as the capacity 2^k
    var next: Bigint?

    constructor (k: nat)
      ensures this.k == k && |x| == Pow(2, k) && wds == 0 && sign == 0 && next == null
    {
      this.k := k;
      sign, wds, next := 0, 0, null;
      x := seq(Pow(2, k), _ => 0);
    }

    ghost predicate Valid()
      reads `x, `wds
    {
      |x| == Pow(2, k) && wds <= |x|
    }

    ghost function Value(): nat
      requires Valid()
      reads `x, `wds
    {
      Val(x[..wds])
    }

    /** At least one word, and no leading zero word. */
    ghost predicate Normal()
      reads `x, `wds
    {
      Valid() && 1 <= wds && (wds > 1 ==> x[wds - 1] != 0)
    }
  }

  /** The exponent of the i-th cached power of five. */
  function CacheExponent(i: nat): nat { 4 * Pow(2, i) }

  /** The process-wide state: free objects by capacity, and the cache p5s. */
  class Pool {
    var freelist: seq<seq<Bigint>>
    var p5s: Bigint?
    ghost var free: set<Bigint>
    ghost var cache: seq<Bigint>

    /** The free lists hold exactly the free objects, each once, by capacity. */
    ghost predicate FreeLists()
      reads `freelist, `free, free
    {
      && |freelist| == KMAX + 1
      && (forall k, i | 0 <= k < |freelist| && 0 <= i < |freelist[k]| ::
            freelist[k][i] in free && freelist[k][i].k == k)
      && (forall k, i, j | 0 <= k < |freelist| && 0 <= i < j < |freelist[k]| :: freelist[k][i] != freelist[k][j])
      && (forall v | v in free :: v.Valid() && v.k <= KMAX && v in freelist[v.k])
    }

    /** The cache is a list by `next` whose i-th node denotes 5^(4*2^i). */
    ghost predicate Cached()
      reads `p5s, `cache, cache
    {
      && p5s == (if cache == [] then null else cache[0])
      && (forall i | 0 <= i < |cache| ::
            && cache[i].next == (if i + 1 < |cache| then cache[i + 1] else null)
            && cache[i].Normal() && cache[i].Value() == Pow(5, CacheExponent(i)))
      && (forall i, j | 0 <= i < j < |cache| :: cache[i] != cache[j])
    }

    ghost predicate Valid()
      reads this, free, cache
    {
      FreeLists() && Cached() && forall i | 0 <= i < |cache| :: cache[i] !in free
    }

    /** `v` belongs to the caller: it is neither free nor cached. */
    ghost predicate Owned(v: Bigint)
      reads this, v
    {
      v.Valid() && v !in free && v !in cache
    }

    constructor ()
      ensures Valid() && free == {} && cache == []
    {
      freelist := seq(KMAX + 1, _ => []);
      p5s, free, cache := null, {}, [];
    }

    /** Balloc: an object of capacity 2^k, reused if possible. */
    method Balloc(k: nat) returns (v: Bigint)
      requires Valid()
      modifies this`freelist, this`free, free
      ensures Valid() && Owned(v) && v.k == k && v.wds == 0 && v.sign == 0
      ensures v in old(free) || fresh(v)
      ensures free == old(free) - {v}
    {
      hide Cached, Pow;
      if k <= KMAX && freelist[k] != [] {
        v := freelist[k][0];
        freelist := freelist[k := freelist[k][1..]];
        free := free - {v};
        v.sign, v.wds := 0, 0;
      } else {
        v := new Bigint(k);
      }
    }

    /** Bfree: small objects go back to their list. */
    method Bfree(v: Bigint)
      requires Valid() && Owned(v)
      modifies this`freelist, this`free
      ensures Valid()
      ensures free == if v.k <= KMAX then old(free) + {v} else old(free)
    {
      hide Cached, Bigint.Valid;
      if v.k <= KMAX {
        freelist := freelist[v.k := [v] + freelist[v.k]];
        free := free + {v};
      }
    }

    /** Links a new power behind the last cached one. */
    method Extend(last: Bigint, p51: Bigint)
      requires Valid() && cache != [] && last == cache[|cache| - 1]
      requires Owned(p51) && p51.Normal() && p51.Value() == Pow(5, CacheExponent(|cache|))
      modifies `cache, last`next, p51`next
      ensures Valid() && cache == old(cache) + [p51]
    {
      hide FreeLists, Pow, Val, Bigint.Valid, Bigint.Normal, Bigint.Value;
      last.next := p51;
      p51.next := null;
      cache := cache + [p51];
    }

    /** What a cached node denotes, and which node follows it. */
    lemma CachedAt(i: nat)
      requires Valid() && i < |cache|
      ensures cache[i].Normal() && cache[i].Value() == Pow(5, CacheExponent(i)) && cache[i] !in free
      ensures cache[i].next == if i + 1 < |cache| then cache[i + 1] else null
    {
    }
  }
}
