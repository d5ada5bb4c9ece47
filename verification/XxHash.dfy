/** XXH32: the one-shot hash and the streaming one. */
module XxHash {
  import opened Common
  import opened Bignum
  import opened Bits

  const PRIME_1: Word := 2654435761
  const PRIME_2: Word := 2246822519
  const PRIME_3: Word := 3266489917
  const PRIME_4: Word := 668265263
  const PRIME_5: Word := 374761393

  function Add(a: int, b: int): Word { (a + b) % U32 }

  function Mul(a: int, b: int): Word { (a * b) % U32 }

  function Rotl(x: Word, r: nat): Word
    requires r <= 32
  {
    Or(Shl(x, r) % U32, Shr(x, 32 - r)) % U32
  }

  /** `h ^ (h >> n)` */
  function XorShift(h: Word, n: nat): Word { Xor(h, Shr(h, n)) % U32 }

  /** XXH_LE32 */
  function Le32(s: seq<Byte>): Word
    requires |s| == 4
  {
    var b0: int, b1: int, b2: int, b3: int := s[0], s[1], s[2], s[3];
    b0 + 0x100 * b1 + 0x1_0000 * b2 + 0x100_0000 * b3
  }

  function Lane(v: Word, w: Word): Word { Mul(Rotl(Add(v, Mul(w, PRIME_2)), 13), PRIME_1) }

  datatype Lanes = Lanes(v1: Word, v2: Word, v3: Word, v4: Word)

  function Start(seed: Word): Lanes {
    Lanes(Add(seed, Add(PRIME_1, PRIME_2)), Add(seed, PRIME_2), seed, Add(seed, 0 - PRIME_1 as int))
  }

  /** Sixteen bytes into the four lanes. */
  function Stripe(l: Lanes, s: seq<Byte>): Lanes
    requires |s| == 16
  {
    Lanes(Lane(l.v1, Le32(s[..4])), Lane(l.v2, Le32(s[4..8])), Lane(l.v3, Le32(s[8..12])), Lane(l.v4, Le32(s[12..])))
  }

  /** All whole stripes of a message; what is left behind them does not count. */
  function Stripes(l: Lanes, s: seq<Byte>): Lanes
    decreases |s|
  {
    if |s| < 16 then l else Stripes(Stripe(l, s[..16]), s[16..])
  }

  function Merge(l: Lanes): Word {
    Add(Add(Rotl(l.v1, 1), Rotl(l.v2, 7)), Add(Rotl(l.v3, 12), Rotl(l.v4, 18)))
  }

  function MixWord(h: Word, w: Word): Word { Mul(Rotl(Add(h, Mul(w, PRIME_3)), 17), PRIME_4) }

  function MixByte(h: Word, b: Byte): Word { Mul(Rotl(Add(h, Mul(b, PRIME_5)), 11), PRIME_1) }

  /** The bytes behind the last stripe. */
  function Tail(h: Word, s: seq<Byte>): Word
    decreases |s|
  {
    if |s| >= 4 then Tail(MixWord(h, Le32(s[..4])), s[4..]) else TailBytes(h, s)
  }

  function TailBytes(h: Word, s: seq<Byte>): Word
    decreases |s|
  {
    if s == [] then h else TailBytes(MixByte(h, s[0]), s[1..])
  }

  function Avalanche(h: Word): Word {
    XorShift(Mul(XorShift(Mul(XorShift(h, 15), PRIME_2), 13), PRIME_3), 16)
  }

  function Rest(s: seq<Byte>): seq<Byte> { s[|s| - |s| % 16..] }

  /** The hash of a message. */
  function Hash(seed: Word, s: seq<Byte>): Word {
    var h := if |s| >= 16 then Merge(Stripes(Start(seed), s)) else Add(seed, PRIME_5);
    Avalanche(Tail(Add(h, |s|), Rest(s)))
  }

  // ---- stripes -------------------------------------------------------------------------------------

  /** Whole stripes can be taken in parts. */
  lemma {:induction false} StripesJoin(l: Lanes, a: seq<Byte>, b: seq<Byte>)
    requires |a| % 16 == 0
    ensures Stripes(l, a + b) == Stripes(Stripes(l, a), b)
    decreases |a|
  {
    hide Stripe;
    if a == [] {
      assert a + b == b;
    } else {
      assert (a + b)[..16] == a[..16] && (a + b)[16..] == a[16..] + b;
      StripesJoin(Stripe(l, a[..16]), a[16..], b);
    }
  }

  lemma OneStripe(l: Lanes, s: seq<Byte>)
    requires |s| == 16
    ensures Stripes(l, s) == Stripe(l, s)
  {
    hide Stripe;
    assert s[..16] == s && Stripes(Stripe(l, s), s[16..]) == Stripe(l, s);
  }

  lemma NoStripe(l: Lanes, s: seq<Byte>)
    requires |s| < 16
    ensures Stripes(l, s) == l
  {
  }

  // ---- one shot ------------------------------------------------------------------------------------

  /** The two loops over the bytes behind the last stripe, and the final mix. */
  method Finish(h0: Word, s: seq<Byte>, start: nat) returns (h: Word)
    requires start <= |s|
    ensures h == Avalanche(Tail(h0, s[start..]))
  {
    hide MixWord, MixByte, Avalanche, Le32;
    h := h0;
    var p := start;
    while p + 4 <= |s|
      invariant start <= p <= |s| && Tail(h, s[p..]) == Tail(h0, s[start..])
    {
      assert s[p..][..4] == s[p..p + 4] && s[p..][4..] == s[p + 4..];
      h := MixWord(h, Le32(s[p..p + 4]));
      p := p + 4;
    }
    while p < |s|
      invariant start <= p <= |s| && TailBytes(h, s[p..]) == Tail(h0, s[start..])
    {
      assert s[p..][1..] == s[p + 1..];
      h := MixByte(h, s[p]);
      p := p + 1;
    }
    h := Avalanche(h);
  }

  /** The stripe loop from position p on. */
  method StripeLoop(l0: Lanes, s: seq<Byte>, start: nat) returns (l: Lanes, p: nat)
    requires start <= |s|
    ensures start <= p <= |s| && |s| - p < 16 && (p - start) % 16 == 0 && l == Stripes(l0, s[start..p])
  {
    hide Stripe, Stripes;
    l, p := l0, start;
    NoStripe(l0, s[start..start]);
    while p + 16 <= |s|
      invariant start <= p <= |s| && (p - start) % 16 == 0 && l == Stripes(l0, s[start..p])
    {
      var stripe := s[p..p + 16];
      assert s[start..p + 16] == s[start..p] + stripe;
      StripesJoin(l0, s[start..p], stripe);
      OneStripe(l, stripe);
      l := Stripe(l, stripe);
      p := p + 16;
    }
  }

  /** XXH32 on a length that is right. */
  method OneShot(input: seq<Byte>, seed: Word) returns (h: Word)
    ensures h == Hash(seed, input)
  {
    hide Stripes, Start, Merge, Tail, Avalanche, Add;
    var p: nat := 0;
    if |input| >= 16 {
      var l;
      l, p := StripeLoop(Start(seed), input, 0);
      assert input == input[0..p] + input[p..];
      StripesJoin(Start(seed), input[0..p], input[p..]);
      NoStripe(l, input[p..]);
      h := Merge(l);
    } else {
      h := Add(seed, PRIME_5);
    }
    h := Add(h, |input|);
    assert p == |input| - |input| % 16;
    h := Finish(h, input, p);
  }

  /** XXH32 as it is called, with the length converted to `int`: a length of 2^31 or more is another
      one, and a negative one skips every loop. */
  method Xxh32(input: seq<Byte>, seed: Word) returns (h: Word)
    ensures |input| < INT_LIMIT ==> h == Hash(seed, input)
    ensures var len := ToInt32(|input|);
            |input| >= INT_LIMIT ==>
              len < |input| && h == if len < 0 then Avalanche(Add(Add(seed, PRIME_5), len))
                  else Hash(seed, input[..len])
  {
    hide Hash, Avalanche, Add, ToInt32;
    var len := ToInt32(|input|);
    LengthKept(|input|);
    if len < 0 {
      h := Avalanche(Add(Add(seed, PRIME_5), len));
    } else {
      h := OneShot(input[..len], seed);
      assert len == |input| ==> input[..len] == input;
    }
  }

  // ---- streaming -----------------------------------------------------------------------------------

  class State {
    var seed: Word
    var lanes: Lanes
    var totalLen: nat
    const memory: array<Byte>
    var memsize: nat

    /** The bytes already mixed into the lanes. */
    ghost var mixed: seq<Byte>

    /** Everything fed so far is what is mixed and what waits in the buffer. */
    ghost predicate Valid()
      reads this, memory
    {
      && memory.Length == 16 && memsize < 16 && |mixed| % 16 == 0
      && lanes == Stripes(Start(seed), mixed)
      && totalLen == |mixed| + memsize < U64
    }

    ghost function Fed(): seq<Byte>
      requires memsize <= memory.Length
      reads this, memory
    {
      mixed + memory[..memsize]
    }

    /** XXH32_init */
    constructor (seed: Word)
      ensures Valid() && fresh(memory) && this.seed == seed && Fed() == []
    {
      this.seed := seed;
      lanes := Start(seed);
      totalLen := 0;
      memory := new Byte[16](i => 0);
      memsize := 0;
      mixed := [];
    }

    /** XXH32_resetState */
    method Reset(seed: Word)
      requires memory.Length == 16
      modifies this
      ensures Valid() && this.seed == seed && Fed() == []
    {
      this.seed := seed;
      lanes := Start(seed);
      totalLen := 0;
      memsize := 0;
      mixed := [];
    }

    /** memcpy into the buffer */
    method Fill(input: seq<Byte>, from: nat, n: nat)
      requires memory.Length == 16 && memsize + n <= 16 && from + n <= |input|
      modifies memory
      ensures memory[..memsize + n] == old(memory[..memsize]) + input[from..from + n]
    {
      forall i | 0 <= i < n { memory[memsize + i] := input[from + i]; }
      assert memory[..memsize] == old(memory[..memsize]);
      assert memory[memsize..memsize + n] == input[from..from + n];
      assert memory[..memsize + n] == memory[..memsize] + memory[memsize..memsize + n];
    }

    /** XXH32_update as it is called, with the length converted to `int`; false where the sum of
        memsize and the length overflows and the buffer is overrun. */
    method Update(input: seq<Byte>) returns (ok: bool)
      requires Valid() && totalLen + |input| < U64
      modifies this, memory
      ensures ok <==> Counted(old(memsize), |input|)
      ensures ok ==>
                && Valid() && seed == old(seed) && memsize == totalLen % 16
                && Fed() == old(Fed()) + Given(input) && totalLen == old(totalLen) + |Given(input)|
      ensures ok && Fed() == old(Fed()) + input <==> old(memsize) + |input| < INT_LIMIT
    {
      hide Valid, Fed, Stripes, Start, ToInt32;
      InBuffer();
      LengthKept(|input|);
      var len := ToInt32(|input|);
      var sum := ToInt32(memsize + len);
      if len >= 0 && memsize + len >= INT_LIMIT { SumOverflows(memsize + len); }
      if sum < 16 && (len < 0 || memsize + len > 16) { return false; }
      UpdateBy(input[..len]);
      GivenAll(input, old(Fed()));
      ok := true;
    }

    /** XXH32_update, where no sum overflows. */
    method UpdateBy(input: seq<Byte>)
      requires Valid() && totalLen + |input| < U64
      modifies this, memory
      ensures Valid() && seed == old(seed) && Fed() == old(Fed()) + input
      ensures totalLen == old(totalLen) + |input| && memsize == totalLen % 16
    {
      hide Valid, Fed, Stripes, Start;
      InBuffer();
      if memsize + |input| < 16 {
        Keep(input);
        InBuffer();
        return;
      }
      var p := 0;
      if memsize > 0 {
        p := 16 - memsize;
        TopUp(input, p);
      } else {
        NothingKept();
        assert mixed == old(Fed()) + input[..0];
      }
      totalLen := totalLen + |input| - p;
      Bulk(input, p);
      assert input[..p] + input[p..] == input;
      InBuffer();
    }

    lemma InBuffer()
      requires Valid()
      ensures memory.Length == 16 && memsize < 16 && memsize == totalLen % 16
    {
      hide Stripes, Start;
    }

    lemma FedLength()
      requires Valid()
      ensures memsize <= memory.Length && |Fed()| == totalLen < U64
    {
      hide Stripes, Start;
    }

    lemma NothingKept()
      requires Valid() && memsize == 0
      ensures Fed() == mixed && totalLen == |mixed| && |mixed| % 16 == 0 && lanes == Stripes(Start(seed), mixed)
    {
      hide Stripes, Start;
    }

    /** Less than a stripe: it only goes into the buffer. */
    method Keep(input: seq<Byte>)
      requires Valid() && memsize + |input| < 16 && totalLen + |input| < U64
      modifies this`totalLen, this`memsize, memory
      ensures Valid() && Fed() == old(Fed()) + input && totalLen == old(totalLen) + |input|
    {
      hide Stripes, Start;
      totalLen := totalLen + |input|;
      Fill(input, 0, |input|);
      assert input[0..|input|] == input;
      memsize := memsize + |input|;
    }

    /** Filling the buffer and mixing it. */
    method TopUp(input: seq<Byte>, n: nat)
      requires Valid() && memsize + n == 16 && n <= |input|
      modifies this`lanes, this`mixed, this`memsize, this`totalLen, memory
      ensures memsize == 0 && mixed == old(Fed()) + input[..n] && |mixed| % 16 == 0
      ensures lanes == Stripes(Start(seed), mixed) && totalLen == |mixed| == old(totalLen) + n
    {
      hide Stripe, Stripes, Start;
      totalLen := totalLen + n;
      Fill(input, 0, n);
      assert memory[..16] == memory[..];
      StripesJoin(Start(seed), mixed, memory[..]);
      OneStripe(lanes, memory[..]);
      lanes := Stripe(lanes, memory[..]);
      mixed := mixed + memory[..];
      memsize := 0;
    }

    /** The rest of XXH32_update, with an empty buffer. */
    method Bulk(input: seq<Byte>, start: nat)
      requires memory.Length == 16 && memsize == 0 && start <= |input| && |mixed| % 16 == 0
      requires lanes == Stripes(Start(seed), mixed) && totalLen == |mixed| + |input| - start < U64
      modifies this, memory
      ensures Valid() && seed == old(seed) && totalLen == old(totalLen)
      ensures Fed() == old(mixed) + input[start..]
    {
      hide Stripe, Stripes, Start;
      var l, p := StripeLoop(lanes, input, start);
      StripesJoin(Start(seed), mixed, input[start..p]);
      lanes := l;
      mixed := mixed + input[start..p];
      Fill(input, p, |input| - p);
      memsize := |input| - p;
      Regroup(old(mixed), input, start, p);
    }

    static lemma Regroup(a: seq<Byte>, input: seq<Byte>, i: nat, j: nat)
      requires i <= j <= |input|
      ensures (a + input[i..j]) + input[j..|input|] == a + input[i..]
    {
    }

    /** XXH32_intermediateDigest: the hash of everything fed, with the state as it was. */
    method Digest() returns (h: Word)
      requires Valid()
      ensures h == Hash(seed, Fed())
    {
      hide Stripes, Start, Merge, Tail, Avalanche, Add;
      if totalLen >= 16 {
        h := Merge(lanes);
      } else {
        h := Add(seed, PRIME_5);
      }
      h := Add(h, totalLen);
      StripesJoin(Start(seed), mixed, memory[..memsize]);
      NoStripe(lanes, memory[..memsize]);
      assert Rest(Fed()) == memory[..memsize];
      h := Finish(h, memory[..memsize], 0);
      assert memory[..memsize][0..] == memory[..memsize];
    }
  }

  /** What is left of the input after its length has been converted. */
  function Given(input: seq<Byte>): seq<Byte> {
    LengthKept(|input|);
    if ToInt32(|input|) < 0 then [] else input[..ToInt32(|input|)]
  }

  /** The length and its sum with memsize fit an `int`. */
  predicate Counted(memsize: nat, n: nat) { 0 <= ToInt32(n) && memsize + ToInt32(n) < INT_LIMIT }

  lemma GivenAll(input: seq<Byte>, fed: seq<Byte>)
    ensures fed + Given(input) == fed + input <==> |input| < INT_LIMIT
  {
    hide ToInt32;
    LengthKept(|input|);
    if |input| < INT_LIMIT {
      assert input[..|input|] == input;
    } else {
      assert |fed + Given(input)| < |fed + input|;
    }
  }

  /** One byte in the buffer and a chunk of 2^31 - 1 bytes. */
  lemma ChunkTooLarge()
    ensures !Counted(1, 0x7FFF_FFFF) && Counted(0, 0x7FFF_FFFF)
  {
  }

  /** Every chunk fits an `int` together with what it finds in the buffer. */
  ghost predicate ChunksFit(chunks: seq<seq<Byte>>) {
    forall i | 0 <= i < |chunks| :: |Joined(chunks[..i])| % 16 + |chunks[i]| < INT_LIMIT
  }

  /** What the state takes of the chunks. */
  function Taken(chunks: seq<seq<Byte>>): seq<Byte> {
    if chunks == [] then [] else Taken(chunks[..|chunks| - 1]) + Given(chunks[|chunks| - 1])
  }

  /** No chunk overruns the buffer. */
  ghost predicate AllCounted(chunks: seq<seq<Byte>>) {
    forall i | 0 <= i < |chunks| :: Counted(|Taken(chunks[..i])| % 16, |chunks[i]|)
  }

  /** Feeding a message in chunks, with a digest taken after each: it goes through if and only if no
      chunk overruns the buffer, and gives at each point the hash of what was taken, which for chunks
      that fit is what was given. */
  method Stream(seed: Word, chunks: seq<seq<Byte>>) returns (ok: bool, digests: seq<Word>)
    requires |Joined(chunks)| < U64
    ensures ok <==> AllCounted(chunks)
    ensures ok ==> |digests| == |chunks| + 1
                   && forall i | 0 <= i <= |chunks| :: digests[i] == Hash(seed, Taken(chunks[..i]))
    ensures ChunksFit(chunks) ==> ok && forall i | 0 <= i <= |chunks| :: digests[i] == Hash(seed, Joined(chunks[..i]))
  {
    hide Hash, ToInt32, Given, State.Valid, State.Fed, Joined, Taken, Counted, ChunksFit;
    var state := new State(seed);
    state.InBuffer();
    state.FedLength();
    var d := state.Digest();
    ok, digests := true, [d];
    var i := 0;
    NoChunks(chunks);
    while i < |chunks|
      invariant i <= |chunks| && fresh(state) && fresh(state.memory) && ok
      invariant state.Valid() && state.seed == seed && state.totalLen <= |Joined(chunks[..i])|
      invariant |digests| == i + 1 && state.memsize <= state.memory.Length && state.Fed() == Taken(chunks[..i])
      invariant forall k | 0 <= k < i :: Counted(|Taken(chunks[..k])| % 16, |chunks[k]|)
      invariant forall k | 0 <= k <= i :: digests[k] == Hash(seed, Taken(chunks[..k]))
    {
      NextChunk(chunks, i);
      state.InBuffer();
      state.FedLength();
      ok := state.Update(chunks[i]);
      if !ok {
        FitIsCounted(chunks);
        return;
      }
      state.InBuffer();
      d := state.Digest();
      digests := digests + [d];
      i := i + 1;
    }
    FitIsCounted(chunks);
  }

  lemma NoChunks(chunks: seq<seq<Byte>>)
    ensures Joined(chunks[..0]) == [] == Taken(chunks[..0])
  {
  }

  lemma NextChunk(chunks: seq<seq<Byte>>, i: nat)
    requires i < |chunks|
    ensures Joined(chunks[..i + 1]) == Joined(chunks[..i]) + chunks[i] && |Joined(chunks[..i + 1])| <= |Joined(chunks)|
    ensures Taken(chunks[..i + 1]) == Taken(chunks[..i]) + Given(chunks[i]) && |Given(chunks[i])| <= |chunks[i]|
  {
    hide ToInt32, Given;
    assert chunks[..i + 1][..i] == chunks[..i];
    JoinedGrows(chunks, i + 1);
    GivenFits(chunks[i]);
  }

  lemma GivenFits(input: seq<Byte>)
    ensures |Given(input)| <= |input| && (|input| < INT_LIMIT ==> Given(input) == input)
    ensures forall m: nat | m + |input| < INT_LIMIT :: Counted(m, |input|)
  {
    hide ToInt32;
    LengthKept(|input|);
    assert input[..|input|] == input;
  }

  /** The state takes every chunk whole if the chunks fit. */
  lemma {:induction false} FitIsTaken(chunks: seq<seq<Byte>>, i: nat)
    requires ChunksFit(chunks) && i <= |chunks|
    ensures Taken(chunks[..i]) == Joined(chunks[..i])
  {
    hide Given, Counted;
    if i > 0 {
      FitIsTaken(chunks, i - 1);
      NextChunk(chunks, i - 1);
      GivenFits(chunks[i - 1]);
      assert |Joined(chunks[..i - 1])| % 16 + |chunks[i - 1]| < INT_LIMIT;
    } else {
      NoChunks(chunks);
    }
  }

  lemma FitIsCounted(chunks: seq<seq<Byte>>)
    ensures ChunksFit(chunks) ==> AllCounted(chunks) && forall i | 0 <= i <= |chunks| ::
              Taken(chunks[..i]) == Joined(chunks[..i])
  {
    hide Given, Counted, Taken, Joined;
    if ChunksFit(chunks) {
      forall i | 0 <= i <= |chunks| ensures Taken(chunks[..i]) == Joined(chunks[..i]) {
        FitIsTaken(chunks, i);
      }
      forall i | 0 <= i < |chunks| ensures Counted(|Taken(chunks[..i])| % 16, |chunks[i]|) {
        FitIsTaken(chunks, i);
        GivenFits(chunks[i]);
      }
    }
  }

  lemma {:induction false} TakenLength(chunks: seq<seq<Byte>>, i: nat)
    requires i <= |chunks|
    ensures |Taken(chunks[..i])| <= |Joined(chunks[..i])|
    ensures |Taken(chunks[..i])| == |Joined(chunks[..i])| ==>
              forall k | 0 <= k < i :: |Given(chunks[k])| == |chunks[k]| && Taken(chunks[..k]) == Joined(chunks[..k])
  {
    hide Given, Taken, Joined;
    if i > 0 {
      TakenLength(chunks, i - 1);
      NextChunk(chunks, i - 1);
      if |Taken(chunks[..i])| == |Joined(chunks[..i])| {
        TakenWhole(chunks, i - 1);
      }
    } else {
      NoChunks(chunks);
    }
  }

  lemma {:induction false} TakenWhole(chunks: seq<seq<Byte>>, i: nat)
    requires i <= |chunks| && |Taken(chunks[..i])| == |Joined(chunks[..i])|
    ensures Taken(chunks[..i]) == Joined(chunks[..i])
  {
    hide Given, Taken, Joined;
    if i > 0 {
      TakenLength(chunks, i - 1);
      NextChunk(chunks, i - 1);
      TakenWhole(chunks, i - 1);
      GivenSame(chunks[i - 1]);
    } else {
      NoChunks(chunks);
    }
  }

  /** The state takes exactly the message if and only if every chunk, with what it finds in the buffer,
      is shorter than 2^31. */
  lemma StreamExact(chunks: seq<seq<Byte>>)
    ensures AllCounted(chunks) && Taken(chunks) == Joined(chunks) <==> ChunksFit(chunks)
  {
    hide Given, Counted, Taken, Joined;
    assert chunks[..|chunks|] == chunks;
    FitIsCounted(chunks);
    if AllCounted(chunks) && Taken(chunks) == Joined(chunks) {
      TakenLength(chunks, |chunks|);
      forall i | 0 <= i < |chunks| ensures |Joined(chunks[..i])| % 16 + |chunks[i]| < INT_LIMIT {
        GivenSame(chunks[i]);
        assert Counted(|Taken(chunks[..i])| % 16, |chunks[i]|);
        CountedKept(|Taken(chunks[..i])| % 16, |chunks[i]|);
      }
    }
  }

  /** A chunk taken with its length is taken whole. */
  lemma GivenSame(input: seq<Byte>)
    requires |Given(input)| == |input|
    ensures Given(input) == input && |input| < INT_LIMIT
  {
    hide ToInt32;
    LengthKept(|input|);
  }

  lemma CountedKept(memsize: nat, n: nat)
    requires Counted(memsize, n) && n < INT_LIMIT
    ensures memsize + n < INT_LIMIT
  {
    hide ToInt32;
    LengthKept(n);
  }

  lemma {:induction false} JoinedGrows(chunks: seq<seq<Byte>>, i: nat)
    requires i <= |chunks|
    ensures |Joined(chunks[..i])| <= |Joined(chunks)|
    decreases |chunks| - i
  {
    if i < |chunks| {
      JoinedGrows(chunks, i + 1);
      assert chunks[..i + 1][..i] == chunks[..i];
    } else {
      assert chunks[..i] == chunks;
    }
  }
}
