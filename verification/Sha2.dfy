/** SHA-256 and SHA-512 as lsha2.c runs them: a 16-word ring in the input buffer, and a buffered
    update. */
module Sha2 {
  import opened Common
  import opened Bignum
  import opened Sha2Spec

  // ---- words in the buffer ---------------------------------------------------------------------

  /** A word as the machine keeps it, lowest byte first. */
  function Le(s: Bytes): nat {
    if s == [] then 0 else s[0] + 256 * Le(s[1..])
  }

  function LeBytes(w: nat, n: nat): (s: Bytes)
    ensures |s| == n
    decreases n
  {
    if n == 0 then [] else [w % 256] + LeBytes(w / 256, n - 1)
  }

  lemma {:induction false} LeOfBytes(w: nat, n: nat)
    requires w < Pow(256, n)
    ensures Le(LeBytes(w, n)) == w
    decreases n
  {
    if n > 0 {
      LeOfBytes(w / 256, n - 1);
      assert LeBytes(w, n)[1..] == LeBytes(w / 256, n - 1);
    }
  }

  lemma WordFits(alg: Algorithm, w: nat)
    requires Proper(alg) && w < Modulus(alg)
    ensures w < Pow(256, alg.wordBytes)
  {
    assert Pow(256, 2) == 0x1_0000;
    assert Pow(256, 4) == U32;
    assert Pow(256, 6) == 0x1_0000_0000_0000;
    assert Pow(256, 8) == U64;
  }

  /** Word i of the ring. */
  function Slot(alg: Algorithm, buffer: Bytes, i: nat): nat
    requires |buffer| == BlockSize(alg) && i < 16
  {
    Le(buffer[WordStart(alg, i)..WordStart(alg, i) + alg.wordBytes])
  }

  /** The buffer with word i replaced. */
  function Stored(alg: Algorithm, buffer: Bytes, i: nat, w: nat): (s: Bytes)
    requires |buffer| == BlockSize(alg) && i < 16
    ensures |s| == |buffer|
  {
    var at := WordStart(alg, i);
    buffer[..at] + LeBytes(w, alg.wordBytes) + buffer[at + alg.wordBytes..]
  }

  lemma SpliceKeeps(s: Bytes, at: nat, piece: Bytes, lo: nat, hi: nat)
    requires at + |piece| <= |s| && lo <= hi <= |s| && (hi <= at || at + |piece| <= lo)
    ensures (s[..at] + piece + s[at + |piece|..])[lo..hi] == s[lo..hi]
  {
  }

  lemma SlotStored(alg: Algorithm, buffer: Bytes, i: nat, w: nat)
    requires |buffer| == BlockSize(alg) && i < 16 && Proper(alg) && w < Modulus(alg)
    ensures Slot(alg, Stored(alg, buffer, i, w), i) == w
  {
    hide Le, LeBytes, Proper, BlockSize, Modulus, WordStart;
    WordFits(alg, w);
    LeOfBytes(w, alg.wordBytes);
    var n, at := alg.wordBytes, WordStart(alg, i);
    assert Stored(alg, buffer, i, w)[at..at + n] == LeBytes(w, n);
  }

  lemma SlotKept(alg: Algorithm, buffer: Bytes, i: nat, w: nat, k: nat)
    requires |buffer| == BlockSize(alg) && i < 16 && k < 16 && i != k
    ensures Slot(alg, Stored(alg, buffer, i, w), k) == Slot(alg, buffer, k)
  {
    hide Le, LeBytes, BlockSize, WordStart;
    var n := alg.wordBytes;
    if k < i { WordOrder(alg, k, i); } else { WordOrder(alg, i, k); }
    SpliceKeeps(buffer, WordStart(alg, i), LeBytes(w, n), WordStart(alg, k), WordStart(alg, k) + n);
  }

  // ---- the ring ------------------------------------------------------------------------------------

  /** The last 16 words of the schedule before t are in the ring. */
  ghost predicate Ring(alg: Algorithm, block: Bytes, buffer: Bytes, t: nat)
    requires |block| == BlockSize(alg) && |buffer| == BlockSize(alg)
  {
    forall s | 0 <= s < t && t <= s + 16 :: Slot(alg, buffer, s % 16) == Schedule(alg, block, s)
  }

  lemma RingStep(alg: Algorithm, block: Bytes, buffer: Bytes, t: nat, w: nat)
    requires |block| == BlockSize(alg) && |buffer| == BlockSize(alg) && Proper(alg)
    requires Ring(alg, block, buffer, t) && w == Schedule(alg, block, t) && w < Modulus(alg)
    ensures Ring(alg, block, Stored(alg, buffer, t % 16, w), t + 1)
  {
    hide Slot, Stored, Schedule, Proper, BlockSize, Modulus;
    SlotStored(alg, buffer, t % 16, w);
    forall s | 0 <= s < t + 1 && t + 1 <= s + 16
      ensures Slot(alg, Stored(alg, buffer, t % 16, w), s % 16) == Schedule(alg, block, s)
    {
      if s < t {
        Distinct(s, t);
        SlotKept(alg, buffer, t % 16, w, s % 16);
      }
    }
  }

  lemma Distinct(s: nat, t: nat)
    requires s < t < s + 16
    ensures s % 16 != t % 16
  {
  }

  lemma RingReads(alg: Algorithm, block: Bytes, buffer: Bytes, t: nat)
    requires |block| == BlockSize(alg) && |buffer| == BlockSize(alg) && Ring(alg, block, buffer, t) && t >= 16
    ensures Schedule(alg, block, t)
            == Cut(alg, Slot(alg, buffer, t % 16)
                        + (alg.smallSigma1(Slot(alg, buffer, (t + 14) % 16)) + Slot(alg, buffer, (t + 9) % 16)
                           + alg.smallSigma0(Slot(alg, buffer, (t + 1) % 16))))
  {
    hide Slot, Cut, BlockSize, Ring, Schedule;
    ScheduleNext(alg, block, t);
    RingAt(alg, block, buffer, t, 16, 0);
    RingAt(alg, block, buffer, t, 2, 14);
    RingAt(alg, block, buffer, t, 7, 9);
    RingAt(alg, block, buffer, t, 15, 1);
  }

  lemma ScheduleNext(alg: Algorithm, block: Bytes, t: nat)
    requires |block| == BlockSize(alg) && t >= 16
    ensures Schedule(alg, block, t)
            == Cut(alg, Schedule(alg, block, t - 16)
                        + (alg.smallSigma1(Schedule(alg, block, t - 2)) + Schedule(alg, block, t - 7)
                           + alg.smallSigma0(Schedule(alg, block, t - 15))))
  {
    hide Cut, BlockSize;
  }

  /** The word made `back` rounds ago. */
  lemma RingAt(alg: Algorithm, block: Bytes, buffer: Bytes, t: nat, back: nat, ahead: nat)
    requires |block| == BlockSize(alg) && |buffer| == BlockSize(alg) && Ring(alg, block, buffer, t)
    requires back + ahead == 16 && 1 <= back <= t
    ensures Slot(alg, buffer, (t + ahead) % 16) == Schedule(alg, block, t - back)
  {
    hide Slot, Schedule, BlockSize;
    assert (t - back) % 16 == (t + ahead) % 16;
  }

  lemma {:induction false} BeBelow(s: Bytes)
    ensures Be(s) < Pow(256, |s|)
  {
    if s != [] { BeBelow(s[..|s| - 1]); }
  }

  lemma ScheduleBelow(alg: Algorithm, block: Bytes, t: nat)
    requires |block| == BlockSize(alg) && Proper(alg)
    ensures Schedule(alg, block, t) < Modulus(alg)
  {
    if t < 16 {
      hide Be, WordStart;
      BeBelow(block[WordStart(alg, t)..WordStart(alg, t) + alg.wordBytes]);
      Powers();
    }
  }

  lemma Powers()
    ensures Pow(256, 4) == U32 && Pow(256, 8) == U64
  {
    assert Pow(256, 2) == 0x1_0000;
    assert Pow(256, 4) == U32;
    assert Pow(256, 6) == 0x1_0000_0000_0000;
  }

  /** The next word and the words behind it, in the data and in the block. */
  lemma Slices(data: Bytes, at: nat, n: nat, end: nat, block: Bytes, start: nat)
    requires at + n <= end <= |data| && start + n <= |block| && data[at..end] == block[start..]
    ensures data[at..at + n] == block[start..start + n] && data[at + n..end] == block[start + n..]
  {
    assert data[at..at + n] == data[at..end][..n] && block[start..start + n] == block[start..][..n];
    assert data[at + n..end] == data[at..end][n..] && block[start + n..] == block[start..][n..];
  }

  lemma TailSlice(s: Bytes, lo: nat, hi: nat)
    requires lo <= hi == |s|
    ensures s[lo..hi] == s[lo..]
  {
  }

  lemma ScheduleStart(alg: Algorithm, block: Bytes, t: nat)
    requires |block| == BlockSize(alg) && t < 16
    ensures Schedule(alg, block, t) == WordAt(alg, block, t)
  {
  }

  lemma CutLate(alg: Algorithm, x: nat, y: nat)
    ensures Cut(alg, x + Cut(alg, y)) == Cut(alg, x + y)
  {
  }

  lemma NextRound(alg: Algorithm, block: Bytes, r: Regs, t: nat)
    requires |block| == BlockSize(alg)
    ensures Rounds(alg, block, r, t + 1) == Round(alg, Rounds(alg, block, r, t), t, Schedule(alg, block, t))
  {
    hide Round, Schedule;
  }

  // ---- the context -----------------------------------------------------------------------------------

  class Context {
    const alg: Algorithm
    var state: Regs
    var bitLo: nat
    var bitHi: nat
    const buffer: array<Byte>

    /** Everything given to Update, and how much of it is in the state. */
    ghost var fed: Bytes
    ghost var mixed: Bytes

    ghost predicate Shape() {
      Proper(alg) && buffer.Length == BlockSize(alg)
    }

    /** The block to hash: it may be the buffer itself. */
    predicate Source(data: array<Byte>, off: nat) {
      off + BlockSize(alg) <= data.Length && (data == buffer ==> off == 0)
    }

    /** The words of the block from word j on have not been overwritten. */
    ghost predicate Live(data: array<Byte>, off: nat, block: Bytes, j: nat)
      requires Source(data, off) && |block| == BlockSize(alg)
      reads data
    {
      j < 16 ==>
        data[off + WordStart(alg, j)..off + BlockSize(alg)] == block[WordStart(alg, j)..]
    }

    /** Writing word i of the ring. */
    method Store(i: nat, w: nat)
      requires Shape() && i < 16
      modifies buffer
      ensures buffer[..] == Stored(alg, old(buffer[..]), i, w)
    {
      hide LeBytes, Proper, WordStart;
      var n, at, bytes := alg.wordBytes, WordStart(alg, i), LeBytes(w, alg.wordBytes);
      forall k | 0 <= k < n { buffer[at + k] := bytes[k]; }
      assert buffer[..] == old(buffer[..at]) + bytes + old(buffer[at + n..]);
    }

    /** One of the first 16 words: read from the block, put into the ring. */
    method TakeWord(data: array<Byte>, off: nat, ghost block: Bytes, j: nat) returns (w: nat)
      requires Shape() && Source(data, off) && |block| == BlockSize(alg) && j < 16
      requires Live(data, off, block, j) && Ring(alg, block, buffer[..], j)
      modifies buffer
      ensures w == Schedule(alg, block, j)
      ensures Live(data, off, block, j + 1) && Ring(alg, block, buffer[..], j + 1)
    {
      hide Be, Schedule, Ring, Stored, Proper, WordStart, BlockSize;
      var n := alg.wordBytes;
      ghost var start, end := WordStart(alg, j), off + BlockSize(alg);
      var at := off + WordStart(alg, j);
      w := Be(data[at..at + n]);
      Slices(data[..], at, n, end, block, start);
      ScheduleStart(alg, block, j);
      ScheduleBelow(alg, block, j);
      RingStep(alg, block, buffer[..], j, w);
      ghost var kept := data[..][at + n..end];
      assert kept == data[at + n..end];
      Store(j, w);
      StoredRest(old(buffer[..]), j, w);
      if data == buffer {
        assert off == 0 && end == data.Length;
        TailSlice(old(data[..]), at + n, end);
        TailSlice(data[..], at + n, end);
        assert data[at + n..end] == data[..][at + n..end];
      }
      if j < 15 { WordOrder(alg, j, j + 1); }
    }

    lemma StoredRest(s: Bytes, j: nat, w: nat)
      requires |s| == BlockSize(alg) && j < 16
      ensures var end := WordStart(alg, j) + alg.wordBytes; Stored(alg, s, j, w)[end..] == s[end..]
    {
      hide LeBytes, WordStart;
    }

    /** One of the other words: made from the ring, put into the ring. */
    method RingWord(ghost block: Bytes, j: nat) returns (w: nat)
      requires Shape() && |block| == BlockSize(alg) && j >= 16 && Ring(alg, block, buffer[..], j)
      modifies buffer
      ensures w == Schedule(alg, block, j) && Ring(alg, block, buffer[..], j + 1)
    {
      hide Slot, Schedule, Ring, Stored, Proper, Cut;
      var s0 := alg.smallSigma0(Slot(alg, buffer[..], (j + 1) % 16));
      var s1 := alg.smallSigma1(Slot(alg, buffer[..], (j + 14) % 16));
      RingReads(alg, block, buffer[..], j);
      ScheduleBelow(alg, block, j);
      w := Cut(alg, Slot(alg, buffer[..], j % 16) + (s1 + Slot(alg, buffer[..], (j + 9) % 16) + s0));
      RingStep(alg, block, buffer[..], j, w);
      Store(j % 16, w);
    }

    /** The body of the loops of the rolled transform. */
    method RolledRound(r: Regs, j: nat, w: nat) returns (r': Regs)
      ensures r' == Round(alg, r, j, w)
    {
      hide Cut;
      var a, b, c, d, e, f, g, h := r.a, r.b, r.c, r.d, r.e, r.f, r.g, r.h;
      var t1 := Cut(alg, h + alg.bigSigma1(e) + alg.ch(e, f, g) + alg.k(j) + w);
      var t2 := Cut(alg, alg.bigSigma0(a) + alg.maj(a, b, c));
      h := g;
      g := f;
      f := e;
      e := Cut(alg, d + t1);
      d := c;
      c := b;
      b := a;
      a := Cut(alg, t1 + t2);
      r' := Regs(a, b, c, d, e, f, g, h);
    }

    /** SHA256Transform and SHA512Transform, rolled. */
    method Transform(data: array<Byte>, off: nat)
      requires Shape() && Source(data, off)
      modifies this`state, buffer
      ensures state == Compress(alg, old(state), old(data[off..off + BlockSize(alg)]))
    {
      hide Schedule, Ring, Round, Rounds, Sum, Live, BlockSize;
      ghost var block := data[off..off + BlockSize(alg)];
      var r, j: nat := state, 0;
      Begin(data, off, block);
      while j < 16
        invariant j <= 16 && state == old(state)
        invariant Live(data, off, block, j) && Ring(alg, block, buffer[..], j)
        invariant r == Rounds(alg, block, state, j)
      {
        NextRound(alg, block, state, j);
        var w := TakeWord(data, off, block, j);
        r := RolledRound(r, j, w);
        j := j + 1;
      }
      while j < alg.rounds
        invariant 16 <= j <= alg.rounds && state == old(state)
        invariant Ring(alg, block, buffer[..], j)
        invariant r == Rounds(alg, block, state, j)
      {
        NextRound(alg, block, state, j);
        var w := RingWord(block, j);
        r := RolledRound(r, j, w);
        j := j + 1;
      }
      state := Sum(alg, state, r);
    }

    lemma Begin(data: array<Byte>, off: nat, block: Bytes)
      requires Shape() && Source(data, off) && block == data[off..off + BlockSize(alg)]
      ensures Live(data, off, block, 0) && Ring(alg, block, buffer[..], 0)
      ensures Rounds(alg, block, state, 0) == state
    {
    }

    // ---- unrolled

    method NextWord(data: array<Byte>, off: nat, ghost block: Bytes, j: nat) returns (w: nat)
      requires Shape() && Source(data, off) && |block| == BlockSize(alg)
      requires Live(data, off, block, j) && Ring(alg, block, buffer[..], j)
      modifies buffer
      ensures w == Schedule(alg, block, j)
      ensures Live(data, off, block, j + 1) && Ring(alg, block, buffer[..], j + 1)
    {
      hide Schedule, Ring, BlockSize;
      if j < 16 {
        w := TakeWord(data, off, block, j);
      } else {
        w := RingWord(block, j);
      }
    }

    /** What ROUND256 and ROUND512 do to the registers: only the fourth and the eighth change. */
    method Mix(a: nat, b: nat, c: nat, d: nat, e: nat, f: nat, g: nat, h: nat, j: nat, w: nat)
        returns (d': nat, h': nat)
      ensures Regs(h', a, b, c, d', e, f, g) == Round(alg, Regs(a, b, c, d, e, f, g, h), j, w)
    {
      hide Cut;
      var t1 := Cut(alg, h + alg.bigSigma1(e) + alg.ch(e, f, g) + alg.k(j) + w);
      d' := Cut(alg, d + t1);
      CutLate(alg, t1, alg.bigSigma0(a) + alg.maj(a, b, c));
      h' := Cut(alg, t1 + (alg.bigSigma0(a) + alg.maj(a, b, c)));
    }

    /** Eight rounds in a row, each with its registers moved by one instead of copied. */
    method EightRounds(data: array<Byte>, off: nat, ghost block: Bytes, j: nat, r: Regs, ghost r0: Regs)
        returns (r': Regs)
      requires Shape() && Source(data, off) && |block| == BlockSize(alg)
      requires Live(data, off, block, j) && Ring(alg, block, buffer[..], j) && r == Rounds(alg, block, r0, j)
      modifies buffer
      ensures Live(data, off, block, j + 8) && Ring(alg, block, buffer[..], j + 8)
      ensures r' == Rounds(alg, block, r0, j + 8)
    {
      hide Schedule, Ring, Round, Rounds, Live, BlockSize;
      var a, b, c, d, e, f, g, h := r.a, r.b, r.c, r.d, r.e, r.f, r.g, r.h;
      NextRound(alg, block, r0, j);
      var w := NextWord(data, off, block, j);
      d, h := Mix(a, b, c, d, e, f, g, h, j, w);
      NextRound(alg, block, r0, j + 1);
      w := NextWord(data, off, block, j + 1);
      c, g := Mix(h, a, b, c, d, e, f, g, j + 1, w);
      NextRound(alg, block, r0, j + 2);
      w := NextWord(data, off, block, j + 2);
      b, f := Mix(g, h, a, b, c, d, e, f, j + 2, w);
      NextRound(alg, block, r0, j + 3);
      w := NextWord(data, off, block, j + 3);
      a, e := Mix(f, g, h, a, b, c, d, e, j + 3, w);
      NextRound(alg, block, r0, j + 4);
      w := NextWord(data, off, block, j + 4);
      h, d := Mix(e, f, g, h, a, b, c, d, j + 4, w);
      NextRound(alg, block, r0, j + 5);
      w := NextWord(data, off, block, j + 5);
      g, c := Mix(d, e, f, g, h, a, b, c, j + 5, w);
      NextRound(alg, block, r0, j + 6);
      w := NextWord(data, off, block, j + 6);
      f, b := Mix(c, d, e, f, g, h, a, b, j + 6, w);
      NextRound(alg, block, r0, j + 7);
      w := NextWord(data, off, block, j + 7);
      e, a := Mix(b, c, d, e, f, g, h, a, j + 7, w);
      r' := Regs(a, b, c, d, e, f, g, h);
    }

    /** SHA256Transform and SHA512Transform, unrolled. */
    method TransformUnrolled(data: array<Byte>, off: nat)
      requires Shape() && Source(data, off)
      modifies this`state, buffer
      ensures state == Compress(alg, old(state), old(data[off..off + BlockSize(alg)]))
    {
      hide Schedule, Ring, Round, Rounds, Sum, Live, BlockSize;
      ghost var block := data[off..off + BlockSize(alg)];
      var r, j: nat := state, 0;
      Begin(data, off, block);
      while j < alg.rounds
        invariant j <= alg.rounds && j % 8 == 0 && state == old(state)
        invariant Live(data, off, block, j) && Ring(alg, block, buffer[..], j)
        invariant r == Rounds(alg, block, state, j)
      {
        r := EightRounds(data, off, block, j, r, state);
        j := j + 8;
      }
      state := Sum(alg, state, r);
    }

    // ---- messages

    /** The bit count after n bytes; SHA-256 keeps 64 bits of it, SHA-512 128. */
    ghost predicate Counted(n: nat)
      reads this`bitLo, this`bitHi
    {
      bitLo == 8 * n % U64 && (alg.wordBytes == 8 ==> bitHi == 8 * n / U64 % U64)
    }

    ghost predicate Valid()
      reads this, buffer
    {
      && Shape() && Counted(|fed|)
      && |mixed| % BlockSize(alg) == 0 && state == Blocks(alg, alg.initial, mixed)
      && |fed| - |mixed| == |fed| % BlockSize(alg)
      && fed == mixed + buffer[..|fed| % BlockSize(alg)]
    }

    /** SHA256Init and SHA512Init */
    constructor (alg: Algorithm)
      requires Proper(alg)
      ensures Valid() && fresh(buffer) && this.alg == alg && fed == []
    {
      this.alg := alg;
      state := alg.initial;
      bitLo, bitHi := 0, 0;
      buffer := new Byte[BlockSize(alg)](i => 0);
      fed, mixed := [], [];
      new;
      NoBlock(alg, alg.initial, []);
      assert |fed| % BlockSize(alg) == 0;
    }

    /** `bitcount[0] += n`, or ADDINC128 */
    method AddBits(bytes: nat, ghost n: nat)
      requires Counted(n) && 8 * bytes < U64
      modifies this`bitLo, this`bitHi
      ensures Counted(n + bytes)
    {
      CountUp(8 * n, 8 * bytes);
      assert 8 * (n + bytes) == 8 * n + 8 * bytes;
      bitLo := (bitLo + 8 * bytes) % U64;
      if alg.wordBytes == 8 && bitLo < 8 * bytes {
        bitHi := (bitHi + 1) % U64;
      }
    }

    /** How much of the buffer is in use. */
    method Used() returns (used: nat)
      requires Valid()
      ensures used == |fed| % BlockSize(alg)
    {
      hide Blocks;
      used := bitLo / 8 % BlockSize(alg);
      UsedIsRest(|fed|, alg);
    }

    method CopyIn(data: array<Byte>, from: nat, at: nat, n: nat)
      requires data != buffer && from + n <= data.Length && at + n <= buffer.Length
      modifies buffer
      ensures buffer[..at + n] == old(buffer[..at]) + data[from..from + n]
    {
      forall i | 0 <= i < n { buffer[at + i] := data[from + i]; }
    }

    /** A block that completes what was given. */
    method Absorb(data: array<Byte>, off: nat)
      requires Shape() && Source(data, off) && |mixed| % BlockSize(alg) == 0
      requires state == Blocks(alg, alg.initial, mixed)
      modifies this`state, this`mixed, buffer
      ensures mixed == old(mixed) + old(data[off..off + BlockSize(alg)])
      ensures |mixed| % BlockSize(alg) == 0 && state == Blocks(alg, alg.initial, mixed)
    {
      hide *;
      BlockInRange(data, off);
      ghost var block := data[off..off + BlockSize(alg)];
      AddBlock(|mixed|, BlockSize(alg));
      BlocksJoin(alg, alg.initial, mixed, block);
      OneBlock(alg, state, block);
      Transform(data, off);
      mixed := mixed + block;
    }

    lemma BlockInRange(data: array<Byte>, off: nat)
      requires Shape() && Source(data, off)
      ensures alg.wordBytes > 0 && off + BlockSize(alg) <= data.Length
    {
    }

    /** The same, at a block boundary: the buffer holds nothing. */
    ghost predicate Aligned()
      reads this
    {
      && Shape() && Counted(|fed|) && mixed == fed
      && |fed| % BlockSize(alg) == 0 && state == Blocks(alg, alg.initial, mixed)
    }

    lemma AlignedIsValid()
      ensures Aligned() <==> Valid() && |fed| % BlockSize(alg) == 0
    {
      hide Blocks, Proper, Counted;
      assert Shape() ==> buffer[..0] == [];
    }

    /** Filling the buffer and hashing it. */
    method TopUp(input: array<Byte>, used: nat, n: nat)
      requires Valid() && input != buffer && n <= input.Length && used == |fed| % BlockSize(alg)
               && used + n == BlockSize(alg)
      modifies this, buffer
      ensures Aligned() && fed == old(fed) + input[..n]
    {
      hide Blocks, Proper, Counted, BlockSize;
      ghost var tail := buffer[..used];
      CopyIn(input, 0, used, n);
      assert input[0..n] == input[..n];
      assert buffer[0..0 + BlockSize(alg)] == buffer[..used + n] == tail + input[..n];
      SmallBlock(alg);
      AddBits(n, |fed|);
      Absorb(buffer, 0);
      assert mixed == old(mixed) + (tail + input[..n]) == fed + input[..n];
      fed := fed + input[..n];
    }

    /** Keeping what does not complete a block. */
    method Keep(input: array<Byte>, from: nat, used: nat)
      requires Valid() && input != buffer && from <= input.Length
      requires used == |fed| % BlockSize(alg) && used + (input.Length - from) < BlockSize(alg)
      modifies this, buffer
      ensures Valid() && fed == old(fed) + input[from..]
    {
      hide Blocks, Proper, Counted, BlockSize;
      var n := input.Length - from;
      CopyIn(input, from, used, n);
      SmallBlock(alg);
      AddBits(n, |fed|);
      RestGrows(|fed|, n, BlockSize(alg));
      fed := fed + input[from..];
    }

    /** SHA256Update and SHA512Update */
    method Update(input: array<Byte>)
      requires Valid() && input != buffer
      modifies this, buffer
      ensures Valid() && fed == old(fed) + input[..]
    {
      hide Valid, Aligned, Shape, BlockSize, Blocks, Counted;
      if input.Length == 0 { return; }
      var used := Used();
      var n := BlockSize(alg);
      BufferSize();
      var p := 0;
      AlignedIsValid();
      if used > 0 {
        var free := n - used;
        if input.Length >= free {
          TopUp(input, used, free);
          p := free;
        } else {
          Keep(input, 0, used);
          return;
        }
      } else {
        assert fed == old(fed) + input[..0];
      }
      Bulk(input, p);
      assert input[..] == input[..p] + input[p..];
    }

    /** The loop over whole blocks of the input, and what is left. */
    method Bulk(input: array<Byte>, start: nat)
      requires Aligned() && input != buffer && start <= input.Length
      modifies this, buffer
      ensures Valid() && fed == old(fed) + input[start..]
    {
      hide Valid, Aligned, Shape, BlockSize, Blocks, Counted;
      var n := BlockSize(alg);
      AlignedIsValid();
      BufferSize();
      var p := start;
      while input.Length - p >= n
        invariant start <= p <= input.Length && Aligned() && fed == old(fed) + input[start..p]
        decreases input.Length - p
      {
        InputSlices(input, start, p, p + n);
        Whole(input, p);
        p := p + n;
      }
      InputSlices(input, start, p, input.Length);
      KeepRest(input, p);
    }

    static lemma InputSlices(input: array<Byte>, i: nat, j: nat, k: nat)
      requires i <= j <= k <= input.Length
      ensures input[i..k] == input[i..j] + input[j..k] && input[i..] == input[i..input.Length]
    {
    }

    /** What is left behind the last whole block, which may be nothing. */
    method KeepRest(input: array<Byte>, p: nat)
      requires Aligned() && input != buffer && p <= input.Length < p + BlockSize(alg)
      modifies this, buffer
      ensures Valid() && fed == old(fed) + input[p..]
    {
      hide Valid, Aligned, Shape, BlockSize, Blocks, Counted;
      AlignedIsValid();
      if input.Length - p > 0 {
        Keep(input, p, 0);
      } else {
        assert input[p..] == [];
      }
    }

    lemma BufferSize()
      requires Valid()
      ensures BlockSize(alg) > 0
    {
    }

    /** A whole block of the input. */
    method Whole(input: array<Byte>, p: nat)
      requires Aligned() && input != buffer && p + BlockSize(alg) <= input.Length
      modifies this, buffer
      ensures Aligned() && fed == old(fed) + input[p..p + BlockSize(alg)]
    {
      hide Blocks, Proper, Counted, BlockSize;
      SmallBlock(alg);
      AddBits(BlockSize(alg), |fed|);
      fed := fed + input[p..p + BlockSize(alg)];
      Absorb(input, p);
    }

    // ---- padding

    method ZeroFill(from: nat, to: nat)
      requires from <= to <= buffer.Length
      modifies buffer
      ensures buffer[..] == old(buffer[..from]) + Zeros(to - from) + old(buffer[to..])
    {
      forall i | from <= i < to { buffer[i] := 0; }
    }

    /** All but the length of the padding is in place: `whole` is hashed, the buffer holds the rest. */
    ghost predicate Padded(whole: Bytes)
      reads this, buffer
    {
      && Shape() && LengthSize(alg) <= BlockSize(alg)
      && |whole| % BlockSize(alg) == 0 && state == Blocks(alg, alg.initial, whole)
      && whole + buffer[..BlockSize(alg) - LengthSize(alg)] + BeBytes(8 * |fed|, LengthSize(alg))
         == fed + Padding(alg, |fed|)
    }

    /** The branches of SHA256Final and SHA512Last before the length is stored. */
    method PadOut()
      requires Valid()
      modifies this`state, this`mixed, buffer
      ensures Padded(mixed)
    {
      hide *;
      var used := Used();
      Sizes();
      var short := BlockSize(alg) - LengthSize(alg);
      if used > 0 {
        if used + 1 <= short {
          PadShort(used);
        } else {
          PadLong(used);
        }
      } else {
        PadEmpty();
      }
    }

    /** The buffer is empty. */
    method PadEmpty()
      requires Valid() && |fed| % BlockSize(alg) == 0
      modifies buffer
      ensures Padded(mixed)
    {
      hide Blocks, Proper, Counted, BlockSize, LengthSize, Padding, Zeros, BeBytes;
      Sizes();
      var short := BlockSize(alg) - LengthSize(alg);
      ZeroFill(0, short);
      buffer[0] := 0x80;
      ZerosRest(short);
      assert buffer[..short] == ([] + [0x80]) + Zeros(short - 1);
      PadOneBlock(alg, mixed, [], fed);
    }

    /** The padding fits behind what is in the buffer. */
    method PadShort(used: nat)
      requires Valid() && used == |fed| % BlockSize(alg) && used + 1 + LengthSize(alg) <= BlockSize(alg)
      modifies buffer
      ensures Padded(mixed)
    {
      hide Blocks, Proper, Counted, BlockSize, LengthSize, Padding, Zeros, BeBytes;
      var short := BlockSize(alg) - LengthSize(alg);
      ghost var tail := buffer[..used];
      buffer[used] := 0x80;
      assert buffer[..used + 1] == tail + [0x80];
      ZeroFill(used + 1, short);
      assert buffer[..short] == (tail + [0x80]) + Zeros(short - used - 1);
      PadOneBlock(alg, mixed, tail, fed);
    }

    /** The padding needs a second block. */
    method PadLong(used: nat)
      requires Valid() && used == |fed| % BlockSize(alg) && used + 1 + LengthSize(alg) > BlockSize(alg)
      modifies this`state, this`mixed, buffer
      ensures Padded(mixed)
    {
      hide Blocks, Proper, Counted, BlockSize, LengthSize, Padding, Zeros, BeBytes;
      Sizes();
      ghost var tail := buffer[..used];
      PadTwoBlocks(alg, mixed, tail, fed);
      EndBlock(used);
      var short := BlockSize(alg) - LengthSize(alg);
      var to := if alg.wordBytes == 4 then short else BlockSize(alg) - 2;
      ZeroFill(0, to);
      assert buffer[..to] == Zeros(to);
      ZerosPrefix(buffer[..to], to, short);
      assert buffer[..to][..short] == buffer[..short];
    }

    /** The last block of the message, ended and hashed. */
    method EndBlock(used: nat)
      requires Valid() && used == |fed| % BlockSize(alg) < BlockSize(alg)
      modifies this`state, this`mixed, buffer
      ensures mixed == old(mixed) + ((old(buffer[..used]) + [0x80]) + Zeros(BlockSize(alg) - used - 1))
      ensures |mixed| % BlockSize(alg) == 0 && state == Blocks(alg, alg.initial, mixed)
    {
      hide Blocks, Proper, Counted, BlockSize, Zeros;
      var n := BlockSize(alg);
      ghost var tail := buffer[..used];
      buffer[used] := 0x80;
      assert buffer[..used + 1] == tail + [0x80];
      ZeroFill(used + 1, n);
      assert buffer[0..0 + n] == (tail + [0x80]) + Zeros(n - used - 1);
      Absorb(buffer, 0);
    }

    /** The bit count as it is stored, highest byte first. */
    method StoreLength()
      requires Shape() && Counted(|fed|) && LengthSize(alg) <= BlockSize(alg)
      modifies buffer
      ensures buffer[..] == old(buffer[..BlockSize(alg) - LengthSize(alg)]) + BeBytes(8 * |fed|, LengthSize(alg))
    {
      hide BeBytes;
      var short := BlockSize(alg) - LengthSize(alg);
      var bytes := if alg.wordBytes == 8 then BeBytes(bitHi, 8) + BeBytes(bitLo, 8) else BeBytes(bitLo, 8);
      LengthField(alg, |fed|);
      forall i | 0 <= i < |bytes| { buffer[short + i] := bytes[i]; }
    }

    /** SHA256Final and SHA512Final: the digest of everything given to Update. The context is
        cleared. */
    method Final() returns (digest: Bytes)
      requires Valid()
      modifies this, buffer
      ensures digest == Digest(alg, old(fed))
    {
      hide Blocks, Proper, Counted, Padding, BeBytes, Output, Zeros, BlockSize, LengthSize;
      ghost var message := fed;
      PadOut();
      ghost var front := buffer[..BlockSize(alg) - LengthSize(alg)];
      StoreLength();
      ghost var last := buffer[..];
      assert mixed + last == mixed + front + BeBytes(8 * |fed|, LengthSize(alg));
      assert buffer[0..0 + BlockSize(alg)] == last;
      Absorb(buffer, 0);
      digest := Output(alg, state);
      Clear();
    }

    method Clear()
      modifies this, buffer
    {
      state, bitLo, bitHi := Regs(0, 0, 0, 0, 0, 0, 0, 0), 0, 0;
      ZeroFill(0, buffer.Length);
    }

    lemma Sizes()
      requires Valid()
      ensures 2 <= LengthSize(alg) && LengthSize(alg) + 1 < BlockSize(alg)
    {
    }
  }

  lemma AddBlock(x: nat, n: nat)
    requires n > 0 && x % n == 0
    ensures (x + n) % n == 0
  {
    var q := x / n;
    assert x == n * q && n * (q + 1) == n * q + n;
    MultipleRemainder(q + 1, n);
  }

  lemma SmallBlock(alg: Algorithm)
    requires Proper(alg)
    ensures 0 < BlockSize(alg) && 8 * BlockSize(alg) < U64
  {
  }

  lemma RestGrows(x: nat, k: nat, n: nat)
    requires n > 0 && x % n + k < n
    ensures (x + k) % n == x % n + k
  {
    var q := x / n;
    assert x == n * q + x % n && n * (q + 1) == n * q + n;
    QuotientUnique(x + k, n, q);
  }

  lemma ZerosRest(n: nat)
    requires n > 0
    ensures Zeros(n)[1..] == Zeros(n - 1)
  {
  }

  lemma ZerosPrefix(s: Bytes, to: nat, n: nat)
    requires n <= to <= |s| && s[..to] == Zeros(to)
    ensures s[..n] == Zeros(n)
  {
    assert s[..n] == s[..to][..n];
  }

  /** The padding that fits behind what is in the buffer. */
  lemma PadOneBlock(alg: Algorithm, mixed: Bytes, tail: Bytes, fed: Bytes)
    requires Proper(alg) && fed == mixed + tail && |mixed| % BlockSize(alg) == 0
    requires |tail| + 1 + LengthSize(alg) <= BlockSize(alg)
    ensures mixed + ((tail + [0x80]) + Zeros(BlockSize(alg) - LengthSize(alg) - |tail| - 1))
            + BeBytes(8 * |fed|, LengthSize(alg))
            == fed + Padding(alg, |fed|)
  {
    hide Zeros, BeBytes, BlockSize, LengthSize, ZeroCount, Padding;
    ZerosNeeded(alg, |mixed|, |tail|);
    var z := BlockSize(alg) - LengthSize(alg) - |tail| - 1;
    PaddingIs(alg, |fed|);
    RegroupOne(mixed, tail, [0x80], Zeros(z), BeBytes(8 * |fed|, LengthSize(alg)));
  }

  lemma PaddingIs(alg: Algorithm, n: nat)
    requires alg.wordBytes > 0
    ensures Padding(alg, n) == [0x80] + Zeros(ZeroCount(alg, n)) + BeBytes(8 * n, LengthSize(alg))
  {
    hide Zeros, BeBytes, ZeroCount, LengthSize;
  }

  lemma RegroupOne(m: Bytes, t: Bytes, c: Bytes, y: Bytes, l: Bytes)
    ensures m + ((t + c) + y) + l == (m + t) + (c + y + l)
  {
  }

  /** The padding that needs another block. */
  lemma PadTwoBlocks(alg: Algorithm, mixed: Bytes, tail: Bytes, fed: Bytes)
    requires Proper(alg) && fed == mixed + tail && |mixed| % BlockSize(alg) == 0
    requires |tail| < BlockSize(alg) < |tail| + 1 + LengthSize(alg)
    ensures (mixed + ((tail + [0x80]) + Zeros(BlockSize(alg) - |tail| - 1)))
            + Zeros(BlockSize(alg) - LengthSize(alg)) + BeBytes(8 * |fed|, LengthSize(alg))
            == fed + Padding(alg, |fed|)
  {
    hide BeBytes, Zeros, BlockSize, LengthSize, ZeroCount;
    ZerosNeeded(alg, |mixed|, |tail|);
    var a, b := BlockSize(alg) - |tail| - 1, BlockSize(alg) - LengthSize(alg);
    JoinZeros(a, b);
    Regroup(mixed, tail, [0x80], Zeros(a), Zeros(b), BeBytes(8 * |fed|, LengthSize(alg)));
  }

  lemma JoinZeros(a: nat, b: nat)
    ensures Zeros(a) + Zeros(b) == Zeros(a + b)
  {
  }

  lemma Regroup(m: Bytes, t: Bytes, c: Bytes, y: Bytes, z: Bytes, l: Bytes)
    ensures (m + ((t + c) + y)) + z + l == (m + t) + (c + (y + z) + l)
  {
  }

  lemma ZerosNeeded(alg: Algorithm, whole: nat, tail: nat)
    requires Proper(alg) && whole % BlockSize(alg) == 0 && tail < BlockSize(alg)
    ensures 0 <= LengthSize(alg) < BlockSize(alg)
    ensures var room := BlockSize(alg) - LengthSize(alg) - tail - 1;
            ZeroCount(alg, whole + tail) == if room >= 0 then room else room + BlockSize(alg)
  {
    PadCount(BlockSize(alg), LengthSize(alg), whole, tail);
  }

  lemma PadCount(b: int, l: int, whole: int, tail: int)
    requires 0 <= l < b && 0 <= tail < b && 0 <= whole && whole % b == 0
    ensures (b - (whole + tail + 1 + l) % b) % b == if tail + 1 + l <= b then b - l - tail - 1 else 2 * b - l - tail - 1
  {
    PadRest(b, whole, tail + 1 + l);
    OneTurn(b, if tail + 1 + l < b then tail + 1 + l else tail + 1 + l - b);
  }

  lemma PadRest(b: int, whole: int, x: int)
    requires 0 <= x < 2 * b && 0 <= whole && whole % b == 0
    ensures (whole + x) % b == if x < b then x else x - b
  {
    var q := whole / b;
    BlockTimes(b, q);
    assert whole == b * q;
    QuotientUnique(whole + x, b, if x < b then q else q + 1);
  }

  lemma BlockTimes(b: int, q: int)
    ensures b * (q + 1) == b * q + b && b * (q + 2) == b * q + 2 * b
  {
  }

  lemma OneTurn(b: int, r: int)
    requires 0 <= r < b
    ensures (b - r) % b == if r == 0 then 0 else b - r
  {
    QuotientUnique(b - r, b, if r == 0 then 1 else 0);
  }

  /** The bit count, although it wraps, tells where the last block starts. */
  lemma UsedIsRest(n: nat, alg: Algorithm)
    requires Proper(alg)
    ensures 8 * n % U64 / 8 % BlockSize(alg) == n % BlockSize(alg)
  {
    var q, r := n / EIGHTH, n % EIGHTH;
    QuotientUnique(8 * n, U64, q);
    assert 8 * n % U64 / 8 == r;
    var b, m := BlockSize(alg), EIGHTH / BlockSize(alg);
    assert EIGHTH == b * m;
    WholeParts(n, b, m);
  }

  const EIGHTH: nat := 0x2000_0000_0000_0000

  lemma WholeParts(n: nat, b: nat, m: nat)
    requires b > 0 && m > 0 && b * m > 0
    ensures n % (b * m) % b == n % b
  {
    var q, r := n / (b * m), n % (b * m);
    assert n == (b * m) * q + r && (b * m) * q == b * (m * q);
    assert r == b * (r / b) + r % b;
    assert b * (m * q + r / b) == b * (m * q) + b * (r / b);
    QuotientUnique(n, b, m * q + r / b);
  }

  /** Adding to the low half carries into the high half. */
  lemma CountUp(x: nat, k: nat)
    requires k < U64
    ensures (x % U64 + k) % U64 == (x + k) % U64
    ensures (x + k) / U64 % U64 == if (x + k) % U64 < k then (x / U64 % U64 + 1) % U64 else x / U64 % U64
  {
    var q, m := x / U64, x % U64;
    assert x == U64 * q + m;
    if m + k < U64 {
      QuotientUnique(x + k, U64, q);
    } else {
      QuotientUnique(x + k, U64, q + 1);
      QuotientUnique(m + k, U64, 1);
      NextRemainder(q);
    }
  }

  lemma NextRemainder(q: nat)
    ensures (q + 1) % U64 == (q % U64 + 1) % U64
  {
  }

  /** The stored bit count is the length field of the padding. */
  lemma LengthField(alg: Algorithm, n: nat)
    requires Proper(alg)
    ensures alg.wordBytes == 4 ==> BeBytes(8 * n % U64, 8) == BeBytes(8 * n, LengthSize(alg))
    ensures alg.wordBytes == 8 ==>
              BeBytes(8 * n / U64 % U64, 8) + BeBytes(8 * n % U64, 8) == BeBytes(8 * n, LengthSize(alg))
  {
    hide BeBytes, Pow;
    Powers();
    BeBytesMod(8 * n, 8, U64);
    BeBytesMod(8 * n / U64, 8, U64);
    BeBytesJoin(8 * n / U64, 8 * n % U64, 8, 8);
    assert 8 * n / U64 * U64 + 8 * n % U64 == 8 * n;
  }

  /** A message given in any chunks has the digest of the message. */
  method HashChunks(alg: Algorithm, chunks: seq<Bytes>) returns (digest: Bytes)
    requires Proper(alg)
    ensures digest == Digest(alg, Joined(chunks))
  {
    hide Digest, Proper;
    var context := new Context(alg);
    var i := 0;
    while i < |chunks|
      invariant i <= |chunks| && fresh(context) && fresh(context.buffer) && context.Valid()
      invariant context.alg == alg && context.fed == Joined(chunks[..i])
    {
      assert chunks[..i + 1][..i] == chunks[..i];
      var input := new Byte[|chunks[i]|](k requires 0 <= k < |chunks[i]| => chunks[i][k]);
      assert input[..] == chunks[i];
      context.Update(input);
      i := i + 1;
    }
    assert chunks[..i] == chunks;
    digest := context.Final();
  }
}
