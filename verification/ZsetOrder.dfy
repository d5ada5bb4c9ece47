/** Members, scores and the total order of the ranked set (lua-zset).
    Scores are modelled by `real`, members by byte strings. */
module ZsetOrder {
  import opened Common

  /** Members whose length fits the C `int` that `compareslObj` returns. */
  type Member = s: seq<Byte> | |s| < INT_LIMIT

  datatype Element = Element(score: real, member: Member)

  /** memcmp of the first `n` bytes from index `k` on: the sign of the first difference. */
  function Memcmp(a: seq<Byte>, b: seq<Byte>, k: nat, n: nat): int
    requires k <= n <= |a| && n <= |b|
    decreases n - k
  {
    if k == n then 0
    else if a[k] != b[k] then a[k] as int - b[k] as int
    else Memcmp(a, b, k + 1, n)
  }

  /** compareslObj: bytes of the common length first, then the length difference
      truncated to `int`. */
  function CompareObj(a: seq<Byte>, b: seq<Byte>): int {
    var c := Memcmp(a, b, 0, if |a| <= |b| then |a| else |b|);
    if c == 0 then ToInt32(|a| - |b|) else c
  }

  /** The first `k` bytes agree. */
  ghost predicate Agree(a: seq<Byte>, b: seq<Byte>, k: nat) {
    k <= |a| && k <= |b| && forall j | 0 <= j < k :: a[j] == b[j]
  }

  /** The reference order: `a` and `b` agree on `k` bytes, and then `a` ends or has
      the smaller byte. */
  ghost predicate LexBelow(a: seq<Byte>, b: seq<Byte>, k: nat) {
    Agree(a, b, k) && k < |b| && (k == |a| || a[k] < b[k])
  }

  ghost predicate LexLess(a: seq<Byte>, b: seq<Byte>) {
    exists k: nat :: LexBelow(a, b, k)
  }

  /** Memcmp finds the first difference. */
  lemma {:induction false} MemcmpFirst(a: seq<Byte>, b: seq<Byte>, k: nat, n: nat) returns (d: nat)
    requires k <= n <= |a| && n <= |b|
    requires Agree(a, b, k)
    ensures d <= n && Agree(a, b, d)
    ensures d == n ==> Memcmp(a, b, k, n) == 0
    ensures d < n ==> a[d] != b[d] && Memcmp(a, b, k, n) == a[d] as int - b[d] as int
    decreases n - k
  {
    if k == n || a[k] != b[k] {
      d := k;
    } else {
      d := MemcmpFirst(a, b, k + 1, n);
    }
  }

  /** Only the byte at the first difference can witness the order. */
  lemma LexWitness(a: seq<Byte>, b: seq<Byte>, d: nat, k: nat)
    requires Agree(a, b, d)
    requires d < |a| && d < |b| ==> a[d] != b[d]
    requires LexBelow(a, b, k)
    ensures k == d
  {
  }

  /** The comparator truncates the length difference, so on a proper prefix it has the
      wrong sign exactly when the difference is not within 1..2^31 modulo 2^32. */
  predicate TruncationSafe(a: seq<Byte>, b: seq<Byte>) {
    a <= b && |a| < |b| ==> 1 <= (|b| - |a|) % (2 * INT_LIMIT) <= INT_LIMIT
  }

  predicate ReverseTruncationSafe(a: seq<Byte>, b: seq<Byte>) {
    b <= a && |b| < |a| ==> (|a| - |b|) % (2 * INT_LIMIT) < INT_LIMIT
  }

  /** Where the comparator agrees with the lexicographic order: if and only if the
      truncated length difference keeps its sign. */
  lemma CompareExact(a: seq<Byte>, b: seq<Byte>)
    ensures (CompareObj(a, b) < 0 <==> LexLess(a, b))
            <==> TruncationSafe(a, b) && ReverseTruncationSafe(a, b)
  {
    var n := if |a| <= |b| then |a| else |b|;
    var d := MemcmpFirst(a, b, 0, n);
    if LexLess(a, b) {
      var k: nat :| LexBelow(a, b, k);
      LexWitness(a, b, d, k);
    }
    if d < n {
      assert a[d] < b[d] ==> LexBelow(a, b, d);
    } else {
      if |a| < |b| {
        assert LexBelow(a, b, n);
        assert a <= b;
      } else {
        assert b <= a;
      }
      TruncationSign(|a| - |b|);
    }
  }

  /** A prefix that is 2^31 + 1 bytes shorter compares as the larger one. */
  lemma PrefixMisordered(b: seq<Byte>, n: nat)
    requires |b| == n + INT_LIMIT + 1
    ensures LexLess(b[..n], b) && CompareObj(b[..n], b) > 0
  {
    var a := b[..n];
    var d := MemcmpFirst(a, b, 0, n);
    assert LexBelow(a, b, n);
    assert ToInt32(|a| - |b|) == INT_LIMIT - 1;
  }

  lemma TruncationSign(x: int)
    ensures x < 0 ==> (ToInt32(x) < 0 <==> 1 <= (-x) % (2 * INT_LIMIT) <= INT_LIMIT)
    ensures x > 0 ==> (ToInt32(x) < 0 <==> x % (2 * INT_LIMIT) >= INT_LIMIT)
  {
  }

  /** On members the comparator is the lexicographic order, and zero means equality. */
  lemma CompareMembers(a: Member, b: Member)
    ensures CompareObj(a, b) < 0 <==> LexLess(a, b)
    ensures CompareObj(a, b) == 0 <==> a == b
    ensures CompareObj(a, b) > 0 <==> LexLess(b, a)
  {
    CompareExact(a, b);
    CompareExact(b, a);
    var n := if |a| <= |b| then |a| else |b|;
    var d := MemcmpFirst(a, b, 0, n);
    var e := MemcmpFirst(b, a, 0, n);
    assert d == e;
    if d == n && |a| == |b| {
      assert a == b;
    }
  }

  lemma LexTransitive(a: seq<Byte>, b: seq<Byte>, c: seq<Byte>)
    requires LexLess(a, b) && LexLess(b, c)
    ensures LexLess(a, c)
  {
    var j: nat :| LexBelow(a, b, j);
    var k: nat :| LexBelow(b, c, k);
    var m := if j <= k then j else k;
    assert LexBelow(a, c, m);
  }

  /** The condition under which slInsert and slDelete keep walking: `a` is strictly
      before `b`, by score and then by member. */
  predicate Precedes(a: Element, b: Element) {
    a.score < b.score || (a.score == b.score && CompareObj(a.member, b.member) < 0)
  }

  /** The condition under which slGetRank keeps walking. */
  predicate PrecedesOrEquals(a: Element, b: Element) {
    a.score < b.score || (a.score == b.score && CompareObj(a.member, b.member) <= 0)
  }

  /** By score, and among equal scores by member in lexicographic order. */
  lemma PrecedesMeans(a: Element, b: Element)
    ensures Precedes(a, b) <==> a.score < b.score || (a.score == b.score && LexLess(a.member, b.member))
    ensures PrecedesOrEquals(a, b) <==> a.score < b.score || (a.score == b.score && !LexLess(b.member, a.member))
  {
    CompareMembers(a.member, b.member);
  }

  /** "a" is before "b", and "b" before "ba". */
  lemma LettersInOrder()
    ensures CompareObj([0x61], [0x62]) < 0 && CompareObj([0x62], [0x61]) > 0
    ensures CompareObj([0x62], [0x62, 0x61]) < 0 && LexLess([0x61], [0x62]) && LexLess([0x62], [0x62, 0x61])
  {
    assert LexBelow([0x61], [0x62], 0) && LexBelow([0x62], [0x62, 0x61], 1);
    CompareMembers([0x61], [0x62]);
    CompareMembers([0x62], [0x62, 0x61]);
  }

  /** Precedes is a strict total order on elements. */
  lemma PrecedesTotal(a: Element, b: Element)
    ensures Precedes(a, b) || a == b || Precedes(b, a)
    ensures !(Precedes(a, b) && Precedes(b, a))
    ensures !Precedes(a, a)
    ensures PrecedesOrEquals(a, b) <==> !Precedes(b, a)
  {
    CompareMembers(a.member, b.member);
    CompareMembers(b.member, a.member);
    CompareMembers(a.member, a.member);
  }

  lemma PrecedesTransitive(a: Element, b: Element, c: Element)
    requires Precedes(a, b) && Precedes(b, c)
    ensures Precedes(a, c)
  {
    CompareMembers(a.member, b.member);
    CompareMembers(b.member, c.member);
    CompareMembers(a.member, c.member);
    if a.score == b.score == c.score {
      LexTransitive(a.member, b.member, c.member);
    }
  }
}
