/** What leftmost-longest masking is, without running over the text. */
module CrabMeaning {
  import opened Common
  import opened CrabSpec

  /** A word of the text: where it starts, and its length. */
  datatype Span = Span(start: nat, length: nat)

  predicate Inside(c: Span, q: nat) { c.start <= q < c.start + c.length }

  predicate Covered(cuts: seq<Span>, q: nat) { exists c <- cuts :: Inside(c, q) }

  ghost predicate Ordered(cuts: seq<Span>) {
    forall i, j | 0 <= i < j < |cuts| :: cuts[i].start + cuts[i].length <= cuts[j].start
  }

  /** The spans are words from position i on, each the longest one at its start. */
  ghost predicate LongestWords(words: set<Text>, s: Text, cuts: seq<Span>, i: nat) {
    forall c <- cuts ::
      && i <= c.start && WordAt(words, s, c.start, c.length)
      && forall n: nat | n > c.length :: !WordAt(words, s, c.start, n)
  }

  /** No word starts outside the spans, from position i on. */
  ghost predicate NoneOutside(words: set<Text>, s: Text, cuts: seq<Span>, i: nat) {
    forall q: nat, n: nat | i <= q && !Covered(cuts, q) :: !WordAt(words, s, q, n)
  }

  /** The spans from position i on are words that follow each other, each the longest one at its start,
      and no word starts outside them. */
  ghost predicate Leftmost(words: set<Text>, s: Text, cuts: seq<Span>, i: nat) {
    Ordered(cuts) && LongestWords(words, s, cuts, i) && NoneOutside(words, s, cuts, i)
  }

  /** Masking stars out the characters inside such spans and leaves the others. */
  lemma {:induction false} MaskMeans(words: set<Text>, s: Text, i: nat) returns (cuts: seq<Span>)
    requires i <= |s|
    ensures Leftmost(words, s, cuts, i)
    ensures forall q | i <= q < |s| ::
              Mask(words, s, i)[q - i] == if Covered(cuts, q) then '*' as int else s[q]
    decreases |s| - i
  {
    hide Longest, WordAt, Leftmost, Covered, LongestWords, NoneOutside;
    if i == |s| {
      cuts := [];
      NothingLeft(words, s);
    } else {
      var n := Longest(words, s, i);
      LongestFacts(words, s, i);
      if n > 0 {
        var rest := MaskMeans(words, s, i + n);
        cuts := [Span(i, n)] + rest;
        Cut(words, s, i, n, rest);
      } else {
        cuts := MaskMeans(words, s, i + 1);
        Skip(words, s, i, cuts);
      }
    }
  }

  lemma NothingLeft(words: set<Text>, s: Text)
    ensures Leftmost(words, s, [], |s|)
  {
  }

  lemma LongestFacts(words: set<Text>, s: Text, i: nat)
    requires i < |s|
    ensures var n := Longest(words, s, i);
            && i + n <= |s| && (n > 0 ==> WordAt(words, s, i, n))
            && (forall k: nat | k > n :: !WordAt(words, s, i, k))
            && (n == 0 ==> forall k: nat :: !WordAt(words, s, i, k))
  {
  }

  lemma Cut(words: set<Text>, s: Text, i: nat, n: nat, rest: seq<Span>)
    requires i + n <= |s| && n > 0 && WordAt(words, s, i, n) && forall k: nat | k > n :: !WordAt(words, s, i, k)
    requires Leftmost(words, s, rest, i + n)
    ensures Leftmost(words, s, [Span(i, n)] + rest, i)
    ensures forall q: nat :: Covered([Span(i, n)] + rest, q) <==> i <= q < i + n || Covered(rest, q)
  {
    hide WordAt, NoneOutside, Covered, Ordered;
    var cuts := [Span(i, n)] + rest;
    CutOrdered(Span(i, n), rest);
    CutCovers(Span(i, n), rest);
    forall c | c in cuts ensures c == Span(i, n) || c in rest {}
    CutOutside(words, s, i, n, rest);
  }

  lemma CutOutside(words: set<Text>, s: Text, i: nat, n: nat, rest: seq<Span>)
    requires NoneOutside(words, s, rest, i + n)
    ensures NoneOutside(words, s, [Span(i, n)] + rest, i)
  {
    hide WordAt, Covered;
    CutCovers(Span(i, n), rest);
  }

  lemma CutOrdered(c: Span, rest: seq<Span>)
    requires Ordered(rest) && forall d <- rest :: c.start + c.length <= d.start
    ensures Ordered([c] + rest)
  {
    var cuts := [c] + rest;
    forall a, b | 0 <= a < b < |cuts| ensures cuts[a].start + cuts[a].length <= cuts[b].start {
      assert cuts[b] == rest[b - 1] && rest[b - 1] in rest;
    }
  }

  lemma CutCovers(c: Span, rest: seq<Span>)
    ensures forall q: nat :: Covered([c] + rest, q) <==> Inside(c, q) || Covered(rest, q)
  {
    var cuts := [c] + rest;
    assert c in cuts && forall d <- rest :: d in cuts;
  }

  lemma Skip(words: set<Text>, s: Text, i: nat, cuts: seq<Span>)
    requires i < |s| && (forall k: nat :: !WordAt(words, s, i, k)) && Leftmost(words, s, cuts, i + 1)
    ensures Leftmost(words, s, cuts, i) && !Covered(cuts, i)
  {
    hide WordAt;
  }

  /** There is one such choice of spans. */
  lemma {:induction false} LeftmostUnique(words: set<Text>, s: Text, a: seq<Span>, b: seq<Span>, i: nat)
    requires Leftmost(words, s, a, i) && Leftmost(words, s, b, i)
    ensures a == b
    decreases |a|
  {
    hide WordAt, Leftmost, Covered;
    if a == [] {
      NoSpan(words, s, a, b, i);
    } else if b == [] {
      NoSpan(words, s, b, a, i);
    } else {
      NotBefore(words, s, a, b, i);
      NotBefore(words, s, b, a, i);
      SameLength(words, s, a, b, i);
      var next := a[0].start + a[0].length;
      Behind(words, s, a, i);
      Behind(words, s, b, i);
      LeftmostUnique(words, s, a[1..], b[1..], next);
      assert a == [a[0]] + a[1..] && b == [b[0]] + b[1..];
    }
  }

  lemma NoSpan(words: set<Text>, s: Text, a: seq<Span>, b: seq<Span>, i: nat)
    requires Leftmost(words, s, a, i) && Leftmost(words, s, b, i) && a == []
    ensures b == []
  {
    if b != [] {
      FirstSpan(words, s, b, i);
      OutsideFree(words, s, a, i, b[0].start);
    }
  }

  lemma FirstSpan(words: set<Text>, s: Text, b: seq<Span>, i: nat)
    requires Leftmost(words, s, b, i) && b != []
    ensures i <= b[0].start && WordAt(words, s, b[0].start, b[0].length)
  {
    hide WordAt;
    assert b[0] in b;
  }

  /** No word starts before the first span. */
  lemma OutsideFree(words: set<Text>, s: Text, b: seq<Span>, i: nat, q: nat)
    requires Leftmost(words, s, b, i) && i <= q && (b != [] ==> q < b[0].start)
    ensures forall n: nat :: !WordAt(words, s, q, n)
  {
    hide WordAt;
    forall c | c in b ensures !Inside(c, q) {
      var k :| 0 <= k < |b| && b[k] == c;
      assert k > 0 ==> b[0].start + b[0].length <= b[k].start;
    }
    assert !Covered(b, q);
  }

  /** The first span of one choice does not start before that of the other. */
  lemma NotBefore(words: set<Text>, s: Text, a: seq<Span>, b: seq<Span>, i: nat)
    requires Leftmost(words, s, a, i) && Leftmost(words, s, b, i) && a != [] && b != []
    ensures a[0].start >= b[0].start
  {
    hide WordAt, Leftmost;
    FirstSpan(words, s, a, i);
    if a[0].start < b[0].start {
      OutsideFree(words, s, b, i, a[0].start);
    }
  }

  lemma SameLength(words: set<Text>, s: Text, a: seq<Span>, b: seq<Span>, i: nat)
    requires Leftmost(words, s, a, i) && Leftmost(words, s, b, i) && a != [] && b != [] && a[0].start == b[0].start
    ensures a[0].length == b[0].length
  {
    hide WordAt;
    assert a[0] in a && b[0] in b;
  }

  /** The spans behind the first one. */
  lemma Behind(words: set<Text>, s: Text, a: seq<Span>, i: nat)
    requires Leftmost(words, s, a, i) && a != []
    ensures Leftmost(words, s, a[1..], a[0].start + a[0].length)
  {
    hide WordAt, Covered, NoneOutside;
    var next, rest := a[0].start + a[0].length, a[1..];
    assert a[0] in a;
    forall c | c in rest ensures next <= c.start && c in a {
      var k :| 0 <= k < |rest| && rest[k] == c;
      assert a[k + 1] == c;
    }
    BehindOutside(words, s, a, i);
  }

  lemma BehindOutside(words: set<Text>, s: Text, a: seq<Span>, i: nat)
    requires a != [] && i <= a[0].start && NoneOutside(words, s, a, i)
    ensures NoneOutside(words, s, a[1..], a[0].start + a[0].length)
  {
    hide WordAt, Covered;
    CutCovers(a[0], a[1..]);
    assert a == [a[0]] + a[1..];
  }
}
