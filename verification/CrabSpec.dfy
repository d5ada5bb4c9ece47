/** Leftmost-longest masking of a text by a set of words. */
module CrabSpec {
  import opened Common

  type Text = seq<Rune>

  const STAR: Rune := 0x2A

  /** The word of length n at position i, if the text has one. */
  ghost predicate WordAt(words: set<Text>, s: Text, i: nat, n: nat) {
    n >= 1 && i + n <= |s| && s[i..i + n] in words
  }

  /** The length of the longest word at i that is not longer than m; 0 for none. */
  ghost function LongestUpTo(words: set<Text>, s: Text, i: nat, m: nat): (n: nat)
    ensures n <= m
    ensures n > 0 ==> WordAt(words, s, i, n)
    ensures forall k | n < k <= m :: !WordAt(words, s, i, k)
  {
    if m == 0 then 0 else if WordAt(words, s, i, m) then m else LongestUpTo(words, s, i, m - 1)
  }

  ghost function Longest(words: set<Text>, s: Text, i: nat): nat
    requires i <= |s|
  {
    LongestUpTo(words, s, i, |s| - i)
  }

  /** The longest word at i is the longest of any length. */
  lemma LongestIs(words: set<Text>, s: Text, i: nat, n: nat)
    requires i <= |s| && (n > 0 ==> WordAt(words, s, i, n))
    requires forall k: nat | WordAt(words, s, i, k) :: k <= n
    ensures Longest(words, s, i) == n
  {
    var l := Longest(words, s, i);
    assert n > 0 ==> i + n <= |s|;
  }

  function Stars(n: nat): Text { seq(n, _ => STAR) }

  /** The text from i on, with the leftmost-longest words masked. */
  ghost function Mask(words: set<Text>, s: Text, i: nat): (r: Text)
    requires i <= |s|
    ensures |r| == |s| - i
    decreases |s| - i
  {
    if i == |s| then []
    else
      var n := Longest(words, s, i);
      if n > 0 then Stars(n) + Mask(words, s, i + n) else [s[i]] + Mask(words, s, i + 1)
  }

  /** Whether anything from i on is masked. */
  ghost predicate Hit(words: set<Text>, s: Text, i: nat)
    requires i <= |s|
    decreases |s| - i
  {
    i < |s| && (Longest(words, s, i) > 0 || Hit(words, s, i + 1))
  }

  /** A text is hit exactly when some word occurs in it. */
  lemma {:induction false} HitIffOccurs(words: set<Text>, s: Text, i: nat)
    requires i <= |s|
    ensures Hit(words, s, i) <==> exists j: nat, n: nat :: i <= j <= |s| && WordAt(words, s, j, n)
    decreases |s| - i
  {
    if i < |s| {
      HitIffOccurs(words, s, i + 1);
      if Longest(words, s, i) > 0 {
        assert WordAt(words, s, i, Longest(words, s, i));
      } else {
        assert forall n: nat | n <= |s| - i :: !WordAt(words, s, i, n);
        assert forall n: nat :: !WordAt(words, s, i, n);
      }
    }
  }

  /** Nothing is masked outside the words: an unhit text stays as it is. */
  lemma {:induction false} UnhitUnchanged(words: set<Text>, s: Text, i: nat)
    requires i <= |s| && !Hit(words, s, i)
    ensures Mask(words, s, i) == s[i..]
    decreases |s| - i
  {
    if i < |s| {
      UnhitUnchanged(words, s, i + 1);
    }
  }

  /** One more step of a filter that has masked the text up to i. */
  ghost predicate FilteredTo(words: set<Text>, s: Text, cur: Text, i: nat) {
    i <= |s| == |cur| && cur[i..] == s[i..] && cur[..i] + Mask(words, s, i) == Mask(words, s, 0)
  }

  lemma FilterStart(words: set<Text>, s: Text)
    ensures FilteredTo(words, s, s, 0)
  {
    assert s[..0] + Mask(words, s, 0) == Mask(words, s, 0);
  }

  lemma FilterSkip(words: set<Text>, s: Text, cur: Text, i: nat)
    requires FilteredTo(words, s, cur, i) && i < |s| && Longest(words, s, i) == 0
    ensures FilteredTo(words, s, cur, i + 1)
  {
    assert cur[i] == cur[i..][0] == s[i..][0] == s[i];
    assert cur[i + 1..] == cur[i..][1..] == s[i..][1..] == s[i + 1..];
    assert cur[..i + 1] + Mask(words, s, i + 1) == cur[..i] + ([s[i]] + Mask(words, s, i + 1));
  }

  lemma FilterMask(words: set<Text>, s: Text, cur: Text, cur': Text, i: nat, n: nat)
    requires FilteredTo(words, s, cur, i) && i < |s| && n == Longest(words, s, i) > 0
    requires cur' == cur[..i] + Stars(n) + cur[i + n..]
    ensures FilteredTo(words, s, cur', i + n)
  {
    assert cur'[..i + n] == cur[..i] + Stars(n);
    assert cur'[i + n..] == cur[i + n..] == cur[i..][n..] == s[i..][n..] == s[i + n..];
    assert cur'[..i + n] + Mask(words, s, i + n) == cur[..i] + (Stars(n) + Mask(words, s, i + n));
  }

  lemma FilterDone(words: set<Text>, s: Text, cur: Text)
    requires FilteredTo(words, s, cur, |s|)
    ensures cur == Mask(words, s, 0)
  {
    assert cur[..|s|] + Mask(words, s, |s|) == cur;
  }

  /** What the filter reads at i it finds unmasked. */
  lemma SameFrom(words: set<Text>, s: Text, cur: Text, i: nat)
    requires FilteredTo(words, s, cur, i)
    ensures i <= |s| && Longest(words, cur, i) == Longest(words, s, i) && i + Longest(words, s, i) <= |s|
  {
    var n := Longest(words, s, i);
    forall k: nat ensures WordAt(words, cur, i, k) <==> WordAt(words, s, i, k) {
      assert i + k <= |s| ==> cur[i..i + k] == cur[i..][..k] == s[i..][..k] == s[i..i + k];
    }
    LongestIs(words, cur, i, n);
  }

  lemma HitStep(words: set<Text>, s: Text, i: nat)
    requires i < |s|
    ensures Hit(words, s, i) == (Longest(words, s, i) > 0 || Hit(words, s, i + 1))
  {
  }

  lemma HitNowhere(words: set<Text>, s: Text)
    ensures !Hit(words, s, |s|)
  {
  }

  /** The words of a list; the empty word never counts. */
  ghost function WordSet(list: seq<Text>): set<Text> {
    set w | w in list && w != []
  }

  lemma WordSetNext(list: seq<Text>, i: nat)
    requires i < |list|
    ensures WordSet(list[..i + 1]) == WordSet(list[..i]) + (if list[i] == [] then {} else {list[i]})
  {
    assert list[..i + 1] == list[..i] + [list[i]];
  }

  lemma WordSetEnds(list: seq<Text>)
    ensures WordSet(list[..0]) == {} && list[..|list|] == list
  {
  }
}
