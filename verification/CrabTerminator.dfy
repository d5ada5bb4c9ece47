/** C strings end at their first zero: what that does to words, texts and their masking. */
module CrabTerminator {
  import opened Common
  import opened CrabSpec

  /** Where a C string ends. */
  function FirstZero(s: Text): (n: nat)
    ensures n <= |s| && (forall i | 0 <= i < n :: s[i] != 0) && (n < |s| ==> s[n] == 0)
  {
    if s == [] || s[0] == 0 then 0 else 1 + FirstZero(s[1..])
  }

  /** What wcslen sees of a word. */
  function CutWord(w: Text): Text { w[..FirstZero(w)] }

  /** The words a list gives to crab.c. */
  ghost function CutSet(list: seq<Text>): set<Text> {
    set w | w in list && CutWord(w) != [] :: CutWord(w)
  }

  ghost predicate ZeroFree(words: set<Text>) { forall w <- words :: 0 !in w }

  lemma CutSetNext(list: seq<Text>, i: nat)
    requires i < |list|
    ensures CutSet(list[..i + 1]) == CutSet(list[..i]) + (if CutWord(list[i]) == [] then {} else {CutWord(list[i])})
  {
    hide CutWord;
    assert list[..i + 1] == list[..i] + [list[i]];
    forall w | w in CutSet(list[..i]) ensures w in CutSet(list[..i + 1]) {
      var v :| v in list[..i] && CutWord(v) != [] && CutWord(v) == w;
      assert v in list[..i + 1];
    }
    assert list[i] in list[..i + 1];
  }

  lemma CutSetEnds(list: seq<Text>)
    ensures CutSet(list[..0]) == {} && list[..|list|] == list
  {
  }

  /** Words without zeros are not cut. */
  lemma CutSetSame(list: seq<Text>)
    requires ZeroFree(WordSet(list))
    ensures CutSet(list) == WordSet(list)
  {
    forall w | w in list ensures CutWord(w) == w {
      if w != [] {
        assert w in WordSet(list);
      }
    }
    forall w | w in WordSet(list) ensures w in CutSet(list) {
      assert CutWord(w) == w;
    }
  }

  // ---- masking around a zero -----------------------------------------------------------------------

  /** The text ends at n or has a zero there. */
  predicate StopAt(s: Text, n: nat) { n == |s| || (n < |s| && s[n] == 0) }

  lemma ZeroInside(s: Text, n: nat, i: nat, k: nat)
    requires i <= n < i + k <= |s| && s[n] == 0
    ensures 0 in s[i..i + k]
  {
    assert s[i..i + k][n - i] == s[n];
  }

  lemma WordStops(words: set<Text>, s: Text, n: nat, i: nat, k: nat)
    requires ZeroFree(words) && StopAt(s, n) && i <= n
    ensures WordAt(words, s, i, k) <==> WordAt(words, s[..n], i, k)
  {
    if WordAt(words, s, i, k) {
      var w := s[i..i + k];
      if i + k > n { ZeroInside(s, n, i, k); }
      assert i + k <= n ==> s[..n][i..i + k] == w;
    }
    if WordAt(words, s[..n], i, k) {
      assert s[i..i + k] == s[..n][i..i + k];
    }
  }

  /** No word reaches over the zero. */
  lemma LongestStops(words: set<Text>, s: Text, n: nat, i: nat)
    requires ZeroFree(words) && StopAt(s, n) && i <= n
    ensures Longest(words, s, i) == Longest(words, s[..n], i)
  {
    var l := Longest(words, s[..n], i);
    forall k: nat ensures WordAt(words, s, i, k) <==> WordAt(words, s[..n], i, k) {
      WordStops(words, s, n, i, k);
    }
    LongestIs(words, s, i, l);
  }

  lemma LongestShift(words: set<Text>, s: Text, i: nat, j: nat)
    requires i + j <= |s|
    ensures Longest(words, s, i + j) == Longest(words, s[i..], j)
  {
    var p, l := i + j, Longest(words, s[i..], j);
    forall k: nat ensures WordAt(words, s, p, k) <==> WordAt(words, s[i..], j, k) {
      assert p + k <= |s| ==> s[p..p + k] == s[i..][j..j + k];
    }
    LongestIs(words, s, p, l);
  }

  /** One step of the masking. */
  lemma MaskStep(words: set<Text>, s: Text, i: nat)
    requires i < |s|
    ensures var n := Longest(words, s, i);
            && i + n <= |s|
            && Mask(words, s, i) == (if n > 0 then Stars(n) + Mask(words, s, i + n) else [s[i]] + Mask(words, s, i + 1))
            && Hit(words, s, i) == (n > 0 || Hit(words, s, i + 1))
  {
    hide Longest;
    LongestFits(words, s, i);
  }

  lemma MaskEnd(words: set<Text>, s: Text)
    ensures Mask(words, s, |s|) == [] && !Hit(words, s, |s|)
  {
  }

  lemma {:induction false} MaskShift(words: set<Text>, s: Text, i: nat, j: nat)
    requires i + j <= |s|
    ensures Mask(words, s, i + j) == Mask(words, s[i..], j) && Hit(words, s, i + j) == Hit(words, s[i..], j)
    decreases |s| - j
  {
    hide Longest, Mask, Hit;
    if i + j < |s| {
      LongestShift(words, s, i, j);
      var n := Longest(words, s, i + j);
      MaskStep(words, s, i + j);
      MaskStep(words, s[i..], j);
      MaskShift(words, s, i, j + 1);
      if n > 0 { MaskShift(words, s, i, j + n); }
    } else {
      MaskEnd(words, s);
      MaskEnd(words, s[i..]);
    }
  }

  lemma LongestFits(words: set<Text>, s: Text, i: nat)
    requires i <= |s|
    ensures i + Longest(words, s, i) <= |s|
  {
  }

  lemma {:induction false} MaskStops(words: set<Text>, s: Text, n: nat, i: nat)
    requires ZeroFree(words) && StopAt(s, n) && i <= n
    ensures Mask(words, s, i) == Mask(words, s[..n], i) + Mask(words, s, n)
    ensures Hit(words, s, i) == (Hit(words, s[..n], i) || Hit(words, s, n))
    decreases n - i
  {
    hide Longest, Mask, Hit;
    var t := s[..n];
    if i == n {
      MaskEnd(words, t);
      assert [] + Mask(words, s, n) == Mask(words, s, n);
    } else {
      LongestStops(words, s, n, i);
      var l := Longest(words, t, i);
      MaskStep(words, t, i);
      MaskStep(words, s, i);
      MaskStops(words, s, n, i + 1);
      if l > 0 {
        MaskStops(words, s, n, i + l);
        Regroup(Stars(l), Mask(words, t, i + l), Mask(words, s, n));
      } else {
        Regroup([s[i]], Mask(words, t, i + 1), Mask(words, s, n));
      }
    }
  }

  lemma Regroup(a: Text, b: Text, c: Text)
    ensures (a + b) + c == a + (b + c)
  {
  }

  /** A zero splits the masking: what lies before it and what lies behind it are masked apart. */
  lemma MaskSplits(words: set<Text>, s: Text, n: nat)
    requires ZeroFree(words) && StopAt(s, n)
    ensures Mask(words, s, 0) == Mask(words, s[..n], 0) + Mask(words, s[n..], 0)
    ensures Hit(words, s, 0) == (Hit(words, s[..n], 0) || Hit(words, s[n..], 0))
  {
    MaskStops(words, s, n, 0);
    MaskShift(words, s, n, 0);
  }

  // ---- when masking up to the first zero is masking ---------------------------------------------------

  /** Masking up to the first zero, as crab.c does, gives the text and the answer of masking all. */
  ghost predicate SameMasking(words: set<Text>, s: Text) {
    var n := FirstZero(s);
    && Mask(words, s, 0) == Mask(words, s[..n], 0) + s[n..]
    && Hit(words, s, 0) == Hit(words, s[..n], 0)
  }

  /** That is so if and only if masking leaves what lies behind the first zero as it is, and finds
      nothing there unless it found something before. */
  lemma SameMaskingExact(words: set<Text>, s: Text)
    requires ZeroFree(words)
    ensures var n := FirstZero(s);
            SameMasking(words, s)
            <==> Mask(words, s[n..], 0) == s[n..] && (Hit(words, s[n..], 0) ==> Hit(words, s[..n], 0))
  {
    hide Mask, Hit;
    var n := FirstZero(s);
    MaskSplits(words, s, n);
    SameEnd(Mask(words, s[..n], 0), Mask(words, s[n..], 0), s[n..]);
  }

  lemma SameEnd(a: Text, b: Text, c: Text)
    ensures a + b == a + c <==> b == c
  {
    if a + b == a + c {
      assert b == (a + b)[|a|..] && c == (a + c)[|a|..];
    }
  }

  lemma {:induction false} HitChanges(words: set<Text>, s: Text, i: nat)
    requires i <= |s| && Mask(words, s, i) == s[i..] && forall w <- words :: w != Stars(|w|)
    ensures !Hit(words, s, i)
    decreases |s| - i
  {
    hide Longest;
    if i < |s| {
      var n := Longest(words, s, i);
      LongestWord(words, s, i);
      if n > 0 {
        MaskedByStars(words, s, i);
      } else {
        assert s[i + 1..] == s[i..][1..] == Mask(words, s, i + 1);
        HitChanges(words, s, i + 1);
      }
    }
  }

  lemma MaskedByStars(words: set<Text>, s: Text, i: nat)
    requires i < |s| && Longest(words, s, i) > 0 && Mask(words, s, i) == s[i..]
    ensures var n := Longest(words, s, i); i + n <= |s| && s[i..i + n] == Stars(n)
  {
    hide Longest;
    LongestWord(words, s, i);
    var n := Longest(words, s, i);
    assert s[i..i + n] == s[i..][..n] == Stars(n);
  }

  lemma LongestWord(words: set<Text>, s: Text, i: nat)
    requires i <= |s|
    ensures var n := Longest(words, s, i); i + n <= |s| && (n > 0 ==> s[i..i + n] in words)
  {
  }

  /** Unless a word consists of stars alone: if and only if no word occurs behind the first zero. */
  lemma SameMaskingIff(words: set<Text>, s: Text)
    requires ZeroFree(words) && forall w <- words :: w != Stars(|w|)
    ensures SameMasking(words, s) <==> !Hit(words, s[FirstZero(s)..], 0)
  {
    hide Mask, Hit, SameMasking;
    var t := s[FirstZero(s)..];
    SameMaskingExact(words, s);
    if !Hit(words, t, 0) {
      UnhitUnchanged(words, t, 0);
    }
    if Mask(words, t, 0) == t {
      assert t[0..] == t;
      HitChanges(words, t, 0);
    }
  }

  /** A text without zeros is masked as a whole. */
  lemma SameWithoutZeros(words: set<Text>, s: Text)
    requires 0 !in s
    ensures SameMasking(words, s)
  {
    assert s[..|s|] == s && s[|s|..] == [];
    assert FirstZero(s) == |s|;
  }

  /** A word behind a zero: the whole text is hit, the text up to the zero is not. */
  lemma BehindZero()
    ensures !SameMasking({[0x61]}, [0, 0x61])
  {
    var words: set<Text>, s: Text := {[0x61]}, [0, 0x61];
    assert s[1..2] == [0x61] && WordAt(words, s, 1, 1);
    HitIffOccurs(words, s, 0);
    assert s[..0] == [] && !Hit(words, s[..0], 0);
  }

  /** A word with a zero is another word to crab.c. */
  lemma CutAtZero()
    ensures CutSet([[0x61, 0]]) == {[0x61]} != WordSet([[0x61, 0]])
  {
    var w: Text := [0x61, 0];
    assert w[1..][0] == 0 && FirstZero(w[1..]) == 0 && FirstZero(w) == 1;
    assert CutWord(w) == [0x61];
    assert w in [w];
    assert [0x61] in CutSet([w]);
    assert WordSet([w]) == {w};
  }
}
