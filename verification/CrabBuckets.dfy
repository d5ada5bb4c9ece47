/** The stand-alone filter of crab.c: words in buckets by the hash of their first rune, each bucket a
    linked list in order of falling length. Words and texts are C strings, which end at their first
    zero. */
module CrabBuckets {
  import opened Common
  import opened CrabSpec
  import opened CrabTerminator
  import opened CrabDict

  const BUCKETS := 0x1_0000

  /** _hash: the exclusive or of the two halves. */
  function Hash(c: Rune): (h: nat)
    ensures h < BUCKETS
  {
    ((c / 0x1_0000) as bv16 ^ (c % 0x1_0000) as bv16) as nat
  }

  class WordNode {
    const word: Text
    var next: WordNode?

    constructor (word: Text)
      ensures this.word == word && next == null
    {
      this.word := word;
      next := null;
    }
  }

  /** `first` starts the linked list of the given nodes. */
  ghost predicate Linked(first: WordNode?, list: seq<WordNode>)
    reads list
  {
    && first == (if list == [] then null else list[0])
    && forall k {:trigger list[k].next} | 0 <= k < |list| :: list[k].next == Following(list, k)
  }

  ghost function Following(list: seq<WordNode>, k: nat): WordNode? {
    if k + 1 < |list| then list[k + 1] else null
  }

  lemma LinkedNext(first: WordNode?, list: seq<WordNode>, k: nat)
    requires Linked(first, list) && k < |list|
    ensures list[k].next == if k + 1 < |list| then list[k + 1] else null
  {
  }

  ghost predicate Falling(list: seq<WordNode>) {
    forall j, k | 0 <= j < k < |list| :: |list[j].word| >= |list[k].word|
  }

  ghost predicate InBucket(list: seq<WordNode>, h: nat) {
    forall k | 0 <= k < |list| :: list[k].word != [] && 0 !in list[k].word && Hash(list[k].word[0]) == h
  }

  ghost predicate Distinct(list: seq<WordNode>) {
    forall j, k | 0 <= j < k < |list| :: list[j] != list[k]
  }

  /** The list with a node put in at index n. */
  ghost function With(list: seq<WordNode>, n: nat, w: WordNode): seq<WordNode>
    requires n <= |list|
  {
    list[..n] + [w] + list[n..]
  }

  /** The words of a list. */
  ghost function WordsOf(list: seq<WordNode>): set<Text> {
    set k | 0 <= k < |list| :: list[k].word
  }

  lemma WithKeeps(list: seq<WordNode>, n: nat, w: WordNode, h: nat)
    requires n <= |list| && Falling(list) && InBucket(list, h) && Distinct(list) && w !in list
    requires w.word != [] && 0 !in w.word && Hash(w.word[0]) == h
    requires forall k | 0 <= k < n :: |list[k].word| >= |w.word|
    requires n < |list| ==> |list[n].word| < |w.word|
    ensures Falling(With(list, n, w)) && InBucket(With(list, n, w), h) && Distinct(With(list, n, w))
  {
    hide Hash;
  }

  lemma WithWords(list: seq<WordNode>, n: nat, w: WordNode)
    requires n <= |list|
    ensures WordsOf(With(list, n, w)) == WordsOf(list) + {w.word}
  {
    var l := With(list, n, w);
    assert l[n] == w;
    forall k | 0 <= k < |list| ensures list[k].word in WordsOf(l) {
      assert l[if k < n then k else k + 1] == list[k];
    }
  }

  class Buckets {
    var heads: seq<WordNode?>
    ghost var lists: seq<seq<WordNode>>
    ghost var nodes: set<WordNode>

    ghost predicate Valid()
      reads this, nodes
    {
      && |heads| == |lists| == BUCKETS
      && (forall h, k | 0 <= h < BUCKETS && 0 <= k < |lists[h]| :: lists[h][k] in nodes)
      && (forall h | 0 <= h < BUCKETS :: BucketOk(h))
      && (forall g, h, j, k | 0 <= g < h < BUCKETS && 0 <= j < |lists[g]| && 0 <= k < |lists[h]| ::
            lists[g][j] != lists[h][k])
    }

    ghost predicate BucketOk(h: nat)
      requires |heads| == |lists| == BUCKETS && h < BUCKETS
      requires forall k | 0 <= k < |lists[h]| :: lists[h][k] in nodes
      reads this, nodes
    {
      Linked(heads[h], lists[h]) && Falling(lists[h]) && InBucket(lists[h], h) && Distinct(lists[h])
    }

    /** The words added so far. */
    ghost predicate HasWords(words: set<Text>)
      reads this
    {
      |lists| == BUCKETS && forall w :: w in words <==> w != [] && w in WordsOf(lists[Hash(w[0])])
    }

    constructor ()
      ensures Valid() && HasWords({}) && nodes == {}
    {
      heads := seq(BUCKETS, _ => null);
      lists := seq(BUCKETS, _ => []);
      nodes := {};
    }

    /** add_word, the place: behind all words of at least this length. */
    method FindPlace(h: nat, len: nat) returns (pre: WordNode?, node: WordNode?, ghost n: nat)
      requires Valid() && h < BUCKETS
      ensures n <= |lists[h]|
      ensures node == (if n < |lists[h]| then lists[h][n] else null)
              && pre == (if n == 0 then null else lists[h][n - 1])
      ensures (forall k | 0 <= k < n :: |lists[h][k].word| >= len) && (n < |lists[h]| ==> |lists[h][n].word| < len)
    {
      hide Hash, InBucket, Falling, Distinct;
      assert BucketOk(h);
      pre, node, n := null, heads[h], 0;
      while node != null && |node.word| >= len
        invariant n <= |lists[h]|
        invariant node == (if n < |lists[h]| then lists[h][n] else null)
                  && pre == (if n == 0 then null else lists[h][n - 1])
        invariant forall k | 0 <= k < n :: |lists[h][k].word| >= len
        decreases |lists[h]| - n
      {
        LinkedNext(heads[h], lists[h], n);
        pre, node, n := node, node.next, n + 1;
      }
    }

    /** add_word, the links. */
    method Link(h: nat, w: WordNode, pre: WordNode?, node: WordNode?, ghost n: nat)
      requires Valid() && h < BUCKETS && w !in nodes && n <= |lists[h]|
      requires node == (if n < |lists[h]| then lists[h][n] else null)
               && pre == (if n == 0 then null else lists[h][n - 1])
      modifies `heads, w, nodes`next
      ensures |heads| == |lists| && Linked(heads[h], With(lists[h], n, w))
      ensures forall g | 0 <= g < BUCKETS && g != h :: heads[g] == old(heads[g]) && Linked(heads[g], lists[g])
    {
      hide Hash, InBucket, Falling;
      assert BucketOk(h);
      forall g | 0 <= g < BUCKETS ensures Linked(heads[g], lists[g]) { assert BucketOk(g); }
      w.next := node;
      if pre == null {
        heads := heads[h := w];
      } else {
        pre.next := w;
      }
      ghost var list, l := lists[h], With(lists[h], n, w);
      forall k | 0 <= k < |l| ensures l[k].next == Following(l, k) {
        if k < n {
          assert l[k] == list[k] && old(list[k].next) == Following(list, k);
        } else if k > n {
          assert l[k] == list[k - 1] && old(list[k - 1].next) == Following(list, k - 1);
        }
      }
    }

    /** add_word: the word ends at its first zero, and an empty one is ignored. */
    method AddWord(whole: Text, ghost words: set<Text>)
      requires Valid() && HasWords(words)
      modifies this, nodes
      ensures Valid() && HasWords(words + (if CutWord(whole) == [] then {} else {CutWord(whole)}))
      ensures forall n | n in nodes :: n in old(nodes) || fresh(n)
    {
      hide CutWord;
      CutHasNoZero(whole);
      var word := CutWord(whole);
      if word != [] {
        AddCut(word, words);
      }
    }

    /** add_word, for a word that is not empty. */
    method AddCut(word: Text, ghost words: set<Text>)
      requires Valid() && HasWords(words) && word != [] && 0 !in word
      modifies this, nodes
      ensures Valid() && HasWords(words + {word})
      ensures forall n | n in nodes :: n in old(nodes) || fresh(n)
    {
      hide Hash, InBucket, Falling, Distinct, Linked, WordsOf, With;
      var w := new WordNode(word);
      var h := Hash(word[0]);
      var pre, node;
      ghost var n: nat;
      pre, node, n := FindPlace(h, |word|);
      assert BucketOk(h);
      forall g | 0 <= g < BUCKETS ensures Falling(lists[g]) && InBucket(lists[g], g) && Distinct(lists[g]) {
        assert BucketOk(g);
      }
      WithKeeps(lists[h], n, w, h);
      WithWords(lists[h], n, w);
      WithMembers(lists[h], n, w);
      Link(h, w, pre, node, n);
      lists := lists[h := With(lists[h], n, w)];
      nodes := nodes + {w};
    }

    /** The search of _crab at position i: the first word of the bucket that the text has
        there, which is the longest one. */
    method FirstMatch(s: Text, i: nat, ghost words: set<Text>) returns (n: nat)
      requires Valid() && HasWords(words) && i < |s|
      ensures n == Longest(words, s, i)
    {
      hide Hash, Distinct, Longest, InBucket, Falling;
      var h := Hash(s[i]);
      assert BucketOk(h);
      var w := heads[h];
      ghost var k: nat := 0;
      while w != null
        invariant k <= |lists[h]| && w == (if k < |lists[h]| then lists[h][k] else null)
        invariant forall j | 0 <= j < k :: !Matches(s, i, lists[h][j].word)
        decreases |lists[h]| - k
      {
        LinkedNext(heads[h], lists[h], k);
        n := |w.word|;
        if n <= |s| - i && s[i..i + n] == w.word {
          MatchIsLongest(s, i, words, k);
          return;
        }
        w, k := w.next, k + 1;
      }
      NoMatch(s, i, words);
      return 0;
    }

    lemma MatchIsLongest(s: Text, i: nat, words: set<Text>, k: nat)
      requires Valid() && HasWords(words) && i < |s| && k < |lists[Hash(s[i])]|
      requires Matches(s, i, lists[Hash(s[i])][k].word)
      requires forall j | 0 <= j < k :: !Matches(s, i, lists[Hash(s[i])][j].word)
      ensures |lists[Hash(s[i])][k].word| == Longest(words, s, i)
    {
      hide Hash, Distinct, Longest;
      var h := Hash(s[i]);
      var list := lists[h];
      assert BucketOk(h);
      var n := |list[k].word|;
      assert list[k].word in WordsOf(list) && list[k].word[0] == s[i];
      forall m: nat | WordAt(words, s, i, m) ensures m <= n {
        InList(s, i, words, m);
        var j :| 0 <= j < |list| && list[j].word == s[i..i + m];
        assert Matches(s, i, list[j].word);
      }
      LongestIs(words, s, i, n);
    }

    lemma NoMatch(s: Text, i: nat, words: set<Text>)
      requires Valid() && HasWords(words) && i < |s|
      requires forall j | 0 <= j < |lists[Hash(s[i])]| :: !Matches(s, i, lists[Hash(s[i])][j].word)
      ensures Longest(words, s, i) == 0
    {
      hide Hash, Distinct, Longest;
      forall m: nat ensures !WordAt(words, s, i, m) {
        InList(s, i, words, m);
      }
      LongestIs(words, s, i, 0);
    }

    lemma InList(s: Text, i: nat, words: set<Text>, m: nat)
      requires Valid() && HasWords(words) && i < |s|
      ensures WordAt(words, s, i, m) ==>
                exists j :: 0 <= j < |lists[Hash(s[i])]| && lists[Hash(s[i])][j].word == s[i..i + m]
    {
      hide Hash;
      if WordAt(words, s, i, m) {
        var v := s[i..i + m];
        assert v[0] == s[i];
        assert v in WordsOf(lists[Hash(v[0])]);
      }
    }

    /** The words of the buckets hold no zero. */
    lemma WordsZeroFree(words: set<Text>)
      requires Valid() && HasWords(words)
      ensures ZeroFree(words)
    {
      hide Hash, Falling, Distinct, Linked;
      forall w | w in words ensures 0 !in w {
        assert BucketOk(Hash(w[0])) && w in WordsOf(lists[Hash(w[0])]);
      }
    }

    /** _crab: masks the leftmost-longest words in place up to the first zero, and tells whether it
        did. */
    method Crab(text: array<Rune>, ghost words: set<Text>) returns (flag: bool)
      requires Valid() && HasWords(words)
      modifies text
      ensures var s, n := old(text[..]), FirstZero(old(text[..]));
              text[..] == Mask(words, s[..n], 0) + s[n..] && flag == Hit(words, s[..n], 0)
    {
      hide *;
      ghost var s := text[..];
      ghost var n := FirstZero(s);
      ghost var t := s[..n];
      var i: nat := 0;
      flag := false;
      WordsZeroFree(words);
      FilterStart(words, t);
      assert StopAt(text[..], n) by { Stops(s, n); }
      while i < text.Length && text[i] != 0
        invariant i <= n <= text.Length == |s| && Valid() && HasWords(words)
        invariant text[n..] == s[n..] && StopAt(text[..], n) && FilteredTo(words, t, text[..n], i)
        invariant Hit(words, t, 0) == (flag || Hit(words, t, i))
        decreases text.Length - i
      {
        Before(text[..], n, i);
        var k := FirstMatch(text[..], i, words);
        LongestStops(words, text[..], n, i);
        assert text[..][..n] == text[..n];
        SameFrom(words, t, text[..n], i);
        HitStep(words, t, i);
        if k > 0 {
          FilterMask(words, t, text[..n], text[..n][..i] + Stars(k) + text[..n][i + k..], i, k);
          ghost var was := text[..];
          Star(text, i, k);
          Starred(was, text[..], n, i, k);
          flag := true;
          i := i + k;
        } else {
          FilterSkip(words, t, text[..n], i);
          i := i + 1;
        }
      }
      AtZero(words, s, text[..], n, i);
      FilterDone(words, t, text[..n]);
      HitNowhere(words, t);
      assert text[..] == text[..n] + text[n..];
    }
  }

  lemma CutHasNoZero(w: Text)
    ensures 0 !in CutWord(w)
  {
  }

  lemma Stops(s: Text, n: nat)
    requires n == FirstZero(s)
    ensures StopAt(s, n)
  {
  }

  /** A position that is not zero lies before the stop. */
  lemma Before(s: Text, n: nat, i: nat)
    requires StopAt(s, n) && i <= n && i < |s| && s[i] != 0
    ensures i < n
  {
  }

  /** Starring before the stop keeps it. */
  lemma Starred(s: Text, s': Text, n: nat, i: nat, k: nat)
    requires StopAt(s, n) && i + k <= n <= |s| && s' == s[..i] + Stars(k) + s[i + k..]
    ensures StopAt(s', n) && |s'| == |s| && s'[n..] == s[n..]
    ensures s'[..n] == s[..n][..i] + Stars(k) + s[..n][i + k..]
  {
  }

  /** The loop ends at the first zero. */
  lemma AtZero(words: set<Text>, s: Text, cur: Text, n: nat, i: nat)
    requires n == FirstZero(s) && i <= n <= |cur| == |s| && (i < |cur| ==> cur[i] == 0)
    requires FilteredTo(words, s[..n], cur[..n], i)
    ensures i == n
  {
    hide FilteredTo;
    if i < n { SameRune(words, s[..n], cur[..n], i); }
  }

  lemma SameRune(words: set<Text>, s: Text, cur: Text, i: nat)
    requires FilteredTo(words, s, cur, i) && i < |s|
    ensures |cur| == |s| && cur[i] == s[i]
  {
    hide Mask;
    assert cur[i] == cur[i..][0] == s[i..][0];
  }

  /** The comparison of _crab: the text has the word at i. No word holds a zero, so a word that is too
      long differs at the terminator. */
  ghost predicate Matches(s: Text, i: nat, w: Text)
    requires i <= |s|
  {
    |w| <= |s| - i && s[i..i + |w|] == w
  }

  lemma WithMembers(list: seq<WordNode>, n: nat, w: WordNode)
    requires n <= |list|
    ensures forall k | 0 <= k < |With(list, n, w)| :: With(list, n, w)[k] == w || With(list, n, w)[k] in list
  {
  }

  /** Buckets filled with the listed words. */
  method Fill(list: seq<Text>) returns (b: Buckets)
    ensures fresh(b) && b.Valid() && b.HasWords(CutSet(list))
  {
    hide Buckets.Valid, Buckets.HasWords, CutSet, CutWord;
    b := new Buckets();
    CutSetEnds(list);
    var i: nat := 0;
    while i < |list|
      invariant i <= |list| && fresh(b) && b.Valid() && b.HasWords(CutSet(list[..i]))
      invariant forall n | n in b.nodes :: fresh(n)
    {
      CutSetNext(list, i);
      b.AddWord(list[i], CutSet(list[..i]));
      i := i + 1;
    }
  }

  /** The two implementations, given the same words and the same text. For words without zeros they
      leave the same text and give the same answer if and only if masking up to the first zero is
      masking, so for every text without zeros. */
  method FiltersAgree(list: seq<Text>, text1: array<Rune>, text2: array<Rune>) returns (flag1: bool, flag2: bool)
    requires text1 != text2 && text1[..] == text2[..]
    modifies text1, text2
    ensures text1[..] == Mask(WordSet(list), old(text1[..]), 0) && flag1 == Hit(WordSet(list), old(text1[..]), 0)
    ensures var s, n := old(text1[..]), FirstZero(old(text1[..]));
            text2[..] == Mask(CutSet(list), s[..n], 0) + s[n..] && flag2 == Hit(CutSet(list), s[..n], 0)
    ensures ZeroFree(WordSet(list)) ==>
              (text1[..] == text2[..] && flag1 == flag2 <==> SameMasking(WordSet(list), old(text1[..])))
    ensures ZeroFree(WordSet(list)) && 0 !in old(text1[..]) ==> text1[..] == text2[..] && flag1 == flag2
  {
    hide Dict.Valid, Buckets.Valid, Buckets.HasWords, WordSet, CutSet, Mask, Hit, ZeroFree;
    ghost var s := text1[..];
    var dict := Open(list);
    var buckets := Fill(list);
    flag1 := dict.Filter(text1);
    flag2 := buckets.Crab(text2, CutSet(list));
    if ZeroFree(WordSet(list)) {
      CutSetSame(list);
    }
    if 0 !in s {
      SameWithoutZeros(WordSet(list), s);
    }
  }
}
