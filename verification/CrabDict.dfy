/** The word trie of lua-crab: a tree of hash tables, and the filter that walks it. */
module CrabDict {
  import opened Common
  import opened CrabHash
  import opened CrabTable
  import opened CrabSpec

  /** The tables of a trie by the runes that lead to them. */
  type Tree = map<Text, Table>

  /** What those tables hold. */
  type Store = map<Text, map<Rune, Entry<Table?>>>

  /** A tree: different paths lead to different tables, every entry links to the table at
      its path if there is one, and every table but the root hangs below an entry. */
  ghost predicate TreeOk(T: Tree, M: Store) {
    && [] in T && M.Keys == T.Keys
    && (forall w, v | w in T && v in T && T[w] == T[v] :: w == v)
    && Children(T, M)
    && (forall w | w in T :: Hangs(M, w))
  }

  ghost predicate Children(T: Tree, M: Store) {
    forall w, key | w in M && key in M[w] :: ChildOk(T, M, w, key)
  }

  ghost predicate Hangs(M: Store, w: Text) {
    w == [] || (w[..|w| - 1] in M && w[|w| - 1] in M[w[..|w| - 1]])
  }

  ghost predicate ChildOk(T: Tree, M: Store, w: Text, key: Rune)
    requires w in M && key in M[w]
  {
    M[w][key].value == if w + [key] in T then T[w + [key]] else null
  }

  /** The words are the paths that end in a terminator. */
  ghost predicate WordsOk(M: Store, words: set<Text>) {
    && (forall w | w in words :: w != [] && Hangs(M, w))
    && (forall w, key | w in M && key in M[w] :: w + [key] in words <==> M[w][key].flag.Terminal?)
  }

  /** The heap holds what the store says. */
  ghost predicate Stored(T: Tree, M: Store)
    reads T.Values
  {
    T.Keys == M.Keys && forall w | w in T :: T[w].Valid() && T[w].Map() == M[w]
  }

  /** The store with one entry changed or added. */
  ghost function Put(M: Store, w: Text, key: Rune, e: Entry<Table?>): Store
    requires w in M
  {
    var m: map<Rune, Entry<Table?>> := M[w][key := e];
    M[w := m]
  }

  // ---- how insertion changes the tree -------------------------------------------------------

  lemma Unsnoc(w: Text, key: Rune)
    ensures (w + [key])[..|w + [key]| - 1] == w && (w + [key])[|w + [key]| - 1] == key && w + [key] != []
  {
  }

  lemma SnocInjective(w: Text, key: Rune, v: Text, k: Rune)
    ensures w + [key] == v + [k] <==> w == v && key == k
  {
    Unsnoc(w, key);
    Unsnoc(v, k);
  }

  /** A new entry: no table hangs below it, and no word ends there. */
  lemma AddKey(T: Tree, M: Store, words: set<Text>, w: Text, key: Rune)
    requires TreeOk(T, M) && WordsOk(M, words) && w in T && key !in M[w]
    ensures var M' := Put(M, w, key, Entry(Inner, null));
            TreeOk(T, M') && WordsOk(M', words)
  {
    Unsnoc(w, key);
    var M' := Put(M, w, key, Entry(Inner, null));
    assert !Hangs(M, w + [key]);
    assert Children(T, M') by {
      forall v, k | v in M' && k in M'[v] ensures ChildOk(T, M', v, k) {
        if v != w || k != key { assert ChildOk(T, M, v, k); }
      }
    }
    HangsStill(M, w, key, Entry(Inner, null));
    forall v, k | v in M' && k in M'[v] ensures v + [k] in words <==> M'[v][k].flag.Terminal? {
      SnocInjective(w, key, v, k);
    }
  }

  lemma HangsStill(M: Store, w: Text, key: Rune, e: Entry<Table?>)
    requires w in M
    ensures forall v | Hangs(M, v) :: Hangs(Put(M, w, key, e), v)
  {
  }

  /** A new table below an entry that had none. */
  lemma AddTable(T: Tree, M: Store, words: set<Text>, w: Text, key: Rune, t: Table)
    requires TreeOk(T, M) && WordsOk(M, words) && w in T && key in M[w] && M[w][key].value == null
    requires forall v | v in T :: T[v] != t
    ensures var p := w + [key];
            var M' := Put(M, w, key, M[w][key].(value := t))[p := map[]];
            p !in T && p != w && TreeOk(T[p := t], M') && WordsOk(M', words)
  {
    hide Children, WordsOk, Hangs, Put;
    var p := w + [key];
    Unsnoc(w, key);
    NoTableThere(T, M, w, key);
    AddTableChildren(T, M, w, key, t);
    AddTableHangs(T, M, words, w, key, t);
    PutKeys(M, w, key, M[w][key].(value := t));
  }

  lemma NoTableThere(T: Tree, M: Store, w: Text, key: Rune)
    requires Children(T, M) && w in M && key in M[w] && M[w][key].value == null
    ensures w + [key] !in T
  {
    assert ChildOk(T, M, w, key);
  }

  lemma PutKeys(M: Store, w: Text, key: Rune, e: Entry<Table?>)
    requires w in M
    ensures Put(M, w, key, e).Keys == M.Keys
  {
  }

  lemma AddTableChildren(T: Tree, M: Store, w: Text, key: Rune, t: Table)
    requires Children(T, M) && M.Keys == T.Keys && w in T && key in M[w] && w + [key] !in T
    ensures Children(T[w + [key] := t], Put(M, w, key, M[w][key].(value := t))[w + [key] := map[]])
  {
    var T', M' := T[w + [key] := t], Put(M, w, key, M[w][key].(value := t))[w + [key] := map[]];
    forall v, k | v in M' && k in M'[v] ensures ChildOk(T', M', v, k) {
      assert ChildOk(T, M, v, k);
      SnocInjective(w, key, v, k);
    }
  }

  lemma AddTableHangs(T: Tree, M: Store, words: set<Text>, w: Text, key: Rune, t: Table)
    requires (forall v | v in T :: Hangs(M, v)) && WordsOk(M, words) && M.Keys == T.Keys
    requires w in T && key in M[w] && w + [key] !in T
    ensures var p := w + [key];
            var M' := Put(M, w, key, M[w][key].(value := t))[p := map[]];
            (forall v | v in T[p := t] :: Hangs(M', v)) && WordsOk(M', words)
  {
    var p := w + [key];
    Unsnoc(w, key);
    var N := Put(M, w, key, M[w][key].(value := t));
    HangsStill(M, w, key, M[w][key].(value := t));
    var M': Store := N[p := map[]];
    forall v | Hangs(N, v) ensures Hangs(M', v) {
      assert v != [] && v[..|v| - 1] == p ==> p in N;
    }
    forall v, k | v in M' && k in M'[v] ensures v + [k] in words <==> M'[v][k].flag.Terminal? {
      assert v in M && k in M[v] && M'[v][k].flag == M[v][k].flag;
    }
  }

  /** A terminator at an entry adds its path to the words. */
  lemma AddWord(T: Tree, M: Store, words: set<Text>, w: Text, key: Rune)
    requires TreeOk(T, M) && WordsOk(M, words) && w in T && key in M[w]
    ensures var M' := Put(M, w, key, M[w][key].(flag := Terminal));
            TreeOk(T, M') && WordsOk(M', words + {w + [key]})
  {
    Unsnoc(w, key);
    var M' := Put(M, w, key, M[w][key].(flag := Terminal));
    HangsStill(M, w, key, M[w][key].(flag := Terminal));
    AddWordChildren(T, M, w, key);
    AddWordWords(M, words, w, key);
  }

  lemma AddWordChildren(T: Tree, M: Store, w: Text, key: Rune)
    requires Children(T, M) && w in M && key in M[w]
    ensures Children(T, Put(M, w, key, M[w][key].(flag := Terminal)))
  {
    var M' := Put(M, w, key, M[w][key].(flag := Terminal));
    forall v, k | v in M' && k in M'[v] ensures ChildOk(T, M', v, k) {
      assert ChildOk(T, M, v, k);
    }
  }

  lemma AddWordWords(M: Store, words: set<Text>, w: Text, key: Rune)
    requires WordsOk(M, words) && w in M && key in M[w]
    ensures WordsOk(Put(M, w, key, M[w][key].(flag := Terminal)), words + {w + [key]})
  {
    Unsnoc(w, key);
    var M' := Put(M, w, key, M[w][key].(flag := Terminal));
    HangsStill(M, w, key, M[w][key].(flag := Terminal));
    assert Hangs(M', w + [key]);
    forall v, k | v in M' && k in M'[v] ensures v + [k] in words + {w + [key]} <==> M'[v][k].flag.Terminal? {
      SnocInjective(w, key, v, k);
    }
  }

  // ---- the dictionary -----------------------------------------------------------------------

  lemma StoredPut(T: Tree, M: Store, w: Text)
    requires Stored(T, M) && w in T
    ensures w in M && T[w].Valid() && T[w].Map() == M[w] && M[w].Keys == T[w].at.Keys && T[w] in T.Values
  {
    T[w].KeysOfMap();
  }

  class Dict {
    const root: Table
    ghost var T: Tree
    ghost var M: Store
    ghost var words: set<Text>

    ghost predicate Valid()
      reads this, T.Values
    {
      TreeOk(T, M) && WordsOk(M, words) && Stored(T, M) && [] in T && T[[]] == root
    }

    constructor ()
      ensures Valid() && words == {}
      ensures forall t | t in T.Values :: fresh(t)
    {
      root := new Table();
      new;
      T, M, words := map[[] := root], map[[] := map[]], {};
    }

    /** table_insert on the table at path w. */
    method EnsureKey(ghost w: Text, t: Table, key: Rune) returns (i: nat)
      requires Valid() && w in T && T[w] == t
      modifies `M, t
      ensures Valid() && t.Valid() && key in M[w] && key in t.at && i == t.at[key]
      ensures t.Map() == M[w] && old(M).Keys == M.Keys
    {
      hide TreeOk, WordsOk, Contents, Table.Valid;
      StoredPut(T, M, w);
      ghost var was := M[w];
      if key !in M[w] { AddKeyIf(T, M, words, w, key); }
      i := t.Insert(key);
      if key !in was {
        M := Put(M, w, key, Entry(Inner, null));
      }
      t.KeysOfMap();
      TreeDistinct(T, M);
    }

    /** A new table below an entry that has none. */
    method Hang(ghost w: Text, t: Table, key: Rune, i: nat) returns (c: Table)
      requires Valid() && w in T && T[w] == t && t.Valid() && key in t.at && i == t.at[key]
      requires i < |t.node| && t.node[i].value == null
      modifies `T, `M, t
      ensures Valid() && w + [key] in T && T[w + [key]] == c
      ensures forall u | u in T.Values :: u in old(T.Values) || fresh(u)
    {
      hide TreeOk, WordsOk, Contents, Table.Valid, Stored;
      c := new Table();
      StoredPut(T, M, w);
      t.SlotOf(key);
      AddTable(T, M, words, w, key, c);
      TreeDistinct(T, M);
      Rewrite(w, t, key, i, t.node[i].flag, c);
      StoredNew(T, M, w + [key], c);
      M, T := M[w + [key] := map[]], T[w + [key] := c];
    }

    /** A write through an entry of the table at w. */
    method Rewrite(ghost w: Text, t: Table, ghost key: Rune, i: nat, flag: Flag, value: Table?)
      requires Stored(T, M) && (forall u, v | u in T && v in T && T[u] == T[v] :: u == v)
      requires w in T && T[w] == t && t.Valid() && key in t.at && i == t.at[key] && !flag.Empty?
      modifies `M, t
      ensures Stored(T, M) && M == Put(old(M), w, key, Entry(flag, value))
    {
      hide Contents, Table.Valid, Table.Map, Occupied;
      t.SlotOf(key);
      t.Write(i, flag, value);
      M := Put(M, w, key, Entry(flag, value));
    }

    /** The table below an entry, made on demand. */
    method EnsureTable(ghost w: Text, t: Table, key: Rune, i: nat) returns (c: Table)
      requires Valid() && w in T && T[w] == t && t.Valid() && key in t.at && i == t.at[key]
      modifies `T, `M, t
      ensures Valid() && w + [key] in T && T[w + [key]] == c
      ensures forall u | u in T.Values :: u in old(T.Values) || fresh(u)
    {
      hide TreeOk, WordsOk, Contents, Table.Valid;
      StoredPut(T, M, w);
      t.SlotOf(key);
      if t.node[i].value == null {
        c := Hang(w, t, key, i);
      } else {
        c := t.node[i].value;
        ChildTable(T, M, w, key);
      }
    }

    /** The terminator at the end of a word. */
    method MarkWord(ghost w: Text, t: Table, key: Rune, i: nat)
      requires Valid() && w in T && T[w] == t && t.Valid() && key in t.at && i == t.at[key]
      modifies `M, `words, t
      ensures Valid() && words == old(words) + {w + [key]}
    {
      hide TreeOk, WordsOk, Contents, Table.Valid;
      StoredPut(T, M, w);
      t.SlotOf(key);
      AddWord(T, M, words, w, key);
      TreeDistinct(T, M);
      Rewrite(w, t, key, i, Terminal, t.node[i].value);
      words := words + {w + [key]};
    }

    lemma RootThere()
      requires Valid()
      ensures [] in T && T[[]] == root && root in T.Values
    {
    }

    lemma TableThere(w: Text)
      requires Valid() && w in T
      ensures T[w] in T.Values && T[w].Valid()
    {
    }

    /** One turn of _dict_insert: to the table for the next rune, and the rune's entry. */
    method Step(word: Text, i: nat, t0: Table, slot0: nat) returns (t: Table, slot: nat)
      requires Valid() && i < |word|
      requires i == 0 ==> t0 == root
      requires i > 0 ==> word[..i - 1] in T && T[word[..i - 1]] == t0 && t0.Valid()
                         && word[i - 1] in t0.at && slot0 == t0.at[word[i - 1]]
      modifies `T, `M, T.Values
      ensures Valid() && word[..i] in T && T[word[..i]] == t && t.Valid() && word[i] in t.at && slot == t.at[word[i]]
      ensures forall u | u in T.Values :: u in old(T.Values) || fresh(u)
    {
      hide Valid;
      RootThere();
      t := t0;
      if i > 0 {
        assert word[..i] == word[..i - 1] + [word[i - 1]];
        TableThere(word[..i - 1]);
        t := EnsureTable(word[..i - 1], t, word[i - 1], slot0);
      } else {
        assert word[..0] == [];
      }
      TableThere(word[..i]);
      slot := EnsureKey(word[..i], t, word[i]);
    }

    /** _dict_insert: a word becomes a path of the trie with a terminator; the empty word
        changes nothing. */
    method Insert(word: Text)
      requires Valid()
      modifies this, T.Values
      ensures Valid() && words == old(words) + (if word == [] then {} else {word})
      ensures forall u | u in T.Values :: u in old(T.Values) || fresh(u)
    {
      hide Valid;
      RootThere();
      var t: Table := root;
      var i: nat, slot: nat := 0, 0;
      while i < |word|
        invariant i <= |word| && Valid() && words == old(words)
        invariant i == 0 ==> t == root
        invariant i > 0 ==> word[..i - 1] in T && T[word[..i - 1]] == t && t.Valid()
                            && word[i - 1] in t.at && slot == t.at[word[i - 1]]
        invariant forall u | u in T.Values :: u in old(T.Values) || fresh(u)
      {
        t, slot := Step(word, i, t, slot);
        i := i + 1;
      }
      if i > 0 {
        assert word == word[..i - 1] + [word[i - 1]];
        TableThere(word[..i - 1]);
        MarkWord(word[..i - 1], t, word[i - 1], slot);
      }
    }

    /** The inner loop of dict_filter: the longest word at position i, 0 for none. */
    method Match(s: Text, i: nat) returns (step: nat)
      requires Valid() && i <= |s|
      ensures step == Longest(words, s, i)
    {
      hide *;
      RootThere();
      step := 0;
      var t: Table, j: nat := root, i;
      assert s[i..i] == [];
      while j < |s|
        invariant i <= j <= |s| && s[i..j] in T && T[s[i..j]] == t
        invariant step == LongestUpTo(words, s, i, j - i)
      {
        TableThere(s[i..j]);
        var r := t.Get(s[j]);
        if r < 0 {
          DeadEnd(s, i, j, step);
          return;
        }
        t.SlotOf(s[j]);
        Entered(s, i, j, step);
        if t.node[r].flag.Terminal? {
          step := j - i + 1;
        }
        j := j + 1;
        if t.node[r].value == null {
          DeadEnd(s, i, j, step);
          return;
        }
        t := t.node[r].value;
      }
      LongestAll(words, s, i);
    }

    /** dict_filter: masks, in place, the leftmost-longest words of the original text, and
        tells whether anything was masked. */
    method Filter(text: array<Rune>) returns (flag: bool)
      requires Valid()
      modifies text
      ensures text[..] == Mask(words, old(text[..]), 0)
      ensures flag == Hit(words, old(text[..]), 0)
    {
      hide *;
      ghost var s := text[..];
      var i: nat := 0;
      flag := false;
      FilterStart(words, s);
      while i < text.Length
        invariant i <= text.Length == |s| && Valid()
        invariant FilteredTo(words, s, text[..], i)
        invariant Hit(words, s, 0) == (flag || Hit(words, s, i))
        decreases text.Length - i
      {
        var step := Match(text[..], i);
        SameFrom(words, s, text[..], i);
        HitStep(words, s, i);
        if step > 0 {
          FilterMask(words, s, text[..], text[..][..i] + Stars(step) + text[..][i + step..], i, step);
          Star(text, i, step);
          flag := true;
          i := i + step;
        } else {
          FilterSkip(words, s, text[..], i);
          i := i + 1;
        }
      }
      FilterDone(words, s, text[..]);
      HitNowhere(words, s);
    }

    lemma DeadEnd(s: Text, i: nat, j: nat, step: nat)
      requires Valid() && i <= j <= |s| && step == LongestUpTo(words, s, i, j - i)
      requires s[i..j] in T && j < |s| ==> s[j] !in T[s[i..j]].at
      ensures step == Longest(words, s, i)
    {
      hide TreeOk, WordsOk, LongestUpTo, Table.Valid, Contents;
      if s[i..j] in T { StoredPut(T, M, s[i..j]); }
      NoLongerWord(T, M, words, s, i, j - i);
      LongestIs(words, s, i, step);
    }

    /** What the entry for the next rune tells the walk. */
    lemma Entered(s: Text, i: nat, j: nat, step: nat)
      requires Valid() && i <= j < |s| && s[i..j] in T && s[j] in T[s[i..j]].at && T[s[i..j]].Valid()
      requires step == LongestUpTo(words, s, i, j - i)
      ensures var e := T[s[i..j]].Map()[s[j]];
              && (e.flag.Terminal? ==> LongestUpTo(words, s, i, j + 1 - i) == j + 1 - i)
              && (!e.flag.Terminal? ==> LongestUpTo(words, s, i, j + 1 - i) == step)
              && (e.value != null ==> s[i..j + 1] in T && T[s[i..j + 1]] == e.value)
              && (e.value == null ==> s[i..j + 1] !in T)
    {
      hide TreeOk, WordsOk, Table.Valid, Contents;
      StoredPut(T, M, s[i..j]);
      WordEnds(M, words, s, i, j - i);
      ChildAt(T, M, s[i..j], s[j]);
      assert s[i..j + 1] == s[i..j] + [s[j]];
    }
  }

  /** Every path to a table passes through tables. */
  lemma {:induction false} PrefixThere(T: Tree, M: Store, w: Text, n: nat)
    requires TreeOk(T, M) && w in T && n <= |w|
    ensures w[..n] in T && (n < |w| ==> w[n] in M[w[..n]])
    decreases |w|
  {
    assert Hangs(M, w);
    if n == |w| {
      assert w[..n] == w;
    } else if n < |w| - 1 {
      var v := w[..|w| - 1];
      PrefixThere(T, M, v, n);
      assert v[..n] == w[..n];
    }
  }

  /** Every word passes through tables up to its last rune. */
  lemma WordPrefix(T: Tree, M: Store, words: set<Text>, w: Text, n: nat)
    requires TreeOk(T, M) && WordsOk(M, words) && w in words && n < |w|
    ensures w[..n] in T && w[n] in M[w[..n]]
  {
    hide WordsOk, Children;
    WordHangs(M, words, w);
    var v := w[..|w| - 1];
    PrefixThere(T, M, v, n);
    assert v[..n] == w[..n];
  }

  lemma WordHangs(M: Store, words: set<Text>, w: Text)
    requires WordsOk(M, words) && w in words
    ensures w != [] && Hangs(M, w)
  {
  }

  /** Where the walk cannot go on, no longer word starts. */
  lemma NoLongerWord(T: Tree, M: Store, words: set<Text>, s: Text, i: nat, n: nat)
    requires TreeOk(T, M) && WordsOk(M, words) && i + n <= |s|
    requires s[i..i + n] in T ==> i + n == |s| || s[i + n] !in M[s[i..i + n]]
    ensures forall k: nat | n < k :: !WordAt(words, s, i, k)
  {
    hide TreeOk, WordsOk;
    forall k: nat | n < k ensures !WordAt(words, s, i, k) {
      if WordAt(words, s, i, k) {
        var w := s[i..i + k];
        assert w[..n] == s[i..i + n];
        WordPrefix(T, M, words, w, n);
      }
    }
  }

  /** An entry of the walk shows whether a word ends there. */
  lemma WordEnds(M: Store, words: set<Text>, s: Text, i: nat, n: nat)
    requires WordsOk(M, words) && i + n < |s| && s[i..i + n] in M && s[i + n] in M[s[i..i + n]]
    ensures WordAt(words, s, i, n + 1) <==> M[s[i..i + n]][s[i + n]].flag.Terminal?
  {
    assert s[i..i + n + 1] == s[i..i + n] + [s[i + n]];
  }

  /** The masking loop of both filters. */
  method Star(text: array<Rune>, i: nat, step: nat)
    requires i + step <= text.Length
    modifies text
    ensures text[..] == old(text[..])[..i] + Stars(step) + old(text[..])[i + step..]
  {
    var j: nat := 0;
    while j < step
      invariant j <= step
      invariant forall k | 0 <= k < text.Length :: text[k] == if i <= k < i + j then STAR else old(text[k])
    {
      text[i + j] := STAR;
      j := j + 1;
    }
  }

  lemma StoredNew(T: Tree, M: Store, p: Text, c: Table)
    requires Stored(T, M) && p !in T && c.Valid() && c.Map() == map[]
    ensures Stored(T[p := c], M[p := map[]])
  {
  }

  lemma LongestAll(words: set<Text>, s: Text, i: nat)
    requires i <= |s|
    ensures Longest(words, s, i) == LongestUpTo(words, s, i, |s| - i)
  {
  }

  lemma ChildAt(T: Tree, M: Store, w: Text, key: Rune)
    requires TreeOk(T, M) && w in T && key in M[w]
    ensures M[w][key].value == if w + [key] in T then T[w + [key]] else null
  {
    assert ChildOk(T, M, w, key);
  }

  lemma ChildTable(T: Tree, M: Store, w: Text, key: Rune)
    requires TreeOk(T, M) && w in T && key in M[w] && M[w][key].value != null
    ensures w + [key] in T && T[w + [key]] == M[w][key].value
  {
    assert ChildOk(T, M, w, key);
  }

  lemma AddKeyIf(T: Tree, M: Store, words: set<Text>, w: Text, key: Rune)
    requires TreeOk(T, M) && WordsOk(M, words) && w in T && key !in M[w]
    ensures w in M && TreeOk(T, Put(M, w, key, Entry(Inner, null)))
            && WordsOk(Put(M, w, key, Entry(Inner, null)), words)
  {
    AddKey(T, M, words, w, key);
  }

  lemma TreeDistinct(T: Tree, M: Store)
    requires TreeOk(T, M)
    ensures forall w, v | w in T && v in T && T[w] == T[v] :: w == v
  {
  }

  /** dict_open: a dictionary of the listed words. */
  method Open(list: seq<Text>) returns (d: Dict)
    ensures fresh(d) && d.Valid() && d.words == WordSet(list)
  {
    hide Dict.Valid, WordSet;
    d := new Dict();
    WordSetEnds(list);
    var i: nat := 0;
    while i < |list|
      invariant i <= |list| && fresh(d) && d.Valid() && d.words == WordSet(list[..i])
      invariant forall t | t in d.T.Values :: fresh(t)
    {
      WordSetNext(list, i);
      d.Insert(list[i]);
      i := i + 1;
    }
  }
}
