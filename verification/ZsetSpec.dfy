/** The abstract ranked set: a sorted sequence of elements, and what each skip-list
    operation does to it. */
module ZsetSpec {
  import opened Common
  import opened ZsetOrder

  /** In order; equal elements are allowed side by side. */
  ghost predicate Sorted(s: seq<Element>) {
    forall i, j | 0 <= i < j < |s| :: !Precedes(s[j], s[i])
  }

  /** By score, and among equal scores by member. */
  ghost predicate Ranked(s: seq<Element>) {
    forall i, j | 0 <= i < j < |s| ::
      s[i].score < s[j].score || (s[i].score == s[j].score && !LexLess(s[j].member, s[i].member))
  }

  lemma SortedIsRanked(s: seq<Element>)
    ensures Sorted(s) <==> Ranked(s)
  {
    hide Precedes, LexLess;
    forall i, j | 0 <= i < j < |s|
      ensures !Precedes(s[j], s[i])
         <==> s[i].score < s[j].score || (s[i].score == s[j].score && !LexLess(s[j].member, s[i].member))
    {
      PrecedesMeans(s[j], s[i]);
      PrecedesTotal(s[i], s[j]);
      PrecedesMeans(s[i], s[j]);
    }
  }

  /** There is one way to rank a collection of elements. */
  lemma {:induction false} RankedUnique(s: seq<Element>, t: seq<Element>)
    requires Ranked(s) && Ranked(t) && multiset(s) == multiset(t)
    ensures s == t
    decreases |s|
  {
    hide Ranked, LexLess;
    SameCount(s, t);
    if s != [] {
      FirstOfBoth(s, t);
      RankedRest(s);
      RankedRest(t);
      RankedUnique(s[1..], t[1..]);
    }
  }

  lemma SameCount<T>(s: seq<T>, t: seq<T>)
    requires multiset(s) == multiset(t)
    ensures |s| == |t| && (s != [] ==> s[0] in t && t[0] in s)
    ensures s != [] && s[0] == t[0] ==> multiset(s[1..]) == multiset(t[1..])
    ensures s != [] && s[0] == t[0] && s[1..] == t[1..] ==> s == t
  {
    assert |multiset(s)| == |s| && |multiset(t)| == |t|;
    if s != [] {
      assert s[0] in multiset(t) && t[0] in multiset(s);
      WithoutFirst(s);
      WithoutFirst(t);
    }
  }

  lemma WithoutFirst<T>(s: seq<T>)
    requires s != []
    ensures s == [s[0]] + s[1..] && multiset(s[1..]) == multiset(s) - multiset{s[0]}
  {
    assert s == [s[0]] + s[1..];
    assert multiset(s) == multiset{s[0]} + multiset(s[1..]);
  }

  lemma FirstOfBoth(s: seq<Element>, t: seq<Element>)
    requires Ranked(s) && Ranked(t) && s != [] && t != [] && s[0] in t && t[0] in s
    ensures s[0] == t[0]
  {
    hide Ranked, LexLess, Precedes;
    RankedFirst(s, t[0]);
    RankedFirst(t, s[0]);
    PrecedesTotal(s[0], t[0]);
    PrecedesMeans(s[0], t[0]);
    PrecedesMeans(t[0], s[0]);
  }

  lemma RankedFirst(s: seq<Element>, e: Element)
    requires Ranked(s) && e in s
    ensures s[0] == e || s[0].score < e.score || (s[0].score == e.score && !LexLess(e.member, s[0].member))
  {
    hide LexLess;
    var i :| 0 <= i < |s| && s[i] == e;
  }

  lemma RankedRest(s: seq<Element>)
    requires Ranked(s) && s != []
    ensures Ranked(s[1..])
  {
    hide LexLess;
  }

  /** In order without repetition. */
  ghost predicate StrictlySorted(s: seq<Element>) {
    forall i, j | 0 <= i < j < |s| :: Precedes(s[i], s[j])
  }

  ghost predicate DistinctMembers(s: seq<Element>) {
    forall i, j | 0 <= i < j < |s| :: s[i].member != s[j].member
  }

  /** The conditions under which the searches advance along a level. */
  datatype Walk =
    | Before(e: Element)        // slInsert, slDelete
    | UpTo(e: Element)          // slGetRank
    | ScoreBelow(bound: real)   // slFirstInRange
    | ScoreUpTo(bound: real)    // slLastInRange
  {
    predicate Passes(x: Element) {
      match this
      case Before(e) => Precedes(x, e)
      case UpTo(e) => PrecedesOrEquals(x, e)
      case ScoreBelow(b) => x.score < b
      case ScoreUpTo(b) => x.score <= b
    }
  }

  /** How many elements a walk passes before it first stops. */
  function Cut(s: seq<Element>, w: Walk): (k: nat)
    ensures k <= |s|
    ensures forall i | 0 <= i < k :: w.Passes(s[i])
    ensures k < |s| ==> !w.Passes(s[k])
  {
    if s == [] || !w.Passes(s[0]) then 0 else 1 + Cut(s[1..], w)
  }

  lemma PassesDownward(w: Walk, a: Element, b: Element)
    requires !Precedes(b, a) && w.Passes(b)
    ensures w.Passes(a)
  {
    PrecedesTotal(a, b);
    match w
    case Before(e) =>
      if a != b { PrecedesTransitive(a, b, e); }
    case UpTo(e) =>
      PrecedesTotal(a, e);
      PrecedesTotal(b, e);
      if a != b && Precedes(e, a) { PrecedesTransitive(e, a, b); }
    case ScoreBelow(_) =>
    case ScoreUpTo(_) =>
  }

  /** On a sorted sequence the cut separates what passes from what does not. */
  lemma CutSplits(s: seq<Element>, w: Walk)
    requires Sorted(s)
    ensures forall i | Cut(s, w) <= i < |s| :: !w.Passes(s[i])
  {
    var k := Cut(s, w);
    forall i | k <= i < |s| ensures !w.Passes(s[i]) {
      if i != k && w.Passes(s[i]) {
        PassesDownward(w, s[k], s[i]);
      }
    }
  }

  function InsertAt<T>(s: seq<T>, k: nat, x: T): (r: seq<T>)
    requires k <= |s|
    ensures |r| == |s| + 1
  {
    s[..k] + [x] + s[k..]
  }

  lemma InsertAtMembers<T>(s: seq<T>, k: nat, x: T)
    requires k <= |s|
    ensures forall y | y in InsertAt(s, k, x) :: y in s || y == x
  {
  }

  function RemoveAt<T>(s: seq<T>, k: nat): (r: seq<T>)
    requires k < |s|
    ensures |r| == |s| - 1
  {
    s[..k] + s[k + 1..]
  }

  lemma RemoveAtNext<T>(s: seq<T>, k: nat)
    requires k < |s|
    ensures k + 1 < |s| ==> RemoveAt(s, k)[k] == s[k + 1]
  {
  }

  function Inserted(s: seq<Element>, e: Element): seq<Element> {
    InsertAt(s, Cut(s, Before(e)), e)
  }

  predicate Holds(s: seq<Element>, e: Element) {
    var k := Cut(s, Before(e));
    k < |s| && s[k] == e
  }

  function Deleted(s: seq<Element>, e: Element): seq<Element> {
    if Holds(s, e) then RemoveAt(s, Cut(s, Before(e))) else s
  }

  function First(start: nat): nat { if start == 0 then 1 else start }

  function Last(s: seq<Element>, end: nat): nat { if end <= |s| then end else |s| }

  /** The elements with 1-based ranks start..end, where rank 0 means rank 1. */
  function RankSlice(s: seq<Element>, start: nat, end: nat): (r: seq<Element>)
    ensures forall i | 0 <= i < |r| :: First(start) + i <= end && First(start) - 1 + i < |s|
                                       && r[i] == s[First(start) - 1 + i]
  {
    if First(start) <= Last(s, end) then s[First(start) - 1..Last(s, end)] else []
  }

  function RankRemoved(s: seq<Element>, start: nat, end: nat): seq<Element> {
    if First(start) <= Last(s, end) then s[..First(start) - 1] + s[Last(s, end)..] else s
  }

  /** The elements around the insertion point, compared with the new one. */
  lemma CutAround(s: seq<Element>, e: Element, i: nat)
    requires Sorted(s) && i < |s|
    ensures i < Cut(s, Before(e)) ==> Precedes(s[i], e) && !Precedes(e, s[i])
    ensures i >= Cut(s, Before(e)) ==> !Precedes(s[i], e) && (s[i] == e || Precedes(e, s[i]))
  {
    CutSplits(s, Before(e));
    PrecedesTotal(e, s[i]);
  }

  /** Insertion adds exactly one occurrence and keeps the order. */
  lemma InsertedKeepsOrder(s: seq<Element>, e: Element)
    requires Sorted(s)
    ensures Sorted(Inserted(s, e))
    ensures multiset(Inserted(s, e)) == multiset(s) + multiset{e}
  {
    hide Cut, Precedes, Sorted;
    var k := Cut(s, Before(e));
    var t := Inserted(s, e);
    InsertAtOne(s, k, e);
    forall i, j | 0 <= i < j < |t| ensures !Precedes(t[j], t[i]) {
      InsertAtIndex(s, k, e, i);
      InsertAtIndex(s, k, e, j);
      if i == k {
        CutAround(s, e, j - 1);
        PrecedesTotal(e, s[j - 1]);
      } else if j == k {
        CutAround(s, e, i);
      } else {
        SortedAt(s, if i < k then i else i - 1, if j < k then j else j - 1);
      }
    }
    SortedIf(t);
  }

  lemma InsertAtIndex(s: seq<Element>, k: nat, e: Element, i: nat)
    requires k <= |s| && i <= |s|
    ensures InsertAt(s, k, e)[i] == if i < k then s[i] else if i == k then e else s[i - 1]
  {
  }

  lemma InsertAtOne(s: seq<Element>, k: nat, e: Element)
    requires k <= |s|
    ensures multiset(InsertAt(s, k, e)) == multiset(s) + multiset{e}
  {
    assert s == s[..k] + s[k..];
  }

  lemma SortedAt(s: seq<Element>, i: nat, j: nat)
    requires Sorted(s) && i < j < |s|
    ensures !Precedes(s[j], s[i])
  {
  }

  lemma SortedIf(s: seq<Element>)
    requires forall i, j | 0 <= i < j < |s| :: !Precedes(s[j], s[i])
    ensures Sorted(s)
  {
  }

  lemma InsertedKeepsStrictOrder(s: seq<Element>, e: Element)
    requires StrictlySorted(s) && e !in s
    ensures StrictlySorted(Inserted(s, e))
  {
    hide Cut, Precedes, Sorted;
    StrictIsSorted(s);
    var k := Cut(s, Before(e));
    var t := Inserted(s, e);
    forall i, j | 0 <= i < j < |t| ensures Precedes(t[i], t[j]) {
      InsertAtIndex(s, k, e, i);
      InsertAtIndex(s, k, e, j);
      if i == k {
        CutAround(s, e, j - 1);
        assert s[j - 1] in s;
      } else if j == k {
        CutAround(s, e, i);
      }
    }
  }

  lemma StrictIsSorted(s: seq<Element>)
    requires StrictlySorted(s)
    ensures Sorted(s)
  {
    forall i, j | 0 <= i < j < |s| ensures !Precedes(s[j], s[i]) {
      PrecedesTotal(s[i], s[j]);
    }
  }

  /** An element is held exactly when it occurs. */
  lemma HoldsIfOccurs(s: seq<Element>, e: Element)
    requires Sorted(s)
    ensures Holds(s, e) <==> e in s
  {
    if e in s {
      var j :| 0 <= j < |s| && s[j] == e;
      PrecedesTotal(e, e);
      CutAround(s, e, j);
      var k := Cut(s, Before(e));
      CutAround(s, e, k);
    }
  }

  /** Deletion removes one occurrence, if there is one, and keeps the order. */
  lemma DeletedRemovesOne(s: seq<Element>, e: Element)
    requires Sorted(s)
    ensures Sorted(Deleted(s, e))
    ensures multiset(Deleted(s, e)) == multiset(s) - multiset{e}
  {
    hide Cut, Sorted;
    var k := Cut(s, Before(e));
    HoldsIfOccurs(s, e);
    if Holds(s, e) {
      SplicedSorted(s, k, k + 1);
      WithoutOne(s, k);
    } else {
      NotThere(s, e);
    }
  }

  lemma WithoutOne(s: seq<Element>, k: nat)
    requires k < |s|
    ensures multiset(RemoveAt(s, k)) == multiset(s) - multiset{s[k]}
  {
    assert s == s[..k] + [s[k]] + s[k + 1..];
  }

  lemma NotThere(s: seq<Element>, e: Element)
    requires e !in s
    ensures multiset(s) - multiset{e} == multiset(s)
  {
    assert e !in multiset(s);
  }

  /** Deleting a fresh insertion restores the sequence. */
  lemma DeleteUndoesInsert(s: seq<Element>, e: Element)
    requires Sorted(s)
    ensures Deleted(Inserted(s, e), e) == s
  {
    hide Cut, Precedes;
    var k := Cut(s, Before(e));
    var t := Inserted(s, e);
    PrecedesTotal(e, e);
    InsertedAt(s, k, e);
    assert forall i | 0 <= i < k :: Before(e).Passes(t[i]);
    CutUnique(t, Before(e), k);
  }

  lemma InsertedAt(s: seq<Element>, k: nat, e: Element)
    requires k <= |s|
    ensures var t := InsertAt(s, k, e); t[k] == e && t[..k] == s[..k] && RemoveAt(t, k) == s
    ensures forall i | 0 <= i < k :: InsertAt(s, k, e)[i] == s[i]
  {
  }

  lemma {:induction false} CutUnique(s: seq<Element>, w: Walk, k: nat)
    requires k <= |s|
    requires forall i | 0 <= i < k :: w.Passes(s[i])
    requires k < |s| ==> !w.Passes(s[k])
    ensures Cut(s, w) == k
  {
  }

  /** Removal by rank takes out exactly the reported slice. */
  lemma RankRemovedSplits(s: seq<Element>, start: nat, end: nat)
    ensures multiset(RankRemoved(s, start, end)) + multiset(RankSlice(s, start, end)) == multiset(s)
  {
    if First(start) <= Last(s, end) {
      SplitThree(s, First(start) - 1, Last(s, end));
    }
  }

  lemma SplitThree(s: seq<Element>, lo: nat, hi: nat)
    requires lo <= hi <= |s|
    ensures multiset(s[..lo] + s[hi..]) + multiset(s[lo..hi]) == multiset(s)
  {
    var a, b, c := s[..lo], s[lo..hi], s[hi..];
    assert s == a + b + c;
    assert multiset(a + b + c) == multiset(a) + multiset(b) + multiset(c);
    assert multiset(a + c) == multiset(a) + multiset(c);
  }

  lemma RankRemovedKeepsOrder(s: seq<Element>, start: nat, end: nat)
    ensures Sorted(s) ==> Sorted(RankRemoved(s, start, end))
    ensures StrictlySorted(s) ==> StrictlySorted(RankRemoved(s, start, end))
  {
    if First(start) <= Last(s, end) {
      if Sorted(s) { SplicedSorted(s, First(start) - 1, Last(s, end)); }
      if StrictlySorted(s) { SplicedStrict(s, First(start) - 1, Last(s, end)); }
    }
  }

  lemma SplicedSorted(s: seq<Element>, lo: nat, hi: nat)
    requires lo <= hi <= |s| && Sorted(s)
    ensures Sorted(s[..lo] + s[hi..])
  {
    var t := s[..lo] + s[hi..];
    assert forall i | 0 <= i < |t| :: t[i] == s[if i < lo then i else i + hi - lo];
  }

  lemma SplicedStrict(s: seq<Element>, lo: nat, hi: nat)
    requires lo <= hi <= |s| && StrictlySorted(s)
    ensures StrictlySorted(s[..lo] + s[hi..])
  {
    var t := s[..lo] + s[hi..];
    assert forall i | 0 <= i < |t| :: t[i] == s[if i < lo then i else i + hi - lo];
  }

  function Members(s: seq<Element>): (r: seq<Member>)
    ensures |r| == |s|
    ensures forall i | 0 <= i < |s| :: r[i] == s[i].member
  {
    seq(|s|, i requires 0 <= i < |s| => s[i].member)
  }

  /** What is left after `m` removals at index `R`, and what was taken out. */
  ghost predicate Removing(s: seq<Element>, t: seq<Element>, reported: seq<Member>, R: nat, m: nat) {
    R + m <= |s| && t == s[..R] + s[R + m..] && reported == Members(s[R..R + m])
  }

  lemma RemovingStart(s: seq<Element>, R: nat)
    requires R <= |s|
    ensures Removing(s, s, [], R, 0)
  {
  }

  lemma RemovingStep(s: seq<Element>, t: seq<Element>, reported: seq<Member>, R: nat, m: nat)
    requires Removing(s, t, reported, R, m) && R < |t|
    ensures Removing(s, RemoveAt(t, R), reported + [t[R].member], R, m + 1)
  {
    assert s[R..R + m + 1] == s[R..R + m] + [t[R]];
  }

  /** Where the removal loop of slDeleteByRank ends, the specified slice is gone. */
  lemma RemovingDone(s: seq<Element>, t: seq<Element>, reported: seq<Member>, start: nat, end: nat, R: nat, m: nat)
    requires Removing(s, t, reported, R, m)
    requires R == if start == 0 then 0 else if start <= |s| + 1 then start - 1 else |s|
    requires R < |t| ==> R + 1 + m > end
    requires m > 0 ==> R + m <= end
    ensures t == RankRemoved(s, start, end)
    ensures reported == Members(RankSlice(s, start, end)) && m == |RankSlice(s, start, end)|
  {
    if First(start) <= Last(s, end) {
      assert R == First(start) - 1 && R + m == Last(s, end);
    } else {
      assert m == 0;
      assert t == s;
    }
  }

  /** With distinct members, the elements up to a present one end with it. */
  lemma CutAtElement(s: seq<Element>, k: nat)
    requires Sorted(s) && DistinctMembers(s) && k < |s|
    ensures Cut(s, UpTo(s[k])) == k + 1
  {
    CutSplits(s, UpTo(s[k]));
    PrecedesTotal(s[k], s[k]);
    if k + 1 < |s| {
      PrecedesTotal(s[k], s[k + 1]);
      PrecedesTotal(s[k + 1], s[k]);
      assert s[k].member != s[k + 1].member;
    }
  }

  /** The test of slIsInRange: some element may lie within min..max. */
  predicate Overlaps(s: seq<Element>, min: real, max: real) {
    min <= max && s != [] && s[|s| - 1].score >= min && s[0].score <= max
  }

  /** The elements with scores within min..max. */
  function ScoreSlice(s: seq<Element>, min: real, max: real): seq<Element> {
    var lo, hi := Cut(s, ScoreBelow(min)), Cut(s, ScoreUpTo(max));
    if lo <= hi then s[lo..hi] else []
  }

  /** The slice holds exactly the elements in the closed range. */
  lemma ScoreSliceExact(s: seq<Element>, min: real, max: real)
    requires Sorted(s) && min <= max
    ensures var lo, hi := Cut(s, ScoreBelow(min)), Cut(s, ScoreUpTo(max));
            lo <= hi && forall i | 0 <= i < |s| ::
              && (lo <= i <==> min <= s[i].score)
              && (i < hi <==> s[i].score <= max)
    ensures !Overlaps(s, min, max) ==> ScoreSlice(s, min, max) == []
    ensures Overlaps(s, min, max) ==> Cut(s, ScoreBelow(min)) < |s| && Cut(s, ScoreUpTo(max)) > 0
  {
    hide Sorted, Cut;
    var lo, hi := Cut(s, ScoreBelow(min)), Cut(s, ScoreUpTo(max));
    CutSplits(s, ScoreBelow(min));
    CutSplits(s, ScoreUpTo(max));
    forall i | 0 <= i < |s|
      ensures (lo <= i <==> min <= s[i].score) && (i < hi <==> s[i].score <= max)
    {
      ScoreCuts(s, min, max, i);
    }
  }

  lemma ScoreCuts(s: seq<Element>, min: real, max: real, i: nat)
    requires Sorted(s) && i < |s|
    ensures Cut(s, ScoreBelow(min)) <= i <==> min <= s[i].score
    ensures i < Cut(s, ScoreUpTo(max)) <==> s[i].score <= max
  {
    hide Sorted, Cut;
    CutSplits(s, ScoreBelow(min));
    CutSplits(s, ScoreUpTo(max));
    assert i < Cut(s, ScoreBelow(min)) <==> ScoreBelow(min).Passes(s[i]);
    assert i < Cut(s, ScoreUpTo(max)) <==> ScoreUpTo(max).Passes(s[i]);
  }

  function Reversed<T>(s: seq<T>): (r: seq<T>)
    ensures |r| == |s|
    ensures forall i | 0 <= i < |s| :: r[i] == s[|s| - 1 - i]
  {
    if s == [] then [] else Reversed(s[1..]) + [s[0]]
  }

  /** The members collected so far by an ascending or a descending loop. */
  lemma CollectUp(s: seq<Element>, lo: nat, n: nat)
    requires lo + n < |s|
    ensures Members(s[lo..lo + n + 1]) == Members(s[lo..lo + n]) + [s[lo + n].member]
  {
  }

  lemma CollectDown(s: seq<Element>, hi: nat, n: nat)
    requires n < hi <= |s|
    ensures Reversed(Members(s[hi - n - 1..hi])) == Reversed(Members(s[hi - n..hi])) + [s[hi - n - 1].member]
  {
    hide Reversed, Members;
    var a, b := Members(s[hi - n - 1..hi]), Members(s[hi - n..hi]);
    assert a == [s[hi - n - 1].member] + b;
    assert Reversed(a) == Reversed(b) + [s[hi - n - 1].member];
  }

  /** How many elements _get_rank_range is ready to return: the width of the range,
      truncated to `int`. */
  function RangeLength(r1: nat, r2: nat): int {
    if r1 <= r2 then ToInt32(r2 - r1 + 1) else ToInt32(r1 - r2 + 1)
  }

  /** What _get_rank_range returns: nothing when no element has rank r1; otherwise up to
      the range length, upwards or downwards from r1. */
  function RankRange(s: seq<Element>, r1: nat, r2: nat): seq<Member> {
    if r1 == 0 || r1 > |s| || RangeLength(r1, r2) <= 0 then []
    else if r1 <= r2 then
      Members(s[r1 - 1..Last(s, r1 - 1 + RangeLength(r1, r2))])
    else
      var k := if RangeLength(r1, r2) <= r1 then RangeLength(r1, r2) else r1;
      Reversed(Members(s[r1 - k..r1]))
  }

  /** The members whose ranks lie between r1 and r2, in the order the arguments ask for. */
  function ClosedRange(s: seq<Element>, r1: nat, r2: nat): seq<Member> {
    if r1 <= r2 then Members(RankSlice(s, r1, r2)) else Reversed(Members(RankSlice(s, r2, r1)))
  }

  /** How many ranks between r1 and r2 are in use. */
  function RanksInUse(s: seq<Element>, r1: nat, r2: nat): int {
    if r1 <= r2 then |RankSlice(s, r1, r2)| else |RankSlice(s, r2, r1)|
  }

  /** _get_rank_range returns the closed range if and only if the range meets no element,
      or r1 itself is a rank in use and the truncated length still covers the elements. */
  lemma RankRangeExact(s: seq<Element>, r1: nat, r2: nat)
    ensures RankRange(s, r1, r2) == ClosedRange(s, r1, r2)
       <==> RanksInUse(s, r1, r2) == 0
            || (1 <= r1 <= |s| && RangeLength(r1, r2) >= RanksInUse(s, r1, r2))
  {
    hide Members, Reversed, ToInt32;
    if r1 <= r2 { RankRangeUp(s, r1, r2); } else { RankRangeDown(s, r1, r2); }
  }

  lemma RankRangeUp(s: seq<Element>, r1: nat, r2: nat)
    requires r1 <= r2
    ensures RankRange(s, r1, r2) == ClosedRange(s, r1, r2)
       <==> RanksInUse(s, r1, r2) == 0
            || (1 <= r1 <= |s| && RangeLength(r1, r2) >= RanksInUse(s, r1, r2))
  {
    hide Members, ToInt32;
    TruncationAtMost(r2 - r1 + 1);
    if 1 <= r1 <= |s| && RangeLength(r1, r2) >= RanksInUse(s, r1, r2) {
      assert Last(s, r1 - 1 + RangeLength(r1, r2)) == Last(s, r2);
    }
  }

  lemma RankRangeDown(s: seq<Element>, r1: nat, r2: nat)
    requires r1 > r2
    ensures RankRange(s, r1, r2) == ClosedRange(s, r1, r2)
       <==> RanksInUse(s, r1, r2) == 0
            || (1 <= r1 <= |s| && RangeLength(r1, r2) >= RanksInUse(s, r1, r2))
  {
    hide Members, Reversed, ToInt32;
    TruncationAtMost(r1 - r2 + 1);
  }

  lemma TruncationAtMost(x: nat)
    ensures ToInt32(x) <= x
  {
  }

  /** The truncation is real: asking for every rank by a huge upper end returns nothing. */
  lemma RankRangeTruncates(s: seq<Element>)
    requires s != []
    ensures RankRange(s, 1, 0x8000_0000) == [] != ClosedRange(s, 1, 0x8000_0000)
  {
    RankRangeExact(s, 1, 0x8000_0000);
    assert RangeLength(1, 0x8000_0000) == -0x8000_0000;
  }

  /** A first argument that is no rank in use returns nothing, whatever the second one is. */
  lemma RankRangeStarts(s: seq<Element>)
    requires s != []
    ensures RankRange(s, 0, 1) == [] != ClosedRange(s, 0, 1)
    ensures RankRange(s, |s| + 1, 1) == [] != ClosedRange(s, |s| + 1, 1)
  {
    hide Members, Reversed, ToInt32;
    RankRangeExact(s, 0, 1);
    RankRangeExact(s, |s| + 1, 1);
  }

  // ---- distinct members ----------------------------------------------------------------------------

  lemma InsertedKeepsDistinct(s: seq<Element>, e: Element)
    requires DistinctMembers(s) && e.member !in Members(s)
    ensures DistinctMembers(Inserted(s, e))
  {
    hide Cut;
    var k := Cut(s, Before(e));
    CutInside(s, Before(e));
    var t := InsertAt(s, k, e);
    assert forall i | 0 <= i < |s| :: Members(s)[i] == s[i].member;
    forall i, j | 0 <= i < j < |t| ensures t[i].member != t[j].member {
      assert t[i] == if i < k then s[i] else if i == k then e else s[i - 1];
      assert t[j] == if j < k then s[j] else if j == k then e else s[j - 1];
    }
  }

  lemma SameMember(s: seq<Element>, i: nat, j: nat)
    requires DistinctMembers(s) && i < |s| && j < |s| && s[i].member == s[j].member
    ensures i == j
  {
  }

  lemma CutInside(s: seq<Element>, w: Walk)
    ensures Cut(s, w) <= |s|
  {
  }

  lemma SplicedDistinct(s: seq<Element>, lo: nat, hi: nat)
    requires lo <= hi <= |s| && DistinctMembers(s)
    ensures DistinctMembers(s[..lo] + s[hi..])
  {
    var t := s[..lo] + s[hi..];
    forall i, j | 0 <= i < j < |t| ensures t[i].member != t[j].member {
      assert t[i] == (if i < lo then s[i] else s[i - lo + hi]) && t[j] == (if j < lo then s[j] else s[j - lo + hi]);
    }
  }
}
