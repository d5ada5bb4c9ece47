/** What the snapshot follows, stated on the graph alone. */
module SnapshotEdges {
  import opened Common
  import opened SnapshotGraph

  /** The value x is followed from q under the name d. */
  ghost predicate Followed(E: Edges, q: Ptr, x: Value, d: string) {
    q in E && exists e :: e in E[q] && e.value == x && e.name == d
  }

  /** A letter is in the raw "__mode" string of the metatable. */
  predicate ModeHas(g: Graph, meta: Option<Ptr>, letter: char) {
    meta.Some? && meta.value in g && g[meta.value].TableObject? && letter in g[meta.value].mode
  }

  /** A table is followed to its metatable, to its values unless its metatable has a 'v' in its mode,
      and to its keys unless it has a 'k'. */
  ghost predicate TableFollows(g: Graph, t: Object, x: Value, d: string)
    requires t.TableObject?
  {
    || (t.meta.Some? && x == Ref(t.meta.value) && d == "[metatable]")
    || (!ModeHas(g, t.meta, 'v') && exists p <- t.pairs :: x == p.value && d == p.desc)
    || (!ModeHas(g, t.meta, 'k') && d == "[key]" && exists p <- t.pairs :: x == p.key)
  }

  /** What an object other than a thread is followed to. */
  ghost predicate Follows(g: Graph, t: Object, x: Value, d: string)
    requires !t.ThreadObject?
  {
    match t
    case TableObject(_, _, _) => TableFollows(g, t, x, d)
    case UserdataObject(meta, uservalue) =>
      (meta.Some? && x == Ref(meta.value) && d == "[metatable]") || (x == uservalue && d == "[uservalue]")
    case FunctionObject(upvalues) =>
      exists u <- upvalues :: x == u.value && d == if u.name == "" then "[upvalue]" else u.name
  }

  /** A stack slot is followed under its number. */
  ghost predicate SlotFollows(stack: seq<Value>, x: Value, d: string) {
    exists i: nat :: i < |stack| && x == stack[i] && d == "[" + Decimal(i + 1) + "]"
  }

  ghost predicate LocalFollows(frames: seq<seq<Named>>, x: Value, d: string) {
    exists f <- frames :: Named(x, d) in f
  }

  /** Tables, userdata and functions. */
  lemma FollowedExactly(g: Graph, root: Ptr, caller: Ptr, q: Ptr, x: Value, d: string)
    requires q in g && !g[q].ThreadObject?
    ensures Followed(TrueEdges(g, root, caller), q, x, d) <==> Follows(g, g[q], x, d)
  {
    hide PairsEdges, UpvalueEdges, WalkedOf, WeakKeys, WeakValues, TableFollows;
    var edges := ObjectEdges(g, caller, WalkedOf(g, root, caller), q);
    assert TrueEdges(g, root, caller)[q] == edges;
    match g[q]
    case TableObject(meta, _, pairs) =>
      TableExactly(g, q, x, d);
    case UserdataObject(meta, uservalue) =>
      NameInJoin(MetaEdges(meta), UserEdges(uservalue), x, d);
      NameInOne(Edge(uservalue, "[uservalue]", []), x, d);
      MetaExactly(meta, x, d);
    case FunctionObject(upvalues) =>
      UpvaluesExactly(upvalues, x, d);
    NameInEdges(edges, x, d);
  }

  /** Among these edges there is one to x under that name. */
  ghost predicate NameIn(edges: seq<Edge>, x: Value, d: string) {
    exists e :: e in edges && e.value == x && e.name == d
  }

  lemma NameInEdges(edges: seq<Edge>, x: Value, d: string)
    ensures NameIn(edges, x, d) <==> exists e :: e in edges && e.value == x && e.name == d
  {
  }

  lemma NameInJoin(a: seq<Edge>, b: seq<Edge>, x: Value, d: string)
    ensures NameIn(a + b, x, d) <==> NameIn(a, x, d) || NameIn(b, x, d)
  {
  }

  lemma NameInOne(e: Edge, x: Value, d: string)
    ensures NameIn([e], x, d) <==> e.value == x && e.name == d
  {
    assert e in [e];
  }

  lemma NameInNone(x: Value, d: string)
    ensures !NameIn([], x, d)
  {
  }

  lemma MetaExactly(meta: Option<Ptr>, x: Value, d: string)
    ensures NameIn(MetaEdges(meta), x, d) <==> meta.Some? && x == Ref(meta.value) && d == "[metatable]"
  {
    if meta.Some? { NameInOne(Edge(Ref(meta.value), "[metatable]", []), x, d); }
  }

  lemma TableExactly(g: Graph, q: Ptr, x: Value, d: string)
    requires q in g && g[q].TableObject?
    ensures var t := g[q];
            NameIn(MetaEdges(t.meta) + PairsEdges(WeakKeys(g, t.meta), WeakValues(g, t.meta), t.pairs), x, d)
            <==> TableFollows(g, t, x, d)
  {
    hide PairsEdges, MetaEdges, NameIn;
    var t := g[q];
    var k, v := WeakKeys(g, t.meta), WeakValues(g, t.meta);
    assert k == ModeHas(g, t.meta, 'k') && v == ModeHas(g, t.meta, 'v');
    NameInJoin(MetaEdges(t.meta), PairsEdges(k, v, t.pairs), x, d);
    MetaExactly(t.meta, x, d);
    PairsExactly(k, v, t.pairs, x, d);
  }

  lemma {:induction false} PairsExactly(weakKeys: bool, weakValues: bool, pairs: seq<Pair>, x: Value, d: string)
    ensures NameIn(PairsEdges(weakKeys, weakValues, pairs), x, d)
       <==> (!weakValues && exists p <- pairs :: x == p.value && d == p.desc)
            || (!weakKeys && d == "[key]" && exists p <- pairs :: x == p.key)
  {
    hide NameIn, PairEdges;
    if pairs == [] {
      NameInNone(x, d);
    } else {
      var k := |pairs| - 1;
      PairsExactly(weakKeys, weakValues, pairs[..k], x, d);
      NameInJoin(PairsEdges(weakKeys, weakValues, pairs[..k]), PairEdges(weakKeys, weakValues, pairs[k]), x, d);
      PairExactly(weakKeys, weakValues, pairs[k], x, d);
      assert pairs == pairs[..k] + [pairs[k]];
      assert pairs[k] in pairs;
    }
  }

  lemma PairExactly(weakKeys: bool, weakValues: bool, p: Pair, x: Value, d: string)
    ensures NameIn(PairEdges(weakKeys, weakValues, p), x, d)
       <==> (!weakValues && x == p.value && d == p.desc) || (!weakKeys && d == "[key]" && x == p.key)
  {
    hide NameIn;
    var value, key := Edge(p.value, p.desc, [p.key]), Edge(p.key, "[key]", [p.key]);
    NameInOne(value, x, d);
    NameInOne(key, x, d);
    NameInNone(x, d);
    NameInJoin(if weakValues then [] else [value], if weakKeys then [] else [key], x, d);
  }

  lemma UpvaluesExactly(upvalues: seq<Named>, x: Value, d: string)
    ensures NameIn(UpvalueEdges(upvalues), x, d)
       <==> exists u <- upvalues :: x == u.value && d == if u.name == "" then "[upvalue]" else u.name
  {
    var edges := UpvalueEdges(upvalues);
    if NameIn(edges, x, d) {
      var e :| e in edges && e.value == x && e.name == d;
      var i :| 0 <= i < |edges| && edges[i] == e;
      assert upvalues[i] in upvalues;
    }
    if u :| u in upvalues && x == u.value && d == (if u.name == "" then "[upvalue]" else u.name) {
      var i :| 0 <= i < |upvalues| && upvalues[i] == u;
      assert edges[i] in edges;
    }
  }

  // ---- threads -------------------------------------------------------------------------------------

  /** A thread other than the calling one is followed to its stack slots and to the locals of all its
      frames; the calling one to the locals from level 1 on, and if its stack is walked also to its
      slots and what the walk holds there, as slots and as the temporaries of level 0. */
  lemma ThreadFollowed(g: Graph, root: Ptr, caller: Ptr, q: Ptr, x: Value, d: string)
    requires IsThread(g, q)
    ensures q != caller ==>
              (Followed(TrueEdges(g, root, caller), q, x, d)
               <==> SlotFollows(g[q].stack, x, d) || LocalFollows(g[q].frames, x, d))
    ensures q == caller && WalkedOf(g, root, caller).None? ==>
              (Followed(TrueEdges(g, root, caller), q, x, d) <==> LocalFollows(g[q].frames, x, d))
    ensures q == caller && WalkedOf(g, root, caller).Some? ==>
              var stack := g[q].stack + WalkedOf(g, root, caller).value;
              (Followed(TrueEdges(g, root, caller), q, x, d)
               <==> || SlotFollows(stack, x, d)
                    || (x in stack && d == "(*temporary) : [C]:-1")
                    || LocalFollows(g[q].frames, x, d))
  {
    hide SlotFollows, LocalFollows, SlotEdges, FrameEdges, NameIn, WalkedOf, Temporaries;
    var w := WalkedOf(g, root, caller);
    var below := if w.Some? then w.value else [];
    var own := q == caller && w.None?;
    var edges := ThreadEdges(g, caller, below, q, own);
    assert TrueEdges(g, root, caller)[q] == edges;
    NameInEdges(edges, x, d);
    var stack, frames := StackOf(g, caller, below, q), FramesOf(g, caller, below, q);
    FramesExactly(frames, x, d);
    FramesExactly(g[q].frames, x, d);
    SlotsExactly(stack, x, d);
    NameInJoin(SlotEdges(stack), FrameEdges(frames), x, d);
    if q == caller {
      assert frames[1..] == g[q].frames;
      FirstFrame(Temporaries(stack), g[q].frames, x, d);
      TemporariesExactly(stack, x, d);
    }
  }

  lemma SlotsExactly(stack: seq<Value>, x: Value, d: string)
    ensures NameIn(SlotEdges(stack), x, d) <==> SlotFollows(stack, x, d)
  {
    hide Decimal;
    var edges := SlotEdges(stack);
    if NameIn(edges, x, d) {
      var e :| e in edges && e.value == x && e.name == d;
      var i :| 0 <= i < |edges| && edges[i] == e;
      assert x == stack[i] && d == "[" + Decimal(i + 1) + "]";
    }
    if SlotFollows(stack, x, d) {
      var i: nat :| i < |stack| && x == stack[i] && d == "[" + Decimal(i + 1) + "]";
      assert edges[i] in edges;
    }
  }

  lemma {:induction false} FramesExactly(frames: seq<seq<Named>>, x: Value, d: string)
    ensures NameIn(FrameEdges(frames), x, d) <==> LocalFollows(frames, x, d)
  {
    hide NameIn, LocalEdges;
    if frames == [] {
      NameInNone(x, d);
    } else {
      var k := |frames| - 1;
      FramesExactly(frames[..k], x, d);
      NameInJoin(FrameEdges(frames[..k]), LocalEdges(frames[k]), x, d);
      LocalsExactly(frames[k], x, d);
      assert frames == frames[..k] + [frames[k]];
      assert frames[k] in frames;
    }
  }

  lemma LocalsExactly(f: seq<Named>, x: Value, d: string)
    ensures NameIn(LocalEdges(f), x, d) <==> Named(x, d) in f
  {
    var edges := LocalEdges(f);
    if NameIn(edges, x, d) {
      var e :| e in edges && e.value == x && e.name == d;
      var i :| 0 <= i < |edges| && edges[i] == e;
      assert f[i] == Named(x, d);
    }
    if Named(x, d) in f {
      var i :| 0 <= i < |f| && f[i] == Named(x, d);
      assert edges[i] in edges;
    }
  }

  lemma FirstFrame(f: seq<Named>, frames: seq<seq<Named>>, x: Value, d: string)
    ensures LocalFollows([f] + frames, x, d) <==> Named(x, d) in f || LocalFollows(frames, x, d)
  {
    assert f in [f] + frames;
  }

  lemma TemporariesExactly(stack: seq<Value>, x: Value, d: string)
    ensures Named(x, d) in Temporaries(stack) <==> x in stack && d == "(*temporary) : [C]:-1"
  {
    var ts := Temporaries(stack);
    if Named(x, d) in ts {
      var i :| 0 <= i < |ts| && ts[i] == Named(x, d);
      assert x == stack[i];
    }
    if x in stack && d == "(*temporary) : [C]:-1" {
      var i :| 0 <= i < |stack| && stack[i] == x;
      assert ts[i] == Named(x, d);
    }
  }

  // ---- a weak table --------------------------------------------------------------------------------

  /** The registry holds a table with one pair, whose metatable has that mode. */
  function WeakGraph(mode: string): Graph {
    map[0 := Registry(Ref(1)),
        1 := TableObject(Some(2), "", [Pair(Ref(3), "k", Ref(4))]),
        2 := TableObject(None, mode, []),
        3 := TableObject(None, "", []),
        4 := TableObject(None, "", []),
        5 := ThreadObject([], [])]
  }

  /** The key is reachable if and only if the mode has no 'k', the value if and only if it has no 'v'. */
  lemma WeakTable(mode: string)
    ensures WellFormed(WeakGraph(mode))
    ensures Reachable(TrueEdges(WeakGraph(mode), 0, 5), 0, 3) <==> 'k' !in mode
    ensures Reachable(TrueEdges(WeakGraph(mode), 0, 5), 0, 4) <==> 'v' !in mode
  {
    hide TrueEdges, Reachable, Step;
    var g := WeakGraph(mode);
    var E := TrueEdges(g, 0, 5);
    WeakGraphFormed(mode);
    forall q: Ptr, p: Ptr | q <= 4 ensures Step(E, q, p) <==> WeakSteps(mode, q, p) {
      WeakStep(mode, q, p);
    }
    var marked := {0, 1, 2} + (if 'k' in mode then {} else {3}) + (if 'v' in mode then {} else {4});
    ReachableRoot(E, 0);
    ReachableStep(E, 0, 0, 1);
    if 'k' !in mode { ReachableStep(E, 0, 1, 3); }
    if 'v' !in mode { ReachableStep(E, 0, 1, 4); }
    forall p | Reachable(E, 0, p) ensures p in marked {
      ReachableHeld(E, marked, 0, p);
    }
  }

  lemma ReachableHeld(E: Edges, marked: set<Ptr>, root: Ptr, p: Ptr)
    requires root in marked && Reachable(E, root, p)
    requires forall q, p | q in marked && Step(E, q, p) :: p in marked
    ensures p in marked
  {
    hide Step;
    var path :| Joins(E, path, root, p);
    ClosedHolds(E, marked, path);
  }

  predicate WeakSteps(mode: string, q: Ptr, p: Ptr) {
    (q == 0 && p == 1) || (q == 1 && (p == 2 || (p == 3 && 'k' !in mode) || (p == 4 && 'v' !in mode)))
  }

  lemma WeakGraphFormed(mode: string)
    ensures WellFormed(WeakGraph(mode))
  {
  }

  lemma StepIsFollowed(E: Edges, q: Ptr, p: Ptr)
    ensures Step(E, q, p) <==> exists d :: Followed(E, q, Ref(p), d)
  {
    if Step(E, q, p) {
      var d :| HasEdge(E, q, p, d);
      assert Followed(E, q, Ref(p), d);
    }
    if d :| Followed(E, q, Ref(p), d) {
      assert HasEdge(E, q, p, d);
    }
  }

  lemma WeakStep(mode: string, q: Ptr, p: Ptr)
    requires q <= 4
    ensures Step(TrueEdges(WeakGraph(mode), 0, 5), q, p) <==> WeakSteps(mode, q, p)
  {
    hide Followed, Step, WalkedOf, ObjectEdges;
    var g := WeakGraph(mode);
    var E := TrueEdges(g, 0, 5);
    StepIsFollowed(E, q, p);
    forall d ensures Followed(E, q, Ref(p), d) <==> Follows(g, g[q], Ref(p), d) {
      FollowedExactly(g, 0, 5, q, Ref(p), d);
    }
    WeakFollows(mode, q, p);
  }

  lemma WeakFollows(mode: string, q: Ptr, p: Ptr)
    requires q <= 4
    ensures (exists d :: Follows(WeakGraph(mode), WeakGraph(mode)[q], Ref(p), d)) <==> WeakSteps(mode, q, p)
  {
    var g := WeakGraph(mode);
    if WeakSteps(mode, q, p) {
      var d := if q == 0 then "[1]" else if p == 2 then "[metatable]" else if p == 3 then "[key]" else "k";
      assert q == 0 ==> Pair(Plain, "[1]", Ref(1)) in g[q].pairs;
      assert q == 1 ==> Pair(Ref(3), "k", Ref(4)) in g[q].pairs;
      assert Follows(g, g[q], Ref(p), d);
    }
  }
}
