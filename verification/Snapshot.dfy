/** The heap snapshot of lua-snapshot: marking over an arbitrary, possibly cyclic object graph whose
    weak edges are not followed. */
module Snapshot {
  import opened Common
  import opened SnapshotGraph

  // ---- the mark and record tables ---------------------------------------------------------------

  /** An object's record: its parents, None being the start, and how each reached it. */
  type Record = map<Option<Ptr>, string>

  type Records = map<Ptr, Record>

  /** A recorded parent is the start, or a marked object with a followed edge of that name. */
  ghost predicate ParentOk(E: Edges, root: Ptr, mark: set<Ptr>, p: Ptr, parent: Option<Ptr>, desc: string) {
    match parent
    case None => p == root && desc == "[registry]"
    case Some(q) => q in mark && HasEdge(E, q, p, desc)
  }

  ghost predicate ParentsOk(E: Edges, root: Ptr, mark: set<Ptr>, record: Records) {
    forall p, parent | p in record && parent in record[p] ::
      ParentOk(E, root, mark, p, parent, record[p][parent])
  }

  /** The given edges of q lead to marked objects that record q. */
  ghost predicate Covered(record: Records, q: Ptr, edges: seq<Edge>) {
    forall e | e in edges && e.value.Ref? :: e.value.p in record && Some(q) in record[e.value.p]
  }

  /** An object is first met along its greedy trail, and as a user value only if it is a table. */
  ghost predicate Met(g: Graph, E: Edges, root: Ptr, trail: seq<Link>, o: Ptr) {
    Greedy(E, root, trail, o) && (ThroughUserValue(g, trail) ==> IsTable(g, o))
  }

  /** What has been marked so far: the tables, the order of expansion, and how each object was met. */
  datatype Marks = Marks(mark: set<Ptr>, record: Records, expanded: seq<Ptr>, first: map<Ptr, seq<Link>>)

  /** The state of the marker while the objects in `gray` are being expanded. */
  ghost predicate Consistent(g: Graph, E: Edges, root: Ptr, m: Marks, gray: set<Ptr>) {
    && m.mark <= E.Keys && m.record.Keys == m.mark && m.first.Keys == m.mark && gray <= m.mark
    && (forall p | p in m.mark :: Reachable(E, root, p))
    && ParentsOk(E, root, m.mark, m.record)
    && (forall q | q in m.mark && q !in gray :: Covered(m.record, q, E[q]))
    && (forall i, j | 0 <= i < j < |m.expanded| :: m.expanded[i] != m.expanded[j])
    && (forall p :: p in m.mark <==> p in m.expanded)
    && (forall p | p in m.mark :: Met(g, E, root, m.first[p], p))
  }

  /** More is marked, and no record loses a parent. */
  ghost predicate Grown(record: Records, record': Records) {
    record.Keys <= record'.Keys && forall p, parent | p in record && parent in record[p] :: parent in record'[p]
  }

  lemma GrownTransitive(a: Records, b: Records, c: Records)
    requires Grown(a, b) && Grown(b, c)
    ensures Grown(a, c)
  {
    forall p, parent | p in a && parent in a[p] ensures parent in c[p] {
      assert parent in b[p];
    }
  }

  lemma CoveredGrows(record: Records, record': Records, q: Ptr, edges: seq<Edge>)
    requires Covered(record, q, edges) && Grown(record, record')
    ensures Covered(record', q, edges)
  {
    forall e | e in edges && e.value.Ref? ensures e.value.p in record' && Some(q) in record'[e.value.p] {
      assert Some(q) in record[e.value.p];
    }
  }

  lemma CoveredMore(record: Records, q: Ptr, edges: seq<Edge>, more: seq<Edge>)
    requires Covered(record, q, edges) && Covered(record, q, more)
    ensures Covered(record, q, edges + more)
  {
  }

  lemma CoveredOne(record: Records, q: Ptr, e: Edge)
    requires e.value.Ref? ==> e.value.p in record && Some(q) in record[e.value.p]
    ensures Covered(record, q, [e])
  {
  }

  lemma CoveredNone(record: Records, t: Ptr)
    ensures Covered(record, t, [])
  {
  }

  lemma CoveredPrefix(record: Records, t: Ptr, done: seq<Edge>, edges: seq<Edge>, f: nat)
    requires Covered(record, t, done) && done <= edges && f < |done| && edges[f].value.Ref?
    ensures edges[f].value.p in record
  {
    assert edges[f] == done[f];
  }

  /** A new parent of a marked object. */
  lemma AddParent(g: Graph, E: Edges, root: Ptr, m: Marks, gray: set<Ptr>, p: Ptr, parent: Option<Ptr>, desc: string)
    requires Consistent(g, E, root, m, gray) && p in m.mark && ParentOk(E, root, m.mark, p, parent, desc)
    ensures var record' := m.record[p := m.record[p][parent := desc]];
            Grown(m.record, record') && Consistent(g, E, root, m.(record := record'), gray)
  {
    hide Reachable, ParentOk, Met;
    var record': Records := m.record[p := m.record[p][parent := desc]];
    assert Grown(m.record, record');
    forall q | q in m.mark && q !in gray ensures Covered(record', q, E[q]) {
      CoveredGrows(m.record, record', q, E[q]);
    }
  }

  /** A newly marked object starts gray. */
  lemma AddMark(g: Graph, E: Edges, root: Ptr, m: Marks, gray: set<Ptr>, p: Ptr, parent: Option<Ptr>, desc: string,
                trail: seq<Link>)
    requires Consistent(g, E, root, m, gray) && p in E && p !in m.mark && Reachable(E, root, p)
    requires ParentOk(E, root, m.mark, p, parent, desc) && Met(g, E, root, trail, p)
    ensures var m' := Marks(m.mark + {p}, m.record[p := map[parent := desc]], m.expanded + [p], m.first[p := trail]);
            Grown(m.record, m'.record) && Consistent(g, E, root, m', gray + {p})
  {
    hide Reachable, Met, ParentOk, ParentsOk;
    var record': Records := m.record[p := map[parent := desc]];
    assert Grown(m.record, record');
    forall q | q in m.mark && q !in gray ensures Covered(record', q, E[q]) {
      CoveredGrows(m.record, record', q, E[q]);
    }
    AddMarkParents(E, root, m.mark, m.record, p, parent, desc);
  }

  lemma AddMarkParents(E: Edges, root: Ptr, mark: set<Ptr>, record: Records, p: Ptr, parent: Option<Ptr>, desc: string)
    requires ParentsOk(E, root, mark, record) && p !in record && ParentOk(E, root, mark, p, parent, desc)
    ensures ParentsOk(E, root, mark + {p}, record[p := map[parent := desc]])
  {
    hide HasEdge;
  }

  /** An object whose edges are all covered need not be gray. */
  lemma Blacken(g: Graph, E: Edges, root: Ptr, m: Marks, gray: set<Ptr>, t: Ptr)
    requires Consistent(g, E, root, m, gray + {t}) && t in E && Covered(m.record, t, E[t])
    ensures Consistent(g, E, root, m, gray)
  {
    hide Reachable, Met, ParentsOk, Covered;
  }

  // ---- why objects are first met along greedy trails -----------------------------------------------

  /** From what is marked and not gray, everything else is reached only through gray objects. */
  lemma {:induction false} MarkedBlocks(E: Edges, mark: set<Ptr>, gray: set<Ptr>, path: seq<Ptr>, x: Ptr, o: Ptr)
    requires forall q, p | q in mark && q !in gray && Step(E, q, p) :: p in mark
    requires x in mark && x !in gray && Way(E, path, x, o, gray)
    ensures o in mark
    decreases |path|
  {
    hide Step;
    if |path| > 1 {
      assert Step(E, path[0], path[1]);
      var rest := path[1..];
      forall i | 0 <= i < |rest| - 1 ensures Step(E, rest[i], rest[i + 1]) && rest[i] !in gray && rest[i] != o {
        assert Step(E, path[i + 1], path[i + 2]) && path[i + 1] !in gray;
      }
      if path[1] !in gray {
        MarkedBlocks(E, mark, gray, rest, path[1], o);
      }
    }
  }

  lemma BlackSteps(g: Graph, E: Edges, root: Ptr, m: Marks, gray: set<Ptr>, q: Ptr, p: Ptr)
    requires Consistent(g, E, root, m, gray) && q in m.mark && q !in gray && Step(E, q, p)
    ensures p in m.mark
  {
    hide Reachable, Met, ParentsOk;
    var name :| HasEdge(E, q, p, name);
    assert Covered(m.record, q, E[q]);
  }

  /** Nothing passed over leads to an object that is not marked yet. */
  ghost predicate Open(E: Edges, mark: set<Ptr>, trail: seq<Link>) {
    forall i, o | 0 <= i < |trail| && o !in mark :: Greedy1(E, trail[i], o, Heads(trail[..i + 1]))
  }

  lemma OpenGrows(E: Edges, mark: set<Ptr>, mark': set<Ptr>, trail: seq<Link>)
    requires Open(E, mark, trail) && mark <= mark'
    ensures Open(E, mark', trail)
  {
    hide Greedy1, Heads;
  }

  lemma NewLinkBlocked(g: Graph, E: Edges, root: Ptr, m: Marks, gray: set<Ptr>, x: Ptr, o: Ptr)
    requires Consistent(g, E, root, m, gray) && x in m.mark && o !in m.mark
    ensures Blocked(E, x, o, gray)
  {
    hide Consistent, Way;
    if x !in gray {
      forall path | Way(E, path, x, o, gray) ensures false {
        forall q, p | q in m.mark && q !in gray && Step(E, q, p) ensures p in m.mark {
          BlackSteps(g, E, root, m, gray, q, p);
        }
        MarkedBlocks(E, m.mark, gray, path, x, o);
      }
    }
  }

  /** Following the next edge of t: the edges before it are done with. */
  lemma NewLinkOpen(g: Graph, E: Edges, root: Ptr, m: Marks, trail: seq<Link>, t: Ptr, done: seq<Edge>)
    requires Consistent(g, E, root, m, Heads(trail) + {t}) && Open(E, m.mark, trail) && t in E
    requires Covered(m.record, t, done) && done <= E[t]
    ensures Open(E, m.mark, trail + [Link(t, |done|)]) && Heads(trail + [Link(t, |done|)]) == Heads(trail) + {t}
  {
    hide Reachable, Met, ParentsOk, Covered, Heads, Blocked, Step;
    var l := Link(t, |done|);
    var longer := trail + [l];
    HeadsSnoc(longer, |trail|);
    assert longer[..|trail|] == trail && longer[..|trail| + 1] == longer;
    forall i, o | 0 <= i < |longer| && o !in m.mark ensures Greedy1(E, longer[i], o, Heads(longer[..i + 1])) {
      if i < |trail| {
        assert longer[..i + 1] == trail[..i + 1];
      } else {
        forall f | 0 <= f < l.edge && E[t][f].value.Ref? ensures Blocked(E, E[t][f].value.p, o, Heads(longer)) {
          CoveredPrefix(m.record, t, done, E[t], f);
          NewLinkBlocked(g, E, root, m, Heads(longer), E[t][f].value.p, o);
        }
      }
    }
  }

  // ---- the marker ------------------------------------------------------------------------------------

  function Top(stack: seq<Value>): Value
    requires stack != []
  {
    stack[|stack| - 1]
  }

  function Under(stack: seq<Value>): seq<Value>
    requires stack != []
  {
    stack[..|stack| - 1]
  }

  class Marker {
    const g: Graph
    const root: Ptr
    const caller: Ptr
    ghost const E: Edges
    var mark: set<Ptr>
    var record: Records
    ghost var expanded: seq<Ptr>
    ghost var first: map<Ptr, seq<Link>>

    constructor (g: Graph, root: Ptr, caller: Ptr)
      ensures this.g == g && this.root == root && this.caller == caller && E == TrueEdges(g, root, caller)
      ensures mark == {} && record == map[] && expanded == [] && first == map[]
    {
      this.g, this.root, this.caller, this.E := g, root, caller, TrueEdges(g, root, caller);
      mark, record, expanded, first := {}, map[], [], map[];
    }

    ghost function State(): Marks
      reads this
    {
      Marks(mark, record, expanded, first)
    }

    ghost predicate Good(gray: set<Ptr>)
      reads this
    {
      && WellFormed(g) && IsThread(g, caller) && E == TrueEdges(g, root, caller)
      && Consistent(g, E, root, State(), gray)
    }

    /** Some object that is no table is first met as a user value. */
    ghost predicate Undefined() { exists o :: Misused(g, E, root, o) }

    /** The value may be marked with this parent: it is the start, or the next edge of the trail. */
    ghost predicate Ready(trail: seq<Link>, v: Value, parent: Option<Ptr>, desc: string)
      reads this
    {
      && Open(E, mark, trail)
      && if trail == [] then v == Ref(root) && parent == None && desc == "[registry]" && root in g
         else
           var front, l := trail[..|trail| - 1], trail[|trail| - 1];
           && parent == Some(l.p) && Trail(E, root, front, l.p) && l.p in E && l.edge < |E[l.p]|
           && E[l.p][l.edge].value == v && E[l.p][l.edge].name == desc
    }

    /** The walk is on thread `cur`. Until the calling thread is met, its stack holds what the trail
        says: it is `base` or, while the walk is on another thread, `below`. */
    ghost predicate StackOk(cur: Ptr, base: seq<Value>, below: seq<Value>, trail: seq<Link>)
      reads this
    {
      && cur == Current(g, caller, trail)
      && (caller !in mark ==> (if cur == caller then base else below) == HeldOf(g, E, trail))
    }

    /** The object t is being expanded. */
    ghost predicate Expanding(t: Ptr, trail: seq<Link>)
      reads this
    {
      && Good(Heads(trail) + {t}) && t in mark && t in g && t in E
      && Trail(E, root, trail, t) && Open(E, mark, trail)
    }

    lemma KeysOfEdges(gray: set<Ptr>)
      requires Good(gray)
      ensures E.Keys == g.Keys && record.Keys == mark && mark <= g.Keys && gray <= mark
    {
      hide ObjectEdges;
    }

    /** What is about to be met. */
    lemma ReadyFacts(trail: seq<Link>, p: Ptr, parent: Option<Ptr>, desc: string)
      requires Good(Heads(trail)) && Ready(trail, Ref(p), parent, desc)
      ensures p in g && p in E && Reachable(E, root, p) && ParentOk(E, root, mark, p, parent, desc)
      ensures p !in mark ==> Greedy(E, root, trail, p)
    {
      hide Reachable, Consistent, Met, Open, Trail, HasEdge, Heads, TrueEdges, WellFormed;
      KeysOfEdges(Heads(trail));
      if trail == [] {
        ReachableRoot(E, root);
        TrailNone(E, root);
      } else {
        var k := |trail| - 1;
        var l := trail[k];
        assert HasEdge(E, l.p, p, desc) by { EdgeThere(E, l, p); }
        HeadsSnoc(trail, k);
        assert trail[..k + 1] == trail && trail == trail[..k] + [l];
        MarkedReachable(Heads(trail), l.p);
        LeadsIsStep(E, l, p);
        ReachableStep(E, root, l.p, p);
        EdgeInGraph(g, root, caller, l.p, l.edge);
        if p !in mark { TrailGrows(E, root, trail[..k], l, p); }
      }
      if p !in mark { OpenIsGreedy(E, root, mark, trail, p); }
    }

    lemma MarkedReachable(gray: set<Ptr>, p: Ptr)
      requires Good(gray) && p in gray
      ensures p in mark && Reachable(E, root, p)
    {
      hide Reachable;
    }

    /** ismarked and readobject: a plain value or a marked object is popped, the latter with its new
        parent recorded; an unmarked object is marked and stays on the stack. */
    method ReadObject(stack: seq<Value>, parent: Option<Ptr>, desc: string, ghost trail: seq<Link>)
      returns (rest: seq<Value>, t: Option<Ptr>)
      requires stack != [] && Good(Heads(trail)) && Ready(trail, Top(stack), parent, desc)
      modifies this
      ensures t.None? ==> rest == Under(stack) && Good(Heads(trail)) && Grown(old(record), record) && old(mark) <= mark
      ensures t.None? && Top(stack).Ref? ==> Top(stack).p in record && parent in record[Top(stack).p]
      ensures t.Some? ==> rest == stack && Top(stack) == Ref(t.value) && t.value in g && t.value !in old(mark)
      ensures t.Some? && ThroughUserValue(g, trail) && !IsTable(g, t.value) ==> Undefined()
      ensures t.Some? && (ThroughUserValue(g, trail) ==> IsTable(g, t.value)) ==>
                && Expanding(t.value, trail) && Grown(old(record), record)
                && mark == old(mark) + {t.value} && parent in record[t.value]
    {
      hide WellFormed, Reachable, Consistent, TrueEdges, Greedy, Heads, Open, Trail, ParentOk;
      var v := Top(stack);
      if v.Plain? {
        return Under(stack), None;
      }
      ReadyFacts(trail, v.p, parent, desc);
      KeysOfEdges(Heads(trail));
      if v.p in mark {
        AddParent(g, E, root, State(), Heads(trail), v.p, parent, desc);
        record := record[v.p := record[v.p][parent := desc]];
        return Under(stack), None;
      }
      if ThroughUserValue(g, trail) && !IsTable(g, v.p) {
        assert Misused(g, E, root, v.p);
      } else {
        AddMark(g, E, root, State(), Heads(trail), v.p, parent, desc, trail);
        OpenGrows(E, mark, mark + {v.p}, trail);
        assert Trail(E, root, trail, v.p) by { GreedyIsTrail(E, root, trail, v.p); }
      }
      mark := mark + {v.p};
      record := record[v.p := map[parent := desc]];
      expanded := expanded + [v.p];
      first := first[v.p := trail];
      return stack, Some(v.p);
    }

    /** Marks what is on top of the stack, with its new parent, and pops it; false when the walk is
        not defined. */
    method MarkObject(cur: Ptr, stack: seq<Value>, below: seq<Value>, parent: Option<Ptr>, desc: string,
                      ghost trail: seq<Link>)
      returns (ok: bool, rest: seq<Value>)
      requires stack != [] && Good(Heads(trail)) && Ready(trail, Top(stack), parent, desc)
      requires StackOk(cur, Under(stack), below, trail) && !ThroughUserValue(g, trail)
      modifies this
      ensures !ok ==> Undefined()
      ensures ok ==> rest == Under(stack) && Good(Heads(trail)) && Grown(old(record), record) && old(mark) <= mark
      ensures ok && Top(stack).Ref? ==> Top(stack).p in record && parent in record[Top(stack).p]
      decreases g.Keys - mark, 2
    {
      hide Good, Grown, Ready, StackOk, Undefined;
      var v := Top(stack);
      if v.Plain? {
        SameRecord();
        return true, Under(stack);
      }
      ReadyFacts(trail, v.p, parent, desc);
      match g[v.p] {
        case TableObject(_, _, _) => ok, rest := MarkTable(cur, stack, below, parent, desc, trail);
        case UserdataObject(_, _) => ok, rest := MarkUserdata(cur, stack, below, parent, desc, trail);
        case FunctionObject(_) => ok, rest := MarkFunction(cur, stack, below, parent, desc, trail);
        case ThreadObject(_, _) => ok, rest := MarkThread(cur, stack, below, parent, desc, trail);
      }
    }

    lemma SameRecord()
      ensures Grown(record, record)
    {
    }

    /** What holds when an object is expanded: everything it leads to is marked. */
    lemma FinishObject(t: Ptr, trail: seq<Link>)
      requires Expanding(t, trail) && Covered(record, t, E[t])
      ensures Good(Heads(trail))
    {
      hide Consistent, TrueEdges, WellFormed, Open, Trail, Heads;
      Blacken(g, E, root, State(), Heads(trail), t);
    }

    lemma StillParent(was: Records, t: Ptr, parent: Option<Ptr>)
      requires Grown(was, record) && t in was && parent in was[t]
      ensures t in record && parent in record[t]
    {
    }

    lemma Marked(t: Ptr, trail: seq<Link>)
      requires Expanding(t, trail)
      ensures record.Keys == mark && t in record && E.Keys == g.Keys && E[t] == TrueEdges(g, root, caller)[t]
    {
      hide Consistent, TrueEdges, WellFormed, Open, Trail, Heads;
      KeysOfEdges(Heads(trail) + {t});
    }

    /** mark_table; it is also given whatever a userdata has as its user value. */
    method MarkTable(cur: Ptr, stack: seq<Value>, below: seq<Value>, parent: Option<Ptr>, desc: string,
                     ghost trail: seq<Link>)
      returns (ok: bool, rest: seq<Value>)
      requires stack != [] && Good(Heads(trail)) && Ready(trail, Top(stack), parent, desc)
      requires StackOk(cur, Under(stack), below, trail)
      requires ThroughUserValue(g, trail) || (Top(stack).Ref? ==> IsTable(g, Top(stack).p))
      modifies this
      ensures !ok ==> Undefined()
      ensures ok ==> rest == Under(stack) && Good(Heads(trail)) && Grown(old(record), record) && old(mark) <= mark
      ensures ok && Top(stack).Ref? ==> Top(stack).p in record && parent in record[Top(stack).p]
      decreases g.Keys - mark, 1
    {
      hide Good, Covered, Grown, Ready, Undefined, ThroughUserValue, Expanding, HeldOf, Current;
      var t;
      rest, t := ReadObject(stack, parent, desc, trail);
      if t.None? { return true, rest; }
      if !IsTable(g, t.value) { return false, rest; }
      ghost var was := record;
      Marked(t.value, trail);
      ok, rest := ExpandTable(cur, rest, below, t.value, trail);
      if !ok { return; }
      FinishObject(t.value, trail);
      StillParent(was, t.value, parent);
      GrownTransitive(old(record), was, record);
      rest := Under(rest);
    }

    /** One edge of the object t: its target is pushed and marked. */
    method Follow(cur: Ptr, stack: seq<Value>, below: seq<Value>, e: Edge, t: Ptr, ghost trail: seq<Link>,
                  ghost done: seq<Edge>)
      returns (ok: bool, rest: seq<Value>)
      requires Expanding(t, trail) && Covered(record, t, done) && done + [e] <= E[t] && !g[t].UserdataObject?
      requires StackOk(cur, stack, below, trail + [Link(t, |done|)])
      modifies this
      ensures !ok ==> Undefined()
      ensures ok ==> rest == stack && Expanding(t, trail) && Covered(record, t, done + [e])
      ensures ok ==> Grown(old(record), record) && old(mark) <= mark
      decreases g.Keys - mark, 3
    {
      hide Good, Covered, Grown, Ready, Undefined, StackOk, Expanding;
      ghost var was, l := record, Link(t, |done|);
      ExpandingFacts(t, trail);
      BeforeEdge(e, t, trail, done);
      assert Under(stack + [e.value]) == stack;
      ok, rest := MarkObject(cur, stack + [e.value], below, Some(t), e.name, trail + [l]);
      if !ok { return; }
      AfterEdge(old(mark), was, e, t, trail, done);
    }

    /** The same for an edge that is known to lead to a table, or is a user value. */
    method FollowTable(cur: Ptr, stack: seq<Value>, below: seq<Value>, e: Edge, t: Ptr, ghost trail: seq<Link>,
                       ghost done: seq<Edge>)
      returns (ok: bool, rest: seq<Value>)
      requires Expanding(t, trail) && Covered(record, t, done) && done + [e] <= E[t]
      requires StackOk(cur, stack, below, trail + [Link(t, |done|)])
      requires (e.value.Ref? ==> IsTable(g, e.value.p)) || ThroughUserValue(g, trail + [Link(t, |done|)])
      modifies this
      ensures !ok ==> Undefined()
      ensures ok ==> rest == stack && Expanding(t, trail) && Covered(record, t, done + [e])
      ensures ok ==> Grown(old(record), record) && old(mark) <= mark
      decreases g.Keys - mark, 3
    {
      hide Good, Covered, Grown, Ready, Undefined, StackOk, Expanding, ThroughUserValue;
      ghost var was, l := record, Link(t, |done|);
      ExpandingFacts(t, trail);
      BeforeEdge(e, t, trail, done);
      assert Under(stack + [e.value]) == stack;
      ok, rest := MarkTable(cur, stack + [e.value], below, Some(t), e.name, trail + [l]);
      if !ok { return; }
      AfterEdge(old(mark), was, e, t, trail, done);
    }

    lemma BeforeEdge(e: Edge, t: Ptr, trail: seq<Link>, done: seq<Edge>)
      requires Expanding(t, trail) && Covered(record, t, done) && done + [e] <= E[t]
      ensures var longer := trail + [Link(t, |done|)];
              Good(Heads(longer)) && Ready(longer, e.value, Some(t), e.name)
      ensures t in g && !g[t].UserdataObject? ==> !ThroughUserValue(g, trail + [Link(t, |done|)])
    {
      hide Consistent, TrueEdges, WellFormed, Open, Trail, Heads, Covered;
      var l := Link(t, |done|);
      assert (trail + [l])[..|trail|] == trail;
      assert E[t][|done|] == e && done <= E[t];
      NewLinkOpen(g, E, root, State(), trail, t, done);
    }

    lemma AfterEdge(was: set<Ptr>, before: Records, e: Edge, t: Ptr, trail: seq<Link>, done: seq<Edge>)
      requires Good(Heads(trail + [Link(t, |done|)])) && was <= mark && t in was && t in g && t in E
      requires Trail(E, root, trail, t) && Open(E, was, trail)
      requires Covered(before, t, done) && Grown(before, record)
      requires e.value.Ref? ==> e.value.p in record && Some(t) in record[e.value.p]
      ensures Expanding(t, trail) && Covered(record, t, done + [e])
    {
      hide Consistent, TrueEdges, WellFormed, Open, Trail, Heads, Covered, Grown;
      var l := Link(t, |done|);
      HeadsSnoc(trail + [l], |trail|);
      assert (trail + [l])[..|trail|] == trail && (trail + [l])[..|trail| + 1] == trail + [l];
      OpenGrows(E, was, mark, trail);
      CoveredGrows(before, record, t, done);
      CoveredOne(record, t, e);
      CoveredMore(record, t, done, [e]);
    }

    /** What an object being expanded is known by. */
    lemma ExpandingFacts(t: Ptr, trail: seq<Link>)
      requires Expanding(t, trail)
      ensures t in mark && t in g && t in E && Trail(E, root, trail, t) && Open(E, mark, trail)
    {
      hide Good, Trail, Open;
    }

    /** What lies on the stacks while an edge of t is followed on the same thread. */
    lemma Push(cur: Ptr, stack: seq<Value>, below: seq<Value>, t: Ptr, trail: seq<Link>, k: nat)
      requires Expanding(t, trail) && stack != [] && Top(stack) == Ref(t) && StackOk(cur, Under(stack), below, trail)
      requires !IsThread(g, t) && k < |E[t]|
      ensures StackOk(cur, stack + E[t][k].held, below, trail + [Link(t, k)])
    {
      hide Consistent, TrueEdges, WellFormed, Open, Trail, Heads, Passes;
      KeysOfEdges(Heads(trail) + {t});
      CurrentIsOn(g, caller, trail);
      var longer := trail + [Link(t, k)];
      assert longer[..|longer| - 1] == trail;
      assert stack == Under(stack) + [Ref(t)];
    }

    /** mark_table, the metatable and the pairs. */
    method ExpandTable(cur: Ptr, stack: seq<Value>, below: seq<Value>, t: Ptr, ghost trail: seq<Link>)
      returns (ok: bool, rest: seq<Value>)
      requires Expanding(t, trail) && IsTable(g, t)
      requires stack != [] && Top(stack) == Ref(t) && StackOk(cur, Under(stack), below, trail)
      modifies this
      ensures !ok ==> Undefined()
      ensures ok ==> rest == stack && Expanding(t, trail) && Covered(record, t, E[t])
      ensures ok ==> Grown(old(record), record) && old(mark) <= mark
      decreases g.Keys - mark, 6
    {
      hide Expanding, Covered, Grown, WeakKeys, WeakValues, PairsEdges, PairEdges, HeldOf, Current, Undefined,
           MetaEdges, ThroughUserValue;
      var TableObject(meta, _, pairs) := g[t];
      var weakKeys, weakValues := WeakKeys(g, meta), WeakValues(g, meta);
      ghost var done := MetaEdges(meta);
      EdgesOfTable(t, trail);
      ok, rest := FollowMeta(cur, stack, below, meta, t, trail, PairsEdges(weakKeys, weakValues, pairs));
      if !ok { return; }
      var i: nat := 0;
      NoPairs(weakKeys, weakValues, pairs, done);
      while i < |pairs|
        invariant i <= |pairs| && rest == stack && Expanding(t, trail) && old(mark) <= mark
        invariant Covered(record, t, done + PairsEdges(weakKeys, weakValues, pairs[..i]))
        invariant Grown(old(record), record)
      {
        ghost var mid := record;
        MorePairs(weakKeys, weakValues, pairs, i, done);
        ghost var sofar := done + PairsEdges(weakKeys, weakValues, pairs[..i]);
        ok, rest := FollowPair(cur, rest, below, pairs[i], t, weakKeys, weakValues, trail, sofar);
        if !ok { return; }
        GrownTransitive(old(record), mid, record);
        i := i + 1;
      }
      assert pairs[..|pairs|] == pairs;
    }

    lemma EdgesOfTable(t: Ptr, trail: seq<Link>)
      requires Expanding(t, trail) && IsTable(g, t)
      ensures var TableObject(meta, _, pairs) := g[t];
              && E[t] == MetaEdges(meta) + PairsEdges(WeakKeys(g, meta), WeakValues(g, meta), pairs)
              && (meta.Some? ==> IsTable(g, meta.value))
    {
      hide Consistent, Open, Trail, Heads, WalkedOf, PairsEdges, WeakKeys, WeakValues, MetaEdges;
      assert Closed(g, g[t]);
    }

    /** The metatable, if there is one. */
    method FollowMeta(cur: Ptr, stack: seq<Value>, below: seq<Value>, meta: Option<Ptr>, t: Ptr,
                      ghost trail: seq<Link>, ghost others: seq<Edge>)
      returns (ok: bool, rest: seq<Value>)
      requires Expanding(t, trail) && !IsThread(g, t) && E[t] == MetaEdges(meta) + others
      requires meta.Some? ==> IsTable(g, meta.value)
      requires stack != [] && Top(stack) == Ref(t) && StackOk(cur, Under(stack), below, trail)
      modifies this
      ensures !ok ==> Undefined()
      ensures ok ==> rest == stack && Expanding(t, trail) && Covered(record, t, MetaEdges(meta))
      ensures ok ==> Grown(old(record), record) && old(mark) <= mark
      decreases g.Keys - mark, 5
    {
      hide Expanding, Covered, Grown, StackOk, Undefined, ThroughUserValue;
      CoveredNone(record, t);
      SameRecord();
      ExpandingFacts(t, trail);
      if meta.None? { return true, stack; }
      var e := Edge(Ref(meta.value), "[metatable]", []);
      Push(cur, stack, below, t, trail, 0);
      assert E[t][0] == e && stack + [] == stack && [] + [e] == MetaEdges(meta);
      ok, rest := FollowTable(cur, stack, below, e, t, trail, []);
    }

    /** One pair: the value unless values are weak, then the key unless keys are weak. */
    method FollowPair(cur: Ptr, stack: seq<Value>, below: seq<Value>, e: Pair, t: Ptr, weakKeys: bool,
                      weakValues: bool, ghost trail: seq<Link>, ghost done: seq<Edge>)
      returns (ok: bool, rest: seq<Value>)
      requires Expanding(t, trail) && IsTable(g, t) && Covered(record, t, done)
      requires done + PairEdges(weakKeys, weakValues, e) <= E[t]
      requires stack != [] && Top(stack) == Ref(t) && StackOk(cur, Under(stack), below, trail)
      modifies this
      ensures !ok ==> Undefined()
      ensures ok ==>
                rest == stack && Expanding(t, trail)
                && Covered(record, t, done + PairEdges(weakKeys, weakValues, e))
      ensures ok ==> Grown(old(record), record) && old(mark) <= mark
      decreases g.Keys - mark, 5
    {
      hide Expanding, Covered, Grown, Undefined, HeldOf, Current;
      ok, rest := true, stack + [e.key];
      SameRecord();
      ExpandingFacts(t, trail);
      ghost var all := done;
      if !weakValues {
        var value := Edge(e.value, e.desc, [e.key]);
        NextEdge(E[t], done, value, PairEdges(weakKeys, weakValues, e));
        Push(cur, stack, below, t, trail, |done|);
        ok, rest := Follow(cur, rest, below, value, t, trail, done);
        if !ok { return; }
        all := all + [value];
      }
      ghost var mid := record;
      if !weakKeys {
        var key := Edge(e.key, "[key]", [e.key]);
        assert done + PairEdges(weakKeys, weakValues, e) == all + [key];
        NextEdge(E[t], all, key, [key]);
        Push(cur, stack, below, t, trail, |all|);
        ok, rest := Follow(cur, rest, below, key, t, trail, all);
        if !ok { return; }
        all := all + [key];
        GrownTransitive(old(record), mid, record);
      }
      assert all == done + PairEdges(weakKeys, weakValues, e);
      rest := Under(rest);
    }

    /** mark_userdata */
    method MarkUserdata(cur: Ptr, stack: seq<Value>, below: seq<Value>, parent: Option<Ptr>, desc: string,
                        ghost trail: seq<Link>)
      returns (ok: bool, rest: seq<Value>)
      requires stack != [] && Good(Heads(trail)) && Ready(trail, Top(stack), parent, desc)
      requires StackOk(cur, Under(stack), below, trail) && !ThroughUserValue(g, trail)
      requires Top(stack).Ref? && Top(stack).p in g && g[Top(stack).p].UserdataObject?
      modifies this
      ensures !ok ==> Undefined()
      ensures ok ==> rest == Under(stack) && Good(Heads(trail)) && Grown(old(record), record) && old(mark) <= mark
      ensures ok ==> Top(stack).p in record && parent in record[Top(stack).p]
      decreases g.Keys - mark, 1
    {
      hide Good, Covered, Grown, Ready, Undefined, ThroughUserValue, Expanding, HeldOf, Current;
      var t;
      rest, t := ReadObject(stack, parent, desc, trail);
      if t.None? { return true, rest; }
      ghost var was := record;
      Marked(t.value, trail);
      ok, rest := ExpandUserdata(cur, rest, below, t.value, trail);
      if !ok { return; }
      FinishObject(t.value, trail);
      StillParent(was, t.value, parent);
      GrownTransitive(old(record), was, record);
      rest := Under(rest);
    }

    /** mark_userdata, the metatable and the user value. */
    method ExpandUserdata(cur: Ptr, stack: seq<Value>, below: seq<Value>, t: Ptr, ghost trail: seq<Link>)
      returns (ok: bool, rest: seq<Value>)
      requires Expanding(t, trail) && g[t].UserdataObject?
      requires stack != [] && Top(stack) == Ref(t) && StackOk(cur, Under(stack), below, trail)
      modifies this
      ensures !ok ==> Undefined()
      ensures ok ==> rest == stack && Expanding(t, trail) && Covered(record, t, E[t])
      ensures ok ==> Grown(old(record), record) && old(mark) <= mark
      decreases g.Keys - mark, 6
    {
      hide Expanding, Covered, Grown, HeldOf, Current, Undefined, MetaEdges;
      ExpandingFacts(t, trail);
      var UserdataObject(meta, uservalue) := g[t];
      EdgesOfUserdata(t, trail);
      ok, rest := FollowMeta(cur, stack, below, meta, t, trail, UserEdges(uservalue));
      if !ok { return; }
      ghost var mid := record;
      var e := Edge(uservalue, "[uservalue]", []);
      assert MetaEdges(meta) + [e] == E[t] && E[t][|MetaEdges(meta)|] == e && stack + [] == stack;
      Push(cur, stack, below, t, trail, |MetaEdges(meta)|);
      assert (trail + [Link(t, |MetaEdges(meta)|)])[|trail|] == Link(t, |MetaEdges(meta)|);
      ok, rest := FollowTable(cur, rest, below, e, t, trail, MetaEdges(meta));
      if !ok { return; }
      GrownTransitive(old(record), mid, record);
    }

    lemma EdgesOfUserdata(t: Ptr, trail: seq<Link>)
      requires Expanding(t, trail) && g[t].UserdataObject?
      ensures E[t] == MetaEdges(g[t].meta) + UserEdges(g[t].uservalue)
      ensures g[t].meta.Some? ==> IsTable(g, g[t].meta.value)
    {
      hide Consistent, Open, Trail, Heads, WalkedOf, MetaEdges;
      assert Closed(g, g[t]);
    }

    /** mark_function */
    method MarkFunction(cur: Ptr, stack: seq<Value>, below: seq<Value>, parent: Option<Ptr>, desc: string,
                        ghost trail: seq<Link>)
      returns (ok: bool, rest: seq<Value>)
      requires stack != [] && Good(Heads(trail)) && Ready(trail, Top(stack), parent, desc)
      requires StackOk(cur, Under(stack), below, trail) && !ThroughUserValue(g, trail)
      requires Top(stack).Ref? && Top(stack).p in g && g[Top(stack).p].FunctionObject?
      modifies this
      ensures !ok ==> Undefined()
      ensures ok ==> rest == Under(stack) && Good(Heads(trail)) && Grown(old(record), record) && old(mark) <= mark
      ensures ok ==> Top(stack).p in record && parent in record[Top(stack).p]
      decreases g.Keys - mark, 1
    {
      hide Good, Covered, Grown, Ready, Undefined, ThroughUserValue, Expanding, HeldOf, Current;
      var t;
      rest, t := ReadObject(stack, parent, desc, trail);
      if t.None? { return true, rest; }
      ghost var was := record;
      Marked(t.value, trail);
      ok, rest := ExpandFunction(cur, rest, below, t.value, trail);
      if !ok { return; }
      FinishObject(t.value, trail);
      StillParent(was, t.value, parent);
      GrownTransitive(old(record), was, record);
      rest := Under(rest);
    }

    /** mark_function, the upvalues. */
    method ExpandFunction(cur: Ptr, stack: seq<Value>, below: seq<Value>, t: Ptr, ghost trail: seq<Link>)
      returns (ok: bool, rest: seq<Value>)
      requires Expanding(t, trail) && g[t].FunctionObject?
      requires stack != [] && Top(stack) == Ref(t) && StackOk(cur, Under(stack), below, trail)
      modifies this
      ensures !ok ==> Undefined()
      ensures ok ==> rest == stack && Expanding(t, trail) && Covered(record, t, E[t])
      ensures ok ==> Grown(old(record), record) && old(mark) <= mark
      decreases g.Keys - mark, 6
    {
      hide Expanding, Covered, Grown, HeldOf, Current, Undefined;
      ExpandingFacts(t, trail);
      var edges := UpvalueEdges(g[t].upvalues);
      EdgesOfFunction(t, trail);
      ok, rest := true, stack;
      SameRecord();
      CoveredNone(record, t);
      var i: nat := 0;
      while i < |edges|
        invariant i <= |edges| && rest == stack && Expanding(t, trail) && old(mark) <= mark && ok
        invariant Covered(record, t, edges[..i]) && Grown(old(record), record)
      {
        ghost var mid := record;
        Push(cur, stack, below, t, trail, i);
        assert edges[..i] + [edges[i]] == edges[..i + 1] && stack + [] == stack;
        ok, rest := Follow(cur, rest, below, edges[i], t, trail, edges[..i]);
        if !ok { return; }
        GrownTransitive(old(record), mid, record);
        i := i + 1;
      }
      assert edges[..i] == edges;
    }

    lemma EdgesOfFunction(t: Ptr, trail: seq<Link>)
      requires Expanding(t, trail) && g[t].FunctionObject?
      ensures E[t] == UpvalueEdges(g[t].upvalues) && forall e <- E[t] :: e.held == []
    {
      hide Consistent, Open, Trail, Heads, WalkedOf;
    }

    /** mark_thread */
    method MarkThread(cur: Ptr, stack: seq<Value>, below: seq<Value>, parent: Option<Ptr>, desc: string,
                      ghost trail: seq<Link>)
      returns (ok: bool, rest: seq<Value>)
      requires stack != [] && Good(Heads(trail)) && Ready(trail, Top(stack), parent, desc)
      requires StackOk(cur, Under(stack), below, trail) && !ThroughUserValue(g, trail)
      requires Top(stack).Ref? && IsThread(g, Top(stack).p)
      modifies this
      ensures !ok ==> Undefined()
      ensures ok ==> rest == Under(stack) && Good(Heads(trail)) && Grown(old(record), record) && old(mark) <= mark
      ensures ok ==> Top(stack).p in record && parent in record[Top(stack).p]
      decreases g.Keys - mark, 1
    {
      hide Good, Covered, Grown, Ready, Undefined, ThroughUserValue, Expanding, HeldOf, Current, ThreadEdges;
      var t;
      ThreadEdgesAre(cur, stack, below, parent, desc, trail);
      rest, t := ReadObject(stack, parent, desc, trail);
      if t.None? { return true, rest; }
      ghost var was := record;
      Marked(t.value, trail);
      ok := ExpandThread(cur, rest, below, t.value, trail);
      if !ok { return; }
      FinishObject(t.value, trail);
      StillParent(was, t.value, parent);
      GrownTransitive(old(record), was, record);
      rest := Under(rest);
    }

    /** When a thread is first met, its edges are those the walk is about to follow: its stack is left
        out if and only if the walk is on that thread, which only the calling thread can be. */
    lemma ThreadEdgesAre(cur: Ptr, stack: seq<Value>, below: seq<Value>, parent: Option<Ptr>, desc: string,
                         trail: seq<Link>)
      requires stack != [] && Good(Heads(trail)) && Ready(trail, Top(stack), parent, desc)
      requires StackOk(cur, Under(stack), below, trail) && Top(stack).Ref? && IsThread(g, Top(stack).p)
      ensures var t := Top(stack).p;
              t in E && (t !in mark ==>
                    (t == cur ==> t == caller)
                    && E[t] == ThreadEdges(g, caller, below, t, t == cur))
    {
      hide Consistent, Open, Greedy, Heads, WalkedOf, HeldOf, Current, Ready, WellFormed, Reachable, Passes,
           ParentOk, SlotEdges, FrameEdges, Temporaries;
      var t := Top(stack).p;
      KeysOfEdges(Heads(trail));
      ReadyFacts(trail, t, parent, desc);
      CurrentIsOn(g, caller, trail);
      if t !in mark && t == caller {
        WalkedDecided(g, root, caller, trail);
      }
    }

    /** mark_thread: the stack unless the walk is on this very thread, then the locals of its frames.
        The walk goes on on the stack of this thread. */
    method ExpandThread(cur: Ptr, stack: seq<Value>, below: seq<Value>, t: Ptr, ghost trail: seq<Link>)
      returns (ok: bool)
      requires Expanding(t, trail) && IsThread(g, t) && (t == cur ==> t == caller)
      requires E[t] == ThreadEdges(g, caller, below, t, t == cur)
      requires stack != [] && Top(stack) == Ref(t) && StackOk(cur, Under(stack), below, trail)
      modifies this
      ensures !ok ==> Undefined()
      ensures ok ==> Expanding(t, trail) && Covered(record, t, E[t])
      ensures ok ==> Grown(old(record), record) && old(mark) <= mark
      decreases g.Keys - mark, 6
    {
      hide Expanding, Covered, Grown, StackOk, Undefined, SlotEdges, LocalEdges, FrameEdges, StackOf, FramesOf,
           HeldOf, Passes;
      var own, under := stack, below;
      if t != cur {
        own := if t == caller then below else [];
        if cur == caller { under := stack; }
      }
      ExpandingFacts(t, trail);
      Switch(cur, stack, below, t, trail);
      SameRecord();
      CoveredNone(record, t);
      ghost var done: seq<Edge> := [];
      var level := 1;
      var frames := FramesOf(g, caller, below, t);
      ok := true;
      if t != cur {
        var slots := SlotEdges(StackOf(g, caller, below, t));
        assert [] + slots <= E[t] && [] + slots == slots;
        SlotsHoldNothing(StackOf(g, caller, below, t));
        ok := FollowAll(t, own, under, slots, trail, []);
        if !ok { return; }
        done := slots;
        level := 0;
      }
      ghost var start := level;
      NoFrames(frames, start);
      assert done + FrameEdges(frames[start..]) == E[t] && done + [] == done;
      while level < |frames|
        invariant start <= level <= |frames| && Expanding(t, trail) && old(mark) <= mark && ok
        invariant Covered(record, t, done + FrameEdges(frames[start..level]))
        invariant Grown(old(record), record) && Moved(t, under, trail)
      {
        ghost var mid := record;
        MoreFrames(frames, start, level, done);
        ghost var sofar := done + FrameEdges(frames[start..level]);
        LocalsHoldNothing(frames[level]);
        ok := FollowAll(t, own, under, LocalEdges(frames[level]), trail, sofar);
        if !ok { return; }
        GrownTransitive(old(record), mid, record);
        level := level + 1;
      }
      assert frames[start..|frames|] == frames[start..];
    }

    /** While the walk is on thread t, `below` is what it left on the stack of the calling thread. */
    ghost predicate Moved(t: Ptr, below: seq<Value>, trail: seq<Link>)
      reads this
    {
      caller !in mark ==>
        below == HeldOf(g, E, trail) + (if Passes(g, trail) then [] else [Ref(t)])
    }

    /** The stacks after the walk has moved to thread t. */
    lemma Switch(cur: Ptr, stack: seq<Value>, below: seq<Value>, t: Ptr, trail: seq<Link>)
      requires Expanding(t, trail) && stack != [] && Top(stack) == Ref(t) && StackOk(cur, Under(stack), below, trail)
      ensures Moved(t, if t != cur && cur == caller then stack else below, trail)
    {
      hide Consistent, TrueEdges, WellFormed, Open, Trail, Heads, Passes, HeldOf;
      KeysOfEdges(Heads(trail) + {t});
      CurrentIsOn(g, caller, trail);
      assert stack == Under(stack) + [Ref(t)];
      assert HeldOf(g, E, trail) + [] == HeldOf(g, E, trail);
    }

    lemma MovedStack(t: Ptr, own: seq<Value>, below: seq<Value>, trail: seq<Link>, k: nat)
      requires Expanding(t, trail) && IsThread(g, t) && Moved(t, below, trail) && k < |E[t]| && E[t][k].held == []
      ensures StackOk(t, own, below, trail + [Link(t, k)])
    {
      hide Consistent, TrueEdges, WellFormed, Open, Trail, Heads, Passes;
      var longer := trail + [Link(t, k)];
      assert longer[..|longer| - 1] == trail;
    }

    /** All edges of a part of thread t. */
    method FollowAll(t: Ptr, own: seq<Value>, below: seq<Value>, items: seq<Edge>, ghost trail: seq<Link>,
                     ghost done: seq<Edge>)
      returns (ok: bool)
      requires Expanding(t, trail) && IsThread(g, t) && Covered(record, t, done) && done + items <= E[t]
      requires Moved(t, below, trail) && forall i | 0 <= i < |items| :: items[i].held == []
      modifies this
      ensures !ok ==> Undefined()
      ensures ok ==> Expanding(t, trail) && Covered(record, t, done + items)
      ensures ok ==> Grown(old(record), record) && old(mark) <= mark
      decreases g.Keys - mark, 5
    {
      hide Expanding, Covered, Grown, HeldOf, StackOk, Undefined, Passes;
      ok := true;
      var rest := own;
      ExpandingFacts(t, trail);
      SameRecord();
      var i: nat := 0;
      assert done + items[..0] == done;
      while i < |items|
        invariant i <= |items| && rest == own && Expanding(t, trail) && old(mark) <= mark && ok
        invariant Covered(record, t, done + items[..i]) && Grown(old(record), record)
      {
        ghost var mid := record;
        assert done + items[..i] + items[i..] == done + items;
        NextEdge(E[t], done + items[..i], items[i], items[i..]);
        MovedStack(t, own, below, trail, |done| + i);
        ok, rest := Follow(t, rest, below, items[i], t, trail, done + items[..i]);
        if !ok { return; }
        assert done + items[..i] + [items[i]] == done + items[..i + 1];
        GrownTransitive(old(record), mid, record);
        i := i + 1;
      }
      assert items[..i] == items;
    }
  }

  lemma NextEdge(edges: seq<Edge>, done: seq<Edge>, e: Edge, more: seq<Edge>)
    requires more != [] && more[0] == e && done + more <= edges
    ensures done + [e] <= edges && edges[|done|] == e
  {
    assert (done + more)[|done|] == e;
    assert edges[..|done + more|] == done + more;
    assert edges[..|done| + 1] == done + [e];
  }

  lemma NoPairs(weakKeys: bool, weakValues: bool, pairs: seq<Pair>, done: seq<Edge>)
    ensures done + PairsEdges(weakKeys, weakValues, pairs[..0]) == done
  {
  }

  lemma {:induction false} PairsPrefix(weakKeys: bool, weakValues: bool, pairs: seq<Pair>, i: nat)
    requires i <= |pairs|
    ensures PairsEdges(weakKeys, weakValues, pairs[..i]) <= PairsEdges(weakKeys, weakValues, pairs)
    decreases |pairs|
  {
    hide PairEdges;
    if i < |pairs| {
      var front := pairs[..|pairs| - 1];
      PairsPrefix(weakKeys, weakValues, front, i);
      assert front[..i] == pairs[..i];
    } else {
      assert pairs[..i] == pairs;
    }
  }

  lemma MorePairs(weakKeys: bool, weakValues: bool, pairs: seq<Pair>, i: nat, done: seq<Edge>)
    requires i < |pairs|
    ensures done + PairsEdges(weakKeys, weakValues, pairs[..i]) + PairEdges(weakKeys, weakValues, pairs[i])
         == done + PairsEdges(weakKeys, weakValues, pairs[..i + 1])
    ensures done + PairsEdges(weakKeys, weakValues, pairs[..i + 1]) <= done + PairsEdges(weakKeys, weakValues, pairs)
  {
    hide PairEdges;
    assert pairs[..i + 1][..i] == pairs[..i];
    PairsPrefix(weakKeys, weakValues, pairs, i + 1);
  }

  lemma SlotsHoldNothing(values: seq<Value>)
    ensures forall i | 0 <= i < |SlotEdges(values)| :: SlotEdges(values)[i].held == []
  {
  }

  lemma LocalsHoldNothing(locals: seq<Named>)
    ensures forall i | 0 <= i < |LocalEdges(locals)| :: LocalEdges(locals)[i].held == []
  {
  }

  lemma NoFrames(frames: seq<seq<Named>>, start: nat)
    requires start <= |frames|
    ensures FrameEdges(frames[start..start]) == []
  {
  }

  lemma {:induction false} FramesPrefix(frames: seq<seq<Named>>, i: nat)
    requires i <= |frames|
    ensures FrameEdges(frames[..i]) <= FrameEdges(frames)
    decreases |frames|
  {
    hide LocalEdges;
    if i < |frames| {
      var front := frames[..|frames| - 1];
      FramesPrefix(front, i);
      assert front[..i] == frames[..i];
    } else {
      assert frames[..i] == frames;
    }
  }

  lemma MoreFrames(frames: seq<seq<Named>>, start: nat, i: nat, done: seq<Edge>)
    requires start <= i < |frames|
    ensures done + FrameEdges(frames[start..i]) + LocalEdges(frames[i]) == done + FrameEdges(frames[start..i + 1])
    ensures done + FrameEdges(frames[start..i + 1]) <= done + FrameEdges(frames[start..])
  {
    hide LocalEdges;
    assert frames[start..i + 1][..i - start] == frames[start..i];
    assert frames[start..][..i + 1 - start] == frames[start..i + 1];
    FramesPrefix(frames[start..], i + 1 - start);
  }

  lemma GreedyIsTrail(E: Edges, root: Ptr, trail: seq<Link>, o: Ptr)
    requires Greedy(E, root, trail, o)
    ensures Trail(E, root, trail, o)
  {
  }

  lemma TrailNone(E: Edges, root: Ptr)
    ensures Trail(E, root, [], root)
  {
  }

  lemma EdgeThere(E: Edges, l: Link, p: Ptr)
    requires Leads(E, l, p)
    ensures HasEdge(E, l.p, p, E[l.p][l.edge].name)
  {
  }

  lemma OpenIsGreedy(E: Edges, root: Ptr, mark: set<Ptr>, trail: seq<Link>, p: Ptr)
    requires Open(E, mark, trail) && Trail(E, root, trail, p) && p !in mark
    ensures Greedy(E, root, trail, p)
  {
    hide Greedy1, Trail, Heads;
  }

  // ---- the finished snapshot -----------------------------------------------------------------------

  /** What a finished snapshot says: the marked objects are exactly the reachable ones, each was
      expanded once and first met along its greedy trail, and its record lists exactly its marked
      parents, each under the name of one of its edges, and the start for the registry. */
  ghost predicate Exact(E: Edges, root: Ptr, m: Marks) {
    && (forall p :: p in m.mark <==> Reachable(E, root, p))
    && m.record.Keys == m.mark && m.first.Keys == m.mark && |m.expanded| == |m.mark|
    && (forall p, q | p in m.mark :: Some(q) in m.record[p] <==> q in m.mark && Step(E, q, p))
    && (forall p, q | p in m.mark && Some(q) in m.record[p] :: HasEdge(E, q, p, m.record[p][Some(q)]))
    && (forall p | p in m.mark :: None in m.record[p] <==> p == root)
    && (forall p | p in m.mark :: Greedy(E, root, m.first[p], p))
  }

  lemma {:induction false} DistinctCount(s: seq<Ptr>, m: set<Ptr>)
    requires (forall i, j | 0 <= i < j < |s| :: s[i] != s[j]) && forall p :: p in m <==> p in s
    ensures |s| == |m|
    decreases |s|
  {
    if s == [] {
      assert m == {};
    } else {
      var t, last := s[..|s| - 1], s[|s| - 1];
      assert s == t + [last];
      DistinctCount(t, m - {last});
    }
  }

  lemma CoveredStep(E: Edges, record: Records, q: Ptr, p: Ptr)
    requires q in E && Covered(record, q, E[q]) && Step(E, q, p)
    ensures p in record && Some(q) in record[p]
  {
    var name :| HasEdge(E, q, p, name);
  }

  /** Without gray objects, everything that is followed has been followed. */
  lemma FinishedIsExact(g: Graph, E: Edges, root: Ptr, m: Marks)
    requires Consistent(g, E, root, m, {}) && root in m.mark && None in m.record[root]
    ensures Exact(E, root, m)
  {
    hide Covered, HasEdge, Greedy, Walk, ThroughUserValue;
    DistinctCount(m.expanded, m.mark);
    forall q, p | q in m.mark && Step(E, q, p) ensures p in m.mark && Some(q) in m.record[p] {
      CoveredStep(E, m.record, q, p);
    }
    forall p | Reachable(E, root, p) ensures p in m.mark {
      var path :| Joins(E, path, root, p);
      ClosedHolds(E, m.mark, path);
    }
    forall p, parent | p in m.mark && parent in m.record[p]
      ensures ParentOk(E, root, m.mark, p, parent, m.record[p][parent])
    {
    }
  }

  /** A finished walk met no object but tables as user values. */
  lemma FinishedIsDefined(g: Graph, E: Edges, root: Ptr, m: Marks, o: Ptr)
    requires Consistent(g, E, root, m, {}) && Exact(E, root, m)
    ensures !Misused(g, E, root, o)
  {
    hide Consistent, Exact, Greedy, ThroughUserValue, Reachable;
    if Misused(g, E, root, o) {
      var trail :| Greedy(E, root, trail, o) && ThroughUserValue(g, trail);
      GreedyIsWalk(g, E, root, trail, o);
      MetWhenReachable(g, E, root, m, o);
      GreedyUnique(E, root, trail, m.first[o], o);
    }
  }

  lemma MetWhenReachable(g: Graph, E: Edges, root: Ptr, m: Marks, o: Ptr)
    requires Consistent(g, E, root, m, {}) && Exact(E, root, m) && Reachable(E, root, o)
    ensures o in m.first && Met(g, E, root, m.first[o], o)
  {
    hide ParentsOk, Covered, Reachable, Step, HasEdge, Met, Greedy;
  }

  lemma GreedyIsWalk(g: Graph, E: Edges, root: Ptr, trail: seq<Link>, o: Ptr)
    requires Greedy(E, root, trail, o)
    ensures Reachable(E, root, o)
  {
    hide Greedy, Walk;
    TrailCrosses(g, E, root, trail, o);
    assert Joins(E, PathFrom(trail, 0, o), root, o);
  }

  /** snapshot, up to the report, called from thread `caller`: the registry is pushed and marked. The
      walk is defined if and only if no object but a table is first met as a user value, and then it
      marks exactly what is reachable, where the stack of the calling thread counts if and only if the
      greedy trail to it passes another thread. */
  method TakeSnapshot(g: Graph, registry: Ptr, caller: Ptr) returns (ok: bool, m: Marker, rest: seq<Value>)
    requires WellFormed(g) && IsTable(g, registry) && IsThread(g, caller)
    ensures ok <==> Defined(g, registry, caller)
    ensures fresh(m) && (ok ==> rest == [] && Exact(TrueEdges(g, registry, caller), registry, m.State()))
  {
    hide Reachable, Covered, Exact, TrueEdges, Misused, ThroughUserValue;
    m := new Marker(g, registry, caller);
    NoHeads();
    ok, rest := m.MarkTable(caller, [Ref(registry)], [], None, "[registry]", []);
    if ok {
      FinishedIsExact(g, m.E, registry, m.State());
      forall o ensures !Misused(g, m.E, registry, o) {
        FinishedIsDefined(g, m.E, registry, m.State(), o);
      }
    }
  }
}
