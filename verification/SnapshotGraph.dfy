/** The object graph lua-snapshot walks: its edges, reachability, and the trails along which a
    depth-first walk first meets its objects. */
module SnapshotGraph {
  import opened Common

  type Ptr = nat

  /** A Lua value on the stack: an object with a record of its own, or anything else
      (numbers, strings, nil, booleans, light userdata, C functions without upvalues). */
  datatype Value = Plain | Ref(p: Ptr)

  /** A key and a value of a table; `desc` is what keystring prints for the key. */
  datatype Pair = Pair(key: Value, desc: string, value: Value)

  datatype Named = Named(value: Value, name: string)

  /** The collectable objects. `mode` is the raw "__mode" string of a table, if it has one. The
      frames of a thread are its levels with their locals; those of the thread that calls the
      snapshot are given from level 1 on, since level 0 is the snapshot function itself. */
  datatype Object =
    | TableObject(meta: Option<Ptr>, mode: string, pairs: seq<Pair>)
    | UserdataObject(meta: Option<Ptr>, uservalue: Value)
    | FunctionObject(upvalues: seq<Named>)
    | ThreadObject(stack: seq<Value>, frames: seq<seq<Named>>)

  type Graph = map<Ptr, Object>

  predicate In(g: Graph, v: Value) { v.Ref? ==> v.p in g }

  predicate IsTable(g: Graph, p: Ptr) { p in g && g[p].TableObject? }

  predicate IsThread(g: Graph, p: Ptr) { p in g && g[p].ThreadObject? }

  ghost predicate LocalsIn(g: Graph, locals: seq<Named>) {
    forall i | 0 <= i < |locals| :: In(g, locals[i].value)
  }

  /** Pointers lead to objects, and metatables are tables. */
  ghost predicate Closed(g: Graph, o: Object) {
    match o
    case TableObject(meta, _, pairs) =>
      (meta.Some? ==> IsTable(g, meta.value)) && forall e <- pairs :: In(g, e.key) && In(g, e.value)
    case UserdataObject(meta, uservalue) => (meta.Some? ==> IsTable(g, meta.value)) && In(g, uservalue)
    case FunctionObject(upvalues) => forall e <- upvalues :: In(g, e.value)
    case ThreadObject(stack, frames) =>
      (forall v <- stack :: In(g, v)) && forall f <- frames :: LocalsIn(g, f)
  }

  ghost predicate WellFormed(g: Graph) { forall t | t in g :: Closed(g, g[t]) }

  // ---- the edges that are followed ------------------------------------------------------------

  /** An edge as it is followed: the value, the name it is recorded under, and what lies between
      the object and the value on the stack of the walk. */
  datatype Edge = Edge(value: Value, name: string, held: seq<Value>)

  /** The mode of a table's metatable. */
  function ModeOf(g: Graph, meta: Option<Ptr>): string {
    if meta.Some? && IsTable(g, meta.value) then g[meta.value].mode else ""
  }

  predicate WeakKeys(g: Graph, meta: Option<Ptr>) { 'k' in ModeOf(g, meta) }

  predicate WeakValues(g: Graph, meta: Option<Ptr>) { 'v' in ModeOf(g, meta) }

  function MetaEdges(meta: Option<Ptr>): seq<Edge> {
    if meta.Some? then [Edge(Ref(meta.value), "[metatable]", [])] else []
  }

  function PairEdges(weakKeys: bool, weakValues: bool, e: Pair): seq<Edge> {
    (if weakValues then [] else [Edge(e.value, e.desc, [e.key])])
    + (if weakKeys then [] else [Edge(e.key, "[key]", [e.key])])
  }

  function PairsEdges(weakKeys: bool, weakValues: bool, pairs: seq<Pair>): seq<Edge> {
    if pairs == [] then []
    else PairsEdges(weakKeys, weakValues, pairs[..|pairs| - 1])
         + PairEdges(weakKeys, weakValues, pairs[|pairs| - 1])
  }

  /** The user value goes to mark_table, whatever it is. */
  function UserEdges(uservalue: Value): seq<Edge> { [Edge(uservalue, "[uservalue]", [])] }

  function UpvalueName(name: string): string { if name == "" then "[upvalue]" else name }

  function UpvalueEdges(upvalues: seq<Named>): seq<Edge> {
    seq(|upvalues|, i requires 0 <= i < |upvalues| =>
          Edge(upvalues[i].value, UpvalueName(upvalues[i].name), []))
  }

  function Decimal(n: nat): string {
    if n < 10 then ['0' + n as char] else Decimal(n / 10) + ['0' + (n % 10) as char]
  }

  /** The slots of a thread's stack. */
  function SlotEdges(values: seq<Value>): seq<Edge> {
    seq(|values|, i requires 0 <= i < |values| => Edge(values[i], "[" + Decimal(i + 1) + "]", []))
  }

  /** The locals of the snapshot function itself: the slots of its stack. */
  function Temporaries(values: seq<Value>): seq<Named> {
    seq(|values|, i requires 0 <= i < |values| => Named(values[i], "(*temporary) : [C]:-1"))
  }

  function LocalEdges(locals: seq<Named>): seq<Edge> {
    seq(|locals|, i requires 0 <= i < |locals| => Edge(locals[i].value, locals[i].name, []))
  }

  function FrameEdges(frames: seq<seq<Named>>): seq<Edge> {
    if frames == [] then [] else FrameEdges(frames[..|frames| - 1]) + LocalEdges(frames[|frames| - 1])
  }

  /** The stack of the calling thread also holds what the walk has pushed on it. */
  function StackOf(g: Graph, caller: Ptr, below: seq<Value>, t: Ptr): seq<Value>
    requires IsThread(g, t)
  {
    if t == caller then g[t].stack + below else g[t].stack
  }

  function FramesOf(g: Graph, caller: Ptr, below: seq<Value>, t: Ptr): (f: seq<seq<Named>>)
    requires IsThread(g, t)
    ensures t == caller ==> f != []
  {
    if t == caller then [Temporaries(StackOf(g, caller, below, t))] + g[t].frames else g[t].frames
  }

  /** What mark_thread follows: the stack unless the walk is on that very thread, and the frames
      from level 0 or 1 on. */
  function ThreadEdges(g: Graph, caller: Ptr, below: seq<Value>, t: Ptr, own: bool): seq<Edge>
    requires IsThread(g, t) && (own ==> t == caller)
  {
    if own then FrameEdges(FramesOf(g, caller, below, t)[1..])
    else SlotEdges(StackOf(g, caller, below, t)) + FrameEdges(FramesOf(g, caller, below, t))
  }

  /** The edges of an object, in the order they are followed. `walked` is what the walk holds on
      the stack of the calling thread when it walks that stack, None when it does not. */
  function ObjectEdges(g: Graph, caller: Ptr, walked: Option<seq<Value>>, t: Ptr): seq<Edge>
    requires t in g
  {
    match g[t]
    case TableObject(meta, _, pairs) => MetaEdges(meta) + PairsEdges(WeakKeys(g, meta), WeakValues(g, meta), pairs)
    case UserdataObject(meta, uservalue) => MetaEdges(meta) + UserEdges(uservalue)
    case FunctionObject(upvalues) => UpvalueEdges(upvalues)
    case ThreadObject(_, _) =>
      ThreadEdges(g, caller, if walked.Some? then walked.value else [], t, t == caller && walked.None?)
  }

  type Edges = map<Ptr, seq<Edge>>

  ghost function EdgesWith(g: Graph, caller: Ptr, walked: Option<seq<Value>>): Edges {
    map t | t in g :: ObjectEdges(g, caller, walked, t)
  }

  // ---- reachability -----------------------------------------------------------------------------

  /** q has an edge to p of that name. */
  ghost predicate HasEdge(E: Edges, q: Ptr, p: Ptr, name: string) {
    q in E && exists e :: e in E[q] && e.value == Ref(p) && e.name == name
  }

  ghost predicate Step(E: Edges, q: Ptr, p: Ptr) { exists name :: HasEdge(E, q, p, name) }

  ghost predicate Walk(E: Edges, path: seq<Ptr>) {
    path != [] && forall i | 0 <= i < |path| - 1 :: Step(E, path[i], path[i + 1])
  }

  ghost predicate Joins(E: Edges, path: seq<Ptr>, q: Ptr, p: Ptr) {
    Walk(E, path) && path[0] == q && path[|path| - 1] == p
  }

  ghost predicate Reachable(E: Edges, root: Ptr, p: Ptr) { exists path :: Joins(E, path, root, p) }

  lemma ReachableRoot(E: Edges, root: Ptr)
    ensures Reachable(E, root, root)
  {
    assert Joins(E, [root], root, root);
  }

  lemma ReachableStep(E: Edges, root: Ptr, q: Ptr, p: Ptr)
    requires Reachable(E, root, q) && Step(E, q, p)
    ensures Reachable(E, root, p)
  {
    hide Step;
    var path :| Joins(E, path, root, q);
    var path' := path + [p];
    assert forall i | 0 <= i < |path'| - 1 :: path'[i] == path[i];
    assert Joins(E, path', root, p);
  }

  /** A set that holds the start and is closed under steps holds everything reachable. */
  lemma {:induction false} ClosedHolds(E: Edges, marked: set<Ptr>, path: seq<Ptr>)
    requires Walk(E, path) && path[0] in marked
    requires forall q, p | q in marked && Step(E, q, p) :: p in marked
    ensures path[|path| - 1] in marked
    decreases |path|
  {
    hide Step;
    if |path| > 1 {
      var shorter := path[..|path| - 1];
      forall i | 0 <= i < |shorter| - 1 ensures Step(E, shorter[i], shorter[i + 1]) {
        assert Step(E, path[i], path[i + 1]);
      }
      ClosedHolds(E, marked, shorter);
      assert Step(E, path[|path| - 2], path[|path| - 1]);
    }
  }

  // ---- trails -------------------------------------------------------------------------------------

  /** An object and the edge that is taken from it. */
  datatype Link = Link(p: Ptr, edge: nat)

  /** The i-th object of a trail that ends at o. */
  function Head(trail: seq<Link>, i: nat, o: Ptr): Ptr { if i < |trail| then trail[i].p else o }

  /** The edge with that index leads to p. */
  predicate Leads(E: Edges, l: Link, p: Ptr) {
    l.p in E && l.edge < |E[l.p]| && E[l.p][l.edge].value == Ref(p)
  }

  ghost predicate Chained(E: Edges, trail: seq<Link>, o: Ptr) {
    forall i | 0 <= i < |trail| :: Leads(E, trail[i], Head(trail, i + 1, o))
  }

  ghost predicate Simple(trail: seq<Link>, o: Ptr) {
    forall i, j | 0 <= i < j <= |trail| :: Head(trail, i, o) != Head(trail, j, o)
  }

  /** A trail from the root to o that never comes back to an object. */
  ghost predicate Trail(E: Edges, root: Ptr, trail: seq<Link>, o: Ptr) {
    Head(trail, 0, o) == root && Chained(E, trail, o) && Simple(trail, o)
  }

  ghost function Heads(trail: seq<Link>): set<Ptr> { set l | l in trail :: l.p }

  /** A walk from x to o that meets o and the objects of `avoid` only at its end. */
  ghost predicate Way(E: Edges, path: seq<Ptr>, x: Ptr, o: Ptr, avoid: set<Ptr>) {
    && Joins(E, path, x, o)
    && (forall i | 0 <= i < |path| - 1 :: path[i] !in avoid && path[i] != o)
  }

  /** No way leads from x to o around the objects of `avoid`. */
  ghost predicate Blocked(E: Edges, x: Ptr, o: Ptr, avoid: set<Ptr>) {
    x in avoid || forall path :: !Way(E, path, x, o, avoid)
  }

  /** No edge before the one taken could have led to o around the trail so far. */
  ghost predicate Greedy1(E: Edges, l: Link, o: Ptr, avoid: set<Ptr>) {
    l.p in E && l.edge <= |E[l.p]| &&
    forall f | 0 <= f < l.edge && E[l.p][f].value.Ref? :: Blocked(E, E[l.p][f].value.p, o, avoid)
  }

  /** The greedy trail to o takes, at each object, the first edge from which o can still be
      reached without coming back to the trail. */
  ghost predicate Greedy(E: Edges, root: Ptr, trail: seq<Link>, o: Ptr) {
    && Trail(E, root, trail, o)
    && (forall i | 0 <= i < |trail| :: Greedy1(E, trail[i], o, Heads(trail[..i + 1])))
  }

  /** The objects of a trail from the k-th on, and o. */
  function PathFrom(trail: seq<Link>, k: nat, o: Ptr): (path: seq<Ptr>)
    requires k <= |trail|
    ensures |path| == |trail| - k + 1 && forall i | 0 <= i < |path| :: path[i] == Head(trail, k + i, o)
    decreases |trail| - k
  {
    if k == |trail| then [o] else [trail[k].p] + PathFrom(trail, k + 1, o)
  }

  /** The rest of a trail is a way around its beginning. */
  lemma TrailIsWay(E: Edges, root: Ptr, trail: seq<Link>, o: Ptr, k: nat)
    requires Trail(E, root, trail, o) && k < |trail|
    ensures Way(E, PathFrom(trail, k + 1, o), Head(trail, k + 1, o), o, Heads(trail[..k + 1]))
    ensures Head(trail, k + 1, o) !in Heads(trail[..k + 1])
  {
    hide Leads, Step, Heads, Simple;
    var path := PathFrom(trail, k + 1, o);
    forall i | 0 <= i < |path| - 1 ensures Step(E, path[i], path[i + 1]) {
      LeadsIsStep(E, trail[k + 1 + i], path[i + 1]);
    }
    forall i | 0 <= i < |path| ensures path[i] !in Heads(trail[..k + 1]) {
      NotBefore(trail, k, k + 1 + i, o);
    }
    forall i | 0 <= i < |path| - 1 ensures path[i] != o {
      Apart(trail, k + 1 + i, |trail|, o);
    }
  }

  lemma Apart(trail: seq<Link>, i: nat, j: nat, o: Ptr)
    requires Simple(trail, o) && i < j <= |trail|
    ensures Head(trail, i, o) != Head(trail, j, o)
  {
  }

  lemma NotBefore(trail: seq<Link>, k: nat, j: nat, o: Ptr)
    requires Simple(trail, o) && k < j <= |trail|
    ensures Head(trail, j, o) !in Heads(trail[..k + 1])
  {
    forall i | 0 <= i <= k ensures trail[i].p != Head(trail, j, o) {
      Apart(trail, i, j, o);
    }
  }

  lemma LeadsIsStep(E: Edges, l: Link, p: Ptr)
    requires Leads(E, l, p)
    ensures Step(E, l.p, p)
  {
    assert HasEdge(E, l.p, p, E[l.p][l.edge].name);
  }

  /** Two greedy trails to the same object agree up to any point. */
  lemma {:induction false} GreedyAgree(E: Edges, root: Ptr, a: seq<Link>, b: seq<Link>, o: Ptr, k: nat)
    requires Greedy(E, root, a, o) && Greedy(E, root, b, o) && k <= |a| && k <= |b|
    ensures a[..k] == b[..k] && Head(a, k, o) == Head(b, k, o)
    decreases k
  {
    hide Greedy1, Heads, Leads, Simple;
    if k > 0 {
      var i := k - 1;
      GreedyAgree(E, root, a, b, o, i);
      assert a[..k] == a[..i] + [a[i]] && b[..k] == b[..i] + [b[i]];
      SameHeads(a, b, i);
      NotEarlier(E, root, a, b, o, i);
      NotEarlier(E, root, b, a, o, i);
      SameTarget(E, a[i], Head(a, k, o), Head(b, k, o));
    }
  }

  lemma SameTarget(E: Edges, l: Link, p: Ptr, q: Ptr)
    requires Leads(E, l, p) && Leads(E, l, q)
    ensures p == q
  {
  }

  lemma SameHeads(a: seq<Link>, b: seq<Link>, i: nat)
    requires i < |a| && i < |b| && a[..i] == b[..i] && a[i].p == b[i].p
    ensures Heads(a[..i + 1]) == Heads(b[..i + 1])
  {
    HeadsSnoc(a, i);
    HeadsSnoc(b, i);
  }

  lemma HeadsSnoc(a: seq<Link>, i: nat)
    requires i < |a|
    ensures Heads(a[..i + 1]) == Heads(a[..i]) + {a[i].p}
  {
    assert a[..i + 1] == a[..i] + [a[i]];
    assert Heads(a[..i + 1]) <= Heads(a[..i]) + {a[i].p};
    forall p | p in Heads(a[..i]) + {a[i].p} ensures p in Heads(a[..i + 1]) {
      if p == a[i].p {
        assert a[i] in a[..i + 1];
      } else {
        var l :| l in a[..i] && l.p == p;
        assert l in a[..i + 1];
      }
    }
  }

  lemma NotEarlier(E: Edges, root: Ptr, a: seq<Link>, b: seq<Link>, o: Ptr, i: nat)
    requires Trail(E, root, a, o) && Greedy(E, root, b, o) && i < |a| && i < |b| && a[i].p == b[i].p
    requires Heads(a[..i + 1]) == Heads(b[..i + 1])
    ensures a[i].edge >= b[i].edge
  {
    hide Way, Heads;
    TrailIsWay(E, root, a, o, i);
    assert Leads(E, a[i], Head(a, i + 1, o)) && Greedy1(E, b[i], o, Heads(b[..i + 1]));
  }

  /** An object has at most one greedy trail. */
  lemma GreedyUnique(E: Edges, root: Ptr, a: seq<Link>, b: seq<Link>, o: Ptr)
    requires Greedy(E, root, a, o) && Greedy(E, root, b, o)
    ensures a == b
  {
    hide Greedy1, Simple, Chained;
    var k := if |a| <= |b| then |a| else |b|;
    GreedyAgree(E, root, a, b, o, k);
    if |a| < |b| { Apart(b, k, |b|, o); }
    if |b| < |a| { Apart(a, k, |a|, o); }
    assert a[..|a|] == a && b[..|b|] == b;
  }

  // ---- every reachable object has a greedy trail ----------------------------------------------------

  /** The trail so far, with nothing passed over that leads to o. */
  ghost predicate Partial(E: Edges, root: Ptr, trail: seq<Link>, x: Ptr, o: Ptr) {
    && Trail(E, root, trail, x) && o !in Heads(trail)
    && (forall i | 0 <= i < |trail| :: Greedy1(E, trail[i], o, Heads(trail[..i + 1])))
  }

  /** A way from x goes on from a neighbour of x and does not come back to x. */
  lemma {:induction false} WayGoesOn(E: Edges, path: seq<Ptr>, x: Ptr, o: Ptr, avoid: set<Ptr>)
    returns (y: Ptr, rest: seq<Ptr>)
    requires Way(E, path, x, o, avoid) && x != o && x !in avoid && o !in avoid
    ensures Step(E, x, y) && Way(E, rest, y, o, avoid + {x}) && y !in avoid + {x}
    decreases |path|
  {
    hide Step;
    var tail := path[1..];
    WalkFirst(E, path);
    WalkFrom(E, path, 1);
    if x in tail {
      var k :| 0 <= k < |tail| && tail[k] == x;
      WalkFrom(E, tail, k);
      y, rest := WayGoesOn(E, tail[k..], x, o, avoid);
    } else {
      y, rest := path[1], tail;
      assert forall i | 0 <= i < |tail| - 1 :: tail[i] == path[i + 1] && tail[i] in tail;
    }
  }

  lemma WalkFirst(E: Edges, path: seq<Ptr>)
    requires Walk(E, path) && |path| > 1
    ensures Step(E, path[0], path[1])
  {
  }

  lemma WalkFrom(E: Edges, path: seq<Ptr>, k: nat)
    requires Walk(E, path) && k < |path|
    ensures Walk(E, path[k..])
  {
    hide Step;
    var rest := path[k..];
    forall i | 0 <= i < |rest| - 1 ensures Step(E, rest[i], rest[i + 1]) {
      assert Step(E, path[k + i], path[k + i + 1]);
    }
  }

  /** The first edge of x from which o can be reached around `avoid`. */
  lemma FirstOpenEdge(E: Edges, x: Ptr, o: Ptr, avoid: set<Ptr>, y: Ptr) returns (f: nat)
    requires Step(E, x, y) && !Blocked(E, y, o, avoid)
    ensures Greedy1(E, Link(x, f), o, avoid) && x in E && f < |E[x]| && E[x][f].value.Ref?
    ensures Leads(E, Link(x, f), E[x][f].value.p) && !Blocked(E, E[x][f].value.p, o, avoid)
  {
    hide Blocked, Greedy1, Step;
    var k := EdgeIndex(E, x, y);
    f := 0;
    NothingBefore(E, x, o, avoid);
    while !(E[x][f].value.Ref? && !Blocked(E, E[x][f].value.p, o, avoid))
      invariant f <= k && Greedy1(E, Link(x, f), o, avoid)
      decreases k - f
    {
      OneMoreBefore(E, x, f, o, avoid);
      f := f + 1;
    }
  }

  lemma EdgeIndex(E: Edges, x: Ptr, y: Ptr) returns (k: nat)
    requires Step(E, x, y)
    ensures x in E && k < |E[x]| && E[x][k].value == Ref(y)
  {
    var name :| HasEdge(E, x, y, name);
    var e :| e in E[x] && e.value == Ref(y);
    k :| 0 <= k < |E[x]| && E[x][k] == e;
  }

  lemma NothingBefore(E: Edges, x: Ptr, o: Ptr, avoid: set<Ptr>)
    requires x in E
    ensures Greedy1(E, Link(x, 0), o, avoid)
  {
  }

  lemma OneMoreBefore(E: Edges, x: Ptr, f: nat, o: Ptr, avoid: set<Ptr>)
    requires Greedy1(E, Link(x, f), o, avoid) && f < |E[x]|
    requires E[x][f].value.Ref? ==> Blocked(E, E[x][f].value.p, o, avoid)
    ensures Greedy1(E, Link(x, f + 1), o, avoid)
  {
    hide Blocked;
  }

  /** A trail can be extended greedily until it ends at o. */
  lemma {:induction false} GreedyGoesOn(E: Edges, root: Ptr, trail: seq<Link>, x: Ptr, o: Ptr)
    returns (whole: seq<Link>)
    requires Partial(E, root, trail, x, o) && !Blocked(E, x, o, Heads(trail))
    ensures Greedy(E, root, whole, o)
    decreases E.Keys - Heads(trail)
  {
    hide Greedy1, Heads, Step, Leads, Trail;
    if x == o {
      return trail;
    }
    NotOn(E, root, trail, x);
    var path :| Way(E, path, x, o, Heads(trail));
    var y, rest := WayGoesOn(E, path, x, o, Heads(trail));
    var avoid := Heads(trail) + {x};
    var f := FirstOpenEdge(E, x, o, avoid, y);
    var l := Link(x, f);
    var z := E[x][f].value.p;
    OneMoreLink(E, root, trail, l, z, o);
    whole := GreedyGoesOn(E, root, trail + [l], z, o);
  }

  lemma NotOn(E: Edges, root: Ptr, trail: seq<Link>, x: Ptr)
    requires Trail(E, root, trail, x)
    ensures x !in Heads(trail)
  {
    hide Heads, Leads;
    if trail != [] {
      NotBefore(trail, |trail| - 1, |trail|, x);
      assert trail[..|trail|] == trail;
    } else {
      NoHeads();
    }
  }

  lemma NoHeads()
    ensures Heads([]) == {}
  {
  }

  lemma OneMoreLink(E: Edges, root: Ptr, trail: seq<Link>, l: Link, z: Ptr, o: Ptr)
    requires Partial(E, root, trail, l.p, o) && l.p != o && Leads(E, l, z)
    requires z !in Heads(trail) + {l.p} && Greedy1(E, l, o, Heads(trail) + {l.p})
    ensures Partial(E, root, trail + [l], z, o) && Heads(trail + [l]) == Heads(trail) + {l.p}
    ensures l.p in E && l.p !in Heads(trail)
  {
    hide Greedy1, Leads, Heads, Trail;
    var longer := trail + [l];
    TrailGrows(E, root, trail, l, z);
    assert longer[..|trail| + 1] == longer;
    forall i | 0 <= i < |longer| ensures Greedy1(E, longer[i], o, Heads(longer[..i + 1])) {
      if i < |trail| {
        assert longer[..i + 1] == trail[..i + 1];
      }
    }
  }

  lemma TrailGrows(E: Edges, root: Ptr, trail: seq<Link>, l: Link, z: Ptr)
    requires Trail(E, root, trail, l.p) && Leads(E, l, z) && z !in Heads(trail) + {l.p}
    ensures Trail(E, root, trail + [l], z) && Heads(trail + [l]) == Heads(trail) + {l.p}
    ensures l.p in E && l.p !in Heads(trail)
  {
    hide Leads, Heads, Simple;
    var longer := trail + [l];
    NotOn(E, root, trail, l.p);
    HeadsSnoc(longer, |trail|);
    assert longer[..|trail|] == trail && longer[..|trail| + 1] == longer;
    LeadsFrom(E, l, z);
    forall i | 0 <= i < |longer| ensures Leads(E, longer[i], Head(longer, i + 1, z)) {
      assert i < |trail| ==> Leads(E, trail[i], Head(trail, i + 1, l.p));
    }
    InHeads(longer);
    SimpleGrows(trail, l, z);
  }

  lemma SimpleGrows(trail: seq<Link>, l: Link, z: Ptr)
    requires Simple(trail, l.p) && forall i | 0 <= i <= |trail| :: Head(trail, i, l.p) != z
    ensures Simple(trail + [l], z)
  {
    var longer := trail + [l];
    forall i, j | 0 <= i < j <= |longer| ensures Head(longer, i, z) != Head(longer, j, z) {
      assert Head(longer, i, z) == Head(trail, i, l.p);
      assert j <= |trail| ==> Head(longer, j, z) == Head(trail, j, l.p);
    }
  }

  lemma LeadsFrom(E: Edges, l: Link, p: Ptr)
    requires Leads(E, l, p)
    ensures l.p in E
  {
  }

  lemma InHeads(trail: seq<Link>)
    ensures forall i | 0 <= i < |trail| :: trail[i].p in Heads(trail)
  {
  }

  /** Every reachable object has a greedy trail. */
  lemma GreedyExists(E: Edges, root: Ptr, o: Ptr) returns (trail: seq<Link>)
    requires Reachable(E, root, o)
    ensures Greedy(E, root, trail, o)
  {
    hide Greedy, Greedy1, Step;
    var path :| Joins(E, path, root, o);
    var way := StopAt(E, path, root, o);
    assert Heads([]) == {};
    assert Way(E, way, root, o, {});
    trail := GreedyGoesOn(E, root, [], root, o);
  }

  /** A walk to o, stopped where it first meets o. */
  lemma {:induction false} StopAt(E: Edges, path: seq<Ptr>, x: Ptr, o: Ptr) returns (way: seq<Ptr>)
    requires Joins(E, path, x, o)
    ensures Way(E, way, x, o, {})
    decreases |path|
  {
    hide Step;
    if k: nat :| k < |path| - 1 && path[k] == o {
      assert forall i | 0 <= i < k :: Step(E, path[i], path[i + 1]);
      way := StopAt(E, path[..k + 1], x, o);
    } else {
      way := path;
    }
  }

  // ---- the thread that calls the snapshot --------------------------------------------------------------

  /** The trail passes a thread. */
  predicate Passes(g: Graph, trail: seq<Link>) { exists l <- trail :: IsThread(g, l.p) }

  /** The thread the walk along a trail is on: the last one it passed, at first the calling one. */
  function Current(g: Graph, caller: Ptr, trail: seq<Link>): Ptr {
    if trail == [] then caller
    else if IsThread(g, trail[|trail| - 1].p) then trail[|trail| - 1].p
    else Current(g, caller, trail[..|trail| - 1])
  }

  lemma {:induction false} CurrentIsOn(g: Graph, caller: Ptr, trail: seq<Link>)
    ensures Current(g, caller, trail) == caller || Current(g, caller, trail) in Heads(trail)
    ensures caller !in Heads(trail) ==> (Current(g, caller, trail) == caller <==> !Passes(g, trail))
    decreases |trail|
  {
    hide Heads;
    if trail == [] {
      NoHeads();
    } else {
      var k := |trail| - 1;
      CurrentIsOn(g, caller, trail[..k]);
      HeadsSnoc(trail, k);
      assert trail[..k + 1] == trail;
      PassesSnoc(g, trail, k);
    }
  }

  lemma PassesSnoc(g: Graph, trail: seq<Link>, k: nat)
    requires k < |trail|
    ensures Passes(g, trail[..k + 1]) <==> Passes(g, trail[..k]) || IsThread(g, trail[k].p)
  {
    assert trail[..k + 1] == trail[..k] + [trail[k]];
    assert trail[k] in trail[..k + 1];
  }

  function HeldBy(E: Edges, l: Link): seq<Value> {
    if l.p in E && l.edge < |E[l.p]| then E[l.p][l.edge].held else []
  }

  /** What the walk along a trail holds on the stack of the calling thread: the objects of the trail
      and the keys between them, up to the first thread it passes. */
  function HeldOf(g: Graph, E: Edges, trail: seq<Link>): seq<Value> {
    if trail == [] then []
    else
      var front, l := trail[..|trail| - 1], trail[|trail| - 1];
      if Passes(g, front) then HeldOf(g, E, front) else HeldOf(g, E, front) + [Ref(l.p)] + HeldBy(E, l)
  }

  /** The greedy trail to the calling thread passes another thread. */
  ghost predicate Detour(g: Graph, E: Edges, root: Ptr, caller: Ptr) {
    exists trail :: Greedy(E, root, trail, caller) && Passes(g, trail)
  }

  /** Whether the stack of the calling thread is walked, and what the walk holds on it then: it is if
      and only if the greedy trail to that thread passes another one. */
  ghost function WalkedOf(g: Graph, root: Ptr, caller: Ptr): Option<seq<Value>> {
    var E := EdgesWith(g, caller, None);
    if Detour(g, E, root, caller) then
      var trail :| Greedy(E, root, trail, caller) && Passes(g, trail);
      Some(HeldOf(g, E, trail))
    else None
  }

  /** The edges the snapshot follows. */
  ghost function TrueEdges(g: Graph, root: Ptr, caller: Ptr): Edges {
    EdgesWith(g, caller, WalkedOf(g, root, caller))
  }

  /** The edges differ at most at the calling thread. */
  ghost predicate AgreeBut(E: Edges, F: Edges, o: Ptr) {
    E.Keys == F.Keys && forall t | t in E && t != o :: E[t] == F[t]
  }

  lemma WalkedOnlyAtCaller(g: Graph, caller: Ptr, a: Option<seq<Value>>, b: Option<seq<Value>>)
    ensures AgreeBut(EdgesWith(g, caller, a), EdgesWith(g, caller, b), caller)
  {
    hide MetaEdges, PairsEdges, UserEdges, UpvalueEdges, WeakKeys, WeakValues, SlotEdges, FrameEdges;
  }

  lemma WayAgrees(E: Edges, F: Edges, path: seq<Ptr>, x: Ptr, o: Ptr, avoid: set<Ptr>)
    requires AgreeBut(E, F, o) && Way(E, path, x, o, avoid)
    ensures Way(F, path, x, o, avoid)
  {
    hide HasEdge;
    forall i | 0 <= i < |path| - 1 ensures Step(F, path[i], path[i + 1]) {
      var name :| HasEdge(E, path[i], path[i + 1], name);
      EdgeAgrees(E, F, o, path[i], path[i + 1], name);
    }
  }

  lemma EdgeAgrees(E: Edges, F: Edges, o: Ptr, q: Ptr, p: Ptr, name: string)
    requires AgreeBut(E, F, o) && q != o && HasEdge(E, q, p, name)
    ensures HasEdge(F, q, p, name)
  {
  }

  lemma BlockedAgrees(E: Edges, F: Edges, x: Ptr, o: Ptr, avoid: set<Ptr>)
    requires AgreeBut(E, F, o) && Blocked(E, x, o, avoid)
    ensures Blocked(F, x, o, avoid)
  {
    hide Way;
    forall path | Way(F, path, x, o, avoid) ensures x in avoid {
      WayAgrees(F, E, path, x, o, avoid);
    }
  }

  lemma Greedy1Agrees(E: Edges, F: Edges, l: Link, o: Ptr, avoid: set<Ptr>)
    requires AgreeBut(E, F, o) && l.p != o && Greedy1(E, l, o, avoid)
    ensures Greedy1(F, l, o, avoid)
  {
    hide Blocked;
    forall f | 0 <= f < l.edge && F[l.p][f].value.Ref? ensures Blocked(F, F[l.p][f].value.p, o, avoid) {
      BlockedAgrees(E, F, F[l.p][f].value.p, o, avoid);
    }
  }

  /** How an object is first met does not depend on its own edges. */
  lemma GreedyAgrees(E: Edges, F: Edges, root: Ptr, trail: seq<Link>, o: Ptr)
    requires AgreeBut(E, F, o) && Greedy(E, root, trail, o)
    ensures Greedy(F, root, trail, o)
  {
    hide Greedy1, Heads, Simple;
    forall i | 0 <= i < |trail| ensures Greedy1(F, trail[i], o, Heads(trail[..i + 1])) {
      Apart(trail, i, |trail|, o);
      Greedy1Agrees(E, F, trail[i], o, Heads(trail[..i + 1]));
    }
    forall i | 0 <= i < |trail| ensures Leads(F, trail[i], Head(trail, i + 1, o)) {
      Apart(trail, i, |trail|, o);
    }
  }

  lemma {:induction false} HeldAgrees(g: Graph, E: Edges, F: Edges, trail: seq<Link>, o: Ptr)
    requires AgreeBut(E, F, o) && forall l <- trail :: l.p != o
    ensures HeldOf(g, E, trail) == HeldOf(g, F, trail)
    decreases |trail|
  {
    hide Passes;
    if trail != [] {
      HeldAgrees(g, E, F, trail[..|trail| - 1], o);
      assert trail[|trail| - 1].p != o;
    }
  }

  /** At the greedy trail to the calling thread it is settled whether its stack is walked. */
  lemma WalkedDecided(g: Graph, root: Ptr, caller: Ptr, trail: seq<Link>)
    requires Greedy(TrueEdges(g, root, caller), root, trail, caller)
    ensures WalkedOf(g, root, caller)
            == if Passes(g, trail) then Some(HeldOf(g, TrueEdges(g, root, caller), trail)) else None
  {
    hide Greedy, EdgesWith, Passes, HeldOf, AgreeBut;
    var E, F := EdgesWith(g, caller, None), TrueEdges(g, root, caller);
    WalkedOnlyAtCaller(g, caller, None, WalkedOf(g, root, caller));
    WalkedOnlyAtCaller(g, caller, WalkedOf(g, root, caller), None);
    GreedyAgrees(F, E, root, trail, caller);
    NotThere(F, root, trail, caller);
    HeldAgrees(g, E, F, trail, caller);
    if Detour(g, E, root, caller) {
      var other :| Greedy(E, root, other, caller) && Passes(g, other)
                   && WalkedOf(g, root, caller) == Some(HeldOf(g, E, other));
      GreedyUnique(E, root, trail, other, caller);
    } else {
      assert !(Greedy(E, root, trail, caller) && Passes(g, trail));
    }
  }

  lemma NotThere(E: Edges, root: Ptr, trail: seq<Link>, o: Ptr)
    requires Greedy(E, root, trail, o)
    ensures forall l <- trail :: l.p != o
  {
    hide Greedy1, Chained;
    forall l | l in trail ensures l.p != o {
      var i :| 0 <= i < |trail| && trail[i] == l;
      Apart(trail, i, |trail|, o);
    }
  }

  // ---- edges stay in the graph ------------------------------------------------------------------------

  ghost predicate AllIn(g: Graph, edges: seq<Edge>) {
    forall i | 0 <= i < |edges| :: In(g, edges[i].value) && forall v <- edges[i].held :: In(g, v)
  }

  lemma AllInJoin(g: Graph, a: seq<Edge>, b: seq<Edge>)
    requires AllIn(g, a) && AllIn(g, b)
    ensures AllIn(g, a + b)
  {
    hide In;
  }

  lemma {:induction false} PairsIn(g: Graph, weakKeys: bool, weakValues: bool, pairs: seq<Pair>)
    requires forall e <- pairs :: In(g, e.key) && In(g, e.value)
    ensures AllIn(g, PairsEdges(weakKeys, weakValues, pairs))
  {
    if pairs != [] {
      var k := |pairs| - 1;
      PairsIn(g, weakKeys, weakValues, pairs[..k]);
      assert pairs[k] in pairs;
      AllInJoin(g, PairsEdges(weakKeys, weakValues, pairs[..k]), PairEdges(weakKeys, weakValues, pairs[k]));
    }
  }

  lemma {:induction false} FramesIn(g: Graph, frames: seq<seq<Named>>)
    requires forall f <- frames :: LocalsIn(g, f)
    ensures AllIn(g, FrameEdges(frames))
  {
    if frames != [] {
      var k := |frames| - 1;
      var f := frames[k];
      FramesIn(g, frames[..k]);
      assert f in frames && LocalsIn(g, f);
      AllInJoin(g, FrameEdges(frames[..k]), LocalEdges(f));
    }
  }

  lemma ThreadIn(g: Graph, caller: Ptr, below: seq<Value>, t: Ptr, own: bool)
    requires IsThread(g, t) && Closed(g, g[t]) && (own ==> t == caller) && forall v <- below :: In(g, v)
    ensures AllIn(g, ThreadEdges(g, caller, below, t, own))
  {
    hide FrameEdges, In;
    var stack, frames := StackOf(g, caller, below, t), FramesOf(g, caller, below, t);
    forall f | f in frames ensures LocalsIn(g, f) {
      assert f in g[t].frames || f == Temporaries(stack);
    }
    FramesIn(g, frames);
    if own {
      assert frames[1..] == g[t].frames;
      FramesIn(g, frames[1..]);
    } else {
      AllInJoin(g, SlotEdges(stack), FrameEdges(frames));
    }
  }

  lemma ObjectIn(g: Graph, caller: Ptr, walked: Option<seq<Value>>, t: Ptr)
    requires t in g && Closed(g, g[t]) && (walked.Some? ==> forall v <- walked.value :: In(g, v))
    ensures AllIn(g, ObjectEdges(g, caller, walked, t))
  {
    hide PairsEdges, ThreadEdges, WeakKeys, WeakValues;
    match g[t]
    case TableObject(meta, _, pairs) =>
      PairsIn(g, WeakKeys(g, meta), WeakValues(g, meta), pairs);
    case UserdataObject(_, _) =>
    case FunctionObject(upvalues) =>
      forall i | 0 <= i < |upvalues| ensures In(g, upvalues[i].value) { assert upvalues[i] in upvalues; }
    case ThreadObject(_, _) =>
      ThreadIn(g, caller, if walked.Some? then walked.value else [], t, t == caller && walked.None?);
  }

  lemma {:induction false} HeldIn(g: Graph, E: Edges, trail: seq<Link>)
    requires forall l <- trail :: l.p in g && l.p in E && AllIn(g, E[l.p])
    ensures forall v <- HeldOf(g, E, trail) :: In(g, v)
    decreases |trail|
  {
    hide Passes;
    if trail != [] {
      var l := trail[|trail| - 1];
      HeldIn(g, E, trail[..|trail| - 1]);
      assert l in trail;
    }
  }

  /** The edges the snapshot follows lead to objects of the graph. */
  lemma EdgeInGraph(g: Graph, root: Ptr, caller: Ptr, t: Ptr, k: nat)
    requires WellFormed(g) && t in g && k < |TrueEdges(g, root, caller)[t]|
    ensures In(g, TrueEdges(g, root, caller)[t][k].value)
  {
    hide ObjectEdges, Greedy, HeldOf, Closed, In, Passes;
    var E := EdgesWith(g, caller, None);
    if Detour(g, E, root, caller) {
      var trail: seq<Link> :| Greedy(E, root, trail, caller) && Passes(g, trail)
                   && WalkedOf(g, root, caller) == Some(HeldOf(g, E, trail));
      forall l: Link | l in trail ensures l.p in g && l.p in E && AllIn(g, E[l.p]) {
        OnTrail(E, root, trail, caller, l);
        ObjectIn(g, caller, None, l.p);
      }
      HeldIn(g, E, trail);
    }
    ObjectIn(g, caller, WalkedOf(g, root, caller), t);
  }

  lemma OnTrail(E: Edges, root: Ptr, trail: seq<Link>, o: Ptr, l: Link)
    requires Greedy(E, root, trail, o) && l in trail
    ensures l.p in E
  {
    hide Greedy1, Simple;
    var i :| 0 <= i < |trail| && trail[i] == l;
    assert Leads(E, trail[i], Head(trail, i + 1, o));
  }

  // ---- when the stack of the calling thread is walked -----------------------------------------------------

  /** The walk from the registry to p meets a thread before it. */
  predicate Crosses(g: Graph, path: seq<Ptr>) { exists i | 0 <= i < |path| - 1 :: IsThread(g, path[i]) }

  /** The stack is not walked when no way to the calling thread crosses another thread. */
  lemma NotWalked(g: Graph, root: Ptr, caller: Ptr)
    requires forall path :: Way(EdgesWith(g, caller, None), path, root, caller, {}) ==> !Crosses(g, path)
    ensures WalkedOf(g, root, caller) == None
  {
    hide Greedy, HeldOf, EdgesWith, Way, Crosses;
    var E := EdgesWith(g, caller, None);
    if Detour(g, E, root, caller) {
      var trail :| Greedy(E, root, trail, caller) && Passes(g, trail);
      TrailCrosses(g, E, root, trail, caller);
    }
  }

  /** It is walked when the calling thread can be reached and every way to it crosses another. */
  lemma Walked(g: Graph, root: Ptr, caller: Ptr)
    requires Reachable(EdgesWith(g, caller, None), root, caller)
    requires forall path :: Way(EdgesWith(g, caller, None), path, root, caller, {}) ==> Crosses(g, path)
    ensures WalkedOf(g, root, caller).Some?
  {
    hide Greedy, HeldOf, EdgesWith, Way, Crosses;
    var E := EdgesWith(g, caller, None);
    var trail := GreedyExists(E, root, caller);
    TrailCrosses(g, E, root, trail, caller);
  }

  lemma TrailCrosses(g: Graph, E: Edges, root: Ptr, trail: seq<Link>, o: Ptr)
    requires Greedy(E, root, trail, o)
    ensures Way(E, PathFrom(trail, 0, o), root, o, {})
    ensures Crosses(g, PathFrom(trail, 0, o)) <==> Passes(g, trail)
  {
    hide Leads, Step, Simple, Greedy1, PathFrom, Crosses, Passes;
    var path := PathFrom(trail, 0, o);
    forall i | 0 <= i < |path| - 1 ensures Step(E, path[i], path[i + 1]) && path[i] != o {
      LeadsIsStep(E, trail[i], path[i + 1]);
      Apart(trail, i, |trail|, o);
    }
    SameThreads(g, trail, path);
  }

  lemma SameThreads(g: Graph, trail: seq<Link>, path: seq<Ptr>)
    requires |path| == |trail| + 1 && forall i | 0 <= i < |trail| :: path[i] == trail[i].p
    ensures Crosses(g, path) <==> Passes(g, trail)
  {
    hide IsThread;
    if Passes(g, trail) {
      var l :| l in trail && IsThread(g, l.p);
      var i :| 0 <= i < |trail| && trail[i] == l;
      assert IsThread(g, path[i]);
    }
    if Crosses(g, path) {
      var i :| 0 <= i < |path| - 1 && IsThread(g, path[i]);
      assert trail[i] in trail && IsThread(g, trail[i].p);
    }
  }

  // ---- user values -----------------------------------------------------------------------------------

  /** The last edge of the trail is a user value. */
  predicate ThroughUserValue(g: Graph, trail: seq<Link>) {
    trail != [] &&
    (var l := trail[|trail| - 1]; l.p in g && g[l.p].UserdataObject? && l.edge == |MetaEdges(g[l.p].meta)|)
  }

  /** An object that is no table is first met as a user value: mark_table then walks it as a table. */
  ghost predicate Misused(g: Graph, E: Edges, root: Ptr, o: Ptr) {
    !IsTable(g, o) && exists trail :: Greedy(E, root, trail, o) && ThroughUserValue(g, trail)
  }

  /** When the walk is defined. */
  ghost predicate Defined(g: Graph, root: Ptr, caller: Ptr) {
    forall o :: !Misused(g, TrueEdges(g, root, caller), root, o)
  }

  lemma {:induction false} UserValueEdge(g: Graph, caller: Ptr, walked: Option<seq<Value>>, t: Ptr)
    requires t in g && g[t].UserdataObject?
    ensures var n := |MetaEdges(g[t].meta)|;
            var edges := ObjectEdges(g, caller, walked, t);
            |edges| == n + 1 && edges[n] == Edge(g[t].uservalue, "[uservalue]", [])
  {
  }

  /** Without user values that are objects other than tables, the walk is defined. */
  lemma TablesAreDefined(g: Graph, root: Ptr, caller: Ptr)
    requires forall t | t in g && g[t].UserdataObject? && g[t].uservalue.Ref? :: IsTable(g, g[t].uservalue.p)
    ensures Defined(g, root, caller)
  {
    hide Greedy1, Simple, ObjectEdges, MetaEdges;
    var E, w := TrueEdges(g, root, caller), WalkedOf(g, root, caller);
    forall o: Ptr, trail: seq<Link> | Greedy(E, root, trail, o) && ThroughUserValue(g, trail)
      ensures IsTable(g, o) {
      var l := trail[|trail| - 1];
      UserValueEdge(g, caller, w, l.p);
      assert Leads(E, l, Head(trail, |trail|, o));
    }
  }

  // ---- two graphs ----------------------------------------------------------------------------------------

  function Registry(value: Value): Object { TableObject(None, "", [Pair(Plain, "[1]", value)]) }

  lemma RegistryEdges(g: Graph, caller: Ptr, walked: Option<seq<Value>>, t: Ptr, value: Value)
    requires t in g && g[t] == Registry(value)
    ensures ObjectEdges(g, caller, walked, t) == [Edge(value, "[1]", [Plain]), Edge(Plain, "[key]", [Plain])]
  {
    var pairs := g[t].pairs;
    assert pairs[..0] == [];
    assert PairsEdges(false, false, pairs) == PairsEdges(false, false, []) + PairEdges(false, false, pairs[0]);
  }

  /** A trail of first edges passes nothing over. */
  lemma FirstEdgesGreedy(E: Edges, root: Ptr, a: Ptr, b: Ptr)
    requires root != a && root != b && a != b
    requires Leads(E, Link(root, 0), a) && Leads(E, Link(a, 0), b)
    ensures Greedy(E, root, [Link(root, 0), Link(a, 0)], b)
  {
    hide Blocked, Heads;
  }

  /** The registry holds a thread whose stack holds the calling thread. */
  function CallerBehind(): Graph {
    map[0 := Registry(Ref(1)),
        1 := ThreadObject([Ref(2)], []),
        2 := ThreadObject([Ref(3)], []),
        3 := Registry(Plain)]
  }

  lemma CallerBehindEdges(walked: Option<seq<Value>>)
    ensures var E := EdgesWith(CallerBehind(), 2, walked);
            && Leads(E, Link(0, 0), 1) && Leads(E, Link(1, 0), 2)
            && (walked.Some? ==> Leads(E, Link(2, 0), 3))
  {
    hide PairsEdges, MetaEdges, FrameEdges;
    var g := CallerBehind();
    RegistryEdges(g, 2, walked, 0, Ref(1));
    assert ObjectEdges(g, 2, walked, 1)[0].value == Ref(2);
    if walked.Some? {
      assert ObjectEdges(g, 2, walked, 2)[0].value == Ref(3);
    }
  }

  /** There the stack of the calling thread is walked, and what it holds is reachable. */
  lemma CallerBehindWalked()
    ensures WellFormed(CallerBehind()) && WalkedOf(CallerBehind(), 0, 2).Some?
    ensures Reachable(TrueEdges(CallerBehind(), 0, 2), 0, 3)
  {
    hide Greedy, EdgesWith, Leads, HeldOf;
    var g := CallerBehind();
    CallerBehindEdges(None);
    var trail := [Link(0, 0), Link(1, 0)];
    FirstEdgesGreedy(EdgesWith(g, 2, None), 0, 1, 2);
    assert trail[1] in trail && IsThread(g, trail[1].p);
    assert Detour(g, EdgesWith(g, 2, None), 0, 2);
    var E := TrueEdges(g, 0, 2);
    CallerBehindEdges(WalkedOf(g, 0, 2));
    LeadsIsStep(E, Link(0, 0), 1);
    LeadsIsStep(E, Link(1, 0), 2);
    LeadsIsStep(E, Link(2, 0), 3);
    assert Joins(E, [0, 1, 2, 3], 0, 3);
  }

  /** The registry holds a userdata whose user value is a function. */
  function FunctionAsUserValue(): Graph {
    map[0 := Registry(Ref(1)),
        1 := UserdataObject(None, Ref(2)),
        2 := FunctionObject([Named(Plain, "x")]),
        3 := ThreadObject([], [])]
  }

  /** There the walk is not defined. */
  lemma FunctionIsMisused()
    ensures WellFormed(FunctionAsUserValue()) && !Defined(FunctionAsUserValue(), 0, 3)
  {
    hide Greedy, EdgesWith, WalkedOf, Leads, ThroughUserValue;
    var g := FunctionAsUserValue();
    var E := TrueEdges(g, 0, 3);
    FunctionEdges(WalkedOf(g, 0, 3));
    FirstEdgesGreedy(E, 0, 1, 2);
    assert Misused(g, E, 0, 2);
  }

  lemma FunctionEdges(walked: Option<seq<Value>>)
    ensures var E := EdgesWith(FunctionAsUserValue(), 3, walked);
            Leads(E, Link(0, 0), 1) && Leads(E, Link(1, 0), 2)
    ensures ThroughUserValue(FunctionAsUserValue(), [Link(0, 0), Link(1, 0)])
  {
    hide PairsEdges;
    var g := FunctionAsUserValue();
    RegistryEdges(g, 3, walked, 0, Ref(1));
    UserValueEdge(g, 3, walked, 1);
  }
}
