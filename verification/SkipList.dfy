/** The skip list of lua-zset: nodes whose links, spans and back pointers are rewritten
    in place, refining a sorted sequence of elements. */
module SkipList {
  import opened Common
  import opened ZsetOrder
  import opened ZsetSpec
  import opened SkipTable

  /** The rows of cells of the given nodes. */
  ghost function Rows(nodes: seq<Node>): (g: Table)
    reads nodes`level
    ensures |g| == |nodes| && forall p | 0 <= p < |g| :: g[p] == nodes[p].level
  {
    if nodes == [] then [] else Rows(nodes[..|nodes| - 1]) + [nodes[|nodes| - 1].level]
  }

  /** The header comes first and has no element; every other node has one. */
  ghost predicate HeaderFirst(nodes: seq<Node>) {
    |nodes| > 0 && nodes[0].obj.None? && forall p | 0 < p < |nodes| :: nodes[p].obj.Some?
  }

  ghost function ElementOf(n: Node): Element
    requires n.obj.Some?
  {
    Element(n.score, n.obj.value)
  }

  /** The abstract value: the elements in level-0 order. */
  ghost function ElementsOf(nodes: seq<Node>): (s: seq<Element>)
    requires HeaderFirst(nodes)
    ensures |s| == |nodes| - 1
    ensures forall p | 0 <= p < |s| :: s[p] == ElementOf(nodes[p + 1])
  {
    seq(|nodes| - 1, p requires 0 <= p < |nodes| - 1 => ElementOf(nodes[p + 1]))
  }

  /** `backward` reverses level 0, without the header. */
  ghost predicate BackLinks(nodes: seq<Node>)
    reads nodes`backward
  {
    forall p | 0 < p < |nodes| :: nodes[p].backward == if p == 1 then null else nodes[p - 1]
  }

  class SkipList {
    const header: Node
    var tail: Node?
    var length: nat
    var level: nat
    ghost var nodes: seq<Node>

    /** The structural invariant. */
    ghost predicate Linked0()
      reads this, nodes
    {
      && HeaderFirst(nodes) && nodes[0] == header && DistinctNodes(nodes)
      && Shape(Rows(nodes), level)
      && Links(nodes, Rows(nodes), level)
    }

    /** The invariant, with a level that may be too high. */
    ghost predicate Ordered()
      reads this, nodes
    {
      && Linked0()
      && header.backward == null
      && BackLinks(nodes)
      && tail == (if |nodes| == 1 then null else nodes[|nodes| - 1])
      && length == |nodes| - 1
      && Sorted(ElementsOf(nodes))
    }

    ghost predicate Valid()
      reads this, nodes
    {
      Ordered() && LevelExact(Rows(nodes), level)
    }

    ghost function Elements(): seq<Element>
      requires HeaderFirst(nodes)
      reads this
    {
      ElementsOf(nodes)
    }

    /** slCreate */
    constructor ()
      ensures Valid() && Elements() == []
      ensures forall n | n in nodes :: fresh(n)
    {
      header := new Node(MAX_LEVEL, 0.0, None);
      tail, length, level := null, 0, 1;
      new;
      header.level := seq(MAX_LEVEL, _ => Cell(null, 0));
      header.backward := null;
      nodes := [header];
    }

    /** What a link of the current list means. */
    lemma LinkMeaning(p: nat, i: nat)
      requires Linked0() && p < |nodes| && i < |nodes[p].level| && i < level
      ensures Linked(nodes, Rows(nodes), p, i)
      ensures var c := nodes[p].level[i];
              c.forward != null ==> && p < p + c.span < |nodes| && c.forward == nodes[p + c.span]
                                    && i < |c.forward.level| && c.forward.obj.Some?
    {
      assert Linked(nodes, Rows(nodes), p, i);
    }

    /** The search may go on past `f`. */
    predicate Passes(f: Node?, w: Walk) {
      f != null && f.obj.Some? && w.Passes(Element(f.score, f.obj.value))
    }

    /** A search that passes the next node stays before the cut. */
    lemma StepStays(r: nat, i: nat, w: Walk)
      requires Valid() && r < |nodes| && i < |nodes[r].level| && i < level
      requires Passes(nodes[r].level[i].forward, w)
      ensures var c := nodes[r].level[i];
              && c.forward != null
              && r < r + c.span <= Cut(Elements(), w) && c.forward == nodes[r + c.span]
              && i < |c.forward.level|
    {
      hide Sorted, Links, Shape, LevelExact, DistinctNodes, BackLinks, Walk.Passes, Cut;
      LinkMeaning(r, i);
      CutSplits(Elements(), w);
      var c := nodes[r].level[i];
      assert Elements()[r + c.span - 1] == ElementOf(c.forward);
    }

    /** A search that stops has reached the last tall node before the cut. */
    lemma StopIsLast(r: nat, i: nat, w: Walk)
      requires Valid() && r <= Cut(Elements(), w) && i < |nodes[r].level| && i < level
      requires !Passes(nodes[r].level[i].forward, w)
      ensures LastTall(Rows(nodes), Cut(Elements(), w), i, r)
    {
      hide Sorted, Links, Shape, LevelExact, DistinctNodes, BackLinks, Walk.Passes, Cut;
      LinkMeaning(r, i);
      var c := nodes[r].level[i];
      if c.forward != null {
        assert Elements()[r + c.span - 1] == ElementOf(c.forward);
      }
    }

    /** A search path for the levels from `low` on. */
    ghost predicate PathFrom(update: seq<Node>, rank: seq<int>, R: int, low: int)
      reads this, nodes
    {
      && |update| == |rank|
      && forall j | 0 <= j < |rank| ::
           LastTall(Rows(nodes), R, low + j, rank[j]) && update[j] == nodes[rank[j]]
    }

    lemma PathEmpty(R: int, low: int)
      ensures PathFrom([], [], R, low)
    {
    }

    lemma PathExtends(update: seq<Node>, rank: seq<int>, R: int, low: int, x: Node, r: int)
      requires PathFrom(update, rank, R, low + 1) && LastTall(Rows(nodes), R, low, r) && x == nodes[r]
      ensures PathFrom([x] + update, [r] + rank, R, low)
    {
    }

    lemma PathComplete(update: seq<Node>, rank: seq<int>, R: int)
      requires Valid() && PathFrom(update, rank, R, 0) && rank != []
      ensures Path(nodes, Rows(nodes), update, rank, R) && rank[0] == R
    {
      assert LastTall(Rows(nodes), R, 0 + 0, rank[0]);
      assert |Rows(nodes)[R]| >= 1;
    }

    lemma HeaderFacts()
      requires Valid()
      ensures HeaderFirst(nodes) && |Elements()| == |nodes| - 1
      ensures nodes[0] == header && 1 <= level <= MAX_LEVEL == |header.level|
    {
    }

    /** The search of slInsert and slDelete: on every level, the last node before the
        key and its rank. */
    method Descend(w: Walk) returns (update: seq<Node>, rank: seq<int>)
      requires Valid()
      ensures |update| == |rank| == level
      ensures Path(nodes, Rows(nodes), update, rank, Cut(Elements(), w))
      ensures rank != [] && rank[0] == Cut(Elements(), w)
    {
      hide *;
      HeaderFacts();
      update, rank := [], [];
      PathEmpty(Cut(Elements(), w), level);
      ghost var R := Cut(Elements(), w);
      var x: Node, r: nat, i: nat := header, 0, level;
      while i > 0
        invariant i <= level && |rank| == level - i
        invariant r <= R && nodes[r] == x && |x.level| >= i
        invariant PathFrom(update, rank, R, i)
        invariant i < level ==> rank[0] == r && LastTall(Rows(nodes), R, i, r)
      {
        i := i - 1;
        while Passes(x.level[i].forward, w)
          invariant r <= R && nodes[r] == x && i < |x.level|
          decreases |nodes| - r
        {
          StepStays(r, i, w);
          r, x := r + x.level[i].span, x.level[i].forward;
        }
        StopIsLast(r, i, w);
        PathExtends(update, rank, R, i, x, r);
        update, rank := [x] + update, [r] + rank;
      }
      PathComplete(update, rank, R);
    }

    /** Writes one cell of the node at position `r`. */
    method SetCell(ghost r: nat, n: Node, i: nat, c: Cell)
      requires DistinctNodes(nodes) && r < |nodes| && nodes[r] == n && i < |n.level|
      modifies n`level
      ensures Rows(nodes) == old(Rows(nodes))[r := old(n.level)[i := c]]
      ensures n.level == old(n.level)[i := c]
    {
      n.level := n.level[i := c];
      assert Rows(nodes) == old(Rows(nodes))[r := old(n.level)[i := c]];
    }

    /** One turn of the first linking loop of slInsert: `x` takes over the link of
        `u`, the last node before it on level `i`, which now leads to `x`. */
    method LinkLevel(ghost g: Table, rank: seq<int>, u: Node, x: Node, i: nat)
      requires DistinctNodes(nodes) && x !in nodes && i < |rank| && i < |x.level|
      requires LastTall(g, rank[0], i, rank[i]) && |nodes| == |g| && nodes[rank[i]] == u
      requires NewRow(g, x.level, rank, rank[0], i)
      requires InsertProgress(g, Rows(nodes), rank, x, rank[0], |x.level|, i)
      modifies x`level, u`level
      ensures |x.level| == old(|x.level|)
      ensures NewRow(g, x.level, rank, rank[0], i + 1)
      ensures InsertProgress(g, Rows(nodes), rank, x, rank[0], |x.level|, i + 1)
    {
      hide LastTall, DistinctNodes, InsertProgress;
      TallCell(g, rank[0], i, rank[i]);
      InsertProgressStep(g, Rows(nodes), rank, x, rank[0], |x.level|, i);
      var c := u.level[i];
      x.level := x.level[i := Cell(c.forward, c.span - (rank[0] - rank[i]))];
      assert Rows(nodes) == old(Rows(nodes));
      SetCell(rank[i], u, i, Cell(x, rank[0] - rank[i] + 1));
    }

    /** One turn of the second linking loop of slInsert: a link that passes over the new
        node spans one more. */
    method BumpLevel(ghost g: Table, rank: seq<int>, u: Node, ghost x: Node, ghost L: int, i: nat)
      requires DistinctNodes(nodes) && L <= i < |rank|
      requires LastTall(g, rank[0], i, rank[i]) && |nodes| == |g| && nodes[rank[i]] == u
      requires InsertProgress(g, Rows(nodes), rank, x, rank[0], L, i)
      modifies u`level
      ensures InsertProgress(g, Rows(nodes), rank, x, rank[0], L, i + 1)
    {
      hide LastTall, DistinctNodes, InsertProgress;
      TallCell(g, rank[0], i, rank[i]);
      InsertProgressStep(g, Rows(nodes), rank, x, rank[0], L, i);
      SetCell(rank[i], u, i, Cell(u.level[i].forward, u.level[i].span + 1));
    }

    /** The first linking loop of slInsert. */
    method LinkLevels(ghost g: Table, update: seq<Node>, rank: seq<int>, x: Node)
      requires DistinctNodes(nodes) && x !in nodes && 1 <= |x.level| <= |rank|
      requires g == Rows(nodes) && Path(nodes, g, update, rank, rank[0])
      modifies x`level, nodes`level
      ensures |x.level| == old(|x.level|)
      ensures NewRow(g, x.level, rank, rank[0], |x.level|)
      ensures InsertProgress(g, Rows(nodes), rank, x, rank[0], |x.level|, |x.level|)
    {
      hide *;
      var L, i := |x.level|, 0;
      InsertStart(g, rank, x, rank[0], L, x.level);
      while i < L
        invariant i <= L == |x.level|
        invariant NewRow(g, x.level, rank, rank[0], i)
        invariant InsertProgress(g, Rows(nodes), rank, x, rank[0], L, i)
      {
        PathAt(nodes, g, update, rank, rank[0], i);
        LinkLevel(g, rank, update[i], x, i);
        i := i + 1;
      }
    }

    /** The second linking loop of slInsert. */
    method BumpLevels(ghost g: Table, update: seq<Node>, rank: seq<int>, ghost x: Node, L: nat)
      requires DistinctNodes(nodes) && 1 <= L <= |rank|
      requires Path(nodes, g, update, rank, rank[0])
      requires InsertProgress(g, Rows(nodes), rank, x, rank[0], L, L)
      modifies nodes`level
      ensures InsertProgress(g, Rows(nodes), rank, x, rank[0], L, |rank|)
    {
      hide *;
      var i := L;
      while i < |rank|
        invariant L <= i <= |rank|
        invariant InsertProgress(g, Rows(nodes), rank, x, rank[0], L, i)
      {
        PathAt(nodes, g, update, rank, rank[0], i);
        BumpLevel(g, rank, update[i], x, L, i);
        i := i + 1;
      }
    }

    lemma StructureFacts()
      requires Linked0()
      ensures DistinctNodes(nodes) && Shape(Rows(nodes), level) && Links(nodes, Rows(nodes), level)
      ensures HeaderFirst(nodes) && nodes[0] == header && |header.level| == MAX_LEVEL
    {
    }

    lemma StructureHolds()
      requires HeaderFirst(nodes) && nodes[0] == header && DistinctNodes(nodes)
      requires Shape(Rows(nodes), level) && Links(nodes, Rows(nodes), level)
      ensures Linked0()
    {
    }

    lemma OrderedFacts()
      requires Ordered()
      ensures Linked0() && header.backward == null && BackLinks(nodes)
      ensures tail == (if |nodes| == 1 then null else nodes[|nodes| - 1]) && length == |nodes| - 1
      ensures HeaderFirst(nodes) && Elements() == ElementsOf(nodes) && Sorted(ElementsOf(nodes))
    {
    }

    lemma OrderedHolds()
      requires Linked0() && header.backward == null && BackLinks(nodes)
      requires tail == (if |nodes| == 1 then null else nodes[|nodes| - 1]) && length == |nodes| - 1
      requires HeaderFirst(nodes) && Sorted(ElementsOf(nodes))
      ensures Ordered() && Elements() == ElementsOf(nodes)
    {
    }

    lemma ValidFacts()
      requires Valid()
      ensures Ordered() && HeaderFirst(nodes) && LevelExact(Rows(nodes), level) && header in nodes
    {
    }

    /** slInsert, when the new node is taller than the list: the header's links on the new
        levels span the whole list. */
    method Raise(update0: seq<Node>, rank0: seq<int>, lv: nat) returns (update: seq<Node>, rank: seq<int>)
      requires Ordered() && level < lv <= MAX_LEVEL
      requires rank0 != [] && |rank0| == level && Path(nodes, Rows(nodes), update0, rank0, rank0[0])
      modifies `level, header`level
      ensures level == lv && Ordered()
      ensures |rank| == lv && rank[0] == rank0[0] && Path(nodes, Rows(nodes), update, rank, rank[0])
    {
      hide *;
      OrderedFacts();
      StructureFacts();
      ghost var g, R := Rows(nodes), rank0[0];
      PathAt(nodes, g, update0, rank0, R, 0);
      var low, i := level, level;
      RaisedNothing(g, low, length);
      update, rank := update0, rank0;
      while i < lv
        invariant low <= i <= lv && |rank| == i && rank[0] == R
        invariant Raised(g, Rows(nodes), low, i, length)
        invariant Path(nodes, g, update, rank, R)
        invariant |header.level| == MAX_LEVEL
      {
        PathRaised(nodes, g, update, rank, R, low);
        update, rank := update + [header], rank + [0];
        RaisedStep(g, Rows(nodes), low, i, length);
        SetCell(0, header, i, Cell(header.level[i].forward, length));
        i := i + 1;
      }
      RaisedKeepsLinks(nodes, g, Rows(nodes), low, lv);
      RaisedKeepsPath(nodes, g, Rows(nodes), update, rank, R, low, lv, length);
      level := lv;
      StructureHolds();
      OrderedHolds();
    }

    /** The back pointers of slInsert. */
    method LinkBack(ghost R: nat, u: Node, x: Node)
      requires R < |nodes| && nodes[R] == u && x !in nodes
      requires HeaderFirst(nodes) && nodes[0] == header && DistinctNodes(nodes) && BackLinks(nodes)
      requires tail == (if |nodes| == 1 then null else nodes[|nodes| - 1])
      requires x.level != [] && x.level[0].forward == if R + 1 < |nodes| then nodes[R + 1] else null
      modifies `tail, x`backward, nodes`backward
      ensures BackLinks(InsertAt(nodes, R + 1, x))
      ensures tail == InsertAt(nodes, R + 1, x)[|nodes|]
      ensures header.backward == old(header.backward)
    {
      hide HeaderFirst;
      x.backward := if u == header then null else u;
      var f := x.level[0].forward;
      if f != null {
        f.backward := x;
      } else {
        tail := x;
      }
    }

    /** The node list with a new element is in order and has distinct nodes. */
    static lemma NodesAfterInsert(nodes: seq<Node>, x: Node, e: Element)
      requires HeaderFirst(nodes) && DistinctNodes(nodes) && Sorted(ElementsOf(nodes))
      requires x !in nodes && x.obj == Some(e.member) && x.score == e.score
      ensures var nodes' := InsertAt(nodes, Cut(ElementsOf(nodes), Before(e)) + 1, x);
              && HeaderFirst(nodes') && DistinctNodes(nodes') && nodes'[0] == nodes[0]
              && ElementsOf(nodes') == Inserted(ElementsOf(nodes), e)
              && Sorted(ElementsOf(nodes'))
    {
      hide Sorted, Cut, Precedes, HeaderFirst, DistinctNodes, ElementsOf;
      InsertedKeepsOrder(ElementsOf(nodes), e);
      var R := Cut(ElementsOf(nodes), Before(e));
      HeaderAfterInsert(nodes, x, R);
      DistinctAfterInsert(nodes, x, R);
      ElementsAfterInsert(nodes, x, R, e);
    }

    static lemma HeaderAfterInsert(nodes: seq<Node>, x: Node, R: nat)
      requires HeaderFirst(nodes) && R < |nodes| && x.obj.Some?
      ensures HeaderFirst(InsertAt(nodes, R + 1, x)) && InsertAt(nodes, R + 1, x)[0] == nodes[0]
    {
    }

    static lemma DistinctAfterInsert(nodes: seq<Node>, x: Node, R: nat)
      requires DistinctNodes(nodes) && R < |nodes| && x !in nodes
      ensures DistinctNodes(InsertAt(nodes, R + 1, x))
    {
    }

    static lemma ElementsAfterInsert(nodes: seq<Node>, x: Node, R: nat, e: Element)
      requires HeaderFirst(nodes) && R < |nodes| && x.obj == Some(e.member) && x.score == e.score
      ensures HeaderFirst(InsertAt(nodes, R + 1, x))
      ensures ElementsOf(InsertAt(nodes, R + 1, x)) == InsertAt(ElementsOf(nodes), R, e)
    {
      HeaderAfterInsert(nodes, x, R);
      var t, s := ElementsOf(InsertAt(nodes, R + 1, x)), ElementsOf(nodes);
      forall p | 0 <= p < |t| ensures t[p] == InsertAt(s, R, e)[p] {
      }
    }

    /** The rows of the list with the new node. */
    static lemma RowsAfterInsert(nodes: seq<Node>, x: Node, R: nat)
      requires R < |nodes|
      ensures Rows(InsertAt(nodes, R + 1, x)) == InsertAt(Rows(nodes), R + 1, x.level)
    {
      hide Rows;
      var a, b := Rows(InsertAt(nodes, R + 1, x)), InsertAt(Rows(nodes), R + 1, x.level);
      forall i | 0 <= i < |a| ensures a[i] == b[i] {
        assert a[i] == InsertAt(nodes, R + 1, x)[i].level;
      }
      assert a == b;
    }

    /** The part of slInsert after the search: the new node is linked in. */
    method Place(e: Element, lv: nat, update: seq<Node>, rank: seq<int>)
      requires Ordered() && 1 <= lv <= level && (lv < level ==> LevelExact(Rows(nodes), level))
      requires |rank| == level && rank[0] == Cut(Elements(), Before(e))
      requires Path(nodes, Rows(nodes), update, rank, rank[0])
      modifies this, nodes
      ensures Ordered() && LevelExact(Rows(nodes), level)
      ensures Elements() == Inserted(old(Elements()), e)
      ensures forall n | n in nodes :: n in old(nodes) || fresh(n)
    {
      hide *;
      OrderedFacts();
      StructureFacts();
      ghost var g, R := Rows(nodes), rank[0];
      PathAt(nodes, g, update, rank, R, 0);
      var x := new Node(lv, e.score, Some(e.member));
      LinkIn(update, rank, x);
      LinkBack(R, update[0], x);
      Finish(e, R, x);
    }

    /** Both linking loops of slInsert. */
    method LinkIn(update: seq<Node>, rank: seq<int>, x: Node)
      requires DistinctNodes(nodes) && x !in nodes && 1 <= |x.level| <= |rank| == level
      requires |x.level| < level ==> LevelExact(Rows(nodes), level)
      requires Shape(Rows(nodes), level) && Links(nodes, Rows(nodes), level)
      requires Path(nodes, Rows(nodes), update, rank, rank[0])
      modifies x`level, nodes`level
      ensures 0 <= rank[0] < |nodes|
      ensures var g' := InsertAt(Rows(nodes), rank[0] + 1, x.level);
              && Shape(g', level) && LevelExact(g', level)
              && Links(InsertAt(nodes, rank[0] + 1, x), g', level)
      ensures x.level != []
           && x.level[0].forward == if rank[0] + 1 < |nodes| then nodes[rank[0] + 1] else null
    {
      hide *;
      ghost var g := Rows(nodes);
      LinkLevels(g, update, rank, x);
      BumpLevels(g, update, rank, x, |x.level|);
      TableAfterInsert(nodes, g, Rows(nodes), x.level, update, rank, x, rank[0]);
    }

    /** The bookkeeping at the end of slInsert. */
    method Finish(ghost e: Element, ghost R: nat, ghost x: Node)
      requires R < |nodes| && x !in nodes && x.obj == Some(e.member) && x.score == e.score
      requires HeaderFirst(nodes) && nodes[0] == header && DistinctNodes(nodes)
      requires Sorted(ElementsOf(nodes)) && R == Cut(ElementsOf(nodes), Before(e))
      requires var g' := InsertAt(Rows(nodes), R + 1, x.level);
               Shape(g', level) && LevelExact(g', level) && Links(InsertAt(nodes, R + 1, x), g', level)
      requires BackLinks(InsertAt(nodes, R + 1, x)) && header.backward == null
      requires tail == InsertAt(nodes, R + 1, x)[|nodes|] && length == |nodes| - 1
      modifies `length, `nodes
      ensures Ordered() && LevelExact(Rows(nodes), level)
      ensures Elements() == Inserted(ElementsOf(old(nodes)), e)
      ensures forall n | n in nodes :: n in old(nodes) || n == x
    {
      hide *;
      InsertAtMembers(nodes, R + 1, x);
      NodesAfterInsert(nodes, x, e);
      RowsAfterInsert(nodes, x, R);
      length := length + 1;
      nodes := InsertAt(nodes, R + 1, x);
      StructureHolds();
      OrderedHolds();
    }

    /** slInsert: `lv` is the height the random source chose. */
    method Insert(e: Element, lv: nat)
      requires Valid() && 1 <= lv <= MAX_LEVEL
      modifies this, nodes
      ensures Valid()
      ensures Elements() == Inserted(old(Elements()), e)
      ensures forall n | n in nodes :: n in old(nodes) || fresh(n)
    {
      hide Ordered, LevelExact, Path, Cut, HeaderFirst, ElementsOf, Inserted;
      ValidFacts();
      var update, rank := Descend(Before(e));
      if lv > level {
        update, rank := Raise(update, rank, lv);
      }
      Place(e, lv, update, rank);
    }

    /** One turn of the loop of slDeleteNode: the link that led to `x` takes over its
        link; a link that passed over it spans one less. */
    method UnlinkLevel(ghost g: Table, ghost rank: seq<int>, ghost d: nat, u: Node, x: Node, i: nat)
      requires DistinctNodes(nodes) && i < |rank| && |nodes| == |g| && 0 < d < |g| && nodes[d] == x
      requires LastTall(g, d - 1, i, rank[i]) && nodes[rank[i]] == u && Linked(nodes, g, rank[i], i)
      requires RemoveProgress(nodes, g, Rows(nodes), rank, d, i)
      modifies u`level
      ensures RemoveProgress(nodes, g, Rows(nodes), rank, d, i + 1)
    {
      hide LastTall, DistinctNodes, RemoveProgress, Linked;
      RemoveProgressStep(nodes, g, Rows(nodes), rank, d, i);
      var c := u.level[i];
      if c.forward == x {
        SetCell(rank[i], u, i, Cell(x.level[i].forward, c.span + x.level[i].span - 1));
      } else {
        SetCell(rank[i], u, i, Cell(c.forward, c.span - 1));
      }
    }

    /** The loop of slDeleteNode. */
    method UnlinkLevels(ghost g: Table, update: seq<Node>, ghost rank: seq<int>, ghost d: nat, x: Node)
      requires DistinctNodes(nodes) && |rank| == level && 0 < d < |nodes| && nodes[d] == x
      requires g == Rows(nodes) && Path(nodes, g, update, rank, d - 1) && Links(nodes, g, level)
      modifies nodes`level
      ensures RemoveProgress(nodes, g, Rows(nodes), rank, d, |rank|)
    {
      hide *;
      var i := 0;
      RemoveStart(nodes, g, rank, d);
      while i < level
        invariant i <= level
        invariant RemoveProgress(nodes, g, Rows(nodes), rank, d, i)
      {
        PathAt(nodes, g, update, rank, d - 1, i);
        LinkAt(nodes, g, level, rank[i], i, d - 1);
        UnlinkLevel(g, rank, d, update[i], x, i);
        i := i + 1;
      }
    }

    /** The loop at the end of slDeleteNode that drops empty levels. */
    method Lower()
      requires HeaderFirst(nodes) && nodes[0] == header
      requires Shape(Rows(nodes), level) && Links(nodes, Rows(nodes), level)
      modifies `level
      ensures level <= old(level)
      ensures Shape(Rows(nodes), level) && Links(nodes, Rows(nodes), level) && LevelExact(Rows(nodes), level)
    {
      hide Links, LevelExact, Rows, HeaderFirst;
      while level > 1 && header.level[level - 1].forward == null
        invariant level <= old(level)
        invariant Shape(Rows(nodes), level) && Links(nodes, Rows(nodes), level)
        decreases level
      {
        LowerLevel(nodes, Rows(nodes), level);
        level := level - 1;
      }
      TopInUse(nodes, Rows(nodes), level);
    }

    /** The back pointers of slDeleteNode. */
    method UnlinkBack(ghost d: nat, x: Node)
      requires 0 < d < |nodes| && nodes[d] == x
      requires HeaderFirst(nodes) && nodes[0] == header && DistinctNodes(nodes) && BackLinks(nodes)
      requires tail == nodes[|nodes| - 1]
      requires x.level != [] && x.level[0].forward == if d + 1 < |nodes| then nodes[d + 1] else null
      modifies `tail, nodes`backward
      ensures BackLinks(RemoveAt(nodes, d))
      ensures tail == if |nodes| == 2 then null else RemoveAt(nodes, d)[|nodes| - 2]
      ensures header.backward == old(header.backward)
    {
      hide HeaderFirst;
      var f := x.level[0].forward;
      if f != null {
        f.backward := x.backward;
      } else {
        tail := x.backward;
      }
    }

    /** The node list without one element. */
    static lemma NodesAfterRemove(nodes: seq<Node>, d: nat)
      requires HeaderFirst(nodes) && DistinctNodes(nodes) && Sorted(ElementsOf(nodes)) && 0 < d < |nodes|
      ensures var nodes' := RemoveAt(nodes, d);
              && HeaderFirst(nodes') && DistinctNodes(nodes') && nodes'[0] == nodes[0]
              && ElementsOf(nodes') == RemoveAt(ElementsOf(nodes), d - 1)
              && Sorted(ElementsOf(nodes'))
              && forall n | n in nodes' :: n in nodes
    {
      hide Sorted;
      SplicedSorted(ElementsOf(nodes), d - 1, d);
      assert ElementsOf(RemoveAt(nodes, d)) == RemoveAt(ElementsOf(nodes), d - 1);
    }

    static lemma RowsAfterRemove(nodes: seq<Node>, d: nat)
      requires d < |nodes|
      ensures Rows(RemoveAt(nodes, d)) == RemoveAt(Rows(nodes), d)
    {
      hide Rows;
      var a, b := Rows(RemoveAt(nodes, d)), RemoveAt(Rows(nodes), d);
      forall i | 0 <= i < |a| ensures a[i] == b[i] {
        assert a[i] == RemoveAt(nodes, d)[i].level;
      }
      assert a == b;
    }

    /** The links part of slDeleteNode, with the search path it leaves usable. */
    method Unlink(ghost d: nat, x: Node, update: seq<Node>, ghost rank: seq<int>)
      requires DistinctNodes(nodes) && 0 < d < |nodes| && nodes[d] == x
      requires Shape(Rows(nodes), level) && Links(nodes, Rows(nodes), level)
      requires level <= |rank| && Path(nodes, Rows(nodes), update, rank, d - 1)
      modifies nodes`level
      ensures Shape(RemoveAt(Rows(nodes), d), level)
      ensures Links(RemoveAt(nodes, d), RemoveAt(Rows(nodes), d), level)
      ensures Path(RemoveAt(nodes, d), RemoveAt(Rows(nodes), d), update, rank, d - 1)
      ensures x.level == old(x.level)
    {
      hide *;
      ghost var g := Rows(nodes);
      PathPrefix(nodes, g, update, rank, d - 1, level);
      UnlinkLevels(g, update[..level], rank[..level], d, x);
      TableAfterRemove(nodes, g, Rows(nodes), update[..level], rank[..level], d);
      PathAfterRemove(nodes, g, RemoveAt(Rows(nodes), d), update, rank, d);
      RemovedRowKept(nodes, g, Rows(nodes), update[..level], rank[..level], d);
    }

    /** slDeleteNode: `x` is at position `d`, and `update` holds the last node before it on
        every level. The same path stays usable for the node that follows. */
    method DeleteNode(ghost d: nat, x: Node, update: seq<Node>, ghost rank: seq<int>)
      requires Valid() && 0 < d < |nodes| && nodes[d] == x
      requires level <= |rank| && Path(nodes, Rows(nodes), update, rank, d - 1)
      modifies this, nodes
      ensures Valid() && nodes == RemoveAt(old(nodes), d) && level <= old(level)
      ensures Elements() == RemoveAt(old(Elements()), d - 1)
      ensures Path(nodes, Rows(nodes), update, rank, d - 1)
      ensures forall n | n in nodes :: n in old(nodes)
    {
      hide *;
      ValidFacts();
      OrderedFacts();
      StructureFacts();
      LevelZero(nodes, Rows(nodes), level, d);
      Unlink(d, x, update, rank);
      UnlinkBack(d, x);
      Drop(d);
    }

    /** The end of slDeleteNode: empty levels go, and the count goes down. */
    method Drop(ghost d: nat)
      requires HeaderFirst(nodes) && nodes[0] == header && DistinctNodes(nodes) && Sorted(ElementsOf(nodes))
      requires 0 < d < |nodes| && length == |nodes| - 1
      requires Shape(RemoveAt(Rows(nodes), d), level)
      requires Links(RemoveAt(nodes, d), RemoveAt(Rows(nodes), d), level)
      requires header.backward == null && BackLinks(RemoveAt(nodes, d))
      requires tail == if |nodes| == 2 then null else RemoveAt(nodes, d)[|nodes| - 2]
      modifies `level, `length, `nodes
      ensures Valid() && level <= old(level)
      ensures nodes == RemoveAt(old(nodes), d) && Rows(nodes) == RemoveAt(old(Rows(nodes)), d)
      ensures Elements() == RemoveAt(ElementsOf(old(nodes)), d - 1)
      ensures forall n | n in nodes :: n in old(nodes)
    {
      hide *;
      NodesAfterRemove(nodes, d);
      RowsAfterRemove(nodes, d);
      nodes := RemoveAt(nodes, d);
      Lower();
      length := length - 1;
      StructureHolds();
      OrderedHolds();
      ValidFromOrdered();
    }

    lemma ValidFromOrdered()
      requires Ordered() && LevelExact(Rows(nodes), level)
      ensures Valid()
    {
    }

    lemma CutInside(w: Walk)
      requires Valid()
      ensures HeaderFirst(nodes) && Cut(Elements(), w) < |nodes| == |Elements()| + 1
      ensures 1 <= level <= MAX_LEVEL && nodes[0] == header && |header.level| == MAX_LEVEL
    {
    }

    /** What the successor of the search path is. */
    lemma Successor(R: nat)
      requires Valid() && R < |nodes|
      ensures nodes[R].level != []
      ensures nodes[R].level[0].forward == if R + 1 < |nodes| then nodes[R + 1] else null
      ensures R + 1 < |nodes| ==> HeaderFirst(nodes) && nodes[R + 1].obj.Some?
                                  && Elements()[R] == Element(nodes[R + 1].score, nodes[R + 1].obj.value)
    {
      hide Links, Sorted, LevelExact;
      LevelZero(nodes, Rows(nodes), level, R);
    }

    /** slDelete */
    method Delete(e: Element) returns (found: bool)
      requires Valid()
      modifies this, nodes
      ensures Valid() && found == Holds(old(Elements()), e)
      ensures Elements() == Deleted(old(Elements()), e)
      ensures forall n | n in nodes :: n in old(nodes)
    {
      hide Valid, Path, Cut, HeaderFirst, ElementsOf, RemoveAt, CompareObj;
      CutInside(Before(e));
      var update, rank := Descend(Before(e));
      ghost var R := rank[0];
      PathAt(nodes, Rows(nodes), update, rank, R, 0);
      Successor(R);
      var x := update[0].level[0].forward;
      if x != null && e.score == x.score && x.obj.Some? && CompareObj(x.obj.value, e.member) == 0 {
        CompareMembers(x.obj.value, e.member);
        DeleteNode(R + 1, x, update, rank);
        found := true;
      } else {
        if x != null { CompareMembers(x.obj.value, e.member); }
        found := false;
      }
    }

    // ---- searches by rank ---------------------------------------------------------

    /** A search by rank that takes a link ending at or before `limit` stays within it. */
    lemma RankStep(r: nat, i: nat, limit: int)
      requires Valid() && r < |nodes| && i < |nodes[r].level| && i < level
      requires nodes[r].level[i].forward != null && r + nodes[r].level[i].span <= limit
      ensures var c := nodes[r].level[i];
              && r < r + c.span < |nodes| && r + c.span <= limit
              && c.forward == nodes[r + c.span] && i < |c.forward.level|
    {
      LinkMeaning(r, i);
    }

    /** A search by rank that stops has reached the last tall node within the limit. */
    lemma RankStop(r: nat, i: nat, limit: int, R: nat)
      requires Valid() && r <= R < |nodes| && i < |nodes[r].level| && i < level
      requires R <= limit || R == 0
      requires nodes[r].level[i].forward == null || r + nodes[r].level[i].span > limit
      ensures LastTall(Rows(nodes), R, i, r)
    {
      LinkMeaning(r, i);
    }

    /** The search of slDeleteByRank: the last node before rank `start` on every level. */
    method DescendToRank(start: nat, ghost R: nat) returns (update: seq<Node>, ghost rank: seq<int>, traversed: nat)
      requires Valid() && R < |nodes|
      requires R == if start == 0 then 0 else if start <= |nodes| then start - 1 else |nodes| - 1
      ensures |rank| == level && rank != [] && traversed == rank[0] == R
      ensures Path(nodes, Rows(nodes), update, rank, R)
    {
      hide *;
      CutInside(ScoreBelow(0.0));
      update, rank := [], [];
      PathEmpty(R, level);
      var x: Node, i: nat := header, level;
      traversed := 0;
      while i > 0
        invariant i <= level && |rank| == level - i
        invariant traversed <= R && nodes[traversed] == x && |x.level| >= i
        invariant PathFrom(update, rank, R, i)
        invariant i < level ==> rank[0] == traversed
      {
        i := i - 1;
        while x.level[i].forward != null && traversed + x.level[i].span < start
          invariant traversed <= R && nodes[traversed] == x && i < |x.level|
          decreases |nodes| - traversed
        {
          RankStep(traversed, i, start - 1);
          traversed, x := traversed + x.level[i].span, x.level[i].forward;
        }
        RankStop(traversed, i, start - 1, R);
        PathExtends(update, rank, R, i, x, traversed);
        update, rank := [x] + update, [traversed] + rank;
      }
      PathComplete(update, rank, R);
    }

    /** slDeleteByRank. The callback is a log: `reported` lists the members it is given. */
    method DeleteByRank(start: nat, end: nat) returns (removed: nat, reported: seq<Member>)
      requires Valid()
      modifies this, nodes
      ensures Valid()
      ensures Elements() == RankRemoved(old(Elements()), start, end)
      ensures reported == Members(RankSlice(old(Elements()), start, end))
      ensures removed == |RankSlice(old(Elements()), start, end)|
      ensures forall n | n in nodes :: n in old(nodes)
    {
      hide *;
      CutInside(ScoreBelow(0.0));
      ghost var s, S := Elements(), set n | n in nodes;
      ghost var R := if start == 0 then 0 else if start <= |nodes| then start - 1 else |nodes| - 1;
      ghost var rank: seq<int>;
      var update, traversed;
      update, rank, traversed := DescendToRank(start, R);
      PathAt(nodes, Rows(nodes), update, rank, R, 0);
      Successor(R);
      traversed := traversed + 1;
      var x: Node? := update[0].level[0].forward;
      removed, reported := 0, [];
      RemovingStart(s, R);
      while x != null && traversed <= end
        invariant Valid() && HeaderFirst(nodes) && R < |nodes| && |Elements()| == |nodes| - 1
        invariant level <= |rank| && Path(nodes, Rows(nodes), update, rank, R)
        invariant x == if R + 1 < |nodes| then nodes[R + 1] else null
        invariant Removing(s, Elements(), reported, R, removed)
        invariant traversed == R + 1 + removed && (removed > 0 ==> R + removed <= end)
        invariant forall n | n in nodes :: n in S
        decreases |nodes|
      {
        x, removed, reported := DeleteNext(S, R, x, update, rank, s, removed, reported);
        traversed := traversed + 1;
      }
      RemovingDone(s, Elements(), reported, start, end, R, removed);
    }

    /** One turn of the removal loop of slDeleteByRank. */
    method DeleteNext(ghost S: set<Node>, ghost R: nat, x: Node, update: seq<Node>, ghost rank: seq<int>,
                      ghost s: seq<Element>, removed0: nat, reported0: seq<Member>)
      returns (next: Node?, removed: nat, reported: seq<Member>)
      requires Valid() && HeaderFirst(nodes) && R + 1 < |nodes| && nodes[R + 1] == x
      requires level <= |rank| && Path(nodes, Rows(nodes), update, rank, R)
      requires Removing(s, Elements(), reported0, R, removed0)
      requires forall n | n in nodes :: n in S
      modifies this, S
      ensures Valid() && HeaderFirst(nodes) && R < |nodes| == old(|nodes|) - 1 && |Elements()| == |nodes| - 1
      ensures level <= |rank| && Path(nodes, Rows(nodes), update, rank, R)
      ensures next == if R + 1 < |nodes| then nodes[R + 1] else null
      ensures removed == removed0 + 1 && Removing(s, Elements(), reported, R, removed)
      ensures forall n | n in nodes :: n in S
    {
      hide *;
      CutInside(ScoreBelow(0.0));
      Successor(R);
      Successor(R + 1);
      next := x.level[0].forward;
      RemovingStep(s, Elements(), reported0, R, removed0);
      RemoveAtNext(nodes, R + 1);
      DeleteNode(R + 1, x, update, rank);
      CutInside(ScoreBelow(0.0));
      removed, reported := removed0 + 1, reported0 + [x.obj.value];
    }

    /** slGetNodeByRank: the node at the given 1-based rank. */
    method GetNodeByRank(rank: nat) returns (x: Node?)
      requires Valid()
      ensures x == if 1 <= rank <= |Elements()| then nodes[rank] else null
    {
      hide *;
      CutInside(ScoreBelow(0.0));
      ValidFacts();
      OrderedFacts();
      if rank == 0 || rank > length {
        return null;
      }
      var y: Node, traversed: nat, i: nat := header, 0, level;
      while i > 0
        invariant i <= level
        invariant traversed <= rank && nodes[traversed] == y && |y.level| >= i
        invariant i < level ==> traversed < rank && LastTall(Rows(nodes), rank, i, traversed)
      {
        i := i - 1;
        while y.level[i].forward != null && traversed + y.level[i].span <= rank
          invariant traversed <= rank && nodes[traversed] == y && i < |y.level|
          decreases |nodes| - traversed
        {
          RankStep(traversed, i, rank);
          traversed, y := traversed + y.level[i].span, y.level[i].forward;
        }
        RankStop(traversed, i, rank, rank);
        if traversed == rank {
          return y;
        }
      }
      GroundReached(rank, traversed);
      assert false;
    }

    /** On level 0 the search by rank cannot stop early. */
    lemma GroundReached(R: nat, r: nat)
      requires Valid() && LastTall(Rows(nodes), R, 0, r)
      ensures r == R
    {
      assert |Rows(nodes)[R]| >= 1;
    }

    /** The node at position `r` is not the header and has the given member. */
    ghost predicate HasMember(r: int, m: Member)
      reads this
    {
      0 <= r < |nodes| && nodes[r].obj == Some(m)
    }

    /** `rank` is a visited position with the member of `e`; 0 when there is none. */
    ghost predicate RankFound(e: Element, rank: nat)
      requires HeaderFirst(nodes)
      reads this, nodes
    {
      var R := Cut(Elements(), UpTo(e));
      if rank > 0 then HasMember(rank, e.member) && Visited(Rows(nodes), R, rank)
      else forall p | HasMember(p, e.member) :: !Visited(Rows(nodes), R, p)
    }

    /** From level `low` up, the search stood on nodes without the member. */
    ghost predicate Missed(landing: seq<int>, R: int, low: int, m: Member)
      reads this, nodes
    {
      forall j | 0 <= j < |landing| :: LastTall(Rows(nodes), R, low + j, landing[j]) && !HasMember(landing[j], m)
    }

    lemma MissedNothing(R: int, low: int, m: Member)
      ensures Missed([], R, low, m)
    {
    }

    lemma MissedExtends(landing: seq<int>, R: int, low: int, m: Member, r: nat)
      requires Missed(landing, R, low + 1, m) && LastTall(Rows(nodes), R, low, r)
      requires r < |nodes| && nodes[r].obj != Some(m)
      ensures Missed([r] + landing, R, low, m)
    {
    }

    lemma FoundHere(r: nat, e: Element)
      requires Valid() && r < |nodes| && nodes[r].obj == Some(e.member)
      requires Visited(Rows(nodes), Cut(Elements(), UpTo(e)), r)
      ensures RankFound(e, r)
    {
    }

    /** If the search misses the member on every level, no node it visits has it. */
    lemma NeverVisited(landing: seq<int>, R: int, e: Element)
      requires Valid() && Missed(landing, R, 0, e.member) && |landing| == level
      requires R == Cut(Elements(), UpTo(e))
      ensures RankFound(e, 0)
    {
      var m := e.member;
      hide Links, Sorted, BackLinks, LevelExact;
      forall p | HasMember(p, m) ensures !Visited(Rows(nodes), R, p) {
        assert p > 0;
        if Visited(Rows(nodes), R, p) {
          VisitedIsLanding(Rows(nodes), R, p, landing, 0);
        }
      }
    }

    /** slGetRank. The code compares members only, so it reports any visited node with the
        member, whatever its score. */
    method GetRank(e: Element) returns (rank: nat)
      requires Valid()
      ensures RankFound(e, rank)
    {
      hide *;
      var w := UpTo(e);
      CutInside(w);
      ghost var R, landing: seq<int> := Cut(Elements(), w), [];
      MissedNothing(R, level, e.member);
      var x: Node, r: nat, i: nat := header, 0, level;
      while i > 0
        invariant i <= level && |landing| == level - i
        invariant r <= R && nodes[r] == x && |x.level| >= i
        invariant Missed(landing, R, i, e.member)
      {
        i := i - 1;
        while Passes(x.level[i].forward, w)
          invariant r <= R && nodes[r] == x && i < |x.level|
          decreases |nodes| - r
        {
          StepStays(r, i, w);
          r, x := r + x.level[i].span, x.level[i].forward;
        }
        StopIsLast(r, i, w);
        if x.obj.Some? && CompareObj(x.obj.value, e.member) == 0 {
          CompareMembers(x.obj.value, e.member);
          LandingIsVisited(Rows(nodes), R, i, r);
          FoundHere(r, e);
          return r;
        }
        if x.obj.Some? { CompareMembers(x.obj.value, e.member); }
        MissedExtends(landing, R, i, e.member, r);
        landing := [r] + landing;
      }
      NeverVisited(landing, R, e);
      rank := 0;
    }

    /** In a list of one element, its member has rank 1 under every larger score. */
    lemma RankOfOnly(stored: Element, asked: Element, rank: nat)
      requires Valid() && HeaderFirst(nodes) && Elements() == [stored] && RankFound(asked, rank)
      requires stored.member == asked.member && stored.score < asked.score
      ensures rank == 1
    {
      hide Links, BackLinks, LevelExact, Sorted;
      assert Cut(Elements(), UpTo(asked)) == 1 by {
        assert PrecedesOrEquals(stored, asked) && Elements()[1..] == [];
      }
      assert nodes[1].obj == Some(asked.member);
      HeaderFacts();
      LandingIsVisited(Rows(nodes), 1, 0, 1);
    }

    /** With distinct members, slGetRank returns the rank of a present element, 0 for an
        absent member, and for a member stored under another score its rank exactly when
        the stored element comes before `e` and no node from there to `e` is as tall. */
    lemma RankMeaning(e: Element, rank: nat)
      requires Valid() && DistinctMembers(Elements()) && RankFound(e, rank)
      ensures e in Elements() ==> 0 < rank <= |Elements()| && Elements()[rank - 1] == e
      ensures e.member !in Members(Elements()) ==> rank == 0
      ensures forall p | 0 < p < |nodes| && nodes[p].obj == Some(e.member) ::
                rank == if Visited(Rows(nodes), Cut(Elements(), UpTo(e)), p) then p else 0
    {
      hide Valid, RankFound, Cut, Visited, Sorted, Rows, DistinctMembers, ElementOf;
      SortedElements();
      var s := Elements();
      forall p | 0 < p < |nodes| && nodes[p].obj == Some(e.member)
        ensures rank == if Visited(Rows(nodes), Cut(Elements(), UpTo(e)), p) then p else 0
      {
        RankOfMember(e, rank, p);
      }
      if e in s {
        var k :| 0 <= k < |s| && s[k] == e;
        CutAtElement(s, k);
        RankOfPresent(e, k);
        ElementAt(k);
        RankOfMember(e, rank, k + 1);
      }
      if rank > 0 { RankIsMember(e, rank); }
    }

    lemma ElementAt(k: nat)
      requires HeaderFirst(nodes) && k < |Elements()|
      ensures nodes[k + 1].obj == Some(Elements()[k].member)
    {
    }

    /** At most one node has the member. */
    lemma RankOfMember(e: Element, rank: nat, p: nat)
      requires HeaderFirst(nodes) && DistinctMembers(Elements()) && RankFound(e, rank)
      requires 0 < p < |nodes| && nodes[p].obj == Some(e.member)
      ensures rank == if Visited(Rows(nodes), Cut(Elements(), UpTo(e)), p) then p else 0
    {
      hide Cut, Visited, Rows, DistinctMembers, ElementsOf, HeaderFirst;
      assert HasMember(p, e.member);
      if rank > 0 {
        assert HasMember(rank, e.member);
        OnlyOne(rank, p, e.member);
      }
    }

    lemma OnlyOne(r: nat, p: nat, m: Member)
      requires HeaderFirst(nodes) && DistinctMembers(Elements()) && HasMember(r, m) && HasMember(p, m) && r > 0 && p > 0
      ensures r == p
    {
      hide DistinctMembers;
      ElementAt(r - 1);
      ElementAt(p - 1);
      SameMember(Elements(), r - 1, p - 1);
    }

    lemma RankIsMember(e: Element, rank: nat)
      requires HeaderFirst(nodes) && RankFound(e, rank) && rank > 0
      ensures e.member in Members(Elements())
    {
      hide Cut, Visited, Rows;
      ElementAt(rank - 1);
      assert Members(Elements())[rank - 1] == e.member;
    }

    /** A search for a present element ends on it. */
    lemma RankOfPresent(e: Element, k: nat)
      requires Valid() && HeaderFirst(nodes) && k < |Elements()| && Cut(Elements(), UpTo(e)) == k + 1
      ensures Visited(Rows(nodes), Cut(Elements(), UpTo(e)), k + 1)
    {
      hide Links, BackLinks, LevelExact, Shape, Sorted, Cut;
    }

    /** slIsInRange */
    method IsInRange(min: real, max: real) returns (r: bool)
      requires Valid()
      ensures r <==> Overlaps(Elements(), min, max)
    {
      hide Valid, ElementsOf, HeaderFirst, Ordered;
      CutInside(ScoreBelow(min));
      ValidFacts();
      OrderedFacts();
      Successor(0);
      if |nodes| > 1 { Successor(|nodes| - 2); }
      if min > max { return false; }
      var x := tail;
      if x == null || x.score < min { return false; }
      x := header.level[0].forward;
      if x == null || x.score > max { return false; }
      return true;
    }

    /** The search of slFirstInRange and slLastInRange: the last node that passes. */
    method Seek(w: Walk) returns (x: Node)
      requires Valid()
      ensures x == nodes[Cut(Elements(), w)]
    {
      hide *;
      CutInside(w);
      ghost var R := Cut(Elements(), w);
      var i: nat;
      ghost var r: nat := 0;
      x, i := header, level;
      while i > 0
        invariant i <= level
        invariant r <= R && nodes[r] == x && |x.level| >= i
        invariant i < level ==> LastTall(Rows(nodes), R, i, r)
      {
        i := i - 1;
        while Passes(x.level[i].forward, w)
          invariant r <= R && nodes[r] == x && i < |x.level|
          decreases |nodes| - r
        {
          StepStays(r, i, w);
          r := r + x.level[i].span;
          x := x.level[i].forward;
        }
        StopIsLast(r, i, w);
      }
      GroundReached(R, r);
    }

    /** slFirstInRange: where the range overlaps the list, the first element not below it. */
    method FirstInRange(min: real, max: real) returns (x: Node?)
      requires Valid()
      ensures x == if Overlaps(Elements(), min, max) && Cut(Elements(), ScoreBelow(min)) < |Elements()|
                   then nodes[Cut(Elements(), ScoreBelow(min)) + 1] else null
    {
      hide *;
      CutInside(ScoreBelow(min));
      var inside := IsInRange(min, max);
      if !inside { return null; }
      var y := Seek(ScoreBelow(min));
      Successor(Cut(Elements(), ScoreBelow(min)));
      return y.level[0].forward;
    }

    /** slLastInRange: where the range overlaps the list, the last element not above it. */
    method LastInRange(min: real, max: real) returns (x: Node?)
      requires Valid()
      ensures x == if Overlaps(Elements(), min, max) then nodes[Cut(Elements(), ScoreUpTo(max))] else null
    {
      hide *;
      CutInside(ScoreUpTo(max));
      var inside := IsInRange(min, max);
      if !inside { return null; }
      x := Seek(ScoreUpTo(max));
    }

    /** The predecessor by `backward`. */
    lemma Predecessor(p: nat)
      requires Valid() && 0 < p < |nodes|
      ensures HeaderFirst(nodes) && nodes[p].obj.Some?
              && Elements()[p - 1] == Element(nodes[p].score, nodes[p].obj.value)
      ensures nodes[p].backward == if p == 1 then null else nodes[p - 1]
    {
      hide Links, Shape, LevelExact, Sorted, DistinctNodes;
    }

    lemma SortedElements()
      requires Valid()
      ensures HeaderFirst(nodes) && Sorted(Elements()) && |Elements()| == |nodes| - 1
    {
    }

    /** The ascending loop of _get_score_range. */
    method CollectForward(first: Node?, ghost lo: nat, ghost hi: nat, bound: real) returns (out: seq<Member>)
      requires Valid() && HeaderFirst(nodes) && |Elements()| == |nodes| - 1 && lo <= hi <= |Elements()|
      requires first == if lo < |Elements()| then nodes[lo + 1] else null
      requires forall i | lo <= i < |Elements()| :: i < hi <==> Elements()[i].score <= bound
      ensures out == Members(Elements()[lo..hi])
    {
      hide *;
      var node := first;
      ghost var s, n: nat := Elements(), 0;
      out := [];
      assert Members(s[lo..lo]) == [];
      while node != null
        invariant lo + n <= hi && out == Members(s[lo..lo + n])
        invariant node == if lo + n < |s| then nodes[lo + n + 1] else null
        decreases |s| - n
      {
        Successor(lo + n);
        Successor(lo + n + 1);
        if node.score > bound { break; }
        out := out + [node.obj.value];
        CollectUp(s, lo, n);
        node, n := node.level[0].forward, n + 1;
      }
    }

    /** The descending loop of _get_score_range. */
    method CollectBackward(last: Node?, ghost lo: nat, ghost hi: nat, bound: real) returns (out: seq<Member>)
      requires Valid() && HeaderFirst(nodes) && |Elements()| == |nodes| - 1 && lo <= hi <= |Elements()|
      requires last == if hi > 0 then nodes[hi] else null
      requires forall i | 0 <= i < hi :: lo <= i <==> bound <= Elements()[i].score
      ensures out == Reversed(Members(Elements()[lo..hi]))
    {
      hide *;
      var node := last;
      ghost var s, n: nat := Elements(), 0;
      out := [];
      assert Reversed(Members(s[hi..hi])) == [];
      while node != null
        invariant n <= hi - lo && out == Reversed(Members(s[hi - n..hi]))
        invariant node == if n < hi then nodes[hi - n] else null
        decreases hi - n
      {
        Predecessor(hi - n);
        if node.score < bound { break; }
        out := out + [node.obj.value];
        CollectDown(s, hi, n);
        node, n := node.backward, n + 1;
      }
    }

    /** _get_score_range: the members with scores in the closed range, ascending when
        s1 <= s2 and descending otherwise. */
    method GetScoreRange(s1: real, s2: real) returns (out: seq<Member>)
      requires Valid()
      ensures s1 <= s2 ==> out == Members(ScoreSlice(Elements(), s1, s2))
      ensures s1 > s2 ==> out == Reversed(Members(ScoreSlice(Elements(), s2, s1)))
    {
      hide Valid, ElementsOf, HeaderFirst, Cut, Sorted, Members, Reversed;
      SortedElements();
      ghost var s := Elements();
      ghost var min, max := if s1 <= s2 then s1 else s2, if s1 <= s2 then s2 else s1;
      ghost var lo, hi := Cut(s, ScoreBelow(min)), Cut(s, ScoreUpTo(max));
      ScoreSliceExact(s, min, max);
      if s1 <= s2 {
        var node := FirstInRange(s1, s2);
        if node == null { return []; }
        out := CollectForward(node, lo, hi, s2);
      } else {
        var node := LastInRange(s2, s1);
        if node == null { return []; }
        out := CollectBackward(node, lo, hi, s2);
      }
    }

    /** _get_rank_range */
    method GetRankRange(r1: nat, r2: nat) returns (out: seq<Member>)
      requires Valid()
      ensures out == RankRange(Elements(), r1, r2)
    {
      hide Valid, ElementsOf, HeaderFirst, Members, Reversed, ToInt32;
      SortedElements();
      var reverse, rangelen := r1 > r2, RangeLength(r1, r2);
      var node := GetNodeByRank(r1);
      ghost var s := Elements();
      out := [];
      if node != null {
        assert Members(s[r1 - 1..r1 - 1]) == [] && Reversed(Members(s[r1..r1])) == [];
        if reverse {
          out := TakeBackward(node, r1, rangelen);
        } else {
          out := TakeForward(node, r1, rangelen);
        }
      }
    }

    /** The ascending loop of _get_rank_range. */
    method TakeForward(first: Node, ghost r1: nat, rangelen: int) returns (out: seq<Member>)
      requires Valid() && HeaderFirst(nodes) && |Elements()| == |nodes| - 1
      requires 1 <= r1 <= |Elements()| && first == nodes[r1]
      ensures out == if rangelen <= 0 then [] else Members(Elements()[r1 - 1..Last(Elements(), r1 - 1 + rangelen)])
    {
      hide Valid, ElementsOf, HeaderFirst, Members;
      var node: Node?, n: nat := first, 0;
      ghost var s := Elements();
      out := [];
      assert Members(s[r1 - 1..r1 - 1]) == [];
      while node != null && n < rangelen
        invariant r1 - 1 + n <= |s| && out == Members(s[r1 - 1..r1 - 1 + n])
                  && n <= (if rangelen <= 0 then 0 else rangelen)
        invariant node == if r1 + n <= |s| then nodes[r1 + n] else null
        decreases |s| - n
      {
        n := n + 1;
        Successor(r1 - 2 + n);
        Successor(r1 - 1 + n);
        out := out + [node.obj.value];
        CollectUp(s, r1 - 1, n - 1);
        node := node.level[0].forward;
      }
    }

    /** The descending loop of _get_rank_range. */
    method TakeBackward(first: Node, ghost r1: nat, rangelen: int) returns (out: seq<Member>)
      requires Valid() && HeaderFirst(nodes) && |Elements()| == |nodes| - 1
      requires 1 <= r1 <= |Elements()| && first == nodes[r1]
      ensures var k := if rangelen <= 0 then 0 else if rangelen <= r1 then rangelen else r1;
              out == Reversed(Members(Elements()[r1 - k..r1]))
    {
      hide Valid, ElementsOf, HeaderFirst, Members, Reversed;
      var node: Node?, n: nat := first, 0;
      ghost var s := Elements();
      out := [];
      assert Reversed(Members(s[r1..r1])) == [];
      while node != null && n < rangelen
        invariant n <= r1 && out == Reversed(Members(s[r1 - n..r1])) && n <= (if rangelen <= 0 then 0 else rangelen)
        invariant node == if n < r1 then nodes[r1 - n] else null
        decreases r1 - n
      {
        n := n + 1;
        Predecessor(r1 - n + 1);
        out := out + [node.obj.value];
        CollectDown(s, r1, n - 1);
        node := node.backward;
      }
    }
  }

  // ---- whole runs -----------------------------------------------------------------

  /** One update of a run. The height of an inserted node is whatever the random source
      gave. */
  datatype Op =
    | InsertOp(e: Element, height: nat)
    | DeleteOp(e: Element)
    | DeleteByRankOp(start: nat, end: nat)

  ghost predicate LegalOp(op: Op) {
    op.InsertOp? ==> 1 <= op.height <= MAX_LEVEL
  }

  /** What a run does to the abstract sequence; heights play no part. */
  ghost function Outcome(s: seq<Element>, op: Op): seq<Element> {
    match op
    case InsertOp(e, _) => Inserted(s, e)
    case DeleteOp(e) => Deleted(s, e)
    case DeleteByRankOp(a, b) => RankRemoved(s, a, b)
  }

  ghost function RunOutcome(s: seq<Element>, ops: seq<Op>): seq<Element> {
    if ops == [] then s else Outcome(RunOutcome(s, ops[..|ops| - 1]), ops[|ops| - 1])
  }

  /** Every run of updates, with every choice of heights, leaves a well-formed list whose
      elements are the outcome on the abstract sequence. */
  method Run(ops: seq<Op>) returns (sl: SkipList)
    requires forall i | 0 <= i < |ops| :: LegalOp(ops[i])
    ensures fresh(sl) && sl.Valid() && sl.Elements() == RunOutcome([], ops) && Ranked(sl.Elements())
  {
    hide SkipList.Valid, ElementsOf, Inserted, Deleted, RankRemoved, HeaderFirst, Sorted, Ranked;
    sl := new SkipList();
    sl.SortedElements();
    var i := 0;
    while i < |ops|
      invariant i <= |ops| && fresh(sl) && (forall n | n in sl.nodes :: fresh(n))
      invariant sl.Valid() && HeaderFirst(sl.nodes) && sl.Elements() == RunOutcome([], ops[..i])
    {
      assert ops[..i + 1][..i] == ops[..i];
      Step(sl, ops[i], set n | n in sl.nodes);
      i := i + 1;
    }
    assert ops[..|ops|] == ops;
    RunIsRanked(ops);
  }

  /** After every run the elements are in order of score, and those of equal score in order of member. */
  lemma RunIsRanked(ops: seq<Op>)
    ensures Ranked(RunOutcome([], ops))
  {
    hide Ranked, Sorted;
    assert Sorted([]) by { NoneSorted(); }
    RunStaysSorted([], ops);
    SortedIsRanked(RunOutcome([], ops));
  }

  lemma NoneSorted()
    ensures Sorted([])
  {
  }

  /** Two members of one score, inserted in either order. */
  lemma TiesByMember(score: real, a: Member, b: Member, h: nat, k: nat)
    requires LexLess(a, b)
    ensures var x, y := Element(score, a), Element(score, b);
            && RunOutcome([], [InsertOp(x, h), InsertOp(y, k)]) == [x, y]
            && RunOutcome([], [InsertOp(y, k), InsertOp(x, h)]) == [x, y]
  {
    hide LexLess, Ranked, Sorted, Inserted;
    var x, y := Element(score, a), Element(score, b);
    TwoRanked(x, y);
    TwoInserted(x, h, y, k);
    TwoInserted(y, k, x, h);
    RankedUnique(RunOutcome([], [InsertOp(x, h), InsertOp(y, k)]), [x, y]);
    RankedUnique(RunOutcome([], [InsertOp(y, k), InsertOp(x, h)]), [x, y]);
  }

  lemma TwoRanked(x: Element, y: Element)
    requires x.score == y.score && LexLess(x.member, y.member)
    ensures Ranked([x, y])
  {
    PrecedesMeans(x, y);
    PrecedesMeans(y, x);
    PrecedesTotal(x, y);
  }

  lemma TwoInserted(x: Element, h: nat, y: Element, k: nat)
    ensures var s := RunOutcome([], [InsertOp(x, h), InsertOp(y, k)]);
            Ranked(s) && multiset(s) == multiset{x, y}
  {
    hide Ranked, Sorted, Inserted;
    var ops := [InsertOp(x, h), InsertOp(y, k)];
    RunIsRanked(ops);
    NoneSorted();
    assert ops[..1] == [InsertOp(x, h)] && ops[..1][..0] == [];
    InsertedKeepsOrder([], x);
    InsertedKeepsOrder(Inserted([], x), y);
    assert RunOutcome([], ops[..1]) == Inserted([], x);
  }

  method Step(sl: SkipList, op: Op, ghost S: set<Node>)
    requires sl.Valid() && LegalOp(op) && forall n | n in sl.nodes :: n in S
    modifies sl, S
    ensures sl.Valid() && HeaderFirst(sl.nodes) && sl.Elements() == Outcome(old(sl.Elements()), op)
    ensures forall n | n in sl.nodes :: n in S || fresh(n)
  {
    hide SkipList.Valid, ElementsOf, Inserted, Deleted, RankRemoved, HeaderFirst;
    match op {
      case InsertOp(e, h) => sl.Insert(e, h);
      case DeleteOp(e) => var _ := sl.Delete(e);
      case DeleteByRankOp(a, b) => var _, _ := sl.DeleteByRank(a, b);
    }
    sl.SortedElements();
  }

  /** The abstract sequence stays sorted through every run. */
  lemma {:induction false} RunStaysSorted(s: seq<Element>, ops: seq<Op>)
    requires Sorted(s)
    ensures Sorted(RunOutcome(s, ops))
  {
    hide Sorted, Inserted, Deleted, RankRemoved;
    if ops != [] {
      RunStaysSorted(s, ops[..|ops| - 1]);
      var t := RunOutcome(s, ops[..|ops| - 1]);
      match ops[|ops| - 1]
      case InsertOp(e, _) => InsertedKeepsOrder(t, e);
      case DeleteOp(e) => DeletedRemovesOne(t, e);
      case DeleteByRankOp(a, b) => RankRemovedKeepsOrder(t, a, b);
    }
  }

  /** No insertion of the run repeats an element that is present at the time. */
  ghost predicate NeverRepeats(s: seq<Element>, ops: seq<Op>) {
    ops == [] || (NeverRepeats(s, ops[..|ops| - 1])
                  && (ops[|ops| - 1].InsertOp? ==> ops[|ops| - 1].e !in RunOutcome(s, ops[..|ops| - 1])))
  }

  /** When the caller never inserts a present element, the sequence stays strictly sorted. */
  lemma {:induction false} RunStaysStrict(s: seq<Element>, ops: seq<Op>)
    requires StrictlySorted(s) && NeverRepeats(s, ops)
    ensures StrictlySorted(RunOutcome(s, ops))
  {
    hide StrictlySorted, Sorted, Inserted, RankRemoved;
    if ops != [] {
      RunStaysStrict(s, ops[..|ops| - 1]);
      var t := RunOutcome(s, ops[..|ops| - 1]);
      match ops[|ops| - 1]
      case InsertOp(e, _) => InsertedKeepsStrictOrder(t, e);
      case DeleteOp(e) => if Holds(t, e) { SplicedStrict(t, Cut(t, Before(e)), Cut(t, Before(e)) + 1); }
      case DeleteByRankOp(a, b) => RankRemovedKeepsOrder(t, a, b);
    }
  }

  /** No insertion of the run repeats a member that is present at the time. */
  ghost predicate NeverRepeatsMember(s: seq<Element>, ops: seq<Op>) {
    ops == []
    || (var t := RunOutcome(s, ops[..|ops| - 1]);
        && NeverRepeatsMember(s, ops[..|ops| - 1])
        && (ops[|ops| - 1].InsertOp? ==> ops[|ops| - 1].e.member !in Members(t)))
  }

  /** When the caller never inserts a present member, the members stay distinct. */
  lemma {:induction false} RunStaysDistinct(s: seq<Element>, ops: seq<Op>)
    requires DistinctMembers(s) && NeverRepeatsMember(s, ops)
    ensures DistinctMembers(RunOutcome(s, ops))
  {
    hide DistinctMembers, Inserted, Members;
    if ops != [] {
      RunStaysDistinct(s, ops[..|ops| - 1]);
      var t := RunOutcome(s, ops[..|ops| - 1]);
      match ops[|ops| - 1]
      case InsertOp(e, _) => InsertedKeepsDistinct(t, e);
      case DeleteOp(e) => if Holds(t, e) { SplicedDistinct(t, Cut(t, Before(e)), Cut(t, Before(e)) + 1); }
      case DeleteByRankOp(a, b) =>
        if First(a) <= Last(t, b) { SplicedDistinct(t, First(a) - 1, Last(t, b)); }
    }
  }

  /** A member asked for under a score it does not have can still have a rank. */
  method WrongScore(m: Member) returns (sl: SkipList, rank: nat)
    ensures fresh(sl) && sl.Valid() && Element(2.0, m) !in sl.Elements() && rank == 1
  {
    hide SkipList.Valid, HeaderFirst, Inserted;
    var stored, asked := Element(1.0, m), Element(2.0, m);
    var ops := [InsertOp(stored, 1)];
    sl := Run(ops);
    sl.SortedElements();
    assert ops[..0] == [] && RunOutcome([], ops[..0]) == [];
    InsertedFirst(stored);
    rank := sl.GetRank(asked);
    sl.RankOfOnly(stored, asked, rank);
  }

  lemma InsertedFirst(e: Element)
    ensures Inserted([], e) == [e]
  {
  }
}
