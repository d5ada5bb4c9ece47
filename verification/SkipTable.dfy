/** The link table of a skip list: what the forward pointers and spans of every node
    mean, as a property of values, and how insertion and removal change it.

    Position 0 is the header, so the position of a node is its rank. */
module SkipTable {
  import opened Common
  import opened ZsetOrder
  import opened ZsetSpec

  const MAX_LEVEL := 32

  /** One entry of a node's `level` array. */
  datatype Cell = Cell(forward: Node?, span: int)

  class Node {
    const score: real
    const obj: Option<Member>
    var backward: Node?
    var level: seq<Cell>

    /** slCreateNode */
    constructor (height: nat, score: real, obj: Option<Member>)
      ensures this.score == score && this.obj == obj && |level| == height
    {
      this.score, this.obj := score, obj;
      this.level := seq(height, _ => Cell(null, 0));
    }
  }

  /** The rows of cells of all nodes, by position. */
  type Table = seq<seq<Cell>>

  /** `q` is the first position after `p` whose node is taller than `i`; the length of
      the table when there is none. */
  ghost predicate Next(g: Table, p: int, i: int, q: int) {
    && 0 <= p < q <= |g|
    && (forall k | p < k < q :: |g[k]| <= i)
    && (q < |g| ==> |g[q]| > i)
  }

  /** `r` is the last position at or before `R` whose node is taller than `i`. */
  ghost predicate LastTall(g: Table, R: int, i: int, r: int) {
    && 0 <= r <= R < |g|
    && |g[r]| > i
    && (forall k | r < k <= R :: |g[k]| <= i)
  }

  /** The cell at (p, i) leads to the next tall node, and its span is the exact distance
      to it; without one, the distance to the last node. */
  ghost predicate Linked(nodes: seq<Node>, g: Table, p: int, i: int)
    requires |nodes| == |g| && 0 <= p < |g| && 0 <= i < |g[p]|
  {
    var c := g[p][i];
    if c.forward == null then
      c.span == |g| - 1 - p && Next(g, p, i, |g|)
    else
      p < p + c.span < |g| && c.forward == nodes[p + c.span] && Next(g, p, i, p + c.span)
  }

  ghost predicate Links(nodes: seq<Node>, g: Table, level: nat) {
    && |nodes| == |g|
    && forall p, i | 0 <= p < |g| && 0 <= i < |g[p]| && i < level :: Linked(nodes, g, p, i)
  }

  /** Heights: the header has all levels and no links above `level`; every other node has
      between 1 and `level` levels. */
  ghost predicate Shape(g: Table, level: nat) {
    && |g| > 0
    && |g[0]| == MAX_LEVEL
    && 1 <= level <= MAX_LEVEL
    && (forall p | 0 < p < |g| :: 1 <= |g[p]| <= level)
    && (forall i | level <= i < MAX_LEVEL :: g[0][i].forward == null)
  }

  /** `level` is the tallest height in use (1 for an empty list). */
  ghost predicate LevelExact(g: Table, level: nat) {
    level == 1 || exists p :: 0 < p < |g| && |g[p]| == level
  }

  /** The position a cell leads to. */
  ghost function Target(g: Table, p: int, i: int): int
    requires 0 <= p < |g| && 0 <= i < |g[p]|
  {
    if g[p][i].forward == null then |g| else p + g[p][i].span
  }

  /** On every level, `update` and `ranks` give the last node at or before position `R`. */
  ghost predicate Path(nodes: seq<Node>, g: Table, update: seq<Node>, ranks: seq<int>, R: int) {
    && |update| == |ranks| && |nodes| == |g|
    && forall i | 0 <= i < |ranks| :: LastTall(g, R, i, ranks[i]) && update[i] == nodes[ranks[i]]
  }

  lemma PathAt(nodes: seq<Node>, g: Table, update: seq<Node>, ranks: seq<int>, R: int, i: nat)
    requires Path(nodes, g, update, ranks, R) && i < |ranks|
    ensures |update| == |ranks| && |nodes| == |g|
    ensures LastTall(g, R, i, ranks[i]) && 0 <= ranks[i] <= R < |nodes|
    ensures update[i] == nodes[ranks[i]] && update[i] in nodes
  {
  }

  lemma PathPrefix(nodes: seq<Node>, g: Table, update: seq<Node>, ranks: seq<int>, R: int, n: nat)
    requires Path(nodes, g, update, ranks, R) && n <= |ranks|
    ensures n <= |update| && Path(nodes, g, update[..n], ranks[..n], R)
  {
    forall i | 0 <= i < n ensures LastTall(g, R, i, ranks[..n][i]) {
      assert LastTall(g, R, i, ranks[i]);
    }
  }

  lemma LinkAt(nodes: seq<Node>, g: Table, level: nat, r: int, i: nat, R: int)
    requires Links(nodes, g, level) && LastTall(g, R, i, r) && i < level
    ensures 0 <= r < |g| == |nodes| && i < |g[r]| && Linked(nodes, g, r, i)
  {
  }

  lemma TallCell(g: Table, R: int, i: int, r: int)
    requires LastTall(g, R, i, r)
    ensures 0 <= r <= R < |g| && i < |g[r]|
  {
  }

  // ---- raising the level ----------------------------------------------------------

  /** The header's cells on the levels low..high - 1 get the span `n`; nothing else changes. */
  ghost predicate Raised(g: Table, g': Table, low: int, high: int, n: int) {
    && |g'| == |g| > 0 && |g'[0]| == |g[0]|
    && (forall p | 0 < p < |g| :: g'[p] == g[p])
    && (forall i | 0 <= i < |g[0]| ::
          g'[0][i] == if low <= i < high then Cell(g[0][i].forward, n) else g[0][i])
  }

  lemma RaisedNothing(g: Table, low: int, n: int)
    requires |g| > 0
    ensures Raised(g, g, low, low, n)
  {
  }

  lemma RaisedStep(g: Table, h: Table, low: int, i: nat, n: int)
    requires Raised(g, h, low, i, n) && low <= i < |g[0]|
    ensures |h| > 0 && i < |h[0]|
    ensures Raised(g, h[0 := h[0][i := Cell(h[0][i].forward, n)]], low, i + 1, n)
  {
  }

  /** The levels above the current one are empty, so their only links are the header's. */
  lemma RaisedKeepsLinks(nodes: seq<Node>, g: Table, g': Table, low: nat, high: nat)
    requires Shape(g, low) && Links(nodes, g, low) && low <= high <= MAX_LEVEL
    requires Raised(g, g', low, high, |g| - 1)
    ensures Shape(g', high) && Links(nodes, g', high)
  {
    forall p, i | 0 <= p < |g'| && 0 <= i < |g'[p]| && i < high ensures Linked(nodes, g', p, i) {
      if i < low {
        assert Linked(nodes, g, p, i);
      }
    }
  }

  lemma RaisedKeepsPath(nodes: seq<Node>, g: Table, g': Table, update: seq<Node>, ranks: seq<int>, R: int, low: int,
      high: int, n: int)
    requires Path(nodes, g, update, ranks, R) && Raised(g, g', low, high, n)
    ensures Path(nodes, g', update, ranks, R)
  {
    forall i | 0 <= i < |ranks| ensures LastTall(g', R, i, ranks[i]) {
      assert LastTall(g, R, i, ranks[i]);
    }
  }

  /** On an empty level the header is the last tall node. */
  lemma PathRaised(nodes: seq<Node>, g: Table, update: seq<Node>, ranks: seq<int>, R: int, low: nat)
    requires Path(nodes, g, update, ranks, R) && 0 <= R < |g|
    requires Shape(g, low) && low <= |ranks| < MAX_LEVEL
    ensures Path(nodes, g, update + [nodes[0]], ranks + [0], R)
  {
  }

  // ---- insertion after position R -------------------------------------------------

  /** The old position of what is at position `k` after the insertion. */
  function Old(R: int, k: int): int { if k <= R then k else k - 1 }

  /** The heights of the table after a node of height `L` is put after position `R`. */
  ghost predicate Widened(g: Table, g': Table, R: int, L: int) {
    && 0 <= R < |g|
    && |g'| == |g| + 1
    && forall k | 0 <= k < |g'| :: |g'[k]| == if k == R + 1 then L else |g[Old(R, k)]|
  }

  lemma NextAfterInsert(g: Table, g': Table, R: int, L: int, p: int, i: int, q: int)
    requires Widened(g, g', R, L) && Next(g, p, i, q)
    ensures q <= R ==> Next(g', p, i, q)
    ensures p > R ==> Next(g', p + 1, i, q + 1)
    ensures p <= R < q && L > i ==> Next(g', p, i, R + 1) && Next(g', R + 1, i, q + 1)
    ensures p <= R < q && L <= i ==> Next(g', p, i, q + 1)
  {
  }

  /** Only the last tall node at or before `R` has a link that crosses `R`. */
  lemma CrossingIsLast(g: Table, R: int, i: int, r: int, p: int, q: int)
    requires LastTall(g, R, i, r) && Next(g, p, i, q) && |g[p]| > i
    ensures p <= R < q <==> p == r
  {
  }

  /** What slInsert writes at (p, i), for an old position `p`. */
  ghost function CellAfterInsert(g: Table, ranks: seq<int>, x: Node, R: int, L: int, p: int, i: int): Cell
    requires 0 <= p < |g| && 0 <= i < |g[p]| && i < |ranks|
  {
    if p != ranks[i] then g[p][i]
    else if i < L then Cell(x, R - p + 1)
    else Cell(g[p][i].forward, g[p][i].span + 1)
  }

  /** The table after slInsert, cell by cell. */
  ghost predicate InsertedTable(g: Table, g': Table, ranks: seq<int>, x: Node, R: int, L: int) {
    && Widened(g, g', R, L)
    && L <= |ranks|
    && (forall i | 0 <= i < |ranks| :: LastTall(g, R, i, ranks[i]))
    && (forall k, i | 0 <= k < |g'| && k != R + 1 && 0 <= i < |g'[k]| ::
          g'[k][i] == if i < |ranks| then CellAfterInsert(g, ranks, x, R, L, Old(R, k), i) else g[Old(R, k)][i])
    && (forall i | 0 <= i < L ::
          g'[R + 1][i] == Cell(g[ranks[i]][i].forward, g[ranks[i]][i].span - (R - ranks[i])))
  }

  lemma LinkedAfterInsert(nodes: seq<Node>, g: Table, g': Table, ranks: seq<int>, x: Node, R: int, L: int, k: int,
      i: int)
    requires |nodes| == |g| && InsertedTable(g, g', ranks, x, R, L)
    requires 0 <= k < |g'| && k != R + 1 && 0 <= i < |g'[k]| && i < |ranks|
    requires Linked(nodes, g, Old(R, k), i)
    ensures Linked(InsertAt(nodes, R + 1, x), g', k, i)
  {
    var p := Old(R, k);
    var q := Target(g, p, i);
    NextAfterInsert(g, g', R, L, p, i, q);
    CrossingIsLast(g, R, i, ranks[i], p, q);
  }

  lemma NewLinkedAfterInsert(nodes: seq<Node>, g: Table, g': Table, ranks: seq<int>, x: Node, R: int, L: int, i: int)
    requires |nodes| == |g| && InsertedTable(g, g', ranks, x, R, L)
    requires 0 <= i < L
    requires Linked(nodes, g, ranks[i], i)
    ensures Linked(InsertAt(nodes, R + 1, x), g', R + 1, i)
  {
    var p := ranks[i];
    var q := Target(g, p, i);
    NextAfterInsert(g, g', R, L, p, i, q);
    CrossingIsLast(g, R, i, p, p, q);
  }

  /** Insertion keeps every link exact. */
  lemma LinksAfterInsert(nodes: seq<Node>, g: Table, g': Table, ranks: seq<int>, x: Node, R: int, L: int)
    requires Links(nodes, g, |ranks|) && InsertedTable(g, g', ranks, x, R, L)
    ensures Links(InsertAt(nodes, R + 1, x), g', |ranks|)
  {
    var nodes' := InsertAt(nodes, R + 1, x);
    forall k, i | 0 <= k < |g'| && 0 <= i < |g'[k]| && i < |ranks|
      ensures Linked(nodes', g', k, i)
    {
      if k == R + 1 {
        NewLinkedAfterInsert(nodes, g, g', ranks, x, R, L, i);
      } else {
        LinkedAfterInsert(nodes, g, g', ranks, x, R, L, k, i);
      }
    }
  }

  /** On level 0 every link leads to the neighbour. */
  lemma LevelZero(nodes: seq<Node>, g: Table, level: nat, p: nat)
    requires Shape(g, level) && Links(nodes, g, level) && p < |g|
    ensures |g[p]| > 0 && g[p][0].forward == if p + 1 < |nodes| then nodes[p + 1] else null
  {
    assert Linked(nodes, g, p, 0);
    if p + 1 < |g| {
      assert |g[p + 1]| >= 1;
    }
  }

  /** Insertion keeps the heights in shape, and keeps `level` exact when the new height
      is the tallest or the level was already exact. */
  lemma ShapeAfterInsert(g: Table, g': Table, ranks: seq<int>, x: Node, R: int, L: int)
    requires Shape(g, |ranks|) && InsertedTable(g, g', ranks, x, R, L) && 1 <= L
    requires L < |ranks| ==> LevelExact(g, |ranks|)
    ensures Shape(g', |ranks|) && LevelExact(g', |ranks|)
  {
    if L == |ranks| {
      assert |g'[R + 1]| == |ranks|;
    } else if |ranks| != 1 {
      var p :| 0 < p < |g| && |g[p]| == |ranks|;
      assert |g'[if p <= R then p else p + 1]| == |ranks|;
    }
  }

  /** The table with the links of the levels below `n` already rewritten. */
  ghost predicate InsertProgress(g: Table, h: Table, ranks: seq<int>, x: Node, R: int, L: int, n: int) {
    && |h| == |g|
    && (forall p | 0 <= p < |g| :: |h[p]| == |g[p]|)
    && (forall p, i | 0 <= p < |g| && 0 <= i < |g[p]| ::
          h[p][i] == if i < n && i < |ranks| then CellAfterInsert(g, ranks, x, R, L, p, i) else g[p][i])
  }

  lemma InsertProgressStep(g: Table, h: Table, ranks: seq<int>, x: Node, R: int, L: int, n: int)
    requires InsertProgress(g, h, ranks, x, R, L, n)
    requires 0 <= n < |ranks| && 0 <= ranks[n] < |g| && n < |g[ranks[n]]|
    ensures |h| == |g| && n < |h[ranks[n]]| && h[ranks[n]][n] == g[ranks[n]][n]
    ensures var c := CellAfterInsert(g, ranks, x, R, L, ranks[n], n);
            InsertProgress(g, h[ranks[n] := h[ranks[n]][n := c]], ranks, x, R, L, n + 1)
  {
  }

  /** The cells slInsert gives the new node on the levels below `n`. */
  ghost predicate NewRow(g: Table, row: seq<Cell>, ranks: seq<int>, R: int, n: int) {
    && n <= |row| && n <= |ranks|
    && forall i | 0 <= i < n :: 0 <= ranks[i] < |g| && i < |g[ranks[i]]|
         && row[i] == Cell(g[ranks[i]][i].forward, g[ranks[i]][i].span - (R - ranks[i]))
  }

  lemma InsertStart(g: Table, ranks: seq<int>, x: Node, R: int, L: int, row: seq<Cell>)
    ensures InsertProgress(g, g, ranks, x, R, L, 0) && NewRow(g, row, ranks, R, 0)
  {
  }

  lemma InsertComplete(g: Table, h: Table, row: seq<Cell>, ranks: seq<int>, x: Node, R: int, L: int)
    requires 0 <= R < |g| && L <= |ranks|
    requires InsertProgress(g, h, ranks, x, R, L, |ranks|)
    requires NewRow(g, row, ranks, R, L) && |row| == L
    requires forall i | 0 <= i < |ranks| :: LastTall(g, R, i, ranks[i])
    ensures InsertedTable(g, InsertAt(h, R + 1, row), ranks, x, R, L)
  {
    var g' := InsertAt(h, R + 1, row);
    assert forall k | 0 <= k < |g'| && k != R + 1 :: g'[k] == h[Old(R, k)];
  }

  /** Everything slInsert establishes about the links, from its search path on. */
  lemma TableAfterInsert(nodes: seq<Node>, g: Table, h: Table, row: seq<Cell>, update: seq<Node>, ranks: seq<int>,
      x: Node, R: int)
    requires Shape(g, |ranks|) && Links(nodes, g, |ranks|) && Path(nodes, g, update, ranks, R)
    requires 1 <= |row| <= |ranks| && (|row| < |ranks| ==> LevelExact(g, |ranks|))
    requires InsertProgress(g, h, ranks, x, R, |row|, |ranks|) && NewRow(g, row, ranks, R, |row|)
    ensures 0 <= R < |nodes| == |h|
    ensures var g' := InsertAt(h, R + 1, row);
            && Shape(g', |ranks|) && LevelExact(g', |ranks|)
            && Links(InsertAt(nodes, R + 1, x), g', |ranks|)
    ensures row[0].forward == if R + 1 < |nodes| then nodes[R + 1] else null
  {
    hide Shape, LevelExact, Links, InsertProgress, NewRow, LastTall, InsertedTable, Linked;
    PathAt(nodes, g, update, ranks, R, 0);
    InsertProgressSize(g, h, ranks, x, R, |row|);
    var g' := InsertAt(h, R + 1, row);
    InsertComplete(g, h, row, ranks, x, R, |row|);
    ShapeAfterInsert(g, g', ranks, x, R, |row|);
    LinksAfterInsert(nodes, g, g', ranks, x, R, |row|);
    var nodes' := InsertAt(nodes, R + 1, x);
    LevelZero(nodes', g', |ranks|, R + 1);
  }

  lemma InsertProgressSize(g: Table, h: Table, ranks: seq<int>, x: Node, R: int, L: int)
    requires InsertProgress(g, h, ranks, x, R, L, |ranks|)
    ensures |h| == |g|
  {
  }

  // ---- removal of position d ------------------------------------------------------

  function Unshift(d: int, p: int): int { if p < d then p else p + 1 }

  /** The heights of the table without position `d`. */
  ghost predicate Narrowed(g: Table, g': Table, d: int) {
    && 0 < d < |g|
    && |g'| == |g| - 1
    && forall k | 0 <= k < |g'| :: |g'[k]| == |g[Unshift(d, k)]|
  }

  lemma NextAfterRemove(g: Table, g': Table, d: int, p: int, i: int, q: int)
    requires Narrowed(g, g', d) && Next(g, p, i, q)
    ensures q < d ==> Next(g', p, i, q)
    ensures p > d ==> Next(g', p - 1, i, q - 1)
    ensures p < d < q ==> Next(g', p, i, q - 1)
  {
  }

  lemma NextMerged(g: Table, g': Table, d: int, p: int, i: int, q: int)
    requires Narrowed(g, g', d) && Next(g, p, i, d) && Next(g, d, i, q)
    ensures Next(g', p, i, q - 1)
  {
  }

  /** What slDeleteNode writes at (p, i): the last tall node before `d` takes over the
      link of the removed one, or its span shrinks by one. */
  ghost function CellAfterRemove(nodes: seq<Node>, g: Table, ranks: seq<int>, d: int, p: int, i: int): Cell
    requires |nodes| == |g| && 0 <= p < |g| && 0 < d < |g| && 0 <= i < |g[p]| && i < |ranks|
  {
    if p != ranks[i] then g[p][i]
    else if g[p][i].forward != nodes[d] then Cell(g[p][i].forward, g[p][i].span - 1)
    else if i < |g[d]| then Cell(g[d][i].forward, g[p][i].span + g[d][i].span - 1)
    else g[p][i]
  }

  /** The table after slDeleteNode, cell by cell. */
  ghost predicate RemovedTable(nodes: seq<Node>, g: Table, g': Table, ranks: seq<int>, d: int) {
    && |nodes| == |g|
    && Narrowed(g, g', d)
    && (forall i | 0 <= i < |ranks| :: LastTall(g, d - 1, i, ranks[i]))
    && (forall k, i | 0 <= k < |g'| && 0 <= i < |g'[k]| ::
          g'[k][i] == if i < |ranks| then CellAfterRemove(nodes, g, ranks, d, Unshift(d, k), i)
                      else g[Unshift(d, k)][i])
  }

  ghost predicate DistinctNodes(nodes: seq<Node>) {
    forall i, j | 0 <= i < j < |nodes| :: nodes[i] != nodes[j]
  }

  /** The last tall node before `d` links to `d` exactly when `d` is tall. */
  lemma LinkIntoRemoved(nodes: seq<Node>, g: Table, d: int, i: int, r: int)
    requires |nodes| == |g| && DistinctNodes(nodes)
    requires 0 < d < |g| && 0 <= i && LastTall(g, d - 1, i, r) && Linked(nodes, g, r, i)
    ensures g[r][i].forward == nodes[d] <==> |g[d]| > i
    ensures |g[d]| > i ==> g[r][i].span == d - r && Next(g, r, i, d)
  {
    var q := Target(g, r, i);
    assert Next(g, r, i, q);
    assert q >= d;
  }

  lemma KeptAfterRemove(nodes: seq<Node>, g: Table, g': Table, ranks: seq<int>, d: int, k: int, i: int)
    requires RemovedTable(nodes, g, g', ranks, d)
    requires 0 <= k < |g'| && 0 <= i < |g'[k]| && i < |ranks| && Unshift(d, k) != ranks[i]
    requires Linked(nodes, g, Unshift(d, k), i)
    ensures Linked(RemoveAt(nodes, d), g', k, i)
  {
    var p := Unshift(d, k);
    var q := Target(g, p, i);
    CrossingIsLast(g, d - 1, i, ranks[i], p, q);
    NextAfterRemove(g, g', d, p, i, q);
  }

  lemma RelinkedAfterRemove(nodes: seq<Node>, g: Table, g': Table, ranks: seq<int>, d: int, i: int)
    requires RemovedTable(nodes, g, g', ranks, d) && DistinctNodes(nodes)
    requires 0 <= i < |ranks|
    requires Linked(nodes, g, ranks[i], i)
    requires i < |g[d]| ==> Linked(nodes, g, d, i)
    ensures i < |g'[ranks[i]]| && Linked(RemoveAt(nodes, d), g', ranks[i], i)
  {
    var r := ranks[i];
    LinkIntoRemoved(nodes, g, d, i, r);
    assert Unshift(d, r) == r;
    if i < |g[d]| {
      NextMerged(g, g', d, r, i, Target(g, d, i));
    } else {
      NextAfterRemove(g, g', d, r, i, Target(g, r, i));
    }
  }

  /** Removal keeps every link exact. */
  lemma LinksAfterRemove(nodes: seq<Node>, g: Table, g': Table, ranks: seq<int>, d: int)
    requires Links(nodes, g, |ranks|) && RemovedTable(nodes, g, g', ranks, d) && DistinctNodes(nodes)
    ensures Links(RemoveAt(nodes, d), g', |ranks|)
  {
    var nodes' := RemoveAt(nodes, d);
    forall k, i | 0 <= k < |g'| && 0 <= i < |g'[k]| && i < |ranks|
      ensures Linked(nodes', g', k, i)
    {
      if k == ranks[i] {
        RelinkedAfterRemove(nodes, g, g', ranks, d, i);
      } else {
        KeptAfterRemove(nodes, g, g', ranks, d, k, i);
      }
    }
  }

  /** The header has no link at level `i` exactly when no node is taller than `i`. */
  lemma EmptyLevel(nodes: seq<Node>, g: Table, level: nat, i: int)
    requires Links(nodes, g, level) && |g| > 0 && |g[0]| == MAX_LEVEL && 0 <= i < level <= MAX_LEVEL
    ensures g[0][i].forward == null <==> forall p | 0 < p < |g| :: |g[p]| <= i
  {
    assert Linked(nodes, g, 0, i);
  }

  /** The table with the links of the levels below `n` already rewritten. */
  ghost predicate RemoveProgress(nodes: seq<Node>, g: Table, h: Table, ranks: seq<int>, d: int, n: int) {
    && |h| == |g| == |nodes| && 0 < d < |g|
    && (forall p | 0 <= p < |g| :: |h[p]| == |g[p]|)
    && (forall p, i | 0 <= p < |g| && 0 <= i < |g[p]| ::
          h[p][i] == if i < n && i < |ranks| then CellAfterRemove(nodes, g, ranks, d, p, i) else g[p][i])
  }

  lemma RemoveStart(nodes: seq<Node>, g: Table, ranks: seq<int>, d: int)
    requires |g| == |nodes| && 0 < d < |g|
    ensures RemoveProgress(nodes, g, g, ranks, d, 0)
  {
  }

  lemma RemoveProgressStep(nodes: seq<Node>, g: Table, h: Table, ranks: seq<int>, d: int, n: int)
    requires RemoveProgress(nodes, g, h, ranks, d, n) && DistinctNodes(nodes)
    requires 0 <= n < |ranks| && LastTall(g, d - 1, n, ranks[n]) && Linked(nodes, g, ranks[n], n)
    ensures |h| == |g| && 0 <= ranks[n] < d < |nodes| && n < |h[ranks[n]]| && h[ranks[n]][n] == g[ranks[n]][n]
    ensures g[ranks[n]][n].forward == nodes[d] ==> n < |h[d]| == |g[d]| && h[d][n] == g[d][n]
    ensures var c := CellAfterRemove(nodes, g, ranks, d, ranks[n], n);
            RemoveProgress(nodes, g, h[ranks[n] := h[ranks[n]][n := c]], ranks, d, n + 1)
  {
    LinkIntoRemoved(nodes, g, d, n, ranks[n]);
  }

  lemma RemoveComplete(nodes: seq<Node>, g: Table, h: Table, ranks: seq<int>, d: int)
    requires RemoveProgress(nodes, g, h, ranks, d, |ranks|)
    requires forall i | 0 <= i < |ranks| :: LastTall(g, d - 1, i, ranks[i])
    ensures RemovedTable(nodes, g, RemoveAt(h, d), ranks, d)
  {
    var g' := RemoveAt(h, d);
    assert forall k | 0 <= k < |g'| :: g'[k] == h[Unshift(d, k)];
  }

  lemma ShapeAfterRemove(nodes: seq<Node>, g: Table, g': Table, ranks: seq<int>, d: int)
    requires Shape(g, |ranks|) && RemovedTable(nodes, g, g', ranks, d)
    ensures Shape(g', |ranks|)
  {
  }

  lemma PathAfterRemove(nodes: seq<Node>, g: Table, g': Table, update: seq<Node>, ranks: seq<int>, d: int)
    requires |nodes| == |g| && Narrowed(g, g', d) && Path(nodes, g, update, ranks, d - 1)
    ensures Path(RemoveAt(nodes, d), g', update, ranks, d - 1)
  {
    forall i | 0 <= i < |ranks| ensures LastTall(g', d - 1, i, ranks[i]) {
      assert LastTall(g, d - 1, i, ranks[i]);
    }
  }

  /** The removed node's own row is not rewritten. */
  lemma RemovedRowKept(nodes: seq<Node>, g: Table, h: Table, update: seq<Node>, ranks: seq<int>, d: int)
    requires Path(nodes, g, update, ranks, d - 1) && RemoveProgress(nodes, g, h, ranks, d, |ranks|)
    ensures h[d] == g[d]
  {
    forall i | 0 <= i < |g[d]| ensures h[d][i] == g[d][i] {
      if i < |ranks| {
        assert LastTall(g, d - 1, i, ranks[i]);
      }
    }
  }

  /** Everything slDeleteNode establishes about the links, before it lowers the level. */
  lemma TableAfterRemove(nodes: seq<Node>, g: Table, h: Table, update: seq<Node>, ranks: seq<int>, d: int)
    requires DistinctNodes(nodes) && Shape(g, |ranks|) && Links(nodes, g, |ranks|)
    requires Path(nodes, g, update, ranks, d - 1) && RemoveProgress(nodes, g, h, ranks, d, |ranks|)
    ensures 0 < d < |nodes| == |h|
    ensures Narrowed(g, RemoveAt(h, d), d)
    ensures Shape(RemoveAt(h, d), |ranks|) && Links(RemoveAt(nodes, d), RemoveAt(h, d), |ranks|)
  {
    hide Shape, Links, LastTall, DistinctNodes;
    var g' := RemoveAt(h, d);
    RemoveComplete(nodes, g, h, ranks, d);
    ShapeAfterRemove(nodes, g, g', ranks, d);
    LinksAfterRemove(nodes, g, g', ranks, d);
  }

  /** An empty top level can be dropped. */
  lemma LowerLevel(nodes: seq<Node>, g: Table, level: nat)
    requires Shape(g, level) && Links(nodes, g, level) && level > 1
    requires g[0][level - 1].forward == null
    ensures Shape(g, level - 1) && Links(nodes, g, level - 1)
  {
    EmptyLevel(nodes, g, level, level - 1);
  }

  /** A top level in use makes the level exact. */
  lemma TopInUse(nodes: seq<Node>, g: Table, level: nat)
    requires Shape(g, level) && Links(nodes, g, level)
    requires level == 1 || g[0][level - 1].forward != null
    ensures LevelExact(g, level)
  {
    EmptyLevel(nodes, g, level, level - 1);
  }

  /** A search that ends at position `R` visits position `p`: no node after it up to `R`
      is as tall. */
  ghost predicate Visited(g: Table, R: int, p: int) {
    0 <= p <= R < |g| && forall q | p < q <= R :: |g[q]| < |g[p]|
  }

  lemma LandingIsVisited(g: Table, R: int, i: int, r: int)
    requires LastTall(g, R, i, r)
    ensures Visited(g, R, r)
  {
  }

  /** A visited node is where the search stands on the node's top level. */
  lemma VisitedIsLanding(g: Table, R: int, p: int, landing: seq<int>, low: int)
    requires Visited(g, R, p) && 0 < |g[p]| <= low + |landing| && low < |g[p]|
    requires forall j | 0 <= j < |landing| :: LastTall(g, R, low + j, landing[j])
    ensures landing[|g[p]| - 1 - low] == p
  {
    assert LastTall(g, R, low + (|g[p]| - 1 - low), landing[|g[p]| - 1 - low]);
  }
}
