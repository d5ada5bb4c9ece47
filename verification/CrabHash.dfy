/** The hash nodes of lua-crab: chains threaded through one array, as a property of values. */
module CrabHash {
  import opened Common

  datatype Flag = Empty | Inner | Terminal

  /** A hash node; `V` is what the trie hangs below it. */
  datatype HNode<V> = HNode(key: Rune, next: int, flag: Flag, value: V)

  /** mainposition: the capacity is a power of two, so masking the key is a remainder. */
  function MainPosition(capacity: nat, key: Rune): nat
    requires capacity > 0
  {
    key % capacity
  }

  predicate Occupied<V>(node: seq<HNode<V>>, i: int) {
    0 <= i < |node| && !node[i].flag.Empty?
  }

  /** The main position of the key at `i`. */
  function Home<V>(node: seq<HNode<V>>, i: nat): nat
    requires i < |node|
  {
    MainPosition(|node|, node[i].key)
  }

  /** The chains: chain[h] lists, in `next` order, the slots whose keys belong at h, and
      pos[i] is the place of slot i in its chain. */
  ghost predicate Chained<V>(node: seq<HNode<V>>, chain: seq<seq<nat>>, pos: seq<nat>) {
    && |chain| == |pos| == |node|
    && (forall h, k | 0 <= h < |chain| && 0 <= k < |chain[h]| :: LinkOk(node, chain, pos, h, k))
    && (forall h | 0 <= h < |chain| && chain[h] != [] :: chain[h][0] == h)
    && (forall i | Occupied(node, i) :: SlotOk(node, chain, pos, i))
    && (forall i | 0 <= i < |node| && node[i].flag.Empty? :: node[i].next == -1)
  }

  ghost predicate LinkOk<V>(node: seq<HNode<V>>, chain: seq<seq<nat>>, pos: seq<nat>, h: int, k: int)
    requires |pos| == |node| && 0 <= h < |chain| && 0 <= k < |chain[h]|
  {
    var i := chain[h][k];
    && Occupied(node, i) && Home(node, i) == h && pos[i] == k
    && node[i].next == (if k + 1 < |chain[h]| then chain[h][k + 1] else -1)
  }

  ghost predicate SlotOk<V>(node: seq<HNode<V>>, chain: seq<seq<nat>>, pos: seq<nat>, i: nat)
    requires |chain| == |pos| == |node| && i < |node|
  {
    pos[i] < |chain[Home(node, i)]| && chain[Home(node, i)][pos[i]] == i
  }

  /** The slot of every key: at[key] for the keys in use, and nothing else is occupied. */
  ghost predicate Indexed<V>(node: seq<HNode<V>>, at: map<Rune, nat>) {
    && (forall key | key in at :: Occupied(node, at[key]) && node[at[key]].key == key)
    && (forall i | Occupied(node, i) :: node[i].key in at && at[node[i].key] == i)
  }

  datatype Entry<V> = Entry(flag: Flag, value: V)

  /** The finite map a table stands for. */
  ghost function Contents<V>(node: seq<HNode<V>>, at: map<Rune, nat>): map<Rune, Entry<V>>
    requires Indexed(node, at)
  {
    map key | key in at :: Entry(node[at[key]].flag, node[at[key]].value)
  }

  /** Empty slots hold no value. */
  ghost predicate Blank<V>(node: seq<HNode<V>>, nothing: V) {
    forall i | 0 <= i < |node| && node[i].flag.Empty? :: node[i].value == nothing
  }

  /** No slot becomes empty. */
  ghost predicate KeepsOccupied<V>(a: seq<HNode<V>>, b: seq<HNode<V>>) {
    |a| == |b| && forall i | Occupied(a, i) :: Occupied(b, i)
  }

  /** The slots above k, if all occupied, stay so. */
  lemma OccupiedAbove<V>(a: seq<HNode<V>>, b: seq<HNode<V>>, k: int)
    requires KeepsOccupied(a, b) && forall i | k < i < |a| :: Occupied(a, i)
    ensures forall i | k < i < |b| :: Occupied(b, i)
  {
    forall i | k < i < |b| ensures Occupied(b, i) {
      assert Occupied(a, i);
    }
  }

  /** How many slots are occupied. */
  ghost function Count<V>(node: seq<HNode<V>>): (c: nat)
    ensures c <= |node|
  {
    if node == [] then 0
    else Count(node[..|node| - 1]) + (if node[|node| - 1].flag.Empty? then 0 else 1)
  }

  lemma {:induction false} CountFull<V>(node: seq<HNode<V>>)
    ensures Count(node) == |node| <==> forall i | 0 <= i < |node| :: Occupied(node, i)
  {
    if node != [] {
      var t := node[..|node| - 1];
      CountFull(t);
      assert forall i | 0 <= i < |t| :: Occupied(node, i) <==> Occupied(t, i);
      assert Occupied(node, |node| - 1) <==> !node[|node| - 1].flag.Empty?;
    }
  }

  lemma {:induction false} CountUpdate<V>(node: seq<HNode<V>>, i: nat, x: HNode<V>)
    requires i < |node|
    ensures Count(node[i := x])
            == Count(node) + (if x.flag.Empty? then 0 else 1) - (if node[i].flag.Empty? then 0 else 1)
  {
    var n := |node| - 1;
    if i == n {
      assert node[i := x][..n] == node[..n];
    } else {
      CountUpdate(node[..n], i, x);
      assert node[i := x][..n] == node[..n][i := x];
    }
  }

  // ---- the new key's main position is free ---------------------------------------------

  ghost function PlaceFree<V>(node: seq<HNode<V>>, h: nat, key: Rune): seq<HNode<V>>
    requires h < |node|
  {
    node[h := node[h].(key := key, flag := Inner)]
  }

  lemma PlaceFreeChained<V>(node: seq<HNode<V>>, chain: seq<seq<nat>>, pos: seq<nat>, h: nat, key: Rune)
    requires Chained(node, chain, pos) && h < |node| && MainPosition(|node|, key) == h
    requires node[h].flag.Empty?
    ensures chain[h] == []
    ensures Chained(PlaceFree(node, h, key), chain[h := [h]], pos[h := 0])
  {
    assert chain[h] != [] ==> LinkOk(node, chain, pos, h, 0);
    var node', chain', pos' := PlaceFree(node, h, key), chain[h := [h]], pos[h := 0];
    forall g, k | 0 <= g < |chain'| && 0 <= k < |chain'[g]| ensures LinkOk(node', chain', pos', g, k) {
      if g != h {
        assert LinkOk(node, chain, pos, g, k);
      }
    }
    forall i | Occupied(node', i) ensures SlotOk(node', chain', pos', i) {
      if i != h {
        assert Occupied(node, i);
        assert SlotOk(node, chain, pos, i);
      }
    }
  }

  // ---- the colliding node is in its main position: the new key goes behind it ------------

  ghost function PlaceBehind<V>(node: seq<HNode<V>>, h: nat, n: nat, key: Rune): seq<HNode<V>>
    requires h < |node| && n < |node|
  {
    node[n := node[n].(key := key, flag := Inner, next := node[h].next)][h := node[h].(next := n)]
  }

  /** Positions in chain h move one up behind the head. */
  ghost function PosBehind<V>(node: seq<HNode<V>>, pos: seq<nat>, h: nat, n: nat): seq<nat>
    requires |pos| == |node|
  {
    seq(|pos|, i requires 0 <= i < |pos| =>
      if i == n then 1 else if i != h && Occupied(node, i) && Home(node, i) == h then pos[i] + 1 else pos[i])
  }

  lemma PlaceBehindChained<V>(node: seq<HNode<V>>, chain: seq<seq<nat>>, pos: seq<nat>, h: nat, n: nat, key: Rune)
    requires Chained(node, chain, pos) && h < |node| && n < |node| && MainPosition(|node|, key) == h
    requires Occupied(node, h) && Home(node, h) == h && node[n].flag.Empty?
    ensures chain[h] != [] && chain[h][0] == h
    ensures Chained(PlaceBehind(node, h, n, key), chain[h := [h, n] + chain[h][1..]], PosBehind(node, pos, h, n))
  {
    assert SlotOk(node, chain, pos, h);
    var c := chain[h];
    assert LinkOk(node, chain, pos, h, 0);
    var node', pos' := PlaceBehind(node, h, n, key), PosBehind(node, pos, h, n);
    var c' := [h, n] + c[1..];
    var chain' := chain[h := c'];
    forall g, k | 0 <= g < |chain'| && 0 <= k < |chain'[g]| ensures LinkOk(node', chain', pos', g, k) {
      BehindLink(node, chain, pos, h, n, key, g, k);
    }
    forall i | Occupied(node', i) ensures SlotOk(node', chain', pos', i) {
      BehindSlot(node, chain, pos, h, n, key, i);
    }
  }

  lemma BehindLink<V>(node: seq<HNode<V>>, chain: seq<seq<nat>>, pos: seq<nat>, h: nat, n: nat, key: Rune, g: nat,
      k: nat)
    requires Chained(node, chain, pos) && h < |node| && n < |node| && MainPosition(|node|, key) == h
    requires Occupied(node, h) && Home(node, h) == h && node[n].flag.Empty? && chain[h] != [] && chain[h][0] == h
    requires g < |chain| && k < |chain[h := [h, n] + chain[h][1..]][g]|
    ensures LinkOk(PlaceBehind(node, h, n, key), chain[h := [h, n] + chain[h][1..]], PosBehind(node, pos, h, n), g, k)
  {
    assert LinkOk(node, chain, pos, h, 0);
    if g != h {
      assert LinkOk(node, chain, pos, g, k);
    } else if k >= 2 {
      assert LinkOk(node, chain, pos, h, k - 1);
    }
  }

  lemma BehindSlot<V>(node: seq<HNode<V>>, chain: seq<seq<nat>>, pos: seq<nat>, h: nat, n: nat, key: Rune, i: nat)
    requires Chained(node, chain, pos) && h < |node| && n < |node| && MainPosition(|node|, key) == h
    requires Occupied(node, h) && Home(node, h) == h && node[n].flag.Empty? && chain[h] != [] && chain[h][0] == h
    requires Occupied(PlaceBehind(node, h, n, key), i)
    ensures SlotOk(PlaceBehind(node, h, n, key), chain[h := [h, n] + chain[h][1..]], PosBehind(node, pos, h, n), i)
  {
    assert LinkOk(node, chain, pos, h, 0);
    if i != n {
      assert Occupied(node, i);
      assert SlotOk(node, chain, pos, i);
    }
  }

  // ---- the colliding node is not in its main position: it moves to the free slot ---------

  ghost function PlaceDisplacing<V>(node: seq<HNode<V>>, h: nat, n: nat, prev: nat, key: Rune,
      nothing: V): seq<HNode<V>>
    requires h < |node| && n < |node| && prev < |node| && prev != n
  {
    node[prev := node[prev].(next := n)][n := node[h]][h := HNode(key, -1, Inner, nothing)]
  }

  /** In the chain of the colliding node, slot h is replaced by slot n, and h starts its own. */
  ghost function ChainDisplacing(chain: seq<seq<nat>>, o: nat, p: nat, n: nat, h: nat): seq<seq<nat>>
    requires o < |chain| && h < |chain| && p < |chain[o]|
  {
    var c: seq<nat> := chain[o][p := n];
    chain[o := c][h := [h]]
  }

  lemma DisplacingChained<V>(node: seq<HNode<V>>, chain: seq<seq<nat>>, pos: seq<nat>, h: nat, n: nat, prev: nat,
      key: Rune, nothing: V)
    requires Chained(node, chain, pos) && h < |node| && n < |node| && MainPosition(|node|, key) == h
    requires Occupied(node, h) && Home(node, h) != h && node[n].flag.Empty?
    requires Occupied(node, prev) && node[prev].next == h
    ensures prev != h && prev != n && chain[h] == [] && pos[h] < |chain[Home(node, h)]|
    ensures var o := Home(node, h);
            Chained(PlaceDisplacing(node, h, n, prev, key, nothing), ChainDisplacing(chain, o, pos[h], n, h),
                pos[n := pos[h]][h := 0])
  {
    var o := Home(node, h);
    DisplacedFacts(node, chain, pos, h, n, prev);
    var node' := PlaceDisplacing(node, h, n, prev, key, nothing);
    var chain', pos' := ChainDisplacing(chain, o, pos[h], n, h), pos[n := pos[h]][h := 0];
    forall g, k | 0 <= g < |chain'| && 0 <= k < |chain'[g]| ensures LinkOk(node', chain', pos', g, k) {
      if g != h {
        assert LinkOk(node, chain, pos, g, k);
        assert k + 1 < |chain[g]| ==> LinkOk(node, chain, pos, g, k + 1);
      }
    }
    forall i | Occupied(node', i) ensures SlotOk(node', chain', pos', i) {
      if i != h && i != n {
        assert Occupied(node, i);
        assert SlotOk(node, chain, pos, i);
      }
    }
  }

  lemma DisplacedFacts<V>(node: seq<HNode<V>>, chain: seq<seq<nat>>, pos: seq<nat>, h: nat, n: nat, prev: nat)
    requires Chained(node, chain, pos) && h < |node| && n < |node|
    requires Occupied(node, h) && Home(node, h) != h && node[n].flag.Empty?
    requires Occupied(node, prev) && node[prev].next == h
    ensures prev != h && prev != n && chain[h] == []
    ensures Home(node, prev) == Home(node, h) && SlotOk(node, chain, pos, h) && 0 < pos[h] == pos[prev] + 1
  {
    assert SlotOk(node, chain, pos, h);
    assert SlotOk(node, chain, pos, prev);
    assert LinkOk(node, chain, pos, Home(node, prev), pos[prev]);
    assert LinkOk(node, chain, pos, Home(node, prev), pos[prev] + 1);
    assert chain[h] != [] ==> LinkOk(node, chain, pos, h, 0);
  }

  // ---- what the three placements do to the map --------------------------------------------

  /** The old keys keep their entries and the new one starts blank. */
  lemma ContentsGrow<V>(node: seq<HNode<V>>, at: map<Rune, nat>, node': seq<HNode<V>>, at': map<Rune, nat>, key: Rune,
      nothing: V)
    requires Indexed(node, at) && Indexed(node', at') && key !in at && at'.Keys == at.Keys + {key}
    requires node'[at'[key]].flag.Inner? && node'[at'[key]].value == nothing
    requires forall k | k in at :: node'[at'[k]].flag == node[at[k]].flag && node'[at'[k]].value == node[at[k]].value
    ensures Contents(node', at') == Contents(node, at)[key := Entry(Inner, nothing)]
  {
    hide Indexed;
  }

  lemma PlaceFreeContents<V>(node: seq<HNode<V>>, at: map<Rune, nat>, h: nat, key: Rune, nothing: V)
    requires Indexed(node, at) && Blank(node, nothing) && h < |node| && node[h].flag.Empty? && key !in at
    ensures var node' := PlaceFree(node, h, key);
            && Indexed(node', at[key := h]) && Blank(node', nothing) && Count(node') == Count(node) + 1
            && KeepsOccupied(node, node')
            && Contents(node', at[key := h]) == Contents(node, at)[key := Entry(Inner, nothing)]
  {
    hide Count, Contents;
    CountUpdate(node, h, node[h].(key := key, flag := Inner));
    ContentsGrow(node, at, PlaceFree(node, h, key), at[key := h], key, nothing);
  }

  lemma PlaceBehindContents<V>(node: seq<HNode<V>>, at: map<Rune, nat>, h: nat, n: nat, key: Rune, nothing: V)
    requires Indexed(node, at) && Blank(node, nothing) && Occupied(node, h)
    requires n < |node| && node[n].flag.Empty? && key !in at
    ensures var node' := PlaceBehind(node, h, n, key);
            && Indexed(node', at[key := n]) && Blank(node', nothing) && Count(node') == Count(node) + 1
            && KeepsOccupied(node, node')
            && Contents(node', at[key := n]) == Contents(node, at)[key := Entry(Inner, nothing)]
  {
    hide Count, Contents;
    var mid := node[n := node[n].(key := key, flag := Inner, next := node[h].next)];
    CountUpdate(node, n, mid[n]);
    CountUpdate(mid, h, node[h].(next := n));
    ContentsGrow(node, at, PlaceBehind(node, h, n, key), at[key := n], key, nothing);
  }

  lemma DisplacingContents<V>(node: seq<HNode<V>>, at: map<Rune, nat>, h: nat, n: nat, prev: nat, key: Rune, nothing: V)
    requires Indexed(node, at) && Blank(node, nothing) && Occupied(node, h) && Occupied(node, prev) && prev != h
    requires n < |node| && node[n].flag.Empty? && key !in at
    ensures var node' := PlaceDisplacing(node, h, n, prev, key, nothing);
            var at' := at[node[h].key := n][key := h];
            && Indexed(node', at') && Blank(node', nothing) && Count(node') == Count(node) + 1
            && KeepsOccupied(node, node')
            && Contents(node', at') == Contents(node, at)[key := Entry(Inner, nothing)]
  {
    hide Count, Contents, Indexed, PlaceDisplacing, Blank, KeepsOccupied;
    DisplacingCount(node, h, n, prev, key, nothing);
    DisplacingIndexed(node, at, h, n, prev, key, nothing);
    ContentsGrow(node, at, PlaceDisplacing(node, h, n, prev, key, nothing), at[node[h].key := n][key := h], key,
        nothing);
  }

  lemma DisplacingCount<V>(node: seq<HNode<V>>, h: nat, n: nat, prev: nat, key: Rune, nothing: V)
    requires Occupied(node, h) && Occupied(node, prev) && prev != h && n < |node| && node[n].flag.Empty?
    ensures Count(PlaceDisplacing(node, h, n, prev, key, nothing)) == Count(node) + 1
  {
    hide Count;
    var a := node[prev := node[prev].(next := n)];
    var b := a[n := node[h]];
    CountUpdate(node, prev, a[prev]);
    CountUpdate(a, n, node[h]);
    CountUpdate(b, h, HNode(key, -1, Inner, nothing));
  }

  lemma DisplacingIndexed<V>(node: seq<HNode<V>>, at: map<Rune, nat>, h: nat, n: nat, prev: nat, key: Rune, nothing: V)
    requires Indexed(node, at) && Blank(node, nothing) && Occupied(node, h) && Occupied(node, prev) && prev != h
    requires n < |node| && node[n].flag.Empty? && key !in at
    ensures var node' := PlaceDisplacing(node, h, n, prev, key, nothing);
            var at' := at[node[h].key := n][key := h];
            && Indexed(node', at') && Blank(node', nothing) && at'.Keys == at.Keys + {key} && KeepsOccupied(node, node')
            && at'[key] == h && node'[h].flag.Inner? && node'[h].value == nothing
            && forall k | k in at :: && at'[k] < |node'| && at[k] < |node|
                 && node'[at'[k]].flag == node[at[k]].flag && node'[at'[k]].value == node[at[k]].value
  {
    var node' := PlaceDisplacing(node, h, n, prev, key, nothing);
    var at' := at[node[h].key := n][key := h];
    forall i | Occupied(node', i) ensures node'[i].key in at' && at'[node'[i].key] == i {
      assert i != n && i != h ==> Occupied(node, i);
    }
  }

  /** Writing the flag or the value of an occupied slot. */
  lemma RewriteSlot<V>(node: seq<HNode<V>>, chain: seq<seq<nat>>, pos: seq<nat>, at: map<Rune, nat>, i: nat,
      flag: Flag, value: V, nothing: V)
    requires Chained(node, chain, pos) && Indexed(node, at) && Blank(node, nothing) && Occupied(node, i) && !flag.Empty?
    ensures var node' := node[i := node[i].(flag := flag, value := value)];
            && Chained(node', chain, pos) && Indexed(node', at) && Blank(node', nothing)
            && Count(node') == Count(node) && KeepsOccupied(node, node')
            && Contents(node', at) == Contents(node, at)[node[i].key := Entry(flag, value)]
  {
    hide Count;
    var node' := node[i := node[i].(flag := flag, value := value)];
    CountUpdate(node, i, node'[i]);
    forall h, k | 0 <= h < |chain| && 0 <= k < |chain[h]| ensures LinkOk(node', chain, pos, h, k) {
      assert LinkOk(node, chain, pos, h, k);
    }
    forall j | Occupied(node', j) ensures SlotOk(node', chain, pos, j) {
      assert Occupied(node, j);
      assert SlotOk(node, chain, pos, j);
    }
  }

  // ---- reinsertion into a larger table ----------------------------------------------------

  lemma {:induction false} CountNone<V>(node: seq<HNode<V>>)
    requires forall i | 0 <= i < |node| :: node[i].flag.Empty?
    ensures Count(node) == 0
  {
    if node != [] {
      CountNone(node[..|node| - 1]);
    }
  }

  /** A table of empty slots. */
  lemma BlankTable<V>(n: nat, key: Rune, nothing: V)
    ensures var node := seq(n, _ => HNode(key, -1, Empty, nothing));
            && Chained(node, seq(n, _ => []), seq(n, _ => 0)) && Indexed(node, map[]) && Blank(node, nothing)
            && Contents(node, map[]) == map[] && Count(node) == 0
  {
    CountNone(seq(n, _ => HNode(key, -1, Empty, nothing)));
  }

  /** The entries of the slots below `i`. */
  ghost function Part<V>(node: seq<HNode<V>>, at: map<Rune, nat>, i: nat): map<Rune, Entry<V>>
    requires Indexed(node, at)
  {
    map key | key in at && at[key] < i :: Entry(node[at[key]].flag, node[at[key]].value)
  }

  lemma PartStep<V>(node: seq<HNode<V>>, at: map<Rune, nat>, i: nat)
    requires Indexed(node, at) && i < |node|
    ensures node[i].flag.Empty? ==>
              Part(node, at, i + 1) == Part(node, at, i)
              && Count(node[..i + 1]) == Count(node[..i])
    ensures !node[i].flag.Empty? ==>
              && node[i].key !in Part(node, at, i) && Count(node[..i + 1]) == Count(node[..i]) + 1
              && Part(node, at, i + 1) == Part(node, at, i)[node[i].key := Entry(node[i].flag, node[i].value)]
  {
    hide Count;
    PrefixCount(node, i);
    assert !node[i].flag.Empty? ==> Occupied(node, i);
    assert forall key | key in at && at[key] == i :: Occupied(node, i) && node[i].key == key;
  }

  lemma PrefixCount<V>(node: seq<HNode<V>>, i: nat)
    requires i < |node|
    ensures Count(node[..i + 1]) == Count(node[..i]) + (if node[i].flag.Empty? then 0 else 1)
  {
    assert node[..i + 1][..i] == node[..i];
  }

  lemma PartEnds<V>(node: seq<HNode<V>>, at: map<Rune, nat>)
    requires Indexed(node, at)
    ensures Part(node, at, 0) == map[] && Count(node[..0]) == 0
    ensures Part(node, at, |node|) == Contents(node, at) && Contents(node, at).Keys == at.Keys
  {
  }
}
