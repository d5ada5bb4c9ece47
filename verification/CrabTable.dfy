/** The hash table of lua-crab: insertion with displacement, chaining and doubling, in place. */
module CrabTable {
  import opened Common
  import opened CrabHash

  predicate PowerOfTwo(c: nat) {
    c == 1 || (c > 1 && c % 2 == 0 && PowerOfTwo(c / 2))
  }

  type Slots = seq<HNode<Table?>>

  class Table {
    var capacity: nat
    var node: Slots
    var lastfree: int
    ghost var chain: seq<seq<nat>>
    ghost var pos: seq<nat>
    ghost var at: map<Rune, nat>

    ghost predicate Valid()
      reads this
    {
      && |node| == capacity > 0 && PowerOfTwo(capacity)
      && Chained(node, chain, pos) && Indexed(node, at) && Blank(node, null)
      && -1 <= lastfree < capacity
      && (forall i | lastfree < i < capacity :: Occupied(node, i))
    }

    /** The finite map the table stands for. */
    ghost function Map(): map<Rune, Entry<Table?>>
      requires Valid()
      reads this
    {
      Contents(node, at)
    }

    lemma Sizes()
      requires Valid()
      ensures |chain| == |pos| == |node| == capacity
    {
    }

    ghost predicate Full()
      reads this
    {
      Count(node) == |node|
    }

    /** table_new */
    constructor ()
      ensures Valid() && Map() == map[] && capacity == 1
    {
      capacity := 1;
      node := [HNode(0, -1, Empty, null)];
      lastfree := 0;
      chain, pos, at := [[]], [0], map[];
    }

    /** table_get: the slot of the key, -1 when it is absent. */
    method Get(key: Rune) returns (r: int)
      requires Valid()
      ensures key in at ==> r == at[key]
      ensures key !in at ==> r == -1
    {
      hide Count, PowerOfTwo, Blank;
      var i: int := MainPosition(capacity, key);
      ghost var h: nat := i;
      Lookup(key);
      while !node[i].flag.Empty?
        invariant 0 <= i < capacity
        invariant key in at ==> OnTheWay(i, at[key])
        decreases WayLeft(i)
      {
        if node[i].key == key {
          return i;
        }
        Advance(i, key);
        if node[i].next < 0 {
          break;
        }
        i := node[i].next;
      }
      return -1;
    }

    /** Slot i comes at or before slot j in the same chain. */
    ghost predicate OnTheWay(i: int, j: int)
      reads this
    {
      |pos| == |node| && Occupied(node, i) && Occupied(node, j) && Home(node, i) == Home(node, j) && pos[i] <= pos[j]
    }

    /** How much of its chain lies at and behind slot i. */
    ghost function WayLeft(i: int): int
      requires Chained(node, chain, pos) && 0 <= i < |node|
      reads this
    {
      if Occupied(node, i) then |chain[Home(node, i)]| - pos[i] else 0
    }

    /** The search for a present key starts at the head of its chain. */
    lemma Lookup(key: Rune)
      requires Valid()
      ensures key in at ==> OnTheWay(MainPosition(capacity, key), at[key])
    {
      if key in at {
        assert SlotOk(node, chain, pos, at[key]);
        assert LinkOk(node, chain, pos, Home(node, at[key]), 0);
      }
    }

    /** One step along a chain. */
    lemma Advance(i: nat, key: Rune)
      requires Valid() && Occupied(node, i) && node[i].key != key
      ensures -1 <= node[i].next < capacity
      ensures node[i].next >= 0 ==>
                Occupied(node, node[i].next) && WayLeft(node[i].next) < WayLeft(i)
                && WayLeft(node[i].next) > 0
      ensures node[i].next >= 0 ==> pos[node[i].next] == pos[i] + 1 && Home(node, node[i].next) == Home(node, i)
      ensures key in at && OnTheWay(i, at[key]) ==> node[i].next >= 0 && OnTheWay(node[i].next, at[key])
    {
      assert SlotOk(node, chain, pos, i);
      var h := Home(node, i);
      assert LinkOk(node, chain, pos, h, pos[i]);
      assert pos[i] + 1 < |chain[h]| ==> LinkOk(node, chain, pos, h, pos[i] + 1);
      assert key in at ==> SlotOk(node, chain, pos, at[key]);
    }

    /** getfreenode: the highest free slot at or below lastfree; -1 only on a full table. */
    method GetFree() returns (n: int)
      requires Valid()
      modifies `lastfree
      ensures Valid()
      ensures n == -1 <==> Full()
      ensures n != -1 ==> 0 <= n < capacity && node[n].flag.Empty?
    {
      hide Count, PowerOfTwo, Blank, Chained, Indexed;
      CountFull(node);
      while lastfree >= 0
        invariant -1 <= lastfree < capacity
        invariant forall i | lastfree < i < capacity :: Occupied(node, i)
        decreases lastfree
      {
        if node[lastfree].flag.Empty? {
          assert !Occupied(node, lastfree);
          return lastfree;
        }
        lastfree := lastfree - 1;
      }
      return -1;
    }

    /** table_newkey, the walk to the node that links to slot h. */
    method FindPrevious(h: nat) returns (prev: nat)
      requires Valid() && Occupied(node, h) && Home(node, h) != h
      ensures Occupied(node, prev) && node[prev].next == h
    {
      hide Count, PowerOfTwo, Blank, Indexed;
      prev := MainPosition(capacity, node[h].key);
      assert SlotOk(node, chain, pos, h);
      assert LinkOk(node, chain, pos, prev, 0);
      while node[prev].next != h
        invariant Occupied(node, prev) && Home(node, prev) == Home(node, h) && pos[prev] < pos[h]
        decreases pos[h] - pos[prev]
      {
        PreviousStep(prev, h);
        prev := node[prev].next;
      }
    }

    lemma PreviousStep(i: nat, h: nat)
      requires Valid() && Occupied(node, i) && Occupied(node, h) && Home(node, i) == Home(node, h) && pos[i] < pos[h]
      requires node[i].next != h
      ensures var j := node[i].next;
              Occupied(node, j) && Home(node, j) == Home(node, h) && pos[j] == pos[i] + 1 < pos[h]
    {
      var o := Home(node, h);
      assert SlotOk(node, chain, pos, i);
      assert SlotOk(node, chain, pos, h);
      assert LinkOk(node, chain, pos, o, pos[i]);
      assert LinkOk(node, chain, pos, o, pos[i] + 1);
    }

    /** table_newkey on a free main position. */
    method PutFree(h: nat, key: Rune)
      requires Valid() && key !in at && h == MainPosition(capacity, key) && node[h].flag.Empty?
      modifies `node, `chain, `pos, `at
      ensures Valid() && key in at && at[key] == h
      ensures Map() == old(Map())[key := Entry(Inner, null)] && Count(node) == old(Count(node)) + 1
    {
      hide Count, PowerOfTwo, Blank, Chained, Indexed, Contents, KeepsOccupied;
      Sizes();
      PlaceFreeChained(node, chain, pos, h, key);
      PlaceFreeContents(node, at, h, key, null);
      OccupiedAbove(node, PlaceFree(node, h, key), lastfree);
      node := node[h := node[h].(key := key, flag := Inner)];
      chain, pos, at := chain[h := [h]], pos[h := 0], at[key := h];
    }

    /** table_newkey behind a colliding node in its main position. */
    method PutBehind(h: nat, n: nat, key: Rune)
      requires Valid() && key !in at && h == MainPosition(capacity, key)
      requires Occupied(node, h) && Home(node, h) == h && n < capacity && node[n].flag.Empty?
      modifies `node, `chain, `pos, `at
      ensures Valid() && key in at && at[key] == n
      ensures Map() == old(Map())[key := Entry(Inner, null)] && Count(node) == old(Count(node)) + 1
    {
      hide Count, PowerOfTwo, Blank, Chained, Indexed, Contents, KeepsOccupied;
      Sizes();
      PlaceBehindChained(node, chain, pos, h, n, key);
      PlaceBehindContents(node, at, h, n, key, null);
      OccupiedAbove(node, PlaceBehind(node, h, n, key), lastfree);
      chain, pos, at := chain[h := [h, n] + chain[h][1..]], PosBehind(node, pos, h, n), at[key := n];
      node := node[n := node[n].(key := key, flag := Inner, next := node[h].next)][h := node[h].(next := n)];
    }

    /** table_newkey displacing a colliding node that is not in its main position. */
    method PutDisplacing(h: nat, n: nat, key: Rune)
      requires Valid() && key !in at && h == MainPosition(capacity, key)
      requires Occupied(node, h) && Home(node, h) != h && n < capacity && node[n].flag.Empty?
      modifies `node, `chain, `pos, `at
      ensures Valid() && key in at && at[key] == h
      ensures Map() == old(Map())[key := Entry(Inner, null)] && Count(node) == old(Count(node)) + 1
    {
      hide Count, PowerOfTwo, Blank, Chained, Indexed, Contents, KeepsOccupied;
      Sizes();
      var prev := FindPrevious(h);
      DisplacingChained(node, chain, pos, h, n, prev, key, null);
      DisplacingContents(node, at, h, n, prev, key, null);
      OccupiedAbove(node, PlaceDisplacing(node, h, n, prev, key, null), lastfree);
      chain, pos := ChainDisplacing(chain, Home(node, h), pos[h], n, h), pos[n := pos[h]][h := 0];
      at := at[node[h].key := n][key := h];
      node := node[prev := node[prev].(next := n)][n := node[h]][h := HNode(key, -1, Inner, null)];
    }

    /** table_newkey: a slot for a key that is not in the table. */
    method NewKey(key: Rune) returns (i: nat)
      requires Valid() && key !in at
      modifies this
      ensures Valid() && key in at && i == at[key]
      ensures Map() == old(Map())[key := Entry(Inner, null)]
      ensures !old(Full()) ==> capacity == old(capacity) && Count(node) == old(Count(node)) + 1
      ensures old(Full()) ==> capacity == old(capacity) || capacity == 2 * old(capacity)
      decreases if Full() then 2 else 0
    {
      hide Count, PowerOfTwo, Blank, Chained, Indexed, Contents, KeepsOccupied;
      var h: nat := MainPosition(capacity, key);
      if !node[h].flag.Empty? {
        var n := GetFree();
        if n == -1 {
          Expand();
          i := NewKey(key);
        } else if Home(node, h) != h {
          PutDisplacing(h, n, key);
          i := h;
        } else {
          PutBehind(h, n, key);
          i := n;
        }
      } else {
        PutFree(h, key);
        i := h;
      }
    }

    /** A write through a returned node: its flag, which stays non-zero, and its value. */
    method Write(i: nat, flag: Flag, value: Table?)
      requires Valid() && Occupied(node, i) && !flag.Empty?
      modifies `node
      ensures Valid() && Count(node) == old(Count(node)) && Occupied(node, i) && node[i].key == old(node[i].key)
      ensures Map() == old(Map())[node[i].key := Entry(flag, value)]
    {
      hide Count, PowerOfTwo, Blank, Chained, Indexed, Contents, KeepsOccupied;
      RewriteSlot(node, chain, pos, at, i, flag, value, null);
      OccupiedAbove(node, node[i := node[i].(flag := flag, value := value)], lastfree);
      node := node[i := node[i].(flag := flag, value := value)];
    }

    /** table_expand, the new array. */
    method Reset(n: nat)
      requires n > 0 && PowerOfTwo(n)
      modifies this
      ensures Valid() && capacity == n && Map() == map[] && at == map[] && Count(node) == 0
    {
      hide Count, PowerOfTwo, Blank, Chained, Indexed, Contents, KeepsOccupied;
      BlankTable<Table?>(n, 0, null);
      capacity := n;
      node := seq(n, _ => HNode(0, -1, Empty, null));
      lastfree := n - 1;
      chain, pos, at := seq(n, _ => []), seq(n, _ => 0), map[];
    }

    lemma KeysOfMap()
      requires Valid()
      ensures Map().Keys == at.Keys && (forall key | key in at :: Occupied(node, at[key]) && node[at[key]].key == key)
    {
      PartEnds(node, at);
    }

    /** The slot of a present key shows its entry. */
    lemma SlotOf(key: Rune)
      requires Valid() && key in at
      ensures Occupied(node, at[key]) && node[at[key]].key == key
      ensures Map()[key] == Entry(node[at[key]].flag, node[at[key]].value)
    {
    }

    /** table_expand: doubles the capacity and reinserts every key. */
    method Expand()
      requires Valid() && Full()
      modifies this
      ensures Valid() && Map() == old(Map()) && capacity == 2 * old(capacity) && !Full()
      ensures at.Keys == old(at.Keys)
      decreases 1
    {
      hide Count, PowerOfTwo, Blank, Chained, Indexed, Contents, KeepsOccupied, Part;
      var before := node;
      ghost var was := at;
      KeysOfMap();
      PartEnds(before, was);
      DoublePower(capacity);
      Reset(2 * capacity);
      var i: nat := 0;
      while i < |before|
        invariant i <= |before|
        invariant Valid() && capacity == 2 * |before| && Map() == Part(before, was, i)
        invariant Count(node) == Count(before[..i])
      {
        PartStep(before, was, i);
        KeysOfMap();
        if !before[i].flag.Empty? {
          var j := NewKey(before[i].key);
          KeysOfMap();
          Write(j, before[i].flag, before[i].value);
        }
        i := i + 1;
      }
      KeysOfMap();
      assert before[..i] == before;
    }

    lemma DoublePower(c: nat)
      requires PowerOfTwo(c)
      ensures PowerOfTwo(2 * c)
    {
    }

    /** table_insert: the slot of the key, made if necessary. */
    method Insert(key: Rune) returns (i: nat)
      requires Valid()
      modifies this
      ensures Valid() && key in at && i == at[key]
      ensures Map() == if key in old(at) then old(Map()) else old(Map())[key := Entry(Inner, null)]
    {
      hide Count, PowerOfTwo, Blank, Chained, Indexed, Contents, KeepsOccupied;
      var r := Get(key);
      if r >= 0 {
        return r;
      }
      i := NewKey(key);
    }
  }
}
