/** The hash part of a table: nodes chained by `next` indices (ltable.c:15-18, ltable.c:382-429).

    Each node carries two ghost coordinates: the chain it belongs to and its rank in that chain.
    They are what makes the chains of the source linear lists. */
module TableNodes {
  import opened TableValues

  /** A node. `dead` is the LUA_TDEADKEY mark the collector puts on the key of an empty entry;
      `next` is the index of the next node of the chain, -1 for NULL. */
  datatype Node = Node(key: Value, dead: bool, val: Value, next: int) {
    predicate Keyed() {
      key != Nil
    }

    /** What a lookup compares: a dead key equals no key. */
    predicate Has(k: Value) {
      Keyed() && !dead && RawEqual(key, k)
    }
  }

  const FREE_NODE := Node(Nil, false, Nil, -1)

  /** The main position of each key, in a vector of a fixed size. */
  type Home = Value -> int

  function HomeOf(hash: Value -> nat, size: nat): Home
    requires size > 0
  {
    k => MainPosition(hash, k, size)
  }

  datatype Layout = Layout(chain: seq<int>, rank: seq<real>)

  ghost predicate SameChain(lay: Layout, i: int, j: int)
    requires 0 <= i < |lay.chain| && 0 <= j < |lay.chain|
  {
    lay.chain[i] == lay.chain[j]
  }

  /** i comes strictly before j on one chain. */
  ghost predicate Before(lay: Layout, i: int, j: int)
    requires |lay.chain| == |lay.rank|
    requires 0 <= i < |lay.chain| && 0 <= j < |lay.chain|
  {
    lay.chain[i] == lay.chain[j] && lay.rank[i] < lay.rank[j]
  }

  ghost predicate Comparable(lay: Layout, i: int, j: int)
    requires |lay.chain| == |lay.rank|
    requires 0 <= i < |lay.chain| && 0 <= j < |lay.chain|
  {
    SameChain(lay, i, j) && (i == j || Before(lay, i, j) || Before(lay, j, i))
  }

  /** `next` leads to the successor on the chain, or ends it. */
  ghost predicate LinkOk(nodes: seq<Node>, lay: Layout, i: int)
    requires |lay.chain| == |lay.rank| == |nodes|
    requires 0 <= i < |nodes|
  {
    && -1 <= nodes[i].next < |nodes|
    && (nodes[i].next >= 0 ==> Before(lay, i, nodes[i].next))
    && (forall k | 0 <= k < |nodes| && Before(lay, i, k) ::
          nodes[i].next >= 0 && (k == nodes[i].next || Before(lay, nodes[i].next, k)))
  }

  ghost predicate Linked(nodes: seq<Node>, lay: Layout) {
    && |lay.chain| == |lay.rank| == |nodes|
    && (forall i, j | 0 <= i < |nodes| && 0 <= j < |nodes| && i != j && SameChain(lay, i, j) ::
          lay.rank[i] != lay.rank[j])
    && (forall i | 0 <= i < |nodes| :: LinkOk(nodes, lay, i))
  }

  /** The key of node i can be found from its main position, and the node at the main position
      is itself at home: the main invariant of the table. */
  ghost predicate HomeOk(home: Home, nodes: seq<Node>, lay: Layout, i: int)
    requires |lay.chain| == |lay.rank| == |nodes|
    requires 0 <= i < |nodes|
  {
    var m := home(nodes[i].key);
    && 0 <= m < |nodes|
    && (m == i || Before(lay, m, i))
    && nodes[m].Keyed()
    && home(nodes[m].key) == m
  }

  ghost predicate FreeOk(nodes: seq<Node>, lay: Layout, i: int)
    requires |lay.chain| == |lay.rank| == |nodes|
    requires 0 <= i < |nodes|
  {
    && nodes[i] == FREE_NODE
    && forall j | 0 <= j < |nodes| && j != i :: !SameChain(lay, i, j)
  }

  ghost predicate NodeOk(nodes: seq<Node>, i: int)
    requires 0 <= i < |nodes|
  {
    && nodes[i].key != Num(NaN)
    && (nodes[i].dead ==> nodes[i].val == Nil && IsCollectable(nodes[i].key))
  }

  /** A key may have dead nodes besides, left from times when its entry was empty. */
  ghost predicate DistinctKeys(nodes: seq<Node>) {
    forall i, j | 0 <= i < |nodes| && 0 <= j < |nodes| && nodes[i].Keyed() && nodes[i].key == nodes[j].key &&
        !nodes[i].dead && !nodes[j].dead :: i == j
  }

  /** The entries with a value have keys that are not dead, and different ones. */
  ghost predicate LiveKeyed(nodes: seq<Node>) {
    DistinctKeys(nodes) && forall i | 0 <= i < |nodes| && nodes[i].val != Nil :: nodes[i].Keyed() && !nodes[i].dead
  }

  /** The node of a key comes before any dead nodes of the same key. */
  ghost predicate LiveFirst(nodes: seq<Node>, lay: Layout)
    requires |lay.chain| == |lay.rank| == |nodes|
  {
    forall i, j | 0 <= i < |nodes| && 0 <= j < |nodes| && nodes[i].Keyed() && nodes[i].key == nodes[j].key &&
        !nodes[i].dead && nodes[j].dead :: Before(lay, i, j)
  }

  /** Everything newkey keeps about the node vector. */
  ghost predicate ValidNodes(home: Home, nodes: seq<Node>, lay: Layout) {
    && |nodes| > 0
    && (forall k :: 0 <= home(k) < |nodes|)
    && Linked(nodes, lay)
    && DistinctKeys(nodes) && LiveFirst(nodes, lay)
    && (forall i | 0 <= i < |nodes| :: NodeOk(nodes, i))
    && (forall i | 0 <= i < |nodes| && nodes[i].Keyed() :: HomeOk(home, nodes, lay, i))
    && (forall i | 0 <= i < |nodes| && !nodes[i].Keyed() :: FreeOk(nodes, lay, i))
  }

  /** The value the hash part holds for k, by looking at every node. */
  ghost function NodeValue(nodes: seq<Node>, k: Value): Value {
    if exists i :: 0 <= i < |nodes| && nodes[i].Has(k)
    then var i :| 0 <= i < |nodes| && nodes[i].Has(k); nodes[i].val
    else Nil
  }

  lemma NodeValueAt(nodes: seq<Node>, i: int, k: Value)
    requires DistinctKeys(nodes)
    requires 0 <= i < |nodes| && nodes[i].Has(k) && k != Nil
    ensures NodeValue(nodes, k) == nodes[i].val
  {
  }

  /** The map a table stands for: the array part answers for its own indices. */
  ghost function Lookup(a: seq<Value>, nodes: seq<Node>, k: Value): Value {
    if InArray(k, |a|) then a[ArrayIndex(k) - 1] else NodeValue(nodes, k)
  }

  /** Fresh nodes, each alone on its own chain. */
  ghost function FreshLayout(n: nat): Layout {
    Layout(seq(n, i => i), seq(n, _ => 0.0))
  }

  lemma FreshNodesValid(home: Home, nodes: seq<Node>)
    requires |nodes| > 0 && forall i | 0 <= i < |nodes| :: nodes[i] == FREE_NODE
    requires forall k :: 0 <= home(k) < |nodes|
    ensures ValidNodes(home, nodes, FreshLayout(|nodes|))
    ensures forall k | k != Nil :: NodeValue(nodes, k) == Nil
  {
  }

  /** Acyclic chains, at most one predecessor per node. */
  lemma OnePredecessor(nodes: seq<Node>, lay: Layout, i: int, j: int)
    requires Linked(nodes, lay)
    requires 0 <= i < |nodes| && 0 <= j < |nodes|
    requires nodes[i].next >= 0 && nodes[i].next == nodes[j].next
    ensures i == j
  {
    assert LinkOk(nodes, lay, i) && LinkOk(nodes, lay, j);
    assert Comparable(lay, i, j);
  }

  // ---- The three ways newkey stores a key ----

  /** The key has no node but dead ones. */
  ghost predicate KeyAbsent(nodes: seq<Node>, key: Value) {
    forall i | 0 <= i < |nodes| && nodes[i].key == key :: nodes[i].dead
  }

  ghost function KeyedNodes(nodes: seq<Node>): set<int> {
    set i | 0 <= i < |nodes| && nodes[i].Keyed()
  }

  /** What a new key leaves behind: `slot` holds it with no value, every key keeps its value,
      and at most one more node is keyed. */
  ghost predicate KeyAdded(nodes: seq<Node>, after: seq<Node>, key: Value, slot: int) {
    && |after| == |nodes|
    && 0 <= slot < |after|
    && after[slot].Has(key) && after[slot].val == Nil
    && (forall k | IsKey(k) :: NodeValue(after, k) == NodeValue(nodes, k))
    && |KeyedNodes(after)| <= |KeyedNodes(nodes)| + 1
  }

  /** Only node n may have become keyed. */
  lemma OneMoreKey(nodes: seq<Node>, after: seq<Node>, n: int)
    requires |after| == |nodes|
    requires forall i | 0 <= i < |nodes| && i != n && after[i].Keyed() :: nodes[i].Keyed()
    ensures |KeyedNodes(after)| <= |KeyedNodes(nodes)| + 1
  {
    var rest := KeyedNodes(nodes) + {n} - KeyedNodes(after);
    assert KeyedNodes(nodes) + {n} == KeyedNodes(after) * (KeyedNodes(nodes) + {n}) + rest;
    assert KeyedNodes(after) <= KeyedNodes(nodes) + {n};
    assert KeyedNodes(after) * (KeyedNodes(nodes) + {n}) == KeyedNodes(after);
  }

  ghost predicate CanPlace(home: Home, nodes: seq<Node>, lay: Layout, key: Value, mp: int) {
    && ValidNodes(home, nodes, lay)
    && IsKey(key) && KeyAbsent(nodes, key)
    && mp == home(key)
  }

  function Swap(i: int, a: int, b: int): int {
    if i == a then b else if i == b then a else i
  }

  ghost predicate SameEntry(n: Node, m: Node) {
    (n.val == m.val == Nil) || (n.key == m.key && n.dead == m.dead && n.val == m.val)
  }

  /** Exchanging the places of two nodes, and changing only nodes without a value, keeps the
      value of every key. */
  lemma ValuesKept(nodes: seq<Node>, after: seq<Node>, a: int, b: int)
    requires |after| == |nodes| && 0 <= a < |nodes| && 0 <= b < |nodes|
    requires DistinctKeys(nodes) && DistinctKeys(after)
    requires forall i | 0 <= i < |nodes| :: SameEntry(after[i], nodes[Swap(i, a, b)])
    ensures forall k | IsKey(k) :: NodeValue(after, k) == NodeValue(nodes, k)
  {
    forall k | IsKey(k)
      ensures NodeValue(after, k) == NodeValue(nodes, k)
    {
      if i :| 0 <= i < |nodes| && nodes[i].Has(k) && nodes[i].val != Nil {
        var j := Swap(i, a, b);
        assert SameEntry(after[j], nodes[Swap(j, a, b)]);
        NodeValueAt(nodes, i, k);
        NodeValueAt(after, j, k);
      } else {
        forall j | 0 <= j < |after| && after[j].Has(k)
          ensures after[j].val == Nil
        {
          assert SameEntry(after[j], nodes[Swap(j, a, b)]);
        }
      }
    }
  }

  /** The main position holds no value: the new key takes it over, whatever key was there. */
  lemma PlaceHome(home: Home, nodes: seq<Node>, lay: Layout, key: Value, mp: int, after: seq<Node>)
    requires CanPlace(home, nodes, lay, key, mp)
    requires nodes[mp].val == Nil
    requires after == nodes[mp := Node(key, false, Nil, nodes[mp].next)]
    ensures ValidNodes(home, after, lay)
    ensures KeyAdded(nodes, after, key, mp)
  {
    assert Linked(after, lay) by {
      forall i | 0 <= i < |after|
        ensures LinkOk(after, lay, i)
      {
        assert LinkOk(nodes, lay, i);
      }
    }
    assert DistinctKeys(after);
    assert LiveFirst(after, lay) by {
      forall j | 0 <= j < |after| && after[j].dead && after[j].key == key
        ensures Before(lay, mp, j)
      {
        assert HomeOk(home, nodes, lay, j);
      }
    }
    forall i | 0 <= i < |after|
      ensures NodeOk(after, i)
    {
      assert NodeOk(nodes, i);
    }
    forall i | 0 <= i < |after| && after[i].Keyed()
      ensures HomeOk(home, after, lay, i)
    {
      assert i != mp ==> HomeOk(home, nodes, lay, i);
    }
    forall i | 0 <= i < |after| && !after[i].Keyed()
      ensures FreeOk(after, lay, i)
    {
      assert FreeOk(nodes, lay, i);
    }
    ValuesKept(nodes, after, mp, mp);
    OneMoreKey(nodes, after, mp);
  }

  ghost function AttachLayout(nodes: seq<Node>, lay: Layout, mp: int, n: int): Layout
    requires |lay.chain| == |lay.rank| == |nodes|
    requires 0 <= mp < |nodes| && 0 <= n < |nodes| && nodes[mp].next < |nodes|
  {
    var r := if nodes[mp].next < 0 then lay.rank[mp] + 1.0
             else (lay.rank[mp] + lay.rank[nodes[mp].next]) / 2.0;
    Layout(lay.chain[n := lay.chain[mp]], lay.rank[n := r])
  }

  lemma AttachLiveFirst(home: Home, nodes: seq<Node>, lay: Layout, key: Value, mp: int, n: int,
                        after: seq<Node>, lay': Layout)
    requires CanPlace(home, nodes, lay, key, mp)
    requires nodes[mp].Keyed() && nodes[mp].val != Nil && home(nodes[mp].key) == mp
    requires 0 <= n < |nodes| && !nodes[n].Keyed() && nodes[mp].next < |nodes|
    requires after == nodes[n := Node(key, false, Nil, nodes[mp].next)][mp := nodes[mp].(next := n)]
    requires lay' == AttachLayout(nodes, lay, mp, n)
    ensures LiveFirst(after, lay')
  {
    assert FreeOk(nodes, lay, n) && LinkOk(nodes, lay, mp) && NodeOk(nodes, mp);
    forall j | 0 <= j < |after| && after[j].dead && after[j].key == key
      ensures Before(lay', n, j)
    {
      assert HomeOk(home, nodes, lay, j) && Before(lay, mp, j);
    }
    forall i, j | 0 <= i < |after| && 0 <= j < |after| && after[i].Keyed() && after[i].key == after[j].key &&
        !after[i].dead && after[j].dead && i != n
      ensures Before(lay', i, j)
    {
      assert nodes[i].key == after[i].key && nodes[j].key == after[j].key && nodes[i].dead == after[i].dead;
      assert Before(lay, i, j);
    }
  }

  lemma AttachLinked(nodes: seq<Node>, lay: Layout, mp: int, n: int, after: seq<Node>, lay': Layout)
    requires Linked(nodes, lay)
    requires 0 <= mp < |nodes| && 0 <= n < |nodes| && mp != n && nodes[mp].next < |nodes|
    requires FreeOk(nodes, lay, n)
    requires |after| == |nodes| && lay' == AttachLayout(nodes, lay, mp, n)
    requires after[n].next == nodes[mp].next && after[mp].next == n
    requires forall i | 0 <= i < |nodes| && i != mp && i != n :: after[i].next == nodes[i].next
    ensures Linked(after, lay')
  {
    var nx := nodes[mp].next;
    assert LinkOk(nodes, lay, mp);
    assert nx >= 0 ==> Before(lay, mp, nx) && SameChain(lay, n, nx) == (n == nx) && !SameChain(lay, n, mp);
    forall k | 0 <= k < |nodes| && k != n && SameChain(lay, k, mp)
      ensures k == mp || Before(lay, k, mp) || (nx >= 0 && (k == nx || Before(lay, nx, k)))
    {
      assert k != mp ==> Before(lay, k, mp) || Before(lay, mp, k);
    }
    forall i | 0 <= i < |after|
      ensures LinkOk(after, lay', i)
    {
      assert LinkOk(nodes, lay, i);
      assert i != n && nodes[i].next >= 0 ==> SameChain(lay, i, nodes[i].next) && !SameChain(lay, n, i);
      forall k | 0 <= k < |after| && Before(lay', i, k)
        ensures after[i].next >= 0 && (k == after[i].next || Before(lay', after[i].next, k))
      {
        if i == n || k == n {
          assert SameChain(lay, if i == n then k else i, mp);
        } else {
          assert Before(lay, i, k);
        }
      }
    }
    forall i, j | 0 <= i < |after| && 0 <= j < |after| && i != j && SameChain(lay', i, j)
      ensures lay'.rank[i] != lay'.rank[j]
    {
      if i != n && j != n {
        assert SameChain(lay, i, j);
      } else {
        assert SameChain(lay, if i == n then j else i, mp);
      }
    }
  }

  lemma AttachNodes(home: Home, nodes: seq<Node>, lay: Layout, key: Value, mp: int, n: int,
                    after: seq<Node>, lay': Layout)
    requires CanPlace(home, nodes, lay, key, mp)
    requires nodes[mp].Keyed() && nodes[mp].val != Nil && home(nodes[mp].key) == mp
    requires 0 <= n < |nodes| && !nodes[n].Keyed() && nodes[mp].next < |nodes|
    requires after == nodes[n := Node(key, false, Nil, nodes[mp].next)][mp := nodes[mp].(next := n)]
    requires lay' == AttachLayout(nodes, lay, mp, n) && Linked(after, lay')
    ensures nodes[n].val == Nil && forall i | 0 <= i < |after| :: NodeOk(after, i)
    ensures forall i | 0 <= i < |after| && after[i].Keyed() :: HomeOk(home, after, lay', i)
    ensures forall i | 0 <= i < |after| && !after[i].Keyed() :: FreeOk(after, lay', i)
  {
    hide KeyedNodes, DistinctKeys, LiveFirst, KeyAbsent;
    assert FreeOk(nodes, lay, n);
    forall i | 0 <= i < |after|
      ensures NodeOk(after, i)
    {
      assert NodeOk(nodes, i);
    }
    assert LinkOk(nodes, lay, mp) && Before(lay', mp, n);
    forall i | 0 <= i < |after| && after[i].Keyed()
      ensures HomeOk(home, after, lay', i)
    {
      assert i != n ==> HomeOk(home, nodes, lay, i);
    }
    forall i | 0 <= i < |after| && !after[i].Keyed()
      ensures FreeOk(after, lay', i)
    {
      assert FreeOk(nodes, lay, i) && !SameChain(lay, i, mp);
      assert forall j | 0 <= j < |after| && j != i && j != n :: SameChain(lay', i, j) == SameChain(lay, i, j);
    }
  }

  /** The colliding node is at home: the new key goes to a free node chained right after it. */
  lemma AttachAfter(home: Home, nodes: seq<Node>, lay: Layout, key: Value, mp: int, n: int,
                    after: seq<Node>, lay': Layout)
    requires CanPlace(home, nodes, lay, key, mp)
    requires nodes[mp].Keyed() && nodes[mp].val != Nil && home(nodes[mp].key) == mp
    requires 0 <= n < |nodes| && !nodes[n].Keyed() && nodes[mp].next < |nodes|
    requires after == nodes[n := Node(key, false, Nil, nodes[mp].next)][mp := nodes[mp].(next := n)]
    requires lay' == AttachLayout(nodes, lay, mp, n)
    ensures ValidNodes(home, after, lay')
    ensures KeyAdded(nodes, after, key, n)
  {
    hide Before, FreeOk, HomeOk, KeyedNodes, LinkOk, Linked, LiveFirst, NodeOk;
    AttachLinked(nodes, lay, mp, n, after, lay');
    AttachNodes(home, nodes, lay, key, mp, n, after, lay');
    AttachLiveFirst(home, nodes, lay, key, mp, n, after, lay');
    assert DistinctKeys(after);
    ValuesKept(nodes, after, mp, mp);
    OneMoreKey(nodes, after, n);
  }

  ghost function MoveLayout(lay: Layout, mp: int, n: int): Layout
    requires |lay.chain| == |lay.rank|
    requires 0 <= mp < |lay.chain| && 0 <= n < |lay.chain|
  {
    Layout(lay.chain[n := lay.chain[mp]][mp := lay.chain[n]], lay.rank[n := lay.rank[mp]][mp := lay.rank[n]])
  }

  ghost predicate Moved(nodes: seq<Node>, key: Value, mp: int, n: int, prev: int, after: seq<Node>) {
    && 0 <= mp < |nodes| && 0 <= n < |nodes| && 0 <= prev < |nodes|
    && after == nodes[prev := nodes[prev].(next := n)][n := nodes[mp]][mp := Node(key, false, Nil, -1)]
  }

  /** A main position that is not taken by a key at home is that of no key in use, dead ones included. */
  lemma OffHome(home: Home, nodes: seq<Node>, lay: Layout, mp: int, w: int)
    requires ValidNodes(home, nodes, lay) && 0 <= mp < |nodes| && home(nodes[mp].key) != mp
    requires 0 <= w < |nodes| && nodes[w].Keyed()
    ensures home(nodes[w].key) != mp
  {
    assert HomeOk(home, nodes, lay, w);
  }

  lemma MoveLiveFirst(home: Home, nodes: seq<Node>, lay: Layout, key: Value, mp: int, n: int, prev: int,
                      after: seq<Node>, lay': Layout)
    requires CanPlace(home, nodes, lay, key, mp) && Moved(nodes, key, mp, n, prev, after)
    requires nodes[mp].Keyed() && home(nodes[mp].key) != mp
    requires !nodes[n].Keyed() && prev != mp && prev != n && mp != n
    requires lay' == MoveLayout(lay, mp, n)
    ensures LiveFirst(after, lay')
  {
    assert NodeOk(nodes, n);
    forall i, j | 0 <= i < |after| && 0 <= j < |after| && after[i].Keyed() && after[i].key == after[j].key &&
        !after[i].dead && after[j].dead
      ensures Before(lay', i, j)
    {
      var v, w := Swap(i, mp, n), Swap(j, mp, n);
      assert j != mp && nodes[w].key == after[j].key && nodes[w].dead;
      OffHome(home, nodes, lay, mp, w);
      assert i != mp && nodes[v].key == after[i].key && !nodes[v].dead && Before(lay, v, w);
    }
  }

  lemma MoveDistinct(nodes: seq<Node>, key: Value, mp: int, n: int, prev: int, after: seq<Node>)
    requires DistinctKeys(nodes) && KeyAbsent(nodes, key) && Moved(nodes, key, mp, n, prev, after)
    requires !nodes[n].Keyed() && prev != mp && prev != n && mp != n
    ensures DistinctKeys(after)
  {
    assert forall i | 0 <= i < |after| && i != mp ::
        after[i].key == nodes[Swap(i, mp, n)].key && after[i].dead == nodes[Swap(i, mp, n)].dead;
  }

  lemma MoveNode(home: Home, nodes: seq<Node>, lay: Layout, mp: int, n: int, i: int, after: seq<Node>, lay': Layout)
    requires ValidNodes(home, nodes, lay)
    requires 0 <= mp < |nodes| && 0 <= n < |nodes| && 0 <= i < |nodes| == |after| && lay' == MoveLayout(lay, mp, n)
    requires nodes[mp].Keyed() && home(nodes[mp].key) != mp && !nodes[n].Keyed()
    requires IsKey(after[mp].key) && home(after[mp].key) == mp && !after[mp].dead
    requires forall j | 0 <= j < |nodes| && j != mp :: after[j].key == nodes[Swap(j, mp, n)].key
    requires i != mp ==> after[i].dead == nodes[Swap(i, mp, n)].dead && after[i].val == nodes[Swap(i, mp, n)].val
    requires i != mp && i != n && !nodes[i].Keyed() ==> after[i] == nodes[i]
    ensures NodeOk(after, i)
    ensures after[i].Keyed() ==> HomeOk(home, after, lay', i)
    ensures !after[i].Keyed() ==> FreeOk(after, lay', i)
  {
    var was := Swap(i, mp, n);
    assert NodeOk(nodes, was);
    if after[i].Keyed() {
      if i != mp {
        assert HomeOk(home, nodes, lay, was) && home(nodes[was].key) != mp;
      }
    } else {
      assert FreeOk(nodes, lay, i);
      assert forall j | 0 <= j < |after| :: SameChain(lay', i, j) == SameChain(lay, i, Swap(j, mp, n));
    }
  }

  /** Where two nodes stand after two others have exchanged their places. */
  lemma MoveOrder(lay: Layout, mp: int, n: int, i: int, j: int)
    requires |lay.chain| == |lay.rank| && 0 <= mp < |lay.chain| && 0 <= n < |lay.chain|
    requires 0 <= i < |lay.chain| && 0 <= j < |lay.chain|
    ensures SameChain(MoveLayout(lay, mp, n), i, j) == SameChain(lay, Swap(i, mp, n), Swap(j, mp, n))
    ensures Before(MoveLayout(lay, mp, n), i, j) == Before(lay, Swap(i, mp, n), Swap(j, mp, n))
  {
  }

  lemma MoveLink(nodes: seq<Node>, lay: Layout, mp: int, n: int, prev: int, after: seq<Node>, lay': Layout, i: int)
    requires Linked(nodes, lay)
    requires 0 <= mp < |nodes| && 0 <= n < |nodes| && 0 <= prev < |nodes| && mp != n && 0 <= i < |nodes|
    requires FreeOk(nodes, lay, n) && nodes[prev].next == mp
    requires |after| == |nodes| && lay' == MoveLayout(lay, mp, n)
    requires after[n].next == nodes[mp].next && after[mp].next == -1 && (prev != n ==> after[prev].next == n)
    requires i != mp && i != n && i != prev ==> after[i].next == nodes[i].next
    ensures LinkOk(after, lay', i)
  {
    assert LinkOk(nodes, lay, prev) && prev != n && prev != mp;
    forall k | 0 <= k < |after|
      ensures Before(lay', i, k) == Before(lay, Swap(i, mp, n), Swap(k, mp, n))
      ensures after[i].next >= 0 && after[i].next < |after| ==>
                Before(lay', after[i].next, k) == Before(lay, Swap(after[i].next, mp, n), Swap(k, mp, n))
    {
      MoveOrder(lay, mp, n, i, k);
    }
    var was := Swap(i, mp, n);
    assert LinkOk(nodes, lay, was);
    assert nodes[was].next >= 0 ==> SameChain(lay, nodes[was].next, was);
    if nodes[was].next == mp {
      OnePredecessor(nodes, lay, was, prev);
    }
  }

  lemma MoveLinked(nodes: seq<Node>, lay: Layout, mp: int, n: int, prev: int, after: seq<Node>, lay': Layout)
    requires Linked(nodes, lay)
    requires 0 <= mp < |nodes| && 0 <= n < |nodes| && 0 <= prev < |nodes| && mp != n
    requires FreeOk(nodes, lay, n) && nodes[prev].next == mp
    requires |after| == |nodes| && lay' == MoveLayout(lay, mp, n)
    requires after[n].next == nodes[mp].next && after[mp].next == -1 && (prev != n ==> after[prev].next == n)
    requires forall i | 0 <= i < |nodes| && i != mp && i != n && i != prev :: after[i].next == nodes[i].next
    ensures Linked(after, lay')
  {
    hide FreeOk, LinkOk;
    forall i | 0 <= i < |after|
      ensures LinkOk(after, lay', i)
    {
      MoveLink(nodes, lay, mp, n, prev, after, lay', i);
    }
  }

  /** The colliding node is not at home: it moves to a free node, its predecessor is relinked,
      and the new key takes its own main position on a chain of its own. */
  lemma MoveAway(home: Home, nodes: seq<Node>, lay: Layout, key: Value, mp: int, n: int, prev: int,
                 after: seq<Node>, lay': Layout)
    requires CanPlace(home, nodes, lay, key, mp) && Moved(nodes, key, mp, n, prev, after)
    requires nodes[mp].Keyed() && home(nodes[mp].key) != mp
    requires !nodes[n].Keyed() && nodes[prev].next == mp
    requires lay' == MoveLayout(lay, mp, n)
    ensures ValidNodes(home, after, lay')
  {
    assert FreeOk(nodes, lay, n) && LinkOk(nodes, lay, prev) && LinkOk(nodes, lay, mp);
    assert prev != mp && prev != n;
    MoveLinked(nodes, lay, mp, n, prev, after, lay');
    forall i | 0 <= i < |after|
      ensures NodeOk(after, i)
      ensures after[i].Keyed() ==> HomeOk(home, after, lay', i)
      ensures !after[i].Keyed() ==> FreeOk(after, lay', i)
    {
      MoveNode(home, nodes, lay, mp, n, i, after, lay');
    }
    MoveDistinct(nodes, key, mp, n, prev, after);
    MoveLiveFirst(home, nodes, lay, key, mp, n, prev, after, lay');
  }

  lemma MoveAdds(nodes: seq<Node>, key: Value, mp: int, n: int, prev: int, after: seq<Node>)
    requires DistinctKeys(nodes) && IsKey(key) && KeyAbsent(nodes, key) && Moved(nodes, key, mp, n, prev, after)
    requires nodes[mp].Keyed() && nodes[n] == FREE_NODE && prev != mp && prev != n
    ensures KeyAdded(nodes, after, key, mp)
  {
    MoveDistinct(nodes, key, mp, n, prev, after);
    ValuesKept(nodes, after, mp, n);
    OneMoreKey(nodes, after, n);
  }
}
