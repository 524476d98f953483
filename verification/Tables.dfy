/** Lua tables: an array part and a hash part that together are one finite map (ltable.c). */
module Tables {
  import opened TableValues
  import opened TableNodes
  import opened TableSizes
  import opened TableTraversal

  /** Where a lookup ends: the place a TValue pointer into the table would denote. */
  datatype Slot = NoSlot | ArraySlot(i: nat) | NodeSlot(i: nat)

  newtype uint32 = x: int | 0 <= x < 0x1_0000_0000

  const MAX_INT := INT_MAX - 2

  datatype TableError = IndexIsNil | IndexIsNaN | TableOverflow | InvalidKeyToNext

  ghost function Indices(n: int): (s: set<int>)
    ensures forall i :: i in s <==> 0 <= i < n
  {
    if n <= 0 then {} else Indices(n - 1) + {n - 1}
  }

  /** The live entries of a node vector that a table with an array part of size n keeps hashed. */
  function LiveOutside(nodes: seq<Node>, n: nat): nat {
    if nodes == [] then 0
    else LiveOutside(nodes[1..], n) + (if nodes[0].val != Nil && !InArray(nodes[0].key, n) then 1 else 0)
  }

  /** How many live entries need a node once the array part has size n. */
  function HashNeed(a: seq<Value>, nodes: seq<Node>, n: nat): nat {
    |ArrayKeys(a) - UpTo(ArrayKeys(a), n)| + LiveOutside(nodes, n)
  }

  lemma UpToAdd(keys: set<int>, k: int, n: int)
    requires k !in keys
    ensures |UpTo(keys + {k}, n)| == |UpTo(keys, n)| + (if 0 < k <= n then 1 else 0)
  {
    if 0 < k <= n {
      assert UpTo(keys + {k}, n) == UpTo(keys, n) + {k};
    } else {
      assert UpTo(keys + {k}, n) == UpTo(keys, n);
    }
  }

  lemma {:induction false} LiveOutsideCount(nodes: seq<Node>, n: nat)
    requires LiveKeyed(nodes) && n <= MAXASIZE
    ensures LiveOutside(nodes, n) == LiveCount(nodes) - |UpTo(HashInts(nodes), n)|
  {
    if nodes == [] {
      assert UpTo(HashInts(nodes), n) == {};
    } else {
      var rest := nodes[1..];
      assert forall i | 0 <= i < |rest| :: rest[i] == nodes[i + 1];
      assert LiveKeyed(rest);
      LiveOutsideCount(rest, n);
      if nodes[0].val != Nil && IsCandidate(nodes[0].key) {
        var k := ArrayIndex(nodes[0].key);
        HashIntsMembers(rest, k);
        UpToAdd(HashInts(rest), k, n);
      } else if nodes[0].val != Nil {
        assert HashInts(rest) + {} == HashInts(rest);
      } else {
        assert HashInts(rest) + {} == HashInts(rest);
      }
    }
  }

  lemma UpToUnion(a: set<int>, b: set<int>, n: int)
    requires a !! b
    ensures |UpTo(a + b, n)| == |UpTo(a, n)| + |UpTo(b, n)|
  {
    assert UpTo(a + b, n) == UpTo(a, n) + UpTo(b, n);
  }

  lemma UpToCandidate(key: Value, n: nat)
    requires n <= MAXASIZE
    ensures |UpTo(Candidate(key), n)| == if InArray(key, n) then 1 else 0
  {
    assert UpTo(Candidate(key), n) == if InArray(key, n) then {ArrayIndex(key)} else {};
  }

  lemma UpToRest(keys: set<int>, n: int)
    ensures |keys - UpTo(keys, n)| == |keys| - |UpTo(keys, n)|
  {
    assert keys == UpTo(keys, n) + (keys - UpTo(keys, n));
  }

  /** The three sources of integer keys that rehash counts do not overlap. */
  lemma CandidatesDisjoint(a: seq<Value>, nodes: seq<Node>, key: Value)
    requires forall i | 0 <= i < |nodes| && nodes[i].val != Nil :: !InArray(nodes[i].key, |a|)
    requires LiveKeyed(nodes) && KeyAbsent(nodes, key) && !InArray(key, |a|)
    ensures ArrayKeys(a) !! HashInts(nodes)
    ensures ArrayKeys(a) + HashInts(nodes) !! Candidate(key)
  {
    forall k | k in HashInts(nodes)
      ensures k !in ArrayKeys(a) && k !in Candidate(key)
    {
      HashIntsMembers(nodes, k);
    }
  }

  /** rehash asks for exactly the nodes needed: the entries that stay hashed, plus the new key
      unless it goes to the array part. */
  lemma NeedCount(a: seq<Value>, nodes: seq<Node>, key: Value, n: nat)
    requires LiveKeyed(nodes) && n <= MAXASIZE && IsKey(key)
    requires forall i | 0 <= i < |nodes| && nodes[i].val != Nil :: !InArray(nodes[i].key, |a|)
    requires KeyAbsent(nodes, key) && !InArray(key, |a|)
    ensures var keys := ArrayKeys(a) + HashInts(nodes) + Candidate(key);
            |ArrayKeys(a)| + LiveCount(nodes) + 1 - |UpTo(keys, n)|
            == HashNeed(a, nodes, n) + (if InArray(key, n) then 0 else 1)
  {
    LiveOutsideCount(nodes, n);
    CandidatesDisjoint(a, nodes, key);
    UpToUnion(ArrayKeys(a), HashInts(nodes), n);
    UpToUnion(ArrayKeys(a) + HashInts(nodes), Candidate(key), n);
    UpToCandidate(key, n);
    UpToRest(ArrayKeys(a), n);
  }

  lemma HashCandidates(a: seq<Value>, nodes: seq<Node>)
    requires forall i | 0 <= i < |nodes| && nodes[i].val != Nil :: !InArray(nodes[i].key, |a|)
    ensures forall i | 0 <= i < |nodes| && nodes[i].val != Nil :: Candidate(nodes[i].key) !! ArrayKeys(a)
  {
  }

  /** The indices in use that numusearray counts. */
  /** The positive integers up to the largest array size that have a value. */
  ghost function IntegersInUse(a: seq<Value>, nodes: seq<Node>): set<int> {
    set i | 1 <= i <= MAXASIZE && Lookup(a, nodes, Num(Whole(i))) != Nil
  }

  lemma NodeInUse(nodes: seq<Node>, k: Value)
    requires LiveKeyed(nodes) && IsKey(k)
    ensures NodeValue(nodes, k) != Nil <==> exists i | 0 <= i < |nodes| :: nodes[i].val != Nil && nodes[i].key == k
  {
    if i :| 0 <= i < |nodes| && nodes[i].val != Nil && nodes[i].key == k {
      NodeValueAt(nodes, i, k);
    }
  }

  /** What rehash counts is what the table holds. */
  lemma CountedInUse(a: seq<Value>, nodes: seq<Node>)
    requires |a| <= MAXASIZE && LiveKeyed(nodes)
    requires forall i | 0 <= i < |nodes| :: !InArray(nodes[i].key, |a|)
    ensures ArrayKeys(a) + HashInts(nodes) == IntegersInUse(a, nodes)
  {
    forall i
      ensures i in ArrayKeys(a) + HashInts(nodes) <==> i in IntegersInUse(a, nodes)
    {
      HashIntsMembers(nodes, i);
      if 1 <= i <= MAXASIZE { NodeInUse(nodes, Num(Whole(i))); }
    }
  }

  function Seen(a: seq<Value>): set<int> {
    UpTo(ArrayKeys(a), MAXASIZE)
  }

  /** Up to the largest array size there may be these are all. */
  lemma AllSeen(a: seq<Value>)
    requires |a| <= MAXASIZE
    ensures Seen(a) == ArrayKeys(a)
  {
  }

  lemma Unseen(a: seq<Value>)
    ensures |ArrayKeys(a)| - |Seen(a)| == |ArrayKeys(a) - Seen(a)| && |ArrayKeys(a)| <= |a|
    ensures |ArrayKeys(a) - Seen(a)| == 0 <==> forall i | MAXASIZE <= i < |a| :: a[i] == Nil
  {
    UpToRest(ArrayKeys(a), MAXASIZE);
    RangeSize(ArrayKeys(a), |a|);
    var rest := ArrayKeys(a) - Seen(a);
    if rest == {} {
      forall i | MAXASIZE <= i < |a|
        ensures a[i] == Nil
      {
        assert i + 1 !in rest;
      }
    } else {
      var k :| k in rest;
      assert a[k - 1] != Nil && MAXASIZE <= k - 1;
    }
  }

  lemma SeenUpTo(a: seq<Value>, h: set<int>, c: set<int>, n: nat)
    requires n <= MAXASIZE
    ensures UpTo(ArrayKeys(a) + h + c, n) == UpTo(Seen(a) + h + c, n)
  {
  }

  lemma OptimalBound(keys: set<int>, n: nat)
    requires OptimalSize(keys, n)
    ensures n <= MAXASIZE
  {
    Pow2Bound();
    if l: nat :| l <= MAXBITS && n == Pow2(l) {
      Pow2Monotone(l, MAXBITS);
    }
  }

  /** What rehash asks of resize: a legal array size, and a node for every hashed key, but none for the
      entries of the array part that numusearray has not counted. So it asks for enough exactly if there
      are no such entries. */
  lemma RehashPlan(a: seq<Value>, nodes: seq<Node>, key: Value, n: nat)
    requires LiveKeyed(nodes) && IsKey(key)
    requires forall i | 0 <= i < |nodes| && nodes[i].val != Nil :: !InArray(nodes[i].key, |a|)
    requires KeyAbsent(nodes, key) && !InArray(key, |a|)
    requires OptimalSize(Seen(a) + HashInts(nodes) + Candidate(key), n)
    ensures n <= MAXASIZE
    ensures var keys := Seen(a) + HashInts(nodes) + Candidate(key);
            var asked := |Seen(a)| + LiveCount(nodes) + 1 - |UpTo(keys, n)|;
            var need := HashNeed(a, nodes, n) + (if InArray(key, n) then 0 else 1);
            && asked == need - |ArrayKeys(a) - Seen(a)|
            && (asked >= need <==> forall i | MAXASIZE <= i < |a| :: a[i] == Nil)
            && asked <= LiveCount(nodes) + |a| + 1
  {
    hide ArrayKeys, Candidate, HashInts, LiveCount, OptimalSize, Seen, UpTo, HashNeed, InArray, KeyAbsent;
    OptimalBound(Seen(a) + HashInts(nodes) + Candidate(key), n);
    NeedCount(a, nodes, key, n);
    Unseen(a);
    SeenUpTo(a, HashInts(nodes), Candidate(key), n);
  }

  lemma {:induction false} LiveBound(nodes: seq<Node>, n: nat)
    ensures LiveOutside(nodes, n) <= LiveCount(nodes) <= |nodes|
  {
    if nodes == [] {
    } else {
      LiveBound(nodes[1..], n);
    }
  }

  lemma LiveStep(nodes: seq<Node>, i: nat, n: nat)
    requires i < |nodes|
    ensures LiveOutside(nodes[i..], n)
            == LiveOutside(nodes[i + 1..], n) + (if nodes[i].val != Nil && !InArray(nodes[i].key, n) then 1 else 0)
  {
    assert nodes[i..][1..] == nodes[i + 1..];
  }

  lemma {:induction false} LiveSuffix(nodes: seq<Node>, i: nat, n: nat)
    requires i <= |nodes|
    ensures LiveOutside(nodes[i..], n) <= LiveOutside(nodes, n)
  {
    if i > 0 {
      LiveSuffix(nodes, i - 1, n);
      LiveStep(nodes, i - 1, n);
    } else {
      assert nodes[0..] == nodes;
    }
  }

  /** Reinserting the entry of node i turns the map of the later nodes into that of nodes i on. */
  lemma SuffixValue(nodes: seq<Node>, i: nat, k: Value)
    requires i < |nodes| && DistinctKeys(nodes) && IsKey(k)
    requires nodes[i].val != Nil ==> nodes[i].Keyed() && !nodes[i].dead && nodes[i].key != Num(NaN)
    ensures NodeValue(nodes[i..], k)
            == if nodes[i].val != Nil && nodes[i].key == k then nodes[i].val else NodeValue(nodes[i + 1..], k)
  {
    var s, t := nodes[i..], nodes[i + 1..];
    assert forall j | 0 <= j < |t| :: t[j] == s[j + 1];
    assert s[0] == nodes[i];
    assert DistinctKeys(s) && DistinctKeys(t);
    if j :| 0 <= j < |t| && t[j].Has(k) {
      NodeValueAt(t, j, k);
      NodeValueAt(s, j + 1, k);
    } else if s[0].Has(k) {
      NodeValueAt(s, 0, k);
    }
  }

  lemma SuffixValues(a: seq<Value>, nodes: seq<Node>, i: nat)
    requires i < |nodes| && LiveKeyed(nodes)
    requires nodes[i].val != Nil ==> IsKey(nodes[i].key) && !nodes[i].dead && !InArray(nodes[i].key, |a|)
    ensures forall k | IsKey(k) ::
              Lookup(a, nodes[i..], k)
              == if nodes[i].val != Nil && nodes[i].key == k then nodes[i].val else Lookup(a, nodes[i + 1..], k)
  {
    forall k | IsKey(k)
      ensures Lookup(a, nodes[i..], k)
              == if nodes[i].val != Nil && nodes[i].key == k then nodes[i].val else Lookup(a, nodes[i + 1..], k)
    {
      SuffixValue(nodes, i, k);
    }
  }

  lemma SliceValue(a: seq<Value>, i: nat)
    requires i < |a| <= MAXASIZE
    ensures forall k | IsKey(k) ::
              Lookup(a[..i + 1], [], k) == if k == KeyOf(i + 1) then a[i] else Lookup(a[..i], [], k)
  {
  }

  /** What happens to a table: an assignment, or the collector coming by the entry of node i. */
  datatype Event = Assign(key: Value, val: Value) | Sweep(i: nat)

  /** The value of k after a run of events that starts with it holding v. */
  function LastStored(v: Value, events: seq<Event>, k: Value): Value {
    if events == [] then v
    else
      var e := events[|events| - 1];
      if e.Assign? && e.key == k then e.val else LastStored(v, events[..|events| - 1], k)
  }

  /** The number of entries of an array part from index lo on. */
  function SliceUse(a: seq<Value>, lo: nat): nat
    requires lo <= |a|
    decreases |a| - lo
  {
    if lo == |a| then 0 else SliceUse(a, lo + 1) + (if a[lo] != Nil then 1 else 0)
  }

  lemma NothingBeyond(a: seq<Value>, n: nat)
    requires n >= |a|
    ensures |ArrayKeys(a) - UpTo(ArrayKeys(a), n)| == 0
  {
    assert ArrayKeys(a) - UpTo(ArrayKeys(a), n) == {};
  }

  lemma {:induction false} SliceUseIsCount(a: seq<Value>, lo: nat)
    requires lo <= |a|
    ensures SliceUse(a, lo) == |ArrayKeys(a) - UpTo(ArrayKeys(a), lo)|
    decreases |a| - lo
  {
    var keys := ArrayKeys(a);
    if lo == |a| {
      NothingBeyond(a, lo);
    } else {
      SliceUseIsCount(a, lo + 1);
      var rest := keys - UpTo(keys, lo + 1);
      if a[lo] != Nil {
        assert lo + 1 in keys;
        assert keys - UpTo(keys, lo) == rest + {lo + 1};
      } else {
        assert lo + 1 !in keys;
        assert keys - UpTo(keys, lo) == rest;
      }
    }
  }

  lemma {:induction false} IndicesSize(n: nat)
    ensures |Indices(n)| == n
  {
    if n == 0 {
    } else {
      IndicesSize(n - 1);
    }
  }

  /** Fewer keyed nodes than nodes: one is free. */
  lemma RoomLeft(nodes: seq<Node>)
    requires |KeyedNodes(nodes)| < |nodes|
    ensures exists i | 0 <= i < |nodes| :: !nodes[i].Keyed()
  {
    if forall i | 0 <= i < |nodes| :: nodes[i].Keyed() {
      assert KeyedNodes(nodes) == Indices(|nodes|);
      IndicesSize(|nodes|);
      assert false;
    }
  }

  lemma LiveNodes(home: Home, nodes: seq<Node>, lay: Layout)
    requires ValidNodes(home, nodes, lay)
    ensures LiveKeyed(nodes)
  {
    forall i | 0 <= i < |nodes| && nodes[i].val != Nil
      ensures nodes[i].Keyed() && !nodes[i].dead
    {
      assert NodeOk(nodes, i) && (!nodes[i].Keyed() ==> FreeOk(nodes, lay, i));
    }
  }

  lemma LiveEntries(home: Home, nodes: seq<Node>, lay: Layout)
    requires ValidNodes(home, nodes, lay)
    ensures LiveKeyed(nodes)
    ensures forall i | 0 <= i < |nodes| && nodes[i].val != Nil :: IsKey(nodes[i].key) && !nodes[i].dead
  {
    LiveNodes(home, nodes, lay);
    forall i | 0 <= i < |nodes| && nodes[i].val != Nil
      ensures IsKey(nodes[i].key) && !nodes[i].dead
    {
      assert NodeOk(nodes, i);
    }
  }

  /** The integer keys of the entries of a node vector. */
  function IntegerKeys(nodes: seq<Node>): set<int> {
    if nodes == [] then {}
    else IntegerKeys(nodes[1..]) + (if nodes[0].key.Num? && nodes[0].key.n.Whole? then {nodes[0].key.n.i} else {})
  }

  lemma {:induction false} IntegerKeysSize(nodes: seq<Node>, k: int)
    ensures |IntegerKeys(nodes)| <= |nodes|
    ensures (exists i :: 0 <= i < |nodes| && nodes[i].key == KeyOf(k)) ==> k in IntegerKeys(nodes)
  {
    if nodes == [] {
    } else {
      IntegerKeysSize(nodes[1..], k);
      if i :| 0 < i < |nodes| && nodes[i].key == KeyOf(k) {
        assert nodes[1..][i - 1].key == KeyOf(k);
      }
    }
  }

  lemma Cover(n: nat, size: nat, keys: set<int>)
    requires forall k | 0 <= k <= n :: k in Indices(size + 1) || k in keys
    ensures n <= size + |keys|
  {
    IndicesSize(size + 1);
    IndicesSize(n + 1);
    Subset(Indices(n + 1), Indices(size + 1) + keys);
  }

  lemma HasIntegerKey(a: seq<Value>, nodes: seq<Node>, k: int)
    requires k >= 1 && Lookup(a, nodes, KeyOf(k)) != Nil
    ensures k in Indices(|a| + 1) || k in IntegerKeys(nodes)
  {
    if !InArray(KeyOf(k), |a|) {
      assert NodeValue(nodes, KeyOf(k)) != Nil;
      IntegerKeysSize(nodes, k);
    }
  }

  /** If 1..n all have values there are at least n entries. */
  lemma FewIntegerKeys(a: seq<Value>, nodes: seq<Node>, n: nat)
    requires forall k | 1 <= k <= n :: Lookup(a, nodes, KeyOf(k)) != Nil
    ensures n <= |a| + |nodes|
  {
    var keys := IntegerKeys(nodes);
    forall k | 0 <= k <= n
      ensures k in Indices(|a| + 1) || k in keys
    {
      if k > 0 {
        HasIntegerKey(a, nodes, k);
      }
    }
    IntegerKeysSize(nodes, 0);
    Cover(n, |a|, keys);
  }

  /** A key that no node of its chain holds is held by no node. */
  lemma NotOnChain(home: Home, nodes: seq<Node>, lay: Layout, key: Value, mp: nat)
    requires ValidNodes(home, nodes, lay) && key != Nil && mp == home(key) < |nodes|
    ensures (forall j | 0 <= j < |nodes| && (j == mp || Before(lay, mp, j)) :: !nodes[j].Has(key))
            ==> forall j | 0 <= j < |nodes| :: !nodes[j].Has(key)
    ensures (forall j | 0 <= j < |nodes| && (j == mp || Before(lay, mp, j)) :: nodes[j].key != key)
            ==> forall j | 0 <= j < |nodes| :: nodes[j].key != key
  {
    forall j | 0 <= j < |nodes| && nodes[j].key == key
      ensures j == mp || Before(lay, mp, j)
    {
      assert HomeOk(home, nodes, lay, j);
    }
  }

  /** Every node of a key is on its chain. */
  lemma OnChain(home: Home, nodes: seq<Node>, lay: Layout, key: Value, mp: nat)
    requires ValidNodes(home, nodes, lay) && key != Nil && mp == home(key) < |nodes|
    ensures forall j | 0 <= j < |nodes| && nodes[j].key == key :: j == mp || Before(lay, mp, j)
  {
    forall j | 0 <= j < |nodes| && nodes[j].key == key
      ensures j == mp || Before(lay, mp, j)
    {
      assert HomeOk(home, nodes, lay, j);
    }
  }

  /** What a step along a chain needs of the node vector. */
  lemma ChainFacts(home: Home, nodes: seq<Node>, lay: Layout)
    requires ValidNodes(home, nodes, lay)
    ensures Linked(nodes, lay) && DistinctKeys(nodes) && forall k :: 0 <= home(k) < |nodes|
    ensures forall i | 0 <= i < |nodes| :: nodes[i].key != Num(NaN)
    ensures forall i | 0 <= i < |nodes| && !nodes[i].Keyed() :: nodes[i] == FREE_NODE
  {
    forall i | 0 <= i < |nodes|
      ensures nodes[i].key != Num(NaN)
      ensures !nodes[i].Keyed() ==> nodes[i] == FREE_NODE
    {
      assert NodeOk(nodes, i);
      assert !nodes[i].Keyed() ==> FreeOk(nodes, lay, i);
    }
  }

  lemma Apart(home: Home, nodes: seq<Node>, lay: Layout, mp: nat, n: nat, prev: nat)
    requires ValidNodes(home, nodes, lay) && mp < |nodes| && n < |nodes| && prev < |nodes|
    requires nodes[mp].Keyed() && !nodes[n].Keyed() && nodes[prev].next == mp
    ensures prev != mp && prev != n && nodes[n] == FREE_NODE && |lay.chain| == |lay.rank| == |nodes|
  {
    assert LinkOk(nodes, lay, prev) && FreeOk(nodes, lay, n);
  }

  lemma MoveStep(home: Home, nodes: seq<Node>, lay: Layout, key: Value, mp: nat, n: nat, prev: nat,
                 after: seq<Node>, size: nat)
    requires CanPlace(home, nodes, lay, key, mp) && Moved(nodes, key, mp, n, prev, after)
    requires nodes[mp].Keyed() && home(nodes[mp].key) != mp && nodes[n] == FREE_NODE
    requires nodes[prev].next == mp && prev != mp && prev != n
    requires !InArray(key, size) && forall i | 0 <= i < |nodes| :: !InArray(nodes[i].key, size)
    requires forall i | n < i < |nodes| :: nodes[i].Keyed()
    ensures ValidNodes(home, after, MoveLayout(lay, mp, n))
    ensures KeyAdded(nodes, after, key, mp)
    ensures forall i | 0 <= i < |after| :: !InArray(after[i].key, size)
    ensures forall i | n <= i < |nodes| :: after[i].Keyed()
  {
    assert forall i | 0 <= i < |after| :: after[i].key == if i == mp then key else nodes[Swap(i, mp, n)].key;
    assert ValidNodes(home, after, MoveLayout(lay, mp, n)) by {
      MoveAway(home, nodes, lay, key, mp, n, prev, after, MoveLayout(lay, mp, n));
    }
    assert KeyAdded(nodes, after, key, mp) by {
      MoveAdds(nodes, key, mp, n, prev, after);
    }
  }

  lemma WriteNode(home: Home, nodes: seq<Node>, lay: Layout, i: nat, v: Value, after: seq<Node>)
    requires ValidNodes(home, nodes, lay)
    requires i < |nodes| && nodes[i].Keyed() && !nodes[i].dead
    requires after == nodes[i := nodes[i].(val := v)]
    ensures ValidNodes(home, after, lay)
    ensures NodeValue(after, nodes[i].key) == v
    ensures forall k | IsKey(k) && k != nodes[i].key :: NodeValue(after, k) == NodeValue(nodes, k)
    ensures KeyedNodes(after) == KeyedNodes(nodes)
  {
    forall j | 0 <= j < |after|
      ensures LinkOk(after, lay, j) && NodeOk(after, j)
      ensures after[j].Keyed() ==> HomeOk(home, after, lay, j)
      ensures !after[j].Keyed() ==> FreeOk(after, lay, j)
    {
      assert LinkOk(nodes, lay, j) && NodeOk(nodes, j);
      assert nodes[j].Keyed() ==> HomeOk(home, nodes, lay, j);
      assert !nodes[j].Keyed() ==> FreeOk(nodes, lay, j);
    }
    assert Linked(after, lay);
    assert DistinctKeys(after);
    assert after[i].Has(nodes[i].key) by {
      assert NodeOk(nodes, i);
    }
    NodeValueAt(after, i, nodes[i].key);
    forall k | IsKey(k) && k != nodes[i].key
      ensures NodeValue(after, k) == NodeValue(nodes, k)
    {
      if j :| 0 <= j < |nodes| && nodes[j].Has(k) {
        NodeValueAt(nodes, j, k);
        NodeValueAt(after, j, k);
      }
    }
  }

  lemma KillKey(home: Home, nodes: seq<Node>, lay: Layout, i: nat, after: seq<Node>)
    requires ValidNodes(home, nodes, lay)
    requires i < |nodes| && nodes[i].val == Nil && IsCollectable(nodes[i].key)
    requires after == nodes[i := nodes[i].(dead := true)]
    ensures ValidNodes(home, after, lay)
    ensures forall k | IsKey(k) :: NodeValue(after, k) == NodeValue(nodes, k)
  {
    forall j | 0 <= j < |after|
      ensures LinkOk(after, lay, j) && NodeOk(after, j)
      ensures after[j].Keyed() ==> HomeOk(home, after, lay, j)
      ensures !after[j].Keyed() ==> FreeOk(after, lay, j)
    {
      assert LinkOk(nodes, lay, j) && NodeOk(nodes, j);
      assert nodes[j].Keyed() ==> HomeOk(home, nodes, lay, j);
      assert !nodes[j].Keyed() ==> FreeOk(nodes, lay, j);
    }
    assert Linked(after, lay);
    assert DistinctKeys(after);
    ValuesKept(nodes, after, i, i);
  }

  class Table {
    const hash: Value -> nat
    var arr: array<Value>
    var sizearray: nat
    var node: array<Node>
    var lsizenode: nat
    /** The node vector is the shared, never written dummynode of an empty hash part. */
    var isdummy: bool

    var lastfree: int
    ghost var lay: Layout

    /** The state outside newkey and getfreepos, except for the free pointer. */
    ghost predicate Shape()
      reads this, arr, node
    {
      && sizearray <= arr.Length && sizearray <= MAXASIZE
      && lsizenode <= MAXBITS && node.Length == Pow2(lsizenode)
      && ValidNodes(HomeOf(hash, node.Length), node[..], lay)
      && (forall i | 0 <= i < node.Length :: !InArray(node[i].key, sizearray))
      && (isdummy ==> lsizenode == 0 && node[0] == FREE_NODE)
      && lastfree <= (if isdummy then 0 else node.Length)
    }

    /** Every node at or past lastfree holds a key. */
    ghost predicate FreePointerOk()
      reads this, node
    {
      !isdummy ==> forall i | 0 <= i < node.Length && i >= lastfree :: node[i].Keyed()
    }

    ghost predicate Valid()
      reads this, arr, node
    {
      Shape() && FreePointerOk()
    }

    /** The value of key k: the abstract map. */
    ghost function At(k: Value): Value
      reads this, arr, node
      requires sizearray <= arr.Length
    {
      Lookup(arr[..sizearray], node[..], k)
    }

    ghost function Contents(): Snapshot
      reads this, arr, node
      requires sizearray <= arr.Length
    {
      Snapshot(arr[..sizearray], node[..], lay)
    }

    /** The key has a slot already, with or without a value. */
    ghost predicate Present(key: Value)
      reads this, node
    {
      InArray(key, sizearray) || exists i | 0 <= i < node.Length :: node[i].Has(key)
    }

    ghost predicate SlotOf(key: Value, s: Slot)
      reads this, arr, node
    {
      match s
      case NoSlot => !InArray(key, sizearray) && forall i | 0 <= i < node.Length :: !node[i].Has(key)
      case ArraySlot(i) => i < sizearray <= arr.Length && i == ArrayIndex(key) - 1
      case NodeSlot(i) => !InArray(key, sizearray) && i < node.Length && node[i].Has(key) && !isdummy
    }

    ghost predicate HasRoom()
      reads this, node
    {
      !isdummy && exists i | 0 <= i < node.Length :: !node[i].Keyed()
    }

    /** Storing key will not need a rehash. */
    ghost predicate Fits(key: Value)
      reads this, node
    {
      || InArray(key, sizearray)
      || (exists i | 0 <= i < node.Length :: node[i].Has(key))
      || HasRoom()
      || (!isdummy && node.Length > 0 && node[MainPosition(hash, key, node.Length)].val == Nil)
    }

    /** luaH_get and the search functions it dispatches to, up to the address they return. */
    method FindSlot(key: Value) returns (s: Slot)
      requires Valid()
      ensures SlotOf(key, s)
      ensures s == NoSlot ==> At(key) == Nil
      ensures s.ArraySlot? ==> At(key) == arr[s.i]
      ensures s.NodeSlot? ==> At(key) == node[s.i].val
    {
      hide ValidNodes;
      if key == Nil {
        return NoSlot;
      }
      var k := ArrayIndex(key);
      if 0 < k <= sizearray {
        return ArraySlot(k - 1);
      }
      ghost var home := HomeOf(hash, node.Length);
      ChainFacts(home, node[..], lay);
      var n := MainPosition(hash, key, node.Length);
      ghost var mp := n;
      assert n == home(key);
      ghost var rest := Indices(node.Length);
      while n >= 0
        invariant -1 <= n < node.Length
        invariant n >= 0 ==> n == mp || Before(lay, mp, n)
        invariant forall j | 0 <= j < node.Length && (j == mp || Before(lay, mp, j)) &&
                    (n < 0 || (j != n && !Before(lay, n, j))) :: !node[j].Has(key)
        invariant n >= 0 ==> n in rest && forall j | 0 <= j < node.Length && Before(lay, n, j) :: j in rest
        decreases if n >= 0 then 1 else 0, rest
      {
        if node[n].Has(key) {
          NodeValueAt(node[..], n, key);
          return NodeSlot(n);
        }
        ghost var was := n;
        assert LinkOk(node[..], lay, n);
        n := node[n].next;
        rest := rest - {was};
        if n >= 0 {
          assert node[..][n] == node[n];
          assert Before(lay, was, n) && LinkOk(node[..], lay, n);
        }
      }
      NotOnChain(home, node[..], lay, key, mp);
      return NoSlot;
    }

    /** luaH_get. */
    method Get(key: Value) returns (v: Value)
      requires Valid()
      ensures v == At(key)
    {
      var s := FindSlot(key);
      match s
      case NoSlot => return Nil;
      case ArraySlot(i) => return arr[i];
      case NodeSlot(i) => return node[i].val;
    }

    method WriteNodeSlot(i: nat, v: Value)
      requires Valid() && i < node.Length && IsKey(node[i].key) && !node[i].dead && !isdummy
      modifies node
      ensures Valid() && KeyedNodes(node[..]) == old(KeyedNodes(node[..])) && SameFields(old(Contents()), Contents())
      ensures At(old(node[i].key)) == v
      ensures forall k | IsKey(k) && k != old(node[i].key) :: At(k) == old(At(k))
    {
      ghost var nodes := node[..];
      node[i] := node[i].(val := v);
      assert node[..] == nodes[i := nodes[i].(val := v)];
      WriteNode(HomeOf(hash, node.Length), nodes, lay, i, v, node[..]);
    }

    /** Storing through the pointer that luaH_set returned. */
    method WriteSlot(key: Value, s: Slot, v: Value)
      requires Valid() && IsKey(key) && s != NoSlot && SlotOf(key, s)
      modifies this.arr, this.node
      ensures Valid()
      ensures At(key) == v
      ensures forall k | IsKey(k) && k != key :: At(k) == old(At(k))
      ensures KeyedNodes(node[..]) == old(KeyedNodes(node[..])) && SameFields(old(Contents()), Contents())
      ensures forall i | 0 <= i < arr.Length && i >= sizearray :: arr[i] == old(arr[i])
    {
      hide ValidNodes;
      ghost var nodes := node[..];
      match s
      case ArraySlot(i) =>
        arr[i] := v;
        assert node[..] == nodes;
      case NodeSlot(i) =>
        WriteNodeSlot(i, v);
    }

    /** getfreepos. */
    method GetFreePos() returns (n: int)
      requires Valid()
      modifies this`lastfree
      ensures Shape()
      ensures n >= 0 ==> n == lastfree < node.Length && !node[n].Keyed() && !isdummy
      ensures n >= 0 ==> forall i | n < i < node.Length :: node[i].Keyed()
      ensures n < 0 ==> FreePointerOk() && !HasRoom()
      ensures n >= -1
    {
      while true
        invariant Shape() && FreePointerOk()
        decreases lastfree
      {
        var more := lastfree > 0;
        lastfree := lastfree - 1;
        if !more {
          return -1;
        }
        if !node[lastfree].Keyed() {
          return lastfree;
        }
      }
    }

    /** The predecessor of a node that is not in its main position (ltable.c:412). */
    method FindPrevious(mp: nat) returns (othern: nat)
      requires Shape() && mp < node.Length && node[mp].Keyed()
      requires MainPosition(hash, node[mp].key, node.Length) != mp
      ensures othern < node.Length && node[othern].next == mp
    {
      othern := MainPosition(hash, node[mp].key, node.Length);
      assert HomeOk(HomeOf(hash, node.Length), node[..], lay, mp);
      ghost var rest := Indices(node.Length);
      while node[othern].next != mp
        invariant othern < node.Length && Before(lay, othern, mp)
        invariant othern in rest && forall j | 0 <= j < node.Length && Before(lay, othern, j) :: j in rest
        decreases rest
      {
        ghost var was := othern;
        assert LinkOk(node[..], lay, othern);
        othern := node[othern].next;
        rest := rest - {was};
        assert node[..][othern] == node[othern];
        assert Before(lay, was, othern) && LinkOk(node[..], lay, othern);
      }
    }

    ghost predicate Colliding(key: Value, mp: nat, n: nat)
      reads this, arr, node
    {
      && Shape() && !isdummy
      && mp == MainPosition(hash, key, node.Length) && node[mp].val != Nil
      && IsKey(key) && KeyAbsent(node[..], key) && !InArray(key, sizearray)
      && n == lastfree < node.Length && !node[n].Keyed()
      && (forall i | n < i < node.Length :: node[i].Keyed())
    }

    /** Copy node mp to the free node n and relink its predecessor; mp becomes a lone empty node. */
    method Relocate(mp: nat, n: nat, othern: nat)
      requires mp < node.Length && n < node.Length && othern < node.Length
      requires mp != n && othern != mp && othern != n
      modifies node
      ensures node[..] == old(node[..])[othern := old(node[othern]).(next := n)][n := old(node[mp])]
                                       [mp := old(node[mp]).(next := -1, val := Nil)]
    {
      node[othern] := node[othern].(next := n);
      node[n] := node[mp];
      node[mp] := node[mp].(next := -1);
      node[mp] := node[mp].(val := Nil);
    }

    /** At most n more nodes hold a key. */
    twostate predicate Extended(n: nat)
      reads this, node
    {
      |KeyedNodes(node[..])| <= old(|KeyedNodes(node[..])|) + n
    }

    /** Every key has the value it had. */
    twostate predicate SameMap()
      requires old(sizearray <= arr.Length) && sizearray <= arr.Length
      reads this, arr, node
    {
      forall k | IsKey(k) :: At(k) == old(At(k))
    }

    /** The colliding node is out of its main position: move it to n and take its place. */
    method MoveColliding(key: Value, mp: nat, n: nat)
      requires Colliding(key, mp, n)
      requires MainPosition(hash, node[mp].key, node.Length) != mp
      modifies node, this`lay
      ensures Valid() && SlotOf(key, NodeSlot(mp)) && At(key) == Nil
      ensures SameMap() && Extended(1)
    {
      hide LiveFirst, LiveKeyed, MainPosition, MoveLayout, NodeOk, Pow2, ValidNodes;
      ghost var nodes := node[..];
      ghost var home := HomeOf(hash, node.Length);
      LiveEntries(home, nodes, lay);
      assert home(key) == mp && home(nodes[mp].key) != mp;
      var othern := FindPrevious(mp);
      Apart(home, nodes, lay, mp, n, othern);
      Relocate(mp, n, othern);
      node[mp] := node[mp].(key := key, dead := false);
      assert Moved(nodes, key, mp, n, othern, node[..]);
      MoveStep(home, nodes, lay, key, mp, n, othern, node[..], sizearray);
      lay := MoveLayout(lay, mp, n);
      assert Shape();
      assert FreePointerOk();
      hide Shape, KeyAdded;
      assert NodeValue(nodes, key) == Nil;
    }

    /** The main position holds no value: the key overwrites whatever key is there. */
    method TakeHome(key: Value, mp: nat)
      requires Valid() && !isdummy && IsKey(key) && KeyAbsent(node[..], key) && !InArray(key, sizearray)
      requires mp == MainPosition(hash, key, node.Length) && node[mp].val == Nil
      modifies node
      ensures Valid() && SlotOf(key, NodeSlot(mp)) && At(key) == Nil
      ensures SameMap() && Extended(1)
    {
      ghost var nodes, home := node[..], HomeOf(hash, node.Length);
      assert home(key) == mp;
      node[mp] := node[mp].(key := key, dead := false);
      assert node[..] == nodes[mp := Node(key, false, Nil, nodes[mp].next)];
      PlaceHome(home, nodes, lay, key, mp, node[..]);
      assert NodeValue(nodes, key) == Nil;
    }

    /** The colliding node is in its main position: the new key goes to n, chained after it. */
    method ChainFree(key: Value, mp: nat, n: nat)
      requires Colliding(key, mp, n)
      requires MainPosition(hash, node[mp].key, node.Length) == mp
      modifies node, this`lay
      ensures Valid() && SlotOf(key, NodeSlot(n)) && At(key) == Nil
      ensures SameMap() && Extended(1)
    {
      hide ValidNodes;
      ghost var nodes := node[..];
      ghost var home := HomeOf(hash, node.Length);
      LiveEntries(home, nodes, lay);
      ChainFacts(home, nodes, lay);
      assert LinkOk(nodes, lay, mp);
      assert home(key) == mp && home(nodes[mp].key) == mp;
      node[n] := node[n].(next := node[mp].next);
      node[mp] := node[mp].(next := n);
      node[n] := node[n].(key := key, dead := false);
      assert node[..] == nodes[n := Node(key, false, Nil, nodes[mp].next)][mp := nodes[mp].(next := n)];
      AttachAfter(home, nodes, lay, key, mp, n, node[..], AttachLayout(nodes, lay, mp, n));
      lay := AttachLayout(nodes, lay, mp, n);
      assert NodeValue(nodes, key) == Nil;
    }

    /** Enough is known of the vectors for a caller to follow them through an insertion. */
    twostate predicate SameVectors()
      reads this
    {
      arr == old(arr) && node == old(node) && sizearray == old(sizearray) && isdummy == old(isdummy)
      && lsizenode == old(lsizenode)
    }

    twostate predicate SameOrFresh()
      reads this
    {
      (arr == old(arr) || fresh(arr)) && (node == old(node) || fresh(node))
    }

    /** The integer keys that compete for the array part, with the extra key. */
    ghost function Candidates(key: Value): set<int>
      reads this, arr, node
      requires sizearray <= arr.Length
    {
      ArrayKeys(arr[..sizearray]) + HashInts(node[..]) + Candidate(key)
    }

    /** The counting half of rehash (ltable.c:338-344). */
    method CountKeys(key: Value) returns (nums: array<int>, nasize: nat, totaluse: nat)
      requires Valid() && !InArray(key, sizearray) && KeyAbsent(node[..], key)
      ensures Counts(nums[..], Candidates(key)) && nasize == |Candidates(key)|
      ensures totaluse == |ArrayKeys(arr[..sizearray])| + LiveCount(node[..]) + 1
    {
      hide ValidNodes;
      ghost var a, nodes := arr[..sizearray], node[..];
      AllSeen(a);
      LiveNodes(HomeOf(hash, node.Length), nodes, lay);
      CandidatesDisjoint(a, nodes, key);
      HashCandidates(a, nodes);
      nums := new int[MAXBITS + 1](_ => 0);
      nasize := NumUseArray(arr, sizearray, nums);
      totaluse := nasize;
      var hashuse;
      hashuse, nasize := NumUseHash(node, nums, nasize, ArrayKeys(a));
      totaluse := totaluse + hashuse;
      assert arr[..sizearray] == a && node[..] == nodes;
      var c := CountInt(key, nums, ArrayKeys(a) + HashInts(nodes));
      nasize := nasize + c;
      totaluse := totaluse + 1;
      assert arr[..sizearray] == a && node[..] == nodes;
    }

    /** setarrayvector: grow or shrink the array part, new slots nil. */
    method SetArrayVector(size: nat)
      modifies this`arr, this`sizearray
      requires sizearray <= arr.Length
      ensures fresh(arr) && arr.Length == size == sizearray
      ensures forall i | 0 <= i < size :: arr[i] == if i < old(sizearray) then old(arr[i]) else Nil
    {
      var a := new Value[size];
      var i := 0;
      while i < size
        invariant 0 <= i <= size
        invariant forall j | 0 <= j < i :: a[j] == if j < sizearray then arr[j] else Nil
        modifies a
      {
        a[i] := if i < sizearray then arr[i] else Nil;
        i := i + 1;
      }
      arr, sizearray := a, size;
    }

    /** setnodevector: a hash part with room for size keys, all nodes free. */
    method SetNodeVector(size: nat) returns (r: Result<(), TableError>)
      modifies this`node, this`lsizenode, this`isdummy, this`lastfree, this`lay
      ensures r.Err? <==> size > MAXASIZE
      ensures r.Err? ==> r.error == TableOverflow && node == old(node)
      ensures r.Ok? ==> fresh(node) && node.Length >= size && isdummy == (size == 0)
      ensures r.Ok? ==> lsizenode <= MAXBITS && node.Length == Pow2(lsizenode) && (isdummy ==> lsizenode == 0)
      ensures r.Ok? ==> lastfree == (if isdummy then 0 else node.Length)
      ensures r.Ok? ==> forall i | 0 <= i < node.Length :: node[i] == FREE_NODE
      ensures r.Ok? ==> ValidNodes(HomeOf(hash, node.Length), node[..], lay)
      ensures r.Ok? ==> KeyedNodes(node[..]) == {} && forall k | IsKey(k) :: NodeValue(node[..], k) == Nil
    {
      var lsize, n := 0, 1;
      if size > 0 {
        lsize := CeilLog2(size);
        Pow2Bound();
        if lsize > MAXBITS {
          Pow2Monotone(MAXBITS, lsize - 1);
          return Err(TableOverflow);
        }
        Pow2Monotone(lsize, MAXBITS);
        n := Pow2(lsize);
      }
      node := new Node[n](_ => FREE_NODE);
      lsizenode, isdummy, lastfree := lsize, size == 0, if size == 0 then 0 else n;
      lay := FreshLayout(n);
      FreshNodesValid(HomeOf(hash, n), node[..]);
      r := Ok(());
    }

    /** newkey: a place for a key that is not in the table. */
    method NewKey(key: Value) returns (r: Result<Slot, TableError>)
      requires Valid() && IsKey(key)
      requires !InArray(key, sizearray) && KeyAbsent(node[..], key)
      modifies this, arr, node
      ensures SameOrFresh()
      ensures r.Ok? ==> Valid() && r.value != NoSlot && SlotOf(key, r.value) && At(key) == Nil
      ensures r.Ok? ==> SameMap()
      ensures old(Fits(key)) ==> r.Ok? && SameVectors() && Extended(1) && arr[..] == old(arr[..])
      ensures r.Err? ==> r.error == TableOverflow && old(LiveCount(node[..]) + sizearray) >= MAXASIZE
      decreases if Fits(key) then 0 else 1, 2
    {
      hide ValidNodes;
      var mp := MainPosition(hash, key, node.Length);
      if node[mp].val != Nil || isdummy {
        var n := GetFreePos();
        if n < 0 {
          r := GrowAndSet(key);
          return;
        }
        if MainPosition(hash, node[mp].key, node.Length) != mp {
          MoveColliding(key, mp, n);
        } else {
          ChainFree(key, mp, n);
          mp := n;
        }
      } else {
        TakeHome(key, mp);
      }
      r := Ok(NodeSlot(mp));
    }

    /** No free node is left: grow the table and start over (ltable.c:405-406). The second attempt
        finds room. */
    method GrowAndSet(key: Value) returns (r: Result<Slot, TableError>)
      requires Valid() && IsKey(key) && !HasRoom()
      requires !InArray(key, sizearray) && KeyAbsent(node[..], key)
      modifies this, arr, node
      ensures SameOrFresh()
      ensures r.Ok? ==> Valid() && r.value != NoSlot && SlotOf(key, r.value) && At(key) == Nil
      ensures r.Ok? ==> SameMap()
      ensures r.Err? ==> r.error == TableOverflow && old(LiveCount(node[..]) + sizearray) >= MAXASIZE
      decreases 1, 1
    {
      hide ValidNodes;
      assert NodeValue(node[..], key) == Nil;
      var o := Rehash(key);
      if o.Err? {
        return Err(o.error);
      }
      r := SetSlot(key);
    }

    /** luaH_set: the place of a key, made if there is none. The key may have been marked dead in the
        meantime: then it gets a node in front of the dead one. */
    method SetSlot(key: Value) returns (r: Result<Slot, TableError>)
      requires Valid()
      modifies this, arr, node
      ensures SameOrFresh()
      ensures key == Nil ==> r == Err(IndexIsNil)
      ensures key == Num(NaN) ==> r == Err(IndexIsNaN)
      ensures r.Ok? ==> Valid() && r.value != NoSlot && SlotOf(key, r.value)
      ensures r.Ok? ==> SameMap()
      ensures IsKey(key) && old(Fits(key)) ==> r.Ok? && SameVectors() && arr[..] == old(arr[..])
      ensures IsKey(key) && old(Fits(key)) ==> Extended(if InArray(key, sizearray) then 0 else 1)
      ensures IsKey(key) && old(Present(key)) ==> r.Ok? && SameVectors() && Contents() == old(Contents())
      ensures IsKey(key) && r.Err? ==> r.error == TableOverflow && old(LiveCount(node[..]) + sizearray) >= MAXASIZE
      decreases if Fits(key) then 0 else 1, 3
    {
      hide ValidNodes;
      var s := FindSlot(key);
      if s != NoSlot {
        return Ok(s);
      }
      if key == Nil {
        return Err(IndexIsNil);
      }
      if key == Num(NaN) {
        return Err(IndexIsNaN);
      }
      r := NewKey(key);
    }

    /** t[key] := v, by luaH_set and a store through its result. */
    method Set(key: Value, v: Value) returns (r: Result<(), TableError>)
      requires Valid()
      modifies this, arr, node
      ensures SameOrFresh()
      ensures r == Err(IndexIsNil) <==> key == Nil
      ensures r == Err(IndexIsNaN) <==> key == Num(NaN)
      ensures r.Ok? ==> Valid() && At(key) == v
      ensures r.Ok? ==> forall k | IsKey(k) && k != key :: At(k) == old(At(k))
      ensures IsKey(key) && old(Fits(key)) ==> r.Ok? && SameVectors()
      ensures IsKey(key) && old(Fits(key)) ==> Extended(if InArray(key, sizearray) then 0 else 1)
      ensures IsKey(key) && old(Fits(key)) ==> forall i | sizearray <= i < arr.Length :: arr[i] == old(arr[i])
      ensures IsKey(key) && old(Present(key)) ==> r.Ok? && SameVectors() && SameFields(old(Contents()), Contents())
      ensures IsKey(key) && r.Err? ==> r.error == TableOverflow && old(LiveCount(node[..]) + sizearray) >= MAXASIZE
      decreases if Fits(key) then 0 else 1, 4
    {
      hide ValidNodes;
      var o := SetSlot(key);
      if o.Err? {
        return Err(o.error);
      }
      WriteSlot(key, o.value, v);
      r := Ok(());
    }

    /** rehash: recount all keys, and resize to the best array size with room for the extra key. */
    method Rehash(key: Value) returns (r: Result<(), TableError>)
      requires Valid() && IsKey(key)
      requires !InArray(key, sizearray) && KeyAbsent(node[..], key)
      modifies this, arr, node
      ensures SameOrFresh()
      ensures r.Ok? ==> Valid() && (InArray(key, sizearray) || HasRoom())
      ensures r.Ok? ==> OptimalSize(old(IntegersInUse(arr[..sizearray], node[..])) + Candidate(key), sizearray)
      ensures r.Ok? ==> SameMap()
      ensures r.Err? ==> r.error == TableOverflow && old(LiveCount(node[..]) + sizearray) >= MAXASIZE
      decreases 1, 0
    {
      hide ArrayKeys, Candidate, HashInts, HashNeed, IntegersInUse, OptimalSize, UpTo, ValidNodes;
      var nums, nasize, totaluse := CountKeys(key);
      var na, n := ComputeSizes(nums, nasize, Candidates(key));
      LiveNodes(HomeOf(hash, node.Length), node[..], lay);
      AllSeen(arr[..sizearray]);
      CountedInUse(arr[..sizearray], node[..]);
      RehashPlan(arr[..sizearray], node[..], key, n);
      r := Resize(n, totaluse - na);
      if r.Ok? && !InArray(key, n) {
        RoomLeft(node[..]);
      }
    }

    /** resize: new sizes for both parts, then every entry stored again. With enough room asked
        for, no reinsertion calls rehash. */
    method Resize(nasize: nat, nhsize: nat) returns (r: Result<(), TableError>)
      requires Shape() && nasize <= MAXASIZE
      requires HashNeed(arr[..sizearray], node[..], nasize) <= nhsize
      modifies this, arr, node
      ensures SameOrFresh()
      ensures r.Err? <==> nhsize > MAXASIZE
      ensures r.Err? ==> r.error == TableOverflow
      ensures r.Ok? ==> Valid() && sizearray == nasize
      ensures r.Ok? ==> node.Length >= nhsize && (nhsize > 0 ==> !isdummy)
      ensures r.Ok? ==> |KeyedNodes(node[..])| <= HashNeed(old(arr[..sizearray]), old(node[..]), nasize)
      ensures r.Ok? ==> SameMap()
      decreases 0, 7
    {
      hide ValidNodes;
      var oldasize, nold := sizearray, node;
      ghost var a0, n0 := arr[..sizearray], node[..];
      LiveEntries(HomeOf(hash, node.Length), n0, lay);
      if nasize > oldasize {
        SetArrayVector(nasize);
        assert arr[..oldasize] == a0;
      }
      var o := SetNodeVector(nhsize);
      if o.Err? {
        return Err(o.error);
      }
      Refill(oldasize, nasize, nold, a0);
      r := Ok(());
    }

    /** The reinsertions of resize into the new vectors (ltable.c:306-321). */
    method Refill(oldasize: nat, nasize: nat, nold: array<Node>, ghost a0: seq<Value>)
      requires sizearray == if nasize > oldasize then nasize else oldasize
      requires sizearray <= arr.Length && sizearray <= MAXASIZE && |a0| == oldasize && arr[..oldasize] == a0
      requires forall i | oldasize <= i < sizearray :: arr[i] == Nil
      requires lsizenode <= MAXBITS && node.Length == Pow2(lsizenode) && (isdummy ==> lsizenode == 0)
      requires lastfree == (if isdummy then 0 else node.Length)
      requires ValidNodes(HomeOf(hash, node.Length), node[..], lay)
      requires forall i | 0 <= i < node.Length :: node[i] == FREE_NODE
      requires KeyedNodes(node[..]) == {} && forall k | IsKey(k) :: NodeValue(node[..], k) == Nil
      requires nold != node && LiveKeyed(nold[..])
      requires forall i | 0 <= i < nold.Length && nold[i].val != Nil ::
                 IsKey(nold[i].key) && !nold[i].dead && !InArray(nold[i].key, oldasize)
      requires HashNeed(a0, nold[..], nasize) <= if isdummy then 0 else node.Length
      modifies this, arr, node
      ensures SameOrFresh() && node == old(node) && isdummy == old(isdummy)
      ensures Valid() && sizearray == nasize
      ensures |KeyedNodes(node[..])| <= HashNeed(a0, old(nold[..]), nasize)
      ensures forall k | IsKey(k) :: At(k) == Lookup(a0, old(nold[..]), k)
      decreases 0, 6
    {
      hide UpTo, ValidNodes;
      if nasize < oldasize {
        sizearray := nasize;
        SliceUseIsCount(a0, nasize);
        ReinsertSlice(oldasize, a0);
        label Reinserted:
        SetArrayVector(nasize);
        assert arr[..nasize] == old@Reinserted(arr[..nasize]);
      } else {
        NothingBeyond(a0, nasize);
      }
      ReinsertNodes(nold, a0);
    }

    /** The entries of a vanishing slice of the array part go to the hash part (ltable.c:306-312). */
    method ReinsertSlice(oldasize: nat, ghost a0: seq<Value>)
      requires Valid() && sizearray < oldasize == |a0| <= arr.Length && oldasize <= MAXASIZE
      requires arr[..oldasize] == a0
      requires KeyedNodes(node[..]) == {}
      requires forall k | IsKey(k) :: NodeValue(node[..], k) == Nil
      requires SliceUse(a0, sizearray) <= (if isdummy then 0 else node.Length)
      modifies this, arr, node
      ensures Valid() && SameVectors()
      ensures |KeyedNodes(node[..])| <= SliceUse(a0, sizearray)
      ensures forall k | IsKey(k) :: At(k) == Lookup(a0, [], k)
      decreases 0, 5
    {
      hide ValidNodes;
      var i := sizearray;
      assert arr[..sizearray] == a0[..i];
      while i < oldasize
        invariant old(sizearray) <= i <= oldasize
        invariant Valid() && SameVectors()
        invariant forall j | sizearray <= j < oldasize :: arr[j] == a0[j]
        invariant |KeyedNodes(node[..])| + SliceUse(a0, i) <= SliceUse(a0, sizearray)
        invariant forall k | IsKey(k) :: At(k) == Lookup(a0[..i], [], k)
      {
        var v := arr[i];
        SliceValue(a0, i);
        if v != Nil {
          RoomLeft(node[..]);
          assert HasRoom();
          var o := Set(KeyOf(i + 1), v);
        }
        i := i + 1;
      }
      assert a0[..oldasize] == a0;
    }

    /** Every live entry of the old node vector is stored again (ltable.c:316-321). */
    method ReinsertNodes(nold: array<Node>, ghost a0: seq<Value>)
      requires Valid() && nold != node
      requires LiveKeyed(nold[..]) && |a0| <= MAXASIZE
      requires forall i | 0 <= i < nold.Length && nold[i].val != Nil ::
                 IsKey(nold[i].key) && !nold[i].dead && !InArray(nold[i].key, |a0|)
      requires |KeyedNodes(node[..])| + LiveOutside(nold[..], sizearray) <= (if isdummy then 0 else node.Length)
      requires forall k | IsKey(k) :: At(k) == Lookup(a0, [], k)
      modifies this, arr, node
      ensures Valid() && SameVectors()
      ensures |KeyedNodes(node[..])| <= old(|KeyedNodes(node[..])| + LiveOutside(nold[..], sizearray))
      ensures forall k | IsKey(k) :: At(k) == Lookup(a0, old(nold[..]), k)
      decreases 0, 5
    {
      hide LiveOutside, NodeValue, ValidNodes;
      ghost var n0 := nold[..];
      var i := nold.Length;
      assert n0[i..] == [];
      while i > 0
        invariant 0 <= i <= nold.Length
        invariant Valid() && SameVectors() && nold[..] == n0
        invariant |KeyedNodes(node[..])| <= old(|KeyedNodes(node[..])|) + LiveOutside(n0[i..], sizearray)
        invariant forall k | IsKey(k) :: At(k) == Lookup(a0, n0[i..], k)
      {
        i := i - 1;
        LiveStep(n0, i, sizearray);
        LiveSuffix(n0, i, sizearray);
        SuffixValues(a0, n0, i);
        if nold[i].val != Nil {
          var key, v := nold[i].key, nold[i].val;
          if !InArray(key, sizearray) {
            RoomLeft(node[..]);
            assert HasRoom();
          }
          var o := Set(key, v);
        }
      }
      assert n0[0..] == n0;
    }

    constructor (hash: Value -> nat)
      ensures Valid() && sizearray == 0 && isdummy && this.hash == hash
      ensures forall k | IsKey(k) :: At(k) == Nil
      ensures fresh(arr) && fresh(node)
    {
      this.hash := hash;
      arr, sizearray := new Value[0], 0;
      node := new Node[1](_ => FREE_NODE);
      lsizenode, isdummy, lastfree, lay := 0, true, 0, FreshLayout(1);
      new;
      FreshNodesValid(HomeOf(hash, 1), node[..]);
    }

    /** luaH_new: an empty table with room for narray and nhash entries. */
    static method New(hash: Value -> nat, narray: nat, nhash: nat) returns (r: Result<Table, TableError>)
      requires narray <= MAXASIZE
      ensures r.Err? <==> nhash > MAXASIZE
      ensures r.Ok? ==> fresh(r.value) && r.value.Valid() && r.value.hash == hash
      ensures r.Ok? ==> r.value.sizearray == narray && forall k | IsKey(k) :: r.value.At(k) == Nil
    {
      var t := new Table(hash);
      t.SetArrayVector(narray);
      var o := t.SetNodeVector(nhash);
      if o.Err? {
        return Err(o.error);
      }
      r := Ok(t);
    }

    /** luaH_resizearray: its callers make the array part larger; a smaller one must leave its entries room. */
    method ResizeArray(nasize: nat) returns (r: Result<(), TableError>)
      requires Valid() && nasize <= MAXASIZE
      requires sizearray <= nasize
               || HashNeed(arr[..sizearray], node[..], nasize) <= (if isdummy then 0 else node.Length)
      modifies this, arr, node
      ensures r.Ok? && Valid() && sizearray == nasize
      ensures SameMap()
    {
      var nsize := if isdummy then 0 else node.Length;
      if sizearray <= nasize {
        NothingBeyond(arr[..sizearray], nasize);
      }
      LiveBound(node[..], nasize);
      Pow2Monotone(lsizenode, MAXBITS);
      Pow2Bound();
      if isdummy {
        assert node[..] == [FREE_NODE];
      }
      r := Resize(nasize, nsize);
    }

    /** removeentry (lgc.c:62-66): the collector marks the key of an empty entry dead. The object may be
        alive, and be used as a key again. */
    method RemoveEntry(i: nat)
      requires Valid() && i < node.Length && !isdummy && node[i].val == Nil
      modifies node
      ensures Valid() && SameFields(old(Contents()), Contents())
      ensures SameMap()
      ensures forall j | 0 <= j < node.Length && j != i :: node[j] == old(node[j])
      ensures node[i] == old(node[i]).(dead := old(node[i]).dead || IsCollectable(old(node[i]).key))
    {
      ghost var nodes, home := node[..], HomeOf(hash, node.Length);
      if IsCollectable(node[i].key) {
        node[i] := node[i].(dead := true);
        assert node[..] == nodes[i := nodes[i].(dead := true)];
        KillKey(home, nodes, lay, i, node[..]);
      } else {
        assert node[..] == nodes;
      }
    }

    /** The collector comes by the entry of node i, if there is one. */
    method SweepEntry(i: nat)
      requires Valid()
      modifies node
      ensures Valid() && SameFields(old(Contents()), Contents()) && SameMap()
    {
      if i < node.Length && !isdummy && node[i].val == Nil {
        RemoveEntry(i);
      } else {
        assert node[..] == old(node[..]);
      }
    }

    /** Any run of assignments, with the collector coming by in between, leaves each key with the last
        value stored for it. */
    method Run(events: seq<Event>) returns (r: Result<(), TableError>)
      requires Valid()
      modifies this, arr, node
      ensures r.Ok? ==> Valid() && forall k | k != Nil && k != Num(NaN) :: At(k) == LastStored(old(At(k)), events, k)
      ensures r.Err? && r.error == IndexIsNil ==> exists i | 0 <= i < |events| ::
                events[i].Assign? && events[i].key == Nil
      ensures r.Err? && r.error == IndexIsNaN ==> exists i | 0 <= i < |events| ::
                events[i].Assign? && events[i].key == Num(NaN)
      ensures r.Err? && (forall i | 0 <= i < |events| :: events[i].Assign? ==> IsKey(events[i].key)) ==>
                r.error == TableOverflow
    {
      hide ValidNodes;
      var i := 0;
      while i < |events|
        invariant 0 <= i <= |events|
        invariant Valid() && SameOrFresh()
        invariant forall k | IsKey(k) :: At(k) == LastStored(old(At(k)), events[..i], k)
      {
        match events[i] {
          case Assign(key, v) =>
            var o := Set(key, v);
            if o.Err? {
              return Err(o.error);
            }
          case Sweep(n) =>
            SweepEntry(n);
        }
        assert events[..i + 1][..i] == events[..i];
        i := i + 1;
      }
      assert events[..i] == events;
      r := Ok(());
    }

    // ---- Traversal ----

    lemma TableKeyed()
      requires Valid()
      ensures WellKeyed(Contents())
    {
      var home := HomeOf(hash, node.Length);
      LiveEntries(home, node[..], lay);
      ChainFacts(home, node[..], lay);
    }

    /** The walk of findindex along the chain of a key: to the first node with it, dead or not. */
    method FindNode(key: Value) returns (n: int)
      requires Valid() && key != Nil
      ensures n >= 0 ==> FirstWithKey(Contents(), n, key)
      ensures n < 0 ==> forall j | 0 <= j < node.Length :: !RawEqual(node[j].key, key)
    {
      hide ValidNodes;
      n := MainPosition(hash, key, node.Length);
      ghost var home, mp := HomeOf(hash, node.Length), n;
      ChainFacts(home, node[..], lay);
      assert home(key) == mp;
      ghost var rest := Indices(node.Length);
      while n >= 0
        invariant -1 <= n < node.Length
        invariant n >= 0 ==> n == mp || Before(lay, mp, n)
        invariant forall j | 0 <= j < node.Length && (j == mp || Before(lay, mp, j)) &&
                    (n < 0 || (j != n && !Before(lay, n, j))) :: node[j].key != key
        invariant n >= 0 ==> n in rest && forall j | 0 <= j < node.Length && Before(lay, n, j) :: j in rest
        decreases if n >= 0 then 1 else 0, rest
      {
        if RawEqual(node[n].key, key) {
          OnChain(home, node[..], lay, key, mp);
          return;
        }
        ghost var was := n;
        assert LinkOk(node[..], lay, n);
        n := node[n].next;
        rest := rest - {was};
        if n >= 0 {
          assert node[..][n] == node[n];
          assert Before(lay, was, n) && LinkOk(node[..], lay, n);
        }
      }
      NotOnChain(home, node[..], lay, key, mp);
    }

    /** findindex: the position of a key in the order of traversal, -1 for nil. */
    method FindIndex(key: Value) returns (r: Result<int, TableError>)
      requires Valid()
      ensures r.Err? ==> r.error == InvalidKeyToNext && forall p :: !IsPosition(Contents(), key, p)
      ensures r.Ok? ==> IsPosition(Contents(), key, r.value)
    {
      hide ValidNodes;
      if key == Nil {
        return Ok(-1);
      }
      var i := ArrayIndex(key);
      if 0 < i <= sizearray {
        return Ok(i - 1);
      }
      var n := FindNode(key);
      r := if n >= 0 then Ok(n + sizearray) else Err(InvalidKeyToNext);
    }

    /** The two scans of luaH_next. */
    method EntryAfter(p: int) returns (e: (Value, Value))
      requires Valid() && -1 <= p < sizearray + node.Length
      ensures e == Following(Contents(), p)
    {
      hide ValidNodes;
      ghost var c := Contents();
      var i := p + 1;
      while i < sizearray
        invariant p < i <= End(c)
        invariant EmptyBetween(c, p, i)
      {
        if arr[i] != Nil {
          FirstAfter(c, p, i);
          return (KeyOf(i + 1), arr[i]);
        }
        i := i + 1;
      }
      i := i - sizearray;
      while i < node.Length
        invariant 0 <= i <= node.Length && p < i + sizearray
        invariant EmptyBetween(c, p, i + sizearray)
      {
        if node[i].val != Nil {
          FirstAfter(c, p, i + sizearray);
          return (node[i].key, node[i].val);
        }
        i := i + 1;
      }
      FirstAfter(c, p, i + sizearray);
      e := (Nil, Nil);
    }

    /** luaH_next: the first entry with a value after the position of key; nil ends it. */
    method Next(key: Value) returns (r: Result<(Value, Value), TableError>, ghost p: int)
      requires Valid()
      ensures r.Err? ==> r.error == InvalidKeyToNext && forall q :: !IsPosition(Contents(), key, q)
      ensures r.Ok? ==> IsPosition(Contents(), key, p)
      ensures r.Ok? ==> r.value == Following(Contents(), p)
      ensures r.Ok? && r.value.0 != Nil ==> r.value.1 == At(r.value.0) && r.value.1 != Nil
      ensures r.Ok? && r.value.0 == Nil ==> r.value.1 == Nil
    {
      hide Following;
      var f := FindIndex(key);
      p := -1;
      if f.Err? {
        r := Err(f.error);
        return;
      }
      p := f.value;
      var e := EntryAfter(f.value);
      r := Ok(e);
      TableKeyed();
      FollowingIs(Contents(), p);
      AnswerIs(Contents(), e.0, p, NextAfter(Contents(), p));
    }

    method TouchField(e: Event)
      requires Valid()
      modifies this, arr, node
      ensures Valid() && SameVectors() && SameFields(old(Contents()), Contents())
    {
      hide ValidNodes;
      match e {
        case Assign(key, v) =>
          var s := FindSlot(key);
          if s != NoSlot {
            assert IsKey(key) && Present(key);
            var o := Set(key, v);
          }
        case Sweep(n) =>
          SweepEntry(n);
      }
    }

    /** What a program may do during a traversal: assign to fields that exist, also nil. The collector may
        come by. */
    method TouchFields(events: seq<Event>)
      requires Valid()
      modifies this, arr, node
      ensures Valid() && SameVectors() && SameFields(old(Contents()), Contents())
    {
      hide ValidNodes, SameFields;
      FieldsSelf(Contents());
      var i := 0;
      while i < |events|
        invariant 0 <= i <= |events|
        invariant Valid() && SameVectors() && SameFields(old(Contents()), Contents())
      {
        ghost var c := Contents();
        TouchField(events[i]);
        SameFieldsTwice(old(Contents()), c, Contents());
        i := i + 1;
      }
    }

    /** One call of luaH_next in a traversal. */
    method NextKey(ghost st: seq<Snapshot>, keys: seq<Value>, ghost at: seq<int>)
        returns (key: Value, v: Value, ghost p: int, ghost q: int)
      requires Valid() && Traversal(st, keys, at) && (st != [] ==> keys[|st|] != Nil)
      requires forall j | 0 <= j < |st| :: SameFields(st[j], Contents())
      ensures Traversal(st + [Contents()], keys + [key], at + [q])
      ensures v == if key == Nil then Nil else ValueOf(Contents(), key)
    {
      hide ValidNodes, SameFields, Following, NextAfter, IsPosition;
      TableKeyed();
      var r;
      r, p := Next(keys[|keys| - 1]);
      TraversalKeysFound(st, keys, at, Contents(), p);
      TraversalKeysFound(st, keys, at, Contents(), at[|st|]);
      FieldsSelf(Contents());
      assert r.Ok?;
      key, v, q := r.value.0, r.value.1, NextAfter(Contents(), p);
      assert StepAt(Contents(), key, p, q) by {
        FollowingIs(Contents(), p);
      }
    }

    /** Feeding each answer of luaH_next back to it, with some of `events` before each call: it never fails,
        stops, and answers every key that keeps a value exactly once, with the value it has then. */
    method Traverse(events: nat -> seq<Event>)
        returns (keys: seq<Value>, vals: seq<Value>, ghost st: seq<Snapshot>, ghost at: seq<int>)
      requires Valid()
      modifies this, arr, node
      ensures Valid() && SameVectors() && Traversal(st, keys, at) && keys[|st|] == Nil
      ensures 0 < |st| <= End(old(Contents())) + 1 && SameFields(old(Contents()), st[0])
      ensures AnsweredWith(st, keys, vals)
      ensures forall j | 0 < j < |st| :: ValueOf(st[j - 1], keys[j]) != Nil
      ensures forall i, j | 0 <= i < j < |st| :: keys[i] != keys[j]
      ensures forall k | IsKey(k) && (forall j | 0 <= j < |st| :: ValueOf(st[j], k) != Nil) :: k in keys
    {
      hide AnsweredWith, SameFields, ValidNodes;
      AnsweredNone();
      keys, vals, st, at := [Nil], [], [], [-1];
      FieldsSelf(Contents());
      var done := false;
      while !done
        invariant Valid() && SameVectors() && Traversal(st, keys, at)
        invariant SameFields(old(Contents()), Contents())
        invariant forall j | 0 <= j < |st| :: SameFields(st[j], Contents()) && SameFields(old(Contents()), st[j])
        invariant st != [] ==> (done <==> keys[|st|] == Nil)
        invariant done ==> st != []
        invariant AnsweredWith(st, keys, vals)
        invariant |st| <= End(old(Contents())) + 1
        decreases End(old(Contents())) + 1 - |st|, !done
      {
        ghost var c := Contents();
        TouchFields(events(|keys| - 1));
        FieldsOn(old(Contents()), st, c, Contents());
        ghost var p, q;
        var key, v;
        key, v, p, q := NextKey(st, keys, at);
        AnsweredMore(st, keys, vals, Contents(), key, v);
        keys, vals, at := keys + [key], vals + [v], at + [q];
        st := st + [Contents()];
        done := key == Nil;
        TraversalEnds(st, keys, at);
        FieldsEnd(old(Contents()), st[0]);
      }
      TraversalExact(st, keys, at);
    }

    /** A border: section 2.5.5 of the Lua 5.1 Reference Manual. */
    ghost predicate Border(n: int)
      reads this, arr, node
      requires sizearray <= arr.Length
    {
      n >= 0 && (n == 0 || At(KeyOf(n)) != Nil) && At(KeyOf(n + 1)) == Nil
    }

    method LinearSearch() returns (n: uint32)
      requires Valid()
      ensures Border(n as int)
    {
      var i: uint32 := 1;
      var v := Get(KeyOf(1));
      Pow2Monotone(lsizenode, MAXBITS);
      Pow2Bound();
      while v != Nil
        invariant 1 <= i as int <= sizearray + node.Length + 1
        invariant forall k | 1 <= k < i as int :: At(KeyOf(k)) != Nil
        invariant v == At(KeyOf(i as int))
        decreases sizearray + node.Length + 1 - i as int
      {
        assert forall k | 1 <= k <= i as int :: At(KeyOf(k)) != Nil;
        FewIntegerKeys(arr[..sizearray], node[..], i as int);
        i := i + 1;
        v := Get(KeyOf(i as int));
      }
      n := i - 1;
    }

    /** unbound_search: doubling, then bisection, with a linear search as the way out. The 32-bit
        arithmetic of the source does not overflow. */
    method UnboundSearch(j0: uint32) returns (n: uint32)
      requires Valid() && j0 as int <= MAXASIZE
      requires j0 == 0 || At(KeyOf(j0 as int)) != Nil
      ensures Border(n as int)
    {
      hide ValidNodes;
      var i, j := j0, j0 + 1;
      var v := Get(KeyOf(j as int));
      while v != Nil
        invariant i < j && j as int <= MAX_INT
        invariant i == 0 || At(KeyOf(i as int)) != Nil
        invariant v == At(KeyOf(j as int))
        decreases MAX_INT - j as int
      {
        i := j;
        j := j * 2;
        if j as int > MAX_INT {
          n := LinearSearch();
          return;
        }
        v := Get(KeyOf(j as int));
      }
      while j - i > 1
        invariant i < j && j as int <= MAX_INT
        invariant i == 0 || At(KeyOf(i as int)) != Nil
        invariant At(KeyOf(j as int)) == Nil
      {
        var m := (i + j) / 2;
        v := Get(KeyOf(m as int));
        if v == Nil {
          j := m;
        } else {
          i := m;
        }
      }
      n := i;
    }

    /** luaH_getn. */
    method GetN() returns (n: uint32)
      requires Valid()
      ensures n == 0 || At(Num(Whole(n as int))) != Nil
      ensures At(Num(Whole(n as int + 1))) == Nil
    {
      var j := sizearray as uint32;
      if j > 0 && arr[j - 1] == Nil {
        var i: uint32 := 0;
        while j - i > 1
          invariant i < j <= sizearray as uint32
          invariant i == 0 || arr[i - 1] != Nil
          invariant arr[j - 1] == Nil
        {
          var m := (i + j) / 2;
          if arr[m - 1] == Nil {
            j := m;
          } else {
            i := m;
          }
        }
        return i;
      } else if isdummy {
        assert node[..] == [FREE_NODE];
        return j;
      } else {
        n := UnboundSearch(j);
      }
    }
  }
}
