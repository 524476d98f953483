/** The order in which next visits a table (findindex and luaH_next of ltable.c), and whole traversals. */
module TableTraversal {
  import opened TableValues
  import opened TableNodes

  /** The contents of a table at one moment. */
  datatype Snapshot = Snapshot(a: seq<Value>, nodes: seq<Node>, lay: Layout)

  ghost function End(s: Snapshot): nat {
    |s.a| + |s.nodes|
  }

  /** What every table satisfies. */
  ghost predicate WellKeyed(s: Snapshot) {
    && |s.lay.chain| == |s.lay.rank| == |s.nodes|
    && LiveKeyed(s.nodes) && LiveFirst(s.nodes, s.lay)
    && |s.a| <= MAXASIZE
    && forall i | 0 <= i < |s.nodes| :: s.nodes[i].key != Num(NaN) && !InArray(s.nodes[i].key, |s.a|)
  }

  /** From s to t fields may have been assigned or set to nil, and dead keys marked, but no key was
      inserted. */
  ghost predicate SameFields(s: Snapshot, t: Snapshot) {
    && |s.a| == |t.a| && |s.nodes| == |t.nodes| && s.lay == t.lay
    && forall i | 0 <= i < |s.nodes| :: s.nodes[i].key == t.nodes[i].key && (s.nodes[i].dead ==> t.nodes[i].dead)
  }

  lemma SameFieldsTwice(s: Snapshot, t: Snapshot, u: Snapshot)
    requires SameFields(s, t) && SameFields(t, u)
    ensures SameFields(s, u)
  {
  }

  lemma FieldsSelf(s: Snapshot)
    ensures SameFields(s, s)
  {
  }

  lemma FieldsEnd(s: Snapshot, t: Snapshot)
    requires SameFields(s, t)
    ensures End(s) == End(t)
  {
  }

  lemma FieldsOn(s: Snapshot, st: seq<Snapshot>, t: Snapshot, u: Snapshot)
    requires SameFields(s, t) && SameFields(t, u) && forall j | 0 <= j < |st| :: SameFields(st[j], t)
    ensures SameFields(s, u) && forall j | 0 <= j < |st| :: SameFields(st[j], u)
  {
    hide SameFields;
    SameFieldsTwice(s, t, u);
    forall j | 0 <= j < |st|
      ensures SameFields(st[j], u)
    {
      SameFieldsTwice(st[j], t, u);
    }
  }

  ghost function ValueOf(s: Snapshot, k: Value): Value {
    Lookup(s.a, s.nodes, k)
  }

  /** The node that a search for the key along its chain comes to first, dead or not. */
  ghost predicate FirstWithKey(s: Snapshot, i: nat, k: Value)
    requires |s.lay.chain| == |s.lay.rank| == |s.nodes|
  {
    && i < |s.nodes| && RawEqual(s.nodes[i].key, k)
    && forall j | 0 <= j < |s.nodes| && j != i && s.nodes[j].key == k :: Before(s.lay, i, j)
  }

  /** Position p of the traversal belongs to key k; -1 stands before the first entry. */
  ghost predicate IsPosition(s: Snapshot, k: Value, p: int)
    requires |s.lay.chain| == |s.lay.rank| == |s.nodes|
  {
    && -1 <= p < End(s)
    && if k == Nil then p == -1
       else if InArray(k, |s.a|) then p == ArrayIndex(k) - 1
       else |s.a| <= p && FirstWithKey(s, p - |s.a|, k)
  }

  function ValueAt(s: Snapshot, p: nat): Value
    requires p < |s.a| + |s.nodes|
  {
    if p < |s.a| then s.a[p] else s.nodes[p - |s.a|].val
  }

  /** The first position after p that has a value, the end when there is none. */
  function NextAfter(s: Snapshot, p: int): (q: int)
    requires -1 <= p < |s.a| + |s.nodes|
    ensures p < q <= |s.a| + |s.nodes|
    decreases |s.a| + |s.nodes| - p
  {
    if p + 1 == |s.a| + |s.nodes| || ValueAt(s, p + 1) != Nil then p + 1 else NextAfter(s, p + 1)
  }

  ghost predicate EmptyBetween(s: Snapshot, p: int, q: int)
    requires -1 <= p < q <= |s.a| + |s.nodes|
  {
    forall j | p < j < q :: ValueAt(s, j) == Nil
  }

  lemma {:induction false} FirstAfter(s: Snapshot, p: int, q: nat)
    requires -1 <= p < q <= |s.a| + |s.nodes|
    requires EmptyBetween(s, p, q)
    requires q < |s.a| + |s.nodes| ==> ValueAt(s, q) != Nil
    ensures NextAfter(s, p) == q
    decreases q - p
  {
    if p + 1 < q {
      FirstAfter(s, p + 1, q);
    } else {
    }
  }

  lemma {:induction false} NextAfterIsFirst(s: Snapshot, p: int)
    requires -1 <= p < |s.a| + |s.nodes|
    ensures p < NextAfter(s, p) && EmptyBetween(s, p, NextAfter(s, p))
    ensures NextAfter(s, p) < End(s) ==> ValueAt(s, NextAfter(s, p)) != Nil
    decreases |s.a| + |s.nodes| - p
  {
    if p + 1 == |s.a| + |s.nodes| || ValueAt(s, p + 1) != Nil {
    } else {
      NextAfterIsFirst(s, p + 1);
    }
  }

  function EntryAt(s: Snapshot, p: nat): (Value, Value)
    requires p <= |s.a| + |s.nodes|
  {
    if p < |s.a| then (KeyOf(p + 1), s.a[p])
    else if p < |s.a| + |s.nodes| then (s.nodes[p - |s.a|].key, s.nodes[p - |s.a|].val)
    else (Nil, Nil)
  }

  /** What luaH_next answers when asked for the entry after position p. */
  function Following(s: Snapshot, p: int): (Value, Value)
    requires -1 <= p < |s.a| + |s.nodes|
  {
    EntryAt(s, NextAfter(s, p))
  }

  ghost predicate StepAt(s: Snapshot, key: Value, p: int, q: int) {
    -1 <= p < End(s) && q == NextAfter(s, p) && key == Following(s, p).0
  }

  lemma FollowingIs(s: Snapshot, p: int)
    requires -1 <= p < End(s)
    ensures StepAt(s, Following(s, p).0, p, NextAfter(s, p))
  {
  }

  // ---- Whole traversals ----

  /** luaH_next is given the j-th key in snapshot j, at position at[j], and answers with the next one. It
      is called again while the answer is not nil. */
  ghost predicate Traversal(st: seq<Snapshot>, keys: seq<Value>, at: seq<int>) {
    && |keys| == |at| == |st| + 1 && keys[0] == Nil && at[0] == -1
    && (forall j | 0 <= j < |st| :: WellKeyed(st[j]))
    && (forall i, j | 0 <= i <= j < |st| :: SameFields(st[i], st[j]))
    && (forall j | 0 <= j < |st| :: StepAt(st[j], keys[j + 1], at[j], at[j + 1]))
    && (forall j | 0 < j < |st| :: keys[j] != Nil)
  }

  /** Each key was answered with the value it had then, and nil with nil. */
  ghost predicate AnsweredWith(st: seq<Snapshot>, keys: seq<Value>, vals: seq<Value>) {
    && |vals| == |st| && |keys| == |st| + 1
    && forall j | 0 <= j < |st| :: vals[j] == if keys[j + 1] == Nil then Nil else ValueOf(st[j], keys[j + 1])
  }

  lemma AnsweredNone()
    ensures AnsweredWith([], [Nil], [])
  {
  }

  lemma AnsweredMore(st: seq<Snapshot>, keys: seq<Value>, vals: seq<Value>, s: Snapshot, key: Value, v: Value)
    requires AnsweredWith(st, keys, vals) && v == if key == Nil then Nil else ValueOf(s, key)
    ensures AnsweredWith(st + [s], keys + [key], vals + [v])
  {
    var keys', vals', st' := keys + [key], vals + [v], st + [s];
    forall j | 0 <= j < |st'|
      ensures vals'[j] == if keys'[j + 1] == Nil then Nil else ValueOf(st'[j], keys'[j + 1])
    {
      if j < |st| { assert keys'[j + 1] == keys[j + 1] && vals'[j] == vals[j] && st'[j] == st[j]; }
    }
  }

  /** The search for a key with a value comes to its entry, not to a dead one. */
  lemma LiveIsFirst(s: Snapshot, i: nat)
    requires WellKeyed(s) && i < |s.nodes| && s.nodes[i].Keyed() && !s.nodes[i].dead
    ensures FirstWithKey(s, i, s.nodes[i].key)
  {
  }

  /** What an answer tells: a key with its value, or the end. */
  lemma AnswerIs(s: Snapshot, key: Value, p: int, q: int)
    requires WellKeyed(s) && StepAt(s, key, p, q)
    ensures p < q <= End(s) && (key == Nil <==> q == End(s))
    ensures key != Nil ==> IsPosition(s, key, q) && ValueAt(s, q) != Nil && ValueOf(s, key) == ValueAt(s, q)
    ensures Following(s, p).1 == if key == Nil then Nil else ValueOf(s, key)
  {
    NextAfterIsFirst(s, p);
    if |s.a| <= q < End(s) {
      LiveIsFirst(s, q - |s.a|);
      NodeValueAt(s.nodes, q - |s.a|, key);
    }
  }

  /** The key of an answer still has its position, and no other, when its entry was cleared or its key
      marked dead since. */
  lemma KeyFindsPosition(s: Snapshot, t: Snapshot, key: Value, p: nat, q: int)
    requires WellKeyed(s) && p < End(s) && ValueAt(s, p) != Nil && key == EntryAt(s, p).0
    requires WellKeyed(t) && SameFields(s, t)
    ensures IsPosition(t, key, q) <==> q == p
  {
    if p >= |s.a| {
      LiveIsFirst(s, p - |s.a|);
      assert s.nodes[p - |s.a|].key == t.nodes[p - |s.a|].key;
      assert FirstWithKey(t, p - |s.a|, key);
    }
  }

  /** luaH_next is never given a key it cannot find. */
  lemma TraversalKeysFound(st: seq<Snapshot>, keys: seq<Value>, at: seq<int>, t: Snapshot, q: int)
    requires Traversal(st, keys, at) && (st != [] ==> keys[|st|] != Nil)
    requires WellKeyed(t) && forall j | 0 <= j < |st| :: SameFields(st[j], t)
    ensures IsPosition(t, keys[|st|], q) <==> q == at[|st|]
    ensures -1 <= at[|st|] < End(t)
  {
    if st != [] {
      var n := |st| - 1;
      assert StepAt(st[n], keys[n + 1], at[n], at[n + 1]);
      AnswerIs(st[n], keys[n + 1], at[n], at[n + 1]);
      KeyFindsPosition(st[n], t, keys[n + 1], at[n + 1], q);
    }
  }

  lemma {:induction false} TraversalAscends(st: seq<Snapshot>, keys: seq<Value>, at: seq<int>, i: nat, j: nat)
    requires Traversal(st, keys, at) && i < j <= |st|
    ensures at[i] + j - i <= at[j]
    decreases j - i
  {
    assert StepAt(st[i], keys[i + 1], at[i], at[i + 1]);
    NextAfterIsFirst(st[i], at[i]);
    if i + 1 == j {
    } else {
      TraversalAscends(st, keys, at, i + 1, j);
    }
  }

  /** A traversal ends: nil is answered after at most one call for each position, and one more. */
  lemma TraversalEnds(st: seq<Snapshot>, keys: seq<Value>, at: seq<int>)
    requires Traversal(st, keys, at) && st != []
    ensures |st| <= End(st[0]) + 1
    ensures |st| == End(st[0]) + 1 ==> keys[|st|] == Nil
  {
    var n := |st| - 1;
    TraversalAscends(st, keys, at, 0, n + 1);
    assert SameFields(st[0], st[n]) && StepAt(st[n], keys[n + 1], at[n], at[n + 1]);
    AnswerIs(st[n], keys[n + 1], at[n], at[n + 1]);
  }

  /** A position is passed over only while it is empty. */
  lemma {:induction false} TraversalCovers(st: seq<Snapshot>, keys: seq<Value>, at: seq<int>, p: nat, i: nat)
    requires Traversal(st, keys, at) && i < |st| && keys[|st|] == Nil && at[i] < p < End(st[0])
    requires forall j | 0 <= j < |st| :: ValueAt(st[j], p) != Nil
    ensures exists j | i < j < |st| :: at[j] == p
    decreases |st| - i
  {
    assert SameFields(st[0], st[i]) && StepAt(st[i], keys[i + 1], at[i], at[i + 1]);
    AnswerIs(st[i], keys[i + 1], at[i], at[i + 1]);
    NextAfterIsFirst(st[i], at[i]);
    if at[i + 1] == p {
      assert keys[i + 1] != Nil;
    } else {
      TraversalCovers(st, keys, at, p, i + 1);
    }
  }

  /** A key that keeps a value has one position in all snapshots. */
  lemma KeyPosition(st: seq<Snapshot>, k: Value) returns (p: nat)
    requires st != [] && (forall j | 0 <= j < |st| :: WellKeyed(st[j]))
    requires forall i, j | 0 <= i <= j < |st| :: SameFields(st[i], st[j])
    requires IsKey(k) && forall j | 0 <= j < |st| :: ValueOf(st[j], k) != Nil
    ensures p < End(st[0]) && EntryAt(st[0], p).0 == k
    ensures forall j | 0 <= j < |st| :: p < End(st[j]) && ValueAt(st[j], p) != Nil
  {
    var s := st[0];
    if InArray(k, |s.a|) {
      p := ArrayIndex(k) - 1;
      assert forall j | 0 <= j < |st| :: SameFields(s, st[j]);
    } else {
      var i :| 0 <= i < |s.nodes| && s.nodes[i].Has(k);
      p := |s.a| + i;
      forall j | 0 <= j < |st|
        ensures p < End(st[j]) && ValueAt(st[j], p) != Nil
      {
        assert SameFields(s, st[j]) && WellKeyed(st[j]);
        var i' :| 0 <= i' < |st[j].nodes| && st[j].nodes[i'].Has(k);
        assert s.nodes[i'].key == k && !s.nodes[i'].dead && i' == i;
        NodeValueAt(st[j].nodes, i, k);
      }
    }
  }

  lemma AnswersDiffer(st: seq<Snapshot>, keys: seq<Value>, at: seq<int>, i: nat, j: nat)
    requires Traversal(st, keys, at) && 0 < i < j < |st| && at[i] < at[j]
    ensures keys[i] != keys[j]
  {
    var s, t := st[i - 1], st[j - 1];
    assert StepAt(s, keys[i - 1 + 1], at[i - 1], at[i - 1 + 1]) && StepAt(t, keys[j - 1 + 1], at[j - 1], at[j - 1 + 1]);
    AnswerIs(s, keys[i], at[i - 1], at[i]);
    AnswerIs(t, keys[j], at[j - 1], at[j]);
    assert SameFields(s, t);
    KeyFindsPosition(s, t, keys[i], at[i], at[j]);
  }

  lemma KeyAnswered(st: seq<Snapshot>, keys: seq<Value>, at: seq<int>, k: Value)
    requires Traversal(st, keys, at) && st != [] && keys[|st|] == Nil
    requires IsKey(k) && forall j | 0 <= j < |st| :: ValueOf(st[j], k) != Nil
    ensures k in keys
  {
    var p := KeyPosition(st, k);
    TraversalCovers(st, keys, at, p, 0);
    var j :| 0 < j < |st| && at[j] == p;
    assert StepAt(st[j - 1], keys[j - 1 + 1], at[j - 1], at[j - 1 + 1]) && SameFields(st[0], st[j - 1]);
    assert keys[j] == EntryAt(st[j - 1], p).0 == k;
  }

  /** Traversal with next is exact, whatever fields are assigned or cleared on the way: every answer is a
      key with its value, no key is answered twice, and every key that keeps a value is answered. */
  lemma TraversalExact(st: seq<Snapshot>, keys: seq<Value>, at: seq<int>)
    requires Traversal(st, keys, at) && st != [] && keys[|st|] == Nil
    ensures forall j | 0 < j < |st| :: ValueOf(st[j - 1], keys[j]) != Nil
    ensures forall i, j | 0 <= i < j < |st| :: keys[i] != keys[j] && at[i] < at[j]
    ensures forall k | IsKey(k) && (forall j | 0 <= j < |st| :: ValueOf(st[j], k) != Nil) :: k in keys
  {
    forall j | 0 < j < |st|
      ensures ValueOf(st[j - 1], keys[j]) != Nil
    {
      assert StepAt(st[j - 1], keys[j - 1 + 1], at[j - 1], at[j - 1 + 1]);
      AnswerIs(st[j - 1], keys[j], at[j - 1], at[j]);
    }
    forall i, j | 0 <= i < j < |st|
      ensures keys[i] != keys[j] && at[i] < at[j]
    {
      TraversalAscends(st, keys, at, i, j);
      if i > 0 {
        AnswersDiffer(st, keys, at, i, j);
      }
    }
    forall k | IsKey(k) && (forall j | 0 <= j < |st| :: ValueOf(st[j], k) != Nil)
      ensures k in keys
    {
      KeyAnswered(st, keys, at, k);
    }
  }
}
