/** References to values kept in a table: luaL_ref and luaL_unref of lauxlib.c. */
module References {

  const FREELIST_REF := 0
  const LUA_REFNIL := -1

  /** Values other than nil; the free list keeps numbers. */
  datatype Value = Number(i: int) | Other(id: int)

  datatype Option<+T> = None | Some(value: T)

  datatype Op = RefOp(v: Option<Value>) | UnrefOp(ref: int)

  ghost predicate IsBorder(t: map<int, Value>, b: nat) {
    (b == 0 || b in t) && b + 1 !in t
  }

  /** The k-th slot of the chain that starts at slot 0. */
  function ChainSlot(free: seq<int>, k: nat): int
    requires k <= |free|
  {
    if k == 0 then FREELIST_REF else free[k - 1]
  }

  ghost predicate SlotOk(t: map<int, Value>, free: seq<int>, k: nat)
    requires k <= |free|
  {
    var s := ChainSlot(free, k);
    if k < |free| then s in t && t[s] == Number(free[k]) else s !in t
  }

  /** Each slot of the chain holds the number of the next, the last one nil. */
  ghost predicate Threaded(t: map<int, Value>, free: seq<int>) {
    forall k | 0 <= k <= |free| :: SlotOk(t, free, k)
  }

  lemma ChainHead(t: map<int, Value>, free: seq<int>)
    requires Threaded(t, free)
    ensures if free == [] then FREELIST_REF !in t else FREELIST_REF in t && t[FREELIST_REF] == Number(free[0])
  {
    assert SlotOk(t, free, 0);
  }

  /** Taking the first free slot off the chain. */
  lemma ChainPopped(t: map<int, Value>, free: seq<int>, v: Value)
    requires Threaded(t, free) && free != []
    requires forall r | r in free :: r != FREELIST_REF
    requires forall i, j | 0 <= i < j < |free| :: free[i] != free[j]
    ensures var r := free[0];
            Threaded((if r in t then t[FREELIST_REF := t[r]] else t - {FREELIST_REF})[r := v], free[1..])
  {
    var r := free[0];
    var t' := (if r in t then t[FREELIST_REF := t[r]] else t - {FREELIST_REF})[r := v];
    assert r in free;
    forall k | 0 <= k <= |free| - 1
      ensures SlotOk(t', free[1..], k)
    {
      assert SlotOk(t, free, k + 1);
      if k > 0 { assert free[k] in free && free[k] != free[0]; }
    }
  }

  /** The table after luaL_unref of a slot: t[ref] = t[FREELIST_REF] and t[FREELIST_REF] = ref. */
  function Pushed(t: map<int, Value>, ref: int): map<int, Value> {
    (if FREELIST_REF in t then t[ref := t[FREELIST_REF]] else t - {ref})[FREELIST_REF := Number(ref)]
  }

  /** Putting a slot in front of the chain. */
  lemma ChainPushed(t: map<int, Value>, free: seq<int>, r: int)
    requires Threaded(t, free) && r != FREELIST_REF && r !in free
    requires forall x | x in free :: x != FREELIST_REF
    ensures Threaded(Pushed(t, r), [r] + free)
  {
    forall k | 0 <= k <= |free| + 1
      ensures SlotOk(Pushed(t, r), [r] + free, k)
    {
      if k > 0 { assert SlotOk(t, free, k - 1); }
      if k > 1 { assert free[k - 2] in free; }
    }
  }

  /** What a chain from slot 0 stays within, it does not leave: it has no end. */
  lemma {:induction false} ChainStays(t: map<int, Value>, fr: seq<int>, within: set<int>, k: nat)
    requires Threaded(t, fr) && k <= |fr| && FREELIST_REF in within
    requires forall s | s in within :: s in t && t[s].Number? && t[s].i in within
    ensures ChainSlot(fr, k) in within
  {
    if k == 0 {
    } else {
      ChainStays(t, fr, within, k - 1);
      assert SlotOk(t, fr, k - 1);
    }
  }

  /** Putting a free slot in front of the chain once more, or slot 0, makes the chain run in a circle: no
      list of slots is threaded through the table any more. */
  lemma ChainCircle(t: map<int, Value>, free: seq<int>, r: int)
    requires Threaded(t, free) && (r == FREELIST_REF || r in free)
    requires forall x | x in free :: x != FREELIST_REF
    requires forall i, j | 0 <= i < j < |free| :: free[i] != free[j]
    ensures forall fr :: !Threaded(Pushed(t, r), fr)
  {
    var t' := Pushed(t, r);
    var within := {FREELIST_REF, r};
    if r in free {
      var i :| 0 <= i < |free| && free[i] == r;
      within := within + set j | 0 <= j < i :: free[j];
      forall s | s in within
        ensures s in t' && t'[s].Number? && t'[s].i in within
      {
        assert SlotOk(t, free, 0);
        if j :| 0 <= j < i && s == free[j] {
          assert SlotOk(t, free, j + 1);
        }
      }
    }
    forall fr
      ensures !Threaded(t', fr)
    {
      if Threaded(t', fr) {
        assert SlotOk(t', fr, |fr|);
        ChainStays(t', fr, within, |fr|);
      }
    }
  }

  /** A slot that is not on the chain does not matter to it. */
  lemma ChainKept(t: map<int, Value>, free: seq<int>, r: int, v: Value)
    requires Threaded(t, free) && r != FREELIST_REF && r !in free
    ensures Threaded(t[r := v], free)
  {
    var t' := t[r := v];
    forall k | 0 <= k <= |free|
      ensures SlotOk(t', free, k)
    {
      assert SlotOk(t, free, k);
      if k > 0 { assert free[k - 1] in free; }
    }
  }

  /** The references in use after one more operation, that gave back ref. */
  function Step(live: map<int, Value>, op: Op, ref: int): map<int, Value> {
    if op.UnrefOp? then live - {op.ref} else if op.v.None? then live else live[ref := op.v.value]
  }

  function After(live: map<int, Value>, ops: seq<Op>, refs: seq<int>): map<int, Value>
    requires |refs| == |ops|
  {
    if ops == [] then live
    else Step(After(live, ops[..|ops| - 1], refs[..|ops| - 1]), ops[|ops| - 1], refs[|ops| - 1])
  }

  lemma AfterOne(live: map<int, Value>, ops: seq<Op>, refs: seq<int>, op: Op, ref: int)
    requires |refs| == |ops|
    ensures After(live, ops + [op], refs + [ref]) == Step(After(live, ops, refs), op, ref)
  {
    assert (ops + [op])[..|ops|] == ops && (refs + [ref])[..|ops|] == refs;
  }

  class RefTable {
    /** The table; absent keys hold nil. */
    var t: map<int, Value>

    /** The references that the program holds, with what they stand for; the library does not look at
        this. */
    var live: map<int, Value>

    /** The free slots in list order. */
    ghost var free: seq<int>

    /** The list threads the free slots from slot 0, ending in nil; besides them only the references in use
        have slots. */
    ghost predicate Valid()
      reads this
    {
      && Threaded(t, free)
      && (forall i, j | 0 <= i < j < |free| :: free[i] != free[j])
      && (forall r | r in free :: r > 0 && r !in live)
      && (forall r | r in live :: r > 0 && r in t && t[r] == live[r])
      && (forall r | r in t :: r == FREELIST_REF || r in live || r in free)
    }

    constructor ()
      ensures Valid() && live == map[] && free == []
    {
      t := map[];
      live, free := map[], [];
    }

    /** lua_objlen: some border of the table. */
    method ObjLen() returns (b: nat)
      ensures IsBorder(t, b)
    {
      b := 0;
      ghost var above := t.Keys;
      while b + 1 in t
        invariant b > 0 ==> b in t
        invariant forall r | r in t && r > b :: r in above
        decreases above
      {
        b := b + 1;
        above := above - {b};
      }
    }

    /** luaL_ref: a reference that was not in use now stands for the value; nil has one of its own. */
    method Ref(v: Option<Value>) returns (ref: int)
      requires Valid()
      modifies this
      ensures Valid()
      ensures v.None? ==> ref == -1 && live == old(live) && free == old(free) && t == old(t)
      ensures v.Some? ==> ref > 0 && ref !in old(live) && live == old(live)[ref := v.value]
      ensures v.Some? ==> if old(free) == [] then IsBorder(old(t), ref - 1) && free == []
                          else ref == old(free[0]) && free == old(free)[1..]
    {
      if v.None? {
        return LUA_REFNIL;
      }
      ref := if FREELIST_REF in t && t[FREELIST_REF].Number? then t[FREELIST_REF].i else 0;
      ChainHead(t, free);
      if ref != 0 {
        assert free != [] && free[0] == ref;
        assert ref in free && forall r | r in free :: r == ref || r in free[1..];
        forall x | x in free[1..]
          ensures x in free && x != ref
        {
          var i :| 0 <= i < |free| - 1 && free[1..][i] == x;
          assert free[i + 1] == x && free[0] != free[i + 1];
        }
        ChainPopped(t, free, v.value);
        t := if ref in t then t[FREELIST_REF := t[ref]] else t - {FREELIST_REF};
        free := free[1..];
      } else {
        assert free == [];
        ref := ObjLen();
        ref := ref + 1;
        ChainKept(t, free, ref, v.value);
      }
      t := t[ref := v.value];
      live := live[ref := v.value];
    }

    /** luaL_unref. The free list stays in order for every argument but two: a slot that is free already,
        and 0. */
    method Unref(ref: int)
      requires Valid()
      modifies this
      ensures live == old(live) - {ref}
      ensures ref < 0 ==> t == old(t) && free == old(free) && Valid()
      ensures ref >= 0 ==> t == Pushed(old(t), ref)
      ensures ref > 0 && ref !in old(free) ==> Valid() && free == [ref] + old(free)
      ensures ref == 0 || ref in old(free) ==> forall fr :: !Threaded(t, fr)
    {
      if ref >= 0 {
        if ref == 0 || ref in free {
          ChainCircle(t, free, ref);
        } else {
          ChainPushed(t, free, ref);
        }
        t := if FREELIST_REF in t then t[ref := t[FREELIST_REF]] else t - {ref};
        t := t[FREELIST_REF := Number(ref)];
        live := live - {ref};
        free := [ref] + free;
      }
    }

    /** lua_rawgeti with a reference in use gives its value. */
    method Get(ref: int) returns (v: Option<Value>)
      requires Valid()
      ensures ref in live ==> v == Some(live[ref])
    {
      v := if ref in t then Some(t[ref]) else None;
    }

    /** Along any run of luaL_ref and luaL_unref, the latter of references in use or negative ones, the
        references are told apart and stand for the values they were made for. */
    method Run(ops: seq<Op>) returns (refs: seq<int>)
      requires Valid()
      modifies this
      ensures Valid() && |refs| == |ops| && live == After(old(live), ops, refs)
      ensures forall i | 0 <= i < |ops| && ops[i].RefOp? && ops[i].v.Some? ::
                refs[i] > 0 && refs[i] !in After(old(live), ops[..i], refs[..i])
    {
      refs := [];
      assert ops[..0] == [];
      for i := 0 to |ops|
        invariant Valid() && |refs| == i && live == After(old(live), ops[..i], refs)
        invariant forall j | 0 <= j < i && ops[j].RefOp? && ops[j].v.Some? ::
                    refs[j] > 0 && refs[j] !in After(old(live), ops[..j], refs[..j])
      {
        ghost var before := refs;
        var ref := LUA_REFNIL;
        match ops[i] {
          case RefOp(v) => ref := Ref(v);
          case UnrefOp(r) =>
            if r in live || r < 0 {
              Unref(r);
            }
        }
        refs := refs + [ref];
        assert ops[..i + 1] == ops[..i] + [ops[i]] && refs[..i] == before;
        AfterOne(old(live), ops[..i], before, ops[i], ref);
        assert forall j | 0 <= j < i :: refs[..j] == before[..j];
      }
      assert ops[..|ops|] == ops;
    }
  }
}
