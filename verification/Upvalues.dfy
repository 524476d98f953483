/** Upvalues and the stack they point into: lfunc.c and the relocation of ldo.c. */
module Upvalues {

  /** Where the value of an upvalue is: in a stack slot, by its address, or in the upvalue itself. */
  datatype Place = StackSlot(a: int) | Own

  /** The union in an upvalue: links while it is open, its value once it is closed. */
  datatype Body<T> = Links(prev: UpVal<T>, next: UpVal<T>) | Holds(value: T)

  class UpVal<T> {
    var v: Place
    var u: Body<T>
    var next: UpVal?<T>

    constructor (v: Place, u: Body<T>, next: UpVal?<T>)
      ensures this.v == v && this.u == u && this.next == next
    {
      this.v, this.u, this.next := v, u, next;
    }

    /** The head of the ring of open upvalues. */
    constructor Head()
      ensures u == Links(this, this)
    {
      v, next := Own, null;
      u := Links(this, this);
    }
  }

  // ---- What scopes mean: a variable is shared while it is in scope, and kept apart afterwards ----

  datatype Cell<T> = Shared(slot: nat) | Private(value: T)

  datatype Scopes<T> = Scopes(locals: seq<T>, cells: seq<Cell<T>>)

  datatype Op<T> =
    | Find(i: nat)
    | Exit(i: nat)
    | SetUp(k: nat, x: T)
    | SetLocal(i: nat, x: T)
    | Realloc(newsize: nat, place: int, fill: T)

  ghost predicate InScope<T>(s: Scopes<T>) {
    forall k | 0 <= k < |s.cells| :: s.cells[k].Shared? ==> s.cells[k].slot < |s.locals|
  }

  /** At most one upvalue for a variable. */
  ghost predicate OneEach<T>(s: Scopes<T>) {
    forall j, k | 0 <= j < k < |s.cells| :: s.cells[j].Shared? ==> s.cells[j] != s.cells[k]
  }

  const EXTRA_STACK := 5

  ghost predicate Allowed<T>(s: Scopes<T>, op: Op<T>) {
    match op
    case Find(i) => i < |s.locals|
    case Exit(_) => true
    case SetUp(k, _) => k < |s.cells|
    case SetLocal(i, _) => i < |s.locals|
    case Realloc(n, _, _) =>
      forall k | 0 <= k < |s.cells| :: s.cells[k].Shared? ==> s.cells[k].slot < n + 1 + EXTRA_STACK
  }

  ghost function Resized<T>(locals: seq<T>, n: nat, fill: T): (r: seq<T>)
    ensures |r| == n && forall i | 0 <= i < n :: r[i] == if i < |locals| then locals[i] else fill
  {
    seq(n, i => if 0 <= i < |locals| then locals[i] else fill)
  }

  ghost function Cut<T>(s: Scopes<T>, c: Cell<T>, level: nat): Cell<T> {
    if c.Shared? && level <= c.slot < |s.locals| then Private(s.locals[c.slot]) else c
  }

  ghost function Next<T>(s: Scopes<T>, op: Op<T>): Scopes<T>
    requires InScope(s) && Allowed(s, op)
  {
    match op
    case Find(i) => if Shared(i) in s.cells then s else Scopes(s.locals, s.cells + [Shared(i)])
    case Exit(i) => Scopes(s.locals, seq(|s.cells|, k requires 0 <= k < |s.cells| => Cut(s, s.cells[k], i)))
    case SetUp(k, x) =>
      if s.cells[k].Shared? then Scopes(s.locals[s.cells[k].slot := x], s.cells)
      else Scopes(s.locals, s.cells[k := Private(x)])
    case SetLocal(i, x) => Scopes(s.locals[i := x], s.cells)
    case Realloc(n, _, fill) => Scopes(Resized(s.locals, n + 1 + EXTRA_STACK, fill), s.cells)
  }

  ghost function Reads<T>(s: Scopes<T>, k: nat): T
    requires InScope(s) && k < |s.cells|
  {
    if s.cells[k].Shared? then s.locals[s.cells[k].slot] else s.cells[k].value
  }

  /** Whether an operation writes the variable of upvalue k. */
  ghost predicate Writes<T>(s: Scopes<T>, op: Op<T>, k: nat)
    requires k < |s.cells|
  {
    match op
    case SetUp(j, _) => j == k
    case SetLocal(i, _) => s.cells[k] == Shared(i)
    case _ => false
  }

  /** No operation changes what an upvalue reads but a write to its own variable. */
  lemma NextReads<T>(s: Scopes<T>, op: Op<T>, k: nat)
    requires InScope(s) && OneEach(s) && Allowed(s, op) && k < |s.cells|
    ensures InScope(Next(s, op)) && OneEach(Next(s, op)) && |Next(s, op).cells| >= |s.cells|
    ensures !Writes(s, op, k) ==> Reads(Next(s, op), k) == Reads(s, k)
    ensures op.SetUp? && op.k == k ==> Reads(Next(s, op), k) == op.x
    ensures op.SetLocal? && s.cells[k] == Shared(op.i) ==> Reads(Next(s, op), k) == op.x
    ensures op.Exit? ==> Next(s, op).cells[k].Shared? ==> Next(s, op).cells[k].slot < op.i
  {
  }

  ghost predicate AllAllowed<T>(s: Scopes<T>, ops: seq<Op<T>>)
    decreases |ops|
  {
    ops == [] || (InScope(s) && Allowed(s, ops[0]) && AllAllowed(Next(s, ops[0]), ops[1..]))
  }

  ghost function After<T>(s: Scopes<T>, ops: seq<Op<T>>): Scopes<T>
    requires AllAllowed(s, ops)
    decreases |ops|
  {
    if ops == [] then s else After(Next(s, ops[0]), ops[1..])
  }

  /** The last value written to the variable of upvalue k in a run, x if there is none. */
  ghost function LastWritten<T>(s: Scopes<T>, ops: seq<Op<T>>, k: nat, x: T): T
    requires AllAllowed(s, ops) && InScope(s) && OneEach(s) && k < |s.cells|
    decreases |ops|
  {
    if ops == [] then x
    else
      NextReads(s, ops[0], k);
      LastWritten(Next(s, ops[0]), ops[1..], k, if Writes(s, ops[0], k) then ops[0].x else x)
  }

  /** In every run an upvalue reads the last value written to its variable, in scope, moved or closed. */
  lemma {:induction false} RunReads<T>(s: Scopes<T>, ops: seq<Op<T>>, k: nat)
    requires AllAllowed(s, ops) && InScope(s) && OneEach(s) && k < |s.cells|
    ensures InScope(After(s, ops)) && OneEach(After(s, ops)) && |After(s, ops).cells| >= |s.cells|
    ensures Reads(After(s, ops), k) == LastWritten(s, ops, k, Reads(s, k))
    decreases |ops|
  {
    if ops == [] {
    } else {
      NextReads(s, ops[0], k);
      RunReads(Next(s, ops[0]), ops[1..], k);
    }
  }

  datatype CallInfo = CallInfo(top: int, base: int, func: int)

  ghost predicate Falling(at: seq<int>, stack: int, size: nat) {
    (forall i | 0 <= i < |at| :: stack <= at[i] < stack + size) && forall i, j | 0 <= i < j < |at| :: at[i] > at[j]
  }

  lemma FallingPlus(at: seq<int>, stack: int, size: nat, i: nat, a: int)
    requires Falling(at, stack, size) && i <= |at| && stack <= a < stack + size
    requires (i > 0 ==> at[i - 1] > a) && (i < |at| ==> at[i] < a)
    ensures Falling(at[..i] + [a] + at[i..], stack, size)
  {
    var r := at[..i] + [a] + at[i..];
    assert forall j | 0 <= j < |r| :: r[j] == if j < i then at[j] else if j == i then a else at[j - 1];
  }

  class LuaState<T> {
    /** The stack: its slots have the addresses from stack on. */
    var slots: array<T>

    var stack: int
    var top: int
    var base: int
    var ci: seq<CallInfo>
    var openupval: UpVal?<T>
    const uvhead: UpVal<T>
    /** The open upvalues in list order with their addresses, and those of all threads in ring order. */
    ghost var open: seq<UpVal<T>>

    ghost var at: seq<int>
    ghost var ring: seq<UpVal<T>>
    /** The open upvalues of the other threads. */
    ghost var others: set<UpVal<T>>

    /** The upvalues that closures of this thread hold, in order of creation. */
    var known: seq<UpVal<T>>

    ghost predicate NextOk(i: int)
      reads this`open, open`next
      requires 0 <= i < |open|
    {
      open[i].next == if i + 1 < |open| then open[i + 1] else null
    }

    ghost predicate ListOk()
      reads this`openupval, this`open, open`next
    {
      openupval == (if open == [] then null else open[0]) && forall i | 0 <= i < |open| :: NextOk(i)
    }

    ghost predicate OpenAt(i: nat)
      reads this`open, this`at, open`v
      requires i < |open| == |at|
    {
      open[i].v == StackSlot(at[i])
    }

    /** Strictly descending addresses inside the stack: at most one upvalue for a slot. */
    ghost predicate Descending()
      reads this`open, this`at, this`stack, this`slots, open`v
    {
      |at| == |open| && Falling(at, stack, slots.Length) && forall i | 0 <= i < |open| :: OpenAt(i)
    }

    /** An upvalue is only once in the list. */
    lemma Distinct()
      requires Descending()
      ensures forall i, j | 0 <= i < j < |open| :: open[i] != open[j]
    {
      forall i, j | 0 <= i < j < |open|
        ensures open[i] != open[j]
      {
        assert OpenAt(i) && OpenAt(j);
      }
    }

    ghost function RingAt(i: int): UpVal<T>
      reads this`ring
    {
      if 0 <= i < |ring| then ring[i] else uvhead
    }

    ghost predicate LinkOk(i: int)
      reads this`ring, ring`u
      requires 0 <= i < |ring|
    {
      ring[i].u == Links(RingAt(i - 1), RingAt(i + 1))
    }

    ghost predicate RingOk()
      reads this`ring, ring`u, uvhead`u
    {
      && uvhead !in ring && (forall i, j | 0 <= i < j < |ring| :: ring[i] != ring[j])
      && uvhead.u == Links(RingAt(|ring| - 1), RingAt(0))
      && forall i | 0 <= i < |ring| :: LinkOk(i)
    }

    static ghost predicate Joined(open: seq<UpVal<T>>, others: set<UpVal<T>>, ring: seq<UpVal<T>>) {
      && (forall x | x in open :: x in ring && x !in others)
      && (forall x | x in others :: x in ring)
      && (forall x | x in ring :: x in open || x in others)
    }

    /** The ring holds exactly the open upvalues of all the threads. */
    ghost predicate Members()
      reads this`open, this`ring, this`others
    {
      Joined(open, others, ring)
    }

    /** One upvalue more, or one less, in the list and in the ring. */
    static lemma JoinedPlus(open: seq<UpVal<T>>, others: set<UpVal<T>>, ring: seq<UpVal<T>>, i: nat, uv: UpVal<T>)
      requires Joined(open, others, ring) && uv !in others && i <= |open|
      ensures Joined(open[..i] + [uv] + open[i..], others, [uv] + ring)
    {
      assert forall x | x in open :: x in open[..i] || x in open[i..];
    }

    static lemma JoinedMinus(open: seq<UpVal<T>>, others: set<UpVal<T>>, ring: seq<UpVal<T>>, k: nat)
      requires Joined(open, others, ring) && open != [] && k < |ring| && ring[k] == open[0]
      requires (forall i | 0 < i < |open| :: open[i] != open[0])
      requires (forall i, j | 0 <= i < j < |ring| :: ring[i] != ring[j])
      ensures Joined(open[1..], others, ring[..k] + ring[k + 1..])
    {
      assert forall x | x in ring && x != ring[k] :: x in ring[..k] || x in ring[k + 1..];
      assert forall x | x in open && x != open[0] :: x in open[1..];
    }

    ghost predicate Valid()
      reads this, open, ring, uvhead
    {
      ListOk() && Descending() && RingOk() && Members()
    }

    static ghost predicate Took(uv: UpVal<T>, value: T)
      reads uv`u, uv`v
    {
      uv.v == Own && uv.u == Holds(value)
    }

    /** Every upvalue a closure can hold is open or has its own value. */
    ghost predicate KnownOk()
      reads this`open, this`ring, this`known, known`u, known`v
    {
      && (forall i, j | 0 <= i < j < |known| :: known[i] != known[j])
      && (forall x | x in open :: x in known) && uvhead !in known
      && (forall x | x in known && x !in open :: x !in ring && x.v == Own && x.u.Holds?)
    }

    ghost predicate CellIs(k: nat, c: Cell<T>)
      reads this`stack, this`known, known`u, known`v
      requires k < |known|
    {
      match c
      case Shared(i) => known[k].v == StackSlot(stack + i)
      case Private(x) => Took(known[k], x)
    }

    /** How the scopes of the program look: its locals, and what each upvalue stands for. */
    ghost predicate Shows(s: Scopes<T>)
      reads this`slots, this`stack, this`known, slots, known`u, known`v
    {
      s.locals == slots[..] && |s.cells| == |known| && forall k | 0 <= k < |known| :: CellIs(k, s.cells[k])
    }

    constructor (slots: array<T>, stack: int)
      ensures Valid() && KnownOk() && open == known == [] && others == {} && this.slots == slots && this.stack == stack
      ensures Shows(Scopes(slots[..], []))
    {
      this.slots, this.stack, top, base, ci, openupval := slots, stack, stack, stack, [], null;
      uvhead := new UpVal.Head();
      open, at, ring, others, known := [], [], [], {}, [];
    }

    /** Where a level belongs among falling addresses. */
    static ghost predicate Place(at: seq<int>, level: int, i: nat) {
      i <= |at| && (forall j | 0 <= j < i :: at[j] > level) && forall j | i <= j < |at| :: at[j] < level
    }

    /** The walk of luaF_findupval along the open list: to the upvalue of the slot, or to its place. */
    method Search(level: int) returns (found: bool, p: UpVal?<T>, pp: UpVal?<T>, ghost i: nat)
      requires ListOk() && Descending()
      ensures i <= |open| && p == (if i < |open| then open[i] else null) && pp == (if i > 0 then open[i - 1] else null)
      ensures found ==> i < |open| && at[i] == level
      ensures !found ==> Place(at, level, i)
    {
      pp, p, i := null, openupval, 0;
      assert p != null ==> OpenAt(0);
      while p != null && p.v.a >= level
        invariant 0 <= i <= |open| && p == (if i < |open| then open[i] else null)
        invariant pp == (if i > 0 then open[i - 1] else null)
        invariant i < |open| ==> OpenAt(i)
        invariant forall j | 0 <= j < i :: at[j] > level
        decreases |open| - i
      {
        if p.v.a == level {
          return true, p, pp, i;
        }
        assert NextOk(i) && (i + 1 < |open| ==> OpenAt(i + 1));
        pp, p := p, p.next;
        i := i + 1;
      }
      found := false;
    }

    /** The first of the ring, or its head. */
    function RingFirst(): UpVal<T>
      requires RingOk()
      reads this`ring, ring`u, uvhead`u
    {
      uvhead.u.next
    }

    /** An upvalue belongs in the open list at position i, after pp. */
    ghost predicate Fits(uv: UpVal<T>, pp: UpVal?<T>, i: nat)
      reads this`open, this`at, this`stack, this`slots, uv`v, uv`next
    {
      && i <= |open| == |at| && pp == (if i > 0 then open[i - 1] else null)
      && uv.next == (if i < |open| then open[i] else null)
      && uv.v.StackSlot? && stack <= uv.v.a < stack + slots.Length && Place(at, uv.v.a, i)
    }

    /** Chaining a new upvalue into the open list after pp, at position i. */
    method InsertOpen(uv: UpVal<T>, pp: UpVal?<T>, ghost i: nat)
      requires ListOk() && Descending() && uv !in open && Fits(uv, pp, i)
      modifies this`openupval, this`open, this`at, open`next
      ensures ListOk() && Descending() && open == old(open[..i]) + [uv] + old(open[i..])
      ensures at == old(at[..i]) + [uv.v.a] + old(at[i..])
    {
      Distinct();
      FallingPlus(at, stack, slots.Length, i, uv.v.a);
      hide Falling;
      ghost var o, a := open, at;
      if pp == null {
        openupval := uv;
      } else {
        assert NextOk(i - 1);
        pp.next := uv;
      }
      open, at := o[..i] + [uv] + o[i..], a[..i] + [uv.v.a] + a[i..];
      forall j | 0 <= j < |open|
        ensures NextOk(j) && OpenAt(j)
      {
        if j != i {
          ghost var k := if j < i then j else j - 1;
          assert old(NextOk(k)) && old(OpenAt(k)) && open[j] == o[k] && at[j] == a[k];
        }
      }
    }

    /** Double linking a new upvalue at the head of the ring. */
    method InsertRing(uv: UpVal<T>)
      requires RingOk() && uv !in ring && uv != uvhead && uv.u == Links(uvhead, uvhead.u.next)
      modifies this`ring, uvhead`u, ring`u
      ensures RingOk() && ring == [uv] + old(ring)
    {
      ghost var r := ring;
      var first := uvhead.u.next;
      assert first == RingAt(0) && (r != [] ==> LinkOk(0));
      first.u := Links(uv, first.u.next);
      uvhead.u := Links(uvhead.u.prev, uv);
      ring := [uv] + r;
      forall j | 0 <= j < |ring|
        ensures LinkOk(j)
      {
        if j > 0 {
          assert old(LinkOk(j - 1)) && ring[j] == r[j - 1];
        }
      }
    }

    method AddUpval(uv: UpVal<T>, pp: UpVal?<T>, ghost i: nat)
      requires Valid() && uv !in open && uv !in ring && uv !in others && uv != uvhead && Fits(uv, pp, i)
      requires uv.u == Links(uvhead, RingFirst())
      modifies this`openupval, this`open, this`at, this`ring, open`next, uvhead`u, ring`u
      ensures Valid() && open == old(open[..i]) + [uv] + old(open[i..]) && ring == [uv] + old(ring)
      ensures at == old(at[..i]) + [uv.v.a] + old(at[i..])
    {
      hide ListOk, Descending, Joined;
      JoinedPlus(open, others, ring, i, uv);
      InsertOpen(uv, pp, i);
      InsertRing(uv);
    }

    /** luaF_findupval: the one upvalue of a slot, new if there is none. */
    method FindUpval(level: int) returns (uv: UpVal<T>, ghost i: nat)
      requires Valid() && stack <= level < stack + slots.Length
      modifies this`openupval, this`open, this`at, this`ring, open`next, uvhead`u, ring`u
      ensures Valid() && i < |open| && i <= |old(open)| == |old(at)| && uv == open[i] && at[i] == level
              && uv.v == StackSlot(level)
      ensures level in old(at) ==> open == old(open) && at == old(at) && ring == old(ring)
      ensures level !in old(at) ==> fresh(uv) && open == old(open[..i]) + [uv] + old(open[i..])
                                    && ring == [uv] + old(ring)
      ensures level !in old(at) ==> at == old(at[..i]) + [level] + old(at[i..])
    {
      hide RingOk, Joined;
      var found, p, pp;
      found, p, pp, i := Search(level);
      if found {
        assert OpenAt(i);
        return p, i;
      }
      uv := new UpVal(StackSlot(level), Links(uvhead, RingFirst()), p);
      AddUpval(uv, pp, i);
    }

    // ---- Closing ----

    /** An upvalue that was closed: off the list and the ring, with its value. */
    ghost predicate Left(uv: UpVal<T>, value: T)
      reads this`open, this`ring, uv`u, uv`v
    {
      uv !in open && uv !in ring && Took(uv, value)
    }

    /** The first open upvalue leaves the open list. */
    method PopOpen() returns (uv: UpVal<T>)
      requires ListOk() && Descending() && open != []
      modifies this`openupval, this`open, this`at
      ensures ListOk() && Descending() && open == old(open[1..]) && at == old(at[1..])
      ensures uv !in open && uv == old(open[0]) && uv.v == StackSlot(old(at[0]))
    {
      ghost var o, a := open, at;
      uv := openupval;
      assert NextOk(0) && OpenAt(0);
      openupval := uv.next;
      open, at := open[1..], at[1..];
      forall i | 0 <= i < |open|
        ensures NextOk(i) && OpenAt(i) && open[i] != uv
      {
        assert old(NextOk(i + 1)) && old(OpenAt(i + 1)) && open[i] == o[i + 1] && a[0] > a[i + 1];
      }
    }

    /** The value replaces the links of an upvalue that is out of the ring. */
    method CloseUpval(uv: UpVal<T>, value: T)
      requires RingOk() && uv !in ring && uv != uvhead
      modifies uv`u, uv`v
      ensures RingOk() && uv.v == Own && uv.u == Holds(value)
    {
      uv.u := Holds(value);
      uv.v := Own;
      forall j | 0 <= j < |ring|
        ensures LinkOk(j)
      {
        assert old(LinkOk(j)) && ring[j] in ring;
      }
    }

    /** unlinkupval: take an upvalue out of the ring. */
    method UnlinkUpval(uv: UpVal<T>, ghost k: nat)
      requires RingOk() && k < |ring| && ring[k] == uv
      modifies this`ring, uvhead`u, ring`u
      ensures RingOk() && ring == old(ring[..k]) + old(ring[k + 1..]) && uv !in ring && uv != uvhead
      ensures forall i | 0 <= i < |ring| :: ring[i] in old(ring)
    {
      ghost var r := ring;
      assert LinkOk(k) && (k > 0 ==> LinkOk(k - 1)) && (k + 1 < |r| ==> LinkOk(k + 1));
      var after, before := uv.u.next, uv.u.prev;
      assert after == RingAt(k + 1) && before == RingAt(k - 1);
      after.u := Links(uv.u.prev, after.u.next);
      before.u := Links(before.u.prev, uv.u.next);
      ring := r[..k] + r[k + 1..];
      forall j | 0 <= j < |ring|
        ensures LinkOk(j)
      {
        assert ring[j] == r[if j < k then j else j + 1];
        assert old(LinkOk(if j < k then j else j + 1));
      }
    }

    /** One turn of the loop of luaF_close: the topmost open upvalue takes its value along. */
    method CloseFirst()
      requires Valid() && open != [] && stack <= at[0] < stack + slots.Length
      modifies this`openupval, this`open, this`at, this`ring, uvhead`u, ring`u, open`v
      ensures Valid() && open == old(open[1..]) && at == old(at[1..])
      ensures Left(old(open[0]), slots[old(at[0]) - stack])
      ensures forall i | 0 <= i < |ring| :: ring[i] in old(ring)
    {
      Distinct();
      assert open[0] in open && open[0] in ring;
      ghost var k :| 0 <= k < |ring| && ring[k] == open[0];
      JoinedMinus(open, others, ring, k);
      hide ListOk, Descending, RingOk, Joined;
      var uv := PopOpen();
      UnlinkUpval(uv, k);
      CloseUpval(uv, slots[uv.v.a - stack]);
    }

    /** The first n of the open upvalues o at the addresses a are closed, the others still open. */
    ghost predicate Closing(o: seq<UpVal<T>>, a: seq<int>, n: nat)
      reads this`open, this`at, this`ring, this`slots, this`stack, slots, o
      requires |o| == |a| && Falling(a, stack, slots.Length)
    {
      n <= |o| && open == o[n..] && at == a[n..] && forall j | 0 <= j < n :: Left(o[j], slots[a[j] - stack])
    }

    ghost predicate FirstOk()
      reads this`openupval, this`open, this`at, open`v
    {
      |open| == |at|
      && (if open == [] then openupval == null else openupval == open[0] && open[0].v == StackSlot(at[0]))
    }

    lemma First()
      requires ListOk() && Descending()
      ensures FirstOk() && Falling(at, stack, slots.Length)
    {
      assert open != [] ==> OpenAt(0);
    }

    method CloseNext(ghost o: seq<UpVal<T>>, ghost a: seq<int>, ghost n: nat)
      requires Valid() && openupval != null && FirstOk()
      requires |o| == |a| && Falling(a, stack, slots.Length) && Closing(o, a, n)
      modifies this`openupval, this`open, this`at, this`ring, uvhead`u, ring`u, open`v
      ensures Valid() && FirstOk() && Closing(o, a, n + 1)
      ensures |open| < |old(open)| && old(at[0]) == a[n]
      ensures forall i | 0 <= i < |ring| :: ring[i] in old(ring)
      ensures forall i | 0 <= i < |open| :: open[i] in old(open)
    {
      ghost var r, was := ring, open;
      assert uvhead.u.Links?;
      hide ListOk, RingOk, Joined, Descending;
      CloseFirst();
      assert forall x | x in ring :: x in r;
      assert forall x | x in open :: x in was;
      First();
    }

    /** Where the loop of luaF_close stops. */
    lemma Stopped(o: seq<UpVal<T>>, a: seq<int>, n: nat, level: int)
      requires FirstOk() && |o| == |a| && Falling(a, stack, slots.Length) && Closing(o, a, n)
      requires (open != [] ==> at[0] < level) && (n > 0 ==> a[n - 1] >= level)
      ensures forall j | 0 <= j < |a| :: j < n <==> a[j] >= level
    {
    }

    /** luaF_close: exactly the open upvalues at or above the level take their values along. */
    method Close(level: int) returns (ghost n: nat)
      requires Valid()
      modifies this`openupval, this`open, this`at, this`ring, uvhead`u, ring`u, open`v
      ensures Valid() && Closing(old(open), old(at), n)
      ensures forall j | 0 <= j < |old(at)| :: j < n <==> old(at)[j] >= level
      ensures forall i | 0 <= i < |ring| :: ring[i] in old(ring)
    {
      hide Descending, Falling, Joined, Left, ListOk, Members, RingOk;
      First();
      ghost var o, a := open, at;
      n := 0;
      while openupval != null && openupval.v.a >= level
        invariant Valid() && Closing(o, a, n) && FirstOk()
        invariant forall i | 0 <= i < |ring| :: ring[i] in old(ring)
        invariant forall i | 0 <= i < |open| :: open[i] in old(open)
        invariant n > 0 ==> a[n - 1] >= level
        decreases |open|
      {
        CloseNext(o, a, n);
        n := n + 1;
      }
      Stopped(o, a, n, level);
    }

    // ---- Reading and writing ----

    ghost predicate Cells(s: Scopes<T>)
      reads this`known
    {
      InScope(s) && OneEach(s) && |s.cells| == |known|
    }

    /** Where the value of an upvalue is. */
    lemma Positioned(uv: UpVal<T>)
      requires Descending() && KnownOk() && uv in known
      ensures uv.v.StackSlot? <==> uv in open
      ensures if uv.v.StackSlot? then uv.v.a in at && stack <= uv.v.a < stack + slots.Length
              else uv.u.Holds? && uv !in ring
    {
      if uv in open {
        ghost var i :| 0 <= i < |open| && open[i] == uv;
        assert OpenAt(i);
      }
    }

    /** OP_GETUPVAL. */
    method GetUpval(uv: UpVal<T>, ghost s: Scopes<T>, ghost k: nat) returns (x: T)
      requires Valid() && KnownOk() && Shows(s) && k < |known| && known[k] == uv && Cells(s)
      ensures x == Reads(s, k)
    {
      Positioned(uv);
      assert CellIs(k, s.cells[k]);
      if uv.v.Own? {
        x := uv.u.value;
      } else {
        x := slots[uv.v.a - stack];
      }
    }

    /** Two upvalues at one address are one. */
    lemma OneAt(x: UpVal<T>, y: UpVal<T>)
      requires Descending() && x in open && y in open && x.v == y.v
      ensures x == y
    {
      ghost var i :| 0 <= i < |open| && open[i] == x;
      ghost var j :| 0 <= j < |open| && open[j] == y;
      assert OpenAt(i) && OpenAt(j);
    }

    /** The scopes shown are well formed, with at most one upvalue for a variable. */
    lemma ShownOk(s: Scopes<T>)
      requires Descending() && KnownOk() && Shows(s)
      ensures Cells(s)
    {
      forall k | 0 <= k < |s.cells| && s.cells[k].Shared?
        ensures s.cells[k].slot < |s.locals|
      {
        assert CellIs(k, s.cells[k]);
        Positioned(known[k]);
      }
      forall j, k | 0 <= j < k < |s.cells| && s.cells[j].Shared?
        ensures s.cells[j] != s.cells[k]
      {
        assert CellIs(j, s.cells[j]) && CellIs(k, s.cells[k]);
        Positioned(known[j]);
        Positioned(known[k]);
        if s.cells[j] == s.cells[k] {
          OneAt(known[j], known[k]);
        }
      }
    }

    /** A variable has an upvalue exactly if its address is on the open list. */
    lemma SharedAt(s: Scopes<T>, i: nat)
      requires Descending() && KnownOk() && Shows(s)
      ensures Shared(i) in s.cells <==> stack + i in at
    {
      if Shared(i) in s.cells {
        ghost var k :| 0 <= k < |s.cells| && s.cells[k] == Shared(i);
        assert CellIs(k, s.cells[k]);
        Positioned(known[k]);
      }
      if stack + i in at {
        ghost var j :| 0 <= j < |at| && at[j] == stack + i;
        assert OpenAt(j) && open[j] in open;
        ghost var k :| 0 <= k < |known| && known[k] == open[j];
        assert CellIs(k, s.cells[k]);
      }
    }

    method SetOwn(uv: UpVal<T>, x: T)
      requires Valid() && KnownOk() && uv in known && uv.v.Own? && uv !in ring && uv !in open
      modifies uv`u
      ensures Valid() && KnownOk() && uv.u == Holds(x)
    {
      uv.u := Holds(x);
      forall j | 0 <= j < |ring|
        ensures LinkOk(j)
      {
        assert old(LinkOk(j)) && ring[j] in ring;
      }
    }

    /** OP_SETUPVAL. */
    method SetUpval(uv: UpVal<T>, x: T, ghost s: Scopes<T>, ghost k: nat)
      requires Valid() && KnownOk() && Shows(s) && k < |known| && known[k] == uv && Cells(s)
      modifies slots, uv`u
      ensures Valid() && KnownOk() && Shows(Next(s, SetUp(k, x)))
    {
      Positioned(uv);
      assert CellIs(k, s.cells[k]);
      if uv.v.Own? {
        SetOwn(uv, x);
      } else {
        slots[uv.v.a - stack] := x;
      }
      ghost var t := Next(s, SetUp(k, x));
      forall j | 0 <= j < |known|
        ensures CellIs(j, t.cells[j])
      {
        assert old(CellIs(j, s.cells[j]));
      }
    }

    /** A function writing one of its own locals. */
    method StoreLocal(i: nat, x: T, ghost s: Scopes<T>)
      requires Valid() && KnownOk() && Shows(s) && Cells(s) && i < slots.Length
      modifies slots
      ensures Valid() && KnownOk() && Shows(Next(s, SetLocal(i, x)))
    {
      slots[i] := x;
      forall j | 0 <= j < |known|
        ensures CellIs(j, s.cells[j])
      {
        assert old(CellIs(j, s.cells[j]));
      }
    }

    // ---- Relocation ----

    function Moved(c: CallInfo, from: int, to: int): CallInfo {
      CallInfo(c.top - from + to, c.base - from + to, c.func - from + to)
    }

    /** The loop of correctstack over the open list. */
    method MoveOpen(oldstack: int)
      requires ListOk() && |at| == |open| && forall i | 0 <= i < |open| :: OpenAt(i)
      requires forall i, j | 0 <= i < j < |at| :: at[i] > at[j]
      modifies open`v, this`at
      ensures ListOk() && |at| == |open| && forall i | 0 <= i < |open| ::
                OpenAt(i) && at[i] == old(at[i]) - oldstack + stack
    {
      forall i, j | 0 <= i < j < |open|
        ensures open[i] != open[j]
      {
        assert OpenAt(i) && OpenAt(j);
      }
      var up := openupval;
      ghost var i := 0;
      while up != null
        invariant i <= |open| == |at| && up == (if i < |open| then open[i] else null)
        invariant forall j | 0 <= j < |open| :: OpenAt(j)
        invariant forall j | 0 <= j < |at| :: at[j] == if j < i then old(at[j]) - oldstack + stack else old(at[j])
        decreases |open| - i
      {
        assert OpenAt(i) && NextOk(i);
        label step:
        up.v := StackSlot(up.v.a - oldstack + stack);
        at := at[i := at[i] - oldstack + stack];
        forall j | 0 <= j < |open|
          ensures OpenAt(j)
        {
          assert old@step(OpenAt(j)) && (j != i ==> open[j] != open[i]);
        }
        up := up.next;
        i := i + 1;
      }
    }

    /** The loop of correctstack over the calls. */
    method MoveCalls(oldstack: int)
      modifies this`ci
      ensures |ci| == |old(ci)| && forall j | 0 <= j < |ci| :: ci[j] == Moved(old(ci)[j], oldstack, stack)
    {
      var i := 0;
      while i < |ci|
        invariant i <= |ci| == |old(ci)|
        invariant forall j | 0 <= j < |ci| :: ci[j] == if j < i then Moved(old(ci)[j], oldstack, stack) else old(ci)[j]
      {
        ci := ci[i := Moved(ci[i], oldstack, stack)];
        i := i + 1;
      }
    }

    /** luaD_reallocstack with correctstack: the slots move to another place, and every pointer follows. */
    method ReallocStack(newsize: nat, place: int, fill: T)
      requires Valid() && forall j | 0 <= j < |at| :: at[j] < stack + newsize + 1 + EXTRA_STACK
      modifies this`slots, this`stack, this`top, this`base, this`ci, this`at, open`v
      ensures Valid() && fresh(slots) && stack == place
              && slots[..] == Resized(old(slots[..]), newsize + 1 + EXTRA_STACK, fill)
      ensures |at| == |old(at)| && forall j | 0 <= j < |at| :: at[j] - stack == old(at[j] - stack)
      ensures top - stack == old(top - stack) && base - stack == old(base - stack)
      ensures |ci| == |old(ci)| && forall i | 0 <= i < |ci| :: ci[i] == Moved(old(ci)[i], old(stack), stack)
    {
      hide Joined, ListOk, RingOk;
      var oldstack, was := stack, slots[..];
      var realsize := newsize + 1 + EXTRA_STACK;
      slots := new T[realsize](i requires 0 <= i => if i < |was| then was[i] else fill);
      assert slots[..] == Resized(was, realsize, fill);
      stack := place;
      top := top - oldstack + stack;
      MoveOpen(oldstack);
      assert RingOk() && Descending();
      MoveCalls(oldstack);
      base := base - oldstack + stack;
    }

    // ---- Runs ----

    /** What is known of upvalue k: it is open at its address, or it holds its value outside the ring. */
    ghost predicate Placed(k: nat, c: Cell<T>)
      reads this`open, this`at, this`ring, this`stack, this`known, known`u, known`v
      requires k < |known|
    {
      && CellIs(k, c)
      && (c.Shared? ==> |open| == |at| && exists p :: 0 <= p < |open| && open[p] == known[k] && at[p] == stack + c.slot)
      && (c.Private? ==> known[k] !in open && known[k] !in ring && known[k] != uvhead)
    }

    lemma AllPlaced(s: Scopes<T>)
      requires Descending() && KnownOk() && Shows(s)
      ensures forall k | 0 <= k < |known| :: Placed(k, s.cells[k])
    {
      forall k | 0 <= k < |known|
        ensures Placed(k, s.cells[k])
      {
        assert CellIs(k, s.cells[k]);
        Positioned(known[k]);
        if s.cells[k].Shared? {
          ghost var p :| 0 <= p < |open| && open[p] == known[k];
          assert OpenAt(p);
        }
      }
    }

    lemma KnownMore(was: seq<UpVal<T>>, uv: UpVal<T>, p: nat)
      requires p <= |was| && open == was[..p] + [uv] + was[p..]
      ensures forall x | x in open :: x == uv || x in was
      ensures forall x | x in was :: x in open
    {
    }

    ghost function Upvals(): set<UpVal<T>>
      reads this`open, this`ring, this`known
    {
      (set x | x in open) + (set x | x in ring) + (set x | x in known)
    }

    /** luaF_findupval for a local captured by a closure. */
    method Capture(i: nat, ghost s: Scopes<T>) returns (uv: UpVal<T>)
      requires Valid() && KnownOk() && Shows(s) && Cells(s) && i < slots.Length
      modifies this`openupval, this`open, this`at, this`ring, this`known, open`next, uvhead`u, ring`u
      ensures Valid() && KnownOk() && Shows(Next(s, Find(i)))
      ensures uv in known && uv.v == StackSlot(stack + i) && fresh(Upvals() - old(Upvals()))
    {
      hide Members, Resized, RingOk;
      SharedAt(s, i);
      AllPlaced(s);
      hide ListOk, Descending, RingOk, Joined;
      ghost var was := open;
      ghost var p;
      uv, p := FindUpval(stack + i);
      assert uv in open;
      forall k | 0 <= k < |known|
        ensures CellIs(k, s.cells[k])
      {
        assert old(Placed(k, s.cells[k]));
      }
      if uv !in known {
        KnownMore(was, uv, p);
        known := known + [uv];
      }
    }

    /** What luaF_close makes of an open upvalue. */
    ghost predicate Ended(uv: UpVal<T>, a: int, level: int)
      reads this`open, this`ring, this`stack, this`slots, slots, uv`u, uv`v
      requires stack <= a < stack + slots.Length
    {
      if a >= level then Left(uv, slots[a - stack]) else uv in open && uv.v == StackSlot(a)
    }

    method CloseTo(level: int)
      requires Valid()
      modifies this`openupval, this`open, this`at, this`ring, uvhead`u, ring`u, open`v
      ensures Valid() && (forall x | x in open :: x in old(open)) && (forall x | x in ring :: x in old(ring))
      ensures forall p | 0 <= p < |old(open)| == |old(at)| :: Ended(old(open)[p], old(at)[p], level)
    {
      ghost var o, a := open, at;
      ghost var n := Close(level);
      hide ListOk, RingOk, Joined;
      forall p | 0 <= p < |o|
        ensures Ended(o[p], a[p], level)
      {
        if p >= n {
          assert OpenAt(p - n) && open[p - n] == o[p];
        }
      }
    }

    /** luaF_close at the end of a scope. */
    method CloseScope(i: nat, ghost s: Scopes<T>)
      requires Valid() && KnownOk() && Shows(s) && Cells(s)
      modifies this`openupval, this`open, this`at, this`ring, uvhead`u, ring`u, open`v
      ensures Valid() && KnownOk() && Shows(Next(s, Exit(i))) && Upvals() <= old(Upvals())
    {
      hide Descending;
      ghost var o, a := open, at;
      AllPlaced(s);
      hide ListOk, Descending, RingOk, Joined;
      CloseTo(stack + i);
      ghost var t := Next(s, Exit(i));
      forall k | 0 <= k < |known|
        ensures CellIs(k, t.cells[k]) && (known[k] !in open ==> known[k] !in ring && t.cells[k].Private?)
      {
        assert old(Placed(k, s.cells[k]));
        if s.cells[k].Shared? {
          ghost var p :| 0 <= p < |o| && o[p] == known[k] && a[p] == stack + s.cells[k].slot;
          assert Ended(o[p], a[p], stack + i);
        }
      }
    }

    /** Realloc of the stack under running functions. */
    method Relocate(newsize: nat, place: int, fill: T, ghost s: Scopes<T>)
      requires Valid() && KnownOk() && Shows(s) && Cells(s) && Allowed(s, Realloc(newsize, place, fill))
      modifies this`slots, this`stack, this`top, this`base, this`ci, this`at, open`v
      ensures Valid() && KnownOk() && Shows(Next(s, Realloc(newsize, place, fill))) && fresh(slots)
    {
      AllPlaced(s);
      forall j | 0 <= j < |at|
        ensures at[j] < stack + newsize + 1 + EXTRA_STACK
      {
        SharedAt(s, at[j] - stack);
      }
      hide ListOk, RingOk, Joined;
      ReallocStack(newsize, place, fill);
      forall k | 0 <= k < |known|
        ensures CellIs(k, s.cells[k])
      {
        assert old(Placed(k, s.cells[k]));
        if s.cells[k].Shared? {
          ghost var p :| 0 <= p < |open| && open[p] == known[k] && old(at)[p] == old(stack) + s.cells[k].slot;
          assert OpenAt(p);
        }
      }
    }

    /** The objects of this thread, and the open upvalues of the others. */
    ghost function Footprint(): set<object>
      reads this`slots, this`open, this`ring, this`known
    {
      {this, slots, uvhead} + Upvals()
    }

    method Do(op: Op<T>, ghost s: Scopes<T>)
      requires Valid() && KnownOk() && Shows(s) && Cells(s) && Allowed(s, op)
      modifies Footprint()
      ensures Valid() && KnownOk() && Shows(Next(s, op)) && Cells(Next(s, op))
      ensures fresh(Footprint() - old(Footprint()))
    {
      match op {
        case Find(i) =>
          var uv := Capture(i, s);
        case Exit(i) =>
          CloseScope(i, s);
        case SetUp(k, x) =>
          SetUpval(known[k], x, s, k);
        case SetLocal(i, x) =>
          StoreLocal(i, x, s);
        case Realloc(newsize, place, fill) =>
          Relocate(newsize, place, fill, s);
      }
      ShownOk(Next(s, op));
    }

    /** A whole run: the chained, relocated and closed upvalues always show the scopes of the program. */
    method Run(ops: seq<Op<T>>, ghost s: Scopes<T>)
      requires Valid() && KnownOk() && Shows(s) && Cells(s) && AllAllowed(s, ops)
      modifies Footprint()
      ensures Valid() && KnownOk() && Shows(After(s, ops)) && fresh(Footprint() - old(Footprint()))
    {
      hide Valid;
      ghost var t := s;
      var rest := ops;
      while rest != []
        invariant Valid() && KnownOk() && Shows(t) && Cells(t) && AllAllowed(t, rest) && After(t, rest) == After(s, ops)
        invariant fresh(Footprint() - old(Footprint()))
        decreases |rest|
      {
        Do(rest[0], t);
        t, rest := Next(t, rest[0]), rest[1..];
      }
    }
  }
}
