/** What unfinished expression code means: the abstract code behind an instruction list with patch
    lists threaded through it, and the contract between an expression descriptor and its code. */
module BoolMeaning {
  import opened BoolCode

  function Elems(s: seq<int>): set<int> {
    set x | x in s
  }

  // ---- From instructions to actions ----

  function OperandOf(k: seq<Value>, x: int): Option<Operand> {
    if BITRK <= x then (if x - BITRK < |k| then Some(Lit(k[x - BITRK])) else None)
    else if IsReg(x) then Some(Reg(x))
    else None
  }

  /** Where the jump at p goes: `open` jumps are on a patch list, the jumps in `here` wait for the
      next instruction, any other offset is a real one. */
  function Dest(code: seq<Instr>, open: set<int>, here: set<int>, p: nat): Target
    requires p < |code| && code[p].Jmp?
  {
    if p in open then Open else if p in here then To(|code|) else To(p + 1 + code[p].sbx)
  }

  /** A test with its jump. While the jump is on a list the value to copy has no register yet. */
  function BranchOf(k: seq<Value>, i: Instr, pending: bool, t: Target): Action
    requires IsTest(i)
  {
    match i
    case Test2(cmp, cond, b, c) =>
      var x, y := OperandOf(k, b), OperandOf(k, c);
      if x.None? || y.None? then Broken else Branch(Cmp(cmp, cond, x.value, y.value), -1, t)
    case Test(a, cond) => Branch(Truth(a, cond), -1, t)
    case TestSet(a, b, cond) => Branch(Truth(b, cond), if pending then -1 else if a < 0 then NO_REG else a, t)
  }

  function ActAt(k: seq<Value>, code: seq<Instr>, open: set<int>, here: set<int>, p: nat): Action
    requires p < |code|
  {
    match code[p]
    case Move(a, b) => DoMove(a, b)
    case LoadK(a, bx) => if 0 <= bx < |k| then DoLoad(a, k[bx]) else Broken
    case LoadBool(a, v, skip) => DoBool(a, v, skip)
    case LoadNil(a, b) => DoNil(a, b)
    case OpNot(a, b) => DoNot(a, b)
    case Jmp(_) => if p > 0 && IsTest(code[p - 1]) then JumpWord else DoJump(Dest(code, open, here, p))
    case Return(a, b) => if b == 2 then DoReturn(a) else Broken
    case _ =>
      if p + 1 < |code| && code[p + 1].Jmp? then
        BranchOf(k, code[p], p + 1 in open || p + 1 in here, Dest(code, open, here, p + 1))
      else Broken
  }

  function ActsOf(k: seq<Value>, code: seq<Instr>, open: set<int>, here: set<int>): (a: seq<Action>)
    ensures |a| == |code|
    ensures forall p | 0 <= p < |code| :: a[p] == ActAt(k, code, open, here, p)
  {
    seq(|code|, p requires 0 <= p < |code| => ActAt(k, code, open, here, p))
  }

  /** With no jump pending, the machine on instructions and the machine on actions agree. */
  lemma {:induction false} ExecuteIsRun(w: World, k: seq<Value>, code: seq<Instr>, pc: nat, R: Regs)
    requires pc <= |code|
    requires Run(w, ActsOf(k, code, {}, {}), pc, R) != Stuck
    ensures Execute(w, k, code, pc, R) == Run(w, ActsOf(k, code, {}, {}), pc, R)
    decreases |code| - pc
  {
    var acts := ActsOf(k, code, {}, {});
    if pc >= |code| {
    } else {
      match code[pc]
      case Move(a, b) => ExecuteIsRun(w, k, code, pc + 1, R[a := R[b]]);
      case LoadK(a, bx) => ExecuteIsRun(w, k, code, pc + 1, R[a := k[bx]]);
      case LoadBool(a, v, skip) => ExecuteIsRun(w, k, code, pc + (if skip then 2 else 1), R[a := Bool(v)]);
      case LoadNil(a, b) => ExecuteIsRun(w, k, code, pc + 1, SetNil(R, a, b));
      case OpNot(a, b) => ExecuteIsRun(w, k, code, pc + 1, R[a := Bool(!Truthy(R[b]))]);
      case Jmp(sbx) => ExecuteIsRun(w, k, code, pc + 1 + sbx, R);
      case Return(a, b) =>
      case _ => ExecuteBranch(w, k, code, pc, R);
    }
  }

  lemma {:induction false} ExecuteBranch(w: World, k: seq<Value>, code: seq<Instr>, pc: nat, R: Regs)
    requires pc < |code| && IsTest(code[pc])
    requires Run(w, ActsOf(k, code, {}, {}), pc, R) != Stuck
    ensures Execute(w, k, code, pc, R) == Run(w, ActsOf(k, code, {}, {}), pc, R)
    decreases |code| - pc, 0
  {
    var acts := ActsOf(k, code, {}, {});
    assert acts[pc].Branch?;
    var Branch(c, copy, t) := acts[pc];
    var b := Decide(w, c, R);
    if b.Some? {
      var S := if copy < 0 || !b.value.value then R else R[copy := R[c.r]];
      assert Execute(w, k, code, pc, R) == TakeOrSkip(w, k, code, pc, S, b.value.value);
      ExecuteIsRun(w, k, code, if b.value.value then t.pc else pc + 2, S);
    }
  }

  /** Relinking jumps that are pending anyway changes no action. */
  lemma ActsRelinked(k: seq<Value>, code: seq<Instr>, code': seq<Instr>, open: set<int>, here: set<int>)
    requires |code'| == |code|
    requires forall p | 0 <= p < |code| ::
               code'[p] == code[p] || ((p in open || p in here) && code[p].Jmp? && code'[p].Jmp?)
    ensures ActsOf(k, code', open, here) == ActsOf(k, code, open, here)
  {
    var a, a' := ActsOf(k, code, open, here), ActsOf(k, code', open, here);
    forall p | 0 <= p < |code|
      ensures a'[p] == a[p]
    {
    }
  }

  /** New constants change no action, when the code is already meaningful. */
  lemma ActsMoreConstants(k: seq<Value>, k': seq<Value>, code: seq<Instr>, open: set<int>, here: set<int>)
    requires k <= k'
    requires forall p | 0 <= p < |code| :: !ActAt(k, code, open, here, p).Broken?
    ensures ActsOf(k', code, open, here) == ActsOf(k, code, open, here)
  {
    var a, a' := ActsOf(k, code, open, here), ActsOf(k', code, open, here);
    forall p | 0 <= p < |code|
      ensures a'[p] == a[p]
    {
    }
  }

  predicate IsSimple(i: Instr) {
    !IsTest(i) && !i.Jmp?
  }

  /** Appending an instruction that is neither a test nor a jump appends its action. */
  lemma ActsAppend(k: seq<Value>, code: seq<Instr>, i: Instr, open: set<int>)
    requires IsSimple(i) && forall j | j in open :: j < |code|
    requires |code| > 0 ==> !IsTest(code[|code| - 1])
    ensures ActsOf(k, code + [i], open, {}) == ActsOf(k, code, open, {}) + [ActAt(k, [i], {}, {}, 0)]
  {
    var a, a' := ActsOf(k, code, open, {}), ActsOf(k, code + [i], open, {});
    forall p | 0 <= p < |code|
      ensures a'[p] == a[p]
    {
    }
  }

  // ---- Descriptors ----

  datatype ExpKind = VVOID | VNIL | VTRUE | VFALSE | VK | VKNUM | VLOCAL | VJMP | VRELOCABLE | VNONRELOC

  /** The contents of an expdesc, with the members of its two patch lists. */
  datatype Desc = Desc(kind: ExpKind, info: int, nval: Value, tl: seq<int>, fl: seq<int>)

  /** The value of a descriptor once its code has fallen through with registers R. */
  ghost predicate FallOk(code: seq<Instr>, k: seq<Value>, d: Desc, R: Regs, v: Value) {
    match d.kind
    case VNIL => v == Nil
    case VTRUE => v == Bool(true)
    case VFALSE => v == Bool(false)
    case VK => 0 <= d.info < |k| && v == k[d.info]
    case VKNUM => v == d.nval
    case VLOCAL => IsReg(d.info) && v == R[d.info]
    case VNONRELOC => IsReg(d.info) && v == R[d.info]
    case VJMP => v == Bool(false)
    case VRELOCABLE =>
      0 <= d.info < |code| && code[d.info].OpNot? && IsReg(code[d.info].b) && v == Bool(!Truthy(R[code[d.info].b]))
    case VVOID => false
  }

  /** A jump on a list leaves with a value of known truth: the one its TESTSET is to copy, or else
      exactly the boolean. */
  ghost predicate Carried(code: seq<Instr>, j: int, R: Regs, v: Value, b: bool) {
    && Truthy(v) == b
    && 0 < j < |code|
    && if code[j - 1].TestSet? then IsReg(code[j - 1].b) && v == R[code[j - 1].b] else v == Bool(b)
  }

  ghost predicate ExitOk(code: seq<Instr>, d: Desc, j: int, R: Regs, v: Value) {
    || (d.kind == VJMP && j == d.info && v == Bool(true))
    || (j in d.tl && Carried(code, j, R, v, true))
    || (j in d.fl && Carried(code, j, R, v, false))
  }

  /** Outcome o of the code so far delivers the value sv of an expression started with registers R
      (None: a runtime error), leaving the registers below base alone. */
  ghost predicate Delivers(code: seq<Instr>, k: seq<Value>, d: Desc, sv: Option<Value>, R: Regs, o: Outcome,
                           base: nat) {
    match o
    case Fault => sv.None?
    case Fall(S) => sv.Some? && Agree(R, S, base) && FallOk(code, k, d, S, sv.value)
    case Exit(j, S) => sv.Some? && Agree(R, S, base) && ExitOk(code, d, j, S, sv.value)
    case _ => false
  }

  /** A function is entered with its parameters, and nil in the other registers. */
  predicate Init(R: Regs, nactvar: int) {
    forall i | 0 <= i < MAXSTACK && i >= nactvar :: R[i] == Nil
  }

  /** A relocatable result is not in place yet: its own instruction still lacks a register. */
  function Before(d: Desc, acts: seq<Action>): seq<Action> {
    if d.kind == VRELOCABLE && |acts| > 0 then acts[..|acts| - 1] else acts
  }

  /** The jump at j is one of the pending jumps of the descriptor. */
  predicate Owns(d: Desc, j: int) {
    j in d.tl || j in d.fl || (d.kind == VJMP && j == d.info)
  }

  /** Descriptor d with the code so far is a correct translation of e, begun when the code was pre:
      a run that got through pre delivers the value of e, any other run still ends as it did. */
  ghost predicate Means(nact: int, code: seq<Instr>, k: seq<Value>, acts: seq<Action>, d: Desc, e: Exp,
                        pre: seq<Action>, base: nat) {
    forall w: World, R: Regs | Init(R, nact) ::
      var o0, o := Run(w, pre, 0, R), Run(w, Before(d, acts), 0, R);
      o0 != Stuck &&
      if o0.Fall? then Delivers(code, k, d, Eval(w, e, o0.regs), o0.regs, o, base)
      else o == o0 && (o0.Exit? ==> !Owns(d, o0.at))
  }

  // ---- Patch lists ----

  /** getjump: the member after p of the list threaded through p. */
  function JumpTo(code: seq<Instr>, p: int): int
    requires 0 <= p < |code| && code[p].Jmp?
  {
    if code[p].sbx == NO_JUMP then NO_JUMP else p + 1 + code[p].sbx
  }

  ghost predicate Distinct(L: seq<int>) {
    forall i, j | 0 <= i < j < |L| :: L[i] != L[j]
  }

  /** The jumps L are linked in this order through their offsets, starting from head. */
  ghost predicate IsList(code: seq<Instr>, head: int, L: seq<int>) {
    && Distinct(L)
    && head == (if L == [] then NO_JUMP else L[0])
    && (forall i | 0 <= i < |L| :: 0 <= L[i] < |code| && code[L[i]].Jmp?)
    && (forall i | 0 <= i < |L| :: JumpTo(code, L[i]) == if i + 1 < |L| then L[i + 1] else NO_JUMP)
  }

  lemma ListKept(code: seq<Instr>, code': seq<Instr>, head: int, L: seq<int>)
    requires IsList(code, head, L)
    requires forall j | j in L :: j < |code'| && code'[j] == code[j]
    ensures IsList(code', head, L)
  {
    assert forall i | 0 <= i < |L| :: L[i] in L;
  }

  lemma ListNext(code: seq<Instr>, head: int, L: seq<int>, m: nat)
    requires IsList(code, head, L) && m < |L|
    ensures 0 <= L[m] < |code| && code[L[m]].Jmp? && JumpTo(code, L[m]) == if m + 1 < |L| then L[m + 1] else NO_JUMP
  {
  }

  /** Linking the end of one list to another concatenates them. */
  lemma ListConcat(code: seq<Instr>, l1: int, L1: seq<int>, l2: int, L2: seq<int>)
    requires IsList(code, l1, L1) && IsList(code, l2, L2) && Elems(L1) !! Elems(L2)
    requires L1 != [] && L2 != []
    ensures var last := L1[|L1| - 1];
            IsList(code[last := Jmp(l2 - (last + 1))], l1, L1 + L2)
  {
    var last := L1[|L1| - 1];
    var L := L1 + L2;
    var code' := code[last := Jmp(l2 - (last + 1))];
    assert L2[0] in Elems(L2) && last in Elems(L1);
    forall i, j | 0 <= i < j < |L|
      ensures L[i] != L[j]
    {
      if j < |L1| {
        assert L[i] == L1[i] && L[j] == L1[j];
      } else if i < |L1| {
        assert L1[i] in Elems(L1) && L2[j - |L1|] in Elems(L2);
      } else {
        assert L[i] == L2[i - |L1|] && L[j] == L2[j - |L1|];
      }
    }
    forall i | 0 <= i < |L|
      ensures 0 <= L[i] < |code'| && code'[L[i]].Jmp?
      ensures JumpTo(code', L[i]) == if i + 1 < |L| then L[i + 1] else NO_JUMP
    {
      if i >= |L1| {
        ListNext(code, l2, L2, i - |L1|);
        assert L[i] == L2[i - |L1|] && L[i] in Elems(L2) && L[i] != last;
      } else {
        ListNext(code, l1, L1, i);
        assert L[i] == L1[i];
      }
    }
  }

  /** patchtestreg on the instruction that controls a jump. */
  function PatchControl(i: Instr, reg: int): Instr {
    match i
    case TestSet(a, b, cond) => if reg != NO_REG && reg != b then TestSet(reg, b, cond) else Test(b, cond)
    case _ => i
  }

  function PatchedInstr(code: seq<Instr>, L: set<int>, vt: int, reg: int, dt: int, p: nat): Instr
    requires p < |code|
  {
    if p in L then Jmp((if p > 0 && code[p - 1].TestSet? then vt else dt) - (p + 1))
    else if p + 1 in L then PatchControl(code[p], reg)
    else code[p]
  }

  /** patchlistaux: jumps that carry a value go to vt, after copying it to reg; the others to dt. */
  function PatchedCode(code: seq<Instr>, L: set<int>, vt: int, reg: int, dt: int): (c: seq<Instr>)
    ensures |c| == |code|
  {
    seq(|code|, p requires 0 <= p < |code| => PatchedInstr(code, L, vt, reg, dt, p))
  }

  /** removevalues: the tests of the jumps L copy nothing. */
  function ClearedCode(code: seq<Instr>, L: set<int>): (c: seq<Instr>)
    ensures |c| == |code|
  {
    seq(|code|, p requires 0 <= p < |code| => if p + 1 in L then PatchControl(code[p], NO_REG) else code[p])
  }

  function PatchDest(code: seq<Instr>, L: set<int>, vt: int, dt: int): map<int, int> {
    map j | j in L :: if 0 < j <= |code| && code[j - 1].TestSet? then vt else dt
  }

  /** The members of a list of pending jumps: each is the jump of a test. */
  ghost predicate Controlled(code: seq<Instr>, L: set<int>) {
    forall j | j in L :: 0 < j < |code| && code[j].Jmp? && IsTest(code[j - 1])
  }

  /** Exactly the jumps L lead elsewhere: those that carry a value to vt, with it in reg, the others to dt. */
  ghost predicate Retargeted(a: seq<Action>, a': seq<Action>, code: seq<Instr>, L: set<int>, vt: int, reg: int,
                             dt: int) {
    && |a'| == |a| == |code|
    && forall p | 0 <= p < |a| :: PatchedAt(a[p], a'[p], p, L, PatchDest(code, L, vt, dt), reg)
  }

  /** patchlistaux takes its members off the open jumps and changes no other action. */
  lemma PatchActs(k: seq<Value>, code: seq<Instr>, L: set<int>, vt: int, reg: int, dt: int,
                  open: set<int>, here: set<int>)
    requires L <= open && open !! here && Controlled(code, open)
    requires IsReg(reg)
    ensures Retargeted(ActsOf(k, code, open, here), ActsOf(k, PatchedCode(code, L, vt, reg, dt), open - L, here),
                       code, L, vt, reg, dt)
  {
    var code' := PatchedCode(code, L, vt, reg, dt);
    var a, a' := ActsOf(k, code, open, here), ActsOf(k, code', open - L, here);
    forall p | 0 <= p < |code|
      ensures PatchedAt(a[p], a'[p], p, L, PatchDest(code, L, vt, dt), reg)
    {
      if p in L {
        assert a[p] == JumpWord;
      }
    }
  }

  /** Discharging the jumps that wait for the current position only writes down where they went. */
  lemma DischargeActs(k: seq<Value>, code: seq<Instr>, open: set<int>, here: set<int>)
    requires open !! here
    requires forall j | j in here :: 0 <= j < |code| && code[j].Jmp?
    ensures ActsOf(k, PatchedCode(code, here, |code|, NO_REG, |code|), open, {}) == ActsOf(k, code, open, here)
  {
    var code' := PatchedCode(code, here, |code|, NO_REG, |code|);
    var a, a' := ActsOf(k, code, open, here), ActsOf(k, code', open, {});
    forall p | 0 <= p < |code|
      ensures a'[p] == a[p]
    {
    }
  }

  // ---- Storing a value ----

  function NotOf(b: int): Regs -> Value {
    (S: Regs) => if IsReg(b) then Bool(!Truthy(S[b])) else Nil
  }

  function CopyOf(b: int): Regs -> Value {
    (S: Regs) => if IsReg(b) then S[b] else Nil
  }

  /** Every run of acts1 goes on where that of acts0 falls through by setting reg. */
  ghost predicate Stores(nact: int, acts0: seq<Action>, acts1: seq<Action>, reg: int, f: Regs -> Value)
    requires IsReg(reg)
  {
    forall w: World, R: Regs | Init(R, nact) ::
      var o := Run(w, acts0, 0, R);
      o != Stuck ==> Run(w, acts1, 0, R) == if o.Fall? then Fall(o.regs[reg := f(o.regs)]) else o
  }

  /** The same, for the registers from..to, which are set to nil. */
  ghost predicate StoresNil(nact: int, acts0: seq<Action>, acts1: seq<Action>, from: int, to: int) {
    forall w: World, R: Regs | Init(R, nact) ::
      var o := Run(w, acts0, 0, R);
      o != Stuck ==> Run(w, acts1, 0, R) == if o.Fall? then Fall(SetNil(o.regs, from, to)) else o
  }

  lemma StoresOneNil(nact: int, acts0: seq<Action>, acts1: seq<Action>, reg: int)
    requires IsReg(reg) && StoresNil(nact, acts0, acts1, reg, reg)
    ensures Stores(nact, acts0, acts1, reg, _ => Nil)
  {
    forall S: Regs
      ensures SetNil(S, reg, reg) == S[reg := Nil]
    {
    }
  }

  /** The exits of a descriptor are still its exits when its jumps are kept. */
  ghost predicate Keeps(code: seq<Instr>, code': seq<Instr>, kept: set<int>) {
    forall j | j in kept :: 0 < j < |code| && j < |code'| && code'[j] == code[j] && code'[j - 1] == code[j - 1]
  }

  lemma StoresMeans(nact: int, code: seq<Instr>, k: seq<Value>, acts: seq<Action>, d: Desc, e: Exp,
                    pre: seq<Action>, base: nat, code': seq<Instr>, k': seq<Value>, acts': seq<Action>, reg: int,
                    f: Regs -> Value)
    requires Means(nact, code, k, acts, d, e, pre, base) && d.kind != VJMP
    requires IsReg(reg) && reg >= base && Stores(nact, Before(d, acts), acts', reg, f)
    requires forall S: Regs, v | FallOk(code, k, d, S, v) :: f(S) == v
    requires Keeps(code, code', Elems(d.tl) + Elems(d.fl))
    ensures Means(nact, code', k', acts', d.(kind := VNONRELOC, info := reg), e, pre, base)
  {
    var d' := d.(kind := VNONRELOC, info := reg);
    forall w: World, R: Regs | Init(R, nact)
      ensures var o0, o := Run(w, pre, 0, R), Run(w, Before(d', acts'), 0, R);
              o0 != Stuck && if o0.Fall? then Delivers(code', k', d', Eval(w, e, o0.regs), o0.regs, o, base)
                           else o == o0 && (o0.Exit? ==> !Owns(d', o0.at))
    {
      var o0, o := Run(w, pre, 0, R), Run(w, Before(d, acts), 0, R);
      if o0.Fall? && o.Exit? {
        assert o.at in Elems(d.tl) + Elems(d.fl);
      }
    }
  }

  lemma SameReg(nact: int, acts: seq<Action>, reg: int)
    requires IsReg(reg)
    ensures Stores(nact, acts, acts, reg, CopyOf(reg))
  {
    assert forall R: Regs :: R[reg := R[reg]] == R;
  }

  /** The last action of code does what it does alone. */
  lemma LastAlone(w: World, acts: seq<Action>, a: Action, S: Regs)
    requires !a.Branch? && !a.DoJump? && (a.DoBool? ==> !a.skip)
    ensures Run(w, acts + [a], |acts|, S) == Run(w, [a], 0, S)
  {
    var acts' := acts + [a];
    assert acts'[|acts|] == a;
    assert forall D: Regs :: Run(w, acts', |acts| + 1, D) == Fall(D) && Run(w, [a], 1, D) == Fall(D);
  }

  /** One more action after code that falls through. */
  lemma AppendStores(nact: int, acts: seq<Action>, a: Action, reg: int, f: Regs -> Value)
    requires IsReg(reg)
    requires forall w: World, R: Regs :: Run(w, [a], 0, R) == Fall(R[reg := f(R)])
    requires !a.Branch? && !a.DoJump? && (a.DoBool? ==> !a.skip)
    ensures Stores(nact, acts, acts + [a], reg, f)
  {
    var acts' := acts + [a];
    forall w: World, R: Regs | Init(R, nact)
      ensures var o := Run(w, acts, 0, R);
              o != Stuck ==> Run(w, acts', 0, R) == if o.Fall? then Fall(o.regs[reg := f(o.regs)]) else o
    {
      PatchRun(w, acts, acts', {}, map[], 0, 0, R);
      var o := Run(w, acts, 0, R);
      if o.Fall? {
        LastAlone(w, acts, a, o.regs);
      }
    }
  }

  ghost predicate TargetOk(a: Action, p: int, limit: int) {
    match a
    case DoJump(To(t)) => t <= limit
    case Branch(_, _, To(t)) => t <= limit
    case DoBool(_, _, skip) => skip ==> p + 2 <= limit
    case DoNil(x, y) => IsReg(x) && IsReg(y) && x <= y
    case _ => true
  }

  ghost predicate ActsOk(acts: seq<Action>, lasttarget: int) {
    forall p | 0 <= p < |acts| :: acts[p] != Broken && TargetOk(acts[p], p, lasttarget)
  }

  /** Code whose jumps all stay within acts gets stuck with more actions if it does on its own. */
  lemma {:induction false} StuckAlone(w: World, acts: seq<Action>, more: seq<Action>, pc: nat, R: Regs)
    requires ActsOk(acts, |acts|) && pc <= |acts| && (|more| > 0 ==> !more[0].JumpWord?)
    requires Run(w, acts, pc, R) == Stuck
    ensures Run(w, acts + more, pc, R) == Stuck
    decreases |acts| - pc
  {
    var acts' := acts + more;
    assert pc < |acts| && TargetOk(acts[pc], pc, |acts|) && acts'[pc] == acts[pc];
    match acts[pc]
    case DoMove(x, y) => if IsReg(x) && IsReg(y) { StuckAlone(w, acts, more, pc + 1, R[x := R[y]]); }
    case DoLoad(x, v) => if IsReg(x) { StuckAlone(w, acts, more, pc + 1, R[x := v]); }
    case DoBool(x, v, skip) => if IsReg(x) { StuckAlone(w, acts, more, pc + (if skip then 2 else 1), R[x := Bool(v)]); }
    case DoNil(x, y) => if IsReg(x) && IsReg(y) && x <= y { StuckAlone(w, acts, more, pc + 1, SetNil(R, x, y)); }
    case DoNot(x, y) => if IsReg(x) && IsReg(y) { StuckAlone(w, acts, more, pc + 1, R[x := Bool(!Truthy(R[y]))]); }
    case DoJump(t) => if t.To? && pc < t.pc { StuckAlone(w, acts, more, t.pc, R); }
    case Branch(c, copy, t) =>
      var b := Decide(w, c, R);
      if b.Some? && b.value.Some? && pc + 2 <= |acts| && acts[pc + 1].JumpWord? {
        if !b.value.value {
          StuckAlone(w, acts, more, pc + 2, R);
        } else if t.To? && pc < t.pc && (copy < 0 || (c.Truth? && IsReg(copy))) {
          StuckAlone(w, acts, more, t.pc, if copy < 0 then R else R[copy := R[c.r]]);
        }
      }
    case _ =>
  }

  lemma AppendNil(nact: int, acts: seq<Action>, from: int, to: int)
    requires IsReg(from) && IsReg(to) && from <= to
    ensures StoresNil(nact, acts, acts + [DoNil(from, to)], from, to)
  {
    var a := DoNil(from, to);
    forall w: World, R: Regs | Init(R, nact)
      ensures var o := Run(w, acts, 0, R);
              o != Stuck ==> Run(w, acts + [a], 0, R) == if o.Fall? then Fall(SetNil(o.regs, from, to)) else o
    {
      PatchRun(w, acts, acts + [a], {}, map[], 0, 0, R);
      var o := Run(w, acts, 0, R);
      if o.Fall? {
        LastAlone(w, acts, a, o.regs);
      }
    }
  }

  /** luaK_nil may widen a LOADNIL that no jump skips instead of adding one. */
  lemma NilMerge(nact: int, acts: seq<Action>, x: int, y: int, from: int, to: int)
    requires ActsOk(acts, |acts|) && IsReg(x) && IsReg(y) && x <= y && IsReg(to) && x <= from <= y + 1 && from <= to
    ensures StoresNil(nact, acts + [DoNil(x, y)], acts + [DoNil(x, if to > y then to else y)], from, to)
  {
    var y' := if to > y then to else y;
    var a0, a1 := acts + [DoNil(x, y)], acts + [DoNil(x, y')];
    forall w: World, R: Regs | Init(R, nact)
      ensures var o := Run(w, a0, 0, R);
              o != Stuck ==> Run(w, a1, 0, R) == if o.Fall? then Fall(SetNil(o.regs, from, to)) else o
    {
      PatchRun(w, acts, a0, {}, map[], 0, 0, R);
      PatchRun(w, acts, a1, {}, map[], 0, 0, R);
      var o := Run(w, acts, 0, R);
      if o == Stuck {
        StuckAlone(w, acts, [DoNil(x, y)], 0, R);
      } else if o.Fall? {
        var S, S' := SetNil(o.regs, x, y), SetNil(o.regs, x, y');
        assert S' == SetNil(S, from, to);
        assert Run(w, a0, |acts| + 1, S) == Fall(S) && Run(w, a1, |acts| + 1, S') == Fall(S');
        assert a0[|acts|] == DoNil(x, y) && a1[|acts|] == DoNil(x, y');
      }
    }
  }

  // ---- Well-formed descriptors ----

  /** The lists of a descriptor are pending, and its kind agrees with the code that was emitted. */
  ghost predicate DescOk(code: seq<Instr>, k: seq<Value>, open: set<int>, here: seq<int>, lasttarget: int, nactvar: int,
                         freereg: int, d: Desc, t: int, f: int) {
    && IsList(code, t, d.tl) && IsList(code, f, d.fl)
    && Elems(d.tl) !! Elems(d.fl) && Elems(d.tl) <= open && Elems(d.fl) <= open
    && match d.kind
       case VVOID => false
       case VK => 0 <= d.info < |k|
       case VLOCAL => 0 <= d.info < nactvar
       case VNONRELOC => 0 <= d.info < freereg
       case VJMP =>
         && d.info == |code| - 1 && d.info > 0 && here == [] && lasttarget <= |code| - 2
         && d.info in open && d.info !in d.tl && d.info !in d.fl
         && code[d.info] == Jmp(NO_JUMP) && code[d.info - 1].Test2?
       case VRELOCABLE =>
         && d.info == |code| - 1 && d.info >= 0 && here == [] && lasttarget < |code|
         && code[d.info].OpNot? && IsReg(code[d.info].b)
       case _ => true
  }

  /** The same value under another description. */
  lemma MeansSame(nact: int, code: seq<Instr>, k: seq<Value>, acts: seq<Action>, d: Desc, e: Exp,
                  pre: seq<Action>, base: nat, k': seq<Value>, d': Desc)
    requires Means(nact, code, k, acts, d, e, pre, base)
    requires d'.tl == d.tl && d'.fl == d.fl && d.kind != VJMP && d.kind != VRELOCABLE && d'.kind != VJMP
             && d'.kind != VRELOCABLE
    requires forall S: Regs, v | FallOk(code, k, d, S, v) :: FallOk(code, k', d', S, v)
    ensures Means(nact, code, k', acts, d', e, pre, base)
  {
    forall w: World, R: Regs | Init(R, nact)
      ensures var o0, o := Run(w, pre, 0, R), Run(w, Before(d', acts), 0, R);
              o0 != Stuck && if o0.Fall? then Delivers(code, k', d', Eval(w, e, o0.regs), o0.regs, o, base)
                           else o == o0 && (o0.Exit? ==> !Owns(d', o0.at))
    {
    }
  }

  // ---- The final patch of an expression ----

  /** Where a jump of the expression goes in the end: past its code when its value is copied on the
      way or is in place already, otherwise to the instruction that loads its boolean. */
  ghost function FinalDest(c0: seq<Instr>, F: set<int>, T: set<int>, H: set<int>, pf: int, pt: int,
                           final: int): map<int, int> {
    map j | j in F + T + H ::
      if j in H || (0 < j <= |c0| && c0[j - 1].TestSet?) then final else if j in F then pf else pt
  }

  function BoolTail(reg: int): seq<Instr> {
    [LoadBool(reg, false, true), LoadBool(reg, true, false)]
  }

  /** The code that exp2reg leaves (lcode.c:394-407): c0, perhaps a jump and two loads of booleans,
      and the patched lists. */
  function FinalCode(c0: seq<Instr>, tail: seq<Instr>, F: set<int>, T: set<int>, reg: int, pf: int,
                     pt: int): (c: seq<Instr>)
    ensures |c| == |c0| + |tail|
  {
    var final := |c0| + |tail|;
    PatchedCode(PatchedCode(c0 + tail, F, final, reg, pf), T, final, reg, pt)
  }

  /** Taking the waiting jumps as open gives code that both the old and the final code continue. */
  lemma Reopened(k: seq<Value>, c0: seq<Instr>, open: set<int>, H: set<int>)
    requires open !! H
    ensures Patched(ActsOf(k, c0, open + H, {}), ActsOf(k, c0, open, H), H, map j | j in H :: |c0|, 0)
  {
    var a, a' := ActsOf(k, c0, open + H, {}), ActsOf(k, c0, open, H);
    forall p | 0 <= p < |c0|
      ensures PatchedAt(a[p], a'[p], p, H, map j | j in H :: |c0|, 0)
    {
    }
  }

  /** The shapes of the code that exp2reg adds: nothing, two loads of booleans, or these with a jump
      over them. H and H' are the waiting jumps before and after. */
  ghost predicate TailOk(c0: seq<Instr>, tail: seq<Instr>, H: set<int>, H': set<int>, reg: int, pf: int, pt: int) {
    var n := |c0|;
    || (tail == [] && H' == H)
    || (tail == BoolTail(reg) && H == H' == {} && pf == n && pt == n + 1)
    || (|tail| == 3 && tail[0].Jmp? && tail[1..] == BoolTail(reg) && H' == H + {n} && pf == n + 1 && pt == n + 2)
  }

  /** The instruction at p of the final code. */
  function FinalInstr(c0: seq<Instr>, tail: seq<Instr>, F: set<int>, T: set<int>, reg: int, pf: int, pt: int,
                      p: nat): Instr
    requires p < |c0| + |tail|
  {
    var final := |c0| + |tail|;
    var c := c0 + tail;
    if p in F + T then
      Jmp((if p > 0 && c[p - 1].TestSet? then final else if p in T then pt else pf) - (p + 1))
    else if p + 1 in F + T then PatchControl(c[p], reg)
    else c[p]
  }

  lemma FinalInstrIs(c0: seq<Instr>, tail: seq<Instr>, open: set<int>, F: set<int>, T: set<int>, reg: int, pf: int,
                     pt: int, p: nat)
    requires Controlled(c0, open) && F <= open && T <= open && F !! T && p < |c0| + |tail|
    ensures FinalCode(c0, tail, F, T, reg, pf, pt)[p] == FinalInstr(c0, tail, F, T, reg, pf, pt, p)
  {
    var c := c0 + tail;
    var final := |c|;
    var c1 := PatchedCode(c, F, final, reg, pf);
    if p > 0 {
      assert c1[p - 1].TestSet? ==> c[p - 1].TestSet?;
      assert p !in F && c[p - 1].TestSet? ==> c1[p - 1].TestSet?;
    }
  }

  lemma FinalJump(k: seq<Value>, c0: seq<Instr>, tail: seq<Instr>, open: set<int>, H: set<int>, H': set<int>,
                 F: set<int>, T: set<int>, reg: int, pf: int, pt: int, p: nat)
    requires open !! H && Controlled(c0, open) && F <= open && T <= open && F !! T && IsReg(reg)
    requires forall j | j in H :: 0 <= j < |c0| && c0[j].Jmp?
    requires |c0| > 0 ==> !IsTest(c0[|c0| - 1])
    requires TailOk(c0, tail, H, H', reg, pf, pt) && p < |c0| && c0[p].Jmp?
    ensures var final := |c0| + |tail|;
            PatchedAt(ActAt(k, c0, open + H, {}, p),
                      ActAt(k, FinalCode(c0, tail, F, T, reg, pf, pt), open - F - T, H', p),
                      p, F + T + H, FinalDest(c0, F, T, H, pf, pt, final), reg)
  {
    hide PatchedCode, FinalCode;
    FinalInstrIs(c0, tail, open, F, T, reg, pf, pt, p);
    if p > 0 { FinalInstrIs(c0, tail, open, F, T, reg, pf, pt, p - 1); }
  }

  lemma FinalTestJump(k: seq<Value>, c0: seq<Instr>, tail: seq<Instr>, open: set<int>, H: set<int>, H': set<int>,
                     F: set<int>, T: set<int>, reg: int, pf: int, pt: int, p: nat)
    requires open !! H && Controlled(c0, open) && F <= open && T <= open && F !! T && IsReg(reg)
    requires forall j | j in H :: 0 <= j < |c0| && c0[j].Jmp?
    requires |c0| > 0 ==> !IsTest(c0[|c0| - 1])
    requires TailOk(c0, tail, H, H', reg, pf, pt) && p + 1 < |c0| && IsTest(c0[p]) && p + 1 in F + T
    ensures var final := |c0| + |tail|;
            PatchedAt(ActAt(k, c0, open + H, {}, p),
                      ActAt(k, FinalCode(c0, tail, F, T, reg, pf, pt), open - F - T, H', p),
                      p, F + T + H, FinalDest(c0, F, T, H, pf, pt, final), reg)
  {
    hide PatchedCode, FinalCode;
    FinalInstrIs(c0, tail, open, F, T, reg, pf, pt, p);
    FinalInstrIs(c0, tail, open, F, T, reg, pf, pt, p + 1);
    assert c0[p + 1].Jmp?;
  }

  lemma FinalTest(k: seq<Value>, c0: seq<Instr>, tail: seq<Instr>, open: set<int>, H: set<int>, H': set<int>,
                 F: set<int>, T: set<int>, reg: int, pf: int, pt: int, p: nat)
    requires open !! H && Controlled(c0, open) && F <= open && T <= open && F !! T && IsReg(reg)
    requires forall j | j in H :: 0 <= j < |c0| && c0[j].Jmp?
    requires |c0| > 0 ==> !IsTest(c0[|c0| - 1])
    requires TailOk(c0, tail, H, H', reg, pf, pt) && p < |c0| && IsTest(c0[p])
    ensures var final := |c0| + |tail|;
            PatchedAt(ActAt(k, c0, open + H, {}, p),
                      ActAt(k, FinalCode(c0, tail, F, T, reg, pf, pt), open - F - T, H', p),
                      p, F + T + H, FinalDest(c0, F, T, H, pf, pt, final), reg)
  {
    hide PatchedCode, FinalCode;
    assert p + 1 < |c0|;
    if p + 1 in F + T {
      FinalTestJump(k, c0, tail, open, H, H', F, T, reg, pf, pt, p);
    } else {
      FinalInstrIs(c0, tail, open, F, T, reg, pf, pt, p);
      FinalInstrIs(c0, tail, open, F, T, reg, pf, pt, p + 1);
      if p + 1 in H {
        assert FinalCode(c0, tail, F, T, reg, pf, pt)[p] == c0[p];
      }
    }
  }

  lemma FinalAct(k: seq<Value>, c0: seq<Instr>, tail: seq<Instr>, open: set<int>, H: set<int>, H': set<int>,
                 F: set<int>, T: set<int>, reg: int, pf: int, pt: int, p: nat)
    requires open !! H && Controlled(c0, open) && F <= open && T <= open && F !! T && IsReg(reg)
    requires forall j | j in H :: 0 <= j < |c0| && c0[j].Jmp?
    requires |c0| > 0 ==> !IsTest(c0[|c0| - 1])
    requires TailOk(c0, tail, H, H', reg, pf, pt) && p < |c0|
    ensures var final := |c0| + |tail|;
            PatchedAt(ActAt(k, c0, open + H, {}, p),
                      ActAt(k, FinalCode(c0, tail, F, T, reg, pf, pt), open - F - T, H', p),
                      p, F + T + H, FinalDest(c0, F, T, H, pf, pt, final), reg)
  {
    hide PatchedCode, FinalCode;
    FinalInstrIs(c0, tail, open, F, T, reg, pf, pt, p);
    if c0[p].Jmp? {
      FinalJump(k, c0, tail, open, H, H', F, T, reg, pf, pt, p);
    } else if IsTest(c0[p]) {
      FinalTest(k, c0, tail, open, H, H', F, T, reg, pf, pt, p);
    }
  }

  lemma FinalActs(k: seq<Value>, c0: seq<Instr>, tail: seq<Instr>, open: set<int>, H: set<int>, H': set<int>,
                  F: set<int>, T: set<int>, reg: int, pf: int, pt: int)
    requires open !! H && Controlled(c0, open) && F <= open && T <= open && F !! T && IsReg(reg)
    requires forall j | j in H :: 0 <= j < |c0| && c0[j].Jmp?
    requires |c0| > 0 ==> !IsTest(c0[|c0| - 1])
    requires TailOk(c0, tail, H, H', reg, pf, pt)
    requires tail == [] ==> forall j | j in F + T :: c0[j - 1].TestSet?
    ensures var final, n := |c0| + |tail|, |c0|;
            var b := ActsOf(k, c0, open + H, {});
            var a := ActsOf(k, FinalCode(c0, tail, F, T, reg, pf, pt), open - F - T, H');
            && Patched(b, a, F + T + H, FinalDest(c0, F, T, H, pf, pt, final), reg)
            && (tail != [] ==> pf == final - 2 && pt == final - 1
                               && a[pf] == DoBool(reg, false, true) && a[pt] == DoBool(reg, true, false))
            && (|tail| == 3 ==> a[n] == DoJump(To(final)))
  {
    hide FinalCode, PatchedCode, PatchedAt;
    var final, n := |c0| + |tail|, |c0|;
    var c3 := FinalCode(c0, tail, F, T, reg, pf, pt);
    var b, a := ActsOf(k, c0, open + H, {}), ActsOf(k, c3, open - F - T, H');
    var dest := FinalDest(c0, F, T, H, pf, pt, final);
    forall p | 0 <= p < n
      ensures PatchedAt(b[p], a[p], p, F + T + H, dest, reg)
    {
      FinalAct(k, c0, tail, open, H, H', F, T, reg, pf, pt, p);
    }
    forall p | n <= p < final
      ensures c3[p] == tail[p - n]
    {
      FinalInstrIs(c0, tail, open, F, T, reg, pf, pt, p);
    }
    if n > 0 {
      FinalInstrIs(c0, tail, open, F, T, reg, pf, pt, n - 1);
    }
  }

  /** What exp2reg starts from: a value in its register or a comparison still pending, whose list of
      true exits already includes the comparison, and where the two loads of booleans will be. */
  ghost predicate FinalOk(c0: seq<Instr>, open: set<int>, H: set<int>, d: Desc, T: set<int>, tail: seq<Instr>,
                          H': set<int>, reg: int, pf: int, pt: int) {
    && open !! H && Controlled(c0, open) && IsReg(reg)
    && (forall j | j in H :: 0 <= j < |c0| && c0[j].Jmp?)
    && (|c0| > 0 ==> !IsTest(c0[|c0| - 1]))
    && Elems(d.fl) <= open && T <= open && Elems(d.fl) !! T
    && TailOk(c0, tail, H, H', reg, pf, pt)
    && (tail == [] ==> forall j | j in Elems(d.fl) + T :: c0[j - 1].TestSet?)
    && match d.kind
       case VNONRELOC => d.info == reg && T == Elems(d.tl) && (tail == [] || |tail| == 3)
       case VJMP => T == Elems(d.tl) + {d.info} && c0[d.info - 1].Test2? && tail == BoolTail(reg) && H == {}
       case _ => false
  }

  lemma RunEnd(w: World, a: seq<Action>, S: Regs)
    ensures Run(w, a, |a|, S) == Fall(S)
  {
  }

  /** The loads of booleans at the end of the code. */
  lemma TailRun(w: World, a: seq<Action>, pf: nat, reg: int, S: Regs)
    requires |a| == pf + 2 && IsReg(reg)
    requires a[pf] == DoBool(reg, false, true) && a[pf + 1] == DoBool(reg, true, false)
    ensures Run(w, a, pf, S) == Fall(S[reg := Bool(false)])
    ensures Run(w, a, pf + 1, S) == Fall(S[reg := Bool(true)])
    ensures pf > 0 && a[pf - 1] == DoJump(To(pf + 2)) ==> Run(w, a, pf - 1, S) == Fall(S)
  {
    assert forall D: Regs :: Run(w, a, pf + 2, D) == Fall(D);
  }

  ghost predicate FinalStepOk(c0: seq<Instr>, d: Desc, T: set<int>, tail: seq<Instr>, reg: int, o: Outcome, o': Outcome)
    requires IsReg(reg)
  {
    match o
    case Fall(S) => o' == Fall(if |tail| == 2 then S[reg := Bool(false)] else S)
    case Exit(j, S) =>
      if j !in Elems(d.fl) + T then o' == o
      else if 0 < j <= |c0| && c0[j - 1].TestSet? then
        IsReg(c0[j - 1].b) ==> o' == Fall(S[reg := S[c0[j - 1].b]])
      else o' == Fall(S[reg := Bool(j in T)])
    case Stuck => true
    case _ => o' == o
  }

  lemma FinalGoesOn(w: World, k: seq<Value>, c0: seq<Instr>, open: set<int>, H: set<int>, d: Desc, T: set<int>,
                    tail: seq<Instr>, H': set<int>, reg: int, pf: int, pt: int, R: Regs)
    requires FinalOk(c0, open, H, d, T, tail, H', reg, pf, pt)
    ensures var F, final := Elems(d.fl), |c0| + |tail|;
            var b := ActsOf(k, c0, open + H, {});
            var a := ActsOf(k, FinalCode(c0, tail, F, T, reg, pf, pt), open - F - T, H');
            Continues(w, b, a, F + T + H, FinalDest(c0, F, T, H, pf, pt, final), Run(w, b, 0, R), Run(w, a, 0, R))
  {
    hide ActsOf, FinalCode, PatchedCode, Run, Arrive, Continues, Patched, PatchedAt;
    var F, final := Elems(d.fl), |c0| + |tail|;
    var b := ActsOf(k, c0, open + H, {});
    var a := ActsOf(k, FinalCode(c0, tail, F, T, reg, pf, pt), open - F - T, H');
    FinalActs(k, c0, tail, open, H, H', F, T, reg, pf, pt);
    PatchRun(w, b, a, F + T + H, FinalDest(c0, F, T, H, pf, pt, final), reg, 0, R);
  }

  lemma FinalContinues(w: World, k: seq<Value>, c0: seq<Instr>, open: set<int>, H: set<int>, d: Desc, T: set<int>,
                       tail: seq<Instr>, H': set<int>, reg: int, pf: int, pt: int, R: Regs)
    requires FinalOk(c0, open, H, d, T, tail, H', reg, pf, pt)
    ensures var F, final := Elems(d.fl), |c0| + |tail|;
            var b, a0 := ActsOf(k, c0, open + H, {}), ActsOf(k, c0, open, H);
            var a := ActsOf(k, FinalCode(c0, tail, F, T, reg, pf, pt), open - F - T, H');
            && Continues(w, b, a0, H, map j | j in H :: |c0|, Run(w, b, 0, R), Run(w, a0, 0, R))
            && Continues(w, b, a, F + T + H, FinalDest(c0, F, T, H, pf, pt, final), Run(w, b, 0, R), Run(w, a, 0, R))
  {
    hide ActsOf, FinalCode, PatchedCode, Run, Arrive, Continues, Patched, PatchedAt;
    var b, a0 := ActsOf(k, c0, open + H, {}), ActsOf(k, c0, open, H);
    Reopened(k, c0, open, H);
    FinalGoesOn(w, k, c0, open, H, d, T, tail, H', reg, pf, pt, R);
    PatchRun(w, b, a0, H, map j | j in H :: |c0|, 0, 0, R);
  }

  /** Falling out of the old code: a pending comparison was false, otherwise the value is in place. */
  lemma FinalFall(w: World, k: seq<Value>, c0: seq<Instr>, open: set<int>, H: set<int>, d: Desc, T: set<int>,
                  tail: seq<Instr>, H': set<int>, reg: int, pf: int, pt: int, S: Regs)
    requires FinalOk(c0, open, H, d, T, tail, H', reg, pf, pt)
    ensures var a := ActsOf(k, FinalCode(c0, tail, Elems(d.fl), T, reg, pf, pt), open - Elems(d.fl) - T, H');
            Run(w, a, |c0|, S) == Fall(if |tail| == 2 then S[reg := Bool(false)] else S)
  {
    hide ActsOf, FinalCode, PatchedCode, Patched, PatchedAt, Run, Arrive;
    var F := Elems(d.fl);
    var a := ActsOf(k, FinalCode(c0, tail, F, T, reg, pf, pt), open - F - T, H');
    FinalActs(k, c0, tail, open, H, H', F, T, reg, pf, pt);
    RunEnd(w, a, S);
    if |tail| > 0 { TailRun(w, a, pf, reg, S); }
  }

  /** A patched jump arrives with its value in reg, if it carries one. */
  lemma ArriveFinal(k: seq<Value>, c0: seq<Instr>, open: set<int>, H: set<int>, d: Desc, T: set<int>, tail: seq<Instr>,
                    H': set<int>, reg: int, pf: int, pt: int, j: int, S: Regs)
    requires FinalOk(c0, open, H, d, T, tail, H', reg, pf, pt) && j in Elems(d.fl) + T
    ensures var a := ActsOf(k, FinalCode(c0, tail, Elems(d.fl), T, reg, pf, pt), open - Elems(d.fl) - T, H');
            Arrive(a, j, S)
            == if c0[j - 1].TestSet? && IsReg(c0[j - 1].b) then S[reg := S[c0[j - 1].b]] else S
  {
    hide FinalCode, PatchedCode;
    FinalInstrIs(c0, tail, open, Elems(d.fl), T, reg, pf, pt, j);
    FinalInstrIs(c0, tail, open, Elems(d.fl), T, reg, pf, pt, j - 1);
    if c0[j - 1].TestSet? && IsReg(c0[j - 1].b) && c0[j - 1].b == reg {
      assert S[reg := S[reg]] == S;
    }
  }

  /** From a patched jump the value, copied or loaded, reaches reg at the end of the code. */
  lemma FinalExit(w: World, k: seq<Value>, c0: seq<Instr>, open: set<int>, H: set<int>, d: Desc, T: set<int>,
                  tail: seq<Instr>, H': set<int>, reg: int, pf: int, pt: int, j: int, S: Regs)
    requires FinalOk(c0, open, H, d, T, tail, H', reg, pf, pt) && j in Elems(d.fl) + T
    requires c0[j - 1].TestSet? ==> IsReg(c0[j - 1].b)
    ensures var a := ActsOf(k, FinalCode(c0, tail, Elems(d.fl), T, reg, pf, pt), open - Elems(d.fl) - T, H');
            Run(w, a, FinalDest(c0, Elems(d.fl), T, H, pf, pt, |c0| + |tail|)[j], Arrive(a, j, S))
            == Fall(S[reg := if c0[j - 1].TestSet? then S[c0[j - 1].b] else Bool(j in T)])
  {
    hide ActsOf, FinalCode, PatchedCode, Patched, PatchedAt, Run, Arrive;
    var F := Elems(d.fl);
    var a := ActsOf(k, FinalCode(c0, tail, F, T, reg, pf, pt), open - F - T, H');
    FinalActs(k, c0, tail, open, H, H', F, T, reg, pf, pt);
    ArriveFinal(k, c0, open, H, d, T, tail, H', reg, pf, pt, j, S);
    RunEnd(w, a, Arrive(a, j, S));
    if |tail| > 0 { TailRun(w, a, pf, reg, S); }
  }

  /** A jump that still waits copies nothing. */
  lemma ArriveHere(k: seq<Value>, c: seq<Instr>, open: set<int>, H: set<int>, j: int, S: Regs)
    requires j in H
    ensures Arrive(ActsOf(k, c, open, H), j, S) == S
  {
  }

  lemma FinalStep(w: World, k: seq<Value>, c0: seq<Instr>, open: set<int>, H: set<int>, d: Desc, T: set<int>,
                  tail: seq<Instr>, H': set<int>, reg: int, pf: int, pt: int, R: Regs)
    requires FinalOk(c0, open, H, d, T, tail, H', reg, pf, pt)
    ensures var a := ActsOf(k, FinalCode(c0, tail, Elems(d.fl), T, reg, pf, pt), open - Elems(d.fl) - T, H');
            FinalStepOk(c0, d, T, tail, reg, Run(w, ActsOf(k, c0, open, H), 0, R), Run(w, a, 0, R))
  {
    hide ActsOf, FinalCode, PatchedCode, Run, Arrive;
    var F, final := Elems(d.fl), |c0| + |tail|;
    var c3 := FinalCode(c0, tail, F, T, reg, pf, pt);
    var b, a0, a := ActsOf(k, c0, open + H, {}), ActsOf(k, c0, open, H), ActsOf(k, c3, open - F - T, H');
    FinalContinues(w, k, c0, open, H, d, T, tail, H', reg, pf, pt, R);
    match Run(w, b, 0, R)
    case Fall(S) =>
      RunEnd(w, a0, S);
      FinalFall(w, k, c0, open, H, d, T, tail, H', reg, pf, pt, S);
    case Exit(j, S) =>
      if j in H {
        RunEnd(w, a0, S);
        RunEnd(w, a, S);
        ArriveHere(k, c0, open, H, j, S);
        ArriveHere(k, c3, open - F - T, H', j, S);
      } else if j in F + T && (c0[j - 1].TestSet? ==> IsReg(c0[j - 1].b)) {
        FinalExit(w, k, c0, open, H, d, T, tail, H', reg, pf, pt, j, S);
      }
    case _ =>
  }

  lemma FinalRun(w: World, k: seq<Value>, c0: seq<Instr>, open: set<int>, H: set<int>, d: Desc, T: set<int>,
                 tail: seq<Instr>, H': set<int>, reg: int, pf: int, pt: int, sv: Option<Value>, R0: Regs, base: nat,
                 R: Regs)
    requires FinalOk(c0, open, H, d, T, tail, H', reg, pf, pt) && reg >= base
    requires Delivers(c0, k, d, sv, R0, Run(w, ActsOf(k, c0, open, H), 0, R), base)
    ensures var a := ActsOf(k, FinalCode(c0, tail, Elems(d.fl), T, reg, pf, pt), open - Elems(d.fl) - T, H');
            match Run(w, a, 0, R)
            case Fault => sv.None?
            case Fall(S) => sv.Some? && Agree(R0, S, base) && S[reg] == sv.value
            case _ => false
  {
    hide ActsOf, FinalCode, Run;
    FinalStep(w, k, c0, open, H, d, T, tail, H', reg, pf, pt, R);
  }

  /** exp2reg keeps the meaning of the expression, now in register reg. */
  lemma FinalMeans(nact: int, k: seq<Value>, c0: seq<Instr>, open: set<int>, H: set<int>, d: Desc, T: set<int>,
                   tail: seq<Instr>, H': set<int>, reg: int, pf: int, pt: int, e: Exp, pre: seq<Action>, base: nat)
    requires FinalOk(c0, open, H, d, T, tail, H', reg, pf, pt) && reg >= base
    requires Means(nact, c0, k, ActsOf(k, c0, open, H), d, e, pre, base)
    ensures var c3 := FinalCode(c0, tail, Elems(d.fl), T, reg, pf, pt);
            Means(nact, c3, k, ActsOf(k, c3, open - Elems(d.fl) - T, H'), Desc(VNONRELOC, reg, d.nval, [], []), e,
                  pre, base)
  {
    hide ActsOf, FinalCode;
    var c3 := FinalCode(c0, tail, Elems(d.fl), T, reg, pf, pt);
    var a0, a := ActsOf(k, c0, open, H), ActsOf(k, c3, open - Elems(d.fl) - T, H');
    var d' := Desc(VNONRELOC, reg, d.nval, [], []);
    forall w: World, R: Regs | Init(R, nact)
      ensures var o0, o := Run(w, pre, 0, R), Run(w, Before(d', a), 0, R);
              o0 != Stuck && if o0.Fall? then Delivers(c3, k, d', Eval(w, e, o0.regs), o0.regs, o, base)
                             else o == o0 && (o0.Exit? ==> !Owns(d', o0.at))
    {
      var o0 := Run(w, pre, 0, R);
      assert Before(d, a0) == a0 && Before(d', a) == a;
      if o0.Fall? {
        FinalRun(w, k, c0, open, H, d, T, tail, H', reg, pf, pt, Eval(w, e, o0.regs), o0.regs, base, R);
      } else {
        FinalStep(w, k, c0, open, H, d, T, tail, H', reg, pf, pt, R);
      }
    }
  }

  /** ... keeps the jumps and tests of everything else, ... */
  lemma FinalKeeps(c0: seq<Instr>, open: set<int>, H: set<int>, d: Desc, T: set<int>, tail: seq<Instr>, H': set<int>,
                   reg: int, pf: int, pt: int)
    requires FinalOk(c0, open, H, d, T, tail, H', reg, pf, pt)
    ensures var c3, open' := FinalCode(c0, tail, Elems(d.fl), T, reg, pf, pt), open - Elems(d.fl) - T;
            && Controlled(c3, open') && Keeps(c0, c3, open')
            && (forall j | 0 <= j < |c3| && j !in Elems(d.fl) + T && (c0 + tail)[j].Jmp? :: c3[j] == (c0 + tail)[j])
  {
    hide FinalCode, TailOk;
    var F := Elems(d.fl);
    var open', c3 := open - F - T, FinalCode(c0, tail, F, T, reg, pf, pt);
    forall j | 0 <= j < |c3|
      ensures c3[j] == FinalInstr(c0, tail, F, T, reg, pf, pt, j)
    {
      FinalInstrIs(c0, tail, open, F, T, reg, pf, pt, j);
    }
  }

  lemma TailActOk(a: Action, p: int, final: int, reg: int)
    requires (a == DoBool(reg, false, true) && p + 2 == final) || a == DoBool(reg, true, false)
             || a == DoJump(To(final))
    ensures a != Broken && TargetOk(a, p, final)
  {
  }

  lemma FinalActOk(k: seq<Value>, c0: seq<Instr>, open: set<int>, H: set<int>, p: nat, a: Action, sites: set<int>,
                   dest: map<int, int>, reg: int, limit: int, final: int)
    requires p < |c0| && sites <= dest.Keys && H <= sites && limit <= final
    requires forall j | j in sites :: dest[j] <= final
    requires PatchedAt(ActAt(k, c0, open + H, {}, p), a, p, sites, dest, reg)
    requires var a0 := ActAt(k, c0, open, H, p); a0 != Broken && TargetOk(a0, p, limit)
    ensures a != Broken && TargetOk(a, p, final)
  {
  }

  /** ... and leaves no jump past the end of the code. */
  lemma FinalOrder(k: seq<Value>, c0: seq<Instr>, open: set<int>, H: set<int>, d: Desc, T: set<int>, tail: seq<Instr>,
                   H': set<int>, reg: int, pf: int, pt: int, limit: int)
    requires FinalOk(c0, open, H, d, T, tail, H', reg, pf, pt) && limit <= |c0|
    requires ActsOk(ActsOf(k, c0, open, H), limit)
    ensures var c3, open' := FinalCode(c0, tail, Elems(d.fl), T, reg, pf, pt), open - Elems(d.fl) - T;
            ActsOk(ActsOf(k, c3, open', H'), |c3|)
  {
    hide FinalCode, ActAt, PatchedAt, TargetOk;
    var F, open', final := Elems(d.fl), open - Elems(d.fl) - T, |c0| + |tail|;
    var c3 := FinalCode(c0, tail, F, T, reg, pf, pt);
    FinalActs(k, c0, tail, open, H, H', F, T, reg, pf, pt);
    var b, a0, a := ActsOf(k, c0, open + H, {}), ActsOf(k, c0, open, H), ActsOf(k, c3, open', H');
    forall p | 0 <= p < final
      ensures a[p] != Broken && TargetOk(a[p], p, final)
    {
      if p < |c0| {
        FinalActOk(k, c0, open, H, p, a[p], F + T + H, FinalDest(c0, F, T, H, pf, pt, final), reg, limit, final);
      } else {
        TailActOk(a[p], p, final, reg);
      }
    }
  }
}
