/** Source expressions, instructions, and the machine that runs them: the part of lopcodes.h and
    lvm.c that boolean and comparison expressions use. */
module BoolCode {

  datatype Option<+T> = None | Some(value: T)

  // ---- Values and source expressions ----

  /** Numbers and strings are identities: only nil and false are special here. */
  datatype Value = Nil | Bool(b: bool) | Num(n: int) | Str(s: int)

  predicate Truthy(v: Value) {
    v != Nil && v != Bool(false)
  }

  /** Equality and order of values, which depend on IEEE numbers and on the locale. An order that
      answers None stands for the error raised on values that cannot be compared. */
  datatype World = World(eq: (Value, Value) -> bool,
                         lt: (Value, Value) -> Option<bool>,
                         le: (Value, Value) -> Option<bool>)

  datatype Relation = EQ | NE | LT | LE | GT | GE

  datatype Exp =
    | Const(v: Value)
    | Local(reg: nat)
    | Paren(e: Exp)
    | Not(e: Exp)
    | And(a: Exp, b: Exp)
    | Or(a: Exp, b: Exp)
    | Compare(op: Relation, a: Exp, b: Exp)

  const MAXSTACK := 250

  type Regs = r: seq<Value> | |r| == MAXSTACK witness seq(MAXSTACK, _ => Nil)

  function Relate(w: World, op: Relation, x: Value, y: Value): Option<bool> {
    match op
    case EQ => Some(w.eq(x, y))
    case NE => Some(!w.eq(x, y))
    case LT => w.lt(x, y)
    case LE => w.le(x, y)
    case GT => w.lt(y, x)
    case GE => w.le(y, x)
  }

  /** Section 2.5.3 of the Lua 5.1 Reference Manual: and, or and not with short-circuit evaluation.
      None is a runtime error. */
  function Eval(w: World, e: Exp, R: Regs): Option<Value> {
    match e
    case Const(v) => Some(v)
    case Local(r) => if r < MAXSTACK then Some(R[r]) else None
    case Paren(x) => Eval(w, x, R)
    case Not(x) =>
      var v := Eval(w, x, R);
      if v.None? then None else Some(Bool(!Truthy(v.value)))
    case And(a, b) =>
      var v := Eval(w, a, R);
      if v.None? || !Truthy(v.value) then v else Eval(w, b, R)
    case Or(a, b) =>
      var v := Eval(w, a, R);
      if v.None? || Truthy(v.value) then v else Eval(w, b, R)
    case Compare(op, a, b) =>
      var x := Eval(w, a, R);
      if x.None? then None else
      var y := Eval(w, b, R);
      if y.None? then None else
      var t := Relate(w, op, x.value, y.value);
      if t.None? then None else Some(Bool(t.value))
  }

  predicate LocalsBelow(e: Exp, n: nat) {
    match e
    case Const(_) => true
    case Local(r) => r < n
    case Paren(x) => LocalsBelow(x, n)
    case Not(x) => LocalsBelow(x, n)
    case And(a, b) => LocalsBelow(a, n) && LocalsBelow(b, n)
    case Or(a, b) => LocalsBelow(a, n) && LocalsBelow(b, n)
    case Compare(_, a, b) => LocalsBelow(a, n) && LocalsBelow(b, n)
  }

  predicate Agree(R: Regs, S: Regs, n: nat) {
    forall i | 0 <= i < n && i < MAXSTACK :: R[i] == S[i]
  }

  lemma EvalAgree(w: World, e: Exp, R: Regs, S: Regs, n: nat)
    requires LocalsBelow(e, n) && Agree(R, S, n)
    ensures Eval(w, e, R) == Eval(w, e, S)
  {
  }

  // ---- Instructions ----

  const MAXARG_sBx := 131071
  const MAXARG_Bx := 262143
  const MAXINDEXRK := 255
  const BITRK := 256
  const NO_REG := 255
  const NO_JUMP := -1

  datatype CompareOp = OpEq | OpLt | OpLe

  datatype Instr =
    | Move(a: int, b: int)
    | LoadK(a: int, bx: int)
    | LoadBool(a: int, v: bool, skip: bool)
    | LoadNil(a: int, b: int)
    | OpNot(a: int, b: int)
    | Jmp(sbx: int)
    | Test2(cmp: CompareOp, cond: bool, b: int, c: int)
    | Test(a: int, cond: bool)
    | TestSet(a: int, b: int, cond: bool)
    | Return(a: int, b: int)

  /** testTMode: the instruction is followed by a jump that it may skip. */
  predicate IsTest(i: Instr) {
    i.Test2? || i.Test? || i.TestSet?
  }

  function CompareValues(w: World, op: CompareOp, x: Value, y: Value): Option<bool> {
    match op
    case OpEq => Some(w.eq(x, y))
    case OpLt => w.lt(x, y)
    case OpLe => w.le(x, y)
  }

  predicate IsReg(r: int) {
    0 <= r < MAXSTACK
  }

  /** RK(x): a register, or a constant when the constant bit is set. */
  function RK(k: seq<Value>, R: Regs, x: int): Option<Value> {
    if IsReg(x) then Some(R[x])
    else if BITRK <= x && x - BITRK < |k| then Some(k[x - BITRK])
    else None
  }

  function SetNil(R: Regs, from: int, to: int): Regs {
    seq(MAXSTACK, i requires 0 <= i < MAXSTACK => if from <= i <= to then Nil else R[i])
  }

  // ---- The machine ----

  /** How a piece of code ends: past its end, at a jump that is not yet patched, by returning a
      value, with a runtime error, or outside what the machine defines. */
  datatype Outcome =
    | Fall(regs: Regs)
    | Exit(at: int, regs: Regs)
    | Returned(v: Value)
    | Fault
    | Stuck

  /** luaV_execute on this part of the instruction set, without metamethods. Expression code never
      jumps backwards; a run that does is Stuck. */
  function Execute(w: World, k: seq<Value>, code: seq<Instr>, pc: nat, R: Regs): Outcome
    requires pc <= |code|
    decreases |code| - pc
  {
    if pc == |code| then Fall(R)
    else
      match code[pc]
      case Move(a, b) =>
        if IsReg(a) && IsReg(b) then Execute(w, k, code, pc + 1, R[a := R[b]]) else Stuck
      case LoadK(a, bx) =>
        if IsReg(a) && 0 <= bx < |k| then Execute(w, k, code, pc + 1, R[a := k[bx]]) else Stuck
      case LoadBool(a, b, c) =>
        if !IsReg(a) || pc + (if c then 2 else 1) > |code| then Stuck
        else Execute(w, k, code, pc + (if c then 2 else 1), R[a := Bool(b)])
      case LoadNil(a, b) =>
        if IsReg(a) && IsReg(b) && a <= b then Execute(w, k, code, pc + 1, SetNil(R, a, b)) else Stuck
      case OpNot(a, b) =>
        if IsReg(a) && IsReg(b) then Execute(w, k, code, pc + 1, R[a := Bool(!Truthy(R[b]))]) else Stuck
      case Jmp(sbx) =>
        if pc < pc + 1 + sbx <= |code| then Execute(w, k, code, pc + 1 + sbx, R) else Stuck
      case Test2(cmp, cond, b, c) =>
        var x, y := RK(k, R, b), RK(k, R, c);
        if x.None? || y.None? then Stuck else
        var t := CompareValues(w, cmp, x.value, y.value);
        if t.None? then Fault
        else TakeOrSkip(w, k, code, pc, R, t.value == cond)
      case Test(a, cond) =>
        if !IsReg(a) then Stuck
        else TakeOrSkip(w, k, code, pc, R, Truthy(R[a]) == cond)
      case TestSet(a, b, cond) =>
        if !IsReg(b) then Stuck
        else if Truthy(R[b]) != cond then TakeOrSkip(w, k, code, pc, R, false)
        else if IsReg(a) then TakeOrSkip(w, k, code, pc, R[a := R[b]], true)
        else Stuck
      case Return(a, b) =>
        if IsReg(a) && b == 2 then Returned(R[a]) else Stuck
  }

  /** The second half of a test: do the jump that follows, or skip it. */
  function TakeOrSkip(w: World, k: seq<Value>, code: seq<Instr>, pc: nat, R: Regs, take: bool): Outcome
    requires pc < |code|
    decreases |code| - pc, 0
  {
    if pc + 2 > |code| || !code[pc + 1].Jmp? then Stuck
    else if !take then Execute(w, k, code, pc + 2, R)
    else if pc < pc + 2 + code[pc + 1].sbx <= |code| then Execute(w, k, code, pc + 2 + code[pc + 1].sbx, R)
    else Stuck
  }

  // ---- Code with open jumps ----

  datatype Operand = Reg(r: int) | Lit(v: Value)

  datatype Cond = Cmp(op: CompareOp, want: bool, x: Operand, y: Operand) | Truth(r: int, want: bool)

  /** Open: on a patch list, going to a place not known yet. */
  datatype Target = Open | To(pc: int)

  /** Instructions with constants looked up and every test fused with the jump it controls: a jump
      of a patch list has no destination of its own, whatever link its offset encodes. */
  datatype Action =
    | DoMove(a: int, b: int)
    | DoLoad(a: int, v: Value)
    | DoBool(a: int, val: bool, skip: bool)
    | DoNil(a: int, b: int)
    | DoNot(a: int, b: int)
    | DoJump(t: Target)
    | Branch(c: Cond, copy: int, t: Target)
    | JumpWord
    | DoReturn(a: int)
    | Broken

  function OperandValue(R: Regs, x: Operand): Option<Value> {
    match x
    case Reg(r) => if IsReg(r) then Some(R[r]) else None
    case Lit(v) => Some(v)
  }

  /** Whether a branch is taken: None is a runtime error, Some(None) an operand out of range. */
  function Decide(w: World, c: Cond, R: Regs): (r: Option<Option<bool>>)
    ensures c.Truth? && r.Some? && r.value.Some? ==> IsReg(c.r)
  {
    match c
    case Truth(r, want) => Some(if IsReg(r) then Some(Truthy(R[r]) == want) else None)
    case Cmp(op, want, x, y) =>
      var vx, vy := OperandValue(R, x), OperandValue(R, y);
      if vx.None? || vy.None? then Some(None) else
      var t := CompareValues(w, op, vx.value, vy.value);
      if t.None? then None else Some(Some(t.value == want))
  }

  function Go(w: World, acts: seq<Action>, pc: nat, t: Target, at: int, R: Regs): Outcome
    requires pc < |acts|
    decreases |acts| - pc, 0
  {
    if t.Open? then Exit(at, R)
    else if pc < t.pc <= |acts| then Run(w, acts, t.pc, R)
    else Stuck
  }

  /** The same machine on fused actions; an open jump ends the run there. */
  function Run(w: World, acts: seq<Action>, pc: nat, R: Regs): Outcome
    requires pc <= |acts|
    decreases |acts| - pc, 1
  {
    if pc == |acts| then Fall(R)
    else
      match acts[pc]
      case DoMove(a, b) => if IsReg(a) && IsReg(b) then Run(w, acts, pc + 1, R[a := R[b]]) else Stuck
      case DoLoad(a, v) => if IsReg(a) then Run(w, acts, pc + 1, R[a := v]) else Stuck
      case DoBool(a, v, skip) =>
        if !IsReg(a) || pc + (if skip then 2 else 1) > |acts| then Stuck
        else Run(w, acts, pc + (if skip then 2 else 1), R[a := Bool(v)])
      case DoNil(a, b) =>
        if IsReg(a) && IsReg(b) && a <= b then Run(w, acts, pc + 1, SetNil(R, a, b)) else Stuck
      case DoNot(a, b) =>
        if IsReg(a) && IsReg(b) then Run(w, acts, pc + 1, R[a := Bool(!Truthy(R[b]))]) else Stuck
      case DoJump(t) => Go(w, acts, pc, t, pc, R)
      case Branch(c, copy, t) =>
        var b := Decide(w, c, R);
        if b.None? then Fault
        else if b.value.None? || pc + 2 > |acts| || !acts[pc + 1].JumpWord? then Stuck
        else if !b.value.value then Run(w, acts, pc + 2, R)
        else if copy < 0 then Go(w, acts, pc, t, pc + 1, R)
        else if c.Truth? && IsReg(copy) then Go(w, acts, pc, t, pc + 1, R[copy := R[c.r]])
        else Stuck
      case DoReturn(a) => if IsReg(a) then Returned(R[a]) else Stuck
      case JumpWord => Stuck
      case Broken => Stuck
  }

  ghost predicate PatchedAt(act: Action, act': Action, p: int, sites: set<int>, dest: map<int, int>, reg: int)
    requires sites <= dest.Keys
  {
    match act
    case DoJump(Open) => act' == if p in sites then DoJump(To(dest[p])) else act
    case Branch(c, copy, Open) =>
      if p + 1 in sites then
        && copy == -1
        && (|| act' == Branch(c, -1, To(dest[p + 1]))
            || (c.Truth? && IsReg(reg) && act' == Branch(c, reg, To(dest[p + 1]))))
      else act' == act
    case _ => act' == act
  }

  /** acts' carries on where acts stops: the open jumps in `sites` now go to `dest` of their site,
      at or past the end of acts, the branches among them that test a register may also copy it
      to `reg`, and nothing else in acts changed. */
  ghost predicate Patched(acts: seq<Action>, acts': seq<Action>, sites: set<int>, dest: map<int, int>, reg: int) {
    && |acts| <= |acts'|
    && sites <= dest.Keys
    && (forall j | j in sites :: |acts| <= dest[j] <= |acts'|)
    && (forall p | 0 <= p < |acts| :: PatchedAt(acts[p], acts'[p], p, sites, dest, reg))
  }

  /** The registers with which a patched jump arrives: a branch that copies has copied. */
  ghost function Arrive(acts: seq<Action>, j: int, R: Regs): Regs {
    if 0 < j < |acts| && acts[j].JumpWord? && acts[j - 1].Branch? && IsReg(acts[j - 1].copy)
       && acts[j - 1].c.Truth? && IsReg(acts[j - 1].c.r)
    then R[acts[j - 1].copy := R[acts[j - 1].c.r]]
    else R
  }

  /** What a run of acts' does, given what the run of acts from the same point did. */
  ghost predicate Continues(w: World, acts: seq<Action>, acts': seq<Action>, sites: set<int>, dest: map<int, int>,
                            o: Outcome, o': Outcome)
    requires |acts| <= |acts'| && sites <= dest.Keys
    requires forall j | j in sites :: |acts| <= dest[j] <= |acts'|
  {
    match o
    case Fall(S) => o' == Run(w, acts', |acts|, S)
    case Exit(j, S) => o' == if j in sites then Run(w, acts', dest[j], Arrive(acts', j, S)) else o
    case Stuck => |acts'| == |acts| ==> o' == Stuck
    case _ => o' == o
  }

  /** Patching moves every run on from where it stopped, and changes nothing else. This one fact
      covers emitting code, fixing a patch list to the current position, and the final patch. */
  lemma {:induction false} PatchRun(w: World, acts: seq<Action>, acts': seq<Action>, sites: set<int>,
                                    dest: map<int, int>, reg: int, pc: nat, R: Regs)
    requires Patched(acts, acts', sites, dest, reg) && pc <= |acts|
    ensures Continues(w, acts, acts', sites, dest, Run(w, acts, pc, R), Run(w, acts', pc, R))
    decreases |acts| - pc
  {
    if pc == |acts| {
    } else {
      assert PatchedAt(acts[pc], acts'[pc], pc, sites, dest, reg);
      match acts[pc]
      case DoMove(a, b) => if IsReg(a) && IsReg(b) { PatchRun(w, acts, acts', sites, dest, reg, pc + 1, R[a := R[b]]); }
      case DoLoad(a, v) => if IsReg(a) { PatchRun(w, acts, acts', sites, dest, reg, pc + 1, R[a := v]); }
      case DoBool(a, v, skip) =>
        var next := pc + (if skip then 2 else 1);
        if IsReg(a) && next <= |acts| {
          PatchRun(w, acts, acts', sites, dest, reg, next, R[a := Bool(v)]);
        }
      case DoNil(a, b) =>
        if IsReg(a) && IsReg(b) && a <= b {
          PatchRun(w, acts, acts', sites, dest, reg, pc + 1, SetNil(R, a, b));
        }
      case DoNot(a, b) =>
        if IsReg(a) && IsReg(b) {
          PatchRun(w, acts, acts', sites, dest, reg, pc + 1, R[a := Bool(!Truthy(R[b]))]);
        }
      case DoJump(t) =>
        if t.To? {
          assert acts'[pc] == acts[pc];
          assert Run(w, acts, pc, R) == Go(w, acts, pc, t, pc, R) && Run(w, acts', pc, R) == Go(w, acts', pc, t, pc, R);
          if pc < t.pc <= |acts| {
            PatchRun(w, acts, acts', sites, dest, reg, t.pc, R);
          }
        }
      case Branch(c, copy, t) => PatchBranch(w, acts, acts', sites, dest, reg, pc, R);
      case _ =>
    }
  }

  lemma {:induction false} PatchBranch(w: World, acts: seq<Action>, acts': seq<Action>, sites: set<int>,
                                       dest: map<int, int>, reg: int, pc: nat, R: Regs)
    requires Patched(acts, acts', sites, dest, reg) && pc < |acts| && acts[pc].Branch?
    ensures Continues(w, acts, acts', sites, dest, Run(w, acts, pc, R), Run(w, acts', pc, R))
    decreases |acts| - pc, 0
  {
    var Branch(c, copy, t) := acts[pc];
    assert PatchedAt(acts[pc], acts'[pc], pc, sites, dest, reg);
    var b := Decide(w, c, R);
    if b.Some? && b.value.Some? && pc + 2 <= |acts| && acts[pc + 1].JumpWord? {
      assert PatchedAt(acts[pc + 1], acts'[pc + 1], pc + 1, sites, dest, reg);
      if !b.value.value {
        PatchRun(w, acts, acts', sites, dest, reg, pc + 2, R);
      } else if t.To? && pc < t.pc <= |acts| {
        PatchRun(w, acts, acts', sites, dest, reg, t.pc,
                 if c.Truth? && IsReg(copy) then R[copy := R[c.r]] else R);
      }
    }
  }
}
