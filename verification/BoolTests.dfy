/** How the meanings of subexpressions combine: code that branches on an expression, and the code of
    not, and, or and the comparisons built from it. */
module BoolTests {
  import opened BoolCode
  import opened BoolMeaning

  /** Code entered without getting stuck. */
  ghost predicate Sound(nact: int, acts: seq<Action>) {
    forall w: World, R: Regs | Init(R, nact) :: Run(w, acts, 0, R) != Stuck
  }

  /** Outcome of code that branches on a value: fall through when its truth is `want`, leave by the
      list tl with a true value or by the list fl with a false one. */
  ghost predicate ForkAt(code: seq<Instr>, tl: seq<int>, fl: seq<int>, want: bool, sv: Option<Value>, R: Regs,
                         o: Outcome, base: nat) {
    match o
    case Fault => sv.None?
    case Fall(S) => sv.Some? && Agree(R, S, base) && Truthy(sv.value) == want
    case Exit(j, S) =>
      && sv.Some? && Agree(R, S, base)
      && ((j in tl && Carried(code, j, S, sv.value, true)) || (j in fl && Carried(code, j, S, sv.value, false)))
    case _ => false
  }

  /** The code so far, begun when it was pre, branches on the value of e. */
  ghost predicate Forks(nact: int, code: seq<Instr>, acts: seq<Action>, tl: seq<int>, fl: seq<int>, want: bool,
                        e: Exp, pre: seq<Action>, base: nat) {
    forall w: World, R: Regs | Init(R, nact) ::
      var o0, o := Run(w, pre, 0, R), Run(w, acts, 0, R);
      o0 != Stuck &&
      if o0.Fall? then ForkAt(code, tl, fl, want, Eval(w, e, o0.regs), o0.regs, o, base)
      else o == o0 && (o0.Exit? ==> o0.at !in tl && o0.at !in fl)
  }

  lemma ForksSound(nact: int, code: seq<Instr>, acts: seq<Action>, tl: seq<int>, fl: seq<int>, want: bool,
                   e: Exp, pre: seq<Action>, base: nat)
    requires Forks(nact, code, acts, tl, fl, want, e, pre, base)
    ensures Sound(nact, acts)
  {
  }

  lemma MeansSound(nact: int, code: seq<Instr>, k: seq<Value>, acts: seq<Action>, d: Desc, e: Exp,
                   pre: seq<Action>, base: nat)
    requires Means(nact, code, k, acts, d, e, pre, base) && d.kind != VRELOCABLE
    ensures Sound(nact, acts)
  {
    forall w: World, R: Regs | Init(R, nact)
      ensures Run(w, acts, 0, R) != Stuck
    {
      assert Run(w, pre, 0, R) != Stuck;
    }
  }

  /** A constant or a local variable needs no code. */
  lemma LeafMeans(nact: int, code: seq<Instr>, k: seq<Value>, acts: seq<Action>, d: Desc, e: Exp, base: nat)
    requires Sound(nact, acts) && d.kind != VRELOCABLE && d.kind != VJMP && d.tl == d.fl == []
    requires forall w: World, R: Regs :: Eval(w, e, R).Some? && FallOk(code, k, d, R, Eval(w, e, R).value)
    ensures Means(nact, code, k, acts, d, e, acts, base)
  {
  }

  lemma ParenMeans(nact: int, code: seq<Instr>, k: seq<Value>, acts: seq<Action>, d: Desc, e: Exp, pre: seq<Action>,
                   base: nat)
    requires Means(nact, code, k, acts, d, e, pre, base)
    ensures Means(nact, code, k, acts, d, Paren(e), pre, base)
  {
    hide Run, Delivers;
    assert forall w: World, R: Regs :: Eval(w, Paren(e), R) == Eval(w, e, R);
  }

  /** A jump whose destination is not known yet, of a test or on its own. */
  predicate OpenAt(acts: seq<Action>, j: int) {
    && 0 <= j < |acts|
    && (acts[j] == DoJump(Open)
        || (j > 0 && acts[j].JumpWord? && acts[j - 1].Branch? && acts[j - 1].t.Open?))
  }

  /** Exits are at open jumps of the code itself. */
  lemma {:induction false} ExitInRange(w: World, acts: seq<Action>, pc: nat, R: Regs)
    requires pc <= |acts|
    ensures var o := Run(w, acts, pc, R); o.Exit? ==> OpenAt(acts, o.at)
    decreases |acts| - pc
  {
    if pc >= |acts| {
    } else {
      match acts[pc]
      case DoMove(a, b) => if IsReg(a) && IsReg(b) { ExitInRange(w, acts, pc + 1, R[a := R[b]]); }
      case DoLoad(a, v) => if IsReg(a) { ExitInRange(w, acts, pc + 1, R[a := v]); }
      case DoBool(a, v, skip) =>
        var next := pc + (if skip then 2 else 1);
        if IsReg(a) && next <= |acts| { ExitInRange(w, acts, next, R[a := Bool(v)]); }
      case DoNil(a, b) => if IsReg(a) && IsReg(b) && a <= b { ExitInRange(w, acts, pc + 1, SetNil(R, a, b)); }
      case DoNot(a, b) => if IsReg(a) && IsReg(b) { ExitInRange(w, acts, pc + 1, R[a := Bool(!Truthy(R[b]))]); }
      case DoJump(t) => if t.To? && pc < t.pc <= |acts| { ExitInRange(w, acts, t.pc, R); }
      case Branch(c, copy, t) =>
        var b := Decide(w, c, R);
        if b.Some? && b.value.Some? && pc + 2 <= |acts| && acts[pc + 1].JumpWord? {
          if !b.value.value {
            ExitInRange(w, acts, pc + 2, R);
          } else if t.To? && pc < t.pc <= |acts| && (copy < 0 || (c.Truth? && IsReg(copy))) {
            ExitInRange(w, acts, t.pc, if copy < 0 then R else R[copy := R[c.r]]);
          }
        }
      case _ =>
    }
  }

  function WithBranch(acts: seq<Action>, c: Cond): seq<Action> {
    acts + [Branch(c, -1, Open), JumpWord]
  }

  /** Running code with one more test: where the code falls through, the test decides. */
  lemma BranchRun(w: World, acts: seq<Action>, c: Cond, R: Regs)
    ensures var o, o' := Run(w, acts, 0, R), Run(w, WithBranch(acts, c), 0, R);
            match o
            case Fall(S) =>
              var b := Decide(w, c, S);
              o' == if b.None? then Fault else if b.value.None? then Stuck
                    else if b.value.value then Exit(|acts| + 1, S) else Fall(S)
            case Exit(j, _) => o' == o && 0 <= j < |acts|
            case Stuck => ActsOk(acts, |acts|) ==> o' == Stuck
            case _ => o' == o
  {
    var acts' := WithBranch(acts, c);
    PatchRun(w, acts, acts', {}, map[], NO_REG, 0, R);
    ExitInRange(w, acts, 0, R);
    match Run(w, acts, 0, R)
    case Fall(S) =>
      assert acts'[|acts|] == Branch(c, -1, Open) && acts'[|acts| + 1] == JumpWord;
      assert Run(w, acts', |acts| + 2, S) == Fall(S);
      assert Go(w, acts', |acts|, Open, |acts| + 1, S) == Exit(|acts| + 1, S);
    case Stuck => if ActsOk(acts, |acts|) { StuckAlone(w, acts, [Branch(c, -1, Open), JumpWord], 0, R); }
    case _ =>
  }

  // ---- Branching on an expression ----

  /** A constant of the right truth falls through without a jump. */
  lemma ConstForks(nact: int, code: seq<Instr>, k: seq<Value>, acts: seq<Action>, d: Desc, want: bool, e: Exp,
                   pre: seq<Action>, base: nat)
    requires Means(nact, code, k, acts, d, e, pre, base) && d.kind != VJMP && d.kind != VRELOCABLE
    requires forall S: Regs, v | FallOk(code, k, d, S, v) :: Truthy(v) == want
    ensures Forks(nact, code, acts, d.tl, d.fl, want, e, pre, base)
  {
  }

  /** jumponcond: a jump on the truth `cond` of the value, taken by the branch (r, on). */
  lemma JumpForks(nact: int, c0: seq<Instr>, k: seq<Value>, a0: seq<Action>, d: Desc, e: Exp, pre: seq<Action>,
                  base: nat, c1: seq<Instr>, a1: seq<Action>, r: int, on: bool, cond: bool, pc: int)
    requires Means(nact, c0, k, a0, d, e, pre, base) && d.kind != VJMP && IsReg(r)
    requires forall S: Regs, v | FallOk(c0, k, d, S, v) ::
               && (Truthy(S[r]) == on <==> Truthy(v) == cond)
               && (Truthy(v) == cond ==> Carried(c1, pc, S, v, cond))
    requires a1 == WithBranch(Before(d, a0), Truth(r, on)) && pc == |a1| - 1
    requires Keeps(c0, c1, Elems(d.tl) + Elems(d.fl))
    ensures Forks(nact, c1, a1, d.tl + (if cond then [pc] else []), d.fl + (if cond then [] else [pc]), !cond,
                  e, pre, base)
  {
    var tl, fl := d.tl + (if cond then [pc] else []), d.fl + (if cond then [] else [pc]);
    assert pc in (if cond then tl else fl) by { assert pc in [pc]; }
    forall w: World, R: Regs | Init(R, nact)
      ensures var o0, o1 := Run(w, pre, 0, R), Run(w, a1, 0, R);
              o0 != Stuck && if o0.Fall? then ForkAt(c1, tl, fl, !cond, Eval(w, e, o0.regs), o0.regs, o1, base)
                             else o1 == o0 && (o0.Exit? ==> o0.at !in tl && o0.at !in fl)
    {
      BranchRun(w, Before(d, a0), Truth(r, on), R);
      var o := Run(w, Before(d, a0), 0, R);
      if o.Exit? {
        assert o.at in d.tl || o.at in d.fl ==> o.at in Elems(d.tl) + Elems(d.fl);
      }
    }
  }

  /** The same when the value is a negation that was just dropped: its operand b is tested. */
  lemma NotForks(nact: int, c0: seq<Instr>, k: seq<Value>, a0: seq<Action>, d: Desc, e: Exp, pre: seq<Action>,
                 base: nat, c1: seq<Instr>, a1: seq<Action>, b: int, cond: bool, pc: int)
    requires Means(nact, c0, k, a0, d, e, pre, base) && d.kind == VRELOCABLE && IsReg(b)
    requires 0 <= d.info < |c0| && c0[d.info].OpNot? && c0[d.info].b == b
    requires 0 < pc < |c1| && c1[pc - 1] == Test(b, !cond)
    requires a1 == WithBranch(Before(d, a0), Truth(b, !cond)) && pc == |a1| - 1
    requires Keeps(c0, c1, Elems(d.tl) + Elems(d.fl))
    ensures Forks(nact, c1, a1, d.tl + (if cond then [pc] else []), d.fl + (if cond then [] else [pc]), !cond,
                  e, pre, base)
  {
    hide Means, Keeps, Forks, WithBranch;
    JumpForks(nact, c0, k, a0, d, e, pre, base, c1, a1, b, !cond, cond, pc);
  }

  /** A pending comparison jumps when it is true. */
  lemma PendingForks(nact: int, code: seq<Instr>, k: seq<Value>, acts: seq<Action>, d: Desc, e: Exp,
                     pre: seq<Action>, base: nat)
    requires Means(nact, code, k, acts, d, e, pre, base) && d.kind == VJMP
    requires 0 < d.info < |code| && code[d.info - 1].Test2?
    ensures Forks(nact, code, acts, d.tl + [d.info], d.fl, false, e, pre, base)
  {
    assert forall j :: j in d.tl + [d.info] <==> j in d.tl || j == d.info;
  }

  function Negated(c: Cond): Cond {
    c.(want := !c.want)
  }

  /** What inverting the final test of the code does to an outcome. */
  function Flip(o: Outcome, j: int): Outcome {
    match o
    case Fall(S) => Exit(j, S)
    case Exit(i, S) => if i == j then Fall(S) else o
    case _ => o
  }

  lemma FlipRun(w: World, acts: seq<Action>, c: Cond, R: Regs)
    requires ActsOk(acts, |acts|)
    ensures var o := Run(w, WithBranch(acts, c), 0, R);
            o != Stuck ==> Run(w, WithBranch(acts, Negated(c)), 0, R) == Flip(o, |acts| + 1)
  {
    BranchRun(w, acts, c, R);
    BranchRun(w, acts, Negated(c), R);
  }

  /** invertjump makes a pending comparison jump when it is false. */
  lemma FlippedForks(nact: int, c0: seq<Instr>, k: seq<Value>, acts: seq<Action>, c: Cond, d: Desc, e: Exp,
                     pre: seq<Action>, base: nat, c1: seq<Instr>)
    requires Means(nact, c0, k, WithBranch(acts, c), d, e, pre, base) && ActsOk(acts, |acts|)
    requires d.kind == VJMP && d.info == |acts| + 1 == |c0| - 1 && d.info !in d.tl && d.info !in d.fl
    requires Keeps(c0, c1, Elems(d.tl) + Elems(d.fl)) && |c1| == |c0| && c1[d.info - 1].Test2?
    ensures Forks(nact, c1, WithBranch(acts, Negated(c)), d.tl, d.fl + [d.info], true, e, pre, base)
  {
    var a1, fl := WithBranch(acts, Negated(c)), d.fl + [d.info];
    assert forall j :: j in fl <==> j in d.fl || j == d.info;
    forall w: World, R: Regs | Init(R, nact)
      ensures var o0, o1 := Run(w, pre, 0, R), Run(w, a1, 0, R);
              o0 != Stuck && if o0.Fall? then ForkAt(c1, d.tl, fl, true, Eval(w, e, o0.regs), o0.regs, o1, base)
                             else o1 == o0 && (o0.Exit? ==> o0.at !in d.tl && o0.at !in fl)
    {
      FlipRun(w, acts, c, R);
      var o := Run(w, WithBranch(acts, c), 0, R);
      if o.Exit? {
        assert o.at in d.tl || o.at in d.fl ==> o.at in Elems(d.tl) + Elems(d.fl);
      }
    }
  }

  /** Relinking the members of the lists changes nothing. */
  lemma ForksRelinked(nact: int, code: seq<Instr>, code': seq<Instr>, acts: seq<Action>, tl: seq<int>,
                      fl: seq<int>, want: bool, e: Exp, pre: seq<Action>, base: nat)
    requires Forks(nact, code, acts, tl, fl, want, e, pre, base) && |code'| == |code|
    requires forall p | 0 <= p < |code| :: code'[p] == code[p] || (code'[p].Jmp? && code[p].Jmp?)
    ensures Forks(nact, code', acts, tl, fl, want, e, pre, base)
  {
    assert forall j, S: Regs, v, b | Carried(code, j, S, v, b) :: Carried(code', j, S, v, b);
  }

  /** Jumps patched without a register copy nothing. */
  lemma ArrivePlain(acts: seq<Action>, acts': seq<Action>, sites: set<int>, dest: map<int, int>, j: int, S: Regs)
    requires Patched(acts, acts', sites, dest, NO_REG) && j in sites && OpenAt(acts, j)
    ensures Arrive(acts', j, S) == S
  {
    assert PatchedAt(acts[j], acts'[j], j, sites, dest, NO_REG);
    if j > 0 {
      assert PatchedAt(acts[j - 1], acts'[j - 1], j - 1, sites, dest, NO_REG);
    }
  }

  /** Patching one list to here: a value of its truth now falls through too. */
  lemma ForksPatched(nact: int, code: seq<Instr>, acts: seq<Action>, acts': seq<Action>, tl: seq<int>,
                     fl: seq<int>, want: bool, e: Exp, pre: seq<Action>, base: nat)
    requires Forks(nact, code, acts, tl, fl, want, e, pre, base) && Elems(tl) !! Elems(fl)
    requires |acts'| == |acts|
    requires var L := if want then tl else fl; Patched(acts, acts', Elems(L), map j | j in Elems(L) :: |acts|, NO_REG)
    ensures Forks(nact, code, acts', if want then [] else tl, if want then fl else [], want, e, pre, base)
  {
    var L := if want then tl else fl;
    var dest := map j | j in Elems(L) :: |acts|;
    forall w: World, R: Regs | Init(R, nact)
      ensures var o0, o1 := Run(w, pre, 0, R), Run(w, acts', 0, R);
              o0 != Stuck && if o0.Fall? then ForkAt(code, if want then [] else tl, if want then fl else [], want,
                                                     Eval(w, e, o0.regs), o0.regs, o1, base)
                             else o1 == o0 && (o0.Exit? ==> o0.at !in (if want then [] else tl)
                                                            && o0.at !in (if want then fl else []))
    {
      PatchRun(w, acts, acts', Elems(L), dest, NO_REG, 0, R);
      var o := Run(w, acts, 0, R);
      if o.Exit? {
        assert o.at in tl ==> o.at in Elems(tl);
        assert o.at in fl ==> o.at in Elems(fl);
        if o.at in L {
          ExitInRange(w, acts, 0, R);
          ArrivePlain(acts, acts', Elems(L), dest, o.at, o.regs);
        }
      }
    }
  }

  // ---- Combining expressions ----

  /** a and b: the false exits of a join those of b. */
  lemma AndMeans(nact: int, c1: seq<Instr>, a1: seq<Action>, out: seq<int>, a: Exp, pre: seq<Action>, base: nat,
                 c2: seq<Instr>, k2: seq<Value>, a2: seq<Action>, d: Desc, b: Exp)
    requires Forks(nact, c1, a1, [], out, true, a, pre, base) && Means(nact, c2, k2, a2, d, b, a1, base)
    requires LocalsBelow(b, base) && Keeps(c1, c2, Elems(out)) && forall j | j in out :: !Owns(d, j)
    ensures Means(nact, c2, k2, a2, d.(fl := d.fl + out), And(a, b), pre, base)
  {
    hide Run;
    var d' := d.(fl := d.fl + out);
    forall w: World, R: Regs | Init(R, nact)
      ensures var o0, o := Run(w, pre, 0, R), Run(w, Before(d', a2), 0, R);
              o0 != Stuck && if o0.Fall? then Delivers(c2, k2, d', Eval(w, And(a, b), o0.regs), o0.regs, o, base)
                             else o == o0 && (o0.Exit? ==> !Owns(d', o0.at))
    {
      var o0, o1 := Run(w, pre, 0, R), Run(w, a1, 0, R);
      if o0.Fall? && o1.Fall? {
        EvalAgree(w, b, o0.regs, o1.regs, base);
      } else if o0.Fall? && o1.Exit? {
        assert o1.at in Elems(out) && o1.at in d'.fl;
      }
    }
  }

  /** a or b: the true exits of a join those of b. */
  lemma OrMeans(nact: int, c1: seq<Instr>, a1: seq<Action>, out: seq<int>, a: Exp, pre: seq<Action>, base: nat,
                c2: seq<Instr>, k2: seq<Value>, a2: seq<Action>, d: Desc, b: Exp)
    requires Forks(nact, c1, a1, out, [], false, a, pre, base) && Means(nact, c2, k2, a2, d, b, a1, base)
    requires LocalsBelow(b, base) && Keeps(c1, c2, Elems(out)) && forall j | j in out :: !Owns(d, j)
    ensures Means(nact, c2, k2, a2, d.(tl := d.tl + out), Or(a, b), pre, base)
  {
    hide Run;
    var d' := d.(tl := d.tl + out);
    forall w: World, R: Regs | Init(R, nact)
      ensures var o0, o := Run(w, pre, 0, R), Run(w, Before(d', a2), 0, R);
              o0 != Stuck && if o0.Fall? then Delivers(c2, k2, d', Eval(w, Or(a, b), o0.regs), o0.regs, o, base)
                             else o == o0 && (o0.Exit? ==> !Owns(d', o0.at))
    {
      var o0, o1 := Run(w, pre, 0, R), Run(w, a1, 0, R);
      if o0.Fall? && o1.Fall? {
        EvalAgree(w, b, o0.regs, o1.regs, base);
      } else if o0.Fall? && o1.Exit? {
        assert o1.at in Elems(out) && o1.at in d'.tl;
      }
    }
  }

  /** not e, when the value of e is negated at the end and no exit carries a value. */
  lemma NotMeans(nact: int, c0: seq<Instr>, k: seq<Value>, a0: seq<Action>, d: Desc, e: Exp, pre: seq<Action>,
                 base: nat, c1: seq<Instr>, a1: seq<Action>, d': Desc)
    requires Means(nact, c0, k, a0, d, e, pre, base) && d.kind != VJMP && d'.kind != VJMP
    requires d'.tl == d.fl && d'.fl == d.tl && Before(d', a1) == Before(d, a0)
    requires forall S: Regs, v | FallOk(c0, k, d, S, v) :: FallOk(c1, k, d', S, Bool(!Truthy(v)))
    requires forall j | j in d.tl || j in d.fl :: 0 < j < |c1| && !c1[j - 1].TestSet?
    ensures Means(nact, c1, k, a1, d', Not(e), pre, base)
  {
    forall w: World, R: Regs | Init(R, nact)
      ensures var o0, o := Run(w, pre, 0, R), Run(w, Before(d', a1), 0, R);
              o0 != Stuck && if o0.Fall? then Delivers(c1, k, d', Eval(w, Not(e), o0.regs), o0.regs, o, base)
                             else o == o0 && (o0.Exit? ==> !Owns(d', o0.at))
    {
    }
  }

  /** not e, when e is a pending comparison, which is inverted. */
  lemma NotPending(nact: int, c0: seq<Instr>, k: seq<Value>, acts: seq<Action>, c: Cond, d: Desc, e: Exp,
                   pre: seq<Action>, base: nat, c1: seq<Instr>, d': Desc)
    requires Means(nact, c0, k, WithBranch(acts, c), d, e, pre, base) && ActsOk(acts, |acts|)
    requires d.kind == VJMP && d.info == |acts| + 1 && d.info !in d.tl && d.info !in d.fl
    requires d' == d.(tl := d.fl, fl := d.tl)
    requires forall j | j in d.tl || j in d.fl :: 0 < j < |c1| && !c1[j - 1].TestSet?
    ensures Means(nact, c1, k, WithBranch(acts, Negated(c)), d', Not(e), pre, base)
  {
    var a1 := WithBranch(acts, Negated(c));
    forall w: World, R: Regs | Init(R, nact)
      ensures var o0, o := Run(w, pre, 0, R), Run(w, Before(d', a1), 0, R);
              o0 != Stuck && if o0.Fall? then Delivers(c1, k, d', Eval(w, Not(e), o0.regs), o0.regs, o, base)
                             else o == o0 && (o0.Exit? ==> !Owns(d', o0.at))
    {
      FlipRun(w, acts, c, R);
    }
  }

  // ---- Comparisons ----

  /** The instruction, the condition of its jump and whether the operands change places (codecomp). */
  function Encoding(op: Relation): (CompareOp, bool, bool) {
    match op
    case EQ => (OpEq, true, false)
    case NE => (OpEq, false, false)
    case LT => (OpLt, true, false)
    case LE => (OpLe, true, false)
    case GT => (OpLt, true, true)
    case GE => (OpLe, true, true)
  }

  function CompareCond(op: Relation, x: Operand, y: Operand): Cond {
    var (cmp, want, swap) := Encoding(op);
    if swap then Cmp(cmp, want, y, x) else Cmp(cmp, want, x, y)
  }

  /** Operand x stands for every value that d can deliver. */
  ghost predicate OperandFor(code: seq<Instr>, k: seq<Value>, d: Desc, x: Operand) {
    && d.tl == d.fl == [] && d.kind != VJMP && d.kind != VRELOCABLE
    && forall S: Regs, v | FallOk(code, k, d, S, v) :: OperandValue(S, x) == Some(v)
  }

  /** a op b: both operands, the first kept below the registers of the second, and a test of them. */
  lemma CompareMeans(nact: int, c1: seq<Instr>, k1: seq<Value>, a1: seq<Action>, d1: Desc, x: Operand, a: Exp,
                     pre: seq<Action>, base: nat, c2: seq<Instr>, k2: seq<Value>, a2: seq<Action>, d2: Desc, y: Operand,
                     b: Exp, base2: nat, op: Relation, c3: seq<Instr>, k3: seq<Value>, d3: Desc)
    requires Means(nact, c1, k1, a1, d1, a, pre, base) && OperandFor(c1, k1, d1, x)
    requires Means(nact, c2, k2, a2, d2, b, a1, base2) && OperandFor(c2, k2, d2, y)
    requires base <= base2 && LocalsBelow(b, base) && (x.Reg? ==> 0 <= x.r < base2)
    requires d3.kind == VJMP && d3.info == |a2| + 1 && d3.tl == d3.fl == []
    ensures Means(nact, c3, k3, WithBranch(a2, CompareCond(op, x, y)), d3, Compare(op, a, b), pre, base)
  {
    hide Run;
    var c := CompareCond(op, x, y);
    var a3 := WithBranch(a2, c);
    forall w: World, R: Regs | Init(R, nact)
      ensures var o0, o := Run(w, pre, 0, R), Run(w, Before(d3, a3), 0, R);
              o0 != Stuck && if o0.Fall? then Delivers(c3, k3, d3, Eval(w, Compare(op, a, b), o0.regs), o0.regs, o,
                                                       base)
                             else o == o0 && (o0.Exit? ==> !Owns(d3, o0.at))
    {
      BranchRun(w, a2, c, R);
      var o0, o1, o2 := Run(w, pre, 0, R), Run(w, a1, 0, R), Run(w, a2, 0, R);
      if o0.Fall? && o1.Fall? {
        EvalAgree(w, b, o0.regs, o1.regs, base);
        if o2.Fall? {
          assert OperandValue(o2.regs, x) == OperandValue(o1.regs, x);
        }
      }
    }
  }
}
