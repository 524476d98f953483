/** The code generator for boolean and comparison expressions (lcode.c). */
module CodeGen {
  import opened BoolCode
  import opened BoolMeaning
  import opened BoolTests

  datatype CompileError = TooComplex | JumpTooLong | TooManyConstants

  /** An error raised by the compiler abandons the compilation: it propagates to the top. */
  datatype Status = Compiled | Failed(error: CompileError) {
    predicate IsFailure() {
      Failed?
    }
    function PropagateFailure(): Status
      requires Failed?
    {
      this
    }
  }

  /** expdesc, with the members of its patch lists. */
  class ExpDesc {
    var kind: ExpKind
    var info: int
    var nval: Value
    var t: int
    var f: int
    ghost var tl: seq<int>
    ghost var fl: seq<int>

    ghost function View(): Desc
      reads this
    {
      Desc(kind, info, nval, tl, fl)
    }

    /** init_exp. */
    constructor (kind: ExpKind, info: int, nval: Value)
      ensures View() == Desc(kind, info, nval, [], []) && t == f == NO_JUMP
    {
      this.kind, this.info, this.nval := kind, info, nval;
      t, f, tl, fl := NO_JUMP, NO_JUMP, [], [];
    }

    /** The structure assignment of luaK_posfix. */
    method Assign(e: ExpDesc)
      modifies this
      ensures View() == old(e.View()) && t == old(e.t) && f == old(e.f)
    {
      kind, info, nval, t, f, tl, fl := e.kind, e.info, e.nval, e.t, e.f, e.tl, e.fl;
    }
  }

  /** The registers that an expression may need at once. */
  function Depth(e: Exp): (d: nat)
    ensures d >= 1
  {
    match e
    case Const(_) => 1
    case Local(_) => 1
    case Paren(x) => Depth(x)
    case Not(x) => Depth(x)
    case And(a, b) => var (m, n) := (Depth(a), Depth(b)); if m < n then n else m
    case Or(a, b) => var (m, n) := (Depth(a), Depth(b)); if m < n then n else m
    case Compare(_, a, b) => var (m, n) := (Depth(a), 1 + Depth(b)); if m < n then n else m
  }

  lemma DepthParts(e: Exp, a: Exp, b: Exp)
    requires e == And(a, b) || e == Or(a, b)
    ensures Depth(a) <= Depth(e) && Depth(b) <= Depth(e)
  {
  }

  lemma CompareParts(op: Relation, a: Exp, b: Exp)
    ensures Depth(a) <= Depth(Compare(op, a, b)) && 1 + Depth(b) <= Depth(Compare(op, a, b))
  {
  }

  /** The operand that luaK_exp2RK makes of d. */
  function OperandOfDesc(k: seq<Value>, d: Desc): Operand {
    if d.kind == VK && 0 <= d.info < |k| then Lit(k[d.info]) else Reg(d.info)
  }

  /** Description d1 with code c1 stands for the negation of d0 with c0, the exits apart: a pending
      comparison (a test c after acts) is inverted, any other value is negated at the end. */
  ghost predicate Negation(c0: seq<Instr>, k: seq<Value>, a0: seq<Action>, d0: Desc, c1: seq<Instr>, a1: seq<Action>,
                           d1: Desc, acts: seq<Action>, c: Cond) {
    && d1.tl == d0.tl && d1.fl == d0.fl
    && if d0.kind == VJMP then
         && d1 == d0 && a0 == WithBranch(acts, c) && a1 == WithBranch(acts, Negated(c))
         && ActsOk(acts, |acts|) && d0.info == |acts| + 1
       else
         && d1.kind != VJMP && Before(d1, a1) == Before(d0, a0)
         && forall S: Regs, v | FallOk(c0, k, d0, S, v) :: FallOk(c1, k, d1, S, Bool(!Truthy(v)))
  }

  /** The pending jumps of a descriptor. */
  ghost function OwnedBy(d: Desc): set<int> {
    Elems(d.tl) + Elems(d.fl) + if d.kind == VJMP then {d.info} else {}
  }

  /** The jump of a pending comparison. */
  ghost function JumpOf(e: ExpDesc): set<int>
    reads e
  {
    if e.kind == VJMP then {e.info} else {}
  }

  /** Code that differs only in the links of the jumps L. */
  ghost predicate Relinked(code: seq<Instr>, code': seq<Instr>, L: seq<int>) {
    && |code'| == |code|
    && forall p | 0 <= p < |code| :: code'[p] == code[p] || (p in L && code'[p].Jmp? && code[p].Jmp?)
  }

  /** The constant that luaK_exp2RK enters for a constant expression. */
  function ConstantOf(kind: ExpKind, nval: Value): Value {
    if kind == VNIL then Nil else if kind == VKNUM then nval else Bool(kind == VTRUE)
  }

  /** Code, patch lists and labels: pending jumps are the jumps of tests, no action is meaningless,
      and no resolved jump or skip goes past lasttarget. */
  ghost predicate CodeOk(code: seq<Instr>, k: seq<Value>, open: set<int>, jpc: int, here: seq<int>, lasttarget: int) {
    && -1 <= lasttarget <= |code|
    && IsList(code, jpc, here)
    && open !! Elems(here)
    && Controlled(code, open)
    && (here != [] ==> lasttarget == |code|)
    && ActsOk(ActsOf(k, code, open, Elems(here)), lasttarget)
  }

  /** Every jump of the list has a TESTSET that carries its value. */
  ghost predicate CarriesAll(code: seq<Instr>, L: seq<int>) {
    forall i | 0 <= i < |L| :: 0 < L[i] <= |code| && code[L[i] - 1].TestSet?
  }

  lemma PatchNobody(code: seq<Instr>, vt: int, reg: int, dt: int)
    ensures PatchedCode(code, {}, vt, reg, dt) == code
  {
  }

  lemma PatchStep(code: seq<Instr>, L: seq<int>, i: nat, vt: int, reg: int, dt: int)
    requires Distinct(L) && i < |L|
    requires forall j | 0 <= j < |L| :: 0 <= L[j] < |code| && code[L[j]].Jmp?
    ensures var c, l := PatchedCode(code, Elems(L[..i]), vt, reg, dt), L[i];
            && c[l] == code[l]
            && (l > 0 ==> c[l - 1].TestSet? == code[l - 1].TestSet?)
            && (l > 0 && !code[l - 1].Jmp? ==> c[l - 1] == code[l - 1])
            && forall p | 0 <= p < |code| ::
                 PatchedCode(code, Elems(L[..i + 1]), vt, reg, dt)[p]
                 == if p == l then Jmp((if l > 0 && code[l - 1].TestSet? then vt else dt) - (l + 1))
                    else if p == l - 1 then PatchControl(c[p], reg) else c[p]
  {
    var l := L[i];
    assert forall x :: x in Elems(L[..i + 1]) <==> x in Elems(L[..i]) || x == l;
    assert l !in Elems(L[..i]);
    assert forall x | x in Elems(L[..i]) :: 0 <= x < |code| && code[x].Jmp?;
  }

  /** Discharging the waiting jumps keeps everything in order. */
  lemma DischargeOk(k: seq<Value>, code: seq<Instr>, open: set<int>, jpc: int, here: seq<int>, lasttarget: int)
    requires CodeOk(code, k, open, jpc, here, lasttarget)
    ensures var c1 := PatchedCode(code, Elems(here), |code|, NO_REG, |code|);
            && ActsOf(k, c1, open, {}) == ActsOf(k, code, open, Elems(here))
            && Keeps(code, c1, open)
            && Controlled(c1, open)
            && (|c1| > 0 ==> !IsTest(c1[|c1| - 1]))
  {
    DischargeActs(k, code, open, Elems(here));
    var c1 := PatchedCode(code, Elems(here), |code|, NO_REG, |code|);
    if |c1| > 0 {
      var p := |c1| - 1;
      assert ActsOf(k, code, open, Elems(here))[p] != Broken;
    }
  }

  lemma ActsOkAppend(acts: seq<Action>, more: seq<Action>, limit: int)
    requires ActsOk(acts, limit)
    requires forall p | 0 <= p < |more| :: more[p] != Broken && TargetOk(more[p], |acts| + p, limit)
    ensures ActsOk(acts + more, limit)
  {
  }

  lemma ActsBranch(k: seq<Value>, code: seq<Instr>, i: Instr, open: set<int>)
    requires IsTest(i) && forall j | j in open :: j < |code|
    requires |code| > 0 ==> !IsTest(code[|code| - 1])
    ensures ActsOf(k, code + [i, Jmp(NO_JUMP)], open + {|code| + 1}, {})
            == ActsOf(k, code, open, {}) + [BranchOf(k, i, true, Open), JumpWord]
  {
    var c' := code + [i, Jmp(NO_JUMP)];
    var a, a' := ActsOf(k, code, open, {}), ActsOf(k, c', open + {|code| + 1}, {});
    forall p | 0 <= p < |code|
      ensures a'[p] == a[p]
    {
    }
  }

  lemma PatchHereOk(k: seq<Value>, code: seq<Instr>, code': seq<Instr>, open: set<int>, here: seq<int>, L: seq<int>,
                    lasttarget: int)
    requires open !! Elems(here) && Elems(L) <= open && Controlled(code, open)
    requires ActsOk(ActsOf(k, code, open, Elems(here)), lasttarget) && lasttarget <= |code| == |code'|
    requires forall p | 0 <= p < |code| :: code'[p] == code[p] || (p in here && code'[p].Jmp? && code[p].Jmp?)
    ensures var a, a' := ActsOf(k, code, open, Elems(here)), ActsOf(k, code', open - Elems(L), Elems(here + L));
            && Patched(a, a', Elems(L), map j | j in Elems(L) :: |code|, NO_REG)
            && ActsOk(a', |code|)
    ensures open - Elems(L) !! Elems(here + L)
    ensures Keeps(code, code', open - Elems(L)) && Controlled(code', open - Elems(L))
  {
    assert Elems(here + L) == Elems(here) + Elems(L) by {
      assert forall x :: x in here + L <==> x in here || x in L;
    }
    var a, a' := ActsOf(k, code, open, Elems(here)), ActsOf(k, code', open - Elems(L), Elems(here + L));
    forall p | 0 <= p < |code|
      ensures PatchedAt(a[p], a'[p], p, Elems(L), map j | j in Elems(L) :: |code|, NO_REG)
      ensures a'[p] != Broken && TargetOk(a'[p], p, |code|)
    {
      assert a[p] != Broken && TargetOk(a[p], p, lasttarget);
    }
  }

  lemma SingleJump(code: seq<Instr>, j: nat)
    requires j < |code| && code[j] == Jmp(NO_JUMP)
    ensures IsList(code, j, [j])
  {
    assert JumpTo(code, j) == NO_JUMP;
  }

  lemma NoList(code: seq<Instr>, jpc: int, fj: int)
    requires fj == NO_JUMP
    ensures IsList(code, fj, [])
    ensures IsList(code, jpc, []) ==> jpc == NO_JUMP
  {
  }

  /** The loads of booleans, after a jump over them or after the jump of a comparison. */
  lemma BoolTailShape(c0: seq<Instr>, c1: seq<Instr>, c2: seq<Instr>, here: seq<int>, L: seq<int>, fj: int, reg: int,
                      isJump: bool)
    requires c2 == c1 + BoolTail(reg) && IsList(c1, fj, L)
    requires if isJump then c1 == c0 && L == here == []
             else |c1| == |c0| + 1 && c1[..|c0|] == c0 && c1[|c0|].Jmp? && L == [|c0|] + here
    ensures IsList(c2, fj, L) && |c2| == |c0| + (if isJump then 2 else 3) && c2[..|c0|] == c0
    ensures var n := |c1|; TailOk(c0, c2[|c0|..], Elems(here), Elems(L), reg, n, n + 1)
  {
    ListKept(c1, c2, fj, L);
    assert c2[|c0|..] == c1[|c0|..] + BoolTail(reg);
    assert Elems(L) == if isJump then {} else Elems(here) + {|c0|} by {
      if !isJump {
        assert forall x :: x in L <==> x == |c0| || x in here;
      }
    }
    if !isJump {
      assert c2[|c0|..][1..] == BoolTail(reg);
    }
  }

  lemma SameHead(code: seq<Instr>, t: int, f: int, T: seq<int>, F: seq<int>)
    requires IsList(code, t, T) && IsList(code, f, F) && Elems(T) !! Elems(F)
    ensures t == f <==> T == F == []
  {
    if T != [] && F != [] {
      assert T[0] in Elems(T) && F[0] in Elems(F);
    }
  }

  lemma PatchedNone(code: seq<Instr>, reg: int, pf: int, pt: int)
    ensures FinalCode(code, [], {}, {}, reg, pf, pt) == code
  {
    assert code + [] == code;
    assert PatchedCode(code, {}, |code|, reg, pf) == code;
    assert PatchedCode(code, {}, |code|, reg, pt) == code;
  }

  lemma TailNone(code: seq<Instr>, here: seq<int>, reg: int, pf: int, pt: int)
    ensures TailOk(code, [], Elems(here), Elems(here), reg, pf, pt)
  {
  }

  lemma ListExtended(code: seq<Instr>, tail: seq<Instr>, t: int, T: seq<int>)
    requires IsList(code, t, T)
    ensures IsList(code + tail, t, T)
  {
    ListKept(code, code + tail, t, T);
  }

  lemma CarriesPatched(code: seq<Instr>, vt: int, reg: int, dt: int, L: seq<int>, F: seq<int>)
    requires CarriesAll(code, L) && Elems(L) !! Elems(F) && Controlled(code, Elems(F))
    requires forall j | j in Elems(L) :: j < |code|
    ensures CarriesAll(PatchedCode(code, Elems(F), vt, reg, dt), L)
  {
    assert forall i | 0 <= i < |L| :: L[i] in Elems(L);
  }

  lemma ListPatched(code: seq<Instr>, vt: int, reg: int, dt: int, t: int, T: seq<int>, F: set<int>)
    requires IsList(code, t, T) && Elems(T) !! F
    ensures IsList(PatchedCode(code, F, vt, reg, dt), t, T)
  {
    var code' := PatchedCode(code, F, vt, reg, dt);
    forall j | j in T
      ensures j < |code'| && code'[j] == code[j]
    {
      assert j in Elems(T);
    }
    ListKept(code, code', t, T);
  }

  lemma JumpIsList(code: seq<Instr>, j: int)
    requires 0 <= j < |code| && code[j] == Jmp(NO_JUMP)
    ensures IsList(code, j, [j])
  {
    assert JumpTo(code, j) == NO_JUMP;
  }

  lemma ListRelinked(code: seq<Instr>, code': seq<Instr>, L: seq<int>, f: int, F: seq<int>)
    requires Relinked(code, code', L) && IsList(code, f, F) && Elems(L) !! Elems(F)
    ensures IsList(code', f, F)
  {
    forall j | j in F
      ensures j < |code'| && code'[j] == code[j]
    {
      assert j in Elems(F);
    }
    ListKept(code, code', f, F);
  }

  lemma CodeRelinked(code: seq<Instr>, code': seq<Instr>, k: seq<Value>, open: set<int>, jpc: int, here: seq<int>,
                     lasttarget: int, L: seq<int>)
    requires CodeOk(code, k, open, jpc, here, lasttarget) && Relinked(code, code', L) && Elems(L) <= open
    ensures CodeOk(code', k, open, jpc, here, lasttarget)
    ensures ActsOf(k, code', open, Elems(here)) == ActsOf(k, code, open, Elems(here))
  {
    hide IsList;
    assert forall p | p in L :: p in Elems(L);
    ActsRelinked(k, code, code', open, Elems(here));
    ListRelinked(code, code', L, jpc, here);
  }

  lemma MeansRelinked(nact: int, code: seq<Instr>, code': seq<Instr>, k: seq<Value>, acts: seq<Action>,
                      d: Desc, e: Exp, pre: seq<Action>, base: nat, L: seq<int>)
    requires Means(nact, code, k, acts, d, e, pre, base) && Relinked(code, code', L)
    ensures Means(nact, code', k, acts, d, e, pre, base)
  {
    forall w: World, R: Regs | Init(R, nact)
      ensures var o0, o := Run(w, pre, 0, R), Run(w, Before(d, acts), 0, R);
              o0 != Stuck && if o0.Fall? then Delivers(code', k, d, Eval(w, e, o0.regs), o0.regs, o, base)
                             else o == o0 && (o0.Exit? ==> !Owns(d, o0.at))
    {
    }
  }

  /** The members of the list of true exits once a pending comparison has joined them. */
  function TrueExits(d: Desc): seq<int> {
    d.tl + if d.kind == VJMP then [d.info] else []
  }

  /** What FinalOk asks of the code before the patch holds of valid code. */
  lemma FinalReady(code: seq<Instr>, k: seq<Value>, open: set<int>, jpc: int, here: seq<int>, lasttarget: int, d: Desc,
                   T: seq<int>)
    requires CodeOk(code, k, open, jpc, here, lasttarget)
    requires Elems(T) <= open && Elems(d.fl) <= open
    ensures forall j | j in Elems(here) :: 0 <= j < |code| && code[j].Jmp?
    ensures |code| > 0 ==> !IsTest(code[|code| - 1])
    ensures Controlled(code, Elems(T)) && Controlled(code, Elems(d.fl)) && IsList(code, jpc, here)
  {
    if |code| > 0 {
      assert ActsOf(k, code, open, Elems(here))[|code| - 1] != Broken;
    }
  }

  /** The code c3 after the final patch, from the code c0 before it. */
  ghost predicate FinalPatch(c0: seq<Instr>, c1: seq<Instr>, d: Desc, T: seq<int>, tail: seq<Instr>, here0: seq<int>,
                             lt0: int, c3: seq<Instr>, jpc: int, here: seq<int>, lt: int, reg: int, pf: int, pt: int) {
    && Relinked(c0, c1, T)
    && c3 == FinalCode(c1, tail, Elems(d.fl), Elems(T), reg, pf, pt)
    && TailOk(c1, tail, Elems(here0), Elems(here), reg, pf, pt)
    && (if d.kind == VJMP then tail == BoolTail(reg) else tail == [] || |tail| == 3)
    && (tail == [] ==> forall j | j in Elems(d.fl) + Elems(T) :: 0 < j < |c1| && c1[j - 1].TestSet?)
    && IsList(c1 + tail, jpc, here)
    && (lt == |c3| || (T == d.fl == [] && tail == [] && lt == lt0 && here == here0 && c3 == c1))
  }

  lemma FinalCodeOk(c0: seq<Instr>, k: seq<Value>, open: set<int>, jpc0: int, here0: seq<int>, lt0: int, d: Desc,
                    T: seq<int>, tail: seq<Instr>, jpc: int, here: seq<int>, lt: int, reg: int, pf: int, pt: int)
    requires CodeOk(c0, k, open, jpc0, here0, lt0)
    requires FinalOk(c0, open, Elems(here0), d, Elems(T), tail, Elems(here), reg, pf, pt)
    requires IsList(c0 + tail, jpc, here)
    requires var c3 := FinalCode(c0, tail, Elems(d.fl), Elems(T), reg, pf, pt);
             lt == |c3| || (T == d.fl == [] && tail == [] && lt == lt0 && here == here0 && c3 == c0)
    ensures var c3 := FinalCode(c0, tail, Elems(d.fl), Elems(T), reg, pf, pt);
            && CodeOk(c3, k, open - Elems(d.fl) - Elems(T), jpc, here, lt)
            && Keeps(c0, c3, open - Elems(d.fl) - Elems(T))
  {
    hide FinalCode, ActsOf, ActsOk;
    var c3, open' := FinalCode(c0, tail, Elems(d.fl), Elems(T), reg, pf, pt), open - Elems(d.fl) - Elems(T);
    FinalKeeps(c0, open, Elems(here0), d, Elems(T), tail, Elems(here), reg, pf, pt);
    FinalOrder(k, c0, open, Elems(here0), d, Elems(T), tail, Elems(here), reg, pf, pt, lt0);
    assert Elems(here) !! open;
    forall j | j in here
      ensures j < |c3| && c3[j] == (c0 + tail)[j]
    {
      assert j in Elems(here);
    }
    ListKept(c0 + tail, c3, jpc, here);
    if lt != |c3| {
      assert open' == open;
    }
  }

  lemma KeepsRelinked(c0: seq<Instr>, c1: seq<Instr>, open: set<int>, T: seq<int>, kept: set<int>)
    requires Relinked(c0, c1, T) && Controlled(c0, open) && kept <= open && kept !! Elems(T)
    ensures Keeps(c0, c1, kept)
  {
  }

  lemma FinalDone(nact: int, c0: seq<Instr>, c1: seq<Instr>, k: seq<Value>, open: set<int>, jpc0: int,
                  here0: seq<int>, lt0: int, d: Desc, T: seq<int>, tail: seq<Instr>, c3: seq<Instr>, jpc: int,
                  here: seq<int>, lt: int, reg: int, pf: int, pt: int, e: Exp, pre: seq<Action>, base: nat)
    requires CodeOk(c0, k, open, jpc0, here0, lt0) && T == TrueExits(d)
    requires Means(nact, c0, k, ActsOf(k, c0, open, Elems(here0)), d, e, pre, base)
    requires Elems(d.tl) !! Elems(d.fl) && Elems(d.tl) <= open && Elems(d.fl) <= open && base <= reg && IsReg(reg)
    requires match d.kind
             case VNONRELOC => d.info == reg
             case VJMP => here0 == [] && 0 < d.info < |c0| && d.info in open && d.info !in d.fl && c0[d.info - 1].Test2?
             case _ => false
    requires FinalPatch(c0, c1, d, T, tail, here0, lt0, c3, jpc, here, lt, reg, pf, pt)
    ensures var open' := open - Elems(d.fl) - Elems(T);
            && CodeOk(c3, k, open', jpc, here, lt)
            && Keeps(c0, c3, open')
            && Means(nact, c3, k, ActsOf(k, c3, open', Elems(here)), Desc(VNONRELOC, reg, d.nval, [], []), e, pre, base)
  {
    hide FinalCode, Means, TailOk, ActsOf;
    assert Elems(T) == Elems(d.tl) + if d.kind == VJMP then {d.info} else {};
    CodeRelinked(c0, c1, k, open, jpc0, here0, lt0, T);
    MeansRelinked(nact, c0, c1, k, ActsOf(k, c0, open, Elems(here0)), d, e, pre, base, T);
    FinalReady(c1, k, open, jpc0, here0, lt0, d, T);
    FinalCodeOk(c1, k, open, jpc0, here0, lt0, d, T, tail, jpc, here, lt, reg, pf, pt);
    FinalMeans(nact, k, c1, open, Elems(here0), d, Elems(T), tail, Elems(here), reg, pf, pt, e, pre, base);
    KeepsRelinked(c0, c1, open, T, open - Elems(d.fl) - Elems(T));
  }

  /** The same for a descriptor, whose lists are empty afterwards. */
  lemma DescDone(nact: int, c0: seq<Instr>, c1: seq<Instr>, k: seq<Value>, open: set<int>, jpc0: int,
                 here0: seq<int>, lt0: int, d: Desc, t: int, f: int, tail: seq<Instr>, c3: seq<Instr>, jpc: int,
                 here: seq<int>, lt: int, reg: int, pf: int, pt: int, e: Exp, pre: seq<Action>, base: nat, freereg: int)
    requires CodeOk(c0, k, open, jpc0, here0, lt0) && DescOk(c0, k, open, here0, lt0, nact, freereg, d, t, f)
    requires Means(nact, c0, k, ActsOf(k, c0, open, Elems(here0)), d, e, pre, base)
    requires base <= reg < freereg && IsReg(reg) && (d.kind == VJMP || (d.kind == VNONRELOC && d.info == reg))
    requires FinalPatch(c0, c1, d, TrueExits(d), tail, here0, lt0, c3, jpc, here, lt, reg, pf, pt)
    ensures var open' := open - Elems(d.fl) - Elems(TrueExits(d));
            var d' := Desc(VNONRELOC, reg, d.nval, [], []);
            && CodeOk(c3, k, open', jpc, here, lt) && Keeps(c0, c3, open')
            && DescOk(c3, k, open', here, lt, nact, freereg, d', NO_JUMP, NO_JUMP)
            && Means(nact, c3, k, ActsOf(k, c3, open', Elems(here)), d', e, pre, base)
  {
    hide ActsOf, CodeOk, FinalPatch, Keeps, Means;
    FinalDone(nact, c0, c1, k, open, jpc0, here0, lt0, d, TrueExits(d), tail, c3, jpc, here, lt, reg, pf, pt, e, pre,
              base);
  }

  lemma PendingJump(c0: seq<Instr>, c1: seq<Instr>, d: Desc, T: seq<int>)
    requires Relinked(c0, c1, T) && T == TrueExits(d) && d.kind == VJMP && 0 < d.info < |c0| && c0[d.info - 1].Test2?
    ensures !CarriesAll(c1, T)
  {
    assert T[|d.tl|] == d.info;
  }

  lemma KeepsSelf(code: seq<Instr>, k: seq<Value>, open: set<int>, jpc: int, here: seq<int>, lasttarget: int)
    requires CodeOk(code, k, open, jpc, here, lasttarget)
    ensures Keeps(code, code, open)
  {
  }

  lemma KeepsTwice(c0: seq<Instr>, c1: seq<Instr>, c2: seq<Instr>, open1: set<int>, open: set<int>)
    requires Keeps(c0, c1, open1) && Keeps(c1, c2, open) && open <= open1
    ensures Keeps(c0, c2, open)
  {
  }

  /** Taking the pending comparison off the end of the code. */
  lemma LastBranch(k: seq<Value>, code: seq<Instr>, open: set<int>, lasttarget: int) returns (a0: seq<Action>, c: Cond)
    requires |code| >= 2 && code[|code| - 1] == Jmp(NO_JUMP) && code[|code| - 2].Test2? && |code| - 1 in open
    requires lasttarget <= |code| - 2 && Controlled(code, open) && ActsOk(ActsOf(k, code, open, {}), lasttarget)
    ensures var c0, open0 := code[..|code| - 2], open - {|code| - 1};
            && a0 == ActsOf(k, c0, open0, {}) && BranchOf(k, code[|code| - 2], true, Open) == Branch(c, -1, Open)
            && ActsOf(k, code, open, {}) == WithBranch(a0, c)
            && (|c0| > 0 ==> !IsTest(c0[|c0| - 1]))
            && (forall j | j in open0 :: j < |c0|)
            && ActsOk(a0, |a0|) && ActsOk(a0, lasttarget)
  {
    var c0, open0, a := code[..|code| - 2], open - {|code| - 1}, ActsOf(k, code, open, {});
    assert code == c0 + [code[|code| - 2], Jmp(NO_JUMP)];
    assert open0 + {|c0| + 1} == open;
    a0 := ActsOf(k, c0, open0, {});
    if |c0| > 0 {
      assert a[|c0| - 1] != Broken && code[|c0|] == code[|code| - 2];
    }
    ActsBranch(k, c0, code[|code| - 2], open0);
    assert a[|c0|] != Broken;
    c := a[|c0|].c;
    forall p | 0 <= p < |a0|
      ensures a0[p] != Broken && TargetOk(a0[p], p, |a0|) && TargetOk(a0[p], p, lasttarget)
    {
      assert a0[p] == a[p];
    }
  }

  /** Changing the test of the jump after it leaves the lists alone. */
  lemma NotJumpSet(code: seq<Instr>, code': seq<Instr>, i: nat, open: set<int>, t: int, L: seq<int>)
    requires i < |code| == |code'| && !code[i].Jmp? && IsTest(code'[i]) && code' == code[i := code'[i]]
    requires Controlled(code, open) && IsList(code, t, L)
    ensures IsList(code', t, L) && Controlled(code', open) && Keeps(code, code', open - {i + 1})
  {
    ListKept(code, code', t, L);
  }

  lemma ListShortened(code: seq<Instr>, t: int, L: seq<int>)
    requires |code| > 0 && !code[|code| - 1].Jmp? && IsList(code, t, L)
    ensures IsList(code[..|code| - 1], t, L)
  {
    ListKept(code, code[..|code| - 1], t, L);
  }

  lemma ListsKept(c0: seq<Instr>, c1: seq<Instr>, open: set<int>, t: int, L: seq<int>)
    requires Keeps(c0, c1, open) && Elems(L) <= open && IsList(c0, t, L)
    ensures IsList(c1, t, L)
  {
    forall j | j in L
      ensures j < |c1| && c1[j] == c0[j]
    {
      assert j in Elems(L);
    }
    ListKept(c0, c1, t, L);
  }

  lemma KeepsThrice(c0: seq<Instr>, c1: seq<Instr>, c2: seq<Instr>, c3: seq<Instr>, s1: set<int>, s2: set<int>,
                    s3: set<int>, rest: set<int>)
    requires Keeps(c0, c1, s1) && Keeps(c1, c2, s2) && Keeps(c2, c3, s3) && rest <= s1 && rest <= s2 && rest <= s3
    ensures Keeps(c0, c3, rest)
  {
  }

  /** The pending jumps once the jumps P leave by the list `out` and those of `back` have arrived. */
  lemma DescSets(code: seq<Instr>, k: seq<Value>, open: set<int>, here: seq<int>, lasttarget: int, nactvar: int,
                 freereg: int, d: Desc, t: int, f: int)
    requires DescOk(code, k, open, here, lasttarget, nactvar, freereg, d, t, f)
    ensures var J := if d.kind == VJMP then {d.info} else {};
            && J <= open && Elems(d.tl) <= open - J && Elems(d.fl) <= open - J && Elems(d.tl) !! Elems(d.fl)
            && OwnedBy(d) == Elems(d.tl) + Elems(d.fl) + J
  {
  }

  lemma ForkSets(open0: set<int>, J: set<int>, P: seq<int>, back: seq<int>, out: seq<int>)
    requires Elems(back) <= open0 - J && Elems(out) <= open0 - J && Elems(back) !! Elems(out)
    requires J <= open0 && J <= Elems(P) && Elems(P) !! open0 - J
    ensures var rest := open0 - (Elems(back) + Elems(out) + J);
            && Elems(out + P) == Elems(out) + Elems(P)
            && open0 + Elems(P) - Elems(back) == rest + Elems(out + P)
            && Elems(out + P) !! rest && rest <= open0 + Elems(P) - Elems(out) && rest <= open0 - J
            && Elems(P) !! Elems(back) + Elems(out)
            && Elems(out + P) <= open0 + Elems(P) && Elems(back) !! Elems(out + P)
  {
    assert forall x :: x in out + P <==> x in out || x in P;
  }

  lemma KeepsLess(c0: seq<Instr>, c1: seq<Instr>, open: set<int>, open': set<int>)
    requires Keeps(c0, c1, open) && open' <= open
    ensures Keeps(c0, c1, open')
  {
  }

  lemma ClearStep(code: seq<Instr>, L: seq<int>, i: nat)
    requires Distinct(L) && i < |L|
    requires forall j | 0 <= j < |L| :: 0 <= L[j] < |code| && code[L[j]].Jmp?
    ensures var c, l := ClearedCode(code, Elems(L[..i])), L[i];
            && c[l] == code[l]
            && forall p | 0 <= p < |code| ::
                 ClearedCode(code, Elems(L[..i + 1]))[p] == if p == l - 1 then PatchControl(c[p], NO_REG) else c[p]
  {
    var l := L[i];
    assert forall x :: x in Elems(L[..i + 1]) <==> x in Elems(L[..i]) || x == l;
    assert l !in Elems(L[..i]);
  }

  lemma ListCleared(code: seq<Instr>, L: set<int>, t: int, T: seq<int>)
    requires IsList(code, t, T)
    ensures IsList(ClearedCode(code, L), t, T)
  {
    ListKept(code, ClearedCode(code, L), t, T);
  }

  /** The end of codenot: the lists change places and none of their jumps carries a value. */
  function BothCleared(code: seq<Instr>, d: Desc): seq<Instr> {
    ClearedCode(ClearedCode(code, Elems(d.tl)), Elems(d.fl))
  }

  /** Clearing the tests of pending jumps changes no action. */
  lemma CodeCleared(k: seq<Value>, code: seq<Instr>, open: set<int>, jpc: int, here: seq<int>, lasttarget: int,
                    L: set<int>)
    requires CodeOk(code, k, open, jpc, here, lasttarget) && L <= open
    ensures var c := ClearedCode(code, L);
            && CodeOk(c, k, open, jpc, here, lasttarget)
            && ActsOf(k, c, open, Elems(here)) == ActsOf(k, code, open, Elems(here))
            && Keeps(code, c, open - L)
            && (forall j | j in L :: 0 < j < |code| && !c[j - 1].TestSet?)
  {
    hide IsList;
    var c := ClearedCode(code, L);
    ListCleared(code, L, jpc, here);
    var a, a' := ActsOf(k, code, open, Elems(here)), ActsOf(k, c, open, Elems(here));
    forall p | 0 <= p < |code|
      ensures a'[p] == a[p]
    {
    }
    assert a' == a;
  }

  lemma DescCleared(code: seq<Instr>, k: seq<Value>, open: set<int>, jpc: int, here: seq<int>, lasttarget: int,
                    nactvar: int,
                    freereg: int, d: Desc, t: int, f: int)
    requires CodeOk(code, k, open, jpc, here, lasttarget)
    requires DescOk(code, k, open, here, lasttarget, nactvar, freereg, d, t, f)
    ensures var c := BothCleared(code, d);
            && CodeOk(c, k, open, jpc, here, lasttarget)
            && ActsOf(k, c, open, Elems(here)) == ActsOf(k, code, open, Elems(here))
            && Keeps(code, c, open - Elems(d.tl) - Elems(d.fl))
            && DescOk(c, k, open, here, lasttarget, nactvar, freereg, d.(tl := d.fl, fl := d.tl), f, t)
            && (forall j | j in d.tl || j in d.fl :: 0 < j < |c| && !c[j - 1].TestSet?)
  {
    hide IsList, CodeOk;
    var c1 := ClearedCode(code, Elems(d.tl));
    CodeCleared(k, code, open, jpc, here, lasttarget, Elems(d.tl));
    CodeCleared(k, c1, open, jpc, here, lasttarget, Elems(d.fl));
    ListCleared(code, Elems(d.tl), t, d.tl);
    ListCleared(code, Elems(d.tl), f, d.fl);
    ListCleared(c1, Elems(d.fl), t, d.tl);
    ListCleared(c1, Elems(d.fl), f, d.fl);
    assert forall j | j in d.tl :: j in Elems(d.tl);
    assert forall j | j in d.fl :: j in Elems(d.fl);
  }

  lemma NotDone(nact: int, c0: seq<Instr>, k: seq<Value>, a0: seq<Action>, d0: Desc, ex: Exp, pre: seq<Action>,
                base: nat, c1: seq<Instr>, open: set<int>, jpc: int, here: seq<int>, lasttarget: int, freereg: int,
                d1: Desc, t: int, f: int, acts: seq<Action>, c: Cond)
    requires CodeOk(c1, k, open, jpc, here, lasttarget)
    requires DescOk(c1, k, open, here, lasttarget, nact, freereg, d1, t, f)
    requires Means(nact, c0, k, a0, d0, ex, pre, base)
    requires Negation(c0, k, a0, d0, c1, ActsOf(k, c1, open, Elems(here)), d1, acts, c)
    ensures var c3, d3 := BothCleared(c1, d1), d1.(tl := d1.fl, fl := d1.tl);
            && CodeOk(c3, k, open, jpc, here, lasttarget)
            && DescOk(c3, k, open, here, lasttarget, nact, freereg, d3, f, t)
            && Means(nact, c3, k, ActsOf(k, c3, open, Elems(here)), d3, Not(ex), pre, base)
            && Keeps(c1, c3, open - Elems(d1.tl) - Elems(d1.fl))
  {
    hide CodeOk, IsList, Means, Keeps, ActsOf;
    var c3, d3, a1 := BothCleared(c1, d1), d1.(tl := d1.fl, fl := d1.tl), ActsOf(k, c1, open, Elems(here));
    DescCleared(c1, k, open, jpc, here, lasttarget, nact, freereg, d1, t, f);
    if d0.kind == VJMP {
      NotPending(nact, c0, k, acts, c, d0, ex, pre, base, c3, d3);
    } else {
      NotMeans(nact, c0, k, a0, d0, ex, pre, base, c3, a1, d3);
    }
  }

  lemma ElemsAdd(a: seq<int>, b: seq<int>)
    ensures Elems(a + b) == Elems(a) + Elems(b)
  {
    assert forall x :: x in a + b <==> x in a || x in b;
  }

  /** Linking the list of false exits to the jumps `out`. */
  lemma JoinedFalse(code: seq<Instr>, code': seq<Instr>, k: seq<Value>, open: set<int>, here: seq<int>, lasttarget: int,
                   nactvar: int, freereg: int, d: Desc, t: int, f: int, out: seq<int>, l: int)
    requires DescOk(code, k, open, here, lasttarget, nactvar, freereg, d, t, f) && Relinked(code, code', d.fl)
    requires IsList(code', l, d.fl + out) && Elems(out) <= open && Elems(out) !! OwnedBy(d)
    ensures var d' := d.(fl := d.fl + out);
            && DescOk(code', k, open, here, lasttarget, nactvar, freereg, d', t, l)
            && OwnedBy(d') == OwnedBy(d) + Elems(out)
  {
    hide IsList;
    ListRelinked(code, code', d.fl, t, d.tl);
    ElemsAdd(d.fl, out);
    assert d.kind == VJMP ==> d.info !in Elems(d.fl) + Elems(out);
  }

  /** Linking the list of true exits to the jumps `out`. */
  lemma JoinedTrue(code: seq<Instr>, code': seq<Instr>, k: seq<Value>, open: set<int>, here: seq<int>, lasttarget: int,
                   nactvar: int, freereg: int, d: Desc, t: int, f: int, out: seq<int>, l: int)
    requires DescOk(code, k, open, here, lasttarget, nactvar, freereg, d, t, f) && Relinked(code, code', d.tl)
    requires IsList(code', l, d.tl + out) && Elems(out) <= open && Elems(out) !! OwnedBy(d)
    ensures var d' := d.(tl := d.tl + out);
            && DescOk(code', k, open, here, lasttarget, nactvar, freereg, d', l, f)
            && OwnedBy(d') == OwnedBy(d) + Elems(out)
  {
    hide IsList;
    ListRelinked(code, code', d.tl, f, d.fl);
    ElemsAdd(d.tl, out);
    assert d.kind == VJMP ==> d.info !in Elems(d.tl) + Elems(out);
  }

  lemma DescLists(code: seq<Instr>, k: seq<Value>, open: set<int>, here: seq<int>, lasttarget: int, nactvar: int,
                    freereg: int, d: Desc, t: int, f: int)
    requires DescOk(code, k, open, here, lasttarget, nactvar, freereg, d, t, f)
    ensures IsList(code, t, d.tl) && IsList(code, f, d.fl) && Elems(d.tl) <= open && Elems(d.fl) <= open
  {
  }

  lemma LocalsMore(e: Exp, n: nat, m: nat)
    requires LocalsBelow(e, n) && n <= m
    ensures LocalsBelow(e, m)
  {
  }

  /** Running the code of a return statement. */
  lemma ReturnRuns(nact: int, c1: seq<Instr>, k: seq<Value>, a1: seq<Action>, d: Desc, ex: Exp, base: nat,
                   code: seq<Instr>, reg: int)
    requires Means(nact, c1, k, a1, d, ex, [], base) && d == Desc(VNONRELOC, reg, d.nval, [], [])
    requires IsReg(reg) && ActsOf(k, code, {}, {}) == a1 + [DoReturn(reg)]
    ensures forall w: World, R: Regs | Init(R, nact) ::
              Execute(w, k, code, 0, R) == if Eval(w, ex, R).None? then Fault else Returned(Eval(w, ex, R).value)
  {
    var a2 := a1 + [DoReturn(reg)];
    forall w: World, R: Regs | Init(R, nact)
      ensures Execute(w, k, code, 0, R) == if Eval(w, ex, R).None? then Fault else Returned(Eval(w, ex, R).value)
    {
      PatchRun(w, a1, a2, {}, map[], NO_REG, 0, R);
      assert Run(w, [], 0, R) == Fall(R);
      ExecuteIsRun(w, k, code, 0, R);
    }
  }

  lemma OperandKnown(k: seq<Value>, d: Desc)
    requires if d.kind == VK then 0 <= d.info < |k| else IsReg(d.info)
    ensures OperandOf(k, if d.kind == VK then d.info + BITRK else d.info) == Some(OperandOfDesc(k, d))
  {
  }

  lemma Compared(nact: int, c1: seq<Instr>, k1: seq<Value>, a1: seq<Action>, d1: Desc, a: Exp,
                 pre: seq<Action>, base: nat, c2: seq<Instr>, k: seq<Value>, a2: seq<Action>, d2: Desc, b: Exp,
                 base2: nat, op: Relation, c3: seq<Instr>, a3: seq<Action>, d3: Desc)
    requires Means(nact, c1, k1, a1, d1, a, pre, base) && Means(nact, c2, k, a2, d2, b, a1, base2)
    requires d1.tl == d1.fl == d2.tl == d2.fl == [] && base <= base2 && LocalsBelow(b, base) && k1 <= k
    requires if d1.kind == VK then 0 <= d1.info < |k1| else d1.kind == VNONRELOC && 0 <= d1.info < base2
    requires if d2.kind == VK then 0 <= d2.info < |k| else d2.kind == VNONRELOC && IsReg(d2.info)
    requires a3 == WithBranch(a2, CompareCond(op, OperandOfDesc(k, d1), OperandOfDesc(k, d2)))
    requires d3.kind == VJMP && d3.info == |a2| + 1 && d3.tl == d3.fl == []
    ensures Means(nact, c3, k, a3, d3, Compare(op, a, b), pre, base)
  {
    hide Means;
    CompareMeans(nact, c1, k1, a1, d1, OperandOfDesc(k, d1), a, pre, base, c2, k, a2, d2, OperandOfDesc(k, d2), b,
                 base2, op, c3, k, d3);
  }

  /** Taking the last instruction off code that no jump leads past. */
  lemma LastAction(k: seq<Value>, code: seq<Instr>, open: set<int>, lasttarget: int)
    requires |code| > 0 && IsSimple(code[|code| - 1]) && lasttarget < |code|
    requires Controlled(code, open) && ActsOk(ActsOf(k, code, open, {}), lasttarget)
    ensures var c0 := code[..|code| - 1];
            && code == c0 + [code[|code| - 1]]
            && Controlled(c0, open)
            && (forall j | j in open :: j < |c0|)
            && (|c0| > 0 ==> !IsTest(c0[|c0| - 1]))
            && ActsOf(k, code, open, {}) == ActsOf(k, c0, open, {}) + [ActAt(k, [code[|code| - 1]], {}, {}, 0)]
            && ActsOk(ActsOf(k, c0, open, {}), lasttarget)
            && ActsOk(ActsOf(k, c0, open, {}), |c0|)
  {
    var c0 := code[..|code| - 1];
    var a := ActsOf(k, code, open, {});
    if |c0| > 0 {
      assert a[|c0| - 1] != Broken && code[|c0|] == code[|code| - 1];
    }
    assert code == c0 + [code[|code| - 1]];
    ActsAppend(k, c0, code[|code| - 1], open);
    var a0 := ActsOf(k, c0, open, {});
    forall p | 0 <= p < |a0|
      ensures a0[p] != Broken && TargetOk(a0[p], p, lasttarget) && TargetOk(a0[p], p, |c0|)
    {
      assert a0[p] == a[p];
    }
  }

  /** The code after a test and a jump that starts a patch list of its own (condjump). */
  lemma BranchOk(k: seq<Value>, code: seq<Instr>, open: set<int>, jpc: int, here: seq<int>, lasttarget: int, i: Instr)
    requires CodeOk(code, k, open, jpc, here, lasttarget) && IsTest(i) && BranchOf(k, i, true, Open) != Broken
    ensures var c := PatchedCode(code, Elems(here), |code|, NO_REG, |code|) + [i, Jmp(NO_JUMP)];
            var pc := |code| + 1;
            && IsList(code, jpc, here)
            && CodeOk(c, k, open + {pc}, NO_JUMP, [], lasttarget)
            && Keeps(code, c, open) && pc !in open && lasttarget <= |c| - 2 && IsList(c, pc, [pc])
            && ActsOf(k, c, open + {pc}, {})
               == ActsOf(k, code, open, Elems(here)) + [BranchOf(k, i, true, Open), JumpWord]
  {
    var c1 := PatchedCode(code, Elems(here), |code|, NO_REG, |code|);
    DischargeOk(k, code, open, jpc, here, lasttarget);
    ActsBranch(k, c1, i, open);
    assert Elems([]) == {};
    SingleJump(c1 + [i, Jmp(NO_JUMP)], |code| + 1);
    ActsOkAppend(ActsOf(k, c1, open, {}), [BranchOf(k, i, true, Open), JumpWord], lasttarget);
  }

  /** Widening the LOADNIL that ends the code, when no jump comes to its end. */
  lemma NilWidened(nact: int, k: seq<Value>, code: seq<Instr>, open: set<int>, jpc: int, here: seq<int>,
                   lasttarget: int, from: int, to: int)
    requires CodeOk(code, k, open, jpc, here, lasttarget) && lasttarget < |code| && IsReg(to) && from <= to
    requires |code| > 0 && code[|code| - 1].LoadNil? && code[|code| - 1].a <= from <= code[|code| - 1].b + 1
    ensures var i := code[|code| - 1];
            var c := if to > i.b then code[|code| - 1 := LoadNil(i.a, to)] else code;
            && here == [] && CodeOk(c, k, open, jpc, here, lasttarget) && Keeps(code, c, open)
            && StoresNil(nact, ActsOf(k, code, open, {}), ActsOf(k, c, open, {}), from, to)
  {
    hide StoresNil;
    var c0, i := code[..|code| - 1], code[|code| - 1];
    var a0 := ActsOf(k, c0, open, {});
    var i' := LoadNil(i.a, if to > i.b then to else i.b);
    assert Elems(here) == {};
    LastAction(k, code, open, lasttarget);
    assert ActsOf(k, code, open, {})[|code| - 1] == DoNil(i.a, i.b);
    NilMerge(nact, a0, i.a, i.b, from, to);
    ActsAppend(k, c0, i', open);
    assert code[|code| - 1 := i'] == c0 + [i'];
    ActsOkAppend(a0, [DoNil(i'.a, i'.b)], lasttarget);
  }

  class FuncState {
    var code: seq<Instr>
    var k: seq<Value>
    /** The table that finds constants already in k. */
    var kindex: map<Value, int>

    var jpc: int
    var lasttarget: int
    var freereg: int
    var nactvar: int
    /** Members of the list jpc of jumps waiting for the next instruction. */
    ghost var here: seq<int>

    /** Members of all other patch lists, and the jumps of VJMP descriptors. */
    ghost var open: set<int>

    ghost predicate Registers()
      reads this
    {
      && 0 <= nactvar <= freereg < MAXSTACK
      && (forall v | v in kindex :: 0 <= kindex[v] < |k| && k[kindex[v]] == v)
    }

    ghost predicate Valid()
      reads this
    {
      Registers() && CodeOk(code, k, open, jpc, here, lasttarget)
    }

    constructor (nactvar: nat)
      requires nactvar < MAXSTACK
      ensures Valid() && code == [] && open == {} && freereg == this.nactvar == nactvar && here == []
    {
      code, k, kindex := [], [], map[];
      jpc, lasttarget := NO_JUMP, -1;
      freereg, this.nactvar := nactvar, nactvar;
      here, open := [], {};
    }

    ghost function Acts(): seq<Action>
      reads this
    {
      ActsOf(k, code, open, Elems(here))
    }

    // ---- Jumps and lists ----

    /** fixjump. */
    method FixJump(pc: int, dest: int) returns (st: Status)
      requires 0 <= pc < |code| && code[pc].Jmp? && 0 <= dest <= |code|
      modifies this`code
      ensures st.Compiled? ==> code == old(code)[pc := Jmp(dest - (pc + 1))]
      ensures st.Failed? ==> st.error == JumpTooLong && code == old(code) && |code| >= MAXARG_sBx
    {
      var offset := dest - (pc + 1);
      if offset > MAXARG_sBx || -offset > MAXARG_sBx {
        return Failed(JumpTooLong);
      }
      code := code[pc := Jmp(offset)];
      st := Compiled;
    }

    /** getjumpcontrol: the test in front of a jump, or the jump itself. */
    function JumpControl(pc: nat): (c: nat)
      reads this
      requires pc < |code|
      ensures c <= pc
    {
      if pc >= 1 && IsTest(code[pc - 1]) then pc - 1 else pc
    }

    /** The walk of luaK_concat to the last member of a list. */
    method LastOf(l: int, ghost L: seq<int>) returns (list: int)
      requires IsList(code, l, L) && L != []
      ensures list == L[|L| - 1] && 0 <= list < |code| && code[list].Jmp?
    {
      list := l;
      ghost var i := 0;
      var next := JumpTo(code, list);
      while next != NO_JUMP
        invariant 0 <= i < |L| && list == L[i] && next == if i + 1 < |L| then L[i + 1] else NO_JUMP
        decreases |L| - i
      {
        list := next;
        i := i + 1;
        next := JumpTo(code, list);
      }
    }

    /** luaK_concat: l1 becomes the list of the members of both. */
    method Concat(l1: int, l2: int, ghost L1: seq<int>, ghost L2: seq<int>) returns (st: Status, l: int)
      requires IsList(code, l1, L1) && IsList(code, l2, L2) && Elems(L1) !! Elems(L2)
      modifies this`code
      ensures st.Compiled? ==> IsList(code, l, L1 + L2) && |code| == |old(code)|
      ensures st.Compiled? ==> forall p | 0 <= p < |code| ::
                code[p] == old(code[p]) || (p in L1 && code[p].Jmp? && old(code[p]).Jmp?)
      ensures L2 == [] ==> st == Compiled && code == old(code) && l == l1
      ensures L1 == [] ==> st == Compiled && code == old(code) && l == l2
      ensures st.Failed? ==> st.error == JumpTooLong && |code| >= MAXARG_sBx
    {
      if l2 == NO_JUMP {
        assert L1 + L2 == L1;
        return Compiled, l1;
      } else if l1 == NO_JUMP {
        assert L1 + L2 == L2;
        return Compiled, l2;
      }
      var list := LastOf(l1, L1);
      ListConcat(code, l1, L1, l2, L2);
      l := l1;
      :- FixJump(list, l2);
      st := Compiled;
    }

    /** need_value: some jump of the list does not carry its value. */
    method NeedValue(list: int, ghost L: seq<int>) returns (b: bool)
      requires IsList(code, list, L) && Controlled(code, Elems(L))
      ensures b <==> !CarriesAll(code, L)
    {
      var l := list;
      ghost var i := 0;
      while l != NO_JUMP
        invariant 0 <= i <= |L| && l == if i < |L| then L[i] else NO_JUMP
        invariant CarriesAll(code, L[..i])
        decreases |L| - i
      {
        assert L[i] in Elems(L);
        if !code[JumpControl(l)].TestSet? {
          return true;
        }
        l := JumpTo(code, l);
        i := i + 1;
      }
      assert L[..i] == L;
      return false;
    }

    /** patchtestreg: give the value of a TESTSET a register, or turn it into a TEST. */
    method PatchTestReg(node: int, reg: int) returns (b: bool)
      requires 0 <= node < |code| && code[node].Jmp?
      modifies this`code
      ensures b == (node > 0 && old(code[node - 1]).TestSet?)
      ensures |code| == |old(code)|
      ensures forall p | 0 <= p < |code| ::
                code[p] == if p == node - 1 then PatchControl(old(code[p]), reg) else old(code[p])
    {
      var i := JumpControl(node);
      match code[i]
      case TestSet(a, r, cond) =>
        if reg != NO_REG && reg != r {
          code := code[i := TestSet(reg, r, cond)];
        } else {
          code := code[i := Test(r, cond)];
        }
        return true;
      case _ => return false;
    }

    /** patchlistaux. */
    method PatchListAux(list: int, vtarget: int, reg: int, dtarget: int, ghost L: seq<int>) returns (st: Status)
      requires IsList(code, list, L) && 0 <= vtarget <= |code| && (0 <= dtarget <= |code| || CarriesAll(code, L))
      modifies this`code
      ensures st.Compiled? ==> code == PatchedCode(old(code), Elems(L), vtarget, reg, dtarget)
      ensures st.Compiled? && old(Elems(L) <= open && open !! Elems(here) && Controlled(code, open)) && IsReg(reg) ==>
                Retargeted(old(Acts()), ActsOf(k, code, open - Elems(L), Elems(here)), old(code), Elems(L), vtarget,
                           reg, dtarget)
      ensures st.Failed? ==> st.error == JumpTooLong && |code| >= MAXARG_sBx
    {
      hide PatchedCode, PatchControl, Retargeted;
      var l := list;
      ghost var i := 0;
      ghost var c0 := code;
      PatchNobody(c0, vtarget, reg, dtarget);
      assert Elems(L[..0]) == {};
      while l != NO_JUMP
        invariant 0 <= i <= |L| && l == if i < |L| then L[i] else NO_JUMP
        invariant code == PatchedCode(c0, Elems(L[..i]), vtarget, reg, dtarget)
        decreases |L| - i
      {
        assert L[i] !in Elems(L[..i]);
        PatchStep(c0, L, i, vtarget, reg, dtarget);
        var next := JumpTo(code, l);
        assert next == JumpTo(c0, L[i]) == if i + 1 < |L| then L[i + 1] else NO_JUMP;
        var b := PatchTestReg(l, reg);
        :- FixJump(l, if b then vtarget else dtarget);
        assert code == PatchedCode(c0, Elems(L[..i + 1]), vtarget, reg, dtarget);
        l := next;
        i := i + 1;
      }
      assert L[..i] == L;
      if Elems(L) <= open && open !! Elems(here) && Controlled(c0, open) && IsReg(reg) {
        PatchActs(k, c0, Elems(L), vtarget, reg, dtarget, open, Elems(here));
      }
      st := Compiled;
    }

    // ---- Emitting code ----

    /** luaK_code: write down the jumps waiting for this position, then add an instruction. */
    method Append(i: Instr) returns (st: Status)
      requires IsList(code, jpc, here)
      modifies this`code, this`jpc, this`here
      ensures st.Compiled? ==> code == PatchedCode(old(code), Elems(old(here)), |old(code)|, NO_REG, |old(code)|) + [i]
      ensures st.Compiled? ==> jpc == NO_JUMP && here == []
      ensures st.Failed? ==> st.error == JumpTooLong && |code| >= MAXARG_sBx
    {
      st := PatchListAux(jpc, |code|, NO_REG, |code|, here);
      if st.Compiled? {
        jpc, here := NO_JUMP, [];
        code := code + [i];
      }
    }

    /** luaK_codeABC and luaK_codeABx for an instruction that is neither a test nor a jump. */
    method CodeInstr(i: Instr) returns (st: Status)
      requires Valid() && IsSimple(i)
      requires var a := ActAt(k, [i], {}, {}, 0); a != Broken && TargetOk(a, |code|, lasttarget)
      modifies this`code, this`jpc, this`here
      ensures st.Compiled? ==> Valid() && here == [] && Keeps(old(code), code, open)
      ensures st.Compiled? ==> |code| == |old(code)| + 1 && code[|code| - 1] == i && lasttarget < |code|
      ensures st.Compiled? ==> Acts() == old(Acts()) + [ActAt(k, [i], {}, {}, 0)]
      ensures st.Failed? ==> st.error == JumpTooLong && |code| >= MAXARG_sBx
    {
      ghost var c0, h0 := code, Elems(here);
      ghost var c1 := PatchedCode(c0, h0, |c0|, NO_REG, |c0|);
      DischargeOk(k, c0, open, jpc, here, lasttarget);
      ActsAppend(k, c1, i, open);
      :- Append(i);
      ActsOkAppend(ActsOf(k, c1, open, {}), [ActAt(k, [i], {}, {}, 0)], lasttarget);
      assert Elems(here) == {};
      st := Compiled;
    }

    /** luaK_jump: a jump to somewhere, which takes over the jumps waiting for this position. */
    method Jump() returns (st: Status, j: int)
      requires IsList(code, jpc, here)
      modifies this`code, this`jpc, this`here
      ensures st.Compiled? ==> j == |old(code)| && |code| == j + 1 && code[..j] == old(code) && code[j].Jmp?
      ensures st.Compiled? ==> jpc == NO_JUMP && here == [] && IsList(code, j, [j] + old(here))
      ensures st.Compiled? && old(here) == [] ==> code[j] == Jmp(NO_JUMP)
      ensures st.Failed? ==> st.error == JumpTooLong && |code| >= MAXARG_sBx
    {
      var saved := jpc;
      ghost var L := here;
      jpc, here := NO_JUMP, [];
      j := |code|;
      ghost var c0 := code;
      :- Append(Jmp(NO_JUMP));
      assert code == c0 + [Jmp(NO_JUMP)];
      ListKept(c0, code, saved, L);
      assert forall x | x in Elems(L) :: x < |c0|;
      SingleJump(code, j);
      assert [j] + [] == [j];
      st, j := Concat(j, saved, [j], L);
    }

    /** condjump: a test and its jump, which starts a patch list of its own. */
    method CondJump(i: Instr) returns (st: Status, pc: int)
      requires Valid() && IsTest(i) && BranchOf(k, i, true, Open) != Broken
      modifies this`code, this`jpc, this`here, this`open
      ensures st.Compiled? ==> Valid() && here == [] && Keeps(old(code), code, old(open))
      ensures st.Compiled? ==> pc == |code| - 1 == |old(code)| + 1 && open == old(open) + {pc} && pc !in old(open)
      ensures st.Compiled? ==> lasttarget <= |code| - 2
      ensures st.Compiled? ==> code[pc - 1] == i && code[pc] == Jmp(NO_JUMP) && IsList(code, pc, [pc])
      ensures st.Compiled? ==> Acts() == old(Acts()) + [BranchOf(k, i, true, Open), JumpWord]
      ensures st.Failed? ==> st.error == JumpTooLong && |code| >= MAXARG_sBx
    {
      hide ActsOf, CodeOk, IsList, IsTest, Keeps, PatchedCode;
      ghost var c0, h0 := code, here;
      BranchOk(k, c0, open, jpc, h0, lasttarget, i);
      pc := 0;
      :- Append(i);
      ghost var c1 := code;
      NoList(code, jpc, NO_JUMP);
      st, pc := Jump();
      if st.Failed? {
        return;
      }
      assert code == c1 + [code[pc]];
      assert code == PatchedCode(c0, Elems(h0), |c0|, NO_REG, |c0|) + [i, Jmp(NO_JUMP)];
      assert Elems(here) == {};
      open := open + {pc};
    }

    /** luaK_getlabel. */
    method GetLabel() returns (pc: int)
      modifies this`lasttarget
      ensures lasttarget == pc == |code|
    {
      lasttarget := |code|;
      pc := |code|;
    }

    /** luaK_patchtohere: the jumps of a list now wait for this position. */
    method PatchToHere(list: int, ghost L: seq<int>) returns (st: Status)
      requires Valid() && IsList(code, list, L) && Elems(L) <= open
      modifies this`code, this`jpc, this`here, this`lasttarget, this`open
      ensures st.Compiled? ==> Valid() && open == old(open) - Elems(L) && |code| == |old(code)|
      ensures st.Compiled? ==> Keeps(old(code), code, open) && lasttarget == |code|
      ensures st.Compiled? ==> Patched(old(Acts()), Acts(), Elems(L), map j | j in Elems(L) :: |code|, NO_REG)
      ensures st.Compiled? ==> forall p | 0 <= p < |code| ::
                code[p] == old(code[p]) || (code[p].Jmp? && old(code[p]).Jmp?)
      ensures st.Failed? ==> st.error == JumpTooLong && |code| >= MAXARG_sBx
    {
      var pc := GetLabel();
      ghost var c0, h0 := code, here;
      st, jpc := Concat(jpc, list, here, L);
      if st.Failed? {
        return;
      }
      PatchHereOk(k, c0, code, open, h0, L, old(lasttarget));
      here := h0 + L;
      open := open - Elems(L);
    }

    // ---- Registers and constants ----

    /** luaK_reserveregs, with luaK_checkstack. */
    method ReserveRegs(n: nat) returns (st: Status)
      modifies this`freereg
      ensures st.Compiled? ==> freereg == old(freereg) + n < MAXSTACK
      ensures st.Failed? ==> st.error == TooComplex && freereg == old(freereg) && freereg + n >= MAXSTACK
    {
      if freereg + n >= MAXSTACK {
        return Failed(TooComplex);
      }
      freereg := freereg + n;
      st := Compiled;
    }

    /** freeexp: give back the temporary register of an expression. */
    method FreeExp(e: ExpDesc)
      requires e.kind == VNONRELOC && e.info >= nactvar ==> e.info == freereg - 1
      modifies this`freereg
      ensures freereg == old(freereg) - (if e.kind == VNONRELOC && e.info >= nactvar then 1 else 0)
    {
      if e.kind == VNONRELOC && e.info >= nactvar {
        freereg := freereg - 1;
      }
    }

    /** addk: the index of a constant, new or already there. */
    method AddK(v: Value) returns (st: Status, idx: int)
      requires Valid()
      modifies this`k, this`kindex
      ensures st.Compiled? ==> Valid() && 0 <= idx < |k| && idx <= |old(k)| && k[idx] == v
      ensures st.Compiled? ==> old(k) <= k && Acts() == old(Acts())
      ensures st.Failed? ==> st.error == TooManyConstants && k == old(k) && |k| >= MAXARG_Bx
    {
      idx := 0;
      if v in kindex {
        return Compiled, kindex[v];
      }
      if |k| >= MAXARG_Bx {
        return Failed(TooManyConstants), idx;
      }
      ghost var k0 := k;
      ActsMoreConstants(k, k + [v], code, open, Elems(here));
      kindex := kindex[v := |k|];
      k := k + [v];
      return Compiled, |k| - 1;
    }

    // ---- Putting values in registers ----

    ghost predicate ExpOk(e: ExpDesc)
      reads this, e
    {
      DescOk(code, k, open, here, lasttarget, nactvar, freereg, e.View(), e.t, e.f)
    }

    /** The pending jumps of an expression. */
    ghost function Owned(e: ExpDesc): set<int>
      reads e
    {
      OwnedBy(e.View())
    }

    /** e is a correct translation of ex, begun when the code was pre with registers from base free. */
    ghost predicate IsCode(e: ExpDesc, ex: Exp, pre: seq<Action>, base: nat)
      reads this, e
    {
      && ExpOk(e) && nactvar <= base
      && Means(nactvar, code, k, Acts(), e.View(), ex, pre, base)
    }

    /** At the start of the function the registers above the parameters are nil. */
    lemma NilAtStart(from: int, to: int)
      requires Valid() && code == [] && lasttarget < 0 && nactvar <= from
      ensures here == [] && Keeps(code, code, open) && StoresNil(nactvar, Acts(), Acts(), from, to)
    {
      assert forall R: Regs | Init(R, nactvar) :: SetNil(R, from, to) == R;
    }

    /** luaK_nil: nil in n registers. */
    method CodeNil(from: int, n: int) returns (st: Status)
      requires Valid() && n > 0 && IsReg(from) && IsReg(from + n - 1)
      modifies this`code, this`jpc, this`here
      ensures st.Compiled? ==> Valid() && here == [] && Keeps(old(code), code, open)
      ensures st.Compiled? ==> StoresNil(nactvar, old(Acts()), Acts(), from, from + n - 1)
      ensures st.Failed? ==> st.error == JumpTooLong && |code| >= MAXARG_sBx
    {
      hide ActsOf, CodeOk, Keeps, StoresNil;
      ghost var to := from + n - 1;
      if |code| > lasttarget {
        if |code| == 0 {
          if from >= nactvar {
            NilAtStart(from, to);
            return Compiled;
          }
        } else if code[|code| - 1].LoadNil? {
          var pfrom, pto := code[|code| - 1].a, code[|code| - 1].b;
          if pfrom <= from <= pto + 1 {
            NilWidened(nactvar, k, code, open, jpc, here, lasttarget, from, to);
            assert Elems(here) == {};
            if from + n - 1 > pto {
              code := code[|code| - 1 := LoadNil(pfrom, from + n - 1)];
            }
            return Compiled;
          }
        }
      }
      :- CodeInstr(LoadNil(from, from + n - 1));
      AppendNil(nactvar, old(Acts()), from, to);
      st := Compiled;
    }

    /** luaK_dischargevars. */
    method DischargeVars(e: ExpDesc)
      requires ExpOk(e) && nactvar <= freereg
      modifies e`kind
      ensures e.kind == if old(e.kind) == VLOCAL then VNONRELOC else old(e.kind)
      ensures ExpOk(e)
      ensures forall ex, pre, base :: old(IsCode(e, ex, pre, base)) ==> IsCode(e, ex, pre, base)
      ensures old(e.kind) == VLOCAL ==> e.info < nactvar
    {
      if e.kind == VLOCAL {
        e.kind := VNONRELOC;
      }
    }

    /** A compilation is only abandoned when a limit of the code generator is reached. */
    ghost predicate LimitHit(st: Status)
      reads this
    {
      match st
      case Failed(JumpTooLong) => |code| >= MAXARG_sBx
      case Failed(TooManyConstants) => |k| >= MAXARG_Bx
      case Failed(TooComplex) => false
      case Compiled => true
    }

    /** ... or when the registers below top are not enough. */
    ghost predicate GaveUp(st: Status, top: nat)
      reads this
    {
      LimitHit(st) || (st == Failed(TooComplex) && top >= MAXSTACK)
    }

    /** An instruction that sets one register. */
    method StoreInstr(i: Instr, reg: int, ghost fn: Regs -> Value) returns (st: Status)
      requires Valid() && IsSimple(i) && IsReg(reg)
      requires var a := ActAt(k, [i], {}, {}, 0);
               && a != Broken && TargetOk(a, |code|, lasttarget) && (a.DoBool? ==> !a.skip)
               && forall w: World, R: Regs :: Run(w, [a], 0, R) == Fall(R[reg := fn(R)])
      modifies this`code, this`jpc, this`here
      ensures st.Compiled? ==> Valid() && here == [] && Keeps(old(code), code, open)
      ensures st.Compiled? ==> Stores(nactvar, old(Acts()), Acts(), reg, fn)
      ensures st.Failed? ==> LimitHit(st)
    {
      ghost var a := ActAt(k, [i], {}, {}, 0);
      :- CodeInstr(i);
      AppendStores(nactvar, old(Acts()), a, reg, fn);
      st := Compiled;
    }

    /** SETARG_A on the NOT that ends the code. */
    method SetNotReg(reg: int)
      requires Valid() && |code| > 0 && code[|code| - 1].OpNot? && IsReg(code[|code| - 1].b)
      requires here == [] && lasttarget < |code| && IsReg(reg)
      modifies this`code
      ensures Valid() && Keeps(old(code), code, open)
      ensures Stores(nactvar, old(Acts())[..old(|code|) - 1], Acts(), reg,
                     NotOf(old(code[|code| - 1].b)))
    {
      ghost var c0, b := code[..|code| - 1], code[|code| - 1].b;
      ghost var a0 := ActsOf(k, c0, open, {});
      assert Elems(here) == {};
      LastAction(k, code, open, lasttarget);
      code := code[|code| - 1 := OpNot(reg, code[|code| - 1].b)];
      assert code == c0 + [OpNot(reg, b)];
      ActsAppend(k, c0, OpNot(reg, b), open);
      ActsOkAppend(a0, [DoNot(reg, b)], lasttarget);
      AppendStores(nactvar, a0, DoNot(reg, b), reg, NotOf(b));
      assert (a0 + [DoNot(reg, b)])[..|a0|] == a0;
    }

    /** Storing the value that d delivers makes a non-relocatable descriptor of the same expression. */
    lemma Stored(d: Desc, t: int, f: int, ex: Exp, pre: seq<Action>, base: nat, c0: seq<Instr>, k0: seq<Value>,
                 a0: seq<Action>, reg: int, fn: Regs -> Value)
      requires Valid() && base <= reg < freereg && d.kind != VJMP
      requires IsList(c0, t, d.tl) && IsList(c0, f, d.fl) && Elems(d.tl) !! Elems(d.fl)
      requires Elems(d.tl) <= open && Elems(d.fl) <= open && Keeps(c0, code, open)
      requires Means(nactvar, c0, k0, a0, d, ex, pre, base)
      requires Stores(nactvar, Before(d, a0), Acts(), reg, fn)
      requires forall S: Regs, v | FallOk(c0, k0, d, S, v) :: fn(S) == v
      ensures var d' := d.(kind := VNONRELOC, info := reg);
              && DescOk(code, k, open, here, lasttarget, nactvar, freereg, d', t, f)
              && Means(nactvar, code, k, Acts(), d', ex, pre, base)
    {
      ListKept(c0, code, t, d.tl);
      ListKept(c0, code, f, d.fl);
      StoresMeans(nactvar, c0, k0, a0, d, ex, pre, base, code, k, Acts(), reg, fn);
    }

    /** The switch of discharge2reg (lcode.c:345-375): fn is what the register gets. */
    method LoadValue(e: ExpDesc, reg: int) returns (st: Status, ghost fn: Regs -> Value)
      requires Valid() && ExpOk(e) && IsReg(reg) && nactvar <= reg && e.kind != VJMP && e.kind != VLOCAL
      modifies this`code, this`jpc, this`here, this`k, this`kindex
      ensures st.Compiled? ==> Valid() && Keeps(old(code), code, open)
      ensures st.Compiled? ==> Stores(nactvar, old(Before(e.View(), Acts())), Acts(), reg, fn)
      ensures st.Compiled? ==> forall S: Regs, v | FallOk(old(code), old(k), old(e.View()), S, v) :: fn(S) == v
      ensures old(k) <= k
      ensures st.Failed? ==> LimitHit(st)
    {
      hide Stores, IsList;
      fn := _ => Nil;
      match e.kind {
        case VNIL =>
          st := CodeNil(reg, 1);
          if st.Compiled? { StoresOneNil(nactvar, old(Acts()), Acts(), reg); }
        case VFALSE =>
          fn := _ => Bool(false);
          st := StoreInstr(LoadBool(reg, false, false), reg, fn);
        case VTRUE =>
          fn := _ => Bool(true);
          st := StoreInstr(LoadBool(reg, true, false), reg, fn);
        case VK =>
          ghost var v := k[e.info];
          fn := _ => v;
          st := StoreInstr(LoadK(reg, e.info), reg, fn);
        case VKNUM =>
          ghost var v := e.nval;
          fn := _ => v;
          var idx;
          st, idx := AddK(e.nval);
          if st.Compiled? {
            st := StoreInstr(LoadK(reg, idx), reg, fn);
          }
        case VRELOCABLE =>
          fn := NotOf(code[e.info].b);
          SetNotReg(reg);
          st := Compiled;
        case VNONRELOC =>
          fn := CopyOf(e.info);
          if reg != e.info {
            st := StoreInstr(Move(reg, e.info), reg, fn);
          } else {
            SameReg(nactvar, Acts(), reg);
            st := Compiled;
          }
      }
    }

    /** discharge2reg: put the value of e, but not of its jumps, in register reg. */
    method Discharge2Reg(e: ExpDesc, reg: int, ghost ex: Exp, ghost pre: seq<Action>, ghost base: nat)
        returns (st: Status)
      requires Valid() && IsCode(e, ex, pre, base) && base <= reg < freereg
      modifies this`code, this`jpc, this`here, this`k, this`kindex, e`kind, e`info
      ensures st.Compiled? ==> Valid() && IsCode(e, ex, pre, base) && Keeps(old(code), code, open)
      ensures st.Compiled? ==> e.kind == if old(e.kind) == VJMP then VJMP else VNONRELOC
      ensures st.Compiled? ==> e.info == if old(e.kind) == VJMP then old(e.info) else reg
      ensures st.Compiled? && old(e.kind) == VJMP ==> code == old(code) && k == old(k) && here == old(here)
      ensures old(k) <= k
      ensures st.Failed? ==> LimitHit(st)
    {
      hide Means, Stores, IsList;
      DischargeVars(e);
      if e.kind == VJMP {
        return Compiled;
      }
      ghost var d, c0, k0, a0 := e.View(), code, k, Acts();
      ghost var fn;
      st, fn := LoadValue(e, reg);
      if st.Failed? {
        return;
      }
      assert forall S: Regs, v | FallOk(c0, k0, d, S, v) :: fn(S) == v;
      Stored(d, e.t, e.f, ex, pre, base, c0, k0, a0, reg, fn);
      e.info, e.kind := reg, VNONRELOC;
    }

    /** code_label: an instruction that may be a jump target. */
    method CodeLabel(a: int, b: bool, jump: bool) returns (st: Status, pc: int)
      requires jpc == NO_JUMP && here == []
      modifies this`code, this`jpc, this`here, this`lasttarget
      ensures st.Compiled? ==> pc == |old(code)| && code == old(code) + [LoadBool(a, b, jump)] && jpc == NO_JUMP
                                                 && here == []
      ensures st.Failed? ==> st.error == JumpTooLong && |code| >= MAXARG_sBx
    {
      pc := GetLabel();
      assert PatchedCode(code, Elems(here), |code|, NO_REG, |code|) == code;
      st := Append(LoadBool(a, b, jump));
    }

    /** The two loads of booleans of exp2reg (lcode.c:400-401). */
    method LoadBools(reg: int) returns (st: Status, p_f: int, p_t: int)
      requires jpc == NO_JUMP && here == []
      modifies this`code, this`jpc, this`here, this`lasttarget
      ensures st.Compiled? ==> code == old(code) + BoolTail(reg) && jpc == NO_JUMP && here == []
      ensures st.Compiled? ==> p_f == |old(code)| && p_t == p_f + 1
      ensures st.Failed? ==> st.error == JumpTooLong && |code| >= MAXARG_sBx
    {
      p_t := NO_JUMP;
      st, p_f := CodeLabel(reg, false, true);
      if st.Compiled? {
        st, p_t := CodeLabel(reg, true, false);
      }
    }

    /** luaK_patchtohere of a list when no jump is waiting yet. */
    method FirstHere(list: int, ghost L: seq<int>) returns (st: Status)
      requires jpc == NO_JUMP && here == [] && IsList(code, list, L)
      modifies this`code, this`jpc, this`here, this`lasttarget
      ensures st == Compiled && code == old(code) && jpc == list && here == L && lasttarget == |code|
    {
      var pc := GetLabel();
      NoList(code, jpc, jpc);
      st, jpc := Concat(jpc, list, here, L);
      here := L;
    }

    /** The loads of booleans of exp2reg with a jump over them (lcode.c:399-402), unless they can
        only be reached by falling out of a comparison. */
    method CodeBools(reg: int, isJump: bool) returns (st: Status, p_f: int, p_t: int)
      requires IsList(code, jpc, here) && (isJump ==> here == [])
      modifies this`code, this`jpc, this`here, this`lasttarget
      ensures st.Compiled? ==> |code| == |old(code)| + (if isJump then 2 else 3) && code[..|old(code)|] == old(code)
      ensures st.Compiled? ==> TailOk(old(code), code[|old(code)|..], Elems(old(here)), Elems(here), reg, p_f, p_t)
      ensures st.Compiled? ==> IsList(code, jpc, here) && lasttarget == |code|
      ensures st.Failed? ==> st.error == JumpTooLong && |code| >= MAXARG_sBx
    {
      hide IsList, PatchedCode, TailOk, BoolTail;
      p_f, p_t := NO_JUMP, NO_JUMP;
      ghost var c0, h0 := code, here;
      var fj := NO_JUMP;
      ghost var L: seq<int> := [];
      if !isJump {
        L := [|code|] + here;
        st, fj := Jump();
        if st.Failed? {
          return;
        }
      } else {
        NoList(code, jpc, fj);
      }
      ghost var c1 := code;
      st, p_f, p_t := LoadBools(reg);
      if st.Failed? {
        return;
      }
      BoolTailShape(c0, c1, code, h0, L, fj, reg, isJump);
      st := FirstHere(fj, L);
    }

    /** lcode.c:398-403. */
    method BoolsIfNeeded(t: int, f: int, reg: int, isJump: bool, ghost T: seq<int>, ghost F: seq<int>)
      returns (st: Status, ghost tail: seq<Instr>, p_f: int, p_t: int)
      requires IsList(code, t, T) && IsList(code, f, F) && IsList(code, jpc, here)
      requires Controlled(code, Elems(T)) && Controlled(code, Elems(F))
      requires isJump ==> here == [] && !CarriesAll(code, T)
      modifies this`code, this`jpc, this`here, this`lasttarget
      ensures st.Compiled? ==> code == old(code) + tail && IsList(code, jpc, here)
      ensures st.Compiled? ==> TailOk(old(code), tail, Elems(old(here)), Elems(here), reg, p_f, p_t)
      ensures st.Compiled? ==> if isJump then tail == BoolTail(reg) else tail == [] || |tail| == 3
      ensures st.Compiled? ==> if tail == [] then CarriesAll(old(code), T) && CarriesAll(old(code), F)
                               else 0 <= p_f <= |code| && 0 <= p_t <= |code|
      ensures st.Failed? ==> LimitHit(st)
    {
      hide IsList, CarriesAll;
      tail, p_f, p_t := [], NO_JUMP, NO_JUMP;
      ghost var c0 := code;
      var b := NeedValue(t, T);
      if !b {
        b := NeedValue(f, F);
      }
      if b {
        st, p_f, p_t := CodeBools(reg, isJump);
        if st.Compiled? {
          tail := code[|c0|..];
          assert code == c0 + tail;
        }
      } else {
        TailNone(code, here, reg, p_f, p_t);
        assert code + [] == code;
        st := Compiled;
      }
    }

    /** The part of exp2reg that deals with jumps (lcode.c:394-407). */
    method PatchBoth(t: int, f: int, reg: int, isJump: bool, ghost T: seq<int>, ghost F: seq<int>)
      returns (st: Status, ghost tail: seq<Instr>, p_f: int, p_t: int)
      requires IsList(code, t, T) && IsList(code, f, F) && Elems(T) !! Elems(F)
      requires Controlled(code, Elems(T)) && Controlled(code, Elems(F)) && IsList(code, jpc, here)
      requires isJump ==> here == [] && t != f && !CarriesAll(code, T)
      modifies this`code, this`jpc, this`here, this`lasttarget
      ensures st.Compiled? ==> code == FinalCode(old(code), tail, Elems(F), Elems(T), reg, p_f, p_t)
      ensures st.Compiled? ==> TailOk(old(code), tail, Elems(old(here)), Elems(here), reg, p_f, p_t)
      ensures st.Compiled? ==> if isJump then tail == BoolTail(reg) else tail == [] || |tail| == 3
      ensures st.Compiled? && tail == [] ==> forall j | j in Elems(F) + Elems(T) :: old(code)[j - 1].TestSet?
      ensures st.Compiled? ==> IsList(old(code) + tail, jpc, here)
      ensures st.Compiled? && lasttarget != |code| ==>
                T == F == [] && tail == [] && lasttarget == old(lasttarget) && here == old(here) && code == old(code)
      ensures st.Failed? ==> LimitHit(st)
    {
      hide IsList, PatchedCode, TailOk;
      p_f, p_t, tail := NO_JUMP, NO_JUMP, [];
      ghost var c0 := code;
      SameHead(code, t, f, T, F);
      assert c0 + [] == c0;
      if t == f {
        assert Elems(T) == Elems(F) == {};
        PatchedNone(c0, reg, p_f, p_t);
        TailNone(c0, here, reg, p_f, p_t);
        return Compiled, tail, p_f, p_t;
      }
      st, tail, p_f, p_t := BoolsIfNeeded(t, f, reg, isJump, T, F);
      if st.Failed? {
        return;
      }
      ListExtended(c0, tail, t, T);
      ListExtended(c0, tail, f, F);
      var final := GetLabel();
      :- PatchListAux(f, final, reg, p_f, F);
      ListPatched(c0 + tail, final, reg, p_f, t, T, Elems(F));
      if tail == [] { CarriesPatched(c0, final, reg, p_f, T, F); }
      :- PatchListAux(t, final, reg, p_t, T);
      st := Compiled;
    }

    /** luaK_concat on pending jumps. */
    method Join(l1: int, l2: int, ghost L1: seq<int>, ghost L2: seq<int>) returns (st: Status, l: int)
      requires Valid() && IsList(code, l1, L1) && IsList(code, l2, L2) && Elems(L1) !! Elems(L2) && Elems(L1) <= open
      modifies this`code
      ensures st.Compiled? ==> Valid() && Acts() == old(Acts()) && Relinked(old(code), code, L1)
      ensures st.Compiled? ==> IsList(code, l, L1 + L2) && Keeps(old(code), code, open - Elems(L1))
      ensures st.Failed? ==> LimitHit(st)
    {
      hide IsList;
      ghost var c0 := code;
      st, l := Concat(l1, l2, L1, L2);
      if st.Compiled? {
        CodeRelinked(c0, code, k, open, jpc, here, lasttarget, L1);
        KeepsRelinked(c0, code, open, L1, open - Elems(L1));
      }
    }

    /** The jump of a pending comparison is an exit with true (lcode.c:392-393). */
    method JoinJump(e: ExpDesc) returns (st: Status, ghost T: seq<int>)
      requires Valid() && ExpOk(e)
      modifies this`code, e`t
      ensures T == old(e.tl) + (if e.kind == VJMP then [e.info] else [])
      ensures st.Compiled? ==> Valid() && Acts() == old(Acts()) && Relinked(old(code), code, T)
      ensures st.Compiled? ==> IsList(code, e.t, T) && IsList(code, e.f, e.fl)
      ensures st.Failed? ==> LimitHit(st)
    {
      hide IsList;
      T := e.tl;
      ghost var c0 := code;
      if e.kind == VJMP {
        JumpIsList(code, e.info);
        T := T + [e.info];
        var l;
        st, l := Join(e.t, e.info, e.tl, [e.info]);
        if st.Failed? {
          return;
        }
        e.t := l;
        ListRelinked(c0, code, e.tl, e.f, e.fl);
      } else {
        assert e.tl + [] == e.tl;
      }
      st := Compiled;
    }

    /** exp2reg from lcode.c:392 on, up to the final patch: c1 is the code once a pending comparison
        has joined the list of true exits T. */
    method PatchLists(e: ExpDesc, reg: int)
      returns (st: Status, ghost T: seq<int>, ghost c1: seq<Instr>, ghost tail: seq<Instr>, p_f: int, p_t: int)
      requires Valid() && ExpOk(e)
      modifies this`code, this`jpc, this`here, this`lasttarget, e`t
      ensures T == TrueExits(old(e.View()))
      ensures st.Compiled? ==> FinalPatch(old(code), c1, old(e.View()), T, tail, old(here), old(lasttarget),
                                          code, jpc, here, lasttarget, reg, p_f, p_t)
      ensures st.Failed? ==> LimitHit(st)
    {
      hide TailOk, FinalCode, IsList;
      ghost var d, c0 := e.View(), code;
      p_f, p_t, tail := NO_JUMP, NO_JUMP, [];
      st, T := JoinJump(e);
      c1 := code;
      if st.Failed? {
        return;
      }
      FinalReady(c1, k, open, jpc, here, lasttarget, d, T);
      SameHead(c1, e.t, e.f, T, e.fl);
      if e.kind == VJMP { PendingJump(c0, c1, d, T); }
      st, tail, p_f, p_t := PatchBoth(e.t, e.f, reg, e.kind == VJMP, T, e.fl);
    }

    /** The rest of exp2reg, when the value is in its register or a comparison is pending. */
    method PatchExp(e: ExpDesc, reg: int, ghost ex: Exp, ghost pre: seq<Action>, ghost base: nat) returns (st: Status)
      requires Valid() && IsCode(e, ex, pre, base) && base <= reg < freereg
      requires e.kind == VJMP || (e.kind == VNONRELOC && e.info == reg)
      modifies this`code, this`jpc, this`here, this`open, this`lasttarget, e
      ensures st.Compiled? ==> Valid() && IsCode(e, ex, pre, base)
      ensures st.Compiled? ==> e.kind == VNONRELOC && e.info == reg && e.tl == e.fl == []
      ensures st.Compiled? ==> open == old(open - Owned(e)) && Keeps(old(code), code, open)
      ensures st.Failed? ==> LimitHit(st)
    {
      hide ActsOf, CodeOk, DescOk, Distinct, FinalPatch, IsList, Keeps, LimitHit, Means;
      ghost var d, t0, f0, c0, open0, jpc0, here0, lt0 := e.View(), e.t, e.f, code, open, jpc, here, lasttarget;
      ghost var T, c1, tail;
      var p_f, p_t;
      st, T, c1, tail, p_f, p_t := PatchLists(e, reg);
      if st.Failed? {
        return;
      }
      open := open - Elems(e.fl) - Elems(T);
      DescDone(nactvar, c0, c1, k, open0, jpc0, here0, lt0, d, t0, f0, tail, code, jpc, here, lasttarget, reg, p_f, p_t,
               ex, pre, base, freereg);
      e.f, e.t, e.tl, e.fl := NO_JUMP, NO_JUMP, [], [];
      e.info, e.kind := reg, VNONRELOC;
    }

    /** exp2reg: the whole value of e, also where it is left by jumps, goes to register reg. */
    method Exp2Reg(e: ExpDesc, reg: int, ghost ex: Exp, ghost pre: seq<Action>, ghost base: nat) returns (st: Status)
      requires Valid() && IsCode(e, ex, pre, base) && base <= reg < freereg
      modifies this`code, this`jpc, this`here, this`k, this`kindex, this`open, this`lasttarget, e
      ensures st.Compiled? ==> Valid() && IsCode(e, ex, pre, base)
      ensures st.Compiled? ==> e.kind == VNONRELOC && e.info == reg && e.tl == e.fl == []
      ensures st.Compiled? ==> open == old(open - Owned(e)) && Keeps(old(code), code, open)
      ensures old(k) <= k
      ensures st.Failed? ==> LimitHit(st)
    {
      hide Means, CodeOk, IsList;
      :- Discharge2Reg(e, reg, ex, pre, base);
      st := PatchExp(e, reg, ex, pre, base);
    }

    // ---- Expressions in registers and as operands ----

    /** Where an expression begun with registers from base free keeps its value: a temporary is the
        register at base, and then top is above it. */
    ghost predicate Placed(e: ExpDesc, base: nat, top: int)
      reads this, e
    {
      nactvar <= base
      && if e.kind == VNONRELOC && e.info >= nactvar then e.info == base && top == base + 1 else top == base
    }

    /** discharge2anyreg. */
    method Discharge2AnyReg(e: ExpDesc, ghost ex: Exp, ghost pre: seq<Action>, ghost base: nat) returns (st: Status)
      requires Valid() && IsCode(e, ex, pre, base) && Placed(e, base, freereg) && e.kind != VJMP && e.kind != VLOCAL
      modifies this`code, this`jpc, this`here, this`k, this`kindex, this`freereg, e`kind, e`info
      ensures st.Compiled? ==> Valid() && IsCode(e, ex, pre, base) && Keeps(old(code), code, open)
      ensures st.Compiled? ==> e.kind == VNONRELOC && Placed(e, base, freereg)
      ensures old(k) <= k
      ensures GaveUp(st, base + 1)
    {
      hide Means, CodeOk, IsList, Keeps;
      if e.kind != VNONRELOC {
        :- ReserveRegs(1);
        st := Discharge2Reg(e, freereg - 1, ex, pre, base);
      } else {
        KeepsSelf(code, k, open, jpc, here, lasttarget);
        st := Compiled;
      }
    }

    /** luaK_exp2nextreg. */
    method Exp2NextReg(e: ExpDesc, ghost ex: Exp, ghost pre: seq<Action>, ghost base: nat) returns (st: Status)
      requires Valid() && IsCode(e, ex, pre, base) && Placed(e, base, freereg)
      modifies this`code, this`jpc, this`here, this`k, this`kindex, this`open, this`lasttarget, this`freereg, e
      ensures st.Compiled? ==> Valid() && IsCode(e, ex, pre, base)
      ensures st.Compiled? ==> e.kind == VNONRELOC && e.info == base && freereg == base + 1 && e.tl == e.fl == []
      ensures st.Compiled? ==> open == old(open - Owned(e)) && Keeps(old(code), code, open)
      ensures old(k) <= k
      ensures GaveUp(st, base + 1)
    {
      hide Means, CodeOk, IsList, Keeps;
      DischargeVars(e);
      FreeExp(e);
      :- ReserveRegs(1);
      st := Exp2Reg(e, freereg - 1, ex, pre, base);
    }

    /** luaK_exp2anyreg. */
    method Exp2AnyReg(e: ExpDesc, ghost ex: Exp, ghost pre: seq<Action>, ghost base: nat) returns (st: Status, reg: int)
      requires Valid() && IsCode(e, ex, pre, base) && Placed(e, base, freereg)
      modifies this`code, this`jpc, this`here, this`k, this`kindex, this`open, this`lasttarget, this`freereg, e
      ensures st.Compiled? ==> Valid() && IsCode(e, ex, pre, base) && Placed(e, base, freereg)
      ensures st.Compiled? ==> e.kind == VNONRELOC && e.info == reg && e.tl == e.fl == []
      ensures st.Compiled? ==> open == old(open - Owned(e)) && Keeps(old(code), code, open)
      ensures old(e.kind == VNONRELOC && e.t == e.f) ==>
                st == Compiled && unchanged(this) && e.View() == old(e.View()) && e.t == e.f == old(e.t)
      ensures old(k) <= k
      ensures GaveUp(st, base + 1)
    {
      hide Means, CodeOk, Keeps;
      reg := 0;
      DischargeVars(e);
      SameHead(code, e.t, e.f, e.tl, e.fl);
      if e.kind == VNONRELOC {
        if e.t == e.f {
          KeepsSelf(code, k, open, jpc, here, lasttarget);
          return Compiled, e.info;
        }
        if e.info >= nactvar {
          :- Exp2Reg(e, e.info, ex, pre, base);
          return Compiled, e.info;
        }
      }
      :- Exp2NextReg(e, ex, pre, base);
      return Compiled, e.info;
    }

    /** luaK_exp2val. */
    method Exp2Val(e: ExpDesc, ghost ex: Exp, ghost pre: seq<Action>, ghost base: nat) returns (st: Status)
      requires Valid() && IsCode(e, ex, pre, base) && Placed(e, base, freereg)
      modifies this`code, this`jpc, this`here, this`k, this`kindex, this`open, this`lasttarget, this`freereg, e
      ensures st.Compiled? ==> Valid() && IsCode(e, ex, pre, base) && Placed(e, base, freereg) && e.tl == e.fl == []
      ensures st.Compiled? && old(e.t != e.f) ==> e.kind == VNONRELOC && open == old(open - Owned(e)) && e.t == e.f
      ensures st.Compiled? ==> Keeps(old(code), code, open)
      ensures old(e.t == e.f) ==> st == Compiled && unchanged(this) && e.t == e.f
      ensures old(e.t == e.f) ==> e.View() == old(e.View()).(kind := if old(e.kind) == VLOCAL then VNONRELOC
                                                                     else old(e.kind))
      ensures old(k) <= k
      ensures GaveUp(st, base + 1)
    {
      hide Means, CodeOk, Keeps;
      SameHead(code, e.t, e.f, e.tl, e.fl);
      if e.t != e.f {
        var reg;
        st, reg := Exp2AnyReg(e, ex, pre, base);
      } else {
        DischargeVars(e);
        KeepsSelf(code, k, open, jpc, here, lasttarget);
        st := Compiled;
      }
    }

    /** A constant becomes an entry of k. */
    method ConstToK(e: ExpDesc, v: Value, ghost ex: Exp, ghost pre: seq<Action>, ghost base: nat) returns (st: Status)
      requires Valid() && IsCode(e, ex, pre, base) && e.tl == e.fl == [] && |k| <= MAXINDEXRK
      requires e.kind in {VNIL, VTRUE, VFALSE, VKNUM} && v == ConstantOf(e.kind, e.nval)
      modifies this`k, this`kindex, e`kind, e`info
      ensures st == Compiled && Valid() && IsCode(e, ex, pre, base)
      ensures e.kind == VK && 0 <= e.info <= MAXINDEXRK && e.info < |k| && old(k) <= k
    {
      hide CodeOk, IsList, Means;
      ghost var d, k0 := e.View(), k;
      var idx;
      st, idx := AddK(v);
      MeansSame(nactvar, code, k0, Acts(), d, ex, pre, base, k, d.(kind := VK, info := idx));
      e.info, e.kind := idx, VK;
    }

    /** What luaK_exp2RK leaves alone. */
    ghost predicate IsOperand(e: ExpDesc)
      reads this, e
    {
      e.tl == e.fl == [] && (e.kind == VNONRELOC || (e.kind == VK && e.info <= MAXINDEXRK))
    }

    /** luaK_exp2RK: a register or a constant small enough to be an operand. */
    method Exp2RK(e: ExpDesc, ghost ex: Exp, ghost pre: seq<Action>, ghost base: nat) returns (st: Status, o: int)
      requires Valid() && IsCode(e, ex, pre, base) && Placed(e, base, freereg)
      modifies this`code, this`jpc, this`here, this`k, this`kindex, this`open, this`lasttarget, this`freereg, e
      ensures st.Compiled? ==> Valid() && IsCode(e, ex, pre, base) && Placed(e, base, freereg) && IsOperand(e)
      ensures st.Compiled? ==> o == if e.kind == VK then e.info + BITRK else e.info
      ensures st.Compiled? ==> open == old(open - Owned(e)) && Keeps(old(code), code, open)
      ensures old(IsOperand(e)) ==> st == Compiled && unchanged(this) && e.View() == old(e.View())
      ensures old(k) <= k
      ensures GaveUp(st, base + 1)
    {
      hide IsList, JumpTo, Keeps, Means, Valid;
      o := 0;
      SameHead(code, e.t, e.f, e.tl, e.fl);
      :- Exp2Val(e, ex, pre, base);
      match e.kind {
        case VKNUM | VTRUE | VFALSE | VNIL =>
          if |k| <= MAXINDEXRK {
            st := ConstToK(e, ConstantOf(e.kind, e.nval), ex, pre, base);
            return st, e.info + BITRK;
          }
        case VK =>
          if e.info <= MAXINDEXRK {
            return Compiled, e.info + BITRK;
          }
        case _ =>
      }
      ghost var c1, open1 := code, open;
      st, o := Exp2AnyReg(e, ex, pre, base);
      if st.Compiled? { KeepsTwice(old(code), c1, code, open1, open); }
    }

    // ---- Branching on expressions ----

    /** invertjump, on the pending comparison that ends the code: a0 and c are the code before it and
        its test. */
    method InvertJump(e: ExpDesc) returns (ghost a0: seq<Action>, ghost c: Cond)
      requires Valid() && ExpOk(e) && e.kind == VJMP
      modifies this`code
      ensures Valid() && ExpOk(e) && Keeps(old(code), code, open - {e.info}) && |code| == |old(code)|
      ensures old(Acts()) == WithBranch(a0, c) && Acts() == WithBranch(a0, Negated(c)) && ActsOk(a0, |a0|)
      ensures |a0| + 1 == e.info
    {
      hide IsList, Controlled;
      ghost var c0, open0, code0 := code[..|code| - 2], open - {e.info}, code;
      assert Elems(here) == {};
      a0, c := LastBranch(k, code, open, lasttarget);
      var i := JumpControl(e.info);
      var test := code[i];
      code := code[i := Test2(test.cmp, !test.cond, test.b, test.c)];
      assert code == c0 + [code[i], Jmp(NO_JUMP)];
      ActsBranch(k, c0, code[i], open0);
      assert open0 + {e.info} == open;
      ActsOkAppend(a0, [Branch(Negated(c), -1, Open), JumpWord], lasttarget);
      NotJumpSet(code0, code, i, open, jpc, here);
      NotJumpSet(code0, code, i, open, e.t, e.tl);
      NotJumpSet(code0, code, i, open, e.f, e.fl);
    }

    /** Dropping the NOT that ends the code (lcode.c:528). */
    method DropNot(e: ExpDesc)
      requires Valid() && ExpOk(e) && e.kind == VRELOCABLE
      modifies this`code
      ensures code == old(code)[..|old(code)| - 1] && Valid() && here == [] && Keeps(old(code), code, open)
      ensures Acts() == Before(e.View(), old(Acts()))
      ensures IsList(code, e.t, e.tl) && IsList(code, e.f, e.fl)
    {
      hide ActAt, ActsOf, ActsOk, BranchOf, Controlled, Dest, Distinct, IsList, IsReg, JumpTo, OperandOf, TargetOk;
      assert Elems(here) == {};
      LastAction(k, code, open, lasttarget);
      ListShortened(code, jpc, here);
      ListShortened(code, e.t, e.tl);
      ListShortened(code, e.f, e.fl);
      code := code[..|code| - 1];
    }

    /** The case of jumponcond for a negation that was just emitted: it is dropped, and its operand tested. */
    method JumpOnNot(e: ExpDesc, cond: bool, ghost ex: Exp, ghost pre: seq<Action>, ghost base: nat)
      returns (st: Status, pc: int)
      requires Valid() && IsCode(e, ex, pre, base) && Placed(e, base, freereg) && e.kind == VRELOCABLE
               && code[e.info].OpNot?
      modifies this`code, this`jpc, this`here, this`open
      ensures st.Compiled? ==> Valid() && freereg == base && Keeps(old(code), code, old(open))
      ensures st.Compiled? ==> open == old(open) + {pc} && pc !in old(open)
      ensures st.Compiled? ==> IsList(code, pc, [pc]) && IsList(code, e.t, e.tl) && IsList(code, e.f, e.fl)
      ensures st.Compiled? ==> Forks(nactvar, code, Acts(), e.tl + (if cond then [pc] else []),
                                     e.fl + (if cond then [] else [pc]), !cond, ex, pre, base)
      ensures st.Failed? ==> LimitHit(st)
    {
      hide ActsOf, Carried, CodeOk, FallOk, Forks, IsList, Keeps, Means;
      ghost var c0, d, a0 := code, e.View(), Acts();
      var b := code[e.info].b;
      assert IsReg(b) && Elems(d.tl) + Elems(d.fl) <= open;
      DropNot(e);
      hide DescOk;
      ghost var c1 := code;
      st, pc := CondJump(Test(b, !cond));
      if st.Compiled? {
        KeepsTwice(c0, c1, code, open - {pc}, open - {pc});
        ListsKept(c1, code, open - {pc}, e.t, e.tl);
        ListsKept(c1, code, open - {pc}, e.f, e.fl);
        KeepsLess(c0, code, open - {pc}, Elems(d.tl) + Elems(d.fl));
        NotForks(nactvar, c0, k, a0, d, ex, pre, base, code, Acts(), b, cond, pc);
      }
    }

    /** The case of jumponcond for any other value. */
    method JumpOnValue(e: ExpDesc, cond: bool, ghost ex: Exp, ghost pre: seq<Action>, ghost base: nat)
      returns (st: Status, pc: int)
      requires Valid() && IsCode(e, ex, pre, base) && Placed(e, base, freereg) && e.kind != VJMP && e.kind != VLOCAL
      modifies this`code, this`jpc, this`here, this`k, this`kindex, this`freereg, this`open, e`kind, e`info
      ensures st.Compiled? ==> Valid() && freereg == base && Keeps(old(code), code, old(open))
      ensures st.Compiled? ==> open == old(open) + {pc} && pc !in old(open)
      ensures st.Compiled? ==> IsList(code, pc, [pc]) && IsList(code, e.t, e.tl) && IsList(code, e.f, e.fl)
      ensures st.Compiled? ==> Forks(nactvar, code, Acts(), e.tl + (if cond then [pc] else []),
                                     e.fl + (if cond then [] else [pc]), !cond, ex, pre, base)
      ensures old(k) <= k
      ensures GaveUp(st, base + 1)
    {
      hide ActsOf, CodeOk, Forks, IsList, Keeps, Means;
      ghost var c0 := code;
      pc := NO_JUMP;
      :- Discharge2AnyReg(e, ex, pre, base);
      FreeExp(e);
      ghost var d, c1, a1 := e.View(), code, Acts();
      st, pc := CondJump(TestSet(NO_REG, e.info, cond));
      if st.Compiled? {
        KeepsTwice(c0, c1, code, open - {pc}, open - {pc});
        KeepsLess(c1, code, open - {pc}, Elems(d.tl) + Elems(d.fl));
        ListsKept(c1, code, open - {pc}, e.t, e.tl);
        ListsKept(c1, code, open - {pc}, e.f, e.fl);
        JumpForks(nactvar, c1, k, a1, d, ex, pre, base, code, Acts(), e.info, cond, cond, pc);
      }
    }

    /** jumponcond: jump when the truth of e is cond. The new jump pc is a list of its own. */
    method JumpOnCond(e: ExpDesc, cond: bool, ghost ex: Exp, ghost pre: seq<Action>, ghost base: nat)
      returns (st: Status, pc: int)
      requires Valid() && IsCode(e, ex, pre, base) && Placed(e, base, freereg) && e.kind != VJMP && e.kind != VLOCAL
      modifies this`code, this`jpc, this`here, this`k, this`kindex, this`freereg, this`open, e`kind, e`info
      ensures st.Compiled? ==> Valid() && freereg == base && Keeps(old(code), code, old(open))
      ensures st.Compiled? ==> open == old(open) + {pc} && pc !in old(open)
      ensures st.Compiled? ==> IsList(code, pc, [pc]) && IsList(code, e.t, e.tl) && IsList(code, e.f, e.fl)
      ensures st.Compiled? ==> Forks(nactvar, code, Acts(), e.tl + (if cond then [pc] else []),
                                     e.fl + (if cond then [] else [pc]), !cond, ex, pre, base)
      ensures old(k) <= k
      ensures GaveUp(st, base + 1)
    {
      hide ActsOf, CodeOk, Forks, IsList, Keeps, Means;
      if e.kind == VRELOCABLE && code[e.info].OpNot? {
        st, pc := JumpOnNot(e, cond, ex, pre, base);
      } else {
        st, pc := JumpOnValue(e, cond, ex, pre, base);
      }
    }

    /** Constants of the source are never nil or false; those have kinds of their own. */
    ghost predicate TrueConstant(e: ExpDesc)
      reads this, e
    {
      (e.kind == VK ==> 0 <= e.info < |k| && Truthy(k[e.info])) && (e.kind == VKNUM ==> e.nval.Num?)
    }

    /** The switch of luaK_goiftrue: the jumps P leave when e is false. */
    method JumpIfFalse(e: ExpDesc, ghost ex: Exp, ghost pre: seq<Action>, ghost base: nat)
      returns (st: Status, pc: int, ghost P: seq<int>)
      requires Valid() && IsCode(e, ex, pre, base) && Placed(e, base, freereg) && e.kind != VLOCAL && TrueConstant(e)
      modifies this`code, this`jpc, this`here, this`k, this`kindex, this`freereg, this`open, e`kind, e`info
      ensures st.Compiled? ==> Valid() && freereg == base && Keeps(old(code), code, old(open - JumpOf(e)))
      ensures st.Compiled? ==> open == old(open) + Elems(P) && Elems(P) !! old(open - JumpOf(e))
                               && old(JumpOf(e)) <= Elems(P)
      ensures st.Compiled? ==> IsList(code, pc, P) && IsList(code, e.t, e.tl) && IsList(code, e.f, e.fl)
      ensures st.Compiled? ==> Forks(nactvar, code, Acts(), e.tl, e.fl + P, true, ex, pre, base)
      ensures old(k) <= k
      ensures GaveUp(st, base + 1)
    {
      hide ActsOf, CodeOk, Distinct, Forks, IsList, Keeps, Means;
      P, pc := [], NO_JUMP;
      if e.kind == VK || e.kind == VKNUM || e.kind == VTRUE {
        ConstForks(nactvar, code, k, Acts(), e.View(), true, ex, pre, base);
        assert e.fl + P == e.fl;
        NoList(code, jpc, pc);
        KeepsSelf(code, k, open, jpc, here, lasttarget);
        KeepsLess(code, code, open, open - JumpOf(e));
        st := Compiled;
      } else if e.kind == VJMP {
        ghost var c0 := code;
        ghost var a0, c := InvertJump(e);
        pc, P := e.info, [e.info];
        KeepsLess(c0, code, open - {e.info}, Elems(e.tl) + Elems(e.fl));
        KeepsLess(c0, code, open - {e.info}, old(open - JumpOf(e)));
        FlippedForks(nactvar, c0, k, a0, c, e.View(), ex, pre, base, code);
        JumpIsList(code, pc);
        st := Compiled;
      } else {
        st, pc := JumpOnCond(e, false, ex, pre, base);
        P := [pc];
        assert e.tl + [] == e.tl;
        if st.Compiled? { KeepsLess(old(code), code, old(open), old(open - JumpOf(e))); }
      }
    }

    /** The switch of luaK_goiffalse: the jumps P leave when e is true. */
    method JumpIfTrue(e: ExpDesc, ghost ex: Exp, ghost pre: seq<Action>, ghost base: nat)
      returns (st: Status, pc: int, ghost P: seq<int>)
      requires Valid() && IsCode(e, ex, pre, base) && Placed(e, base, freereg) && e.kind != VLOCAL
      modifies this`code, this`jpc, this`here, this`k, this`kindex, this`freereg, this`open, e`kind, e`info
      ensures st.Compiled? ==> Valid() && freereg == base && Keeps(old(code), code, old(open - JumpOf(e)))
      ensures st.Compiled? ==> open == old(open) + Elems(P) && Elems(P) !! old(open - JumpOf(e))
                               && old(JumpOf(e)) <= Elems(P)
      ensures st.Compiled? ==> IsList(code, pc, P) && IsList(code, e.t, e.tl) && IsList(code, e.f, e.fl)
      ensures st.Compiled? ==> Forks(nactvar, code, Acts(), e.tl + P, e.fl, false, ex, pre, base)
      ensures old(k) <= k
      ensures GaveUp(st, base + 1)
    {
      hide Means, CodeOk, IsList, Keeps, Forks;
      P, pc := [], NO_JUMP;
      if e.kind == VNIL || e.kind == VFALSE {
        ConstForks(nactvar, code, k, Acts(), e.View(), false, ex, pre, base);
        assert e.tl + P == e.tl;
        NoList(code, jpc, pc);
        KeepsSelf(code, k, open, jpc, here, lasttarget);
        KeepsLess(code, code, open, open - JumpOf(e));
        st := Compiled;
      } else if e.kind == VJMP {
        PendingForks(nactvar, code, k, Acts(), e.View(), ex, pre, base);
        pc, P := e.info, [e.info];
        JumpIsList(code, pc);
        KeepsSelf(code, k, open, jpc, here, lasttarget);
        KeepsLess(code, code, open, open - JumpOf(e));
        st := Compiled;
      } else {
        st, pc := JumpOnCond(e, true, ex, pre, base);
        P := [pc];
        assert e.fl + [] == e.fl;
        if st.Compiled? { KeepsLess(old(code), code, old(open), old(open - JumpOf(e))); }
      }
    }

    ghost predicate ListsOk(e: ExpDesc)
      reads this, e
    {
      && IsList(code, e.t, e.tl) && IsList(code, e.f, e.fl) && Elems(e.tl) !! Elems(e.fl)
      && Elems(e.tl) <= open && Elems(e.fl) <= open
    }

    /** The jump of a test joins the list of false exits. */
    method ExtendFalse(e: ExpDesc, pc: int, ghost P: seq<int>, ghost want: bool, ghost ex: Exp, ghost pre: seq<Action>,
                     ghost base: nat) returns (st: Status)
      requires Valid() && ListsOk(e) && IsList(code, pc, P) && Elems(P) !! Elems(e.tl) + Elems(e.fl)
      requires Forks(nactvar, code, Acts(), e.tl, e.fl + P, want, ex, pre, base)
      modifies this`code, e`f, e`fl
      ensures st.Compiled? ==> Valid() && e.fl == old(e.fl) + P && IsList(code, e.t, e.tl) && IsList(code, e.f, e.fl)
      ensures st.Compiled? ==> Forks(nactvar, code, Acts(), e.tl, e.fl, want, ex, pre, base)
      ensures st.Compiled? ==> Keeps(old(code), code, old(open - Elems(e.fl)))
      ensures st.Failed? ==> LimitHit(st)
    {
      hide IsList, Forks;
      ghost var c0 := code;
      var l;
      st, l := Join(e.f, pc, e.fl, P);
      if st.Compiled? {
        ListRelinked(c0, code, e.fl, e.t, e.tl);
        ForksRelinked(nactvar, c0, code, Acts(), e.tl, e.fl + P, want, ex, pre, base);
        e.f, e.fl := l, e.fl + P;
      }
    }

    /** The jump of a test joins the list of true exits. */
    method ExtendTrue(e: ExpDesc, pc: int, ghost P: seq<int>, ghost want: bool, ghost ex: Exp, ghost pre: seq<Action>,
                     ghost base: nat) returns (st: Status)
      requires Valid() && ListsOk(e) && IsList(code, pc, P) && Elems(P) !! Elems(e.tl) + Elems(e.fl)
      requires Forks(nactvar, code, Acts(), e.tl + P, e.fl, want, ex, pre, base)
      modifies this`code, e`t, e`tl
      ensures st.Compiled? ==> Valid() && e.tl == old(e.tl) + P && IsList(code, e.t, e.tl) && IsList(code, e.f, e.fl)
      ensures st.Compiled? ==> Forks(nactvar, code, Acts(), e.tl, e.fl, want, ex, pre, base)
      ensures st.Compiled? ==> Keeps(old(code), code, old(open - Elems(e.tl)))
      ensures st.Failed? ==> LimitHit(st)
    {
      hide IsList, Forks;
      ghost var c0 := code;
      var l;
      st, l := Join(e.t, pc, e.tl, P);
      if st.Compiled? {
        ListRelinked(c0, code, e.tl, e.f, e.fl);
        ForksRelinked(nactvar, c0, code, Acts(), e.tl + P, e.fl, want, ex, pre, base);
        e.t, e.tl := l, e.tl + P;
      }
    }

    /** The exits L of a fork with the truth that goes on now arrive here; the exits M remain. */
    method PatchFork(list: int, ghost keep: int, ghost L: seq<int>, ghost M: seq<int>, ghost want: bool, ghost ex: Exp,
                     ghost pre: seq<Action>, ghost base: nat) returns (st: Status)
      requires Valid() && IsList(code, list, L) && IsList(code, keep, M)
      requires Elems(L) !! Elems(M) && Elems(L) <= open && Elems(M) <= open
      requires Forks(nactvar, code, Acts(), if want then L else M, if want then M else L, want, ex, pre, base)
      modifies this`code, this`jpc, this`here, this`lasttarget, this`open
      ensures st.Compiled? ==> Valid() && open == old(open) - Elems(L) && Keeps(old(code), code, open)
      ensures st.Compiled? ==> IsList(code, keep, M)
      ensures st.Compiled? ==> Forks(nactvar, code, Acts(), if want then [] else M,
                                     if want then M else [], want, ex, pre, base)
      ensures st.Failed? ==> LimitHit(st)
    {
      hide CodeOk, IsList, Keeps, Forks;
      ghost var c2, a2 := code, Acts();
      st := PatchToHere(list, L);
      if st.Compiled? {
        ForksPatched(nactvar, c2, a2, Acts(), if want then L else M, if want then M else L, want, ex, pre, base);
        ForksRelinked(nactvar, c2, code, Acts(), if want then [] else M, if want then M else [], want, ex, pre, base);
        ListsKept(c2, code, open, keep, M);
      }
    }

    /** luaK_goiftrue: go on when e is true, leave by the list of false exits when it is not. */
    method GoIfTrue(e: ExpDesc, ghost ex: Exp, ghost pre: seq<Action>, ghost base: nat) returns (st: Status)
      requires Valid() && IsCode(e, ex, pre, base) && Placed(e, base, freereg) && TrueConstant(e)
      modifies this`code, this`jpc, this`here, this`k, this`kindex, this`freereg, this`open, this`lasttarget, e
      ensures st.Compiled? ==> Valid() && freereg == base && e.t == NO_JUMP && e.tl == [] && IsList(code, e.f, e.fl)
      ensures st.Compiled? ==> open == old(open - Owned(e)) + Elems(e.fl) && Elems(e.fl) !! old(open - Owned(e))
      ensures st.Compiled? ==> Keeps(old(code), code, old(open - Owned(e)))
      ensures st.Compiled? ==> Forks(nactvar, code, Acts(), [], e.fl, true, ex, pre, base)
      ensures old(k) <= k
      ensures GaveUp(st, base + 1)
    {
      hide ActsOf, CodeOk, DescOk, Distinct, Elems, Forks, IsList, Keeps, Means, OwnedBy, Relinked;
      DescSets(code, k, open, here, lasttarget, nactvar, freereg, e.View(), e.t, e.f);
      ghost var c0, open0, J, rest := code, open, JumpOf(e), open - Owned(e);
      DischargeVars(e);
      var pc;
      ghost var P;
      st, pc, P := JumpIfFalse(e, ex, pre, base);
      if st.Failed? {
        return;
      }
      ghost var c1, open1, F1 := code, open, e.fl;
      ForkSets(open0, J, P, e.tl, e.fl);
      st := ExtendFalse(e, pc, P, true, ex, pre, base);
      if st.Failed? {
        return;
      }
      ghost var c2 := code;
      st := PatchFork(e.t, e.f, e.tl, e.fl, true, ex, pre, base);
      if st.Compiled? {
        KeepsThrice(c0, c1, c2, code, open0 - J, open1 - Elems(F1), open, rest);
      }
      e.t, e.tl := NO_JUMP, [];
    }

    /** luaK_goiffalse: go on when e is false, leave by the list of true exits when it is not. */
    method GoIfFalse(e: ExpDesc, ghost ex: Exp, ghost pre: seq<Action>, ghost base: nat) returns (st: Status)
      requires Valid() && IsCode(e, ex, pre, base) && Placed(e, base, freereg)
      modifies this`code, this`jpc, this`here, this`k, this`kindex, this`freereg, this`open, this`lasttarget, e
      ensures st.Compiled? ==> Valid() && freereg == base && e.f == NO_JUMP && e.fl == [] && IsList(code, e.t, e.tl)
      ensures st.Compiled? ==> open == old(open - Owned(e)) + Elems(e.tl) && Elems(e.tl) !! old(open - Owned(e))
      ensures st.Compiled? ==> Keeps(old(code), code, old(open - Owned(e)))
      ensures st.Compiled? ==> Forks(nactvar, code, Acts(), e.tl, [], false, ex, pre, base)
      ensures old(k) <= k
      ensures GaveUp(st, base + 1)
    {
      hide ActsOf, CodeOk, DescOk, Distinct, Elems, Forks, IsList, Keeps, Means, OwnedBy, Relinked;
      DescSets(code, k, open, here, lasttarget, nactvar, freereg, e.View(), e.t, e.f);
      ghost var c0, open0, J, rest := code, open, JumpOf(e), open - Owned(e);
      DischargeVars(e);
      var pc;
      ghost var P;
      st, pc, P := JumpIfTrue(e, ex, pre, base);
      if st.Failed? {
        return;
      }
      ghost var c1, open1, F1 := code, open, e.tl;
      ForkSets(open0, J, P, e.fl, e.tl);
      st := ExtendTrue(e, pc, P, false, ex, pre, base);
      if st.Failed? {
        return;
      }
      ghost var c2 := code;
      st := PatchFork(e.f, e.t, e.fl, e.tl, false, ex, pre, base);
      if st.Compiled? {
        KeepsThrice(c0, c1, c2, code, open0 - J, open1 - Elems(F1), open, rest);
      }
      e.f, e.fl := NO_JUMP, [];
    }

    // ---- Operators ----

    /** removevalues. */
    method RemoveValues(list: int, ghost L: seq<int>)
      requires IsList(code, list, L)
      modifies this`code
      ensures code == ClearedCode(old(code), Elems(L))
    {
      var l := list;
      ghost var i := 0;
      ghost var c0 := code;
      assert ClearedCode(c0, Elems(L[..0])) == c0;
      while l != NO_JUMP
        invariant 0 <= i <= |L| && l == if i < |L| then L[i] else NO_JUMP
        invariant code == ClearedCode(c0, Elems(L[..i]))
        decreases |L| - i
      {
        ClearStep(c0, L, i);
        var b := PatchTestReg(l, NO_REG);
        assert code == ClearedCode(c0, Elems(L[..i + 1]));
        var next := JumpTo(code, l);
        assert next == JumpTo(c0, L[i]) == if i + 1 < |L| then L[i + 1] else NO_JUMP;
        l := next;
        i := i + 1;
      }
      assert L[..i] == L;
    }

    /** OP_NOT of the register of e. */
    method AppendNot(e: ExpDesc, ghost base: nat) returns (st: Status)
      requires Valid() && ExpOk(e) && Placed(e, base, freereg) && e.kind == VNONRELOC
      modifies this`code, this`jpc, this`here, this`freereg, e`kind, e`info
      ensures st.Compiled? ==> Valid() && ExpOk(e) && Placed(e, base, freereg) && e.kind == VRELOCABLE
      ensures st.Compiled? ==> Keeps(old(code), code, open)
      ensures st.Compiled? ==> Negation(old(code), k, old(Acts()), old(e.View()), code, Acts(), e.View(), [],
                                        Truth(0, true))
      ensures st.Failed? ==> LimitHit(st)
    {
      hide ActsOf, CodeOk, Distinct, Elems, IsList, Keeps;
      ghost var c0 := code;
      FreeExp(e);
      :- CodeInstr(OpNot(0, e.info));
      ListsKept(c0, code, open, e.t, e.tl);
      ListsKept(c0, code, open, e.f, e.fl);
      e.info, e.kind := |code| - 1, VRELOCABLE;
      st := Compiled;
    }

    /** OP_NOT of the value of e (lcode.c:602-607). */
    method NotInReg(e: ExpDesc, ghost ex: Exp, ghost pre: seq<Action>, ghost base: nat)
      returns (st: Status, ghost c0: seq<Instr>, ghost a0: seq<Action>, ghost d0: Desc)
      requires Valid() && IsCode(e, ex, pre, base) && Placed(e, base, freereg)
      requires e.kind == VRELOCABLE || e.kind == VNONRELOC
      modifies this`code, this`jpc, this`here, this`k, this`kindex, this`freereg, e`kind, e`info
      ensures st.Compiled? ==> Valid() && ExpOk(e) && Placed(e, base, freereg) && e.kind == VRELOCABLE
      ensures st.Compiled? ==> Keeps(old(code), code, open)
      ensures st.Compiled? ==> Means(nactvar, c0, k, a0, d0, ex, pre, base)
      ensures st.Compiled? ==> Negation(c0, k, a0, d0, code, Acts(), e.View(), [], Truth(0, true))
      ensures old(k) <= k
      ensures GaveUp(st, base + 1)
    {
      hide Means, CodeOk, IsList, Keeps, Negation;
      ghost var code0 := code;
      st := Discharge2AnyReg(e, ex, pre, base);
      c0, a0, d0 := code, Acts(), e.View();
      if st.Compiled? {
        st := AppendNot(e, base);
        if st.Compiled? { KeepsTwice(code0, c0, code, open, open); }
      }
    }

    /** The switch of codenot. What e was just before its value is negated is handed back. */
    method NegateValue(e: ExpDesc, ghost ex: Exp, ghost pre: seq<Action>, ghost base: nat)
      returns (st: Status, ghost c0: seq<Instr>, ghost a0: seq<Action>, ghost d0: Desc, ghost acts: seq<Action>,
               ghost c: Cond)
      requires Valid() && IsCode(e, ex, pre, base) && Placed(e, base, freereg) && e.kind != VLOCAL && TrueConstant(e)
      modifies this`code, this`jpc, this`here, this`k, this`kindex, this`freereg, e`kind, e`info
      ensures st.Compiled? ==> Valid() && ExpOk(e) && Placed(e, base, freereg) && e.kind != VK && e.kind != VKNUM
      ensures st.Compiled? ==> Keeps(old(code), code, open - JumpOf(e)) && JumpOf(e) == old(JumpOf(e))
      ensures st.Compiled? ==> Means(nactvar, c0, k, a0, d0, ex, pre, base)
                               && Negation(c0, k, a0, d0, code, Acts(), e.View(), acts, c)
      ensures old(k) <= k
      ensures GaveUp(st, base + 1)
    {
      hide Means, CodeOk, IsList, Keeps;
      c0, a0, d0, acts, c := code, Acts(), e.View(), [], Truth(0, true);
      if e.kind == VNIL || e.kind == VFALSE {
        e.kind := VTRUE;
      } else if e.kind == VK || e.kind == VKNUM || e.kind == VTRUE {
        e.kind := VFALSE;
      } else if e.kind == VJMP {
        acts, c := InvertJump(e);
        return Compiled, c0, a0, d0, acts, c;
      } else {
        st, c0, a0, d0 := NotInReg(e, ex, pre, base);
        if st.Compiled? { KeepsLess(old(code), code, open, open - JumpOf(e)); }
        return;
      }
      KeepsSelf(code, k, open, jpc, here, lasttarget);
      KeepsLess(code, code, open, open - JumpOf(e));
      st := Compiled;
    }

    /** The end of codenot: interchange the lists of e, whose jumps then carry no values. */
    method SwapLists(e: ExpDesc)
      requires ListsOk(e)
      modifies this`code, e`t, e`f, e`tl, e`fl
      ensures e.View() == old(e.View()).(tl := old(e.fl), fl := old(e.tl)) && e.t == old(e.f) && e.f == old(e.t)
      ensures code == BothCleared(old(code), old(e.View()))
    {
      hide IsList, ClearedCode;
      e.f, e.t := e.t, e.f;
      e.fl, e.tl := e.tl, e.fl;
      ListCleared(code, Elems(e.fl), e.t, e.tl);
      RemoveValues(e.f, e.fl);
      RemoveValues(e.t, e.tl);
    }

    /** codenot. */
    method CodeNot(e: ExpDesc, ghost ex: Exp, ghost pre: seq<Action>, ghost base: nat) returns (st: Status)
      requires Valid() && IsCode(e, ex, pre, base) && Placed(e, base, freereg) && TrueConstant(e)
      modifies this`code, this`jpc, this`here, this`k, this`kindex, this`freereg, e
      ensures st.Compiled? ==> Valid() && IsCode(e, Not(ex), pre, base) && Placed(e, base, freereg)
      ensures st.Compiled? ==> e.kind != VK && e.kind != VKNUM && Owned(e) == old(Owned(e))
      ensures st.Compiled? ==> Keeps(old(code), code, open - Owned(e))
      ensures old(k) <= k
      ensures GaveUp(st, base + 1)
    {
      hide Means, CodeOk, IsList, Keeps, Negation, BothCleared, ActsOf, Elems;
      DischargeVars(e);
      ghost var code0 := code;
      ghost var c0, a0, d0, acts, c;
      st, c0, a0, d0, acts, c := NegateValue(e, ex, pre, base);
      if st.Failed? {
        return;
      }
      ghost var c1 := code;
      NotDone(nactvar, c0, k, a0, d0, ex, pre, base, c1, open, jpc, here, lasttarget, freereg, e.View(), e.t, e.f,
              acts, c);
      ghost var own := Owned(e);
      KeepsLess(code0, c1, open - JumpOf(e), open - own);
      KeepsLess(c1, BothCleared(c1, e.View()), open - Elems(e.tl) - Elems(e.fl), open - own);
      SwapLists(e);
      assert Owned(e) == own;
      KeepsTwice(code0, c1, code, open - own, open - own);
      st := Compiled;
    }

    /** The end of codecomp: choose the instruction, exchanging the operands for > and >=. */
    method CodeTest(op: Relation, o1: int, o2: int) returns (st: Status, pc: int)
      requires Valid() && OperandOf(k, o1).Some? && OperandOf(k, o2).Some?
      modifies this`code, this`jpc, this`here, this`open
      ensures st.Compiled? ==> Valid() && here == [] && Keeps(old(code), code, old(open)) && lasttarget <= |code| - 2
      ensures st.Compiled? ==> pc == |code| - 1 == |old(code)| + 1 && open == old(open) + {pc} && pc !in old(open)
      ensures st.Compiled? ==> code[pc - 1].Test2? && code[pc] == Jmp(NO_JUMP)
      ensures st.Compiled? ==> Acts() == WithBranch(old(Acts()),
                                                    CompareCond(op, OperandOf(k, o1).value, OperandOf(k, o2).value))
      ensures st.Failed? ==> LimitHit(st)
    {
      hide Keeps, CodeOk;
      var x, y := o1, o2;
      var cmp := if op == EQ || op == NE then OpEq else if op == LT || op == GT then OpLt else OpLe;
      var cond := op == EQ || op == LT || op == LE;
      if !cond && cmp != OpEq {
        x, y := y, x;
        cond := true;
      }
      st, pc := CondJump(Test2(cmp, cond, x, y));
    }

    /** codecomp up to its test: c2, a2 and d2 are the second operand just before. */
    method CodeOperands(op: Relation, e1: ExpDesc, e2: ExpDesc, ghost b: Exp, ghost base: nat, ghost a1: seq<Action>,
                    ghost base2: nat)
      returns (st: Status, pc: int, ghost c2: seq<Instr>, ghost a2: seq<Action>, ghost d2: Desc)
      requires Valid() && IsCode(e2, b, a1, base2) && Placed(e2, base2, freereg) && e1 != e2
      requires IsOperand(e1) && Placed(e1, base, base2)
      requires if e1.kind == VK then 0 <= e1.info < |k| else 0 <= e1.info < base2
      modifies this`code, this`jpc, this`here, this`k, this`kindex, this`open, this`lasttarget, this`freereg, e2
      ensures st.Compiled? ==> Valid() && freereg == base && here == [] && lasttarget <= |code| - 2
      ensures st.Compiled? ==> pc == |code| - 1 == |a2| + 1 && code[pc] == Jmp(NO_JUMP) && code[pc - 1].Test2?
      ensures st.Compiled? ==> open == old(open - Owned(e2)) + {pc} && pc !in old(open - Owned(e2))
      ensures st.Compiled? ==> Keeps(old(code), code, old(open - Owned(e2)))
      ensures st.Compiled? ==> Means(nactvar, c2, k, a2, d2, b, a1, base2) && d2.tl == d2.fl == []
      ensures st.Compiled? ==> if d2.kind == VK then 0 <= d2.info < |k| else d2.kind == VNONRELOC && IsReg(d2.info)
      ensures st.Compiled? ==> Acts() == WithBranch(a2,
                                                    CompareCond(op, OperandOfDesc(k, e1.View()), OperandOfDesc(k, d2)))
      ensures old(k) <= k
      ensures GaveUp(st, base2 + 1)
    {
      hide Dest, Elems, Encoding, IsList, IsTest, Keeps, Means, OperandOf, OperandOfDesc, Owned;
      ghost var c0 := code;
      var o1 := if e1.kind == VK then e1.info + BITRK else e1.info;
      c2, a2, d2, pc := [], [], e2.View(), NO_JUMP;
      var o2;
      st, o2 := Exp2RK(e2, b, a1, base2);
      if st.Failed? {
        return;
      }
      FreeExp(e2);
      FreeExp(e1);
      c2, a2, d2 := code, Acts(), e2.View();
      ghost var rest := open;
      OperandKnown(k, e1.View());
      OperandKnown(k, d2);
      st, pc := CodeTest(op, o1, o2);
      if st.Compiled? { KeepsTwice(c0, c2, code, rest, rest); }
    }

    /** codecomp: the first operand is ready since luaK_infix, when the code was c1 with constants k1. */
    method CodeComp(op: Relation, e1: ExpDesc, e2: ExpDesc, ghost a: Exp, ghost b: Exp, ghost pre: seq<Action>,
                    ghost base: nat, ghost c1: seq<Instr>, ghost k1: seq<Value>, ghost a1: seq<Action>,
                    ghost base2: nat)
      returns (st: Status)
      requires Valid() && IsCode(e2, b, a1, base2) && Placed(e2, base2, freereg) && e1 != e2
      requires IsOperand(e1) && Placed(e1, base, base2) && e1.t == e1.f == NO_JUMP
      requires if e1.kind == VK then 0 <= e1.info < |k1| else 0 <= e1.info < base2
      requires Means(nactvar, c1, k1, a1, e1.View(), a, pre, base) && k1 <= k && base <= base2 && LocalsBelow(b, base)
      modifies this`code, this`jpc, this`here, this`k, this`kindex, this`open, this`lasttarget, this`freereg, e1, e2
      ensures st.Compiled? ==> Valid() && IsCode(e1, Compare(op, a, b), pre, base) && Placed(e1, base, freereg)
      ensures st.Compiled? ==> e1.kind == VJMP && open == old(open - Owned(e2)) + Owned(e1)
                               && Owned(e1) !! old(open - Owned(e2))
      ensures st.Compiled? ==> Keeps(old(code), code, old(open - Owned(e2)))
      ensures old(k) <= k
      ensures GaveUp(st, base2 + 1)
    {
      hide Means, CodeOk, IsList, Keeps, OperandOfDesc, CompareCond, WithBranch, ActsOf;
      ghost var d1 := e1.View();
      var pc;
      ghost var c2, a2, d2;
      st, pc, c2, a2, d2 := CodeOperands(op, e1, e2, b, base, a1, base2);
      if st.Compiled? {
        NoList(code, jpc, NO_JUMP);
        e1.info, e1.kind := pc, VJMP;
        Compared(nactvar, c1, k1, a1, d1, a, pre, base, c2, k, a2, d2, b, base2, op, code, Acts(), e1.View());
      }
    }

    /** luaK_posfix for and: the false exits of the first operand join those of the second. */
    method PosfixAnd(e1: ExpDesc, e2: ExpDesc, ghost a: Exp, ghost b: Exp, ghost pre: seq<Action>, ghost base: nat,
                     ghost c1: seq<Instr>, ghost a1: seq<Action>)
      returns (st: Status)
      requires Valid() && IsCode(e2, b, a1, base) && Placed(e2, base, freereg) && TrueConstant(e2) && e1 != e2
      requires e1.t == NO_JUMP && IsList(code, e1.f, e1.fl) && Elems(e1.fl) <= open && Elems(e1.fl) !! Owned(e2)
      requires Forks(nactvar, c1, a1, [], e1.fl, true, a, pre, base) && LocalsBelow(b, base)
      requires Keeps(c1, code, Elems(e1.fl))
      modifies this`code, e1, e2
      ensures st.Compiled? ==> Valid() && IsCode(e1, And(a, b), pre, base) && Placed(e1, base, freereg)
                               && TrueConstant(e1)
      ensures st.Compiled? ==> Owned(e1) == old(Owned(e2)) + old(Elems(e1.fl))
                               && Keeps(old(code), code, open - Owned(e1))
      ensures st.Failed? ==> LimitHit(st)
    {
      hide Means, CodeOk, DescOk, IsList, Keeps, Forks, ActsOf;
      DischargeVars(e2);
      ghost var d2, out, c2 := e2.View(), e1.fl, code;
      DescLists(c2, k, open, here, lasttarget, nactvar, freereg, d2, e2.t, e2.f);
      assert forall j | j in out :: j in Elems(out);
      AndMeans(nactvar, c1, a1, out, a, pre, base, c2, k, Acts(), d2, b);
      var l;
      st, l := Join(e2.f, e1.f, e2.fl, out);
      if st.Compiled? {
        ghost var d := d2.(fl := d2.fl + out);
        JoinedFalse(c2, code, k, open, here, lasttarget, nactvar, freereg, d2, e2.t, e2.f, out, l);
        MeansRelinked(nactvar, c2, code, k, Acts(), d, And(a, b), pre, base, d2.fl);
        KeepsLess(c2, code, open - Elems(d2.fl), open - OwnedBy(d));
        e2.f, e2.fl := l, e2.fl + out;
        e1.Assign(e2);
      }
    }

    /** luaK_posfix for or: the true exits of the first operand join those of the second. */
    method PosfixOr(e1: ExpDesc, e2: ExpDesc, ghost a: Exp, ghost b: Exp, ghost pre: seq<Action>, ghost base: nat,
                     ghost c1: seq<Instr>, ghost a1: seq<Action>)
      returns (st: Status)
      requires Valid() && IsCode(e2, b, a1, base) && Placed(e2, base, freereg) && TrueConstant(e2) && e1 != e2
      requires e1.f == NO_JUMP && IsList(code, e1.t, e1.tl) && Elems(e1.tl) <= open && Elems(e1.tl) !! Owned(e2)
      requires Forks(nactvar, c1, a1, e1.tl, [], false, a, pre, base) && LocalsBelow(b, base)
      requires Keeps(c1, code, Elems(e1.tl))
      modifies this`code, e1, e2
      ensures st.Compiled? ==> Valid() && IsCode(e1, Or(a, b), pre, base) && Placed(e1, base, freereg)
                               && TrueConstant(e1)
      ensures st.Compiled? ==> Owned(e1) == old(Owned(e2)) + old(Elems(e1.tl))
                               && Keeps(old(code), code, open - Owned(e1))
      ensures st.Failed? ==> LimitHit(st)
    {
      hide Means, CodeOk, DescOk, IsList, Keeps, Forks, ActsOf;
      DischargeVars(e2);
      ghost var d2, out, c2 := e2.View(), e1.tl, code;
      DescLists(c2, k, open, here, lasttarget, nactvar, freereg, d2, e2.t, e2.f);
      assert forall j | j in out :: j in Elems(out);
      OrMeans(nactvar, c1, a1, out, a, pre, base, c2, k, Acts(), d2, b);
      var l;
      st, l := Join(e2.t, e1.t, e2.tl, out);
      if st.Compiled? {
        ghost var d := d2.(tl := d2.tl + out);
        JoinedTrue(c2, code, k, open, here, lasttarget, nactvar, freereg, d2, e2.t, e2.f, out, l);
        MeansRelinked(nactvar, c2, code, k, Acts(), d, Or(a, b), pre, base, d2.tl);
        KeepsLess(c2, code, open - Elems(d2.tl), open - OwnedBy(d));
        e2.t, e2.tl := l, e2.tl + out;
        e1.Assign(e2);
      }
    }

    // ---- Whole expressions ----

    /** e translates ex, begun with the actions pre, the code code0 and the pending jumps open0; these
        jumps and their tests are untouched. */
    ghost predicate Produces(e: ExpDesc, ex: Exp, pre: seq<Action>, base: nat, code0: seq<Instr>, open0: set<int>)
      reads this, e
    {
      && Valid() && IsCode(e, ex, pre, base) && Placed(e, base, freereg) && TrueConstant(e)
      && open == open0 + Owned(e) && Owned(e) !! open0 && Keeps(code0, code, open0)
    }

    /** simpleexp of lparser.c, for constants and local variables. */
    method Simple(ex: Exp, ghost base: nat)
      returns (st: Status, e: ExpDesc)
      requires ex.Const? || ex.Local?
      requires Valid() && Sound(nactvar, Acts()) && freereg == base && LocalsBelow(ex, nactvar)
      modifies this`code, this`jpc, this`here, this`k, this`kindex, this`open, this`lasttarget, this`freereg
      ensures st.Compiled? ==> fresh(e) && Produces(e, ex, old(Acts()), base, old(code), old(open))
      ensures old(k) <= k
      ensures GaveUp(st, base + Depth(ex))
      decreases ex, 0
    {
      hide ActAt, CodeOk, Controlled, Depth, Distinct, ExitOk, Init, IsList, JumpTo, Keeps, Means, Owns, Relate, Run;
      match ex {
        case Const(Nil) => e := new ExpDesc(VNIL, 0, Nil);
        case Const(Bool(b)) => e := new ExpDesc(if b then VTRUE else VFALSE, 0, Nil);
        case Const(Num(n)) => e := new ExpDesc(VKNUM, 0, Num(n));
        case Const(Str(x)) =>
          e := new ExpDesc(VK, 0, Nil);
          var idx;
          st, idx := AddK(Str(x));
          if st.Failed? {
            return;
          }
          e.info := idx;
        case Local(r) => e := new ExpDesc(VLOCAL, r, Nil);
      }
      NoList(code, jpc, NO_JUMP);
      KeepsSelf(code, k, open, jpc, here, lasttarget);
      LeafMeans(nactvar, code, k, Acts(), e.View(), ex, base);
      st := Compiled;
    }

    /** subexpr of lparser.c on the tree of the expression. */
    method Expr(ex: Exp, ghost base: nat)
      returns (st: Status, e: ExpDesc)
      requires Valid() && Sound(nactvar, Acts()) && freereg == base && LocalsBelow(ex, nactvar)
      modifies this`code, this`jpc, this`here, this`k, this`kindex, this`open, this`lasttarget, this`freereg
      ensures st.Compiled? ==> fresh(e) && Produces(e, ex, old(Acts()), base, old(code), old(open))
      ensures old(k) <= k
      ensures GaveUp(st, base + Depth(ex))
      decreases ex, 1
    {
      hide Produces;
      match ex {
        case Const(_) => st, e := Simple(ex, base);
        case Local(_) => st, e := Simple(ex, base);
        case Paren(x) => st, e := ParenExpr(x, base);
        case Not(x) => st, e := NotExpr(x, base);
        case And(a, b) => st, e := AndExpr(a, b, base);
        case Or(a, b) => st, e := OrExpr(a, b, base);
        case Compare(op, a, b) => st, e := CompareExpr(op, a, b, base);
      }
    }

    /** prefixexp of lparser.c, on an expression in parentheses. */
    method ParenExpr(x: Exp, ghost base: nat)
      returns (st: Status, e: ExpDesc)
      requires Valid() && Sound(nactvar, Acts()) && freereg == base && LocalsBelow(Paren(x), nactvar)
      modifies this`code, this`jpc, this`here, this`k, this`kindex, this`open, this`lasttarget, this`freereg
      ensures st.Compiled? ==> fresh(e) && Produces(e, Paren(x), old(Acts()), base, old(code), old(open))
      ensures old(k) <= k
      ensures GaveUp(st, base + Depth(Paren(x)))
      decreases Paren(x), 0
    {
      hide Means, CodeOk, Keeps, DescOk, IsList, Sound;
      st, e := Expr(x, base);
      if st.Compiled? {
        DischargeVars(e);
        ParenMeans(nactvar, code, k, Acts(), e.View(), x, old(Acts()), base);
      }
    }

    method NotExpr(x: Exp, ghost base: nat)
      returns (st: Status, e: ExpDesc)
      requires Valid() && Sound(nactvar, Acts()) && freereg == base && LocalsBelow(Not(x), nactvar)
      modifies this`code, this`jpc, this`here, this`k, this`kindex, this`open, this`lasttarget, this`freereg
      ensures st.Compiled? ==> fresh(e) && Produces(e, Not(x), old(Acts()), base, old(code), old(open))
      ensures old(k) <= k
      ensures GaveUp(st, base + Depth(Not(x)))
      decreases Not(x), 0
    {
      hide Means, CodeOk, Keeps, DescOk, IsList, Sound;
      ghost var c0 := code;
      st, e := Expr(x, base);
      if st.Compiled? {
        ghost var c1 := code;
        st := CodeNot(e, x, old(Acts()), base);
        if st.Compiled? {
          KeepsLess(c1, code, open - Owned(e), old(open));
          KeepsTwice(c0, c1, code, old(open), old(open));
        }
      }
    }

    method AndExpr(a: Exp, b: Exp, ghost base: nat)
      returns (st: Status, e: ExpDesc)
      requires Valid() && Sound(nactvar, Acts()) && freereg == base && LocalsBelow(And(a, b), nactvar)
      modifies this`code, this`jpc, this`here, this`k, this`kindex, this`open, this`lasttarget, this`freereg
      ensures st.Compiled? ==> fresh(e) && Produces(e, And(a, b), old(Acts()), base, old(code), old(open))
      ensures old(k) <= k
      ensures GaveUp(st, base + Depth(And(a, b)))
      decreases And(a, b), 0
    {
      hide Means, CodeOk, Keeps, DescOk, IsList, Sound, Forks, Depth;
      DepthParts(And(a, b), a, b);
      ghost var pre, c0, open0 := Acts(), code, open;
      st, e := Expr(a, base);
      if st.Failed? {
        return;
      }
      ghost var c1 := code;
      st := GoIfTrue(e, a, pre, base);
      if st.Failed? {
        return;
      }
      KeepsTwice(c0, c1, code, open0, open0);
      st := AndRest(e, a, b, pre, base, c0, open0);
    }

    /** The second operand of and, when the first has left its exits. */
    method AndRest(e: ExpDesc, a: Exp, b: Exp, ghost pre: seq<Action>, ghost base: nat, ghost c0: seq<Instr>,
                   ghost open0: set<int>)
      returns (st: Status)
      requires Valid() && freereg == base && LocalsBelow(b, nactvar)
      requires e.t == NO_JUMP && e.tl == [] && IsList(code, e.f, e.fl) && Keeps(c0, code, open0)
      requires open == open0 + Elems(e.fl) && Elems(e.fl) !! open0
      requires Forks(nactvar, code, Acts(), [], e.fl, true, a, pre, base)
      modifies this`code, this`jpc, this`here, this`k, this`kindex, this`open, this`lasttarget, this`freereg, e
      ensures st.Compiled? ==> Produces(e, And(a, b), pre, base, c0, open0)
      ensures old(k) <= k
      ensures GaveUp(st, base + Depth(b))
      decreases b, 2
    {
      hide Means, CodeOk, Keeps, DescOk, IsList, Sound, Forks, Depth;
      ghost var c2, a2 := code, Acts();
      ForksSound(nactvar, c2, a2, [], e.fl, true, a, pre, base);
      var e2;
      st, e2 := Expr(b, base);
      if st.Failed? {
        return;
      }
      ghost var c3 := code;
      ghost var out := e.fl;
      ListsKept(c2, c3, open0 + Elems(out), e.f, out);
      KeepsLess(c2, c3, open0 + Elems(out), Elems(out));
      LocalsMore(b, nactvar, base);
      st := PosfixAnd(e, e2, a, b, pre, base, c2, a2);
      if st.Compiled? {
        KeepsThrice(c0, c2, c3, code, open0, open0 + Elems(out), open - Owned(e), open0);
      }
    }

    method OrExpr(a: Exp, b: Exp, ghost base: nat)
      returns (st: Status, e: ExpDesc)
      requires Valid() && Sound(nactvar, Acts()) && freereg == base && LocalsBelow(Or(a, b), nactvar)
      modifies this`code, this`jpc, this`here, this`k, this`kindex, this`open, this`lasttarget, this`freereg
      ensures st.Compiled? ==> fresh(e) && Produces(e, Or(a, b), old(Acts()), base, old(code), old(open))
      ensures old(k) <= k
      ensures GaveUp(st, base + Depth(Or(a, b)))
      decreases Or(a, b), 0
    {
      hide Means, CodeOk, Keeps, DescOk, IsList, Sound, Forks, Depth;
      DepthParts(Or(a, b), a, b);
      ghost var pre, c0, open0 := Acts(), code, open;
      st, e := Expr(a, base);
      if st.Failed? {
        return;
      }
      ghost var c1 := code;
      st := GoIfFalse(e, a, pre, base);
      if st.Failed? {
        return;
      }
      KeepsTwice(c0, c1, code, open0, open0);
      st := OrRest(e, a, b, pre, base, c0, open0);
    }

    /** The second operand of or, when the first has left its exits. */
    method OrRest(e: ExpDesc, a: Exp, b: Exp, ghost pre: seq<Action>, ghost base: nat, ghost c0: seq<Instr>,
                  ghost open0: set<int>)
      returns (st: Status)
      requires Valid() && freereg == base && LocalsBelow(b, nactvar)
      requires e.f == NO_JUMP && e.fl == [] && IsList(code, e.t, e.tl) && Keeps(c0, code, open0)
      requires open == open0 + Elems(e.tl) && Elems(e.tl) !! open0
      requires Forks(nactvar, code, Acts(), e.tl, [], false, a, pre, base)
      modifies this`code, this`jpc, this`here, this`k, this`kindex, this`open, this`lasttarget, this`freereg, e
      ensures st.Compiled? ==> Produces(e, Or(a, b), pre, base, c0, open0)
      ensures old(k) <= k
      ensures GaveUp(st, base + Depth(b))
      decreases b, 2
    {
      hide Means, CodeOk, Keeps, DescOk, IsList, Sound, Forks, Depth;
      ghost var c2, a2 := code, Acts();
      ForksSound(nactvar, c2, a2, e.tl, [], false, a, pre, base);
      var e2;
      st, e2 := Expr(b, base);
      if st.Failed? {
        return;
      }
      ghost var c3 := code;
      ghost var out := e.tl;
      ListsKept(c2, c3, open0 + Elems(out), e.t, out);
      KeepsLess(c2, c3, open0 + Elems(out), Elems(out));
      LocalsMore(b, nactvar, base);
      st := PosfixOr(e, e2, a, b, pre, base, c2, a2);
      if st.Compiled? {
        KeepsThrice(c0, c2, c3, code, open0, open0 + Elems(out), open - Owned(e), open0);
      }
    }

    /** The first operand of a comparison: subexpr, then luaK_infix. */
    method FirstOperand(a: Exp, ghost base: nat)
      returns (st: Status, e: ExpDesc)
      requires Valid() && Sound(nactvar, Acts()) && freereg == base && LocalsBelow(a, nactvar)
      modifies this`code, this`jpc, this`here, this`k, this`kindex, this`open, this`lasttarget, this`freereg
      ensures st.Compiled? ==> fresh(e) && Valid() && IsCode(e, a, old(Acts()), base) && Placed(e, base, freereg)
      ensures st.Compiled? ==> IsOperand(e) && e.t == e.f == NO_JUMP && open == old(open)
                               && Keeps(old(code), code, open)
      ensures st.Compiled? ==> Sound(nactvar, Acts())
      ensures old(k) <= k
      ensures GaveUp(st, base + Depth(a))
      decreases a, 2
    {
      hide Means, CodeOk, Keeps, IsList, Sound;
      ghost var pre, c0 := Acts(), code;
      st, e := Expr(a, base);
      if st.Failed? {
        return;
      }
      ghost var c1 := code;
      var o1;
      st, o1 := Exp2RK(e, a, pre, base);
      if st.Compiled? {
        KeepsTwice(c0, c1, code, open, open);
        NoList(code, e.t, NO_JUMP);
        NoList(code, e.f, NO_JUMP);
        MeansSound(nactvar, code, k, Acts(), e.View(), a, pre, base);
      }
    }

    method CompareExpr(op: Relation, a: Exp, b: Exp, ghost base: nat)
      returns (st: Status, e: ExpDesc)
      requires Valid() && Sound(nactvar, Acts()) && freereg == base && LocalsBelow(Compare(op, a, b), nactvar)
      modifies this`code, this`jpc, this`here, this`k, this`kindex, this`open, this`lasttarget, this`freereg
      ensures st.Compiled? ==> fresh(e) && Produces(e, Compare(op, a, b), old(Acts()), base, old(code), old(open))
      ensures old(k) <= k
      ensures GaveUp(st, base + Depth(Compare(op, a, b)))
      decreases Compare(op, a, b), 0
    {
      hide ActsOf, CodeOk, Depth, Distinct, Elems, IsList, Keeps, Means, Sound;
      CompareParts(op, a, b);
      ghost var pre, c0, open0 := Acts(), code, open;
      st, e := FirstOperand(a, base);
      if st.Failed? {
        return;
      }
      ghost var c2, k2, a2, base2 := code, k, Acts(), freereg;
      var e2;
      st, e2 := Expr(b, base2);
      if st.Failed? {
        return;
      }
      ghost var c3 := code;
      LocalsMore(b, nactvar, base);
      st := CodeComp(op, e, e2, a, b, pre, base, c2, k2, a2, base2);
      if st.Compiled? {
        KeepsThrice(c0, c2, c3, code, open0, open0, open0, open0);
      }
    }

    /** A function body that is one return statement (retstat of lparser.c for a single value). */
    method ReturnStat(ex: Exp) returns (st: Status)
      requires Valid() && code == [] && open == {} && here == [] && freereg == nactvar && LocalsBelow(ex, nactvar)
      modifies this`code, this`jpc, this`here, this`k, this`kindex, this`open, this`lasttarget, this`freereg
      ensures st.Compiled? ==> forall w: World, R: Regs | Init(R, nactvar) ::
                Execute(w, k, code, 0, R) == if Eval(w, ex, R).None? then Fault else Returned(Eval(w, ex, R).value)
      ensures GaveUp(st, nactvar + Depth(ex))
    {
      hide Init, IsList, Keeps, Means, OperandOf, Owned;
      ghost var base := freereg;
      assert Acts() == [];
      var e;
      st, e := Expr(ex, base);
      if st.Failed? {
        return;
      }
      var reg;
      st, reg := Exp2AnyReg(e, ex, [], base);
      if st.Failed? {
        return;
      }
      ghost var c1, a1 := code, Acts();
      :- CodeInstr(Return(reg, 2));
      assert Elems(here) == {};
      ReturnRuns(nactvar, c1, k, a1, e.View(), ex, base, code, reg);
      st := Compiled;
    }
  }

  /** What the translation of an expression into a register does: code entered with registers S0 falls
      through with the value in that register and those below base unchanged, or faults exactly when
      the expression has no value. */
  lemma RegisterHolds(w: World, nact: int, code: seq<Instr>, k: seq<Value>, acts: seq<Action>, d: Desc, ex: Exp,
                      pre: seq<Action>, base: nat, R: Regs)
    requires Means(nact, code, k, acts, d, ex, pre, base) && d.kind == VNONRELOC && d.tl == d.fl == [] && Init(R, nact)
    requires Run(w, pre, 0, R).Fall?
    ensures var S0, o := Run(w, pre, 0, R).regs, Run(w, acts, 0, R);
            match Eval(w, ex, S0)
            case None => o == Fault
            case Some(v) => o.Fall? && IsReg(d.info) && o.regs[d.info] == v && Agree(S0, o.regs, base)
  {
  }
}
