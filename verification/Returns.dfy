/** From the tokens of a return statement to the value that its code returns: the expression parser and
    the code generator together. */
module Returns {
  import Code = BoolCode
  import Meaning = BoolMeaning
  import Order = Precedence
  import Parser = Subexprs
  import Syntax
  import opened CodeGen

  /** What literals and names stand for: a name may be a local variable, with its register. */
  datatype Env = Env(literal: nat -> Code.Value, local: nat -> Syntax.Option<nat>)

  function Wrap(x: Syntax.Option<Code.Exp>, f: Code.Exp -> Code.Exp): Syntax.Option<Code.Exp> {
    if x.None? then Syntax.None else Syntax.Some(f(x.value))
  }

  function Combined(op: Syntax.Sym, a: Code.Exp, b: Code.Exp): Syntax.Option<Code.Exp> {
    match op
    case And => Syntax.Some(Code.And(a, b))
    case Or => Syntax.Some(Code.Or(a, b))
    case Eq => Syntax.Some(Code.Compare(Code.EQ, a, b))
    case Ne => Syntax.Some(Code.Compare(Code.NE, a, b))
    case Lt => Syntax.Some(Code.Compare(Code.LT, a, b))
    case Le => Syntax.Some(Code.Compare(Code.LE, a, b))
    case Gt => Syntax.Some(Code.Compare(Code.GT, a, b))
    case Ge => Syntax.Some(Code.Compare(Code.GE, a, b))
    case _ => Syntax.None
  }

  /** The expression of a tree, if it has nothing but constants, locals, not, and, or and comparisons. */
  function Sense(e: Syntax.Exp, env: Env): Syntax.Option<Code.Exp> {
    match e
    case Lit(n) => Syntax.Some(Code.Const(env.literal(n)))
    case Var(n) => var r := env.local(n); if r.None? then Syntax.None else Syntax.Some(Code.Local(r.value))
    case Paren(x) => Wrap(Sense(x, env), v => Code.Paren(v))
    case Suffixed(_, _) => Syntax.None
    case Unary(op, x) => if op == Syntax.Not then Wrap(Sense(x, env), v => Code.Not(v)) else Syntax.None
    case Binary(op, a, b) =>
      var x, y := Sense(a, env), Sense(b, env);
      if x.None? || y.None? then Syntax.None else Combined(op, x.value, y.value)
  }

  // ---- What a tree means ----

  const COVERED := {Syntax.And, Syntax.Or, Syntax.Eq, Syntax.Ne, Syntax.Lt, Syntax.Le, Syntax.Gt, Syntax.Ge}

  /** Nothing but constants, locals, parentheses, not, and, or and comparisons. */
  predicate Covered(e: Syntax.Exp, env: Env) {
    match e
    case Lit(_) => true
    case Var(n) => env.local(n).Some?
    case Paren(x) => Covered(x, env)
    case Suffixed(_, _) => false
    case Unary(op, x) => op == Syntax.Not && Covered(x, env)
    case Binary(op, a, b) => op in COVERED && Covered(a, env) && Covered(b, env)
  }

  predicate IsFalse(v: Code.Value) {
    v == Code.Nil || v == Code.Bool(false)
  }

  function Compared(w: Code.World, op: Syntax.Sym, x: Code.Value, y: Code.Value): Code.Option<bool> {
    match op
    case Eq => Code.Some(w.eq(x, y))
    case Ne => Code.Some(!w.eq(x, y))
    case Lt => w.lt(x, y)
    case Gt => w.lt(y, x)
    case Le => w.le(x, y)
    case Ge => w.le(y, x)
    case _ => Code.None
  }

  /** The value that section 2.5 of the Lua 5.1 Reference Manual gives a tree, None being a runtime error. */
  function TreeValue(w: Code.World, e: Syntax.Exp, env: Env, R: Code.Regs): Code.Option<Code.Value>
    requires Covered(e, env)
  {
    match e
    case Lit(n) => Code.Some(env.literal(n))
    case Var(n) =>
      var r := env.local(n).value;
      if r < Code.MAXSTACK then Code.Some(R[r]) else Code.None
    case Paren(x) => TreeValue(w, x, env, R)
    case Unary(_, x) =>
      var v := TreeValue(w, x, env, R);
      if v.None? then Code.None else Code.Some(Code.Bool(IsFalse(v.value)))
    case Binary(op, a, b) =>
      var x := TreeValue(w, a, env, R);
      if x.None? then Code.None
      else if op == Syntax.And then if IsFalse(x.value) then x else TreeValue(w, b, env, R)
      else if op == Syntax.Or then if IsFalse(x.value) then TreeValue(w, b, env, R) else x
      else
        var y := TreeValue(w, b, env, R);
        if y.None? then Code.None else
        var t := Compared(w, op, x.value, y.value);
        if t.None? then Code.None else Code.Some(Code.Bool(t.value))
  }

  lemma {:induction false} SenseCovers(e: Syntax.Exp, env: Env)
    ensures Sense(e, env).Some? <==> Covered(e, env)
  {
    match e
    case Lit(_) =>
    case Var(_) =>
    case Paren(x) => SenseCovers(x, env);
    case Suffixed(_, _) =>
    case Unary(_, x) => SenseCovers(x, env);
    case Binary(_, a, b) =>
      SenseCovers(a, env);
      SenseCovers(b, env);
  }

  /** The expression that is compiled has the value of the tree. */
  lemma {:induction false} SenseValue(w: Code.World, e: Syntax.Exp, env: Env, R: Code.Regs)
    requires Covered(e, env)
    ensures Sense(e, env).Some? && Code.Eval(w, Sense(e, env).value, R) == TreeValue(w, e, env, R)
  {
    SenseCovers(e, env);
    match e
    case Lit(_) =>
    case Var(_) =>
    case Paren(x) => SenseValue(w, x, env, R);
    case Unary(_, x) => SenseValue(w, x, env, R);
    case Binary(_, a, b) =>
      SenseValue(w, a, env, R);
      SenseValue(w, b, env, R);
  }

  // ---- Compiling ----

  datatype Result = SyntaxError | NotCovered | GivenUp | Done

  /** How many registers a tree needs at once: the second operand of a comparison one more. */
  function Registers(e: Syntax.Exp): nat {
    match e
    case Lit(_) => 1
    case Var(_) => 1
    case Paren(x) => Registers(x)
    case Suffixed(x, _) => Registers(x)
    case Unary(_, x) => Registers(x)
    case Binary(op, a, b) =>
      var n := Registers(b) + if op == Syntax.And || op == Syntax.Or then 0 else 1;
      if Registers(a) < n then n else Registers(a)
  }

  lemma {:induction false} DepthIs(e: Syntax.Exp, env: Env)
    requires Sense(e, env).Some?
    ensures Depth(Sense(e, env).value) == Registers(e)
  {
    match e
    case Lit(_) =>
    case Var(_) =>
    case Paren(x) => DepthIs(x, env);
    case Unary(_, x) => DepthIs(x, env);
    case Binary(_, a, b) =>
      DepthIs(a, env);
      DepthIs(b, env);
  }

  lemma SenseLocals(e: Syntax.Exp, env: Env, n: nat)
    requires Sense(e, env).Some? && forall i :: env.local(i).Some? ==> env.local(i).value < n
    ensures Code.LocalsBelow(Sense(e, env).value, n)
  {
  }

  /** The code that is left computes the value of the tree in every world, or faults if it has none. */
  ghost predicate Computes(k: seq<Code.Value>, code: seq<Code.Instr>, e: Syntax.Exp, env: Env, nactvar: nat)
    requires Covered(e, env)
  {
    forall w: Code.World, R: Code.Regs | Meaning.Init(R, nactvar) ::
      Code.Execute(w, k, code, 0, R) == match TreeValue(w, e, env, R)
                                        case None => Code.Fault
                                        case Some(v) => Code.Returned(v)
  }

  /** The code generator on a tree that has been read. */
  method CompileTree(e: Syntax.Exp, env: Env, nactvar: nat) returns (r: Result, fs: FuncState)
    requires nactvar < Code.MAXSTACK && forall n :: env.local(n).Some? ==> env.local(n).value < nactvar
    ensures r == NotCovered <==> !Covered(e, env)
    ensures r in {NotCovered, GivenUp, Done}
    ensures r == GivenUp ==> |fs.code| >= 131071 || |fs.k| >= 262143 || nactvar + Registers(e) >= 250
    ensures r == Done ==> Computes(fs.k, fs.code, e, env, nactvar)
  {
    hide Sense, TreeValue, Code.Eval, Code.Execute, Code.LocalsBelow;
    fs := new FuncState(nactvar);
    var ex := Sense(e, env);
    SenseCovers(e, env);
    if ex == Syntax.None {
      return NotCovered, fs;
    }
    SenseLocals(e, env, nactvar);
    DepthIs(e, env);
    forall w: Code.World, R: Code.Regs
      ensures Code.Eval(w, ex.value, R) == TreeValue(w, e, env, R)
    {
      SenseValue(w, e, env, R);
    }
    var st := fs.ReturnStat(ex.value);
    r := if st.Compiled? then Done else GivenUp;
  }

  /** `return` with one expression: the tokens have exactly one tree that respects the order of precedence, and
      its value is what the code returns. */
  method CompileReturn(tokens: seq<Syntax.Token>, env: Env, nactvar: nat)
      returns (r: Result, fs: FuncState, ghost e: Syntax.Exp, ghost rest: seq<Syntax.Token>)
    requires nactvar < Code.MAXSTACK && forall n :: env.local(n).Some? ==> env.local(n).value < nactvar
    ensures r == SyntaxError <==> forall x, more :: !Order.Reads(tokens, x, more, 200)
    ensures r != SyntaxError ==>
      && Order.Reads(tokens, e, rest, 200)
      && forall x, more | Order.Reads(tokens, x, more, 200) :: x == e && more == rest
    ensures r != SyntaxError ==> (r == NotCovered <==> !Covered(e, env))
    ensures r == GivenUp ==> |fs.code| >= 131071 || |fs.k| >= 262143 || nactvar + Registers(e) >= 250
    ensures r == Done ==> Computes(fs.k, fs.code, e, env, nactvar)
  {
    hide Computes, Covered, Registers;
    var ls := new Parser.LexState(tokens, 0);
    var tree := ls.Expr();
    forall x, more
      ensures Order.Reads(tokens, x, more, Syntax.MAX_CCALLS)
              <==> Syntax.ParseSub(tokens, 0, Syntax.MAX_CCALLS) == Syntax.Ok(x, more)
    {
      Order.ReadExact(tokens, x, more, Syntax.MAX_CCALLS);
    }
    e, rest := Syntax.Lit(0), [];
    if tree == Syntax.None {
      r := SyntaxError;
      fs := new FuncState(nactvar);
      return;
    }
    e, rest := tree.value, ls.tokens;
    r, fs := CompileTree(tree.value, env, nactvar);
  }
}
