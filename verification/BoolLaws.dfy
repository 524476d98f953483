/** What the value of an expression is, connective by connective, and what the machine does with the code of some
    expressions, written out. */
module BoolLaws {
  import opened BoolCode

  predicate IsFalse(v: Value) {
    v == Nil || v == Bool(false)
  }

  // ---- Expressions ----

  lemma NotValue(w: World, e: Exp, R: Regs)
    ensures Eval(w, Not(e), R) == match Eval(w, e, R)
                                  case None => None
                                  case Some(v) => Some(Bool(IsFalse(v)))
    ensures Eval(w, Paren(e), R) == Eval(w, e, R)
  {
  }

  /** The second operand counts only if the first does not decide. */
  lemma AndOrValue(w: World, a: Exp, b: Exp, R: Regs)
    ensures Eval(w, And(a, b), R) == match Eval(w, a, R)
                                     case None => None
                                     case Some(x) => if IsFalse(x) then Some(x) else Eval(w, b, R)
    ensures Eval(w, Or(a, b), R) == match Eval(w, a, R)
                                    case None => None
                                    case Some(x) => if IsFalse(x) then Eval(w, b, R) else Some(x)
  {
  }

  /** a > b is b < a, a >= b is b <= a, and a ~= b is not (a == b). */
  lemma Exchanged(w: World, a: Exp, b: Exp, R: Regs)
    ensures Eval(w, Compare(GT, a, b), R) == Eval(w, Compare(LT, b, a), R)
    ensures Eval(w, Compare(GE, a, b), R) == Eval(w, Compare(LE, b, a), R)
    ensures Eval(w, Compare(NE, a, b), R) == Eval(w, Not(Compare(EQ, a, b)), R)
  {
  }

  lemma ComparedValue(w: World, x: Value, y: Value, R: Regs)
    ensures Eval(w, Compare(EQ, Const(x), Const(y)), R) == Some(Bool(w.eq(x, y)))
    ensures Eval(w, Compare(LT, Const(x), Const(y)), R) == match w.lt(x, y)
                                                           case None => None
                                                           case Some(t) => Some(Bool(t))
    ensures Eval(w, Compare(LE, Const(x), Const(y)), R) == match w.le(x, y)
                                                           case None => None
                                                           case Some(t) => Some(Bool(t))
  {
  }

  // ---- Code ----

  /** Code for a or b and c. */
  lemma OrAndCode(w: World, R: Regs)
    ensures Execute(w, [], [TestSet(3, 0, true), Jmp(3), TestSet(3, 1, false), Jmp(1), Move(3, 2), Return(3, 2)], 0, R)
            == Returned(if !IsFalse(R[0]) then R[0] else if IsFalse(R[1]) then R[1] else R[2])
  {
    var code := [TestSet(3, 0, true), Jmp(3), TestSet(3, 1, false), Jmp(1), Move(3, 2), Return(3, 2)];
    forall S: Regs
      ensures Execute(w, [], code, 5, S) == Returned(S[3])
      ensures Execute(w, [], code, 4, S) == Returned(S[2])
      ensures Execute(w, [], code, 2, S) == Returned(if IsFalse(S[1]) then S[1] else S[2])
    {
      assert Execute(w, [], code, 5, S) == Returned(S[3]);
      assert Execute(w, [], code, 4, S) == Execute(w, [], code, 5, S[3 := S[2]]);
    }
  }

  /** Code for a < b. */
  lemma LessCode(w: World, R: Regs)
    ensures Execute(w, [], [Test2(OpLt, true, 0, 1), Jmp(1), LoadBool(2, false, true), LoadBool(2, true, false),
                            Return(2, 2)], 0, R)
            == match w.lt(R[0], R[1])
               case None => Fault
               case Some(t) => Returned(Bool(t))
  {
    var code := [Test2(OpLt, true, 0, 1), Jmp(1), LoadBool(2, false, true), LoadBool(2, true, false), Return(2, 2)];
    forall S: Regs
      ensures Execute(w, [], code, 4, S) == Returned(S[2])
      ensures Execute(w, [], code, 3, S) == Returned(Bool(true))
      ensures Execute(w, [], code, 2, S) == Returned(Bool(false))
    {
      assert Execute(w, [], code, 4, S) == Returned(S[2]);
      assert Execute(w, [], code, 4, S[2 := Bool(true)]) == Returned(Bool(true));
    }
  }

  /** Code for a ~= k and (b or false), k being a constant. */
  lemma UnlessEqualCode(w: World, v: Value, R: Regs)
    ensures Execute(w, [v], [Test2(OpEq, true, 0, 256), Jmp(2), TestSet(2, 1, true), Jmp(1), LoadBool(2, false, false),
                             Return(2, 2)], 0, R)
            == Returned(if w.eq(R[0], v) || IsFalse(R[1]) then Bool(false) else R[1])
  {
    var code := [Test2(OpEq, true, 0, 256), Jmp(2), TestSet(2, 1, true), Jmp(1), LoadBool(2, false, false),
                 Return(2, 2)];
    forall S: Regs
      ensures Execute(w, [v], code, 5, S) == Returned(S[2])
      ensures Execute(w, [v], code, 4, S) == Returned(Bool(false))
      ensures Execute(w, [v], code, 2, S) == Returned(if IsFalse(S[1]) then Bool(false) else S[1])
    {
      assert Execute(w, [v], code, 5, S) == Returned(S[2]);
      assert Execute(w, [v], code, 5, S[2 := Bool(false)]) == Returned(Bool(false));
    }
  }

  /** Code for local a, b = nil, nil; local c = v; return c or not b. */
  lemma LoadsCode(w: World, v: Value, R: Regs)
    ensures Execute(w, [v], [LoadNil(0, 1), LoadK(2, 0), Test(2, false), Jmp(1), Return(2, 2), OpNot(3, 1),
                             Return(3, 2)], 0, R)
            == Returned(if IsFalse(v) then Bool(true) else v)
  {
    var code := [LoadNil(0, 1), LoadK(2, 0), Test(2, false), Jmp(1), Return(2, 2), OpNot(3, 1), Return(3, 2)];
    forall S: Regs
      ensures Execute(w, [v], code, 6, S) == Returned(S[3])
      ensures Execute(w, [v], code, 5, S) == Returned(Bool(IsFalse(S[1])))
      ensures Execute(w, [v], code, 4, S) == Returned(S[2])
    {
      assert Execute(w, [v], code, 6, S) == Returned(S[3]);
      assert Execute(w, [v], code, 5, S) == Execute(w, [v], code, 6, S[3 := Bool(!Truthy(S[1]))]);
    }
    var S := SetNil(R, 0, 1)[2 := v];
    assert Execute(w, [v], code, 0, R) == Execute(w, [v], code, 1, SetNil(R, 0, 1));
    assert Execute(w, [v], code, 1, SetNil(R, 0, 1)) == Execute(w, [v], code, 2, S);
    assert S[1] == Nil;
  }
}
