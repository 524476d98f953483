/** The precedence of operators as section 2.5.6 of the Lua 5.1 Reference Manual lists it, and that subexpr
    reads trees as it says. No priority numbers here. */
module Precedence {
  import opened Syntax

  /** From low to high; the unary operators come before the last set. */
  const ORDER: seq<set<Sym>> :=
    [{Or}, {And}, {Lt, Gt, Le, Ge, Ne, Eq}, {Concat}, {Add, Sub}, {Mul, Div, Mod}, {Pow}]

  const TO_THE_RIGHT: set<Sym> := {Concat, Pow}

  const UNARY: set<Sym> := {Not, Len, Sub}

  predicate InOrder(s: Sym) {
    exists i | 0 <= i < |ORDER| :: s in ORDER[i]
  }

  predicate Higher(s: Sym, t: Sym) {
    exists i, j | 0 <= j < i < |ORDER| :: s in ORDER[i] && t in ORDER[j]
  }

  predicate SameLevel(s: Sym, t: Sym) {
    exists i | 0 <= i < |ORDER| :: s in ORDER[i] && t in ORDER[i]
  }

  /** In x p y q z the middle operand goes to q. */
  predicate GroupsRight(p: Sym, q: Sym) {
    Higher(q, p) || (SameLevel(p, q) && p in TO_THE_RIGHT)
  }

  // ---- Trees ----

  datatype Operator = Infix(s: Sym) | Prefix

  /** The binary operators on the left edge of a tree, which see what stands before it. */
  function Lefts(e: Exp): set<Sym> {
    match e
    case Binary(op, a, _) => {op} + Lefts(a)
    case _ => {}
  }

  /** The operators on the right edge of a tree, which see what stands behind it. */
  function Rights(e: Exp): set<Operator> {
    match e
    case Binary(op, _, b) => {Infix(op)} + Rights(b)
    case Unary(_, x) => {Prefix} + Rights(x)
    case _ => {}
  }

  /** A tree needs no more parentheses than it has: wherever two operators compete for an operand it goes to
      the one that the manual says. Of the unary operators only ^ takes their operand. */
  predicate Respects(e: Exp) {
    match e
    case Lit(_) => true
    case Var(_) => true
    case Paren(x) => Respects(x)
    case Suffixed(x, _) => IsPrimary(x) && Respects(x)
    case Unary(op, x) => op in UNARY && Respects(x) && forall s | s in Lefts(x) :: s == Pow
    case Binary(op, a, b) =>
      && InOrder(op) && Respects(a) && Respects(b)
      && (forall r | r in Rights(a) :: if r.Prefix? then op != Pow else !GroupsRight(r.s, op))
      && (forall s | s in Lefts(b) :: GroupsRight(op, s))
  }

  /** The expression ends before rest: nothing there could belong to it. */
  predicate EndsBefore(e: Exp, rest: seq<Token>) {
    rest != [] ==> !(rest[0].Suffix? && EndsPrimary(e)) && !(rest[0].Op? && InOrder(rest[0].s))
  }

  /** The tokens begin with the tree of an expression, which respects the order of precedence and is nested no
      deeper than there is room for. */
  predicate Reads(ts: seq<Token>, e: Exp, rest: seq<Token>, room: nat) {
    ts == Flat(e) + rest && Respects(e) && EndsBefore(e, rest) && Levels(e) <= room
  }

  // ---- The priority table ----

  lemma InOrderIs(s: Sym)
    ensures InOrder(s) <==> IsBinary(s)
  {
    match s {
      case Or => assert s in ORDER[0];
      case And => assert s in ORDER[1];
      case Lt | Gt | Le | Ge | Ne | Eq => assert s in ORDER[2];
      case Concat => assert s in ORDER[3];
      case Add | Sub => assert s in ORDER[4];
      case Mul | Div | Mod => assert s in ORDER[5];
      case Pow => assert s in ORDER[6];
      case Not | Len =>
    }
  }

  function Place(s: Sym): (i: nat)
    requires IsBinary(s)
    ensures i < |ORDER| && s in ORDER[i]
  {
    match s
    case Or => 0
    case And => 1
    case Lt | Gt | Le | Ge | Ne | Eq => 2
    case Concat => 3
    case Add | Sub => 4
    case Mul | Div | Mod => 5
    case Pow => 6
  }

  lemma OnePlace(s: Sym, i: nat)
    requires IsBinary(s) && i < |ORDER| && s in ORDER[i]
    ensures i == Place(s)
  {
  }

  lemma HigherIs(p: Sym, q: Sym)
    requires IsBinary(p) && IsBinary(q)
    ensures Higher(q, p) <==> Place(q) > Place(p)
  {
    hide Place;
    if i, j :| 0 <= j < i < |ORDER| && q in ORDER[i] && p in ORDER[j] {
      OnePlace(q, i);
      OnePlace(p, j);
    }
  }

  lemma SameLevelIs(p: Sym, q: Sym)
    requires IsBinary(p) && IsBinary(q)
    ensures SameLevel(p, q) <==> Place(p) == Place(q)
  {
    hide Place;
    if i :| 0 <= i < |ORDER| && p in ORDER[i] && q in ORDER[i] {
      OnePlace(p, i);
      OnePlace(q, i);
    }
  }

  /** The numbers of the table say what the manual says. */
  lemma TableIs(p: Sym, q: Sym)
    requires IsBinary(p) && IsBinary(q)
    ensures GroupsRight(p, q) <==> LeftPriority(q) > RightPriority(p)
    ensures 0 < LeftPriority(q) <= NO_LIMIT && (LeftPriority(q) > UNARY_PRIORITY <==> q == Pow)
  {
    HigherIs(p, q);
    SameLevelIs(p, q);
    hide Higher, SameLevel;
  }

  // ---- The trees that are read ----

  lemma {:induction false} EdgeIs(e: Exp, q: Sym)
    requires IsBinary(q) && Respects(e)
    ensures LeftPriority(q) <= Edge(e)
            <==> forall r | r in Rights(e) :: if r.Prefix? then q != Pow else !GroupsRight(r.s, q)
  {
    match e
    case Unary(_, x) =>
      EdgeIs(x, q);
      TableIs(q, q);
      assert Prefix in Rights(e);
    case Binary(op, _, b) =>
      EdgeIs(b, q);
      InOrderIs(op);
      TableIs(op, q);
      assert Infix(op) in Rights(e);
    case _ => TableIs(q, q);
  }

  lemma {:induction false} LeftsBinary(e: Exp)
    requires Respects(e)
    ensures forall s | s in Lefts(e) :: IsBinary(s)
  {
    if e.Binary? {
      InOrderIs(e.op);
      LeftsBinary(e.a);
    } else {
    }
  }

  lemma AboveNothing(e: Exp)
    requires Respects(e)
    ensures forall s | s in Lefts(e) :: LeftPriority(s) > 0
  {
    LeftsBinary(e);
    forall s | s in Lefts(e)
      ensures LeftPriority(s) > 0
    {
      TableIs(s, s);
    }
  }

  /** The trees above a limit are those that respect the manual's order and have only operators above the
      limit on their left edge. */
  lemma {:induction false} GroupedIs(e: Exp, limit: nat)
    ensures Grouped(e, limit) <==> Respects(e) && forall s | s in Lefts(e) :: LeftPriority(s) > limit
  {
    match e
    case Paren(x) =>
      GroupedIs(x, 0);
      if Respects(x) { AboveNothing(x); }
    case Suffixed(x, _) => GroupedIs(x, limit);
    case Unary(op, x) =>
      GroupedIs(x, UNARY_PRIORITY);
      if Respects(x) {
        LeftsBinary(x);
        forall s | s in Lefts(x)
          ensures LeftPriority(s) > UNARY_PRIORITY <==> s == Pow
        {
          TableIs(s, s);
        }
      }
    case Binary(op, a, b) =>
      GroupedIs(a, limit);
      GroupedIs(b, RightPriority(op));
      InOrderIs(op);
      assert op in Lefts(e);
      if Respects(a) && Respects(b) && IsBinary(op) {
        EdgeIs(a, op);
        LeftsBinary(b);
        forall s | s in Lefts(b)
          ensures LeftPriority(s) > RightPriority(op) <==> GroupsRight(op, s)
        {
          TableIs(op, s);
        }
      }
    case _ =>
  }

  /** An expression is read from tokens exactly if they begin with a tree that respects the manual's order,
      nothing behind it belongs to it, and it is not nested too deeply. */
  lemma ReadExact(ts: seq<Token>, e: Exp, rest: seq<Token>, room: nat)
    ensures ParseSub(ts, 0, room) == Ok(e, rest) <==> Reads(ts, e, rest, room)
  {
    SubExact(ts, e, rest, 0, room);
    GroupedIs(e, 0);
    if Respects(e) { AboveNothing(e); }
    if rest != [] && rest[0].Op? {
      InOrderIs(rest[0].s);
      if IsBinary(rest[0].s) { TableIs(rest[0].s, rest[0].s); }
    }
  }

  /** No tokens have two trees that respect the order. */
  lemma OneTree(x: Exp, y: Exp)
    requires Respects(x) && Respects(y) && Flat(x) == Flat(y)
    ensures x == y
  {
    GroupedIs(x, 0);
    GroupedIs(y, 0);
    AboveNothing(x);
    AboveNothing(y);
    Unambiguous(x, y, 0);
  }

  // ---- Two operators ----

  /** x p y q z, for any two binary operators. */
  lemma TwoBinary(p: Sym, q: Sym, x: nat, y: nat, z: nat)
    requires InOrder(p) && InOrder(q)
    ensures var left := Binary(q, Binary(p, Var(x), Var(y)), Var(z));
            var right := Binary(p, Var(x), Binary(q, Var(y), Var(z)));
            ParseSub([Name(x), Op(p), Name(y), Op(q), Name(z)], 0, MAX_CCALLS)
            == Ok(if GroupsRight(p, q) then right else left, [])
  {
    InOrderIs(p);
    InOrderIs(q);
    TableIs(p, q);
    Groups(p, q, x, y, z, []);
    assert [Name(x), Op(p), Name(y), Op(q), Name(z)] + [] == [Name(x), Op(p), Name(y), Op(q), Name(z)];
  }

  /** A unary operator before x q y: only ^ takes x from it. */
  lemma UnaryFirst(u: Sym, q: Sym, x: nat, y: nat)
    requires u in UNARY && InOrder(q)
    ensures ParseSub([Op(u), Name(x), Op(q), Name(y)], 0, MAX_CCALLS)
            == Ok(if q == Pow then Unary(u, Binary(q, Var(x), Var(y))) else Binary(q, Unary(u, Var(x)), Var(y)), [])
  {
    var a, b := Var(x), Var(y);
    var e := if q == Pow then Unary(u, Binary(q, a, b)) else Binary(q, Unary(u, a), b);
    assert Flat(a) == [Name(x)] && Flat(b) == [Name(y)] && Levels(a) == Levels(b) == 1;
    assert Flat(Binary(q, a, b)) == [Name(x), Op(q), Name(y)] && Flat(Unary(u, a)) == [Op(u), Name(x)];
    assert Flat(e) + [] == [Op(u), Name(x), Op(q), Name(y)];
    assert Levels(Binary(q, a, b)) == 2 && Levels(Unary(u, a)) == 2;
    assert Rights(Unary(u, a)) == {Prefix} && Rights(a) == {};
    assert Lefts(Binary(q, a, b)) == {q} && Lefts(a) == {} && Lefts(b) == {};
    InOrderIs(q);
    assert Respects(a) && Respects(b) && Respects(Binary(q, a, b)) && Respects(Unary(u, a));
    assert Respects(e) && Levels(e) <= 3;
    ReadExact([Op(u), Name(x), Op(q), Name(y)], e, [], MAX_CCALLS);
  }

  /** A unary operator behind a binary one takes its operand, whatever the binary one is. */
  lemma UnarySecond(p: Sym, u: Sym, x: nat, y: nat)
    requires InOrder(p) && u in UNARY
    ensures ParseSub([Name(x), Op(p), Op(u), Name(y)], 0, MAX_CCALLS)
            == Ok(Binary(p, Var(x), Unary(u, Var(y))), [])
  {
    var a, b := Var(x), Unary(u, Var(y));
    var e := Binary(p, a, b);
    assert Flat(Var(y)) == [Name(y)] && Flat(a) == [Name(x)] && Flat(b) == [Op(u), Name(y)];
    assert Flat(e) + [] == [Name(x), Op(p), Op(u), Name(y)];
    assert Levels(a) == 1 && Levels(Var(y)) == 1 && Levels(b) == 2 && Levels(e) <= 3;
    assert Rights(a) == {} && Lefts(a) == {} && Lefts(b) == {} && Lefts(Var(y)) == {};
    assert Respects(Var(y)) && Respects(a) && Respects(b) && Respects(e);
    ReadExact([Name(x), Op(p), Op(u), Name(y)], e, [], MAX_CCALLS);
  }
}
