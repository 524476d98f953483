/** The trees of expressions, and which of them the operator precedence parser (subexpr of lparser.c) builds
    from which tokens. */
module Syntax {

  datatype Option<+T> = None | Some(value: T)

  const MAX_CCALLS := 200
  const UNARY_PRIORITY := 8
  const NO_LIMIT := 255

  datatype Sym = Add | Sub | Mul | Div | Mod | Pow | Concat | Ne | Eq | Lt | Le | Gt | Ge | And | Or | Not | Len

  /** A literal is any simple expression that takes no suffix, a suffix one field, index or call. */
  datatype Token = Literal(n: nat) | Name(n: nat) | Suffix(n: nat) | LParen | RParen | Op(s: Sym) | Other

  datatype Exp =
    | Lit(n: nat)
    | Var(n: nat)
    | Paren(e: Exp)
    | Suffixed(e: Exp, n: nat)
    | Unary(op: Sym, e: Exp)
    | Binary(op: Sym, a: Exp, b: Exp)

  /** getunopr. */
  predicate IsUnary(s: Sym) {
    s == Not || s == Sub || s == Len
  }

  /** getbinopr. */
  predicate IsBinary(s: Sym) {
    s != Not && s != Len
  }

  /** The priority table. */
  function LeftPriority(s: Sym): nat {
    match s
    case Add | Sub => 6
    case Mul | Div | Mod => 7
    case Pow => 10
    case Concat => 5
    case Ne | Eq | Lt | Le | Gt | Ge => 3
    case And => 2
    case Or => 1
    case Not | Len => 0
  }

  function RightPriority(s: Sym): nat {
    match s
    case Pow => 9
    case Concat => 4
    case _ => LeftPriority(s)
  }

  // ---- The trees of the grammar ----

  function Flat(e: Exp): seq<Token> {
    match e
    case Lit(n) => [Literal(n)]
    case Var(n) => [Name(n)]
    case Paren(x) => [LParen] + Flat(x) + [RParen]
    case Suffixed(x, n) => Flat(x) + [Suffix(n)]
    case Unary(op, x) => [Op(op)] + Flat(x)
    case Binary(op, a, b) => Flat(a) + [Op(op)] + Flat(b)
  }

  predicate IsPrimary(e: Exp) {
    e.Var? || e.Paren? || e.Suffixed?
  }

  function Min(a: nat, b: nat): nat {
    if a < b then a else b
  }

  /** The lowest limit with which an operand at the right end of the tree was read. */
  function Edge(e: Exp): nat {
    match e
    case Unary(_, x) => Min(UNARY_PRIORITY, Edge(x))
    case Binary(op, _, b) => Min(RightPriority(op), Edge(b))
    case _ => NO_LIMIT
  }

  predicate EndsPrimary(e: Exp) {
    match e
    case Unary(_, x) => EndsPrimary(x)
    case Binary(_, _, b) => EndsPrimary(b)
    case Lit(_) => false
    case _ => true
  }

  /** The trees that respect the priorities, above a limit. An operator stands left of what it binds
      tighter than, and nothing at the right end of its left operand binds it more tightly. */
  predicate Grouped(e: Exp, limit: nat) {
    match e
    case Lit(_) => true
    case Var(_) => true
    case Paren(x) => Grouped(x, 0)
    case Suffixed(x, _) => IsPrimary(x) && Grouped(x, limit)
    case Unary(op, x) => IsUnary(op) && Grouped(x, UNARY_PRIORITY)
    case Binary(op, a, b) =>
      && IsBinary(op) && limit < LeftPriority(op) <= Edge(a)
      && Grouped(a, limit) && Grouped(b, RightPriority(op))
  }

  /** How deep subexpr is nested for a tree. */
  function Levels(e: Exp): (n: nat)
    ensures n > 0
  {
    match e
    case Lit(_) => 1
    case Var(_) => 1
    case Paren(x) => 1 + Levels(x)
    case Suffixed(x, _) => Levels(x)
    case Unary(_, x) => 1 + Levels(x)
    case Binary(_, a, b) => if Levels(a) > Levels(b) then Levels(a) else 1 + Levels(b)
  }

  /** What follows does not belong to e any more. */
  predicate Stops(rest: seq<Token>, e: Exp, limit: nat) {
    rest != [] ==>
      && !(rest[0].Suffix? && EndsPrimary(e))
      && (rest[0].Op? && IsBinary(rest[0].s) ==> LeftPriority(rest[0].s) <= Min(limit, Edge(e)))
  }

  // ---- The parser ----

  datatype Problem = TooDeep | Unexpected

  datatype Parsed = Ok(e: Exp, rest: seq<Token>) | Err(error: Problem)

  function Peek(ts: seq<Token>): Token {
    if ts == [] then Other else ts[0]
  }

  /** The loop of primaryexp. */
  function ParseSuffixes(e: Exp, ts: seq<Token>): (r: Parsed)
    ensures r.Ok? && |r.rest| <= |ts|
    decreases |ts|
  {
    if Peek(ts).Suffix? then ParseSuffixes(Suffixed(e, ts[0].n), ts[1..]) else Ok(e, ts)
  }

  /** subexpr, with room for so many nested calls. */
  function ParseSub(ts: seq<Token>, limit: nat, room: nat): (r: Parsed)
    ensures r.Ok? ==> |r.rest| < |ts|
    decreases |ts|, 2
  {
    if room == 0 then Err(TooDeep)
    else
      var head := ParseHead(ts, room);
      if head.Err? then head else ParseRest(head.e, head.rest, limit, room)
  }

  /** What comes before the first binary operator. */
  function ParseHead(ts: seq<Token>, room: nat): (r: Parsed)
    requires room > 0
    ensures r.Ok? ==> |r.rest| < |ts|
    decreases |ts|, 1
  {
    match Peek(ts)
    case Op(s) =>
      if !IsUnary(s) then Err(Unexpected)
      else
        var x := ParseSub(ts[1..], UNARY_PRIORITY, room - 1);
        if x.Err? then x else Ok(Unary(s, x.e), x.rest)
    case Literal(n) => Ok(Lit(n), ts[1..])
    case Name(n) => ParseSuffixes(Var(n), ts[1..])
    case LParen =>
      var x := ParseSub(ts[1..], 0, room - 1);
      if x.Err? then x
      else if Peek(x.rest) != RParen then Err(Unexpected)
      else ParseSuffixes(Paren(x.e), x.rest[1..])
    case _ => Err(Unexpected)
  }

  /** The loop of subexpr. */
  function ParseRest(v: Exp, ts: seq<Token>, limit: nat, room: nat): (r: Parsed)
    requires room > 0
    ensures r.Ok? ==> |r.rest| <= |ts|
    decreases |ts|, 0
  {
    var t := Peek(ts);
    if t.Op? && IsBinary(t.s) && LeftPriority(t.s) > limit then
      var v2 := ParseSub(ts[1..], RightPriority(t.s), room - 1);
      if v2.Err? then v2 else ParseRest(Binary(t.s, v, v2.e), v2.rest, limit, room)
    else Ok(v, ts)
  }

  // ---- What is parsed respects the priorities ----

  /** The parts of a tree within the room of its call. */
  predicate Good(e: Exp, limit: nat, room: nat) {
    Grouped(e, limit) && Levels(e) <= room
  }

  lemma {:induction false} SuffixesSound(e: Exp, ts: seq<Token>, limit: nat, room: nat)
    requires IsPrimary(e) && Good(e, limit, room)
    ensures var r := ParseSuffixes(e, ts);
            && Flat(e) + ts == Flat(r.e) + r.rest && IsPrimary(r.e) && Good(r.e, limit, room)
            && Stops(r.rest, r.e, NO_LIMIT)
    decreases |ts|
  {
    if Peek(ts).Suffix? {
      SuffixesSound(Suffixed(e, ts[0].n), ts[1..], limit, room);
      assert Flat(e) + ts == Flat(Suffixed(e, ts[0].n)) + ts[1..];
    }
  }

  lemma {:induction false} SubSound(ts: seq<Token>, limit: nat, room: nat)
    ensures var r := ParseSub(ts, limit, room);
            r.Ok? ==> ts == Flat(r.e) + r.rest && Good(r.e, limit, room) && Stops(r.rest, r.e, limit)
    decreases |ts|, 2
  {
    if room > 0 {
      HeadSound(ts, limit, room);
      var head := ParseHead(ts, room);
      if head.Ok? {
        RestSound(head.e, head.rest, limit, room);
      }
    }
  }

  lemma {:induction false} HeadSound(ts: seq<Token>, limit: nat, room: nat)
    requires room > 0
    ensures var r := ParseHead(ts, room);
            r.Ok? ==> ts == Flat(r.e) + r.rest && Good(r.e, limit, room) && Stops(r.rest, r.e, Edge(r.e))
    decreases |ts|, 1
  {
    hide ParseSub, ParseSuffixes, IsBinary;
    match Peek(ts)
    case Op(s) =>
      if IsUnary(s) {
        SubSound(ts[1..], UNARY_PRIORITY, room - 1);
      }
    case Name(n) =>
      SuffixesSound(Var(n), ts[1..], limit, room);
      assert ts == Flat(Var(n)) + ts[1..];
    case LParen =>
      SubSound(ts[1..], 0, room - 1);
      var x := ParseSub(ts[1..], 0, room - 1);
      if x.Ok? && Peek(x.rest) == RParen {
        SuffixesSound(Paren(x.e), x.rest[1..], limit, room);
        assert ts == Flat(Paren(x.e)) + x.rest[1..];
      }
    case _ =>
  }

  lemma {:induction false} RestSound(v: Exp, ts: seq<Token>, limit: nat, room: nat)
    requires room > 0 && Good(v, limit, room) && Stops(ts, v, Edge(v))
    ensures var r := ParseRest(v, ts, limit, room);
            r.Ok? ==> Flat(v) + ts == Flat(r.e) + r.rest && Good(r.e, limit, room) && Stops(r.rest, r.e, limit)
    decreases |ts|, 0
  {
    hide ParseSub, LeftPriority, RightPriority, IsBinary;
    var t := Peek(ts);
    if t.Op? && IsBinary(t.s) && LeftPriority(t.s) > limit {
      SubSound(ts[1..], RightPriority(t.s), room - 1);
      var v2 := ParseSub(ts[1..], RightPriority(t.s), room - 1);
      if v2.Ok? {
        assert Flat(v) + ts == Flat(Binary(t.s, v, v2.e)) + v2.rest;
        RestSound(Binary(t.s, v, v2.e), v2.rest, limit, room);
      }
    }
  }

  // ---- What respects the priorities is parsed ----

  lemma {:induction false} SubComplete(e: Exp, rest: seq<Token>, limit: nat, room: nat)
    requires Good(e, limit, room) && Stops(rest, e, limit)
    ensures ParseSub(Flat(e) + rest, limit, room) == Ok(e, rest)
    decreases e, 3
  {
    Spine(e, rest, limit, room);
  }

  /** After its first part the loop of subexpr builds e, and goes on behind it. */
  lemma {:induction false} Spine(e: Exp, rest: seq<Token>, limit: nat, room: nat)
    requires Good(e, limit, room) && Stops(rest, e, Edge(e))
    ensures ParseSub(Flat(e) + rest, limit, room) == ParseRest(e, rest, limit, room)
    decreases e, 2
  {
    hide ParseHead, LeftPriority, RightPriority, IsBinary;
    match e
    case Binary(op, a, b) =>
      var more := [Op(op)] + (Flat(b) + rest);
      assert Flat(e) + rest == Flat(a) + more && more[1..] == Flat(b) + rest;
      Spine(a, more, limit, room);
      SubComplete(b, rest, RightPriority(op), room - 1);
    case _ =>
      HeadComplete(e, rest, limit, room);
  }

  lemma {:induction false} HeadComplete(e: Exp, rest: seq<Token>, limit: nat, room: nat)
    requires !e.Binary? && Good(e, limit, room) && Stops(rest, e, Edge(e))
    ensures ParseHead(Flat(e) + rest, room) == Ok(e, rest)
    decreases e, 1
  {
    var ts := Flat(e) + rest;
    if e.Unary? {
      assert ts[1..] == Flat(e.e) + rest;
      SubComplete(e.e, rest, UNARY_PRIORITY, room - 1);
    } else if !e.Lit? {
      Suffixing(e, rest, limit, room);
    }
  }

  /** A primary expression is read up to its suffixes, and then with them. */
  lemma {:induction false} Suffixing(e: Exp, rest: seq<Token>, limit: nat, room: nat)
    requires IsPrimary(e) && Good(e, limit, room)
    ensures ParseHead(Flat(e) + rest, room) == ParseSuffixes(e, rest)
    decreases e, 0
  {
    var ts := Flat(e) + rest;
    match e
    case Var(_) =>
      assert ts[1..] == rest;
    case Paren(x) =>
      var more := [RParen] + rest;
      assert ts[1..] == Flat(x) + more && more[1..] == rest;
      SubComplete(x, more, 0, room - 1);
    case Suffixed(x, n) =>
      var more := [Suffix(n)] + rest;
      assert ts == Flat(x) + more && more[1..] == rest;
      Suffixing(x, more, limit, room);
    case _ =>
  }

  // ---- Main results ----

  /** subexpr reads a tree exactly if the tree respects the priorities, fits, and what follows stops it. */
  lemma SubExact(ts: seq<Token>, e: Exp, rest: seq<Token>, limit: nat, room: nat)
    ensures ParseSub(ts, limit, room) == Ok(e, rest) <==>
            ts == Flat(e) + rest && Good(e, limit, room) && Stops(rest, e, limit)
  {
    SubSound(ts, limit, room);
    if Good(e, limit, room) && Stops(rest, e, limit) {
      SubComplete(e, rest, limit, room);
    }
  }

  /** No tokens have two trees. */
  lemma Unambiguous(x: Exp, y: Exp, limit: nat)
    requires Grouped(x, limit) && Grouped(y, limit) && Flat(x) == Flat(y)
    ensures x == y
  {
    var room := Levels(x) + Levels(y);
    assert Flat(x) + [] == Flat(y) + [];
    SubComplete(x, [], limit, room);
    SubComplete(y, [], limit, room);
  }

  /** Two operators in a row group by their priorities. */
  lemma Groups(p: Sym, q: Sym, x: nat, y: nat, z: nat, rest: seq<Token>)
    requires IsBinary(p) && IsBinary(q) && (rest == [] || rest[0] == RParen)
    ensures var left := Binary(q, Binary(p, Var(x), Var(y)), Var(z));
            var right := Binary(p, Var(x), Binary(q, Var(y), Var(z)));
            ParseSub([Name(x), Op(p), Name(y), Op(q), Name(z)] + rest, 0, MAX_CCALLS)
            == Ok(if LeftPriority(q) > RightPriority(p) then right else left, rest)
  {
    var left, right := Binary(q, Binary(p, Var(x), Var(y)), Var(z)), Binary(p, Var(x), Binary(q, Var(y), Var(z)));
    var a, b, c := Var(x), Var(y), Var(z);
    assert Levels(a) == Levels(b) == Levels(c) == 1 && Flat(a) == [Name(x)] && Flat(b) == [Name(y)]
           && Flat(c) == [Name(z)];
    assert Levels(Binary(p, a, b)) == 2 && Levels(Binary(q, b, c)) == 2;
    assert Flat(left) == [Name(x), Op(p), Name(y), Op(q), Name(z)]
           && Flat(right) == [Name(x), Op(p), Name(y), Op(q), Name(z)];
    SubComplete(if LeftPriority(q) > RightPriority(p) then right else left, rest, 0, MAX_CCALLS);
  }
}
