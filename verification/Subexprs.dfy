/** subexpr of lparser.c, with the functions that it calls. */
module Subexprs {
  import opened Precedence
  import opened Syntax

  class LexState {
    /** The tokens from the current one on. */
    var tokens: seq<Token>
    var nCcalls: nat

    constructor (tokens: seq<Token>, nCcalls: nat)
      ensures this.tokens == tokens && this.nCcalls == nCcalls
    {
      this.tokens, this.nCcalls := tokens, nCcalls;
    }

    function Room(): nat
      reads this`nCcalls
    {
      if nCcalls >= MAX_CCALLS then 0 else MAX_CCALLS - nCcalls
    }

    function Current(): Token
      reads this`tokens
    {
      Peek(tokens)
    }

    method Next()
      requires tokens != []
      modifies this`tokens
      ensures tokens == old(tokens)[1..]
    {
      tokens := tokens[1..];
    }

    /** subexpr: None is a syntax error. The first operator not taken is the current token. */
    method Subexpr(limit: nat) returns (r: Option<Exp>)
      modifies this
      ensures match ParseSub(old(tokens), limit, old(Room()))
              case Ok(e, rest) => r == Some(e) && tokens == rest && nCcalls == old(nCcalls)
              case Err(_) => r == None
      decreases |tokens|, 2
    {
      ghost var room := Room();
      nCcalls := nCcalls + 1;
      if nCcalls > MAX_CCALLS {
        return None;
      }
      r := Head();
      if r == None {
        return;
      }
      var v, t := r.value, Current();
      while t.Op? && IsBinary(t.s) && LeftPriority(t.s) > limit
        invariant t == Current() && nCcalls == old(nCcalls) + 1 <= MAX_CCALLS && |tokens| < |old(tokens)|
        invariant ParseRest(v, tokens, limit, room) == ParseSub(old(tokens), limit, room)
        decreases |tokens|
      {
        Next();
        var v2 := Subexpr(RightPriority(t.s));
        if v2 == None {
          return None;
        }
        v, t := Binary(t.s, v, v2.value), Current();
      }
      nCcalls := nCcalls - 1;
      r := Some(v);
    }

    /** expr, which reads exactly the trees that respect the order of precedence. */
    method Expr() returns (r: Option<Exp>)
      modifies this
      ensures match ParseSub(old(tokens), 0, old(Room()))
              case Ok(e, rest) => r == Some(e) && tokens == rest && nCcalls == old(nCcalls)
              case Err(_) => r == None
      ensures r == None <==> forall e, rest :: !Reads(old(tokens), e, rest, old(Room()))
      ensures r != None ==> Reads(old(tokens), r.value, tokens, old(Room()))
      decreases |tokens|, 3
    {
      ghost var ts, room := tokens, Room();
      r := Subexpr(0);
      forall e, rest
        ensures Reads(ts, e, rest, room) <==> ParseSub(ts, 0, room) == Ok(e, rest)
      {
        ReadExact(ts, e, rest, room);
      }
    }

    /** The part of subexpr before its loop, with simpleexp. */
    method Head() returns (r: Option<Exp>)
      requires 0 < nCcalls <= MAX_CCALLS
      modifies this
      ensures match ParseHead(old(tokens), old(Room()) + 1)
              case Ok(e, rest) => r == Some(e) && tokens == rest && nCcalls == old(nCcalls)
              case Err(_) => r == None
      decreases |tokens|, 1
    {
      var t := Current();
      if t.Op? && IsUnary(t.s) {
        Next();
        var x := Subexpr(UNARY_PRIORITY);
        return if x == None then None else Some(Unary(t.s, x.value));
      }
      if t.Literal? {
        Next();
        return Some(Lit(t.n));
      }
      r := Prefix();
      while r != None && Current().Suffix?
        invariant match ParseHead(old(tokens), old(Room()) + 1)
                  case Ok(e, rest) => r != None && ParseSuffixes(r.value, tokens) == Ok(e, rest)
                       && nCcalls == old(nCcalls)
                  case Err(_) => r == None
        decreases |tokens|
      {
        var n := tokens[0].n;
        Next();
        r := Some(Suffixed(r.value, n));
      }
    }

    /** prefixexp. */
    method Prefix() returns (r: Option<Exp>)
      requires !(Current().Op? && IsUnary(Current().s)) && !Current().Literal? && 0 < nCcalls <= MAX_CCALLS
      modifies this
      ensures match ParseHead(old(tokens), old(Room()) + 1)
              case Ok(e, rest) => r != None && ParseSuffixes(r.value, tokens) == Ok(e, rest) && nCcalls == old(nCcalls)
              case Err(_) => r == None
      decreases |tokens|, 0
    {
      var t := Current();
      if t.Name? {
        Next();
        return Some(Var(t.n));
      }
      if t != LParen {
        return None;
      }
      Next();
      var x := Expr();
      if x == None || Current() != RParen {
        return None;
      }
      Next();
      return Some(Paren(x.value));
    }
  }
}
