/** The %q format of string.format (addquoted of lstrlib.c) and the reading of string literals
    (read_string of llex.c). */
module Quoting {

  datatype Option<+T> = None | Some(value: T)

  type Byte = b: int | 0 <= b < 256

  const EOZ := -1
  const MAX_INT := 0x7FFF_FFFD

  const NUL: Byte := 0
  const BEL: Byte := 7
  const BS: Byte := 8
  const TAB: Byte := 9
  const LF: Byte := 10
  const VT: Byte := 11
  const FF: Byte := 12
  const CR: Byte := 13
  const QUOTE: Byte := 34
  const ZERO: Byte := 48
  const BACKSLASH: Byte := 92

  // ---- Writing ----

  /** What stands for a character between the quotes. */
  function Escaped(c: Byte): seq<Byte> {
    if c == QUOTE || c == BACKSLASH || c == LF then [BACKSLASH, c]
    else if c == CR then [BACKSLASH, 'r' as int]
    else if c == NUL then [BACKSLASH, ZERO, ZERO, ZERO]
    else [c]
  }

  function Body(s: seq<Byte>): seq<Byte> {
    if s == [] then [] else Escaped(s[0]) + Body(s[1..])
  }

  function Quoted(s: seq<Byte>): seq<Byte> {
    [QUOTE] + Body(s) + [QUOTE]
  }

  lemma {:induction false} BodyAppend(s: seq<Byte>, c: Byte)
    ensures Body(s + [c]) == Body(s) + Escaped(c)
    decreases |s|
  {
    if s == [] {
      assert s + [c] == [c] && [c][1..] == [];
    } else {
      assert (s + [c])[1..] == s[1..] + [c];
      BodyAppend(s[1..], c);
    }
  }

  /** addquoted. */
  method AddQuoted(s: seq<Byte>) returns (b: seq<Byte>)
    ensures b == Quoted(s)
  {
    b := [QUOTE];
    var i := 0;
    while i < |s|
      invariant 0 <= i <= |s| && b == [QUOTE] + Body(s[..i])
    {
      assert s[..i + 1] == s[..i] + [s[i]];
      BodyAppend(s[..i], s[i]);
      var c := s[i];
      if c == QUOTE || c == BACKSLASH || c == LF {
        b := b + [BACKSLASH];
        b := b + [c];
      } else if c == CR {
        b := b + [BACKSLASH, 'r' as int];
      } else if c == NUL {
        b := b + [BACKSLASH, ZERO, ZERO, ZERO];
      } else {
        b := b + [c];
      }
      i := i + 1;
    }
    assert s[..i] == s;
    b := b + [QUOTE];
  }

  // ---- Reading ----

  datatype LexError = UnfinishedString | EscapeTooLarge | TooManyLines

  /** The value of a literal, the input after it and the line there. */
  datatype Literal = Text(s: seq<Byte>, rest: seq<Byte>, line: int) | Bad(error: LexError)

  predicate IsDigit(c: int) {
    48 <= c <= 57
  }

  predicate IsNewline(c: int) {
    c == LF || c == CR
  }

  /** How many of the next n characters, at most, are digits in a row. */
  function DigitCount(z: seq<Byte>, n: nat): (k: nat)
    ensures k <= n && k <= |z|
  {
    if n > 0 && z != [] && IsDigit(z[0]) then 1 + DigitCount(z[1..], n - 1) else 0
  }

  /** The number that up to n digits go on to write after c. */
  function Decimal(z: seq<Byte>, n: nat, c: nat): nat {
    if n > 0 && z != [] && IsDigit(z[0]) then Decimal(z[1..], n - 1, 10 * c + z[0] - 48) else c
  }

  /** The control character that an escape letter stands for. */
  function Control(d: Byte): int {
    if d == 'a' as int then BEL else if d == 'b' as int then BS else if d == 'f' as int then FF
    else if d == 'n' as int then LF else if d == 'r' as int then CR else if d == 't' as int then TAB
    else if d == 'v' as int then VT else -1
  }

  function Prepend(p: seq<Byte>, l: Literal): Literal {
    match l
    case Text(s, rest, line) => Text(p + s, rest, line)
    case Bad(_) => l
  }

  /** How much of the input a line break takes: \r\n and \n\r are one. */
  function BreakSize(z: seq<Byte>): (n: nat)
    requires z != []
    ensures 1 <= n <= |z|
  {
    if |z| > 1 && IsNewline(z[1]) && z[1] != z[0] then 2 else 1
  }

  /** A string literal from the character after its opening delimiter on (section 2.1 of the Lua 5.1
      Reference Manual). */
  function ReadLiteral(z: seq<Byte>, del: Byte, line: int): Literal
    decreases |z|
  {
    if z == [] then Bad(UnfinishedString)
    else if z[0] == del then Text([], z[1..], line)
    else if IsNewline(z[0]) then Bad(UnfinishedString)
    else if z[0] != BACKSLASH then Prepend([z[0]], ReadLiteral(z[1..], del, line))
    else ReadEscape(z[1..], del, line)
  }

  function ReadEscape(z: seq<Byte>, del: Byte, line: int): Literal
    decreases |z|, 1
  {
    if z == [] then Bad(UnfinishedString)
    else if Control(z[0]) >= 0 then Prepend([Control(z[0])], ReadLiteral(z[1..], del, line))
    else if IsNewline(z[0]) then
      if line + 1 >= MAX_INT then Bad(TooManyLines)
      else Prepend([LF], ReadLiteral(z[BreakSize(z)..], del, line + 1))
    else if IsDigit(z[0]) then
      var c := Decimal(z, 3, 0);
      if c > 255 then Bad(EscapeTooLarge) else Prepend([c], ReadLiteral(z[DigitCount(z, 3)..], del, line))
    else Prepend([z[0]], ReadLiteral(z[1..], del, line))
  }

  lemma LiteralStep(z: seq<Byte>, del: Byte, line: int)
    ensures var l := ReadLiteral(z, del, line);
            if z == [] then l == Bad(UnfinishedString)
            else if z[0] == del then l == Text([], z[1..], line)
            else if IsNewline(z[0]) then l == Bad(UnfinishedString)
            else if z[0] == BACKSLASH then l == ReadEscape(z[1..], del, line)
            else l == Prepend([z[0]], ReadLiteral(z[1..], del, line))
  {
  }

  lemma PrependNone(l: Literal)
    ensures Prepend([], l) == l
  {
    if l.Text? { assert [] + l.s == l.s; }
  }

  lemma PrependBad(p: seq<Byte>)
    ensures forall e :: Prepend(p, Bad(e)) == Bad(e)
  {
  }

  lemma PrependText(p: seq<Byte>, rest: seq<Byte>, line: int)
    ensures Prepend(p, Text([], rest, line)) == Text(p, rest, line)
  {
    assert p + [] == p;
  }

  lemma PrependTwice(a: seq<Byte>, b: seq<Byte>, l: Literal)
    ensures Prepend(a, Prepend(b, l)) == Prepend(a + b, l)
  {
    if l.Text? {
      assert a + (b + l.s) == a + b + l.s;
    }
  }

  class LexState {
    /** The character looked at, or EOZ; z is the input behind it. */
    var current: int
    var z: seq<Byte>
    var linenumber: int
    var buff: seq<Byte>

    predicate Valid()
      reads this
    {
      if current == EOZ then z == [] else 0 <= current < 256
    }

    function Input(): seq<Byte>
      reads this
      requires Valid()
    {
      if current == EOZ then [] else [current] + z
    }

    constructor (input: seq<Byte>, line: int)
      ensures Valid() && Input() == input && linenumber == line && buff == []
    {
      current := if input == [] then EOZ else input[0];
      z := if input == [] then [] else input[1..];
      linenumber, buff := line, [];
    }

    method Next()
      requires Valid() && current != EOZ
      modifies this`current, this`z
      ensures Valid() && Input() == old(Input())[1..]
    {
      if z == [] {
        current := EOZ;
      } else {
        current, z := z[0], z[1..];
      }
    }

    method SaveAndNext()
      requires Valid() && current != EOZ
      modifies this`current, this`z, this`buff
      ensures Valid() && Input() == old(Input())[1..] && buff == old(buff) + [old(Input())[0]]
    {
      buff := buff + [current];
      Next();
    }

    /** inclinenumber. */
    method IncLineNumber() returns (ok: bool)
      requires Valid() && IsNewline(current)
      modifies this`current, this`z, this`linenumber
      ensures Valid() && Input() == old(Input())[BreakSize(old(Input()))..] && linenumber == old(linenumber) + 1
      ensures ok <==> linenumber < MAX_INT
    {
      var previous := current;
      Next();
      if IsNewline(current) && current != previous {
        Next();
      }
      linenumber := linenumber + 1;
      ok := linenumber < MAX_INT;
    }

    /** The \ddd case of read_string: at most three digits. */
    method ReadDecimal() returns (c: nat)
      requires Valid() && IsDigit(current)
      modifies this`current, this`z
      ensures Valid()
      ensures c == Decimal(old(Input()), 3, 0) && Input() == old(Input())[DigitCount(old(Input()), 3)..]
    {
      ghost var z0 := Input();
      var i := 0;
      c := 0;
      while i == 0 || (i < 3 && IsDigit(current))
        invariant 0 <= i <= 3 && Valid() && (i == 0 ==> IsDigit(current))
        invariant i <= |z0| && Input() == z0[i..] && DigitCount(z0, 3) == i + DigitCount(Input(), 3 - i)
        invariant Decimal(z0, 3, 0) == Decimal(Input(), 3 - i, c)
        decreases 3 - i
      {
        c := 10 * c + (current - 48);
        Next();
        i := i + 1;
      }
    }

    /** The escape sequences of read_string: what follows a backslash. */
    method ReadEscaped(ghost del: Byte) returns (error: Option<LexError>)
      requires Valid() && current == BACKSLASH
      modifies this
      ensures Valid() && |Input()| < |old(Input())|
      ensures var l := ReadEscape(old(Input())[1..], del, old(linenumber));
              match error
              case Some(e) => l == Bad(e)
              case None => old(buff) <= buff && l == Prepend(buff[|old(buff)|..], ReadLiteral(Input(), del, linenumber))
    {
      Next();
      if current == EOZ {
        return Some(UnfinishedString);
      } else if Control(current) >= 0 {
        buff := buff + [Control(current)];
        Next();
      } else if IsNewline(current) {
        buff := buff + [LF];
        var ok := IncLineNumber();
        if !ok {
          return Some(TooManyLines);
        }
      } else if !IsDigit(current) {
        SaveAndNext();
      } else {
        var c := ReadDecimal();
        if c > 255 {
          return Some(EscapeTooLarge);
        }
        buff := buff + [c];
      }
      error := None;
    }

    /** One turn of the loop of read_string. */
    method ReadPiece(del: Byte) returns (error: Option<LexError>)
      requires Valid() && current != del
      modifies this
      ensures Valid()
      ensures var l := ReadLiteral(old(Input()), del, old(linenumber));
              match error
              case None =>
                && |Input()| < |old(Input())| && old(buff) <= buff
                && l == Prepend(buff[|old(buff)|..], ReadLiteral(Input(), del, linenumber))
              case Some(e) => l == Bad(e)
    {
      hide ReadLiteral, ReadEscape, Prepend;
      LiteralStep(Input(), del, linenumber);
      if current == EOZ || IsNewline(current) {
        return Some(UnfinishedString);
      } else if current == BACKSLASH {
        error := ReadEscaped(del);
      } else {
        SaveAndNext();
        error := None;
      }
    }

    /** read_string; buff gets the literal with its delimiters. */
    method ReadString(del: Byte) returns (r: Literal)
      requires Valid() && current == del && buff == []
      modifies this
      ensures Valid()
      ensures var l := ReadLiteral(old(Input())[1..], del, old(linenumber));
              && (l.Text? ==> r == Text(l.s, Input(), linenumber) && l == r)
              && (l.Bad? ==> r == l)
    {
      hide ReadLiteral, ReadEscape, Prepend;
      ghost var start, line := Input()[1..], linenumber;
      SaveAndNext();
      PrependNone(ReadLiteral(start, del, line));
      assert buff[1..] == [];
      while current != del
        invariant Valid() && |buff| > 0
        invariant ReadLiteral(start, del, line) == Prepend(buff[1..], ReadLiteral(Input(), del, linenumber))
        decreases |Input()|
      {
        ghost var b := buff;
        PrependBad(b[1..]);
        var error := ReadPiece(del);
        if error.Some? {
          return Bad(error.value);
        }
        PrependTwice(b[1..], buff[|b|..], ReadLiteral(Input(), del, linenumber));
        assert buff[1..] == b[1..] + buff[|b|..];
      }
      LiteralStep(Input(), del, linenumber);
      PrependText(buff[1..], Input()[1..], linenumber);
      SaveAndNext();
      assert buff[1..|buff| - 1] == buff[..|buff| - 1][1..];
      r := Text(buff[1..|buff| - 1], Input(), linenumber);
    }
  }

  // ---- Both ----

  function LineBreaks(s: seq<Byte>): nat {
    if s == [] then 0 else (if s[0] == LF then 1 else 0) + LineBreaks(s[1..])
  }

  lemma DigitStep(z: seq<Byte>, n: nat)
    requires n > 0 && z != [] && z[0] == ZERO
    ensures DigitCount(z, n) == 1 + DigitCount(z[1..], n - 1) && Decimal(z, n, 0) == Decimal(z[1..], n - 1, 0)
  {
  }

  lemma EscapedReads(c: Byte, z: seq<Byte>, line: int)
    requires z != [] && !IsNewline(z[0])
    ensures ReadLiteral(Escaped(c) + z, QUOTE, line)
            == if c == LF && line + 1 >= MAX_INT then Bad(TooManyLines)
               else Prepend([c], ReadLiteral(z, QUOTE, if c == LF then line + 1 else line))
  {
    var e := Escaped(c);
    var w := e + z;
    if c == NUL {
      var d2 := [ZERO] + z;
      var d1 := [ZERO] + d2;
      var d0 := [ZERO] + d1;
      assert w[1..] == d0 && d0[1..] == d1 && d1[1..] == d2 && d2[1..] == z && d0[3..] == z;
      DigitStep(d2, 1);
      DigitStep(d1, 2);
      DigitStep(d0, 3);
      assert DigitCount(z, 0) == 0 && Decimal(z, 0, 0) == 0;
    } else if |e| == 2 {
      assert w[1..] == [e[1]] + z && ([e[1]] + z)[1..] == z;
    } else {
      assert w[1..] == z;
    }
  }

  /** Reading what %q wrote gives the string back and stops right after it, unless the string has more
      line breaks than a chunk may have lines. */
  lemma {:induction false} QuotedReads(s: seq<Byte>, rest: seq<Byte>, line: int)
    ensures ReadLiteral(Body(s) + [QUOTE] + rest, QUOTE, line)
            == if line + LineBreaks(s) < MAX_INT || LineBreaks(s) == 0 then Text(s, rest, line + LineBreaks(s))
               else Bad(TooManyLines)
    decreases |s|
  {
    if s == [] {
      assert ([QUOTE] + rest)[1..] == rest;
      assert Body(s) + [QUOTE] + rest == [QUOTE] + rest;
    } else {
      var z := Body(s[1..]) + [QUOTE] + rest;
      var e := Escaped(s[0]);
      assert Body(s) + [QUOTE] + rest == e + z;
      QuotedReads(s[1..], rest, if s[0] == LF then line + 1 else line);
      EscapedReads(s[0], z, line);
      assert [s[0]] + s[1..] == s;
    }
  }
}
