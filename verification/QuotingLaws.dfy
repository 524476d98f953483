/** What %q writes and what the escape sequences of string literals stand for, byte by byte. */
module QuotingLaws {
  import opened Quoting

  // ---- Writing ----

  /** \a, \b, \f, \n, \r, \t and \v. */
  const CONTROLS: map<Byte, Byte> := map[97 := 7, 98 := 8, 102 := 12, 110 := 10, 114 := 13, 116 := 9, 118 := 11]

  lemma QuotedOne(c: Byte)
    ensures Quoted([c]) == [34] + (match c
                                   case 0 => [92, 48, 48, 48]
                                   case 10 => [92, 10]
                                   case 13 => [92, 114]
                                   case 34 => [92, 34]
                                   case 92 => [92, 92]
                                   case _ => [c]) + [34]
  {
    assert Body([c]) == Escaped(c) + Body([]);
  }

  lemma {:induction false} BodyJoin(s: seq<Byte>, t: seq<Byte>)
    ensures Body(s + t) == Body(s) + Body(t)
    decreases |s|
  {
    if s == [] {
      assert s + t == t;
    } else {
      assert (s + t)[1..] == s[1..] + t;
      BodyJoin(s[1..], t);
    }
  }

  /** What is written for a character does not depend on the others. */
  lemma QuotedJoin(s: seq<Byte>, t: seq<Byte>)
    ensures |Quoted(s)| >= 2 && |Quoted(t)| >= 2
    ensures Quoted(s + t) == Quoted(s)[..|Quoted(s)| - 1] + Quoted(t)[1..]
  {
    hide Body;
    BodyJoin(s, t);
    assert Quoted(s)[..|Quoted(s)| - 1] == [34] + Body(s);
    assert Quoted(t)[1..] == Body(t) + [34];
  }

  // ---- Reading ----

  /** The quote that ends a literal. */
  lemma QuoteEnds(rest: seq<Byte>, line: int)
    ensures ReadLiteral([34] + rest, 34, line) == Text([], rest, line)
  {
  }

  lemma ReadOne(c: Byte, rest: seq<Byte>, line: int)
    ensures ReadLiteral([c, 34] + rest, 34, line)
            == if c == 34 then Text([], [34] + rest, line)
               else if c == 10 || c == 13 then Bad(UnfinishedString)
               else if c != 92 then Text([c], rest, line)
               else ReadLiteral([92] + [34] + rest, 34, line)
  {
    assert ([c, 34] + rest)[1..] == [34] + rest;
    QuoteEnds(rest, line);
    assert [92, 34] + rest == [92] + [34] + rest;
  }

  /** A backslash and a character that is no digit. */
  lemma ReadEscapedOne(c: Byte, rest: seq<Byte>, line: int)
    requires !(48 <= c <= 57)
    ensures ReadLiteral([92, c, 34] + rest, 34, line)
            == if c in CONTROLS then Text([CONTROLS[c]], rest, line)
               else if c != 10 && c != 13 then Text([c], rest, line)
               else if line + 1 < MAX_INT then Text([10], rest, line + 1)
               else Bad(TooManyLines)
  {
    var z := [c, 34] + rest;
    assert ([92, c, 34] + rest)[1..] == z && z[1..] == [34] + rest;
    QuoteEnds(rest, line);
    QuoteEnds(rest, line + 1);
  }

  /** A backslash and two different characters that end a line. */
  lemma ReadBreak(c: Byte, d: Byte, rest: seq<Byte>, line: int)
    requires (c == 10 && d == 13) || (c == 13 && d == 10)
    ensures ReadLiteral([92, c, d, 34] + rest, 34, line)
            == if line + 1 < MAX_INT then Text([10], rest, line + 1) else Bad(TooManyLines)
  {
    var z := [c, d, 34] + rest;
    assert ([92, c, d, 34] + rest)[1..] == z && z[2..] == [34] + rest;
    QuoteEnds(rest, line + 1);
  }

  predicate Digits(ds: seq<Byte>) {
    forall i | 0 <= i < |ds| :: 48 <= ds[i] <= 57
  }

  lemma DigitRun(ds: seq<Byte>, z: seq<Byte>, n: nat, c: nat)
    requires |ds| <= n <= 3 && Digits(ds) && (|ds| == n || z == [] || !IsDigit(z[0]))
    ensures DigitCount(ds + z, n) == |ds| && Decimal(ds + z, n, c) == Decimal(ds, |ds|, c)
    decreases |ds|
  {
    if ds == [] {
      assert ds + z == z;
    } else {
      assert (ds + z)[1..] == ds[1..] + z;
      DigitRun(ds[1..], z, n - 1, 10 * c + ds[0] - 48);
    }
  }

  /** The number that one, two or three digits write. */
  function Number(ds: seq<Byte>): int
    requires 1 <= |ds| <= 3
  {
    var d := seq(|ds|, i requires 0 <= i < |ds| => ds[i] as int - 48);
    match |ds|
    case 1 => d[0]
    case 2 => 10 * d[0] + d[1]
    case _ => 100 * d[0] + 10 * d[1] + d[2]
  }

  lemma DecimalOf(ds: seq<Byte>)
    requires 1 <= |ds| <= 3 && Digits(ds)
    ensures Decimal(ds, |ds|, 0) == Number(ds)
  {
    var c := ds[0] as int - 48;
    var a := ds[1..];
    assert Decimal(ds, |ds|, 0) == Decimal(a, |a|, c);
    if a != [] {
      var b := a[1..];
      assert a[0] == ds[1];
      assert Decimal(a, |a|, c) == Decimal(b, |b|, 10 * c + ds[1] as int - 48);
      if b != [] {
        assert b[0] == ds[2] && b[1..] == [];
      }
    }
  }

  /** A backslash and up to three digits are one byte. */
  lemma ReadDigits(ds: seq<Byte>, rest: seq<Byte>, line: int)
    requires 1 <= |ds| <= 3 && Digits(ds)
    ensures ReadLiteral([92] + ds + [34] + rest, 34, line)
            == if 0 <= Number(ds) <= 255 then Text([Number(ds)], rest, line) else Bad(EscapeTooLarge)
  {
    var z := ds + ([34] + rest);
    assert z[0] == ds[0];
    assert ([92] + ds + [34] + rest)[1..] == z && z[|ds|..] == [34] + rest;
    DigitRun(ds, [34] + rest, 3, 0);
    DecimalOf(ds);
    QuoteEnds(rest, line);
  }
}
