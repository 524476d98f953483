/** What section 5.4.1 of the Lua 5.1 Reference Manual says of the parts of a pattern, on whole patterns and
    texts: in terms of characters and their positions only. */
module PatternLaws {
  import opened Matcher
  import opened Patterns

  /** A pattern of one item takes the one character of a text, or has no way on it; it is no error. */
  ghost predicate Takes(pat: string, isclass: (char, char) -> bool, c: char) {
    WellFormed(pat, 0, []) && Best(Problem([c], pat, isclass), 0, 0, [], 1, [])
  }

  ghost predicate Refuses(pat: string, isclass: (char, char) -> bool, c: char) {
    WellFormed(pat, 0, []) && NoWay(Problem([c], pat, isclass), 0, 0, [])
  }

  lemma OneItem(pat: string, isclass: (char, char) -> bool, c: char)
    requires pat != [] && ItemAt(pat, 0) == Chars(|pat|, Once)
    ensures var x := Problem([c], pat, isclass);
            && (Takes(pat, isclass, c) <==> Single(x, c, 0, |pat|))
            && (Refuses(pat, isclass, c) <==> !Single(x, c, 0, |pat|))
  {
    var x := Problem([c], pat, isclass);
    assert ItemAt(pat, |pat|) == End && WellFormed(pat, |pat|, []);
    assert Best(x, |pat|, 1, [], 1, []) && CanMatch(x, |pat|, 1, [], 1, []);
    assert CanMatch(x, 0, 0, [], 1, []) <==> Single(x, c, 0, |pat|);
  }

  // ---- Single characters ----

  function Upper(l: char): char
    requires 'a' <= l <= 'z'
  {
    (l as int - 32) as char
  }

  /** %a, %c, %d, %l, %p, %s, %u, %w, %x, and their upper-case letters for the complements. */
  lemma LetterClass(isclass: (char, char) -> bool, l: char, c: char)
    requires l in "acdlpsuwx"
    ensures if isclass(l, c) then Takes(['%', l], isclass, c) && Refuses(['%', Upper(l)], isclass, c)
            else Refuses(['%', l], isclass, c) && Takes(['%', Upper(l)], isclass, c)
  {
    OneItem(['%', l], isclass, c);
    OneItem(['%', Upper(l)], isclass, c);
  }

  /** %z is the zero character. */
  lemma ZeroClass(isclass: (char, char) -> bool, c: char)
    ensures if c == '\0' then Takes("%z", isclass, c) && Refuses("%Z", isclass, c)
            else Refuses("%z", isclass, c) && Takes("%Z", isclass, c)
  {
    OneItem("%z", isclass, c);
    OneItem("%Z", isclass, c);
  }

  /** % before any other character stands for that character, and . for all. */
  lemma EscapedCharacter(isclass: (char, char) -> bool, q: char, c: char)
    requires q !in "acdlpsuwxzACDLPSUWXZ" && q !in "bf0123456789" && q != '\0'
    ensures if c == q then Takes(['%', q], isclass, c) else Refuses(['%', q], isclass, c)
    ensures Takes(".", isclass, c)
  {
    OneItem(['%', q], isclass, c);
    OneItem(".", isclass, c);
  }

  // ---- Sets ----

  /** A character that means itself in a set. */
  predicate Ordinary(q: char) {
    q !in "^]%-" && q != '\0'
  }

  predicate AllOrdinary(chars: string) {
    forall i | 0 <= i < |chars| :: Ordinary(chars[i])
  }

  lemma {:induction false} OrdinaryItems(x: Problem, c: char, j: nat, ec: nat)
    requires j <= ec < |x.pat| && x.pat[ec] == ']' && forall i | j <= i < ec :: Ordinary(x.pat[i])
    ensures InItems(x, c, j, ec) <==> c in x.pat[j..ec]
    decreases ec - j
  {
    if j == ec {
    } else {
      OrdinaryItems(x, c, j + 1, ec);
      assert x.pat[j..ec] == [x.pat[j]] + x.pat[j + 1..ec];
      assert j + 1 < ec ==> Ordinary(x.pat[j + 1]);
    }
  }

  lemma {:induction false} OrdinaryEnd(pat: string, j: nat, ec: nat)
    requires j < ec < |pat| && pat[ec] == ']' && forall i | j <= i < ec :: Ordinary(pat[i])
    ensures BracketEnd(pat, j) == Some(ec + 1)
    decreases ec - j
  {
    if j + 1 == ec {
    } else {
      assert Ordinary(pat[j + 1]);
      OrdinaryEnd(pat, j + 1, ec);
    }
  }

  /** [set] takes the characters of the set, [^set] all others. */
  lemma Sets(isclass: (char, char) -> bool, chars: string, c: char)
    requires chars != [] && AllOrdinary(chars)
    ensures if c in chars then Takes("[" + chars + "]", isclass, c) && Refuses("[^" + chars + "]", isclass, c)
            else Refuses("[" + chars + "]", isclass, c) && Takes("[^" + chars + "]", isclass, c)
  {
    var n := |chars|;
    var p, q := "[" + chars + "]", "[^" + chars + "]";
    assert forall i | 1 <= i < n + 1 :: p[i] == chars[i - 1];
    assert forall i | 2 <= i < n + 2 :: q[i] == chars[i - 2];
    assert p[1..n + 1] == chars && q[2..n + 2] == chars && Ordinary(chars[0]);
    OrdinaryEnd(p, 1, n + 1);
    OrdinaryEnd(q, 2, n + 2);
    OneItem(p, isclass, c);
    OneItem(q, isclass, c);
    OrdinaryItems(Problem([c], p, isclass), c, 1, n + 1);
    OrdinaryItems(Problem([c], q, isclass), c, 2, n + 2);
  }

  /** [a-b] takes the characters from a to b. */
  lemma Range(isclass: (char, char) -> bool, a: char, b: char, c: char)
    requires Ordinary(a) && Ordinary(b)
    ensures var p, q := ['[', a, '-', b, ']'], ['[', '^', a, '-', b, ']'];
            if a <= c <= b then Takes(p, isclass, c) && Refuses(q, isclass, c)
            else Refuses(p, isclass, c) && Takes(q, isclass, c)
  {
    var p, q := ['[', a, '-', b, ']'], ['[', '^', a, '-', b, ']'];
    assert BracketEnd(p, 3) == Some(5) && BracketEnd(p, 2) == Some(5) && BracketEnd(p, 1) == Some(5);
    assert BracketEnd(q, 4) == Some(6) && BracketEnd(q, 3) == Some(6) && BracketEnd(q, 2) == Some(6);
    OneItem(p, isclass, c);
    OneItem(q, isclass, c);
    assert !InItems(Problem([c], p, isclass), c, 4, 4) && !InItems(Problem([c], q, isclass), c, 5, 5);
  }

  /** A class in a set. */
  lemma ClassInSet(isclass: (char, char) -> bool, l: char, c: char)
    requires l in "acdlpsuwx"
    ensures if isclass(l, c) then Takes(['[', '%', l, ']'], isclass, c) && Refuses(['[', '^', '%', l, ']'], isclass, c)
            else Refuses(['[', '%', l, ']'], isclass, c) && Takes(['[', '^', '%', l, ']'], isclass, c)
  {
    var p, q := ['[', '%', l, ']'], ['[', '^', '%', l, ']'];
    assert BracketEnd(p, 1) == Some(4) && BracketEnd(q, 2) == Some(5);
    OneItem(p, isclass, c);
    OneItem(q, isclass, c);
    assert !InItems(Problem([c], p, isclass), c, 3, 3) && !InItems(Problem([c], q, isclass), c, 4, 4);
  }

  // ---- Repetitions ----

  /** A character that is no part of the syntax. */
  predicate Letter(q: char) {
    q !in "^$*+?.([%-)" && q != '\0'
  }

  /** How many times q stands in the text from s on, one after the other. */
  function Lead(src: string, q: char, s: nat): (n: nat)
    ensures s <= |src| ==> s + n <= |src|
    decreases |src| - s
  {
    if s < |src| && src[s] == q then 1 + Lead(src, q, s + 1) else 0
  }

  lemma {:induction false} LeadReps(x: Problem, s: nat, n: nat)
    requires x.pat != [] && Letter(x.pat[0]) && s <= |x.src|
    ensures Reps(x, s, n, 0, 1) <==> n <= Lead(x.src, x.pat[0], s)
    decreases |x.src| - s
  {
    var q := x.pat[0];
    assert forall i | s <= i < |x.src| :: SingleAt(x, i, 0, 1) <==> x.src[i] == q;
    if n == 0 {
    } else if s < |x.src| && x.src[s] == q {
      LeadReps(x, s + 1, n - 1);
      assert Reps(x, s, n, 0, 1) <==> Reps(x, s + 1, n - 1, 0, 1);
    } else {
      assert !SingleAt(x, s, 0, 1);
    }
  }

  lemma AtEnd(x: Problem, s: nat, e: nat, c: seq<Capture>)
    requires |x.pat| == 2
    ensures Best(x, 2, s, [], e, c) <==> e == s && c == []
    ensures CanMatch(x, 2, s, [], e, c) <==> e == s && c == []
    ensures !NoWay(x, 2, s, [])
  {
    assert ItemAt(x.pat, 2) == End;
    assert CanMatch(x, 2, s, [], s, []);
  }

  lemma LargestIs(x: Problem, s: nat, m: nat)
    requires |x.pat| == 2 && Letter(x.pat[0]) && s <= |x.src|
    ensures Largest(x, s, m, 0, 1, []) <==> m == Lead(x.src, x.pat[0], s)
  {
    var n := Lead(x.src, x.pat[0], s);
    AtEnd(x, s + n, s + n, []);
    LeadReps(x, s, m);
    LeadReps(x, s, n);
    forall k: nat | Reps(x, s, k, 0, 1)
      ensures k <= n
    {
      LeadReps(x, s, k);
    }
  }

  lemma StarTakesAll(src: string, q: char, isclass: (char, char) -> bool, s: nat, e: nat, c: seq<Capture>)
    requires Letter(q) && s <= |src|
    ensures Best(Problem(src, [q, '*'], isclass), 0, s, [], e, c) <==> e == s + Lead(src, q, s) && c == []
  {
    var x, n := Problem(src, [q, '*'], isclass), Lead(src, q, s);
    assert ItemAt(x.pat, 0) == Chars(1, Star);
    forall m: nat
      ensures Largest(x, s, m, 0, 1, []) <==> m == n
    {
      LargestIs(x, s, m);
    }
    AtEnd(x, s + n, e, c);
    assert Largest(x, s, n, 0, 1, []);
  }

  lemma PlusTakesAll(src: string, q: char, isclass: (char, char) -> bool, s: nat, e: nat, c: seq<Capture>)
    requires Letter(q) && s <= |src|
    ensures var n := Lead(src, q, s);
            Best(Problem(src, [q, '+'], isclass), 0, s, [], e, c) <==> n > 0 && e == s + n && c == []
  {
    var x, n := Problem(src, [q, '+'], isclass), Lead(src, q, s);
    assert ItemAt(x.pat, 0) == Chars(1, Plus);
    forall m: nat
      ensures Largest(x, s, m, 0, 1, []) <==> m == n
    {
      LargestIs(x, s, m);
    }
    AtEnd(x, s + n, e, c);
    assert Largest(x, s, n, 0, 1, []);
  }

  lemma SmallestIs(x: Problem, s: nat, m: nat)
    requires |x.pat| == 2 && s <= |x.src|
    ensures Smallest(x, s, m, 0, 1, []) <==> m == 0
  {
    AtEnd(x, s + 0, s, []);
    assert Reps(x, s, 0, 0, 1);
  }

  lemma MinusTakesNone(src: string, q: char, isclass: (char, char) -> bool, s: nat, e: nat, c: seq<Capture>)
    requires Letter(q) && s <= |src|
    ensures Best(Problem(src, [q, '-'], isclass), 0, s, [], e, c) <==> e == s && c == []
  {
    var x := Problem(src, [q, '-'], isclass);
    assert ItemAt(x.pat, 0) == Chars(1, Lazy);
    forall m: nat
      ensures Smallest(x, s, m, 0, 1, []) <==> m == 0
    {
      SmallestIs(x, s, m);
    }
    AtEnd(x, s + 0, e, c);
    assert Smallest(x, s, 0, 0, 1, []);
  }

  lemma OptionTakesOne(src: string, q: char, isclass: (char, char) -> bool, s: nat, e: nat, c: seq<Capture>)
    requires Letter(q) && s <= |src|
    ensures Best(Problem(src, [q, '?'], isclass), 0, s, [], e, c)
            <==> e == s + (if Lead(src, q, s) > 0 then 1 else 0) && c == []
  {
    var x := Problem(src, [q, '?'], isclass);
    assert ItemAt(x.pat, 0) == Chars(1, Optional);
    AtEnd(x, s, e, c);
    AtEnd(x, s + 1, e, c);
    assert SingleAt(x, s, 0, 1) <==> s < |src| && src[s] == q;
  }

  /** q* takes as many as there are, q+ the same but at least one, q- none, and q? one if it can. */
  lemma Repetitions(src: string, q: char, isclass: (char, char) -> bool, s: nat, e: nat, c: seq<Capture>)
    requires Letter(q) && s <= |src|
    ensures var n := Lead(src, q, s);
            && (Best(Problem(src, [q, '*'], isclass), 0, s, [], e, c) <==> e == s + n && c == [])
            && (Best(Problem(src, [q, '+'], isclass), 0, s, [], e, c) <==> n > 0 && e == s + n && c == [])
            && (Best(Problem(src, [q, '-'], isclass), 0, s, [], e, c) <==> e == s && c == [])
            && (Best(Problem(src, [q, '?'], isclass), 0, s, [], e, c)
                <==> e == s + (if n > 0 then 1 else 0) && c == [])
  {
    StarTakesAll(src, q, isclass, s, e, c);
    PlusTakesAll(src, q, isclass, s, e, c);
    MinusTakesNone(src, q, isclass, s, e, c);
    OptionTakesOne(src, q, isclass, s, e, c);
  }

  // ---- Anchors ----

  /** A $ at the end of the pattern stands for the end of the text. */
  lemma EndAnchored(src: string, q: char, isclass: (char, char) -> bool, s: nat, e: nat, c: seq<Capture>)
    requires Letter(q)
    ensures Best(Problem(src, [q, '$'], isclass), 0, s, [], e, c)
            <==> s + 1 == |src| == e && src[s] == q && c == []
  {
    var x := Problem(src, [q, '$'], isclass);
    assert ItemAt(x.pat, 0) == Chars(1, Once) && ItemAt(x.pat, 1) == EndAnchor;
  }

  /** A ^ at its beginning keeps a search to the place where it starts. */
  lemma StartAnchored(src: string, q: char, isclass: (char, char) -> bool, init: nat, r: Result, start: nat,
                      c: seq<Capture>)
    requires Letter(q) && init <= |src| && Leftmost(Problem(src, ['^', q], isclass), init, r, start, c)
    ensures if init < |src| && src[init] == q then r == Found(init + 1) && start == init && c == [] else r == Null
  {
    var x := Problem(src, ['^', q], isclass);
    assert ItemAt(x.pat, 1) == Chars(2, Once) && ItemAt(x.pat, 2) == End;
    assert LeftmostFrom(x, 1, true, init, r, start, c);
    assert WellFormed(x.pat, 1, []) by { assert WellFormed(x.pat, 2, []); }
    if init < |src| && src[init] == q {
      assert CanMatch(x, 2, init + 1, [], init + 1, []) && CanMatch(x, 1, init, [], init + 1, []);
      assert !NoWay(x, 1, init, []);
      assert r.Found? && Best(x, 1, init, [], r.e, c) && Best(x, 2, init + 1, [], r.e, c);
    } else {
      assert !r.Failed? && !r.Found?;
    }
  }

  // ---- Captures ----

  lemma LetterStep(x: Problem, p: nat, s: nat, caps: seq<Capture>, e: nat, c: seq<Capture>)
    requires p < |x.pat| && Letter(x.pat[p]) && At(x.pat, p + 1) in "()%"
    ensures Best(x, p, s, caps, e, c) <==> s < |x.src| && x.src[s] == x.pat[p] && Best(x, p + 1, s + 1, caps, e, c)
  {
    assert ItemAt(x.pat, p) == Chars(p + 1, Once);
  }

  /** The pattern (q(r)) from its second parenthesis on. */
  lemma InnerCapture(x: Problem, q: char, r: char, s: nat, e: nat, c: seq<Capture>)
    requires Letter(q) && Letter(r) && x.pat == ['(', q, '(', r, ')', ')']
    ensures Best(x, 2, s + 1, [Capture(s, CAP_UNFINISHED)], e, c)
            <==> s + 2 <= |x.src| && x.src[s + 1] == r && e == s + 2 && c == [Capture(s, 2), Capture(s + 1, 1)]
  {
    var open := [Capture(s, CAP_UNFINISHED)];
    var both := [Capture(s, CAP_UNFINISHED), Capture(s + 1, CAP_UNFINISHED)];
    var one := [Capture(s, CAP_UNFINISHED), Capture(s + 1, 1)];
    assert open + [Capture(s + 1, CAP_UNFINISHED)] == both && one[..1] == open;
    assert OpenIndex(both) == Some(1) && OpenIndex(open) == Some(0) && OpenIndex(one) == Some(0);
    assert Closed(both, 1, s + 2) == one && Closed(one, 0, s + 2) == [Capture(s, 2), Capture(s + 1, 1)];
    LetterStep(x, 3, s + 1, both, e, c);
    assert ItemAt(x.pat, 4) == ItemAt(x.pat, 5) == CloseCapture && ItemAt(x.pat, 6) == End;
    assert Best(x, 5, s + 2, one, e, c) <==> e == s + 2 && c == [Capture(s, 2), Capture(s + 1, 1)];
    assert Best(x, 4, s + 2, both, e, c) <==> Best(x, 5, s + 2, one, e, c);
    assert ItemAt(x.pat, 2) == OpenCapture(false);
  }

  lemma PositionCapture(src: string, isclass: (char, char) -> bool, s: nat, e: nat, c: seq<Capture>)
    ensures Best(Problem(src, "()", isclass), 0, s, [], e, c) <==> e == s && c == [Capture(s, CAP_POSITION)]
  {
    var y := Problem(src, "()", isclass);
    assert ItemAt(y.pat, 0) == OpenCapture(true) && ItemAt(y.pat, 2) == End;
    assert [] + [Capture(s, CAP_POSITION)] == [Capture(s, CAP_POSITION)];
  }

  /** (q(r)) captures both characters, and the second again; () captures a position. */
  lemma Captures(src: string, q: char, r: char, isclass: (char, char) -> bool, s: nat, e: nat, c: seq<Capture>)
    requires Letter(q) && Letter(r)
    ensures Best(Problem(src, ['(', q, '(', r, ')', ')'], isclass), 0, s, [], e, c)
            <==> s + 2 <= |src| && src[s] == q && src[s + 1] == r && e == s + 2
                 && c == [Capture(s, 2), Capture(s + 1, 1)]
    ensures Best(Problem(src, "()", isclass), 0, s, [], e, c) <==> e == s && c == [Capture(s, CAP_POSITION)]
  {
    var x := Problem(src, ['(', q, '(', r, ')', ')'], isclass);
    var open := [Capture(s, CAP_UNFINISHED)];
    assert [] + open == open && ItemAt(x.pat, 0) == OpenCapture(false);
    LetterStep(x, 1, s, open, e, c);
    InnerCapture(x, q, r, s, e, c);
    PositionCapture(src, isclass, s, e, c);
  }

  /** (.)%1 takes two equal characters. */
  lemma BackReferences(src: string, isclass: (char, char) -> bool, s: nat, e: nat, c: seq<Capture>)
    ensures Best(Problem(src, "(.)%1", isclass), 0, s, [], e, c)
            <==> s + 2 <= |src| && src[s] == src[s + 1] && e == s + 2 && c == [Capture(s, 1)]
  {
    var x := Problem(src, "(.)%1", isclass);
    var open, shut := [Capture(s, CAP_UNFINISHED)], [Capture(s, 1)];
    assert [] + open == open;
    assert ItemAt(x.pat, 0) == OpenCapture(false) && ItemAt(x.pat, 1) == Chars(2, Once);
    assert ItemAt(x.pat, 2) == CloseCapture && ItemAt(x.pat, 3) == BackReference(0) && ItemAt(x.pat, 5) == End;
    assert OpenIndex(open) == Some(0) && Closed(open, 0, s + 1) == shut;
    assert Best(x, 5, s + 2, shut, e, c) <==> e == s + 2 && c == shut;
    if s + 2 <= |src| {
      assert src[s..s + 1] == [src[s]] && src[s + 1..s + 2] == [src[s + 1]];
    }
    assert SameText(x, shut[0], s + 1) <==> s + 2 <= |src| && src[s] == src[s + 1];
    assert Best(x, 3, s + 1, shut, e, c) <==> SameText(x, shut[0], s + 1) && Best(x, 5, s + 2, shut, e, c);
    assert Best(x, 2, s + 1, open, e, c) <==> Best(x, 3, s + 1, shut, e, c);
    assert Best(x, 1, s, open, e, c) <==> s < |src| && Best(x, 2, s + 1, open, e, c);
    assert Best(x, 0, s, [], e, c) <==> Best(x, 1, s, open, e, c);
  }

  // ---- Balanced text and frontiers ----

  /** How many more b than e stand in a text. */
  function Net(t: string, b: char, e: char): int {
    if t == [] then 0
    else Net(t[..|t| - 1], b, e) + (if t[|t| - 1] == b then 1 else if t[|t| - 1] == e then -1 else 0)
  }

  lemma {:induction false} BalanceNet(src: string, b: char, e: char, s: nat, i: nat, cont: nat)
    requires b != e && s < i <= |src| && cont > 0 && Net(src[s..i], b, e) == cont
    requires forall j | s < j < i :: Net(src[s..j], b, e) > 0
    ensures match BalanceEnd(src, b, e, i, cont)
            case Some(t) =>
              t <= |src| && i < t && Net(src[s..t], b, e) == 0 && forall j | s < j < t :: Net(src[s..j], b, e) > 0
            case None => forall j | s < j <= |src| :: Net(src[s..j], b, e) > 0
    decreases |src| - i
  {
    if i == |src| {
    } else {
      assert src[s..i + 1][..i - s] == src[s..i];
      if src[i] == e && cont == 1 {
      } else {
        BalanceNet(src, b, e, s, i + 1, if src[i] == e then cont - 1 else if src[i] == b then cont + 1 else cont);
      }
    }
  }

  /** %bxy takes a text that begins with x and ends with the y that makes them equally many for the first
      time. */
  lemma Balances(src: string, b: char, e: char, isclass: (char, char) -> bool, s: nat, t: nat, c: seq<Capture>)
    requires b != e && b != '\0' && e != '\0'
    ensures Best(Problem(src, ['%', 'b', b, e], isclass), 0, s, [], t, c)
            <==> c == [] && s < t <= |src| && src[s] == b && Net(src[s..t], b, e) == 0
                 && forall j | s < j < t :: Net(src[s..j], b, e) > 0
  {
    var x := Problem(src, ['%', 'b', b, e], isclass);
    assert ItemAt(x.pat, 0) == Balance && ItemAt(x.pat, 4) == End;
    if s < |src| && src[s] == b {
      assert src[s..s + 1] == [b] && [b][..0] == [];
      BalanceNet(src, b, e, s, s + 1, 1);
    }
  }

  /** %f[q] takes nothing where q begins. */
  lemma Frontiers(src: string, q: char, isclass: (char, char) -> bool, s: nat, e: nat, c: seq<Capture>)
    requires Ordinary(q) && s <= |src|
    ensures Best(Problem(src, ['%', 'f', '[', q, ']'], isclass), 0, s, [], e, c)
            <==> e == s && c == [] && s < |src| && src[s] == q && (s > 0 ==> src[s - 1] != q)
  {
    var x := Problem(src, ['%', 'f', '[', q, ']'], isclass);
    assert BracketEnd(x.pat, 3) == Some(5);
    assert ItemAt(x.pat, 0) == Frontier(5) && ItemAt(x.pat, 5) == End;
    forall d: char
      ensures InBracket(x, d, 2, 4) <==> d == q
    {
      OrdinaryItems(x, d, 3, 4);
      assert x.pat[3..4] == [q];
    }
  }

  // ---- Errors ----

  /** % at the end, brackets that do not end, a ) or a reference without a closed capture, and %b and %f without
      what they need. */
  lemma BadPatterns()
    ensures forall pat | pat in ["%", "[a", "[^]", "[%]", ")", "%1", "(%1)", "%b", "%bx", "%fa"] ::
              !WellFormed(pat, 0, [])
  {
    assert ItemAt("(%1)", 0) == OpenCapture(false) && ItemAt("(%1)", 1) == BackReference(0);
    assert !WellFormed("(%1)", 1, [true]);
    assert BracketEnd("[^]", 3) == None && BracketEnd("[a", 2) == None && BracketEnd("[%]", 3) == None;
    assert ItemAt(")", 0) == CloseCapture && LastOpen([]) == None;
    assert ItemAt("%1", 0) == BackReference(0);
  }

  function Pairs(n: nat): string {
    seq(2 * n, i => if i % 2 == 0 then '(' else ')')
  }

  lemma {:induction false} PairsFrom(n: nat, i: nat, st: seq<bool>)
    requires i <= n && |st| == i
    ensures WellFormed(Pairs(n), 2 * i, st) <==> n == i || n <= 32
    decreases n - i
  {
    if i == n {
      assert ItemAt(Pairs(n), 2 * n) == End;
    } else {
      assert Pairs(n)[2 * i] == '(' && Pairs(n)[2 * i + 1] == ')';
      assert ItemAt(Pairs(n), 2 * i) == OpenCapture(true);
      PairsFrom(n, i + 1, st + [false]);
    }
  }

  /** At most 32 captures. */
  lemma CaptureLimit(n: nat)
    ensures WellFormed(Pairs(n), 0, []) <==> n <= 32
  {
    PairsFrom(n, 0, []);
  }
}
