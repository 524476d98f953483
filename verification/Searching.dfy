/** str_find_aux of lstrlib.c: the search for a pattern, and the plain search that string.find makes instead
    when it sees no special character. */
module Searching {
  import opened Matcher
  import opened Patterns

  const SPECIALS := "^$*+?.([%-"

  /** strpbrk finds no special character; it reads up to the first zero. */
  predicate NoSpecials(pat: string) {
    forall i | 0 <= i < |pat| :: (forall j | 0 <= j <= i :: pat[j] != '\0') ==> pat[i] !in SPECIALS
  }

  /** Each of the nine special characters has a zero before it. */
  lemma SpecialsAre(pat: string)
    ensures NoSpecials(pat) <==> forall i | 0 <= i < |pat| && pat[i] in "^$*+?.([%-" :: '\0' in pat[..i]
  {
    if NoSpecials(pat) {
      forall i | 0 <= i < |pat| && pat[i] in "^$*+?.([%-"
        ensures '\0' in pat[..i]
      {
        var j :| 0 <= j <= i && pat[j] == '\0';
        assert pat[..i][j] == '\0';
      }
    }
  }

  /** Neither ) nor a zero: the two characters that are not in SPECIALS but not plain in a pattern either. */
  predicate Literal(pat: string) {
    forall i | 0 <= i < |pat| :: pat[i] != ')' && pat[i] != '\0'
  }

  predicate Occurs(src: string, pat: string, s: nat) {
    s + |pat| <= |src| && src[s..s + |pat|] == pat
  }

  /** Character by character. */
  lemma OccursFrom(src: string, pat: string, s: nat)
    requires pat != []
    ensures Occurs(src, pat, s) <==> s < |src| && src[s] == pat[0] && Occurs(src, pat[1..], s + 1)
  {
    if s + |pat| <= |src| {
      var t := src[s..s + |pat|];
      assert t == [t[0]] + t[1..] && pat == [pat[0]] + pat[1..] && t[1..] == src[s + 1..s + |pat|];
    }
  }

  /** The answer of a plain search from init on: the first place where the text of the pattern stands. */
  ghost predicate FirstText(src: string, pat: string, init: nat, r: Result, start: nat) {
    match r
    case Found(e) =>
      && init <= start && Occurs(src, pat, start) && e == start + |pat|
      && forall s | init <= s < start :: !Occurs(src, pat, s)
    case Null => forall s | init <= s :: !Occurs(src, pat, s)
    case Failed(_) => false
  }

  lemma OccursHead(src: string, pat: string, s: nat)
    requires pat != [] && s + |pat| <= |src|
    ensures Occurs(src, pat, s) <==> src[s] == pat[0] && src[s + 1..s + |pat|] == pat[1..]
  {
    OccursFrom(src, pat, s);
  }

  lemma OccursEmpty(src: string, pat: string, s: nat)
    requires pat == [] && s <= |src|
    ensures Occurs(src, pat, s)
  {
  }

  lemma OccursTooLong(src: string, pat: string, from: nat)
    requires |pat| > |src| - from
    ensures forall s | from <= s :: !Occurs(src, pat, s)
  {
  }

  lemma OccursAhead(src: string, pat: string, s1: nat)
    requires pat != []
    ensures forall s | s1 <= s && Occurs(src, pat, s) :: s + |pat| <= |src| && src[s] == pat[0]
  {
    forall s | s1 <= s && Occurs(src, pat, s)
      ensures src[s] == pat[0]
    {
      OccursFrom(src, pat, s);
    }
  }

  // ---- The plain search ----

  /** memchr, among the n characters from position `from` on. */
  method MemChr(src: string, from: nat, n: nat, c: char) returns (r: Option<nat>)
    requires from + n <= |src|
    ensures r.Some? ==> from <= r.value < from + n && src[r.value] == c && forall i | from <= i < r.value :: src[i] != c
    ensures r.None? ==> forall i | from <= i < from + n :: src[i] != c
  {
    for i := from to from + n
      invariant forall j | from <= j < i :: src[j] != c
    {
      if src[i] == c {
        return Some(i);
      }
    }
    return None;
  }

  /** lmemfind. */
  method MemFind(src: string, from: nat, pat: string) returns (r: Result, start: nat)
    requires from <= |src|
    ensures FirstText(src, pat, from, r, start)
  {
    hide Occurs;
    r, start := Null, from;
    if |pat| == 0 {
      OccursEmpty(src, pat, from);
      return Found(from), from;
    }
    if |pat| > |src| - from {
      OccursTooLong(src, pat, from);
      return;
    }
    var l2 := |pat| - 1;
    var l1, s1 := |src| - from - l2, from;
    while l1 > 0
      invariant l1 >= 0 && from <= s1 && s1 + l1 + l2 == |src|
      invariant forall s | from <= s < s1 :: !Occurs(src, pat, s)
      decreases l1
    {
      var c := MemChr(src, s1, l1, pat[0]);
      OccursAhead(src, pat, s1);
      if c.None? {
        return;
      }
      var init := c.value + 1;
      OccursHead(src, pat, init - 1);
      if src[init..init + l2] == pat[1..] {
        return Found(init + l2), init - 1;
      }
      l1, s1 := l1 - (init - s1), init;
    }
    OccursTooLong(src, pat, s1);
  }

  // ---- Why it may stand for the search with the pattern ----

  predicate Plain(pat: string, p: nat) {
    p < |pat| && pat[p] !in SPECIALS && pat[p] != ')' && pat[p] != '\0'
  }

  /** A plain character matches itself. */
  lemma PlainStep(x: Problem, p: nat, s: nat, e: nat, c: seq<Capture>)
    requires Plain(x.pat, p) && At(x.pat, p + 1) !in SPECIALS
    ensures Best(x, p, s, [], e, c) <==> s < |x.src| && x.src[s] == x.pat[p] && Best(x, p + 1, s + 1, [], e, c)
    ensures CanMatch(x, p, s, [], e, c) <==> s < |x.src| && x.src[s] == x.pat[p] && CanMatch(x, p + 1, s + 1, [], e, c)
  {
    assert ItemAt(x.pat, p) == Chars(p + 1, Once);
  }

  lemma {:induction false} PlainPrefix(x: Problem, p: nat, k: nat, s: nat, e: nat, c: seq<Capture>)
    requires p <= k <= |x.pat| && At(x.pat, k) !in SPECIALS && s <= |x.src|
    requires forall i | p <= i < k :: Plain(x.pat, i)
    ensures Best(x, p, s, [], e, c) <==> Occurs(x.src, x.pat[p..k], s) && Best(x, k, s + k - p, [], e, c)
    ensures CanMatch(x, p, s, [], e, c) <==> Occurs(x.src, x.pat[p..k], s) && CanMatch(x, k, s + k - p, [], e, c)
    decreases k - p
  {
    hide Best, CanMatch, Occurs;
    if p == k {
      OccursEmpty(x.src, x.pat[p..k], s);
    } else {
      assert Plain(x.pat, p) && (p + 1 < k ==> Plain(x.pat, p + 1));
      PlainStep(x, p, s, e, c);
      OccursFrom(x.src, x.pat[p..k], s);
      if s < |x.src| {
        PlainPrefix(x, p + 1, k, s + 1, e, c);
        assert x.pat[p..k][1..] == x.pat[p + 1..k];
      }
    }
  }

  /** The first character that is not plain, or the end. */
  lemma PlainEnd(pat: string) returns (k: nat)
    requires NoSpecials(pat)
    ensures k == |pat| ==> Literal(pat)
    ensures k <= |pat| && At(pat, k) !in SPECIALS && (k == |pat| || pat[k] == ')' || pat[k] == '\0')
    ensures forall i | 0 <= i < k :: Plain(pat, i)
  {
    k := 0;
    while k < |pat| && pat[k] != ')' && pat[k] != '\0'
      invariant k <= |pat|
      invariant forall i | 0 <= i < k :: pat[i] != ')' && pat[i] != '\0'
      invariant forall i | 0 <= i < k :: Plain(pat, i)
    {
      k := k + 1;
    }
  }

  /** A pattern of plain characters has a way of matching, and the promised one, exactly where its text
      stands. */
  lemma LiteralMatches(x: Problem, s: nat, e: nat, c: seq<Capture>)
    requires NoSpecials(x.pat) && Literal(x.pat) && s <= |x.src|
    ensures Best(x, 0, s, [], e, c) <==> Occurs(x.src, x.pat, s) && e == s + |x.pat| && c == []
    ensures CanMatch(x, 0, s, [], e, c) <==> Occurs(x.src, x.pat, s) && e == s + |x.pat| && c == []
  {
    var k := PlainEnd(x.pat);
    PlainPrefix(x, 0, |x.pat|, s, e, c);
    assert x.pat[0..|x.pat|] == x.pat;
  }

  lemma LiteralNoWay(x: Problem, s: nat)
    requires NoSpecials(x.pat) && Literal(x.pat) && s <= |x.src|
    ensures NoWay(x, 0, s, []) <==> !Occurs(x.src, x.pat, s)
  {
    LiteralMatches(x, s, s + |x.pat|, []);
    forall e, c
      ensures CanMatch(x, 0, s, [], e, c) ==> Occurs(x.src, x.pat, s)
    {
      LiteralMatches(x, s, e, c);
    }
  }

  /** For such a pattern the plain search gives the answer that is promised of the search. */
  lemma LiteralAgrees(x: Problem, init: nat, r: Result, start: nat)
    requires NoSpecials(x.pat) && Literal(x.pat) && init <= |x.src| && !r.Failed?
    ensures FirstText(x.src, x.pat, init, r, start) <==> Leftmost(x, init, r, start, [])
  {
    hide Best, CanMatch, NoWay;
    forall s: nat {:trigger NoWay(x, 0, s, [])} {:trigger Occurs(x.src, x.pat, s)} | s <= |x.src|
      ensures NoWay(x, 0, s, []) <==> !Occurs(x.src, x.pat, s)
    {
      LiteralNoWay(x, s);
    }
    assert At(x.pat, 0) != '^';
    if r.Found? && start <= |x.src| {
      LiteralMatches(x, start, r.e, []);
    }
  }

  /** A text for which the answers differ, if the pattern has a ) or a zero in it. */
  lemma LiteralOnly(pat: string, isclass: (char, char) -> bool) returns (src: string, r: Result)
    requires NoSpecials(pat) && !Literal(pat)
    ensures !r.Failed? && FirstText(src, pat, 0, r, 0) && !Leftmost(Problem(src, pat, isclass), 0, r, 0, [])
  {
    var k := PlainEnd(pat);
    assert k < |pat| && At(pat, 0) != '^' by { assert k > 0 ==> Plain(pat, 0); }
    if pat[k] == ')' {
      src, r := pat, Found(|pat|);
      var x := Problem(src, pat, isclass);
      assert src[0..|pat|] == pat;
      PlainPrefix(x, 0, k, 0, |pat|, []);
    } else {
      src, r := pat[..k], Null;
      var x := Problem(src, pat, isclass);
      PlainPrefix(x, 0, k, 0, k, []);
      assert src[0..k] == pat[0..k];
      assert CanMatch(x, 0, 0, [], k, []) && !NoWay(x, 0, 0, []);
    }
  }

  /** The plain search of string.find stands for the search with the pattern, for every text, exactly if the
      pattern has neither a ) nor a zero in it. */
  lemma PlainExact(pat: string, isclass: (char, char) -> bool)
    requires NoSpecials(pat)
    ensures Literal(pat) <==>
            forall src, init: nat, r: Result, start: nat | init <= |src| && !r.Failed? ::
              FirstText(src, pat, init, r, start) <==> Leftmost(Problem(src, pat, isclass), init, r, start, [])
  {
    if Literal(pat) {
      forall src, init: nat, r: Result, start: nat | init <= |src| && !r.Failed?
        ensures FirstText(src, pat, init, r, start) <==> Leftmost(Problem(src, pat, isclass), init, r, start, [])
      {
        LiteralAgrees(Problem(src, pat, isclass), init, r, start);
      }
    } else {
      var src, r := LiteralOnly(pat, isclass);
    }
  }

  // ---- str_find_aux ----

  /** posrelat and the clipping of the third argument of string.find and string.match. */
  function Init(pos: int, len: nat): (init: nat)
    ensures init <= len
    ensures 1 <= pos <= len + 1 ==> init == pos - 1
    ensures 0 <= pos + len && pos < 0 ==> init == pos + len
    ensures pos > len ==> init == len
    ensures pos == 0 || pos + len < 0 ==> init == 0
  {
    var at := (if pos >= 0 then pos else if pos + len + 1 >= 0 then pos + len + 1 else 0) - 1;
    if at < 0 then 0 else if at > len then len else at
  }

  /** str_find_aux, of string.find and string.match. */
  method StrFindAux(x: Problem, pos: int, find: bool, plain: bool)
      returns (r: Result, start: nat, caps: seq<Capture>)
    ensures var init := Init(pos, |x.src|);
            if find && (plain || forall i | 0 <= i < |x.pat| && x.pat[i] in "^$*+?.([%-" :: '\0' in x.pat[..i])
            then FirstText(x.src, x.pat, init, r, start) && caps == []
            else Leftmost(x, init, r, start, caps)
    ensures !(find && plain) && (find && NoSpecials(x.pat) ==> Literal(x.pat)) ==>
              Leftmost(x, Init(pos, |x.src|), r, start, caps)
  {
    SpecialsAre(x.pat);
    var init := Init(pos, |x.src|);
    if find && (plain || NoSpecials(x.pat)) {
      r, start := MemFind(x.src, init, x.pat);
      caps := [];
      if !plain && Literal(x.pat) { LiteralAgrees(x, init, r, start); }
    } else {
      var ms := new MatchState(x);
      r, start := ms.Find(init);
      caps := ms.capture[..ms.level];
    }
  }
}
