/** Lua patterns: what a pattern item matches, and what it means for a whole pattern to match (section
    5.4.1 of the Lua 5.1 Reference Manual), apart from how matches are searched for. */
module Patterns {

  datatype Option<+T> = None | Some(value: T)

  const ESC := '%'
  const MAXCAPTURES := 32

  /** Character of a zero-terminated string. */
  function At(p: string, i: nat): char {
    if i < |p| then p[i] else '\0'
  }

  /** A pattern ends at its first zero. `isclass` is the locale: which characters are in the class of a
      lower-case letter (a, c, d, l, p, s, u, w, x). */
  datatype Problem = Problem(src: string, pat: string, isclass: (char, char) -> bool)

  // ---- Character classes ----

  function ToLower(c: char): char {
    if 'A' <= c <= 'Z' then (c as int + 32) as char else c
  }

  /** match_class. */
  predicate MatchClass(isclass: (char, char) -> bool, c: char, cl: char) {
    var l := ToLower(cl);
    if l in {'a', 'c', 'd', 'l', 'p', 's', 'u', 'w', 'x', 'z'} then
      (if l == 'z' then c == '\0' else isclass(l, c)) == (cl == l)
    else cl == c
  }

  /** Whether c is in the set written from position j up to ec: single characters, ranges, classes. */
  predicate InItems(x: Problem, c: char, j: nat, ec: nat)
    decreases ec - j
  {
    if j >= ec then false
    else if At(x.pat, j) == ESC then MatchClass(x.isclass, c, At(x.pat, j + 1)) || InItems(x, c, j + 2, ec)
    else if At(x.pat, j + 1) == '-' && j + 2 < ec then At(x.pat, j) <= c <= At(x.pat, j + 2) || InItems(x, c, j + 3, ec)
    else At(x.pat, j) == c || InItems(x, c, j + 1, ec)
  }

  /** A set [...] or [^...] from the bracket at p to the one at ec. */
  predicate InBracket(x: Problem, c: char, p: nat, ec: nat) {
    if At(x.pat, p + 1) == '^' then !InItems(x, c, p + 2, ec) else InItems(x, c, p + 1, ec)
  }

  /** The end of the set whose item at j is read next. */
  function BracketEnd(pat: string, j: nat): (r: Option<nat>)
    ensures r.Some? ==> j + 1 < r.value <= |pat|
    decreases |pat| - j
  {
    if At(pat, j) == '\0' then None
    else
      var n := if At(pat, j) == ESC && At(pat, j + 1) != '\0' then j + 2 else j + 1;
      if At(pat, n) == ']' then Some(n + 1) else BracketEnd(pat, n)
  }

  /** classend: where the single-character class at p ends; None if it does not. */
  function ClassEnd(pat: string, p: nat): (r: Option<nat>)
    requires At(pat, p) != '\0'
    ensures r.Some? ==> p < r.value <= |pat|
  {
    if At(pat, p) == ESC then (if At(pat, p + 1) == '\0' then None else Some(p + 2))
    else if At(pat, p) == '[' then BracketEnd(pat, if At(pat, p + 1) == '^' then p + 2 else p + 1)
    else Some(p + 1)
  }

  /** singlematch: whether the class from p to ep holds c. */
  predicate Single(x: Problem, c: char, p: nat, ep: nat) {
    if At(x.pat, p) == '.' then true
    else if At(x.pat, p) == ESC then MatchClass(x.isclass, c, At(x.pat, p + 1))
    else if At(x.pat, p) == '[' then ep > 0 && InBracket(x, c, p, ep - 1)
    else At(x.pat, p) == c
  }

  predicate SingleAt(x: Problem, s: nat, p: nat, ep: nat) {
    s < |x.src| && Single(x, x.src[s], p, ep)
  }

  /** n characters from s on are in the class. */
  predicate Reps(x: Problem, s: nat, n: nat, p: nat, ep: nat) {
    s + n <= |x.src| && forall i | s <= i < s + n :: SingleAt(x, i, p, ep)
  }

  // ---- Pattern items ----

  datatype Repeat = Once | Optional | Star | Plus | Lazy

  datatype Item =
    | End
    | EndAnchor
    | OpenCapture(position: bool)
    | CloseCapture
    | Balance
    | Frontier(ep: nat)
    | BackReference(l: int)
    | Chars(ep: nat, rep: Repeat)
    | Malformed

  function RepeatOf(c: char): Repeat {
    if c == '?' then Optional else if c == '*' then Star else if c == '+' then Plus else if c == '-' then Lazy else Once
  }

  function CharsAt(pat: string, p: nat): Item
    requires At(pat, p) != '\0'
  {
    match ClassEnd(pat, p)
    case None => Malformed
    case Some(ep) => Chars(ep, RepeatOf(At(pat, ep)))
  }

  function FrontierAt(pat: string, p: nat): Item {
    if At(pat, p) != '[' then Malformed else
    match ClassEnd(pat, p)
    case None => Malformed
    case Some(ep) => Frontier(ep)
  }

  /** The item that a pattern goes on with at p. */
  function ItemAt(pat: string, p: nat): Item {
    var c, d := At(pat, p), At(pat, p + 1);
    if c == '(' then OpenCapture(d == ')')
    else if c == ')' then CloseCapture
    else if c == '\0' then End
    else if c == '$' && d == '\0' then EndAnchor
    else if c == ESC && d == 'b' then (if At(pat, p + 2) == '\0' || At(pat, p + 3) == '\0' then Malformed else Balance)
    else if c == ESC && d == 'f' then FrontierAt(pat, p + 2)
    else if c == ESC && '0' <= d <= '9' then BackReference(d as int - '1' as int)
    else CharsAt(pat, p)
  }

  // ---- Captures ----

  const CAP_UNFINISHED := -1
  const CAP_POSITION := -2

  datatype Capture = Capture(init: nat, len: int)

  /** capture_to_close: the last capture that is still open. */
  function OpenIndex(caps: seq<Capture>): (r: Option<nat>)
    ensures r.Some? ==> r.value < |caps| && caps[r.value].len == CAP_UNFINISHED
    ensures r.Some? ==> forall l | r.value < l < |caps| :: caps[l].len != CAP_UNFINISHED
    ensures r.None? ==> forall l | 0 <= l < |caps| :: caps[l].len != CAP_UNFINISHED
  {
    if caps == [] then None
    else if caps[|caps| - 1].len == CAP_UNFINISHED then Some(|caps| - 1)
    else OpenIndex(caps[..|caps| - 1])
  }

  /** check_capture. */
  predicate Referable(caps: seq<Capture>, l: int) {
    0 <= l < |caps| && caps[l].len != CAP_UNFINISHED
  }

  /** match_capture: the text of a capture stands at s. The length of a position capture, read as an
      unsigned number, is longer than any text. */
  predicate SameText(x: Problem, c: Capture, s: nat) {
    0 <= c.len && s + c.len <= |x.src| && c.init + c.len <= |x.src|
    && x.src[s..s + c.len] == x.src[c.init..c.init + c.len]
  }

  /** matchbalance: the end of the text that begins at s with b and balances b with e, `cont` of which
      are open before position i. */
  function BalanceEnd(src: string, b: char, e: char, i: nat, cont: nat): (r: Option<nat>)
    ensures r.Some? ==> i < r.value <= |src|
    decreases |src| - i
  {
    if i >= |src| then None
    else if src[i] == e then (if cont <= 1 then Some(i + 1) else BalanceEnd(src, b, e, i + 1, cont - 1))
    else BalanceEnd(src, b, e, i + 1, if src[i] == b then cont + 1 else cont)
  }

  function Balanced(x: Problem, s: nat, p: nat): (r: Option<nat>)
    ensures r.Some? ==> r.value <= |x.src|
  {
    var b, e := At(x.pat, p), At(x.pat, p + 1);
    if At(x.src, s) != b then None else BalanceEnd(x.src, b, e, s + 1, 1)
  }

  predicate AtFrontier(x: Problem, s: nat, p: nat, ep: nat) {
    var previous := if s == 0 then '\0' else At(x.src, s - 1);
    ep > 0 && !InBracket(x, previous, p, ep - 1) && InBracket(x, At(x.src, s), p, ep - 1)
  }

  // ---- Matching ----

  lemma ItemAdvances(pat: string, p: nat)
    ensures match ItemAt(pat, p)
            case OpenCapture(position) => p + (if position then 2 else 1) <= |pat|
            case CloseCapture => p + 1 <= |pat|
            case Balance => p + 4 <= |pat|
            case Frontier(ep) => p + 2 < ep <= |pat|
            case BackReference(_) => p + 2 <= |pat|
            case Chars(ep, rep) => p < ep <= |pat| && (rep != Once ==> ep < |pat|)
            case _ => true
  {
  }

  function Closed(caps: seq<Capture>, l: nat, s: nat): seq<Capture>
    requires l < |caps|
  {
    caps[l := Capture(caps[l].init, s - caps[l].init)]
  }

  /** One way of matching: the pattern from p on, with these captures made so far, takes the text from s
      to e and leaves the captures caps'. */
  ghost predicate CanMatch(x: Problem, p: nat, s: nat, caps: seq<Capture>, e: nat, caps': seq<Capture>)
    decreases |x.pat| - p
  {
    ItemAdvances(x.pat, p);
    match ItemAt(x.pat, p)
    case End => e == s && caps' == caps
    case EndAnchor => s == |x.src| && e == s && caps' == caps
    case OpenCapture(position) =>
      && |caps| < MAXCAPTURES
      && CanMatch(x, p + (if position then 2 else 1), s,
                  caps + [Capture(s, if position then CAP_POSITION else CAP_UNFINISHED)], e, caps')
    case CloseCapture =>
      var l := OpenIndex(caps);
      l.Some? && CanMatch(x, p + 1, s, Closed(caps, l.value, s), e, caps')
    case Balance =>
      var t := Balanced(x, s, p + 2);
      t.Some? && CanMatch(x, p + 4, t.value, caps, e, caps')
    case Frontier(ep) => AtFrontier(x, s, p + 2, ep) && CanMatch(x, ep, s, caps, e, caps')
    case BackReference(l) =>
      Referable(caps, l) && SameText(x, caps[l], s) && CanMatch(x, p + 2, s + caps[l].len, caps, e, caps')
    case Chars(ep, rep) =>
      (match rep
       case Once => SingleAt(x, s, p, ep) && CanMatch(x, ep, s + 1, caps, e, caps')
       case Optional =>
         || (SingleAt(x, s, p, ep) && CanMatch(x, ep + 1, s + 1, caps, e, caps'))
         || CanMatch(x, ep + 1, s, caps, e, caps')
       case Plus => exists n :: n > 0 && Reps(x, s, n, p, ep) && CanMatch(x, ep + 1, s + n, caps, e, caps')
       case _ => exists n :: Reps(x, s, n, p, ep) && CanMatch(x, ep + 1, s + n, caps, e, caps'))
    case Malformed => false
  }

  ghost predicate NoWay(x: Problem, p: nat, s: nat, caps: seq<Capture>) {
    forall e, caps' :: !CanMatch(x, p, s, caps, e, caps')
  }

  /** No more than n repetitions let the rest match. */
  ghost predicate Largest(x: Problem, s: nat, n: nat, p: nat, ep: nat, caps: seq<Capture>) {
    Reps(x, s, n, p, ep) && forall m: nat | n < m && Reps(x, s, m, p, ep) :: NoWay(x, ep + 1, s + m, caps)
  }

  ghost predicate Smallest(x: Problem, s: nat, n: nat, p: nat, ep: nat, caps: seq<Capture>) {
    Reps(x, s, n, p, ep) && forall m: nat | m < n && Reps(x, s, m, p, ep) :: NoWay(x, ep + 1, s + m, caps)
  }

  /** The way of matching that the manual promises: * and + take the largest, - the smallest number of
      repetitions, and ? one if possible, with which the rest of the pattern can match. */
  ghost predicate Best(x: Problem, p: nat, s: nat, caps: seq<Capture>, e: nat, caps': seq<Capture>)
    decreases |x.pat| - p
  {
    ItemAdvances(x.pat, p);
    match ItemAt(x.pat, p)
    case End => e == s && caps' == caps
    case EndAnchor => s == |x.src| && e == s && caps' == caps
    case OpenCapture(position) =>
      && |caps| < MAXCAPTURES
      && Best(x, p + (if position then 2 else 1), s,
              caps + [Capture(s, if position then CAP_POSITION else CAP_UNFINISHED)], e, caps')
    case CloseCapture =>
      var l := OpenIndex(caps);
      l.Some? && Best(x, p + 1, s, Closed(caps, l.value, s), e, caps')
    case Balance =>
      var t := Balanced(x, s, p + 2);
      t.Some? && Best(x, p + 4, t.value, caps, e, caps')
    case Frontier(ep) => AtFrontier(x, s, p + 2, ep) && Best(x, ep, s, caps, e, caps')
    case BackReference(l) =>
      Referable(caps, l) && SameText(x, caps[l], s) && Best(x, p + 2, s + caps[l].len, caps, e, caps')
    case Chars(ep, rep) =>
      (match rep
       case Once => SingleAt(x, s, p, ep) && Best(x, ep, s + 1, caps, e, caps')
       case Optional =>
         || (SingleAt(x, s, p, ep) && Best(x, ep + 1, s + 1, caps, e, caps'))
         || (Best(x, ep + 1, s, caps, e, caps') && (SingleAt(x, s, p, ep) ==> NoWay(x, ep + 1, s + 1, caps)))
       case Star => exists n :: Largest(x, s, n, p, ep, caps) && Best(x, ep + 1, s + n, caps, e, caps')
       case Plus => exists n :: n > 0 && Largest(x, s, n, p, ep, caps) && Best(x, ep + 1, s + n, caps, e, caps')
       case Lazy => exists n :: Smallest(x, s, n, p, ep, caps) && Best(x, ep + 1, s + n, caps, e, caps'))
    case Malformed => false
  }

  /** The promised way is a way. */
  lemma {:induction false} BestMatches(x: Problem, p: nat, s: nat, caps: seq<Capture>, e: nat, caps': seq<Capture>)
    requires Best(x, p, s, caps, e, caps')
    ensures CanMatch(x, p, s, caps, e, caps')
    decreases |x.pat| - p
  {
    ItemAdvances(x.pat, p);
    match ItemAt(x.pat, p)
    case OpenCapture(position) =>
      BestMatches(x, p + (if position then 2 else 1), s,
                  caps + [Capture(s, if position then CAP_POSITION else CAP_UNFINISHED)], e, caps');
    case CloseCapture => BestMatches(x, p + 1, s, Closed(caps, OpenIndex(caps).value, s), e, caps');
    case Balance => BestMatches(x, p + 4, Balanced(x, s, p + 2).value, caps, e, caps');
    case Frontier(ep) => BestMatches(x, ep, s, caps, e, caps');
    case BackReference(l) => BestMatches(x, p + 2, s + caps[l].len, caps, e, caps');
    case Chars(ep, rep) => BestRepeats(x, p, s, caps, e, caps', ep, rep);
    case _ =>
  }

  lemma {:induction false} BestRepeats(x: Problem, p: nat, s: nat, caps: seq<Capture>, e: nat, caps': seq<Capture>,
                                       ep: nat, rep: Repeat)
    requires Best(x, p, s, caps, e, caps') && ItemAt(x.pat, p) == Chars(ep, rep)
    ensures CanMatch(x, p, s, caps, e, caps')
    decreases |x.pat| - p, 0
  {
    hide AtFrontier, Balanced, Closed, ItemAt, NoWay, OpenIndex, Referable, Reps, SameText, Single, SingleAt;
    ItemAdvances(x.pat, p);
    match rep
    case Once => BestMatches(x, ep, s + 1, caps, e, caps');
    case Optional =>
      if Best(x, ep + 1, s, caps, e, caps') {
        BestMatches(x, ep + 1, s, caps, e, caps');
      } else {
        BestMatches(x, ep + 1, s + 1, caps, e, caps');
      }
    case Star =>
      var n :| Largest(x, s, n, p, ep, caps) && Best(x, ep + 1, s + n, caps, e, caps');
      BestMatches(x, ep + 1, s + n, caps, e, caps');
    case Plus =>
      var n :| n > 0 && Largest(x, s, n, p, ep, caps) && Best(x, ep + 1, s + n, caps, e, caps');
      BestMatches(x, ep + 1, s + n, caps, e, caps');
    case Lazy =>
      var n :| Smallest(x, s, n, p, ep, caps) && Best(x, ep + 1, s + n, caps, e, caps');
      BestMatches(x, ep + 1, s + n, caps, e, caps');
  }

  /** How many characters the promised way gives to its first item. */
  lemma RepeatsUsed(x: Problem, p: nat, s: nat, caps: seq<Capture>, e: nat, c: seq<Capture>, ep: nat, rep: Repeat)
    returns (n: nat)
    requires Best(x, p, s, caps, e, c) && ItemAt(x.pat, p) == Chars(ep, rep)
    ensures Best(x, if rep == Once then ep else ep + 1, s + n, caps, e, c)
    ensures match rep
            case Once => n == 1
            case Optional => n == 1 || (n == 0 && (SingleAt(x, s, p, ep) ==> NoWay(x, ep + 1, s + 1, caps)))
            case Lazy => Smallest(x, s, n, p, ep, caps)
            case _ => Largest(x, s, n, p, ep, caps)
    ensures n > 0 && rep.Optional? ==> SingleAt(x, s, p, ep)
  {
    match rep
    case Once => n := 1;
    case Optional =>
      n := if SingleAt(x, s, p, ep) && Best(x, ep + 1, s + 1, caps, e, c) then 1 else 0;
    case Star => n :| Largest(x, s, n, p, ep, caps) && Best(x, ep + 1, s + n, caps, e, c);
    case Plus => n :| n > 0 && Largest(x, s, n, p, ep, caps) && Best(x, ep + 1, s + n, caps, e, c);
    case Lazy => n :| Smallest(x, s, n, p, ep, caps) && Best(x, ep + 1, s + n, caps, e, c);
  }

  /** Two promised ways repeat an item equally often. */
  lemma SameRepeats(x: Problem, p: nat, s: nat, caps: seq<Capture>, e: nat, c: seq<Capture>, e': nat, c': seq<Capture>,
                    ep: nat, rep: Repeat)
      returns (n: nat)
    requires Best(x, p, s, caps, e, c) && Best(x, p, s, caps, e', c') && ItemAt(x.pat, p) == Chars(ep, rep)
    ensures var q := if rep == Once then ep else ep + 1;
            Best(x, q, s + n, caps, e, c) && Best(x, q, s + n, caps, e', c')
  {
    hide Best;
    n := RepeatsUsed(x, p, s, caps, e, c, ep, rep);
    var m := RepeatsUsed(x, p, s, caps, e', c', ep, rep);
    var q := if rep == Once then ep else ep + 1;
    if n != m {
      BestMatches(x, q, s + n, caps, e, c);
      BestMatches(x, q, s + m, caps, e', c');
      assert false;
    }
  }

  /** There is only one promised way. */
  lemma {:induction false} BestUnique(x: Problem, p: nat, s: nat, caps: seq<Capture>, e: nat, c: seq<Capture>, e': nat,
                                      c': seq<Capture>)
    requires Best(x, p, s, caps, e, c) && Best(x, p, s, caps, e', c')
    ensures e' == e && c' == c
    decreases |x.pat| - p
  {
    ItemAdvances(x.pat, p);
    match ItemAt(x.pat, p)
    case OpenCapture(position) =>
      BestUnique(x, p + (if position then 2 else 1), s,
                 caps + [Capture(s, if position then CAP_POSITION else CAP_UNFINISHED)], e, c, e', c');
    case CloseCapture => BestUnique(x, p + 1, s, Closed(caps, OpenIndex(caps).value, s), e, c, e', c');
    case Balance => BestUnique(x, p + 4, Balanced(x, s, p + 2).value, caps, e, c, e', c');
    case Frontier(ep) => BestUnique(x, ep, s, caps, e, c, e', c');
    case BackReference(l) => BestUnique(x, p + 2, s + caps[l].len, caps, e, c, e', c');
    case Chars(ep, rep) =>
      var n := SameRepeats(x, p, s, caps, e, c, e', c', ep, rep);
      BestUnique(x, if rep == Once then ep else ep + 1, s + n, caps, e, c, e', c');
    case _ =>
  }

  /** Where an item of fixed length leads, if it matches. */
  function After(x: Problem, p: nat, s: nat, caps: seq<Capture>): Option<(nat, nat, seq<Capture>)> {
    match ItemAt(x.pat, p)
    case OpenCapture(position) =>
      if |caps| >= MAXCAPTURES then None
      else Some((p + (if position then 2 else 1), s,
                 caps + [Capture(s, if position then CAP_POSITION else CAP_UNFINISHED)]))
    case CloseCapture =>
      var l := OpenIndex(caps);
      if l.None? then None else Some((p + 1, s, Closed(caps, l.value, s)))
    case Balance =>
      var t := Balanced(x, s, p + 2);
      if t.None? then None else Some((p + 4, t.value, caps))
    case Frontier(ep) => if AtFrontier(x, s, p + 2, ep) then Some((ep, s, caps)) else None
    case BackReference(l) =>
      if Referable(caps, l) && SameText(x, caps[l], s) then Some((p + 2, s + caps[l].len, caps)) else None
    case _ => None
  }

  predicate FixedItem(i: Item) {
    i.OpenCapture? || i.CloseCapture? || i.Balance? || i.Frontier? || i.BackReference?
  }

  lemma FixedStep(x: Problem, p: nat, s: nat, caps: seq<Capture>)
    requires FixedItem(ItemAt(x.pat, p))
    ensures var a := After(x, p, s, caps);
            && (a.None? ==> NoWay(x, p, s, caps))
            && (a.Some? && NoWay(x, a.value.0, a.value.1, a.value.2) ==> NoWay(x, p, s, caps))
            && forall e, c | a.Some? && Best(x, a.value.0, a.value.1, a.value.2, e, c) :: Best(x, p, s, caps, e, c)
  {
    var a := After(x, p, s, caps);
    if a.None? || NoWay(x, a.value.0, a.value.1, a.value.2) {
      forall e, c
        ensures !CanMatch(x, p, s, caps, e, c)
      {
        assert a.Some? ==> !CanMatch(x, a.value.0, a.value.1, a.value.2, e, c);
      }
    }
  }

  /** When no number of repetitions lets the rest match, there is no way. */
  lemma NoRepeats(x: Problem, p: nat, s: nat, caps: seq<Capture>, ep: nat, rep: Repeat)
    requires ItemAt(x.pat, p) == Chars(ep, rep)
    requires match rep
             case Once => SingleAt(x, s, p, ep) ==> NoWay(x, ep, s + 1, caps)
             case Optional => NoWay(x, ep + 1, s, caps) && (SingleAt(x, s, p, ep) ==> NoWay(x, ep + 1, s + 1, caps))
             case Plus => forall n: nat | n > 0 && Reps(x, s, n, p, ep) :: NoWay(x, ep + 1, s + n, caps)
             case _ => forall n: nat | Reps(x, s, n, p, ep) :: NoWay(x, ep + 1, s + n, caps)
    ensures NoWay(x, p, s, caps)
  {
    forall e, c
      ensures !CanMatch(x, p, s, caps, e, c)
    {
    }
  }

  // ---- Well-formed patterns ----

  /** Which captures are still open. */
  function Status(caps: seq<Capture>): (st: seq<bool>)
    ensures |st| == |caps| && forall i | 0 <= i < |caps| :: st[i] == (caps[i].len == CAP_UNFINISHED)
  {
    seq(|caps|, i requires 0 <= i < |caps| => caps[i].len == CAP_UNFINISHED)
  }

  function LastOpen(st: seq<bool>): (r: Option<nat>)
    ensures r.Some? ==> r.value < |st| && st[r.value]
  {
    if st == [] then None else if st[|st| - 1] then Some(|st| - 1) else LastOpen(st[..|st| - 1])
  }

  lemma {:induction false} LastOpenIndex(caps: seq<Capture>)
    ensures LastOpen(Status(caps)) == OpenIndex(caps)
    decreases |caps|
  {
    if caps == [] || caps[|caps| - 1].len == CAP_UNFINISHED {
    } else {
      assert Status(caps)[..|caps| - 1] == Status(caps[..|caps| - 1]);
      LastOpenIndex(caps[..|caps| - 1]);
    }
  }

  /** A pattern that is well-formed from p on, after captures of which st tells the open ones: classes
      and brackets end, captures are closed in order and referred to only when closed. */
  predicate WellFormed(pat: string, p: nat, st: seq<bool>)
    decreases |pat| - p
  {
    ItemAdvances(pat, p);
    match ItemAt(pat, p)
    case End => true
    case EndAnchor => true
    case OpenCapture(position) => |st| < MAXCAPTURES
      && WellFormed(pat, p + (if position then 2 else 1), st + [!position])
    case CloseCapture => LastOpen(st).Some? && WellFormed(pat, p + 1, st[LastOpen(st).value := false])
    case Balance => WellFormed(pat, p + 4, st)
    case Frontier(ep) => WellFormed(pat, ep, st)
    case BackReference(l) => 0 <= l < |st| && !st[l] && WellFormed(pat, p + 2, st)
    case Chars(ep, rep) => WellFormed(pat, if rep == Once then ep else ep + 1, st)
    case Malformed => false
  }

  lemma StatusOpened(caps: seq<Capture>, s: nat, what: int)
    ensures Status(caps + [Capture(s, what)]) == Status(caps) + [what == CAP_UNFINISHED]
  {
  }

  lemma StatusClosed(caps: seq<Capture>, l: nat, s: nat)
    requires l < |caps| && caps[l].init <= s
    ensures Status(Closed(caps, l, s)) == Status(caps)[l := false]
  {
  }
}
