/** The backtracking matcher of lstrlib.c. */
module Matcher {
  import opened Patterns

  datatype MatchError =
    | TooManyCaptures
    | InvalidCaptureIndex
    | InvalidPatternCapture
    | MalformedPattern

  /** What match gives back: an end, NULL, or an error that ends everything. */
  datatype Result = Found(e: nat) | Null | Failed(error: MatchError)

  /** What is promised of a search from init on, for the pattern from p on: the leftmost place where there is
      a way of matching, only init itself if the pattern is anchored, and the promised way there. */
  ghost predicate LeftmostFrom(x: Problem, p: nat, anchor: bool, init: nat, r: Result, start: nat, caps: seq<Capture>) {
    match r
    case Found(e) =>
      && init <= start <= |x.src| && (anchor ==> start == init)
      && Best(x, p, start, [], e, caps) && forall s | init <= s < start :: NoWay(x, p, s, [])
    case Null => forall s | init <= s <= |x.src| && (anchor ==> s == init) :: NoWay(x, p, s, [])
    case Failed(_) => !WellFormed(x.pat, p, [])
  }

  ghost predicate Leftmost(x: Problem, init: nat, r: Result, start: nat, caps: seq<Capture>) {
    var anchor := At(x.pat, 0) == '^';
    LeftmostFrom(x, if anchor then 1 else 0, anchor, init, r, start, caps)
  }

  class MatchState {
    const x: Problem
    var level: nat
    var capture: array<Capture>

    ghost predicate Valid()
      reads this
    {
      capture.Length == MAXCAPTURES && level <= MAXCAPTURES
    }

    /** The captures made so far. */
    ghost function Caps(): seq<Capture>
      reads this, capture
      requires Valid()
    {
      capture[..level]
    }

    constructor (x: Problem)
      ensures this.x == x && level == 0 && Valid() && Caps() == [] && fresh(capture)
    {
      this.x, level := x, 0;
      capture := new Capture[MAXCAPTURES](_ => Capture(0, 0));
    }

    /** Captures begin before the text that is matched next. */
    ghost predicate Begun(s: nat)
      reads this, capture
      requires Valid()
    {
      forall i | 0 <= i < level :: capture[i].init <= s
    }

    /** What every part of the matcher ensures, for the pattern from p on and the text from s on: the
        promised way if there is one; when there is none, everything is as before; and an error
        only comes of a pattern that is not well-formed. */
    ghost predicate Outcome(r: Result, p: nat, s: nat, caps: seq<Capture>)
      reads this, capture
      requires Valid()
    {
      match r
      case Found(e) => s <= |x.src| && e <= |x.src| && Best(x, p, s, caps, e, Caps())
      case Null => NoWay(x, p, s, caps) && Caps() == caps
      case Failed(_) => !WellFormed(x.pat, p, Status(caps))
    }

    // ---- Single items ----

    /** classend. */
    method ClassEndAt(p: nat) returns (r: Option<nat>)
      requires At(x.pat, p) != '\0'
      ensures r == ClassEnd(x.pat, p)
    {
      var q := p + 1;
      if At(x.pat, p) == ESC {
        if At(x.pat, q) == '\0' {
          return None;
        }
        return Some(q + 1);
      } else if At(x.pat, p) == '[' {
        if At(x.pat, q) == '^' {
          q := q + 1;
        }
        ghost var start := q;
        var first := true;
        while first || At(x.pat, q) != ']'
          invariant first ==> BracketEnd(x.pat, start) == BracketEnd(x.pat, q)
          invariant !first ==> BracketEnd(x.pat, start) == if At(x.pat, q) == ']' then Some(q + 1)
                    else BracketEnd(x.pat, q)
          decreases |x.pat| - q
        {
          first := false;
          if At(x.pat, q) == '\0' {
            return None;
          }
          q := q + 1;
          if At(x.pat, q - 1) == ESC && At(x.pat, q) != '\0' {
            q := q + 1;
          }
        }
        return Some(q + 1);
      } else {
        return Some(q);
      }
    }

    /** matchbracketclass. */
    method MatchBracket(c: char, p: nat, ec: nat) returns (b: bool)
      ensures b == InBracket(x, c, p, ec)
    {
      var sig, q := true, p;
      if At(x.pat, p + 1) == '^' {
        sig, q := false, p + 1;
      }
      q := q + 1;
      ghost var start := q;
      while q < ec
        invariant InItems(x, c, start, ec) == InItems(x, c, q, ec)
        decreases ec - q
      {
        if At(x.pat, q) == ESC {
          q := q + 1;
          if MatchClass(x.isclass, c, At(x.pat, q)) {
            return sig;
          }
        } else if At(x.pat, q + 1) == '-' && q + 2 < ec {
          q := q + 2;
          if At(x.pat, q - 2) <= c <= At(x.pat, q) {
            return sig;
          }
        } else if At(x.pat, q) == c {
          return sig;
        }
        q := q + 1;
      }
      return !sig;
    }

    /** singlematch, on the character at s if there is one. */
    method SingleMatch(s: nat, p: nat, ep: nat) returns (b: bool)
      requires 0 < ep
      ensures b == SingleAt(x, s, p, ep)
    {
      if s >= |x.src| {
        return false;
      }
      if At(x.pat, p) == '.' {
        b := true;
      } else if At(x.pat, p) == ESC {
        b := MatchClass(x.isclass, x.src[s], At(x.pat, p + 1));
      } else if At(x.pat, p) == '[' {
        b := MatchBracket(x.src[s], p, ep - 1);
      } else {
        b := At(x.pat, p) == x.src[s];
      }
    }

    /** matchbalance. */
    method MatchBalance(s: nat, p: nat) returns (r: Option<nat>)
      ensures r == Balanced(x, s, p)
    {
      if At(x.src, s) != At(x.pat, p) {
        return None;
      }
      var b, e, cont, i := At(x.pat, p), At(x.pat, p + 1), 1, s + 1;
      while i < |x.src|
        invariant cont >= 1 && BalanceEnd(x.src, b, e, s + 1, 1) == BalanceEnd(x.src, b, e, i, cont)
        decreases |x.src| - i
      {
        if x.src[i] == e {
          cont := cont - 1;
          if cont == 0 {
            return Some(i + 1);
          }
        } else if x.src[i] == b {
          cont := cont + 1;
        }
        i := i + 1;
      }
      return None;
    }

    /** capture_to_close. */
    method CaptureToClose() returns (r: Option<nat>)
      requires Valid()
      ensures r == OpenIndex(Caps())
    {
      var l := level;
      while l > 0
        invariant 0 <= l <= level && Valid() && OpenIndex(Caps()) == OpenIndex(capture[..l])
      {
        assert capture[..l][..l - 1] == capture[..l - 1];
        l := l - 1;
        if capture[l].len == CAP_UNFINISHED {
          return Some(l);
        }
      }
      assert capture[..0] == [];
      return None;
    }

    // ---- Expanding items ----

    /** max_expand: as many repetitions as possible, from k of them on which are known to be there. */
    method MaxExpand(s: nat, p: nat, ep: nat, ghost k: nat, ghost s0: nat) returns (r: Result)
      requires Valid() && Begun(s0) && s0 + k == s <= |x.src| && p < ep < |x.pat| && Reps(x, s0, k, p, ep)
      modifies this`level, capture
      ensures Valid() && capture == old(capture)
      ensures r.Found? ==> s0 <= |x.src| && r.e <= |x.src| && exists n: nat ::
                k <= n && Largest(x, s0, n, p, ep, old(Caps())) && Best(x, ep + 1, s0 + n, old(Caps()), r.e, Caps())
      ensures r.Failed? ==> !WellFormed(x.pat, ep + 1, Status(old(Caps())))
      ensures r.Null? ==> Caps() == old(Caps()) && forall n: nat | k <= n && Reps(x, s0, n, p, ep) ::
                NoWay(x, ep + 1, s0 + n, old(Caps()))
      decreases |x.pat| - p, 0
    {
      var i := 0;
      var more := SingleMatch(s, p, ep);
      while more
        modifies {}
        invariant s + i <= |x.src| && Reps(x, s0, k + i, p, ep) && more == SingleAt(x, s + i, p, ep)
        decreases |x.src| - (s + i)
      {
        i := i + 1;
        more := SingleMatch(s + i, p, ep);
      }
      assert forall n: nat | Reps(x, s0, n, p, ep) :: n <= k + i by {
        forall n: nat | Reps(x, s0, n, p, ep)
          ensures n <= k + i
        {
          assert n > k + i ==> s0 <= s + i < s0 + n;
        }
      }
      var j := i + 1;
      while j > 0
        invariant 0 <= j <= i + 1 && Valid() && Begun(s0) && capture == old(capture) && Caps() == old(Caps())
        invariant forall n: nat | k + j <= n && Reps(x, s0, n, p, ep) :: NoWay(x, ep + 1, s0 + n, old(Caps()))
      {
        j := j - 1;
        r := Match(s + j, ep + 1);
        if !r.Null? {
          assert r.Found? ==> Largest(x, s0, k + j, p, ep, old(Caps()));
          return;
        }
      }
      return Null;
    }

    /** min_expand: as few repetitions as possible. */
    method MinExpand(s0: nat, p: nat, ep: nat) returns (r: Result)
      requires Valid() && Begun(s0) && s0 <= |x.src| && p < ep < |x.pat|
      modifies this`level, capture
      ensures Valid() && capture == old(capture)
      ensures r.Found? ==> r.e <= |x.src| && exists n: nat ::
                Smallest(x, s0, n, p, ep, old(Caps())) && Best(x, ep + 1, s0 + n, old(Caps()), r.e, Caps())
      ensures r.Failed? ==> !WellFormed(x.pat, ep + 1, Status(old(Caps())))
      ensures r.Null? ==> Caps() == old(Caps()) && forall n: nat | Reps(x, s0, n, p, ep) ::
                NoWay(x, ep + 1, s0 + n, old(Caps()))
      decreases |x.pat| - p, 0
    {
      var s, more := s0, true;
      while more
        invariant s0 <= s <= |x.src| && Valid() && Begun(s0) && capture == old(capture) && Caps() == old(Caps())
        invariant more ==> Reps(x, s0, s - s0, p, ep)
        invariant forall n: nat | n < s - s0 && Reps(x, s0, n, p, ep) :: NoWay(x, ep + 1, s0 + n, old(Caps()))
        invariant !more ==> forall n: nat | Reps(x, s0, n, p, ep) :: NoWay(x, ep + 1, s0 + n, old(Caps()))
        decreases if more then |x.src| + 1 - s else 0
      {
        r := Match(s, ep + 1);
        if !r.Null? {
          assert r.Found? ==> Smallest(x, s0, s - s0, p, ep, old(Caps()));
          return;
        }
        more := SingleMatch(s, p, ep);
        if more {
          s := s + 1;
        } else {
          forall n: nat | Reps(x, s0, n, p, ep)
            ensures NoWay(x, ep + 1, s0 + n, old(Caps()))
          {
            assert n > s - s0 ==> s0 <= s < s0 + n;
          }
        }
      }
      return Null;
    }

    /** start_capture. */
    method StartCapture(s: nat, p: nat, what: int) returns (r: Result)
      requires Valid() && Begun(s) && s <= |x.src| && p <= |x.pat| && p > 0
      modifies this`level, capture
      ensures Valid() && capture == old(capture)
      ensures r.Failed? || old(level) < MAXCAPTURES
      ensures r.Found? ==> r.e <= |x.src| && Best(x, p, s, old(Caps()) + [Capture(s, what)], r.e, Caps())
      ensures r.Null? ==> Caps() == old(Caps()) && NoWay(x, p, s, old(Caps()) + [Capture(s, what)])
      ensures r.Failed? ==> old(level) >= MAXCAPTURES
                            || !WellFormed(x.pat, p, Status(old(Caps())) + [what == CAP_UNFINISHED])
      decreases |x.pat| - p, 6
    {
      if level >= MAXCAPTURES {
        return Failed(TooManyCaptures);
      }
      ghost var caps := Caps();
      capture[level] := Capture(s, what);
      level := level + 1;
      assert Caps() == caps + [Capture(s, what)];
      StatusOpened(caps, s, what);
      r := Match(s, p);
      if r.Null? {
        level := level - 1;
        assert Caps() == (caps + [Capture(s, what)])[..|caps|];
      }
    }

    /** end_capture. */
    method EndCapture(s: nat, p: nat) returns (r: Result)
      requires Valid() && Begun(s) && s <= |x.src| && p <= |x.pat| && p > 0
      modifies this`level, capture
      ensures Valid() && capture == old(capture)
      ensures r.Failed? || OpenIndex(old(Caps())).Some?
      ensures r.Found? ==> r.e <= |x.src|
                           && Best(x, p, s, Closed(old(Caps()), OpenIndex(old(Caps())).value, s), r.e, Caps())
      ensures r.Null? ==> Caps() == old(Caps()) && NoWay(x, p, s, Closed(old(Caps()), OpenIndex(old(Caps())).value, s))
      ensures r.Failed? ==> var l := LastOpen(Status(old(Caps())));
                l.None? || !WellFormed(x.pat, p, Status(old(Caps()))[l.value := false])
      decreases |x.pat| - p, 6
    {
      var l := CaptureToClose();
      LastOpenIndex(Caps());
      if l.None? {
        return Failed(InvalidPatternCapture);
      }
      ghost var caps := Caps();
      capture[l.value] := Capture(capture[l.value].init, s - capture[l.value].init);
      assert Caps() == Closed(caps, l.value, s);
      StatusClosed(caps, l.value, s);
      r := Match(s, p);
      if r.Null? {
        capture[l.value] := Capture(capture[l.value].init, CAP_UNFINISHED);
        assert Caps() == caps;
      }
    }

    /** match. Its jumps to `init` are calls here, as the comments of the source describe them. */
    method Match(s: nat, p: nat) returns (r: Result)
      requires Valid() && Begun(s) && s <= |x.src| && p <= |x.pat|
      modifies this`level, capture
      ensures Valid() && capture == old(capture) && Outcome(r, p, s, old(Caps()))
      decreases |x.pat| - p, 5
    {
      ItemAdvances(x.pat, p);
      if FixedItem(ItemAt(x.pat, p)) { FixedStep(x, p, s, Caps()); }
      var c, d := At(x.pat, p), At(x.pat, p + 1);
      if c == '(' {
        if d == ')' {
          r := StartCapture(s, p + 2, CAP_POSITION);
        } else {
          r := StartCapture(s, p + 1, CAP_UNFINISHED);
        }
      } else if c == ')' {
        r := EndCapture(s, p + 1);
      } else if c == '\0' {
        r := Found(s);
      } else if c == '$' && d == '\0' {
        r := if s == |x.src| then Found(s) else Null;
      } else if c == ESC && d == 'b' {
        r := BalanceItem(s, p);
      } else if c == ESC && d == 'f' {
        r := FrontierItem(s, p);
      } else if c == ESC && '0' <= d <= '9' {
        r := BackItem(s, p);
      } else {
        r := CharsItem(s, p);
      }
    }

    method BalanceItem(s: nat, p: nat) returns (r: Result)
      requires Valid() && Begun(s) && s <= |x.src| && p <= |x.pat| && At(x.pat, p) == ESC && At(x.pat, p + 1) == 'b'
      modifies this`level, capture
      ensures Valid() && capture == old(capture) && Outcome(r, p, s, old(Caps()))
      decreases |x.pat| - p, 4
    {
      ItemAdvances(x.pat, p);
      if ItemAt(x.pat, p).Balance? { FixedStep(x, p, s, Caps()); }
      if At(x.pat, p + 2) == '\0' || At(x.pat, p + 3) == '\0' {
        return Failed(MalformedPattern);
      }
      var t := MatchBalance(s, p + 2);
      if t.None? {
        return Null;
      }
      r := Match(t.value, p + 4);
    }

    method FrontierItem(s: nat, p: nat) returns (r: Result)
      requires Valid() && Begun(s) && s <= |x.src| && p <= |x.pat| && At(x.pat, p) == ESC && At(x.pat, p + 1) == 'f'
      modifies this`level, capture
      ensures Valid() && capture == old(capture) && Outcome(r, p, s, old(Caps()))
      decreases |x.pat| - p, 4
    {
      ItemAdvances(x.pat, p);
      if ItemAt(x.pat, p).Frontier? { FixedStep(x, p, s, Caps()); }
      if At(x.pat, p + 2) != '[' {
        return Failed(MalformedPattern);
      }
      var ep := ClassEndAt(p + 2);
      if ep.None? {
        return Failed(MalformedPattern);
      }
      var previous := if s == 0 then '\0' else At(x.src, s - 1);
      var b := MatchBracket(previous, p + 2, ep.value - 1);
      if b {
        return Null;
      }
      b := MatchBracket(At(x.src, s), p + 2, ep.value - 1);
      if !b {
        return Null;
      }
      r := Match(s, ep.value);
    }

    method BackItem(s: nat, p: nat) returns (r: Result)
      requires Valid() && Begun(s) && s <= |x.src| && p <= |x.pat| && At(x.pat, p) == ESC
               && '0' <= At(x.pat, p + 1) <= '9'
      modifies this`level, capture
      ensures Valid() && capture == old(capture) && Outcome(r, p, s, old(Caps()))
      decreases |x.pat| - p, 4
    {
      ItemAdvances(x.pat, p);
      FixedStep(x, p, s, Caps());
      var l := At(x.pat, p + 1) as int - '1' as int;
      if l < 0 || l >= level || capture[l].len == CAP_UNFINISHED {
        return Failed(InvalidCaptureIndex);
      }
      assert capture[l] == Caps()[l];
      if !SameText(x, capture[l], s) {
        return Null;
      }
      r := Match(s + capture[l].len, p + 2);
    }

    method CharsItem(s: nat, p: nat) returns (r: Result)
      requires Valid() && Begun(s) && s <= |x.src| && p <= |x.pat| && At(x.pat, p) != '\0'
               && ItemAt(x.pat, p) == CharsAt(x.pat, p)
      modifies this`level, capture
      ensures Valid() && capture == old(capture) && Outcome(r, p, s, old(Caps()))
      decreases |x.pat| - p, 4
    {
      hide NoWay, OpenIndex;
      ItemAdvances(x.pat, p);
      var end := ClassEndAt(p);
      if end.None? {
        return Failed(MalformedPattern);
      }
      var ep := end.value;
      var m := SingleMatch(s, p, ep);
      ghost var caps, rep := Caps(), RepeatOf(At(x.pat, ep));
      if At(x.pat, ep) == '?' {
        if m {
          r := Match(s + 1, ep + 1);
          if !r.Null? {
            return;
          }
        }
        r := Match(s, ep + 1);
      } else if At(x.pat, ep) == '*' {
        r := MaxExpand(s, p, ep, 0, s);
      } else if At(x.pat, ep) == '+' {
        if m {
          r := MaxExpand(s + 1, p, ep, 1, s);
        } else {
          r := Null;
          assert forall n: nat | n > 0 && Reps(x, s, n, p, ep) :: s <= s < s + n;
        }
      } else if At(x.pat, ep) == '-' {
        r := MinExpand(s, p, ep);
      } else if m {
        r := Match(s + 1, ep);
      } else {
        r := Null;
      }
      if r.Null? { NoRepeats(x, p, s, caps, ep, rep); }
    }

    // ---- Searching ----

    /** The loop of str_find_aux. */
    method Find(init: nat) returns (r: Result, start: nat)
      requires Valid() && init <= |x.src|
      modifies this`level, capture
      ensures Valid() && capture == old(capture)
      ensures Leftmost(x, init, r, start, Caps())
    {
      var anchor := At(x.pat, 0) == '^';
      var p := if anchor then 1 else 0;
      start := init;
      while true
        invariant Valid() && capture == old(capture) && init <= start <= |x.src| && (anchor ==> start == init)
        invariant forall s | init <= s < start :: NoWay(x, p, s, [])
        decreases |x.src| - start
      {
        level := 0;
        assert Caps() == [];
        r := Match(start, p);
        if !r.Null? || start >= |x.src| || anchor {
          return;
        }
        start := start + 1;
      }
    }
  }
}
