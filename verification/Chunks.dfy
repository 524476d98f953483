/** Precompiled chunks: the format that ldump.c writes and lundump.c reads, and the round trip between
    the two. Every Put function writes before what follows it, every Parse function returns what is left. */
module Chunks {
  import Checker

  datatype Option<+T> = None | Some(value: T)

  type Byte = b: int | 0 <= b < 256

  type Int = x: int | -0x8000_0000 <= x < 0x8000_0000

  type Word = Checker.Word

  type Str = seq<Byte>

  const MAX_CCALLS := 200

  // ---- Prototypes ----

  /** A number is the image of a lua_Number in memory. */
  type Number = s: seq<Byte> | |s| == 8 witness [0, 0, 0, 0, 0, 0, 0, 0]

  datatype Constant = KNil | KBool(b: bool) | KNumber(n: Number) | KString(s: Option<Str>)

  datatype LocVar = LocVar(varname: Option<Str>, startpc: Int, endpc: Int)

  datatype Proto = Proto(source: Option<Str>, linedefined: Int, lastlinedefined: Int,
                         nups: Byte, numparams: Byte, isvararg: Byte, maxstacksize: Byte,
                         code: seq<Word>, k: seq<Constant>, p: seq<Proto>,
                         lineinfo: seq<Int>, locvars: seq<LocVar>, upvalues: seq<Option<Str>>)

  /** What the bytecode checker sees of a prototype. */
  function View(f: Proto): Checker.Proto {
    Checker.Proto(f.code, seq(|f.k|, i requires 0 <= i < |f.k| => f.k[i].KString?),
                  seq(|f.p|, i requires 0 <= i < |f.p| => f.p[i].nups as nat), f.nups, |f.upvalues|, |f.lineinfo|,
                  f.numparams, f.isvararg % 2 == 1, f.isvararg / 2 % 2 == 1, f.isvararg / 4 % 2 == 1, f.maxstacksize)
  }

  // ---- Memory images ----

  /** The byte order and the width of size_t; ints and instructions have 4 bytes, numbers 8. */
  datatype Machine = Machine(little: bool, sizet: nat)

  ghost predicate Sane(m: Machine) {
    m.sizet == 4 || m.sizet == 8
  }

  function Pow256(w: nat): (r: nat)
    ensures r > 0
  {
    if w == 0 then 1 else 256 * Pow256(w - 1)
  }

  /** The lowest w bytes of a number, in the order of the machine. */
  function Image(m: Machine, n: nat, w: nat): (r: seq<Byte>)
    ensures |r| == w
  {
    if w == 0 then []
    else if m.little then [n % 256] + Image(m, n / 256, w - 1)
    else Image(m, n / 256, w - 1) + [n % 256]
  }

  function Num(m: Machine, s: seq<Byte>): nat {
    if s == [] then 0
    else if m.little then s[0] + 256 * Num(m, s[1..])
    else s[|s| - 1] + 256 * Num(m, s[..|s| - 1])
  }

  lemma {:induction false} NumImage(m: Machine, n: nat, w: nat)
    requires n < Pow256(w)
    ensures Num(m, Image(m, n, w)) == n
  {
    if w == 0 {
    } else {
      NumImage(m, n / 256, w - 1);
      var r := Image(m, n, w);
      assert if m.little then r[1..] == Image(m, n / 256, w - 1) else r[..w - 1] == Image(m, n / 256, w - 1);
    }
  }

  lemma {:induction false} NumBound(m: Machine, s: seq<Byte>)
    ensures Num(m, s) < Pow256(|s|)
  {
    if s == [] {
    } else {
      NumBound(m, if m.little then s[1..] else s[..|s| - 1]);
    }
  }

  lemma Pow4()
    ensures Pow256(4) == 0x1_0000_0000
  {
    assert Pow256(1) == 256 && Pow256(2) == 0x1_0000 && Pow256(3) == 0x100_0000;
  }

  /** Two's complement. */
  function Unsigned(x: Int): Word {
    if x < 0 then x + 0x1_0000_0000 else x
  }

  function Signed(n: Word): Int {
    if n >= 0x8000_0000 then n - 0x1_0000_0000 else n
  }

  function Word4(m: Machine, s: seq<Byte>): Word
    requires |s| == 4
  {
    NumBound(m, s);
    Pow4();
    Num(m, s)
  }

  function Words(m: Machine, ws: seq<Word>): (r: seq<Byte>)
    ensures |r| == 4 * |ws|
  {
    if ws == [] then [] else Image(m, ws[0], 4) + Words(m, ws[1..])
  }

  function ReadWords(m: Machine, s: seq<Byte>): seq<Word> {
    if |s| < 4 then [] else [Word4(m, s[..4])] + ReadWords(m, s[4..])
  }

  lemma {:induction false} ReadWordsWords(m: Machine, ws: seq<Word>)
    ensures ReadWords(m, Words(m, ws)) == ws
  {
    if ws == [] {
    } else {
      var r := Words(m, ws);
      assert r[..4] == Image(m, ws[0], 4) && r[4..] == Words(m, ws[1..]);
      Pow4();
      NumImage(m, ws[0], 4);
      ReadWordsWords(m, ws[1..]);
    }
  }

  function Unsigneds(xs: seq<Int>): seq<Word> {
    seq(|xs|, i requires 0 <= i < |xs| => Unsigned(xs[i]))
  }

  function Signeds(ws: seq<Word>): seq<Int> {
    seq(|ws|, i requires 0 <= i < |ws| => Signed(ws[i]))
  }

  // ---- Writing ----

  function PutInt(m: Machine, x: Int, rest: seq<Byte>): seq<Byte> {
    Image(m, Unsigned(x), 4) + rest
  }

  /** The size of a vector or a list: an int, as in the program. */
  function PutCount(m: Machine, n: nat, rest: seq<Byte>): seq<Byte> {
    Image(m, n, 4) + rest
  }

  /** DumpString. */
  function PutString(m: Machine, s: Option<Str>, rest: seq<Byte>): seq<Byte> {
    match s
    case None => Image(m, 0, m.sizet) + rest
    case Some(t) => Image(m, |t| + 1, m.sizet) + (t + [0] + rest)
  }

  function PutVector(m: Machine, ws: seq<Word>, rest: seq<Byte>): seq<Byte> {
    PutCount(m, |ws|, Words(m, ws) + rest)
  }

  function PutConstant(m: Machine, k: Constant, rest: seq<Byte>): seq<Byte> {
    match k
    case KNil => [0] + rest
    case KBool(b) => [1] + ([if b then 1 else 0] + rest)
    case KNumber(n) => [3] + (n + rest)
    case KString(s) => [4] + PutString(m, s, rest)
  }

  function PutConstants(m: Machine, ks: seq<Constant>, rest: seq<Byte>): seq<Byte> {
    if ks == [] then rest else PutConstant(m, ks[0], PutConstants(m, ks[1..], rest))
  }

  function PutLocVar(m: Machine, v: LocVar, rest: seq<Byte>): seq<Byte> {
    PutString(m, v.varname, PutInt(m, v.startpc, PutInt(m, v.endpc, rest)))
  }

  function PutLocVars(m: Machine, vs: seq<LocVar>, rest: seq<Byte>): seq<Byte> {
    if vs == [] then rest else PutLocVar(m, vs[0], PutLocVars(m, vs[1..], rest))
  }

  function PutNames(m: Machine, us: seq<Option<Str>>, rest: seq<Byte>): seq<Byte> {
    if us == [] then rest else PutString(m, us[0], PutNames(m, us[1..], rest))
  }

  /** A prototype without its debug information, if it is stripped. */
  function Kept(f: Proto, strip: bool): Proto {
    if strip then f.(lineinfo := [], locvars := [], upvalues := []) else f
  }

  /** DumpDebug. */
  function PutDebug(m: Machine, f: Proto, rest: seq<Byte>): seq<Byte> {
    PutVector(m, Unsigneds(f.lineinfo),
      PutCount(m, |f.locvars|, PutLocVars(m, f.locvars, PutCount(m, |f.upvalues|, PutNames(m, f.upvalues, rest)))))
  }

  /** The source is left out if it is that of the enclosing function. */
  function Source(f: Proto, p: Option<Str>, strip: bool): Option<Str> {
    if f.source == p || strip then None else f.source
  }

  /** DumpFunction, with the source of the enclosing function. */
  function PutFunction(m: Machine, strip: bool, f: Proto, p: Option<Str>, rest: seq<Byte>): seq<Byte>
    decreases f, 1
  {
    PutString(m, Source(f, p, strip), PutLines(m, strip, f, rest))
  }

  function PutLines(m: Machine, strip: bool, f: Proto, rest: seq<Byte>): seq<Byte>
    decreases f, 0, |f.p| + 2
  {
    PutInt(m, f.linedefined, PutInt(m, f.lastlinedefined,
      [f.nups, f.numparams, f.isvararg, f.maxstacksize] + PutVector(m, f.code, PutLists(m, strip, f, rest))))
  }

  /** DumpConstants and DumpDebug. */
  function PutLists(m: Machine, strip: bool, f: Proto, rest: seq<Byte>): seq<Byte>
    decreases f, 0, |f.p| + 1
  {
    PutCount(m, |f.k|, PutConstants(m, f.k,
      PutCount(m, |f.p|, PutFunctions(m, strip, f, 0, PutDebug(m, Kept(f, strip), rest)))))
  }

  function PutFunctions(m: Machine, strip: bool, f: Proto, i: nat, rest: seq<Byte>): seq<Byte>
    requires i <= |f.p|
    decreases f, 0, |f.p| - i
  {
    if i == |f.p| then rest else PutFunction(m, strip, f.p[i], f.source, PutFunctions(m, strip, f, i + 1, rest))
  }

  /** luaU_header. */
  function Header(m: Machine): (r: seq<Byte>)
    requires Sane(m)
    ensures |r| == 12
  {
    [27, 76, 117, 97, 0x51, 0, if m.little then 1 else 0, 4, m.sizet, 4, 8, 0]
  }

  /** luaU_dump. */
  function PutChunk(m: Machine, strip: bool, f: Proto, rest: seq<Byte>): seq<Byte>
    requires Sane(m)
  {
    Header(m) + PutFunction(m, strip, f, None, rest)
  }

  // ---- Reading ----

  datatype Problem = UnexpectedEnd | BadInteger | BadConstant | BadCode | BadHeader | TooDeep

  datatype Parsed<+T> = Ok(value: T, rest: seq<Byte>) | Err(error: Problem)
  {
    predicate IsFailure() {
      Err?
    }

    function PropagateFailure<U>(): Parsed<U>
      requires Err?
    {
      Err(error)
    }

    function Extract(): (T, seq<Byte>)
      requires Ok?
    {
      (value, rest)
    }
  }

  /** LoadBlock. */
  function Take(bs: seq<Byte>, n: nat): Parsed<seq<Byte>> {
    if n <= |bs| then Ok(bs[..n], bs[n..]) else Err(UnexpectedEnd)
  }

  function ParseByte(bs: seq<Byte>): Parsed<Byte> {
    var (b, r) :- Take(bs, 1);
    Ok(b[0], r)
  }

  function ParseInt(m: Machine, bs: seq<Byte>): Parsed<Int> {
    var (b, r) :- Take(bs, 4);
    var x := Signed(Word4(m, b));
    if x < 0 then Err(BadInteger) else Ok(x, r)
  }

  function ParseString(m: Machine, bs: seq<Byte>): Parsed<Option<Str>> {
    var (b, r) :- Take(bs, m.sizet);
    var size := Num(m, b);
    if size == 0 then Ok(None, r)
    else
      var (s, t) :- Take(r, size);
      Ok(Some(s[..size - 1]), t)
  }

  /** LoadCode, and the line numbers in LoadDebug. */
  function ParseVector(m: Machine, bs: seq<Byte>): Parsed<seq<Word>> {
    var (n, r) :- ParseInt(m, bs);
    if n < 0 then Err(BadInteger)
    else
      var (b, t) :- Take(r, n * 4);
      Ok(ReadWords(m, b), t)
  }

  function ParseConstant(m: Machine, bs: seq<Byte>): Parsed<Constant> {
    var (t, r) :- ParseByte(bs);
    if t == 0 then Ok(KNil, r)
    else if t == 1 then
      var (b, u) :- ParseByte(r);
      Ok(KBool(b != 0), u)
    else if t == 3 then
      var (n, u) :- Take(r, 8);
      Ok(KNumber(n), u)
    else if t == 4 then
      var (s, u) :- ParseString(m, r);
      Ok(KString(s), u)
    else Err(BadConstant)
  }

  function ParseConstants(m: Machine, bs: seq<Byte>, n: nat): Parsed<seq<Constant>>
    decreases n
  {
    if n == 0 then Ok([], bs)
    else
      var (k, r) :- ParseConstant(m, bs);
      var (ks, t) :- ParseConstants(m, r, n - 1);
      Ok([k] + ks, t)
  }

  /** The first loop of LoadConstants, with its count. */
  function CountedConstants(m: Machine, bs: seq<Byte>): Parsed<seq<Constant>> {
    var (n, r) :- ParseInt(m, bs);
    if n < 0 then Err(BadInteger) else ParseConstants(m, r, n)
  }

  function ParseLocVar(m: Machine, bs: seq<Byte>): Parsed<LocVar> {
    var (s, r) :- ParseString(m, bs);
    var (a, t) :- ParseInt(m, r);
    var (b, u) :- ParseInt(m, t);
    Ok(LocVar(s, a, b), u)
  }

  function ParseLocVars(m: Machine, bs: seq<Byte>, n: nat): Parsed<seq<LocVar>>
    decreases n
  {
    if n == 0 then Ok([], bs)
    else
      var (v, r) :- ParseLocVar(m, bs);
      var (vs, t) :- ParseLocVars(m, r, n - 1);
      Ok([v] + vs, t)
  }

  function ParseNames(m: Machine, bs: seq<Byte>, n: nat): Parsed<seq<Option<Str>>>
    decreases n
  {
    if n == 0 then Ok([], bs)
    else
      var (s, r) :- ParseString(m, bs);
      var (us, t) :- ParseNames(m, r, n - 1);
      Ok([s] + us, t)
  }

  datatype Debug = Debug(lineinfo: seq<Int>, locvars: seq<LocVar>, upvalues: seq<Option<Str>>)

  function ParseDebug(m: Machine, bs: seq<Byte>): Parsed<Debug> {
    var (ws, r0) :- ParseVector(m, bs);
    var (n, r1) :- ParseInt(m, r0);
    if n < 0 then Err(BadInteger)
    else
      var (vs, r2) :- ParseLocVars(m, r1, n);
      var (l, r3) :- ParseInt(m, r2);
      if l < 0 then Err(BadInteger)
      else
        var (us, r4) :- ParseNames(m, r3, l);
        Ok(Debug(Signeds(ws), vs, us), r4)
  }

  datatype Lines = Lines(linedefined: Int, lastlinedefined: Int, nups: Byte, numparams: Byte, isvararg: Byte,
                         maxstacksize: Byte)

  function ParseLines(m: Machine, bs: seq<Byte>): Parsed<Lines> {
    var (a, r0) :- ParseInt(m, bs);
    var (b, r1) :- ParseInt(m, r0);
    var (c, r2) :- ParseByte(r1);
    var (d, r3) :- ParseByte(r2);
    var (e, r4) :- ParseByte(r3);
    var (g, r5) :- ParseByte(r4);
    Ok(Lines(a, b, c, d, e, g), r5)
  }

  function Built(source: Option<Str>, l: Lines, code: seq<Word>, ks: seq<Constant>, fs: seq<Proto>, d: Debug): Proto {
    Proto(source, l.linedefined, l.lastlinedefined, l.nups, l.numparams, l.isvararg, l.maxstacksize,
          code, ks, fs, d.lineinfo, d.locvars, d.upvalues)
  }

  /** LoadFunction, inside a function of the source p, with room for so many nested calls. */
  ghost function ParseFunction(m: Machine, bs: seq<Byte>, p: Option<Str>, room: nat): Parsed<Proto>
    decreases room, 0, 0
  {
    if room == 0 then Err(TooDeep)
    else
      var (s, r0) :- ParseString(m, bs);
      var source := if s == None then p else s;
      var (l, r1) :- ParseLines(m, r0);
      var (code, r2) :- ParseVector(m, r1);
      var (ks, r3) :- CountedConstants(m, r2);
      var (n, r4) :- ParseInt(m, r3);
      if n < 0 then Err(BadInteger)
      else
        var (fs, r5) :- ParseFunctions(m, r4, n, source, room - 1);
        var (d, r6) :- ParseDebug(m, r5);
        var f := Built(source, l, code, ks, fs, d);
        if Checker.CodeOk(View(f)) then Ok(f, r6) else Err(BadCode)
  }

  ghost function ParseFunctions(m: Machine, bs: seq<Byte>, n: nat, p: Option<Str>, room: nat): Parsed<seq<Proto>>
    decreases room, 1, n
  {
    if n == 0 then Ok([], bs)
    else
      var (f, r) :- ParseFunction(m, bs, p, room);
      var (fs, t) :- ParseFunctions(m, r, n - 1, p, room);
      Ok([f] + fs, t)
  }

  /** The source of a chunk that names none: "=?". */
  const UNKNOWN: Option<Str> := Some([61, 63])

  /** luaU_undump. */
  ghost function ParseChunk(m: Machine, bs: seq<Byte>, room: nat): Parsed<Proto>
    requires Sane(m)
  {
    var (h, r) :- Take(bs, 12);
    if h != Header(m) then Err(BadHeader) else ParseFunction(m, r, UNKNOWN, room)
  }

  // ---- The round trip ----

  const MAX_INT := 0x7FFF_FFFF

  /** Sizes are ints, those of strings size_ts. */
  ghost predicate FitsString(m: Machine, s: Option<Str>) {
    s.Some? ==> |s.value| + 1 < Pow256(m.sizet)
  }

  ghost predicate FitsLists(m: Machine, f: Proto) {
    && |f.code| <= MAX_INT && |f.k| <= MAX_INT && |f.p| <= MAX_INT
    && |f.lineinfo| <= MAX_INT && |f.locvars| <= MAX_INT && |f.upvalues| <= MAX_INT
    && FitsString(m, f.source)
    && (forall i | 0 <= i < |f.k| :: f.k[i].KString? ==> FitsString(m, f.k[i].s))
    && (forall i | 0 <= i < |f.locvars| :: FitsString(m, f.locvars[i].varname))
    && forall i | 0 <= i < |f.upvalues| :: FitsString(m, f.upvalues[i])
  }

  ghost predicate Fits(m: Machine, f: Proto) {
    FitsLists(m, f) && forall i | 0 <= i < |f.p| :: Fits(m, f.p[i])
  }

  ghost predicate VarOk(v: LocVar) {
    v.startpc >= 0 && v.endpc >= 0
  }

  ghost predicate VarsOk(f: Proto) {
    forall i | 0 <= i < |f.locvars| :: VarOk(f.locvars[i])
  }

  /** What the reader accepts: lines and positions that are not negative, code in order, not too deep. */
  ghost predicate Loadable(f: Proto, strip: bool, room: nat) {
    && room > 0 && f.linedefined >= 0 && f.lastlinedefined >= 0
    && (forall i | 0 <= i < |f.p| :: Loadable(f.p[i], strip, room - 1))
    && VarsOk(Kept(f, strip))
    && Checker.CodeOk(View(Kept(f, strip)))
  }

  /** The tree that comes back: functions without a source get that of the function around them. */
  function Reloaded(f: Proto, strip: bool, q: Option<Str>): Proto {
    var source := if strip || f.source == None then q else f.source;
    Kept(f, strip).(source := source, p := seq(|f.p|, i requires 0 <= i < |f.p| => Reloaded(f.p[i], strip, source)))
  }

  function ReloadedFrom(f: Proto, strip: bool, q: Option<Str>, i: nat): seq<Proto>
    requires i <= |f.p|
  {
    seq(|f.p| - i, j requires 0 <= j < |f.p| - i => Reloaded(f.p[i + j], strip, q))
  }

  lemma RoundInt(m: Machine, x: Int, rest: seq<Byte>)
    ensures ParseInt(m, PutInt(m, x, rest)) == if x < 0 then Err(BadInteger) else Ok(x, rest)
  {
    var b := Image(m, Unsigned(x), 4);
    assert (b + rest)[..4] == b && (b + rest)[4..] == rest;
    Pow4();
    NumImage(m, Unsigned(x), 4);
  }

  lemma RoundCount(m: Machine, n: nat, rest: seq<Byte>)
    requires n <= MAX_INT
    ensures ParseInt(m, PutCount(m, n, rest)) == Ok(n, rest)
  {
    RoundInt(m, n, rest);
  }

  lemma RoundString(m: Machine, s: Option<Str>, rest: seq<Byte>)
    requires Sane(m) && FitsString(m, s)
    ensures ParseString(m, PutString(m, s, rest)) == Ok(s, rest)
  {
    var size := if s.Some? then |s.value| + 1 else 0;
    var b, bs := Image(m, size, m.sizet), PutString(m, s, rest);
    assert bs[..m.sizet] == b;
    NumImage(m, size, m.sizet);
    if s.Some? {
      var r := bs[m.sizet..];
      assert r == s.value + [0] + rest;
      assert r[..size][..size - 1] == s.value && r[size..] == rest;
    } else {
      assert bs[m.sizet..] == rest;
    }
  }

  lemma RoundVector(m: Machine, ws: seq<Word>, rest: seq<Byte>)
    requires |ws| <= MAX_INT
    ensures ParseVector(m, PutVector(m, ws, rest)) == Ok(ws, rest)
  {
    var r := Words(m, ws) + rest;
    RoundCount(m, |ws|, r);
    assert r[..4 * |ws|] == Words(m, ws) && r[4 * |ws|..] == rest;
    ReadWordsWords(m, ws);
  }

  lemma RoundByte(b: Byte, rest: seq<Byte>)
    ensures ParseByte([b] + rest) == Ok(b, rest)
  {
    assert ([b] + rest)[1..] == rest;
  }

  lemma RoundConstant(m: Machine, k: Constant, rest: seq<Byte>)
    requires Sane(m) && (k.KString? ==> FitsString(m, k.s))
    ensures ParseConstant(m, PutConstant(m, k, rest)) == Ok(k, rest)
  {
    match k
    case KNil => RoundByte(0, rest);
    case KBool(b) =>
      var v: Byte := if b then 1 else 0;
      RoundByte(1, [v] + rest);
      RoundByte(v, rest);
    case KNumber(n) =>
      RoundByte(3, n + rest);
      assert (n + rest)[..8] == n && (n + rest)[8..] == rest;
    case KString(s) =>
      RoundByte(4, PutString(m, s, rest));
      RoundString(m, s, rest);
  }

  lemma {:induction false} RoundConstants(m: Machine, ks: seq<Constant>, rest: seq<Byte>)
    requires Sane(m) && forall i | 0 <= i < |ks| :: ks[i].KString? ==> FitsString(m, ks[i].s)
    ensures ParseConstants(m, PutConstants(m, ks, rest), |ks|) == Ok(ks, rest)
  {
    if ks == [] {
    } else {
      RoundConstant(m, ks[0], PutConstants(m, ks[1..], rest));
      RoundConstants(m, ks[1..], rest);
      assert [ks[0]] + ks[1..] == ks;
    }
  }

  lemma RoundLocVar(m: Machine, v: LocVar, rest: seq<Byte>)
    requires Sane(m) && FitsString(m, v.varname)
    ensures if VarOk(v) then ParseLocVar(m, PutLocVar(m, v, rest)) == Ok(v, rest)
            else ParseLocVar(m, PutLocVar(m, v, rest)).Err?
  {
    RoundString(m, v.varname, PutInt(m, v.startpc, PutInt(m, v.endpc, rest)));
    RoundInt(m, v.startpc, PutInt(m, v.endpc, rest));
    RoundInt(m, v.endpc, rest);
  }

  lemma {:induction false} RoundLocVars(m: Machine, vs: seq<LocVar>, rest: seq<Byte>)
    requires Sane(m) && forall i | 0 <= i < |vs| :: FitsString(m, vs[i].varname)
    ensures (forall i | 0 <= i < |vs| :: VarOk(vs[i])) ==>
              ParseLocVars(m, PutLocVars(m, vs, rest), |vs|) == Ok(vs, rest)
    ensures (exists i | 0 <= i < |vs| :: !VarOk(vs[i])) ==> ParseLocVars(m, PutLocVars(m, vs, rest), |vs|).Err?
  {
    hide ParseLocVar, PutLocVar, VarOk, FitsString;
    if vs == [] {
    } else {
      RoundLocVar(m, vs[0], PutLocVars(m, vs[1..], rest));
      RoundLocVars(m, vs[1..], rest);
      assert [vs[0]] + vs[1..] == vs;
      assert forall i | 0 < i < |vs| :: vs[i] == vs[1..][i - 1];
    }
  }

  lemma {:induction false} RoundNames(m: Machine, us: seq<Option<Str>>, rest: seq<Byte>)
    requires Sane(m) && forall i | 0 <= i < |us| :: FitsString(m, us[i])
    ensures ParseNames(m, PutNames(m, us, rest), |us|) == Ok(us, rest)
  {
    if us == [] {
    } else {
      RoundString(m, us[0], PutNames(m, us[1..], rest));
      RoundNames(m, us[1..], rest);
      assert [us[0]] + us[1..] == us;
    }
  }

  lemma RoundDebug(m: Machine, f: Proto, rest: seq<Byte>)
    requires Sane(m) && FitsLists(m, f)
    ensures VarsOk(f) ==> ParseDebug(m, PutDebug(m, f, rest)) == Ok(Debug(f.lineinfo, f.locvars, f.upvalues), rest)
    ensures !VarsOk(f) ==> ParseDebug(m, PutDebug(m, f, rest)).Err?
  {
    hide PutVector, PutCount, PutLocVars, PutNames, ParseVector, ParseInt, ParseLocVars, ParseNames;
    var names := PutCount(m, |f.upvalues|, PutNames(m, f.upvalues, rest));
    var vars := PutLocVars(m, f.locvars, names);
    RoundVector(m, Unsigneds(f.lineinfo), PutCount(m, |f.locvars|, vars));
    RoundCount(m, |f.locvars|, vars);
    RoundLocVars(m, f.locvars, names);
    RoundCount(m, |f.upvalues|, PutNames(m, f.upvalues, rest));
    RoundNames(m, f.upvalues, rest);
    assert Signeds(Unsigneds(f.lineinfo)) == f.lineinfo;
  }

  lemma RoundLines(m: Machine, f: Proto, rest: seq<Byte>)
    ensures
      var bs := PutInt(m, f.linedefined, PutInt(m, f.lastlinedefined,
        [f.nups, f.numparams, f.isvararg, f.maxstacksize] + rest));
      if f.linedefined >= 0 && f.lastlinedefined >= 0 then
        ParseLines(m, bs) == Ok(Lines(f.linedefined, f.lastlinedefined, f.nups, f.numparams, f.isvararg,
                                      f.maxstacksize), rest)
      else ParseLines(m, bs).Err?
  {
    var four := [f.nups, f.numparams, f.isvararg, f.maxstacksize] + rest;
    RoundInt(m, f.linedefined, PutInt(m, f.lastlinedefined, four));
    RoundInt(m, f.lastlinedefined, four);
    var three := [f.numparams, f.isvararg, f.maxstacksize] + rest;
    var two := [f.isvararg, f.maxstacksize] + rest;
    var one := [f.maxstacksize] + rest;
    assert four == [f.nups] + three && three == [f.numparams] + two && two == [f.isvararg] + one;
    RoundByte(f.nups, three);
    RoundByte(f.numparams, two);
    RoundByte(f.isvararg, one);
    RoundByte(f.maxstacksize, rest);
  }

  lemma RebuiltView(f: Proto, strip: bool, q: Option<Str>)
    ensures View(Reloaded(f, strip, q)) == View(Kept(f, strip))
  {
    assert View(Reloaded(f, strip, q)).p == View(Kept(f, strip)).p;
  }

  /** Reading what was written gives the tree back exactly if the tree is loadable. */
  lemma {:induction false} RoundFunction(m: Machine, strip: bool, f: Proto, p: Option<Str>, q: Option<Str>, room: nat,
                                         rest: seq<Byte>)
    requires Sane(m) && Fits(m, f) && (!strip && p.Some? ==> q == p)
    ensures Loadable(f, strip, room) ==>
              ParseFunction(m, PutFunction(m, strip, f, p, rest), q, room) == Ok(Reloaded(f, strip, q), rest)
    ensures !Loadable(f, strip, room) ==> ParseFunction(m, PutFunction(m, strip, f, p, rest), q, room).Err?
    decreases f, 1
  {
    hide PutString, PutVector, PutInt, PutCount, PutConstants, PutFunctions, PutDebug;
    hide ParseString, ParseLines, ParseVector, ParseInt, ParseConstants, ParseFunctions, ParseDebug;
    hide Checker.CodeOk, View;
    if room > 0 {
      var k := Kept(f, strip);
      var debug := PutDebug(m, k, rest);
      var subs := PutFunctions(m, strip, f, 0, debug);
      var consts := PutConstants(m, f.k, PutCount(m, |f.p|, subs));
      var lists := PutLists(m, strip, f, rest);
      RoundString(m, Source(f, p, strip), PutLines(m, strip, f, rest));
      RoundLines(m, f, PutVector(m, f.code, lists));
      RoundVector(m, f.code, lists);
      RoundCount(m, |f.k|, consts);
      RoundConstants(m, f.k, PutCount(m, |f.p|, subs));
      RoundCount(m, |f.p|, subs);
      var source := if strip || f.source == None then q else f.source;
      RoundFunctions(m, strip, f, 0, source, room - 1, debug);
      RoundDebug(m, k, rest);
      RebuiltView(f, strip, q);
      assert ReloadedFrom(f, strip, source, 0) == Reloaded(f, strip, q).p;
      var l := Lines(f.linedefined, f.lastlinedefined, f.nups, f.numparams, f.isvararg, f.maxstacksize);
      assert Reloaded(f, strip, q) == Built(source, l, f.code, f.k, Reloaded(f, strip, q).p,
                                            Debug(k.lineinfo, k.locvars, k.upvalues));
    }
  }

  lemma {:induction false} RoundFunctions(m: Machine, strip: bool, f: Proto, i: nat, q: Option<Str>, room: nat,
                                          rest: seq<Byte>)
    requires Sane(m) && Fits(m, f) && i <= |f.p| && (!strip && f.source.Some? ==> q == f.source)
    ensures (forall j | i <= j < |f.p| :: Loadable(f.p[j], strip, room)) ==>
      ParseFunctions(m, PutFunctions(m, strip, f, i, rest), |f.p| - i, q, room) == Ok(ReloadedFrom(f, strip, q, i),
                                                                                      rest)
    ensures (exists j | i <= j < |f.p| :: !Loadable(f.p[j], strip, room)) ==>
      ParseFunctions(m, PutFunctions(m, strip, f, i, rest), |f.p| - i, q, room).Err?
    decreases f, 0, |f.p| - i
  {
    hide PutFunction, ParseFunction, Loadable, Reloaded;
    if i < |f.p| {
      RoundFunction(m, strip, f.p[i], f.source, q, room, PutFunctions(m, strip, f, i + 1, rest));
      RoundFunctions(m, strip, f, i + 1, q, room, rest);
      assert ReloadedFrom(f, strip, q, i) == [Reloaded(f.p[i], strip, q)] + ReloadedFrom(f, strip, q, i + 1);
    } else {
      assert ReloadedFrom(f, strip, q, i) == [];
    }
  }

  // ---- What comes back ----

  function Larger(a: nat, b: nat): nat {
    if a > b then a else b
  }

  function Depth(f: Proto): nat
    decreases f, 1
  {
    1 + Deepest(f, |f.p|)
  }

  /** The depth of the first n nested functions. */
  function Deepest(f: Proto, n: nat): nat
    requires n <= |f.p|
    decreases f, 0, n
  {
    if n == 0 then 0 else Larger(Deepest(f, n - 1), Depth(f.p[n - 1]))
  }

  lemma {:induction false} DeepestWithin(f: Proto, n: nat, d: nat)
    requires n <= |f.p|
    ensures Deepest(f, n) <= d <==> forall i | 0 <= i < n :: Depth(f.p[i]) <= d
  {
    if n == 0 {
    } else {
      DeepestWithin(f, n - 1, d);
    }
  }

  /** A tree whose lines and positions are not negative and whose code passes the checker. */
  ghost predicate InOrder(f: Proto) {
    && f.linedefined >= 0 && f.lastlinedefined >= 0 && VarsOk(f) && Checker.CodeOk(View(f))
    && forall i | 0 <= i < |f.p| :: InOrder(f.p[i])
  }

  ghost predicate Sourced(f: Proto) {
    f.source.Some? && forall i | 0 <= i < |f.p| :: Sourced(f.p[i])
  }

  /** Without its debug information code passes the checker as well. */
  lemma KeptChecks(f: Proto, strip: bool)
    requires Checker.CodeOk(View(f))
    ensures Checker.CodeOk(View(Kept(f, strip)))
  {
    var a, b := View(f), View(Kept(f, strip));
    assert b.code == a.code && b.k == a.k && b.p == a.p;
    forall pc | 0 <= pc < |b.code| && Checker.IsStart(b.code, pc)
      ensures Checker.InstrOk(b, pc)
    {
      assert Checker.InstrOk(a, pc);
    }
  }

  /** What is in order can be loaded exactly if it is not too deep. */
  lemma {:induction false} LoadableDepth(f: Proto, strip: bool, room: nat)
    requires InOrder(f)
    ensures Loadable(f, strip, room) <==> Depth(f) <= room
    decreases f
  {
    hide Checker.CodeOk, View;
    KeptChecks(f, strip);
    if room == 0 {
    } else {
      DeepestWithin(f, |f.p|, room - 1);
      forall i | 0 <= i < |f.p|
        ensures Loadable(f.p[i], strip, room - 1) <==> Depth(f.p[i]) <= room - 1
      {
        LoadableDepth(f.p[i], strip, room - 1);
      }
    }
  }

  /** Nothing but left out sources is changed by a round trip. */
  lemma {:induction false} ReloadedExact(f: Proto, q: Option<Str>)
    requires q.Some?
    ensures Reloaded(f, false, q) == f <==> Sourced(f)
    decreases f
  {
    var source := if f.source == None then q else f.source;
    forall i | 0 <= i < |f.p|
      ensures Reloaded(f.p[i], false, source) == f.p[i] <==> Sourced(f.p[i])
    {
      ReloadedExact(f.p[i], source);
    }
    var r := Reloaded(f, false, q);
    assert forall i | 0 <= i < |f.p| :: r.p[i] == Reloaded(f.p[i], false, source);
    if !Sourced(f) {
    } else {
      assert r.p == f.p;
    }
  }

  /** A second round trip changes nothing more. */
  lemma {:induction false} ReloadedTwice(f: Proto, strip: bool, q: Option<Str>)
    requires q.Some?
    ensures Reloaded(Reloaded(f, strip, q), strip, q) == Reloaded(f, strip, q)
    decreases f
  {
    var r := Reloaded(f, strip, q);
    forall i | 0 <= i < |f.p|
      ensures Reloaded(r.p[i], strip, r.source) == r.p[i]
    {
      ReloadedTwice(f.p[i], strip, r.source);
    }
    assert Reloaded(r, strip, q).p == r.p;
  }

  /** luaU_undump reads back exactly what luaU_dump wrote. */
  lemma RoundTrip(m: Machine, strip: bool, f: Proto, room: nat, rest: seq<Byte>)
    requires Sane(m) && Fits(m, f)
    ensures Loadable(f, strip, room) ==>
              ParseChunk(m, PutChunk(m, strip, f, rest), room) == Ok(Reloaded(f, strip, UNKNOWN), rest)
    ensures !Loadable(f, strip, room) ==> ParseChunk(m, PutChunk(m, strip, f, rest), room).Err?
  {
    hide PutFunction, ParseFunction, Loadable, Reloaded;
    var bs := PutChunk(m, strip, f, rest);
    assert bs[..12] == Header(m) && bs[12..] == PutFunction(m, strip, f, None, rest);
    RoundFunction(m, strip, f, None, UNKNOWN, room, rest);
  }

  /** A tree in order, with its sources, survives a round trip exactly if it is not too deep. */
  lemma RoundTripExact(m: Machine, f: Proto, room: nat)
    requires Sane(m) && Fits(m, f) && InOrder(f)
    ensures ParseChunk(m, PutChunk(m, false, f, []), room) == Ok(f, []) <==> Sourced(f) && Depth(f) <= room
  {
    RoundTrip(m, false, f, room, []);
    LoadableDepth(f, false, room);
    ReloadedExact(f, UNKNOWN);
  }

  /** A chunk of another machine is refused. */
  lemma OtherMachine(m: Machine, other: Machine, strip: bool, f: Proto, room: nat)
    requires Sane(m) && Sane(other) && m != other
    ensures ParseChunk(other, PutChunk(m, strip, f, []), room) == Err(BadHeader)
  {
    var bs := PutChunk(m, strip, f, []);
    assert bs[..12] == Header(m);
    assert Header(m)[6] != Header(other)[6] || Header(m)[8] != Header(other)[8];
  }

  // ---- More input ----

  /** More input after what was read changes nothing. */
  ghost predicate Extends<T>(a: Parsed<T>, b: Parsed<T>, t: seq<Byte>) {
    a.Ok? ==> b == Ok(a.value, a.rest + t)
  }

  lemma MoreTake(bs: seq<Byte>, t: seq<Byte>, n: nat)
    ensures Extends(Take(bs, n), Take(bs + t, n), t)
  {
    if n <= |bs| {
      assert (bs + t)[..n] == bs[..n] && (bs + t)[n..] == bs[n..] + t;
    }
  }

  lemma MoreInt(m: Machine, bs: seq<Byte>, t: seq<Byte>)
    ensures Extends(ParseInt(m, bs), ParseInt(m, bs + t), t)
  {
    MoreTake(bs, t, 4);
  }

  lemma MoreByte(bs: seq<Byte>, t: seq<Byte>)
    ensures Extends(ParseByte(bs), ParseByte(bs + t), t)
  {
    MoreTake(bs, t, 1);
  }

  lemma MoreString(m: Machine, bs: seq<Byte>, t: seq<Byte>)
    ensures Extends(ParseString(m, bs), ParseString(m, bs + t), t)
  {
    MoreTake(bs, t, m.sizet);
    if m.sizet <= |bs| {
      MoreTake(bs[m.sizet..], t, Num(m, bs[..m.sizet]));
    }
  }

  lemma MoreVector(m: Machine, bs: seq<Byte>, t: seq<Byte>)
    ensures Extends(ParseVector(m, bs), ParseVector(m, bs + t), t)
  {
    MoreInt(m, bs, t);
    var n := ParseInt(m, bs);
    if n.Ok? && n.value >= 0 {
      var size: int := n.value;
      MoreTake(n.rest, t, size * 4);
    }
  }

  lemma MoreConstant(m: Machine, bs: seq<Byte>, t: seq<Byte>)
    ensures Extends(ParseConstant(m, bs), ParseConstant(m, bs + t), t)
  {
    MoreByte(bs, t);
    var k := ParseByte(bs);
    if k.Ok? {
      MoreByte(k.rest, t);
      MoreTake(k.rest, t, 8);
      MoreString(m, k.rest, t);
    }
  }

  lemma {:induction false} MoreConstants(m: Machine, bs: seq<Byte>, n: nat, t: seq<Byte>)
    ensures Extends(ParseConstants(m, bs, n), ParseConstants(m, bs + t, n), t)
    decreases n
  {
    hide ParseConstant;
    if n == 0 {
    } else {
      MoreConstant(m, bs, t);
      var k := ParseConstant(m, bs);
      if k.Ok? {
        MoreConstants(m, k.rest, n - 1, t);
      }
    }
  }

  lemma MoreCounted(m: Machine, bs: seq<Byte>, t: seq<Byte>)
    ensures Extends(CountedConstants(m, bs), CountedConstants(m, bs + t), t)
  {
    MoreInt(m, bs, t);
    var n := ParseInt(m, bs);
    if n.Ok? && n.value >= 0 {
      MoreConstants(m, n.rest, n.value, t);
    }
  }

  lemma MoreLocVar(m: Machine, bs: seq<Byte>, t: seq<Byte>)
    ensures Extends(ParseLocVar(m, bs), ParseLocVar(m, bs + t), t)
  {
    hide ParseString, ParseInt;
    MoreString(m, bs, t);
    var s := ParseString(m, bs);
    if s.Ok? {
      MoreInt(m, s.rest, t);
      var a := ParseInt(m, s.rest);
      if a.Ok? {
        MoreInt(m, a.rest, t);
      }
    }
  }

  lemma {:induction false} MoreLocVars(m: Machine, bs: seq<Byte>, n: nat, t: seq<Byte>)
    ensures Extends(ParseLocVars(m, bs, n), ParseLocVars(m, bs + t, n), t)
    decreases n
  {
    hide ParseLocVar;
    if n == 0 {
    } else {
      MoreLocVar(m, bs, t);
      var v := ParseLocVar(m, bs);
      if v.Ok? {
        MoreLocVars(m, v.rest, n - 1, t);
      }
    }
  }

  lemma {:induction false} MoreNames(m: Machine, bs: seq<Byte>, n: nat, t: seq<Byte>)
    ensures Extends(ParseNames(m, bs, n), ParseNames(m, bs + t, n), t)
    decreases n
  {
    hide ParseString;
    if n == 0 {
    } else {
      MoreString(m, bs, t);
      var s := ParseString(m, bs);
      if s.Ok? {
        MoreNames(m, s.rest, n - 1, t);
      }
    }
  }

  lemma MoreDebug(m: Machine, bs: seq<Byte>, t: seq<Byte>)
    ensures Extends(ParseDebug(m, bs), ParseDebug(m, bs + t), t)
  {
    hide ParseVector, ParseInt, ParseLocVars, ParseNames;
    MoreVector(m, bs, t);
    var ws := ParseVector(m, bs);
    if ws.Ok? {
      MoreInt(m, ws.rest, t);
      var n := ParseInt(m, ws.rest);
      if n.Ok? && n.value >= 0 {
        MoreLocVars(m, n.rest, n.value, t);
        var vs := ParseLocVars(m, n.rest, n.value);
        if vs.Ok? {
          MoreInt(m, vs.rest, t);
          var l := ParseInt(m, vs.rest);
          if l.Ok? && l.value >= 0 {
            MoreNames(m, l.rest, l.value, t);
          }
        }
      }
    }
  }

  lemma MoreLines(m: Machine, bs: seq<Byte>, t: seq<Byte>)
    ensures Extends(ParseLines(m, bs), ParseLines(m, bs + t), t)
  {
    hide ParseInt;
    MoreInt(m, bs, t);
    var a := ParseInt(m, bs);
    if a.Ok? {
      MoreInt(m, a.rest, t);
      var b := ParseInt(m, a.rest);
      if b.Ok? {
        var r := b.rest;
        MoreByte(r, t);
        if |r| >= 1 {
          MoreByte(r[1..], t);
        }
        if |r| >= 2 {
          MoreByte(r[1..][1..], t);
        }
        if |r| >= 3 {
          MoreByte(r[1..][1..][1..], t);
        }
      }
    }
  }

  lemma {:induction false} MoreFunction(m: Machine, bs: seq<Byte>, p: Option<Str>, room: nat, t: seq<Byte>)
    ensures Extends(ParseFunction(m, bs, p, room), ParseFunction(m, bs + t, p, room), t)
    decreases room, 0, 0
  {
    hide ParseString, ParseLines, ParseVector, ParseInt, CountedConstants, ParseFunctions, ParseDebug, Checker.CodeOk,
         View;
    if ParseFunction(m, bs, p, room).Ok? {
      MoreString(m, bs, t);
      var s := ParseString(m, bs);
      MoreLines(m, s.rest, t);
      var l := ParseLines(m, s.rest);
      MoreVector(m, l.rest, t);
      var code := ParseVector(m, l.rest);
      MoreCounted(m, code.rest, t);
      var ks := CountedConstants(m, code.rest);
      MoreInt(m, ks.rest, t);
      var c := ParseInt(m, ks.rest);
      var source := if s.value == None then p else s.value;
      MoreFunctions(m, c.rest, c.value, source, room - 1, t);
      MoreDebug(m, ParseFunctions(m, c.rest, c.value, source, room - 1).rest, t);
    }
  }

  lemma {:induction false} MoreFunctions(m: Machine, bs: seq<Byte>, n: nat, p: Option<Str>, room: nat, t: seq<Byte>)
    ensures Extends(ParseFunctions(m, bs, n, p, room), ParseFunctions(m, bs + t, n, p, room), t)
    decreases room, 1, n
  {
    hide ParseFunction;
    if n == 0 {
    } else {
      MoreFunction(m, bs, p, room, t);
      var f := ParseFunction(m, bs, p, room);
      if f.Ok? {
        MoreFunctions(m, f.rest, n - 1, p, room, t);
      }
    }
  }

  lemma MoreChunk(m: Machine, bs: seq<Byte>, room: nat, t: seq<Byte>)
    requires Sane(m)
    ensures Extends(ParseChunk(m, bs, room), ParseChunk(m, bs + t, room), t)
  {
    hide ParseFunction;
    MoreTake(bs, t, 12);
    if |bs| >= 12 {
      MoreFunction(m, bs[12..], UNKNOWN, room, t);
    }
  }

  /** No chunk that lost its end is accepted. */
  lemma Truncated(m: Machine, strip: bool, f: Proto, room: nat, n: nat)
    requires Sane(m) && Fits(m, f) && n < |PutChunk(m, strip, f, [])|
    ensures ParseChunk(m, PutChunk(m, strip, f, [])[..n], room).Err?
  {
    hide ParseChunk, PutFunction, Loadable, Reloaded;
    var bs := PutChunk(m, strip, f, []);
    RoundTrip(m, strip, f, room, []);
    MoreChunk(m, bs[..n], room, bs[n..]);
    assert bs[..n] + bs[n..] == bs;
  }
}
