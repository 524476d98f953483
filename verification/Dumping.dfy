/** luaU_dump (ldump.c), luaU_undump (lundump.c) and the input stream it reads (lzio.c), on the format
    of Chunks. */
module Dumping {
  import Checker
  import opened Chunks

  // ---- The writer ----

  class DumpState {
    const m: Machine
    const strip: bool
    /** What the writer answers to each of its calls. */
    const writer: nat -> int

    var calls: nat
    /** What the writer was given. */
    var out: seq<Byte>

    var status: int

    constructor (m: Machine, strip: bool, writer: nat -> int)
      ensures this.m == m && this.strip == strip && this.writer == writer
      ensures calls == 0 && out == [] && status == 0
    {
      this.m, this.strip, this.writer := m, strip, writer;
      calls, out, status := 0, [], 0;
    }

    /** All of it but the rest is written, or a part of it if the writer failed. */
    ghost predicate Ahead(all: seq<Byte>, rest: seq<Byte>)
      reads this`out, this`status
    {
      if status == 0 then out + rest == all else out <= all
    }

    /** No call is made after one that failed. */
    method DumpBlock(b: seq<Byte>, ghost all: seq<Byte>, ghost rest: seq<Byte>)
      requires Ahead(all, b + rest)
      modifies this
      ensures Ahead(all, rest)
      ensures old(status) != 0 ==> status == old(status) && out == old(out) && calls == old(calls)
      ensures old(status) == 0 ==> out == old(out) + b && calls == old(calls) + 1 && status == writer(old(calls))
    {
      if status == 0 {
        assert out + (b + rest) == (out + b) + rest;
        out := out + b;
        status := writer(calls);
        calls := calls + 1;
      }
    }

    method DumpChar(y: Byte, ghost all: seq<Byte>, ghost rest: seq<Byte>)
      requires Ahead(all, [y] + rest)
      modifies this
      ensures Ahead(all, rest)
    {
      DumpBlock([y], all, rest);
    }

    method DumpInt(x: Int, ghost all: seq<Byte>, ghost rest: seq<Byte>)
      requires Ahead(all, PutInt(m, x, rest))
      modifies this
      ensures Ahead(all, rest)
    {
      DumpBlock(Image(m, Unsigned(x), 4), all, rest);
    }

    method DumpCount(n: nat, ghost all: seq<Byte>, ghost rest: seq<Byte>)
      requires Ahead(all, PutCount(m, n, rest))
      modifies this
      ensures Ahead(all, rest)
    {
      DumpBlock(Image(m, n, 4), all, rest);
    }

    method DumpVector(ws: seq<Word>, ghost all: seq<Byte>, ghost rest: seq<Byte>)
      requires Ahead(all, PutVector(m, ws, rest))
      modifies this
      ensures Ahead(all, rest)
    {
      DumpCount(|ws|, all, Words(m, ws) + rest);
      DumpBlock(Words(m, ws), all, rest);
    }

    method DumpString(s: Option<Str>, ghost all: seq<Byte>, ghost rest: seq<Byte>)
      requires Ahead(all, PutString(m, s, rest))
      modifies this
      ensures Ahead(all, rest)
    {
      if s == None {
        DumpBlock(Image(m, 0, m.sizet), all, rest);
      } else {
        var size := |s.value| + 1;
        DumpBlock(Image(m, size, m.sizet), all, s.value + [0] + rest);
        DumpBlock(s.value + [0], all, rest);
      }
    }

    method DumpConstant(o: Constant, ghost all: seq<Byte>, ghost rest: seq<Byte>)
      requires Ahead(all, PutConstant(m, o, rest))
      modifies this
      ensures Ahead(all, rest)
    {
      match o {
        case KNil =>
          DumpChar(0, all, rest);
        case KBool(b) =>
          DumpChar(1, all, [if b then 1 else 0] + rest);
          DumpChar(if b then 1 else 0, all, rest);
        case KNumber(n) =>
          DumpChar(3, all, n + rest);
          DumpBlock(n, all, rest);
        case KString(s) =>
          DumpChar(4, all, PutString(m, s, rest));
          DumpString(s, all, rest);
      }
    }

    method DumpLocVars(f: Proto, n: nat, ghost all: seq<Byte>, ghost rest: seq<Byte>)
      requires n <= |f.locvars| && Ahead(all, PutLocVars(m, f.locvars[..n], rest))
      modifies this
      ensures Ahead(all, rest)
    {
      hide PutString, PutInt;
      ghost var vs := f.locvars[..n];
      var i := 0;
      while i < n
        invariant i <= n && Ahead(all, PutLocVars(m, vs[i..], rest))
      {
        var v := f.locvars[i];
        assert vs[i..][0] == v && vs[i..][1..] == vs[i + 1..];
        ghost var more := PutLocVars(m, vs[i + 1..], rest);
        DumpString(v.varname, all, PutInt(m, v.startpc, PutInt(m, v.endpc, more)));
        DumpInt(v.startpc, all, PutInt(m, v.endpc, more));
        DumpInt(v.endpc, all, more);
        i := i + 1;
      }
    }

    method DumpNames(f: Proto, n: nat, ghost all: seq<Byte>, ghost rest: seq<Byte>)
      requires n <= |f.upvalues| && Ahead(all, PutNames(m, f.upvalues[..n], rest))
      modifies this
      ensures Ahead(all, rest)
    {
      hide PutString;
      ghost var us := f.upvalues[..n];
      var i := 0;
      while i < n
        invariant i <= n && Ahead(all, PutNames(m, us[i..], rest))
      {
        assert us[i..][0] == f.upvalues[i] && us[i..][1..] == us[i + 1..];
        DumpString(f.upvalues[i], all, PutNames(m, us[i + 1..], rest));
        i := i + 1;
      }
    }

    method DumpDebug(f: Proto, ghost all: seq<Byte>, ghost rest: seq<Byte>)
      requires Ahead(all, PutDebug(m, Kept(f, strip), rest))
      modifies this
      ensures Ahead(all, rest)
    {
      hide PutCount, PutVector, PutString, PutInt;
      ghost var kept := Kept(f, strip);
      ghost var names := PutCount(m, |kept.upvalues|, PutNames(m, kept.upvalues, rest));
      assert Unsigneds(kept.lineinfo) == if strip then [] else Unsigneds(f.lineinfo);
      DumpVector(if strip then [] else Unsigneds(f.lineinfo), all,
                 PutCount(m, |kept.locvars|, PutLocVars(m, kept.locvars, names)));
      var n := if strip then 0 else |f.locvars|;
      DumpCount(n, all, PutLocVars(m, kept.locvars, names));
      assert f.locvars[..n] == kept.locvars;
      DumpLocVars(f, n, all, names);
      n := if strip then 0 else |f.upvalues|;
      DumpCount(n, all, PutNames(m, kept.upvalues, rest));
      assert f.upvalues[..n] == kept.upvalues;
      DumpNames(f, n, all, rest);
    }

    /** The constants, and then the functions, of a function. */
    method DumpConstants(f: Proto, ghost all: seq<Byte>, ghost rest: seq<Byte>)
      requires Ahead(all, PutCount(m, |f.k|,
                                   PutConstants(m, f.k, PutCount(m, |f.p|, PutFunctions(m, strip, f, 0, rest)))))
      modifies this
      ensures Ahead(all, rest)
      decreases f, 0
    {
      hide PutCount, PutConstant, PutFunction;
      ghost var subs := PutCount(m, |f.p|, PutFunctions(m, strip, f, 0, rest));
      DumpCount(|f.k|, all, PutConstants(m, f.k, subs));
      var i := 0;
      while i < |f.k|
        invariant i <= |f.k| && Ahead(all, PutConstants(m, f.k[i..], subs))
      {
        assert f.k[i..][0] == f.k[i] && f.k[i..][1..] == f.k[i + 1..];
        DumpConstant(f.k[i], all, PutConstants(m, f.k[i + 1..], subs));
        i := i + 1;
      }
      DumpCount(|f.p|, all, PutFunctions(m, strip, f, 0, rest));
      i := 0;
      while i < |f.p|
        invariant i <= |f.p| && Ahead(all, PutFunctions(m, strip, f, i, rest))
      {
        DumpFunction(f.p[i], f.source, all, PutFunctions(m, strip, f, i + 1, rest));
        i := i + 1;
      }
    }

    method DumpFunction(f: Proto, p: Option<Str>, ghost all: seq<Byte>, ghost rest: seq<Byte>)
      requires Ahead(all, PutFunction(m, strip, f, p, rest))
      modifies this
      ensures Ahead(all, rest)
      decreases f, 1
    {
      hide PutString, PutInt, PutVector, PutCount, PutConstants, PutFunctions, PutDebug;
      ghost var lists := PutLists(m, strip, f, rest);
      ghost var code := PutVector(m, f.code, lists);
      ghost var bytes := [f.nups, f.numparams, f.isvararg, f.maxstacksize] + code;
      DumpString(Source(f, p, strip), all, PutLines(m, strip, f, rest));
      DumpInt(f.linedefined, all, PutInt(m, f.lastlinedefined, bytes));
      DumpInt(f.lastlinedefined, all, bytes);
      assert bytes == [f.nups] + ([f.numparams] + ([f.isvararg] + ([f.maxstacksize] + code)));
      DumpChar(f.nups, all, [f.numparams] + ([f.isvararg] + ([f.maxstacksize] + code)));
      DumpChar(f.numparams, all, [f.isvararg] + ([f.maxstacksize] + code));
      DumpChar(f.isvararg, all, [f.maxstacksize] + code);
      DumpChar(f.maxstacksize, all, code);
      DumpVector(f.code, all, lists);
      DumpConstants(f, all, PutDebug(m, Kept(f, strip), rest));
      DumpDebug(f, all, rest);
    }

    /** luaU_dump: a writer that never fails gets the chunk, any other a beginning of it. */
    method Dump(f: Proto) returns (r: int)
      requires Sane(m) && calls == 0 && out == [] && status == 0
      modifies this
      ensures r == status
      ensures if r == 0 then out == PutChunk(m, strip, f, []) else out <= PutChunk(m, strip, f, [])
    {
      hide PutFunction;
      ghost var all := PutChunk(m, strip, f, []);
      DumpBlock(Header(m), all, PutFunction(m, strip, f, None, []));
      DumpFunction(f, None, all, []);
      r := status;
    }
  }

  // ---- The input stream ----

  const EOZ := -1

  /** What the pieces of a reader hold: it ends with an empty one, or without one. */
  function Flat(pieces: seq<seq<Byte>>): seq<Byte> {
    if pieces == [] || pieces[0] == [] then [] else pieces[0] + Flat(pieces[1..])
  }

  class Zio {
    /** Bytes still unread, and the position of the first of them in the buffer. */
    var n: nat
    var p: nat
    var buffer: seq<Byte>
    /** What the reader has still to give. */
    var pieces: seq<seq<Byte>>

    ghost predicate Valid()
      reads this
    {
      p + n == |buffer|
    }

    ghost function Rest(): seq<Byte>
      requires Valid()
      reads this
    {
      buffer[p..] + Flat(pieces)
    }

    constructor (pieces: seq<seq<Byte>>)
      ensures Valid() && Rest() == Flat(pieces)
    {
      n, p, buffer, this.pieces := 0, 0, [], pieces;
    }

    /** luaZ_fill: the first byte of the next piece. */
    method Fill() returns (c: int)
      requires Valid() && n == 0
      modifies this
      ensures Valid() && if old(Rest()) == [] then c == EOZ && Rest() == []
                         else c == old(Rest())[0] && Rest() == old(Rest())[1..] && p > 0 && buffer[p - 1] == c
    {
      if pieces == [] || pieces[0] == [] {
        return EOZ;
      }
      var buff := pieces[0];
      pieces := pieces[1..];
      n, buffer, p := |buff| - 1, buff, 0;
      c := buffer[p];
      p := p + 1;
    }

    /** luaZ_lookahead: the next byte stays. */
    method Lookahead() returns (c: int)
      requires Valid()
      modifies this
      ensures Valid() && Rest() == old(Rest()) && (c == EOZ <==> Rest() == [])
      ensures c != EOZ ==> n > 0 && c == Rest()[0]
    {
      if n == 0 {
        var b := Fill();
        if b == EOZ {
          return EOZ;
        }
        n := n + 1;
        p := p - 1;
        assert Rest() == [buffer[p]] + (buffer[p + 1..] + Flat(pieces));
      }
      c := buffer[p];
    }

    /** The copy of k bytes of the buffer in luaZ_read. */
    method Copy(k: nat) returns (b: seq<Byte>)
      requires Valid() && k <= n
      modifies this
      ensures Valid() && |b| == k && b + Rest() == old(Rest())
    {
      b := buffer[p..p + k];
      assert buffer[p..] == b + buffer[p + k..];
      n := n - k;
      p := p + k;
    }

    /** luaZ_read: as many bytes as there are, however the reader splits them, and how many are missing. */
    method Read(count: nat) returns (missing: nat, b: seq<Byte>)
      requires Valid()
      modifies this
      ensures Valid() && |b| + missing == count && b + Rest() == old(Rest()) && (missing > 0 ==> Rest() == [])
    {
      hide Flat, Zio.Rest, Zio.Valid;
      missing, b := count, [];
      ghost var all := Rest();
      while missing > 0
        invariant Valid() && missing + |b| == count && b + Rest() == all
      {
        var c := Lookahead();
        if c == EOZ {
          return missing, b;
        }
        ghost var rest := Rest();
        var k := if missing <= n then missing else n;
        var more := Copy(k);
        assert b + rest == (b + more) + Rest();
        b := b + more;
        missing := missing - k;
      }
    }
  }

  // ---- The loader ----

  datatype Outcome<+T> = Done(value: T) | Raised(error: Problem)
  {
    predicate IsFailure() {
      Raised?
    }

    function PropagateFailure<U>(): Outcome<U>
      requires Raised?
    {
      Raised(error)
    }

    function Extract(): T
      requires Done?
    {
      value
    }
  }

  /** A list of which the beginning was read already. */
  ghost function Before<T>(xs: seq<T>, r: Parsed<seq<T>>): (b: Parsed<seq<T>>)
    ensures xs == [] ==> b == r
    ensures r.Ok? && r.value == [] ==> b == Ok(xs, r.rest)
  {
    match r
    case Ok(v, rest) =>
      assert (xs == [] ==> xs + v == v) && (v == [] ==> xs + v == xs);
      Ok(xs + v, rest)
    case Err(e) => Err(e)
  }

  lemma BeforeOne<T>(xs: seq<T>, x: T, r: Parsed<seq<T>>)
    ensures Before(xs, Before([x], r)) == Before(xs + [x], r)
  {
    if r.Ok? {
      assert xs + ([x] + r.value) == (xs + [x]) + r.value;
    }
  }

  /** The calls that may still be nested. */
  function RoomAfter(nCcalls: nat): nat {
    if nCcalls >= MAX_CCALLS then 0 else MAX_CCALLS - nCcalls
  }

  class LoadState {
    const m: Machine
    const z: Zio
    var nCcalls: nat

    constructor (m: Machine, z: Zio, nCcalls: nat)
      ensures this.m == m && this.z == z && this.nCcalls == nCcalls
    {
      this.m, this.z, this.nCcalls := m, z, nCcalls;
    }

    /** A load method does what the parser does with what was left of the stream. */
    ghost predicate Agrees<T>(r: Outcome<T>, parsed: Parsed<T>)
      reads z
    {
      match parsed
      case Ok(v, rest) => r == Done(v) && z.Valid() && z.Rest() == rest
      case Err(e) => r == Raised(e)
    }

    method LoadBlock(size: nat) returns (r: Outcome<seq<Byte>>)
      requires z.Valid()
      modifies z
      ensures Agrees(r, Take(old(z.Rest()), size))
    {
      ghost var bs := z.Rest();
      var missing, b := z.Read(size);
      if missing != 0 {
        assert |bs| == |b|;
        return Raised(UnexpectedEnd);
      }
      assert bs[..size] == b && bs[size..] == z.Rest();
      return Done(b);
    }

    method LoadChar() returns (r: Outcome<Byte>)
      requires z.Valid()
      modifies z
      ensures Agrees(r, ParseByte(old(z.Rest())))
    {
      var b :- LoadBlock(1);
      return Done(b[0]);
    }

    method LoadInt() returns (r: Outcome<Int>)
      requires z.Valid()
      modifies z
      ensures Agrees(r, ParseInt(m, old(z.Rest())))
      ensures r.Done? ==> r.value >= 0
    {
      var b :- LoadBlock(4);
      var x := Signed(Word4(m, b));
      if x < 0 {
        return Raised(BadInteger);
      }
      return Done(x);
    }

    method LoadString() returns (r: Outcome<Option<Str>>)
      requires z.Valid()
      modifies z
      ensures Agrees(r, ParseString(m, old(z.Rest())))
    {
      var b :- LoadBlock(m.sizet);
      var size := Num(m, b);
      if size == 0 {
        return Done(None);
      }
      var s :- LoadBlock(size);
      return Done(Some(s[..size - 1]));
    }

    method LoadVector() returns (r: Outcome<seq<Word>>)
      requires z.Valid()
      modifies z
      ensures Agrees(r, ParseVector(m, old(z.Rest())))
    {
      var n: int :- LoadInt();
      var b :- LoadBlock(n * 4);
      return Done(ReadWords(m, b));
    }

    method LoadConstant() returns (r: Outcome<Constant>)
      requires z.Valid()
      modifies z
      ensures Agrees(r, ParseConstant(m, old(z.Rest())))
    {
      var t :- LoadChar();
      match t {
        case 0 =>
          return Done(KNil);
        case 1 =>
          var b :- LoadChar();
          return Done(KBool(b != 0));
        case 3 =>
          var n :- LoadBlock(8);
          return Done(KNumber(n));
        case 4 =>
          var s :- LoadString();
          return Done(KString(s));
        case _ =>
          return Raised(BadConstant);
      }
    }

    method LoadConstants() returns (r: Outcome<seq<Constant>>)
      requires z.Valid()
      modifies z
      ensures Agrees(r, CountedConstants(m, old(z.Rest())))
    {
      hide ParseInt, ParseConstant;
      var n :- LoadInt();
      ghost var bs := z.Rest();
      var i, k := 0, [];
      while i < n
        invariant i <= n && z.Valid() && Before(k, ParseConstants(m, z.Rest(), n - i)) == ParseConstants(m, bs, n)
      {
        var o :- LoadConstant();
        BeforeOne(k, o, ParseConstants(m, z.Rest(), n - i - 1));
        k := k + [o];
        i := i + 1;
      }
      return Done(k);
    }

    method LoadLocVar() returns (r: Outcome<LocVar>)
      requires z.Valid()
      modifies z
      ensures Agrees(r, ParseLocVar(m, old(z.Rest())))
    {
      hide ParseInt, ParseString;
      var varname :- LoadString();
      var startpc :- LoadInt();
      var endpc :- LoadInt();
      return Done(LocVar(varname, startpc, endpc));
    }

    method LoadLocVars(n: nat) returns (r: Outcome<seq<LocVar>>)
      requires z.Valid()
      modifies z
      ensures Agrees(r, ParseLocVars(m, old(z.Rest()), n))
    {
      hide ParseLocVar;
      ghost var bs := z.Rest();
      var i, locvars := 0, [];
      while i < n
        invariant i <= n && z.Valid() && Before(locvars, ParseLocVars(m, z.Rest(), n - i)) == ParseLocVars(m, bs, n)
      {
        var v :- LoadLocVar();
        BeforeOne(locvars, v, ParseLocVars(m, z.Rest(), n - i - 1));
        locvars := locvars + [v];
        i := i + 1;
      }
      return Done(locvars);
    }

    method LoadNames(n: nat) returns (r: Outcome<seq<Option<Str>>>)
      requires z.Valid()
      modifies z
      ensures Agrees(r, ParseNames(m, old(z.Rest()), n))
    {
      hide ParseString;
      ghost var bs := z.Rest();
      var i, upvalues := 0, [];
      while i < n
        invariant i <= n && z.Valid() && Before(upvalues, ParseNames(m, z.Rest(), n - i)) == ParseNames(m, bs, n)
      {
        var s :- LoadString();
        BeforeOne(upvalues, s, ParseNames(m, z.Rest(), n - i - 1));
        upvalues := upvalues + [s];
        i := i + 1;
      }
      return Done(upvalues);
    }

    method LoadDebug() returns (r: Outcome<Debug>)
      requires z.Valid()
      modifies z
      ensures Agrees(r, ParseDebug(m, old(z.Rest())))
    {
      hide ParseInt, ParseVector, ParseLocVars, ParseNames;
      var lines :- LoadVector();
      var n :- LoadInt();
      var locvars :- LoadLocVars(n);
      n :- LoadInt();
      var upvalues :- LoadNames(n);
      return Done(Debug(Signeds(lines), locvars, upvalues));
    }

    method LoadLines() returns (r: Outcome<Lines>)
      requires z.Valid()
      modifies z
      ensures Agrees(r, ParseLines(m, old(z.Rest())))
    {
      hide ParseInt, ParseByte;
      var linedefined :- LoadInt();
      var lastlinedefined :- LoadInt();
      var nups :- LoadChar();
      var numparams :- LoadChar();
      var isvararg :- LoadChar();
      var maxstacksize :- LoadChar();
      return Done(Lines(linedefined, lastlinedefined, nups, numparams, isvararg, maxstacksize));
    }

    ghost function Room(): nat
      reads this`nCcalls
    {
      RoomAfter(nCcalls)
    }

    method LoadFunction(p: Option<Str>) returns (r: Outcome<Proto>)
      requires z.Valid()
      modifies z, this`nCcalls
      ensures Agrees(r, ParseFunction(m, old(z.Rest()), p, old(Room())))
      ensures r.Done? ==> nCcalls == old(nCcalls)
      decreases Room(), 0
    {
      hide ParseInt, ParseString, ParseLines, ParseVector, CountedConstants, ParseFunctions, ParseDebug, View,
           Checker.CodeOk;
      nCcalls := nCcalls + 1;
      if nCcalls > MAX_CCALLS {
        return Raised(TooDeep);
      }
      var source :- LoadString();
      if source == None {
        source := p;
      }
      var lines :- LoadLines();
      var code :- LoadVector();
      var k :- LoadConstants();
      var n :- LoadInt();
      var subs :- LoadFunctions(n, source);
      var debug :- LoadDebug();
      var f := Built(source, lines, code, k, subs, debug);
      var ok := Checker.CheckCode(View(f));
      if !ok {
        return Raised(BadCode);
      }
      nCcalls := nCcalls - 1;
      return Done(f);
    }

    /** The loop of LoadConstants over the nested functions. */
    method LoadFunctions(n: nat, p: Option<Str>) returns (r: Outcome<seq<Proto>>)
      requires z.Valid()
      modifies z, this`nCcalls
      ensures Agrees(r, ParseFunctions(m, old(z.Rest()), n, p, old(Room())))
      ensures r.Done? ==> nCcalls == old(nCcalls)
      decreases Room(), 1
    {
      hide ParseFunction;
      ghost var bs := z.Rest();
      var i, fs := 0, [];
      while i < n
        invariant i <= n && z.Valid() && nCcalls == old(nCcalls)
        invariant Before(fs, ParseFunctions(m, z.Rest(), n - i, p, Room())) == ParseFunctions(m, bs, n, p, Room())
      {
        var f :- LoadFunction(p);
        BeforeOne(fs, f, ParseFunctions(m, z.Rest(), n - i - 1, p, Room()));
        fs := fs + [f];
        i := i + 1;
      }
      return Done(fs);
    }

    method LoadHeader() returns (r: Outcome<seq<Byte>>)
      requires z.Valid() && Sane(m)
      modifies z
      ensures Agrees(r, var h := Take(old(z.Rest()), 12); if h.Ok? && h.value != Header(m) then Err(BadHeader) else h)
    {
      var s :- LoadBlock(12);
      if s != Header(m) {
        return Raised(BadHeader);
      }
      return Done(s);
    }

    /** luaU_undump: the result depends only on the bytes, not on how the reader splits them. */
    method Undump() returns (r: Outcome<Proto>)
      requires z.Valid() && Sane(m)
      modifies z, this`nCcalls
      ensures Agrees(r, ParseChunk(m, old(z.Rest()), old(Room())))
      ensures r.Done? ==> nCcalls == old(nCcalls)
    {
      hide ParseFunction;
      var h :- LoadHeader();
      r := LoadFunction(UNKNOWN);
    }
  }

  /** What luaU_dump gave to a writer comes back from luaU_undump in any pieces. */
  method DumpUndump(m: Machine, strip: bool, f: Proto, writer: nat -> int, nCcalls: nat,
                    split: seq<Byte> -> seq<seq<Byte>>)
      returns (status: int, r: Outcome<Proto>)
    requires Sane(m) && Fits(m, f) && forall bs :: Flat(split(bs)) == bs
    ensures status == 0 && Loadable(f, strip, RoomAfter(nCcalls)) ==> r == Done(Reloaded(f, strip, UNKNOWN))
    ensures !Loadable(f, strip, RoomAfter(nCcalls)) ==> r.Raised?
    ensures r.Done? ==> r == Done(Reloaded(f, strip, UNKNOWN))
  {
    hide Loadable, Reloaded, Fits, ParseChunk, PutChunk;
    var d := new DumpState(m, strip, writer);
    status := d.Dump(f);
    var z := new Zio(split(d.out));
    var s := new LoadState(m, z, nCcalls);
    r := s.Undump();
    ghost var room, all := RoomAfter(nCcalls), PutChunk(m, strip, f, []);
    RoundTrip(m, strip, f, room, []);
    if d.out != all {
      Truncated(m, strip, f, room, |d.out|);
      assert all[..|d.out|] == d.out;
    }
  }
}
