/** The bytes of precompiled chunks, written out, and what stripping leaves of a function. */
module ChunkLaws {
  import opened Chunks
  import Checker

  // ---- Numbers ----

  lemma LastByte(m: Machine, d: Byte, q: nat, w: nat)
    ensures Image(m, d + 256 * q, w + 1) == if m.little then [d] + Image(m, q, w) else Image(m, q, w) + [d]
  {
    assert (d + 256 * q) / 256 == q && (d + 256 * q) % 256 == d;
  }

  lemma {:induction false} ZeroBytes(m: Machine, w: nat)
    ensures Image(m, 0, w) == seq(w, _ => 0)
  {
    if w == 0 {
    } else {
      ZeroBytes(m, w - 1);
      LastByte(m, 0, 0, w - 1);
    }
  }

  /** A number with the bytes a, b, c and d, the lowest first, as an int and as a size_t. */
  lemma FourBytes(a: Byte, b: Byte, c: Byte, d: Byte, m: Machine, w: nat)
    requires 4 <= w
    ensures Image(m, a + 256 * (b + 256 * (c + 256 * d)), w)
            == if m.little then [a, b, c, d] + seq(w - 4, _ => 0) else seq(w - 4, _ => 0) + [d, c, b, a]
  {
    hide Image;
    var q, r, z := c + 256 * d, b + 256 * (c + 256 * d), seq(w - 4, _ => 0 as Byte);
    ZeroBytes(m, w - 4);
    LastByte(m, d, 0, w - 4);
    LastByte(m, c, d, w - 3);
    LastByte(m, b, q, w - 2);
    LastByte(m, a, r, w - 1);
    if m.little {
      assert [a] + ([b] + ([c] + ([d] + z))) == [a, b, c, d] + z;
    } else {
      assert z + [d] + [c] + [b] + [a] == z + [d, c, b, a];
    }
  }

  /** A negative int has the bytes of its two's complement. */
  lemma NegativeInt(m: Machine, x: Int, rest: seq<Byte>)
    requires x < 0
    ensures PutInt(m, x, rest) == PutCount(m, 0x1_0000_0000 + x, rest)
  {
  }

  /** The bits of is_vararg: HASARG is 1, ISVARARG 2 and NEEDSARG 4. */
  lemma VarargBits(f: Proto, hasarg: bool, isvararg: bool, needsarg: bool, q: nat)
    requires f.isvararg == (if hasarg then 1 else 0) + (if isvararg then 2 else 0) + (if needsarg then 4 else 0) + 8 * q
    ensures var v := View(f); v.hasarg == hasarg && v.isvararg == isvararg && v.needsarg == needsarg
  {
  }

  // ---- Stripping ----

  /** The tree without sources, line numbers and names. */
  function Bare(f: Proto): Proto {
    f.(source := None, lineinfo := [], locvars := [], upvalues := [],
       p := seq(|f.p|, i requires 0 <= i < |f.p| => Bare(f.p[i])))
  }

  /** To strip is to dump the bare tree. */
  lemma {:induction false} StripsBare(m: Machine, f: Proto, p: Option<Str>, rest: seq<Byte>)
    ensures PutFunction(m, true, f, p, rest) == PutFunction(m, false, Bare(f), None, rest)
    decreases f, 1
  {
    var b := Bare(f);
    assert PutDebug(m, Kept(f, true), rest) == PutDebug(m, Kept(b, false), rest);
    StripsNested(m, f, 0, PutDebug(m, Kept(f, true), rest));
    assert PutLists(m, true, f, rest) == PutLists(m, false, b, rest);
  }

  lemma {:induction false} StripsNested(m: Machine, f: Proto, i: nat, rest: seq<Byte>)
    requires i <= |f.p|
    ensures PutFunctions(m, true, f, i, rest) == PutFunctions(m, false, Bare(f), i, rest)
    decreases f, 0, |f.p| - i
  {
    if i == |f.p| {
    } else {
      StripsNested(m, f, i + 1, rest);
      StripsBare(m, f.p[i], f.source, PutFunctions(m, true, f, i + 1, rest));
    }
  }

  // ---- A whole chunk ----

  /** 32-bit pointers, the low byte first. */
  const SMALL := Machine(true, 4)

  lemma SmallCount(n: Byte, rest: seq<Byte>)
    ensures PutCount(SMALL, n, rest) == [n, 0, 0, 0] + rest
  {
    FourBytes(n, 0, 0, 0, SMALL, 4);
  }

  lemma SmallInt(n: Byte, rest: seq<Byte>)
    ensures PutInt(SMALL, n, rest) == [n, 0, 0, 0] + rest
  {
    SmallCount(n, rest);
  }

  lemma SmallString(t: Str, rest: seq<Byte>)
    requires |t| < 255
    ensures PutString(SMALL, Some(t), rest) == [|t| + 1, 0, 0, 0] + (t + [0] + rest)
  {
    FourBytes(|t| + 1, 0, 0, 0, SMALL, 4);
  }

  lemma NoString(rest: seq<Byte>)
    ensures PutString(SMALL, None, rest) == [0, 0, 0, 0] + rest
  {
    FourBytes(0, 0, 0, 0, SMALL, 4);
  }

  lemma OneWord(a: Byte, b: Byte, c: Byte, d: Byte, rest: seq<Byte>)
    ensures PutVector(SMALL, [a + 256 * (b + 256 * (c + 256 * d))], rest) == [1, 0, 0, 0] + ([a, b, c, d] + rest)
  {
    var w: Word := a + 256 * (b + 256 * (c + 256 * d));
    assert [w][1..] == [] && Words(SMALL, [w]) == Image(SMALL, w, 4) + Words(SMALL, []);
    FourBytes(a, b, c, d, SMALL, 4);
    assert Words(SMALL, [w]) == [a, b, c, d];
    SmallCount(1, Words(SMALL, [w]) + rest);
  }

  lemma NoWords(rest: seq<Byte>)
    ensures PutVector(SMALL, [], rest) == [0, 0, 0, 0] + rest
  {
    assert Words(SMALL, []) + rest == rest;
    SmallCount(0, rest);
  }

  const NAME: Str := [64, 97]

  /** A function of the same source, without constants and debug information: RETURN 0 1. */
  const NESTED := Proto(Some(NAME), 1, 2, 0, 0, 0, 2, [8388638], [], [], [], [], [])

  /** 1.0 as an IEEE double. */
  const ONE: Number := [0, 0, 0, 0, 0, 0, 240, 63]

  const CONSTANTS := [KNil, KBool(true), KNumber(ONE), KString(Some([104, 105]))]

  const EXAMPLE := Proto(Some(NAME), 0, 0, 1, 0, 2, 2, [8388638], CONSTANTS, [NESTED], [258],
                         [LocVar(Some([120]), 0, 1)], [Some([117])])

  /** The source is that of the function around it, and so left out. */
  lemma NestedBytes(rest: seq<Byte>)
    ensures PutFunction(SMALL, false, NESTED, Some(NAME), rest) ==
            [0, 0, 0, 0] + ([1, 0, 0, 0] + ([2, 0, 0, 0] + ([0, 0, 0, 2] + ([1, 0, 0, 0] + ([30, 0, 128, 0] +
            ([0, 0, 0, 0] + ([0, 0, 0, 0] + ([0, 0, 0, 0] + ([0, 0, 0, 0] + ([0, 0, 0, 0] + rest))))))))))
  {
    hide Image, Words;
    var names := PutCount(SMALL, 0, rest);
    SmallCount(0, rest);
    SmallCount(0, names);
    NoWords(PutCount(SMALL, 0, names));
    var debug := PutDebug(SMALL, NESTED, rest);
    assert debug == PutVector(SMALL, [], PutCount(SMALL, 0, names)) by { assert Unsigneds([]) == []; }
    SmallCount(0, debug);
    SmallCount(0, PutCount(SMALL, 0, debug));
    var lists := PutLists(SMALL, false, NESTED, rest);
    assert lists == PutCount(SMALL, 0, PutCount(SMALL, 0, debug));
    OneWord(30, 0, 128, 0, lists);
    var code := [0, 0, 0, 2] + PutVector(SMALL, [8388638], lists);
    SmallInt(2, code);
    SmallInt(1, PutInt(SMALL, 2, code));
    NoString(PutLines(SMALL, false, NESTED, rest));
  }

  lemma ConstantBytes(rest: seq<Byte>)
    ensures PutConstants(SMALL, CONSTANTS, rest) ==
            [0] + ([1] + ([1] + ([3] + ([0, 0, 0, 0, 0, 0, 240, 63] +
            ([4] + ([3, 0, 0, 0] + ([104, 105] + [0] + rest)))))))
  {
    var k := CONSTANTS;
    var k1 := k[1..];
    var k2 := k1[1..];
    var k3 := k2[1..];
    assert k1[0] == KBool(true) && k2[0] == KNumber(ONE) && k3[0] == KString(Some([104, 105])) && k3[1..] == [];
    SmallString([104, 105], rest);
    assert PutConstants(SMALL, k3, rest) == PutConstant(SMALL, k3[0], rest);
    assert PutConstants(SMALL, k2, rest) == PutConstant(SMALL, k2[0], PutConstants(SMALL, k3, rest));
    assert PutConstants(SMALL, k1, rest) == PutConstant(SMALL, k1[0], PutConstants(SMALL, k2, rest));
  }

  lemma DebugBytes(rest: seq<Byte>)
    ensures PutDebug(SMALL, EXAMPLE, rest) ==
            [1, 0, 0, 0] + ([2, 1, 0, 0] +
            ([1, 0, 0, 0] + ([2, 0, 0, 0] + ([120] + [0] + ([0, 0, 0, 0] + ([1, 0, 0, 0] +
            ([1, 0, 0, 0] + ([2, 0, 0, 0] + ([117] + [0] + rest)))))))))
  {
    hide Image, Words;
    var f := EXAMPLE;
    SmallString([117], rest);
    var names := PutNames(SMALL, f.upvalues, rest);
    assert names == PutString(SMALL, Some([117]), rest) by {
      assert f.upvalues[1..] == [] && PutNames(SMALL, [], rest) == rest;
    }
    SmallCount(1, names);
    var counted := PutCount(SMALL, 1, names);
    SmallInt(1, counted);
    SmallInt(0, PutInt(SMALL, 1, counted));
    SmallString([120], PutInt(SMALL, 0, PutInt(SMALL, 1, counted)));
    var vars := PutLocVars(SMALL, f.locvars, counted);
    assert vars == PutLocVar(SMALL, f.locvars[0], counted) by {
      assert f.locvars[1..] == [] && PutLocVars(SMALL, [], counted) == counted;
    }
    SmallCount(1, vars);
    OneWord(2, 1, 0, 0, PutCount(SMALL, 1, vars));
    assert Unsigneds(f.lineinfo) == [258];
  }

  /** The chunk of a function with a nested one. */
  lemma ExampleBytes()
    ensures PutChunk(SMALL, false, EXAMPLE, []) ==
            [27, 76, 117, 97, 81, 0, 1, 4, 4, 4, 8, 0] +
            ([3, 0, 0, 0] + ([64, 97] + [0] + ([0, 0, 0, 0] + ([0, 0, 0, 0] + ([1, 0, 2, 2] +
            ([1, 0, 0, 0] + ([30, 0, 128, 0] +
            ([4, 0, 0, 0] + PutConstants(SMALL, CONSTANTS, [1, 0, 0, 0] +
            PutFunction(SMALL, false, NESTED, Some(NAME), PutDebug(SMALL, EXAMPLE, [])))))))))))
  {
    hide Image, Words, PutConstants, PutConstant, PutDebug, PutVector;
    var f, debug := EXAMPLE, PutDebug(SMALL, EXAMPLE, []);
    var nested := PutFunctions(SMALL, false, f, 0, debug);
    assert nested == PutFunction(SMALL, false, NESTED, Some(NAME), debug) by {
      assert PutFunctions(SMALL, false, f, 1, debug) == debug;
    }
    SmallCount(1, nested);
    var ks := PutConstants(SMALL, CONSTANTS, PutCount(SMALL, 1, nested));
    SmallCount(4, ks);
    var lists := PutLists(SMALL, false, f, []);
    assert lists == PutCount(SMALL, 4, ks);
    OneWord(30, 0, 128, 0, lists);
    var code := [1, 0, 2, 2] + PutVector(SMALL, [8388638], lists);
    SmallInt(0, code);
    SmallInt(0, PutInt(SMALL, 0, code));
    SmallString(NAME, PutLines(SMALL, false, f, []));
  }
}
