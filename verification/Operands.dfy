/** The registers, constants, upvalues, nested prototypes and words of code that luaV_execute (lvm.c) uses for an
    instruction, and what the bytecode checker promises about them. */
module Operands {
  import opened Checker

  // ---- What the machine uses ----

  const ARITHMETIC := {OP_ADD, OP_SUB, OP_MUL, OP_DIV, OP_MOD, OP_POW}
  const COMPARISONS := {OP_EQ, OP_LT, OP_LE}

  /** RK(x) is a constant if bit 8 is set. */
  predicate IsReg(x: nat, r: int) {
    x < 256 && r == x
  }

  predicate IsConst(x: nat, n: int) {
    256 <= x && n == x - 256
  }

  /** The words behind a CLOSURE that say what it captures. */
  predicate Capture(pt: Proto, pc: nat, q: nat)
    requires pc < |pt.code|
  {
    var n := ArgBx(pt.code[pc]);
    OpOf(pt.code[pc]) == OP_CLOSURE && n < |pt.p| && pc < q <= pc + pt.p[n]
  }

  predicate Captures(pt: Proto, pc: nat, up: bool, x: int)
    requires pc < |pt.code|
  {
    exists q | pc < q < |pt.code| ::
      Capture(pt, pc, q) && (OpOf(pt.code[q]) == OP_GETUPVAL) == up && ArgB(pt.code[q]) == x
  }

  /** The registers that the instruction at pc reads or writes; an operand B of 0 means up to the top of the
      stack. */
  predicate UsesReg(pt: Proto, pc: nat, r: int)
    requires pc < |pt.code|
  {
    var i := pt.code[pc];
    var op, a, b, c := OpOf(i), ArgA(i), ArgB(i), ArgC(i);
    if op in {OP_MOVE, OP_UNM, OP_NOT, OP_LEN, OP_TESTSET} then r == a || r == b
    else if op in {OP_LOADK, OP_LOADBOOL, OP_GETUPVAL, OP_SETUPVAL, OP_GETGLOBAL, OP_SETGLOBAL, OP_NEWTABLE, OP_TEST,
                   OP_CLOSE} then r == a
    else if op == OP_LOADNIL then r == b || a <= r <= b
    else if op == OP_GETTABLE then r == a || r == b || IsReg(c, r)
    else if op == OP_SETTABLE || op in ARITHMETIC then r == a || IsReg(b, r) || IsReg(c, r)
    else if op == OP_SELF then r == a || r == a + 1 || r == b || IsReg(c, r)
    else if op == OP_CONCAT then r == a || b <= r <= c
    else if op in COMPARISONS then IsReg(b, r) || IsReg(c, r)
    else if op == OP_CALL then r == a || a < r < a + b || a <= r < a + c - 1
    else if op == OP_TAILCALL then r == a || a < r < a + b
    else if op == OP_RETURN || op == OP_VARARG then a <= r < a + b - 1
    else if op == OP_FORLOOP then a <= r <= a + 3
    else if op == OP_FORPREP then a <= r <= a + 2
    else if op == OP_TFORLOOP then a <= r <= a + 5 || a + 3 <= r <= a + 2 + c
    else if op == OP_SETLIST then a <= r <= a + b
    else if op == OP_CLOSURE then r == a || Captures(pt, pc, false, r)
    else false
  }

  predicate UsesConst(pt: Proto, pc: nat, n: int)
    requires pc < |pt.code|
  {
    var i := pt.code[pc];
    var op, b, c := OpOf(i), ArgB(i), ArgC(i);
    if op in {OP_LOADK, OP_GETGLOBAL, OP_SETGLOBAL} then n == ArgBx(i)
    else if op in {OP_GETTABLE, OP_SELF} then IsConst(c, n)
    else if op == OP_SETTABLE || op in ARITHMETIC || op in COMPARISONS then IsConst(b, n) || IsConst(c, n)
    else false
  }

  /** The constants that name a global variable. */
  predicate UsesName(pt: Proto, pc: nat, n: int)
    requires pc < |pt.code|
  {
    OpOf(pt.code[pc]) in {OP_GETGLOBAL, OP_SETGLOBAL} && n == ArgBx(pt.code[pc])
  }

  predicate UsesUpval(pt: Proto, pc: nat, n: int)
    requires pc < |pt.code|
  {
    var i := pt.code[pc];
    if OpOf(i) in {OP_GETUPVAL, OP_SETUPVAL} then n == ArgB(i)
    else OpOf(i) == OP_CLOSURE && Captures(pt, pc, true, n)
  }

  predicate UsesProto(pt: Proto, pc: nat, n: int)
    requires pc < |pt.code|
  {
    OpOf(pt.code[pc]) == OP_CLOSURE && n == ArgBx(pt.code[pc])
  }

  /** The words behind the instruction that it reads. */
  predicate UsesWord(pt: Proto, pc: nat, q: int)
    requires pc < |pt.code|
  {
    var i := pt.code[pc];
    if OpOf(i) in {OP_EQ, OP_LT, OP_LE, OP_TEST, OP_TESTSET, OP_TFORLOOP} then q == pc + 1
    else if OpOf(i) == OP_SETLIST then ArgC(i) == 0 && q == pc + 1
    else q > pc && Capture(pt, pc, q)
  }

  /** The registers that the instruction may write; a call leaves nothing above its function alone. */
  predicate Writes(w: Word, r: nat) {
    var op, a, b, c := OpOf(w), ArgA(w), ArgB(w), ArgC(w);
    if op in {OP_MOVE, OP_LOADK, OP_LOADBOOL, OP_GETUPVAL, OP_GETGLOBAL, OP_GETTABLE, OP_NEWTABLE, OP_UNM, OP_NOT,
              OP_LEN, OP_TESTSET, OP_CLOSURE} || op in ARITHMETIC then r == a
    else if op == OP_LOADNIL then r == b || a <= r <= b
    else if op == OP_SELF then r == a || r == a + 1
    else if op == OP_CONCAT then r == a || b <= r <= c
    else if op == OP_CALL || op == OP_TAILCALL then r >= a
    else if op == OP_FORLOOP then r == a || r == a + 3
    else if op == OP_FORPREP then a <= r <= a + 2
    else if op == OP_TFORLOOP then r >= a + 2
    else if op == OP_VARARG then a <= r && (b == 0 || r < a + b - 1)
    else false
  }

  // ---- What the checker promises ----

  /** A generic for calls its iterator in the registers behind its state. */
  predicate IsCallSlot(w: Word, r: int) {
    OpOf(w) == OP_TFORLOOP && ArgA(w) + 4 <= r <= ArgA(w) + 5 && r > ArgA(w) + 2 + ArgC(w)
  }

  lemma CapturesSafe(pt: Proto, pc: nat, q: nat)
    requires CodeOk(pt) && Fetchable(pt, pc) && Capture(pt, pc, q)
    ensures q < |pt.code| && Fetchable(pt, q)
    ensures OpOf(pt.code[q]) == OP_GETUPVAL ==> ArgB(pt.code[q]) < pt.nups
    ensures OpOf(pt.code[q]) != OP_GETUPVAL ==> OpOf(pt.code[q]) == OP_MOVE && ArgB(pt.code[q]) < pt.maxstacksize
  {
    assert InstrOk(pt, pc);
    PseudoStarts(pt.code, pc, q - pc);
    assert InstrOk(pt, q);
  }

  /** Every register of an instruction of checked code is in its frame, but for the call slots of a generic for,
      two at most of which are behind it. */
  lemma RegistersSafe(pt: Proto, pc: nat, r: int)
    requires CodeOk(pt) && Fetchable(pt, pc) && UsesReg(pt, pc, r)
    ensures 0 <= r < pt.maxstacksize + 2
    ensures r < pt.maxstacksize || IsCallSlot(pt.code[pc], r)
  {
    assert InstrOk(pt, pc);
    if OpOf(pt.code[pc]) == OP_CLOSURE && Captures(pt, pc, false, r) {
      var q :| pc < q < |pt.code| && Capture(pt, pc, q) && OpOf(pt.code[q]) != OP_GETUPVAL && ArgB(pt.code[q]) == r;
      CapturesSafe(pt, pc, q);
    }
  }

  /** ... and so is every constant in the list of constants, ... */
  lemma ConstantsSafe(pt: Proto, pc: nat, n: int)
    requires CodeOk(pt) && Fetchable(pt, pc)
    ensures UsesConst(pt, pc, n) ==> 0 <= n < |pt.k|
    ensures UsesName(pt, pc, n) ==> 0 <= n < |pt.k| && pt.k[n]
  {
    assert InstrOk(pt, pc);
  }

  lemma UpvaluesSafe(pt: Proto, pc: nat, n: int)
    requires CodeOk(pt) && Fetchable(pt, pc)
    ensures UsesUpval(pt, pc, n) ==> 0 <= n < pt.nups
    ensures UsesProto(pt, pc, n) ==> 0 <= n < |pt.p|
  {
    assert InstrOk(pt, pc);
    if Captures(pt, pc, true, n) {
      var q :| pc < q < |pt.code| && Capture(pt, pc, q) && OpOf(pt.code[q]) == OP_GETUPVAL && ArgB(pt.code[q]) == n;
      CapturesSafe(pt, pc, q);
    }
  }

  /** ... and every word that it reads in the code: the jump behind a test, the count of a SETLIST, the captures of
      a CLOSURE. */
  lemma WordsSafe(pt: Proto, pc: nat, q: int)
    requires CodeOk(pt) && Fetchable(pt, pc) && UsesWord(pt, pc, q)
    ensures 0 <= q < |pt.code|
    ensures match OpOf(pt.code[pc])
            case 34 => !IsStart(pt.code, q)
            case 36 => OpOf(pt.code[q]) in {OP_GETUPVAL, OP_MOVE}
            case _ => OpOf(pt.code[q]) == OP_JMP
  {
    assert InstrOk(pt, pc);
    if OpOf(pt.code[pc]) == OP_CLOSURE { CapturesSafe(pt, pc, q); }
  }

  /** All registers are in the frame exactly if every generic for has the room that luaK_checkstack asks for. */
  lemma FrameExact(pt: Proto)
    requires CodeOk(pt)
    ensures (forall pc, r | Fetchable(pt, pc) && UsesReg(pt, pc, r) :: r < pt.maxstacksize)
            <==> (forall pc | Fetchable(pt, pc) && OpOf(pt.code[pc]) == OP_TFORLOOP ::
              ArgA(pt.code[pc]) + 5 < pt.maxstacksize)
  {
    if forall pc | Fetchable(pt, pc) && OpOf(pt.code[pc]) == OP_TFORLOOP :: ArgA(pt.code[pc]) + 5 < pt.maxstacksize {
      forall pc, r | Fetchable(pt, pc) && UsesReg(pt, pc, r)
        ensures r < pt.maxstacksize
      {
        RegistersSafe(pt, pc, r);
      }
    } else {
      var pc :| Fetchable(pt, pc) && OpOf(pt.code[pc]) == OP_TFORLOOP && ArgA(pt.code[pc]) + 5 >= pt.maxstacksize;
      assert UsesReg(pt, pc, ArgA(pt.code[pc]) + 5);
    }
  }

  lemma StartsAtZero(code: seq<Word>)
    ensures IsStart(code, 0)
  {
  }

  lemma LoopWords()
    ensures OpOf(16417) == OP_TFORLOOP && ArgA(16417) == 0 && ArgB(16417) == 0 && ArgC(16417) == 1
    ensures OpOf(2147467286) == OP_JMP && ArgA(2147467286) == 0 && ArgSBx(2147467286) == 0
    ensures OpOf(8388638) == OP_RETURN && ArgA(8388638) == 0 && ArgB(8388638) == 1 && ArgC(8388638) == 0
  {
  }

  /** TFORLOOP 0 1, a jump to the next instruction and RETURN 0 1, in four registers. */
  const LOOP := Proto([16417, 2147467286, 8388638], [], [], 0, 0, 0, 0, false, false, false, 4)

  lemma LoopOk()
    ensures InstrOk(LOOP, 0) && InstrOk(LOOP, 2)
  {
    hide OpOf, ArgA, ArgB, ArgBx, ArgC, ArgSBx;
    LoopWords();
  }

  lemma LoopJumpOk()
    ensures InstrOk(LOOP, 1)
  {
    hide OpOf, ArgA, ArgB, ArgBx, ArgC, ArgSBx;
    LoopWords();
    assert RunBefore(LOOP.code, 2) == 0;
  }

  /** A prototype that passes the check, and whose TFORLOOP uses a register behind its frame. */
  lemma FrameExample()
    ensures CodeOk(LOOP) && Fetchable(LOOP, 0) && UsesReg(LOOP, 0, 5) && LOOP.maxstacksize == 4
  {
    hide InstrOk, IsStart, OpOf, ArgA, ArgB, ArgBx, ArgC, ArgSBx;
    LoopWords();
    LoopOk();
    LoopJumpOk();
    StartsAtZero(LOOP.code);
  }

  /** Along every run of checked code, as far as RunSafe goes. */
  lemma RunOperands(pt: Proto, s: seq<int>, j: nat, x: int)
    requires CodeOk(pt) && IsRun(pt, s) && j < |s|
    requires forall pc | Fetchable(pt, pc) :: !UncheckedSkip(pt.code[pc])
    ensures Fetchable(pt, s[j])
    ensures UsesReg(pt, s[j], x) ==>
              0 <= x < pt.maxstacksize || (IsCallSlot(pt.code[s[j]], x) && x < pt.maxstacksize + 2)
    ensures UsesConst(pt, s[j], x) ==> 0 <= x < |pt.k|
    ensures UsesUpval(pt, s[j], x) ==> 0 <= x < pt.nups
    ensures UsesProto(pt, s[j], x) ==> 0 <= x < |pt.p|
    ensures UsesWord(pt, s[j], x) ==> 0 <= x < |pt.code|
  {
    RunSafe(pt, s);
    ConstantsSafe(pt, s[j], x);
    UpvaluesSafe(pt, s[j], x);
    if UsesReg(pt, s[j], x) { RegistersSafe(pt, s[j], x); }
    if UsesWord(pt, s[j], x) { WordsSafe(pt, s[j], x); }
  }

  // ---- What the checker asks for ----

  const WITHOUT_C :=
    {OP_MOVE, OP_LOADNIL, OP_GETUPVAL, OP_SETUPVAL, OP_UNM, OP_NOT, OP_LEN, OP_RETURN, OP_CLOSE, OP_VARARG}

  /** Operands without a meaning are 0. */
  predicate UnusedZero(w: Word) {
    var op := OpOf(w);
    && (op in WITHOUT_C ==> ArgC(w) == 0)
    && (op in {OP_TFORLOOP, OP_CLOSE} ==> ArgB(w) == 0)
  }

  /** What the checker asks beyond what the machine uses. */
  predicate Spare(pt: Proto, w: Word) {
    && ArgA(w) < pt.maxstacksize
    && (OpOf(w) == OP_TEST ==> ArgB(w) < pt.maxstacksize)
    && (OpOf(w) == OP_FORPREP ==> ArgA(w) + 3 < pt.maxstacksize)
    && (OpOf(w) == OP_TAILCALL && ArgC(w) > 1 ==> ArgA(w) + ArgC(w) - 2 < pt.maxstacksize)
  }

  /** What comes before and after an instruction. */
  ghost predicate FlowOk(pt: Proto, pc: nat)
    requires pc < |pt.code|
  {
    var w := pt.code[pc];
    var op, b, c := OpOf(w), ArgB(w), ArgC(w);
    && (op in {OP_JMP, OP_FORLOOP, OP_FORPREP} ==> Fetchable(pt, pc + 1 + ArgSBx(w)))
    && (op in {OP_EQ, OP_LT, OP_LE, OP_TEST, OP_TESTSET, OP_TFORLOOP} ==>
          pc + 2 < |pt.code| && OpOf(pt.code[pc + 1]) == OP_JMP)
    && (op == OP_LOADBOOL && c == 1 ==> SkipOk(pt, pc))
    && (op == OP_SETLIST && c == 0 ==> pc + 2 < |pt.code|)
    && (op == OP_CLOSURE ==> forall q | pc < q && Capture(pt, pc, q) ::
          q < |pt.code| && OpOf(pt.code[q]) in {OP_GETUPVAL, OP_MOVE})
    && ((op in {OP_CALL, OP_TAILCALL} && c == 0) || (op == OP_VARARG && b == 0) ==>
          pc + 1 < |pt.code| && ArgB(pt.code[pc + 1]) == 0
          && OpOf(pt.code[pc + 1]) in {OP_CALL, OP_TAILCALL, OP_RETURN, OP_SETLIST})
    && (op == OP_VARARG ==> pt.isvararg && !pt.needsarg)
    && (op == OP_CONCAT ==> b < c)
    && (op == OP_TFORLOOP ==> c > 0)
  }

  /** What the machine uses is there; the captures of a CLOSURE are instructions of their own for the checker. */
  ghost predicate UsesOk(pt: Proto, pc: nat)
    requires pc < |pt.code|
  {
    var w := pt.code[pc];
    && (OpOf(w) != OP_CLOSURE ==>
          && (forall r | UsesReg(pt, pc, r) :: r < pt.maxstacksize || IsCallSlot(w, r))
          && (forall n | UsesUpval(pt, pc, n) :: n < pt.nups))
    && (forall n | UsesConst(pt, pc, n) :: n < |pt.k|)
    && (forall n | UsesName(pt, pc, n) :: n < |pt.k| && pt.k[n])
    && (forall n | UsesProto(pt, pc, n) :: n < |pt.p|)
  }

  lemma ChecksUses(pt: Proto, pc: nat)
    requires Fetchable(pt, pc) && InstrOk(pt, pc)
    ensures UsesOk(pt, pc)
  {
  }

  lemma ChecksFlow(pt: Proto, pc: nat)
    requires Fetchable(pt, pc) && InstrOk(pt, pc)
    ensures UnusedZero(pt.code[pc]) && Spare(pt, pt.code[pc]) && FlowOk(pt, pc)
  {
    if OpOf(pt.code[pc]) in {OP_JMP, OP_FORLOOP, OP_FORPREP} {
      ParityTest(pt.code, pc + 1 + ArgSBx(pt.code[pc]));
    }
  }

  predicate InFrame(pt: Proto, pc: nat, r: int)
    requires pc < |pt.code|
  {
    UsesReg(pt, pc, r) ==> r < pt.maxstacksize || IsCallSlot(pt.code[pc], r)
  }

  /** The registers that the checker looks at are among those of the machine. */
  lemma RegsOk(pt: Proto, pc: nat)
    requires pc < |pt.code| && UsesOk(pt, pc) && OpOf(pt.code[pc]) != OP_CLOSURE
    ensures var w := pt.code[pc];
            var a, b, c := ArgA(w), ArgB(w), ArgC(w);
            && InFrame(pt, pc, a + 1) && InFrame(pt, pc, a + 3) && InFrame(pt, pc, b) && InFrame(pt, pc, c)
            && InFrame(pt, pc, a + b) && InFrame(pt, pc, a + b - 1) && InFrame(pt, pc, a + b - 2)
            && InFrame(pt, pc, a + c - 2) && InFrame(pt, pc, a + c + 2)
            && (UsesConst(pt, pc, ArgBx(w)) ==> ArgBx(w) < |pt.k|)
            && (UsesConst(pt, pc, b - 256) ==> b - 256 < |pt.k|) && (UsesConst(pt, pc, c - 256) ==> c - 256 < |pt.k|)
    ensures UsesUpval(pt, pc, ArgB(pt.code[pc])) ==> ArgB(pt.code[pc]) < pt.nups
  {
  }

  lemma OperandsAsked(pt: Proto, pc: nat)
    requires Fetchable(pt, pc) && UnusedZero(pt.code[pc]) && Spare(pt, pt.code[pc]) && FlowOk(pt, pc)
    requires UsesOk(pt, pc) && OpOf(pt.code[pc]) < 38
    ensures OperandsOk(pt, pc)
  {
    if OpOf(pt.code[pc]) in {OP_JMP, OP_FORLOOP, OP_FORPREP} {
      ParityTest(pt.code, pc + 1 + ArgSBx(pt.code[pc]));
    } else if OpOf(pt.code[pc]) != OP_CLOSURE {
      RegsOk(pt, pc);
    }
  }

  lemma TestsAsked(pt: Proto, pc: nat)
    requires pc < |pt.code| && FlowOk(pt, pc)
    ensures TestMode(OpOf(pt.code[pc])) ==> pc + 2 < |pt.code| && OpOf(pt.code[pc + 1]) == OP_JMP
  {
  }

  lemma SwitchAsked(pt: Proto, pc: nat)
    requires Fetchable(pt, pc) && UnusedZero(pt.code[pc]) && Spare(pt, pt.code[pc]) && FlowOk(pt, pc)
    requires UsesOk(pt, pc) && OpOf(pt.code[pc]) < 38
    ensures SwitchOk(pt, pc)
  {
    if OpOf(pt.code[pc]) == OP_CLOSURE {
      var n := ArgBx(pt.code[pc]);
      assert UsesProto(pt, pc, n);
      assert pt.p[n] > 0 ==> Capture(pt, pc, pc + pt.p[n]);
      assert forall q | pc < q <= pc + pt.p[n] :: Capture(pt, pc, q);
    } else {
      assert UsesName(pt, pc, ArgBx(pt.code[pc])) ==> ArgBx(pt.code[pc]) < |pt.k| && pt.k[ArgBx(pt.code[pc])];
      RegsOk(pt, pc);
    }
  }

  /** The checks of an instruction are no weaker and no stronger than this. */
  lemma InstrExact(pt: Proto, pc: nat)
    requires Fetchable(pt, pc)
    ensures InstrOk(pt, pc) <==> OpOf(pt.code[pc]) < 38 && UnusedZero(pt.code[pc]) && Spare(pt, pt.code[pc])
                                 && FlowOk(pt, pc) && UsesOk(pt, pc)
  {
    hide FlowOk, UsesOk, OperandsOk, SwitchOk;
    if InstrOk(pt, pc) {
      ChecksUses(pt, pc);
      ChecksFlow(pt, pc);
    } else if OpOf(pt.code[pc]) < 38 && UnusedZero(pt.code[pc]) && Spare(pt, pt.code[pc]) && FlowOk(pt, pc)
              && UsesOk(pt, pc) {
      OperandsAsked(pt, pc);
      SwitchAsked(pt, pc);
      TestsAsked(pt, pc);
    }
  }

  /** A prototype passes the check exactly if its sizes are in order and every instruction has what it uses. */
  lemma CodeExact(pt: Proto)
    ensures CodeOk(pt) <==>
            && pt.maxstacksize <= 250 && pt.numparams + (if pt.hasarg then 1 else 0) <= pt.maxstacksize
            && (pt.needsarg ==> pt.hasarg) && pt.sizeupvalues <= pt.nups
            && (pt.sizelineinfo == 0 || pt.sizelineinfo == |pt.code|)
            && pt.code != [] && OpOf(pt.code[|pt.code| - 1]) == OP_RETURN
            && forall pc: nat | Fetchable(pt, pc) ::
                 OpOf(pt.code[pc]) < 38 && UnusedZero(pt.code[pc]) && Spare(pt, pt.code[pc])
                 && FlowOk(pt, pc) && UsesOk(pt, pc)
  {
    hide InstrOk, UnusedZero, Spare, FlowOk, UsesOk;
    forall pc: nat | Fetchable(pt, pc)
      ensures InstrOk(pt, pc) <==> OpOf(pt.code[pc]) < 38 && UnusedZero(pt.code[pc]) && Spare(pt, pt.code[pc])
                                   && FlowOk(pt, pc) && UsesOk(pt, pc)
    {
      InstrExact(pt, pc);
    }
  }

  // ---- What the tracing takes for a change ----

  /** Registers that symbexec does not see written. */
  predicate Overlooked(w: Word, r: nat) {
    var op, a, b, c := OpOf(w), ArgA(w), ArgB(w), ArgC(w);
    || (op == OP_LOADNIL && b < a && r == b)
    || (op == OP_CONCAT && r != a && b <= r <= c)
    || (op == OP_FORLOOP && r == a + 3)
    || (op == OP_FORPREP && a < r <= a + 2)
    || (op == OP_VARARG && a < r && (b == 0 || r < a + b - 1))
  }

  /** What symbexec takes for a change and the machine does not write: TEST has the mark for setting A. */
  predicate Imagined(w: Word, r: nat) {
    var op, a, b := OpOf(w), ArgA(w), ArgB(w);
    r == a && (op == OP_TEST || (op == OP_LOADNIL && b < a) || (op == OP_VARARG && b == 1))
  }

  lemma ChangesExact(w: Word, r: nat)
    requires OpOf(w) < 38
    ensures Changes(w, r) <==> (Writes(w, r) && !Overlooked(w, r)) || Imagined(w, r)
  {
  }

  // ---- Instruction words ----

  /** The fields of an instruction word: 6 bits for the opcode, 8 for A, and 9 each for C and B, which together are
      Bx, or sBx when 131071 is subtracted. */
  lemma FieldsOf(op: nat, a: nat, b: nat, c: nat)
    requires op < 64 && a < 256 && b < 512 && c < 512
    ensures var w := op + 64 * (a + 256 * (c + 512 * b));
            && w < 0x1_0000_0000
            && OpOf(w) == op && ArgA(w) == a && ArgB(w) == b && ArgC(w) == c
            && ArgBx(w) == c + 512 * b && ArgSBx(w) == c + 512 * b - 131071
  {
    var bx := c + 512 * b;
    var q := a + 256 * bx;
    var w := op + 64 * q;
    assert w / 64 == q && q % 256 == a;
    assert w == op + 64 * a + 0x4000 * bx && w / 0x4000 == bx && bx % 512 == c;
    assert w == op + 64 * a + 0x4000 * c + 0x80_0000 * b && w / 0x80_0000 == b;
  }
}
