/** The bytecode checker (symbexec of ldebug.c) and the control flow of the machine (luaV_execute of
    lvm.c) on instruction words (lopcodes.h). */
module Checker {

  datatype Option<+T> = None | Some(value: T)

  // ---- Instruction words ----

  type Word = w: int | 0 <= w < 0x1_0000_0000

  function OpOf(w: Word): nat {
    w % 64
  }

  function ArgA(w: Word): nat {
    w / 64 % 256
  }

  function ArgC(w: Word): nat {
    w / 0x4000 % 512
  }

  function ArgB(w: Word): nat {
    w / 0x80_0000
  }

  function ArgBx(w: Word): nat {
    w / 0x4000
  }

  function ArgSBx(w: Word): int {
    w / 0x4000 - 131071
  }

  const OP_MOVE := 0
  const OP_LOADK := 1
  const OP_LOADBOOL := 2
  const OP_LOADNIL := 3
  const OP_GETUPVAL := 4
  const OP_GETGLOBAL := 5
  const OP_GETTABLE := 6
  const OP_SETGLOBAL := 7
  const OP_SETUPVAL := 8
  const OP_SETTABLE := 9
  const OP_NEWTABLE := 10
  const OP_SELF := 11
  const OP_ADD := 12
  const OP_SUB := 13
  const OP_MUL := 14
  const OP_DIV := 15
  const OP_MOD := 16
  const OP_POW := 17
  const OP_UNM := 18
  const OP_NOT := 19
  const OP_LEN := 20
  const OP_CONCAT := 21
  const OP_JMP := 22
  const OP_EQ := 23
  const OP_LT := 24
  const OP_LE := 25
  const OP_TEST := 26
  const OP_TESTSET := 27
  const OP_CALL := 28
  const OP_TAILCALL := 29
  const OP_RETURN := 30
  const OP_FORLOOP := 31
  const OP_FORPREP := 32
  const OP_TFORLOOP := 33
  const OP_SETLIST := 34
  const OP_CLOSE := 35
  const OP_CLOSURE := 36
  const OP_VARARG := 37
  const NUM_OPCODES := 38

  datatype Mode = ABC | ABx | AsBx

  datatype ArgMode = ArgN | ArgU | ArgR | ArgK

  /** luaP_opmodes: the format of an instruction and the use of its arguments. */
  function ModeOf(op: nat): Mode {
    if op in {OP_LOADK, OP_GETGLOBAL, OP_SETGLOBAL, OP_CLOSURE} then ABx
    else if op in {OP_JMP, OP_FORLOOP, OP_FORPREP} then AsBx
    else ABC
  }

  function BMode(op: nat): ArgMode {
    if op in {OP_MOVE, OP_LOADNIL, OP_GETTABLE, OP_SELF, OP_UNM, OP_NOT, OP_LEN, OP_CONCAT, OP_JMP, OP_TEST, OP_TESTSET,
              OP_FORLOOP, OP_FORPREP} then ArgR
    else if op in {OP_LOADK, OP_GETGLOBAL, OP_SETGLOBAL, OP_SETTABLE, OP_ADD, OP_SUB, OP_MUL, OP_DIV, OP_MOD, OP_POW,
                   OP_EQ, OP_LT, OP_LE} then ArgK
    else if op in {OP_TFORLOOP, OP_CLOSE} then ArgN
    else ArgU
  }

  function CMode(op: nat): ArgMode {
    if op in {OP_GETTABLE, OP_SETTABLE, OP_SELF, OP_ADD, OP_SUB, OP_MUL, OP_DIV, OP_MOD, OP_POW, OP_EQ, OP_LT,
              OP_LE} then
      ArgK
    else if op == OP_CONCAT then ArgR
    else if op in {OP_LOADBOOL, OP_NEWTABLE, OP_TEST, OP_TESTSET, OP_CALL, OP_TAILCALL, OP_TFORLOOP,
                   OP_SETLIST} then
      ArgU
    else ArgN
  }

  predicate SetsA(op: nat) {
    op !in {OP_SETGLOBAL, OP_SETUPVAL, OP_SETTABLE, OP_JMP, OP_EQ, OP_LT, OP_LE, OP_RETURN, OP_TFORLOOP, OP_SETLIST,
            OP_CLOSE}
  }

  predicate TestMode(op: nat) {
    op in {OP_EQ, OP_LT, OP_LE, OP_TEST, OP_TESTSET, OP_TFORLOOP}
  }

  // ---- Prototypes ----

  const MAXSTACK := 250
  const NO_REG := 255
  const LUA_MULTRET := -1

  /** What the checker looks at: of each constant whether it is a string, of each nested prototype
      how many upvalues it has. */
  datatype Proto = Proto(code: seq<Word>, k: seq<bool>, p: seq<nat>, nups: nat, sizeupvalues: nat, sizelineinfo: nat,
                         numparams: nat, hasarg: bool, isvararg: bool, needsarg: bool, maxstacksize: nat)

  predicate Precheck(pt: Proto) {
    && pt.maxstacksize <= MAXSTACK
    && pt.numparams + (if pt.hasarg then 1 else 0) <= pt.maxstacksize
    && (pt.needsarg ==> pt.hasarg)
    && pt.sizeupvalues <= pt.nups
    && (pt.sizelineinfo == |pt.code| || pt.sizelineinfo == 0)
    && |pt.code| > 0 && OpOf(pt.code[|pt.code| - 1]) == OP_RETURN
  }

  // ---- Where instructions start ----

  /** A SETLIST whose operand is in the next word, or a word that looks like one. */
  predicate LongSetlist(w: Word) {
    OpOf(w) == OP_SETLIST && ArgC(w) == 0
  }

  /** Reading the code from its beginning, position p starts an instruction: the word before it is not
      a SETLIST whose operand it is. */
  predicate IsStart(code: seq<Word>, p: nat)
    requires p <= |code|
    decreases p
  {
    p == 0 || !(IsStart(code, p - 1) && LongSetlist(code[p - 1]))
  }

  /** How many words that look like a long SETLIST stand right before position p. */
  function RunBefore(code: seq<Word>, p: nat): (j: nat)
    requires p <= |code|
    ensures j <= p
    decreases p
  {
    if p > 0 && LongSetlist(code[p - 1]) then 1 + RunBefore(code, p - 1) else 0
  }

  /** The parity test of symbexec decides exactly whether a jump goes to the start of an instruction. */
  lemma {:induction false} ParityTest(code: seq<Word>, p: nat)
    requires p <= |code|
    ensures IsStart(code, p) <==> RunBefore(code, p) % 2 == 0
    decreases p
  {
    if p == 0 || !LongSetlist(code[p - 1]) {
    } else {
      ParityTest(code, p - 1);
    }
  }

  // ---- The checks ----

  predicate RegOk(pt: Proto, r: int) {
    r < pt.maxstacksize
  }

  predicate ArgOk(pt: Proto, r: nat, mode: ArgMode) {
    match mode
    case ArgN => r == 0
    case ArgU => true
    case ArgR => RegOk(pt, r)
    case ArgK => if r >= 256 then r - 256 < |pt.k| else r < pt.maxstacksize
  }

  predicate JumpOk(pt: Proto, dest: int) {
    0 <= dest < |pt.code| && RunBefore(pt.code, dest) % 2 == 0
  }

  /** luaG_checkopenop. */
  predicate OpenOk(w: Word) {
    OpOf(w) in {OP_CALL, OP_TAILCALL, OP_RETURN, OP_SETLIST} && ArgB(w) == 0
  }

  predicate OperandsOk(pt: Proto, pc: nat)
    requires pc < |pt.code|
  {
    var i := pt.code[pc];
    var op := OpOf(i);
    match ModeOf(op)
    case ABC => ArgOk(pt, ArgB(i), BMode(op)) && ArgOk(pt, ArgC(i), CMode(op))
    case ABx => BMode(op) == ArgK ==> ArgBx(i) < |pt.k|
    case AsBx => JumpOk(pt, pc + 1 + ArgSBx(i))
  }

  /** The pseudo-instructions that follow a CLOSURE. */
  predicate CapturesOk(pt: Proto, pc: nat, nup: nat) {
    pc + nup < |pt.code| && forall q | pc < q <= pc + nup :: OpOf(pt.code[q]) in {OP_GETUPVAL, OP_MOVE}
  }

  /** The checks of the main switch of symbexec (ldebug.c:373-472). */
  predicate SwitchOk(pt: Proto, pc: nat)
    requires pc < |pt.code|
  {
    var i := pt.code[pc];
    var op, a, b, c := OpOf(i), ArgA(i), ArgB(i), ArgC(i);
    if op == OP_LOADBOOL then c == 1 ==> pc + 2 < |pt.code| && !LongSetlist(pt.code[pc + 1])
    else if op == OP_GETUPVAL || op == OP_SETUPVAL then b < pt.nups
    else if op == OP_GETGLOBAL || op == OP_SETGLOBAL then ArgBx(i) < |pt.k| && pt.k[ArgBx(i)]
    else if op == OP_SELF then RegOk(pt, a + 1)
    else if op == OP_CONCAT then b < c
    else if op == OP_TFORLOOP then c >= 1 && RegOk(pt, a + 2 + c)
    else if op == OP_FORLOOP || op == OP_FORPREP then RegOk(pt, a + 3)
    else if op == OP_CALL || op == OP_TAILCALL then
      && (b != 0 ==> RegOk(pt, a + b - 1))
      && (if c == 0 then pc + 1 < |pt.code| && OpenOk(pt.code[pc + 1]) else c != 1 ==> RegOk(pt, a + c - 2))
    else if op == OP_RETURN then b > 1 ==> RegOk(pt, a + b - 2)
    else if op == OP_SETLIST then (b > 0 ==> RegOk(pt, a + b)) && (c == 0 ==> pc + 1 < |pt.code| - 1)
    else if op == OP_CLOSURE then ArgBx(i) < |pt.p| && CapturesOk(pt, pc, pt.p[ArgBx(i)])
    else if op == OP_VARARG then
      && pt.isvararg && !pt.needsarg
      && (b == 0 ==> pc + 1 < |pt.code| && OpenOk(pt.code[pc + 1])) && RegOk(pt, a + b - 2)
    else true
  }

  predicate InstrOk(pt: Proto, pc: nat)
    requires pc < |pt.code|
  {
    var i := pt.code[pc];
    && OpOf(i) < NUM_OPCODES && RegOk(pt, ArgA(i)) && OperandsOk(pt, pc)
    && (TestMode(OpOf(i)) ==> pc + 2 < |pt.code| && OpOf(pt.code[pc + 1]) == OP_JMP)
    && SwitchOk(pt, pc)
  }

  /** What a full check establishes: every instruction, wherever the code can be read as one, is in order. */
  ghost predicate CodeOk(pt: Proto) {
    Precheck(pt) && forall pc | 0 <= pc < |pt.code| && IsStart(pt.code, pc) :: InstrOk(pt, pc)
  }

  // ---- symbexec ----

  /** The backward scan for long SETLISTs (ldebug.c:348-360). */
  method CountSetlists(code: seq<Word>, dest: nat) returns (j: nat)
    requires dest <= |code|
    ensures j == RunBefore(code, dest)
  {
    j := 0;
    while j < dest && LongSetlist(code[dest - 1 - j])
      invariant j <= dest && RunBefore(code, dest) == j + RunBefore(code, dest - j)
    {
      j := j + 1;
    }
  }

  method CheckOperands(pt: Proto, pc: nat) returns (ok: bool)
    requires pc < |pt.code|
    ensures ok == OperandsOk(pt, pc)
  {
    var i := pt.code[pc];
    var op := OpOf(i);
    match ModeOf(op) {
      case ABC => ok := ArgOk(pt, ArgB(i), BMode(op)) && ArgOk(pt, ArgC(i), CMode(op));
      case ABx => ok := BMode(op) == ArgK ==> ArgBx(i) < |pt.k|;
      case AsBx =>
        var dest := pc + 1 + ArgSBx(i);
        ok := 0 <= dest < |pt.code|;
        if ok && dest > 0 {
          var j := CountSetlists(pt.code, dest);
          ok := j % 2 == 0;
        }
    }
  }

  method CheckCaptures(pt: Proto, pc: nat, nup: nat) returns (ok: bool)
    ensures ok == CapturesOk(pt, pc, nup)
  {
    if pc + nup >= |pt.code| {
      return false;
    }
    for j := 1 to nup + 1
      invariant forall q | pc < q < pc + j :: OpOf(pt.code[q]) in {OP_GETUPVAL, OP_MOVE}
    {
      if OpOf(pt.code[pc + j]) != OP_GETUPVAL && OpOf(pt.code[pc + j]) != OP_MOVE {
        return false;
      }
    }
    return true;
  }

  /** Whether the instruction at pc changes register reg (the assignments to `last`). */
  predicate Changes(i: Word, reg: nat) {
    var op, a := OpOf(i), ArgA(i);
    || (SetsA(op) && a == reg)
    || (op == OP_LOADNIL && a <= reg <= ArgB(i))
    || (op == OP_SELF && reg == a + 1)
    || (op == OP_TFORLOOP && reg >= a + 2)
    || ((op == OP_CALL || op == OP_TAILCALL) && reg >= a)
  }

  /** In a full check the instructions taken for changing NO_REG are calls and loops, whose words are not 0. */
  lemma ChangesAny(pt: Proto, pc: nat)
    requires Precheck(pt) && pc < |pt.code| && InstrOk(pt, pc) && Changes(pt.code[pc], NO_REG)
    ensures pt.code[pc] != 0
  {
  }

  /** Where symbexec looks next: a full check goes on word by word, tracing follows forward jumps inside the
      part and leaves out the pseudo-instructions of a CLOSURE. */
  predicate Follows(pt: Proto, pc: nat, lastpc: nat, full: bool, next: nat)
    requires pc < |pt.code|
  {
    var i := pt.code[pc];
    var op, dest := OpOf(i), pc + 1 + ArgSBx(i);
    if op in {OP_JMP, OP_FORLOOP, OP_FORPREP} && !full && pc < dest <= lastpc then next == dest
    else if LongSetlist(i) then next == pc + 2
    else if op == OP_CLOSURE && !full then ArgBx(i) < |pt.p| && next == pc + pt.p[ArgBx(i)] + 1
    else next == pc + 1
  }

  function Then(path: seq<nat>, k: nat, pc: nat): nat {
    if k + 1 < |path| then path[k + 1] else pc
  }

  /** The positions that symbexec looks at before it comes to `pc`. */
  ghost predicate Traced(pt: Proto, path: seq<nat>, lastpc: nat, full: bool, pc: nat) {
    && (forall k | 0 <= k < |path| :: path[k] < lastpc && path[k] < |pt.code|)
    && (path == [] ==> pc == 0) && (path != [] ==> path[0] == 0)
    && forall k | 0 <= k < |path| :: Follows(pt, path[k], lastpc, full, Then(path, k, pc))
  }

  predicate ChangesAt(pt: Proto, p: nat, reg: nat) {
    p < |pt.code| && Changes(pt.code[p], reg)
  }

  /** The last of these instructions that changes the register, the final RETURN if there is none. */
  ghost predicate LastChange(pt: Proto, path: seq<nat>, reg: nat, last: nat) {
    || (last == |pt.code| - 1 && forall k | 0 <= k < |path| :: !ChangesAt(pt, path[k], reg))
    || exists k | 0 <= k < |path| :: last == path[k] && ChangesAt(pt, path[k], reg) &&
                                     forall l | k < l < |path| :: !ChangesAt(pt, path[l], reg)
  }

  /** luaG_checkopenop, on the instruction after an open call. */
  method CheckOpenOp(pt: Proto, pc: nat) returns (ok: bool)
    requires pc < |pt.code|
    ensures ok <==> pc + 1 < |pt.code| && OpenOk(pt.code[pc + 1])
  {
    if pc + 1 >= |pt.code| {
      return false;
    }
    var i := pt.code[pc + 1];
    var op := OpOf(i);
    if op == OP_CALL || op == OP_TAILCALL || op == OP_RETURN || op == OP_SETLIST {
      return ArgB(i) == 0;
    }
    return false;
  }

  /** The main switch of symbexec. */
  method CheckSwitch(pt: Proto, pc: nat) returns (ok: bool)
    requires pc < |pt.code|
    ensures ok == SwitchOk(pt, pc)
  {
    var i := pt.code[pc];
    var op, a := OpOf(i), ArgA(i);
    var b := if ModeOf(op) == ABC then ArgB(i) else ArgBx(i);
    var c := ArgC(i);
    if op == OP_LOADBOOL {
      if c == 1 {
        if pc + 2 >= |pt.code| {
          return false;
        }
        var next := pt.code[pc + 1];
        if OpOf(next) == OP_SETLIST && ArgC(next) == 0 {
          return false;
        }
      }
    } else if op == OP_GETUPVAL || op == OP_SETUPVAL {
      return b < pt.nups;
    } else if op == OP_GETGLOBAL || op == OP_SETGLOBAL {
      if b >= |pt.k| {
        return false;
      }
      return pt.k[b];
    } else if op == OP_SELF {
      return a + 1 < pt.maxstacksize;
    } else if op == OP_CONCAT {
      return b < c;
    } else if op == OP_TFORLOOP {
      if c < 1 {
        return false;
      }
      return a + 2 + c < pt.maxstacksize;
    } else if op == OP_FORLOOP || op == OP_FORPREP {
      return a + 3 < pt.maxstacksize;
    } else if op == OP_CALL || op == OP_TAILCALL {
      if b != 0 && a + b - 1 >= pt.maxstacksize {
        return false;
      }
      c := c - 1;
      if c == LUA_MULTRET {
        ok := CheckOpenOp(pt, pc);
        return;
      } else if c != 0 {
        return a + c - 1 < pt.maxstacksize;
      }
    } else if op == OP_RETURN {
      b := b - 1;
      if b > 0 {
        return a + b - 1 < pt.maxstacksize;
      }
    } else if op == OP_SETLIST {
      if b > 0 && a + b >= pt.maxstacksize {
        return false;
      }
      if c == 0 {
        return pc + 1 < |pt.code| - 1;
      }
    } else if op == OP_CLOSURE {
      if b >= |pt.p| {
        return false;
      }
      ok := CheckCaptures(pt, pc, pt.p[b]);
      return;
    } else if op == OP_VARARG {
      if !pt.isvararg || pt.needsarg {
        return false;
      }
      b := b - 1;
      if b == LUA_MULTRET {
        ok := CheckOpenOp(pt, pc);
        if !ok {
          return;
        }
      }
      return a + b - 1 < pt.maxstacksize;
    }
    return true;
  }

  /** The checks of one instruction. */
  method CheckInstr(pt: Proto, pc: nat) returns (ok: bool)
    requires pc < |pt.code|
    ensures ok == InstrOk(pt, pc)
  {
    var i := pt.code[pc];
    var op := OpOf(i);
    if op >= NUM_OPCODES || !RegOk(pt, ArgA(i)) {
      return false;
    }
    ok := CheckOperands(pt, pc);
    if !ok {
      return;
    }
    if TestMode(op) && !(pc + 2 < |pt.code| && OpOf(pt.code[pc + 1]) == OP_JMP) {
      return false;
    }
    ok := CheckSwitch(pt, pc);
  }

  /** The steps of pc in symbexec, after the checks. */
  method NextPc(pt: Proto, pc: nat, lastpc: nat, full: bool) returns (next: nat)
    requires pc < |pt.code| && InstrOk(pt, pc)
    ensures Follows(pt, pc, lastpc, full, next) && next > pc
  {
    var i := pt.code[pc];
    var op, dest := OpOf(i), pc + 1 + ArgSBx(i);
    if (op == OP_JMP || op == OP_FORLOOP || op == OP_FORPREP) && !full && pc < dest <= lastpc {
      next := dest;
    } else if op == OP_SETLIST && ArgC(i) == 0 {
      next := pc + 2;
    } else if op == OP_CLOSURE && !full {
      next := pc + pt.p[ArgBx(i)] + 1;
    } else {
      next := pc + 1;
    }
  }

  /** A full check goes from instruction to instruction. */
  lemma NextStart(pt: Proto, pc: nat, lastpc: nat, next: nat)
    requires pc < |pt.code| && IsStart(pt.code, pc) && InstrOk(pt, pc) && Follows(pt, pc, lastpc, true, next)
    ensures pc < next <= |pt.code| && IsStart(pt.code, next)
    ensures forall q | pc < q < next :: !IsStart(pt.code, q)
  {
  }

  lemma NothingTraced(pt: Proto, lastpc: nat, reg: nat)
    requires |pt.code| > 0
    ensures Traced(pt, [], lastpc, reg == NO_REG, 0) && LastChange(pt, [], reg, |pt.code| - 1)
  {
  }

  lemma LastChangeMore(pt: Proto, path: seq<nat>, pc: nat, reg: nat, last: nat)
    requires if ChangesAt(pt, pc, reg) then last == pc else LastChange(pt, path, reg, last)
    ensures LastChange(pt, path + [pc], reg, last)
  {
    var p := path + [pc];
    if ChangesAt(pt, pc, reg) {
      assert p[|path|] == pc;
    } else if k :| 0 <= k < |path| && last == path[k] && ChangesAt(pt, path[k], reg) &&
                   forall l | k < l < |path| :: !ChangesAt(pt, path[l], reg) {
      assert p[k] == last;
    }
  }

  lemma TracedMore(pt: Proto, path: seq<nat>, lastpc: nat, full: bool, pc: nat, next: nat)
    requires Traced(pt, path, lastpc, full, pc) && pc < lastpc && pc < |pt.code| && Follows(pt, pc, lastpc, full, next)
    ensures Traced(pt, path + [pc], lastpc, full, next)
  {
    hide Follows;
    var p := path + [pc];
    forall k | 0 <= k < |p|
      ensures Follows(pt, p[k], lastpc, full, Then(p, k, next))
    {
      assert k < |path| ==> Follows(pt, path[k], lastpc, full, Then(path, k, pc));
    }
  }

  /** symbexec: check the code up to lastpc, and find the last instruction that changed register reg;
      with NO_REG every instruction is looked at, otherwise forward jumps within the part are followed. */
  method Symbexec(pt: Proto, lastpc: nat, reg: nat) returns (r: Option<Word>, ghost path: seq<nat>, ghost end: nat)
    requires lastpc <= |pt.code|
    ensures reg == NO_REG && lastpc == |pt.code| ==> (r.Some? <==> CodeOk(pt))
    ensures reg == NO_REG && lastpc == |pt.code| && r.Some? ==> r.value != 0
    ensures r.Some? ==> Precheck(pt) && end >= lastpc && Traced(pt, path, lastpc, reg == NO_REG, end)
    ensures r.Some? ==> exists last: nat | last < |pt.code| ::
                r.value == pt.code[last] && LastChange(pt, path, reg, last)
  {
    hide LastChange, Traced, InstrOk, Follows, Changes;
    path, end := [], 0;
    if !Precheck(pt) {
      return None, path, end;
    }
    var full := reg == NO_REG;
    var last := |pt.code| - 1;
    var pc := 0;
    NothingTraced(pt, lastpc, reg);
    while pc < lastpc
      invariant 0 <= pc && (full ==> pc <= |pt.code| && IsStart(pt.code, pc))
      invariant 0 <= last < |pt.code| && Precheck(pt)
      invariant full ==> forall q | 0 <= q < pc && q < |pt.code| && IsStart(pt.code, q) :: InstrOk(pt, q)
      invariant full ==> pt.code[last] != 0
      invariant Traced(pt, path, lastpc, full, pc) && LastChange(pt, path, reg, last)
      decreases lastpc - pc
    {
      var ok := CheckInstr(pt, pc);
      if !ok {
        return None, path, end;
      }
      ghost var was := path;
      path := path + [pc];
      if Changes(pt.code[pc], reg) {
        if full { ChangesAny(pt, pc); }
        last := pc;
      }
      LastChangeMore(pt, was, pc, reg, last);
      var next := NextPc(pt, pc, lastpc, full);
      TracedMore(pt, was, lastpc, full, pc, next);
      if full { NextStart(pt, pc, lastpc, next); }
      pc := next;
    }
    return Some(pt.code[last]), path, pc;
  }

  /** luaG_checkcode. */
  method CheckCode(pt: Proto) returns (ok: bool)
    ensures ok <==> CodeOk(pt)
  {
    var r, path, end := Symbexec(pt, |pt.code|, NO_REG);
    ok := r != None && r.value != 0;
  }

  // ---- The machine ----

  /** The positions from which luaV_execute may fetch its next instruction after the one at pc,
      whatever the values are. */
  function Successors(pt: Proto, pc: nat): set<int>
    requires pc < |pt.code|
  {
    var i := pt.code[pc];
    var op := OpOf(i);
    if op == OP_JMP || op == OP_FORPREP then {pc + 1 + ArgSBx(i)}
    else if op == OP_FORLOOP then {pc + 1, pc + 1 + ArgSBx(i)}
    else if TestMode(op) then {pc + 2} + if pc + 1 < |pt.code| then {pc + 2 + ArgSBx(pt.code[pc + 1])} else {}
    else if op == OP_LOADBOOL then {if ArgC(i) != 0 then pc + 2 else pc + 1}
    else if op == OP_SETLIST then {if ArgC(i) == 0 then pc + 2 else pc + 1}
    else if op == OP_CLOSURE then {pc + 1 + if ArgBx(i) < |pt.p| then pt.p[ArgBx(i)] else 0}
    else if op == OP_RETURN then {}
    else {pc + 1}
  }

  /** An instruction may be fetched from here: a position inside the code that starts an instruction. */
  predicate Fetchable(pt: Proto, pc: int) {
    0 <= pc < |pt.code| && IsStart(pt.code, pc)
  }

  /** A LOADBOOL that the machine takes as a skip though symbexec does not look at it as one. */
  predicate UncheckedSkip(w: Word) {
    OpOf(w) == OP_LOADBOOL && ArgC(w) > 1
  }

  predicate SkipOk(pt: Proto, pc: int) {
    0 <= pc && pc + 2 < |pt.code| && !LongSetlist(pt.code[pc + 1])
  }

  lemma {:induction false} PseudoStarts(code: seq<Word>, pc: nat, n: nat)
    requires pc + n < |code| && IsStart(code, pc) && forall q | pc <= q < pc + n :: !LongSetlist(code[q])
    ensures IsStart(code, pc + n)
    decreases n
  {
    if n == 0 {
    } else {
      PseudoStarts(code, pc, n - 1);
    }
  }

  /** One step of the machine in checked code. */
  lemma StepSafe(pt: Proto, pc: nat, next: int)
    requires CodeOk(pt) && Fetchable(pt, pc) && next in Successors(pt, pc)
    requires UncheckedSkip(pt.code[pc]) ==> SkipOk(pt, pc)
    ensures Fetchable(pt, next)
  {
    var code, i := pt.code, pt.code[pc];
    var op := OpOf(i);
    assert InstrOk(pt, pc);
    if op == OP_JMP || op == OP_FORPREP || op == OP_FORLOOP {
      var dest := pc + 1 + ArgSBx(i);
      ParityTest(code, dest);
    } else if TestMode(op) {
      assert IsStart(code, pc + 1) && InstrOk(pt, pc + 1);
      ParityTest(code, pc + 2 + ArgSBx(code[pc + 1]));
      assert IsStart(code, pc + 2);
    } else if op == OP_CLOSURE {
      var nup := pt.p[ArgBx(i)];
      assert nup > 0 ==> OpOf(code[pc + nup]) in {OP_GETUPVAL, OP_MOVE};
      PseudoStarts(code, pc, nup + 1);
    }
  }

  /** What goes wrong without the guard: the next fetch is past the code or on an operand. */
  lemma SkipExact(pt: Proto, pc: nat)
    requires CodeOk(pt) && Fetchable(pt, pc) && UncheckedSkip(pt.code[pc])
    ensures Fetchable(pt, pc + 2) <==> SkipOk(pt, pc)
  {
    assert IsStart(pt.code, pc + 1);
  }

  /** Steps of checked code lead from instruction to instruction exactly when every LOADBOOL with an
      operand above 1, none of which the code generator emits, skips a whole instruction. */
  lemma StepsExact(pt: Proto)
    requires CodeOk(pt)
    ensures (forall pc, next | Fetchable(pt, pc) && next in Successors(pt, pc) :: Fetchable(pt, next))
            <==> (forall pc | Fetchable(pt, pc) && UncheckedSkip(pt.code[pc]) :: SkipOk(pt, pc))
  {
    if forall pc | Fetchable(pt, pc) && UncheckedSkip(pt.code[pc]) :: SkipOk(pt, pc) {
      forall pc, next | Fetchable(pt, pc) && next in Successors(pt, pc)
        ensures Fetchable(pt, next)
      {
        StepSafe(pt, pc, next);
      }
    } else {
      var pc :| Fetchable(pt, pc) && UncheckedSkip(pt.code[pc]) && !SkipOk(pt, pc);
      SkipExact(pt, pc);
      assert pc + 2 in Successors(pt, pc);
    }
  }

  /** The positions that a run of the machine fetches from, beginning at 0; it ends where it can go
      wrong. */
  ghost predicate IsRun(pt: Proto, s: seq<int>) {
    && |s| > 0 && s[0] == 0
    && forall i | 0 <= i < |s| - 1 :: 0 <= s[i] < |pt.code| && s[i + 1] in Successors(pt, s[i])
  }

  /** The machine never leaves checked code, nor runs an operand as an instruction, when LOADBOOL has
      operands 0 and 1 only (lcode.c:337-352). */
  lemma {:induction false} RunSafe(pt: Proto, s: seq<int>)
    requires CodeOk(pt) && IsRun(pt, s)
    requires forall pc | Fetchable(pt, pc) :: !UncheckedSkip(pt.code[pc])
    ensures forall i | 0 <= i < |s| :: Fetchable(pt, s[i])
    decreases |s|
  {
    if |s| <= 1 {
    } else {
      var t := s[..|s| - 1];
      assert forall i | 0 <= i < |t| :: t[i] == s[i];
      RunSafe(pt, t);
      assert t[|t| - 1] == s[|s| - 2];
      StepSafe(pt, s[|s| - 2], s[|s| - 1]);
      assert forall i | 0 <= i < |t| :: s[i] == t[i];
    }
  }

  predicate GoodEnd(pt: Proto, s: seq<int>) {
    |s| > 0 && Fetchable(pt, s[|s| - 1])
  }

  lemma {:induction false} GuardedRun(pt: Proto, s: seq<int>)
    requires CodeOk(pt) && IsRun(pt, s)
    requires forall s | IsRun(pt, s) && GoodEnd(pt, s) && UncheckedSkip(pt.code[s[|s| - 1]]) :: SkipOk(pt, s[|s| - 1])
    ensures Fetchable(pt, s[|s| - 1])
    decreases |s|
  {
    if |s| <= 1 {
    } else {
      var t := s[..|s| - 1];
      assert forall i | 0 <= i < |t| :: t[i] == s[i];
      assert IsRun(pt, t);
      GuardedRun(pt, t);
      assert GoodEnd(pt, t) && t[|t| - 1] == s[|s| - 2];
      StepSafe(pt, s[|s| - 2], s[|s| - 1]);
    }
  }

  /** ... and for every checked prototype, exactly when each such LOADBOOL that a run can come to skips
      a whole instruction. */
  lemma RunsExact(pt: Proto)
    requires CodeOk(pt)
    ensures (forall s | IsRun(pt, s) :: Fetchable(pt, s[|s| - 1]))
            <==> (forall s | IsRun(pt, s) && GoodEnd(pt, s) && UncheckedSkip(pt.code[s[|s| - 1]]) ::
              SkipOk(pt, s[|s| - 1]))
  {
    if forall s | IsRun(pt, s) && GoodEnd(pt, s) && UncheckedSkip(pt.code[s[|s| - 1]]) :: SkipOk(pt, s[|s| - 1]) {
      forall s | IsRun(pt, s)
        ensures Fetchable(pt, s[|s| - 1])
      {
        GuardedRun(pt, s);
      }
    } else {
      var s :| IsRun(pt, s) && GoodEnd(pt, s) && UncheckedSkip(pt.code[s[|s| - 1]]) && !SkipOk(pt, s[|s| - 1]);
      var pc := s[|s| - 1];
      var t := s + [pc + 2];
      assert IsRun(pt, t);
      SkipExact(pt, pc);
      assert t[|t| - 1] == pc + 2;
    }
  }

  /** A prototype that passes the check although its first instruction, LOADBOOL 0 0 2, skips past the
      end of the code. */
  lemma UncheckedExample()
    ensures var pt := Proto([32770, 8388638], [], [], 0, 0, 0, 0, false, false, false, 2);
            CodeOk(pt) && IsRun(pt, [0, 2]) && !Fetchable(pt, 2)
  {
    var pt := Proto([32770, 8388638], [], [], 0, 0, 0, 0, false, false, false, 2);
    assert OpOf(32770) == OP_LOADBOOL && ArgA(32770) == 0 && ArgB(32770) == 0 && ArgC(32770) == 2;
    assert OpOf(8388638) == OP_RETURN && ArgA(8388638) == 0 && ArgB(8388638) == 1 && ArgC(8388638) == 0;
    assert InstrOk(pt, 0) && InstrOk(pt, 1);
    assert Successors(pt, 0) == {2};
  }
}
