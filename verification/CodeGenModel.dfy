/** The code generator of `lcode.c` with its jump lists taken as sets.

  A list of pending jumps is threaded through the jumps themselves in the
  source; here it is the set of their positions, and the destination field of a
  pending jump means nothing. `CodeGenHeap` proves that the threaded lists
  implement these sets. */
module CodeGenModel {
  import opened LuaVm

  const NO_JUMP := -1
  const MAXREGS := 250
  const MAXINDEXRK := 255
  const MAXARG_Ax := 67108863

  /** `FuncState`: code, jumps waiting for the next instruction, the position of
      the last label, register allocation, the constants with the scanner's
      index of them, and whether no syntax error was raised. */
  datatype Fs = Fs(
    code: seq<Instr>,
    jpc: set<nat>,
    lasttarget: nat,
    freereg: int,
    nactvar: nat,
    maxstack: int,
    k: seq<Value>,
    h: map<Value, nat>,
    ok: bool)

  datatype Kind =
    | VNil | VTrue | VFalse
    | VK(idx: int) | VKInt(i: int) | VKFlt(r: real)
    | VLocal(reg: int) | VNonReloc(reg: int)
    | VReloc(pc: int) | VJmp(pc: int)

  /** `expdesc`: kind, and the exits taken when the value is true or false. */
  datatype Exp = Exp(k: Kind, t: set<nat>, f: set<nat>)

  predicate HasJumps(e: Exp) {
    e.t != {} || e.f != {}
  }

  // ---- jump lists ----

  function Abs(x: int): nat {
    if x < 0 then -x else x
  }

  /** Destination a jump of a list gets: `vt` if a TESTSET controls it. */
  function Target(code: seq<Instr>, p: nat, vt: int, dt: int): int {
    if SetsValue(code, p) then vt else dt
  }

  /** `patchtestreg` and `fixjump` on one instruction. */
  function PatchAt(code: seq<Instr>, L: set<nat>, vt: int, reg: int, dt: int, i: nat): Instr
    requires i < |code|
  {
    if i in L then (if code[i].Jmp? then Jmp(code[i].a, Target(code, i, vt, dt) - (i + 1)) else code[i])
    else if i + 1 in L && code[i].TestSet? then PatchTest(code[i], reg)
    else code[i]
  }

  function PatchTest(i: Instr, reg: int): Instr
    requires i.TestSet?
  {
    if reg != NO_REG && reg != i.b then TestSet(reg, i.b, i.c) else Test(i.b, i.c)
  }

  /** `patchlistaux`. */
  function PatchList(code: seq<Instr>, L: set<nat>, vt: int, reg: int, dt: int): seq<Instr> {
    seq(|code|, i requires 0 <= i < |code| => PatchAt(code, L, vt, reg, dt, i))
  }

  /** `fixjump` raises an error when a destination is too far away. */
  predicate InReach(code: seq<Instr>, L: set<nat>, vt: int, dt: int) {
    forall p | p in L :: Abs(Target(code, p, vt, dt) - (p + 1)) <= MAXARG_sBx
  }

  function FixList(fs: Fs, L: set<nat>, vt: int, reg: int, dt: int): Fs {
    fs.(code := PatchList(fs.code, L, vt, reg, dt), ok := fs.ok && InReach(fs.code, L, vt, dt))
  }

  /** `removevalues`. */
  function RemoveValues(code: seq<Instr>, L: set<nat>): seq<Instr> {
    seq(|code|, i requires 0 <= i < |code| =>
      if i !in L && i + 1 in L && code[i].TestSet? then PatchTest(code[i], NO_REG) else code[i])
  }

  /** `need_value`: some jump of the list produces no value. */
  predicate NeedValue(code: seq<Instr>, L: set<nat>) {
    exists p | p in L :: !SetsValue(code, p)
  }

  /** `dischargejpc`. */
  function Discharge(fs: Fs): Fs {
    FixList(fs, fs.jpc, |fs.code|, NO_REG, |fs.code|).(jpc := {})
  }

  /** `luaK_code`. */
  function Code(fs: Fs, i: Instr): Fs {
    var d := Discharge(fs);
    d.(code := d.code + [i])
  }

  function GetLabel(fs: Fs): Fs {
    fs.(lasttarget := |fs.code|)
  }

  /** `luaK_jump`: jumps waiting for this position are kept on hold, together
      with the new jump. */
  function Jump(fs: Fs): (Fs, set<nat>) {
    (Code(fs.(jpc := {}), Jmp(0, NO_JUMP)), {|fs.code|} + fs.jpc)
  }

  function CondJump(fs: Fs, i: Instr): (Fs, set<nat>) {
    Jump(Code(fs, i))
  }

  function PatchToHere(fs: Fs, L: set<nat>): Fs {
    GetLabel(fs).(jpc := fs.jpc + L)
  }

  function CodeLabel(fs: Fs, a: int, b: int, c: int): Fs {
    Code(GetLabel(fs), LoadBool(a, b, c))
  }

  // ---- constants ----

  /** `addk`: reuse the index the scanner remembers, if it is right. */
  function AddK(fs: Fs, v: Value): (r: (Fs, int))
    ensures 0 <= r.1 < |r.0.k| && r.0.k[r.1] == v && fs.k <= r.0.k
  {
    if v in fs.h && fs.h[v] < |fs.k| && fs.k[fs.h[v]] == v then (fs, fs.h[v])
    else (fs.(k := fs.k + [v], h := fs.h[v := |fs.k|], ok := fs.ok && |fs.k| < MAXARG_Ax), |fs.k|)
  }

  function CodeK(fs: Fs, reg: int, k: int): Fs {
    if k <= MAXARG_Bx then Code(fs, LoadK(reg, k))
    else Code(Code(fs, LoadKX(reg)), ExtraArg(k))
  }

  // ---- registers ----

  function ReserveRegs(fs: Fs, n: int): Fs {
    var newstack := fs.freereg + n;
    if newstack > fs.maxstack then fs.(maxstack := newstack, freereg := newstack, ok := fs.ok && newstack < MAXREGS)
    else fs.(freereg := newstack)
  }

  function FreeReg(fs: Fs, reg: int): Fs {
    if reg < BITRK && reg >= fs.nactvar then fs.(freereg := fs.freereg - 1) else fs
  }

  function FreeExp(fs: Fs, e: Exp): Fs {
    if e.k.VNonReloc? then FreeReg(fs, e.k.reg) else fs
  }

  // ---- discharging ----

  function Min(a: int, b: int): int { if a < b then a else b }
  function Max(a: int, b: int): int { if a > b then a else b }

  /** `luaK_nil`: extend a LOADNIL just emitted when no jump lands here and the
      two register ranges touch. */
  predicate NilMerges(fs: Fs, from: int, n: int) {
    |fs.code| > fs.lasttarget && fs.code[|fs.code| - 1].LoadNil? &&
    var i := fs.code[|fs.code| - 1];
    i.a <= from <= i.a + i.b + 1 || from <= i.a <= from + n
  }

  function CodeNil(fs: Fs, from: int, n: int): Fs {
    if NilMerges(fs, from, n) then
      var i := fs.code[|fs.code| - 1];
      var lo := Min(from, i.a);
      fs.(code := fs.code[|fs.code| - 1 := LoadNil(lo, Max(from + n - 1, i.a + i.b) - lo)])
    else Code(fs, LoadNil(from, n - 1))
  }

  function DischargeVars(e: Exp): Exp {
    if e.k.VLocal? then e.(k := VNonReloc(e.k.reg)) else e
  }

  function SetA(i: Instr, a: int): Instr {
    match i
    case Not(_, b) => Not(a, b)
    case _ => i
  }

  function Discharge2Reg(fs: Fs, e0: Exp, reg: int): (Fs, Exp) {
    var e := DischargeVars(e0);
    var done := e.(k := VNonReloc(reg));
    match e.k
    case VNil => (CodeNil(fs, reg, 1), done)
    case VFalse => (Code(fs, LoadBool(reg, 0, 0)), done)
    case VTrue => (Code(fs, LoadBool(reg, 1, 0)), done)
    case VK(idx) => (CodeK(fs, reg, idx), done)
    case VKFlt(r) => var (fs1, k) := AddK(fs, Flt(r)); (CodeK(fs1, reg, k), done)
    case VKInt(i) => var (fs1, k) := AddK(fs, Int(i)); (CodeK(fs1, reg, k), done)
    case VReloc(pc) => (if 0 <= pc < |fs.code| then fs.(code := fs.code[pc := SetA(fs.code[pc], reg)]) else fs, done)
    case VNonReloc(r) => (if reg != r then Code(fs, Move(reg, r)) else fs, done)
    case _ => (fs, e)
  }

  function Discharge2AnyReg(fs: Fs, e: Exp): (Fs, Exp) {
    if e.k.VNonReloc? then (fs, e)
    else
      var fs1 := ReserveRegs(fs, 1);
      Discharge2Reg(fs1, e, fs1.freereg - 1)
  }

  /** The booleans for jumps that carry no value, with a jump around them unless
      the expression is itself a jump. */
  function Stage(fs: Fs, jmp: bool, reg: int): Fs {
    var (fs1, fj) := if jmp then (fs, {}) else Jump(fs);
    GetLabel(PatchToHere(CodeLabel(CodeLabel(fs1, reg, 0, 1), reg, 1, 0), fj))
  }

  function FixBoth(fs: Fs, e: Exp, reg: int, pf: int, pt: int): Fs {
    FixList(FixList(fs, e.f, |fs.code|, reg, pf), e.t, |fs.code|, reg, pt)
  }

  /** `exp2reg`, after the value itself is in place: materialise the booleans if
      some jump needs them, then send every exit to the end. */
  function CloseLists(fs: Fs, e: Exp, reg: int): Fs {
    if NeedValue(fs.code, e.t) || NeedValue(fs.code, e.f) then
      var fs4 := Stage(fs, e.k.VJmp?, reg);
      FixBoth(fs4, e, reg, |fs4.code| - 2, |fs4.code| - 1)
    else FixBoth(GetLabel(fs), e, reg, NO_JUMP, NO_JUMP)
  }

  function Exp2Reg(fs: Fs, e0: Exp, reg: int): (Fs, Exp) {
    var (fs1, e1) := Discharge2Reg(fs, e0, reg);
    var e2 := if e1.k.VJmp? && 0 <= e1.k.pc then e1.(t := e1.t + {e1.k.pc}) else e1;
    (if HasJumps(e2) then CloseLists(fs1, e2, reg) else fs1, Exp(VNonReloc(reg), {}, {}))
  }

  function Exp2NextReg(fs: Fs, e0: Exp): (Fs, Exp) {
    var e := DischargeVars(e0);
    var fs1 := ReserveRegs(FreeExp(fs, e), 1);
    Exp2Reg(fs1, e, fs1.freereg - 1)
  }

  function Exp2AnyReg(fs: Fs, e0: Exp): (Fs, Exp) {
    var e := DischargeVars(e0);
    if e.k.VNonReloc? && !HasJumps(e) then (fs, e)
    else if e.k.VNonReloc? && e.k.reg >= fs.nactvar then Exp2Reg(fs, e, e.k.reg)
    else Exp2NextReg(fs, e)
  }

  function Exp2Val(fs: Fs, e: Exp): (Fs, Exp) {
    if HasJumps(e) then Exp2AnyReg(fs, e) else (fs, DischargeVars(e))
  }

  /** `luaK_exp2RK`: the operand, as a register or a constant. */
  function Exp2RK(fs0: Fs, e0: Exp): (Fs, Exp, int) {
    var (fs, e) := Exp2Val(fs0, e0);
    var (fs1, e1) := Exp2K(fs, e);
    if e1.k.VK? && e1.k.idx <= MAXINDEXRK then (fs1, e1, e1.k.idx + BITRK)
    else
      var (fs2, e2) := Exp2AnyReg(fs1, e1);
      (fs2, e2, if e2.k.VNonReloc? then e2.k.reg else 0)
  }

  /** The constant an expression denotes goes into the constant list; `true`,
      `false` and `nil` only while the list is short. */
  function Exp2K(fs: Fs, e: Exp): (Fs, Exp) {
    match e.k
    case VTrue => if |fs.k| <= MAXINDEXRK then var (g, k) := AddK(fs, Bool(true)); (g, e.(k := VK(k))) else (fs, e)
    case VFalse => if |fs.k| <= MAXINDEXRK then var (g, k) := AddK(fs, Bool(false)); (g, e.(k := VK(k))) else (fs, e)
    case VNil => if |fs.k| <= MAXINDEXRK then var (g, k) := AddK(fs, Nil); (g, e.(k := VK(k))) else (fs, e)
    case VKInt(i) => var (g, k) := AddK(fs, Int(i)); (g, e.(k := VK(k)))
    case VKFlt(r) => var (g, k) := AddK(fs, Flt(r)); (g, e.(k := VK(k)))
    case _ => (fs, e)
  }

  // ---- conditions ----

  function Invert(i: Instr): Instr {
    match i
    case Eq(a, b, c) => Eq(if a == 0 then 1 else 0, b, c)
    case Lt(a, b, c) => Lt(if a == 0 then 1 else 0, b, c)
    case Le(a, b, c) => Le(if a == 0 then 1 else 0, b, c)
    case _ => i
  }

  function InvertJump(fs: Fs, pc: int): Fs {
    if 1 <= pc <= |fs.code| then fs.(code := fs.code[pc - 1 := Invert(fs.code[pc - 1])]) else fs
  }

  /** `jumponcond`: a pending NOT is taken back and the test inverted. */
  function JumpOnCond(fs: Fs, e: Exp, cond: int): (Fs, set<nat>) {
    if e.k.VReloc? && 0 <= e.k.pc == |fs.code| - 1 && fs.code[e.k.pc].Not? then
      CondJump(fs.(code := fs.code[..|fs.code| - 1]), Test(fs.code[e.k.pc].b, if cond == 0 then 1 else 0))
    else
      var (fs1, e1) := Discharge2AnyReg(fs, e);
      var fs2 := FreeExp(fs1, e1);
      CondJump(fs2, TestSet(NO_REG, if e1.k.VNonReloc? then e1.k.reg else 0, cond))
  }

  function GoIfTrue(fs: Fs, e0: Exp): (Fs, Exp) {
    var e := DischargeVars(e0);
    var (fs1, pc) :=
      match e.k
      case VJmp(pc) => (InvertJump(fs, pc), if 0 <= pc then {pc} else {})
      case VK(_) => (fs, {}) case VKFlt(_) => (fs, {}) case VKInt(_) => (fs, {}) case VTrue => (fs, {})
      case _ => JumpOnCond(fs, e, 0);
    (PatchToHere(fs1, e.t), e.(t := {}, f := e.f + pc))
  }

  function GoIfFalse(fs: Fs, e0: Exp): (Fs, Exp) {
    var e := DischargeVars(e0);
    var (fs1, pc) :=
      match e.k
      case VJmp(pc) => (fs, if 0 <= pc then {pc} else {})
      case VNil => (fs, {}) case VFalse => (fs, {})
      case _ => JumpOnCond(fs, e, 1);
    (PatchToHere(fs1, e.f), e.(f := {}, t := e.t + pc))
  }

  function CodeNot(fs: Fs, e0: Exp): (Fs, Exp) {
    var e := DischargeVars(e0);
    var (fs1, k) :=
      match e.k
      case VNil => (fs, VTrue) case VFalse => (fs, VTrue)
      case VK(_) => (fs, VFalse) case VKFlt(_) => (fs, VFalse) case VKInt(_) => (fs, VFalse) case VTrue => (fs, VFalse)
      case VJmp(pc) => (InvertJump(fs, pc), e.k)
      case _ =>
        var (g, e1) := Discharge2AnyReg(fs, e);
        var g1 := FreeExp(g, e1);
        (Code(g1, Not(0, if e1.k.VNonReloc? then e1.k.reg else 0)), VReloc(|g1.code|));
    (fs1.(code := RemoveValues(RemoveValues(fs1.code, e.t), e.f)), Exp(k, e.f, e.t))
  }

  // ---- operators ----

  datatype CmpOp = OpEq | OpLt | OpLe | OpNe | OpGt | OpGe

  function CmpInstr(op: CmpOp, a: int, b: int): Instr {
    match op
    case OpEq => Eq(1, a, b)
    case OpLt => Lt(1, a, b)
    case OpLe => Le(1, a, b)
    case OpNe => Eq(0, a, b)
    case OpGt => Lt(1, b, a)
    case OpGe => Le(1, b, a)
  }

  /** `codecomp`: `>` and `>=` exchange the operands. */
  function CodeComp(fs: Fs, op: CmpOp, e1: Exp, e2: Exp): (Fs, Exp) {
    var (fs1, d1, o1) := Exp2RK(fs, e1);
    var (fs2, d2, o2) := Exp2RK(fs1, e2);
    var fs3 := FreeExp(FreeExp(fs2, d2), d1);
    var (fs4, j) := CondJump(fs3, CmpInstr(op, o1, o2));
    (fs4, Exp(VJmp(|fs4.code| - 1), d1.t, d1.f))
  }
}
