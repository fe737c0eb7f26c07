/** How much an expression may cost: bounds on the code, the constants and the
  registers, and that the generator raises no error within its limits. */
module CodeGenRoom {
  import opened LuaVm
  import opened CodeGenModel
  import opened CodeGenSim
  import opened CodeGenSpec
  import opened CodeGenOperand
  import opened CodeGenCond
  import opened CodeGenExpr

  /** The limits are kept: jumps reach everywhere, registers and constants can be
      named. */
  predicate Short(fs: Fs) {
    |fs.code| < MAXARG_sBx && |fs.k| <= MAXARG_Ax && fs.maxstack < MAXREGS
  }

  /** At most `dc` instructions and `dk` constants more, and no error unless a
      limit was exceeded. */
  predicate Adds(fs: Fs, g: Fs, dc: nat, dk: nat) {
    && |fs.code| <= |g.code| <= |fs.code| + dc && |fs.k| <= |g.k| <= |fs.k| + dk
    && fs.maxstack <= g.maxstack && (fs.ok && Short(g) ==> g.ok)
  }

  predicate Below(L: set<nat>, n: nat) { forall p | p in L :: p < n }

  /** The pending jumps are in the code. */
  predicate Inside(fs: Fs, e: Exp) {
    && Below(fs.jpc, |fs.code|) && Below(e.t, |fs.code|) && Below(e.f, |fs.code|)
    && (e.k.VJmp? ==> e.k.pc < |fs.code|)
  }

  // ---- emitting ----

  lemma FixListAdds(fs: Fs, L: set<nat>, vt: int, reg: int, dt: int)
    requires -1 <= vt <= |fs.code| && -1 <= dt <= |fs.code| && Below(L, if 0 <= vt && 0 <= dt then |fs.code| + 1 else |fs.code|)
    ensures Adds(fs, FixList(fs, L, vt, reg, dt), 0, 0)
  {
    hide PatchList, SetsValue;
    if |fs.code| < MAXARG_sBx {
      forall p | p in L ensures Abs(Target(fs.code, p, vt, dt) - (p + 1)) <= MAXARG_sBx {}
    }
    assert |PatchList(fs.code, L, vt, reg, dt)| == |fs.code| by { PatchLength(fs.code, L, vt, reg, dt); }
  }

  lemma PatchLength(code: seq<Instr>, L: set<nat>, vt: int, reg: int, dt: int)
    ensures |PatchList(code, L, vt, reg, dt)| == |code|
  {
  }

  lemma CodeAdds(fs: Fs, i: Instr)
    requires Below(fs.jpc, |fs.code| + 1)
    ensures Adds(fs, Code(fs, i), 1, 0) && Code(fs, i).jpc == {} && |Code(fs, i).code| == |fs.code| + 1
  {
    hide PatchList, InReach;
    FixListAdds(fs, fs.jpc, |fs.code|, NO_REG, |fs.code|);
    PatchLength(fs.code, fs.jpc, |fs.code|, NO_REG, |fs.code|);
  }

  lemma JumpAdds(fs: Fs)
    requires Below(fs.jpc, |fs.code| + 1)
    ensures var (g, P) := Jump(fs);
      Adds(fs, g, 1, 0) && g.jpc == {} && |g.code| == |fs.code| + 1 && Below(P, |g.code|)
  {
    hide Code;
    CodeAdds(fs.(jpc := {}), Jmp(0, NO_JUMP));
  }

  lemma CondJumpAdds(fs: Fs, i: Instr)
    requires Below(fs.jpc, |fs.code| + 1)
    ensures var (g, P) := CondJump(fs, i);
      Adds(fs, g, 2, 0) && g.jpc == {} && |g.code| == |fs.code| + 2 && Below(P, |g.code|)
  {
    hide Code, Jump;
    CodeAdds(fs, i);
    JumpAdds(Code(fs, i));
  }

  lemma CodeNilAdds(fs: Fs, from: int, n: int)
    requires Below(fs.jpc, |fs.code|)
    ensures var g := CodeNil(fs, from, n); Adds(fs, g, 1, 0) && Below(g.jpc, |g.code|)
  {
    hide Code;
    CodeAdds(fs, LoadNil(from, n - 1));
  }

  lemma CodeKAdds(fs: Fs, reg: int, k: int)
    requires Below(fs.jpc, |fs.code|)
    ensures var g := CodeK(fs, reg, k); Adds(fs, g, 2, 0) && g.jpc == {}
  {
    hide Code;
    CodeAdds(fs, LoadK(reg, k));
    CodeAdds(fs, LoadKX(reg));
    CodeAdds(Code(fs, LoadKX(reg)), ExtraArg(k));
  }

  lemma AddKAdds(fs: Fs, v: Value)
    ensures var g := AddK(fs, v).0; Adds(fs, g, 0, 1) && g.code == fs.code && g.jpc == fs.jpc
  {
  }

  // ---- loading ----

  /** Constants that loading the value enters. */
  function NewK(e: Exp): nat { if e.k.VKInt? || e.k.VKFlt? then 1 else 0 }

  lemma Discharge2RegAdds(fs: Fs, e: Exp, reg: int)
    requires Inside(fs, e)
    ensures var (g, d) := Discharge2Reg(fs, e, reg); Adds(fs, g, 2, NewK(e)) && Inside(g, d) && d.t == e.t && d.f == e.f
    ensures var (g, d) := Discharge2Reg(fs, e, reg); (d.k.VJmp? ==> d.k == e.k)
  {
    hide Code, CodeNil, CodeK, AddK;
    match DischargeVars(e).k
    case VNil => CodeNilAdds(fs, reg, 1);
    case VFalse => CodeAdds(fs, LoadBool(reg, 0, 0));
    case VTrue => CodeAdds(fs, LoadBool(reg, 1, 0));
    case VK(i) => CodeKAdds(fs, reg, i);
    case VKFlt(r) => AddKAdds(fs, Flt(r)); CodeKAdds(AddK(fs, Flt(r)).0, reg, AddK(fs, Flt(r)).1);
    case VKInt(i) => AddKAdds(fs, Int(i)); CodeKAdds(AddK(fs, Int(i)).0, reg, AddK(fs, Int(i)).1);
    case VNonReloc(r) => CodeAdds(fs, Move(reg, r));
    case _ =>
  }

  lemma StageAdds(fs: Fs, jmp: bool, reg: int)
    requires Below(fs.jpc, |fs.code|)
    ensures var g := Stage(fs, jmp, reg); Adds(fs, g, 3, 0) && Below(g.jpc, |g.code|) && |fs.code| + 2 <= |g.code|
  {
    hide Code, Jump;
    JumpAdds(fs);
    var (fs1, fj) := if jmp then (fs, {}) else Jump(fs);
    CodeAdds(GetLabel(fs1), LoadBool(reg, 0, 1));
    var fs2 := CodeLabel(fs1, reg, 0, 1);
    CodeAdds(GetLabel(fs2), LoadBool(reg, 1, 0));
  }

  lemma FixBothAdds(fs: Fs, e: Exp, reg: int, pf: int, pt: int)
    requires Below(e.t, |fs.code|) && Below(e.f, |fs.code|) && -1 <= pf <= |fs.code| && -1 <= pt <= |fs.code|
    ensures var g := FixBoth(fs, e, reg, pf, pt); Adds(fs, g, 0, 0) && g.jpc == fs.jpc
  {
    hide PatchList, InReach;
    var n := |fs.code|;
    FixListAdds(fs, e.f, n, reg, pf);
    PatchLength(fs.code, e.f, n, reg, pf);
    var g := FixList(fs, e.f, n, reg, pf);
    FixListAdds(g, e.t, n, reg, pt);
    PatchLength(g.code, e.t, n, reg, pt);
  }

  lemma CloseListsAdds(fs: Fs, e: Exp, reg: int)
    requires Inside(fs, e)
    ensures var g := CloseLists(fs, e, reg); Adds(fs, g, 3, 0) && Below(g.jpc, |g.code|)
  {
    hide Stage, FixBoth, NeedValue;
    StageAdds(fs, e.k.VJmp?, reg);
    var g := Stage(fs, e.k.VJmp?, reg);
    FixBothAdds(g, e, reg, |g.code| - 2, |g.code| - 1);
    FixBothAdds(GetLabel(fs), e, reg, NO_JUMP, NO_JUMP);
  }

  lemma Exp2RegAdds(fs: Fs, e: Exp, reg: int)
    requires Inside(fs, e)
    ensures var (g, d) := Exp2Reg(fs, e, reg); Adds(fs, g, 5, NewK(e)) && Inside(g, d)
    ensures var (g, d) := Exp2Reg(fs, e, reg); d == Plainly(VNonReloc(reg))
  {
    hide Discharge2Reg, CloseLists;
    Discharge2RegAdds(fs, e, reg);
    var (fs1, e1) := Discharge2Reg(fs, e, reg);
    var e2 := if e1.k.VJmp? && 0 <= e1.k.pc then e1.(t := e1.t + {e1.k.pc}) else e1;
    CloseListsAdds(fs1, e2, reg);
  }

  lemma ReserveAdds(fs: Fs)
    ensures var g := ReserveRegs(fs, 1); Adds(fs, g, 0, 0) && g.code == fs.code && g.jpc == fs.jpc
  {
  }

  lemma FreeAdds(fs: Fs, e: Exp)
    ensures var g := FreeExp(fs, e); Adds(fs, g, 0, 0) && g.code == fs.code && g.jpc == fs.jpc
  {
  }

  lemma Exp2NextRegAdds(fs: Fs, e: Exp)
    requires Inside(fs, e)
    ensures var (g, d) := Exp2NextReg(fs, e); Adds(fs, g, 5, NewK(e)) && Inside(g, d) && !HasJumps(d) && d.k.VNonReloc?
  {
    hide Exp2Reg, FreeExp, ReserveRegs;
    var d := DischargeVars(e);
    FreeAdds(fs, d);
    ReserveAdds(FreeExp(fs, d));
    var fs1 := ReserveRegs(FreeExp(fs, d), 1);
    Exp2RegAdds(fs1, d, fs1.freereg - 1);
  }

  lemma Exp2AnyRegAdds(fs: Fs, e: Exp)
    requires Inside(fs, e)
    ensures var (g, d) := Exp2AnyReg(fs, e); Adds(fs, g, 5, NewK(e)) && Inside(g, d) && !HasJumps(d) && d.k.VNonReloc?
  {
    hide Exp2Reg, Exp2NextReg;
    var d := DischargeVars(e);
    Exp2NextRegAdds(fs, d);
    assert DischargeVars(d) == d;
    if d.k.VNonReloc? { Exp2RegAdds(fs, d, d.k.reg); }
    assert Exp2NextReg(fs, d) == Exp2NextReg(fs, e) by { NextRegDischarges(fs, e); }
  }

  lemma NextRegDischarges(fs: Fs, e: Exp)
    ensures Exp2NextReg(fs, DischargeVars(e)) == Exp2NextReg(fs, e)
  {
    hide Exp2Reg, FreeExp, ReserveRegs;
  }

  lemma Exp2KAdds(fs: Fs, e: Exp)
    requires Inside(fs, e)
    ensures var (g, d) := Exp2K(fs, e); Adds(fs, g, 0, 1) && Inside(g, d) && NewK(d) == 0
  {
    hide AddK;
    AddKAdds(fs, Bool(true));
    AddKAdds(fs, Bool(false));
    AddKAdds(fs, Nil);
    match e.k
    case VKInt(i) => AddKAdds(fs, Int(i));
    case VKFlt(r) => AddKAdds(fs, Flt(r));
    case _ =>
  }

  lemma Exp2RKAdds(fs: Fs, e: Exp)
    requires Inside(fs, e)
    ensures var (g, d, _) := Exp2RK(fs, e); Adds(fs, g, 5, 1) && Inside(g, d)
  {
    hide Exp2AnyReg, Exp2K;
    if HasJumps(e) {
      Exp2AnyRegAdds(fs, e);
      var (g, d) := Exp2AnyReg(fs, e);
      assert Exp2K(g, d) == (g, d) by { RegisterIsNoK(g, d); }
      assert Exp2AnyReg(g, d) == (g, d) by { AnyRegIs(g, d); }
    } else {
      var d := DischargeVars(e);
      Exp2KAdds(fs, d);
      var (g, k) := Exp2K(fs, d);
      Exp2AnyRegAdds(g, k);
    }
  }

  lemma RegisterIsNoK(g: Fs, d: Exp)
    requires d.k.VNonReloc?
    ensures Exp2K(g, d) == (g, d)
  {
  }

  lemma AnyRegIs(g: Fs, d: Exp)
    requires d.k.VNonReloc? && !HasJumps(d)
    ensures Exp2AnyReg(g, d) == (g, d)
  {
  }

  // ---- conditions ----

  lemma Discharge2AnyRegAdds(fs: Fs, e: Exp)
    requires Inside(fs, e)
    ensures var (g, d) := Discharge2AnyReg(fs, e); Adds(fs, g, 2, 1) && Inside(g, d) && d.t == e.t && d.f == e.f
  {
    hide Discharge2Reg, ReserveRegs;
    ReserveAdds(fs);
    var fs1 := ReserveRegs(fs, 1);
    Discharge2RegAdds(fs1, e, fs1.freereg - 1);
  }

  lemma JumpOnCondAdds(fs: Fs, e: Exp, cond: int)
    requires Inside(fs, e)
    ensures var (g, P) := JumpOnCond(fs, e, cond); Adds(fs, g, 4, 1) && g.jpc == {} && Below(P, |g.code|)
  {
    hide Discharge2AnyReg, CondJump, FreeExp;
    if e.k.VReloc? && 0 <= e.k.pc == |fs.code| - 1 && fs.code[e.k.pc].Not? {
      var h := fs.(code := fs.code[..|fs.code| - 1]);
      CondJumpAdds(h, Test(fs.code[e.k.pc].b, if cond == 0 then 1 else 0));
    } else {
      Discharge2AnyRegAdds(fs, e);
      var (fs1, e1) := Discharge2AnyReg(fs, e);
      FreeAdds(fs1, e1);
      CondJumpAdds(FreeExp(fs1, e1), TestSet(NO_REG, if e1.k.VNonReloc? then e1.k.reg else 0, cond));
    }
  }

  lemma InvertAdds(fs: Fs, pc: int)
    ensures var g := InvertJump(fs, pc); Adds(fs, g, 0, 0) && |g.code| == |fs.code| && g.jpc == fs.jpc
  {
  }

  lemma GoIfAdds(fs: Fs, e: Exp, b: bool)
    requires Inside(fs, e)
    ensures var (g, d) := GoIf(fs, e, b); Adds(fs, g, 4, 1) && Inside(g, d)
  {
    hide JumpOnCond, InvertJump;
    var d := DischargeVars(e);
    JumpOnCondAdds(fs, d, if b then 0 else 1);
    if d.k.VJmp? { InvertAdds(fs, d.k.pc); }
  }

  lemma CodeNotAdds(fs: Fs, e: Exp)
    requires Inside(fs, e)
    ensures var (g, d) := CodeNot(fs, e); Adds(fs, g, 3, 1) && Inside(g, d)
  {
    hide Discharge2AnyReg, Code, FreeExp, InvertJump, RemoveValues;
    var d := DischargeVars(e);
    Discharge2AnyRegAdds(fs, d);
    var (g, e1) := Discharge2AnyReg(fs, d);
    FreeAdds(g, e1);
    CodeAdds(FreeExp(g, e1), Not(0, if e1.k.VNonReloc? then e1.k.reg else 0));
    if d.k.VJmp? { InvertAdds(fs, d.k.pc); }
    RemoveLength(fs, e);
  }

  /** `codenot` up to the exchange of the exits keeps its length in it. */
  lemma RemoveLength(fs: Fs, e: Exp)
    ensures forall code, S :: |RemoveValues(code, S)| == |code|
  {
  }

  // ---- expressions ----

  /** Instructions and constants that an expression may need. */
  function CodeCost(x: Expr): nat {
    match x
    case EParen(a) => CodeCost(a)
    case ENot(a) => CodeCost(a) + 3
    case ELogic(_, a, b) => CodeCost(a) + CodeCost(b) + 4
    case ECompare(_, a, b) => CodeCost(a) + CodeCost(b) + 12
    case _ => 0
  }

  function ConstCost(x: Expr): nat {
    match x
    case EStr(_) => 1
    case EParen(a) => ConstCost(a)
    case ENot(a) => ConstCost(a) + 1
    case ELogic(_, a, b) => ConstCost(a) + ConstCost(b) + 1
    case ECompare(_, a, b) => ConstCost(a) + ConstCost(b) + 2
    case _ => 0
  }

  /** Registers: the first operand of a comparison keeps one. */
  function Need(x: Expr): (n: nat)
    ensures n >= 1
  {
    match x
    case EParen(a) => Need(a)
    case ENot(a) => Need(a)
    case ELogic(_, a, b) => Max(Need(a), Need(b))
    case ECompare(_, a, b) => Max(Need(a), Need(b) + 1)
    case _ => 1
  }

  lemma {:induction false} GenAdds(fs: Fs, x: Expr)
    requires Below(fs.jpc, |fs.code|)
    ensures var (g, e) := Gen(fs, x); Adds(fs, g, CodeCost(x), ConstCost(x)) && Inside(g, e)
    decreases x
  {
    hide CodeNot, GoIf, Exp2RK, CodeComp, Join, AddK;
    match x
    case EStr(s) => AddKAdds(fs, Str(s));
    case EParen(a) => GenAdds(fs, a);
    case ENot(a) =>
      GenAdds(fs, a);
      CodeNotAdds(Gen(fs, a).0, Gen(fs, a).1);
    case ELogic(isAnd, a, b) => LogicAdds(fs, isAnd, a, b);
    case ECompare(op, a, b) => CompareAdds(fs, op, a, b);
    case _ =>
  }

  lemma {:induction false} LogicAdds(fs: Fs, isAnd: bool, a: Expr, b: Expr)
    requires Below(fs.jpc, |fs.code|)
    ensures var x := ELogic(isAnd, a, b); var (g, e) := Gen(fs, x); Adds(fs, g, CodeCost(x), ConstCost(x)) && Inside(g, e)
    decreases ELogic(isAnd, a, b), 0
  {
    hide GoIf, Gen;
    GenAdds(fs, a);
    var (g, e) := Gen(fs, a);
    GoIfAdds(g, e, isAnd);
    var (g1, e1) := GoIf(g, e, isAnd);
    GenAdds(g1, b);
    GenLogicIs(fs, isAnd, a, b);
  }

  lemma {:induction false} CompareAdds(fs: Fs, op: CmpOp, a: Expr, b: Expr)
    requires Below(fs.jpc, |fs.code|)
    ensures var x := ECompare(op, a, b); var (g, e) := Gen(fs, x); Adds(fs, g, CodeCost(x), ConstCost(x)) && Inside(g, e)
    decreases ECompare(op, a, b), 0
  {
    hide Exp2RK, Gen, CodeComp, CondJump, FreeExp, Operand;
    GenAdds(fs, a);
    var (g, e) := Gen(fs, a);
    Exp2RKAdds(g, e);
    Exp2RKOperand(g, e);
    var (g1, d1, x1) := Exp2RK(g, e);
    GenAdds(g1, b);
    var (g2, e2) := Gen(g1, b);
    GenCompareIs(fs, op, a, b);
    OperandAnywhere(g1, g2, d1, x1);
    CodeCompIs(g2, op, d1, x1, e2);
    Exp2RKAdds(g2, e2);
    var (h, d2, x2) := Exp2RK(g2, e2);
    FreeAdds(h, d2);
    FreeAdds(FreeExp(h, d2), d1);
    CondJumpAdds(FreeExp(FreeExp(h, d2), d1), CmpInstr(op, x1, x2));
  }

  lemma OperandAnywhere(g: Fs, h: Fs, d: Exp, x: int)
    requires Operand(g, d, x)
    ensures Operand(h, d, x)
  {
  }

  // ---- registers ----

  /** `e` occupies at most the register `lo`, and `top` registers were enough. */
  predicate Holds(fs: Fs, g: Fs, e: Exp, lo: int, top: int) {
    RegsOk(g, e, lo) && g.nactvar == fs.nactvar && g.maxstack <= Max(fs.maxstack, top) && (e.k.VLocal? ==> e.k.reg < g.nactvar)
  }

  /** The same, and the expression keeps no register. */
  predicate Frees(fs: Fs, g: Fs, lo: int, top: int) {
    g.freereg == lo && g.nactvar == fs.nactvar && g.maxstack <= Max(fs.maxstack, top)
  }

  lemma NextRegHolds(fs: Fs, e: Exp, lo: int)
    requires Holds(fs, fs, e, lo, lo) && 0 <= lo && lo + 1 < MAXREGS
    ensures var (g, d) := Exp2NextReg(fs, e); Holds(fs, g, d, lo, lo + 1)
  {
    hide Exp2Reg;
    var d := DischargeVars(e);
    var fs1 := ReserveRegs(FreeExp(fs, d), 1);
    Exp2RegKept(fs1, d, fs1.freereg - 1);
    RegIs(fs1, d, fs1.freereg - 1);
  }

  lemma RegIs(fs: Fs, e: Exp, reg: int)
    ensures Exp2Reg(fs, e, reg).1 == Plainly(VNonReloc(reg))
  {
  }

  lemma AnyRegHolds(fs: Fs, e: Exp, lo: int)
    requires Holds(fs, fs, e, lo, lo) && 0 <= lo && lo + 1 < MAXREGS
    ensures var (g, d) := Exp2AnyReg(fs, e); Holds(fs, g, d, lo, lo + 1)
  {
    hide Exp2Reg, Exp2NextReg;
    var d := DischargeVars(e);
    NextRegHolds(fs, d, lo);
    if d.k.VNonReloc? {
      Exp2RegKept(fs, d, d.k.reg);
      RegIs(fs, d, d.k.reg);
    }
  }

  lemma RKHolds(fs: Fs, e: Exp, lo: int)
    requires Holds(fs, fs, e, lo, lo) && 0 <= lo && lo + 1 < MAXREGS
    ensures var (g, d, _) := Exp2RK(fs, e); Holds(fs, g, d, lo, lo + 1)
  {
    hide Exp2AnyReg, AddK;
    AnyRegHolds(fs, e, lo);
    var (fs1, e1) := Exp2Val(fs, e);
    var (fs2, e2) := Exp2K(fs1, e1);
    KHolds(fs1, e1);
    assert Holds(fs2, fs2, e2, lo, lo);
    AnyRegHolds(fs2, e2, lo);
  }

  lemma KHolds(fs: Fs, e: Exp)
    ensures var (g, d) := Exp2K(fs, e);
      g.freereg == fs.freereg && g.maxstack == fs.maxstack && g.nactvar == fs.nactvar && (d == e || (d.k.VK? && !e.k.VNonReloc? && !e.k.VLocal?))
  {
    hide AddK;
    forall v ensures Kept(fs, AddK(fs, v).0) { AddKKeeps(fs, v); }
  }

  lemma JumpFrees(fs: Fs, e: Exp, cond: int, lo: int)
    requires Holds(fs, fs, e, lo, lo) && 0 <= lo && lo + 1 < MAXREGS && !e.k.VJmp? && !e.k.VLocal?
    ensures Frees(fs, JumpOnCond(fs, e, cond).0, lo, lo + 1)
  {
    hide CondJump, Discharge2Reg;
    if e.k.VReloc? && 0 <= e.k.pc == |fs.code| - 1 && fs.code[e.k.pc].Not? {
      CondJumpKept(fs.(code := fs.code[..|fs.code| - 1]), Test(fs.code[e.k.pc].b, if cond == 0 then 1 else 0));
    } else {
      AnyFrees(fs, e, lo);
      var (fs1, e1) := Discharge2AnyReg(fs, e);
      CondJumpKept(FreeExp(fs1, e1), TestSet(NO_REG, if e1.k.VNonReloc? then e1.k.reg else 0, cond));
    }
  }

  lemma AnyFrees(fs: Fs, e: Exp, lo: int)
    requires Holds(fs, fs, e, lo, lo) && 0 <= lo && lo + 1 < MAXREGS && !e.k.VJmp? && !e.k.VLocal?
    ensures var (g, d) := Discharge2AnyReg(fs, e); Frees(fs, FreeExp(g, d), lo, lo + 1)
  {
    hide Discharge2Reg;
    var fs1 := ReserveRegs(fs, 1);
    Discharge2RegKept(fs1, e, fs1.freereg - 1);
    LoadedIs(fs1, e, fs1.freereg - 1);
  }

  lemma LoadedIs(fs: Fs, e: Exp, reg: int)
    requires !e.k.VJmp?
    ensures Discharge2Reg(fs, e, reg).1.k == VNonReloc(reg)
  {
  }

  lemma GoIfFrees(fs: Fs, e: Exp, b: bool, lo: int)
    requires Holds(fs, fs, e, lo, lo) && 0 <= lo && lo + 1 < MAXREGS
    ensures Frees(fs, GoIf(fs, e, b).0, lo, lo + 1)
  {
    hide JumpOnCond;
    var d := DischargeVars(e);
    if !d.k.VJmp? { JumpFrees(fs, d, if b then 0 else 1, lo); }
  }

  lemma NotHolds(fs: Fs, e: Exp, lo: int)
    requires Holds(fs, fs, e, lo, lo) && 0 <= lo && lo + 1 < MAXREGS
    ensures var (g, d) := CodeNot(fs, e); Holds(fs, g, d, lo, lo + 1)
  {
    hide Discharge2AnyReg, Code, FreeExp, RemoveValues;
    var d := DischargeVars(e);
    if !d.k.VJmp? {
      AnyFrees(fs, d, lo);
      var (g, r) := Discharge2AnyReg(fs, d);
      NotKept(FreeExp(g, r), Not(0, if r.k.VNonReloc? then r.k.reg else 0));
    }
  }

  lemma NotKept(fs: Fs, i: Instr)
    ensures Kept(fs, Code(fs, i))
  {
  }

  lemma AddKKeeps(fs: Fs, v: Value)
    ensures Kept(fs, AddK(fs, v).0)
  {
  }

  /** An expression uses no more registers than it needs. */
  lemma {:induction false} GenHolds(fs: Fs, x: Expr, lo: int)
    requires fs.nactvar <= lo == fs.freereg && lo + Need(x) < MAXREGS && LocalsIn(x, fs.nactvar)
    ensures var (g, e) := Gen(fs, x); Holds(fs, g, e, lo, lo + Need(x))
    decreases x
  {
    hide CodeNot, GoIf, Exp2RK, CodeComp, Join, AddK;
    match x
    case EStr(s) => AddKKeeps(fs, Str(s));
    case EParen(a) => GenHolds(fs, a, lo);
    case ENot(a) =>
      GenHolds(fs, a, lo);
      NotHolds(Gen(fs, a).0, Gen(fs, a).1, lo);
    case ELogic(isAnd, a, b) => LogicHolds(fs, isAnd, a, b, lo);
    case ECompare(op, a, b) => CompareHolds(fs, op, a, b, lo);
    case _ =>
  }

  lemma {:induction false} LogicHolds(fs: Fs, isAnd: bool, a: Expr, b: Expr, lo: int)
    requires var x := ELogic(isAnd, a, b); fs.nactvar <= lo == fs.freereg && lo + Need(x) < MAXREGS && LocalsIn(x, fs.nactvar)
    ensures var x := ELogic(isAnd, a, b); var (g, e) := Gen(fs, x); Holds(fs, g, e, lo, lo + Need(x))
    decreases ELogic(isAnd, a, b), 0
  {
    hide GoIf, Gen, RegsOk, Join, DischargeVars;
    GenHolds(fs, a, lo);
    var (g, e) := Gen(fs, a);
    GoIfFrees(g, e, isAnd, lo);
    var (g1, e1) := GoIf(g, e, isAnd);
    GenHolds(g1, b, lo);
    GenLogicIs(fs, isAnd, a, b);
    var (g2, d) := Gen(g1, b);
    JoinHolds(g2, d, e1, isAnd, lo);
  }

  lemma JoinHolds(g: Fs, d: Exp, e1: Exp, isAnd: bool, lo: int)
    requires RegsOk(g, d, lo) && (d.k.VLocal? ==> d.k.reg < g.nactvar)
    ensures var e := Join(e1, DischargeVars(d), isAnd); RegsOk(g, e, lo) && !e.k.VLocal?
  {
  }

  lemma {:induction false} CompareHolds(fs: Fs, op: CmpOp, a: Expr, b: Expr, lo: int)
    requires var x := ECompare(op, a, b); fs.nactvar <= lo == fs.freereg && lo + Need(x) < MAXREGS && LocalsIn(x, fs.nactvar)
    ensures var x := ECompare(op, a, b); var (g, e) := Gen(fs, x); Holds(fs, g, e, lo, lo + Need(x))
    decreases ECompare(op, a, b), 0
  {
    hide Exp2RK, Gen, CodeComp, CondJump, FreeExp, RegsOk;
    GenHolds(fs, a, lo);
    var (g, e) := Gen(fs, a);
    RKHolds(g, e, lo);
    Exp2RKOperand(g, e);
    var (g1, d1, x1) := Exp2RK(g, e);
    var mid := g1.freereg;
    MidRange(g1, d1, lo);
    GenHolds(g1, b, mid);
    var (g2, e2) := Gen(g1, b);
    GenCompareIs(fs, op, a, b);
    CodeCompIs(g2, op, d1, x1, e2);
    RKHolds(g2, e2, mid);
    Exp2RKOperand(g2, e2);
    var (h, d2, x2) := Exp2RK(g2, e2);
    BothFree(g1, d1, h, d2, lo);
    CondJumpKept(FreeExp(FreeExp(h, d2), d1), CmpInstr(op, x1, x2));
    JumpHolds(CondJump(FreeExp(FreeExp(h, d2), d1), CmpInstr(op, x1, x2)).0, lo);
  }

  lemma MidRange(fs: Fs, e: Exp, lo: int)
    requires RegsOk(fs, e, lo)
    ensures lo <= fs.freereg <= lo + 1
  {
  }

  /** Both operands of a comparison give back what they keep. */
  lemma BothFree(g: Fs, d1: Exp, h: Fs, d2: Exp, lo: int)
    requires RegsOk(g, d1, lo) && RegsOk(h, d2, g.freereg) && h.nactvar == g.nactvar && 0 <= lo
    ensures var k := FreeExp(FreeExp(h, d2), d1); k.freereg == lo && k.nactvar == h.nactvar && k.maxstack == h.maxstack
  {
  }

  lemma JumpHolds(g: Fs, lo: int)
    requires g.freereg == lo < MAXREGS && g.nactvar <= lo
    ensures RegsOk(g, Plainly(VJmp(|g.code| - 1)), lo)
  {
  }

  // ---- statements ----

  /** Bounds for a whole statement. */
  predicate Bounded(fs: Fs, h: Fs, x: Expr, lo: int) {
    && Adds(fs, h, CodeCost(x) + 5, ConstCost(x) + 1)
    && (lo + Need(x) < MAXREGS ==> h.maxstack <= Max(fs.maxstack, lo + Need(x)))
  }

  lemma ExpressionBounded(fs: Fs, x: Expr, lo: int)
    requires Between(fs, lo) && LocalsIn(x, fs.nactvar)
    ensures var (g, e) := Gen(fs, x); Bounded(fs, Discharge(Exp2NextReg(g, e).0), x, lo)
  {
    hide Gen, Exp2NextReg, Discharge, LocalsIn, CodeCost, ConstCost, Need;
    GenAdds(fs, x);
    var (g, e) := Gen(fs, x);
    Exp2NextRegAdds(g, e);
    var h := Exp2NextReg(g, e).0;
    DischargeAdds(h);
    if lo + Need(x) < MAXREGS {
      GenHolds(fs, x, lo);
      NextRegHolds(g, e, lo);
    }
  }

  lemma DischargeAdds(fs: Fs)
    requires Below(fs.jpc, |fs.code|)
    ensures Adds(fs, Discharge(fs), 0, 0) && Discharge(fs).maxstack == fs.maxstack
  {
    hide PatchList, InReach;
    FixListAdds(fs, fs.jpc, |fs.code|, NO_REG, |fs.code|);
    PatchLength(fs.code, fs.jpc, |fs.code|, NO_REG, |fs.code|);
  }

  lemma AssignmentBounded(fs: Fs, x: Expr, lo: int, reg: int)
    requires Between(fs, lo) && LocalsIn(x, fs.nactvar)
    ensures var (g, e) := Gen(fs, x); Bounded(fs, Discharge(Exp2Reg(FreeExp(g, e), e, reg).0), x, lo)
  {
    hide Gen, Exp2Reg, FreeExp, Discharge, LocalsIn, CodeCost, ConstCost, Need;
    GenAdds(fs, x);
    var (g, e) := Gen(fs, x);
    FreeAdds(g, e);
    var g1 := FreeExp(g, e);
    Exp2RegAdds(g1, e, reg);
    var h := Exp2Reg(g1, e, reg).0;
    DischargeAdds(h);
    Exp2RegKept(g1, e, reg);
    FreeExpCode(g, e);
    if lo + Need(x) < MAXREGS { GenHolds(fs, x, lo); }
  }
}
