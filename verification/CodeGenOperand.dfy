/** Operands: `exp2nextreg`, `exp2anyreg`, `exp2val` and `exp2RK`, with the stack
  discipline of the registers. */
module CodeGenOperand {
  import opened LuaVm
  import opened CodeGenModel
  import opened CodeGenSim
  import opened CodeGenNil
  import opened CodeGenSpec
  import opened CodeGenValue
  import opened CodeGenClose

  // ---- what no step takes back ----

  /** Errors are final, constants are only added, locals stay. */
  predicate Grew(fs: Fs, g: Fs) {
    (g.ok ==> fs.ok) && fs.k <= g.k && g.nactvar == fs.nactvar && fs.maxstack <= g.maxstack
  }

  /** And the registers in use do not change. */
  predicate Kept(fs: Fs, g: Fs) {
    Grew(fs, g) && g.freereg == fs.freereg && g.maxstack == fs.maxstack
  }

  lemma Discharge2RegKept(fs: Fs, e: Exp, reg: int)
    ensures Kept(fs, Discharge2Reg(fs, e, reg).0)
  {
    forall i ensures Kept(fs, Code(fs, i)) {}
    assert Kept(fs, CodeNil(fs, reg, 1));
    forall h, k | Kept(fs, h) ensures Kept(fs, CodeK(h, reg, k)) {}
    hide Code, CodeNil, CodeK;
    match DischargeVars(e).k
    case VNil => case VTrue => case VFalse =>
    case VK(_) => case VKInt(_) => case VKFlt(_) =>
    case _ =>
  }

  lemma CloseListsKept(fs: Fs, e: Exp, reg: int)
    ensures Kept(fs, CloseLists(fs, e, reg))
  {
  }

  lemma Exp2RegKept(fs: Fs, e: Exp, reg: int)
    ensures Kept(fs, Exp2Reg(fs, e, reg).0)
  {
    Discharge2RegKept(fs, e, reg);
    var (fs1, e1) := Discharge2Reg(fs, e, reg);
    CloseListsKept(fs1, e1, reg);
    if e1.k.VJmp? && 0 <= e1.k.pc { CloseListsKept(fs1, e1.(t := e1.t + {e1.k.pc}), reg); }
  }

  /** `g` has the same code and differs only in bookkeeping. */
  predicate SameProgram(fs: Fs, g: Fs) {
    && g.code == fs.code && g.jpc == fs.jpc && g.lasttarget == fs.lasttarget && g.nactvar == fs.nactvar
    && fs.k <= g.k && g.maxstack < MAXREGS
  }

  /** The whole promise around an expression. */
  ghost predicate Promise(X: Ctx, o: Out, fs: Fs, ext: set<nat>, e: Exp, lo: int, v: Value) {
    WfExp(fs, ext, e, X.q) && Spec(X, o, fs, ext, e, lo, -1, v) && RegsOk(fs, e, lo)
  }

  lemma SameProgramOk(X: Ctx, o: Out, fs: Fs, g: Fs, ext: set<nat>, e: Exp, lo: int, v: Value)
    requires WfExp(fs, ext, e, X.q) && Spec(X, o, fs, ext, e, lo, -1, v) && SameProgram(fs, g)
    ensures WfExp(g, ext, e, X.q) && Spec(X, o, g, ext, e, lo, -1, v)
  {
    hide EndOf;
    assert Base(g, e) == Base(fs, e);
    assert Tidy(g, AllPending(g, ext, e), X.q);
    assert Trunc(g, e) == Trunc(fs, e).(freereg := g.freereg, maxstack := g.maxstack, k := g.k, h := g.h, ok := g.ok);
  }

  lemma DischargeVarsOk(X: Ctx, o: Out, fs: Fs, ext: set<nat>, e: Exp, lo: int, v: Value)
    requires Promise(X, o, fs, ext, e, lo, v)
    ensures Promise(X, o, fs, ext, DischargeVars(e), lo, v)
  {
    if e.k.VLocal? {
      var d := DischargeVars(e);
      WholeTrunc(fs, e);
      WholeTrunc(fs, d);
    }
  }

  // ---- registers ----

  lemma ReserveOk(fs: Fs)
    requires ReserveRegs(fs, 1).ok && fs.maxstack < MAXREGS
    ensures var g := ReserveRegs(fs, 1);
      g == fs.(freereg := fs.freereg + 1, maxstack := g.maxstack, ok := g.ok) && g.maxstack < MAXREGS && g.freereg < MAXREGS
      && fs.maxstack <= g.maxstack && fs.ok
  {
  }

  lemma Exp2NextRegGrew(fs: Fs, e: Exp)
    ensures Grew(fs, Exp2NextReg(fs, e).0)
  {
    hide Exp2Reg, DischargeVars;
    var fs1 := ReserveRegs(FreeExp(fs, DischargeVars(e)), 1);
    Exp2RegKept(fs1, DischargeVars(e), fs1.freereg - 1);
  }

  lemma FreeExpOk(fs: Fs, e: Exp, lo: int)
    requires RegsOk(fs, e, lo) && KindOk(fs, e)
    ensures FreeExp(fs, DischargeVars(e)) == fs.(freereg := lo)
  {
  }

  lemma IntoFreeReg(X: Ctx, o: Out, fs: Fs, ext: set<nat>, e: Exp, lo: int, v: Value)
    requires WfExp(fs, ext, e, X.q) && Spec(X, o, fs, ext, e, lo, -1, v)
    requires fs.nactvar <= lo == fs.freereg && fs.maxstack < MAXREGS && 0 <= lo
    requires var g := Exp2Reg(ReserveRegs(fs, 1), e, lo).0; g.ok && g.k <= X.E.k
    ensures var (g, r) := Exp2Reg(ReserveRegs(fs, 1), e, lo);
      r == Exp(VNonReloc(lo), {}, {}) && Promise(X, o, g, ext, r, lo, v) && SameControls(fs.code, g.code, ext)
  {
    hide Spec, WfExp, Exp2Reg, SameControls;
    var fs1 := ReserveRegs(fs, 1);
    Exp2RegKept(fs1, e, lo);
    ReserveOk(fs);
    SameProgramOk(X, o, fs, fs1, ext, e, lo, v);
    Exp2RegOk(X, o, fs1, ext, e, lo, lo, -1, v);
  }

  /** `luaK_exp2nextreg`: the value goes to the first free register. */
  lemma Exp2NextRegOk(X: Ctx, o: Out, fs: Fs, ext: set<nat>, e: Exp, lo: int, v: Value)
    requires Promise(X, o, fs, ext, e, lo, v)
    requires var g := Exp2NextReg(fs, e).0; g.ok && g.k <= X.E.k
    ensures var (g, r) := Exp2NextReg(fs, e);
      r == Exp(VNonReloc(lo), {}, {}) && Promise(X, o, g, ext, r, lo, v) && SameControls(fs.code, g.code, ext)
  {
    var d := DischargeVars(e);
    DischargeVarsOk(X, o, fs, ext, e, lo, v);
    PromiseRegs(X, o, fs, ext, e, lo, v);
    FreeExpOk(fs, e, lo);
    hide Spec, WfExp, Exp2Reg, SameControls, DischargeVars, FreeExp;
    var fs0 := fs.(freereg := lo);
    assert Exp2NextReg(fs, e) == Exp2Reg(ReserveRegs(fs0, 1), d, lo) by { ReserveFrees(fs0); }
    hide ReserveRegs, Exp2NextReg, RegsOk;
    SameProgramOk(X, o, fs, fs0, ext, d, lo, v);
    IntoFreeReg(X, o, fs0, ext, d, lo, v);
  }

  lemma ReserveFrees(fs: Fs)
    ensures ReserveRegs(fs, 1).freereg == fs.freereg + 1
  {
  }

  lemma PromiseRegs(X: Ctx, o: Out, fs: Fs, ext: set<nat>, e: Exp, lo: int, v: Value)
    requires Promise(X, o, fs, ext, e, lo, v)
    ensures fs.maxstack < MAXREGS && 0 <= fs.nactvar <= lo < MAXREGS && RegsOk(fs, e, lo)
  {
  }

  lemma Exp2AnyRegGrew(fs: Fs, e: Exp)
    ensures Grew(fs, Exp2AnyReg(fs, e).0)
  {
    var d := DischargeVars(e);
    if d.k.VNonReloc? { Exp2RegKept(fs, d, d.k.reg); }
    Exp2NextRegGrew(fs, d);
  }

  /** `luaK_exp2anyreg`. */
  lemma Exp2AnyRegOk(X: Ctx, o: Out, fs: Fs, ext: set<nat>, e: Exp, lo: int, v: Value)
    requires Promise(X, o, fs, ext, e, lo, v)
    requires var g := Exp2AnyReg(fs, e).0; g.ok && g.k <= X.E.k
    ensures var (g, r) := Exp2AnyReg(fs, e);
      r.k.VNonReloc? && !HasJumps(r) && Promise(X, o, g, ext, r, lo, v) && SameControls(fs.code, g.code, ext)
  {
    var d := DischargeVars(e);
    DischargeVarsOk(X, o, fs, ext, e, lo, v);
    if d.k.VNonReloc? && !HasJumps(d) {
    } else if d.k.VNonReloc? && d.k.reg >= fs.nactvar {
      Exp2RegKept(fs, d, d.k.reg);
      Exp2RegOk(X, o, fs, ext, d, d.k.reg, lo, -1, v);
    } else {
      Exp2NextRegOk(X, o, fs, ext, d, lo, v);
      assert DischargeVars(d) == d;
    }
  }

  lemma Exp2ValGrew(fs: Fs, e: Exp)
    ensures Grew(fs, Exp2Val(fs, e).0)
  {
    Exp2AnyRegGrew(fs, e);
  }

  lemma Exp2ValOk(X: Ctx, o: Out, fs: Fs, ext: set<nat>, e: Exp, lo: int, v: Value)
    requires Promise(X, o, fs, ext, e, lo, v)
    requires var g := Exp2Val(fs, e).0; g.ok && g.k <= X.E.k
    ensures var (g, r) := Exp2Val(fs, e);
      !HasJumps(r) && !r.k.VLocal? && Promise(X, o, g, ext, r, lo, v) && SameControls(fs.code, g.code, ext)
  {
    if HasJumps(e) { Exp2AnyRegOk(X, o, fs, ext, e, lo, v); } else { DischargeVarsOk(X, o, fs, ext, e, lo, v); }
  }

  lemma Exp2KOk(X: Ctx, o: Out, fs: Fs, ext: set<nat>, e: Exp, lo: int, v: Value)
    requires Promise(X, o, fs, ext, e, lo, v)
    requires var g := Exp2K(fs, e).0; g.ok && g.k <= X.E.k
    ensures var (g, r) := Exp2K(fs, e);
      && Promise(X, o, g, ext, r, lo, v) && g.code == fs.code && Kept(fs, g)
      && r.t == e.t && r.f == e.f && (r.k == e.k || (r.k.VK? && ConstKind(e)))
  {
    var (g, r) := Exp2K(fs, e);
    Exp2KShape(X.E, fs, e);
    PromiseRegs(X, o, fs, ext, e, lo, v);
    hide Spec, WfExp, Exp2K;
    SameProgramOk(X, o, fs, g, ext, e, lo, v);
    if r.k != e.k { ConstAsK(X, o, g, ext, e, r.k.idx, lo, v); }
  }

  lemma Exp2KShape(E: Env, fs: Fs, e: Exp)
    requires KindOk(fs, e) && Exp2K(fs, e).0.k <= E.k
    ensures var (g, r) := Exp2K(fs, e);
      && Kept(fs, g) && g == fs.(k := g.k, h := g.h, ok := g.ok)
      && r == e.(k := r.k) && KindOk(g, e)
      && (r.k != e.k ==> ConstKind(e) && r.k.VK? && 0 <= r.k.idx < |g.k|
                         && Const(E, r.k.idx) == KindValue(E, g, e, map[]))
  {
  }

  /** A constant is the same value when it is referred to by its index. */
  lemma ConstAsK(X: Ctx, o: Out, fs: Fs, ext: set<nat>, e: Exp, i: int, lo: int, v: Value)
    requires WfExp(fs, ext, e, X.q) && Spec(X, o, fs, ext, e, lo, -1, v) && ConstKind(e)
    requires 0 <= i < |fs.k| && Const(X.E, i) == KindValue(X.E, fs, e, map[])
    ensures WfExp(fs, ext, e.(k := VK(i)), X.q) && Spec(X, o, fs, ext, e.(k := VK(i)), lo, -1, v)
  {
    WholeTrunc(fs, e);
    WholeTrunc(fs, e.(k := VK(i)));
  }

  /** The operand `x` names the value of `d` and goes on naming it while the
      registers below the first free one stay. */
  predicate Operand(fs: Fs, d: Exp, x: int) {
    && !HasJumps(d)
    && ((d.k.VK? && d.k.idx <= MAXINDEXRK && x == d.k.idx + BITRK) || (d.k.VNonReloc? && x == d.k.reg))
  }

  lemma Exp2RKGrew(fs: Fs, e: Exp)
    ensures Grew(fs, Exp2RK(fs, e).0)
  {
    Exp2ValGrew(fs, e);
    var (fs1, e1) := Exp2Val(fs, e);
    var (fs2, e2) := Exp2K(fs1, e1);
    assert Grew(fs1, fs2);
    Exp2AnyRegGrew(fs2, e2);
  }

  /** `luaK_exp2RK`. */
  lemma Exp2RKOk(X: Ctx, o: Out, fs: Fs, ext: set<nat>, e: Exp, lo: int, v: Value)
    requires Promise(X, o, fs, ext, e, lo, v)
    requires var g := Exp2RK(fs, e).0; g.ok && g.k <= X.E.k
    ensures var (g, d, x) := Exp2RK(fs, e);
      Promise(X, o, g, ext, d, lo, v) && Operand(g, d, x) && SameControls(fs.code, g.code, ext)
  {
    hide Promise, SameControls, Exp2AnyReg, Exp2Val, Exp2K;
    var (fs1, e1) := Exp2Val(fs, e);
    var (fs2, e2) := Exp2K(fs1, e1);
    Exp2AnyRegGrew(fs2, e2);
    KGrew(fs1, e1);
    Exp2ValOk(X, o, fs, ext, e, lo, v);
    Exp2KOk(X, o, fs1, ext, e1, lo, v);
    if !(e2.k.VK? && e2.k.idx <= MAXINDEXRK) {
      Exp2AnyRegOk(X, o, fs2, ext, e2, lo, v);
      SameControlsTrans(fs.code, fs2.code, Exp2AnyReg(fs2, e2).0.code, ext);
    }
  }

  lemma KGrew(fs: Fs, e: Exp)
    ensures Grew(fs, Exp2K(fs, e).0)
  {
  }

  /** An operand converted again stays what it is. */
  lemma Exp2RKTwice(fs: Fs, d: Exp, x: int)
    requires Operand(fs, d, x)
    ensures Exp2RK(fs, d) == (fs, d, x)
  {
  }

  lemma Exp2RKOperand(m: Fs, e: Exp)
    ensures var (g, d, x) := Exp2RK(m, e); Operand(g, d, x)
  {
    var (g, d) := Exp2Val(m, e);
    assert !HasJumps(d);
    hide Exp2Val;
  }
}
