/** Moving the value of an expression into a register: `discharge2reg`,
  `exp2reg` and the functions built on them keep the promise of the
  descriptor. */
module CodeGenValue {
  import opened LuaVm
  import opened CodeGenModel
  import opened CodeGenSim
  import opened CodeGenNil
  import opened CodeGenSpec

  // ---- discharge2reg ----

  /** A step that loads the value of `e` into `reg` at the end of the code. */
  ghost predicate Loads(X: Ctx, fs: Fs, ext: set<nat>, e: Exp, g: Fs, reg: int)
    requires KindOk(fs, e)
  {
    var s := Sem(X, Trunc(fs, e), Pending(fs, ext, e));
    var s' := Sem(X, g, g.jpc + ext + e.t + e.f);
    match s
    case At(_, R) => s' == At(|g.code|, R[reg := KindValue(X.E, fs, e, R)])
    case _ => s' == s
  }

  lemma LoadedSpec(X: Ctx, o: Out, fs: Fs, ext: set<nat>, e: Exp, g: Fs, reg: int, lo: int, x: int, v: Value)
    requires WfExp(fs, ext, e, X.q) && Spec(X, o, fs, ext, e, lo, x, v)
    requires 0 <= reg < MAXREGS && (reg >= lo || reg == x)
    requires Loads(X, fs, ext, e, g, reg)
    requires SameControls(fs.code, g.code, e.t + e.f)
    ensures Spec(X, o, g, ext, Exp(VNonReloc(reg), e.t, e.f), lo, x, v)
  {
    hide EndOf, WfExp, Const, SetsValue;
    WholeTrunc(g, Exp(VNonReloc(reg), e.t, e.f));
    var s := Sem(X, Trunc(fs, e), Pending(fs, ext, e));
    if o.At? && s.Exit? {
      assert s.jump in e.t + e.f;
      assert SameControl(fs.code, g.code, s.jump);
    }
  }

  /** The well-formedness of what is left when code was added. */
  lemma LoadedWf(fs: Fs, ext: set<nat>, e: Exp, g: Fs, reg: int, q: nat)
    requires WfExp(fs, ext, e, q) && !e.k.VJmp? && 0 <= reg < MAXREGS
    requires g.jpc <= fs.jpc && |fs.code| <= |g.code| && (q == |g.code| ==> !NilOpen(g))
    requires JumpSet(g.code, g.jpc + ext + e.t + e.f)
    requires Tidy(g, g.jpc + ext + e.t + e.f, q)
    requires g.nactvar == fs.nactvar && g.maxstack == fs.maxstack
    ensures WfExp(g, ext, Exp(VNonReloc(reg), e.t, e.f), q)
  {
    WholeTrunc(g, Exp(VNonReloc(reg), e.t, e.f));
  }

  predicate ConstKind(e: Exp) {
    e.k.VNil? || e.k.VTrue? || e.k.VFalse? || e.k.VK? || e.k.VKInt? || e.k.VKFlt?
  }

  /** A step that loads the constant `c` and lets every waiting jump arrive. */
  ghost predicate LoadsConst(X: Ctx, fs: Fs, P: set<nat>, g: Fs, reg: int, c: Value) {
    && Sem(X, g, P - fs.jpc) == LoadOut(|g.code|, reg, c, Sem(X, fs, P))
    && g.jpc == {}
    && |fs.code| <= |g.code| && (|fs.code| == |g.code| ==> X.q < |g.code|)
    && JumpSet(g.code, P - fs.jpc) && Tidy(g, P - fs.jpc, X.q)
    && g.nactvar == fs.nactvar && g.maxstack == fs.maxstack
    && SameControls(fs.code, g.code, P - fs.jpc)
  }

  lemma LoadBoolOk(X: Ctx, fs: Fs, P: set<nat>, reg: int, b: int)
    requires Ready(X, fs, P) && Tidy(fs, P, X.q)
    ensures LoadsConst(X, fs, P, Code(fs, LoadBool(reg, b, 0)), reg, Bool(b != 0))
  {
    CodePlainSem(X, fs, LoadBool(reg, b, 0), P);
    CodeTidy(fs, LoadBool(reg, b, 0), P, X.q);
  }

  lemma LoadNilOk(X: Ctx, fs: Fs, P: set<nat>, reg: int)
    requires Ready(X, fs, P) && Tidy(fs, P, X.q) && 0 <= reg
    requires X.q == |fs.code| ==> !NilOpen(fs)
    ensures LoadsConst(X, fs, P, CodeNil(fs, reg, 1), reg, Nil)
  {
    CodeNilSem(X, fs, reg, P);
    NilTidy(fs, reg, P, X.q);
  }

  lemma LoadKOk(X: Ctx, fs: Fs, h: Fs, P: set<nat>, reg: int, k: int)
    requires Ready(X, fs, P) && Tidy(fs, P, X.q)
    requires h == fs.(k := h.k, h := h.h, ok := h.ok)
    ensures LoadsConst(X, fs, P, CodeK(h, reg, k), reg, Const(X.E, k))
  {
    SameCode(X, fs, h, P);
    CodeKSem(X, h, reg, k, P);
    CodeKTidy(h, reg, k, P, X.q);
  }

  /** Constants: the emitted instruction does not look at the registers. */
  lemma ConstOk(X: Ctx, fs: Fs, P: set<nat>, e: Exp, reg: int)
    requires KindOk(fs, e) && ConstKind(e) && 0 <= reg
    requires Ready(X, fs, P) && Tidy(fs, P, X.q)
    requires X.q == |fs.code| ==> !NilOpen(fs)
    requires Discharge2Reg(fs, e, reg).0.k <= X.E.k
    ensures LoadsConst(X, fs, P, Discharge2Reg(fs, e, reg).0, reg, KindValue(X.E, fs, e, map[]))
  {
    hide LoadsConst, Tidy, Ready;
    match e.k
    case VNil => LoadNilOk(X, fs, P, reg);
    case VTrue => LoadBoolOk(X, fs, P, reg, 1);
    case VFalse => LoadBoolOk(X, fs, P, reg, 0);
    case VK(i) => LoadKOk(X, fs, fs, P, reg, i);
    case VKInt(i) => LoadKOk(X, fs, AddK(fs, Int(i)).0, P, reg, AddK(fs, Int(i)).1);
    case VKFlt(r) => LoadKOk(X, fs, AddK(fs, Flt(r)).0, P, reg, AddK(fs, Flt(r)).1);
  }

  /** The constant list does not matter to pending jumps. */
  lemma SameCode(X: Ctx, fs: Fs, h: Fs, P: set<nat>)
    requires h == fs.(k := h.k, h := h.h, ok := h.ok)
    ensures Sem(X, h, P) == Sem(X, fs, P)
    ensures forall S, q :: Tidy(fs, S, q) ==> Tidy(h, S, q)
  {
  }

  /** A NOT whose destination is filled in. */
  lemma RelocLoads(X: Ctx, fs: Fs, ext: set<nat>, e: Exp, reg: int)
    requires WfExp(fs, ext, e, X.q) && e.k.VReloc?
    requires Ready(X, Trunc(fs, e), Pending(fs, ext, e))
    ensures Loads(X, fs, ext, e, Discharge2Reg(fs, e, reg).0, reg)
  {
    var g := Discharge2Reg(fs, e, reg).0;
    var n := |fs.code|;
    var A := fs.code[..n - 1];
    var P := Pending(fs, ext, e);
    assert g.code == A + [Not(reg, fs.code[n - 1].b)];
    AppendOut(X, A, [Not(reg, fs.code[n - 1].b)], P, P);
    var s := EndOf(X, A, P);
    if s.At? { RunLast(X.E, g.code, P, s.regs); }
  }

  lemma RelocFrame(fs: Fs, ext: set<nat>, e: Exp, reg: int, q: nat)
    requires WfExp(fs, ext, e, q) && e.k.VReloc?
    ensures var g := Discharge2Reg(fs, e, reg).0; var P := Pending(fs, ext, e);
      SameControls(fs.code, g.code, P) && JumpSet(g.code, P) && Tidy(g, P, q)
  {
    var g := Discharge2Reg(fs, e, reg).0;
    var n := |fs.code|;
    var P := Pending(fs, ext, e);
    forall p | p in P ensures SameControl(fs.code, g.code, p) && p < |g.code| && g.code[p].Jmp? {
      assert p < n - 1 && fs.code[..n - 1][p].Jmp?;
    }
    forall j | q <= j < n ensures TidyAt(g.code, g.lasttarget, P, j) {
      assert TidyAt(fs.code, fs.lasttarget, P, j);
    }
  }

  lemma RelocOk(X: Ctx, o: Out, fs: Fs, ext: set<nat>, e: Exp, reg: int, lo: int, x: int, v: Value)
    requires WfExp(fs, ext, e, X.q) && Spec(X, o, fs, ext, e, lo, x, v) && e.k.VReloc?
    requires 0 <= reg < MAXREGS && (reg >= lo || reg == x)
    ensures var g := Discharge2Reg(fs, e, reg).0; var d := Exp(VNonReloc(reg), e.t, e.f);
      WfExp(g, ext, d, X.q) && Spec(X, o, g, ext, d, lo, x, v)
    ensures SameControls(fs.code, Discharge2Reg(fs, e, reg).0.code, ext)
  {
    var g := Discharge2Reg(fs, e, reg).0;
    RelocLoads(X, fs, ext, e, reg);
    RelocFrame(fs, ext, e, reg, X.q);
    LoadedSpec(X, o, fs, ext, e, g, reg, lo, x, v);
    LoadedWf(fs, ext, e, g, reg, X.q);
  }

  /** A register copied to another, or used where it is. */
  lemma MoveOk(X: Ctx, o: Out, fs: Fs, ext: set<nat>, e: Exp, r: int, reg: int, lo: int, x: int, v: Value)
    requires WfExp(fs, ext, e, X.q) && Spec(X, o, fs, ext, e, lo, x, v)
    requires e.k == VLocal(r) || e.k == VNonReloc(r)
    requires 0 <= reg < MAXREGS && (reg >= lo || reg == x)
    ensures var g := Discharge2Reg(fs, e, reg).0; var d := Exp(VNonReloc(reg), e.t, e.f);
      WfExp(g, ext, d, X.q) && Spec(X, o, g, ext, d, lo, x, v)
    ensures SameControls(fs.code, Discharge2Reg(fs, e, reg).0.code, ext)
  {
    hide EndOf, CodeNil;
    WholeTrunc(fs, e);
    var g := Discharge2Reg(fs, e, reg).0;
    if reg == r {
      assert g == fs;
      WholeTrunc(fs, Exp(VNonReloc(reg), e.t, e.f));
    } else {
      CopyLoads(X, fs, ext, e, r, reg);
      hide Spec, WfExp, Loads;
      LoadedSpec(X, o, fs, ext, e, g, reg, lo, x, v);
      LoadedWf(fs, ext, e, g, reg, X.q);
    }
  }

  lemma CopyLoads(X: Ctx, fs: Fs, ext: set<nat>, e: Exp, r: int, reg: int)
    requires WfExp(fs, ext, e, X.q) && (e.k == VLocal(r) || e.k == VNonReloc(r))
    requires Ready(X, fs, Pending(fs, ext, e)) && Trunc(fs, e) == fs
    ensures var g := Code(fs, Move(reg, r));
      && Loads(X, fs, ext, e, g, reg) && g.jpc == {} && |g.code| == |fs.code| + 1
      && JumpSet(g.code, g.jpc + ext + e.t + e.f) && Tidy(g, g.jpc + ext + e.t + e.f, X.q)
      && SameControls(fs.code, g.code, ext + e.t + e.f) && X.q < |g.code|
  {
    var P := Pending(fs, ext, e);
    assert P - fs.jpc == {} + ext + e.t + e.f;
    CodePlainSem(X, fs, Move(reg, r), P);
    CodeTidy(fs, Move(reg, r), P, X.q);
  }

  /** Kinds whose value is loaded by emitting one more instruction. */
  lemma Discharge2RegOk(X: Ctx, o: Out, fs: Fs, ext: set<nat>, e: Exp, reg: int, lo: int, x: int, v: Value)
    requires WfExp(fs, ext, e, X.q) && Spec(X, o, fs, ext, e, lo, x, v) && !e.k.VJmp?
    requires 0 <= reg < MAXREGS && (reg >= lo || reg == x)
    requires Discharge2Reg(fs, e, reg).0.k <= X.E.k
    ensures var (g, d) := Discharge2Reg(fs, e, reg);
      && d == Exp(VNonReloc(reg), e.t, e.f)
      && WfExp(g, ext, d, X.q) && Spec(X, o, g, ext, d, lo, x, v)
    ensures SameControls(fs.code, Discharge2Reg(fs, e, reg).0.code, ext)
  {
    hide Spec, WfExp, Loads, SameControls;
    match e.k
    case VReloc(_) => RelocOk(X, o, fs, ext, e, reg, lo, x, v);
    case VLocal(r) => MoveOk(X, o, fs, ext, e, r, reg, lo, x, v);
    case VNonReloc(r) => MoveOk(X, o, fs, ext, e, r, reg, lo, x, v);
    case _ => ConstSpec(X, o, fs, ext, e, reg, lo, x, v);
  }

  lemma ConstSpec(X: Ctx, o: Out, fs: Fs, ext: set<nat>, e: Exp, reg: int, lo: int, x: int, v: Value)
    requires WfExp(fs, ext, e, X.q) && Spec(X, o, fs, ext, e, lo, x, v) && ConstKind(e)
    requires 0 <= reg < MAXREGS && (reg >= lo || reg == x)
    requires Discharge2Reg(fs, e, reg).0.k <= X.E.k
    ensures var g := Discharge2Reg(fs, e, reg).0; var d := Exp(VNonReloc(reg), e.t, e.f);
      WfExp(g, ext, d, X.q) && Spec(X, o, g, ext, d, lo, x, v)
    ensures SameControls(fs.code, Discharge2Reg(fs, e, reg).0.code, ext)
  {
    hide Discharge2Reg;
    var g := Discharge2Reg(fs, e, reg).0;
    var P := Pending(fs, ext, e);
    WholeTrunc(fs, e);
    ConstOk(X, fs, P, e, reg);
    assert P - fs.jpc == ext + e.t + e.f == g.jpc + ext + e.t + e.f;
    LoadedWf(fs, ext, e, g, reg, X.q);
    assert forall R :: KindValue(X.E, fs, e, R) == KindValue(X.E, fs, e, map[]);
    LoadedSpec(X, o, fs, ext, e, g, reg, lo, x, v);
  }
}
