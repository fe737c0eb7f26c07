/** `codenot` and `codecomp`. */
module CodeGenNot {
  import opened LuaVm
  import opened CodeGenModel
  import opened CodeGenSim
  import opened CodeGenNil
  import opened CodeGenSpec
  import opened CodeGenValue
  import opened CodeGenClose
  import opened CodeGenOperand
  import opened CodeGenCond

  function Negated(v: Value): Value {
    Bool(!Truthy(v))
  }

  // ---- removevalues ----

  function Bare(code: seq<Instr>, L: set<nat>, M: set<nat>): seq<Instr> {
    RemoveValues(RemoveValues(code, L), M)
  }

  lemma BareIsPatched(code: seq<Instr>, L: set<nat>, M: set<nat>)
    requires JumpSet(code, L + M)
    ensures Patched(code, Bare(code, L, M), L + M)
    ensures forall p :: p in L + M ==> !SetsValue(Bare(code, L, M), p)
    ensures forall i :: 0 <= i < |code| && i + 1 !in L + M ==> Bare(code, L, M)[i] == code[i]
  {
    var B := RemoveValues(code, L);
    var C := RemoveValues(B, M);
    forall i | 0 <= i < |code|
      ensures PatchedAt(code, C, L + M, i)
      ensures i + 1 in L + M ==> !C[i].TestSet?
    {
      assert i in L + M ==> code[i].Jmp?;
      assert i + 1 in L + M ==> i + 1 < |code| && code[i + 1].Jmp?;
      assert B[i] == if i !in L && i + 1 in L && code[i].TestSet? then PatchTest(code[i], NO_REG) else code[i];
      assert C[i] == if i !in M && i + 1 in M && B[i].TestSet? then PatchTest(B[i], NO_REG) else B[i];
    }
  }

  lemma TakeBare(code: seq<Instr>, L: set<nat>, M: set<nat>, n: nat)
    requires n <= |code| && JumpSet(code[..n], L + M)
    ensures Bare(code, L, M)[..n] == Bare(code[..n], L, M)
  {
    assert RemoveValues(code, L)[..n] == RemoveValues(code[..n], L);
    assert RemoveValues(RemoveValues(code, L), M)[..n] == RemoveValues(RemoveValues(code, L)[..n], M);
  }

  /** Taking the values away changes no run. */
  lemma BareRun(X: Ctx, code: seq<Instr>, S: set<nat>, L: set<nat>, M: set<nat>)
    requires JumpSet(code, S) && L + M <= S && !EndOf(X, code, S).Stuck?
    ensures EndOf(X, Bare(code, L, M), S) == EndOf(X, code, S)
  {
    BareIsPatched(code, L, M);
    RunPatched(X.E, code, Bare(code, L, M), S, L + M, {}, X.q, X.R0);
    assert S - {} == S;
  }

  // ---- codenot ----

  /** Like `Spec`, but what arrives is the negation of `v`, and exits need carry
      nothing. */
  ghost predicate Flipped(X: Ctx, o: Out, fs: Fs, ext: set<nat>, e: Exp, lo: int, v: Value)
    requires KindOk(fs, e)
  {
    var s := Sem(X, Trunc(fs, e), Pending(fs, ext, e));
    match o
    case Stuck => false
    case Exit(p, _) => p in ext && s == o
    case At(_, A) =>
      match s
      case Stuck => false
      case At(m, R) => m == Base(fs, e) && Same(A, R, lo, -1) && KindValue(X.E, fs, e, R) == Negated(v)
      case Exit(p, R) => Same(A, R, lo, -1) && (if p in e.t then Truthy(v) else p in e.f && !Truthy(v))
  }

  ghost predicate FlipPromise(X: Ctx, o: Out, fs: Fs, ext: set<nat>, e: Exp, lo: int, v: Value) {
    WfExp(fs, ext, e, X.q) && Flipped(X, o, fs, ext, e, lo, v) && RegsOk(fs, e, lo)
  }

  lemma ConstFlip(X: Ctx, o: Out, fs: Fs, ext: set<nat>, e: Exp, lo: int, v: Value)
    requires Promise(X, o, fs, ext, e, lo, v) && ConstKind(e) && TrueConst(X.E, e)
    ensures var k := if e.k.VNil? || e.k.VFalse? then VTrue else VFalse;
      FlipPromise(X, o, fs, ext, e.(k := k), lo, v)
  {
    WholeTrunc(fs, e);
    WholeTrunc(fs, e.(k := VTrue));
    WholeTrunc(fs, e.(k := VFalse));
  }

  lemma JumpFlip(X: Ctx, o: Out, fs: Fs, ext: set<nat>, e: Exp, lo: int, v: Value)
    requires Promise(X, o, fs, ext, e, lo, v) && e.k.VJmp?
    ensures var g := InvertJump(fs, e.k.pc);
      FlipPromise(X, o, g, ext, e, lo, v) && SameControls(fs.code, g.code, ext)
  {
    var n := |fs.code|;
    var g := InvertJump(fs, e.k.pc);
    var A := fs.code[..n - 2];
    assert g.code[..n - 2] == A;
    assert Trunc(g, e) == Trunc(fs, e);
    var Q := AllPending(fs, ext, e);
    assert AllPending(g, ext, e) == Q;
    forall i | X.q <= i < |g.code| ensures TidyAt(g.code, g.lasttarget, Q, i) {
      assert TidyAt(fs.code, fs.lasttarget, Q, i);
    }
    forall p | p in ext ensures SameControl(fs.code, g.code, p) {
      assert p in Pending(fs, ext, e);
      assert A[p].Jmp?;
    }
  }

  /** A NOT is emitted; its destination stays open. */
  lemma EmitNotSem(X: Ctx, fs: Fs, ext: set<nat>, e: Exp)
    requires WfExp(fs, ext, e, X.q) && e.k.VNonReloc? && Ready(X, fs, Pending(fs, ext, e))
    ensures var g := Code(fs, Not(0, e.k.reg)); var d := e.(k := VReloc(|fs.code|));
      && Sem(X, Trunc(g, d), Pending(g, ext, d)) == Sem(X, fs, Pending(fs, ext, e))
      && g.jpc == {} && Base(g, d) == |fs.code| && SameControls(fs.code, g.code, ext + e.t + e.f)
      && g.code[|fs.code|] == Not(0, e.k.reg) && |g.code| == |fs.code| + 1
  {
    var g := Code(fs, Not(0, e.k.reg));
    var d := e.(k := VReloc(|fs.code|));
    var P := Pending(fs, ext, e);
    assert g.code[..|fs.code|] == Discharge(fs).code;
    assert Pending(g, ext, d) == P - fs.jpc == ext + e.t + e.f;
    DischargeSem(X, fs, P);
    CodeJumps(fs, Not(0, e.k.reg), P);
  }

  lemma EmitNotWf(fs: Fs, ext: set<nat>, e: Exp, q: nat)
    requires WfExp(fs, ext, e, q) && e.k.VNonReloc?
    ensures WfExp(Code(fs, Not(0, e.k.reg)), ext, e.(k := VReloc(|fs.code|)), q)
  {
    var g := Code(fs, Not(0, e.k.reg));
    var d := e.(k := VReloc(|fs.code|));
    var P := Pending(fs, ext, e);
    WholeTrunc(fs, e);
    assert Pending(g, ext, d) == P - fs.jpc == AllPending(g, ext, d);
    CodeJumps(fs, Not(0, e.k.reg), P);
    CodeTidy(fs, Not(0, e.k.reg), P, q);
    forall p | p in P - fs.jpc ensures p < |fs.code| && g.code[..|fs.code|][p].Jmp? {
      assert fs.code[p].Jmp?;
    }
  }

  lemma EmitNotFlip(X: Ctx, o: Out, fs: Fs, ext: set<nat>, e: Exp, lo: int, v: Value)
    requires WfExp(fs, ext, e, X.q) && Spec(X, o, fs, ext, e, lo, -1, v) && e.k.VNonReloc?
    requires fs.nactvar <= lo == fs.freereg < MAXREGS
    ensures var g := Code(fs, Not(0, e.k.reg));
      FlipPromise(X, o, g, ext, e.(k := VReloc(|fs.code|)), lo, v) && SameControls(fs.code, g.code, ext)
  {
    WholeTrunc(fs, e);
    EmitNotSem(X, fs, ext, e);
    EmitNotWf(fs, ext, e, X.q);
  }

  /** The exits exchange their roles and lose their values. */
  lemma FlippedSwap(X: Ctx, o: Out, fs: Fs, ext: set<nat>, e: Exp, lo: int, v: Value)
    requires FlipPromise(X, o, fs, ext, e, lo, v)
    ensures var g := fs.(code := Bare(fs.code, e.t, e.f)); var d := Exp(e.k, e.f, e.t);
      Promise(X, o, g, ext, d, lo, Negated(v)) && SameControls(fs.code, g.code, ext)
  {
    hide WfExp, Spec, Bare, SameControls;
    SwapWf(fs, ext, e, X.q);
    SwapSpec(X, o, fs, ext, e, lo, v);
  }

  lemma SwapSpec(X: Ctx, o: Out, fs: Fs, ext: set<nat>, e: Exp, lo: int, v: Value)
    requires WfExp(fs, ext, e, X.q) && Flipped(X, o, fs, ext, e, lo, v)
    ensures var g := fs.(code := Bare(fs.code, e.t, e.f)); var d := Exp(e.k, e.f, e.t);
      KindOk(g, d) && Spec(X, o, g, ext, d, lo, -1, Negated(v))
  {
    var g := fs.(code := Bare(fs.code, e.t, e.f));
    var d := Exp(e.k, e.f, e.t);
    BareKind(fs, ext, e, X.q);
    BareSem(X, fs, ext, e);
    ListsInBase(fs, ext, e, X.q);
    BareIsPatched(fs.code, e.t, e.f);
    assert Pending(g, ext, d) == Pending(fs, ext, e);
    hide Flipped, Spec, Patched, Bare, Run, Trunc;
    SpecOfFlipped(X, o, fs, ext, e, g, d, lo, v);
  }

  lemma SpecOfFlipped(X: Ctx, o: Out, fs: Fs, ext: set<nat>, e: Exp, g: Fs, d: Exp, lo: int, v: Value)
    requires KindOk(fs, e) && KindOk(g, d) && Flipped(X, o, fs, ext, e, lo, v)
    requires Sem(X, Trunc(g, d), Pending(g, ext, d)) == Sem(X, Trunc(fs, e), Pending(fs, ext, e))
    requires Base(g, d) == Base(fs, e) && d == Exp(e.k, e.f, e.t) && e.t !! e.f
    requires forall E, R :: KindValue(E, g, d, R) == KindValue(E, fs, e, R)
    requires forall p :: p in e.t + e.f ==> !SetsValue(g.code, p)
    ensures Spec(X, o, g, ext, d, lo, -1, Negated(v))
  {
    hide Sem, Trunc, Pending, KindOk, Base, SetsValue;
    var s := Sem(X, Trunc(fs, e), Pending(fs, ext, e));
    if o.At? && s.Exit? { assert s.jump in e.t + e.f; }
  }

  lemma BareSem(X: Ctx, fs: Fs, ext: set<nat>, e: Exp)
    requires WfExp(fs, ext, e, X.q) && !Sem(X, Trunc(fs, e), Pending(fs, ext, e)).Stuck?
    ensures var g := fs.(code := Bare(fs.code, e.t, e.f)); var d := Exp(e.k, e.f, e.t);
      Sem(X, Trunc(g, d), Pending(fs, ext, e)) == Sem(X, Trunc(fs, e), Pending(fs, ext, e))
  {
    var n := Base(fs, e);
    ListsInBase(fs, ext, e, X.q);
    BareIsPatched(fs.code, e.t, e.f);
    TakeBare(fs.code, e.t, e.f, n);
    BareRun(X, fs.code[..n], Pending(fs, ext, e), e.t, e.f);
  }

  lemma ListsInBase(fs: Fs, ext: set<nat>, e: Exp, q: nat)
    requires WfExp(fs, ext, e, q)
    ensures JumpSet(fs.code[..Base(fs, e)], e.t + e.f) && JumpSet(fs.code, e.t + e.f)
    ensures JumpSet(fs.code, Pending(fs, ext, e)) && forall p :: p in Pending(fs, ext, e) ==> p < Base(fs, e)
  {
    var A := fs.code[..Base(fs, e)];
    forall p | p in Pending(fs, ext, e) ensures p < Base(fs, e) && fs.code[p].Jmp? { assert A[p].Jmp?; }
  }

  lemma SwapWf(fs: Fs, ext: set<nat>, e: Exp, q: nat)
    requires WfExp(fs, ext, e, q)
    ensures var g := fs.(code := Bare(fs.code, e.t, e.f)); var d := Exp(e.k, e.f, e.t);
      WfExp(g, ext, d, q) && SameControls(fs.code, g.code, ext)
  {
    hide RemoveValues;
    var g := fs.(code := Bare(fs.code, e.t, e.f));
    var d := Exp(e.k, e.f, e.t);
    var n := Base(fs, e);
    var P, Q := Pending(fs, ext, e), AllPending(fs, ext, e);
    ListsInBase(fs, ext, e, q);
    BareIsPatched(fs.code, e.t, e.f);
    assert Pending(g, ext, d) == P && AllPending(g, ext, d) == Q;
    var B := g.code[..n];
    forall p | p in P ensures p < |B| && B[p].Jmp? { assert PatchedAt(fs.code, g.code, e.t + e.f, p); }
    forall p | p in ext ensures SameControl(fs.code, g.code, p) {
      assert p in P && p < |fs.code| && p !in e.t + e.f;
      if p > 0 { assert g.code[p - 1] == fs.code[p - 1]; }
    }
    forall i | q <= i < |g.code| ensures TidyAt(g.code, g.lasttarget, Q, i) {
      assert TidyAt(fs.code, fs.lasttarget, Q, i);
      assert PatchedAt(fs.code, g.code, e.t + e.f, i);
      if i + 1 < |g.code| { assert PatchedAt(fs.code, g.code, e.t + e.f, i + 1); }
    }
    BareKind(fs, ext, e, q);
  }

  /** The instruction whose value is still open is left alone. */
  lemma BareKind(fs: Fs, ext: set<nat>, e: Exp, q: nat)
    requires WfExp(fs, ext, e, q)
    ensures var g := fs.(code := Bare(fs.code, e.t, e.f)); var d := Exp(e.k, e.f, e.t);
      KindOk(g, d) && (forall E, R :: KindValue(E, g, d, R) == KindValue(E, fs, e, R)) && (NilOpen(g) ==> NilOpen(fs))
  {
    hide WfExp, Bare;
    BareEnd(fs, ext, e, q);
    KindIsOk(fs, ext, e, q);
  }

  lemma KindIsOk(fs: Fs, ext: set<nat>, e: Exp, q: nat)
    requires WfExp(fs, ext, e, q)
    ensures KindOk(fs, e)
  {
    hide Tidy, JumpSet;
  }

  lemma BareEnd(fs: Fs, ext: set<nat>, e: Exp, q: nat)
    requires WfExp(fs, ext, e, q)
    ensures var b := Bare(fs.code, e.t, e.f); var n := |fs.code|;
      |b| == n && (n >= 1 ==> b[n - 1] == fs.code[n - 1]) && (e.k.VJmp? && n >= 2 ==> b[n - 2] == fs.code[n - 2])
  {
    hide WfExp, Bare, JumpSet;
    ListsInBase(fs, ext, e, q);
    BareIsPatched(fs.code, e.t, e.f);
  }

  /** The kind of a negated expression before its exits are exchanged. */
  function NotKind(fs: Fs, e: Exp): (Fs, Kind) {
    match e.k
    case VNil => (fs, VTrue) case VFalse => (fs, VTrue)
    case VK(_) => (fs, VFalse) case VKFlt(_) => (fs, VFalse) case VKInt(_) => (fs, VFalse) case VTrue => (fs, VFalse)
    case VJmp(pc) => (InvertJump(fs, pc), e.k)
    case _ =>
      var (g, e1) := Discharge2AnyReg(fs, e);
      var g1 := FreeExp(g, e1);
      (Code(g1, Not(0, if e1.k.VNonReloc? then e1.k.reg else 0)), VReloc(|g1.code|))
  }

  lemma CodeNotIsSwap(fs: Fs, e: Exp)
    ensures var d := DischargeVars(e); var (g, k) := NotKind(fs, d);
      CodeNot(fs, e) == (g.(code := Bare(g.code, d.t, d.f)), Exp(k, d.f, d.t))
  {
    hide RemoveValues;
  }

  lemma NotRegOk(X: Ctx, o: Out, fs: Fs, ext: set<nat>, e: Exp, lo: int, v: Value)
    requires Promise(X, o, fs, ext, e, lo, v) && e.k.VNonReloc?
    ensures var g := Code(FreeExp(fs, e), Not(0, e.k.reg));
      FlipPromise(X, o, g, ext, e.(k := VReloc(|fs.code|)), lo, v) && SameControls(fs.code, g.code, ext)
  {
    FreeExpOk(fs, e, lo);
    PromiseRegs(X, o, fs, ext, e, lo, v);
    var h := fs.(freereg := lo);
    SameProgramOk(X, o, fs, h, ext, e, lo, v);
    hide Spec, WfExp, FlipPromise, Code, FreeExp, SameControls;
    EmitNotFlip(X, o, h, ext, e, lo, v);
  }

  lemma NotKindOk(X: Ctx, o: Out, fs: Fs, ext: set<nat>, e: Exp, lo: int, v: Value)
    requires Promise(X, o, fs, ext, e, lo, v) && !e.k.VLocal? && TrueConst(X.E, e)
    requires var g := NotKind(fs, e).0; g.ok && g.k <= X.E.k
    ensures var (g, k) := NotKind(fs, e);
      FlipPromise(X, o, g, ext, e.(k := k), lo, v) && SameControls(fs.code, g.code, ext)
  {
    hide Promise, FlipPromise, SameControls, Discharge2AnyReg, Code, FreeExp, InvertJump;
    if ConstKind(e) {
      ConstFlip(X, o, fs, ext, e, lo, v);
      SameControlsRefl(fs.code, ext);
    } else if e.k.VJmp? {
      JumpFlip(X, o, fs, ext, e, lo, v);
    } else {
      var (g, r) := Discharge2AnyReg(fs, e);
      FreeExpCode(g, r);
      CodeKept(FreeExp(g, r), Not(0, if r.k.VNonReloc? then r.k.reg else 0));
      Discharge2AnyRegOk(X, o, fs, ext, e, lo, v);
      NotRegOk(X, o, g, ext, r, lo, v);
      SameControlsTrans(fs.code, g.code, NotKind(fs, e).0.code, ext);
    }
  }

  lemma SameControlsRefl(code: seq<Instr>, S: set<nat>)
    ensures SameControls(code, code, S)
  {
  }

  lemma CodeKept(fs: Fs, i: Instr)
    ensures Kept(fs, Code(fs, i))
  {
  }

  /** `codenot`: the expression now denotes the negation of its value. */
  lemma CodeNotOk(X: Ctx, o: Out, fs: Fs, ext: set<nat>, e: Exp, lo: int, v: Value)
    requires Promise(X, o, fs, ext, e, lo, v) && TrueConst(X.E, e)
    requires var g := CodeNot(fs, e).0; g.ok && g.k <= X.E.k
    ensures var (g, r) := CodeNot(fs, e);
      Promise(X, o, g, ext, r, lo, Negated(v)) && SameControls(fs.code, g.code, ext) && !r.k.VK?
  {
    var d := DischargeVars(e);
    DischargeVarsOk(X, o, fs, ext, e, lo, v);
    CodeNotIsSwap(fs, e);
    var (g, k) := NotKind(fs, d);
    NotKindIsNoK(fs, d);
    assert TrueConst(X.E, d);
    hide Promise, FlipPromise, SameControls, NotKind, CodeNot, Bare, DischargeVars;
    NotKindOk(X, o, fs, ext, d, lo, v);
    FlippedSwap(X, o, g, ext, d.(k := k), lo, v);
    SameControlsTrans(fs.code, g.code, CodeNot(fs, e).0.code, ext);
  }

  lemma NotKindIsNoK(fs: Fs, e: Exp)
    ensures !NotKind(fs, e).1.VK?
  {
  }
}
