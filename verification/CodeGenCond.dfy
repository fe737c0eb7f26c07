/** Conditions: `jumponcond`, `luaK_goiftrue`, `luaK_goiffalse`, `codenot` and
  `codecomp`. */
module CodeGenCond {
  import opened LuaVm
  import opened CodeGenModel
  import opened CodeGenSim
  import opened CodeGenNil
  import opened CodeGenSpec
  import opened CodeGenValue
  import opened CodeGenClose
  import opened CodeGenOperand

  /** A descriptor used only for its exit lists. */
  function Lists(t: set<nat>, f: set<nat>): Exp {
    Exp(VNil, t, f)
  }

  /** After a condition: runs that stay have a value of truth `b`; the others
      left by the list of the truth they have. */
  ghost predicate Branched(X: Ctx, o: Out, fs: Fs, ext: set<nat>, t: set<nat>, f: set<nat>, lo: int, v: Value, b: bool) {
    var s := Sem(X, fs, fs.jpc + ext + t + f);
    match o
    case Stuck => false
    case Exit(p, _) => p in ext && s == o
    case At(_, A) =>
      match s
      case Stuck => false
      case At(m, R) => m == |fs.code| && Same(A, R, lo, -1) && Truthy(v) == b
      case Exit(p, R) =>
        && Same(A, R, lo, -1)
        && (if p in t then Truthy(v) else p in f && !Truthy(v))
        && ExitVal(fs.code, p, R, v)
  }

  /** `e` with `j` added to the list of truth `b`. */
  function AddJump(e: Exp, j: nat, b: bool): Exp {
    if b then Lists(e.t + {j}, e.f) else Lists(e.t, e.f + {j})
  }

  // ---- jumps on a value ----

  /** The code ends with a test of the value of `e` that jumps when its truth
      is `c`. */
  ghost predicate Tests(X: Ctx, fs: Fs, ext: set<nat>, e: Exp, g: Fs, j: nat, c: bool)
    requires KindOk(fs, e)
  {
    var s := Sem(X, Trunc(fs, e), Pending(fs, ext, e));
    && g.jpc == {}
    && |g.code| == j + 1
    && Sem(X, g, ext + e.t + e.f + {j}) ==
       (match s
        case At(_, R) => if Truthy(KindValue(X.E, fs, e, R)) == c then Exit(j, R) else At(|g.code|, R)
        case _ => s)
    && (match s
        case At(_, R) => ExitVal(g.code, j, R, KindValue(X.E, fs, e, R))
        case _ => true)
  }

  lemma TestedSpec(X: Ctx, o: Out, fs: Fs, ext: set<nat>, e: Exp, g: Fs, j: nat, c: bool, lo: int, v: Value)
    requires WfExp(fs, ext, e, X.q) && Spec(X, o, fs, ext, e, lo, -1, v)
    requires Tests(X, fs, ext, e, g, j, c) && SameControls(fs.code, g.code, e.t + e.f)
    requires forall p :: p in Pending(fs, ext, e) ==> p < j
    ensures var d := AddJump(e, j, c); Branched(X, o, g, ext, d.t, d.f, lo, v, !c)
  {
    var d := AddJump(e, j, c);
    assert g.jpc + ext + d.t + d.f == ext + e.t + e.f + {j};
    var s := Sem(X, Trunc(fs, e), Pending(fs, ext, e));
    if o.At? && s.Exit? {
      assert s.jump in e.t + e.f;
      assert SameControl(fs.code, g.code, s.jump);
    }
  }

  lemma TestedWf(fs: Fs, ext: set<nat>, e: Exp, g: Fs, j: nat, c: bool, q: nat)
    requires WfExp(fs, ext, e, q)
    requires g.jpc == {} && |g.code| == j + 1 && q <= j && forall p :: p in Pending(fs, ext, e) ==> p < j
    requires JumpSet(g.code, ext + e.t + e.f + {j}) && Tidy(g, ext + e.t + e.f + {j}, q)
    requires g.nactvar == fs.nactvar && g.maxstack < MAXREGS
    ensures WfExp(g, ext, AddJump(e, j, c), q)
  {
    var d := AddJump(e, j, c);
    WholeTrunc(g, d);
    assert Pending(g, ext, d) == ext + e.t + e.f + {j};
    assert d.t + d.f == e.t + e.f + {j};
  }

  /** TESTSET on a value in a register. */
  lemma TestSetTests(X: Ctx, fs: Fs, ext: set<nat>, e: Exp, c: int)
    requires WfExp(fs, ext, e, X.q) && e.k.VNonReloc? && Ready(X, fs, Pending(fs, ext, e))
    ensures var g := CondJump(fs, TestSet(NO_REG, e.k.reg, c)).0; var j := |fs.code| + 1;
      && Tests(X, fs, ext, e, g, j, c != 0)
      && JumpSet(g.code, ext + e.t + e.f + {j}) && Tidy(g, ext + e.t + e.f + {j}, X.q)
      && SameControls(fs.code, g.code, ext + e.t + e.f)
      && CondJump(fs, TestSet(NO_REG, e.k.reg, c)).1 == {j}
  {
    var i := TestSet(NO_REG, e.k.reg, c);
    var P := Pending(fs, ext, e);
    WholeTrunc(fs, e);
    assert P - fs.jpc == ext + e.t + e.f;
    CondJumpSem(X, fs, i, P);
    CondJumpTidy(fs, i, P, X.q);
  }

  /** TEST in place of a NOT that was taken back. */
  lemma NotTests(X: Ctx, fs: Fs, ext: set<nat>, e: Exp, c: int)
    requires WfExp(fs, ext, e, X.q) && e.k.VReloc? && Ready(X, Trunc(fs, e), Pending(fs, ext, e))
    ensures var h := fs.(code := fs.code[..|fs.code| - 1]); var i := Test(fs.code[e.k.pc].b, if c == 0 then 1 else 0);
      var g := CondJump(h, i).0; var j := |fs.code|;
      && Tests(X, fs, ext, e, g, j, c != 0)
      && JumpSet(g.code, ext + e.t + e.f + {j}) && Tidy(g, ext + e.t + e.f + {j}, X.q)
      && SameControls(fs.code, g.code, ext + e.t + e.f)
      && CondJump(h, i).1 == {j}
  {
    var n := |fs.code|;
    var h := fs.(code := fs.code[..n - 1]);
    var i := Test(fs.code[e.k.pc].b, if c == 0 then 1 else 0);
    var P := Pending(fs, ext, e);
    assert h == Trunc(fs, e) && h.jpc == {};
    assert P == ext + e.t + e.f && P - h.jpc == P;
    CondJumpSem(X, h, i, P);
    TidyWithoutLast(fs, h.code, P, X.q);
    CondJumpTidyNoLabel(h, i, P, X.q);
    forall p | p in P ensures SameControl(fs.code, CondJump(h, i).0.code, p) {
      assert SameControl(h.code, CondJump(h, i).0.code, p) && p < n - 1;
    }
  }

  /** All but the last instruction, when that is a NOT, is tidy on its own,
      except that the last label may lie behind it. */
  lemma TidyWithoutLast(fs: Fs, A: seq<Instr>, S: set<nat>, q: nat)
    requires Tidy(fs, S, q) && |fs.code| >= 1 && fs.code[|fs.code| - 1].Not? && A == fs.code[..|fs.code| - 1]
    ensures forall i :: q <= i < |A| ==> TidyAt(A, fs.lasttarget, S, i)
  {
    forall i | q <= i < |A| ensures TidyAt(A, fs.lasttarget, S, i) {
      assert TidyAt(fs.code, fs.lasttarget, S, i);
      assert A[i] == fs.code[i];
    }
  }

  lemma CondJumpTidyNoLabel(fs: Fs, i: Instr, S: set<nat>, q: nat)
    requires forall j :: q <= j < |fs.code| ==> TidyAt(fs.code, fs.lasttarget, S, j)
    requires fs.jpc == {} && fs.lasttarget <= |fs.code| + 1 && TMode(i)
    ensures Tidy(CondJump(fs, i).0, S + {|fs.code| + 1}, q)
  {
    var tail := [i, Jmp(0, NO_JUMP)];
    var g := CondJump(fs, i).0;
    NoJpcCode(fs, i);
    NoJpcCode(Code(fs, i), Jmp(0, NO_JUMP));
    assert g.code == fs.code + tail;
    var Q := S + {|fs.code| + 1};
    forall j | q <= j < |g.code| ensures TidyAt(g.code, g.lasttarget, Q, j) {
      if j < |fs.code| { TidyAppend(fs.code, tail, fs.lasttarget, fs.lasttarget, S, Q, j); }
    }
  }

  lemma Discharge2AnyRegGrew(fs: Fs, e: Exp)
    ensures Grew(fs, Discharge2AnyReg(fs, e).0)
  {
    hide Discharge2Reg;
    var fs1 := ReserveRegs(fs, 1);
    Discharge2RegKept(fs1, e, fs1.freereg - 1);
  }

  lemma IntoNextReg(X: Ctx, o: Out, fs: Fs, ext: set<nat>, e: Exp, lo: int, v: Value)
    requires WfExp(fs, ext, e, X.q) && Spec(X, o, fs, ext, e, lo, -1, v) && !e.k.VJmp?
    requires 0 <= fs.nactvar <= lo == fs.freereg < MAXREGS && fs.maxstack < MAXREGS
    requires var g := Discharge2Reg(ReserveRegs(fs, 1), e, lo).0; g.ok && g.k <= X.E.k
    ensures var (g, r) := Discharge2Reg(ReserveRegs(fs, 1), e, lo);
      && r == Exp(VNonReloc(lo), e.t, e.f)
      && Promise(X, o, g, ext, r, lo, v) && SameControls(fs.code, g.code, ext)
  {
    hide Spec, WfExp, Discharge2Reg, SameControls;
    var fs1 := ReserveRegs(fs, 1);
    Discharge2RegKept(fs1, e, lo);
    ReserveOk(fs);
    SameProgramOk(X, o, fs, fs1, ext, e, lo, v);
    Discharge2RegOk(X, o, fs1, ext, e, lo, lo, -1, v);
  }

  /** A value that is neither a constant test nor a comparison in some register. */
  lemma Discharge2AnyRegOk(X: Ctx, o: Out, fs: Fs, ext: set<nat>, e: Exp, lo: int, v: Value)
    requires Promise(X, o, fs, ext, e, lo, v) && !e.k.VJmp? && !e.k.VLocal?
    requires var g := Discharge2AnyReg(fs, e).0; g.ok && g.k <= X.E.k
    ensures var (g, r) := Discharge2AnyReg(fs, e);
      && r.k.VNonReloc? && r.t == e.t && r.f == e.f
      && Promise(X, o, g, ext, r, lo, v) && SameControls(fs.code, g.code, ext)
  {
    hide Spec, WfExp, Discharge2Reg, ReserveRegs;
    PromiseRegs(X, o, fs, ext, e, lo, v);
    if !e.k.VNonReloc? {
      ReserveFrees(fs);
      IntoNextReg(X, o, fs, ext, e, lo, v);
    }
  }

  // ---- jumponcond and the two gotos ----

  /** What is left of an expression used as a condition: only its exits. */
  ghost predicate Forked(X: Ctx, o: Out, g: Fs, ext: set<nat>, t: set<nat>, f: set<nat>, lo: int, v: Value, b: bool) {
    && WfExp(g, ext, Lists(t, f), X.q) && Branched(X, o, g, ext, t, f, lo, v, b)
    && g.freereg == lo && g.nactvar <= lo < MAXREGS
  }

  lemma TestedFork(X: Ctx, o: Out, fs: Fs, ext: set<nat>, e: Exp, g: Fs, j: nat, c: bool, lo: int, v: Value)
    requires WfExp(fs, ext, e, X.q) && Spec(X, o, fs, ext, e, lo, -1, v)
    requires Tests(X, fs, ext, e, g, j, c) && SameControls(fs.code, g.code, e.t + e.f)
    requires X.q <= j && forall p :: p in Pending(fs, ext, e) ==> p < j
    requires JumpSet(g.code, ext + e.t + e.f + {j}) && Tidy(g, ext + e.t + e.f + {j}, X.q)
    requires g.nactvar == fs.nactvar <= lo == g.freereg < MAXREGS && g.maxstack < MAXREGS
    ensures var d := AddJump(e, j, c); Forked(X, o, g, ext, d.t, d.f, lo, v, !c)
  {
    TestedSpec(X, o, fs, ext, e, g, j, c, lo, v);
    TestedWf(fs, ext, e, g, j, c, X.q);
  }

  /** A pending NOT is replaced by a test of its operand. */
  lemma JumpOnNotOk(X: Ctx, o: Out, fs: Fs, ext: set<nat>, e: Exp, c: int, lo: int, v: Value)
    requires Promise(X, o, fs, ext, e, lo, v) && e.k.VReloc?
    ensures var (g, p) := JumpOnCond(fs, e, c); var d := AddJump(e, |g.code| - 1, c != 0);
      p == {|g.code| - 1} && Forked(X, o, g, ext, d.t, d.f, lo, v, c == 0) && SameControls(fs.code, g.code, ext)
  {
    SpecReady(X, o, fs, ext, e, lo, -1, v);
    NotTests(X, fs, ext, e, c);
    var g := JumpOnCond(fs, e, c).0;
    var P := Pending(fs, ext, e);
    var A := fs.code[..|fs.code| - 1];
    forall p | p in P ensures p < |fs.code| - 1 { assert A[p].Jmp?; }
    hide Spec, WfExp, Tests;
    TestedFork(X, o, fs, ext, e, g, |fs.code|, c != 0, lo, v);
  }

  lemma JumpOnRegOk(X: Ctx, o: Out, fs: Fs, ext: set<nat>, e: Exp, c: int, lo: int, v: Value)
    requires Promise(X, o, fs, ext, e, lo, v) && e.k.VNonReloc?
    ensures var (g, p) := CondJump(FreeExp(fs, e), TestSet(NO_REG, e.k.reg, c)); var d := AddJump(e, |g.code| - 1, c != 0);
      p == {|g.code| - 1} && Forked(X, o, g, ext, d.t, d.f, lo, v, c == 0) && SameControls(fs.code, g.code, ext)
  {
    hide EndOf, Tests, Forked, KindOk, ExitVal, Spec;
    FreeExpOk(fs, e, lo);
    var h := fs.(freereg := lo);
    SameProgramOk(X, o, fs, h, ext, e, lo, v);
    WholeTrunc(h, e);
    SpecReady(X, o, h, ext, e, lo, -1, v);
    TestSetTests(X, h, ext, e, c);
    var g := CondJump(h, TestSet(NO_REG, e.k.reg, c)).0;
    forall p | p in Pending(h, ext, e) ensures p < |h.code| + 1 { assert h.code[p].Jmp?; }
    hide Spec, WfExp, Tests;
    TestedFork(X, o, h, ext, e, g, |h.code| + 1, c != 0, lo, v);
  }

  lemma CondJumpKept(fs: Fs, i: Instr)
    ensures Kept(fs, CondJump(fs, i).0)
  {
  }

  lemma FreeExpCode(fs: Fs, e: Exp)
    ensures FreeExp(fs, e) == fs.(freereg := FreeExp(fs, e).freereg)
  {
  }

  lemma JumpOnCondOk(X: Ctx, o: Out, fs: Fs, ext: set<nat>, e: Exp, c: int, lo: int, v: Value)
    requires Promise(X, o, fs, ext, e, lo, v) && !e.k.VJmp? && !e.k.VLocal?
    requires var g := JumpOnCond(fs, e, c).0; g.ok && g.k <= X.E.k
    ensures var (g, p) := JumpOnCond(fs, e, c); var d := AddJump(e, |g.code| - 1, c != 0);
      p == {|g.code| - 1} && Forked(X, o, g, ext, d.t, d.f, lo, v, c == 0) && SameControls(fs.code, g.code, ext)
  {
    hide Promise, Forked, SameControls, Discharge2AnyReg, CondJump, FreeExp;
    if e.k.VReloc? {
      JumpOnNotOk(X, o, fs, ext, e, c, lo, v);
    } else {
      var (g, r) := Discharge2AnyReg(fs, e);
      FreeExpCode(g, r);
      CondJumpKept(FreeExp(g, r), TestSet(NO_REG, if r.k.VNonReloc? then r.k.reg else 0, c));
      Discharge2AnyRegOk(X, o, fs, ext, e, lo, v);
      JumpOnRegOk(X, o, g, ext, r, c, lo, v);
      SameControlsTrans(fs.code, g.code, JumpOnCond(fs, e, c).0.code, ext);
    }
  }

  /** `luaK_patchtohere` on the list of those exits that are to go on here. */
  lemma ToHereOk(X: Ctx, o: Out, fs: Fs, ext: set<nat>, t: set<nat>, f: set<nat>, lo: int, v: Value, b: bool)
    requires Forked(X, o, fs, ext, t, f, lo, v, b)
    ensures Forked(X, o, PatchToHere(fs, if b then t else f), ext, if b then {} else t, if b then f else {}, lo, v, b)
  {
    hide JumpSet, Truthy;
    var L := if b then t else f;
    var t', f' := if b then {} else t, if b then f else {};
    var g := PatchToHere(fs, L);
    var d, d' := Lists(t, f), Lists(t', f');
    WholeTrunc(fs, d);
    WholeTrunc(g, d');
    assert Pending(g, ext, d') == Pending(fs, ext, d);
    assert g.jpc + ext + t' + f' == fs.jpc + ext + t + f == Pending(fs, ext, d);
    assert d'.t + d'.f <= d.t + d.f;
    forall i | X.q <= i < |g.code| ensures TidyAt(g.code, g.lasttarget, Pending(fs, ext, d), i) {
      assert TidyAt(fs.code, fs.lasttarget, Pending(fs, ext, d), i);
    }
  }

  /** The comparison, inverted or not, with the jump it controls. */
  lemma ComparisonTests(X: Ctx, fs: Fs, ext: set<nat>, e: Exp, b: bool)
    requires WfExp(fs, ext, e, X.q) && e.k.VJmp? && Ready(X, Trunc(fs, e), Pending(fs, ext, e))
    ensures var g := if b then InvertJump(fs, e.k.pc) else fs; var j := |fs.code| - 1;
      && Tests(X, fs, ext, e, g, j, !b)
      && JumpSet(g.code, ext + e.t + e.f + {j}) && Tidy(g, ext + e.t + e.f + {j}, X.q)
      && SameControls(fs.code, g.code, ext + e.t + e.f)
  {
    hide Run, Get;
    var n := |fs.code|;
    var P := Pending(fs, ext, e);
    var g := if b then InvertJump(fs, e.k.pc) else fs;
    var A := fs.code[..n - 2];
    var tail := [g.code[n - 2], g.code[n - 1]];
    assert g.code == A + tail;
    assert P == ext + e.t + e.f;
    var Q := P + {n - 1};
    forall p | p in P ensures p < n - 2 && g.code[p].Jmp? { assert A[p].Jmp?; }
    AppendOut(X, A, tail, P, Q);
    var s := EndOf(X, A, P);
    if s.At? { RunTest(X.E, g.code, Q, s.regs, n - 2); }
    forall i | X.q <= i < |g.code| ensures TidyAt(g.code, g.lasttarget, Q, i) {
      assert TidyAt(fs.code, fs.lasttarget, Q, i);
    }
  }

  lemma GoIfComparison(X: Ctx, o: Out, fs: Fs, ext: set<nat>, e: Exp, b: bool, lo: int, v: Value)
    requires Promise(X, o, fs, ext, e, lo, v) && e.k.VJmp?
    ensures var g := if b then InvertJump(fs, e.k.pc) else fs; var d := AddJump(e, |fs.code| - 1, !b);
      Forked(X, o, g, ext, d.t, d.f, lo, v, b) && SameControls(fs.code, g.code, ext)
  {
    SpecReady(X, o, fs, ext, e, lo, -1, v);
    ComparisonTests(X, fs, ext, e, b);
    var A := fs.code[..|fs.code| - 2];
    forall p | p in Pending(fs, ext, e) ensures p < |fs.code| - 1 { assert A[p].Jmp?; }
    var g := if b then InvertJump(fs, e.k.pc) else fs;
    hide Spec, WfExp, Tests;
    TestedFork(X, o, fs, ext, e, g, |fs.code| - 1, !b, lo, v);
  }

  /** A constant whose truth is known needs no test. */
  lemma GoIfConstant(X: Ctx, o: Out, fs: Fs, ext: set<nat>, e: Exp, b: bool, lo: int, v: Value)
    requires Promise(X, o, fs, ext, e, lo, v) && ConstKind(e) && Truthy(KindValue(X.E, fs, e, map[])) == b
    ensures Forked(X, o, fs, ext, e.t, e.f, lo, v, b)
  {
    WholeTrunc(fs, e);
    WholeTrunc(fs, Lists(e.t, e.f));
  }

  /** `luaK_goiftrue` and `luaK_goiffalse`. */
  function GoIf(fs: Fs, e: Exp, b: bool): (Fs, Exp) {
    if b then GoIfTrue(fs, e) else GoIfFalse(fs, e)
  }

  /** Constants the scanner produced are true. */
  predicate TrueConst(E: Env, e: Exp) {
    e.k.VK? ==> Truthy(Const(E, e.k.idx))
  }

  /** Whether the condition is decided without a test. */
  predicate Decided(e: Exp, b: bool) {
    if b then e.k.VK? || e.k.VKFlt? || e.k.VKInt? || e.k.VTrue? else e.k.VNil? || e.k.VFalse?
  }

  /** The code of a condition before the other list is closed, and its lists. */
  function Branch(fs: Fs, e: Exp, b: bool): (Fs, Exp) {
    if e.k.VJmp? then (if b then InvertJump(fs, e.k.pc) else fs, AddJump(e, if e.k.pc >= 0 then e.k.pc else 0, !b))
    else if Decided(e, b) then (fs, Lists(e.t, e.f))
    else
      var (g, p) := JumpOnCond(fs, e, if b then 0 else 1);
      (g, if b then Lists(e.t, e.f + p) else Lists(e.t + p, e.f))
  }

  lemma GoIfIsBranch(fs: Fs, e: Exp, b: bool)
    requires e.k.VJmp? ==> e.k.pc >= 0
    ensures var (g, d) := Branch(fs, DischargeVars(e), b); var (h, r) := GoIf(fs, e, b);
      && h == PatchToHere(g, if b then d.t else d.f)
      && r.t == (if b then {} else d.t) && r.f == (if b then d.f else {})
  {
  }

  lemma BranchOk(X: Ctx, o: Out, fs: Fs, ext: set<nat>, e: Exp, b: bool, lo: int, v: Value)
    requires Promise(X, o, fs, ext, e, lo, v) && !e.k.VLocal? && TrueConst(X.E, e)
    requires var g := Branch(fs, e, b).0; g.ok && g.k <= X.E.k
    ensures var (g, d) := Branch(fs, e, b);
      Forked(X, o, g, ext, d.t, d.f, lo, v, b) && SameControls(fs.code, g.code, ext)
  {
    if e.k.VJmp? {
      GoIfComparison(X, o, fs, ext, e, b, lo, v);
    } else if Decided(e, b) {
      GoIfConstant(X, o, fs, ext, e, b, lo, v);
    } else {
      hide Promise, Forked, SameControls, JumpOnCond;
      JumpOnCondOk(X, o, fs, ext, e, if b then 0 else 1, lo, v);
    }
  }

  /** `luaK_goiftrue`, `luaK_goiffalse`: runs whose value has truth `b` go on,
      the others have left by the one list that remains. */
  lemma GoIfOk(X: Ctx, o: Out, fs: Fs, ext: set<nat>, e: Exp, b: bool, lo: int, v: Value)
    requires Promise(X, o, fs, ext, e, lo, v) && TrueConst(X.E, e)
    requires var g := GoIf(fs, e, b).0; g.ok && g.k <= X.E.k
    ensures var (g, r) := GoIf(fs, e, b);
      && (if b then r.t == {} else r.f == {})
      && Forked(X, o, g, ext, r.t, r.f, lo, v, b) && SameControls(fs.code, g.code, ext)
  {
    hide Promise, Forked, SameControls, Branch, GoIf;
    var d := DischargeVars(e);
    DischargeVarsOk(X, o, fs, ext, e, lo, v);
    JumpIsLast(X, o, fs, ext, e, lo, v);
    GoIfIsBranch(fs, e, b);
    var (g, r) := Branch(fs, d, b);
    BranchOk(X, o, fs, ext, d, b, lo, v);
    ToHereOk(X, o, g, ext, r.t, r.f, lo, v, b);
  }

  lemma JumpIsLast(X: Ctx, o: Out, fs: Fs, ext: set<nat>, e: Exp, lo: int, v: Value)
    requires Promise(X, o, fs, ext, e, lo, v)
    ensures e.k.VJmp? ==> e.k.pc >= 0
  {
  }
}
