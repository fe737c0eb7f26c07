/** Whole expressions: what `subexpr` emits through `luaK_prefix`, `luaK_infix`
  and `luaK_posfix` computes the value the language gives the expression. */
module CodeGenExpr {
  import opened LuaVm
  import opened CodeGenModel
  import opened CodeGenSim
  import opened CodeGenNil
  import opened CodeGenSpec
  import opened CodeGenValue
  import opened CodeGenClose
  import opened CodeGenOperand
  import opened CodeGenCond
  import opened CodeGenNot

  datatype Expr =
    | ENil | ETrue | EFalse
    | EInt(i: int) | EFlt(r: real) | EStr(s: string)
    | ELocal(reg: nat)
    | EParen(a: Expr)
    | ENot(a: Expr)
    | ELogic(isAnd: bool, a: Expr, b: Expr)
    | ECompare(op: CmpOp, a: Expr, b: Expr)

  function Compare(E: Env, op: CmpOp, v: Value, w: Value): bool {
    match op
    case OpEq => E.eq(v, w)
    case OpLt => E.lt(v, w)
    case OpLe => E.le(v, w)
    case OpNe => !E.eq(v, w)
    case OpGt => E.lt(w, v)
    case OpGe => E.le(w, v)
  }

  /** The value of an expression, as the language defines it. */
  function Eval(E: Env, R: Regs, x: Expr): Value {
    match x
    case ENil => Nil
    case ETrue => Bool(true)
    case EFalse => Bool(false)
    case EInt(i) => Int(i)
    case EFlt(r) => Flt(r)
    case EStr(s) => Str(s)
    case ELocal(r) => Get(R, r)
    case EParen(a) => Eval(E, R, a)
    case ENot(a) => Bool(!Truthy(Eval(E, R, a)))
    case ELogic(isAnd, a, b) =>
      var v := Eval(E, R, a);
      if Truthy(v) == isAnd then Eval(E, R, b) else v
    case ECompare(op, a, b) => Bool(Compare(E, op, Eval(E, R, a), Eval(E, R, b)))
  }

  /** The expression only names registers of active locals. */
  predicate LocalsIn(x: Expr, n: nat) {
    match x
    case ELocal(r) => r < n
    case EParen(a) => LocalsIn(a, n)
    case ENot(a) => LocalsIn(a, n)
    case ELogic(_, a, b) => LocalsIn(a, n) && LocalsIn(b, n)
    case ECompare(_, a, b) => LocalsIn(a, n) && LocalsIn(b, n)
    case _ => true
  }

  function Plainly(k: Kind): Exp {
    Exp(k, {}, {})
  }

  /** The exits of the first operand join those of the second. */
  function Join(e1: Exp, e2: Exp, isAnd: bool): Exp {
    if isAnd then e2.(f := e2.f + e1.f) else e2.(t := e2.t + e1.t)
  }

  /** The code generated for an expression, operand by operand. */
  function Gen(fs: Fs, x: Expr): (Fs, Exp)
    decreases x
  {
    match x
    case ENil => (fs, Plainly(VNil))
    case ETrue => (fs, Plainly(VTrue))
    case EFalse => (fs, Plainly(VFalse))
    case EInt(i) => (fs, Plainly(VKInt(i)))
    case EFlt(r) => (fs, Plainly(VKFlt(r)))
    case EStr(s) => var (g, k) := AddK(fs, Str(s)); (g, Plainly(VK(k)))
    case ELocal(r) => (fs, Plainly(VLocal(r)))
    case EParen(a) => var (g, e) := Gen(fs, a); (g, DischargeVars(e))
    case ENot(a) => var (g, e) := Gen(fs, a); CodeNot(g, e)
    case ELogic(isAnd, a, b) =>
      var (g, e) := Gen(fs, a);
      var (g1, e1) := GoIf(g, e, isAnd);
      var (g2, e2) := Gen(g1, b);
      (g2, Join(e1, DischargeVars(e2), isAnd))
    case ECompare(op, a, b) =>
      var (g, e) := Gen(fs, a);
      var (g1, e1, _) := Exp2RK(g, e);
      var (g2, e2) := Gen(g1, b);
      CodeComp(g2, op, e1, e2)
  }

  lemma GenLogicIs(m: Fs, isAnd: bool, a: Expr, b: Expr)
    ensures var (g, e) := Gen(m, a); var (g1, r) := GoIf(g, e, isAnd); var (g2, d) := Gen(g1, b);
      Gen(m, ELogic(isAnd, a, b)) == (g2, Join(r, DischargeVars(d), isAnd))
  {
    hide GoIf, Join, DischargeVars, CodeNot, CodeComp, Exp2RK, AddK;
  }

  lemma GenCompareIs(m: Fs, op: CmpOp, a: Expr, b: Expr)
    ensures var (g, e) := Gen(m, a); var (g1, e1, _) := Exp2RK(g, e); var (g2, d) := Gen(g1, b);
      Gen(m, ECompare(op, a, b)) == CodeComp(g2, op, e1, d)
  {
    hide GoIf, Join, DischargeVars, CodeNot, CodeComp, Exp2RK, AddK;
  }

  // ---- errors are final, constants are only added ----

  lemma JumpOnCondGrew(fs: Fs, e: Exp, c: int)
    ensures Grew(fs, JumpOnCond(fs, e, c).0)
  {
    Discharge2AnyRegGrew(fs, e);
  }

  lemma GoIfGrew(fs: Fs, e: Exp, b: bool)
    ensures Grew(fs, GoIf(fs, e, b).0)
  {
    var d := DischargeVars(e);
    JumpOnCondGrew(fs, d, if b then 0 else 1);
    hide JumpOnCond;
  }

  lemma CodeNotGrew(fs: Fs, e: Exp)
    ensures Grew(fs, CodeNot(fs, e).0)
  {
    hide RemoveValues;
    Discharge2AnyRegGrew(fs, DischargeVars(e));
    hide Discharge2AnyReg;
  }

  lemma CodeCompGrew(fs: Fs, op: CmpOp, e1: Exp, e2: Exp)
    ensures Grew(fs, CodeComp(fs, op, e1, e2).0)
    ensures Grew(Exp2RK(Exp2RK(fs, e1).0, e2).0, CodeComp(fs, op, e1, e2).0)
  {
    hide Exp2RK, CondJump;
    var (fs1, d1, o1) := Exp2RK(fs, e1);
    var (fs2, d2, o2) := Exp2RK(fs1, e2);
    Exp2RKGrew(fs, e1);
    Exp2RKGrew(fs1, e2);
    CondJumpKept(FreeExp(FreeExp(fs2, d2), d1), CmpInstr(op, o1, o2));
  }

  lemma {:induction false} GenGrew(fs: Fs, x: Expr)
    ensures Grew(fs, Gen(fs, x).0)
    decreases x
  {
    hide GoIf, CodeNot, CodeComp, Exp2RK;
    match x
    case EParen(a) => GenGrew(fs, a);
    case ENot(a) =>
      GenGrew(fs, a);
      CodeNotGrew(Gen(fs, a).0, Gen(fs, a).1);
    case ELogic(isAnd, a, b) =>
      GenGrew(fs, a);
      var (g, e) := Gen(fs, a);
      GoIfGrew(g, e, isAnd);
      GenGrew(GoIf(g, e, isAnd).0, b);
    case ECompare(op, a, b) =>
      GenGrew(fs, a);
      var (g, e) := Gen(fs, a);
      Exp2RKGrew(g, e);
      var (g1, e1, _) := Exp2RK(g, e);
      GenGrew(g1, b);
      CodeCompGrew(Gen(g1, b).0, op, e1, Gen(g1, b).1);
    case _ =>
  }

  // ---- starting an expression ----

  /** What is given when an expression begins: `o` is where the code so far
      takes the run that is being followed. */
  ghost predicate Start(X: Ctx, o: Out, fs: Fs, ext: set<nat>, lo: int) {
    && X.q <= |fs.code| && fs.jpc !! ext && JumpSet(fs.code, fs.jpc + ext)
    && Tidy(fs, fs.jpc + ext, X.q) && (X.q == |fs.code| ==> !NilOpen(fs))
    && fs.nactvar <= lo == fs.freereg < MAXREGS && fs.maxstack < MAXREGS
    && o == Sem(X, fs, fs.jpc + ext) && Proper(o, |fs.code|)
  }

  function ValueOf(E: Env, o: Out, x: Expr): Value {
    if o.At? then Eval(E, o.regs, x) else Nil
  }

  lemma LeafOk(X: Ctx, o: Out, fs: Fs, ext: set<nat>, k: Kind, lo: int, v: Value)
    requires Start(X, o, fs, ext, lo) && !k.VReloc? && !k.VJmp? && !k.VNonReloc? && KindOk(fs, Plainly(k))
    requires o.At? ==> KindValue(X.E, fs, Plainly(k), o.regs) == v
    ensures Promise(X, o, fs, ext, Plainly(k), lo, v)
  {
    var e := Plainly(k);
    WholeTrunc(fs, e);
    assert Pending(fs, ext, e) == fs.jpc + ext == AllPending(fs, ext, e);
    ExitIsPending(X.E, fs.code, fs.jpc + ext, X.q, X.R0);
  }

  lemma StrOk(X: Ctx, o: Out, fs: Fs, ext: set<nat>, s: string, lo: int)
    requires Start(X, o, fs, ext, lo) && AddK(fs, Str(s)).0.k <= X.E.k
    ensures var (g, k) := AddK(fs, Str(s));
      Promise(X, o, g, ext, Plainly(VK(k)), lo, Str(s)) && TrueConst(X.E, Plainly(VK(k)))
  {
    var (g, k) := AddK(fs, Str(s));
    assert g == fs.(k := g.k, h := g.h, ok := g.ok);
    SameCode(X, fs, g, fs.jpc + ext);
    LeafOk(X, o, g, ext, VK(k), lo, Str(s));
  }

  lemma AnyValue(X: Ctx, o: Out, fs: Fs, ext: set<nat>, e: Exp, lo: int, v: Value, w: Value)
    requires Promise(X, o, fs, ext, e, lo, v) && (o.At? ==> v == w)
    ensures Promise(X, o, fs, ext, e, lo, w)
  {
  }

  /** Registers of locals decide the value. */
  lemma {:induction false} EvalSame(E: Env, A: Regs, B: Regs, x: Expr, n: nat, lo: int)
    requires LocalsIn(x, n) && n <= lo && Same(A, B, lo, -1)
    ensures Eval(E, A, x) == Eval(E, B, x)
  {
    match x
    case EParen(a) => EvalSame(E, A, B, a, n, lo);
    case ENot(a) => EvalSame(E, A, B, a, n, lo);
    case ELogic(_, a, b) => EvalSame(E, A, B, a, n, lo); EvalSame(E, A, B, b, n, lo);
    case ECompare(_, a, b) => EvalSame(E, A, B, a, n, lo); EvalSame(E, A, B, b, n, lo);
    case _ =>
  }

  // ---- and, or ----

  /** Where runs stand after a condition. */
  function Mid(X: Ctx, g: Fs, ext: set<nat>): Out {
    Sem(X, g, g.jpc + ext)
  }

  lemma ForkedStart(X: Ctx, o: Out, g: Fs, ext: set<nat>, t: set<nat>, f: set<nat>, lo: int, v: Value, b: bool)
    requires Forked(X, o, g, ext, t, f, lo, v, b)
    ensures Start(X, Mid(X, g, ext + t + f), g, ext + t + f, lo)
  {
    WholeTrunc(g, Lists(t, f));
    assert g.jpc + ext + t + f == g.jpc + (ext + t + f) == Pending(g, ext, Lists(t, f)) == AllPending(g, ext, Lists(t, f));
  }

  lemma JoinWf(fs: Fs, ext: set<nat>, t: set<nat>, f: set<nat>, e: Exp, q: nat)
    requires WfExp(fs, ext + t + f, e, q) && ext !! t !! f && forall p :: p in t + f ==> q <= p
    ensures WfExp(fs, ext, Exp(e.k, e.t + t, e.f + f), q)
  {
    var d := Exp(e.k, e.t + t, e.f + f);
    assert d.t + d.f == (e.t + e.f) + (t + f);
    assert Pending(fs, ext, d) == Pending(fs, ext + t + f, e);
    assert AllPending(fs, ext, d) == AllPending(fs, ext + t + f, e);
  }

  lemma JoinSpec(X: Ctx, o: Out, g: Fs, ext: set<nat>, t: set<nat>, f: set<nat>, lo: int, va: Value, b: bool, fs: Fs, e: Exp, w: Value, v: Value)
    requires Branched(X, o, g, ext, t, f, lo, va, b) && ext !! t !! f && KindOk(fs, e)
    requires e.t !! e.f !! ext + t + f
    requires Spec(X, Mid(X, g, ext + t + f), fs, ext + t + f, e, lo, -1, w)
    requires SameControls(g.code, fs.code, ext + t + f)
    requires if b then t == {} else f == {}
    requires o.At? && Mid(X, g, ext + t + f).At? ==> v == w
    requires o.At? && Truthy(va) != b ==> v == va
    ensures Spec(X, o, fs, ext, Exp(e.k, e.t + t, e.f + f), lo, -1, v)
  {
    var d := Exp(e.k, e.t + t, e.f + f);
    var m := Mid(X, g, ext + t + f);
    assert g.jpc + ext + t + f == g.jpc + (ext + t + f);
    assert Pending(fs, ext, d) == Pending(fs, ext + t + f, e);
    assert Trunc(fs, d) == Trunc(fs, e) && Base(fs, d) == Base(fs, e);
    assert forall R :: KindValue(X.E, fs, d, R) == KindValue(X.E, fs, e, R);
    if o.At? && m.Exit? {
      assert m.jump in t + f;
      assert SameControl(g.code, fs.code, m.jump);
    }
  }

  lemma JoinOk(X: Ctx, o: Out, g: Fs, ext: set<nat>, t: set<nat>, f: set<nat>, lo: int, va: Value, b: bool, fs: Fs, e: Exp, w: Value, v: Value)
    requires Forked(X, o, g, ext, t, f, lo, va, b)
    requires Promise(X, Mid(X, g, ext + t + f), fs, ext + t + f, e, lo, w)
    requires SameControls(g.code, fs.code, ext + t + f)
    requires if b then t == {} else f == {}
    requires o.At? && Mid(X, g, ext + t + f).At? ==> v == w
    requires o.At? && Truthy(va) != b ==> v == va
    ensures Promise(X, o, fs, ext, Exp(e.k, e.t + t, e.f + f), lo, v)
    ensures SameControls(g.code, fs.code, ext)
  {
    assert ext !! t !! f && e.t !! e.f !! ext + t + f && forall p :: p in t + f ==> X.q <= p by {
      assert Lists(t, f).t == t && Lists(t, f).f == f;
    }
    assert KindOk(fs, e);
    assert RegsOk(fs, Exp(e.k, e.t + t, e.f + f), lo);
    JoinWf(fs, ext, t, f, e, X.q);
    hide WfExp, Spec, Branched;
    JoinSpec(X, o, g, ext, t, f, lo, va, b, fs, e, w, v);
  }

  // ---- comparisons ----

  lemma OperandStart(X: Ctx, o: Out, g: Fs, ext: set<nat>, d: Exp, x: int, lo: int, v: Value)
    requires Promise(X, o, g, ext, d, lo, v) && Operand(g, d, x)
    ensures Start(X, Mid(X, g, ext), g, ext, g.freereg)
    ensures lo <= g.freereg
  {
    WholeTrunc(g, d);
    assert Pending(g, ext, d) == g.jpc + ext == AllPending(g, ext, d);
  }

  /** Both operands are in place when the comparison is made. */
  lemma OperandsMeet(X: Ctx, o: Out, g: Fs, ext: set<nat>, d1: Exp, x1: int, lo: int, v1: Value, h: Fs, d2: Exp, x2: int, v2: Value)
    requires Promise(X, o, g, ext, d1, lo, v1) && Operand(g, d1, x1)
    requires Promise(X, Mid(X, g, ext), h, ext, d2, g.freereg, v2) && Operand(h, d2, x2)
    requires h.nactvar == g.nactvar
    ensures var s := Sem(X, h, h.jpc + ext);
      match o
      case Stuck => false
      case Exit(p, _) => p in ext && s == o
      case At(_, A) => s.At? && s.pc == |h.code| && Same(A, s.regs, lo, -1) && RK(X.E, s.regs, x1) == v1 && RK(X.E, s.regs, x2) == v2
  {
    WholeTrunc(g, d1);
    WholeTrunc(h, d2);
    assert Pending(g, ext, d1) == g.jpc + ext;
    assert Pending(h, ext, d2) == h.jpc + ext;
  }

  lemma OperandsFree(g: Fs, d1: Exp, x1: int, lo: int, h: Fs, d2: Exp, x2: int)
    requires RegsOk(g, d1, lo) && KindOk(g, d1) && Operand(g, d1, x1)
    requires RegsOk(h, d2, g.freereg) && KindOk(h, d2) && Operand(h, d2, x2)
    requires h.nactvar == g.nactvar
    ensures FreeExp(FreeExp(h, d2), d1) == h.(freereg := lo)
  {
  }

  lemma CmpPasses(E: Env, op: CmpOp, x1: int, x2: int, R: Regs)
    ensures Comparison(CmpInstr(op, x1, x2))
    ensures Pass(E, CmpInstr(op, x1, x2), R) == Compare(E, op, RK(E, R, x1), RK(E, R, x2))
  {
  }

  /** The comparison itself, with its jump. */
  lemma CompareWf(h: Fs, ext: set<nat>, d: Exp, i: Instr, q: nat)
    requires WfExp(h, ext, d, q) && !HasJumps(d) && !d.k.VReloc? && !d.k.VJmp? && Comparison(i)
    ensures var g := CondJump(h, i).0; var e := Plainly(VJmp(|g.code| - 1));
      && WfExp(g, ext, e, q) && SameControls(h.code, g.code, ext)
      && g.code[|h.code|] == i && |g.code| == |h.code| + 2
      && Trunc(g, e).code == Discharge(h).code && g.jpc == {}
  {
    var P := h.jpc + ext;
    var g := CondJump(h, i).0;
    var e := Plainly(VJmp(|g.code| - 1));
    WholeTrunc(h, d);
    assert Pending(h, ext, d) == P == AllPending(h, ext, d);
    NoJpcCode(Code(h, i), Jmp(0, NO_JUMP));
    assert g.code == Discharge(h).code + [i, Jmp(0, NO_JUMP)];
    assert P - h.jpc == ext;
    CodeJumps(h, i, P);
    CondJumpTidy(h, i, P, q);
    assert Pending(g, ext, e) == ext && AllPending(g, ext, e) == ext + {|h.code| + 1};
    forall p | p in ext ensures p < |h.code| && g.code[..|h.code|][p].Jmp? { assert h.code[p].Jmp?; }
  }

  lemma CompareOk(X: Ctx, o: Out, h: Fs, ext: set<nat>, d: Exp, i: Instr, lo: int, v: Value)
    requires WfExp(h, ext, d, X.q) && !HasJumps(d) && !d.k.VReloc? && !d.k.VJmp? && Comparison(i)
    requires h.nactvar <= lo == h.freereg < MAXREGS
    requires var s := Sem(X, h, h.jpc + ext);
      match o
      case Stuck => false
      case Exit(p, _) => p in ext && s == o
      case At(_, A) => s.At? && s.pc == |h.code| && Same(A, s.regs, lo, -1) && v == Bool(Pass(X.E, i, s.regs))
    ensures var g := CondJump(h, i).0;
      Promise(X, o, g, ext, Plainly(VJmp(|g.code| - 1)), lo, v) && SameControls(h.code, g.code, ext)
  {
    var g := CondJump(h, i).0;
    var e := Plainly(VJmp(|g.code| - 1));
    CompareWf(h, ext, d, i, X.q);
    WholeTrunc(h, d);
    assert Pending(h, ext, d) == h.jpc + ext && h.jpc + ext - h.jpc == ext == Pending(g, ext, e);
    DischargeSem(X, h, h.jpc + ext);
    hide WfExp, Discharge, CondJump;
  }

  // ---- every expression ----

  lemma LogicOk(X: Ctx, o: Out, fs: Fs, ext: set<nat>, e: Exp, isAnd: bool, lo: int, va: Value)
    requires Promise(X, o, fs, ext, e, lo, va) && TrueConst(X.E, e)
    requires var g := GoIf(fs, e, isAnd).0; g.ok && g.k <= X.E.k
    ensures var (g, r) := GoIf(fs, e, isAnd);
      && (if isAnd then r.t == {} else r.f == {})
      && Forked(X, o, g, ext, r.t, r.f, lo, va, isAnd) && SameControls(fs.code, g.code, ext)
      && Start(X, Mid(X, g, ext + r.t + r.f), g, ext + r.t + r.f, lo)
  {
    GoIfOk(X, o, fs, ext, e, isAnd, lo, va);
    var (g, r) := GoIf(fs, e, isAnd);
    ForkedStart(X, o, g, ext, r.t, r.f, lo, va, isAnd);
  }

  /** The value of the second operand is what it would be at the start. */
  lemma LogicValue(X: Ctx, o: Out, g: Fs, ext: set<nat>, t: set<nat>, f: set<nat>, lo: int, a: Expr, b: Expr, isAnd: bool, n: nat)
    requires Branched(X, o, g, ext, t, f, lo, ValueOf(X.E, o, a), isAnd) && LocalsIn(b, n) && n <= lo
    ensures var m := Mid(X, g, ext + t + f); var v := ValueOf(X.E, o, ELogic(isAnd, a, b));
      && (o.At? && m.At? ==> v == ValueOf(X.E, m, b))
      && (o.At? && Truthy(ValueOf(X.E, o, a)) != isAnd ==> v == ValueOf(X.E, o, a))
  {
    var m := Mid(X, g, ext + t + f);
    assert g.jpc + ext + t + f == g.jpc + (ext + t + f);
    if o.At? && m.At? { EvalSame(X.E, o.regs, m.regs, b, n, lo); }
  }

  ghost predicate Generates(X: Ctx, o: Out, fs: Fs, ext: set<nat>, x: Expr, lo: int, g: Fs, e: Exp) {
    Promise(X, o, g, ext, e, lo, ValueOf(X.E, o, x)) && SameControls(fs.code, g.code, ext) && TrueConst(X.E, e)
  }

  lemma LogicJoin(X: Ctx, o: Out, fs: Fs, ext: set<nat>, a: Expr, b: Expr, isAnd: bool, lo: int, g: Fs, r: Exp, g2: Fs, e2: Exp, n: nat)
    requires Forked(X, o, g, ext, r.t, r.f, lo, ValueOf(X.E, o, a), isAnd) && SameControls(fs.code, g.code, ext)
    requires if isAnd then r.t == {} else r.f == {}
    requires LocalsIn(b, n) && n <= lo
    requires var P := ext + r.t + r.f; Generates(X, Mid(X, g, P), g, P, b, lo, g2, e2)
    ensures Generates(X, o, fs, ext, ELogic(isAnd, a, b), lo, g2, Join(r, DischargeVars(e2), isAnd))
  {
    var P := ext + r.t + r.f;
    var m := Mid(X, g, P);
    var d := DischargeVars(e2);
    var v := ValueOf(X.E, o, ELogic(isAnd, a, b));
    LogicValue(X, o, g, ext, r.t, r.f, lo, a, b, isAnd, n);
    DischargeVarsOk(X, m, g2, P, e2, lo, ValueOf(X.E, m, b));
    hide Promise, Forked, Start, SameControls, ValueOf, Mid;
    JoinOk(X, o, g, ext, r.t, r.f, lo, ValueOf(X.E, o, a), isAnd, g2, d, ValueOf(X.E, m, b), v);
    JoinIs(r, d, isAnd);
    SameControlsTrans(fs.code, g.code, g2.code, ext);
  }

  lemma JoinIs(r: Exp, d: Exp, isAnd: bool)
    requires if isAnd then r.t == {} else r.f == {}
    ensures Join(r, d, isAnd) == Exp(d.k, d.t + r.t, d.f + r.f)
  {
    assert d.t + {} == d.t && d.f + {} == d.f;
  }

  lemma CompareValue(E: Env, o: Out, m: Out, op: CmpOp, a: Expr, b: Expr, lo: int, n: nat, x1: int, x2: int, R: Regs)
    requires o.At? && m.At? && Same(o.regs, m.regs, lo, -1) && LocalsIn(b, n) && n <= lo
    requires RK(E, R, x1) == ValueOf(E, o, a) && RK(E, R, x2) == ValueOf(E, m, b)
    ensures ValueOf(E, o, ECompare(op, a, b)) == Bool(Pass(E, CmpInstr(op, x1, x2), R))
  {
    EvalSame(E, o.regs, m.regs, b, n, lo);
    CmpPasses(E, op, x1, x2, R);
  }

  lemma OperandKept(X: Ctx, o: Out, g: Fs, ext: set<nat>, d: Exp, x: int, lo: int, v: Value)
    requires Promise(X, o, g, ext, d, lo, v) && Operand(g, d, x) && o.At?
    ensures Mid(X, g, ext).At? && Same(o.regs, Mid(X, g, ext).regs, lo, -1)
  {
    WholeTrunc(g, d);
    assert Pending(g, ext, d) == g.jpc + ext;
  }

  lemma CodeCompIs(fs: Fs, op: CmpOp, d1: Exp, x1: int, e2: Exp)
    requires Operand(fs, d1, x1)
    ensures var (h, d2, x2) := Exp2RK(fs, e2); var (g, _) := CondJump(FreeExp(FreeExp(h, d2), d1), CmpInstr(op, x1, x2));
      CodeComp(fs, op, d1, e2) == (g, Plainly(VJmp(|g.code| - 1)))
  {
    hide Exp2RK, CondJump;
    Exp2RKTwice(fs, d1, x1);
  }

  /** `codecomp`, both operands being named by `x1` and `x2`. */
  lemma ComparisonOk(X: Ctx, o: Out, g: Fs, ext: set<nat>, d1: Exp, x1: int, lo: int, a: Expr, h: Fs, d2: Exp, x2: int, b: Expr, op: CmpOp, n: nat)
    requires Promise(X, o, g, ext, d1, lo, ValueOf(X.E, o, a)) && Operand(g, d1, x1)
    requires var m := Mid(X, g, ext); Promise(X, m, h, ext, d2, g.freereg, ValueOf(X.E, m, b)) && Operand(h, d2, x2)
    requires h.nactvar == g.nactvar && LocalsIn(b, n) && n <= lo
    ensures var h1 := FreeExp(FreeExp(h, d2), d1); var (k, _) := CondJump(h1, CmpInstr(op, x1, x2));
      Promise(X, o, k, ext, Plainly(VJmp(|k.code| - 1)), lo, ValueOf(X.E, o, ECompare(op, a, b))) && SameControls(h.code, k.code, ext)
  {
    var m := Mid(X, g, ext);
    var i := CmpInstr(op, x1, x2);
    var h1 := h.(freereg := lo);
    OperandsFree(g, d1, x1, lo, h, d2, x2);
    OperandsMeet(X, o, g, ext, d1, x1, lo, ValueOf(X.E, o, a), h, d2, x2, ValueOf(X.E, m, b));
    var s := Sem(X, h, h.jpc + ext);
    CmpPasses(X.E, op, x1, x2, s.regs);
    if o.At? {
      OperandKept(X, o, g, ext, d1, x1, lo, ValueOf(X.E, o, a));
      CompareValue(X.E, o, m, op, a, b, lo, n, x1, x2, s.regs);
    }
    PromiseRegs(X, o, g, ext, d1, lo, ValueOf(X.E, o, a));
    PromiseRegs(X, m, h, ext, d2, g.freereg, ValueOf(X.E, m, b));
    SameProgramOk(X, m, h, h1, ext, d2, g.freereg, ValueOf(X.E, m, b));
    assert Sem(X, h1, h1.jpc + ext) == s;
    hide WfExp, Spec, CondJump, ValueOf, Sem, Mid;
    CompareOk(X, o, h1, ext, d2, i, lo, ValueOf(X.E, o, ECompare(op, a, b)));
  }

  predicate Leaf(x: Expr) {
    !x.EParen? && !x.ENot? && !x.ELogic? && !x.ECompare?
  }

  lemma GenLeaf(X: Ctx, o: Out, fs: Fs, ext: set<nat>, x: Expr, lo: int)
    requires Start(X, o, fs, ext, lo) && LocalsIn(x, fs.nactvar) && Leaf(x)
    requires Gen(fs, x).0.k <= X.E.k
    ensures var (g, e) := Gen(fs, x); Generates(X, o, fs, ext, x, lo, g, e)
  {
    SameControlsRefl(fs.code, ext);
    hide Start, Promise, SameControls;
    match x
    case EStr(s) =>
      StrOk(X, o, fs, ext, s, lo);
      var (g, e) := Gen(fs, x);
      AnyValue(X, o, g, ext, e, lo, Str(s), ValueOf(X.E, o, x));
    case _ => LeafOk(X, o, fs, ext, Gen(fs, x).1.k, lo, ValueOf(X.E, o, x));
  }

  lemma GenNot(X: Ctx, o: Out, fs: Fs, ext: set<nat>, a: Expr, lo: int, g: Fs, e: Exp)
    requires Generates(X, o, fs, ext, a, lo, g, e)
    requires var h := CodeNot(g, e).0; h.ok && h.k <= X.E.k
    ensures var (h, r) := CodeNot(g, e); Generates(X, o, fs, ext, ENot(a), lo, h, r)
  {
    hide Promise, SameControls, CodeNot;
    var (h, r) := CodeNot(g, e);
    CodeNotOk(X, o, g, ext, e, lo, ValueOf(X.E, o, a));
    AnyValue(X, o, h, ext, r, lo, Negated(ValueOf(X.E, o, a)), ValueOf(X.E, o, ENot(a)));
    SameControlsTrans(fs.code, g.code, h.code, ext);
  }

  lemma GenParen(X: Ctx, o: Out, fs: Fs, ext: set<nat>, a: Expr, lo: int, g: Fs, e: Exp)
    requires Generates(X, o, fs, ext, a, lo, g, e)
    ensures Generates(X, o, fs, ext, EParen(a), lo, g, DischargeVars(e))
  {
    hide Promise, SameControls;
    DischargeVarsOk(X, o, g, ext, e, lo, ValueOf(X.E, o, a));
  }

  lemma GenFirst(X: Ctx, o: Out, fs: Fs, ext: set<nat>, a: Expr, lo: int, g: Fs, e: Exp)
    requires Generates(X, o, fs, ext, a, lo, g, e)
    requires var h := Exp2RK(g, e).0; h.ok && h.k <= X.E.k
    ensures var (h, d, x) := Exp2RK(g, e);
      && Promise(X, o, h, ext, d, lo, ValueOf(X.E, o, a)) && Operand(h, d, x) && SameControls(fs.code, h.code, ext)
      && Start(X, Mid(X, h, ext), h, ext, h.freereg)
  {
    hide Promise, SameControls, Exp2RK, Start;
    var (h, d, x) := Exp2RK(g, e);
    Exp2RKOk(X, o, g, ext, e, lo, ValueOf(X.E, o, a));
    OperandStart(X, o, h, ext, d, x, lo, ValueOf(X.E, o, a));
    SameControlsTrans(fs.code, g.code, h.code, ext);
  }

  lemma GenSecond(X: Ctx, o: Out, fs: Fs, ext: set<nat>, op: CmpOp, a: Expr, b: Expr, lo: int, g: Fs, d1: Exp, x1: int, h: Fs, e2: Exp, n: nat)
    requires Promise(X, o, g, ext, d1, lo, ValueOf(X.E, o, a)) && Operand(g, d1, x1) && SameControls(fs.code, g.code, ext)
    requires Generates(X, Mid(X, g, ext), g, ext, b, g.freereg, h, e2)
    requires var k := CodeComp(h, op, d1, e2).0; k.ok && k.k <= X.E.k
    requires h.nactvar == g.nactvar && LocalsIn(b, n) && n <= lo
    ensures var (k, r) := CodeComp(h, op, d1, e2); Generates(X, o, fs, ext, ECompare(op, a, b), lo, k, r)
  {
    hide Promise, SameControls, Exp2RK, CondJump, FreeExp, CodeComp, Mid, ValueOf;
    var (h1, d2, x2) := Exp2RK(h, e2);
    Exp2RKTwice(h, d1, x1);
    CodeCompIs(h, op, d1, x1, e2);
    CodeCompGrew(h, op, d1, e2);
    Exp2RKGrew(h, e2);
    Exp2RKOk(X, Mid(X, g, ext), h, ext, e2, g.freereg, ValueOf(X.E, Mid(X, g, ext), b));
    ComparisonOk(X, o, g, ext, d1, x1, lo, a, h1, d2, x2, b, op, n);
    var k := CodeComp(h, op, d1, e2).0;
    SameControlsTrans(fs.code, g.code, h.code, ext);
    SameControlsTrans(fs.code, h.code, h1.code, ext);
    SameControlsTrans(fs.code, h1.code, k.code, ext);
  }

  lemma StartRegs(X: Ctx, o: Out, fs: Fs, ext: set<nat>, lo: int)
    requires Start(X, o, fs, ext, lo)
    ensures fs.nactvar <= lo
  {
  }

  /** Every expression: the code promises the value the language defines. */
  lemma {:induction false} GenOk(X: Ctx, o: Out, fs: Fs, ext: set<nat>, x: Expr, lo: int)
    requires Start(X, o, fs, ext, lo) && LocalsIn(x, fs.nactvar)
    requires var g := Gen(fs, x).0; g.ok && g.k <= X.E.k
    ensures var (g, e) := Gen(fs, x); Generates(X, o, fs, ext, x, lo, g, e)
    decreases x
  {
    hide Start, Generates, Promise, Forked, SameControls, Mid, GoIf, CodeNot, CodeComp, Exp2RK;
    match x
    case EParen(a) =>
      GenOk(X, o, fs, ext, a, lo);
      GenParen(X, o, fs, ext, a, lo, Gen(fs, a).0, Gen(fs, a).1);
    case ENot(a) =>
      var (g, e) := Gen(fs, a);
      CodeNotGrew(g, e);
      GenOk(X, o, fs, ext, a, lo);
      GenNot(X, o, fs, ext, a, lo, g, e);
    case ELogic(isAnd, a, b) =>
      GenLogic(X, o, fs, ext, isAnd, a, b, lo);
    case ECompare(op, a, b) =>
      GenCompare(X, o, fs, ext, op, a, b, lo);
    case _ => GenLeaf(X, o, fs, ext, x, lo);
  }

  lemma {:induction false} GenLogic(X: Ctx, o: Out, fs: Fs, ext: set<nat>, isAnd: bool, a: Expr, b: Expr, lo: int)
    requires Start(X, o, fs, ext, lo) && LocalsIn(a, fs.nactvar) && LocalsIn(b, fs.nactvar)
    requires var g := Gen(fs, ELogic(isAnd, a, b)).0; g.ok && g.k <= X.E.k
    ensures var (g, e) := Gen(fs, ELogic(isAnd, a, b)); Generates(X, o, fs, ext, ELogic(isAnd, a, b), lo, g, e)
    decreases ELogic(isAnd, a, b), 0
  {
    hide Start, Promise, Forked, SameControls, Mid, GoIf, ValueOf, TrueConst, Gen;
    GenLogicIs(fs, isAnd, a, b);
    var (g, e) := Gen(fs, a);
    var (g1, r) := GoIf(g, e, isAnd);
    var (g2, e2) := Gen(g1, b);
    GenGrew(fs, a);
    GoIfGrew(g, e, isAnd);
    GenGrew(g1, b);
    StartRegs(X, o, fs, ext, lo);
    GenOk(X, o, fs, ext, a, lo);
    LogicOk(X, o, g, ext, e, isAnd, lo, ValueOf(X.E, o, a));
    var P := ext + r.t + r.f;
    GenOk(X, Mid(X, g1, P), g1, P, b, lo);
    SameControlsTrans(fs.code, g.code, g1.code, ext);
    hide Generates;
    LogicJoin(X, o, fs, ext, a, b, isAnd, lo, g1, r, g2, e2, fs.nactvar);
  }

  lemma {:induction false} GenCompare(X: Ctx, o: Out, fs: Fs, ext: set<nat>, op: CmpOp, a: Expr, b: Expr, lo: int)
    requires Start(X, o, fs, ext, lo) && LocalsIn(a, fs.nactvar) && LocalsIn(b, fs.nactvar)
    requires var g := Gen(fs, ECompare(op, a, b)).0; g.ok && g.k <= X.E.k
    ensures var (g, e) := Gen(fs, ECompare(op, a, b)); Generates(X, o, fs, ext, ECompare(op, a, b), lo, g, e)
    decreases ECompare(op, a, b), 0
  {
    hide Start, Promise, SameControls, Mid, Generates, Exp2RK, CodeComp, ValueOf, Gen;
    GenCompareIs(fs, op, a, b);
    var (g, e) := Gen(fs, a);
    var (g1, d1, x1) := Exp2RK(g, e);
    var (g2, e2) := Gen(g1, b);
    GenGrew(fs, a);
    Exp2RKGrew(g, e);
    GenGrew(g1, b);
    CodeCompGrew(g2, op, d1, e2);
    StartRegs(X, o, fs, ext, lo);
    GenOk(X, o, fs, ext, a, lo);
    GenFirst(X, o, fs, ext, a, lo, g, e);
    GenOk(X, Mid(X, g1, ext), g1, ext, b, g1.freereg);
    GenSecond(X, o, fs, ext, op, a, b, lo, g1, d1, x1, g2, e2, fs.nactvar);
  }

  // ---- results ----

  /** Following a run that had arrived with registers `A`, the code now takes it
      to its end with value `v` in `reg`; nothing else below `lo` has changed,
      and runs that were leaving still leave. */
  ghost predicate Delivered(X: Ctx, o: Out, h: Fs, ext: set<nat>, reg: int, lo: int, v: Value) {
    var s := Sem(X, h, h.jpc + ext);
    JumpSet(h.code, h.jpc + ext) &&
    match o
    case Stuck => false
    case Exit(_, _) => s == o
    case At(_, A) => s.At? && s.pc == |h.code| && Get(s.regs, reg) == v && Same(A, s.regs, lo, reg)
  }

  lemma DeliveredIs(X: Ctx, o: Out, h: Fs, ext: set<nat>, reg: int, lo: int, x: int, v: Value)
    requires WfExp(h, ext, Plainly(VNonReloc(reg)), X.q) && Spec(X, o, h, ext, Plainly(VNonReloc(reg)), lo, x, v)
    requires x == reg || x == -1
    ensures Delivered(X, o, h, ext, reg, lo, v)
  {
    WholeTrunc(h, Plainly(VNonReloc(reg)));
    assert Pending(h, ext, Plainly(VNonReloc(reg))) == h.jpc + ext;
  }

  /** An operand on the stack: `luaK_exp2nextreg`. */
  lemma OperandCompiles(X: Ctx, o: Out, fs: Fs, ext: set<nat>, x: Expr, lo: int)
    requires Start(X, o, fs, ext, lo) && LocalsIn(x, fs.nactvar)
    requires var (g, e) := Gen(fs, x); var h := Exp2NextReg(g, e).0; h.ok && h.k <= X.E.k
    ensures var (g, e) := Gen(fs, x); var h := Exp2NextReg(g, e).0;
      Delivered(X, o, h, ext, lo, lo, ValueOf(X.E, o, x)) && h.freereg == lo + 1
  {
    hide Start, SameControls, Exp2NextReg, WfExp, Spec, Delivered, ValueOf;
    var (g, e) := Gen(fs, x);
    Exp2NextRegGrew(g, e);
    GenOk(X, o, fs, ext, x, lo);
    Exp2NextRegOk(X, o, g, ext, e, lo, ValueOf(X.E, o, x));
    DeliveredIs(X, o, Exp2NextReg(g, e).0, ext, lo, lo, -1, ValueOf(X.E, o, x));
  }

  /** Assignment to a local: `luaK_storevar`. */
  lemma AssignCompiles(X: Ctx, o: Out, fs: Fs, ext: set<nat>, x: Expr, lo: int, reg: int)
    requires Start(X, o, fs, ext, lo) && LocalsIn(x, fs.nactvar) && 0 <= reg < fs.nactvar
    requires var (g, e) := Gen(fs, x); var h := Exp2Reg(FreeExp(g, e), e, reg).0; h.ok && h.k <= X.E.k
    ensures var (g, e) := Gen(fs, x); var h := Exp2Reg(FreeExp(g, e), e, reg).0;
      Delivered(X, o, h, ext, reg, lo, ValueOf(X.E, o, x)) && h.freereg == lo
  {
    hide Start, SameControls, Exp2Reg, WfExp, Spec, Delivered, ValueOf;
    var (g, e) := Gen(fs, x);
    var v := ValueOf(X.E, o, x);
    FreeExpCode(g, e);
    Exp2RegKept(FreeExp(g, e), e, reg);
    StartRegs(X, o, fs, ext, lo);
    GenGrew(fs, x);
    GenOk(X, o, fs, ext, x, lo);
    PromiseRegs(X, o, g, ext, e, lo, v);
    FreeFor(g, e, lo);
    SameProgramOk(X, o, g, FreeExp(g, e), ext, e, lo, v);
    WiderSpec(X, o, FreeExp(g, e), ext, e, lo, v, reg);
    Exp2RegOk(X, o, FreeExp(g, e), ext, e, reg, lo, reg, v);
    DeliveredIs(X, o, Exp2Reg(FreeExp(g, e), e, reg).0, ext, reg, lo, reg, v);
  }

  lemma FreeFor(fs: Fs, e: Exp, lo: int)
    requires RegsOk(fs, e, lo)
    ensures FreeExp(fs, e).freereg == lo
  {
  }

  lemma WiderSpec(X: Ctx, o: Out, fs: Fs, ext: set<nat>, e: Exp, lo: int, v: Value, x: int)
    requires WfExp(fs, ext, e, X.q) && Spec(X, o, fs, ext, e, lo, -1, v)
    ensures Spec(X, o, fs, ext, e, lo, x, v)
  {
  }

  /** A condition: runs go on exactly if the value has truth `b`, and leave by
      the one remaining list otherwise. */
  lemma ConditionCompiles(X: Ctx, o: Out, fs: Fs, ext: set<nat>, x: Expr, lo: int, b: bool)
    requires Start(X, o, fs, ext, lo) && LocalsIn(x, fs.nactvar)
    requires var (g, e) := Gen(fs, x); var h := GoIf(g, e, b).0; h.ok && h.k <= X.E.k
    ensures var (g, e) := Gen(fs, x); var (h, r) := GoIf(g, e, b); var L := if b then r.f else r.t;
      var s := Sem(X, h, h.jpc + ext + L);
      o.At? ==>
        && !s.Stuck? && Same(o.regs, s.regs, lo, -1)
        && (if Truthy(Eval(X.E, o.regs, x)) == b then s.At? && s.pc == |h.code| else s.Exit? && s.jump in L)
  {
    hide Gen, GoIf, Start, SameControls, WfExp, Spec;
    var (g, e) := Gen(fs, x);
    var (h, r) := GoIf(g, e, b);
    GoIfGrew(g, e, b);
    GenOk(X, o, fs, ext, x, lo);
    GoIfOk(X, o, g, ext, e, b, lo, ValueOf(X.E, o, x));
    assert h.jpc + ext + r.t + r.f == h.jpc + ext + (if b then r.f else r.t);
  }

  // ---- the interpreter ----

  /** The generator between statements: whatever code came before. */
  predicate Between(fs: Fs, lo: int) {
    && JumpSet(fs.code, fs.jpc) && fs.lasttarget <= |fs.code| && (fs.jpc != {} ==> fs.lasttarget == |fs.code|)
    && (NilOpen(fs) ==> fs.code[|fs.code| - 1].b >= 0)
    && fs.nactvar <= lo == fs.freereg < MAXREGS && fs.maxstack < MAXREGS
  }

  /** Where runs of the next statement are taken to begin: at its first
      instruction, or at a LOADNIL that it may yet extend. */
  function Entry(fs: Fs): (q: nat)
    ensures q <= |fs.code|
  {
    if NilOpen(fs) then |fs.code| - 1 else |fs.code|
  }

  /** The registers that such a run brings to the statement itself. */
  function AtEntry(fs: Fs, R0: Regs): Regs
    requires Between(fs, fs.freereg)
  {
    if NilOpen(fs) then var i := fs.code[|fs.code| - 1]; SetNil(R0, i.a, i.b + 1) else R0
  }

  lemma BetweenStart(E: Env, fs: Fs, lo: int, R0: Regs)
    requires Between(fs, lo)
    ensures Start(Ctx(E, Entry(fs), R0), At(|fs.code|, AtEntry(fs, R0)), fs, {}, lo)
  {
    assert fs.jpc + {} == fs.jpc;
    if NilOpen(fs) {
      var n := |fs.code|;
      assert n - 1 !in fs.jpc;
      assert TidyAt(fs.code, fs.lasttarget, fs.jpc, n - 1);
      var A := AtEntry(fs, R0);
      assert Step(E, fs.code, fs.jpc, n - 1, R0) == Go(n, A);
      assert Run(E, fs.code, fs.jpc, n, A) == At(n, A);
      assert Run(E, fs.code, fs.jpc, n - 1, R0) == At(n, A);
    }
  }

  /** When the next instruction is emitted, the interpreter really gets there. */
  lemma DeliveredRuns(X: Ctx, o: Out, h: Fs, reg: int, lo: int, v: Value) returns (n: nat, S: Regs)
    requires o.At? && Delivered(X, o, h, {}, reg, lo, v)
    ensures Reaches(X.E, Discharge(h).code, X.q, X.R0, n, |h.code|, S)
    ensures Get(S, reg) == v && Same(o.regs, S, lo, reg)
  {
    assert h.jpc + {} == h.jpc && h.jpc - h.jpc == {};
    DischargeSem(X, h, h.jpc);
    var s := Sem(X, h, h.jpc);
    assert EndOf(X, Discharge(h).code, {}) == s;
    n := RunIsExec(X.E, Discharge(h).code, X.q, X.R0);
    S := s.regs;
  }

  /** Compiling an expression after any code and running the result from there:
      the interpreter reaches the instruction after it, with the value of the
      expression in the first free register and every register below it as it
      was. */
  lemma ExpressionRuns(E: Env, fs: Fs, x: Expr, lo: int, R0: Regs) returns (n: nat, S: Regs)
    requires Between(fs, lo) && LocalsIn(x, fs.nactvar)
    requires var (g, e) := Gen(fs, x); var h := Exp2NextReg(g, e).0; h.ok && h.k <= E.k
    ensures var (g, e) := Gen(fs, x); var h := Exp2NextReg(g, e).0;
      Reaches(E, Discharge(h).code, Entry(fs), R0, n, |h.code|, S)
    ensures var A := AtEntry(fs, R0); Get(S, lo) == Eval(E, A, x) && forall i :: 0 <= i < lo ==> Get(S, i) == Get(A, i)
  {
    hide Start, Delivered, Exp2NextReg, Gen, AtEntry, Entry;
    var A := AtEntry(fs, R0);
    var X := Ctx(E, Entry(fs), R0);
    var o := At(|fs.code|, A);
    BetweenStart(E, fs, lo, R0);
    OperandCompiles(X, o, fs, {}, x, lo);
    var (g, e) := Gen(fs, x);
    n, S := DeliveredRuns(X, o, Exp2NextReg(g, e).0, lo, lo, Eval(E, A, x));
  }

  /** The same for an assignment to a local variable, which changes that one
      register only. */
  lemma AssignmentRuns(E: Env, fs: Fs, x: Expr, lo: int, reg: int, R0: Regs) returns (n: nat, S: Regs)
    requires Between(fs, lo) && LocalsIn(x, fs.nactvar) && 0 <= reg < fs.nactvar
    requires var (g, e) := Gen(fs, x); var h := Exp2Reg(FreeExp(g, e), e, reg).0; h.ok && h.k <= E.k
    ensures var (g, e) := Gen(fs, x); var h := Exp2Reg(FreeExp(g, e), e, reg).0;
      Reaches(E, Discharge(h).code, Entry(fs), R0, n, |h.code|, S)
    ensures var A := AtEntry(fs, R0); Get(S, reg) == Eval(E, A, x) && forall i :: 0 <= i < lo && i != reg ==> Get(S, i) == Get(A, i)
  {
    hide Start, Delivered, Exp2Reg, Gen, FreeExp, AtEntry, Entry;
    var A := AtEntry(fs, R0);
    var X := Ctx(E, Entry(fs), R0);
    var o := At(|fs.code|, A);
    BetweenStart(E, fs, lo, R0);
    AssignCompiles(X, o, fs, {}, x, lo, reg);
    var (g, e) := Gen(fs, x);
    n, S := DeliveredRuns(X, o, Exp2Reg(FreeExp(g, e), e, reg).0, reg, lo, Eval(E, A, x));
  }
}
