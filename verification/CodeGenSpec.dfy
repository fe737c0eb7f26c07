/** What an expression descriptor promises about the code emitted so far, and
  what it takes to move its value into a register. */
module CodeGenSpec {
  import opened LuaVm
  import opened CodeGenModel
  import opened CodeGenSim
  import opened CodeGenNil

  /** Code that is executed before the value of `e` is looked at: a relocatable
      instruction still lacks its register, and a comparison its use. */
  function Base(fs: Fs, e: Exp): nat {
    match e.k
    case VReloc(_) => if |fs.code| >= 1 then |fs.code| - 1 else 0
    case VJmp(_) => if |fs.code| >= 2 then |fs.code| - 2 else 0
    case _ => |fs.code|
  }

  function Trunc(fs: Fs, e: Exp): Fs {
    fs.(code := fs.code[..Base(fs, e)])
  }

  predicate KindOk(fs: Fs, e: Exp) {
    match e.k
    case VReloc(pc) => |fs.code| >= 1 && pc == |fs.code| - 1 && fs.code[pc].Not? && fs.jpc == {}
    case VJmp(pc) => |fs.code| >= 2 && pc == |fs.code| - 1 && fs.code[pc].Jmp? && Comparison(fs.code[pc - 1]) && fs.jpc == {}
    case VLocal(r) => 0 <= r < fs.nactvar
    case VNonReloc(r) => 0 <= r < MAXREGS
    case VK(i) => 0 <= i < |fs.k|
    case _ => true
  }

  /** Every jump still pending around `e`; `ext` belongs to the surroundings. */
  function Pending(fs: Fs, ext: set<nat>, e: Exp): set<nat> {
    fs.jpc + ext + e.t + e.f
  }

  /** The same, with the jump of a comparison whose use is still open. */
  function AllPending(fs: Fs, ext: set<nat>, e: Exp): set<nat> {
    if e.k.VJmp? && e.k.pc >= 0 then Pending(fs, ext, e) + {e.k.pc} else Pending(fs, ext, e)
  }

  ghost predicate WfExp(fs: Fs, ext: set<nat>, e: Exp, q: nat) {
    && KindOk(fs, e)
    && fs.jpc !! ext !! e.t !! e.f
    && JumpSet(fs.code[..Base(fs, e)], Pending(fs, ext, e))
    && Tidy(fs, AllPending(fs, ext, e), q)
    && q <= Base(fs, e)
    && (forall p :: p in e.t + e.f ==> q <= p)
    && (q == |fs.code| ==> !NilOpen(fs))
    && 0 <= fs.nactvar < MAXREGS && fs.maxstack < MAXREGS
  }

  /** Where the registers stand: a value in a temporary sits in the first
      register that was free when the expression began. */
  predicate RegsOk(fs: Fs, e: Exp, lo: int) {
    && fs.nactvar <= lo && fs.freereg < MAXREGS
    && (if e.k.VNonReloc? && e.k.reg >= fs.nactvar then e.k.reg == lo && fs.freereg == lo + 1 else fs.freereg == lo)
  }

  function KindValue(E: Env, fs: Fs, e: Exp, R: Regs): Value
    requires KindOk(fs, e)
  {
    match e.k
    case VNil => Nil
    case VTrue => Bool(true)
    case VFalse => Bool(false)
    case VK(i) => Const(E, i)
    case VKInt(i) => Int(i)
    case VKFlt(r) => Flt(r)
    case VLocal(r) => Get(R, r)
    case VNonReloc(r) => Get(R, r)
    case VReloc(pc) => Bool(!Truthy(Get(R, fs.code[pc].b)))
    case VJmp(pc) => Bool(Pass(E, fs.code[pc - 1], R))
  }

  /** Registers below `lo` are untouched, except perhaps `x`. */
  ghost predicate Same(A: Regs, B: Regs, lo: int, x: int) {
    forall i :: 0 <= i < lo && i != x ==> Get(A, i) == Get(B, i)
  }

  /** The value carried by an exit: that of a TESTSET's register, or a boolean. */
  predicate ExitVal(code: seq<Instr>, p: nat, R: Regs, v: Value) {
    if SetsValue(code, p) then Get(R, code[p - 1].b) == v else v.Bool?
  }

  /** A run of the earlier code that ended in `o` is, in the present code, a run
      that computes `v`: it leaves by the true list with a true value, by the
      false list with a false one, or arrives with the value where the kind of
      `e` says. Runs that leave by a jump of the surroundings still do. */
  ghost predicate Spec(X: Ctx, o: Out, fs: Fs, ext: set<nat>, e: Exp, lo: int, x: int, v: Value)
    requires KindOk(fs, e)
  {
    var s := Sem(X, Trunc(fs, e), Pending(fs, ext, e));
    match o
    case Stuck => false
    case Exit(p, _) => p in ext && s == o
    case At(_, A) =>
      match s
      case Stuck => false
      case At(m, R) => m == Base(fs, e) && Same(A, R, lo, x) && KindValue(X.E, fs, e, R) == v
      case Exit(p, R) =>
        && Same(A, R, lo, x)
        && (if p in e.t then Truthy(v) else p in e.f && !Truthy(v))
        && ExitVal(fs.code, p, R, v)
  }

  lemma SpecReady(X: Ctx, o: Out, fs: Fs, ext: set<nat>, e: Exp, lo: int, x: int, v: Value)
    requires WfExp(fs, ext, e, X.q) && Spec(X, o, fs, ext, e, lo, x, v)
    ensures Ready(X, Trunc(fs, e), Pending(fs, ext, e))
  {
  }

  lemma WholeTrunc(fs: Fs, e: Exp)
    requires !e.k.VReloc? && !e.k.VJmp?
    ensures Trunc(fs, e) == fs
  {
    assert fs.code[..|fs.code|] == fs.code;
  }

  // ---- tidiness of emitted code ----

  lemma TidyAppend(code: seq<Instr>, tail: seq<Instr>, l: nat, l': nat, S: set<nat>, S': set<nat>, i: nat)
    requires i < |code| && TidyAt(code, l, S, i) && l <= l'
    requires i in S ==> i in S'
    ensures TidyAt(code + tail, l', S', i)
  {
  }

  /** Patching the waiting jumps to the label where they wait. */
  lemma DischargeTidy(fs: Fs, S: set<nat>, q: nat)
    requires Tidy(fs, S, q) && JumpSet(fs.code, fs.jpc)
    ensures Tidy(Discharge(fs), S - fs.jpc, q)
  {
    var n := |fs.code|;
    var d := Discharge(fs).code;
    PatchListIsPatched(fs.code, fs.jpc, n, NO_REG, n);
    forall i | q <= i < n ensures TidyAt(d, fs.lasttarget, S - fs.jpc, i) {
      assert TidyAt(fs.code, fs.lasttarget, S, i);
      assert PatchedAt(fs.code, d, fs.jpc, i);
      assert d[i] == PatchAt(fs.code, fs.jpc, n, NO_REG, n, i);
      if i + 1 < n { assert PatchedAt(fs.code, d, fs.jpc, i + 1); }
    }
  }

  lemma CodeTidy(fs: Fs, i: Instr, S: set<nat>, q: nat)
    requires Tidy(fs, S, q) && JumpSet(fs.code, fs.jpc) && Plain(i)
    ensures Tidy(Code(fs, i), S - fs.jpc, q)
  {
    DischargeTidy(fs, S, q);
    var d := Discharge(fs);
    forall j | q <= j < |d.code| ensures TidyAt(d.code + [i], fs.lasttarget, S - fs.jpc, j) {
      TidyAppend(d.code, [i], fs.lasttarget, fs.lasttarget, S - fs.jpc, S - fs.jpc, j);
    }
  }

  lemma CodeKTidy(fs: Fs, reg: int, k: int, S: set<nat>, q: nat)
    requires Tidy(fs, S, q) && JumpSet(fs.code, fs.jpc)
    ensures Tidy(CodeK(fs, reg, k), S - fs.jpc, q)
  {
    if k <= MAXARG_Bx {
      CodeTidy(fs, LoadK(reg, k), S, q);
    } else {
      DischargeTidy(fs, S, q);
      var d := Discharge(fs);
      var tail := [LoadKX(reg), ExtraArg(k)];
      NoJpcCode(Code(fs, LoadKX(reg)), ExtraArg(k));
      assert CodeK(fs, reg, k).code == d.code + tail;
      forall j | q <= j < |d.code| ensures TidyAt(d.code + tail, fs.lasttarget, S - fs.jpc, j) {
        TidyAppend(d.code, tail, fs.lasttarget, fs.lasttarget, S - fs.jpc, S - fs.jpc, j);
      }
    }
  }

  lemma CondJumpTidy(fs: Fs, i: Instr, S: set<nat>, q: nat)
    requires Tidy(fs, S, q) && JumpSet(fs.code, fs.jpc) && TMode(i)
    ensures Tidy(CondJump(fs, i).0, S - fs.jpc + {|fs.code| + 1}, q)
  {
    DischargeTidy(fs, S, q);
    var d := Discharge(fs);
    var S' := S - fs.jpc + {|fs.code| + 1};
    var tail := [i, Jmp(0, NO_JUMP)];
    NoJpcCode(Code(fs, i), Jmp(0, NO_JUMP));
    assert CondJump(fs, i).0.code == d.code + tail;
    forall j | q <= j < |d.code| ensures TidyAt(d.code + tail, fs.lasttarget, S', j) {
      TidyAppend(d.code, tail, fs.lasttarget, fs.lasttarget, S - fs.jpc, S', j);
    }
  }

  lemma NilTidy(fs: Fs, reg: int, S: set<nat>, q: nat)
    requires Tidy(fs, S, q) && JumpSet(fs.code, fs.jpc) && q <= |fs.code|
    requires q == |fs.code| ==> !NilOpen(fs)
    ensures Tidy(CodeNil(fs, reg, 1), S - fs.jpc, q)
  {
    if NilMerges(fs, reg, 1) {
      var n := |fs.code|;
      var g := CodeNil(fs, reg, 1);
      assert TidyAt(fs.code, fs.lasttarget, S, n - 1);
      forall j | q <= j < n ensures TidyAt(g.code, g.lasttarget, S - fs.jpc, j) {
        assert TidyAt(fs.code, fs.lasttarget, S, j);
      }
    } else {
      CodeTidy(fs, LoadNil(reg, 0), S, q);
    }
  }
}
