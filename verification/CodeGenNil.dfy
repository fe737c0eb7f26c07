/** `luaK_nil`: widening a LOADNIL that was just emitted is as good as emitting a
  new one, because nothing jumps between the two. */
module CodeGenNil {
  import opened LuaVm
  import opened CodeGenModel
  import opened CodeGenSim

  /** The code from `q` on: jumps that are no longer pending land at or before
      the last label, and whatever skips an instruction is followed by the
      instruction it is meant to skip. */
  ghost predicate Tidy(fs: Fs, S: set<nat>, q: nat) {
    && fs.lasttarget <= |fs.code|
    && (fs.jpc != {} ==> fs.lasttarget == |fs.code|)
    && forall i :: q <= i < |fs.code| ==> TidyAt(fs.code, fs.lasttarget, S, i)
  }

  ghost predicate TidyAt(code: seq<Instr>, lasttarget: nat, S: set<nat>, i: nat)
    requires i < |code|
  {
    match code[i]
    case Jmp(_, sbx) => i in S || i + 1 + sbx <= lasttarget
    case LoadBool(_, _, c) => c == 0 || (i + 1 < |code| && code[i + 1].LoadBool?)
    case LoadNil(_, b) => b >= 0
    case LoadKX(_) => i + 1 < |code| && code[i + 1].ExtraArg?
    case _ => TMode(code[i]) ==> i + 1 < |code| && code[i + 1].Jmp?
  }

  /** A LOADNIL at the end that no jump separates from what comes next. */
  predicate NilOpen(fs: Fs) {
    |fs.code| > fs.lasttarget && fs.code[|fs.code| - 1].LoadNil?
  }

  lemma {:induction false} SetNilAt(R: Regs, a: int, n: nat)
    ensures forall i :: i in SetNil(R, a, n) <==> i in R || a <= i < a + n
    ensures forall i :: i in SetNil(R, a, n) ==> SetNil(R, a, n)[i] == if a <= i < a + n then Nil else R[i]
    decreases n
  {
    if n > 0 { SetNilAt(R[a := Nil], a + 1, n - 1); }
  }

  lemma NilRangesJoin(R: Regs, i: Instr, reg: int)
    requires i.LoadNil? && i.b >= 0
    requires (i.a <= reg <= i.a + i.b + 1) || (reg <= i.a <= reg + 1)
    ensures var lo := Min(reg, i.a); var hi := Max(reg, i.a + i.b);
      SetNil(R, lo, hi - lo + 1) == SetNil(R, i.a, i.b + 1)[reg := Nil]
  {
    var lo := Min(reg, i.a);
    var hi := Max(reg, i.a + i.b);
    SetNilAt(R, lo, hi - lo + 1);
    SetNilAt(R, i.a, i.b + 1);
  }

  /** A run that ends properly gets to the last instruction first. */
  lemma {:induction false} RunShrink(E: Env, code: seq<Instr>, lasttarget: nat, S: set<nat>, q: nat, pc: nat, R: Regs)
    requires forall i :: q <= i < |code| ==> TidyAt(code, lasttarget, S, i)
    requires lasttarget < |code| && code[|code| - 1].LoadNil?
    requires q <= pc < |code| && Proper(Run(E, code, S, pc, R), |code|)
    ensures Proper(Run(E, code[..|code| - 1], S, pc, R), |code| - 1)
    decreases |code| - pc
  {
    var n := |code| - 1;
    if pc < n {
      var A := code[..n];
      assert TidyAt(code, lasttarget, S, pc);
      assert A[pc] == code[pc];
      assert Controlled(A, pc) == Controlled(code, pc);
      if pc + 1 < n { assert A[pc + 1] == code[pc + 1]; }
      assert TidyAt(code, lasttarget, S, pc + 1);
      assert Step(E, A, S, pc, R) == Step(E, code, S, pc, R);
      match Step(E, code, S, pc, R)
      case Stop(_) =>
      case Go(t, Q) => RunShrink(E, code, lasttarget, S, q, t, Q);
    }
  }

  lemma RunLastNil(E: Env, code: seq<Instr>, S: set<nat>, pc: nat, R: Regs)
    requires code != [] && pc < |code| && Plain(code[|code| - 1])
    requires Proper(Run(E, code[..|code| - 1], S, pc, R), |code| - 1)
    ensures Run(E, code, S, pc, R) == EmitOut(E, code[|code| - 1], Run(E, code[..|code| - 1], S, pc, R))
  {
    RunAppend(E, code[..|code| - 1], code, S, S, pc, R);
    match Run(E, code[..|code| - 1], S, pc, R)
    case At(_, Q) => RunLast(E, code, S, Q);
    case Exit(_, _) =>
  }

  lemma CodeNilSem(X: Ctx, fs: Fs, reg: int, S: set<nat>)
    requires Ready(X, fs, S) && Tidy(fs, S, X.q) && reg >= 0
    requires X.q == |fs.code| ==> !NilOpen(fs)
    ensures var g := CodeNil(fs, reg, 1);
      && Sem(X, g, S - fs.jpc) == LoadOut(|g.code|, reg, Nil, Sem(X, fs, S))
      && Ready(X, g, S - fs.jpc)
      && SameControls(fs.code, g.code, S - fs.jpc)
      && g.jpc == {}
  {
    if NilMerges(fs, reg, 1) {
      assert S - fs.jpc == S;
      NilMergeSem(X, fs, reg, S);
    } else {
      CodePlainSem(X, fs, LoadNil(reg, 0), S);
      assert forall R: Regs :: SetNil(R, reg, 1) == SetNil(R[reg := Nil], reg + 1, 0);
    }
  }

  lemma NilMergeSem(X: Ctx, fs: Fs, reg: int, S: set<nat>)
    requires Ready(X, fs, S) && Tidy(fs, S, X.q) && reg >= 0
    requires X.q < |fs.code| && NilMerges(fs, reg, 1)
    ensures var g := CodeNil(fs, reg, 1);
      && Sem(X, g, S) == LoadOut(|g.code|, reg, Nil, Sem(X, fs, S))
      && Ready(X, g, S)
      && SameControls(fs.code, g.code, S)
  {
    hide Run;
    var n := |fs.code|;
    var i := fs.code[n - 1];
    var g := CodeNil(fs, reg, 1);
    var A := fs.code[..n - 1];
    assert TidyAt(fs.code, fs.lasttarget, S, n - 1);
    NilMergeJumps(fs, reg, S);
    RunShrink(X.E, fs.code, fs.lasttarget, S, X.q, X.q, X.R0);
    RunLastNil(X.E, fs.code, S, X.q, X.R0);
    assert g.code[..n - 1] == A;
    RunLastNil(X.E, g.code, S, X.q, X.R0);
    var o := EndOf(X, A, S);
    if o.At? { NilRangesJoin(o.regs, i, reg); }
  }

  lemma NilMergeJumps(fs: Fs, reg: int, S: set<nat>)
    requires JumpSet(fs.code, S) && NilMerges(fs, reg, 1)
    ensures var g := CodeNil(fs, reg, 1); JumpSet(g.code, S) && SameControls(fs.code, g.code, S)
  {
  }
}
