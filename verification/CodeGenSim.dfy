/** What each emitting or patching primitive does to the executions of the code
  so far. An execution is followed from a fixed start (`Ctx`); `Sem` is where it
  ends, with jumps waiting for the next instruction counted as arrived. */
module CodeGenSim {
  import opened LuaVm
  import opened CodeGenModel

  datatype Ctx = Ctx(E: Env, q: nat, R0: Regs)

  function EndOf(X: Ctx, code: seq<Instr>, S: set<nat>): Out {
    Run(X.E, code, S, X.q, X.R0)
  }

  function Land(n: nat, jpc: set<nat>, o: Out): Out {
    if o.Exit? && o.jump in jpc then At(n, o.regs) else o
  }

  function Sem(X: Ctx, fs: Fs, S: set<nat>): Out {
    Land(|fs.code|, fs.jpc, EndOf(X, fs.code, S))
  }

  /** All members of `L` are jumps of the code. */
  predicate JumpSet(code: seq<Instr>, L: set<nat>) {
    forall p | p in L :: p < |code| && code[p].Jmp?
  }

  /** The runs that count: those that end at an exit or exactly at the end. */
  predicate Proper(o: Out, n: nat) {
    o.Exit? || (o.At? && o.pc == n)
  }

  lemma PatchListIsPatched(code: seq<Instr>, L: set<nat>, vt: int, reg: int, dt: int)
    requires JumpSet(code, L)
    ensures Patched(code, PatchList(code, L, vt, reg, dt), L)
  {
  }

  /** Where a run goes that used to stop at a jump of the list. */
  function PatchedOut(X: Ctx, code: seq<Instr>, S: set<nat>, L: set<nat>, vt: int, reg: int, dt: int): Out {
    var o := EndOf(X, code, S);
    var B := PatchList(code, L, vt, reg, dt);
    if o.Exit? && o.jump in L then
      var t := Target(code, o.jump, vt, dt);
      if t < 0 then Stuck else Run(X.E, B, S - L, t, AfterJump(B, o.jump, o.regs))
    else o
  }

  lemma PatchRun(X: Ctx, code: seq<Instr>, S: set<nat>, L: set<nat>, vt: int, reg: int, dt: int)
    requires JumpSet(code, L) && L <= S
    requires forall p | p in L :: Target(code, p, vt, dt) > p
    ensures !EndOf(X, code, S).Stuck? ==>
      EndOf(X, PatchList(code, L, vt, reg, dt), S - L) == PatchedOut(X, code, S, L, vt, reg, dt)
  {
    PatchListIsPatched(code, L, vt, reg, dt);
    RunPatched(X.E, code, PatchList(code, L, vt, reg, dt), S, L, L, X.q, X.R0);
  }

  /** Registers when a patched jump lands: a value is moved to `reg` unless it is
      there already or is not wanted. */
  lemma AfterPatch(code: seq<Instr>, L: set<nat>, vt: int, reg: int, dt: int, p: nat, R: Regs)
    requires JumpSet(code, L) && p in L
    ensures AfterJump(PatchList(code, L, vt, reg, dt), p, R) ==
      if SetsValue(code, p) && reg != NO_REG && reg != code[p - 1].b then R[reg := Get(R, code[p - 1].b)] else R
  {
    assert p < |code| && code[p].Jmp?;
    if p >= 1 {
      assert PatchList(code, L, vt, reg, dt)[p - 1] == PatchAt(code, L, vt, reg, dt, p - 1);
    }
  }

  lemma DischargeSem(X: Ctx, fs: Fs, S: set<nat>)
    requires JumpSet(fs.code, S) && fs.jpc <= S
    requires Proper(Sem(X, fs, S), |fs.code|)
    ensures EndOf(X, Discharge(fs).code, S - fs.jpc) == Sem(X, fs, S)
    ensures Sem(X, Discharge(fs), S - fs.jpc) == Sem(X, fs, S)
  {
    var n := |fs.code|;
    PatchRun(X, fs.code, S, fs.jpc, n, NO_REG, n);
    var o := EndOf(X, fs.code, S);
    if o.Exit? && o.jump in fs.jpc {
      AfterPatch(fs.code, fs.jpc, n, NO_REG, n, o.jump, o.regs);
    }
  }

  /** Continuing a run that arrived at the end with the code appended there. */
  function Onward(X: Ctx, code: seq<Instr>, S: set<nat>, o: Out): Out {
    match o
    case At(n, R) => Run(X.E, code, S, n, R)
    case _ => o
  }

  lemma AppendOut(X: Ctx, code: seq<Instr>, tail: seq<Instr>, S: set<nat>, S': set<nat>)
    requires X.q <= |code| && Proper(EndOf(X, code, S), |code|)
    requires forall p :: p < |code| ==> (p in S <==> p in S')
    ensures EndOf(X, code + tail, S') == Onward(X, code + tail, S', EndOf(X, code, S))
  {
    RunAppend(X.E, code, code + tail, S, S', X.q, X.R0);
  }

  /** The jumps of `S` keep what controls them. */
  predicate SameControls(A: seq<Instr>, B: seq<Instr>, S: set<nat>) {
    forall p | p in S :: SameControl(A, B, p)
  }

  predicate SameControl(A: seq<Instr>, B: seq<Instr>, p: nat) {
    SetsValue(A, p) == SetsValue(B, p) && (SetsValue(A, p) ==> B[p - 1] == A[p - 1])
  }

  lemma SameControlsTrans(A: seq<Instr>, B: seq<Instr>, C: seq<Instr>, S: set<nat>)
    requires SameControls(A, B, S) && SameControls(B, C, S)
    ensures SameControls(A, C, S)
  {
    forall p | p in S ensures SameControl(A, C, p) { assert SameControl(A, B, p) && SameControl(B, C, p); }
  }

  /** What holds before code is emitted: the start is in the code, the pending
      jumps are jumps, and the run is proper. */
  predicate Ready(X: Ctx, fs: Fs, S: set<nat>) {
    X.q <= |fs.code| && JumpSet(fs.code, S) && fs.jpc <= S && Proper(Sem(X, fs, S), |fs.code|)
  }

  /** `luaK_code` with any instruction. */
  lemma CodeSem(X: Ctx, fs: Fs, i: Instr, S: set<nat>)
    requires Ready(X, fs, S)
    ensures EndOf(X, Code(fs, i).code, S - fs.jpc) == Onward(X, Code(fs, i).code, S - fs.jpc, Sem(X, fs, S))
    ensures Code(fs, i).code[|fs.code|] == i && |Code(fs, i).code| == |fs.code| + 1
  {
    DischargeSem(X, fs, S);
    AppendOut(X, Discharge(fs).code, [i], S - fs.jpc, S - fs.jpc);
  }

  function EmitOut(E: Env, i: Instr, o: Out): Out
    requires Plain(i)
  {
    match o
    case At(n, R) => At(n + 1, Effect(E, i, R))
    case _ => o
  }

  /** Running the last instruction. */
  lemma RunLast(E: Env, code: seq<Instr>, S: set<nat>, R: Regs)
    requires code != [] && Plain(code[|code| - 1])
    ensures Run(E, code, S, |code| - 1, R) == At(|code|, Effect(E, code[|code| - 1], R))
  {
    assert Step(E, code, S, |code| - 1, R) == Go(|code|, Effect(E, code[|code| - 1], R));
  }

  /** Running a test at the end, with its pending jump. */
  lemma RunTest(E: Env, code: seq<Instr>, S: set<nat>, R: Regs, n: nat)
    requires |code| == n + 2 && TMode(code[n]) && code[n + 1].Jmp? && n + 1 in S
    ensures Run(E, code, S, n, R) == if Pass(E, code[n], R) then Exit(n + 1, R) else At(n + 2, R)
  {
    assert Step(E, code, S, n, R) == if Pass(E, code[n], R) then Stop(Exit(n + 1, R)) else Go(n + 2, R);
  }

  lemma CodePlainSem(X: Ctx, fs: Fs, i: Instr, S: set<nat>)
    requires Ready(X, fs, S) && Plain(i)
    ensures Sem(X, Code(fs, i), S - fs.jpc) == EmitOut(X.E, i, Sem(X, fs, S))
    ensures Ready(X, Code(fs, i), S - fs.jpc)
    ensures SameControls(fs.code, Code(fs, i).code, S - fs.jpc)
  {
    CodeSem(X, fs, i, S);
    CodeJumps(fs, i, S);
    if Sem(X, fs, S).At? { RunLast(X.E, Code(fs, i).code, S - fs.jpc, Sem(X, fs, S).regs); }
  }

  /** Emitting an instruction leaves the pending jumps as they were. */
  lemma CodeJumps(fs: Fs, i: Instr, S: set<nat>)
    requires JumpSet(fs.code, S) && fs.jpc <= S
    ensures JumpSet(Code(fs, i).code, S - fs.jpc)
    ensures SameControls(fs.code, Code(fs, i).code, S - fs.jpc)
  {
    var n := |fs.code|;
    var d := Discharge(fs).code;
    forall p | p in S - fs.jpc
      ensures d[p] == fs.code[p]
      ensures p > 0 ==> d[p - 1] == fs.code[p - 1] || (fs.code[p - 1].Jmp? && d[p - 1].Jmp?)
    {
      assert d[p] == PatchAt(fs.code, fs.jpc, n, NO_REG, n, p);
      assert fs.code[p].Jmp?;
      if p > 0 { assert d[p - 1] == PatchAt(fs.code, fs.jpc, n, NO_REG, n, p - 1); }
    }
  }

  /** Arriving at the end of the code with one register changed. */
  function LoadOut(n: nat, reg: int, v: Value, o: Out): Out {
    match o
    case At(_, R) => At(n, R[reg := v])
    case _ => o
  }

  /** A constant into a register, however large its index. */
  lemma CodeKSem(X: Ctx, fs: Fs, reg: int, k: int, S: set<nat>)
    requires Ready(X, fs, S)
    ensures Sem(X, CodeK(fs, reg, k), S - fs.jpc) == LoadOut(|CodeK(fs, reg, k).code|, reg, Const(X.E, k), Sem(X, fs, S))
    ensures Ready(X, CodeK(fs, reg, k), S - fs.jpc)
    ensures SameControls(fs.code, CodeK(fs, reg, k).code, S - fs.jpc)
  {
    if k <= MAXARG_Bx {
      CodePlainSem(X, fs, LoadK(reg, k), S);
    } else {
      var d := Discharge(fs);
      var S' := S - fs.jpc;
      NoJpcCode(Code(fs, LoadKX(reg)), ExtraArg(k));
      assert CodeK(fs, reg, k).code == d.code + [LoadKX(reg), ExtraArg(k)];
      DischargeSem(X, fs, S);
      AppendOut(X, d.code, [LoadKX(reg), ExtraArg(k)], S', S');
      CodeJumps(fs, LoadKX(reg), S);
      if Sem(X, fs, S).At? {
        var g := CodeK(fs, reg, k).code;
        var R := Sem(X, fs, S).regs;
        assert g[|fs.code|] == LoadKX(reg) && g[|fs.code| + 1] == ExtraArg(k);
        assert Step(X.E, g, S', |fs.code|, R) == Go(|g|, R[reg := Const(X.E, k)]);
        assert Run(X.E, g, S', |fs.code|, R) == At(|g|, R[reg := Const(X.E, k)]);
        assert EndOf(X, g, S') == At(|g|, R[reg := Const(X.E, k)]);
        assert CodeK(fs, reg, k).jpc == {};
      }
    }
  }

  /** With nothing waiting, an instruction is just appended. */
  lemma NoJpcCode(fs: Fs, i: Instr)
    requires fs.jpc == {}
    ensures Code(fs, i).code == fs.code + [i] && Code(fs, i).ok == fs.ok
  {
    assert PatchList(fs.code, {}, |fs.code|, NO_REG, |fs.code|) == fs.code;
  }

  /** Leaving through the jump after a test, or skipping it. */
  function TestOut(E: Env, i: Instr, o: Out): Out
    requires TMode(i)
  {
    match o
    case At(n, R) => if Pass(E, i, R) then Exit(n + 1, R) else At(n + 2, R)
    case _ => o
  }

  /** A test and the jump it controls. */
  lemma CondJumpSem(X: Ctx, fs: Fs, i: Instr, S: set<nat>)
    requires Ready(X, fs, S) && TMode(i)
    ensures var g := CondJump(fs, i).0;
      && CondJump(fs, i).1 == {|fs.code| + 1}
      && g.jpc == {} && g.code == Discharge(fs).code + [i, Jmp(0, NO_JUMP)]
      && Sem(X, g, S - fs.jpc + {|fs.code| + 1}) == TestOut(X.E, i, Sem(X, fs, S))
      && Ready(X, g, S - fs.jpc + {|fs.code| + 1})
      && SameControls(fs.code, g.code, S - fs.jpc)
  {
    var d := Discharge(fs);
    var S' := S - fs.jpc;
    var n := |fs.code|;
    NoJpcCode(Code(fs, i), Jmp(0, NO_JUMP));
    assert CondJump(fs, i).0.code == d.code + [i, Jmp(0, NO_JUMP)];
    DischargeSem(X, fs, S);
    AppendOut(X, d.code, [i, Jmp(0, NO_JUMP)], S', S' + {n + 1});
    CodeJumps(fs, i, S);
    if Sem(X, fs, S).At? {
      RunTest(X.E, d.code + [i, Jmp(0, NO_JUMP)], S' + {n + 1}, Sem(X, fs, S).regs, n);
    }
  }
}
