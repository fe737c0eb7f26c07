/** `exp2reg`: every exit of an expression is brought to the end of its code,
  with the value in one register. */
module CodeGenClose {
  import opened LuaVm
  import opened CodeGenModel
  import opened CodeGenSim
  import opened CodeGenNil
  import opened CodeGenSpec
  import opened CodeGenValue

  // ---- patching one exit list to the end ----

  /** Position `d` loads the boolean `b` into `reg` and leads to the end. */
  predicate Pad(code: seq<Instr>, d: int, reg: int, b: bool) {
    0 <= d < |code| && code[d].LoadBool? && code[d].a == reg && (code[d].b != 0) == b
    && d + (if code[d].c == 0 then 1 else 2) == |code|
  }

  /** Exits of `L` may land: those without a value have a pad to land on. */
  predicate CanLand(code: seq<Instr>, L: set<nat>, d: int, reg: int, b: bool) {
    NeedValue(code, L) ==> Pad(code, d, reg, b) && forall p | p in L :: p < d
  }

  lemma RunPad(E: Env, code: seq<Instr>, S: set<nat>, d: nat, reg: int, b: bool, R: Regs)
    requires Pad(code, d, reg, b)
    ensures Run(E, code, S, d, R) == At(|code|, R[reg := Bool(b)])
  {
    assert Step(E, code, S, d, R) == Go(|code|, R[reg := Bool(b)]);
  }

  /** Registers after an exit of the list has landed at the end. */
  function Landed(code: seq<Instr>, p: nat, reg: int, b: bool, R: Regs): Regs {
    if !SetsValue(code, p) then R[reg := Bool(b)]
    else if reg != code[p - 1].b then R[reg := Get(R, code[p - 1].b)]
    else R
  }

  lemma FixSem(X: Ctx, fs: Fs, S: set<nat>, L: set<nat>, reg: int, d: int, b: bool)
    requires JumpSet(fs.code, S) && L <= S && fs.jpc <= S && fs.jpc !! L && reg != NO_REG
    requires Proper(Sem(X, fs, S), |fs.code|)
    requires CanLand(fs.code, L, d, reg, b)
    ensures var g := FixList(fs, L, |fs.code|, reg, d); var s := Sem(X, fs, S);
      Sem(X, g, S - L) == if s.Exit? && s.jump in L then At(|fs.code|, Landed(fs.code, s.jump, reg, b, s.regs)) else s
  {
    var n := |fs.code|;
    PatchRun(X, fs.code, S, L, n, reg, d);
    var o := EndOf(X, fs.code, S);
    if o.Exit? && o.jump in L {
      AfterPatch(fs.code, L, n, reg, d, o.jump, o.regs);
      if !SetsValue(fs.code, o.jump) {
        var B := PatchList(fs.code, L, n, reg, d);
        assert B[d] == PatchAt(fs.code, L, n, reg, d, d);
        assert d !in L;
        RunPad(X.E, B, S - L, d, reg, b, o.regs);
      }
    }
  }

  lemma FixFrame(fs: Fs, S: set<nat>, L: set<nat>, reg: int, d: int, b: bool, q: nat)
    requires JumpSet(fs.code, S) && L <= S && reg != NO_REG && CanLand(fs.code, L, d, reg, b)
    requires Tidy(fs, S, q) && fs.lasttarget == |fs.code|
    ensures var g := FixList(fs, L, |fs.code|, reg, d);
      && JumpSet(g.code, S - L) && SameControls(fs.code, g.code, S - L)
      && Tidy(g, S - L, q) && |g.code| == |fs.code|
      && (forall e, c: bool :: Pad(fs.code, e, reg, c) ==> Pad(g.code, e, reg, c))
  {
    var n := |fs.code|;
    var g := FixList(fs, L, n, reg, d).code;
    forall i | 0 <= i < n ensures g[i] == PatchAt(fs.code, L, n, reg, d, i) {}
    forall p | p in S - L ensures g[p].Jmp? && SameControl(fs.code, g, p) {
      assert fs.code[p].Jmp? && g[p] == fs.code[p];
      if p > 0 { assert p - 1 in L ==> fs.code[p - 1].Jmp?; }
    }
    forall i | q <= i < n ensures TidyAt(g, n, S - L, i) {
      FixTidyAt(fs.code, g, S, L, reg, d, b, i);
    }
    forall e, c: bool | Pad(fs.code, e, reg, c) ensures Pad(g, e, reg, c) {
      assert e !in L && g[e] == PatchAt(fs.code, L, n, reg, d, e);
    }
  }

  lemma FixTidyAt(code: seq<Instr>, g: seq<Instr>, S: set<nat>, L: set<nat>, reg: int, d: int, b: bool, i: nat)
    requires JumpSet(code, S) && L <= S && CanLand(code, L, d, reg, b)
    requires |g| == |code| && forall j | 0 <= j < |code| :: g[j] == PatchAt(code, L, |code|, reg, d, j)
    requires i < |code| && TidyAt(code, |code|, S, i)
    ensures TidyAt(g, |code|, S - L, i)
  {
    if i in L {
      assert code[i].Jmp? && g[i].Jmp?;
    } else if i + 1 < |code| {
      assert i + 1 in L ==> code[i + 1].Jmp?;
    }
  }

  /** Landing one list: the promise now holds without it. */
  lemma FixFalse(X: Ctx, o: Out, fs: Fs, ext: set<nat>, t: set<nat>, f: set<nat>, reg: int, d: int, lo: int, x: int, v: Value)
    requires var e := Exp(VNonReloc(reg), t, f);
      WfExp(fs, ext, e, X.q) && Spec(X, o, fs, ext, e, lo, x, v)
    requires reg >= lo || reg == x
    requires fs.lasttarget == |fs.code| && CanLand(fs.code, f, d, reg, false)
    ensures var e := Exp(VNonReloc(reg), t, {}); var g := FixList(fs, f, |fs.code|, reg, d);
      WfExp(g, ext, e, X.q) && Spec(X, o, g, ext, e, lo, x, v)
    ensures SameControls(fs.code, FixList(fs, f, |fs.code|, reg, d).code, ext)
  {
    var e := Exp(VNonReloc(reg), t, f);
    var e' := Exp(VNonReloc(reg), t, {});
    var g := FixList(fs, f, |fs.code|, reg, d);
    var S := Pending(fs, ext, e);
    WholeTrunc(fs, e);
    WholeTrunc(g, e');
    assert S - f == Pending(g, ext, e');
    assert e'.t + e'.f <= e.t + e.f;
    FixSem(X, fs, S, f, reg, d, false);
    FixFrame(fs, S, f, reg, d, false, X.q);
    LandedSpec(X, o, fs, ext, e, g, e', f, reg, false, lo, x, v);
  }

  lemma FixTrue(X: Ctx, o: Out, fs: Fs, ext: set<nat>, t: set<nat>, reg: int, d: int, lo: int, x: int, v: Value)
    requires var e := Exp(VNonReloc(reg), t, {});
      WfExp(fs, ext, e, X.q) && Spec(X, o, fs, ext, e, lo, x, v)
    requires reg >= lo || reg == x
    requires fs.lasttarget == |fs.code| && CanLand(fs.code, t, d, reg, true)
    ensures var e := Exp(VNonReloc(reg), {}, {}); var g := FixList(fs, t, |fs.code|, reg, d);
      WfExp(g, ext, e, X.q) && Spec(X, o, g, ext, e, lo, x, v)
    ensures SameControls(fs.code, FixList(fs, t, |fs.code|, reg, d).code, ext)
  {
    var e := Exp(VNonReloc(reg), t, {});
    var e' := Exp(VNonReloc(reg), {}, {});
    var g := FixList(fs, t, |fs.code|, reg, d);
    var S := Pending(fs, ext, e);
    WholeTrunc(fs, e);
    WholeTrunc(g, e');
    assert S - t == Pending(g, ext, e');
    FixSem(X, fs, S, t, reg, d, true);
    FixFrame(fs, S, t, reg, d, true, X.q);
    LandedSpec(X, o, fs, ext, e, g, e', t, reg, true, lo, x, v);
  }

  lemma LandedSpec(X: Ctx, o: Out, fs: Fs, ext: set<nat>, e: Exp, g: Fs, e': Exp, L: set<nat>, reg: int, b: bool, lo: int, x: int, v: Value)
    requires WfExp(fs, ext, e, X.q) && Spec(X, o, fs, ext, e, lo, x, v) && e.k == e'.k == VNonReloc(reg)
    requires Trunc(fs, e) == fs && Trunc(g, e') == g && |g.code| == |fs.code|
    requires L == (if b then e.t else e.f)
    requires if b then e' == e.(t := {}) && e.f == {} else e' == e.(f := {})
    requires reg >= lo || reg == x
    requires var s := Sem(X, fs, Pending(fs, ext, e));
      Sem(X, g, Pending(g, ext, e')) ==
        if s.Exit? && s.jump in L then At(|fs.code|, Landed(fs.code, s.jump, reg, b, s.regs)) else s
    requires SameControls(fs.code, g.code, e'.t + e'.f)
    ensures Spec(X, o, g, ext, e', lo, x, v)
  {
    var s := Sem(X, fs, Pending(fs, ext, e));
    if o.At? && s.Exit? && s.jump !in L {
      assert SameControl(fs.code, g.code, s.jump);
    }
  }

  // ---- the booleans of exits without a value ----

  function Pads(reg: int): seq<Instr> {
    [LoadBool(reg, 0, 1), LoadBool(reg, 1, 0)]
  }

  lemma StageJump(fs: Fs, reg: int)
    ensures var g := Stage(fs, false, reg); var n := |fs.code|;
      g == fs.(code := fs.code + ([Jmp(0, NO_JUMP)] + Pads(reg)), jpc := fs.jpc + {n}, lasttarget := n + 3)
  {
    var fs0 := fs.(jpc := {});
    NoJpcCode(fs0, Jmp(0, NO_JUMP));
    var fs1 := Jump(fs).0;
    InReachEmpty(fs0);
    NoJpcCode(GetLabel(fs1), LoadBool(reg, 0, 1));
    var fs2 := CodeLabel(fs1, reg, 0, 1);
    NoJpcCode(GetLabel(fs2), LoadBool(reg, 1, 0));
  }

  lemma StageComparison(fs: Fs, reg: int)
    requires fs.jpc == {}
    ensures var g := Stage(fs, true, reg);
      g == fs.(code := fs.code + Pads(reg), lasttarget := |fs.code| + 2)
  {
    NoJpcCode(GetLabel(fs), LoadBool(reg, 0, 1));
    var fs2 := CodeLabel(fs, reg, 0, 1);
    NoJpcCode(GetLabel(fs2), LoadBool(reg, 1, 0));
  }

  lemma InReachEmpty(fs: Fs)
    requires fs.jpc == {}
    ensures Discharge(fs).ok == fs.ok
  {
  }

  /** Arriving runs take the new jump, which waits for the end of the pads. */
  lemma StageJumpSem(X: Ctx, fs: Fs, ext: set<nat>, e: Exp, reg: int)
    requires WfExp(fs, ext, e, X.q) && e.k == VNonReloc(reg) && HasJumps(e)
    requires Ready(X, fs, Pending(fs, ext, e))
    ensures var g := Stage(fs, false, reg); var s := Sem(X, fs, Pending(fs, ext, e));
      Sem(X, g, Pending(g, ext, e)) == match s case At(_, R) => At(|g.code|, R) case _ => s
  {
    hide WfExp, Stage;
    var P := Pending(fs, ext, e);
    var g := Stage(fs, false, reg);
    StageJump(fs, reg);
    assert Pending(g, ext, e) == P + {|fs.code|};
    EndIsNoTest(fs, ext, e, X.q);
    ExitIsPending(X.E, fs.code, P, X.q, X.R0);
    JumpOver(X, fs.code, P, [Jmp(0, NO_JUMP)] + Pads(reg));
  }

  lemma EndIsNoTest(fs: Fs, ext: set<nat>, e: Exp, q: nat)
    requires WfExp(fs, ext, e, q) && e.k.VNonReloc? && HasJumps(e)
    ensures 0 < |fs.code| && !TMode(fs.code[|fs.code| - 1])
  {
    WholeTrunc(fs, e);
    var p :| p in e.t + e.f;
    assert p in Pending(fs, ext, e);
    assert q <= p < |fs.code|;
    assert TidyAt(fs.code, fs.lasttarget, AllPending(fs, ext, e), |fs.code| - 1);
  }

  /** A pending jump appended to the code is an exit for every arriving run. */
  lemma JumpOver(X: Ctx, code: seq<Instr>, P: set<nat>, tail: seq<Instr>)
    requires X.q <= |code| && Proper(EndOf(X, code, P), |code|)
    requires 0 < |code| && !TMode(code[|code| - 1])
    requires tail != [] && tail[0].Jmp?
    ensures EndOf(X, code + tail, P + {|code|}) ==
      match EndOf(X, code, P) case At(_, R) => Exit(|code|, R) case o => o
  {
    var n := |code|;
    AppendOut(X, code, tail, P, P + {n});
    var o := EndOf(X, code, P);
    if o.At? {
      assert (code + tail)[n] == tail[0] && (code + tail)[n - 1] == code[n - 1];
      assert Step(X.E, code + tail, P + {n}, n, o.regs) == Stop(Exit(n, o.regs));
    }
  }

  lemma StageJumpFrame(fs: Fs, ext: set<nat>, e: Exp, reg: int, q: nat)
    requires WfExp(fs, ext, e, q) && e.k == VNonReloc(reg)
    ensures var g := Stage(fs, false, reg);
      WfExp(g, ext, e, q) && SameControls(fs.code, g.code, ext + e.t + e.f)
  {
    var n := |fs.code|;
    var P := Pending(fs, ext, e);
    var g := Stage(fs, false, reg);
    StageJump(fs, reg);
    WholeTrunc(fs, e);
    WholeTrunc(g, e);
    var Q := P + {n};
    assert Pending(g, ext, e) == Q;
    assert n !in P;
    forall i | q <= i < |g.code| ensures TidyAt(g.code, g.lasttarget, Q, i) {
      if i < n { TidyAppend(fs.code, [Jmp(0, NO_JUMP)] + Pads(reg), fs.lasttarget, n + 3, P, Q, i); }
    }
  }

  lemma StageJumpOk(X: Ctx, o: Out, fs: Fs, ext: set<nat>, e: Exp, reg: int, lo: int, x: int, v: Value)
    requires WfExp(fs, ext, e, X.q) && e.k == VNonReloc(reg) && HasJumps(e)
    requires Spec(X, o, fs, ext, e, lo, x, v)
    ensures var g := Stage(fs, false, reg);
      WfExp(g, ext, e, X.q) && Spec(X, o, g, ext, e, lo, x, v)
    ensures SameControls(fs.code, Stage(fs, false, reg).code, ext)
  {
    var g := Stage(fs, false, reg);
    WholeTrunc(fs, e);
    WholeTrunc(g, e);
    StageJumpSem(X, fs, ext, e, reg);
    StageJumpFrame(fs, ext, e, reg, X.q);
    var s := Sem(X, fs, Pending(fs, ext, e));
    if o.At? && s.Exit? { assert SameControl(fs.code, g.code, s.jump); }
  }

  /** A comparison whose jump joins the true list and which falls through to the
      load of `false`. */
  function Compared(e: Exp, reg: int): Exp
    requires e.k.VJmp? && e.k.pc >= 0
  {
    Exp(VNonReloc(reg), e.t + {e.k.pc}, e.f)
  }

  lemma StageComparisonSem(X: Ctx, fs: Fs, ext: set<nat>, e: Exp, reg: int)
    requires WfExp(fs, ext, e, X.q) && e.k.VJmp? && Ready(X, Trunc(fs, e), Pending(fs, ext, e))
    ensures var g := Stage(fs, true, reg); var s := Sem(X, Trunc(fs, e), Pending(fs, ext, e)); var n := |fs.code|;
      Sem(X, g, Pending(g, ext, Compared(e, reg))) ==
        match s
        case At(_, R) => if Pass(X.E, fs.code[n - 2], R) then Exit(n - 1, R) else At(n + 2, R[reg := Bool(false)])
        case _ => s
  {
    var n := |fs.code|;
    var P := Pending(fs, ext, e);
    var g := Stage(fs, true, reg);
    StageComparison(fs, reg);
    var A := fs.code[..n - 2];
    var tail := fs.code[n - 2..] + Pads(reg);
    assert g.code == A + tail;
    assert Pending(g, ext, Compared(e, reg)) == P + {n - 1};
    AppendOut(X, A, tail, P, P + {n - 1});
    var o := EndOf(X, A, P);
    if o.At? {
      var R := o.regs;
      if Pass(X.E, fs.code[n - 2], R) {
        assert Step(X.E, g.code, P + {n - 1}, n - 2, R) == Stop(Exit(n - 1, R));
      } else {
        assert Step(X.E, g.code, P + {n - 1}, n - 2, R) == Go(n, R);
        RunPad(X.E, g.code, P + {n - 1}, n, reg, false, R);
      }
    }
  }

  lemma StageComparisonFrame(fs: Fs, ext: set<nat>, e: Exp, reg: int, q: nat)
    requires WfExp(fs, ext, e, q) && e.k.VJmp? && 0 <= reg < MAXREGS
    ensures var g := Stage(fs, true, reg);
      WfExp(g, ext, Compared(e, reg), q) && SameControls(fs.code, g.code, ext + e.t + e.f)
  {
    var n := |fs.code|;
    var P := Pending(fs, ext, e);
    var g := Stage(fs, true, reg);
    var d := Compared(e, reg);
    StageComparison(fs, reg);
    WholeTrunc(g, d);
    var Q := P + {n - 1};
    assert Pending(g, ext, d) == Q;
    forall p | p in P ensures p < n - 2 && g.code[p].Jmp? { assert fs.code[..n - 2][p].Jmp?; }
    assert d.t !! d.f;
    assert d.t + d.f == e.t + e.f + {n - 1};
    forall i | q <= i < |g.code| ensures TidyAt(g.code, g.lasttarget, Q, i) {
      if i < n { TidyAppend(fs.code, Pads(reg), fs.lasttarget, n + 2, Q, Q, i); }
    }
  }

  lemma StageComparisonOk(X: Ctx, o: Out, fs: Fs, ext: set<nat>, e: Exp, reg: int, lo: int, x: int, v: Value)
    requires WfExp(fs, ext, e, X.q) && e.k.VJmp? && 0 <= reg < MAXREGS && (reg >= lo || reg == x)
    requires Spec(X, o, fs, ext, e, lo, x, v)
    ensures var g := Stage(fs, true, reg);
      WfExp(g, ext, Compared(e, reg), X.q) && Spec(X, o, g, ext, Compared(e, reg), lo, x, v)
    ensures SameControls(fs.code, Stage(fs, true, reg).code, ext)
  {
    var g := Stage(fs, true, reg);
    StageComparison(fs, reg);
    WholeTrunc(g, Compared(e, reg));
    StageComparisonSem(X, fs, ext, e, reg);
    StageComparisonFrame(fs, ext, e, reg, X.q);
    var s := Sem(X, Trunc(fs, e), Pending(fs, ext, e));
    if o.At? && s.Exit? { assert SameControl(fs.code, g.code, s.jump); }
  }

  // ---- exp2reg ----

  lemma LabelOk(X: Ctx, o: Out, fs: Fs, ext: set<nat>, e: Exp, lo: int, x: int, v: Value)
    requires WfExp(fs, ext, e, X.q) && Spec(X, o, fs, ext, e, lo, x, v) && e.k.VNonReloc?
    ensures WfExp(GetLabel(fs), ext, e, X.q) && Spec(X, o, GetLabel(fs), ext, e, lo, x, v)
  {
    var g := GetLabel(fs);
    WholeTrunc(fs, e);
    WholeTrunc(g, e);
    forall i | X.q <= i < |g.code| ensures TidyAt(g.code, g.lasttarget, Pending(fs, ext, e), i) {
      assert TidyAt(fs.code, fs.lasttarget, Pending(fs, ext, e), i);
    }
  }

  lemma BothLists(X: Ctx, o: Out, fs: Fs, ext: set<nat>, e: Exp, reg: int, pf: int, pt: int, lo: int, x: int, v: Value)
    requires WfExp(fs, ext, e, X.q) && Spec(X, o, fs, ext, e, lo, x, v) && e.k == VNonReloc(reg)
    requires reg >= lo || reg == x
    requires fs.lasttarget == |fs.code|
    requires CanLand(fs.code, e.f, pf, reg, false)
    requires CanLand(FixList(fs, e.f, |fs.code|, reg, pf).code, e.t, pt, reg, true)
    ensures var g := FixBoth(fs, e, reg, pf, pt); var r := Exp(VNonReloc(reg), {}, {});
      WfExp(g, ext, r, X.q) && Spec(X, o, g, ext, r, lo, x, v)
    ensures SameControls(fs.code, FixBoth(fs, e, reg, pf, pt).code, ext)
  {
    FixFalse(X, o, fs, ext, e.t, e.f, reg, pf, lo, x, v);
    var g := FixList(fs, e.f, |fs.code|, reg, pf);
    FixTrue(X, o, g, ext, e.t, reg, pt, lo, x, v);
    SameControlsTrans(fs.code, g.code, FixBoth(fs, e, reg, pf, pt).code, ext);
  }

  /** After the pads are in place both lists can land. */
  lemma PadsLand(fs: Fs, ext: set<nat>, e: Exp, reg: int, q: nat)
    requires WfExp(fs, ext, e, q) && e.k == VNonReloc(reg)
    requires fs.lasttarget == |fs.code| >= 2
    requires fs.code[|fs.code| - 2..] == Pads(reg)
    ensures var d := |fs.code| - 2;
      && CanLand(fs.code, e.f, d, reg, false)
      && CanLand(FixList(fs, e.f, |fs.code|, reg, d).code, e.t, d + 1, reg, true)
  {
    var d := |fs.code| - 2;
    WholeTrunc(fs, e);
    assert fs.code[d] == Pads(reg)[0] && fs.code[d + 1] == Pads(reg)[1];
    forall p | p in e.t + e.f ensures p < d {
      assert p in Pending(fs, ext, e);
      assert fs.code[p].Jmp?;
    }
    FixFrame(fs, Pending(fs, ext, e), e.f, reg, d, false, q);
    assert Pad(fs.code, d + 1, reg, true);
  }

  /** Lists in which every jump carries a value need no pad. */
  lemma ValuesLand(fs: Fs, ext: set<nat>, e: Exp, reg: int, q: nat)
    requires WfExp(fs, ext, e, q) && e.k == VNonReloc(reg)
    requires fs.lasttarget == |fs.code|
    requires !NeedValue(fs.code, e.t) && !NeedValue(fs.code, e.f)
    ensures CanLand(fs.code, e.f, NO_JUMP, reg, false)
    ensures CanLand(FixList(fs, e.f, |fs.code|, reg, NO_JUMP).code, e.t, NO_JUMP, reg, true)
  {
    WholeTrunc(fs, e);
    FixFrame(fs, Pending(fs, ext, e), e.f, reg, NO_JUMP, false, q);
    var g := FixList(fs, e.f, |fs.code|, reg, NO_JUMP).code;
    forall p | p in e.t ensures SetsValue(g, p) {
      assert p in Pending(fs, ext, e) - e.f;
      assert SameControl(fs.code, g, p);
    }
  }

  lemma PadsOk(X: Ctx, o: Out, fs: Fs, ext: set<nat>, e: Exp, reg: int, lo: int, x: int, v: Value)
    requires WfExp(fs, ext, e, X.q) && Spec(X, o, fs, ext, e, lo, x, v) && e.k == VNonReloc(reg)
    requires reg >= lo || reg == x
    requires fs.lasttarget == |fs.code| >= 2 && fs.code[|fs.code| - 2..] == Pads(reg)
    ensures var g := FixBoth(fs, e, reg, |fs.code| - 2, |fs.code| - 1); var r := Exp(VNonReloc(reg), {}, {});
      WfExp(g, ext, r, X.q) && Spec(X, o, g, ext, r, lo, x, v)
    ensures SameControls(fs.code, FixBoth(fs, e, reg, |fs.code| - 2, |fs.code| - 1).code, ext)
  {
    hide Spec, WfExp;
    PadsLand(fs, ext, e, reg, X.q);
    BothLists(X, o, fs, ext, e, reg, |fs.code| - 2, |fs.code| - 1, lo, x, v);
  }

  lemma CloseValueOk(X: Ctx, o: Out, fs: Fs, ext: set<nat>, e: Exp, reg: int, lo: int, x: int, v: Value)
    requires WfExp(fs, ext, e, X.q) && Spec(X, o, fs, ext, e, lo, x, v) && e.k == VNonReloc(reg)
    requires HasJumps(e) && (reg >= lo || reg == x)
    ensures var g := CloseLists(fs, e, reg); var r := Exp(VNonReloc(reg), {}, {});
      WfExp(g, ext, r, X.q) && Spec(X, o, g, ext, r, lo, x, v)
    ensures SameControls(fs.code, CloseLists(fs, e, reg).code, ext)
  {
    hide Spec, WfExp, Stage, FixBoth;
    if NeedValue(fs.code, e.t) || NeedValue(fs.code, e.f) {
      var fs4 := Stage(fs, false, reg);
      StageJump(fs, reg);
      StageJumpOk(X, o, fs, ext, e, reg, lo, x, v);
      assert fs4.code[|fs4.code| - 2..] == Pads(reg);
      PadsOk(X, o, fs4, ext, e, reg, lo, x, v);
      SameControlsTrans(fs.code, fs4.code, CloseLists(fs, e, reg).code, ext);
    } else {
      LabelOk(X, o, fs, ext, e, lo, x, v);
      ValuesLand(GetLabel(fs), ext, e, reg, X.q);
      BothLists(X, o, GetLabel(fs), ext, e, reg, NO_JUMP, NO_JUMP, lo, x, v);
    }
  }

  lemma ComparisonJump(fs: Fs, ext: set<nat>, e: Exp, q: nat)
    requires WfExp(fs, ext, e, q) && e.k.VJmp?
    ensures |fs.code| >= 2 && e.k.pc == |fs.code| - 1 && fs.code[e.k.pc].Jmp? && !SetsValue(fs.code, e.k.pc)
    ensures KindOk(fs, e) && fs.jpc == {}
  {
    hide JumpSet, Tidy;
  }

  /** A comparison always needs the booleans. */
  lemma CloseJumpOk(X: Ctx, o: Out, fs: Fs, ext: set<nat>, e: Exp, reg: int, lo: int, x: int, v: Value)
    requires WfExp(fs, ext, e, X.q) && Spec(X, o, fs, ext, e, lo, x, v) && e.k.VJmp?
    requires 0 <= reg < MAXREGS && (reg >= lo || reg == x)
    ensures var g := CloseLists(fs, e.(t := e.t + {e.k.pc}), reg); var r := Exp(VNonReloc(reg), {}, {});
      WfExp(g, ext, r, X.q) && Spec(X, o, g, ext, r, lo, x, v)
    ensures SameControls(fs.code, CloseLists(fs, e.(t := e.t + {e.k.pc}), reg).code, ext)
  {
    hide Spec, WfExp, Stage, SameControls;
    ComparisonJump(fs, ext, e, X.q);
    var e2 := e.(t := e.t + {e.k.pc});
    var fs4 := Stage(fs, true, reg);
    assert e.k.pc in e2.t && NeedValue(fs.code, e2.t);
    StageComparison(fs, reg);
    StageComparisonOk(X, o, fs, ext, e, reg, lo, x, v);
    assert fs4.code[|fs4.code| - 2..] == Pads(reg);
    PadsOk(X, o, fs4, ext, Compared(e, reg), reg, lo, x, v);
    SameControlsTrans(fs.code, fs4.code, CloseLists(fs, e2, reg).code, ext);
  }

  /** `exp2reg`: the value of the expression ends up in `reg` on every path,
      and nothing else below `lo` changes. */
  lemma Exp2RegOk(X: Ctx, o: Out, fs: Fs, ext: set<nat>, e: Exp, reg: int, lo: int, x: int, v: Value)
    requires WfExp(fs, ext, e, X.q) && Spec(X, o, fs, ext, e, lo, x, v)
    requires 0 <= reg < MAXREGS && (reg >= lo || reg == x)
    requires Exp2Reg(fs, e, reg).0.k <= X.E.k
    ensures var (g, r) := Exp2Reg(fs, e, reg);
      && r == Exp(VNonReloc(reg), {}, {})
      && WfExp(g, ext, r, X.q) && Spec(X, o, g, ext, r, lo, x, v)
    ensures SameControls(fs.code, Exp2Reg(fs, e, reg).0.code, ext)
  {
    hide CloseLists, FixList, Discharge, Spec;
    if e.k.VJmp? {
      CloseJumpOk(X, o, fs, ext, e, reg, lo, x, v);
    } else {
      CloseKeepsK(Discharge2Reg(fs, e, reg).0, Discharge2Reg(fs, e, reg).1, reg);
      Discharge2RegOk(X, o, fs, ext, e, reg, lo, x, v);
      hide Spec, WfExp, Discharge2Reg, CloseLists;
      var (g, d) := Discharge2Reg(fs, e, reg);
      if HasJumps(d) {
        CloseValueOk(X, o, g, ext, d, reg, lo, x, v);
        SameControlsTrans(fs.code, g.code, CloseLists(g, d, reg).code, ext);
      }
    }
  }

  lemma CloseKeepsK(fs: Fs, e: Exp, reg: int)
    ensures CloseLists(fs, e, reg).k == fs.k
  {
  }
}
