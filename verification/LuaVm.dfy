/** The instructions that expressions compile to, and their execution by the
  main loop of `lvm.c`. Jumps whose destination is still open ("pending") are
  exits of the execution. */
module LuaVm {

  datatype Value = Nil | Bool(b: bool) | Int(i: int) | Flt(r: real) | Str(s: string)

  /** Operands are kept as numbers; an RK operand of 256 or more names a
      constant. `Other` stands for every instruction expressions do not emit. */
  datatype Instr =
    | Move(a: int, b: int)
    | LoadK(a: int, bx: int)
    | LoadKX(a: int)
    | ExtraArg(ax: int)
    | LoadBool(a: int, b: int, c: int)
    | LoadNil(a: int, b: int)
    | Not(a: int, b: int)
    | Jmp(a: int, sbx: int)
    | Eq(a: int, b: int, c: int)
    | Lt(a: int, b: int, c: int)
    | Le(a: int, b: int, c: int)
    | Test(a: int, c: int)
    | TestSet(a: int, b: int, c: int)
    | Other(op: int)

  const BITRK := 256
  const NO_REG := 255
  const MAXARG_Bx := 262143
  const MAXARG_sBx := 131071

  /** Constants of the function, and the three comparisons of the language. */
  datatype Env = Env(
    k: seq<Value>,
    eq: (Value, Value) -> bool,
    lt: (Value, Value) -> bool,
    le: (Value, Value) -> bool)

  type Regs = map<int, Value>

  datatype Out = At(pc: nat, regs: Regs) | Exit(jump: nat, regs: Regs) | Stuck

  predicate Truthy(v: Value) {
    v != Nil && v != Bool(false)
  }

  function Get(R: Regs, i: int): Value {
    if i in R then R[i] else Nil
  }

  function Const(E: Env, i: int): Value {
    if 0 <= i < |E.k| then E.k[i] else Nil
  }

  function RK(E: Env, R: Regs, x: int): Value {
    if x >= BITRK then Const(E, x - BITRK) else Get(R, x)
  }

  /** Opcodes that are a test: the next instruction must be a jump. */
  predicate TMode(i: Instr) {
    i.Eq? || i.Lt? || i.Le? || i.Test? || i.TestSet?
  }

  predicate Comparison(i: Instr) {
    i.Eq? || i.Lt? || i.Le?
  }

  /** Whether a test takes the jump that follows it. */
  predicate Pass(E: Env, i: Instr, R: Regs)
    requires TMode(i)
  {
    match i
    case Eq(a, b, c) => E.eq(RK(E, R, b), RK(E, R, c)) == (a != 0)
    case Lt(a, b, c) => E.lt(RK(E, R, b), RK(E, R, c)) == (a != 0)
    case Le(a, b, c) => E.le(RK(E, R, b), RK(E, R, c)) == (a != 0)
    case Test(a, c) => Truthy(Get(R, a)) == (c != 0)
    case TestSet(a, b, c) => Truthy(Get(R, b)) == (c != 0)
  }

  function SetNil(R: Regs, a: int, n: nat): Regs
    decreases n
  {
    if n == 0 then R else SetNil(R[a := Nil], a + 1, n - 1)
  }

  /** Instructions that only write registers and go on with the next one. */
  predicate Plain(i: Instr) {
    i.Move? || i.LoadK? || (i.LoadBool? && i.c == 0) || (i.LoadNil? && i.b >= 0) || i.Not?
  }

  function Effect(E: Env, i: Instr, R: Regs): Regs
    requires Plain(i)
  {
    match i
    case Move(a, b) => R[a := Get(R, b)]
    case LoadK(a, bx) => R[a := Const(E, bx)]
    case LoadBool(a, b, c) => R[a := Bool(b != 0)]
    case LoadNil(a, b) => SetNil(R, a, b + 1)
    case Not(a, b) => R[a := Bool(!Truthy(Get(R, b)))]
  }

  predicate Controlled(code: seq<Instr>, p: nat) {
    1 <= p <= |code| && TMode(code[p - 1])
  }

  predicate SetsValue(code: seq<Instr>, p: nat) {
    1 <= p <= |code| && code[p - 1].TestSet?
  }

  /** What a passing test writes before it jumps. */
  function TestWrites(i: Instr, R: Regs): Regs {
    if i.TestSet? then R[i.a := Get(R, i.b)] else R
  }

  datatype Next = Go(pc: int, regs: Regs) | Stop(out: Out)

  /** One instruction. A test executes the jump after it; a jump that belongs to
      a test is never fetched by itself; a jump in `pending` is an exit. */
  function Step(E: Env, code: seq<Instr>, pending: set<nat>, pc: nat, R: Regs): Next
    requires pc < |code|
  {
    var i := code[pc];
    if Plain(i) then Go(pc + 1, Effect(E, i, R))
    else if i.LoadBool? then Go(pc + 2, R[i.a := Bool(i.b != 0)])
    else if i.LoadKX? then
      if pc + 1 < |code| && code[pc + 1].ExtraArg? then Go(pc + 2, R[i.a := Const(E, code[pc + 1].ax)]) else Stop(Stuck)
    else if TMode(i) then
      if !Pass(E, i, R) then Go(pc + 2, R)
      else if pc + 1 >= |code| || !code[pc + 1].Jmp? then Stop(Stuck)
      else if pc + 1 in pending then Stop(Exit(pc + 1, R))
      else Go(pc + 2 + code[pc + 1].sbx, TestWrites(i, R))
    else if i.Jmp? && !Controlled(code, pc) then
      if pc in pending then Stop(Exit(pc, R)) else Go(pc + 1 + i.sbx, R)
    else Stop(Stuck)
  }

  /** Execution from `pc` until it leaves the code or would take a pending jump;
      only forward jumps are followed. */
  function Run(E: Env, code: seq<Instr>, pending: set<nat>, pc: nat, R: Regs): Out
    decreases |code| - pc
  {
    if pc >= |code| then At(pc, R)
    else
      match Step(E, code, pending, pc, R)
      case Stop(out) => out
      case Go(t, S) => if t <= pc then Stuck else Run(E, code, pending, t, S)
  }

  lemma ExitIsPending(E: Env, code: seq<Instr>, pending: set<nat>, pc: nat, R: Regs)
    ensures Run(E, code, pending, pc, R).Exit? ==> Run(E, code, pending, pc, R).jump in pending
    decreases |code| - pc
  {
    if pc < |code| {
      match Step(E, code, pending, pc, R)
      case Stop(_) =>
      case Go(t, S) => if pc < t { ExitIsPending(E, code, pending, t, S); }
    }
  }

  // ---- one instruction of the unadorned machine ----

  /** The interpreter itself: no pending jumps, no restriction on jumps. */
  function Exec(E: Env, code: seq<Instr>, pc: nat, R: Regs): (c: (int, Regs))
    requires pc < |code|
  {
    var i := code[pc];
    if Plain(i) then (pc + 1, Effect(E, i, R))
    else if i.LoadBool? then (pc + 2, R[i.a := Bool(i.b != 0)])
    else if i.LoadKX? && pc + 1 < |code| && code[pc + 1].ExtraArg? then (pc + 2, R[i.a := Const(E, code[pc + 1].ax)])
    else if TMode(i) then
      if Pass(E, i, R) && pc + 1 < |code| && code[pc + 1].Jmp? then (pc + 2 + code[pc + 1].sbx, TestWrites(i, R))
      else (pc + 2, R)
    else if i.Jmp? then (pc + 1 + i.sbx, R)
    else (pc + 1, R)
  }

  /** The interpreter reaches `to` with registers `S` in `n` instructions. */
  predicate Reaches(E: Env, code: seq<Instr>, pc: int, R: Regs, n: nat, to: nat, S: Regs)
    decreases n
  {
    if n == 0 then pc == to && R == S
    else 0 <= pc < |code| && var c := Exec(E, code, pc, R); Reaches(E, code, c.0, c.1, n - 1, to, S)
  }

  /** Without pending jumps, `Run` is what the interpreter does. */
  lemma {:induction false} RunIsExec(E: Env, code: seq<Instr>, pc: nat, R: Regs) returns (n: nat)
    requires Run(E, code, {}, pc, R).At?
    ensures Reaches(E, code, pc, R, n, Run(E, code, {}, pc, R).pc, Run(E, code, {}, pc, R).regs)
    decreases |code| - pc
  {
    if pc >= |code| {
      n := 0;
    } else {
      var c := Exec(E, code, pc, R);
      var k := RunIsExec(E, code, c.0, c.1);
      n := k + 1;
    }
  }

  // ---- extending and patching code ----

  /** Appending code continues every run that had reached the end. */
  lemma {:induction false} RunAppend(E: Env, code: seq<Instr>, code': seq<Instr>, P: set<nat>, P': set<nat>, pc: nat, R: Regs)
    requires code <= code' && pc <= |code|
    requires forall p :: p < |code| ==> (p in P <==> p in P')
    ensures match Run(E, code, P, pc, R)
      case At(t, S) => t == |code| ==> Run(E, code', P', pc, R) == Run(E, code', P', t, S)
      case Exit(p, S) => Run(E, code', P', pc, R) == Exit(p, S)
      case Stuck => true
    decreases |code| - pc
  {
    if pc < |code| {
      StepAppend(E, code, code', P, P', pc, R);
      match Step(E, code, P, pc, R)
      case Stop(_) =>
      case Go(t, S) => if pc < t <= |code| { RunAppend(E, code, code', P, P', t, S); }
    }
  }

  lemma StepAppend(E: Env, code: seq<Instr>, code': seq<Instr>, P: set<nat>, P': set<nat>, pc: nat, R: Regs)
    requires code <= code' && pc < |code|
    requires forall p :: p < |code| ==> (p in P <==> p in P')
    ensures Step(E, code, P, pc, R) != Stop(Stuck) ==> Step(E, code', P', pc, R) == Step(E, code, P, pc, R)
  {
    assert code'[pc] == code[pc];
    assert pc + 1 < |code| ==> code'[pc + 1] == code[pc + 1] && (pc + 1 in P <==> pc + 1 in P');
    assert Controlled(code', pc) <==> Controlled(code, pc);
  }

  /** How `B` differs from `A` after the pending jumps `L` were patched: the
      jumps are rewritten, and the TESTSETs that control them either keep
      writing (to another register) or become plain tests. */
  ghost predicate Patched(A: seq<Instr>, B: seq<Instr>, L: set<nat>) {
    |A| == |B| && forall i :: 0 <= i < |A| ==> PatchedAt(A, B, L, i)
  }

  ghost predicate PatchedAt(A: seq<Instr>, B: seq<Instr>, L: set<nat>, i: nat)
    requires i < |A| == |B|
  {
    if i in L then A[i].Jmp? && B[i].Jmp?
    else if i + 1 in L && A[i].TestSet? then
      B[i] == Test(A[i].b, A[i].c) || (B[i].TestSet? && B[i].b == A[i].b && B[i].c == A[i].c)
    else B[i] == A[i]
  }

  /** Registers after a patched jump was taken. */
  function AfterJump(B: seq<Instr>, p: nat, S: Regs): Regs {
    if Controlled(B, p) then TestWrites(B[p - 1], S) else S
  }

  /** Patched code runs as before, and goes on from the new destination where a
      run used to stop at a jump in `D`, which is no longer pending. */
  lemma {:induction false} RunPatched(E: Env, A: seq<Instr>, B: seq<Instr>, P: set<nat>, L: set<nat>, D: set<nat>, pc: nat, R: Regs)
    requires Patched(A, B, L) && D <= L <= P
    ensures PatchedRun(E, B, P, D, pc, R, Run(E, A, P, pc, R))
    decreases |A| - pc
  {
    if pc < |A| {
      StepPatched(E, A, B, P, L, D, pc, R);
      match Step(E, A, P, pc, R)
      case Stop(_) =>
      case Go(t, S) => if pc < t { RunPatched(E, A, B, P, L, D, t, S); }
    }
  }

  /** What a run of the old code that ended in `out` becomes in the new code. */
  ghost predicate PatchedRun(E: Env, B: seq<Instr>, P: set<nat>, D: set<nat>, pc: nat, R: Regs, out: Out) {
    match out
    case At(t, S) => Run(E, B, P - D, pc, R) == At(t, S)
    case Exit(p, S) =>
      if p in D then
        && p < |B| && B[p].Jmp?
        && (B[p].sbx >= 0 ==> Run(E, B, P - D, pc, R) == Run(E, B, P - D, p + 1 + B[p].sbx, AfterJump(B, p, S)))
      else Run(E, B, P - D, pc, R) == Exit(p, S)
    case Stuck => true
  }

  lemma StepPatched(E: Env, A: seq<Instr>, B: seq<Instr>, P: set<nat>, L: set<nat>, D: set<nat>, pc: nat, R: Regs)
    requires Patched(A, B, L) && D <= L <= P && pc < |A|
    ensures match Step(E, A, P, pc, R)
      case Go(t, S) => Step(E, B, P - D, pc, R) == Go(t, S)
      case Stop(Exit(p, S)) =>
        p < |B| && pc <= p &&
        (if p in D then B[p].Jmp? && Step(E, B, P - D, pc, R) == Go(p + 1 + B[p].sbx, AfterJump(B, p, S))
         else Step(E, B, P - D, pc, R) == Stop(Exit(p, S)))
      case _ => true
  {
    hide Get;
    var i := A[pc];
    assert PatchedAt(A, B, L, pc);
    if pc + 1 < |A| { assert PatchedAt(A, B, L, pc + 1); }
    if pc > 0 { assert PatchedAt(A, B, L, pc - 1); }
  }
}
