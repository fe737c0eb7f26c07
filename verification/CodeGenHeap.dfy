/** The code generator as it works: one `FuncState` and expression descriptors
  updated in place, with jump lists threaded through the code. Every method is
  proved to do what the functions of `CodeGenModel` do on sets. */
module CodeGenHeap {
  import opened LuaVm
  import opened CodeGenModel
  import opened CodeGenSim
  import opened CodeGenSpec
  import opened CodeGenClose
  import opened CodeGenCond
  import opened CodeGenExpr
  import opened CodeGenNot
  import opened CodeGenOperand
  import opened CodeGenLists
  import opened CodeGenRoom
  import opened CodeGenSyntax
  import Grammar = ExprGrammar
  import Syntax = ExprSyntax

  /** `expdesc`, with the abstract descriptor it stands for. */
  class ExpDesc {
    var k: Kind
    var t: int
    var f: int
    ghost var model: Exp

    ghost predicate Is(code: seq<Instr>)
      reads this
    {
      && k == model.k && IsList(code, t, model.t) && IsList(code, f, model.f)
      && (k.VJmp? ==> 0 <= k.pc && IsList(code, k.pc, {k.pc}))
    }

    constructor (k: Kind)
      requires !k.VJmp?
      ensures this.k == k && model == Plainly(k) && forall code :: Is(code)
    {
      this.k, t, f := k, NO_JUMP, NO_JUMP;
      model := Plainly(k);
      new;
      forall code ensures Is(code) { NoList(code); }
    }
  }

  /** The instruction a descriptor refers to is the last one. */
  predicate KindHere(m: Fs, e: Exp) {
    match e.k
    case VReloc(pc) => |m.code| >= 1 && pc == |m.code| - 1 && m.code[pc].Not? && m.jpc == {}
    case VJmp(pc) => |m.code| >= 2 && pc == |m.code| - 1 && m.code[pc].Jmp? && Comparison(m.code[pc - 1]) && m.jpc == {}
    case _ => true
  }

  /** Every pending jump is on one list only. */
  predicate Apart(m: Fs, ext: set<nat>, e: Exp) {
    && m.jpc !! ext !! e.t !! e.f && (e.k.VJmp? ==> 0 <= e.k.pc && e.k.pc !in Pending(m, ext, e))
    && KindHere(m, e)
  }

  lemma Settled(m: Fs, ext: set<nat>, e: Exp)
    requires Apart(m, ext, e) && !e.k.VJmp?
    ensures AllPending(m, ext, e) - m.jpc == {} + ext + e.t + e.f
    ensures AllPending(m, ext, e) == m.jpc + ext + e.t + e.f
  {
  }

  lemma ApartRest(open: set<nat>, J: set<nat>, J': set<nat>, T: set<nat>, F: set<nat>)
    requires J' !! T !! F
    ensures open - J + J' - F - T == open - J - F - T + J'
  {
  }

  /** The true list of a descriptor with the jump of a comparison in it. */
  function WithJump(e: Exp): Exp {
    if e.k.VJmp? && 0 <= e.k.pc then e.(t := e.t + {e.k.pc}) else e
  }

  lemma ClosedRest(m: Fs, ext: set<nat>, e: Exp, J: set<nat>)
    requires Apart(m, ext, e) && J !! WithJump(e).t + WithJump(e).f
    ensures var x := WithJump(e);
      && AllPending(m, ext, e) - m.jpc - x.f - x.t == ext && ext + J == J + ext
      && x.t !! x.f !! m.jpc && x.t + x.f <= AllPending(m, ext, e)
  {
  }

  lemma BareHere(m: Fs, ext: set<nat>, e: Exp)
    requires Apart(m, ext, e) && Within(|m.code|, AllPending(m, ext, e))
    requires forall p | p in e.t + e.f :: m.code[p].Jmp?
    ensures var g := m.(code := Bare(m.code, e.t, e.f)); var d := Exp(e.k, e.f, e.t);
      Apart(g, ext, d) && AllPending(g, ext, d) == AllPending(m, ext, e)
  {
    BareIsPatched(m.code, e.t, e.f);
    var n := |m.code|;
    var g := m.(code := Bare(m.code, e.t, e.f));
    if n >= 1 { assert n !in e.t + e.f; assert g.code[n - 1] == m.code[n - 1]; }
    if e.k.VJmp? { assert g.code[n - 2] == m.code[n - 2]; }
  }

  lemma ComparedHere(m: Fs, i: Instr, ext: set<nat>)
    requires Within(|m.code|, ext) && Comparison(i)
    ensures var (g, P) := CondJump(m, i); var e := Plainly(VJmp(|g.code| - 1));
      && Apart(g, ext, e) && AllPending(g, ext, e) == ext + {|m.code| + 1} && P == {|m.code| + 1}
      && |g.code| == |m.code| + 2
  {
    var g := CondJump(m, i).0;
    NoJpcCode(Code(m, i), Jmp(0, NO_JUMP));
    assert g.code == Discharge(m).code + [i, Jmp(0, NO_JUMP)];
    assert {|m.code| + 1} + {} == {|m.code| + 1};
  }

  lemma NoLists(A: seq<Instr>, B: seq<Instr>, t: int, f: int, d: Exp)
    requires !HasJumps(d) && IsList(A, t, d.t) && IsList(A, f, d.f)
    ensures IsList(B, t, d.t) && IsList(B, f, d.f)
  {
    ListFrame(A, B, t, d.t);
    ListFrame(A, B, f, d.f);
  }

  lemma GoIfCloses(m: Fs, e: Exp, b: bool)
    ensures var r := GoIf(m, e, b).1; if b then r.t == {} else r.f == {}
  {
  }

  lemma JoinApart(m: Fs, ext: set<nat>, r: Exp, d: Exp, isAnd: bool)
    requires Apart(m, ext + r.t + r.f, d) && ext !! r.t !! r.f && (if isAnd then r.t == {} else r.f == {})
    ensures Apart(m, ext, Join(r, d, isAnd))
    ensures AllPending(m, ext, Join(r, d, isAnd)) == AllPending(m, ext + r.t + r.f, d)
    ensures d.t <= AllPending(m, ext + r.t + r.f, d) && d.f <= AllPending(m, ext + r.t + r.f, d)
  {
    JoinIs(r, d, isAnd);
    assert Pending(m, ext, Join(r, d, isAnd)) == Pending(m, ext + r.t + r.f, d);
  }

  /** A run of the statement that began with `fs` gets to the end of the code with
      the value of `t` in `reg`, and below `lo` no other register changes. */
  ghost predicate Computes(E: Env, fs: Fs, code: seq<Instr>, R0: Regs, t: Syntax.Tree, lo: int, reg: int, but: int)
    requires Between(fs, lo) && IsPlain(t)
  {
    var A := AtEntry(fs, R0);
    exists n, S ::
      && Reaches(E, code, Entry(fs), R0, n, |code|, S) && Get(S, reg) == Meaning(E, A, t)
      && forall i :: 0 <= i < lo && i != but ==> Get(S, i) == Get(A, i)
  }

  lemma NothingOpen(A: seq<Instr>, B: seq<Instr>)
    requires Implements(A, B, {})
    ensures A == B
  {
    forall i | 0 <= i < |A| ensures A[i] == B[i] { assert SameButLink(A[i], B[i], false); }
  }

  lemma StageApart(m: Fs, jmp: bool, reg: int, S: set<nat>)
    requires S !! m.jpc && Within(|m.code|, S) && (jmp ==> m.jpc == {})
    ensures Stage(m, jmp, reg).jpc !! S
    ensures GetLabel(Stage(m, jmp, reg)) == Stage(m, jmp, reg)
  {
    if jmp { StageComparison(m, reg); } else { StageJump(m, reg); }
  }

  lemma WithinPart(A: seq<Instr>, B: seq<Instr>, open: set<nat>, S: set<nat>)
    requires Implements(A, B, open) && Within(|A|, open) && S <= open
    ensures Within(|B|, S)
  {
  }

  /** `hasjumps` compares the heads of two lists that share no jump. */
  lemma HeadsDiffer(code: seq<Instr>, t: int, f: int, T: set<nat>, F: set<nat>)
    requires IsList(code, t, T) && IsList(code, f, F) && T !! F
    ensures t != f <==> T != {} || F != {}
  {
    hide IsList;
    if t == f {
      ListUnique(code, t, T, F);
    } else {
      if t == NO_JUMP { ListTail(code, f, F); } else { ListTail(code, t, T); }
    }
  }

  lemma Loaded(m: Fs, m': Fs, ext: set<nat>, d: Exp, reg: int)
    requires Apart(m, ext, d) && !d.k.VJmp? && (m'.jpc == {} || m'.jpc == m.jpc)
    ensures AllPending(m, ext, d) - (m.jpc - m'.jpc) == AllPending(m', ext, d.(k := VNonReloc(reg)))
    ensures Apart(m', ext, d.(k := VNonReloc(reg)))
  {
  }

  lemma Opened(A: seq<Instr>, B: seq<Instr>, open: set<nat>, p: nat)
    requires Implements(A, B, open) && p < |A| && B[p].Jmp?
    ensures Implements(A, B, open + {p})
  {
    assert SameButLink(A[p], B[p], p in open);
    forall i | 0 <= i < |A| ensures SameButLink(A[i], B[i], i in open + {p}) {
      assert SameButLink(A[i], B[i], i in open);
    }
  }

  /** The same change to an instruction that is not open. */
  lemma Rewritten(A: seq<Instr>, A': seq<Instr>, B: seq<Instr>, open: set<nat>, p: nat, i: Instr)
    requires Implements(A, B, open) && Within(|A|, open) && p < |A| && !A[p].Jmp? && A' == A[p := i]
    ensures p !in open && Implements(A', B[p := i], open) && Framed(A, A', open)
  {
    assert SameButLink(A[p], B[p], p in open);
    forall j | 0 <= j < |A| ensures SameButLink(A'[j], B[p := i][j], j in open) {
      assert SameButLink(A[j], B[j], j in open);
    }
    forall q | q in open ensures SameAt(A, A', q) {}
  }


  /** Rewriting links of open jumps. */
  lemma LinksOnly(A: seq<Instr>, A': seq<Instr>, B: seq<Instr>, open: set<nat>, s: seq<nat>, S: set<nat>)
    requires Implements(A, B, open) && Within(|A|, open) && Members(s) == S && S <= open
    requires |A'| == |A| && forall i | 0 <= i < |A| :: SameButLink(A'[i], A[i], i in s)
    ensures Implements(A', B, open) && Framed(A, A', open - S)
  {
    forall i | 0 <= i < |A| ensures SameButLink(A'[i], B[i], i in open) {
      assert SameButLink(A'[i], A[i], i in s) && SameButLink(A[i], B[i], i in open);
      assert i in s ==> i in Members(s);
    }
    forall p | p in open - S ensures SameAt(A, A', p) {
      assert SameButLink(A'[p], A[p], p in s);
      assert p in s ==> p in Members(s);
    }
  }

  /** `FuncState`, with the abstract state it stands for. */
  class FuncState {
    var code: seq<Instr>
    var jpc: int
    var lasttarget: nat
    var freereg: int
    var nactvar: nat
    var maxstack: int
    var k: seq<Value>
    var h: map<Value, nat>
    var ok: bool
    ghost var model: Fs
    /** A jump that was too far from another one of its list, if there was one. */
    ghost var far: nat

    ghost predicate Valid(open: set<nat>)
      reads this
    {
      && Implements(code, model.code, open) && Within(|code|, open)
      && IsList(code, jpc, model.jpc) && model.jpc <= open
      && lasttarget == model.lasttarget && freereg == model.freereg && nactvar == model.nactvar
      && maxstack == model.maxstack && k == model.k && h == model.h && (ok ==> model.ok)
      && (ok || !model.ok || far >= MAXARG_sBx) && (far > 0 ==> far < |model.code| && model.code[far].Jmp?)
    }

    /** Linking two jumps fails only if one of them is far away. */
    twostate predicate LinkedFar()
      reads this
    {
      (ok ==> old(ok)) && ((ok == old(ok) && far == old(far)) || (MAXARG_sBx <= far < |code| && code[far].Jmp?))
    }

    /** `fixjump`. */
    method FixJump(pc: nat, dest: int)
      requires pc < |code| && code[pc].Jmp?
      modifies this`code, this`ok
      ensures code == old(code)[pc := Jmp(old(code)[pc].a, dest - (pc + 1))]
      ensures ok == (old(ok) && Abs(dest - (pc + 1)) <= MAXARG_sBx)
    {
      var offset := dest - (pc + 1);
      if Abs(offset) > MAXARG_sBx { ok := false; }
      code := code[pc := Jmp(code[pc].a, offset)];
    }

    /** `luaK_concat`: the second list is appended to the first. */
    method Concat(l1: int, l2: int, ghost s1: seq<nat>, ghost s2: seq<nat>) returns (l: int)
      requires Chain(code, l1, s1) && Chain(code, l2, s2) && forall p | p in s1 :: p !in s2
      modifies this`code, this`ok, this`far
      ensures Chain(code, l, s1 + s2)
      ensures |code| == |old(code)| && forall i | 0 <= i < |code| :: SameButLink(code[i], old(code)[i], i in s1)
      ensures LinkedFar()
    {
      if l2 == NO_JUMP {
        assert s1 + s2 == s1;
        ChainJumps(code, l1, s1);
        return l1;
      } else if l1 == NO_JUMP {
        assert s1 + s2 == s2;
        return l2;
      }
      ChainJumps(code, l1, s1);
      var list := l1;
      ghost var i := 0;
      assert s1[0..] == s1;
      while GetJump(code, list) != NO_JUMP
        invariant 0 <= i < |s1| && list == s1[i]
        invariant Chain(code, list, s1[i..]) && code == old(code) && ok == old(ok) && far == old(far)
        decreases |s1| - i
      {
        assert s1[i..][1..] == s1[i + 1..];
        assert s1[i + 1..] != [];
        list := GetJump(code, list);
        i := i + 1;
      }
      assert s1[i..][1..] == s1[i + 1..];
      assert s1[i + 1..] == [];
      FixJump(list, l2);
      if Abs(l2 - (list + 1)) > MAXARG_sBx { far := if l2 > list then l2 else list; }
      ChainAppend(old(code), code, l1, s1, l2, s2);
      l := l1;
    }

    /** `need_value`. */
    method NeedsValue(list: int, ghost S: set<nat>) returns (b: bool)
      requires IsList(code, list, S)
      ensures b == NeedValue(code, S)
    {
      ghost var s :| Chain(code, list, s) && Members(s) == S;
      ChainJumps(code, list, s);
      var l := list;
      ghost var i := 0;
      assert s[0..] == s;
      while l != NO_JUMP
        invariant 0 <= i <= |s| && Chain(code, l, s[i..])
        invariant forall j | 0 <= j < i :: SetsValue(code, s[j])
        decreases |s| - i
      {
        assert s[i] in Members(s);
        var control := if l >= 1 && TMode(code[l - 1]) then code[l - 1] else code[l];
        if !control.TestSet? { return true; }
        assert s[i..][1..] == s[i + 1..];
        l := GetJump(code, l);
        i := i + 1;
      }
      assert s[i..] == [];
      forall p | p in S ensures SetsValue(code, p) {
        assert p in s;
        var j :| 0 <= j < |s| && s[j] == p;
      }
      return false;
    }

    /** `patchtestreg`. */
    method PatchTestReg(node: nat, reg: int) returns (sets: bool)
      requires node < |code| && code[node].Jmp?
      modifies this`code
      ensures sets == SetsValue(old(code), node)
      ensures code == if sets then old(code)[node - 1 := PatchTest(old(code)[node - 1], reg)] else old(code)
    {
      if !(node >= 1 && TMode(code[node - 1]) && code[node - 1].TestSet?) { return false; }
      var i := code[node - 1];
      if reg != NO_REG && reg != i.b {
        code := code[node - 1 := TestSet(reg, i.b, i.c)];
      } else {
        code := code[node - 1 := Test(i.b, i.c)];
      }
      return true;
    }

    /** `patchlistaux`: every jump of the list gets its destination, every
        TESTSET among their controls its register; nothing else changes. */
    method PatchListAux(list: int, vtarget: int, reg: int, dtarget: int, ghost S: set<nat>)
      requires IsList(code, list, S)
      modifies this`code, this`ok
      ensures code == PatchList(old(code), S, vtarget, reg, dtarget)
      ensures ok == (old(ok) && InReach(old(code), S, vtarget, dtarget))
    {
      var l := list;
      ghost var L := S;
      while l != NO_JUMP
        invariant IsList(code, l, L)
        invariant PatchList(code, L, vtarget, reg, dtarget) == PatchList(old(code), S, vtarget, reg, dtarget)
        invariant (ok && InReach(code, L, vtarget, dtarget)) == (old(ok) && InReach(old(code), S, vtarget, dtarget))
        decreases L
      {
        ListTail(code, l, L);
        ListJumps(code, l, L);
        PatchRest(code, L, l, vtarget, reg, dtarget);
        ghost var A := code;
        var next := GetJump(code, l);
        var sets := PatchTestReg(l, reg);
        FixJump(l, if sets then vtarget else dtarget);
        assert code == PatchOne(A, l, vtarget, reg, dtarget);
        ListFrame(A, code, next, L - {l});
        L := L - {l};
        l := next;
      }
      ListEnd(code, L);
      PatchNone(code, vtarget, reg, dtarget);
    }

    /** `removevalues`. */
    method RemoveListValues(list: int, ghost S: set<nat>)
      requires IsList(code, list, S)
      modifies this`code
      ensures code == RemoveValues(old(code), S)
    {
      var l := list;
      ghost var L := S;
      while l != NO_JUMP
        invariant IsList(code, l, L)
        invariant RemoveValues(code, L) == RemoveValues(old(code), S)
        decreases L
      {
        ListTail(code, l, L);
        ListJumps(code, l, L);
        RemoveRest(code, L, l);
        ghost var A := code;
        var next := GetJump(code, l);
        var sets := PatchTestReg(l, NO_REG);
        ListFrame(A, code, next, L - {l});
        L := L - {l};
        l := next;
      }
      ListEnd(code, L);
      assert RemoveValues(code, {}) == code;
    }

    // ---- in step with the abstract state ----

    /** `luaK_getlabel`. */
    method MarkLabel(ghost open: set<nat>)
      requires Valid(open)
      modifies this`lasttarget, this`model
      ensures Valid(open) && model == GetLabel(old(model))
    {
      lasttarget := |code|;
      model := GetLabel(model);
    }

    /** `patchlistaux` on a list whose jumps are no longer open after it. */
    method PatchOpen(list: int, vtarget: int, reg: int, dtarget: int, ghost S: set<nat>, ghost open: set<nat>)
      requires Valid(open) && IsList(code, list, S) && S <= open && S !! model.jpc
      modifies this`code, this`ok, this`model
      ensures Valid(open - S) && model == FixList(old(model), S, vtarget, reg, dtarget)
      ensures Framed(old(code), code, open - S)
    {
      PatchImplements(code, model.code, open, S, vtarget, reg, dtarget);
      ghost var A := code;
      PatchListAux(list, vtarget, reg, dtarget, S);
      model := FixList(model, S, vtarget, reg, dtarget);
      ListFrame(A, code, jpc, model.jpc);
    }

    /** `dischargejpc`. */
    method DischargeJpc(ghost open: set<nat>)
      requires Valid(open)
      modifies this`code, this`ok, this`model, this`jpc
      ensures Valid(open - old(model.jpc)) && model == Discharge(old(model))
      ensures Framed(old(code), code, open - old(model.jpc))
    {
      hide InReach;
      PatchImplements(code, model.code, open, model.jpc, |code|, NO_REG, |code|);
      PatchListAux(jpc, |code|, NO_REG, |code|, model.jpc);
      jpc := NO_JUMP;
      model := Discharge(model);
      NoList(code);
    }

    /** `luaK_code`. */
    method Emit(i: Instr, ghost open: set<nat>) returns (pc: nat)
      requires Valid(open)
      modifies this`code, this`ok, this`model, this`jpc
      ensures Valid(open - old(model.jpc)) && model == Code(old(model), i) && pc == |old(code)|
      ensures Framed(old(code), code, open - old(model.jpc))
    {
      ghost var rest := open - model.jpc;
      DischargeJpc(open);
      ghost var A := code;
      pc := |code|;
      code := code + [i];
      model := model.(code := model.code + [i]);
      assert Framed(A, code, rest);
      ListFrame(A, code, jpc, {});
    }

    /** `luaK_concat`, seen from the code without links. */
    method Append(l1: int, l2: int, ghost S1: set<nat>, ghost S2: set<nat>, ghost open: set<nat>) returns (l: int)
      requires Implements(code, model.code, open) && Within(|code|, open)
      requires IsList(code, l1, S1) && IsList(code, l2, S2) && S1 !! S2 && S1 <= open
      modifies this`code, this`ok, this`far
      ensures Implements(code, model.code, open) && |code| == |old(code)|
      ensures IsList(code, l, S1 + S2) && Framed(old(code), code, open - S1) && LinkedFar()
    {
      ghost var s1 :| Chain(code, l1, s1) && Members(s1) == S1;
      ghost var s2 :| Chain(code, l2, s2) && Members(s2) == S2;
      assert forall p | p in s1 :: p !in s2 by {
        forall p | p in s1 ensures p !in s2 { assert p in Members(s1); assert p in s2 ==> p in Members(s2); }
      }
      ghost var A := code;
      l := Concat(l1, l2, s1, s2);
      LinksOnly(A, code, model.code, open, s1, S1);
      assert Members(s1 + s2) == S1 + S2;
    }

    /** `luaK_concat` of two open lists. */
    method ConcatOpen(l1: int, l2: int, ghost S1: set<nat>, ghost S2: set<nat>, ghost open: set<nat>) returns (l: int)
      requires Valid(open) && IsList(code, l1, S1) && IsList(code, l2, S2)
      requires S1 !! S2 !! model.jpc && S1 <= open
      modifies this`code, this`ok, this`far
      ensures Valid(open) && IsList(code, l, S1 + S2) && Framed(old(code), code, open - S1)
    {
      ghost var A := code;
      l := Append(l1, l2, S1, S2, open);
      ListFrame(A, code, jpc, model.jpc);
    }

    /** `luaK_jump`: the waiting jumps are put on hold behind the new one. */
    method EmitJump(ghost open: set<nat>) returns (j: int)
      requires Valid(open)
      modifies this`code, this`ok, this`far, this`model, this`jpc
      ensures model == Jump(old(model)).0 && IsList(code, j, Jump(old(model)).1)
      ensures Valid(open + {|old(code)|}) && Framed(old(code), code, open - old(model.jpc))
    {
      ghost var A, hold := code, model.jpc;
      var list := jpc;
      jpc := NO_JUMP;
      model := model.(jpc := {});
      NoList(code);
      var pc := Emit(Jmp(0, NO_JUMP), open);
      assert open - {} == open;
      OneJump(code, pc);
      Opened(code, model.code, open, pc);
      ListFrame(A, code, list, hold);
      j := ConcatOpen(pc, list, {pc}, hold, open + {pc});
    }

    /** `condjump`. */
    method EmitTest(i: Instr, ghost open: set<nat>) returns (j: int)
      requires Valid(open)
      modifies this`code, this`ok, this`far, this`model, this`jpc
      ensures model == CondJump(old(model), i).0 && IsList(code, j, CondJump(old(model), i).1)
      ensures Valid(open - old(model.jpc) + {|old(code)| + 1}) && Framed(old(code), code, open - old(model.jpc))
    {
      ghost var rest := open - model.jpc;
      var _ := Emit(i, open);
      assert rest - {} == rest;
      j := EmitJump(rest);
    }

    /** `luaK_patchtohere`. */
    method PatchHere(list: int, ghost S: set<nat>, ghost open: set<nat>)
      requires Valid(open) && IsList(code, list, S) && S <= open && S !! model.jpc
      modifies this`code, this`ok, this`far, this`model, this`jpc, this`lasttarget
      ensures Valid(open) && model == PatchToHere(old(model), S) && Framed(old(code), code, open - old(model.jpc))
    {
      MarkLabel(open);
      jpc := Append(jpc, list, model.jpc, S, open);
      model := model.(jpc := model.jpc + S);
    }

    /** `code_label`. */
    method EmitLabel(a: int, b: int, c: int, ghost open: set<nat>) returns (pc: nat)
      requires Valid(open)
      modifies this`code, this`ok, this`model, this`jpc, this`lasttarget
      ensures Valid(open - old(model.jpc)) && model == CodeLabel(old(model), a, b, c)
      ensures Framed(old(code), code, open - old(model.jpc)) && pc == |old(code)|
    {
      MarkLabel(open);
      pc := Emit(LoadBool(a, b, c), open);
    }

    /** `addk`. */
    method AddConstant(v: Value, ghost open: set<nat>) returns (i: int)
      requires Valid(open)
      modifies this`k, this`h, this`ok, this`model
      ensures Valid(open) && (model, i) == AddK(old(model), v)
    {
      if v in h && h[v] < |k| && k[h[v]] == v { return h[v]; }
      i := |k|;
      if |k| >= MAXARG_Ax { ok := false; }
      model := AddK(model, v).0;
      h := h[v := |k|];
      k := k + [v];
    }

    /** `luaK_codek`. */
    method EmitK(reg: int, i: int, ghost open: set<nat>)
      requires Valid(open)
      modifies this`code, this`ok, this`model, this`jpc
      ensures Valid(open - old(model.jpc)) && model == CodeK(old(model), reg, i)
      ensures Framed(old(code), code, open - old(model.jpc))
    {
      if i <= MAXARG_Bx {
        var _ := Emit(LoadK(reg, i), open);
      } else {
        ghost var rest := open - model.jpc;
        var _ := Emit(LoadKX(reg), open);
        assert rest - {} == rest;
        var _ := Emit(ExtraArg(i), rest);
      }
    }

    /** One instruction that is no jump is replaced by another. */
    method Rewrite(pc: nat, i: Instr, ghost open: set<nat>)
      requires Valid(open) && pc < |model.code| && !model.code[pc].Jmp?
      modifies this`code, this`model
      ensures Valid(open) && model == old(model).(code := old(model).code[pc := i]) && Framed(old(code), code, open)
    {
      hide IsList;
      SameHere(pc, open);
      ghost var A := code;
      code := code[pc := i];
      Rewritten(A, code, model.code, open, pc, i);
      model := model.(code := model.code[pc := i]);
      ListFrame(A, code, jpc, model.jpc);
    }

    /** Instructions that are no jumps are those of the abstract code. */
    lemma SameHere(pc: nat, open: set<nat>)
      requires Valid(open) && pc < |model.code|
      ensures pc < |code| && (model.code[pc].Jmp? <==> code[pc].Jmp?) && (!code[pc].Jmp? ==> code[pc] == model.code[pc])
      ensures |code| == |model.code|
    {
      assert SameButLink(code[pc], model.code[pc], pc in open);
    }

    lemma NilHere(open: set<nat>)
      requires Valid(open)
      ensures |code| == |model.code| && (|code| > 0 ==> code[|code| - 1].LoadNil? == model.code[|code| - 1].LoadNil?)
      ensures |code| > 0 && code[|code| - 1].LoadNil? ==> code[|code| - 1] == model.code[|code| - 1]
    {
      hide IsList;
      if |code| > 0 { SameHere(|code| - 1, open); }
    }

    /** `luaK_nil`. */
    method EmitNil(from: int, n: int, ghost open: set<nat>)
      requires Valid(open)
      modifies this`code, this`ok, this`model, this`jpc
      ensures var rest := if NilMerges(old(model), from, n) then open else open - old(model.jpc);
        Valid(rest) && Framed(old(code), code, rest)
      ensures model == CodeNil(old(model), from, n)
    {
      hide SameAt, Members, IsList, Within, Implements, Discharge, Framed, Code;
      NilHere(open);
      if |code| > lasttarget && code[|code| - 1].LoadNil? {
        var pfrom := code[|code| - 1].a;
        var pl := pfrom + code[|code| - 1].b;
        var l := from + n - 1;
        if (pfrom <= from && from <= pl + 1) || (from <= pfrom && pfrom <= l + 1) {
          var lo := if pfrom < from then pfrom else from;
          if pl > l { l := pl; }
          Rewrite(|code| - 1, LoadNil(lo, l - lo), open);
          return;
        }
      }
      var _ := Emit(LoadNil(from, n - 1), open);
    }

    /** `luaK_reserveregs`. */
    method Reserve(n: int, ghost open: set<nat>)
      requires Valid(open)
      modifies this`maxstack, this`freereg, this`ok, this`model
      ensures Valid(open) && model == ReserveRegs(old(model), n)
    {
      if freereg + n > maxstack {
        if freereg + n >= MAXREGS { ok := false; }
        maxstack := freereg + n;
      }
      freereg := freereg + n;
      model := ReserveRegs(model, n);
    }

    /** `freereg`. */
    method Free(reg: int, ghost open: set<nat>)
      requires Valid(open)
      modifies this`freereg, this`model
      ensures Valid(open) && model == FreeReg(old(model), reg)
    {
      if reg < BITRK && reg >= nactvar { freereg := freereg - 1; }
      model := FreeReg(model, reg);
    }

    // ---- expressions ----

    ghost predicate Linked(e: ExpDesc, ext: set<nat>)
      reads this, e
    {
      Valid(AllPending(model, ext, e.model)) && e.Is(code) && Apart(model, ext, e.model)
    }

    /** `luaK_dischargevars`. */
    method DischargeVar(e: ExpDesc, ghost ext: set<nat>)
      requires Linked(e, ext)
      modifies e
      ensures Linked(e, ext) && e.model == DischargeVars(old(e.model))
    {
      if e.k.VLocal? {
        e.k := VNonReloc(e.k.reg);
        e.model := DischargeVars(e.model);
      }
    }

    /** `freeexp`. */
    method FreeExpression(e: ExpDesc, ghost open: set<nat>)
      requires Valid(open) && e.k == e.model.k
      modifies this`freereg, this`model
      ensures Valid(open) && model == FreeExp(old(model), e.model)
    {
      if e.k.VNonReloc? { Free(e.k.reg, open); }
    }

    /** The destination of a NOT is filled in. */
    method Relocate(pc: nat, reg: int, ghost open: set<nat>)
      requires Valid(open) && pc < |model.code| && model.code[pc].Not?
      modifies this`code, this`model
      ensures Valid(open) && model == old(model).(code := old(model).code[pc := SetA(old(model).code[pc], reg)])
      ensures Framed(old(code), code, open)
    {
      hide IsList, Implements, Within, Framed;
      SameHere(pc, open);
      Rewrite(pc, SetA(code[pc], reg), open);
    }

    /** `luaK_codek` of a constant just entered. */
    method EmitNumber(reg: int, v: Value, ghost open: set<nat>)
      requires Valid(open)
      modifies this
      ensures Valid(open - old(model.jpc)) && Framed(old(code), code, open - old(model.jpc)) && model.jpc == {}
      ensures model == CodeK(AddK(old(model), v).0, reg, AddK(old(model), v).1)
    {
      hide Implements, IsList, AddK;
      var i := AddConstant(v, open);
      AddKJumps(old(model), v);
      EmitK(reg, i, open);
    }

    lemma AddKJumps(fs: Fs, v: Value)
      ensures AddK(fs, v).0.jpc == fs.jpc
    {
    }

    /** The part of `discharge2reg` that emits one load. */
    method EmitLoad(k: Kind, reg: int, ghost open: set<nat>)
      requires Valid(open) && !k.VLocal? && !k.VJmp?
      requires k.VReloc? ==> 0 <= k.pc < |model.code| && model.code[k.pc].Not?
      modifies this
      ensures Valid(open - (old(model.jpc) - model.jpc))
      ensures model == CodeGenModel.Discharge2Reg(old(model), Plainly(k), reg).0 && (model.jpc == {} || model.jpc == old(model.jpc))
      ensures Framed(old(code), code, open - (old(model.jpc) - model.jpc))
    {
      hide IsList, Implements;
      match k
      case VNil =>
        EmitNil(reg, 1, open);
        assert open - (old(model.jpc) - model.jpc) == if NilMerges(old(model), reg, 1) then open else open - old(model.jpc);
      case VFalse => var _ := Emit(LoadBool(reg, 0, 0), open); assert old(model.jpc) - {} == old(model.jpc);
      case VTrue => var _ := Emit(LoadBool(reg, 1, 0), open); assert old(model.jpc) - {} == old(model.jpc);
      case VK(i) => EmitK(reg, i, open); assert old(model.jpc) - {} == old(model.jpc);
      case VKFlt(r) => EmitNumber(reg, Flt(r), open); assert old(model.jpc) - {} == old(model.jpc);
      case VKInt(n) => EmitNumber(reg, Int(n), open); assert old(model.jpc) - {} == old(model.jpc);
      case VReloc(pc) => Relocate(pc, reg, open); assert open - (model.jpc - model.jpc) == open;
      case VNonReloc(r) =>
        if reg != r {
          var _ := Emit(Move(reg, r), open);
          assert old(model.jpc) - {} == old(model.jpc);
        } else {
          assert open - (model.jpc - model.jpc) == open;
        }
    }

    /** `discharge2reg`. */
    method LoadInto(e: ExpDesc, reg: int, ghost ext: set<nat>)
      requires Linked(e, ext)
      modifies this, e
      ensures Linked(e, ext) && (model, e.model) == CodeGenModel.Discharge2Reg(old(model), old(e.model), reg)
      ensures Framed(old(code), code, ext) && (!old(e.k).VJmp? ==> e.k == VNonReloc(reg))
    {
      hide IsList, Chain, CodeK, AddK;
      DischargeVar(e, ext);
      if e.k.VJmp? { return; }
      ghost var d, m0, A := e.model, model, code;
      EmitLoad(e.k, reg, AllPending(model, ext, d));
      e.k := VNonReloc(reg);
      e.model := d.(k := VNonReloc(reg));
      hide Implements, IsList, Within, Code, CodeNil, CodeK, AddK;
      Loaded(m0, model, ext, d, reg);
      ListFrame(A, code, e.t, d.t);
      ListFrame(A, code, e.f, d.f);
    }

    /** `discharge2anyreg`. */
    method LoadAny(e: ExpDesc, ghost ext: set<nat>)
      requires Linked(e, ext)
      modifies this, e
      ensures Linked(e, ext) && (model, e.model) == Discharge2AnyReg(old(model), old(e.model))
      ensures Framed(old(code), code, ext)
    {
      hide Implements, IsList, Chain, CodeGenModel.Discharge2Reg, DischargeVars;
      if !e.k.VNonReloc? {
        Reserve(1, AllPending(model, ext, e.model));
        LoadInto(e, freereg - 1, ext);
      }
    }

    /** The booleans for exits without a value, inside `exp2reg`. */
    method EmitBooleans(jmp: bool, reg: int, ghost open: set<nat>) returns (pf: int, pt: int)
      requires Valid(open) && (jmp ==> model.jpc == {})
      modifies this
      ensures var g := Stage(old(model), jmp, reg);
        model == g && Valid(open - old(model.jpc) + g.jpc) && pf == |g.code| - 2 && pt == |g.code| - 1
      ensures Framed(old(code), code, open - old(model.jpc))
    {
      hide IsList, Members, Chain, Implements, Within;
      ghost var A, m0 := code, model;
      var fj := NO_JUMP;
      ghost var S: set<nat> := {};
      ghost var now := open;
      NoList(code);
      CodeLength(open);
      if !jmp {
        fj := EmitJump(open);
        S := Jump(m0).1;
        now := open + {|A|};
      }
      ghost var B := code;
      assert now - {} == now;
      CodeLength(now);
      pf := EmitLabel(reg, 0, 1, now);
      CodeLength(now);
      pt := EmitLabel(reg, 1, 0, now);
      ListFrame(B, code, fj, S);
      PatchHere(fj, S, now);
      MarkLabel(now);
      assert open - m0.jpc + model.jpc == now;
    }

    /** Both lists of `x` get their destinations. */
    method LandBoth(t: int, f: int, reg: int, pf: int, pt: int, ghost x: Exp, ghost open: set<nat>)
      requires Valid(open) && IsList(code, t, x.t) && IsList(code, f, x.f)
      requires x.t !! x.f !! model.jpc && x.t + x.f <= open
      modifies this`code, this`ok, this`model
      ensures Valid(open - x.f - x.t) && model == FixBoth(old(model), x, reg, pf, pt)
      ensures Framed(old(code), code, open - x.f - x.t)
    {
      ghost var A := code;
      PatchOpen(f, |code|, reg, pf, x.f, open);
      ListFrame(A, code, t, x.t);
      PatchOpen(t, |code|, reg, pt, x.t, open - x.f);
    }

    /** The booleans, if an exit of either list carries no value. */
    method NeededBooleans(t: int, f: int, reg: int, ghost x: Exp, jmp: bool, ghost open: set<nat>) returns (pf: int, pt: int)
      requires Valid(open) && IsList(code, t, x.t) && IsList(code, f, x.f)
      requires x.t !! x.f !! model.jpc && x.t + x.f <= open && (jmp ==> model.jpc == {})
      modifies this
      ensures var need := NeedValue(old(model).code, x.t) || NeedValue(old(model).code, x.f);
        && model == (if need then Stage(old(model), jmp, reg) else old(model))
        && pf == (if need then |model.code| - 2 else NO_JUMP) && pt == (if need then |model.code| - 1 else NO_JUMP)
      ensures Valid(open - old(model.jpc) + model.jpc) && IsList(code, t, x.t) && IsList(code, f, x.f)
      ensures Framed(old(code), code, open - old(model.jpc))
    {
      hide Implements, IsList, NeedValue, Stage, Chain;
      ghost var A, m0 := code, model;
      pf, pt := NO_JUMP, NO_JUMP;
      ImplementsNeed(code, model.code, open, x.t);
      ImplementsNeed(code, model.code, open, x.f);
      var needT := NeedsValue(t, x.t);
      var needF := NeedsValue(f, x.f);
      if needT || needF {
        pf, pt := EmitBooleans(jmp, reg, open);
        ListFrame(A, code, t, x.t);
        ListFrame(A, code, f, x.f);
      } else {
        assert open - m0.jpc + m0.jpc == open;
      }
    }

    /** The end of `exp2reg`: both lists are brought to one place. */
    method CloseExits(t: int, f: int, reg: int, ghost x: Exp, jmp: bool, ghost open: set<nat>)
      requires Valid(open) && IsList(code, t, x.t) && IsList(code, f, x.f)
      requires x.t !! x.f !! model.jpc && x.t + x.f <= open && jmp == x.k.VJmp? && (jmp ==> model.jpc == {})
      modifies this
      ensures model == CloseLists(old(model), x, reg)
      ensures Valid(open - old(model.jpc) - x.f - x.t + model.jpc)
      ensures Framed(old(code), code, open - old(model.jpc) - x.f - x.t)
    {
      hide Implements, IsList, Within, NeedValue, Stage, Chain, Members;
      ghost var A, m0 := code, model;
      assert Within(|m0.code|, x.t + x.f) by { WithinPart(A, m0.code, open, x.t + x.f); }
      StageApart(m0, jmp, reg, x.t + x.f);
      var pf, pt := NeededBooleans(t, f, reg, x, jmp, open);
      ghost var now := open - m0.jpc + model.jpc;
      MarkLabel(now);
      LandBoth(t, f, reg, pf, pt, x, now);
      ApartRest(open, m0.jpc, model.jpc, x.t, x.f);
    }

    /** A comparison's jump is put in the true list. */
    method JoinJump(e: ExpDesc, ghost ext: set<nat>)
      requires Linked(e, ext)
      modifies this`code, this`ok, this`far, e`t
      ensures Valid(AllPending(model, ext, e.model)) && Framed(old(code), code, ext)
      ensures IsList(code, e.t, WithJump(e.model).t) && IsList(code, e.f, WithJump(e.model).f)
    {
      if e.k.VJmp? {
        ghost var A := code;
        e.t := ConcatOpen(e.t, e.k.pc, e.model.t, {e.k.pc}, AllPending(model, ext, e.model));
        ListFrame(A, code, e.f, e.model.f);
      }
    }

    /** `exp2reg` after the value itself is loaded. */
    method CloseExp(e: ExpDesc, reg: int, ghost ext: set<nat>)
      requires Linked(e, ext)
      modifies this, e
      ensures Valid(model.jpc + ext) && model.jpc !! ext && Framed(old(code), code, ext)
      ensures model == if HasJumps(WithJump(e.model)) then CloseLists(old(model), WithJump(e.model), reg) else old(model)
      ensures e.model == old(e.model)
    {
      hide Chain, SetsValue;
      ghost var x, m1 := WithJump(e.model), model;
      ghost var open := AllPending(model, ext, e.model);
      JoinJump(e, ext);
      hide Implements, IsList, Within, CloseLists;
      ClosedRest(m1, ext, e.model, {});
      HeadsDiffer(code, e.t, e.f, x.t, x.f);
      if e.t != e.f {
        CloseExits(e.t, e.f, reg, x, e.k.VJmp?, open);
        assert open - m1.jpc - x.f - x.t + model.jpc == model.jpc + ext;
      }
    }

    /** `exp2reg`. */
    method ToReg(e: ExpDesc, reg: int, ghost ext: set<nat>)
      requires Linked(e, ext)
      modifies this, e
      ensures Linked(e, ext) && (model, e.model) == Exp2Reg(old(model), old(e.model), reg)
      ensures Framed(old(code), code, ext)
    {
      hide Implements, Within, CloseLists, CodeGenModel.Discharge2Reg;
      LoadInto(e, reg, ext);
      CloseExp(e, reg, ext);
      e.k, e.t, e.f := VNonReloc(reg), NO_JUMP, NO_JUMP;
      e.model := Plainly(VNonReloc(reg));
      NoList(code);
    }

    /** `luaK_exp2nextreg`. */
    method ToNextReg(e: ExpDesc, ghost ext: set<nat>)
      requires Linked(e, ext)
      modifies this, e
      ensures Linked(e, ext) && (model, e.model) == Exp2NextReg(old(model), old(e.model))
      ensures Framed(old(code), code, ext)
    {
      hide Implements, IsList, Within, Exp2Reg, Framed;
      DischargeVar(e, ext);
      FreeExpression(e, AllPending(model, ext, e.model));
      Reserve(1, AllPending(model, ext, e.model));
      ToReg(e, freereg - 1, ext);
    }

    /** `luaK_exp2anyreg`. */
    method ToAnyReg(e: ExpDesc, ghost ext: set<nat>) returns (r: int)
      requires Linked(e, ext)
      modifies this, e
      ensures Linked(e, ext) && (model, e.model) == Exp2AnyReg(old(model), old(e.model))
      ensures Framed(old(code), code, ext) && e.k == VNonReloc(r)
    {
      hide IsList;
      DischargeVar(e, ext);
      HeadsDiffer(code, e.t, e.f, e.model.t, e.model.f);
      if e.k.VNonReloc? {
        if e.t == e.f { return e.k.reg; }
        if e.k.reg >= nactvar {
          ToReg(e, e.k.reg, ext);
          return e.k.reg;
        }
      }
      ToNextReg(e, ext);
      r := e.k.reg;
    }

    /** `luaK_exp2val`. */
    method ToVal(e: ExpDesc, ghost ext: set<nat>)
      requires Linked(e, ext)
      modifies this, e
      ensures Linked(e, ext) && (model, e.model) == Exp2Val(old(model), old(e.model))
      ensures Framed(old(code), code, ext)
    {
      HeadsDiffer(code, e.t, e.f, e.model.t, e.model.f);
      if e.t != e.f {
        var _ := ToAnyReg(e, ext);
      } else {
        DischargeVar(e, ext);
      }
    }

    /** The constant an operand denotes, in `luaK_exp2RK`. */
    method ToConstant(e: ExpDesc, ghost ext: set<nat>)
      requires Linked(e, ext)
      modifies this, e
      ensures Linked(e, ext) && (model, e.model) == Exp2K(old(model), old(e.model)) && code == old(code)
    {
      hide IsList, Implements, Within;
      ghost var open := AllPending(model, ext, e.model);
      var v: Value;
      match e.k {
        case VTrue => if |k| > MAXINDEXRK { return; } v := Bool(true);
        case VFalse => if |k| > MAXINDEXRK { return; } v := Bool(false);
        case VNil => if |k| > MAXINDEXRK { return; } v := Nil;
        case VKInt(i) => v := Int(i);
        case VKFlt(r) => v := Flt(r);
        case _ => return;
      }
      var i := AddConstant(v, open);
      e.k := VK(i);
      e.model := e.model.(k := VK(i));
    }

    /** `luaK_exp2RK`. */
    method ToRK(e: ExpDesc, ghost ext: set<nat>) returns (x: int)
      requires Linked(e, ext)
      modifies this, e
      ensures Linked(e, ext) && (model, e.model, x) == Exp2RK(old(model), old(e.model))
      ensures Framed(old(code), code, ext)
    {
      hide Exp2AnyReg;
      ToVal(e, ext);
      ToConstant(e, ext);
      if e.k.VK? && e.k.idx <= MAXINDEXRK { return e.k.idx + BITRK; }
      x := ToAnyReg(e, ext);
    }

    // ---- conditions ----

    /** `invertjump`. */
    method Invert(pc: int, ghost open: set<nat>)
      requires Valid(open) && 1 <= pc < |model.code| && Comparison(model.code[pc - 1])
      modifies this`code, this`model
      ensures Valid(open) && model == InvertJump(old(model), pc) && Framed(old(code), code, open)
    {
      hide IsList, Implements, Within, Framed;
      SameHere(pc - 1, open);
      Rewrite(pc - 1, CodeGenModel.Invert(code[pc - 1]), open);
    }

    /** A pending NOT is taken back. */
    method DropNot(ghost open: set<nat>)
      requires Valid(open) && |model.code| >= 1 && model.code[|model.code| - 1].Not? && model.jpc == {}
      modifies this`code, this`model
      ensures Valid(open) && model == old(model).(code := old(model).code[..|old(model).code| - 1])
      ensures Framed(old(code), code, open)
    {
      ghost var A := code;
      assert SameButLink(code[|code| - 1], model.code[|code| - 1], |code| - 1 in open);
      code := code[..|code| - 1];
      model := model.(code := model.code[..|model.code| - 1]);
      forall i | 0 <= i < |code| ensures SameButLink(code[i], model.code[i], i in open) {
        assert SameButLink(A[i], old(model).code[i], i in open);
      }
      ListFrame(A, code, jpc, {});
    }

    /** A test and its jump, the lists of `x` staying open. */
    method EmitExit(i: Instr, t: int, f: int, ghost x: Exp, ghost ext: set<nat>) returns (j: int)
      requires Valid(model.jpc + ext + x.t + x.f) && model.jpc !! ext !! x.t !! x.f
      requires IsList(code, t, x.t) && IsList(code, f, x.f)
      modifies this`code, this`ok, this`far, this`model, this`jpc
      ensures model == CondJump(old(model), i).0 && model.jpc == {}
      ensures Leaves(j, t, f, x, ext) && Framed(old(code), code, ext)
      ensures CondJump(old(model), i).1 == {|code| - 1}
    {
      hide Chain;
      ghost var A := code;
      ghost var open := model.jpc + ext + x.t + x.f;
      assert open - model.jpc == ext + x.t + x.f;
      j := EmitTest(i, open);
      ListFrame(A, code, t, x.t);
      ListFrame(A, code, f, x.f);
    }

    /** The code ends with a jump that is a list by itself. */
    ghost predicate Leaves(j: int, t: int, f: int, x: Exp, ext: set<nat>)
      reads this
    {
      && |code| >= 1 && IsList(code, j, {|code| - 1}) && |code| - 1 !in ext + x.t + x.f
      && Valid(ext + x.t + x.f + {|code| - 1}) && IsList(code, t, x.t) && IsList(code, f, x.f)
    }

    /** `jumponcond` on a NOT just emitted. */
    method JumpOnNot(e: ExpDesc, cond: int, ghost ext: set<nat>) returns (j: int)
      requires Linked(e, ext) && e.k.VReloc?
      modifies this
      ensures var x := e.model; var (g, P) := JumpOnCond(old(model), x, cond);
        model == g && P == {|code| - 1} && model.jpc == {} && Leaves(j, e.t, e.f, x, ext)
      ensures Framed(old(code), code, ext)
    {
      ghost var x := e.model;
      Settled(model, ext, x);
      ghost var rest := model.jpc + ext + x.t + x.f;
      assert SameButLink(code[e.k.pc], model.code[e.k.pc], e.k.pc in rest);
      ghost var A := code;
      var i := Test(code[e.k.pc].b, if cond == 0 then 1 else 0);
      DropNot(rest);
      hide Implements, Within;
      ListFrame(A, code, e.t, x.t);
      ListFrame(A, code, e.f, x.f);
      hide IsList;
      j := EmitExit(i, e.t, e.f, x, ext);
    }

    /** `jumponcond` on a value in a register. */
    method JumpOnValue(e: ExpDesc, cond: int, ghost ext: set<nat>) returns (j: int)
      requires Linked(e, ext) && !e.k.VReloc? && !e.k.VJmp? && !e.k.VLocal?
      modifies this, e
      ensures var x := old(e.model); var (g, P) := JumpOnCond(old(model), x, cond);
        model == g && P == {|code| - 1} && model.jpc == {} && Leaves(j, e.t, e.f, x, ext)
      ensures Framed(old(code), code, ext)
    {
      hide Valid, AllPending, Code, Implements, Within, IsList;
      ghost var x := e.model;
      LoadAny(e, ext);
      Settled(model, ext, e.model);
      FreeExpression(e, AllPending(model, ext, e.model));
      j := EmitExit(TestSet(NO_REG, e.k.reg, cond), e.t, e.f, x, ext);
    }

    /** `jumponcond`. */
    method JumpOn(e: ExpDesc, cond: int, ghost ext: set<nat>) returns (j: int)
      requires Linked(e, ext) && !e.k.VJmp? && !e.k.VLocal?
      modifies this, e
      ensures var x := old(e.model); var (g, P) := JumpOnCond(old(model), x, cond);
        model == g && P == {|code| - 1} && model.jpc == {} && Leaves(j, e.t, e.f, x, ext)
      ensures Framed(old(code), code, ext)
    {
      hide JumpOnCond, Implements, IsList, Within, KindHere, Pending;
      if e.k.VReloc? {
        j := JumpOnNot(e, cond, ext);
      } else {
        j := JumpOnValue(e, cond, ext);
      }
    }

    /** The lists of `x`, and one more, are open and share nothing. */
    ghost predicate Exits(j: int, t: int, f: int, x: Exp, P: set<nat>, ext: set<nat>)
      reads this
    {
      && Valid(model.jpc + ext + x.t + x.f + P) && model.jpc !! ext !! x.t !! x.f !! P
      && IsList(code, j, P) && IsList(code, t, x.t) && IsList(code, f, x.f)
    }

    lemma LeavesExits(j: int, t: int, f: int, x: Exp, ext: set<nat>)
      requires Leaves(j, t, f, x, ext) && model.jpc == {} && ext !! x.t !! x.f
      ensures Exits(j, t, f, x, {|code| - 1}, ext)
    {
      assert {} + ext + x.t + x.f + {|code| - 1} == ext + x.t + x.f + {|code| - 1};
    }

    /** The test of a condition, as `luaK_goiftrue` (`b`) and `luaK_goiffalse`
        choose it. */
    method BranchOff(e: ExpDesc, b: bool, ghost ext: set<nat>) returns (pc: int, ghost P: set<nat>)
      requires Linked(e, ext) && !e.k.VLocal?
      modifies this, e
      ensures Exits(pc, e.t, e.f, old(e.model), P, ext) && Framed(old(code), code, ext)
      ensures var x := old(e.model); var (g, d) := Branch(old(model), x, b);
        model == g && d.t == (if b then x.t else x.t + P) && d.f == (if b then x.f + P else x.f)
    {
      hide JumpOnCond, Implements, IsList;
      ghost var x := e.model;
      ghost var open := AllPending(model, ext, x);
      if e.k.VJmp? {
        pc, P := e.k.pc, {e.k.pc};
        ghost var A := code;
        if b { Invert(pc, open); }
        ListFrame(A, code, pc, P);
        ListFrame(A, code, e.t, x.t);
        ListFrame(A, code, e.f, x.f);
      } else if (if b then e.k.VK? || e.k.VKFlt? || e.k.VKInt? || e.k.VTrue? else e.k.VNil? || e.k.VFalse?) {
        pc, P := NO_JUMP, {};
        NoList(code);
        assert open + {} == open;
      } else {
        hide JumpOnCond, Implements, IsList;
        pc := JumpOn(e, if b then 0 else 1, ext);
        P := {|code| - 1};
        LeavesExits(pc, e.t, e.f, x, ext);
      }
    }

    /** The end of both: the new jump joins the list of exits that leave, the
        others are to go on here. */
    method GoOn(away: int, pc: int, here: int, ghost S: set<nat>, ghost P: set<nat>, ghost H: set<nat>, ghost ext: set<nat>)
      returns (l: int)
      requires Valid(model.jpc + ext + S + P + H) && model.jpc !! ext !! S !! P !! H
      requires IsList(code, away, S) && IsList(code, pc, P) && IsList(code, here, H)
      modifies this`code, this`ok, this`far, this`model, this`jpc, this`lasttarget
      ensures model == PatchToHere(old(model), H) && Framed(old(code), code, ext)
      ensures Valid(model.jpc + ext + (S + P)) && model.jpc !! ext !! S + P && IsList(code, l, S + P)
    {
      hide Implements, IsList, Within;
      ghost var open := model.jpc + ext + S + P + H;
      ghost var A, m0 := code, model;
      l := ConcatOpen(away, pc, S, P, open);
      ListFrame(A, code, here, H);
      ghost var B := code;
      PatchHere(here, H, open);
      assert open == model.jpc + ext + (S + P);
      ListFrame(B, code, l, S + P);
      FramedTrans(A, B, code, ext, ext);
    }

    ghost predicate Parted(e: ExpDesc, r: Exp, ext: set<nat>)
      reads this, e
    {
      && Valid(model.jpc + ext + r.t + r.f) && model.jpc !! ext !! r.t !! r.f
      && IsList(code, e.t, r.t) && IsList(code, e.f, r.f)
    }

    /** The false exits, with a new one, are kept; the true exits end here. */
    method KeepFalse(e: ExpDesc, pc: int, ghost x: Exp, ghost P: set<nat>, ghost ext: set<nat>)
      requires Exits(pc, e.t, e.f, x, P, ext)
      modifies this`code, this`ok, this`far, this`model, this`jpc, this`lasttarget, e`t, e`f
      ensures model == PatchToHere(old(model), x.t) && Framed(old(code), code, ext)
      ensures Parted(e, Lists({}, x.f + P), ext)
    {
      hide Implements, IsList, Within, PatchToHere;
      assert model.jpc + ext + x.f + P + x.t == model.jpc + ext + x.t + x.f + P;
      e.f := GoOn(e.f, pc, e.t, x.f, P, x.t, ext);
      e.t := NO_JUMP;
      NoList(code);
      assert model.jpc + ext + {} + (x.f + P) == model.jpc + ext + (x.f + P);
    }

    method KeepTrue(e: ExpDesc, pc: int, ghost x: Exp, ghost P: set<nat>, ghost ext: set<nat>)
      requires Exits(pc, e.t, e.f, x, P, ext)
      modifies this`code, this`ok, this`far, this`model, this`jpc, this`lasttarget, e`t, e`f
      ensures model == PatchToHere(old(model), x.f) && Framed(old(code), code, ext)
      ensures Parted(e, Lists(x.t + P, {}), ext)
    {
      hide Implements, IsList, Within, PatchToHere;
      assert model.jpc + ext + x.t + P + x.f == model.jpc + ext + x.t + x.f + P;
      e.t := GoOn(e.t, pc, e.f, x.t, P, x.f, ext);
      e.f := NO_JUMP;
      NoList(code);
      assert model.jpc + ext + (x.t + P) + {} == model.jpc + ext + (x.t + P);
    }

    /** `luaK_goiftrue`. */
    method TurnTrue(e: ExpDesc, ghost ext: set<nat>)
      requires Linked(e, ext)
      modifies this, e
      ensures model == GoIf(old(model), old(e.model), true).0
      ensures Parted(e, GoIf(old(model), old(e.model), true).1, ext) && Framed(old(code), code, ext)
    {
      hide Implements, IsList, Within, Branch, GoIf, GoIfTrue, PatchToHere, KindHere, AllPending;
      GoIfIsBranch(model, e.model, true);
      DischargeVar(e, ext);
      ghost var x := e.model;
      var pc, P := BranchOff(e, true, ext);
      KeepFalse(e, pc, x, P, ext);
    }

    /** `luaK_goiffalse`. */
    method TurnFalse(e: ExpDesc, ghost ext: set<nat>)
      requires Linked(e, ext)
      modifies this, e
      ensures model == GoIf(old(model), old(e.model), false).0
      ensures Parted(e, GoIf(old(model), old(e.model), false).1, ext) && Framed(old(code), code, ext)
    {
      hide Implements, IsList, Within, Branch, GoIf, GoIfFalse, PatchToHere, KindHere, AllPending;
      GoIfIsBranch(model, e.model, false);
      DischargeVar(e, ext);
      ghost var x := e.model;
      var pc, P := BranchOff(e, false, ext);
      KeepTrue(e, pc, x, P, ext);
    }

    // ---- codenot ----

    /** A NOT of the value in a register. */
    method EmitNot(e: ExpDesc, ghost ext: set<nat>)
      requires Linked(e, ext) && e.k.VNonReloc?
      modifies this, e
      ensures Linked(e, ext) && model == Code(old(model), Not(0, old(e.k.reg)))
      ensures e.model == old(e.model).(k := VReloc(|old(model).code|)) && Framed(old(code), code, ext)
    {
      ghost var A, m0, x := code, model, e.model;
      var pc := Emit(Not(0, e.k.reg), AllPending(model, ext, x));
      e.k := VReloc(pc);
      e.model := x.(k := VReloc(pc));
      hide Implements, IsList, Within;
      Settled(m0, ext, x);
      assert AllPending(model, ext, e.model) == ext + x.t + x.f;
      ListFrame(A, code, e.t, x.t);
      ListFrame(A, code, e.f, x.f);
    }

    method NotRegister(e: ExpDesc, ghost ext: set<nat>)
      requires Linked(e, ext) && !e.k.VLocal? && !e.k.VJmp?
      modifies this, e
      ensures Linked(e, ext) && Framed(old(code), code, ext) && e.model.t == old(e.model.t) && e.model.f == old(e.model.f)
      ensures var (g, r) := Discharge2AnyReg(old(model), old(e.model)); var h := FreeExp(g, r);
        r.k.VNonReloc? && model == Code(h, Not(0, r.k.reg)) && e.k == VReloc(|h.code|)
    {
      LoadAny(e, ext);
      hide Implements, IsList, Within, Code, Discharge2AnyReg;
      FreeExpression(e, AllPending(model, ext, e.model));
      EmitNot(e, ext);
    }

    method InvertComparison(e: ExpDesc, ghost ext: set<nat>)
      requires Linked(e, ext) && e.k.VJmp?
      modifies this`code, this`model
      ensures Linked(e, ext) && Framed(old(code), code, ext) && model == InvertJump(old(model), e.k.pc)
    {
      ghost var A := code;
      Invert(e.k.pc, AllPending(model, ext, e.model));
      ListFrame(A, code, e.k.pc, {e.k.pc});
      ListFrame(A, code, e.t, e.model.t);
      ListFrame(A, code, e.f, e.model.f);
    }

    /** The value of `codenot`, before the exits are exchanged. */
    method NotValue(e: ExpDesc, ghost ext: set<nat>)
      requires Linked(e, ext) && !e.k.VLocal?
      modifies this, e
      ensures Linked(e, ext) && Framed(old(code), code, ext)
      ensures var (g, k) := NotKind(old(model), old(e.model)); model == g && e.model == old(e.model).(k := k)
    {
      hide Implements, IsList, Code, Discharge2AnyReg, InvertJump, FreeExp;
      if e.k.VNil? || e.k.VFalse? {
        e.k := VTrue;
      } else if e.k.VK? || e.k.VKFlt? || e.k.VKInt? || e.k.VTrue? {
        e.k := VFalse;
      } else if e.k.VJmp? {
        InvertComparison(e, ext);
      } else {
        NotRegister(e, ext);
      }
      e.model := e.model.(k := e.k);
    }

    /** The exits are exchanged and lose their values. */
    method ExchangeExits(e: ExpDesc, ghost ext: set<nat>)
      requires Linked(e, ext)
      modifies this, e
      ensures Linked(e, ext) && Framed(old(code), code, ext) && e.model == Exp(old(e.model).k, old(e.model).f, old(e.model).t)
      ensures model == old(model).(code := Bare(old(model).code, old(e.model).t, old(e.model).f))
    {
      hide RemoveValues, Chain;
      ghost var A, m0, x, open := code, model, e.model, AllPending(model, ext, e.model);
      e.t, e.f := e.f, e.t;
      RemoveOpen(e.f, x.t, open);
      ghost var B := code;
      ListFrame(A, B, e.t, x.f);
      RemoveOpen(e.t, x.f, open);
      e.model := Exp(x.k, x.f, x.t);
      BareHere(m0, ext, x);
      FramedTrans(A, B, code, open, open);
      FramedTrans(A, B, code, open, ext);
      ListFrame(A, code, e.t, x.f);
      ListFrame(A, code, e.f, x.t);
      if e.k.VJmp? { ListFrame(A, code, e.k.pc, {e.k.pc}); }
    }

    /** `codenot`. */
    method Negate(e: ExpDesc, ghost ext: set<nat>)
      requires Linked(e, ext)
      modifies this, e
      ensures Linked(e, ext) && (model, e.model) == CodeNot(old(model), old(e.model)) && Framed(old(code), code, ext)
    {
      hide RemoveValues, Implements, IsList, Within, NotKind, CodeNot, Bare;
      CodeNotIsSwap(model, e.model);
      DischargeVar(e, ext);
      NotValue(e, ext);
      ExchangeExits(e, ext);
    }

    lemma RemoveKeepsJumps(code: seq<Instr>, S: set<nat>, i: nat)
      ensures var r := RemoveValues(code, S); |r| == |code| && (i < |code| && code[i].Jmp? ==> r[i].Jmp?)
    {
    }

    /** `removevalues` on an open list. */
    method RemoveOpen(list: int, ghost S: set<nat>, ghost open: set<nat>)
      requires Valid(open) && IsList(code, list, S) && S <= open
      modifies this`code, this`model
      ensures Valid(open) && model == old(model).(code := RemoveValues(old(model).code, S)) && Framed(old(code), code, open)
    {
      hide RemoveValues, Implements, IsList;
      ghost var A := code;
      RemoveKeepsJumps(model.code, S, far);
      RemoveImplements(code, model.code, open, S);
      RemoveListValues(list, S);
      model := model.(code := RemoveValues(model.code, S));
      ListFrame(A, code, jpc, model.jpc);
    }

    // ---- operators ----

    /** The jumps that belong to a descriptor. */
    ghost function Own(e: Exp): set<nat> {
      if e.k.VJmp? && e.k.pc >= 0 then e.t + e.f + {e.k.pc} else e.t + e.f
    }

    /** The first operand of a comparison, converted again when the second is
        complete: nothing happens. */
    method FirstOperand(e1: ExpDesc, e2: ExpDesc, ghost x: int, ghost ext: set<nat>) returns (o: int)
      requires e1 != e2 && Linked(e2, ext) && e1.Is(code) && Operand(model, e1.model, x)
      modifies this, e1
      ensures Linked(e2, ext) && e1.Is(code) && model == old(model) && e1.model == old(e1.model) && o == x
      ensures Framed(old(code), code, ext)
    {
      ghost var A, own := code, ext + Own(e2.model);
      Exp2RKTwice(model, e1.model, x);
      assert AllPending(model, own, e1.model) == AllPending(model, ext, e2.model);
      o := ToRK(e1, own);
      ListFrame(A, code, e2.t, e2.model.t);
      ListFrame(A, code, e2.f, e2.model.f);
      if e2.k.VJmp? { ListFrame(A, code, e2.k.pc, {e2.k.pc}); }
    }

    /** `codecomp`. */
    method EmitComparison(op: CmpOp, e1: ExpDesc, e2: ExpDesc, ghost x: int, ghost ext: set<nat>)
      requires e1 != e2 && Linked(e2, ext) && e1.Is(code) && Operand(model, e1.model, x)
      modifies this, e1, e2
      ensures Linked(e1, ext) && (model, e1.model) == CodeComp(old(model), op, old(e1.model), old(e2.model))
      ensures Framed(old(code), code, ext)
    {
      hide Implements, IsList, Within, Exp2RK, CodeComp;
      CodeCompIs(model, op, e1.model, x, e2.model);
      var o1 := FirstOperand(e1, e2, x, ext);
      Exp2RKOperand(model, e2.model);
      var o2 := ToRK(e2, ext);
      FinishComparison(op, o1, o2, e1, e2, ext);
    }

    method FinishComparison(op: CmpOp, o1: int, o2: int, e1: ExpDesc, e2: ExpDesc, ghost ext: set<nat>)
      requires e1 != e2 && Linked(e2, ext) && Operand(model, e2.model, o2) && Operand(model, e1.model, o1) && e1.k == e1.model.k
      modifies this, e1
      ensures var (g, P) := CondJump(FreeExp(FreeExp(old(model), e2.model), old(e1.model)), CmpInstr(op, o1, o2));
        model == g && e1.model == Plainly(VJmp(|g.code| - 1))
      ensures Linked(e1, ext) && Framed(old(code), code, ext)
    {
      hide IsList;
      ghost var open := AllPending(model, ext, e2.model);
      assert open == model.jpc + ext;
      FreeExpression(e2, open);
      FreeExpression(e1, open);
      EmitCompare(CmpInstr(op, o1, o2), e1, ext);
    }

    method EmitCompare(i: Instr, e: ExpDesc, ghost ext: set<nat>)
      requires Valid(model.jpc + ext) && model.jpc !! ext && Comparison(i)
      modifies this, e
      ensures model == CondJump(old(model), i).0 && e.model == Plainly(VJmp(|model.code| - 1))
      ensures Linked(e, ext) && Framed(old(code), code, ext)
    {
      hide KindHere;
      assert model.jpc + ext - model.jpc == ext;
      ComparedHere(model, i, ext);
      hide Implements, IsList, Within, CondJump, Apart, AllPending, Comparison;
      var j := EmitTest(i, model.jpc + ext);
      e.k, e.t, e.f := VJmp(j), NO_JUMP, NO_JUMP;
      e.model := Plainly(VJmp(j));
      NoList(code);
    }

    /** `luaK_posfix` for `and` and `or`: the exits of the first operand join
        those of the second. */
    method JoinExits(e2: ExpDesc, e1: ExpDesc, isAnd: bool, ghost r: Exp, ghost ext: set<nat>)
      requires e1 != e2 && Linked(e2, ext + r.t + r.f) && ext !! r.t !! r.f
      requires IsList(code, e1.t, r.t) && IsList(code, e1.f, r.f) && (if isAnd then r.t == {} else r.f == {})
      modifies this, e2
      ensures Linked(e2, ext) && model == old(model) && e2.model == Join(r, DischargeVars(old(e2.model)), isAnd)
      ensures Framed(old(code), code, ext)
    {
      hide IsList;
      DischargeVar(e2, ext + r.t + r.f);
      ghost var A, d := code, e2.model;
      ghost var open := AllPending(model, ext + r.t + r.f, d);
      JoinApart(model, ext, r, d, isAnd);
      if isAnd {
        e2.f := ConcatOpen(e2.f, e1.f, d.f, r.f, open);
        ListFrame(A, code, e2.t, d.t);
      } else {
        e2.t := ConcatOpen(e2.t, e1.t, d.t, r.t, open);
        ListFrame(A, code, e2.f, d.f);
      }
      if e2.k.VJmp? { ListFrame(A, code, e2.k.pc, {e2.k.pc}); }
      e2.model := Join(r, d, isAnd);
    }

    lemma CodeLength(open: set<nat>)
      requires Valid(open)
      ensures |code| == |model.code| && nactvar == model.nactvar && k == model.k && maxstack == model.maxstack && (ok ==> model.ok)
    {
    }

    /** A description without jumps leaves nothing more to patch. */
    method Describe(k: Kind, ghost ext: set<nat>) returns (e: ExpDesc)
      requires Valid(model.jpc + ext) && model.jpc !! ext && !k.VJmp? && KindHere(model, Plainly(k))
      ensures fresh(e) && Linked(e, ext) && e.model == Plainly(k)
    {
      hide IsList, Implements;
      assert model.jpc + ext + {} + {} == model.jpc + ext;
      e := new ExpDesc(k);
    }

    /** `simpleexp`, for a name or a constant. */
    method LeafExpr(a: Syntax.Operand, ghost ext: set<nat>) returns (e: ExpDesc)
      requires Valid(model.jpc + ext) && model.jpc !! ext
      modifies this
      ensures fresh(e) && Linked(e, ext) && (model, e.model) == Gen(old(model), LowerLeaf(a))
      ensures Framed(old(code), code, ext)
    {
      hide IsList, Implements, AddK;
      match a
      case NilWord => e := Describe(VNil, ext);
      case TrueWord => e := Describe(VTrue, ext);
      case FalseWord => e := Describe(VFalse, ext);
      case Integer(i) => e := Describe(VKInt(i), ext);
      case Float(r) => e := Describe(VKFlt(r), ext);
      case Text(s) =>
        AddKJumps(model, Str(s));
        var i := AddConstant(Str(s), model.jpc + ext);
        e := Describe(VK(i), ext);
      case Local(r) => e := Describe(VLocal(r), ext);
    }

    /** What stands before the first binary operator. */
    method FirstExpr(ts: seq<Syntax.Token>, ghost ext: set<nat>) returns (ok: bool, e: ExpDesc, rest: seq<Syntax.Token>)
      requires Valid(model.jpc + ext) && model.jpc !! ext
      modifies this
      ensures fresh(e) && ok == PlainFirst(ts)
      ensures ok ==> var p := Syntax.ParseFirst(ts).value;
        rest == p.rest && (model, e.model) == Gen(old(model), Lower(p.t))
      ensures ok ==> Linked(e, ext) && Framed(old(code), code, ext)
      decreases |ts|, 0
    {
      hide Linked, Framed, Valid, Syntax.ParseSub, CodeNot, DischargeVars, LowerLeaf, CodeComp, Exp2RK, Discharge2Reg;
      if ts == [] {
        e := new ExpDesc(VNil);
        return false, e, [];
      }
      if Syntax.UnOpOf(ts[0]).Some? {
        if !Syntax.UnOpOf(ts[0]).value.Not? {
          e := new ExpDesc(VNil);
          return false, e, [];
        }
        ok, e, rest := SubExpr(ts[1..], Syntax.UNARY_PRIORITY, ext);
        if ok { NegateAfter(e, ext, old(code)); }
      } else {
        match ts[0]
        case Opnd(a) =>
          e := LeafExpr(a, ext);
          return true, e, ts[1..];
        case Open =>
          ok, e, rest := SubExpr(ts[1..], 0, ext);
          if !ok || rest == [] || rest[0] != Syntax.Close { return false, e, []; }
          rest := rest[1..];
          DischargeVar(e, ext);
        case _ =>
          e := new ExpDesc(VNil);
          return false, e, [];
      }
    }

    method NegateAfter(e: ExpDesc, ghost ext: set<nat>, ghost A: seq<Instr>)
      requires Linked(e, ext) && Framed(A, code, ext)
      modifies this, e
      ensures Linked(e, ext) && (model, e.model) == CodeNot(old(model), old(e.model)) && Framed(A, code, ext)
    {
      ghost var B := code;
      Negate(e, ext);
      FramedTrans(A, B, code, ext, ext);
    }

    /** `subexpr`: the code of an expression, read token by token. It gives up at a
        syntax error, and at an operator that is not modelled; otherwise the code is that of the tree that was read. */
    method SubExpr(ts: seq<Syntax.Token>, limit: nat, ghost ext: set<nat>) returns (ok: bool, e: ExpDesc, rest: seq<Syntax.Token>)
      requires Valid(model.jpc + ext) && model.jpc !! ext
      modifies this
      ensures fresh(e) && ok == PlainSub(ts, limit)
      ensures ok ==> var p := Syntax.ParseSub(ts, limit).value;
        rest == p.rest && (model, e.model) == Gen(old(model), Lower(p.t))
      ensures ok ==> Linked(e, ext) && Framed(old(code), code, ext)
      decreases |ts|, 1
    {
      hide Linked, Framed, Gen, Valid, IsPlain, Lower, Syntax.ParseFirst;
      ghost var m0, A := model, code;
      ok, e, rest := FirstExpr(ts, ext);
      if !ok {
        FirstNotPlain(ts, limit);
        return;
      }
      ghost var t := Syntax.ParseFirst(ts).value.t;
      var op := Syntax.NextOp(rest);
      while op.Some? && Syntax.Left(op.value) > limit
        invariant fresh(e) && |rest| < |ts| && op == Syntax.NextOp(rest) && IsPlain(t)
        invariant (model, e.model) == Gen(m0, Lower(t)) && Linked(e, ext) && Framed(A, code, ext)
        invariant Syntax.Expand(t, rest, limit) == Syntax.ParseSub(ts, limit)
        decreases |rest|
      {
        ghost var before := rest;
        if !PlainOp(op.value) {
          ExpandNotPlain(t, before, limit);
          return false, e, rest;
        }
        ghost var p := Syntax.ParseSub(rest[1..], Syntax.Right(op.value));
        ghost var x := Lower(t);
        ok, e, rest := Operator(op.value, e, rest[1..], m0, x, A, ext);
        if !ok {
          ExpandNotPlain(t, before, limit);
          return;
        }
        LowerBin(op.value, t, p.value.t);
        t := Syntax.Bin(op.value, t, p.value.t);
        op := Syntax.NextOp(rest);
      }
    }

    /** An operator after the operand `e`, which is that of `x`: `luaK_infix`, the
        second operand, and `luaK_posfix`. */
    method Operator(op: Syntax.BinOp, e1: ExpDesc, ts: seq<Syntax.Token>, ghost m0: Fs, ghost x: Expr, ghost A: seq<Instr>, ghost ext: set<nat>)
      returns (ok: bool, e: ExpDesc, rest: seq<Syntax.Token>)
      requires Linked(e1, ext) && (model, e1.model) == Gen(m0, x) && Framed(A, code, ext) && PlainOp(op)
      modifies this, e1
      ensures (fresh(e) || e == e1) && ok == PlainSub(ts, Syntax.Right(op))
      ensures ok ==> var p := Syntax.ParseSub(ts, Syntax.Right(op)).value;
        rest == p.rest && (model, e.model) == Gen(m0, Combine(op, x, Lower(p.t)))
      ensures ok ==> Linked(e, ext) && Framed(A, code, ext)
      decreases |ts|, 4
    {
      hide Linked, Framed, Gen, Valid, IsPlain, Lower, Syntax.ParseSub;
      if op.Compare? {
        ok, rest := CompareExpr(op, e1, ts, m0, x, A, ext);
        e := e1;
      } else {
        ok, e, rest := LogicExpr(op, e1, ts, m0, x, A, ext);
      }
    }

    /** `luaK_infix` of `and` and `or`. */
    method LogicInfix(isAnd: bool, e: ExpDesc, ghost ext: set<nat>) returns (ghost r: Exp)
      requires Linked(e, ext)
      modifies this, e
      ensures (model, r) == GoIf(old(model), old(e.model), isAnd)
      ensures Parted(e, r, ext) && Framed(old(code), code, ext)
      ensures if isAnd then r.t == {} else r.f == {}
    {
      hide Implements, IsList, Within, GoIf, AllPending, KindHere;
      r := GoIf(model, e.model, isAnd).1;
      GoIfCloses(model, e.model, isAnd);
      if isAnd { TurnTrue(e, ext); } else { TurnFalse(e, ext); }
    }

    /** The second operand of `and` or `or`, and `luaK_posfix`. */
    method LogicSecond(op: Syntax.BinOp, e1: ExpDesc, ts: seq<Syntax.Token>, ghost r: Exp, ghost ext: set<nat>)
      returns (ok: bool, e: ExpDesc, rest: seq<Syntax.Token>)
      requires Parted(e1, r, ext) && (op.And? || op.Or?) && (if op.And? then r.t == {} else r.f == {})
      modifies this
      ensures fresh(e) && ok == PlainSub(ts, Syntax.Right(op))
      ensures ok ==> var p := Syntax.ParseSub(ts, Syntax.Right(op)).value;
        && rest == p.rest
        && var (g, d) := Gen(old(model), Lower(p.t)); model == g && e.model == Join(r, DischargeVars(d), op.And?)
      ensures ok ==> Linked(e, ext) && Framed(old(code), code, ext)
      decreases |ts|, 2
    {
      hide Implements, IsList, Within, Gen, AllPending, KindHere, Join, DischargeVars, IsPlain, Lower, Syntax.ParseSub;
      ghost var A, own := code, ext + r.t + r.f;
      assert model.jpc + own == model.jpc + ext + r.t + r.f;
      ok, e, rest := SubExpr(ts, Syntax.Right(op), own);
      if !ok { return; }
      ghost var B := code;
      ListFrame(A, B, e1.t, r.t);
      ListFrame(A, B, e1.f, r.f);
      JoinExits(e, e1, op.And?, r, ext);
      FramedTrans(A, B, B, own, ext);
      FramedTrans(A, B, code, ext, ext);
    }

    method LogicExpr(op: Syntax.BinOp, e1: ExpDesc, ts: seq<Syntax.Token>, ghost m0: Fs, ghost x: Expr, ghost A: seq<Instr>, ghost ext: set<nat>)
      returns (ok: bool, e: ExpDesc, rest: seq<Syntax.Token>)
      requires Linked(e1, ext) && (model, e1.model) == Gen(m0, x) && Framed(A, code, ext) && (op.And? || op.Or?)
      modifies this, e1
      ensures fresh(e) && ok == PlainSub(ts, Syntax.Right(op))
      ensures ok ==> var p := Syntax.ParseSub(ts, Syntax.Right(op)).value;
        rest == p.rest && (model, e.model) == Gen(m0, ELogic(op.And?, x, Lower(p.t)))
      ensures ok ==> Linked(e, ext) && Framed(A, code, ext)
      decreases |ts|, 3
    {
      hide *;
      ghost var B := code;
      ghost var r := LogicInfix(op.And?, e1, ext);
      ghost var C := code;
      FramedTrans(A, B, C, ext, ext);
      ok, e, rest := LogicSecond(op, e1, ts, r, ext);
      if !ok { return; }
      PlainSubIs(ts, Syntax.Right(op));
      GenLogicIs(m0, op.And?, x, Lower(Syntax.ParseSub(ts, Syntax.Right(op)).value.t));
      FramedTrans(A, C, code, ext, ext);
    }

    /** `luaK_infix` of a comparison. */
    method CompareInfix(e: ExpDesc, ghost ext: set<nat>) returns (ghost x: int)
      requires Linked(e, ext)
      modifies this, e
      ensures (model, e.model, x) == Exp2RK(old(model), old(e.model))
      ensures Linked(e, ext) && Operand(model, e.model, x) && Framed(old(code), code, ext)
    {
      hide Implements, IsList, Within, Exp2RK, AllPending, KindHere;
      Exp2RKOperand(model, e.model);
      var o := ToRK(e, ext);
      x := o;
    }

    method CompareSecond(op: Syntax.BinOp, e1: ExpDesc, ts: seq<Syntax.Token>, ghost x: int, ghost ext: set<nat>)
      returns (ok: bool, rest: seq<Syntax.Token>)
      requires Linked(e1, ext) && Operand(model, e1.model, x) && op.Compare?
      modifies this, e1
      ensures ok == PlainSub(ts, Syntax.Right(op))
      ensures ok ==> var p := Syntax.ParseSub(ts, Syntax.Right(op)).value;
        && rest == p.rest
        && var (g, d) := Gen(old(model), Lower(p.t)); (model, e1.model) == CodeComp(g, op.rel, old(e1.model), d)
      ensures ok ==> Linked(e1, ext) && Framed(old(code), code, ext)
      decreases |ts|, 2
    {
      ghost var A, d := code, e1.model;
      assert AllPending(model, ext, d) == model.jpc + ext;
      hide Implements, IsList, Within, Exp2RK, Gen, AllPending, KindHere, CodeComp, IsPlain, Lower, Syntax.ParseSub;
      var e2;
      ok, e2, rest := SubExpr(ts, Syntax.Right(op), ext);
      if !ok { return; }
      ghost var B := code;
      NoLists(A, B, e1.t, e1.f, d);
      EmitComparison(op.rel, e1, e2, x, ext);
      FramedTrans(A, B, code, ext, ext);
    }

    method CompareExpr(op: Syntax.BinOp, e1: ExpDesc, ts: seq<Syntax.Token>, ghost m0: Fs, ghost x: Expr, ghost A: seq<Instr>, ghost ext: set<nat>)
      returns (ok: bool, rest: seq<Syntax.Token>)
      requires Linked(e1, ext) && (model, e1.model) == Gen(m0, x) && Framed(A, code, ext) && op.Compare?
      modifies this, e1
      ensures ok == PlainSub(ts, Syntax.Right(op))
      ensures ok ==> var p := Syntax.ParseSub(ts, Syntax.Right(op)).value;
        rest == p.rest && (model, e1.model) == Gen(m0, ECompare(op.rel, x, Lower(p.t)))
      ensures ok ==> Linked(e1, ext) && Framed(A, code, ext)
      decreases |ts|, 3
    {
      hide *;
      ghost var B := code;
      ghost var o := CompareInfix(e1, ext);
      ghost var C := code;
      FramedTrans(A, B, C, ext, ext);
      ok, rest := CompareSecond(op, e1, ts, o, ext);
      if !ok { return; }
      PlainSubIs(ts, Syntax.Right(op));
      GenCompareIs(m0, op.rel, x, Lower(Syntax.ParseSub(ts, Syntax.Right(op)).value.t));
      FramedTrans(A, C, code, ext, ext);
    }

    /** The statement `x` cost no more than its bound, and within the limits it has
        raised no error. */
    twostate predicate Cheap(x: Expr, lo: int)
      reads this
    {
      && |code| <= old(|code|) + CodeCost(x) + 5 && |k| <= old(|k|) + ConstCost(x) + 1
      && (lo + Need(x) < MAXREGS ==> maxstack <= Max(old(maxstack), lo + Need(x)))
      && (old(ok) && |code| < MAXARG_sBx && |k| <= MAXARG_Ax && maxstack < MAXREGS ==> ok)
    }

    lemma CheapIs(m0: Fs, x: Expr, lo: int, ok0: bool)
      requires Valid(model.jpc) && Bounded(m0, model, x, lo) && (ok0 ==> m0.ok)
      ensures |code| <= |m0.code| + CodeCost(x) + 5 && |k| <= |m0.k| + ConstCost(x) + 1
      ensures lo + Need(x) < MAXREGS ==> maxstack <= Max(m0.maxstack, lo + Need(x))
      ensures ok0 && |code| < MAXARG_sBx && |k| <= MAXARG_Ax && maxstack < MAXREGS ==> ok
    {
      hide IsList;
    }

    /** The code for the tokens of an expression, into the first free register, up
        to the point where the next instruction would be emitted: the code in
        memory computes the value of the expression that the grammar derives from
        them. No error is raised but for the limits, and what is needed is bounded. */
    method CompileExpression(ts: seq<Syntax.Token>, ghost lo: int) returns (parsed: bool, rest: seq<Syntax.Token>)
      requires Valid(model.jpc) && Between(model, lo) && Compilable(ts, nactvar)
      modifies this
      ensures parsed <==> exists t, r :: Grammar.Expression(t, ts, r)
      ensures forall t, r | Grammar.Expression(t, ts, r) ::
        && rest == r && (freereg == lo + 1 || !ok) && Cheap(Lower(t), lo)
        && forall E: Env, R0: Regs | ok && k <= E.k :: Computes(E, old(model), code, R0, t, lo, lo, -1)
    {
      hide Implements, IsList, Within, Gen, KindHere, IsPlain, Lower, LocalsIn, Syntax.ParseSub, Grammar.Expression;
      ghost var m0, ok0 := model, ok;
      CodeLength(model.jpc);
      assert model.jpc + {} == model.jpc;
      ReadIs(ts, nactvar);
      var e;
      parsed, e, rest := SubExpr(ts, 0, {});
      if !parsed { return; }
      ghost var t := Syntax.ParseSub(ts, 0).value.t;
      Deliver(e, t, lo, m0);
      CheapIs(m0, Lower(t), lo, ok0);
    }

    /** The end of it: the value into the next register. */
    method Deliver(e: ExpDesc, ghost t: Syntax.Tree, ghost lo: int, ghost m0: Fs)
      requires IsPlain(t) && Linked(e, {}) && (model, e.model) == Gen(m0, Lower(t)) && Between(m0, lo) && LocalsIn(Lower(t), m0.nactvar)
      modifies this, e
      ensures freereg == lo + 1 || !ok
      ensures forall E: Env, R0: Regs | ok && k <= E.k :: Computes(E, m0, code, R0, t, lo, lo, -1)
      ensures Valid(model.jpc) && Bounded(m0, model, Lower(t), lo)
    {
      hide Bounded, Gen, Lower, Meaning, Eval;
      ghost var x := Lower(t);
      ExpressionBounded(m0, x, lo);
      ToNextReg(e, {});
      assert AllPending(model, {}, e.model) == model.jpc;
      ghost var h := model;
      DischargeJpc(model.jpc);
      NothingOpen(code, model.code);
      forall E: Env, R0: Regs | ok && k <= E.k ensures Computes(E, m0, code, R0, t, lo, lo, -1) {
        LowerMeans(E, AtEntry(m0, R0), t);
        var n, S := ExpressionRuns(E, m0, x, lo, R0);
      }
      if ok {
        BetweenStart(Env(k, (v, w) => true, (v, w) => true, (v, w) => true), m0, lo, map[]);
        OperandCompiles(Ctx(Env(k, (v, w) => true, (v, w) => true, (v, w) => true), Entry(m0), map[]), At(|m0.code|, AtEntry(m0, map[])), m0, {}, x, lo);
      }
    }

    /** `luaK_storevar` on a local variable. */
    method StoreLocal(e: ExpDesc, reg: int)
      requires Linked(e, {})
      modifies this, e
      ensures model == Discharge(Exp2Reg(FreeExp(old(model), old(e.model)), old(e.model), reg).0)
      ensures code == model.code && k == model.k && (ok ==> model.ok) && Valid(model.jpc)
    {
      FreeExpression(e, AllPending(model, {}, e.model));
      hide Exp2Reg, FreeExp;
      ToReg(e, reg, {});
      assert AllPending(model, {}, e.model) == model.jpc;
      DischargeJpc(model.jpc);
      NothingOpen(code, model.code);
    }

    /** The same for an assignment to a local variable. */
    method CompileAssignment(ts: seq<Syntax.Token>, reg: int, ghost lo: int) returns (parsed: bool, rest: seq<Syntax.Token>)
      requires Valid(model.jpc) && Between(model, lo) && Compilable(ts, nactvar) && 0 <= reg < nactvar
      modifies this
      ensures parsed <==> exists t, r :: Grammar.Expression(t, ts, r)
      ensures forall t, r | Grammar.Expression(t, ts, r) ::
        && rest == r && Cheap(Lower(t), lo)
        && forall E: Env, R0: Regs | ok && k <= E.k :: Computes(E, old(model), code, R0, t, lo, reg, reg)
    {
      hide Exp2Reg, FreeExp, Implements, IsList, Within, Gen, KindHere, IsPlain, Lower, LocalsIn, Syntax.ParseSub, Grammar.Expression, Meaning, Eval;
      ghost var m0, ok0 := model, ok;
      CodeLength(model.jpc);
      assert model.jpc + {} == model.jpc;
      ReadIs(ts, nactvar);
      var e;
      parsed, e, rest := SubExpr(ts, 0, {});
      if !parsed { return; }
      ghost var t := Syntax.ParseSub(ts, 0).value.t;
      ghost var x := Lower(t);
      StoreLocal(e, reg);
      AssignmentBounded(m0, x, lo, reg);
      CheapIs(m0, x, lo, ok0);
      forall E: Env, R0: Regs | ok && k <= E.k ensures Computes(E, m0, code, R0, t, lo, reg, reg) {
        LowerMeans(E, AtEntry(m0, R0), t);
        var n, S := AssignmentRuns(E, m0, x, lo, reg, R0);
      }
    }
  }
}
