/** Jump lists as they are stored: the destination field of a pending jump links
  it to the next jump of its list. */
module CodeGenLists {
  import opened LuaVm
  import opened CodeGenModel
  import opened CodeGenSim

  function GetJump(code: seq<Instr>, pc: nat): int
    requires pc < |code| && code[pc].Jmp?
  {
    if code[pc].sbx == NO_JUMP then NO_JUMP else pc + 1 + code[pc].sbx
  }

  /** From `l` the links lead through exactly the jumps `s`, in this order. */
  ghost predicate Chain(code: seq<Instr>, l: int, s: seq<nat>)
    decreases |s|
  {
    if s == [] then l == NO_JUMP
    else
      && l == s[0] && s[0] < |code| && code[s[0]].Jmp? && s[0] !in s[1..]
      && Chain(code, GetJump(code, s[0]), s[1..])
  }

  ghost function Members(s: seq<nat>): set<nat> {
    set p | p in s
  }

  ghost predicate IsList(code: seq<Instr>, l: int, S: set<nat>) {
    exists s :: Chain(code, l, s) && Members(s) == S
  }

  /** A list ends and never comes back to a jump: it is one sequence only. */
  lemma {:induction false} ChainUnique(code: seq<Instr>, l: int, s: seq<nat>, t: seq<nat>)
    requires Chain(code, l, s) && Chain(code, l, t)
    ensures s == t
    decreases |s|
  {
    if s != [] {
      assert t != [];
      ChainUnique(code, GetJump(code, s[0]), s[1..], t[1..]);
      assert s == [s[0]] + s[1..] && t == [t[0]] + t[1..];
    }
  }

  /** The head of a list says which jumps are on it. */
  lemma ListUnique(code: seq<Instr>, l: int, S: set<nat>, T: set<nat>)
    requires IsList(code, l, S) && IsList(code, l, T)
    ensures S == T
  {
    var s :| Chain(code, l, s) && Members(s) == S;
    var t :| Chain(code, l, t) && Members(t) == T;
    ChainUnique(code, l, s, t);
  }

  lemma {:induction false} ChainJumps(code: seq<Instr>, l: int, s: seq<nat>)
    requires Chain(code, l, s)
    ensures forall p | p in s :: p < |code| && code[p].Jmp?
    ensures forall i, j :: 0 <= i < j < |s| ==> s[i] != s[j]
    decreases |s|
  {
    if s != [] {
      ChainJumps(code, GetJump(code, s[0]), s[1..]);
      forall p | p in s ensures p < |code| && code[p].Jmp? { assert p == s[0] || p in s[1..]; }
      forall i, j | 0 <= i < j < |s| ensures s[i] != s[j] {
        if i == 0 { assert s[j] == s[1..][j - 1]; } else { assert s[i] == s[1..][i - 1] && s[j] == s[1..][j - 1]; }
      }
    }
  }

  predicate SameAt(A: seq<Instr>, B: seq<Instr>, p: nat) {
    p < |A| && p < |B| && A[p] == B[p]
  }

  /** Only the jumps of the list matter. */
  lemma {:induction false} ChainFrame(A: seq<Instr>, B: seq<Instr>, l: int, s: seq<nat>)
    requires Chain(A, l, s) && forall p | p in s :: SameAt(A, B, p)
    ensures Chain(B, l, s)
    decreases |s|
  {
    if s != [] {
      assert SameAt(A, B, s[0]);
      ChainFrame(A, B, GetJump(A, s[0]), s[1..]);
    }
  }

  lemma ListFrame(A: seq<Instr>, B: seq<Instr>, l: int, S: set<nat>)
    requires IsList(A, l, S) && forall p | p in S :: SameAt(A, B, p)
    ensures IsList(B, l, S)
  {
    var s :| Chain(A, l, s) && Members(s) == S;
    forall p | p in s ensures SameAt(A, B, p) { assert p in Members(s); }
    ChainFrame(A, B, l, s);
  }

  lemma NoList(code: seq<Instr>)
    ensures IsList(code, NO_JUMP, {})
  {
    assert Chain(code, NO_JUMP, []) && Members([]) == {};
  }

  lemma OneJump(code: seq<Instr>, p: nat)
    requires p < |code| && code[p].Jmp? && code[p].sbx == NO_JUMP
    ensures IsList(code, p, {p})
  {
    assert [p][1..] == [] && Chain(code, GetJump(code, p), []);
    assert Chain(code, p, [p]);
    assert Members([p]) == {p};
  }

  /** Linking the last jump of a list to the head of another appends it. */
  lemma {:induction false} ChainAppend(A: seq<Instr>, B: seq<Instr>, l: int, s: seq<nat>, m: nat, t: seq<nat>)
    requires s != [] && Chain(A, l, s) && t != [] && Chain(A, m, t) && forall p | p in s :: p !in t
    requires s[|s| - 1] < |A|
    requires |B| == |A| && forall i | 0 <= i < |A| && i != s[|s| - 1] :: B[i] == A[i]
    requires B[s[|s| - 1]].Jmp? && B[s[|s| - 1]].sbx == m - (s[|s| - 1] + 1)
    ensures Chain(B, l, s + t)
    decreases |s|
  {
    ChainJumps(A, l, s);
    ChainJumps(A, m, t);
    forall p | p in t ensures SameAt(A, B, p) { assert B[p] == A[p]; }
    ChainFrame(A, B, m, t);
    assert (s + t)[1..] == s[1..] + t;
    if |s| == 1 {
      assert s[1..] + t == t;
      assert m == t[0] && m != s[0];
    } else {
      assert s[1..][|s| - 2] == s[|s| - 1];
      assert B[s[0]] == A[s[0]];
      ChainAppend(A, B, GetJump(A, s[0]), s[1..], m, t);
    }
  }

  // ---- patching, one jump at a time ----

  /** What `patchlistaux` does to one jump of the list. */
  function PatchOne(code: seq<Instr>, p: nat, vt: int, reg: int, dt: int): seq<Instr>
    requires p < |code| && code[p].Jmp?
  {
    var B := code[p := Jmp(code[p].a, Target(code, p, vt, dt) - (p + 1))];
    if SetsValue(code, p) then B[p - 1 := PatchTest(code[p - 1], reg)] else B
  }

  lemma PatchRest(code: seq<Instr>, L: set<nat>, p: nat, vt: int, reg: int, dt: int)
    requires JumpSet(code, L) && p in L
    ensures var B := PatchOne(code, p, vt, reg, dt);
      && PatchList(B, L - {p}, vt, reg, dt) == PatchList(code, L, vt, reg, dt)
      && (forall q | q in L - {p} :: SameAt(code, B, q))
      && InReach(code, L, vt, dt) == (Abs(Target(code, p, vt, dt) - (p + 1)) <= MAXARG_sBx && InReach(B, L - {p}, vt, dt))
  {
    var B := PatchOne(code, p, vt, reg, dt);
    forall q | q in L - {p} ensures SameAt(code, B, q) && SetsValue(B, q) == SetsValue(code, q) {
      assert code[q].Jmp?;
    }
    forall i | 0 <= i < |code| ensures PatchAt(B, L - {p}, vt, reg, dt, i) == PatchAt(code, L, vt, reg, dt, i) {
      assert i in L ==> code[i].Jmp?;
      if i in L - {p} { assert SameAt(code, B, i); }
    }
    forall q | q in L - {p} ensures Target(B, q, vt, dt) == Target(code, q, vt, dt) {}
    assert forall q | q in L :: q == p || q in L - {p};
    if InReach(code, L, vt, dt) {
      assert InReach(B, L - {p}, vt, dt);
    } else {
      var q :| q in L && Abs(Target(code, q, vt, dt) - (q + 1)) > MAXARG_sBx;
      assert q == p || Abs(Target(B, q, vt, dt) - (q + 1)) > MAXARG_sBx;
    }
  }

  lemma PatchNone(code: seq<Instr>, vt: int, reg: int, dt: int)
    ensures PatchList(code, {}, vt, reg, dt) == code
  {
  }

  lemma RemoveRest(code: seq<Instr>, L: set<nat>, p: nat)
    requires JumpSet(code, L) && p in L
    ensures var B := if SetsValue(code, p) then code[p - 1 := PatchTest(code[p - 1], NO_REG)] else code;
      && RemoveValues(B, L - {p}) == RemoveValues(code, L)
      && (forall q | q in L :: SameAt(code, B, q))
  {
    var B := if SetsValue(code, p) then code[p - 1 := PatchTest(code[p - 1], NO_REG)] else code;
    forall q | q in L ensures SameAt(code, B, q) { assert code[q].Jmp?; }
    forall i | 0 <= i < |code| ensures RemoveValues(B, L - {p})[i] == RemoveValues(code, L)[i] {
      assert i in L ==> code[i].Jmp?;
    }
  }

  lemma ListJumps(code: seq<Instr>, l: int, S: set<nat>)
    requires IsList(code, l, S)
    ensures JumpSet(code, S)
  {
    var s :| Chain(code, l, s) && Members(s) == S;
    ChainJumps(code, l, s);
  }

  /** Taking the first jump off a list. */
  lemma ListTail(code: seq<Instr>, l: int, S: set<nat>)
    requires IsList(code, l, S) && l != NO_JUMP
    ensures l in S && 0 <= l < |code| && code[l].Jmp? && IsList(code, GetJump(code, l), S - {l})
  {
    var s :| Chain(code, l, s) && Members(s) == S;
    assert l in Members(s);
    assert Chain(code, GetJump(code, l), s[1..]);
    forall p ensures p in Members(s[1..]) <==> p in S - {l} {
      assert p in Members(s) <==> p in s;
      assert p in s <==> p == s[0] || p in s[1..];
    }
    assert Members(s[1..]) == S - {l};
  }

  lemma ListEnd(code: seq<Instr>, S: set<nat>)
    requires IsList(code, NO_JUMP, S)
    ensures S == {}
  {
  }

  // ---- code with links, code without ----

  /** `A` is `B` except for the links held by the jumps of `open`. */
  ghost predicate Implements(A: seq<Instr>, B: seq<Instr>, open: set<nat>) {
    |A| == |B| && forall i | 0 <= i < |A| :: SameButLink(A[i], B[i], i in open)
  }

  ghost predicate SameButLink(i: Instr, j: Instr, link: bool) {
    if link then i.Jmp? && j.Jmp? && i.a == j.a else i == j
  }

  ghost predicate Within(n: nat, S: set<nat>) {
    forall p | p in S :: p < n
  }

  lemma ImplementsControls(A: seq<Instr>, B: seq<Instr>, open: set<nat>, p: nat)
    requires Implements(A, B, open) && 1 <= p <= |A|
    ensures A[p - 1].TestSet? == B[p - 1].TestSet? && (A[p - 1].TestSet? ==> A[p - 1] == B[p - 1])
    ensures SetsValue(A, p) == SetsValue(B, p)
  {
    assert SameButLink(A[p - 1], B[p - 1], p - 1 in open);
  }

  ghost predicate Framed(A: seq<Instr>, B: seq<Instr>, S: set<nat>) {
    forall p | p in S :: SameAt(A, B, p)
  }

  lemma FramedTrans(A: seq<Instr>, B: seq<Instr>, C: seq<Instr>, S: set<nat>, T: set<nat>)
    requires Framed(A, B, S) && Framed(B, C, S) && T <= S
    ensures Framed(A, C, T)
  {
    forall p | p in T ensures SameAt(A, C, p) { assert SameAt(A, B, p) && SameAt(B, C, p); }
  }

  lemma PatchImplements(A: seq<Instr>, B: seq<Instr>, open: set<nat>, L: set<nat>, vt: int, reg: int, dt: int)
    requires Implements(A, B, open) && Within(|A|, open) && L <= open
    ensures Implements(PatchList(A, L, vt, reg, dt), PatchList(B, L, vt, reg, dt), open - L)
    ensures Framed(A, PatchList(A, L, vt, reg, dt), open - L)
    ensures InReach(A, L, vt, dt) == InReach(B, L, vt, dt)
  {
    var A', B' := PatchList(A, L, vt, reg, dt), PatchList(B, L, vt, reg, dt);
    forall p | p in L ensures Target(A, p, vt, dt) == Target(B, p, vt, dt) {
      if p >= 1 { ImplementsControls(A, B, open, p); }
    }
    forall i | 0 <= i < |A| ensures SameButLink(A'[i], B'[i], i in open - L) {
      assert SameButLink(A[i], B[i], i in open);
      assert A'[i] == PatchAt(A, L, vt, reg, dt, i) && B'[i] == PatchAt(B, L, vt, reg, dt, i);
      if i + 1 in L { ImplementsControls(A, B, open, i + 1); }
    }
    forall p | p in open - L ensures SameAt(A, A', p) {
      assert SameButLink(A[p], B[p], p in open);
      assert A'[p] == PatchAt(A, L, vt, reg, dt, p);
    }
  }

  lemma RemoveImplements(A: seq<Instr>, B: seq<Instr>, open: set<nat>, L: set<nat>)
    requires Implements(A, B, open) && Within(|A|, open) && L <= open
    ensures Implements(RemoveValues(A, L), RemoveValues(B, L), open)
    ensures Framed(A, RemoveValues(A, L), open)
  {
    forall i | 0 <= i < |A|
      ensures SameButLink(RemoveValues(A, L)[i], RemoveValues(B, L)[i], i in open)
      ensures i in open ==> SameAt(A, RemoveValues(A, L), i)
    {
      assert SameButLink(A[i], B[i], i in open);
      if i + 1 in L { ImplementsControls(A, B, open, i + 1); }
    }
  }

  lemma ImplementsNeed(A: seq<Instr>, B: seq<Instr>, open: set<nat>, L: set<nat>)
    requires Implements(A, B, open) && Within(|A|, open) && L <= open
    ensures NeedValue(A, L) == NeedValue(B, L)
  {
    forall p | p in L ensures SetsValue(A, p) == SetsValue(B, p) {
      if p >= 1 { ImplementsControls(A, B, open, p); }
    }
  }
}
