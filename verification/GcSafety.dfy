/** Safety over whole runs: however the program and the collector interleave,
  nothing the program can reach is ever freed. */
module GcSafety {
  import opened GcModel
  import opened GcMark
  import opened GcInvariant
  import opened GcCollector
  import opened GcPhase
  import opened GcCycle
  import opened GcMutator
  import opened GcEffects

  /** What `lua_newstate` leaves: one empty main thread, outside `allgc`. */
  function Initial(metatables: nat): State {
    State(
      Mem(map[0 := Object(Thread, [], [])], map[], 0, 0, Plain, seq(metatables, i => Plain)),
      Col(map[0 := White(false)], [], [], map[]),
      Pause, false, [], None, {}, 1)
  }

  lemma InitialInv(metatables: nat)
    ensures Inv(Initial(metatables))
  {
    var s := Initial(metatables);
    assert Values(s.mem, 0) == [];
    forall r | Root(s.mem, r) ensures Live(s, r) {
      if Obj(r) in s.mem.mt { assert false; }
    }
  }

  lemma ReachLiveValue(s: State, v: Value)
    requires Closed(s) && ReachValue(s.mem, v)
    ensures LiveValue(s, v)
  {
    if v.Obj? { ReachableIsLive(s, v.ref); }
  }

  lemma NewObjectKeeps(s: State, th: Ref, o: Object)
    requires Inv(s) && Enabled(s, NewObject(th, o))
    ensures Inv(Next(s, NewObject(th, o)))
  {
    forall v | v in o.slots + CellValues(s.mem.cells, o.upvals) ensures LiveValue(s, v) {
      if v in o.slots {
        ReachLiveValue(s, v);
      } else if v.Obj? {
        var i :| 0 <= i < |o.upvals| && CellValues(s.mem.cells, o.upvals)[i] == v;
        UsableCellLive(s, o.upvals[i], v);
      }
    }
    ReachableIsLive(s, th);
    NewObjKeeps(s, o);
    PushKeeps(NewObj(s, o), th, Obj(s.next));
  }

  lemma UsableCellLive(s: State, u: Cell, v: Value)
    requires Closed(s) && CellUsable(s, u) && CellValue(s.mem, u) == v && v.Obj?
    ensures Live(s, v.ref)
  {
    var cl :| Reach(s.mem, cl) && cl in s.mem.objs && u in s.mem.objs[cl].upvals;
    var us := s.mem.objs[cl].upvals;
    var i :| 0 <= i < |us| && us[i] == u;
    assert CellValues(s.mem.cells, us)[i] == v;
    assert Succ(s.mem, cl, v.ref);
    ReachSucc(s.mem, cl, v.ref);
    ReachableIsLive(s, v.ref);
  }

  lemma RootStepKeeps(s: State, op: Op)
    requires Inv(s) && Enabled(s, op) && (op.SetRegistry? || op.SetMetatable? || op.Resume?)
    ensures Inv(Next(s, op))
  {
    var n := Next(s, op).mem;
    forall x | Root(n, x) ensures Live(s, x) {
      if Root(s.mem, x) {
      } else if op.Resume? {
        ReachableIsLive(s, x);
      } else {
        assert Obj(x) == op.v;
        ReachableIsLive(s, x);
      }
    }
    RootsKeep(s, n);
  }

  lemma StoreStepKeeps(s: State, op: Op)
    requires Inv(s) && Enabled(s, op) && (op.StoreBack? || op.StoreForward?)
    ensures Inv(Next(s, op))
  {
    hide Inv, WellFormed, Live, Reach;
    InvCloses(s);
    ReachLiveValue(s, op.v);
    match op
    case StoreBack(t, i, v) => StoreBackKeeps(s, t, i, v);
    case StoreForward(p, i, v) => StoreForwardKeeps(s, p, i, v);
  }

  lemma InvCloses(s: State)
    requires Inv(s)
    ensures Closed(s)
  {
  }

  lemma StackStepKeeps(s: State, op: Op)
    requires Inv(s) && Enabled(s, op) && (op.WriteStack? || op.WriteUpval?)
    ensures Inv(Next(s, op))
  {
    hide Inv, Live, Reach;
    InvCloses(s);
    match op
    case WriteStack(th, slots) =>
      forall v | v in slots ensures LiveValue(s, v) { ReachLiveValue(s, v); }
      SetStackKeeps(s, th, slots);
    case WriteUpval(u, v) =>
      ReachLiveValue(s, v);
      SetUpvalKeeps(s, u, v);
  }

  lemma StringStepKeeps(s: State, op: Op)
    requires Inv(s) && Enabled(s, op) && op.Intern?
    ensures Inv(Next(s, op))
  {
    hide Inv, Live, Reach;
    InvCloses(s);
    ReachableIsLive(s, op.thread);
    ResurrectKeeps(s, op.str);
    PushKeeps(Resurrect(s, op.str), op.thread, Obj(op.str));
  }

  lemma CacheStepKeeps(s: State, op: Op)
    requires Inv(s) && Enabled(s, op) && (op.LoadCache? || op.StoreCache?)
    ensures Inv(Next(s, op))
  {
    hide Inv, Live, Reach;
    InvCloses(s);
    match op
    case LoadCache(th, p) =>
      ReachableIsLive(s, th);
      ReachableIsLive(s, p);
      assert ChildrenLive(s, p);
      PushKeeps(s, th, Obj(s.col.cache[p]));
    case StoreCache(p, cl) =>
      ReachableIsLive(s, cl);
      CacheKeeps(s, p, cl);
  }

  lemma CollectKeeps(s: State)
    requires Inv(s)
    ensures Inv(Next(s, Collect))
  {
    hide Inv, SingleStep;
    SingleStepKeeps(s);
  }

  /** Every step, of the program or of the collector, keeps the invariant and does what
      its operation says. */
  lemma StepKeeps(s: State, op: Op)
    requires Inv(s) && Enabled(s, op)
    ensures Inv(Next(s, op)) && Effect(s, op, Next(s, op)) && Elsewhere(s, op, Next(s, op))
  {
    StepInv(s, op);
    if op.Collect? {
      SingleStepDrops(s);
    } else {
      hide Inv, Enabled, Next, Effect, Elsewhere;
      OpEffect(s, op);
    }
  }

  lemma StepInv(s: State, op: Op)
    requires Inv(s) && Enabled(s, op)
    ensures Inv(Next(s, op))
  {
    hide Inv, Enabled, Next;
    match op
    case NewObject(th, o) => NewObjectKeeps(s, th, o);
    case Collect => CollectKeeps(s);
    case _ =>
      if op.StoreBack? || op.StoreForward? { StoreStepKeeps(s, op); }
      else if op.WriteStack? || op.WriteUpval? { StackStepKeeps(s, op); }
      else if op.Intern? { StringStepKeeps(s, op); }
      else if op.LoadCache? || op.StoreCache? { CacheStepKeeps(s, op); }
      else { RootStepKeeps(s, op); }
  }

  // ---- runs ----

  /** `t` is what some interleaving of program and collector steps makes of `s`. */
  ghost predicate Runs(s: State, ops: seq<Op>, t: State)
    requires Inv(s)
    decreases |ops|
  {
    if ops == [] then s == t
    else
      Enabled(s, ops[0]) && (StepKeeps(s, ops[0]); Runs(Next(s, ops[0]), ops[1..], t))
  }

  lemma {:induction false} RunKeeps(s: State, ops: seq<Op>, t: State)
    requires Inv(s) && Runs(s, ops, t)
    ensures Inv(t)
    decreases |ops|
  {
    if ops != [] {
      StepKeeps(s, ops[0]);
      RunKeeps(Next(s, ops[0]), ops[1..], t);
    }
  }

  /** `ops` lead from a new state to `t`. */
  ghost predicate RunsFromStart(metatables: nat, ops: seq<Op>, t: State) {
    InitialInv(metatables);
    Runs(Initial(metatables), ops, t)
  }

  /** In every state of every run, everything reachable is allocated and alive;
      so is the closure cached in a reachable prototype. */
  lemma RunSafe(metatables: nat, ops: seq<Op>, t: State)
    requires RunsFromStart(metatables, ops, t)
    ensures forall r :: Reach(t.mem, r) ==> r in t.mem.objs && !IsDead(t, r)
    ensures forall p :: Reach(t.mem, p) && p in t.col.cache ==> t.col.cache[p] in t.mem.objs && !IsDead(t, t.col.cache[p])
  {
    InitialInv(metatables);
    RunKeeps(Initial(metatables), ops, t);
    forall r | Reach(t.mem, r) ensures Live(t, r) && ChildrenLive(t, r) { ReachableIsLive(t, r); }
  }

  // ---- what is stored stays ----

  lemma {:induction false} RunGone(s: State, ops: seq<Op>, t: State, p: Ref)
    requires Inv(s) && Runs(s, ops, t) && p !in s.mem.objs && p < s.next
    ensures p !in t.mem.objs
    decreases |ops|
  {
    hide Inv, Enabled, Next, Effect, Elsewhere;
    if ops != [] {
      StepKeeps(s, ops[0]);
      GoneStays(s, ops[0], Next(s, ops[0]), p);
      RunGone(Next(s, ops[0]), ops[1..], t, p);
    }
  }

  /** However the collector interleaves: what was stored in a slot is there as long as
      the program stores nothing else in it and the object is there. */
  lemma {:induction false} StoredStays(s: State, ops: seq<Op>, t: State, p: Ref, i: nat, v: Value)
    requires Inv(s) && Runs(s, ops, t) && Has(s, p, i, v)
    requires forall k | 0 <= k < |ops| :: !Overwrites(ops[k], p, i)
    ensures p in t.mem.objs ==> Has(t, p, i, v)
    decreases |ops|
  {
    if ops != [] {
      var u := Next(s, ops[0]);
      assert p < s.next;
      hide Inv, Enabled, Next, Effect, Elsewhere, Has, Overwrites;
      StepKeeps(s, ops[0]);
      SlotKept(s, ops[0], u, p, i, v);
      if p in u.mem.objs {
        forall k | 0 <= k < |ops[1..]| ensures !Overwrites(ops[1..][k], p, i) { assert ops[1..][k] == ops[k + 1]; }
        StoredStays(u, ops[1..], t, p, i, v);
      } else {
        NextGrows(s, ops[0]);
        RunGone(u, ops[1..], t, p);
      }
    }
  }

  lemma NextGrows(s: State, op: Op)
    requires Inv(s) && Enabled(s, op) && Effect(s, op, Next(s, op)) && Elsewhere(s, op, Next(s, op))
    ensures Next(s, op).next >= s.next
  {
    hide Inv, Next, Enabled;
  }

  /** The same for an upvalue. */
  lemma {:induction false} CellStays(s: State, ops: seq<Op>, t: State, u: Cell)
    requires Inv(s) && Runs(s, ops, t) && u in s.mem.cells
    requires forall k | 0 <= k < |ops| :: ops[k].WriteUpval? ==> ops[k].u != u
    ensures u in t.mem.cells && t.mem.cells[u] == s.mem.cells[u]
    decreases |ops|
  {
    hide Inv, Enabled, Next, Effect, Elsewhere;
    if ops != [] {
      StepKeeps(s, ops[0]);
      CellKept(s, ops[0], Next(s, ops[0]), u);
      forall k | 0 <= k < |ops[1..]| && ops[1..][k].WriteUpval? ensures ops[1..][k].u != u { assert ops[1..][k] == ops[k + 1]; }
      CellStays(Next(s, ops[0]), ops[1..], t, u);
    }
  }

  // ---- what a collector step may free ----

  lemma DroppedTrans(s: State, t: State, u: State)
    requires Dropped(s, t) && Dropped(t, u)
    ensures Dropped(s, u)
  {
  }

  lemma {:induction false} SweepListDrops(s: State, k: nat, count: nat)
    requires k <= |s.allgc|
    ensures Dropped(s, SweepList(s, k, count).0)
    decreases k
  {
    if 0 < k && 0 < count {
      SweepListDrops(SweepOne(s, k), k - 1, count - 1);
      DroppedTrans(s, SweepOne(s, k), SweepList(SweepOne(s, k), k - 1, count - 1).0);
    }
  }

  lemma {:induction false} SweepToLiveDrops(s: State, k: nat)
    requires k <= |s.allgc|
    ensures Dropped(s, SweepToLive(s, k).0)
    decreases k
  {
    if 0 < k && IsDead(s, Current(s, k)) {
      SweepToLiveDrops(Free(s, k), k - 1);
      DroppedTrans(s, Free(s, k), SweepToLive(Free(s, k), k - 1).0);
    }
  }

  lemma SingleStepDrops(s: State)
    requires Inv(s)
    ensures Dropped(s, SingleStep(s))
  {
    hide WellFormed, MarkAll, Shape, Visit;
    if s.gcstate.Atomic? {
      var u := AtomicStep(s.(col := PropagateAll(s.mem, s.col))).(gcstate := SwpAllGc);
      SweepToLiveDrops(u, |u.allgc|);
    } else if s.sweepgc.Some? {
      SweepListDrops(s, s.sweepgc.value, GCSWEEPMAX);
    }
  }

  /** Dropping objects that leave a closed graph behind makes nothing reachable
      unreachable, and the other way round. */
  lemma DroppedSameReach(s: State, t: State, r: Ref)
    requires Inv(t) && Dropped(s, t)
    ensures Reach(s.mem, r) <==> Reach(t.mem, r)
  {
    var live := set x | x in t.mem.objs && Live(t, x);
    forall x | x in t.mem.objs ensures Values(t.mem, x) == Values(s.mem, x) {}
    if Reach(s.mem, r) {
      var p :| Path(s.mem, p) && p[|p| - 1] == r;
      forall x, y | x in live && Succ(s.mem, x, y) ensures y in live { assert ChildrenLive(t, x) && Succ(t.mem, x, y); }
      forall x | Root(s.mem, x) ensures x in live { assert Root(t.mem, x); }
      forall i | 0 <= i < |p| ensures p[i] in live { PathInClosed(s.mem, live, p, i); }
      forall i | 0 <= i < |p| - 1 ensures Succ(t.mem, p[i], p[i + 1]) { assert Succ(s.mem, p[i], p[i + 1]); }
      assert Path(t.mem, p);
    }
    if Reach(t.mem, r) {
      var p :| Path(t.mem, p) && p[|p| - 1] == r;
      forall i | 0 <= i < |p| - 1 ensures Succ(s.mem, p[i], p[i + 1]) { assert Succ(t.mem, p[i], p[i + 1]); }
      assert Path(s.mem, p);
    }
  }

  /** An object a collector step frees was unreachable before the step. */
  lemma FreedWasUnreachable(s: State, r: Ref)
    requires Inv(s)
    requires r in s.mem.objs && r !in SingleStep(s).mem.objs
    ensures !Reach(s.mem, r)
  {
    var t := SingleStep(s);
    SingleStepKeeps(s);
    SingleStepDrops(s);
    if Reach(s.mem, r) {
      DroppedSameReach(s, t, r);
      ReachableIsLive(t, r);
    }
  }

  // ---- the assertions the source makes on its barriers ----

  /** `luaC_barrier_` and `luaC_barrierback_` assert that both objects are not
      dead, and that a barrier outside the marking phases happens in a sweep. */
  lemma BarrierAssertions(s: State, p: Ref, v: Ref)
    requires Inv(s) && Reach(s.mem, p) && Reach(s.mem, v)
    requires IsBlack(s.col, p) && IsWhite(s.col, v)
    ensures !IsDead(s, p) && !IsDead(s, v)
    ensures KeepInvariant(s) || IsSweepPhase(s)
    ensures s.mem.objs[p].kind != Thread
  {
    ReachableIsLive(s, p);
    ReachableIsLive(s, v);
    assert KindColour(s, p);
  }
}
