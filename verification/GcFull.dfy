/** `luaC_fullgc` terminates from any state of the collector and leaves exactly
  the objects that are reachable. */
module GcFull {
  import opened GcModel
  import opened GcMark
  import opened GcInvariant
  import opened GcCollector
  import opened GcPhase
  import opened GcCycle
  import opened GcEffects
  import opened GcSafety

  // ---- running to a phase ----

  function Order(g: GcState): nat {
    match g
    case Propagate => 0 case Atomic => 1 case SwpAllGc => 2 case SwpFinObj => 3
    case SwpToBeFnz => 4 case SwpEnd => 5 case CallFin => 6 case Pause => 7
  }

  function NextOrder(g: GcState): nat {
    if g.Pause? then 0 else Order(g) + 1
  }

  /** Phases to go, in the cyclic order of the collector. */
  function Distance(g: GcState, target: GcState): nat {
    Order(target) - Order(g) + (if Order(g) <= Order(target) then 0 else 8)
  }

  /** Work left inside the current phase. */
  function WhitesLeft(s: State): set<Ref> {
    if s.gcstate.Propagate? then Whites(s.col) else {}
  }

  function ListLeft(s: State): nat {
    if s.gcstate.Propagate? then |s.col.gray|
    else if s.sweepgc.Some? then s.sweepgc.value + 1 else 0
  }

  ghost predicate Progress(s: State, t: State) {
    || Order(t.gcstate) == NextOrder(s.gcstate)
    || (t.gcstate == s.gcstate && WhitesLeft(t) < WhitesLeft(s))
    || (t.gcstate == s.gcstate && WhitesLeft(t) == WhitesLeft(s) && ListLeft(t) < ListLeft(s))
  }

  lemma SweepStepProgress(s: State)
    requires Inv(s) && (s.gcstate.SwpAllGc? || s.gcstate.SwpFinObj? || s.gcstate.SwpToBeFnz?)
    ensures Progress(s, SingleStep(s))
  {
    hide WellFormed;
    if s.sweepgc.Some? { SweepListState(s, s.sweepgc.value, GCSWEEPMAX); }
  }

  lemma AtomicProgress(s: State)
    requires Inv(s) && s.gcstate.Atomic?
    ensures SingleStep(s).gcstate == SwpAllGc
  {
    var u := AtomicStep(s.(col := PropagateAll(s.mem, s.col))).(gcstate := SwpAllGc);
    SweepToLiveState(u, |u.allgc|);
  }

  lemma PropagateProgress(s: State)
    requires Inv(s) && s.gcstate.Propagate?
    ensures Progress(s, SingleStep(s))
  {
    hide Inv;
  }

  lemma {:induction false} SweepToLiveState(s: State, k: nat)
    requires k <= |s.allgc|
    ensures SweepToLive(s, k).0.gcstate == s.gcstate
    decreases k
  {
    if 0 < k && IsDead(s, Current(s, k)) { SweepToLiveState(Free(s, k), k - 1); }
  }

  lemma {:induction false} SweepListState(s: State, k: nat, count: nat)
    requires k <= |s.allgc|
    ensures SweepList(s, k, count).0.gcstate == s.gcstate
    decreases k
  {
    if 0 < k && 0 < count { SweepListState(SweepOne(s, k), k - 1, count - 1); }
  }

  lemma InvCanStep(s: State)
    requires Inv(s)
    ensures s.sweepgc.Some? ==> s.sweepgc.value <= |s.allgc|
    ensures s.gcstate.Propagate? ==> s.col.gray != []
  {
  }

  lemma NextPhaseIsCloser(g: GcState, h: GcState, target: GcState)
    requires g != target && Order(h) == NextOrder(g)
    ensures Distance(h, target) < Distance(g, target)
  {
  }

  lemma StepMoves(s: State)
    requires Inv(s)
    requires s.sweepgc.Some? ==> s.sweepgc.value <= |s.allgc|
    requires s.gcstate.Propagate? ==> s.col.gray != []
    ensures Progress(s, SingleStep(s))
  {
    hide Inv, SingleStep;
    if s.gcstate.Propagate? { PropagateProgress(s); }
    else if s.gcstate.Atomic? { AtomicProgress(s); }
    else if s.gcstate.SwpAllGc? || s.gcstate.SwpFinObj? || s.gcstate.SwpToBeFnz? { SweepStepProgress(s); }
    else { OtherProgress(s); }
  }

  lemma OtherProgress(s: State)
    requires s.gcstate.Pause? || s.gcstate.SwpEnd? || s.gcstate.CallFin?
    requires s.sweepgc.Some? ==> s.sweepgc.value <= |s.allgc|
    ensures Progress(s, SingleStep(s))
  {
  }

  /** A step keeps the invariant and enters the next phase or leaves less to do
      in this one: the measure of every loop over `singlestep`. */
  lemma StepProgress(s: State, target: GcState)
    requires Inv(s) && s.gcstate != target
    requires s.sweepgc.Some? ==> s.sweepgc.value <= |s.allgc|
    requires s.gcstate.Propagate? ==> s.col.gray != []
    ensures Inv(SingleStep(s))
    ensures var t := SingleStep(s);
      || Distance(t.gcstate, target) < Distance(s.gcstate, target)
      || (t.gcstate == s.gcstate && WhitesLeft(t) < WhitesLeft(s))
      || (t.gcstate == s.gcstate && WhitesLeft(t) == WhitesLeft(s) && ListLeft(t) < ListLeft(s))
  {
    hide Inv, SingleStep, Distance;
    SingleStepKeeps(s);
    StepMoves(s);
    if SingleStep(s).gcstate != s.gcstate {
      NextPhaseIsCloser(s.gcstate, SingleStep(s).gcstate, target);
    }
  }

  /** `luaC_runtilstate` with a mask of one state. */
  function RunUntil(s: State, target: GcState): State
    requires Inv(s)
    decreases Distance(s.gcstate, target), WhitesLeft(s), ListLeft(s)
  {
    if s.gcstate == target then s
    else
      InvCanStep(s);
      StepProgress(s, target);
      RunUntil(SingleStep(s), target)
  }

  lemma {:induction false} RunUntilKeeps(s: State, target: GcState)
    requires Inv(s)
    ensures Inv(RunUntil(s, target)) && RunUntil(s, target).gcstate == target
    ensures Dropped(s, RunUntil(s, target))
    decreases Distance(s.gcstate, target), WhitesLeft(s), ListLeft(s)
  {
    if s.gcstate != target {
      InvCanStep(s);
      hide Inv, SingleStep, Distance, Dropped;
      StepProgress(s, target);
      SingleStepDrops(s);
      RunUntilKeeps(SingleStep(s), target);
      DroppedTrans(s, SingleStep(s), RunUntil(SingleStep(s), target));
    }
  }

  // ---- exactness ----

  /** A cycle in which the program does nothing: marks are precise until the
      flip, then the live objects are the reachable ones `R`. */
  ghost predicate CycleInv(s: State, R: iset<Ref>) {
    match s.gcstate
    case Propagate => Precise(s.mem, s.col) && ReachIs(s.mem, R)
    case Atomic => Precise(s.mem, s.col) && ReachIs(s.mem, R)
    case CallFin => forall r :: r in s.mem.objs <==> r in R
    case Pause => forall r :: r in s.mem.objs <==> r in R
    case _ => forall r :: Live(s, r) <==> r in R
  }

  ghost predicate ReachIs(m: Mem, R: iset<Ref>) {
    forall r :: Reach(m, r) <==> r in R
  }

  lemma PropagateMarkPrecise(m: Mem, c: Col)
    requires Shape(m) && Precise(m, c) && c.gray != [] && Marked(c, c.gray[0])
    ensures Precise(m, PropagateMark(m, c))
  {
    var o := c.gray[0];
    forall v | v in Values(m, o) ensures ReachValue(m, v) {
      if v.Obj? { ReachSucc(m, o, v.ref); }
    }
    MarkAllPrecise(m, Visit(m, c), Values(m, o));
  }

  lemma {:induction false} PropagateAllPrecise(m: Mem, c: Col, again: set<Ref>, trav: set<Ref>)
    requires Tri(m, c, again, trav, {}) && Precise(m, c)
    ensures Precise(m, PropagateAll(m, c))
    decreases Whites(c), |c.gray|
  {
    if c.gray != [] {
      assert IsGray(c, c.gray[0]);
      PropagateMarkPrecise(m, c);
      TriPropagateMark(m, c, again, trav);
      PropagateAllPrecise(m, PropagateMark(m, c), again,
        if KindOf(m, c.gray[0]) == Thread then trav + {c.gray[0]} else trav);
    }
  }

  lemma AtomicMarkPrecise(m: Mem, c: Col)
    requires Tri(m, c, Elems(c.grayagain), {}, {}) && NoDup(c.grayagain) && Precise(m, c)
    ensures Precise(m, AtomicMark(m, c))
  {
    hide Tri, Precise;
    var again := Elems(c.grayagain);
    var vs := [Obj(m.running), m.registry] + m.mt;
    forall v | v in vs ensures ReachValue(m, v) {
      if v.Obj? { ReachRoot(m, v.ref); }
    }
    MarkAllAppend(m, c, [Obj(m.running), m.registry], m.mt);
    MarkAllTwo(m, c, Obj(m.running), m.registry);
    TriShape(m, c, again, {});
    MarkAllPrecise(m, c, vs);
    var c1 := MarkRootsAgain(m, c, again);
    assert c1 == MarkAll(m, c, vs);
    var t := TriPropagateAll(m, c1, again, {});
    PropagateAllPrecise(m, c1, again, {});
    var c2 := PropagateAll(m, c1);
    TriSwapLists(m, c2, c.grayagain, t);
    var c3 := c2.(gray := c.grayagain);
    SameMarksPrecise(m, c2, c3);
    PropagateAllPrecise(m, c3, {}, t);
  }

  lemma TriShape(m: Mem, c: Col, again: set<Ref>, trav: set<Ref>)
    requires Tri(m, c, again, trav, {})
    ensures Shape(m)
  {
  }

  lemma SameMarksPrecise(m: Mem, c: Col, d: Col)
    requires Precise(m, c) && d.mark == c.mark
    ensures Precise(m, d)
  {
  }

  /** Complete and precise marks are exactly the reachable objects. */
  lemma MarkedIsReachable(m: Mem, c: Col)
    requires Complete(m, c) && Precise(m, c)
    requires forall r :: Root(m, r) ==> r in c.mark
    requires forall r, x :: r in c.mark && Succ(m, r, x) ==> x in c.mark
    ensures forall r :: Marked(c, r) <==> Reach(m, r)
  {
    var marked := set r | r in c.mark && Marked(c, r);
    forall x, y | x in marked && Succ(m, x, y) ensures y in marked { assert ChildrenMarked(m, c, x); }
    forall r | Reach(m, r) ensures Marked(c, r) { ClosedHoldsReachable(m, marked, r); }
  }

  lemma AllocatedCloses(s: State, d: Col)
    requires WellFormed(s) && Closed(s) && NothingDead(s) && d.mark.Keys == s.col.mark.Keys
    ensures forall r, x :: r in d.mark && Succ(s.mem, r, x) ==> x in d.mark
    ensures forall r :: Root(s.mem, r) ==> r in d.mark
  {
    hide Shape, NoDup, CachesOfProtos, KindColour, Succ, Root;
    NothingDeadLive(s);
    forall r, x | r in d.mark && Succ(s.mem, r, x) ensures x in d.mark { assert Live(s, r) && ChildrenLive(s, r); }
    forall r | Root(s.mem, r) ensures r in d.mark { assert Live(s, r); }
  }

  /** The marks after the atomic phase are exactly the reachable objects. */
  lemma AtomicMarksReachable(s: State)
    requires WellFormed(s) && Closed(s) && MarkPhase(s) && Precise(s.mem, s.col)
    ensures var d := AtomicMark(s.mem, PropagateAll(s.mem, s.col)); forall r :: Marked(d, r) <==> Reach(s.mem, r)
  {
    hide WellFormed, Closed, NothingDead, Tri, Complete, Precise, NoDup, PropagateAll, AtomicMark, Reach, Succ, Root, Marked, IsWhite;
    var m, c := s.mem, PropagateAll(s.mem, s.col);
    PropagateAllOk(m, s.col);
    PropagateAllPrecise(m, s.col, Elems(s.col.grayagain), {});
    var d := AtomicMark(m, c);
    var trav := AtomicComplete(m, c);
    AtomicMarkPrecise(m, c);
    SameDomain(m, s.col, d, Elems(s.col.grayagain), trav);
    AllocatedCloses(s, d);
    MarkedIsReachable(m, d);
  }

  lemma SameDomain(m: Mem, c: Col, d: Col, again: set<Ref>, trav: set<Ref>)
    requires Tri(m, c, again, {}, {}) && Tri(m, d, {}, trav, {})
    ensures d.mark.Keys == c.mark.Keys
  {
  }

  lemma CycleStepAtomic(s: State, R: iset<Ref>)
    requires Inv(s) && s.gcstate.Atomic? && CycleInv(s, R)
    ensures CycleInv(SingleStep(s), R)
  {
    hide WellFormed, Closed, NothingDead, Tri, NoDup, SingleStep, Precise, Live, Marked, Reach;
    AtomicMarksReachable(s);
    AtomicStepKeeps(s);
    AtomicProgress(s);
  }

  lemma CycleStepPropagate(s: State, R: iset<Ref>)
    requires Inv(s) && s.gcstate.Propagate? && CycleInv(s, R)
    ensures CycleInv(SingleStep(s), R)
  {
    hide WellFormed, Closed, NothingDead, Precise, PropagateMark, EnterSweep, SweepStep, RestartCollection, Reach;
    FirstIsMarked(s.mem, s.col);
    PropagateMarkPrecise(s.mem, s.col);
  }

  lemma FirstIsMarked(m: Mem, c: Col)
    requires Tri(m, c, Elems(c.grayagain), {}, {}) && c.gray != []
    ensures Marked(c, c.gray[0]) && Shape(m)
  {
    assert c.gray[0] in c.gray;
  }

  lemma CycleStep(s: State, R: iset<Ref>)
    requires Inv(s) && !s.gcstate.Pause? && CycleInv(s, R)
    ensures CycleInv(SingleStep(s), R)
  {
    hide Inv, CycleInv, SingleStep;
    if s.gcstate.Propagate? {
      CycleStepPropagate(s, R);
    } else if s.gcstate.Atomic? {
      CycleStepAtomic(s, R);
    } else {
      CycleStepSweep(s, R);
    }
  }

  lemma CycleStepSweep(s: State, R: iset<Ref>)
    requires Inv(s) && !s.gcstate.Pause? && !s.gcstate.Propagate? && !s.gcstate.Atomic? && CycleInv(s, R)
    ensures CycleInv(SingleStep(s), R)
  {
    SingleStepKeeps(s);
    if s.gcstate.SwpEnd? {
      SwpEndStep(s);
    } else if !s.gcstate.CallFin? {
      SweepStepKeeps(s);
      SweepStepProgress(s);
    }
  }

  lemma PhaseOrder(s: State, target: GcState)
    requires Inv(s) && Order(s.gcstate) < Order(target)
    requires s.sweepgc.Some? ==> s.sweepgc.value <= |s.allgc|
    requires s.gcstate.Propagate? ==> s.col.gray != []
    ensures Order(SingleStep(s).gcstate) <= Order(target) && !s.gcstate.Pause?
  {
    hide Inv, SingleStep;
    StepMoves(s);
  }

  lemma {:induction false} RunCycle(s: State, target: GcState, R: iset<Ref>)
    requires Inv(s) && CycleInv(s, R) && Order(s.gcstate) <= Order(target)
    ensures CycleInv(RunUntil(s, target), R)
    decreases Distance(s.gcstate, target), WhitesLeft(s), ListLeft(s)
  {
    if s.gcstate != target {
      InvCanStep(s);
      hide Inv, CycleInv, SingleStep, Distance;
      PhaseOrder(s, target);
      StepProgress(s, target);
      CycleStep(s, R);
      RunCycle(SingleStep(s), target, R);
    }
  }

  /** The start of a cycle marks the roots only. */
  lemma CycleStarts(s: State) returns (R: iset<Ref>)
    requires Inv(s) && s.gcstate.Pause?
    ensures ReachIs(s.mem, R) && CycleInv(SingleStep(s), R) && SingleStep(s).gcstate.Propagate?
  {
    hide Reach, Inv;
    R := iset r | Reach(s.mem, r);
    StartInv(s);
    var c0 := s.col.(gray := [], grayagain := []);
    RestartMarksRoots(s);
    forall v | v in Roots0(s.mem) ensures ReachValue(s.mem, v) {
      if v.Obj? { ReachRoot(s.mem, v.ref); }
    }
    MarkAllPrecise(s.mem, c0, Roots0(s.mem));
  }

  lemma StartInv(s: State)
    requires Inv(s) && s.gcstate.Pause?
    ensures Shape(s.mem) && Precise(s.mem, s.col.(gray := [], grayagain := []))
  {
    assert AllWhite(s);
  }

  /** The first stage of a full collection: abandon a marking in progress. */
  function Abandon(s: State): State {
    if KeepInvariant(s) then EnterSweep(s) else s
  }

  lemma AbandonKeeps(s: State)
    requires Inv(s)
    ensures Inv(Abandon(s)) && Dropped(s, Abandon(s))
  {
    EnterSweepKeeps(s);
    SweepToLiveDrops(s.(gcstate := SwpAllGc), |s.allgc|);
  }

  /** One whole cycle from a pause. */
  function WholeCycle(s: State): State
    requires Inv(s)
  {
    SingleStepKeeps(s);
    RunUntilKeeps(SingleStep(s), CallFin);
    RunUntil(RunUntil(SingleStep(s), CallFin), Pause)
  }

  lemma WholeCycleExact(s: State)
    requires Inv(s) && s.gcstate.Pause?
    ensures var t := WholeCycle(s);
      && Inv(t) && t.gcstate == Pause && Dropped(s, t)
      && (forall r :: r in t.mem.objs <==> Reach(s.mem, r))
  {
    hide Inv, Dropped, Reach, SingleStep, CycleInv, ReachIs, RunUntil;
    InvCanStep(s);
    var R := CycleStarts(s);
    SingleStepKeeps(s);
    SingleStepDrops(s);
    var s3 := SingleStep(s);
    RunUntilKeeps(s3, CallFin);
    var s4 := RunUntil(s3, CallFin);
    RunCycle(s3, CallFin, R);
    RunUntilKeeps(s4, Pause);
    RunCycle(s4, Pause, R);
    var t := RunUntil(s4, Pause);
    DroppedTrans(s3, s4, t);
    DroppedTrans(s, s3, t);
    CycleEnds(s, t, R);
  }

  lemma CycleEnds(s: State, t: State, R: iset<Ref>)
    requires ReachIs(s.mem, R) && CycleInv(t, R) && t.gcstate.Pause?
    ensures forall r :: r in t.mem.objs <==> Reach(s.mem, r)
  {
    hide Reach;
  }

  /** `luaC_fullgc`: finish or abandon the cycle in progress, then run one whole
      cycle. */
  function FullGc(s: State): State
    requires Inv(s)
  {
    AbandonKeeps(s);
    RunUntilKeeps(Abandon(s), Pause);
    WholeCycle(RunUntil(Abandon(s), Pause))
  }

  /** A full collection, from any phase: it ends in the pause, keeps the
      contents of what it keeps, keeps exactly what is reachable, and leaves
      all of it current-white. */
  lemma FullGcExact(s: State)
    requires Inv(s)
    ensures var t := FullGc(s);
      && Inv(t) && t.gcstate == Pause
      && (forall r :: r in t.mem.objs <==> Reach(s.mem, r))
      && (forall r :: r in t.allgc <==> Reach(s.mem, r) && r != s.mem.main)
      && Dropped(s, t) && AllWhite(t)
  {
    hide Inv, Dropped, Reach, Abandon, WholeCycle, RunUntil;
    AbandonKeeps(s);
    RunUntilKeeps(Abandon(s), Pause);
    var s2 := RunUntil(Abandon(s), Pause);
    WholeCycleExact(s2);
    var t := WholeCycle(s2);
    DroppedTrans(s, Abandon(s), s2);
    FullGcFrame(s, s2, t);
  }

  lemma FullGcFrame(s: State, s2: State, t: State)
    requires Inv(s2) && Dropped(s, s2) && Dropped(s2, t) && Inv(t) && t.gcstate == Pause
    requires forall r :: r in t.mem.objs <==> Reach(s2.mem, r)
    ensures forall r :: r in t.mem.objs <==> Reach(s.mem, r)
    ensures forall r :: r in t.allgc <==> Reach(s.mem, r) && r != s.mem.main
    ensures Dropped(s, t) && AllWhite(t)
  {
    DroppedTrans(s, s2, t);
    forall r ensures r in t.mem.objs <==> Reach(s.mem, r) { DroppedSameReach(s, s2, r); }
  }
}
