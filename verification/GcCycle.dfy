/** One `singlestep` of the collector keeps the invariant, whatever the phase. */
module GcCycle {
  import opened GcModel
  import opened GcMark
  import opened GcInvariant
  import opened GcCollector
  import opened GcPhase

  // ---- marking, seen from the whole state ----

  /** When nothing is dead, liveness is allocation. */
  lemma NothingDeadLive(s: State)
    requires WellFormed(s) && NothingDead(s)
    ensures forall r :: Live(s, r) <==> r in s.mem.objs
  {
  }

  /** Replacing the colours of a state in which nothing is dead by a marking
      that satisfies the tri-colour invariant. */
  lemma MarkedStateKeeps(s: State, c: Col, again: set<Ref>, trav: set<Ref>)
    requires WellFormed(s) && Closed(s) && NothingDead(s)
    requires Tri(s.mem, c, again, trav, {})
    requires forall x :: IsWhite(c, x) ==> IsWhite(s.col, x) && c.mark[x] == s.col.mark[x]
    requires forall r :: r in c.cache ==> r in s.col.cache && c.cache[r] == s.col.cache[r]
    ensures var t := s.(col := c); WellFormed(t) && Closed(t) && NothingDead(t)
  {
    var t := s.(col := c);
    forall r | r in t.mem.objs ensures KindColour(t, r) {
      assert KindColour(s, r);
      if IsBlack(c, r) { assert BlackOk(s.mem, c, r, {}); }
      if IsGray(c, r) { assert Traversable(s.mem, r); }
    }
    forall r | r in t.col.mark ensures t.col.mark[r] != White(!t.cw) {
      if IsWhite(c, r) { assert IsWhite(s.col, r); }
    }
    NothingDeadLive(s);
    assert forall r :: Live(t, r) <==> r in s.mem.objs;
    forall r | Live(t, r) ensures ChildrenLive(t, r) { assert ChildrenLive(s, r); }
  }

  /** The caches a marking leaves are among those it found. */
  ghost predicate CachesShrink(c: Col, d: Col) {
    forall r :: r in d.cache ==> r in c.cache && d.cache[r] == c.cache[r]
  }

  lemma {:induction false} PropagateAllCaches(m: Mem, c: Col, again: set<Ref>, trav: set<Ref>)
    requires Tri(m, c, again, trav, {})
    ensures CachesShrink(c, PropagateAll(m, c))
    decreases Whites(c), |c.gray|
  {
    if c.gray != [] {
      TriPropagateMark(m, c, again, trav);
      PropagateMarkCaches(m, c, again, trav);
      PropagateAllCaches(m, PropagateMark(m, c), again,
        if KindOf(m, c.gray[0]) == Thread then trav + {c.gray[0]} else trav);
    }
  }

  lemma PropagateMarkCaches(m: Mem, c: Col, again: set<Ref>, trav: set<Ref>)
    requires Tri(m, c, again, trav, {}) && c.gray != []
    ensures CachesShrink(c, PropagateMark(m, c))
  {
    hide Tri, MarkAll, Visit, Values;
    var o := c.gray[0];
    TriFirst(m, c, again, trav);
    VisitMarks(m, c, o);
    TriVisit(m, c, again, trav);
    TriMarkAll(m, Visit(m, c), Values(m, o), again, if KindOf(m, o) == Thread then trav + {o} else trav, {o});
  }

  // ---- pause ----

  lemma TriFresh(m: Mem, c: Col)
    requires Shape(m) && c.mark.Keys == m.objs.Keys && CachesOfProtos(m, c)
    requires forall r :: r in c.mark ==> c.mark[r].White?
    ensures Tri(m, c.(gray := [], grayagain := []), {}, {}, {})
  {
  }

  lemma MarkAllAppend(m: Mem, c: Col, vs: seq<Value>, ws: seq<Value>)
    ensures MarkAll(m, c, vs + ws) == MarkAll(m, MarkAll(m, c, vs), ws)
    decreases |vs|
  {
    if vs == [] {
      assert vs + ws == ws;
    } else {
      assert (vs + ws)[1..] == vs[1..] + ws;
      MarkAllAppend(m, MarkValue(m, c, vs[0]), vs[1..], ws);
    }
  }

  /** The root set marked at the start of a cycle. */
  function Roots0(m: Mem): seq<Value> {
    [Obj(m.main), m.registry] + m.mt
  }

  lemma RestartMarksRoots(s: State)
    ensures RestartCollection(s).col == MarkAll(s.mem, s.col.(gray := [], grayagain := []), Roots0(s.mem))
  {
    var m, c := s.mem, s.col.(gray := [], grayagain := []);
    MarkAllAppend(m, c, [Obj(m.main), m.registry], m.mt);
    MarkAllTwo(m, c, Obj(m.main), m.registry);
  }

  lemma MarkAllTwo(m: Mem, c: Col, a: Value, b: Value)
    ensures MarkAll(m, c, [a, b]) == MarkValue(m, MarkValue(m, c, a), b)
  {
    assert [a, b][1..] == [b];
    assert MarkAll(m, MarkValue(m, c, a), [b]) == MarkAll(m, MarkValue(m, MarkValue(m, c, a), b), []);
  }

  /** The main thread is a thread, so marking it leaves something to traverse. */
  lemma MainBecomesGray(m: Mem, c: Col, rest: seq<Value>)
    requires Shape(m) && c.mark.Keys == m.objs.Keys
    requires IsWhite(c, m.main) && KindOf(m, m.main) == Thread
    ensures MarkAll(m, c, [Obj(m.main)] + rest).gray != []
    ensures Marked(MarkAll(m, c, [Obj(m.main)] + rest), m.main)
  {
    var c1 := MarkValue(m, c, Obj(m.main));
    assert c1 == ReallyMark(m, c, m.main);
    assert c1 == SetMark(c, m.main, Gray).(gray := [m.main] + c.gray);
    assert ([Obj(m.main)] + rest)[1..] == rest;
    var n := MarkAllGrown(m, c1, rest);
    GrownKeeps(m, c1, MarkAll(m, c1, rest), n, m.main);
  }

  /** A state whose colours are a marking in progress. */
  ghost predicate Marking(s: State) {
    && WellFormed(s) && Closed(s) && NothingDead(s)
    && Tri(s.mem, s.col, Elems(s.col.grayagain), {}, {}) && NoDup(s.col.grayagain)
    && s.col.gray != [] && Marked(s.col, s.mem.main) && s.sweepgc.None?
  }

  lemma MarkingInv(s: State)
    requires Marking(s)
    ensures Inv(s.(gcstate := Propagate))
  {
    SetSweepKeeps(s, Propagate, None);
  }

  /** Marking the roots of a graph in which everything is white. */
  lemma RootsMark(m: Mem, c: Col)
    requires Shape(m) && c.mark.Keys == m.objs.Keys && CachesOfProtos(m, c) && KindOf(m, m.main) == Thread
    requires (forall r :: r in c.mark ==> c.mark[r].White?) && m.main in c.mark
    ensures var d := MarkAll(m, c.(gray := [], grayagain := []), Roots0(m));
      && Tri(m, d, {}, {}, {}) && d.grayagain == [] && d.cache == c.cache
      && d.gray != [] && Marked(d, m.main)
      && (forall x :: IsWhite(d, x) ==> IsWhite(c, x) && d.mark[x] == c.mark[x])
  {
    hide Tri, Shape, MarkAll, CachesOfProtos, KindOf;
    TriFresh(m, c);
    TriMarkAll(m, c.(gray := [], grayagain := []), Roots0(m), {}, {}, {});
    assert Roots0(m) == [Obj(m.main)] + ([m.registry] + m.mt);
    MainBecomesGray(m, c.(gray := [], grayagain := []), [m.registry] + m.mt);
  }

  lemma RootsMarking(s: State, c0: Col)
    requires WellFormed(s) && Closed(s) && AllWhite(s)
    requires c0 == s.col.(gray := [], grayagain := [])
    ensures Marking(s.(col := MarkAll(s.mem, c0, Roots0(s.mem))))
  {
    hide Tri, MarkAll, Closed, KindColour, Roots0;
    MainIsLive(s);
    RootsMark(s.mem, s.col);
    var d := MarkAll(s.mem, c0, Roots0(s.mem));
    MarkedStateKeeps(s, d, {}, {});
    assert Elems(d.grayagain) == {};
  }

  lemma PauseStep(s: State)
    requires Inv(s) && s.gcstate.Pause?
    ensures Inv(SingleStep(s))
  {
    hide WellFormed, Whites, Marking, MarkAll;
    var c0 := s.col.(gray := [], grayagain := []);
    RestartMarksRoots(s);
    RootsMarking(s, c0);
    MarkingInv(s.(col := MarkAll(s.mem, c0, Roots0(s.mem))));
  }

  // ---- propagate ----

  /** A visited thread sits on `grayagain`, where the mutator phase wants it. */
  lemma TravIsAgain(m: Mem, c: Col, again: set<Ref>, trav: set<Ref>)
    requires Tri(m, c, again, trav, {})
    ensures Tri(m, c, again + trav, {}, {})
  {
  }

  /** One `propagatemark` between two phases of the mutator. */
  lemma PropagateMarkOk(m: Mem, c: Col)
    requires Tri(m, c, Elems(c.grayagain), {}, {}) && NoDup(c.grayagain) && c.gray != []
    ensures var d := PropagateMark(m, c);
      && Tri(m, d, Elems(d.grayagain), {}, {}) && NoDup(d.grayagain)
      && CachesShrink(c, d)
      && (forall x :: Marked(c, x) ==> Marked(d, x))
      && (forall x :: IsWhite(d, x) ==> IsWhite(c, x) && d.mark[x] == c.mark[x])
  {
    var o, d := c.gray[0], PropagateMark(m, c);
    var again := Elems(c.grayagain);
    var t := if KindOf(m, o) == Thread then {o} else {};
    assert o in c.gray && o !in again;
    hide Tri, PropagateMark;
    TriPropagateMark(m, c, again, {});
    PropagateMarkCaches(m, c, again, {});
    assert {} + {o} == {o};
    TravIsAgain(m, d, again, t);
    assert Elems(d.grayagain) == again + t;
    SameKeys(m, c, d, again, t);
  }

  lemma SameKeys(m: Mem, c: Col, d: Col, again: set<Ref>, t: set<Ref>)
    requires Tri(m, c, again, {}, {}) && Tri(m, d, again, t, {})
    ensures c.mark.Keys == d.mark.Keys
  {
  }

  lemma PropagateStep(s: State)
    requires Inv(s) && s.gcstate.Propagate?
    ensures Inv(SingleStep(s))
  {
    hide Tri, PropagateMark, WellFormed, Closed, NoDup, EnterSweep, SweepStep, RestartCollection, AtomicStep, PropagateAll, IsWhite, Marked;
    var d := PropagateMark(s.mem, s.col);
    PropagateMarkOk(s.mem, s.col);
    MarkedStateKeeps(s, d, Elems(d.grayagain), {});
    SetSweepKeeps(s.(col := d), if d.gray == [] then Atomic else Propagate, None);
    assert SingleStep(s) == s.(col := d, gcstate := if d.gray == [] then Atomic else Propagate);
  }

  // ---- atomic ----

  /** Everything non-white only refers to non-white objects: what the collector
      knows when it flips the white. */
  ghost predicate Complete(m: Mem, c: Col) {
    && (forall r :: Marked(c, r) ==> ChildrenMarked(m, c, r) && CacheMarked(m, c, r))
    && (forall r :: Root(m, r) ==> !IsWhite(c, r))
  }

  lemma MarkRootsAgain(m: Mem, c: Col, again: set<Ref>) returns (d: Col)
    requires Tri(m, c, again, {}, {})
    ensures d == MarkAll(m, MarkValue(m, MarkValue(m, c, Obj(m.running)), m.registry), m.mt)
    ensures Tri(m, d, again, {}, {}) && d.grayagain == c.grayagain && d.cache == c.cache
    ensures forall r :: Root(m, r) && r != m.main ==> !IsWhite(d, r)
    ensures forall x :: !IsWhite(c, x) ==> !IsWhite(d, x)
    ensures forall x :: IsWhite(d, x) ==> IsWhite(c, x) && d.mark[x] == c.mark[x]
  {
    hide MarkValue, Tri;
    var vs := [Obj(m.running), m.registry] + m.mt;
    MarkAllAppend(m, c, [Obj(m.running), m.registry], m.mt);
    MarkAllTwo(m, c, Obj(m.running), m.registry);
    TriMarkAll(m, c, vs, again, {}, {});
    d := MarkAll(m, c, vs);
    forall r | Root(m, r) && r != m.main ensures !IsWhite(d, r) {
      assert Obj(r) in vs;
    }
  }

  lemma AtomicComplete(m: Mem, c: Col) returns (trav: set<Ref>)
    requires Tri(m, c, Elems(c.grayagain), {}, {}) && NoDup(c.grayagain) && Marked(c, m.main)
    ensures var d := AtomicMark(m, c);
      && Complete(m, d)
      && Tri(m, d, {}, trav, {})
      && CachesShrink(c, d)
      && (forall x :: IsWhite(d, x) ==> IsWhite(c, x) && d.mark[x] == c.mark[x])
  {
    hide Tri, Complete;
    var again := Elems(c.grayagain);
    var c1 := MarkRootsAgain(m, c, again);
    var t := TriPropagateAll(m, c1, again, {});
    PropagateAllCaches(m, c1, again, {});
    var c2 := PropagateAll(m, c1);
    var c3 := c2.(gray := c.grayagain);
    TriSwapLists(m, c2, c.grayagain, t);
    trav := TriPropagateAll(m, c3, {}, t);
    PropagateAllCaches(m, c3, {}, t);
    var d := PropagateAll(m, c3);
    assert d == AtomicMark(m, c);
    forall x ensures (!IsWhite(c1, x) ==> !IsWhite(d, x)) && (IsWhite(d, x) ==> IsWhite(c1, x) && d.mark[x] == c1.mark[x]) {
      assert IsWhite(c3, x) <==> IsWhite(c2, x);
    }
    NoGrayLeft(m, d, trav);
  }

  lemma NoGrayLeft(m: Mem, d: Col, trav: set<Ref>)
    requires Tri(m, d, {}, trav, {}) && d.gray == []
    requires forall r :: Root(m, r) ==> !IsWhite(d, r)
    ensures Complete(m, d)
  {
    forall r | Marked(d, r) ensures ChildrenMarked(m, d, r) && CacheMarked(m, d, r) {
      if IsBlack(d, r) {
        assert BlackOk(m, d, r, {});
      } else {
        assert IsGray(d, r) && r in trav;
        assert KindOf(m, r) == Thread;
      }
    }
  }

  /** Making the saved `grayagain` list the gray list. */
  lemma TriSwapLists(m: Mem, c: Col, ga: seq<Ref>, trav: set<Ref>)
    requires Tri(m, c, Elems(ga), trav, {}) && c.gray == [] && NoDup(ga)
    ensures Tri(m, c.(gray := ga), {}, trav, {})
  {
    var d := c.(gray := ga);
    forall r | IsBlack(d, r) ensures BlackOk(m, d, r, {}) { assert BlackOk(m, c, r, {}); }
    forall r | r in trav ensures ChildrenMarked(m, d, r) { assert ChildrenMarked(m, c, r); }
  }

  /** After the flip exactly the unmarked objects are dead. */
  lemma FlipKeeps(s: State, c: Col, trav: set<Ref>)
    requires WellFormed(s) && Closed(s) && NothingDead(s)
    requires Tri(s.mem, c, {}, trav, {}) && Complete(s.mem, c) && CachesShrink(s.col, c)
    requires forall x :: IsWhite(c, x) ==> IsWhite(s.col, x) && c.mark[x] == s.col.mark[x]
    ensures var t := s.(col := c, cw := !s.cw);
      && WellFormed(t) && Closed(t)
      && forall r :: Live(t, r) <==> Marked(c, r)
  {
    hide WellFormed, Tri, Complete, NothingDead, Live, Marked;
    var u := s.(col := c);
    MarkedStateKeeps(s, c, {}, trav);
    FlipLive(u);
    FlipClosed(u);
  }

  lemma FlipLive(u: State)
    requires WellFormed(u) && NothingDead(u)
    ensures var t := u.(cw := !u.cw);
      && WellFormed(t)
      && (forall r :: Live(t, r) <==> Marked(u.col, r)) && (forall r :: Live(t, r) ==> Live(u, r))
      && forall r :: Live(u, r) && !IsWhite(u.col, r) ==> Live(t, r)
  {
    hide Shape, NoDup, CachesOfProtos;
    var t := u.(cw := !u.cw);
    forall r | r in t.mem.objs ensures KindColour(t, r) { assert KindColour(u, r); }
    forall r | r in u.col.mark && IsWhite(u.col, r) ensures u.col.mark[r] == White(u.cw) {}
  }

  lemma FlipClosed(u: State)
    requires Closed(u) && Complete(u.mem, u.col)
    requires var t := u.(cw := !u.cw);
      && (forall r :: Live(t, r) <==> Marked(u.col, r)) && (forall r :: Live(t, r) ==> Live(u, r))
      && forall r :: Live(u, r) && !IsWhite(u.col, r) ==> Live(t, r)
    ensures Closed(u.(cw := !u.cw))
  {
    var t := u.(cw := !u.cw);
    forall r | Live(t, r) ensures ChildrenLive(t, r) {
      assert Live(u, r) && ChildrenLive(u, r);
      assert ChildrenMarked(u.mem, u.col, r) && CacheMarked(u.mem, u.col, r);
    }
    forall r | Root(t.mem, r) ensures Live(t, r) { assert Live(u, r); }
  }

  /** Draining the gray list at the start of the atomic phase. */
  lemma PropagateAllOk(m: Mem, c: Col)
    requires Tri(m, c, Elems(c.grayagain), {}, {}) && NoDup(c.grayagain)
    ensures var d := PropagateAll(m, c);
      && Tri(m, d, Elems(d.grayagain), {}, {}) && NoDup(d.grayagain)
      && CachesShrink(c, d)
      && (forall x :: Marked(c, x) ==> Marked(d, x))
      && (forall x :: IsWhite(d, x) ==> IsWhite(c, x) && d.mark[x] == c.mark[x])
  {
    hide Tri, PropagateAll;
    var d := PropagateAll(m, c);
    var again := Elems(c.grayagain);
    var t := TriPropagateAll(m, c, again, {});
    PropagateAllCaches(m, c, again, {});
    TravIsAgain(m, d, again, t);
    assert Elems(d.grayagain) == again + t;
    PropagateAllNoDup(m, c, again, {});
    SameKeys(m, c, d, again, t);
  }

  lemma AtomicStepKeeps(s: State)
    requires Inv(s) && s.gcstate.Atomic?
    ensures Inv(SingleStep(s))
    ensures var c := AtomicMark(s.mem, PropagateAll(s.mem, s.col));
      forall r :: Live(SingleStep(s), r) <==> Marked(c, r)
  {
    hide Tri, Complete, WellFormed, Closed, NoDup, PropagateAll, AtomicMark, EnterSweep, SweepStep, Marked, Live, IsWhite;
    var m := s.mem;
    var c, d := PropagateAll(m, s.col), AtomicMark(m, PropagateAll(m, s.col));
    PropagateAllOk(m, s.col);
    var trav := AtomicComplete(m, c);
    FlipKeeps(s, d, trav);
    EnterSweepKeeps(s.(col := d, cw := !s.cw));
    assert AtomicStep(s.(col := c)) == s.(col := d, cw := !s.cw);
  }

  lemma {:induction false} PropagateAllNoDup(m: Mem, c: Col, again: set<Ref>, trav: set<Ref>)
    requires Tri(m, c, again, trav, {})
    requires NoDup(c.grayagain) && Elems(c.grayagain) == again + trav
    ensures NoDup(PropagateAll(m, c).grayagain)
    decreases Whites(c), |c.gray|
  {
    hide Tri, PropagateMark;
    if c.gray != [] {
      var o := c.gray[0];
      var d := PropagateMark(m, c);
      TriPropagateMark(m, c, again, trav);
      TriFirst(m, c, again, trav);
      var t := if KindOf(m, o) == Thread then trav + {o} else trav;
      assert o !in Elems(c.grayagain);
      assert o !in c.grayagain;
      assert Elems(d.grayagain) == Elems(c.grayagain) + (if KindOf(m, o) == Thread then {o} else {});
      PropagateAllNoDup(m, d, again, t);
    }
  }

  // ---- sweep ----

  lemma SweepStepKeeps(s: State)
    requires Inv(s) && (s.gcstate.SwpAllGc? || s.gcstate.SwpFinObj? || s.gcstate.SwpToBeFnz?)
    ensures Inv(SingleStep(s)) && SameLive(s, SingleStep(s))
  {
    var k := if s.sweepgc.Some? then s.sweepgc.value else 0;
    assert s.allgc[..|s.allgc| - k] <= s.allgc;
    assert SweepInv(s, k) by {
      if k == 0 { assert s.allgc[..|s.allgc|] == s.allgc; }
    }
    var r := if s.sweepgc.Some? then SweepList(s, k, GCSWEEPMAX) else (s, None);
    SweepListKeeps(s, k, GCSWEEPMAX);
    assert Swept(s, r);
    SweepStepEnds(s, r, k);
  }

  lemma SweepStepEnds(s: State, r: (State, Option<nat>), k: nat)
    requires Swept(s, r) && (s.gcstate.SwpAllGc? || s.gcstate.SwpFinObj? || s.gcstate.SwpToBeFnz?)
    requires s.sweepgc.Some? ==> k == s.sweepgc.value <= |s.allgc|
    requires r == if s.sweepgc.Some? then SweepList(s, k, GCSWEEPMAX) else (s, None)
    requires !s.gcstate.SwpAllGc? ==> k == 0
    ensures Inv(SingleStep(s)) && SameLive(s, SingleStep(s))
  {
    var t := SingleStep(s);
    SetSweepKeeps(r.0, t.gcstate, t.sweepgc);
    if r.1.None? { assert r.0.allgc[..|r.0.allgc| - 0] == r.0.allgc; }
  }

  lemma MainIsLive(s: State)
    requires Closed(s)
    ensures Live(s, s.mem.main)
  {
    hide Live;
    assert Root(s.mem, s.mem.main);
  }

  lemma SwpEndStep(s: State)
    requires Inv(s) && s.gcstate.SwpEnd?
    ensures Inv(SingleStep(s)) && SameLive(s, SingleStep(s))
  {
    hide WellFormed, Closed, Live, AllCurrentWhite, AllWhite, SetMark, EnterSweep, SweepStep, RestartCollection, AtomicStep, PropagateMark;
    var u := s.(col := SetMark(s.col, s.mem.main, White(s.cw)));
    EndWhitens(s, u);
    SetSweepKeeps(u, CallFin, u.sweepgc);
    WhiteStays(u, u.(gcstate := CallFin));
  }

  /** The main thread, which is not in `allgc`, is the last to become white. */
  lemma EndWhitens(s: State, u: State)
    requires Inv(s) && s.gcstate.SwpEnd? && u == s.(col := SetMark(s.col, s.mem.main, White(s.cw)))
    ensures WellFormed(u) && Closed(u) && SameLive(s, u) && AllWhite(u)
  {
    MainIsLive(s);
    WhitenKeeps(s, s.mem.main);
    hide Closed, Shape, NoDup, CachesOfProtos, KindColour;
  }

  lemma WhiteStays(u: State, t: State)
    requires AllWhite(u) && t == u.(gcstate := t.gcstate)
    ensures AllWhite(t)
  {
  }

  lemma CallFinStep(s: State)
    requires Inv(s) && s.gcstate.CallFin?
    ensures Inv(SingleStep(s)) && SameLive(s, SingleStep(s))
  {
    SetSweepKeeps(s, Pause, s.sweepgc);
  }

  /** The collector keeps the invariant, in every phase. */
  lemma SingleStepKeeps(s: State)
    requires Inv(s)
    ensures Inv(SingleStep(s))
  {
    hide Inv;
    match s.gcstate
    case Pause => PauseStep(s);
    case Propagate => PropagateStep(s);
    case Atomic => AtomicStepKeeps(s);
    case SwpAllGc => SweepStepKeeps(s);
    case SwpFinObj => SweepStepKeeps(s);
    case SwpToBeFnz => SweepStepKeeps(s);
    case SwpEnd => SwpEndStep(s);
    case CallFin => CallFinStep(s);
  }
}
