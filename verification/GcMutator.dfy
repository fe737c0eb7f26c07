/** The mutator: allocation, stores with the barrier each store uses, stack
  writes without one, string interning and the closure cache. */
module GcMutator {
  import opened GcModel
  import opened GcMark
  import opened GcInvariant
  import opened GcCollector
  import opened GcPhase
  import opened GcCycle

  // ---- operations ----

  function SetSlots(m: Mem, p: Ref, slots: seq<Value>): Mem
    requires p in m.objs
  {
    m.(objs := m.objs[p := m.objs[p].(slots := slots)])
  }

  function PutSlot(slots: seq<Value>, i: nat, v: Value): seq<Value>
    requires i <= |slots|
  {
    if i < |slots| then slots[i := v] else slots + [v]
  }

  /** `luaC_barrier_` behind its macro: forward while the invariant must hold,
      otherwise "sweep" the black object on the spot. */
  function Barrier(s: State, p: Ref, v: Value): State {
    if v.Obj? && IsBlack(s.col, p) && IsWhite(s.col, v.ref) then
      if KeepInvariant(s) then s.(col := ReallyMark(s.mem, s.col, v.ref))
      else s.(col := SetMark(s.col, p, White(s.cw)))
    else s
  }

  /** `luaC_barrierback_` behind its macro: the black table turns gray again. */
  function BarrierBack(s: State, t: Ref, v: Value): State {
    if v.Obj? && IsBlack(s.col, t) && IsWhite(s.col, v.ref) then
      s.(col := SetMark(s.col, t, Gray).(grayagain := [t] + s.col.grayagain))
    else s
  }

  /** `luaC_upvalbarrier_`: the colour of the closures is unknown, so the value
      is marked whenever the invariant must hold. */
  function UpvalBarrier(s: State, v: Value): State {
    if KeepInvariant(s) then s.(col := MarkValue(s.mem, s.col, v)) else s
  }

  function Store(s: State, p: Ref, i: nat, v: Value): State
    requires p in s.mem.objs && i <= |s.mem.objs[p].slots|
  {
    s.(mem := SetSlots(s.mem, p, PutSlot(s.mem.objs[p].slots, i, v)))
  }

  function SetStack(s: State, th: Ref, slots: seq<Value>): State
    requires th in s.mem.objs
  {
    s.(mem := SetSlots(s.mem, th, slots))
  }

  function Push(s: State, th: Ref, v: Value): State
    requires th in s.mem.objs
  {
    SetStack(s, th, s.mem.objs[th].slots + [v])
  }

  function SetUpval(s: State, u: Cell, v: Value): State {
    UpvalBarrier(s.(mem := s.mem.(cells := s.mem.cells[u := v])), v)
  }

  /** `luaC_newobj`: the object is current-white and first in `allgc`; short
      strings also enter the string table. */
  function NewObj(s: State, obj: Object): State {
    s.(mem := s.mem.(objs := s.mem.objs[s.next := obj]),
       col := SetMark(s.col, s.next, White(s.cw)),
       allgc := [s.next] + s.allgc,
       strt := if obj.kind.ShrStr? then s.strt + {s.next} else s.strt,
       next := s.next + 1)
  }

  /** `internshrstr` on a string that is in the table: a dead string that has
      not been swept yet is resurrected. */
  function Resurrect(s: State, str: Ref): State {
    if IsDead(s, str) then s.(col := SetMark(s.col, str, White(s.cw))) else s
  }

  /** `pushclosure`: remember the closure unless the prototype is black. */
  function CacheClosure(s: State, p: Ref, cl: Ref): State {
    if IsBlack(s.col, p) then s else s.(col := s.col.(cache := s.col.cache[p := cl]))
  }

  datatype Op =
    | NewObject(thread: Ref, obj: Object)
    | StoreBack(table: Ref, i: nat, v: Value)
    | StoreForward(p: Ref, i: nat, v: Value)
    | WriteStack(thread: Ref, slots: seq<Value>)
    | WriteUpval(u: Cell, v: Value)
    | SetRegistry(v: Value)
    | SetMetatable(k: nat, v: Value)
    | Resume(thread: Ref)
    | Intern(thread: Ref, str: Ref)
    | LoadCache(thread: Ref, proto: Ref)
    | StoreCache(proto: Ref, cl: Ref)
    | Collect

  // ---- what the program can do: it only handles what it can reach ----

  ghost predicate ReachKind(s: State, r: Ref, k: Kind) {
    r in s.mem.objs && s.mem.objs[r].kind == k && Reach(s.mem, r)
  }

  ghost predicate ShapeObj(o: Object) {
    && (IsString(o.kind) ==> o.slots == [] && o.upvals == [])
    && (o.kind == Udata ==> |o.slots| == 2 && o.upvals == [])
  }

  ghost predicate Enabled(s: State, op: Op) {
    match op
    case NewObject(th, o) =>
      && ReachKind(s, th, Thread) && ShapeObj(o)
      && (forall v :: v in o.slots ==> ReachValue(s.mem, v))
      && (forall u :: u in o.upvals ==> CellUsable(s, u))
    case StoreBack(t, i, v) => ReachKind(s, t, Table) && i <= |s.mem.objs[t].slots| && ReachValue(s.mem, v)
    case StoreForward(p, i, v) =>
      && Reach(s.mem, p) && p in s.mem.objs
      && (s.mem.objs[p].kind in {Udata, CClosure, LClosure, Proto, Table})
      && i < |s.mem.objs[p].slots| + (if s.mem.objs[p].kind == Udata then 0 else 1)
      && ReachValue(s.mem, v)
    case WriteStack(th, slots) => ReachKind(s, th, Thread) && forall v :: v in slots ==> ReachValue(s.mem, v)
    case WriteUpval(u, v) => ReachValue(s.mem, v)
    case SetRegistry(v) => ReachValue(s.mem, v)
    case SetMetatable(k, v) => k < |s.mem.mt| && ReachValue(s.mem, v)
    case Resume(th) => ReachKind(s, th, Thread)
    case Intern(th, str) => ReachKind(s, th, Thread) && str in s.strt
    case LoadCache(th, p) => ReachKind(s, th, Thread) && ReachKind(s, p, Proto) && p in s.col.cache
    case StoreCache(p, cl) => ReachKind(s, p, Proto) && Reach(s.mem, cl)
    case Collect => true
  }

  /** A closure is built with open cells or with cells of a closure in use. */
  ghost predicate CellUsable(s: State, u: Cell) {
    || CellValue(s.mem, u) == Plain
    || exists cl :: Reach(s.mem, cl) && cl in s.mem.objs && u in s.mem.objs[cl].upvals
  }

  ghost function Next(s: State, op: Op): State
    requires Inv(s) && Enabled(s, op)
  {
    match op
    case NewObject(th, o) => Push(NewObj(s, o), th, Obj(s.next))
    case StoreBack(t, i, v) => BarrierBack(Store(s, t, i, v), t, v)
    case StoreForward(p, i, v) => Barrier(Store(s, p, i, v), p, v)
    case WriteStack(th, slots) => SetStack(s, th, slots)
    case WriteUpval(u, v) => SetUpval(s, u, v)
    case SetRegistry(v) => s.(mem := s.mem.(registry := v))
    case SetMetatable(k, v) => s.(mem := s.mem.(mt := s.mem.mt[k := v]))
    case Resume(th) => s.(mem := s.mem.(running := th))
    case Intern(th, str) => Push(Resurrect(s, str), th, Obj(str))
    case LoadCache(th, p) => Push(s, th, Obj(s.col.cache[p]))
    case StoreCache(p, cl) => CacheClosure(s, p, cl)
    case Collect => SingleStep(s)
  }

  // ---- changing the graph ----

  /** `n` is `m` with other references, but the same objects of the same kinds. */
  ghost predicate SameObjects(m: Mem, n: Mem) {
    && m.objs.Keys == n.objs.Keys
    && m.main == n.main
    && Shape(n)
    && forall r :: r in m.objs ==> n.objs[r].kind == m.objs[r].kind
  }

  lemma SameKinds(m: Mem, n: Mem)
    requires SameObjects(m, n)
    ensures forall r :: KindOf(n, r) == KindOf(m, r)
  {
  }

  /** New references to live things keep everything but the colours in order. */
  lemma RewireClosed(s: State, n: Mem)
    requires WellFormed(s) && Closed(s) && SameObjects(s.mem, n)
    requires forall r, x :: Live(s, r) && Succ(n, r, x) ==> Succ(s.mem, r, x) || Live(s, x)
    requires forall x :: Root(n, x) ==> Live(s, x)
    ensures var t := s.(mem := n); WellFormed(t) && Closed(t) && SameLive(s, t)
  {
    var t := s.(mem := n);
    SameKinds(s.mem, n);
    assert SameLive(s, t);
    forall r | r in t.mem.objs ensures KindColour(t, r) { assert KindColour(s, r); }
    forall r | Live(t, r) ensures ChildrenLive(t, r) {
      assert ChildrenLive(s, r);
      forall x | Succ(n, r, x) ensures Live(t, x) { if Succ(s.mem, r, x) { assert Live(s, x); } }
    }
  }

  lemma TriRewire(m: Mem, n: Mem, c: Col, again: set<Ref>, open: set<Ref>)
    requires Tri(m, c, again, {}, {}) && SameObjects(m, n)
    requires forall r :: IsBlack(c, r) && r !in open ==> ChildrenMarked(n, c, r)
    ensures Tri(n, c, again, {}, open)
  {
    SameKinds(m, n);
    forall r | IsBlack(c, r) ensures BlackOk(n, c, r, open) { assert BlackOk(m, c, r, {}); }
    forall r | IsGray(c, r) ensures Traversable(n, r) { assert Traversable(m, r); }
  }

  /** The phase condition, except while marking, only looks at colours. */
  lemma PhaseRewire(s: State, t: State)
    requires PhaseOk(s) && !KeepInvariant(s)
    requires t.gcstate == s.gcstate && t.sweepgc == s.sweepgc && t.cw == s.cw && t.allgc == s.allgc
    requires t.mem.objs.Keys == s.mem.objs.Keys
    requires forall r :: r in s.col.mark && s.col.mark[r] == White(s.cw) ==> r in t.col.mark && t.col.mark[r] == White(s.cw)
    ensures PhaseOk(t)
  {
  }

  /** A mutator step while marking, summed up: rewired graph, grown marks. */
  lemma MarkPhaseRewire(s: State, n: Mem, d: Col)
    requires Inv(s) && KeepInvariant(s)
    requires var u := s.(mem := n); WellFormed(u) && Closed(u)
    requires n.main == s.mem.main
    requires Tri(n, d, Elems(d.grayagain), {}, {}) && NoDup(d.grayagain)
    requires forall x :: IsWhite(d, x) ==> IsWhite(s.col, x) && d.mark[x] == s.col.mark[x]
    requires CachesShrink(s.col, d)
    requires s.col.gray != [] ==> d.gray != []
    requires n.objs.Keys == s.mem.objs.Keys
    ensures Inv(s.(mem := n, col := d))
  {
    var u := s.(mem := n);
    assert NothingDead(u);
    MarkedStateKeeps(u, d, Elems(d.grayagain), {});
    assert IsWhite(d, s.mem.main) ==> IsWhite(s.col, s.mem.main);
    assert s.mem.main in s.mem.objs;
  }

  /** A change of references that creates no black-to-white edge. */
  lemma RewireKeeps(s: State, n: Mem)
    requires Inv(s) && SameObjects(s.mem, n)
    requires forall r, x :: Live(s, r) && Succ(n, r, x) ==> Succ(s.mem, r, x) || Live(s, x)
    requires forall x :: Root(n, x) ==> Live(s, x)
    requires KeepInvariant(s) ==> forall r :: IsBlack(s.col, r) ==> ChildrenMarked(n, s.col, r)
    ensures Inv(s.(mem := n))
  {
    RewireClosed(s, n);
    if KeepInvariant(s) {
      TriRewire(s.mem, n, s.col, Elems(s.col.grayagain), {});
      MarkPhaseRewire(s, n, s.col);
      assert s.(mem := n) == s.(mem := n, col := s.col);
    } else {
      PhaseRewire(s, s.(mem := n));
    }
  }

  // ---- one lemma per kind of step ----

  lemma StoreSucc(m: Mem, p: Ref, slots: seq<Value>, r: Ref, x: Ref)
    requires p in m.objs
    ensures Succ(SetSlots(m, p, slots), r, x) ==> Succ(m, r, x) || (r == p && Obj(x) in slots)
    ensures r != p ==> Values(SetSlots(m, p, slots), r) == Values(m, r)
  {
    var n := SetSlots(m, p, slots);
    if r == p {
      assert Values(n, p) == slots + CellValues(m.cells, m.objs[p].upvals);
    }
  }

  lemma StoreKeepsObjects(m: Mem, p: Ref, slots: seq<Value>)
    requires Shape(m) && p in m.objs && !IsString(m.objs[p].kind)
    requires m.objs[p].kind == Udata ==> |slots| == 2
    ensures SameObjects(m, SetSlots(m, p, slots))
  {
  }

  /** A store of a live value, as far as liveness goes. */
  lemma StoreClosed(s: State, p: Ref, i: nat, v: Value)
    requires WellFormed(s) && Closed(s)
    requires p in s.mem.objs && i <= |s.mem.objs[p].slots| && !IsString(s.mem.objs[p].kind)
    requires s.mem.objs[p].kind == Udata ==> i < |s.mem.objs[p].slots|
    requires LiveValue(s, v)
    ensures var t := Store(s, p, i, v);
      && SameObjects(s.mem, t.mem) && WellFormed(t) && Closed(t) && SameLive(s, t)
      && forall r, x :: Succ(t.mem, r, x) ==> Succ(s.mem, r, x) || (r == p && Obj(x) == v)
  {
    var slots := PutSlot(s.mem.objs[p].slots, i, v);
    var n := SetSlots(s.mem, p, slots);
    StoreKeepsObjects(s.mem, p, slots);
    forall r, x | Succ(n, r, x) ensures Succ(s.mem, r, x) || (r == p && Obj(x) == v) {
      StoreSucc(s.mem, p, slots, r, x);
      if r == p && Obj(x) != v && Obj(x) in slots { assert Obj(x) in s.mem.objs[p].slots; }
    }
    RewireClosed(s, n);
  }

  /** While marking, a store opens at most its own object. */
  lemma StoreTri(s: State, p: Ref, i: nat, v: Value)
    requires Inv(s) && KeepInvariant(s)
    requires p in s.mem.objs && i <= |s.mem.objs[p].slots|
    requires var t := Store(s, p, i, v);
      && SameObjects(s.mem, t.mem)
      && forall r, x :: Succ(t.mem, r, x) ==> Succ(s.mem, r, x) || (r == p && Obj(x) == v)
    ensures var n := Store(s, p, i, v).mem;
      && Tri(n, s.col, Elems(s.col.grayagain), {}, {p})
      && (IsBlack(s.col, p) ==> forall x :: Succ(n, p, x) ==> !IsWhite(s.col, x) || Obj(x) == v)
  {
    var n := Store(s, p, i, v).mem;
    forall r | IsBlack(s.col, r) && r != p ensures ChildrenMarked(n, s.col, r) {
      assert BlackOk(s.mem, s.col, r, {});
    }
    TriRewire(s.mem, n, s.col, Elems(s.col.grayagain), {p});
    if IsBlack(s.col, p) { assert BlackOk(s.mem, s.col, p, {}); }
  }

  /** A store whose barrier does not fire. */
  lemma PlainStoreKeeps(s: State, p: Ref, i: nat, v: Value)
    requires Inv(s) && p in s.mem.objs && i <= |s.mem.objs[p].slots| && !IsString(s.mem.objs[p].kind)
    requires s.mem.objs[p].kind == Udata ==> i < |s.mem.objs[p].slots|
    requires LiveValue(s, v)
    requires v.Obj? && IsBlack(s.col, p) ==> !IsWhite(s.col, v.ref)
    ensures Inv(Store(s, p, i, v))
  {
    StoreClosed(s, p, i, v);
    var t := Store(s, p, i, v);
    if KeepInvariant(s) {
      StoreTri(s, p, i, v);
      if IsBlack(s.col, p) {
        TriClose(t.mem, s.col, Elems(s.col.grayagain), {}, p);
      } else {
        TriShut(t.mem, s.col, Elems(s.col.grayagain), p);
      }
      MarkPhaseRewire(s, t.mem, s.col);
      assert t == s.(mem := t.mem, col := s.col);
    } else {
      PhaseRewire(s, t);
    }
  }

  lemma TriShut(m: Mem, c: Col, again: set<Ref>, p: Ref)
    requires Tri(m, c, again, {}, {p}) && !IsBlack(c, p)
    ensures Tri(m, c, again, {}, {})
  {
    forall r | IsBlack(c, r) ensures BlackOk(m, c, r, {}) { assert BlackOk(m, c, r, {p}); }
  }

  lemma StoreBackKeeps(s: State, p: Ref, i: nat, v: Value)
    requires Inv(s) && p in s.mem.objs && i <= |s.mem.objs[p].slots| && s.mem.objs[p].kind == Table
    requires LiveValue(s, v)
    ensures Inv(BarrierBack(Store(s, p, i, v), p, v))
  {
    if v.Obj? && IsBlack(s.col, p) && IsWhite(s.col, v.ref) {
      StoreClosed(s, p, i, v);
      var t := Store(s, p, i, v);
      if KeepInvariant(s) {
        StoreTri(s, p, i, v);
        BackWhileMarking(s, t, p);
      } else {
        BackWhileSweeping(s, t, p);
      }
    } else {
      PlainStoreKeeps(s, p, i, v);
    }
  }

  /** What the backward barrier does to the colours. */
  function Regray(c: Col, p: Ref): Col {
    SetMark(c, p, Gray).(grayagain := [p] + c.grayagain)
  }

  lemma BackWhileMarking(s: State, t: State, p: Ref)
    requires Inv(s) && KeepInvariant(s) && WellFormed(t) && Closed(t)
    requires t == s.(mem := t.mem) && SameObjects(s.mem, t.mem)
    requires Tri(t.mem, s.col, Elems(s.col.grayagain), {}, {p})
    requires IsBlack(s.col, p) && KindOf(t.mem, p) == Table
    ensures Inv(t.(col := Regray(t.col, p)))
  {
    hide Tri, WellFormed, Closed, NoDup, Shape;
    GrayAgain(t.mem, s.col, s.col.grayagain, p);
    MarkPhaseRewire(s, t.mem, Regray(s.col, p));
  }

  lemma BackWhileSweeping(s: State, t: State, p: Ref)
    requires Inv(s) && !KeepInvariant(s) && WellFormed(t) && Closed(t)
    requires t == s.(mem := t.mem) && SameObjects(s.mem, t.mem)
    requires IsBlack(s.col, p) && KindOf(t.mem, p) == Table
    ensures Inv(t.(col := Regray(t.col, p)))
  {
    hide WellFormed, PhaseOk;
    RegrayKeeps(t, p, Regray(t.col, p));
    PhaseRewire(s, t.(col := Regray(t.col, p)));
  }

  /** The backward barrier moves the open object to the `grayagain` list. */
  lemma GrayAgain(m: Mem, c: Col, ga: seq<Ref>, p: Ref)
    requires Tri(m, c, Elems(ga), {}, {p}) && IsBlack(c, p) && KindOf(m, p) == Table && NoDup(ga)
    ensures var d := SetMark(c, p, Gray).(grayagain := [p] + ga);
      Tri(m, d, Elems(d.grayagain), {}, {}) && NoDup(d.grayagain)
  {
    var d := SetMark(c, p, Gray).(grayagain := [p] + ga);
    assert Elems(d.grayagain) == {p} + Elems(ga);
    assert forall x :: IsWhite(d, x) <==> IsWhite(c, x);
    forall r | IsBlack(d, r) ensures BlackOk(m, d, r, {}) {
      assert BlackOk(m, c, r, {p});
      FewerWhites(m, c, d, r);
    }
    assert p !in ga;
  }

  lemma RegrayKeeps(t: State, p: Ref, c: Col)
    requires WellFormed(t) && Closed(t) && IsBlack(t.col, p) && KindOf(t.mem, p) == Table
    requires c.mark == t.col.mark[p := Gray] && c.cache == t.col.cache
    ensures WellFormed(t.(col := c)) && Closed(t.(col := c))
  {
    var u := t.(col := c);
    assert SameLive(t, u);
    forall r | r in u.mem.objs ensures KindColour(u, r) { assert KindColour(t, r); }
    forall r | Live(u, r) ensures ChildrenLive(u, r) { assert ChildrenLive(t, r); }
  }

  lemma StoreForwardKeeps(s: State, p: Ref, i: nat, v: Value)
    requires Inv(s) && p in s.mem.objs && i <= |s.mem.objs[p].slots| && !IsString(s.mem.objs[p].kind)
    requires s.mem.objs[p].kind == Udata ==> i < |s.mem.objs[p].slots|
    requires LiveValue(s, v)
    ensures Inv(Barrier(Store(s, p, i, v), p, v))
  {
    hide Tri, WellFormed, Closed, Reach, ReallyMark, PhaseOk;
    if v.Obj? && IsBlack(s.col, p) && IsWhite(s.col, v.ref) {
      StoreClosed(s, p, i, v);
      var t := Store(s, p, i, v);
      if KeepInvariant(s) {
        StoreAndMarkKeeps(s, p, i, v);
      } else {
        WhitenWhileSweeping(s, t, p);
      }
    } else {
      PlainStoreKeeps(s, p, i, v);
    }
  }

  lemma WhitenWhileSweeping(s: State, t: State, p: Ref)
    requires Inv(s) && !KeepInvariant(s) && WellFormed(t) && Closed(t)
    requires t == s.(mem := t.mem) && SameObjects(s.mem, t.mem) && IsBlack(s.col, p) && Live(t, p)
    ensures Inv(t.(col := SetMark(s.col, p, White(s.cw))))
  {
    hide WellFormed, Closed, PhaseOk, Shape;
    WhitenKeeps(t, p);
    PhaseRewire(s, t.(col := SetMark(s.col, p, White(s.cw))));
  }

  lemma StoreAndMarkKeeps(s: State, p: Ref, i: nat, v: Value)
    requires Inv(s) && KeepInvariant(s) && p in s.mem.objs && i <= |s.mem.objs[p].slots| && !IsString(s.mem.objs[p].kind)
    requires s.mem.objs[p].kind == Udata ==> i < |s.mem.objs[p].slots|
    requires LiveValue(s, v) && v.Obj? && IsBlack(s.col, p) && IsWhite(s.col, v.ref)
    ensures var n := Store(s, p, i, v).mem; Inv(s.(mem := n, col := ReallyMark(n, s.col, v.ref)))
  {
    hide Tri, WellFormed, Closed, Reach, ReallyMark, BlackOk;
    StoreClosed(s, p, i, v);
    var t := Store(s, p, i, v);
    StoreTri(s, p, i, v);
    ForwardMarks(t.mem, s.col, p, v.ref);
    MarkPhaseRewire(s, t.mem, ReallyMark(t.mem, s.col, v.ref));
  }

  /** The forward barrier closes the open object by marking its new reference. */
  lemma ForwardMarks(m: Mem, c: Col, p: Ref, x: Ref)
    requires Tri(m, c, Elems(c.grayagain), {}, {p}) && IsWhite(c, x)
    requires forall y :: Succ(m, p, y) ==> !IsWhite(c, y) || y == x
    ensures var d := ReallyMark(m, c, x);
      && Tri(m, d, Elems(d.grayagain), {}, {}) && d.grayagain == c.grayagain
      && (forall y :: IsWhite(d, y) ==> IsWhite(c, y) && d.mark[y] == c.mark[y])
      && CachesShrink(c, d)
      && (c.gray != [] ==> d.gray != [])
  {
    var d := ReallyMark(m, c, x);
    var n := ReallyMarkGrown(m, c, x);
    TriGrown(m, c, d, n, Elems(c.grayagain), {}, {p});
    forall y | Succ(m, p, y) ensures !IsWhite(d, y) {
      if y != x { GrownKeeps(m, c, d, n, y); }
    }
    TriClose(m, d, Elems(c.grayagain), {}, p);
    forall y | IsWhite(d, y) ensures IsWhite(c, y) && d.mark[y] == c.mark[y] {
      assert MarkGrown(m, c, d, n, y);
    }
  }

  /** Threads are never black, so a stack may be rewritten without a barrier. */
  lemma SetStackKeeps(s: State, th: Ref, slots: seq<Value>)
    requires Inv(s) && th in s.mem.objs && s.mem.objs[th].kind == Thread
    requires forall v :: v in slots ==> LiveValue(s, v)
    ensures Inv(SetStack(s, th, slots))
  {
    var n := SetSlots(s.mem, th, slots);
    StoreKeepsObjects(s.mem, th, slots);
    forall r, x | Succ(n, r, x) ensures Succ(s.mem, r, x) || (r == th && Live(s, x)) {
      StoreSucc(s.mem, th, slots, r, x);
    }
    if KeepInvariant(s) {
      forall r | IsBlack(s.col, r) ensures ChildrenMarked(n, s.col, r) {
        assert BlackOk(s.mem, s.col, r, {});
        assert KindOf(s.mem, r) != Thread;
      }
    }
    forall x | Root(n, x) ensures Live(s, x) { assert Root(s.mem, x); }
    RewireKeeps(s, n);
  }

  lemma PushKeeps(s: State, th: Ref, v: Value)
    requires Inv(s) && th in s.mem.objs && s.mem.objs[th].kind == Thread && Live(s, th) && LiveValue(s, v)
    ensures Inv(Push(s, th, v))
  {
    assert ChildrenLive(s, th);
    forall w | w in s.mem.objs[th].slots + [v] ensures LiveValue(s, w) {
      if w in s.mem.objs[th].slots && w.Obj? { assert Succ(s.mem, th, w.ref); }
    }
    SetStackKeeps(s, th, s.mem.objs[th].slots + [v]);
  }

  // ---- upvalues ----

  lemma CellSucc(m: Mem, u: Cell, v: Value, r: Ref, x: Ref)
    ensures Succ(m.(cells := m.cells[u := v]), r, x) ==> Succ(m, r, x) || Obj(x) == v
  {
    var n := m.(cells := m.cells[u := v]);
    if r in m.objs && Succ(n, r, x) && Obj(x) !in m.objs[r].slots {
      var us := m.objs[r].upvals;
      assert Obj(x) in CellValues(n.cells, us);
      var i :| 0 <= i < |us| && CellValues(n.cells, us)[i] == Obj(x);
      if us[i] != u { assert CellValues(m.cells, us)[i] == Obj(x); }
    }
  }

  lemma SetUpvalKeeps(s: State, u: Cell, v: Value)
    requires Inv(s) && LiveValue(s, v)
    ensures Inv(SetUpval(s, u, v))
  {
    var n := s.mem.(cells := s.mem.cells[u := v]);
    forall r, x | Succ(n, r, x) ensures Succ(s.mem, r, x) || Obj(x) == v { CellSucc(s.mem, u, v, r, x); }
    forall x | Root(n, x) ensures Live(s, x) { assert Root(s.mem, x); }
    RewireClosed(s, n);
    if KeepInvariant(s) {
      UpvalMarks(s.mem, n, s.col, v);
      MarkPhaseRewire(s, n, MarkValue(n, s.col, v));
    } else {
      PhaseRewire(s, s.(mem := n));
    }
  }

  /** With the assigned value marked, no black closure sees a white one. */
  lemma UpvalMarks(m: Mem, n: Mem, c: Col, v: Value)
    requires Tri(m, c, Elems(c.grayagain), {}, {}) && SameObjects(m, n)
    requires forall r, x :: Succ(n, r, x) ==> Succ(m, r, x) || Obj(x) == v
    ensures var d := MarkValue(n, c, v);
      && Tri(n, d, Elems(d.grayagain), {}, {}) && d.grayagain == c.grayagain
      && (forall y :: IsWhite(d, y) ==> IsWhite(c, y) && d.mark[y] == c.mark[y])
      && CachesShrink(c, d)
      && (c.gray != [] ==> d.gray != [])
  {
    hide Tri, Succ, Shape, NoDup, BlackOk;
    var again := Elems(c.grayagain);
    TriBones(m, c, again);
    var d := MarkValue(n, c, v);
    var black := set r | r in c.mark && IsBlack(c, r);
    TriRewire(m, n, c, again, black);
    var g := MarkValueGrown(n, c, v);
    TriGrown(n, c, d, g, again, {}, black);
    forall y | IsWhite(d, y) ensures IsWhite(c, y) && d.mark[y] == c.mark[y] {
      assert MarkGrown(n, c, d, g, y);
    }
    forall r | IsBlack(d, r) ensures BlackOk(n, d, r, {}) { UpvalBlack(m, n, c, v, d, g, black, r); }
    TriReclose(n, d, again, black);
  }

  lemma TriBones(m: Mem, c: Col, again: set<Ref>)
    requires Tri(m, c, again, {}, {})
    ensures Shape(m) && c.mark.Keys == m.objs.Keys
  {
  }

  lemma TriReclose(m: Mem, c: Col, again: set<Ref>, open: set<Ref>)
    requires Tri(m, c, again, {}, open) && forall r :: IsBlack(c, r) ==> BlackOk(m, c, r, {})
    ensures Tri(m, c, again, {}, {})
  {
    hide BlackOk, Shape, NoDup;
  }

  lemma UpvalBlack(m: Mem, n: Mem, c: Col, v: Value, d: Col, g: seq<Ref>, black: set<Ref>, r: Ref)
    requires Tri(m, c, Elems(c.grayagain), {}, {}) && Tri(n, d, Elems(c.grayagain), {}, black) && Grown(n, c, d, g)
    requires forall r, x :: Succ(n, r, x) ==> Succ(m, r, x) || Obj(x) == v
    requires forall r :: r in black ==> IsBlack(c, r)
    requires v.Obj? ==> !IsWhite(d, v.ref)
    requires IsBlack(d, r)
    ensures BlackOk(n, d, r, {})
  {
    hide NoDup, Shape;
    assert BlackOk(n, d, r, black);
    if r in black {
      assert BlackOk(m, c, r, {});
      forall x | Succ(n, r, x) ensures !IsWhite(d, x) {
        if Obj(x) != v { GrownKeeps(n, c, d, g, x); }
      }
    }
  }

  // ---- roots ----

  lemma RootsKeep(s: State, n: Mem)
    requires Inv(s) && n.objs == s.mem.objs && n.cells == s.mem.cells && n.main == s.mem.main
    requires forall x :: Root(n, x) ==> Live(s, x)
    ensures Inv(s.(mem := n))
  {
    assert forall r :: Values(n, r) == Values(s.mem, r);
    if KeepInvariant(s) {
      forall r | IsBlack(s.col, r) ensures ChildrenMarked(n, s.col, r) {
        assert BlackOk(s.mem, s.col, r, {});
      }
    }
    RewireKeeps(s, n);
  }

  // ---- allocation ----

  lemma NewObjKeeps(s: State, o: Object)
    requires Inv(s) && ShapeObj(o)
    requires forall v :: v in o.slots + CellValues(s.mem.cells, o.upvals) ==> LiveValue(s, v)
    ensures Inv(NewObj(s, o)) && Live(NewObj(s, o), s.next)
    ensures forall r :: Live(s, r) ==> Live(NewObj(s, o), r)
  {
    hide WellFormed, Closed, PhaseOk, Live;
    NewObjWellFormed(s, o);
    NewObjClosed(s, o);
    if KeepInvariant(s) { NewObjTri(s, o); } else { NewObjSweep(s, o); }
  }

  /** What is new is ahead of the sweep pointer's list, and current-white. */
  lemma NewObjSweep(s: State, o: Object)
    requires Inv(s) && !KeepInvariant(s)
    ensures PhaseOk(NewObj(s, o))
  {
    hide WellFormed, Closed;
    var t := NewObj(s, o);
    if s.gcstate.SwpAllGc? && s.sweepgc.Some? {
      var k := s.sweepgc.value;
      assert t.allgc[..|t.allgc| - k] == [s.next] + s.allgc[..|s.allgc| - k];
    }
  }

  lemma NewObjWellFormed(s: State, o: Object)
    requires WellFormed(s) && ShapeObj(o)
    ensures WellFormed(NewObj(s, o))
  {
    hide KindColour, Shape, CachesOfProtos;
    var t := NewObj(s, o);
    NewObjKinds(s, o);
    assert s.next !in s.allgc;
    forall r | r in t.allgc ensures r in t.mem.objs && r != t.mem.main {
      if r != s.next { assert r in s.allgc; }
    }
  }

  lemma NewObjKinds(s: State, o: Object)
    requires WellFormed(s) && ShapeObj(o)
    ensures var t := NewObj(s, o); Shape(t.mem) && CachesOfProtos(t.mem, t.col) && forall r :: r in t.mem.objs ==> KindColour(t, r)
  {
    hide NoDup;
    var t := NewObj(s, o);
    assert s.next !in s.mem.objs;
    forall r | r in t.mem.objs ensures KindColour(t, r) {
      if r != s.next { assert KindColour(s, r); }
    }
  }

  lemma NewObjClosed(s: State, o: Object)
    requires WellFormed(s) && Closed(s) && ShapeObj(o)
    requires forall v :: v in o.slots + CellValues(s.mem.cells, o.upvals) ==> LiveValue(s, v)
    ensures var t := NewObj(s, o); Closed(t) && Live(t, s.next) && forall r :: Live(s, r) ==> Live(t, r)
  {
    var t := NewObj(s, o);
    assert s.next !in s.mem.objs;
    assert forall r :: Live(s, r) ==> Live(t, r);
    forall r | Live(t, r) ensures ChildrenLive(t, r) {
      if r != s.next {
        assert Live(s, r) && ChildrenLive(s, r);
        assert Values(t.mem, r) == Values(s.mem, r);
      } else {
        assert r !in s.col.cache;
      }
    }
    forall r | Root(t.mem, r) ensures Live(t, r) { assert Root(s.mem, r); }
  }

  lemma NewObjTri(s: State, o: Object)
    requires Inv(s) && KeepInvariant(s) && ShapeObj(o)
    ensures PhaseOk(NewObj(s, o))
  {
    NewObjMarks(s, o);
    hide Tri, WellFormed, Closed, Reach;
    var t := NewObj(s, o);
    assert MarkPhase(s);
    assert forall r :: Marked(s.col, r) <==> Marked(t.col, r);
  }

  lemma NewObjMarks(s: State, o: Object)
    requires Inv(s) && KeepInvariant(s) && ShapeObj(o)
    ensures var t := NewObj(s, o); Tri(t.mem, t.col, Elems(t.col.grayagain), {}, {})
  {
    hide BlackOk, Succ, Values, ChildrenLive, Closed, Reach, KindColour, Shape, Traversable, NoDup, CachesOfProtos;
    var t := NewObj(s, o);
    NewObjColours(s, o);
    forall r | IsBlack(t.col, r) ensures BlackOk(t.mem, t.col, r, {}) { NewObjBlack(s, o, r); }
    forall r | IsGray(t.col, r) ensures Traversable(t.mem, r) {
      assert Traversable(s.mem, r);
    }
  }

  /** The new object is white, and nothing else changes. */
  lemma NewObjColours(s: State, o: Object)
    requires Inv(s) && KeepInvariant(s) && ShapeObj(o)
    ensures var t := NewObj(s, o);
      && Shape(t.mem) && CachesOfProtos(t.mem, t.col)
      && (forall r :: IsGray(t.col, r) <==> IsGray(s.col, r)) && (forall r :: IsBlack(t.col, r) <==> IsBlack(s.col, r))
      && forall r | IsGray(s.col, r) && Traversable(s.mem, r) :: Traversable(t.mem, r)
  {
    hide BlackOk, Succ, Values, ChildrenLive, Closed, Reach, KindColour;
    var t := NewObj(s, o);
    assert s.next !in s.mem.objs;
    forall r | r in s.mem.objs ensures KindOf(t.mem, r) == KindOf(s.mem, r) {}
  }

  lemma NewObjBlack(s: State, o: Object, r: Ref)
    requires Inv(s) && KeepInvariant(s) && ShapeObj(o) && IsBlack(NewObj(s, o).col, r)
    ensures BlackOk(NewObj(s, o).mem, NewObj(s, o).col, r, {})
  {
    var t := NewObj(s, o);
    assert s.next !in s.mem.objs;
    assert BlackOk(s.mem, s.col, r, {});
    assert Values(t.mem, r) == Values(s.mem, r);
    assert Live(s, r) && ChildrenLive(s, r);
    forall x | Succ(t.mem, r, x) ensures !IsWhite(t.col, x) {
      assert Succ(s.mem, r, x) && Live(s, x);
    }
  }

  // ---- strings and caches ----

  /** In the sweep phase a dead string comes back to life; it holds no
      references, so nothing else has to. */
  lemma ResurrectKeeps(s: State, str: Ref)
    requires Inv(s) && str in s.strt
    ensures var t := Resurrect(s, str); Inv(t) && Live(t, str) && forall r :: Live(s, r) ==> Live(t, r)
  {
    hide Shape, NoDup, CachesOfProtos, Closed, Tri;
    assert KindColour(s, str);
    if IsDead(s, str) {
      ResurrectClosed(s, str);
      PhaseRewire(s, Resurrect(s, str));
    }
  }

  lemma ResurrectClosed(s: State, str: Ref)
    requires WellFormed(s) && Closed(s) && str in s.strt && IsDead(s, str)
    ensures var t := Resurrect(s, str); WellFormed(t) && Closed(t)
  {
    hide NoDup;
    var t := Resurrect(s, str);
    assert Values(s.mem, str) == [];
    assert forall r :: Live(s, r) ==> Live(t, r);
    forall r | r in t.mem.objs ensures KindColour(t, r) { assert KindColour(s, r); }
    forall r | Live(t, r) ensures ChildrenLive(t, r) {
      if r == str { assert str !in s.col.cache; } else { assert Live(s, r) && ChildrenLive(s, r); }
    }
  }

  lemma CacheKeeps(s: State, p: Ref, cl: Ref)
    requires Inv(s) && p in s.mem.objs && s.mem.objs[p].kind == Proto && Live(s, cl)
    ensures Inv(CacheClosure(s, p, cl))
  {
    hide WellFormed, Closed, PhaseOk, Live;
    if !IsBlack(s.col, p) {
      CacheClosed(s, p, cl);
      CachePhase(s, p, cl);
    }
  }

  lemma CacheClosed(s: State, p: Ref, cl: Ref)
    requires WellFormed(s) && Closed(s) && KindOf(s.mem, p) == Proto && Live(s, cl) && !IsBlack(s.col, p)
    ensures WellFormed(CacheClosure(s, p, cl)) && Closed(CacheClosure(s, p, cl))
  {
    hide Shape, NoDup;
    var t := CacheClosure(s, p, cl);
    assert SameLive(s, t);
    forall r | r in t.mem.objs ensures KindColour(t, r) { assert KindColour(s, r); }
    forall r | Live(t, r) ensures ChildrenLive(t, r) { assert ChildrenLive(s, r); }
  }

  lemma CachePhase(s: State, p: Ref, cl: Ref)
    requires Inv(s) && KindOf(s.mem, p) == Proto && !IsBlack(s.col, p)
    ensures PhaseOk(CacheClosure(s, p, cl))
  {
    hide WellFormed, Closed;
    var t := CacheClosure(s, p, cl);
    if KeepInvariant(s) {
      CacheTri(s.mem, s.col, Elems(s.col.grayagain), t.col, p, cl);
    } else {
      PhaseRewire(s, t);
    }
  }

  lemma CacheTri(m: Mem, c: Col, again: set<Ref>, d: Col, p: Ref, cl: Ref)
    requires Tri(m, c, again, {}, {}) && KindOf(m, p) == Proto && !IsBlack(c, p) && d == c.(cache := c.cache[p := cl])
    ensures Tri(m, d, again, {}, {})
  {
    hide NoDup, Shape;
    forall r | IsBlack(d, r) ensures BlackOk(m, d, r, {}) { assert BlackOk(m, c, r, {}); }
  }
}
