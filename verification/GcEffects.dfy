/** What a step of the program does to the graph, slot by slot: the one place it names
  gets the value, and everything else is as it was. */
module GcEffects {
  import opened GcModel
  import opened GcMark
  import opened GcInvariant
  import opened GcCollector
  import opened GcPhase
  import opened GcCycle
  import opened GcMutator

  /** The same objects with the same contents, but for `p`, which keeps its kind and its
      upvalues. */
  ghost predicate OnlySlots(m: Mem, n: Mem, p: Ref) {
    && n.objs.Keys == m.objs.Keys && p in m.objs
    && (forall x | x in m.objs && x != p :: n.objs[x] == m.objs[x])
    && n.objs[p].kind == m.objs[p].kind && n.objs[p].upvals == m.objs[p].upvals
    && n.cells == m.cells && SameRoots(m, n)
  }

  predicate SameRoots(m: Mem, n: Mem) {
    n.main == m.main && n.running == m.running && n.registry == m.registry && n.mt == m.mt
  }

  /** Slot `i` of `p` is `v`, appended if there was none, and no other slot changed. */
  ghost predicate SlotIs(m: Mem, n: Mem, p: Ref, i: nat, v: Value) {
    && OnlySlots(m, n, p)
    && var a, b := m.objs[p].slots, n.objs[p].slots;
      && |b| == (if i < |a| then |a| else i + 1) && b[i] == v
      && forall j | 0 <= j < |a| && j != i :: b[j] == a[j]
  }

  /** `v` is on top of the stack of the thread. */
  ghost predicate PushedOn(m: Mem, n: Mem, th: Ref, v: Value) {
    && OnlySlots(m, n, th)
    && var a, b := m.objs[th].slots, n.objs[th].slots;
      |b| == |a| + 1 && b[|a|] == v && forall j | 0 <= j < |a| :: b[j] == a[j]
  }

  /** Cell `u` is `v`, and no other cell changed. */
  ghost predicate CellIs(m: Mem, n: Mem, u: Cell, v: Value) {
    && u in n.cells && n.cells[u] == v && n.cells.Keys == m.cells.Keys + {u}
    && (forall w | w in m.cells && w != u :: n.cells[w] == m.cells[w])
    && n.objs == m.objs && SameRoots(m, n)
  }

  /** `t` keeps the graph of `s` except for the objects it dropped, whose identities
      stay used up. */
  ghost predicate Dropped(s: State, t: State) {
    && t.mem.objs.Keys <= s.mem.objs.Keys
    && (forall r :: r in t.mem.objs ==> t.mem.objs[r] == s.mem.objs[r])
    && t.mem == s.mem.(objs := t.mem.objs) && t.next == s.next
  }

  /** What each operation does to the graph. A new object gets an identity that none
      has, and is on the stack of the thread; the collector only drops objects. */
  ghost predicate Effect(s: State, op: Op, t: State) {
    match op
    case NewObject(th, o) =>
      && s.next !in s.mem.objs && s.next in t.mem.objs && t.mem.objs[s.next] == o
      && PushedOn(s.mem, t.mem.(objs := t.mem.objs - {s.next}), th, Obj(s.next))
    case StoreBack(p, i, v) => SlotIs(s.mem, t.mem, p, i, v)
    case StoreForward(p, i, v) => SlotIs(s.mem, t.mem, p, i, v)
    case WriteStack(th, slots) => OnlySlots(s.mem, t.mem, th) && t.mem.objs[th].slots == slots
    case WriteUpval(u, v) => CellIs(s.mem, t.mem, u, v)
    case SetRegistry(v) => t.mem.registry == v && SameRoots(s.mem.(registry := v), t.mem) && SameHeap(s.mem, t.mem)
    case SetMetatable(k, v) =>
      && |t.mem.mt| == |s.mem.mt| && k < |s.mem.mt| && t.mem.mt[k] == v
      && (forall j | 0 <= j < |s.mem.mt| && j != k :: t.mem.mt[j] == s.mem.mt[j])
      && SameRoots(s.mem.(mt := t.mem.mt), t.mem) && SameHeap(s.mem, t.mem)
    case Resume(th) => t.mem.running == th && SameRoots(s.mem.(running := th), t.mem) && SameHeap(s.mem, t.mem)
    case Intern(th, str) => PushedOn(s.mem, t.mem, th, Obj(str)) && !IsDead(t, str)
    case LoadCache(th, p) => p in s.col.cache && PushedOn(s.mem, t.mem, th, Obj(s.col.cache[p]))
    case StoreCache(p, cl) => t.mem == s.mem && CacheIs(s, t, p, cl)
    case Collect => Dropped(s, t)
  }

  predicate SameHeap(m: Mem, n: Mem) { n.objs == m.objs && n.cells == m.cells }

  /** The closure is in the cache of the prototype unless this is black; no other cache
      changed. */
  ghost predicate CacheIs(s: State, t: State, p: Ref, cl: Ref) {
    && (forall q | q != p :: q in t.col.cache <==> q in s.col.cache)
    && (forall q | q != p && q in s.col.cache :: t.col.cache[q] == s.col.cache[q])
    && if IsBlack(s.col, p) then t.col.cache == s.col.cache else p in t.col.cache && t.col.cache[p] == cl
  }

  /** Of the rest of the state, only an allocation changes anything: the object is first
      in `allgc`, its identity is used up, and a short string is in the string table. */
  ghost predicate Elsewhere(s: State, op: Op, t: State) {
    op.Collect? || (
      && t.gcstate == s.gcstate && t.cw == s.cw && t.sweepgc == s.sweepgc
      && if op.NewObject? then
          && t.allgc == [s.next] + s.allgc && t.next == s.next + 1 && s.next in t.col.mark && t.col.mark[s.next] == White(s.cw)
          && t.strt == if op.obj.kind == ShrStr then s.strt + {s.next} else s.strt
        else t.allgc == s.allgc && t.next == s.next && t.strt == s.strt)
  }

  lemma PushIs(m: Mem, th: Ref, v: Value)
    requires th in m.objs
    ensures PushedOn(m, SetSlots(m, th, m.objs[th].slots + [v]), th, v)
  {
  }

  lemma StoreIs(m: Mem, p: Ref, i: nat, v: Value)
    requires p in m.objs && i <= |m.objs[p].slots|
    ensures SlotIs(m, SetSlots(m, p, PutSlot(m.objs[p].slots, i, v)), p, i, v)
  {
  }

  /** Barriers leave the graph alone. */
  lemma BarriersColour(s: State, p: Ref, v: Value)
    ensures Barrier(s, p, v) == s.(col := Barrier(s, p, v).col)
    ensures BarrierBack(s, p, v) == s.(col := BarrierBack(s, p, v).col)
    ensures UpvalBarrier(s, v) == s.(col := UpvalBarrier(s, v).col)
  {
  }

  lemma StoreEffect(s: State, op: Op)
    requires Inv(s) && Enabled(s, op) && (op.StoreBack? || op.StoreForward?)
    ensures Effect(s, op, Next(s, op)) && Elsewhere(s, op, Next(s, op))
  {
    hide Inv, SlotIs, Barrier, BarrierBack, SetSlots, PutSlot, Reach;
    match op
    case StoreBack(p, i, v) =>
      StoreIs(s.mem, p, i, v);
      BarriersColour(Store(s, p, i, v), p, v);
    case StoreForward(p, i, v) =>
      StoreIs(s.mem, p, i, v);
      BarriersColour(Store(s, p, i, v), p, v);
  }

  /** With the new object left out, the graph is the old one with the object pushed. */
  lemma NewIs(s: State, th: Ref, o: Object)
    requires s.next !in s.mem.objs && th in s.mem.objs
    ensures var m := Push(NewObj(s, o), th, Obj(s.next)).mem;
      s.next in m.objs && m.objs[s.next] == o && m.(objs := m.objs - {s.next}) == SetSlots(s.mem, th, s.mem.objs[th].slots + [Obj(s.next)])
  {
    var m := Push(NewObj(s, o), th, Obj(s.next)).mem;
    assert m.objs - {s.next} == SetSlots(s.mem, th, s.mem.objs[th].slots + [Obj(s.next)]).objs;
  }

  lemma FreshId(s: State)
    requires Inv(s)
    ensures s.next !in s.mem.objs
  {
    hide Closed, PhaseOk;
  }

  lemma NewEffect(s: State, op: Op)
    requires Inv(s) && Enabled(s, op) && op.NewObject?
    ensures Effect(s, op, Next(s, op)) && Elsewhere(s, op, Next(s, op))
  {
    hide Inv, Reach, PushedOn, CellUsable, ShapeObj;
    FreshId(s);
    PushIs(s.mem, op.thread, Obj(s.next));
    NewIs(s, op.thread, op.obj);
  }

  lemma StackEffect(s: State, op: Op)
    requires Inv(s) && Enabled(s, op) && (op.WriteStack? || op.LoadCache?)
    ensures Effect(s, op, Next(s, op)) && Elsewhere(s, op, Next(s, op))
  {
    hide Inv, Reach, PushedOn;
    match op
    case WriteStack(th, slots) =>
    case LoadCache(th, p) => PushIs(s.mem, th, Obj(s.col.cache[p]));
  }

  lemma InternEffect(s: State, op: Op)
    requires Inv(s) && Enabled(s, op) && op.Intern?
    ensures Effect(s, op, Next(s, op)) && Elsewhere(s, op, Next(s, op))
  {
    hide Inv, Reach, PushedOn;
    PushIs(s.mem, op.thread, Obj(op.str));
  }

  lemma UpvalEffect(s: State, op: Op)
    requires Inv(s) && Enabled(s, op) && op.WriteUpval?
    ensures Effect(s, op, Next(s, op)) && Elsewhere(s, op, Next(s, op))
  {
    hide Inv, Enabled, UpvalBarrier;
    BarriersColour(s.(mem := s.mem.(cells := s.mem.cells[op.u := op.v])), 0, op.v);
  }

  lemma RootEffect(s: State, op: Op)
    requires Inv(s) && Enabled(s, op) && (op.SetRegistry? || op.SetMetatable? || op.Resume? || op.StoreCache?)
    ensures Effect(s, op, Next(s, op)) && Elsewhere(s, op, Next(s, op))
  {
    hide Inv, Reach;
  }

  /** A step of the program does what its operation says, and nothing else. */
  lemma OpEffect(s: State, op: Op)
    requires Inv(s) && Enabled(s, op) && !op.Collect?
    ensures Effect(s, op, Next(s, op)) && Elsewhere(s, op, Next(s, op))
  {
    hide Inv, Enabled, Effect, Elsewhere;
    if op.StoreBack? || op.StoreForward? { StoreEffect(s, op); }
    else if op.NewObject? { NewEffect(s, op); }
    else if op.WriteUpval? { UpvalEffect(s, op); }
    else if op.Intern? { InternEffect(s, op); }
    else if op.WriteStack? || op.LoadCache? { StackEffect(s, op); }
    else { RootEffect(s, op); }
  }

  // ---- what stays ----

  /** The operation may change slot `i` of `p`. */
  predicate Overwrites(op: Op, p: Ref, i: nat) {
    match op
    case StoreBack(q, j, _) => q == p && j == i
    case StoreForward(q, j, _) => q == p && j == i
    case WriteStack(th, _) => th == p
    case _ => false
  }

  /** Slot `i` of `p` is there, with `v` in it. */
  ghost predicate Has(s: State, p: Ref, i: nat, v: Value) {
    p in s.mem.objs && i < |s.mem.objs[p].slots| && s.mem.objs[p].slots[i] == v
  }

  /** A step leaves every slot alone that it does not name, unless it drops the object. */
  lemma SlotKept(s: State, op: Op, t: State, p: Ref, i: nat, v: Value)
    requires Effect(s, op, t) && Has(s, p, i, v) && !Overwrites(op, p, i)
    ensures p in t.mem.objs ==> Has(t, p, i, v)
  {
    if op.NewObject? && p != s.next && p in t.mem.objs {
      assert (t.mem.objs - {s.next})[p] == t.mem.objs[p];
    }
  }

  /** An identity that is used up never comes back. */
  lemma GoneStays(s: State, op: Op, t: State, p: Ref)
    requires Effect(s, op, t) && Elsewhere(s, op, t) && p !in s.mem.objs && p < s.next
    ensures p !in t.mem.objs && p < t.next
  {
    if op.NewObject? {
      assert (t.mem.objs - {s.next}).Keys == t.mem.objs.Keys - {s.next};
    }
  }

  /** A cell keeps its value until it is written. */
  lemma CellKept(s: State, op: Op, t: State, u: Cell)
    requires Effect(s, op, t) && u in s.mem.cells && (op.WriteUpval? ==> op.u != u)
    ensures u in t.mem.cells && t.mem.cells[u] == s.mem.cells[u]
  {
  }
}
