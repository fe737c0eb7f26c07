/** The collector as it runs: one object whose fields the functions of `lgc.c`
  update in place. Every method is tied to the function that specifies it. */
module GcHeap {
  import opened GcModel
  import opened GcMark
  import opened GcCollector
  import opened GcPhase
  import opened GcCycle
  import opened GcEffects
  import opened GcSafety
  import opened GcMutator
  import opened GcFull

  class GlobalState {
    var objs: map<Ref, Object>
    var cells: map<Cell, Value>
    const mainthread: Ref
    var running: Ref
    var registry: Value
    var mt: seq<Value>
    var marked: map<Ref, Colour>
    var gray: seq<Ref>
    var grayagain: seq<Ref>
    var cache: map<Ref, Ref>
    var gcstate: GcModel.GcState
    var currentwhite: bool
    var allgc: seq<Ref>
    var sweepgc: Option<nat>
    var strt: set<Ref>
    var next: Ref

    ghost function Graph(): Mem
      reads this
    {
      Mem(objs, cells, mainthread, running, registry, mt)
    }

    ghost function Colours(): Col
      reads this
    {
      Col(marked, gray, grayagain, cache)
    }

    ghost function View(): State
      reads this
    {
      State(Graph(), Colours(), gcstate, currentwhite, allgc, sweepgc, strt, next)
    }

    // ---- marking ----

    /** The loop follows the user values of a chain of userdata, as the
        `reentry` jump does. */
    method ReallyMarkObject(o0: Ref)
      requires IsWhite(Colours(), o0)
      modifies this`marked, this`gray
      ensures Colours() == ReallyMark(Graph(), old(Colours()), o0)
      decreases Whites(Colours()), 1
    {
      hide ReallyMark, Whites;
      var o := o0;
      var reentry := true;
      while reentry
        invariant reentry ==> IsWhite(Colours(), o)
        invariant ReallyMark(Graph(), old(Colours()), o0) == if reentry then ReallyMark(Graph(), Colours(), o) else Colours()
        invariant Whites(Colours()) <= old(Whites(Colours()))
        decreases Whites(Colours()), reentry
      {
        var uvalue := MarkOne(o);
        reentry := uvalue.Obj?;
        if reentry { o := uvalue.ref; }
      }
    }

    /** One turn; the user value that remains to be marked, if any. */
    method MarkOne(o: Ref) returns (uvalue: Value)
      requires IsWhite(Colours(), o)
      modifies this`marked, this`gray
      ensures uvalue.Obj? ==> IsWhite(Colours(), uvalue.ref)
      ensures ReallyMark(Graph(), old(Colours()), o) == if uvalue.Obj? then ReallyMark(Graph(), Colours(), uvalue.ref) else Colours()
      ensures Whites(Colours()) < old(Whites(Colours()))
      decreases Whites(Colours()), 0
    {
      assert o in Whites(Colours());
      marked := marked[o := Gray];
      assert o !in Whites(Colours());
      assert Whites(Colours()) < old(Whites(Colours()));
      uvalue := Plain;
      var kind := if o in objs then objs[o].kind else LngStr;
      match kind
      case ShrStr => marked := marked[o := Black];
      case LngStr => marked := marked[o := Black];
      case Udata =>
        MarkObject(if |objs[o].slots| > 0 then objs[o].slots[0] else Plain);
        marked := marked[o := Black];
        if |objs[o].slots| > 1 { uvalue := objs[o].slots[1]; }
        if !(uvalue.Obj? && uvalue.ref in marked && marked[uvalue.ref].White?) { uvalue := Plain; }
      case _ => gray := [o] + gray;
    }

    method MarkObject(v: Value)
      modifies this`marked, this`gray
      ensures Colours() == MarkValue(Graph(), old(Colours()), v)
      decreases Whites(Colours()), 2
    {
      if v.Obj? && v.ref in marked && marked[v.ref].White? {
        ReallyMarkObject(v.ref);
      }
    }

    method MarkValues(vs: seq<Value>)
      modifies this`marked, this`gray
      ensures Colours() == MarkAll(Graph(), old(Colours()), vs)
    {
      for i := 0 to |vs|
        invariant MarkAll(Graph(), old(Colours()), vs) == MarkAll(Graph(), Colours(), vs[i..])
      {
        assert vs[i..][1..] == vs[i + 1..];
        MarkObject(vs[i]);
      }
    }

    /** Take the first gray object off the list and recolour it. */
    method VisitFirst() returns (o: Ref)
      requires gray != []
      modifies this`marked, this`gray, this`grayagain, this`cache
      ensures o == old(gray)[0] && Colours() == Visit(Graph(), old(Colours()))
    {
      o := gray[0];
      marked := marked[o := Black];
      gray := gray[1..];
      var kind := if o in objs then objs[o].kind else LngStr;
      if kind == Thread {
        grayagain := [o] + grayagain;
        marked := marked[o := Gray];
      } else if kind == Proto {
        if o in cache && cache[o] in marked && marked[cache[o]].White? {
          cache := cache - {o};
        }
      }
    }

    /** `propagatemark`. */
    method PropagateMarkStep()
      requires gray != []
      modifies this`marked, this`gray, this`grayagain, this`cache
      ensures Colours() == PropagateMark(Graph(), old(Colours()))
    {
      hide Visit, MarkAll;
      var o := VisitFirst();
      if o in objs {
        var ob := objs[o];
        MarkAllAppend(Graph(), Colours(), ob.slots, CellValues(cells, ob.upvals));
        MarkValues(ob.slots);
        MarkValues(CellValues(cells, ob.upvals));
      } else {
        MarkValues([]);
      }
    }

    method PropagateAllGray()
      modifies this`marked, this`gray, this`grayagain, this`cache
      ensures Colours() == PropagateAll(Graph(), old(Colours()))
    {
      while gray != []
        invariant PropagateAll(Graph(), old(Colours())) == PropagateAll(Graph(), Colours())
        decreases Whites(Colours()), |gray|
      {
        PropagateMarkStep();
      }
    }

    method Restart()
      modifies this`marked, this`gray, this`grayagain
      ensures View() == RestartCollection(old(View()))
    {
      gray, grayagain := [], [];
      MarkObject(Obj(mainthread));
      MarkObject(registry);
      MarkValues(mt);
    }

    /** `atomic`, up to and including the flip. */
    method DoAtomic()
      modifies this`marked, this`gray, this`grayagain, this`cache, this`currentwhite
      ensures View() == AtomicStep(old(View()))
    {
      hide PropagateAll, MarkAll, MarkValue;
      var saved := grayagain;
      MarkObject(Obj(running));
      MarkObject(registry);
      MarkValues(mt);
      PropagateAllGray();
      gray := saved;
      PropagateAllGray();
      currentwhite := !currentwhite;
    }

    // ---- sweep ----

    /** Unlink the object at the sweep pointer and free it (`freeobj`). */
    method FreeObj(k: nat)
      requires 0 < k <= |allgc|
      modifies this`objs, this`marked, this`cache, this`allgc, this`strt
      ensures View() == Free(old(View()), k)
    {
      var curr := allgc[|allgc| - k];
      allgc := allgc[..|allgc| - k] + allgc[|allgc| - k + 1..];
      objs, marked, cache, strt := objs - {curr}, marked - {curr}, cache - {curr}, strt - {curr};
    }

    /** `sweeplist` for one element; tells whether it was freed. */
    method SweepElement(k: nat) returns (freed: bool)
      requires 0 < k <= |allgc|
      modifies this`objs, this`marked, this`cache, this`allgc, this`strt
      ensures View() == SweepOne(old(View()), k)
      ensures freed == IsDead(old(View()), Current(old(View()), k))
      ensures freed ==> View() == Free(old(View()), k)
    {
      hide Free;
      var curr := allgc[|allgc| - k];
      freed := curr in marked && marked[curr] == White(!currentwhite);
      if freed {
        FreeObj(k);
      } else {
        marked := marked[curr := White(currentwhite)];
      }
    }

    method Sweep(k0: nat, count: nat) returns (p: Option<nat>)
      requires k0 <= |allgc|
      modifies this`objs, this`marked, this`cache, this`allgc, this`strt
      ensures (View(), p) == SweepList(old(View()), k0, count)
    {
      hide SweepOne;
      var k: nat, n: nat := k0, count;
      while k > 0 && n > 0
        invariant k <= |allgc|
        invariant SweepList(old(View()), k0, count) == SweepList(View(), k, n)
      {
        var _ := SweepElement(k);
        k, n := k - 1, n - 1;
      }
      p := if k == 0 then None else Some(k);
    }

    method SweepUntilLive(k0: nat) returns (p: Option<nat>)
      requires k0 <= |allgc|
      modifies this`objs, this`marked, this`cache, this`allgc, this`strt
      ensures (View(), p) == SweepToLive(old(View()), k0)
    {
      hide SweepOne, Free;
      var k: nat := k0;
      var freed := true;
      while k > 0 && freed
        invariant k <= |allgc|
        invariant SweepToLive(old(View()), k0) ==
          if freed then SweepToLive(View(), k) else (View(), if k == 0 then None else Some(k))
      {
        freed := SweepElement(k);
        k := k - 1;
      }
      p := if k == 0 then None else Some(k);
    }

    method DoEnterSweep()
      modifies this`objs, this`marked, this`cache, this`allgc, this`strt, this`gcstate, this`sweepgc
      ensures View() == EnterSweep(old(View()))
    {
      gcstate := SwpAllGc;
      sweepgc := SweepUntilLive(|allgc|);
      assert View().(sweepgc := old(sweepgc)) == SweepToLive(old(View()).(gcstate := SwpAllGc), |old(allgc)|).0;
    }

    method DoSweepStep(nextstate: GcModel.GcState, nextlist: Option<nat>)
      requires sweepgc.Some? ==> sweepgc.value <= |allgc|
      modifies this`objs, this`marked, this`cache, this`allgc, this`strt, this`gcstate, this`sweepgc
      ensures View() == SweepStep(old(View()), nextstate, nextlist)
    {
      if sweepgc.Some? {
        var p := Sweep(sweepgc.value, GCSWEEPMAX);
        if p.Some? {
          sweepgc := p;
          return;
        }
      }
      gcstate, sweepgc := nextstate, nextlist;
    }

    /** The body of the GCSatomic case. */
    method AtomicPhase()
      modifies this
      ensures View() == EnterSweep(AtomicStep(old(View()).(col := PropagateAll(old(Graph()), old(Colours())))))
    {
      hide PropagateAll, AtomicStep, EnterSweep;
      PropagateAllGray();
      DoAtomic();
      DoEnterSweep();
    }

    /** `singlestep`. */
    method Switch()
      requires sweepgc.Some? ==> sweepgc.value <= |allgc|
      requires gcstate.Propagate? ==> gray != []
      modifies this
      ensures View() == SingleStep(old(View()))
    {
      hide PropagateAll, PropagateMark, RestartCollection, AtomicStep, EnterSweep, SweepStep;
      match gcstate
      case Pause =>
        Restart();
        gcstate := Propagate;
      case Propagate =>
        PropagateMarkStep();
        if gray == [] { gcstate := Atomic; }
      case Atomic =>
        AtomicPhase();
      case SwpAllGc => DoSweepStep(SwpFinObj, Some(0));
      case SwpFinObj => DoSweepStep(SwpToBeFnz, Some(0));
      case SwpToBeFnz => DoSweepStep(SwpEnd, None);
      case SwpEnd =>
        marked := marked[mainthread := White(currentwhite)];
        gcstate := CallFin;
      case CallFin => gcstate := Pause;
    }

    method Step()
      requires Inv(View())
      modifies this
      ensures Inv(View()) && View() == SingleStep(old(View()))
    {
      hide Inv, SingleStep;
      InvCanStep(View());
      SingleStepKeeps(View());
      Switch();
    }

    /** `luaC_runtilstate`. */
    method RunUntilState(target: GcModel.GcState)
      requires Inv(View())
      modifies this
      ensures Inv(View()) && View() == RunUntil(old(View()), target)
    {
      while gcstate != target
        invariant Inv(View()) && RunUntil(old(View()), target) == RunUntil(View(), target)
        decreases Distance(gcstate, target), WhitesLeft(View()), ListLeft(View())
      {
        InvCanStep(View());
        StepProgress(View(), target);
        Step();
      }
    }

    /** `luaC_fullgc`. */
    method CollectAll()
      requires Inv(View())
      modifies this
      ensures View() == FullGc(old(View())) && Inv(View())
      ensures forall r :: r in objs <==> Reach(old(Graph()), r)
      ensures Dropped(old(View()), View()) && AllWhite(View())
    {
      FullGcExact(View());
      AbandonKeeps(View());
      RunUntilKeeps(Abandon(View()), Pause);
      SingleStepKeeps(RunUntil(Abandon(View()), Pause));
      hide Inv, RunUntil, EnterSweep, SingleStep, Reach;
      if gcstate == Propagate || gcstate == Atomic {
        DoEnterSweep();
      }
      RunUntilState(Pause);
      Step();
      RunUntilState(CallFin);
      RunUntilState(Pause);
    }

    // ---- mutator ----

    /** `luaC_newobj` */
    method Allocate(obj: Object) returns (r: Ref)
      modifies this`objs, this`marked, this`allgc, this`next
      ensures View() == NewObj(old(View()), obj).(strt := strt) && r == old(next)
    {
      r := next;
      objs, marked, allgc := objs[r := obj], marked[r := White(currentwhite)], [r] + allgc;
      next := next + 1;
    }

    /** A new object; a short string also enters the string table. */
    method Link(obj: Object) returns (r: Ref)
      modifies this`objs, this`marked, this`allgc, this`strt, this`next
      ensures View() == NewObj(old(View()), obj) && r == old(next)
      ensures objs.Keys == old(objs.Keys) + {r} && objs[r] == obj
      ensures forall x | x in old(objs) && x != r :: objs[x] == old(objs[x])
      ensures r in marked && marked[r] == White(currentwhite) && allgc == [r] + old(allgc)
    {
      r := Allocate(obj);
      if obj.kind.ShrStr? { strt := strt + {r}; }
    }

    method ForwardBarrier(p: Ref, v: Value)
      modifies this`marked, this`gray
      ensures View() == Barrier(old(View()), p, v)
    {
      if v.Obj? && p in marked && marked[p] == Black && v.ref in marked && marked[v.ref].White? {
        if gcstate == Propagate || gcstate == Atomic {
          ReallyMarkObject(v.ref);
        } else {
          marked := marked[p := White(currentwhite)];
        }
      }
    }

    method BackwardBarrier(t: Ref, v: Value)
      modifies this`marked, this`grayagain
      ensures View() == BarrierBack(old(View()), t, v)
    {
      if v.Obj? && t in marked && marked[t] == Black && v.ref in marked && marked[v.ref].White? {
        marked := marked[t := Gray];
        grayagain := [t] + grayagain;
      }
    }

    /** A slot of an object is assigned; a table may get a new one. */
    method SetSlot(p: Ref, i: nat, v: Value)
      requires p in objs && i <= |objs[p].slots|
      modifies this`objs
      ensures View() == Store(old(View()), p, i, v) && SlotIs(old(Graph()), Graph(), p, i, v)
    {
      var o := objs[p];
      objs := objs[p := o.(slots := if i < |o.slots| then o.slots[i := v] else o.slots + [v])];
    }

    /** The store of `luaV_settable`, and then its barrier. */
    method StoreTable(t: Ref, i: nat, v: Value)
      requires t in objs && i <= |objs[t].slots|
      modifies this`objs, this`marked, this`grayagain
      ensures View() == BarrierBack(Store(old(View()), t, i, v), t, v) && SlotIs(old(Graph()), Graph(), t, i, v)
    {
      SetSlot(t, i, v);
      BackwardBarrier(t, v);
    }

    /** A store with the forward barrier, as that of a metatable. */
    method StoreField(p: Ref, i: nat, v: Value)
      requires p in objs && i <= |objs[p].slots|
      modifies this`objs, this`marked, this`gray
      ensures View() == Barrier(Store(old(View()), p, i, v), p, v) && SlotIs(old(Graph()), Graph(), p, i, v)
    {
      SetSlot(p, i, v);
      ForwardBarrier(p, v);
    }

    method WriteUpvalue(u: Cell, v: Value)
      modifies this`cells, this`marked, this`gray
      ensures View() == SetUpval(old(View()), u, v)
      ensures cells.Keys == old(cells.Keys) + {u} && cells[u] == v
      ensures forall w | w in old(cells) && w != u :: cells[w] == old(cells[w])
    {
      cells := cells[u := v];
      if gcstate == Propagate || gcstate == Atomic {
        MarkObject(v);
      }
    }

    method InternHit(str: Ref)
      modifies this`marked
      ensures View() == Resurrect(old(View()), str)
    {
      if str in marked && marked[str] == White(!currentwhite) {
        marked := marked[str := White(currentwhite)];
      }
    }

    method RememberClosure(p: Ref, cl: Ref)
      modifies this`cache
      ensures View() == CacheClosure(old(View()), p, cl)
    {
      if !(p in marked && marked[p] == Black) {
        cache := cache[p := cl];
      }
    }
  }
}
