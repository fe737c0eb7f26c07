/** The collector's phases: `restartcollection`, `atomic`, the sweep functions
  and `singlestep` of `lgc.c`, as functions on the whole state. Weak tables and
  finalizers are outside this module, so the lists that hold them are empty. */
module GcCollector {
  import opened GcModel
  import opened GcMark

  /** Elements swept per step: (GCSTEPSIZE / GCSWEEPCOST) / 4 with the object
      sizes of a 64-bit build. */
  const GCSWEEPMAX := 88

  function RestartCollection(s: State): State {
    var c0 := s.col.(gray := [], grayagain := []);
    var c1 := MarkValue(s.mem, c0, Obj(s.mem.main));
    var c2 := MarkValue(s.mem, c1, s.mem.registry);
    s.(col := MarkAll(s.mem, c2, s.mem.mt))
  }

  /** The part of `atomic` that marks: the running thread, the registry and the
      global metatables again, then everything reachable from them, then the
      `grayagain` list as it was on entry. */
  function AtomicMark(m: Mem, c: Col): Col {
    var c1 := MarkValue(m, c, Obj(m.running));
    var c2 := MarkValue(m, c1, m.registry);
    var c3 := PropagateAll(m, MarkAll(m, c2, m.mt));
    PropagateAll(m, c3.(gray := c.grayagain))
  }

  function AtomicStep(s: State): State {
    s.(col := AtomicMark(s.mem, s.col), cw := !s.cw)
  }

  // ---- sweep ----

  /** The object the sweep pointer stands on when `k` objects are left. */
  function Current(s: State, k: nat): Ref
    requires 0 < k <= |s.allgc|
  {
    s.allgc[|s.allgc| - k]
  }

  function Free(s: State, k: nat): State
    requires 0 < k <= |s.allgc|
  {
    var r := Current(s, k);
    s.(mem := s.mem.(objs := s.mem.objs - {r}),
       col := s.col.(mark := s.col.mark - {r}, cache := s.col.cache - {r}),
       allgc := s.allgc[..|s.allgc| - k] + s.allgc[|s.allgc| - k + 1..],
       strt := s.strt - {r})
  }

  /** One element of `sweeplist`: a dead object is freed, any other becomes
      current-white. */
  function SweepOne(s: State, k: nat): (t: State)
    requires 0 < k <= |s.allgc|
    ensures k - 1 <= |t.allgc|
  {
    if IsDead(s, Current(s, k)) then Free(s, k)
    else s.(col := SetMark(s.col, Current(s, k), White(s.cw)))
  }

  function SweepList(s: State, k: nat, count: nat): (r: (State, Option<nat>))
    requires k <= |s.allgc|
    ensures r.1.Some? ==> 0 < r.1.value <= |r.0.allgc| && (0 < k && 0 < count ==> r.1.value < k)
    decreases k
  {
    if k == 0 then (s, None)
    else if count == 0 then (s, Some(k))
    else SweepList(SweepOne(s, k), k - 1, count - 1)
  }

  /** Sweep until an object survives or the list ends. */
  function SweepToLive(s: State, k: nat): (r: (State, Option<nat>))
    requires k <= |s.allgc|
    ensures r.1.Some? ==> 0 < r.1.value <= |r.0.allgc| && r.1.value < k
    decreases k
  {
    if k == 0 then (s, None)
    else if IsDead(s, Current(s, k)) then SweepToLive(Free(s, k), k - 1)
    else (SweepOne(s, k), if k == 1 then None else Some(k - 1))
  }

  function EnterSweep(s: State): State {
    var (t, p) := SweepToLive(s.(gcstate := SwpAllGc), |s.allgc|);
    t.(sweepgc := p)
  }

  /** `sweepstep`: go on sweeping, or enter `nextstate` when nothing is left. */
  function SweepStep(s: State, nextstate: GcState, nextlist: Option<nat>): State
    requires s.sweepgc.Some? ==> s.sweepgc.value <= |s.allgc|
  {
    var (t, p) := if s.sweepgc.Some? then SweepList(s, s.sweepgc.value, GCSWEEPMAX) else (s, None);
    if p.Some? then t.(sweepgc := p)
    else t.(gcstate := nextstate, sweepgc := nextlist)
  }

  /** `singlestep`. The lists `finobj` and `tobefnz` are empty, so a sweep
      pointer into one of them has nothing ahead of it. */
  function SingleStep(s: State): State
    requires s.sweepgc.Some? ==> s.sweepgc.value <= |s.allgc|
    requires s.gcstate.Propagate? ==> s.col.gray != []
  {
    match s.gcstate
    case Pause => RestartCollection(s).(gcstate := Propagate)
    case Propagate =>
      var c := PropagateMark(s.mem, s.col);
      s.(col := c, gcstate := if c.gray == [] then Atomic else Propagate)
    case Atomic => EnterSweep(AtomicStep(s.(col := PropagateAll(s.mem, s.col))))
    case SwpAllGc => SweepStep(s, SwpFinObj, Some(0))
    case SwpFinObj => SweepStep(s, SwpToBeFnz, Some(0))
    case SwpToBeFnz => SweepStep(s, SwpEnd, None)
    case SwpEnd => s.(col := SetMark(s.col, s.mem.main, White(s.cw)), gcstate := CallFin)
    case CallFin => s.(gcstate := Pause)
  }
}
