/** The invariant of the whole state, phase by phase, and its preservation by
  the collector. */
module GcPhase {
  import opened GcModel
  import opened GcMark
  import opened GcInvariant
  import opened GcCollector

  ghost predicate Live(s: State, r: Ref) {
    r in s.mem.objs && r in s.col.mark && s.col.mark[r] != White(!s.cw)
  }

  ghost predicate LiveValue(s: State, v: Value) {
    v.Obj? ==> Live(s, v.ref)
  }

  ghost predicate WellFormed(s: State) {
    && Shape(s.mem)
    && s.col.mark.Keys == s.mem.objs.Keys
    && NoDup(s.allgc)
    && (forall r :: r in s.allgc <==> r in s.mem.objs && r != s.mem.main)
    && KindOf(s.mem, s.mem.main) == Thread
    && (forall r :: r in s.strt <==> r in s.mem.objs && s.mem.objs[r].kind == ShrStr)
    && (forall r :: r in s.mem.objs ==> KindColour(s, r))
    && CachesOfProtos(s.mem, s.col)
    && (forall r :: r in s.mem.objs ==> r < s.next)
  }

  /** Threads are never black; strings and userdata never stay gray. */
  ghost predicate KindColour(s: State, r: Ref)
    requires r in s.mem.objs
  {
    r in s.col.mark &&
    match s.col.mark[r]
    case Black => s.mem.objs[r].kind != Thread
    case Gray => Traversable(s.mem, r)
    case White(_) => true
  }

  /** Nothing alive, and no root, refers to something dead or freed. */
  ghost predicate Closed(s: State) {
    && (forall r :: Root(s.mem, r) ==> Live(s, r))
    && (forall r :: Live(s, r) ==> ChildrenLive(s, r))
  }

  ghost predicate ChildrenLive(s: State, r: Ref) {
    && (forall x :: Succ(s.mem, r, x) ==> Live(s, x))
    && (r in s.col.cache ==> Live(s, s.col.cache[r]))
  }

  ghost predicate AllCurrentWhite(s: State, rs: seq<Ref>) {
    forall r :: r in rs ==> r in s.col.mark && s.col.mark[r] == White(s.cw)
  }

  ghost predicate NothingDead(s: State) {
    forall r :: r in s.col.mark ==> s.col.mark[r] != White(!s.cw)
  }

  ghost predicate PhaseOk(s: State) {
    match s.gcstate
    case Propagate => MarkPhase(s) && s.col.gray != []
    case Atomic => MarkPhase(s)
    case SwpAllGc => if s.sweepgc.None? then AllCurrentWhite(s, s.allgc) else SweptUpTo(s, s.sweepgc.value)
    case SwpFinObj => AllCurrentWhite(s, s.allgc) && s.sweepgc == Some(0)
    case SwpToBeFnz => AllCurrentWhite(s, s.allgc) && s.sweepgc == Some(0)
    case SwpEnd => AllCurrentWhite(s, s.allgc) && s.sweepgc.None?
    case CallFin => AllWhite(s)
    case Pause => AllWhite(s)
  }

  ghost predicate MarkPhase(s: State) {
    && Tri(s.mem, s.col, Elems(s.col.grayagain), {}, {})
    && NoDup(s.col.grayagain)
    && NothingDead(s)
    && Marked(s.col, s.mem.main)
    && s.sweepgc.None?
  }

  ghost predicate SweptUpTo(s: State, k: nat) {
    && k <= |s.allgc|
    && AllCurrentWhite(s, s.allgc[..|s.allgc| - k])
  }

  ghost predicate AllWhite(s: State) {
    && s.sweepgc.None?
    && forall r :: r in s.mem.objs ==> r in s.col.mark && s.col.mark[r] == White(s.cw)
  }

  ghost predicate Inv(s: State) {
    WellFormed(s) && Closed(s) && PhaseOk(s)
  }

  // ---- safety in one state ----

  /** Every object the program can reach is allocated and not dead. */
  lemma ReachableIsLive(s: State, r: Ref)
    requires Closed(s) && Reach(s.mem, r)
    ensures Live(s, r)
  {
    var live := set x | x in s.mem.objs && Live(s, x);
    forall x, y | x in live && Succ(s.mem, x, y) ensures y in live {
      assert ChildrenLive(s, x);
    }
    ClosedHoldsReachable(s.mem, live, r);
  }

  // ---- sweep ----

  ghost predicate SameLive(s: State, t: State) {
    forall r :: Live(t, r) <==> Live(s, r)
  }

  ghost predicate SweepInv(s: State, k: nat) {
    WellFormed(s) && Closed(s) && SweptUpTo(s, k)
  }

  lemma FreeKeeps(s: State, k: nat)
    requires SweepInv(s, k) && 0 < k && IsDead(s, Current(s, k))
    ensures SweepInv(Free(s, k), k - 1)
    ensures SameLive(s, Free(s, k))
  {
    FreeWellFormed(s, k);
    FreeClosed(s, k);
    var t := Free(s, k);
    var i := |s.allgc| - k;
    assert t.allgc[..|t.allgc| - (k - 1)] == s.allgc[..i];
    DropElement(s.allgc, i);
  }

  lemma FreeWellFormed(s: State, k: nat)
    requires WellFormed(s) && 0 < k <= |s.allgc|
    ensures WellFormed(Free(s, k))
  {
    hide KindColour, CachesOfProtos, Shape;
    assert Current(s, k) in s.allgc;
    DropElement(s.allgc, |s.allgc| - k);
    FreeColours(s, k);
    FreeShape(s, k);
  }

  lemma FreeColours(s: State, k: nat)
    requires WellFormed(s) && 0 < k <= |s.allgc|
    ensures var t := Free(s, k); forall r :: r in t.mem.objs ==> KindColour(t, r)
  {
    hide NoDup, CachesOfProtos, Shape;
    var t := Free(s, k);
    forall r | r in t.mem.objs ensures KindColour(t, r) { assert KindColour(s, r); }
  }

  lemma FreeShape(s: State, k: nat)
    requires WellFormed(s) && 0 < k <= |s.allgc|
    ensures Shape(Free(s, k).mem) && CachesOfProtos(Free(s, k).mem, Free(s, k).col)
  {
    hide KindColour, NoDup;
    assert Current(s, k) in s.allgc;
  }

  lemma FreeClosed(s: State, k: nat)
    requires WellFormed(s) && Closed(s) && 0 < k <= |s.allgc| && IsDead(s, Current(s, k))
    ensures Closed(Free(s, k)) && SameLive(s, Free(s, k))
  {
    var t := Free(s, k);
    assert SameLive(s, t);
    forall r | Live(t, r) ensures ChildrenLive(t, r) {
      assert ChildrenLive(s, r);
      assert Values(t.mem, r) == Values(s.mem, r);
    }
    forall r | Root(t.mem, r) ensures Live(t, r) { assert Root(s.mem, r); }
  }

  lemma DropElement<T>(a: seq<T>, i: nat)
    requires NoDup(a) && i < |a|
    ensures var b := a[..i] + a[i + 1..];
      NoDup(b) && (forall x :: x in b <==> x in a && x != a[i])
      && a[i] !in a[..i]
  {
    var b := a[..i] + a[i + 1..];
    forall x | x in a && x != a[i] ensures x in b {
      var j :| 0 <= j < |a| && a[j] == x;
      if j < i { assert b[j] == x; } else { assert b[j - 1] == x; }
    }
    forall x | x in b ensures x in a && x != a[i] {
      var j :| 0 <= j < |b| && b[j] == x;
      if j < i { assert a[j] == x; } else { assert a[j + 1] == x; }
    }
  }

  lemma WhitenKeeps(s: State, r: Ref)
    requires WellFormed(s) && Closed(s) && Live(s, r)
    ensures var t := s.(col := SetMark(s.col, r, White(s.cw)));
      WellFormed(t) && Closed(t) && SameLive(s, t)
      && (forall rs :: AllCurrentWhite(s, rs) ==> AllCurrentWhite(t, rs))
  {
    var t := s.(col := SetMark(s.col, r, White(s.cw)));
    assert forall x :: Live(t, x) <==> Live(s, x);
    forall x | x in t.mem.objs ensures KindColour(t, x) { assert KindColour(s, x); }
    forall x | Live(t, x) ensures ChildrenLive(t, x) { assert ChildrenLive(s, x); }
  }

  lemma CurrentLive(s: State, k: nat)
    requires WellFormed(s) && 0 < k <= |s.allgc| && !IsDead(s, Current(s, k))
    ensures Live(s, Current(s, k))
  {
    hide Shape, NoDup, CachesOfProtos, KindColour;
    assert Current(s, k) in s.allgc;
  }

  lemma SweepOneKeeps(s: State, k: nat)
    requires SweepInv(s, k) && 0 < k
    ensures SweepInv(SweepOne(s, k), k - 1)
    ensures SameLive(s, SweepOne(s, k))
  {
    hide WellFormed, Closed, Live, IsDead, Free;
    var o := Current(s, k);
    if IsDead(s, o) {
      FreeKeeps(s, k);
    } else {
      CurrentLive(s, k);
      WhitenKeeps(s, o);
      var t := SweepOne(s, k);
      assert t.allgc[..|t.allgc| - (k - 1)] == s.allgc[..|s.allgc| - k] + [o];
    }
  }

  /** What a sweep of any length leaves behind. */
  ghost predicate Swept(s: State, r: (State, Option<nat>)) {
    && SweepInv(r.0, if r.1.Some? then r.1.value else 0)
    && SameLive(s, r.0)
    && r.0.gcstate == s.gcstate
  }

  lemma SweptTrans(s: State, t: State, r: (State, Option<nat>))
    requires SameLive(s, t) && t.gcstate == s.gcstate && Swept(t, r)
    ensures Swept(s, r)
  {
  }

  lemma {:induction false} SweepListKeeps(s: State, k: nat, count: nat)
    requires SweepInv(s, k)
    ensures Swept(s, SweepList(s, k, count))
    decreases k
  {
    hide WellFormed, Closed, AllCurrentWhite, Live;
    if 0 < k && 0 < count {
      SweepOneKeeps(s, k);
      SweepListKeeps(SweepOne(s, k), k - 1, count - 1);
      SweptTrans(s, SweepOne(s, k), SweepList(SweepOne(s, k), k - 1, count - 1));
    }
  }

  lemma {:induction false} SweepToLiveKeeps(s: State, k: nat)
    requires SweepInv(s, k)
    ensures Swept(s, SweepToLive(s, k))
    decreases k
  {
    hide WellFormed, Closed, AllCurrentWhite, Live;
    if k == 0 {
    } else if IsDead(s, Current(s, k)) {
      FreeKeeps(s, k);
      SweepToLiveKeeps(Free(s, k), k - 1);
      SweptTrans(s, Free(s, k), SweepToLive(Free(s, k), k - 1));
    } else {
      SweepOneKeeps(s, k);
    }
  }

  lemma EnterSweepKeeps(s: State)
    requires WellFormed(s) && Closed(s)
    ensures Inv(EnterSweep(s))
    ensures SameLive(s, EnterSweep(s))
  {
    var s0 := s.(gcstate := SwpAllGc);
    assert forall r :: Live(s0, r) <==> Live(s, r);
    forall r | r in s0.mem.objs ensures KindColour(s0, r) { assert KindColour(s, r); }
    forall r | Live(s0, r) ensures ChildrenLive(s0, r) { assert ChildrenLive(s, r); }
    SweepToLiveKeeps(s0, |s.allgc|);
    SetSweepKeeps(SweepToLive(s0, |s.allgc|).0, SwpAllGc, SweepToLive(s0, |s.allgc|).1);
  }

  /** Moving the sweep pointer or the phase touches no object. */
  lemma SetSweepKeeps(s: State, g: GcState, p: Option<nat>)
    requires WellFormed(s) && Closed(s)
    ensures var t := s.(gcstate := g, sweepgc := p);
      && WellFormed(t) && Closed(t)
      && SameLive(s, t)
      && (forall rs :: AllCurrentWhite(s, rs) <==> AllCurrentWhite(t, rs))
  {
    var t := s.(gcstate := g, sweepgc := p);
    assert forall r :: Live(t, r) <==> Live(s, r);
    forall r | r in t.mem.objs ensures KindColour(t, r) { assert KindColour(s, r); }
    forall r | Live(t, r) ensures ChildrenLive(t, r) { assert ChildrenLive(s, r); }
  }
}
