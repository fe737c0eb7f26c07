/** Marking: `reallymarkobject`, the traversals and `propagatemark` of `lgc.c`,
  as functions on the collector's half of the state, with the two facts every
  marking step keeps: it only grows the marked set in a tri-colour way, and it
  never marks anything unreachable. */
module GcMark {
  import opened GcModel

  function KindOf(m: Mem, r: Ref): Kind {
    if r in m.objs then m.objs[r].kind else LngStr
  }

  function Slot(m: Mem, r: Ref, i: nat): Value {
    if r in m.objs && i < |m.objs[r].slots| then m.objs[r].slots[i] else Plain
  }

  function SetMark(c: Col, r: Ref, k: Colour): Col {
    c.(mark := c.mark[r := k])
  }

  /** Objects that wait in a gray list to be traversed. */
  predicate Traversable(m: Mem, r: Ref) {
    !IsString(KindOf(m, r)) && KindOf(m, r) != Udata
  }

  predicate IsString(k: Kind) {
    k.ShrStr? || k.LngStr?
  }

  /** `reallymarkobject`: strings and userdata turn black at once, anything
      else turns gray and is pushed on the `gray` list. */
  function ReallyMark(m: Mem, c: Col, o: Ref): (d: Col)
    requires IsWhite(c, o)
    ensures Whites(d) < Whites(c)
    decreases Whites(c), 0
  {
    assert o in Whites(c);
    match KindOf(m, o)
    case ShrStr => SetMark(c, o, Black)
    case LngStr => SetMark(c, o, Black)
    case Udata =>
      var c1 := SetMark(c, o, Gray);
      assert Whites(c1) < Whites(c) by { assert o !in Whites(c1); }
      var c2 := MarkValue(m, c1, Slot(m, o, 0));
      var c3 := SetMark(c2, o, Black);
      MarkValue(m, c3, Slot(m, o, 1))
    case _ =>
      var d := SetMark(c, o, Gray).(gray := [o] + c.gray);
      assert o !in Whites(d);
      d
  }

  /** `markvalue`/`markobject`: mark what is white, leave the rest alone. */
  function MarkValue(m: Mem, c: Col, v: Value): (d: Col)
    ensures Whites(d) <= Whites(c)
    ensures Whites(d) == Whites(c) ==> d == c
    decreases Whites(c), 1
  {
    if v.Obj? && IsWhite(c, v.ref) then ReallyMark(m, c, v.ref) else c
  }

  function MarkAll(m: Mem, c: Col, vs: seq<Value>): (d: Col)
    ensures Whites(d) <= Whites(c)
    ensures Whites(d) == Whites(c) ==> d == c
    decreases |vs|
  {
    if vs == [] then c else MarkAll(m, MarkValue(m, c, vs[0]), vs[1..])
  }

  /** What `propagatemark` does to its object before marking the references:
      a thread goes back to gray and into `grayagain`, anything else is black;
      a prototype forgets a cached closure that is still white. */
  function Visit(m: Mem, c: Col): Col
    requires c.gray != []
  {
    var o := c.gray[0];
    var c1 := SetMark(c, o, Black).(gray := c.gray[1..]);
    match KindOf(m, o)
    case Thread => SetMark(c1, o, Gray).(grayagain := [o] + c1.grayagain)
    case Proto => if o in c1.cache && IsWhite(c1, c1.cache[o]) then c1.(cache := c1.cache - {o}) else c1
    case _ => c1
  }

  /** `propagatemark`: traverse the first object of the gray list. */
  function PropagateMark(m: Mem, c: Col): (d: Col)
    requires c.gray != []
    ensures Whites(d) <= Whites(c)
    ensures Whites(d) == Whites(c) ==> |d.gray| < |c.gray|
  {
    var c1 := Visit(m, c);
    assert Whites(c1) <= Whites(c);
    MarkAll(m, c1, Values(m, c.gray[0]))
  }

  function PropagateAll(m: Mem, c: Col): (d: Col)
    ensures d.gray == []
    ensures Whites(d) <= Whites(c)
    decreases Whites(c), |c.gray|
  {
    if c.gray == [] then c else PropagateAll(m, PropagateMark(m, c))
  }

  // ---- shape ----

  ghost predicate Shape(m: Mem) {
    forall r :: r in m.objs ==>
      && (IsString(m.objs[r].kind) ==> m.objs[r].slots == [] && m.objs[r].upvals == [])
      && (m.objs[r].kind == Udata ==> |m.objs[r].slots| == 2 && m.objs[r].upvals == [])
  }

  // ---- growth ----

  ghost predicate ChildrenMarked(m: Mem, c: Col, r: Ref) {
    forall x :: Succ(m, r, x) ==> !IsWhite(c, x)
  }

  /** `d` comes from `c` by marking: old marks stay; `n` are the new gray
      objects, prepended to the gray list; new black ones are strings and
      userdata all of whose references are marked. */
  ghost predicate Grown(m: Mem, c: Col, d: Col, n: seq<Ref>) {
    && d.mark.Keys == c.mark.Keys
    && d.grayagain == c.grayagain
    && d.cache == c.cache
    && d.gray == n + c.gray
    && NoDup(n)
    && (forall r :: r in n ==> IsWhite(c, r) && IsGray(d, r) && Traversable(m, r))
    && (forall r :: r in c.mark ==> MarkGrown(m, c, d, n, r))
  }

  ghost predicate MarkGrown(m: Mem, c: Col, d: Col, n: seq<Ref>, r: Ref)
    requires r in c.mark && r in d.mark
  {
    || d.mark[r] == c.mark[r]
    || (c.mark[r].White? && d.mark[r] == Gray && r in n)
    || (c.mark[r].White? && d.mark[r] == Black && !Traversable(m, r) && ChildrenMarked(m, d, r))
  }

  lemma GrownKeeps(m: Mem, c: Col, d: Col, n: seq<Ref>, r: Ref)
    requires Grown(m, c, d, n) && !IsWhite(c, r)
    ensures !IsWhite(d, r) && (r in c.mark ==> d.mark[r] == c.mark[r])
  {
    if r in c.mark { assert MarkGrown(m, c, d, n, r); }
  }

  lemma GrownTrans(m: Mem, a: Col, b: Col, c: Col, n1: seq<Ref>, n2: seq<Ref>)
    requires Grown(m, a, b, n1) && Grown(m, b, c, n2)
    ensures Grown(m, a, c, n2 + n1)
  {
    forall r | r in n1 ensures IsWhite(a, r) && IsGray(c, r) && Traversable(m, r) && r !in n2 {
      GrownKeeps(m, b, c, n2, r);
    }
    forall r | r in n2 ensures IsWhite(a, r) {
      if !IsWhite(a, r) { GrownKeeps(m, a, b, n1, r); }
    }
    NoDupConcat(n2, n1);
    forall r | r in a.mark ensures MarkGrown(m, a, c, n2 + n1, r) {
      assert MarkGrown(m, a, b, n1, r) && MarkGrown(m, b, c, n2, r);
      if a.mark[r].White? && b.mark[r] == Black {
        GrownKeeps(m, b, c, n2, r);
        ChildrenStayMarked(m, b, c, n2, r);
      }
    }
  }

  lemma ChildrenStayMarked(m: Mem, b: Col, c: Col, n: seq<Ref>, r: Ref)
    requires Grown(m, b, c, n) && ChildrenMarked(m, b, r)
    ensures ChildrenMarked(m, c, r)
  {
    forall x | Succ(m, r, x) ensures !IsWhite(c, x) { GrownKeeps(m, b, c, n, x); }
  }

  lemma NoDupConcat<T>(s: seq<T>, t: seq<T>)
    requires NoDup(s) && NoDup(t) && forall x :: x in t ==> x !in s
    ensures NoDup(s + t)
  {
    forall i, j | 0 <= i < j < |s + t| ensures (s + t)[i] != (s + t)[j] {
      if i < |s| <= j { assert s[i] in s && t[j - |s|] in t; }
    }
  }

  lemma ReallyMarkGrown(m: Mem, c: Col, o: Ref) returns (n: seq<Ref>)
    requires Shape(m) && m.objs.Keys == c.mark.Keys && IsWhite(c, o)
    ensures Grown(m, c, ReallyMark(m, c, o), n)
    ensures !IsWhite(ReallyMark(m, c, o), o)
    decreases Whites(c), 0
  {
    if KindOf(m, o) == Udata {
      var c1 := SetMark(c, o, Gray);
      assert o in Whites(c) && o !in Whites(c1);
      assert Whites(c1) < Whites(c);
      var c2 := MarkValue(m, c1, Slot(m, o, 0));
      var n1 := MarkValueGrown(m, c1, Slot(m, o, 0));
      var c3 := SetMark(c2, o, Black);
      assert Whites(c3) <= Whites(c2);
      var d := MarkValue(m, c3, Slot(m, o, 1));
      var n2 := MarkValueGrown(m, c3, Slot(m, o, 1));
      n := n2 + n1;
      UdataChildren(m, c2, c3, d, o, n2);
      UdataGrown(m, c, c1, c2, c3, d, o, n1, n2);
    } else {
      n := if IsString(KindOf(m, o)) then [] else [o];
      ReallyMarkOther(m, c, o, n);
    }
  }

  lemma ReallyMarkOther(m: Mem, c: Col, o: Ref, n: seq<Ref>)
    requires Shape(m) && IsWhite(c, o) && o in m.objs && m.objs[o].kind != Udata
    requires n == if IsString(KindOf(m, o)) then [] else [o]
    ensures Grown(m, c, ReallyMark(m, c, o), n)
    ensures !IsWhite(ReallyMark(m, c, o), o)
  {
    if IsString(KindOf(m, o)) { assert Values(m, o) == []; }
  }

  lemma UdataChildren(m: Mem, c2: Col, c3: Col, d: Col, o: Ref, n2: seq<Ref>)
    requires Shape(m) && o in m.objs && m.objs[o].kind == Udata
    requires c3 == SetMark(c2, o, Black) && Grown(m, c3, d, n2)
    requires Slot(m, o, 0).Obj? ==> !IsWhite(c2, Slot(m, o, 0).ref)
    requires Slot(m, o, 1).Obj? ==> !IsWhite(d, Slot(m, o, 1).ref)
    ensures ChildrenMarked(m, d, o)
  {
    assert Values(m, o) == [Slot(m, o, 0), Slot(m, o, 1)];
    forall x | Succ(m, o, x) ensures !IsWhite(d, x) {
      if Obj(x) == Slot(m, o, 0) { GrownKeeps(m, c3, d, n2, x); }
    }
  }

  /** Gluing the three stages of a userdata together. */
  lemma UdataGrown(m: Mem, c: Col, c1: Col, c2: Col, c3: Col, d: Col, o: Ref, n1: seq<Ref>, n2: seq<Ref>)
    requires IsWhite(c, o) && !Traversable(m, o)
    requires c1 == SetMark(c, o, Gray) && Grown(m, c1, c2, n1)
    requires c3 == SetMark(c2, o, Black) && Grown(m, c3, d, n2)
    requires ChildrenMarked(m, d, o)
    ensures Grown(m, c, d, n2 + n1) && !IsWhite(d, o)
  {
    GrownKeeps(m, c1, c2, n1, o);
    GrownKeeps(m, c3, d, n2, o);
    forall r | r in n1 ensures IsWhite(c, r) && IsGray(d, r) && Traversable(m, r) && r !in n2 {
      GrownKeeps(m, c3, d, n2, r);
    }
    forall r | r in n2 ensures IsWhite(c, r) {
      if !IsWhite(c1, r) { GrownKeeps(m, c1, c2, n1, r); }
    }
    NoDupConcat(n2, n1);
    forall r | r in c.mark ensures MarkGrown(m, c, d, n2 + n1, r) {
      if r != o {
        assert MarkGrown(m, c1, c2, n1, r) && MarkGrown(m, c3, d, n2, r);
        if c.mark[r].White? && c2.mark[r] == Black {
          GrownKeeps(m, c3, d, n2, r);
          forall x | Succ(m, r, x) ensures !IsWhite(d, x) { GrownKeeps(m, c3, d, n2, x); }
        }
      }
    }
  }

  lemma MarkValueGrown(m: Mem, c: Col, v: Value) returns (n: seq<Ref>)
    requires Shape(m) && m.objs.Keys == c.mark.Keys
    ensures Grown(m, c, MarkValue(m, c, v), n)
    ensures v.Obj? ==> !IsWhite(MarkValue(m, c, v), v.ref)
    decreases Whites(c), 1
  {
    n := [];
    if v.Obj? && IsWhite(c, v.ref) {
      n := ReallyMarkGrown(m, c, v.ref);
    }
  }

  lemma {:induction false} MarkAllGrown(m: Mem, c: Col, vs: seq<Value>) returns (n: seq<Ref>)
    requires Shape(m) && m.objs.Keys == c.mark.Keys
    ensures Grown(m, c, MarkAll(m, c, vs), n)
    ensures forall x :: Obj(x) in vs ==> !IsWhite(MarkAll(m, c, vs), x)
    decreases |vs|
  {
    n := [];
    if vs != [] {
      var c1 := MarkValue(m, c, vs[0]);
      var n1 := MarkValueGrown(m, c, vs[0]);
      var n2 := MarkAllGrown(m, c1, vs[1..]);
      var d := MarkAll(m, c, vs);
      GrownTrans(m, c, c1, d, n1, n2);
      n := n2 + n1;
      forall x | Obj(x) in vs ensures !IsWhite(d, x) {
        if Obj(x) == vs[0] { GrownKeeps(m, c1, d, n2, x); } else { assert Obj(x) in vs[1..]; }
      }
    }
  }

  // ---- precision ----

  ghost predicate Precise(m: Mem, c: Col) {
    forall r :: Marked(c, r) ==> Reach(m, r)
  }

  lemma ReallyMarkPrecise(m: Mem, c: Col, o: Ref)
    requires Shape(m) && Precise(m, c) && IsWhite(c, o) && Reach(m, o)
    ensures Precise(m, ReallyMark(m, c, o))
    decreases Whites(c), 0
  {
    if KindOf(m, o) == Udata {
      var c1 := SetMark(c, o, Gray);
      assert o in Whites(c) && o !in Whites(c1);
      assert Whites(c1) < Whites(c);
      assert forall i | 0 <= i < 2 :: o in m.objs ==> Slot(m, o, i) in Values(m, o);
      forall v | v == Slot(m, o, 0) || v == Slot(m, o, 1) ensures ReachValue(m, v) {
        if v.Obj? { ReachSucc(m, o, v.ref); }
      }
      MarkValuePrecise(m, c1, Slot(m, o, 0));
      var c2 := MarkValue(m, c1, Slot(m, o, 0));
      var c3 := SetMark(c2, o, Black);
      assert Whites(c3) <= Whites(c2);
      MarkValuePrecise(m, c3, Slot(m, o, 1));
    }
  }

  lemma MarkValuePrecise(m: Mem, c: Col, v: Value)
    requires Shape(m) && Precise(m, c) && ReachValue(m, v)
    ensures Precise(m, MarkValue(m, c, v))
    decreases Whites(c), 1
  {
    if v.Obj? && IsWhite(c, v.ref) {
      ReallyMarkPrecise(m, c, v.ref);
    }
  }

  lemma {:induction false} MarkAllPrecise(m: Mem, c: Col, vs: seq<Value>)
    requires Shape(m) && Precise(m, c) && forall v :: v in vs ==> ReachValue(m, v)
    ensures Precise(m, MarkAll(m, c, vs))
    decreases |vs|
  {
    if vs != [] {
      MarkValuePrecise(m, c, vs[0]);
      MarkAllPrecise(m, MarkValue(m, c, vs[0]), vs[1..]);
    }
  }
}
