/** The data the garbage collector of `lgc.c` works on.

  The graph of objects (`Mem`) belongs to the mutator; colours, gray lists and
  the weak closure caches of prototypes (`Col`) belong to the collector. */
module GcModel {

  /** Identity of a collectable object. Identities are never reused, so a
      reference to a freed object stays recognisable as dangling. */
  type Ref = nat

  /** Identity of a (closed) upvalue cell; several closures may share one. */
  type Cell = nat

  /** A slot that may hold a reference; everything non-collectable is `Plain`. */
  datatype Value = Plain | Obj(ref: Ref)

  datatype Kind = ShrStr | LngStr | Udata | LClosure | CClosure | Table | Thread | Proto

  /** `slots` are the strong references in the order the traversal visits them;
      a userdata has its metatable in slot 0 and its user value in slot 1, a
      table has its metatable in slot 0. */
  datatype Object = Object(kind: Kind, slots: seq<Value>, upvals: seq<Cell>)

  /** The three colours; there are two whites, told apart by a bit. */
  datatype Colour = White(bit: bool) | Gray | Black

  datatype GcState =
    | Propagate | Atomic | SwpAllGc | SwpFinObj | SwpToBeFnz | SwpEnd | CallFin | Pause

  datatype Mem = Mem(
    objs: map<Ref, Object>,
    cells: map<Cell, Value>,
    main: Ref,
    running: Ref,
    registry: Value,
    mt: seq<Value>)

  /** `cache` is the weak reference from a prototype to its last closure. */
  datatype Col = Col(
    mark: map<Ref, Colour>,
    gray: seq<Ref>,
    grayagain: seq<Ref>,
    cache: map<Ref, Ref>)

  datatype Option<T> = None | Some(value: T)

  /** `sweepgc` counts the objects of `allgc` still ahead of the sweep, so that
      it does not move when new objects are linked at the head of the list;
      `strt` is the table of interned (short) strings, which holds them weakly;
      `next` is the identity of the next object. */
  datatype State = State(
    mem: Mem,
    col: Col,
    gcstate: GcState,
    cw: bool,
    allgc: seq<Ref>,
    sweepgc: Option<nat>,
    strt: set<Ref>,
    next: Ref)

  function CellValue(m: Mem, u: Cell): Value {
    if u in m.cells then m.cells[u] else Plain
  }

  function CellValues(cells: map<Cell, Value>, us: seq<Cell>): seq<Value> {
    seq(|us|, i requires 0 <= i < |us| => if us[i] in cells then cells[us[i]] else Plain)
  }

  /** All strong references held by `r`, in traversal order. */
  function Values(m: Mem, r: Ref): seq<Value> {
    if r in m.objs then m.objs[r].slots + CellValues(m.cells, m.objs[r].upvals) else []
  }

  predicate Succ(m: Mem, r: Ref, x: Ref) {
    Obj(x) in Values(m, r)
  }

  /** An object refers to what is in its slots and in its upvalues. */
  lemma SuccIs(m: Mem, r: Ref, x: Ref)
    ensures Succ(m, r, x) ==> r in m.objs
    ensures r in m.objs ==> var a, us := m.objs[r].slots, m.objs[r].upvals;
      Succ(m, r, x) <==>
        (exists i | 0 <= i < |a| :: a[i] == Obj(x)) || exists i | 0 <= i < |us| :: us[i] in m.cells && m.cells[us[i]] == Obj(x)
  {
    if r in m.objs {
      var a, us := m.objs[r].slots, m.objs[r].upvals;
      var b := CellValues(m.cells, us);
      assert Values(m, r) == a + b;
      forall i | 0 <= i < |us| && us[i] in m.cells && m.cells[us[i]] == Obj(x) ensures Obj(x) in a + b {
        assert b[i] == Obj(x) && (a + b)[|a| + i] == b[i];
      }
      if Obj(x) in b {
        var i :| 0 <= i < |b| && b[i] == Obj(x);
        assert us[i] in m.cells && m.cells[us[i]] == Obj(x);
      }
    }
  }

  /** The references a collection starts from: the main thread, the running
      thread, the registry and the metatables of the basic types. */
  predicate Root(m: Mem, r: Ref) {
    r == m.main || r == m.running || Obj(r) == m.registry || Obj(r) in m.mt
  }

  ghost predicate Path(m: Mem, p: seq<Ref>) {
    && |p| > 0
    && Root(m, p[0])
    && forall i :: 0 <= i < |p| - 1 ==> Succ(m, p[i], p[i + 1])
  }

  ghost predicate Reach(m: Mem, r: Ref) {
    exists p :: Path(m, p) && p[|p| - 1] == r
  }

  ghost predicate ReachValue(m: Mem, v: Value) {
    v.Obj? ==> Reach(m, v.ref)
  }

  predicate IsWhite(c: Col, r: Ref) {
    r in c.mark && c.mark[r].White?
  }

  predicate IsBlack(c: Col, r: Ref) {
    r in c.mark && c.mark[r] == Black
  }

  predicate IsGray(c: Col, r: Ref) {
    r in c.mark && c.mark[r] == Gray
  }

  predicate Marked(c: Col, r: Ref) {
    r in c.mark && !c.mark[r].White?
  }

  function Whites(c: Col): set<Ref> {
    set r | r in c.mark && c.mark[r].White?
  }

  /** An object is dead when it carries the white that is not current. */
  predicate IsDead(s: State, r: Ref) {
    r in s.col.mark && s.col.mark[r] == White(!s.cw)
  }

  predicate KeepInvariant(s: State) {
    s.gcstate.Propagate? || s.gcstate.Atomic?
  }

  predicate IsSweepPhase(s: State) {
    s.gcstate.SwpAllGc? || s.gcstate.SwpFinObj? || s.gcstate.SwpToBeFnz? || s.gcstate.SwpEnd?
  }

  predicate NoDup<T(==)>(s: seq<T>) {
    forall i, j :: 0 <= i < j < |s| ==> s[i] != s[j]
  }

  function Elems<T>(s: seq<T>): set<T> {
    set x | x in s
  }

  // ---- reachability ----

  /** A set that holds the roots and is closed under references holds
      everything reachable. */
  lemma ClosedHoldsReachable(m: Mem, S: set<Ref>, r: Ref)
    requires forall x :: Root(m, x) ==> x in S
    requires forall x, y :: x in S && Succ(m, x, y) ==> y in S
    requires Reach(m, r)
    ensures r in S
  {
    var p :| Path(m, p) && p[|p| - 1] == r;
    PathInClosed(m, S, p, |p| - 1);
  }

  lemma {:induction false} PathInClosed(m: Mem, S: set<Ref>, p: seq<Ref>, i: nat)
    requires forall x :: Root(m, x) ==> x in S
    requires forall x, y :: x in S && Succ(m, x, y) ==> y in S
    requires Path(m, p) && i < |p|
    ensures p[i] in S
  {
    if i > 0 {
      PathInClosed(m, S, p, i - 1);
      assert Succ(m, p[i - 1], p[i - 1 + 1]);
    }
  }

  lemma ReachRoot(m: Mem, r: Ref)
    requires Root(m, r)
    ensures Reach(m, r)
  {
    var p := [r];
    assert Path(m, p) && p[|p| - 1] == r;
  }

  lemma ReachSucc(m: Mem, r: Ref, x: Ref)
    requires Reach(m, r) && Succ(m, r, x)
    ensures Reach(m, x)
  {
    var p :| Path(m, p) && p[|p| - 1] == r;
    var q := p + [x];
    assert Path(m, q) && q[|q| - 1] == x;
  }
}
