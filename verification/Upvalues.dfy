/** Upvalues, open and closed. The variables of a program are cells of their own,
  shared by everything that can name them; `lfunc.c` keeps a variable in its
  stack slot as long as it can and moves it out when the slot goes. The ghost
  fields say which variable is where; each operation is specified by what it does
  to the variables. */
module Upvalues {

  datatype Value = Nil | Other(code: int)

  /** Where an upvalue points: into the stack, or at its own field. */
  datatype Place = Stack(addr: int) | Own

  datatype UpVal = UpVal(v: Place, refcount: nat, value: Value)

  /** Address of an `UpVal`. */
  type Ref = nat

  /** How a closure gets an upvalue: from a slot of the function that makes it, or
      from that function's own upvalues. */
  datatype Upvaldesc = Upvaldesc(instack: bool, idx: nat)

  function Refs(cs: seq<seq<Ref>>): multiset<Ref> {
    if cs == [] then multiset{} else multiset(cs[0]) + Refs(cs[1..])
  }

  lemma {:induction false} RefsAppend(cs: seq<seq<Ref>>, c: seq<Ref>)
    ensures Refs(cs + [c]) == Refs(cs) + multiset(c)
    decreases |cs|
  {
    if cs == [] {
      assert (cs + [c])[1..] == [];
    } else {
      RefsAppend(cs[1..], c);
      assert (cs + [c])[1..] == cs[1..] + [c];
    }
  }

  lemma {:induction false} RefsRemove(cs: seq<seq<Ref>>, k: nat)
    requires k < |cs|
    ensures Refs(cs) == Refs(cs[..k] + cs[k + 1..]) + multiset(cs[k])
    decreases |cs|
  {
    var r := cs[..k] + cs[k + 1..];
    if k == 0 {
      assert r == cs[1..];
    } else {
      RefsRemove(cs[1..], k - 1);
      assert r[0] == cs[0] && r[1..] == cs[1..][..k - 1] + cs[1..][k..];
    }
  }

  // ---- the invariant ----

  predicate Distinct(s: seq<nat>) { forall i, j | 0 <= i < j < |s| :: s[i] != s[j] }

  /** Each slot holds the value of a variable of its own. */
  predicate SlotsHold(slots: seq<Value>, cells: map<nat, Value>, local: seq<nat>, next: nat) {
    && |local| == |slots| && Distinct(local)
    && (forall i | 0 <= i < |slots| :: local[i] in cells && cells[local[i]] == slots[i])
    && (forall c | c in cells :: c < next)
  }

  predicate PointsAt(p: Place, stack: int, local: seq<nat>, cell: nat) {
    p.Stack? && 0 <= p.addr - stack < |local| && cell == local[p.addr - stack]
  }

  predicate HoldsItself(u: UpVal, cells: map<nat, Value>, local: seq<nat>, cell: nat) {
    u.v.Own? && cell in cells && cells[cell] == u.value && cell !in local
  }

  /** Every upvalue is where its variable is: on the list if in a slot. */
  predicate Homes(upvals: map<Ref, UpVal>, list: seq<Ref>, stack: int, cells: map<nat, Value>, local: seq<nat>, captured: map<Ref, nat>) {
    captured.Keys == upvals.Keys &&
    forall u | u in upvals ::
      if u in list then PointsAt(upvals[u].v, stack, local, captured[u]) else HoldsItself(upvals[u], cells, local, captured[u])
  }

  /** One upvalue for a variable. */
  predicate Single(captured: map<Ref, nat>) {
    forall u, w | u in captured && w in captured && captured[u] == captured[w] :: u == w
  }

  /** Strictly descending. */
  predicate Descending(upvals: map<Ref, UpVal>, list: seq<Ref>) {
    && (forall i | 0 <= i < |list| :: list[i] in upvals && upvals[list[i]].v.Stack?)
    && (forall i, j | 0 <= i < j < |list| :: upvals[list[i]].v.addr > upvals[list[j]].v.addr)
  }

  /** References are counted; what has none is on the list. */
  predicate Counted(upvals: map<Ref, UpVal>, list: seq<Ref>, refs: multiset<Ref>) {
    && (forall u | u in upvals :: upvals[u].refcount == refs[u] && (refs[u] > 0 || u in list))
    && (forall u | u in refs :: u in upvals)
  }

  predicate Older(upvals: map<Ref, UpVal>, brk: nat) { forall u | u in upvals :: u < brk }

  // ---- steps of the invariant ----

  lemma StoreSlots(slots: seq<Value>, cells: map<nat, Value>, local: seq<nat>, next: nat, i: nat, x: Value)
    requires SlotsHold(slots, cells, local, next) && i < |slots|
    ensures SlotsHold(slots[i := x], cells[local[i] := x], local, next)
  {
  }

  lemma StoreHomes(upvals: map<Ref, UpVal>, list: seq<Ref>, stack: int, cells: map<nat, Value>, local: seq<nat>, captured: map<Ref, nat>, i: nat, x: Value)
    requires Homes(upvals, list, stack, cells, local, captured) && i < |local|
    ensures Homes(upvals, list, stack, cells[local[i] := x], local, captured)
  {
  }

  lemma StoreOwn(upvals: map<Ref, UpVal>, list: seq<Ref>, stack: int, cells: map<nat, Value>, local: seq<nat>, captured: map<Ref, nat>, u: Ref, x: Value)
    requires Homes(upvals, list, stack, cells, local, captured) && Single(captured) && u in upvals && upvals[u].v.Own?
    ensures Homes(upvals[u := upvals[u].(value := x)], list, stack, cells[captured[u] := x], local, captured)
    ensures captured[u] !in local && u !in list
  {
  }

  /** A change that leaves the places alone leaves the list in order. */
  lemma SamePlaces(upvals: map<Ref, UpVal>, other: map<Ref, UpVal>, list: seq<Ref>)
    requires Descending(upvals, list) && forall u | u in list :: u in other && other[u].v == upvals[u].v
    ensures Descending(other, list)
  {
  }

  lemma CountUp(was: map<Ref, UpVal>, list: seq<Ref>, refs: multiset<Ref>, brk: nat, u: Ref)
    requires Counted(was, list, refs) && Older(was, brk) && u in was
    ensures var now := was[u := was[u].(refcount := was[u].refcount + 1)];
      Counted(now, list, refs + multiset{u}) && Older(now, brk)
  {
  }

  lemma CountKeepsHomes(was: map<Ref, UpVal>, list: seq<Ref>, stack: int, cells: map<nat, Value>, local: seq<nat>, captured: map<Ref, nat>, u: Ref)
    requires Homes(was, list, stack, cells, local, captured) && u in was
    ensures var now := was[u := was[u].(refcount := was[u].refcount + 1)];
      Homes(now, list, stack, cells, local, captured) && now.Keys == was.Keys
  {
  }

  lemma Inserted(list: seq<Ref>, uv: Ref, at: nat)
    requires at <= |list|
    ensures forall u :: u in list[..at] + [uv] + list[at..] <==> u in list || u == uv
  {
    var r := list[..at] + [uv] + list[at..];
    assert list == list[..at] + list[at..];
  }

  lemma InsertInOrder(upvals: map<Ref, UpVal>, list: seq<Ref>, uv: Ref, n: UpVal, at: nat)
    requires Descending(upvals, list) && at <= |list| && uv !in upvals && n.v.Stack?
    requires forall i | 0 <= i < at :: upvals[list[i]].v.addr > n.v.addr
    requires forall i | at <= i < |list| :: upvals[list[i]].v.addr < n.v.addr
    ensures Descending(upvals[uv := n], list[..at] + [uv] + list[at..])
  {
  }

  lemma First(upvals: map<Ref, UpVal>, list: seq<Ref>)
    requires Descending(upvals, list) && list != []
    ensures Descending(upvals, list[1..])
    ensures forall u :: u in list[1..] <==> u in list && u != list[0]
  {
    assert list == [list[0]] + list[1..];
    forall u | u in list[1..] ensures u != list[0] {
      var i :| 0 <= i < |list[1..]| && list[1..][i] == u;
      assert upvals[list[0]].v.addr > upvals[list[i + 1]].v.addr;
    }
  }

  /** No upvalue has the variable of a slot that none on the list points at. */
  lemma NotCaptured(upvals: map<Ref, UpVal>, list: seq<Ref>, stack: int, cells: map<nat, Value>, local: seq<nat>, captured: map<Ref, nat>, i: nat)
    requires Homes(upvals, list, stack, cells, local, captured) && Distinct(local) && i < |local|
    requires forall k | 0 <= k < |list| :: list[k] in upvals && upvals[list[k]].v != Stack(stack + i)
    ensures forall u | u in captured :: captured[u] != local[i]
  {
    forall u | u in captured ensures captured[u] != local[i] {
      if u in list {
        var k :| 0 <= k < |list| && list[k] == u;
        assert PointsAt(upvals[u].v, stack, local, captured[u]);
        assert upvals[u].v.addr - stack != i;
      } else {
        assert HoldsItself(upvals[u], cells, local, captured[u]);
      }
    }
  }

  /** No variable changes, nor which one an upvalue has, nor the first `n` slots. */
  predicate Kept(cells: map<nat, Value>, captured: map<Ref, nat>, local: seq<nat>,
                 cells': map<nat, Value>, captured': map<Ref, nat>, local': seq<nat>, n: nat) {
    && |local'| == |local| && n <= |local| && (forall i | 0 <= i < n :: local'[i] == local[i])
    && (forall c | c in cells :: c in cells' && cells'[c] == cells[c])
    && (forall u | u in captured' :: u in captured && captured'[u] == captured[u])
  }

  lemma KeptSelf(cells: map<nat, Value>, captured: map<Ref, nat>, local: seq<nat>, n: nat)
    requires n <= |local|
    ensures Kept(cells, captured, local, cells, captured, local, n)
  {
  }

  lemma KeptMore(cells: map<nat, Value>, captured: map<Ref, nat>, local: seq<nat>,
                 cells1: map<nat, Value>, captured1: map<Ref, nat>, local1: seq<nat>,
                 cells2: map<nat, Value>, captured2: map<Ref, nat>, local2: seq<nat>, n: nat)
    requires Kept(cells, captured, local, cells1, captured1, local1, n) && Kept(cells1, captured1, local1, cells2, captured2, local2, n)
    ensures Kept(cells, captured, local, cells2, captured2, local2, n)
  {
  }

  lemma KeptMeans(cells: map<nat, Value>, captured: map<Ref, nat>, local: seq<nat>,
                  cells1: map<nat, Value>, captured1: map<Ref, nat>, local1: seq<nat>, n: nat)
    requires Kept(cells, captured, local, cells1, captured1, local1, n)
    ensures |local1| == |local| && n <= |local| && (forall i | 0 <= i < n :: local1[i] == local[i])
    ensures forall c | c in cells :: c in cells1 && cells1[c] == cells[c]
    ensures forall u | u in captured1 :: u in captured && captured1[u] == captured[u]
  {
  }

  lemma LinkHomes(upvals: map<Ref, UpVal>, list: seq<Ref>, other: seq<Ref>, stack: int, cells: map<nat, Value>, local: seq<nat>, captured: map<Ref, nat>,
                  uv: Ref, n: UpVal, i: nat)
    requires Homes(upvals, list, stack, cells, local, captured) && Single(captured) && uv !in upvals && i < |local| && n.v == Stack(stack + i)
    requires forall u :: u in other <==> u in list || u == uv
    requires forall u | u in captured :: captured[u] != local[i]
    ensures Homes(upvals[uv := n], other, stack, cells, local, captured[uv := local[i]]) && Single(captured[uv := local[i]])
  {
  }

  lemma LinkCounted(upvals: map<Ref, UpVal>, list: seq<Ref>, other: seq<Ref>, refs: multiset<Ref>, uv: Ref, n: UpVal)
    requires Counted(upvals, list, refs) && uv !in upvals && n.refcount == 0 && forall u :: u in other <==> u in list || u == uv
    ensures Counted(upvals[uv := n], other, refs)
  {
    assert uv !in refs;
  }

  lemma FreeHomes(upvals: map<Ref, UpVal>, list: seq<Ref>, other: seq<Ref>, stack: int, cells: map<nat, Value>, local: seq<nat>, captured: map<Ref, nat>, uv: Ref)
    requires Homes(upvals, list, stack, cells, local, captured) && forall u :: u in other <==> u in list && u != uv
    ensures Homes(upvals - {uv}, other, stack, cells, local, captured - {uv})
  {
  }

  lemma FreeCounted(upvals: map<Ref, UpVal>, list: seq<Ref>, other: seq<Ref>, refs: multiset<Ref>, uv: Ref)
    requires Counted(upvals, list, refs) && uv in upvals && refs[uv] == 0 && forall u :: u in other <==> u in list && u != uv
    ensures Counted(upvals - {uv}, other, refs)
  {
    assert uv !in refs;
  }

  /** The slot gets a variable of its own, with the same value: what the slot is
      used for from now on is none of the old variable's business. */
  lemma RenewSlots(slots: seq<Value>, cells: map<nat, Value>, local: seq<nat>, next: nat, i: nat)
    requires SlotsHold(slots, cells, local, next) && i < |slots|
    ensures SlotsHold(slots, cells[next := slots[i]], local[i := next], next + 1)
    ensures local[i] !in local[i := next] && local[i] in cells && cells[local[i]] == slots[i] && next !in cells
  {
    var l := local[i := next];
    assert local[i] in cells;
    forall j | 0 <= j < |l| ensures l[j] != local[i] {
      assert j != i ==> l[j] == local[j];
    }
  }

  lemma CloseHomes(upvals: map<Ref, UpVal>, list: seq<Ref>, other: seq<Ref>, stack: int, cells: map<nat, Value>, local: seq<nat>, captured: map<Ref, nat>,
                   uv: Ref, i: nat, next: nat, x: Value)
    requires Homes(upvals, list, stack, cells, local, captured) && Single(captured) && forall u :: u in other <==> u in list && u != uv
    requires uv in list && uv in upvals && i < |local| && upvals[uv].v == Stack(stack + i)
    requires next !in cells && local[i] !in local[i := next] && local[i] in cells && cells[local[i]] == x
    ensures Homes(upvals[uv := UpVal(Own, upvals[uv].refcount, x)], other, stack, cells[next := x], local[i := next], captured)
  {
    var upvals', cells', local' := upvals[uv := UpVal(Own, upvals[uv].refcount, x)], cells[next := x], local[i := next];
    assert PointsAt(upvals[uv].v, stack, local, captured[uv]) && captured[uv] == local[i];
    forall u | u in upvals'
      ensures if u in other then PointsAt(upvals'[u].v, stack, local', captured[u]) else HoldsItself(upvals'[u], cells', local', captured[u])
    {
      if u in other {
        assert PointsAt(upvals[u].v, stack, local, captured[u]);
        assert captured[u] != captured[uv];
        assert upvals[u].v.addr - stack != i;
      } else if u != uv {
        assert HoldsItself(upvals[u], cells, local, captured[u]);
        Elsewhere(local, i, next, captured[u]);
      }
    }
  }

  lemma Elsewhere(local: seq<nat>, i: nat, next: nat, c: nat)
    requires i < |local| && c !in local && c != next
    ensures c !in local[i := next]
  {
  }

  /** The upvalues of `list` with their pointers moved by `d`. */
  function Moved(upvals: map<Ref, UpVal>, list: seq<Ref>, d: int): (m: map<Ref, UpVal>)
    ensures m.Keys == upvals.Keys
  {
    map u | u in upvals :: if u in list && upvals[u].v.Stack? then upvals[u].(v := Stack(upvals[u].v.addr + d)) else upvals[u]
  }

  lemma MovedOne(upvals: map<Ref, UpVal>, list: seq<Ref>, d: int, i: nat)
    requires i < |list| && Descending(upvals, list)
    ensures list[i] !in list[..i]
    ensures var m := Moved(upvals, list[..i], d);
      m[list[i]] == upvals[list[i]] && m[list[i] := m[list[i]].(v := Stack(upvals[list[i]].v.addr + d))] == Moved(upvals, list[..i + 1], d)
  {
    forall j | 0 <= j < i ensures list[j] != list[i] {
      assert upvals[list[j]].v.addr > upvals[list[i]].v.addr;
    }
    assert list[..i + 1] == list[..i] + [list[i]];
  }

  lemma MovedHomes(upvals: map<Ref, UpVal>, list: seq<Ref>, stack: int, cells: map<nat, Value>, local: seq<nat>, captured: map<Ref, nat>, d: int)
    requires Homes(upvals, list, stack, cells, local, captured) && Descending(upvals, list)
    ensures Homes(Moved(upvals, list, d), list, stack + d, cells, local, captured) && Descending(Moved(upvals, list, d), list)
  {
  }

  /** Slots that no upvalue points at can go. */
  lemma CutHomes(upvals: map<Ref, UpVal>, list: seq<Ref>, stack: int, cells: map<nat, Value>, local: seq<nat>, captured: map<Ref, nat>, n: nat)
    requires Homes(upvals, list, stack, cells, local, captured) && n <= |local|
    requires forall u | u in list && u in upvals :: upvals[u].v.Stack? ==> upvals[u].v.addr - stack < n
    ensures Homes(upvals, list, stack, cells, local[..n], captured)
  {
    forall u | u in upvals
      ensures if u in list then PointsAt(upvals[u].v, stack, local[..n], captured[u]) else HoldsItself(upvals[u], cells, local[..n], captured[u])
    {
      if u in list {
        assert PointsAt(upvals[u].v, stack, local, captured[u]);
      } else {
        assert HoldsItself(upvals[u], cells, local, captured[u]);
      }
    }
  }

  /** A new slot has a new variable. */
  lemma GrowOne(slots: seq<Value>, cells: map<nat, Value>, local: seq<nat>, next: nat,
                upvals: map<Ref, UpVal>, list: seq<Ref>, stack: int, captured: map<Ref, nat>)
    requires SlotsHold(slots, cells, local, next) && Homes(upvals, list, stack, cells, local, captured)
    ensures SlotsHold(slots + [Nil], cells[next := Nil], local + [next], next + 1)
    ensures Homes(upvals, list, stack, cells[next := Nil], local + [next], captured)
  {
    forall u | u in upvals
      ensures if u in list then PointsAt(upvals[u].v, stack, local + [next], captured[u])
              else HoldsItself(upvals[u], cells[next := Nil], local + [next], captured[u])
    {
      if u in list {
        assert PointsAt(upvals[u].v, stack, local, captured[u]);
      } else {
        assert HoldsItself(upvals[u], cells, local, captured[u]);
      }
    }
  }

  lemma MovedNone(upvals: map<Ref, UpVal>, d: int)
    ensures Moved(upvals, [], d) == upvals
  {
  }

  lemma MovedCounted(upvals: map<Ref, UpVal>, list: seq<Ref>, d: int, refs: multiset<Ref>, brk: nat)
    ensures Counted(upvals, list, refs) ==> Counted(Moved(upvals, list, d), list, refs)
    ensures Older(upvals, brk) ==> Older(Moved(upvals, list, d), brk)
  {
  }

  lemma DecHomes(upvals: map<Ref, UpVal>, list: seq<Ref>, stack: int, cells: map<nat, Value>, local: seq<nat>, captured: map<Ref, nat>, u: Ref)
    requires Homes(upvals, list, stack, cells, local, captured) && u in upvals && upvals[u].refcount > 0
    ensures Homes(upvals[u := upvals[u].(refcount := upvals[u].refcount - 1)], list, stack, cells, local, captured)
  {
  }

  lemma OwnOrListed(upvals: map<Ref, UpVal>, list: seq<Ref>, stack: int, cells: map<nat, Value>, local: seq<nat>, captured: map<Ref, nat>, u: Ref)
    requires Homes(upvals, list, stack, cells, local, captured) && u in upvals
    ensures upvals[u].v.Stack? ==> u in list
  {
  }

  lemma OwnIsOffList(upvals: map<Ref, UpVal>, list: seq<Ref>, stack: int, cells: map<nat, Value>, local: seq<nat>, captured: map<Ref, nat>, u: Ref)
    requires Homes(upvals, list, stack, cells, local, captured) && u in upvals && upvals[u].v.Own?
    ensures u !in list
  {
  }

  function NilCells(n: nat): (m: map<nat, Value>)
    ensures forall c: nat :: c in m <==> c < n
    ensures forall c | c in m :: m[c] == Nil
  {
    if n == 0 then map[] else NilCells(n - 1)[n - 1 := Nil]
  }

  class LuaState {
    /** Address of the first slot, and the slots. */
    var stack: int
    var slots: seq<Value>
    /** The upvalues in memory, and those of them that are open. */
    var upvals: map<Ref, UpVal>
    var openupval: seq<Ref>
    var closures: seq<seq<Ref>>
    var brk: nat
    /** References from closures, the one under construction included. */
    ghost var refs: multiset<Ref>
    /** The variables of the program: their values, the one in each slot, and the
        one of each upvalue. */
    ghost var cells: map<nat, Value>
    ghost var local: seq<nat>
    ghost var captured: map<Ref, nat>
    ghost var next: nat

    ghost predicate Valid()
      reads this`stack, this`slots, this`upvals, this`openupval, this`brk, this`refs, this`cells, this`local, this`captured, this`next
    {
      && SlotsHold(slots, cells, local, next)
      && Homes(upvals, openupval, stack, cells, local, captured)
      && Single(captured)
      && Descending(upvals, openupval)
      && Counted(upvals, openupval, refs)
      && Older(upvals, brk)
    }

    /** No closure is under construction. */
    ghost predicate Complete()
      reads this`refs, this`closures
    {
      refs == Refs(closures)
    }

    constructor (stack: int, size: nat)
      ensures Valid() && Complete() && closures == [] && |slots| == size && forall i | 0 <= i < size :: slots[i] == Nil
    {
      this.stack, slots, upvals, openupval, closures, brk := stack, seq(size, _ => Nil), map[], [], [], 0;
      refs, captured, next := multiset{}, map[], size;
      local := seq(size, i => i);
      cells := NilCells(size);
    }

    method GetLocal(i: nat) returns (x: Value)
      requires Valid() && i < |slots|
      ensures x == cells[local[i]]
    {
      x := slots[i];
    }

    /** A store to a slot is a store to its variable. */
    method SetLocal(i: nat, x: Value)
      requires Valid() && i < |slots|
      modifies this`slots, this`cells
      ensures Valid() && cells == old(cells)[local[i] := x] && |slots| == |old(slots)|
    {
      hide Homes, Single, Descending, Counted, Older;
      StoreSlots(slots, cells, local, next, i, x);
      StoreHomes(upvals, openupval, stack, cells, local, captured, i, x);
      slots := slots[i := x];
      cells := cells[local[i] := x];
    }

    /** What `*uv->v` reads: `OP_GETUPVAL`. */
    method GetUpval(u: Ref) returns (x: Value)
      requires Valid() && u in upvals
      ensures u in captured && x == cells[captured[u]]
    {
      hide Single, Counted, Older;
      x := if upvals[u].v.Own? then upvals[u].value else slots[upvals[u].v.addr - stack];
    }

    /** `OP_SETUPVAL` */
    method SetUpval(u: Ref, x: Value)
      requires Valid() && u in upvals
      modifies this`slots, this`cells, this`upvals
      ensures Valid() && u in captured && cells == old(cells)[captured[u] := x] && |slots| == |old(slots)|
      ensures upvals.Keys == old(upvals).Keys
    {
      hide Valid, SlotsHold, Homes, Single, Descending, Counted, Older;
      SameKeys();
      InRange(u);
      if upvals[u].v.Own? {
        SetOwn(u, x);
      } else {
        SetLocal(upvals[u].v.addr - stack, x);
      }
    }

    method SetOwn(u: Ref, x: Value)
      requires Valid() && u in upvals && u in captured && upvals[u].v.Own?
      modifies this`cells, this`upvals
      ensures Valid() && cells == old(cells)[captured[u] := x] && upvals.Keys == old(upvals).Keys
    {
      hide Homes, Single, Descending;
      StoreOwn(upvals, openupval, stack, cells, local, captured, u, x);
      CellExists(u);
      ghost var was := upvals;
      upvals := upvals[u := upvals[u].(value := x)];
      cells := cells[captured[u] := x];
      InOrder(was, openupval);
      SamePlaces(was, upvals, openupval);
    }

    lemma CellExists(u: Ref)
      requires Homes(upvals, openupval, stack, cells, local, captured) && u in upvals && upvals[u].v.Own?
      ensures captured[u] in cells
    {
    }

    lemma InRange(u: Ref)
      requires Valid() && u in upvals
      ensures upvals[u].v.Stack? ==> 0 <= upvals[u].v.addr - stack < |slots| && |local| == |slots| && captured[u] == local[upvals[u].v.addr - stack]
    {
      hide Single, Counted, Older;
    }

    /** What is on the list points at a variable's slot. */
    lemma ListedIs()
      requires Valid()
      ensures Descending(upvals, openupval) && |local| == |slots|
      ensures forall u | u in openupval :: u in upvals && u in captured && PointsAt(upvals[u].v, stack, local, captured[u])
    {
    }

    /** `luaF_findupval`: the upvalue of the variable in the slot at `level`. */
    method FindUpval(level: int) returns (uv: Ref)
      requires Valid() && 0 <= level - stack < |slots|
      modifies this`openupval, this`upvals, this`brk, this`captured
      ensures Valid() && uv in upvals && captured[uv] == local[level - stack]
      ensures old(upvals).Keys <= upvals.Keys && forall u | u in old(captured) :: captured[u] == old(captured)[u]
    {
      hide Valid, SlotsHold, Single, Counted, Older, Homes;
      ListedIs();
      SameKeys();
      var i := 0;
      while i < |openupval| && upvals[openupval[i]].v.addr >= level
        invariant i <= |openupval| && forall j | 0 <= j < i :: upvals[openupval[j]].v.addr > level
      {
        if upvals[openupval[i]].v.addr == level {
          return openupval[i];
        }
        i := i + 1;
      }
      uv := LinkNew(level, i);
    }

    lemma SlotCount()
      requires Valid()
      ensures |local| == |slots| && Distinct(local)
    {
    }

    /** Makes an upvalue for the slot at `level` and links it at its place. */
    method LinkNew(level: int, at: nat) returns (uv: Ref)
      requires Valid() && 0 <= level - stack < |slots| && at <= |openupval|
      requires forall i | 0 <= i < at :: upvals[openupval[i]].v.addr > level
      requires forall i | at <= i < |openupval| :: upvals[openupval[i]].v.addr < level
      modifies this`openupval, this`upvals, this`brk, this`captured
      ensures Valid() && uv in upvals && uv !in old(upvals) && captured == old(captured)[uv := local[level - stack]]
      ensures upvals.Keys == old(upvals).Keys + {uv}
    {
      hide SlotsHold, Descending, Homes, Counted, Single;
      uv := brk;
      var n := UpVal(Stack(level), 0, Nil);
      SlotCount();
      Apart(level, at);
      NotCaptured(upvals, openupval, stack, cells, local, captured, level - stack);
      Inserted(openupval, uv, at);
      InsertInOrder(upvals, openupval, uv, n, at);
      LinkHomes(upvals, openupval, openupval[..at] + [uv] + openupval[at..], stack, cells, local, captured, uv, n, level - stack);
      LinkCounted(upvals, openupval, openupval[..at] + [uv] + openupval[at..], refs, uv, n);
      brk := brk + 1;
      upvals := upvals[uv := n];
      openupval := openupval[..at] + [uv] + openupval[at..];
      captured := captured[uv := local[level - stack]];
    }

    lemma Apart(level: int, at: nat)
      requires Descending(upvals, openupval) && at <= |openupval|
      requires forall i | 0 <= i < at :: upvals[openupval[i]].v.addr > level
      requires forall i | at <= i < |openupval| :: upvals[openupval[i]].v.addr < level
      ensures forall k | 0 <= k < |openupval| :: openupval[k] in upvals && upvals[openupval[k]].v != Stack(level)
    {
    }

    /** Frees the first upvalue of the list, which nothing refers to. */
    method FreeFirst()
      requires Valid() && openupval != [] && openupval[0] in upvals && upvals[openupval[0]].refcount == 0
      modifies this`openupval, this`upvals, this`captured
      ensures Valid() && openupval == old(openupval)[1..]
      ensures upvals == old(upvals) - {old(openupval)[0]} && captured == old(captured) - {old(openupval)[0]}
    {
      hide SlotsHold, Descending, Homes, Counted;
      var uv := openupval[0];
      First(upvals, openupval);
      FreeHomes(upvals, openupval, openupval[1..], stack, cells, local, captured, uv);
      IsCounted(uv);
      FreeCounted(upvals, openupval, openupval[1..], refs, uv);
      ghost var was := upvals;
      openupval := openupval[1..];
      upvals := upvals - {uv};
      captured := captured - {uv};
      StillThere(was, openupval, uv);
      SamePlaces(was, upvals, openupval);
    }

    lemma IsCounted(uv: Ref)
      requires Valid() && uv in upvals
      ensures upvals[uv].refcount == refs[uv]
    {
    }

    lemma StillThere(was: map<Ref, UpVal>, list: seq<Ref>, uv: Ref)
      requires Descending(was, list) && uv !in list
      ensures forall u | u in list :: u in was - {uv} && (was - {uv})[u] == was[u]
    {
    }

    /** Moves the variable of the first upvalue of the list out of its slot. */
    method CloseFirst()
      requires Valid() && openupval != [] && openupval[0] in upvals && upvals[openupval[0]].refcount != 0
      modifies this`openupval, this`upvals, this`cells, this`local, this`next
      ensures Valid() && openupval == old(openupval)[1..] && upvals.Keys == old(upvals).Keys
      ensures var i := old(upvals[openupval[0]].v.addr) - stack;
        0 <= i < |slots| && |old(local)| == |slots| && local == old(local)[i := old(next)] && cells == old(cells)[old(next) := slots[i]]
      ensures old(next) !in old(cells)
      ensures upvals == old(upvals)[old(openupval)[0] := upvals[old(openupval)[0]]]
    {
      hide SlotsHold, Descending, Homes, Counted;
      var uv := openupval[0];
      First(upvals, openupval);
      FirstPlace();
      IsCounted(uv);
      var i := upvals[uv].v.addr - stack;
      var x := slots[i];
      RenewSlots(slots, cells, local, next, i);
      CloseHomes(upvals, openupval, openupval[1..], stack, cells, local, captured, uv, i, next, x);
      ghost var was := upvals;
      openupval := openupval[1..];
      upvals := upvals[uv := UpVal(Own, upvals[uv].refcount, x)];
      CloseCounted(was, upvals, old(openupval), uv);
      SamePlaces(was, upvals, openupval) by { InOrder(was, openupval); }
      cells := cells[next := x];
      local := local[i := next];
      next := next + 1;
    }

    lemma InOrder(was: map<Ref, UpVal>, list: seq<Ref>)
      requires Descending(was, list)
      ensures forall u | u in list :: u in was
    {
    }

    lemma CloseCounted(was: map<Ref, UpVal>, now: map<Ref, UpVal>, list: seq<Ref>, uv: Ref)
      requires Counted(was, list, refs) && list != [] && list[0] == uv && uv in was && was[uv].refcount != 0
      requires uv in now && now == was[uv := UpVal(Own, was[uv].refcount, now[uv].value)] && (forall u :: u in list[1..] <==> u in list && u != uv)
      ensures Counted(now, list[1..], refs)
    {
    }

    lemma FirstPlace()
      requires Valid() && openupval != []
      ensures var u := openupval[0]; u in upvals && upvals[u].v.Stack? && 0 <= upvals[u].v.addr - stack < |slots| && |slots| == |local|
    {
      assert openupval[0] in openupval;
    }

    /** `luaF_close`: the variables in slots at or above `level` move out of the
        stack, each to the upvalue that has it. No variable changes, nor which one
        an upvalue has, nor the slots below; afterwards no upvalue has anything
        to do with a slot at or above `level`; only upvalues without references
        are freed. */
    method Close(level: int)
      requires Valid()
      modifies this`openupval, this`upvals, this`cells, this`local, this`next, this`captured
      ensures Valid() && |local| == |slots|
      ensures forall i | 0 <= i < |slots| && stack + i < level :: local[i] == old(local)[i]
      ensures forall c | c in old(cells) :: c in cells && cells[c] == old(cells)[c]
      ensures forall u | u in captured :: u in old(captured) && captured[u] == old(captured)[u]
      ensures forall u, i | u in captured && 0 <= i < |slots| && stack + i >= level :: captured[u] != local[i]
      ensures forall u | u in old(upvals) && u !in upvals :: refs[u] == 0
    {
      SlotCount();
      hide *;
      ghost var n := if level - stack < 0 then 0 else if level - stack > |slots| then |slots| else level - stack;
      KeptSelf(cells, captured, local, n);
      while openupval != [] && FirstAddr() >= level
        invariant Valid() && |local| == |slots| && Kept(old(cells), old(captured), old(local), cells, captured, local, n)
        invariant forall u | u in old(upvals) && u !in upvals :: refs[u] == 0
        decreases |openupval|
      {
        ghost var cs, us, ls := cells, captured, local;
        CloseOne(n);
        KeptMore(old(cells), old(captured), old(local), cs, us, ls, cells, captured, local, n);
      }
      forall u, i | u in captured && 0 <= i < |slots| && stack + i >= level ensures captured[u] != local[i] {
        AllBelow(level, u, i);
      }
      KeptMeans(old(cells), old(captured), old(local), cells, captured, local, n);
    }

    /** One round of the loop of `luaF_close`. */
    method CloseOne(ghost n: nat)
      requires Valid() && openupval != [] && n <= |local| && FirstAddr() >= stack + n
      modifies this`openupval, this`upvals, this`cells, this`local, this`next, this`captured
      ensures Valid() && |local| == |slots| && |openupval| < |old(openupval)|
      ensures Kept(old(cells), old(captured), old(local), cells, captured, local, n)
      ensures upvals.Keys <= old(upvals).Keys && forall u | u in old(upvals) && u !in upvals :: refs[u] == 0
    {
      hide Valid, SlotsHold, Descending, Homes, Counted, Single, Older;
      SlotCount();
      FirstPlace();
      IsCounted(openupval[0]);
      if upvals[openupval[0]].refcount == 0 {
        FreeFirst();
      } else {
        CloseFirst();
      }
    }

    function FirstAddr(): (a: int)
      requires Valid() && openupval != []
      reads this
      ensures openupval[0] in upvals && upvals[openupval[0]].v == Stack(a)
    {
      FirstPlace();
      upvals[openupval[0]].v.addr
    }

    lemma AllBelow(level: int, u: Ref, i: nat)
      requires Valid() && (openupval == [] || FirstAddr() < level) && u in captured && i < |slots| && stack + i >= level && |local| == |slots|
      ensures captured[u] != local[i]
    {
      hide Single, Counted, Older;
      NotCaptured(upvals, openupval, stack, cells, local, captured, i);
    }

    /** Adds a slot, which is nil. */
    method GrowSlot()
      requires Valid()
      modifies this`slots, this`cells, this`local, this`next
      ensures Valid() && slots == old(slots) + [Nil] && |local| == |slots|
      ensures Kept(old(cells), captured, old(local) + [old(next)], cells, captured, local, |old(local)| + 1)
      ensures |old(local)| == |old(slots)| && old(next) !in old(cells)
    {
      hide Homes, Descending, Counted, Single, Older;
      SlotCount();
      GrowOne(slots, cells, local, next, upvals, openupval, stack, captured);
      slots := slots + [Nil];
      cells := cells[next := Nil];
      local := local + [next];
      next := next + 1;
    }

    /** `correctstack`: the pointers of the open upvalues follow the stack. */
    method CorrectStack(newstack: int)
      requires Valid()
      modifies this`stack, this`upvals
      ensures Valid() && stack == newstack && upvals == Moved(old(upvals), openupval, newstack - old(stack))
    {
      hide Homes, Counted, Single, SlotsHold, Moved, Older;
      ghost var d := newstack - stack;
      ghost var was := upvals;
      assert Moved(was, openupval[..0], d) == was by { MovedNone(was, d); }
      for i := 0 to |openupval|
        invariant upvals == Moved(was, openupval[..i], d) && stack == old(stack)
      {
        var u := openupval[i];
        MovedOne(was, openupval, d, i);
        upvals := upvals[u := upvals[u].(v := Stack((upvals[u].v.addr - stack) + newstack))];
      }
      assert openupval[..|openupval|] == openupval;
      MovedHomes(was, openupval, stack, cells, local, captured, d);
      MovedCounted(was, openupval, d, refs, brk);
      stack := newstack;
    }

    /** `luaD_reallocstack`: to a new place and size. Slots that are cut off must
        not be in use; slots that remain keep their variables and upvalues keep
        theirs. */
    method ReallocStack(newstack: int, newsize: nat)
      requires Valid()
      requires forall u | u in openupval :: u in upvals && upvals[u].v.Stack? && upvals[u].v.addr - stack < newsize
      modifies this`stack, this`slots, this`upvals, this`cells, this`local, this`next
      ensures Valid() && stack == newstack && |slots| == newsize == |local|
      ensures forall i | 0 <= i < newsize && i < |old(local)| :: local[i] == old(local)[i]
      ensures forall i | |old(local)| <= i < newsize :: slots[i] == Nil && local[i] !in old(cells)
      ensures forall c | c in old(cells) :: c in cells && cells[c] == old(cells)[c]
    {
      hide *;
      SlotCount();
      if newsize < |slots| {
        CutSlots(newsize);
      }
      var lim := |slots|;
      ghost var ls := local;
      while |slots| < newsize
        invariant Valid() && lim <= |slots| == |local| <= newsize && |ls| == lim
        invariant forall i | 0 <= i < lim :: local[i] == ls[i]
        invariant forall i | lim <= i < |slots| :: slots[i] == Nil && local[i] !in old(cells)
        invariant forall c | c in old(cells) :: c in cells && cells[c] == old(cells)[c]
        decreases newsize - |slots|
      {
        ghost var cs, l, n := cells, local, next;
        GrowSlot();
        KeptMeans(cs, captured, l + [n], cells, captured, local, |l| + 1);
      }
      CorrectStack(newstack);
    }

    /** Slots above `n` are given back. */
    method CutSlots(n: nat)
      requires Valid() && n <= |slots|
      requires forall u | u in openupval :: u in upvals && upvals[u].v.Stack? && upvals[u].v.addr - stack < n
      modifies this`slots, this`local
      ensures Valid() && slots == old(slots)[..n] && |old(local)| == |old(slots)| && local == old(local)[..n]
    {
      hide Homes, Descending, Counted, Single, Older;
      CutHomes(upvals, openupval, stack, cells, local, captured, n);
      slots := slots[..n];
      local := local[..n];
    }

    /** One more reference. */
    method AddRef(u: Ref)
      requires Valid() && u in upvals
      modifies this`upvals, this`refs
      ensures Valid() && refs == old(refs) + multiset{u} && upvals.Keys == old(upvals).Keys
    {
      hide SlotsHold, Single, Descending, Homes, Counted, Older;
      ghost var was := upvals;
      upvals := upvals[u := upvals[u].(refcount := upvals[u].refcount + 1)];
      CountUp(was, openupval, refs, brk, u);
      CountKeepsHomes(was, openupval, stack, cells, local, captured, u);
      refs := refs + multiset{u};
      InOrder(was, openupval);
      SamePlaces(was, upvals, openupval);
    }

    ghost predicate Described(d: Upvaldesc, encup: seq<Ref>, base: nat)
      reads this`local, this`captured
    {
      if d.instack then base + d.idx < |local| else d.idx < |encup| && encup[d.idx] in captured
    }

    /** The variable that upvalue `d` of a closure made here is to have. */
    ghost function Wanted(d: Upvaldesc, encup: seq<Ref>, base: nat): nat
      requires Described(d, encup, base)
      reads this`local, this`captured
    {
      if d.instack then local[base + d.idx] else captured[encup[d.idx]]
    }

    /** What the compiler guarantees of the descriptions. */
    ghost predicate Describes(ds: seq<Upvaldesc>, encup: seq<Ref>, base: nat)
      reads this`local, this`captured
    {
      forall i | 0 <= i < |ds| :: Described(ds[i], encup, base)
    }

    /** One upvalue of a new closure. */
    method Capture(d: Upvaldesc, encup: seq<Ref>, base: nat) returns (u: Ref)
      requires Valid() && Described(d, encup, base)
      modifies this`openupval, this`upvals, this`brk, this`captured, this`refs
      ensures Valid() && u in captured && captured[u] == old(Wanted(d, encup, base)) && refs == old(refs) + multiset{u}
      ensures forall w | w in old(captured) :: w in captured && captured[w] == old(captured)[w]
    {
      hide Valid, SlotsHold, Homes, Single, Descending, Counted, Older;
      SlotCount();
      SameKeys();
      if d.instack {
        u := FindUpval(stack + (base + d.idx));
      } else {
        u := encup[d.idx];
      }
      SameKeys();
      AddRef(u);
    }

    lemma SameKeys()
      requires Valid()
      ensures captured.Keys == upvals.Keys
    {
    }

    /** `pushclosure`: each upvalue of the new closure has the variable that its
        description names, and the closure's references are counted. */
    method PushClosure(ds: seq<Upvaldesc>, encup: seq<Ref>, base: nat)
      requires Valid() && Complete() && Describes(ds, encup, base)
      modifies this`openupval, this`upvals, this`brk, this`captured, this`refs, this`closures
      ensures Valid() && Complete() && |closures| == |old(closures)| + 1 && closures[..|old(closures)|] == old(closures)
      ensures |closures[|old(closures)|]| == |ds|
      ensures forall i | 0 <= i < |ds| ::
        var u := closures[|old(closures)|][i];
        u in captured && captured[u] == if ds[i].instack then old(local)[base + ds[i].idx] else old(captured)[encup[ds[i].idx]]
      ensures forall w | w in old(captured) :: w in captured && captured[w] == old(captured)[w]
    {
      hide Valid, SlotsHold, Homes, Single, Descending, Counted, Older, Refs;
      var ncl: seq<Ref> := [];
      for i := 0 to |ds|
        invariant Valid() && closures == old(closures) && |ncl| == i && refs == old(refs) + multiset(ncl)
        invariant forall w | w in old(captured) :: w in captured && captured[w] == old(captured)[w]
        invariant forall j | 0 <= j < i :: ncl[j] in captured && captured[ncl[j]] == old(Wanted(ds[j], encup, base))
      {
        var u := Capture(ds[i], encup, base);
        ncl := ncl + [u];
      }
      RefsAppend(closures, ncl);
      closures := closures + [ncl];
    }

    /** `luaC_upvdeccount`: a closed upvalue goes with its last reference; an open
        one stays on the list. */
    method UpvDecCount(u: Ref)
      requires Valid() && u in refs
      modifies this`upvals, this`refs, this`captured
      ensures Valid() && refs == old(refs) - multiset{u}
      ensures upvals.Keys <= old(upvals).Keys
      ensures forall w | w in captured :: w in old(captured) && captured[w] == old(captured)[w]
    {
      hide SlotsHold, Homes, Descending, Single;
      ghost var was := upvals;
      upvals := upvals[u := upvals[u].(refcount := upvals[u].refcount - 1)];
      refs := refs - multiset{u};
      DecHomes(was, openupval, stack, cells, local, captured, u);
      InOrder(was, openupval);
      SamePlaces(was, upvals, openupval);
      if upvals[u].refcount == 0 && upvals[u].v.Own? {
        FreeClosed(u);
      } else {
        OwnOrListed(was, openupval, stack, cells, local, captured, u);
      }
    }

    /** Frees an upvalue that has lost its last reference. */
    method FreeClosed(u: Ref)
      requires SlotsHold(slots, cells, local, next) && Homes(upvals, openupval, stack, cells, local, captured) && Single(captured)
      requires Descending(upvals, openupval) && Older(upvals, brk) && u in upvals && upvals[u].v.Own? && refs[u] == 0
      requires (forall w | w in upvals :: upvals[w].refcount == refs[w] && (w == u || refs[w] > 0 || w in openupval)) && forall w | w in refs :: w in upvals
      modifies this`upvals, this`captured
      ensures Valid() && upvals == old(upvals) - {u} && captured == old(captured) - {u}
    {
      hide SlotsHold, Homes, Descending;
      OwnIsOffList(upvals, openupval, stack, cells, local, captured, u);
      ghost var was := upvals;
      FreeHomes(upvals, openupval, openupval, stack, cells, local, captured, u);
      upvals := upvals - {u};
      captured := captured - {u};
      StillThere(was, openupval, u);
      SamePlaces(was, upvals, openupval);
    }

    /** `freeLclosure`: the references of the closure are given back. No other
        closure loses an upvalue, and no variable changes. */
    method FreeClosure(k: nat)
      requires Valid() && Complete() && k < |closures|
      modifies this`upvals, this`refs, this`captured, this`closures
      ensures Valid() && Complete() && closures == old(closures)[..k] + old(closures)[k + 1..]
      ensures forall w | w in captured :: w in old(captured) && captured[w] == old(captured)[w]
      ensures forall w | w in Refs(closures) :: w in captured
    {
      hide Valid, SlotsHold, Homes, Single, Descending, Counted, Older, Refs;
      var c := closures[k];
      ghost var rest := closures[..k] + closures[k + 1..];
      RefsRemove(closures, k);
      assert c[0..] == c;
      for i := 0 to |c|
        invariant Valid() && closures == old(closures) && refs == Refs(rest) + multiset(c[i..])
        invariant forall w | w in captured :: w in old(captured) && captured[w] == old(captured)[w]
      {
        assert c[i..] == [c[i]] + c[i + 1..];
        UpvDecCount(c[i]);
      }
      closures := closures[..k] + closures[k + 1..];
      Referred();
    }

    lemma Referred()
      requires Valid()
      ensures forall w | w in refs :: w in captured && w in upvals
    {
    }

    /** Whether two upvalues point at the same place. */
    predicate SamePlace(u: Ref, w: Ref)
      requires u in upvals && w in upvals
      reads this`upvals
    {
      if upvals[u].v.Own? || upvals[w].v.Own? then u == w else upvals[u].v == upvals[w].v
    }

    lemma SamePlaceIs(u: Ref, w: Ref)
      requires Valid() && u in upvals && w in upvals
      ensures u in captured && w in captured && (SamePlace(u, w) <==> captured[u] == captured[w])
    {
      hide Counted, Older, Descending;
      assert SlotsHold(slots, cells, local, next);
    }

    lemma PointsAtIs(u: Ref, i: nat)
      requires Valid() && u in upvals && i < |local|
      ensures u in captured && (upvals[u].v == Stack(stack + i) <==> captured[u] == local[i])
    {
      hide Counted, Older, Descending, Single;
      assert Distinct(local);
      if upvals[u].v.Stack? && upvals[u].v.addr - stack != i && u in openupval {
        assert PointsAt(upvals[u].v, stack, local, captured[u]);
      }
    }

    /** `getcached`: a closure made before is used again exactly when each of its
        upvalues has the variable that a new closure would get. */
    method GetCached(cache: seq<Ref>, ds: seq<Upvaldesc>, encup: seq<Ref>, base: nat) returns (ok: bool)
      requires Valid() && Describes(ds, encup, base) && |cache| == |ds| && forall i | 0 <= i < |cache| :: cache[i] in captured
      ensures ok <==> forall i | 0 <= i < |ds| ::
        captured[cache[i]] == if ds[i].instack then local[base + ds[i].idx] else captured[encup[ds[i].idx]]
    {
      hide Valid, SlotsHold, Homes, Single, Descending, Counted, Older, SamePlace;
      SameKeys();
      for i := 0 to |ds|
        invariant forall j | 0 <= j < i :: captured[cache[j]] == Wanted(ds[j], encup, base)
      {
        var d, u := ds[i], cache[i];
        if d.instack {
          PointsAtIs(u, base + d.idx);
          if upvals[u].v != Stack(stack + (base + d.idx)) { return false; }
        } else {
          SamePlaceIs(u, encup[d.idx]);
          if !SamePlace(u, encup[d.idx]) { return false; }
        }
      }
      return true;
    }

    /** Two closures that capture the same local variable share it with each other
        and with the function that has it: what is stored through one of the three
        the other two read, also after the stack has moved. When the variable's
        slot is gone the closures still share it, and what is then stored in the
        slot is none of their business. */
    method ClosuresShare(ds1: seq<Upvaldesc>, i: nat, ds2: seq<Upvaldesc>, j: nat, encup: seq<Ref>, base: nat,
                         newstack: int, newsize: nat, x: Value, y: Value, z: Value, later: Value)
      returns (first: Value, second: Value, third: Value, fourth: Value, fifth: Value)
      requires Valid() && Complete() && Describes(ds1, encup, base) && Describes(ds2, encup, base)
      requires i < |ds1| && j < |ds2| && ds1[i].instack && ds1[i] == ds2[j] && base + ds1[i].idx < |slots| <= newsize
      modifies this
      ensures Valid()
      ensures first == x && second == y && third == y && fourth == z && fifth == z
    {
      hide *;
      var at, n := base + ds1[i].idx, |closures|;
      SlotCount();
      MakeTwo(ds1, ds2, encup, base, i, j);
      var u, w := closures[n][i], closures[n + 1][j];
      Referenced(n, i);
      Referenced(n + 1, j);
      first, second, third := ShareOpen(u, w, at, x, y);
      fourth, fifth := ShareClosed(u, w, at, newstack, newsize, z, later);
    }

    /** While the variable is in its slot. */
    method ShareOpen(u: Ref, w: Ref, at: nat, x: Value, y: Value) returns (first: Value, second: Value, third: Value)
      requires Valid() && at < |slots| && |local| == |slots|
      requires u in captured && w in captured && captured[u] == captured[w] == local[at]
      modifies this`slots, this`cells, this`upvals
      ensures Valid() && |slots| == |old(slots)| && first == x && second == y && third == y
    {
      hide *;
      SameKeys();
      SetLocal(at, x);
      first := GetUpval(u);
      SetUpval(u, y);
      second := GetUpval(w);
      third := GetLocal(at);
    }

    /** After the stack has moved and the slot is gone. */
    method ShareClosed(u: Ref, w: Ref, at: nat, newstack: int, newsize: nat, z: Value, later: Value) returns (fourth: Value, fifth: Value)
      requires Valid() && at < |slots| <= newsize && |local| == |slots| && refs[u] > 0 && refs[w] > 0
      requires u in captured && w in captured && captured[u] == captured[w] == local[at]
      modifies this`stack, this`slots, this`upvals, this`cells, this`local, this`next, this`openupval, this`captured
      ensures Valid() && fourth == z && fifth == z
    {
      hide *;
      SameKeys();
      AllOpenFit(newsize);
      ReallocStack(newstack, newsize);
      SameKeys();
      Close(newstack + at);
      SameKeys();
      SetUpval(w, z);
      fourth := GetUpval(u);
      SetLocal(at, later);
      fifth := GetUpval(u);
    }

    /** Two closures, one after the other. */
    method MakeTwo(ds1: seq<Upvaldesc>, ds2: seq<Upvaldesc>, encup: seq<Ref>, base: nat, i: nat, j: nat)
      requires Valid() && Complete() && Describes(ds1, encup, base) && Describes(ds2, encup, base)
      requires i < |ds1| && j < |ds2| && ds1[i].instack && ds1[i] == ds2[j] && base + ds1[i].idx < |local|
      modifies this`openupval, this`upvals, this`brk, this`captured, this`refs, this`closures
      ensures Valid() && Complete() && |closures| == |old(closures)| + 2
      ensures |closures[|old(closures)|]| == |ds1| && |closures[|old(closures)| + 1]| == |ds2|
      ensures var u, w := closures[|old(closures)|][i], closures[|old(closures)| + 1][j]; var cell := local[base + ds1[i].idx];
        u in captured && w in captured && captured[u] == cell && captured[w] == cell
    {
      hide Valid, Complete;
      ghost var n := |closures|;
      PushClosure(ds1, encup, base);
      ghost var one := closures;
      assert Describes(ds2, encup, base);
      PushClosure(ds2, encup, base);
      assert closures[n] == closures[..n + 1][n] == one[n];
    }

    /** What a closure refers to is referred to. */
    lemma Referenced(k: nat, i: nat)
      requires Complete() && k < |closures| && i < |closures[k]|
      ensures refs[closures[k][i]] > 0
    {
      RefsRemove(closures, k);
      assert closures[k][i] in multiset(closures[k]);
    }

    lemma AllOpenFit(newsize: nat)
      requires Valid() && |slots| <= newsize
      ensures forall v | v in openupval :: v in upvals && upvals[v].v.Stack? && upvals[v].v.addr - stack < newsize
    {
      hide Single, Counted, Older;
    }
  }
}
