/** Weak tables in the atomic phase of `lgc.c`: ephemeron convergence and the
  clearing of dead keys and values. */
module Ephemeron {

  type Ref = nat

  /** Something that is marked: a collectable object, or nothing to mark. */
  datatype Slot = Plain | Obj(r: Ref)

  datatype Entry = Entry(key: Slot, val: Slot)

  /** Strings; objects whose fields are all strong; tables with weak keys
      ("ephemeron tables"), with weak values, and with both. Only entries with a
      value are listed. */
  datatype Object =
    | Text
    | Strong(fields: seq<Slot>)
    | WeakKeys(meta: Slot, arr: seq<Slot>, entries: seq<Entry>)
    | WeakVals(meta: Slot, arr: seq<Slot>, entries: seq<Entry>)
    | AllWeak(meta: Slot, arr: seq<Slot>, entries: seq<Entry>)

  function KeysOf(es: seq<Entry>): (ks: seq<Slot>)
    ensures |ks| == |es| && forall i | 0 <= i < |es| :: ks[i] == es[i].key
  {
    seq(|es|, i requires 0 <= i < |es| => es[i].key)
  }

  /** What an object keeps alive whatever else is marked: a table its metatable,
      and its array slots or its keys if they are not weak. */
  function StrongSlots(o: Object): seq<Slot> {
    match o
    case Text => []
    case Strong(fs) => fs
    case WeakKeys(m, a, _) => [m] + a
    case WeakVals(m, _, es) => [m] + KeysOf(es)
    case AllWeak(m, _, _) => [m]
  }

  type Heap = map<Ref, Object>

  predicate IsText(h: Heap, r: Ref) { r in h && h[r].Text? }

  /** The object is in the heap. */
  predicate Known(h: Heap, s: Slot) { s.Obj? ==> s.r in h }

  predicate KnownEntries(h: Heap, es: seq<Entry>) {
    forall i | 0 <= i < |es| :: Known(h, es[i].key) && Known(h, es[i].val)
  }

  predicate Closed(h: Heap) {
    forall r | r in h :: ClosedObject(h, h[r])
  }

  predicate ClosedObject(h: Heap, o: Object) {
    match o
    case Text => true
    case Strong(fs) => KnownSlots(h, fs)
    case WeakKeys(m, a, es) => Known(h, m) && KnownSlots(h, a) && KnownEntries(h, es)
    case WeakVals(m, a, es) => Known(h, m) && KnownSlots(h, a) && KnownEntries(h, es)
    case AllWeak(m, a, es) => Known(h, m) && KnownSlots(h, a) && KnownEntries(h, es)
  }

  predicate KnownSlots(h: Heap, a: seq<Slot>) { forall i | 0 <= i < |a| :: Known(h, a[i]) }

  /** `s` does not keep anything from being marked: it is marked, or needs no
      mark. */
  predicate In(S: set<Ref>, s: Slot) { s.Obj? ==> s.r in S }

  /** A key counts as marked if it is; strings are never weak. */
  predicate KeyIn(h: Heap, S: set<Ref>, s: Slot) { s.Obj? ==> s.r in S || IsText(h, s.r) }

  /** `S` has what an object of `S` keeps alive: its strong slots and, of a table
      with weak keys, the string keys and the values of those keys that are in
      `S`. */
  predicate Satisfied(h: Heap, S: set<Ref>, o: Object) {
    AllIn(S, StrongSlots(o)) && (o.WeakKeys? ==> forall i | 0 <= i < |o.entries| :: EntrySatisfied(h, S, o.entries[i]))
  }

  predicate EntrySatisfied(h: Heap, S: set<Ref>, e: Entry) {
    (KeyIn(h, S, e.key) ==> In(S, e.val)) && (e.key.Obj? && IsText(h, e.key.r) ==> e.key.r in S)
  }

  /** Closed under everything that keeps objects alive. */
  predicate Fixpoint(h: Heap, S: set<Ref>) {
    forall r | r in S && r in h :: Satisfied(h, S, h[r])
  }

  /** No closed set with `M0` in it is without something of `M`. */
  ghost predicate Least(h: Heap, M0: set<Ref>, M: set<Ref>) {
    forall S: set<Ref> | M0 <= S && Fixpoint(h, S) :: M <= S
  }

  /** Some entry has an unmarked key. */
  predicate HasDeadKey(h: Heap, S: set<Ref>, es: seq<Entry>) {
    exists i | 0 <= i < |es| :: !KeyIn(h, S, es[i].key)
  }

  predicate TextKeysIn(h: Heap, S: set<Ref>, es: seq<Entry>) {
    forall i | 0 <= i < |es| :: es[i].key.Obj? && IsText(h, es[i].key.r) ==> es[i].key.r in S
  }

  predicate ValuesIn(S: set<Ref>, es: seq<Entry>) {
    forall i | 0 <= i < |es| :: In(S, es[i].val)
  }

  predicate AllIn(S: set<Ref>, fs: seq<Slot>) {
    forall i | 0 <= i < |fs| :: In(S, fs[i])
  }

  /** The object needs no further visit, however many marks are still to come:
      all it can keep alive is marked, and if some of its keys may have to go it
      is on the list `cleared` of tables to be cleared. */
  predicate Done(h: Heap, S: set<Ref>, cleared: seq<Ref>, r: Ref)
    requires r in h
  {
    AllIn(S, StrongSlots(h[r])) &&
    match h[r]
    case WeakKeys(_, _, es) => ValuesIn(S, es) && TextKeysIn(h, S, es) && (HasDeadKey(h, S, es) ==> r in cleared)
    case WeakVals(_, a, es) => r in cleared || (a == [] && LiveValues(h, S, es))
    case AllWeak(_, _, _) => r in cleared
    case _ => true
  }

  /** No value has to go. */
  predicate LiveValues(h: Heap, S: set<Ref>, es: seq<Entry>) {
    forall i | 0 <= i < |es| :: KeyIn(h, S, es[i].val)
  }

  /** Every marked object waits for a visit, or is done. */
  predicate Covered(h: Heap, S: set<Ref>, waiting: set<Ref>, cleared: seq<Ref>) {
    forall r | r in S && r in h :: r in waiting || Done(h, S, cleared, r)
  }

  function Elements(s: seq<Ref>): set<Ref> { set r | r in s }

  lemma DoneGrows(h: Heap, S: set<Ref>, T: set<Ref>, c: seq<Ref>, d: seq<Ref>, r: Ref)
    requires r in h && Done(h, S, c, r) && S <= T && Elements(c) <= Elements(d)
    ensures Done(h, T, d, r)
  {
    assert r in c ==> r in Elements(c);
    assert forall s | KeyIn(h, S, s) :: KeyIn(h, T, s);
  }

  /** Whatever is closed and has `M0` in it also has `r`. */
  ghost predicate Forced(h: Heap, M0: set<Ref>, r: Ref) {
    forall S: set<Ref> | M0 <= S && Fixpoint(h, S) :: r in S
  }

  /** A string that is a value of a marked table with weak values: whether it is
      marked before the table is cleared depends on the order of the entries. */
  ghost predicate Loose(h: Heap, M: set<Ref>, r: Ref) {
    IsText(h, r) && exists w, i: nat :: w in M && w in h && h[w].WeakVals? && i < |h[w].entries| && h[w].entries[i].val == Obj(r)
  }

  /** All of `M` has to be in every closed set with `M0`, but for such strings. */
  ghost predicate LeastBut(h: Heap, M0: set<Ref>, M: set<Ref>) {
    forall r | r in M :: Forced(h, M0, r) || Loose(h, M, r)
  }

  lemma LeastGrows(h: Heap, M0: set<Ref>, M: set<Ref>, r: Ref)
    requires LeastBut(h, M0, M) && (Forced(h, M0, r) || Loose(h, M, r))
    ensures LeastBut(h, M0, M + {r})
  {
    hide Forced;
    forall q | q in M && Loose(h, M, q) ensures Loose(h, M + {r}, q) {}
  }

  lemma KeyForced(h: Heap, M0: set<Ref>, M: set<Ref>, r: Ref)
    requires LeastBut(h, M0, M) && r in M && !IsText(h, r)
    ensures Forced(h, M0, r)
  {
    hide Forced;
  }

  lemma FieldForced(h: Heap, M0: set<Ref>, M: set<Ref>, w: Ref, s: Slot)
    requires LeastBut(h, M0, M) && w in M && w in h && s in StrongSlots(h[w]) && s.Obj?
    ensures Forced(h, M0, s.r)
  {
    hide LeastBut;
    KeyForced(h, M0, M, w);
    forall S: set<Ref> | M0 <= S && Fixpoint(h, S) ensures s.r in S {
      assert Satisfied(h, S, h[w]) && In(S, s);
    }
  }

  lemma EntryForced(h: Heap, M0: set<Ref>, M: set<Ref>, w: Ref, i: nat)
    requires LeastBut(h, M0, M) && w in M && w in h && h[w].WeakKeys? && i < |h[w].entries|
    ensures var e := h[w].entries[i]; KeyIn(h, M, e.key) && e.val.Obj? ==> Forced(h, M0, e.val.r)
    ensures var e := h[w].entries[i]; e.key.Obj? && IsText(h, e.key.r) ==> Forced(h, M0, e.key.r)
  {
    var e := h[w].entries[i];
    KeyForced(h, M0, M, w);
    if KeyIn(h, M, e.key) && e.key.Obj? && !IsText(h, e.key.r) { KeyForced(h, M0, M, e.key.r); }
    hide LeastBut;
    forall S: set<Ref> | M0 <= S && Fixpoint(h, S)
      ensures KeyIn(h, M, e.key) ==> In(S, e.val)
      ensures e.key.Obj? && IsText(h, e.key.r) ==> e.key.r in S
    {
      assert Satisfied(h, S, h[w]) && EntrySatisfied(h, S, h[w].entries[i]);
    }
  }

  /** Only strings were added. */
  predicate OnlyTexts(h: Heap, S: set<Ref>, T: set<Ref>) {
    S <= T && forall r | r in T && r !in S :: IsText(h, r)
  }

  lemma TextsKeepSatisfied(h: Heap, S: set<Ref>, T: set<Ref>, o: Object)
    requires OnlyTexts(h, S, T) && Satisfied(h, S, o)
    ensures Satisfied(h, T, o)
  {
    if o.WeakKeys? {
      forall i | 0 <= i < |o.entries| ensures EntrySatisfied(h, T, o.entries[i]) {
        assert EntrySatisfied(h, S, o.entries[i]);
      }
    }
  }

  lemma DoneIsSatisfied(h: Heap, S: set<Ref>, c: seq<Ref>, r: Ref)
    requires r in h && Done(h, S, c, r)
    ensures Satisfied(h, S, h[r])
  {
  }

  /** The state of the collector that the atomic phase uses: an object is white
      when it is not in `marked`. */
  class Collector {
    var heap: Heap
    var marked: set<Ref>
    var gray: seq<Ref>
    var ephemeron: seq<Ref>
    var weak: seq<Ref>
    var allweak: seq<Ref>
    /** What was marked at the start. */
    ghost var start: set<Ref>
    /** Objects in the hands of a method, on no list. */
    ghost var pending: set<Ref>

    predicate Shape()
      reads this
    {
      && Closed(heap) && marked <= heap.Keys
      && (forall r | r in gray :: r in marked && !heap[r].Text?)
      && (forall r | r in ephemeron :: r in marked && heap[r].WeakKeys? && In(marked, heap[r].meta))
      && (forall r | r in weak :: r in marked && heap[r].WeakVals?)
      && (forall r | r in allweak :: r in marked && (heap[r].WeakKeys? || heap[r].AllWeak?))
    }

    ghost function Waiting(): set<Ref>
      reads this
    {
      Elements(gray) + Elements(ephemeron) + pending
    }

    ghost predicate Valid()
      reads this
    {
      Shape() && start <= marked && LeastBut(heap, start, marked) && Covered(heap, marked, Waiting(), weak + allweak)
    }

    /** How much is still white. */
    ghost function White(): nat
      reads this`heap, this`marked
    {
      |heap.Keys - marked|
    }

    method ReallyMarkObject(r: Ref)
      requires Valid() && r in heap && r !in marked && (Forced(heap, start, r) || Loose(heap, marked, r))
      modifies this`marked, this`gray
      ensures Valid() && marked == old(marked) + {r} && White() < old(White())
      ensures gray == if heap[r].Text? then old(gray) else [r] + old(gray)
    {
      hide Covered, LeastBut, Forced, Loose, Fixpoint, Closed, IsText;
      LeastGrows(heap, start, marked, r);
      ghost var before, waited, was := heap.Keys - marked, Waiting(), marked;
      marked := marked + {r};
      assert heap.Keys - marked == before - {r};
      if !heap[r].Text? {
        gray := [r] + gray;
        assert r in Elements(gray);
      }
      CoveredMore(heap, was, waited, Waiting(), weak + allweak, r);
    }

    /** Marks the white ones of the fields of a marked object. */
    method MarkValues(w: Ref, fs: seq<Slot>) returns (any: bool)
      requires Valid() && w in marked && w in heap && forall i | 0 <= i < |fs| :: fs[i] in StrongSlots(heap[w])
      modifies this`marked, this`gray
      ensures Valid() && old(marked) <= marked && AllIn(marked, fs)
      ensures if any then White() < old(White()) else marked == old(marked) && gray == old(gray)
    {
      hide Covered, LeastBut, Forced, Fixpoint, Waiting, StrongSlots, Closed;
      any := false;
      for i := 0 to |fs|
        invariant Valid() && old(marked) <= marked && forall j | 0 <= j < i :: In(marked, fs[j])
        invariant if any then White() < old(White()) else marked == old(marked) && gray == old(gray)
      {
        StrongKnown(heap, w, fs[i]);
        if fs[i].Obj? && fs[i].r !in marked {
          any := true;
          FieldForced(heap, start, marked, w, fs[i]);
          ReallyMarkObject(fs[i].r);
        }
      }
    }

    /** Whether a weak key is to go. A string never is, and is marked here. */
    method IsCleared(w: Ref, i: nat) returns (white: bool)
      requires Valid() && w in marked && heap[w].WeakKeys? && i < |heap[w].entries|
      modifies this`marked, this`gray
      ensures Valid() && gray == old(gray) && OnlyTexts(heap, old(marked), marked) && White() <= old(White())
      ensures white <==> !KeyIn(heap, marked, heap[w].entries[i].key)
      ensures var k := heap[w].entries[i].key; k.Obj? && IsText(heap, k.r) ==> k.r in marked
    {
      var k := heap[w].entries[i].key;
      if k.Plain? { return false; }
      assert ClosedObject(heap, heap[w]) && KnownEntries(heap, heap[w].entries) && Known(heap, k);
      if heap[k.r].Text? {
        if k.r !in marked {
          EntryForced(heap, start, marked, w, i);
          ReallyMarkObject(k.r);
        }
        return false;
      }
      return k.r !in marked;
    }

    /** One entry of a weak-key table. */
    method VisitEntry(w: Ref, i: nat) returns (any: bool, dead: bool, ww: bool)
      requires Valid() && w in marked && heap[w].WeakKeys? && i < |heap[w].entries|
      modifies this`marked, this`gray
      ensures Valid() && old(marked) <= marked && White() <= old(White())
      ensures if any then White() < old(White()) else OnlyTexts(heap, old(marked), marked) && gray == old(gray)
      ensures var e := heap[w].entries[i]; (ww <==> dead && !In(marked, e.val)) && (!ww ==> In(marked, e.val))
      ensures var e := heap[w].entries[i]; !dead ==> KeyIn(heap, marked, e.key)
      ensures any || EntrySatisfied(heap, marked, heap[w].entries[i])
      ensures var k := heap[w].entries[i].key; k.Obj? && IsText(heap, k.r) ==> k.r in marked
    {
      hide White;
      any, ww := false, false;
      var e := heap[w].entries[i];
      dead := IsCleared(w, i);
      assert ClosedObject(heap, heap[w]) && KnownEntries(heap, heap[w].entries) && Known(heap, e.val);
      if dead {
        if e.val.Obj? && e.val.r !in marked {
          ww := true;
        }
      } else if e.val.Obj? && e.val.r !in marked {
        any := true;
        EntryForced(heap, start, marked, w, i);
        ReallyMarkObject(e.val.r);
      }
    }

    /** Visits the entries of a weak-key table. */
    method VisitEntries(w: Ref) returns (any: bool, dead: bool, ww: bool)
      requires Valid() && w in heap && w in marked && heap[w].WeakKeys?
      modifies this`marked, this`gray
      ensures Valid() && old(marked) <= marked && White() <= old(White())
      ensures if any then White() < old(White()) else OnlyTexts(heap, old(marked), marked) && gray == old(gray)
      ensures var es := heap[w].entries; (!dead ==> !HasDeadKey(heap, marked, es)) && (!ww ==> ValuesIn(marked, es))
      ensures var es := heap[w].entries; TextKeysIn(heap, marked, es)
      ensures any || forall i | 0 <= i < |heap[w].entries| :: EntrySatisfied(heap, marked, heap[w].entries[i])
    {
      hide Covered, LeastBut, Forced, Fixpoint, Waiting, Progress, OnlyTexts, EntrySatisfied, KeyIn, Shape, HasDeadKey;
      any, dead, ww := false, false, false;
      var es := heap[w].entries;
      NoProgress(heap, marked, es);
      for i := 0 to |es|
        invariant Valid() && w in marked && old(marked) <= marked && White() <= old(White())
        invariant if any then White() < old(White()) else OnlyTexts(heap, old(marked), marked) && gray == old(gray)
        invariant Progress(heap, marked, es, i, any, dead, ww)
      {
        ghost var was := marked;
        var a, d, v := VisitEntry(w, i);
        Advance(heap, was, marked, es, i, any, dead, ww, a, d, v);
        OnlyTextsTrans(heap, old(marked), was, marked);
        any, dead, ww := any || a, dead || d, ww || v;
      }
      Finished(heap, marked, es, any, dead, ww);
    }

    /** Takes the first gray object off its list and in hand. */
    method TakeGray() returns (o: Ref)
      requires Valid() && gray != []
      modifies this`gray, this`pending
      ensures Valid() && o == old(gray)[0] && gray == old(gray)[1..] && pending == old(pending) + {o}
      ensures o in marked && o in heap && !heap[o].Text?
    {
      hide LeastBut, Forced, Fixpoint, Covered;
      o := gray[0];
      ghost var waited := Waiting();
      pending := pending + {o};
      gray := gray[1..];
      assert old(gray) == [o] + gray;
      WaitMore(heap, marked, waited, Waiting(), weak + allweak);
    }

    /** Lets go of an object that is done. */
    ghost method LetGo(o: Ref)
      requires Valid() && o in marked && o in heap && Done(heap, marked, weak + allweak, o)
      modifies this`pending
      ensures Valid() && pending == old(pending) - {o}
    {
      hide LeastBut, Forced, Fixpoint, Covered, Done;
      pending := pending - {o};
      Leave(heap, marked, old(Waiting()), Waiting(), weak + allweak, weak + allweak, o);
    }

    /** Puts a table with weak keys and values on the list of tables to clear. */
    method LinkAllWeak(o: Ref)
      requires Valid() && o in marked && o in heap && heap[o].AllWeak? && In(marked, heap[o].meta)
      modifies this`allweak, this`pending
      ensures Valid() && pending == old(pending) - {o} && allweak == [o] + old(allweak)
    {
      hide LeastBut, Forced, Fixpoint, Covered;
      ghost var waited, cleared := Waiting(), weak + allweak;
      allweak := [o] + allweak;
      pending := pending - {o};
      Longer(cleared, weak + allweak, o);
      Leave(heap, marked, waited, Waiting(), cleared, weak + allweak, o);
    }

    /** Puts a table with weak values on its list. */
    method LinkWeak(o: Ref)
      requires Valid() && o in marked && o in heap && heap[o].WeakVals? && AllIn(marked, StrongSlots(heap[o]))
      modifies this`weak, this`pending
      ensures Valid() && pending == old(pending) - {o}
    {
      hide LeastBut, Forced, Fixpoint, Covered;
      ghost var waited, cleared := Waiting(), weak + allweak;
      weak := [o] + weak;
      pending := pending - {o};
      Longer(cleared, weak + allweak, o);
      Leave(heap, marked, waited, Waiting(), cleared, weak + allweak, o);
    }

    /** Puts a visited table on the list it belongs to. */
    method LinkTable(w: Ref, dead: bool, ww: bool)
      requires Valid() && w in marked && w in heap && heap[w].WeakKeys? && In(marked, heap[w].meta)
      requires ww || Done(heap, marked, weak + (if dead then [w] + allweak else allweak), w)
      modifies this`ephemeron, this`allweak, this`pending
      ensures Valid() && pending == old(pending) - {w}
      ensures ephemeron == if ww then [w] + old(ephemeron) else old(ephemeron)
    {
      hide LeastBut, Forced, Fixpoint, Covered, Done, Closed;
      ghost var waited, cleared := Waiting(), weak + allweak;
      if ww {
        ephemeron := [w] + ephemeron;
        assert w in Elements(ephemeron);
      } else if dead {
        allweak := [w] + allweak;
        Longer(cleared, weak + allweak, w);
      }
      pending := pending - {w};
      Leave(heap, marked, waited, Waiting(), cleared, weak + allweak, w);
    }

    /** `traverseephemeron`, in the atomic phase. */
    method TraverseEphemeron(w: Ref) returns (any: bool)
      requires Valid() && w in marked && w in heap && heap[w].WeakKeys? && In(marked, heap[w].meta)
      modifies this`marked, this`gray, this`ephemeron, this`allweak, this`pending
      ensures Valid() && old(marked) <= marked && pending == old(pending) - {w}
      ensures if any then White() < old(White()) else White() <= old(White()) && gray == old(gray)
      ensures ephemeron == old(ephemeron) || ephemeron == [w] + old(ephemeron)
      ensures !any ==> OnlyTexts(heap, old(marked), marked) && Satisfied(heap, marked, heap[w])
    {
      hide *;
      ArrayIsStrong(heap[w]);
      any := MarkValues(w, heap[w].arr);
      MetaStays(old(marked), marked, heap[w].meta);
      ghost var mid := marked;
      var more, dead, ww := VisitEntries(w);
      any := any || more;
      MetaStays(mid, marked, heap[w].meta);
      Verdict(heap, mid, marked, weak, allweak, w, dead, ww, any);
      LinkTable(w, dead, ww);
    }

    /** One entry of a table with weak values: the key is marked, and unless the
        table is to be cleared anyway the value is asked about. */
    method VisitWeakEntry(w: Ref, i: nat, had: bool) returns (has: bool)
      requires Valid() && w in marked && w in heap && heap[w].WeakVals? && i < |heap[w].entries|
      modifies this`marked, this`gray
      ensures Valid() && old(marked) <= marked && White() <= old(White()) && In(marked, heap[w].entries[i].key)
      ensures White() == old(White()) ==> gray == old(gray)
      ensures (had ==> has) && (!has ==> KeyIn(heap, marked, heap[w].entries[i].val))
    {
      hide Covered, LeastBut, Forced, Fixpoint, Waiting, Closed;
      EntryKnown(heap, w, i);
      var e := heap[w].entries[i];
      var any := MarkValues(w, [e.key]);
      assert In(marked, [e.key][0]);
      has := had;
      if !had && e.val.Obj? {
        if heap[e.val.r].Text? {
          if e.val.r !in marked {
            LooseValue(heap, marked, w, i);
            ReallyMarkObject(e.val.r);
          }
        } else {
          has := e.val.r !in marked;
        }
      }
    }

    /** `traverseweakvalue`, in the atomic phase. */
    method TraverseWeakValue(w: Ref)
      requires Valid() && w in marked && w in heap && heap[w].WeakVals? && In(marked, heap[w].meta)
      modifies this`marked, this`gray, this`weak, this`pending
      ensures Valid() && old(marked) <= marked && pending == old(pending) - {w} && White() <= old(White())
      ensures White() == old(White()) ==> gray == old(gray)
    {
      hide Covered, LeastBut, Forced, Fixpoint, Waiting, Closed, StrongSlots, KeyIn, White;
      var hasclears := heap[w].arr != [];
      var es := heap[w].entries;
      for i := 0 to |es|
        invariant Valid() && old(marked) <= marked && White() <= old(White()) && (White() == old(White()) ==> gray == old(gray))
        invariant pending == old(pending) && weak == old(weak)
        invariant forall j | 0 <= j < i :: In(marked, es[j].key)
        invariant hasclears || (heap[w].arr == [] && forall j | 0 <= j < i :: KeyIn(heap, marked, es[j].val))
      {
        ghost var was := marked;
        hasclears := VisitWeakEntry(w, i, hasclears);
        KeysStay(heap, was, marked);
      }
      KeysAreStrong(heap, marked, w);
      if hasclears {
        LinkWeak(w);
      } else {
        WeakDone(heap, marked, weak + allweak, w);
        LetGo(w);
      }
    }

    /** `propagatemark`: visits one gray object. */
    method PropagateMark()
      requires Valid() && gray != []
      modifies this`marked, this`gray, this`ephemeron, this`weak, this`allweak, this`pending
      ensures Valid() && old(marked) <= marked && pending == old(pending) - {old(gray)[0]}
      ensures White() < old(White()) || (White() == old(White()) && |gray| < old(|gray|))
    {
      hide Covered, LeastBut, Forced, Fixpoint, Waiting, Closed, StrongSlots, Done, Satisfied, White;
      var o := TakeGray();
      if heap[o].Strong? {
        FieldsAreStrong(heap[o]);
        var _ := MarkValues(o, heap[o].fields);
        StrongDone(heap, marked, weak + allweak, o);
        LetGo(o);
      } else {
        TraverseWeak(o);
      }
    }

    /** `traversetable` of a weak table: the metatable first. */
    method TraverseWeak(o: Ref)
      requires Valid() && o in marked && o in heap && IsWeak(heap[o])
      modifies this`marked, this`gray, this`ephemeron, this`weak, this`allweak, this`pending
      ensures Valid() && old(marked) <= marked && pending == old(pending) - {o}
      ensures White() <= old(White()) && (White() == old(White()) ==> gray == old(gray))
    {
      hide Covered, LeastBut, Forced, Fixpoint, Waiting, Closed, StrongSlots, Done, Satisfied;
      MetaIsStrong(heap[o]);
      var _ := MarkValues(o, [heap[o].meta]);
      MetaMarked(marked, heap[o].meta);
      match heap[o]
      case WeakKeys(_, _, _) =>
        var _ := TraverseEphemeron(o);
      case WeakVals(_, _, _) =>
        TraverseWeakValue(o);
      case AllWeak(_, _, _) =>
        LinkAllWeak(o);
    }

    /** `propagateall` */
    method PropagateAll()
      requires Valid()
      modifies this`marked, this`gray, this`ephemeron, this`weak, this`allweak, this`pending
      ensures Valid() && gray == [] && old(marked) <= marked && pending <= old(pending) && White() <= old(White())
    {
      hide *;
      while gray != []
        invariant Valid() && old(marked) <= marked && pending <= old(pending) && White() <= old(White())
        decreases White(), |gray|
      {
        PropagateMark();
      }
    }

    /** Takes the whole list of ephemeron tables, which starts anew. */
    method TakeEphemerons() returns (next: seq<Ref>)
      requires Valid() && pending == {}
      modifies this`ephemeron, this`pending
      ensures Valid() && next == old(ephemeron) && ephemeron == [] && pending == Elements(next)
      ensures WeakTables(heap, marked, next)
    {
      hide LeastBut, Forced, Fixpoint, Covered;
      ghost var waited := Waiting();
      next := ephemeron;
      ephemeron := [];
      pending := Elements(next);
      WaitMore(heap, marked, waited, Waiting(), weak + allweak);
    }

    /** One round over the list of ephemeron tables: the inner loop of
        `convergeephemerons`. */
    method ConvergeRound() returns (changed: bool)
      requires Valid() && gray == [] && pending == {}
      modifies this`marked, this`gray, this`ephemeron, this`weak, this`allweak, this`pending
      ensures Valid() && gray == [] && pending == {} && old(marked) <= marked && White() <= old(White())
      ensures if changed then White() < old(White()) else WeakTables(heap, marked, ephemeron) && AllSatisfied(heap, marked, ephemeron)
    {
      hide *;
      var next := TakeEphemerons();
      changed := false;
      NoneUnsatisfied(heap, marked);
      while next != []
        invariant Valid() && gray == [] && old(marked) <= marked && pending <= Elements(next) && White() <= old(White())
        invariant WeakTables(heap, marked, next)
        invariant if changed then White() < old(White()) else WeakTables(heap, marked, ephemeron) && AllSatisfied(heap, marked, ephemeron)
        decreases |next|
      {
        ghost var was, listed, rest := marked, ephemeron, next;
        var w := next[0];
        WeakTablesHead(heap, marked, next);
        next := next[1..];
        var any := TraverseEphemeron(w);
        if any {
          PropagateAll();
          changed := true;
        } else if !changed {
          StillSatisfied(heap, was, marked, listed, w);
        }
        WeakTablesGrow(heap, was, marked, next);
      }
      assert pending == {} by { NoElements(); }
    }

    /** `convergeephemerons`: afterwards the marked objects are closed under
        everything that keeps objects alive, and still the least such set (which
        `Valid` says). */
    method ConvergeEphemerons()
      requires Valid() && gray == [] && pending == {}
      modifies this`marked, this`gray, this`ephemeron, this`weak, this`allweak, this`pending
      ensures Valid() && gray == [] && pending == {} && old(marked) <= marked
      ensures Fixpoint(heap, marked)
    {
      hide *;
      var changed := true;
      while changed
        invariant Valid() && gray == [] && pending == {} && old(marked) <= marked
        invariant changed || (WeakTables(heap, marked, ephemeron) && AllSatisfied(heap, marked, ephemeron))
        decreases White(), if changed then 1 else 0
      {
        changed := ConvergeRound();
      }
      Converged();
    }

    lemma Converged()
      requires Valid() && gray == [] && pending == {}
      requires WeakTables(heap, marked, ephemeron) && AllSatisfied(heap, marked, ephemeron)
      ensures Fixpoint(heap, marked)
    {
      hide LeastBut, Forced, Satisfied, Done;
      forall r | r in marked && r in heap ensures Satisfied(heap, marked, heap[r]) {
        if r !in Waiting() {
          DoneIsSatisfied(heap, marked, weak + allweak, r);
        }
      }
    }

    /** The mark phase starts from the roots, which are no strings. */
    constructor (h: Heap, roots: seq<Ref>)
      requires Closed(h) && forall r | r in roots :: r in h && !h[r].Text?
      ensures Valid() && heap == h && marked == Elements(roots) && start == marked && gray == roots
      ensures ephemeron == [] && weak == [] && allweak == [] && pending == {}
    {
      heap, marked, gray, ephemeron, weak, allweak := h, Elements(roots), roots, [], [], [];
      start, pending := Elements(roots), {};
    }

    /** `iscleared`: a string never is, and is marked when asked about. */
    method AskCleared(k: Slot) returns (cleared: bool)
      modifies this`marked
      ensures OnlyTexts(heap, old(marked), marked) && cleared == !KeyIn(heap, old(marked), k)
    {
      cleared := k.Obj? && !IsText(heap, k.r) && k.r !in marked;
      if k.Obj? && IsText(heap, k.r) { marked := marked + {k.r}; }
    }

    /** The entries of a table that are not cleared. */
    method FilterEntries(t: Part, es: seq<Entry>) returns (left: seq<Entry>)
      modifies this`marked
      ensures OnlyTexts(heap, old(marked), marked) && left == Kept(heap, old(marked), t, es)
    {
      hide KeyIn;
      left := [];
      for i := 0 to |es|
        invariant OnlyTexts(heap, old(marked), marked) && left == Kept(heap, old(marked), t, es[..i])
      {
        ghost var was := marked;
        var cleared := AskCleared(PartOf(t, es[i]));
        TextsSame(heap, heap, old(marked), was, PartOf(t, es[i]));
        if !cleared { left := left + [es[i]]; }
        assert es[..i + 1][..i] == es[..i];
      }
      assert es[..|es|] == es;
    }

    /** The array slots of a table, nil where their value is cleared. */
    method FilterSlots(a: seq<Slot>) returns (left: seq<Slot>)
      modifies this`marked
      ensures OnlyTexts(heap, old(marked), marked) && left == KeptSlots(heap, old(marked), a)
    {
      hide KeyIn;
      left := [];
      for i := 0 to |a|
        invariant OnlyTexts(heap, old(marked), marked) && left == KeptSlots(heap, old(marked), a[..i])
      {
        ghost var was := marked;
        var cleared := AskCleared(a[i]);
        TextsSame(heap, heap, old(marked), was, a[i]);
        left := left + [if cleared then Plain else a[i]];
      }
      assert a[..|a|] == a;
    }

    /** Clears one table of what has an unmarked key, or an unmarked value. */
    method ClearTable(t: Part, w: Ref)
      requires w in heap && IsWeak(heap[w])
      modifies this`heap, this`marked
      ensures heap == old(heap)[w := ClearedObject(old(heap), old(marked), t, old(heap)[w])]
      ensures OnlyTexts(old(heap), old(marked), marked)
    {
      hide Kept, KeptSlots;
      var a := heap[w].arr;
      ghost var m0 := marked;
      if t.Vals? { a := FilterSlots(a); }
      ghost var m1 := marked;
      var es := FilterEntries(t, heap[w].entries);
      KeptSame(heap, heap, m0, m1, t, heap[w].entries);
      OnlyTextsTrans(heap, m0, m1, marked);
      heap := heap[w := Rebuilt(heap[w], a, es)];
    }

    /** `clearkeys` and `clearvalues`. */
    method ClearTables(t: Part, l: seq<Ref>)
      requires Closed(heap) && forall r | r in l :: r in heap && IsWeak(heap[r])
      modifies this`heap, this`marked
      ensures Closed(heap) && heap == Cleared(old(heap), old(marked), t, Elements(l))
      ensures OnlyTexts(old(heap), old(marked), marked)
    {
      hide Closed, ClearedObject, IsWeak;
      NothingCleared(heap, marked, t);
      for i := 0 to |l|
        invariant Closed(heap) && heap == Cleared(old(heap), old(marked), t, Elements(l[..i]))
        invariant OnlyTexts(old(heap), old(marked), marked)
      {
        assert l[i] in l;
        ghost var before, at := heap, marked;
        StillWeak(old(heap), old(marked), t, Elements(l[..i]), l);
        ClearTable(t, l[i]);
        ClearedMore(old(heap), old(marked), t, before, at, Elements(l[..i]), l[i]);
        OnlyTextsCleared(old(heap), t, before, old(marked), at, marked, Elements(l[..i]));
        assert Elements(l[..i + 1]) == Elements(l[..i]) + {l[i]};
      }
      assert l[..|l|] == l;
    }

    /** The part of `atomic` that deals with weak tables, from any state of the mark
        phase. `live`, the objects marked when the ephemeron tables have
        converged, but for some strings, is the least closed set with the roots in
        it; each weak table of `live` is swept, and nothing else changes. */
    method AtomicWeak() returns (ghost live: set<Ref>)
      requires Valid() && pending == {}
      modifies this
      ensures start == old(start) <= live && Fixpoint(old(heap), live) && Least(old(heap), start, live)
      ensures heap == Swept(old(heap), live)
      ensures OnlyTexts(old(heap), live, marked)
    {
      hide *;
      PropagateAll();
      ConvergeEphemerons();
      ghost var h, M, ephs, vals, both := heap, marked, ephemeron, weak, allweak;
      ReadyToClear();
      live := LeastClosed(h, start, M);
      ClearValues();
      ghost var h1, m1 := heap, marked;
      ClearKeys(h, M, m1);
      SweptIs(h, M, h1, m1, ephs, vals, both);
      SweptSame(h, live, M);
      OnlyTextsTrans(h, live, M, marked);
    }

    /** `clearvalues` on both lists. */
    method ClearValues()
      requires Valid() && gray == [] && pending == {}
      modifies this`heap, this`marked
      ensures Closed(heap) && heap == Cleared(old(heap), old(marked), Vals, Elements(weak) + Elements(allweak))
      ensures OnlyTexts(old(heap), old(marked), marked)
    {
      hide *;
      ReadyToClear();
      ghost var h, M := heap, marked;
      ClearTables(Vals, weak);
      ghost var h1, m1 := heap, marked;
      StillWeak(h, M, Vals, Elements(weak), allweak);
      ClearTables(Vals, allweak);
      ClearedTwice(h, M, Vals, h1, m1, Elements(weak), Elements(allweak));
      OnlyTextsCleared(h, Vals, h1, M, m1, marked, Elements(weak));
    }

    /** `clearkeys` on both lists, after `clearvalues`. */
    method ClearKeys(ghost h: Heap, ghost M: set<Ref>, ghost m1: set<Ref>)
      requires heap == Cleared(h, M, Vals, Elements(weak) + Elements(allweak)) && Closed(heap) && m1 == marked && OnlyTexts(h, M, m1)
      requires forall r | r in ephemeron + allweak :: r in h && IsWeak(h[r])
      modifies this`heap, this`marked
      ensures heap == Cleared(old(heap), m1, Keys, Elements(ephemeron) + Elements(allweak))
      ensures OnlyTexts(h, M, marked)
    {
      hide *;
      ghost var h1, V := heap, Elements(weak) + Elements(allweak);
      StillWeak(h, M, Vals, V, ephemeron + allweak);
      Prefixes(ephemeron, allweak);
      ClearTables(Keys, ephemeron);
      ghost var h2, m2 := heap, marked;
      StillWeak(h1, m1, Keys, Elements(ephemeron), allweak);
      ClearTables(Keys, allweak);
      ClearedTwice(h1, m1, Keys, h2, m2, Elements(ephemeron), Elements(allweak));
      OnlyTextsCleared(h1, Keys, h2, m1, m2, marked, Elements(ephemeron));
      OnlyTextsCleared(h, Vals, h1, M, m1, marked, V);
    }

    lemma ReadyToClear()
      requires Valid() && gray == [] && pending == {}
      ensures Closed(heap) && start <= marked && LeastBut(heap, start, marked)
      ensures Elements(ephemeron) <= marked && Elements(weak) <= marked && Elements(allweak) <= marked <= heap.Keys
      ensures forall r | r in ephemeron + allweak :: r in heap && IsWeak(heap[r])
      ensures forall r | r in weak :: r in heap && IsWeak(heap[r]) && heap[r].WeakVals?
      ensures forall r | r in ephemeron :: r in heap && heap[r].WeakKeys?
      ensures forall r | r in allweak :: r in heap && IsWeak(heap[r]) && !heap[r].WeakVals?
      ensures forall r | r in marked :: r in ephemeron || Done(heap, marked, weak + allweak, r)
    {
      hide LeastBut, Closed, StrongSlots;
    }
  }

  lemma Prefixes(a: seq<Ref>, b: seq<Ref>)
    ensures (forall r | r in a :: r in a + b) && (forall r | r in b :: r in a + b)
  {
  }

  /** In a closed set that is least but for some strings, the least closed set is
      what every closed set has. */
  lemma LeastClosed(h: Heap, M0: set<Ref>, M: set<Ref>) returns (live: set<Ref>)
    requires M0 <= M && Fixpoint(h, M) && LeastBut(h, M0, M)
    ensures M0 <= live && Fixpoint(h, live) && Least(h, M0, live) && OnlyTexts(h, live, M)
  {
    hide StrongSlots;
    live := set r | r in M && Forced(h, M0, r);
    forall r | r in live && r in h ensures Satisfied(h, live, h[r]) {
      ForcedSatisfied(h, M0, M, live, r);
    }
  }

  lemma ForcedSatisfied(h: Heap, M0: set<Ref>, M: set<Ref>, live: set<Ref>, r: Ref)
    requires Fixpoint(h, M) && live == (set x | x in M && Forced(h, M0, x)) && r in live && r in h
    ensures Satisfied(h, live, h[r])
  {
    hide StrongSlots;
    var o := h[r];
    assert Satisfied(h, M, o);
    forall i | 0 <= i < |StrongSlots(o)| ensures In(live, StrongSlots(o)[i]) {
      var s := StrongSlots(o)[i];
      assert In(M, s);
      if s.Obj? {
        forall S: set<Ref> | M0 <= S && Fixpoint(h, S) ensures s.r in S {
          assert Satisfied(h, S, o) && In(S, StrongSlots(o)[i]);
        }
      }
    }
    if o.WeakKeys? {
      forall i | 0 <= i < |o.entries| ensures EntrySatisfied(h, live, o.entries[i]) {
        ForcedEntry(h, M0, M, live, r, i);
      }
    }
  }

  lemma ForcedEntry(h: Heap, M0: set<Ref>, M: set<Ref>, live: set<Ref>, r: Ref, i: nat)
    requires Fixpoint(h, M) && live == (set x | x in M && Forced(h, M0, x)) && r in live && r in h
    requires h[r].WeakKeys? && i < |h[r].entries|
    ensures EntrySatisfied(h, live, h[r].entries[i])
  {
    hide StrongSlots;
    var e := h[r].entries[i];
    assert Satisfied(h, M, h[r]) && EntrySatisfied(h, M, h[r].entries[i]);
    forall S: set<Ref> | M0 <= S && Fixpoint(h, S)
      ensures KeyIn(h, live, e.key) ==> In(S, e.val)
      ensures e.key.Obj? && IsText(h, e.key.r) ==> e.key.r in S
    {
      assert Satisfied(h, S, h[r]) && EntrySatisfied(h, S, h[r].entries[i]);
    }
  }

  predicate WeakTables(h: Heap, S: set<Ref>, l: seq<Ref>) {
    forall i | 0 <= i < |l| :: l[i] in h && l[i] in S && h[l[i]].WeakKeys? && In(S, h[l[i]].meta)
  }

  predicate AllSatisfied(h: Heap, S: set<Ref>, l: seq<Ref>)
    requires WeakTables(h, S, l)
  {
    forall i | 0 <= i < |l| :: Satisfied(h, S, h[l[i]])
  }

  lemma NoneUnsatisfied(h: Heap, S: set<Ref>)
    ensures WeakTables(h, S, []) && AllSatisfied(h, S, [])
  {
  }

  lemma NoElements()
    ensures Elements([]) == {}
  {
  }

  lemma WeakTablesHead(h: Heap, S: set<Ref>, l: seq<Ref>)
    requires WeakTables(h, S, l) && l != []
    ensures WeakTables(h, S, l[1..]) && l[0] in h && l[0] in S && h[l[0]].WeakKeys? && In(S, h[l[0]].meta)
    ensures Elements(l) - {l[0]} <= Elements(l[1..])
  {
    assert l == [l[0]] + l[1..];
  }

  lemma WeakTablesGrow(h: Heap, S: set<Ref>, T: set<Ref>, l: seq<Ref>)
    requires WeakTables(h, S, l) && S <= T
    ensures WeakTables(h, T, l)
  {
  }

  /** A visit that marks no more than strings leaves the tables visited before as
      they were. */
  lemma StillSatisfied(h: Heap, S: set<Ref>, T: set<Ref>, l: seq<Ref>, w: Ref)
    requires WeakTables(h, S, l) && AllSatisfied(h, S, l) && OnlyTexts(h, S, T)
    requires w in h && w in S && h[w].WeakKeys? && In(S, h[w].meta) && Satisfied(h, T, h[w])
    ensures S <= T
    ensures WeakTables(h, T, l) && AllSatisfied(h, T, l)
    ensures WeakTables(h, T, [w] + l) && AllSatisfied(h, T, [w] + l)
  {
    forall i | 0 <= i < |l| ensures Satisfied(h, T, h[l[i]]) {
      TextsKeepSatisfied(h, S, T, h[l[i]]);
    }
  }

  predicate IsWeak(o: Object) { o.WeakKeys? || o.WeakVals? || o.AllWeak? }

  /** What is asked about when a table is cleared. */
  datatype Part = Keys | Vals

  function PartOf(t: Part, e: Entry): Slot { if t.Keys? then e.key else e.val }

  /** The entries with a key, or a value, that is marked or never cleared. */
  function Kept(h: Heap, S: set<Ref>, t: Part, es: seq<Entry>): seq<Entry> {
    if es == [] then []
    else
      var last := es[|es| - 1];
      Kept(h, S, t, es[..|es| - 1]) + if KeyIn(h, S, PartOf(t, last)) then [last] else []
  }

  function KeptSlots(h: Heap, S: set<Ref>, a: seq<Slot>): (b: seq<Slot>)
    ensures |b| == |a| && forall i | 0 <= i < |a| :: b[i] == if KeyIn(h, S, a[i]) then a[i] else Plain
  {
    seq(|a|, i requires 0 <= i < |a| => if KeyIn(h, S, a[i]) then a[i] else Plain)
  }

  function Rebuilt(o: Object, a: seq<Slot>, es: seq<Entry>): Object
    requires IsWeak(o)
  {
    o.(arr := a, entries := es)
  }

  function ClearedObject(h: Heap, S: set<Ref>, t: Part, o: Object): Object {
    if IsWeak(o) then Rebuilt(o, if t.Vals? then KeptSlots(h, S, o.arr) else o.arr, Kept(h, S, t, o.entries)) else o
  }

  /** The heap with the tables of `T` cleared. */
  function Cleared(h: Heap, S: set<Ref>, t: Part, T: set<Ref>): Heap {
    map r | r in h :: if r in T then ClearedObject(h, S, t, h[r]) else h[r]
  }

  /** Tables with weak keys are cleared of dead keys, tables with weak values of
      dead values, tables with both of both. */
  function SweptObject(h: Heap, S: set<Ref>, o: Object): Object {
    match o
    case WeakKeys(_, _, _) => ClearedObject(h, S, Keys, o)
    case WeakVals(_, _, _) => ClearedObject(h, S, Vals, o)
    case AllWeak(_, _, _) => ClearedObject(h, S, Keys, ClearedObject(h, S, Vals, o))
    case _ => o
  }

  function Swept(h: Heap, S: set<Ref>): Heap {
    map r | r in h :: if r in S then SweptObject(h, S, h[r]) else h[r]
  }

  /** Strings more or less make no difference. */
  lemma TextsSame(h: Heap, k: Heap, S: set<Ref>, T: set<Ref>, s: Slot)
    requires OnlyTexts(h, S, T) && forall r :: IsText(h, r) <==> IsText(k, r)
    ensures KeyIn(h, S, s) == KeyIn(k, T, s)
  {
  }

  lemma {:induction false} KeptMembers(h: Heap, S: set<Ref>, t: Part, es: seq<Entry>, e: Entry)
    ensures e in Kept(h, S, t, es) <==> e in es && KeyIn(h, S, PartOf(t, e))
    decreases |es|
  {
    hide KeyIn;
    if es != [] {
      var front, last := es[..|es| - 1], es[|es| - 1];
      KeptMembers(h, S, t, front, e);
      assert es == front + [last];
      assert e in es <==> e in front || e == last;
    }
  }

  lemma {:induction false} KeptAll(h: Heap, S: set<Ref>, t: Part, es: seq<Entry>)
    requires forall i | 0 <= i < |es| :: KeyIn(h, S, PartOf(t, es[i]))
    ensures Kept(h, S, t, es) == es
    decreases |es|
  {
    hide KeyIn;
    if es != [] {
      var front, last := es[..|es| - 1], es[|es| - 1];
      KeptAll(h, S, t, front);
      assert es == front + [last];
    }
  }

  lemma {:induction false} KeptSame(h: Heap, k: Heap, S: set<Ref>, T: set<Ref>, t: Part, es: seq<Entry>)
    requires OnlyTexts(h, S, T) && forall r :: IsText(h, r) <==> IsText(k, r)
    ensures Kept(h, S, t, es) == Kept(k, T, t, es)
    decreases |es|
  {
    hide KeyIn, OnlyTexts, IsText;
    if es != [] {
      TextsSame(h, k, S, T, PartOf(t, es[|es| - 1]));
      KeptSame(h, k, S, T, t, es[..|es| - 1]);
    }
  }

  lemma SlotsSame(h: Heap, k: Heap, S: set<Ref>, T: set<Ref>, a: seq<Slot>)
    requires OnlyTexts(h, S, T) && forall r :: IsText(h, r) <==> IsText(k, r)
    ensures KeptSlots(h, S, a) == KeptSlots(k, T, a)
  {
    hide KeyIn, OnlyTexts, IsText;
    forall i | 0 <= i < |a| ensures KeptSlots(h, S, a)[i] == KeptSlots(k, T, a)[i] { TextsSame(h, k, S, T, a[i]); }
  }

  lemma SameTexts(h: Heap, S: set<Ref>, t: Part, T: set<Ref>)
    ensures forall r :: IsText(h, r) <==> IsText(Cleared(h, S, t, T), r)
  {
    hide Kept, KeptSlots;
  }

  lemma ClearedClosed(h: Heap, S: set<Ref>, t: Part, T: set<Ref>)
    requires Closed(h)
    ensures Closed(Cleared(h, S, t, T))
  {
    hide Kept;
    var k := Cleared(h, S, t, T);
    forall r | r in k ensures ClosedObject(k, k[r]) {
      assert ClosedObject(h, h[r]);
      if r in T && IsWeak(h[r]) {
        var es := Kept(h, S, t, h[r].entries);
        forall i | 0 <= i < |es| ensures Known(k, es[i].key) && Known(k, es[i].val) {
          KeptMembers(h, S, t, h[r].entries, es[i]);
        }
      }
    }
  }

  lemma NothingCleared(h: Heap, S: set<Ref>, t: Part)
    ensures Cleared(h, S, t, {}) == h && OnlyTexts(h, S, S)
  {
  }

  lemma ClearedObjectSame(h: Heap, k: Heap, S: set<Ref>, T: set<Ref>, t: Part, o: Object)
    requires OnlyTexts(h, S, T) && forall r :: IsText(h, r) <==> IsText(k, r)
    ensures ClearedObject(k, T, t, o) == ClearedObject(h, S, t, o)
  {
    hide Kept, KeptSlots, OnlyTexts, IsText;
    if IsWeak(o) {
      KeptSame(h, k, S, T, t, o.entries);
      SlotsSame(h, k, S, T, o.arr);
    }
  }

  /** Clearing a table again takes nothing more from it. */
  lemma ClearedObjectTwice(h: Heap, S: set<Ref>, t: Part, o: Object)
    ensures ClearedObject(h, S, t, ClearedObject(h, S, t, o)) == ClearedObject(h, S, t, o)
  {
    hide Kept;
    if IsWeak(o) {
      var left := Kept(h, S, t, o.entries);
      forall i | 0 <= i < |left| ensures KeyIn(h, S, PartOf(t, left[i])) { KeptMembers(h, S, t, o.entries, left[i]); }
      KeptAll(h, S, t, left);
      assert KeptSlots(h, S, KeptSlots(h, S, o.arr)) == KeptSlots(h, S, o.arr);
    }
  }

  lemma ClearedTwice(h: Heap, S: set<Ref>, t: Part, k: Heap, T: set<Ref>, A: set<Ref>, B: set<Ref>)
    requires k == Cleared(h, S, t, A) && OnlyTexts(h, S, T)
    ensures Cleared(k, T, t, B) == Cleared(h, S, t, A + B)
  {
    hide ClearedObject, OnlyTexts;
    SameTexts(h, S, t, A);
    var l, m := Cleared(k, T, t, B), Cleared(h, S, t, A + B);
    forall r | r in h ensures l[r] == m[r] {
      ClearedObjectSame(h, k, S, T, t, k[r]);
      ClearedObjectTwice(h, S, t, h[r]);
    }
  }

  lemma ClearedMore(h: Heap, S: set<Ref>, t: Part, k: Heap, T: set<Ref>, A: set<Ref>, w: Ref)
    requires Closed(h) && k == Cleared(h, S, t, A) && OnlyTexts(h, S, T) && w in k
    ensures k[w := ClearedObject(k, T, t, k[w])] == Cleared(h, S, t, A + {w})
    ensures Closed(Cleared(h, S, t, A + {w}))
  {
    hide ClearedObject;
    ClearedTwice(h, S, t, k, T, A, {w});
    ClearedClosed(h, S, t, A + {w});
  }

  lemma OnlyTextsCleared(h: Heap, t: Part, k: Heap, S: set<Ref>, T: set<Ref>, U: set<Ref>, A: set<Ref>)
    requires k == Cleared(h, S, t, A) && OnlyTexts(h, S, T) && OnlyTexts(k, T, U)
    ensures OnlyTexts(h, S, U)
  {
    SameTexts(h, S, t, A);
  }

  lemma StillWeak(h: Heap, S: set<Ref>, t: Part, A: set<Ref>, l: seq<Ref>)
    requires forall r | r in l :: r in h && IsWeak(h[r])
    ensures var k := Cleared(h, S, t, A); forall r | r in l :: r in k && IsWeak(k[r])
  {
    hide Kept, KeptSlots;
  }

  lemma SweptSame(h: Heap, S: set<Ref>, T: set<Ref>)
    requires OnlyTexts(h, S, T)
    ensures Swept(h, S) == Swept(h, T)
  {
    hide ClearedObject;
    forall r | r in h ensures Swept(h, S)[r] == Swept(h, T)[r] {
      var o := h[r];
      ClearedObjectSame(h, h, S, T, Keys, o);
      ClearedObjectSame(h, h, S, T, Vals, o);
      ClearedObjectSame(h, h, S, T, Keys, ClearedObject(h, S, Vals, o));
    }
  }

  /** The tables on the three lists are all that have something to clear. */
  lemma SweptIs(h: Heap, S: set<Ref>, k: Heap, T: set<Ref>, ephs: seq<Ref>, weak: seq<Ref>, both: seq<Ref>)
    requires Elements(ephs) <= S && Elements(weak) <= S && Elements(both) <= S <= h.Keys
    requires forall r | r in S :: r in ephs || Done(h, S, weak + both, r)
    requires forall r | r in ephs :: r in h && h[r].WeakKeys?
    requires forall r | r in weak :: r in h && h[r].WeakVals?
    requires forall r | r in both :: r in h && !h[r].WeakVals?
    requires k == Cleared(h, S, Vals, Elements(weak) + Elements(both)) && OnlyTexts(h, S, T)
    requires Fixpoint(h, S)
    ensures Cleared(k, T, Keys, Elements(ephs) + Elements(both)) == Swept(h, S)
  {
    hide ClearedObject, SweptObject, OnlyTexts, Done;
    SameTexts(h, S, Vals, Elements(weak) + Elements(both));
    var l, m := Cleared(k, T, Keys, Elements(ephs) + Elements(both)), Swept(h, S);
    forall r | r in h ensures l[r] == m[r] {
      ClearedObjectSame(h, k, S, T, Keys, k[r]);
      if r in S { SweptTable(h, S, weak, both, ephs, r); }
    }
  }

  /** For one object of `S`: what the rounds make of it. */
  lemma SweptTable(h: Heap, S: set<Ref>, weak: seq<Ref>, both: seq<Ref>, ephs: seq<Ref>, r: Ref)
    requires r in h && r in S && (r in ephs || Done(h, S, weak + both, r)) && Fixpoint(h, S)
    requires (r in ephs ==> h[r].WeakKeys?) && (r in weak ==> h[r].WeakVals?) && (r in both ==> !h[r].WeakVals?)
    ensures var o := if r in weak || r in both then ClearedObject(h, S, Vals, h[r]) else h[r];
      SweptObject(h, S, h[r]) == if r in ephs || r in both then ClearedObject(h, S, Keys, o) else o
  {
    hide Kept, KeptSlots, StrongSlots;
    var o := h[r];
    if o.WeakKeys? {
      assert Satisfied(h, S, o);
      DeadValuesHaveDeadKeys(h, S, o.entries);
      ArraySatisfied(S, o);
      assert KeptSlots(h, S, o.arr) == o.arr by { SlotsAllKept(h, S, o.arr); }
      if r !in ephs && r !in both { KeptAll(h, S, Keys, o.entries); }
    } else if o.WeakVals? {
      if r !in weak {
        KeptAll(h, S, Vals, o.entries);
        assert KeptSlots(h, S, []) == [];
      }
    }
  }

  lemma ArraySatisfied(S: set<Ref>, o: Object)
    requires o.WeakKeys? && AllIn(S, StrongSlots(o))
    ensures forall i | 0 <= i < |o.arr| :: In(S, o.arr[i])
  {
    forall i | 0 <= i < |o.arr| ensures In(S, o.arr[i]) { assert StrongSlots(o)[i + 1] == o.arr[i]; }
  }

  lemma SlotsAllKept(h: Heap, S: set<Ref>, a: seq<Slot>)
    requires forall i | 0 <= i < |a| :: In(S, a[i])
    ensures KeptSlots(h, S, a) == a
  {
  }

  /** An entry whose value goes has a key that goes. */
  lemma {:induction false} DeadValuesHaveDeadKeys(h: Heap, S: set<Ref>, es: seq<Entry>)
    requires forall i | 0 <= i < |es| :: EntrySatisfied(h, S, es[i])
    ensures Kept(h, S, Keys, Kept(h, S, Vals, es)) == Kept(h, S, Keys, es)
    decreases |es|
  {
    if es != [] {
      var front, last := es[..|es| - 1], es[|es| - 1];
      DeadValuesHaveDeadKeys(h, S, front);
      var v := Kept(h, S, Vals, front);
      assert (v + [last])[..|v|] == v;
      assert EntrySatisfied(h, S, es[|es| - 1]);
      assert v + [] == v;
    }
  }

  /** What the sweep by a closed set leaves in a table of the set: exactly the
      entries it had with a key that is in the set or no candidate for removal, if
      keys are weak, and such a value, if values are; in a table with weak keys
      only, the values that are left are in the set, and in one with weak values
      only all keys are. */
  lemma Survivors(h: Heap, S: set<Ref>, r: Ref, e: Entry)
    requires Fixpoint(h, S) && r in S && r in h && IsWeak(h[r])
    ensures e in Swept(h, S)[r].entries <==>
      e in h[r].entries && (!h[r].WeakVals? ==> KeyIn(h, S, e.key)) && (!h[r].WeakKeys? ==> KeyIn(h, S, e.val))
    ensures h[r].WeakKeys? && e in Swept(h, S)[r].entries ==> In(S, e.val)
    ensures h[r].WeakVals? && e in Swept(h, S)[r].entries ==> In(S, e.key)
  {
    hide Kept, KeptSlots;
    var es := h[r].entries;
    assert Satisfied(h, S, h[r]);
    if h[r].AllWeak? {
      KeptMembers(h, S, Vals, es, e);
      KeptMembers(h, S, Keys, Kept(h, S, Vals, es), e);
    } else if h[r].WeakVals? {
      KeptMembers(h, S, Vals, es, e);
      if e in es {
        var i :| 0 <= i < |es| && es[i] == e;
        assert In(S, StrongSlots(h[r])[i + 1]);
      }
    } else {
      KeptMembers(h, S, Keys, es, e);
      if e in es {
        var i :| 0 <= i < |es| && es[i] == e;
        assert EntrySatisfied(h, S, es[i]);
      }
    }
  }

  /** `r` keeps `x` alive: in a strong field; as the metatable of a table, as a key that
      is not weak or in an array part that is not weak; and in a table with weak keys
      as a string that is a key, or as a value whose key is alive or never cleared. */
  ghost predicate KeepsAlive(h: Heap, S: set<Ref>, r: Ref, x: Ref)
    requires r in h
  {
    match h[r]
    case Text => false
    case Strong(fs) => exists i | 0 <= i < |fs| :: fs[i] == Obj(x)
    case WeakKeys(m, a, es) =>
      || m == Obj(x) || (exists i | 0 <= i < |a| :: a[i] == Obj(x))
      || exists i | 0 <= i < |es| ::
           || (es[i].key == Obj(x) && IsText(h, x))
           || (es[i].val == Obj(x) && (es[i].key == Plain || es[i].key.r in S || IsText(h, es[i].key.r)))
    case WeakVals(m, _, es) => m == Obj(x) || exists i | 0 <= i < |es| :: es[i].key == Obj(x)
    case AllWeak(m, _, _) => m == Obj(x)
  }

  /** A set is closed when it has everything that its objects keep alive. */
  lemma FixpointIs(h: Heap, S: set<Ref>)
    ensures Fixpoint(h, S) <==> forall r, x | r in S && r in h && KeepsAlive(h, S, r, x) :: x in S
  {
    hide KeepsAlive, Satisfied;
    if Fixpoint(h, S) {
      forall r, x | r in S && r in h && KeepsAlive(h, S, r, x) ensures x in S { SatisfiedHas(h, S, r, x); }
    }
    if forall r, x | r in S && r in h && KeepsAlive(h, S, r, x) :: x in S {
      forall r | r in S && r in h ensures Satisfied(h, S, h[r]) { HasSatisfies(h, S, r); }
    }
  }

  lemma SatisfiedHas(h: Heap, S: set<Ref>, r: Ref, x: Ref)
    requires r in h && Satisfied(h, S, h[r]) && KeepsAlive(h, S, r, x)
    ensures x in S
  {
    match h[r]
    case Text =>
    case Strong(fs) =>
      var i :| 0 <= i < |fs| && fs[i] == Obj(x);
      assert In(S, StrongSlots(h[r])[i]);
    case WeakKeys(m, a, es) =>
      assert In(S, StrongSlots(h[r])[0]) && StrongSlots(h[r])[0] == m;
      if i :| 0 <= i < |a| && a[i] == Obj(x) { assert In(S, StrongSlots(h[r])[i + 1]); }
      forall i | 0 <= i < |es| ensures EntrySatisfied(h, S, es[i]) { assert EntrySatisfied(h, S, h[r].entries[i]); }
    case WeakVals(m, _, es) =>
      assert In(S, StrongSlots(h[r])[0]) && StrongSlots(h[r])[0] == m;
      if i :| 0 <= i < |es| && es[i].key == Obj(x) { assert In(S, StrongSlots(h[r])[i + 1]); }
    case AllWeak(m, _, _) =>
      assert In(S, StrongSlots(h[r])[0]);
  }

  lemma HasSatisfies(h: Heap, S: set<Ref>, r: Ref)
    requires r in h && r in S && forall x | KeepsAlive(h, S, r, x) :: x in S
    ensures Satisfied(h, S, h[r])
  {
    var o := h[r];
    var ss := StrongSlots(o);
    forall i | 0 <= i < |ss| ensures In(S, ss[i]) {
      if ss[i].Obj? { assert KeepsAlive(h, S, r, ss[i].r); }
    }
    if o.WeakKeys? {
      forall i | 0 <= i < |o.entries| ensures EntrySatisfied(h, S, o.entries[i]) {
        var e := o.entries[i];
        if e.val.Obj? && KeyIn(h, S, e.key) { assert KeepsAlive(h, S, r, e.val.r); }
        if e.key.Obj? && IsText(h, e.key.r) { assert KeepsAlive(h, S, r, e.key.r); }
      }
    }
  }

  /** Besides the entries, the sweep only takes dead values out of array parts that are
      weak; objects outside the set and other objects are as they were. */
  lemma SweptArrays(h: Heap, S: set<Ref>, r: Ref)
    requires r in h
    ensures r in Swept(h, S) && (r !in S || !IsWeak(h[r]) ==> Swept(h, S)[r] == h[r])
    ensures r in S && IsWeak(h[r]) ==> var o, n := h[r], Swept(h, S)[r];
      && n.WeakKeys? == o.WeakKeys? && n.WeakVals? == o.WeakVals? && n.AllWeak? == o.AllWeak?
      && n.meta == o.meta && |n.arr| == |o.arr|
      && forall i | 0 <= i < |o.arr| :: n.arr[i] ==
           if !o.WeakKeys? && o.arr[i].Obj? && o.arr[i].r !in S && !IsText(h, o.arr[i].r) then Plain else o.arr[i]
  {
    hide Kept;
  }

  /** There is only one least closed set. */
  lemma LeastIsOne(h: Heap, M0: set<Ref>, S: set<Ref>, T: set<Ref>)
    requires M0 <= S && Fixpoint(h, S) && Least(h, M0, S)
    requires M0 <= T && Fixpoint(h, T) && Least(h, M0, T)
    ensures S == T
  {
  }

  /** One more object is marked; it waits, or is a string. */
  lemma CoveredMore(h: Heap, S: set<Ref>, u: set<Ref>, v: set<Ref>, c: seq<Ref>, r: Ref)
    requires Covered(h, S, u, c) && u <= v && r in h && (r in v || h[r].Text?)
    ensures Covered(h, S + {r}, v, c)
  {
    forall q | q in S + {r} && q in h && q !in v ensures Done(h, S + {r}, c, q) {
      if q in S { DoneGrows(h, S, S + {r}, c, c, q); }
    }
  }

  lemma StrongKnown(h: Heap, w: Ref, s: Slot)
    requires Closed(h) && w in h && s in StrongSlots(h[w])
    ensures Known(h, s)
  {
    assert ClosedObject(h, h[w]);
  }

  lemma EntryKnown(h: Heap, w: Ref, i: nat)
    requires Closed(h) && w in h && h[w].WeakVals? && i < |h[w].entries|
    ensures Known(h, h[w].entries[i].key) && Known(h, h[w].entries[i].val)
    ensures h[w].entries[i].key in StrongSlots(h[w])
  {
    assert ClosedObject(h, h[w]);
    assert StrongSlots(h[w])[i + 1] == h[w].entries[i].key;
  }

  lemma LooseValue(h: Heap, M: set<Ref>, w: Ref, i: nat)
    requires w in M && w in h && h[w].WeakVals? && i < |h[w].entries|
    requires h[w].entries[i].val.Obj? && IsText(h, h[w].entries[i].val.r)
    ensures Loose(h, M, h[w].entries[i].val.r)
  {
  }

  lemma FieldsAreStrong(o: Object)
    requires o.Strong?
    ensures forall i | 0 <= i < |o.fields| :: o.fields[i] in StrongSlots(o)
  {
  }

  lemma ArrayIsStrong(o: Object)
    requires o.WeakKeys?
    ensures forall i | 0 <= i < |o.arr| :: o.arr[i] in StrongSlots(o)
  {
    forall i | 0 <= i < |o.arr| ensures o.arr[i] in StrongSlots(o) { assert StrongSlots(o)[i + 1] == o.arr[i]; }
  }

  lemma MetaIsStrong(o: Object)
    requires IsWeak(o)
    ensures forall i | 0 <= i < 1 :: [o.meta][i] in StrongSlots(o)
  {
    assert StrongSlots(o)[0] == o.meta;
  }

  lemma MetaStays(S: set<Ref>, T: set<Ref>, m: Slot)
    requires S <= T && In(S, m)
    ensures In(T, m)
  {
  }

  lemma MetaMarked(S: set<Ref>, m: Slot)
    requires AllIn(S, [m])
    ensures In(S, m)
  {
    assert In(S, [m][0]);
  }

  lemma KeysStay(h: Heap, S: set<Ref>, T: set<Ref>)
    requires S <= T
    ensures forall s | KeyIn(h, S, s) :: KeyIn(h, T, s)
  {
  }

  lemma KeysAreStrong(h: Heap, S: set<Ref>, w: Ref)
    requires w in h && h[w].WeakVals? && In(S, h[w].meta) && forall j | 0 <= j < |h[w].entries| :: In(S, h[w].entries[j].key)
    ensures AllIn(S, StrongSlots(h[w]))
  {
  }

  lemma WeakDone(h: Heap, S: set<Ref>, c: seq<Ref>, w: Ref)
    requires w in h && h[w].WeakVals? && AllIn(S, StrongSlots(h[w])) && h[w].arr == []
    requires forall j | 0 <= j < |h[w].entries| :: KeyIn(h, S, h[w].entries[j].val)
    ensures Done(h, S, c, w)
  {
  }

  lemma Longer(c: seq<Ref>, d: seq<Ref>, w: Ref)
    requires |d| == |c| + 1 && (forall r | r in c :: r in d) && w in d
    ensures Elements(c) <= Elements(d)
  {
  }

  lemma StrongDone(h: Heap, S: set<Ref>, c: seq<Ref>, r: Ref)
    requires r in h && h[r].Strong? && AllIn(S, h[r].fields)
    ensures Done(h, S, c, r)
  {
  }

  lemma WaitMore(h: Heap, S: set<Ref>, u: set<Ref>, v: set<Ref>, c: seq<Ref>)
    requires Covered(h, S, u, c) && u <= v
    ensures Covered(h, S, v, c)
  {
  }

  /** An object that is done need not wait any more. */
  lemma Leave(h: Heap, S: set<Ref>, u: set<Ref>, v: set<Ref>, c: seq<Ref>, d: seq<Ref>, w: Ref)
    requires Covered(h, S, u, c) && u <= v + {w} && Elements(c) <= Elements(d) && w in h
    requires w in v || Done(h, S, d, w)
    ensures Covered(h, S, v, d)
  {
    forall q | q in S && q in h && q !in v ensures Done(h, S, d, q) {
      if q != w {
        assert q !in u;
        DoneGrows(h, S, S, c, d, q);
      }
    }
  }

  lemma Verdict(h: Heap, S: set<Ref>, T: set<Ref>, b: seq<Ref>, c: seq<Ref>, w: Ref, dead: bool, ww: bool, any: bool)
    requires w in h && h[w].WeakKeys? && In(S, h[w].meta) && AllIn(S, h[w].arr) && S <= T
    requires var es := h[w].entries; (!dead ==> !HasDeadKey(h, T, es)) && (!ww ==> ValuesIn(T, es)) && TextKeysIn(h, T, es)
    requires any || forall i | 0 <= i < |h[w].entries| :: EntrySatisfied(h, T, h[w].entries[i])
    ensures ww || Done(h, T, b + (if dead then [w] + c else c), w)
    ensures any || Satisfied(h, T, h[w])
  {
  }

  /** What the entries before `i` have shown about themselves. */
  ghost predicate Progress(h: Heap, S: set<Ref>, es: seq<Entry>, i: nat, any: bool, dead: bool, ww: bool)
    requires i <= |es|
  {
    && (!dead ==> forall j | 0 <= j < i :: KeyIn(h, S, es[j].key))
    && (!ww ==> forall j | 0 <= j < i :: In(S, es[j].val))
    && (forall j | 0 <= j < i :: es[j].key.Obj? && IsText(h, es[j].key.r) ==> es[j].key.r in S)
    && (!any ==> forall j | 0 <= j < i :: EntrySatisfied(h, S, es[j]))
  }

  lemma NoProgress(h: Heap, S: set<Ref>, es: seq<Entry>)
    ensures Progress(h, S, es, 0, false, false, false) && OnlyTexts(h, S, S)
  {
  }

  lemma OnlyTextsTrans(h: Heap, S: set<Ref>, T: set<Ref>, U: set<Ref>)
    ensures OnlyTexts(h, S, T) && OnlyTexts(h, T, U) ==> OnlyTexts(h, S, U)
  {
  }

  lemma Finished(h: Heap, S: set<Ref>, es: seq<Entry>, any: bool, dead: bool, ww: bool)
    requires Progress(h, S, es, |es|, any, dead, ww)
    ensures (!dead ==> !HasDeadKey(h, S, es)) && (!ww ==> ValuesIn(S, es)) && TextKeysIn(h, S, es)
    ensures any || forall i | 0 <= i < |es| :: EntrySatisfied(h, S, es[i])
  {
  }

  lemma Advance(h: Heap, S: set<Ref>, T: set<Ref>, es: seq<Entry>, i: nat, any: bool, dead: bool, ww: bool, a: bool, d: bool, v: bool)
    requires i < |es| && Progress(h, S, es, i, any, dead, ww) && S <= T && (a || OnlyTexts(h, S, T))
    requires (d || KeyIn(h, T, es[i].key)) && (v || In(T, es[i].val)) && (a || EntrySatisfied(h, T, es[i]))
    requires es[i].key.Obj? && IsText(h, es[i].key.r) ==> es[i].key.r in T
    ensures Progress(h, T, es, i + 1, any || a, dead || d, ww || v)
  {
    if !any && !a {
      forall j | 0 <= j < i ensures EntrySatisfied(h, T, es[j]) {
        assert EntrySatisfied(h, S, es[j]);
      }
    }
  }
}
