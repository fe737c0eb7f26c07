/** What holds between any two steps of the collector and the mutator. */
module GcInvariant {
  import opened GcModel
  import opened GcMark

  // ---- the tri-colour invariant ----

  ghost predicate CacheMarked(m: Mem, c: Col, r: Ref) {
    r in c.cache ==> !IsWhite(c, c.cache[r])
  }

  /** The marking invariant. Every gray object is on the gray list, in `again`,
      or in `trav` (threads already visited whose stack cannot change any
      more); black objects outside `open` hold no white reference. */
  ghost predicate Tri(m: Mem, c: Col, again: set<Ref>, trav: set<Ref>, open: set<Ref>) {
    && Shape(m)
    && c.mark.Keys == m.objs.Keys
    && (forall r :: IsBlack(c, r) ==> BlackOk(m, c, r, open))
    && (forall r :: IsGray(c, r) ==> Traversable(m, r) && (r in c.gray || r in again || r in trav))
    && (forall r :: r in c.gray ==> IsGray(c, r) && r !in again && r !in trav)
    && (forall r :: r in again ==> IsGray(c, r) && r !in trav)
    && (forall r :: r in trav ==> IsGray(c, r) && KindOf(m, r) == Thread && (r in open || ChildrenMarked(m, c, r)))
    && NoDup(c.gray)
    && CachesOfProtos(m, c)
  }

  ghost predicate CachesOfProtos(m: Mem, c: Col) {
    forall r :: r in c.cache ==> KindOf(m, r) == Proto
  }

  ghost predicate BlackOk(m: Mem, c: Col, r: Ref, open: set<Ref>) {
    && KindOf(m, r) != Thread
    && (r in open || ChildrenMarked(m, c, r))
    && CacheMarked(m, c, r)
  }

  lemma TriGrown(m: Mem, c: Col, d: Col, n: seq<Ref>, again: set<Ref>, trav: set<Ref>, open: set<Ref>)
    requires Tri(m, c, again, trav, open) && Grown(m, c, d, n)
    ensures Tri(m, d, again, trav, open)
  {
    forall r | r in c.mark ensures MarkGrown(m, c, d, n, r) {}
    forall r | r in c.gray || r in again || r in trav
      ensures IsGray(d, r) && r !in n
    {
      assert IsGray(c, r);
    }
    NoDupConcat(n, c.gray);
    forall r | IsBlack(d, r) ensures BlackOk(m, d, r, open) {
      if IsBlack(c, r) {
        assert BlackOk(m, c, r, open);
        if r !in open { ChildrenStayMarked(m, c, d, n, r); }
        if r in c.cache { GrownKeeps(m, c, d, n, c.cache[r]); }
      } else {
        assert IsWhite(c, r) && !Traversable(m, r) && ChildrenMarked(m, d, r);
      }
    }
    forall r | r in trav && r !in open ensures ChildrenMarked(m, d, r) {
      ChildrenStayMarked(m, c, d, n, r);
    }
  }

  /** Marking the references `vs` keeps the invariant. */
  lemma TriMarkAll(m: Mem, c: Col, vs: seq<Value>, again: set<Ref>, trav: set<Ref>, open: set<Ref>)
    requires Tri(m, c, again, trav, open)
    ensures var d := MarkAll(m, c, vs);
      && Tri(m, d, again, trav, open)
      && d.grayagain == c.grayagain
      && (forall x :: Obj(x) in vs ==> !IsWhite(d, x))
      && (forall x :: !IsWhite(c, x) ==> !IsWhite(d, x))
      && (forall x :: IsWhite(d, x) ==> IsWhite(c, x) && d.mark[x] == c.mark[x])
      && d.cache == c.cache
  {
    var n := MarkAllGrown(m, c, vs);
    var d := MarkAll(m, c, vs);
    TriGrown(m, c, d, n, again, trav, open);
    forall x | !IsWhite(c, x) ensures !IsWhite(d, x) { GrownKeeps(m, c, d, n, x); }
    forall x | IsWhite(d, x) ensures IsWhite(c, x) && d.mark[x] == c.mark[x] {
      if !IsWhite(c, x) { GrownKeeps(m, c, d, n, x); }
      assert MarkGrown(m, c, d, n, x);
    }
  }

  /** Closing a traversed object again. */
  lemma TriClose(m: Mem, c: Col, again: set<Ref>, trav: set<Ref>, o: Ref)
    requires Tri(m, c, again, trav, {o}) && ChildrenMarked(m, c, o)
    ensures Tri(m, c, again, trav, {})
  {
    forall r | IsBlack(c, r) ensures BlackOk(m, c, r, {}) { assert BlackOk(m, c, r, {o}); }
  }

  lemma FewerWhites(m: Mem, c: Col, d: Col, r: Ref)
    requires forall x :: IsWhite(d, x) ==> IsWhite(c, x)
    requires ChildrenMarked(m, c, r)
    ensures ChildrenMarked(m, d, r)
  {
  }

  lemma VisitMarks(m: Mem, c: Col, o: Ref)
    requires c.gray != [] && c.gray[0] == o && IsGray(c, o)
    ensures var d := Visit(m, c);
      && d.mark == c.mark[o := if KindOf(m, o) == Thread then Gray else Black]
      && d.gray == c.gray[1..]
      && (forall x :: IsWhite(d, x) <==> IsWhite(c, x))
      && (forall r :: r in d.cache ==> r in c.cache && d.cache[r] == c.cache[r])
      && (KindOf(m, o) == Proto ==> CacheMarked(m, d, o))
      && d.grayagain == (if KindOf(m, o) == Thread then [o] else []) + c.grayagain
  {
  }

  lemma TriVisit(m: Mem, c: Col, again: set<Ref>, trav: set<Ref>)
    requires Tri(m, c, again, trav, {}) && c.gray != []
    ensures var o := c.gray[0];
      Tri(m, Visit(m, c), again, if KindOf(m, o) == Thread then trav + {o} else trav, {o})
  {
    var o := c.gray[0];
    var d := Visit(m, c);
    assert IsGray(c, o);
    VisitMarks(m, c, o);
    forall r | IsBlack(d, r) ensures BlackOk(m, d, r, {o}) {
      if r != o {
        assert BlackOk(m, c, r, {});
        FewerWhites(m, c, d, r);
      }
    }
    forall r | r in trav ensures ChildrenMarked(m, d, r) { FewerWhites(m, c, d, r); }
    forall r | r in d.gray ensures r in c.gray && r != o {
      var i :| 0 <= i < |d.gray| && d.gray[i] == r;
      assert c.gray[i + 1] == r;
    }
    assert NoDup(d.gray);
    TriVisited(m, c, d, again, trav, o);
  }

  lemma TriVisited(m: Mem, c: Col, d: Col, again: set<Ref>, trav: set<Ref>, o: Ref)
    requires Tri(m, c, again, trav, {}) && c.gray != [] && c.gray[0] == o
    requires d.mark == c.mark[o := if KindOf(m, o) == Thread then Gray else Black]
    requires d.gray == c.gray[1..] && NoDup(d.gray)
    requires forall r :: r in d.gray ==> r in c.gray && r != o
    requires forall r :: IsBlack(d, r) ==> BlackOk(m, d, r, {o})
    requires forall r :: r in trav ==> ChildrenMarked(m, d, r)
    requires forall r :: r in d.cache ==> r in c.cache
    ensures Tri(m, d, again, if KindOf(m, o) == Thread then trav + {o} else trav, {o})
  {
    hide Shape, BlackOk, ChildrenMarked;
    assert IsGray(c, o) && o !in trav && o !in again;
    var t := if KindOf(m, o) == Thread then trav + {o} else trav;
    forall r | IsGray(d, r) ensures Traversable(m, r) && (r in d.gray || r in again || r in t) {
      assert IsGray(c, r);
      if r in c.gray && r != o { assert c.gray == [o] + d.gray; }
    }
  }

  lemma TriFirst(m: Mem, c: Col, again: set<Ref>, trav: set<Ref>)
    requires Tri(m, c, again, trav, {}) && c.gray != []
    ensures IsGray(c, c.gray[0]) && c.gray[0] !in again && c.gray[0] !in trav
  {
    assert c.gray[0] in c.gray;
  }

  /** One `propagatemark`: a visited thread joins `trav`, on top of `grayagain`. */
  lemma TriPropagateMark(m: Mem, c: Col, again: set<Ref>, trav: set<Ref>)
    requires Tri(m, c, again, trav, {}) && c.gray != []
    ensures var o := c.gray[0]; var d := PropagateMark(m, c);
      && Tri(m, d, again, if KindOf(m, o) == Thread then trav + {o} else trav, {})
      && d.grayagain == (if KindOf(m, o) == Thread then [o] else []) + c.grayagain
      && (forall x :: !IsWhite(c, x) ==> !IsWhite(d, x))
      && (forall x :: IsWhite(d, x) ==> IsWhite(c, x) && d.mark[x] == c.mark[x])
  {
    hide Tri, Visit, MarkAll;
    var o := c.gray[0];
    var t := if KindOf(m, o) == Thread then trav + {o} else trav;
    TriFirst(m, c, again, trav);
    TriVisit(m, c, again, trav);
    VisitMarks(m, c, o);
    TriMarkAll(m, Visit(m, c), Values(m, o), again, t, {o});
    TriClose(m, PropagateMark(m, c), again, t, o);
  }

  lemma {:induction false} TriPropagateAll(m: Mem, c: Col, again: set<Ref>, trav: set<Ref>) returns (t: set<Ref>)
    requires Tri(m, c, again, trav, {})
    ensures Tri(m, PropagateAll(m, c), again, t, {}) && trav <= t
    ensures Elems(PropagateAll(m, c).grayagain) == Elems(c.grayagain) + (t - trav)
    ensures forall x :: !IsWhite(c, x) ==> !IsWhite(PropagateAll(m, c), x)
    ensures forall x :: IsWhite(PropagateAll(m, c), x) ==> IsWhite(c, x) && PropagateAll(m, c).mark[x] == c.mark[x]
    decreases Whites(c), |c.gray|
  {
    hide Tri, PropagateMark;
    if c.gray == [] {
      t := trav;
    } else {
      var o := c.gray[0];
      TriFirst(m, c, again, trav);
      TriPropagateMark(m, c, again, trav);
      t := TriPropagateAll(m, PropagateMark(m, c), again, if KindOf(m, o) == Thread then trav + {o} else trav);
    }
  }
}
