/** Dumping through a writer that may fail, and loading from a reader that hands
  out the bytes in pieces. */
module DumpHeap {
  import opened PackNumber
  import opened DumpFormat
  import opened DumpLayout
  import opened DumpRoundTrip

  // ---- writing ----

  /** From `o`, `s` to `p`, `t`: all of `b` was written and the status is still
      zero, or the status is not zero and no more than a part was written; nothing
      was when it was not zero before. */
  predicate Wrote(o: seq<Octet>, s: int, p: seq<Octet>, t: int, b: seq<Octet>) {
    && (t == 0 ==> s == 0 && p == o + b)
    && (t != 0 ==> o <= p <= o + b)
    && (s != 0 ==> p == o && t == s)
  }

  lemma WroteBoth(o: seq<Octet>, s: int, p: seq<Octet>, t: int, q: seq<Octet>, u: int, a: seq<Octet>, b: seq<Octet>)
    requires Wrote(o, s, p, t, a) && Wrote(p, t, q, u, b)
    ensures Wrote(o, s, q, u, a + b)
  {
    assert o + a + b == o + (a + b);
  }

  lemma WroteNothing(o: seq<Octet>, s: int)
    ensures Wrote(o, s, o, s, [])
  {
    assert o + [] == o;
  }

  class DumpState {
    const strip: bool
    /** What the writer will answer, call by call; zero when the list is used up. */
    const answers: seq<int>
    var calls: nat
    var out: seq<Octet>
    var status: int

    /** A status that is not zero is an answer of the writer. */
    predicate Valid()
      reads this
    {
      status == 0 || status in answers
    }

    constructor (strip: bool, answers: seq<int>)
      ensures Valid() && this.strip == strip && this.answers == answers && calls == 0 && out == [] && status == 0
    {
      this.strip, this.answers, calls, out, status := strip, answers, 0, [], 0;
    }

    /** `DumpBlock`: a block that the writer refuses is not written, and nothing
        is after it. */
    method DumpBlock(b: seq<Octet>)
      requires Valid()
      modifies this
      ensures Valid() && Wrote(old(out), old(status), out, status, b)
    {
      if status == 0 {
        status := if calls < |answers| then answers[calls] else 0;
        calls := calls + 1;
        if status == 0 { out := out + b; }
      }
    }

    method DumpByte(x: Octet)
      requires Valid()
      modifies this
      ensures Valid() && Wrote(old(out), old(status), out, status, [x])
    {
      DumpBlock([x]);
    }

    method WriteInt(n: Int32)
      requires Valid()
      modifies this
      ensures Valid() && Wrote(old(out), old(status), out, status, DumpInt(n))
    {
      DumpBlock(DumpInt(n));
    }

    method WriteString(s: Option<Str>)
      requires Valid()
      modifies this
      ensures Valid() && Wrote(old(out), old(status), out, status, DumpFormat.DumpString(s))
    {
      hide Wrote, Bytes;
      ghost var o, st := out, status;
      if s.None? {
        DumpByte(0);
        return;
      }
      var size := |s.value| + 1;
      if size < 0xFF {
        DumpByte(size);
        ghost var p, t := out, status;
        DumpBlock(s.value);
        WroteBoth(o, st, p, t, out, status, [size], s.value);
      } else {
        DumpByte(0xFF);
        ghost var p, t := out, status;
        DumpBlock(Bytes(size, 8));
        WroteBoth(o, st, p, t, out, status, [0xFF], Bytes(size, 8));
        ghost var q, u := out, status;
        DumpBlock(s.value);
        WroteBoth(o, st, q, u, out, status, [0xFF] + Bytes(size, 8), s.value);
      }
    }

    method WriteCode(code: Vector<Word>)
      requires Valid()
      modifies this
      ensures Valid() && Wrote(old(out), old(status), out, status, DumpVector(DumpWord, code))
    {
      hide Wrote, DumpInt;
      ghost var o, s := out, status;
      WriteInt(|code|);
      ghost var p, t := out, status;
      DumpBlock(Concat(DumpWord, code));
      WroteBoth(o, s, p, t, out, status, DumpInt(|code|), Concat(DumpWord, code));
    }

    method WriteConstant(c: Constant)
      requires Valid()
      modifies this
      ensures Valid() && Wrote(old(out), old(status), out, status, DumpConstant(c))
    {
      hide Wrote, Tag, DumpInteger, DumpFormat.DumpString;
      ghost var o, s := out, status;
      DumpByte(Tag(c));
      ghost var p, t := out, status;
      match c
      case Nil =>
        WroteNothing(out, status);
        WroteBoth(o, s, p, t, out, status, [Tag(c)], []);
      case Bool(b) =>
        DumpByte(b);
        WroteBoth(o, s, p, t, out, status, [Tag(c)], [b]);
      case Flt(x) =>
        DumpBlock(x);
        WroteBoth(o, s, p, t, out, status, [Tag(c)], x);
      case Integral(n) =>
        DumpBlock(DumpInteger(n));
        WroteBoth(o, s, p, t, out, status, [Tag(c)], DumpInteger(n));
      case Text(x) =>
        WriteString(Some(x));
        WroteBoth(o, s, p, t, out, status, [Tag(c)], DumpFormat.DumpString(Some(x)));
    }

    method WriteConstants(k: Vector<Constant>)
      requires Valid()
      modifies this
      ensures Valid() && Wrote(old(out), old(status), out, status, DumpVector(DumpConstant, k))
    {
      hide Wrote, DumpInt, DumpConstant;
      ghost var o, s := out, status;
      WriteInt(|k|);
      assert Concat(DumpConstant, k[..0]) == [] && DumpInt(|k|) + [] == DumpInt(|k|);
      for i := 0 to |k|
        invariant Valid() && Wrote(o, s, out, status, DumpInt(|k|) + Concat(DumpConstant, k[..i]))
      {
        ghost var p, t := out, status;
        WriteConstant(k[i]);
        WroteBoth(o, s, p, t, out, status, DumpInt(|k|) + Concat(DumpConstant, k[..i]), DumpConstant(k[i]));
        ConcatOne(DumpConstant, k, i);
        Assoc3(DumpInt(|k|), Concat(DumpConstant, k[..i]), DumpConstant(k[i]));
      }
      assert k[..|k|] == k;
    }

    method WriteUpvalues(us: Vector<Upvalue>)
      requires Valid()
      modifies this
      ensures Valid() && Wrote(old(out), old(status), out, status, DumpVector(DumpUpvalue, us))
    {
      hide Wrote, DumpInt;
      ghost var o, s := out, status;
      WriteInt(|us|);
      assert Concat(DumpUpvalue, us[..0]) == [] && DumpInt(|us|) + [] == DumpInt(|us|);
      for i := 0 to |us|
        invariant Valid() && Wrote(o, s, out, status, DumpInt(|us|) + Concat(DumpUpvalue, us[..i]))
      {
        ghost var p, t := out, status;
        DumpByte(us[i].instack);
        ghost var q, u := out, status;
        DumpByte(us[i].idx);
        WroteBoth(p, t, q, u, out, status, [us[i].instack], [us[i].idx]);
        assert [us[i].instack] + [us[i].idx] == DumpUpvalue(us[i]);
        WroteBoth(o, s, p, t, out, status, DumpInt(|us|) + Concat(DumpUpvalue, us[..i]), DumpUpvalue(us[i]));
        ConcatOne(DumpUpvalue, us, i);
        Assoc3(DumpInt(|us|), Concat(DumpUpvalue, us[..i]), DumpUpvalue(us[i]));
      }
      assert us[..|us|] == us;
    }

    method WriteLocVar(v: LocVar)
      requires Valid()
      modifies this
      ensures Valid() && Wrote(old(out), old(status), out, status, DumpLocVar(v))
    {
      hide Wrote, DumpInt, DumpFormat.DumpString;
      ghost var o, s := out, status;
      WriteString(v.name);
      ghost var p, t := out, status;
      WriteInt(v.startpc);
      ghost var q, u := out, status;
      WriteInt(v.endpc);
      WroteBoth(p, t, q, u, out, status, DumpInt(v.startpc), DumpInt(v.endpc));
      WroteBoth(o, s, p, t, out, status, DumpFormat.DumpString(v.name), DumpInt(v.startpc) + DumpInt(v.endpc));
    }

    method WriteLocVars(vs: Vector<LocVar>)
      requires Valid()
      modifies this
      ensures Valid() && Wrote(old(out), old(status), out, status, DumpVector(DumpLocVar, vs))
    {
      hide Wrote, DumpInt, DumpLocVar;
      ghost var o, s := out, status;
      WriteInt(|vs|);
      assert Concat(DumpLocVar, vs[..0]) == [] && DumpInt(|vs|) + [] == DumpInt(|vs|);
      for i := 0 to |vs|
        invariant Valid() && Wrote(o, s, out, status, DumpInt(|vs|) + Concat(DumpLocVar, vs[..i]))
      {
        ghost var p, t := out, status;
        WriteLocVar(vs[i]);
        WroteBoth(o, s, p, t, out, status, DumpInt(|vs|) + Concat(DumpLocVar, vs[..i]), DumpLocVar(vs[i]));
        ConcatOne(DumpLocVar, vs, i);
        Assoc3(DumpInt(|vs|), Concat(DumpLocVar, vs[..i]), DumpLocVar(vs[i]));
      }
      assert vs[..|vs|] == vs;
    }

    method WriteNames(us: Vector<Upvalue>)
      requires Valid()
      modifies this
      ensures Valid() && Wrote(old(out), old(status), out, status, DumpVector(DumpFormat.DumpString, if strip then [] else Names(us)))
    {
      hide Wrote, DumpInt, DumpFormat.DumpString;
      var n := if strip then 0 else |us|;
      ghost var ns: Vector<Option<Str>> := if strip then [] else Names(us);
      ghost var o, s := out, status;
      WriteInt(n);
      assert Concat(DumpFormat.DumpString, ns[..0]) == [] && DumpInt(n) + [] == DumpInt(n);
      for i := 0 to n
        invariant Valid() && Wrote(o, s, out, status, DumpInt(n) + Concat(DumpFormat.DumpString, ns[..i]))
      {
        ghost var p, t := out, status;
        WriteString(us[i].name);
        WroteBoth(o, s, p, t, out, status, DumpInt(n) + Concat(DumpFormat.DumpString, ns[..i]), DumpFormat.DumpString(ns[i]));
        ConcatOne(DumpFormat.DumpString, ns, i);
        Assoc3(DumpInt(n), Concat(DumpFormat.DumpString, ns[..i]), DumpFormat.DumpString(ns[i]));
      }
      assert ns[..|ns|] == ns;
    }

    method WriteDebug(p: Proto)
      requires Valid()
      modifies this
      ensures Valid() && Wrote(old(out), old(status), out, status, DumpDebug(DebugOf(p, strip)))
    {
      hide Wrote, DumpInt, DumpFormat.DumpString, DumpLocVar, Concat;
      ghost var d := DebugOf(p, strip);
      ghost var o, s := out, status;
      WriteInt(if strip then 0 else |p.lineinfo|);
      ghost var p1, s1 := out, status;
      DumpBlock(Concat(DumpInt, if strip then [] else p.lineinfo));
      WroteBoth(o, s, p1, s1, out, status, DumpInt(|d.lineinfo|), Concat(DumpInt, d.lineinfo));
      ghost var p2, s2 := out, status;
      WriteLocVars(if strip then [] else p.locvars);
      ghost var p3, s3 := out, status;
      WriteNames(p.upvalues);
      WroteBoth(p2, s2, p3, s3, out, status, DumpVector(DumpLocVar, d.locvars), DumpVector(DumpFormat.DumpString, d.names));
      WroteBoth(o, s, p2, s2, out, status, DumpVector(DumpInt, d.lineinfo), DumpVector(DumpLocVar, d.locvars) + DumpVector(DumpFormat.DumpString, d.names));
    }

    method WriteHead(h: Head, source: Option<Str>)
      requires Valid()
      modifies this
      ensures Valid() && Wrote(old(out), old(status), out, status, DumpHead(h.(source := source)))
    {
      hide Wrote, DumpInt, DumpFormat.DumpString;
      ghost var o, s := out, status;
      WriteString(source);
      ghost var p1, s1 := out, status;
      WriteInt(h.linedefined);
      ghost var p2, s2 := out, status;
      WriteInt(h.lastlinedefined);
      ghost var p3, s3 := out, status;
      DumpByte(h.numparams);
      ghost var p4, s4 := out, status;
      DumpByte(h.isVararg);
      ghost var p5, s5 := out, status;
      DumpByte(h.maxstack);
      WroteBoth(p4, s4, p5, s5, out, status, [h.isVararg], [h.maxstack]);
      WroteBoth(p3, s3, p4, s4, out, status, [h.numparams], [h.isVararg] + [h.maxstack]);
      assert [h.numparams] + ([h.isVararg] + [h.maxstack]) == [h.numparams, h.isVararg, h.maxstack];
      WroteBoth(p2, s2, p3, s3, out, status, DumpInt(h.lastlinedefined), [h.numparams, h.isVararg, h.maxstack]);
      WroteBoth(p1, s1, p2, s2, out, status, DumpInt(h.linedefined), DumpInt(h.lastlinedefined) + [h.numparams, h.isVararg, h.maxstack]);
      WroteBoth(o, s, p1, s1, out, status, DumpFormat.DumpString(source),
                DumpInt(h.linedefined) + (DumpInt(h.lastlinedefined) + [h.numparams, h.isVararg, h.maxstack]));
    }

    /** `DumpFunction` */
    method WriteFunction(f: Proto, psource: Option<Str>)
      requires Valid()
      modifies this
      ensures Valid() && Wrote(old(out), old(status), out, status, DumpFunction(f, psource, strip))
      decreases f
    {
      hide Wrote, DumpHead, DumpVector, DumpInt, DumpProtos, DumpDebug;
      ghost var o, s := out, status;
      WriteHead(f.head, if strip || f.head.source == psource then None else f.head.source);
      ghost var p1, s1 := out, status;
      WriteCode(f.code);
      ghost var p2, s2 := out, status;
      WriteConstants(f.k);
      ghost var p3, s3 := out, status;
      WriteUpvalues(f.upvalues);
      ghost var p4, s4 := out, status;
      WriteProtos(f.protos, f.head.source);
      ghost var p5, s5 := out, status;
      WriteDebug(f);
      ghost var a, b := DumpInt(|f.protos|) + DumpProtos(f.protos, f.head.source, strip), DumpDebug(DebugOf(f, strip));
      WroteBoth(p4, s4, p5, s5, out, status, a, b);
      WroteBoth(p3, s3, p4, s4, out, status, DumpVector(DumpUpvalue, f.upvalues), a + b);
      WroteBoth(p2, s2, p3, s3, out, status, DumpVector(DumpConstant, f.k), DumpVector(DumpUpvalue, f.upvalues) + (a + b));
      WroteBoth(p1, s1, p2, s2, out, status, DumpVector(DumpWord, f.code), DumpVector(DumpConstant, f.k) + (DumpVector(DumpUpvalue, f.upvalues) + (a + b)));
      WroteBoth(o, s, p1, s1, out, status, DumpHead(f.head.(source := DumpedSource(f, psource, strip))),
                DumpVector(DumpWord, f.code) + (DumpVector(DumpConstant, f.k) + (DumpVector(DumpUpvalue, f.upvalues) + (a + b))));
    }

    method WriteProtos(ps: Vector<Proto>, psource: Option<Str>)
      requires Valid()
      modifies this
      ensures Valid() && Wrote(old(out), old(status), out, status, DumpInt(|ps|) + DumpProtos(ps, psource, strip))
      decreases ps
    {
      hide Wrote, DumpInt, DumpFunction;
      ghost var o, s := out, status;
      WriteInt(|ps|);
      assert DumpProtos(ps[..0], psource, strip) == [] && DumpInt(|ps|) + [] == DumpInt(|ps|);
      for i := 0 to |ps|
        invariant Valid() && Wrote(o, s, out, status, DumpInt(|ps|) + DumpProtos(ps[..i], psource, strip))
      {
        ghost var p, t := out, status;
        WriteFunction(ps[i], psource);
        WroteBoth(o, s, p, t, out, status, DumpInt(|ps|) + DumpProtos(ps[..i], psource, strip), DumpFunction(ps[i], psource, strip));
        ProtosOne(ps, i, psource, strip);
        Assoc3(DumpInt(|ps|), DumpProtos(ps[..i], psource, strip), DumpFunction(ps[i], psource, strip));
      }
      assert ps[..|ps|] == ps;
    }

    method WriteHeader()
      requires Valid()
      modifies this
      ensures Valid() && Wrote(old(out), old(status), out, status, DumpHeader())
    {
      hide Wrote, DumpInteger;
      ghost var o, s := out, status;
      DumpBlock([Escape] + Signature);
      ghost var p1, s1 := out, status;
      DumpByte(Version);
      ghost var p2, s2 := out, status;
      DumpByte(FormatByte);
      ghost var p3, s3 := out, status;
      DumpBlock(Data);
      ghost var p4, s4 := out, status;
      WriteSizes();
      ghost var p5, s5 := out, status;
      DumpBlock(DumpInteger(TestInteger));
      ghost var p6, s6 := out, status;
      DumpBlock(TestNumber);
      ghost var i := DumpInteger(TestInteger);
      WroteBoth(p5, s5, p6, s6, out, status, i, TestNumber);
      WroteBoth(p4, s4, p5, s5, out, status, Sizes, i + TestNumber);
      WroteBoth(p3, s3, p4, s4, out, status, Data, Sizes + (i + TestNumber));
      WroteBoth(p1, s1, p2, s2, p3, s3, [Version], [FormatByte]);
      assert [Version] + [FormatByte] == [Version, FormatByte];
      WroteBoth(p1, s1, p3, s3, out, status, [Version, FormatByte], Data + (Sizes + (i + TestNumber)));
      WroteBoth(o, s, p1, s1, out, status, [Escape] + Signature, [Version, FormatByte] + (Data + (Sizes + (i + TestNumber))));
      Assoc3([Escape], Signature, [Version, FormatByte] + (Data + (Sizes + (i + TestNumber))));
    }

    method WriteSizes()
      requires Valid()
      modifies this
      ensures Valid() && Wrote(old(out), old(status), out, status, Sizes)
    {
      hide Wrote;
      ghost var o, s := out, status;
      WroteNothing(out, status);
      for i := 0 to |Sizes|
        invariant Valid() && Wrote(o, s, out, status, Sizes[..i])
      {
        ghost var p, t := out, status;
        DumpByte(Sizes[i]);
        WroteBoth(o, s, p, t, out, status, Sizes[..i], [Sizes[i]]);
        assert Sizes[..i + 1] == Sizes[..i] + [Sizes[i]];
      }
      assert Sizes[..|Sizes|] == Sizes;
    }
  }

  lemma Assoc3(a: seq<Octet>, b: seq<Octet>, c: seq<Octet>)
    ensures (a + b) + c == a + (b + c)
  {
  }

  lemma {:induction false} ConcatOne<T>(f: T -> seq<Octet>, xs: seq<T>, i: nat)
    requires i < |xs|
    ensures Concat(f, xs[..i + 1]) == Concat(f, xs[..i]) + f(xs[i])
  {
    if i == 0 {
      assert xs[..1] == [xs[0]] && xs[..1][1..] == [];
      assert Concat(f, xs[..1][1..]) == [];
      assert f(xs[0]) + [] == f(xs[0]) == [] + f(xs[0]);
    } else {
      ConcatOne(f, xs[1..], i - 1);
      assert xs[..i + 1][1..] == xs[1..][..i] && xs[..i][1..] == xs[1..][..i - 1];
      Assoc3(f(xs[0]), Concat(f, xs[..i][1..]), f(xs[i]));
    }
  }

  lemma {:induction false} ProtosOne(ps: seq<Proto>, i: nat, psource: Option<Str>, strip: bool)
    requires i < |ps|
    ensures DumpProtos(ps[..i + 1], psource, strip) == DumpProtos(ps[..i], psource, strip) + DumpFunction(ps[i], psource, strip)
  {
    hide DumpFunction;
    if i == 0 {
      assert ps[..1] == [ps[0]] && ps[..1][1..] == [];
      assert DumpProtos(ps[..1][1..], psource, strip) == [];
      assert DumpFunction(ps[0], psource, strip) + [] == DumpFunction(ps[0], psource, strip);
    } else {
      ProtosOne(ps[1..], i - 1, psource, strip);
      assert ps[..i + 1][1..] == ps[1..][..i] && ps[..i][1..] == ps[1..][..i - 1];
      Assoc3(DumpFunction(ps[0], psource, strip), DumpProtos(ps[..i][1..], psource, strip), DumpFunction(ps[i], psource, strip));
    }
  }

  /** `luaU_dump`: with status zero the whole chunk was written, otherwise a
      beginning of it; a writer that never complains gets the whole chunk. */
  method WriteChunk(f: Proto, strip: bool, answers: seq<int>) returns (d: DumpState)
    ensures fresh(d) && (d.status == 0 || d.status in answers)
    ensures d.status == 0 ==> d.out == Dump(f, strip) && ChunkIs(f, strip, d.out)
    ensures d.status != 0 ==> d.out <= Dump(f, strip)
  {
    hide DumpHeader, DumpFunction, ChunkIs;
    ChunkIsDumped(f, strip, Dump(f, strip));
    d := new DumpState(strip, answers);
    d.WriteHeader();
    ghost var p1, s1 := d.out, d.status;
    d.DumpByte(|f.upvalues| % 256);
    ghost var p2, s2 := d.out, d.status;
    d.WriteFunction(f, None);
    ghost var n, b := [|f.upvalues| % 256], DumpFunction(f, None, strip);
    WroteBoth(p1, s1, p2, s2, d.out, d.status, n, b);
    WroteBoth([], 0, p1, s1, d.out, d.status, DumpHeader(), n + b);
  }
}
