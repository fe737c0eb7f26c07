/** Undumping a dump gives the prototype back. */
module DumpRoundTrip {
  import opened PackNumber
  import opened Powers
  import opened DumpFormat

  lemma Split<T>(a: seq<T>, b: seq<T>)
    ensures (a + b)[..|a|] == a && (a + b)[|a|..] == b
  {
  }

  lemma WordBack(n: Word, rest: seq<Octet>)
    ensures ParseWord(DumpWord(n) + rest) == Done(n, rest)
  {
    Split(DumpWord(n), rest);
    ValueOfBytes(n, 4);
    PowValues();
    ModIs(n, 0x1_0000_0000, 0, n);
  }

  lemma IntBack(n: Int32, rest: seq<Octet>)
    ensures ParseInt(DumpInt(n) + rest) == Done(n, rest)
  {
    WordBack(if n < 0 then n + 0x1_0000_0000 else n, rest);
  }

  lemma SizeBack(n: nat, rest: seq<Octet>)
    requires n < W
    ensures ParseSize(Bytes(n, 8) + rest) == Done(n, rest)
  {
    Split(Bytes(n, 8), rest);
    ValueOfBytes(n, 8);
    PowValues();
    ModIs(n, W, 0, n);
  }

  lemma IntegerBack(n: Integer, rest: seq<Octet>)
    ensures ParseInteger(DumpInteger(n) + rest) == Done(n, rest)
  {
    SizeBack(Unsigned(n), rest);
  }

  /** All three forms: no string, up to 253 bytes, and more. */
  lemma StringBack(s: Option<Str>, rest: seq<Octet>)
    ensures ParseString(DumpString(s) + rest) == Done(s, rest)
  {
    hide ParseSize, Bytes;
    var b := DumpString(s) + rest;
    if s.Some? {
      var t := s.value;
      Split(t, rest);
      if |t| + 1 < 0xFF {
        assert b[1..] == t + rest;
      } else {
        assert b[0] == 0xFF && b[1..] == Bytes(|t| + 1, 8) + (t + rest);
        SizeBack(|t| + 1, t + rest);
      }
    }
  }

  lemma ConstantBack(c: Constant, rest: seq<Octet>)
    ensures ParseConstant(DumpConstant(c) + rest) == Done(c, rest)
  {
    hide ParseInteger, ParseString, DumpInteger, DumpString;
    var b := DumpConstant(c) + rest;
    assert ParseByte(b) == Done(Tag(c), b[1..]);
    match c
    case Nil => assert b[1..] == rest;
    case Bool(x) => assert b[1..] == [x] + rest;
    case Flt(x) => assert b[1..] == x + rest; Split(x, rest);
    case Integral(n) => assert b[1..] == DumpInteger(n) + rest; IntegerBack(n, rest);
    case Text(s) => assert b[1..] == DumpString(Some(s)) + rest; StringBack(Some(s), rest);
  }

  lemma UpvalueBack(u: Upvalue, rest: seq<Octet>)
    ensures ParseUpvalue(DumpUpvalue(u) + rest) == Done(u.(name := None), rest)
  {
    assert (DumpUpvalue(u) + rest)[2..] == rest;
  }

  lemma LocVarBack(v: LocVar, rest: seq<Octet>)
    ensures ParseLocVar(DumpLocVar(v) + rest) == Done(v, rest)
  {
    hide ParseString, DumpString, ParseInt, DumpInt;
    var a, b := DumpInt(v.startpc), DumpInt(v.endpc);
    assert DumpLocVar(v) + rest == DumpString(v.name) + (a + (b + rest));
    StringBack(v.name, a + (b + rest));
    IntBack(v.startpc, b + rest);
    IntBack(v.endpc, rest);
  }

  /** `g` reads what `f` writes of `x`, up to `view`. */
  ghost predicate Reads<T(!new), U(!new)>(f: T -> seq<Octet>, g: seq<Octet> -> Parsed<U>, view: T -> U, xs: seq<T>) {
    forall i, rest: seq<Octet> | 0 <= i < |xs| :: g(f(xs[i]) + rest) == Done(view(xs[i]), rest)
  }

  function Views<T, U>(view: T -> U, xs: seq<T>): (us: seq<U>)
    ensures |us| == |xs| && forall i | 0 <= i < |xs| :: us[i] == view(xs[i])
  {
    seq(|xs|, i requires 0 <= i < |xs| => view(xs[i]))
  }

  lemma {:induction false} ManyBack<T(!new), U(!new)>(f: T -> seq<Octet>, g: seq<Octet> -> Parsed<U>, view: T -> U, xs: seq<T>, rest: seq<Octet>)
    requires Shrinks(g) && Reads(f, g, view, xs)
    ensures Many(g, |xs|, Concat(f, xs) + rest) == Done(Views(view, xs), rest)
    decreases |xs|
  {
    hide Views;
    if xs == [] {
      assert Concat(f, xs) + rest == rest;
    } else {
      var more := Concat(f, xs[1..]) + rest;
      assert Concat(f, xs) + rest == f(xs[0]) + more;
      assert g(f(xs[0]) + more) == Done(view(xs[0]), more);
      assert forall i | 0 <= i < |xs[1..]| :: xs[1..][i] == xs[i + 1];
      ManyBack(f, g, view, xs[1..], rest);
      assert Views(view, xs) == [view(xs[0])] + Views(view, xs[1..]);
    }
  }

  lemma VectorBack<T(!new), U(!new)>(f: T -> seq<Octet>, g: seq<Octet> -> Parsed<U>, view: T -> U, xs: Vector<T>, rest: seq<Octet>)
    requires Shrinks(g) && Reads(f, g, view, xs)
    ensures ParseVector(g, DumpVector(f, xs) + rest) == Done(Views(view, xs), rest)
  {
    hide ParseInt, DumpInt, Many;
    assert DumpVector(f, xs) + rest == DumpInt(|xs|) + (Concat(f, xs) + rest);
    IntBack(|xs|, Concat(f, xs) + rest);
    ManyBack(f, g, view, xs, rest);
  }

  lemma CodeBack(xs: Vector<Word>, rest: seq<Octet>)
    ensures ParseVector(ParseWord, DumpVector(DumpWord, xs) + rest) == Done(xs, rest)
  {
    hide ParseVector, DumpVector, ParseWord, DumpWord;
    forall i, rest: seq<Octet> | 0 <= i < |xs| ensures ParseWord(DumpWord(xs[i]) + rest) == Done(xs[i], rest) { WordBack(xs[i], rest); }
    VectorBack(DumpWord, ParseWord, x => x, xs, rest);
    assert Views((x: Word) => x, xs) == xs;
  }

  lemma ConstantsBack(xs: Vector<Constant>, rest: seq<Octet>)
    ensures ParseVector(ParseConstant, DumpVector(DumpConstant, xs) + rest) == Done(xs, rest)
  {
    hide ParseVector, DumpVector, ParseConstant, DumpConstant;
    forall i, rest: seq<Octet> | 0 <= i < |xs| ensures ParseConstant(DumpConstant(xs[i]) + rest) == Done(xs[i], rest) { ConstantBack(xs[i], rest); }
    VectorBack(DumpConstant, ParseConstant, x => x, xs, rest);
    assert Views((x: Constant) => x, xs) == xs;
  }

  lemma IntsBack(xs: Vector<Int32>, rest: seq<Octet>)
    ensures ParseVector(ParseInt, DumpVector(DumpInt, xs) + rest) == Done(xs, rest)
  {
    hide ParseVector, DumpVector, ParseInt, DumpInt;
    forall i, rest: seq<Octet> | 0 <= i < |xs| ensures ParseInt(DumpInt(xs[i]) + rest) == Done(xs[i], rest) { IntBack(xs[i], rest); }
    VectorBack(DumpInt, ParseInt, x => x, xs, rest);
    assert Views((x: Int32) => x, xs) == xs;
  }

  lemma LocVarsBack(xs: Vector<LocVar>, rest: seq<Octet>)
    ensures ParseVector(ParseLocVar, DumpVector(DumpLocVar, xs) + rest) == Done(xs, rest)
  {
    hide ParseVector, DumpVector, ParseLocVar, DumpLocVar;
    forall i, rest: seq<Octet> | 0 <= i < |xs| ensures ParseLocVar(DumpLocVar(xs[i]) + rest) == Done(xs[i], rest) { LocVarBack(xs[i], rest); }
    VectorBack(DumpLocVar, ParseLocVar, x => x, xs, rest);
    assert Views((x: LocVar) => x, xs) == xs;
  }

  lemma NamesBack(xs: Vector<Option<Str>>, rest: seq<Octet>)
    ensures ParseNames(DumpVector(DumpString, xs) + rest) == Done(xs, rest)
  {
    hide ParseVector, ParseNames, DumpVector, ParseString, DumpString;
    forall i, rest: seq<Octet> | 0 <= i < |xs| ensures ParseString(DumpString(xs[i]) + rest) == Done(xs[i], rest) { StringBack(xs[i], rest); }
    VectorBack(DumpString, ParseString, x => x, xs, rest);
    assert Views((x: Option<Str>) => x, xs) == xs;
    NamesAreVector(DumpVector(DumpString, xs) + rest);
  }

  lemma NamesAreVector(s: seq<Octet>)
    requires ParseVector(ParseString, s).Done?
    ensures ParseNames(s) == ParseVector(ParseString, s)
  {
    hide ParseInt, ParseString;
  }

  function Nameless(us: seq<Upvalue>): (r: seq<Upvalue>)
    ensures |r| == |us| && forall i | 0 <= i < |us| :: r[i] == us[i].(name := None)
  {
    Views((u: Upvalue) => u.(name := None), us)
  }

  lemma UpvaluesBack(xs: Vector<Upvalue>, rest: seq<Octet>)
    ensures ParseVector(ParseUpvalue, DumpVector(DumpUpvalue, xs) + rest) == Done(Nameless(xs), rest)
  {
    hide ParseVector, DumpVector, ParseUpvalue, DumpUpvalue;
    forall i, rest: seq<Octet> | 0 <= i < |xs| ensures ParseUpvalue(DumpUpvalue(xs[i]) + rest) == Done(xs[i].(name := None), rest) { UpvalueBack(xs[i], rest); }
    VectorBack(DumpUpvalue, ParseUpvalue, (u: Upvalue) => u.(name := None), xs, rest);
  }

  lemma HeadBack(h: Head, rest: seq<Octet>)
    ensures ParseHead(DumpHead(h) + rest) == Done(h, rest)
  {
    hide ParseString, DumpString, ParseInt, DumpInt;
    var a, b, c := DumpInt(h.linedefined), DumpInt(h.lastlinedefined), [h.numparams, h.isVararg, h.maxstack];
    assert DumpHead(h) + rest == DumpString(h.source) + (a + (b + (c + rest)));
    StringBack(h.source, a + (b + (c + rest)));
    IntBack(h.linedefined, b + (c + rest));
    IntBack(h.lastlinedefined, c + rest);
    assert (c + rest)[3..] == rest;
  }

  lemma DebugBack(d: Debug, rest: seq<Octet>)
    ensures ParseDebug(DumpDebug(d) + rest) == Done(d, rest)
  {
    hide ParseVector, ParseNames, DumpVector, ParseString, DumpString, ParseInt, DumpInt, ParseLocVar, DumpLocVar;
    var a, b, c := DumpVector(DumpInt, d.lineinfo), DumpVector(DumpLocVar, d.locvars), DumpVector(DumpString, d.names);
    assert DumpDebug(d) + rest == a + (b + (c + rest));
    IntsBack(d.lineinfo, b + (c + rest));
    LocVarsBack(d.locvars, c + rest);
    NamesBack(d.names, rest);
  }

  // ---- functions ----

  /** What comes back of `p`, a function within one that had source `psource` and
      has got `lsource`. */
  function Reloaded(p: Proto, psource: Option<Str>, lsource: Option<Str>, strip: bool): Proto
    decreases p
  {
    var source := LoadedSource(p.head.(source := DumpedSource(p, psource, strip)), lsource);
    Proto(p.head.(source := source), p.code, p.k, if strip then Nameless(p.upvalues) else p.upvalues,
          ReloadedAll(p.protos, p.head.source, source, strip), DebugOf(p, strip).lineinfo, DebugOf(p, strip).locvars)
  }

  function ReloadedAll(ps: seq<Proto>, psource: Option<Str>, lsource: Option<Str>, strip: bool): (r: seq<Proto>)
    ensures |r| == |ps|
    decreases ps
  {
    if ps == [] then [] else [Reloaded(ps[0], psource, lsource, strip)] + ReloadedAll(ps[1..], psource, lsource, strip)
  }

  lemma NamedBack(p: Proto, strip: bool)
    ensures |DebugOf(p, strip).names| <= |p.upvalues|
    ensures Named(Nameless(p.upvalues), DebugOf(p, strip).names) == if strip then Nameless(p.upvalues) else p.upvalues
  {
    var us, ns := p.upvalues, DebugOf(p, strip).names;
    forall i | 0 <= i < |us| ensures Named(Nameless(us), ns)[i] == if strip then us[i].(name := None) else us[i] {
    }
  }

  lemma {:induction false} FunctionBack(p: Proto, psource: Option<Str>, lsource: Option<Str>, strip: bool, rest: seq<Octet>)
    ensures ParseFunction(DumpFunction(p, psource, strip) + rest, lsource) == Done(Reloaded(p, psource, lsource, strip), rest)
    decreases p
  {
    hide ParseHead, DumpHead, ParseVector, DumpVector, ParseInt, DumpInt, ParseDebug, DumpDebug, ParseProtos, DumpProtos, Named, Nameless, ReloadedAll;
    var h0 := p.head.(source := DumpedSource(p, psource, strip));
    var b0, b1, b2, b3 := DumpHead(h0), DumpVector(DumpWord, p.code), DumpVector(DumpConstant, p.k), DumpVector(DumpUpvalue, p.upvalues);
    var b4, b5, b6 := DumpInt(|p.protos|), DumpProtos(p.protos, p.head.source, strip), DumpDebug(DebugOf(p, strip));
    Regroup(b0, b1, b2, b3, b4, b5, b6, rest);
    var s6 := b6 + rest;
    HeadBack(h0, b1 + (b2 + (b3 + (b4 + (b5 + s6)))));
    CodeBack(p.code, b2 + (b3 + (b4 + (b5 + s6))));
    ConstantsBack(p.k, b3 + (b4 + (b5 + s6)));
    UpvaluesBack(p.upvalues, b4 + (b5 + s6));
    IntBack(|p.protos|, b5 + s6);
    ProtosBack(p.protos, p.head.source, LoadedSource(h0, lsource), strip, s6);
    DebugBack(DebugOf(p, strip), rest);
    NamedBack(p, strip);
  }

  lemma Regroup(a: seq<Octet>, b: seq<Octet>, c: seq<Octet>, d: seq<Octet>, e: seq<Octet>, f: seq<Octet>, g: seq<Octet>, rest: seq<Octet>)
    ensures a + (b + (c + (d + ((e + f) + g)))) + rest == a + (b + (c + (d + (e + (f + (g + rest))))))
  {
    var u := d + ((e + f) + g);
    assert u + rest == d + (e + (f + (g + rest)));
    assert a + (b + (c + u)) + rest == a + (b + (c + (u + rest)));
  }

  lemma {:induction false} ProtosBack(ps: seq<Proto>, psource: Option<Str>, lsource: Option<Str>, strip: bool, rest: seq<Octet>)
    ensures ParseProtos(|ps|, DumpProtos(ps, psource, strip) + rest, lsource) == Done(ReloadedAll(ps, psource, lsource, strip), rest)
    decreases ps
  {
    hide ParseFunction, DumpFunction, Reloaded;
    if ps == [] {
      assert DumpProtos(ps, psource, strip) + rest == rest;
    } else {
      var more := DumpProtos(ps[1..], psource, strip) + rest;
      assert DumpProtos(ps, psource, strip) + rest == DumpFunction(ps[0], psource, strip) + more;
      FunctionBack(ps[0], psource, lsource, strip, more);
      ProtosBack(ps[1..], psource, lsource, strip, rest);
    }
  }

  // ---- what comes back is the same ----

  /** No function without a source is within one that has a source. */
  predicate Sourced(p: Proto, psource: Option<Str>)
    decreases p
  {
    (p.head.source.None? ==> psource.None?) && AllSourced(p.protos, p.head.source)
  }

  predicate AllSourced(ps: seq<Proto>, psource: Option<Str>)
    decreases ps
  {
    ps == [] || (Sourced(ps[0], psource) && AllSourced(ps[1..], psource))
  }

  /** The prototype without debug information. */
  function Stripped(p: Proto): Proto
    decreases p
  {
    Proto(p.head.(source := None), p.code, p.k, Nameless(p.upvalues), AllStripped(p.protos), [], [])
  }

  function AllStripped(ps: seq<Proto>): (r: seq<Proto>)
    ensures |r| == |ps|
    decreases ps
  {
    if ps == [] then [] else [Stripped(ps[0])] + AllStripped(ps[1..])
  }

  lemma {:induction false} ReloadedStripped(p: Proto, psource: Option<Str>)
    ensures Reloaded(p, psource, None, true) == Stripped(p)
    decreases p
  {
    AllReloadedStripped(p.protos, p.head.source);
  }

  lemma {:induction false} AllReloadedStripped(ps: seq<Proto>, psource: Option<Str>)
    ensures ReloadedAll(ps, psource, None, true) == AllStripped(ps)
    decreases ps
  {
    if ps != [] {
      ReloadedStripped(ps[0], psource);
      AllReloadedStripped(ps[1..], psource);
    }
  }

  lemma {:induction false} ReloadedSame(p: Proto, psource: Option<Str>)
    ensures Reloaded(p, psource, psource, false) == p <==> Sourced(p, psource)
    decreases p
  {
    AllReloadedSame(p.protos, p.head.source);
  }

  lemma {:induction false} AllReloadedSame(ps: seq<Proto>, psource: Option<Str>)
    ensures ReloadedAll(ps, psource, psource, false) == ps <==> AllSourced(ps, psource)
    decreases ps
  {
    hide Reloaded, Sourced;
    if ps != [] {
      ReloadedSame(ps[0], psource);
      AllReloadedSame(ps[1..], psource);
      var r := ReloadedAll(ps, psource, psource, false);
      assert r[0] == Reloaded(ps[0], psource, psource, false) && r[1..] == ReloadedAll(ps[1..], psource, psource, false);
      assert r == ps <==> r[0] == ps[0] && r[1..] == ps[1..] by {
        assert ps == [ps[0]] + ps[1..] && r == [r[0]] + r[1..];
      }
    }
  }

  // ---- chunks ----

  lemma LiteralBack(l: seq<Octet>, rest: seq<Octet>, e: LoadError)
    ensures Literal(l, l + rest, e) == Done(l, rest)
  {
    Split(l, rest);
  }

  lemma SizesBack(i: nat, rest: seq<Octet>)
    requires i <= |Sizes|
    ensures SizesFrom(i, Sizes[i..] + rest) == Done((), rest)
    decreases |Sizes| - i
  {
    if i < |Sizes| {
      assert Sizes[i..] + rest == [Sizes[i]] + (Sizes[i + 1..] + rest);
      SizesBack(i + 1, rest);
    } else {
      assert Sizes[i..] + rest == rest;
    }
  }

  lemma HeaderBack(rest: seq<Octet>)
    ensures (DumpHeader() + rest)[0] == Escape && ParseHeader((DumpHeader() + rest)[1..]) == Done((), rest)
  {
    hide ParseInteger, DumpInteger, ParseBits, SizesFrom, Literal;
    var t := DumpInteger(TestInteger) + (TestNumber + rest);
    var u := Sizes + t;
    var v := Data + u;
    assert (DumpHeader() + rest)[1..] == Signature + ([Version, FormatByte] + v);
    LiteralBack(Signature, [Version, FormatByte] + v, NotAChunk);
    assert ([Version, FormatByte] + v)[1..] == [FormatByte] + v && ([FormatByte] + v)[1..] == v;
    LiteralBack(Data, u, Corrupted);
    assert Sizes[0..] == Sizes;
    SizesBack(0, t);
    IntegerBack(TestInteger, TestNumber + rest);
    Split(TestNumber, rest);
    assert ParseBits(TestNumber + rest) == Done(TestNumber, rest) by { BitsBack(TestNumber, rest); }
  }

  lemma BitsBack(x: Bits, rest: seq<Octet>)
    ensures ParseBits(x + rest) == Done(x, rest)
  {
    Split(x, rest);
  }

  /** Undumping a dump succeeds, whatever follows it, and gives: without debug
      information, the stripped prototype; with it, the same prototype exactly
      when no function without a source is within one that has one. */
  lemma RoundTrip(p: Proto, strip: bool, extra: seq<Octet>)
    ensures var r := Undump(Dump(p, strip) + extra);
      && r.Done? && r.rest == extra
      && (|p.upvalues| < 256 ==> r.v.nups as int == |p.upvalues|)
      && (strip ==> r.v.p == Stripped(p))
      && (!strip ==> (r.v.p == p <==> Sourced(p, None)))
  {
    hide ParseHeader, DumpHeader, ParseFunction, DumpFunction, Reloaded, Stripped, Sourced;
    var n := [|p.upvalues| % 256];
    var body := DumpFunction(p, None, strip) + extra;
    assert Dump(p, strip) + extra == DumpHeader() + (n + body);
    HeaderBack(n + body);
    assert (n + body)[1..] == body;
    FunctionBack(p, None, None, strip, extra);
    if strip { ReloadedStripped(p, None); } else { ReloadedSame(p, None); }
  }

  // ---- every prototype the program can hold ----

  /** What the loader makes of any bytes is `Sourced`: a function without a
      source gets that of the function around it. */
  lemma {:induction false} ParsedSourced(s: seq<Octet>, psource: Option<Str>)
    ensures ParseFunction(s, psource).Done? ==> Sourced(ParseFunction(s, psource).v, psource)
    decreases |s|, 0
  {
    hide ParseHead, ParseVector, ParseInt, ParseDebug, ParseProtos, Named, AllSourced;
    match ParseHead(s)
    case Fail(_) =>
    case Done(h0, s1) =>
      match ParseVector(ParseWord, s1)
      case Fail(_) =>
      case Done(_, s2) =>
        match ParseVector(ParseConstant, s2)
        case Fail(_) =>
        case Done(_, s3) =>
          match ParseVector(ParseUpvalue, s3)
          case Fail(_) =>
          case Done(_, s4) =>
            match ParseInt(s4)
            case Fail(_) =>
            case Done(n, s5) => if n >= 0 { ParsedAllSourced(n, s5, LoadedSource(h0, psource)); }
  }

  lemma {:induction false} ParsedAllSourced(n: nat, s: seq<Octet>, psource: Option<Str>)
    ensures ParseProtos(n, s, psource).Done? ==> AllSourced(ParseProtos(n, s, psource).v, psource)
    decreases |s|, n + 1
  {
    hide ParseFunction, Sourced;
    if n > 0 {
      ParsedSourced(s, psource);
      match ParseFunction(s, psource)
      case Fail(_) =>
      case Done(p, rest) =>
        ParsedAllSourced(n - 1, rest, psource);
        match ParseProtos(n - 1, rest, psource)
        case Fail(_) =>
        case Done(ps, _) => assert ([p] + ps)[1..] == ps;
    }
  }

  /** The compiler gives every function of a chunk the same source. */
  predicate OneSource(p: Proto, source: Str)
    decreases p
  {
    p.head.source == Some(source) && AllOneSource(p.protos, source)
  }

  predicate AllOneSource(ps: seq<Proto>, source: Str)
    decreases ps
  {
    ps == [] || (OneSource(ps[0], source) && AllOneSource(ps[1..], source))
  }

  lemma {:induction false} CompiledSourced(p: Proto, source: Str, psource: Option<Str>)
    requires OneSource(p, source)
    ensures Sourced(p, psource)
    decreases p
  {
    AllCompiledSourced(p.protos, source, p.head.source);
  }

  lemma {:induction false} AllCompiledSourced(ps: seq<Proto>, source: Str, psource: Option<Str>)
    requires AllOneSource(ps, source)
    ensures AllSourced(ps, psource)
    decreases ps
  {
    if ps != [] {
      CompiledSourced(ps[0], source, psource);
      AllCompiledSourced(ps[1..], source, psource);
    }
  }

  /** `p` is the function at the end of the `path` of nested functions. */
  predicate NestedAt(p: Proto, root: Proto, path: seq<nat>)
    decreases |path|
  {
    if path == [] then p == root else path[0] < |root.protos| && NestedAt(p, root.protos[path[0]], path[1..])
  }

  lemma {:induction false} MemberSourced(ps: seq<Proto>, psource: Option<Str>, i: nat)
    requires AllSourced(ps, psource) && i < |ps|
    ensures Sourced(ps[i], psource)
    decreases i
  {
    if i > 0 { MemberSourced(ps[1..], psource, i - 1); }
  }

  /** A nested function may be dumped on its own. */
  lemma {:induction false} NestedSourced(p: Proto, root: Proto, path: seq<nat>, psource: Option<Str>)
    requires Sourced(root, psource) && NestedAt(p, root, path)
    ensures Sourced(p, None)
    decreases |path|
  {
    if path != [] {
      MemberSourced(root.protos, root.head.source, path[0]);
      NestedSourced(p, root.protos[path[0]], path[1..], root.head.source);
    }
  }

  /** The main functions there are: compiled from a text, or loaded. */
  ghost predicate Main(p: Proto) {
    || (exists source :: OneSource(p, source))
    || (exists s :: Undump(s).Done? && Undump(s).v.p == p)
  }

  lemma MainSourced(p: Proto)
    requires Main(p)
    ensures Sourced(p, None)
  {
    hide ParseHeader, ParseFunction, OneSource, Sourced;
    if source :| OneSource(p, source) {
      CompiledSourced(p, source, None);
    } else {
      var s :| Undump(s).Done? && Undump(s).v.p == p;
      LoadedSourced(s);
    }
  }

  lemma LoadedSourced(s: seq<Octet>)
    requires Undump(s).Done?
    ensures Sourced(Undump(s).v.p, None)
  {
    hide ParseHeader, ParseFunction, Sourced;
    var r := ParseHeader(s[1..]);
    ParsedSourced(r.rest[1..], None);
  }

  /** For every function the program can hold, a main function or a nested one,
      undumping its dump gives it back as it was. */
  lemma HeldBack(p: Proto, root: Proto, path: seq<nat>, extra: seq<Octet>)
    requires Main(root) && NestedAt(p, root, path)
    ensures var r := Undump(Dump(p, false) + extra); r.Done? && r.v.p == p && r.rest == extra
  {
    hide Main, Dump, Undump, Sourced;
    MainSourced(root);
    NestedSourced(p, root, path, None);
    RoundTrip(p, false, extra);
  }

  const AtSign: Str := [0x40]

  /** A function with no code. */
  function Hollow(source: Option<Str>, protos: Vector<Proto>): Proto {
    Proto(Head(source, 0, 0, 0, 0, 2), [], [], [], protos, [], [])
  }

  /** Why `RoundTrip` has a condition: a function without a source inside the
      function of a source "@" would come back with that source. No function is
      such (`HeldBack`). */
  lemma UnsourcedIsLost()
    ensures var p := Hollow(Some(AtSign), [Hollow(None, [])]);
      var r := Undump(Dump(p, false)); r.Done? && r.v.p != p
  {
    var inner := Hollow(None, []);
    var p := Hollow(Some(AtSign), [inner]);
    assert !Sourced(inner, p.head.source);
    assert p.protos[0] == inner;
    assert !AllSourced(p.protos, p.head.source);
    assert !Sourced(p, None);
    hide Dump, Undump, Sourced, AllSourced;
    assert Dump(p, false) + [] == Dump(p, false);
    RoundTrip(p, false, []);
  }
}
