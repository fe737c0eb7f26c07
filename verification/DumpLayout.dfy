/** The bytes of a precompiled chunk, described place by place. */
module DumpLayout {
  import opened PackNumber
  import opened Powers
  import opened DumpFormat
  import opened PackMeaning

  // ---- the parts ----

  /** `b` holds `n` in `size` bytes, the least significant first. */
  predicate Sized(b: seq<Octet>, size: nat, n: int) { |b| == size && Complement(b, n, false) }

  /** A string has its length and one before it, in a byte below 255, or in eight bytes
      after a 255; no string is a zero. */
  predicate StringIs(s: Option<Str>, b: seq<Octet>) {
    match s
    case None => b == [0]
    case Some(t) =>
      if |t| < 254 then b != [] && b[0] == |t| + 1 && b[1..] == t
      else |b| >= 9 && b[0] == 255 && Sized(b[1..9], 8, |t| + 1) && b[9..] == t
  }

  /** A constant has its type before it. */
  predicate ConstantIs(c: Constant, b: seq<Octet>) {
    b != [] &&
    match c
    case Nil => b == [0]
    case Bool(x) => b == [1, x]
    case Flt(bits) => b[0] == 3 && b[1..] == bits
    case Integral(n) => b[0] == 19 && Sized(b[1..], 8, n)
    case Text(s) => b[0] == (if |s| <= 40 then 4 else 20) && StringIs(Some(s), b[1..])
  }

  predicate UpvalueIs(u: Upvalue, b: seq<Octet>) { b == [u.instack, u.idx] }

  /** Where the parts of something begin. */
  datatype Bounds = Bounds(a: nat, b: nat, c: nat, d: nat, e: nat)

  ghost predicate LocVarIs(v: LocVar, b: seq<Octet>) {
    exists n: nat :: LocVarCut(v, b, n)
  }

  predicate LocVarCut(v: LocVar, b: seq<Octet>, n: nat) {
    |b| == n + 8 && StringIs(v.name, b[..n]) && Sized(b[n..n + 4], 4, v.startpc) && Sized(b[n + 4..], 4, v.endpc)
  }

  /** Items one after the other. */
  ghost predicate Row<T>(fits: (T, seq<Octet>) -> bool, xs: seq<T>, b: seq<Octet>) {
    if xs == [] then b == [] else exists n: nat :: n <= |b| && fits(xs[0], b[..n]) && Row(fits, xs[1..], b[n..])
  }

  /** Their number, and the items. */
  ghost predicate Vec<T>(fits: (T, seq<Octet>) -> bool, xs: seq<T>, b: seq<Octet>) {
    |b| >= 4 && Sized(b[..4], 4, |xs|) && Row(fits, xs, b[4..])
  }

  /** Source, the lines of the definition, parameters, vararg flag and stack size. */
  predicate HeadCut(h: Head, b: seq<Octet>, n: nat) {
    && |b| == n + 11 && StringIs(h.source, b[..n])
    && Sized(b[n..n + 4], 4, h.linedefined) && Sized(b[n + 4..n + 8], 4, h.lastlinedefined)
    && b[n + 8] == h.numparams && b[n + 9] == h.isVararg && b[n + 10] == h.maxstack
  }

  ghost predicate HeadIs(h: Head, b: seq<Octet>) { exists n: nat :: HeadCut(h, b, n) }

  // ---- they are what is dumped ----

  lemma SizedIs(b: seq<Octet>, size: nat, n: int, m: nat)
    requires m < Pow256(size) && m == n % Pow256(size)
    ensures Sized(b, size, n) <==> b == Bytes(m, size)
  {
    hide Pow256, Bytes, Complement, Value;
    ComplementIs(b, n);
    BytesAre(b, m, size);
    ModIsInt(m, Pow256(size), 0, m);
  }

  lemma IntIs(n: Int32, b: seq<Octet>)
    ensures Sized(b, 4, n) <==> b == DumpInt(n)
  {
    hide Pow256, Bytes, Complement;
    PowValues();
    var m := if n < 0 then n + 0x1_0000_0000 else n;
    ModIsInt(n, 0x1_0000_0000, if n < 0 then -1 else 0, m);
    SizedIs(b, 4, n, m);
  }

  lemma WordIs(n: Word, b: seq<Octet>)
    ensures Sized(b, 4, n) <==> b == DumpWord(n)
  {
    hide Pow256, Bytes, Complement;
    PowValues();
    SizedIs(b, 4, n, n);
  }

  lemma IntegerIs(n: Integer, b: seq<Octet>)
    ensures Sized(b, 8, n) <==> b == DumpInteger(n)
  {
    hide Pow256, Bytes, Complement;
    PowValues();
    ModIsInt(n, W, if n < 0 then -1 else 0, Unsigned(n));
    SizedIs(b, 8, n, Unsigned(n));
  }

  lemma StringIsDumped(s: Option<Str>, b: seq<Octet>)
    ensures StringIs(s, b) <==> b == DumpString(s)
  {
    hide Pow256, Bytes, Sized;
    if s.Some? {
      var t := s.value;
      PowValues();
      if |t| < 254 {
        if b != [] { assert b == [b[0]] + b[1..]; }
      } else {
        if |b| >= 9 {
          SizedIs(b[1..9], 8, |t| + 1, |t| + 1);
          assert b == [b[0]] + b[1..9] + b[9..];
        }
        var d := DumpString(s);
        assert d[1..9] == Bytes(|t| + 1, 8) && d[9..] == t;
      }
    }
  }

  lemma ConstantIsDumped(c: Constant, b: seq<Octet>)
    ensures ConstantIs(c, b) <==> b == DumpConstant(c)
  {
    hide Sized, StringIs, DumpString, DumpInteger;
    if b != [] { assert b == [b[0]] + b[1..]; }
    match c
    case Integral(n) => if b != [] { IntegerIs(n, b[1..]); }
    case Text(s) => if b != [] { StringIsDumped(Some(s), b[1..]); }
    case _ =>
    assert DumpConstant(c)[1..] == match c
      case Nil => []
      case Bool(b) => [b]
      case Flt(bits) => bits
      case Integral(n) => DumpInteger(n)
      case Text(s) => DumpString(Some(s));
  }

  lemma LocVarIsDumped(v: LocVar, b: seq<Octet>)
    ensures LocVarIs(v, b) <==> b == DumpLocVar(v)
  {
    hide Sized, StringIs, DumpString, DumpInt;
    if n: nat :| LocVarCut(v, b, n) {
      StringIsDumped(v.name, b[..n]);
      IntIs(v.startpc, b[n..n + 4]);
      IntIs(v.endpc, b[n + 4..]);
      assert b == b[..n] + (b[n..n + 4] + b[n + 4..]);
    }
    if b == DumpLocVar(v) {
      var n := |DumpString(v.name)|;
      assert b[..n] == DumpString(v.name) && b[n..n + 4] == DumpInt(v.startpc) && b[n + 4..] == DumpInt(v.endpc);
      StringIsDumped(v.name, b[..n]);
      IntIs(v.startpc, b[n..n + 4]);
      IntIs(v.endpc, b[n + 4..]);
      assert LocVarCut(v, b, n);
    }
  }

  lemma HeadIsDumped(h: Head, b: seq<Octet>)
    ensures HeadIs(h, b) <==> b == DumpHead(h)
  {
    hide Sized, StringIs, DumpString, DumpInt;
    if n: nat :| HeadCut(h, b, n) {
      StringIsDumped(h.source, b[..n]);
      IntIs(h.linedefined, b[n..n + 4]);
      IntIs(h.lastlinedefined, b[n + 4..n + 8]);
      assert b == b[..n] + (b[n..n + 4] + (b[n + 4..n + 8] + [b[n + 8], b[n + 9], b[n + 10]]));
    }
    if b == DumpHead(h) {
      var n := |DumpString(h.source)|;
      assert b[..n] == DumpString(h.source) && b[n..n + 4] == DumpInt(h.linedefined) && b[n + 4..n + 8] == DumpInt(h.lastlinedefined);
      StringIsDumped(h.source, b[..n]);
      IntIs(h.linedefined, b[n..n + 4]);
      IntIs(h.lastlinedefined, b[n + 4..n + 8]);
      assert HeadCut(h, b, n);
    }
  }

  /** A row of items that are what `f` makes of them. */
  lemma {:induction false} RowIs<T(!new)>(fits: (T, seq<Octet>) -> bool, f: T -> seq<Octet>, xs: seq<T>, b: seq<Octet>)
    requires forall x, c :: fits(x, c) <==> c == f(x)
    ensures Row(fits, xs, b) <==> b == Concat(f, xs)
    decreases |xs|
  {
    if xs != [] {
      var n := |f(xs[0])|;
      if n <= |b| {
        RowIs(fits, f, xs[1..], b[n..]);
        assert b == b[..n] + b[n..];
      }
      if b == Concat(f, xs) { assert b[..n] == f(xs[0]) && b[n..] == Concat(f, xs[1..]); }
    }
  }

  lemma VecIs<T(!new)>(fits: (T, seq<Octet>) -> bool, f: T -> seq<Octet>, xs: Vector<T>, b: seq<Octet>)
    requires forall x, c :: fits(x, c) <==> c == f(x)
    ensures Vec(fits, xs, b) <==> b == DumpVector(f, xs)
  {
    hide Sized, Row, DumpInt, Concat;
    if |b| >= 4 {
      IntIs(|xs|, b[..4]);
      RowIs(fits, f, xs, b[4..]);
      assert b == b[..4] + b[4..];
    }
    if b == DumpVector(f, xs) { assert b[..4] == DumpInt(|xs|) && b[4..] == Concat(f, xs); }
  }

  // ---- functions and chunks ----

  /** Lines, local variables and names of upvalues; three empty vectors if stripped. */
  ghost predicate DebugCut(p: Proto, strip: bool, b: seq<Octet>, m: nat, n: nat) {
    && m <= n <= |b|
    && Vec((x: Int32, c) => Sized(c, 4, x), if strip then [] else p.lineinfo, b[..m])
    && Vec(LocVarIs, if strip then [] else p.locvars, b[m..n])
    && Vec((u: Upvalue, c) => StringIs(u.name, c), if strip then [] else p.upvalues, b[n..])
  }

  ghost predicate DebugIs(p: Proto, strip: bool, b: seq<Octet>) {
    exists m: nat, n: nat :: DebugCut(p, strip, b, m, n)
  }

  /** Head, code, constants, upvalues, the nested functions with their number before
      them, debug information. The source is left out if it is stripped or that of the
      enclosing function. */
  ghost predicate FunctionIs(p: Proto, psource: Option<Str>, strip: bool, b: seq<Octet>)
    decreases p, 1
  {
    exists c: Bounds :: FunctionCut(p, psource, strip, b, c)
  }

  ghost predicate FunctionCut(p: Proto, psource: Option<Str>, strip: bool, b: seq<Octet>, c: Bounds)
    decreases p, 0
  {
    && c.a <= c.b <= c.c <= c.d && c.d + 4 <= c.e <= |b|
    && HeadIs(p.head.(source := if strip || p.head.source == psource then None else p.head.source), b[..c.a])
    && Vec((x: Word, y) => Sized(y, 4, x), p.code, b[c.a..c.b])
    && Vec(ConstantIs, p.k, b[c.b..c.c])
    && Vec(UpvalueIs, p.upvalues, b[c.c..c.d])
    && Sized(b[c.d..c.d + 4], 4, |p.protos|) && FunctionsAre(p.protos, p.head.source, strip, b[c.d + 4..c.e])
    && DebugIs(p, strip, b[c.e..])
  }

  ghost predicate FunctionsAre(ps: seq<Proto>, psource: Option<Str>, strip: bool, b: seq<Octet>)
    decreases ps
  {
    if ps == [] then b == []
    else exists n: nat :: n <= |b| && FunctionIs(ps[0], psource, strip, b[..n]) && FunctionsAre(ps[1..], psource, strip, b[n..])
  }

  /** Signature, version and format; bytes that a transfer as text would spoil; the
      sizes of `int`, `size_t`, an instruction, an integer and a float; 0x5678 as an
      integer and 370.5 as a float. */
  const Header: seq<Octet> :=
    [0x1B, 0x4C, 0x75, 0x61] + [0x53, 0x00] + [0x19, 0x93, 0x0D, 0x0A, 0x1A, 0x0A] + [4, 8, 4, 8, 8]
    + [0x78, 0x56, 0, 0, 0, 0, 0, 0] + [0, 0, 0, 0, 0, 0x28, 0x77, 0x40]

  /** The header, the number of upvalues, and the function. */
  ghost predicate ChunkIs(p: Proto, strip: bool, b: seq<Octet>) {
    |b| >= 34 && b[..33] == Header && b[33] == |p.upvalues| % 256 && FunctionIs(p, None, strip, b[34..])
  }

  lemma {:induction false} ConcatNames(us: seq<Upvalue>)
    ensures Concat(DumpString, Names(us)) == Concat((u: Upvalue) => DumpString(u.name), us)
  {
    if us != [] {
      ConcatNames(us[1..]);
      assert Names(us)[1..] == Names(us[1..]);
    }
  }

  lemma IntsFit(xs: Vector<Int32>, b: seq<Octet>)
    ensures Vec((x: Int32, c) => Sized(c, 4, x), xs, b) <==> b == DumpVector(DumpInt, xs)
  {
    hide Vec, Sized;
    forall x: Int32, c ensures Sized(c, 4, x) <==> c == DumpInt(x) { IntIs(x, c); }
    VecIs((x: Int32, c) => Sized(c, 4, x), DumpInt, xs, b);
  }

  lemma WordsFit(xs: Vector<Word>, b: seq<Octet>)
    ensures Vec((x: Word, c) => Sized(c, 4, x), xs, b) <==> b == DumpVector(DumpWord, xs)
  {
    hide Vec, Sized;
    forall x: Word, c ensures Sized(c, 4, x) <==> c == DumpWord(x) { WordIs(x, c); }
    VecIs((x: Word, c) => Sized(c, 4, x), DumpWord, xs, b);
  }

  lemma ConstantsFit(xs: Vector<Constant>, b: seq<Octet>)
    ensures Vec(ConstantIs, xs, b) <==> b == DumpVector(DumpConstant, xs)
  {
    hide Vec, ConstantIs;
    forall x: Constant, c ensures ConstantIs(x, c) <==> c == DumpConstant(x) { ConstantIsDumped(x, c); }
    VecIs(ConstantIs, DumpConstant, xs, b);
  }

  lemma UpvaluesFit(xs: Vector<Upvalue>, b: seq<Octet>)
    ensures Vec(UpvalueIs, xs, b) <==> b == DumpVector(DumpUpvalue, xs)
  {
    hide Vec;
    VecIs(UpvalueIs, DumpUpvalue, xs, b);
  }

  lemma LocVarsFit(xs: Vector<LocVar>, b: seq<Octet>)
    ensures Vec(LocVarIs, xs, b) <==> b == DumpVector(DumpLocVar, xs)
  {
    hide Vec, LocVarIs;
    forall x: LocVar, c ensures LocVarIs(x, c) <==> c == DumpLocVar(x) { LocVarIsDumped(x, c); }
    VecIs(LocVarIs, DumpLocVar, xs, b);
  }

  lemma NamesFit(us: Vector<Upvalue>, b: seq<Octet>)
    ensures Vec((u: Upvalue, c) => StringIs(u.name, c), us, b) <==> b == DumpVector(DumpString, Names(us))
  {
    hide Vec, StringIs, DumpString;
    forall u: Upvalue, c ensures StringIs(u.name, c) <==> c == DumpString(u.name) { StringIsDumped(u.name, c); }
    VecIs((u: Upvalue, c) => StringIs(u.name, c), (u: Upvalue) => DumpString(u.name), us, b);
    ConcatNames(us);
  }

  lemma DebugIsDumped(p: Proto, strip: bool, b: seq<Octet>)
    ensures DebugIs(p, strip, b) <==> b == DumpDebug(DebugOf(p, strip))
  {
    hide Vec, DumpVector, StringIs, LocVarIs, Sized;
    var ls, vs, us := if strip then [] else p.lineinfo, if strip then [] else p.locvars, if strip then [] else p.upvalues;
    var x, y, z := DumpVector(DumpInt, ls), DumpVector(DumpLocVar, vs), DumpVector(DumpString, Names(us));
    assert DumpDebug(DebugOf(p, strip)) == x + (y + z) by { assert Names([]) == []; }
    if m: nat, n: nat :| DebugCut(p, strip, b, m, n) {
      IntsFit(ls, b[..m]);
      LocVarsFit(vs, b[m..n]);
      NamesFit(us, b[n..]);
      assert b == b[..m] + (b[m..n] + b[n..]);
    }
    if b == x + (y + z) {
      var m, n := |x|, |x| + |y|;
      assert b[..m] == x && b[m..n] == y && b[n..] == z;
      IntsFit(ls, b[..m]);
      LocVarsFit(vs, b[m..n]);
      NamesFit(us, b[n..]);
      assert DebugCut(p, strip, b, m, n);
    }
  }

  /** The six parts of a function, as they are dumped. */
  predicate Parts(b: seq<Octet>, c: Bounds, h: seq<Octet>, x: seq<Octet>, k: seq<Octet>, u: seq<Octet>, n: seq<Octet>, f: seq<Octet>, d: seq<Octet>) {
    && c.a <= c.b <= c.c <= c.d && c.d + 4 <= c.e <= |b|
    && b[..c.a] == h && b[c.a..c.b] == x && b[c.b..c.c] == k && b[c.c..c.d] == u && b[c.d..c.d + 4] == n && b[c.d + 4..c.e] == f && b[c.e..] == d
  }

  lemma PartsAre(b: seq<Octet>, c: Bounds, h: seq<Octet>, x: seq<Octet>, k: seq<Octet>, u: seq<Octet>, n: seq<Octet>, f: seq<Octet>, d: seq<Octet>)
    requires Parts(b, c, h, x, k, u, n, f, d)
    ensures b == h + (x + (k + (u + ((n + f) + d))))
  {
    assert b[c.d..c.e] == n + f;
    assert b[c.d..] == b[c.d..c.e] + b[c.e..];
    assert b[c.c..] == b[c.c..c.d] + b[c.d..];
    assert b[c.b..] == b[c.b..c.c] + b[c.c..];
    assert b[c.a..] == b[c.a..c.b] + b[c.b..];
    assert b == b[..c.a] + b[c.a..];
  }

  lemma Peel(b: seq<Octet>, at: nat, x: seq<Octet>, rest: seq<Octet>)
    requires at <= |b| && b[at..] == x + rest
    ensures at + |x| <= |b| && b[at..at + |x|] == x && b[at + |x|..] == rest
  {
    assert b[at..at + |x|] == b[at..][..|x|] && b[at + |x|..] == b[at..][|x|..];
  }

  lemma Front(b: seq<Octet>, h: seq<Octet>, x: seq<Octet>, k: seq<Octet>, rest: seq<Octet>)
    requires b == h + (x + (k + rest))
    ensures var i := |h|; var j := i + |x|; var l := j + |k|;
      l <= |b| && b[..i] == h && b[i..j] == x && b[j..l] == k && b[l..] == rest
  {
    assert b[0..] == b;
    Peel(b, 0, h, x + (k + rest));
    Peel(b, |h|, x, k + rest);
    Peel(b, |h| + |x|, k, rest);
  }

  lemma Back(b: seq<Octet>, at: nat, u: seq<Octet>, n: seq<Octet>, f: seq<Octet>, d: seq<Octet>)
    requires at <= |b| && b[at..] == u + ((n + f) + d)
    ensures var i := at + |u|; var j := i + |n|; var l := j + |f|;
      l <= |b| && b[at..i] == u && b[i..j] == n && b[j..l] == f && b[l..] == d
  {
    Peel(b, at, u, (n + f) + d);
    assert (n + f) + d == n + (f + d);
    Peel(b, at + |u|, n, f + d);
    Peel(b, at + |u| + |n|, f, d);
  }

  lemma PartsOf(b: seq<Octet>, h: seq<Octet>, x: seq<Octet>, k: seq<Octet>, u: seq<Octet>, n: seq<Octet>, f: seq<Octet>, d: seq<Octet>)
    requires |n| == 4 && b == h + (x + (k + (u + ((n + f) + d))))
    ensures Parts(b, CutOf(h, x, k, u, f), h, x, k, u, n, f, d)
  {
    var rest := u + ((n + f) + d);
    Front(b, h, x, k, rest);
    Back(b, |h| + |x| + |k|, u, n, f, d);
  }

  function CutOf(h: seq<Octet>, x: seq<Octet>, k: seq<Octet>, u: seq<Octet>, f: seq<Octet>): Bounds {
    Bounds(|h|, |h| + |x|, |h| + |x| + |k|, |h| + |x| + |k| + |u|, |h| + |x| + |k| + |u| + 4 + |f|)
  }

  /** Cut so, the parts are those that are dumped. */
  lemma {:induction false} CutIsParts(p: Proto, psource: Option<Str>, strip: bool, b: seq<Octet>, c: Bounds)
    ensures FunctionCut(p, psource, strip, b, c) <==>
      Parts(b, c, DumpHead(p.head.(source := DumpedSource(p, psource, strip))), DumpVector(DumpWord, p.code), DumpVector(DumpConstant, p.k),
        DumpVector(DumpUpvalue, p.upvalues), DumpInt(|p.protos|), DumpProtos(p.protos, p.head.source, strip), DumpDebug(DebugOf(p, strip)))
    decreases p, 0
  {
    hide Vec, Sized, HeadIs, DebugIs, DumpVector, DumpHead, DumpInt, DumpProtos, DumpDebug, FunctionsAre;
    if c.a <= c.b <= c.c <= c.d && c.d + 4 <= c.e <= |b| {
      HeadIsDumped(p.head.(source := DumpedSource(p, psource, strip)), b[..c.a]);
      WordsFit(p.code, b[c.a..c.b]);
      ConstantsFit(p.k, b[c.b..c.c]);
      UpvaluesFit(p.upvalues, b[c.c..c.d]);
      IntIs(|p.protos|, b[c.d..c.d + 4]);
      FunctionsAreDumped(p.protos, p.head.source, strip, b[c.d + 4..c.e]);
      DebugIsDumped(p, strip, b[c.e..]);
    }
  }

  /** The layout of a function is what `DumpFunction` writes. */
  lemma {:induction false} FunctionIsDumped(p: Proto, psource: Option<Str>, strip: bool, b: seq<Octet>)
    ensures FunctionIs(p, psource, strip, b) <==> b == DumpFunction(p, psource, strip)
    decreases p, 1
  {
    hide FunctionCut, Parts, DumpVector, DumpHead, DumpInt, DumpProtos, DumpDebug, CutOf;
    var h, x := DumpHead(p.head.(source := DumpedSource(p, psource, strip))), DumpVector(DumpWord, p.code);
    var k, u := DumpVector(DumpConstant, p.k), DumpVector(DumpUpvalue, p.upvalues);
    var n, f, d := DumpInt(|p.protos|), DumpProtos(p.protos, p.head.source, strip), DumpDebug(DebugOf(p, strip));
    if c :| FunctionCut(p, psource, strip, b, c) {
      CutIsParts(p, psource, strip, b, c);
      PartsAre(b, c, h, x, k, u, n, f, d);
    }
    if b == DumpFunction(p, psource, strip) {
      var c := CutOf(h, x, k, u, f);
      PartsOf(b, h, x, k, u, n, f, d);
      CutIsParts(p, psource, strip, b, c);
      assert FunctionCut(p, psource, strip, b, c);
    }
  }

  lemma {:induction false} FunctionsAreDumped(ps: seq<Proto>, psource: Option<Str>, strip: bool, b: seq<Octet>)
    ensures FunctionsAre(ps, psource, strip, b) <==> b == DumpProtos(ps, psource, strip)
    decreases ps
  {
    hide FunctionIs, DumpFunction;
    if ps != [] {
      var d := DumpFunction(ps[0], psource, strip);
      forall n: nat | n <= |b| ensures FunctionIs(ps[0], psource, strip, b[..n]) <==> b[..n] == d { FunctionIsDumped(ps[0], psource, strip, b[..n]); }
      if |d| <= |b| {
        FunctionsAreDumped(ps[1..], psource, strip, b[|d|..]);
        assert b == b[..|d|] + b[|d|..];
      }
      if b == DumpProtos(ps, psource, strip) { assert b[..|d|] == d && b[|d|..] == DumpProtos(ps[1..], psource, strip); }
    }
  }

  lemma HeaderIs()
    ensures DumpHeader() == Header
  {
    hide DumpInteger;
    TestBytes();
    Regroup(Signature, [Version, FormatByte], Data, Sizes, DumpInteger(TestInteger), TestNumber);
    assert [Escape] + Signature == [0x1B, 0x4C, 0x75, 0x61];
  }

  lemma Regroup(a: seq<Octet>, b: seq<Octet>, c: seq<Octet>, d: seq<Octet>, e: seq<Octet>, f: seq<Octet>)
    ensures [Escape] + (a + (b + (c + (d + (e + f))))) == ([Escape] + a) + b + c + d + e + f
  {
  }

  lemma TestBytes()
    ensures DumpInteger(TestInteger) == [0x78, 0x56, 0, 0, 0, 0, 0, 0]
  {
    hide Sized, DumpInteger;
    IntegerIs(TestInteger, [0x78, 0x56, 0, 0, 0, 0, 0, 0]);
    SmallNumber([0x78, 0x56, 0, 0, 0, 0, 0, 0]);
  }

  lemma SmallNumber(b: seq<Octet>)
    requires b == [0x78, 0x56, 0, 0, 0, 0, 0, 0]
    ensures Sized(b, 8, 0x5678)
  {
    hide Pow256, Complement;
    PowValues();
    assert b[1..] == [0x56, 0, 0, 0, 0, 0, 0];
    assert b[1..][1..] == [0, 0, 0, 0, 0, 0];
    ValueEnds(b[1..][1..]);
    ComplementIs(b, 0x5678);
    ModIsInt(0x5678, W, 0, 0x5678);
  }

  /** The layout of a chunk is what `luaU_dump` writes. */
  lemma ChunkIsDumped(p: Proto, strip: bool, b: seq<Octet>)
    ensures ChunkIs(p, strip, b) <==> b == Dump(p, strip)
  {
    hide DumpHeader, FunctionIs, DumpFunction;
    HeaderIs();
    if |b| >= 34 {
      FunctionIsDumped(p, None, strip, b[34..]);
      assert b == b[..33] + ([b[33]] + b[34..]);
    }
    if b == Dump(p, strip) {
      assert b[..33] == Header && b[33..] == [|p.upvalues| % 256] + DumpFunction(p, None, strip);
      assert b[33..][1..] == b[34..];
    }
  }
}
