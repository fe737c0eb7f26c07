/** Loading a chunk from a reader that hands out the bytes in pieces. */
module UndumpHeap {
  import opened PackNumber
  import opened Powers
  import opened DumpFormat
  import opened DumpLayout
  import opened DumpRoundTrip

  /** The bytes of the pieces; an empty piece ends them. */
  function Flat(pieces: seq<seq<Octet>>): seq<Octet> {
    if pieces == [] || pieces[0] == [] then [] else pieces[0] + Flat(pieces[1..])
  }

  class Zio {
    var pieces: seq<seq<Octet>>
    /** What is left of the current piece. */
    var p: seq<Octet>

    constructor (pieces: seq<seq<Octet>>)
      ensures Remaining() == Flat(pieces)
    {
      this.pieces, p := pieces, [];
    }

    /** All that the reader still has to give. */
    ghost function Remaining(): seq<Octet>
      reads this
    {
      p + Flat(pieces)
    }

    /** `luaZ_fill`: false at the end. */
    method Fill() returns (ok: bool)
      requires p == []
      modifies this
      ensures Remaining() == old(Remaining()) && ok == (p != []) && (!ok ==> Remaining() == [])
    {
      if pieces == [] || pieces[0] == [] { return false; }
      p := pieces[0];
      pieces := pieces[1..];
      return true;
    }

    /** `luaZ_read`: `n` bytes, or all there are and how many are missing. */
    method Read(n: nat) returns (b: seq<Octet>, missing: nat)
      modifies this
      ensures n <= |old(Remaining())| ==> missing == 0 && b == old(Remaining())[..n] && Remaining() == old(Remaining())[n..]
      ensures n > |old(Remaining())| ==> missing == n - |old(Remaining())| && b == old(Remaining()) && Remaining() == []
    {
      b := [];
      missing := n;
      while missing > 0
        invariant |b| + missing == n && b + Remaining() == old(Remaining())
        decreases missing
      {
        if p == [] {
          var ok := Fill();
          if !ok { return; }
        }
        var m := if missing <= |p| then missing else |p|;
        Cut(b, p, Flat(pieces), m);
        b := b + p[..m];
        p := p[m..];
        missing := missing - m;
      }
    }
  }

  lemma Cut(b: seq<Octet>, p: seq<Octet>, f: seq<Octet>, m: nat)
    requires m <= |p|
    ensures (b + p[..m]) + (p[m..] + f) == b + (p + f)
  {
    assert p == p[..m] + p[m..];
  }

  datatype Outcome<+T> = Ok(v: T) | Err(error: LoadError)

  /** What was loaded, and what is left, is what the bytes say. */
  predicate Got<T(==)>(r: Outcome<T>, left: seq<Octet>, p: Parsed<T>) {
    match p
    case Fail(e) => r == Err(e)
    case Done(v, rest) => r == Ok(v) && left == rest
  }

  /** The 4-byte words of a block. */
  function Words(n: nat, b: seq<Octet>): (w: seq<Word>)
    requires |b| == 4 * n
    ensures |w| == n
  {
    if n == 0 then [] else ValueBound(b[..4]); PowValues(); [Value(b[..4])] + Words(n - 1, b[4..])
  }

  /** A block of words is as good as one word after the other. */
  lemma {:induction false} ManyWords(n: nat, s: seq<Octet>)
    ensures Many(ParseWord, n, s) == if 4 * n <= |s| then Done(Words(n, s[..4 * n]), s[4 * n..]) else Fail(Truncated)
    decreases n
  {
    if n > 0 && |s| >= 4 {
      ManyWords(n - 1, s[4..]);
      if 4 * n <= |s| {
        assert s[..4 * n][..4] == s[..4] && s[..4 * n][4..] == s[4..][..4 * (n - 1)];
        assert s[4..][4 * (n - 1)..] == s[4 * n..];
      }
    } else if n == 0 {
      assert s[..0] == [] && s[0..] == s;
    }
  }

  function Ints(w: seq<Word>): (r: seq<Int32>)
    ensures |r| == |w|
  {
    seq(|w|, i requires 0 <= i < |w| => IntOf(w[i]))
  }

  lemma {:induction false} ManyInts(n: nat, s: seq<Octet>)
    ensures Many(ParseInt, n, s) ==
      match Many(ParseWord, n, s) case Fail(e) => Fail(e) case Done(w, rest) => Done(Ints(w), rest)
    decreases n
  {
    hide ParseWord;
    if n > 0 {
      match ParseWord(s)
      case Fail(_) =>
      case Done(x, rest) =>
        ManyInts(n - 1, rest);
        match Many(ParseWord, n - 1, rest)
        case Fail(_) =>
        case Done(w, _) => assert Ints([x] + w) == [IntOf(x)] + Ints(w);
    }
  }

  lemma PutPut<T>(a: seq<T>, b: seq<T>, r: Parsed<seq<T>>)
    ensures Put(a, Put(b, r)) == Put(a + b, r)
    ensures Put([], r) == r
  {
    if r.Done? {
      assert a + (b + r.v) == a + b + r.v && [] + r.v == r.v;
    }
  }

  class LoadState {
    const z: Zio

    constructor (z: Zio)
      ensures this.z == z
    {
      this.z := z;
    }

    /** `LoadBlock` */
    method LoadBlock(n: nat) returns (r: Outcome<seq<Octet>>)
      modifies z
      ensures Got(r, z.Remaining(), Block(n, old(z.Remaining())))
    {
      var b, missing := z.Read(n);
      if missing != 0 { return Err(Truncated); }
      return Ok(b);
    }

    method LoadByte() returns (r: Outcome<Octet>)
      modifies z
      ensures Got(r, z.Remaining(), ParseByte(old(z.Remaining())))
    {
      var b := LoadBlock(1);
      if b.Err? { return Err(b.error); }
      return Ok(b.v[0]);
    }

    method LoadWord() returns (r: Outcome<Word>)
      modifies z
      ensures Got(r, z.Remaining(), ParseWord(old(z.Remaining())))
    {
      hide Value;
      var b := LoadBlock(4);
      if b.Err? { return Err(b.error); }
      ValueBound(b.v);
      PowValues();
      return Ok(Value(b.v));
    }

    method LoadInt() returns (r: Outcome<Int32>)
      modifies z
      ensures Got(r, z.Remaining(), ParseInt(old(z.Remaining())))
    {
      var b := LoadWord();
      if b.Err? { return Err(b.error); }
      return Ok(IntOf(b.v));
    }

    method LoadSize() returns (r: Outcome<nat>)
      modifies z
      ensures Got(r, z.Remaining(), ParseSize(old(z.Remaining())))
      ensures r.Ok? ==> r.v < W
    {
      hide Value;
      var b := LoadBlock(8);
      if b.Err? { return Err(b.error); }
      ValueBound(b.v);
      PowValues();
      return Ok(Value(b.v));
    }

    method LoadInteger() returns (r: Outcome<Integer>)
      modifies z
      ensures Got(r, z.Remaining(), ParseInteger(old(z.Remaining())))
    {
      var b := LoadSize();
      if b.Err? { return Err(b.error); }
      return Ok(Signed(b.v));
    }

    method LoadNumber() returns (r: Outcome<Bits>)
      modifies z
      ensures Got(r, z.Remaining(), ParseBits(old(z.Remaining())))
    {
      var b := LoadBlock(8);
      if b.Err? { return Err(b.error); }
      return Ok(b.v);
    }

    /** `LoadString` */
    method LoadString() returns (r: Outcome<Option<Str>>)
      modifies z
      ensures Got(r, z.Remaining(), ParseString(old(z.Remaining())))
    {
      hide ParseSize;
      var b := LoadByte();
      if b.Err? { return Err(b.error); }
      var size: nat := b.v;
      if size == 0xFF {
        var n := LoadSize();
        if n.Err? { return Err(n.error); }
        size := n.v;
      }
      if size == 0 { return Ok(None); }
      var s := LoadBlock(size - 1);
      if s.Err? { return Err(s.error); }
      return Ok(Some(s.v));
    }

    /** `LoadCode` */
    method LoadCode() returns (r: Outcome<Vector<Word>>)
      modifies z
      ensures Got(r, z.Remaining(), ParseVector(ParseWord, old(z.Remaining())))
    {
      hide ParseInt, ParseWord, Many, Words;
      var n := LoadInt();
      if n.Err? { return Err(n.error); }
      if n.v < 0 { return Err(TooBig); }
      ManyWords(n.v, z.Remaining());
      var size: int := n.v;
      var b := LoadBlock(4 * size);
      if b.Err? { return Err(b.error); }
      return Ok(Words(n.v, b.v));
    }

    method LoadLines() returns (r: Outcome<Vector<Int32>>)
      modifies z
      ensures Got(r, z.Remaining(), ParseVector(ParseInt, old(z.Remaining())))
    {
      hide ParseInt, ParseWord, Many, Words;
      var n := LoadInt();
      if n.Err? { return Err(n.error); }
      if n.v < 0 { return Err(TooBig); }
      ManyInts(n.v, z.Remaining());
      ManyWords(n.v, z.Remaining());
      var size: int := n.v;
      var b := LoadBlock(4 * size);
      if b.Err? { return Err(b.error); }
      return Ok(Ints(Words(n.v, b.v)));
    }

    method LoadConstant() returns (r: Outcome<Constant>)
      modifies z
      ensures Got(r, z.Remaining(), ParseConstant(old(z.Remaining())))
    {
      hide ParseString, ParseInteger, ParseBits;
      var t := LoadByte();
      if t.Err? { return Err(t.error); }
      if t.v == TBOOLEAN {
        var b := LoadByte();
        if b.Err? { return Err(b.error); }
        return Ok(Bool(b.v));
      } else if t.v == TNUMFLT {
        var x := LoadNumber();
        if x.Err? { return Err(x.error); }
        return Ok(Flt(x.v));
      } else if t.v == TNUMINT {
        var n := LoadInteger();
        if n.Err? { return Err(n.error); }
        return Ok(Integral(n.v));
      } else if t.v == TSHRSTR || t.v == TLNGSTR {
        var s := LoadString();
        if s.Err? { return Err(s.error); }
        if s.v.None? { return Err(Undefined); }
        return Ok(Text(s.v.value));
      }
      return Ok(Nil);
    }

    /** `LoadConstants` */
    method LoadConstants() returns (r: Outcome<Vector<Constant>>)
      modifies z
      ensures Got(r, z.Remaining(), ParseVector(ParseConstant, old(z.Remaining())))
    {
      hide ParseInt, ParseConstant;
      var n := LoadInt();
      if n.Err? { return Err(n.error); }
      if n.v < 0 { return Err(TooBig); }
      var xs: seq<Constant> := [];
      ghost var all := Many(ParseConstant, n.v, z.Remaining());
      PutPut([], [], all);
      for i := 0 to n.v
        invariant |xs| == i && all == Put(xs, Many(ParseConstant, n.v - i, z.Remaining()))
      {
        ghost var s := z.Remaining();
        var x := LoadConstant();
        if x.Err? { return Err(x.error); }
        PutPut(xs, [x.v], Many(ParseConstant, n.v - i - 1, z.Remaining()));
        xs := xs + [x.v];
      }
      assert xs + [] == xs;
      return Ok(xs);
    }

    method LoadUpvalue() returns (r: Outcome<Upvalue>)
      modifies z
      ensures Got(r, z.Remaining(), ParseUpvalue(old(z.Remaining())))
    {
      var a := LoadByte();
      if a.Err? { return Err(a.error); }
      var b := LoadByte();
      if b.Err? { return Err(b.error); }
      return Ok(Upvalue(a.v, b.v, None));
    }

    /** `LoadUpvalues` */
    method LoadUpvalues() returns (r: Outcome<Vector<Upvalue>>)
      modifies z
      ensures Got(r, z.Remaining(), ParseVector(ParseUpvalue, old(z.Remaining())))
    {
      hide ParseInt, ParseUpvalue;
      var n := LoadInt();
      if n.Err? { return Err(n.error); }
      if n.v < 0 { return Err(TooBig); }
      var xs: seq<Upvalue> := [];
      ghost var all := Many(ParseUpvalue, n.v, z.Remaining());
      PutPut([], [], all);
      for i := 0 to n.v
        invariant |xs| == i && all == Put(xs, Many(ParseUpvalue, n.v - i, z.Remaining()))
      {
        ghost var s := z.Remaining();
        var x := LoadUpvalue();
        if x.Err? { return Err(x.error); }
        PutPut(xs, [x.v], Many(ParseUpvalue, n.v - i - 1, z.Remaining()));
        xs := xs + [x.v];
      }
      assert xs + [] == xs;
      return Ok(xs);
    }

    method LoadLocVar() returns (r: Outcome<LocVar>)
      modifies z
      ensures Got(r, z.Remaining(), ParseLocVar(old(z.Remaining())))
    {
      hide ParseString, ParseInt;
      var name := LoadString();
      if name.Err? { return Err(name.error); }
      var a := LoadInt();
      if a.Err? { return Err(a.error); }
      var b := LoadInt();
      if b.Err? { return Err(b.error); }
      return Ok(LocVar(name.v, a.v, b.v));
    }

    method LoadLocVars() returns (r: Outcome<Vector<LocVar>>)
      modifies z
      ensures Got(r, z.Remaining(), ParseVector(ParseLocVar, old(z.Remaining())))
    {
      hide ParseInt, ParseLocVar;
      var n := LoadInt();
      if n.Err? { return Err(n.error); }
      if n.v < 0 { return Err(TooBig); }
      var xs: seq<LocVar> := [];
      ghost var all := Many(ParseLocVar, n.v, z.Remaining());
      PutPut([], [], all);
      for i := 0 to n.v
        invariant |xs| == i && all == Put(xs, Many(ParseLocVar, n.v - i, z.Remaining()))
      {
        ghost var s := z.Remaining();
        var x := LoadLocVar();
        if x.Err? { return Err(x.error); }
        PutPut(xs, [x.v], Many(ParseLocVar, n.v - i - 1, z.Remaining()));
        xs := xs + [x.v];
      }
      assert xs + [] == xs;
      return Ok(xs);
    }

    method LoadNames() returns (r: Outcome<Vector<Option<Str>>>)
      modifies z
      ensures Got(r, z.Remaining(), ParseNames(old(z.Remaining())))
    {
      hide ParseInt, ParseString;
      var n := LoadInt();
      if n.Err? { return Err(n.error); }
      var count: nat := if n.v < 0 then 0 else n.v;
      var xs: seq<Option<Str>> := [];
      ghost var all := Many(ParseString, count, z.Remaining());
      PutPut([], [], all);
      for i := 0 to count
        invariant |xs| == i && all == Put(xs, Many(ParseString, count - i, z.Remaining()))
      {
        ghost var s := z.Remaining();
        var x := LoadString();
        if x.Err? { return Err(x.error); }
        PutPut(xs, [x.v], Many(ParseString, count - i - 1, z.Remaining()));
        xs := xs + [x.v];
      }
      assert xs + [] == xs;
      return Ok(xs);
    }

    /** `LoadDebug` */
    method LoadDebug() returns (r: Outcome<Debug>)
      modifies z
      ensures Got(r, z.Remaining(), ParseDebug(old(z.Remaining())))
    {
      hide ParseVector, ParseNames;
      var ls := LoadLines();
      if ls.Err? { return Err(ls.error); }
      var vs := LoadLocVars();
      if vs.Err? { return Err(vs.error); }
      var ns := LoadNames();
      if ns.Err? { return Err(ns.error); }
      return Ok(Debug(ls.v, vs.v, ns.v));
    }

    method LoadHead() returns (r: Outcome<Head>)
      modifies z
      ensures Got(r, z.Remaining(), ParseHead(old(z.Remaining())))
    {
      hide ParseString, ParseInt;
      var s := LoadString();
      if s.Err? { return Err(s.error); }
      var a := LoadInt();
      if a.Err? { return Err(a.error); }
      var b := LoadInt();
      if b.Err? { return Err(b.error); }
      var c := LoadBlock(3);
      if c.Err? { return Err(c.error); }
      return Ok(Head(s.v, a.v, b.v, c.v[0], c.v[1], c.v[2]));
    }

    /** `LoadFunction` */
    method LoadFunction(psource: Option<Str>) returns (r: Outcome<Proto>)
      modifies z
      ensures Got(r, z.Remaining(), ParseFunction(old(z.Remaining()), psource))
      decreases |z.Remaining()|, 0
    {
      hide ParseHead, ParseVector, ParseInt, ParseDebug, ParseProtos, Named;
      var h0 := LoadHead();
      if h0.Err? { return Err(h0.error); }
      var h := h0.v.(source := LoadedSource(h0.v, psource));
      var code := LoadCode();
      if code.Err? { return Err(code.error); }
      var k := LoadConstants();
      if k.Err? { return Err(k.error); }
      var us := LoadUpvalues();
      if us.Err? { return Err(us.error); }
      var n := LoadInt();
      if n.Err? { return Err(n.error); }
      if n.v < 0 { return Err(TooBig); }
      var ps := LoadProtos(n.v, h.source);
      if ps.Err? { return Err(ps.error); }
      var d := LoadDebug();
      if d.Err? { return Err(d.error); }
      if |d.v.names| > |us.v| { return Err(Undefined); }
      return Ok(Proto(h, code.v, k.v, Named(us.v, d.v.names), ps.v, d.v.lineinfo, d.v.locvars));
    }

    /** The loop of `LoadProtos`. */
    method LoadProtos(n: nat, psource: Option<Str>) returns (r: Outcome<seq<Proto>>)
      modifies z
      ensures Got(r, z.Remaining(), ParseProtos(n, old(z.Remaining()), psource))
      decreases |z.Remaining()|, n + 1
    {
      hide ParseFunction;
      var ps: seq<Proto> := [];
      ghost var all, total := ParseProtos(n, z.Remaining(), psource), |z.Remaining()|;
      PutPut([], [], all);
      for i := 0 to n
        invariant |ps| == i && |z.Remaining()| <= total && all == Put(ps, ParseProtos(n - i, z.Remaining(), psource))
      {
        ghost var s := z.Remaining();
        var p := LoadFunction(psource);
        if p.Err? { return Err(p.error); }
        PutPut(ps, [p.v], ParseProtos(n - i - 1, z.Remaining(), psource));
        ps := ps + [p.v];
      }
      assert ps + [] == ps;
      return Ok(ps);
    }

    /** `checkliteral` */
    method CheckLiteral(l: seq<Octet>, e: LoadError) returns (r: Outcome<seq<Octet>>)
      modifies z
      ensures Got(r, z.Remaining(), Literal(l, old(z.Remaining()), e))
    {
      var b := LoadBlock(|l|);
      if b.Err? { return Err(b.error); }
      if b.v != l { return Err(e); }
      return Ok(b.v);
    }

    /** The calls of `checksize`. */
    method CheckSizes() returns (r: Outcome<()>)
      modifies z
      ensures Got(r, z.Remaining(), SizesFrom(0, old(z.Remaining())))
    {
      for i := 0 to |Sizes|
        invariant SizesFrom(i, z.Remaining()) == SizesFrom(0, old(z.Remaining()))
      {
        var b := LoadByte();
        if b.Err? { return Err(b.error); }
        if b.v != Sizes[i] { return Err(SizeMismatch); }
      }
      return Ok(());
    }

    /** `checkHeader` */
    method CheckHeader() returns (r: Outcome<()>)
      modifies z
      ensures Got(r, z.Remaining(), ParseHeader(old(z.Remaining())))
    {
      hide Literal, SizesFrom, ParseInteger, ParseBits;
      var a := CheckLiteral(Signature, NotAChunk);
      if a.Err? { return Err(a.error); }
      var v := LoadByte();
      if v.Err? { return Err(v.error); }
      if v.v != Version { return Err(BadVersion); }
      var f := LoadByte();
      if f.Err? { return Err(f.error); }
      if f.v != FormatByte { return Err(BadFormat); }
      var d := CheckLiteral(Data, Corrupted);
      if d.Err? { return Err(d.error); }
      var s := CheckSizes();
      if s.Err? { return Err(s.error); }
      var n := LoadInteger();
      if n.Err? { return Err(n.error); }
      if n.v != TestInteger { return Err(BadEndianness); }
      var x := LoadNumber();
      if x.Err? { return Err(x.error); }
      if x.v != TestNumber { return Err(BadFloat); }
      return Ok(());
    }
  }

  /** `luaU_undump`, after the look at the first character in `f_parser`. */
  method LoadChunk(pieces: seq<seq<Octet>>) returns (r: Outcome<Chunk>)
    ensures match Undump(Flat(pieces))
      case Fail(e) => r == Err(e)
      case Done(c, _) => r == Ok(c)
  {
    hide ParseHeader, ParseFunction, Flat;
    var z := new Zio(pieces);
    var s := new LoadState(z);
    var c := s.LoadByte();
    if c.Err? || c.v != Escape { return Err(NotBinary); }
    var h := s.CheckHeader();
    if h.Err? { return Err(h.error); }
    var n := s.LoadByte();
    if n.Err? { return Err(n.error); }
    var p := s.LoadFunction(None);
    if p.Err? { return Err(p.error); }
    return Ok(Chunk(n.v, p.v));
  }

  /** Loading the chunk of a function, in whatever pieces it comes and whatever follows
      it. */
  method LoadDumped(f: Proto, strip: bool, pieces: seq<seq<Octet>>, ghost chunk: seq<Octet>) returns (r: Outcome<Chunk>)
    requires ChunkIs(f, strip, chunk) && chunk <= Flat(pieces)
    ensures r.Ok? && (strip ==> r.v.p == Stripped(f)) && (!strip ==> (r.v.p == f <==> Sourced(f, None)))
  {
    hide Dump, Undump, Stripped, Sourced, Flat, ChunkIs;
    ChunkIsDumped(f, strip, chunk);
    r := LoadChunk(pieces);
    RoundTrip(f, strip, Flat(pieces)[|Dump(f, strip)|..]);
    assert Dump(f, strip) + Flat(pieces)[|Dump(f, strip)|..] == Flat(pieces);
  }
}
