/** Precompiled chunks: the bytes that `ldump.c` writes for a function prototype
  and what `lundump.c` makes of bytes. Machine: 4-byte `int`, 8-byte `size_t`,
  little-endian. */
module DumpFormat {
  import opened PackNumber
  import opened Powers

  const MAXINT := 0x7FFF_FFFF

  type Int32 = n: int | -0x8000_0000 <= n <= 0x7FFF_FFFF
  type Word = n: int | 0 <= n < 0x1_0000_0000
  type Str = s: seq<Octet> | |s| + 1 < W
  /** A float, as its eight bytes. */
  type Bits = b: seq<Octet> | |b| == 8 witness [0, 0, 0, 0, 0, 0, 0, 0]
  /** A vector whose size is an `int`. */
  type Vector<T> = s: seq<T> | |s| <= 0x7FFF_FFFF

  datatype Constant = Nil | Bool(b: Octet) | Flt(bits: Bits) | Integral(n: Integer) | Text(s: Str)
  datatype Upvalue = Upvalue(instack: Octet, idx: Octet, name: Option<Str>)
  datatype LocVar = LocVar(name: Option<Str>, startpc: Int32, endpc: Int32)

  /** Where a function was defined and what it needs. */
  datatype Head = Head(source: Option<Str>, linedefined: Int32, lastlinedefined: Int32, numparams: Octet, isVararg: Octet, maxstack: Octet)

  datatype Proto = Proto(head: Head, code: Vector<Word>, k: Vector<Constant>, upvalues: Vector<Upvalue>,
                         protos: Vector<Proto>, lineinfo: Vector<Int32>, locvars: Vector<LocVar>)

  // ---- dump ----

  function DumpInt(n: Int32): (b: seq<Octet>)
    ensures |b| == 4
  {
    Bytes(if n < 0 then n + 0x1_0000_0000 else n, 4)
  }

  function DumpWord(n: Word): (b: seq<Octet>) ensures |b| == 4 { Bytes(n, 4) }

  function DumpInteger(n: Integer): (b: seq<Octet>) ensures |b| == 8 { Bytes(Unsigned(n), 8) }

  function DumpString(s: Option<Str>): seq<Octet> {
    match s
    case None => [0]
    case Some(t) => (if |t| + 1 < 0xFF then [|t| + 1] else [0xFF] + Bytes(|t| + 1, 8)) + t
  }

  const TNIL: Octet := 0
  const TBOOLEAN: Octet := 1
  const TNUMFLT: Octet := 3
  const TSHRSTR: Octet := 4
  const TNUMINT: Octet := 19
  const TLNGSTR: Octet := 20
  const MAXSHORTLEN := 40

  function Tag(c: Constant): Octet {
    match c
    case Nil => TNIL
    case Bool(_) => TBOOLEAN
    case Flt(_) => TNUMFLT
    case Integral(_) => TNUMINT
    case Text(s) => if |s| <= MAXSHORTLEN then TSHRSTR else TLNGSTR
  }

  function DumpConstant(c: Constant): seq<Octet> {
    [Tag(c)] +
    match c
    case Nil => []
    case Bool(b) => [b]
    case Flt(bits) => bits
    case Integral(n) => DumpInteger(n)
    case Text(s) => DumpString(Some(s))
  }

  function DumpUpvalue(u: Upvalue): seq<Octet> { [u.instack, u.idx] }
  function DumpLocVar(v: LocVar): seq<Octet> { DumpString(v.name) + (DumpInt(v.startpc) + DumpInt(v.endpc)) }

  /** One after the other. */
  function Concat<T>(f: T -> seq<Octet>, xs: seq<T>): seq<Octet> {
    if xs == [] then [] else f(xs[0]) + Concat(f, xs[1..])
  }

  function DumpVector<T>(f: T -> seq<Octet>, xs: Vector<T>): seq<Octet> { DumpInt(|xs|) + Concat(f, xs) }

  function Names(us: seq<Upvalue>): (ns: seq<Option<Str>>)
    ensures |ns| == |us|
  {
    seq(|us|, i requires 0 <= i < |us| => us[i].name)
  }

  /** Lines, local variables and upvalue names: none if stripped. */
  datatype Debug = Debug(lineinfo: Vector<Int32>, locvars: Vector<LocVar>, names: Vector<Option<Str>>)

  function DebugOf(p: Proto, strip: bool): Debug {
    if strip then Debug([], [], []) else Debug(p.lineinfo, p.locvars, Names(p.upvalues))
  }

  function DumpDebug(d: Debug): seq<Octet> {
    DumpVector(DumpInt, d.lineinfo) + (DumpVector(DumpLocVar, d.locvars) + DumpVector(DumpString, d.names))
  }

  function DumpHead(h: Head): seq<Octet> {
    DumpString(h.source) + (DumpInt(h.linedefined) + (DumpInt(h.lastlinedefined) + [h.numparams, h.isVararg, h.maxstack]))
  }

  /** No source in the dump: it is stripped, or the parent's. */
  function DumpedSource(p: Proto, psource: Option<Str>, strip: bool): Option<Str> {
    if strip || p.head.source == psource then None else p.head.source
  }

  function DumpFunction(p: Proto, psource: Option<Str>, strip: bool): seq<Octet>
    decreases p
  {
    DumpHead(p.head.(source := DumpedSource(p, psource, strip)))
    + (DumpVector(DumpWord, p.code)
    + (DumpVector(DumpConstant, p.k)
    + (DumpVector(DumpUpvalue, p.upvalues)
    + ((DumpInt(|p.protos|) + DumpProtos(p.protos, p.head.source, strip))
    + DumpDebug(DebugOf(p, strip))))))
  }

  function DumpProtos(ps: seq<Proto>, psource: Option<Str>, strip: bool): seq<Octet>
    decreases ps
  {
    if ps == [] then [] else DumpFunction(ps[0], psource, strip) + DumpProtos(ps[1..], psource, strip)
  }

  const Escape: Octet := 0x1B
  const Signature: seq<Octet> := [0x4C, 0x75, 0x61]
  const Version: Octet := 0x53
  const FormatByte: Octet := 0
  const Data: seq<Octet> := [0x19, 0x93, 13, 10, 0x1A, 10]
  const Sizes: seq<Octet> := [4, 8, 4, 8, 8]
  const TestInteger: Integer := 0x5678
  /** 370.5 */
  const TestNumber: Bits := [0, 0, 0, 0, 0, 0x28, 0x77, 0x40]

  function DumpHeader(): seq<Octet> {
    [Escape] + (Signature + ([Version, FormatByte] + (Data + (Sizes + (DumpInteger(TestInteger) + TestNumber)))))
  }

  function Dump(p: Proto, strip: bool): seq<Octet> {
    DumpHeader() + ([|p.upvalues| % 256] + DumpFunction(p, None, strip))
  }

  // ---- undump ----

  datatype LoadError =
    | NotBinary | Truncated | NotAChunk | BadVersion | BadFormat | Corrupted | SizeMismatch | BadEndianness | BadFloat
    | TooBig | Undefined

  datatype Parsed<+T> = Fail(error: LoadError) | Done(v: T, rest: seq<Octet>)

  function Block(n: nat, s: seq<Octet>): (r: Parsed<seq<Octet>>)
    ensures r.Done? ==> |r.v| == n && s == r.v + r.rest
  {
    if n <= |s| then Done(s[..n], s[n..]) else Fail(Truncated)
  }

  function ParseByte(s: seq<Octet>): (r: Parsed<Octet>)
    ensures r.Done? ==> |r.rest| < |s|
  {
    if s == [] then Fail(Truncated) else Done(s[0], s[1..])
  }

  function ParseWord(s: seq<Octet>): (r: Parsed<Word>)
    ensures r.Done? ==> |r.rest| < |s|
  {
    if |s| < 4 then Fail(Truncated) else ValueBound(s[..4]); PowValues(); Done(Value(s[..4]), s[4..])
  }

  function IntOf(n: Word): Int32 { if n > MAXINT then n - 0x1_0000_0000 else n }

  function ParseInt(s: seq<Octet>): (r: Parsed<Int32>)
    ensures r.Done? ==> |r.rest| < |s|
  {
    match ParseWord(s) case Fail(e) => Fail(e) case Done(n, rest) => Done(IntOf(n), rest)
  }

  function ParseSize(s: seq<Octet>): (r: Parsed<nat>)
    ensures r.Done? ==> |r.rest| < |s| && r.v < W
  {
    if |s| < 8 then Fail(Truncated) else ValueBound(s[..8]); PowValues(); Done(Value(s[..8]), s[8..])
  }

  function ParseInteger(s: seq<Octet>): (r: Parsed<Integer>)
    ensures r.Done? ==> |r.rest| < |s|
  {
    match ParseSize(s) case Fail(e) => Fail(e) case Done(n, rest) => Done(Signed(n), rest)
  }

  function ParseBits(s: seq<Octet>): (r: Parsed<Bits>)
    ensures r.Done? ==> |r.rest| < |s|
  {
    if |s| < 8 then Fail(Truncated) else Done(s[..8], s[8..])
  }

  /** The size announced by the first byte or, after 0xFF, by the next eight. */
  function ParseLength(s: seq<Octet>): (r: Parsed<nat>)
    ensures r.Done? ==> |r.rest| < |s| && r.v < W
  {
    match ParseByte(s)
    case Fail(e) => Fail(e)
    case Done(b, rest) => if b == 0xFF then ParseSize(rest) else Done(b, rest)
  }

  function ParseString(s: seq<Octet>): (r: Parsed<Option<Str>>)
    ensures r.Done? ==> |r.rest| < |s|
  {
    match ParseLength(s)
    case Fail(e) => Fail(e)
    case Done(size, rest) =>
      if size == 0 then Done(None, rest)
      else if size - 1 > |rest| then Fail(Truncated)
      else Done(Some(rest[..size - 1]), rest[size - 1..])
  }

  function ParseConstant(s: seq<Octet>): (r: Parsed<Constant>)
    ensures r.Done? ==> |r.rest| < |s|
  {
    match ParseByte(s)
    case Fail(e) => Fail(e)
    case Done(t, rest) =>
      if t == TBOOLEAN then (match ParseByte(rest) case Fail(e) => Fail(e) case Done(b, rest) => Done(Bool(b), rest))
      else if t == TNUMFLT then (match ParseBits(rest) case Fail(e) => Fail(e) case Done(x, rest) => Done(Flt(x), rest))
      else if t == TNUMINT then (match ParseInteger(rest) case Fail(e) => Fail(e) case Done(n, rest) => Done(Integral(n), rest))
      else if t == TSHRSTR || t == TLNGSTR then
        (match ParseString(rest)
        case Fail(e) => Fail(e)
        case Done(x, rest) => if x.None? then Fail(Undefined) else Done(Text(x.value), rest))
      else Done(Nil, rest)
  }

  function ParseUpvalue(s: seq<Octet>): (r: Parsed<Upvalue>)
    ensures r.Done? ==> |r.rest| < |s|
  {
    if |s| < 2 then Fail(Truncated) else Done(Upvalue(s[0], s[1], None), s[2..])
  }

  function ParseLocVar(s: seq<Octet>): (r: Parsed<LocVar>)
    ensures r.Done? ==> |r.rest| < |s|
  {
    match ParseString(s)
    case Fail(e) => Fail(e)
    case Done(name, rest) =>
      match ParseInt(rest)
      case Fail(e) => Fail(e)
      case Done(a, rest) => match ParseInt(rest) case Fail(e) => Fail(e) case Done(b, rest) => Done(LocVar(name, a, b), rest)
  }

  ghost predicate Shrinks<T(!new)>(g: seq<Octet> -> Parsed<T>) {
    forall s :: g(s).Done? ==> |g(s).rest| < |s|
  }

  function Many<T(!new)>(g: seq<Octet> -> Parsed<T>, n: nat, s: seq<Octet>): (r: Parsed<seq<T>>)
    requires Shrinks(g)
    ensures r.Done? ==> |r.v| == n && |r.rest| <= |s|
    decreases n
  {
    if n == 0 then Done([], s)
    else
      match g(s)
      case Fail(e) => Fail(e)
      case Done(x, rest) => Put([x], Many(g, n - 1, rest))
  }

  function Put<T>(xs: seq<T>, r: Parsed<seq<T>>): Parsed<seq<T>> {
    match r case Fail(e) => Fail(e) case Done(ys, rest) => Done(xs + ys, rest)
  }

  /** A vector with its size before it; a vector of a negative size cannot be
      allocated. */
  function ParseVector<T(!new)>(g: seq<Octet> -> Parsed<T>, s: seq<Octet>): (r: Parsed<Vector<T>>)
    requires Shrinks(g)
    ensures r.Done? ==> |r.rest| < |s|
  {
    match ParseInt(s)
    case Fail(e) => Fail(e)
    case Done(n, rest) =>
      if n < 0 then Fail(TooBig)
      else match Many(g, n, rest) case Fail(e) => Fail(e) case Done(xs, rest) => Done(xs, rest)
  }

  function ParseHead(s: seq<Octet>): (r: Parsed<Head>)
    ensures r.Done? ==> |r.rest| < |s|
  {
    match ParseString(s)
    case Fail(e) => Fail(e)
    case Done(source, rest) =>
      match ParseInt(rest)
      case Fail(e) => Fail(e)
      case Done(a, rest) =>
        match ParseInt(rest)
        case Fail(e) => Fail(e)
        case Done(b, rest) => if |rest| < 3 then Fail(Truncated) else Done(Head(source, a, b, rest[0], rest[1], rest[2]), rest[3..])
  }

  /** The names of the upvalues. No vector is made for them, so a negative count
      means that there are none. */
  function ParseNames(s: seq<Octet>): (r: Parsed<Vector<Option<Str>>>)
    ensures r.Done? ==> |r.rest| < |s|
  {
    match ParseInt(s)
    case Fail(e) => Fail(e)
    case Done(n, rest) =>
      match Many(ParseString, if n < 0 then 0 else n, rest) case Fail(e) => Fail(e) case Done(xs, rest) => Done(xs, rest)
  }

  function ParseDebug(s: seq<Octet>): (r: Parsed<Debug>)
    ensures r.Done? ==> |r.rest| < |s|
  {
    match ParseVector(ParseInt, s)
    case Fail(e) => Fail(e)
    case Done(ls, rest) =>
      match ParseVector(ParseLocVar, rest)
      case Fail(e) => Fail(e)
      case Done(vs, rest) =>
        match ParseNames(rest) case Fail(e) => Fail(e) case Done(ns, rest) => Done(Debug(ls, vs, ns), rest)
  }

  /** Gives the first upvalues their names. */
  function Named(us: seq<Upvalue>, ns: seq<Option<Str>>): (r: seq<Upvalue>)
    requires |ns| <= |us|
    ensures |r| == |us|
  {
    seq(|us|, i requires 0 <= i < |us| => if i < |ns| then us[i].(name := ns[i]) else us[i])
  }

  function LoadedSource(h: Head, psource: Option<Str>): Option<Str> { if h.source.None? then psource else h.source }

  function ParseFunction(s: seq<Octet>, psource: Option<Str>): (r: Parsed<Proto>)
    ensures r.Done? ==> |r.rest| < |s|
    decreases |s|, 0
  {
    match ParseHead(s)
    case Fail(e) => Fail(e)
    case Done(h0, s1) =>
      var h := h0.(source := LoadedSource(h0, psource));
      match ParseVector(ParseWord, s1)
      case Fail(e) => Fail(e)
      case Done(code, s2) =>
        match ParseVector(ParseConstant, s2)
        case Fail(e) => Fail(e)
        case Done(k, s3) =>
          match ParseVector(ParseUpvalue, s3)
          case Fail(e) => Fail(e)
          case Done(us, s4) =>
            match ParseInt(s4)
            case Fail(e) => Fail(e)
            case Done(n, s5) =>
              if n < 0 then Fail(TooBig)
              else
                match ParseProtos(n, s5, h.source)
                case Fail(e) => Fail(e)
                case Done(ps, s6) =>
                  match ParseDebug(s6)
                  case Fail(e) => Fail(e)
                  case Done(d, s7) =>
                    if |d.names| > |us| then Fail(Undefined)
                    else Done(Proto(h, code, k, Named(us, d.names), ps, d.lineinfo, d.locvars), s7)
  }

  function ParseProtos(n: nat, s: seq<Octet>, psource: Option<Str>): (r: Parsed<seq<Proto>>)
    ensures r.Done? ==> |r.v| == n && |r.rest| <= |s|
    decreases |s|, n + 1
  {
    if n == 0 then Done([], s)
    else
      match ParseFunction(s, psource)
      case Fail(e) => Fail(e)
      case Done(p, rest) => Put([p], ParseProtos(n - 1, rest, psource))
  }

  function Literal(l: seq<Octet>, s: seq<Octet>, e: LoadError): Parsed<seq<Octet>> {
    match Block(|l|, s) case Fail(e) => Fail(e) case Done(b, rest) => if b == l then Done(b, rest) else Fail(e)
  }

  function SizesFrom(i: nat, s: seq<Octet>): (r: Parsed<()>)
    requires i <= |Sizes|
    decreases |Sizes| - i
  {
    if i == |Sizes| then Done((), s)
    else
      match ParseByte(s)
      case Fail(e) => Fail(e)
      case Done(b, rest) => if b != Sizes[i] then Fail(SizeMismatch) else SizesFrom(i + 1, rest)
  }

  /** `checkHeader` */
  function ParseHeader(s: seq<Octet>): Parsed<()> {
    match Literal(Signature, s, NotAChunk)
    case Fail(e) => Fail(e)
    case Done(_, s) =>
      match ParseByte(s)
      case Fail(e) => Fail(e)
      case Done(v, s) =>
        if v != Version then Fail(BadVersion)
        else
          match ParseByte(s)
          case Fail(e) => Fail(e)
          case Done(f, s) =>
            if f != FormatByte then Fail(BadFormat)
            else
              match Literal(Data, s, Corrupted)
              case Fail(e) => Fail(e)
              case Done(_, s) => ParseTests(s)
  }

  function ParseTests(s: seq<Octet>): Parsed<()> {
    match SizesFrom(0, s)
    case Fail(e) => Fail(e)
    case Done(_, s) =>
      match ParseInteger(s)
      case Fail(e) => Fail(e)
      case Done(n, s) =>
        if n != TestInteger then Fail(BadEndianness)
        else
          match ParseBits(s)
          case Fail(e) => Fail(e)
          case Done(x, s) => if x != TestNumber then Fail(BadFloat) else Done((), s)
  }

  /** A main function, and the number of its upvalues that the chunk announces. */
  datatype Chunk = Chunk(nups: Octet, p: Proto)

  function Undump(s: seq<Octet>): Parsed<Chunk> {
    match ParseByte(s)
    case Fail(e) => Fail(NotBinary)
    case Done(c, s) =>
      if c != Escape then Fail(NotBinary)
      else
        match ParseHeader(s)
        case Fail(e) => Fail(e)
        case Done(_, s) =>
          match ParseByte(s)
          case Fail(e) => Fail(e)
          case Done(n, s) => match ParseFunction(s, None) case Fail(e) => Fail(e) case Done(p, s) => Done(Chunk(n, p), s)
  }
}
