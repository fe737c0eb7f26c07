/** The formats of `string.pack` and `string.unpack`: what a format says, what is
  written for it and what is read by it. */
module PackFormat {
  import opened PackNumber
  import opened Powers

  datatype Result<T> = Ok(value: T) | Err(error: Error)

  datatype Error =
    | BadOption | MissingSize | SizeLimits | BadNext | NotPowerOfTwo | BadArgument | IntegerOverflow | UnsignedOverflow
    | WrongLength | LengthDoesNotFit | HasZeros | TooShort | DoesNotFit | BadPosition | TooBig | VariableLength | TooLarge | Overrun

  type Text = s: seq<Octet> | |s| < 0x8000_0000_0000_0000

  /** An argument or a result. A float is given by the bytes of its machine
      representation, least significant first. */
  datatype Item = Int(n: Integer) | Str(s: Text) | Float(bits: seq<Octet>)

  datatype KOption = Kint | Kuint | Kfloat | Kchar | Kstring | Kzstr | Kpadding | Kpaddalign | Knop

  predicate TakesItem(k: KOption) { k.Kint? || k.Kuint? || k.Kfloat? || k.Kchar? || k.Kstring? || k.Kzstr? }

  const MAXINTSIZE := 16
  const MAXALIGN := 8
  const MAXINT := 0x7FFF_FFFF
  const PadByte: Octet := 0

  /** Endianness and alignment in force; the machine is little-endian. */
  datatype Header = Header(little: bool, maxalign: nat)

  const Initial := Header(true, 1)

  predicate GoodHeader(h: Header) { 1 <= h.maxalign <= MAXINTSIZE }

  // ---- reading a format ----

  /** Strings end in a zero. */
  function Cur(fmt: string, i: nat): char { if i < |fmt| then fmt[i] else '\0' }

  predicate IsDigit(c: char) { '0' <= c <= '9' }

  function DigitOf(c: char): nat
    requires IsDigit(c)
  {
    c as int - '0' as int
  }

  /** The number that starts at `i`, read on to `a`; it stops when one more digit
      might not fit an `int`. */
  function Digits(fmt: string, i: nat, a: nat): (r: (nat, nat))
    requires IsDigit(Cur(fmt, i)) && a <= (MAXINT - 9) / 10
    ensures i < r.1 <= |fmt| && r.0 <= MAXINT
    decreases |fmt| - i
  {
    var b := a * 10 + DigitOf(Cur(fmt, i));
    if IsDigit(Cur(fmt, i + 1)) && b <= (MAXINT - 9) / 10 then Digits(fmt, i + 1, b) else (b, i + 1)
  }

  function Numeral(fmt: string, i: nat, df: int): (r: (int, nat))
    requires i <= |fmt|
    ensures i <= r.1 <= |fmt| && (r.0 == df || 0 <= r.0 <= MAXINT)
  {
    if IsDigit(Cur(fmt, i)) then Digits(fmt, i, 0) else (df, i)
  }

  function LimitedNumeral(fmt: string, i: nat, df: int): (r: Result<(nat, nat)>)
    requires i <= |fmt|
    ensures r.Ok? ==> 1 <= r.value.0 <= MAXINTSIZE && i <= r.value.1 <= |fmt|
  {
    var (n, j) := Numeral(fmt, i, df);
    if n > MAXINTSIZE || n <= 0 then Err(SizeLimits) else Ok((n, j))
  }

  /** One option: its kind and size, where the format goes on, and what is then in
      force. */
  datatype Option = Option(kind: KOption, size: nat, at: nat, h: Header)

  predicate GoodOption(kind: KOption, size: nat) {
    && (kind.Kint? || kind.Kuint? || kind.Kstring? ==> 1 <= size <= MAXINTSIZE)
    && (kind.Kfloat? ==> size == 4 || size == 8)
    && (kind.Kzstr? || kind.Kpaddalign? || kind.Knop? ==> size == 0)
    && (kind.Kpadding? ==> size == 1)
  }

  function Sized(kind: KOption, n: Result<(nat, nat)>, h: Header): Result<Option> {
    match n
    case Err(e) => Err(e)
    case Ok((size, at)) => Ok(Option(kind, size, at, h))
  }

  function GetOption(h: Header, fmt: string, i: nat): (r: Result<Option>)
    requires i < |fmt| && GoodHeader(h)
    ensures r.Ok? ==> i < r.value.at <= |fmt| && GoodHeader(r.value.h) && GoodOption(r.value.kind, r.value.size)
  {
    var c := fmt[i];
    var at := i + 1;
    if c == 'b' then Ok(Option(Kint, 1, at, h))
    else if c == 'B' then Ok(Option(Kuint, 1, at, h))
    else if c == 'h' then Ok(Option(Kint, 2, at, h))
    else if c == 'H' then Ok(Option(Kuint, 2, at, h))
    else if c == 'l' || c == 'j' then Ok(Option(Kint, 8, at, h))
    else if c == 'L' || c == 'J' || c == 'T' then Ok(Option(Kuint, 8, at, h))
    else if c == 'f' then Ok(Option(Kfloat, 4, at, h))
    else if c == 'd' || c == 'n' then Ok(Option(Kfloat, 8, at, h))
    else if c == 'i' then Sized(Kint, LimitedNumeral(fmt, at, 4), h)
    else if c == 'I' then Sized(Kuint, LimitedNumeral(fmt, at, 4), h)
    else if c == 's' then Sized(Kstring, LimitedNumeral(fmt, at, 8), h)
    else if c == 'c' then
      var (n, j) := Numeral(fmt, at, -1);
      if n == -1 then Err(MissingSize) else Ok(Option(Kchar, n, j, h))
    else if c == 'z' then Ok(Option(Kzstr, 0, at, h))
    else if c == 'x' then Ok(Option(Kpadding, 1, at, h))
    else if c == 'X' then Ok(Option(Kpaddalign, 0, at, h))
    else if c == ' ' then Ok(Option(Knop, 0, at, h))
    else if c == '<' || c == '=' then Ok(Option(Knop, 0, at, h.(little := true)))
    else if c == '>' then Ok(Option(Knop, 0, at, h.(little := false)))
    else if c == '!' then
      match LimitedNumeral(fmt, at, MAXALIGN)
      case Err(e) => Err(e)
      case Ok((n, j)) => Ok(Option(Knop, 0, j, h.(maxalign := n)))
    else Err(BadOption)
  }

  /** An option with the number of padding bytes before it. */
  datatype Details = Details(kind: KOption, size: nat, pad: nat, at: nat, h: Header)

  predicate GoodAlignment(a: nat) { a == 1 || a == 2 || a == 4 || a == 8 || a == 16 }

  /** How far `total` is from the next multiple of the alignment. */
  function Padding(total: nat, align: nat): (n: nat)
    requires align > 0
    ensures n < align && (total + n) % align == 0
  {
    var r := total % align;
    ModIs(total + (align - r), align, total / align + 1, 0);
    if r == 0 then 0 else align - r
  }

  function Aligned(o: Option, align: nat, total: nat): Result<Details>
    requires GoodHeader(o.h)
  {
    if align <= 1 || o.kind.Kchar? then Ok(Details(o.kind, o.size, 0, o.at, o.h))
    else
      var a := if align > o.h.maxalign then o.h.maxalign else align;
      if !GoodAlignment(a) then Err(NotPowerOfTwo) else Ok(Details(o.kind, o.size, Padding(total, a), o.at, o.h))
  }

  function GetDetails(h: Header, total: nat, fmt: string, i: nat): (r: Result<Details>)
    requires i < |fmt| && GoodHeader(h)
    ensures r.Ok? ==> i < r.value.at <= |fmt| && GoodHeader(r.value.h) && GoodOption(r.value.kind, r.value.size)
  {
    match GetOption(h, fmt, i)
    case Err(e) => Err(e)
    case Ok(o) =>
      if !o.kind.Kpaddalign? then Aligned(o, o.size, total)
      else if Cur(fmt, o.at) == '\0' then Err(BadNext)
      else
        match GetOption(o.h, fmt, o.at)
        case Err(e) => Err(e)
        case Ok(next) =>
          if next.kind.Kchar? || next.size == 0 then Err(BadNext)
          else Aligned(o.(at := next.at, h := next.h), next.size, total)
  }

  // ---- what is written ----

  function PackedItem(d: Details, arg: Item): (r: Result<seq<Octet>>)
    requires TakesItem(d.kind) && GoodOption(d.kind, d.size)
  {
    match d.kind
    case Kint =>
      if !arg.Int? then Err(BadArgument)
      else if d.size < SZINT && !FitsSigned(arg.n, d.size) then Err(IntegerOverflow)
      else Ok(PackedInt(Unsigned(arg.n), d.h.little, d.size, arg.n < 0))
    case Kuint =>
      if !arg.Int? then Err(BadArgument)
      else if d.size < SZINT && Unsigned(arg.n) >= Pow256(d.size) then Err(UnsignedOverflow)
      else Ok(PackedInt(Unsigned(arg.n), d.h.little, d.size, false))
    case Kfloat => if arg.Float? && |arg.bits| == d.size then Ok(Order(arg.bits, d.h.little)) else Err(BadArgument)
    case Kchar => if !arg.Str? then Err(BadArgument) else if |arg.s| != d.size then Err(WrongLength) else Ok(arg.s)
    case Kstring =>
      if !arg.Str? then Err(BadArgument)
      else if d.size < SZINT && |arg.s| >= Pow256(d.size) then Err(LengthDoesNotFit)
      else Ok(PackedInt(|arg.s|, d.h.little, d.size, false) + arg.s)
    case Kzstr => if !arg.Str? then Err(BadArgument) else if 0 in arg.s then Err(HasZeros) else Ok(arg.s + [0])
  }

  function Pads(n: nat): (b: seq<Octet>)
    ensures |b| == n
  {
    seq(n, _ => PadByte)
  }

  /** Bytes, and how many arguments they hold. */
  datatype Packed = Packed(bytes: seq<Octet>, used: nat)

  function After(b: seq<Octet>, used: nat, rest: Result<Packed>): Result<Packed> {
    match rest
    case Err(e) => Err(e)
    case Ok(p) => Ok(Packed(b + p.bytes, used + p.used))
  }

  /** What the format from `i` on writes after `total` bytes. */
  function PackFrom(h: Header, fmt: string, i: nat, total: nat, args: seq<Item>): (r: Result<Packed>)
    requires i <= |fmt| && GoodHeader(h)
    ensures r.Ok? ==> r.value.used <= |args|
    decreases |fmt| - i
  {
    if Cur(fmt, i) == '\0' then Ok(Packed([], 0))
    else
      match GetDetails(h, total, fmt, i)
      case Err(e) => Err(e)
      case Ok(d) =>
        if !TakesItem(d.kind) then
          After(Pads(d.pad + d.size), 0, PackFrom(d.h, fmt, d.at, total + d.pad + d.size, args))
        else if args == [] then Err(BadArgument)
        else
          match PackedItem(d, args[0])
          case Err(e) => Err(e)
          case Ok(b) => After(Pads(d.pad) + b, 1, PackFrom(d.h, fmt, d.at, total + d.pad + |b|, args[1..]))
  }

  function Pack(fmt: string, args: seq<Item>): (r: Result<Packed>)
    ensures r.Ok? ==> r.value.used <= |args|
  {
    PackFrom(Initial, fmt, 0, 0, args)
  }

  // ---- what is read ----

  /** Length up to the next zero, or to the end. */
  function StrLen(data: seq<Octet>, pos: nat): (n: nat)
    requires pos <= |data|
    ensures pos + n <= |data| && (pos + n < |data| ==> data[pos + n] == 0) && forall k | pos <= k < pos + n :: data[k] != 0
    decreases |data| - pos
  {
    if pos == |data| || data[pos] == 0 then 0 else 1 + StrLen(data, pos + 1)
  }

  /** The low 32 bits as an `int`. */
  function IntCast(n: nat): (r: int)
    ensures r <= n && (r == n <==> n <= MAXINT)
  {
    (n + MAXINT + 1) % 0x1_0000_0000 - (MAXINT + 1)
  }

  datatype Taken = Taken(item: Item, pos: nat)

  /** The item at `pos`, and the position after it. The end of a counted string is
      computed in 64 bits; what is read when it wraps around, and so passes for
      small, is undefined: `Overrun`. */
  function TakeItem(d: Details, data: Text, pos: nat): (r: Result<Taken>)
    requires TakesItem(d.kind) && GoodOption(d.kind, d.size) && pos + d.size <= |data|
  {
    var b := Order(data[pos..pos + d.size], d.h.little);
    match d.kind
    case Kint | Kuint =>
      (match Unpacked(b, d.kind.Kint?)
      case None => Err(DoesNotFit)
      case Some(n) => Ok(Taken(Int(n), pos + d.size)))
    case Kfloat => Ok(Taken(Float(b), pos + d.size))
    case Kchar => Ok(Taken(Str(data[pos..pos + d.size]), pos + d.size))
    case Kstring =>
      (match Unpacked(b, false)
      case None => Err(DoesNotFit)
      case Some(n) =>
        var start, len := pos + d.size, Unsigned(n);
        if (start + len) % W > |data| then Err(TooShort)
        else if start + len > |data| then Err(Overrun)
        else Ok(Taken(Str(data[start..start + len]), start + len)))
    case Kzstr =>
      var len := IntCast(StrLen(data, pos));
      if len < 0 then Err(TooBig) else Ok(Taken(Str(data[pos..pos + len]), pos + len + 1))
  }

  datatype Read = Read(items: seq<Item>, next: nat)

  function Before(items: seq<Item>, rest: Result<Read>): Result<Read> {
    match rest
    case Err(e) => Err(e)
    case Ok(r) => Ok(Read(items + r.items, r.next))
  }

  /** What the format from `i` on reads at `pos`. */
  function UnpackFrom(h: Header, fmt: string, i: nat, data: Text, pos: nat): Result<Read>
    requires i <= |fmt| && GoodHeader(h)
    decreases |fmt| - i
  {
    if Cur(fmt, i) == '\0' then Ok(Read([], pos + 1))
    else
      match GetDetails(h, pos, fmt, i)
      case Err(e) => Err(e)
      case Ok(d) =>
        if pos + d.pad + d.size > |data| then Err(TooShort)
        else if !TakesItem(d.kind) then UnpackFrom(d.h, fmt, d.at, data, pos + d.pad + d.size)
        else
          match TakeItem(d, data, pos + d.pad)
          case Err(e) => Err(e)
          case Ok(t) => Before([t.item], UnpackFrom(d.h, fmt, d.at, data, t.pos))
  }

  /** Where a position argument points: negative ones count from the end. */
  function Start(arg: Integer, ld: nat): int {
    if arg > 0 then arg - 1 else if arg == 0 || arg + ld < 0 then -1 else ld + arg
  }

  function Unpack(fmt: string, data: Text, arg: Integer): Result<Read> {
    var pos := Start(arg, |data|);
    if pos < 0 || pos > |data| then Err(BadPosition) else UnpackFrom(Initial, fmt, 0, data, pos)
  }

  // ---- there and back ----

  /** `unpack` takes the length of a zero-terminated string for an `int`. */
  predicate Short(k: KOption, arg: Item) { k.Kzstr? && arg.Str? ==> |arg.s| <= MAXINT }

  /** The arguments written as zero-terminated strings have a length that fits. */
  predicate ShortStrings(h: Header, fmt: string, i: nat, total: nat, args: seq<Item>)
    requires i <= |fmt| && GoodHeader(h) && PackFrom(h, fmt, i, total, args).Ok?
    decreases |fmt| - i
  {
    Cur(fmt, i) == '\0' ||
    var d := GetDetails(h, total, fmt, i).value;
    if !TakesItem(d.kind) then ShortStrings(d.h, fmt, d.at, total + d.pad + d.size, args)
    else
      Short(d.kind, args[0]) && ShortStrings(d.h, fmt, d.at, total + d.pad + |PackedItem(d, args[0]).value|, args[1..])
  }

  lemma StrLenIs(data: seq<Octet>, pos: nat, s: seq<Octet>)
    requires pos + |s| < |data| && data[pos..pos + |s|] == s && data[pos + |s|] == 0 && 0 !in s
    ensures StrLen(data, pos) == |s|
  {
    var n := StrLen(data, pos);
    assert n <= |s|;
    forall m | pos <= m < pos + |s| ensures data[m] != 0 {
      assert data[pos..pos + |s|][m - pos] == s[m - pos] && s[m - pos] in s;
    }
    assert n >= |s|;
  }

  lemma Slices(pre: seq<Octet>, b: seq<Octet>, tail: seq<Octet>, k: nat)
    requires k <= |b|
    ensures var data := pre + b + tail;
      data[|pre|..|pre| + |b|] == b && data[|pre|..|pre| + k] == b[..k] && data[|pre| + k..|pre| + |b|] == b[k..]
    ensures k < |b| ==> (pre + b + tail)[|pre| + k] == b[k]
  {
  }

  lemma IntRoundTrip(d: Details, arg: Item, pre: seq<Octet>, tail: seq<Octet>)
    requires (d.kind.Kint? || d.kind.Kuint?) && GoodOption(d.kind, d.size) && PackedItem(d, arg).Ok?
    requires |pre + PackedItem(d, arg).value + tail| < 0x8000_0000_0000_0000
    ensures var b := PackedItem(d, arg).value; |b| == d.size && TakeItem(d, pre + b + tail, |pre|) == Ok(Taken(arg, |pre| + |b|))
  {
    hide Pow256, Unpacked, Bytes, Stored, StrLen, FitsSigned, Order;
    var b := PackedItem(d, arg).value;
    Slices(pre, b, tail, d.size);
    var neg := d.kind.Kint? && arg.n < 0;
    OrderTwice(Bytes(Stored(Unsigned(arg.n), d.size, neg), d.size), d.h.little);
    if d.kind.Kint? {
      SignedRoundTrip(arg.n, d.size);
    } else {
      UnsignedRoundTrip(arg.n, d.size);
    }
  }

  lemma StringRoundTrip(d: Details, arg: Item, pre: seq<Octet>, tail: seq<Octet>)
    requires d.kind.Kstring? && GoodOption(d.kind, d.size) && PackedItem(d, arg).Ok?
    requires |pre + PackedItem(d, arg).value + tail| < 0x8000_0000_0000_0000
    ensures var b := PackedItem(d, arg).value; |b| >= d.size && TakeItem(d, pre + b + tail, |pre|) == Ok(Taken(arg, |pre| + |b|))
  {
    hide Pow256, Unpacked, Bytes, Stored, StrLen, FitsSigned, Order;
    var b := PackedItem(d, arg).value;
    Slices(pre, b, tail, d.size);
    var c := PackedInt(|arg.s|, d.h.little, d.size, false);
    assert b == c + arg.s && b[..d.size] == c && b[d.size..] == arg.s;
    OrderTwice(Bytes(Stored(|arg.s|, d.size, false), d.size), d.h.little);
    UnsignedRoundTrip(|arg.s|, d.size);
  }

  lemma ZeroRoundTrip(d: Details, arg: Item, pre: seq<Octet>, tail: seq<Octet>)
    requires d.kind.Kzstr? && GoodOption(d.kind, d.size) && PackedItem(d, arg).Ok?
    requires |pre + PackedItem(d, arg).value + tail| < 0x8000_0000_0000_0000
    ensures var b := PackedItem(d, arg).value; var r := TakeItem(d, pre + b + tail, |pre|);
      if Short(d.kind, arg) then r == Ok(Taken(arg, |pre| + |b|)) else r.Ok? ==> r.value.item != arg
  {
    hide StrLen, Order;
    var b := PackedItem(d, arg).value;
    var n := |arg.s|;
    Slices(pre, b, tail, n);
    assert b == arg.s + [0] && b[..n] == arg.s && b[n] == 0;
    StrLenIs(pre + b + tail, |pre|, arg.s);
  }

  /** An item is read back as it was written; the one exception is a
      zero-terminated string of more than 2^31 - 1 bytes, which never is. */
  lemma ItemRoundTrip(d: Details, arg: Item, pre: seq<Octet>, tail: seq<Octet>)
    requires TakesItem(d.kind) && GoodOption(d.kind, d.size) && PackedItem(d, arg).Ok?
    requires |pre + PackedItem(d, arg).value + tail| < 0x8000_0000_0000_0000
    ensures var b := PackedItem(d, arg).value; |b| >= d.size
    ensures var b := PackedItem(d, arg).value; var r := TakeItem(d, pre + b + tail, |pre|);
      if Short(d.kind, arg) then r == Ok(Taken(arg, |pre| + |b|)) else r.Ok? ==> r.value.item != arg
  {
    hide Pow256, Unpacked, Bytes, Stored, StrLen, FitsSigned, PackedInt;
    var b := PackedItem(d, arg).value;
    match d.kind
    case Kint | Kuint =>
      IntRoundTrip(d, arg, pre, tail);
    case Kfloat =>
      OrderTwice(arg.bits, d.h.little);
      Slices(pre, b, tail, d.size);
    case Kchar =>
      Slices(pre, b, tail, d.size);
    case Kstring =>
      StringRoundTrip(d, arg, pre, tail);
    case Kzstr =>
      ZeroRoundTrip(d, arg, pre, tail);
  }

  lemma PackAfter(h: Header, fmt: string, i: nat, total: nat, args: seq<Item>)
    requires i < |fmt| && GoodHeader(h) && PackFrom(h, fmt, i, total, args).Ok? && fmt[i] != '\0'
    ensures GetDetails(h, total, fmt, i).Ok?
    ensures var d := GetDetails(h, total, fmt, i).value; var p := PackFrom(h, fmt, i, total, args).value;
      if TakesItem(d.kind) then
        && args != [] && PackedItem(d, args[0]).Ok?
        && var b := PackedItem(d, args[0]).value;
          var rest := PackFrom(d.h, fmt, d.at, total + d.pad + |b|, args[1..]);
          rest.Ok? && p == Packed(Pads(d.pad) + b + rest.value.bytes, 1 + rest.value.used)
      else
        var rest := PackFrom(d.h, fmt, d.at, total + d.pad + d.size, args);
        rest.Ok? && p == Packed(Pads(d.pad + d.size) + rest.value.bytes, rest.value.used)
  {
    hide GetDetails, PackedItem;
  }

  /** What a format writes it reads back, item by item, with any bytes before and
      after, exactly when the zero-terminated strings are not too long. */
  lemma {:induction false} RoundTripFrom(h: Header, fmt: string, i: nat, pre: seq<Octet>, args: seq<Item>, tail: seq<Octet>)
    requires i <= |fmt| && GoodHeader(h) && PackFrom(h, fmt, i, |pre|, args).Ok?
    requires |pre + PackFrom(h, fmt, i, |pre|, args).value.bytes + tail| < 0x8000_0000_0000_0000
    ensures var p := PackFrom(h, fmt, i, |pre|, args).value;
      UnpackFrom(h, fmt, i, pre + p.bytes + tail, |pre|) == Ok(Read(args[..p.used], |pre| + |p.bytes| + 1))
      <==> ShortStrings(h, fmt, i, |pre|, args)
    decreases |fmt| - i
  {
    hide GetDetails, PackedItem, TakeItem, Short;
    if Cur(fmt, i) != '\0' {
      PackAfter(h, fmt, i, |pre|, args);
      var d := GetDetails(h, |pre|, fmt, i).value;
      var p := PackFrom(h, fmt, i, |pre|, args).value;
      if TakesItem(d.kind) {
        ItemStep(h, fmt, i, pre, args, tail);
      } else {
        var pads := Pads(d.pad + d.size);
        var rest := PackFrom(d.h, fmt, d.at, |pre + pads|, args).value;
        RoundTripFrom(d.h, fmt, d.at, pre + pads, args, tail);
        assert pre + p.bytes + tail == pre + pads + rest.bytes + tail;
      }
    }
  }

  lemma {:induction false} ItemStep(h: Header, fmt: string, i: nat, pre: seq<Octet>, args: seq<Item>, tail: seq<Octet>)
    requires i < |fmt| && fmt[i] != '\0' && GoodHeader(h) && PackFrom(h, fmt, i, |pre|, args).Ok?
    requires GetDetails(h, |pre|, fmt, i).Ok? && TakesItem(GetDetails(h, |pre|, fmt, i).value.kind)
    requires |pre + PackFrom(h, fmt, i, |pre|, args).value.bytes + tail| < 0x8000_0000_0000_0000
    ensures var p := PackFrom(h, fmt, i, |pre|, args).value;
      UnpackFrom(h, fmt, i, pre + p.bytes + tail, |pre|) == Ok(Read(args[..p.used], |pre| + |p.bytes| + 1))
      <==> ShortStrings(h, fmt, i, |pre|, args)
    decreases |fmt| - i, 0
  {
    hide *;
    PackAfter(h, fmt, i, |pre|, args);
    var d := GetDetails(h, |pre|, fmt, i).value;
    var p := PackFrom(h, fmt, i, |pre|, args).value;
    var pads, b := Pads(d.pad), PackedItem(d, args[0]).value;
    var at := pre + pads;
    var rest := PackFrom(d.h, fmt, d.at, |at + b|, args[1..]).value;
    var data := pre + p.bytes + tail;
    assert data == at + b + (rest.bytes + tail) == at + b + rest.bytes + tail;
    ItemRoundTrip(d, args[0], at, rest.bytes + tail);
    RoundTripFrom(d.h, fmt, d.at, at + b, args[1..], tail);
    assert args[..p.used] == [args[0]] + args[1..][..rest.used];
    DetailsGood(h, |pre|, fmt, i);
    UnpackItem(h, fmt, i, data, |pre|);
    ShortItem(h, fmt, i, |pre|, args);
    var t := TakeItem(d, data, |at|);
    if t.Ok? {
      BeforeIs(t.value.item, UnpackFrom(d.h, fmt, d.at, data, t.value.pos), args[0], args[1..][..rest.used], |pre| + |p.bytes| + 1);
    }
  }

  lemma DetailsGood(h: Header, total: nat, fmt: string, i: nat)
    requires i < |fmt| && GoodHeader(h) && GetDetails(h, total, fmt, i).Ok?
    ensures var d := GetDetails(h, total, fmt, i).value; i < d.at <= |fmt| && GoodHeader(d.h) && GoodOption(d.kind, d.size)
  {
    hide *;
  }

  lemma ShortItem(h: Header, fmt: string, i: nat, total: nat, args: seq<Item>)
    requires i < |fmt| && fmt[i] != '\0' && GoodHeader(h) && PackFrom(h, fmt, i, total, args).Ok?
    requires GetDetails(h, total, fmt, i).Ok? && TakesItem(GetDetails(h, total, fmt, i).value.kind)
    ensures args != [] && PackedItem(GetDetails(h, total, fmt, i).value, args[0]).Ok?
    ensures var d := GetDetails(h, total, fmt, i).value;
      PackFrom(d.h, fmt, d.at, total + d.pad + |PackedItem(d, args[0]).value|, args[1..]).Ok?
    ensures var d := GetDetails(h, total, fmt, i).value;
      ShortStrings(h, fmt, i, total, args)
      <==> Short(d.kind, args[0]) && ShortStrings(d.h, fmt, d.at, total + d.pad + |PackedItem(d, args[0]).value|, args[1..])
  {
    hide GetDetails, PackedItem, Short;
    PackAfter(h, fmt, i, total, args);
  }

  lemma BeforeIs(x: Item, r: Result<Read>, a: Item, items: seq<Item>, n: nat)
    ensures Before([x], r) == Ok(Read([a] + items, n)) <==> x == a && r == Ok(Read(items, n))
  {
    if Before([x], r) == Ok(Read([a] + items, n)) {
      assert ([x] + r.value.items)[0] == x && ([a] + items)[0] == a;
      assert ([x] + r.value.items)[1..] == r.value.items && ([a] + items)[1..] == items;
    }
  }

  lemma UnpackItem(h: Header, fmt: string, i: nat, data: Text, pos: nat)
    requires i < |fmt| && fmt[i] != '\0' && GoodHeader(h) && GetDetails(h, pos, fmt, i).Ok?
    requires var d := GetDetails(h, pos, fmt, i).value; TakesItem(d.kind) && pos + d.pad + d.size <= |data|
    ensures var d := GetDetails(h, pos, fmt, i).value;
      UnpackFrom(h, fmt, i, data, pos) ==
      match TakeItem(d, data, pos + d.pad)
      case Err(e) => Err(e)
      case Ok(t) => Before([t.item], UnpackFrom(d.h, fmt, d.at, data, t.pos))
  {
    hide GetDetails, TakeItem;
  }

  /** `string.unpack` from position 1 gives back the arguments `string.pack` took
      and the position after the last byte, exactly when no argument written as a
      zero-terminated string has more than 2^31 - 1 bytes. */
  lemma RoundTrip(fmt: string, args: seq<Item>)
    requires Pack(fmt, args).Ok? && |Pack(fmt, args).value.bytes| < 0x8000_0000_0000_0000
    ensures var p := Pack(fmt, args).value;
      Unpack(fmt, p.bytes, 1) == Ok(Read(args[..p.used], |p.bytes| + 1)) <==> ShortStrings(Initial, fmt, 0, 0, args)
  {
    hide PackFrom, UnpackFrom, ShortStrings;
    var p := Pack(fmt, args).value;
    assert [] + p.bytes + [] == p.bytes;
    RoundTripFrom(Initial, fmt, 0, [], args, []);
  }

  /** A string for which it fails. */
  lemma LongStringIsLost()
    ensures var s := seq(MAXINT + 1, _ => 1); var p := Pack("z", [Str(s)]);
      p.Ok? && p.value.bytes == s + [0] && p.value.used == 1 && Unpack("z", p.value.bytes, 1) == Err(TooBig)
  {
    hide StrLen;
    var s: seq<Octet> := seq(MAXINT + 1, _ => 1);
    var d := Details(Kzstr, 0, 0, 1, Initial);
    assert GetDetails(Initial, 0, "z", 0) == Ok(d);
    assert PackedItem(d, Str(s)) == Ok(s + [0]);
    assert PackFrom(Initial, "z", 1, |s| + 1, []) == Ok(Packed([], 0));
    assert Pads(0) + (s + [0]) + [] == s + [0];
    var data := s + [0];
    assert data[0..0 + |s|] == s;
    StrLenIs(data, 0, s);
    assert TakeItem(d, data, 0) == Err(TooBig);
  }

  // ---- sizes ----

  /** `string.packsize`, for the format from `i` on. */
  function PackSizeFrom(h: Header, fmt: string, i: nat, total: nat): Result<nat>
    requires i <= |fmt| && GoodHeader(h)
    decreases |fmt| - i
  {
    if Cur(fmt, i) == '\0' then Ok(total)
    else
      match GetDetails(h, total, fmt, i)
      case Err(e) => Err(e)
      case Ok(d) =>
        if total + d.size + d.pad > MAXINT then Err(TooLarge)
        else if d.kind.Kstring? || d.kind.Kzstr? then Err(VariableLength)
        else PackSizeFrom(d.h, fmt, d.at, total + d.size + d.pad)
  }

  lemma FixedSize(d: Details, arg: Item)
    requires TakesItem(d.kind) && GoodOption(d.kind, d.size) && PackedItem(d, arg).Ok? && !d.kind.Kstring? && !d.kind.Kzstr?
    ensures |PackedItem(d, arg).value| == d.size
  {
    hide PackedInt, FitsSigned, Pow256;
  }

  /** A size that `string.packsize` announces is the size of everything that
      `string.pack` makes with that format. */
  lemma {:induction false} PackSizeIs(h: Header, fmt: string, i: nat, total: nat, args: seq<Item>)
    requires i <= |fmt| && GoodHeader(h)
    requires PackFrom(h, fmt, i, total, args).Ok? && PackSizeFrom(h, fmt, i, total).Ok?
    ensures PackSizeFrom(h, fmt, i, total).value == total + |PackFrom(h, fmt, i, total, args).value.bytes|
    decreases |fmt| - i
  {
    hide GetDetails, PackedItem;
    if Cur(fmt, i) != '\0' {
      PackAfter(h, fmt, i, total, args);
      var d := GetDetails(h, total, fmt, i).value;
      if TakesItem(d.kind) {
        FixedSize(d, args[0]);
        PackSizeIs(d.h, fmt, d.at, total + d.size + d.pad, args[1..]);
      } else {
        PackSizeIs(d.h, fmt, d.at, total + d.size + d.pad, args);
      }
    }
  }
}
