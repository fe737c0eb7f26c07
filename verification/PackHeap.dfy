/** `str_pack`, `str_unpack` and `str_packsize` as they run: one pass over the
  format, with what is in force updated in place. */
module PackHeap {
  import opened PackNumber
  import opened Powers
  import opened PackFormat
  import opened PackLetters
  import opened PackMeaning

  /** A format that is being read: `Header` and the pointer into the format. */
  class Format {
    const fmt: string
    var at: nat
    var h: Header

    ghost predicate Valid()
      reads this
    {
      at <= |fmt| && GoodHeader(h)
    }

    constructor (fmt: string)
      ensures Valid() && this.fmt == fmt && at == 0 && h == Initial
    {
      this.fmt, at, h := fmt, 0, Initial;
    }

    /** `getnum` */
    method GetNum(df: int) returns (n: int)
      requires Valid()
      modifies this`at
      ensures Valid() && (n, at) == Numeral(fmt, old(at), df)
    {
      if !IsDigit(Cur(fmt, at)) { return df; }
      var a := 0;
      while true
        invariant old(at) <= at < |fmt| && IsDigit(Cur(fmt, at)) && 0 <= a <= (MAXINT - 9) / 10
        invariant Digits(fmt, at, a) == Digits(fmt, old(at), 0)
        decreases |fmt| - at
      {
        a := a * 10 + DigitOf(Cur(fmt, at));
        at := at + 1;
        if !(IsDigit(Cur(fmt, at)) && a <= (MAXINT - 9) / 10) { break; }
      }
      return a;
    }

    /** `getnumlimit` */
    method GetNumLimit(df: int) returns (r: Result<nat>)
      requires Valid()
      modifies this`at
      ensures match LimitedNumeral(fmt, old(at), df)
        case Err(e) => r == Err(e)
        case Ok((n, j)) => r == Ok(n) && at == j && Valid()
    {
      var n := GetNum(df);
      if n > MAXINTSIZE || n <= 0 { return Err(SizeLimits); }
      return Ok(n);
    }

    /** The option at the place where the format is read. */
    ghost predicate Took(r: Result<(KOption, nat)>, o: Result<PackFormat.Option>)
      reads this
    {
      match o
      case Err(e) => r == Err(e)
      case Ok(o) => r == Ok((o.kind, o.size)) && at == o.at && h == o.h && Valid()
    }

    /** The options with a numeral. */
    method GetSizedOption(c: char) returns (r: Result<(KOption, nat)>)
      requires Valid() && at > 0 && c == fmt[at - 1] && (c == 'i' || c == 'I' || c == 's' || c == 'c' || c == '!')
      modifies this
      ensures Took(r, PackFormat.GetOption(old(h), fmt, old(at) - 1))
    {
      if c == 'c' {
        var n := GetNum(-1);
        if n == -1 { return Err(MissingSize); }
        return Ok((Kchar, n));
      }
      var m := GetNumLimit(if c == 's' then 8 else if c == '!' then MAXALIGN else 4);
      if m.Err? { return Err(m.error); }
      if c == '!' {
        h := h.(maxalign := m.value);
        return Ok((Knop, 0));
      }
      return Ok((if c == 'i' then Kint else if c == 'I' then Kuint else Kstring, m.value));
    }

    /** `getoption` */
    method GetOption() returns (r: Result<(KOption, nat)>)
      requires Valid() && at < |fmt|
      modifies this
      ensures Took(r, PackFormat.GetOption(old(h), fmt, old(at)))
    {
      var c := fmt[at];
      at := at + 1;
      match c
      case 'b' => r := Ok((Kint, 1));
      case 'B' => r := Ok((Kuint, 1));
      case 'h' => r := Ok((Kint, 2));
      case 'H' => r := Ok((Kuint, 2));
      case 'l' => r := Ok((Kint, 8));
      case 'L' => r := Ok((Kuint, 8));
      case 'j' => r := Ok((Kint, 8));
      case 'J' => r := Ok((Kuint, 8));
      case 'T' => r := Ok((Kuint, 8));
      case 'f' => r := Ok((Kfloat, 4));
      case 'd' => r := Ok((Kfloat, 8));
      case 'n' => r := Ok((Kfloat, 8));
      case 'z' => r := Ok((Kzstr, 0));
      case 'x' => r := Ok((Kpadding, 1));
      case 'X' => r := Ok((Kpaddalign, 0));
      case ' ' => r := Ok((Knop, 0));
      case '<' => h := h.(little := true); r := Ok((Knop, 0));
      case '>' => h := h.(little := false); r := Ok((Knop, 0));
      case '=' => h := h.(little := true); r := Ok((Knop, 0));
      case _ =>
        if c == 'i' || c == 'I' || c == 's' || c == 'c' || c == '!' {
          r := GetSizedOption(c);
        } else {
          r := Err(BadOption);
        }
    }

    /** An option with its padding, in place. */
    ghost predicate TookDetails(r: Result<(KOption, nat, nat)>, d: Result<Details>)
      reads this
    {
      match d
      case Err(e) => r == Err(e)
      case Ok(d) => r == Ok((d.kind, d.size, d.pad)) && at == d.at && h == d.h && Valid()
    }

    /** The option is the one that the text says, with just the padding it needs, and
        what the text sets so far is in force; unless a digit is left over. */
    ghost predicate AsSaid(i: nat, total: nat, kind: KOption, size: nat, pad: nat)
      reads this
    {
      (kind.Kchar? && Stray(fmt, at)) || exists align: nat ::
        Says(fmt, i, kind, size, align) && pad < align && (total + pad) % align == 0 && at == OptionEnd(fmt, i) && InForce(h, fmt, at)
    }

    lemma DetailsAsSaid(h0: Header, i: nat, total: nat)
      requires i < |fmt| && GoodHeader(h0) && InForce(h0, fmt, i) && PackFormat.GetDetails(h0, total, fmt, i).Ok?
      requires var d := PackFormat.GetDetails(h0, total, fmt, i).value; at == d.at && h == d.h
      ensures var d := PackFormat.GetDetails(h0, total, fmt, i).value; AsSaid(i, total, d.kind, d.size, d.pad)
    {
      hide PackFormat.GetDetails, Says, InForce, OptionEnd;
      var d := PackFormat.GetDetails(h0, total, fmt, i).value;
      if !(d.kind.Kchar? && Stray(fmt, d.at)) {
        var align := DetailsSay(h0, total, fmt, i, d);
        PaddingIsOne(total, align, d.pad);
      }
    }

    /** `getdetails` */
    method GetDetails(total: nat) returns (r: Result<(KOption, nat, nat)>)
      requires Valid() && at < |fmt|
      modifies this
      ensures TookDetails(r, PackFormat.GetDetails(old(h), total, fmt, old(at)))
      ensures r.Ok? && InForce(old(h), fmt, old(at)) ==> AsSaid(old(at), total, r.value.0, r.value.1, r.value.2)
    {
      hide AsSaid, InForce;
      r := ReadDetails(total);
      if r.Ok? && InForce(old(h), fmt, old(at)) { DetailsAsSaid(old(h), old(at), total); }
    }

    method ReadDetails(total: nat) returns (r: Result<(KOption, nat, nat)>)
      requires Valid() && at < |fmt|
      modifies this
      ensures TookDetails(r, PackFormat.GetDetails(old(h), total, fmt, old(at)))
    {
      hide PackFormat.GetOption, Padding;
      var o := GetOption();
      if o.Err? { return Err(o.error); }
      var (kind, size) := o.value;
      var align := size;
      if kind.Kpaddalign? {
        if Cur(fmt, at) == '\0' { return Err(BadNext); }
        var next := GetOption();
        if next.Err? { return Err(next.error); }
        if next.value.0.Kchar? || next.value.1 == 0 { return Err(BadNext); }
        align := next.value.1;
      }
      if align <= 1 || kind.Kchar? { return Ok((kind, size, 0)); }
      if align > h.maxalign { align := h.maxalign; }
      if !GoodAlignment(align) { return Err(NotPowerOfTwo); }
      return Ok((kind, size, Padding(total, align)));
    }
  }

  // ---- pack ----

  /** The bytes of one argument: the cases of the `switch` of `str_pack`. */
  method PackItem(d: Details, arg: Item) returns (r: Result<seq<Octet>>)
    requires TakesItem(d.kind) && GoodOption(d.kind, d.size)
    ensures r == PackedItem(d, arg)
  {
    hide Pow256;
    match d.kind
    case Kint =>
      if !arg.Int? { return Err(BadArgument); }
      if d.size < SZINT && !FitsSigned(arg.n, d.size) { return Err(IntegerOverflow); }
      var b := PackInt(Unsigned(arg.n), d.h.little, d.size, arg.n < 0);
      return Ok(b[..]);
    case Kuint =>
      if !arg.Int? { return Err(BadArgument); }
      if d.size < SZINT && Unsigned(arg.n) >= Pow256(d.size) { return Err(UnsignedOverflow); }
      var b := PackInt(Unsigned(arg.n), d.h.little, d.size, false);
      return Ok(b[..]);
    case Kfloat =>
      if !arg.Float? || |arg.bits| != d.size { return Err(BadArgument); }
      var b := CopyWithEndian(arg.bits, d.h.little);
      return Ok(b);
    case Kchar =>
      if !arg.Str? { return Err(BadArgument); }
      if |arg.s| != d.size { return Err(WrongLength); }
      return Ok(arg.s);
    case Kstring =>
      if !arg.Str? { return Err(BadArgument); }
      if d.size < SZINT && |arg.s| >= Pow256(d.size) { return Err(LengthDoesNotFit); }
      var b := PackInt(|arg.s|, d.h.little, d.size, false);
      return Ok(b[..] + arg.s);
    case Kzstr =>
      if !arg.Str? { return Err(BadArgument); }
      if 0 in arg.s { return Err(HasZeros); }
      return Ok(arg.s + [0]);
  }

  /** `copywithendian`, on a little-endian machine. */
  method CopyWithEndian(src: seq<Octet>, little: bool) returns (dest: seq<Octet>)
    ensures dest == Order(src, little)
  {
    if little { return src; }
    dest := [];
    for k := 0 to |src|
      invariant |dest| == k && forall j | 0 <= j < k :: dest[j] == src[k - 1 - j]
    {
      dest := [src[k]] + dest;
    }
  }

  lemma AfterAfter(a: seq<Octet>, k: nat, b: seq<Octet>, m: nat, r: Result<Packed>)
    ensures After(a, k, After(b, m, r)) == After(a + b, k + m, r)
  {
    if r.Ok? { assert a + (b + r.value.bytes) == a + b + r.value.bytes; }
  }

  lemma PackFromItem(h: Header, fmt: string, i: nat, total: nat, args: seq<Item>, d: Details, item: seq<Octet>)
    requires i <= |fmt| && GoodHeader(h) && Cur(fmt, i) != '\0' && PackFormat.GetDetails(h, total, fmt, i) == Ok(d)
    requires TakesItem(d.kind) && args != [] && PackedItem(d, args[0]) == Ok(item)
    ensures PackFrom(h, fmt, i, total, args) == After(Pads(d.pad) + item, 1, PackFrom(d.h, fmt, d.at, total + d.pad + |item|, args[1..]))
  {
    hide PackedItem, PackFormat.GetDetails, After, Pads;
  }

  lemma PackFromPad(h: Header, fmt: string, i: nat, total: nat, args: seq<Item>, d: Details)
    requires i <= |fmt| && GoodHeader(h) && Cur(fmt, i) != '\0' && PackFormat.GetDetails(h, total, fmt, i) == Ok(d)
    requires !TakesItem(d.kind)
    ensures PackFrom(h, fmt, i, total, args) == After(Pads(d.pad + d.size), 0, PackFrom(d.h, fmt, d.at, total + d.pad + d.size, args))
  {
    hide PackedItem, PackFormat.GetDetails, After, Pads;
  }

  /** Where packing ends, well or badly. */
  lemma PackFromStops(h: Header, fmt: string, i: nat, total: nat, args: seq<Item>)
    requires i <= |fmt| && GoodHeader(h)
    ensures Cur(fmt, i) == '\0' ==> PackFrom(h, fmt, i, total, args) == Ok(Packed([], 0))
    ensures Cur(fmt, i) != '\0' ==>
      match PackFormat.GetDetails(h, total, fmt, i)
      case Err(e) => PackFrom(h, fmt, i, total, args) == Err(e)
      case Ok(d) =>
        && (TakesItem(d.kind) && args == [] ==> PackFrom(h, fmt, i, total, args) == Err(BadArgument))
        && (TakesItem(d.kind) && args != [] && PackedItem(d, args[0]).Err? ==>
              PackFrom(h, fmt, i, total, args) == Err(PackedItem(d, args[0]).error))
  {
    hide PackedItem, PackFormat.GetDetails, After, Pads;
  }

  /** `str_pack` */
  method StrPack(fmt: string, args: seq<Item>) returns (r: Result<seq<Octet>>)
    ensures match Pack(fmt, args)
      case Err(e) => r == Err(e)
      case Ok(p) => r == Ok(p.bytes)
    ensures r.Ok? ==> exists used: nat :: Written(fmt, 0, 0, args, used, r.value)
    ensures forall used: nat, b | Written(fmt, 0, 0, args, used, b) :: r == Ok(b)
  {
    hide Pack, Written;
    r := PackAll(fmt, args);
    if r.Ok? { PackIs(fmt, args, Pack(fmt, args).value.used, r.value); }
    forall used: nat, b | Written(fmt, 0, 0, args, used, b) ensures r == Ok(b) { PackIs(fmt, args, used, b); }
  }

  method PackAll(fmt: string, args: seq<Item>) returns (r: Result<seq<Octet>>)
    ensures match Pack(fmt, args)
      case Err(e) => r == Err(e)
      case Ok(p) => r == Ok(p.bytes)
  {
    hide PackFormat.GetDetails, PackedItem, PackFrom, Pads;
    var f := new Format(fmt);
    var b: seq<Octet> := [];
    var arg, totalsize := 0, 0;
    ghost var goal := Pack(fmt, args);
    Start0(goal);
    while Cur(fmt, f.at) != '\0'
      invariant f.Valid() && f.fmt == fmt && arg <= |args| && totalsize == |b|
      invariant goal == After(b, arg, PackFrom(f.h, fmt, f.at, totalsize, args[arg..]))
      decreases |fmt| - f.at
    {
      ghost var h, i, rest := f.h, f.at, args[arg..];
      PackFromStops(h, fmt, i, |b|, rest);
      var o := f.GetDetails(totalsize);
      if o.Err? { return Err(o.error); }
      var (kind, size, ntoalign) := o.value;
      var d := Details(kind, size, ntoalign, f.at, f.h);
      assert PackFormat.GetDetails(h, totalsize, fmt, i) == Ok(d);
      if TakesItem(kind) {
        if arg == |args| { return Err(BadArgument); }
        assert rest[0] == args[arg] && rest[1..] == args[arg + 1..];
        var item := PackItem(d, args[arg]);
        if item.Err? { return Err(item.error); }
        PackFromItem(h, fmt, i, |b|, rest, d, item.value);
        AfterAfter(b, arg, Pads(ntoalign) + item.value, 1, PackFrom(f.h, fmt, f.at, |b| + ntoalign + |item.value|, args[arg + 1..]));
        b := b + (Pads(ntoalign) + item.value);
        totalsize := totalsize + ntoalign + |item.value|;
        arg := arg + 1;
      } else {
        PackFromPad(h, fmt, i, |b|, rest, d);
        AfterAfter(b, arg, Pads(ntoalign + size), 0, PackFrom(f.h, fmt, f.at, |b| + ntoalign + size, rest));
        b := b + Pads(ntoalign + size);
        totalsize := totalsize + ntoalign + size;
      }
    }
    PackFromStops(f.h, fmt, f.at, totalsize, args[arg..]);
    assert b + [] == b;
    return Ok(b);
  }

  lemma Start0(r: Result<Packed>)
    ensures After([], 0, r) == r
  {
    if r.Ok? { assert [] + r.value.bytes == r.value.bytes; }
  }

  // ---- unpack ----

  /** `strlen` */
  method FindZero(data: seq<Octet>, pos: nat) returns (n: nat)
    requires pos <= |data|
    ensures n == StrLen(data, pos)
  {
    n := 0;
    while pos + n < |data| && data[pos + n] != 0
      invariant pos + n <= |data| && n + StrLen(data, pos + n) == StrLen(data, pos)
    {
      n := n + 1;
    }
  }

  /** The cases of the `switch` of `str_unpack`. */
  method UnpackItem(d: Details, data: Text, pos: nat) returns (r: Result<Taken>)
    requires TakesItem(d.kind) && GoodOption(d.kind, d.size) && pos + d.size <= |data|
    ensures r == TakeItem(d, data, pos)
  {
    hide Unpacked, StrLen;
    match d.kind
    case Kint | Kuint =>
      var res := UnpackInt(data, pos, d.h.little, d.size, d.kind.Kint?);
      if res.None? { return Err(DoesNotFit); }
      return Ok(Taken(Int(res.value), pos + d.size));
    case Kfloat =>
      var b := CopyWithEndian(data[pos..pos + d.size], d.h.little);
      return Ok(Taken(Float(b), pos + d.size));
    case Kchar =>
      return Ok(Taken(Str(data[pos..pos + d.size]), pos + d.size));
    case Kstring =>
      var res := UnpackInt(data, pos, d.h.little, d.size, false);
      if res.None? { return Err(DoesNotFit); }
      var len := Unsigned(res.value);
      if (pos + len + d.size) % W > |data| { return Err(TooShort); }
      if pos + len + d.size > |data| { return Err(Overrun); }
      return Ok(Taken(Str(data[pos + d.size..pos + d.size + len]), pos + d.size + len));
    case Kzstr =>
      var n := FindZero(data, pos);
      var len := IntCast(n);
      if len < 0 { return Err(TooBig); }
      return Ok(Taken(Str(data[pos..pos + len]), pos + len + 1));
  }

  lemma BeforeBefore(a: seq<Item>, b: seq<Item>, r: Result<Read>)
    ensures Before(a, Before(b, r)) == Before(a + b, r)
    ensures Before([], r) == r
  {
    if r.Ok? {
      assert a + (b + r.value.items) == a + b + r.value.items;
      assert [] + r.value.items == r.value.items;
    }
  }

  /** `str_unpack` */
  method StrUnpack(fmt: string, data: Text, init: Integer) returns (r: Result<Read>)
    ensures r == Unpack(fmt, data, init)
    ensures r.Ok? ==> exists pos: nat :: Begins(init, |data|, pos) && Found(fmt, 0, data, pos, r.value.items, r.value.next)
    ensures forall pos: nat, items, next | Begins(init, |data|, pos) && Found(fmt, 0, data, pos, items, next) :: r == Ok(Read(items, next))
  {
    hide Unpack, Found, Begins;
    r := UnpackAll(fmt, data, init);
    if r.Ok? { UnpackIs(fmt, data, init, r.value.items, r.value.next); }
    forall pos: nat, items, next | Begins(init, |data|, pos) && Found(fmt, 0, data, pos, items, next) ensures r == Ok(Read(items, next)) {
      UnpackIs(fmt, data, init, items, next);
    }
  }

  method UnpackAll(fmt: string, data: Text, init: Integer) returns (r: Result<Read>)
    ensures r == Unpack(fmt, data, init)
  {
    hide PackFormat.GetDetails, TakeItem;
    var first := Start(init, |data|);
    if first < 0 || first > |data| { return Err(BadPosition); }
    var pos: nat := first;
    var f := new Format(fmt);
    var items: seq<Item> := [];
    ghost var goal := UnpackFrom(Initial, fmt, 0, data, pos);
    BeforeBefore([], [], goal);
    while Cur(fmt, f.at) != '\0'
      invariant f.Valid() && f.fmt == fmt
      invariant goal == Before(items, UnpackFrom(f.h, fmt, f.at, data, pos))
      decreases |fmt| - f.at
    {
      ghost var h, i := f.h, f.at;
      var o := f.GetDetails(pos);
      if o.Err? { return Err(o.error); }
      var (kind, size, ntoalign) := o.value;
      var d := Details(kind, size, ntoalign, f.at, f.h);
      assert PackFormat.GetDetails(h, pos, fmt, i) == Ok(d);
      if pos + ntoalign + size > |data| { return Err(TooShort); }
      if TakesItem(kind) {
        var t := UnpackItem(d, data, pos + ntoalign);
        if t.Err? { return Err(t.error); }
        BeforeBefore(items, [t.value.item], UnpackFrom(f.h, fmt, f.at, data, t.value.pos));
        items := items + [t.value.item];
        pos := t.value.pos;
      } else {
        pos := pos + ntoalign + size;
      }
    }
    assert items + [] == items;
    return Ok(Read(items, pos + 1));
  }

  /** `str_packsize` */
  method StrPackSize(fmt: string) returns (r: Result<nat>)
    ensures r == PackSizeFrom(Initial, fmt, 0, 0)
    ensures forall args | r.Ok? && Pack(fmt, args).Ok? :: |Pack(fmt, args).value.bytes| == r.value
  {
    hide PackFormat.GetDetails;
    var f := new Format(fmt);
    var totalsize := 0;
    ghost var goal := PackSizeFrom(Initial, fmt, 0, 0);
    forall args | goal.Ok? && Pack(fmt, args).Ok? ensures |Pack(fmt, args).value.bytes| == goal.value {
      PackSizeIs(Initial, fmt, 0, 0, args);
    }
    while Cur(fmt, f.at) != '\0'
      invariant f.Valid() && f.fmt == fmt && goal == PackSizeFrom(f.h, fmt, f.at, totalsize)
      decreases |fmt| - f.at
    {
      ghost var h, i := f.h, f.at;
      var o := f.GetDetails(totalsize);
      if o.Err? { return Err(o.error); }
      var (kind, size, ntoalign) := o.value;
      assert PackFormat.GetDetails(h, totalsize, fmt, i) == Ok(Details(kind, size, ntoalign, f.at, f.h));
      if totalsize + size + ntoalign > MAXINT { return Err(TooLarge); }
      totalsize := totalsize + size + ntoalign;
      if kind.Kstring? || kind.Kzstr? { return Err(VariableLength); }
    }
    return Ok(totalsize);
  }

  /** Packing and then unpacking, as calls. */
  method PackThenUnpack(fmt: string, args: seq<Item>) returns (packed: Result<seq<Octet>>, got: Result<Read>)
    ensures packed.Ok? ==> Pack(fmt, args).Ok? && packed.value == Pack(fmt, args).value.bytes
    ensures packed.Ok? && |packed.value| < 0x8000_0000_0000_0000 && ShortStrings(Initial, fmt, 0, 0, args) ==>
      got == Ok(Read(args[..Pack(fmt, args).value.used], |packed.value| + 1))
  {
    hide Pack, Unpack, ShortStrings;
    got := Err(TooBig);
    packed := StrPack(fmt, args);
    if packed.Ok? && |packed.value| < 0x8000_0000_0000_0000 {
      RoundTrip(fmt, args);
      got := StrUnpack(fmt, packed.value, 1);
    }
  }
}
