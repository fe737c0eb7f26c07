/** What `string.pack` writes and `string.unpack` reads, said of the bytes and of the
  text of the format alone. */
module PackMeaning {
  import opened Powers
  import opened PackNumber
  import opened PackFormat
  import opened PackLetters

  // ---- items ----

  /** Where the `i`-th byte of `size` bytes stands, counted from the least
      significant. */
  function Place(big: bool, size: nat, i: nat): (p: nat)
    requires i < size
    ensures p < size
  {
    if big then size - 1 - i else i
  }

  /** `b` holds `v` in two's complement. */
  predicate Complement(b: seq<Octet>, v: int, big: bool) {
    forall i: nat | i < |b| :: b[Place(big, |b|, i)] == v / Pow256(i) % 256
  }

  /** `n` taken for a number without sign. */
  function Cast(n: int): int { if n < 0 then n + 0x1_0000_0000_0000_0000 else n }

  /** The bytes `b` are the item as an option of this kind and size writes it. */
  predicate Encodes(kind: KOption, size: nat, big: bool, x: Item, b: seq<Octet>) {
    match kind
    case Kint => x.Int? && |b| == size && 0 <= 2 * x.n + Pow256(size) && 2 * x.n < Pow256(size) && Complement(b, x.n, big)
    case Kuint => x.Int? && |b| == size && Cast(x.n) < Pow256(size) && Complement(b, Cast(x.n), big)
    case Kfloat => x.Float? && |b| == size == |x.bits| && forall i: nat | i < size :: b[Place(big, size, i)] == x.bits[i]
    case Kchar => x.Str? && |x.s| == size && b == x.s
    case Kstring => x.Str? && |b| == size + |x.s| && |x.s| < Pow256(size) && Complement(b[..size], |x.s|, big) && b[size..] == x.s
    case Kzstr => x.Str? && 0 !in x.s && b == x.s + [0]
    case _ => false
  }

  /** An item of this kind and size is read from the data between `from` and `to`. A
      zero-terminated string may also end with the data, and its length is cut to an
      `int`. */
  ghost predicate Holds(kind: KOption, size: nat, big: bool, data: seq<Octet>, from: nat, x: Item, to: nat) {
    if kind.Kzstr? then
      && x.Str? && from + |x.s| <= |data| && x.s == data[from..from + |x.s|] && to == from + |x.s| + 1
      && |x.s| < 0x8000_0000 && exists n: nat :: UpToZero(data, from, n) && (n - |x.s|) % 0x1_0000_0000 == 0
    else from <= to <= |data| && Encodes(kind, size, big, x, data[from..to])
  }

  predicate UpToZero(data: seq<Octet>, from: nat, n: nat) {
    from + n <= |data| && (forall k | from <= k < from + n :: data[k] != 0) && (from + n < |data| ==> data[from + n] == 0)
  }

  // ---- whole formats ----

  predicate Zeros(b: seq<Octet>) { forall i | 0 <= i < |b| :: b[i] == 0 }

  predicate Ended(fmt: string, i: nat) { i >= |fmt| || fmt[i] == '\0' }

  /** What an option takes: its padding, and then the bytes of its own. */
  datatype Field = Field(kind: KOption, size: nat, align: nat, pad: nat, len: nat)

  /** The field of the option at `i`, put at `start`: just as much padding as brings
      it to a multiple of its alignment. */
  ghost predicate FieldAt(fmt: string, i: nat, start: nat, f: Field) {
    Says(fmt, i, f.kind, f.size, f.align) && f.pad < f.align && (start + f.pad) % f.align == 0
  }

  /** `b` is what the format from `i` on writes at `start`, taking `used` arguments. */
  ghost predicate Written(fmt: string, i: nat, start: nat, args: seq<Item>, used: nat, b: seq<Octet>)
    decreases |fmt| - i, 1
  {
    if Ended(fmt, i) then used == 0 && b == []
    else exists f: Field :: WrittenField(fmt, i, start, args, used, b, f)
  }

  /** The option at `i` writes the field `f`, the others what follows. */
  ghost predicate WrittenField(fmt: string, i: nat, start: nat, args: seq<Item>, used: nat, b: seq<Octet>, f: Field)
    requires i < |fmt|
    decreases |fmt| - i, 0
  {
    && FieldAt(fmt, i, start, f) && f.pad + f.len <= |b| && Zeros(b[..f.pad])
    && var own, rest, at := b[f.pad..f.pad + f.len], b[f.pad + f.len..], start + f.pad + f.len;
      if TakesItem(f.kind) then
        && args != [] && used > 0 && Encodes(f.kind, f.size, Big(fmt, i), args[0], own)
        && Written(fmt, OptionEnd(fmt, i), at, args[1..], used - 1, rest)
      else f.len == f.size && Zeros(own) && Written(fmt, OptionEnd(fmt, i), at, args, used, rest)
  }

  /** `items` are what the format from `i` on finds in the data at `pos`; the position
      after them, counted from 1, is `next`. */
  ghost predicate Found(fmt: string, i: nat, data: seq<Octet>, pos: nat, items: seq<Item>, next: nat)
    decreases |fmt| - i, 1
  {
    if Ended(fmt, i) then items == [] && next == pos + 1
    else exists f: Field :: FoundField(fmt, i, data, pos, items, next, f)
  }

  /** The option at `i` reads the field `f`, the others what follows. */
  ghost predicate FoundField(fmt: string, i: nat, data: seq<Octet>, pos: nat, items: seq<Item>, next: nat, f: Field)
    requires i < |fmt|
    decreases |fmt| - i, 0
  {
    && FieldAt(fmt, i, pos, f) && pos + f.pad + f.size <= |data|
    && var from, to := pos + f.pad, pos + f.pad + f.len;
      if TakesItem(f.kind) then
        && items != [] && Holds(f.kind, f.size, Big(fmt, i), data, from, items[0], to)
        && Found(fmt, OptionEnd(fmt, i), data, to, items[1..], next)
      else f.len == f.size && Found(fmt, OptionEnd(fmt, i), data, to, items, next)
  }

  /** The position argument counts from 1, or from the end if it is negative. */
  predicate Begins(init: Integer, len: nat, pos: nat) {
    pos <= len && (if init > 0 then pos == init - 1 else init < 0 && pos == len + init)
  }

  // ---- two's complement ----

  /** In little-endian order, the bytes are those of `v` exactly when their value is
      `v` modulo the range. */
  lemma {:induction false} ComplementIs(b: seq<Octet>, v: int)
    ensures Complement(b, v, false) <==> Value(b) == v % Pow256(|b|)
    decreases |b|
  {
    if b != [] {
      var c := b[1..];
      ComplementIs(c, v / 256);
      DivDiv(v, 256, Pow256(|c|));
      forall i: nat | i < |c| ensures c[Place(false, |c|, i)] == b[i + 1] && v / 256 / Pow256(i) == v / Pow256(i + 1) {
        DivDiv(v, 256, Pow256(i));
      }
      ComplementHead(b, v);
      assert Value(b) == b[0] + 256 * Value(c);
    }
  }

  lemma ComplementHead(b: seq<Octet>, v: int)
    requires b != [] && forall i: nat | i < |b| - 1 :: b[1..][i] == b[i + 1] && v / 256 / Pow256(i) == v / Pow256(i + 1)
    ensures Complement(b, v, false) <==> b[0] == v % 256 && Complement(b[1..], v / 256, false)
  {
    var c := b[1..];
    assert Pow256(0) == 1;
    if b[0] == v % 256 && Complement(c, v / 256, false) {
      forall i: nat | i < |b| ensures b[Place(false, |b|, i)] == v / Pow256(i) % 256 {
        if i > 0 { assert c[Place(false, |c|, i - 1)] == b[i]; }
      }
    }
    if Complement(b, v, false) {
      forall i: nat | i < |c| ensures c[Place(false, |c|, i)] == v / 256 / Pow256(i) % 256 {
        assert b[Place(false, |b|, i + 1)] == v / Pow256(i + 1) % 256;
      }
      assert b[Place(false, |b|, 0)] == v / Pow256(0) % 256;
    }
  }

  /** The order of the bytes is that of the header. */
  lemma ComplementOrder(b: seq<Octet>, v: int, little: bool)
    ensures Complement(Order(b, little), v, !little) <==> Complement(b, v, false)
  {
    hide Pow256;
    var c := Order(b, little);
    forall i: nat | i < |b| ensures c[Place(!little, |b|, i)] == b[i] {}
    if Complement(c, v, !little) {
      forall i: nat | i < |b| ensures b[Place(false, |b|, i)] == v / Pow256(i) % 256 { assert c[Place(!little, |c|, i)] == b[i]; }
    }
  }

  // ---- items are written and read so ----

  lemma SignedIs(n: Integer, size: nat, b: seq<Octet>, little: bool)
    requires 1 <= size
    ensures (size < SZINT ==> FitsSigned(n, size)) <==> 0 <= 2 * n + Pow256(size) && 2 * n < Pow256(size)
    ensures (size < SZINT ==> FitsSigned(n, size)) ==>
      (b == PackedInt(Unsigned(n), little, size, n < 0) <==> |b| == size && Complement(b, n, !little))
  {
    hide Pow256, Complement, Bytes, Value, Stored, Order;
    PowValues();
    if size >= SZINT { PowMonotone(SZINT, size); }
    if size < SZINT ==> FitsSigned(n, size) {
      var c := Order(b, little);
      OrderTwice(b, little);
      if |b| == size {
        ComplementOrder(c, n, little);
        ComplementIs(c, n);
        StoredIs(n, size);
        BytesOfValue(c);
      }
      ValueOfBytes(Stored(Unsigned(n), size, n < 0), size);
      OrderTwice(Bytes(Stored(Unsigned(n), size, n < 0), size), little);
      BytesAre(c, Stored(Unsigned(n), size, n < 0), size);
    }
  }

  /** Bytes are determined by the number modulo the range. */
  lemma BytesAre(c: seq<Octet>, m: nat, size: nat)
    ensures c == Bytes(m, size) <==> |c| == size && Value(c) == m % Pow256(size)
  {
    hide Pow256, Bytes, Value;
    ValueOfBytes(m, size);
    if |c| == size && Value(c) == m % Pow256(size) {
      BytesOfValue(c);
      BytesOfValue(Bytes(m, size));
    }
  }

  lemma StoredIs(n: Integer, size: nat)
    requires 1 <= size && (size < SZINT ==> FitsSigned(n, size))
    ensures Stored(Unsigned(n), size, n < 0) % Pow256(size) == n % Pow256(size)
  {
    hide Pow256, Stored;
    Residue(n, size);
    PowValues();
    if size >= SZINT { PowMonotone(SZINT, size); }
    var p := Pow256(size);
    if n >= 0 { ModIsInt(n, p, 0, n); } else { ModIsInt(n, p, -1, n + p); }
  }

  lemma UnsignedIs(u: nat, size: nat, b: seq<Octet>, little: bool)
    requires 1 <= size
    ensures b == PackedInt(u, little, size, false) <==> |b| == size && Complement(b, u, !little)
  {
    hide Pow256, Complement, Bytes, Value, Order;
    var c := Order(b, little);
    OrderTwice(b, little);
    OrderTwice(Bytes(u, size), little);
    BytesAre(c, u, size);
    ComplementOrder(c, u, little);
    ComplementIs(c, u);
  }

  lemma CastIs(n: Integer, size: nat)
    requires 1 <= size
    ensures Cast(n) == Unsigned(n)
    ensures (size < SZINT ==> Unsigned(n) < Pow256(size)) <==> Cast(n) < Pow256(size)
  {
    PowValues();
    if size >= SZINT { PowMonotone(SZINT, size); }
  }

  lemma FloatIs(bits: seq<Octet>, b: seq<Octet>, little: bool)
    ensures b == Order(bits, little) <==> |b| == |bits| && forall i: nat | i < |bits| :: b[Place(!little, |bits|, i)] == bits[i]
  {
    if |b| == |bits| && forall i: nat | i < |bits| :: b[Place(!little, |bits|, i)] == bits[i] {
      forall i | 0 <= i < |b| ensures b[i] == Order(bits, little)[i] {
        assert b[Place(!little, |bits|, Place(!little, |bits|, i))] == bits[Place(!little, |bits|, i)];
      }
    }
  }

  lemma CountIs(s: Text, size: nat, b: seq<Octet>, little: bool)
    requires 1 <= size
    ensures (size < SZINT ==> |s| < Pow256(size)) <==> |s| < Pow256(size)
    ensures b == PackedInt(|s|, little, size, false) + s <==>
      |b| == size + |s| && Complement(b[..size], |s|, !little) && b[size..] == s
  {
    hide Pow256, Complement, PackedInt;
    PowValues();
    if size >= SZINT { PowMonotone(SZINT, size); }
    var c := PackedInt(|s|, little, size, false);
    if |b| >= size {
      UnsignedIs(|s|, size, b[..size], little);
      assert b == b[..size] + b[size..];
    }
    assert (c + s)[..size] == c && (c + s)[size..] == s;
  }

  /** What `str_pack` adds for an argument. */
  lemma PackedItemIs(d: Details, x: Item, b: seq<Octet>)
    requires TakesItem(d.kind) && GoodOption(d.kind, d.size)
    ensures PackedItem(d, x) == Ok(b) <==> Encodes(d.kind, d.size, !d.h.little, x, b)
  {
    hide Pow256, Complement, PackedInt, FitsSigned, Order, Unsigned, Cast, Place;
    match d.kind
    case Kint => if x.Int? { SignedIs(x.n, d.size, b, d.h.little); }
    case Kuint => if x.Int? { CastIs(x.n, d.size); UnsignedIs(Unsigned(x.n), d.size, b, d.h.little); }
    case Kfloat => if x.Float? { FloatIs(x.bits, b, d.h.little); }
    case Kstring => if x.Str? { CountIs(x.s, d.size, b, d.h.little); }
    case _ =>
  }

  lemma SignedMod(n: int, v: nat, p: nat)
    requires v < p
    ensures (if 2 * v >= p then v - p else v) == n <==> 0 <= 2 * n + p && 2 * n < p && v == n % p
  {
    if n >= 0 {
      if n < p { ModIsInt(n, p, 0, n); }
    } else {
      if n + p >= 0 { ModIsInt(n, p, -1, n + p); }
    }
  }

  /** The number that is read is the one whose bytes are there. */
  lemma UnpackedSigned(b: seq<Octet>, n: Integer, little: bool)
    ensures Unpacked(Order(b, little), true) == Some(n) <==>
      0 <= 2 * n + Pow256(|b|) && 2 * n < Pow256(|b|) && Complement(b, n, !little)
  {
    hide Pow256, Complement, Value, Order;
    var c := Order(b, little);
    OrderTwice(b, little);
    ComplementOrder(c, n, little);
    ComplementIs(c, n);
    ValueBound(c);
    SignedMod(n, Value(c), Pow256(|b|));
  }

  lemma UnpackedUnsigned(b: seq<Octet>, n: Integer, little: bool)
    ensures Unpacked(Order(b, little), false) == Some(n) <==> Cast(n) < Pow256(|b|) && Complement(b, Cast(n), !little)
  {
    hide Pow256, Complement, Value, Order;
    var c, p := Order(b, little), Pow256(|b|);
    OrderTwice(b, little);
    ComplementOrder(c, Cast(n), little);
    ComplementIs(c, Cast(n));
    ValueBound(c);
    assert Unpacked(c, false) == Some(n) <==> Value(c) == Cast(n) by { CastBack(n, Value(c)); }
    if Cast(n) < p { ModIsInt(Cast(n), p, 0, Cast(n)); }
  }

  lemma CastBack(n: Integer, u: nat)
    ensures u < W && Signed(u) == n <==> u == Cast(n)
  {
  }

  lemma TakenString(d: Details, data: Text, pos: nat, x: Item, to: nat)
    requires d.kind.Kstring? && GoodOption(d.kind, d.size) && pos + d.size <= |data|
    ensures TakeItem(d, data, pos) == Ok(Taken(x, to)) <==> Holds(d.kind, d.size, !d.h.little, data, pos, x, to)
  {
    hide Pow256, Complement, Unpacked, Order, Signed, IntCast, Place;
    var raw, start := data[pos..pos + d.size], pos + d.size;
    var u := Unpacked(Order(raw, d.h.little), false);
    if u.Some? { UnpackedUnsigned(raw, u.value, d.h.little); CastIs(u.value, d.size); }
    if x.Str? && pos <= to <= |data| && to == start + |x.s| {
      assert data[pos..to][..d.size] == raw && data[pos..to][d.size..] == data[start..to];
      CastIs(Signed(|x.s|), d.size);
      UnpackedUnsigned(raw, Signed(|x.s|), d.h.little);
      Small(|x.s|);
    }
  }

  lemma Small(n: nat)
    requires n < W
    ensures Cast(Signed(n)) == n
  {
  }

  lemma TakenZero(d: Details, data: Text, pos: nat, x: Item, to: nat)
    requires d.kind.Kzstr? && GoodOption(d.kind, d.size) && pos + d.size <= |data|
    ensures TakeItem(d, data, pos) == Ok(Taken(x, to)) <==> Holds(d.kind, d.size, !d.h.little, data, pos, x, to)
  {
    var n := StrLen(data, pos);
    forall k: nat ensures UpToZero(data, pos, k) <==> k == n { OneLength(data, pos, k); }
    hide StrLen, UpToZero;
    assert UpToZero(data, pos, n);
    if x.Str? && |x.s| < 0x8000_0000 { IntCastIs(n, |x.s|); }
  }

  lemma OneLength(data: seq<Octet>, pos: nat, k: nat)
    requires pos <= |data|
    ensures UpToZero(data, pos, k) <==> k == StrLen(data, pos)
  {
    hide StrLen;
    var n := StrLen(data, pos);
  }

  lemma IntCastIs(n: nat, m: nat)
    requires m < 0x8000_0000
    ensures IntCast(n) == m <==> (n - m) % 0x1_0000_0000 == 0
  {
  }

  /** What `str_unpack` takes for an item. */
  lemma TakenIs(d: Details, data: Text, pos: nat, x: Item, to: nat)
    requires TakesItem(d.kind) && GoodOption(d.kind, d.size) && pos + d.size <= |data|
    ensures TakeItem(d, data, pos) == Ok(Taken(x, to)) <==> Holds(d.kind, d.size, !d.h.little, data, pos, x, to)
  {
    if d.kind.Kstring? {
      TakenString(d, data, pos, x, to);
    } else if d.kind.Kzstr? {
      TakenZero(d, data, pos, x, to);
    } else {
      TakenFixed(d, data, pos, x, to);
    }
  }

  lemma TakenFixed(d: Details, data: Text, pos: nat, x: Item, to: nat)
    requires TakesItem(d.kind) && GoodOption(d.kind, d.size) && !d.kind.Kstring? && !d.kind.Kzstr? && pos + d.size <= |data|
    ensures TakeItem(d, data, pos) == Ok(Taken(x, to)) <==> Holds(d.kind, d.size, !d.h.little, data, pos, x, to)
  {
    hide Pow256, Complement, Unpacked, Order, Signed, Cast;
    var raw := data[pos..pos + d.size];
    if x.Int? { UnpackedSigned(raw, x.n, d.h.little); UnpackedUnsigned(raw, x.n, d.h.little); }
    if x.Float? { FloatIs(x.bits, raw, d.h.little); OrderTwice(raw, d.h.little); OrderTwice(x.bits, d.h.little); }
  }

  // ---- whole formats are written so ----

  lemma EndIs(fmt: string, i: nat)
    ensures Ended(fmt, i) <==> Cur(fmt, i) == '\0'
  {
  }

  lemma StrayDetails(h: Header, total: nat, fmt: string, i: nat)
    requires Stray(fmt, i) && GoodHeader(h)
    ensures GetDetails(h, total, fmt, i).Err? && Cur(fmt, i) != '\0'
  {
    StrayFails(h, fmt, i);
    hide GetOption;
  }

  lemma StrayPack(h: Header, fmt: string, i: nat, total: nat, args: seq<Item>)
    requires Stray(fmt, i) && GoodHeader(h)
    ensures PackFrom(h, fmt, i, total, args).Err?
  {
    hide GetDetails;
    StrayDetails(h, total, fmt, i);
  }

  lemma ZerosAre(n: nat, b: seq<Octet>)
    ensures b == Pads(n) <==> |b| == n && Zeros(b)
  {
  }

  lemma Parts(a: seq<Octet>, b: seq<Octet>, c: seq<Octet>)
    ensures var x := a + b + c;
      x[..|a|] == a && x[|a|..|a| + |b|] == b && x[|a| + |b|..] == c && |x| == |a| + |b| + |c|
  {
  }

  /** The bytes of `str_pack` are those the format calls for. */
  lemma {:induction false} PackWrites(h: Header, fmt: string, i: nat, total: nat, args: seq<Item>)
    requires i <= |fmt| && GoodHeader(h) && InForce(h, fmt, i) && PackFrom(h, fmt, i, total, args).Ok?
    ensures var p := PackFrom(h, fmt, i, total, args).value; Written(fmt, i, total, args, p.used, p.bytes)
    decreases |fmt| - i, 1
  {
    hide *;
    EndIs(fmt, i);
    if Cur(fmt, i) == '\0' {
      PackEnds(h, fmt, i, total, args);
      NoneWritten(fmt, i, total, args);
    } else {
      PackDetails(h, fmt, i, total, args);
      if TakesItem(GetDetails(h, total, fmt, i).value.kind) {
        PackWritesItem(h, fmt, i, total, args);
      } else {
        PackWritesPad(h, fmt, i, total, args);
      }
    }
  }

  lemma NoneWritten(fmt: string, i: nat, total: nat, args: seq<Item>)
    requires Ended(fmt, i)
    ensures Written(fmt, i, total, args, 0, [])
  {
  }

  lemma PackDetails(h: Header, fmt: string, i: nat, total: nat, args: seq<Item>)
    requires i <= |fmt| && GoodHeader(h) && Cur(fmt, i) != '\0' && PackFrom(h, fmt, i, total, args).Ok?
    ensures i < |fmt| && fmt[i] != '\0' && GetDetails(h, total, fmt, i).Ok?
  {
    hide GetDetails;
  }

  lemma {:induction false} PackWritesItem(h: Header, fmt: string, i: nat, total: nat, args: seq<Item>)
    requires i < |fmt| && fmt[i] != '\0' && GoodHeader(h) && InForce(h, fmt, i) && PackFrom(h, fmt, i, total, args).Ok?
    requires GetDetails(h, total, fmt, i).Ok? && TakesItem(GetDetails(h, total, fmt, i).value.kind)
    ensures var p := PackFrom(h, fmt, i, total, args).value; Written(fmt, i, total, args, p.used, p.bytes)
    decreases |fmt| - i, 0
  {
    hide *;
    PackAfter(h, fmt, i, total, args);
    DetailsGood(h, total, fmt, i);
    var d := GetDetails(h, total, fmt, i).value;
    var p, b := PackFrom(h, fmt, i, total, args).value, PackedItem(d, args[0]).value;
    if Stray(fmt, d.at) { StrayPack(d.h, fmt, d.at, total + d.pad + |b|, args[1..]); assert false; }
    var align := DetailsSay(h, total, fmt, i, d);
    ItemKeeps(h, total, fmt, i);
    var rest := PackFrom(d.h, fmt, d.at, total + d.pad + |b|, args[1..]).value;
    PackWrites(d.h, fmt, d.at, total + d.pad + |b|, args[1..]);
    Parts(Pads(d.pad), b, rest.bytes);
    ItemWritten(h, fmt, i, total, args, p, d, align, b);
  }

  lemma NoItem(k: KOption)
    requires !TakesItem(k)
    ensures !k.Kchar?
  {
  }

  lemma {:induction false} PackWritesPad(h: Header, fmt: string, i: nat, total: nat, args: seq<Item>)
    requires i < |fmt| && fmt[i] != '\0' && GoodHeader(h) && InForce(h, fmt, i) && PackFrom(h, fmt, i, total, args).Ok?
    requires GetDetails(h, total, fmt, i).Ok? && !TakesItem(GetDetails(h, total, fmt, i).value.kind)
    ensures var p := PackFrom(h, fmt, i, total, args).value; Written(fmt, i, total, args, p.used, p.bytes)
    decreases |fmt| - i, 0
  {
    hide *;
    var d := GetDetails(h, total, fmt, i).value;
    NoItem(d.kind);
    PackAfter(h, fmt, i, total, args);
    DetailsGood(h, total, fmt, i);
    var p := PackFrom(h, fmt, i, total, args).value;
    var align := DetailsSay(h, total, fmt, i, d);
    var rest := PackFrom(d.h, fmt, d.at, total + d.pad + d.size, args).value;
    PackWrites(d.h, fmt, d.at, total + d.pad + d.size, args);
    Parts(Pads(d.pad + d.size), [], rest.bytes);
    assert p.bytes == Pads(d.pad + d.size) + [] + rest.bytes;
    PadWritten(fmt, i, total, args, p, d, align);
  }

  /** An item changes nothing that is in force. */
  lemma ItemKeeps(h: Header, total: nat, fmt: string, i: nat)
    requires i < |fmt| && GoodHeader(h) && GetDetails(h, total, fmt, i).Ok? && TakesItem(GetDetails(h, total, fmt, i).value.kind)
    ensures GetDetails(h, total, fmt, i).value.h == h
  {
    hide LimitedNumeral, Numeral, Padding;
  }

  lemma PadWritten(fmt: string, i: nat, total: nat, args: seq<Item>, p: Packed, d: Details, align: nat)
    requires i < |fmt| && fmt[i] != '\0' && align > 0 && d.at == OptionEnd(fmt, i)
    requires Says(fmt, i, d.kind, d.size, align) && d.pad == Padding(total, align) && !TakesItem(d.kind)
    requires |p.bytes| >= d.pad + d.size && p.bytes[..d.pad + d.size] == Pads(d.pad + d.size)
    requires Written(fmt, d.at, total + d.pad + d.size, args, p.used, p.bytes[d.pad + d.size..])
    ensures Written(fmt, i, total, args, p.used, p.bytes)
  {
    hide Says, Padding, Big, OptionEnd, Written;
    PaddingIsOne(total, align, d.pad);
    ZerosAre(d.pad + d.size, p.bytes[..d.pad + d.size]);
    assert p.bytes[..d.pad] == p.bytes[..d.pad + d.size][..d.pad];
    assert p.bytes[d.pad..d.pad + d.size] == p.bytes[..d.pad + d.size][d.pad..];
    FieldWrites(fmt, i, total, args, p.used, p.bytes, Field(d.kind, d.size, align, d.pad, d.size));
  }

  lemma FieldWrites(fmt: string, i: nat, total: nat, args: seq<Item>, used: nat, b: seq<Octet>, f: Field)
    requires i < |fmt| && fmt[i] != '\0' && WrittenField(fmt, i, total, args, used, b, f)
    ensures Written(fmt, i, total, args, used, b)
  {
    hide WrittenField;
  }

  lemma ItemWritten(h: Header, fmt: string, i: nat, total: nat, args: seq<Item>, p: Packed, d: Details, align: nat, b: seq<Octet>)
    requires i < |fmt| && fmt[i] != '\0' && InForce(h, fmt, i) && align > 0 && args != [] && p.used > 0 && d.at == OptionEnd(fmt, i)
    requires Says(fmt, i, d.kind, d.size, align) && d.pad == Padding(total, align) && TakesItem(d.kind) && GoodOption(d.kind, d.size)
    requires PackedItem(d, args[0]) == Ok(b) && d.h.little == h.little
    requires |p.bytes| >= d.pad + |b| && p.bytes[..d.pad] == Pads(d.pad) && p.bytes[d.pad..d.pad + |b|] == b
    requires Written(fmt, d.at, total + d.pad + |b|, args[1..], p.used - 1, p.bytes[d.pad + |b|..])
    ensures Written(fmt, i, total, args, p.used, p.bytes)
  {
    hide PackedItem, Encodes, Says, Padding, Big, MaxAlign, OptionEnd, Written, Zeros, Pads;
    InForceIs(h, fmt, i);
    ZerosAre(d.pad, Pads(d.pad));
    var f := Field(d.kind, d.size, align, d.pad, |b|);
    PackedItemIs(d, args[0], b);
    PaddingIsOne(total, align, d.pad);
    FieldWrites(fmt, i, total, args, p.used, p.bytes, f);
  }

  /** And no other. */
  lemma {:induction false} WrittenPacks(h: Header, fmt: string, i: nat, total: nat, args: seq<Item>, used: nat, b: seq<Octet>)
    requires i <= |fmt| && GoodHeader(h) && InForce(h, fmt, i) && Written(fmt, i, total, args, used, b)
    ensures PackFrom(h, fmt, i, total, args) == Ok(Packed(b, used))
    decreases |fmt| - i, 1
  {
    hide GetDetails, PackedItem, Encodes, FieldAt, Padding, Zeros, Pads, InForce, Big, PackFrom;
    EndIs(fmt, i);
    if Ended(fmt, i) {
      PackEnds(h, fmt, i, total, args);
    } else {
      var f: Field :| WrittenField(fmt, i, total, args, used, b, f);
      WrittenFieldPacks(h, fmt, i, total, args, used, b, f);
    }
  }

  lemma {:induction false} WrittenFieldPacks(h: Header, fmt: string, i: nat, total: nat, args: seq<Item>, used: nat, b: seq<Octet>, f: Field)
    requires i < |fmt| && fmt[i] != '\0' && GoodHeader(h) && InForce(h, fmt, i) && WrittenField(fmt, i, total, args, used, b, f)
    ensures PackFrom(h, fmt, i, total, args) == Ok(Packed(b, used))
    decreases |fmt| - i, 0
  {
    hide GetDetails, PackedItem, Encodes, Says, Padding, Zeros, Pads, InForce, Big, PackFrom, Written;
    SaysDetails(h, total, fmt, i, f.kind, f.size, f.align);
    PaddingIsOne(total, f.align, f.pad);
    ZerosAre(f.pad, b[..f.pad]);
    var d := GetDetails(h, total, fmt, i).value;
    var own, rest, at := b[f.pad..f.pad + f.len], b[f.pad + f.len..], total + f.pad + f.len;
    DetailsGood(h, total, fmt, i);
    if TakesItem(f.kind) {
      ItemKeeps(h, total, fmt, i);
      InForceIs(h, fmt, i);
      PackedItemIs(d, args[0], own);
      WrittenPacks(d.h, fmt, d.at, at, args[1..], used - 1, rest);
      assert b == Pads(f.pad) + own + rest;
      PackOne(h, fmt, i, total, args, d, own, rest, used - 1);
    } else {
      ZerosAre(f.len, own);
      WrittenPacks(d.h, fmt, d.at, at, args, used, rest);
      PadsSum(f.pad, f.len);
      assert b == b[..f.pad] + own + rest == Pads(f.pad + f.len) + rest;
      PackPad(h, fmt, i, total, args, d, rest, used);
    }
  }

  lemma InForceIs(h: Header, fmt: string, i: nat)
    requires i <= |fmt| && InForce(h, fmt, i)
    ensures h.little == !Big(fmt, i)
  {
  }

  lemma PadsSum(a: nat, b: nat)
    ensures Pads(a) + Pads(b) == Pads(a + b)
  {
  }

  lemma PackEnds(h: Header, fmt: string, i: nat, total: nat, args: seq<Item>)
    requires i <= |fmt| && GoodHeader(h) && Cur(fmt, i) == '\0'
    ensures PackFrom(h, fmt, i, total, args) == Ok(Packed([], 0))
  {
  }

  lemma PackOne(h: Header, fmt: string, i: nat, total: nat, args: seq<Item>, d: Details, own: seq<Octet>, rest: seq<Octet>, used: nat)
    requires i < |fmt| && GoodHeader(h) && fmt[i] != '\0' && GetDetails(h, total, fmt, i) == Ok(d) && TakesItem(d.kind)
    requires args != [] && GoodOption(d.kind, d.size) && PackedItem(d, args[0]) == Ok(own) && d.at <= |fmt| && GoodHeader(d.h)
    requires PackFrom(d.h, fmt, d.at, total + d.pad + |own|, args[1..]) == Ok(Packed(rest, used))
    ensures PackFrom(h, fmt, i, total, args) == Ok(Packed(Pads(d.pad) + own + rest, used + 1))
  {
    hide GetDetails, PackedItem, Pads;
  }

  lemma PackPad(h: Header, fmt: string, i: nat, total: nat, args: seq<Item>, d: Details, rest: seq<Octet>, used: nat)
    requires i < |fmt| && GoodHeader(h) && fmt[i] != '\0' && GetDetails(h, total, fmt, i) == Ok(d) && !TakesItem(d.kind)
    requires d.at <= |fmt| && GoodHeader(d.h) && PackFrom(d.h, fmt, d.at, total + d.pad + d.size, args) == Ok(Packed(rest, used))
    ensures PackFrom(h, fmt, i, total, args) == Ok(Packed(Pads(d.pad + d.size) + rest, used))
  {
    hide GetDetails, PackedItem, Pads;
  }

  /** The bytes and arguments are those of `Written`, and no others. */
  lemma PackIs(fmt: string, args: seq<Item>, used: nat, b: seq<Octet>)
    ensures Pack(fmt, args) == Ok(Packed(b, used)) <==> Written(fmt, 0, 0, args, used, b)
  {
    hide PackFrom, Written, Big, MaxAlign;
    AtStart(fmt);
    if Pack(fmt, args).Ok? { PackWrites(Initial, fmt, 0, 0, args); }
    if Written(fmt, 0, 0, args, used, b) { WrittenPacks(Initial, fmt, 0, 0, args, used, b); }
  }

  lemma AtStart(fmt: string)
    ensures InForce(Initial, fmt, 0) && GoodHeader(Initial)
  {
  }

  // ---- and read so ----

  lemma StrayUnpack(h: Header, fmt: string, i: nat, data: Text, pos: nat)
    requires Stray(fmt, i) && GoodHeader(h)
    ensures UnpackFrom(h, fmt, i, data, pos).Err?
  {
    hide GetDetails;
    StrayDetails(h, pos, fmt, i);
  }

  lemma UnpackEnds(h: Header, fmt: string, i: nat, data: Text, pos: nat)
    requires i <= |fmt| && GoodHeader(h) && Cur(fmt, i) == '\0'
    ensures UnpackFrom(h, fmt, i, data, pos) == Ok(Read([], pos + 1))
  {
  }

  lemma UnpackAfter(h: Header, fmt: string, i: nat, data: Text, pos: nat, r: Read)
    requires i < |fmt| && GoodHeader(h) && fmt[i] != '\0' && GetDetails(h, pos, fmt, i).Ok?
    ensures var d := GetDetails(h, pos, fmt, i).value;
      UnpackFrom(h, fmt, i, data, pos) == Ok(r) <==>
        && pos + d.pad + d.size <= |data|
        && if TakesItem(d.kind) then
          && TakeItem(d, data, pos + d.pad).Ok?
          && var t := TakeItem(d, data, pos + d.pad).value;
             var rest := UnpackFrom(d.h, fmt, d.at, data, t.pos);
             rest.Ok? && r == Read([t.item] + rest.value.items, rest.value.next)
        else UnpackFrom(d.h, fmt, d.at, data, pos + d.pad + d.size) == Ok(r)
  {
    hide GetDetails, TakeItem;
  }

  lemma TakeForward(d: Details, data: Text, pos: nat)
    requires TakesItem(d.kind) && GoodOption(d.kind, d.size) && pos + d.size <= |data| && TakeItem(d, data, pos).Ok?
    ensures TakeItem(d, data, pos).value.pos >= pos
  {
    hide Unpacked, StrLen, Order;
  }

  /** What `str_unpack` reads is what the format finds. */
  lemma {:induction false} UnpackFinds(h: Header, fmt: string, i: nat, data: Text, pos: nat)
    requires i <= |fmt| && GoodHeader(h) && InForce(h, fmt, i) && UnpackFrom(h, fmt, i, data, pos).Ok?
    ensures var r := UnpackFrom(h, fmt, i, data, pos).value; Found(fmt, i, data, pos, r.items, r.next)
    decreases |fmt| - i
  {
    hide GetDetails, TakeItem, Holds, Says, Stray, Selects, Padding, InForce, UnpackFrom, Big;
    EndIs(fmt, i);
    if Cur(fmt, i) == '\0' {
      UnpackEnds(h, fmt, i, data, pos);
    } else {
      UnpackDetails(h, fmt, i, data, pos);
      var d, r := GetDetails(h, pos, fmt, i).value, UnpackFrom(h, fmt, i, data, pos).value;
      DetailsGood(h, pos, fmt, i);
      UnpackAfter(h, fmt, i, data, pos, r);
      if TakesItem(d.kind) {
        var t := TakeItem(d, data, pos + d.pad).value;
        var rest := UnpackFrom(d.h, fmt, d.at, data, t.pos).value;
        if Stray(fmt, d.at) { StrayUnpack(d.h, fmt, d.at, data, t.pos); assert false; }
        var align := DetailsSay(h, pos, fmt, i, d);
        ItemKeeps(h, pos, fmt, i);
        InForceIs(h, fmt, i);
        UnpackFinds(d.h, fmt, d.at, data, t.pos);
        TakenIs(d, data, pos + d.pad, t.item, t.pos);
        TakeForward(d, data, pos + d.pad);
        PaddingIsOne(pos, align, d.pad);
        assert r.items[1..] == rest.items;
        assert FoundField(fmt, i, data, pos, r.items, r.next, Field(d.kind, d.size, align, d.pad, t.pos - pos - d.pad));
      } else {
        var align := DetailsSay(h, pos, fmt, i, d);
        UnpackFinds(d.h, fmt, d.at, data, pos + d.pad + d.size);
        PaddingIsOne(pos, align, d.pad);
        assert FoundField(fmt, i, data, pos, r.items, r.next, Field(d.kind, d.size, align, d.pad, d.size));
      }
    }
  }

  lemma UnpackDetails(h: Header, fmt: string, i: nat, data: Text, pos: nat)
    requires i <= |fmt| && GoodHeader(h) && Cur(fmt, i) != '\0' && UnpackFrom(h, fmt, i, data, pos).Ok?
    ensures GetDetails(h, pos, fmt, i).Ok?
  {
    hide GetDetails;
  }

  /** And nothing else. */
  lemma {:induction false} FoundUnpacks(h: Header, fmt: string, i: nat, data: Text, pos: nat, items: seq<Item>, next: nat)
    requires i <= |fmt| && GoodHeader(h) && InForce(h, fmt, i) && Found(fmt, i, data, pos, items, next)
    ensures UnpackFrom(h, fmt, i, data, pos) == Ok(Read(items, next))
    decreases |fmt| - i
  {
    hide GetDetails, TakeItem, Holds, Says, Selects, Padding, InForce, UnpackFrom, Big;
    EndIs(fmt, i);
    if Ended(fmt, i) {
      UnpackEnds(h, fmt, i, data, pos);
    } else {
      var f: Field :| FoundField(fmt, i, data, pos, items, next, f);
      SaysDetails(h, pos, fmt, i, f.kind, f.size, f.align);
      PaddingIsOne(pos, f.align, f.pad);
      var d, to := GetDetails(h, pos, fmt, i).value, pos + f.pad + f.len;
      DetailsGood(h, pos, fmt, i);
      UnpackAfter(h, fmt, i, data, pos, Read(items, next));
      if TakesItem(f.kind) {
        ItemKeeps(h, pos, fmt, i);
        InForceIs(h, fmt, i);
        TakenIs(d, data, pos + d.pad, items[0], to);
        FoundUnpacks(d.h, fmt, d.at, data, to, items[1..], next);
        assert items == [items[0]] + items[1..];
      } else {
        FoundUnpacks(d.h, fmt, d.at, data, to, items, next);
      }
    }
  }

  /** The items and the position are those of `Found`, and no others. */
  lemma UnpackIs(fmt: string, data: Text, init: Integer, items: seq<Item>, next: nat)
    ensures Unpack(fmt, data, init) == Ok(Read(items, next)) <==>
      exists pos: nat :: Begins(init, |data|, pos) && Found(fmt, 0, data, pos, items, next)
  {
    hide UnpackFrom, Found, Big, MaxAlign, InForce;
    AtStart(fmt);
    var pos := Start(init, |data|);
    if 0 <= pos <= |data| {
      assert Begins(init, |data|, pos);
      if UnpackFrom(Initial, fmt, 0, data, pos).Ok? { UnpackFinds(Initial, fmt, 0, data, pos); }
      if Found(fmt, 0, data, pos, items, next) { FoundUnpacks(Initial, fmt, 0, data, pos, items, next); }
    }
  }
}
