/** Integers of 1 to 16 bytes as `string.pack` writes them and `string.unpack`
  reads them back. */
module PackNumber {
  import opened Powers

  type Octet = b: int | 0 <= b < 256

  datatype Option<T> = None | Some(value: T)

  /** Size of a `lua_Integer`, and the number of its values. */
  const SZINT := 8
  const W := 0x1_0000_0000_0000_0000

  type Integer = n: int | -0x8000_0000_0000_0000 <= n < 0x8000_0000_0000_0000

  function Unsigned(n: Integer): (u: nat)
    ensures u < W
  {
    if n < 0 then n + W else n
  }

  function Signed(u: nat): (n: Integer)
    requires u < W
    ensures Unsigned(n) == u
  {
    if u >= W / 2 then u - W else u
  }

  // ---- numbers and bytes ----

  /** The number that bytes stand for, least significant byte first. */
  function Value(b: seq<Octet>): nat {
    if b == [] then 0 else b[0] + 256 * Value(b[1..])
  }

  /** The `k` least significant bytes of a number. */
  function Bytes(n: nat, k: nat): (b: seq<Octet>)
    ensures |b| == k
  {
    if k == 0 then [] else [n % 256] + Bytes(n / 256, k - 1)
  }

  lemma {:induction false} ValueBound(b: seq<Octet>)
    ensures Value(b) < Pow256(|b|)
    decreases |b|
  {
    if b != [] { ValueBound(b[1..]); }
  }

  lemma {:induction false} BytesOfValue(b: seq<Octet>)
    ensures Bytes(Value(b), |b|) == b
    decreases |b|
  {
    if b != [] {
      BytesOfValue(b[1..]);
      assert Value(b) % 256 == b[0] && Value(b) / 256 == Value(b[1..]);
    }
  }

  lemma {:induction false} ValueOfBytes(n: nat, k: nat)
    ensures Value(Bytes(n, k)) == n % Pow256(k)
  {
    if k > 0 {
      ValueOfBytes(n / 256, k - 1);
      assert Bytes(n, k)[1..] == Bytes(n / 256, k - 1);
      ModStep(n, Pow256(k - 1));
    }
  }

  lemma ModStep(n: nat, p: nat)
    requires p >= 1
    ensures n % (256 * p) == n % 256 + 256 * (n / 256 % p)
  {
    var q := n / 256 / p;
    var r := n / 256 % p;
    assert n / 256 == q * p + r;
    assert n == 256 * (n / 256) + n % 256;
    var m := n % 256 + 256 * r;
    assert 256 * (q * p) == (256 * p) * q;
    assert n == (256 * p) * q + m;
    assert 0 <= m < 256 * p by { assert r <= p - 1; }
    ModIs(n, 256 * p, q, m);
  }

  lemma ModIs(n: nat, d: nat, q: nat, m: nat)
    requires d > 0 && n == d * q + m && m < d
    ensures n % d == m && n / d == q
  {
    var q2, m2 := n / d, n % d;
    assert n == d * q2 + m2;
    MulNext(d, q, q2);
    MulNext(d, q2, q);
  }

  lemma MulNext(d: nat, a: nat, b: nat)
    ensures a < b ==> d * a + d <= d * b
  {
    if a < b {
      var c := b - a - 1;
      assert d * b == d * a + d + d * c;
    }
  }

  lemma {:induction false} ValueConcat(a: seq<Octet>, b: seq<Octet>)
    ensures Value(a + b) == Value(a) + Pow256(|a|) * Value(b)
    decreases |a|
  {
    if a == [] {
      assert a + b == b;
    } else {
      ValueConcat(a[1..], b);
      assert (a + b)[1..] == a[1..] + b;
      Assoc(256, Pow256(|a| - 1), Value(b));
    }
  }

  /** All bytes are `m`. */
  predicate All(b: seq<Octet>, m: Octet) { forall i | 0 <= i < |b| :: b[i] == m }

  /** All zeros and all ones are the two ends of the range. */
  lemma {:induction false} ValueEnds(b: seq<Octet>)
    ensures All(b, 0) <==> Value(b) == 0
    ensures All(b, 255) <==> Value(b) == Pow256(|b|) - 1
    decreases |b|
  {
    if b != [] {
      ValueEnds(b[1..]);
      ValueBound(b[1..]);
      assert All(b, 0) <==> b[0] == 0 && All(b[1..], 0) by { Head(b, 0); }
      assert All(b, 255) <==> b[0] == 255 && All(b[1..], 255) by { Head(b, 255); }
    }
  }

  lemma Head(b: seq<Octet>, m: Octet)
    requires b != []
    ensures All(b, m) <==> b[0] == m && All(b[1..], m)
  {
    if b[0] == m && All(b[1..], m) {
      forall i | 0 <= i < |b| ensures b[i] == m {
        if i > 0 { assert b[1..][i - 1] == m; }
      }
    }
  }

  function Reverse(b: seq<Octet>): (r: seq<Octet>)
    ensures |r| == |b| && forall i | 0 <= i < |b| :: r[i] == b[|b| - 1 - i]
  {
    seq(|b|, i requires 0 <= i < |b| => b[|b| - 1 - i])
  }

  /** Bytes in the order of the format, and back. */
  function Order(b: seq<Octet>, little: bool): (r: seq<Octet>)
    ensures |r| == |b|
  {
    if little then b else Reverse(b)
  }

  lemma OrderTwice(b: seq<Octet>, little: bool)
    ensures Order(Order(b, little), little) == b
  {
  }

  // ---- packing ----

  /** What is stored for the 64 bits of `n`: cut to the size, or extended, with
      ones for a negative number and with zeros otherwise. */
  function Stored(n: nat, size: nat, neg: bool): nat {
    if neg && size > SZINT then Room(size); n + Pow256(size) - W else n
  }

  function PackedInt(n: nat, little: bool, size: nat, neg: bool): (b: seq<Octet>)
    ensures |b| == size
  {
    Order(Bytes(Stored(n, size, neg), size), little)
  }

  function Pos(little: bool, size: nat, i: nat): (p: nat)
    requires i < size
    ensures p < size
  {
    if little then i else size - 1 - i
  }

  lemma OrderIs(a: seq<Octet>, b: seq<Octet>, little: bool)
    requires |a| == |b| && forall i | 0 <= i < |b| :: a[Pos(little, |a|, i)] == b[i]
    ensures a == Order(b, little) && Order(a, little) == b
  {
    if !little {
      forall i | 0 <= i < |a| ensures a[i] == Reverse(b)[i] {
        assert a[Pos(little, |a|, |a| - 1 - i)] == b[|a| - 1 - i];
      }
    }
  }

  lemma BytesStep(n: nat, k: nat, i: nat)
    requires i < k
    ensures Bytes(n, k)[i] == Shifted(n, i) % 256
  {
    if i > 0 {
      BytesStep(n / 256, k - 1, i - 1);
      ShiftedFirst(n, i);
    }
  }

  /** `n >> 8 * i` */
  function Shifted(n: nat, i: nat): nat {
    if i == 0 then n else Shifted(n, i - 1) / 256
  }

  lemma {:induction false} ShiftedFirst(n: nat, i: nat)
    requires i > 0
    ensures Shifted(n, i) == Shifted(n / 256, i - 1)
  {
    if i > 1 { ShiftedFirst(n, i - 1); }
  }

  /** Sign extension by hand is what two's complement asks for. */
  lemma Extend(b: seq<Octet>, c: seq<Octet>, n: nat, size: nat)
    requires n < W && SZINT < size && b == Bytes(n, size)
    requires |c| == size && c[..SZINT] == b[..SZINT] && All(c[SZINT..], 255)
    ensures c == Bytes(Stored(n, size, true), size)
  {
    hide Pow256, Bytes, Value, All;
    PowValues();
    PowAdd(SZINT, size - SZINT);
    ValueEnds(c[SZINT..]);
    assert c == c[..SZINT] + c[SZINT..];
    ValueConcat(c[..SZINT], c[SZINT..]);
    FirstBytes(n, size, SZINT);
    ValueOfBytes(n, SZINT);
    assert n % W == n;
    TimesLess(Pow256(size - SZINT));
    assert Value(c) == n + Pow256(size) - W;
    BytesOfValue(c);
    PowMonotone(SZINT, size);
  }

  lemma TimesLess(p: nat)
    ensures W * (p - 1) == W * p - W
  {
  }

  lemma {:induction false} FirstBytes(n: nat, k: nat, j: nat)
    requires j <= k
    ensures Bytes(n, k)[..j] == Bytes(n, j)
  {
    if j > 0 {
      FirstBytes(n / 256, k - 1, j - 1);
    }
  }

  lemma Room(size: nat)
    requires size > SZINT
    ensures Pow256(size) >= W
  {
    PowValues();
    PowMonotone(SZINT, size);
  }

  /** `packint`, filling a buffer of `size` bytes. */
  method PackInt(u: nat, little: bool, size: nat, neg: bool) returns (buff: array<Octet>)
    requires u < W && 1 <= size
    ensures fresh(buff) && buff[..] == PackedInt(u, little, size, neg)
  {
    hide Bytes, Pow256;
    buff := new Octet[size];
    ghost var b := Bytes(u, size);
    var n := u;
    buff[Pos(little, size, 0)] := n % 256;
    BytesStep(u, size, 0);
    for i := 1 to size
      invariant n == Shifted(u, i - 1)
      invariant forall j | 0 <= j < i :: buff[Pos(little, size, j)] == b[j]
    {
      n := n / 256;
      BytesStep(u, size, i);
      buff[Pos(little, size, i)] := n % 256;
    }
    if neg && size > SZINT {
      for i := SZINT to size
        invariant forall j | 0 <= j < size :: buff[Pos(little, size, j)] == if SZINT <= j < i then 255 else b[j]
      {
        buff[Pos(little, size, i)] := 255;
      }
      ghost var c: seq<Octet> := seq(size, j requires 0 <= j < size => if SZINT <= j then 255 else b[j]);
      Extend(b, c, u, size);
      OrderIs(buff[..], c, little);
    } else {
      OrderIs(buff[..], b, little);
    }
  }

  // ---- unpacking ----

  /** The number in two's complement, or without sign, that the bytes stand for. */
  function Meant(b: seq<Octet>, signed: bool): int {
    if signed && 2 * Value(b) >= Pow256(|b|) then Value(b) - Pow256(|b|) else Value(b)
  }

  /** What comes back: the number meant if a Lua integer can have it; one without
      sign only needs 64 bits. */
  function Unpacked(b: seq<Octet>, signed: bool): Option<Integer> {
    var m := Meant(b, signed);
    if signed then (if -W / 2 <= m < W / 2 then Some(m) else None)
    else if m < W then Some(Signed(m)) else None
  }

  /** `res ^ mask` for a mask of one bit. */
  function FlipBit(res: nat, mask: nat): nat
    requires mask > 0
  {
    if res / mask % 2 == 1 then res - mask else res + mask
  }

  lemma Flips(v: nat, mask: nat)
    requires v < 2 * mask && mask <= W / 2
    ensures FlipBit(v, mask) == if v >= mask then v - mask else v + mask
    ensures (FlipBit(v, mask) - mask + W) % W == if v >= mask then v - 2 * mask + W else v
  {
    ModIs(v, mask, if v >= mask then 1 else 0, if v >= mask then v - mask else v);
    if v < mask {
      assert FlipBit(v, mask) - mask + W == v + W;
      ModIs(v + W, W, 1, v);
    } else {
      ModIs(v - 2 * mask + W, W, 0, v - 2 * mask + W);
    }
  }

  /** Extending the sign by flipping it and taking it away. */
  lemma SignExtension(b: seq<Octet>)
    requires 1 <= |b| < SZINT
    ensures var mask := TopBit(|b|); Unpacked(b, true) == Some(Signed((FlipBit(Value(b), mask) - mask + W) % W))
  {
    hide Pow256, Value, FlipBit;
    ValueBound(b);
    PowValues();
    PowMonotone(|b| + 1, SZINT);
    PowIs(|b|);
    Flips(Value(b), TopBit(|b|));
  }

  lemma PowIs(k: nat)
    ensures Pow256(k + 1) == 256 * Pow256(k)
    ensures k > 0 ==> Pow256(k) == 2 * TopBit(k)
  {
  }

  /** More than eight bytes are good exactly when the others repeat the sign. */
  lemma ExtraBytes(b: seq<Octet>, signed: bool)
    requires |b| >= SZINT
    ensures Value(b[..SZINT]) < W
    ensures var low := Value(b[..SZINT]);
      var m := if !signed || Signed(low) >= 0 then 0 else 255;
      Unpacked(b, signed) == if All(b[SZINT..], m) then Some(Signed(low)) else None
  {
    var lo, hi := b[..SZINT], b[SZINT..];
    assert b == lo + hi;
    ValueConcat(lo, hi);
    PowValues();
    PowAdd(SZINT, |hi|);
    ValueBound(lo);
    ValueBound(hi);
    ValueEnds(hi);
    var v, h, p := Value(lo), Value(hi), Pow256(|hi|);
    assert Value(b) == v + W * h && Pow256(|b|) == W * p && v < W && h < p;
    if hi == [] {
      assert p == 1 && h == 0 && All(hi, 0) && All(hi, 255);
    } else {
      assert p == 256 * Pow256(|hi| - 1);
      Extra(v, h, p, Pow256(|hi| - 1) * 128);
    }
  }

  lemma Extra(v: nat, h: nat, p: nat, half: nat)
    requires v < W && h < p == 2 * half && half >= 1
    ensures v + W * h < W <==> h == 0
    ensures 2 * (v + W * h) >= W * p <==> h >= half
    ensures h >= half ==> (v + W * h - W * p >= -W / 2 <==> h == p - 1 && v >= W / 2)
    ensures h < half ==> (v + W * h < W / 2 <==> h == 0 && v < W / 2)
    ensures h == p - 1 ==> v + W * h - W * p == v - W
  {
    assert W * p == 2 * (W * half);
    if h >= half { assert W * h >= W * half; } else { assert W * (h + 1) <= W * half; }
    if h > 0 { assert W * h >= W; }
    assert W * (p - 1) == W * p - W;
    if h < p - 1 { assert W * (h + 2) <= W * p; }
  }

  /** The first loop of `unpackint`: at most eight bytes, the most significant
      first. */
  method ReadLow(str: seq<Octet>, at: nat, little: bool, size: nat) returns (res: nat)
    requires at + size <= |str|
    ensures var limit := if size <= SZINT then size else SZINT;
      res == Value(Order(str[at..at + size], little)[..limit]) && res < W
  {
    hide Pow256, Reverse;
    ghost var b := Order(str[at..at + size], little);
    InOrder(str, at, little, size);
    res := 0;
    var limit := if size <= SZINT then size else SZINT;
    var i := limit;
    PowValues();
    while i > 0
      invariant 0 <= i <= limit && res == Value(b[i..limit])
    {
      i := i - 1;
      assert b[i..limit][1..] == b[i + 1..limit];
      ValueBound(b[i..limit]);
      PowMonotone(limit - i, SZINT);
      var c := str[at + Pos(little, size, i)];
      assert c == b[i..limit][0];
      assert res * 256 + c == Value(b[i..limit]) < W;
      res := (res * 256 + c) % W;
    }
    assert b[0..limit] == b[..limit];
    ValueBound(b[..limit]);
    PowMonotone(limit, SZINT);
  }

  lemma InOrder(str: seq<Octet>, at: nat, little: bool, size: nat)
    requires at + size <= |str|
    ensures forall i | 0 <= i < size :: str[at + Pos(little, size, i)] == Order(str[at..at + size], little)[i]
  {
    hide Reverse;
  }

  /** The bytes beyond the eighth. */
  method RepeatsSign(str: seq<Octet>, at: nat, little: bool, size: nat, mask: Octet) returns (ok: bool)
    requires at + size <= |str| && size >= SZINT
    ensures ok <==> All(Order(str[at..at + size], little)[SZINT..], mask)
  {
    ghost var b := Order(str[at..at + size], little);
    InOrder(str, at, little, size);
    for j := SZINT to size
      invariant forall k | SZINT <= k < j :: b[k] == mask
    {
      if str[at + Pos(little, size, j)] != mask {
        assert b[SZINT..][j - SZINT] != mask;
        return false;
      }
    }
    return true;
  }

  /** `unpackint`, on the `size` bytes at `at`. */
  method UnpackInt(str: seq<Octet>, at: nat, little: bool, size: nat, signed: bool) returns (r: Option<Integer>)
    requires at + size <= |str| && 1 <= size
    ensures r == Unpacked(Order(str[at..at + size], little), signed)
  {
    hide Pow256, Order, Value, FlipBit, All, TopBit;
    ghost var b := Order(str[at..at + size], little);
    var res := ReadLow(str, at, little, size);
    if size < SZINT {
      assert b[..size] == b;
      ShortFits(b);
      if signed {
        SignExtension(b);
        var mask := TopBit(size);
        res := (FlipBit(res, mask) - mask + W) % W;
      }
    } else {
      ExtraBytes(b, signed);
      var mask := if !signed || Signed(res) >= 0 then 0 else 255;
      var ok := RepeatsSign(str, at, little, size, mask);
      if !ok { return None; }
    }
    return Some(Signed(res));
  }

  lemma ShortFits(b: seq<Octet>)
    requires |b| < SZINT
    ensures Value(b) < W && Unpacked(b, false) == Some(Signed(Value(b)))
  {
    ValueBound(b);
    PowMonotone(|b|, SZINT);
    PowValues();
  }

  /** `1 << (size * 8 - 1)` */
  function TopBit(size: nat): (m: nat)
    requires size >= 1
    ensures m == Pow256(size) / 2 && m > 0
  {
    128 * Pow256(size - 1)
  }

  // ---- there and back ----

  /** A signed integer fits when it is in the range of its size; any does from 8
      bytes on. */
  predicate FitsSigned(n: int, size: nat) { 2 * n + Pow256(size) >= 0 && 2 * n < Pow256(size) }

  lemma SignedRoundTrip(n: Integer, size: nat)
    requires 1 <= size && (size < SZINT ==> FitsSigned(n, size))
    ensures Unpacked(Bytes(Stored(Unsigned(n), size, n < 0), size), true) == Some(n)
  {
    hide Pow256;
    PowValues();
    if size >= SZINT { PowMonotone(SZINT, size); }
    ValueOfBytes(Stored(Unsigned(n), size, n < 0), size);
    Residue(n, size);
  }

  /** What is stored, cut to the size, is the number in two's complement. */
  lemma Residue(n: Integer, size: nat)
    requires 1 <= size && (size < SZINT ==> FitsSigned(n, size))
    ensures Stored(Unsigned(n), size, n < 0) % Pow256(size) == if n >= 0 then n else n + Pow256(size)
  {
    hide Pow256;
    PowValues();
    var p := Pow256(size);
    if size >= SZINT { PowMonotone(SZINT, size); }
    if n >= 0 {
      ModIs(n, p, 0, n);
    } else if size >= SZINT {
      assert size == SZINT ==> p == W;
      ModIs(n + p, p, 0, n + p);
    } else {
      PowAdd(size, SZINT - size);
      var q := Pow256(SZINT - size);
      assert p * q == p * (q - 1) + p;
      ModIs(n + W, p, q - 1, n + p);
    }
  }

  lemma UnsignedRoundTrip(n: Integer, size: nat)
    requires 1 <= size && (size < SZINT ==> Unsigned(n) < Pow256(size))
    ensures Unpacked(Bytes(Stored(Unsigned(n), size, false), size), false) == Some(n)
  {
    PowValues();
    if size >= SZINT { PowMonotone(SZINT, size); }
    ValueOfBytes(Unsigned(n), size);
    ModIs(Unsigned(n), Pow256(size), 0, Unsigned(n));
  }
}
