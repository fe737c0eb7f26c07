/** UTF-8 as RFC 3629 defines it, and the three routines that deal with it:
  `luaO_utf8esc`, `utf8_decode` and `isValidUtf8`. */
module Utf8 {

  type Octet = b: int | 0 <= b < 256

  const MAXUNICODE := 0x10FFFF
  const UTF8BUFFSZ := 8

  predicate Surrogate(x: int) { 0xD800 <= x <= 0xDFFF }

  /** The code points that have an encoding (RFC 3629, section 3). */
  predicate Scalar(x: int) { 0 <= x <= MAXUNICODE && !Surrogate(x) }

  /** The table of RFC 3629, section 3. */
  function Encode(x: int): (b: seq<Octet>)
    requires 0 <= x <= MAXUNICODE
    ensures 1 <= |b| <= 4
  {
    if x < 0x80 then [x]
    else if x < 0x800 then [0xC0 + x / 64, 0x80 + x % 64]
    else if x < 0x10000 then [0xE0 + x / 4096, 0x80 + x / 64 % 64, 0x80 + x % 64]
    else [0xF0 + x / 262144, 0x80 + x / 4096 % 64, 0x80 + x / 64 % 64, 0x80 + x % 64]
  }

  predicate Cont(b: int) { 0x80 <= b < 0xC0 }

  /** `s` has the encoding of `x` at `i`. */
  predicate EncodedAt(s: seq<Octet>, i: nat, x: int)
    requires 0 <= x <= MAXUNICODE
  {
    i + |Encode(x)| <= |s| && s[i..i + |Encode(x)|] == Encode(x)
  }

  /** The byte at a position; strings end in a zero. */
  function At(s: seq<Octet>, i: nat): Octet { if i < |s| then s[i] else 0 }

  // ---- one sequence ----

  /** The value the first byte announces and the continuation bytes complete. */
  function Two(s: seq<Octet>, i: nat): int { (At(s, i) - 0xC0) * 64 + (At(s, i + 1) - 0x80) }
  function Three(s: seq<Octet>, i: nat): int { (At(s, i) - 0xE0) * 4096 + (At(s, i + 1) - 0x80) * 64 + (At(s, i + 2) - 0x80) }
  function Four(s: seq<Octet>, i: nat): int {
    (At(s, i) - 0xF0) * 262144 + (At(s, i + 1) - 0x80) * 4096 + (At(s, i + 2) - 0x80) * 64 + (At(s, i + 3) - 0x80)
  }

  /** Which code point starts at `i`; -1 if the bytes are no encoding. */
  function CodeAt(s: seq<Octet>, i: nat): int {
    var c := At(s, i);
    if i >= |s| then -1
    else if c < 0x80 then c
    else if 0xC0 <= c < 0xE0 && Cont(At(s, i + 1)) && Two(s, i) >= 0x80 then Two(s, i)
    else if 0xE0 <= c < 0xF0 && Cont(At(s, i + 1)) && Cont(At(s, i + 2)) && Three(s, i) >= 0x800 then Three(s, i)
    else if 0xF0 <= c < 0xF8 && Cont(At(s, i + 1)) && Cont(At(s, i + 2)) && Cont(At(s, i + 3)) && 0x10000 <= Four(s, i) <= MAXUNICODE then Four(s, i)
    else -1
  }

  /** The bytes at `i` are the encoding of one code point at most, and `CodeAt`
      finds it. */
  lemma CodeAtIs(s: seq<Octet>, i: nat, x: int)
    requires 0 <= x <= MAXUNICODE
    ensures EncodedAt(s, i, x) <==> CodeAt(s, i) == x
  {
    if EncodedAt(s, i, x) { EncodedBytes(s, i, x); CodeOfEncoding(s, i, x); }
    if CodeAt(s, i) == x { EncodingOfCode(s, i, x); }
  }

  lemma EncodedBytes(s: seq<Octet>, i: nat, x: int)
    requires 0 <= x <= MAXUNICODE && EncodedAt(s, i, x)
    ensures forall k | 0 <= k < |Encode(x)| :: At(s, i + k) == Encode(x)[k]
  {
    forall k | 0 <= k < |Encode(x)| ensures At(s, i + k) == Encode(x)[k] {
      assert s[i..i + |Encode(x)|][k] == s[i + k];
    }
  }

  /** A number and its digits to the base 64. */
  lemma Digits(x: nat)
    ensures x == (x / 64) * 64 + x % 64
    ensures x == (x / 4096) * 4096 + (x / 64 % 64) * 64 + x % 64
    ensures x == (x / 262144) * 262144 + (x / 4096 % 64) * 4096 + (x / 64 % 64) * 64 + x % 64
  {
    assert x / 4096 == x / 64 / 64 && x / 262144 == x / 64 / 64 / 64;
  }

  lemma OfDigits(a: nat, b: nat, c: nat, d: nat)
    requires b < 64 && c < 64 && d < 64
    ensures var x := a * 262144 + b * 4096 + c * 64 + d;
      x / 262144 == a && x / 4096 % 64 == b && x / 64 % 64 == c && x % 64 == d
    ensures var x := b * 4096 + c * 64 + d; x / 4096 == b
    ensures var x := c * 64 + d; x / 64 == c
  {
    var x := a * 262144 + b * 4096 + c * 64 + d;
    assert x / 64 == a * 4096 + b * 64 + c;
    assert x / 4096 == x / 64 / 64 == a * 64 + b;
    assert x / 262144 == x / 4096 / 64;
  }

  lemma CodeOfEncoding(s: seq<Octet>, i: nat, x: int)
    requires 0 <= x <= MAXUNICODE && i < |s| && forall k | 0 <= k < |Encode(x)| :: At(s, i + k) == Encode(x)[k]
    ensures CodeAt(s, i) == x
  {
    Digits(x);
    assert At(s, i + 0) == Encode(x)[0];
    hide At;
    if x < 0x80 {
    } else if x < 0x800 {
      assert At(s, i + 1) == Encode(x)[1];
    } else if x < 0x10000 {
      assert At(s, i + 1) == Encode(x)[1] && At(s, i + 2) == Encode(x)[2];
    } else {
      assert At(s, i + 1) == Encode(x)[1] && At(s, i + 2) == Encode(x)[2] && At(s, i + 3) == Encode(x)[3];
    }
  }

  lemma EncodeTwo(s: seq<Octet>, i: nat)
    requires 0xC0 <= At(s, i) < 0xE0 && Cont(At(s, i + 1)) && Two(s, i) >= 0x80
    ensures 0 <= Two(s, i) <= MAXUNICODE && Encode(Two(s, i)) == [At(s, i), At(s, i + 1)]
  {
    hide At;
    OfDigits(0, 0, At(s, i) - 0xC0, At(s, i + 1) - 0x80);
  }

  lemma EncodeThree(s: seq<Octet>, i: nat)
    requires 0xE0 <= At(s, i) < 0xF0 && Cont(At(s, i + 1)) && Cont(At(s, i + 2)) && Three(s, i) >= 0x800
    ensures 0 <= Three(s, i) <= MAXUNICODE && Encode(Three(s, i)) == [At(s, i), At(s, i + 1), At(s, i + 2)]
  {
    hide At;
    OfDigits(0, At(s, i) - 0xE0, At(s, i + 1) - 0x80, At(s, i + 2) - 0x80);
  }

  lemma EncodeFour(s: seq<Octet>, i: nat)
    requires 0xF0 <= At(s, i) < 0xF8 && Cont(At(s, i + 1)) && Cont(At(s, i + 2)) && Cont(At(s, i + 3))
    requires 0x10000 <= Four(s, i) <= MAXUNICODE
    ensures Encode(Four(s, i)) == [At(s, i), At(s, i + 1), At(s, i + 2), At(s, i + 3)]
  {
    hide At;
    OfDigits(At(s, i) - 0xF0, At(s, i + 1) - 0x80, At(s, i + 2) - 0x80, At(s, i + 3) - 0x80);
  }

  lemma EncodingOfCode(s: seq<Octet>, i: nat, x: int)
    requires 0 <= x <= MAXUNICODE && CodeAt(s, i) == x
    ensures EncodedAt(s, i, x)
  {
    var c := At(s, i);
    if c < 0x80 {
      assert s[i..i + 1] == [c];
    } else {
      hide Encode, Two, Three, Four;
      if c < 0xE0 {
        EncodeTwo(s, i);
        assert s[i..i + 2] == [At(s, i), At(s, i + 1)];
      } else if c < 0xF0 {
        EncodeThree(s, i);
        assert s[i..i + 3] == [At(s, i), At(s, i + 1), At(s, i + 2)];
      } else {
        EncodeFour(s, i);
        assert s[i..i + 4] == [At(s, i), At(s, i + 1), At(s, i + 2), At(s, i + 3)];
      }
    }
  }

  // ---- luaO_utf8esc ----

  /** What is left to write: the bits `x` and the most that fits in the first
      byte, with the bytes already written behind. */
  predicate EscLeft(x0: int, x: int, mfb: int, tail: seq<Octet>)
    requires 0 <= x0 <= MAXUNICODE
  {
    (mfb == 0x1F && |tail| == 1 && x == x0 / 64 && tail == [0x80 + x0 % 64])
    || (mfb == 0x0F && |tail| == 2 && x == x0 / 4096 && tail == [0x80 + x0 / 64 % 64, 0x80 + x0 % 64] && x0 >= 0x800)
    || (mfb == 0x07 && |tail| == 3 && x == x0 / 262144 && tail == [0x80 + x0 / 4096 % 64, 0x80 + x0 / 64 % 64, 0x80 + x0 % 64] && x0 >= 0x10000)
  }

  /** One more continuation byte is written. */
  lemma EscNext(x0: int, x: int, mfb: int, tail: seq<Octet>, n: nat)
    requires 0 <= x0 <= MAXUNICODE && n == |tail| + 1
    requires if n == 1 then x == x0 && mfb == 0x3F && x0 >= 0x80 else EscLeft(x0, x, mfb, tail) && x > mfb
    ensures n <= 3 && 0 <= x && EscLeft(x0, x / 64, mfb / 2, [0x80 + x % 64] + tail)
  {
    assert x0 / 64 / 64 == x0 / 4096 && x0 / 4096 / 64 == x0 / 262144;
  }

  /** What is left fits in the first byte. */
  lemma EscFirst(x0: int, x: int, mfb: int, tail: seq<Octet>)
    requires 0x80 <= x0 <= MAXUNICODE && EscLeft(x0, x, mfb, tail) && x <= mfb
    ensures 0 <= (254 - 2 * mfb) + x < 256 && [(254 - 2 * mfb) + x] + tail == Encode(x0)
  {
  }

  /** The buffer `C` after `n - 1` bytes, which was `B`. */
  predicate Escaping(B: seq<Octet>, C: seq<Octet>, x0: int, x: int, mfb: int, n: nat) {
    && |B| == |C| == UTF8BUFFSZ && 0x80 <= x0 <= MAXUNICODE && 2 <= n <= 4 && 0 <= x
    && C[..UTF8BUFFSZ + 1 - n] == B[..UTF8BUFFSZ + 1 - n]
    && EscLeft(x0, x, mfb, C[UTF8BUFFSZ + 1 - n..])
  }

  lemma EscapeNext(B: seq<Octet>, C: seq<Octet>, D: seq<Octet>, x0: int, x: int, mfb: int, n: nat)
    requires 0x80 <= x0 <= MAXUNICODE
    requires if n == 1 then B == C && |B| == UTF8BUFFSZ && x == x0 && mfb == 0x3F else Escaping(B, C, x0, x, mfb, n) && x > mfb
    requires D == C[UTF8BUFFSZ - n := 0x80 + x % 64]
    ensures Escaping(B, D, x0, x / 64, mfb / 2, n + 1) && x / 64 < x
  {
    hide EscLeft;
    EscNext(x0, x, mfb, C[UTF8BUFFSZ + 1 - n..], n);
    assert D[UTF8BUFFSZ - n..] == [0x80 + x % 64] + C[UTF8BUFFSZ + 1 - n..];
    assert D[..UTF8BUFFSZ - n] == C[..UTF8BUFFSZ + 1 - n][..UTF8BUFFSZ - n] == B[..UTF8BUFFSZ - n];
  }

  lemma EscapeFirst(B: seq<Octet>, C: seq<Octet>, x0: int, x: int, mfb: int, n: nat)
    requires Escaping(B, C, x0, x, mfb, n) && x <= mfb
    ensures 0 <= (254 - 2 * mfb) + x < 256
    ensures var D := C[UTF8BUFFSZ - n := (254 - 2 * mfb) + x];
      D[UTF8BUFFSZ - n..] == Encode(x0) && D[..UTF8BUFFSZ - n] == B[..UTF8BUFFSZ - n]
  {
    hide EscLeft, Encode;
    EscFirst(x0, x, mfb, C[UTF8BUFFSZ + 1 - n..]);
    var D := C[UTF8BUFFSZ - n := (254 - 2 * mfb) + x];
    assert D[UTF8BUFFSZ - n..] == [(254 - 2 * mfb) + x] + C[UTF8BUFFSZ + 1 - n..];
    assert D[..UTF8BUFFSZ - n] == C[..UTF8BUFFSZ + 1 - n][..UTF8BUFFSZ - n] == B[..UTF8BUFFSZ - n];
  }

  /** `luaO_utf8esc`: the last `n` bytes of the buffer are the encoding. */
  method Utf8Esc(buff: array<Octet>, x0: int) returns (n: nat)
    requires buff.Length == UTF8BUFFSZ && 0 <= x0 <= MAXUNICODE
    modifies buff
    ensures 1 <= n <= 4 && buff[UTF8BUFFSZ - n..] == Encode(x0)
    ensures buff[..UTF8BUFFSZ - n] == old(buff[..UTF8BUFFSZ - n])
  {
    n := 1;
    if x0 < 0x80 {
      buff[UTF8BUFFSZ - 1] := x0;
      return;
    }
    hide Encode;
    var x, mfb := x0, 0x3F;
    ghost var B := buff[..];
    while true
      invariant if n == 1 then buff[..] == B && x == x0 && mfb == 0x3F else Escaping(B, buff[..], x0, x, mfb, n) && x > mfb
      decreases x
    {
      ghost var C := buff[..];
      buff[UTF8BUFFSZ - n] := 0x80 + x % 64;
      EscapeNext(B, C, buff[..], x0, x, mfb, n);
      n := n + 1;
      x := x / 64;
      mfb := mfb / 2;
      if x <= mfb { break; }
    }
    EscapeFirst(B, buff[..], x0, x, mfb, n);
    buff[UTF8BUFFSZ - n] := (254 - 2 * mfb) + x;
  }

  // ---- utf8_decode ----

  function Shifted(c: int, count: nat): int {
    if count == 0 then c else 2 * Shifted(c, count - 1)
  }

  /** What is known after `count` turns of the loop: the leading bits of the
      first byte `c0`, and the bits of the continuation bytes. */
  predicate Decoding(s: seq<Octet>, i: nat, c0: int, c: int, count: nat, res: int) {
    && 0x80 <= c0 < 256 && count <= 7 && c == Shifted(c0, count) && c0 == At(s, i)
    && (count >= 1 ==> c0 >= 0xC0 && Cont(At(s, i + 1))) && (count >= 2 ==> c0 >= 0xE0 && Cont(At(s, i + 2)))
    && (count >= 3 ==> c0 >= 0xF0 && Cont(At(s, i + 3))) && (count >= 4 ==> c0 >= 0xF8)
    && (count >= 5 ==> c0 >= 0xFC) && (count >= 6 ==> c0 >= 0xFE) && (count >= 7 ==> c0 >= 0xFF)
    && (count == 0 ==> res == 0) && (count == 1 ==> res == At(s, i + 1) - 0x80)
    && (count == 2 ==> res == (At(s, i + 1) - 0x80) * 64 + (At(s, i + 2) - 0x80))
    && (count == 3 ==> res == (At(s, i + 1) - 0x80) * 4096 + (At(s, i + 2) - 0x80) * 64 + (At(s, i + 3) - 0x80))
  }

  /** Bit 6, which is moved on with every continuation byte. */
  predicate Bit6(c: int) { c / 64 % 2 == 1 }

  lemma ShiftedBits(c0: int)
    requires 0x80 <= c0 < 256
    ensures Bit6(Shifted(c0, 0)) <==> c0 >= 0xC0
    ensures c0 >= 0xC0 ==> (Bit6(Shifted(c0, 1)) <==> c0 >= 0xE0)
    ensures c0 >= 0xE0 ==> (Bit6(Shifted(c0, 2)) <==> c0 >= 0xF0)
    ensures c0 >= 0xF0 ==> (Bit6(Shifted(c0, 3)) <==> c0 >= 0xF8)
    ensures c0 >= 0xF8 ==> (Bit6(Shifted(c0, 4)) <==> c0 >= 0xFC)
    ensures c0 >= 0xFC ==> (Bit6(Shifted(c0, 5)) <==> c0 >= 0xFE)
    ensures c0 >= 0xFE ==> (Bit6(Shifted(c0, 6)) <==> c0 >= 0xFF)
    ensures !Bit6(Shifted(c0, 7))
  {
    assert Shifted(c0, 1) == 2 * c0 && Shifted(c0, 2) == 4 * c0 && Shifted(c0, 3) == 8 * c0;
    assert Shifted(c0, 4) == 16 * c0 && Shifted(c0, 5) == 32 * c0 && Shifted(c0, 6) == 64 * c0 && Shifted(c0, 7) == 128 * c0;
  }

  lemma FirstByteBits(c0: int)
    requires 0x80 <= c0 < 256
    ensures c0 < 0xC0 ==> Shifted(c0, 0) % 128 == c0 - 0x80
    ensures 0xC0 <= c0 < 0xE0 ==> Shifted(c0, 1) % 128 * 32 == (c0 - 0xC0) * 64
    ensures 0xE0 <= c0 < 0xF0 ==> Shifted(c0, 2) % 128 * 1024 == (c0 - 0xE0) * 4096
    ensures 0xF0 <= c0 < 0xF8 ==> Shifted(c0, 3) % 128 * 32768 == (c0 - 0xF0) * 262144
  {
    assert Shifted(c0, 1) == 2 * c0 && Shifted(c0, 2) == 4 * c0 && Shifted(c0, 3) == 8 * c0;
  }

  function Limit(count: nat): int
    requires count <= 3
  {
    if count == 0 then 0xFF else if count == 1 then 0x7F else if count == 2 then 0x7FF else 0xFFFF
  }

  lemma DecodingNext(s: seq<Octet>, i: nat, c0: int, c: int, count: nat, res: int)
    requires Decoding(s, i, c0, c, count, res) && Bit6(c) && Cont(At(s, i + (count + 1)))
    ensures count < 7 && Decoding(s, i, c0, c * 2, count + 1, res * 64 + At(s, i + (count + 1)) % 64)
  {
    hide Bit6, At;
    ShiftedBits(c0);
  }

  /** A continuation byte is missing. */
  lemma DecodingMissing(s: seq<Octet>, i: nat, c0: int, c: int, count: nat, res: int)
    requires Decoding(s, i, c0, c, count, res) && Bit6(c) && !Cont(At(s, i + (count + 1)))
    ensures CodeAt(s, i) == -1
  {
    hide Bit6, At, Shifted;
    ShiftedBits(c0);
  }

  function First(c: int, count: nat): int {
    if count == 0 then c % 128 else if count == 1 then c % 128 * 32 else if count == 2 then c % 128 * 1024 else c % 128 * 32768
  }

  /** After the last continuation byte. */
  lemma DecodingDone(s: seq<Octet>, i: nat, c0: int, c: int, count: nat, res: int)
    requires i < |s| && Decoding(s, i, c0, c, count, res) && !Bit6(c)
    ensures var x := res + First(c, count);
      if count > 3 || x > MAXUNICODE || x <= Limit(count) then CodeAt(s, i) == -1
      else CodeAt(s, i) == x >= 0 && |Encode(x)| == count + 1
  {
    hide Bit6, At, Shifted;
    ShiftedBits(c0);
    FirstByteBits(c0);
  }

  /** `utf8_decode`: it accepts exactly the encodings of 0..0x10FFFF, surrogates
      included, and no overlong form. (`|` joins bits that do not overlap, so it
      is an addition.) */
  method Utf8Decode(s: seq<Octet>, i: nat) returns (ok: bool, val: int, next: nat)
    requires i < |s|
    ensures ok <==> CodeAt(s, i) >= 0
    ensures ok ==> val == CodeAt(s, i) && EncodedAt(s, i, val) && next == i + |Encode(val)|
  {
    hide EncodedAt;
    var c: int, res: int := At(s, i), 0;
    next := i;
    if c < 0x80 {
      EncodingOfCode(s, i, c);
      return true, c, i + 1;
    }
    var count: nat := 0;
    ghost var c0 := c;
    assert Decoding(s, i, c0, c, count, res);
    hide Bit6, Decoding, At, CodeAt, Encode;
    while Bit6(c)
      invariant count <= 7 && Decoding(s, i, c0, c, count, res)
      decreases 8 - count
    {
      var cc := At(s, i + (count + 1));
      if !Cont(cc) {
        DecodingMissing(s, i, c0, c, count, res);
        return false, 0, i;
      }
      DecodingNext(s, i, c0, c, count, res);
      count := count + 1;
      res := res * 64 + cc % 64;
      c := c * 2;
    }
    DecodingDone(s, i, c0, c, count, res);
    if count > 3 { return false, 0, i; }
    res := res + First(c, count);
    if res > MAXUNICODE || res <= Limit(count) { return false, 0, i; }
    EncodingOfCode(s, i, res);
    return true, res, i + count + 1;
  }

  // ---- isValidUtf8 ----

  /** Well-formed UTF-8 (RFC 3629, section 4): encodings of scalar values, one
      after the other. */
  ghost predicate WellFormed(s: seq<Octet>, i: nat)
    decreases |s| - i
  {
    i >= |s| || exists x :: Scalar(x) && EncodedAt(s, i, x) && WellFormed(s, i + |Encode(x)|)
  }

  /** Only the code point at `i` matters. */
  lemma WellFormedStep(s: seq<Octet>, i: nat)
    requires i < |s|
    ensures var x := CodeAt(s, i);
      WellFormed(s, i) <==> Scalar(x) && WellFormed(s, i + |Encode(x)|)
  {
    hide CodeAt, Encode, EncodedAt;
    var x := CodeAt(s, i);
    if Scalar(x) { CodeAtIs(s, i, x); }
    forall y | Scalar(y) && EncodedAt(s, i, y) ensures y == x { CodeAtIs(s, i, y); }
  }

  lemma AsciiStep(s: seq<Octet>, i: nat)
    requires i < |s| && s[i] < 0x80
    ensures WellFormed(s, i) <==> WellFormed(s, i + 1)
  {
    hide CodeAt, Encode, WellFormed;
    AsciiCode(s, i);
    WellFormedStep(s, i);
  }

  lemma AsciiCode(s: seq<Octet>, i: nat)
    requires i < |s| && s[i] < 0x80
    ensures Scalar(CodeAt(s, i)) && |Encode(CodeAt(s, i))| == 1
  {
  }

  lemma AsciiFour(s: seq<Octet>, i: nat)
    requires i + 4 <= |s| && s[i] < 0x80 && s[i + 1] < 0x80 && s[i + 2] < 0x80 && s[i + 3] < 0x80
    ensures WellFormed(s, i) <==> WellFormed(s, i + 4)
  {
    hide WellFormed;
    AsciiStep(s, i);
    AsciiStep(s, i + 1);
    AsciiStep(s, i + 2);
    AsciiStep(s, i + 3);
  }

  predicate Good2(c: int, s: seq<Octet>, i: nat) { i + 1 < |s| && Cont(At(s, i + 1)) && c >= 0xC2 }

  predicate Good3(c: int, s: seq<Octet>, i: nat) {
    i + 2 < |s| && Cont(At(s, i + 1)) && Cont(At(s, i + 2)) && !(c == 0xE0 && At(s, i + 1) < 0xA0) && !(c == 0xED && At(s, i + 1) >= 0xA0)
  }

  predicate Good4(c: int, s: seq<Octet>, i: nat) {
    i + 3 < |s| && Cont(At(s, i + 1)) && Cont(At(s, i + 2)) && Cont(At(s, i + 3))
    && !(c == 0xF0 && At(s, i + 1) < 0x90) && !(c == 0xF4 && At(s, i + 1) > 0x8F) && c <= 0xF4
  }

  /** The table of RFC 3629, section 4, byte by byte. */
  lemma ScalarBytes(s: seq<Octet>, i: nat)
    requires i < |s| && s[i] >= 0x80
    ensures var c, x := s[i], CodeAt(s, i);
      && (0xC0 <= c < 0xE0 ==> (Scalar(x) <==> Good2(c, s, i)) && (Scalar(x) ==> |Encode(x)| == 2))
      && (0xE0 <= c < 0xF0 ==> (Scalar(x) <==> Good3(c, s, i)) && (Scalar(x) ==> |Encode(x)| == 3))
      && (0xF0 <= c < 0xF8 ==> (Scalar(x) <==> Good4(c, s, i)) && (Scalar(x) ==> |Encode(x)| == 4))
      && (c < 0xC0 || c >= 0xF8 ==> !Scalar(x))
  {
  }

  // The bit tests of the code: `(c & 0x60) == 0x40`, `(c & 0xf0) == 0xe0`, ...
  predicate Lead2(c: int) { c / 32 % 4 == 2 }
  predicate Lead3(c: int) { c / 16 == 14 }
  predicate Lead4(c: int) { c / 8 == 30 }
  predicate TopIs(c: int, bits: int, v: int)
    requires bits > 0
  {
    c / bits == v
  }

  /** They are ranges. */
  lemma ByteClasses(c: int)
    requires 0x80 <= c < 256
    ensures (Lead2(c) <==> 0xC0 <= c < 0xE0) && (Lead3(c) <==> 0xE0 <= c < 0xF0) && (Lead4(c) <==> 0xF0 <= c < 0xF8)
    ensures (TopIs(c, 2, 0x60) <==> 0xC0 <= c < 0xC2) && (TopIs(c, 32, 4) <==> c < 0xA0)
    ensures (TopIs(c, 32, 5) <==> 0xA0 <= c < 0xC0) && (TopIs(c, 16, 8) <==> c < 0x90)
  {
  }

  /** `isValidUtf8`, with its four bytes at a time. */
  method IsValidUtf8(s: seq<Octet>) returns (b: bool)
    ensures b == WellFormed(s, 0)
  {
    hide WellFormed, CodeAt, Encode;
    var i := 0;
    while i != |s|
      invariant 0 <= i <= |s| && WellFormed(s, 0) == WellFormed(s, i)
      decreases |s| - i
    {
      if i + 4 <= |s| && s[i] < 0x80 && s[i + 1] < 0x80 && s[i + 2] < 0x80 && s[i + 3] < 0x80 {
        AsciiFour(s, i);
        i := i + 4;
      } else {
        i, b := SkipAscii(s, i);
        if b { return; }
        var n := SequenceLength(s, i);
        if n == 0 { return false; }
        i := i + n;
      }
    }
    EndWellFormed(s, i);
    return true;
  }

  lemma EndWellFormed(s: seq<Octet>, i: nat)
    requires i >= |s|
    ensures WellFormed(s, i)
  {
  }

  /** The inner loop: `done` when the bytes end with 7-bit ones. */
  method SkipAscii(s: seq<Octet>, i0: nat) returns (i: nat, done: bool)
    requires i0 < |s|
    ensures i0 <= i <= |s| && WellFormed(s, i0) == WellFormed(s, i)
    ensures if done then WellFormed(s, i0) else i < |s| && s[i] >= 0x80
  {
    i := i0;
    while s[i] < 0x80
      invariant i0 <= i < |s| && WellFormed(s, i0) == WellFormed(s, i)
      decreases |s| - i
    {
      hide WellFormed;
      AsciiStep(s, i);
      i := i + 1;
      if i == |s| {
        EndWellFormed(s, i);
        return i, true;
      }
    }
    done := false;
  }

  /** The tests on a sequence of two, three or four bytes; 0 if it is refused. */
  method SequenceLength(s: seq<Octet>, i: nat) returns (n: nat)
    requires i < |s| && s[i] >= 0x80
    ensures n == 0 ==> !WellFormed(s, i)
    ensures n > 0 ==> i + n <= |s| && WellFormed(s, i) == WellFormed(s, i + n)
  {
    hide WellFormed, CodeAt, Encode, Scalar, Lead2, Lead3, Lead4, TopIs;
    WellFormedStep(s, i);
    ScalarBytes(s, i);
    var c := s[i];
    ByteClasses(c);
    if i + 1 < |s| && Cont(s[i + 1]) { ByteClasses(s[i + 1]); }
    if Lead2(c) {
      if i + 1 >= |s| || !Cont(s[i + 1]) || TopIs(c, 2, 0x60) { return 0; }
      return 2;
    } else if Lead3(c) {
      if i + 2 >= |s| || !Cont(s[i + 1]) || !Cont(s[i + 2]) || (c == 0xE0 && TopIs(s[i + 1], 32, 4)) || (c == 0xED && TopIs(s[i + 1], 32, 5)) { return 0; }
      return 3;
    } else if Lead4(c) {
      if i + 3 >= |s| || !Cont(s[i + 1]) || !Cont(s[i + 2]) || !Cont(s[i + 3])
         || (c == 0xF0 && TopIs(s[i + 1], 16, 8)) || (c == 0xF4 && s[i + 1] > 0x8F) || c > 0xF4 { return 0; }
      return 4;
    } else {
      return 0;
    }
  }

  /** Every encoding of a scalar value is well formed, and a surrogate's, which
      `utf8_decode` accepts, is not. */
  lemma EncodingWellFormed(x: int)
    requires 0 <= x <= MAXUNICODE
    ensures WellFormed(Encode(x), 0) <==> !Surrogate(x)
  {
    var s := Encode(x);
    assert s[0..|s|] == s;
    assert EncodedAt(s, 0, x);
    CodeAtIs(s, 0, x);
    WellFormedStep(s, 0);
    EndWellFormed(s, |s|);
  }

  /** What `luaO_utf8esc` writes, `utf8_decode` reads. */
  lemma DecodeOfEncode(x: int)
    requires 0 <= x <= MAXUNICODE
    ensures CodeAt(Encode(x), 0) == x
  {
    hide CodeAt, Encode;
    var s := Encode(x);
    assert s[0..|s|] == s;
    assert EncodedAt(s, 0, x);
    CodeAtIs(s, 0, x);
  }
}
