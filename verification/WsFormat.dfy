/** `formatMessage`, and what the other end makes of its output. */
module WsFormat {
  import opened Powers
  import opened WsFrames
  import opened WsParser

  lemma NextByte(b: Byte)
    ensures b as nat < 255 ==> (b + 1) as nat == b as nat + 1
    ensures b as nat < 128 ==> b < 128
  {
  }

  /** The byte of value `n`. */
  function ToByte(n: nat): (b: Byte)
    requires n < 256
    ensures b as nat == n
  {
    if n == 0 then 0 else NextByte(ToByte(n - 1)); ToByte(n - 1) + 1
  }

  function BigEndian(n: nat, k: nat): (b: seq<Byte>)
    ensures |b| == k
  {
    if k == 0 then [] else BigEndian(n / 256, k - 1) + [ToByte(n % 256)]
  }

  lemma {:induction false} NumberOfBigEndian(n: nat, k: nat)
    requires n < Pow256(k)
    ensures Number(BigEndian(n, k)) == n
  {
    if k > 0 {
      NumberOfBigEndian(n / 256, k - 1);
      assert BigEndian(n, k)[..k - 1] == BigEndian(n / 256, k - 1);
    }
  }

  // ---- the format ----

  const SND_COMPRESSED: Byte := 64

  function Byte0(op: Byte, compressed: bool): Byte {
    128 | (if compressed then SND_COMPRESSED else 0) | op
  }

  function FirstByte(length: nat): Byte { if length < 126 then ToByte(length) else if length <= 65535 then 126 else 127 }

  function ExtendedLength(length: nat): seq<Byte> {
    if length < 126 then [] else if length <= 65535 then BigEndian(length, 2) else BigEndian(length, 8)
  }

  /** The length byte and the extended length; a client sets the mask bit. */
  function LengthBytes(length: nat, masked: bool): seq<Byte>
    requires length < Pow256(8)
  {
    [FirstByte(length) | if masked then 128 else 0] + ExtendedLength(length)
  }

  /** One whole message: a server sends it in the clear, a client masked. */
  function Message(fromServer: bool, op: Byte, compressed: bool, payload: seq<Byte>, m: Mask): seq<Byte>
    requires |payload| < Pow256(8)
  {
    [Byte0(op, compressed)] + LengthBytes(|payload|, !fromServer)
    + (if fromServer then payload else m + Masked(payload, m))
  }

  // ---- byte by byte ----

  /** How many bytes the extended length has. */
  function ExtendedBy(n: nat): nat { if n < 126 then 0 else if n <= 65535 then 2 else 8 }

  /** The fin bit and the opcode. */
  predicate FinalOp(b0: Byte, op: Byte) { b0 == 128 | op }

  /** Seven bits of the length, and the mask bit. */
  predicate LengthByte(b1: Byte, n: nat, masked: bool) {
    (b1 & 128 != 0) == masked && (b1 & 127) as nat == (if n < 126 then n else if n <= 65535 then 126 else 127)
  }

  /** The most significant byte comes first. */
  predicate Holds(x: seq<Byte>, n: nat) {
    forall i: nat | i < |x| :: x[i] as nat == n / Pow256(|x| - 1 - i) % 256
  }

  /** Byte `i` is combined with byte `i % 4` of the key. */
  predicate Combined(x: seq<Byte>, payload: seq<Byte>, m: Mask) {
    |x| == |payload| && forall i: nat | i < |x| :: x[i] == payload[i] ^ m[i % 4]
  }

  /** `b` is a final frame as section 5.2 of RFC 6455 draws it: opcode, mask bit,
      length (in network order if it is extended), masking key, payload. */
  predicate LaidOut(fromServer: bool, op: Byte, payload: seq<Byte>, m: Mask, b: seq<Byte>) {
    var n := |payload|;
    var e, k := ExtendedBy(n), if fromServer then 0 else 4;
    && |b| == 2 + e + k + n && FinalOp(b[0], op)
    && LengthByte(b[1], n, !fromServer) && Holds(b[2..2 + e], n)
    && if fromServer then b[2 + e..] == payload else b[2 + e..6 + e] == m && Combined(b[6 + e..], payload, m)
  }

  lemma {:induction false} BigEndianIs(n: nat, k: nat, i: nat)
    requires i < k
    ensures BigEndian(n, k)[i] as nat == n / Pow256(k - 1 - i) % 256
  {
    if i == k - 1 {
      assert Pow256(0) == 1;
    } else {
      BigEndianIs(n / 256, k - 1, i);
      DivDiv(n, 256, Pow256(k - 2 - i));
    }
  }

  lemma MaskBit(f: Byte)
    requires f < 128
    ensures (f | 128) & 128 != 0 && (f | 128) & 127 == f && (f | 0) & 128 == 0 && (f | 0) & 127 == f
  {
  }

  lemma LengthByteIs(n: nat, masked: bool)
    ensures LengthByte(FirstByte(n) | if masked then 128 else 0, n, masked)
  {
    hide ToByte;
    if n < 126 { NextByte(ToByte(n)); }
    var f := FirstByte(n);
    assert f < 128;
    MaskBit(f);
  }

  lemma Split(b0: Byte, b1: Byte, ext: seq<Byte>, body: seq<Byte>)
    ensures var b := [b0] + ([b1] + ext) + body; var e := |ext|;
      |b| == 2 + e + |body| && b[0] == b0 && b[1] == b1 && b[2..2 + e] == ext && b[2 + e..] == body
    ensures var b := [b0] + ([b1] + ext) + body; var e := |ext|; |body| >= 4 ==> b[2 + e..6 + e] == body[..4] && b[6 + e..] == body[4..]
  {
  }

  lemma ExtendedIs(n: nat)
    requires n < Pow256(8)
    ensures |ExtendedLength(n)| == ExtendedBy(n) && Holds(ExtendedLength(n), n)
  {
    hide BigEndian, Pow256;
    var x := ExtendedLength(n);
    forall i: nat | i < |x| ensures x[i] as nat == n / Pow256(|x| - 1 - i) % 256 { BigEndianIs(n, |x|, i); }
  }

  lemma MaskedIs(payload: seq<Byte>, m: Mask)
    ensures Combined(Masked(payload, m), payload, m)
  {
  }

  lemma LengthBytesAre(n: nat, masked: bool)
    requires n < Pow256(8)
    ensures var l := LengthBytes(n, masked);
      |l| == 1 + ExtendedBy(n) && l == [l[0]] + ExtendedLength(n) && Holds(ExtendedLength(n), n) && LengthByte(l[0], n, masked)
  {
    hide ExtendedLength, FirstByte, LengthByte, Pow256;
    ExtendedIs(n);
    LengthByteIs(n, masked);
  }

  /** What `formatMessage` writes is laid out so. */
  lemma MessageLaidOut(fromServer: bool, op: Byte, payload: seq<Byte>, m: Mask)
    requires |payload| < Pow256(8)
    ensures LaidOut(fromServer, op, payload, m, Message(fromServer, op, false, payload, m))
  {
    hide FirstByte, ExtendedLength, ExtendedBy, Pow256, Holds, Combined, Masked, Byte0, LengthByte, FinalOp, LengthBytes;
    var l := LengthBytes(|payload|, !fromServer);
    ByteZero(op);
    LengthBytesAre(|payload|, !fromServer);
    MaskedIs(payload, m);
    Split(Byte0(op, false), l[0], ExtendedLength(|payload|), if fromServer then payload else m + Masked(payload, m));
  }

  lemma ByteZero(op: Byte)
    ensures FinalOp(Byte0(op, false), op)
  {
  }

  // ---- reading it back ----

  lemma SmallLength(n: nat, bit: Byte)
    requires n < 128 && (bit == 0 || bit == 128)
    ensures Length7(ToByte(n) | bit) == n
  {
    hide ToByte;
    var b := ToByte(n);
    NextByte(b);
    LowBits(b, bit);
  }

  lemma LowBits(b: Byte, bit: Byte)
    requires b < 128 && (bit == 0 || bit == 128)
    ensures (b | bit) & 127 == b
  {
  }

  function Body(server: bool, payload: seq<Byte>, m: Mask): seq<Byte> {
    if server then m + Masked(payload, m) else payload
  }

  /** What the length bytes say. */
  lemma ReadLength(server: bool, n: nat, b: seq<Byte>, tail: seq<Byte>)
    requires n < Pow256(8) && |b| >= 1 && b == [b[0]] + LengthBytes(n, server) + tail
    requires |tail| >= if server then 4 else 0
    ensures |b| >= Short(server) && HeaderComplete(server, b) && PayloadLength(b) == n
    ensures HeaderLength(server, b[1]) == 1 + |LengthBytes(n, server)| + (if server then 4 else 0)
    ensures n <= 125 ==> Length7(b[1]) == n
  {
    var bit: Byte := if server then 128 else 0;
    PowValues();
    if n < 126 {
      SmallLength(n, bit);
      hide Length7;
      assert b[1] == ToByte(n) | bit;
    } else if n <= 65535 {
      SmallLength(126, bit);
      NumberOfBigEndian(n, 2);
      hide Length7, Number, BigEndian;
      assert b[1] == 126 | bit;
      assert b[2..4] == BigEndian(n, 2);
    } else {
      SmallLength(127, bit);
      NumberOfBigEndian(n, 8);
      hide Length7, Number, BigEndian;
      assert b[1] == 127 | bit;
      assert b[2..10] == BigEndian(n, 8);
    }
  }

  lemma BodyParts(server: bool, payload: seq<Byte>, m: Mask, b: seq<Byte>, h: nat, rest: seq<Byte>)
    requires (if server then 4 else 0) <= h <= |b| && h >= 2
    requires b[h - (if server then 4 else 0)..] == Body(server, payload, m) + rest
    ensures |b| == h + |payload| + |rest| && b[h + |payload|..] == rest
    ensures Masked(b[h..h + |payload|], MaskOf(server, b, h)) == payload
  {
    if server {
      var t := b[h - 4..];
      assert t == m + Masked(payload, m) + rest;
      assert b[h - 4..h] == t[..4] == m;
      assert b[h..h + |payload|] == t[4..4 + |payload|] == Masked(payload, m);
      assert b[h + |payload|..] == t[4 + |payload|..] == rest;
      MaskedTwice(payload, m);
    } else {
      var t := b[h..];
      assert b[h..h + |payload|] == t[..|payload|] == payload;
      assert b[h + |payload|..] == t[|payload|..] == rest;
      MaskedByNone(payload);
    }
  }

  lemma BodyAt(server: bool, b: seq<Byte>, b0: Byte, l: seq<Byte>, t: seq<Byte>, h: nat)
    requires b == [b0] + l + t && h == 1 + |l| + (if server then 4 else 0)
    ensures b[0] == b0 && h - (if server then 4 else 0) <= |b| && b[h - (if server then 4 else 0)..] == t
  {
  }

  // ---- formatMessage ----

  method Copy(dst: array<Byte>, at: nat, bytes: seq<Byte>)
    requires at + |bytes| <= dst.Length
    modifies dst
    ensures dst[..] == old(dst[..at]) + bytes + old(dst[at + |bytes|..])
  {
    var i := 0;
    while i < |bytes|
      invariant 0 <= i <= |bytes| && dst[..at + i] == old(dst[..at]) + bytes[..i] && dst[at + i..] == old(dst[at + i..])
    {
      dst[at + i] := bytes[i];
      i := i + 1;
    }
    assert dst[..] == dst[..at + |bytes|] + dst[at + |bytes|..];
  }

  /** The masking loop at the end of `formatMessage`. */
  method MaskInPlace(dst: array<Byte>, start0: nat, length: nat, m: Mask)
    requires start0 + length <= dst.Length
    modifies dst
    ensures dst[..] == MaskedAt(old(dst[..]), start0, length, m)
  {
    hide Xor, Masked, Key, MaskedAt;
    ghost var B := dst[..];
    var start, stop, i := start0, start0 + length, 0;
    MaskedNone(B, start0, m);
    while start != stop
      invariant start == start0 + i && 0 <= i <= length && dst[..] == MaskedAt(B, start0, i, m)
      decreases stop - start
    {
      MaskedNext(B, dst[..], start0, i, m);
      dst[start] := Xor(dst[start], Key(m, i));
      start, i := start + 1, i + 1;
    }
  }

  /** `B` with `n` bytes from `start` on masked. */
  ghost function MaskedAt(B: seq<Byte>, start: nat, n: nat, m: Mask): (C: seq<Byte>)
    requires start + n <= |B|
    ensures |C| == |B|
  {
    B[..start] + Masked(B[start..start + n], m) + B[start + n..]
  }

  lemma MaskedNone(B: seq<Byte>, start: nat, m: Mask)
    requires start <= |B|
    ensures MaskedAt(B, start, 0, m) == B
  {
  }

  lemma MaskedNext(B: seq<Byte>, C: seq<Byte>, start: nat, i: nat, m: Mask)
    requires start + i < |B| && C == MaskedAt(B, start, i, m)
    ensures C[start + i] == B[start + i]
    ensures C[start + i := Xor(B[start + i], Key(m, i))] == MaskedAt(B, start, i + 1, m)
  {
    hide Xor, Key;
    assert B[start..start + i + 1] == B[start..start + i] + [B[start + i]];
    assert Masked(B[start..start + i + 1], m) == Masked(B[start..start + i], m) + [Xor(B[start + i], Key(m, i))];
  }

  lemma OrZero(b: Byte)
    ensures b | 0 == b
  {
  }

  /** The first part of `formatMessage`. */
  method WriteHeader(dst: array<Byte>, length: nat, op: Byte, fromServer: bool, compressed: bool) returns (headerLength: nat)
    requires length < Pow256(8) && 14 <= dst.Length
    modifies dst
    ensures headerLength == 1 + |LengthBytes(length, !fromServer)| <= 10
    ensures dst[..] == [Byte0(op, compressed)] + LengthBytes(length, !fromServer) + old(dst[headerLength..])
  {
    hide Byte0, BigEndian, ToByte, Pow256;
    ghost var D := dst[..];
    var first: Byte;
    if length < 126 {
      headerLength := 2;
      first := ToByte(length);
    } else if length <= 65535 {
      headerLength := 4;
      first := 126;
      Copy(dst, 2, BigEndian(length, 2));
    } else {
      headerLength := 10;
      first := 127;
      Copy(dst, 2, BigEndian(length, 8));
    }
    assert first == FirstByte(length) && dst[..] == D[..2] + ExtendedLength(length) + D[headerLength..];
    OrZero(first);
    dst[0] := Byte0(op, compressed);
    dst[1] := if fromServer then first else first | 128;
    Assemble(D, dst[..], ExtendedLength(length));
  }

  lemma Assemble(D: seq<Byte>, C: seq<Byte>, ext: seq<Byte>)
    requires 2 + |ext| <= |D| == |C| && C[2..] == ext + D[2 + |ext|..]
    ensures C == [C[0]] + ([C[1]] + ext) + D[2 + |ext|..]
  {
    assert C == [C[0], C[1]] + C[2..];
  }

  /** `formatMessage`, with the random mask as a parameter. */
  method FormatMessage(dst: array<Byte>, src: seq<Byte>, op: Byte, fromServer: bool, compressed: bool, random: Mask)
    returns (messageLength: nat)
    requires |src| < Pow256(8) && |src| + 14 <= dst.Length
    modifies dst
    ensures messageLength == |Message(fromServer, op, compressed, src, random)|
    ensures dst[..] == Message(fromServer, op, compressed, src, random) + old(dst[messageLength..])
    ensures !compressed ==> LaidOut(fromServer, op, src, random, dst[..messageLength])
  {
    hide Byte0, LengthBytes, Masked, Pow256, LaidOut, Message;
    messageLength := WriteMessage(dst, src, op, fromServer, compressed, random);
    if !compressed { MessageLaidOut(fromServer, op, src, random); }
  }

  method WriteMessage(dst: array<Byte>, src: seq<Byte>, op: Byte, fromServer: bool, compressed: bool, random: Mask)
    returns (messageLength: nat)
    requires |src| < Pow256(8) && |src| + 14 <= dst.Length
    modifies dst
    ensures messageLength == |Message(fromServer, op, compressed, src, random)|
    ensures dst[..] == Message(fromServer, op, compressed, src, random) + old(dst[messageLength..])
  {
    hide Byte0, LengthBytes, Masked, Pow256, Message;
    ghost var D := dst[..];
    var headerLength := WriteHeader(dst, |src|, op, fromServer, compressed);
    ghost var head := [Byte0(op, compressed)] + LengthBytes(|src|, !fromServer);
    MessageIs(fromServer, op, compressed, src, random);
    if fromServer {
      Spliced(head, src, D, dst[..]);
      Copy(dst, headerLength, src);
      messageLength := headerLength + |src|;
    } else {
      messageLength := WriteCoded(dst, headerLength, src, random, head, D);
    }
  }

  lemma MessageIs(fromServer: bool, op: Byte, compressed: bool, payload: seq<Byte>, m: Mask)
    requires |payload| < Pow256(8)
    ensures var head := [Byte0(op, compressed)] + LengthBytes(|payload|, !fromServer);
      Message(fromServer, op, compressed, payload, m) == if fromServer then head + payload else head + m + Masked(payload, m)
  {
    hide Byte0, LengthBytes, Masked, Pow256;
    var head := [Byte0(op, compressed)] + LengthBytes(|payload|, !fromServer);
    assert head + (m + Masked(payload, m)) == head + m + Masked(payload, m);
  }

  /** The mask and the payload of a client. */
  method WriteCoded(dst: array<Byte>, at: nat, src: seq<Byte>, random: Mask, ghost head: seq<Byte>, ghost D: seq<Byte>) returns (end: nat)
    requires at == |head| && at + 4 + |src| <= dst.Length == |D| && dst[..] == head + D[|head|..]
    modifies dst
    ensures end == at + 4 + |src| && dst[..] == head + random + Masked(src, random) + D[end..]
  {
    hide Masked;
    Spliced(head, random, D, dst[..]);
    Copy(dst, at, random);
    end := WriteMasked(dst, at + 4, src, random, head + random, D);
  }

  lemma Spliced(head: seq<Byte>, x: seq<Byte>, D: seq<Byte>, C: seq<Byte>)
    requires |head| + |x| <= |D| == |C| && C == head + D[|head|..]
    ensures C[..|head|] + x + C[|head| + |x|..] == (head + x) + D[|head + x|..]
  {
    assert C[|head| + |x|..] == D[|head| + |x|..];
  }

  /** The payload, copied and then masked where it lies. */
  method WriteMasked(dst: array<Byte>, at: nat, src: seq<Byte>, m: Mask, ghost head: seq<Byte>, ghost D: seq<Byte>) returns (end: nat)
    requires at == |head| && at + |src| <= dst.Length == |D| && dst[..] == head + D[|head|..]
    modifies dst
    ensures end == at + |src| && dst[..] == (head + Masked(src, m)) + D[end..]
  {
    hide Masked;
    Spliced(head, src, D, dst[..]);
    Copy(dst, at, src);
    ghost var C := dst[..];
    assert C[..at] == head && C[at..at + |src|] == src && C[at + |src|..] == D[at + |src|..];
    MaskInPlace(dst, at, |src|, m);
    assert MaskedAt(C, at, |src|, m) == head + Masked(src, m) + D[at + |src|..];
    end := at + |src|;
  }

}
