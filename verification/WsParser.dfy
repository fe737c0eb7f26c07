/** The resumable parser of `WebSocketProtocol.h`, working in place in the
  receive buffer. */
module WsParser {
  import opened WsFrames

  /** One call of `handleFragment`. */
  datatype Event = Event(op: Byte, fin: bool, data: seq<Byte>, remaining: nat)

  datatype Open = Idle | Under(op: Byte, fin: bool, got: seq<Byte>, remaining: nat)

  /** The fragments put together again: complete frames, the one under way, and
      whether all fragments of a frame agree on what it is and how much is left. */
  datatype Hearing = Hearing(frames: seq<Frame>, open: Open, sane: bool)

  function Hear(s: Hearing, e: Event): Hearing {
    var got := if s.open.Idle? then e.data else s.open.got + e.data;
    var sane := s.sane && (s.open.Under? ==> e.op == s.open.op && e.fin == s.open.fin && |e.data| + e.remaining == s.open.remaining);
    if e.remaining == 0 then Hearing(s.frames + [Frame(e.op, e.fin, got)], Idle, sane)
    else Hearing(s.frames, Under(e.op, e.fin, got, e.remaining), sane)
  }

  function Heard(log: seq<Event>): Hearing {
    if log == [] then Hearing([], Idle, true) else Hear(Heard(log[..|log| - 1]), log[|log| - 1])
  }

  lemma HeardMore(log: seq<Event>, e: Event)
    ensures Heard(log + [e]) == Hear(Heard(log), e)
  {
    assert (log + [e])[..|log|] == log;
  }

  // ---- unmasking in place ----

  /** `B` with the bytes at `dst` replaced by the unmasked ones from `src`. */
  ghost function Unmasked(B: seq<Byte>, dst: nat, src: nat, m: Mask, n: nat): seq<Byte>
    requires dst + n <= |B| && src + n <= |B|
  {
    B[..dst] + Masked(B[src..src + n], m) + B[dst + n..]
  }

  /** Four bytes, one after the other. */
  method UnmaskGroup(buf: array<Byte>, dst: nat, src: nat, m: Mask)
    requires dst <= src && src + 4 <= buf.Length
    modifies buf
    ensures buf[..] == Unmasked(old(buf[..]), dst, src, m, 4)
  {
    buf[dst] := Xor(buf[src], m[0]);
    buf[dst + 1] := Xor(buf[src + 1], m[1]);
    buf[dst + 2] := Xor(buf[src + 2], m[2]);
    buf[dst + 3] := Xor(buf[src + 3], m[3]);
    hide Unmasked, Masked, Xor;
    GroupIs(old(buf[..]), buf[..], dst, src, m);
  }

  lemma GroupIs(B: seq<Byte>, C: seq<Byte>, dst: nat, src: nat, m: Mask)
    requires dst <= src && src + 4 <= |B| == |C|
    requires C[dst] == Xor(B[src], m[0]) && C[dst + 1] == Xor(B[src + 1], m[1]) && C[dst + 2] == Xor(B[src + 2], m[2]) && C[dst + 3] == Xor(B[src + 3], m[3])
    requires forall i | 0 <= i < |B| && !(dst <= i < dst + 4) :: C[i] == B[i]
    ensures C == Unmasked(B, dst, src, m, 4)
  {
    hide Xor, Masked;
    var g := B[src..src + 4];
    MaskedFour(g, m);
    var four := [C[dst], C[dst + 1], C[dst + 2], C[dst + 3]];
    assert four == Masked(g, m);
    assert C == C[..dst] + four + C[dst + 4..];
    assert C[..dst] == B[..dst];
    assert C[dst + 4..] == B[dst + 4..];
  }

  lemma MaskedFour(g: seq<Byte>, m: Mask)
    requires |g| == 4
    ensures Masked(g, m) == [Xor(g[0], m[0]), Xor(g[1], m[1]), Xor(g[2], m[2]), Xor(g[3], m[3])]
  {
    hide Xor;
  }

  /** Groups add up. */
  lemma UnmaskedMore(B: seq<Byte>, dst: nat, src: nat, m: Mask, n: nat)
    requires dst <= src && src + n + 4 <= |B| && n % 4 == 0
    ensures Unmasked(Unmasked(B, dst, src, m, n), dst + n, src + n, m, 4) == Unmasked(B, dst, src, m, n + 4)
  {
    hide Masked;
    var C := Unmasked(B, dst, src, m, n);
    assert C[src + n..src + n + 4] == B[src + n..src + n + 4];
    assert B[src..src + n + 4] == B[src..src + n] + B[src + n..src + n + 4];
    MaskedSplit(B[src..src + n], B[src + n..src + n + 4], m);
    assert Rotated(m, 0) == m;
  }

  lemma UnmaskedNone(B: seq<Byte>, dst: nat, src: nat, m: Mask)
    requires dst <= |B| && src <= |B|
    ensures Unmasked(B, dst, src, m, 0) == B
  {
  }

  /** The loop of `unmaskImprecise`; `dst` may overlap `src` from below. */
  method UnmaskGroups(buf: array<Byte>, dst0: nat, src0: nat, m: Mask, groups: nat)
    requires dst0 <= src0 && src0 + 4 * groups <= buf.Length
    modifies buf
    ensures buf[..] == Unmasked(old(buf[..]), dst0, src0, m, 4 * groups)
  {
    var dst, src, n := dst0, src0, groups;
    hide Unmasked;
    ghost var B := buf[..];
    UnmaskedNone(B, dst0, src0, m);
    while n != 0
      invariant 0 <= n <= groups && src == src0 + 4 * (groups - n) && dst == dst0 + 4 * (groups - n)
      invariant buf[..] == Unmasked(B, dst0, src0, m, 4 * (groups - n))
      decreases n
    {
      UnmaskedMore(B, dst0, src0, m, 4 * (groups - n));
      UnmaskGroup(buf, dst, src, m);
      dst, src, n := dst + 4, src + 4, n - 1;
    }
  }

  /** `unmaskImprecise`: whole groups of four, at least one. */
  method UnmaskImprecise(buf: array<Byte>, dst: nat, src: nat, m: Mask, length: nat)
    requires dst <= src && src + 4 * (length / 4 + 1) <= buf.Length
    modifies buf
    ensures buf[..] == Unmasked(old(buf[..]), dst, src, m, 4 * (length / 4 + 1))
  {
    UnmaskGroups(buf, dst, src, m, length / 4 + 1);
  }

  /** `unmaskInplace`, up to `stop` or as far beyond it as the last group goes. */
  method UnmaskInplace(buf: array<Byte>, data0: nat, stop: nat, m: Mask)
    requires data0 <= stop && (stop - data0) % 4 == 0 && stop <= buf.Length
    modifies buf
    ensures buf[..] == Unmasked(old(buf[..]), data0, data0, m, stop - data0)
  {
    var data := data0;
    hide Unmasked;
    ghost var B := buf[..];
    UnmaskedNone(B, data0, data0, m);
    while data < stop
      invariant data0 <= data <= stop && (data - data0) % 4 == 0
      invariant buf[..] == Unmasked(B, data0, data0, m, data - data0)
    {
      UnmaskedMore(B, data0, data0, m, data - data0);
      UnmaskGroup(buf, data, data, m);
      data := data + 4;
    }
  }

  /** `rotateMask`. */
  method RotateMask(offset: nat, mask: array<Byte>)
    requires mask.Length == 4 && offset <= 4
    modifies mask
    ensures mask[..] == Rotated(old(mask[..]), 4 - offset)
  {
    var original := mask[..];
    mask[(0 + offset) % 4] := original[0];
    mask[(1 + offset) % 4] := original[1];
    mask[(2 + offset) % 4] := original[2];
    mask[(3 + offset) % 4] := original[3];
    RotationBack(original, mask[..], offset);
  }

  lemma RotationBack(m: Mask, r: Mask, offset: nat)
    requires offset <= 4
    requires r[offset % 4] == m[0] && r[(1 + offset) % 4] == m[1] && r[(2 + offset) % 4] == m[2] && r[(3 + offset) % 4] == m[3]
    ensures r == Rotated(m, 4 - offset)
  {
    if offset == 0 {} else if offset == 1 {} else if offset == 2 {} else if offset == 3 {} else {}
  }

  /** What the unmasked buffer holds where it was written, and elsewhere. */
  lemma UnmaskedParts(B: seq<Byte>, C: seq<Byte>, dst: nat, src: nat, m: Mask, size: nat, n: nat)
    requires dst + size <= |B| && src + size <= |B| && n <= size && C == Unmasked(B, dst, src, m, size)
    ensures C[dst..dst + n] == Masked(B[src..src + n], m)
    ensures C[..dst] == B[..dst] && C[dst + size..] == B[dst + size..]
  {
    assert C[dst..dst + size] == Masked(B[src..src + size], m);
    assert B[src..src + size] == B[src..src + n] + B[src + n..src + size];
    MaskedSplit(B[src..src + n], B[src + n..src + size], m);
    assert C[dst..dst + n] == C[dst..dst + size][..n];
  }

  lemma SubSlice(B: seq<Byte>, src: nat, length: nat, i: nat, j: nat)
    requires i <= j <= length && src + length <= |B|
    ensures B[src..src + length][i..j] == B[src + i..src + j]
  {
    var A := B[src..src + length];
    forall k | 0 <= k < j - i ensures A[i..j][k] == B[src + i..src + j][k] {}
  }

  lemma RotatedNone(k: nat)
    ensures Rotated(NoMask, k) == NoMask
  {
  }

  /** The over-long unmasking of a whole message stays inside the message. */
  lemma WholeKept(B: seq<Byte>, C: seq<Byte>, src: nat, h: nat, n: nat)
    requires 6 <= h && src + h + n <= |B| == |C|
    requires C[..src + h - 4] == B[..src + h - 4]
    requires var stop := src + h - 4 + 4 * (n / 4 + 1); stop <= |B| && C[stop..] == B[stop..]
    ensures C[src] == B[src] && C[src + h + n..] == B[src + h + n..]
  {
    var stop := src + h - 4 + 4 * (n / 4 + 1);
    assert stop <= src + h + n;
    assert C[src + h + n..] == C[stop..][src + h + n - stop..];
    assert B[src + h + n..] == B[stop..][src + h + n - stop..];
    assert C[src] == C[..src + h - 4][src];
  }

  lemma DecodeRefused(cfg: Config, c: Conn, b: seq<Byte>)
    requires HeaderComplete(cfg.server, b) && !Refused(b[0], b[1]) && Opened(cfg, c, b).None?
    ensures Decode(cfg, c, b) == Seen([], c, Closed)
    ensures forall fs :: Before(fs, Decode(cfg, c, b)) == Seen(fs, c, Closed)
  {
    forall fs: seq<Frame> ensures fs + [] == fs {}
  }

  lemma RotatedZero(m: Mask)
    ensures Rotated(m, 0) == m
  {
  }

  lemma ModFour(n: nat, i: nat)
    requires i < 4
    ensures (n * 4 + i) % 4 == i
  {
  }

  lemma KeyAt(m: Mask, n: nat, i: nat)
    requires i < 4
    ensures Key(m, n * 4 + i) == m[i]
  {
    ModFour(n, i);
  }

  /** One more byte. */
  lemma UnmaskedByte(B: seq<Byte>, C: seq<Byte>, src: nat, m: Mask, n: nat, i: nat)
    requires i < 4 && src + n * 4 + i < |B| && C == Unmasked(B, src, src, m, n * 4 + i)
    ensures |C| == |B| && C[src + n * 4 + i := Xor(C[src + n * 4 + i], m[i])] == Unmasked(B, src, src, m, n * 4 + i + 1)
  {
    hide Xor, Key;
    var k := n * 4 + i;
    KeyAt(m, n, i);
    assert C[src + k] == B[src + k];
    assert B[src..src + k + 1] == B[src..src + k] + [B[src + k]];
    assert Masked(B[src..src + k + 1], m) == Masked(B[src..src + k], m) + [Xor(B[src + k], Key(m, k))];
  }

  lemma BeforeNone(fs: seq<Frame>, c: Conn, t: Tail)
    ensures Before(fs, Seen([], c, t)) == Seen(fs, c, t)
  {
    assert fs + [] == fs;
  }

  lemma StopRefused(cfg: Config, c: Conn, b: seq<Byte>, fs: seq<Frame>)
    requires |b| >= Short(cfg.server) && Refused(b[0], b[1])
    ensures Before(fs, Decode(cfg, c, b)) == Seen(fs, c, Closed)
  {
    hide Refused;
    assert fs + [] == fs;
  }

  lemma StopHead(cfg: Config, c: Conn, b: seq<Byte>, fs: seq<Frame>)
    requires |b| >= Short(cfg.server) ==> !Refused(b[0], b[1]) && !HeaderComplete(cfg.server, b)
    ensures Before(fs, Decode(cfg, c, b)) == Seen(fs, c, Head(b))
  {
    hide Refused;
    assert fs + [] == fs;
  }

  lemma ContinueBodyIs(cfg: Config, s: Seen, d: seq<Byte>)
    requires s.tail.Body?
    ensures Continue(cfg, s, d) ==
      if s.tail.remaining <= |d| then
        Before(s.frames + [Frame(Top(s.conn), s.conn.lastFin, s.tail.got + Masked(d[..s.tail.remaining], s.tail.mask))],
               Decode(cfg, Leave(s.conn), d[s.tail.remaining..]))
      else s.(tail := Body(s.tail.got + Masked(d, s.tail.mask), s.tail.remaining - |d|, Rotated(s.tail.mask, |d| % 4)))
  {
  }

  lemma ContinueHeadIs(cfg: Config, s: Seen, d: seq<Byte>)
    requires s.tail.Head?
    ensures Continue(cfg, s, d) == Before(s.frames, Decode(cfg, s.conn, s.tail.bytes + d))
  {
  }

  lemma BeforeTwice(fs: seq<Frame>, gs: seq<Frame>, s: Seen)
    ensures Before(fs, Before(gs, s)) == Before(fs + gs, s)
  {
    assert (fs + gs) + s.frames == fs + (gs + s.frames);
  }

  lemma TailSlice(B: seq<Byte>, C: seq<Byte>, src: nat, length: nat, k: nat, b: seq<Byte>)
    requires src + length <= |B| == |C| && k <= length && B[src..src + length] == b
    requires C[src + k..] == B[src + k..]
    ensures C[src + k..src + length] == b[k..]
  {
    assert C[src + k..src + length] == C[src + k..][..length - k];
    assert B[src + k..src + length] == B[src + k..][..length - k];
    SubSlice(B, src, length, k, length);
    assert b[k..length] == b[k..];
  }

  // ---- the parser ----

  const LIMIT := 0x1_0000_0000

  class WebSocketProtocol {
    const cfg: Config
    var wantsHead: bool
    var spillLength: nat
    var opStack: int
    var lastFin: bool
    const spill: array<Byte>
    const opCode: array<Byte>
    var remainingBytes: nat
    const mask: array<Byte>
    /** After `forceClose` nothing more is consumed. */
    var closed: bool
    /** The calls of `handleFragment` so far. */
    var log: seq<Event>
    /** The bytes consumed so far. */
    ghost var received: seq<Byte>

    ghost predicate Shape()
      reads this, opCode
    {
      && spill.Length == Long(cfg.server) - 1 && opCode.Length == 2 && mask.Length == 4
      && spill != opCode && spill != mask && opCode != mask
      && -1 <= opStack <= 1 && spillLength <= spill.Length && cfg.max < LIMIT
    }

    ghost function Connection(): Conn
      requires Shape()
      reads this, opCode
    {
      Conn(opCode[..opStack + 1], lastFin)
    }

    /** The parser stands where `s` ends. */
    ghost predicate At(s: Seen)
      reads this, opCode, spill, mask
    {
      && Shape() && Heard(log).sane && Heard(log).frames == s.frames && closed == s.tail.Closed?
      && (!closed ==> s.conn == Connection())
      && (closed || wantsHead ==> Heard(log).open == Idle)
      && (!closed && wantsHead ==> s.tail == Head(spill[..spillLength]))
      && (!closed && !wantsHead ==>
            && spillLength == 0 && opStack >= 0 && 0 < remainingBytes <= cfg.max
            && s.tail.Body? && s.tail.remaining == remainingBytes
            && Heard(log).open == Under(Top(s.conn), lastFin, s.tail.got, remainingBytes)
            && (if cfg.server then mask[..] == s.tail.mask else s.tail.mask == NoMask))
    }

    /** State, opcodes, fin bits, payloads and the decision to close are those of
        one pass over everything received. */
    ghost predicate Valid()
      reads this, opCode, spill, mask
    {
      At(Decode(cfg, Fresh, received))
    }

    constructor (cfg: Config)
      requires cfg.max < LIMIT
      ensures this.cfg == cfg && Valid() && received == [] && log == [] && !closed
      ensures fresh(spill) && fresh(opCode) && fresh(mask)
    {
      this.cfg := cfg;
      wantsHead, spillLength, opStack, lastFin := true, 0, -1, true;
      spill := new Byte[Long(cfg.server) - 1];
      opCode := new Byte[2];
      mask := new Byte[4];
      remainingBytes, closed, log, received := 0, false, [], [];
    }

    method ForceClose()
      modifies this`closed
      ensures closed
    {
      closed := true;
    }

    method HandleFragment(buf: array<Byte>, data: nat, length: nat, remaining: nat, op: Byte, fin: bool)
      requires data + length <= buf.Length
      modifies this`log
      ensures Heard(log) == Hear(Heard(old(log)), Event(op, fin, buf[data..data + length], remaining))
    {
      HeardMore(log, Event(op, fin, buf[data..data + length], remaining));
      log := log + [Event(op, fin, buf[data..data + length], remaining)];
    }

    /** Between two frames: the bytes from `b` on are still to be decoded. */
    ghost predicate Pending(fs: seq<Frame>)
      reads this, opCode
    {
      Shape() && !closed && wantsHead && Heard(log) == Hearing(fs, Idle, true)
    }

    /** The opcode checks of `consumeMessage`. */
    method EnterMessage(b0: Byte) returns (ok: bool)
      requires Shape() && !closed
      modifies this`opStack, this`lastFin, this`closed, opCode
      ensures Shape() && ok == Enter(old(Connection()), b0).Some? == !closed
      ensures ok ==> Connection() == Enter(old(Connection()), b0).value && opStack >= 0
    {
      if OpCode(b0) != 0 {
        if opStack == 1 || (!lastFin && OpCode(b0) < 2) {
          ForceClose();
          return false;
        }
        opStack := opStack + 1;
        opCode[opStack] := OpCode(b0);
        assert opCode[..opStack + 1] == old(opCode[..opStack + 1]) + [OpCode(b0)];
      } else if opStack == -1 {
        ForceClose();
        return false;
      }
      lastFin := IsFin(b0);
      return true;
    }

    /** The buffer is none of the parser's own arrays. */
    ghost predicate Apart(buf: array<Byte>) {
      buf != spill && buf != opCode && buf != mask
    }

    /** The unmasking of a whole message, down over its own mask. */
    method UnmaskWhole(h: nat, n: nat, buf: array<Byte>, src: nat)
      requires 6 <= h && src + h + n + 4 <= buf.Length
      modifies buf
      ensures var m := old(buf[src + h - 4..src + h]); buf[src + h - 4..src + h - 4 + n] == Masked(old(buf[src + h..src + h + n]), m)
      ensures buf[src] == old(buf[src]) && buf[src + h + n..] == old(buf[src + h + n..])
    {
      hide Unmasked, Masked;
      ghost var B := buf[..];
      var maskPtr: Mask := [buf[src + h - 4], buf[src + h - 3], buf[src + h - 2], buf[src + h - 1]];
      assert maskPtr == B[src + h - 4..src + h];
      UnmaskImprecise(buf, src + h - 4, src + h, maskPtr, n);
      UnmaskedParts(B, buf[..], src + h - 4, src + h, maskPtr, 4 * (n / 4 + 1), n);
      WholeKept(B, buf[..], src, h, n);
    }

    /** The frame at `src`: `b` are the bytes received and not yet decoded. */
    ghost predicate FrameIn(buf: array<Byte>, src: nat, b: seq<Byte>, h: nat, m: Mask, c1: Conn, fs: seq<Frame>)
      reads this, opCode, buf
    {
      && Pending(fs) && opStack >= 0 && c1 == Connection() && Apart(buf)
      && src + |b| + 4 <= buf.Length && buf[src..src + |b|] == b
      && (if cfg.server then 6 else 2) <= h <= |b| && m == MaskOf(cfg.server, b, h) && lastFin == IsFin(b[0])
    }

    /** The payload, unmasked, begins at `data`; what follows it is untouched. */
    method WholePayload(h: nat, n: nat, buf: array<Byte>, src: nat, ghost b: seq<Byte>, ghost m: Mask) returns (data: nat)
      requires src + |b| + 4 <= buf.Length && buf[src..src + |b|] == b
      requires (if cfg.server then 6 else 2) <= h && h + n <= |b| && m == MaskOf(cfg.server, b, h)
      modifies buf
      ensures data + n <= buf.Length && buf[data..data + n] == Masked(b[h..h + n], m)
      ensures buf[src] == b[0] && buf[src + h + n..] == old(buf[src + h + n..])
    {
      hide Masked;
      ghost var B := buf[..];
      assert buf[src] == b[0];
      SubSlice(B, src, |b|, h, h + n);
      if cfg.server {
        SubSlice(B, src, |b|, h - 4, h);
        UnmaskWhole(h, n, buf, src);
        data := src + h - 4;
      } else {
        MaskedByNone(b[h..h + n]);
        data := src + h;
      }
    }

    /** `consumeMessage` when the whole payload is in the buffer. */
    method WholeMessage(h: nat, n: nat, buf: array<Byte>, src: nat, ghost b: seq<Byte>, ghost m: Mask, ghost c1: Conn, ghost fs: seq<Frame>)
      requires FrameIn(buf, src, b, h, m, c1, fs) && h + n <= |b|
      modifies this`log, this`opStack, this`spillLength, buf
      ensures Pending(fs + FrameSeen(c1, b[h..h + n], m)) && Connection() == Leave(c1) && spillLength == 0
      ensures buf[src + h + n..] == old(buf[src + h + n..])
    {
      hide Masked, Heard, IsFin, MaskOf;
      var data := WholePayload(h, n, buf, src, b, m);
      Deliver(buf, data, n, 0, IsFin(buf[src]), Masked(b[h..h + n], m), c1);
      if IsFin(buf[src]) { opStack := opStack - 1; }
      spillLength := 0;
    }

    /** A fragment of the innermost message is handed over. */
    method Deliver(buf: array<Byte>, data: nat, length: nat, remaining: nat, fin: bool, ghost bytes: seq<Byte>, ghost c: Conn)
      requires data + length <= buf.Length && Shape() && opStack >= 0 && buf[data..data + length] == bytes
      requires c == Connection()
      modifies this`log
      ensures Heard(log) == Hear(Heard(old(log)), Event(Top(c), fin, bytes, remaining))
    {
      assert opCode[opStack] == Top(c);
      HandleFragment(buf, data, length, remaining, opCode[opStack], fin);
    }

    /** The unmasking of the part of a message that is there, down over its
        header, and the mask as the next byte needs it. */
    method UnmaskPart(h: nat, k: nat, buf: array<Byte>, src: nat)
      requires 6 <= h && src + h + k + 4 <= buf.Length && buf != mask && mask.Length == 4
      modifies buf, mask
      ensures var m := old(buf[src + h - 4..src + h]);
        buf[src..src + k] == Masked(old(buf[src + h..src + h + k]), m) && mask[..] == Rotated(m, k % 4)
    {
      hide Unmasked, Masked, Rotated;
      ghost var B := buf[..];
      mask[0], mask[1], mask[2], mask[3] := buf[src + h - 4], buf[src + h - 3], buf[src + h - 2], buf[src + h - 1];
      assert mask[..] == B[src + h - 4..src + h];
      UnmaskImprecise(buf, src, src + h, mask[..], k);
      UnmaskedParts(B, buf[..], src, src + h, mask[..], 4 * (k / 4 + 1), k);
      RotateMask(4 - k % 4, mask);
    }

    /** The payload bytes that are there, unmasked, begin at `data`. */
    method PartPayload(h: nat, buf: array<Byte>, src: nat, length: nat, ghost b: seq<Byte>, ghost m: Mask) returns (data: nat)
      requires Apart(buf) && mask.Length == 4 && length == |b| && src + length + 4 <= buf.Length && buf[src..src + length] == b
      requires (if cfg.server then 6 else 2) <= h <= length && m == MaskOf(cfg.server, b, h)
      modifies buf, mask
      ensures data + (length - h) <= buf.Length && buf[data..data + (length - h)] == Masked(b[h..], m)
      ensures if cfg.server then mask[..] == Rotated(m, (length - h) % 4) else Rotated(m, (length - h) % 4) == NoMask
    {
      hide Masked, Rotated;
      ghost var B := buf[..];
      SubSlice(B, src, length, h, length);
      assert b[h..length] == b[h..];
      if cfg.server {
        SubSlice(B, src, length, h - 4, h);
        UnmaskPart(h, length - h, buf, src);
        data := src;
      } else {
        MaskedByNone(b[h..]);
        RotatedNone((length - h) % 4);
        data := src + h;
      }
    }

    /** `consumeMessage` when only part of the payload is there yet. */
    method PartMessage(h: nat, n: nat, buf: array<Byte>, src: nat, length: nat, ghost b: seq<Byte>, ghost m: Mask, ghost c1: Conn, ghost fs: seq<Frame>)
      requires FrameIn(buf, src, b, h, m, c1, fs) && length == |b| < h + n && n <= cfg.max
      modifies this`log, this`wantsHead, this`remainingBytes, this`spillLength, buf, mask
      ensures At(Seen(fs, c1, Body(Masked(b[h..], m), n - (length - h), Rotated(m, (length - h) % 4))))
    {
      hide Masked, Rotated, Heard, IsFin, MaskOf;
      spillLength := 0;
      wantsHead := false;
      remainingBytes := n - length + h;
      assert buf[src] == b[0];
      var fin := IsFin(buf[src]);
      var data := PartPayload(h, buf, src, length, b, m);
      Deliver(buf, data, length - h, remainingBytes, fin, Masked(b[h..], m), c1);
    }

    /** Frames remain to be decoded from `b` on, as one pass would. */
    ghost predicate Rest(goal: Seen, fs: seq<Frame>, b: seq<Byte>)
      reads this, opCode
    {
      Pending(fs) && goal == Before(fs, Decode(cfg, Connection(), b))
    }

    /** The checks at the beginning of `consumeMessage`. */
    method CheckMessage(h: nat, n: nat, buf: array<Byte>, src: nat, ghost b: seq<Byte>, ghost fs: seq<Frame>, ghost goal: Seen)
      returns (ok: bool, ghost c1: Conn, ghost m: Mask)
      requires Rest(goal, fs, b) && Apart(buf) && src + |b| + 4 <= buf.Length && buf[src..src + |b|] == b
      requires HeaderComplete(cfg.server, b) && !Refused(b[0], b[1])
      requires h == HeaderLength(cfg.server, b[1]) && n == PayloadLength(b)
      modifies this`opStack, this`lastFin, this`closed, opCode
      ensures !ok ==> At(goal)
      ensures ok ==> FrameIn(buf, src, b, h, m, c1, fs) && FrameAt(cfg, old(Connection()), b, c1, h, n, m) && n <= cfg.max
    {
      ghost var c := Connection();
      m := MaskOf(cfg.server, b, h);
      assert buf[src] == b[0];
      ok := EnterMessage(buf[src]);
      c1 := c;
      if ok {
        c1 := Connection();
        if n > cfg.max {
          ForceClose();
          ok := false;
        }
      }
      hide Decode, Heard, Enter, PayloadLength, Number;
      if !ok { DecodeRefused(cfg, c, b) by { assert Opened(cfg, c, b).None?; } }
    }

    /** `consumeMessage`: one frame whose header is complete. */
    method ConsumeMessage(h: nat, n: nat, buf: array<Byte>, src0: nat, length0: nat, ghost b: seq<Byte>, ghost fs: seq<Frame>, ghost goal: Seen)
      returns (stop: bool, src: nat, length: nat, ghost fs1: seq<Frame>)
      requires Rest(goal, fs, b) && Apart(buf)
      requires src0 + length0 + 4 <= buf.Length && buf[src0..src0 + length0] == b
      requires HeaderComplete(cfg.server, b) && !Refused(b[0], b[1])
      requires h == HeaderLength(cfg.server, b[1]) && n == PayloadLength(b)
      modifies this`opStack, this`lastFin, this`closed, this`log, this`wantsHead, this`remainingBytes, this`spillLength, opCode, mask, buf
      ensures stop ==> At(goal)
      ensures !stop ==> h + n <= |b| && Rest(goal, fs1, b[h + n..]) && spillLength == 0
      ensures !stop ==> length < length0 && src + length == src0 + length0 && src + length <= buf.Length && buf[src..src + length] == b[h + n..]
    {
      hide Refused, Opened, Enter, PayloadLength, HeaderLength, HeaderComplete, Decode, Masked, Rotated, Heard, Number, MaskOf;
      hide FrameAt, Before, FrameSeen, At;
      ghost var c, c1, m := Connection(), Connection(), NoMask;
      fs1, src, length := fs, src0, length0;
      var ok;
      ok, c1, m := CheckMessage(h, n, buf, src, b, fs, goal);
      if !ok { return true, src, length, fs; }
      assert |b| == length0 && 2 <= h <= |b|;
      DecodeFrame(cfg, c, b, c1, h, n, m);
      if n + h <= length {
        ghost var B := buf[..];
        WholeMessage(h, n, buf, src, b, m, c1, fs);
        fs1 := fs + FrameSeen(c1, b[h..h + n], m);
        BeforeTwice(fs, FrameSeen(c1, b[h..h + n], m), Decode(cfg, Leave(c1), b[h + n..]));
        stop, src, length := false, src + n + h, length - (n + h);
        TailSlice(B, buf[..], src0, length0, h + n, b);
      } else {
        PartMessage(h, n, buf, src, length, b, m, c1, fs);
        BeforeNone(fs, c1, Body(Masked(b[h..], m), n - (length - h), Rotated(m, (length - h) % 4)));
        stop := true;
      }
    }

    // ---- the rest of a payload ----

    /** The last bytes of a payload: groups of four, then up to three more. */
    method UnmaskRest(buf: array<Byte>, src: nat, count: nat)
      requires src + count <= buf.Length && buf != mask && mask.Length == 4
      modifies buf
      ensures buf[..] == Unmasked(old(buf[..]), src, src, mask[..], count)
    {
      hide Unmasked, Masked, Xor;
      ghost var B := buf[..];
      var n := count / 4;
      UnmaskInplace(buf, src, src + n * 4, mask[..]);
      var i, s := 0, count % 4;
      while i < s
        invariant 0 <= i <= s && buf[..] == Unmasked(B, src, src, mask[..], n * 4 + i)
      {
        UnmaskedByte(B, buf[..], src, mask[..], n, i);
        buf[src + n * 4 + i] := Xor(buf[src + n * 4 + i], mask[i]);
        i := i + 1;
      }
    }

    /** Inside a frame: `s` has been seen and `b` has arrived. */
    ghost predicate Inside(buf: array<Byte>, src: nat, length: nat, s: Seen, b: seq<Byte>)
      reads this, opCode, spill, mask, buf
    {
      && At(s) && !closed && !wantsHead && Apart(buf)
      && src + length + 4 <= buf.Length && buf[src..src + length] == b
    }

    /** `consumeContinuation` when the payload ends in the buffer. */
    method FinishPayload(buf: array<Byte>, src: nat, length: nat, ghost s: Seen, ghost b: seq<Byte>) returns (ghost fs: seq<Frame>)
      requires Inside(buf, src, length, s, b) && remainingBytes <= length
      modifies this`log, this`opStack, this`wantsHead, buf
      ensures fs == s.frames + [Frame(Top(s.conn), s.conn.lastFin, s.tail.got + Masked(b[..remainingBytes], s.tail.mask))]
      ensures Pending(fs) && Connection() == Leave(s.conn) && spillLength == 0
      ensures buf[src + remainingBytes..src + length] == b[remainingBytes..]
    {
      hide Masked, Heard, Unmasked;
      ghost var B, data := buf[..], Masked(b[..remainingBytes], s.tail.mask);
      fs := s.frames + [Frame(Top(s.conn), s.conn.lastFin, s.tail.got + data)];
      SubSlice(B, src, length, 0, remainingBytes);
      if cfg.server {
        UnmaskRest(buf, src, remainingBytes);
        UnmaskedParts(B, buf[..], src, src, s.tail.mask, remainingBytes, remainingBytes);
      } else {
        MaskedByNone(b[..remainingBytes]);
      }
      TailSlice(B, buf[..], src, length, remainingBytes, b);
      Deliver(buf, src, remainingBytes, 0, lastFin, data, s.conn);
      if lastFin { opStack := opStack - 1; }
      wantsHead := true;
    }

    /** `consumeContinuation` when there is more payload to come. */
    method MorePayload(buf: array<Byte>, src: nat, length: nat, ghost s: Seen, ghost b: seq<Byte>)
      requires Inside(buf, src, length, s, b) && length < remainingBytes
      modifies this`log, this`remainingBytes, buf, mask
      ensures At(s.(tail := Body(s.tail.got + Masked(b, s.tail.mask), s.tail.remaining - length, Rotated(s.tail.mask, length % 4))))
    {
      hide Masked, Heard, Unmasked, Rotated;
      ghost var B, m, data := buf[..], s.tail.mask, Masked(b, s.tail.mask);
      if cfg.server {
        UnmaskInplace(buf, src, src + (length / 4 + 1) * 4, mask[..]);
        UnmaskedParts(B, buf[..], src, src, m, (length / 4 + 1) * 4, length);
      } else {
        MaskedByNone(b);
        RotatedNone(length % 4);
      }
      remainingBytes := remainingBytes - length;
      Deliver(buf, src, length, remainingBytes, lastFin, data, s.conn);
      if cfg.server {
        RotatedZero(m);
        if length % 4 != 0 { RotateMask(4 - length % 4, mask); }
      }
    }

    // ---- consume ----

    /** `parseNext`: frame after frame, until the header is incomplete or the
        payload is, or the connection is closed. */
    method ParseNext(buf: array<Byte>, src0: nat, length0: nat, ghost b0: seq<Byte>, ghost fs0: seq<Frame>, ghost goal: Seen)
      requires Rest(goal, fs0, b0) && Apart(buf) && (length0 == 0 ==> spillLength == 0)
      requires src0 + length0 + 4 <= buf.Length && buf[src0..src0 + length0] == b0
      modifies this`opStack, this`lastFin, this`closed, this`log, this`wantsHead, this`remainingBytes, this`spillLength, opCode, mask, spill, buf
      ensures At(goal)
    {
      hide Decode, Heard, PayloadLength, Number, Enter, Opened, Masked;
      var src, length := src0, length0;
      ghost var b, fs := b0, fs0;
      while length >= Short(cfg.server)
        invariant 0 <= src && 0 <= length && src + length == src0 + length0 && buf[src..src + length] == b
        invariant Rest(goal, fs, b) && (length == 0 ==> spillLength == 0)
        decreases length
      {
        assert buf[src] == b[0] && buf[src + 1] == b[1];
        if Refused(buf[src], buf[src + 1]) {
          ForceClose();
          StopRefused(cfg, Connection(), b, fs);
          return;
        }
        if length < HeaderLength(cfg.server, buf[src + 1]) {
          assert !HeaderComplete(cfg.server, b);
          break;
        }
        var n := PayloadLengthAt(buf, src, length, b);
        var stop;
        stop, src, length, fs := ConsumeMessage(HeaderLength(cfg.server, buf[src + 1]), n, buf, src, length, b, fs, goal);
        if stop { return; }
        b := buf[src..src + length];
      }
      StopHead(cfg, Connection(), b, fs);
      SaveSpill(buf, src, length);
    }

    /** What is left of a header is kept for the next call. */
    method SaveSpill(buf: array<Byte>, src: nat, length: nat)
      requires Shape() && buf != spill && src + length <= buf.Length && length <= spill.Length
      requires length == 0 ==> spillLength == 0
      modifies this`spillLength, spill
      ensures spillLength == length && spill[..length] == buf[src..src + length]
    {
      var i := 0;
      while i < length
        invariant 0 <= i <= length && spill[..i] == buf[src..src + i] && spillLength == old(spillLength)
      {
        spill[i] := buf[src + i];
        i := i + 1;
      }
      if length != 0 { spillLength := length; }
    }

    method PayloadLengthAt(buf: array<Byte>, src: nat, length: nat, ghost b: seq<Byte>) returns (n: nat)
      requires src + length <= buf.Length && buf[src..src + length] == b && HeaderComplete(cfg.server, b)
      ensures n == PayloadLength(b)
    {
      hide Number;
      assert buf[src + 1] == b[1];
      var short := Length7(buf[src + 1]);
      if short < 126 {
        n := short;
      } else if short == 126 {
        SubSlice(buf[..], src, length, 2, 4);
        n := Number(buf[src + 2..src + 4]);
      } else {
        SubSlice(buf[..], src, length, 2, 10);
        n := Number(buf[src + 2..src + 10]);
      }
    }

    /** `consumeContinuation`; `more` when frames may follow in the buffer. */
    method ConsumeContinuation(buf: array<Byte>, src0: nat, length0: nat, ghost s: Seen, ghost b: seq<Byte>)
      returns (more: bool, src: nat, length: nat, ghost fs: seq<Frame>)
      requires Inside(buf, src0, length0, s, b)
      modifies this`log, this`opStack, this`wantsHead, this`remainingBytes, buf, mask
      ensures !more ==> At(Continue(cfg, s, b))
      ensures more ==> src + length == src0 + length0 && length <= length0 && Apart(buf) && spillLength == 0
      ensures more ==> src + length + 4 <= buf.Length && Rest(Continue(cfg, s, b), fs, buf[src..src + length])
    {
      hide Continue, Decode, Masked, Rotated, Heard;
      ContinueBodyIs(cfg, s, b);
      src, length, fs := src0, length0, [];
      if remainingBytes <= length {
        ghost var rem := remainingBytes;
        fs := FinishPayload(buf, src, length, s, b);
        src, length := src + remainingBytes, length - remainingBytes;
        more := true;
      } else {
        MorePayload(buf, src, length, s, b);
        more := false;
      }
    }

    /** `consume`: after every call, whatever the cuts were, the parser is where
        one pass over all bytes received would be, and so are the fragments it
        has handed over. */
    method Consume(buf: array<Byte>, src0: nat, length0: nat)
      requires Valid() && !closed && Apart(buf)
      requires Long(cfg.server) - 1 <= src0 && src0 + length0 + 4 <= buf.Length
      modifies this, buf, spill, opCode, mask
      ensures Valid() && received == old(received) + old(buf[src0..src0 + length0])
    {
      hide Decode, Heard, Continue;
      ghost var chunk := buf[src0..src0 + length0];
      ghost var s := Decode(cfg, Fresh, received);
      DecodeAppend(cfg, Fresh, received, chunk);
      received := received + chunk;
      var src, length := RestoreSpill(buf, src0, length0, chunk);
      Dispatch(buf, src, length, s, chunk);
    }

    method Dispatch(buf: array<Byte>, src0: nat, length0: nat, ghost s: Seen, ghost chunk: seq<Byte>)
      requires At(s) && !closed && Apart(buf) && src0 + length0 + 4 <= buf.Length
      requires buf[src0..src0 + length0] == spill[..spillLength] + chunk
      modifies this`opStack, this`lastFin, this`closed, this`log, this`wantsHead, this`remainingBytes, this`spillLength, opCode, mask, spill, buf
      ensures At(Continue(cfg, s, chunk))
    {
      hide Decode, Heard, Continue;
      if wantsHead {
        ContinueHeadIs(cfg, s, chunk);
        ParseNext(buf, src0, length0, spill[..spillLength] + chunk, s.frames, Continue(cfg, s, chunk));
      } else {
        assert spill[..spillLength] + chunk == chunk;
        var more, src, length, fs := ConsumeContinuation(buf, src0, length0, s, chunk);
        if more { ParseNext(buf, src, length, buf[src..src + length], fs, Continue(cfg, s, chunk)); }
      }
    }

    /** The kept part of a header is put back in front of the new bytes. */
    method RestoreSpill(buf: array<Byte>, src0: nat, length0: nat, ghost chunk: seq<Byte>) returns (src: nat, length: nat)
      requires Shape() && Apart(buf) && spillLength <= src0 && src0 + length0 <= buf.Length && buf[src0..src0 + length0] == chunk
      modifies buf
      ensures src + spillLength == src0 && length == length0 + spillLength && buf[src..src + length] == spill[..spillLength] + chunk
    {
      src, length := src0, length0;
      if spillLength == 0 {
        assert spill[..spillLength] + chunk == chunk;
        return;
      }
      src, length := src0 - spillLength, length0 + spillLength;
      var i := 0;
      while i < spillLength
        invariant 0 <= i <= spillLength && buf[src..src + i] == spill[..i]
        invariant buf[src0..src0 + length0] == chunk
      {
        buf[src + i] := spill[i];
        i := i + 1;
      }
      assert buf[src..src + length] == buf[src..src0] + buf[src0..src0 + length0];
    }
  }

  /** Two parsers that have received the same bytes, in whatever pieces, are in
      the same state and have handed over the same frames. */
  lemma SameBytesSameState(p: WebSocketProtocol, q: WebSocketProtocol)
    requires p.Valid() && q.Valid() && p.cfg == q.cfg && p.received == q.received
    ensures p.closed == q.closed && Heard(p.log) == Heard(q.log)
    ensures !p.closed ==> p.wantsHead == q.wantsHead && p.Connection() == q.Connection()
    ensures !p.closed && p.wantsHead ==> p.spill[..p.spillLength] == q.spill[..q.spillLength]
    ensures !p.closed && !p.wantsHead ==> p.remainingBytes == q.remainingBytes && (p.cfg.server ==> p.mask[..] == q.mask[..])
  {
    hide Decode;
  }
}
