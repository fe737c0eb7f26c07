/** The frames of RFC 6455 sections 5.2 and 5.3, decoded in one pass over all
  the bytes received, with the decisions of `WebSocketProtocol.h`. */
module WsFrames {

  type Byte = bv8

  /** Which end receives, and the largest payload it accepts. */
  datatype Config = Config(server: bool, max: nat)

  function Short(server: bool): nat { if server then 6 else 2 }
  function Medium(server: bool): nat { if server then 8 else 4 }
  function Long(server: bool): nat { if server then 14 else 10 }

  function IsFin(b: Byte): bool { b & 128 != 0 }
  function OpCode(b: Byte): Byte { b & 15 }
  function Rsv1(b: Byte): bool { b & 64 != 0 }
  function Rsv23(b: Byte): bool { b & 48 != 0 }
  function Length7(b: Byte): nat { (b & 127) as nat }

  /** Reserved bits, unknown opcodes, and control frames that are fragmented or
      too long. */
  predicate Refused(b0: Byte, b1: Byte) {
    || Rsv1(b0) || Rsv23(b0) || (OpCode(b0) > 2 && OpCode(b0) < 8) || OpCode(b0) > 10
    || (OpCode(b0) > 2 && (!IsFin(b0) || Length7(b1) > 125))
  }

  function HeaderLength(server: bool, b1: Byte): nat {
    if Length7(b1) < 126 then Short(server) else if Length7(b1) == 126 then Medium(server) else Long(server)
  }

  /** Big-endian number. */
  function Number(b: seq<Byte>): nat {
    if b == [] then 0 else 256 * Number(b[..|b| - 1]) + b[|b| - 1] as nat
  }

  function PayloadLength(b: seq<Byte>): nat
    requires |b| >= 2
    requires Length7(b[1]) == 126 ==> |b| >= 4
    requires Length7(b[1]) == 127 ==> |b| >= 10
  {
    if Length7(b[1]) < 126 then Length7(b[1])
    else if Length7(b[1]) == 126 then Number(b[2..4])
    else Number(b[2..10])
  }

  // ---- masking ----

  type Mask = m: seq<Byte> | |m| == 4 witness [0, 0, 0, 0]

  const NoMask: Mask := [0, 0, 0, 0]

  function MaskOf(server: bool, b: seq<Byte>, h: nat): Mask
    requires 4 <= h <= |b| || !server
  {
    if server then b[h - 4..h] else NoMask
  }

  function Xor(a: Byte, b: Byte): Byte { a ^ b }

  /** The mask byte for position `i`. */
  function Key(m: Mask, i: nat): Byte { m[i % 4] }

  function Masked(data: seq<Byte>, m: Mask): (r: seq<Byte>)
    ensures |r| == |data|
  {
    seq(|data|, i requires 0 <= i < |data| => Xor(data[i], Key(m, i)))
  }

  /** The mask as the byte after `k` more bytes sees it. */
  function Rotated(m: Mask, k: nat): Mask {
    seq(4, j requires 0 <= j < 4 => m[(j + k) % 4])
  }

  lemma MaskedSplit(a: seq<Byte>, b: seq<Byte>, m: Mask)
    ensures Masked(a + b, m) == Masked(a, m) + Masked(b, Rotated(m, |a| % 4))
  {
    var r := Rotated(m, |a| % 4);
    forall i | 0 <= i < |a| + |b| ensures Masked(a + b, m)[i] == (Masked(a, m) + Masked(b, r))[i] {
      if i >= |a| {
        var j := i - |a|;
        assert (j % 4 + |a| % 4) % 4 == i % 4;
      }
    }
  }

  lemma SumMod4(j: nat, k: nat)
    ensures (j + k) % 4 == (j % 4 + k % 4) % 4
  {
  }

  lemma SmallMod4(i: nat, j: nat, k: nat)
    requires i < 4 && j < 4 && k < 4
    ensures ((i + k) % 4 + j) % 4 == (i + (j + k) % 4) % 4
  {
  }

  lemma RotatedTwice(m: Mask, j: nat, k: nat)
    ensures Rotated(Rotated(m, j % 4), k % 4) == Rotated(m, (j + k) % 4)
  {
    SumMod4(j, k);
    forall i | 0 <= i < 4 ensures Rotated(Rotated(m, j % 4), k % 4)[i] == Rotated(m, (j + k) % 4)[i] {
      SmallMod4(i, j % 4, k % 4);
    }
  }

  /** Masking is its own inverse. */
  lemma MaskedTwice(data: seq<Byte>, m: Mask)
    ensures Masked(Masked(data, m), m) == data
  {
    forall i | 0 <= i < |data| ensures Masked(Masked(data, m), m)[i] == data[i] {
      var d, k := data[i], m[i % 4];
      assert (d ^ k) ^ k == d;
    }
  }

  lemma MaskedByNone(data: seq<Byte>)
    ensures Masked(data, NoMask) == data
  {
    forall i | 0 <= i < |data| ensures Masked(data, NoMask)[i] == data[i] {
      var d := data[i];
      assert d ^ 0 == d;
    }
  }

  // ---- the connection ----

  type Stack = s: seq<Byte> | |s| <= 2

  /** Opcodes of the messages under way, innermost last, and the fin bit of the
      latest frame. */
  datatype Conn = Conn(stack: Stack, lastFin: bool)

  const Fresh := Conn([], true)

  datatype Option<T> = None | Some(value: T)

  /** A frame is entered: a new message is pushed unless two are under way or a
      text message would start inside an unfinished one. */
  function Enter(c: Conn, b0: Byte): Option<Conn> {
    if OpCode(b0) != 0 then
      if |c.stack| == 2 || (!c.lastFin && OpCode(b0) < 2) then None
      else Some(Conn(c.stack + [OpCode(b0)], IsFin(b0)))
    else if c.stack == [] then None
    else Some(Conn(c.stack, IsFin(b0)))
  }

  /** A frame is complete; with fin set, so is its message. */
  function Leave(c: Conn): Conn {
    if c.lastFin && c.stack != [] then c.(stack := c.stack[..|c.stack| - 1]) else c
  }

  function Top(c: Conn): Byte {
    if c.stack == [] then 0 else c.stack[|c.stack| - 1]
  }

  datatype Frame = Frame(op: Byte, fin: bool, payload: seq<Byte>)

  /** What follows the last complete frame: part of a header, part of a
      payload, or nothing ever again. */
  datatype Tail =
    | Head(bytes: seq<Byte>)
    | Body(got: seq<Byte>, remaining: nat, mask: Mask)
    | Closed

  datatype Seen = Seen(frames: seq<Frame>, conn: Conn, tail: Tail)

  predicate HeaderComplete(server: bool, b: seq<Byte>) {
    |b| >= Short(server) && |b| >= HeaderLength(server, b[1])
  }

  /** The connection inside the frame that `b` begins with, unless the header
      makes the receiver close. */
  function Opened(cfg: Config, c: Conn, b: seq<Byte>): (r: Option<Conn>)
    requires HeaderComplete(cfg.server, b)
    ensures r.Some? ==> r.value.stack != []
  {
    match Enter(c, b[0])
    case None => None
    case Some(c1) => if PayloadLength(b) > cfg.max then None else Some(c1)
  }

  /** One pass over the bytes. */
  function Decode(cfg: Config, c: Conn, b: seq<Byte>): Seen
    decreases |b|
  {
    if |b| < Short(cfg.server) then Seen([], c, Head(b))
    else if Refused(b[0], b[1]) then Seen([], c, Closed)
    else if !HeaderComplete(cfg.server, b) then Seen([], c, Head(b))
    else
      match Opened(cfg, c, b)
      case None => Seen([], c, Closed)
      case Some(c1) =>
        var h := HeaderLength(cfg.server, b[1]);
        var n := PayloadLength(b);
        var m := MaskOf(cfg.server, b, h);
        if h + n <= |b| then
          var rest := Decode(cfg, Leave(c1), b[h + n..]);
          rest.(frames := [Frame(Top(c1), c1.lastFin, Masked(b[h..h + n], m))] + rest.frames)
        else
          Seen([], c1, Body(Masked(b[h..], m), n - (|b| - h), Rotated(m, (|b| - h) % 4)))
  }

  function Before(fs: seq<Frame>, s: Seen): Seen {
    s.(frames := fs + s.frames)
  }

  /** Going on from what has been seen. */
  function Continue(cfg: Config, s: Seen, chunk: seq<Byte>): Seen {
    match s.tail
    case Closed => s
    case Head(h) => Before(s.frames, Decode(cfg, s.conn, h + chunk))
    case Body(got, rem, m) =>
      if rem <= |chunk| then
        Before(s.frames + [Frame(Top(s.conn), s.conn.lastFin, got + Masked(chunk[..rem], m))],
               Decode(cfg, Leave(s.conn), chunk[rem..]))
      else s.(tail := Body(got + Masked(chunk, m), rem - |chunk|, Rotated(m, |chunk| % 4)))
  }

  /** The header of `b` is read the same whatever follows `b`. */
  lemma SameHeader(cfg: Config, c: Conn, b: seq<Byte>, d: seq<Byte>)
    requires HeaderComplete(cfg.server, b)
    ensures HeaderComplete(cfg.server, b + d) && Opened(cfg, c, b + d) == Opened(cfg, c, b)
    ensures PayloadLength(b + d) == PayloadLength(b)
    ensures var h := HeaderLength(cfg.server, b[1]); MaskOf(cfg.server, b + d, h) == MaskOf(cfg.server, b, h)
  {
    assert (b + d)[0] == b[0] && (b + d)[1] == b[1];
    if Length7(b[1]) == 126 { assert (b + d)[2..4] == b[2..4]; }
    if Length7(b[1]) == 127 { assert (b + d)[2..10] == b[2..10]; }
    var h := HeaderLength(cfg.server, b[1]);
    if cfg.server { assert (b + d)[h - 4..h] == b[h - 4..h]; }
  }

  /** A whole frame at the beginning of `b`. */
  predicate FrameAt(cfg: Config, c: Conn, b: seq<Byte>, c1: Conn, h: nat, n: nat, m: Mask) {
    && HeaderComplete(cfg.server, b) && !Refused(b[0], b[1]) && Opened(cfg, c, b) == Some(c1)
    && h == HeaderLength(cfg.server, b[1]) && n == PayloadLength(b) && m == MaskOf(cfg.server, b, h)
  }

  function FrameSeen(c1: Conn, data: seq<Byte>, m: Mask): seq<Frame> {
    [Frame(Top(c1), c1.lastFin, Masked(data, m))]
  }

  lemma DecodeFrame(cfg: Config, c: Conn, b: seq<Byte>, c1: Conn, h: nat, n: nat, m: Mask)
    requires FrameAt(cfg, c, b, c1, h, n, m)
    ensures Decode(cfg, c, b) ==
      if h + n <= |b| then Before(FrameSeen(c1, b[h..h + n], m), Decode(cfg, Leave(c1), b[h + n..]))
      else Seen([], c1, Body(Masked(b[h..], m), n - (|b| - h), Rotated(m, (|b| - h) % 4)))
  {
  }

  /** Decoding is incremental: what the first bytes led to, continued with the
      rest, is what one pass over all of them gives. */
  lemma {:induction false} DecodeAppend(cfg: Config, c: Conn, b: seq<Byte>, d: seq<Byte>)
    ensures Decode(cfg, c, b + d) == Continue(cfg, Decode(cfg, c, b), d)
    decreases |b|
  {
    if |b| >= Short(cfg.server) && !Refused(b[0], b[1]) && HeaderComplete(cfg.server, b) && Opened(cfg, c, b).Some? {
      var c1, h, n := Opened(cfg, c, b).value, HeaderLength(cfg.server, b[1]), PayloadLength(b);
      var m := MaskOf(cfg.server, b, h);
      if h + n <= |b| {
        DecodeAppend(cfg, Leave(c1), b[h + n..], d);
        AppendNext(cfg, c, b, d, c1, h, n, m);
      } else {
        AppendBody(cfg, c, b, d, c1, h, n, m);
      }
    } else {
      AppendStop(cfg, c, b, d);
    }
  }

  lemma AppendStop(cfg: Config, c: Conn, b: seq<Byte>, d: seq<Byte>)
    requires |b| < Short(cfg.server) || Refused(b[0], b[1]) || !HeaderComplete(cfg.server, b) || Opened(cfg, c, b).None?
    ensures Decode(cfg, c, b + d) == Continue(cfg, Decode(cfg, c, b), d)
  {
    if |b| >= Short(cfg.server) {
      assert (b + d)[0] == b[0] && (b + d)[1] == b[1];
      if HeaderComplete(cfg.server, b) { SameHeader(cfg, c, b, d); }
    }
    assert [] + Decode(cfg, c, b + d).frames == Decode(cfg, c, b + d).frames;
  }

  lemma FrameAtAppend(cfg: Config, c: Conn, b: seq<Byte>, d: seq<Byte>, c1: Conn, h: nat, n: nat, m: Mask)
    requires FrameAt(cfg, c, b, c1, h, n, m)
    ensures FrameAt(cfg, c, b + d, c1, h, n, m) && h <= |b|
  {
    SameHeader(cfg, c, b, d);
    assert (b + d)[0] == b[0] && (b + d)[1] == b[1];
  }

  lemma AppendNext(cfg: Config, c: Conn, b: seq<Byte>, d: seq<Byte>, c1: Conn, h: nat, n: nat, m: Mask)
    requires FrameAt(cfg, c, b, c1, h, n, m) && h + n <= |b|
    requires var r := b[h + n..]; Decode(cfg, Leave(c1), r + d) == Continue(cfg, Decode(cfg, Leave(c1), r), d)
    ensures Decode(cfg, c, b + d) == Continue(cfg, Decode(cfg, c, b), d)
  {
    hide *;
    FrameAtAppend(cfg, c, b, d, c1, h, n, m);
    DecodeFrame(cfg, c, b, c1, h, n, m);
    DecodeFrame(cfg, c, b + d, c1, h, n, m);
    assert (b + d)[h..h + n] == b[h..h + n];
    assert (b + d)[h + n..] == b[h + n..] + d;
    BeforeContinue(cfg, FrameSeen(c1, b[h..h + n], m), Decode(cfg, Leave(c1), b[h + n..]), d);
  }

  lemma BeforeContinue(cfg: Config, fs: seq<Frame>, s: Seen, d: seq<Byte>)
    ensures Continue(cfg, Before(fs, s), d) == Before(fs, Continue(cfg, s, d))
  {
    hide Decode, Masked;
    match s.tail
    case Closed =>
    case Head(h) => assert (fs + s.frames) + Decode(cfg, s.conn, h + d).frames == fs + (s.frames + Decode(cfg, s.conn, h + d).frames);
    case Body(got, rem, m) =>
      if rem <= |d| {
        var f := [Frame(Top(s.conn), s.conn.lastFin, got + Masked(d[..rem], m))];
        var r := Decode(cfg, Leave(s.conn), d[rem..]).frames;
        assert ((fs + s.frames) + f) + r == fs + ((s.frames + f) + r);
      }
  }

  lemma ContinueBody(cfg: Config, c1: Conn, got: seq<Byte>, rem: nat, m: Mask, d: seq<Byte>)
    ensures Continue(cfg, Seen([], c1, Body(got, rem, m)), d) ==
      if rem <= |d| then Before([Frame(Top(c1), c1.lastFin, got + Masked(d[..rem], m))], Decode(cfg, Leave(c1), d[rem..]))
      else Seen([], c1, Body(got + Masked(d, m), rem - |d|, Rotated(m, |d| % 4)))
  {
    var f := [Frame(Top(c1), c1.lastFin, got + if rem <= |d| then Masked(d[..rem], m) else [])];
    assert [] + f == f;
  }

  lemma AppendBody(cfg: Config, c: Conn, b: seq<Byte>, d: seq<Byte>, c1: Conn, h: nat, n: nat, m: Mask)
    requires FrameAt(cfg, c, b, c1, h, n, m) && |b| < h + n
    ensures Decode(cfg, c, b + d) == Continue(cfg, Decode(cfg, c, b), d)
  {
    hide *;
    FrameAtAppend(cfg, c, b, d, c1, h, n, m);
    DecodeFrame(cfg, c, b, c1, h, n, m);
    DecodeFrame(cfg, c, b + d, c1, h, n, m);
    var k := |b| - h;
    ContinueBody(cfg, c1, Masked(b[h..], m), n - k, Rotated(m, k % 4), d);
    if n - k <= |d| {
      assert (b + d)[h..h + n] == b[h..] + d[..n - k];
      assert (b + d)[h + n..] == d[n - k..];
      MaskedSplit(b[h..], d[..n - k], m);
      assert FrameSeen(c1, b[h..] + d[..n - k], m) == [Frame(Top(c1), c1.lastFin, Masked(b[h..] + d[..n - k], m))] by {
        FrameSeenIs(c1, b[h..] + d[..n - k], m);
      }
    } else {
      assert (b + d)[h..] == b[h..] + d;
      MaskedSplit(b[h..], d, m);
      RotatedTwice(m, k, |d|);
    }
  }

  lemma FrameSeenIs(c1: Conn, data: seq<Byte>, m: Mask)
    ensures FrameSeen(c1, data, m) == [Frame(Top(c1), c1.lastFin, Masked(data, m))]
  {
  }

  // ---- however the bytes are cut ----

  function Feed(cfg: Config, s: Seen, chunks: seq<seq<Byte>>): Seen
    decreases |chunks|
  {
    if chunks == [] then s else Feed(cfg, Continue(cfg, s, chunks[0]), chunks[1..])
  }

  function Concat(chunks: seq<seq<Byte>>): seq<Byte> {
    if chunks == [] then [] else chunks[0] + Concat(chunks[1..])
  }

  lemma {:induction false} FeedIsDecode(cfg: Config, c: Conn, b: seq<Byte>, chunks: seq<seq<Byte>>)
    ensures Feed(cfg, Decode(cfg, c, b), chunks) == Decode(cfg, c, b + Concat(chunks))
    decreases |chunks|
  {
    hide Decode, Continue;
    if chunks == [] {
      assert b + [] == b;
    } else {
      DecodeAppend(cfg, c, b, chunks[0]);
      FeedIsDecode(cfg, c, b + chunks[0], chunks[1..]);
      assert (b + chunks[0]) + Concat(chunks[1..]) == b + Concat(chunks);
    }
  }

  /** Two ways of cutting the same bytes lead to the same frames and the same
      state. */
  lemma CutsDoNotMatter(cfg: Config, xs: seq<seq<Byte>>, ys: seq<seq<Byte>>)
    requires Concat(xs) == Concat(ys)
    ensures Feed(cfg, Seen([], Fresh, Head([])), xs) == Feed(cfg, Seen([], Fresh, Head([])), ys)
  {
    FeedIsDecode(cfg, Fresh, [], xs);
    FeedIsDecode(cfg, Fresh, [], ys);
    assert Decode(cfg, Fresh, []) == Seen([], Fresh, Head([]));
  }
}
