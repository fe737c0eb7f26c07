/** What a frame on the wire does to the receiver, said of its fields, and how
  messages arrive, whole and in fragments. */
module WsStream {
  import opened Powers
  import opened WsFrames
  import opened WsParser
  import opened WsFormat

  // ---- one frame ----

  /** The first byte of a frame: the fin bit, the three reserved bits, the opcode. */
  function FirstOf(fin: bool, rsv: Byte, op: Byte): Byte {
    (if fin then 128 else 0) | rsv | op
  }

  predicate Fields(rsv: Byte, op: Byte) { rsv & 143 == 0 && op < 16 }

  /** A frame as section 5.2 of RFC 6455 lays it out. */
  function Wire(fromServer: bool, fin: bool, rsv: Byte, op: Byte, payload: seq<Byte>, m: Mask): seq<Byte>
    requires |payload| < Pow256(8)
  {
    [FirstOf(fin, rsv, op)] + LengthBytes(|payload|, !fromServer) + (if fromServer then payload else m + Masked(payload, m))
  }

  predicate Control(op: Byte) { op in {8, 9, 10} }

  /** A receiver takes the frame: no reserved bit, a known opcode, a control frame whole
      and short, a continuation only of a message under way, another message only if
      there is room for it and the latest frame was final. */
  predicate Lawful(cfg: Config, c: Conn, fin: bool, rsv: Byte, op: Byte, length: nat) {
    && rsv == 0 && length <= cfg.max
    && if op == 0 then c.stack != []
       else if op in {1, 2} then |c.stack| < 2 && (c.lastFin || op == 2)
       else Control(op) && fin && length <= 125 && |c.stack| < 2
  }

  /** The messages under way, the one that the frame belongs to included. */
  function During(c: Conn, op: Byte): seq<Byte> { if op == 0 then c.stack else c.stack + [op] }

  /** A final frame ends its message. */
  function Afterwards(c: Conn, fin: bool, op: Byte): Conn
    requires op == 0 ==> c.stack != []
    requires op != 0 ==> |c.stack| < 2
  {
    var d := During(c, op);
    Conn(if fin then d[..|d| - 1] else d, fin)
  }

  lemma FirstIs(fin: bool, rsv: Byte, op: Byte)
    requires Fields(rsv, op)
    ensures var b := FirstOf(fin, rsv, op);
      IsFin(b) == fin && OpCode(b) == op && (Rsv1(b) || Rsv23(b) <==> rsv != 0)
  {
  }

  /** The header checks, said of the fields. */
  lemma RefusedIs(fin: bool, rsv: Byte, op: Byte, b1: Byte)
    requires Fields(rsv, op)
    ensures Refused(FirstOf(fin, rsv, op), b1) <==>
      rsv != 0 || !(op in {0, 1, 2} || (Control(op) && fin && Length7(b1) <= 125))
  {
    FirstIs(fin, rsv, op);
    KnownOps(op);
    hide FirstOf, IsFin, OpCode, Rsv1, Rsv23, Length7, Control;
  }

  lemma KnownOps(op: Byte)
    ensures op > 2 && !(op < 8) && !(op > 10) <==> Control(op)
    ensures !(op > 2) <==> op in {0, 1, 2}
    ensures op < 2 <==> op in {0, 1}
  {
  }

  lemma WireParts(server: bool, fin: bool, rsv: Byte, op: Byte, payload: seq<Byte>, m: Mask, rest: seq<Byte>)
    requires |payload| < Pow256(8)
    ensures Wire(!server, fin, rsv, op, payload, m) + rest
         == [FirstOf(fin, rsv, op)] + LengthBytes(|payload|, server) + (WsFormat.Body(server, payload, m) + rest)
  {
  }

  /** How the bytes of a frame are taken apart. */
  lemma WireHeader(cfg: Config, fin: bool, rsv: Byte, op: Byte, payload: seq<Byte>, m: Mask, rest: seq<Byte>)
    requires Fields(rsv, op) && |payload| < Pow256(8)
    ensures var b := Wire(!cfg.server, fin, rsv, op, payload, m) + rest; var n := |payload|;
      && |b| >= Short(cfg.server) && HeaderComplete(cfg.server, b) && PayloadLength(b) == n && b[0] == FirstOf(fin, rsv, op)
      && (Length7(b[1]) <= 125 <==> n <= 125)
      && var h := HeaderLength(cfg.server, b[1]);
        && h + n <= |b| && (cfg.server ==> 4 <= h) && b[h + n..] == rest
        && Masked(b[h..h + n], MaskOf(cfg.server, b, h)) == payload
  {
    var b := Wire(!cfg.server, fin, rsv, op, payload, m) + rest;
    var tail := WsFormat.Body(cfg.server, payload, m) + rest;
    WireParts(cfg.server, fin, rsv, op, payload, m, rest);
    assert |tail| >= if cfg.server then 4 else 0;
    hide Wire, FirstOf, LengthBytes, Masked, WsFormat.Body, PayloadLength, OpCode, IsFin, HeaderLength, Length7, MaskOf;
    assert b[0] == FirstOf(fin, rsv, op);
    ReadLength(cfg.server, |payload|, b, tail);
    LongLength(cfg.server, |payload|, b, tail);
    var h := HeaderLength(cfg.server, b[1]);
    BodyAt(cfg.server, b, b[0], LengthBytes(|payload|, cfg.server), tail, h);
    BodyParts(cfg.server, payload, m, b, h, rest);
  }

  lemma LongLength(server: bool, n: nat, b: seq<Byte>, tail: seq<Byte>)
    requires n < Pow256(8) && |b| >= 1 && b == [b[0]] + LengthBytes(n, server) + tail
    ensures n > 125 ==> |b| >= 2 && Length7(b[1]) > 125
  {
    hide BigEndian, ToByte;
    if n > 125 {
      var bit: Byte := if server then 128 else 0;
      SmallLength(126, bit);
      SmallLength(127, bit);
      ByteValues();
      hide Length7;
      assert b[1] == FirstByte(n) | bit;
    }
  }

  lemma ByteValues()
    ensures ToByte(126) == 126 && ToByte(127) == 127
  {
    hide ToByte;
    var a, b := ToByte(126), ToByte(127);
  }

  /** Where the connection is inside the frame. */
  lemma OpenedIs(cfg: Config, c: Conn, fin: bool, op: Byte, b: seq<Byte>)
    requires HeaderComplete(cfg.server, b) && IsFin(b[0]) == fin && OpCode(b[0]) == op
    requires op in {0, 1, 2} || Control(op)
    requires Control(op) ==> fin && PayloadLength(b) <= 125
    ensures Opened(cfg, c, b) == if Lawful(cfg, c, fin, 0, op, PayloadLength(b)) then Some(Conn(During(c, op), fin)) else None
  {
    KnownOps(op);
    hide OpCode, IsFin, PayloadLength, HeaderComplete;
  }

  lemma LeaveIs(c: Conn, fin: bool, op: Byte)
    requires op == 0 ==> c.stack != []
    requires op != 0 ==> |c.stack| < 2
    ensures var d := During(c, op); |d| <= 2 && d != [] && Leave(Conn(d, fin)) == Afterwards(c, fin, op) && Top(Conn(d, fin)) == d[|d| - 1]
  {
  }

  lemma Closes(cfg: Config, c: Conn, b: seq<Byte>)
    requires |b| >= Short(cfg.server) && (Refused(b[0], b[1]) || (HeaderComplete(cfg.server, b) && Opened(cfg, c, b).None?))
    ensures Decode(cfg, c, b) == Seen([], c, Closed)
  {
    hide Opened, Refused;
  }

  lemma LawfulRoom(cfg: Config, c: Conn, fin: bool, rsv: Byte, op: Byte, length: nat)
    requires Lawful(cfg, c, fin, rsv, op, length)
    ensures rsv == 0 && (op in {0, 1, 2} || Control(op)) && (op == 0 ==> c.stack != []) && (op != 0 ==> |c.stack| < 2)
    ensures During(c, op) != [] && |During(c, op)| <= 2
  {
  }

  /** A lawful frame is taken: its payload is handed over with the opcode of its
      message, and decoding goes on. */
  lemma LawfulFrame(cfg: Config, c: Conn, fin: bool, op: Byte, payload: seq<Byte>, m: Mask, rest: seq<Byte>)
    requires Fields(0, op) && |payload| < Pow256(8) && Lawful(cfg, c, fin, 0, op, |payload|)
    ensures (op == 0 ==> c.stack != []) && (op != 0 ==> |c.stack| < 2) && During(c, op) != []
    ensures Decode(cfg, c, Wire(!cfg.server, fin, 0, op, payload, m) + rest)
         == Before([Frame(During(c, op)[|During(c, op)| - 1], fin, payload)], Decode(cfg, Afterwards(c, fin, op), rest))
  {
    hide Wire, FirstOf, Refused, OpCode, IsFin, Length7, PayloadLength, HeaderLength, MaskOf, Masked, HeaderComplete, Opened, Lawful, During, Decode, Leave, Top;
    LawfulRoom(cfg, c, fin, 0, op, |payload|);
    var b := Wire(!cfg.server, fin, 0, op, payload, m) + rest;
    WireHeader(cfg, fin, 0, op, payload, m, rest);
    FirstIs(fin, 0, op);
    RefusedIs(fin, 0, op, b[1]);
    LawfulControl(cfg, c, fin, op, |payload|);
    OpenedIs(cfg, c, fin, op, b);
    LeaveIs(c, fin, op);
    var h := HeaderLength(cfg.server, b[1]);
    DecodeFrame(cfg, c, b, Conn(During(c, op), fin), h, |payload|, MaskOf(cfg.server, b, h));
  }

  lemma LawfulControl(cfg: Config, c: Conn, fin: bool, op: Byte, length: nat)
    requires Lawful(cfg, c, fin, 0, op, length)
    ensures Control(op) ==> fin && length <= 125
  {
  }

  /** Any other closes the connection. */
  lemma UnlawfulFrame(cfg: Config, c: Conn, fin: bool, rsv: Byte, op: Byte, payload: seq<Byte>, m: Mask, rest: seq<Byte>)
    requires Fields(rsv, op) && |payload| < Pow256(8) && !Lawful(cfg, c, fin, rsv, op, |payload|)
    ensures Decode(cfg, c, Wire(!cfg.server, fin, rsv, op, payload, m) + rest) == Seen([], c, Closed)
  {
    hide Wire, FirstOf, Refused, OpCode, IsFin, Length7, PayloadLength, HeaderLength, MaskOf, Masked, HeaderComplete, Opened, Lawful, Decode;
    var b := Wire(!cfg.server, fin, rsv, op, payload, m) + rest;
    WireHeader(cfg, fin, rsv, op, payload, m, rest);
    FirstIs(fin, rsv, op);
    RefusedIs(fin, rsv, op, b[1]);
    if !Refused(b[0], b[1]) { OpenedIs(cfg, c, fin, op, b); }
    Closes(cfg, c, b);
  }

  /** A message that begins inside another one. RFC 6455, section 5.4, forbids it; the
      connection is closed exactly when a text message begins right after a fragment
      that was not the last. */
  lemma Interleaved(cfg: Config, c: Conn, fin: bool, op: Byte, payload: seq<Byte>, m: Mask, rest: seq<Byte>)
    requires |c.stack| == 1 && op in {1, 2} && |payload| < Pow256(8) && |payload| <= cfg.max
    ensures Decode(cfg, c, Wire(!cfg.server, fin, 0, op, payload, m) + rest) == Seen([], c, Closed) <==> op == 1 && !c.lastFin
  {
    hide Decode, Wire;
    DataOp(op);
    if op == 1 && !c.lastFin {
      UnlawfulFrame(cfg, c, fin, 0, op, payload, m, rest);
    } else {
      LawfulFrame(cfg, c, fin, op, payload, m, rest);
    }
  }

  /** A binary message that is let into a text message: what arrives is a fragment of
      text, the binary message, and the rest of the text. */
  lemma InterleavedPasses(cfg: Config, x: seq<Byte>, y: seq<Byte>, z: seq<Byte>, m: Mask)
    requires |x| < Pow256(8) && |y| < Pow256(8) && |z| < Pow256(8) && |x| <= cfg.max && |y| <= cfg.max && |z| <= cfg.max
    ensures Decode(cfg, Fresh, Wire(!cfg.server, false, 0, 1, x, m) + (Wire(!cfg.server, true, 0, 2, y, m) + (Wire(!cfg.server, true, 0, 0, z, m) + [])))
         == Seen([Frame(1, false, x), Frame(2, true, y), Frame(1, true, z)], Fresh, Head([]))
  {
    hide Decode, Wire, Afterwards, During;
    ThreeStates();
    DataOp(1);
    DataOp(2);
    var w3 := Wire(!cfg.server, true, 0, 0, z, m) + [];
    var w2 := Wire(!cfg.server, true, 0, 2, y, m) + w3;
    LawfulFrame(cfg, Fresh, false, 1, x, m, w2);
    LawfulFrame(cfg, Conn([1], false), true, 2, y, m, w3);
    LawfulFrame(cfg, Conn([1], true), true, 0, z, m, []);
    NothingToRead(cfg);
  }

  lemma ThreeStates()
    ensures Afterwards(Fresh, false, 1) == Conn([1], false) && During(Fresh, 1) == [1]
    ensures Afterwards(Conn([1], false), true, 2) == Conn([1], true) && During(Conn([1], false), 2) == [1, 2]
    ensures Afterwards(Conn([1], true), true, 0) == Fresh && During(Conn([1], true), 0) == [1]
  {
  }

  // ---- whole messages ----

  /** What `formatMessage` makes is such a frame. */
  lemma MessageIsWire(fromServer: bool, op: Byte, payload: seq<Byte>, m: Mask)
    requires |payload| < Pow256(8)
    ensures Message(fromServer, op, false, payload, m) == Wire(fromServer, true, 0, op, payload, m)
  {
    hide LengthBytes, Masked;
    assert Byte0(op, false) == FirstOf(true, 0, op);
  }

  predicate Sendable(op: Byte, payload: seq<Byte>) {
    (op == 1 || op == 2 || ((op == 8 || op == 9 || op == 10) && |payload| <= 125)) && |payload| < Pow256(8)
  }

  /** A message arriving on a connection where a message may start. */
  predicate Ready(c: Conn, op: Byte) {
    |c.stack| < 2 && (c.lastFin || op >= 2)
  }

  /** The receiver of a formatted message gets its opcode and its payload, with
      fin set, and goes on with whatever follows. */
  lemma ReadMessage(cfg: Config, c: Conn, op: Byte, payload: seq<Byte>, m: Mask, rest: seq<Byte>)
    requires Sendable(op, payload) && |payload| <= cfg.max && Ready(c, op)
    ensures Decode(cfg, c, Message(!cfg.server, op, false, payload, m) + rest)
         == Before([Frame(op, true, payload)], Decode(cfg, Conn(c.stack, true), rest))
  {
    hide Decode, Message, Wire;
    SendableOp(op, payload);
    MessageIsWire(!cfg.server, op, payload, m);
    LawfulFrame(cfg, c, true, op, payload, m, rest);
  }

  lemma SendableOp(op: Byte, payload: seq<Byte>)
    requires Sendable(op, payload)
    ensures Fields(0, op) && op != 0 && (op in {1, 2} || (Control(op) && |payload| <= 125)) && (op >= 2 <==> op != 1)
  {
  }

  // ---- whole conversations ----

  datatype Sent = Sent(op: Byte, payload: seq<Byte>, mask: Mask)

  predicate AllSendable(cfg: Config, ms: seq<Sent>) {
    forall i | 0 <= i < |ms| :: Sendable(ms[i].op, ms[i].payload) && |ms[i].payload| <= cfg.max
  }

  function Stream(fromServer: bool, ms: seq<Sent>): seq<Byte>
    requires forall i | 0 <= i < |ms| :: |ms[i].payload| < Pow256(8)
  {
    if ms == [] then [] else Message(fromServer, ms[0].op, false, ms[0].payload, ms[0].mask) + Stream(fromServer, ms[1..])
  }

  function Frames(ms: seq<Sent>): seq<Frame> {
    if ms == [] then [] else [Frame(ms[0].op, true, ms[0].payload)] + Frames(ms[1..])
  }

  /** Any messages, sent one after the other, arrive as they are. */
  lemma {:induction false} ReadStream(cfg: Config, ms: seq<Sent>)
    requires AllSendable(cfg, ms)
    ensures Decode(cfg, Fresh, Stream(!cfg.server, ms)) == Seen(Frames(ms), Fresh, Head([]))
    decreases |ms|
  {
    if ms != [] {
      assert AllSendable(cfg, ms[1..]);
      ReadStream(cfg, ms[1..]);
      ReadMessage(cfg, Fresh, ms[0].op, ms[0].payload, ms[0].mask, Stream(!cfg.server, ms[1..]));
    }
  }

  /** The other end, having received what was sent, in any pieces, has handed
      over exactly the messages and is waiting for the next. */
  lemma Delivered(p: WebSocketProtocol, ms: seq<Sent>)
    requires p.Valid() && AllSendable(p.cfg, ms) && p.received == Stream(!p.cfg.server, ms)
    ensures !p.closed && Heard(p.log) == Hearing(Frames(ms), Idle, true)
    ensures p.wantsHead && p.spillLength == 0 && p.opStack == -1
  {
    hide Decode, Heard, Stream, Frames;
    ReadStream(p.cfg, ms);
  }
  // ---- messages in fragments ----

  /** A fragment, and the control messages that are sent after it. */
  datatype Part = Part(payload: seq<Byte>, mask: Mask, after: seq<Sent>)

  /** A message in fragments. */
  datatype Post = Post(op: Byte, parts: seq<Part>)

  predicate Controls(cfg: Config, ms: seq<Sent>) {
    forall i | 0 <= i < |ms| :: Control(ms[i].op) && |ms[i].payload| <= 125 && |ms[i].payload| <= cfg.max
  }

  /** Text or binary, in one fragment or more. */
  predicate Postable(cfg: Config, p: Post) {
    p.op in {1, 2} && p.parts != [] && PartsFit(cfg, p.parts)
  }

  predicate PartsFit(cfg: Config, ps: seq<Part>) {
    forall i | 0 <= i < |ps| :: |ps[i].payload| < Pow256(8) && |ps[i].payload| <= cfg.max && Controls(cfg, ps[i].after)
  }

  /** The bytes of control messages. */
  function ControlBytes(cfg: Config, ms: seq<Sent>): seq<Byte>
    requires Controls(cfg, ms)
  {
    if ms == [] then []
    else ControlFits(); Wire(!cfg.server, true, 0, ms[0].op, ms[0].payload, ms[0].mask) + ControlBytes(cfg, ms[1..])
  }

  lemma ControlFits()
    ensures 125 < Pow256(8)
  {
    PowValues();
  }

  /** The fragments of a message from the first on, which has opcode `op`; the others
      have opcode 0, and fin is set on the last. */
  function PartBytes(cfg: Config, op: Byte, ps: seq<Part>): seq<Byte>
    requires PartsFit(cfg, ps)
  {
    if ps == [] then []
    else
      Wire(!cfg.server, |ps| == 1, 0, op, ps[0].payload, ps[0].mask) + ControlBytes(cfg, ps[0].after) + PartBytes(cfg, 0, ps[1..])
  }

  /** What arrives: each fragment with the opcode of the message, fin on the last, and
      the control messages where they were sent. */
  function PartFrames(op: Byte, ps: seq<Part>): seq<Frame> {
    if ps == [] then []
    else [Frame(op, |ps| == 1, ps[0].payload)] + Frames(ps[0].after) + PartFrames(op, ps[1..])
  }

  predicate AllPostable(cfg: Config, ps: seq<Post>) { forall i | 0 <= i < |ps| :: Postable(cfg, ps[i]) }

  function PostBytes(cfg: Config, ps: seq<Post>): seq<Byte>
    requires AllPostable(cfg, ps)
  {
    if ps == [] then [] else PartBytes(cfg, ps[0].op, ps[0].parts) + PostBytes(cfg, ps[1..])
  }

  function PostFrames(ps: seq<Post>): seq<Frame> {
    if ps == [] then [] else PartFrames(ps[0].op, ps[0].parts) + PostFrames(ps[1..])
  }

  /** Control messages pass through a message under way. */
  lemma {:induction false} ControlsPass(cfg: Config, c: Conn, ms: seq<Sent>, rest: seq<Byte>)
    requires Controls(cfg, ms) && |c.stack| < 2
    ensures Decode(cfg, c, ControlBytes(cfg, ms) + rest) ==
      Before(Frames(ms), Decode(cfg, if ms == [] then c else Conn(c.stack, true), rest))
    decreases |ms|
  {
    hide Decode, Wire;
    if ms == [] {
      assert [] + rest == rest;
      NothingBefore(Decode(cfg, c, rest));
    } else {
      var more := ControlBytes(cfg, ms[1..]) + rest;
      ControlFits();
      ControlOp(ms[0].op);
      assert ControlBytes(cfg, ms) + rest == Wire(!cfg.server, true, 0, ms[0].op, ms[0].payload, ms[0].mask) + more;
      LawfulFrame(cfg, c, true, ms[0].op, ms[0].payload, ms[0].mask, more);
      ControlsPass(cfg, Conn(c.stack, true), ms[1..], rest);
      BeforeTwice([Frame(ms[0].op, true, ms[0].payload)], Frames(ms[1..]), Decode(cfg, Conn(c.stack, true), rest));
    }
  }

  lemma ControlOp(op: Byte)
    requires Control(op)
    ensures Fields(0, op) && op != 0 && op !in {1, 2}
  {
  }

  lemma NothingBefore(s: Seen)
    ensures Before([], s) == s
  {
    assert [] + s.frames == s.frames;
  }

  /** One fragment and what is sent after it; the message stays under way unless it
      was the last. */
  lemma PartArrives(cfg: Config, c: Conn, op: Byte, first: Byte, fin: bool, p: Part, rest: seq<Byte>) returns (d: Conn)
    requires op in {1, 2} && PartsFit(cfg, [p]) && |p.payload| < Pow256(8) && Controls(cfg, p.after)
    requires (first == op && c == Fresh) || (first == 0 && c.stack == [op])
    ensures Decode(cfg, c, Wire(!cfg.server, fin, 0, first, p.payload, p.mask) + ControlBytes(cfg, p.after) + rest)
         == Before([Frame(op, fin, p.payload)] + Frames(p.after), Decode(cfg, d, rest))
    ensures if fin then d == Fresh else d.stack == [op]
  {
    hide Decode, Wire, Controls, ControlBytes, Frames;
    assert [p][0] == p;
    DataOp(op);
    var w, k := Wire(!cfg.server, fin, 0, first, p.payload, p.mask), ControlBytes(cfg, p.after);
    assert w + k + rest == w + (k + rest);
    LawfulFrame(cfg, c, fin, first, p.payload, p.mask, k + rest);
    var e := Afterwards(c, fin, first);
    assert During(c, first) == [op];
    ControlsPass(cfg, e, p.after, rest);
    d := if p.after == [] then e else Conn(e.stack, true);
    BeforeTwice([Frame(op, fin, p.payload)], Frames(p.after), Decode(cfg, d, rest));
  }

  lemma DataOp(op: Byte)
    requires op in {1, 2}
    ensures Fields(0, op) && Fields(0, 0) && op != 0
  {
  }

  /** The fragments of a message arrive as those of one message. */
  lemma {:induction false} PartsArrive(cfg: Config, c: Conn, op: Byte, first: Byte, ps: seq<Part>, rest: seq<Byte>)
    requires op in {1, 2} && ps != [] && PartsFit(cfg, ps)
    requires (first == op && c == Fresh) || (first == 0 && c.stack == [op])
    ensures Decode(cfg, c, PartBytes(cfg, first, ps) + rest) == Before(PartFrames(op, ps), Decode(cfg, Fresh, rest))
    decreases |ps|
  {
    hide Decode, Wire, Controls, ControlBytes, Frames;
    var p, fin := ps[0], |ps| == 1;
    var w, more := Wire(!cfg.server, fin, 0, first, p.payload, p.mask) + ControlBytes(cfg, p.after), PartBytes(cfg, 0, ps[1..]);
    var d := PartArrives(cfg, c, op, first, fin, p, more + rest);
    assert PartBytes(cfg, first, ps) + rest == w + (more + rest);
    var f := [Frame(op, fin, p.payload)] + Frames(p.after);
    if fin {
      assert more + rest == rest && PartFrames(op, ps) == f + [] == f;
    } else {
      PartsArrive(cfg, d, op, 0, ps[1..], rest);
      BeforeTwice(f, PartFrames(op, ps[1..]), Decode(cfg, Fresh, rest));
    }
  }

  lemma {:induction false} ReadPosts(cfg: Config, ps: seq<Post>)
    requires AllPostable(cfg, ps)
    ensures Decode(cfg, Fresh, PostBytes(cfg, ps)) == Seen(PostFrames(ps), Fresh, Head([]))
    decreases |ps|
  {
    hide Decode, PartBytes, PartFrames, PartsFit;
    if ps == [] {
      NothingToRead(cfg);
    } else {
      assert Postable(cfg, ps[0]);
      ReadPosts(cfg, ps[1..]);
      PartsArrive(cfg, Fresh, ps[0].op, ps[0].op, ps[0].parts, PostBytes(cfg, ps[1..]));
    }
  }

  lemma NothingToRead(cfg: Config)
    ensures Decode(cfg, Fresh, []) == Seen([], Fresh, Head([]))
  {
  }

  /** Messages in any fragments, with control messages before, between and after these,
      arrive: every fragment under the opcode of its message and final only if it is
      the last, the control messages where they were sent, and then a new message may
      begin. */
  lemma ReadFragments(cfg: Config, first: seq<Sent>, ps: seq<Post>)
    requires Controls(cfg, first) && AllPostable(cfg, ps)
    ensures Decode(cfg, Fresh, ControlBytes(cfg, first) + PostBytes(cfg, ps)) == Seen(Frames(first) + PostFrames(ps), Fresh, Head([]))
  {
    hide Decode, ControlBytes, PostBytes, Frames, PostFrames, Controls;
    ControlsPass(cfg, Fresh, first, PostBytes(cfg, ps));
    ReadPosts(cfg, ps);
  }

  /** A continuation of nothing closes the connection. */
  lemma StrayContinuation(cfg: Config, c: Conn, fin: bool, payload: seq<Byte>, m: Mask, rest: seq<Byte>)
    requires c.stack == [] && |payload| < Pow256(8)
    ensures Decode(cfg, c, Wire(!cfg.server, fin, 0, 0, payload, m) + rest) == Seen([], c, Closed)
  {
    hide Decode, Wire;
    assert Fields(0, 0);
    UnlawfulFrame(cfg, c, fin, 0, 0, payload, m, rest);
  }

  /** The parser, having received such messages in any pieces, has handed over their
      fragments and the control messages, and is waiting for the next message. */
  lemma DeliveredFragments(p: WebSocketProtocol, first: seq<Sent>, ps: seq<Post>)
    requires p.Valid() && Controls(p.cfg, first) && AllPostable(p.cfg, ps)
    requires p.received == ControlBytes(p.cfg, first) + PostBytes(p.cfg, ps)
    ensures !p.closed && Heard(p.log) == Hearing(Frames(first) + PostFrames(ps), Idle, true)
    ensures p.wantsHead && p.spillLength == 0 && p.opStack == -1
  {
    hide Decode, Heard, ControlBytes, PostBytes, PostFrames, Controls, AllPostable;
    ReadFragments(p.cfg, first, ps);
  }
}
