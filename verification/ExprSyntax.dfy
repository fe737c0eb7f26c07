/** Operator precedence: which tree `subexpr` builds from which tokens. */
module ExprSyntax {
  import opened CodeGenModel

  datatype Option<T> = None | Some(value: T)

  datatype BinOp =
    | Add | Sub | Mul | Mod | Pow | Div | IDiv | BAnd | BOr | BXor | Shl | Shr | Concat
    | Compare(rel: CmpOp) | And | Or

  datatype UnOp = Minus | BNot | Not | Len

  datatype Operand = NilWord | TrueWord | FalseWord | Integer(i: int) | Float(r: real) | Text(s: string) | Local(reg: nat)

  datatype Token = Opnd(a: Operand) | Open | Close | Prefix(u: UnOp) | Infix(op: BinOp) | Both(u: UnOp, op: BinOp) | Other

  datatype Tree = Leaf(a: Operand) | Paren(t: Tree) | Un(u: UnOp, t: Tree) | Bin(op: BinOp, l: Tree, r: Tree)

  // ---- the priority table ----

  function Left(op: BinOp): nat {
    match op
    case Add | Sub => 10
    case Mul | Mod | Div | IDiv => 11
    case Pow => 14
    case BAnd => 6
    case BOr => 4
    case BXor => 5
    case Shl | Shr => 7
    case Concat => 9
    case Compare(_) => 3
    case And => 2
    case Or => 1
  }

  function Right(op: BinOp): nat {
    match op
    case Pow => 13
    case Concat => 8
    case _ => Left(op)
  }

  const UNARY_PRIORITY := 12

  const Minuses: Token := Both(Minus, Sub)
  const Tildes: Token := Both(BNot, BXor)

  /** `getunopr` */
  function UnOpOf(t: Token): Option<UnOp> {
    match t case Prefix(u) => Some(u) case Both(u, _) => Some(u) case _ => None
  }

  /** `getbinopr` of the next token. */
  function NextOp(ts: seq<Token>): Option<BinOp> {
    if ts == [] then None else match ts[0] case Infix(op) => Some(op) case Both(_, op) => Some(op) case _ => None
  }

  // ---- subexpr ----

  datatype Parsed = Parsed(t: Tree, rest: seq<Token>)

  /** An operand, an expression in parentheses, or one after a unary operator. */
  function ParseFirst(ts: seq<Token>): (r: Option<Parsed>)
    ensures r.Some? ==> |r.value.rest| < |ts|
    decreases |ts|, 0
  {
    if ts == [] then None
    else if UnOpOf(ts[0]).Some? then
      match ParseSub(ts[1..], UNARY_PRIORITY)
      case None => None
      case Some(p) => Some(Parsed(Un(UnOpOf(ts[0]).value, p.t), p.rest))
    else
      match ts[0]
      case Opnd(a) => Some(Parsed(Leaf(a), ts[1..]))
      case Open =>
        (match ParseSub(ts[1..], 0)
        case None => None
        case Some(p) => if p.rest != [] && p.rest[0] == Close then Some(Parsed(Paren(p.t), p.rest[1..])) else None)
      case _ => None
  }

  /** Takes operators of a priority higher than `limit` and their operands. */
  function Expand(t: Tree, ts: seq<Token>, limit: nat): (r: Option<Parsed>)
    ensures r.Some? ==> |r.value.rest| <= |ts|
    decreases |ts|, 2
  {
    var op := NextOp(ts);
    if op.Some? && Left(op.value) > limit then
      match ParseSub(ts[1..], Right(op.value))
      case None => None
      case Some(p) => Expand(Bin(op.value, t, p.t), p.rest, limit)
    else Some(Parsed(t, ts))
  }

  function ParseSub(ts: seq<Token>, limit: nat): (r: Option<Parsed>)
    ensures r.Some? ==> |r.value.rest| < |ts|
    decreases |ts|, 1
  {
    match ParseFirst(ts)
    case None => None
    case Some(p) => Expand(p.t, p.rest, limit)
  }

  // ---- what the trees are ----

  /** The token is one of those for the operator; minus and tilde have one token
      for both. */
  predicate IsUn(t: Token, u: UnOp) { t == Prefix(u) || (t.Both? && t.u == u) }

  predicate IsBin(t: Token, op: BinOp) { t == Infix(op) || (t.Both? && t.op == op) }

  /** `ts` are the tokens of the tree. */
  predicate Spells(t: Tree, ts: seq<Token>)
    decreases t
  {
    match t
    case Leaf(a) => ts == [Opnd(a)]
    case Paren(x) => |ts| >= 2 && ts[0] == Open && ts[|ts| - 1] == Close && Spells(x, ts[1..|ts| - 1])
    case Un(u, x) => ts != [] && IsUn(ts[0], u) && Spells(x, ts[1..])
    case Bin(op, l, r) => |ts| > Size(l) && Spells(l, ts[..Size(l)]) && IsBin(ts[Size(l)], op) && Spells(r, ts[Size(l) + 1..])
  }

  /** How many tokens it has. */
  function Size(t: Tree): nat {
    match t
    case Leaf(_) => 1
    case Paren(x) => Size(x) + 2
    case Un(_, x) => 1 + Size(x)
    case Bin(_, l, r) => Size(l) + 1 + Size(r)
  }

  /** All operators outside parentheses and not below a right operand bind
      tighter than `limit`. */
  predicate Above(t: Tree, limit: nat) {
    t.Bin? ==> Left(t.op) > limit && Above(t.l, limit)
  }

  /** After the tree, an operator of left priority `q` belongs to a larger tree: no
      operator that is still open at its right end lets go of its operand. */
  predicate Ends(t: Tree, q: nat) {
    match t
    case Un(_, x) => q <= UNARY_PRIORITY && Ends(x, q)
    case Bin(op, _, r) => q <= Right(op) && Ends(r, q)
    case _ => true
  }

  /** Every operator has the operands that priority and associativity give it. */
  predicate Proper(t: Tree) {
    match t
    case Leaf(_) => true
    case Paren(x) => Proper(x)
    case Un(_, x) => Proper(x) && Above(x, UNARY_PRIORITY)
    case Bin(op, l, r) => Proper(l) && Proper(r) && Ends(l, Left(op)) && Above(r, Right(op))
  }

  /** The next token does not go on with the tree. */
  predicate Stops(t: Tree, rest: seq<Token>) {
    NextOp(rest).Some? ==> Ends(t, Left(NextOp(rest).value))
  }

  predicate StopsAt(rest: seq<Token>, limit: nat) {
    NextOp(rest).Some? ==> Left(NextOp(rest).value) <= limit
  }

  /** Of tokens `ts`, `t` is a first part that is read whole. */
  predicate Reads(t: Tree, ts: seq<Token>, rest: seq<Token>) {
    Size(t) <= |ts| && Spells(t, ts[..Size(t)]) && rest == ts[Size(t)..] && Proper(t) && Stops(t, rest)
  }

  // ---- reading a tree is reading its parts ----

  lemma Cut<T>(ts: seq<T>, i: nat, n: nat)
    requires i + n <= |ts|
    ensures ts[i..][..n] == ts[..i + n][i..] && ts[i..][n..] == ts[i + n..]
  {
  }

  lemma ReadsLeaf(a: Operand, ts: seq<Token>, rest: seq<Token>)
    requires ts != []
    ensures Reads(Leaf(a), ts, rest) <==> ts[0] == Opnd(a) && rest == ts[1..]
  {
    assert ts[..1] == [ts[0]];
  }

  lemma ReadsParen(x: Tree, ts: seq<Token>, rest: seq<Token>)
    requires Size(x) + 2 <= |ts|
    ensures Reads(Paren(x), ts, rest) <==>
      ts[0] == Open && Reads(x, ts[1..], ts[Size(x) + 1..]) && ts[Size(x) + 1] == Close && rest == ts[Size(x) + 2..]
    ensures ts[Size(x) + 1..][0] == ts[Size(x) + 1] && ts[Size(x) + 1..][1..] == ts[Size(x) + 2..]
  {
    hide Size;
    var n := Size(x);
    var s := ts[..n + 2];
    assert Size(Paren(x)) == n + 2 by { SizeIs(x); }
    Cut(ts, 1, n);
    assert s[1..|s| - 1] == ts[1..][..n];
    assert ts[1..][n..] == ts[n + 1..] && ts[n + 1..][0] == ts[n + 1];
  }

  lemma SizeIs(x: Tree)
    ensures Size(Paren(x)) == Size(x) + 2
  {
  }

  lemma ReadsUn(u: UnOp, x: Tree, ts: seq<Token>, rest: seq<Token>)
    requires ts != []
    ensures Reads(Un(u, x), ts, rest) <==>
      IsUn(ts[0], u) && Reads(x, ts[1..], rest) && Above(x, UNARY_PRIORITY) && Stops(Un(u, x), rest)
  {
    hide IsUn, Above;
    var n := Size(x);
    if n < |ts| { Cut(ts, 1, n); }
  }

  lemma ReadsBin(op: BinOp, l: Tree, r: Tree, ts: seq<Token>, rest: seq<Token>)
    requires Size(l) < |ts|
    ensures Reads(Bin(op, l, r), ts, rest) <==>
      && Reads(l, ts, ts[Size(l)..]) && IsBin(ts[Size(l)], op)
      && Reads(r, ts[Size(l) + 1..], rest) && Above(r, Right(op)) && Stops(Bin(op, l, r), rest)
    ensures NextOp(ts[Size(l)..]) == NextOp([ts[Size(l)]]) && ts[Size(l)..][1..] == ts[Size(l) + 1..]
  {
    hide Spells, Size, Proper, Above, Stops, StopsAt, IsBin;
    var n, m, t := Size(l), Size(r), Bin(op, l, r);
    assert ts[n..][0] == ts[n];
    UnfoldBin(op, l, r, ts[..if n + 1 + m <= |ts| then n + 1 + m else 0]);
    OpFollows(l, op, ts[n..]);
    BinStops(t, rest);
    if n + 1 + m <= |ts| {
      Cut(ts, n + 1, m);
      var s := ts[..n + 1 + m];
      assert s[..n] == ts[..n] && s[n] == ts[n];
    }
  }

  lemma UnfoldBin(op: BinOp, l: Tree, r: Tree, s: seq<Token>)
    ensures Size(Bin(op, l, r)) == Size(l) + 1 + Size(r)
    ensures Spells(Bin(op, l, r), s) <==> |s| > Size(l) && Spells(l, s[..Size(l)]) && IsBin(s[Size(l)], op) && Spells(r, s[Size(l) + 1..])
    ensures Proper(Bin(op, l, r)) <==> Proper(l) && Proper(r) && Ends(l, Left(op)) && Above(r, Right(op))
  {
    hide IsBin, Above, Ends;
  }

  lemma OpFollows(l: Tree, op: BinOp, ts: seq<Token>)
    requires ts != []
    ensures NextOp(ts) == NextOp([ts[0]])
    ensures IsBin(ts[0], op) ==> (Stops(l, ts) <==> Ends(l, Left(op)))
  {
  }

  // ---- everything that is read is proper ----

  lemma {:induction false} FirstIsProper(ts: seq<Token>)
    requires ParseFirst(ts).Some?
    ensures var p := ParseFirst(ts).value; Reads(p.t, ts, p.rest) && !p.t.Bin?
    decreases |ts|, 0
  {
    hide Reads, ParseSub, Stops, StopsAt;
    var p := ParseFirst(ts).value;
    if UnOpOf(ts[0]).Some? {
      SubIsProper(ts[1..], UNARY_PRIORITY);
      UnStops(p.t, p.rest);
      ReadsUn(p.t.u, p.t.t, ts, p.rest);
    } else if ts[0].Open? {
      SubIsProper(ts[1..], 0);
      var x, rest := p.t.t, ParseSub(ts[1..], 0).value.rest;
      SizeFits(x, ts[1..], rest);
      Cut(ts, 1, Size(x));
      ReadsParen(x, ts, p.rest);
    } else {
      ReadsLeaf(p.t.a, ts, p.rest);
    }
  }

  lemma UnStops(t: Tree, rest: seq<Token>)
    requires t.Un? && Stops(t.t, rest) && StopsAt(rest, UNARY_PRIORITY)
    ensures Stops(t, rest)
  {
  }

  lemma BinStops(t: Tree, rest: seq<Token>)
    requires t.Bin?
    ensures Stops(t, rest) ==> Stops(t.r, rest)
    ensures Stops(t.r, rest) && StopsAt(rest, Right(t.op)) <==> Stops(t, rest)
  {
  }

  lemma SizeFits(t: Tree, ts: seq<Token>, rest: seq<Token>)
    requires Reads(t, ts, rest)
    ensures Size(t) <= |ts| && rest == ts[Size(t)..] && Stops(t, rest)
  {
  }

  /** An operator and its second operand after a tree. */
  lemma ReadsNext(op: BinOp, t: Tree, r: Tree, ts: seq<Token>, at: nat, rest: seq<Token>)
    requires at <= |ts| && Reads(t, ts, ts[at..]) && NextOp(ts[at..]) == Some(op)
    requires Reads(r, ts[at..][1..], rest) && Above(r, Right(op)) && StopsAt(rest, Right(op))
    ensures at + 1 + Size(r) <= |ts| && rest == ts[at + 1 + Size(r)..] && Reads(Bin(op, t, r), ts, rest)
  {
    hide Reads, Stops, StopsAt, Spells, Proper, Left, Right, Above, Size;
    SizeFits(t, ts, ts[at..]);
    SizeFits(r, ts[at..][1..], rest);
    assert at == Size(t) by { assert |ts[at..]| == |ts[Size(t)..]|; }
    Cut(ts, at, 1);
    ReadsBin(op, t, r, ts, rest);
    BinStops(Bin(op, t, r), rest);
    Cut(ts, at + 1, Size(r));
    IsNext(ts[at..], op);
  }

  lemma IsNext(ts: seq<Token>, op: BinOp)
    requires NextOp(ts) == Some(op)
    ensures ts != [] && IsBin(ts[0], op)
  {
  }

  lemma {:induction false} ExpandIsProper(t: Tree, ts: seq<Token>, at: nat, limit: nat)
    requires at <= |ts| && Reads(t, ts, ts[at..]) && Above(t, limit) && Expand(t, ts[at..], limit).Some?
    ensures var p := Expand(t, ts[at..], limit).value; Reads(p.t, ts, p.rest) && Above(p.t, limit) && StopsAt(p.rest, limit)
    decreases |ts| - at, 2
  {
    hide Reads, ParseSub, Stops, Size, Spells, Proper, Right;
    var cur := ts[at..];
    var op := NextOp(cur);
    if op.Some? && Left(op.value) > limit {
      var p := ParseSub(cur[1..], Right(op.value)).value;
      SubIsProper(cur[1..], Right(op.value));
      ReadsNext(op.value, t, p.t, ts, at, p.rest);
      ExpandIsProper(Bin(op.value, t, p.t), ts, at + 1 + Size(p.t), limit);
    }
  }

  lemma {:induction false} SubIsProper(ts: seq<Token>, limit: nat)
    requires ParseSub(ts, limit).Some?
    ensures var p := ParseSub(ts, limit).value; Reads(p.t, ts, p.rest) && Above(p.t, limit) && StopsAt(p.rest, limit)
    ensures Stops(ParseSub(ts, limit).value.t, ParseSub(ts, limit).value.rest)
    decreases |ts|, 1
  {
    hide Reads, ParseFirst, Stops, StopsAt;
    FirstIsProper(ts);
    var p := ParseFirst(ts).value;
    SizeFits(p.t, ts, p.rest);
    ExpandIsProper(p.t, ts, Size(p.t), limit);
    var q := ParseSub(ts, limit).value;
    SizeFits(q.t, ts, q.rest);
  }

  // ---- everything that is proper is read ----

  lemma {:induction false} AboveZero(t: Tree)
    ensures Above(t, 0)
  {
    if t.Bin? { AboveZero(t.l); }
  }

  lemma {:induction false} Along(t: Tree, ts: seq<Token>, rest: seq<Token>, limit: nat)
    requires Reads(t, ts, rest) && Above(t, limit)
    ensures ParseSub(ts, limit) == Expand(t, rest, limit)
    decreases t, 1
  {
    hide Reads, Stops, StopsAt, Spells, Proper, Size, Above, Expand;
    SizeFits(t, ts, rest);
    match t
    case Leaf(a) => LeafSize(a); ReadsLeaf(a, ts, rest);
    case Paren(x) => AlongParen(x, ts, rest, limit);
    case Un(u, x) => AlongUn(u, x, ts, rest, limit);
    case Bin(op, l, r) => AlongBin(op, l, r, ts, rest, limit);
  }

  lemma LeafSize(a: Operand)
    ensures Size(Leaf(a)) == 1
  {
  }

  lemma {:induction false} AlongParen(x: Tree, ts: seq<Token>, rest: seq<Token>, limit: nat)
    requires Reads(Paren(x), ts, rest)
    ensures ParseSub(ts, limit) == Expand(Paren(x), rest, limit)
    decreases Paren(x), 0
  {
    hide Reads, Stops, StopsAt, Spells, Proper, Size, Above, Expand;
    SizeFits(Paren(x), ts, rest);
    SizeIs(x);
    ReadsParen(x, ts, rest);
    AboveZero(x);
    CloseStops(ts[Size(x) + 1..]);
    ProperIsRead(x, ts[1..], ts[Size(x) + 1..], 0);
  }

  lemma {:induction false} AlongUn(u: UnOp, x: Tree, ts: seq<Token>, rest: seq<Token>, limit: nat)
    requires Reads(Un(u, x), ts, rest)
    ensures ParseSub(ts, limit) == Expand(Un(u, x), rest, limit)
    decreases Un(u, x), 0
  {
    SizeFits(Un(u, x), ts, rest);
    hide Reads, Stops, StopsAt, Spells, Proper, Size, Above, Expand;
    ReadsUn(u, x, ts, rest);
    UnEnds(Un(u, x), rest);
    ProperIsRead(x, ts[1..], rest, UNARY_PRIORITY);
  }

  lemma {:induction false} AlongBin(op: BinOp, l: Tree, r: Tree, ts: seq<Token>, rest: seq<Token>, limit: nat)
    requires Reads(Bin(op, l, r), ts, rest) && Above(Bin(op, l, r), limit)
    ensures ParseSub(ts, limit) == Expand(Bin(op, l, r), rest, limit)
    decreases Bin(op, l, r), 0
  {
    SizeFits(Bin(op, l, r), ts, rest);
    hide Reads, Stops, StopsAt, Spells, Proper, Right, ParseSub;
    ReadsBin(op, l, r, ts, rest);
    BinStops(Bin(op, l, r), rest);
    Along(l, ts, ts[Size(l)..], limit);
    ProperIsRead(r, ts[Size(l) + 1..], rest, Right(op));
  }

  lemma CloseStops(ts: seq<Token>)
    requires ts != [] && ts[0] == Close
    ensures StopsAt(ts, 0)
  {
  }

  lemma UnEnds(t: Tree, rest: seq<Token>)
    requires t.Un? && Stops(t, rest)
    ensures StopsAt(rest, UNARY_PRIORITY)
  {
  }

  lemma {:induction false} ProperIsRead(t: Tree, ts: seq<Token>, rest: seq<Token>, limit: nat)
    requires Reads(t, ts, rest) && Above(t, limit) && StopsAt(rest, limit)
    ensures ParseSub(ts, limit) == Some(Parsed(t, rest))
    decreases t, 2
  {
    hide Reads, ParseSub;
    Along(t, ts, rest, limit);
  }

  /** `subexpr` reads a tree exactly when priorities and associativity make it the
      one meant, and its tokens as far as they belong to it. */
  lemma SubExprIs(ts: seq<Token>, limit: nat, t: Tree, rest: seq<Token>)
    ensures ParseSub(ts, limit) == Some(Parsed(t, rest)) <==> Reads(t, ts, rest) && Above(t, limit) && StopsAt(rest, limit)
  {
    hide *;
    if ParseSub(ts, limit) == Some(Parsed(t, rest)) { SubIsProper(ts, limit); }
    if Reads(t, ts, rest) && Above(t, limit) && StopsAt(rest, limit) { ProperIsRead(t, ts, rest, limit); }
  }
}
