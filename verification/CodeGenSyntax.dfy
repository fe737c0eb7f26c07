/** The expressions of the code generator, as trees that `subexpr` reads. */
module CodeGenSyntax {
  import opened LuaVm
  import opened CodeGenModel
  import opened CodeGenExpr
  import opened CodeGenRoom
  import opened ExprSyntax
  import opened ExprGrammar

  /** Of the unary operators, `not`; of the binary ones, comparisons, `and` and
      `or`. */
  predicate PlainOp(op: BinOp) { op.Compare? || op.And? || op.Or? }

  predicate PlainToken(t: Token) {
    match t case Prefix(u) => u.Not? case Infix(op) => PlainOp(op) case Both(_, _) => false case _ => true
  }

  predicate AllPlain(ts: seq<Token>) { forall i | 0 <= i < |ts| :: PlainToken(ts[i]) }

  predicate IsPlain(t: Tree) {
    match t
    case Leaf(_) => true
    case Paren(x) => IsPlain(x)
    case Un(u, x) => u.Not? && IsPlain(x)
    case Bin(op, l, r) => PlainOp(op) && IsPlain(l) && IsPlain(r)
  }

  /** The tokens only name registers of active locals. */
  predicate NamesIn(ts: seq<Token>, n: nat) {
    forall i | 0 <= i < |ts| :: ts[i].Opnd? && ts[i].a.Local? ==> ts[i].a.reg < n
  }

  function LowerLeaf(a: Operand): Expr {
    match a
    case NilWord => ENil
    case TrueWord => ETrue
    case FalseWord => EFalse
    case Integer(i) => EInt(i)
    case Float(r) => EFlt(r)
    case Text(s) => EStr(s)
    case Local(r) => ELocal(r)
  }

  function Combine(op: BinOp, x: Expr, y: Expr): Expr
    requires PlainOp(op)
  {
    match op
    case Compare(c) => ECompare(c, x, y)
    case And => ELogic(true, x, y)
    case Or => ELogic(false, x, y)
  }

  function Lower(t: Tree): Expr
    requires IsPlain(t)
  {
    match t
    case Leaf(a) => LowerLeaf(a)
    case Paren(x) => EParen(Lower(x))
    case Un(_, x) => ENot(Lower(x))
    case Bin(op, l, r) => Combine(op, Lower(l), Lower(r))
  }

  // ---- what an expression means ----

  function OperandValue(R: Regs, a: Operand): Value {
    match a
    case NilWord => Nil
    case TrueWord => Bool(true)
    case FalseWord => Bool(false)
    case Integer(i) => Int(i)
    case Float(r) => Flt(r)
    case Text(s) => Str(s)
    case Local(r) => Get(R, r)
  }

  /** The value of an expression, as section 3.4 of the Lua 5.3 manual gives it:
      `and` and `or` return one of their operands, and the second only if the
      first does not decide. */
  function Meaning(E: Env, R: Regs, t: Tree): Value
    requires IsPlain(t)
  {
    match t
    case Leaf(a) => OperandValue(R, a)
    case Paren(x) => Meaning(E, R, x)
    case Un(_, x) => if Meaning(E, R, x) in {Nil, Bool(false)} then Bool(true) else Bool(false)
    case Bin(op, l, r) =>
      var v := Meaning(E, R, l);
      match op
      case And => if v in {Nil, Bool(false)} then v else Meaning(E, R, r)
      case Or => if v in {Nil, Bool(false)} then Meaning(E, R, r) else v
      case Compare(rel) =>
        var w := Meaning(E, R, r);
        match rel
        case OpEq => Bool(E.eq(v, w))
        case OpNe => Bool(!E.eq(v, w))
        case OpLt => Bool(E.lt(v, w))
        case OpLe => Bool(E.le(v, w))
        case OpGt => Bool(E.lt(w, v))
        case OpGe => Bool(E.le(w, v))
  }

  lemma {:induction false} LowerMeans(E: Env, R: Regs, t: Tree)
    requires IsPlain(t)
    ensures Eval(E, R, Lower(t)) == Meaning(E, R, t)
  {
    hide Get, LocalsIn;
    match t
    case Leaf(_) =>
    case Paren(x) => LowerMeans(E, R, x);
    case Un(_, x) => LowerMeans(E, R, x);
    case Bin(_, l, r) => LowerMeans(E, R, l); LowerMeans(E, R, r);
  }

  lemma {:induction false} PlainTree(t: Tree, ts: seq<Token>, n: nat)
    requires Spells(t, ts) && AllPlain(ts)
    ensures IsPlain(t) && (NamesIn(ts, n) ==> LocalsIn(Lower(t), n))
    decreases t
  {
    hide PlainOp;
    match t
    case Leaf(_) => assert ts[0].Opnd?;
    case Paren(x) => PlainTree(x, ts[1..|ts| - 1], n);
    case Un(_, x) =>
      assert PlainToken(ts[0]);
      PlainTree(x, ts[1..], n);
    case Bin(op, l, r) =>
      assert PlainToken(ts[Size(l)]);
      PlainTree(l, ts[..Size(l)], n);
      PlainTree(r, ts[Size(l) + 1..], n);
  }

  /** The tokens begin with an expression that has no other operators. */
  predicate PlainSub(ts: seq<Token>, limit: nat) { ParseSub(ts, limit).Some? && IsPlain(ParseSub(ts, limit).value.t) }

  predicate PlainFirst(ts: seq<Token>) { ParseFirst(ts).Some? && IsPlain(ParseFirst(ts).value.t) }

  /** If the tokens begin with an expression, it has no other operators and names
      active locals. */
  ghost predicate Compilable(ts: seq<Token>, n: nat) {
    forall t, rest | Expression(t, ts, rest) :: IsPlain(t) && LocalsIn(Lower(t), n)
  }

  /** That is so if the tokens of the expression are; the others do not matter. */
  lemma PlainRead(ts: seq<Token>, n: nat)
    requires forall t, rest | Expression(t, ts, rest) :: AllPlain(ts[..|ts| - |rest|]) && NamesIn(ts[..|ts| - |rest|], n)
    ensures Compilable(ts, n)
  {
    hide Spells, OrExp, IsPlain, Lower, LocalsIn;
    forall t, rest | Expression(t, ts, rest) ensures IsPlain(t) && LocalsIn(Lower(t), n) {
      assert ts[..|ts| - |rest|] == ts[..Size(t)];
      PlainTree(t, ts[..Size(t)], n);
    }
  }

  /** The expression that is read is the one the grammar derives, and the only
      one. */
  lemma ReadIs(ts: seq<Token>, n: nat)
    requires Compilable(ts, n)
    ensures ParseSub(ts, 0).Some? <==> exists t, rest :: Expression(t, ts, rest)
    ensures ParseSub(ts, 0).Some? ==> var p := ParseSub(ts, 0).value;
      Expression(p.t, ts, p.rest) && PlainSub(ts, 0) && LocalsIn(Lower(p.t), n)
    ensures forall t, rest | Expression(t, ts, rest) :: ParseSub(ts, 0) == Some(Parsed(t, rest))
  {
    hide Expression, ParseSub, IsPlain, Lower, LocalsIn;
    if ParseSub(ts, 0).Some? { ExpressionIs(ts, ParseSub(ts, 0).value.t, ParseSub(ts, 0).value.rest); }
    forall t, rest | Expression(t, ts, rest) ensures ParseSub(ts, 0) == Some(Parsed(t, rest)) { ExpressionIs(ts, t, rest); }
  }

  /** Operators are never taken back. */
  lemma {:induction false} ExpandKeeps(t: Tree, ts: seq<Token>, limit: nat)
    requires !IsPlain(t)
    ensures Expand(t, ts, limit).Some? ==> !IsPlain(Expand(t, ts, limit).value.t)
    decreases |ts|
  {
    hide ParseSub;
    var op := NextOp(ts);
    if op.Some? && Left(op.value) > limit {
      match ParseSub(ts[1..], Right(op.value))
      case None =>
      case Some(p) => ExpandKeeps(Bin(op.value, t, p.t), p.rest, limit);
    }
  }

  lemma FirstNotPlain(ts: seq<Token>, limit: nat)
    requires !PlainFirst(ts)
    ensures !PlainSub(ts, limit)
  {
    hide ParseFirst, Expand;
    match ParseFirst(ts)
    case None =>
    case Some(p) => ExpandKeeps(p.t, p.rest, limit);
  }

  lemma PlainSubIs(ts: seq<Token>, limit: nat)
    requires PlainSub(ts, limit)
    ensures ParseSub(ts, limit).Some? && IsPlain(ParseSub(ts, limit).value.t)
  {
  }

  lemma ExpandNotPlain(t: Tree, ts: seq<Token>, limit: nat)
    requires NextOp(ts).Some? && Left(NextOp(ts).value) > limit
    requires !PlainOp(NextOp(ts).value) || !PlainSub(ts[1..], Right(NextOp(ts).value))
    ensures Expand(t, ts, limit).Some? ==> !IsPlain(Expand(t, ts, limit).value.t)
  {
    hide ParseSub;
    var op := NextOp(ts).value;
    match ParseSub(ts[1..], Right(op))
    case None =>
    case Some(p) => ExpandKeeps(Bin(op, t, p.t), p.rest, limit);
  }

  /** The cost of an expression is bounded by the number of its tokens. */
  predicate Affordable(x: Expr, n: nat) { CodeCost(x) <= 12 * n && ConstCost(x) <= 2 * n && Need(x) <= n }

  lemma CompareBound(op: CmpOp, x: Expr, y: Expr, n: nat, m: nat)
    requires Affordable(x, n) && Affordable(y, m)
    ensures Affordable(ECompare(op, x, y), n + 1 + m)
  {
  }

  lemma LogicBound(isAnd: bool, x: Expr, y: Expr, n: nat, m: nat)
    requires Affordable(x, n) && Affordable(y, m)
    ensures Affordable(ELogic(isAnd, x, y), n + 1 + m)
  {
  }

  lemma BinBound(op: BinOp, x: Expr, y: Expr, n: nat, m: nat)
    requires PlainOp(op) && Affordable(x, n) && Affordable(y, m)
    ensures Affordable(Combine(op, x, y), n + 1 + m)
  {
    hide Affordable;
    match op
    case Compare(c) => CompareBound(c, x, y, n, m);
    case And => LogicBound(true, x, y, n, m);
    case Or => LogicBound(false, x, y, n, m);
  }

  lemma UnBound(x: Expr, n: nat)
    requires Affordable(x, n)
    ensures Affordable(ENot(x), 1 + n) && Affordable(EParen(x), n + 2)
  {
  }

  lemma {:induction false} TokensBound(t: Tree)
    requires IsPlain(t)
    ensures Affordable(Lower(t), Size(t))
    decreases t
  {
    hide Affordable, Combine, LowerLeaf;
    match t
    case Leaf(a) => LeafBound(a);
    case Paren(x) => TokensBound(x); UnBound(Lower(x), Size(x));
    case Un(_, x) => TokensBound(x); UnBound(Lower(x), Size(x));
    case Bin(op, l, r) =>
      TokensBound(l);
      TokensBound(r);
      LowerBin(op, l, r);
      BinBound(op, Lower(l), Lower(r), Size(l), Size(r));
  }

  lemma LeafBound(a: Operand)
    ensures Affordable(LowerLeaf(a), 1)
  {
  }

  lemma LowerBin(op: BinOp, l: Tree, r: Tree)
    requires IsPlain(l) && IsPlain(r) && PlainOp(op)
    ensures IsPlain(Bin(op, l, r)) && Lower(Bin(op, l, r)) == Combine(op, Lower(l), Lower(r))
  {
  }
}
