/** The grammar of expressions, level by level as section 3.4.8 of the Lua 5.3
  manual orders the operators, from lower to higher priority. */
module ExprGrammar {
  import opened CodeGenModel
  import opened ExprSyntax

  // ---- the levels ----

  predicate OrExp(t: Tree)
    decreases t, 12
  {
    AndExp(t) || (t.Bin? && t.op.Or? && OrExp(t.l) && AndExp(t.r))
  }

  predicate AndExp(t: Tree)
    decreases t, 11
  {
    ComparisonExp(t) || (t.Bin? && t.op.And? && AndExp(t.l) && ComparisonExp(t.r))
  }

  /** `<`, `>`, `<=`, `>=`, `~=` and `==`. */
  predicate ComparisonExp(t: Tree)
    decreases t, 10
  {
    BOrExp(t) || (t.Bin? && t.op.Compare? && ComparisonExp(t.l) && BOrExp(t.r))
  }

  predicate BOrExp(t: Tree)
    decreases t, 9
  {
    BXorExp(t) || (t.Bin? && t.op.BOr? && BOrExp(t.l) && BXorExp(t.r))
  }

  predicate BXorExp(t: Tree)
    decreases t, 8
  {
    BAndExp(t) || (t.Bin? && t.op.BXor? && BXorExp(t.l) && BAndExp(t.r))
  }

  predicate BAndExp(t: Tree)
    decreases t, 7
  {
    ShiftExp(t) || (t.Bin? && t.op.BAnd? && BAndExp(t.l) && ShiftExp(t.r))
  }

  predicate ShiftExp(t: Tree)
    decreases t, 6
  {
    ConcatExp(t) || (t.Bin? && t.op in {Shl, Shr} && ShiftExp(t.l) && ConcatExp(t.r))
  }

  /** Concatenation associates to the right. */
  predicate ConcatExp(t: Tree)
    decreases t, 5
  {
    SumExp(t) || (t.Bin? && t.op.Concat? && SumExp(t.l) && ConcatExp(t.r))
  }

  predicate SumExp(t: Tree)
    decreases t, 4
  {
    ProductExp(t) || (t.Bin? && t.op in {Add, Sub} && SumExp(t.l) && ProductExp(t.r))
  }

  predicate ProductExp(t: Tree)
    decreases t, 3
  {
    UnaryExp(t) || (t.Bin? && t.op in {Mul, Div, IDiv, Mod} && ProductExp(t.l) && UnaryExp(t.r))
  }

  predicate UnaryExp(t: Tree)
    decreases t, 2
  {
    PowerExp(t) || (t.Un? && UnaryExp(t.t))
  }

  /** Exponentiation associates to the right, and the exponent may have unary
      operators. */
  predicate PowerExp(t: Tree)
    decreases t, 1
  {
    SimpleExp(t) || (t.Bin? && t.op.Pow? && SimpleExp(t.l) && UnaryExp(t.r))
  }

  predicate SimpleExp(t: Tree)
    decreases t, 0
  {
    t.Leaf? || (t.Paren? && OrExp(t.t))
  }

  /** A binary operator may be read from the token. */
  predicate MayBeBinary(t: Token) { t.Infix? || t.Both? }

  /** The grammar derives `t` from the first of the tokens `ts`; `rest` follows, and
      no binary operator goes on with the expression. */
  predicate Expression(t: Tree, ts: seq<Token>, rest: seq<Token>) {
    && OrExp(t) && Size(t) <= |ts| && Spells(t, ts[..Size(t)]) && rest == ts[Size(t)..]
    && (rest != [] ==> !MayBeBinary(rest[0]))
  }

  // ---- the levels are what the priorities say ----

  predicate AtLeast(t: Tree, q: nat) { t.Bin? ==> q <= Left(t.op) }

  lemma {:induction false} EndsLess(t: Tree, q: nat, p: nat)
    requires Ends(t, q) && p <= q
    ensures Ends(t, p)
  {
    match t
    case Un(_, x) => EndsLess(x, q, p);
    case Bin(_, _, r) => EndsLess(r, q, p);
    case _ =>
  }

  lemma {:induction false} EndsAbove(t: Tree, q: nat)
    requires Proper(t) && Ends(t, q) && q > 0
    ensures Above(t, q - 1)
  {
    if t.Bin? {
      EndsLess(t.l, Left(t.op), q);
      EndsAbove(t.l, q);
    }
  }

  lemma AboveIs(t: Tree, n: nat)
    requires Proper(t)
    ensures Above(t, n) <==> AtLeast(t, n + 1)
  {
    if t.Bin? && n < Left(t.op) {
      EndsLess(t.l, Left(t.op), n + 1);
      EndsAbove(t.l, n + 1);
    }
  }

  lemma {:induction false} EndsIs(t: Tree, q: nat)
    requires Proper(t)
    ensures q <= UNARY_PRIORITY ==> (Ends(t, q) <==> (t.Bin? ==> q <= Right(t.op)))
    ensures q == Left(Pow) ==> (Ends(t, q) <==> t.Leaf? || t.Paren?)
  {
    match t
    case Un(_, x) =>
      EndsIs(x, q);
      AboveIs(x, UNARY_PRIORITY);
    case Bin(op, _, r) =>
      EndsIs(r, q);
      AboveIs(r, Right(op));
    case _ =>
  }

  lemma ProperUn(u: UnOp, x: Tree)
    ensures Proper(Un(u, x)) <==> Proper(x) && AtLeast(x, 13)
  {
    hide Above, AtLeast;
    if Proper(x) { AboveIs(x, UNARY_PRIORITY); }
  }

  predicate Operands(op: BinOp, l: Tree, r: Tree) {
    match op
    case Pow => !l.Bin? && !l.Un? && AtLeast(r, 14)
    case Concat => AtLeast(l, 10) && AtLeast(r, 9)
    case _ => AtLeast(l, Left(op)) && AtLeast(r, Left(op) + 1)
  }

  lemma ProperBin(op: BinOp, l: Tree, r: Tree)
    ensures Proper(Bin(op, l, r)) <==> Proper(l) && Proper(r) && Operands(op, l, r)
  {
    hide Above, Ends;
    if Proper(l) && Proper(r) {
      AboveIs(r, Right(op));
      EndsIs(l, Left(op));
    }
  }

  lemma {:induction false} Levels(t: Tree)
    ensures SimpleExp(t) <==> Proper(t) && !t.Bin? && !t.Un?
    ensures PowerExp(t) <==> Proper(t) && AtLeast(t, 14) && !t.Un?
    ensures UnaryExp(t) <==> Proper(t) && AtLeast(t, 14)
    ensures ProductExp(t) <==> Proper(t) && AtLeast(t, 11)
    ensures SumExp(t) <==> Proper(t) && AtLeast(t, 10)
    ensures ConcatExp(t) <==> Proper(t) && AtLeast(t, 9)
    ensures ShiftExp(t) <==> Proper(t) && AtLeast(t, 7)
    ensures BAndExp(t) <==> Proper(t) && AtLeast(t, 6)
    ensures BXorExp(t) <==> Proper(t) && AtLeast(t, 5)
    ensures BOrExp(t) <==> Proper(t) && AtLeast(t, 4)
    ensures ComparisonExp(t) <==> Proper(t) && AtLeast(t, 3)
    ensures AndExp(t) <==> Proper(t) && AtLeast(t, 2)
    ensures OrExp(t) <==> Proper(t)
  {
    hide Ends, Above;
    match t
    case Leaf(_) =>
    case Paren(x) => Levels(x);
    case Un(u, x) => Levels(x); ProperUn(u, x);
    case Bin(op, l, r) => Levels(l); Levels(r); ProperBin(op, l, r);
    hide Proper;
    assert SimpleExp(t) <==> Proper(t) && !t.Bin? && !t.Un?;
    assert PowerExp(t) <==> Proper(t) && AtLeast(t, 14) && !t.Un?;
    assert UnaryExp(t) <==> Proper(t) && AtLeast(t, 14);
    assert ProductExp(t) <==> Proper(t) && AtLeast(t, 11);
    assert SumExp(t) <==> Proper(t) && AtLeast(t, 10);
    assert ConcatExp(t) <==> Proper(t) && AtLeast(t, 9);
    assert ShiftExp(t) <==> Proper(t) && AtLeast(t, 7);
    assert BAndExp(t) <==> Proper(t) && AtLeast(t, 6);
    assert BXorExp(t) <==> Proper(t) && AtLeast(t, 5);
    assert BOrExp(t) <==> Proper(t) && AtLeast(t, 4);
    assert ComparisonExp(t) <==> Proper(t) && AtLeast(t, 3);
    assert AndExp(t) <==> Proper(t) && AtLeast(t, 2);
  }

  /** What `subexpr` reads is what the grammar derives. */
  lemma ExpressionIs(ts: seq<Token>, t: Tree, rest: seq<Token>)
    ensures ParseSub(ts, 0) == Some(Parsed(t, rest)) <==> Expression(t, ts, rest)
  {
    hide ParseSub, Spells, Size, Proper, OrExp, Above, Ends;
    SubExprIs(ts, 0, t, rest);
    AboveZero(t);
    Levels(t);
  }
}
