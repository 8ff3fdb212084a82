/** What the elimination of duplicates achieves, said of its result alone: which pairs of operands are
    never left side by side in a chain. */
module ExprResult {
  import opened Common
  import opened KconfigSyntax
  import opened ExprEqual
  import opened ExprDups
  import opened ExprReflexive

  predicate IsTriConstant(s: Symbol) { s == SYM_YES || s == SYM_MOD || s == SYM_NO }

  /** Two alternatives about one symbol that come to a single one: two of the three values of a tristate
      symbol, or a bool symbol and its negation. */
  predicate OrPair(x: Expr, y: Expr) {
    match (x, y)
    case (Comp(Eq, s, k), Comp(Eq, t, l)) =>
      s == t && s.Type().Tristate? && k != l && IsTriConstant(k) && IsTriConstant(l)
    case (Sym(s), Not(Sym(t))) => s == t && s.Type().Bool?
    case (Not(Sym(s)), Sym(t)) => s == t && s.Type().Bool?
    case _ => false
  }

  /** A bool or tristate symbol next to a test that is stronger than it, or that it implies. */
  predicate SymbolWithTest(s: Symbol, op: CmpOp, t: Symbol, k: Symbol) {
    s == t && s.HasTri() && ((op.Eq? && k == SYM_YES) || (op.Ne? && (k == SYM_NO || k == SYM_MOD)))
  }

  /** Two conditions on one symbol that come to a single one. */
  predicate AndPair(x: Expr, y: Expr) {
    match (x, y)
    case (Sym(s), Comp(op, t, k)) => SymbolWithTest(s, op, t, k)
    case (Comp(op, t, k), Sym(s)) => SymbolWithTest(s, op, t, k)
    case (Comp(Eq, s, k), Comp(Ne, t, l)) => s == t && s.Type().Tristate? && k.Const? && l.Const?
    case (Comp(Ne, s, k), Comp(Eq, t, l)) => s == t && s.Type().Tristate? && k.Const? && l.Const?
    case (Comp(Ne, s, k), Comp(Ne, t, l)) =>
      s == t && s.Type().Tristate? && k != l && IsTriConstant(k) && IsTriConstant(l)
    case _ => false
  }

  predicate Pair(op: BinOp, x: Expr, y: Expr) { if op.And? then AndPair(x, y) else OrPair(x, y) }

  lemma OrJoinsExactly(x: Expr, y: Expr)
    requires !ExprEq(x, y)
    ensures JoinOr(x, y).Some? <==> OrPair(x, y)
  {
  }

  lemma AndJoinsExactly(x: Expr, y: Expr)
    requires !ExprEq(x, y)
    ensures JoinAnd(x, y).Some? <==> AndPair(x, y)
  {
  }

  /** Two operands are joined exactly if they are equal for expr_eq, or such a pair. */
  lemma JoinsExactly(op: BinOp, x: Expr, y: Expr)
    ensures Join(op, x, y).Some? <==> ExprEq(x, y) || Pair(op, x, y)
  {
    if !ExprEq(x, y) {
      OrJoinsExactly(x, y);
      AndJoinsExactly(x, y);
    }
  }

  /** In every chain, at every depth, no two operands are the same expression, nor equal for expr_eq, nor
      a pair that comes to a single operand. */
  ghost predicate Irredundant(e: Expr)
    decreases Size(e)
  {
    e.Bin? ==>
      && (forall p: Path, q: Path | IsOperand(e.op, e, p) && IsOperand(e.op, e, q) && p != q ::
            var (x, y) := (At(e.op, e, p), At(e.op, e, q)); x != y && !ExprEq(x, y) && !Pair(e.op, x, y))
      && (forall p: Path | IsOperand(e.op, e, p) :: PathsAreShort(e.op, e, p); p != [] && Irredundant(At(e.op, e, p)))
  }

  lemma {:induction false} SettledIsIrredundant(e: Expr)
    ensures Settled(e) <==> Irredundant(e)
    decreases Size(e)
  {
    if e.Bin? {
      forall x, y ensures Join(e.op, x, y).None? <==> x != y && !ExprEq(x, y) && !Pair(e.op, x, y) {
        JoinsExactly(e.op, x, y);
        if x == y { ExprEqReflexive(x); }
      }
      forall p: Path | IsOperand(e.op, e, p) && p != []
        ensures Size(At(e.op, e, p)) < Size(e) && (Settled(At(e.op, e, p)) <==> Irredundant(At(e.op, e, p)))
      {
        PathsAreShort(e.op, e, p);
        SettledIsIrredundant(At(e.op, e, p));
      }
    }
  }

  /** The result of expr_eliminate_dups is irredundant, and an irredundant expression comes out as it is. */
  lemma ReducedIsIrredundant(e: Expr)
    ensures Irredundant(Reduced(e))
    ensures Irredundant(e) <==> Reduced(e) == e
  {
    ReducedIsSettled(e);
    SettledIsIrredundant(Reduced(e));
    SettledIsIrredundant(e);
    if Settled(e) && e.Bin? { SettledIsQuiet(e, [], []); }
  }
}
