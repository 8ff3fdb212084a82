/** Normalisation by De Morgan's laws, and the boolean relaxation. */
module ExprTransform {
  import opened Common
  import opened KconfigSyntax

  /** De Morgan enlarges the tree; this weight still goes down, because a negation counts double. */
  function Weight(e: Expr): nat
    ensures Weight(e) >= 1
  {
    match e
    case Sym(_) => 1
    case Comp(_, _, _) => 2
    case Not(a) => 2 * Weight(a)
    case Bin(_, l, r) => 1 + Weight(l) + Weight(r)
  }

  function Dual(op: BinOp): BinOp { if op.And? then Or else And }

  function Opposite(op: CmpOp): CmpOp {
    match op
    case Eq => Ne
    case Ne => Eq
    case Le => Gt
    case Gt => Le
    case Ge => Lt
    case Lt => Ge
  }

  /** A test of a bool symbol against y, m or n becomes the symbol, its negation or a constant. */
  function TransformTest(e: Expr): Expr
    requires e.Comp?
  {
    if !(e.cmp.Eq? || e.cmp.Ne?) || !e.lhs.Type().Bool? then e
    else if e.rhs == (if e.cmp.Eq? then SYM_NO else SYM_YES) then Not(Sym(e.lhs))
    else if e.rhs == SYM_MOD then Sym(if e.cmp.Eq? then SYM_NO else SYM_YES)
    else if e.rhs == (if e.cmp.Eq? then SYM_YES else SYM_NO) then Sym(e.lhs)
    else e
  }

  lemma DeMorganIsLighter(op: BinOp, l: Expr, r: Expr)
    ensures Weight(Bin(Dual(op), Not(l), Not(r))) < Weight(Not(Bin(op, l, r)))
  {
    assert Weight(Not(l)) == 2 * Weight(l) && Weight(Not(r)) == 2 * Weight(r);
  }

  /** expr_transform */
  function Transform(e: Expr): (r: Expr)
    ensures Weight(r) <= Weight(e)
    decreases Weight(e)
  {
    match e
    case Sym(_) => e
    case Comp(_, _, _) => TransformTest(e)
    case Bin(op, l, r) => Bin(op, Transform(l), Transform(r))
    case Not(x) =>
      var a := Transform(x);
      match a
      case Not(b) => Transform(b)
      case Comp(op, s, t) => Comp(Opposite(op), s, t)
      case Bin(op, l, r) =>
        DeMorganIsLighter(op, l, r);
        Transform(Bin(Dual(op), Not(l), Not(r)))
      case Sym(s) =>
        if s == SYM_YES then Sym(SYM_NO)
        else if s == SYM_MOD then Sym(SYM_MOD)
        else if s == SYM_NO then Sym(SYM_YES)
        else Not(a)
  }

  /** No bool symbol is tested against y, m or n, and E_NOT sits only above a symbol other than
      these three. */
  predicate Normal(e: Expr) {
    match e
    case Sym(_) => true
    case Comp(_, _, _) => TransformTest(e) == e
    case Not(a) => a.Sym? && a.sym !in {SYM_YES, SYM_MOD, SYM_NO}
    case Bin(_, l, r) => Normal(l) && Normal(r)
  }

  /** The value of a negated comparison is the opposite comparison. */
  lemma NegatedComparison(v: Valuation, op: CmpOp, a: Symbol, b: Symbol)
    ensures Eval(v, Comp(Opposite(op), a, b)) == 2 - Eval(v, Comp(op, a, b))
  {
  }

  lemma DeMorgan(v: Valuation, op: BinOp, l: Expr, r: Expr)
    ensures Eval(v, Bin(Dual(op), Not(l), Not(r))) == 2 - Eval(v, Bin(op, l, r))
  {
  }

  lemma TestKeepsValue(v: Valuation, e: Expr)
    requires Proper(v) && e.Comp?
    ensures Eval(v, TransformTest(e)) == Eval(v, e)
  {
    assert v.str(SYM_YES) == "y" && v.str(SYM_MOD) == "m" && v.str(SYM_NO) == "n";
  }

  /** expr_transform keeps the value under every assignment. */
  lemma {:induction false} TransformKeepsValue(v: Valuation, e: Expr)
    requires Proper(v)
    ensures Eval(v, Transform(e)) == Eval(v, e)
    decreases Weight(e)
  {
    match e
    case Sym(_) =>
    case Comp(_, _, _) => TestKeepsValue(v, e);
    case Bin(_, l, r) =>
      TransformKeepsValue(v, l);
      TransformKeepsValue(v, r);
    case Not(x) =>
      TransformKeepsValue(v, x);
      match Transform(x)
      case Not(b) => TransformKeepsValue(v, b);
      case Comp(op, s, t) => NegatedComparison(v, op, s, t);
      case Bin(op, l, r) =>
        DeMorganIsLighter(op, l, r);
        TransformKeepsValue(v, Bin(Dual(op), Not(l), Not(r)));
        DeMorgan(v, op, l, r);
      case Sym(_) =>
  }

  /** The result is normal: no negation is left above an operator, a comparison, y, m or n. */
  lemma {:induction false} TransformIsNormal(e: Expr)
    ensures Normal(Transform(e))
    decreases Weight(e)
  {
    match e
    case Sym(_) =>
    case Comp(_, _, _) =>
    case Bin(_, l, r) =>
      TransformIsNormal(l);
      TransformIsNormal(r);
    case Not(x) =>
      TransformIsNormal(x);
      match Transform(x)
      case Not(b) => TransformIsNormal(b);
      case Bin(op, l, r) =>
        DeMorganIsLighter(op, l, r);
        TransformIsNormal(Bin(Dual(op), Not(l), Not(r)));
      case _ =>
  }

  /** Normal expressions are exactly the fixed points, so transforming twice is transforming once. */
  lemma {:induction false} NormalIsFixed(e: Expr)
    ensures Normal(e) <==> Transform(e) == e
    ensures Transform(Transform(e)) == Transform(e)
  {
    TransformIsNormal(e);
    if Normal(e) { FixedIfNormal(e); }
    FixedIfNormal(Transform(e));
  }

  lemma {:induction false} FixedIfNormal(e: Expr)
    requires Normal(e)
    ensures Transform(e) == e
  {
    match e
    case Bin(_, l, r) =>
      FixedIfNormal(l);
      FixedIfNormal(r);
    case _ =>
  }

  lemma {:induction false} NormalNegatesSymbols(e: Expr)
    requires Normal(e)
    ensures NegOnSymbols(e)
  {
    match e
    case Bin(_, l, r) =>
      NormalNegatesSymbols(l);
      NormalNegatesSymbols(r);
    case _ =>
  }

  // ---------- what negations are left above ----------

  /** E_NOT stands above a symbol that is no constant, and nowhere else. */
  predicate NegOnVariables(e: Expr) {
    match e
    case Not(a) => a.Sym? && !a.sym.Const?
    case Bin(_, l, r) => NegOnVariables(l) && NegOnVariables(r)
    case _ => true
  }

  /** A constant other than y, m and n is used as a value below an odd number of negations
      (below an even number, if `neg` says that one more negation stands above e). */
  predicate NegatesConstant(e: Expr, neg: bool) {
    match e
    case Sym(s) => neg && s.Const? && s !in {SYM_YES, SYM_MOD, SYM_NO}
    case Not(a) => NegatesConstant(a, !neg)
    case Bin(_, l, r) => NegatesConstant(l, neg) || NegatesConstant(r, neg)
    case Comp(_, _, _) => false
  }

  /** expr_transform moves negations, but keeps their parity above every constant. */
  lemma {:induction false} TransformKeepsParity(e: Expr, neg: bool)
    ensures NegatesConstant(Transform(e), neg) <==> NegatesConstant(e, neg)
    decreases Weight(e)
  {
    match e
    case Sym(_) =>
    case Comp(_, _, _) =>
    case Bin(_, l, r) =>
      TransformKeepsParity(l, neg);
      TransformKeepsParity(r, neg);
    case Not(x) =>
      TransformKeepsParity(x, !neg);
      match Transform(x)
      case Not(b) => TransformKeepsParity(b, neg);
      case Bin(op, l, r) =>
        DeMorganIsLighter(op, l, r);
        TransformKeepsParity(Bin(Dual(op), Not(l), Not(r)), neg);
      case _ =>
  }

  lemma {:induction false} NormalNegatesVariables(e: Expr)
    requires Normal(e)
    ensures NegOnVariables(e) <==> !NegatesConstant(e, false)
  {
    match e
    case Bin(_, l, r) =>
      NormalNegatesVariables(l);
      NormalNegatesVariables(r);
    case _ =>
  }

  /** Negations are left above proper symbols only, exactly if no constant other than y, m and n
      is used as a value below an odd number of negations. */
  lemma TransformNegatesVariablesExactly(e: Expr)
    ensures NegOnVariables(Transform(e)) <==> !NegatesConstant(e, false)
  {
    TransformIsNormal(e);
    NormalNegatesVariables(Transform(e));
    TransformKeepsParity(e, false);
  }

  /** The negation of a quoted constant is left as it is. */
  lemma NegatedConstantIsLeft(name: string)
    requires Const(name) !in {SYM_YES, SYM_MOD, SYM_NO}
    ensures var e := Not(Sym(Const(name))); Transform(e) == e && Normal(e) && !NegOnVariables(e)
  {
  }

  lemma {:induction false} TransformUsesOnly(e: Expr, S: set<Symbol>)
    requires UsesOnly(e, S)
    ensures UsesOnly(Transform(e), S)
    decreases Weight(e)
  {
    match e
    case Sym(_) =>
    case Comp(_, _, _) =>
    case Bin(_, l, r) =>
      TransformUsesOnly(l, S);
      TransformUsesOnly(r, S);
    case Not(x) =>
      TransformUsesOnly(x, S);
      match Transform(x)
      case Not(b) => TransformUsesOnly(b, S);
      case Bin(op, l, r) =>
        DeMorganIsLighter(op, l, r);
        TransformUsesOnly(Bin(Dual(op), Not(l), Not(r)), S);
      case _ =>
  }

  // ---------- expr_trans_bool ----------

  /** expr_trans_bool */
  function TransBool(e: Expr): Expr {
    match e
    case Bin(op, l, r) => Bin(op, TransBool(l), TransBool(r))
    case Not(a) => Not(TransBool(a))
    case Comp(op, s, t) => if op.Ne? && s.Type().Tristate? && t == SYM_NO then Sym(s) else e
    case Sym(_) => e
  }

  /** A relaxed test may answer mod where it answered yes, which no longer matters once "not no"
      is all that is asked, provided that negation sits on symbols only. */
  lemma {:induction false} TransBoolKeepsVisible(v: Valuation, e: Expr)
    requires Proper(v) && NegOnSymbols(e)
    ensures Eval(v, TransBool(e)) != NO <==> Eval(v, e) != NO
    ensures NegOnSymbols(TransBool(e))
  {
    match e
    case Bin(_, l, r) =>
      TransBoolKeepsVisible(v, l);
      TransBoolKeepsVisible(v, r);
    case Comp(_, s, t) =>
      assert v.str(SYM_NO) == "n";
    case _ =>
  }

  /** Under a negation the relaxation is wrong exactly for the value mod. */
  lemma TransBoolUnderNot(v: Valuation, s: Symbol)
    requires Proper(v) && s.Type().Tristate?
    ensures var e := Not(Comp(Ne, s, SYM_NO));
            (Eval(v, TransBool(e)) != NO <==> Eval(v, e) != NO) <==> v.tri(s) != MOD
  {
    assert v.str(SYM_NO) == "n";
  }
}
