/** Constant folding, the common-factor cancellation of two expressions, and the equality
    test built on it (the three functions call each other in a cycle). */
module ExprEqual {
  import opened KconfigSyntax

  /** expr_eliminate_yn */
  function EliminateYn(e: Expr): (r: Expr)
    ensures Size(r) <= Size(e)
  {
    match e
    case Bin(op, l, r) =>
      var l' := EliminateYn(l);
      var r' := EliminateYn(r);
      if l' == Sym(Zero(op)) || r' == Sym(Zero(op)) then Sym(Zero(op))
      else if l' == Sym(Unit(op)) then r'
      else if r' == Sym(Unit(op)) then l'
      else Bin(op, l', r')
    case _ => e
  }

  /** __expr_eliminate_eq: replaces every pair of equal operands of the two `op` chains by
      the neutral constant. The second walk sees what the first one left of e2 (or e1). */
  function Cancel(op: BinOp, e1: Expr, e2: Expr): (r: (Expr, Expr))
    ensures Size(r.0) <= Size(e1) && Size(r.1) <= Size(e2)
    decreases Size(e1) + Size(e2), if e1.IsBin(op) || e2.IsBin(op) then 0 else 4
  {
    if e1.IsBin(op) then
      var (l, e2') := Cancel(op, e1.left, e2);
      var (r, e2'') := Cancel(op, e1.right, e2');
      (Bin(op, l, r), e2'')
    else if e2.IsBin(op) then
      var (e1', l) := Cancel(op, e1, e2.left);
      var (e1'', r) := Cancel(op, e1', e2.right);
      (e1'', Bin(op, l, r))
    else if e1 == e2 && IsYesOrNo(e1) then (e1, e2)
    else if !ExprEq(e1, e2) then (e1, e2)
    else (Sym(Unit(op)), Sym(Unit(op)))
  }

  /** expr_eliminate_eq before folding */
  function CancelBoth(e1: Expr, e2: Expr): (r: (Expr, Expr))
    ensures Size(r.0) <= Size(e1) && Size(r.1) <= Size(e2)
    decreases Size(e1) + Size(e2), 1
  {
    var (a1, a2) := if e1.Bin? then Cancel(e1.op, e1, e2) else (e1, e2);
    if a2.Bin? && !a1.IsBin(a2.op) then Cancel(a2.op, a1, a2) else (a1, a2)
  }

  /** expr_eliminate_eq */
  function EliminateEq(e1: Expr, e2: Expr): (r: (Expr, Expr))
    decreases Size(e1) + Size(e2), 2
  {
    var (a1, a2) := CancelBoth(e1, e2);
    (EliminateYn(a1), EliminateYn(a2))
  }

  /** expr_eq */
  predicate ExprEq(e1: Expr, e2: Expr)
    decreases Size(e1) + Size(e2), 3
  {
    match (e1, e2)
    case (Comp(o1, a1, b1), Comp(o2, a2, b2)) => o1 == o2 && a1 == a2 && b1 == b2
    case (Sym(s1), Sym(s2)) => s1 == s2
    case (Not(a1), Not(a2)) => ExprEq(a1, a2)
    case (Bin(o1, _, _), Bin(o2, _, _)) =>
      o1 == o2 && var (r1, r2) := EliminateEq(e1, e2); r1.Sym? && r2.Sym? && r1.sym == r2.sym
    case _ => false
  }

  /** Folding keeps the value. */
  lemma {:induction false} YnKeepsValue(v: Valuation, e: Expr)
    requires Proper(v)
    ensures Eval(v, EliminateYn(e)) == Eval(v, e)
  {
    match e
    case Bin(op, l, r) =>
      YnKeepsValue(v, l);
      YnKeepsValue(v, r);
    case _ =>
  }

  lemma {:induction false} YnKeepsNegOnSymbols(e: Expr)
    requires NegOnSymbols(e)
    ensures NegOnSymbols(EliminateYn(e))
  {
    match e
    case Bin(op, l, r) =>
      YnKeepsNegOnSymbols(l);
      YnKeepsNegOnSymbols(r);
    case _ =>
  }

  lemma {:induction false} YnUsesOnly(e: Expr, S: set<Symbol>)
    requires UsesOnly(e, S)
    ensures UsesOnly(EliminateYn(e), S)
  {
    match e
    case Bin(op, l, r) =>
      YnUsesOnly(l, S);
      YnUsesOnly(r, S);
    case _ =>
  }

  /** An operator node with a constant yes or no operand, reachable through operator nodes. */
  predicate Foldable(e: Expr) {
    e.Bin? && (IsYesOrNo(e.left) || IsYesOrNo(e.right) || Foldable(e.left) || Foldable(e.right))
  }

  /** Folding shrinks an expression exactly when there is something to fold. */
  lemma {:induction false} YnShrinks(e: Expr)
    ensures Size(EliminateYn(e)) < Size(e) <==> Foldable(e)
    ensures !Foldable(e) ==> EliminateYn(e) == e
    ensures !Foldable(EliminateYn(e))
  {
    match e
    case Bin(op, l, r) =>
      YnShrinks(l);
      YnShrinks(r);
    case _ =>
  }

  /** What Cancel took out of both sides: the removed operands joined by the operator. */
  ghost function Factor(op: BinOp, e1: Expr, e2: Expr): Expr
    decreases Size(e1) + Size(e2)
  {
    if e1.IsBin(op) then
      var e2' := Cancel(op, e1.left, e2).1;
      Bin(op, Factor(op, e1.left, e2), Factor(op, e1.right, e2'))
    else if e2.IsBin(op) then
      var e1' := Cancel(op, e1, e2.left).0;
      Bin(op, Factor(op, e1, e2.left), Factor(op, e1', e2.right))
    else if (e1 == e2 && IsYesOrNo(e1)) || !ExprEq(e1, e2) then Sym(Unit(op))
    else e1
  }

  lemma Regroup(op: BinOp, x: Tri, y: Tri, c: Tri, d: Tri)
    ensures Combine(op, Combine(op, x, c), Combine(op, y, d)) == Combine(op, Combine(op, x, y), Combine(op, c, d))
    ensures Combine(op, Combine(op, x, d), c) == Combine(op, x, Combine(op, c, d))
  {
  }

  /** Both operands are their residue joined with the same factor. */
  lemma {:induction false} CancelRemovesFactor(v: Valuation, op: BinOp, e1: Expr, e2: Expr)
    requires Proper(v)
    ensures Eval(v, e1) == Combine(op, Eval(v, Cancel(op, e1, e2).0), Eval(v, Factor(op, e1, e2)))
    ensures Eval(v, e2) == Combine(op, Eval(v, Cancel(op, e1, e2).1), Eval(v, Factor(op, e1, e2)))
    decreases Size(e1) + Size(e2), if e1.IsBin(op) || e2.IsBin(op) then 0 else 4
  {
    if e1.IsBin(op) {
      var (l, e2') := Cancel(op, e1.left, e2);
      var (r, e2'') := Cancel(op, e1.right, e2');
      CancelRemovesFactor(v, op, e1.left, e2);
      CancelRemovesFactor(v, op, e1.right, e2');
      var (c, d) := (Factor(op, e1.left, e2), Factor(op, e1.right, e2'));
      Regroup(op, Eval(v, l), Eval(v, r), Eval(v, c), Eval(v, d));
      Regroup(op, Eval(v, e2''), NO, Eval(v, c), Eval(v, d));
    } else if e2.IsBin(op) {
      var (e1', l) := Cancel(op, e1, e2.left);
      var (e1'', r) := Cancel(op, e1', e2.right);
      CancelRemovesFactor(v, op, e1, e2.left);
      CancelRemovesFactor(v, op, e1', e2.right);
      var (c, d) := (Factor(op, e1, e2.left), Factor(op, e1', e2.right));
      Regroup(op, Eval(v, l), Eval(v, r), Eval(v, c), Eval(v, d));
      Regroup(op, Eval(v, e1''), NO, Eval(v, c), Eval(v, d));
    } else if ExprEq(e1, e2) {
      ExprEqSound(v, e1, e2);
    }
  }

  /** `b` is `a` with some operands of its `op` chain replaced by the neutral constant. */
  predicate Blanked(op: BinOp, a: Expr, b: Expr) {
    if a.IsBin(op) then b.IsBin(op) && Blanked(op, a.left, b.left) && Blanked(op, a.right, b.right)
    else b == a || b == Sym(Unit(op))
  }

  /** No operand of one chain equals an operand of the other, constants yes and no aside. */
  predicate NothingShared(op: BinOp, a: Expr, b: Expr)
    decreases Size(a) + Size(b)
  {
    if a.IsBin(op) then NothingShared(op, a.left, b) && NothingShared(op, a.right, b)
    else if b.IsBin(op) then NothingShared(op, a, b.left) && NothingShared(op, a, b.right)
    else ExprEq(a, b) ==> a == b && IsYesOrNo(a)
  }

  lemma {:induction false} BlankedReflexive(op: BinOp, a: Expr)
    ensures Blanked(op, a, a)
  {
    if a.IsBin(op) {
      BlankedReflexive(op, a.left);
      BlankedReflexive(op, a.right);
    }
  }

  lemma {:induction false} BlankedTransitive(op: BinOp, a: Expr, b: Expr, c: Expr)
    requires Blanked(op, a, b) && Blanked(op, b, c)
    ensures Blanked(op, a, c)
  {
    if a.IsBin(op) {
      BlankedTransitive(op, a.left, b.left, c.left);
      BlankedTransitive(op, a.right, b.right, c.right);
    }
  }

  lemma {:induction false} BlankingSharesNothingNew(op: BinOp, a: Expr, b: Expr, a': Expr, b': Expr)
    requires NothingShared(op, a, b) && Blanked(op, a, a') && Blanked(op, b, b')
    ensures NothingShared(op, a', b')
    decreases Size(a) + Size(b)
  {
    if a.IsBin(op) {
      BlankingSharesNothingNew(op, a.left, b, a'.left, b');
      BlankingSharesNothingNew(op, a.right, b, a'.right, b');
    } else if b.IsBin(op) {
      BlankingSharesNothingNew(op, a, b.left, a', b'.left);
      BlankingSharesNothingNew(op, a, b.right, a', b'.right);
    }
  }

  /** Cancellation only blanks operands, and leaves no equal pair behind. */
  lemma {:induction false} CancelIsMaximal(op: BinOp, e1: Expr, e2: Expr)
    ensures Blanked(op, e1, Cancel(op, e1, e2).0) && Blanked(op, e2, Cancel(op, e1, e2).1)
    ensures NothingShared(op, Cancel(op, e1, e2).0, Cancel(op, e1, e2).1)
    decreases Size(e1) + Size(e2)
  {
    if e1.IsBin(op) {
      var (l, e2') := Cancel(op, e1.left, e2);
      var (r, e2'') := Cancel(op, e1.right, e2');
      CancelIsMaximal(op, e1.left, e2);
      CancelIsMaximal(op, e1.right, e2');
      BlankedTransitive(op, e2, e2', e2'');
      BlankedReflexive(op, l);
      BlankingSharesNothingNew(op, l, e2', l, e2'');
    } else if e2.IsBin(op) {
      var (e1', l) := Cancel(op, e1, e2.left);
      var (e1'', r) := Cancel(op, e1', e2.right);
      CancelIsMaximal(op, e1, e2.left);
      CancelIsMaximal(op, e1', e2.right);
      BlankedTransitive(op, e1, e1', e1'');
      BlankedReflexive(op, l);
      BlankingSharesNothingNew(op, e1', l, e1'', l);
    } else {
      BlankedReflexive(op, e1);
      BlankedReflexive(op, e2);
    }
  }

  /** What surrounds the residues: the operators and factors removed, outermost first. */
  type Context = seq<(BinOp, Expr)>

  ghost function Plug(v: Valuation, ctx: Context, x: Tri): Tri {
    if ctx == [] then x else Combine(ctx[0].0, Plug(v, ctx[1..], x), Eval(v, ctx[0].1))
  }

  ghost function Removed(e1: Expr, e2: Expr): Context {
    var (a1, a2) := if e1.Bin? then Cancel(e1.op, e1, e2) else (e1, e2);
    (if e1.Bin? then [(e1.op, Factor(e1.op, e1, e2))] else []) +
    (if a2.Bin? && !a1.IsBin(a2.op) then [(a2.op, Factor(a2.op, a1, a2))] else [])
  }

  /** expr_eliminate_eq leaves two residues that give back the operands in one common context. */
  lemma {:induction false} EliminateEqFactors(v: Valuation, e1: Expr, e2: Expr)
    requires Proper(v)
    ensures Eval(v, e1) == Plug(v, Removed(e1, e2), Eval(v, EliminateEq(e1, e2).0))
    ensures Eval(v, e2) == Plug(v, Removed(e1, e2), Eval(v, EliminateEq(e1, e2).1))
    decreases Size(e1) + Size(e2), 1
  {
    var (a1, a2) := if e1.Bin? then Cancel(e1.op, e1, e2) else (e1, e2);
    var (b1, b2) := CancelBoth(e1, e2);
    YnKeepsValue(v, b1);
    YnKeepsValue(v, b2);
    var inner := if a2.Bin? && !a1.IsBin(a2.op) then [(a2.op, Factor(a2.op, a1, a2))] else [];
    assert Eval(v, a1) == Plug(v, inner, Eval(v, b1)) && Eval(v, a2) == Plug(v, inner, Eval(v, b2)) by {
      if inner != [] {
        CancelRemovesFactor(v, a2.op, a1, a2);
        assert inner[1..] == [];
      }
    }
    if e1.Bin? {
      CancelRemovesFactor(v, e1.op, e1, e2);
      assert Removed(e1, e2)[1..] == inner;
    } else {
      assert Removed(e1, e2) == inner;
    }
  }

  lemma {:induction false} PlugMonotone(v: Valuation, ctx: Context, x: Tri, y: Tri)
    requires x <= y
    ensures Plug(v, ctx, x) <= Plug(v, ctx, y)
  {
    if ctx != [] { PlugMonotone(v, ctx[1..], x, y); }
  }

  /** expr_eq only answers yes for expressions that agree under every assignment. */
  lemma {:induction false} ExprEqSound(v: Valuation, e1: Expr, e2: Expr)
    requires Proper(v)
    requires ExprEq(e1, e2)
    ensures Eval(v, e1) == Eval(v, e2)
    decreases Size(e1) + Size(e2), 3
  {
    match (e1, e2)
    case (Not(a1), Not(a2)) => ExprEqSound(v, a1, a2);
    case (Bin(_, _, _), Bin(_, _, _)) => EliminateEqFactors(v, e1, e2);
    case _ =>
  }

  /** If cancellation leaves `y` of the second expression, the first never exceeds it. */
  lemma ResidueYesImplies(v: Valuation, e1: Expr, e2: Expr)
    requires Proper(v)
    requires EliminateEq(e1, e2).1 == Sym(SYM_YES)
    ensures Eval(v, e1) <= Eval(v, e2)
  {
    EliminateEqFactors(v, e1, e2);
    PlugMonotone(v, Removed(e1, e2), Eval(v, EliminateEq(e1, e2).0), YES);
  }
}
