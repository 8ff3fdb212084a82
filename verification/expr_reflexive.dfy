/** expr_eq finds every expression equal to itself, although it compares two chains by cancelling
    their operands pair by pair. */
module ExprReflexive {
  import opened Common
  import opened KconfigSyntax
  import opened ExprEqual
  import opened ExprDups

  /** Every operand of the chain is the constant y or n. */
  predicate AllConstants(op: BinOp, e: Expr) {
    if e.IsBin(op) then AllConstants(op, e.left) && AllConstants(op, e.right) else IsYesOrNo(e)
  }

  /** The chain with all other operands blanked. */
  function Blank(op: BinOp, e: Expr): (r: Expr)
    ensures AllConstants(op, r)
  {
    if e.IsBin(op) then Bin(op, Blank(op, e.left), Blank(op, e.right))
    else if IsYesOrNo(e) then e else Sym(Unit(op))
  }

  /** All operands to the left of the path's end are constants. */
  predicate ConstantsBefore(op: BinOp, e: Expr, p: Path)
    requires InChain(op, e, p)
  {
    p != [] ==> (p[0].Right? ==> AllConstants(op, e.left)) && ConstantsBefore(op, Child(e, p[0]), p[1..])
  }

  lemma {:induction false} ConstantsFold(op: BinOp, e: Expr)
    requires AllConstants(op, e)
    ensures IsYesOrNo(EliminateYn(e))
  {
    if e.IsBin(op) {
      ConstantsFold(op, e.left);
      ConstantsFold(op, e.right);
    }
  }

  /** A constant cancels with nothing. */
  lemma {:induction false} ConstantStays(op: BinOp, c: Expr, e: Expr)
    requires IsYesOrNo(c)
    ensures Cancel(op, c, e) == (c, e)
  {
    if e.IsBin(op) {
      ConstantStays(op, c, e.left);
      ConstantStays(op, c, e.right);
    }
  }

  lemma {:induction false} NothingToCancel(op: BinOp, x: Expr, e: Expr)
    requires !x.IsBin(op) && AllConstants(op, e)
    ensures Cancel(op, x, e) == (x, e)
  {
    if e.IsBin(op) {
      NothingToCancel(op, x, e.left);
      NothingToCancel(op, x, e.right);
    }
  }

  /** An operand cancels with its own copy, if nothing but constants stands before that. */
  lemma {:induction false} OperandCancels(op: BinOp, x: Expr, e: Expr, p: Path)
    requires InChain(op, e, p) && At(op, e, p) == x && !x.IsBin(op) && ConstantsBefore(op, e, p) && ExprEq(x, x)
    ensures Cancel(op, x, e) == (Blank(op, x), Put(op, e, p, Blank(op, x)))
    decreases |p|
  {
    if p != [] {
      if p[0].Left? {
        OperandCancels(op, x, e.left, p[1..]);
        ConstantStays(op, Blank(op, x), e.right);
      } else {
        NothingToCancel(op, x, e.left);
        OperandCancels(op, x, e.right, p[1..]);
      }
    }
  }

  // ---------- the chain as it is worked off from the left ----------

  lemma {:induction false} ConstantsBeforeChild(op: BinOp, e: Expr, p: Path, s: Side)
    requires InChain(op, e, p) && At(op, e, p).IsBin(op) && ConstantsBefore(op, e, p)
    requires s.Right? ==> AllConstants(op, At(op, e, p).left)
    ensures InChain(op, e, p + [s]) && At(op, e, p + [s]) == Child(At(op, e, p), s)
    ensures ConstantsBefore(op, e, p + [s])
  {
    Extend(op, e, p, s);
    if p == [] {
      assert (p + [s])[1..] == [];
    } else {
      ConstantsBeforeChild(op, Child(e, p[0]), p[1..], s);
      assert (p + [s])[1..] == p[1..] + [s];
    }
  }

  /** Assigning a child of the node at the end of the path is assigning that node. */
  lemma {:induction false} PutChild(op: BinOp, e: Expr, p: Path, s: Side, x: Expr)
    requires InChain(op, e, p) && At(op, e, p).IsBin(op) && InChain(op, e, p + [s])
    ensures var node := At(op, e, p);
            Put(op, e, p + [s], x) == Put(op, e, p, if s.Left? then Bin(op, x, node.right) else Bin(op, node.left, x))
  {
    if p == [] {
      assert (p + [s])[1..] == [];
    } else {
      assert (p + [s])[1..] == p[1..] + [s];
      PutChild(op, Child(e, p[0]), p[1..], s, x);
    }
  }

  /** After an assignment the path leads to what was assigned, and can be assigned again. */
  lemma {:induction false} PutTwice(op: BinOp, e: Expr, p: Path, x: Expr, y: Expr)
    requires InChain(op, e, p)
    ensures InChain(op, Put(op, e, p, x), p) && At(op, Put(op, e, p, x), p) == x
    ensures Put(op, Put(op, e, p, x), p, y) == Put(op, e, p, y)
    ensures ConstantsBefore(op, e, p) ==> ConstantsBefore(op, Put(op, e, p, x), p)
  {
    if p != [] { PutTwice(op, Child(e, p[0]), p[1..], x, y); }
  }

  ghost predicate OperandsEqualThemselves(op: BinOp, e: Expr) {
    if e.IsBin(op) then OperandsEqualThemselves(op, e.left) && OperandsEqualThemselves(op, e.right) else ExprEq(e, e)
  }

  /** A chain cancels with its own copy inside another one, operand by operand from the left. */
  lemma {:induction false} ChainCancels(op: BinOp, x: Expr, e: Expr, p: Path)
    requires InChain(op, e, p) && At(op, e, p) == x && ConstantsBefore(op, e, p) && OperandsEqualThemselves(op, x)
    ensures Cancel(op, x, e) == (Blank(op, x), Put(op, e, p, Blank(op, x)))
    decreases x
  {
    if x.IsBin(op) {
      var (l, r) := (Blank(op, x.left), Blank(op, x.right));
      ConstantsBeforeChild(op, e, p, Left);
      ChainCancels(op, x.left, e, p + [Left]);
      PutChild(op, e, p, Left, l);
      var e' := Put(op, e, p, Bin(op, l, x.right));
      PutTwice(op, e, p, Bin(op, l, x.right), Bin(op, l, r));
      ConstantsBeforeChild(op, e', p, Right);
      ChainCancels(op, x.right, e', p + [Right]);
      PutChild(op, e', p, Right, r);
    } else {
      OperandCancels(op, x, e, p);
    }
  }

  lemma {:induction false} AreEqualThemselves(op: BinOp, e: Expr)
    ensures OperandsEqualThemselves(op, e)
    decreases Size(e), 1
  {
    if e.IsBin(op) {
      AreEqualThemselves(op, e.left);
      AreEqualThemselves(op, e.right);
    } else {
      ExprEqReflexive(e);
    }
  }

  lemma {:induction false} ExprEqReflexive(e: Expr)
    ensures ExprEq(e, e)
    decreases Size(e), 0
  {
    match e
    case Not(a) => ExprEqReflexive(a);
    case Bin(op, l, r) =>
      AreEqualThemselves(op, l);
      AreEqualThemselves(op, r);
      ChainCancels(op, e, e, []);
      ConstantsFold(op, Blank(op, e));
      assert CancelBoth(e, e) == (Blank(op, e), Blank(op, e));
    case _ =>
  }
}
