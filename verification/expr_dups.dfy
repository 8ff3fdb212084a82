/** Duplicate elimination. The pairwise pass walks one operator chain with two cursors into the
    same tree, so a cursor is a path from the chain's root and both see every rewrite. */
module ExprDups {
  import opened Common
  import opened KconfigSyntax
  import opened ExprEqual

  // ---------- join rules ----------

  predicate IsTest(e: Expr) { e.Comp? && (e.cmp.Eq? || e.cmp.Ne?) }

  function TestedSymbol(e: Expr): Symbol
    requires IsTest(e) || e.Sym?
  {
    if e.Sym? then e.sym else e.lhs
  }

  /** The bool or tristate symbol that both operands are about, if the join rules apply at all. */
  function JoinSymbol(e1: Expr, e2: Expr): Option<Symbol> {
    if !(IsTest(e1) || e1.Sym? || e1.Not?) || !(IsTest(e2) || e2.Sym? || e2.Not?) then None
    else if e1.Not? && !(IsTest(e1.arg) || e1.arg.Sym?) then None
    else if e2.Not? && !e2.arg.Sym? then None
    else
      var s1 := TestedSymbol(if e1.Not? then e1.arg else e1);
      var s2 := TestedSymbol(if e2.Not? then e2.arg else e2);
      if s1 != s2 || !s1.HasTri() then None else Some(s1)
  }

  predicate Tests(e: Expr, cmp: CmpOp, s: Symbol) { e.Comp? && e.cmp == cmp && e.rhs == s }

  /** One operand tests against s, the other against t, with the same comparison. */
  predicate TestPair(e1: Expr, e2: Expr, cmp: CmpOp, s: Symbol, t: Symbol) {
    (Tests(e1, cmp, s) && Tests(e2, cmp, t)) || (Tests(e1, cmp, t) && Tests(e2, cmp, s))
  }

  predicate SymAndTest(e1: Expr, e2: Expr, cmp: CmpOp, s: Symbol) {
    (e1.Sym? && Tests(e2, cmp, s)) || (e2.Sym? && Tests(e1, cmp, s))
  }

  /** expr_join_or */
  function JoinOr(e1: Expr, e2: Expr): Option<Expr> {
    if ExprEq(e1, e2) then Some(e1)
    else
      var js := JoinSymbol(e1, e2);
      if js.None? then None
      else
        var s := js.value;
        if s.Type().Tristate? && TestPair(e1, e2, Eq, SYM_YES, SYM_MOD) then Some(Comp(Ne, s, SYM_NO))
        else if s.Type().Tristate? && TestPair(e1, e2, Eq, SYM_YES, SYM_NO) then Some(Comp(Ne, s, SYM_MOD))
        else if s.Type().Tristate? && TestPair(e1, e2, Eq, SYM_MOD, SYM_NO) then Some(Comp(Ne, s, SYM_YES))
        else if s.Type().Bool? && ((e1.Not? && e1.arg.Sym? && e2.Sym?) || (e2.Not? && e2.arg.Sym? && e1.Sym?)) then
          Some(Sym(SYM_YES))
        else None
  }

  /** expr_join_and */
  function JoinAnd(e1: Expr, e2: Expr): Option<Expr> {
    if ExprEq(e1, e2) then Some(e1)
    else
      var js := JoinSymbol(e1, e2);
      if js.None? then None
      else
        var s := js.value;
        if SymAndTest(e1, e2, Eq, SYM_YES) then Some(Comp(Eq, s, SYM_YES))
        else if SymAndTest(e1, e2, Ne, SYM_NO) then Some(Sym(s))
        else if SymAndTest(e1, e2, Ne, SYM_MOD) then Some(Comp(Eq, s, SYM_YES))
        else if !s.Type().Tristate? then None
        else if e1.Comp? && e1.cmp.Eq? && e2.Comp? && e2.cmp.Ne? && e1.rhs.Const? && e2.rhs.Const? then
          Some(if e1.rhs != e2.rhs then Comp(Eq, s, e1.rhs) else Sym(SYM_NO))
        else if e1.Comp? && e1.cmp.Ne? && e2.Comp? && e2.cmp.Eq? && e1.rhs.Const? && e2.rhs.Const? then
          Some(if e2.rhs != e1.rhs then Comp(Eq, s, e2.rhs) else Sym(SYM_NO))
        else if TestPair(e1, e2, Ne, SYM_YES, SYM_NO) then Some(Comp(Eq, s, SYM_MOD))
        else if TestPair(e1, e2, Ne, SYM_YES, SYM_MOD) then Some(Comp(Eq, s, SYM_NO))
        else if TestPair(e1, e2, Ne, SYM_MOD, SYM_NO) then Some(Comp(Eq, s, SYM_YES))
        else None
  }

  function Join(op: BinOp, e1: Expr, e2: Expr): Option<Expr> {
    if op.And? then JoinAnd(e1, e2) else JoinOr(e1, e2)
  }

  lemma TestOfTriSymbol(v: Valuation, cmp: CmpOp, s: Symbol, c: Symbol)
    requires Proper(v) && s.HasTri() && c.Const? && (cmp.Eq? || cmp.Ne?)
    ensures Eval(v, Comp(cmp, s, c)) == if (TriString(v.tri(s)) == c.name) == cmp.Eq? then YES else NO
  {
  }

  /** Allowing two of the three values rules out the third. */
  lemma TwoEqSound(v: Valuation, s: Symbol)
    requires Proper(v) && s.HasTri()
    ensures Max(Eval(v, Comp(Eq, s, SYM_YES)), Eval(v, Comp(Eq, s, SYM_MOD))) == Eval(v, Comp(Ne, s, SYM_NO))
    ensures Max(Eval(v, Comp(Eq, s, SYM_YES)), Eval(v, Comp(Eq, s, SYM_NO))) == Eval(v, Comp(Ne, s, SYM_MOD))
    ensures Max(Eval(v, Comp(Eq, s, SYM_MOD)), Eval(v, Comp(Eq, s, SYM_NO))) == Eval(v, Comp(Ne, s, SYM_YES))
  {
    TestOfTriSymbol(v, Ne, s, SYM_YES);
    TestOfTriSymbol(v, Ne, s, SYM_MOD);
    TestOfTriSymbol(v, Ne, s, SYM_NO);
    TestOfTriSymbol(v, Eq, s, SYM_YES);
    TestOfTriSymbol(v, Eq, s, SYM_MOD);
    TestOfTriSymbol(v, Eq, s, SYM_NO);
  }

  lemma JoinOrShape(e1: Expr, e2: Expr)
    requires !ExprEq(e1, e2) && JoinOr(e1, e2).Some?
    ensures var r := JoinOr(e1, e2).value;
            || (IsTest(e1) && IsTest(e2) && e1.lhs == e2.lhs && e1.lhs.HasTri() &&
                exists k :: TestPair(e1, e2, Eq, Pick(k).0, Pick(k).1) && r == Comp(Ne, e1.lhs, Pick(k).2))
            || (r == Sym(SYM_YES) && e1.Sym? && e2 == Not(e1) && e1.sym.Type().Bool?)
            || (r == Sym(SYM_YES) && e2.Sym? && e1 == Not(e2) && e2.sym.Type().Bool?)
  {
    if IsTest(e1) && IsTest(e2) {
      assert TestPair(e1, e2, Eq, Pick(NO).0, Pick(NO).1) || TestPair(e1, e2, Eq, Pick(MOD).0, Pick(MOD).1)
          || TestPair(e1, e2, Eq, Pick(YES).0, Pick(YES).1);
    }
  }

  /** A join is worth both of its operands under the operator, in every assignment. */
  lemma JoinOrSound(v: Valuation, e1: Expr, e2: Expr)
    requires Proper(v) && JoinOr(e1, e2).Some?
    ensures Eval(v, JoinOr(e1, e2).value) == Max(Eval(v, e1), Eval(v, e2))
  {
    if ExprEq(e1, e2) {
      ExprEqSound(v, e1, e2);
    } else {
      JoinOrShape(e1, e2);
      var r := JoinOr(e1, e2).value;
      if IsTest(e1) {
        var k :| TestPair(e1, e2, Eq, Pick(k).0, Pick(k).1) && r == Comp(Ne, e1.lhs, Pick(k).2);
        TwoEqSound(v, e1.lhs);
      }
    }
  }

  lemma SymAndTestSound(v: Valuation, s: Symbol, t: Expr)
    requires Proper(v) && s.HasTri() && IsTest(t) && t.lhs == s
    ensures Tests(t, Eq, SYM_YES) || Tests(t, Ne, SYM_MOD) ==>
              Min(v.tri(s), Eval(v, t)) == Eval(v, Comp(Eq, s, SYM_YES))
    ensures Tests(t, Ne, SYM_NO) ==> Min(v.tri(s), Eval(v, t)) == v.tri(s)
  {
    TestOfTriSymbol(v, Eq, s, SYM_YES);
    TestOfTriSymbol(v, Ne, s, SYM_MOD);
    TestOfTriSymbol(v, Ne, s, SYM_NO);
  }

  lemma EqAndNeSound(v: Valuation, s: Symbol, b: Symbol, c: Symbol)
    requires Proper(v) && s.HasTri() && b.Const? && c.Const?
    ensures Min(Eval(v, Comp(Eq, s, b)), Eval(v, Comp(Ne, s, c))) ==
            if b != c then Eval(v, Comp(Eq, s, b)) else NO
  {
    TestOfTriSymbol(v, Eq, s, b);
    TestOfTriSymbol(v, Ne, s, c);
  }

  /** Ruling out two of the three values leaves the third. */
  lemma TwoNeSound(v: Valuation, s: Symbol)
    requires Proper(v) && s.HasTri()
    ensures Min(Eval(v, Comp(Ne, s, SYM_YES)), Eval(v, Comp(Ne, s, SYM_NO))) == Eval(v, Comp(Eq, s, SYM_MOD))
    ensures Min(Eval(v, Comp(Ne, s, SYM_YES)), Eval(v, Comp(Ne, s, SYM_MOD))) == Eval(v, Comp(Eq, s, SYM_NO))
    ensures Min(Eval(v, Comp(Ne, s, SYM_MOD)), Eval(v, Comp(Ne, s, SYM_NO))) == Eval(v, Comp(Eq, s, SYM_YES))
  {
    TestOfTriSymbol(v, Ne, s, SYM_YES);
    TestOfTriSymbol(v, Ne, s, SYM_MOD);
    TestOfTriSymbol(v, Ne, s, SYM_NO);
    TestOfTriSymbol(v, Eq, s, SYM_YES);
    TestOfTriSymbol(v, Eq, s, SYM_MOD);
    TestOfTriSymbol(v, Eq, s, SYM_NO);
  }

  lemma JoinAndOfSymbol(v: Valuation, e1: Expr, e2: Expr)
    requires Proper(v) && !ExprEq(e1, e2) && JoinAnd(e1, e2).Some? && (e1.Sym? || e2.Sym?)
    ensures Eval(v, JoinAnd(e1, e2).value) == Min(Eval(v, e1), Eval(v, e2))
  {
    var s := JoinSymbol(e1, e2).value;
    if e1.Sym? {
      assert IsTest(e2) && e1 == Sym(s) && e2.lhs == s;
      SymAndTestSound(v, s, e2);
    } else {
      assert IsTest(e1) && e2 == Sym(s) && e1.lhs == s;
      SymAndTestSound(v, s, e1);
    }
  }

  lemma JoinAndShape(e1: Expr, e2: Expr)
    requires !ExprEq(e1, e2) && JoinAnd(e1, e2).Some? && !e1.Sym? && !e2.Sym?
    ensures IsTest(e1) && IsTest(e2) && e1.lhs == e2.lhs && e1.lhs.HasTri() && e1.rhs.Const? && e2.rhs.Const?
    ensures e1.cmp.Eq? ==> e2.cmp.Ne? && JoinAnd(e1, e2).value == if e1.rhs != e2.rhs then e1 else Sym(SYM_NO)
    ensures e2.cmp.Eq? ==> e1.cmp.Ne? && JoinAnd(e1, e2).value == if e1.rhs != e2.rhs then e2 else Sym(SYM_NO)
    ensures e1.cmp.Ne? && e2.cmp.Ne? ==>
              exists k :: TestPair(e1, e2, Ne, Pick(k).0, Pick(k).1) && JoinAnd(e1, e2).value == Comp(Eq, e1.lhs, Pick(k).2)
  {
    if e1.cmp.Ne? && e2.cmp.Ne? {
      assert TestPair(e1, e2, Ne, Pick(NO).0, Pick(NO).1) || TestPair(e1, e2, Ne, Pick(MOD).0, Pick(MOD).1)
          || TestPair(e1, e2, Ne, Pick(YES).0, Pick(YES).1);
    }
  }

  /** The two constants other than the one of value k, and that one. */
  function Pick(k: Tri): (Symbol, Symbol, Symbol) {
    if k == MOD then (SYM_YES, SYM_NO, SYM_MOD)
    else if k == NO then (SYM_YES, SYM_MOD, SYM_NO)
    else (SYM_MOD, SYM_NO, SYM_YES)
  }

  lemma JoinAndOfTests(v: Valuation, e1: Expr, e2: Expr)
    requires Proper(v) && !ExprEq(e1, e2) && JoinAnd(e1, e2).Some? && !e1.Sym? && !e2.Sym?
    ensures Eval(v, JoinAnd(e1, e2).value) == Min(Eval(v, e1), Eval(v, e2))
  {
    JoinAndShape(e1, e2);
    var r := JoinAnd(e1, e2).value;
    var s := e1.lhs;
    if e1.cmp.Eq? {
      EqAndNeSound(v, s, e1.rhs, e2.rhs);
    } else if e2.cmp.Eq? {
      EqAndNeSound(v, s, e2.rhs, e1.rhs);
    } else {
      var k :| TestPair(e1, e2, Ne, Pick(k).0, Pick(k).1) && r == Comp(Eq, s, Pick(k).2);
      TwoNeSound(v, s);
    }
  }

  lemma JoinAndSound(v: Valuation, e1: Expr, e2: Expr)
    requires Proper(v) && JoinAnd(e1, e2).Some?
    ensures Eval(v, JoinAnd(e1, e2).value) == Min(Eval(v, e1), Eval(v, e2))
  {
    if ExprEq(e1, e2) {
      ExprEqSound(v, e1, e2);
    } else if e1.Sym? || e2.Sym? {
      JoinAndOfSymbol(v, e1, e2);
    } else {
      JoinAndOfTests(v, e1, e2);
    }
  }

  // ---------- cursors into one operator chain ----------

  datatype Side = Left | Right
  type Path = seq<Side>

  function Child(e: Expr, s: Side): Expr
    requires e.Bin?
  {
    if s.Left? then e.left else e.right
  }

  /** Every node above the end of the path is an `op` node. */
  predicate InChain(op: BinOp, e: Expr, p: Path) {
    p == [] || (e.IsBin(op) && InChain(op, Child(e, p[0]), p[1..]))
  }

  function At(op: BinOp, e: Expr, p: Path): Expr
    requires InChain(op, e, p)
  {
    if p == [] then e else At(op, Child(e, p[0]), p[1..])
  }

  predicate IsOperand(op: BinOp, e: Expr, p: Path) { InChain(op, e, p) && !At(op, e, p).IsBin(op) }

  /** Assignment through a cursor. */
  function Put(op: BinOp, e: Expr, p: Path, x: Expr): Expr
    requires InChain(op, e, p)
  {
    if p == [] then x
    else if p[0].Left? then Bin(op, Put(op, e.left, p[1..], x), e.right)
    else Bin(op, e.left, Put(op, e.right, p[1..], x))
  }

  /** The chains have the same shape; only operands differ. */
  predicate SameChain(op: BinOp, a: Expr, b: Expr) {
    if a.IsBin(op) then b.IsBin(op) && SameChain(op, a.left, b.left) && SameChain(op, a.right, b.right)
    else !b.IsBin(op)
  }

  lemma {:induction false} SameChainReflexive(op: BinOp, a: Expr)
    ensures SameChain(op, a, a)
  {
    if a.IsBin(op) {
      SameChainReflexive(op, a.left);
      SameChainReflexive(op, a.right);
    }
  }

  lemma {:induction false} SameChainTransitive(op: BinOp, a: Expr, b: Expr, c: Expr)
    requires SameChain(op, a, b) && SameChain(op, b, c)
    ensures SameChain(op, a, c)
  {
    if a.IsBin(op) {
      SameChainTransitive(op, a.left, b.left, c.left);
      SameChainTransitive(op, a.right, b.right, c.right);
    }
  }

  /** A cursor stays meaningful while only operands are rewritten. */
  lemma {:induction false} SameChainKeepsPaths(op: BinOp, a: Expr, b: Expr, p: Path)
    requires SameChain(op, a, b) && InChain(op, a, p)
    ensures InChain(op, b, p)
    ensures At(op, a, p).IsBin(op) <==> At(op, b, p).IsBin(op)
  {
    if p != [] { SameChainKeepsPaths(op, Child(a, p[0]), Child(b, p[0]), p[1..]); }
  }

  lemma {:induction false} PathsAreShort(op: BinOp, e: Expr, p: Path)
    requires InChain(op, e, p)
    ensures |p| + Size(At(op, e, p)) <= Size(e)
  {
    if p != [] { PathsAreShort(op, Child(e, p[0]), p[1..]); }
  }

  lemma {:induction false} Extend(op: BinOp, e: Expr, p: Path, s: Side)
    requires InChain(op, e, p) && At(op, e, p).IsBin(op)
    ensures InChain(op, e, p + [s])
    ensures At(op, e, p + [s]) == Child(At(op, e, p), s)
  {
    if p != [] {
      Extend(op, Child(e, p[0]), p[1..], s);
      assert (p + [s])[1..] == p[1..] + [s];
    } else {
      assert (p + [s])[1..] == [];
    }
  }

  /** Rewriting one operand: nothing but that operand changes. */
  lemma {:induction false} PutOperand(op: BinOp, e: Expr, p: Path, x: Expr)
    requires IsOperand(op, e, p) && !x.IsBin(op)
    ensures SameChain(op, e, Put(op, e, p, x))
    ensures IsOperand(op, Put(op, e, p, x), p) && At(op, Put(op, e, p, x), p) == x
    ensures Size(Put(op, e, p, x)) == Size(e) - Size(At(op, e, p)) + Size(x)
    ensures NegOnSymbols(e) ==> NegOnSymbols(At(op, e, p))
    ensures NegOnSymbols(e) && NegOnSymbols(x) ==> NegOnSymbols(Put(op, e, p, x))
    ensures p != [] && IsYesOrNo(x) ==> Foldable(Put(op, e, p, x))
    ensures Foldable(x) ==> Foldable(Put(op, e, p, x))
  {
    if p != [] {
      PutOperand(op, Child(e, p[0]), p[1..], x);
      SameChainReflexive(op, e.left);
      SameChainReflexive(op, e.right);
    }
  }

  lemma {:induction false} PutUsesOnly(op: BinOp, e: Expr, p: Path, x: Expr, S: set<Symbol>)
    requires InChain(op, e, p) && UsesOnly(e, S)
    ensures UsesOnly(At(op, e, p), S)
    ensures UsesOnly(x, S) ==> UsesOnly(Put(op, e, p, x), S)
  {
    if p != [] { PutUsesOnly(op, Child(e, p[0]), p[1..], x, S); }
  }

  lemma {:induction false} OtherOperandsStay(op: BinOp, e: Expr, p: Path, q: Path, x: Expr)
    requires IsOperand(op, e, p) && IsOperand(op, e, q) && p != q && !x.IsBin(op)
    ensures IsOperand(op, Put(op, e, p, x), q)
    ensures At(op, Put(op, e, p, x), q) == At(op, e, q)
  {
    if p != [] && q != [] && p[0] == q[0] {
      OtherOperandsStay(op, Child(e, p[0]), p[1..], q[1..], x);
    }
  }

  lemma {:induction false} PutsCommute(op: BinOp, e: Expr, p: Path, q: Path, x: Expr, y: Expr)
    requires IsOperand(op, e, p) && IsOperand(op, e, q) && p != q && !x.IsBin(op) && !y.IsBin(op)
    requires InChain(op, Put(op, e, p, x), q) && InChain(op, Put(op, e, q, y), p)
    ensures Put(op, Put(op, e, p, x), q, y) == Put(op, Put(op, e, q, y), p, x)
  {
    if p[0] == q[0] {
      PutsCommute(op, Child(e, p[0]), p[1..], q[1..], x, y);
    }
  }

  lemma CombineIsAc(op: BinOp, x: Tri, y: Tri, z: Tri)
    ensures Combine(op, Combine(op, x, y), z) == Combine(op, x, Combine(op, y, z))
    ensures Combine(op, z, Combine(op, x, y)) == Combine(op, x, Combine(op, z, y))
  {
  }

  /** An operand contributes to its chain through the operator alone. */
  lemma {:induction false} OperandContributes(v: Valuation, op: BinOp, e: Expr, p: Path, x: Expr)
    requires Proper(v) && InChain(op, e, p)
    ensures Eval(v, Put(op, e, p, x)) == Combine(op, Eval(v, x), Eval(v, Put(op, e, p, Sym(Unit(op)))))
  {
    if p != [] {
      var rest := Eval(v, Put(op, Child(e, p[0]), p[1..], Sym(Unit(op))));
      OperandContributes(v, op, Child(e, p[0]), p[1..], x);
      CombineIsAc(op, Eval(v, x), rest, Eval(v, Child(e, if p[0].Left? then Right else Left)));
    }
  }

  lemma {:induction false} PutBack(op: BinOp, e: Expr, p: Path)
    requires InChain(op, e, p)
    ensures Put(op, e, p, At(op, e, p)) == e
  {
    if p != [] { PutBack(op, Child(e, p[0]), p[1..]); }
  }

  // ---------- the pairwise pass ----------

  lemma JoinIsSmall(op: BinOp, e1: Expr, e2: Expr)
    requires Join(op, e1, e2).Some? && !e1.IsBin(op)
    ensures !Join(op, e1, e2).value.IsBin(op)
    ensures Size(Join(op, e1, e2).value) + 1 <= Size(e1) + Size(e2)
    ensures NegOnSymbols(e1) ==> NegOnSymbols(Join(op, e1, e2).value)
  {
  }

  lemma JoinUsesOnly(op: BinOp, e1: Expr, e2: Expr, S: set<Symbol>)
    requires Join(op, e1, e2).Some? && UsesOnly(e1, S) && UsesOnly(e2, S)
    ensures UsesOnly(Join(op, e1, e2).value, S)
  {
  }

  /** Both cursors rest on operands: the first operand is reduced, then the two are joined. */
  function Meet(op: BinOp, e: Expr, a: Path, b: Path): (r: (Expr, nat))
    requires IsOperand(op, e, a) && IsOperand(op, e, b) && a != b
    ensures SameChain(op, e, r.0) && Size(r.0) <= Size(e)
    decreases Size(e), 0, 0
  {
    PathsAreShort(op, e, a);
    var x := At(op, e, a);
    var (x', n) := if x.Bin? then Pass(x.op, x, [], []) else (x, 0);
    PutOperand(op, e, a, x');
    OtherOperandsStay(op, e, a, b, x');
    var m := Put(op, e, a, x');
    match Join(op, x', At(op, m, b))
    case None => (m, n)
    case Some(t) =>
      JoinIsSmall(op, x', At(op, m, b));
      PutOperand(op, m, a, Sym(Unit(op)));
      OtherOperandsStay(op, m, a, b, Sym(Unit(op)));
      var m' := Put(op, m, a, Sym(Unit(op)));
      PutOperand(op, m', b, t);
      SameChainTransitive(op, e, m, m');
      SameChainTransitive(op, e, m', Put(op, m', b, t));
      (Put(op, m', b, t), n + 1)
  }

  /** expr_eliminate_dups1: `a` and `b` are the two cursors; the count is how often a join fired. */
  function Pass(op: BinOp, e: Expr, a: Path, b: Path): (r: (Expr, nat))
    requires InChain(op, e, a) && InChain(op, e, b)
    ensures SameChain(op, e, r.0) && Size(r.0) <= Size(e)
    decreases Size(e), 1 + Size(e) - |a|, 1 + Size(e) - |b|
  {
    PathsAreShort(op, e, a);
    PathsAreShort(op, e, b);
    SameChainReflexive(op, e);
    if At(op, e, a).IsBin(op) then
      Extend(op, e, a, Left);
      Extend(op, e, a, Right);
      var (e1, n1) := Pass(op, e, a + [Left], b);
      SameChainKeepsPaths(op, e, e1, a + [Right]);
      SameChainKeepsPaths(op, e, e1, b);
      var (e2, n2) := Pass(op, e1, a + [Right], b);
      SameChainTransitive(op, e, e1, e2);
      (e2, n1 + n2)
    else if At(op, e, b).IsBin(op) then
      Extend(op, e, b, Left);
      Extend(op, e, b, Right);
      var (e1, n1) := Pass(op, e, a, b + [Left]);
      SameChainKeepsPaths(op, e, e1, a);
      SameChainKeepsPaths(op, e, e1, b + [Right]);
      var (e2, n2) := Pass(op, e1, a, b + [Right]);
      SameChainTransitive(op, e, e1, e2);
      (e2, n1 + n2)
    else if a == b then (e, 0)
    else Meet(op, e, a, b)
  }

  /** Replacing an operand by one of the same value. */
  lemma OperandReplaced(v: Valuation, op: BinOp, e: Expr, p: Path, x: Expr)
    requires Proper(v) && InChain(op, e, p) && Eval(v, x) == Eval(v, At(op, e, p))
    ensures Eval(v, Put(op, e, p, x)) == Eval(v, e)
  {
    OperandContributes(v, op, e, p, x);
    OperandContributes(v, op, e, p, At(op, e, p));
    PutBack(op, e, p);
  }

  /** Moving the joint value of two operands to the second and blanking the first. */
  lemma OperandsJoined(v: Valuation, op: BinOp, e: Expr, a: Path, b: Path, t: Expr)
    requires Proper(v) && IsOperand(op, e, a) && IsOperand(op, e, b) && a != b && !t.IsBin(op)
    requires Eval(v, t) == Combine(op, Eval(v, At(op, e, a)), Eval(v, At(op, e, b)))
    requires IsOperand(op, Put(op, e, a, Sym(Unit(op))), b)
    ensures Eval(v, Put(op, Put(op, e, a, Sym(Unit(op))), b, t)) == Eval(v, e)
  {
    var e' := Put(op, e, a, Sym(Unit(op)));
    OperandContributes(v, op, e, a, At(op, e, a));
    PutBack(op, e, a);
    OtherOperandsStay(op, e, a, b, Sym(Unit(op)));
    OperandContributes(v, op, e', b, At(op, e', b));
    PutBack(op, e', b);
    OperandContributes(v, op, e', b, t);
    CombineIsAc(op, Eval(v, At(op, e, a)), Eval(v, At(op, e, b)), Eval(v, Put(op, e', b, Sym(Unit(op)))));
  }

  lemma {:induction false} MeetKeepsValue(v: Valuation, op: BinOp, e: Expr, a: Path, b: Path)
    requires Proper(v) && IsOperand(op, e, a) && IsOperand(op, e, b) && a != b
    ensures Eval(v, Meet(op, e, a, b).0) == Eval(v, e)
    decreases Size(e), 0, 0
  {
    PathsAreShort(op, e, a);
    var x := At(op, e, a);
    var x' := if x.Bin? then Pass(x.op, x, [], []).0 else x;
    if x.Bin? { PassKeepsValue(v, x.op, x, [], []); }
    OperandReplaced(v, op, e, a, x');
    PutOperand(op, e, a, x');
    OtherOperandsStay(op, e, a, b, x');
    var m := Put(op, e, a, x');
    var j := Join(op, x', At(op, m, b));
    if j.Some? {
      if op.And? { JoinAndSound(v, x', At(op, m, b)); } else { JoinOrSound(v, x', At(op, m, b)); }
      JoinIsSmall(op, x', At(op, m, b));
      PutOperand(op, m, a, Sym(Unit(op)));
      OtherOperandsStay(op, m, a, b, Sym(Unit(op)));
      OperandsJoined(v, op, m, a, b, j.value);
    }
  }

  /** The pass keeps the value although both cursors rewrite the tree they both walk. */
  lemma {:induction false} PassKeepsValue(v: Valuation, op: BinOp, e: Expr, a: Path, b: Path)
    requires Proper(v) && InChain(op, e, a) && InChain(op, e, b)
    ensures Eval(v, Pass(op, e, a, b).0) == Eval(v, e)
    decreases Size(e), 1 + Size(e) - |a|, 1 + Size(e) - |b|
  {
    PathsAreShort(op, e, a);
    PathsAreShort(op, e, b);
    if At(op, e, a).IsBin(op) {
      Extend(op, e, a, Left);
      Extend(op, e, a, Right);
      var e1 := Pass(op, e, a + [Left], b).0;
      SameChainKeepsPaths(op, e, e1, a + [Right]);
      SameChainKeepsPaths(op, e, e1, b);
      PassKeepsValue(v, op, e, a + [Left], b);
      PassKeepsValue(v, op, e1, a + [Right], b);
    } else if At(op, e, b).IsBin(op) {
      Extend(op, e, b, Left);
      Extend(op, e, b, Right);
      var e1 := Pass(op, e, a, b + [Left]).0;
      SameChainKeepsPaths(op, e, e1, a);
      SameChainKeepsPaths(op, e, e1, b + [Right]);
      PassKeepsValue(v, op, e, a, b + [Left]);
      PassKeepsValue(v, op, e1, a, b + [Right]);
    } else if a != b {
      MeetKeepsValue(v, op, e, a, b);
    }
  }

  /** What a pass leaves behind: something to fold if a join fired, and the input if none did. */
  ghost predicate PassOutcome(S: set<Symbol>, e: Expr, r: (Expr, nat)) {
    && (r.1 > 0 ==> Foldable(r.0))
    && (r.1 == 0 ==> r.0 == e)
    && (NegOnSymbols(e) ==> NegOnSymbols(r.0))
    && (UsesOnly(e, S) ==> UsesOnly(r.0, S))
  }

  lemma MeetUsesOnly(S: set<Symbol>, op: BinOp, e: Expr, a: Path, b: Path)
    requires IsOperand(op, e, a) && IsOperand(op, e, b) && a != b && UsesOnly(e, S)
    requires var x := At(op, e, a); x.Bin? ==> UsesOnly(Pass(x.op, x, [], []).0, S)
    ensures UsesOnly(Meet(op, e, a, b).0, S)
  {
    var x := At(op, e, a);
    var x' := if x.Bin? then Pass(x.op, x, [], []).0 else x;
    PutUsesOnly(op, e, a, x', S);
    PutOperand(op, e, a, x');
    OtherOperandsStay(op, e, a, b, x');
    var m := Put(op, e, a, x');
    PutUsesOnly(op, m, b, x', S);
    var j := Join(op, x', At(op, m, b));
    if j.Some? {
      JoinUsesOnly(op, x', At(op, m, b), S);
      PutUsesOnly(op, m, a, Sym(Unit(op)), S);
      PutOperand(op, m, a, Sym(Unit(op)));
      OtherOperandsStay(op, m, a, b, Sym(Unit(op)));
      PutUsesOnly(op, Put(op, m, a, Sym(Unit(op))), b, j.value, S);
    }
  }

  lemma {:induction false} MeetOutcome(S: set<Symbol>, op: BinOp, e: Expr, a: Path, b: Path)
    requires IsOperand(op, e, a) && IsOperand(op, e, b) && a != b
    ensures PassOutcome(S, e, Meet(op, e, a, b))
    decreases Size(e), 0, 0
  {
    PathsAreShort(op, e, a);
    var x := At(op, e, a);
    var x' := if x.Bin? then Pass(x.op, x, [], []).0 else x;
    if x.Bin? { PassHasOutcome(S, x.op, x, [], []); }
    if UsesOnly(e, S) { PutUsesOnly(op, e, a, x, S); }
    PutOperand(op, e, a, x');
    PutBack(op, e, a);
    OtherOperandsStay(op, e, a, b, x');
    var m := Put(op, e, a, x');
    if UsesOnly(e, S) { MeetUsesOnly(S, op, e, a, b); }
    var j := Join(op, x', At(op, m, b));
    if j.Some? {
      var u := Sym(Unit(op));
      JoinIsSmall(op, x', At(op, m, b));
      PutOperand(op, m, a, u);
      OtherOperandsStay(op, m, a, b, u);
      PutOperand(op, Put(op, m, a, u), b, j.value);
      PutOperand(op, m, b, j.value);
      OtherOperandsStay(op, m, b, a, j.value);
      PutsCommute(op, m, a, b, u, j.value);
      PutOperand(op, Put(op, m, b, j.value), a, u);
    }
  }

  lemma {:induction false} PassHasOutcome(S: set<Symbol>, op: BinOp, e: Expr, a: Path, b: Path)
    requires InChain(op, e, a) && InChain(op, e, b)
    ensures PassOutcome(S, e, Pass(op, e, a, b))
    decreases Size(e), 1 + Size(e) - |a|, 1 + Size(e) - |b|
  {
    PathsAreShort(op, e, a);
    PathsAreShort(op, e, b);
    if At(op, e, a).IsBin(op) {
      Extend(op, e, a, Left);
      Extend(op, e, a, Right);
      var e1 := Pass(op, e, a + [Left], b).0;
      SameChainKeepsPaths(op, e, e1, a + [Right]);
      SameChainKeepsPaths(op, e, e1, b);
      PassHasOutcome(S, op, e, a + [Left], b);
      PassHasOutcome(S, op, e1, a + [Right], b);
    } else if At(op, e, b).IsBin(op) {
      Extend(op, e, b, Left);
      Extend(op, e, b, Right);
      var e1 := Pass(op, e, a, b + [Left]).0;
      SameChainKeepsPaths(op, e, e1, a);
      SameChainKeepsPaths(op, e, e1, b + [Right]);
      PassHasOutcome(S, op, e, a, b + [Left]);
      PassHasOutcome(S, op, e1, a, b + [Right]);
    } else if a != b {
      MeetOutcome(S, op, e, a, b);
    }
  }

  // ---------- iterating the pass ----------

  /** expr_eliminate_dups as a function: pass and fold until no join fires. */
  function Reduced(e: Expr): (r: Expr)
    decreases Size(e)
  {
    if !e.Bin? then e
    else
      var (e1, n) := Pass(e.op, e, [], []);
      if n == 0 then e1
      else
        PassHasOutcome({}, e.op, e, [], []);
        YnShrinks(e1);
        Reduced(EliminateYn(e1))
  }

  /** expr_eliminate_dups. Each round that joins shrinks the tree once it is folded, so the
      loop ends; the global counter comes back as it was. */
  method EliminateDups(e0: Expr, count: nat) returns (e: Expr, transCount: nat)
    ensures e == Reduced(e0) && transCount == count
  {
    e, transCount := e0, count;
    var oldCount := transCount;
    while true
      invariant Reduced(e) == Reduced(e0)
      decreases Size(e)
    {
      transCount := 0;
      if e.Bin? {
        var (e', n) := Pass(e.op, e, [], []);
        PassHasOutcome({}, e.op, e, [], []);
        e, transCount := e', transCount + n;
      }
      if transCount == 0 { break; }
      YnShrinks(e);
      e := EliminateYn(e);
    }
    transCount := oldCount;
  }

  lemma {:induction false} ReducedKeepsValue(v: Valuation, e: Expr)
    requires Proper(v)
    ensures Eval(v, Reduced(e)) == Eval(v, e)
    decreases Size(e)
  {
    if e.Bin? {
      var (e1, n) := Pass(e.op, e, [], []);
      PassKeepsValue(v, e.op, e, [], []);
      if n > 0 {
        PassHasOutcome({}, e.op, e, [], []);
        YnShrinks(e1);
        YnKeepsValue(v, e1);
        ReducedKeepsValue(v, EliminateYn(e1));
      }
    }
  }

  lemma {:induction false} ReducedKeepsNegOnSymbols(e: Expr)
    requires NegOnSymbols(e)
    ensures NegOnSymbols(Reduced(e))
    decreases Size(e)
  {
    if e.Bin? {
      var (e1, n) := Pass(e.op, e, [], []);
      PassHasOutcome({}, e.op, e, [], []);
      if n > 0 {
        YnShrinks(e1);
        YnKeepsNegOnSymbols(e1);
        ReducedKeepsNegOnSymbols(EliminateYn(e1));
      }
    }
  }

  lemma {:induction false} ReducedUsesOnly(e: Expr, S: set<Symbol>)
    requires UsesOnly(e, S)
    ensures UsesOnly(Reduced(e), S)
    decreases Size(e)
  {
    if e.Bin? {
      var (e1, n) := Pass(e.op, e, [], []);
      PassHasOutcome(S, e.op, e, [], []);
      if n > 0 {
        YnShrinks(e1);
        YnUsesOnly(e1, S);
        ReducedUsesOnly(EliminateYn(e1), S);
      }
    }
  }

  // ---------- nothing is left to join ----------

  lemma {:induction false} OperandBelow(op: BinOp, e: Expr, a: Path, p: Path)
    requires InChain(op, e, a) && At(op, e, a).IsBin(op) && IsOperand(op, e, p) && a <= p
    ensures a + [Left] <= p || a + [Right] <= p
  {
    if a != [] {
      OperandBelow(op, Child(e, a[0]), a[1..], p[1..]);
    }
  }

  /** A pass that fires no join has tried every two different operands in both orders,
      and has run the nested pass of every operand that has a partner. */
  lemma {:induction false} QuietPassTriedAll(op: BinOp, e: Expr, a: Path, b: Path, p: Path, q: Path)
    requires InChain(op, e, a) && InChain(op, e, b) && IsOperand(op, e, p) && IsOperand(op, e, q)
    requires a <= p && b <= q && p != q
    requires Pass(op, e, a, b).1 == 0
    ensures Join(op, At(op, e, p), At(op, e, q)).None?
    ensures var x := At(op, e, p); x.Bin? ==> Pass(x.op, x, [], []).1 == 0
    decreases Size(e) - |a|, Size(e) - |b|
  {
    PathsAreShort(op, e, a);
    PathsAreShort(op, e, b);
    if At(op, e, a).IsBin(op) {
      Extend(op, e, a, Left);
      Extend(op, e, a, Right);
      PathsAreShort(op, e, a + [Left]);
      PassHasOutcome({}, op, e, a + [Left], b);
      OperandBelow(op, e, a, p);
      QuietPassTriedAll(op, e, if a + [Left] <= p then a + [Left] else a + [Right], b, p, q);
    } else if At(op, e, b).IsBin(op) {
      Extend(op, e, b, Left);
      Extend(op, e, b, Right);
      PathsAreShort(op, e, b + [Left]);
      PassHasOutcome({}, op, e, a, b + [Left]);
      OperandBelow(op, e, b, q);
      QuietPassTriedAll(op, e, a, if b + [Left] <= q then b + [Left] else b + [Right], p, q);
    } else {
      OperandIsEnd(op, e, a, p);
      OperandIsEnd(op, e, b, q);
      var x := At(op, e, a);
      if x.Bin? { PassHasOutcome({}, x.op, x, [], []); }
      PutBack(op, e, a);
    }
  }

  lemma {:induction false} OperandIsEnd(op: BinOp, e: Expr, a: Path, p: Path)
    requires IsOperand(op, e, a) && IsOperand(op, e, p) && a <= p
    ensures a == p
  {
    if a != [] { OperandIsEnd(op, Child(e, a[0]), a[1..], p[1..]); }
  }

  /** No two operands of the chain at the root can be joined, nor of any chain nested in it. */
  ghost predicate Settled(e: Expr)
    decreases Size(e)
  {
    e.Bin? ==>
      && (forall p: Path, q: Path | IsOperand(e.op, e, p) && IsOperand(e.op, e, q) && p != q ::
            Join(e.op, At(e.op, e, p), At(e.op, e, q)).None?)
      && (forall p: Path | IsOperand(e.op, e, p) :: PathsAreShort(e.op, e, p); p != [] && Settled(At(e.op, e, p)))
  }

  lemma {:induction false} HasPartner(op: BinOp, e: Expr, p: Path) returns (q: Path)
    requires e.IsBin(op) && IsOperand(op, e, p)
    ensures IsOperand(op, e, q) && q != p
  {
    var other := if p[0].Left? then Right else Left;
    var q' := SomeOperand(op, Child(e, other));
    q := [other] + q';
    assert q[1..] == q';
  }

  lemma {:induction false} SomeOperand(op: BinOp, e: Expr) returns (p: Path)
    ensures IsOperand(op, e, p)
  {
    if e.IsBin(op) {
      var p' := SomeOperand(op, e.left);
      p := [Left] + p';
      assert p[1..] == p';
    } else {
      p := [];
    }
  }

  lemma {:induction false} QuietPassSettles(e: Expr)
    requires e.Bin? && Pass(e.op, e, [], []).1 == 0
    ensures Settled(e)
    decreases Size(e)
  {
    forall p: Path, q: Path | IsOperand(e.op, e, p) && IsOperand(e.op, e, q) && p != q
      ensures Join(e.op, At(e.op, e, p), At(e.op, e, q)).None?
    {
      QuietPassTriedAll(e.op, e, [], [], p, q);
    }
    forall p: Path | IsOperand(e.op, e, p)
      ensures p != [] && Size(At(e.op, e, p)) < Size(e) && Settled(At(e.op, e, p))
    {
      PathsAreShort(e.op, e, p);
      var q := HasPartner(e.op, e, p);
      QuietPassTriedAll(e.op, e, [], [], p, q);
      if At(e.op, e, p).Bin? { QuietPassSettles(At(e.op, e, p)); }
    }
  }

  /** The result of expr_eliminate_dups offers no further join anywhere, so running it again
      changes nothing. */
  lemma {:induction false} ReducedIsSettled(e: Expr)
    ensures Settled(Reduced(e))
    ensures Reduced(Reduced(e)) == Reduced(e)
    decreases Size(e)
  {
    if e.Bin? {
      var (e1, n) := Pass(e.op, e, [], []);
      PassHasOutcome({}, e.op, e, [], []);
      if n > 0 {
        YnShrinks(e1);
        ReducedIsSettled(EliminateYn(e1));
      } else {
        QuietPassSettles(e);
      }
    }
  }

  // ---------- constants that are left ----------

  lemma {:induction false} SettledMeetIsQuiet(op: BinOp, e: Expr, a: Path, b: Path)
    requires e.IsBin(op) && Settled(e) && IsOperand(op, e, a) && IsOperand(op, e, b) && a != b
    ensures Meet(op, e, a, b) == (e, 0)
    decreases Size(e), 0, 0
  {
    PathsAreShort(op, e, a);
    var x := At(op, e, a);
    if x.Bin? { SettledIsQuiet(x, [], []); }
    PutBack(op, e, a);
  }

  /** Where nothing can be joined, a pass counts no join and changes nothing. */
  lemma {:induction false} SettledIsQuiet(e: Expr, a: Path, b: Path)
    requires e.Bin? && Settled(e) && InChain(e.op, e, a) && InChain(e.op, e, b)
    ensures Pass(e.op, e, a, b) == (e, 0)
    decreases Size(e), 1 + Size(e) - |a|, 1 + Size(e) - |b|
  {
    var op := e.op;
    PathsAreShort(op, e, a);
    PathsAreShort(op, e, b);
    if At(op, e, a).IsBin(op) {
      Extend(op, e, a, Left);
      Extend(op, e, a, Right);
      SettledIsQuiet(e, a + [Left], b);
      SettledIsQuiet(e, a + [Right], b);
    } else if At(op, e, b).IsBin(op) {
      Extend(op, e, b, Left);
      Extend(op, e, b, Right);
      SettledIsQuiet(e, a, b + [Left]);
      SettledIsQuiet(e, a, b + [Right]);
    } else if a != b {
      SettledMeetIsQuiet(op, e, a, b);
    }
  }

  /** Folding happens only after a pass that joined something. So a constant yes or no is left in
      the result exactly if one is in the input and nothing in the input can be joined. */
  lemma {:induction false} ReducedIsFoldableExactly(e: Expr)
    ensures Foldable(Reduced(e)) <==> Foldable(e) && Settled(e)
    decreases Size(e)
  {
    if e.Bin? {
      var (e1, n) := Pass(e.op, e, [], []);
      PassHasOutcome({}, e.op, e, [], []);
      if n > 0 {
        YnShrinks(e1);
        ReducedIsFoldableExactly(EliminateYn(e1));
        if Settled(e) { SettledIsQuiet(e, [], []); }
      } else {
        QuietPassSettles(e);
      }
    }
  }

  /** The operands of a chain of two. */
  lemma OperandsOfTwo(op: BinOp, l: Expr, r: Expr, p: Path)
    requires !l.IsBin(op) && !r.IsBin(op) && IsOperand(op, Bin(op, l, r), p)
    ensures p == [Left] || p == [Right]
    ensures At(op, Bin(op, l, r), p) == if p[0].Left? then l else r
  {
    assert p != [];
    OperandItself(op, if p[0].Left? then l else r, p[1..]);
    assert |p| == 1;
  }

  lemma OperandItself(op: BinOp, e: Expr, p: Path)
    requires !e.IsBin(op) && InChain(op, e, p)
    ensures p == [] && At(op, e, p) == e
  {
  }

  lemma TwoAreSettled(op: BinOp, l: Expr, r: Expr)
    requires !l.Bin? && !r.Bin? && Join(op, l, r).None? && Join(op, r, l).None?
    ensures Settled(Bin(op, l, r)) && Reduced(Bin(op, l, r)) == Bin(op, l, r)
  {
    var e := Bin(op, l, r);
    forall p: Path, q: Path | IsOperand(op, e, p) && IsOperand(op, e, q) && p != q
      ensures Join(op, At(op, e, p), At(op, e, q)).None?
    {
      OperandsOfTwo(op, l, r, p);
      OperandsOfTwo(op, l, r, q);
    }
    forall p: Path | IsOperand(op, e, p) ensures p != [] && Size(At(op, e, p)) < Size(e) && Settled(At(op, e, p)) {
      OperandsOfTwo(op, l, r, p);
    }
    SettledIsQuiet(e, [], []);
  }

  /** "y and A" comes out as it went in. */
  lemma ConstantIsLeft(a: Symbol)
    requires a.Config?
    ensures var e := Bin(And, Sym(SYM_YES), Sym(a)); Reduced(e) == e && Foldable(e)
  {
    TwoAreSettled(And, Sym(SYM_YES), Sym(a));
  }
}
