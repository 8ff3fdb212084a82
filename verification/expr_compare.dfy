/** expr_trans_compare, which rewrites "e = c" and "e != c" for an expression e into comparisons of
    its symbols, and when it is right. */
module ExprCompare {
  import opened Common
  import opened KconfigSyntax
  import opened ExprTransform

  /** The comparison constants y and n, by their values. */
  predicate IsExtreme(c: Tri) { c == YES || c == NO }

  function ConstantOf(c: Tri): Symbol
    requires IsExtreme(c)
  {
    if c == YES then SYM_YES else SYM_NO
  }

  /** expr_trans_compare */
  function TransCompare(e: Expr, ne: bool, c: Tri): Expr
    requires IsExtreme(c)
  {
    match e
    case Bin(op, l, r) =>
      var b := Bin(if c == YES then op else Dual(op), TransCompare(l, false, c), TransCompare(r, false, c));
      if ne then Not(b) else b
    case Not(a) => TransCompare(a, !ne, c)
    case Comp(_, _, _) => if (c == YES) == ne then Not(e) else e
    case Sym(s) => Comp(if ne then Ne else Eq, s, ConstantOf(c))
  }

  /** A missing expression is compared as the constant itself. */
  function TransCompareOpt(e: Option<Expr>, ne: bool, c: Tri): Expr
    requires IsExtreme(c)
  {
    if e.Some? then TransCompare(e.value, ne, c)
    else if ne then Not(Sym(ConstantOf(c))) else Sym(ConstantOf(c))
  }

  ghost function Answer(b: bool): Tri { if b then YES else NO }

  /** Whether the rewritten expression says "equal". A negation is taken for the opposite answer. */
  ghost predicate Says(v: Valuation, e: Expr, c: Tri)
    requires IsExtreme(c)
  {
    match e
    case Sym(s) => v.str(s) == ConstantOf(c).name
    case Not(a) => !Says(v, a, c)
    case Bin(op, l, r) =>
      if op.And? == (c == YES) then Says(v, l, c) && Says(v, r, c) else Says(v, l, c) || Says(v, r, c)
    case Comp(_, _, _) => Eval(v, e) == c
  }

  lemma {:induction false} TransCompareSays(v: Valuation, e: Expr, ne: bool, c: Tri)
    requires Proper(v) && IsExtreme(c)
    ensures Eval(v, TransCompare(e, ne, c)) == Answer(Says(v, e, c) != ne)
  {
    match e
    case Sym(s) => assert v.str(SYM_YES) == "y" && v.str(SYM_NO) == "n";
    case Not(a) => TransCompareSays(v, a, !ne, c);
    case Bin(op, l, r) =>
      TransCompareSays(v, l, false, c);
      TransCompareSays(v, r, false, c);
    case Comp(_, _, _) =>
  }

  /** The answer is right for e, or for the negation of e if `neg` is set. */
  ghost predicate Right(v: Valuation, e: Expr, neg: bool, c: Tri)
    requires IsExtreme(c)
  {
    if neg then !Says(v, e, c) <==> 2 - Eval(v, e) == c else Says(v, e, c) <==> Eval(v, e) == c
  }

  // ---------- one assignment ----------

  /** The string of every symbol used as a value mirrors that value, and nothing below an odd number
      of negations is mod. */
  ghost predicate Comparable(v: Valuation, e: Expr, neg: bool) {
    match e
    case Sym(s) => v.str(s) == TriString(v.tri(s)) && (neg ==> v.tri(s) != MOD)
    case Not(a) => Comparable(v, a, !neg) || (Eval(v, a) != MOD && Comparable(v, a, neg))
    case Bin(_, l, r) => Comparable(v, l, neg) && Comparable(v, r, neg)
    case Comp(_, _, _) => true
  }

  lemma {:induction false} ComparableIsRight(v: Valuation, e: Expr, neg: bool, c: Tri)
    requires Proper(v) && Comparable(v, e, neg) && IsExtreme(c)
    ensures Right(v, e, neg, c)
  {
    match e
    case Sym(_) =>
    case Not(a) => ComparableIsRight(v, a, if Comparable(v, a, !neg) then !neg else neg, c);
    case Bin(_, l, r) =>
      ComparableIsRight(v, l, neg, c);
      ComparableIsRight(v, r, neg, c);
    case Comp(_, _, _) =>
  }

  /** The rewriting says whether the expression has the value c. */
  lemma TransCompareMeaning(v: Valuation, e: Expr, ne: bool, c: Tri)
    requires Proper(v) && Comparable(v, e, false) && IsExtreme(c)
    ensures Eval(v, TransCompare(e, ne, c)) == Answer((Eval(v, e) == c) != ne)
  {
    ComparableIsRight(v, e, false, c);
    TransCompareSays(v, e, ne, c);
  }

  /** At one node in one assignment: at a symbol the rewriting is right exactly if the string says c when
      the value is c, and at a negation exactly if the operand is not mod. */
  lemma TransCompareExact(v: Valuation, s: Symbol, a: Expr, ne: bool, c: Tri)
    requires Proper(v) && Comparable(v, a, false) && IsExtreme(c)
    ensures Eval(v, TransCompare(Sym(s), ne, c)) == Answer((v.tri(s) == c) != ne)
            <==> (v.str(s) == ConstantOf(c).name <==> v.tri(s) == c)
    ensures Eval(v, TransCompare(Not(a), ne, c)) == Answer((Eval(v, Not(a)) == c) != ne) <==> Eval(v, a) != MOD
  {
    TransCompareSays(v, Sym(s), ne, c);
    TransCompareSays(v, Not(a), ne, c);
    ComparableIsRight(v, a, false, c);
  }

  /** The string of every symbol used as a value mirrors that value. */
  ghost predicate Mirrored(v: Valuation, e: Expr) {
    match e
    case Sym(s) => v.str(s) == TriString(v.tri(s))
    case Not(a) => Mirrored(v, a)
    case Bin(_, l, r) => Mirrored(v, l) && Mirrored(v, r)
    case Comp(_, _, _) => true
  }

  /** A wrong answer is possible only for the value mod. */
  lemma {:induction false} ExtremesAreRight(v: Valuation, e: Expr, c: Tri)
    requires Proper(v) && Mirrored(v, e) && IsExtreme(c)
    ensures IsExtreme(Eval(v, e)) ==> (Says(v, e, c) <==> Eval(v, e) == c)
  {
    match e
    case Sym(_) =>
    case Not(a) => ExtremesAreRight(v, a, c);
    case Bin(_, l, r) =>
      ExtremesAreRight(v, l, c);
      ExtremesAreRight(v, r, c);
    case Comp(_, _, _) =>
  }

  // ---------- all assignments ----------

  /** A condition on the expression alone: only bool and tristate symbols and y, m, n are used as
      values, and below an odd number of negations none that can be mod. */
  predicate Plain(e: Expr, neg: bool) {
    match e
    case Sym(s) =>
      && (s.HasTri() || s in {SYM_YES, SYM_MOD, SYM_NO})
      && (neg ==> s.Type().Bool? || s in {SYM_YES, SYM_NO})
    case Not(a) => Plain(a, !neg)
    case Bin(_, l, r) => Plain(l, neg) && Plain(r, neg)
    case Comp(_, _, _) => true
  }

  lemma {:induction false} PlainIsComparable(v: Valuation, e: Expr, neg: bool)
    requires Proper(v) && Plain(e, neg)
    ensures Comparable(v, e, neg)
  {
    match e
    case Sym(s) => assert v.str(SYM_YES) == "y" && v.str(SYM_MOD) == "m" && v.str(SYM_NO) == "n";
    case Not(a) => PlainIsComparable(v, a, !neg);
    case Bin(_, l, r) =>
      PlainIsComparable(v, l, neg);
      PlainIsComparable(v, r, neg);
    case Comp(_, _, _) =>
  }

  /** Only bool and tristate symbols and y, m, n are used as values. */
  predicate OnlyTri(e: Expr) {
    match e
    case Sym(s) => s.HasTri() || s in {SYM_YES, SYM_MOD, SYM_NO}
    case Not(a) => OnlyTri(a)
    case Bin(_, l, r) => OnlyTri(l) && OnlyTri(r)
    case Comp(_, _, _) => true
  }

  lemma {:induction false} OnlyTriIsMirrored(v: Valuation, e: Expr)
    requires Proper(v) && OnlyTri(e)
    ensures Mirrored(v, e)
  {
    match e
    case Sym(s) => assert v.str(SYM_YES) == "y" && v.str(SYM_MOD) == "m" && v.str(SYM_NO) == "n";
    case Not(a) => OnlyTriIsMirrored(v, a);
    case Bin(_, l, r) =>
      OnlyTriIsMirrored(v, l);
      OnlyTriIsMirrored(v, r);
    case Comp(_, _, _) =>
  }

  ghost predicate AlwaysRight(e: Expr, ne: bool, c: Tri)
    requires IsExtreme(c)
  {
    forall v :: Proper(v) ==> Eval(v, TransCompare(e, ne, c)) == Answer((Eval(v, e) == c) != ne)
  }

  lemma PlainIsAlwaysRight(e: Expr, ne: bool, c: Tri)
    requires IsExtreme(c) && Plain(e, false)
    ensures AlwaysRight(e, ne, c)
  {
    forall v | Proper(v) ensures Eval(v, TransCompare(e, ne, c)) == Answer((Eval(v, e) == c) != ne) {
      PlainIsComparable(v, e, false);
      TransCompareMeaning(v, e, ne, c);
    }
  }

  // ---------- where the condition is needed ----------

  /** A choice of values for some bool and tristate symbols; the other ones are no, and symbols of
      other types have an empty text. */
  type Choice = map<Symbol, Tri>

  ghost predicate Possible(m: Choice) { forall s :: s in m && m[s] == MOD ==> s.Type().Tristate? }

  function TriUnder(m: Choice, s: Symbol): Tri {
    if s == SYM_YES then YES else if s == SYM_MOD then MOD
    else if s.HasTri() && s in m then m[s] else NO
  }

  function Under(m: Choice): Valuation {
    Valuation(
      (s: Symbol) => TriUnder(m, s),
      (s: Symbol) => if s.Const? then s.name else if s.HasTri() then TriString(TriUnder(m, s)) else "",
      (_: SymbolType, _: string) => None)
  }

  lemma TextsDiffer(t: Tri, c: Tri)
    requires IsExtreme(c)
    ensures TriString(t) == ConstantOf(c).name <==> t == c
    ensures ConstantOf(c).name != "" && |ConstantOf(c).name| == 1
  {
  }

  lemma UnderIsProper(m: Choice)
    requires Possible(m)
    ensures Proper(Under(m))
  {
  }

  /** The values of other symbols do not matter. */
  lemma {:induction false} OnlyMentionedMatter(m: Choice, m': Choice, e: Expr, S: set<Symbol>, c: Tri)
    requires UsesOnly(e, S) && IsExtreme(c)
    requires forall s :: s in S ==> s in m && s in m' && m[s] == m'[s]
    ensures Eval(Under(m), e) == Eval(Under(m'), e)
    ensures Says(Under(m), e, c) == Says(Under(m'), e, c)
  {
    match e
    case Not(a) => OnlyMentionedMatter(m, m', a, S, c);
    case Bin(_, l, r) =>
      OnlyMentionedMatter(m, m', l, S, c);
      OnlyMentionedMatter(m, m', r, S, c);
    case _ =>
  }

  function Leaves(e: Expr): set<Symbol> {
    match e
    case Sym(s) => {s}
    case Not(a) => Leaves(a)
    case Bin(_, l, r) => Leaves(l) + Leaves(r)
    case Comp(_, a, _) => {a}
  }

  /** Every leaf is a bool or tristate symbol, or tests one against y or n, and no symbol is used twice. */
  predicate ReadOnce(e: Expr) {
    match e
    case Sym(s) => s.HasTri()
    case Not(a) => ReadOnce(a)
    case Bin(_, l, r) => ReadOnce(l) && ReadOnce(r) && Leaves(l) !! Leaves(r)
    case Comp(op, a, b) => (op.Eq? || op.Ne?) && a.HasTri() && (b == SYM_YES || b == SYM_NO)
  }

  lemma {:induction false} LeavesAreUsed(e: Expr)
    requires ReadOnce(e)
    ensures UsesOnly(e, Leaves(e))
  {
    match e
    case Not(a) => LeavesAreUsed(a);
    case Bin(_, l, r) =>
      LeavesAreUsed(l);
      LeavesAreUsed(r);
      UsesMore(l, Leaves(l), Leaves(e));
      UsesMore(r, Leaves(r), Leaves(e));
    case _ =>
  }

  lemma {:induction false} UsesMore(e: Expr, S: set<Symbol>, T: set<Symbol>)
    requires UsesOnly(e, S) && S <= T
    ensures UsesOnly(e, T)
  {
    match e
    case Not(a) => UsesMore(a, S, T);
    case Bin(_, l, r) =>
      UsesMore(l, S, T);
      UsesMore(r, S, T);
    case _ =>
  }

  /** Each half keeps its meaning under the choices for both. */
  lemma HalvesAgree(l: Expr, r: Expr, ml: Choice, mr: Choice, c: Tri)
    requires ReadOnce(l) && ReadOnce(r) && Leaves(l) !! Leaves(r) && IsExtreme(c)
    requires ml.Keys == Leaves(l) && mr.Keys == Leaves(r) && Possible(ml) && Possible(mr)
    ensures var m := ml + mr;
            && Possible(m) && m.Keys == Leaves(l) + Leaves(r)
            && Eval(Under(m), l) == Eval(Under(ml), l) && Says(Under(m), l, c) == Says(Under(ml), l, c)
            && Eval(Under(m), r) == Eval(Under(mr), r) && Says(Under(m), r, c) == Says(Under(mr), r, c)
  {
    LeavesAreUsed(l);
    LeavesAreUsed(r);
    OnlyMentionedMatter(ml, ml + mr, l, Leaves(l), c);
    OnlyMentionedMatter(mr, ml + mr, r, Leaves(r), c);
  }

  lemma TestCanBe(e: Expr, t: Tri) returns (m: Choice)
    requires ReadOnce(e) && e.Comp? && IsExtreme(t)
    ensures m.Keys == Leaves(e) && Possible(m) && Eval(Under(m), e) == t
  {
    m := map[e.lhs := if (e.cmp.Eq? == (t == YES)) == (e.rhs == SYM_YES) then YES else NO];
    UnderIsProper(m);
    TextsDiffer(m[e.lhs], if e.rhs == SYM_YES then YES else NO);
  }

  /** An expression without repetition can be made yes and no, with right answers. */
  lemma {:induction false} CanBe(e: Expr, t: Tri, c: Tri) returns (m: Choice)
    requires ReadOnce(e) && IsExtreme(t) && IsExtreme(c)
    ensures m.Keys == Leaves(e) && Possible(m)
    ensures Eval(Under(m), e) == t && (Says(Under(m), e, c) <==> t == c)
  {
    match e
    case Sym(s) =>
      m := map[s := t];
      TextsDiffer(t, c);
    case Not(a) => m := CanBe(a, 2 - t, c);
    case Comp(_, _, _) => m := TestCanBe(e, t);
    case Bin(_, l, r) =>
      var ml := CanBe(l, t, c);
      var mr := CanBe(r, t, c);
      HalvesAgree(l, r, ml, mr, c);
      m := ml + mr;
  }

  /** A symbol that can be mod, below an odd number of negations, makes the answer wrong: the rest of
      the expression is chosen so that it passes that symbol's value on. */
  lemma {:induction false} CanBeWrong(e: Expr, neg: bool, c: Tri) returns (m: Choice)
    requires ReadOnce(e) && IsExtreme(c) && !Plain(e, neg)
    ensures m.Keys == Leaves(e) && Possible(m) && !Right(Under(m), e, neg, c)
  {
    match e
    case Sym(s) =>
      m := map[s := MOD];
      TextsDiffer(MOD, c);
    case Not(a) => m := CanBeWrong(a, !neg, c);
    case Bin(op, l, r) =>
      var unit := if op.And? then YES else NO;
      if !Plain(l, neg) {
        var ml := CanBeWrong(l, neg, c);
        var mr := CanBe(r, unit, c);
        HalvesAgree(l, r, ml, mr, c);
        m := ml + mr;
      } else {
        var ml := CanBe(l, unit, c);
        var mr := CanBeWrong(r, neg, c);
        HalvesAgree(l, r, ml, mr, c);
        m := ml + mr;
      }
  }

  /** For expressions that use no symbol twice, the condition is exact. */
  lemma PlainExactly(e: Expr, ne: bool, c: Tri)
    requires ReadOnce(e) && IsExtreme(c)
    ensures AlwaysRight(e, ne, c) <==> Plain(e, false)
  {
    if Plain(e, false) {
      PlainIsAlwaysRight(e, ne, c);
    } else {
      var m := CanBeWrong(e, false, c);
      UnderIsProper(m);
      TransCompareSays(Under(m), e, ne, c);
    }
  }

  /** A number or string symbol, or another constant, that is used as a value: its value is no,
      but its text is not "n". */
  lemma OtherValuesAreWrong(s: Symbol, ne: bool)
    requires !Plain(Sym(s), false)
    ensures !AlwaysRight(Sym(s), ne, NO)
  {
    UnderIsProper(map[]);
    TextsDiffer(NO, NO);
    TransCompareSays(Under(map[]), Sym(s), ne, NO);
  }

  /** A symbol that is used twice can make up for it. */
  lemma RepetitionCanHelp(a: Symbol, ne: bool)
    requires a.Type().Tristate?
    ensures var e := Bin(Or, Sym(a), Not(Sym(a))); !Plain(e, false) && AlwaysRight(e, ne, NO)
  {
    var e := Bin(Or, Sym(a), Not(Sym(a)));
    assert !Plain(Not(Sym(a)), false);
    forall v | Proper(v) ensures Eval(v, TransCompare(e, ne, NO)) == Answer((Eval(v, e) == NO) != ne) {
      TextsDiffer(v.tri(a), NO);
      assert Eval(v, Not(Sym(a))) == 2 - v.tri(a) && Says(v, Not(Sym(a)), NO) == !Says(v, Sym(a), NO);
      TransCompareSays(v, e, ne, NO);
    }
  }
}
