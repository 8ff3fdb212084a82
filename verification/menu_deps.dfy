/** The dependency expressions that menu_finalize builds, and the test by which it nests entries. */
module MenuDeps {
  import opened Common
  import opened KconfigSyntax
  import opened ExprEqual
  import opened ExprDups
  import opened ExprTransform
  import opened ExprCompare

  function ReducedOpt(e: Option<Expr>): Option<Expr> { if e.None? then None else Some(Reduced(e.value)) }

  function TransformOpt(e: Option<Expr>): Option<Expr> { if e.None? then None else Some(Transform(e.value)) }

  function TransBoolOpt(e: Option<Expr>): Option<Expr> { if e.None? then None else Some(TransBool(e.value)) }

  ghost predicate NegOnSymbolsOpt(e: Option<Expr>) { e.Some? ==> NegOnSymbols(e.value) }

  /** The dependency of an entry: what its parent requires and what it requires itself. */
  function BaseDep(parentDep: Option<Expr>, own: Option<Expr>): Option<Expr> {
    ReducedOpt(AllocAnd(parentDep, TransformOpt(own)))
  }

  /** The condition stored in a property of the entry. */
  function PropertyDep(base: Option<Expr>, own: Option<Expr>, tristate: bool): Option<Expr> {
    var dep := ReducedOpt(AllocAnd(base, TransformOpt(own)));
    if tristate then dep else TransBoolOpt(dep)
  }

  lemma BaseDepMeaning(v: Valuation, parentDep: Option<Expr>, own: Option<Expr>)
    requires Proper(v) && NegOnSymbolsOpt(parentDep)
    ensures EvalOpt(v, BaseDep(parentDep, own)) == Min(EvalOpt(v, parentDep), EvalOpt(v, own))
    ensures NegOnSymbolsOpt(BaseDep(parentDep, own))
  {
    if own.Some? {
      TransformKeepsValue(v, own.value);
      TransformIsNormal(own.value);
      NormalNegatesSymbols(Transform(own.value));
    }
    var all := AllocAnd(parentDep, TransformOpt(own));
    if all.Some? {
      ReducedKeepsValue(v, all.value);
      ReducedKeepsNegOnSymbols(all.value);
    }
  }

  /** How sym_calc_visibility rounds the visibility of a symbol. */
  function Lift(t: Tri, keepMod: bool): Tri { if t == MOD && !keepMod then YES else t }

  /** Parent dependency, own dependency and prompt condition, through three rewriting passes, come
      out as their conjunction; for a symbol whose visibility is rounded, up to that rounding. */
  lemma PropertyDepMeaning(v: Valuation, parentDep: Option<Expr>, dep: Option<Expr>, own: Option<Expr>,
                           tristate: bool, keepMod: bool)
    requires Proper(v) && NegOnSymbolsOpt(parentDep)
    requires keepMod ==> tristate
    ensures var p := PropertyDep(BaseDep(parentDep, dep), own, tristate);
            && Lift(EvalOpt(v, p), keepMod) ==
               Lift(Min(Min(EvalOpt(v, parentDep), EvalOpt(v, dep)), EvalOpt(v, own)), keepMod)
            && NegOnSymbolsOpt(p)
  {
    BaseDepMeaning(v, parentDep, dep);
    var base := BaseDep(parentDep, dep);
    BaseDepMeaning(v, base, own);
    var p := BaseDep(base, own);
    if p.Some? { TransBoolKeepsVisible(v, p.value); }
  }

  // ---------- what is written and what is stored ----------

  /** An entry that defines a symbol: the dependency handed down by its parent, and its own. */
  datatype Definition = Definition(parentDep: Option<Expr>, own: Option<Expr>)

  function WrittenDep(d: Definition): Option<Expr> { AllocAnd(d.parentDep, d.own) }

  function StoredDep(d: Definition): Option<Expr> { BaseDep(d.parentDep, d.own) }

  /** The condition of a property, with the entry that the property belongs to. */
  datatype Condition = Condition(entry: Definition, own: Option<Expr>)

  function WrittenCond(c: Condition): Option<Expr> { AllocAnd(WrittenDep(c.entry), c.own) }

  function StoredCond(c: Condition, tristate: bool): Option<Expr> { PropertyDep(StoredDep(c.entry), c.own, tristate) }

  /** What a parent hands down is a stored condition itself, with its negations on symbols. */
  ghost predicate Handed(d: Definition) { NegOnSymbolsOpt(d.parentDep) }

  /** The dependencies of all entries that define a symbol, one or the other of which has to hold. */
  function AnyOf(deps: seq<Option<Expr>>): Option<Expr> {
    if deps == [] then None else AllocOr(AnyOf(deps[..|deps| - 1]), deps[|deps| - 1])
  }

  function WrittenDeps(entries: seq<Definition>): seq<Option<Expr>> {
    seq(|entries|, i requires 0 <= i < |entries| => WrittenDep(entries[i]))
  }

  function StoredDeps(entries: seq<Definition>): seq<Option<Expr>> {
    seq(|entries|, i requires 0 <= i < |entries| => StoredDep(entries[i]))
  }

  // ---------- nesting a following entry below the entry of `sym` ----------

  /** expr_contains_symbol */
  predicate Contains(e: Expr, s: Symbol) {
    match e
    case Sym(t) => t == s
    case Not(a) => Contains(a, s)
    case Bin(_, l, r) => Contains(l, s) || Contains(r, s)
    case Comp(_, a, b) => a == s || b == s
  }

  /** expr_depends_symbol */
  predicate Depends(e: Expr, s: Symbol) {
    match e
    case Sym(t) => t == s
    case Bin(op, l, r) => op.And? && (Depends(l, s) || Depends(r, s))
    case Comp(op, a, b) => a == s && ((op.Eq? && (b == SYM_YES || b == SYM_MOD)) || (op.Ne? && b == SYM_NO))
    case Not(_) => false
  }

  /** An expression that depends on a symbol is off whenever the symbol is off. */
  lemma {:induction false} DependsImplies(v: Valuation, e: Expr, s: Symbol)
    requires Proper(v) && s.HasTri() && Depends(e, s)
    ensures v.tri(s) == NO ==> Eval(v, e) == NO
  {
    match e
    case Bin(_, l, r) =>
      if Depends(l, s) { DependsImplies(v, l, s); } else { DependsImplies(v, r, s); }
    case Comp(op, _, b) => TestOfTriSymbol(v, op, s, b);
    case _ =>
  }

  lemma {:induction false} DependsContains(e: Expr, s: Symbol)
    requires Depends(e, s)
    ensures Contains(e, s)
  {
    match e
    case Bin(_, l, r) =>
      if Depends(l, s) { DependsContains(l, s); } else { DependsContains(r, s); }
    case _ =>
  }

  /** "Not no", as both sides of the implication test are prepared. */
  function NotNo(e: Option<Expr>): Expr { Reduced(Transform(TransCompareOpt(e, true, NO))) }

  /** The test of menu_finalize for one following entry. */
  predicate Adopts(dep: Option<Expr>, promptDep: Option<Expr>, s: Symbol) {
    && dep.Some?
    && Contains(dep.value, s)
    && (Depends(dep.value, s) || EliminateEq(NotNo(dep), NotNo(promptDep)).1 == Sym(SYM_YES))
  }

  /** x is one of the conditions that e consists of. */
  predicate IsConjunct(x: Expr, e: Expr) {
    x == e || (e.Bin? && e.op.And? && (IsConjunct(x, e.left) || IsConjunct(x, e.right)))
  }

  /** The conditions that ask for the symbol: itself, or a test for y, for m, or against n. */
  predicate AsksFor(x: Expr, s: Symbol) {
    x == Sym(s) || x == Comp(Eq, s, SYM_YES) || x == Comp(Eq, s, SYM_MOD) || x == Comp(Ne, s, SYM_NO)
  }

  lemma {:induction false} DependsExactly(e: Expr, s: Symbol)
    ensures Depends(e, s) <==> exists x :: IsConjunct(x, e) && AsksFor(x, s)
  {
    if e.Bin? && e.op.And? {
      DependsExactly(e.left, s);
      DependsExactly(e.right, s);
      if x :| IsConjunct(x, e.left) && AsksFor(x, s) { assert IsConjunct(x, e); }
      if x :| IsConjunct(x, e.right) && AsksFor(x, s) { assert IsConjunct(x, e); }
    } else {
      assert IsConjunct(e, e) && (Depends(e, s) <==> AsksFor(e, s));
      if x :| IsConjunct(x, e) && AsksFor(x, s) { assert x == e; }
    }
  }

  /** An entry that asks for the symbol in one of its conditions is nested whatever the prompt of the
      symbol needs. */
  lemma AskingIsNested(dep: Expr, promptDep: Option<Expr>, s: Symbol, x: Expr)
    requires IsConjunct(x, dep) && AsksFor(x, s)
    ensures Adopts(Some(dep), promptDep, s)
  {
    DependsExactly(dep, s);
    DependsContains(dep, s);
  }

  lemma NotNoSays(v: Valuation, e: Option<Expr>)
    requires Proper(v)
    ensures Eval(v, NotNo(e)) == Answer(e.Some? ==> !Says(v, e.value, NO))
  {
    var c := TransCompareOpt(e, true, NO);
    if e.Some? { TransCompareSays(v, e.value, true, NO); }
    TransformKeepsValue(v, c);
    ReducedKeepsValue(v, Transform(c));
  }

  /** A nested entry that is visible is not visible on its own: its new parent's symbol is set, or the
      parent's prompt is visible. This needs comparable dependencies, unless the entry is visible
      with y. */
  lemma AdoptedNeedsParent(v: Valuation, dep: Option<Expr>, promptDep: Option<Expr>, s: Symbol)
    requires Proper(v) && s.HasTri() && Adopts(dep, promptDep, s) && Eval(v, dep.value) != NO
    requires Comparable(v, dep.value, false) || (Mirrored(v, dep.value) && Eval(v, dep.value) == YES)
    requires promptDep.Some? ==> Mirrored(v, promptDep.value)
    ensures v.tri(s) != NO || EvalOpt(v, promptDep) != NO
    ensures Depends(dep.value, s) ==> v.tri(s) != NO
  {
    if Depends(dep.value, s) {
      DependsImplies(v, dep.value, s);
    } else {
      NotNoSays(v, dep);
      NotNoSays(v, promptDep);
      ResidueYesImplies(v, NotNo(dep), NotNo(promptDep));
      if Comparable(v, dep.value, false) {
        ComparableIsRight(v, dep.value, false, NO);
      } else {
        ExtremesAreRight(v, dep.value, NO);
      }
      if promptDep.Some? { ExtremesAreRight(v, promptDep.value, NO); }
    }
  }

  /** So nesting is safe in every assignment if no dependency has anything but bool and tristate
      symbols as values, and the nested entry's has none that can be mod below an odd number of
      negations. */
  lemma PlainEntryIsNestedSafely(dep: Option<Expr>, promptDep: Option<Expr>, s: Symbol)
    requires s.HasTri() && Adopts(dep, promptDep, s)
    requires Plain(dep.value, false) && (promptDep.Some? ==> OnlyTri(promptDep.value))
    ensures forall v :: Proper(v) && Eval(v, dep.value) != NO ==> v.tri(s) != NO || EvalOpt(v, promptDep) != NO
  {
    forall v | Proper(v) && Eval(v, dep.value) != NO ensures v.tri(s) != NO || EvalOpt(v, promptDep) != NO {
      PlainIsComparable(v, dep.value, false);
      if promptDep.Some? { OnlyTriIsMirrored(v, promptDep.value); }
      AdoptedNeedsParent(v, dep, promptDep, s);
    }
  }

  lemma NormalNegation(a: Symbol)
    requires a.Type().Tristate?
    ensures TransCompare(Not(Sym(a)), false, NO) == Comp(Ne, a, SYM_NO)
    ensures Transform(Not(Comp(Ne, a, SYM_NO))) == Comp(Eq, a, SYM_NO)
  {
    assert TransCompare(Sym(a), true, NO) == Comp(Ne, a, SYM_NO);
    assert Transform(Comp(Ne, a, SYM_NO)) == Comp(Ne, a, SYM_NO);
  }

  /** What the test makes of "not A and not S": "A is n and S is n", which cannot be reduced. */
  lemma NotNoOfNegations(a: Symbol, s: Symbol)
    requires a.Type().Tristate? && s.Type().Tristate? && a != s
    ensures NotNo(Some(Bin(And, Not(Sym(a)), Not(Sym(s))))) == Bin(And, Comp(Eq, a, SYM_NO), Comp(Eq, s, SYM_NO))
    ensures NotNo(Some(Comp(Eq, a, SYM_NO))) == Comp(Eq, a, SYM_NO)
  {
    var (ea, es) := (Comp(Eq, a, SYM_NO), Comp(Eq, s, SYM_NO));
    var (na, ns) := (Comp(Ne, a, SYM_NO), Comp(Ne, s, SYM_NO));
    NormalNegation(a);
    NormalNegation(s);
    assert Transform(Bin(Or, na, ns)) == Bin(Or, na, ns);
    assert Transform(Not(Bin(Or, na, ns))) == Transform(Bin(And, Not(na), Not(ns)));
    TwoAreSettled(And, ea, es);
  }

  lemma NegatedSymbol(v: Valuation, s: Symbol)
    ensures Eval(v, Not(Sym(s))) == 2 - v.tri(s)
  {
  }

  /** An entry that depends on "not A and not S" is nested below the one of S if the prompt of S needs
      "A is n". With A at m and S at n it is visible all by itself. */
  lemma NestedButAlone(v: Valuation, a: Symbol, s: Symbol)
    requires Proper(v) && a.Type().Tristate? && s.Type().Tristate? && a != s
    requires v.tri(a) == MOD && v.tri(s) == NO
    ensures var (dep, promptDep) := (Some(Bin(And, Not(Sym(a)), Not(Sym(s)))), Some(Comp(Eq, a, SYM_NO)));
            && Adopts(dep, promptDep, s)
            && Eval(v, dep.value) == MOD && v.tri(s) == NO && EvalOpt(v, promptDep) == NO
  {
    NotNoOfNegations(a, s);
    var (ea, es) := (Comp(Eq, a, SYM_NO), Comp(Eq, s, SYM_NO));
    assert Cancel(And, ea, ea) == (Sym(SYM_YES), Sym(SYM_YES));
    assert Cancel(And, es, Sym(SYM_YES)) == (es, Sym(SYM_YES));
    var residues := (Bin(And, Sym(SYM_YES), es), Sym(SYM_YES));
    assert Cancel(And, Bin(And, ea, es), ea) == residues;
    assert CancelBoth(Bin(And, ea, es), ea) == residues;
    assert EliminateYn(Sym(SYM_YES)) == Sym(SYM_YES);
    TestOfTriSymbol(v, Eq, a, SYM_NO);
    assert Contains(Not(Sym(s)), s);
    NegatedSymbol(v, a);
    NegatedSymbol(v, s);
  }
}
