/** The values of bool and tristate symbols outside choices, by a plain recursive definition. */
module SymbolValues {
  import opened Common
  import opened KconfigSyntax

  /** What the parser recorded about a symbol: the conditions of its prompts, its direct
      dependency, its selectors and implying symbols, and its defaults with their conditions. */
  datatype Declaration = Declaration(
    ty: SymbolType,
    prompts: seq<Option<Expr>>,
    dirDep: Option<Expr>,
    revDep: Option<Expr>,
    implied: Option<Expr>,
    defaults: seq<(Option<Expr>, Expr)>)

  /** All declarations; `rank` witnesses that the dependencies are acyclic. */
  datatype Graph = Graph(decls: seq<Declaration>, rank: seq<nat>)

  /** `user` holds the values set by the user, `modules` the (fixed) value of the modules symbol,
      and `fixed` the values of everything that is neither bool nor tristate. */
  datatype Net = Net(
    graph: Graph,
    user: seq<Option<Tri>>,
    modules: Tri,
    fixed: Valuation)

  /** A symbol that the network evaluates, ranked below k. */
  predicate Below(g: Graph, s: Symbol, k: nat) {
    s.HasTri() ==> s.id < |g.decls| && s.id < |g.rank| && g.decls[s.id].ty == s.ty && g.rank[s.id] < k
  }

  predicate ExprBelow(g: Graph, e: Expr, k: nat) {
    match e
    case Sym(s) => Below(g, s, k)
    case Not(a) => ExprBelow(g, a, k)
    case Bin(_, l, r) => ExprBelow(g, l, k) && ExprBelow(g, r, k)
    case Comp(_, a, b) => Below(g, a, k) && Below(g, b, k)
  }

  predicate OptBelow(g: Graph, e: Option<Expr>, k: nat) { e.Some? ==> ExprBelow(g, e.value, k) }

  /** Everything a symbol's value is computed from ranks below the symbol. */
  predicate DeclBelow(g: Graph, d: Declaration, k: nat) {
    && (forall i :: 0 <= i < |d.prompts| ==> OptBelow(g, d.prompts[i], k))
    && OptBelow(g, d.dirDep, k) && OptBelow(g, d.revDep, k) && OptBelow(g, d.implied, k)
    && (forall i :: 0 <= i < |d.defaults| ==> OptBelow(g, d.defaults[i].0, k) && ExprBelow(g, d.defaults[i].1, k))
  }

  predicate Acyclic(net: Net) {
    && |net.user| == |net.graph.rank| == |net.graph.decls|
    && (forall i :: 0 <= i < |net.graph.decls| ==>
          (net.graph.decls[i].ty.Bool? || net.graph.decls[i].ty.Tristate?)
          && DeclBelow(net.graph, net.graph.decls[i], net.graph.rank[i]))
  }

  /** The string of a bool or tristate symbol: a mod value reads as "n" while modules are off. */
  function StringOf(modules: Tri, t: Tri): string {
    if t == NO then "n" else if t == MOD then (if modules == NO then "n" else "m") else "y"
  }

  // ---------- the plain recursive definition ----------

  ghost function SymTri(net: Net, s: Symbol, k: nat): Tri
    requires Acyclic(net) && Below(net.graph, s, k)
    decreases k, 0, 0
  {
    if s.HasTri() then Value(net, s.id) else net.fixed.tri(s)
  }

  ghost function SymString(net: Net, s: Symbol, k: nat): string
    requires Acyclic(net) && Below(net.graph, s, k)
    decreases k, 0, 0
  {
    if s.HasTri() then StringOf(net.modules, Value(net, s.id)) else net.fixed.str(s)
  }

  ghost function ValueIn(net: Net, e: Expr, k: nat): Tri
    requires Acyclic(net) && ExprBelow(net.graph, e, k)
    decreases k, 1, e
  {
    match e
    case Sym(s) => SymTri(net, s, k)
    case Not(a) => 2 - ValueIn(net, a, k)
    case Bin(op, l, r) => Combine(op, ValueIn(net, l, k), ValueIn(net, r, k))
    case Comp(op, a, b) =>
      if Holds(op, CompareStrings(net.fixed.number, a, SymString(net, a, k), b, SymString(net, b, k))) then YES else NO
  }

  ghost function ValueOpt(net: Net, e: Option<Expr>, k: nat): Tri
    requires Acyclic(net) && OptBelow(net.graph, e, k)
    decreases k, 2
  {
    if e.None? then YES else ValueIn(net, e.value, k)
  }

  function EffectiveType(net: Net, i: nat): SymbolType
    requires i < |net.graph.decls|
  {
    if net.graph.decls[i].ty.Tristate? && net.modules == NO then Bool else net.graph.decls[i].ty
  }

  /** mod counts as yes for a symbol that is in effect bool. */
  function Rounded(net: Net, i: nat, t: Tri): Tri
    requires i < |net.graph.decls|
  {
    if t == MOD && EffectiveType(net, i).Bool? then YES else t
  }

  ghost function MaxOf(net: Net, es: seq<Option<Expr>>, k: nat): Tri
    requires Acyclic(net) && forall j :: 0 <= j < |es| ==> OptBelow(net.graph, es[j], k)
    decreases k, 3, |es|
  {
    if es == [] then NO else Max(MaxOf(net, es[..|es| - 1], k), ValueOpt(net, es[|es| - 1], k))
  }

  ghost function Visible(net: Net, i: nat): Tri
    requires Acyclic(net) && i < |net.graph.decls|
    decreases net.graph.rank[i], 4
  {
    Rounded(net, i, MaxOf(net, net.graph.decls[i].prompts, net.graph.rank[i]))
  }

  /** The direct dependency; its mod always counts as yes. */
  ghost function Direct(net: Net, i: nat): Tri
    requires Acyclic(net) && i < |net.graph.decls|
    decreases net.graph.rank[i], 4
  {
    var t := ValueOpt(net, net.graph.decls[i].dirDep, net.graph.rank[i]);
    if t == MOD then YES else t
  }

  ghost function Selected(net: Net, i: nat): Tri
    requires Acyclic(net) && i < |net.graph.decls|
    decreases net.graph.rank[i], 4
  {
    var e := net.graph.decls[i].revDep;
    Rounded(net, i, if e.Some? then ValueIn(net, e.value, net.graph.rank[i]) else NO)
  }

  ghost function Implied(net: Net, i: nat): Tri
    requires Acyclic(net) && i < |net.graph.decls|
    decreases net.graph.rank[i], 5
  {
    var e := net.graph.decls[i].implied;
    Rounded(net, i, if e.Some? && Direct(net, i) != NO then ValueIn(net, e.value, net.graph.rank[i]) else NO)
  }

  /** The first default whose condition holds, limited by that condition. */
  ghost function Default(net: Net, ds: seq<(Option<Expr>, Expr)>, k: nat): Option<Tri>
    requires Acyclic(net)
    requires forall j :: 0 <= j < |ds| ==> OptBelow(net.graph, ds[j].0, k) && ExprBelow(net.graph, ds[j].1, k)
    decreases k, 3, |ds|
  {
    if ds == [] then None
    else
      var c := ValueOpt(net, ds[0].0, k);
      if c != NO then Some(Min(ValueIn(net, ds[0].1, k), c)) else Default(net, ds[1..], k)
  }

  ghost function DefaultOf(net: Net, i: nat): Option<Tri>
    requires Acyclic(net) && i < |net.graph.decls|
    decreases net.graph.rank[i], 4
  {
    Default(net, net.graph.decls[i].defaults, net.graph.rank[i])
  }

  /** The default, raised to the implied value. */
  ghost function Defaulted(net: Net, i: nat): Tri
    requires Acyclic(net) && i < |net.graph.decls|
    decreases net.graph.rank[i], 6
  {
    var d := DefaultOf(net, i);
    Max(if d.Some? then d.value else NO, Implied(net, i))
  }

  /** What the user chose within the visible range, or else the default. */
  ghost function Chosen(net: Net, i: nat): Tri
    requires Acyclic(net) && i < |net.graph.decls|
    decreases net.graph.rank[i], 7
  {
    if Visible(net, i) != NO && net.user[i].Some? then Min(net.user[i].value, Visible(net, i)) else Defaulted(net, i)
  }

  /** The value of a symbol. */
  ghost function Value(net: Net, i: nat): Tri
    requires Acyclic(net) && i < |net.graph.decls|
    decreases net.graph.rank[i], 8
  {
    var t := Max(Chosen(net, i), Selected(net, i));
    if t == MOD && (EffectiveType(net, i).Bool? || Implied(net, i) == YES) then YES else t
  }

  /** Whether the symbol is written to the configuration file. */
  ghost predicate Written(net: Net, i: nat)
    requires Acyclic(net) && i < |net.graph.decls|
  {
    Visible(net, i) != NO || Selected(net, i) != NO || Implied(net, i) != NO || DefaultOf(net, i).Some?
  }

  // ---------- the evaluated network as a snapshot ----------

  ghost predicate Known(net: Net, s: Symbol) { s.HasTri() && s.id < |net.graph.decls| && net.graph.decls[s.id].ty == s.ty }

  ghost function TriOf(net: Net, s: Symbol): Tri
    requires Acyclic(net)
  {
    if Known(net, s) then Value(net, s.id) else if s.HasTri() then NO else net.fixed.tri(s)
  }

  ghost function Snapshot(net: Net): Valuation
    requires Acyclic(net)
  {
    Valuation(
      (s: Symbol) => TriOf(net, s),
      (s: Symbol) => if s.HasTri() then StringOf(net.modules, TriOf(net, s)) else net.fixed.str(s),
      net.fixed.number)
  }

  /** Evaluation never produces mod for a symbol that is in effect bool. */
  lemma ValueRespectsType(net: Net, i: nat)
    requires Acyclic(net) && i < |net.graph.decls| && EffectiveType(net, i).Bool?
    ensures Value(net, i) != MOD
  {
  }

  /** So the values form a proper snapshot, which is what the rewriting passes rely on. */
  lemma SnapshotIsProper(net: Net)
    requires Acyclic(net) && Proper(net.fixed)
    ensures Proper(Snapshot(net))
  {
    var v := Snapshot(net);
    forall s: Symbol | s.HasTri()
      ensures v.str(s) == TriString(v.tri(s)) && (s.Type().Bool? ==> v.tri(s) != MOD)
    {
      if Known(net, s) && EffectiveType(net, s.id).Bool? { ValueRespectsType(net, s.id); }
    }
  }

  lemma {:induction false} ValueInIsEval(net: Net, e: Expr, k: nat)
    requires Acyclic(net) && ExprBelow(net.graph, e, k)
    ensures ValueIn(net, e, k) == Eval(Snapshot(net), e)
  {
    match e
    case Sym(_) =>
    case Not(a) => ValueInIsEval(net, a, k);
    case Bin(_, l, r) =>
      ValueInIsEval(net, l, k);
      ValueInIsEval(net, r, k);
    case Comp(_, a, b) =>
      assert SymString(net, a, k) == Snapshot(net).str(a) && SymString(net, b, k) == Snapshot(net).str(b);
  }

  // ---------- setting a value ----------

  function WithUser(net: Net, i: nat, val: Tri): Net
    requires i < |net.user|
  {
    net.(user := net.user[i := Some(val)])
  }

  /** sym_tristate_within_range, outside choices */
  ghost predicate WithinRange(net: Net, i: nat, val: Tri)
    requires Acyclic(net) && i < |net.graph.decls|
  {
    && Visible(net, i) != NO
    && !(EffectiveType(net, i).Bool? && val == MOD)
    && Visible(net, i) > Selected(net, i)
    && !(Implied(net, i) == YES && val == MOD)
    && Selected(net, i) <= val <= Visible(net, i)
  }

  // ---------- when two networks have the same values ----------

  /** The same value, or, where only visibility counts, both no or both not no. */
  predicate Agree(t: Tri, t': Tri, visibility: bool) { if visibility then t == NO <==> t' == NO else t == t' }

  /** Agreement in every proper snapshot; the rewriting passes of the optimiser give such pairs. */
  ghost predicate Equivalent(e: Expr, e': Expr, visibility: bool) {
    forall v :: Proper(v) ==> Agree(Eval(v, e), Eval(v, e'), visibility)
  }

  ghost predicate EquivalentOpt(e: Option<Expr>, e': Option<Expr>, visibility: bool) {
    (e.Some? <==> e'.Some?) && (e.Some? ==> Equivalent(e.value, e'.value, visibility))
  }

  /** Everything but the selectors and implying symbols. The conditions of the prompts and defaults
      of a bool symbol only count as no or not no. */
  ghost predicate EquivalentOwn(d: Declaration, d': Declaration) {
    && d.ty == d'.ty && |d.prompts| == |d'.prompts| && |d.defaults| == |d'.defaults|
    && (forall i :: 0 <= i < |d.prompts| ==> EquivalentOpt(d.prompts[i], d'.prompts[i], d.ty.Bool?))
    && EquivalentOpt(d.dirDep, d'.dirDep, false)
    && (forall i :: 0 <= i < |d.defaults| ==>
          EquivalentOpt(d.defaults[i].0, d'.defaults[i].0, d.ty.Bool?) && Equivalent(d.defaults[i].1, d'.defaults[i].1, false))
  }

  ghost predicate EquivalentDecl(d: Declaration, d': Declaration) {
    && EquivalentOwn(d, d')
    && EquivalentOpt(d.revDep, d'.revDep, false) && EquivalentOpt(d.implied, d'.implied, false)
  }

  ghost predicate SameBase(a: Net, b: Net) {
    && Acyclic(a) && Acyclic(b) && Proper(a.fixed)
    && a.modules == b.modules && a.fixed == b.fixed && a.graph.rank == b.graph.rank
    && (forall i :: 0 <= i < |a.graph.decls| ==> EquivalentOwn(a.graph.decls[i], b.graph.decls[i]))
  }

  /** The networks differ only in how expressions are written and in user values of rank k or more. */
  ghost predicate SameBelow(a: Net, b: Net, k: nat) {
    && SameBase(a, b)
    && (forall i :: 0 <= i < |a.graph.decls| ==> EquivalentDecl(a.graph.decls[i], b.graph.decls[i]))
    && (forall i :: 0 <= i < |a.graph.decls| && a.graph.rank[i] < k ==> a.user[i] == b.user[i])
  }

  ghost predicate SameValuesBelow(a: Net, b: Net, k: nat)
    requires SameBase(a, b)
  {
    forall i :: 0 <= i < |a.graph.decls| && a.graph.rank[i] < k ==> Value(a, i) == Value(b, i)
  }

  lemma {:induction false} SnapshotsAgree(a: Net, b: Net, e: Expr, k: nat)
    requires SameBase(a, b) && ExprBelow(a.graph, e, k) && SameValuesBelow(a, b, k)
    ensures Eval(Snapshot(a), e) == Eval(Snapshot(b), e)
  {
    match e
    case Not(x) => SnapshotsAgree(a, b, x, k);
    case Bin(_, l, r) =>
      SnapshotsAgree(a, b, l, k);
      SnapshotsAgree(a, b, r, k);
    case Sym(s) => assert TriOf(a, s) == TriOf(b, s);
    case Comp(_, s, t) => assert TriOf(a, s) == TriOf(b, s) && TriOf(a, t) == TriOf(b, t);
  }

  lemma ExprAgrees(a: Net, b: Net, e: Expr, e': Expr, k: nat, visibility: bool)
    requires SameBase(a, b) && SameValuesBelow(a, b, k) && Equivalent(e, e', visibility)
    requires ExprBelow(a.graph, e, k) && ExprBelow(b.graph, e', k)
    ensures Agree(ValueIn(a, e, k), ValueIn(b, e', k), visibility)
  {
    ValueInIsEval(a, e, k);
    ValueInIsEval(b, e', k);
    SnapshotIsProper(b);
    SnapshotsAgree(a, b, e, k);
  }

  lemma {:induction false} MaxAgrees(a: Net, b: Net, es: seq<Option<Expr>>, es': seq<Option<Expr>>, k: nat, visibility: bool)
    requires SameBase(a, b) && SameValuesBelow(a, b, k) && |es| == |es'|
    requires forall j :: 0 <= j < |es| ==> OptBelow(a.graph, es[j], k) && OptBelow(b.graph, es'[j], k)
    requires forall j :: 0 <= j < |es| ==> EquivalentOpt(es[j], es'[j], visibility)
    ensures Agree(MaxOf(a, es, k), MaxOf(b, es', k), visibility)
  {
    if es != [] {
      var n := |es| - 1;
      MaxAgrees(a, b, es[..n], es'[..n], k, visibility);
      if es[n].Some? { ExprAgrees(a, b, es[n].value, es'[n].value, k, visibility); }
    }
  }

  lemma {:induction false} DefaultAgrees(a: Net, b: Net, ds: seq<(Option<Expr>, Expr)>,
                                              ds': seq<(Option<Expr>, Expr)>, k: nat, visibility: bool)
    requires SameBase(a, b) && SameValuesBelow(a, b, k) && |ds| == |ds'|
    requires forall j :: 0 <= j < |ds| ==> OptBelow(a.graph, ds[j].0, k) && ExprBelow(a.graph, ds[j].1, k)
    requires forall j :: 0 <= j < |ds| ==> OptBelow(b.graph, ds'[j].0, k) && ExprBelow(b.graph, ds'[j].1, k)
    requires forall j :: 0 <= j < |ds| ==>
               EquivalentOpt(ds[j].0, ds'[j].0, visibility) && Equivalent(ds[j].1, ds'[j].1, false)
    ensures var (d, d') := (Default(a, ds, k), Default(b, ds', k));
            (d.Some? <==> d'.Some?) && (d.Some? ==> Agree(d.value, d'.value, visibility))
  {
    if ds != [] {
      if ds[0].0.Some? { ExprAgrees(a, b, ds[0].0.value, ds'[0].0.value, k, visibility); }
      ExprAgrees(a, b, ds[0].1, ds'[0].1, k, false);
      DefaultAgrees(a, b, ds[1..], ds'[1..], k, visibility);
    }
  }

  /** The same visibility, direct dependency and default. */
  ghost predicate AgreeOwn(a: Net, b: Net, i: nat)
    requires Acyclic(a) && Acyclic(b) && i < |a.graph.decls| && i < |b.graph.decls|
  {
    && Visible(a, i) == Visible(b, i) && Direct(a, i) == Direct(b, i)
    && (DefaultOf(a, i).Some? <==> DefaultOf(b, i).Some?)
    && (DefaultOf(a, i).Some? ==> Agree(DefaultOf(a, i).value, DefaultOf(b, i).value, a.graph.decls[i].ty.Bool?))
  }

  lemma SameOwn(a: Net, b: Net, i: nat)
    requires SameBase(a, b) && i < |a.graph.decls| && SameValuesBelow(a, b, a.graph.rank[i])
    ensures AgreeOwn(a, b, i)
  {
    var k := a.graph.rank[i];
    var d, d' := a.graph.decls[i], b.graph.decls[i];
    assert EquivalentOwn(d, d') && DeclBelow(a.graph, d, k) && DeclBelow(b.graph, d', k);
    MaxAgrees(a, b, d.prompts, d'.prompts, k, d.ty.Bool?);
    DefaultAgrees(a, b, d.defaults, d'.defaults, k, d.ty.Bool?);
    if d.dirDep.Some? { ExprAgrees(a, b, d.dirDep.value, d'.dirDep.value, k, false); }
  }

  /** Everything but the symbol's own user value decides these. */
  ghost predicate AgreeButUser(a: Net, b: Net, i: nat)
    requires Acyclic(a) && Acyclic(b) && i < |a.graph.decls| && i < |b.graph.decls|
  {
    AgreeOwn(a, b, i) && Selected(a, i) == Selected(b, i) && Implied(a, i) == Implied(b, i)
  }

  lemma SameConditions(a: Net, b: Net, i: nat)
    requires SameBase(a, b) && i < |a.graph.decls| && SameValuesBelow(a, b, a.graph.rank[i])
    requires EquivalentDecl(a.graph.decls[i], b.graph.decls[i])
    ensures AgreeButUser(a, b, i)
  {
    var k := a.graph.rank[i];
    var d, d' := a.graph.decls[i], b.graph.decls[i];
    assert DeclBelow(a.graph, d, k) && DeclBelow(b.graph, d', k);
    SameOwn(a, b, i);
    if d.revDep.Some? { ExprAgrees(a, b, d.revDep.value, d'.revDep.value, k, false); }
    if d.implied.Some? { ExprAgrees(a, b, d.implied.value, d'.implied.value, k, false); }
  }

  lemma {:induction false} SameInputs(a: Net, b: Net, i: nat)
    requires Acyclic(a) && i < |a.graph.decls| && SameBelow(a, b, a.graph.rank[i])
    ensures AgreeButUser(a, b, i)
    decreases a.graph.rank[i], 0
  {
    var k := a.graph.rank[i];
    forall j | 0 <= j < |a.graph.decls| && a.graph.rank[j] < k ensures Value(a, j) == Value(b, j) {
      SameValue(a, b, j);
    }
    SameConditions(a, b, i);
  }

  /** Replacing expressions by equivalent ones changes no value: the rewriting passes are
      invisible to the evaluator. */
  lemma {:induction false} SameValue(a: Net, b: Net, i: nat)
    requires Acyclic(a) && i < |a.graph.decls| && SameBelow(a, b, a.graph.rank[i] + 1)
    ensures Value(a, i) == Value(b, i) && (Written(a, i) <==> Written(b, i))
    decreases a.graph.rank[i], 1
  {
    SameInputs(a, b, i);
    assert EquivalentOwn(a.graph.decls[i], b.graph.decls[i]);
    ValueFrom(a, b, i);
  }

  /** The value follows from these inputs and the user's choice. */
  lemma ValueFrom(a: Net, b: Net, i: nat)
    requires Acyclic(a) && Acyclic(b) && i < |a.graph.decls| && i < |b.graph.decls| && AgreeButUser(a, b, i)
    requires a.graph.decls[i].ty == b.graph.decls[i].ty && a.modules == b.modules && a.user[i] == b.user[i]
    ensures Value(a, i) == Value(b, i) && (Written(a, i) <==> Written(b, i))
  {
    assert EffectiveType(a, i) == EffectiveType(b, i);
    assert Agree(Defaulted(a, i), Defaulted(b, i), a.graph.decls[i].ty.Bool?);
    assert Agree(Chosen(a, i), Chosen(b, i), a.graph.decls[i].ty.Bool?);
  }

  // ---------- set, then get ----------

  lemma UserChangesOnlyItself(net: Net, i: nat, val: Tri)
    requires Acyclic(net) && Proper(net.fixed) && i < |net.graph.decls|
    ensures AgreeButUser(net, WithUser(net, i, val), i)
  {
    SameInputs(net, WithUser(net, i, val), i);
  }

  /** A value that the range check accepts is the value the symbol has after recalculation. */
  lemma SetThenGet(net: Net, i: nat, val: Tri)
    requires Acyclic(net) && Proper(net.fixed) && i < |net.graph.decls|
    requires WithinRange(net, i, val)
    ensures Value(WithUser(net, i, val), i) == val
  {
    UserChangesOnlyItself(net, i, val);
  }

  /** Exactly when storing a value is effective for a changeable symbol: the check accepts it, or
      an implying symbol raises the mod that the visible range allows to the yes asked for. */
  lemma SetThenGetExact(net: Net, i: nat, val: Tri)
    requires Acyclic(net) && Proper(net.fixed) && i < |net.graph.decls|
    requires Visible(net, i) > Selected(net, i)
    ensures Value(WithUser(net, i, val), i) == val <==>
              (WithinRange(net, i, val) || (val == YES && Visible(net, i) == MOD && Implied(net, i) == YES))
  {
    UserChangesOnlyItself(net, i, val);
  }

  /** Storing the value a symbol already has skips the range check, and the value survives a
      recalculation exactly under this condition. */
  lemma SetSameValueExact(net: Net, i: nat, val: Tri)
    requires Acyclic(net) && Proper(net.fixed) && i < |net.graph.decls|
    requires Value(net, i) == val
    ensures Value(WithUser(net, i, val), i) == val <==>
              || Visible(net, i) == NO || val <= Visible(net, i) || val == Selected(net, i)
              || (Max(Visible(net, i), Selected(net, i)) == MOD && Implied(net, i) == YES)
  {
    UserChangesOnlyItself(net, i, val);
    assert Agree(Defaulted(net, i), Defaulted(WithUser(net, i, val), i), net.graph.decls[i].ty.Bool?);
  }

  /** For instance, a tristate symbol with "default y" and a prompt that is visible with m is y, and
      storing y makes it m. */
  lemma SetSameValueCanFail(fixed: Valuation)
    requires Proper(fixed)
    ensures var d := Declaration(Tristate, [Some(Sym(SYM_MOD))], None, None, None, [(None, Sym(SYM_YES))]);
            var net := Net(Graph([d], [0]), [None], YES, fixed);
            Acyclic(net) && Value(net, 0) == YES && Value(WithUser(net, 0, YES), 0) == MOD
  {
    var d := Declaration(Tristate, [Some(Sym(SYM_MOD))], None, None, None, [(None, Sym(SYM_YES))]);
    var net := Net(Graph([d], [0]), [None], YES, fixed);
    assert Acyclic(net);
    assert MaxOf(net, d.prompts, 0) == MOD by { assert MaxOf(net, d.prompts[..0], 0) == NO; }
    assert ValueIn(net, Sym(SYM_YES), 0) == YES && ValueOpt(net, None, 0) == YES;
    assert Default(net, d.defaults, 0) == Some(YES);
    assert DefaultOf(net, 0) == Some(YES) && Visible(net, 0) == MOD;
    assert Selected(net, 0) == NO && Implied(net, 0) == NO && Chosen(net, 0) == YES;
    UserChangesOnlyItself(net, 0, YES);
  }
}
