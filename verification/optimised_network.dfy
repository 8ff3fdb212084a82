/** The rewriting passes seen from the evaluator: what becomes of the values of a network when
    menu_finalize has rewritten its conditions. */
module OptimisedNetwork {
  import opened Common
  import opened KconfigSyntax
  import opened ExprDups
  import opened ExprTransform
  import opened MenuDeps
  import opened SymbolValues

  /** A select or imply property: the symbol that has it, and its condition. */
  datatype Select = Select(selector: Symbol, cond: Condition)

  /** Everything written about a symbol: its entries, and the properties it has or is the target of. */
  datatype Source = Source(
    entries: seq<Definition>,
    prompts: seq<Condition>,
    defaults: seq<(Condition, Expr)>,
    selects: seq<Select>,
    implies: seq<Select>)

  ghost predicate HandedSource(src: Source) {
    && (forall i :: 0 <= i < |src.entries| ==> Handed(src.entries[i]))
    && (forall i :: 0 <= i < |src.prompts| ==> Handed(src.prompts[i].entry))
    && (forall i :: 0 <= i < |src.defaults| ==> Handed(src.defaults[i].0.entry))
    && HandedSelects(src.selects) && HandedSelects(src.implies)
  }

  ghost predicate HandedSelects(ss: seq<Select>) { forall i :: 0 <= i < |ss| ==> Handed(ss[i].cond.entry) }

  /** One alternative of an accumulated expression: a selecting symbol and a condition. */
  datatype Arm = Arm(selector: Symbol, cond: Option<Expr>)

  /** The expression that menu_finalize accumulates in the selected symbol. */
  function SelectChain(arms: seq<Arm>): Option<Expr> {
    if arms == [] then None
    else
      var last := arms[|arms| - 1];
      AllocOr(SelectChain(arms[..|arms| - 1]), AllocAnd(Some(Sym(last.selector)), last.cond))
  }

  function WrittenArm(s: Select): Arm { Arm(s.selector, WrittenCond(s.cond)) }

  function StoredArm(s: Select): Arm { Arm(s.selector, StoredCond(s.cond, s.selector.Type().Tristate?)) }

  function WrittenArms(ss: seq<Select>): seq<Arm> { seq(|ss|, i requires 0 <= i < |ss| => WrittenArm(ss[i])) }

  function StoredArms(ss: seq<Select>): seq<Arm> { seq(|ss|, i requires 0 <= i < |ss| => StoredArm(ss[i])) }

  lemma ArmsOf(ss: seq<Select>)
    requires ss != []
    ensures var n := |ss| - 1;
            && WrittenArms(ss)[..n] == WrittenArms(ss[..n]) && WrittenArms(ss)[n] == WrittenArm(ss[n])
            && StoredArms(ss)[..n] == StoredArms(ss[..n]) && StoredArms(ss)[n] == StoredArm(ss[n])
  {
    var n := |ss| - 1;
    assert forall i :: 0 <= i < n ==> WrittenArms(ss)[..n][i] == WrittenArms(ss[..n])[i];
    assert forall i :: 0 <= i < n ==> StoredArms(ss)[..n][i] == StoredArms(ss[..n])[i];
  }

  function RawDecl(ty: SymbolType, src: Source): Declaration {
    Declaration(
      ty,
      seq(|src.prompts|, i requires 0 <= i < |src.prompts| => WrittenCond(src.prompts[i])),
      AnyOf(WrittenDeps(src.entries)),
      SelectChain(WrittenArms(src.selects)),
      SelectChain(WrittenArms(src.implies)),
      seq(|src.defaults|, i requires 0 <= i < |src.defaults| => (WrittenCond(src.defaults[i].0), src.defaults[i].1)))
  }

  function StoredDecl(ty: SymbolType, src: Source): Declaration {
    Declaration(
      ty,
      seq(|src.prompts|, i requires 0 <= i < |src.prompts| => StoredCond(src.prompts[i], ty.Tristate?)),
      AnyOf(StoredDeps(src.entries)),
      SelectChain(StoredArms(src.selects)),
      SelectChain(StoredArms(src.implies)),
      seq(|src.defaults|, i requires 0 <= i < |src.defaults| =>
            (StoredCond(src.defaults[i].0, ty.Tristate?), src.defaults[i].1)))
  }

  /** The network with its conditions as they were written, and as they are stored; from `net` are the
      types and ranks of the symbols, and their surroundings. */
  function RawNet(net: Net, srcs: seq<Source>): Net
    requires |srcs| == |net.graph.decls|
  {
    net.(graph := net.graph.(decls := seq(|srcs|, i requires 0 <= i < |srcs| => RawDecl(net.graph.decls[i].ty, srcs[i]))))
  }

  function StoredNet(net: Net, srcs: seq<Source>): Net
    requires |srcs| == |net.graph.decls|
  {
    net.(graph := net.graph.(decls := seq(|srcs|, i requires 0 <= i < |srcs| => StoredDecl(net.graph.decls[i].ty, srcs[i]))))
  }

  /** The written conditions are acyclic, and parents have handed down stored conditions. */
  ghost predicate Rewritable(net: Net, srcs: seq<Source>) {
    && |srcs| == |net.graph.decls| && Acyclic(RawNet(net, srcs)) && Proper(net.fixed)
    && forall i :: 0 <= i < |srcs| ==> HandedSource(srcs[i])
  }

  // ---------- one condition ----------

  /** Relaxing can turn yes into mod, and does nothing else. */
  predicate Lowered(t: Tri, t': Tri) { t' == t || (t == YES && t' == MOD) }

  lemma {:induction false} TransBoolLowers(v: Valuation, e: Expr)
    requires Proper(v) && NegOnSymbols(e)
    ensures Lowered(Eval(v, e), Eval(v, TransBool(e)))
  {
    match e
    case Bin(_, l, r) =>
      TransBoolLowers(v, l);
      TransBoolLowers(v, r);
    case Comp(_, s, t) => assert v.str(SYM_NO) == "n";
    case _ =>
  }

  lemma {:induction false} TransBoolUsesOnly(e: Expr, S: set<Symbol>)
    requires UsesOnly(e, S)
    ensures UsesOnly(TransBool(e), S)
  {
    match e
    case Not(a) => TransBoolUsesOnly(a, S);
    case Bin(_, l, r) =>
      TransBoolUsesOnly(l, S);
      TransBoolUsesOnly(r, S);
    case _ =>
  }

  predicate UsesOnlyOpt(e: Option<Expr>, S: set<Symbol>) { e.Some? ==> UsesOnly(e.value, S) }

  lemma AndMeaning(v: Valuation, a: Option<Expr>, b: Option<Expr>)
    ensures EvalOpt(v, AllocAnd(a, b)) == Min(EvalOpt(v, a), EvalOpt(v, b))
  {
  }

  lemma BothUseOnly(a: Option<Expr>, b: Option<Expr>, S: set<Symbol>)
    ensures UsesOnlyOpt(AllocAnd(a, b), S) <==> UsesOnlyOpt(a, S) && UsesOnlyOpt(b, S)
    ensures UsesOnlyOpt(AllocOr(a, b), S) <==> UsesOnlyOpt(a, S) && UsesOnlyOpt(b, S)
  {
  }

  lemma StoredDepMeaning(v: Valuation, d: Definition)
    requires Proper(v) && Handed(d)
    ensures EvalOpt(v, StoredDep(d)) == EvalOpt(v, WrittenDep(d))
  {
    AndMeaning(v, d.parentDep, d.own);
    BaseDepMeaning(v, d.parentDep, d.own);
  }

  lemma StoredMeaning(v: Valuation, c: Condition, tristate: bool)
    requires Proper(v) && Handed(c.entry)
    ensures Lowered(EvalOpt(v, WrittenCond(c)), EvalOpt(v, StoredCond(c, tristate)))
    ensures tristate ==> EvalOpt(v, StoredCond(c, tristate)) == EvalOpt(v, WrittenCond(c))
  {
    AndMeaning(v, c.entry.parentDep, c.entry.own);
    AndMeaning(v, WrittenDep(c.entry), c.own);
    BaseDepMeaning(v, c.entry.parentDep, c.entry.own);
    BaseDepMeaning(v, StoredDep(c.entry), c.own);
    var dep := BaseDep(StoredDep(c.entry), c.own);
    if dep.Some? { TransBoolLowers(v, dep.value); }
  }

  lemma BaseDepUsesOnly(parentDep: Option<Expr>, own: Option<Expr>, S: set<Symbol>)
    requires UsesOnlyOpt(parentDep, S) && UsesOnlyOpt(own, S)
    ensures UsesOnlyOpt(BaseDep(parentDep, own), S)
  {
    if own.Some? { TransformUsesOnly(own.value, S); }
    BothUseOnly(parentDep, TransformOpt(own), S);
    var all := AllocAnd(parentDep, TransformOpt(own));
    if all.Some? { ReducedUsesOnly(all.value, S); }
  }

  lemma StoredUsesOnly(c: Condition, tristate: bool, S: set<Symbol>)
    requires UsesOnlyOpt(WrittenCond(c), S)
    ensures UsesOnlyOpt(StoredCond(c, tristate), S)
  {
    BothUseOnly(WrittenDep(c.entry), c.own, S);
    BothUseOnly(c.entry.parentDep, c.entry.own, S);
    BaseDepUsesOnly(c.entry.parentDep, c.entry.own, S);
    BaseDepUsesOnly(StoredDep(c.entry), c.own, S);
    var dep := BaseDep(StoredDep(c.entry), c.own);
    if dep.Some? { TransBoolUsesOnly(dep.value, S); }
  }

  // ---------- the direct dependency ----------

  lemma {:induction false} AnyOfIsKept(v: Valuation, entries: seq<Definition>)
    requires Proper(v) && forall i :: 0 <= i < |entries| ==> Handed(entries[i])
    ensures EvalOpt(v, AnyOf(StoredDeps(entries))) == EvalOpt(v, AnyOf(WrittenDeps(entries)))
  {
    if entries != [] {
      var n := |entries| - 1;
      AnyOfIsKept(v, entries[..n]);
      AnyOfIsThere(entries[..n]);
      StoredDepMeaning(v, entries[n]);
      assert StoredDeps(entries)[..n] == StoredDeps(entries[..n]) && WrittenDeps(entries)[..n] == WrittenDeps(entries[..n]);
    }
  }

  lemma {:induction false} AnyOfIsThere(entries: seq<Definition>)
    ensures AnyOf(StoredDeps(entries)).Some? <==> AnyOf(WrittenDeps(entries)).Some?
  {
    if entries != [] {
      var n := |entries| - 1;
      AnyOfIsThere(entries[..n]);
      assert StoredDeps(entries)[..n] == StoredDeps(entries[..n]) && WrittenDeps(entries)[..n] == WrittenDeps(entries[..n]);
    }
  }

  lemma {:induction false} AnyOfUsesOnly(entries: seq<Definition>, S: set<Symbol>)
    requires UsesOnlyOpt(AnyOf(WrittenDeps(entries)), S)
    ensures UsesOnlyOpt(AnyOf(StoredDeps(entries)), S)
  {
    if entries != [] {
      var n := |entries| - 1;
      assert StoredDeps(entries)[..n] == StoredDeps(entries[..n]) && WrittenDeps(entries)[..n] == WrittenDeps(entries[..n]);
      BothUseOnly(AnyOf(WrittenDeps(entries[..n])), WrittenDep(entries[n]), S);
      BothUseOnly(entries[n].parentDep, entries[n].own, S);
      AnyOfUsesOnly(entries[..n], S);
      BaseDepUsesOnly(entries[n].parentDep, entries[n].own, S);
      BothUseOnly(AnyOf(StoredDeps(entries[..n])), StoredDep(entries[n]), S);
    }
  }

  // ---------- chains of selects ----------

  /** The strongest select: that of a symbol under a condition is the minimum of the two. */
  ghost function Strongest(v: Valuation, arms: seq<Arm>): Tri {
    if arms == [] then NO
    else
      var last := arms[|arms| - 1];
      Max(Strongest(v, arms[..|arms| - 1]), Min(v.tri(last.selector), EvalOpt(v, last.cond)))
  }

  lemma {:induction false} ChainIsStrongest(v: Valuation, arms: seq<Arm>)
    ensures SelectChain(arms).Some? <==> arms != []
    ensures arms != [] ==> Eval(v, SelectChain(arms).value) == Strongest(v, arms)
  {
    if arms != [] {
      var (front, last) := (arms[..|arms| - 1], arms[|arms| - 1]);
      ChainIsStrongest(v, front);
      SelectMeaning(v, last, SelectChain(front));
    }
  }

  /** One more alternative in a chain. */
  lemma SelectMeaning(v: Valuation, a: Arm, front: Option<Expr>)
    ensures var one := AllocAnd(Some(Sym(a.selector)), a.cond);
            && one.Some? && Eval(v, one.value) == Min(v.tri(a.selector), EvalOpt(v, a.cond))
            && AllocOr(front, one).Some?
            && Eval(v, AllocOr(front, one).value) ==
               (if front.None? then Eval(v, one.value) else Max(Eval(v, front.value), Eval(v, one.value)))
  {
  }

  lemma SelectUsesOnly(a: Arm, front: Option<Expr>, S: set<Symbol>)
    ensures UsesOnlyOpt(AllocOr(front, AllocAnd(Some(Sym(a.selector)), a.cond)), S) <==>
              UsesOnlyOpt(front, S) && UsesOnly(Sym(a.selector), S) && UsesOnlyOpt(a.cond, S)
  {
    var one := AllocAnd(Some(Sym(a.selector)), a.cond);
    assert UsesOnly(one.value, S) <==> UsesOnly(Sym(a.selector), S) && UsesOnlyOpt(a.cond, S);
  }

  lemma {:induction false} StrongestIsLowered(v: Valuation, ss: seq<Select>)
    requires Proper(v) && HandedSelects(ss)
    ensures Lowered(Strongest(v, WrittenArms(ss)), Strongest(v, StoredArms(ss)))
  {
    if ss != [] {
      var (front, last) := (ss[..|ss| - 1], ss[|ss| - 1]);
      StrongestIsLowered(v, front);
      StoredMeaning(v, last.cond, last.selector.Type().Tristate?);
      ArmsOf(ss);
    }
  }

  lemma {:induction false} ChainUsesOnly(ss: seq<Select>, S: set<Symbol>)
    requires UsesOnlyOpt(SelectChain(WrittenArms(ss)), S)
    ensures UsesOnlyOpt(SelectChain(StoredArms(ss)), S)
  {
    if ss != [] {
      var (front, last) := (ss[..|ss| - 1], ss[|ss| - 1]);
      ArmsOf(ss);
      SelectUsesOnly(WrittenArm(last), SelectChain(WrittenArms(front)), S);
      ChainUsesOnly(front, S);
      StoredUsesOnly(last.cond, last.selector.Type().Tristate?, S);
      SelectUsesOnly(StoredArm(last), SelectChain(StoredArms(front)), S);
    }
  }

  // ---------- the stored network is acyclic ----------

  /** The symbols a graph evaluates below rank k. */
  ghost function SymbolsBelow(g: Graph, k: nat): set<Symbol>
    requires |g.rank| == |g.decls|
  {
    set i | 0 <= i < |g.decls| && g.rank[i] < k :: Config(i, g.decls[i].ty)
  }

  lemma {:induction false} BelowMeansUsesOnly(g: Graph, e: Expr, k: nat)
    requires |g.rank| == |g.decls|
    ensures ExprBelow(g, e, k) <==> UsesOnly(e, SymbolsBelow(g, k))
  {
    match e
    case Not(a) => BelowMeansUsesOnly(g, a, k);
    case Bin(_, l, r) =>
      BelowMeansUsesOnly(g, l, k);
      BelowMeansUsesOnly(g, r, k);
    case _ =>
  }

  lemma OptBelowMeansUsesOnly(g: Graph, e: Option<Expr>, k: nat)
    requires |g.rank| == |g.decls|
    ensures OptBelow(g, e, k) <==> UsesOnlyOpt(e, SymbolsBelow(g, k))
  {
    if e.Some? { BelowMeansUsesOnly(g, e.value, k); }
  }

  /** The same symbols with the same types and ranks. */
  ghost predicate SameSymbols(g: Graph, g': Graph) {
    && |g.rank| == |g.decls| == |g'.decls| && g.rank == g'.rank
    && forall i :: 0 <= i < |g.decls| ==> g.decls[i].ty == g'.decls[i].ty
  }

  lemma StoredIsBelow(g: Graph, g': Graph, c: Condition, tristate: bool, k: nat)
    requires SameSymbols(g, g') && OptBelow(g, WrittenCond(c), k)
    ensures OptBelow(g', StoredCond(c, tristate), k)
  {
    assert SymbolsBelow(g, k) == SymbolsBelow(g', k);
    OptBelowMeansUsesOnly(g, WrittenCond(c), k);
    StoredUsesOnly(c, tristate, SymbolsBelow(g, k));
    OptBelowMeansUsesOnly(g', StoredCond(c, tristate), k);
  }

  lemma StillBelow(g: Graph, g': Graph, e: Expr, k: nat)
    requires SameSymbols(g, g') && ExprBelow(g, e, k)
    ensures ExprBelow(g', e, k)
  {
    assert SymbolsBelow(g, k) == SymbolsBelow(g', k);
    BelowMeansUsesOnly(g, e, k);
    BelowMeansUsesOnly(g', e, k);
  }

  lemma DepsAreBelow(g: Graph, g': Graph, entries: seq<Definition>, k: nat)
    requires SameSymbols(g, g') && OptBelow(g, AnyOf(WrittenDeps(entries)), k)
    ensures OptBelow(g', AnyOf(StoredDeps(entries)), k)
  {
    assert SymbolsBelow(g, k) == SymbolsBelow(g', k);
    OptBelowMeansUsesOnly(g, AnyOf(WrittenDeps(entries)), k);
    AnyOfUsesOnly(entries, SymbolsBelow(g, k));
    OptBelowMeansUsesOnly(g', AnyOf(StoredDeps(entries)), k);
  }

  lemma ChainIsBelow(g: Graph, g': Graph, ss: seq<Select>, k: nat)
    requires SameSymbols(g, g') && OptBelow(g, SelectChain(WrittenArms(ss)), k)
    ensures OptBelow(g', SelectChain(StoredArms(ss)), k)
  {
    assert SymbolsBelow(g, k) == SymbolsBelow(g', k);
    OptBelowMeansUsesOnly(g, SelectChain(WrittenArms(ss)), k);
    ChainUsesOnly(ss, SymbolsBelow(g, k));
    OptBelowMeansUsesOnly(g', SelectChain(StoredArms(ss)), k);
  }

  lemma StoredDeclIsBelow(g: Graph, g': Graph, ty: SymbolType, src: Source, k: nat)
    requires SameSymbols(g, g') && DeclBelow(g, RawDecl(ty, src), k)
    ensures DeclBelow(g', StoredDecl(ty, src), k)
  {
    var raw, d' := RawDecl(ty, src), StoredDecl(ty, src);
    forall i | 0 <= i < |src.prompts| ensures OptBelow(g', d'.prompts[i], k) {
      assert OptBelow(g, raw.prompts[i], k);
      StoredIsBelow(g, g', src.prompts[i], ty.Tristate?, k);
    }
    forall i | 0 <= i < |src.defaults| ensures OptBelow(g', d'.defaults[i].0, k) && ExprBelow(g', d'.defaults[i].1, k) {
      assert OptBelow(g, raw.defaults[i].0, k) && ExprBelow(g, raw.defaults[i].1, k);
      StoredIsBelow(g, g', src.defaults[i].0, ty.Tristate?, k);
      StillBelow(g, g', src.defaults[i].1, k);
    }
    DepsAreBelow(g, g', src.entries, k);
    ChainIsBelow(g, g', src.selects, k);
    ChainIsBelow(g, g', src.implies, k);
  }

  lemma StoredIsEquivalent(c: Condition, tristate: bool)
    requires Handed(c.entry)
    ensures EquivalentOpt(WrittenCond(c), StoredCond(c, tristate), !tristate)
  {
    forall v | Proper(v) ensures Agree(EvalOpt(v, WrittenCond(c)), EvalOpt(v, StoredCond(c, tristate)), !tristate) {
      StoredMeaning(v, c, tristate);
    }
    StoredIsThere(c, tristate);
    if WrittenCond(c).Some? {
      forall v | Proper(v) ensures Agree(Eval(v, WrittenCond(c).value), Eval(v, StoredCond(c, tristate).value), !tristate) {
        assert EvalOpt(v, WrittenCond(c)) == Eval(v, WrittenCond(c).value);
      }
    }
  }

  lemma StoredIsThere(c: Condition, tristate: bool)
    ensures StoredCond(c, tristate).Some? <==> WrittenCond(c).Some?
  {
  }

  lemma DepsAreEquivalent(entries: seq<Definition>)
    requires forall i :: 0 <= i < |entries| ==> Handed(entries[i])
    ensures EquivalentOpt(AnyOf(WrittenDeps(entries)), AnyOf(StoredDeps(entries)), false)
  {
    var (e, e') := (AnyOf(WrittenDeps(entries)), AnyOf(StoredDeps(entries)));
    AnyOfIsThere(entries);
    if e.Some? {
      forall v | Proper(v) ensures Agree(Eval(v, e.value), Eval(v, e'.value), false) { AnyOfIsKept(v, entries); }
    }
  }

  /** Prompts, defaults and direct dependency keep their meaning: relaxed conditions are only those of
      bool symbols, for which they count as no or not no. */
  lemma StoredOwnIsEquivalent(ty: SymbolType, src: Source)
    requires (ty.Bool? || ty.Tristate?) && HandedSource(src)
    ensures EquivalentOwn(RawDecl(ty, src), StoredDecl(ty, src))
  {
    forall i | 0 <= i < |src.prompts|
      ensures EquivalentOpt(WrittenCond(src.prompts[i]), StoredCond(src.prompts[i], ty.Tristate?), ty.Bool?)
    {
      StoredIsEquivalent(src.prompts[i], ty.Tristate?);
    }
    forall i | 0 <= i < |src.defaults|
      ensures EquivalentOpt(WrittenCond(src.defaults[i].0), StoredCond(src.defaults[i].0, ty.Tristate?), ty.Bool?)
    {
      StoredIsEquivalent(src.defaults[i].0, ty.Tristate?);
    }
    DepsAreEquivalent(src.entries);
  }

  lemma StoredNetIsSameBase(net: Net, srcs: seq<Source>)
    requires Rewritable(net, srcs)
    ensures SameBase(RawNet(net, srcs), StoredNet(net, srcs))
  {
    var raw, stored := RawNet(net, srcs), StoredNet(net, srcs);
    forall i | 0 <= i < |srcs|
      ensures DeclBelow(stored.graph, stored.graph.decls[i], stored.graph.rank[i])
      ensures EquivalentOwn(raw.graph.decls[i], stored.graph.decls[i])
    {
      assert DeclBelow(raw.graph, raw.graph.decls[i], raw.graph.rank[i]);
      StoredDeclIsBelow(raw.graph, stored.graph, net.graph.decls[i].ty, srcs[i], raw.graph.rank[i]);
      StoredOwnIsEquivalent(net.graph.decls[i].ty, srcs[i]);
    }
  }

  // ---------- the values ----------

  /** The user's choice, or else the default, is yes without anything that selects or implies. */
  ghost predicate OwnYes(net: Net, i: nat)
    requires Acyclic(net) && i < |net.graph.decls|
  {
    if Visible(net, i) != NO && net.user[i].Some? then net.user[i] == Some(YES) && Visible(net, i) == YES
    else DefaultOf(net, i) == Some(YES)
  }

  ghost predicate YesFrom(net: Net, i: nat, selected: Tri, implied: Tri)
    requires Acyclic(net) && i < |net.graph.decls|
  {
    EffectiveType(net, i).Tristate? && Value(net, i) == YES ==>
      OwnYes(net, i) || selected == YES || (Direct(net, i) != NO && implied == YES)
  }

  /** If the symbol is yes and can be mod, something else than a relaxed test makes it yes: its own
      value, or a symbol that selects or implies it and is yes under a stored condition that is yes. */
  ghost predicate KeepsYes(net: Net, src: Source, i: nat)
    requires Acyclic(net) && i < |net.graph.decls|
  {
    YesFrom(net, i, Strongest(Snapshot(net), StoredArms(src.selects)), Strongest(Snapshot(net), StoredArms(src.implies)))
  }

  /** What a chain evaluates to as written, and as stored. */
  ghost predicate ChainRead(raw: Net, stored: Net, ss: seq<Select>, k: nat)
    requires Acyclic(raw) && Acyclic(stored)
    requires OptBelow(raw.graph, SelectChain(WrittenArms(ss)), k) && OptBelow(stored.graph, SelectChain(StoredArms(ss)), k)
  {
    var (e, e', v) := (SelectChain(WrittenArms(ss)), SelectChain(StoredArms(ss)), Snapshot(raw));
    && (e.Some? <==> ss != []) && (e'.Some? <==> ss != [])
    && (ss != [] ==>
          ValueIn(raw, e.value, k) == Strongest(v, WrittenArms(ss)) && ValueIn(stored, e'.value, k) == Strongest(v, StoredArms(ss)))
    && (ss == [] ==> Strongest(v, WrittenArms(ss)) == NO && Strongest(v, StoredArms(ss)) == NO)
    && Lowered(Strongest(v, WrittenArms(ss)), Strongest(v, StoredArms(ss)))
  }

  lemma ChainValues(raw: Net, stored: Net, ss: seq<Select>, k: nat)
    requires SameBase(raw, stored) && SameValuesBelow(raw, stored, k) && HandedSelects(ss)
    requires OptBelow(raw.graph, SelectChain(WrittenArms(ss)), k) && OptBelow(stored.graph, SelectChain(StoredArms(ss)), k)
    ensures ChainRead(raw, stored, ss, k)
  {
    SnapshotIsProper(raw);
    ChainIsStrongest(Snapshot(raw), WrittenArms(ss));
    ChainIsStrongest(Snapshot(raw), StoredArms(ss));
    StrongestIsLowered(Snapshot(raw), ss);
    if ss != [] {
      ValueInIsEval(raw, SelectChain(WrittenArms(ss)).value, k);
      StoredValueIn(raw, stored, SelectChain(StoredArms(ss)).value, k);
    }
  }

  lemma StoredValueIn(raw: Net, stored: Net, e: Expr, k: nat)
    requires SameBase(raw, stored) && SameValuesBelow(raw, stored, k) && ExprBelow(stored.graph, e, k)
    ensures ValueIn(stored, e, k) == Eval(Snapshot(raw), e)
  {
    ValueInIsEval(stored, e, k);
    assert SameSymbols(stored.graph, raw.graph) by {
      forall i | 0 <= i < |raw.graph.decls| ensures raw.graph.decls[i].ty == stored.graph.decls[i].ty {
        assert EquivalentOwn(raw.graph.decls[i], stored.graph.decls[i]);
      }
    }
    StillBelow(stored.graph, raw.graph, e, k);
    SnapshotsAgree(raw, stored, e, k);
  }

  /** One symbol, when all those below it have kept their values. */
  lemma KeptExactly(net: Net, srcs: seq<Source>, i: nat)
    requires Rewritable(net, srcs) && i < |srcs|
    requires SameBase(RawNet(net, srcs), StoredNet(net, srcs))
    requires SameValuesBelow(RawNet(net, srcs), StoredNet(net, srcs), net.graph.rank[i])
    ensures Value(StoredNet(net, srcs), i) == Value(RawNet(net, srcs), i) <==> KeepsYes(RawNet(net, srcs), srcs[i], i)
    ensures Written(StoredNet(net, srcs), i) <==> Written(RawNet(net, srcs), i)
  {
    var (raw, stored, k, v) := (RawNet(net, srcs), StoredNet(net, srcs), net.graph.rank[i], Snapshot(RawNet(net, srcs)));
    assert DeclBelow(raw.graph, raw.graph.decls[i], k) && DeclBelow(stored.graph, stored.graph.decls[i], k);
    assert HandedSource(srcs[i]);
    SameOwn(raw, stored, i);
    ChainValues(raw, stored, srcs[i].selects, k);
    ChainValues(raw, stored, srcs[i].implies, k);
    ValueLowered(raw, stored, i, Strongest(v, WrittenArms(srcs[i].selects)), Strongest(v, StoredArms(srcs[i].selects)),
                 Strongest(v, WrittenArms(srcs[i].implies)), Strongest(v, StoredArms(srcs[i].implies)));
  }

  /** The value of a symbol, from what the user chose within the visible range (if anything), its
      default, and what selects and implies it. */
  function Result(isBool: bool, chosen: Option<Tri>, default_: Tri, selected: Tri, implied: Tri): Tri {
    var t := Max(if chosen.Some? then chosen.value else Max(default_, implied), selected);
    if t == MOD && (isBool || implied == YES) then YES else t
  }

  ghost function ChosenByUser(net: Net, i: nat): Option<Tri>
    requires Acyclic(net) && i < |net.graph.decls|
  {
    if Visible(net, i) != NO && net.user[i].Some? then Some(Min(net.user[i].value, Visible(net, i))) else None
  }

  lemma ValueIsResult(net: Net, i: nat)
    requires Acyclic(net) && i < |net.graph.decls|
    ensures Value(net, i) == Result(EffectiveType(net, i).Bool?, ChosenByUser(net, i),
                                    if DefaultOf(net, i).Some? then DefaultOf(net, i).value else NO,
                                    Selected(net, i), Implied(net, i))
  {
    assert Defaulted(net, i) == Max(if DefaultOf(net, i).Some? then DefaultOf(net, i).value else NO, Implied(net, i));
    assert Chosen(net, i) == if ChosenByUser(net, i).Some? then ChosenByUser(net, i).value else Defaulted(net, i);
  }

  lemma BoolResultKept(chosen: Option<Tri>, default_: Tri, default': Tri, selected: Tri, implied: Tri)
    requires default_ == NO <==> default' == NO
    ensures Result(true, chosen, default_, selected, implied) == Result(true, chosen, default', selected, implied)
  {
  }

  lemma TristateResultKept(chosen: Option<Tri>, default_: Tri, selected: Tri, selected': Tri, implied: Tri, implied': Tri)
    requires Lowered(selected, selected') && Lowered(implied, implied')
    ensures var r := Result(false, chosen, default_, selected, implied);
            Result(false, chosen, default_, selected', implied') == r <==>
              (r == YES ==> (if chosen.Some? then chosen.value else default_) == YES || selected' == YES || implied' == YES)
  {
  }

  /** What selects and implies a symbol, before and after rewriting. */
  ghost predicate SelectedFrom(net: Net, i: nat, selected: Tri, implied: Tri)
    requires Acyclic(net) && i < |net.graph.decls|
  {
    && Selected(net, i) == Rounded(net, i, selected)
    && Implied(net, i) == Rounded(net, i, if Direct(net, i) != NO then implied else NO)
  }

  lemma ValueLowered(raw: Net, stored: Net, i: nat, selected: Tri, selected': Tri, implied: Tri, implied': Tri)
    requires Acyclic(raw) && Acyclic(stored) && i < |raw.graph.decls| && i < |stored.graph.decls|
    requires raw.modules == stored.modules && raw.user[i] == stored.user[i] && AgreeOwn(raw, stored, i)
    requires raw.graph.decls[i].ty == stored.graph.decls[i].ty
    requires Lowered(selected, selected') && Lowered(implied, implied')
    requires SelectedFrom(raw, i, selected, implied) && SelectedFrom(stored, i, selected', implied')
    ensures Value(stored, i) == Value(raw, i) <==> YesFrom(raw, i, selected', implied')
    ensures Written(stored, i) <==> Written(raw, i)
  {
    ValueIsResult(raw, i);
    ValueIsResult(stored, i);
    var (d, d') := (DefaultOf(raw, i), DefaultOf(stored, i));
    var default_ := if d.Some? then d.value else NO;
    if EffectiveType(raw, i).Bool? {
      BoolResultKept(ChosenByUser(raw, i), default_, if d'.Some? then d'.value else NO, Selected(raw, i), Implied(raw, i));
    } else {
      TristateResultKept(ChosenByUser(raw, i), default_, Selected(raw, i), Selected(stored, i), Implied(raw, i), Implied(stored, i));
    }
  }

  ghost predicate AllKept(raw: Net, stored: Net)
    requires Acyclic(raw) && Acyclic(stored) && |raw.graph.decls| == |stored.graph.decls|
  {
    forall i :: 0 <= i < |raw.graph.decls| ==> Value(stored, i) == Value(raw, i)
  }

  ghost predicate AllKeepYes(raw: Net, srcs: seq<Source>)
    requires Acyclic(raw) && |raw.graph.decls| == |srcs|
  {
    forall i :: 0 <= i < |srcs| ==> KeepsYes(raw, srcs[i], i)
  }

  /** Storing the conditions keeps the network acyclic. It keeps all values exactly if it keeps the yes
      of every symbol that can be mod, and then it keeps all write marks. */
  lemma StoredValuesExactly(net: Net, srcs: seq<Source>)
    requires Rewritable(net, srcs)
    ensures Acyclic(StoredNet(net, srcs))
    ensures AllKept(RawNet(net, srcs), StoredNet(net, srcs)) <==> AllKeepYes(RawNet(net, srcs), srcs)
    ensures AllKept(RawNet(net, srcs), StoredNet(net, srcs)) ==>
              forall i :: 0 <= i < |srcs| ==> (Written(StoredNet(net, srcs), i) <==> Written(RawNet(net, srcs), i))
  {
    StoredNetIsSameBase(net, srcs);
    if AllKeepYes(RawNet(net, srcs), srcs) {
      forall i | 0 <= i < |srcs| ensures Value(StoredNet(net, srcs), i) == Value(RawNet(net, srcs), i) {
        KeptBelow(net, srcs, i);
      }
    }
    if AllKept(RawNet(net, srcs), StoredNet(net, srcs)) { AllKeptMeansYesKept(net, srcs); }
  }

  lemma AllKeptMeansYesKept(net: Net, srcs: seq<Source>)
    requires Rewritable(net, srcs)
    requires SameBase(RawNet(net, srcs), StoredNet(net, srcs)) && AllKept(RawNet(net, srcs), StoredNet(net, srcs))
    ensures AllKeepYes(RawNet(net, srcs), srcs)
    ensures forall i :: 0 <= i < |srcs| ==> (Written(StoredNet(net, srcs), i) <==> Written(RawNet(net, srcs), i))
  {
    forall i | 0 <= i < |srcs|
      ensures KeepsYes(RawNet(net, srcs), srcs[i], i)
      ensures Written(StoredNet(net, srcs), i) <==> Written(RawNet(net, srcs), i)
    {
      KeptExactly(net, srcs, i);
    }
  }

  lemma {:induction false} KeptBelow(net: Net, srcs: seq<Source>, i: nat)
    requires Rewritable(net, srcs) && i < |srcs|
    requires SameBase(RawNet(net, srcs), StoredNet(net, srcs)) && AllKeepYes(RawNet(net, srcs), srcs)
    ensures Value(StoredNet(net, srcs), i) == Value(RawNet(net, srcs), i)
    decreases net.graph.rank[i]
  {
    forall j | 0 <= j < |srcs| && net.graph.rank[j] < net.graph.rank[i]
      ensures Value(RawNet(net, srcs), j) == Value(StoredNet(net, srcs), j)
    {
      KeptBelow(net, srcs, j);
    }
    KeptExactly(net, srcs, i);
  }

  // ---------- which selects are harmless ----------

  /** Rewriting only normalises these conditions: no test against n is relaxed. */
  predicate Unrelaxed(ss: seq<Select>) {
    forall k :: 0 <= k < |ss| ==> StoredArm(ss[k]).cond == StoredCond(ss[k].cond, true)
  }

  lemma {:induction false} UnrelaxedKeepStrongest(v: Valuation, ss: seq<Select>)
    requires Proper(v) && Unrelaxed(ss) && HandedSelects(ss)
    ensures Strongest(v, StoredArms(ss)) == Strongest(v, WrittenArms(ss))
  {
    if ss != [] {
      var (n, last) := (|ss| - 1, ss[|ss| - 1]);
      assert forall k :: 0 <= k < n ==> ss[..n][k] == ss[k];
      UnrelaxedKeepStrongest(v, ss[..n]);
      StoredMeaning(v, last.cond, true);
      ArmsOf(ss);
      assert StoredArm(ss[n]).cond == StoredCond(last.cond, true);
    }
  }

  lemma RawSelectedFrom(net: Net, srcs: seq<Source>, i: nat)
    requires Rewritable(net, srcs) && i < |srcs|
    ensures var (raw, v) := (RawNet(net, srcs), Snapshot(RawNet(net, srcs)));
            SelectedFrom(raw, i, Strongest(v, WrittenArms(srcs[i].selects)), Strongest(v, WrittenArms(srcs[i].implies)))
  {
    var (raw, k) := (RawNet(net, srcs), net.graph.rank[i]);
    assert DeclBelow(raw.graph, raw.graph.decls[i], k);
    ChainIsStrongest(Snapshot(raw), WrittenArms(srcs[i].selects));
    ChainIsStrongest(Snapshot(raw), WrittenArms(srcs[i].implies));
    if srcs[i].selects != [] { ValueInIsEval(raw, SelectChain(WrittenArms(srcs[i].selects)).value, k); }
    if srcs[i].implies != [] { ValueInIsEval(raw, SelectChain(WrittenArms(srcs[i].implies)).value, k); }
  }

  /** Prompts and defaults never do harm, whatever is relaxed in them. So all values and write marks
      are kept if relaxed tests select and imply only symbols that cannot be mod. */
  lemma OptimisedNetworkSameValues(net: Net, srcs: seq<Source>)
    requires Rewritable(net, srcs)
    requires forall i :: 0 <= i < |srcs| ==>
               EffectiveType(RawNet(net, srcs), i).Bool? || (Unrelaxed(srcs[i].selects) && Unrelaxed(srcs[i].implies))
    ensures Acyclic(StoredNet(net, srcs)) && AllKept(RawNet(net, srcs), StoredNet(net, srcs))
    ensures forall i :: 0 <= i < |srcs| ==> (Written(StoredNet(net, srcs), i) <==> Written(RawNet(net, srcs), i))
  {
    var (raw, v) := (RawNet(net, srcs), Snapshot(RawNet(net, srcs)));
    StoredValuesExactly(net, srcs);
    SnapshotIsProper(raw);
    forall i | 0 <= i < |srcs| ensures KeepsYes(raw, srcs[i], i) {
      if EffectiveType(raw, i).Tristate? {
        var (selected, implied) := (Strongest(v, WrittenArms(srcs[i].selects)), Strongest(v, WrittenArms(srcs[i].implies)));
        assert HandedSource(srcs[i]);
        RawSelectedFrom(net, srcs, i);
        ValueLowered(raw, raw, i, selected, selected, implied, implied);
        UnrelaxedKeepStrongest(v, srcs[i].selects);
        UnrelaxedKeepStrongest(v, srcs[i].implies);
      }
    }
  }
}
