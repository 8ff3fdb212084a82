/** A select whose stored condition makes the selected symbol m, where the written one makes it y. */
module SelectExample {
  import opened Common
  import opened KconfigSyntax
  import opened ExprDups
  import opened ExprTransform
  import opened MenuDeps
  import opened SymbolValues
  import opened OptimisedNetwork

  const A := Config(0, Bool)
  const C := Config(2, Tristate)

  /** The bool symbol A, set to y by the user, selects a tristate symbol if C is not n; C is set to m. */
  function SelectingNet(fixed: Valuation): Net {
    var (shown, hidden) := ([None], []);
    Net(Graph([Declaration(Bool, shown, None, None, None, []),
               Declaration(Tristate, hidden, None, None, None, []),
               Declaration(Tristate, shown, None, None, None, [])], [0, 1, 0]),
        [Some(YES), None, Some(MOD)], YES, fixed)
  }

  const ALWAYS := Condition(Definition(None, None), None)

  const SHOWN := Source([], [ALWAYS], [], [], [])

  const TEST := Comp(Ne, C, SYM_NO)

  function SelectingSources(): seq<Source> {
    [SHOWN, Source([], [], [], [Select(A, ALWAYS.(own := Some(TEST)))], []), SHOWN]
  }

  /** A visible symbol that nothing selects or implies has the value the user has set. */
  lemma UserDecides(net: Net, i: nat)
    requires Acyclic(net) && i < |net.graph.decls| && net.graph.decls[i].prompts == [None]
    requires net.graph.decls[i].revDep == None && net.graph.decls[i].implied == None
    requires net.user[i].Some? && (net.user[i].value == MOD ==> EffectiveType(net, i).Tristate?)
    ensures Value(net, i) == net.user[i].value
  {
    var (d, k) := (net.graph.decls[i], net.graph.rank[i]);
    assert MaxOf(net, d.prompts, k) == YES by { assert ValueOpt(net, d.prompts[0], k) == YES; }
    assert Visible(net, i) == YES && Selected(net, i) == NO && Implied(net, i) == NO;
    ValueIsResult(net, i);
  }

  lemma StoredTest()
    ensures StoredCond(ALWAYS, true) == None && StoredCond(ALWAYS, false) == None
    ensures StoredCond(ALWAYS.(own := Some(TEST)), false) == Some(Sym(C))
  {
    assert Transform(TEST) == TEST && Reduced(TEST) == TEST && TransBool(TEST) == Sym(C);
    assert BaseDep(None, Some(TEST)) == Some(TEST);
  }

  /** How strongly the tristate symbol is selected, by conditions as written and as stored. */
  lemma SelectedStrength(v: Valuation)
    requires Proper(v) && v.tri(A) == YES && v.tri(C) == MOD
    ensures var ss := SelectingSources()[1].selects; Strongest(v, WrittenArms(ss)) == YES && Strongest(v, StoredArms(ss)) == MOD
  {
    var s := SelectingSources()[1].selects[0];
    StrongestOfOne(v, WrittenArm(s));
    StrongestOfOne(v, StoredArm(s));
    assert WrittenArms([s]) == [WrittenArm(s)] && StoredArms([s]) == [StoredArm(s)];
    StoredTest();
    TestOfTriSymbol(v, Ne, C, SYM_NO);
  }

  lemma SelectingNetIsRewritable(fixed: Valuation)
    requires Proper(fixed)
    ensures Rewritable(SelectingNet(fixed), SelectingSources())
  {
    var raw := RawNet(SelectingNet(fixed), SelectingSources());
    var arms := WrittenArms(SelectingSources()[1].selects);
    assert arms == [Arm(A, Some(TEST))];
    assert SelectChain(arms[..0]) == None;
    assert SelectChain(arms) == Some(Bin(And, Sym(A), TEST));
    assert ExprBelow(raw.graph, Sym(A), 1) && ExprBelow(raw.graph, TEST, 1);
    assert DeclBelow(raw.graph, raw.graph.decls[1], 1);
  }

  /** A and C are written, and stored, without any condition. */
  lemma ShownDecls()
    ensures forall ty :: RawDecl(ty, SHOWN) == StoredDecl(ty, SHOWN) == Declaration(ty, [None], None, None, None, [])
  {
    StoredTest();
    forall ty ensures RawDecl(ty, SHOWN) == StoredDecl(ty, SHOWN) == Declaration(ty, [None], None, None, None, []) {
      assert WrittenDeps([]) == [] && StoredDeps([]) == [] && WrittenArms([]) == [] && StoredArms([]) == [];
    }
  }

  lemma SelectingValues(fixed: Valuation)
    requires Proper(fixed)
    ensures var (raw, stored) := (RawNet(SelectingNet(fixed), SelectingSources()), StoredNet(SelectingNet(fixed), SelectingSources()));
            && SameBase(raw, stored) && SameValuesBelow(raw, stored, 1) && Value(raw, 0) == YES && Value(raw, 2) == MOD
  {
    var (net, srcs) := (SelectingNet(fixed), SelectingSources());
    var (raw, stored) := (RawNet(net, srcs), StoredNet(net, srcs));
    SelectingNetIsRewritable(fixed);
    StoredNetIsSameBase(net, srcs);
    ShownDecls();
    SetByUser(raw, 0);
    SetByUser(stored, 0);
    SetByUser(raw, 2);
    SetByUser(stored, 2);
  }

  lemma SetByUser(net: Net, i: nat)
    requires Acyclic(net) && i < |net.graph.decls|
    requires net.graph.decls[i] == Declaration(net.graph.decls[i].ty, [None], None, None, None, [])
    requires net.user[i].Some? && (net.user[i].value == MOD ==> EffectiveType(net, i).Tristate?)
    ensures Value(net, i) == net.user[i].value
  {
    UserDecides(net, i);
  }

  /** As written the condition makes that symbol y. As stored it is C itself, and makes it m. */
  lemma SelectCanLoseYes(fixed: Valuation)
    requires Proper(fixed)
    ensures var (net, srcs) := (SelectingNet(fixed), SelectingSources());
            && Rewritable(net, srcs) && Acyclic(StoredNet(net, srcs))
            && Value(RawNet(net, srcs), 1) == YES && Value(StoredNet(net, srcs), 1) == MOD
  {
    var (net, srcs) := (SelectingNet(fixed), SelectingSources());
    var (raw, stored) := (RawNet(net, srcs), StoredNet(net, srcs));
    SelectingNetIsRewritable(fixed);
    SelectingValues(fixed);
    SnapshotIsProper(raw);
    SelectedStrength(Snapshot(raw));
    assert DeclBelow(raw.graph, raw.graph.decls[1], 1) && DeclBelow(stored.graph, stored.graph.decls[1], 1);
    ChainValues(raw, stored, srcs[1].selects, 1);
    assert Selected(raw, 1) == YES && Selected(stored, 1) == MOD;
    ValueIsResult(raw, 1);
    ValueIsResult(stored, 1);
    assert MaxOf(stored, [], 1) == NO && Visible(stored, 1) == NO && DefaultOf(stored, 1) == None;
  }

  lemma StrongestOfOne(v: Valuation, a: Arm)
    ensures Strongest(v, [a]) == Min(v.tri(a.selector), EvalOpt(v, a.cond))
  {
    assert Strongest(v, [a][..0]) == NO;
  }
}
