/** The menu tree and the dependencies together: what nesting by the dependency test means for the
    entries of the tree that menu_finalize leaves. */
module MenuNesting {
  import opened Common
  import opened KconfigSyntax
  import opened ExprCompare
  import opened MenuDeps
  import opened MenuForest
  import opened MenuShape
  import opened MenuPairs
  import opened MenuTree

  /** What is stored for each entry when its following siblings are tested: its symbol, the condition of
      its prompt, and its dependency (which is that condition, if it has a prompt). */
  datatype Stored = Stored(sym: Menu -> Symbol, promptDep: Menu -> Option<Expr>, dep: Menu -> Option<Expr>)

  function NestingTest(d: Stored): Tests { (m: Menu, n: Menu) => Adopts(d.dep(n), d.promptDep(m), d.sym(m)) }

  /** In this assignment n is hidden, or the symbol of m is set, or the prompt of m is visible. */
  ghost predicate NeverAlone(d: Stored, v: Valuation, m: Menu, n: Menu) {
    d.dep(n).Some? && Eval(v, d.dep(n).value) != NO ==> v.tri(d.sym(m)) != NO || EvalOpt(v, d.promptDep(m)) != NO
  }

  /** The condition under which the test is right. */
  predicate PlainPair(d: Stored, m: Menu, n: Menu) {
    (d.dep(n).Some? ==> Plain(d.dep(n).value, false)) && (d.promptDep(m).Some? ==> OnlyTri(d.promptDep(m).value))
  }

  /** Whatever an entry takes over ends up as a child of it. */
  lemma TakenIsChild(test: Tests, t: Tree, rest: seq<Tree>, i: nat) returns (j: nat)
    requires t.kids == [] && t.m.hasSymbol && i < |Adopted(test, t.m, rest).0|
    ensures var (t', taken) := (Final(test, t, rest).0, Adopted(test, t.m, rest).0);
            j < |t'.kids| && t'.kids[j].m == taken[i].m
  {
    j := FlatListKeepsRoots(Adopted(test, t.m, rest).0, i);
  }

  /** An entry is taken over only if it is never alone, given plain conditions. */
  lemma TakenIsNeverAlone(d: Stored, m: Menu, rest: seq<Tree>, i: nat, v: Valuation)
    requires i < |Adopted(NestingTest(d), m, rest).0| && d.sym(m).HasTri() && Proper(v)
    ensures var n := Adopted(NestingTest(d), m, rest).0[i].m;
            NestingTest(d)(m, n) && (PlainPair(d, m, n) ==> NeverAlone(d, v, m, n))
  {
    AdoptedExactly(NestingTest(d), m, rest);
    var n := Adopted(NestingTest(d), m, rest).0[i].m;
    if PlainPair(d, m, n) { PlainEntryIsNestedSafely(d.dep(n), d.promptDep(m), d.sym(m)); }
  }

  /** menu_finalize with its own test, for an entry without children: everything it takes over has that
      entry as its parent, by its pointer, and in no assignment is it visible without it. */
  method FinalizeNested(m: Menu, d: Stored, ghost t: Tree, ghost rest: seq<Tree>, ghost p: Menu?)
    returns (ghost t': Tree, ghost rest': seq<Tree>)
    requires m == t.m && t.kids == [] && m.hasSymbol && d.sym(m).HasTri()
    requires Distinct([t] + rest) && Chain(m, [t] + rest, p, null)
    modifies Nodes([t] + rest)
    ensures Chain(m, [t'] + rest', p, null) && (t', rest') == Final(NestingTest(d), t, rest)
    ensures forall i :: 0 <= i < |Adopted(NestingTest(d), m, rest).0| ==>
              Adopted(NestingTest(d), m, rest).0[i].m.parent == m
    ensures forall i, v {:trigger NeverAlone(d, v, m, Adopted(NestingTest(d), m, rest).0[i].m)} ::
              0 <= i < |Adopted(NestingTest(d), m, rest).0| && Proper(v) && PlainPair(d, m, Adopted(NestingTest(d), m, rest).0[i].m)
              ==> NeverAlone(d, v, m, Adopted(NestingTest(d), m, rest).0[i].m)
  {
    t', rest' := Finalize(m, NestingTest(d), t, rest, p);
    ChainUncons(m, t', rest', p, null);
    ghost var taken := Adopted(NestingTest(d), m, rest).0;
    forall i | 0 <= i < |taken| ensures taken[i].m.parent == m {
      var j := TakenIsChild(NestingTest(d), t, rest, i);
      ParentOfAll(m.list, t'.kids, m, null, j);
    }
    forall i, v | 0 <= i < |taken| && Proper(v) && PlainPair(d, m, taken[i].m) ensures NeverAlone(d, v, m, taken[i].m) {
      TakenIsNeverAlone(d, m, rest, i, v);
    }
  }

  /** menu_finalize for the root, or any other entry with children: below it, at every depth, an entry with
      a prompt text, a symbol and no children becomes the parent of its next sibling, by the pointer of
      that, exactly if the dependency test passes. */
  method FinalizeAll(m: Menu, d: Stored, ghost t: Tree, ghost rest: seq<Tree>, ghost p: Menu?)
    returns (ghost t': Tree, ghost rest': seq<Tree>)
    requires m == t.m && Distinct([t] + rest) && Chain(m, [t] + rest, p, null)
    modifies Nodes([t] + rest)
    ensures Chain(m, [t'] + rest', p, null) && (t', rest') == Final(NestingTest(d), t, rest)
    ensures forall u: Tree, siblings: seq<Tree> :: IsNestingPlace(t, u, siblings) ==>
              (siblings[0].m.parent == u.m <==> NestingTest(d)(u.m, siblings[0].m))
  {
    t', rest' := Finalize(m, NestingTest(d), t, rest, p);
    ChainUncons(m, t', rest', p, null);
    forall u: Tree, siblings: seq<Tree> | IsNestingPlace(t, u, siblings)
      ensures siblings[0].m.parent == u.m <==> NestingTest(d)(u.m, siblings[0].m)
    {
      NextHasParentExactly(m, NestingTest(d), t, rest, u, siblings);
    }
  }

  /** u stands somewhere below t, before these siblings, with a prompt text, a symbol and no children. */
  ghost predicate IsNestingPlace(t: Tree, u: Tree, siblings: seq<Tree>) {
    HasPlace(t.kids, u, siblings) && u.m.hasPromptText && u.m.hasSymbol && u.kids == [] && siblings != []
  }

  lemma NextHasParentExactly(m: Menu, test: Tests, t: Tree, rest: seq<Tree>, u: Tree, siblings: seq<Tree>)
    requires Distinct([t] + rest) && IsNestingPlace(t, u, siblings)
    requires var t' := Final(test, t, rest).0; m == t'.m && Chain(m.list, t'.kids, m, null)
    ensures siblings[0].m.parent == u.m <==> test(u.m, siblings[0].m)
  {
    var (t', n) := (Final(test, t, rest).0, siblings[0].m);
    NextIsNestedExactly(test, t, rest, u, siblings);
    DistinctHead(t, rest);
    PlaceIsNode(t.kids, u, siblings);
    SiblingIsNode(t.kids, u, siblings);
    HasChildOfOne(t', u.m, n);
    SamePreorder(FlatList(FinalList(test, t.kids)), t.kids);
    ParentHasChild(m.list, t'.kids, m, null, n);
    if HasChild(t'.kids, u.m, n) { ChildHasParent(m.list, t'.kids, m, null, u.m, n); }
  }

  lemma {:induction false} SiblingIsNode(ts: seq<Tree>, u: Tree, siblings: seq<Tree>)
    requires HasPlace(ts, u, siblings) && siblings != []
    ensures siblings[0].m in Nodes(ts)
    decreases ts
  {
    if HasPlace(ts[0].kids, u, siblings) {
      SiblingIsNode(ts[0].kids, u, siblings);
    } else if HasPlace(ts[1..], u, siblings) {
      SiblingIsNode(ts[1..], u, siblings);
    }
  }
}
