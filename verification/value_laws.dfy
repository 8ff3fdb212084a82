/** What decides the value of a symbol, said of the values alone: bounds that are attained, and the
    least value that meets all demands. */
module ValueLaws {
  import opened Common
  import opened KconfigSyntax
  import opened SymbolValues

  // ---------- the visibility is the largest prompt condition ----------

  lemma {:induction false} MaxIsLargest(net: Net, es: seq<Option<Expr>>, k: nat)
    requires Acyclic(net) && forall j :: 0 <= j < |es| ==> OptBelow(net.graph, es[j], k)
    ensures forall j :: 0 <= j < |es| ==> EvalOpt(Snapshot(net), es[j]) <= MaxOf(net, es, k)
    ensures MaxOf(net, es, k) == NO || exists j :: 0 <= j < |es| && EvalOpt(Snapshot(net), es[j]) == MaxOf(net, es, k)
  {
    if es != [] {
      var n := |es| - 1;
      MaxIsLargest(net, es[..n], k);
      if es[n].Some? { ValueInIsEval(net, es[n].value, k); }
      assert ValueOpt(net, es[n], k) == EvalOpt(Snapshot(net), es[n]);
    }
  }

  /** A symbol is as visible as its most visible prompt, up to the rounding of mod. */
  lemma VisibleIsLargest(net: Net, i: nat)
    requires Acyclic(net) && i < |net.graph.decls|
    ensures var (ps, v) := (net.graph.decls[i].prompts, Snapshot(net));
            && (forall j :: 0 <= j < |ps| ==> Rounded(net, i, EvalOpt(v, ps[j])) <= Visible(net, i))
            && (Visible(net, i) == NO || exists j :: 0 <= j < |ps| && Rounded(net, i, EvalOpt(v, ps[j])) == Visible(net, i))
  {
    assert DeclBelow(net.graph, net.graph.decls[i], net.graph.rank[i]);
    MaxIsLargest(net, net.graph.decls[i].prompts, net.graph.rank[i]);
  }

  // ---------- what is selected is the largest alternative ----------

  /** x is one of the alternatives that e consists of, as every select property adds one. */
  predicate IsAlternative(x: Expr, e: Expr) {
    x == e || (e.Bin? && e.op.Or? && (IsAlternative(x, e.left) || IsAlternative(x, e.right)))
  }

  lemma {:induction false} LargestAlternative(v: Valuation, e: Expr)
    ensures forall x :: IsAlternative(x, e) ==> Eval(v, x) <= Eval(v, e)
    ensures exists x :: IsAlternative(x, e) && Eval(v, x) == Eval(v, e)
  {
    assert IsAlternative(e, e);
    if e.Bin? && e.op.Or? {
      LargestAlternative(v, e.left);
      LargestAlternative(v, e.right);
    }
  }

  /** A symbol is selected by the strongest of the alternatives. */
  lemma SelectedIsLargest(net: Net, i: nat)
    requires Acyclic(net) && i < |net.graph.decls|
    ensures var (e, v) := (net.graph.decls[i].revDep, Snapshot(net));
            if e.None? then Selected(net, i) == NO
            else && (forall x :: IsAlternative(x, e.value) ==> Rounded(net, i, Eval(v, x)) <= Selected(net, i))
                 && (exists x :: IsAlternative(x, e.value) && Rounded(net, i, Eval(v, x)) == Selected(net, i))
  {
    var (d, k) := (net.graph.decls[i], net.graph.rank[i]);
    assert DeclBelow(net.graph, d, k);
    if d.revDep.Some? {
      ValueInIsEval(net, d.revDep.value, k);
      LargestAlternative(Snapshot(net), d.revDep.value);
    }
  }

  /** What selects promise: whatever the user sets, the symbol is at least as large as each one that selects
      it, limited by the condition of the select. */
  lemma SelectIsObeyed(net: Net, i: nat, selector: Symbol, condition: Expr)
    requires Acyclic(net) && i < |net.graph.decls| && net.graph.decls[i].revDep.Some?
    requires IsAlternative(Bin(And, Sym(selector), condition), net.graph.decls[i].revDep.value)
    ensures Value(net, i) >= Min(Snapshot(net).tri(selector), Eval(Snapshot(net), condition))
  {
    var v := Snapshot(net);
    SelectedIsLargest(net, i);
    assert Eval(v, Bin(And, Sym(selector), condition)) == Min(v.tri(selector), Eval(v, condition));
  }

  /** mod is for tristate symbols and needs modules; and for these, nothing is rounded. */
  lemma ModNeedsModules(net: Net, i: nat, t: Tri)
    requires Acyclic(net) && i < |net.graph.decls|
    ensures net.graph.decls[i].ty.Bool? || net.modules == NO ==>
              MOD !in [Visible(net, i), Selected(net, i), Implied(net, i), Value(net, i)] && Rounded(net, i, t) == if t == NO then NO else YES
    ensures net.graph.decls[i].ty.Tristate? && net.modules != NO ==> Rounded(net, i, t) == t
  {
    assert net.graph.decls[i].ty.Bool? || net.graph.decls[i].ty.Tristate?;
  }

  // ---------- the default ----------

  /** The j-th default is the first one whose condition holds. */
  ghost predicate IsFirst(v: Valuation, ds: seq<(Option<Expr>, Expr)>, j: nat) {
    j < |ds| && EvalOpt(v, ds[j].0) != NO && forall i :: 0 <= i < j ==> EvalOpt(v, ds[i].0) == NO
  }

  ghost predicate NoneHolds(v: Valuation, ds: seq<(Option<Expr>, Expr)>) {
    forall j :: 0 <= j < |ds| ==> EvalOpt(v, ds[j].0) == NO
  }

  /** d is the value of the j-th default, limited by its condition. */
  ghost predicate IsLimited(v: Valuation, ds: seq<(Option<Expr>, Expr)>, j: nat, d: Tri)
    requires j < |ds|
  {
    var (c, e) := (EvalOpt(v, ds[j].0), Eval(v, ds[j].1));
    d <= c && d <= e && (d == c || d == e)
  }

  lemma {:induction false} FirstDefault(net: Net, ds: seq<(Option<Expr>, Expr)>, k: nat)
    requires Acyclic(net)
    requires forall j :: 0 <= j < |ds| ==> OptBelow(net.graph, ds[j].0, k) && ExprBelow(net.graph, ds[j].1, k)
    ensures Default(net, ds, k).None? <==> NoneHolds(Snapshot(net), ds)
    ensures Default(net, ds, k).Some? ==>
              exists j: nat :: IsFirst(Snapshot(net), ds, j) && IsLimited(Snapshot(net), ds, j, Default(net, ds, k).value)
  {
    if ds != [] {
      var v := Snapshot(net);
      if ds[0].0.Some? { ValueInIsEval(net, ds[0].0.value, k); }
      assert ValueOpt(net, ds[0].0, k) == EvalOpt(v, ds[0].0);
      ValueInIsEval(net, ds[0].1, k);
      FirstDefault(net, ds[1..], k);
      if EvalOpt(v, ds[0].0) != NO {
        assert IsFirst(v, ds, 0) && IsLimited(v, ds, 0, Default(net, ds, k).value);
      } else if Default(net, ds, k).Some? {
        var d := Default(net, ds, k).value;
        var j: nat :| IsFirst(v, ds[1..], j) && IsLimited(v, ds[1..], j, d);
        assert IsFirst(v, ds, j + 1) && IsLimited(v, ds, j + 1, d);
      }
    }
  }

  /** A symbol has no default if no condition holds; otherwise the first one that holds counts, and the
      default is the smaller one of its value and its condition. */
  lemma DefaultIsFirst(net: Net, i: nat)
    requires Acyclic(net) && i < |net.graph.decls|
    ensures var (ds, v) := (net.graph.decls[i].defaults, Snapshot(net));
            && (DefaultOf(net, i).None? <==> NoneHolds(v, ds))
            && (DefaultOf(net, i).Some? ==>
                  exists j: nat :: IsFirst(v, ds, j) && IsLimited(v, ds, j, DefaultOf(net, i).value))
  {
    assert DeclBelow(net.graph, net.graph.decls[i], net.graph.rank[i]);
    FirstDefault(net, net.graph.decls[i].defaults, net.graph.rank[i]);
  }

  // ---------- the value ----------

  ghost predicate UserCounts(net: Net, i: nat)
    requires Acyclic(net) && i < |net.graph.decls|
  {
    Visible(net, i) != NO && net.user[i].Some?
  }

  /** Without an effective user value, and with nothing that selects or implies the symbol, it never
      exceeds the first default condition that holds, nor the value of that default. */
  lemma DefaultLimitsValue(net: Net, i: nat)
    requires Acyclic(net) && i < |net.graph.decls|
    requires !UserCounts(net, i) && Selected(net, i) == NO && Implied(net, i) == NO
    ensures var (ds, v) := (net.graph.decls[i].defaults, Snapshot(net));
            if Value(net, i) == NO then true
            else exists j: nat :: IsFirst(v, ds, j) && Value(net, i) <= Rounded(net, i, EvalOpt(v, ds[j].0))
                                  && Value(net, i) <= Rounded(net, i, Eval(v, ds[j].1))
  {
    DefaultIsFirst(net, i);
    if Value(net, i) != NO {
      var (ds, v) := (net.graph.decls[i].defaults, Snapshot(net));
      assert Chosen(net, i) == Defaulted(net, i);
      assert DefaultOf(net, i).Some? && Defaulted(net, i) == DefaultOf(net, i).value;
      var j: nat :| IsFirst(v, ds, j) && IsLimited(v, ds, j, DefaultOf(net, i).value);
      var (c, e) := (EvalOpt(v, ds[j].0), Eval(v, ds[j].1));
      assert Value(net, i) <= Rounded(net, i, c) && Value(net, i) <= Rounded(net, i, e);
    }
  }

  /** The smallest value that is at least as large as all of these. */
  ghost predicate IsLeast(t: Tri, demands: set<Tri>) {
    Reaches(t, demands) && forall u: Tri :: Reaches(u, demands) ==> t <= u
  }

  ghost predicate Reaches(t: Tri, demands: set<Tri>) { forall d :: d in demands ==> d <= t }

  ghost predicate IsGreatest(t: Tri, limits: set<Tri>) {
    StaysBelow(t, limits) && forall u: Tri :: StaysBelow(u, limits) ==> u <= t
  }

  ghost predicate StaysBelow(t: Tri, limits: set<Tri>) { forall d :: d in limits ==> t <= d }

  /** The user gets as much as he asked for and can see; without him the default counts, but at least
      what implying symbols ask for. */
  lemma ChosenExactly(net: Net, i: nat)
    requires Acyclic(net) && i < |net.graph.decls|
    ensures UserCounts(net, i) ==> IsGreatest(Chosen(net, i), {net.user[i].value, Visible(net, i)})
    ensures !UserCounts(net, i) ==>
              IsLeast(Chosen(net, i), {if DefaultOf(net, i).Some? then DefaultOf(net, i).value else NO, Implied(net, i)})
  {
    var d := if DefaultOf(net, i).Some? then DefaultOf(net, i).value else NO;
    if UserCounts(net, i) {
      var (a, b) := (net.user[i].value, Visible(net, i));
      assert Chosen(net, i) == Min(a, b);
      assert Min(a, b) in {a, b};
    } else {
      assert Chosen(net, i) == Max(d, Implied(net, i));
      assert Max(d, Implied(net, i)) in {d, Implied(net, i)};
    }
  }

  /** mod is out for a symbol that is in effect bool, and for one that is implied by y. */
  ghost predicate Possible(net: Net, i: nat, t: Tri)
    requires Acyclic(net) && i < |net.graph.decls|
  {
    t == MOD ==> !EffectiveType(net, i).Bool? && Implied(net, i) != YES
  }

  /** The value is the smallest possible one that reaches what was chosen and what is selected. */
  lemma ValueIsLeast(net: Net, i: nat)
    requires Acyclic(net) && i < |net.graph.decls|
    ensures Possible(net, i, Value(net, i)) && Value(net, i) >= Selected(net, i) && Value(net, i) >= Chosen(net, i)
    ensures forall t: Tri :: Possible(net, i, t) && t >= Selected(net, i) && t >= Chosen(net, i) ==> Value(net, i) <= t
  {
    assert EffectiveType(net, i).Bool? || EffectiveType(net, i).Tristate?;
  }

  /** Nothing is implied for a symbol whose direct dependency does not hold. */
  lemma ImpliedNeedsDirect(net: Net, i: nat)
    requires Acyclic(net) && i < |net.graph.decls|
    ensures Direct(net, i) == NO <==> EvalOpt(Snapshot(net), net.graph.decls[i].dirDep) == NO
    ensures Direct(net, i) == NO ==> Implied(net, i) == NO
    ensures var e := net.graph.decls[i].implied;
            Direct(net, i) != NO && e.Some? ==> Implied(net, i) == Rounded(net, i, Eval(Snapshot(net), e.value))
  {
    var (d, k) := (net.graph.decls[i], net.graph.rank[i]);
    assert DeclBelow(net.graph, d, k);
    if d.dirDep.Some? { ValueInIsEval(net, d.dirDep.value, k); }
    if d.implied.Some? { ValueInIsEval(net, d.implied.value, k); }
  }

  /** A symbol is left out of the configuration file exactly if nothing shows, selects or implies it and no
      default condition holds; then it is no, whatever the user has set. */
  lemma UnwrittenExactly(net: Net, i: nat)
    requires Acyclic(net) && Proper(net.fixed) && i < |net.graph.decls|
    ensures !Written(net, i) <==>
              && Visible(net, i) == NO && Selected(net, i) == NO && Implied(net, i) == NO
              && NoneHolds(Snapshot(net), net.graph.decls[i].defaults)
    ensures !Written(net, i) ==> Value(net, i) == NO && forall val :: Value(WithUser(net, i, val), i) == NO
  {
    DefaultIsFirst(net, i);
    if !Written(net, i) {
      assert Defaulted(net, i) == NO && Chosen(net, i) == NO;
      forall val ensures Value(WithUser(net, i, val), i) == NO { ValueOfUser(net, i, val); }
    }
  }

  // ---------- when the range check accepts something ----------

  /** Two choices of the user lead to different values. */
  ghost predicate UserMatters(net: Net, i: nat)
    requires Acyclic(net) && i < |net.graph.decls|
  {
    exists a: Tri, b: Tri :: Value(WithUser(net, i, a), i) != Value(WithUser(net, i, b), i)
  }

  /** The symbol is selected with m, visible with y, and implied by y: then it is y, whatever the user says. */
  ghost predicate LiftedToYes(net: Net, i: nat)
    requires Acyclic(net) && i < |net.graph.decls|
  {
    Visible(net, i) == YES && Selected(net, i) == MOD && Implied(net, i) == YES
  }

  lemma SomeIsAcceptedExactly(net: Net, i: nat)
    requires Acyclic(net) && i < |net.graph.decls|
    ensures (exists val :: WithinRange(net, i, val)) <==> Visible(net, i) > Selected(net, i)
  {
    if Visible(net, i) > Selected(net, i) {
      var val := if Visible(net, i) == MOD then NO else YES;
      assert WithinRange(net, i, val);
    }
  }

  lemma UserMattersExactly(net: Net, i: nat)
    requires Acyclic(net) && Proper(net.fixed) && i < |net.graph.decls|
    ensures UserMatters(net, i) <==> Visible(net, i) > Selected(net, i) && !LiftedToYes(net, i)
  {
    forall val ensures AgreeButUser(net, WithUser(net, i, val), i) { UserChangesOnlyItself(net, i, val); }
    forall val ensures Value(WithUser(net, i, val), i) == ValueWith(net, i, val) { ValueOfUser(net, i, val); }
    if Visible(net, i) > Selected(net, i) && !LiftedToYes(net, i) {
      assert ValueWith(net, i, NO) != ValueWith(net, i, Visible(net, i));
    }
  }

  /** The value for a user's choice, as far as that is not decided without him. */
  ghost function ValueWith(net: Net, i: nat, val: Tri): Tri
    requires Acyclic(net) && i < |net.graph.decls|
  {
    var t := Max(if Visible(net, i) != NO then Min(val, Visible(net, i)) else Defaulted(net, i), Selected(net, i));
    if t == MOD && (EffectiveType(net, i).Bool? || Implied(net, i) == YES) then YES else t
  }

  lemma ValueOfUser(net: Net, i: nat, val: Tri)
    requires Acyclic(net) && Proper(net.fixed) && i < |net.graph.decls|
    ensures Value(WithUser(net, i, val), i) == ValueWith(net, i, val)
  {
    UserChangesOnlyItself(net, i, val);
    var net' := WithUser(net, i, val);
    assert EffectiveType(net', i) == EffectiveType(net, i);
    assert Agree(Defaulted(net, i), Defaulted(net', i), net.graph.decls[i].ty.Bool?);
  }

  /** The range check accepts some value exactly if the user's choice can change the symbol's value, but
      for the symbols that are lifted to y: for these it accepts y, which they are anyway. */
  lemma AcceptsExactly(net: Net, i: nat)
    requires Acyclic(net) && Proper(net.fixed) && i < |net.graph.decls|
    ensures (exists val :: WithinRange(net, i, val)) <==> UserMatters(net, i) || LiftedToYes(net, i)
  {
    SomeIsAcceptedExactly(net, i);
    UserMattersExactly(net, i);
  }

  /** There are such symbols. */
  lemma AcceptedWithoutEffect(fixed: Valuation)
    requires Proper(fixed)
    ensures var d := Declaration(Tristate, [None], None, Some(Sym(SYM_MOD)), Some(Sym(SYM_YES)), []);
            var net := Net(Graph([d], [0]), [None], YES, fixed);
            Acyclic(net) && WithinRange(net, 0, YES) && !UserMatters(net, 0)
  {
    var d := Declaration(Tristate, [None], None, Some(Sym(SYM_MOD)), Some(Sym(SYM_YES)), []);
    var net := Net(Graph([d], [0]), [None], YES, fixed);
    assert Acyclic(net);
    assert MaxOf(net, d.prompts, 0) == YES by { assert ValueOpt(net, d.prompts[0], 0) == YES; }
    assert ValueIn(net, Sym(SYM_MOD), 0) == MOD && ValueIn(net, Sym(SYM_YES), 0) == YES;
    assert Direct(net, 0) == YES;
    assert Visible(net, 0) == YES && Selected(net, 0) == MOD && Implied(net, 0) == YES;
    UserMattersExactly(net, 0);
  }
}
