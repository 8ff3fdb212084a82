/** What a silent dependency check means for evaluation. The recursive definition of the values is
    well founded exactly if the symbols can be ranked. The check looks at every condition that the
    values depend on, except for what implies a symbol. */
module CheckedNetwork {
  import opened Common
  import opened KconfigSyntax
  import opened ExprDups
  import opened ExprTransform
  import opened MenuDeps
  import opened SymbolValues
  import Graphs
  import Check = DependencyCheck

  // ---------- what a value depends on ----------

  function TriNode(s: Symbol): set<nat> { if s.HasTri() then {s.id} else {} }

  /** The bool and tristate symbols in an expression; the others are inputs of the network. */
  function TriIds(e: Expr): set<nat> {
    match e
    case Sym(s) => TriNode(s)
    case Not(a) => TriIds(a)
    case Bin(_, l, r) => TriIds(l) + TriIds(r)
    case Comp(_, a, b) => TriNode(a) + TriNode(b)
  }

  function TriIdsOpt(e: Option<Expr>): set<nat> { if e.None? then {} else TriIds(e.value) }

  /** Needed through the selectors, the direct dependency, prompt conditions and defaults, which the
      check looks at. */
  function SeenNeeds(d: Declaration): set<nat> {
    TriIdsOpt(d.revDep) + TriIdsOpt(d.dirDep) + PromptNeeds(d.prompts) + DefaultNeeds(d.defaults)
  }

  function PromptNeeds(prompts: seq<Option<Expr>>): set<nat> {
    if prompts == [] then {} else TriIdsOpt(prompts[0]) + PromptNeeds(prompts[1..])
  }

  function DefaultNeeds(defaults: seq<(Option<Expr>, Expr)>): set<nat> {
    if defaults == [] then {} else TriIdsOpt(defaults[0].0) + TriIds(defaults[0].1) + DefaultNeeds(defaults[1..])
  }

  lemma {:induction false} PromptsCover(prompts: seq<Option<Expr>>, S: set<nat>)
    ensures PromptNeeds(prompts) <= S <==> forall i :: 0 <= i < |prompts| ==> TriIdsOpt(prompts[i]) <= S
  {
    if prompts != [] { PromptsCover(prompts[1..], S); }
  }

  lemma {:induction false} DefaultsCover(defaults: seq<(Option<Expr>, Expr)>, S: set<nat>)
    ensures DefaultNeeds(defaults) <= S <==>
              forall i :: 0 <= i < |defaults| ==> TriIdsOpt(defaults[i].0) <= S && TriIds(defaults[i].1) <= S
  {
    if defaults != [] { DefaultsCover(defaults[1..], S); }
  }

  /** Needed through the implying symbols and their conditions, which it does not look at. */
  function HiddenNeeds(d: Declaration): set<nat> { TriIdsOpt(d.implied) }

  function NeedEdges(decls: seq<Declaration>): Graphs.Edges {
    seq(|decls|, i requires 0 <= i < |decls| => SeenNeeds(decls[i]) + HiddenNeeds(decls[i]))
  }

  /** Bool and tristate symbols are declared with the type they are used at. */
  predicate WellTypedSymbol(decls: seq<Declaration>, s: Symbol) {
    s.HasTri() ==> s.id < |decls| && decls[s.id].ty == s.ty
  }

  predicate WellTyped(decls: seq<Declaration>, e: Expr) {
    match e
    case Sym(s) => WellTypedSymbol(decls, s)
    case Not(a) => WellTyped(decls, a)
    case Bin(_, l, r) => WellTyped(decls, l) && WellTyped(decls, r)
    case Comp(_, a, b) => WellTypedSymbol(decls, a) && WellTypedSymbol(decls, b)
  }

  predicate WellTypedOpt(decls: seq<Declaration>, e: Option<Expr>) { e.Some? ==> WellTyped(decls, e.value) }

  predicate WellTypedDecl(decls: seq<Declaration>, d: Declaration) {
    && (d.ty.Bool? || d.ty.Tristate?)
    && (forall i :: 0 <= i < |d.prompts| ==> WellTypedOpt(decls, d.prompts[i]))
    && WellTypedOpt(decls, d.dirDep) && WellTypedOpt(decls, d.revDep) && WellTypedOpt(decls, d.implied)
    && (forall i :: 0 <= i < |d.defaults| ==> WellTypedOpt(decls, d.defaults[i].0) && WellTyped(decls, d.defaults[i].1))
  }

  predicate WellTypedNet(net: Net) {
    && |net.user| == |net.graph.decls|
    && forall i :: 0 <= i < |net.graph.decls| ==> WellTypedDecl(net.graph.decls, net.graph.decls[i])
  }

  function RankedBelow(g: Graph, k: nat): set<nat> { set j | 0 <= j < |g.rank| && g.rank[j] < k }

  lemma {:induction false} BelowExactly(g: Graph, e: Expr, k: nat)
    requires |g.rank| == |g.decls| && WellTyped(g.decls, e)
    ensures ExprBelow(g, e, k) <==> TriIds(e) <= RankedBelow(g, k)
  {
    match e
    case Sym(s) =>
    case Not(a) => BelowExactly(g, a, k);
    case Bin(_, l, r) =>
      BelowExactly(g, l, k);
      BelowExactly(g, r, k);
    case Comp(_, a, b) =>
  }

  lemma OptBelowExactly(g: Graph, e: Option<Expr>, k: nat)
    requires |g.rank| == |g.decls| && WellTypedOpt(g.decls, e)
    ensures OptBelow(g, e, k) <==> TriIdsOpt(e) <= RankedBelow(g, k)
  {
    if e.Some? { BelowExactly(g, e.value, k); }
  }

  lemma DeclBelowExactly(g: Graph, d: Declaration, k: nat)
    requires |g.rank| == |g.decls| && WellTypedDecl(g.decls, d)
    ensures DeclBelow(g, d, k) <==> SeenNeeds(d) + HiddenNeeds(d) <= RankedBelow(g, k)
  {
    OptBelowExactly(g, d.revDep, k);
    OptBelowExactly(g, d.dirDep, k);
    OptBelowExactly(g, d.implied, k);
    forall i | 0 <= i < |d.prompts| ensures OptBelow(g, d.prompts[i], k) <==> TriIdsOpt(d.prompts[i]) <= RankedBelow(g, k) {
      OptBelowExactly(g, d.prompts[i], k);
    }
    forall i | 0 <= i < |d.defaults|
      ensures OptBelow(g, d.defaults[i].0, k) <==> TriIdsOpt(d.defaults[i].0) <= RankedBelow(g, k)
      ensures ExprBelow(g, d.defaults[i].1, k) <==> TriIds(d.defaults[i].1) <= RankedBelow(g, k)
    {
      OptBelowExactly(g, d.defaults[i].0, k);
      BelowExactly(g, d.defaults[i].1, k);
    }
    NeedsCover(d, RankedBelow(g, k));
  }

  lemma NeedsCover(d: Declaration, S: set<nat>)
    ensures SeenNeeds(d) + HiddenNeeds(d) <= S <==>
              && TriIdsOpt(d.revDep) <= S && TriIdsOpt(d.dirDep) <= S && TriIdsOpt(d.implied) <= S
              && (forall i :: 0 <= i < |d.prompts| ==> TriIdsOpt(d.prompts[i]) <= S)
              && (forall i :: 0 <= i < |d.defaults| ==> TriIdsOpt(d.defaults[i].0) <= S && TriIds(d.defaults[i].1) <= S)
  {
    PromptsCover(d.prompts, S);
    DefaultsCover(d.defaults, S);
  }

  // ---------- when the values are well defined ----------

  function WithRank(net: Net, rank: seq<nat>): Net { net.(graph := net.graph.(rank := rank)) }

  ghost predicate Rankable(net: Net) { exists rank :: Acyclic(WithRank(net, rank)) }

  ghost predicate NetBelow(net: Net, rank: seq<nat>, i: nat)
    requires |rank| == |net.graph.decls| && i < |rank|
  {
    DeclBelow(WithRank(net, rank).graph, net.graph.decls[i], rank[i])
  }

  lemma DeclIsRanked(net: Net, rank: seq<nat>, i: nat)
    requires WellTypedNet(net) && |rank| == |net.graph.decls| && i < |rank|
    ensures NetBelow(net, rank, i) <==> Graphs.RanksNode(NeedEdges(net.graph.decls), rank, i)
  {
    var (g, d) := (WithRank(net, rank).graph, net.graph.decls[i]);
    DeclBelowExactly(g, d, rank[i]);
    assert NeedEdges(net.graph.decls)[i] == SeenNeeds(d) + HiddenNeeds(d);
    assert forall j :: j in RankedBelow(g, rank[i]) <==> 0 <= j < |rank| && rank[j] < rank[i];
  }

  lemma AcyclicIsBelow(net: Net, rank: seq<nat>)
    requires WellTypedNet(net)
    ensures Acyclic(WithRank(net, rank)) <==>
              |rank| == |net.graph.decls| && forall i :: 0 <= i < |rank| ==> NetBelow(net, rank, i)
  {
    var g := WithRank(net, rank).graph;
    if |rank| == |g.decls| {
      forall i | 0 <= i < |rank|
        ensures NetBelow(net, rank, i) == DeclBelow(g, g.decls[i], g.rank[i])
        ensures g.decls[i].ty.Bool? || g.decls[i].ty.Tristate?
      {
        assert WellTypedDecl(net.graph.decls, net.graph.decls[i]);
      }
    }
  }

  lemma AcyclicIsRanks(net: Net, rank: seq<nat>)
    requires WellTypedNet(net)
    ensures Acyclic(WithRank(net, rank)) <==> Graphs.Ranks(NeedEdges(net.graph.decls), rank)
  {
    var edges := NeedEdges(net.graph.decls);
    AcyclicIsBelow(net, rank);
    if |rank| == |edges| {
      forall i | 0 <= i < |rank| ensures NetBelow(net, rank, i) <==> Graphs.RanksNode(edges, rank, i) { DeclIsRanked(net, rank, i); }
    }
  }

  lemma {:induction false} TriIdsAreDeclared(decls: seq<Declaration>, e: Expr)
    requires WellTyped(decls, e)
    ensures TriIds(e) <= Upto(|decls|)
  {
    match e
    case Not(a) => TriIdsAreDeclared(decls, a);
    case Bin(_, l, r) =>
      TriIdsAreDeclared(decls, l);
      TriIdsAreDeclared(decls, r);
    case _ =>
  }

  lemma OptIdsAreDeclared(decls: seq<Declaration>, e: Option<Expr>)
    requires WellTypedOpt(decls, e)
    ensures TriIdsOpt(e) <= Upto(|decls|)
  {
    if e.Some? { TriIdsAreDeclared(decls, e.value); }
  }

  lemma NeedsAreDeclared(decls: seq<Declaration>, d: Declaration)
    requires WellTypedDecl(decls, d)
    ensures SeenNeeds(d) + HiddenNeeds(d) <= Upto(|decls|)
  {
    var all := Upto(|decls|);
    OptIdsAreDeclared(decls, d.revDep);
    OptIdsAreDeclared(decls, d.dirDep);
    OptIdsAreDeclared(decls, d.implied);
    forall i | 0 <= i < |d.prompts| ensures TriIdsOpt(d.prompts[i]) <= all { OptIdsAreDeclared(decls, d.prompts[i]); }
    forall i | 0 <= i < |d.defaults| ensures TriIdsOpt(d.defaults[i].0) <= all && TriIds(d.defaults[i].1) <= all {
      OptIdsAreDeclared(decls, d.defaults[i].0);
      TriIdsAreDeclared(decls, d.defaults[i].1);
    }
    NeedsCover(d, all);
  }

  lemma NeedEdgesAreClosed(decls: seq<Declaration>)
    requires forall i :: 0 <= i < |decls| ==> WellTypedDecl(decls, decls[i])
    ensures Graphs.Closed(NeedEdges(decls))
  {
    forall i, j | 0 <= i < |decls| && j in NeedEdges(decls)[i] ensures j < |decls| { NeedsAreDeclared(decls, decls[i]); }
  }

  /** The values are well defined exactly if no bool or tristate symbol depends on itself through any
      of its conditions. */
  lemma RankableExactly(net: Net)
    requires WellTypedNet(net)
    ensures Rankable(net) <==> !Graphs.HasCycle(NeedEdges(net.graph.decls))
  {
    var g := NeedEdges(net.graph.decls);
    NeedEdgesAreClosed(net.graph.decls);
    Graphs.RankedExactly(g);
    forall rank ensures Acyclic(WithRank(net, rank)) <==> Graphs.Ranks(g, rank) { AcyclicIsRanks(net, rank); }
  }

  // ---------- what the check sees of it ----------

  /** A select or imply property of a symbol: its target and its condition. */
  datatype OwnProp = OwnProp(target: Symbol, cond: Option<Expr>)

  /** What a symbol has beside its declaration: the entries that define it, each of which gives it a
      P_SYMBOL property, and its own imply and select properties. */
  datatype Extras = Extras(entries: seq<Definition>, implies: seq<OwnProp>, selects: seq<OwnProp>)

  /** The direct dependencies are those of the entries. */
  ghost predicate DefinedBy(decls: seq<Declaration>, extras: seq<Extras>) {
    |extras| == |decls| && forall i :: 0 <= i < |decls| ==> decls[i].dirDep == AnyOf(StoredDeps(extras[i].entries))
  }

  /** The condition that menu_finalize stores in the P_SYMBOL property of an entry. */
  function SymbolCond(entry: Definition, tristate: bool): Option<Expr> { PropertyDep(StoredDep(entry), None, tristate) }

  function SymbolProps(entries: seq<Definition>, self: Symbol): seq<Check.Prop> {
    if entries == [] then []
    else [Check.Prop(Check.Other, SymbolCond(entries[0], self.Type().Tristate?), Some(Sym(self)))] + SymbolProps(entries[1..], self)
  }

  function OwnProps(kind: Check.PropKind, ps: seq<OwnProp>): seq<Check.Prop> {
    if ps == [] then [] else [Check.Prop(kind, ps[0].cond, Some(Sym(ps[0].target)))] + OwnProps(kind, ps[1..])
  }

  function PromptProps(prompts: seq<Option<Expr>>): seq<Check.Prop> {
    if prompts == [] then [] else [Check.Prop(Check.Other, prompts[0], None)] + PromptProps(prompts[1..])
  }

  function DefaultProps(defaults: seq<(Option<Expr>, Expr)>): seq<Check.Prop> {
    if defaults == [] then []
    else [Check.Prop(Check.Default, defaults[0].0, Some(defaults[0].1))] + DefaultProps(defaults[1..])
  }

  /** The i-th symbol as the search sees it. */
  function DepsOf(i: nat, d: Declaration, x: Extras): Check.Deps {
    Check.Deps(d.revDep,
               SymbolProps(x.entries, Config(i, d.ty)) + OwnProps(Check.Other, x.implies) + OwnProps(Check.Select, x.selects)
               + PromptProps(d.prompts) + DefaultProps(d.defaults))
  }

  /** The number and string symbols have the ids behind the bool and tristate ones. */
  function CheckGraph(decls: seq<Declaration>, extras: seq<Extras>, others: seq<Check.Deps>): Check.Graph
    requires |extras| == |decls|
  {
    seq(|decls|, i requires 0 <= i < |decls| => DepsOf(i, decls[i], extras[i])) + others
  }

  /** Needed by the imply properties of a symbol, which the search follows although its value does not. */
  function ImplyNeeds(ps: seq<OwnProp>): set<nat> {
    if ps == [] then {} else TriIdsOpt(ps[0].cond) + ImplyNeeds(ps[1..])
  }

  // ---------- conditions and what they mention ----------

  /** Number and string symbols have ids from n on. */
  predicate Placed(n: nat, e: Expr) {
    match e
    case Sym(s) => PlacedSymbol(n, s)
    case Not(a) => Placed(n, a)
    case Bin(_, l, r) => Placed(n, l) && Placed(n, r)
    case Comp(_, a, b) => PlacedSymbol(n, a) && PlacedSymbol(n, b)
  }

  predicate PlacedSymbol(n: nat, s: Symbol) { s.Config? && !s.HasTri() ==> s.id >= n }

  predicate PlacedOpt(n: nat, e: Option<Expr>) { e.Some? ==> Placed(n, e.value) }

  predicate PlacedDecl(n: nat, d: Declaration, x: Extras) {
    && PlacedOpt(n, d.revDep)
    && (forall k :: 0 <= k < |x.entries| ==> PlacedOpt(n, StoredDep(x.entries[k])))
    && (forall k :: 0 <= k < |x.implies| ==> PlacedOpt(n, x.implies[k].cond))
    && (forall k :: 0 <= k < |d.prompts| ==> PlacedOpt(n, d.prompts[k]))
    && (forall k :: 0 <= k < |d.defaults| ==> PlacedOpt(n, d.defaults[k].0) && Placed(n, d.defaults[k].1))
  }

  /** The ids below n in a set of mentioned symbols are just these. */
  ghost predicate JustBelow(n: nat, mentioned: set<nat>, ids: set<nat>) { forall j :: j in mentioned && j < n ==> j in ids }

  lemma {:induction false} TriIdsAreMentioned(e: Expr)
    ensures TriIds(e) <= Check.Mentions(e)
  {
    match e
    case Not(a) => TriIdsAreMentioned(a);
    case Bin(_, l, r) =>
      TriIdsAreMentioned(l);
      TriIdsAreMentioned(r);
    case _ =>
  }

  lemma {:induction false} MentionedAreTriIds(n: nat, e: Expr)
    requires Placed(n, e)
    ensures JustBelow(n, Check.Mentions(e), TriIds(e))
  {
    match e
    case Not(a) => MentionedAreTriIds(n, a);
    case Bin(_, l, r) =>
      MentionedAreTriIds(n, l);
      MentionedAreTriIds(n, r);
    case _ =>
  }

  lemma OptIdsAreMentioned(n: nat, e: Option<Expr>)
    ensures TriIdsOpt(e) <= Check.MentionsOpt(e)
    ensures PlacedOpt(n, e) ==> JustBelow(n, Check.MentionsOpt(e), TriIdsOpt(e))
  {
    if e.Some? {
      TriIdsAreMentioned(e.value);
      if Placed(n, e.value) { MentionedAreTriIds(n, e.value); }
    }
  }

  lemma {:induction false} TransBoolKeepsMentions(e: Expr)
    ensures Check.Mentions(TransBool(e)) == Check.Mentions(e)
  {
    match e
    case Not(a) => TransBoolKeepsMentions(a);
    case Bin(_, l, r) =>
      TransBoolKeepsMentions(l);
      TransBoolKeepsMentions(r);
    case _ =>
  }

  lemma {:induction false} TransBoolKeepsIds(e: Expr)
    ensures TriIds(TransBool(e)) == TriIds(e)
  {
    match e
    case Not(a) => TransBoolKeepsIds(a);
    case Bin(_, l, r) =>
      TransBoolKeepsIds(l);
      TransBoolKeepsIds(r);
    case _ =>
  }

  /** The P_SYMBOL property of an entry needs what the entry's dependency needs: reducing that a second
      time changes nothing, and relaxing it changes no symbol. */
  lemma SymbolCondNeeds(entry: Definition, tristate: bool)
    ensures TriIdsOpt(SymbolCond(entry, tristate)) == TriIdsOpt(StoredDep(entry))
    ensures Check.MentionsOpt(SymbolCond(entry, tristate)) == Check.MentionsOpt(StoredDep(entry))
  {
    var all := AllocAnd(entry.parentDep, TransformOpt(entry.own));
    if all.Some? {
      ReducedIsSettled(all.value);
      TransBoolKeepsIds(Reduced(all.value));
      TransBoolKeepsMentions(Reduced(all.value));
    }
  }

  /** A direct dependency needs what the entries need. */
  lemma {:induction false} AnyOfNeeds(entries: seq<Definition>)
    ensures TriIdsOpt(AnyOf(StoredDeps(entries))) == PromptNeeds(StoredDeps(entries))
  {
    if entries != [] {
      var n := |entries| - 1;
      var deps := StoredDeps(entries);
      assert deps[..n] == StoredDeps(entries[..n]) && deps == deps[..n] + [deps[n]];
      AnyOfNeeds(entries[..n]);
      PromptNeedsConcat(deps[..n], [deps[n]]);
      assert [deps[n]][1..] == [];
    }
  }

  lemma {:induction false} PromptNeedsConcat(a: seq<Option<Expr>>, b: seq<Option<Expr>>)
    ensures PromptNeeds(a + b) == PromptNeeds(a) + PromptNeeds(b)
  {
    if a == [] {
      assert a + b == b;
    } else {
      PromptNeedsConcat(a[1..], b);
      assert (a + b)[1..] == a[1..] + b;
    }
  }

  lemma {:induction false} PropsMentionConcat(a: seq<Check.Prop>, b: seq<Check.Prop>)
    ensures Check.PropsMention(a + b) == Check.PropsMention(a) + Check.PropsMention(b)
  {
    if b == [] {
      assert a + b == a;
    } else {
      PropsMentionConcat(a, b[..|b| - 1]);
      assert (a + b)[..|a + b| - 1] == a + b[..|b| - 1];
    }
  }

  lemma PropsMentionCons(p: Check.Prop, ps: seq<Check.Prop>)
    ensures Check.PropsMention([p] + ps) == Check.PropMentions(p) + Check.PropsMention(ps)
  {
    PropsMentionConcat([p], ps);
    assert [p][..0] == [];
  }

  lemma {:induction false} SymbolPropsMention(n: nat, entries: seq<Definition>, self: Symbol)
    ensures PromptNeeds(StoredDeps(entries)) <= Check.PropsMention(SymbolProps(entries, self))
    ensures (forall k :: 0 <= k < |entries| ==> PlacedOpt(n, StoredDep(entries[k]))) ==>
              JustBelow(n, Check.PropsMention(SymbolProps(entries, self)), PromptNeeds(StoredDeps(entries)))
  {
    if entries != [] {
      var (cond, rest) := (SymbolCond(entries[0], self.Type().Tristate?), entries[1..]);
      SymbolPropsMention(n, rest, self);
      SymbolCondNeeds(entries[0], self.Type().Tristate?);
      OptIdsAreMentioned(n, StoredDep(entries[0]));
      PropsMentionCons(Check.Prop(Check.Other, cond, Some(Sym(self))), SymbolProps(rest, self));
      assert StoredDeps(entries)[1..] == StoredDeps(rest);
    }
  }

  lemma {:induction false} OwnPropsMention(n: nat, ps: seq<OwnProp>)
    ensures ImplyNeeds(ps) <= Check.PropsMention(OwnProps(Check.Other, ps))
    ensures (forall k :: 0 <= k < |ps| ==> PlacedOpt(n, ps[k].cond)) ==>
              JustBelow(n, Check.PropsMention(OwnProps(Check.Other, ps)), ImplyNeeds(ps))
    ensures Check.PropsMention(OwnProps(Check.Select, ps)) == {}
  {
    if ps != [] {
      var e := Some(Sym(ps[0].target));
      OwnPropsMention(n, ps[1..]);
      OptIdsAreMentioned(n, ps[0].cond);
      PropsMentionCons(Check.Prop(Check.Other, ps[0].cond, e), OwnProps(Check.Other, ps[1..]));
      PropsMentionCons(Check.Prop(Check.Select, ps[0].cond, e), OwnProps(Check.Select, ps[1..]));
    }
  }

  lemma {:induction false} PromptPropsMention(n: nat, prompts: seq<Option<Expr>>)
    ensures PromptNeeds(prompts) <= Check.PropsMention(PromptProps(prompts))
    ensures (forall k :: 0 <= k < |prompts| ==> PlacedOpt(n, prompts[k])) ==>
              JustBelow(n, Check.PropsMention(PromptProps(prompts)), PromptNeeds(prompts))
  {
    if prompts != [] {
      PromptPropsMention(n, prompts[1..]);
      OptIdsAreMentioned(n, prompts[0]);
      PropsMentionCons(Check.Prop(Check.Other, prompts[0], None), PromptProps(prompts[1..]));
    }
  }

  lemma {:induction false} DefaultPropsMention(n: nat, defaults: seq<(Option<Expr>, Expr)>)
    ensures DefaultNeeds(defaults) <= Check.PropsMention(DefaultProps(defaults))
    ensures (forall k :: 0 <= k < |defaults| ==> PlacedOpt(n, defaults[k].0) && Placed(n, defaults[k].1)) ==>
              JustBelow(n, Check.PropsMention(DefaultProps(defaults)), DefaultNeeds(defaults))
  {
    if defaults != [] {
      DefaultPropsMention(n, defaults[1..]);
      OptIdsAreMentioned(n, defaults[0].0);
      OptIdsAreMentioned(n, Some(defaults[0].1));
      PropsMentionCons(Check.Prop(Check.Default, defaults[0].0, Some(defaults[0].1)), DefaultProps(defaults[1..]));
    }
  }

  /** What the properties of the i-th symbol mention, block by block. */
  lemma SuccIs(decls: seq<Declaration>, extras: seq<Extras>, others: seq<Check.Deps>, i: nat)
    requires |extras| == |decls| && i < |decls|
    ensures var (d, x) := (decls[i], extras[i]);
            Check.Succ(CheckGraph(decls, extras, others), i) ==
              Check.MentionsOpt(d.revDep) + Check.PropsMention(SymbolProps(x.entries, Config(i, d.ty)))
              + Check.PropsMention(OwnProps(Check.Other, x.implies)) + Check.PropsMention(OwnProps(Check.Select, x.selects))
              + Check.PropsMention(PromptProps(d.prompts)) + Check.PropsMention(DefaultProps(d.defaults))
  {
    var (d, x) := (decls[i], extras[i]);
    var (a, b, c) := (SymbolProps(x.entries, Config(i, d.ty)), OwnProps(Check.Other, x.implies), OwnProps(Check.Select, x.selects));
    var (p, q) := (PromptProps(d.prompts), DefaultProps(d.defaults));
    assert CheckGraph(decls, extras, others)[i] == DepsOf(i, d, x);
    PropsMentionConcat(a, b);
    PropsMentionConcat(a + b, c);
    PropsMentionConcat(a + b + c, p);
    PropsMentionConcat(a + b + c + p, q);
  }

  /** All that a symbol needs, except for what implies it, is among the successors of its search. */
  lemma SeenIsChecked(decls: seq<Declaration>, extras: seq<Extras>, others: seq<Check.Deps>, i: nat)
    requires DefinedBy(decls, extras) && i < |decls|
    ensures SeenNeeds(decls[i]) <= Check.Succ(CheckGraph(decls, extras, others), i)
  {
    var (d, x) := (decls[i], extras[i]);
    SuccIs(decls, extras, others, i);
    OptIdsAreMentioned(0, d.revDep);
    SymbolPropsMention(0, x.entries, Config(i, d.ty));
    AnyOfNeeds(x.entries);
    PromptPropsMention(0, d.prompts);
    DefaultPropsMention(0, d.defaults);
  }

  /** The other way round, the bool and tristate symbols among the successors are just those, and the ones
      its own imply properties need; what it selects, and on which condition, is not followed. */
  lemma CheckedExactly(decls: seq<Declaration>, extras: seq<Extras>, others: seq<Check.Deps>, i: nat, j: nat)
    requires DefinedBy(decls, extras) && i < |decls| && j < |decls| && PlacedDecl(|decls|, decls[i], extras[i])
    ensures j in Check.Succ(CheckGraph(decls, extras, others), i) <==> j in SeenNeeds(decls[i]) + ImplyNeeds(extras[i].implies)
  {
    var (n, d, x) := (|decls|, decls[i], extras[i]);
    SuccIs(decls, extras, others, i);
    OptIdsAreMentioned(n, d.revDep);
    SymbolPropsMention(n, x.entries, Config(i, d.ty));
    AnyOfNeeds(x.entries);
    OwnPropsMention(n, x.implies);
    OwnPropsMention(n, x.selects);
    PromptPropsMention(n, d.prompts);
    DefaultPropsMention(n, d.defaults);
  }

  // ---------- what is reported ----------

  function Next(p: seq<nat>, k: nat): nat
    requires k < |p|
  {
    if k + 1 < |p| then p[k + 1] else p[0]
  }

  /** Every symbol of p needs the next one, through something the check looks at. */
  ghost predicate IsSeenCycle(decls: seq<Declaration>, p: seq<nat>) {
    p != [] && (forall k :: 0 <= k < |p| ==> p[k] < |decls|)
    && forall k :: 0 <= k < |p| ==> Next(p, k) in SeenNeeds(decls[p[k]])
  }

  lemma CycleByNext(g: Graphs.Edges, p: seq<nat>)
    requires p != [] && forall k :: 0 <= k < |p| ==> p[k] < |g|
    ensures Graphs.IsCycle(g, p) <==> forall k :: 0 <= k < |p| ==> Next(p, k) in g[p[k]]
  {
    if forall k :: 0 <= k < |p| ==> Next(p, k) in g[p[k]] {
      forall k | 0 <= k < |p| - 1 ensures p[k + 1] in g[p[k]] { assert Next(p, k) == p[k + 1]; }
      assert Next(p, |p| - 1) == p[0];
    }
  }

  /** Such a cycle is always found. */
  lemma SeenCycleIsReported(decls: seq<Declaration>, extras: seq<Extras>, others: seq<Check.Deps>, p: seq<nat>)
    requires DefinedBy(decls, extras) && IsSeenCycle(decls, p)
    ensures Check.HasCycle(CheckGraph(decls, extras, others))
  {
    var g := Check.Edges(CheckGraph(decls, extras, others));
    forall k | 0 <= k < |p| ensures Next(p, k) in g[p[k]] { SeenIsChecked(decls, extras, others, p[k]); }
    CycleByNext(g, p);
  }

  /** In particular one through direct dependencies, whether the symbols have prompts or not. */
  lemma DirectCycleIsReported(decls: seq<Declaration>, extras: seq<Extras>, others: seq<Check.Deps>, p: seq<nat>)
    requires DefinedBy(decls, extras) && p != [] && forall k :: 0 <= k < |p| ==> p[k] < |decls|
    requires forall k :: 0 <= k < |p| ==> Next(p, k) in TriIdsOpt(decls[p[k]].dirDep)
    ensures Check.HasCycle(CheckGraph(decls, extras, others))
  {
    SeenCycleIsReported(decls, extras, others, p);
  }

  /** A cycle the check reports is real, as far as it stays among the bool and tristate symbols: each one
      needs the next, or has an imply property whose condition does. */
  lemma ReportedCycleIsReal(decls: seq<Declaration>, extras: seq<Extras>, others: seq<Check.Deps>, p: seq<nat>)
    requires DefinedBy(decls, extras) && Graphs.IsCycle(Check.Edges(CheckGraph(decls, extras, others)), p)
    requires forall k :: 0 <= k < |p| ==> p[k] < |decls| && PlacedDecl(|decls|, decls[p[k]], extras[p[k]])
    ensures forall k :: 0 <= k < |p| ==> Next(p, k) in SeenNeeds(decls[p[k]]) + ImplyNeeds(extras[p[k]].implies)
  {
    CycleByNext(Check.Edges(CheckGraph(decls, extras, others)), p);
    forall k | 0 <= k < |p| ensures Next(p, k) in SeenNeeds(decls[p[k]]) + ImplyNeeds(extras[p[k]].implies) {
      CheckedExactly(decls, extras, others, p[k], Next(p, k));
    }
  }

  // ---------- what silence means ----------

  /** The search has completed all symbols without a report. */
  ghost predicate CheckedSilently(decls: seq<Declaration>, extras: seq<Extras>, others: seq<Check.Deps>, order: seq<nat>) {
    && DefinedBy(decls, extras)
    && Graphs.Topological(Check.Edges(CheckGraph(decls, extras, others)), order)
    && forall i :: 0 <= i < |decls| ==> i in order
  }

  /** A cycle of needs, at least one of which is to imply a symbol and is not looked at otherwise. */
  ghost predicate IsHiddenCycle(decls: seq<Declaration>, extras: seq<Extras>, others: seq<Check.Deps>, p: seq<nat>)
    requires |extras| == |decls|
  {
    && Graphs.IsCycle(NeedEdges(decls), p)
    && exists k :: 0 <= k < |p| && Next(p, k) in HiddenNeeds(decls[p[k]])
                   && Next(p, k) !in Check.Succ(CheckGraph(decls, extras, others), p[k])
  }

  /** After a silent check, the values are well defined exactly if no cycle runs through an implying
      symbol or its condition. */
  lemma SilentCheckExactly(net: Net, extras: seq<Extras>, others: seq<Check.Deps>, order: seq<nat>)
    requires WellTypedNet(net) && CheckedSilently(net.graph.decls, extras, others, order)
    ensures Rankable(net) <==> !exists p :: IsHiddenCycle(net.graph.decls, extras, others, p)
  {
    var decls := net.graph.decls;
    RankableExactly(net);
    if p :| Graphs.IsCycle(NeedEdges(decls), p) { UnreportedIsHidden(decls, extras, others, order, p); }
  }

  lemma UnreportedIsHidden(decls: seq<Declaration>, extras: seq<Extras>, others: seq<Check.Deps>, order: seq<nat>, p: seq<nat>)
    requires CheckedSilently(decls, extras, others, order) && Graphs.IsCycle(NeedEdges(decls), p)
    ensures IsHiddenCycle(decls, extras, others, p)
  {
    if !IsHiddenCycle(decls, extras, others, p) {
      var g := Check.Edges(CheckGraph(decls, extras, others));
      CycleByNext(NeedEdges(decls), p);
      forall k | 0 <= k < |p| ensures Next(p, k) in g[p[k]] {
        assert Next(p, k) in NeedEdges(decls)[p[k]];
        SeenIsChecked(decls, extras, others, p[k]);
      }
      CycleByNext(g, p);
      Graphs.TopologicalHasNoCycle(g, order, p, Graphs.IndexOf(order, p[0]));
    }
  }

  /** If implying symbols and their conditions are among what the check looks at anyway, its completion
      order is a ranking. */
  lemma SilentCheckMeansAcyclic(net: Net, extras: seq<Extras>, others: seq<Check.Deps>, order: seq<nat>)
    requires WellTypedNet(net) && CheckedSilently(net.graph.decls, extras, others, order)
    requires forall i :: 0 <= i < |net.graph.decls| ==>
               HiddenNeeds(net.graph.decls[i]) <= Check.Succ(CheckGraph(net.graph.decls, extras, others), i)
    ensures Acyclic(WithRank(net, Graphs.RankFrom(order, |net.graph.decls|)))
  {
    var decls := net.graph.decls;
    var g := Check.Edges(CheckGraph(decls, extras, others));
    var rank := Graphs.RankFrom(order, |decls|);
    NeedEdgesAreClosed(decls);
    forall i, j | 0 <= i < |decls| && j in NeedEdges(decls)[i] ensures j < |decls| && rank[j] < rank[i] {
      SeenIsChecked(decls, extras, others, i);
      var m := Graphs.DependsOnEarlier(g, order, rank[i], j);
    }
    AcyclicIsRanks(net, rank);
  }

  // ---------- a cycle that goes unseen ----------

  /** Two symbols that imply each other, each with one entry and its imply property: they pass the
      check, and no ranking makes their values well defined. */
  lemma ImpliedCycleIsUnseen(net: Net)
    requires |net.user| == 2
    ensures var implied := (i: nat) => Declaration(Bool, [], None, None, Some(Sym(Config(i, Bool))), []);
            var (decls, extras) := ([implied(1), implied(0)], [Implying(1), Implying(0)]);
            && DefinedBy(decls, extras) && !Check.HasCycle(CheckGraph(decls, extras, []))
            && !Rankable(net.(graph := Graph(decls, [])))
  {
    var implied := (i: nat) => Declaration(Bool, [], None, None, Some(Sym(Config(i, Bool))), []);
    var (decls, extras) := ([implied(1), implied(0)], [Implying(1), Implying(0)]);
    NothingToCheck(decls, extras, [1, 0]);
    assert Graphs.IsCycle(NeedEdges(decls), [0, 1]);
    RankableExactly(net.(graph := Graph(decls, [])));
  }

  function Implying(i: nat): Extras { Extras([Definition(None, None)], [OwnProp(Config(i, Bool), None)], []) }

  lemma NothingToCheck(decls: seq<Declaration>, extras: seq<Extras>, targets: seq<nat>)
    requires |extras| == |decls| == |targets| && forall i :: 0 <= i < |decls| ==>
               decls[i].prompts == [] && decls[i].revDep == None && decls[i].defaults == [] && decls[i].dirDep == None
               && extras[i] == Implying(targets[i])
    ensures DefinedBy(decls, extras) && !Check.HasCycle(CheckGraph(decls, extras, []))
  {
    var entry := [Definition(None, None)];
    assert StoredDep(entry[0]) == None;
    assert AnyOf(StoredDeps(entry)) == None by {
      var deps := StoredDeps(entry);
      assert deps == [None] && deps[..0] == [];
    }
    forall i | 0 <= i < |decls| ensures Check.Edges(CheckGraph(decls, extras, []))[i] == {} {
      SuccIs(decls, extras, [], i);
      var (symbols, implies) := (SymbolProps(entry, Config(i, decls[i].ty)), OwnProps(Check.Other, extras[i].implies));
      SymbolPropsMention(0, entry, Config(i, decls[i].ty));
      assert symbols == [Check.Prop(Check.Other, None, Some(Sym(Config(i, decls[i].ty))))] + [];
      assert implies == [Check.Prop(Check.Other, None, Some(Sym(extras[i].implies[0].target)))] + [];
      PropsMentionCons(symbols[0], []);
      PropsMentionCons(implies[0], []);
    }
  }
}
