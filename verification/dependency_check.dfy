/** The depth-first search for recursive dependencies, over symbols outside choices. */
module DependencyCheck {
  import opened Common
  import opened KconfigSyntax
  import Graphs

  datatype PropKind = Choice | Select | Default | Other

  datatype Prop = Prop(kind: PropKind, visible: Option<Expr>, expr: Option<Expr>)

  /** What the search looks at: the selectors of a symbol, and its properties. */
  datatype Deps = Deps(revDep: Option<Expr>, props: seq<Prop>)

  type Graph = seq<Deps>

  // ---------- the dependency graph ----------

  function Node(s: Symbol): set<nat> { if s.Config? then {s.id} else {} }

  function Mentions(e: Expr): set<nat> {
    match e
    case Sym(s) => Node(s)
    case Not(a) => Mentions(a)
    case Bin(_, l, r) => Mentions(l) + Mentions(r)
    case Comp(_, a, b) => Node(a) + Node(b)
  }

  function MentionsOpt(e: Option<Expr>): set<nat> { if e.None? then {} else Mentions(e.value) }

  /** A property contributes its condition and, for a default, its value. */
  function PropMentions(p: Prop): set<nat> {
    if p.kind.Choice? || p.kind.Select? then {}
    else MentionsOpt(p.visible) + (if p.kind.Default? then MentionsOpt(p.expr) else {})
  }

  function PropsMention(ps: seq<Prop>): set<nat> {
    if ps == [] then {} else PropsMention(ps[..|ps| - 1]) + PropMentions(ps[|ps| - 1])
  }

  function Succ(g: Graph, i: nat): set<nat>
    requires i < |g|
  {
    MentionsOpt(g[i].revDep) + PropsMention(g[i].props)
  }

  /** Which symbols each symbol depends on. */
  function Edges(g: Graph): Graphs.Edges { seq(|g|, i requires 0 <= i < |g| => Succ(g, i)) }

  ghost predicate HasCycle(g: Graph) { Graphs.HasCycle(Edges(g)) }

  // ---------- the search ----------

  /** A stack of different symbols, each depending on the one above it. */
  predicate IsStack(g: Graph, stack: seq<nat>) {
    stack != [] ==>
      var (below, top) := (stack[..|stack| - 1], stack[|stack| - 1]);
      && IsStack(g, below) && top < |g| && top !in below
      && (below != [] && below[|below| - 1] < |g| ==> top in Succ(g, below[|below| - 1]))
  }

  lemma {:induction false} StackIsWalk(g: Graph, stack: seq<nat>)
    requires IsStack(g, stack)
    ensures Graphs.IsWalk(Edges(g), stack)
  {
    if stack != [] { StackIsWalk(g, stack[..|stack| - 1]); }
  }

  /** A symbol of the stack that the top depends on closes a cycle. */
  lemma MetAgainIsCycle(g: Graph, stack: seq<nat>, s: nat)
    requires IsStack(g, stack) && s in stack && s in Succ(g, stack[|stack| - 1])
    ensures HasCycle(g)
  {
    StackIsWalk(g, stack);
    var k :| 0 <= k < |stack| && stack[k] == s;
    assert Graphs.IsCycle(Edges(g), stack[k..]);
  }

  datatype Flags = Flags(check: bool, checked: bool)

  class Checker {
    const g: Graph
    const flags: array<Flags>
    var stack: seq<nat>      // the dep_stack
    var reports: nat         // calls of sym_check_print_recursive
    ghost var order: seq<nat>  // symbols in the order their checks were completed

    constructor (g: Graph)
      requires Graphs.Closed(Edges(g))
      ensures this.g == g && fresh(flags) && Inv() && stack == [] && reports == 0
      ensures forall i :: 0 <= i < |g| ==> flags[i] == Flags(false, false)
    {
      this.g := g;
      flags := new Flags[|g|](i => Flags(false, false));
      stack, reports, order := [], 0, [];
    }

    /** A symbol is marked CHECK exactly while it is on the stack, the stack is a walk, every report
        was about a real cycle, and until the first report the completed symbols are in
        topological order. */
    ghost predicate Inv()
      reads this, flags
    {
      && Graphs.Closed(Edges(g)) && flags.Length == |g|
      && IsStack(g, stack)
      && (forall i :: 0 <= i < |g| ==> (flags[i].check <==> i in stack))
      && (forall i :: 0 <= i < |g| && flags[i].check ==> flags[i].checked)
      && (reports > 0 ==> HasCycle(g))
      && (reports == 0 ==>
            && Graphs.Topological(Edges(g), order)
            && forall i :: 0 <= i < |g| ==> (i in order <==> flags[i].checked && !flags[i].check))
    }

    ghost function Unchecked(): set<nat>
      reads this, flags
    {
      set i | 0 <= i < flags.Length && !flags[i].checked
    }

    /** What every step of the search keeps: the stack is as before, nothing is unmarked, and
        if nothing was reported then the symbols in `done` are completed. */
    twostate predicate Progress(done: set<nat>, new r: Option<nat>)
      reads this, flags
    {
      && Inv() && stack == old(stack) && reports >= old(reports) && Unchecked() <= old(Unchecked())
      && (forall i :: 0 <= i < flags.Length && old(flags[i]).checked ==> flags[i].checked)
      && (r.Some? ==> r.value in stack && reports > 0)
      && (reports == 0 ==> r.None? && (forall i :: i in done ==> i in order) && (forall i :: i in old(order) ==> i in order))
    }

    /** sym_check_print_recursive: the part of the stack from s upwards is a cycle. */
    method Report(s: nat)
      requires Inv() && s in stack && s in Succ(g, stack[|stack| - 1])
      modifies this`reports
      ensures Inv() && reports == old(reports) + 1
    {
      MetAgainIsCycle(g, stack, s);
      reports := reports + 1;
    }

    /** dep_stack_insert, with the marks set */
    method Enter(s: nat)
      requires Inv() && s < |g| && !flags[s].checked
      requires stack != [] ==> s in Succ(g, stack[|stack| - 1])
      modifies this`stack, flags
      ensures Inv() && stack == old(stack) + [s]
      ensures forall i :: 0 <= i < |g| ==> flags[i] == if i == s then Flags(true, true) else old(flags[i])
    {
      flags[s] := Flags(true, true);
      assert (stack + [s])[..|stack|] == stack;
      stack := stack + [s];
    }

    /** dep_stack_remove, with the mark cleared */
    method Leave(s: nat)
      requires Inv() && stack != [] && stack[|stack| - 1] == s
      requires reports == 0 ==> forall i :: i in Succ(g, s) ==> i in order
      modifies this`stack, this`order, flags
      ensures Inv() && stack == old(stack)[..|old(stack)| - 1] && order == old(order) + [s]
      ensures forall i :: 0 <= i < |g| ==> flags[i] == if i == s then old(flags[i]).(check := false) else old(flags[i])
    {
      assert s in stack;
      stack := stack[..|stack| - 1];
      flags[s] := flags[s].(check := false);
      assert (order + [s])[..|order|] == order;
      order := order + [s];
    }

    /** sym_check_deps */
    method CheckDeps(s: nat) returns (r: Option<nat>)
      requires Inv() && s < |g|
      requires stack != [] ==> s in Succ(g, stack[|stack| - 1])
      modifies this, flags
      ensures Progress({s}, r) && flags[s].checked
      decreases Unchecked(), 0
    {
      if flags[s].check {
        Report(s);
        return Some(s);
      }
      if flags[s].checked { return None; }

      Enter(s);
      assert s in old(Unchecked()) && s !in Unchecked();
      r := CheckSymDeps(s);
      Leave(s);
      if r == Some(s) { r := None; }
    }

    method CheckSymbol(s: Symbol) returns (r: Option<nat>)
      requires Inv() && stack != [] && Node(s) <= Succ(g, stack[|stack| - 1])
      modifies this, flags
      ensures Progress(Node(s), r)
      decreases Unchecked(), 1
    {
      r := None;
      if s.Config? {
        assert s.id in Node(s) && s.id in Edges(g)[stack[|stack| - 1]];
        r := CheckDeps(s.id);
      }
    }

    /** sym_check_expr_deps */
    method CheckExprDeps(e: Expr) returns (r: Option<nat>)
      requires Inv() && stack != [] && Mentions(e) <= Succ(g, stack[|stack| - 1])
      modifies this, flags
      ensures Progress(Mentions(e), r)
      decreases Unchecked(), 2, e
    {
      match e {
        case Sym(s) => r := CheckSymbol(s);
        case Not(a) => r := CheckExprDeps(a);
        case Bin(_, a, b) =>
          r := CheckExprDeps(a);
          if r.None? { r := CheckExprDeps(b); }
        case Comp(_, a, b) =>
          r := CheckSymbol(a);
          if r.None? { r := CheckSymbol(b); }
      }
    }

    method CheckOptDeps(e: Option<Expr>) returns (r: Option<nat>)
      requires Inv() && stack != [] && MentionsOpt(e) <= Succ(g, stack[|stack| - 1])
      modifies this, flags
      ensures Progress(MentionsOpt(e), r)
      decreases Unchecked(), 3
    {
      r := None;
      if e.Some? { r := CheckExprDeps(e.value); }
    }

    /** One round of the property loop of sym_check_sym_deps */
    method CheckProp(p: Prop) returns (r: Option<nat>)
      requires Inv() && stack != [] && PropMentions(p) <= Succ(g, stack[|stack| - 1])
      modifies this, flags
      ensures Progress(PropMentions(p), r)
      decreases Unchecked(), 4
    {
      r := None;
      if p.kind.Choice? || p.kind.Select? { return; }
      r := CheckOptDeps(p.visible);
      if r.Some? || !p.kind.Default? { return; }
      r := CheckOptDeps(p.expr);
    }

    /** sym_check_sym_deps */
    method CheckSymDeps(s: nat) returns (r: Option<nat>)
      requires Inv() && stack != [] && s == stack[|stack| - 1]
      modifies this, flags
      ensures Progress(Succ(g, s), r)
      decreases Unchecked(), 5
    {
      r := CheckOptDeps(g[s].revDep);
      if r.Some? { return; }
      var props := g[s].props;
      for i := 0 to |props|
        invariant r.None? && Progress(MentionsOpt(g[s].revDep) + PropsMention(props[..i]), r)
      {
        assert props[..i + 1][..i] == props[..i];
        PrefixMentions(props, i + 1);
        r := CheckProp(props[i]);
        if r.Some? { return; }
      }
      assert props[..|props|] == props;
    }

    /** The sweep over all symbols after parsing. It prints a report if and only if there is a
        cycle; no call of the sweep hands a symbol back, so none is counted as an error; and
        without a report all symbols are left in topological order. */
    method Sweep() returns (errors: int)
      requires Inv() && stack == [] && reports == 0
      modifies this, flags
      ensures Inv() && (reports > 0 <==> HasCycle(g))
      ensures errors == 0
      ensures reports == 0 ==> Graphs.Topological(Edges(g), order) && forall i :: 0 <= i < |g| ==> i in order
    {
      errors := 0;
      for i := 0 to |g|
        invariant Inv() && stack == [] && errors == 0
        invariant forall j :: 0 <= j < i ==> flags[j].checked
      {
        var r := CheckDeps(i);
        if r.Some? { errors := errors + 1; }
      }
      if reports == 0 && HasCycle(g) {
        var p :| Graphs.IsCycle(Edges(g), p);
        assert p[0] in order;
        var at :| 0 <= at < |order| && order[at] == p[0];
        Graphs.TopologicalHasNoCycle(Edges(g), order, p, at);
      }
    }
  }

  lemma {:induction false} PrefixMentions(ps: seq<Prop>, i: nat)
    requires 0 < i <= |ps|
    ensures PropMentions(ps[i - 1]) <= PropsMention(ps)
    decreases |ps|
  {
    if i < |ps| {
      PrefixMentions(ps[..|ps| - 1], i);
    }
  }
}
