/** The menu tree on its sibling, child and parent pointers, and the trees those stand for. */
module MenuForest {
  import opened Common

  class Menu {
    var next: Menu?
    var parent: Menu?
    var list: Menu?
    const hasSymbol: bool
    const hasPromptText: bool

    constructor (hasSymbol: bool, hasPromptText: bool)
      ensures next == null && parent == null && list == null
    {
      next, parent, list := null, null, null;
      this.hasSymbol, this.hasPromptText := hasSymbol, hasPromptText;
    }
  }

  /** The tree that the pointers stand for. */
  datatype Tree = Node(m: Menu, kids: seq<Tree>)

  ghost function Preorder(ts: seq<Tree>): seq<Menu>
    decreases ts
  {
    if ts == [] then [] else [ts[0].m] + Preorder(ts[0].kids) + Preorder(ts[1..])
  }

  ghost function Nodes(ts: seq<Tree>): set<Menu>
    decreases ts
  {
    if ts == [] then {} else {ts[0].m} + Nodes(ts[0].kids) + Nodes(ts[1..])
  }

  /** No node occurs twice. */
  ghost predicate Distinct(ts: seq<Tree>)
    decreases ts
  {
    ts != [] ==>
      && Distinct(ts[0].kids) && Distinct(ts[1..])
      && ts[0].m !in Nodes(ts[0].kids) && ts[0].m !in Nodes(ts[1..]) && Nodes(ts[0].kids) !! Nodes(ts[1..])
  }

  /** The siblings from `first` up to (not including) `end` are the roots of ts, each with parent p,
      and below each of them the pointers stand for its subtree. */
  ghost predicate Chain(first: Menu?, ts: seq<Tree>, p: Menu?, end: Menu?)
    reads Nodes(ts)
    decreases ts
  {
    if ts == [] then first == end
    else
      && first == ts[0].m && first.parent == p
      && Chain(first.list, ts[0].kids, first, null)
      && Chain(first.next, ts[1..], p, end)
  }

  ghost function First(ts: seq<Tree>, end: Menu?): Menu? { if ts == [] then end else ts[0].m }

  lemma {:induction false} PreorderConcat(a: seq<Tree>, b: seq<Tree>)
    ensures Preorder(a + b) == Preorder(a) + Preorder(b)
  {
    if a == [] {
      assert a + b == b;
    } else {
      PreorderConcat(a[1..], b);
      assert (a + b)[1..] == a[1..] + b;
      Associative([a[0].m] + Preorder(a[0].kids), Preorder(a[1..]), Preorder(b));
    }
  }

  lemma PreorderCons(t: Tree, rest: seq<Tree>)
    ensures Preorder([t] + rest) == [t.m] + (Preorder(t.kids) + Preorder(rest))
  {
    assert ([t] + rest)[1..] == rest;
    Associative([t.m], Preorder(t.kids), Preorder(rest));
  }

  lemma NoDupConcat(s: seq<Menu>, t: seq<Menu>)
    ensures NoDup(s + t) <==> NoDup(s) && NoDup(t) && Elements(s) !! Elements(t)
  {
    if NoDup(s + t) {
      forall i, j | 0 <= i < j < |s| ensures s[i] != s[j] { assert (s + t)[i] == s[i] && (s + t)[j] == s[j]; }
      forall i, j | 0 <= i < j < |t| ensures t[i] != t[j] {
        assert (s + t)[|s| + i] == t[i] && (s + t)[|s| + j] == t[j];
      }
      forall m | m in Elements(s) ensures m !in Elements(t) {
        var i :| 0 <= i < |s| && s[i] == m;
        forall j | 0 <= j < |t| ensures t[j] != m { assert (s + t)[i] == s[i] && (s + t)[|s| + j] == t[j]; }
      }
    } else {
      var i, j :| 0 <= i < j < |s + t| && (s + t)[i] == (s + t)[j];
      if i < |s| <= j { assert s[i] in Elements(s) && t[j - |s|] in Elements(t); }
    }
  }

  lemma {:induction false} NodesArePreorder(ts: seq<Tree>)
    ensures Nodes(ts) == Elements(Preorder(ts))
    decreases ts
  {
    if ts != [] {
      NodesArePreorder(ts[0].kids);
      NodesArePreorder(ts[1..]);
      ElementsConcat([ts[0].m] + Preorder(ts[0].kids), Preorder(ts[1..]));
      ElementsConcat([ts[0].m], Preorder(ts[0].kids));
      assert Elements([ts[0].m]) == {ts[0].m};
    }
  }

  lemma {:induction false} DistinctIsNoDup(ts: seq<Tree>)
    ensures Distinct(ts) <==> NoDup(Preorder(ts))
    decreases ts
  {
    if ts != [] {
      var (h, k, r) := ([ts[0].m], Preorder(ts[0].kids), Preorder(ts[1..]));
      DistinctIsNoDup(ts[0].kids);
      DistinctIsNoDup(ts[1..]);
      NodesArePreorder(ts[0].kids);
      NodesArePreorder(ts[1..]);
      NoDupConcat(h + k, r);
      NoDupConcat(h, k);
      ElementsConcat(h, k);
      assert Elements(h) == {ts[0].m};
      assert NoDup(h);
    }
  }

  lemma SamePreorder(a: seq<Tree>, b: seq<Tree>)
    requires Preorder(a) == Preorder(b)
    ensures Nodes(a) == Nodes(b) && (Distinct(a) <==> Distinct(b))
  {
    NodesArePreorder(a);
    NodesArePreorder(b);
    DistinctIsNoDup(a);
    DistinctIsNoDup(b);
  }

  lemma {:induction false} DistinctParts(a: seq<Tree>, b: seq<Tree>)
    ensures Nodes(a + b) == Nodes(a) + Nodes(b)
    ensures Distinct(a + b) <==> Distinct(a) && Distinct(b) && Nodes(a) !! Nodes(b)
  {
    if a == [] {
      assert a + b == b;
    } else {
      DistinctParts(a[1..], b);
      assert (a + b)[1..] == a[1..] + b;
    }
  }

  lemma DistinctHead(t: Tree, rest: seq<Tree>)
    requires Distinct([t] + rest)
    ensures Distinct(t.kids) && Distinct(rest)
    ensures t.m !in Nodes(t.kids) && t.m !in Nodes(rest) && Nodes(t.kids) !! Nodes(rest)
    ensures Nodes([t] + rest) == {t.m} + Nodes(t.kids) + Nodes(rest)
  {
    assert ([t] + rest)[1..] == rest;
  }

  lemma {:induction false} ChainConcat(first: Menu?, a: seq<Tree>, b: seq<Tree>, p: Menu?, end: Menu?)
    ensures Chain(first, a + b, p, end) <==> Chain(first, a, p, First(b, end)) && Chain(First(b, end), b, p, end)
  {
    if a == [] {
      assert a + b == b;
    } else {
      assert (a + b)[1..] == a[1..] + b;
      if a[0].m == first { ChainConcat(first.next, a[1..], b, p, end); }
    }
  }

  // ---------- working through a list of siblings ----------

  /** What is known about the siblings still to do when the whole list keeps its preorder. */
  lemma Remaining(done: seq<Tree>, todo: seq<Tree>, all: seq<Tree>)
    requires Distinct(all) && Preorder(done + todo) == Preorder(all)
    ensures Distinct(done) && Distinct(todo) && Nodes(done) !! Nodes(todo)
    ensures Nodes(todo) <= Nodes(all) && Nodes(done) <= Nodes(all)
    ensures Preorder(done) + Preorder(todo) == Preorder(all)
  {
    SamePreorder(done + todo, all);
    DistinctParts(done, todo);
    PreorderConcat(done, todo);
  }

  /** Replacing the siblings to do by others of the same preorder and moving past the first. */
  lemma Progress(done: seq<Tree>, todo: seq<Tree>, all: seq<Tree>, t: Tree, rest: seq<Tree>)
    requires Preorder(done) + Preorder(todo) == Preorder(all) && Preorder([t] + rest) == Preorder(todo)
    ensures Preorder(done + [t] + rest) == Preorder(all) && |Preorder(rest)| < |Preorder(todo)|
  {
    Associative(done, [t], rest);
    PreorderConcat(done, [t] + rest);
    FewerRemain(t, rest);
  }

  lemma FewerRemain(t: Tree, rest: seq<Tree>)
    ensures |Preorder(rest)| < |Preorder([t] + rest)|
  {
    PreorderCons(t, rest);
  }

  /** The links when the border between finished and unfinished siblings moves past one of them. */
  lemma Advance(first: Menu?, done: seq<Tree>, t: Tree, rest: seq<Tree>, p: Menu?)
    requires Chain(first, done, p, t.m) && Chain(t.m, [t] + rest, p, null)
    ensures Chain(first, done + [t], p, t.m.next) && Chain(t.m.next, rest, p, null)
    ensures t.m.next == First(rest, null)
  {
    ChainUncons(t.m, t, rest, p, null);
    ChainOfOne(t, p, t.m.next);
    ChainConcat(first, done, [t], p, t.m.next);
  }

  /** The siblings around position j of a list: what lies before, the sibling, and what follows. */
  lemma ChainAt(first: Menu?, ts: seq<Tree>, j: nat, p: Menu?)
    requires j < |ts| && Distinct(ts)
    ensures ts[..j] + ts[j..] == ts && ts[j..] == [ts[j]] + ts[j + 1..] && ts[..j + 1] == ts[..j] + [ts[j]]
    ensures Distinct(ts[j..]) && Nodes(ts[..j]) !! Nodes(ts[j..]) && Nodes(ts[j..]) <= Nodes(ts)
    ensures var t := ts[j]; t.m in Nodes(ts[j..]) && t.m !in Nodes(t.kids) && t.m !in Nodes(ts[j + 1..])
    ensures var t := ts[j]; Nodes(t.kids) !! Nodes(ts[j + 1..]) && Nodes(t.kids) + Nodes(ts[j + 1..]) <= Nodes(ts[j..])
    ensures Chain(first, ts, p, null) <==> Chain(first, ts[..j], p, ts[j].m) && Chain(ts[j].m, ts[j..], p, null)
  {
    assert ts[..j] + ts[j..] == ts;
    assert ts[j..] == [ts[j]] + ts[j + 1..];
    DistinctParts(ts[..j], ts[j..]);
    DistinctHead(ts[j], ts[j + 1..]);
    ChainConcat(first, ts[..j], ts[j..], p, null);
  }

  lemma ChainOfOne(t: Tree, p: Menu?, end: Menu?)
    ensures Chain(t.m, [t], p, end) <==> t.m.parent == p && t.m.next == end && Chain(t.m.list, t.kids, t.m, null)
  {
    assert [t][1..] == [];
    if t.m.parent == p { assert Chain(t.m.next, [], p, end) <==> t.m.next == end; }
  }

  lemma ChainUncons(first: Menu?, t: Tree, rest: seq<Tree>, p: Menu?, end: Menu?)
    ensures Chain(first, [t] + rest, p, end) <==>
              && first == t.m && t.m.parent == p && Chain(t.m.list, t.kids, t.m, null) && Chain(t.m.next, rest, p, end)
  {
    assert ([t] + rest)[1..] == rest;
  }

  lemma RootIsNode(ts: seq<Tree>, i: nat)
    requires i < |ts|
    ensures ts[i].m in Nodes(ts)
  {
    assert ts == ts[..i] + ts[i..];
    DistinctParts(ts[..i], ts[i..]);
  }

  lemma {:induction false} LastLink(first: Menu?, ts: seq<Tree>, p: Menu?, end: Menu?)
    requires ts != [] && Chain(first, ts, p, end)
    ensures ts[|ts| - 1].m.next == end
  {
    if |ts| > 1 { LastLink(first.next, ts[1..], p, end); }
  }

  lemma SplicedPreorder(t: Tree, rest: seq<Tree>)
    ensures Preorder([Node(t.m, [])] + (t.kids + rest)) == Preorder([t] + rest)
  {
    PreorderCons(Node(t.m, []), t.kids + rest);
    PreorderCons(t, rest);
    PreorderConcat(t.kids, rest);
    assert [] + Preorder(t.kids + rest) == Preorder(t.kids + rest);
  }
}
