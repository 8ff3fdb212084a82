/** Which entries end up as children of which, at every depth of the menu tree. */
module MenuPairs {
  import opened MenuForest
  import opened MenuShape

  /** n is a child of a, somewhere in the forest. */
  ghost predicate HasChild(ts: seq<Tree>, a: Menu, n: Menu)
    decreases ts
  {
    ts != [] && (
      || (ts[0].m == a && exists j :: 0 <= j < |ts[0].kids| && ts[0].kids[j].m == n)
      || HasChild(ts[0].kids, a, n)
      || HasChild(ts[1..], a, n))
  }

  /** Somewhere in the forest is the subtree u, with these following siblings. */
  ghost predicate HasPlace(ts: seq<Tree>, u: Tree, siblings: seq<Tree>)
    decreases ts
  {
    ts != [] && (
      || (ts[0] == u && siblings == ts[1..])
      || HasPlace(ts[0].kids, u, siblings)
      || HasPlace(ts[1..], u, siblings))
  }

  lemma {:induction false} ParentIsNode(ts: seq<Tree>, a: Menu, n: Menu)
    ensures HasChild(ts, a, n) ==> a in Nodes(ts)
    decreases ts
  {
    if ts != [] {
      ParentIsNode(ts[0].kids, a, n);
      ParentIsNode(ts[1..], a, n);
    }
  }

  lemma {:induction false} PlaceIsNode(ts: seq<Tree>, u: Tree, siblings: seq<Tree>)
    ensures HasPlace(ts, u, siblings) ==> u.m in Nodes(ts)
    decreases ts
  {
    if ts != [] {
      PlaceIsNode(ts[0].kids, u, siblings);
      PlaceIsNode(ts[1..], u, siblings);
    }
  }

  lemma {:induction false} HasChildConcat(ts: seq<Tree>, us: seq<Tree>, a: Menu, n: Menu)
    ensures HasChild(ts + us, a, n) <==> HasChild(ts, a, n) || HasChild(us, a, n)
  {
    if ts == [] {
      assert ts + us == us;
    } else {
      HasChildConcat(ts[1..], us, a, n);
      assert (ts + us)[0] == ts[0] && (ts + us)[1..] == ts[1..] + us;
    }
  }

  lemma HasChildOfOne(t: Tree, a: Menu, n: Menu)
    ensures HasChild([t], a, n) <==>
              (t.m == a && exists j :: 0 <= j < |t.kids| && t.kids[j].m == n) || HasChild(t.kids, a, n)
  {
    assert [t][1..] == [];
  }

  lemma HasPlaceCons(t: Tree, rest: seq<Tree>, u: Tree, siblings: seq<Tree>)
    ensures HasPlace([t] + rest, u, siblings) <==>
              (t == u && siblings == rest) || HasPlace(t.kids, u, siblings) || HasPlace(rest, u, siblings)
  {
    assert ([t] + rest)[0] == t && ([t] + rest)[1..] == rest;
  }

  // ---------- moving grandchildren up ----------

  lemma FlatListStep(t: Tree, rest: seq<Tree>)
    ensures FlatList([t] + rest) ==
            if t.kids != [] && !t.m.hasPromptText then [Node(t.m, [])] + FlatList(t.kids + rest) else [t] + FlatList(rest)
  {
    assert ([t] + rest)[0] == t && ([t] + rest)[1..] == rest;
  }

  /** Every root stays a root. */
  lemma {:induction false} FlatListKeepsRoots(ts: seq<Tree>, i: nat) returns (j: nat)
    requires i < |ts|
    ensures j < |FlatList(ts)| && FlatList(ts)[j].m == ts[i].m
    decreases |Preorder(ts)|
  {
    var t, rest := ts[0], ts[1..];
    assert ts == [t] + rest;
    FlatListStep(t, rest);
    if i == 0 { return 0; }
    FewerRemain(t, rest);
    var moved := t.kids != [] && !t.m.hasPromptText;
    if moved {
      SplicedPreorder(t, rest);
      FewerRemain(Node(t.m, []), t.kids + rest);
    }
    var (later, at) := if moved then (t.kids + rest, |t.kids| + i - 1) else (rest, i - 1);
    assert later[at] == rest[i - 1];
    j := FlatListKeepsRoots(later, at);
    j := j + 1;
  }

  /** Just the children of entries without a prompt text lose their parent, among the siblings; no entry
      of the forest gets a new child. */
  lemma {:induction false} FlatListPairs(ts: seq<Tree>, a: Menu, n: Menu)
    ensures HasChild(FlatList(ts), a, n) ==> HasChild(ts, a, n)
    ensures a.hasPromptText && HasChild(ts, a, n) ==> HasChild(FlatList(ts), a, n)
    decreases |Preorder(ts)|
  {
    if ts != [] {
      var t, rest := ts[0], ts[1..];
      assert ts == [t] + rest;
      FlatListStep(t, rest);
      FewerRemain(t, rest);
      HasChildConcat([t], rest, a, n);
      HasChildOfOne(t, a, n);
      if t.kids != [] && !t.m.hasPromptText {
        SplicedPreorder(t, rest);
        FewerRemain(Node(t.m, []), t.kids + rest);
        FlatListPairs(t.kids + rest, a, n);
        HasChildConcat(t.kids, rest, a, n);
        HasChildConcat([Node(t.m, [])], FlatList(t.kids + rest), a, n);
        HasChildOfOne(Node(t.m, []), a, n);
      } else {
        FlatListPairs(rest, a, n);
        HasChildConcat([t], FlatList(rest), a, n);
      }
    }
  }

  // ---------- the children an entry gets ----------

  /** x is a child of u once menu_finalize has been called for u, before these siblings. */
  ghost predicate Gets(test: Tests, u: Tree, siblings: seq<Tree>, x: Menu) {
    var kids := Final(test, u, siblings).0.kids;
    exists j :: 0 <= j < |kids| && kids[j].m == x
  }

  lemma {:induction false} FinalGives(test: Tests, t: Tree, rest: seq<Tree>, u: Tree, siblings: seq<Tree>, x: Menu)
    requires Distinct([t] + rest) && u.m.hasPromptText && HasPlace([t] + rest, u, siblings)
    ensures var (t', rest') := Final(test, t, rest);
            if u.m in Nodes(rest') then HasPlace(rest', u, siblings) else HasChild([t'], u.m, x) <==> Gets(test, u, siblings, x)
    decreases |Preorder([t] + rest)|, 0
  {
    PreorderCons(t, rest);
    HasPlaceCons(t, rest, u, siblings);
    DistinctHead(t, rest);
    var (t', rest') := Final(test, t, rest);
    HasChildOfOne(t', u.m, x);
    PlaceIsNode(t.kids, u, siblings);
    PlaceIsNode(rest, u, siblings);
    SamePreorder([t'] + rest', [t] + rest);
    DistinctHead(t', rest');
    ParentIsNode(t'.kids, u.m, x);
    if t == u && siblings == rest {
    } else if t.kids != [] {
      if HasPlace(t.kids, u, siblings) {
        FinalListGives(test, t.kids, u, siblings, x);
        FlatListPairs(FinalList(test, t.kids), u.m, x);
      }
    } else if t.m.hasSymbol {
      AdoptedGives(test, t.m, rest, u, siblings, x);
      FlatListPairs(Adopted(test, t.m, rest).0, u.m, x);
    }
  }

  lemma {:induction false} FinalListGives(test: Tests, ts: seq<Tree>, u: Tree, siblings: seq<Tree>, x: Menu)
    requires Distinct(ts) && u.m.hasPromptText && HasPlace(ts, u, siblings)
    ensures HasChild(FinalList(test, ts), u.m, x) <==> Gets(test, u, siblings, x)
    decreases |Preorder(ts)|, 1
  {
    assert ts == [ts[0]] + ts[1..];
    FinalGives(test, ts[0], ts[1..], u, siblings, x);
    var (t, rest) := Final(test, ts[0], ts[1..]);
    FewerRemain(t, rest);
    SamePreorder([t] + rest, ts);
    DistinctParts([t], rest);
    HasChildConcat([t], FinalList(test, rest), u.m, x);
    if u.m in Nodes(rest) {
      FinalListGives(test, rest, u, siblings, x);
      ParentIsNode([t], u.m, x);
    } else {
      SamePreorder(FinalList(test, rest), rest);
      ParentIsNode(FinalList(test, rest), u.m, x);
    }
  }

  lemma {:induction false} AdoptedGives(test: Tests, m: Menu, ts: seq<Tree>, u: Tree, siblings: seq<Tree>, x: Menu)
    requires Distinct(ts) && u.m.hasPromptText && HasPlace(ts, u, siblings)
    ensures var (kids, others) := Adopted(test, m, ts);
            if u.m in Nodes(others) then HasPlace(others, u, siblings) else HasChild(kids, u.m, x) <==> Gets(test, u, siblings, x)
    decreases |Preorder(ts)|, 1
  {
    PlaceIsNode(ts, u, siblings);
    if test(m, ts[0].m) {
      assert ts == [ts[0]] + ts[1..];
      FinalGives(test, ts[0], ts[1..], u, siblings, x);
      var (t, rest) := Final(test, ts[0], ts[1..]);
      FewerRemain(t, rest);
      SamePreorder([t] + rest, ts);
      DistinctParts([t], rest);
      var (more, others) := Adopted(test, m, rest);
      HasChildConcat([t], more, u.m, x);
      PreorderConcat(more, others);
      SamePreorder(more + others, rest);
      DistinctParts(more, others);
      ParentIsNode([t], u.m, x);
      ParentIsNode(more, u.m, x);
      if u.m in Nodes(rest) { AdoptedGives(test, m, rest, u, siblings, x); }
    }
  }

  /** Calling menu_finalize for an entry with children does at every depth below it, for every entry with
      a prompt text, what a call for that entry alone would do. */
  lemma NestedExactly(test: Tests, t: Tree, rest: seq<Tree>, u: Tree, siblings: seq<Tree>, x: Menu)
    requires Distinct([t] + rest) && u.m.hasPromptText && HasPlace(t.kids, u, siblings)
    ensures HasChild([Final(test, t, rest).0], u.m, x) <==> Gets(test, u, siblings, x)
  {
    HasPlaceCons(t, rest, u, siblings);
    DistinctHead(t, rest);
    PlaceIsNode(t.kids, u, siblings);
    FinalGives(test, t, rest, u, siblings, x);
  }

  lemma GetsNextExactly(test: Tests, u: Tree, siblings: seq<Tree>)
    requires u.m.hasSymbol && u.kids == [] && siblings != []
    ensures Gets(test, u, siblings, siblings[0].m) <==> test(u.m, siblings[0].m)
    ensures !test(u.m, siblings[0].m) ==> Final(test, u, siblings).0.kids == []
  {
    var taken := Adopted(test, u.m, siblings).0;
    if test(u.m, siblings[0].m) {
      assert siblings == [siblings[0]] + siblings[1..];
      var j := FlatListKeepsRoots(taken, 0);
    } else {
      assert FlatList(taken) == [];
    }
  }

  /** So if an entry has a symbol and no children, its next sibling becomes a child exactly if the test
      passes, and it gets no child at all if the test fails. */
  lemma NextIsNestedExactly(test: Tests, t: Tree, rest: seq<Tree>, u: Tree, siblings: seq<Tree>)
    requires Distinct([t] + rest) && u.m.hasPromptText && HasPlace(t.kids, u, siblings)
    requires u.m.hasSymbol && u.kids == [] && siblings != []
    ensures HasChild([Final(test, t, rest).0], u.m, siblings[0].m) <==> test(u.m, siblings[0].m)
    ensures !test(u.m, siblings[0].m) ==> forall x :: !HasChild([Final(test, t, rest).0], u.m, x)
  {
    GetsNextExactly(test, u, siblings);
    NestedExactly(test, t, rest, u, siblings, siblings[0].m);
    if !test(u.m, siblings[0].m) {
      forall x ensures !HasChild([Final(test, t, rest).0], u.m, x) { NestedExactly(test, t, rest, u, siblings, x); }
    }
  }

  // ---------- on the pointers ----------

  lemma {:induction false} ChildHasParent(first: Menu?, ts: seq<Tree>, p: Menu?, end: Menu?, a: Menu, n: Menu)
    requires Chain(first, ts, p, end) && HasChild(ts, a, n)
    ensures n.parent == a
    decreases ts
  {
    if j :| 0 <= j < |ts[0].kids| && ts[0].m == a && ts[0].kids[j].m == n {
      ParentOfAll(first.list, ts[0].kids, first, null, j);
    } else if HasChild(ts[0].kids, a, n) {
      ChildHasParent(first.list, ts[0].kids, first, null, a, n);
    } else {
      ChildHasParent(first.next, ts[1..], p, end, a, n);
    }
  }

  lemma {:induction false} ParentOfAll(first: Menu?, ts: seq<Tree>, p: Menu?, end: Menu?, j: nat)
    requires Chain(first, ts, p, end) && j < |ts|
    ensures ts[j].m.parent == p
  {
    if j > 0 { ParentOfAll(first.next, ts[1..], p, end, j - 1); }
  }

  lemma {:induction false} ParentHasChild(first: Menu?, ts: seq<Tree>, p: Menu?, end: Menu?, n: Menu)
    requires Chain(first, ts, p, end) && n in Nodes(ts)
    ensures if exists i :: 0 <= i < |ts| && ts[i].m == n then n.parent == p
            else n.parent != null && HasChild(ts, n.parent, n)
    decreases ts
  {
    if i :| 0 <= i < |ts| && ts[i].m == n {
      ParentOfAll(first, ts, p, end, i);
    } else if n in Nodes(ts[0].kids) {
      ParentHasChild(first.list, ts[0].kids, first, null, n);
    } else {
      assert ts[0].m != n;
      assert forall i :: 0 <= i < |ts| - 1 ==> ts[1..][i] == ts[i + 1];
      ParentHasChild(first.next, ts[1..], p, end, n);
    }
  }
}
