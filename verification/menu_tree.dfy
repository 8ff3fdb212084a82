/** menu_finalize on the pointers of the menu tree. */
module MenuTree {
  import opened Common
  import opened MenuForest
  import opened MenuShape

  /** One step of the inner loop of the flattening. */
  method ReparentOne(t: Menu, ghost before: seq<Tree>, ghost tree: Tree, ghost after: seq<Tree>,
                     ghost first: Menu?, ghost old_: Menu?, parent: Menu)
    requires t == tree.m && Distinct(before + ([tree] + after))
    requires Chain(first, before, parent, t) && Chain(t, [tree] + after, old_, null)
    modifies t`parent
    ensures t.parent == parent
    ensures Chain(first, before + [tree], parent, t.next) && Chain(t.next, after, old_, null)
  {
    DistinctParts(before, [tree] + after);
    DistinctHead(tree, after);
    ChainUncons(t, tree, after, old_, null);
    t.parent := parent;
    assert Chain(first, before, parent, t);
    assert Chain(t.list, tree.kids, t, null);
    ChainOfOne(tree, parent, t.next);
    ChainConcat(first, before, [tree], parent, t.next);
  }

  /** The inner loop of the flattening: the children of an entry get the entry's parent; `last`
      is the last of them. */
  method Reparent(first: Menu, ghost ks: seq<Tree>, ghost old_: Menu?, parent: Menu) returns (last: Menu)
    requires Chain(first, ks, old_, null) && Distinct(ks) && ks != []
    modifies Nodes(ks)
    ensures last == ks[|ks| - 1].m && Chain(first, ks, parent, null)
  {
    last := first;
    ghost var j := 0;
    ChainAt(first, ks, 0, old_);
    while true
      invariant 0 <= j < |ks| && last == ks[j].m
      invariant Chain(first, ks[..j], parent, last) && Chain(last, ks[j..], old_, null)
      decreases |ks| - j
    {
      ChainAt(first, ks, j, parent);
      ReparentOne(last, ks[..j], ks[j], ks[j + 1..], first, old_, parent);
      if last.next == null { break; }
      last := last.next;
      j := j + 1;
    }
    assert ks[j + 1..] == [];
    assert ks[..j + 1] == ks;
  }

  /** Redirecting the last link of a list. */
  method SetEnd(last: Menu, end: Menu?, ghost first: Menu?, ghost ts: seq<Tree>, ghost p: Menu?, ghost oldEnd: Menu?)
    requires ts != [] && last == ts[|ts| - 1].m && Distinct(ts) && Chain(first, ts, p, oldEnd)
    modifies last`next
    ensures last.next == end && Chain(first, ts, p, end)
  {
    ghost var n := |ts| - 1;
    assert ts == ts[..n] + [ts[n]];
    DistinctParts(ts[..n], [ts[n]]);
    assert [ts[n]] + [] == [ts[n]];
    DistinctHead(ts[n], []);
    ChainConcat(first, ts[..n], [ts[n]], p, oldEnd);
    ChainOfOne(ts[n], p, oldEnd);
    last.next := end;
    assert Chain(first, ts[..n], p, last);
    assert Chain(last.list, ts[n].kids, last, null);
    ChainOfOne(ts[n], p, end);
    ChainConcat(first, ts[..n], [ts[n]], p, end);
  }

  /** Replaces an entry's subtree by the entry followed by its former children. */
  method Splice(menu: Menu, parent: Menu, ghost t: Tree, ghost rest: seq<Tree>)
    requires menu == t.m && menu.list != null && Distinct([t] + rest) && Chain(menu, [t] + rest, parent, null)
    modifies Nodes([t] + rest)
    ensures Chain(menu, [Node(menu, [])] + (t.kids + rest), parent, null)
  {
    DistinctHead(t, rest);
    ChainUncons(menu, t, rest, parent, null);
    var list, next := menu.list, menu.next;
    RootIsNode(t.kids, |t.kids| - 1);
    assert allocated(Nodes(rest));
    var last := Reparent(list, t.kids, menu, parent);
    SetEnd(last, next, list, t.kids, parent, null);
    assert Chain(next, rest, parent, null);
    assert First(rest, null) == next;
    ChainConcat(list, t.kids, rest, parent, null);
    DistinctParts(t.kids, rest);
    Relink(menu, list, t.kids + rest, parent);
  }

  method Relink(menu: Menu, list: Menu, ghost ts: seq<Tree>, ghost parent: Menu)
    requires menu.parent == parent && menu !in Nodes(ts) && Chain(list, ts, parent, null)
    modifies menu
    ensures Chain(menu, [Node(menu, [])] + ts, parent, null)
  {
    menu.next := list;
    menu.list := null;
    assert Chain(list, ts, parent, null);
    ChainUncons(menu, Node(menu, []), ts, parent, null);
  }

  /** One step of the last loop of menu_finalize */
  method FlattenOne(menu: Menu, parent: Menu, ghost t: Tree, ghost rest: seq<Tree>)
    returns (ghost t': Tree, ghost rest': seq<Tree>)
    requires menu == t.m && Distinct([t] + rest) && Chain(menu, [t] + rest, parent, null)
    modifies Nodes([t] + rest)
    ensures t'.m == menu && Chain(menu, [t'] + rest', parent, null)
    ensures Preorder([t'] + rest') == Preorder([t] + rest)
    ensures FlatList([t] + rest) == [t'] + FlatList(rest')
  {
    t', rest' := t, rest;
    ChainUncons(menu, t, rest, parent, null);
    assert ([t] + rest)[1..] == rest;
    if menu.list != null && !menu.hasPromptText {
      SplicedPreorder(t, rest);
      Splice(menu, parent, t, rest);
      t', rest' := Node(menu, []), t.kids + rest;
    }
  }

  /** The step within the list of all children. */
  method FlattenNext(menu: Menu, m: Menu, ghost done: seq<Tree>, ghost todo: seq<Tree>, ghost all: seq<Tree>)
    returns (ghost done': seq<Tree>, ghost todo': seq<Tree>)
    requires Distinct(all) && m !in Nodes(all) && Preorder(done + todo) == Preorder(all)
    requires todo != [] && menu == todo[0].m
    requires Chain(m.list, done, m, menu) && Chain(menu, todo, m, null)
    modifies Nodes(todo)
    ensures Preorder(done' + todo') == Preorder(all) && |Preorder(todo')| < |Preorder(todo)| && Nodes(todo') <= Nodes(all)
    ensures Chain(m.list, done', m, menu.next) && Chain(menu.next, todo', m, null) && menu.next == First(todo', null)
    ensures done + FlatList(todo) == done' + FlatList(todo')
  {
    ghost var t, rest := todo[0], todo[1..];
    assert todo == [t] + rest;
    Remaining(done, todo, all);
    assert allocated(Nodes(done));
    ghost var t';
    t', todo' := FlattenOne(menu, m, t, rest);
    assert Chain(m.list, done, m, menu);
    Progress(done, todo, all, t', todo');
    Advance(m.list, done, t', todo', m);
    Associative(done, [t'], FlatList(todo'));
    done' := done + [t'];
    Remaining(done', todo', all);
  }

  /** menu_finalize, the last loop over the children */
  method Flatten(m: Menu, ghost kids: seq<Tree>) returns (ghost kids': seq<Tree>)
    requires Distinct(kids) && m !in Nodes(kids) && Chain(m.list, kids, m, null)
    modifies Nodes(kids)
    ensures Chain(m.list, kids', m, null) && kids' == FlatList(kids)
  {
    var menu := m.list;
    ghost var todo;
    kids', todo := [], kids;
    EmptySum(kids);
    EmptySum(FlatList(kids));
    while menu != null
      invariant menu == First(todo, null) && Preorder(kids' + todo) == Preorder(kids)
      invariant Nodes(todo) <= Nodes(kids) && |Preorder(todo)| <= |Preorder(kids)|
      invariant Chain(m.list, kids', m, menu) && Chain(menu, todo, m, null)
      invariant kids' + FlatList(todo) == FlatList(kids)
      decreases |Preorder(todo)|
    {
      kids', todo := FlattenNext(menu, m, kids', todo, kids);
      menu := menu.next;
    }
    EmptySum(kids');
  }

  // ---------- menu_finalize ----------

  /** menu_finalize for `m` with subtree t, followed by the siblings `rest`: the links stand for the
      tree that Final describes, for any outcome of the dependency tests. */
  method Finalize(m: Menu, test: Tests, ghost t: Tree, ghost rest: seq<Tree>, ghost p: Menu?)
    returns (ghost t': Tree, ghost rest': seq<Tree>)
    requires m == t.m && Distinct([t] + rest) && Chain(m, [t] + rest, p, null)
    modifies Nodes([t] + rest)
    ensures Chain(m, [t'] + rest', p, null) && (t', rest') == Final(test, t, rest)
    decreases |Preorder([t] + rest)|, 0
  {
    DistinctHead(t, rest);
    PreorderCons(t, rest);
    ChainUncons(m, t, rest, p, null);
    ghost var kids := t.kids;
    rest' := rest;
    if m.list != null {
      assert allocated(Nodes(rest));
      kids := FinalizeChildren(m, test, t.kids);
      assert Chain(m.next, rest, p, null);
    } else if m.hasSymbol {
      kids, rest' := Adopt(m, test, rest, p);
      assert [] + Preorder(rest) == Preorder(rest);
    }
    t' := Node(m, kids);
    assert Preorder(kids) + Preorder(rest') == Preorder(t.kids) + Preorder(rest);
    PreorderCons(t', rest');
    SamePreorder([t'] + rest', [t] + rest);
    DistinctHead(t', rest');
    assert allocated(Nodes(rest'));
    kids := Flatten(m, kids);
    assert Chain(m.next, rest', p, null);
    t' := Node(m, kids);
    PreorderCons(t', rest');
    ChainUncons(m, t', rest', p, null);
  }

  /** One round of the recursion over the children. */
  method FinalizeNext(menu: Menu, m: Menu, test: Tests, ghost done: seq<Tree>, ghost todo: seq<Tree>, ghost all: seq<Tree>)
    returns (ghost done': seq<Tree>, ghost todo': seq<Tree>)
    requires Distinct(all) && m !in Nodes(all) && Preorder(done + todo) == Preorder(all)
    requires todo != [] && menu == todo[0].m
    requires Chain(m.list, done, m, menu) && Chain(menu, todo, m, null)
    modifies Nodes(todo)
    ensures Preorder(done' + todo') == Preorder(all) && |Preorder(todo')| < |Preorder(todo)| && Nodes(todo') <= Nodes(all)
    ensures Chain(m.list, done', m, menu.next) && Chain(menu.next, todo', m, null) && menu.next == First(todo', null)
    ensures done + FinalList(test, todo) == done' + FinalList(test, todo')
    decreases |Preorder(todo)|, 1
  {
    ghost var t, rest := todo[0], todo[1..];
    assert todo == [t] + rest;
    Remaining(done, todo, all);
    assert allocated(Nodes(done));
    ghost var t';
    t', todo' := Finalize(menu, test, t, rest, m);
    assert Chain(m.list, done, m, menu);
    Progress(done, todo, all, t', todo');
    Advance(m.list, done, t', todo', m);
    Associative(done, [t'], FinalList(test, todo'));
    done' := done + [t'];
    Remaining(done', todo', all);
  }

  /** menu_finalize, the recursion over an existing list of children */
  method FinalizeChildren(m: Menu, test: Tests, ghost kids: seq<Tree>) returns (ghost kids': seq<Tree>)
    requires Distinct(kids) && m !in Nodes(kids) && Chain(m.list, kids, m, null)
    modifies Nodes(kids)
    ensures Chain(m.list, kids', m, null) && kids' == FinalList(test, kids)
    decreases |Preorder(kids)|, 2
  {
    var menu := m.list;
    ghost var todo;
    kids', todo := [], kids;
    EmptySum(kids);
    EmptySum(FinalList(test, kids));
    while menu != null
      invariant menu == First(todo, null) && Preorder(kids' + todo) == Preorder(kids)
      invariant Nodes(todo) <= Nodes(kids) && |Preorder(todo)| <= |Preorder(kids)|
      invariant Chain(m.list, kids', m, menu) && Chain(menu, todo, m, null)
      invariant kids' + FinalList(test, todo) == FinalList(test, kids)
      decreases |Preorder(todo)|
    {
      kids', todo := FinalizeNext(menu, m, test, kids', todo, kids);
      menu := menu.next;
    }
    EmptySum(kids');
  }

  /** Taking the next sibling over: it is finalized where it stands and gets the new parent. */
  method AdoptOne(menu: Menu, m: Menu, test: Tests, ghost t: Tree, ghost rest: seq<Tree>, ghost p: Menu?)
    returns (ghost t': Tree, ghost rest': seq<Tree>)
    requires menu == t.m && Distinct([t] + rest) && Chain(menu, [t] + rest, p, null)
    modifies Nodes([t] + rest)
    ensures t'.m == menu && Chain(menu, [t'], m, menu.next) && Chain(menu.next, rest', p, null)
    ensures (t', rest') == Final(test, t, rest)
    decreases |Preorder([t] + rest)|, 1
  {
    t', rest' := Finalize(menu, test, t, rest, p);
    SamePreorder([t'] + rest', [t] + rest);
    DistinctHead(t', rest');
    ChainUncons(menu, t', rest', p, null);
    menu.parent := m;
    assert Chain(menu.list, t'.kids, menu, null);
    ChainOfOne(t', m, menu.next);
  }

  /** What last_menu points to after the siblings ts have been taken over. */
  ghost function LastOf(ts: seq<Tree>): Menu? { if ts == [] then null else ts[|ts| - 1].m }

  /** Siblings taken over so far, with the outcome for the remaining ones. */
  ghost function Plus(kids: seq<Tree>, r: (seq<Tree>, seq<Tree>)): (seq<Tree>, seq<Tree>) { (kids + r.0, r.1) }

  /** One round of the adoption loop: the sibling `menu` joins the ones taken over before. */
  method AdoptNext(menu: Menu, m: Menu, test: Tests, ghost kids: seq<Tree>, ghost rest: seq<Tree>, ghost all: seq<Tree>,
                   ghost p: Menu?)
    returns (ghost kids': seq<Tree>, ghost rest': seq<Tree>)
    requires Distinct(all) && m !in Nodes(all) && Preorder(kids + rest) == Preorder(all)
    requires rest != [] && menu == rest[0].m && test(m, menu)
    requires Chain(m.next, kids, m, menu) && Chain(menu, rest, p, null)
    modifies Nodes(rest)
    ensures LastOf(kids') == menu
    ensures Preorder(kids' + rest') == Preorder(all) && |Preorder(rest')| < |Preorder(rest)| && Nodes(rest') <= Nodes(all)
    ensures Chain(m.next, kids', m, menu.next) && Chain(menu.next, rest', p, null) && menu.next == First(rest', null)
    ensures Plus(kids, Adopted(test, m, rest)) == Plus(kids', Adopted(test, m, rest'))
    decreases |Preorder(rest)|, 2
  {
    ghost var t, after := rest[0], rest[1..];
    assert rest == [t] + after;
    Remaining(kids, rest, all);
    assert allocated(Nodes(kids));
    ghost var t';
    t', rest' := AdoptOne(menu, m, test, t, after, p);
    assert Chain(m.next, kids, m, menu);
    Progress(kids, rest, all, t', rest');
    ChainConcat(m.next, kids, [t'], m, menu.next);
    Associative(kids, [t'], Adopted(test, m, rest').0);
    kids' := kids + [t'];
    Remaining(kids', rest', all);
  }

  /** The adoption loop, which relinks parents only. */
  method AdoptLoop(m: Menu, test: Tests, ghost rest: seq<Tree>, ghost p: Menu?)
    returns (last: Menu?, ghost kids: seq<Tree>, ghost rest': seq<Tree>)
    requires Distinct(rest) && m !in Nodes(rest) && Chain(m.next, rest, p, null)
    modifies Nodes(rest)
    ensures (kids, rest') == Adopted(test, m, rest) && last == LastOf(kids)
    ensures Chain(m.next, kids, m, First(rest', null)) && Chain(First(rest', null), rest', p, null)
    decreases |Preorder(rest)|, 3
  {
    var next := m.next;
    last, kids, rest' := null, [], rest;
    EmptySum(rest);
    EmptySum(Adopted(test, m, rest).0);
    while next != null
      invariant next == First(rest', null) && Preorder(kids + rest') == Preorder(rest)
      invariant Nodes(rest') <= Nodes(rest) && |Preorder(rest')| <= |Preorder(rest)|
      invariant Chain(m.next, kids, m, next) && Chain(next, rest', p, null)
      invariant Plus(kids, Adopted(test, m, rest')) == Adopted(test, m, rest) && last == LastOf(kids)
      decreases |Preorder(rest')|
    {
      if !test(m, next) { break; }
      kids, rest' := AdoptNext(next, m, test, kids, rest', rest, p);
      last := next;
      next := next.next;
    }
    EmptySum(kids);
  }

  /** menu_finalize, the adoption of following siblings by an entry without children */
  method Adopt(m: Menu, test: Tests, ghost rest: seq<Tree>, ghost p: Menu?)
    returns (ghost kids: seq<Tree>, ghost rest': seq<Tree>)
    requires m.list == null && Distinct(rest) && m !in Nodes(rest) && Chain(m.next, rest, p, null)
    modifies m`next, m`list, Nodes(rest)
    ensures Chain(m.list, kids, m, null) && Chain(m.next, rest', p, null)
    ensures (kids, rest') == Adopted(test, m, rest)
    decreases |Preorder(rest)|, 4
  {
    var last;
    last, kids, rest' := AdoptLoop(m, test, rest, p);
    PreorderConcat(kids, rest');
    Remaining(kids, rest', rest);
    if last != null { Nest(m, last, First(rest', null), kids, rest', p); }
  }

  /** The adopted siblings become the list of children and are cut off the rest. */
  method Nest(m: Menu, last: Menu, ghost menu: Menu?, ghost kids: seq<Tree>, ghost rest: seq<Tree>, ghost p: Menu?)
    requires kids != [] && last == kids[|kids| - 1].m && Distinct(kids) && Nodes(kids) !! Nodes(rest)
    requires m !in Nodes(kids) && m !in Nodes(rest)
    requires Chain(m.next, kids, m, menu) && Chain(menu, rest, p, null)
    modifies m`next, m`list, Nodes(kids)
    ensures Chain(m.list, kids, m, null) && Chain(m.next, rest, p, null)
  {
    RootIsNode(kids, |kids| - 1);
    LastLink(m.next, kids, m, menu);
    assert allocated(Nodes(rest)) && last !in Nodes(rest);
    m.list := m.next;
    m.next := last.next;
    assert Chain(m.list, kids, m, menu);
    SetEnd(last, null, m.list, kids, m, menu);
    assert Chain(menu, rest, p, null);
  }
}
