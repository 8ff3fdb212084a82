/** The pointer-climbing walk over the menu tree that conf_write uses. */
module MenuWalk {
  import opened Common
  import opened MenuForest
  import opened MenuShape
  import MenuTree

  /** The entries still to be visited on one level: siblings of the path, below one parent. */
  datatype Level = Level(parent: Menu, ts: seq<Tree>)

  ghost function LevelNodes(path: seq<Level>): set<Menu> {
    if path == [] then {} else LevelNodes(path[..|path| - 1]) + Nodes(path[|path| - 1].ts)
  }

  ghost function Top(path: seq<Level>): Level
    requires path != []
  {
    path[|path| - 1]
  }

  /** The path from the children of root down to the current entry, which heads the last level. */
  ghost predicate IsPath(path: seq<Level>, root: Menu)
    reads LevelNodes(path)
  {
    path != [] && Top(path).ts != [] &&
    Chain(Top(path).ts[0].m, Top(path).ts, Top(path).parent, null) &&
    var up := path[..|path| - 1];
    if up == [] then Top(path).parent == root
    else IsPath(up, root) && Top(path).parent == Top(up).ts[0].m
  }

  /** What comes after the subtree of the current entry. */
  ghost function After(path: seq<Level>): seq<Menu> {
    if path == [] || Top(path).ts == [] then []
    else Preorder(Top(path).ts[1..]) + After(path[..|path| - 1])
  }

  /** What comes from the current entry on. */
  ghost function FromHere(path: seq<Level>): seq<Menu>
    requires path != [] && Top(path).ts != []
  {
    var t := Top(path).ts[0];
    [t.m] + (Preorder(t.kids) + After(path))
  }

  ghost function Descend(path: seq<Level>): seq<Level>
    requires path != [] && Top(path).ts != []
  {
    path + [Level(Top(path).ts[0].m, Top(path).ts[0].kids)]
  }

  ghost function Sideways(path: seq<Level>): seq<Level>
    requires path != [] && Top(path).ts != []
  {
    path[..|path| - 1] + [Level(Top(path).parent, Top(path).ts[1..])]
  }

  /** What the pointers of the current entry lead to. */
  lemma CurrentLinks(path: seq<Level>, root: Menu)
    requires IsPath(path, root)
    ensures var (ts, p) := (Top(path).ts, Top(path).parent);
            && ts[0].m.parent == p && Chain(ts[0].m.list, ts[0].kids, ts[0].m, null) && Chain(ts[0].m.next, ts[1..], p, null)
            && (ts[0].m.list == null <==> ts[0].kids == []) && (ts[0].m.next == null <==> ts[1..] == [])
  {
    var (ts, p) := (Top(path).ts, Top(path).parent);
    assert ts == [ts[0]] + ts[1..];
    ChainUncons(ts[0].m, ts[0], ts[1..], p, null);
  }

  lemma Regroup(m: Menu, k: seq<Menu>, r: seq<Menu>, up: seq<Menu>)
    ensures [m] + (k + (r + up)) == ([m] + (k + r)) + up
  {
  }

  lemma Descending(path: seq<Level>, root: Menu)
    requires IsPath(path, root) && Top(path).ts[0].m.list != null
    ensures IsPath(Descend(path), root) && Top(Descend(path)).ts[0].m == Top(path).ts[0].m.list
    ensures [Top(path).ts[0].m] + FromHere(Descend(path)) == FromHere(path)
  {
    CurrentLinks(path, root);
    var d := Descend(path);
    var kids := Top(path).ts[0].kids;
    assert d[..|d| - 1] == path;
    assert kids == [kids[0]] + kids[1..];
    PreorderCons(kids[0], kids[1..]);
    Regroup(kids[0].m, Preorder(kids[0].kids), Preorder(kids[1..]), After(path));
  }

  lemma MovingSideways(path: seq<Level>, root: Menu)
    requires IsPath(path, root) && Top(path).ts[0].m.next != null
    ensures IsPath(Sideways(path), root) && Top(Sideways(path)).ts[0].m == Top(path).ts[0].m.next
    ensures FromHere(Sideways(path)) == After(path)
  {
    CurrentLinks(path, root);
    var (s, ts) := (Sideways(path), Top(path).ts[1..]);
    assert s[..|s| - 1] == path[..|path| - 1];
    assert ts == [ts[0]] + ts[1..];
    PreorderCons(ts[0], ts[1..]);
    Regroup(ts[0].m, Preorder(ts[0].kids), Preorder(ts[1..]), After(path[..|path| - 1]));
  }

  lemma MovingUp(path: seq<Level>, root: Menu)
    requires IsPath(path, root) && Top(path).ts[0].m.next == null
    ensures After(path) == After(path[..|path| - 1])
    ensures |path| > 1 ==> IsPath(path[..|path| - 1], root)
    ensures Top(path).ts[0].m.parent == if |path| == 1 then root else Top(path[..|path| - 1]).ts[0].m
  {
    CurrentLinks(path, root);
  }

  lemma Starting(root: Menu, kids: seq<Tree>)
    requires kids != [] && Chain(root.list, kids, root, null)
    ensures IsPath([Level(root, kids)], root) && FromHere([Level(root, kids)]) == Preorder(kids)
  {
    var path := [Level(root, kids)];
    assert path[..0] == [];
    assert kids == [kids[0]] + kids[1..];
    PreorderCons(kids[0], kids[1..]);
    assert After(path) == Preorder(kids[1..]) + [];
  }

  /** The walk stands at `menu`; null means it is over. */
  ghost predicate StandsAt(menu: Menu?, path: seq<Level>, root: Menu)
    reads LevelNodes(path)
  {
    menu != null ==> IsPath(path, root) && menu == Top(path).ts[0].m
  }

  ghost function Ahead(menu: Menu?, path: seq<Level>): seq<Menu> {
    if menu == null || path == [] || Top(path).ts == [] then [] else FromHere(path)
  }

  /** One step of the loop: what is ahead loses its first entry. */
  method Step(from: Menu, root: Menu, ghost path: seq<Level>) returns (menu: Menu?, ghost path': seq<Level>)
    requires root.next == null && root.parent == null && StandsAt(from, path, root)
    ensures StandsAt(menu, path', root) && Ahead(from, path) == [from] + Ahead(menu, path')
  {
    CurrentLinks(path, root);
    if from.list != null {
      Descending(path, root);
      return from.list, Descend(path);
    }
    assert [] + After(path) == After(path);
    if from.next != null {
      MovingSideways(path, root);
      return from.next, Sideways(path);
    }
    menu, path' := Climb(from, root, path);
  }

  /** The loop of conf_write, without what it does at each entry: it visits every entry below the
      root exactly once, in preorder, and stops. */
  method Walk(root: Menu, ghost kids: seq<Tree>) returns (visited: seq<Menu>)
    requires root.next == null && root.parent == null && Chain(root.list, kids, root, null)
    ensures visited == Preorder(kids)
  {
    visited := [];
    var menu := root.list;
    ghost var path := [Level(root, kids)];
    if menu != null { Starting(root, kids); }
    ghost var todo := Ahead(menu, path);
    while menu != null
      invariant StandsAt(menu, path, root) && todo == Ahead(menu, path)
      invariant visited + todo == Preorder(kids)
      decreases |todo|
    {
      var menu', path' := Step(menu, root, path);
      Associative(visited, [menu], Ahead(menu', path'));
      visited, todo := visited + [menu], Ahead(menu', path');
      menu, path := menu', path';
    }
  }

  /** The inner loop: up to the first ancestor that has a next sibling. */
  method Climb(from: Menu, root: Menu, ghost path: seq<Level>) returns (menu: Menu?, ghost up: seq<Level>)
    requires root.next == null && root.parent == null
    requires IsPath(path, root) && from == Top(path).ts[0].m && from.next == null
    ensures menu == null ==> After(path) == []
    ensures menu != null ==> IsPath(up, root) && menu == Top(up).ts[0].m && FromHere(up) == After(path)
  {
    MovingUp(path, root);
    menu, up := from.parent, path[..|path| - 1];
    while menu != null
      invariant menu == null || up == [] ==> After(path) == []
      invariant menu != null && up == [] ==> menu == root
      invariant menu != null && up != [] ==> IsPath(up, root) && menu == Top(up).ts[0].m && After(up) == After(path)
      decreases if menu == null then 0 else 1 + |up|
    {
      if menu.next != null {
        MovingSideways(up, root);
        return menu.next, Sideways(up);
      }
      if up != [] { MovingUp(up, root); }
      menu, up := menu.parent, if up == [] then [] else up[..|up| - 1];
    }
  }

  /** Finalizing the root menu and then writing the configuration visits the entries in the order
      in which they were parsed, whatever the dependency tests decided in between. */
  method FinalizeThenWalk(root: Menu, test: Tests, ghost kids: seq<Tree>) returns (visited: seq<Menu>)
    requires !root.hasSymbol && root.next == null && root.parent == null
    requires Chain(root.list, kids, root, null) && Distinct([Node(root, kids)])
    modifies Nodes([Node(root, kids)])
    ensures visited == Preorder(kids)
  {
    ghost var t := Node(root, kids);
    assert [t] + [] == [t];
    ChainOfOne(t, null, null);
    PreorderCons(t, []);
    ghost var t', rest := MenuTree.Finalize(root, test, t, [], null);
    assert [t'] + [] == [t'];
    ChainOfOne(t', null, null);
    PreorderCons(t', []);
    assert ([root] + (Preorder(t'.kids) + []))[1..] == Preorder(t'.kids);
    assert ([root] + (Preorder(kids) + []))[1..] == Preorder(kids);
    visited := Walk(root, t'.kids);
  }
}
