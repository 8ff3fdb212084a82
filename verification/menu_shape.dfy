/** The shape that menu_finalize gives the menu tree, as functions on trees: which entries are nested
    below which, and where the children of entries without a prompt go. */
module MenuShape {
  import opened Common
  import opened MenuForest

  /** The outcome of the dependency test for an entry and a following sibling. */
  type Tests = (Menu, Menu) -> bool

  /** Children without a prompt have handed their own children over. */
  ghost predicate Flat(ts: seq<Tree>) { forall i :: 0 <= i < |ts| ==> ts[i].m.hasPromptText || ts[i].kids == [] }

  /** The last loop: the children of an entry without a prompt text move behind it, where the loop
      comes to them next. */
  ghost function FlatList(ts: seq<Tree>): (r: seq<Tree>)
    ensures Preorder(r) == Preorder(ts) && Flat(r)
    decreases |Preorder(ts)|
  {
    if ts == [] then []
    else
      var t, rest := ts[0], ts[1..];
      assert ts == [t] + rest;
      FewerRemain(t, rest);
      if t.kids != [] && !t.m.hasPromptText then
        SplicedPreorder(t, rest);
        PreorderCons(Node(t.m, []), t.kids + rest);
        var others := FlatList(t.kids + rest);
        PreorderCons(Node(t.m, []), others);
        [Node(t.m, [])] + others
      else
        PreorderCons(t, rest);
        var others := FlatList(rest);
        PreorderCons(t, others);
        [t] + others
  }

  /** An entry with its following siblings: its children are finalised if it has any; if not, and if
      it has a symbol, it takes siblings over. */
  ghost function Final(test: Tests, t: Tree, rest: seq<Tree>): (r: (Tree, seq<Tree>))
    ensures r.0.m == t.m && Preorder([r.0] + r.1) == Preorder([t] + rest)
    decreases |Preorder([t] + rest)|, 0
  {
    PreorderCons(t, rest);
    if t.kids != [] then
      var kids := FlatList(FinalList(test, t.kids));
      PreorderCons(Node(t.m, kids), rest);
      (Node(t.m, kids), rest)
    else if t.m.hasSymbol then
      var (kids, others) := Adopted(test, t.m, rest);
      PreorderCons(Node(t.m, FlatList(kids)), others);
      (Node(t.m, FlatList(kids)), others)
    else (t, rest)
  }

  /** The loop over the children. */
  ghost function FinalList(test: Tests, ts: seq<Tree>): (r: seq<Tree>)
    ensures Preorder(r) == Preorder(ts)
    decreases |Preorder(ts)|, 1
  {
    if ts == [] then []
    else
      assert ts == [ts[0]] + ts[1..];
      var (t, rest) := Final(test, ts[0], ts[1..]);
      FewerRemain(t, rest);
      PreorderCons(t, rest);
      var others := FinalList(test, rest);
      PreorderCons(t, others);
      [t] + others
  }

  /** The siblings an entry takes over, up to the first one that fails the test, and the others. */
  ghost function Adopted(test: Tests, m: Menu, ts: seq<Tree>): (r: (seq<Tree>, seq<Tree>))
    ensures Preorder(r.0) + Preorder(r.1) == Preorder(ts)
    decreases |Preorder(ts)|, 1
  {
    if ts == [] || !test(m, ts[0].m) then ([], ts)
    else
      assert ts == [ts[0]] + ts[1..];
      var (t, rest) := Final(test, ts[0], ts[1..]);
      FewerRemain(t, rest);
      PreorderCons(t, rest);
      var (more, others) := Adopted(test, m, rest);
      PreorderCons(t, more);
      ([t] + more, others)
  }

  /** The entries nested below another one are those that pass its test, up to the first that fails it. */
  lemma {:induction false} AdoptedExactly(test: Tests, m: Menu, ts: seq<Tree>)
    ensures var (kids, others) := Adopted(test, m, ts);
            && (forall i :: 0 <= i < |kids| ==> test(m, kids[i].m))
            && (others != [] ==> !test(m, others[0].m))
    decreases |Preorder(ts)|
  {
    if ts != [] && test(m, ts[0].m) {
      assert ts == [ts[0]] + ts[1..];
      var (t, rest) := Final(test, ts[0], ts[1..]);
      FewerRemain(t, rest);
      AdoptedExactly(test, m, rest);
    }
  }

  // ---------- the whole subtree is flat ----------

  /** At every level below t, an entry without a prompt text has no children. */
  ghost predicate Settled(t: Tree)
    decreases t
  {
    Flat(t.kids) && forall i :: 0 <= i < |t.kids| ==> Settled(t.kids[i])
  }

  ghost predicate AllSettled(ts: seq<Tree>) { forall i :: 0 <= i < |ts| ==> Settled(ts[i]) }

  lemma {:induction false} FlatListSettled(ts: seq<Tree>)
    requires AllSettled(ts)
    ensures AllSettled(FlatList(ts))
    decreases |Preorder(ts)|
  {
    if ts != [] {
      var t, rest := ts[0], ts[1..];
      assert ts == [t] + rest;
      FewerRemain(t, rest);
      if t.kids != [] && !t.m.hasPromptText {
        SplicedPreorder(t, rest);
        FewerRemain(Node(t.m, []), t.kids + rest);
        FlatListSettled(t.kids + rest);
      } else {
        FlatListSettled(rest);
      }
    }
  }

  /** One call of menu_finalize settles everything below its entry, whatever it took over. */
  lemma {:induction false} FinalIsSettled(test: Tests, t: Tree, rest: seq<Tree>)
    ensures Settled(Final(test, t, rest).0)
    decreases |Preorder([t] + rest)|, 0
  {
    PreorderCons(t, rest);
    if t.kids != [] {
      FinalListSettled(test, t.kids);
      FlatListSettled(FinalList(test, t.kids));
    } else if t.m.hasSymbol {
      AdoptedSettled(test, t.m, rest);
      FlatListSettled(Adopted(test, t.m, rest).0);
    }
  }

  lemma {:induction false} FinalListSettled(test: Tests, ts: seq<Tree>)
    ensures AllSettled(FinalList(test, ts))
    decreases |Preorder(ts)|, 1
  {
    if ts != [] {
      assert ts == [ts[0]] + ts[1..];
      FinalIsSettled(test, ts[0], ts[1..]);
      var (t, rest) := Final(test, ts[0], ts[1..]);
      FewerRemain(t, rest);
      FinalListSettled(test, rest);
    }
  }

  lemma {:induction false} AdoptedSettled(test: Tests, m: Menu, ts: seq<Tree>)
    ensures AllSettled(Adopted(test, m, ts).0)
    decreases |Preorder(ts)|, 1
  {
    if ts != [] && test(m, ts[0].m) {
      assert ts == [ts[0]] + ts[1..];
      FinalIsSettled(test, ts[0], ts[1..]);
      var (t, rest) := Final(test, ts[0], ts[1..]);
      FewerRemain(t, rest);
      AdoptedSettled(test, m, rest);
    }
  }
}
