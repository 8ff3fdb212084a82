/** Hierarchical statistics: what the counter table of an object has to hold, and how adopting one
    declared counter after another fills it. */
module WssTables {
  import opened Common

  const MODULUS := 0x1_0000_0000

  type U32 = x: nat | x < MODULUS

  class Context {
    const statId: int
    var value: U32

    constructor (statId: int)
      ensures this.statId == statId && value == 0
    {
      this.statId := statId;
      value := 0;
    }
  }

  /** A handle: the contexts one operation on it has to update. */
  class Entry {
    const allocator: Wss
    const statId: int
    const contexts: seq<Context>

    constructor (allocator: Wss, statId: int, contexts: seq<Context>)
      ensures this.allocator == allocator && this.statId == statId && this.contexts == contexts
    {
      this.allocator := allocator;
      this.statId := statId;
      this.contexts := contexts;
    }
  }

  /** The blocks that are allocated and not yet freed. */
  class Memory {
    var live: set<object>

    constructor ()
      ensures live == {}
    {
      live := {};
    }

    method Free(block: object)
      requires block in live
      modifies this
      ensures live == old(live) - {block}
    {
      live := live - {block};
    }
  }

  class Wss {
    const parent: Wss?
    const contexts: seq<Context>
    ghost const depth: nat
    var entries: array?<Entry?>
    var nofEntries: nat

    /** A new object starts with its parent's table. */
    constructor (parent: Wss?, contexts: seq<Context>)
      ensures this.parent == parent && this.contexts == contexts && Rooted(this)
      ensures entries == (if parent == null then null else parent.entries)
      ensures nofEntries == if parent == null then 0 else parent.nofEntries
    {
      this.parent := parent;
      this.contexts := contexts;
      depth := if parent == null then 0 else parent.depth + 1;
      entries := if parent == null then null else parent.entries;
      nofEntries := if parent == null then 0 else parent.nofEntries;
    }

    ghost predicate HasTable()
      reads this`entries, this`nofEntries
    {
      if entries == null then nofEntries == 0 else nofEntries == entries.Length
    }

    ghost function Cells(): seq<Entry?>
      requires HasTable()
      reads this`entries, this`nofEntries, entries
    {
      if entries == null then [] else entries[..]
    }

    /** The table is full, and each entry has the contexts of this object and its ancestors. */
    ghost predicate Valid()
      reads this`entries, this`nofEntries, entries
    {
      Rooted(this) && DistinctIds(contexts) && HasTable() && Holds(this, |contexts|, Cells(), |Cells()|)
    }

    /** Whether the table is this object's own, and not its parent's. */
    ghost predicate OwnsTable()
      reads this`entries, parent
    {
      entries != null && (parent == null || parent.entries != entries)
    }
  }

  ghost predicate Rooted(node: Wss) {
    node.parent != null ==> node.parent.depth < node.depth
  }

  ghost predicate DistinctIds(contexts: seq<Context>) {
    forall i, j :: 0 <= i < j < |contexts| ==> contexts[i].statId != contexts[j].statId
  }

  // ---------- the contexts a counter id stands for ----------

  ghost function WithId(contexts: seq<Context>, id: int): seq<Context> {
    if contexts == [] then []
    else
      var rest := WithId(contexts[..|contexts| - 1], id);
      var last := contexts[|contexts| - 1];
      if last.statId == id then rest + [last] else rest
  }

  /** The contexts with this id declared by the node and its ancestors, the root's first. */
  ghost function Declared(node: Wss, id: int): seq<Context>
    decreases node.depth
  {
    Inherited(node, id) + WithId(node.contexts, id)
  }

  ghost function Inherited(node: Wss, id: int): seq<Context>
    decreases node.depth, 0
  {
    if node.parent == null || node.parent.depth >= node.depth then [] else Declared(node.parent, id)
  }

  /** Declared, as far as the node's first i contexts go. */
  ghost function UpTo(node: Wss, i: nat, id: int): seq<Context>
    requires i <= |node.contexts|
  {
    Inherited(node, id) + WithId(node.contexts[..i], id)
  }

  // ---------- tables ----------

  ghost predicate HasId(cells: seq<Entry?>, filled: nat, id: int)
    requires filled <= |cells|
  {
    exists j :: 0 <= j < filled && cells[j] != null && cells[j].statId == id
  }

  /** The first `filled` cells hold one entry for each id declared so far, the others are empty. */
  ghost predicate Holds(node: Wss, i: nat, cells: seq<Entry?>, filled: nat)
    requires i <= |node.contexts|
  {
    && filled <= |cells|
    && (forall j :: 0 <= j < filled ==> cells[j] != null && cells[j].allocator.depth <= node.depth)
    && (forall j :: 0 <= j < filled ==> cells[j].contexts == UpTo(node, i, cells[j].statId) && cells[j].contexts != [])
    && (forall j, k :: 0 <= j < k < filled ==> cells[j].statId != cells[k].statId)
    && (forall j :: filled <= j < |cells| ==> cells[j] == null)
    && (forall id :: UpTo(node, i, id) != [] ==> HasId(cells, filled, id))
  }

  lemma UpToAll(node: Wss, id: int)
    ensures UpTo(node, |node.contexts|, id) == Declared(node, id)
  {
    var all := node.contexts;
    assert all[..|all|] == all;
  }

  lemma StartsInherited(node: Wss, cells: seq<Entry?>, more: seq<Entry?>)
    requires Rooted(node) && node.parent != null && Holds(node.parent, |node.parent.contexts|, cells, |cells|)
    requires forall j :: 0 <= j < |more| ==> more[j] == null
    ensures Holds(node, 0, cells + more, |cells|)
  {
    var parent: Wss := node.parent;
    var k := |parent.contexts|;
    forall id ensures UpTo(node, 0, id) == UpTo(parent, k, id) { UpToAll(parent, id); }
    forall id | UpTo(node, 0, id) != [] ensures HasId(cells + more, |cells|, id) {
      assert HasId(cells, |cells|, id);
      var j :| 0 <= j < |cells| && cells[j] != null && cells[j].statId == id;
      assert (cells + more)[j] == cells[j];
    }
  }

  lemma StartsEmpty(node: Wss, more: seq<Entry?>)
    requires node.parent == null && forall j :: 0 <= j < |more| ==> more[j] == null
    ensures Holds(node, 0, more, 0)
  {
    assert node.contexts[..0] == [];
  }

  /** One more declared context: it goes behind the inherited ones of its id. */
  lemma UpToNext(node: Wss, i: nat, id: int)
    requires i < |node.contexts|
    ensures UpTo(node, i + 1, id)
         == if node.contexts[i].statId == id then UpTo(node, i, id) + [node.contexts[i]] else UpTo(node, i, id)
  {
    assert node.contexts[..i + 1][..i] == node.contexts[..i];
  }

  lemma {:induction false} NotYet(contexts: seq<Context>, i: nat, id: int)
    requires i <= |contexts| && forall j :: 0 <= j < i ==> contexts[j].statId != id
    ensures WithId(contexts[..i], id) == []
  {
    if i > 0 {
      NotYet(contexts, i - 1, id);
      assert contexts[..i][..i - 1] == contexts[..i - 1];
    }
  }

  /** An entry for an inherited id is replaced by one with the new context added. */
  lemma HoldsAfterReplace(node: Wss, i: nat, cells: seq<Entry?>, filled: nat, at: nat, e: Entry)
    requires i < |node.contexts| && Holds(node, i, cells, filled) && at < filled
    requires cells[at].statId == node.contexts[i].statId == e.statId && e.allocator == node
    requires e.contexts == cells[at].contexts + [node.contexts[i]]
    ensures Holds(node, i + 1, cells[at := e], filled)
  {
    var after, i' := cells[at := e], i + 1;
    forall j | 0 <= j < filled ensures after[j].contexts == UpTo(node, i', after[j].statId) {
      UpToNext(node, i, after[j].statId);
    }
    forall id | UpTo(node, i', id) != [] ensures HasId(after, filled, id) {
      UpToNext(node, i, id);
      HasAfter(cells, filled, at, e, id);
      if id == e.statId { assert after[at].statId == id; }
    }
  }

  lemma HasAfter(cells: seq<Entry?>, filled: nat, at: nat, e: Entry, id: int)
    requires filled <= |cells| && at < |cells| && HasId(cells, filled, id)
    requires cells[at] == null || cells[at].statId == e.statId
    ensures HasId(cells[at := e], filled, id)
  {
    var j :| 0 <= j < filled && cells[j] != null && cells[j].statId == id;
    assert cells[at := e][j].statId == id;
  }

  /** An id nobody declared before gets the first empty cell. */
  lemma HoldsAfterAppend(node: Wss, i: nat, cells: seq<Entry?>, filled: nat, e: Entry)
    requires i < |node.contexts| && Holds(node, i, cells, filled) && filled < |cells|
    requires e.statId == node.contexts[i].statId && e.allocator == node && e.contexts == [node.contexts[i]]
    requires UpTo(node, i, e.statId) == []
    ensures Holds(node, i + 1, cells[filled := e], filled + 1)
  {
    var after, i', filled' := cells[filled := e], i + 1, filled + 1;
    forall j | 0 <= j < filled' ensures after[j].contexts == UpTo(node, i', after[j].statId) {
      UpToNext(node, i, after[j].statId);
    }
    forall id | UpTo(node, i', id) != [] ensures HasId(after, filled', id) {
      UpToNext(node, i, id);
      if id == e.statId {
        assert after[filled].statId == id;
      } else {
        HasAfter(cells, filled, filled, e, id);
        var j :| 0 <= j < filled && after[j] != null && after[j].statId == id;
      }
    }
  }

  // ---------- how many cells the merged table has ----------

  ghost function NewIds(cells: seq<Entry?>, contexts: seq<Context>): (n: nat)
    ensures n <= |contexts|
  {
    if contexts == [] then 0
    else
      var last := contexts[|contexts| - 1];
      NewIds(cells, contexts[..|contexts| - 1]) + if HasId(cells, |cells|, last.statId) then 0 else 1
  }

  lemma NewIdsNext(cells: seq<Entry?>, contexts: seq<Context>, i: nat)
    requires i < |contexts|
    ensures NewIds(cells, contexts[..i + 1])
         == NewIds(cells, contexts[..i]) + if HasId(cells, |cells|, contexts[i].statId) then 0 else 1
  {
    assert contexts[..i + 1][..i] == contexts[..i];
  }

  lemma {:induction false} NewIdsGrow(cells: seq<Entry?>, contexts: seq<Context>, i: nat)
    requires i <= |contexts|
    ensures NewIds(cells, contexts[..i]) <= NewIds(cells, contexts)
    decreases |contexts| - i
  {
    if i < |contexts| {
      NewIdsNext(cells, contexts, i);
      NewIdsGrow(cells, contexts, i + 1);
    } else {
      assert contexts[..i] == contexts;
    }
  }

  /** Distinct ids that are all in the table are no more than the table has entries. */
  lemma KnownIdsFit(cells: seq<Entry?>, contexts: seq<Context>)
    requires DistinctIds(contexts)
    ensures |contexts| - NewIds(cells, contexts) <= |cells|
  {
    var ids := set j | 0 <= j < |cells| && cells[j] != null :: cells[j].statId;
    var known := KnownIds(cells, contexts);
    forall id | id in known ensures id in ids {
      assert HasId(cells, |cells|, id);
      var j :| 0 <= j < |cells| && cells[j] != null && cells[j].statId == id;
    }
    IdsAreFew(cells);
    SetsFit(known, ids);
  }

  ghost function KnownIds(cells: seq<Entry?>, contexts: seq<Context>): (ids: set<int>)
    requires DistinctIds(contexts)
    ensures |ids| == |contexts| - NewIds(cells, contexts)
    ensures forall id :: id in ids ==>
      HasId(cells, |cells|, id) && exists j :: 0 <= j < |contexts| && contexts[j].statId == id
  {
    if contexts == [] then {}
    else
      var last := contexts[|contexts| - 1];
      var ids := KnownIds(cells, contexts[..|contexts| - 1]);
      if HasId(cells, |cells|, last.statId) then ids + {last.statId} else ids
  }

  lemma {:induction false} IdsAreFew(cells: seq<Entry?>)
    ensures |set j | 0 <= j < |cells| && cells[j] != null :: cells[j].statId| <= |cells|
  {
    var ids := set j | 0 <= j < |cells| && cells[j] != null :: cells[j].statId;
    if cells != [] {
      var front := cells[..|cells| - 1];
      var last := cells[|cells| - 1];
      var fewer := set j | 0 <= j < |front| && front[j] != null :: front[j].statId;
      IdsAreFew(front);
      assert ids <= fewer + if last == null then {} else {last.statId};
      SetsFit(ids, fewer + if last == null then {} else {last.statId});
    }
  }
}
