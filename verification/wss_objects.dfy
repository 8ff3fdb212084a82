/** Hierarchical statistics: creating and deleting objects, with allocations that may fail at any point. */
module WssObjects {
  import opened Common
  import opened WssTables

  /** The blocks an object has allocated: its table, and the entries in it that it made itself. */
  ghost function Owned(wss: Wss): set<object>
    requires wss.HasTable()
    reads wss, wss.entries, wss.parent
  {
    if wss.OwnsTable() then {wss.entries} + OwnEntries(wss, wss.Cells()) else {}
  }

  ghost function OwnEntries(wss: Wss, cells: seq<Entry?>): set<object> {
    set j | 0 <= j < |cells| && cells[j] != null && cells[j].allocator == wss :: cells[j]
  }

  ghost predicate NoSharedCells(wss: Wss, cells: seq<Entry?>) {
    forall j, k :: 0 <= j < k < |cells| && cells[j] != null && cells[j].allocator == wss ==> cells[j] != cells[k]
  }

  /** _mtlk_wss_find_entry: the entry of an id, in a full table. */
  method FindEntry(wss: Wss, id: int) returns (r: Option<nat>)
    requires wss.HasTable() && forall j :: 0 <= j < |wss.Cells()| ==> wss.Cells()[j] != null
    ensures r.None? <==> !HasId(wss.Cells(), |wss.Cells()|, id)
    ensures r.Some? ==> r.value < |wss.Cells()| && wss.Cells()[r.value].statId == id
  {
    var i := 0;
    while i < wss.nofEntries
      invariant i <= |wss.Cells()|
      invariant forall j :: 0 <= j < i ==> wss.Cells()[j].statId != id
    {
      if wss.entries[i].statId == id {
        assert wss.Cells()[i].statId == id;
        return Some(i);
      }
      i := i + 1;
    }
    r := None;
  }

  ghost function ParentCells(wss: Wss): seq<Entry?>
    requires wss.parent != null ==> wss.parent.HasTable()
    reads wss.parent, if wss.parent == null then {} else {wss.parent.entries}
  {
    if wss.parent == null then [] else wss.parent.Cells()
  }

  /** The merged table has a cell for each entry of the parent and one for each new id; with distinct
      ids it is never smaller than the number of contexts. */
  method MergedNofEntries(wss: Wss) returns (res: nat)
    requires DistinctIds(wss.contexts) && (wss.parent != null ==> wss.parent.HasTable())
    requires forall j :: 0 <= j < |ParentCells(wss)| ==> ParentCells(wss)[j] != null
    ensures res == |ParentCells(wss)| + NewIds(ParentCells(wss), wss.contexts)
    ensures res >= |wss.contexts|
  {
    res := |wss.contexts|;
    ghost var cells := ParentCells(wss);
    if wss.parent != null && wss.parent.nofEntries != 0 {
      KnownIdsFit(cells, wss.contexts);
      res := res + wss.parent.nofEntries;
      var i := 0;
      while i < |wss.contexts|
        invariant i <= |wss.contexts|
        invariant res == |wss.contexts| + |cells| - (i - NewIds(cells, wss.contexts[..i]))
      {
        NewIdsNext(cells, wss.contexts, i);
        var found := FindEntry(wss.parent, wss.contexts[i].statId);
        if found.Some? { res := res - 1; }
        i := i + 1;
      }
      assert wss.contexts[..i] == wss.contexts;
      assert res >= |wss.contexts|;
    } else {
      assert cells == [];
      AllNew(wss.contexts);
    }
  }

  lemma {:induction false} AllNew(contexts: seq<Context>)
    ensures NewIds([], contexts) == |contexts|
  {
    if contexts != [] { AllNew(contexts[..|contexts| - 1]); }
  }

  /** A new entry with the context behind those the table has for its id, put over the old entry or
      in the first empty cell. */
  method AddContext(wss: Wss, mem: Memory, found: Option<nat>, context: Context, canAlloc: bool)
    returns (ok: bool, ghost at: nat, ghost e: Entry?)
    requires wss.HasTable() && wss.entries != null
    requires found.Some? ==> found.value < |wss.Cells()| && wss.Cells()[found.value] != null
    requires found.None? ==> exists j :: 0 <= j < |wss.Cells()| && wss.Cells()[j] == null
    modifies wss.entries, mem
    ensures ok == canAlloc && wss.HasTable() && at < |old(wss.Cells())|
    ensures !ok ==> wss.Cells() == old(wss.Cells()) && mem.live == old(mem.live)
    ensures ok ==> e != null && fresh(e) && wss.Cells() == old(wss.Cells())[at := e] && mem.live == old(mem.live) + {e}
    ensures ok ==> e.allocator == wss && e.statId == context.statId
    ensures ok ==> e.contexts == (if found.Some? then old(wss.Cells())[found.value].contexts else []) + [context]
    ensures found.Some? ==> at == found.value
    ensures found.None? ==> old(wss.Cells())[at] == null && forall j :: 0 <= j < at ==> old(wss.Cells())[j] != null
  {
    var entryIdx: nat;
    var toCopy := [];
    match found {
      case None =>
        entryIdx := 0;
        assert exists j :: 0 <= j < wss.nofEntries && wss.entries[j] == null;
        while wss.entries[entryIdx] != null
          invariant entryIdx < wss.nofEntries && forall j :: 0 <= j < entryIdx ==> wss.entries[j] != null
          decreases wss.nofEntries - entryIdx
        {
          entryIdx := entryIdx + 1;
        }
      case Some(i) =>
        entryIdx := i;
        toCopy := wss.entries[i].contexts;
    }
    at, e := entryIdx, null;
    if !canAlloc { return false, at, e; }
    var newEntry := new Entry(wss, context.statId, toCopy + [context]);
    mem.live := mem.live + {newEntry};
    wss.entries[entryIdx] := newEntry;
    ok, e := true, newEntry;
  }

  lemma OwnEntriesNext(wss: Wss, cells: seq<Entry?>, i: nat)
    requires i < |cells| && NoSharedCells(wss, cells)
    ensures var own := cells[i] != null && cells[i].allocator == wss;
            OwnEntries(wss, cells[..i + 1]) == OwnEntries(wss, cells[..i]) + (if own then {cells[i]} else {})
            && (own ==> cells[i] in OwnEntries(wss, cells) - OwnEntries(wss, cells[..i]))
  {
    forall o | o in OwnEntries(wss, cells[..i + 1])
      ensures o in OwnEntries(wss, cells[..i]) || (cells[i] != null && o == cells[i])
    {
      var j :| 0 <= j < i + 1 && cells[j] != null && cells[j].allocator == wss && o == cells[j];
      if j < i { assert cells[..i][j] == o; }
    }
    forall o | o in OwnEntries(wss, cells[..i]) ensures o in OwnEntries(wss, cells[..i + 1]) {
      var j :| 0 <= j < i && cells[..i][j] != null && cells[j].allocator == wss && o == cells[j];
      assert cells[..i + 1][j] == o;
    }
    if cells[i] != null && cells[i].allocator == wss {
      assert cells[..i + 1][i] == cells[i];
    }
  }

  /** Gives back everything the object has allocated, and falls back to the parent's table. */
  method Rollback(wss: Wss, mem: Memory)
    requires wss.HasTable() && Owned(wss) <= mem.live && NoSharedCells(wss, wss.Cells())
    modifies wss`entries, wss`nofEntries, mem
    ensures wss.entries == if wss.parent == null then null else wss.parent.entries
    ensures wss.nofEntries == if wss.parent == null then 0 else wss.parent.nofEntries
    ensures mem.live == old(mem.live) - old(Owned(wss))
  {
    if wss.entries != null && (wss.parent == null || wss.parent.entries != wss.entries) {
      var table: array<Entry?> := wss.entries;
      ghost var cells, live := table[..], mem.live;
      var i := 0;
      while i < wss.nofEntries
        invariant wss.entries == table && wss.nofEntries == table.Length && table[..] == cells && i <= |cells|
        invariant mem.live == live - OwnEntries(wss, cells[..i])
      {
        OwnEntriesNext(wss, cells, i);
        if wss.entries[i] != null && wss.entries[i].allocator == wss {
          mem.Free(wss.entries[i]);
        }
        i := i + 1;
      }
      assert cells[..i] == cells;
      mem.Free(table);
    }
    wss.entries := null;
    wss.nofEntries := 0;
    if wss.parent != null {
      wss.entries := wss.parent.entries;
      wss.nofEntries := wss.parent.nofEntries;
    }
  }

  // ---------- adopting the contexts one by one ----------

  ghost predicate IsParentTable(wss: Wss, above: seq<Entry?>) {
    if wss.parent == null then above == []
    else Rooted(wss) && Holds(wss.parent, |wss.parent.contexts|, above, |above|)
  }

  /** The table after i contexts: the parent's entries, some of them replaced, then the new ones. */
  ghost predicate Adopting(wss: Wss, above: seq<Entry?>, i: nat, cells: seq<Entry?>, filled: nat) {
    && i <= |wss.contexts| && Holds(wss, i, cells, filled)
    && filled == |above| + NewIds(above, wss.contexts[..i]) && |cells| == |above| + NewIds(above, wss.contexts)
    && KeepsInherited(wss, above, i, cells)
  }

  ghost predicate Declares(wss: Wss, i: nat, id: int)
    requires i <= |wss.contexts|
  {
    exists m :: 0 <= m < i && wss.contexts[m].statId == id
  }

  lemma AdoptingStarts(wss: Wss, above: seq<Entry?>, more: seq<Entry?>)
    requires IsParentTable(wss, above) && |more| == NewIds(above, wss.contexts)
    requires forall j :: 0 <= j < |more| ==> more[j] == null
    ensures Adopting(wss, above, 0, above + more, |above|) && OwnEntries(wss, above + more) == {}
  {
    if wss.parent == null {
      assert above + more == more;
      StartsEmpty(wss, more);
    } else {
      StartsInherited(wss, above, more);
    }
    assert forall j :: 0 <= j < |above| ==> (above + more)[j] == above[j];
    assert forall j :: 0 <= j < |above| ==> above[j].allocator != wss;
  }

  ghost predicate IsLookup(above: seq<Entry?>, id: int, found: Option<nat>) {
    && (found.None? <==> !HasId(above, |above|, id))
    && (found.Some? ==> found.value < |above| && above[found.value] != null && above[found.value].statId == id)
  }

  /** There is a cell for the next context: an inherited one nobody else took, or the first empty one. */
  lemma CellForNext(wss: Wss, above: seq<Entry?>, i: nat, cells: seq<Entry?>, filled: nat, found: Option<nat>)
    requires IsParentTable(wss, above) && Adopting(wss, above, i, cells, filled) && DistinctIds(wss.contexts)
    requires i < |wss.contexts| && IsLookup(above, wss.contexts[i].statId, found)
    ensures found.None? ==> filled < |cells| && cells[filled] == null && UpTo(wss, i, wss.contexts[i].statId) == []
    ensures found.Some? ==> found.value < filled && cells[found.value] == above[found.value]
    ensures found.Some? ==> cells[found.value].allocator != wss
  {
    var id := wss.contexts[i].statId;
    NewIdsNext(above, wss.contexts, i);
    NewIdsGrow(above, wss.contexts, i + 1);
    if found.None? {
      NotYet(wss.contexts, i, id);
      if wss.parent != null { UpToAll(wss.parent, id); }
    }
  }

  lemma AdoptNext(wss: Wss, above: seq<Entry?>, i: nat, cells: seq<Entry?>, filled: nat,
                  found: Option<nat>, at: nat, e: Entry)
    requires IsParentTable(wss, above) && Adopting(wss, above, i, cells, filled) && DistinctIds(wss.contexts)
    requires i < |wss.contexts| && IsLookup(above, wss.contexts[i].statId, found)
    requires at == if found.Some? then found.value else filled
    requires e.allocator == wss && e.statId == wss.contexts[i].statId
    requires at < |cells| && (found.Some? ==> cells[at] != null)
    requires e.contexts == (if found.Some? then cells[at].contexts else []) + [wss.contexts[i]]
    ensures Adopting(wss, above, i + 1, cells[at := e], if found.Some? then filled else filled + 1)
    ensures OwnEntries(wss, cells[at := e]) == OwnEntries(wss, cells) + {e}
  {
    CellForNext(wss, above, i, cells, filled, found);
    NewIdsNext(above, wss.contexts, i);
    if found.Some? {
      HoldsAfterReplace(wss, i, cells, filled, at, e);
    } else {
      HoldsAfterAppend(wss, i, cells, filled, e);
    }
    InheritedAfter(wss, above, i, cells, at, e);
    OwnEntriesAfter(wss, cells, at, e);
  }

  ghost predicate KeepsInherited(wss: Wss, above: seq<Entry?>, i: nat, cells: seq<Entry?>)
    requires i <= |wss.contexts|
  {
    && |above| <= |cells|
    && (forall j :: 0 <= j < |above| ==> cells[j] != null && above[j] != null && cells[j].statId == above[j].statId)
    && (forall j :: 0 <= j < |above| ==> cells[j] == above[j] || Declares(wss, i, above[j].statId))
  }

  lemma InheritedAfter(wss: Wss, above: seq<Entry?>, i: nat, cells: seq<Entry?>, at: nat, e: Entry)
    requires i < |wss.contexts| && KeepsInherited(wss, above, i, cells) && at < |cells|
    requires at < |above| ==> above[at].statId == wss.contexts[i].statId
    requires e.statId == wss.contexts[i].statId
    ensures KeepsInherited(wss, above, i + 1, cells[at := e])
  {
    var after, i' := cells[at := e], i + 1;
    forall j | 0 <= j < |above| ensures after[j] == above[j] || Declares(wss, i', above[j].statId) {
      if j == at { assert wss.contexts[i].statId == above[j].statId; }
      else if after[j] != above[j] { assert Declares(wss, i, above[j].statId); }
    }
  }

  lemma OwnEntriesAfter(wss: Wss, cells: seq<Entry?>, at: nat, e: Entry)
    requires at < |cells| && (cells[at] == null || cells[at].allocator != wss) && e.allocator == wss
    ensures OwnEntries(wss, cells[at := e]) == OwnEntries(wss, cells) + {e}
  {
    var after := cells[at := e];
    assert after[at] == e;
    forall o | o in OwnEntries(wss, cells) ensures o in OwnEntries(wss, after) {
      var j :| 0 <= j < |cells| && cells[j] != null && cells[j].allocator == wss && o == cells[j];
      assert after[j] == o;
    }
  }

  lemma AdoptingEnds(wss: Wss, above: seq<Entry?>, cells: seq<Entry?>, filled: nat)
    requires Adopting(wss, above, |wss.contexts|, cells, filled)
    ensures filled == |cells|
  {
    assert wss.contexts[..|wss.contexts|] == wss.contexts;
  }

  /** The inputs of adoption: the table a new object starts with, and its parent's. */
  ghost predicate IsNew(wss: Wss)
    reads wss, wss.parent, if wss.parent == null then {} else {wss.parent.entries}
  {
    && Rooted(wss) && DistinctIds(wss.contexts)
    && (forall above: Wss {:trigger above.Valid()} :: above == wss.parent ==> above.Valid())
    && wss.entries == (if wss.parent == null then null else wss.parent.entries)
    && wss.nofEntries == if wss.parent == null then 0 else wss.parent.nofEntries
  }

  method MergedTable(wss: Wss, newNofEntries: nat) returns (table: array<Entry?>)
    requires wss.parent != null ==> wss.parent.HasTable()
    requires |ParentCells(wss)| <= newNofEntries
    ensures fresh(table) && table.Length == newNofEntries && table[..|ParentCells(wss)|] == ParentCells(wss)
    ensures forall j :: |ParentCells(wss)| <= j < newNofEntries ==> table[j] == null
  {
    table := new Entry?[newNofEntries](_ => null);
    if wss.parent != null && wss.parent.nofEntries != 0 {
      forall j | 0 <= j < wss.parent.nofEntries { table[j] := wss.parent.entries[j]; }
    }
  }

  /** The state while contexts are added: the new table is the object's own. */
  ghost predicate Underway(wss: Wss, table: array<Entry?>, above: seq<Entry?>)
    reads wss, wss.parent, if wss.parent == null then {} else {wss.parent.entries}
  {
    && wss.entries == table && wss.nofEntries == table.Length
    && (wss.parent != null ==> wss.parent.HasTable() && wss.parent.entries != table)
    && above == ParentCells(wss)
  }

  /** Adds the i-th context. */
  method AddNext(wss: Wss, mem: Memory, table: array<Entry?>, ghost above: seq<Entry?>, i: nat, ghost filled: nat,
                 canAlloc: bool)
    returns (ok: bool, ghost filled': nat, ghost e: Entry?)
    requires Underway(wss, table, above) && DistinctIds(wss.contexts) && IsParentTable(wss, above)
    requires Adopting(wss, above, i, table[..], filled) && i < |wss.contexts|
    modifies table, mem
    ensures ok == canAlloc
    ensures !ok ==> table[..] == old(table[..]) && mem.live == old(mem.live)
    ensures ok ==> Adopting(wss, above, i + 1, table[..], filled')
    ensures ok ==> fresh(e) && OwnEntries(wss, table[..]) == OwnEntries(wss, old(table[..])) + {e}
    ensures ok ==> mem.live == old(mem.live) + {e}
  {
    var context := wss.contexts[i];
    var found := None;
    if wss.parent != null { found := FindEntry(wss.parent, context.statId); }
    ghost var cells := table[..];
    CellForNext(wss, above, i, cells, filled, found);
    assert found.None? ==> wss.Cells()[filled] == null;
    ghost var at;
    ok, at, e := AddContext(wss, mem, found, context, canAlloc);
    filled' := if found.Some? then filled else filled + 1;
    if ok { AdoptNext(wss, above, i, cells, filled, found, at, e); }
  }

  /** Adds the contexts, one after the other, until an allocation fails: `allocs` of them succeed. */
  method AddContexts(wss: Wss, mem: Memory, table: array<Entry?>, ghost above: seq<Entry?>, allocs: nat)
    returns (ok: bool, done: nat, ghost filled: nat, ghost own: set<object>)
    requires Underway(wss, table, above) && DistinctIds(wss.contexts) && IsParentTable(wss, above)
    requires Adopting(wss, above, 0, table[..], |above|) && OwnEntries(wss, table[..]) == {}
    modifies table, mem
    ensures ok <==> |wss.contexts| <= allocs
    ensures ok ==> done == |wss.contexts|
    ensures Adopting(wss, above, done, table[..], filled)
    ensures own == OwnEntries(wss, table[..]) && fresh(own) && mem.live == old(mem.live) + own
  {
    done, filled, own := 0, |above|, {};
    while done < |wss.contexts|
      invariant done <= |wss.contexts| && done <= allocs
      invariant Adopting(wss, above, done, table[..], filled)
      invariant own == OwnEntries(wss, table[..]) && fresh(own) && mem.live == old(mem.live) + own
    {
      ghost var filled', e;
      ok, filled', e := AddNext(wss, mem, table, above, done, filled, done < allocs);
      if !ok { return; }
      own := own + {e};
      done, filled := done + 1, filled';
    }
    ok := true;
  }

  lemma ParentTable(wss: Wss) returns (above: seq<Entry?>)
    requires IsNew(wss)
    ensures wss.parent != null ==> wss.parent.HasTable()
    ensures above == ParentCells(wss) && IsParentTable(wss, above)
    ensures forall j :: 0 <= j < |above| ==> above[j] != null
  {
    assert wss.parent != null ==> wss.parent.Valid();
    above := ParentCells(wss);
  }

  /** A merged table: the parent's entries and room for the rest. */
  method BuildTable(wss: Wss) returns (table: array<Entry?>, ghost above: seq<Entry?>)
    requires IsNew(wss)
    ensures wss.parent != null ==> wss.parent.HasTable()
    ensures fresh(table) && above == ParentCells(wss) && IsParentTable(wss, above)
    ensures Adopting(wss, above, 0, table[..], |above|) && OwnEntries(wss, table[..]) == {}
  {
    above := ParentTable(wss);
    var newNofEntries := MergedNofEntries(wss);
    table := MergedTable(wss, newNofEntries);
    ghost var cells := table[..];
    assert cells == above + cells[|above|..];
    AdoptingStarts(wss, above, cells[|above|..]);
  }

  /** The object gets a merged table in place of its parent's. */
  method InstallTable(wss: Wss, mem: Memory) returns (table: array<Entry?>, ghost above: seq<Entry?>)
    requires IsNew(wss)
    modifies wss`entries, wss`nofEntries, mem
    ensures fresh(table) && mem.live == old(mem.live) + {table}
    ensures Underway(wss, table, above) && IsParentTable(wss, above)
    ensures Adopting(wss, above, 0, table[..], |above|) && OwnEntries(wss, table[..]) == {}
  {
    table, above := BuildTable(wss);
    ghost var cells := table[..];
    mem.live := mem.live + {table};
    wss.entries := table;
    wss.nofEntries := table.Length;
    assert table[..] == cells;
  }

  lemma FullTableIsValid(wss: Wss, table: array<Entry?>, above: seq<Entry?>, filled: nat)
    requires Underway(wss, table, above) && Rooted(wss) && DistinctIds(wss.contexts)
    requires Adopting(wss, above, |wss.contexts|, table[..], filled)
    ensures wss.Valid()
  {
    AdoptingEnds(wss, above, table[..], filled);
  }

  lemma OwnedTable(wss: Wss, table: array<Entry?>, above: seq<Entry?>, i: nat, filled: nat)
    requires Underway(wss, table, above) && Adopting(wss, above, i, table[..], filled)
    ensures wss.HasTable() && wss.OwnsTable() && Owned(wss) == {table} + OwnEntries(wss, table[..])
    ensures NoSharedCells(wss, wss.Cells())
  {
  }

  /** The cells of the parent's table come first, and hold the parent's own entries unless a context of
      this object has their id. */
  ghost predicate Inherits(wss: Wss)
    reads wss, wss.entries, wss.parent, if wss.parent == null then {} else {wss.parent.entries}
  {
    && wss.HasTable() && (wss.parent != null ==> wss.parent.HasTable())
    && KeepsInherited(wss, ParentCells(wss), |wss.contexts|, wss.Cells())
  }

  /** Such an entry is freed together with the parent that made it, while the child still has it. */
  lemma EntryIsFreedWithParent(child: Wss, j: nat)
    requires child.parent != null && Inherits(child) && child.parent.OwnsTable() && j < |ParentCells(child)|
    requires ParentCells(child)[j].allocator == child.parent
    requires !Declares(child, |child.contexts|, ParentCells(child)[j].statId)
    ensures child.Cells()[j] == ParentCells(child)[j] && child.Cells()[j] in Owned(child.parent)
  {
  }

  /** Adoption either fills the merged table completely, or gives back all it allocated and leaves
      the object as it was; it succeeds exactly when the table and every entry can be allocated
      (`allocs` allocations succeed before one fails). */
  method Adopt(wss: Wss, mem: Memory, allocs: nat) returns (ok: bool)
    requires IsNew(wss)
    modifies wss`entries, wss`nofEntries, mem
    ensures ok <==> |wss.contexts| < allocs
    ensures ok ==> wss.Valid() && wss.OwnsTable() && fresh(Owned(wss)) && mem.live == old(mem.live) + Owned(wss)
    ensures ok ==> Inherits(wss)
    ensures !ok ==> wss.entries == old(wss.entries) && wss.nofEntries == old(wss.nofEntries) && mem.live == old(mem.live)
  {
    if allocs == 0 { return false; }
    ghost var above, filled, own;
    var table;
    table, above := InstallTable(wss, mem);
    var done;
    ok, done, filled, own := AddContexts(wss, mem, table, above, allocs - 1);
    OwnedTable(wss, table, above, done, filled);
    if ok {
      FullTableIsValid(wss, table, above, filled);
    } else {
      Rollback(wss, mem);
    }
  }

  // ---------- the interface ----------

  method NewContexts(statIds: seq<int>) returns (contexts: seq<Context>)
    ensures |contexts| == |statIds|
    ensures forall i :: 0 <= i < |contexts| ==> fresh(contexts[i]) && contexts[i].value == 0
    ensures forall i :: 0 <= i < |contexts| ==> contexts[i].statId == statIds[i]
  {
    contexts := [];
    while |contexts| < |statIds|
      invariant |contexts| <= |statIds|
      invariant forall i :: 0 <= i < |contexts| ==> fresh(contexts[i]) && contexts[i].value == 0
      invariant forall i :: 0 <= i < |contexts| ==> contexts[i].statId == statIds[i]
    {
      var context := new Context(statIds[|contexts|]);
      contexts := contexts + [context];
    }
  }

  /** A new object below `parent`, with its counters at zero; or nothing at all. The object takes one
      allocation, its table one more, and each entry one. */
  method Create(parent: Wss?, statIds: seq<int>, mem: Memory, allocs: nat) returns (wss: Wss?)
    requires (parent != null ==> parent.Valid()) && NoDup(statIds)
    modifies mem
    ensures wss == null <==> allocs < if statIds == [] then 1 else |statIds| + 2
    ensures wss == null ==> mem.live == old(mem.live)
    ensures wss != null ==> fresh(wss) && wss.Valid() && wss.parent == parent && |wss.contexts| == |statIds|
    ensures wss != null ==> fresh(Owned(wss)) && mem.live == old(mem.live) + {wss} + Owned(wss)
    ensures wss != null ==> Inherits(wss)
    ensures wss != null ==> forall i :: 0 <= i < |statIds| ==>
      fresh(wss.contexts[i]) && wss.contexts[i].statId == statIds[i] && wss.contexts[i].value == 0
  {
    if allocs == 0 { return null; }
    var contexts := NewContexts(statIds);
    wss := new Wss(parent, contexts);
    mem.live := mem.live + {wss};
    if statIds != [] {
      var ok := Adopt(wss, mem, allocs - 1);
      if !ok {
        mem.Free(wss);
        wss := null;
      }
    } else {
      SharedTableIsValid(wss);
    }
  }

  /** Without contexts of its own an object can use its parent's table. */
  lemma SharedTableIsValid(wss: Wss)
    requires IsNew(wss) && wss.contexts == []
    ensures wss.Valid()
  {
    if wss.parent != null {
      assert wss.parent.Valid();
      StartsInherited(wss, wss.parent.Cells(), []);
      assert wss.parent.Cells() + [] == wss.parent.Cells();
    } else {
      StartsEmpty(wss, []);
    }
  }

  /** Frees the object, and exactly the blocks it had allocated. */
  method Delete(wss: Wss, mem: Memory)
    requires wss.Valid() && Owned(wss) <= mem.live && wss in mem.live
    modifies wss`entries, wss`nofEntries, mem
    ensures mem.live == old(mem.live) - old(Owned(wss)) - {wss}
  {
    assert wss !in Owned(wss);
    Rollback(wss, mem);
    mem.Free(wss);
  }

  /** The handle of an id: the contexts declared for it here and above, or nothing if there are none. */
  method Open(wss: Wss, id: int) returns (handle: Entry?)
    requires wss.Valid()
    ensures handle == null <==> Declared(wss, id) == []
    ensures handle != null ==> handle.statId == id && handle.contexts == Declared(wss, id)
  {
    UpToAll(wss, id);
    var r := FindEntry(wss, id);
    match r {
      case None => handle := null;
      case Some(i) => handle := wss.entries[i];
    }
  }
}
