/** The chained hash: bucket lists of caller-owned entries, and an enumerator kept outside them. */
module HashTable {
  import opened Common
  import opened HashLists

  class Entry<K> {
    var key: K
    var hashIdx: nat

    constructor (key: K)
      ensures this.key == key
    {
      this.key := key;
      hashIdx := 0;
    }
  }

  /** data1 is the list pointer to look at next, data2 the bucket it is in. */
  class Enumerator<K> {
    var data1: Cursor<Entry<K>>
    var data2: nat

    constructor ()
    {
      data1 := Head(0);
      data2 := 0;
    }
  }

  class Table<K(==,!new)> {
    /** The hash function for this number of buckets. */
    const bucketOf: K -> nat
    var lists: seq<seq<Entry<K>>>
    ghost var entries: set<Entry<K>>
    ghost var table: map<K, Entry<K>>

    /** What both kinds of hash keep: every entry is in the one bucket its key selects. */
    ghost predicate Valid()
      reads this`lists, this`entries, entries
    {
      && lists != [] && (forall k :: bucketOf(k) < |lists|)
      && (forall i {:trigger NoDup(lists[i])} :: 0 <= i < |lists| ==> NoDup(lists[i]))
      && (forall i, j :: 0 <= i < |lists| && 0 <= j < |lists[i]| ==> lists[i][j] in entries && lists[i][j].hashIdx == i)
      && (forall x :: x in entries ==> x.hashIdx == bucketOf(x.key) && x in lists[x.hashIdx])
    }

    /** What the plain hash keeps besides: its entries are the values of a finite map by key. */
    ghost predicate IsMap()
      reads this`entries, this`table, entries
    {
      && (forall k :: k in table ==> table[k] in entries && table[k].key == k)
      && (forall x :: x in entries ==> x.key in table && table[x.key] == x)
    }

    lemma AreSeparate()
      requires Valid()
      ensures Separate(lists)
    {
      forall i, j, x | 0 <= i < j < |lists| && x in lists[i] ensures x !in lists[j] {
        assert x.hashIdx == i;
      }
    }

    lemma FlatIsEntries(x: Entry<K>)
      requires Valid()
      ensures x in Flat(lists) <==> x in entries
    {
      InFlat(lists, x);
      assert x in entries ==> x in lists[x.hashIdx];
    }

    lemma FlatAreEntries()
      requires Valid()
      ensures forall i :: 0 <= i < |Flat(lists)| ==> Flat(lists)[i] in entries
      ensures forall x :: x in entries ==> x in Flat(lists)
    {
      forall i | 0 <= i < |Flat(lists)| ensures Flat(lists)[i] in entries { FlatIsEntries(Flat(lists)[i]); }
      forall x | x in entries ensures x in Flat(lists) { FlatIsEntries(x); }
    }

    constructor (nofBuckets: nat, bucketOf: K -> nat)
      requires 0 < nofBuckets && forall k :: bucketOf(k) < nofBuckets
      ensures Valid() && IsMap() && table == map[] && this.bucketOf == bucketOf && |lists| == nofBuckets
    {
      this.bucketOf := bucketOf;
      lists := seq(nofBuckets, _ => []);
      entries := {};
      table := map[];
    }

    // ---------- linking and unlinking one entry ----------

    method LinkEntry(key: K, entry: Entry<K>)
      requires Valid() && entry !in entries
      modifies this`lists, this`entries, entry
      ensures Valid() && entries == old(entries) + {entry} && entry.key == key
      ensures lists == old(lists)[bucketOf(key) := old(lists)[bucketOf(key)] + [entry]]
    {
      assert NoDup(lists[bucketOf(key)]);
      entry.key := key;
      entry.hashIdx := bucketOf(key);
      lists := lists[entry.hashIdx := lists[entry.hashIdx] + [entry]];
      entries := entries + {entry};
    }

    method InsertEntry(key: K, entry: Entry<K>)
      requires Valid() && IsMap() && entry !in entries && key !in table
      modifies this`lists, this`entries, this`table, entry
      ensures Valid() && IsMap() && table == old(table)[key := entry]
      ensures lists == old(lists)[bucketOf(key) := old(lists)[bucketOf(key)] + [entry]]
    {
      LinkEntry(key, entry);
      table := table[key := entry];
      assert IsMap() by {
        forall k | k in table ensures table[k] in entries && table[k].key == k {
          if k != key { assert k in old(table); }
        }
        forall x | x in entries ensures x.key in table && table[x.key] == x {
          if x != entry { assert x in old(entries); }
        }
      }
    }

    method UnlinkEntry(entry: Entry<K>)
      requires Valid() && entry in entries
      modifies this`lists, this`entries
      ensures Valid() && entries == old(entries) - {entry}
      ensures lists == old(lists)[entry.hashIdx := Without(old(lists)[entry.hashIdx], entry)]
    {
      WithoutHas(lists[entry.hashIdx], entry);
      lists := lists[entry.hashIdx := Without(lists[entry.hashIdx], entry)];
      entries := entries - {entry};
    }

    // ---------- the operations ----------

    method Find(key: K) returns (found: Entry?<K>)
      requires Valid() && IsMap()
      ensures found == if key in table then table[key] else null
    {
      var i := bucketOf(key);
      var list := lists[i];
      var curr := After(list, i, Head(i));
      ghost var at := 0;
      while curr != Head(i)
        invariant at <= |list| && curr == CursorAt(list, i, at)
        invariant forall j :: 0 <= j < at ==> list[j].key != key
        decreases |list| - at
      {
        if curr.entry.key == key { return curr.entry; }
        AfterAt(list, i, at);
        curr, at := After(list, i, curr), at + 1;
      }
      found := null;
    }

    /** An entry with the key is left alone and returned; otherwise the new one goes in. */
    method Insert(key: K, entry: Entry<K>) returns (prev: Entry?<K>)
      requires Valid() && IsMap() && entry !in entries
      modifies this`lists, this`entries, this`table, entry
      ensures Valid() && IsMap()
      ensures prev == if key in old(table) then old(table)[key] else null
      ensures table == if key in old(table) then old(table) else old(table)[key := entry]
    {
      prev := Find(key);
      if prev == null {
        InsertEntry(key, entry);
      }
    }

    /** The new entry goes in whatever the key had before; the old one comes back. */
    method InsertReplace(key: K, entry: Entry<K>) returns (prev: Entry?<K>)
      requires Valid() && IsMap() && (entry in entries ==> entry.key == key)
      modifies this`lists, this`entries, this`table, entry
      ensures Valid() && IsMap()
      ensures prev == if key in old(table) then old(table)[key] else null
      ensures table == old(table)[key := entry]
    {
      prev := Find(key);
      if prev != null {
        Remove(prev);
      }
      InsertEntry(key, entry);
    }

    /** The caller hands in an entry of this hash. */
    method Remove(entry: Entry<K>)
      requires Valid() && IsMap() && entry in entries
      modifies this`lists, this`entries, this`table
      ensures Valid() && IsMap() && entries == old(entries) - {entry} && table == old(table) - {entry.key}
      ensures lists == old(lists)[entry.hashIdx := Without(old(lists)[entry.hashIdx], entry)]
    {
      UnlinkEntry(entry);
      table := table - {entry.key};
    }

    // ---------- enumeration ----------

    ghost predicate Tracks(e: Enumerator<K>)
      reads this`lists, e
    {
      OnTrack(lists, e.data1, e.data2)
    }

    ghost function ToCome(e: Enumerator<K>): seq<Entry<K>>
      requires Tracks(e)
      reads this`lists, e
    {
      Pending(lists, e.data1, e.data2)
    }

    /** Past the ends of buckets, to the next entry if there is one. */
    static method SkipEnds(lists: seq<seq<Entry<K>>>, start: Cursor<Entry<K>>, from: nat)
      returns (curr: Cursor<Entry<K>>, hashIdx: nat)
      requires Separate(lists) && OnTrack(lists, start, from)
      ensures OnTrack(lists, curr, hashIdx) && Pending(lists, curr, hashIdx) == Pending(lists, start, from)
      ensures curr == Head(hashIdx) ==> Pending(lists, start, from) == []
    {
      curr, hashIdx := start, from;
      while curr == Head(hashIdx) && hashIdx < |lists| - 1
        invariant OnTrack(lists, curr, hashIdx) && Pending(lists, curr, hashIdx) == Pending(lists, start, from)
        decreases |lists| - hashIdx
      {
        NextBucket(lists, hashIdx);
        hashIdx := hashIdx + 1;
        curr := After(lists[hashIdx], hashIdx, Head(hashIdx));
      }
      if curr == Head(hashIdx) { assert lists[hashIdx + 1..] == []; }
    }

    method NextInLists(e: Enumerator<K>) returns (found: Entry?<K>)
      requires Separate(lists) && Tracks(e)
      modifies e
      ensures Tracks(e)
      ensures old(ToCome(e)) == (if found == null then [] else [found]) + ToCome(e)
      ensures old(Returned(lists, e.data1, e.data2)) == if found == null then None else Some(found)
      ensures if found == null then ToCome(e) == [] else found in lists[e.data2] && found !in ToCome(e)
    {
      ReturnedIsFirst(lists, e.data1, e.data2);
      var curr, hashIdx := SkipEnds(lists, e.data1, e.data2);
      if curr == Head(hashIdx) { return null; }
      PendingStep(lists, curr, hashIdx);
      e.data1 := After(lists[hashIdx], hashIdx, curr);
      e.data2 := hashIdx;
      found := curr.entry;
    }

    /** Removing an entry that was already returned does not disturb the enumeration. */
    method RemoveVisited(e: Enumerator<K>, x: Entry<K>)
      requires Valid() && IsMap() && Tracks(e) && x in entries && x !in ToCome(e)
      modifies this`lists, this`entries, this`table
      ensures Valid() && IsMap() && table == old(table) - {x.key}
      ensures Tracks(e) && ToCome(e) == old(ToCome(e))
    {
      AreSeparate();
      assert e.data1 != At(x) by { if e.data1.At? { RestAfter(lists[e.data2], e.data2, e.data1); } }
      PendingWithout(lists, e.data1, e.data2, x.hashIdx, x);
      Remove(x);
    }

    /** Whether x is the first entry still to come and in the bucket of the entry returned last. */
    ghost predicate IsNext(e: Enumerator<K>, last: K, x: Entry<K>)
      requires Tracks(e)
      reads this`lists, e, x
    {
      ToCome(e) != [] && ToCome(e)[0] == x && bucketOf(x.key) == bucketOf(last)
    }

    /** After an entry with key `last` has been returned: the enumerator returns an entry that has been
        removed in between exactly if that was the next one in the same bucket. */
    lemma ReturnsRemovedExactly(e: Enumerator<K>, last: K, x: Entry<K>)
      requires Valid() && Tracks(e) && e.data2 == bucketOf(last) && x in entries
      ensures Returned(lists[x.hashIdx := Without(lists[x.hashIdx], x)], e.data1, e.data2) == Some(x) <==> IsNext(e, last, x)
    {
      AreSeparate();
      SurvivesRemovalExactly(lists, e.data1, e.data2, x.hashIdx, x);
    }

    /** Any other entry can be removed, and just that one is not returned any more. */
    method RemoveOther(e: Enumerator<K>, last: K, x: Entry<K>)
      requires Valid() && IsMap() && Tracks(e) && e.data2 == bucketOf(last) && x in entries && !IsNext(e, last, x)
      modifies this`lists, this`entries, this`table
      ensures Valid() && IsMap() && table == old(table) - {x.key}
      ensures Tracks(e) && ToCome(e) == Without(old(ToCome(e)), x)
    {
      AreSeparate();
      SurvivesRemovalExactly(lists, e.data1, e.data2, x.hashIdx, x);
      Remove(x);
    }

    /** The table without the unwanted entries visited so far. */
    static ghost function Kept(table: map<K, Entry<K>>, visited: seq<Entry<K>>, unwanted: K -> bool): map<K, Entry<K>> {
      map k | k in table && !(table[k] in visited && unwanted(k)) :: table[k]
    }

    static ghost predicate Injective(table: map<K, Entry<K>>) {
      forall k, l :: k in table && l in table && table[k] == table[l] ==> k == l
    }

    lemma IsInjective()
      requires IsMap()
      ensures Injective(table)
    {
      assert forall k :: k in table ==> table[k].key == k;
    }

    static lemma KeptStep(table: map<K, Entry<K>>, visited: seq<Entry<K>>, unwanted: K -> bool, key: K)
      requires key in table && Injective(table)
      ensures var kept := Kept(table, visited, unwanted);
              Kept(table, visited + [table[key]], unwanted) == if unwanted(key) then kept - {key} else kept
    {
    }

    static lemma Regroup<E>(a: seq<E>, b: seq<E>, c: seq<E>, bc: seq<E>)
      requires bc == b + c
      ensures a + bc == a + b + c
    {
    }

    static lemma KeptAll(table: map<K, Entry<K>>, visited: seq<Entry<K>>, unwanted: K -> bool)
      requires forall k :: k in table ==> table[k] in visited
      ensures Kept(table, visited, unwanted) == map k | k in table && !unwanted(k) :: table[k]
    {
    }

    /** One round of a client loop: the entry just returned is removed if it is not wanted, and then
        the enumerator is asked for the next one. */
    method VisitOne(e: Enumerator<K>, x: Entry<K>, unwanted: K -> bool) returns (next: Entry?<K>)
      requires Valid() && IsMap() && Tracks(e) && x in entries && x !in ToCome(e)
      modifies this`lists, this`entries, this`table, e
      ensures Valid() && IsMap() && table == if unwanted(x.key) then old(table) - {x.key} else old(table)
      ensures Tracks(e) && old(ToCome(e)) == Todo(e, next)
      ensures if next == null then ToCome(e) == [] else next in entries && next !in ToCome(e)
    {
      if unwanted(x.key) { RemoveVisited(e, x); }
      next := EnumNext(e);
    }

    method EnumNext(e: Enumerator<K>) returns (next: Entry?<K>)
      requires Valid() && IsMap() && Tracks(e)
      modifies e
      ensures Valid() && IsMap()
      ensures Tracks(e) && old(ToCome(e)) == Todo(e, next)
      ensures if next == null then ToCome(e) == [] else next in entries && next !in ToCome(e)
      ensures next != null ==> e.data2 == bucketOf(next.key)
    {
      AreSeparate();
      assert forall x :: x in entries ==> x as object != e;
      next := NextInLists(e);
    }

    method EnumFirst(e: Enumerator<K>) returns (first: Entry?<K>)
      requires Valid() && IsMap()
      modifies e
      ensures Valid() && IsMap()
      ensures Tracks(e) && Flat(lists) == Todo(e, first)
      ensures if first == null then ToCome(e) == [] else first in entries && first !in ToCome(e)
      ensures first != null ==> e.data2 == bucketOf(first.key)
    {
      assert forall x :: x in entries ==> x as object != e;
      FirstIsFlat();
      e.data2 := 0;
      e.data1 := After(lists[0], 0, Head(0));
      first := EnumNext(e);
    }

    lemma FirstIsFlat()
      requires Valid()
      ensures OnTrack(lists, After(lists[0], 0, Head(0)), 0)
      ensures Pending(lists, After(lists[0], 0, Head(0)), 0) == Flat(lists)
    {
      RestAfter(lists[0], 0, Head(0));
    }

    /** What a client loop has still to visit: the entry it holds and those to come. */
    ghost function Todo(e: Enumerator<K>, held: Entry?<K>): seq<Entry<K>>
      requires Tracks(e)
      reads this`lists, e
    {
      (if held == null then [] else [held]) + ToCome(e)
    }

    /** The client loop: it removes the unwanted entries as they come, each before it asks for the next one. */
    method VisitRest(e: Enumerator<K>, first: Entry?<K>, unwanted: K -> bool) returns (visited: seq<Entry<K>>)
      requires Valid() && IsMap() && Tracks(e)
      requires if first == null then ToCome(e) == [] else first in entries && first !in ToCome(e)
      modifies this`lists, this`entries, this`table, e
      ensures Valid() && IsMap()
      ensures visited == old(Todo(e, first)) && table == Kept(old(table), visited, unwanted)
    {
      ghost var all, start := Todo(e, first), table;
      IsInjective();
      visited := [];
      var h := first;
      ghost var todo := all;
      while h != null
        invariant Valid() && IsMap() && Tracks(e)
        invariant table == Kept(start, visited, unwanted)
        invariant all == visited + todo && todo == Todo(e, h)
        invariant if h == null then ToCome(e) == [] else h in entries && h !in ToCome(e)
        decreases |todo|
      {
        var x: Entry<K> := h;
        ghost var key := x.key;
        assert table[key] == x;
        Regroup(visited, [x], ToCome(e), todo);
        todo := ToCome(e);
        h := VisitOne(e, x, unwanted);
        assert x.key == key;
        KeptStep(start, visited, unwanted, key);
        visited := visited + [x];
      }
    }

    method VisitAll(e: Enumerator<K>, unwanted: K -> bool) returns (visited: seq<Entry<K>>)
      requires Valid() && IsMap()
      modifies this`lists, this`entries, this`table, e
      ensures Valid() && IsMap()
      ensures visited == old(Flat(lists)) && table == Kept(old(table), visited, unwanted)
    {
      var first := EnumFirst(e);
      visited := VisitRest(e, first, unwanted);
    }

    lemma WholeTable(unwanted: K -> bool)
      requires Valid() && IsMap()
      ensures NoDup(Flat(lists)) && (set x | x in Flat(lists)) == entries
      ensures Kept(table, Flat(lists), unwanted) == map k | k in table && !unwanted(k) :: table[k]
    {
      AreSeparate();
      FlatNoDup(lists);
      FlatAreEntries();
      KeptAll(table, Flat(lists), unwanted);
    }

    /** Every entry is visited exactly once, and what is left is the map without the unwanted keys. */
    method RemoveWhile(e: Enumerator<K>, unwanted: K -> bool) returns (visited: seq<Entry<K>>)
      requires Valid() && IsMap()
      modifies this`lists, this`entries, this`table, e
      ensures NoDup(visited) && (set x | x in visited) == old(entries)
      ensures Valid() && IsMap()
      ensures table == map k | k in old(table) && !unwanted(k) :: old(table)[k]
    {
      WholeTable(unwanted);
      visited := VisitAll(e, unwanted);
    }
  }
}
