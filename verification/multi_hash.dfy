/** The hash that keeps several entries for one key: a finite map from keys to sequences of entries,
    and the finder that goes through one of those sequences. */
module MultiHash {
  import opened Common
  import opened HashLists
  import opened HashTable

  /** The keys that the entries of a hash have. */
  type Keys<!K> = map<Entry<K>, K>

  ghost function KeysOf<K(!new)>(t: Table<K>): Keys<K>
    reads t`entries, t.entries
  {
    map x | x in t.entries :: x.key
  }

  ghost predicate Has<K>(keys: Keys<K>, x: Entry<K>, key: K) { x in keys && keys[x] == key }

  /** The entries with the key, in order. */
  ghost function Matching<K>(s: seq<Entry<K>>, keys: Keys<K>, key: K): seq<Entry<K>> {
    if s == [] then []
    else (if Has(keys, s[0], key) then [s[0]] else []) + Matching(s[1..], keys, key)
  }

  /** What the hash holds for a key, oldest first. */
  ghost function Found<K(!new)>(t: Table<K>, key: K): seq<Entry<K>>
    requires t.Valid()
    reads t`lists, t`entries, t.entries
  {
    Matching(t.lists[t.bucketOf(key)], KeysOf(t), key)
  }

  lemma {:induction false} MatchingConcat<K>(a: seq<Entry<K>>, b: seq<Entry<K>>, keys: Keys<K>, key: K)
    ensures Matching(a + b, keys, key) == Matching(a, keys, key) + Matching(b, keys, key)
  {
    if a == [] {
      assert a + b == b;
    } else {
      MatchingConcat(a[1..], b, keys, key);
      assert (a + b)[0] == a[0] && (a + b)[1..] == a[1..] + b;
      var first := if Has(keys, a[0], key) then [a[0]] else [];
      Associative(first, Matching(a[1..], keys, key), Matching(b, keys, key));
    }
  }

  lemma MatchingPush<K>(s: seq<Entry<K>>, x: Entry<K>, keys: Keys<K>, key: K)
    ensures Matching(s + [x], keys, key) == Matching(s, keys, key) + if Has(keys, x, key) then [x] else []
  {
    MatchingConcat(s, [x], keys, key);
    assert [x][1..] == [];
  }

  lemma {:induction false} InMatching<K>(s: seq<Entry<K>>, keys: Keys<K>, key: K, x: Entry<K>)
    ensures x in Matching(s, keys, key) <==> x in s && Has(keys, x, key)
  {
    if s != [] { InMatching(s[1..], keys, key, x); }
  }

  lemma {:induction false} MatchingNoDup<K>(s: seq<Entry<K>>, keys: Keys<K>, key: K)
    requires NoDup(s)
    ensures NoDup(Matching(s, keys, key))
  {
    if s != [] {
      MatchingNoDup(s[1..], keys, key);
      InMatching(s[1..], keys, key, s[0]);
    }
  }

  /** The keys of entries outside the list do not matter. */
  lemma {:induction false} MatchingElsewhere<K>(s: seq<Entry<K>>, keys: Keys<K>, keys': Keys<K>, key: K)
    requires forall x :: x in s ==> (Has(keys, x, key) <==> Has(keys', x, key))
    ensures Matching(s, keys, key) == Matching(s, keys', key)
  {
    if s != [] { MatchingElsewhere(s[1..], keys, keys', key); }
  }

  /** Taking an entry out of a list takes it out of what the list holds for any key. */
  lemma MatchingWithout<K>(s: seq<Entry<K>>, keys: Keys<K>, key: K, x: Entry<K>)
    requires NoDup(s)
    ensures Matching(Without(s, x), keys - {x}, key) == Without(Matching(s, keys, key), x)
  {
    WithoutHas(s, x);
    MatchingElsewhere(Without(s, x), keys - {x}, keys, key);
    InMatching(s, keys, key, x);
    if x in s { MatchingSplit(s, keys, key, x); }
  }

  lemma MatchingSplit<K>(s: seq<Entry<K>>, keys: Keys<K>, key: K, x: Entry<K>)
    requires NoDup(s) && x in s
    ensures Matching(Without(s, x), keys, key) == Without(Matching(s, keys, key), x)
  {
    var i := Position(s, x);
    var a, d := s[..i], s[i + 1..];
    assert s == a + [x] + d;
    MatchingConcat(a, d, keys, key);
    MatchingConcat(a + [x], d, keys, key);
    MatchingPush(a, x, keys, key);
    InMatching(s, keys, key, x);
    if Has(keys, x, key) {
      InMatching(a, keys, key, x);
      WithoutIs(Matching(s, keys, key), x, Matching(a, keys, key), Matching(d, keys, key));
    }
  }

  /** Every entry of the hash is found under its own key and no other, and only once. */
  lemma FoundExactly<K(!new)>(t: Table<K>, key: K)
    requires t.Valid()
    ensures NoDup(Found(t, key))
    ensures forall x :: x in Found(t, key) <==> x in t.entries && x.key == key
  {
    var s := t.lists[t.bucketOf(key)];
    MatchingNoDup(s, KeysOf(t), key);
    forall x ensures x in Found(t, key) <==> x in t.entries && x.key == key {
      InMatching(s, KeysOf(t), key, x);
    }
  }

  // ---------- insert and remove ----------

  /** The key finds the entry behind what it found before; the other keys find what they found. */
  method Insert<K(==,!new)>(t: Table<K>, key: K, entry: Entry<K>)
    requires t.Valid() && entry !in t.entries
    modifies t`lists, t`entries, entry
    ensures t.Valid() && t.entries == old(t.entries) + {entry}
    ensures forall k :: Found(t, k) == old(Found(t, k)) + if k == key then [entry] else []
  {
    ghost var lists, keys := t.lists, KeysOf(t);
    t.LinkEntry(key, entry);
    assert KeysOf(t) == keys[entry := key];
    forall k ensures Found(t, k) == old(Found(t, k)) + if k == key then [entry] else [] {
      var s := lists[t.bucketOf(k)];
      MatchingElsewhere(s, keys, KeysOf(t), k);
      MatchingPush(s, entry, KeysOf(t), k);
    }
  }

  method Remove<K(==,!new)>(t: Table<K>, entry: Entry<K>)
    requires t.Valid() && entry in t.entries
    modifies t`lists, t`entries
    ensures t.Valid() && t.entries == old(t.entries) - {entry}
    ensures forall k :: Found(t, k) == Without(old(Found(t, k)), entry)
  {
    ghost var lists, keys := t.lists, KeysOf(t);
    t.UnlinkEntry(entry);
    assert KeysOf(t) == keys - {entry};
    forall k ensures Found(t, k) == Without(old(Found(t, k)), entry) {
      MatchingWithout(lists[t.bucketOf(k)], keys, k, entry);
    }
  }

  // ---------- the finder ----------

  /** The finder stands in the bucket of its key. */
  ghost predicate Finds<K(!new)>(t: Table<K>, key: K, f: Enumerator<K>)
    reads t`lists, f
  {
    f.data2 == t.bucketOf(key) && OnTrack(t.lists, f.data1, f.data2)
  }

  /** What the finder will still return. */
  ghost function ToFind<K(!new)>(t: Table<K>, key: K, f: Enumerator<K>): seq<Entry<K>>
    requires Finds(t, key, f)
    reads t`lists, t`entries, t.entries, f
  {
    Matching(Rest(t.lists[f.data2], f.data1), KeysOf(t), key)
  }

  /** The entry a client holds, if any, before those to come. */
  function Held<K>(held: Entry?<K>, others: seq<Entry<K>>): seq<Entry<K>> {
    if held == null then others else [held] + others
  }

  /** What is known of an entry the finder has just returned, and of those to come if it returned none. */
  ghost predicate Given<K>(keys: Keys<K>, key: K, x: Entry?<K>, others: seq<Entry<K>>) {
    if x == null then others == [] else Has(keys, x, key) && x !in others
  }

  method FindFirst<K(==,!new)>(t: Table<K>, key: K, f: Enumerator<K>) returns (found: Entry?<K>)
    requires t.Valid()
    modifies f
    ensures t.Valid() && Finds(t, key, f) && Given(KeysOf(t), key, found, ToFind(t, key, f))
    ensures Found(t, key) == Held(found, ToFind(t, key, f))
  {
    var b := t.bucketOf(key);
    RestAfter(t.lists[b], b, Head(b));
    MoveTo(f, b, After(t.lists[b], b, Head(b)), t, key);
    assert Rest(t.lists[f.data2], f.data1) == t.lists[b];
    ghost var all := Found(t, key);
    assert ToFind(t, key, f) == all;
    found := FindNext(t, key, f);
    assert all == Held(found, ToFind(t, key, f));
  }

  method FindNext<K(==,!new)>(t: Table<K>, key: K, f: Enumerator<K>) returns (found: Entry?<K>)
    requires t.Valid() && Finds(t, key, f)
    modifies f
    ensures t.Valid() && Finds(t, key, f) && Given(KeysOf(t), key, found, ToFind(t, key, f))
    ensures old(ToFind(t, key, f)) == Held(found, ToFind(t, key, f))
  {
    var next;
    found, next := FindInBucket(t.lists[f.data2], f.data2, f.data1, key, KeysOf(t));
    MoveTo(f, f.data2, next, t, key);
  }

  /** Writing the finder changes nothing else. */
  method MoveTo<K(!new)>(f: Enumerator<K>, bucket: nat, c: Cursor<Entry<K>>, ghost t: Table<K>, ghost key: K)
    requires t.Valid() && bucket == t.bucketOf(key) && OnTrack(t.lists, c, bucket)
    modifies f
    ensures t.Valid() && f.data1 == c && f.data2 == bucket && KeysOf(t) == old(KeysOf(t))
  {
    assert forall x :: x in t.entries ==> x as object != f;
    f.data1 := c;
    f.data2 := bucket;
  }

  ghost predicate OnList<K>(list: seq<Entry<K>>, bucket: nat, c: Cursor<Entry<K>>) {
    if c.Head? then c == Head(bucket) else c.entry in list
  }

  method FindInBucket<K(==,!new)>(list: seq<Entry<K>>, bucket: nat, start: Cursor<Entry<K>>, key: K, ghost keys: Keys<K>)
    returns (found: Entry?<K>, next: Cursor<Entry<K>>)
    requires NoDup(list) && OnList(list, bucket, start)
    requires forall x :: x in list ==> x in keys && keys[x] == x.key
    ensures OnList(list, bucket, next) && Given(keys, key, found, Matching(Rest(list, next), keys, key))
    ensures Matching(Rest(list, start), keys, key) == Held(found, Matching(Rest(list, next), keys, key))
  {
    var curr := SkipOthers(list, bucket, start, key, keys);
    if curr == Head(bucket) { return null, start; }
    Passed(list, bucket, curr.entry, keys, key);
    next := After(list, bucket, curr);
    found := curr.entry;
  }

  /** To the next entry of the bucket that has the key, if there is one. */
  method SkipOthers<K(==)>(list: seq<Entry<K>>, bucket: nat, start: Cursor<Entry<K>>, key: K, ghost keys: Keys<K>)
    returns (curr: Cursor<Entry<K>>)
    requires NoDup(list) && OnList(list, bucket, start)
    requires forall x :: x in list ==> x in keys && keys[x] == x.key
    ensures OnList(list, bucket, curr) && (curr.At? ==> Has(keys, curr.entry, key))
    ensures Matching(Rest(list, curr), keys, key) == Matching(Rest(list, start), keys, key)
  {
    curr := start;
    while curr != Head(bucket)
      invariant OnList(list, bucket, curr)
      invariant Matching(Rest(list, curr), keys, key) == Matching(Rest(list, start), keys, key)
      decreases |Rest(list, curr)|
    {
      RestAfter(list, bucket, curr);
      if curr.entry.key == key { break; }
      curr := After(list, bucket, curr);
    }
  }

  /** Behind an entry with the key, the finder has that entry behind it and still finds the others. */
  lemma Passed<K>(list: seq<Entry<K>>, bucket: nat, entry: Entry<K>, keys: Keys<K>, key: K)
    requires NoDup(list) && entry in list && Has(keys, entry, key)
    ensures var n := After(list, bucket, At(entry));
            && OnList(list, bucket, n)
            && Matching(Rest(list, At(entry)), keys, key) == [entry] + Matching(Rest(list, n), keys, key)
            && entry !in Matching(Rest(list, n), keys, key)
  {
    var i := Position(list, entry);
    AfterAt(list, bucket, i);
    RestAfter(list, bucket, At(entry));
    InMatching(Rest(list, After(list, bucket, At(entry))), keys, key, entry);
  }

  // ---------- finding while removing ----------

  /** Removing an entry that was already returned does not disturb the finder. */
  method RemoveFound<K(==,!new)>(t: Table<K>, key: K, f: Enumerator<K>, x: Entry<K>)
    requires t.Valid() && Finds(t, key, f) && Given(KeysOf(t), key, x, ToFind(t, key, f))
    modifies t`lists, t`entries
    ensures t.Valid() && t.entries == old(t.entries) - {x}
    ensures Finds(t, key, f) && ToFind(t, key, f) == old(ToFind(t, key, f))
  {
    ghost var list, keys := t.lists[f.data2], KeysOf(t);
    StaysOnList(list, f.data1, keys, key, x);
    t.UnlinkEntry(x);
    assert KeysOf(t) == keys - {x};
    assert t.lists[f.data2] == Without(list, x);
  }

  lemma StaysOnList<K>(list: seq<Entry<K>>, c: Cursor<Entry<K>>, keys: Keys<K>, key: K, x: Entry<K>)
    requires NoDup(list) && x in list && (c.At? ==> c.entry in list) && Has(keys, x, key)
    requires x !in Matching(Rest(list, c), keys, key)
    ensures c.At? ==> c.entry in Without(list, x)
    ensures Matching(Rest(Without(list, x), c), keys - {x}, key) == Matching(Rest(list, c), keys, key)
  {
    NotAhead(Rest(list, c), keys, key, x);
    RestKept(list, c, x);
  }

  lemma NotAhead<K>(s: seq<Entry<K>>, keys: Keys<K>, key: K, x: Entry<K>)
    requires Has(keys, x, key) && x !in Matching(s, keys, key)
    ensures x !in s && Matching(s, keys - {x}, key) == Matching(s, keys, key)
  {
    InMatching(s, keys, key, x);
    MatchingElsewhere(s, keys - {x}, keys, key);
  }

  lemma RestKept<K>(list: seq<Entry<K>>, c: Cursor<Entry<K>>, x: Entry<K>)
    requires NoDup(list) && x in list && (c.At? ==> c.entry in list) && x !in Rest(list, c)
    ensures c.At? ==> c.entry in Without(list, x)
    ensures Rest(Without(list, x), c) == Rest(list, c)
  {
    if c.At? { RestAfter(list, 0, c); }
    RestWithout(list, c, x);
  }

  /** One round of a client loop that empties the hash of a key. */
  method RemoveRound<K(==,!new)>(t: Table<K>, key: K, f: Enumerator<K>, x: Entry<K>) returns (next: Entry?<K>)
    requires t.Valid() && Finds(t, key, f) && Given(KeysOf(t), key, x, ToFind(t, key, f))
    modifies t`lists, t`entries, f
    ensures t.Valid() && t.entries == old(t.entries) - {x}
    ensures Finds(t, key, f) && Given(KeysOf(t), key, next, ToFind(t, key, f))
    ensures old(ToFind(t, key, f)) == Held(next, ToFind(t, key, f))
  {
    RemoveFound(t, key, f, x);
    next := FindNext(t, key, f);
  }

  lemma OneMore<K>(x: Entry<K>, s: seq<Entry<K>>)
    ensures Elements([x] + s) == {x} + Elements(s)
  {
  }

  /** The entries of the hash with other keys. */
  ghost function Others<K(!new)>(t: Table<K>, key: K): set<Entry<K>>
    reads t`entries, t.entries
  {
    set x | x in t.entries && x.key != key
  }

  lemma OthersExactly<K(!new)>(t: Table<K>, key: K)
    requires t.Valid()
    ensures t.entries - Elements(Found(t, key)) == Others(t, key)
  {
    FoundExactly(t, key);
  }

  /** A client that removes each entry before it asks the finder for the next one. */
  method RemoveRest<K(==,!new)>(t: Table<K>, key: K, f: Enumerator<K>, x: Entry?<K>) returns (removed: seq<Entry<K>>)
    requires t.Valid() && Finds(t, key, f) && Given(KeysOf(t), key, x, ToFind(t, key, f))
    modifies t`lists, t`entries, f
    ensures t.Valid() && removed == old(Held(x, ToFind(t, key, f)))
    ensures t.entries == old(t.entries) - Elements(removed)
    decreases |Held(x, ToFind(t, key, f))|
  {
    if x == null { return []; }
    var next := RemoveRound(t, key, f, x);
    removed := RemoveRest(t, key, f, next);
    OneMore(x, removed);
    removed := [x] + removed;
  }

  /** It gets everything the key has, in order, and takes just that out of the hash. */
  method RemoveKey<K(==,!new)>(t: Table<K>, key: K, f: Enumerator<K>) returns (removed: seq<Entry<K>>)
    requires t.Valid()
    modifies t`lists, t`entries, f
    ensures t.Valid() && removed == old(Found(t, key)) && t.entries == old(Others(t, key))
  {
    OthersExactly(t, key);
    var h := FindFirst(t, key, f);
    removed := RemoveRest(t, key, f, h);
  }
}
