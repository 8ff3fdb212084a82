/** Doubly linked lists as the hash uses them: bucket contents as sequences, and cursors that stand
    on an entry or on the head of a bucket. */
module HashLists {
  import opened Common

  /** A list pointer: the head of a bucket, or an entry. */
  datatype Cursor<E> = Head(bucket: nat) | At(entry: E)

  /** mtlk_dlist_next in the list of the given bucket. */
  function After<E(==)>(s: seq<E>, bucket: nat, c: Cursor<E>): Cursor<E>
    requires c.At? ==> c.entry in s
  {
    var i := if c.Head? then 0 else Position(s, c.entry) + 1;
    if i < |s| then At(s[i]) else Head(bucket)
  }

  /** The cursor on the i-th entry of a bucket, or behind its last one. */
  function CursorAt<E>(s: seq<E>, bucket: nat, i: nat): Cursor<E> {
    if i < |s| then At(s[i]) else Head(bucket)
  }

  lemma AfterAt<E>(s: seq<E>, bucket: nat, i: nat)
    requires NoDup(s) && i < |s|
    ensures Position(s, s[i]) == i && After(s, bucket, At(s[i])) == CursorAt(s, bucket, i + 1)
  {
  }

  /** mtlk_dlist_remove. */
  function Without<E(==)>(s: seq<E>, x: E): seq<E> {
    if x in s then var i := Position(s, x); s[..i] + s[i + 1..] else s
  }

  lemma WithoutHas<E>(s: seq<E>, x: E)
    requires NoDup(s)
    ensures NoDup(Without(s, x)) && forall y :: y in Without(s, x) <==> y in s && y != x
  {
    if x in s {
      var i := Position(s, x);
      assert s == s[..i] + [x] + s[i + 1..];
    }
  }

  lemma WithoutConcat<E>(s: seq<E>, t: seq<E>, x: E)
    requires x !in s || x !in t
    ensures Without(s + t, x) == Without(s, x) + Without(t, x)
  {
    if x in s {
      var i := Position(s, x);
      assert s + t == s[..i] + [x] + (s[i + 1..] + t);
      WithoutIs(s + t, x, s[..i], s[i + 1..] + t);
      assert s[..i] + s[i + 1..] + t == s[..i] + (s[i + 1..] + t);
    } else if x in t {
      var i := Position(t, x);
      assert s + t == (s + t[..i]) + [x] + t[i + 1..];
      WithoutIs(s + t, x, s + t[..i], t[i + 1..]);
      assert s + t[..i] + t[i + 1..] == s + (t[..i] + t[i + 1..]);
    }
  }

  lemma WithoutIs<E>(s: seq<E>, x: E, before: seq<E>, behind: seq<E>)
    requires s == before + [x] + behind && x !in before
    ensures Without(s, x) == before + behind
  {
    assert s[|before|] == x;
    var p := Position(s, x);
    assert forall k :: 0 <= k < |before| ==> s[k] == before[k];
    assert forall k :: 0 <= k < p ==> s[..p][k] == s[k];
    assert p == |before|;
  }

  lemma NotAgain<E>(before: seq<E>, x: E, behind: seq<E>)
    requires NoDup(before + [x] + behind)
    ensures x !in before && x !in behind
  {
    var all := before + [x] + behind;
    assert forall i :: 0 <= i < |before| ==> all[i] == before[i];
    assert forall i :: 0 <= i < |behind| ==> all[|before| + 1 + i] == behind[i];
    assert all[|before|] == x;
  }

  // ---------- what a cursor still has to pass ----------

  /** The entries of a bucket from the cursor on. */
  function Rest<E(==)>(s: seq<E>, c: Cursor<E>): seq<E>
    requires c.At? ==> c.entry in s
  {
    if c.Head? then [] else s[Position(s, c.entry)..]
  }

  lemma RestAfter<E>(s: seq<E>, bucket: nat, c: Cursor<E>)
    requires NoDup(s) && (c.At? ==> c.entry in s)
    ensures var n := After(s, bucket, c);
            (n.Head? ==> n.bucket == bucket) && (n.At? ==> n.entry in s)
            && Rest(s, n) == if c.Head? then s else Rest(s, c)[1..]
    ensures c.At? ==> Rest(s, c) != [] && Rest(s, c)[0] == c.entry
  {
    var n := After(s, bucket, c);
    if n.At? {
      var i := if c.Head? then 0 else Position(s, c.entry) + 1;
      assert Position(s, n.entry) == i;
    }
  }

  /** Removing another entry leaves a cursor where it is; what it has to pass loses that entry. */
  lemma RestWithout<E>(s: seq<E>, c: Cursor<E>, x: E)
    requires NoDup(s) && (c.At? ==> c.entry in s) && c != At(x)
    ensures c.At? ==> c.entry in Without(s, x)
    ensures Rest(Without(s, x), c) == Without(Rest(s, c), x)
  {
    if c.At? && x in s {
      var p := Position(s, c.entry);
      var a, d := s[..p], s[p + 1..];
      assert s == a + ([c.entry] + d) && s[p..] == [c.entry] + d;
      WithoutAround(a, c.entry, d, x);
      WithoutSubset(a, x);
      var a', d' := Without(a, x), Without(d, x);
      PositionIs(a' + ([c.entry] + d'), c.entry, |a'|);
    }
  }

  lemma WithoutAround<E>(a: seq<E>, e: E, d: seq<E>, x: E)
    requires NoDup(a + ([e] + d)) && x != e
    ensures Without(a + ([e] + d), x) == Without(a, x) + ([e] + Without(d, x))
    ensures Without([e] + d, x) == [e] + Without(d, x)
  {
    var s := a + ([e] + d);
    assert forall i :: 0 <= i < |a| ==> s[i] == a[i];
    assert forall i :: 0 <= i < |[e] + d| ==> s[|a| + i] == ([e] + d)[i];
    WithoutConcat(a, [e] + d, x);
    WithoutConcat([e], d, x);
  }

  lemma WithoutSubset<E>(s: seq<E>, x: E)
    ensures forall y :: y in Without(s, x) ==> y in s
  {
  }

  lemma PositionIs<E>(s: seq<E>, x: E, i: nat)
    requires i < |s| && s[i] == x && x !in s[..i]
    ensures x in s && Position(s, x) == i
  {
    var p := Position(s, x);
    assert forall k :: 0 <= k < i ==> s[..i][k] == s[k];
    assert forall k :: 0 <= k < p ==> s[..p][k] == s[k];
  }

  // ---------- all buckets ----------

  function Flat<E>(lists: seq<seq<E>>): seq<E> {
    if lists == [] then [] else lists[0] + Flat(lists[1..])
  }

  /** No entry is in two places. */
  ghost predicate Separate<E>(lists: seq<seq<E>>) {
    && (forall i :: 0 <= i < |lists| ==> NoDup(lists[i]))
    && (forall i, j, x :: 0 <= i < j < |lists| && x in lists[i] ==> x !in lists[j])
  }

  lemma {:induction false} InFlat<E>(lists: seq<seq<E>>, x: E)
    ensures x in Flat(lists) <==> exists i :: 0 <= i < |lists| && x in lists[i]
  {
    if lists != [] {
      InFlat(lists[1..], x);
      if x in Flat(lists[1..]) {
        var i :| 0 <= i < |lists| - 1 && x in lists[1..][i];
        assert x in lists[i + 1];
      }
      if i :| 0 <= i < |lists| && x in lists[i] {
        if i > 0 { assert x in lists[1..][i - 1]; }
      }
    }
  }

  lemma {:induction false} FlatNoDup<E>(lists: seq<seq<E>>)
    requires Separate(lists)
    ensures NoDup(Flat(lists))
  {
    if lists != [] {
      FlatNoDup(lists[1..]);
      forall x | x in lists[0] ensures x !in Flat(lists[1..]) { InFlat(lists[1..], x); }
      var a, b := lists[0], Flat(lists[1..]);
      forall i, j | 0 <= i < j < |a + b| ensures (a + b)[i] != (a + b)[j] {
        if i < |a| <= j { assert (a + b)[i] in a && (a + b)[j] in b; }
      }
    }
  }

  lemma {:induction false} FlatWithout<E>(lists: seq<seq<E>>, b: nat, x: E)
    requires Separate(lists) && b < |lists| && x in lists[b]
    ensures Flat(lists[b := Without(lists[b], x)]) == Without(Flat(lists), x)
  {
    InFlat(lists[1..], x);
    WithoutConcat(lists[0], Flat(lists[1..]), x);
    if b == 0 {
      assert lists[b := Without(lists[b], x)][1..] == lists[1..];
    } else {
      assert x in lists[1..][b - 1];
      FlatWithout(lists[1..], b - 1, x);
      assert lists[b := Without(lists[b], x)][1..] == lists[1..][b - 1 := Without(lists[b], x)];
      assert x !in lists[0];
    }
  }

  // ---------- the enumerator ----------

  /** The cursor stands in bucket b. */
  ghost predicate OnTrack<E>(lists: seq<seq<E>>, c: Cursor<E>, b: nat) {
    b < |lists| && (c == Head(b) || (c.At? && c.entry in lists[b]))
  }

  /** What an enumeration still has to return. */
  ghost function Pending<E>(lists: seq<seq<E>>, c: Cursor<E>, b: nat): seq<E>
    requires OnTrack(lists, c, b)
  {
    Rest(lists[b], c) + Flat(lists[b + 1..])
  }

  lemma NextBucket<E>(lists: seq<seq<E>>, b: nat)
    requires Separate(lists) && b + 1 < |lists|
    ensures OnTrack(lists, After(lists[b + 1], b + 1, Head(b + 1)), b + 1)
    ensures Pending(lists, After(lists[b + 1], b + 1, Head(b + 1)), b + 1) == Pending(lists, Head(b), b)
  {
    RestAfter(lists[b + 1], b + 1, Head(b + 1));
    assert lists[b + 1..] == [lists[b + 1]] + lists[b + 2..];
  }

  lemma Elsewhere<E>(lists: seq<seq<E>>, at: nat, b: nat, x: E)
    requires Separate(lists) && at < |lists| && b < |lists| && x in lists[at]
    ensures at != b ==> x !in lists[b]
    ensures at <= b ==> x !in Flat(lists[b + 1..])
  {
    InFlat(lists[b + 1..], x);
  }

  lemma PendingNoDup<E>(lists: seq<seq<E>>, c: Cursor<E>, b: nat)
    requires Separate(lists) && OnTrack(lists, c, b)
    ensures NoDup(Pending(lists, c, b))
  {
    var tail := lists[b + 1..];
    FlatNoDup(tail);
    var a, d := Rest(lists[b], c), Flat(tail);
    forall i, j | 0 <= i < j < |a + d| ensures (a + d)[i] != (a + d)[j] {
      if i < |a| <= j { assert (a + d)[i] in lists[b]; InFlat(tail, (a + d)[i]); assert (a + d)[j] in d; }
    }
  }

  /** Stepping over an entry returns it for good: it is not pending any more. */
  lemma PendingStep<E>(lists: seq<seq<E>>, c: Cursor<E>, b: nat)
    requires Separate(lists) && OnTrack(lists, c, b) && c.At?
    ensures var n := After(lists[b], b, c);
            OnTrack(lists, n, b) && Pending(lists, c, b) == [c.entry] + Pending(lists, n, b)
            && c.entry !in Pending(lists, n, b)
  {
    PendingNoDup(lists, c, b);
    RestAfter(lists[b], b, c);
    SplitFirst(Rest(lists[b], c), Flat(lists[b + 1..]));
    NotAgain([], c.entry, Pending(lists, After(lists[b], b, c), b));
  }

  lemma SplitFirst<E>(s: seq<E>, t: seq<E>)
    requires s != []
    ensures s + t == [s[0]] + (s[1..] + t) && s + t == [] + [s[0]] + (s[1..] + t)
  {
    assert s == [s[0]] + s[1..];
  }

  /** Removing any entry but the one under the cursor takes just that entry out of what is pending,
      so an entry that was already returned can be removed without losing or repeating another. */
  lemma PendingWithout<E>(lists: seq<seq<E>>, c: Cursor<E>, b: nat, at: nat, x: E)
    requires Separate(lists) && OnTrack(lists, c, b) && at < |lists| && x in lists[at] && c != At(x)
    ensures OnTrack(lists[at := Without(lists[at], x)], c, b)
    ensures Pending(lists[at := Without(lists[at], x)], c, b) == Without(Pending(lists, c, b), x)
  {
    Elsewhere(lists, at, b, x);
    if at <= b {
      PendingWithoutHere(lists, c, b, at, x);
    } else {
      SeparateLater(lists, b + 1);
      FlatWithout(lists[b + 1..], at - b - 1, x);
      PendingWithoutLater(lists, c, b, at, x);
    }
  }

  /** What the enumerator returns next: the entry under its cursor, whether that is linked or not, or
      else the first entry of the later buckets. */
  ghost function Returned<E>(lists: seq<seq<E>>, c: Cursor<E>, b: nat): Option<E>
    requires b < |lists|
  {
    var later := Flat(lists[b + 1..]);
    if c.At? then Some(c.entry) else if later == [] then None else Some(later[0])
  }

  lemma ReturnedIsFirst<E>(lists: seq<seq<E>>, c: Cursor<E>, b: nat)
    requires Separate(lists) && OnTrack(lists, c, b)
    ensures var pending := Pending(lists, c, b);
            Returned(lists, c, b) == if pending == [] then None else Some(pending[0])
  {
    RestAfter(lists[b], b, c);
  }

  lemma FirstInBucket<E>(lists: seq<seq<E>>, c: Cursor<E>, b: nat, at: nat, x: E)
    requires Separate(lists) && OnTrack(lists, c, b) && at < |lists| && x in lists[at]
    ensures c == At(x) <==> Pending(lists, c, b) != [] && Pending(lists, c, b)[0] == x && at == b
  {
    Elsewhere(lists, at, b, x);
    RestAfter(lists[b], b, c);
    if c.Head? && Pending(lists, c, b) != [] { assert Pending(lists, c, b)[0] in Flat(lists[b + 1..]); }
  }

  /** The one removal an enumerator does not survive is that of the first entry still to come, if it is
      in the current bucket: the removed entry is what the next call returns. Any other removal takes
      just that entry out of what is to come. */
  lemma SurvivesRemovalExactly<E>(lists: seq<seq<E>>, c: Cursor<E>, b: nat, at: nat, x: E)
    requires Separate(lists) && OnTrack(lists, c, b) && at < |lists| && x in lists[at]
    ensures var (after, pending) := (lists[at := Without(lists[at], x)], Pending(lists, c, b));
            var next := pending != [] && pending[0] == x && at == b;
            && (Returned(after, c, b) == Some(x) <==> next)
            && (!next ==> OnTrack(after, c, b) && Pending(after, c, b) == Without(pending, x))
  {
    FirstInBucket(lists, c, b, at, x);
    if c != At(x) {
      var after := lists[at := Without(lists[at], x)];
      PendingWithout(lists, c, b, at, x);
      PendingNoDup(lists, c, b);
      WithoutHas(Pending(lists, c, b), x);
      SeparateWithout(lists, at, x);
      ReturnedIsFirst(after, c, b);
    }
  }

  lemma SeparateWithout<E>(lists: seq<seq<E>>, at: nat, x: E)
    requires Separate(lists) && at < |lists|
    ensures Separate(lists[at := Without(lists[at], x)])
  {
    WithoutHas(lists[at], x);
    WithoutSubset(lists[at], x);
  }

  lemma SeparateLater<E>(lists: seq<seq<E>>, b: nat)
    requires Separate(lists) && b <= |lists|
    ensures Separate(lists[b..])
  {
  }

  lemma PendingWithoutHere<E>(lists: seq<seq<E>>, c: Cursor<E>, b: nat, at: nat, x: E)
    requires at <= b && OnTrack(lists, c, b) && x in lists[at] && c != At(x)
    requires NoDup(lists[b]) && x !in Flat(lists[b + 1..]) && (at != b ==> x !in lists[b])
    ensures OnTrack(lists[at := Without(lists[at], x)], c, b)
    ensures Pending(lists[at := Without(lists[at], x)], c, b) == Without(Pending(lists, c, b), x)
  {
    assert lists[at := Without(lists[at], x)][b + 1..] == lists[b + 1..];
    RestWithout(lists[b], c, x);
    WithoutConcat(Rest(lists[b], c), Flat(lists[b + 1..]), x);
  }

  lemma PendingWithoutLater<E>(lists: seq<seq<E>>, c: Cursor<E>, b: nat, at: nat, x: E)
    requires b < at < |lists| && OnTrack(lists, c, b) && x !in lists[b]
    requires Flat(lists[b + 1..][at - b - 1 := Without(lists[at], x)]) == Without(Flat(lists[b + 1..]), x)
    ensures OnTrack(lists[at := Without(lists[at], x)], c, b)
    ensures Pending(lists[at := Without(lists[at], x)], c, b) == Without(Pending(lists, c, b), x)
  {
    UpdateTail(lists, b, at, Without(lists[at], x));
    WithoutRight(Rest(lists[b], c), Flat(lists[b + 1..]), x);
  }

  lemma UpdateTail<T>(s: seq<T>, b: nat, at: nat, v: T)
    requires b < at < |s|
    ensures s[at := v][b] == s[b] && s[at := v][b + 1..] == s[b + 1..][at - b - 1 := v]
  {
  }

  lemma WithoutRight<E>(s: seq<E>, t: seq<E>, x: E)
    requires x !in s
    ensures Without(s + t, x) == s + Without(t, x)
  {
    WithoutConcat(s, t, x);
  }
}
