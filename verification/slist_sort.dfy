/** Insertion sort on a singly linked list, with a front cursor that falls back to the insertion
    point after each move. */
module SlistSort {
  import opened Common

  class Node<T> {
    var next: Node?<T>
    const value: T

    constructor (value: T)
      ensures next == null && this.value == value
    {
      next := null;
      this.value := value;
    }
  }

  type Less<!T> = (T, T) -> bool

  /** Asymmetric, and whatever lies between a smaller and a larger element differs from one of them. */
  ghost predicate StrictWeakOrder<T(!new)>(less: Less<T>) {
    && (forall x, y :: less(x, y) ==> !less(y, x))
    && (forall x, y, z :: less(x, z) ==> less(x, y) || less(y, z))
  }

  /** The links from `first` run through exactly these nodes, to the end of the list. */
  ghost predicate Linked<T>(first: Node?<T>, s: seq<Node<T>>)
    reads s
  {
    && first == (if s == [] then null else s[0])
    && (forall i :: 0 <= i < |s| - 1 ==> s[i].next == s[i + 1])
    && (s != [] ==> s[|s| - 1].next == null)
  }

  ghost predicate SortedTo<T>(less: Less<T>, s: seq<Node<T>>, k: nat)
    requires k <= |s|
  {
    forall i, j :: 0 <= i < j < k ==> !less(s[j].value, s[i].value)
  }

  ghost predicate Equivalent<T>(less: Less<T>, x: T, y: T) { !less(x, y) && !less(y, x) }

  /** Equivalent elements are in the order they had in s0. */
  ghost predicate Stable<T>(less: Less<T>, s0: seq<Node<T>>, s: seq<Node<T>>)
    requires forall x :: x in s ==> x in s0
  {
    forall i, j {:trigger Position(s0, s[i]), Position(s0, s[j])} ::
      0 <= i < j < |s| && Equivalent(less, s[i].value, s[j].value) ==> Position(s0, s[i]) < Position(s0, s[j])
  }

  ghost predicate SameNodes<T>(s0: seq<Node<T>>, s: seq<Node<T>>) {
    multiset(s) == multiset(s0) && NoDup(s) && |s| == |s0| && (forall x | x in s :: x in s0)
  }

  ghost predicate IsStableSort<T>(less: Less<T>, s0: seq<Node<T>>, s: seq<Node<T>>) {
    SameNodes(s0, s) && SortedTo(less, s, |s|) && Stable(less, s0, s)
  }

  // ---------- moving the front element ----------

  ghost function Moved<T>(s: seq<Node<T>>, f: nat, r: nat): seq<Node<T>>
    requires r < f < |s|
  {
    s[..r] + [s[f]] + s[r..f] + s[f + 1..]
  }

  lemma MovedNodes<T>(s: seq<Node<T>>, f: nat, r: nat)
    requires r < f < |s|
    ensures multiset(Moved(s, f, r)) == multiset(s) && |Moved(s, f, r)| == |s|
    ensures forall x :: x in Moved(s, f, r) <==> x in s
  {
    assert s == s[..r] + s[r..f] + [s[f]] + s[f + 1..];
    assert forall x :: x in multiset(Moved(s, f, r)) <==> x in multiset(s);
  }

  /** Where the node at index i of the new list was before. */
  ghost function Before(f: nat, r: nat, i: nat): nat
    requires r < f
  {
    if i == r then f else if r < i <= f then i - 1 else i
  }

  lemma MovedAt<T>(s: seq<Node<T>>, f: nat, r: nat, i: nat)
    requires r < f < |s| && i < |s|
    ensures |Moved(s, f, r)| == |s| && Moved(s, f, r)[i] == s[Before(f, r, i)]
  {
  }

  lemma MovedDistinct<T>(s: seq<Node<T>>, f: nat, r: nat)
    requires r < f < |s| && NoDup(s)
    ensures |Moved(s, f, r)| == |s| && NoDup(Moved(s, f, r))
  {
    forall i, j | 0 <= i < j < |s| ensures Moved(s, f, r)[i] != Moved(s, f, r)[j] {
      MovedAt(s, f, r, i);
      MovedAt(s, f, r, j);
    }
  }

  /** The moved element is smaller than everything it jumped over, so order and stability survive. */
  lemma MovedStaysSorted<T(!new)>(less: Less<T>, s0: seq<Node<T>>, s: seq<Node<T>>, f: nat, r: nat)
    requires StrictWeakOrder(less) && r < f < |s| && SortedTo(less, s, f) && less(s[f].value, s[r].value)
    requires forall i :: 0 <= i < r ==> !less(s[f].value, s[i].value)
    requires (forall x :: x in s ==> x in s0) && Stable(less, s0, s)
    ensures |Moved(s, f, r)| == |s| && SortedTo(less, Moved(s, f, r), f + 1)
    ensures (forall x :: x in Moved(s, f, r) ==> x in s0) && Stable(less, s0, Moved(s, f, r))
  {
    var m := Moved(s, f, r);
    MovedNodes(s, f, r);
    forall i | r <= i < f ensures less(s[f].value, s[i].value) {
      if i > r { assert !less(s[i].value, s[r].value); }
    }
    forall i, j | 0 <= i < j < f + 1 ensures !less(m[j].value, m[i].value) {
      MovedAt(s, f, r, i);
      MovedAt(s, f, r, j);
    }
    forall i, j | 0 <= i < j < |m| && Equivalent(less, m[i].value, m[j].value)
      ensures Position(s0, m[i]) < Position(s0, m[j])
    {
      MovedAt(s, f, r, i);
      MovedAt(s, f, r, j);
    }
  }

  /** Sorted up to `sorted`, and a stable rearrangement of s0 throughout. */
  ghost predicate PartlySorted<T>(less: Less<T>, s0: seq<Node<T>>, s: seq<Node<T>>, sorted: nat) {
    SameNodes(s0, s) && sorted <= |s| && SortedTo(less, s, sorted) && Stable(less, s0, s)
  }

  /** A move can only be found at the end of the sorted prefix, and it makes that prefix longer. */
  lemma MoveGrowsPrefix<T(!new)>(less: Less<T>, s0: seq<Node<T>>, s: seq<Node<T>>, sorted: nat, f: nat, r: nat)
    requires StrictWeakOrder(less) && PartlySorted(less, s0, s, sorted)
    requires r < f < |s| && f <= sorted && less(s[f].value, s[r].value)
    requires forall i :: 0 <= i < r ==> !less(s[f].value, s[i].value)
    ensures f == sorted && PartlySorted(less, s0, Moved(s, f, r), sorted + 1)
  {
    MovedStaysSorted(less, s0, s, f, r);
    MovedNodes(s, f, r);
    MovedDistinct(s, f, r);
  }

  // ---------- the sort ----------

  /** Unlinking the front element and linking it in before position r. */
  method MoveFront<T>(list: Node<T>, ghost s: seq<Node<T>>, prevFront: Node<T>, front: Node<T>,
                      prevRear: Node?<T>, ghost f: nat, ghost r: nat)
    returns (head: Node<T>)
    requires Linked(list, s) && NoDup(s) && r < f < |s| && prevFront == s[f - 1] && front == s[f]
    requires prevRear == if r == 0 then null else s[r - 1]
    modifies s
    ensures Linked(head, Moved(s, f, r))
  {
    head := list;
    prevFront.next := front.next;
    var tmp;
    if prevRear != null {
      tmp := prevRear.next;
      prevRear.next := front;
    } else {
      tmp := head;
      head := front;
    }
    front.next := tmp;

    ghost var m := Moved(s, f, r);
    forall i | 0 <= i < |m| - 1 ensures m[i].next == m[i + 1] {
      MovedAt(s, f, r, i);
      MovedAt(s, f, r, i + 1);
    }
    MovedAt(s, f, r, |m| - 1);
    MovedAt(s, f, r, 0);
  }

  /** The first position before the front element whose element is larger, if there is one. */
  method FindPlace<T>(less: Less<T>, list: Node<T>, front: Node<T>, ghost s: seq<Node<T>>, ghost f: nat)
    returns (found: bool, prevRear: Node?<T>, ghost r: nat)
    requires Linked(list, s) && NoDup(s) && f < |s| && front == s[f]
    ensures r <= f && prevRear == if r == 0 then null else s[r - 1]
    ensures found ==> r < f && less(front.value, s[r].value)
    ensures !found ==> r == f
    ensures forall i :: 0 <= i < r ==> !less(front.value, s[i].value)
  {
    var rear := list;
    prevRear, r := null, 0;
    while rear != front
      invariant r <= f && rear == s[r] && prevRear == if r == 0 then null else s[r - 1]
      invariant forall i :: 0 <= i < r ==> !less(front.value, s[i].value)
      decreases f - r
    {
      if less(front.value, rear.value) { return true, prevRear, r; }
      prevRear := rear;
      rear := rear.next;
      r := r + 1;
    }
    found := false;
  }

  /** mtlk_sort_slist: the list ends up sorted, stably. The front cursor may fall back, but then
      the sorted prefix has grown. */
  method SortSlist<T(!new)>(list: Node?<T>, ghost s0: seq<Node<T>>, less: Less<T>)
    returns (head: Node?<T>, ghost s: seq<Node<T>>)
    requires StrictWeakOrder(less) && Linked(list, s0) && NoDup(s0)
    modifies s0
    ensures Linked(head, s) && IsStableSort(less, s0, s)
  {
    head, s := list, s0;
    StableAtStart(less, s0);
    if head == null { return; }
    var prevFront := head;
    var front := prevFront.next;
    ghost var f, sorted := 1, 1;
    while front != null
      invariant head != null && Linked(head, s) && PartlySorted(less, s0, s, sorted)
      invariant 1 <= f <= sorted && prevFront == s[f - 1] && front == (if f == |s| then null else s[f])
      decreases |s0| - sorted, |s0| - f
    {
      var found, prevRear, r := FindPlace(less, head, front, s, f);
      if found {
        MoveGrowsPrefix(less, s0, s, sorted, f, r);
        assert forall i :: 0 <= i < |s| ==> s[i] in s && s[i] in s0;
        head := MoveFront(head, s, prevFront, front, prevRear, f, r);
        MovedAt(s, f, r, r);
        s := Moved(s, f, r);
        f, sorted := r + 1, sorted + 1;
      } else {
        f, sorted := f + 1, if sorted == f then sorted + 1 else sorted;
      }
      prevFront := front;
      front := front.next;
    }
  }

  lemma StableAtStart<T>(less: Less<T>, s0: seq<Node<T>>)
    requires NoDup(s0)
    ensures Stable(less, s0, s0)
  {
  }

  // ---------- there is only one stable sort ----------

  /** Two stable sorts of the same list are the same list. */
  lemma {:induction false} StableSortIsUnique<T(!new)>(less: Less<T>, s0: seq<Node<T>>, a: seq<Node<T>>, b: seq<Node<T>>)
    requires StrictWeakOrder(less) && IsStableSort(less, s0, a) && IsStableSort(less, s0, b)
    ensures a == b
  {
    assert forall x :: (x in a <==> x in multiset(a)) && (x in b <==> x in multiset(b));
    StableOrderIsUnique(less, s0, a, b);
  }

  /** The order a stable sort puts its elements in: smaller ones first, equivalent ones as in s0. */
  ghost predicate InOrder<T>(less: Less<T>, s0: seq<Node<T>>, s: seq<Node<T>>)
    requires forall x :: x in s ==> x in s0
  {
    SortedTo(less, s, |s|) && Stable(less, s0, s)
  }

  lemma {:induction false} StableOrderIsUnique<T(!new)>(less: Less<T>, s0: seq<Node<T>>, a: seq<Node<T>>, b: seq<Node<T>>)
    requires StrictWeakOrder(less) && |a| == |b| && (forall x :: x in a <==> x in b) && (forall x :: x in a ==> x in s0)
    requires NoDup(a) && NoDup(b) && InOrder(less, s0, a) && InOrder(less, s0, b)
    ensures a == b
    decreases |a|
  {
    if a != [] {
      assert a[0] in b;
      assert b[0] in a;
      var i :| 0 <= i < |b| && b[i] == a[0];
      var j :| 0 <= j < |a| && a[j] == b[0];
      assert Position(s0, a[0]) == Position(s0, b[i]) && Position(s0, b[0]) == Position(s0, a[j]);
      assert a[0] == b[0];
      forall x ensures x in a[1..] <==> x in b[1..] {
        if x in a[1..] { var k :| 0 <= k < |a| - 1 && a[1..][k] == x; assert a[k + 1] == x; assert x in b; }
        if x in b[1..] { var k :| 0 <= k < |b| - 1 && b[1..][k] == x; assert b[k + 1] == x; assert x in a; }
      }
      StableOrderIsUnique(less, s0, a[1..], b[1..]);
      assert a == [a[0]] + a[1..] && b == [b[0]] + b[1..];
    }
  }
}
