/** Finite directed graphs: walks, cycles, and topological orders. */
module Graphs {
  import opened Common

  /** For each node the nodes it depends on. */
  type Edges = seq<set<nat>>

  predicate Closed(g: Edges) { forall i, j :: 0 <= i < |g| && j in g[i] ==> j < |g| }

  predicate IsWalk(g: Edges, p: seq<nat>) {
    && (forall k :: 0 <= k < |p| ==> p[k] < |g|)
    && (forall k :: 0 <= k < |p| - 1 ==> p[k + 1] in g[p[k]])
  }

  /** A walk whose last symbol depends on the first. */
  predicate IsCycle(g: Edges, p: seq<nat>) { p != [] && IsWalk(g, p) && p[0] in g[p[|p| - 1]] }

  ghost predicate HasCycle(g: Edges) { exists p :: IsCycle(g, p) }

  /** An order in which every symbol comes after what it depends on. */
  predicate Topological(g: Edges, order: seq<nat>) {
    order != [] ==>
      var (before, s) := (order[..|order| - 1], order[|order| - 1]);
      Topological(g, before) && s < |g| && forall j :: j in g[s] ==> j in before
  }

  lemma {:induction false} DependsOnEarlier(g: Edges, order: seq<nat>, at: nat, j: nat) returns (m: nat)
    requires Topological(g, order) && at < |order| && order[at] < |g| && j in g[order[at]]
    ensures m < at && order[m] == j
  {
    if at == |order| - 1 {
      m :| 0 <= m < at && order[m] == j;
    } else {
      m := DependsOnEarlier(g, order[..|order| - 1], at, j);
    }
  }

  lemma {:induction false} WalkGoesDown(g: Edges, order: seq<nat>, p: seq<nat>, at: nat) returns (end: nat)
    requires Topological(g, order) && p != [] && IsWalk(g, p) && at < |order| && order[at] == p[0]
    ensures end < |order| && order[end] == p[|p| - 1] && end <= at - (|p| - 1)
  {
    if |p| == 1 {
      end := at;
    } else {
      assert p[1] in g[p[0]];
      var m := DependsOnEarlier(g, order, at, p[1]);
      forall k | 0 <= k < |p[1..]| - 1 ensures p[1..][k + 1] in g[p[1..][k]] {
        assert p[k + 1 + 1] in g[p[k + 1]];
      }
      end := WalkGoesDown(g, order, p[1..], m);
    }
  }

  /** Going once around a cycle would lead strictly down the order, so a cycle can be followed
      down forever. */
  lemma {:induction false} TopologicalHasNoCycle(g: Edges, order: seq<nat>, p: seq<nat>, at: nat)
    requires Topological(g, order) && IsCycle(g, p) && at < |order| && order[at] == p[0]
    ensures false
    decreases at
  {
    var end := WalkGoesDown(g, order, p, at);
    var m := DependsOnEarlier(g, order, end, p[0]);
    TopologicalHasNoCycle(g, order, p, m);
  }

  // ---------- a graph without cycles can be ordered ----------

  /** Follows dependencies that are not done yet, until a node has none. */
  lemma {:induction false} FindReady(g: Edges, done: seq<nat>, stack: seq<nat>) returns (s: nat)
    requires Closed(g) && !HasCycle(g)
    requires stack != [] && IsWalk(g, stack) && NoDup(stack) && forall k :: 0 <= k < |stack| ==> stack[k] !in done
    ensures s < |g| && s !in done && forall j :: j in g[s] ==> j in done
    decreases |g| - |stack|
  {
    FewDistinct(stack, |g|);
    var top := stack[|stack| - 1];
    if j :| j in g[top] && j !in done {
      if k :| 0 <= k < |stack| && stack[k] == j { assert IsCycle(g, stack[k..]); }
      FewDistinct(stack + [j], |g|);
      s := FindReady(g, done, stack + [j]);
    } else {
      s := top;
    }
  }

  lemma OrderGrows(g: Edges, done: seq<nat>, s: nat)
    requires Topological(g, done) && NoDup(done) && s < |g| && s !in done && forall j :: j in g[s] ==> j in done
    ensures Topological(g, done + [s]) && NoDup(done + [s])
  {
    assert (done + [s])[..|done|] == done;
  }

  lemma {:induction false} CompleteOrder(g: Edges, done: seq<nat>) returns (order: seq<nat>)
    requires Closed(g) && !HasCycle(g) && Topological(g, done) && NoDup(done)
    requires forall k :: 0 <= k < |done| ==> done[k] < |g|
    ensures Topological(g, order) && forall i :: 0 <= i < |g| ==> i in order
    decreases |g| - |done|
  {
    FewDistinct(done, |g|);
    if i :| 0 <= i < |g| && i !in done {
      var s := FindReady(g, done, [i]);
      OrderGrows(g, done, s);
      FewDistinct(done + [s], |g|);
      order := CompleteOrder(g, done + [s]);
    } else {
      order := done;
    }
  }

  /** Ranks that go down along every dependency. */
  ghost predicate Ranks(g: Edges, rank: seq<nat>) {
    |rank| == |g| && forall i :: 0 <= i < |g| ==> RanksNode(g, rank, i)
  }

  ghost predicate RanksNode(g: Edges, rank: seq<nat>, i: nat)
    requires |rank| == |g| && i < |g|
  {
    forall j :: j in g[i] ==> j < |g| && rank[j] < rank[i]
  }

  lemma {:induction false} RanksGoDown(g: Edges, rank: seq<nat>, p: seq<nat>)
    requires Ranks(g, rank) && p != [] && IsWalk(g, p)
    ensures rank[p[|p| - 1]] <= rank[p[0]]
  {
    if |p| > 1 {
      var front := p[..|p| - 1];
      forall k | 0 <= k < |front| - 1 ensures front[k + 1] in g[front[k]] { assert p[k + 1] in g[p[k]]; }
      RanksGoDown(g, rank, front);
      var k := |p| - 2;
      assert RanksNode(g, rank, p[k]) && p[k + 1] in g[p[k]];
    }
  }

  lemma NoWayBack(g: Edges, rank: seq<nat>, p: seq<nat>)
    requires Ranks(g, rank) && p != [] && IsWalk(g, p)
    ensures p[0] !in g[p[|p| - 1]]
  {
    RanksGoDown(g, rank, p);
    assert RanksNode(g, rank, p[|p| - 1]);
  }

  function IndexOf(order: seq<nat>, i: nat): (k: nat)
    requires i in order
    ensures k < |order| && order[k] == i && forall m :: 0 <= m < k ==> order[m] != i
  {
    if order[0] == i then 0 else 1 + IndexOf(order[1..], i)
  }

  /** The ranks of the first n nodes by their places in an order. */
  function RankFrom(order: seq<nat>, n: nat): seq<nat>
    requires forall i :: 0 <= i < n ==> i in order
  {
    seq(n, i requires 0 <= i < n => IndexOf(order, i))
  }

  /** A finite graph can be ranked exactly if it has no cycle. */
  lemma RankedExactly(g: Edges)
    requires Closed(g)
    ensures (exists rank :: Ranks(g, rank)) <==> !HasCycle(g)
  {
    if HasCycle(g) {
      var p :| IsCycle(g, p);
      forall rank ensures !Ranks(g, rank) {
        if Ranks(g, rank) { NoWayBack(g, rank, p); }
      }
    } else {
      var order := CompleteOrder(g, []);
      OrderRanks(g, order);
    }
  }

  lemma OrderRanks(g: Edges, order: seq<nat>)
    requires Closed(g) && Topological(g, order) && forall i :: 0 <= i < |g| ==> i in order
    ensures Ranks(g, RankFrom(order, |g|))
  {
    var rank := RankFrom(order, |g|);
    forall i, j | 0 <= i < |g| && j in g[i] ensures rank[j] < rank[i] {
      var m := DependsOnEarlier(g, order, rank[i], j);
    }
  }
}
