/** Hierarchical statistics: counting through handles. Every counter is, modulo 2^32, the net total
    issued for its id through the objects below its own. */
module WssCounters {
  import opened Common
  import opened WssTables
  import opened WssObjects

  datatype Op = Inc | Dec | Add(amount: U32) | Sub(amount: U32)

  /** The atomic update of one 32-bit counter. */
  function Apply(op: Op, v: U32): U32 {
    match op
    case Inc => if v == MODULUS - 1 then 0 else v + 1
    case Dec => if v == 0 then MODULUS - 1 else v - 1
    case Add(x) => if v + x >= MODULUS then v + x - MODULUS else v + x
    case Sub(x) => if v < x then v + MODULUS - x else v - x
  }

  function Delta(op: Op): int {
    match op
    case Inc => 1
    case Dec => -1
    case Add(x) => x
    case Sub(x) => 0 - x as int
  }

  /** An unbounded total as a 32-bit counter shows it. */
  function Wrap(total: int): U32 { total % 0x1_0000_0000 }

  lemma ApplyAddsDelta(op: Op, total: int)
    ensures Apply(op, Wrap(total)) == Wrap(total + Delta(op))
  {
    var k := total / 0x1_0000_0000;
    assert total == k * 0x1_0000_0000 + Wrap(total);
    var r := Wrap(total) + Delta(op);
    var q := if r < 0 then k - 1 else if r >= 0x1_0000_0000 then k + 1 else k;
    assert total + Delta(op) == q * 0x1_0000_0000 + Apply(op, Wrap(total));
  }

  // ---------- who declares what ----------

  ghost function Ancestors(node: Wss): set<Wss>
    decreases node.depth
  {
    {node} + if node.parent == null || node.parent.depth >= node.depth then {} else Ancestors(node.parent)
  }

  /** Objects in the order of their creation: parents come first, and contexts are not shared. */
  ghost predicate Grown(nodes: seq<Wss>) {
    nodes != [] ==>
      var older, last := nodes[..|nodes| - 1], nodes[|nodes| - 1];
      && Grown(older) && Rooted(last) && DistinctIds(last.contexts) && (last.parent != null ==> last.parent in older)
      && forall node, c :: node in older && c in node.contexts ==> c !in last.contexts
  }

  ghost predicate Forest(nodes: seq<Wss>)
    reads nodes, set node | node in nodes :: node.entries
  {
    Grown(nodes) && forall node {:trigger node.Valid()} :: node in nodes ==> node.Valid()
  }

  lemma {:induction false} GrownFacts(nodes: seq<Wss>)
    requires Grown(nodes)
    ensures Closed(Elements(nodes)) && Separate(Elements(nodes))
  {
    if nodes != [] {
      var older, last := nodes[..|nodes| - 1], nodes[|nodes| - 1];
      GrownFacts(older);
      assert nodes == older + [last];
      assert Elements(nodes) == Elements(older) + {last};
      assert forall node :: node in older ==> node in Elements(older);
    }
  }

  ghost predicate Separate(all: set<Wss>) {
    forall m, n, c :: m in all && n in all && c in m.contexts && c in n.contexts ==> m == n
  }

  ghost predicate Closed(all: set<Wss>) {
    forall node :: node in all ==> Rooted(node) && DistinctIds(node.contexts) && (node.parent != null ==> node.parent in all)
  }

  lemma {:induction false} InWithId(contexts: seq<Context>, id: int, c: Context)
    ensures c in WithId(contexts, id) <==> c in contexts && c.statId == id
  {
    if contexts != [] {
      InWithId(contexts[..|contexts| - 1], id, c);
      assert contexts == contexts[..|contexts| - 1] + [contexts[|contexts| - 1]];
    }
  }

  lemma {:induction false} AncestorsIn(all: set<Wss>, node: Wss)
    requires Closed(all) && node in all
    ensures Ancestors(node) <= all && node in Ancestors(node)
    decreases node.depth
  {
    if node.parent != null { AncestorsIn(all, node.parent); }
  }

  /** A handle has a context exactly if it belongs to the object or an ancestor and has the handle's id. */
  lemma {:induction false} HandleHas(all: set<Wss>, node: Wss, id: int, owner: Wss, c: Context)
    requires Closed(all) && Separate(all) && node in all && owner in all && c in owner.contexts
    ensures c in Declared(node, id) <==> c.statId == id && owner in Ancestors(node)
    decreases node.depth
  {
    InWithId(node.contexts, id, c);
    if node.parent != null { HandleHas(all, node.parent, id, owner, c); }
  }

  lemma {:induction false} AtMostOneWithId(contexts: seq<Context>, id: int)
    requires DistinctIds(contexts)
    ensures |WithId(contexts, id)| <= 1
  {
    if contexts != [] {
      var k := |contexts| - 1;
      AtMostOneWithId(contexts[..k], id);
      if contexts[k].statId == id {
        NotYet(contexts, k, id);
      }
    }
  }

  /** Every context of a handle belongs to the object or an ancestor, and none is in it twice. */
  lemma {:induction false} HandleNoDup(all: set<Wss>, node: Wss, id: int)
    requires Closed(all) && Separate(all) && node in all
    ensures NoDup(Declared(node, id))
    ensures forall c :: c in Declared(node, id) ==> exists m :: m in Ancestors(node) && c in m.contexts
    decreases node.depth
  {
    var own, above := WithId(node.contexts, id), Inherited(node, id);
    AtMostOneWithId(node.contexts, id);
    forall c | c in own ensures c in node.contexts && c !in above {
      InWithId(node.contexts, id, c);
      if c in above {
        HandleNoDup(all, node.parent, id);
        AncestorsIn(all, node.parent);
        NotOwnAncestor(all, node);
      }
    }
    if node.parent != null { HandleNoDup(all, node.parent, id); }
    NoDupConcat(above, own);
    forall c | c in Declared(node, id) ensures exists m :: m in Ancestors(node) && c in m.contexts {
      if c in own { assert node in Ancestors(node); }
      else {
        assert c in above;
        var m :| m in Ancestors(node.parent) && c in m.contexts;
        assert m in Ancestors(node);
      }
    }
  }

  lemma NoDupConcat(a: seq<Context>, b: seq<Context>)
    requires NoDup(a) && |b| <= 1 && forall c :: c in b ==> c !in a
    ensures NoDup(a + b)
  {
    if b != [] { assert b[0] in b; }
  }

  lemma {:induction false} NotOwnAncestor(all: set<Wss>, node: Wss)
    requires Closed(all) && node in all && node.parent != null
    ensures node !in Ancestors(node.parent)
  {
    ShallowAncestors(all, node.parent);
  }

  lemma {:induction false} ShallowAncestors(all: set<Wss>, node: Wss)
    requires Closed(all) && node in all
    ensures forall m :: m in Ancestors(node) ==> m.depth <= node.depth
    decreases node.depth
  {
    if node.parent != null { ShallowAncestors(all, node.parent); }
  }

  // ---------- counting ----------

  /** mtlk_wss_cntr_inc, _dec, _add and _sub: one loop over the contexts of the handle. */
  method Count(handle: Entry, op: Op)
    requires NoDup(handle.contexts)
    modifies handle.contexts
    ensures forall c :: c in handle.contexts ==> c.value == Apply(op, old(c.value))
  {
    var i := 0;
    while i < |handle.contexts|
      invariant i <= |handle.contexts|
      invariant forall j :: 0 <= j < i ==> handle.contexts[j].value == Apply(op, old(handle.contexts[j].value))
      invariant forall j :: i <= j < |handle.contexts| ==> handle.contexts[j].value == old(handle.contexts[j].value)
    {
      handle.contexts[i].value := Apply(op, handle.contexts[i].value);
      i := i + 1;
    }
  }

  /** One call: open the counter at an object, count, close. */
  datatype Call = Call(node: Wss, id: int, op: Op)

  /** What a run issued in the subtree of `owner` for one id. */
  ghost function NetTotal(calls: seq<Call>, owner: Wss, id: int): int {
    if calls == [] then 0
    else
      var last := calls[|calls| - 1];
      NetTotal(calls[..|calls| - 1], owner, id) + if Counts(last, owner, id) then Delta(last.op) else 0
  }

  ghost function AllContexts(nodes: seq<Wss>): set<Context> {
    set node, c | node in nodes && c in node.contexts :: c
  }

  ghost predicate Counts(call: Call, owner: Wss, id: int) { id == call.id && owner in Ancestors(call.node) }

  /** Which contexts the handle of a call has. */
  lemma HandleOf(nodes: seq<Wss>, call: Call)
    requires Grown(nodes) && call.node in nodes
    ensures var handle := Declared(call.node, call.id);
            NoDup(handle) && (forall c :: c in handle ==> c in AllContexts(nodes))
    ensures forall m, c :: m in nodes && c in m.contexts ==>
      (c in Declared(call.node, call.id) <==> Counts(call, m, c.statId))
  {
    var all := Elements(nodes);
    GrownFacts(nodes);
    HandleNoDup(all, call.node, call.id);
    AncestorsIn(all, call.node);
    forall m, c | m in nodes && c in m.contexts
      ensures c in Declared(call.node, call.id) <==> Counts(call, m, c.statId)
    {
      HandleHas(all, call.node, call.id, m, c);
    }
    forall c | c in Declared(call.node, call.id) ensures c in AllContexts(nodes) {
      var m :| m in Ancestors(call.node) && c in m.contexts;
    }
  }

  /** Counting through a handle, as Open returned it for the call's object and id. */
  method CountThrough(ghost nodes: seq<Wss>, call: Call, handle: Entry?)
    requires Grown(nodes) && call.node in nodes
    requires if handle == null then Declared(call.node, call.id) == [] else handle.contexts == Declared(call.node, call.id)
    modifies AllContexts(nodes)
    ensures forall m, c :: m in nodes && c in m.contexts ==>
      c.value == if Counts(call, m, c.statId) then Apply(call.op, old(c.value)) else old(c.value)
  {
    HandleOf(nodes, call);
    if handle != null { Count(handle, call.op); }
  }

  method Issue(nodes: seq<Wss>, call: Call)
    requires Forest(nodes) && call.node in nodes
    modifies AllContexts(nodes)
    ensures Forest(nodes)
    ensures forall m, c :: m in nodes && c in m.contexts ==>
      c.value == if Counts(call, m, c.statId) then Apply(call.op, old(c.value)) else old(c.value)
  {
    assert call.node.Valid();
    var handle := Open(call.node, call.id);
    CountThrough(nodes, call, handle);
  }

  /** After any run, every counter of the forest has moved by the net total issued in its subtree. */
  method Run(nodes: seq<Wss>, calls: seq<Call>)
    requires Forest(nodes) && forall call :: call in calls ==> call.node in nodes
    modifies AllContexts(nodes)
    ensures Forest(nodes)
    ensures forall m, c :: m in nodes && c in m.contexts ==>
      c.value == Wrap(old(c.value) + NetTotal(calls, m, c.statId))
  {
    if calls != [] {
      var front, last := calls[..|calls| - 1], calls[|calls| - 1];
      Run(nodes, front);
      label Before:
      Issue(nodes, last);
      assert calls == front + [last];
      forall m, c | m in nodes && c in m.contexts ensures c.value == Wrap(old(c.value) + NetTotal(calls, m, c.statId)) {
        RunStep(old(c.value), old@Before(c.value), c.value, front, last, m, c.statId);
      }
    }
  }

  lemma RunStep(v0: U32, v1: U32, v2: U32, front: seq<Call>, last: Call, owner: Wss, id: int)
    requires v1 == Wrap(v0 + NetTotal(front, owner, id))
    requires v2 == if Counts(last, owner, id) then Apply(last.op, v1) else v1
    ensures v2 == Wrap(v0 + NetTotal(front + [last], owner, id))
  {
    ApplyAddsDelta(last.op, v0 + NetTotal(front, owner, id));
    assert (front + [last])[..|front|] == front;
  }

  /** A created object joins the forest, with its counters at zero; without memory nothing happens. */
  method Grow(nodes: seq<Wss>, parent: Wss?, statIds: seq<int>, mem: Memory, allocs: nat) returns (wss: Wss?)
    requires Forest(nodes) && (parent != null ==> parent in nodes) && NoDup(statIds)
    modifies mem
    ensures wss == null ==> Forest(nodes) && mem.live == old(mem.live)
    ensures wss != null ==> fresh(wss) && Forest(nodes + [wss]) && wss.parent == parent && forall c :: c in wss.contexts ==> c.value == 0
  {
    assert parent != null ==> parent.Valid();
    wss := Create(parent, statIds, mem, allocs);
    if wss != null { assert (nodes + [wss])[..|nodes|] == nodes; }
  }
}
