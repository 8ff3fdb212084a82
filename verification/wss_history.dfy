/** Hierarchical statistics over their whole life: objects are created and deleted, handles opened and
    kept, and counts issued through them, in any order. */
module WssHistory {
  import opened Common
  import opened WssTables
  import opened WssObjects
  import opened WssCounters

  /** An open handle: the object and the id it was opened for, and what it refers to. */
  datatype Handle = Handle(node: Wss, id: int, entry: Entry?)

  ghost predicate IsOpen(nodes: set<Wss>, h: Handle) {
    && h.node in nodes
    && if h.entry == null then Declared(h.node, h.id) == [] else h.entry.contexts == Declared(h.node, h.id)
  }

  /** Nothing was issued below an object that is not there yet. */
  lemma {:induction false} NothingIssuedBelow(nodes: seq<Wss>, calls: seq<Call>, owner: Wss, id: int)
    requires Grown(nodes) && owner !in nodes && forall call :: call in calls ==> call.node in nodes
    ensures NetTotal(calls, owner, id) == 0
  {
    if calls != [] {
      var last := calls[|calls| - 1];
      NothingIssuedBelow(nodes, calls[..|calls| - 1], owner, id);
      GrownFacts(nodes);
      AncestorsIn(Elements(nodes), last.node);
    }
  }

  /** A living object has its ancestors alive and its table intact. */
  ghost predicate Living(ever: seq<Wss>, nodes: set<Wss>)
    reads nodes, set node | node in nodes :: node.entries
  {
    && Grown(ever) && (forall node :: node in nodes ==> node in ever && (node.parent != null ==> node.parent in nodes))
    && (forall node {:trigger node.Valid()} :: node in nodes ==> node.Valid())
  }

  /** What an object has allocated; nothing, as long as it has no proper table. */
  ghost function Holdings(node: Wss): set<object>
    reads node, node.entries, node.parent
  {
    if node.HasTable() then Owned(node) else {}
  }

  /** Which blocks each of the living objects has allocated. */
  type Held = map<Wss, set<object>>

  ghost predicate IsHeld(held: Held)
    reads held.Keys, (set node | node in held :: node.entries), set node | node in held :: node.parent
  {
    forall node {:trigger Holdings(node)} :: node in held ==> Holdings(node) == held[node]
  }

  ghost function Blocks(held: Held): set<object> {
    held.Keys + set node: Wss, block: object | node in held && block in held[node] :: block
  }

  ghost predicate Apart(a: set<object>, b: set<object>) { a !! b }

  /** The live memory is exactly the living objects with what they have allocated, and nothing is
      allocated by two of them. */
  ghost predicate IsExact(held: Held, live: set<object>) {
    && live == Blocks(held)
    && (forall m: Wss, n: Wss {:trigger Apart(held[m], held[n])} :: m in held && n in held && m != n ==> Apart(held[m], held[n]))
    && (forall m, n: Wss :: m in held ==> n !in held[m])
  }

  lemma BlocksWith(held: Held, wss: Wss, own: set<object>)
    requires wss !in held
    ensures Blocks(held[wss := own]) == Blocks(held) + {wss} + own
  {
    var held' := held[wss := own];
    forall block: object | block in Blocks(held) + {wss} + own ensures block in Blocks(held') {
      if block in own { assert block in held'[wss]; }
      else if block in Blocks(held) && block !in held.Keys {
        var node: Wss :| node in held && block in held[node];
        assert block in held'[node];
      }
    }
  }

  lemma ExactWith(held: Held, live: set<object>, wss: Wss, own: set<object>)
    requires IsExact(held, live) && wss !in held && own !! live && forall n: Wss :: n !in own
    ensures IsExact(held[wss := own], live + {wss} + own)
  {
    BlocksWith(held, wss, own);
    forall node | node in held ensures Apart(held[node], own) && Apart(own, held[node]) {
      forall block: object | block in held[node] ensures block !in own { assert block in Blocks(held); }
    }
  }

  lemma ExactWithout(held: Held, live: set<object>, wss: Wss)
    requires IsExact(held, live) && wss in held
    ensures held[wss] <= live && wss in live && IsExact(held - {wss}, live - held[wss] - {wss})
  {
    var held' := held - {wss};
    assert held == held'[wss := held[wss]];
    BlocksWith(held', wss, held[wss]);
    forall block: object | block in Blocks(held') ensures block !in held[wss] && block != wss {
      if block !in held'.Keys {
        var node: Wss :| node in held' && block in held'[node];
        assert Apart(held[node], held[wss]);
      }
    }
  }

  lemma HoldingsAreNoObjects(node: Wss)
    ensures forall n: Wss :: n !in Holdings(node)
  {
  }

  /** Every counter is, modulo 2^32, the net total issued for its id through handles opened at its
      object or below. */
  ghost predicate Totals(ever: seq<Wss>, issued: seq<Call>)
    reads AllContexts(ever)
  {
    && (forall call :: call in issued ==> call.node in ever)
    && (forall m, c {:trigger NetTotal(issued, m, c.statId)} ::
          m in ever && c in m.contexts ==> c.value == Wrap(NetTotal(issued, m, c.statId)))
  }

  /** The living objects, their blocks and the counters are as they have to be. */
  ghost predicate Sound(ever: seq<Wss>, held: Held, live: set<object>, issued: seq<Call>)
    reads held.Keys, (set node | node in held :: node.entries), (set node | node in held :: node.parent), AllContexts(ever)
  {
    Living(ever, held.Keys) && IsHeld(held) && IsExact(held, live) && Totals(ever, issued)
  }

  lemma GrownWith(ever: seq<Wss>, wss: Wss)
    requires Grown(ever) && Rooted(wss) && DistinctIds(wss.contexts) && (wss.parent != null ==> wss.parent in ever)
    requires forall node, c :: node in ever && c in node.contexts ==> c !in wss.contexts
    ensures Grown(ever + [wss])
  {
    assert (ever + [wss])[..|ever|] == ever;
  }

  /** The counters of a new object are right: they are zero, and nothing was issued below it. */
  lemma TotalsOfNew(ever: seq<Wss>, issued: seq<Call>, wss: Wss)
    requires Grown(ever) && Totals(ever, issued) && wss !in ever && forall c :: c in wss.contexts ==> c.value == 0
    ensures Totals(ever + [wss], issued)
  {
    forall id ensures NetTotal(issued, wss, id) == 0 { NothingIssuedBelow(ever, issued, wss, id); }
  }

  /** Creating an object: the table of nobody else is touched. */
  method NewObject(ghost ever: seq<Wss>, ghost held: Held, parent: Wss?, statIds: seq<int>, mem: Memory, allocs: nat)
    returns (wss: Wss?, ghost own: set<object>)
    requires Living(ever, held.Keys) && IsHeld(held) && (parent != null ==> parent in held) && NoDup(statIds)
    modifies mem
    ensures wss == null ==> Living(ever, held.Keys) && IsHeld(held) && mem.live == old(mem.live)
    ensures wss != null ==> fresh(wss) && wss.parent == parent && Living(ever + [wss], held.Keys + {wss})
    ensures wss != null ==> IsHeld(held[wss := own]) && fresh(own) && mem.live == old(mem.live) + {wss} + own
    ensures wss != null ==> (forall n: Wss :: n !in own) && forall c :: c in wss.contexts ==> c.value == 0
  {
    assert parent != null ==> parent.Valid();
    wss := Create(parent, statIds, mem, allocs);
    own := {};
    if wss != null {
      own := Holdings(wss);
      HoldingsAreNoObjects(wss);
      GrownWith(ever, wss);
    }
  }

  /** It joins the living ones, and what it has allocated joins their blocks. */
  method AddObject(ghost ever: seq<Wss>, ghost held: Held, ghost issued: seq<Call>, parent: Wss?, statIds: seq<int>,
                   mem: Memory, allocs: nat)
    returns (wss: Wss?, ghost ever': seq<Wss>, ghost held': Held)
    requires Sound(ever, held, mem.live, issued) && (parent != null ==> parent in held) && NoDup(statIds)
    modifies mem
    ensures Sound(ever', held', mem.live, issued)
    ensures wss == null ==> held' == held
    ensures wss != null ==> wss !in held && wss.parent == parent && held'.Keys == held.Keys + {wss}
  {
    ghost var live, own := mem.live, {};
    wss, own := NewObject(ever, held, parent, statIds, mem, allocs);
    ever', held' := ever, held;
    if wss != null {
      ExactWith(held, live, wss, own);
      TotalsOfNew(ever, issued, wss);
      ever', held' := ever + [wss], held[wss := own];
    }
  }

  /** Freeing an object without children: the table of nobody else is touched. */
  method FreeObject(ghost ever: seq<Wss>, ghost held: Held, wss: Wss, mem: Memory)
    requires Living(ever, held.Keys) && IsHeld(held) && wss in held && forall node :: node in held ==> node.parent != wss
    requires held[wss] <= mem.live && wss in mem.live
    modifies mem, wss`entries, wss`nofEntries
    ensures Living(ever, held.Keys - {wss}) && IsHeld(held - {wss}) && mem.live == old(mem.live) - held[wss] - {wss}
  {
    assert wss.Valid() && Holdings(wss) == Owned(wss);
    Delete(wss, mem);
  }

  /** Deleting an object without children: just its own blocks are gone. */
  method DropObject(ghost ever: seq<Wss>, ghost held: Held, ghost issued: seq<Call>, wss: Wss, mem: Memory)
    requires Sound(ever, held, mem.live, issued) && wss in held && forall node :: node in held ==> node.parent != wss
    modifies mem, wss`entries, wss`nofEntries
    ensures Sound(ever, held - {wss}, mem.live, issued)
  {
    ExactWithout(held, mem.live, wss);
    FreeObject(ever, held, wss, mem);
    assert (held - {wss}).Keys == held.Keys - {wss};
  }

  class Statistics {
    const mem: Memory
    var handles: seq<Handle>
    ghost var held: Held         // the living objects, and what each of them has allocated
    ghost var ever: seq<Wss>     // all objects there have been, in the order of their creation
    ghost var issued: seq<Call>  // every count, with the object and the id of its handle

    ghost predicate WellFormed()
      reads this, mem, held.Keys, (set node | node in held :: node.entries), (set node | node in held :: node.parent), AllContexts(ever)
    {
      Sound(ever, held, mem.live, issued) && forall h :: h in handles ==> IsOpen(held.Keys, h)
    }

    constructor (mem: Memory)
      requires mem.live == {}
      ensures WellFormed() && held == map[] && handles == [] && issued == [] && this.mem == mem
    {
      this.mem := mem;
      held, handles, ever, issued := map[], [], [], [];
    }

    method CreateObject(parent: Wss?, statIds: seq<int>, allocs: nat) returns (wss: Wss?)
      requires WellFormed() && (parent != null ==> parent in held) && NoDup(statIds)
      modifies this`held, this`ever, mem
      ensures WellFormed()
      ensures held.Keys == if wss == null then old(held.Keys) else old(held.Keys) + {wss}
      ensures wss != null ==> wss.parent == parent && wss !in old(held)
    {
      wss, ever, held := AddObject(ever, held, issued, parent, statIds, mem, allocs);
    }

    /** An object whose children have been deleted, and whose handles have been closed. */
    method DeleteObject(wss: Wss)
      requires WellFormed() && wss in held
      requires (forall node :: node in held ==> node.parent != wss) && forall h :: h in handles ==> h.node != wss
      modifies this`held, mem, wss`entries, wss`nofEntries
      ensures WellFormed() && held == old(held) - {wss}
    {
      DropObject(ever, held, issued, wss, mem);
      held := held - {wss};
    }

    method OpenHandle(node: Wss, id: int) returns (h: Handle)
      requires WellFormed() && node in held
      modifies this`handles
      ensures WellFormed()
      ensures h.node == node && h.id == id && handles == old(handles) + [h]
    {
      assert node.Valid();
      var entry := Open(node, id);
      h := Handle(node, id, entry);
      handles := handles + [h];
    }

    method CloseHandle(k: nat)
      requires WellFormed() && k < |handles|
      modifies this`handles
      ensures WellFormed() && handles == old(handles)[..k] + old(handles)[k + 1..]
    {
      handles := handles[..k] + handles[k + 1..];
    }

    /** One count, through any handle opened before. */
    method CountOn(h: Handle, op: Op)
      requires WellFormed() && h in handles
      modifies this`issued, AllContexts(ever)
      ensures WellFormed() && issued == old(issued) + [Call(h.node, h.id, op)]
    {
      IssueThrough(ever, held, mem.live, issued, Call(h.node, h.id, op), h.entry);
      issued := issued + [Call(h.node, h.id, op)];
    }
  }

  /** A count keeps all totals. */
  method IssueThrough(ghost ever: seq<Wss>, ghost held: Held, ghost live: set<object>, ghost issued: seq<Call>,
                      call: Call, handle: Entry?)
    requires Sound(ever, held, live, issued) && IsOpen(held.Keys, Handle(call.node, call.id, handle))
    modifies AllContexts(ever)
    ensures Sound(ever, held, live, issued + [call])
  {
    CountThrough(ever, call, handle);
    forall m, c | m in ever && c in m.contexts ensures c.value == Wrap(NetTotal(issued + [call], m, c.statId)) {
      RunStep(0, old(c.value), c.value, issued, call, m, c.statId);
    }
  }
}
