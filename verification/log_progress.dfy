/** What gets done in the logger: packets are granted whenever there is room, stay with their writers,
    and reach the consumer once they are released, in the order in which buffers were queued. */
module LogProgress {
  import opened Common
  import opened LogProtocol

  /** The buffer is expired in the slot while somebody writes to it. */
  ghost predicate Expiring(s: State, b: nat) {
    b < |s.bufs| && s.active == Some(b) && s.bufs[b].expired && s.bufs[b].refcount > 0
  }

  /** It only waits for its writers. */
  ghost predicate Waiting(s: State, b: nat) { Expiring(s, b) || (b < |s.bufs| && Detached(s, b)) }

  /** It is on its way to the ready list, or on it. */
  ghost predicate Delivered(s: State, b: nat) { b in s.inFlight || b in s.ready }

  ghost predicate OnItsWay(s: State, b: nat) { Waiting(s, b) || Delivered(s, b) }

  /** The ranges of the buffer are still there, and new ones come only behind them. */
  ghost predicate KeepsRanges(s: State, s': State, b: nat)
    requires b < |s.bufs| && b < |s'.bufs|
  {
    var (p, p') := (s.bufs[b].parts, s'.bufs[b].parts);
    |p| <= |p'| && forall k :: 0 <= k < |p| ==> p'[k].start == p[k].start && p'[k].len == p[k].len
  }

  ghost predicate GoesOn(s: State, s': State, b: nat)
    requires b < |s.bufs| && b < |s'.bufs|
  {
    && KeepsRanges(s, s', b) && (OnItsWay(s', b) || b in s'.consumer)
    && (Delivered(s, b) ==> Delivered(s', b) || b in s'.consumer)
  }

  /** A buffer that is in one place is in no other. */
  lemma OneOwner(s: State, b: nat)
    requires Inv(s) && b < |s.bufs|
    ensures s.active == Some(b) || Detached(s, b) ==>
              b !in s.free && b !in s.ready && b !in s.inFlight && b !in s.returning && b !in s.consumer
    ensures b in s.inFlight ==> s.active != Some(b) && b !in s.free && b !in s.ready && b !in s.returning && b !in s.consumer
    ensures b in s.ready ==> s.active != Some(b) && b !in s.free && b !in s.inFlight && b !in s.returning && b !in s.consumer
    ensures b in s.inFlight || b in s.ready ==> s.bufs[b].refcount == 0
  {
    assert Owners(s, b) == 1;
    assert b in s.free ==> multiset(s.free)[b] > 0;
    assert b in s.ready ==> multiset(s.ready)[b] > 0;
  }

  lemma IsBuffer(s: State, b: nat)
    requires Inv(s) && (OnItsWay(s, b) || b in s.consumer)
    ensures b < |s.bufs|
  {
  }

  // ---------- reserving ----------

  /** A reservation succeeds exactly if the active buffer has room or a free one is there. The caller gets
      the next bytes of the active buffer; nothing else is handed out, and a failure hands out nothing. */
  lemma ReserveGrantsExactly(s: State, size: nat)
    requires Inv(s) && size <= s.bufSize
    ensures var (s', granted) := ReserveStep(s, size);
            && (granted <==> (s.active.Some? && SpaceLeft(s, s.active.value) >= size) || s.free != [])
            && |s'.bufs| == |s.bufs|
            && (!granted ==> s'.bufs == s.bufs)
            && (granted ==>
                  && s'.active.Some? && s'.active.value < |s.bufs|
                  && var b := s'.active.value;
                     && (s.active == Some(b) || (s.free != [] && b == s.free[0]))
                     && s'.bufs[b].parts == s.bufs[b].parts + [Part(s.bufs[b].dataSize, size, true)]
                     && forall c :: 0 <= c < |s.bufs| && c != b ==> s'.bufs[c] == s.bufs[c])
  {
    if s.active.None? || SpaceLeft(s, s.active.value) < size {
      if s.free != [] { assert s.bufs[s.free[0]] == EMPTY; }
    }
  }

  lemma ReserveGoesOn(s: State, size: nat, b: nat)
    requires Inv(s) && size <= s.bufSize && OnItsWay(s, b)
    ensures b < |s.bufs| == |ReserveStep(s, size).0.bufs| && GoesOn(s, ReserveStep(s, size).0, b)
  {
    OneOwner(s, b);
    ReserveGrantsExactly(s, size);
    if s.free != [] { assert s.free[0] in s.free; }
  }

  lemma ReleaseGoesOn(s: State, c: nat, k: nat, b: nat)
    requires Inv(s) && Enabled(s, Release(c, k)) && s.bufs[c].refcount > 0 && OnItsWay(s, b)
    ensures b < |s.bufs| == |ReleaseStep(s, c, k).bufs| && GoesOn(s, ReleaseStep(s, c, k), b)
  {
    OneOwner(s, b);
  }

  lemma IdleGoesOn(s: State, b: nat)
    requires Inv(s) && OnItsWay(s, b)
    ensures b < |s.bufs| == |TimerStep(s).bufs| && GoesOn(s, TimerStep(s), b)
    ensures b < |s.bufs| == |DetachStep(s).bufs| && GoesOn(s, DetachStep(s), b)
  {
    OneOwner(s, b);
    if s.free != [] { assert s.free[0] in s.free; }
  }

  /** A buffer on its way stays there until the consumer has it, and is not rewritten. */
  lemma StepGoesOn(s: State, step: Step, b: nat)
    requires Inv(s) && Enabled(s, step) && OnItsWay(s, b)
    ensures Next(s, step).Some? && b < |s.bufs| && b < |Next(s, step).value.bufs| && GoesOn(s, Next(s, step).value, b)
  {
    StepKeepsInv(s, step);
    OneOwner(s, b);
    match step
    case Reserve(size) => ReserveGoesOn(s, size, b);
    case Release(c, k) => ReleaseGoesOn(s, c, k, b);
    case Timer => IdleGoesOn(s, b);
    case Detach => IdleGoesOn(s, b);
    case GetReady => if b in s.ready && b != s.ready[0] { assert b in s.ready[1..]; }
    case _ =>
  }

  // ---------- whole runs ----------

  /** In some state of the run the consumer has the buffer. */
  ghost predicate Consumed(s: State, steps: seq<Step>, b: nat)
    requires Legal(s, steps)
    decreases |steps|
  {
    b in s.consumer || (steps != [] && Next(s, steps[0]).Some? && Consumed(Next(s, steps[0]).value, steps[1..], b))
  }

  lemma {:induction false} RunGoesOn(s: State, steps: seq<Step>, b: nat)
    requires Inv(s) && Legal(s, steps) && OnItsWay(s, b)
    ensures Run(s, steps).Some? && Inv(Run(s, steps).value)
    ensures Consumed(s, steps, b) || OnItsWay(Run(s, steps).value, b)
    decreases |steps|
  {
    if steps != [] {
      StepKeepsInv(s, steps[0]);
      StepGoesOn(s, steps[0], b);
      var s' := Next(s, steps[0]).value;
      if b in s'.consumer { RunsAreSafe(s', steps[1..]); } else { RunGoesOn(s', steps[1..], b); }
    }
  }

  /** Nobody holds a range of the buffer. */
  ghost predicate AllClosed(s: State, b: nat) {
    b < |s.bufs| && forall k :: 0 <= k < |s.bufs[b].parts| ==> !s.bufs[b].parts[k].open
  }

  /** A buffer that waits for its writers is out of the slot and delivered after every run that closes all
      of its ranges, if the consumer has not had it before. */
  lemma WaitingIsDelivered(s: State, steps: seq<Step>, b: nat)
    requires Inv(s) && Legal(s, steps) && OnItsWay(s, b)
    ensures Run(s, steps).Some?
    ensures var s' := Run(s, steps).value;
            Consumed(s, steps, b) || (AllClosed(s', b) ==> s'.active != Some(b) && Delivered(s', b))
  {
    RunGoesOn(s, steps, b);
    var s' := Run(s, steps).value;
    if OnItsWay(s', b) {
      IsBuffer(s', b);
      OneOwner(s', b);
      assert GoodBuf(s', s'.bufs[b]);
      NoOpenParts(s'.bufs[b].parts);
    }
  }

  // ---------- the timer and the detaching ----------

  /** The timer takes a buffer with data that nobody writes to out of the slot, in flight, and a free one
      into it; one that somebody writes to expires. */
  lemma TimerStarts(s: State, b: nat)
    requires Inv(s) && s.active == Some(b) && s.bufs[b].dataSize > 0
    ensures Next(s, Timer).Some?
    ensures var s' := Next(s, Timer).value;
            && OnItsWay(s', b) && (s.bufs[b].refcount > 0 ==> Expiring(s', b))
            && (s.bufs[b].refcount == 0 ==>
                  b in s'.inFlight && s'.active == if s.free == [] then None else Some(s.free[0]))
  {
    StepKeepsInv(s, Timer);
  }

  /** So the data of the active buffer reaches the ready list after the timer, whatever happens next, as
      soon as its writers are done. */
  lemma TimerDelivers(s: State, steps: seq<Step>, b: nat)
    requires Inv(s) && s.active == Some(b) && s.bufs[b].dataSize > 0
    requires Next(s, Timer).Some? ==> Legal(Next(s, Timer).value, steps)
    ensures Next(s, Timer).Some? && Run(Next(s, Timer).value, steps).Some?
    ensures var (s1, s2) := (Next(s, Timer).value, Run(Next(s, Timer).value, steps).value);
            Consumed(s1, steps, b) || (AllClosed(s2, b) ==> s2.active != Some(b) && Delivered(s2, b))
  {
    StepKeepsInv(s, Timer);
    TimerStarts(s, b);
    WaitingIsDelivered(Next(s, Timer).value, steps, b);
  }

  /** Detaching empties the slot if nobody writes to the buffer in it; that is in flight if it has data,
      and goes back to the free list if it has none. One that somebody writes to expires. */
  lemma DetachStarts(s: State, b: nat)
    requires Inv(s) && s.active == Some(b)
    ensures Next(s, Detach).Some?
    ensures var s' := Next(s, Detach).value;
            && (s.bufs[b].refcount > 0 ==> Expiring(s', b))
            && (s.bufs[b].refcount == 0 ==> s'.active == None && b in if s.bufs[b].dataSize > 0 then s'.inFlight else s'.returning)
  {
    StepKeepsInv(s, Detach);
  }

  lemma DetachDelivers(s: State, steps: seq<Step>, b: nat)
    requires Inv(s) && s.active == Some(b) && (s.bufs[b].dataSize > 0 || s.bufs[b].refcount > 0)
    requires Next(s, Detach).Some? ==> Legal(Next(s, Detach).value, steps)
    ensures Next(s, Detach).Some? && Run(Next(s, Detach).value, steps).Some?
    ensures var (s1, s2) := (Next(s, Detach).value, Run(Next(s, Detach).value, steps).value);
            Consumed(s1, steps, b) || (AllClosed(s2, b) ==> s2.active != Some(b) && Delivered(s2, b))
  {
    StepKeepsInv(s, Detach);
    DetachStarts(s, b);
    WaitingIsDelivered(Next(s, Detach).value, steps, b);
  }

  // ---------- ranges belong to their writers ----------

  lemma OpenMeansWriter(s: State, b: nat, k: nat)
    requires Inv(s) && b < |s.bufs| && k < |s.bufs[b].parts| && s.bufs[b].parts[k].open
    ensures s.bufs[b].refcount > 0 && (s.active == Some(b) || Detached(s, b))
  {
    assert GoodBuf(s, s.bufs[b]);
    OpenPartsCount(s.bufs[b].parts, k);
  }

  lemma ReleaseLeavesOthers(s: State, b: nat, j: nat, k: nat)
    requires Inv(s) && Enabled(s, Release(b, j)) && k < |s.bufs[b].parts| && j != k
    ensures Next(s, Release(b, j)).Some? ==>
              |Next(s, Release(b, j)).value.bufs| == |s.bufs|
              && |Next(s, Release(b, j)).value.bufs[b].parts| == |s.bufs[b].parts|
              && Next(s, Release(b, j)).value.bufs[b].parts[k] == s.bufs[b].parts[k]
  {
  }

  /** A range that was handed out stays as it is, and open, until its own release, which closes it. */
  lemma OpenUntilReleased(s: State, step: Step, b: nat, k: nat)
    requires Inv(s) && Enabled(s, step) && b < |s.bufs| && k < |s.bufs[b].parts| && s.bufs[b].parts[k].open
    ensures Next(s, step).Some?
    ensures var (p, s') := (s.bufs[b].parts[k], Next(s, step).value);
            && b < |s'.bufs| && k < |s'.bufs[b].parts|
            && s'.bufs[b].parts[k] == if step == Release(b, k) then p.(open := false) else p
  {
    StepKeepsInv(s, step);
    match step
    case Reserve(size) => ReserveGrantsExactly(s, size);
    case Release(c, j) => if c == b && j != k { ReleaseLeavesOthers(s, b, j, k); }
    case _ =>
      OpenMeansWriter(s, b, k);
      OneOwner(s, b);
  }

  // ---------- buffers are consumed in the order in which they are queued ----------

  function Queued(steps: seq<Step>): seq<nat> {
    if steps == [] then []
    else (if steps[0].PutReady? then [steps[0].buf] else []) + Queued(steps[1..])
  }

  /** What the consumer gets in a run. */
  ghost function Got(s: State, steps: seq<Step>): seq<nat>
    requires Legal(s, steps)
    decreases |steps|
  {
    if steps == [] || Next(s, steps[0]).None? then []
    else (if steps[0].GetReady? then [s.ready[0]] else []) + Got(Next(s, steps[0]).value, steps[1..])
  }

  lemma ReadyAfter(s: State, step: Step)
    requires Inv(s) && Enabled(s, step) && Next(s, step).Some?
    ensures s.ready + (if step.PutReady? then [step.buf] else []) ==
            (if step.GetReady? then [s.ready[0]] else []) + Next(s, step).value.ready
  {
  }

  /** The ready list is a queue: what was on it and what is put on it comes out in that order. */
  lemma {:induction false} ReadyIsQueue(s: State, steps: seq<Step>)
    requires Inv(s) && Legal(s, steps)
    ensures Run(s, steps).Some? && s.ready + Queued(steps) == Got(s, steps) + Run(s, steps).value.ready
    decreases |steps|
  {
    if steps != [] {
      StepKeepsInv(s, steps[0]);
      var s' := Next(s, steps[0]).value;
      ReadyAfter(s, steps[0]);
      ReadyIsQueue(s', steps[1..]);
      var (put, got) := (if steps[0].PutReady? then [steps[0].buf] else [], if steps[0].GetReady? then [s.ready[0]] else []);
      Associative(s.ready, put, Queued(steps[1..]));
      Associative(got, s'.ready, Queued(steps[1..]));
      Associative(got, Got(s', steps[1..]), Run(s', steps[1..]).value.ready);
    } else {
      EmptySum(s.ready);
    }
  }
}
