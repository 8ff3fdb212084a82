/** The logger's buffer protocol as a state machine. Every critical section is one step; a buffer
    that has left the active slot but is not queued yet is in flight. */
module LogProtocol {
  import opened Common

  /** A range handed out by a reservation, until its writer releases it. */
  datatype Part = Part(start: nat, len: nat, open: bool)

  /** A buffer descriptor; `parts` are the reservations of its current life. */
  datatype Buf = Buf(refcount: nat, dataSize: nat, expired: bool, parts: seq<Part>)

  const EMPTY := Buf(0, 0, false, [])

  /** `inFlight` buffers are on their way to the ready list, `returning` ones to the free list. */
  datatype State = State(
    bufSize: nat,
    bufs: seq<Buf>,
    free: seq<nat>,
    active: Option<nat>,
    ready: seq<nat>,
    inFlight: set<nat>,
    returning: set<nat>,
    consumer: set<nat>,
    rmLock: int)

  datatype Step =
    | Reserve(size: nat)
    | Release(buf: nat, part: nat)
    | Timer
    | Detach
    | PutReady(buf: nat)
    | PutFree(buf: nat)
    | GetReady
    | ConsumerPutFree(buf: nat)

  // ---------- the steps ----------

  function SpaceLeft(s: State, b: nat): int
    requires b < |s.bufs|
  {
    s.bufSize - s.bufs[b].dataSize
  }

  /** mtlk_log_get_free_buf into the active slot */
  function AllocActive(s: State): State {
    if s.free == [] then s.(active := None)
    else s.(active := Some(s.free[0]), free := s.free[1..], rmLock := s.rmLock + 1)
  }

  /** The range [data_size, data_size + size) of the active buffer goes to a writer. */
  function Take(s: State, size: nat): State
    requires s.active.Some? && s.active.value < |s.bufs|
  {
    var b := s.active.value;
    var r := s.bufs[b];
    s.(bufs := s.bufs[b := r.(refcount := r.refcount + 1, dataSize := r.dataSize + size,
                               parts := r.parts + [Part(r.dataSize, size, true)])])
  }

  predicate IdsOk(s: State) {
    && (s.active.Some? ==> s.active.value < |s.bufs|)
    && (forall i :: 0 <= i < |s.free| ==> s.free[i] < |s.bufs|)
  }

  /** A full buffer makes way, in flight if nobody writes to it. */
  function ReserveActive(s: State, size: nat): (State, bool)
    requires IdsOk(s) && s.active.Some?
  {
    var b := s.active.value;
    if SpaceLeft(s, b) >= size then (Take(s, size), true)
    else
      var s2 := if s.bufs[b].refcount == 0 then s.(inFlight := s.inFlight + {b}) else s;
      var s3 := AllocActive(s2);
      if s3.active.None? then (s3, false) else (Take(s3, size), true)
  }

  /** mtlk_log_new_pkt_reserve: the slot is filled if it was empty */
  function ReserveStep(s: State, size: nat): (State, bool)
    requires IdsOk(s)
  {
    var s1 := if s.active.None? then AllocActive(s) else s;
    if s1.active.None? then (s1, false) else ReserveActive(s1, size)
  }

  function ClosePart(r: Buf, k: nat): Buf
    requires k < |r.parts| && r.refcount > 0
  {
    r.(refcount := r.refcount - 1, parts := r.parts[k := r.parts[k].(open := false)])
  }

  function ReleaseStep(s: State, b: nat, k: nat): State
    requires b < |s.bufs| && k < |s.bufs[b].parts| && s.bufs[b].refcount > 0
  {
    var s1 := s.(bufs := s.bufs[b := ClosePart(s.bufs[b], k)]);
    if s1.bufs[b].refcount > 0 then s1
    else if s.active != Some(b) then s1.(inFlight := s.inFlight + {b})
    else if s1.bufs[b].expired then s1.(active := None, inFlight := s.inFlight + {b})
    else s1
  }

  function Expire(s: State): State
    requires s.active.Some? && s.active.value < |s.bufs|
  {
    s.(bufs := s.bufs[s.active.value := s.bufs[s.active.value].(expired := true)])
  }

  function TimerStep(s: State): State
    requires IdsOk(s)
  {
    if s.active.None? then s
    else
      var b := s.active.value;
      if s.bufs[b].refcount > 0 then Expire(s)
      else if s.bufs[b].dataSize == 0 then s
      else AllocActive(s.(inFlight := s.inFlight + {b}))
  }

  function DetachStep(s: State): State
    requires IdsOk(s)
  {
    if s.active.None? then s
    else
      var b := s.active.value;
      if s.bufs[b].refcount > 0 then Expire(s)
      else if s.bufs[b].dataSize > 0 then s.(active := None, inFlight := s.inFlight + {b})
      else s.(active := None, returning := s.returning + {b})
  }

  /** mtlk_log_put_free_buf: the descriptor is reset and queued */
  function Recycle(s: State, b: nat): State
    requires b < |s.bufs|
  {
    s.(bufs := s.bufs[b := s.bufs[b].(dataSize := 0, expired := false, parts := [])],
       free := s.free + [b], rmLock := s.rmLock - 1)
  }

  /** A step is possible when its caller plays by the rules: writers release what they hold, the
      consumer returns what it took, and queueing follows leaving the slot. */
  predicate Enabled(s: State, step: Step) {
    match step
    case Reserve(size) => size <= s.bufSize
    case Release(b, k) => b < |s.bufs| && k < |s.bufs[b].parts| && s.bufs[b].parts[k].open
    case Timer => true
    case Detach => true
    case PutReady(b) => b in s.inFlight
    case PutFree(b) => b in s.returning
    case GetReady => s.ready != []
    case ConsumerPutFree(b) => b in s.consumer
  }

  /** The buffer in the slot is idle and expired: what the timer and the detaching assert against. */
  predicate StaleActive(s: State)
    requires IdsOk(s)
  {
    s.active.Some? && s.bufs[s.active.value].refcount == 0 && s.bufs[s.active.value].expired
  }

  /** None where an assertion of the code would fail (or a buffer does not exist). */
  function Next(s: State, step: Step): Option<State>
    requires Enabled(s, step)
  {
    if !IdsOk(s) then None
    else
      match step
      case Reserve(size) => Some(ReserveStep(s, size).0)
      case Release(b, k) => if s.bufs[b].refcount == 0 then None else Some(ReleaseStep(s, b, k))
      case Timer => if StaleActive(s) then None else Some(TimerStep(s))
      case Detach => if StaleActive(s) then None else Some(DetachStep(s))
      case PutReady(b) => Some(s.(inFlight := s.inFlight - {b}, ready := s.ready + [b]))
      case PutFree(b) =>
        if b >= |s.bufs| then None else Some(Recycle(s, b).(returning := s.returning - {b}))
      case GetReady => Some(s.(ready := s.ready[1..], consumer := s.consumer + {s.ready[0]}))
      case ConsumerPutFree(b) =>
        if b >= |s.bufs| then None else Some(Recycle(s, b).(consumer := s.consumer - {b}))
  }

  // ---------- the invariant ----------

  function OpenParts(parts: seq<Part>): nat {
    if parts == [] then 0
    else OpenParts(parts[..|parts| - 1]) + if parts[|parts| - 1].open then 1 else 0
  }

  /** The ranges lie end to end from 0 to n. */
  predicate Tiles(parts: seq<Part>, n: nat) {
    if parts == [] then n == 0
    else
      var last := parts[|parts| - 1];
      last.start + last.len == n && Tiles(parts[..|parts| - 1], last.start)
  }

  predicate GoodBuf(s: State, r: Buf) {
    r.refcount == OpenParts(r.parts) && Tiles(r.parts, r.dataSize) && r.dataSize <= s.bufSize
  }

  function One(b: bool): nat { if b then 1 else 0 }

  /** A buffer that has left the slot while somebody still writes to it. */
  predicate Detached(s: State, b: nat)
    requires b < |s.bufs|
  {
    s.bufs[b].refcount > 0 && s.active != Some(b)
  }

  /** In how many places a buffer is. */
  ghost function Owners(s: State, b: nat): nat
    requires b < |s.bufs|
  {
    multiset(s.free)[b] + multiset(s.ready)[b] + One(s.active == Some(b)) + One(b in s.inFlight)
      + One(b in s.returning) + One(b in s.consumer) + One(Detached(s, b))
  }

  ghost predicate Inv(s: State) {
    && IdsOk(s) && (forall i :: 0 <= i < |s.ready| ==> s.ready[i] < |s.bufs|)
    && (forall b :: b in s.inFlight ==> b < |s.bufs|)
    && (forall b :: b in s.returning ==> b < |s.bufs|)
    && (forall b :: b in s.consumer ==> b < |s.bufs|)
    && (forall b :: 0 <= b < |s.bufs| ==> Owners(s, b) == 1)
    && (forall b :: 0 <= b < |s.bufs| ==> GoodBuf(s, s.bufs[b]))
    && (forall i :: 0 <= i < |s.free| ==> s.bufs[s.free[i]] == EMPTY)
    && (s.active.Some? && s.bufs[s.active.value].refcount == 0 ==> !s.bufs[s.active.value].expired)
    && s.rmLock == 1 + |s.bufs| - |s.free|
  }

  lemma {:induction false} OpenPartsCount(parts: seq<Part>, k: nat)
    requires k < |parts| && parts[k].open
    ensures OpenParts(parts) > 0
    ensures OpenParts(parts[k := parts[k].(open := false)]) == OpenParts(parts) - 1
  {
    var n := |parts| - 1;
    var parts' := parts[k := parts[k].(open := false)];
    if k < n {
      OpenPartsCount(parts[..n], k);
      assert parts'[..n] == parts[..n][k := parts[k].(open := false)];
    } else {
      assert parts'[..n] == parts[..n];
    }
  }

  // ---------- every step keeps the invariant ----------

  lemma PopCounts(q: seq<nat>, b: nat)
    requires q != []
    ensures multiset(q)[b] == multiset(q[1..])[b] + One(q[0] == b)
  {
    assert q == [q[0]] + q[1..];
  }

  lemma PushCounts(q: seq<nat>, x: nat, b: nat)
    ensures multiset(q + [x])[b] == multiset(q)[b] + One(x == b)
  {
  }

  lemma AllocKeepsInv(s: State)
    requires Inv(s) && s.active.None?
    ensures Inv(AllocActive(s))
    ensures AllocActive(s).active.Some? ==> AllocActive(s).bufs[AllocActive(s).active.value] == EMPTY
  {
    if s.free != [] {
      var s' := AllocActive(s);
      var x := s.free[0];
      forall b | 0 <= b < |s'.bufs| ensures Owners(s', b) == 1 {
        PopCounts(s.free, b);
        assert Owners(s, b) == 1;
      }
      forall i | 0 <= i < |s'.free| ensures s'.free[i] < |s.bufs| && s'.bufs[s'.free[i]] == EMPTY {
        assert s'.free[i] == s.free[i + 1];
      }
    }
  }

  /** Emptying the slot: a buffer somebody writes to becomes detached, an idle one is in flight. */
  function Vacate(s: State): State
    requires s.active.Some? && s.active.value < |s.bufs|
  {
    var b := s.active.value;
    if s.bufs[b].refcount > 0 then s.(active := None) else s.(active := None, inFlight := s.inFlight + {b})
  }

  lemma VacateKeepsInv(s: State)
    requires Inv(s) && s.active.Some?
    ensures Inv(Vacate(s))
  {
    forall b | 0 <= b < |s.bufs| ensures Owners(Vacate(s), b) == 1 {
      assert Owners(s, b) == 1;
    }
  }

  lemma TakeKeepsInv(s: State, size: nat)
    requires Inv(s) && s.active.Some? && SpaceLeft(s, s.active.value) >= size
    ensures Inv(Take(s, size))
  {
    var b := s.active.value;
    var s' := Take(s, size);
    var (p, p') := (s.bufs[b].parts, s'.bufs[b].parts);
    assert p'[..|p'| - 1] == p;
    assert Owners(s, b) == 1;
    forall c | 0 <= c < |s'.bufs| ensures Owners(s', c) == 1 {
      assert Owners(s, c) == 1;
    }
    forall i | 0 <= i < |s'.free| ensures s'.bufs[s'.free[i]] == EMPTY {
      assert s.free[i] in multiset(s.free);
    }
  }

  /** The full active buffer makes way for a fresh one, which certainly has room. */
  lemma ReplaceKeepsInv(s: State, size: nat)
    requires Inv(s) && s.active.Some? && size <= s.bufSize
    ensures var s' := AllocActive(Vacate(s));
            Inv(s') && (s'.active.Some? ==> SpaceLeft(s', s'.active.value) >= size && Inv(Take(s', size)))
  {
    VacateKeepsInv(s);
    AllocKeepsInv(Vacate(s));
    var s' := AllocActive(Vacate(s));
    if s'.active.Some? { TakeKeepsInv(s', size); }
  }

  lemma ReserveActiveKeepsInv(s: State, size: nat)
    requires Inv(s) && s.active.Some? && size <= s.bufSize
    ensures Inv(ReserveActive(s, size).0)
  {
    if SpaceLeft(s, s.active.value) >= size {
      TakeKeepsInv(s, size);
    } else {
      ReplaceKeepsInv(s, size);
      var s' := AllocActive(Vacate(s));
      assert ReserveActive(s, size).0 == if s'.active.Some? then Take(s', size) else s';
    }
  }

  lemma ReserveKeepsInv(s: State, size: nat)
    requires Inv(s) && size <= s.bufSize
    ensures Inv(ReserveStep(s, size).0)
  {
    var s1 := if s.active.None? then AllocActive(s) else s;
    if s.active.None? { AllocKeepsInv(s); }
    if s1.active.Some? { ReserveActiveKeepsInv(s1, size); }
  }

  lemma {:induction false} ClosingKeepsTiles(parts: seq<Part>, k: nat, n: nat)
    requires k < |parts| && Tiles(parts, n)
    ensures Tiles(parts[k := parts[k].(open := false)], n)
  {
    var m := |parts| - 1;
    var parts' := parts[k := parts[k].(open := false)];
    if k < m {
      ClosingKeepsTiles(parts[..m], k, parts[m].start);
      assert parts'[..m] == parts[..m][k := parts[k].(open := false)];
    } else {
      assert parts'[..m] == parts[..m];
    }
  }

  lemma ClosedIsGood(s: State, r: Buf, k: nat)
    requires GoodBuf(s, r) && k < |r.parts| && r.parts[k].open
    ensures r.refcount > 0 && GoodBuf(s, ClosePart(r, k))
  {
    OpenPartsCount(r.parts, k);
    ClosingKeepsTiles(r.parts, k, r.dataSize);
  }

  lemma ReleaseKeepsInv(s: State, b: nat, k: nat)
    requires Inv(s) && b < |s.bufs| && k < |s.bufs[b].parts| && s.bufs[b].parts[k].open && s.bufs[b].refcount > 0
    ensures Inv(ReleaseStep(s, b, k))
  {
    var s' := ReleaseStep(s, b, k);
    ClosedIsGood(s, s.bufs[b], k);
    assert s'.bufs == s.bufs[b := ClosePart(s.bufs[b], k)] && s'.free == s.free && s'.ready == s.ready;
    assert Owners(s, b) == 1;
    assert Owners(s', b) == 1;
    forall c | 0 <= c < |s'.bufs| ensures Owners(s', c) == 1 {
      assert Owners(s, c) == 1;
    }
    forall i | 0 <= i < |s'.free| ensures s'.bufs[s'.free[i]] == EMPTY {
      assert s.free[i] in multiset(s.free);
    }
  }

  lemma ExpireKeepsInv(s: State)
    requires Inv(s) && s.active.Some? && s.bufs[s.active.value].refcount > 0
    ensures Inv(Expire(s))
  {
    var s' := Expire(s);
    assert Owners(s, s.active.value) == 1;
    forall c | 0 <= c < |s'.bufs| ensures Owners(s', c) == 1 {
      assert Owners(s, c) == 1;
    }
    forall i | 0 <= i < |s'.free| ensures s'.bufs[s'.free[i]] == EMPTY {
      assert s.free[i] in multiset(s.free);
    }
  }

  lemma DetachEmptyKeepsInv(s: State)
    requires Inv(s) && s.active.Some? && s.bufs[s.active.value].refcount == 0
    ensures Inv(s.(active := None, returning := s.returning + {s.active.value}))
  {
    var s' := s.(active := None, returning := s.returning + {s.active.value});
    forall c | 0 <= c < |s'.bufs| ensures Owners(s', c) == 1 {
      assert Owners(s, c) == 1;
    }
  }

  /** A buffer whose only owner hands it to the free list. */
  lemma RecycleKeepsInv(s: State, b: nat, s': State)
    requires Inv(s) && b < |s.bufs| && (b in s.returning || b in s.consumer)
    requires s' == Recycle(s, b).(returning := s.returning - {b}, consumer := s.consumer - {b})
    ensures Inv(s')
  {
    assert Owners(s, b) == 1;
    NoOpenParts(s.bufs[b].parts);
    assert s'.bufs == s.bufs[b := EMPTY];
    forall c | 0 <= c < |s'.bufs| ensures Owners(s', c) == 1 {
      PushCounts(s.free, b, c);
      assert Owners(s, c) == 1;
    }
    RecycledFree(s, b);
    forall c | 0 <= c < |s'.bufs| ensures GoodBuf(s', s'.bufs[c]) {
      assert GoodBuf(s, s.bufs[c]);
    }
  }

  lemma PutFreeKeepsInv(s: State, b: nat)
    requires Inv(s)
    ensures b in s.returning ==> Inv(Recycle(s, b).(returning := s.returning - {b}))
    ensures b in s.consumer ==> Inv(Recycle(s, b).(consumer := s.consumer - {b}))
  {
    if b in s.returning || b in s.consumer {
      assert Owners(s, b) == 1;
      assert b in s.returning ==> s.consumer - {b} == s.consumer;
      assert b in s.consumer ==> s.returning - {b} == s.returning;
      RecycleKeepsInv(s, b, Recycle(s, b).(returning := s.returning - {b}, consumer := s.consumer - {b}));
    }
  }

  lemma RecycledFree(s: State, b: nat)
    requires Inv(s) && b < |s.bufs|
    ensures forall i :: 0 <= i < |s.free + [b]| ==>
              (s.free + [b])[i] < |s.bufs| && s.bufs[b := EMPTY][(s.free + [b])[i]] == EMPTY
  {
  }

  lemma QueueKeepsInv(s: State, b: nat)
    requires Inv(s) && b in s.inFlight
    ensures Inv(s.(inFlight := s.inFlight - {b}, ready := s.ready + [b]))
  {
    var s' := s.(inFlight := s.inFlight - {b}, ready := s.ready + [b]);
    forall c | 0 <= c < |s'.bufs| ensures Owners(s', c) == 1 {
      PushCounts(s.ready, b, c);
      assert Owners(s, c) == 1;
    }
  }

  lemma GetReadyKeepsInv(s: State)
    requires Inv(s) && s.ready != []
    ensures Inv(s.(ready := s.ready[1..], consumer := s.consumer + {s.ready[0]}))
  {
    var s' := s.(ready := s.ready[1..], consumer := s.consumer + {s.ready[0]});
    forall c | 0 <= c < |s'.bufs| ensures Owners(s', c) == 1 {
      PopCounts(s.ready, c);
      assert Owners(s, c) == 1;
    }
    forall i | 0 <= i < |s'.ready| ensures s'.ready[i] < |s.bufs| {
      assert s'.ready[i] == s.ready[i + 1];
    }
  }

  lemma IdleKeepsInv(s: State)
    requires Inv(s)
    ensures Inv(TimerStep(s)) && Inv(DetachStep(s))
  {
    if s.active.Some? {
      if s.bufs[s.active.value].refcount > 0 {
        ExpireKeepsInv(s);
      } else {
        VacateKeepsInv(s);
        AllocKeepsInv(Vacate(s));
        DetachEmptyKeepsInv(s);
        assert AllocActive(Vacate(s)) == AllocActive(s.(inFlight := s.inFlight + {s.active.value}));
      }
    }
  }

  /** No step of the protocol breaks the invariant or trips an assertion. */
  lemma StepKeepsInv(s: State, step: Step)
    requires Inv(s) && Enabled(s, step)
    ensures Next(s, step).Some? && Inv(Next(s, step).value)
  {
    match step
    case Reserve(size) => ReserveKeepsInv(s, size);
    case Release(b, k) =>
      OpenPartsCount(s.bufs[b].parts, k);
      assert GoodBuf(s, s.bufs[b]);
      ReleaseKeepsInv(s, b, k);
    case Timer => IdleKeepsInv(s);
    case Detach => IdleKeepsInv(s);
    case PutReady(b) => QueueKeepsInv(s, b);
    case PutFree(b) => PutFreeKeepsInv(s, b);
    case GetReady => GetReadyKeepsInv(s);
    case ConsumerPutFree(b) => PutFreeKeepsInv(s, b);
  }

  // ---------- whole runs ----------

  /** All callers play by the rules, as far as the run gets. */
  predicate Legal(s: State, steps: seq<Step>)
    decreases |steps|
  {
    steps != [] ==> Enabled(s, steps[0]) && (Next(s, steps[0]).Some? ==> Legal(Next(s, steps[0]).value, steps[1..]))
  }

  function Run(s: State, steps: seq<Step>): Option<State>
    requires Legal(s, steps)
    decreases |steps|
  {
    if steps == [] then Some(s)
    else
      var n := Next(s, steps[0]);
      if n.None? then None else Run(n.value, steps[1..])
  }

  /** After mtlk_log_init: n free buffers, and the remove lock held once. */
  function Init(bufSize: nat, n: nat): State {
    State(bufSize, seq(n, i => EMPTY), seq(n, i => i), None, [], {}, {}, {}, 1)
  }

  lemma {:induction false} IotaCounts(n: nat, b: nat)
    requires b < n
    ensures multiset(seq(n, (i: nat) => i))[b] == 1
  {
    var q := seq(n, (i: nat) => i);
    assert q == seq(n - 1, (i: nat) => i) + [n - 1];
    if b < n - 1 { IotaCounts(n - 1, b); } else { IotaLacks(n - 1, b); }
  }

  lemma IotaLacks(n: nat, b: nat)
    requires b >= n
    ensures multiset(seq(n, (i: nat) => i))[b] == 0
  {
    assert b !in seq(n, (i: nat) => i);
  }

  lemma InitHasInv(bufSize: nat, n: nat)
    ensures Inv(Init(bufSize, n))
  {
    var s := Init(bufSize, n);
    assert s.free == seq(n, (i: nat) => i);
    forall b | 0 <= b < n ensures Owners(s, b) == 1 {
      IotaCounts(n, b);
    }
  }

  /** Every run from the initial state completes without a failed assertion, in a state where
      each buffer has exactly one owner. */
  lemma {:induction false} RunsAreSafe(s: State, steps: seq<Step>)
    requires Inv(s) && Legal(s, steps)
    ensures Run(s, steps).Some? && Inv(Run(s, steps).value)
    decreases |steps|
  {
    if steps != [] {
      StepKeepsInv(s, steps[0]);
      RunsAreSafe(Next(s, steps[0]).value, steps[1..]);
    }
  }

  // ---------- what the invariant means ----------

  lemma {:induction false} TilesDisjoint(parts: seq<Part>, n: nat, i: nat, j: nat)
    requires Tiles(parts, n) && i < j < |parts|
    ensures parts[i].start + parts[i].len <= parts[j].start && parts[j].start + parts[j].len <= n
  {
    var m := |parts| - 1;
    if j < m {
      TilesDisjoint(parts[..m], parts[m].start, i, j);
    } else {
      TilesWithin(parts[..m], parts[m].start, i);
    }
  }

  lemma {:induction false} TilesWithin(parts: seq<Part>, n: nat, i: nat)
    requires Tiles(parts, n) && i < |parts|
    ensures parts[i].start + parts[i].len <= n
  {
    var m := |parts| - 1;
    if i < m { TilesWithin(parts[..m], parts[m].start, i); }
  }

  predicate Covers(p: Part, x: nat) { p.start <= x < p.start + p.len }

  predicate Covered(parts: seq<Part>, x: nat) { exists i :: 0 <= i < |parts| && Covers(parts[i], x) }

  lemma {:induction false} TilesCover(parts: seq<Part>, n: nat, x: nat)
    requires Tiles(parts, n) && x < n
    ensures Covered(parts, x)
  {
    var m := |parts| - 1;
    if x < parts[m].start {
      TilesCover(parts[..m], parts[m].start, x);
      var i :| 0 <= i < m && Covers(parts[..m][i], x);
      assert parts[i] == parts[..m][i];
    } else {
      assert Covers(parts[m], x);
    }
  }

  /** The ranges handed out from a buffer during its life are pairwise disjoint, lie within the
      buffer, and fill it up to data_size without a gap. */
  lemma RangesTile(s: State, b: nat)
    requires Inv(s) && b < |s.bufs|
    ensures var p := s.bufs[b].parts;
            && (forall i, j :: 0 <= i < j < |p| ==> p[i].start + p[i].len <= p[j].start)
            && (forall i :: 0 <= i < |p| ==> p[i].start + p[i].len <= s.bufs[b].dataSize <= s.bufSize)
            && (forall x: nat :: x < s.bufs[b].dataSize ==> Covered(p, x))
  {
    assert GoodBuf(s, s.bufs[b]);
    var (p, n) := (s.bufs[b].parts, s.bufs[b].dataSize);
    forall i, j | 0 <= i < j < |p| ensures p[i].start + p[i].len <= p[j].start { TilesDisjoint(p, n, i, j); }
    forall i | 0 <= i < |p| ensures p[i].start + p[i].len <= n { TilesWithin(p, n, i); }
    forall x: nat | x < n ensures Covered(p, x) { TilesCover(p, n, x); }
  }

  /** Nobody writes to a buffer that is queued, in flight, with the consumer or free. */
  lemma QueuedHasNoWriter(s: State, b: nat, k: nat)
    requires Inv(s) && b < |s.bufs| && k < |s.bufs[b].parts|
    requires b in s.ready || b in s.inFlight || b in s.consumer || b in s.free || b in s.returning
    ensures !s.bufs[b].parts[k].open
  {
    assert Owners(s, b) == 1;
    assert b in s.ready ==> multiset(s.ready)[b] > 0;
    assert b in s.free ==> multiset(s.free)[b] > 0;
    assert GoodBuf(s, s.bufs[b]);
    NoOpenParts(s.bufs[b].parts);
  }

  /** The numbers below n that are not in the list. */
  ghost function Outside(q: seq<nat>, n: nat): set<nat> { set b: nat | b < n && b !in q }

  lemma OutsideCount(q: seq<nat>, n: nat)
    requires NoDup(q) && forall i :: 0 <= i < |q| ==> q[i] < n
    ensures |Outside(q, n)| == n - |q|
    ensures |Outside(q, n)| == 0 <==> forall b: nat :: b < n ==> b in q
  {
    var (inside, all) := (Elements(q), Upto(n));
    DistinctSize(q);
    assert all == inside + Outside(q, n);
    if |Outside(q, n)| == 0 {
      forall b: nat | b < n ensures b in q { assert b !in Outside(q, n); }
    } else {
      var b :| b in Outside(q, n);
    }
  }

  /** The remove lock counts the reference of the initialization and one for each buffer that is not
      on the free list; so it is down to one exactly when every buffer is back, which is what cleanup
      waits for. */
  lemma RemoveLockCountsBuffers(s: State)
    requires Inv(s)
    ensures s.rmLock == 1 + |Outside(s.free, |s.bufs|)|
    ensures s.rmLock == 1 <==> forall b: nat :: b < |s.bufs| ==> b in s.free
  {
    FreeIsDistinct(s);
    OutsideCount(s.free, |s.bufs|);
  }

  lemma FreeIsDistinct(s: State)
    requires Inv(s)
    ensures NoDup(s.free)
  {
    forall i, j | 0 <= i < j < |s.free| ensures s.free[i] != s.free[j] {
      var q := s.free;
      assert q == q[..j] + q[j..];
      assert q[i] in q[..j] && q[j] in q[j..];
      assert multiset(q) == multiset(q[..j]) + multiset(q[j..]);
      assert Owners(s, q[i]) == 1;
    }
  }

  lemma {:induction false} NoOpenParts(parts: seq<Part>)
    ensures OpenParts(parts) == 0 <==> forall k :: 0 <= k < |parts| ==> !parts[k].open
  {
    if parts != [] { NoOpenParts(parts[..|parts| - 1]); }
  }
}
