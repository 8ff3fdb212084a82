/** The staged init and cleanup macros: bits of two 32-bit fields say which steps were performed and
    which were skipped, and cleanup has to undo exactly what init did. */
module StartupSteps {
  import opened Common

  const MASK_BITS: nat := 32

  /** A 32-bit field, as the set of its bits that are one. */
  type Mask = set<nat>

  /** MTLK_U_BITS_VALUE(0, n, -1): the n low bits. */
  function Low(n: nat): Mask {
    if n == 0 then {} else Low(n - 1) + {n - 1}
  }

  lemma {:induction false} InLow(n: nat, bit: nat)
    ensures bit in Low(n) <==> bit < n
  {
    if n > 0 { InLow(n - 1, bit); }
  }

  lemma LowDiffers(m: nat, k: nat)
    requires m <= k
    ensures Low(m) == Low(k) <==> m == k
  {
    InLow(m, m);
    InLow(k, m);
  }

  lemma LowBefore(k: nat)
    ensures Low(k + 1) - {k} == Low(k)
  {
    InLow(k, k);
  }

  /** A step performed once if its precondition holds, or a step performed in a loop. */
  datatype Step = Single(cond: bool) | Loop(count: nat)

  datatype Outcome = Done | Failed | Tripped

  /** The step numbers and the bit that tells init from cleanup fit the fields. */
  ghost predicate Fits(plan: seq<Step>) { |plan| < MASK_BITS }

  // ---------- what init is to run ----------

  ghost function Repeat(x: nat, n: nat): (s: seq<nat>)
    ensures |s| == n
  {
    if n == 0 then [] else Repeat(x, n - 1) + [x]
  }

  /** How often init gets to a step: once, or once in each iteration. */
  function Visits(step: Step): nat { if step.Single? then 1 else step.count }

  /** The visits of the first k steps. */
  ghost function Count(plan: seq<Step>, k: nat): nat
    requires k <= |plan|
  {
    if k == 0 then 0 else Count(plan, k - 1) + Visits(plan[k - 1])
  }

  /** The step functions called from step k on, if only `left` more visits are made. */
  ghost function Ran(plan: seq<Step>, k: nat, left: nat): seq<nat>
    requires k <= |plan|
    decreases |plan| - k
  {
    if k == |plan| || left == 0 then []
    else match plan[k]
      case Single(cond) => (if cond then [k] else []) + Ran(plan, k + 1, left - 1)
      case Loop(count) =>
        if left < count then Repeat(k, left) else Repeat(k, count) + Ran(plan, k + 1, left - count)
  }

  /** The run gets past a loop that makes no iteration: the visit after it succeeds, or there is none. */
  ghost predicate PassesEmptyLoop(plan: seq<Step>, failAt: nat) {
    exists k :: 0 <= k < |plan| && plan[k] == Loop(0) && PassesAt(plan, failAt, k)
  }

  ghost predicate PassesAt(plan: seq<Step>, failAt: nat, k: nat)
    requires k <= |plan|
  {
    Count(plan, k) < failAt || Count(plan, k) == failAt == Count(plan, |plan|)
  }

  lemma {:induction false} CountGrows(plan: seq<Step>, k: nat, l: nat)
    requires k <= l <= |plan|
    ensures Count(plan, k) <= Count(plan, l)
    decreases l
  {
    if k < l { CountGrows(plan, k, l - 1); }
  }

  // ---------- what is there to be undone ----------

  ghost function Work(plan: seq<Step>, counters: seq<nat>, k: nat): seq<nat>
    requires k < |plan| == |counters|
  {
    match plan[k]
    case Single(cond) => if cond then [k] else []
    case Loop(_) => Repeat(k, counters[k])
  }

  /** The step functions called by the first k steps, going by the loop counters. */
  ghost function Performed(plan: seq<Step>, counters: seq<nat>, k: nat): seq<nat>
    requires k <= |plan| == |counters|
  {
    if k == 0 then [] else Performed(plan, counters, k - 1) + Work(plan, counters, k - 1)
  }

  ghost function Reversed(s: seq<nat>): seq<nat> {
    if s == [] then [] else Reversed(s[1..]) + [s[0]]
  }

  lemma {:induction false} ReversedAppend(s: seq<nat>, x: nat)
    ensures Reversed(s + [x]) == [x] + Reversed(s)
  {
    if s == [] {
      assert [x][1..] == [];
    } else {
      ReversedAppend(s[1..], x);
      assert (s + [x])[1..] == s[1..] + [x];
    }
  }

  lemma {:induction false} PerformedOnly(plan: seq<Step>, a: seq<nat>, b: seq<nat>, k: nat)
    requires k <= |plan| == |a| == |b| && forall j :: 0 <= j < k ==> a[j] == b[j]
    ensures Performed(plan, a, k) == Performed(plan, b, k)
  {
    if k > 0 { PerformedOnly(plan, a, b, k - 1); }
  }

  /** What the SKIPPED field and the loop counters look like after the first m steps. */
  ghost predicate Marks(plan: seq<Step>, skipped: Mask, counters: seq<nat>, m: nat)
    decreases m
  {
    && m <= |plan| == |counters|
    && if m == 0 then skipped == {} && counters == Zeros(|plan|)
       else
         && Marks(plan, skipped - {m - 1}, counters[m - 1 := 0], m - 1)
         && (m - 1 in skipped <==> plan[m - 1] == Single(false))
         && (counters[m - 1] > 0 <==> plan[m - 1].Loop?)
  }

  lemma {:induction false} NoMarksBeyond(plan: seq<Step>, skipped: Mask, counters: seq<nat>, m: nat, j: nat)
    requires Marks(plan, skipped, counters, m) && m <= j
    ensures j !in skipped && (j < |plan| ==> counters[j] == 0)
    decreases m
  {
    if m > 0 { NoMarksBeyond(plan, skipped - {m - 1}, counters[m - 1 := 0], m - 1, j); }
  }

  /** A first iteration takes the marks one step further, later ones only move the counter. */
  lemma MarksAfterTurn(plan: seq<Step>, skipped: Mask, counters: seq<nat>, m: nat, k: nat)
    requires Marks(plan, skipped, counters, m) && k < |plan| && plan[k].Loop?
    requires m == if counters[k] == 0 then k else k + 1
    ensures Marks(plan, skipped, counters[k := counters[k] + 1], k + 1)
  {
    var after := counters[k := counters[k] + 1];
    if m == k {
      NoMarksBeyond(plan, skipped, counters, m, k);
      assert skipped - {k} == skipped && after[k := 0] == counters;
    } else {
      assert after[k := 0] == counters[k := 0];
    }
  }

  lemma MarksAfterSingle(plan: seq<Step>, skipped: Mask, counters: seq<nat>, m: nat)
    requires Marks(plan, skipped, counters, m) && m < |plan| && plan[m].Single? && |plan| < MASK_BITS
    ensures Marks(plan, if plan[m].cond then skipped else skipped + {m}, counters, m + 1)
  {
    NoMarksBeyond(plan, skipped, counters, m, m);
    var after := if plan[m].cond then skipped else skipped + {m};
    assert after - {m} == skipped && counters[m := 0] == counters;
  }

  function Zeros(n: nat): seq<nat> { seq(n, _ => 0) }

  class Startup {
    const plan: seq<Step>
    var main: Mask
    var skipped: Mask
    var counters: seq<nat>
    ghost var done: seq<nat>
    ghost var undone: seq<nat>

    constructor (plan: seq<Step>)
      requires Fits(plan)
      ensures this.plan == plan && Zeroed() && done == [] && undone == []
    {
      this.plan := plan;
      main, skipped, counters, done, undone := {}, {}, Zeros(|plan|), [], [];
    }

    /** All fields zero, as in an object that was just allocated or just cleaned up. */
    ghost predicate Zeroed()
      reads this
    {
      Fits(plan) && main == {} && skipped == {} && counters == Zeros(|plan|)
    }

    /** The first m steps have been performed or skipped, the others not. */
    ghost predicate StandsAt(m: nat)
      reads this
    {
      Fits(plan) && Marks(plan, skipped, counters, m) && done == Performed(plan, counters, m)
    }

    /** StandsAt, unfolded only where it is asked for. */
    ghost predicate Stands(m: nat)
      reads this
    {
      forall n: nat {:trigger StandsAt(n)} :: n == m ==> StandsAt(n)
    }

    /** After RETURN: some first steps are marked, and the bit that allows one cleanup is set. */
    ghost predicate Initialised()
      reads this
    {
      undone == [] && exists m :: 0 <= m <= |plan| && Stands(m) && main == Low(m) + {|plan|}
    }

    // ---------- init ----------

    /** _MTLK_FWD_STEP. The assertion is that exactly the steps before this one are marked. */
    method FwdStep(idx: nat, cond: bool, loop: bool, fails: bool) returns (o: Outcome)
      requires Fits(plan) && idx < |plan| == |counters|
      modifies this
      ensures undone == old(undone)
      ensures fails ==> o == Failed && main == old(main) && skipped == old(skipped)
      ensures fails ==> counters == old(counters) && done == old(done)
      ensures !fails ==>
        var first := !cond || !loop || old(counters)[idx] == 0;
        && counters == (if cond && loop then old(counters)[idx := old(counters)[idx] + 1] else old(counters))
        && done == (if cond then old(done) + [idx] else old(done))
        && skipped == (if cond then old(skipped) else old(skipped) + {idx})
        && o == (if first && old(main) != Low(idx) then Tripped else Done)
        && (o == Done ==> main == if first then Low(idx + 1) else old(main))
    {
      var execCounter := 0;
      if fails { return Failed; }
      if cond {
        done := done + [idx];
        if loop {
          execCounter := counters[idx];
          counters := counters[idx := counters[idx] + 1];
        }
      } else {
        skipped := skipped + {idx};
      }
      if execCounter == 0 {
        if main != Low(idx) { return Tripped; }
        main := main + {idx};
      }
      o := Done;
    }

    /** What init knows between two steps: how far it got, and that only empty loops lie behind the
        last step it marked. */
    ghost predicate Between(k: nat, m: nat)
      reads this
    {
      && Stands(m) && m <= k <= |plan| < MASK_BITS && |counters| == |plan| && main == Low(m) && undone == []
      && (forall j :: m <= j < k ==> plan[j] == Loop(0))
      && (forall j :: 0 <= j < m ==> plan[j] != Loop(0))
    }

    /** How a step can fail: the field tells what ran before it. */
    ghost predicate Stopped(m: nat)
      reads this
    {
      Stands(m) && m <= |plan| < MASK_BITS && main == Low(m) && undone == []
    }

    /** A single step. */
    method InitSingle(k: nat, ghost m: nat, left: nat) returns (o: Outcome)
      requires Between(k, m) && k < |plan| && plan[k].Single?
      modifies this
      ensures o == Done ==> left > 0 && m == k && Between(k + 1, k + 1)
      ensures o == Done ==> done == old(done) + if plan[k].cond then [k] else []
      ensures o == Failed ==> left == 0 && Stopped(m) && done == old(done)
      ensures o == Tripped <==> m < k && left > 0
    {
      ghost var before := skipped;
      assert StandsAt(m);
      if m < k { LowDiffers(m, k); }
      o := FwdStep(k, plan[k].cond, false, left == 0);
      if o == Done { MarksAfterSingle(plan, before, counters, k); }
      assert o == Failed ==> StandsAt(m);
    }

    /** Where init is after i iterations of a loop step. */
    ghost predicate InLoop(k: nat, m: nat, i: nat)
      reads this
    {
      && k < |plan| && plan[k].Loop? && i <= plan[k].count && m <= k + 1
      && Stands(m) && |plan| < MASK_BITS && |counters| == |plan| && main == Low(m) && undone == [] && counters[k] == i
      && (m == k + 1 <==> i > 0)
    }

    /** One iteration of a loop step. */
    method InitTurn(k: nat, ghost m: nat, i: nat, fails: bool) returns (o: Outcome)
      requires InLoop(k, m, i) && i < plan[k].count
      modifies this
      ensures o == Done ==> !fails && m >= k && InLoop(k, k + 1, i + 1) && done == old(done) + [k]
      ensures o == Failed ==> fails && InLoop(k, m, i) && done == old(done)
      ensures o == Tripped <==> m < k && !fails
    {
      ghost var before := counters;
      assert StandsAt(m);
      if m < k { LowDiffers(m, k); }
      o := FwdStep(k, true, true, fails);
      if o == Done {
        OneMore(plan, before, k);
        MarksAfterTurn(plan, skipped, before, m, k);
      }
    }

    /** A loop step. */
    method InitLoop(k: nat, ghost m: nat, left: nat) returns (o: Outcome, ghost m': nat)
      requires Between(k, m) && k < |plan| && plan[k].Loop?
      modifies this
      ensures o == Done ==> left >= plan[k].count && Between(k + 1, m') && done == old(done) + Repeat(k, plan[k].count)
      ensures o == Failed ==> left < plan[k].count && Stopped(m') && done == old(done) + Repeat(k, left)
      ensures o == Tripped <==> m < k && plan[k].count > 0 && left > 0
    {
      var count, i := plan[k].count, 0;
      m' := m;
      assert StandsAt(m);
      NoMarksBeyond(plan, skipped, counters, m, k);
      ghost var before := done;
      while i < count
        invariant i <= count && i <= left && InLoop(k, m', i)
        invariant m' == (if i == 0 then m else k + 1) && (i > 0 ==> m == k)
        invariant done == before + Repeat(k, i)
      {
        o := InitTurn(k, m', i, i == left);
        if o != Done { return; }
        i, m' := i + 1, k + 1;
      }
      o := Done;
    }

    /** One step of either kind. */
    method InitStep(k: nat, ghost m: nat, left: nat) returns (o: Outcome, ghost m': nat)
      requires Between(k, m) && k < |plan|
      modifies this
      ensures o == Done ==> left >= Visits(plan[k]) && Between(k + 1, m')
      ensures o == Failed ==> left < Visits(plan[k]) && Stopped(m')
      ensures o == Done ==> done + Ran(plan, k + 1, left - Visits(plan[k])) == old(done) + Ran(plan, k, left)
      ensures o == Failed ==> done == old(done) + Ran(plan, k, left)
      ensures o == Tripped <==> m < k && Visits(plan[k]) > 0 && left > 0
    {
      RanStep(plan, k, left);
      if left >= Visits(plan[k]) { Associative(done, Calls(plan, k, left), Ran(plan, k + 1, left - Visits(plan[k]))); }
      if plan[k].Single? {
        o := InitSingle(k, m, left);
        m' := if o == Done then k + 1 else m;
      } else {
        o, m' := InitLoop(k, m, left);
      }
    }

    /** One step, and what its outcome says about the whole run. */
    method InitNext(k: nat, ghost m: nat, left: nat, ghost failAt: nat) returns (o: Outcome, ghost m': nat)
      requires Between(k, m) && k < |plan| && failAt == Count(plan, k) + left
      modifies this
      ensures o == Done ==> left >= Visits(plan[k]) && Between(k + 1, m')
      ensures o == Done ==> done + Ran(plan, k + 1, left - Visits(plan[k])) == old(done) + Ran(plan, k, left)
      ensures o == Failed ==> done == old(done) + Ran(plan, k, left)
      ensures o == Tripped ==> PassesEmptyLoop(plan, failAt)
      ensures o == Failed ==> failAt < Count(plan, |plan|) && Stopped(m') && !PassesEmptyLoop(plan, failAt)
    {
      if m < k && left > 0 && Visits(plan[k]) > 0 { Trips(plan, k, m, failAt); }
      else if left < Visits(plan[k]) { NeverTrips(plan, k, m, failAt); }
      o, m' := InitStep(k, m, left);
    }

    /** The steps of the list, until one fails or trips the assertion. */
    method InitSteps(failAt: nat) returns (o: Outcome, ghost m: nat)
      requires Zeroed() && done == [] && undone == []
      modifies this
      ensures o == Tripped ==> PassesEmptyLoop(plan, failAt)
      ensures o == Failed ==> failAt < Count(plan, |plan|) && Stopped(m) && !PassesEmptyLoop(plan, failAt)
      ensures o == Done ==> failAt >= Count(plan, |plan|) && Between(|plan|, m)
      ensures o != Tripped ==> done == Ran(plan, 0, failAt)
    {
      var k, left: nat := 0, failAt;
      m := 0;
      ghost var all := Ran(plan, 0, failAt);
      while k < |plan|
        invariant Between(k, m) && failAt == Count(plan, k) + left
        invariant done + Ran(plan, k, left) == all
      {
        o, m := InitNext(k, m, left, failAt);
        if o != Done { return; }
        left := left - Visits(plan[k]);
        k := k + 1;
      }
      o := Done;
    }

    /** The init macros from TRY to RETURN: up to `failAt` visits succeed, and the next one fails if
        there is one. Unless the assertion trips, the bit behind the last step is set in the end. */
    method Init(failAt: nat) returns (o: Outcome)
      requires Zeroed() && done == [] && undone == []
      modifies this
      ensures o == Tripped <==> PassesEmptyLoop(plan, failAt)
      ensures o == Done ==> failAt >= Count(plan, |plan|)
      ensures o == Failed ==> failAt < Count(plan, |plan|)
      ensures o != Tripped ==> Initialised() && done == Ran(plan, 0, failAt)
    {
      main, skipped := {}, {};
      ghost var m;
      o, m := InitSteps(failAt);
      if o == Tripped { return; }
      if o == Done {
        LowDiffers(m, |plan|);
        TripsAtEnd(plan, m, failAt - Count(plan, |plan|));
        if main != Low(|plan|) { return Tripped; }
      }
      assert StandsAt(m) && main == Low(m);
      main := main + {|plan|};
      assert StandsAt(m);
    }

    // ---------- cleanup ----------

    /** The first m steps are still to be undone; what ran is their work and, backwards, what was undone. */
    ghost predicate Undoing(m: nat)
      reads this
    {
      && Fits(plan) && Marks(plan, skipped, counters, m) && main == Low(m)
      && done == Performed(plan, counters, m) + Reversed(undone)
    }

    /** _MTLK_BWD_STEP. The last iteration clears the bits, and then exactly the steps before this one are marked. */
    method BwdStep(idx: nat, loop: bool) returns (o: Outcome)
      requires idx < |plan| == |counters| && (loop ==> counters[idx] > 0)
      modifies this
      ensures done == old(done)
      ensures
        var runs := idx in old(main) && idx !in old(skipped);
        && undone == (if runs then old(undone) + [idx] else old(undone))
        && counters == (if runs && loop then old(counters)[idx := old(counters)[idx] - 1] else old(counters))
        && var last := idx in old(main) && (!runs || !loop || counters[idx] == 0);
        && main == (if last then old(main) - {idx} else old(main))
        && skipped == (if last then old(skipped) - {idx} else old(skipped))
        && o == if last && main != Low(idx) then Tripped else Done
    {
      var execCounter := 0;
      if idx !in skipped {
        if idx in main {
          undone := undone + [idx];
          if loop {
            counters := counters[idx := counters[idx] - 1];
            execCounter := counters[idx];
          }
        }
      }
      if idx in main {
        if execCounter == 0 {
          main := main - {idx};
          skipped := skipped - {idx};
          if main != Low(idx) { return Tripped; }
        }
      }
      o := Done;
    }

    method CleanupSingle(k: nat, ghost m: nat) returns (o: Outcome)
      requires Undoing(m) && m <= k + 1 && k < |plan| && plan[k].Single?
      modifies this
      ensures o == Done && done == old(done) && Undoing(if m <= k then m else k)
    {
      if m <= k { NoMarksBeyond(plan, skipped, counters, m, k); }
      InLow(m, k);
      LowBefore(k);
      ghost var before := counters;
      ReversedAppend(undone, k);
      UndoLast(plan, counters, k, Reversed(undone));
      o := BwdStep(k, false);
      assert before[k := 0] == before || m <= k;
    }

    /** One iteration of a loop step, undone. */
    method CleanupTurn(k: nat) returns (o: Outcome)
      requires Undoing(k + 1) && k < |plan| && plan[k].Loop? && counters[k] > 0
      modifies this
      ensures o == Done && done == old(done) && |counters| == |plan| && counters[k] == old(counters)[k] - 1
      ensures Undoing(if counters[k] > 0 then k + 1 else k)
    {
      InLow(k + 1, k);
      LowBefore(k);
      ghost var before := counters;
      ReversedAppend(undone, k);
      OneLess(plan, counters, k, Reversed(undone));
      o := BwdStep(k, true);
      assert before[k := 0] == counters[k := 0];
      assert counters[k] == 0 ==> counters[k := 0] == counters;
    }

    /** A loop step: the cleanup code asks how many iterations are left. */
    method CleanupLoop(k: nat, ghost m: nat) returns (o: Outcome)
      requires Undoing(m) && m <= k + 1 && k < |plan| && plan[k].Loop?
      modifies this
      ensures o == Done && done == old(done) && Undoing(if m <= k then m else k)
    {
      if m <= k { NoMarksBeyond(plan, skipped, counters, m, k); }
      o := Done;
      while counters[k] > 0
        invariant o == Done && done == old(done) && |counters| == |plan|
        invariant Undoing(if m <= k then m else if counters[k] > 0 then k + 1 else k)
        invariant m <= k ==> counters[k] == 0
        decreases counters[k]
      {
        o := CleanupTurn(k);
        if o != Done { return; }
      }
    }

    /** The cleanup macros from BEGIN to END: no assertion trips, everything done is undone in reverse
        order, as often as it was done, and all the fields are zero again. */
    method Cleanup() returns (o: Outcome)
      requires Initialised()
      modifies this
      ensures o == Done && done == old(done) && undone == Reversed(done) && Zeroed()
    {
      ghost var m :| 0 <= m <= |plan| && Stands(m) && main == Low(m) + {|plan|};
      assert StandsAt(m);
      InLow(m, |plan|);
      if |plan| !in main { return Tripped; }
      main := main - {|plan|};
      assert Reversed([]) == [];
      var k := |plan|;
      while k > 0
        invariant k <= |plan| && m <= k && Undoing(m) && done == old(done)
      {
        k := k - 1;
        if plan[k].Single? {
          o := CleanupSingle(k, m);
        } else {
          o := CleanupLoop(k, m);
        }
        if o != Done { return; }
        if m > k { m := k; }
      }
      ReversedTwice(undone);
      assert done == Reversed(undone);
      if main != {} || skipped != {} { return Tripped; }
      o := Done;
    }

    /** Init and then cleanup, which a failed init calls itself: exactly the steps that ran are undone. */
    method LifeCycle(failAt: nat) returns (o: Outcome)
      requires Zeroed() && done == [] && undone == []
      modifies this
      ensures o == Tripped <==> PassesEmptyLoop(plan, failAt)
      ensures o != Tripped ==> Zeroed() && done == Ran(plan, 0, failAt) && undone == Reversed(done)
    {
      o := Init(failAt);
      if o != Tripped { o := Cleanup(); }
    }
  }

  lemma {:induction false} ReversedTwice(s: seq<nat>)
    ensures Reversed(Reversed(s)) == s
  {
    if s != [] {
      ReversedAppend(Reversed(s[1..]), s[0]);
      ReversedTwice(s[1..]);
    }
  }

  /** One iteration less is one call less at the end of the work. */
  lemma OneLess(plan: seq<Step>, counters: seq<nat>, k: nat, tail: seq<nat>)
    requires k < |plan| == |counters| && plan[k].Loop? && counters[k] > 0
    ensures var after := counters[k := counters[k] - 1];
            && Performed(plan, counters, k + 1) + tail == Performed(plan, after, k + 1) + ([k] + tail)
            && (after[k] == 0 ==> Performed(plan, after, k + 1) == Performed(plan, after, k))
  {
    var after := counters[k := counters[k] - 1];
    PerformedOnly(plan, after, counters, k);
    var work := Performed(plan, counters, k);
    assert work + (Repeat(k, after[k]) + [k]) + tail == work + Repeat(k, after[k]) + ([k] + tail);
  }

  lemma {:induction false} EmptyLoopsCountNothing(plan: seq<Step>, m: nat, k: nat)
    requires m <= k <= |plan| && forall j :: m <= j < k ==> plan[j] == Loop(0)
    ensures Count(plan, k) == Count(plan, m)
  {
    if m < k { EmptyLoopsCountNothing(plan, m, k - 1); }
  }

  /** The run has passed an empty loop if one lies behind the last marked step and the visit succeeds. */
  lemma Trips(plan: seq<Step>, k: nat, m: nat, failAt: nat)
    requires m < k <= |plan| && Count(plan, k) < failAt && forall j :: m <= j < k ==> plan[j] == Loop(0)
    ensures PassesEmptyLoop(plan, failAt)
  {
    EmptyLoopsCountNothing(plan, m, k);
    assert PassesAt(plan, failAt, m);
  }

  /** If a step fails there, at its first visit in case an empty loop lies before it, none is passed. */
  lemma NeverTrips(plan: seq<Step>, k: nat, m: nat, failAt: nat)
    requires m <= k < |plan| && Count(plan, k) <= failAt < Count(plan, k + 1) && (m < k ==> failAt == Count(plan, k))
    requires (forall j :: m <= j < k ==> plan[j] == Loop(0)) && (forall j :: 0 <= j < m ==> plan[j] != Loop(0))
    ensures failAt < Count(plan, |plan|) && !PassesEmptyLoop(plan, failAt)
  {
    CountGrows(plan, k + 1, |plan|);
    forall j | 0 <= j < |plan| && plan[j] == Loop(0) ensures !PassesAt(plan, failAt, j) {
      if j < k { EmptyLoopsCountNothing(plan, j, k); } else { CountGrows(plan, k + 1, j); }
    }
  }

  lemma TripsAtEnd(plan: seq<Step>, m: nat, left: nat)
    requires m <= |plan|
    requires (forall j :: m <= j < |plan| ==> plan[j] == Loop(0)) && (forall j :: 0 <= j < m ==> plan[j] != Loop(0))
    ensures PassesEmptyLoop(plan, Count(plan, |plan|) + left) <==> m < |plan|
  {
    if m < |plan| {
      EmptyLoopsCountNothing(plan, m, |plan|);
      assert PassesAt(plan, Count(plan, |plan|) + left, m);
    }
  }

  /** The step functions that step k calls if `left` visits are made. */
  ghost function Calls(plan: seq<Step>, k: nat, left: nat): seq<nat>
    requires k < |plan|
  {
    match plan[k]
    case Single(cond) => if cond && left > 0 then [k] else []
    case Loop(count) => Repeat(k, if left < count then left else count)
  }

  lemma RanStep(plan: seq<Step>, k: nat, left: nat)
    requires k < |plan|
    ensures left < Visits(plan[k]) ==> Ran(plan, k, left) == Calls(plan, k, left)
    ensures left >= Visits(plan[k]) ==>
      Ran(plan, k, left) == Calls(plan, k, left) + Ran(plan, k + 1, left - Visits(plan[k]))
  {
    if plan[k] == Loop(0) { assert Ran(plan, k + 1, left) == [] + Ran(plan, k + 1, left); }
    if left == 0 && plan[k] == Loop(0) { assert Ran(plan, k + 1, 0) == []; }
  }


  lemma UndoLast(plan: seq<Step>, counters: seq<nat>, k: nat, tail: seq<nat>)
    requires k < |plan| == |counters| && plan[k].Single?
    ensures Performed(plan, counters, k + 1) + tail
         == Performed(plan, counters, k) + if plan[k].cond then [k] + tail else tail
  {
  }

  /** One more iteration of a loop is one more call at the end of the work done so far. */
  lemma OneMore(plan: seq<Step>, counters: seq<nat>, k: nat)
    requires k < |plan| == |counters| && plan[k].Loop?
    ensures Performed(plan, counters[k := counters[k] + 1], k + 1)
         == Performed(plan, counters, k) + Repeat(k, counters[k]) + [k]
  {
    PerformedOnly(plan, counters[k := counters[k] + 1], counters, k);
    var before := Performed(plan, counters, k);
    assert before + (Repeat(k, counters[k]) + [k]) == before + Repeat(k, counters[k]) + [k];
  }

  // ---------- what a caller can check ----------

  /** The assertion trips for no failure point exactly if no loop of the list is empty. */
  lemma NeverTripsExactly(plan: seq<Step>)
    ensures (forall failAt: nat :: !PassesEmptyLoop(plan, failAt)) <==> (forall k :: 0 <= k < |plan| ==> plan[k] != Loop(0))
  {
    forall k | 0 <= k < |plan| && plan[k] == Loop(0) ensures PassesEmptyLoop(plan, Count(plan, k) + 1) {
      assert PassesAt(plan, Count(plan, k) + 1, k);
    }
  }
}
