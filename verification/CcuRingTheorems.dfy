/**
  What the ring's invariant gives its users.
*/
module CcuRingTheorems {
  import opened Common
  import opened CcuRingModel
  import opened CcuRingProofs

  // ---------------------------------------------------------------------------------------------
  // Over every disciplined run
  // ---------------------------------------------------------------------------------------------

  lemma OldestIsTheTask(r: Ring, h: int)
    requires Inv(r) && WaitAllowed(r, h) && r.working
    ensures r.finishes < |r.sent| && r.sent[r.finishes] == Msg(Task(h, r.finish[h]), r.finishes % 64)
  {
    WaitTotals(r, h);
    assert HandleAgrees(r, h);
    TaskAtPrefix(r.repeats, r.cur, h, r.finish[h]);
  }

  lemma OldestIsInUse(r: Ring)
    requires r.Shaped() && WindowAgrees(r) && r.finishes < r.commits
    ensures !r.avail[r.waitId]
  {
    assert InWindow(r.finishes % 64, r.finishes, r.commits);
  }

  lemma WaitReadsItsOwnSlot(r: Ring, h: int)
    requires Inv(r) && WaitAllowed(r, h)
    ensures WaitAccepts(r, h) && r.finish[h] < r.commit[h]
    ensures WaitSlot(r, h) == r.waitId && !r.avail[WaitSlot(r, h)]
    ensures r.working ==> r.finishes < |r.sent| && r.sent[r.finishes] == Msg(Task(h, r.finish[h]), WaitSlot(r, h))
  {
    WaitTotals(r, h);
    assert HandleAgrees(r, h);
    WaitSlotIsOldest(r, h);
    OldestIsInUse(r);
    if r.working {
      OldestIsTheTask(r, h);
    }
  }

  /** The re-send inside an allowed Wait never overwrites a message in flight, and it is the next task in
      program order. */
  lemma ResendHasAFreeSlot(r: Ring, h: int)
    requires Inv(r) && WaitAllowed(r, h)
    ensures var q := Retire(r, h);
            && q.avail[q.resId]
            && (Deficit(q, h) ==> Holds(q, h, q.commits))
            && (!Deficit(q, h) && h + 1 < q.cur && Deficit(q, h + 1) ==> Holds(q, h + 1, q.commits))
  {
    WaitTotals(r, h);
    RetireKeepsCore(r, h);
    NextSlotFreeIff(Retire(r, h));
    ResendPicksNext(Retire(r, h), h);
  }

  /** After any disciplined run an in-order Wait on a requested task finds it in flight, reads the slot
      that very task was sent in, and its re-send, if any, goes to a free slot. */
  lemma WaitReadsItsOwnTask(r0: Ring, calls: seq<Call>, h: int)
    requires Initial(r0) && Disciplined(r0, calls)
    requires WaitAllowed(Run(r0, calls), h)
    ensures var r := Run(r0, calls);
            && WaitAccepts(r, h) && r.finish[h] < r.commit[h]
            && WaitSlot(r, h) == r.waitId && !r.avail[WaitSlot(r, h)]
            && (r.working ==> r.finishes < |r.sent|
                              && r.sent[r.finishes] == Msg(Task(h, r.finish[h]), WaitSlot(r, h)))
            && var q := Retire(r, h); q.avail[q.resId]
  {
    InitialInv(r0);
    RunKeepsInv(r0, calls);
    WaitReadsItsOwnSlot(Run(r0, calls), h);
    ResendHasAFreeSlot(Run(r0, calls), h);
  }

  function SlotAfter(r: Ring, k: nat): (s: nat)
    ensures s < 64
  {
    (r.waitId + k) % 64
  }

  lemma SlotAfterIsFree(f: nat, t: nat, k: nat)
    requires f <= t <= f + 64 && k < 64
    ensures InWindow((f % 64 + k) % 64, f, t) <==> k < t - f
    ensures k == t - f ==> (f % 64 + k) % 64 == t % 64
  {
    assert ((f % 64 + k) % 64 - f) % 64 == k;
  }

  lemma WindowFromWaitId(r: Ring)
    requires r.Shaped() && WindowAgrees(r)
    ensures SlotAfter(r, r.commits - r.finishes) == r.resId
    ensures forall k | 0 <= k < 64 :: r.avail[SlotAfter(r, k)] <==> k >= r.commits - r.finishes
  {
    forall k | 0 <= k < 64 ensures r.avail[SlotAfter(r, k)] <==> k >= r.commits - r.finishes {
      SlotAfterIsFree(r.finishes, r.commits, k);
      assert r.avail[SlotAfter(r, k)] <==> !InWindow(SlotAfter(r, k), r.finishes, r.commits);
    }
  }

  /** The slots in use are a cyclic window: waitId is its start, resId its end, and its length is the
      number of messages sent and not yet waited for. */
  lemma SlotsInUseAreAWindow(r0: Ring, calls: seq<Call>)
    requires Initial(r0) && Disciplined(r0, calls)
    ensures var r := Run(r0, calls);
            && r.finishes <= r.commits <= r.finishes + 64
            && SlotAfter(r, r.commits - r.finishes) == r.resId
            && forall k | 0 <= k < 64 :: r.avail[SlotAfter(r, k)] <==> k >= r.commits - r.finishes
  {
    InitialInv(r0);
    RunKeepsInv(r0, calls);
    WindowFromWaitId(Run(r0, calls));
  }

  /** The k-th task of a handle has been sent exactly when k < commit[h]; it was sent once, and earlier
      repeats of the handle were sent before it. */
  lemma SentOnceInOrder(r0: Ring, calls: seq<Call>, h: nat, k: nat)
    requires Initial(r0) && r0.working && Disciplined(r0, calls)
    requires h < Run(r0, calls).cur && k < Run(r0, calls).repeats[h]
    ensures var r := Run(r0, calls);
            var at := Prefix(r.repeats, h) + k;
            && (at < |r.sent| <==> k < r.commit[h])
            && forall i | 0 <= i < |r.sent| :: r.sent[i].task == Task(h, k) <==> i == at
  {
    RunWorking(r0, calls);
    InitialInv(r0);
    RunKeepsInv(r0, calls);
    var r := Run(r0, calls);
    assert HandleAgrees(r, h);
    TaskAtPrefix(r.repeats, r.cur, h, k);
    forall i | 0 <= i < |r.sent| ensures r.sent[i].task == Task(h, k) <==> i == Prefix(r.repeats, h) + k {
      TaskAtInverse(r.repeats, r.cur, i);
    }
  }

  lemma {:induction false} LoopWorking(r: Ring, h: nat, i: nat)
    requires r.Shaped() && h < MAX_HANDLES
    ensures CommitLoop(r, h, i).working == r.working
    decreases r.repeats[h] - i
  {
    if i < r.repeats[h] && r.avail[r.resId] {
      LoopWorking(SendNext(r, h, i), h, i + 1);
    }
  }

  lemma {:induction false} RunWorking(r: Ring, calls: seq<Call>)
    requires r.Shaped() && Disciplined(r, calls)
    ensures Run(r, calls).working == r.working
    decreases |calls|
  {
    if calls != [] {
      var c := calls[0];
      if c.PrepareCall? && c.repeat > 0 && c.commit {
        var q := Register(r, c.repeat);
        LoopWorking(Request(q, r.cur, q.repeats[r.cur]), r.cur, 0);
      }
      RunWorking(Step(r, c), calls[1..]);
    }
  }

  // ---------------------------------------------------------------------------------------------
  // Finalize
  // ---------------------------------------------------------------------------------------------

  predicate OnlyLastUnwaited(r: Ring)
    requires r.Shaped()
  {
    r.cur > 0 && EarlierWaited(r, r.cur - 1)
  }

  /** What an accepted Wait leaves alone, whatever it re-sends. */
  lemma WaitFrame(r: Ring, h: nat)
    requires r.Shaped() && h < MAX_HANDLES && WaitAccepts(r, h)
    ensures var r' := Wait(r, h);
            && r'.requested == r.requested && r'.working == r.working && r'.cur == r.cur && r'.repeats == r.repeats
            && r'.need == r.need && r'.finish == r.finish[h := Add8(r.finish[h], 1)]
  {}

  lemma LastWaitStep(r: Ring)
    requires Inv(r) && OnlyLastUnwaited(r) && r.finish[r.cur - 1] < r.commit[r.cur - 1]
    ensures var h := r.cur - 1;
            var r' := Wait(r, h);
            && WaitAllowed(r, h) && Inv(r') && OnlyLastUnwaited(r')
            && r'.requested == r.requested && r'.working == r.working && r'.cur == r.cur && r'.repeats == r.repeats
            && r'.need == r.need && r'.finish[h] == r.finish[h] + 1 <= r.need[h]
  {
    assert HandleAgrees(r, r.cur - 1);
    WaitFrame(r, r.cur - 1);
    WaitKeepsInv(r, r.cur - 1);
  }

  lemma LastWaitDone(r: Ring)
    requires Inv(r) && OnlyLastUnwaited(r) && !(r.finish[r.cur - 1] < r.commit[r.cur - 1])
    ensures r.finishes == r.commits == r.requested
    ensures r.waitId == r.resId == r.requested % 64
    ensures forall s | 0 <= s < 64 :: r.avail[s]
  {
    var h := r.cur - 1;
    assert HandleAgrees(r, h);
    GuardsAsTotals(r, h);
    assert Prefix(r.repeats, r.cur) == Prefix(r.repeats, h) + r.repeats[h];
  }

  /** Finalize's loop waits for the last handle until its sent tasks are finished.  Although a Wait may
      raise the sent count, the requested count bounds it.  Then every requested task is finished and
      `waitId`, where the end marker goes, is the slot after the last message. */
  function FinishLast(r: Ring): (r': Ring)
    requires Inv(r) && OnlyLastUnwaited(r)
    ensures Inv(r') && OnlyLastUnwaited(r') && r'.requested == r.requested && r'.cur == r.cur
    ensures r'.finishes == r'.commits == r.requested
    ensures r'.waitId == r'.resId == r.requested % 64
    ensures forall s | 0 <= s < 64 :: r'.avail[s]
    decreases r.need[r.cur - 1] as int - r.finish[r.cur - 1]
  {
    if r.finish[r.cur - 1] < r.commit[r.cur - 1] then
      LastWaitStep(r);
      FinishLast(Wait(r, r.cur - 1))
    else
      LastWaitDone(r);
      r
  }
}
