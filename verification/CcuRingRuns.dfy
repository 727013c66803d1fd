/**
  What one request does to the rest of a run.  A request is safe when, however the run goes on in order,
  every Wait finds its own task in the slot it reads.  The exact condition is given for Commit and for
  Prepare with commit.
*/
module CcuRingRuns {
  import opened Common
  import opened CcuRingModel
  import opened CcuRingProofs
  import opened CcuRingTheorems
  import opened CcuRingOrder

  // ---------------------------------------------------------------------------------------------
  // Waits that find their own task
  // ---------------------------------------------------------------------------------------------

  /** No later message went to the slot of the i-th one. */
  predicate LastInSlot(r: Ring, i: nat)
    requires i < |r.sent|
  {
    forall j | i < j < |r.sent| :: r.sent[j].slot != r.sent[i].slot
  }

  /** The last message sent to the slot that a Wait on h reads is the task it waits for. */
  predicate FindsOwn(r: Ring, h: nat)
    requires r.Shaped() && h < MAX_HANDLES
  {
    exists i | 0 <= i < |r.sent| ::
      r.sent[i] == Msg(Task(h, r.finish[h]), WaitSlot(r, h)) && LastInSlot(r, i)
  }

  predicate WaitsFindOwn(r: Ring)
    requires r.Shaped()
  {
    forall h | 0 <= h < r.cur && WaitAllowed(r, h) :: FindsOwn(r, h)
  }

  /** However the run goes on under the discipline, every in-order Wait finds its own task. */
  ghost predicate RunSafe(r: Ring)
    requires r.Shaped()
  {
    forall calls | Disciplined(r, calls) :: WaitsFindOwn(Run(r, calls))
  }

  lemma WithinARound(i: nat, j: nat)
    requires i < j < i + 64
    ensures i % 64 != j % 64
  {}

  lemma InvFindsOwn(r: Ring)
    requires Inv(r) && r.working
    ensures WaitsFindOwn(r)
  {
    forall h | 0 <= h < r.cur && WaitAllowed(r, h) ensures FindsOwn(r, h) {
      WaitReadsItsOwnSlot(r, h);
      forall j | r.finishes < j < |r.sent| ensures r.sent[j].slot != r.sent[r.finishes].slot {
        WithinARound(r.finishes, j);
      }
      assert LastInSlot(r, r.finishes);
    }
  }

  lemma InvRunSafe(r: Ring)
    requires Inv(r) && r.working
    ensures RunSafe(r)
  {
    forall calls | Disciplined(r, calls) ensures WaitsFindOwn(Run(r, calls)) {
      RunKeepsInv(r, calls);
      RunWorking(r, calls);
      InvFindsOwn(Run(r, calls));
    }
  }

  // ---------------------------------------------------------------------------------------------
  // A message in the place of an earlier task
  // ---------------------------------------------------------------------------------------------

  /** Handle g's slot and finish count are as in program order. */
  predicate Waitable(r: Ring, g: nat)
    requires r.Shaped() && g < r.cur
  {
    var p, m := Prefix(r.repeats, g), r.repeats[g];
    m >= 1 && r.reqId[g] == p % 64 && r.finish[g] == Share(r.finishes, p, m)
  }

  /** The n-th message is not the n-th task, which has been requested and not yet waited for, and no later
      message has taken its slot. */
  predicate Broken(r: Ring, n: nat) {
    && r.Shaped() && r.working && r.finishes <= n < |r.sent| == r.commits <= r.finishes + 64
    && r.resId == r.commits % 64 && n < Prefix(r.repeats, r.cur)
    && (forall j | n <= j < |r.sent| :: r.sent[j].slot == j % 64)
    && r.sent[n].task != TaskAt(r.repeats, r.cur, n)
    && (forall g | 0 <= g < r.cur :: Waitable(r, g))
    && (forall g | 0 <= g < r.cur :: r.need[g] >= Share(n + 1, Prefix(r.repeats, g), r.repeats[g]))
  }

  lemma OldestTask(r: Ring) returns (h: nat)
    requires r.Shaped() && r.finishes < Prefix(r.repeats, r.cur) && forall g | 0 <= g < r.cur :: Waitable(r, g)
    ensures h < r.cur && Holds(r, h, r.finishes) && r.finish[h] == r.finishes - Prefix(r.repeats, h)
    ensures TaskAt(r.repeats, r.cur, r.finishes) == Task(h, r.finish[h])
  {
    TaskAtInverse(r.repeats, r.cur, r.finishes);
    h := TaskAt(r.repeats, r.cur, r.finishes).handle;
    assert Waitable(r, h);
  }

  lemma OldestSlot(r: Ring, h: nat)
    requires r.Shaped() && h < r.cur && Waitable(r, h) && Holds(r, h, r.finishes)
    ensures WaitSlot(r, h) == r.finishes % 64
  {
    SlotSum(Prefix(r.repeats, h), r.finish[h]);
  }

  lemma OldestIsNext(r: Ring, h: nat)
    requires r.Shaped() && h < r.cur && Holds(r, h, r.finishes) && forall g | 0 <= g < r.cur :: Waitable(r, g)
    ensures EarlierWaited(r, h)
  {
    forall g | 0 <= g < h ensures r.finish[g] == r.repeats[g] {
      assert Waitable(r, g);
      PrefixStep(r.repeats, g, h);
    }
  }

  /** The handle of the oldest task can be waited for. */
  lemma OldestIsAllowed(r: Ring, n: nat) returns (h: nat)
    requires Broken(r, n)
    ensures h < r.cur && Holds(r, h, r.finishes) && WaitAllowed(r, h) && WaitAccepts(r, h)
    ensures TaskAt(r.repeats, r.cur, r.finishes) == Task(h, r.finish[h]) && WaitSlot(r, h) == r.finishes % 64
  {
    h := OldestTask(r);
    OldestSlot(r, h);
    OldestIsNext(r, h);
    assert r.need[h] >= Share(n + 1, Prefix(r.repeats, h), r.repeats[h]);
  }

  lemma BrokenNow(r: Ring, n: nat)
    requires Broken(r, n) && r.finishes == n
    ensures !WaitsFindOwn(r)
  {
    var h := OldestIsAllowed(r, n);
    if FindsOwn(r, h) {
      var i :| 0 <= i < |r.sent| && r.sent[i] == Msg(Task(h, r.finish[h]), WaitSlot(r, h)) && LastInSlot(r, i);
      assert r.sent[n].slot == n % 64;
      if i > n {
        WithinARound(n, i);
      }
    }
  }

  /** The totals and tables that a Wait of handle h leaves, whatever it re-sends. */
  predicate WaitsOn(r: Ring, r': Ring, h: nat)
    requires r.Shaped() && r'.Shaped() && h < MAX_HANDLES
  {
    && r'.working == r.working && r'.cur == r.cur && r'.repeats == r.repeats && r'.reqId == r.reqId
    && r'.need == r.need && r'.finish == r.finish[h := Add8(r.finish[h], 1)] && r'.finishes == r.finishes + 1
    && |r.sent| <= |r'.sent| && (forall j | 0 <= j < |r.sent| :: r'.sent[j] == r.sent[j])
    && (|r'.sent| == |r.sent| ==> r'.resId == r.resId && r'.commits == r.commits)
    && (|r'.sent| > |r.sent| ==> |r'.sent| == |r.sent| + 1 && r'.sent[|r.sent|].slot == r.resId
                                 && r'.resId == (r.resId + 1) % 64 && r'.commits == r.commits + 1)
  }

  lemma WaitIsWaitsOn(r: Ring, h: nat)
    requires r.Shaped() && r.working && h < MAX_HANDLES && WaitAccepts(r, h)
    ensures WaitsOn(r, Wait(r, h), h)
  {}

  lemma FinishesMove(r: Ring, r': Ring, h: nat)
    requires r.Shaped() && r'.Shaped() && h < r.cur && WaitsOn(r, r', h) && Holds(r, h, r.finishes)
    requires forall g | 0 <= g < r.cur :: Waitable(r, g)
    ensures forall g | 0 <= g < r'.cur :: Waitable(r', g)
  {
    assert Waitable(r, h);
    forall g | 0 <= g < r'.cur ensures Waitable(r', g) {
      assert Waitable(r, g);
      if g != h {
        ShareElsewhere(r.repeats, h, g, r.finishes, r.finishes + 1);
      }
    }
  }

  lemma SlotsGoOn(r: Ring, r': Ring, n: nat, h: nat)
    requires r.Shaped() && r'.Shaped() && h < MAX_HANDLES && WaitsOn(r, r', h)
    requires |r.sent| == r.commits && r.resId == r.commits % 64
    requires forall j | n <= j < |r.sent| :: r.sent[j].slot == j % 64
    ensures r'.commits == |r'.sent| && r'.resId == r'.commits % 64
    ensures forall j | n <= j < |r'.sent| :: r'.sent[j].slot == j % 64
  {
    NextModulo(r.commits);
  }

  lemma WaitKeepsBroken(r: Ring, r': Ring, n: nat, h: nat)
    requires Broken(r, n) && r.finishes < n && r'.Shaped() && h < r.cur && WaitsOn(r, r', h)
    requires Holds(r, h, r.finishes)
    ensures Broken(r', n)
  {
    FinishesMove(r, r', h);
    SlotsGoOn(r, r', n, h);
    forall g | 0 <= g < r'.cur ensures r'.need[g] >= Share(n + 1, Prefix(r'.repeats, g), r'.repeats[g]) {
      assert r.need[g] >= Share(n + 1, Prefix(r.repeats, g), r.repeats[g]);
    }
  }

  /** Waiting in order until that task's turn comes. */
  lemma {:induction false} BrokenFails(r: Ring, n: nat) returns (calls: seq<Call>)
    requires Broken(r, n)
    ensures Disciplined(r, calls) && !WaitsFindOwn(Run(r, calls))
    decreases n - r.finishes
  {
    if r.finishes == n {
      BrokenNow(r, n);
      calls := [];
    } else {
      var h := OldestIsAllowed(r, n);
      WaitIsWaitsOn(r, h);
      WaitKeepsBroken(r, Wait(r, h), n, h);
      var rest := BrokenFails(Wait(r, h), n);
      calls := [WaitCall(h)] + rest;
      FirstCall(r, WaitCall(h), rest);
    }
  }

  lemma FirstCall(r: Ring, c: Call, rest: seq<Call>)
    requires r.Shaped() && Allowed(r, c) && Disciplined(Step(r, c), rest)
    ensures Disciplined(r, [c] + rest) && Run(r, [c] + rest) == Run(Step(r, c), rest)
  {
    assert ([c] + rest)[1..] == rest;
  }

  /** Handle h has just sent its message in the place n of an earlier handle's task, which may not even have
      been requested. */
  predicate Jumped(r: Ring, n: nat, h: nat) {
    && r.Shaped() && r.working && h < r.cur && WindowAgrees(r) && r.finishes <= n < |r.sent| == r.commits
    && n < Prefix(r.repeats, h) && r.sent[n].task.handle == h
    && (forall j | n <= j < |r.sent| :: r.sent[j].slot == j % 64)
    && (forall g | 0 <= g < r.cur :: Waitable(r, g))
    && (forall g | 0 <= g < h :: EarlierAt(r, g, n))
  }

  /** Handle g has sent its share of the first n tasks, and requested at least these. */
  predicate EarlierAt(r: Ring, g: nat, n: nat)
    requires r.Shaped() && g < MAX_HANDLES
  {
    r.commit[g] == Share(n, Prefix(r.repeats, g), r.repeats[g]) && r.commit[g] <= r.need[g] <= r.repeats[g]
  }

  /** The task whose place was taken. */
  lemma OvertakenTask(r: Ring, n: nat, h: nat) returns (g: nat)
    requires Jumped(r, n, h)
    ensures g < h && Holds(r, g, n) && n < Prefix(r.repeats, r.cur)
    ensures TaskAt(r.repeats, r.cur, n) == Task(g, n - Prefix(r.repeats, g)) != r.sent[n].task
    ensures forall x | 0 <= x < g :: r.need[x] == r.repeats[x] == r.commit[x]
  {
    PrefixStep(r.repeats, h, r.cur);
    TaskAtInverse(r.repeats, r.cur, n);
    g := TaskAt(r.repeats, r.cur, n).handle;
    if g > h {
      PrefixStep(r.repeats, h, g);
    }
    forall x | 0 <= x < g ensures r.need[x] == r.repeats[x] == r.commit[x] {
      assert EarlierAt(r, x, n);
      PrefixStep(r.repeats, x, g);
    }
  }

  lemma ShareUpTo(r: Ring, n: nat, h: nat, g: nat, x: nat)
    requires Jumped(r, n, h) && g < h && Holds(r, g, n) && x < r.cur && (x == g ==> r.need[g] > r.commit[g])
    requires forall y | 0 <= y < g :: r.need[y] == r.repeats[y]
    ensures r.need[x] >= Share(n + 1, Prefix(r.repeats, x), r.repeats[x])
  {
    if x > g {
      PrefixStep(r.repeats, g, x);
    } else if x == g {
      assert EarlierAt(r, g, n);
    }
  }

  lemma JumpedIsBroken(r: Ring, n: nat, h: nat, g: nat)
    requires Jumped(r, n, h) && g < h && Holds(r, g, n) && n < Prefix(r.repeats, r.cur)
    requires r.need[g] > r.commit[g] && TaskAt(r.repeats, r.cur, n) != r.sent[n].task
    requires forall x | 0 <= x < g :: r.need[x] == r.repeats[x]
    ensures Broken(r, n)
  {
    forall x | 0 <= x < r.cur ensures r.need[x] >= Share(n + 1, Prefix(r.repeats, x), r.repeats[x]) {
      ShareUpTo(r, n, h, g, x);
    }
  }

  lemma CommitOfOvertaken(r: Ring, n: nat, h: nat, g: nat)
    requires Jumped(r, n, h) && g < h && Holds(r, g, n) && r.need[g] == r.commit[g]
    requires forall x | 0 <= x < g :: r.need[x] == r.repeats[x] == r.commit[x]
    ensures CommitAllowed(r, g)
  {
    assert EarlierAt(r, g, n);
  }

  /** One more repeat of g has been requested, and sent if the slot at resId is free. */
  predicate Asks(r: Ring, r': Ring, g: nat)
    requires r.Shaped() && r'.Shaped() && g < MAX_HANDLES
  {
    && r'.working == r.working && r'.cur == r.cur && r'.repeats == r.repeats && r'.reqId == r.reqId
    && r'.finish == r.finish && r'.finishes == r.finishes && r'.need == r.need[g := Add8(r.need[g], 1)]
    && (if r.avail[r.resId]
        then r'.sent == r.sent + [Msg(Task(g, r.commit[g]), r.resId)]
             && r'.commits == r.commits + 1 && r'.resId == (r.resId + 1) % 64
        else r'.sent == r.sent && r'.commits == r.commits && r'.resId == r.resId)
  }

  lemma CommitAsks(r: Ring, g: nat)
    requires r.Shaped() && r.working && g < MAX_HANDLES
    ensures Asks(r, Commit(r, g), g)
  {}

  lemma AskedNeeds(r: Ring, r': Ring, n: nat, h: nat, g: nat)
    requires Jumped(r, n, h) && g < h && Holds(r, g, n) && r'.Shaped() && Asks(r, r', g)
    requires r.need[g] == r.commit[g] && forall x | 0 <= x < g :: r.need[x] == r.repeats[x]
    ensures forall x | 0 <= x < r'.cur :: r'.need[x] >= Share(n + 1, Prefix(r'.repeats, x), r'.repeats[x])
  {
    assert EarlierAt(r, g, n);
    forall x | 0 <= x < r'.cur ensures r'.need[x] >= Share(n + 1, Prefix(r'.repeats, x), r'.repeats[x]) {
      if x > g {
        PrefixStep(r.repeats, g, x);
      }
    }
  }

  lemma AskedSlots(r: Ring, r': Ring, n: nat, h: nat, g: nat)
    requires Jumped(r, n, h) && g < h && r'.Shaped() && Asks(r, r', g)
    ensures |r'.sent| == r'.commits <= r'.finishes + 64 && r'.resId == r'.commits % 64
    ensures forall j | n <= j < |r'.sent| :: r'.sent[j].slot == j % 64
  {
    NextSlotFreeIff(r);
    NextModulo(r.commits);
  }

  lemma CommitBreaks(r: Ring, r': Ring, n: nat, h: nat, g: nat)
    requires Jumped(r, n, h) && g < h && Holds(r, g, n) && n < Prefix(r.repeats, r.cur)
    requires r.need[g] == r.commit[g] && TaskAt(r.repeats, r.cur, n) != r.sent[n].task
    requires forall x | 0 <= x < g :: r.need[x] == r.repeats[x]
    requires r'.Shaped() && Asks(r, r', g)
    ensures Broken(r', n)
  {
    AskedNeeds(r, r', n, h, g);
    AskedSlots(r, r', n, h, g);
    forall x | 0 <= x < r'.cur ensures Waitable(r', x) {
      assert Waitable(r, x);
    }
  }

  /** Requesting the overtaken task, if that has not been done, and waiting in order until its turn comes. */
  lemma JumpedFails(r: Ring, n: nat, h: nat) returns (calls: seq<Call>)
    requires Jumped(r, n, h)
    ensures Disciplined(r, calls) && !WaitsFindOwn(Run(r, calls))
  {
    var g := OvertakenTask(r, n, h);
    assert EarlierAt(r, g, n);
    if r.need[g] > r.commit[g] {
      JumpedIsBroken(r, n, h, g);
      calls := BrokenFails(r, n);
    } else {
      CommitOfOvertaken(r, n, h, g);
      CommitAsks(r, g);
      CommitBreaks(r, Commit(r, g), n, h, g);
      var rest := BrokenFails(Commit(r, g), n);
      calls := [CommitCall(g)] + rest;
      FirstCall(r, CommitCall(g), rest);
    }
  }

  lemma UnsafeIf(r: Ring, calls: seq<Call>)
    requires r.Shaped() && Disciplined(r, calls) && !WaitsFindOwn(Run(r, calls))
    ensures !RunSafe(r)
  {}

  // ---------------------------------------------------------------------------------------------
  // Requests that send at once
  // ---------------------------------------------------------------------------------------------

  lemma NotSentIsPlace(r: Ring, h: nat)
    requires Inv(r) && h <= r.cur && !EarlierSent(r, h)
    ensures r.commits < Prefix(r.repeats, h)
    ensures forall g | 0 <= g < h :: EarlierAt(r, g, r.commits)
  {
    EarlierSentIff(r, h);
    forall g | 0 <= g < h ensures EarlierAt(r, g, r.commits) {
      assert HandleAgrees(r, g);
    }
  }

  lemma AllWaitable(r: Ring)
    requires Inv(r)
    ensures forall g | 0 <= g < r.cur :: Waitable(r, g)
  {
    forall g | 0 <= g < r.cur ensures Waitable(r, g) {
      assert HandleAgrees(r, g);
    }
  }

  lemma CommitJumps(r: Ring, h: nat)
    requires Inv(r) && r.working && h < r.cur && r.avail[r.resId] && !EarlierSent(r, h)
    ensures Jumped(Commit(r, h), r.commits, h)
  {
    var q, r' := Request(r, h, 1), Commit(r, h);
    NotSentIsPlace(r, h);
    AllWaitable(r);
    SendKeepsWindow(q, h);
    assert r'.sent == r.sent + [Msg(Task(h, r.commit[h]), r.resId)];
    forall g | 0 <= g < r'.cur ensures Waitable(r', g) {
      assert Waitable(r, g);
    }
    forall g | 0 <= g < h ensures EarlierAt(r', g, r.commits) {
      assert EarlierAt(r, g, r.commits);
    }
  }

  lemma EarlierSentIsAllowed(r: Ring, h: nat)
    requires Inv(r) && h <= r.cur && EarlierSent(r, h)
    ensures EarlierRequested(r, h) && NoEarlierDeficit(r, h)
  {
    forall g | 0 <= g < h ensures r.need[g] == r.repeats[g] && !Deficit(r, g) {
      assert HandleAgrees(r, g);
    }
  }

  /** What the loop of CommitMsgInner keeps. */
  lemma {:induction false} LoopKeepsWindow(r: Ring, h: nat, i: nat)
    requires r.Shaped() && r.working && h < MAX_HANDLES && WindowAgrees(r) && |r.sent| == r.commits
    ensures var r' := CommitLoop(r, h, i);
            && WindowAgrees(r') && |r'.sent| == r'.commits && r'.working && r'.need == r.need
            && r'.finishes == r.finishes && forall g | 0 <= g < MAX_HANDLES && g != h :: r'.commit[g] == r.commit[g]
    decreases r.repeats[h] - i
  {
    if i < r.repeats[h] && r.avail[r.resId] {
      SendKeepsWindow(r, h);
      WindowOfSend(r, h, i);
      LoopKeepsWindow(SendNext(r, h, i), h, i + 1);
    }
  }

  lemma WindowOfSend(r: Ring, h: nat, i: nat)
    requires r.Shaped() && h < MAX_HANDLES && WindowAgrees(CommitMsg(r, h))
    ensures WindowAgrees(SendNext(r, h, i))
  {
    assert SendNext(r, h, i) == CommitMsg(r, h).(sent := SendNext(r, h, i).sent);
  }

  lemma PrepareTables(r: Ring, n: uint8)
    requires Inv(r) && r.working && r.cur < MAX_HANDLES && n > 0
    ensures var r', h := Prepare(r, n, true), r.cur;
            && r'.working && r'.cur == h + 1 && WindowAgrees(r') && |r'.sent| == r'.commits
            && r'.finishes == r.finishes && r'.repeats == r.repeats[h := n]
            && r'.reqId == r.reqId[h := Prefix(r.repeats, h) % 64] && r'.finish == r.finish[h := 0]
            && r'.need == r.need[h := n] && forall g | 0 <= g < h :: r'.commit[g] == r.commit[g]
  {
    PrepareIsLoop(r, n);
    NewHandleSlot(r, n);
    LoopKeepsWindow(Requested(r, n), r.cur, 0);
  }

  lemma PrepareKeepsWaitable(r: Ring, r': Ring, n: uint8)
    requires Inv(r) && r'.Shaped() && r.cur < MAX_HANDLES && n > 0 && r'.cur == r.cur + 1
    requires r'.repeats == r.repeats[r.cur := n] && r'.reqId == r.reqId[r.cur := Prefix(r.repeats, r.cur) % 64]
    requires r'.finish == r.finish[r.cur := 0] && r'.finishes == r.finishes
    ensures forall g | 0 <= g < r'.cur :: Waitable(r', g)
    ensures forall g | 0 <= g <= r.cur :: Prefix(r'.repeats, g) == Prefix(r.repeats, g)
  {
    forall g | 0 <= g <= r.cur ensures Prefix(r'.repeats, g) == Prefix(r.repeats, g) {
      assert r'.repeats[..g] == r.repeats[..g];
      PrefixFrame(r.repeats, r'.repeats, g);
    }
    AllWaitable(r);
    forall g | 0 <= g < r'.cur ensures Waitable(r', g) {
      if g < r.cur {
        assert Waitable(r, g);
      }
    }
  }

  lemma PrepareJumps(r: Ring, n: uint8)
    requires Inv(r) && r.working && r.cur < MAX_HANDLES && n > 0 && r.avail[r.resId] && !EarlierSent(r, r.cur)
    ensures Jumped(Prepare(r, n, true), r.commits, r.cur)
  {
    var r', h := Prepare(r, n, true), r.cur;
    PrepareAdds(r, n);
    PrepareTables(r, n);
    PrepareKeepsWaitable(r, r', n);
    NotSentIsPlace(r, h);
    AddedSlots(r, r', n);
    forall g | 0 <= g < h ensures EarlierAt(r', g, r.commits) {
      assert EarlierAt(r, g, r.commits);
    }
  }

  lemma AddedSlots(r: Ring, r': Ring, n: uint8)
    requires Inv(r) && r.working && r'.Shaped() && r.cur < MAX_HANDLES && Adds(r, r', n)
    ensures forall j | |r.sent| <= j < |r'.sent| :: r'.sent[j].task.handle == r.cur && r'.sent[j].slot == j % 64
  {
    forall j | |r.sent| <= j < |r'.sent|
      ensures r'.sent[j].task.handle == r.cur && r'.sent[j].slot == j % 64
    {
      assert r'.sent[j] == Following(r, r.cur, 0, j);
      SlotSum(r.commits, j - r.commits);
    }
  }

  // ---------------------------------------------------------------------------------------------
  // Progress
  // ---------------------------------------------------------------------------------------------

  /** While a requested task is not waited for, there is a handle to wait for. */
  lemma NextWait(r: Ring) returns (h: nat)
    requires Inv(r) && r.finishes < r.requested
    ensures h < r.cur && WaitAllowed(r, h) && Holds(r, h, r.finishes)
  {
    AllWaitable(r);
    h := OldestTask(r);
    OldestIsNext(r, h);
    assert HandleAgrees(r, h);
  }

  predicate OnlyWaits(calls: seq<Call>) { forall i | 0 <= i < |calls| :: calls[i].WaitCall? }

  lemma WaitMoves(r: Ring, h: nat)
    requires Inv(r) && h < r.cur && WaitAllowed(r, h)
    ensures Inv(Wait(r, h)) && Wait(r, h).requested == r.requested && Wait(r, h).finishes == r.finishes + 1
  {
    WaitKeepsInv(r, h);
  }

  lemma AllWaitedFor(r: Ring)
    requires Inv(r) && r.finishes == r.requested
    ensures r.commits == r.requested && r.waitId == r.resId && forall s | 0 <= s < 64 :: r.avail[s]
  {
    forall s | 0 <= s < 64 ensures r.avail[s] {
      assert r.avail[s] <==> !InWindow(s, r.finishes, r.commits);
    }
  }

  /** In-order Waits alone, one for each requested task that is not waited for, finish every requested task
      and free the ring. */
  lemma {:induction false} WaitsDrain(r: Ring) returns (calls: seq<Call>)
    requires Inv(r)
    ensures |calls| == r.requested - r.finishes && OnlyWaits(calls) && Disciplined(r, calls)
    ensures var e := Run(r, calls);
            && Inv(e) && e.finishes == e.commits == e.requested == r.requested && e.waitId == e.resId
            && forall s | 0 <= s < 64 :: e.avail[s]
    decreases r.requested - r.finishes
  {
    if r.finishes == r.requested {
      AllWaitedFor(r);
      calls := [];
    } else {
      var h := NextWait(r);
      WaitMoves(r, h);
      var rest := WaitsDrain(Wait(r, h));
      calls := [WaitCall(h)] + rest;
      FirstCall(r, WaitCall(h), rest);
    }
  }

  // ---------------------------------------------------------------------------------------------
  // Requests deferred by a full ring
  // ---------------------------------------------------------------------------------------------

  /** The ring b after n repeats of h have been requested early, and deferred. */
  function Early(b: Ring, h: nat, n: uint8): (r: Ring)
    requires b.Shaped() && h < MAX_HANDLES
    ensures r.Shaped()
  {
    b.(need := b.need[h := n], requested := b.requested + n)
  }

  /** b has kept the discipline, and some handle before h is not fully requested. */
  predicate Waiting(b: Ring, h: nat, n: uint8) {
    Inv(b) && b.working && 0 < h < b.cur && b.requested < Prefix(b.repeats, h) && 0 < n <= b.repeats[h]
  }

  lemma NotRequestedIff(r: Ring, h: nat)
    requires Inv(r) && h <= r.cur
    ensures EarlierRequested(r, h) <==> Prefix(r.repeats, h) <= r.requested
  {
    if h > 0 {
      assert HandleAgrees(r, h - 1);
    }
    if Prefix(r.repeats, h) <= r.requested {
      forall g | 0 <= g < h ensures r.need[g] == r.repeats[g] {
        assert HandleAgrees(r, g);
        PrefixStep(r.repeats, g, h);
      }
    }
  }

  /** Nothing of h or later has been requested, sent or waited for. */
  lemma NothingFrom(b: Ring, h: nat, n: uint8)
    requires Waiting(b, h, n)
    ensures forall x | h <= x < b.cur :: b.need[x] == b.commit[x] == b.finish[x] == 0
    ensures b.finish[h - 1] <= b.need[h - 1] < b.repeats[h - 1]
  {
    forall x | h <= x < b.cur ensures b.need[x] == b.commit[x] == b.finish[x] == 0 {
      assert HandleAgrees(b, x);
      if h < x {
        PrefixStep(b.repeats, h, x);
      }
    }
    assert HandleAgrees(b, h - 1);
    PrefixStep(b.repeats, h - 1, h);
  }

  /** Requests of handles before h go on as without the early one. */
  lemma EarlyCommit(b: Ring, h: nat, n: uint8, x: nat)
    requires Waiting(b, h, n) && x < h
    ensures CommitAllowed(Early(b, h, n), x) <==> CommitAllowed(b, x)
    ensures Commit(Early(b, h, n), x) == Early(Commit(b, x), h, n)
  {
    var r, q, e := Early(b, h, n), Request(b, x, 1), Request(Early(b, h, n), x, 1);
    assert r.need[h := n][x := Add8(b.need[x], 1)] == b.need[x := Add8(b.need[x], 1)][h := n];
    assert e == Early(q, h, n);
    forall g | 0 <= g < h ensures Deficit(r, g) == Deficit(b, g) && r.need[g] == b.need[g] {}
    assert NoEarlierDeficit(r, x) == NoEarlierDeficit(b, x) by {
      assert forall g | 0 <= g < x :: Deficit(r, g) == Deficit(b, g);
    }
  }

  lemma EarlyWaitAllowed(b: Ring, h: nat, n: uint8, w: nat)
    requires Waiting(b, h, n) && w < b.cur
    ensures WaitAllowed(Early(b, h, n), w) <==> WaitAllowed(b, w)
    ensures WaitAllowed(b, w) ==> w < h
  {
    NothingFrom(b, h, n);
    assert Early(b, h, n).finish[h - 1] != b.repeats[h - 1];
  }

  /** So does a Wait, unless it could re-send the early request. */
  lemma EarlyWait(b: Ring, h: nat, n: uint8, w: nat)
    requires Waiting(b, h, n) && w < h && WaitAccepts(b, w)
    requires w + 1 < h || Deficit(Retire(b, w), w)
    ensures Wait(Early(b, h, n), w) == Early(Wait(b, w), h, n)
  {
    assert Retire(Early(b, h, n), w) == Early(Retire(b, w), h, n);
  }

  lemma WaitKeepsWaiting(b: Ring, h: nat, n: uint8, w: nat)
    requires Waiting(b, h, n) && w < b.cur && WaitAllowed(b, w)
    ensures Waiting(Wait(b, w), h, n) && Wait(b, w).finishes == b.finishes + 1
    ensures Wait(b, w).requested == b.requested && Wait(b, w).repeats == b.repeats && Wait(b, w).need == b.need
  {
    WaitKeepsInv(b, w);
  }

  // A handle before h whose only repeat is not requested yet cannot be waited for before h is in order.

  lemma WaitingFindsOwn(b: Ring, h: nat, n: uint8)
    requires Waiting(b, h, n)
    ensures WaitsFindOwn(Early(b, h, n))
  {
    var r := Early(b, h, n);
    InvFindsOwn(b);
    forall w | 0 <= w < r.cur && WaitAllowed(r, w) ensures FindsOwn(r, w) {
      EarlyWaitAllowed(b, h, n, w);
      assert FindsOwn(b, w);
      var i :| 0 <= i < |b.sent| && b.sent[i] == Msg(Task(w, b.finish[w]), WaitSlot(b, w)) && LastInSlot(b, i);
      assert LastInSlot(r, i);
    }
  }

  /** Once all earlier handles are requested, the early request is in order, if a message is in flight. */
  lemma EarlyInOrder(b: Ring, h: nat, n: uint8)
    requires Inv(b) && h < b.cur && b.requested == Prefix(b.repeats, h) && 0 < n <= b.repeats[h]
    requires b.finishes < b.commits
    ensures Inv(Early(b, h, n))
  {
    RequestKeepsCore(b, h, n);
    RequestIsEarly(b, h, n);
  }

  lemma RequestIsEarly(b: Ring, h: nat, n: uint8)
    requires b.Shaped() && h < b.cur && HandleAgrees(b, h) && b.requested <= Prefix(b.repeats, h)
    ensures Request(b, h, n) == Early(b, h, n)
  {}

  lemma CommitInFlight(b: Ring, x: nat)
    requires Inv(b) && CommitAllowed(b, x)
    ensures var r := Commit(b, x);
            && r.finishes < r.commits && r.requested == b.requested + 1 && r.repeats == b.repeats && r.cur == b.cur
            && r.working == b.working
  {
    NextSlotFreeIff(b);
  }

  /** The only repeat of handle h - 1 has not been requested. */
  predicate OneMissing(b: Ring, h: nat, n: uint8) {
    Waiting(b, h, n) && b.repeats[h - 1] == 1
  }

  lemma OneMissingTotals(b: Ring, h: nat, n: uint8)
    requires OneMissing(b, h, n)
    ensures b.need[h - 1] == b.finish[h - 1] == 0 && Prefix(b.repeats, h) == Prefix(b.repeats, h - 1) + 1
  {
    NothingFrom(b, h, n);
  }

  /** A call after the early request: either it still waits for an earlier request, or all is in order. */
  lemma OneMissingStep(b: Ring, h: nat, n: uint8, c: Call) returns (b': Ring)
    requires OneMissing(b, h, n) && Allowed(Early(b, h, n), c)
    ensures var r := Step(Early(b, h, n), c);
            (OneMissing(b', h, n) && r == Early(b', h, n)) || (Inv(r) && r.working)
  {
    OneMissingTotals(b, h, n);
    match c
    case PrepareCall(m, commit) => b' := OneMissingPrepare(b, h, n, m, commit);
    case CommitCall(x) => b' := OneMissingCommit(b, h, n, x);
    case WaitCall(w) => b' := OneMissingWait(b, h, n, w);
  }

  lemma OneMissingPrepare(b: Ring, h: nat, n: uint8, m: uint8, commit: bool) returns (b': Ring)
    requires OneMissing(b, h, n) && PrepareAllowed(Early(b, h, n), m, commit)
    ensures OneMissing(b', h, n) && Prepare(Early(b, h, n), m, commit) == Early(b', h, n)
  {
    var r := Early(b, h, n);
    OneMissingTotals(b, h, n);
    assert r.need[h - 1] != r.repeats[h - 1];
    if m == 0 {
      b' := b;
    } else {
      b' := Prepare(b, m, false);
      PrepareKeepsInv(b, m, false);
      RegisterKeepsPrefix(b, m, h);
      assert b.need[h := n][b.cur := 0] == b.need[b.cur := 0][h := n];
    }
  }

  lemma OneMissingCommit(b: Ring, h: nat, n: uint8, x: int) returns (b': Ring)
    requires OneMissing(b, h, n) && CommitAllowed(Early(b, h, n), x)
    ensures var r := Commit(Early(b, h, n), x);
            (OneMissing(b', h, n) && r == Early(b', h, n)) || (Inv(r) && r.working)
  {
    OneMissingTotals(b, h, n);
    assert Early(b, h, n).need[h - 1] != b.repeats[h - 1];
    assert x < h;
    EarlyCommit(b, h, n, x);
    CommitKeepsInv(b, x);
    CommitInFlight(b, x);
    b' := Commit(b, x);
    if b'.requested == Prefix(b'.repeats, h) {
      EarlyInOrder(b', h, n);
    }
  }

  lemma OneMissingWait(b: Ring, h: nat, n: uint8, w: int) returns (b': Ring)
    requires OneMissing(b, h, n) && WaitAllowed(Early(b, h, n), w)
    ensures OneMissing(b', h, n) && Wait(Early(b, h, n), w) == Early(b', h, n)
  {
    OneMissingTotals(b, h, n);
    EarlyWaitAllowed(b, h, n, w);
    EarlyWait(b, h, n, w);
    WaitKeepsWaiting(b, h, n, w);
    b' := Wait(b, w);
  }

  lemma {:induction false} OneMissingRun(b: Ring, h: nat, n: uint8, calls: seq<Call>)
    requires OneMissing(b, h, n) && Disciplined(Early(b, h, n), calls)
    ensures WaitsFindOwn(Run(Early(b, h, n), calls))
    decreases |calls|
  {
    if calls == [] {
      WaitingFindsOwn(b, h, n);
    } else {
      var r := Step(Early(b, h, n), calls[0]);
      var b' := OneMissingStep(b, h, n, calls[0]);
      if Inv(r) && r.working {
        InvRunSafe(r);
      } else {
        OneMissingRun(b', h, n, calls[1..]);
      }
    }
  }

  // A handle before h with more repeats can be waited for while the rest is not requested.

  /** The Wait of handle h - 1 that re-sends the early request. */
  lemma EarlyJumps(b: Ring, h: nat, n: uint8)
    requires Waiting(b, h, n) && b.need[h - 1] > 0 && WaitAllowed(b, h - 1) && !Deficit(Retire(b, h - 1), h - 1)
    ensures var r := Early(b, h, n);
            WaitAllowed(r, h - 1) && Jumped(Wait(r, h - 1), b.requested, h)
  {
    var w, q, e := h - 1, Retire(b, h - 1), Early(Retire(b, h - 1), h, n);
    NothingFrom(b, h, n);
    WaitTotals(b, w);
    RetireKeepsCore(b, w);
    EarlyWaitAllowed(b, h, n, w);
    assert Retire(Early(b, h, n), w) == e;
    assert HandleAgrees(q, w);
    PrefixStep(b.repeats, w, h);
    assert q.commits == q.requested;
    EarlyResendJumps(q, h, n);
  }

  lemma EarlyResendJumps(q: Ring, h: nat, n: uint8)
    requires Core(q) && q.working && 0 < h < q.cur && 0 < n <= q.repeats[h] && q.commits == q.requested
    requires Prefix(q.repeats, h - 1) < q.requested < Prefix(q.repeats, h) && q.commits < q.finishes + 64
    requires q.finishes <= q.commits
    ensures Jumped(CommitMsg(Early(q, h, n), h), q.requested, h)
  {
    var e := Early(q, h, n);
    var r := CommitMsg(e, h);
    NextSlotFreeIff(q);
    SendKeepsWindow(e, h);
    assert HandleAgrees(q, h);
    assert r.sent == q.sent + [Msg(Task(h, e.commit[h]), q.resId)];
    forall g | 0 <= g < r.cur ensures Waitable(r, g) {
      assert HandleAgrees(q, g);
    }
    forall g | 0 <= g < h ensures EarlierAt(r, g, q.requested) {
      assert HandleAgrees(q, g);
    }
  }

  /** Waiting in order until the early request jumps ahead. */
  lemma {:induction false} WaitingFails(b: Ring, h: nat, n: uint8) returns (calls: seq<Call>)
    requires Waiting(b, h, n) && b.requested > Prefix(b.repeats, h - 1) && b.finishes < b.requested
    ensures Disciplined(Early(b, h, n), calls) && !WaitsFindOwn(Run(Early(b, h, n), calls))
    decreases b.requested - b.finishes
  {
    var r := Early(b, h, n);
    var w := NextWait(b);
    var rest: seq<Call>;
    EarlyWaitAllowed(b, h, n, w);
    assert HandleAgrees(b, h - 1);
    if w == h - 1 && !Deficit(Retire(b, w), w) {
      EarlyJumps(b, h, n);
      rest := JumpedFails(Wait(r, w), b.requested, h);
    } else {
      EarlyWait(b, h, n, w);
      WaitKeepsWaiting(b, h, n, w);
      NotTheLast(b, h, n, w);
      rest := WaitingFails(Wait(b, w), h, n);
    }
    calls := [WaitCall(w)] + rest;
    FirstCall(r, WaitCall(w), rest);
  }

  /** The Wait for the last requested task has nothing to re-send. */
  lemma NotTheLast(b: Ring, h: nat, n: uint8, w: nat)
    requires Waiting(b, h, n) && b.requested > Prefix(b.repeats, h - 1) && b.finishes < b.requested
    requires w < b.cur && WaitAllowed(b, w) && Holds(b, w, b.finishes)
    requires w != h - 1 || Deficit(Retire(b, w), w)
    ensures b.finishes + 1 < b.requested
  {
    NothingFrom(b, h, n);
    WaitTotals(b, w);
    assert HandleAgrees(b, h - 1);
    if w < h - 1 {
      PrefixStep(b.repeats, w, h - 1);
    }
  }

  /** On a full ring the requests that are missing before h - 1 can be made first, and one of h - 1. */
  lemma {:induction false} FullRingFails(b: Ring, h: nat, n: uint8) returns (calls: seq<Call>)
    requires Waiting(b, h, n) && b.repeats[h - 1] >= 2 && !b.avail[b.resId]
    ensures Disciplined(Early(b, h, n), calls) && !WaitsFindOwn(Run(Early(b, h, n), calls))
    decreases Prefix(b.repeats, h) - b.requested
  {
    NextSlotFreeIff(b);
    if b.requested > Prefix(b.repeats, h - 1) {
      calls := WaitingFails(b, h, n);
    } else {
      var x := NextRequest(b, h, n);
      EarlyCommit(b, h, n, x);
      CommitKeepsInv(b, x);
      var rest := FullRingFails(Commit(b, x), h, n);
      calls := [CommitCall(x)] + rest;
      FirstCall(Early(b, h, n), CommitCall(x), rest);
    }
  }

  lemma NextRequest(b: Ring, h: nat, n: uint8) returns (x: nat)
    requires Waiting(b, h, n) && !b.avail[b.resId] && b.requested <= Prefix(b.repeats, h - 1)
    ensures x < h && CommitAllowed(b, x)
  {
    PrefixStep(b.repeats, h - 1, b.cur);
    assert HandleAgrees(b, h - 1);
    TaskAtInverse(b.repeats, h, b.requested);
    x := TaskAt(b.repeats, h, b.requested).handle;
    assert HandleAgrees(b, x);
    NotRequestedIff(b, x);
  }

  // ---------------------------------------------------------------------------------------------
  // The exact conditions
  // ---------------------------------------------------------------------------------------------

  /** The condition, which can be read off the ring before the request: if a slot is free, all earlier handles
      have sent all their repeats; if the ring is full, all earlier handles are fully requested, or the one
      just before has a single repeat. */
  predicate RequestSafe(r: Ring, h: nat)
    requires r.Shaped() && h <= r.cur
  {
    if r.avail[r.resId] then EarlierSent(r, h)
    else EarlierRequested(r, h) || (h > 0 && r.repeats[h - 1] == 1)
  }

  lemma DeferredRunSafeIff(b: Ring, h: nat, n: uint8)
    requires Waiting(b, h, n) && !b.avail[b.resId]
    ensures RunSafe(Early(b, h, n)) <==> b.repeats[h - 1] == 1
  {
    if b.repeats[h - 1] == 1 {
      forall calls | Disciplined(Early(b, h, n), calls) ensures WaitsFindOwn(Run(Early(b, h, n), calls)) {
        OneMissingRun(b, h, n, calls);
      }
    } else {
      assert HandleAgrees(b, h - 1);
      var calls := FullRingFails(b, h, n);
      UnsafeIf(Early(b, h, n), calls);
    }
  }

  /** A Commit of a handle that has a repeat left is safe exactly under that condition. */
  lemma CommitRunSafeIff(r: Ring, h: nat)
    requires Inv(r) && r.working && h < r.cur && r.need[h] < r.repeats[h]
    ensures RunSafe(Commit(r, h)) <==> RequestSafe(r, h)
  {
    NotRequestedIff(r, h);
    if r.avail[r.resId] && !EarlierSent(r, h) {
      CommitJumps(r, h);
      var calls := JumpedFails(Commit(r, h), r.commits, h);
      UnsafeIf(Commit(r, h), calls);
    } else if r.avail[r.resId] || EarlierRequested(r, h) {
      if r.avail[r.resId] {
        EarlierSentIsAllowed(r, h);
      }
      CommitKeepsInv(r, h);
      InvRunSafe(Commit(r, h));
    } else {
      RequestIsEarly(r, h, 1);
      DeferredRunSafeIff(r, h, 1);
    }
  }

  lemma FullRingPrepare(r: Ring, n: uint8)
    requires Inv(r) && r.cur < MAX_HANDLES && n > 0 && !r.avail[r.resId]
    ensures Prepare(r, n, true) == Early(Prepare(r, n, false), r.cur, n)
  {
    PrepareIsLoop(r, n);
    assert CommitLoop(Requested(r, n), r.cur, 0) == Requested(r, n);
  }

  /** Preparing and committing a handle is safe exactly under that condition. */
  lemma PrepareRunSafeIff(r: Ring, n: uint8)
    requires Inv(r) && r.working && r.cur < MAX_HANDLES && n > 0
    ensures RunSafe(Prepare(r, n, true)) <==> RequestSafe(r, r.cur)
  {
    var h := r.cur;
    NotRequestedIff(r, h);
    if r.avail[r.resId] && !EarlierSent(r, h) {
      PrepareJumps(r, n);
      var calls := JumpedFails(Prepare(r, n, true), r.commits, h);
      UnsafeIf(Prepare(r, n, true), calls);
    } else if r.avail[r.resId] || EarlierRequested(r, h) {
      if r.avail[r.resId] {
        EarlierSentIsAllowed(r, h);
      }
      PrepareCommits(r, n);
      InvRunSafe(Prepare(r, n, true));
    } else {
      FullRingPrepare(r, n);
      PrepareKeepsInv(r, n, false);
      RegisterKeepsPrefix(r, n, h);
      DeferredRunSafeIff(Prepare(r, n, false), h, n);
    }
  }

  // ---------------------------------------------------------------------------------------------
  // Handles and requests read off the list of calls
  // ---------------------------------------------------------------------------------------------

  /** The calls that prepare a handle, in order; a repeat of 0 prepares none. */
  function Prepares(calls: seq<Call>): (p: seq<Call>)
    ensures forall h | 0 <= h < |p| :: p[h].PrepareCall? && p[h].repeat > 0
  {
    if calls == [] then []
    else
      var last := calls[|calls| - 1];
      Prepares(calls[..|calls| - 1]) + if last.PrepareCall? && last.repeat > 0 then [last] else []
  }

  /** How many Commits name handle h. */
  function CommitsOf(calls: seq<Call>, h: nat): nat {
    if calls == [] then 0
    else CommitsOf(calls[..|calls| - 1], h) + if calls[|calls| - 1] == CommitCall(h) then 1 else 0
  }

  /** The repeats of handle h that were requested: all of them when it was committed at Prepare, and one per
      Commit. */
  function RequestsOf(calls: seq<Call>, h: nat): nat
    requires h < |Prepares(calls)|
  {
    (if Prepares(calls)[h].commit then Prepares(calls)[h].repeat else 0) + CommitsOf(calls, h)
  }

  predicate Tells(r: Ring, calls: seq<Call>) {
    && Inv(r) && r.cur == |Prepares(calls)| <= MAX_HANDLES
    && (forall h | 0 <= h < r.cur :: r.repeats[h] == Prepares(calls)[h].repeat)
    && (forall h | 0 <= h < r.cur :: r.need[h] == RequestsOf(calls, h))
    && (forall h | r.cur <= h < MAX_HANDLES :: CommitsOf(calls, h) == 0)
  }

  lemma CallsNext(calls: seq<Call>, c: Call, h: nat)
    ensures Prepares(calls + [c]) == Prepares(calls) + if c.PrepareCall? && c.repeat > 0 then [c] else []
    ensures CommitsOf(calls + [c], h) == CommitsOf(calls, h) + if c == CommitCall(h) then 1 else 0
  {
    assert (calls + [c])[..|calls|] == calls;
  }

  /** What each call does to the tables that Tells speaks of. */
  lemma StepTables(r: Ring, c: Call)
    requires Inv(r) && Allowed(r, c)
    ensures var r' := Step(r, c);
            match c
            case PrepareCall(n, commit) =>
              if n == 0 then r' == r
              else r'.cur == r.cur + 1 && r'.repeats == r.repeats[r.cur := n]
                   && r'.need == r.need[r.cur := if commit then n else 0]
            case CommitCall(h) =>
              r'.cur == r.cur && r'.repeats == r.repeats && r'.need == r.need[h := r.need[h] + 1]
            case WaitCall(_) => r'.cur == r.cur && r'.repeats == r.repeats && r'.need == r.need
  {
    match c
    case PrepareCall(n, commit) => if n > 0 { PrepareNeeds(r, n, commit); }
    case CommitCall(h) => CommitNeeds(r, h);
    case WaitCall(h) => WaitFrame(r, h);
  }

  lemma PrepareNeeds(r: Ring, n: uint8, commit: bool)
    requires r.Shaped() && r.cur < MAX_HANDLES && n > 0
    ensures var r' := Prepare(r, n, commit);
            && r'.cur == r.cur + 1 && r'.repeats == r.repeats[r.cur := n]
            && r'.need == r.need[r.cur := if commit then n else 0]
  {
    if commit {
      PrepareIsLoop(r, n);
      LoopKeepsNeed(Requested(r, n), r.cur, 0);
    }
  }

  lemma CommitNeeds(r: Ring, h: nat)
    requires r.Shaped() && h < MAX_HANDLES
    ensures var r' := Commit(r, h);
            && r'.cur == r.cur && r'.repeats == r.repeats && r'.need == r.need[h := Add8(r.need[h], 1)]
  {}

  lemma {:induction false} LoopKeepsNeed(r: Ring, h: nat, i: nat)
    requires r.Shaped() && h < MAX_HANDLES
    ensures CommitLoop(r, h, i).need == r.need
    decreases r.repeats[h] - i
  {
    if i < r.repeats[h] && r.avail[r.resId] {
      LoopKeepsNeed(SendNext(r, h, i), h, i + 1);
    }
  }

  lemma StepTells(r: Ring, calls: seq<Call>, c: Call)
    requires Tells(r, calls) && Allowed(r, c)
    ensures Tells(Step(r, c), calls + [c])
  {
    var r' := Step(r, c);
    StepKeepsInv(r, c);
    StepTables(r, c);
    CallsNext(calls, c, 0);
    forall h | 0 <= h < MAX_HANDLES
      ensures CommitsOf(calls + [c], h) == CommitsOf(calls, h) + if c == CommitCall(h) then 1 else 0
    {
      CallsNext(calls, c, h);
    }
  }

  lemma {:induction false} RunTells(r: Ring, before: seq<Call>, calls: seq<Call>)
    requires Tells(r, before) && Disciplined(r, calls)
    ensures Tells(Run(r, calls), before + calls)
    decreases |calls|
  {
    if calls == [] {
      assert before + calls == before;
    } else {
      StepTells(r, before, calls[0]);
      RunTells(Step(r, calls[0]), before + [calls[0]], calls[1..]);
      assert before + [calls[0]] + calls[1..] == before + calls;
    }
  }

  /** After a disciplined run there is one handle per Prepare with a repeat, each with as many requests as the
      calls made; a Wait on a handle is accepted exactly when it has one, and otherwise changes nothing. */
  lemma WaitAcceptedIff(r0: Ring, calls: seq<Call>, h: nat)
    requires Initial(r0) && Disciplined(r0, calls) && h < Run(r0, calls).cur
    ensures var r := Run(r0, calls);
            && r.cur == |Prepares(calls)| && r.repeats[h] == Prepares(calls)[h].repeat
            && (WaitAccepts(r, h) <==> RequestsOf(calls, h) > 0)
            && (RequestsOf(calls, h) == 0 ==> Wait(r, h) == r)
  {
    InitialInv(r0);
    NoCommits();
    RunTells(r0, [], calls);
    assert [] + calls == calls;
  }

  lemma NoCommits()
    ensures forall h: nat :: CommitsOf([], h) == 0
  {}

  // ---------------------------------------------------------------------------------------------
  // The fourth handle's run goes on
  // ---------------------------------------------------------------------------------------------

  lemma FourthHandleTables(r: Ring, n: uint8)
    requires n >= 63 && At(r, true, [1, 1, n], n + 2, 64, 1)
    ensures var p := Prepare(r, 1, true);
            && p.cur == 4 && p.sent == r.sent + [Msg(Task(3, 0), 0)] && p.resId == 1 && p.repeats[0] == 1
            && p.need[1] == 1 && p.need[2] == n && p.commit[1] == 1 && p.commit[2] == 62
            && p.finish[0] == 1 && p.finish[1] == 0 && p.reqId[1] == 1 && p.reqId[2] == 2
  {
    CrowdedState(r, n);
    PrepareTables(r, 1);
    PrepareAdds(r, 1);
    OneMessage(r, Prepare(r, 1, true));
    assert HandleAgrees(r, 0) && HandleAgrees(r, 1) && HandleAgrees(r, 2);
    assert r.repeats[0] == r.repeats[..3][0] && r.repeats[1] == r.repeats[..3][1];
    assert r.repeats[2] == r.repeats[..3][2];
    assert Prefix(r.repeats, 1) == 1 && Prefix(r.repeats, 2) == 2;
  }

  lemma SecondWaitResends(p: Ring, n: uint8)
    requires p.Shaped() && p.working && n >= 63 && p.cur == 4 && p.resId == 1 && p.repeats[0] == 1
    requires p.need[1] == 1 && p.need[2] == n && p.commit[1] == 1 && p.commit[2] == 62
    requires p.finish[0] == 1 && p.finish[1] == 0 && p.reqId[1] == 1 && p.reqId[2] == 2
    ensures WaitAllowed(p, 1) && !SlotsAgree(Wait(p, 1))
  {
    var q, m := Retire(p, 1), Msg(Task(2, 62), 1);
    assert Wait(p, 1) == CommitMsg(q, 2);
    var r := Wait(p, 1);
    assert r.sent == p.sent + [m] && r.sent[|p.sent|] == m;
    assert !Agrees(r, m);
  }

  /** Even when the fourth handle's own message is in the right slot, the very next in-order Wait re-sends a
      message of the third handle in a slot that its Wait will not read; no run of that family is safe. */
  lemma FourthHandleIsUnsafe(r0: Ring, n: uint8)
    requires Initial(r0) && r0.working && n >= 63
    ensures Disciplined(r0, Crowded(n))
    ensures Run(r0, Crowded(n)).cur == 3
    ensures var p := Prepare(Run(r0, Crowded(n)), 1, true);
            WaitAllowed(p, 1) && !SlotsAgree(Wait(p, 1)) && !RunSafe(p)
  {
    CrowdedRun(r0, n);
    var r := Run(r0, Crowded(n));
    CrowdedState(r, n);
    FourthHandleTables(r, n);
    PrepareTables(r, 1);
    SecondWaitResends(Prepare(r, 1, true), n);
    PrepareRunSafeIff(r, 1);
  }
}
