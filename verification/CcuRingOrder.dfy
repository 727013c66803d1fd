/**
  What goes wrong when a request is not held back: program order, and the agreement between the slot a
  message is sent in and the slot its own Wait reads.  The two fail under different conditions; each is
  given exactly, for Commit and for Prepare with commit.
*/
module CcuRingOrder {
  import opened Common
  import opened CcuRingModel
  import opened CcuRingProofs

  // ---------------------------------------------------------------------------------------------
  // Program order
  // ---------------------------------------------------------------------------------------------

  predicate EarlierSent(r: Ring, h: nat)
    requires r.Shaped() && h <= r.cur
  {
    forall g | 0 <= g < h :: r.commit[g] == r.repeats[g]
  }

  lemma EarlierSentIff(r: Ring, h: nat)
    requires Inv(r) && h <= r.cur
    ensures EarlierSent(r, h) <==> Prefix(r.repeats, h) <= r.commits
  {
    if h > 0 {
      assert HandleAgrees(r, h - 1);
    }
    if Prefix(r.repeats, h) <= r.commits {
      forall g | 0 <= g < h ensures r.commit[g] == r.repeats[g] {
        assert HandleAgrees(r, g);
        PrefixStep(r.repeats, g, h);
      }
    }
  }

  /** A Commit that finds a free slot keeps program order exactly when every earlier handle has sent
      all its repeats and this handle still has one to send. */
  lemma CommitKeepsOrderIff(r: Ring, h: nat)
    requires Inv(r) && r.working && h < r.cur && r.avail[r.resId]
    ensures SentInOrder(Commit(r, h)) <==>
            r.commit[h] < r.repeats[h] && EarlierSent(r, h)
  {
    var r' := Commit(r, h);
    var n := |r.sent|;
    assert r'.sent[n] == Msg(Task(h, r.commit[h]), n % 64);
    assert HandleAgrees(r, h);
    EarlierSentIff(r, h);
    if SentInOrder(r') {
      assert r'.sent[n] == Msg(TaskAt(r.repeats, r.cur, n), n % 64);
      TaskAtInverse(r.repeats, r.cur, n);
    }
    if r.commit[h] < r.repeats[h] && EarlierSent(r, h) {
      SendKeepsOrder(r, h);
    }
  }

  /** For requests made in program order the condition is the discipline's last clause. */
  lemma DisciplineIsWhatOrderNeeds(r: Ring, h: nat)
    requires Inv(r) && r.working && h < r.cur && r.avail[r.resId]
    requires EarlierRequested(r, h) && r.need[h] < r.repeats[h]
    ensures SentInOrder(Commit(r, h)) <==> NoEarlierDeficit(r, h)
  {
    CommitKeepsOrderIff(r, h);
    assert HandleAgrees(r, h);
    forall g | 0 <= g < h ensures Deficit(r, g) <==> r.commit[g] != r.repeats[g] {
      assert HandleAgrees(r, g);
    }
  }

  /** The message at position j when the handle's repeats from the i-th on follow those sent so far, in
      consecutive slots. */
  function Following(r: Ring, h: nat, i: nat, j: nat): Msg
    requires |r.sent| <= j
  {
    Msg(Task(h, i + (j - |r.sent|)), (r.resId + (j - |r.sent|)) % 64)
  }

  lemma FollowingNext(r: Ring, h: nat, i: nat)
    requires r.Shaped() && r.working && h < MAX_HANDLES
    ensures var q, n := SendNext(r, h, i), |r.sent|;
            && q.sent[n] == Following(r, h, i, n)
            && forall j | n < j :: Following(q, h, i + 1, j) == Following(r, h, i, j)
  {
    forall j | |r.sent| < j ensures Following(SendNext(r, h, i), h, i + 1, j) == Following(r, h, i, j) {
      SlotSum(r.resId + 1, j - |r.sent| - 1);
    }
  }

  /** What the loop sends. */
  lemma {:induction false} LoopSends(r: Ring, h: nat, i: nat)
    requires r.Shaped() && r.working && h < MAX_HANDLES
    ensures var r', n := CommitLoop(r, h, i), |r.sent|;
            && |r'.sent| >= n && (|r'.sent| > n <==> i < r.repeats[h] && r.avail[r.resId])
            && (i <= r.repeats[h] ==> |r'.sent| - n <= r.repeats[h] - i)
            && (forall j | 0 <= j < n :: r'.sent[j] == r.sent[j])
            && (forall j | n <= j < |r'.sent| :: r'.sent[j] == Following(r, h, i, j))
    decreases r.repeats[h] - i
  {
    if i < r.repeats[h] && r.avail[r.resId] {
      var q, r', n := SendNext(r, h, i), CommitLoop(r, h, i), |r.sent|;
      LoopSends(q, h, i + 1);
      FollowingNext(r, h, i);
      assert r'.sent[n] == q.sent[n];
    }
  }

  lemma NewHandleSlot(r: Ring, n: uint8)
    requires Inv(r) && r.cur < MAX_HANDLES
    ensures Requested(r, n).reqId == r.reqId[r.cur := Prefix(r.repeats, r.cur) % 64]
  {
    if r.cur > 0 {
      var h := r.cur - 1;
      assert HandleAgrees(r, h);
      SlotSum(Prefix(r.repeats, h), r.repeats[h]);
      assert Prefix(r.repeats, r.cur) == Prefix(r.repeats, h) + r.repeats[h];
    }
  }

  /** A new handle of n repeats has been added, and some of its first repeats sent in the slots from resId
      on; at least one if the slot there is free. */
  predicate Adds(r: Ring, r': Ring, n: uint8)
    requires r.Shaped() && r'.Shaped() && r.cur < MAX_HANDLES
  {
    && r'.cur == r.cur + 1 && r'.repeats == r.repeats[r.cur := n] && r'.finish[r.cur] == 0
    && r'.reqId == r.reqId[r.cur := Prefix(r.repeats, r.cur) % 64]
    && |r.sent| <= |r'.sent| <= |r.sent| + n && (|r'.sent| > |r.sent| <==> r.avail[r.resId])
    && (forall j | 0 <= j < |r.sent| :: r'.sent[j] == r.sent[j])
    && (forall j | |r.sent| <= j < |r'.sent| :: r'.sent[j] == Following(r, r.cur, 0, j))
  }

  lemma LoopAdds(r: Ring, n: uint8)
    requires r.Shaped() && r.working && r.cur < MAX_HANDLES && n > 0
    requires Requested(r, n).reqId == r.reqId[r.cur := Prefix(r.repeats, r.cur) % 64]
    ensures Adds(r, CommitLoop(Requested(r, n), r.cur, 0).(cur := r.cur + 1), n)
  {
    var q, r' := Requested(r, n), CommitLoop(Requested(r, n), r.cur, 0);
    LoopSends(q, r.cur, 0);
    assert q.finish[r.cur] == 0;
    forall j | |r.sent| <= j < |r'.sent| ensures r'.sent[j] == Following(r, r.cur, 0, j) {
      assert r'.sent[j] == Following(q, r.cur, 0, j);
    }
  }

  lemma PrepareAdds(r: Ring, n: uint8)
    requires Inv(r) && r.working && r.cur < MAX_HANDLES && n > 0
    ensures Adds(r, Prepare(r, n, true), n)
  {
    PrepareIsLoop(r, n);
    NewHandleSlot(r, n);
    LoopAdds(r, n);
  }

  /** Preparing and committing a handle keeps program order exactly when no message goes out now, or every
      earlier handle has sent all its repeats. */
  lemma PrepareKeepsOrderIff(r: Ring, n: uint8)
    requires Inv(r) && r.working && r.cur < MAX_HANDLES && n > 0
    ensures SentInOrder(Prepare(r, n, true)) <==> (r.avail[r.resId] ==> EarlierSent(r, r.cur))
  {
    var r', h, sent := Prepare(r, n, true), r.cur, |r.sent|;
    PrepareAdds(r, n);
    RegisterKeepsPrefix(r, n, h);
    EarlierSentIff(r, h);
    if !r.avail[r.resId] {
      assert r'.sent == r.sent;
      assert Prefix(r'.repeats, h + 1) == Prefix(r.repeats, h) + n;
    } else if EarlierSent(r, h) {
      forall g | 0 <= g < h ensures r.need[g] == r.repeats[g] && !Deficit(r, g) {
        assert HandleAgrees(r, g);
      }
      PrepareKeepsInv(r, n, true);
    } else if SentInOrder(r') {
      assert r'.sent[sent].task == Following(r, h, 0, sent).task;
      TaskAtInverse(r'.repeats, h + 1, sent);
    }
  }

  // ---------------------------------------------------------------------------------------------
  // Slot agreement
  // ---------------------------------------------------------------------------------------------

  /** The slot that the Wait for a task reads: WaitSlot when the handle's finish count has come to it. */
  function AwaitedSlot(r: Ring, t: Task): (s: nat)
    requires r.Shaped() && t.handle < MAX_HANDLES
    ensures r.finish[t.handle] == t.repeatIndex ==> s == WaitSlot(r, t.handle)
  {
    Add8(r.reqId[t.handle], t.repeatIndex) % 64
  }

  predicate Agrees(r: Ring, m: Msg)
    requires r.Shaped()
  {
    m.task.handle < MAX_HANDLES && m.slot == AwaitedSlot(r, m.task)
  }

  /** Every message was sent in the slot that its own Wait reads. */
  predicate SlotsAgree(r: Ring)
    requires r.Shaped()
  {
    forall i | 0 <= i < |r.sent| :: Agrees(r, r.sent[i])
  }

  lemma InvSlotsAgree(r: Ring)
    requires Inv(r)
    ensures SlotsAgree(r) && forall i | 0 <= i < |r.sent| :: r.sent[i].task.handle < r.cur
  {
    forall i | 0 <= i < |r.sent| ensures Agrees(r, r.sent[i]) && r.sent[i].task.handle < r.cur {
      TaskAtInverse(r.repeats, r.cur, i);
      var t := TaskAt(r.repeats, r.cur, i);
      assert HandleAgrees(r, t.handle);
      SlotModulo(Prefix(r.repeats, t.handle), t.repeatIndex, i);
    }
  }

  lemma SameSlotIff(x: nat, y: nat)
    ensures x % 64 == y % 64 <==> (x - y) % 64 == 0
  {}

  /** The k-th slot after slot p is slot x exactly when they differ by whole rounds of the ring. */
  lemma SlotModulo(p: nat, k: nat, x: nat)
    ensures Add8(p % 64, k) % 64 == x % 64 <==> (p + k - x) % 64 == 0
  {
    SlotSum(p, k);
    SameSlotIff(p + k, x);
  }

  /** How far the tasks of handle h are ahead of the messages sent, in program order. */
  function Ahead(r: Ring, h: nat): int
    requires r.Shaped() && h <= r.cur
  {
    Prefix(r.repeats, h) - r.commits
  }

  /** A Commit sends its message where its Wait will look exactly when it sends none now, or the task is a
      whole number of rounds of the ring ahead of program order. */
  lemma CommitKeepsAgreementIff(r: Ring, h: nat)
    requires Inv(r) && r.working && h < r.cur
    ensures SlotsAgree(Commit(r, h)) <==> (r.avail[r.resId] ==> (Ahead(r, h) + r.commit[h]) % 64 == 0)
  {
    InvSlotsAgree(r);
    var r', n := Commit(r, h), |r.sent|;
    assert HandleAgrees(r, h);
    SlotModulo(Prefix(r.repeats, h), r.commit[h], r.commits);
    if r.avail[r.resId] {
      var m := Msg(Task(h, r.commit[h]), r.commits % 64);
      assert r'.sent == r.sent + [m];
      assert Agrees(r', m) <==> (Ahead(r, h) + r.commit[h]) % 64 == 0;
      forall i | 0 <= i < n ensures Agrees(r', r'.sent[i]) {
        assert r'.sent[i] == r.sent[i] && Agrees(r, r.sent[i]);
      }
      assert r'.sent[n] == m;
    }
  }

  lemma RoundsAhead(p: nat, t: nat, d: nat)
    ensures Add8(p % 64, d) % 64 == (t % 64 + d) % 64 <==> (p - t) % 64 == 0
  {
    SlotModulo(p, d, t + d);
    SlotSum(t, d);
  }

  lemma FollowingAgreesIff(r: Ring, r': Ring, n: uint8, i: nat)
    requires Inv(r) && r'.Shaped() && r.cur < MAX_HANDLES && Adds(r, r', n) && |r.sent| <= i
    ensures Agrees(r', Following(r, r.cur, 0, i)) <==> Ahead(r, r.cur) % 64 == 0
  {
    RoundsAhead(Prefix(r.repeats, r.cur), r.commits, i - |r.sent|);
  }

  /** Preparing and committing a handle sends its messages where their Waits will look exactly when it sends
      none now, or the handle's tasks are a whole number of rounds of the ring ahead of program order. */
  lemma PrepareKeepsAgreementIff(r: Ring, n: uint8)
    requires Inv(r) && r.working && r.cur < MAX_HANDLES && n > 0
    ensures SlotsAgree(Prepare(r, n, true)) <==> (r.avail[r.resId] ==> Ahead(r, r.cur) % 64 == 0)
  {
    InvSlotsAgree(r);
    PrepareAdds(r, n);
    AddingAgreesIff(r, Prepare(r, n, true), n);
  }

  lemma AddingAgreesIff(r: Ring, r': Ring, n: uint8)
    requires Inv(r) && r.working && SlotsAgree(r) && r'.Shaped() && r.cur < MAX_HANDLES && Adds(r, r', n)
    requires forall j | 0 <= j < |r.sent| :: r.sent[j].task.handle < r.cur
    ensures SlotsAgree(r') <==> (r.avail[r.resId] ==> Ahead(r, r.cur) % 64 == 0)
  {
    forall i | 0 <= i < |r'.sent| ensures Agrees(r', r'.sent[i]) <==> i < |r.sent| || Ahead(r, r.cur) % 64 == 0 {
      if i < |r.sent| {
        assert Agrees(r, r.sent[i]);
      } else {
        FollowingAgreesIff(r, r', n, i);
      }
    }
    if r.avail[r.resId] {
      assert Agrees(r', r'.sent[|r.sent|]) <==> Ahead(r, r.cur) % 64 == 0;
    }
  }

  // ---------------------------------------------------------------------------------------------
  // Runs that break order
  // ---------------------------------------------------------------------------------------------

  lemma {:induction false} RunExtends(r: Ring, calls: seq<Call>, c: Call)
    requires r.Shaped() && Disciplined(r, calls) && Allowed(Run(r, calls), c)
    ensures Disciplined(r, calls + [c]) && Run(r, calls + [c]) == Step(Run(r, calls), c)
    decreases |calls|
  {
    if calls == [] {
      assert [c][1..] == [];
      assert Disciplined(Step(r, c), [c][1..]);
    } else {
      RunExtends(Step(r, calls[0]), calls[1..], c);
      assert (calls + [c])[1..] == calls[1..] + [c];
    }
  }

  /** The totals and the first handles of a ring in the runs below. */
  predicate At(r: Ring, working: bool, reps: seq<uint8>, requested: nat, commits: nat, finishes: nat) {
    && Inv(r) && r.working == working && r.cur == |reps| && r.repeats[..|reps|] == reps
    && r.requested == requested && r.commits == commits && r.finishes == finishes
  }

  lemma AllSentBefore(r: Ring, reps: seq<uint8>)
    requires Inv(r) && r.cur == |reps| && r.repeats[..|reps|] == reps
    requires r.requested == r.commits == Prefix(reps, |reps|)
    ensures EarlierRequested(r, r.cur) && NoEarlierDeficit(r, r.cur)
  {
    PrefixFrame(reps, r.repeats, |reps|);
    EarlierSentIff(r, r.cur);
    forall g | 0 <= g < r.cur ensures r.need[g] == r.repeats[g] == r.commit[g] {
      assert HandleAgrees(r, g);
    }
  }

  lemma PrepareNext(r0: Ring, calls: seq<Call>, reps: seq<uint8>, n: uint8, q: nat)
    requires r0.Shaped() && Disciplined(r0, calls) && |reps| < MAX_HANDLES && n > 0
    requires At(Run(r0, calls), r0.working, reps, q, q, 0) && q < 64
    requires q == Prefix(reps, |reps|)
    ensures Disciplined(r0, calls + [PrepareCall(n, true)])
    ensures At(Run(r0, calls + [PrepareCall(n, true)]), r0.working, reps + [n], q + n,
               if q + n <= 64 then q + n else 64, 0)
  {
    var r := Run(r0, calls);
    NextSlotFreeIff(r);
    AllSentBefore(r, reps);
    PrepareCommits(r, n);
    RunExtends(r0, calls, PrepareCall(n, true));
  }

  const PREPARED_TWO: seq<Call> := [] + [PrepareCall(1, true)] + [PrepareCall(1, true)]

  function Prepared(n: uint8): seq<Call> { PREPARED_TWO + [PrepareCall(n, true)] }

  lemma PreparedTwo(r0: Ring)
    requires Initial(r0)
    ensures Disciplined(r0, PREPARED_TWO) && At(Run(r0, PREPARED_TWO), r0.working, [] + [1] + [1], 2, 2, 0)
  {
    InitialInv(r0);
    assert Disciplined(r0, []) && Run(r0, []) == r0;
    PrepareNext(r0, [], [], 1, 0);
    assert Prefix([] + [1], 1) == 1;
    PrepareNext(r0, [] + [PrepareCall(1, true)], [] + [1], 1, 1);
  }

  /** Handles of 1, 1 and n tasks, committed when prepared: all tasks but 64 are deferred. */
  lemma PreparedRun(r0: Ring, n: uint8)
    requires Initial(r0) && n >= 63
    ensures Disciplined(r0, Prepared(n)) && At(Run(r0, Prepared(n)), r0.working, [1, 1, n], n + 2, 64, 0)
  {
    PreparedTwo(r0);
    var two: seq<uint8> := [] + [1] + [1];
    assert Prefix(two, 1) == 1 && Prefix(two, 2) == 2;
    PrepareNext(r0, PREPARED_TWO, two, n, 2);
    assert two + [n] == [1, 1, n];
  }

  function Crowded(n: uint8): seq<Call> { Prepared(n) + [WaitCall(0)] }

  /** Waiting for the first handle frees a slot, but neither it nor its successor has a deferred task. */
  lemma CrowdedRun(r0: Ring, n: uint8)
    requires Initial(r0) && n >= 63
    ensures Disciplined(r0, Crowded(n)) && At(Run(r0, Crowded(n)), r0.working, [1, 1, n], n + 2, 64, 1)
  {
    PreparedRun(r0, n);
    var r := Run(r0, Prepared(n));
    assert HandleAgrees(r, 0) && HandleAgrees(r, 1);
    assert r.repeats[0] == r.repeats[..3][0] && r.repeats[1] == r.repeats[..3][1];
    assert Prefix(r.repeats, 1) == 1;
    WaitKeepsInv(r, 0);
    RunExtends(r0, Prepared(n), WaitCall(0));
    assert Wait(r, 0) == Retire(r, 0);
  }

  /** The state after that run: the third handle's deferred tasks come before any fourth handle's. */
  lemma CrowdedState(r: Ring, n: uint8)
    requires n >= 63 && At(r, true, [1, 1, n], n + 2, 64, 1)
    ensures EarlierRequested(r, 3) && !NoEarlierDeficit(r, 3) && !EarlierSent(r, 3)
    ensures r.avail[r.resId] && Ahead(r, 3) == n - 62
  {
    assert HandleAgrees(r, 0) && HandleAgrees(r, 1) && HandleAgrees(r, 2);
    assert r.repeats[0] == r.repeats[..3][0] && r.repeats[1] == r.repeats[..3][1];
    assert r.repeats[2] == r.repeats[..3][2];
    assert Prefix(r.repeats, 1) == 1 && Prefix(r.repeats, 2) == 2 && Prefix(r.repeats, 3) == n + 2;
    assert Deficit(r, 2);
    NextSlotFreeIff(r);
  }

  lemma FourthHandle(r: Ring, n: uint8)
    requires n >= 63 && At(r, true, [1, 1, n], n + 2, 64, 1)
    ensures !SentInOrder(Prepare(r, 1, true)) && (SlotsAgree(Prepare(r, 1, true)) <==> (n + 2) % 64 == 0)
  {
    CrowdedState(r, n);
    PrepareKeepsOrderIff(r, 1);
    PrepareKeepsAgreementIff(r, 1);
  }

  /** After handles of 1, 1 and n repeats and one Wait, a fourth handle always goes out of program order;
      only the discipline's last clause was broken.  Its message sits where its Wait looks exactly when
      n + 2 is a multiple of 64. */
  lemma FourthHandleBreaksOrder(r0: Ring, n: uint8)
    requires Initial(r0) && r0.working && n >= 63
    ensures Disciplined(r0, Crowded(n))
    ensures var r := Run(r0, Crowded(n));
            && r.cur == 3 && EarlierRequested(r, 3) && !NoEarlierDeficit(r, 3)
            && !SentInOrder(Prepare(r, 1, true)) && (SlotsAgree(Prepare(r, 1, true)) <==> (n + 2) % 64 == 0)
  {
    CrowdedRun(r0, n);
    CrowdedState(Run(r0, Crowded(n)), n);
    FourthHandle(Run(r0, Crowded(n)), n);
  }

  /** A handle of one repeat and a free slot: one message. */
  lemma OneMessage(r: Ring, r': Ring)
    requires Inv(r) && r.working && r'.Shaped() && r.cur < MAX_HANDLES && r.avail[r.resId] && Adds(r, r', 1)
    ensures |r'.sent| == r.commits + 1 && r'.sent[r.commits] == Msg(Task(r.cur, 0), r.commits % 64)
    ensures WaitSlot(r', r.cur) == Prefix(r.repeats, r.cur) % 64
  {
    assert r'.sent[r.commits] == Following(r, r.cur, 0, r.commits);
  }

  lemma FourthAfter63(r: Ring)
    requires At(r, true, [1, 1, 63], 65, 64, 1)
    ensures var bad := Prepare(r, 1, true);
            |bad.sent| == 65 && bad.sent[64] == Msg(Task(3, 0), 0) && WaitSlot(bad, 3) == 1
  {
    CrowdedState(r, 63);
    PrepareAdds(r, 1);
    OneMessage(r, Prepare(r, 1, true));
  }

  /** With 63 repeats the new message takes slot 0, the deferred one's, while its Wait will look at slot 1. */
  lemma SlotAgreementFails(r0: Ring)
    requires Initial(r0) && r0.working
    ensures Disciplined(r0, Crowded(63))
    ensures var r := Run(r0, Crowded(63));
            && r.cur == 3 && EarlierRequested(r, 3) && !NoEarlierDeficit(r, 3)
            && var bad := Prepare(r, 1, true);
            && |bad.sent| == 65 && bad.sent[64] == Msg(Task(3, 0), 0) && WaitSlot(bad, 3) == 1
            && !SlotsAgree(bad) && !SentInOrder(bad)
  {
    FourthHandleBreaksOrder(r0, 63);
    CrowdedRun(r0, 63);
    FourthAfter63(Run(r0, Crowded(63)));
  }
}
