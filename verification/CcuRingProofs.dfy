/**
  The ring's invariant over every disciplined run, and what follows from it: a Wait reads the slot its
  own task was sent in, deferred tasks are always re-sent in time, and tasks are sent exactly once in
  program order.  The third part of the discipline is shown to be exactly what order needs.
*/
module CcuRingProofs {
  import opened Common
  import opened CcuRingModel

  // ---------------------------------------------------------------------------------------------
  // Prefix sums and the cyclic window
  // ---------------------------------------------------------------------------------------------

  lemma {:induction false} PrefixStep(reps: seq<uint8>, g: nat, n: nat)
    requires g < n <= |reps|
    ensures Prefix(reps, g) + reps[g] <= Prefix(reps, n)
  {
    if g < n - 1 {
      PrefixStep(reps, g, n - 1);
    }
  }

  lemma {:induction false} PrefixFrame(reps: seq<uint8>, reps': seq<uint8>, n: nat)
    requires n <= |reps| && n <= |reps'| && reps[..n] == reps'[..n]
    ensures Prefix(reps, n) == Prefix(reps', n)
    ensures forall i | 0 <= i < Prefix(reps, n) :: TaskAt(reps, n, i) == TaskAt(reps', n, i)
  {
    if n > 0 {
      assert reps[n - 1] == reps[..n][n - 1] && reps'[n - 1] == reps'[..n][n - 1];
      assert reps[..n - 1] == reps[..n][..n - 1] && reps'[..n - 1] == reps'[..n][..n - 1];
      PrefixFrame(reps, reps', n - 1);
    }
  }

  /** Program order lists the k-th task of handle h at position Prefix(h) + k. */
  lemma {:induction false} TaskAtPrefix(reps: seq<uint8>, n: nat, h: nat, k: nat)
    requires h < n <= |reps| && k < reps[h]
    ensures Prefix(reps, h) + k < Prefix(reps, n)
    ensures TaskAt(reps, n, Prefix(reps, h) + k) == Task(h, k)
  {
    PrefixStep(reps, h, n);
    if h < n - 1 {
      TaskAtPrefix(reps, n - 1, h, k);
    }
  }

  /** ... and lists nothing else there, so it lists every task once. */
  lemma {:induction false} TaskAtInverse(reps: seq<uint8>, n: nat, i: nat)
    requires n <= |reps| && i < Prefix(reps, n)
    ensures var t := TaskAt(reps, n, i);
            t.handle < n && t.repeatIndex < reps[t.handle] && Prefix(reps, t.handle) + t.repeatIndex == i
  {
    if i < Prefix(reps, n - 1) {
      TaskAtInverse(reps, n - 1, i);
    }
  }

  lemma SlotSum(p: nat, k: nat)
    ensures (p % 64 + k) % 64 == (p + k) % 64 && Add8(p % 64, k) % 64 == (p + k) % 64
  {}

  lemma NextSlotFreeIff(r: Ring)
    requires r.Shaped() && WindowAgrees(r)
    ensures r.avail[r.resId] <==> r.commits < r.finishes + 64
  {}

  lemma WindowGrows(f: nat, t: nat, s: nat)
    requires f <= t < f + 64 && s < 64
    ensures InWindow(s, f, t + 1) <==> s == t % 64 || InWindow(s, f, t)
  {}

  lemma WindowShrinks(f: nat, t: nat, s: nat)
    requires f < t <= f + 64 && s < 64
    ensures InWindow(s, f + 1, t) <==> s != f % 64 && InWindow(s, f, t)
  {}

  // ---------------------------------------------------------------------------------------------
  // Each part of a call keeps the invariant
  // ---------------------------------------------------------------------------------------------

  /** Handle h is the one whose tasks include position x of program order. */
  predicate Holds(r: Ring, h: nat, x: nat)
    requires r.Shaped() && h < MAX_HANDLES
  {
    Prefix(r.repeats, h) <= x < Prefix(r.repeats, h) + r.repeats[h]
  }

  /** Another handle's share does not change when the total moves within handle h. */
  lemma ShareElsewhere(reps: seq<uint8>, h: nat, g: nat, x: nat, y: nat)
    requires h < |reps| && g < |reps| && g != h
    requires Prefix(reps, h) <= x <= y <= Prefix(reps, h) + reps[h]
    ensures Share(x, Prefix(reps, g), reps[g]) == Share(y, Prefix(reps, g), reps[g])
  {
    if g < h {
      PrefixStep(reps, g, h);
    } else {
      PrefixStep(reps, h, g);
    }
  }

  lemma NextModulo(t: nat)
    ensures (t % 64 + 1) % 64 == (t + 1) % 64
  {}

  lemma SendKeepsWindow(r: Ring, h: nat)
    requires r.Shaped() && h < MAX_HANDLES && WindowAgrees(r) && r.avail[r.resId]
    ensures WindowAgrees(CommitMsg(r, h))
  {
    NextSlotFreeIff(r);
    NextModulo(r.commits);
    var r' := CommitMsg(r, h);
    forall s | 0 <= s < 64 ensures r'.avail[s] <==> !InWindow(s, r'.finishes, r'.commits) {
      WindowGrows(r.finishes, r.commits, s);
      assert r.avail[s] <==> !InWindow(s, r.finishes, r.commits);
    }
  }

  lemma SendKeepsHandles(r: Ring, h: nat)
    requires r.Shaped() && HandlesAgree(r) && h < r.cur && Holds(r, h, r.commits)
    ensures HandlesAgree(CommitMsg(r, h))
  {
    var r' := CommitMsg(r, h);
    assert HandleAgrees(r, h);
    forall g | 0 <= g < r'.cur ensures HandleAgrees(r', g) {
      assert HandleAgrees(r, g);
      if g != h {
        ShareElsewhere(r.repeats, h, g, r.commits, r.commits + 1);
      }
    }
  }

  lemma SendKeepsOrder(r: Ring, h: nat)
    requires Core(r) && h < r.cur && Holds(r, h, r.commits)
    ensures var r' := CommitMsg(r, h);
            |r'.sent| == (if r.working then r.commits + 1 else 0) && SentInOrder(r')
  {
    assert HandleAgrees(r, h);
    TaskAtPrefix(r.repeats, r.cur, h, r.commits - Prefix(r.repeats, h));
  }

  lemma SendKeepsCore(r: Ring, h: nat)
    requires Core(r) && h < r.cur && Holds(r, h, r.commits)
    requires r.commits < r.requested && r.avail[r.resId]
    ensures Core(CommitMsg(r, h)) && r.commit[h] == r.commits - Prefix(r.repeats, h)
  {
    assert HandleAgrees(r, h);
    SendKeepsWindow(r, h);
    SendKeepsHandles(r, h);
    SendKeepsOrder(r, h);
  }

  /** The owner's share grows by as much as the total. */
  lemma ShareGrows(p: nat, x: nat, n: nat, m: uint8)
    requires p <= x && x + n <= p + m
    ensures Add8(Share(x, p, m), n) == Share(x + n, p, m)
  {}

  lemma RequestKeepsHandles(r: Ring, h: nat, n: uint8)
    requires r.Shaped() && HandlesAgree(r) && h < r.cur
    requires Prefix(r.repeats, h) <= r.requested && r.requested + n <= Prefix(r.repeats, h) + r.repeats[h]
    ensures HandlesAgree(Request(r, h, n))
  {
    var r' := Request(r, h, n);
    assert HandleAgrees(r, h);
    forall g | 0 <= g < r'.cur ensures HandleAgrees(r', g) {
      assert HandleAgrees(r, g);
      if g != h {
        ShareElsewhere(r.repeats, h, g, r.requested, r.requested + n);
      } else {
        ShareGrows(Prefix(r.repeats, h), r.requested, n, r.repeats[h]);
      }
    }
  }

  lemma RequestKeepsCore(r: Ring, h: nat, n: uint8)
    requires Core(r) && h < r.cur
    requires Prefix(r.repeats, h) <= r.requested && r.requested + n <= Prefix(r.repeats, h) + r.repeats[h]
    ensures Core(Request(r, h, n))
  {
    RequestKeepsHandles(r, h, n);
    PrefixStep(r.repeats, h, r.cur);
  }

  /** What the guards of the discipline say about the three totals. */
  lemma GuardsAsTotals(r: Ring, h: nat)
    requires Core(r) && h <= r.cur
    ensures EarlierRequested(r, h) ==> Prefix(r.repeats, h) <= r.requested
    ensures EarlierRequested(r, h) && NoEarlierDeficit(r, h) ==> Prefix(r.repeats, h) <= r.commits
    ensures EarlierWaited(r, h) ==> Prefix(r.repeats, h) <= r.finishes
  {
    if h > 0 {
      assert HandleAgrees(r, h - 1);
      assert NoEarlierDeficit(r, h) ==> !Deficit(r, h - 1);
    }
  }

  lemma CommitKeepsInv(r: Ring, h: int)
    requires Inv(r) && CommitAllowed(r, h)
    ensures Inv(Commit(r, h))
  {
    GuardsAsTotals(r, h);
    assert HandleAgrees(r, h);
    RequestKeepsCore(r, h, 1);
    var q := Request(r, h, 1);
    NextSlotFreeIff(q);
    if q.avail[q.resId] {
      SendKeepsCore(q, h);
    }
  }

  lemma RetireKeepsWindow(r: Ring, h: nat)
    requires r.Shaped() && h < MAX_HANDLES && WindowAgrees(r) && r.finishes < r.commits
    requires WaitSlot(r, h) == r.finishes % 64
    ensures WindowAgrees(Retire(r, h))
  {
    var r' := Retire(r, h);
    NextModulo(r.finishes);
    forall s | 0 <= s < 64 ensures r'.avail[s] <==> !InWindow(s, r'.finishes, r'.commits) {
      WindowShrinks(r.finishes, r.commits, s);
      assert r.avail[s] <==> !InWindow(s, r.finishes, r.commits);
    }
  }

  lemma RetireKeepsHandles(r: Ring, h: nat)
    requires r.Shaped() && HandlesAgree(r) && h < r.cur && Holds(r, h, r.finishes)
    ensures HandlesAgree(Retire(r, h))
  {
    var r' := Retire(r, h);
    assert HandleAgrees(r, h);
    forall g | 0 <= g < r'.cur ensures HandleAgrees(r', g) {
      assert HandleAgrees(r, g);
      if g != h {
        ShareElsewhere(r.repeats, h, g, r.finishes, r.finishes + 1);
      }
    }
  }

  /** The slot that Wait computes from handle h's own counts is the oldest slot in use. */
  lemma WaitSlotIsOldest(r: Ring, h: nat)
    requires r.Shaped() && h < r.cur && HandleAgrees(r, h) && Holds(r, h, r.finishes)
    ensures WaitSlot(r, h) == r.finishes % 64
  {
    SlotSum(Prefix(r.repeats, h), r.finish[h]);
  }

  lemma RetireKeepsCore(r: Ring, h: nat)
    requires Core(r) && h < r.cur && Holds(r, h, r.finishes) && r.finishes < r.commits
    ensures Core(Retire(r, h))
  {
    assert HandleAgrees(r, h);
    WaitSlotIsOldest(r, h);
    RetireKeepsWindow(r, h);
    RetireKeepsHandles(r, h);
  }

  /** An allowed Wait is for the next unfinished task, and that task is in flight. */
  lemma WaitTotals(r: Ring, h: int)
    requires Inv(r) && WaitAllowed(r, h)
    ensures Holds(r, h, r.finishes) && r.finishes < r.commits && WaitAccepts(r, h)
  {
    GuardsAsTotals(r, h);
    assert HandleAgrees(r, h);
  }

  /** Which handle the hidden re-send picks: the one whose task comes next in program order. */
  lemma ResendPicksNext(q: Ring, h: nat)
    requires Core(q) && h < q.cur
    requires Prefix(q.repeats, h) < q.finishes <= Prefix(q.repeats, h) + q.repeats[h]
    ensures Deficit(q, h) ==> q.commits < q.requested && Holds(q, h, q.commits)
    ensures !Deficit(q, h) && h + 1 < q.cur && Deficit(q, h + 1) ==>
              q.commits < q.requested && Holds(q, h + 1, q.commits)
    ensures !Deficit(q, h) && !(h + 1 < q.cur && Deficit(q, h + 1)) && q.commits < q.requested ==>
              q.finishes < q.commits
  {
    assert HandleAgrees(q, h);
    assert Prefix(q.repeats, h + 1) == Prefix(q.repeats, h) + q.repeats[h];
    if h + 1 < q.cur {
      assert HandleAgrees(q, h + 1);
    }
  }

  lemma ResendKeepsInv(q: Ring, h: nat)
    requires Core(q) && h < q.cur && q.commits < q.finishes + 64
    requires Prefix(q.repeats, h) < q.finishes <= Prefix(q.repeats, h) + q.repeats[h]
    ensures Inv(Resend(q, h))
  {
    NextSlotFreeIff(q);
    ResendPicksNext(q, h);
    if Deficit(q, h) {
      SendKeepsCore(q, h);
    } else if h + 1 < q.cur && Deficit(q, h + 1) {
      SendKeepsCore(q, h + 1);
    }
  }

  lemma WaitKeepsInv(r: Ring, h: int)
    requires Inv(r) && WaitAllowed(r, h)
    ensures Inv(Wait(r, h))
  {
    WaitTotals(r, h);
    RetireKeepsCore(r, h);
    ResendKeepsInv(Retire(r, h), h);
  }

  // ---------------------------------------------------------------------------------------------
  // Prepare
  // ---------------------------------------------------------------------------------------------

  lemma {:induction false} LoopIgnoresCur(r: Ring, h: nat, i: nat, c: nat)
    requires r.Shaped() && h < MAX_HANDLES && c <= MAX_HANDLES
    ensures CommitLoop(r.(cur := c), h, i) == CommitLoop(r, h, i).(cur := c)
    decreases r.repeats[h] - i
  {
    if i < r.repeats[h] && r.avail[r.resId] {
      assert SendNext(r.(cur := c), h, i) == SendNext(r, h, i).(cur := c);
      LoopIgnoresCur(SendNext(r, h, i), h, i + 1, c);
    }
  }

  lemma LoopSendKeepsCore(r: Ring, h: nat, i: nat)
    requires Core(r) && r.cur == h + 1 && r.requested == Prefix(r.repeats, h + 1)
    requires r.avail[r.resId] && Prefix(r.repeats, h) + i == r.commits && i < r.repeats[h]
    ensures var q := SendNext(r, h, i);
            && Core(q) && q.finishes == r.finishes && q.requested == r.requested && q.cur == r.cur
            && q.repeats == r.repeats && q.working == r.working && q.commits == r.commits + 1
            && (q.avail[q.resId] <==> q.commits < q.finishes + 64)
  {
    assert Prefix(r.repeats, h + 1) == Prefix(r.repeats, h) + r.repeats[h];
    SendKeepsCore(r, h);
    NextSlotFreeIff(SendNext(r, h, i));
  }

  /** The loop sends the requested tasks that fit: up to the last one, or until the ring is full. */
  lemma {:induction false} LoopFillsRing(r: Ring, h: nat, i: nat)
    requires Core(r) && r.cur == h + 1 && r.requested == Prefix(r.repeats, h + 1)
    requires r.avail[r.resId] ==> Prefix(r.repeats, h) + i == r.commits
    requires i <= r.repeats[h]
    ensures var r' := CommitLoop(r, h, i);
            && Core(r') && r'.finishes == r.finishes && r'.requested == r.requested && r'.cur == r.cur
            && r'.repeats == r.repeats && r'.working == r.working
            && r'.commits == if r.requested <= r.finishes + 64 && r.avail[r.resId] then r.requested else r.finishes + 64
    decreases r.repeats[h] - i
  {
    NextSlotFreeIff(r);
    if i < r.repeats[h] && r.avail[r.resId] {
      LoopSendKeepsCore(r, h, i);
      LoopFillsRing(SendNext(r, h, i), h, i + 1);
    }
  }

  lemma RegisterKeepsPrefix(r: Ring, repeat: uint8, g: nat)
    requires r.Shaped() && g <= r.cur < MAX_HANDLES
    ensures var q := Register(r, repeat);
            && Prefix(q.repeats, g) == Prefix(r.repeats, g)
            && forall i | 0 <= i < Prefix(r.repeats, g) :: TaskAt(q.repeats, g, i) == TaskAt(r.repeats, g, i)
  {
    var q := Register(r, repeat);
    assert q.repeats[..g] == r.repeats[..g];
    PrefixFrame(r.repeats, q.repeats, g);
  }

  lemma RegisterKeepsHandles(r: Ring, repeat: uint8)
    requires Core(r) && r.cur < MAX_HANDLES && repeat > 0
    ensures HandlesAgree(Register(r, repeat).(cur := r.cur + 1))
  {
    var h := r.cur;
    var q := Register(r, repeat).(cur := h + 1);
    forall g | 0 <= g < q.cur ensures HandleAgrees(q, g) {
      RegisterKeepsPrefix(r, repeat, g);
      if g < h {
        assert HandleAgrees(r, g);
      } else if h > 0 {
        assert HandleAgrees(r, h - 1);
        SlotSum(Prefix(r.repeats, h - 1), r.repeats[h - 1]);
      }
    }
  }

  lemma RegisterKeepsCore(r: Ring, repeat: uint8)
    requires Core(r) && r.cur < MAX_HANDLES && repeat > 0
    ensures var q := Register(r, repeat).(cur := r.cur + 1);
            Core(q) && Prefix(q.repeats, r.cur) == Prefix(r.repeats, r.cur)
  {
    RegisterKeepsHandles(r, repeat);
    RegisterKeepsPrefix(r, repeat, r.cur);
    var q := Register(r, repeat).(cur := r.cur + 1);
    assert Prefix(q.repeats, q.cur) == Prefix(q.repeats, r.cur) + repeat;
  }

  lemma PrepareKeepsInv(r: Ring, repeat: uint8, commit: bool)
    requires Inv(r) && PrepareAllowed(r, repeat, commit)
    ensures var r' := Prepare(r, repeat, commit);
            Inv(r') && (repeat > 0 ==> r'.cur == r.cur + 1)
  {
    if repeat > 0 {
      RegisterKeepsCore(r, repeat);
      if commit {
        PrepareCommits(r, repeat);
      }
    }
  }

  /** The ring when Prepare starts to send the repeats of a new handle. */
  function Requested(r: Ring, n: uint8): (q: Ring)
    requires r.Shaped() && r.cur < MAX_HANDLES
    ensures q.Shaped() && q.sent == r.sent && q.avail == r.avail && q.resId == r.resId && q.working == r.working
    ensures q.repeats == r.repeats[r.cur := n]
  {
    Request(Register(r, n), r.cur, n)
  }

  lemma PrepareIsLoop(r: Ring, n: uint8)
    requires r.Shaped() && r.cur < MAX_HANDLES && n > 0
    ensures Prepare(r, n, true) == CommitLoop(Requested(r, n), r.cur, 0).(cur := r.cur + 1)
  {}

  lemma RequestedKeepsCore(r: Ring, repeat: uint8)
    requires Inv(r) && PrepareAllowed(r, repeat, true) && repeat > 0
    ensures var q := Requested(r, repeat).(cur := r.cur + 1);
            && Core(q) && q.requested == r.requested + repeat == Prefix(q.repeats, r.cur + 1)
            && q.commits == r.commits && q.finishes == r.finishes
            && (q.avail[q.resId] ==> Prefix(q.repeats, r.cur) == r.commits)
  {
    var h := r.cur;
    RegisterKeepsCore(r, repeat);
    GuardsAsTotals(r, h);
    var q := Register(r, repeat).(cur := h + 1);
    assert Prefix(q.repeats, h + 1) == Prefix(q.repeats, h) + repeat;
    RequestKeepsCore(q, h, repeat);
    assert Request(q, h, repeat) == Requested(r, repeat).(cur := h + 1);
  }

  /** Prepare with commit requests all repeats and sends as many as the ring has room for. */
  lemma PrepareCommits(r: Ring, repeat: uint8)
    requires Inv(r) && PrepareAllowed(r, repeat, true) && repeat > 0
    ensures var r', q := Prepare(r, repeat, true), r.requested + repeat;
            && Inv(r') && r'.requested == q && r'.finishes == r.finishes
            && r'.cur == r.cur + 1 && r'.repeats == r.repeats[r.cur := repeat] && r'.working == r.working
            && r'.commits == if q <= r.finishes + 64 && r.avail[r.resId] then q else r.finishes + 64
  {
    var h := r.cur;
    PrepareIsLoop(r, repeat);
    RequestedKeepsCore(r, repeat);
    LoopFillsRing(Requested(r, repeat).(cur := h + 1), h, 0);
    LoopIgnoresCur(Requested(r, repeat), h, 0, h + 1);
    NextSlotFreeIff(r);
  }

  // ---------------------------------------------------------------------------------------------
  // Runs
  // ---------------------------------------------------------------------------------------------

  lemma InitialInv(r: Ring)
    requires Initial(r)
    ensures Inv(r)
  {}

  lemma StepKeepsInv(r: Ring, c: Call)
    requires Inv(r) && Allowed(r, c)
    ensures Inv(Step(r, c))
  {
    match c
    case PrepareCall(n, commit) => PrepareKeepsInv(r, n, commit);
    case CommitCall(h) => CommitKeepsInv(r, h);
    case WaitCall(h) => WaitKeepsInv(r, h);
  }

  lemma {:induction false} RunKeepsInv(r: Ring, calls: seq<Call>)
    requires Inv(r) && Disciplined(r, calls)
    ensures Inv(Run(r, calls))
    decreases |calls|
  {
    if calls != [] {
      StepKeepsInv(r, calls[0]);
      RunKeepsInv(Step(r, calls[0]), calls[1..]);
    }
  }
}
