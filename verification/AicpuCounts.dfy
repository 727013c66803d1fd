/**
  The commit and wait counts of a handle read off the list of calls, from repeat, stepSize and the number of
  ranks alone.
*/
module AicpuCounts {
  import opened Common
  import opened Arithmetic
  import opened AicpuModel
  import opened AicpuSchedule

  /** How many calls are Commits. */
  function CommitCalls(ops: seq<Op>): nat {
    if ops == [] then 0
    else CommitCalls(ops[..|ops| - 1]) + if ops[|ops| - 1].CommitOp? then 1 else 0
  }

  /** What the calls commit of `total` steps, `move` at a time: all of them if committed at Prepare, else one
      move per Commit until the steps are covered. */
  function CommittedSteps(total: nat, move: nat, early: bool, ops: seq<Op>): nat
    requires move > 0
  {
    if early then total
    else (if CommitCalls(ops) < CallsNeeded(total, move) then CommitCalls(ops) else CallsNeeded(total, move)) * move
  }

  /** How many Waits the calls make that find a committed step. */
  function AcceptedWaits(total: nat, move: nat, early: bool, ops: seq<Op>): nat
    requires move > 0
  {
    if ops == [] then 0
    else
      var before := ops[..|ops| - 1];
      var w := AcceptedWaits(total, move, early, before);
      if ops[|ops| - 1].WaitOp? && w * move < CommittedSteps(total, move, early, before) then w + 1 else w
  }

  /** Calls without sync Iterates, which make Waits of their own. */
  predicate NoSync(ops: seq<Op>) { forall i | 0 <= i < |ops| && ops[i].IterateOp? :: !ops[i].sync }

  /** The steps of a handle and how many of them one Commit or Wait moves by. */
  function AllSteps(repeat: uint8, stepSize: uint8, rankDim: nat): nat {
    if stepSize == 0 then repeat else repeat * rankDim
  }

  function Move(stepSize: uint8): (m: nat)
    ensures m > 0
  {
    if stepSize == 0 then 1 else stepSize
  }

  lemma CommitCallsNext(ops: seq<Op>, op: Op)
    ensures CommitCalls(ops + [op]) == CommitCalls(ops) + if op.CommitOp? then 1 else 0
  {
    assert (ops + [op])[..|ops|] == ops;
  }

  lemma AcceptedWaitsNext(total: nat, move: nat, early: bool, ops: seq<Op>, op: Op)
    requires move > 0
    ensures var w := AcceptedWaits(total, move, early, ops);
            AcceptedWaits(total, move, early, ops + [op])
            == if op.WaitOp? && w * move < CommittedSteps(total, move, early, ops) then w + 1 else w
  {
    assert (ops + [op])[..|ops|] == ops;
  }

  /** A Commit moves on exactly while the steps are not covered. */
  lemma CoversIff(k: nat, total: nat, move: nat)
    requires move > 0
    ensures k < CallsNeeded(total, move) <==> k * move < total
  {
    var n := CallsNeeded(total, move);
    if k < n {
      MulMonotone(k, move, n - 1, move);
    } else {
      MulMonotone(n, move, k, move);
    }
  }

  lemma NothingNeeded(total: nat, move: nat)
    requires move > 0
    ensures CommittedSteps(total, move, false, []) == 0
  {
    assert 0 * move == 0;
  }

  /** One Commit. */
  lemma CommitCounts(c: Counters, total: nat, move: nat, ops: seq<Op>)
    requires Inv(c) && c.Total() == total && c.Unit() == move
    requires c.committed == CommittedSteps(total, move, c.early, ops)
    ensures Commit(c).committed == CommittedSteps(total, move, c.early, ops + [CommitOp])
  {
    var k := CommitCalls(ops);
    CommitKeepsInv(c);
    CommitCallsNext(ops, CommitOp);
    CoversIff(k, total, move);
    CoversIff(CallsNeeded(total, move), total, move);
    Succ(k, move);
  }

  /** Any call. */
  lemma StepCommits(c: Counters, total: nat, move: nat, ops: seq<Op>, op: Op)
    requires Inv(c) && c.Total() == total && c.Unit() == move && (op.IterateOp? ==> c.stepSize > 0)
    requires c.committed == CommittedSteps(total, move, c.early, ops)
    ensures Step(c, op).committed == CommittedSteps(total, move, c.early, ops + [op])
  {
    CommitCallsNext(ops, op);
    match op
    case CommitOp => CommitCounts(c, total, move, ops);
    case WaitOp =>
    case IterateOp(sync, len) => SlicesCommitNothing(c, sync, len);
  }

  lemma {:induction false} SlicesCommitNothing(c: Counters, sync: bool, len: nat)
    requires c.stepSize > 0
    ensures Slices(c, sync, len).committed == c.committed && (!sync ==> Slices(c, sync, len).waited == c.waited)
    decreases len
  {
    if len > 0 {
      SlicesCommitNothing(NextSlice(c, sync), sync, len - 1);
    }
  }

  lemma StepWaits(c: Counters, total: nat, move: nat, ops: seq<Op>, op: Op)
    requires Inv(c) && c.Unit() == move && (op.IterateOp? ==> c.stepSize > 0 && !op.sync)
    requires c.committed == CommittedSteps(total, move, c.early, ops)
    requires c.waited == AcceptedWaits(total, move, c.early, ops) * move
    ensures Step(c, op).waited == AcceptedWaits(total, move, c.early, ops + [op]) * move
  {
    AcceptedWaitsNext(total, move, c.early, ops, op);
    match op
    case CommitOp =>
    case WaitOp =>
      WaitKeepsInv(c);
      Succ(AcceptedWaits(total, move, c.early, ops), move);
    case IterateOp(sync, len) => SlicesCommitNothing(c, sync, len);
  }

  lemma StepKeepsInv(c: Counters, op: Op)
    requires Inv(c) && (op.IterateOp? ==> c.stepSize > 0)
    ensures Inv(Step(c, op)) && Fixed(c, Step(c, op))
  {
    match op
    case CommitOp => CommitKeepsInv(c);
    case WaitOp => WaitKeepsInv(c);
    case IterateOp(sync, len) => SlicesKeepInv(c, sync, len);
  }

  lemma {:induction false} RunCounts(c: Counters, total: nat, move: nat, before: seq<Op>, ops: seq<Op>)
    requires Inv(c) && IsRun(c, ops) && c.Total() == total && c.Unit() == move
    requires c.committed == CommittedSteps(total, move, c.early, before)
    ensures Run(c, ops).committed == CommittedSteps(total, move, c.early, before + ops)
    ensures NoSync(ops) && c.waited == AcceptedWaits(total, move, c.early, before) * move ==>
              Run(c, ops).waited == AcceptedWaits(total, move, c.early, before + ops) * move
    decreases |ops|
  {
    if ops == [] {
      assert before + ops == before;
    } else {
      var op, rest := ops[0], ops[1..];
      StepKeepsInv(c, op);
      StepCommits(c, total, move, before, op);
      if NoSync(ops) && c.waited == AcceptedWaits(total, move, c.early, before) * move {
        assert op.IterateOp? ==> !ops[0].sync;
        StepWaits(c, total, move, before, op);
        assert NoSync(rest);
      }
      RunCounts(Step(c, op), total, move, before + [op], rest);
      assert before + [op] + rest == before + ops;
    }
  }

  /** In every run a handle of up to 256 ranks has committed exactly what its Commits ask for: all its steps if
      committed at Prepare, else one move per Commit until the steps are covered; and has waited for exactly one
      move per Wait that found a committed step.  It has one step per repeat and moves by one, or, for a
      fine-grained AlltoAllV, one step per repeat and rank and moves by stepSize. */
  lemma CountsAre(repeat: uint8, stepSize: uint8, rankDim: nat, commit: bool, ops: seq<Op>)
    requires 0 < rankDim <= 256 && IsRun(Prepare(repeat, stepSize, rankDim, commit), ops)
    ensures var r := Run(Prepare(repeat, stepSize, rankDim, commit), ops);
            var total, move := AllSteps(repeat, stepSize, rankDim), Move(stepSize);
            && r.committed == CommittedSteps(total, move, commit, ops)
            && (NoSync(ops) ==> r.waited == AcceptedWaits(total, move, commit, ops) * move)
  {
    var c := Prepare(repeat, stepSize, rankDim, commit);
    var total, move := AllSteps(repeat, stepSize, rankDim), Move(stepSize);
    StepsFit(c);
    PrepareInv(repeat, stepSize, rankDim, commit);
    NothingNeeded(total, move);
    assert 0 * move == 0;
    RunCounts(c, total, move, [], ops);
    assert [] + ops == ops;
  }

  /** With stepSize 0: Commits count one each up to repeat, Waits one each, and waits <= commits <= repeat. */
  lemma PlainCountsAre(repeat: uint8, rankDim: nat, commit: bool, ops: seq<Op>)
    requires 0 < rankDim <= 256 && IsRun(Prepare(repeat, 0, rankDim, commit), ops) && NoSync(ops)
    ensures var r := Run(Prepare(repeat, 0, rankDim, commit), ops);
            && r.committed == (if commit || CommitCalls(ops) > repeat then repeat else CommitCalls(ops))
            && r.waited == AcceptedWaits(repeat, 1, commit, ops)
            && r.waited <= r.committed <= repeat
  {
    CountsAre(repeat, 0, rankDim, commit, ops);
    assert CallsNeeded(repeat, 1) == repeat;
    PrepareInv(repeat, 0, rankDim, commit);
    RunKeepsInv(Prepare(repeat, 0, rankDim, commit), ops);
  }

  /** With a step size: commits stay below repeat * rankDim + stepSize. */
  lemma FineCommitsBound(repeat: uint8, stepSize: uint8, rankDim: nat, commit: bool, ops: seq<Op>)
    requires stepSize > 0 && 0 < rankDim <= 256 && IsRun(Prepare(repeat, stepSize, rankDim, commit), ops)
    ensures Run(Prepare(repeat, stepSize, rankDim, commit), ops).committed <= repeat as int * rankDim + stepSize - 1
  {
    var c := Prepare(repeat, stepSize, rankDim, commit);
    StepsFit(c);
    PrepareInv(repeat, stepSize, rankDim, commit);
    RunKeepsInv(c, ops);
  }
}
