/**
  Send and completion queues of one RoCE channel, as values: how many work requests are outstanding,
  which request each slot of the send queue holds, and what every run of posts and drains keeps.
*/
module RoceModel {
  import opened Common
  import opened Arithmetic

  const POLL_CQ_THRESHOLD: nat := 10
  const NUM_CQE_PER_POLL_CQ: nat := 100
  const U32_LIMIT: nat := 0x1_0000_0000

  function U32(x: nat): (r: nat)
    ensures r < U32_LIMIT && (x < U32_LIMIT ==> r == x)
  {
    x % 0x1_0000_0000
  }

  datatype Request = Request(dst: nat, src: nat, len: nat, opType: nat)

  /** A slot of the send queue: nothing yet, or the request posted when the head was `index`. */
  datatype Wqe = Empty | Wqe(index: nat, request: Request)

  datatype Queue = Queue(sqDepth: nat, cqDepth: nat, head: nat, sqTail: nat, cqTail: nat, slots: seq<Wqe>) {
    predicate Shaped() {
      sqDepth > 0 && cqDepth > 0 && |slots| == sqDepth && head < U32_LIMIT && sqTail < U32_LIMIT && cqTail < U32_LIMIT
    }
  }

  /** Polling up to expectIdx; `seen` says whether every completion up to there showed up in time. */
  predicate PollOk(expectIdx: nat, seen: bool) { expectIdx == 0 || seen }

  function PollCq(q: Queue, expectIdx: nat, seen: bool): (q': Queue)
    requires q.Shaped() && expectIdx < U32_LIMIT
    ensures q'.Shaped()
  {
    if expectIdx == 0 || !seen || expectIdx <= q.cqTail then q
    else q.(cqTail := expectIdx, sqTail := U32(q.sqTail + (expectIdx - q.cqTail)))
  }

  predicate MustPoll(q: Queue)
    requires q.Shaped()
  {
    U32(q.head + POLL_CQ_THRESHOLD) % q.cqDepth == q.sqTail % q.cqDepth
  }

  function PollTarget(q: Queue): (idx: nat)
    requires q.Shaped()
    ensures idx < U32_LIMIT
  {
    var idx := U32(q.sqTail + NUM_CQE_PER_POLL_CQ);
    if idx > q.head then q.head else idx
  }

  /** Posting one request; `made` is None when no registered buffer covers it. */
  function PostSend(q: Queue, seen: bool, made: Option<Request>): (q': Queue)
    requires q.Shaped()
    ensures q'.Shaped()
  {
    var p := if MustPoll(q) then PollCq(q, PollTarget(q), seen) else q;
    if !PostOk(q, seen, made) then p
    else p.(slots := p.slots[p.head % p.sqDepth := Wqe(p.head, made.value)], head := U32(p.head + 1))
  }

  predicate PostOk(q: Queue, seen: bool, made: Option<Request>)
    requires q.Shaped()
  {
    (MustPoll(q) ==> PollOk(PollTarget(q), seen)) && made.Some?
  }

  function Drain(q: Queue, seen: bool): (q': Queue)
    requires q.Shaped()
    ensures q'.Shaped()
  {
    PollCq(q, q.head, seen)
  }

  datatype Op = PostOp(seen: bool, made: Option<Request>) | DrainOp(seen: bool)

  function Step(q: Queue, op: Op): (q': Queue)
    requires q.Shaped()
    ensures q'.Shaped()
  {
    match op
    case PostOp(seen, made) => PostSend(q, seen, made)
    case DrainOp(seen) => Drain(q, seen)
  }

  function Run(q: Queue, ops: seq<Op>): (q': Queue)
    requires q.Shaped()
    ensures q'.Shaped()
    decreases |ops|
  {
    if ops == [] then q else Run(Step(q, ops[0]), ops[1..])
  }

  /** The run stays clear of the 32-bit wrap of the indices. */
  predicate NoWrap(q: Queue, ops: seq<Op>)
    requires q.Shaped()
    decreases |ops|
  {
    ops != [] ==> q.head < U32_LIMIT - NUM_CQE_PER_POLL_CQ && NoWrap(Step(q, ops[0]), ops[1..])
  }

  // ---------------------------------------------------------------------------------------------
  // Occupancy
  // ---------------------------------------------------------------------------------------------

  /** How many requests may be outstanding: -10 modulo the completion queue's depth, or the depth if that is
      0; for depths above ten this is ten fewer than the depth. */
  function Limit(cqDepth: nat): (n: nat)
    requires cqDepth > 0
    ensures 0 < n <= cqDepth && (n + POLL_CQ_THRESHOLD) % cqDepth == 0
    ensures cqDepth > POLL_CQ_THRESHOLD ==> n == cqDepth - POLL_CQ_THRESHOLD
  {
    ComplementDivides(POLL_CQ_THRESHOLD, cqDepth);
    var r := (0 - POLL_CQ_THRESHOLD) % cqDepth;
    if r == 0 then cqDepth else r
  }

  predicate Bounded(q: Queue) {
    q.Shaped() && q.sqTail == q.cqTail <= q.head && q.head - q.sqTail <= Limit(q.cqDepth)
  }

  /** Two occupancies up to the limit that pass the test differ by the depth. */
  lemma TestResidue(tail: nat, occupancy: nat, cqDepth: nat)
    requires cqDepth > 0 && occupancy <= Limit(cqDepth)
    ensures (tail + occupancy + POLL_CQ_THRESHOLD) % cqDepth == tail % cqDepth <==>
            occupancy == Limit(cqDepth) || (occupancy == 0 && Limit(cqDepth) == cqDepth)
  {
    var limit := Limit(cqDepth);
    AddMultiple(tail, limit + POLL_CQ_THRESHOLD, cqDepth);
    if occupancy < limit {
      SameResidue(tail + occupancy + POLL_CQ_THRESHOLD, limit - occupancy, cqDepth);
    }
  }

  /** The equality test fires exactly at the limit, and, if the limit is the whole depth, also on an empty
      queue; for depths above ten that is when the queue is ten short of the completion queue's depth. */
  lemma PollsAtThreshold(q: Queue)
    requires Bounded(q) && q.head < U32_LIMIT - NUM_CQE_PER_POLL_CQ
    ensures MustPoll(q) <==>
            q.head - q.sqTail == Limit(q.cqDepth) || (q.head == q.sqTail && Limit(q.cqDepth) == q.cqDepth)
    ensures q.cqDepth > POLL_CQ_THRESHOLD ==> (MustPoll(q) <==> q.head - q.sqTail == q.cqDepth - POLL_CQ_THRESHOLD)
  {
    TestResidue(q.sqTail, q.head - q.sqTail, q.cqDepth);
  }

  lemma PollEffect(q: Queue, expectIdx: nat, seen: bool)
    requires Bounded(q) && expectIdx <= q.head
    ensures var tail := if seen && expectIdx > q.sqTail then expectIdx else q.sqTail;
            PollCq(q, expectIdx, seen) == q.(sqTail := tail, cqTail := tail)
  {
    assert q.sqTail + (expectIdx - q.cqTail) == expectIdx;
  }

  /** A post that succeeds had at least one free place below the threshold after its poll. */
  lemma PostEffect(q: Queue, seen: bool, made: Option<Request>)
    requires Bounded(q) && q.head < U32_LIMIT - NUM_CQE_PER_POLL_CQ
    ensures var q', at := PostSend(q, seen, made), q.head % q.sqDepth;
            && q.sqTail <= q'.sqTail == q'.cqTail <= q.head
            && q'.sqDepth == q.sqDepth && q'.cqDepth == q.cqDepth
            && if PostOk(q, seen, made)
               then q'.head == q.head + 1 && q'.slots == q.slots[at := Wqe(q.head, made.value)]
                    && q.head - q'.sqTail < Limit(q.cqDepth)
               else q'.head == q.head && q'.slots == q.slots
  {
    PollsAtThreshold(q);
    if MustPoll(q) {
      PollEffect(q, PollTarget(q), seen);
    }
  }

  lemma StepKeepsBound(q: Queue, op: Op)
    requires Bounded(q) && q.head < U32_LIMIT - NUM_CQE_PER_POLL_CQ
    ensures Bounded(Step(q, op))
  {
    match op
    case PostOp(seen, made) => PostEffect(q, seen, made);
    case DrainOp(seen) => PollEffect(q, q.head, seen);
  }

  /** Outstanding requests never exceed the limit (cqDepth - 10 for depths above ten), whatever posts, polls
      and drains fail; and the two consumer indices stay equal. */
  lemma {:induction false} OccupancyBounded(q: Queue, ops: seq<Op>)
    requires Bounded(q) && NoWrap(q, ops)
    ensures Bounded(Run(q, ops))
    decreases |ops|
  {
    if ops != [] {
      StepKeepsBound(q, ops[0]);
      OccupancyBounded(Step(q, ops[0]), ops[1..]);
    }
  }

  /** After a successful drain nothing is outstanding; after a failed one nothing has changed. */
  lemma DrainIsAllOrNothing(q: Queue, ops: seq<Op>, seen: bool)
    requires Bounded(q) && NoWrap(q, ops)
    ensures var r := Run(q, ops);
            var d := Drain(r, seen);
            if PollOk(r.head, seen) then d.sqTail == d.cqTail == d.head == r.head && d.slots == r.slots else d == r
  {
    OccupancyBounded(q, ops);
    PollEffect(Run(q, ops), Run(q, ops).head, seen);
  }

  // ---------------------------------------------------------------------------------------------
  // Slots
  // ---------------------------------------------------------------------------------------------

  predicate HoldsIndex(q: Queue, i: nat)
    requires q.Shaped()
  {
    var w := q.slots[i % q.sqDepth];
    w.Wqe? && w.index == i
  }

  /** Every outstanding request is still in its slot. */
  predicate Intact(q: Queue)
    requires q.Shaped()
  {
    forall i: nat | q.sqTail <= i < q.head :: HoldsIndex(q, i)
  }

  lemma StepKeepsIntact(q: Queue, op: Op)
    requires Bounded(q) && Intact(q) && q.head < U32_LIMIT - NUM_CQE_PER_POLL_CQ
    requires Limit(q.cqDepth) <= q.sqDepth
    ensures Intact(Step(q, op))
  {
    var q' := Step(q, op);
    match op {
      case PostOp(seen, made) => PostEffect(q, seen, made);
      case DrainOp(seen) => PollEffect(q, q.head, seen);
    }
    forall i: nat | q'.sqTail <= i < q'.head ensures HoldsIndex(q', i) {
      if i < q.head {
        assert HoldsIndex(q, i);
        if q.head < q'.head {
          SameResidue(i, q.head - i, q.sqDepth);
        }
      }
    }
  }

  lemma {:induction false} NoOverwrite(q: Queue, ops: seq<Op>)
    requires Bounded(q) && NoWrap(q, ops) && Intact(q)
    requires Limit(q.cqDepth) <= q.sqDepth
    ensures Intact(Run(q, ops))
    decreases |ops|
  {
    if ops != [] {
      StepKeepsBound(q, ops[0]);
      StepKeepsIntact(q, ops[0]);
      NoOverwrite(Step(q, ops[0]), ops[1..]);
    }
  }

  predicate Fresh(q: Queue) {
    q.Shaped() && q.head == q.sqTail == q.cqTail == 0
  }

  function Posts(n: nat, req: Request): (ops: seq<Op>) { seq(n, _ => PostOp(false, Some(req))) }

  /** n posts into a queue with room for them before the next poll. */
  lemma {:induction false} PostsFill(q: Queue, n: nat, req: Request)
    requires Bounded(q) && q.sqTail == 0 && q.head + n <= Limit(q.cqDepth)
    requires q.head + n <= U32_LIMIT - NUM_CQE_PER_POLL_CQ
    ensures NoWrap(q, Posts(n, req))
    ensures var r := Run(q, Posts(n, req));
            && r.head == q.head + n && r.sqTail == 0 && r.sqDepth == q.sqDepth
            && (n > 0 ==> HoldsIndex(r, r.head - 1))
    decreases n
  {
    if n > 0 {
      PollsAtThreshold(q);
      StepKeepsBound(q, Posts(n, req)[0]);
      assert Posts(n, req)[1..] == Posts(n - 1, req);
      PostsFill(Step(q, Posts(n, req)[0]), n - 1, req);
    }
  }

  lemma LastPostOverwrites(q: Queue, req: Request)
    requires Fresh(q) && q.sqDepth < Limit(q.cqDepth) && q.sqDepth < U32_LIMIT - NUM_CQE_PER_POLL_CQ
    ensures NoWrap(q, Posts(q.sqDepth + 1, req)) && !Intact(Run(q, Posts(q.sqDepth + 1, req)))
  {
    PostsFill(q, q.sqDepth + 1, req);
    var r := Run(q, Posts(q.sqDepth + 1, req));
    assert HoldsIndex(r, q.sqDepth);
    assert q.sqDepth % q.sqDepth == 0;
    assert !HoldsIndex(r, 0);
  }

  /** No outstanding request of a fresh channel is ever overwritten, in any run, exactly when the limit is
      at most sqDepth. */
  lemma SafeDepths(q: Queue)
    requires Fresh(q) && q.sqDepth < U32_LIMIT - NUM_CQE_PER_POLL_CQ
    ensures (forall ops | NoWrap(q, ops) :: Intact(Run(q, ops))) <==> Limit(q.cqDepth) <= q.sqDepth
  {
    if Limit(q.cqDepth) <= q.sqDepth {
      forall ops | NoWrap(q, ops) ensures Intact(Run(q, ops)) {
        NoOverwrite(q, ops);
      }
    } else {
      LastPostOverwrites(q, Request(0, 0, 0, 0));
    }
  }
}
