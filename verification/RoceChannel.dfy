/**
  The channel object: head and tail words, the send queue's slots, and the polling loops, proved to move
  the queues as RoceModel's functions do.
*/
module RoceChannel {
  import opened Common
  import opened RoceModel

  const MAX_RETRY_TIMES: nat := 1000000
  const OP_WRITE: nat := 4
  const OP_READ: nat := 8

  /** A registered buffer. */
  datatype Buffer = Buffer(addr: nat, size: nat) {
    /** The address lies in the buffer or just behind it. */
    predicate Reaches(a: nat) { addr <= a <= addr + size }

    predicate Covers(a: nat, len: nat) { addr <= a && a - addr <= size && len <= size - (a - addr) }
  }

  /** What the NIC shows to a poller: whether the completion of request i is ready at the k-th read. */
  type Readiness = (nat, nat) -> bool

  /** The completion of request i shows up within the retries. */
  ghost predicate Seen(ready: Readiness, i: nat) {
    exists k: nat | k < MAX_RETRY_TIMES :: ready(i, k)
  }

  ghost predicate AllSeen(ready: Readiness, from: nat, to: nat) {
    forall i: nat | from <= i < to :: Seen(ready, i)
  }

  /** A buffer covers a range exactly when all its bytes and its end do not leave the buffer. */
  lemma CoversIff(b: Buffer, a: nat, len: nat)
    ensures b.Covers(a, len) <==> forall x | a <= x <= a + len :: b.Reaches(x)
  {
    assert b.Covers(a, len) <== b.Reaches(a) && b.Reaches(a + len);
  }

  /** The first registered buffer that covers [addr, addr + len), or -1. */
  method FindBufferIdx(buffers: seq<Buffer>, addr: nat, len: nat) returns (idx: int)
    ensures -1 <= idx < |buffers|
    ensures idx >= 0 ==> buffers[idx].Covers(addr, len) && forall j | 0 <= j < idx :: !buffers[j].Covers(addr, len)
    ensures idx < 0 <==> forall j | 0 <= j < |buffers| :: !buffers[j].Covers(addr, len)
  {
    for i := 0 to |buffers|
      invariant forall j | 0 <= j < i :: !buffers[j].Covers(addr, len)
    {
      if addr < buffers[i].addr {
        continue;
      }
      var offset := addr - buffers[i].addr;
      if offset <= buffers[i].size && len <= buffers[i].size - offset {
        return i;
      }
    }
    return -1;
  }

  /** What one post does to a queue q within its limit: at the limit it first takes the next completions, at
      most 100 of them, and fails unless they all show up in time; then it fails without a registered buffer,
      and otherwise puts the request into the slot at the head. */
  ghost predicate PostOutcome(q: Queue, ready: Readiness, registered: bool, request: Request, ok: bool, q': Queue)
    requires q.Shaped() && q.sqTail <= q.head
  {
    var open := q.head - q.sqTail;
    var taken: nat := if open < Limit(q.cqDepth) then 0 else if open < 100 then open else 100;
    if !AllSeen(ready, q.sqTail, q.sqTail + taken) then !ok && q' == q
    else
      && ok == registered && q'.sqTail == q'.cqTail == q.sqTail + taken
      && q'.sqDepth == q.sqDepth && q'.cqDepth == q.cqDepth && q'.head == q.head + (if ok then 1 else 0)
      && q'.slots == if ok then q.slots[q.head % q.sqDepth := Wqe(q.head, request)] else q.slots
  }

  /** So later completions do not matter to a post, and taking some makes room for at least one request. */
  lemma PostIs(q: Queue, ready: Readiness, registered: bool, request: Request)
    requires Bounded(q) && q.head < U32_LIMIT - NUM_CQE_PER_POLL_CQ
    ensures var made := if registered then Some(request) else None;
            var seen := AllSeen(ready, q.cqTail, PollTarget(q));
            PostOutcome(q, ready, registered, request, PostOk(q, seen, made), RoceModel.PostSend(q, seen, made))
  {
    var made := if registered then Some(request) else None;
    var seen := AllSeen(ready, q.cqTail, PollTarget(q));
    PollsAtThreshold(q);
    PostEffect(q, seen, made);
    if MustPoll(q) {
      PollEffect(q, PollTarget(q), seen);
    }
  }

  class RoceChannel {
    const sqDepth: nat
    const cqDepth: nat
    const connected: bool
    const localBuffers: seq<Buffer>
    const remoteBuffers: seq<Buffer>
    const slots: array<Wqe>
    var sqHead: nat
    var sqTail: nat
    var cqTail: nat

    ghost predicate Valid()
      reads this, slots
    {
      slots.Length == sqDepth && View().Shaped()
    }

    ghost function View(): Queue
      reads this, slots
    {
      Queue(sqDepth, cqDepth, sqHead, sqTail, cqTail, slots[..])
    }

    constructor (sqDepth: nat, cqDepth: nat, connected: bool, localBuffers: seq<Buffer>, remoteBuffers: seq<Buffer>)
      requires sqDepth > 0 && cqDepth > 0
      ensures Valid() && fresh(slots) && this.sqDepth == sqDepth && this.cqDepth == cqDepth
      ensures sqHead == sqTail == cqTail == 0 && this.connected == connected
      ensures this.localBuffers == localBuffers && this.remoteBuffers == remoteBuffers
    {
      this.sqDepth, this.cqDepth, this.connected := sqDepth, cqDepth, connected;
      this.localBuffers, this.remoteBuffers := localBuffers, remoteBuffers;
      slots := new Wqe[sqDepth](_ => Empty);
      sqHead, sqTail, cqTail := 0, 0, 0;
    }

    /** Both buffers of the request are registered. */
    ghost predicate Registered(dst: nat, src: nat, len: nat) {
      (exists j | 0 <= j < |remoteBuffers| :: remoteBuffers[j].Covers(dst, len))
      && exists j | 0 <= j < |localBuffers| :: localBuffers[j].Covers(src, len)
    }

    ghost function Made(dst: nat, src: nat, len: nat, opType: nat): Option<Request> {
      if Registered(dst, src, len) then Some(Request(dst, src, len, opType)) else None
    }

    method MakeWqe(dst: nat, src: nat, len: nat, opType: nat, head: nat) returns (ok: bool)
      requires Valid()
      modifies slots
      ensures Valid() && ok == Registered(dst, src, len)
      ensures slots[..] == if ok then old(slots[..])[head % sqDepth := Wqe(head, Request(dst, src, len, opType))]
                                 else old(slots[..])
    {
      var remoteIdx := FindBufferIdx(remoteBuffers, dst, len);
      if remoteIdx < 0 {
        return false;
      }
      var localIdx := FindBufferIdx(localBuffers, src, len);
      if localIdx < 0 {
        return false;
      }
      slots[head % sqDepth] := Wqe(head, Request(dst, src, len, opType));
      return true;
    }

    /** Takes completions until expectIdx.  A completion that does not show up within the retries makes
        the whole poll fail without storing anything. */
    method PollCq(expectIdx: nat, ready: Readiness) returns (ok: bool)
      requires Valid() && expectIdx < U32_LIMIT
      modifies this`sqTail, this`cqTail
      ensures Valid() && ok == PollOk(expectIdx, AllSeen(ready, old(cqTail), expectIdx))
      ensures View() == RoceModel.PollCq(old(View()), expectIdx, AllSeen(ready, old(cqTail), expectIdx))
    {
      if expectIdx == 0 {
        return true;
      }
      var cq, sq := cqTail, sqTail;
      while cq < expectIdx
        invariant cqTail <= cq && (cq <= expectIdx || cq == cqTail) && cq < U32_LIMIT
        invariant sq == U32(sqTail + (cq - cqTail))
        invariant AllSeen(ready, cqTail, cq)
      {
        var loop := 0;
        while loop < MAX_RETRY_TIMES
          invariant loop <= MAX_RETRY_TIMES
          invariant forall k: nat | k < loop :: !ready(cq, k)
        {
          if ready(cq, loop) {
            break;
          }
          loop := loop + 1;
        }
        if loop >= MAX_RETRY_TIMES {
          assert !Seen(ready, cq);
          return false;
        }
        assert Seen(ready, cq);
        cq := cq + 1;
        sq := U32(sq + 1);
      }
      cqTail := cq;
      sqTail := sq;
      return true;
    }

    /** The steps of PostSend. */
    method Post(dst: nat, src: nat, len: nat, opType: nat, ready: Readiness) returns (ok: bool)
      requires Valid()
      modifies this`sqHead, this`sqTail, this`cqTail, slots
      ensures Valid()
      ensures !connected ==> !ok && View() == old(View())
      ensures connected ==>
                var q, made := old(View()), Made(dst, src, len, opType);
                var seen := AllSeen(ready, q.cqTail, PollTarget(q));
                ok == PostOk(q, seen, made) && View() == RoceModel.PostSend(q, seen, made)
    {
      if !connected {
        return false;
      }
      if U32(sqHead + POLL_CQ_THRESHOLD) % cqDepth == sqTail % cqDepth {
        var next := U32(sqTail + NUM_CQE_PER_POLL_CQ);
        var polled := PollCq(if next > sqHead then sqHead else next, ready);
        if !polled {
          return false;
        }
      }
      var made := MakeWqe(dst, src, len, opType, sqHead);
      if !made {
        return false;
      }
      sqHead := U32(sqHead + 1);
      return true;
    }

    method PostSend(dst: nat, src: nat, len: nat, opType: nat, ready: Readiness) returns (ok: bool)
      requires Valid()
      modifies this`sqHead, this`sqTail, this`cqTail, slots
      ensures Valid()
      ensures !connected ==> !ok && View() == old(View())
      ensures connected ==>
                var q, made := old(View()), Made(dst, src, len, opType);
                var seen := AllSeen(ready, q.cqTail, PollTarget(q));
                ok == PostOk(q, seen, made) && View() == RoceModel.PostSend(q, seen, made)
      ensures connected && old(Bounded(View())) && old(sqHead) < U32_LIMIT - NUM_CQE_PER_POLL_CQ ==>
                PostOutcome(old(View()), ready, Registered(dst, src, len), Request(dst, src, len, opType), ok, View())
    {
      ok := Post(dst, src, len, opType, ready);
      if connected && old(Bounded(View())) && old(sqHead) < U32_LIMIT - NUM_CQE_PER_POLL_CQ {
        PostIs(old(View()), ready, Registered(dst, src, len), Request(dst, src, len, opType));
      }
    }

    method WriteNbi(dst: nat, src: nat, len: nat, ready: Readiness) returns (ok: bool)
      requires Valid()
      modifies this`sqHead, this`sqTail, this`cqTail, slots
      ensures Valid()
      ensures !connected ==> !ok && View() == old(View())
      ensures connected ==>
                var q, made := old(View()), Made(dst, src, len, OP_WRITE);
                var seen := AllSeen(ready, q.cqTail, PollTarget(q));
                ok == PostOk(q, seen, made) && View() == RoceModel.PostSend(q, seen, made)
      ensures connected && old(Bounded(View())) && old(sqHead) < U32_LIMIT - NUM_CQE_PER_POLL_CQ ==>
                PostOutcome(old(View()), ready, Registered(dst, src, len), Request(dst, src, len, OP_WRITE), ok, View())
    {
      ok := PostSend(dst, src, len, OP_WRITE, ready);
    }

    /** A read names the remote buffer first too: its source is remote and its destination local. */
    method ReadNbi(dst: nat, src: nat, len: nat, ready: Readiness) returns (ok: bool)
      requires Valid()
      modifies this`sqHead, this`sqTail, this`cqTail, slots
      ensures Valid()
      ensures !connected ==> !ok && View() == old(View())
      ensures connected ==>
                var q, made := old(View()), Made(src, dst, len, OP_READ);
                var seen := AllSeen(ready, q.cqTail, PollTarget(q));
                ok == PostOk(q, seen, made) && View() == RoceModel.PostSend(q, seen, made)
      ensures connected && old(Bounded(View())) && old(sqHead) < U32_LIMIT - NUM_CQE_PER_POLL_CQ ==>
                PostOutcome(old(View()), ready, Registered(src, dst, len), Request(src, dst, len, OP_READ), ok, View())
    {
      ok := PostSend(src, dst, len, OP_READ, ready);
    }

    method Drain(ready: Readiness) returns (ok: bool)
      requires Valid()
      modifies this`sqTail, this`cqTail
      ensures Valid() && ok == PollOk(old(sqHead), AllSeen(ready, old(cqTail), old(sqHead)))
      ensures View() == RoceModel.Drain(old(View()), AllSeen(ready, old(cqTail), old(sqHead)))
      ensures old(Bounded(View())) && ok ==> sqTail == cqTail == sqHead == old(sqHead)
    {
      ok := PollCq(sqHead, ready);
    }
  }
}
