/**
  The handle tables of the direct-drive client: which channel each handle belongs to, and which handles
  count as committed and as waited for.  Committing (waiting for) a handle covers every earlier handle of
  its channel; the code marks them walking backwards and stops at the first one already marked.
*/
module HandleTables {
  const MAX_HANDLES: nat := 1024

  type Channel = nat  // an address; 0 is no channel

  datatype Tables = Tables(cur: int, channel: seq<Channel>, committed: seq<bool>, waited: seq<bool>) {
    predicate Shaped() {
      |channel| == |committed| == |waited| == MAX_HANDLES && -1 <= cur < MAX_HANDLES
    }
  }

  predicate Initial(t: Tables) {
    && t.Shaped() && t.cur == -1
    && forall i | 0 <= i < MAX_HANDLES :: t.channel[i] == 0 && !t.committed[i] && !t.waited[i]
  }

  predicate CanCommit(t: Tables, h: int)
    requires t.Shaped()
  {
    0 <= h < MAX_HANDLES && t.channel[h] != 0 && !t.committed[h]
  }

  predicate CanWait(t: Tables, h: int)
    requires t.Shaped()
  {
    0 <= h < MAX_HANDLES && t.channel[h] != 0 && t.committed[h] && !t.waited[h]
  }

  /** The marks with every handle up to h of h's channel added. */
  function MarkedUpTo(channel: seq<Channel>, marks: seq<bool>, h: nat): (r: seq<bool>)
    requires h < |marks| == |channel|
    ensures |r| == |marks|
  {
    seq(|marks|, i requires 0 <= i < |marks| => marks[i] || (i <= h && channel[i] == channel[h]))
  }

  function Commit(t: Tables, h: int): (t': Tables)
    requires t.Shaped()
    ensures t'.Shaped()
  {
    if CanCommit(t, h) then t.(committed := MarkedUpTo(t.channel, t.committed, h)) else t
  }

  function Wait(t: Tables, h: int): (t': Tables)
    requires t.Shaped()
    ensures t'.Shaped()
  {
    if CanWait(t, h) then t.(waited := MarkedUpTo(t.channel, t.waited, h)) else t
  }

  /** A write or read on a channel takes the next handle; it may commit it at once. */
  function Operate(t: Tables, channel: Channel, commit: bool): (t': Tables)
    requires t.Shaped() && t.cur + 1 < MAX_HANDLES
    ensures t'.Shaped()
  {
    var h := t.cur + 1;
    var n := t.(cur := h, channel := t.channel[h := channel]);
    if commit then Commit(n, h) else n
  }

  datatype Call = OperateCall(channel: Channel, commit: bool) | CommitCall(handle: int) | WaitCall(handle: int)

  /** What the code needs of its caller: a real channel and a handle left. */
  predicate Allowed(t: Tables, c: Call)
    requires t.Shaped()
  {
    c.OperateCall? ==> c.channel != 0 && t.cur + 1 < MAX_HANDLES
  }

  function Step(t: Tables, c: Call): (t': Tables)
    requires t.Shaped() && Allowed(t, c)
    ensures t'.Shaped()
  {
    match c
    case OperateCall(channel, commit) => Operate(t, channel, commit)
    case CommitCall(h) => Commit(t, h)
    case WaitCall(h) => Wait(t, h)
  }

  predicate IsRun(t: Tables, calls: seq<Call>)
    requires t.Shaped()
    decreases |calls|
  {
    calls == [] || (Allowed(t, calls[0]) && IsRun(Step(t, calls[0]), calls[1..]))
  }

  function Run(t: Tables, calls: seq<Call>): (t': Tables)
    requires t.Shaped() && IsRun(t, calls)
    ensures t'.Shaped()
    decreases |calls|
  {
    if calls == [] then t else Run(Step(t, calls[0]), calls[1..])
  }

  // ---------------------------------------------------------------------------------------------
  // What every run keeps
  // ---------------------------------------------------------------------------------------------

  /** On each channel the marks are downward closed. */
  predicate DownwardClosed(channel: seq<Channel>, marks: seq<bool>)
    requires |channel| == |marks|
  {
    forall i, j | 0 <= i < j < |marks| && channel[i] == channel[j] && marks[j] :: marks[i]
  }

  predicate Inv(t: Tables) {
    && t.Shaped()
    && (forall i | 0 <= i < MAX_HANDLES :: t.channel[i] != 0 <==> i <= t.cur)
    && (forall i | t.cur < i < MAX_HANDLES :: !t.committed[i])
    && (forall i | 0 <= i < MAX_HANDLES && t.waited[i] :: t.committed[i])
    && DownwardClosed(t.channel, t.committed) && DownwardClosed(t.channel, t.waited)
  }

  lemma CommitKeepsInv(t: Tables, h: int)
    requires Inv(t)
    ensures Inv(Commit(t, h))
  {}

  lemma WaitKeepsInv(t: Tables, h: int)
    requires Inv(t)
    ensures Inv(Wait(t, h))
  {}

  lemma OperateKeepsInv(t: Tables, channel: Channel, commit: bool)
    requires Inv(t) && channel != 0 && t.cur + 1 < MAX_HANDLES
    ensures Inv(Operate(t, channel, commit))
  {
    var h := t.cur + 1;
    var n := t.(cur := h, channel := t.channel[h := channel]);
    assert Inv(n);
    CommitKeepsInv(n, h);
  }

  lemma StepKeepsInv(t: Tables, c: Call)
    requires Inv(t) && Allowed(t, c)
    ensures Inv(Step(t, c))
  {
    match c
    case OperateCall(channel, commit) => OperateKeepsInv(t, channel, commit);
    case CommitCall(h) => CommitKeepsInv(t, h);
    case WaitCall(h) => WaitKeepsInv(t, h);
  }

  /** In every run the marks are downward closed on each channel, and only committed handles are waited for. */
  lemma {:induction false} RunKeepsInv(t: Tables, calls: seq<Call>)
    requires Inv(t) && IsRun(t, calls)
    ensures Inv(Run(t, calls))
    decreases |calls|
  {
    if calls != [] {
      StepKeepsInv(t, calls[0]);
      RunKeepsInv(Step(t, calls[0]), calls[1..]);
    }
  }

  // ---------------------------------------------------------------------------------------------
  // The tables read off the list of calls
  // ---------------------------------------------------------------------------------------------

  /** The channels of the writes and reads among the calls; each takes the next handle. */
  function Channels(calls: seq<Call>): (channels: seq<Channel>)
    ensures |channels| <= |calls|
  {
    if calls == [] then []
    else
      var last := calls[|calls| - 1];
      Channels(calls[..|calls| - 1]) + if last.OperateCall? then [last.channel] else []
  }

  /** Handle h exists, and i is h or an earlier handle of its channel. */
  predicate UpTo(channels: seq<Channel>, i: int, h: int) { 0 <= i <= h < |channels| && channels[i] == channels[h] }

  /** The k-th call commits handle i: it is a write or read that asks for it, or a Commit, of that handle or a
      later one of its channel; a Commit must name a handle that exists by then. */
  predicate Commits(calls: seq<Call>, k: nat, i: int)
    requires k < |calls|
  {
    match calls[k]
    case OperateCall(_, commit) => commit && UpTo(Channels(calls[..k + 1]), i, |Channels(calls[..k])|)
    case CommitCall(h) => UpTo(Channels(calls[..k]), i, h)
    case WaitCall(_) => false
  }

  predicate CommittedBy(calls: seq<Call>, i: int) { exists k | 0 <= k < |calls| :: Commits(calls, k, i) }

  /** The k-th call waits for handle i: it is a Wait for that handle or a later one of its channel, which was
      committed before. */
  predicate WaitsFor(calls: seq<Call>, k: nat, i: int)
    requires k < |calls|
  {
    calls[k].WaitCall? && UpTo(Channels(calls[..k]), i, calls[k].handle) && CommittedBy(calls[..k], calls[k].handle)
  }

  predicate WaitedBy(calls: seq<Call>, i: int) { exists k | 0 <= k < |calls| :: WaitsFor(calls, k, i) }

  /** The tables are what the calls say. */
  predicate Matches(t: Tables, calls: seq<Call>) {
    && Inv(t) && t.cur + 1 == |Channels(calls)|
    && (forall i | 0 <= i < |Channels(calls)| :: t.channel[i] == Channels(calls)[i])
    && (forall i | 0 <= i < MAX_HANDLES :: t.committed[i] <==> CommittedBy(calls, i))
    && (forall i | 0 <= i < MAX_HANDLES :: t.waited[i] <==> WaitedBy(calls, i))
  }

  lemma CommittedNext(calls: seq<Call>, c: Call, i: int)
    ensures CommittedBy(calls + [c], i) <==> CommittedBy(calls, i) || Commits(calls + [c], |calls|, i)
  {
    var all := calls + [c];
    forall k | 0 <= k < |calls| ensures Commits(all, k, i) <==> Commits(calls, k, i) {
      assert all[..k] == calls[..k] && all[..k + 1] == calls[..k + 1];
    }
    if CommittedBy(calls, i) {
      var k :| 0 <= k < |calls| && Commits(calls, k, i);
      assert Commits(all, k, i);
    }
  }

  lemma WaitedNext(calls: seq<Call>, c: Call, i: int)
    ensures WaitedBy(calls + [c], i) <==> WaitedBy(calls, i) || WaitsFor(calls + [c], |calls|, i)
  {
    var all := calls + [c];
    forall k | 0 <= k < |calls| ensures WaitsFor(all, k, i) <==> WaitsFor(calls, k, i) {
      assert all[..k] == calls[..k];
    }
    if WaitedBy(calls, i) {
      var k :| 0 <= k < |calls| && WaitsFor(calls, k, i);
      assert WaitsFor(all, k, i);
    }
  }

  lemma ChannelsNext(calls: seq<Call>, c: Call)
    ensures (calls + [c])[..|calls|] == calls && (calls + [c])[..|calls| + 1] == calls + [c]
    ensures Channels(calls + [c]) == Channels(calls) + if c.OperateCall? then [c.channel] else []
  {
    assert (calls + [c])[..|calls|] == calls;
    assert (calls + [c])[..|calls| + 1] == calls + [c];
  }

  lemma CommitMatches(t: Tables, calls: seq<Call>, h: int)
    requires Matches(t, calls)
    ensures Matches(Commit(t, h), calls + [CommitCall(h)])
  {
    var c := CommitCall(h);
    CommitKeepsInv(t, h);
    ChannelsNext(calls, c);
    forall i | 0 <= i < MAX_HANDLES
      ensures Commit(t, h).committed[i] <==> CommittedBy(calls + [c], i)
      ensures Commit(t, h).waited[i] <==> WaitedBy(calls + [c], i)
    {
      CommittedNext(calls, c, i);
      WaitedNext(calls, c, i);
    }
  }

  lemma WaitMatches(t: Tables, calls: seq<Call>, h: int)
    requires Matches(t, calls)
    ensures Matches(Wait(t, h), calls + [WaitCall(h)])
  {
    var c := WaitCall(h);
    WaitKeepsInv(t, h);
    ChannelsNext(calls, c);
    forall i | 0 <= i < MAX_HANDLES
      ensures Wait(t, h).committed[i] <==> CommittedBy(calls + [c], i)
      ensures Wait(t, h).waited[i] <==> WaitedBy(calls + [c], i)
    {
      CommittedNext(calls, c, i);
      WaitedNext(calls, c, i);
    }
  }

  lemma OperateMatches(t: Tables, calls: seq<Call>, channel: Channel, commit: bool)
    requires Matches(t, calls) && channel != 0 && t.cur + 1 < MAX_HANDLES
    ensures Matches(Operate(t, channel, commit), calls + [OperateCall(channel, commit)])
  {
    var c, r := OperateCall(channel, commit), Operate(t, channel, commit);
    OperateKeepsInv(t, channel, commit);
    ChannelsNext(calls, c);
    forall i | 0 <= i < MAX_HANDLES
      ensures r.committed[i] <==> CommittedBy(calls + [c], i)
      ensures r.waited[i] <==> WaitedBy(calls + [c], i)
    {
      CommittedNext(calls, c, i);
      WaitedNext(calls, c, i);
    }
  }

  lemma StepMatches(t: Tables, calls: seq<Call>, c: Call)
    requires Matches(t, calls) && Allowed(t, c)
    ensures Matches(Step(t, c), calls + [c])
  {
    match c
    case OperateCall(channel, commit) => OperateMatches(t, calls, channel, commit);
    case CommitCall(h) => CommitMatches(t, calls, h);
    case WaitCall(h) => WaitMatches(t, calls, h);
  }

  lemma {:induction false} RunMatches(t: Tables, before: seq<Call>, calls: seq<Call>)
    requires Matches(t, before) && IsRun(t, calls)
    ensures Matches(Run(t, calls), before + calls)
    decreases |calls|
  {
    if calls == [] {
      assert before + calls == before;
    } else {
      StepMatches(t, before, calls[0]);
      RunMatches(Step(t, calls[0]), before + [calls[0]], calls[1..]);
      assert before + [calls[0]] + calls[1..] == before + calls;
    }
  }

  /** In every run, handle i counts as committed exactly when some write or read that asked for it, or some
      Commit of an existing handle, was for i or a later handle of its channel; and as waited for exactly when
      some Wait was, for a handle committed by then.  A Commit or Wait is accepted exactly when its handle
      exists and has not been committed, or has been committed and not waited for. */
  lemma MarksAreWhatCallsCover(t: Tables, calls: seq<Call>)
    requires Initial(t) && IsRun(t, calls)
    ensures var r := Run(t, calls);
            && (forall i | 0 <= i < MAX_HANDLES :: r.committed[i] <==> CommittedBy(calls, i))
            && (forall i | 0 <= i < MAX_HANDLES :: r.waited[i] <==> WaitedBy(calls, i))
            && (forall h :: CanCommit(r, h) <==> 0 <= h < |Channels(calls)| && !CommittedBy(calls, h))
            && (forall h :: CanWait(r, h) <==>
                            0 <= h < |Channels(calls)| && CommittedBy(calls, h) && !WaitedBy(calls, h))
            && DownwardClosed(r.channel, r.committed) && DownwardClosed(r.channel, r.waited)
            && forall i | 0 <= i < MAX_HANDLES && r.waited[i] :: r.committed[i]
  {
    assert Matches(t, []);
    RunMatches(t, [], calls);
    assert [] + calls == calls;
  }

  /** A handle committed when it is taken can be waited for, once. */
  lemma NewHandleCanBeWaitedFor(t: Tables, channel: Channel)
    requires Inv(t) && channel != 0 && t.cur + 1 < MAX_HANDLES
    ensures var h, r := t.cur + 1, Operate(t, channel, true);
            && CanWait(r, h) && !CanWait(Wait(r, h), h) && !CanCommit(r, h)
            && CanCommit(Operate(t, channel, false), h)
  {}
}
