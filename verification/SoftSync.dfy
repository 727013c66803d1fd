/**
  How cores follow the completions of the CCU.  One working core polls the completion flag of its
  oldest message, raises the shared counter, then clears the flag; every other core (a follower)
  returns from its k-th Wait when it sees the flag of slot k % 64 or a counter above k.

  Each read and each write of shared memory is one step, and steps of the CCU, of the working core and
  of any number of followers interleave freely.  Message k uses slot k % 64 and is sent only when fewer
  than 64 messages are unwaited: CcuRingTheorems proves both of the ring.
*/
module SoftSync {
  datatype WorkerPc = Polling | SawFlag | RaisedCount
  datatype FollowerPc = ReadFlag | ReadCount
  datatype Follower = Follower(waits: nat, pc: FollowerPc)

  datatype State = State(
    flags: seq<bool>,       // completion flag of each slot
    finishCnt: nat,         // the shared counter
    sent: nat,
    done: set<nat>,         // messages the CCU has completed
    waited: nat,            // Waits the working core has finished
    pc: WorkerPc,
    followers: seq<Follower>
  )

  datatype Action =
    | Send | Complete(m: nat)
    | WorkerPoll | WorkerRaise | WorkerClear
    | FollowerFlag(f: nat) | FollowerCount(f: nat)

  predicate Initial(s: State) {
    && |s.flags| == 64 && (forall i | 0 <= i < 64 :: !s.flags[i])
    && s.finishCnt == s.sent == s.waited == 0 && s.done == {} && s.pc == Polling
    && forall f | 0 <= f < |s.followers| :: s.followers[f] == Follower(0, ReadFlag)
  }

  predicate Enabled(s: State, a: Action) {
    && |s.flags| == 64
    && match a
       case Send => s.pc == Polling && s.sent < s.waited + 64
       case Complete(m) => m < s.sent && m !in s.done
       case WorkerPoll => s.pc == Polling
       case WorkerRaise => s.pc == SawFlag
       case WorkerClear => s.pc == RaisedCount
       case FollowerFlag(f) => f < |s.followers| && s.followers[f].pc == ReadFlag
       case FollowerCount(f) => f < |s.followers| && s.followers[f].pc == ReadCount
  }

  function Next(s: State, a: Action): (s': State)
    requires Enabled(s, a)
    ensures |s'.followers| == |s.followers| && |s'.flags| == |s.flags|
  {
    match a
    case Send => s.(sent := s.sent + 1)
    case Complete(m) => s.(done := s.done + {m}, flags := s.flags[m % 64 := true])
    case WorkerPoll => if s.flags[s.waited % 64] then s.(pc := SawFlag) else s
    case WorkerRaise => s.(finishCnt := s.waited + 1, pc := RaisedCount)
    case WorkerClear => s.(flags := s.flags[s.waited % 64 := false], waited := s.waited + 1, pc := Polling)
    case FollowerFlag(f) =>
      var w := s.followers[f].waits;
      s.(followers := s.followers[f := if s.flags[w % 64] then Follower(w + 1, ReadFlag) else Follower(w, ReadCount)])
    case FollowerCount(f) =>
      var w := s.followers[f].waits;
      s.(followers := s.followers[f := if s.finishCnt > w then Follower(w + 1, ReadFlag) else Follower(w, ReadFlag)])
  }

  predicate IsRun(s: State, acts: seq<Action>)
    decreases |acts|
  {
    acts == [] || (Enabled(s, acts[0]) && IsRun(Next(s, acts[0]), acts[1..]))
  }

  function Final(s: State, acts: seq<Action>): (s': State)
    requires IsRun(s, acts)
    ensures |s'.followers| == |s.followers| && |s'.flags| == |s.flags|
    decreases |acts|
  {
    if acts == [] then s else Final(Next(s, acts[0]), acts[1..])
  }

  // ---------------------------------------------------------------------------------------------
  // The invariant of every run
  // ---------------------------------------------------------------------------------------------

  /** The flag of m's slot speaks for m. */
  predicate FlagShows(s: State, m: nat)
    requires |s.flags| == 64
  {
    s.flags[m % 64] <==> m in s.done
  }

  predicate Inv(s: State) {
    && |s.flags| == 64
    && s.waited <= s.sent <= s.waited + 64
    && s.finishCnt == (if s.pc == RaisedCount then s.waited + 1 else s.waited)
    && (forall m | m in s.done :: m < s.sent)
    && (forall m | 0 <= m < s.waited :: m in s.done)
    && (s.pc != Polling ==> s.waited in s.done)
    && (forall m: nat | s.waited <= m < s.waited + 64 :: FlagShows(s, m))
  }

  lemma CompleteKeepsInv(s: State, n: nat)
    requires Inv(s) && Enabled(s, Complete(n))
    ensures Inv(Next(s, Complete(n)))
  {
    var s' := Next(s, Complete(n));
    forall m: nat | s'.waited <= m < s'.waited + 64 ensures FlagShows(s', m) {
      assert FlagShows(s, m);
      assert m % 64 == n % 64 ==> m == n;
    }
  }

  lemma ClearKeepsInv(s: State)
    requires Inv(s) && Enabled(s, WorkerClear)
    ensures Inv(Next(s, WorkerClear))
  {
    var s' := Next(s, WorkerClear);
    forall m: nat | s'.waited <= m < s'.waited + 64 ensures FlagShows(s', m) {
      if m < s.waited + 64 {
        assert FlagShows(s, m);
        assert m % 64 != s.waited % 64;
      } else {
        assert m % 64 == s.waited % 64;
      }
    }
  }

  lemma NextKeepsInv(s: State, a: Action)
    requires Inv(s) && Enabled(s, a)
    ensures Inv(Next(s, a))
  {
    if a.Complete? {
      CompleteKeepsInv(s, a.m);
    } else if a.WorkerClear? {
      ClearKeepsInv(s);
    } else {
      var s' := Next(s, a);
      forall m: nat | s'.waited <= m < s'.waited + 64 ensures FlagShows(s', m) {
        assert FlagShows(s, m);
      }
      assert a.WorkerPoll? ==> FlagShows(s, s.waited);
    }
  }

  lemma {:induction false} RunKeepsInv(s: State, acts: seq<Action>)
    requires Inv(s) && IsRun(s, acts)
    ensures Inv(Final(s, acts))
    decreases |acts|
  {
    if acts != [] {
      NextKeepsInv(s, acts[0]);
      RunKeepsInv(Next(s, acts[0]), acts[1..]);
    }
  }

  // ---------------------------------------------------------------------------------------------
  // Safety: a follower returns only after its message completed
  // ---------------------------------------------------------------------------------------------

  predicate Near(s: State, f: nat)
    requires f < |s.followers|
  {
    s.followers[f].waits < s.waited + 64
  }

  /** A follower that returns on the flag returns for a completed message exactly when it is fewer than
      64 Waits ahead of the working core. */
  lemma FlagReturnIsSafeIff(s: State, f: nat)
    requires Inv(s) && Enabled(s, FollowerFlag(f))
    requires Next(s, FollowerFlag(f)).followers[f].waits > s.followers[f].waits
    ensures s.followers[f].waits in s.done <==> Near(s, f)
  {
    assert Near(s, f) && s.followers[f].waits >= s.waited ==> FlagShows(s, s.followers[f].waits);
  }

  /** A return on the counter is always safe. */
  lemma CountReturnIsSafe(s: State, f: nat)
    requires Inv(s) && Enabled(s, FollowerCount(f))
    requires Next(s, FollowerCount(f)).followers[f].waits > s.followers[f].waits
    ensures s.followers[f].waits in s.done
  {
    assert s.followers[f].waits < s.finishCnt;
  }

  /** Every flag read of the run is made by a follower fewer than 64 Waits ahead. */
  predicate StaysNear(s: State, acts: seq<Action>)
    requires IsRun(s, acts)
    decreases |acts|
  {
    acts != [] ==> (acts[0].FollowerFlag? ==> Near(s, acts[0].f)) && StaysNear(Next(s, acts[0]), acts[1..])
  }

  predicate FollowersSafe(s: State) {
    forall f, m | 0 <= f < |s.followers| && 0 <= m < s.followers[f].waits :: m in s.done
  }

  lemma {:induction false} SafeFrom(s: State, acts: seq<Action>)
    requires Inv(s) && IsRun(s, acts) && StaysNear(s, acts) && FollowersSafe(s)
    ensures FollowersSafe(Final(s, acts))
    decreases |acts|
  {
    if acts != [] {
      var a, s' := acts[0], Next(s, acts[0]);
      NextKeepsInv(s, a);
      if a.FollowerFlag? && s'.followers[a.f].waits > s.followers[a.f].waits {
        FlagReturnIsSafeIff(s, a.f);
      } else if a.FollowerCount? && s'.followers[a.f].waits > s.followers[a.f].waits {
        CountReturnIsSafe(s, a.f);
      }
      SafeFrom(s', acts[1..]);
    }
  }

  /** In every interleaving, the Waits a follower has returned from were for completed messages. */
  lemma FollowersReturnAfterCompletion(s: State, acts: seq<Action>)
    requires Initial(s) && IsRun(s, acts) && StaysNear(s, acts)
    ensures FollowersSafe(Final(s, acts))
  {
    SafeFrom(s, acts);
  }

  // ---------------------------------------------------------------------------------------------
  // No completion is lost
  // ---------------------------------------------------------------------------------------------

  /** The counter is raised before the flag is cleared, so a completed message always shows in one. */
  lemma CompletionAlwaysVisible(s: State, acts: seq<Action>, m: nat)
    requires Initial(s) && IsRun(s, acts) && m in Final(s, acts).done
    ensures var t := Final(s, acts); t.flags[m % 64] || t.finishCnt > m
  {
    RunKeepsInv(s, acts);
    var t := Final(s, acts);
    assert m >= t.waited ==> FlagShows(t, m);
  }

  /** How many steps of the run are follower f's own. */
  function OwnSteps(acts: seq<Action>, f: nat): nat {
    if acts == [] then 0
    else (if acts[0] in {FollowerFlag(f), FollowerCount(f)} then 1 else 0) + OwnSteps(acts[1..], f)
  }

  /** Own steps a follower may still need to return, once its message completed: a counter read that
      finds the counter raised returns; one that does not costs another round. */
  function StepsLeft(s: State, f: nat): nat
    requires f < |s.followers|
  {
    if s.followers[f].pc == ReadFlag then 2
    else if s.finishCnt > s.followers[f].waits then 1 else 3
  }

  lemma {:induction false} GetsThrough(s: State, acts: seq<Action>, f: nat)
    requires Inv(s) && IsRun(s, acts) && f < |s.followers| && s.followers[f].waits in s.done
    requires OwnSteps(acts, f) >= StepsLeft(s, f)
    ensures Final(s, acts).followers[f].waits > s.followers[f].waits
    decreases |acts|
  {
    var s' := Next(s, acts[0]);
    NextKeepsInv(s, acts[0]);
    assert s.followers[f].waits >= s.waited ==> FlagShows(s, s.followers[f].waits);
    if s'.followers[f].waits > s.followers[f].waits {
      WaitsOnlyGrow(s', acts[1..], f);
    } else {
      GetsThrough(s', acts[1..], f);
    }
  }

  lemma {:induction false} WaitsOnlyGrow(s: State, acts: seq<Action>, f: nat)
    requires IsRun(s, acts) && f < |s.followers|
    ensures Final(s, acts).followers[f].waits >= s.followers[f].waits
    decreases |acts|
  {
    if acts != [] {
      WaitsOnlyGrow(Next(s, acts[0]), acts[1..], f);
    }
  }

  /** Once its message has completed, a follower returns within three reads of its own, however late it
      is and whatever the other cores and the CCU do in between. */
  lemma LateFollowerGetsThrough(s: State, before: seq<Action>, acts: seq<Action>, f: nat)
    requires Initial(s) && IsRun(s, before) && IsRun(Final(s, before), acts) && f < |s.followers|
    requires Final(s, before).followers[f].waits in Final(s, before).done
    requires OwnSteps(acts, f) >= 3
    ensures Final(Final(s, before), acts).followers[f].waits > Final(s, before).followers[f].waits
  {
    RunKeepsInv(s, before);
    GetsThrough(Final(s, before), acts, f);
  }

  // ---------------------------------------------------------------------------------------------
  // The working core's own Waits
  // ---------------------------------------------------------------------------------------------

  predicate OfWorker(a: Action) { a.WorkerPoll? || a.WorkerRaise? || a.WorkerClear? }

  /** How many steps of the run are the working core's own. */
  function WorkerSteps(acts: seq<Action>): nat {
    if acts == [] then 0 else (if OfWorker(acts[0]) then 1 else 0) + WorkerSteps(acts[1..])
  }

  /** Own steps the working core needs to finish its Wait once the message completed: see the flag, raise the
      counter, clear the flag. */
  function WorkerStepsLeft(s: State): nat {
    match s.pc
    case Polling => 3
    case SawFlag => 2
    case RaisedCount => 1
  }

  lemma {:induction false} WaitedOnlyGrows(s: State, acts: seq<Action>)
    requires IsRun(s, acts)
    ensures Final(s, acts).waited >= s.waited
    decreases |acts|
  {
    if acts != [] {
      WaitedOnlyGrows(Next(s, acts[0]), acts[1..]);
    }
  }

  lemma {:induction false} WorkerFinishes(s: State, acts: seq<Action>)
    requires Inv(s) && IsRun(s, acts) && s.waited in s.done && WorkerSteps(acts) >= WorkerStepsLeft(s)
    ensures Final(s, acts).waited > s.waited
    decreases |acts|
  {
    var s' := Next(s, acts[0]);
    NextKeepsInv(s, acts[0]);
    assert FlagShows(s, s.waited);
    if s'.waited > s.waited {
      WaitedOnlyGrows(s', acts[1..]);
    } else {
      WorkerFinishes(s', acts[1..]);
    }
  }

  /** Once the message it waits for has completed, the working core returns from its Wait within three steps of
      its own, whatever the CCU and the followers do in between, and has raised the counter past it. */
  lemma WorkerGetsThrough(s: State, before: seq<Action>, acts: seq<Action>)
    requires Initial(s) && IsRun(s, before) && IsRun(Final(s, before), acts)
    requires Final(s, before).waited in Final(s, before).done && WorkerSteps(acts) >= 3
    ensures var m, t := Final(s, before).waited, Final(Final(s, before), acts); t.waited > m && t.finishCnt > m
  {
    RunKeepsInv(s, before);
    WorkerFinishes(Final(s, before), acts);
    RunKeepsInv(Final(s, before), acts);
  }

  /** A message that has not completed holds the working core in its poll, whatever happens in between. */
  lemma UnfinishedHoldsWorker(s: State, before: seq<Action>, acts: seq<Action>)
    requires Initial(s) && IsRun(s, before) && IsRun(Final(s, before), acts)
    requires Final(s, before).waited !in Final(Final(s, before), acts).done
    ensures var t := Final(Final(s, before), acts);
            t.waited == Final(s, before).waited && t.pc == Polling && t.finishCnt == t.waited
  {
    RunKeepsInv(s, before);
    RunKeepsInv(Final(s, before), acts);
    WaitedOnlyGrows(Final(s, before), acts);
  }

  /** The working core can always go on: a step of its own is enabled in every state of a run, and it can send
      exactly while it polls and fewer than 64 messages are unwaited. */
  lemma WorkerNeverStuck(s: State, acts: seq<Action>)
    requires Initial(s) && IsRun(s, acts)
    ensures var t := Final(s, acts);
            && (Enabled(t, WorkerPoll) || Enabled(t, WorkerRaise) || Enabled(t, WorkerClear))
            && (Enabled(t, Send) <==> t.pc == Polling && t.sent - t.waited < 64)
            && forall m | t.waited <= m < t.sent && m !in t.done :: Enabled(t, Complete(m))
  {
    RunKeepsInv(s, acts);
  }

  // ---------------------------------------------------------------------------------------------
  // A follower 64 Waits ahead is not safe
  // ---------------------------------------------------------------------------------------------

  lemma {:induction false} RunExtends(s: State, acts: seq<Action>, a: Action)
    requires IsRun(s, acts) && Enabled(Final(s, acts), a)
    ensures IsRun(s, acts + [a]) && Final(s, acts + [a]) == Next(Final(s, acts), a)
    decreases |acts|
  {
    if acts == [] {
      assert [a][1..] == [];
      assert IsRun(Next(s, a), [a][1..]);
    } else {
      RunExtends(Next(s, acts[0]), acts[1..], a);
      assert (acts + [a])[1..] == acts[1..] + [a];
    }
  }

  /** A run in which k messages are sent and completed, the only follower waits for each, and the working
      core never runs. */
  lemma {:induction false} FollowerRunsAhead(s: State, k: nat) returns (acts: seq<Action>)
    requires Initial(s) && |s.followers| == 1 && k <= 64
    ensures IsRun(s, acts)
    ensures var t := Final(s, acts);
            && Inv(t) && t.sent == k && t.waited == 0 && t.pc == Polling && (forall m: nat :: m in t.done <==> m < k)
            && t.followers == [Follower(k, ReadFlag)]
  {
    if k == 0 {
      acts := [];
    } else {
      var before := FollowerRunsAhead(s, k - 1);
      RunExtends(s, before, Send);
      RunExtends(s, before + [Send], Complete(k - 1));
      RunExtends(s, before + [Send] + [Complete(k - 1)], FollowerFlag(0));
      acts := before + [Send] + [Complete(k - 1)] + [FollowerFlag(0)];
      RunKeepsInv(s, acts);
    }
  }

  /** Without the distance bound there is a run in which the follower's 65th Wait (for message 64) returns
      on the first message's flag, although message 64 was never sent. */
  lemma FarFollowerReturnsEarly(s: State) returns (acts: seq<Action>)
    requires Initial(s) && |s.followers| == 1
    ensures IsRun(s, acts) && Final(s, acts).followers[0].waits == 65
    ensures 64 !in Final(s, acts).done && Final(s, acts).sent == 64
  {
    var ahead := FollowerRunsAhead(s, 64);
    RunExtends(s, ahead, FollowerFlag(0));
    assert FlagShows(Final(s, ahead), 0);
    acts := ahead + [FollowerFlag(0)];
  }
}
