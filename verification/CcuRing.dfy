/**
  The core's ring object.  Each method updates the fields in place and is proved to do what the
  function of the same name in CcuRingModel does to the ring's value.
*/
module CcuRing {
  import opened Common
  import M = CcuRingModel
  import P = CcuRingProofs
  import T = CcuRingTheorems

  class CcuRing {
    const working: bool
    const handleReqId: array<uint8>
    const handleRepeatCnt: array<uint8>
    const handleNeedCommitCnt: array<uint8>
    const handleCommitCnt: array<uint8>
    const handleFinishCnt: array<uint8>
    const msgQueueIsAvailable: array<bool>
    var curHandleId: nat
    var globalCurResId: nat
    var globalCurWaitId: nat
    var globalCurCommitCnt: nat
    var finishNum: nat
    /** The slot Finalize wrote the end marker to, if it has run. */
    var endMarker: int

    // History of the run: the messages written to the CCU and the number of commit requests.
    ghost var sent: seq<M.Msg>
    ghost var requested: nat

    ghost function Counts(): set<object> {
      {handleReqId, handleRepeatCnt, handleNeedCommitCnt, handleCommitCnt, handleFinishCnt, msgQueueIsAvailable}
    }

    ghost predicate Valid()
      reads this, Counts()
    {
      && handleReqId.Length == handleRepeatCnt.Length == handleNeedCommitCnt.Length == M.MAX_HANDLES
      && handleCommitCnt.Length == handleFinishCnt.Length == M.MAX_HANDLES
      && handleReqId != handleRepeatCnt && handleReqId != handleNeedCommitCnt && handleReqId != handleCommitCnt
      && handleReqId != handleFinishCnt && handleRepeatCnt != handleNeedCommitCnt
      && handleRepeatCnt != handleCommitCnt && handleRepeatCnt != handleFinishCnt
      && handleNeedCommitCnt != handleCommitCnt && handleNeedCommitCnt != handleFinishCnt
      && handleCommitCnt != handleFinishCnt
      && msgQueueIsAvailable.Length == 64
      && curHandleId <= M.MAX_HANDLES && globalCurResId < 64 && globalCurWaitId < 64
    }

    ghost function View(): (r: M.Ring)
      reads this, Counts()
      requires Valid()
      ensures r.Shaped()
    {
      M.Ring(working, curHandleId, handleReqId[..], handleRepeatCnt[..], handleNeedCommitCnt[..],
             handleCommitCnt[..], handleFinishCnt[..], globalCurResId, globalCurWaitId,
             msgQueueIsAvailable[..], globalCurCommitCnt, finishNum, sent, requested)
    }

    constructor (working: bool)
      ensures Valid() && fresh(Counts())
      ensures View().working == working && M.Initial(View())
    {
      this.working := working;
      handleReqId := new uint8[M.MAX_HANDLES];
      handleRepeatCnt := new uint8[M.MAX_HANDLES];
      handleNeedCommitCnt := new uint8[M.MAX_HANDLES];
      handleCommitCnt := new uint8[M.MAX_HANDLES];
      handleFinishCnt := new uint8[M.MAX_HANDLES];
      msgQueueIsAvailable := new bool[64];
      curHandleId, finishNum, globalCurCommitCnt := 0, 0, 0;
      globalCurWaitId, globalCurResId := 0, 0;
      endMarker := -1;
      sent, requested := [], 0;
      new;
      for i := 0 to 64
        modifies msgQueueIsAvailable
        invariant forall s | 0 <= s < i :: msgQueueIsAvailable[s]
      {
        msgQueueIsAvailable[i] := true;
      }
    }

    /** Writes the message to the CCU if this is the working core, and takes the slot. */
    method SendNext(h: nat, repeatIndex: nat)
      requires Valid() && h < M.MAX_HANDLES
      modifies this`sent, this`globalCurCommitCnt, this`globalCurResId, handleCommitCnt, msgQueueIsAvailable
      ensures Valid() && View() == M.SendNext(old(View()), h, repeatIndex)
    {
      if working {
        sent := sent + [M.Msg(M.Task(h, repeatIndex), globalCurResId)];
      }
      msgQueueIsAvailable[globalCurResId] := false;
      handleCommitCnt[h] := M.Add8(handleCommitCnt[h], 1);
      globalCurCommitCnt := globalCurCommitCnt + 1;
      globalCurResId := (globalCurResId + 1) % 64;
    }

    method CommitMsgInner(h: nat)
      requires Valid() && h < M.MAX_HANDLES
      modifies this`sent, this`requested, this`globalCurCommitCnt, this`globalCurResId
      modifies handleNeedCommitCnt, handleCommitCnt, msgQueueIsAvailable
      ensures Valid() && View() == M.CommitMsgInner(old(View()), h)
    {
      handleNeedCommitCnt[h] := M.Add8(handleNeedCommitCnt[h], handleRepeatCnt[h]);
      requested := requested + handleRepeatCnt[h];
      var i := 0;
      ghost var start := View();
      assert start == M.Request(old(View()), h, handleRepeatCnt[h]);
      while i < handleRepeatCnt[h]
        invariant Valid() && 0 <= i <= handleRepeatCnt[h] && handleRepeatCnt[..] == start.repeats
        invariant M.CommitLoop(View(), h, i) == M.CommitLoop(start, h, 0)
      {
        if !msgQueueIsAvailable[globalCurResId] {
          break;
        }
        SendNext(h, i);
        i := i + 1;
      }
    }

    method CommitMsg(h: nat)
      requires Valid() && h < M.MAX_HANDLES
      modifies this`sent, this`globalCurCommitCnt, this`globalCurResId, handleCommitCnt, msgQueueIsAvailable
      ensures Valid() && View() == M.CommitMsg(old(View()), h)
    {
      SendNext(h, handleCommitCnt[h]);
    }

    method Prepare(repeat: uint8, commit: bool) returns (handle: int)
      requires Valid() && curHandleId < M.MAX_HANDLES
      modifies this, Counts()
      ensures Valid() && View() == M.Prepare(old(View()), repeat, commit)
      ensures handle == if repeat == 0 then -1 else old(curHandleId)
    {
      if repeat == 0 {
        return -1;
      }
      var h := curHandleId;
      var reqId := if h == 0 then 0 else handleReqId[h - 1] as int + handleRepeatCnt[h - 1] as int;
      handleRepeatCnt[h], handleNeedCommitCnt[h] := 0, 0;
      handleCommitCnt[h], handleFinishCnt[h] := 0, 0;
      handleReqId[h] := reqId % 64;
      handleRepeatCnt[h] := repeat;
      assert View() == M.Register(old(View()), repeat);
      if commit {
        CommitMsgInner(h);
      }
      curHandleId := curHandleId + 1;
      return h;
    }

    method Commit(h: int)
      requires Valid()
      modifies this, Counts()
      ensures Valid() && View() == M.Commit(old(View()), h)
    {
      if h >= M.MAX_HANDLES || h <= -1 {
        return;
      }
      handleNeedCommitCnt[h] := M.Add8(handleNeedCommitCnt[h], 1);
      requested := requested + 1;
      assert View() == M.Request(old(View()), h, 1);
      if !msgQueueIsAvailable[globalCurResId] {
        return;
      }
      CommitMsg(h);
    }

    /** Everything Wait does to the core's own fields; the polling of the completion flag before the slot
        is freed is the subject of SoftSync.dfy. */
    method Wait(h: int) returns (ok: bool)
      requires Valid()
      modifies this, Counts()
      ensures Valid() && View() == M.Wait(old(View()), h)
      ensures ok == old(M.WaitAccepts(View(), h)) && endMarker == old(endMarker)
    {
      if h >= M.MAX_HANDLES || h <= -1 {
        return false;
      }
      if handleNeedCommitCnt[h] <= 0 {
        return false;
      }
      var reqId := M.Add8(handleReqId[h], handleFinishCnt[h]) % 64;
      msgQueueIsAvailable[reqId] := true;
      handleFinishCnt[h] := M.Add8(handleFinishCnt[h], 1);
      finishNum := finishNum + 1;
      globalCurWaitId := (globalCurWaitId + 1) % 64;
      assert View() == M.Retire(old(View()), h);
      if handleCommitCnt[h] < handleNeedCommitCnt[h] {
        CommitMsg(h);
      } else {
        var next := h + 1;
        if next < curHandleId && handleCommitCnt[next] < handleNeedCommitCnt[next] {
          CommitMsg(next);
        }
      }
      return true;
    }

    /** Finalize's loop over the last handle. */
    method FinishLast()
      requires Valid() && M.Inv(View()) && T.OnlyLastUnwaited(View())
      modifies this, Counts()
      ensures Valid() && View() == T.FinishLast(old(View())) && endMarker == old(endMarker)
    {
      var h := curHandleId - 1;
      ghost var last := T.FinishLast(View());
      while handleFinishCnt[h] < handleCommitCnt[h]
        invariant Valid() && M.Inv(View()) && T.OnlyLastUnwaited(View()) && h == curHandleId - 1
        invariant T.FinishLast(View()) == last && endMarker == old(endMarker)
        decreases handleNeedCommitCnt[h] as int - handleFinishCnt[h]
      {
        T.LastWaitStep(View());
        var _ := Wait(h);
      }
    }

    /** On the working core: called after a run that kept the discipline and prepared some handle, with every
        handle but the last fully waited for. */
    method Finalize()
      requires Valid() && (working ==> M.Inv(View()) && T.OnlyLastUnwaited(View()))
      modifies this, Counts()
      ensures Valid()
      ensures !working ==> View() == old(View()) && endMarker == old(endMarker)
      ensures working ==> View() == T.FinishLast(old(View()))
      ensures working ==> finishNum == globalCurCommitCnt == old(requested) && endMarker == old(requested) % 64
    {
      if working {
        FinishLast();
        endMarker := globalCurWaitId;
      }
    }
  }
}
