/**
  The direct-drive object that owns the handle tables.
*/
module DirectDrive {
  import opened HandleTables
  import HT = HandleTables

  class DirectDrive {
    const channelList: array<Channel>
    const handleCommitList: array<bool>
    const handleWaitList: array<bool>
    var curHandleId: int

    ghost function View(): Tables
      reads this, channelList, handleCommitList, handleWaitList
    {
      Tables(curHandleId, channelList[..], handleCommitList[..], handleWaitList[..])
    }

    ghost predicate Valid()
      reads this, channelList, handleCommitList, handleWaitList
    {
      handleCommitList != handleWaitList && Inv(View())
    }

    constructor ()
      ensures Valid() && Initial(View())
      ensures fresh(channelList) && fresh(handleCommitList) && fresh(handleWaitList)
    {
      channelList := new Channel[MAX_HANDLES](_ => 0);
      handleCommitList := new bool[MAX_HANDLES](_ => false);
      handleWaitList := new bool[MAX_HANDLES](_ => false);
      curHandleId := -1;
    }

    method JudgeHandleId(isWait: bool, handleId: int) returns (ok: bool)
      requires Valid()
      ensures ok == if isWait then CanWait(View(), handleId) else CanCommit(View(), handleId)
    {
      if handleId < 0 || handleId >= 1024 {
        return false;
      }
      if channelList[handleId] == 0 {
        return false;
      }
      if isWait {
        if !handleCommitList[handleId] {
          return false;
        }
        if handleWaitList[handleId] {
          return false;
        }
      } else {
        if handleCommitList[handleId] {
          return false;
        }
      }
      return true;
    }

    /** The backward loop: it may stop at the first marked handle of the channel because the marks are
        downward closed. */
    method MarkBackwards(marks: array<bool>, handleId: nat)
      requires handleId < channelList.Length == marks.Length
      requires DownwardClosed(channelList[..], marks[..])
      modifies marks
      ensures marks[..] == MarkedUpTo(channelList[..], old(marks[..]), handleId)
    {
      var channel := channelList[handleId];
      var i: int := handleId;
      while i >= 0
        invariant -1 <= i <= handleId
        invariant forall k | 0 <= k < marks.Length ::
                    marks[k] == (old(marks[k]) || (i < k <= handleId && channelList[k] == channel))
      {
        if channelList[i] == channel {
          if !marks[i] {
            marks[i] := true;
          } else {
            assert forall k | 0 <= k < i && channelList[..][k] == channelList[..][i] :: old(marks[..])[k];
            break;
          }
        }
        i := i - 1;
      }
    }

    method Commit(handleId: int) returns (ok: bool)
      requires Valid()
      modifies handleCommitList
      ensures Valid() && ok == old(CanCommit(View(), handleId))
      ensures View() == HT.Commit(old(View()), handleId)
    {
      CommitKeepsInv(View(), handleId);
      ok := JudgeHandleId(false, handleId);
      if !ok {
        return;
      }
      MarkBackwards(handleCommitList, handleId);
    }

    method Wait(handleId: int) returns (ok: bool)
      requires Valid()
      modifies handleWaitList
      ensures Valid() && ok == old(CanWait(View(), handleId))
      ensures View() == HT.Wait(old(View()), handleId)
    {
      WaitKeepsInv(View(), handleId);
      ok := JudgeHandleId(true, handleId);
      if !ok {
        return;
      }
      MarkBackwards(handleWaitList, handleId);
    }

    method Operate(channel: Channel, commit: bool) returns (handleId: int)
      requires Valid() && channel != 0 && curHandleId + 1 < MAX_HANDLES
      modifies this, channelList, handleCommitList
      ensures Valid() && handleId == old(curHandleId) + 1
      ensures View() == HT.Operate(old(View()), channel, commit)
    {
      StepKeepsInv(View(), OperateCall(channel, false));
      curHandleId := curHandleId + 1;
      handleId := curHandleId;
      channelList[handleId] := channel;
      assert View() == HT.Operate(old(View()), channel, false);
      if commit {
        var _ := Commit(handleId);
      }
    }
  }
}
