/**
  The client object: one entry per handle in each table.  Its methods move a handle's counters as
  AicpuModel's functions do and leave every other handle alone.
*/
module AicpuClient {
  import opened Common
  import opened AicpuModel

  const MAX_HANDLES: nat := 63
  const CMD_ALLTOALLV: uint8 := 8

  datatype TilingVersion = Deprecated | NewTiling | OnlineCompilation | ContextDecouple | Invalid

  class AicpuClient {
    const version: TilingVersion
    /** The step size in the AlltoAllV tiling data; -1 when no tiling data is set. */
    const tilingStepSize: int
    const rankId: nat
    const rankDim: nat
    const handleId2CurrSliceId: array<uint16>
    const handleIdCommitTurnCnt: array<uint16>
    const handleIdWaitCallNum: array<uint16>
    const handleIdRepeat: array<uint8>
    const handleId2CmdType: array<uint8>
    /** History: which handles were committed when prepared. */
    const early: array<bool>
    var curHandleId: int

    ghost predicate Valid()
      reads this, handleId2CurrSliceId, handleIdCommitTurnCnt, handleIdWaitCallNum
      reads handleIdRepeat, handleId2CmdType, early
    {
      && handleId2CurrSliceId.Length == handleIdCommitTurnCnt.Length == handleIdWaitCallNum.Length == MAX_HANDLES
      && handleIdRepeat.Length == handleId2CmdType.Length == early.Length == MAX_HANDLES
      && handleId2CurrSliceId != handleIdCommitTurnCnt && handleId2CurrSliceId != handleIdWaitCallNum
      && handleIdCommitTurnCnt != handleIdWaitCallNum && handleIdRepeat != handleId2CmdType
      && -1 <= curHandleId < MAX_HANDLES && -1 <= tilingStepSize < 256 && rankId < rankDim < 0x1_0000
      // A handle not yet prepared has no counts.
      && (forall h | curHandleId < h < MAX_HANDLES :: handleId2CurrSliceId[h] == 0)
      && (forall h | curHandleId < h < MAX_HANDLES :: handleIdCommitTurnCnt[h] == 0)
      && (forall h | curHandleId < h < MAX_HANDLES :: handleIdWaitCallNum[h] == 0)
      && (forall h | curHandleId < h < MAX_HANDLES :: handleIdRepeat[h] == 0)
    }

    /** Only a handle of a fine-grained AlltoAllV has a step size. */
    function GetStepSizeByHandle(h: nat): (stepSize: uint8)
      requires Valid() && h < MAX_HANDLES
      reads this, handleId2CurrSliceId, handleIdCommitTurnCnt, handleIdWaitCallNum
      reads handleIdRepeat, handleId2CmdType, early
      ensures stepSize > 0 <==>
              && version != Deprecated && version != Invalid
              && handleId2CmdType[h] == CMD_ALLTOALLV && tilingStepSize > 0
      ensures stepSize > 0 ==> stepSize == tilingStepSize
    {
      if !(version.NewTiling? || version.OnlineCompilation? || version.ContextDecouple?) then 0
      else if handleId2CmdType[h] != CMD_ALLTOALLV then 0
      else if tilingStepSize == -1 then 0
      else tilingStepSize
    }

    function GetStepCntsPerRepeatByHandle(h: nat): (steps: uint16)
      requires Valid() && h < MAX_HANDLES
      reads this, handleId2CurrSliceId, handleIdCommitTurnCnt, handleIdWaitCallNum
      reads handleIdRepeat, handleId2CmdType, early
      ensures 1 <= steps <= rankDim && steps == View(h).Steps()
    {
      if GetStepSizeByHandle(h) == 0 then 1 else rankDim
    }

    ghost function View(h: nat): Counters
      requires Valid() && h < MAX_HANDLES
      reads this, handleId2CurrSliceId, handleIdCommitTurnCnt, handleIdWaitCallNum
      reads handleIdRepeat, handleId2CmdType, early
    {
      Counters(handleIdRepeat[h], GetStepSizeByHandle(h), rankDim, early[h],
               handleIdCommitTurnCnt[h], handleIdWaitCallNum[h], handleId2CurrSliceId[h])
    }

    constructor (version: TilingVersion, tilingStepSize: int, rankId: nat, rankDim: nat)
      requires -1 <= tilingStepSize < 256 && rankId < rankDim < 0x1_0000
      ensures Valid() && curHandleId == -1 && this.version == version && this.tilingStepSize == tilingStepSize
      ensures this.rankId == rankId && this.rankDim == rankDim
      ensures fresh(handleId2CurrSliceId) && fresh(handleIdCommitTurnCnt) && fresh(handleIdWaitCallNum)
      ensures fresh(handleIdRepeat) && fresh(handleId2CmdType) && fresh(early)
    {
      this.version, this.tilingStepSize := version, tilingStepSize;
      this.rankId, this.rankDim := rankId, rankDim;
      handleId2CurrSliceId := new uint16[MAX_HANDLES](_ => 0);
      handleIdCommitTurnCnt := new uint16[MAX_HANDLES](_ => 0);
      handleIdWaitCallNum := new uint16[MAX_HANDLES](_ => 0);
      handleIdRepeat := new uint8[MAX_HANDLES](_ => 0);
      handleId2CmdType := new uint8[MAX_HANDLES](_ => 0);
      early := new bool[MAX_HANDLES](_ => false);
      curHandleId := -1;
    }

    method SetCommitTurnCnt(h: nat, turnCnt: nat)
      requires Valid() && h <= curHandleId
      modifies handleIdCommitTurnCnt
      ensures Valid()
      ensures View(h) == old(View(h)).(committed := U16(old(handleIdCommitTurnCnt[h]) as nat + turnCnt))
      ensures forall g | 0 <= g < MAX_HANDLES && g != h :: View(g) == old(View(g))
    {
      handleIdCommitTurnCnt[h] := U16(handleIdCommitTurnCnt[h] as nat + turnCnt);
    }

    method Prepare(cmdType: uint8, repeat: uint8, commit: bool) returns (handle: int)
      requires Valid() && curHandleId + 1 < MAX_HANDLES
      modifies this, handleIdCommitTurnCnt, handleIdRepeat, handleId2CmdType, early
      ensures Valid()
      ensures repeat == 0 ==> handle == -1 && curHandleId == old(curHandleId)
      ensures repeat > 0 ==> handle == curHandleId == old(curHandleId) + 1 && handleId2CmdType[handle] == cmdType
                             && View(handle) == AicpuModel.Prepare(repeat, GetStepSizeByHandle(handle), rankDim, commit)
      ensures forall g | 0 <= g < MAX_HANDLES && g != handle :: View(g) == old(View(g))
    {
      if repeat == 0 {
        return -1;
      }
      curHandleId := curHandleId + 1;
      var h := curHandleId;
      handleIdRepeat[h] := repeat;
      handleId2CmdType[h] := cmdType;
      early[h] := commit;
      if commit {
        SetCommitTurnCnt(h, repeat as nat * GetStepCntsPerRepeatByHandle(h) as nat);
      }
      return h;
    }

    method Commit(h: int)
      requires Valid()
      modifies handleIdCommitTurnCnt
      ensures Valid()
      ensures 0 <= h < MAX_HANDLES ==> View(h) == AicpuModel.Commit(old(View(h)))
      ensures forall g | 0 <= g < MAX_HANDLES && g != h :: View(g) == old(View(g))
    {
      if h <= -1 || h >= MAX_HANDLES {
        return;
      }
      var commitCnt := handleIdCommitTurnCnt[h];
      if commitCnt >= handleIdRepeat[h] as nat * GetStepCntsPerRepeatByHandle(h) as nat {
        return;
      }
      var stepSize := GetStepSizeByHandle(h);
      SetCommitTurnCnt(h, if stepSize == 0 then 1 else stepSize);
    }

    method Wait(h: int) returns (ok: bool)
      requires Valid()
      modifies handleIdWaitCallNum
      ensures Valid()
      ensures ok == (0 <= h < MAX_HANDLES && WaitAccepts(old(View(h))))
      ensures 0 <= h < MAX_HANDLES ==> View(h) == AicpuModel.Wait(old(View(h)))
      ensures forall g | 0 <= g < MAX_HANDLES && g != h :: View(g) == old(View(g))
    {
      if h <= -1 || h >= MAX_HANDLES {
        return false;
      }
      if handleIdWaitCallNum[h] >= handleIdCommitTurnCnt[h] {
        return false;
      }
      var stepSize := GetStepSizeByHandle(h);
      handleIdWaitCallNum[h] := U16(handleIdWaitCallNum[h] as nat + if stepSize == 0 then 1 else stepSize);
      return true;
    }

    /** One round of Iterate's loop: the peer of the current slice. */
    method NextPeer(h: nat, sync: bool) returns (peer: uint16)
      requires Valid() && h <= curHandleId && GetStepSizeByHandle(h) > 0
      modifies handleId2CurrSliceId, handleIdWaitCallNum
      ensures Valid() && View(h) == NextSlice(old(View(h)), sync)
      ensures peer == Peer(rankId, rankDim, sync, old(handleId2CurrSliceId[h]))
      ensures forall g | 0 <= g < MAX_HANDLES && g != h :: View(g) == old(View(g))
    {
      var slicesPerRepeat: nat := GetStepCntsPerRepeatByHandle(h);
      var curSlice: nat := handleId2CurrSliceId[h];
      if sync {
        if (curSlice + 1) % GetStepSizeByHandle(h) as nat == 0 {
          var _ := Wait(h);
        }
        peer := (rankId + rankDim - curSlice % slicesPerRepeat) % rankDim;
      } else {
        peer := (rankId + curSlice % slicesPerRepeat) % rankDim;
      }
      handleId2CurrSliceId[h] := U16(curSlice + 1);
    }

    /** Fills seqSlices with the peers of the next slices, waiting for whole steps on the way in sync mode. */
    method Iterate(h: nat, sync: bool, seqSlices: array<uint16>, seqSliceLen: nat) returns (len: nat)
      requires Valid() && h < MAX_HANDLES && GetStepSizeByHandle(h) > 0 && 0 < seqSliceLen <= seqSlices.Length
      requires seqSlices != handleId2CurrSliceId && seqSlices != handleIdCommitTurnCnt
      requires seqSlices != handleIdWaitCallNum
      modifies seqSlices, handleId2CurrSliceId, handleIdWaitCallNum
      ensures Valid() && View(h) == AicpuModel.Iterate(old(View(h)), sync, seqSliceLen)
      ensures forall g | 0 <= g < MAX_HANDLES && g != h :: View(g) == old(View(g))
      ensures len == if old(View(h).slice) >= old(View(h)).Total() then 0 else seqSliceLen
      ensures forall i | 0 <= i < len ::
                seqSlices[i] == Peer(rankId, rankDim, sync, U16(old(handleId2CurrSliceId[h]) as nat + i))
      ensures forall i | len <= i < seqSlices.Length :: seqSlices[i] == old(seqSlices[i])
    {
      var stepsPerRepeat := GetStepCntsPerRepeatByHandle(h);
      if handleId2CurrSliceId[h] >= handleIdRepeat[h] as nat * stepsPerRepeat as nat {
        return 0;
      }
      ghost var start := View(h);
      for i := 0 to seqSliceLen
        invariant Valid() && View(h).stepSize == start.stepSize
        invariant handleId2CurrSliceId[h] == U16(start.slice as nat + i)
        invariant Slices(View(h), sync, seqSliceLen - i) == Slices(start, sync, seqSliceLen)
        invariant forall g | 0 <= g < MAX_HANDLES && g != h :: View(g) == old(View(g))
        invariant forall j | 0 <= j < i :: seqSlices[j] == Peer(rankId, rankDim, sync, U16(start.slice as nat + j))
        invariant forall j | i <= j < seqSlices.Length :: seqSlices[j] == old(seqSlices[j])
      {
        U16Sum(start.slice as nat + i, 1);
        var peer := NextPeer(h, sync);
        label filled:
        seqSlices[i] := peer;
        assert forall g | 0 <= g < MAX_HANDLES :: View(g) == old@filled(View(g));
      }
      return seqSliceLen;
    }
  }
}
