/**
  Filling the registers of a CCU message.  Each method writes the register array in place; its contract
  says which slice the registers describe.
*/
module CcuPrepare {
  import opened Arithmetic
  import opened CcuSlicing

  const USED_XN_NUM: nat := 15

  class CcuPrepare {
    const rankNum: nat
    const rankId: nat
    const scratchAddr: nat
    const xnData: array<nat>
    var repeatIndex: nat

    constructor (rankNum: nat, rankId: nat, scratchAddr: nat)
      requires rankId < rankNum
      ensures Valid() && fresh(xnData)
      ensures this.rankNum == rankNum && this.rankId == rankId && this.scratchAddr == scratchAddr
    {
      this.rankNum, this.rankId, this.scratchAddr := rankNum, rankId, scratchAddr;
      xnData := new nat[USED_XN_NUM];
      repeatIndex := 0;
    }

    predicate Valid() {
      xnData.Length == USED_XN_NUM && rankId < rankNum
    }

    /** The four registers from `at` on. */
    ghost function Registers(at: nat): GoSize
      requires Valid() && at + 4 <= USED_XN_NUM
      reads xnData
    {
      GoSize(xnData[at], xnData[at + 1], xnData[at + 2], xnData[at + 3])
    }

    twostate predicate OnlyChanges(from: nat, to: nat)
      requires Valid()
      reads xnData
    {
      forall i | 0 <= i < USED_XN_NUM && !(from <= i < to) :: xnData[i] == old(xnData[i])
    }

    /** m whole loops, n whole memory slices and p bytes. */
    method Decompose(sliceSize: nat, loopCount: nat, memslice: nat) returns (m: nat, n: nat, p: nat)
      requires loopCount > 0 && memslice > 0
      ensures Parts(m, n, p) == Split(sliceSize, loopCount, memslice)
    {
      var loopSize := loopCount * memslice;
      m := sliceSize / loopSize;
      RemainderByQuotient(sliceSize, loopSize);
      n := (sliceSize - m * loopSize) / memslice;
      RemainderByQuotient(sliceSize - m * loopSize, memslice);
      p := sliceSize - m * loopSize - n * memslice;
    }

    method CalcGoSize(sliceSize: nat, loopCount: nat, memslice: nat, at: nat)
      requires Valid() && loopCount > 0 && memslice > 0 && at + 4 <= USED_XN_NUM
      modifies xnData
      ensures Registers(at) == Words(sliceSize, loopCount, memslice) && OnlyChanges(at, at + 4)
    {
      var loopSize := loopCount * memslice;
      var m, n, p := Decompose(sliceSize, loopCount, memslice);
      xnData[at] := loopSize * m;
      xnData[at + 1] := m;
      if n == 0 && p == 0 {
        xnData[at + 2] := 0;
        xnData[at + 3] := 0;
      } else if n != 0 && p == 0 {
        xnData[at + 2] := GetParallelParameters(n - 1, 0, 1);
        xnData[at + 3] := memslice;
      } else if n == 0 && p != 0 {
        xnData[at + 2] := GetParallelParameters(0, 0, 1);
        xnData[at + 3] := p;
      } else {
        xnData[at + 2] := GetParallelParameters(n - 1, 1, 2);
        xnData[at + 3] := p;
      }
    }

    method CalcLoopGroupParam(m: nat, n: nat, p: nat)
      requires Valid()
      modifies xnData
      ensures xnData[6] == Encode(Parts(m, n, p), 0, MEMSLICE_SIZE).parallel
      ensures xnData[7] == Encode(Parts(m, n, p), 0, MEMSLICE_SIZE).rest
      ensures OnlyChanges(6, 8)
    {
      if n == 0 && p == 0 {
        xnData[6] := 0;
        xnData[7] := 0;
      } else if n != 0 && p == 0 {
        xnData[6] := GetParallelParameters(n - 1, 0, 1);
        xnData[7] := MEMSLICE_SIZE;
      } else if n == 0 && p != 0 {
        xnData[6] := GetParallelParameters(0, 0, 1);
        xnData[7] := p;
      } else {
        xnData[6] := GetParallelParameters(n - 1, 1, 2);
        xnData[7] := p;
      }
    }

    /** The loop decomposition the callers of CalcLoopGroupParam write out themselves; registers 4 to 7 come
        out as CalcGoSize would fill them. */
    method LoopRegisters(sliceSize: nat)
      requires Valid()
      modifies xnData
      ensures Registers(4) == Words(sliceSize, LOOP_COUNT, MEMSLICE_SIZE) && OnlyChanges(4, 8)
    {
      var loopSize := LOOP_COUNT * MEMSLICE_SIZE;
      var m, n, p := Decompose(sliceSize, LOOP_COUNT, MEMSLICE_SIZE);
      xnData[4] := loopSize * m;
      xnData[5] := m;
      CalcLoopGroupParam(m, n, p);
    }

    /** Registers 0 to 2: the operation and the two buffers, moved on by the repeats already sent. */
    ghost predicate BuffersSet(opId: nat, sendBuf: nat, recvBuf: nat, count: nat, dataSize: nat)
      requires Valid()
      reads this, xnData
    {
      var offset := count * repeatIndex * dataSize;
      xnData[0] == opId && xnData[1] == U64(sendBuf + offset) && xnData[2] == U64(recvBuf + offset)
    }

    method SetBuffers(opId: nat, sendBuf: nat, recvBuf: nat, count: nat, dataSize: nat)
      requires Valid()
      modifies xnData
      ensures BuffersSet(opId, sendBuf, recvBuf, count, dataSize) && OnlyChanges(0, 3)
    {
      xnData[0] := opId;
      var offset := count * repeatIndex * dataSize;
      xnData[1] := U64(sendBuf + offset);
      xnData[2] := U64(recvBuf + offset);
    }

    /** This rank's slice of an AllReduce. */
    method ReduceSlice(count: nat, dataSize: nat) returns (offset: nat, size: nat)
      requires Valid() && Job(rankNum, count, dataSize).Fits()
      ensures (offset, size) == ReduceCut(Job(rankNum, count, dataSize))(rankId)
    {
      var tmpCount := count / rankNum;
      LastReduceCount(Job(rankNum, count, dataSize));
      var sliceCount := if rankId == rankNum - 1 then U64(count - (rankNum - 1) * tmpCount) else tmpCount;
      size := Times(sliceCount, dataSize);
      offset := Times(Times(tmpCount, dataSize), rankId);
    }

    method PrepareForAllReduce(opId: nat, sendBuf: nat, recvBuf: nat, count: nat, dataSize: nat, strideCount: nat)
      requires Valid() && Job(rankNum, count, dataSize).Fits()
      modifies xnData
      ensures BuffersSet(opId, sendBuf, recvBuf, count, dataSize)
      ensures var cut := ReduceCut(Job(rankNum, count, dataSize));
              && xnData[3] == (if strideCount == 0 then cut(rankId).0 else U64(strideCount * dataSize * rankId))
              && Registers(4) == Words(cut(rankId).1, LOOP_COUNT, MEMSLICE_SIZE)
      ensures OnlyChanges(0, 8)
    {
      SetBuffers(opId, sendBuf, recvBuf, count, dataSize);
      var offset, sliceSize := ReduceSlice(count, dataSize);
      xnData[3] := if strideCount == 0 then offset else U64(strideCount * dataSize * rankId);
      LoopRegisters(sliceSize);
    }

    /** Every rank gathers a whole buffer; ReduceScatter fills the registers the same way. */
    method PrepareForAllGather(opId: nat, sendBuf: nat, recvBuf: nat, count: nat, dataSize: nat, strideCount: nat)
      requires Valid() && Job(rankNum, count, dataSize).Fits()
      modifies xnData
      ensures BuffersSet(opId, sendBuf, recvBuf, count, dataSize)
      ensures xnData[3] == U64((if strideCount == 0 then count else strideCount) * dataSize * rankId)
      ensures Registers(4) == Words(count * dataSize, LOOP_COUNT, MEMSLICE_SIZE)
      ensures OnlyChanges(0, 8)
    {
      SetBuffers(opId, sendBuf, recvBuf, count, dataSize);
      var sliceSize := count * dataSize;
      xnData[3] := U64(if strideCount == 0 then sliceSize * rankId else strideCount * dataSize * rankId);
      LoopRegisters(sliceSize);
    }

    /** The rounded-up slice size, the last slice's size, and how many ranks get a full slice. */
    method MemorySlices(count: nat, dataSize: nat)
      returns (normalSliceSize: nat, lastSliceSize: nat, normalRankCount: nat)
      requires Valid() && Job(rankNum, count, dataSize).Valid()
      ensures var j := Job(rankNum, count, dataSize);
              normalSliceSize == NormalSize(j) && lastSliceSize == LastSize(j) && normalRankCount == NormalRanks(j)
    {
      NormalCountBounds(Job(rankNum, count, dataSize));
      var normalSliceCount := (count + rankNum - 1) / rankNum;
      normalSliceSize := normalSliceCount * dataSize;
      normalRankCount := count / normalSliceCount;
      if normalRankCount == rankNum {
        lastSliceSize := U64(count * dataSize - (normalRankCount - 1) * normalSliceSize);
      } else {
        lastSliceSize := U64(count * dataSize - normalRankCount * normalSliceSize);
      }
    }

    method OwnSliceOffset(count: nat, dataSize: nat, strideCount: nat) returns (rankSliceOffset: nat)
      requires Valid() && Job(rankNum, count, dataSize).Valid()
      ensures rankSliceOffset == RankSliceOffset(Job(rankNum, count, dataSize), rankId, strideCount)
      ensures strideCount > 0 ==> rankSliceOffset == U64(rankId * strideCount * dataSize)
    {
      assert rankId * (strideCount * dataSize) == rankId * strideCount * dataSize;
      var tmpCount := (count + rankNum - 1) / rankNum;
      var sliceCount := if rankId == rankNum - 1 then U64(count - (rankNum - 1) * tmpCount) else tmpCount;
      assert sliceCount == OwnCount(Job(rankNum, count, dataSize), rankId);
      var sliceSize := U64(sliceCount * dataSize);
      rankSliceOffset := U64(rankId * (if strideCount == 0 then sliceSize else strideCount * dataSize));
    }

    method SetMemorySlices(count: nat, dataSize: nat)
      requires Valid() && Job(rankNum, count, dataSize).Valid()
      modifies xnData
      ensures var j := Job(rankNum, count, dataSize);
              && xnData[6] == NormalSize(j) && xnData[7] == LastSize(j)
              && xnData[8] == MemoryCut(j)(rankId).1 && xnData[9] == MemoryCut(j)(rankId).0
      ensures OnlyChanges(6, 10)
    {
      var normalSliceSize, lastSliceSize, normalRankCount := MemorySlices(count, dataSize);
      xnData[6] := normalSliceSize;
      xnData[7] := lastSliceSize;
      xnData[8] := if rankId < normalRankCount then normalSliceSize else lastSliceSize;
      xnData[9] := rankId * normalSliceSize;
    }

    method PrepareForAllReduceM2M(opId: nat, sendBuf: nat, recvBuf: nat, count: nat, dataSize: nat, strideCount: nat)
      requires Valid() && Job(rankNum, count, dataSize).Valid()
      modifies xnData
      ensures BuffersSet(opId, sendBuf, recvBuf, count, dataSize)
      ensures var j := Job(rankNum, count, dataSize);
              && xnData[3] == scratchAddr && xnData[4] == xnData[5] == RankSliceOffset(j, rankId, strideCount)
              && (strideCount > 0 ==> xnData[4] == U64(rankId * strideCount * dataSize))
              && xnData[6] == NormalSize(j) && xnData[7] == LastSize(j)
              && xnData[8] == MemoryCut(j)(rankId).1 && xnData[9] == MemoryCut(j)(rankId).0 && xnData[10] == 0
              && Registers(11) == Words(MemoryGoBytes(j, rankId), LOOP_COUNT_M2M_RE, MEMSLICE_SIZE)
    {
      SetBuffers(opId, sendBuf, recvBuf, count, dataSize);
      xnData[3] := scratchAddr;
      var rankSliceOffset := OwnSliceOffset(count, dataSize, strideCount);
      xnData[4] := rankSliceOffset;
      xnData[5] := rankSliceOffset;
      SetMemorySlices(count, dataSize);
      xnData[10] := 0;
      if rankId == rankNum - 1 {
        CalcGoSize(xnData[7], LOOP_COUNT_M2M_RE, MEMSLICE_SIZE, 11);
      } else {
        CalcGoSize(xnData[6], LOOP_COUNT_M2M_RE, MEMSLICE_SIZE, 11);
      }
    }
  }
}
