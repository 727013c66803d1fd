/**
  How the CCU client cuts a buffer into slices, one per rank, and encodes the size of a slice in four
  registers: whole loops, whole memory slices and a rest, with loop counts packed in 7-bit fields.
*/
module CcuSlicing {
  import opened Arithmetic
  import opened MachineWords

  const MEMSLICE_SIZE: nat := 4096
  const LOOP_COUNT: nat := 128
  const LOOP_COUNT_M2M_RE: nat := 16

  /** 64-bit wrap-around, for sums and differences. */
  function U64(x: int): (r: nat)
    ensures 0 <= x < 0x1_0000_0000_0000_0000 ==> r == x
  {
    x % 0x1_0000_0000_0000_0000
  }

  // ---------------------------------------------------------------------------------------------
  // The four registers
  // ---------------------------------------------------------------------------------------------

  const BIT_41: nat := 0x200_0000_0000
  const BIT_48: nat := 0x1_0000_0000_0000
  const BIT_55: nat := 0x80_0000_0000_0000

  /** Three 7-bit fields, moved up to bits 55, 48 and 41 and joined; all three stay below 2^62. */
  function GetParallelParameters(repeatNum: nat, repeatLoopIndex: nat, totalLoopNum: nat): nat {
    Or(Or(repeatNum % 128 * BIT_55, repeatLoopIndex % 128 * BIT_48), totalLoopNum % 128 * BIT_41)
  }

  function RepeatNum(w: nat): nat { w / BIT_55 % 128 }
  function RepeatLoopIndex(w: nat): nat { w / BIT_48 % 128 }
  function TotalLoopNum(w: nat): nat { w / BIT_41 % 128 }

  lemma ShiftAmounts() returns (k41: nat, k48: nat, k55: nat)
    ensures Pow2(k41) == BIT_41 && Pow2(k48) == BIT_48 && Pow2(k55) == BIT_55
  {
    var k7, k10, k20 := 7, 10, 20;
    assert Pow2(k7) == 128 && Pow2(k10) == 1024;
    Pow2Sum(k10, k10);
    Pow2Sum(k20, k20);
    k41 := k20 + k20 + 1;
    k48, k55 := k41 + k7, k41 + k7 + k7;
    Pow2Sum(k41, k7);
    Pow2Sum(k48, k7);
  }

  lemma OrIsSumOfFields(x: nat, y: nat, z: nat)
    requires x < 128 && y < 128 && z < 128
    ensures Or(Or(x * BIT_55, y * BIT_48), z * BIT_41) == ((x * 128 + y) * 128 + z) * BIT_41
  {
    var k41, k48, k55 := ShiftAmounts();
    OrIsSum(x, k55, y * BIT_48);
    assert x * BIT_55 + y * BIT_48 == (x * 128 + y) * BIT_48;
    OrIsSum(x * 128 + y, k48, z * BIT_41);
  }

  lemma FieldsOfSum(x: nat, y: nat, z: nat, w: nat)
    requires x < 128 && y < 128 && z < 128 && w == ((x * 128 + y) * 128 + z) * BIT_41
    ensures RepeatNum(w) == x && RepeatLoopIndex(w) == y && TotalLoopNum(w) == z
  {
    assert w / BIT_41 == (x * 128 + y) * 128 + z;
    assert w / BIT_48 == x * 128 + y;
    assert w / BIT_55 == x;
  }

  /** The fields do not overlap, so each reads back. */
  lemma FieldsAreDisjoint(a: nat, b: nat, c: nat)
    ensures var w := GetParallelParameters(a, b, c);
            && w == ((a % 128 * 128 + b % 128) * 128 + c % 128) * BIT_41
            && RepeatNum(w) == a % 128 && RepeatLoopIndex(w) == b % 128 && TotalLoopNum(w) == c % 128
  {
    OrIsSumOfFields(a % 128, b % 128, c % 128);
    FieldsOfSum(a % 128, b % 128, c % 128, GetParallelParameters(a, b, c));
  }

  /** size = m whole loops + n whole memory slices + p bytes. */
  datatype Parts = Parts(m: nat, n: nat, p: nat)

  function Split(size: nat, loopCount: nat, memslice: nat): Parts
    requires loopCount > 0 && memslice > 0
  {
    var loopSize := loopCount * memslice;
    Parts(size / loopSize, size % loopSize / memslice, size % loopSize % memslice)
  }

  /** The registers for a size, as CalcGoSize fills them. */
  datatype GoSize = GoSize(loopBytes: nat, loops: nat, parallel: nat, rest: nat)

  function Encode(s: Parts, loopSize: nat, memslice: nat): GoSize {
    GoSize(loopSize * s.m, s.m, Parallel(s.n, s.p),
           if s.n == 0 && s.p == 0 then 0 else if s.p == 0 then memslice else s.p)
  }

  /** Whole slices and a rest make two loop groups, one of them alone makes one; the repeat count is one
      less than the number of slices. */
  function Parallel(n: nat, p: nat): nat {
    var both := n != 0 && p != 0;
    if n == 0 && p == 0 then 0
    else GetParallelParameters(if n == 0 then 0 else n - 1, if both then 1 else 0, if both then 2 else 1)
  }

  function Words(size: nat, loopCount: nat, memslice: nat): GoSize
    requires loopCount > 0 && memslice > 0
  {
    Encode(Split(size, loopCount, memslice), loopCount * memslice, memslice)
  }

  /** Reading the registers: the total-loop field says which of n and p there are. */
  function Decode(w: GoSize, memslice: nat): Parts {
    var k := TotalLoopNum(w.parallel);
    if k == 0 then Parts(w.loops, 0, 0)
    else if k == 1 then
      if w.rest == memslice then Parts(w.loops, RepeatNum(w.parallel) + 1, 0) else Parts(w.loops, 0, w.rest)
    else Parts(w.loops, RepeatNum(w.parallel) + 1, w.rest)
  }

  function Bytes(s: Parts, loopCount: nat, memslice: nat): nat {
    s.m * (loopCount * memslice) + s.n * memslice + s.p
  }

  lemma SplitIsExact(size: nat, loopCount: nat, memslice: nat)
    requires loopCount > 0 && memslice > 0
    ensures var s := Split(size, loopCount, memslice);
            s.n < loopCount && s.p < memslice && Bytes(s, loopCount, memslice) == size
  {
    var loopSize := loopCount * memslice;
    var r := size % loopSize;
    assert r == r / memslice * memslice + r % memslice;
    assert size == size / loopSize * loopSize + r;
    MulOrder(r / memslice - loopCount, memslice);
    assert (r / memslice - loopCount) * memslice == r / memslice * memslice - loopSize;
  }

  /** What Decode reads from registers whose fields are known. */
  lemma DecodeFields(w: GoSize, s: Parts, memslice: nat)
    requires w.loops == s.m && s.p < memslice
    requires s.n == 0 && s.p == 0 ==> TotalLoopNum(w.parallel) == 0
    requires s.n != 0 && s.p == 0 ==>
               TotalLoopNum(w.parallel) == 1 && RepeatNum(w.parallel) == s.n - 1 && w.rest == memslice
    requires s.n == 0 && s.p != 0 ==> TotalLoopNum(w.parallel) == 1 && w.rest == s.p
    requires s.n != 0 && s.p != 0 ==> TotalLoopNum(w.parallel) == 2 && RepeatNum(w.parallel) == s.n - 1 && w.rest == s.p
    ensures Decode(w, memslice) == s
  {}

  lemma ParallelFields(n: nat, p: nat)
    requires n <= 128
    ensures var w := Parallel(n, p);
            && TotalLoopNum(w) == (if n == 0 && p == 0 then 0 else if n != 0 && p != 0 then 2 else 1)
            && RepeatLoopIndex(w) == (if n != 0 && p != 0 then 1 else 0)
            && RepeatNum(w) == (if n == 0 then 0 else n - 1) && OnlyFields(w)
  {
    var both := n != 0 && p != 0;
    SmallFields(if n == 0 then 0 else n - 1, if both then 1 else 0, if both then 2 else 1);
    if n == 0 && p == 0 {
      NoFields();
    }
  }

  /** The word has nothing but the three fields. */
  predicate OnlyFields(w: nat) { w == ((RepeatNum(w) * 128 + RepeatLoopIndex(w)) * 128 + TotalLoopNum(w)) * BIT_41 }

  lemma SmallFields(a: nat, b: nat, c: nat)
    requires a < 128 && b < 128 && c < 128
    ensures var w := GetParallelParameters(a, b, c);
            RepeatNum(w) == a && RepeatLoopIndex(w) == b && TotalLoopNum(w) == c && OnlyFields(w)
  {
    FieldsAreDisjoint(a, b, c);
  }

  lemma NoFields()
    ensures RepeatNum(0) == RepeatLoopIndex(0) == TotalLoopNum(0) == 0 && OnlyFields(0)
  {}

  lemma DecodeEncode(s: Parts, loopSize: nat, memslice: nat)
    requires s.n <= 128 && s.p < memslice
    ensures Decode(Encode(s, loopSize, memslice), memslice) == s
  {
    ParallelFields(s.n, s.p);
    DecodeFields(Encode(s, loopSize, memslice), s, memslice);
  }

  /** When r bytes hold whole slices and a rest. */
  lemma SliceCount(r: nat, memslice: nat)
    requires memslice > 0
    ensures r / memslice == 0 <==> r < memslice
    ensures r / memslice == 0 && r % memslice == 0 <==> r == 0
    ensures r / memslice != 0 && r % memslice != 0 <==> r > memslice && r % memslice != 0
  {
    assert r == r / memslice * memslice + r % memslice;
    MulOrder(r / memslice, memslice);
    if r <= memslice {
      QuotientIs(r, memslice, if r < memslice then 0 else 1, if r < memslice then r else 0);
    }
  }

  lemma EncodedFields(s: Parts, loopSize: nat, memslice: nat)
    requires s.n <= 128
    ensures var w := Encode(s, loopSize, memslice);
            && w.loopBytes == loopSize * s.m && w.loops == s.m
            && TotalLoopNum(w.parallel) == (if s.n == 0 && s.p == 0 then 0 else if s.n != 0 && s.p != 0 then 2 else 1)
            && RepeatLoopIndex(w.parallel) == (if s.n != 0 && s.p != 0 then 1 else 0)
            && RepeatNum(w.parallel) == (if s.n == 0 then 0 else s.n - 1) && OnlyFields(w.parallel)
            && w.rest == if s.n == 0 && s.p == 0 then 0 else if s.p == 0 then memslice else s.p
  {
    ParallelFields(s.n, s.p);
  }

  /** Every register and field, from the part r of the size that is left over by whole loops: the first two
      registers are the bytes and the number of whole loops; a whole slice and a rest make two loop groups,
      with the loop index set and the rest's bytes in the last register. */
  lemma RegistersAre(size: nat, loopCount: nat, memslice: nat)
    requires 0 < loopCount <= 129 && memslice > 0
    ensures var w, r := Words(size, loopCount, memslice), size % (loopCount * memslice);
            && w.loopBytes == size - r && w.loops == size / (loopCount * memslice)
            && TotalLoopNum(w.parallel)
               == (if r == 0 then 0 else if r > memslice && r % memslice != 0 then 2 else 1)
            && RepeatLoopIndex(w.parallel) == (if r > memslice && r % memslice != 0 then 1 else 0)
            && RepeatNum(w.parallel) == (if r < memslice then 0 else r / memslice - 1) && OnlyFields(w.parallel)
            && w.rest == if r == 0 then 0 else if r % memslice == 0 then memslice else r % memslice
  {
    var r, loopSize := size % (loopCount * memslice), loopCount * memslice;
    SplitIsExact(size, loopCount, memslice);
    EncodedFields(Split(size, loopCount, memslice), loopSize, memslice);
    SliceCount(r, memslice);
    LoopBytes(size, loopSize);
  }

  lemma LoopBytes(size: nat, loopSize: nat)
    requires loopSize > 0
    ensures loopSize * (size / loopSize) == size - size % loopSize
  {}

  /** With up to 129 loops the registers say what the size was. */
  lemma RegistersDecodeToSize(size: nat, loopCount: nat, memslice: nat)
    requires 0 < loopCount <= 129 && memslice > 0
    ensures var s := Decode(Words(size, loopCount, memslice), memslice);
            s.n < loopCount && s.p < memslice && Bytes(s, loopCount, memslice) == size
  {
    SplitIsExact(size, loopCount, memslice);
    DecodeEncode(Split(size, loopCount, memslice), loopCount * memslice, memslice);
  }

  predicate Lossless(loopCount: nat, memslice: nat, a: nat, b: nat)
    requires loopCount > 0 && memslice > 0
  {
    Words(a, loopCount, memslice) == Words(b, loopCount, memslice) ==> a == b
  }

  lemma SplitSlices(n: nat, loopCount: nat, memslice: nat)
    requires n < loopCount && memslice > 0
    ensures Split(n * memslice, loopCount, memslice) == Parts(0, n, 0)
  {
    MulStrict(n, loopCount, memslice);
    QuotientIs(n * memslice, loopCount * memslice, 0, n * memslice);
    QuotientIs(n * memslice, memslice, n, 0);
  }

  /** Two sizes never share the registers exactly when there are at most 129 loops; the source's loop
      counts are 8, 16 and 128. */
  lemma LosslessIff(loopCount: nat, memslice: nat)
    requires loopCount > 0 && memslice > 0
    ensures (forall a, b :: Lossless(loopCount, memslice, a, b)) <==> loopCount <= 129
  {
    if loopCount <= 129 {
      forall a, b ensures Lossless(loopCount, memslice, a, b) {
        RegistersDecodeToSize(a, loopCount, memslice);
        RegistersDecodeToSize(b, loopCount, memslice);
      }
    } else {
      SplitSlices(1, loopCount, memslice);
      SplitSlices(129, loopCount, memslice);
      assert !Lossless(loopCount, memslice, 1 * memslice, 129 * memslice);
    }
  }

  // ---------------------------------------------------------------------------------------------
  // AllReduce: equal slices, the last rank takes the remainder
  // ---------------------------------------------------------------------------------------------

  /** The buffer of `count` elements of `dataSize` bytes that `ranks` ranks share. */
  datatype Job = Job(ranks: nat, count: nat, dataSize: nat) {
    /** The sizes the code computes stay below 2^64. */
    predicate Fits() { ranks > 0 && dataSize > 0 && (count + ranks) * dataSize < 0x1_0000_0000_0000_0000 }

    predicate Valid() { Fits() && count > 0 }

    function Total(): nat { count * dataSize }
  }

  /** A cut of the buffer: where rank r's slice starts and how long it is. */
  type Cut = nat -> (nat, nat)

  /** Slices start at multiples of `size`; the first `full` are that long, the others `last`. */
  function CutOf(size: nat, full: nat, last: nat): Cut {
    (r: nat) => (Times(size, r), if r < full then size else last)
  }

  /** The slices follow one another and fill the buffer. */
  predicate Tiles(j: Job, cut: Cut)
    requires j.ranks > 0
  {
    && cut(0).0 == 0
    && (forall r: nat | r < j.ranks - 1 :: cut(r).0 + cut(r).1 == cut(r + 1).0)
    && cut(j.ranks - 1).0 + cut(j.ranks - 1).1 == j.Total()
  }

  function ReduceCut(j: Job): Cut
    requires j.Fits()
  {
    var each, last := j.count / j.ranks, j.ranks - 1;
    var size, lastSize := Times(each, j.dataSize), Times(U64(j.count - last * each), j.dataSize);
    CutOf(size, last, lastSize)
  }

  lemma CountFits(j: Job)
    requires j.Fits()
    ensures j.count < 0x1_0000_0000_0000_0000 && j.count + j.ranks < 0x1_0000_0000_0000_0000
    ensures j.Total() < 0x1_0000_0000_0000_0000
  {
    MulMonotone(j.count + j.ranks, 1, j.count + j.ranks, j.dataSize);
    MulMonotone(j.count, j.dataSize, j.count + j.ranks, j.dataSize);
  }

  lemma WithoutOne(count: nat, ranks: nat)
    requires ranks > 0
    ensures 0 <= count - (ranks - 1) * (count / ranks) <= count
  {
    var each := count / ranks;
    assert count == each * ranks + count % ranks;
    assert each * ranks == ranks * each;
    Succ(ranks, each);
    MulMonotone(0, 0, ranks - 1, each);
  }

  lemma LastReduceCount(j: Job)
    requires j.Fits()
    ensures var each, last := j.count / j.ranks, j.ranks - 1;
            last * each <= j.count && U64(j.count - last * each) == j.count - last * each
  {
    CountFits(j);
    WithoutOne(j.count, j.ranks);
  }

  /** The AllReduce slices tile the buffer. */
  lemma ReduceSlicesTile(j: Job)
    requires j.Fits()
    ensures Tiles(j, ReduceCut(j))
  {
    LastReduceCount(j);
    var each, cut, last := j.count / j.ranks, ReduceCut(j), j.ranks - 1;
    var step, lastCount := each * j.dataSize, j.count - last * each;
    forall r: nat | r < last ensures cut(r).0 + cut(r).1 == cut(r + 1).0 {
      Succ(r, step);
      assert cut(r) == (step * r, step) && cut(r + 1).0 == step * (r + 1);
    }
    assert cut(last).0 + cut(last).1 == j.Total() by {
      Distribute(last, each, lastCount, j.dataSize);
      assert cut(last) == (step * last, lastCount * j.dataSize);
      assert step * last == last * step;
    }
    assert cut(0).0 == 0;
  }

  /** Every rank's slice has count / ranks elements, and the last rank's also the elements left over. */
  lemma ReduceSliceIs(j: Job, r: nat)
    requires j.Fits() && r < j.ranks
    ensures var each := j.count / j.ranks;
            ReduceCut(j)(r) == (r * each * j.dataSize,
                                (if r < j.ranks - 1 then each else each + j.count % j.ranks) * j.dataSize)
  {
    var each, n := j.count / j.ranks, j.ranks;
    LastReduceCount(j);
    assert j.count == each * n + j.count % n;
    Succ(n, each);
    assert n * each == each * n;
    assert each * j.dataSize * r == r * each * j.dataSize;
  }

  // ---------------------------------------------------------------------------------------------
  // AllReduce over memory: rounded-up slices
  // ---------------------------------------------------------------------------------------------

  function NormalCount(j: Job): nat
    requires j.Valid()
  {
    (j.count + j.ranks - 1) / j.ranks
  }

  function NormalSize(j: Job): nat
    requires j.Valid()
  {
    Times(NormalCount(j), j.dataSize)
  }

  lemma NormalCountBounds(j: Job)
    requires j.Valid()
    ensures var c := NormalCount(j); c > 0 && (c - 1) * j.ranks < j.count <= c * j.ranks
  {
    var c, x := NormalCount(j), j.count + j.ranks - 1;
    assert x == x / j.ranks * j.ranks + x % j.ranks;
    assert (c - 1) * j.ranks == c * j.ranks - j.ranks;
    MulOrder(c, j.ranks);
  }

  /** How many ranks get a full slice. */
  function NormalRanks(j: Job): nat
    requires j.Valid()
  {
    NormalCountBounds(j);
    j.count / NormalCount(j)
  }

  function LastSize(j: Job): nat
    requires j.Valid()
  {
    if NormalRanks(j) == j.ranks then U64(j.Total() - (NormalRanks(j) - 1) * NormalSize(j))
    else U64(j.Total() - NormalRanks(j) * NormalSize(j))
  }

  /** Slice start and size as the registers 9 and 8 give them. */
  function MemoryCut(j: Job): Cut
    requires j.Valid()
  {
    CutOf(NormalSize(j), NormalRanks(j), LastSize(j))
  }

  /** The size that rank r's go-size registers encode. */
  function MemoryGoBytes(j: Job, r: nat): nat
    requires j.Valid()
  {
    if r == j.ranks - 1 then LastSize(j) else NormalSize(j)
  }

  lemma NormalRanksBounds(j: Job)
    requires j.Valid()
    ensures var c, k := NormalCount(j), NormalRanks(j);
            && c > 0 && k <= j.ranks && j.count == k * c + j.count % c
            && (k == j.ranks ==> j.count % c == 0)
  {
    NormalCountBounds(j);
    var c, k := NormalCount(j), NormalRanks(j);
    assert j.count == k * c + j.count % c;
    MulOrder(k - j.ranks, c);
    assert (k - j.ranks) * c == k * c - j.ranks * c;
  }

  /** k full slices of c elements and a rest, in bytes. */
  lemma FullAndRest(k: nat, c: nat, rest: nat, d: nat)
    requires rest < c && d > 0
    ensures var size := c * d;
            && (k * c + rest) * d - k * size == rest * d && 0 <= rest * d < size
            && (k * c + rest) * d - (k - 1) * size == rest * d + size
  {
    Distribute(k, c, rest, d);
    MulStrict(rest, c, d);
    MulMonotone(0, 0, rest, d);
    Succ(k, c * d);
  }

  lemma MemorySizes(j: Job)
    requires j.Valid()
    ensures NormalRanks(j) <= j.ranks && NormalSize(j) > 0
    ensures NormalRanks(j) == j.ranks ==> LastSize(j) == NormalSize(j) && j.Total() == j.ranks * NormalSize(j)
    ensures NormalRanks(j) < j.ranks ==>
              LastSize(j) < NormalSize(j) && j.Total() == NormalRanks(j) * NormalSize(j) + LastSize(j)
  {
    NormalRanksBounds(j);
    CountFits(j);
    var c, k := NormalCount(j), NormalRanks(j);
    FullAndRest(k, c, j.count % c, j.dataSize);
    assert j.Total() == (k * c + j.count % c) * j.dataSize;
    assert j.count % c == 0 ==> j.count % c * j.dataSize == 0;
    FullSizeFits(j);
  }

  lemma FullSizeFits(j: Job)
    requires j.Valid()
    ensures NormalSize(j) < 0x1_0000_0000_0000_0000
  {
    NormalCountBounds(j);
    var c := NormalCount(j);
    CountFits(j);
    MulMonotone(c - 1, 1, c - 1, j.ranks);
    MulMonotone(c, j.dataSize, j.count, j.dataSize);
  }

  /** The bytes of the slices of the first n ranks. */
  function SumSizes(cut: Cut, n: nat): nat {
    if n == 0 then 0 else SumSizes(cut, n - 1) + cut(n - 1).1
  }

  lemma {:induction false} SumUpTo(j: Job, n: nat)
    requires j.Valid()
    ensures var k := NormalRanks(j);
            SumSizes(MemoryCut(j), n) == if n <= k then n * NormalSize(j) else k * NormalSize(j) + (n - k) * LastSize(j)
  {
    if n > 0 {
      SumUpTo(j, n - 1);
      var k := NormalRanks(j);
      Succ(n, NormalSize(j));
      Succ(n - k, LastSize(j));
    }
  }

  /** Every rank after the first unfilled one repeats the last slice, so the sizes add up to too much. */
  lemma MemorySizesSum(j: Job)
    requires j.Valid()
    ensures var k := NormalRanks(j);
            SumSizes(MemoryCut(j), j.ranks) == j.Total() + if k < j.ranks then (j.ranks - k - 1) * LastSize(j) else 0
  {
    MemorySizes(j);
    SumUpTo(j, j.ranks);
    Succ(j.ranks - NormalRanks(j), LastSize(j));
  }

  /** All ranks but the last get a full slice; the caller can compute it from count and rank number. */
  predicate OneShortSlice(j: Job)
    requires j.Valid()
  {
    NormalRanks(j) >= j.ranks - 1
  }

  lemma SliceAt(j: Job, r: nat)
    requires j.Valid()
    ensures MemoryCut(j)(r) == (r * NormalSize(j), if r < NormalRanks(j) then NormalSize(j) else LastSize(j))
    ensures MemoryCut(j)(r + 1).0 == r * NormalSize(j) + NormalSize(j)
  {
    Succ(r, NormalSize(j));
    assert NormalSize(j) * r == r * NormalSize(j) && NormalSize(j) * (r + 1) == (r + 1) * NormalSize(j);
  }

  /** With c the least number of elements of which every rank having c would cover the buffer: slices start c
      elements apart; the first count / c ranks have c, every later one what is left over, again and again. */
  lemma MemorySliceIs(j: Job, r: nat)
    requires j.Valid() && r < j.ranks
    ensures var c := NormalCount(j);
            && c > 0 && (c - 1) * j.ranks < j.count <= c * j.ranks
            && MemoryCut(j)(r) == (r * (c * j.dataSize), (if r < j.count / c then c else j.count % c) * j.dataSize)
  {
    NormalCountBounds(j);
    NormalRanksBounds(j);
    MemorySizes(j);
    SliceAt(j, r);
    var c, k := NormalCount(j), NormalRanks(j);
    FullAndRest(k, c, j.count % c, j.dataSize);
  }

  lemma LastSliceEnds(j: Job)
    requires j.Valid() && OneShortSlice(j)
    ensures MemoryCut(j)(j.ranks - 1).0 + MemoryCut(j)(j.ranks - 1).1 == j.Total()
  {
    MemorySizes(j);
    SliceAt(j, j.ranks - 1);
    Succ(j.ranks, NormalSize(j));
  }

  lemma MemorySlicesTile(j: Job)
    requires j.Valid() && OneShortSlice(j)
    ensures Tiles(j, MemoryCut(j))
  {
    var cut := MemoryCut(j);
    SliceAt(j, 0);
    forall r: nat | r < j.ranks - 1 ensures cut(r).0 + cut(r).1 == cut(r + 1).0 {
      SliceAt(j, r);
    }
    LastSliceEnds(j);
  }

  /** The slices tile the buffer exactly when at most one rank is short. */
  lemma MemorySlicesTileIff(j: Job)
    requires j.Valid()
    ensures Tiles(j, MemoryCut(j)) <==> OneShortSlice(j)
  {
    if OneShortSlice(j) {
      MemorySlicesTile(j);
    } else {
      var k, cut := NormalRanks(j), MemoryCut(j);
      MemorySizes(j);
      SliceAt(j, k);
      assert cut(k).0 + cut(k).1 != cut(k + 1).0;
    }
  }

  predicate WithinBuffer(j: Job, cut: Cut) {
    forall r: nat | r < j.ranks :: cut(r).1 == 0 || cut(r).0 + cut(r).1 <= j.Total()
  }

  /** No rank reaches past the end of the buffer exactly when at most one rank is short or the short slices
      are empty. */
  lemma MemorySlicesInBoundsIff(j: Job)
    requires j.Valid()
    ensures WithinBuffer(j, MemoryCut(j)) <==> OneShortSlice(j) || LastSize(j) == 0
  {
    MemorySizes(j);
    if OneShortSlice(j) || LastSize(j) == 0 {
      var cut := MemoryCut(j);
      forall r: nat | r < j.ranks ensures cut(r).1 == 0 || cut(r).0 + cut(r).1 <= j.Total() {
        SliceInBounds(j, r);
      }
    } else {
      SliceOutOfBounds(j);
      assert NormalRanks(j) + 1 < j.ranks;
    }
  }

  lemma SliceOutOfBounds(j: Job)
    requires j.Valid() && !OneShortSlice(j) && LastSize(j) > 0
    ensures var cut, r := MemoryCut(j), NormalRanks(j) + 1; cut(r).1 > 0 && cut(r).0 + cut(r).1 > j.Total()
  {
    MemorySizes(j);
    SliceAt(j, NormalRanks(j));
  }

  lemma SliceInBounds(j: Job, r: nat)
    requires j.Valid() && r < j.ranks && (r <= NormalRanks(j) || LastSize(j) == 0)
    ensures MemoryCut(j)(r).1 == 0 || MemoryCut(j)(r).0 + MemoryCut(j)(r).1 <= j.Total()
  {
    MemorySizes(j);
    var k, size := NormalRanks(j), NormalSize(j);
    if r < k {
      Succ(r, size);
      MulMonotone(r + 1, size, k, size);
    }
  }

  predicate GoSizesAgree(j: Job)
    requires j.Valid()
  {
    forall r: nat | r < j.ranks :: MemoryGoBytes(j, r) == MemoryCut(j)(r).1
  }

  /** The go-size registers and register 8 give the same size on every rank exactly when at most one rank is
      short. */
  lemma MemoryGoSizesAgreeIff(j: Job)
    requires j.Valid()
    ensures GoSizesAgree(j) <==> OneShortSlice(j)
  {
    MemorySizes(j);
    if !OneShortSlice(j) {
      var k := NormalRanks(j);
      assert MemoryGoBytes(j, k) != MemoryCut(j)(k).1;
    }
  }

  /** Five one-byte elements on four ranks: the slices are 2, 2, 1 and 1 bytes, and rank 3's starts at 6. */
  lemma FiveElementsOnFourRanks()
    ensures var j := Job(4, 5, 1);
            && j.Valid() && !OneShortSlice(j) && MemoryCut(j)(2) == (4, 1) && MemoryCut(j)(3) == (6, 1)
            && !WithinBuffer(j, MemoryCut(j))
  {
    var j := Job(4, 5, 1);
    MemorySliceIs(j, 2);
    MemorySliceIs(j, 3);
    MemorySlicesInBoundsIff(j);
  }

  /** The elements rank r counts as its own; on the last rank an unsigned difference. */
  function OwnCount(j: Job, rank: nat): nat
    requires j.Valid()
  {
    if rank == j.ranks - 1 then U64(j.count - (j.ranks - 1) * NormalCount(j)) else NormalCount(j)
  }

  /** Registers 4 and 5: the source multiplies the rank by the size of its own slice. */
  function RankSliceOffset(j: Job, rank: nat, strideCount: nat): nat
    requires j.Valid()
  {
    U64(rank * (if strideCount == 0 then U64(OwnCount(j, rank) * j.dataSize) else strideCount * j.dataSize))
  }

  /** How many elements all ranks' full slices together have more than the buffer. */
  function Shortage(j: Job): nat
    requires j.Valid()
  {
    NormalCountBounds(j);
    NormalCount(j) * j.ranks - j.count
  }

  lemma WholeRounds(x: int, k: int)
    ensures U64(x + k * 0x1_0000_0000_0000_0000) == U64(x)
  {}

  /** In a product, a factor may be wrapped first. */
  lemma WrapFactor(a: nat, x: int)
    ensures U64(a * U64(x)) == U64(a * x)
  {
    var k := x / 0x1_0000_0000_0000_0000;
    assert x == U64(x) + k * 0x1_0000_0000_0000_0000;
    assert a * x == a * U64(x) + a * k * 0x1_0000_0000_0000_0000 by {
      Distribute(k, 0x1_0000_0000_0000_0000, U64(x), a);
      assert k * (0x1_0000_0000_0000_0000 * a) == a * k * 0x1_0000_0000_0000_0000;
    }
    WholeRounds(a * U64(x), a * k);
  }

  lemma WrapTwice(a: nat, d: nat, x: int)
    ensures U64(a * U64(U64(x) * d)) == U64(a * (x * d))
  {
    WrapFactor(d, x);
    assert d * U64(x) == U64(x) * d && d * x == x * d;
    WrapFactor(a, x * d);
  }

  /** The last rank's own count is short by Shortage; on other ranks there is nothing to wrap. */
  lemma OwnCountIs(j: Job, rank: nat)
    requires j.Valid() && rank < j.ranks
    ensures OwnCount(j, rank) == U64(NormalCount(j) - if rank == j.ranks - 1 then Shortage(j) else 0)
  {
    var c, n := NormalCount(j), j.ranks;
    assert (n - 1) * c == c * n - c;
    FullSizeFits(j);
    MulMonotone(c, 1, c, j.dataSize);
  }

  lemma FullSlicesFit(count: nat, n: nat, c: nat, d: nat)
    requires c * n < count + n
    ensures n * (c * d) <= (count + n) * d
  {
    MulMonotone(c * n, d, count + n, d);
    assert (c * n) * d == n * (c * d);
  }

  lemma StartFits(j: Job, rank: nat)
    requires j.Valid() && rank < j.ranks
    ensures MemoryCut(j)(rank).0 == rank * NormalSize(j) < 0x1_0000_0000_0000_0000
  {
    var c, n := NormalCount(j), j.ranks;
    SliceAt(j, rank);
    NormalCountBounds(j);
    Succ(c, n);
    FullSlicesFit(j.count, n, c, j.dataSize);
    MulMonotone(rank, NormalSize(j), n, NormalSize(j));
  }

  /** Registers 4 and 5 miss the start of the rank's slice by the rank times the shortage, on the last rank. */
  function Missing(j: Job, rank: nat): nat
    requires j.Valid()
  {
    if rank == j.ranks - 1 then rank * (Shortage(j) * j.dataSize) else 0
  }

  lemma ScaledDifference(r: int, c: int, s: int, d: int)
    ensures r * ((c - s) * d) == r * (c * d) - r * (s * d)
  {
    assert (c - s) * d == c * d - s * d;
    Subtract(r, c * d, s * d);
  }

  lemma Subtract(r: int, x: int, y: int)
    ensures r * (x - y) == r * x - r * y
  {}

  lemma RankSliceOffsetIs(j: Job, rank: nat)
    requires j.Valid() && rank < j.ranks
    ensures RankSliceOffset(j, rank, 0) == U64(MemoryCut(j)(rank).0 - Missing(j, rank))
  {
    var c, d := NormalCount(j), j.dataSize;
    var short := if rank == j.ranks - 1 then Shortage(j) else 0;
    OwnCountIs(j, rank);
    WrapTwice(rank, d, c - short);
    StartFits(j, rank);
    ScaledDifference(rank, c, short, d);
    assert Missing(j, rank) == rank * (short * d);
  }

  lemma WrapsBackIff(x: nat, y: nat)
    requires x < 0x1_0000_0000_0000_0000
    ensures U64(x - y) == x <==> U64(y) == 0
  {}

  /** They hold the start exactly when the miss is a whole multiple of 2^64. */
  lemma RankSliceOffsetIsStart(j: Job, rank: nat)
    requires j.Valid() && rank < j.ranks
    ensures RankSliceOffset(j, rank, 0) == MemoryCut(j)(rank).0 <==> U64(Missing(j, rank)) == 0
  {
    RankSliceOffsetIs(j, rank);
    StartFits(j, rank);
    WrapsBackIff(MemoryCut(j)(rank).0, Missing(j, rank));
  }

  lemma ShortageIsZeroIff(j: Job)
    requires j.Valid()
    ensures Shortage(j) == 0 <==> LastSize(j) == NormalSize(j)
  {
    var c, n := NormalCount(j), j.ranks;
    NormalRanksBounds(j);
    MemorySizes(j);
    assert c * n == n * c;
    if Shortage(j) == 0 {
      QuotientIs(j.count, c, n, 0);
    }
  }

  lemma ShortageBelowRanks(j: Job)
    requires j.Valid()
    ensures Shortage(j) < j.ranks
  {
    NormalCountBounds(j);
    Succ(NormalCount(j), j.ranks);
  }

  /** With ranks * ranks elements below 2^64 bytes: except on a last rank whose slice is short. */
  lemma RankSliceOffsetIsStartIff(j: Job, rank: nat)
    requires j.Valid() && rank < j.ranks && j.ranks * j.ranks * j.dataSize < 0x1_0000_0000_0000_0000
    ensures RankSliceOffset(j, rank, 0) == MemoryCut(j)(rank).0 <==>
            rank < j.ranks - 1 || rank == 0 || LastSize(j) == NormalSize(j)
  {
    RankSliceOffsetIsStart(j, rank);
    ShortageIsZeroIff(j);
    ShortageBelowRanks(j);
    ProductBelow(rank, Shortage(j), j.dataSize, j.ranks);
  }

  lemma ProductBelow(r: nat, s: nat, d: nat, n: nat)
    requires r < n && s < n && d > 0
    ensures r * (s * d) <= n * n * d && (r * (s * d) == 0 <==> r == 0 || s == 0)
  {
    MulMonotone(s, d, n, d);
    MulMonotone(r, s * d, n, n * d);
    assert n * (n * d) == n * n * d;
    if r > 0 && s > 0 {
      MulMonotone(1, 1, s, d);
      MulMonotone(1, 1, r, s * d);
    }
  }

  /** On the ranks of FiveElementsOnFourRanks the last one's registers 4 and 5 wrap: 2^64 - 3 instead of 6. */
  lemma LastOffsetWraps()
    ensures var j := Job(4, 5, 1);
            j.Valid() && RankSliceOffset(j, 3, 0) == 0xFFFF_FFFF_FFFF_FFFD && MemoryCut(j)(3).0 == 6
  {
    RankSliceOffsetIs(Job(4, 5, 1), 3);
  }
}
