/**
  The counters an AICPU client keeps for one handle, and the pairwise schedule of a fine-grained
  AlltoAllV.  With stepSize 0 a task is one step; otherwise it is one step per rank, and Commit and Wait
  move by stepSize steps.
*/
module AicpuModel {
  import opened Common
  import opened Arithmetic

  function U16(x: nat): (r: uint16)
    ensures x < 0x1_0000 ==> r == x
  {
    x % 0x1_0000
  }

  lemma U16Sum(x: nat, y: nat)
    ensures U16(U16(x) as nat + y) == U16(x + y)
  {}

  /** `early` records whether the handle was committed when prepared. */
  datatype Counters = Counters(repeat: uint8, stepSize: uint8, rankDim: nat, early: bool,
                               committed: uint16, waited: uint16, slice: uint16)
  {
    function Unit(): (u: nat)
      ensures 1 <= u <= 255
    {
      if stepSize == 0 then 1 else stepSize
    }

    function Steps(): uint16 { if stepSize == 0 then 1 else U16(rankDim) }

    function Total(): nat { repeat as nat * Steps() as nat }
  }

  function Prepare(repeat: uint8, stepSize: uint8, rankDim: nat, commit: bool): Counters {
    var c := Counters(repeat, stepSize, rankDim, commit, 0, 0, 0);
    if commit then c.(committed := U16(c.Total())) else c
  }

  function Commit(c: Counters): Counters {
    if c.committed >= c.Total() then c else c.(committed := U16(c.committed as nat + c.Unit()))
  }

  predicate WaitAccepts(c: Counters) { c.waited < c.committed }

  function Wait(c: Counters): Counters {
    if WaitAccepts(c) then c.(waited := U16(c.waited as nat + c.Unit())) else c
  }

  /** One slice of Iterate; in sync mode the last slice of a step waits for the step. */
  function NextSlice(c: Counters, sync: bool): Counters
    requires c.stepSize > 0
  {
    var w := if sync && (c.slice as nat + 1) % c.Unit() == 0 then Wait(c) else c;
    w.(slice := U16(c.slice as nat + 1))
  }

  function Slices(c: Counters, sync: bool, len: nat): (r: Counters)
    requires c.stepSize > 0
    ensures Fixed(c, r)
    decreases len
  {
    if len == 0 then c else Slices(NextSlice(c, sync), sync, len - 1)
  }

  function Iterate(c: Counters, sync: bool, len: nat): Counters
    requires c.stepSize > 0
  {
    if c.slice >= c.Total() then c else Slices(c, sync, len)
  }

  datatype Op = CommitOp | WaitOp | IterateOp(sync: bool, len: nat)

  function Step(c: Counters, op: Op): Counters
    requires op.IterateOp? ==> c.stepSize > 0
  {
    match op
    case CommitOp => Commit(c)
    case WaitOp => Wait(c)
    case IterateOp(sync, len) => Iterate(c, sync, len)
  }

  /** Iterate is only for fine-grained handles. */
  predicate IsRun(c: Counters, ops: seq<Op>)
    decreases |ops|
  {
    ops == [] || ((ops[0].IterateOp? ==> c.stepSize > 0) && IsRun(Step(c, ops[0]), ops[1..]))
  }

  function Run(c: Counters, ops: seq<Op>): Counters
    requires IsRun(c, ops)
    decreases |ops|
  {
    if ops == [] then c else Run(Step(c, ops[0]), ops[1..])
  }

  // ---------------------------------------------------------------------------------------------
  // The counters over every run
  // ---------------------------------------------------------------------------------------------

  predicate Fixed(c: Counters, d: Counters) {
    c.repeat == d.repeat && c.stepSize == d.stepSize && c.rankDim == d.rankDim && c.early == d.early
  }

  predicate Inv(c: Counters) {
    && c.Total() <= 65280
    && (if c.early then c.committed == c.Total() else c.committed % c.Unit() == 0)
    && c.committed < c.Total() + c.Unit()
    && c.waited % c.Unit() == 0 && c.waited < c.committed as int + c.Unit()
  }

  /** Handles whose commits are always whole multiples of a Wait's step count. */
  predicate Aligned(c: Counters) { c.early ==> c.Total() % c.Unit() == 0 }

  /** For up to 256 ranks a repeat has at least one step, and neither the 16-bit step count of a repeat nor
      the 16-bit count that Prepare commits loses anything. */
  lemma StepsFit(c: Counters)
    requires 0 < c.rankDim <= 256
    ensures c.Steps() == (if c.stepSize == 0 then 1 else c.rankDim) && c.repeat <= c.Total()
    ensures U16(c.Total()) == c.Total() <= 65280
  {
    MulMonotone(c.repeat, 1, c.repeat, c.Steps());
    MulMonotone(c.repeat, c.Steps(), 255, 256);
  }

  lemma PrepareInv(repeat: uint8, stepSize: uint8, rankDim: nat, commit: bool)
    requires rankDim <= 256
    ensures Inv(Prepare(repeat, stepSize, rankDim, commit))
  {
    var c := Prepare(repeat, stepSize, rankDim, commit);
    MulMonotone(repeat, c.Steps(), 255, 256);
    assert 0 % c.Unit() == 0;
  }

  /** Under the invariant the 16-bit sums do not wrap. */
  lemma WaitKeepsInv(c: Counters)
    requires Inv(c)
    ensures Inv(Wait(c)) && Fixed(c, Wait(c))
    ensures WaitAccepts(c) ==> Wait(c).waited == c.waited as int + c.Unit()
  {
    if WaitAccepts(c) {
      SameResidue(c.waited, c.Unit(), c.Unit());
      if !c.early {
        MultiplesApart(c.waited, c.committed, c.Unit());
      }
    }
  }

  lemma CommitKeepsInv(c: Counters)
    requires Inv(c)
    ensures Inv(Commit(c)) && Fixed(c, Commit(c))
    ensures Commit(c).committed == c.committed as int + if c.committed >= c.Total() then 0 else c.Unit()
  {
    if c.committed < c.Total() {
      SameResidue(c.committed, c.Unit(), c.Unit());
    }
  }

  lemma {:induction false} SlicesKeepInv(c: Counters, sync: bool, len: nat)
    requires Inv(c) && c.stepSize > 0
    ensures Inv(Slices(c, sync, len)) && Fixed(c, Slices(c, sync, len))
    decreases len
  {
    if len > 0 {
      WaitKeepsInv(c);
      SlicesKeepInv(NextSlice(c, sync), sync, len - 1);
    }
  }

  lemma {:induction false} RunKeepsInv(c: Counters, ops: seq<Op>)
    requires Inv(c) && IsRun(c, ops)
    ensures Inv(Run(c, ops)) && Fixed(c, Run(c, ops))
    decreases |ops|
  {
    if ops != [] {
      match ops[0] {
        case CommitOp => CommitKeepsInv(c);
        case WaitOp => WaitKeepsInv(c);
        case IterateOp(sync, len) => SlicesKeepInv(c, sync, len);
      }
      RunKeepsInv(Step(c, ops[0]), ops[1..]);
    }
  }

  /** In every run of a handle of up to 256 ranks: commits exceed its steps by less than one unit,
      waits exceed commits by less than one unit, and the next Commit or Wait does not wrap its 16-bit
      counter. */
  lemma CountersStayInRange(repeat: uint8, stepSize: uint8, rankDim: nat, commit: bool, ops: seq<Op>)
    requires rankDim <= 256
    requires var c := Prepare(repeat, stepSize, rankDim, commit); IsRun(c, ops)
    ensures var c := Prepare(repeat, stepSize, rankDim, commit);
            var r := Run(c, ops);
            && r.committed < c.Total() + c.Unit() && r.waited < r.committed as int + c.Unit()
            && (r.committed < c.Total() ==> Commit(r).committed == r.committed as int + c.Unit())
            && (WaitAccepts(r) ==> Wait(r).waited == r.waited as int + c.Unit())
  {
    PrepareInv(repeat, stepSize, rankDim, commit);
    var c := Prepare(repeat, stepSize, rankDim, commit);
    RunKeepsInv(c, ops);
    WaitKeepsInv(Run(c, ops));
    CommitKeepsInv(Run(c, ops));
  }

  lemma AlignedWaitsWithinCommits(c: Counters)
    requires Inv(c) && Aligned(c)
    ensures c.waited <= c.committed
  {
    if c.waited > c.committed {
      MultiplesApart(c.committed, c.waited, c.Unit());
    }
  }

  function Waits(n: nat): (ops: seq<Op>) { seq(n, _ => WaitOp) }

  lemma {:induction false} WaitsAccumulate(c: Counters, n: nat)
    requires Inv(c) && (n > 0 ==> c.waited as int + (n - 1) * c.Unit() < c.committed)
    ensures IsRun(c, Waits(n)) && Run(c, Waits(n)).waited == c.waited as int + n * c.Unit()
    ensures Run(c, Waits(n)).committed == c.committed
    decreases n
  {
    if n > 0 {
      assert (n - 1) * c.Unit() >= 0 by { MulMonotone(0, 0, n - 1, c.Unit()); }
      assert n * c.Unit() == (n - 1) * c.Unit() + c.Unit();
      if n > 1 {
        assert (n - 1) * c.Unit() == (n - 2) * c.Unit() + c.Unit();
      }
      WaitKeepsInv(c);
      assert Waits(n)[1..] == Waits(n - 1);
      WaitsAccumulate(Wait(c), n - 1);
    }
  }

  /** A Wait asks the server for no more steps than were committed, in every run, exactly when the handle
      was not committed at Prepare or its steps are a multiple of stepSize.  Otherwise the last Wait asks
      for steps nobody will commit. */
  lemma WaitsWithinCommitsIff(repeat: uint8, stepSize: uint8, rankDim: nat, commit: bool)
    requires rankDim <= 256
    ensures var c := Prepare(repeat, stepSize, rankDim, commit);
            (forall ops | IsRun(c, ops) :: Run(c, ops).waited <= Run(c, ops).committed)
            <==> (commit ==> c.Total() % c.Unit() == 0)
  {
    var c := Prepare(repeat, stepSize, rankDim, commit);
    PrepareInv(repeat, stepSize, rankDim, commit);
    if commit ==> c.Total() % c.Unit() == 0 {
      forall ops | IsRun(c, ops) ensures Run(c, ops).waited <= Run(c, ops).committed {
        RunKeepsInv(c, ops);
        AlignedWaitsWithinCommits(Run(c, ops));
      }
    } else {
      var k := CoveringWaits(c.Total(), c.Unit());
      WaitsAccumulate(c, k);
      assert Run(c, Waits(k)).waited > Run(c, Waits(k)).committed;
    }
  }

  function Commits(n: nat): (ops: seq<Op>) { seq(n, _ => CommitOp) }

  /** Commits of a handle that was not committed at Prepare. */
  lemma {:induction false} CommitsAccumulate(c: Counters, n: nat)
    requires Inv(c) && (n > 0 ==> c.committed as int + (n - 1) * c.Unit() < c.Total())
    ensures IsRun(c, Commits(n))
    ensures var r := Run(c, Commits(n));
            && Inv(r) && Fixed(c, r) && r.committed == c.committed as int + n * c.Unit() && r.waited == c.waited
    decreases n
  {
    if n > 0 {
      assert (n - 1) * c.Unit() >= 0 by { MulMonotone(0, 0, n - 1, c.Unit()); }
      assert n * c.Unit() == (n - 1) * c.Unit() + c.Unit();
      if n > 1 {
        assert (n - 1) * c.Unit() == (n - 2) * c.Unit() + c.Unit();
      }
      CommitKeepsInv(c);
      assert Commits(n)[1..] == Commits(n - 1);
      CommitsAccumulate(Commit(c), n - 1);
    }
  }

  lemma {:induction false} RunAppend(c: Counters, a: seq<Op>, b: seq<Op>)
    requires IsRun(c, a) && IsRun(Run(c, a), b)
    ensures IsRun(c, a + b) && Run(c, a + b) == Run(Run(c, a), b)
    decreases |a|
  {
    if a == [] {
      assert a + b == b;
    } else {
      assert (a + b)[1..] == a[1..] + b;
      RunAppend(Step(c, a[0]), a[1..], b);
    }
  }

  /** The Waits it takes to cover x steps when they are not a multiple of u. */
  lemma CoveringWaits(x: nat, u: nat) returns (k: nat)
    requires u > 0 && x % u != 0
    ensures k > 0 && (k - 1) * u < x < k * u
  {
    k := x / u + 1;
    assert x == x / u * u + x % u;
    Succ(x / u, u);
  }

  /** A run whose waits exceed the handle's steps, when these are not a multiple of the unit. */
  lemma OverWaitingRun(c: Counters) returns (ops: seq<Op>)
    requires Inv(c) && c.waited == 0 && c.committed == (if c.early then c.Total() else 0)
    requires c.Total() % c.Unit() != 0
    ensures IsRun(c, ops) && Run(c, ops).waited > c.Total() as int
  {
    var k := CoveringWaits(c.Total(), c.Unit());
    var first := if c.early then [] else Commits(k);
    if !c.early {
      CommitsAccumulate(c, k);
    }
    WaitsAccumulate(Run(c, first), k);
    RunAppend(c, first, Waits(k));
    ops := first + Waits(k);
  }

  /** In every run the waits stay within the handle's own steps exactly when these are a multiple of
      stepSize, whether or not the handle was committed at Prepare. */
  lemma WaitsWithinStepsIff(repeat: uint8, stepSize: uint8, rankDim: nat, commit: bool)
    requires rankDim <= 256
    ensures var c := Prepare(repeat, stepSize, rankDim, commit);
            (forall ops | IsRun(c, ops) :: Run(c, ops).waited as int <= c.Total()) <==> c.Total() % c.Unit() == 0
  {
    var c := Prepare(repeat, stepSize, rankDim, commit);
    PrepareInv(repeat, stepSize, rankDim, commit);
    if c.Total() % c.Unit() == 0 {
      forall ops | IsRun(c, ops) ensures Run(c, ops).waited as int <= c.Total() {
        RunKeepsInv(c, ops);
        AlignedWaitsWithinCommits(Run(c, ops));
        AlignedCommitsWithinSteps(Run(c, ops));
      }
    } else {
      var ops := OverWaitingRun(c);
    }
  }

  lemma AlignedCommitsWithinSteps(c: Counters)
    requires Inv(c) && c.Total() % c.Unit() == 0
    ensures c.committed <= c.Total()
  {
    if c.committed > c.Total() {
      MultiplesApart(c.Total(), c.committed, c.Unit());
    }
  }

  // ---------------------------------------------------------------------------------------------
  // The pairwise schedule
  // ---------------------------------------------------------------------------------------------

  /** The rank whose data is ready after slice k (sync), and the rank to prepare data for (async). */
  function Peer(rank: nat, n: nat, sync: bool, k: nat): (p: nat)
    requires rank < n
    ensures p < n
  {
    if sync then (rank + n - k % n) % n else (rank + k % n) % n
  }

  lemma WrapOnce(x: nat, n: nat)
    requires 0 < n && x < 2 * n
    ensures x % n == if x < n then x else x - n
  {
    RemainderIs(x, n, if x < n then 0 else 1, if x < n then x else x - n);
  }

  /** At every step a sends to b exactly when b receives from a. */
  lemma PeersAreDual(a: nat, b: nat, n: nat, k: nat)
    requires a < n && b < n
    ensures Peer(a, n, false, k) == b <==> Peer(b, n, true, k) == a
  {
    WrapOnce(a + k % n, n);
    WrapOnce(b + n - k % n, n);
  }

  lemma AddRemainder(x: nat, k: nat, n: nat)
    requires n > 0
    ensures (x + k) % n == (x + k % n) % n
  {
    assert k == k / n * n + k % n;
    assert x + k == x + k % n + k / n * n;
    RemainderIs(k / n * n, n, k / n, 0);
    AddMultiple(x + k % n, k / n * n, n);
  }

  /** The async peer is the rank k places after, the sync peer the one k places before; slice 0 is the rank's
      own. */
  lemma PeersAre(rank: nat, n: nat, k: nat)
    requires rank < n
    ensures Peer(rank, n, false, k) == (rank + k) % n
    ensures (Peer(rank, n, true, k) + k) % n == rank
    ensures k == 0 ==> Peer(rank, n, true, k) == Peer(rank, n, false, k) == rank
  {
    var p := Peer(rank, n, true, k);
    AddRemainder(rank, k, n);
    AddRemainder(p, k, n);
    WrapOnce(rank + n - k % n, n);
    WrapOnce(p + k % n, n);
    if k == 0 {
      RemainderIs(0, n, 0, 0);
      WrapOnce(rank, n);
    }
  }

  /** Rank p is the peer of one of the n slices from `from` on. */
  ghost predicate Visits(rank: nat, n: nat, sync: bool, from: nat, p: nat)
    requires rank < n
  {
    exists k: nat | from <= k < from + n :: Peer(rank, n, sync, k) == p
  }

  /** Any n consecutive slices visit every rank, and no rank twice. */
  lemma EveryRankOnce(rank: nat, n: nat, sync: bool, from: nat)
    requires rank < n
    ensures forall i, j | from <= i < j < from + n :: Peer(rank, n, sync, i) != Peer(rank, n, sync, j)
    ensures forall p | 0 <= p < n :: Visits(rank, n, sync, from, p)
  {
    forall i, j | from <= i < j < from + n ensures Peer(rank, n, sync, i) != Peer(rank, n, sync, j) {
      SameResidue(i, j - i, n);
      PeerFromResidue(rank, n, sync, i);
      PeerFromResidue(rank, n, sync, j);
    }
    forall p | 0 <= p < n ensures Visits(rank, n, sync, from, p) {
      var want := if sync then (rank + n - p) % n else (p + n - rank) % n;
      var k := NextWithResidue(from, n, want);
      WrapOnce(if sync then rank + n - p else p + n - rank, n);
      PeerFromResidue(rank, n, sync, k);
    }
  }

  lemma PeerFromResidue(rank: nat, n: nat, sync: bool, k: nat)
    requires rank < n
    ensures var d := k % n;
            Peer(rank, n, sync, k) == if sync then (if d <= rank then rank - d else rank + n - d)
                                      else (if rank + d < n then rank + d else rank + d - n)
  {
    WrapOnce(rank + n - k % n, n);
    WrapOnce(rank + k % n, n);
  }

  lemma NextWithResidue(from: nat, n: nat, d: nat) returns (k: nat)
    requires d < n
    ensures from <= k < from + n && k % n == d
  {
    var a, b := from / n, from % n;
    assert from == a * n + b;
    if b <= d {
      k := a * n + d;
      RemainderIs(k, n, a, d);
    } else {
      k := (a + 1) * n + d;
      assert (a + 1) * n == a * n + n;
      RemainderIs(k, n, a + 1, d);
    }
  }

  // ---------------------------------------------------------------------------------------------
  // Waits made by Iterate
  // ---------------------------------------------------------------------------------------------

  lemma {:induction false} SlicesAdvance(c: Counters, sync: bool, len: nat)
    requires c.stepSize > 0 && c.slice as int + len < 0x1_0000
    ensures var r := Slices(c, sync, len);
            r.slice == c.slice as int + len && r.committed == c.committed && (!sync ==> r.waited == c.waited)
    decreases len
  {
    if len > 0 {
      SlicesAdvance(NextSlice(c, sync), sync, len - 1);
    }
  }

  lemma {:induction false} SlicesCannotWait(c: Counters, len: nat)
    requires c.stepSize > 0 && !WaitAccepts(c)
    ensures Slices(c, true, len).waited == c.waited
    decreases len
  {
    if len > 0 {
      SlicesCannotWait(NextSlice(c, true), len - 1);
    }
  }

  /** The slices of the whole steps among the first x slices: stepSize * floor(x / stepSize). */
  function WholeSteps(x: nat, stepSize: nat): (s: int)
    requires stepSize > 0
    ensures 0 <= s <= x
  {
    x - x % stepSize
  }

  /** One sync slice keeps the waited count in step, unless it has to wait and nothing is committed. */
  lemma SliceKeepsStep(c: Counters)
    requires Inv(c) && c.stepSize > 0 && c.slice as int + 1 < 0x1_0000 && c.waited == WholeSteps(c.slice, c.stepSize)
    ensures var n, x, u := NextSlice(c, true), c.slice as nat + 1, c.stepSize as nat;
            && Inv(n) && Fixed(c, n) && n.committed == c.committed && n.slice == x
            && (WholeSteps(x, u) == c.waited || WholeSteps(x, u) == c.waited + u)
            && n.waited == (if WaitAccepts(c) then WholeSteps(x, u) else c.waited as int)
  {
    ModSuccessor(c.slice, c.stepSize);
    WaitKeepsInv(c);
  }

  lemma {:induction false} PlainSlicesWaitPerStep(c: Counters, len: nat)
    requires Inv(c) && c.stepSize > 0 && c.slice as int + len < 0x1_0000 && c.waited == WholeSteps(c.slice, c.stepSize)
    ensures var due := WholeSteps(c.slice as nat + len, c.stepSize);
            Slices(c, true, len).waited == due <==> due == c.waited || due - c.stepSize < c.committed
    decreases len
  {
    if len > 0 {
      var n := NextSlice(c, true);
      SliceKeepsStep(c);
      MultipleBelowMonotone(c.slice as nat + 1, c.slice as nat + len, c.stepSize);
      if n.waited == WholeSteps(n.slice, n.stepSize) {
        PlainSlicesWaitPerStep(n, len - 1);
      } else {
        SlicesCannotWait(n, len - 1);
      }
    }
  }

  /** The 16-bit slice counter after any number of slices. */
  lemma {:induction false} SliceAfter(c: Counters, sync: bool, len: nat)
    requires c.stepSize > 0
    ensures Slices(c, sync, len).slice == U16(c.slice as nat + len)
    decreases len
  {
    if len > 0 {
      U16Sum(c.slice as nat + 1, len - 1);
      SliceAfter(NextSlice(c, sync), sync, len - 1);
    }
  }

  lemma {:induction false} WaitedGrows(c: Counters, len: nat)
    requires Inv(c) && c.stepSize > 0
    ensures Slices(c, true, len).waited >= c.waited
    decreases len
  {
    if len > 0 {
      WaitKeepsInv(c);
      WaitedGrows(NextSlice(c, true), len - 1);
    }
  }

  /** A Wait is due at the k-th slice from here on. */
  predicate DueAt(c: Counters, k: nat) { (U16(c.slice as nat + k) as nat + 1) % c.Unit() == 0 }

  lemma NextSliceIs(c: Counters)
    requires Inv(c) && c.stepSize > 0
    ensures var n := NextSlice(c, true);
            && Inv(n) && Fixed(c, n) && n.committed == c.committed
            && (DueAt(c, 0) && WaitAccepts(c) ==> n.waited > c.waited)
            && (!DueAt(c, 0) ==> n.waited == c.waited)
  {
    WaitKeepsInv(c);
  }

  lemma DueShifts(c: Counters, k: nat)
    requires c.stepSize > 0
    ensures DueAt(NextSlice(c, true), k) == DueAt(c, k + 1)
  {
    U16Sum(c.slice as nat + 1, k);
  }

  /** A due Wait among the slices finds a step committed, if the first one would. */
  lemma {:induction false} DueWaitCounts(c: Counters, len: nat, j: nat)
    requires Inv(c) && c.stepSize > 0 && WaitAccepts(c) && j < len && DueAt(c, j)
    ensures Slices(c, true, len).waited > c.waited
    decreases len
  {
    var n := NextSlice(c, true);
    NextSliceIs(c);
    if DueAt(c, 0) {
      WaitedGrows(n, len - 1);
    } else {
      DueShifts(c, j - 1);
      DueWaitCounts(n, len - 1, j - 1);
    }
  }

  /** A slice in which a Wait is due, when the counter wraps and comes back into the step it started in. */
  lemma DueAfterWrap(x: nat, len: nat, u: nat) returns (j: nat)
    requires 0 < u <= 255 && x < 0x1_0000 <= x + len && len < 0x1_0000
    requires WholeSteps(x + len - 0x1_0000, u) == WholeSteps(x, u)
    ensures j < len && (U16(x + j) as nat + 1) % u == 0
  {
    var step := WholeSteps(x, u);
    assert x == x / u * u + x % u;
    if step + u <= 0x1_0000 {
      j := step + u - 1 - x;
      RemainderIs(x + j + 1, u, x / u + 1, 0);
    } else {
      j := 0x1_0000 + u - 1 - x;
      RemainderIs(u, u, 1, 0);
    }
  }

  lemma WrappedSlicesWaitPerStep(c: Counters, len: nat)
    requires Inv(c) && c.stepSize > 0 && len < 0x1_0000 <= c.slice as int + len
    requires c.waited == WholeSteps(c.slice, c.stepSize)
    ensures var due := WholeSteps(c.slice as nat + len - 0x1_0000, c.stepSize);
            Slices(c, true, len).waited == due <==> due == c.waited && !WaitAccepts(c)
  {
    MultipleBelowMonotone(c.slice as nat + len - 0x1_0000, c.slice, c.stepSize);
    WaitedGrows(c, len);
    if !WaitAccepts(c) {
      SlicesCannotWait(c, len);
    } else if WholeSteps(c.slice as nat + len - 0x1_0000, c.stepSize) == c.waited {
      var j := DueAfterWrap(c.slice, len, c.stepSize);
      DueWaitCounts(c, len, j);
    }
  }

  /** After a call's sync slices that started with one Wait per whole step, the waited count is again one Wait
      per whole step: exactly when no Wait was due or the last of them still found a step committed, and, if
      the slice counter wrapped, exactly when it came back into the same step and nothing was left to wait
      for. */
  lemma SlicesWaitPerStep(c: Counters, len: nat)
    requires Inv(c) && c.stepSize > 0 && len < 0x1_0000 && c.waited == WholeSteps(c.slice, c.stepSize)
    ensures var r := Slices(c, true, len);
            var due := WholeSteps(r.slice, c.stepSize);
            r.waited == due <==>
            if c.slice as int + len < 0x1_0000 then due == c.waited || due - c.stepSize < c.committed
            else due == c.waited && !WaitAccepts(c)
  {
    SliceAfter(c, true, len);
    if c.slice as int + len < 0x1_0000 {
      PlainSlicesWaitPerStep(c, len);
    } else {
      WrappedSlicesWaitPerStep(c, len);
    }
  }
}
