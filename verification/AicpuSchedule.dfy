/**
  Calling Iterate until it returns 0: which ranks the series of calls visits and how often, when it ends,
  and when its 16-bit slice counter wraps.
*/
module AicpuSchedule {
  import opened Common
  import opened Arithmetic
  import opened MachineWords
  import opened AicpuModel

  predicate Below(peers: seq<nat>, n: nat) { forall i | 0 <= i < |peers| :: peers[i] < n }

  /** The peers of `len` slices from `from` on, as one call hands them out. */
  function Peers(rank: nat, n: nat, sync: bool, from: nat, len: nat): (peers: seq<nat>)
    requires rank < n
    ensures |peers| == len && Below(peers, n)
  {
    var peers := seq<nat>(len, i requires 0 <= i => Peer(rank, n, sync, U16(from + i)));
    assert forall i | 0 <= i < len :: peers[i] == Peer(rank, n, sync, U16(from + i));
    peers
  }

  /** Iterate returns 0 from now on. */
  predicate Ended(c: Counters) { c.slice >= c.Total() }

  /** The counters after n calls for len slices each. */
  function After(c: Counters, sync: bool, len: nat, n: nat): (r: Counters)
    requires c.stepSize > 0
    ensures Fixed(c, r)
    decreases n
  {
    if n == 0 then c else After(Iterate(c, sync, len), sync, len, n - 1)
  }

  /** What those calls hand out. */
  function HandedOut(c: Counters, rank: nat, sync: bool, len: nat, n: nat): (peers: seq<nat>)
    requires c.stepSize > 0 && rank < c.rankDim
    ensures Below(peers, c.rankDim)
    decreases n
  {
    if n == 0 then []
    else
      (if Ended(c) then [] else Peers(rank, c.rankDim, sync, c.slice, len))
      + HandedOut(Iterate(c, sync, len), rank, sync, len, n - 1)
  }

  // ---------------------------------------------------------------------------------------------
  // Counting visits
  // ---------------------------------------------------------------------------------------------

  /** How often a rank is among the peers. */
  function Visited(peers: seq<nat>, p: nat): nat { multiset(peers)[p] }

  /** The slice of the first round that visits rank p. */
  function FirstVisit(rank: nat, n: nat, sync: bool, p: nat): (k: nat)
    requires rank < n && p < n
    ensures k < n && (k == 0 <==> p == rank)
  {
    if sync then (if p <= rank then rank - p else rank + n - p)
    else if p >= rank then p - rank else p + n - rank
  }

  lemma PeerIff(rank: nat, n: nat, sync: bool, k: nat, p: nat)
    requires rank < n && p < n
    ensures Peer(rank, n, sync, k) == p <==> k % n == FirstVisit(rank, n, sync, p)
  {
    PeerFromResidue(rank, n, sync, k);
  }

  lemma OneMoreVisit(rank: nat, n: nat, sync: bool, x: nat, p: nat)
    requires rank < n && p < n && x < 0x1_0000
    ensures Visited(Peers(rank, n, sync, 0, x + 1), p)
         == Visited(Peers(rank, n, sync, 0, x), p) + if x % n == FirstVisit(rank, n, sync, p) then 1 else 0
  {
    PeerIff(rank, n, sync, x, p);
    assert U16(0 + x) == x;
    assert Peers(rank, n, sync, 0, x + 1) == Peers(rank, n, sync, 0, x) + [Peer(rank, n, sync, x)];
  }

  lemma DivSuccessor(x: nat, n: nat)
    requires n > 0
    ensures if x % n + 1 < n then (x + 1) / n == x / n && (x + 1) % n == x % n + 1
            else (x + 1) / n == x / n + 1 && (x + 1) % n == 0
  {
    var q, d := x / n, x % n;
    assert x == q * n + d;
    if d + 1 < n {
      QuotientIs(x + 1, n, q, d + 1);
    } else {
      Succ(q, n);
      QuotientIs(x + 1, n, q + 1, 0);
    }
  }

  /** The first x slices visit every rank x / n times, and those with an early turn once more. */
  lemma {:induction false} VisitCount(rank: nat, n: nat, sync: bool, x: nat, p: nat)
    requires rank < n && p < n && x <= 0x1_0000
    ensures Visited(Peers(rank, n, sync, 0, x), p)
         == x / n + if x % n > FirstVisit(rank, n, sync, p) then 1 else 0
  {
    if x == 0 {
      QuotientIs(0, n, 0, 0);
    } else {
      VisitCount(rank, n, sync, x - 1, p);
      OneMoreVisit(rank, n, sync, x - 1, p);
      DivSuccessor(x - 1, n);
    }
  }

  lemma WholeRoundsVisitAll(rank: nat, n: nat, sync: bool, m: nat, p: nat)
    requires rank < n && p < n && m * n <= 0x1_0000
    ensures Visited(Peers(rank, n, sync, 0, m * n), p) == m
  {
    QuotientIs(m * n, n, m, 0);
    VisitCount(rank, n, sync, m * n, p);
  }

  /** The visits to the first n ranks. */
  function TotalVisits(peers: seq<nat>, n: nat): nat {
    if n == 0 then 0 else TotalVisits(peers, n - 1) + Visited(peers, n - 1)
  }

  lemma {:induction false} TotalVisitsNext(peers: seq<nat>, x: nat, n: nat)
    ensures TotalVisits(peers + [x], n) == TotalVisits(peers, n) + if x < n then 1 else 0
  {
    if n > 0 {
      TotalVisitsNext(peers, x, n - 1);
    }
  }

  lemma {:induction false} NoVisits(n: nat)
    ensures TotalVisits([], n) == 0
  {
    if n > 0 {
      NoVisits(n - 1);
    }
  }

  /** Every slice handed out is one rank's visit. */
  lemma {:induction false} VisitsAddUp(peers: seq<nat>, n: nat)
    requires Below(peers, n)
    ensures TotalVisits(peers, n) == |peers|
  {
    if peers == [] {
      NoVisits(n);
    } else {
      var last := |peers| - 1;
      VisitsAddUp(peers[..last], n);
      TotalVisitsNext(peers[..last], peers[last], n);
      assert peers == peers[..last] + [peers[last]];
    }
  }

  lemma {:induction false} EqualVisitsAddUp(peers: seq<nat>, n: nat, m: nat)
    requires forall p: nat | p < n :: Visited(peers, p) == m
    ensures TotalVisits(peers, n) == m * n
  {
    if n > 0 {
      EqualVisitsAddUp(peers, n - 1, m);
      assert m * n == m * (n - 1) + m;
    }
  }

  /** Calls hand out whole sequences. */
  lemma {:induction false} HandedOutWhole(c: Counters, rank: nat, sync: bool, len: nat, n: nat)
    requires c.stepSize > 0 && rank < c.rankDim && len > 0
    ensures |HandedOut(c, rank, sync, len, n)| % len == 0
    decreases n
  {
    if n == 0 {
      RemainderIs(0, len, 0, 0);
    } else {
      var rest := HandedOut(Iterate(c, sync, len), rank, sync, len, n - 1);
      HandedOutWhole(Iterate(c, sync, len), rank, sync, len, n - 1);
      SameResidue(|rest|, len, len);
    }
  }

  // ---------------------------------------------------------------------------------------------
  // Calls that do not wrap the slice counter
  // ---------------------------------------------------------------------------------------------

  /** n calls that start before the end and stay below 2^16 hand out consecutive slices. */
  lemma {:induction false} PlainCalls(c: Counters, rank: nat, sync: bool, len: nat, n: nat)
    requires c.stepSize > 0 && rank < c.rankDim
    requires c.slice as int + n * len < 0x1_0000 && (n > 0 ==> c.slice as int + (n - 1) * len < c.Total())
    ensures After(c, sync, len, n).slice == c.slice as int + n * len
    ensures HandedOut(c, rank, sync, len, n) == Peers(rank, c.rankDim, sync, c.slice, n * len)
    decreases n
  {
    if n > 0 {
      var next := Iterate(c, sync, len);
      Multiples(n, len);
      SliceAfter(c, sync, len);
      PlainCalls(next, rank, sync, len, n - 1);
      assert Peers(rank, c.rankDim, sync, c.slice, len) + Peers(rank, c.rankDim, sync, next.slice, (n - 1) * len)
          == Peers(rank, c.rankDim, sync, c.slice, n * len);
    }
  }

  lemma Multiples(n: nat, len: nat)
    requires n > 0
    ensures n * len == len + (n - 1) * len && (n - 1) * len >= 0
    ensures n > 1 ==> (n - 1) * len == len + (n - 2) * len && (n - 2) * len >= 0
  {
    Succ(n, len);
    MulMonotone(0, 0, n - 1, len);
    if n > 1 {
      Succ(n - 1, len);
      MulMonotone(0, 0, n - 2, len);
    }
  }

  /** Some calls end the series and visit every rank exactly `repeat` times, exactly when the slices of one
      call divide the handle's steps. */
  lemma IterateVisitsIff(repeat: uint8, stepSize: uint8, rankDim: nat, commit: bool, rank: nat, sync: bool, len: nat)
    requires stepSize > 0 && rank < rankDim <= 256 && 0 < len < 0x1_0000
    ensures var c := Prepare(repeat, stepSize, rankDim, commit);
            (exists n: nat :: EndsEvenly(c, rank, sync, len, n)) <==> c.Total() % len == 0
  {
    var c := Prepare(repeat, stepSize, rankDim, commit);
    StepsFit(c);
    if n: nat :| EndsEvenly(c, rank, sync, len, n) {
      var peers := HandedOut(c, rank, sync, len, n);
      VisitsAddUp(peers, rankDim);
      EqualVisitsAddUp(peers, rankDim, repeat);
      HandedOutWhole(c, rank, sync, len, n);
    }
    if c.Total() % len == 0 {
      EvenSeries(c, rank, sync, len);
    }
  }

  /** After n calls the series has ended, and every rank was visited `repeat` times. */
  ghost predicate EndsEvenly(c: Counters, rank: nat, sync: bool, len: nat, n: nat)
    requires c.stepSize > 0 && rank < c.rankDim
  {
    && Ended(After(c, sync, len, n))
    && forall p: nat | p < c.rankDim :: Visited(HandedOut(c, rank, sync, len, n), p) == c.repeat
  }

  lemma EvenSeries(c: Counters, rank: nat, sync: bool, len: nat)
    requires c.stepSize > 0 && rank < c.rankDim <= 256 && 0 < len && c.slice == 0 && c.Total() % len == 0
    ensures EndsEvenly(c, rank, sync, len, c.Total() / len)
  {
    var n := c.Total() / len;
    StepsFit(c);
    assert c.Total() == n * len;
    if n > 0 {
      Multiples(n, len);
    }
    PlainCalls(c, rank, sync, len, n);
    forall p: nat | p < c.rankDim ensures Visited(HandedOut(c, rank, sync, len, n), p) == c.repeat {
      WholeRoundsVisitAll(rank, c.rankDim, sync, c.repeat, p);
    }
  }

  // ---------------------------------------------------------------------------------------------
  // When the slice counter wraps
  // ---------------------------------------------------------------------------------------------

  /** No call of the series carries the slice counter past 16 bits. */
  ghost predicate NeverWraps(c: Counters, sync: bool, len: nat)
    requires c.stepSize > 0
  {
    forall n: nat :: FitsAfter(c, sync, len, n)
  }

  predicate FitsAfter(c: Counters, sync: bool, len: nat, n: nat)
    requires c.stepSize > 0
  {
    var r := After(c, sync, len, n);
    Ended(r) || r.slice as int + len < 0x1_0000
  }

  /** The calls it takes to cover the steps. */
  function CallsNeeded(total: nat, len: nat): (k: nat)
    requires len > 0
    ensures total <= k * len && (k > 0 ==> (k - 1) * len < total)
  {
    var k := (total + len - 1) / len;
    var r := (total + len - 1) % len;
    assert total + len - 1 == k * len + r;
    Succ(k, len);
    k
  }

  lemma {:induction false} EndedStays(c: Counters, sync: bool, len: nat, n: nat)
    requires c.stepSize > 0 && Ended(c)
    ensures After(c, sync, len, n) == c
    decreases n
  {
    if n > 0 {
      EndedStays(c, sync, len, n - 1);
    }
  }

  lemma {:induction false} AfterSplit(c: Counters, sync: bool, len: nat, m: nat, n: nat)
    requires c.stepSize > 0
    ensures After(c, sync, len, m + n) == After(After(c, sync, len, m), sync, len, n)
    decreases m
  {
    if m > 0 {
      AfterSplit(Iterate(c, sync, len), sync, len, m - 1, n);
    }
  }

  /** A series of calls for len slices never wraps its slice counter exactly when the calls needed to cover
      the steps end below 2^16. */
  lemma NeverWrapsIff(c: Counters, sync: bool, len: nat)
    requires c.stepSize > 0 && 0 < c.rankDim <= 256 && c.slice == 0 && len > 0
    ensures NeverWraps(c, sync, len) <==> CallsNeeded(c.Total(), len) * len < 0x1_0000
  {
    var k := CallsNeeded(c.Total(), len);
    StepsFit(c);
    if k > 0 {
      Multiples(k, len);
    }
    if k * len < 0x1_0000 {
      forall n: nat ensures FitsAfter(c, sync, len, n) {
        FitsBeforeEnd(c, sync, len, k, n);
      }
    } else {
      PlainCalls(c, 0, sync, len, k - 1) by {
        if k > 1 { Multiples(k - 1, len); }
      }
      assert !FitsAfter(c, sync, len, k - 1);
    }
  }

  lemma FitsBeforeEnd(c: Counters, sync: bool, len: nat, k: nat, n: nat)
    requires c.stepSize > 0 && 0 < c.rankDim && c.slice == 0 && len > 0
    requires k == CallsNeeded(c.Total(), len) && k * len < 0x1_0000
    ensures FitsAfter(c, sync, len, n)
  {
    if n < k {
      MulMonotone(n + 1, len, k, len);
      Succ(n, len);
      if n > 0 {
        MulMonotone(n - 1, len, k - 1, len);
      }
      PlainCalls(c, 0, sync, len, n);
    } else {
      PlainCalls(c, 0, sync, len, k);
      AfterSplit(c, sync, len, k, n - k);
      EndedStays(After(c, sync, len, k), sync, len, n - k);
    }
  }

  predicate CallsOfAtMost(ops: seq<Op>, limit: nat) {
    forall i | 0 <= i < |ops| && ops[i].IterateOp? :: ops[i].len <= limit
  }

  function SingleSlices(n: nat): (ops: seq<Op>) { seq(n, _ => IterateOp(false, 1)) }

  lemma {:induction false} SinglesAdvance(c: Counters, n: nat)
    requires c.stepSize > 0 && Inv(c) && c.slice as int + n <= c.Total()
    ensures IsRun(c, SingleSlices(n)) && Run(c, SingleSlices(n)).slice == c.slice as int + n
    decreases n
  {
    if n > 0 {
      var next := Iterate(c, false, 1);
      assert SingleSlices(n)[1..] == SingleSlices(n - 1);
      SlicesKeepInv(c, false, 1);
      SliceAfter(c, false, 1);
      SinglesAdvance(next, n - 1);
    }
  }

  /** In all runs with calls for at most `limit` slices, whatever commits and waits come between, no call wraps
      the slice counter, exactly when the last step and `limit` slices together stay below 2^16. */
  lemma SliceStaysInRangeIff(repeat: uint8, stepSize: uint8, rankDim: nat, commit: bool, limit: nat)
    requires repeat > 0 && stepSize > 0 && 0 < rankDim <= 256 && limit > 0
    ensures var c := Prepare(repeat, stepSize, rankDim, commit);
            (forall ops | IsRun(c, ops) && CallsOfAtMost(ops, limit) ::
               Ended(Run(c, ops)) || Run(c, ops).slice as int + limit < 0x1_0000)
            <==> c.Total() - 1 + limit < 0x1_0000
  {
    var c := Prepare(repeat, stepSize, rankDim, commit);
    StepsFit(c);
    PrepareInv(repeat, stepSize, rankDim, commit);
    if c.Total() - 1 + limit < 0x1_0000 {
      forall ops | IsRun(c, ops) && CallsOfAtMost(ops, limit)
        ensures Ended(Run(c, ops)) || Run(c, ops).slice as int + limit < 0x1_0000
      {
        RunKeepsInv(c, ops);
      }
    } else {
      var ops := SingleSlices(c.Total() - 1);
      SinglesAdvance(c, c.Total() - 1);
      RunKeepsInv(c, ops);
      assert CallsOfAtMost(ops, limit);
    }
  }

  // ---------------------------------------------------------------------------------------------
  // When the series ends
  // ---------------------------------------------------------------------------------------------

  /** The exponent of the largest power of two that divides x. */
  function Twos(x: nat): nat
    requires x > 0
  {
    if x % 2 == 1 then 0 else 1 + Twos(x / 2)
  }

  lemma Halve(p: nat, half: nat)
    requires p % 2 == 0
    ensures p * half == p / 2 * (2 * half)
  {
    assert p == 2 * (p / 2);
    assert 2 * (p / 2) * half == p / 2 * (2 * half);
  }

  lemma {:induction false} OddPart(x: nat) returns (m: nat)
    requires x > 0
    ensures m % 2 == 1 && x == m * Pow2(Twos(x))
  {
    if x % 2 == 1 {
      m := x;
    } else {
      m := OddPart(x / 2);
      var half := Pow2(Twos(x / 2));
      Halve(2 * m, half);
      assert 2 * m * half == 2 * (m * half);
    }
  }

  lemma AddHalf(m: nat, y: nat, p: nat, half: nat)
    requires m * y + 1 == p * half
    ensures m * (y + half) + 1 == (p + m) * half
  {
    assert m * (y + half) == m * y + m * half;
    assert (p + m) * half == p * half + m * half;
  }

  /** Multiples of an odd number reach -1 modulo every power of two. */
  lemma {:induction false} OddReaches(m: nat, k: nat) returns (x: nat, q: nat)
    requires m % 2 == 1
    ensures m * x + 1 == q * Pow2(k)
  {
    if k == 0 {
      x, q := 0, 1;
    } else {
      var y, p := OddReaches(m, k - 1);
      var half := Pow2(k - 1);
      if p % 2 == 0 {
        x, q := y, p / 2;
        Halve(p, half);
      } else {
        x, q := y + half, (p + m) / 2;
        AddHalf(m, y, p, half);
        Halve(p + m, half);
      }
    }
  }

  lemma {:induction false} TwosBound(x: nat, k: nat)
    requires 0 < x < Pow2(k)
    ensures Twos(x) < k
  {
    if x % 2 == 0 {
      TwosBound(x / 2, k - 1);
    }
  }

  /** The largest power of two that divides the 16-bit x divides 2^16 too. */
  lemma LargestPower(x: nat) returns (g: nat, m: nat, rest: nat)
    requires 0 < x < 0x1_0000
    ensures g == Pow2(Twos(x)) && m % 2 == 1 && x == m * g && Twos(x) < 16
    ensures rest == 16 - Twos(x) && 0x1_0000 == Pow2(rest) * g
  {
    var k := 8;
    assert Pow2(k) == 256;
    Pow2Sum(k, k);
    TwosBound(x, 16);
    g, rest := Pow2(Twos(x)), 16 - Twos(x);
    m := OddPart(x);
    Pow2Sum(rest, Twos(x));
  }

  lemma MultipleOf(a: nat, g: nat)
    requires g > 0
    ensures a * g % g == 0
  {
    RemainderIs(a * g, g, a, 0);
  }

  lemma WrapKeepsMultiple(x: nat, g: nat)
    requires g > 0 && x % g == 0 && 0x1_0000 % g == 0
    ensures U16(x) as nat % g == 0
  {
    var q := x / 0x1_0000;
    assert x / g * g == x && 0x1_0000 / g * g == 0x1_0000;
    var a := x / g - q * (0x1_0000 / g);
    assert a * g == x / g * g - q * (0x1_0000 / g * g) by {
      assert q * (0x1_0000 / g) * g == q * (0x1_0000 / g * g);
      assert (x / g - q * (0x1_0000 / g)) * g == x / g * g - q * (0x1_0000 / g) * g;
    }
    assert a * g == U16(x);
    MulOrder(a, g);
    RemainderIs(U16(x), g, a, 0);
  }

  /** Every slice number the series comes to is a multiple of g. */
  lemma {:induction false} SlicesAreMultiples(c: Counters, sync: bool, len: nat, n: nat, g: nat)
    requires c.stepSize > 0 && g > 0 && len % g == 0 && 0x1_0000 % g == 0 && c.slice % g == 0
    ensures After(c, sync, len, n).slice % g == 0
    decreases n
  {
    if n > 0 {
      SliceAfter(c, sync, len);
      AddMultiple(c.slice, len, g);
      WrapKeepsMultiple(c.slice as nat + len, g);
      SlicesAreMultiples(Iterate(c, sync, len), sync, len, n - 1, g);
    }
  }

  /** Unless the series ends before, n calls come to slice n * len modulo 2^16. */
  lemma {:induction false} EndedOrAt(c: Counters, sync: bool, len: nat, n: nat)
    requires c.stepSize > 0
    ensures Ended(After(c, sync, len, n)) || After(c, sync, len, n).slice == U16(c.slice as nat + n * len)
    decreases n
  {
    if n > 0 {
      Multiples(n, len);
      if Ended(c) {
        EndedStays(c, sync, len, n);
      } else {
        SliceAfter(c, sync, len);
        U16Sum(c.slice as nat + len, (n - 1) * len);
        EndedOrAt(Iterate(c, sync, len), sync, len, n - 1);
      }
    }
  }

  lemma ScaledReach(m: nat, x: nat, q: nat, p: nat, g: nat)
    requires m * x + 1 == q * p
    ensures x * (m * g) + g == q * (p * g)
  {
    assert x * (m * g) == m * x * g;
    assert (m * x + 1) * g == m * x * g + g;
    assert q * p * g == q * (p * g);
  }

  lemma JustBelow(y: nat, q: nat, g: nat)
    requires y + g == q * 0x1_0000 && 0 < g <= 0x1_0000
    ensures U16(y) == 0x1_0000 - g
  {}

  /** Calls that come to the last multiple below 2^16 of the largest power of two in len. */
  lemma ReachesLastMultiple(len: nat) returns (n: nat)
    requires 0 < len < 0x1_0000
    ensures U16(n * len) == 0x1_0000 - Pow2(Twos(len))
  {
    var g, m, rest := LargestPower(len);
    var x, q := OddReaches(m, rest);
    n := x;
    ScaledReach(m, x, q, Pow2(rest), g);
    MulOrder(Pow2(rest), g);
    JustBelow(n * len, q, g);
  }

  /** The series of calls for len slices ends at all exactly when the largest power of two that divides len is
      at most 2^16 less the number of steps; otherwise Iterate never returns 0. */
  lemma SeriesEndsIff(repeat: uint8, stepSize: uint8, rankDim: nat, commit: bool, sync: bool, len: nat)
    requires stepSize > 0 && 0 < rankDim <= 256 && 0 < len < 0x1_0000
    ensures var c := Prepare(repeat, stepSize, rankDim, commit);
            (exists n: nat :: Ended(After(c, sync, len, n))) <==> Pow2(Twos(len)) <= 0x1_0000 - c.Total()
  {
    var c := Prepare(repeat, stepSize, rankDim, commit);
    var g, m, rest := LargestPower(len);
    StepsFit(c);
    if n: nat :| Ended(After(c, sync, len, n)) {
      MultipleOf(m, g);
      MultipleOf(Pow2(rest), g);
      RemainderIs(0, g, 0, 0);
      SlicesAreMultiples(c, sync, len, n, g);
      MultiplesApart(After(c, sync, len, n).slice, 0x1_0000, g);
    }
    if g <= 0x1_0000 - c.Total() {
      var n := ReachesLastMultiple(len);
      EndedOrAt(c, sync, len, n);
      assert Ended(After(c, sync, len, n));
    }
  }

  /** 255 repeats on 256 ranks with 512 slices a call: Iterate never returns 0. */
  lemma EndlessSeries(commit: bool, sync: bool, n: nat)
    ensures !Ended(After(Prepare(255, 4, 256, commit), sync, 512, n))
  {
    var len := 512;
    assert Pow2(Twos(len)) == 512;
    SeriesEndsIff(255, 4, 256, commit, sync, len);
  }
}
