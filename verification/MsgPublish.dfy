/**
  Publishing a message to the AICPU server.  The server takes a message once its valid word holds the
  mask, and accepts it if the XOR of all its words is 0.  So the mask must be written last, and the
  checksum must make the XOR come out as 0.
*/
module MsgPublish {
  import opened MachineWords

  const WORDS: nat := 16
  const VALID_POS: nat := 12
  const VALID_MASK: nat := 0x5CDF123A

  /** The server's test of a message it has seen. */
  predicate Accepts(s: seq<nat>)
    requires |s| == WORDS
  {
    s[VALID_POS] == VALID_MASK && XorAll(s) == 0
  }

  /** The message as the server is meant to see it. */
  function Published(src: seq<nat>): (m: seq<nat>)
    requires |src| == WORDS
    ensures |m| == WORDS
  {
    var body := src[VALID_POS := VALID_MASK][..WORDS - 1];
    body + [XorAll(body)]
  }

  /** A published message is accepted, and carries every word of the source but the valid and check
      words. */
  lemma PublishedIsAccepted(src: seq<nat>)
    requires |src| == WORDS
    ensures Accepts(Published(src))
    ensures forall i | 0 <= i < WORDS - 1 && i != VALID_POS :: Published(src)[i] == src[i]
  {
    var m := Published(src);
    assert m[..WORDS - 1] == src[VALID_POS := VALID_MASK][..WORDS - 1];
    Self(XorAll(m[..WORDS - 1]));
  }

  /** A message of n-bit words stays one. */
  lemma PublishedFits(src: seq<nat>, n: nat)
    requires |src| == WORDS && VALID_MASK < Pow2(n) && forall i | 0 <= i < WORDS :: src[i] < Pow2(n)
    ensures forall i | 0 <= i < WORDS :: Published(src)[i] < Pow2(n)
  {
    XorAllFits(src[VALID_POS := VALID_MASK][..WORDS - 1], n);
  }

  /** A message in which any one word differs from an accepted one is not accepted. */
  lemma OneWordChangeIsDetected(m: seq<nat>, i: nat, x: nat)
    requires |m| == WORDS && Accepts(m) && i < WORDS && x != m[i]
    ensures !Accepts(m[i := x])
  {
    XorChange(m, i, x);
    Differs(XorAll(m), m[i], x);
  }

  type Index = i: nat | i < 16

  datatype Write = Write(at: Index, word: nat)

  /** Memory after a list of word writes. */
  function Applied(memory: seq<nat>, writes: seq<Write>): (m: seq<nat>)
    requires |memory| == WORDS
    ensures |m| == WORDS
  {
    if writes == [] then memory
    else
      var w := writes[|writes| - 1];
      Applied(memory, writes[..|writes| - 1])[w.at := w.word]
  }

  /** The writes of the first i words, passing over the valid word. */
  function BodyWrites(src: seq<nat>, i: nat): (w: seq<Write>)
    requires |src| == WORDS && i < WORDS
    ensures |w| == if i <= VALID_POS then i else i - 1
    ensures forall k | 0 <= k < |w| :: w[k].at != VALID_POS
  {
    if i == 0 then []
    else BodyWrites(src, i - 1) + if i - 1 == VALID_POS then [] else [Write(i - 1, src[i - 1])]
  }

  /** All writes of a message, in order: the body, the check word, the valid word. */
  function Writes(src: seq<nat>): (w: seq<Write>)
    requires |src| == WORDS
    ensures |w| == WORDS
    ensures forall k | 0 <= k < WORDS - 1 :: w[k].at != VALID_POS
  {
    BodyWrites(src, WORDS - 1) + [Write(WORDS - 1, Published(src)[WORDS - 1])] + [Write(VALID_POS, VALID_MASK)]
  }

  /** Copies the message; `writes` is the list of memory writes it makes. */
  method CopyHcclMsg(src: seq<nat>, dst: array<nat>) returns (ghost writes: seq<Write>)
    requires |src| == WORDS && dst.Length == WORDS
    modifies dst
    ensures writes == Writes(src)
    ensures dst[..] == Applied(old(dst[..]), writes)
  {
    writes := [];
    var xorCheck: nat := 0;
    ghost var start, want := dst[..], src[VALID_POS := VALID_MASK];
    for i := 0 to WORDS - 1
      invariant writes == BodyWrites(src, i)
      invariant dst[..] == Applied(start, writes)
      invariant xorCheck == XorAll(want[..i])
    {
      XorNext(want, i);
      BodyNext(src, i + 1);
      if i == VALID_POS {
        xorCheck := Xor(xorCheck, VALID_MASK);
      } else {
        AppliedNext(start, writes, Write(i, src[i]));
        dst[i] := src[i];
        xorCheck := Xor(xorCheck, dst[i]);
        writes := writes + [Write(i, src[i])];
      }
    }
    AppliedNext(start, writes, Write(WORDS - 1, xorCheck));
    writes := writes + [Write(WORDS - 1, xorCheck)];
    dst[WORDS - 1] := xorCheck;
    AppliedNext(start, writes, Write(VALID_POS, VALID_MASK));
    writes := writes + [Write(VALID_POS, VALID_MASK)];
    dst[VALID_POS] := VALID_MASK;
  }

  lemma AppliedNext(memory: seq<nat>, writes: seq<Write>, w: Write)
    requires |memory| == WORDS
    ensures Applied(memory, writes + [w]) == Applied(memory, writes)[w.at := w.word]
  {
    assert (writes + [w])[..|writes|] == writes;
  }

  lemma BodyNext(src: seq<nat>, i: nat)
    requires |src| == WORDS && 0 < i < WORDS
    ensures i - 1 == VALID_POS ==> BodyWrites(src, i) == BodyWrites(src, i - 1)
    ensures i - 1 != VALID_POS ==> BodyWrites(src, i) == BodyWrites(src, i - 1) + [Write(i - 1, src[i - 1])]
  {
    assert BodyWrites(src, i - 1) + [] == BodyWrites(src, i - 1);
  }

  lemma {:induction false} BodyApplied(src: seq<nat>, memory: seq<nat>, i: nat, j: nat)
    requires |src| == |memory| == WORDS && i < WORDS && j < WORDS
    ensures Applied(memory, BodyWrites(src, i))[j] == if j < i && j != VALID_POS then src[j] else memory[j]
  {
    if i > 0 {
      var before := BodyWrites(src, i - 1);
      BodyNext(src, i);
      BodyApplied(src, memory, i - 1, j);
      if i - 1 != VALID_POS {
        AppliedNext(memory, before, Write(i - 1, src[i - 1]));
        assert Applied(memory, BodyWrites(src, i)) == Applied(memory, before)[i - 1 := src[i - 1]];
      }
    }
  }

  /** Whatever was in memory, the copy leaves the published message there. */
  lemma CopyPublishes(src: seq<nat>, memory: seq<nat>)
    requires |src| == |memory| == WORDS
    ensures Applied(memory, Writes(src)) == Published(src)
  {
    var body := BodyWrites(src, WORDS - 1);
    var check, valid := Write(WORDS - 1, Published(src)[WORDS - 1]), Write(VALID_POS, VALID_MASK);
    AppliedNext(memory, body, check);
    AppliedNext(memory, body + [check], valid);
    forall j | 0 <= j < WORDS ensures Applied(memory, Writes(src))[j] == Published(src)[j] {
      BodyApplied(src, memory, WORDS - 1, j);
    }
  }

  lemma {:induction false} ValidUntouched(memory: seq<nat>, writes: seq<Write>)
    requires |memory| == WORDS && forall k | 0 <= k < |writes| :: writes[k].at != VALID_POS
    ensures Applied(memory, writes)[VALID_POS] == memory[VALID_POS]
  {
    if writes != [] {
      ValidUntouched(memory, writes[..|writes| - 1]);
    }
  }

  /** If the slot was free before the copy, a server that looks after any number k of its writes sees the
      mask, and accepts, only when the whole message is there. */
  lemma MaskShowsOnlyWholeMessages(src: seq<nat>, memory: seq<nat>, k: nat)
    requires |src| == |memory| == WORDS && k <= WORDS && memory[VALID_POS] != VALID_MASK
    ensures var seen := Applied(memory, Writes(src)[..k]);
            && (seen[VALID_POS] == VALID_MASK <==> k == WORDS)
            && (Accepts(seen) <==> k == WORDS)
            && (Accepts(seen) ==> seen == Published(src))
  {
    if k < WORDS {
      ValidUntouched(memory, Writes(src)[..k]);
    } else {
      assert Writes(src)[..k] == Writes(src);
      CopyPublishes(src, memory);
      PublishedIsAccepted(src);
    }
  }
}

/**
  The same protocol for the per-rank counts and offsets of AlltoAllV, for any number of ranks.
*/
module MsgExtPublish {
  import opened MachineWords

  const MAX_RANKS: nat := 256
  const VALID_MASK: nat := 0x5CDF123A

  /** What the server reads: four words per rank, the check word and the valid word. */
  datatype Ext = Ext(sendCounts: seq<nat>, sendOffset: seq<nat>, recvCounts: seq<nat>, recvOffset: seq<nat>,
                     xorCheck: nat, valid: nat)
  {
    predicate Shaped() { |sendCounts| == |sendOffset| == |recvCounts| == |recvOffset| == MAX_RANKS }
  }

  /** The caller's arrays. */
  datatype Param = Param(sendCounts: seq<nat>, sdispls: seq<nat>, recvCounts: seq<nat>, rdispls: seq<nat>) {
    predicate Covers(rankDim: nat) {
      rankDim <= |sendCounts| && rankDim <= |sdispls| && rankDim <= |recvCounts| && rankDim <= |rdispls|
    }
  }

  /** The XOR of all words of a message for n ranks. */
  function Total(e: Ext, n: nat): nat
    requires e.Shaped() && n <= MAX_RANKS
  {
    XorAll(Parts(e, n))
  }

  /** The server's test of a message it has seen. */
  predicate Accepts(e: Ext, rankDim: nat)
    requires e.Shaped() && rankDim <= MAX_RANKS
  {
    e.valid == VALID_MASK && Total(e, rankDim) == 0
  }

  /** The message holds the caller's counts and offsets of the first n ranks. */
  predicate Carries(e: Ext, p: Param, n: nat)
    requires e.Shaped() && n <= MAX_RANKS && p.Covers(n)
  {
    && e.sendCounts[..n] == p.sendCounts[..n] && e.sendOffset[..n] == p.sdispls[..n]
    && e.recvCounts[..n] == p.recvCounts[..n] && e.recvOffset[..n] == p.rdispls[..n]
  }

  type Rank = i: nat | i < 256

  /** Which word of the message: one of rank i's four, the check word or the valid word. */
  datatype Place =
    | SendCount(i: Rank) | SendOffset(i: Rank) | RecvCount(i: Rank) | RecvOffset(i: Rank) | CheckWord | ValidWord

  predicate InMessage(w: Place, rankDim: nat) { w.CheckWord? || w.ValidWord? || w.i < rankDim }

  function Get(e: Ext, w: Place): nat
    requires e.Shaped()
  {
    match w
    case SendCount(i) => e.sendCounts[i]
    case SendOffset(i) => e.sendOffset[i]
    case RecvCount(i) => e.recvCounts[i]
    case RecvOffset(i) => e.recvOffset[i]
    case CheckWord => e.xorCheck
    case ValidWord => e.valid
  }

  function Put(e: Ext, w: Place, x: nat): (r: Ext)
    requires e.Shaped()
    ensures r.Shaped()
  {
    match w
    case SendCount(i) => e.(sendCounts := e.sendCounts[i := x])
    case SendOffset(i) => e.(sendOffset := e.sendOffset[i := x])
    case RecvCount(i) => e.(recvCounts := e.recvCounts[i := x])
    case RecvOffset(i) => e.(recvOffset := e.recvOffset[i := x])
    case CheckWord => e.(xorCheck := x)
    case ValidWord => e.(valid := x)
  }

  function Parts(e: Ext, n: nat): (p: seq<nat>)
    requires e.Shaped() && n <= MAX_RANKS
    ensures |p| == 6
  {
    [XorAll(e.sendCounts[..n]), XorAll(e.sendOffset[..n]), XorAll(e.recvCounts[..n]), XorAll(e.recvOffset[..n]),
     e.xorCheck, e.valid]
  }

  /** Which part of the total a word belongs to. */
  function PartOf(w: Place): (k: nat)
    ensures k < 6
  {
    match w
    case SendCount(_) => 0
    case SendOffset(_) => 1
    case RecvCount(_) => 2
    case RecvOffset(_) => 3
    case CheckWord => 4
    case ValidWord => 5
  }

  lemma ColumnChange(s: seq<nat>, n: nat, i: nat, x: nat)
    requires i < n <= |s|
    ensures XorAll(s[i := x][..n]) == Xor(Xor(XorAll(s[..n]), s[i]), x)
  {
    assert s[i := x][..n] == s[..n][i := x];
    XorChange(s[..n], i, x);
  }

  lemma TotalChange(e: Ext, n: nat, w: Place, x: nat)
    requires e.Shaped() && n <= MAX_RANKS && InMessage(w, n)
    ensures Total(Put(e, w, x), n) == Xor(Xor(Total(e, n), Get(e, w)), x)
  {
    var p, k, o := Parts(e, n), PartOf(w), Get(e, w);
    match w {
      case SendCount(i) => ColumnChange(e.sendCounts, n, i, x);
      case SendOffset(i) => ColumnChange(e.sendOffset, n, i, x);
      case RecvCount(i) => ColumnChange(e.recvCounts, n, i, x);
      case RecvOffset(i) => ColumnChange(e.recvOffset, n, i, x);
      case CheckWord => Cancel'(p[k], x);
      case ValidWord => Cancel'(p[k], x);
    }
    var p' := Parts(Put(e, w, x), n);
    assert p' == p[k := Xor(Xor(p[k], o), x)];
    XorChange(p, k, Xor(Xor(p[k], o), x));
    PartChange(XorAll(p), p[k], o, x);
  }

  /** A lone word: replacing o by x is adding both. */
  lemma Cancel'(o: nat, x: nat)
    ensures Xor(Xor(o, o), x) == x
  {
    Self(o);
    Comm(0, x);
    Self(x);
  }

  lemma PartChange(t: nat, part: nat, o: nat, x: nat)
    ensures Xor(Xor(t, part), Xor(Xor(part, o), x)) == Xor(Xor(t, o), x)
  {
    var a := Xor(t, part);
    Assoc(a, Xor(part, o), x);
    Assoc(a, part, o);
    Cancel(t, part);
  }

  /** Changing any one word of an accepted message, whichever it is, makes the server reject it. */
  lemma OneWordChangeIsDetected(e: Ext, rankDim: nat, w: Place, x: nat)
    requires e.Shaped() && rankDim <= MAX_RANKS && Accepts(e, rankDim)
    requires InMessage(w, rankDim) && x != Get(e, w)
    ensures !Accepts(Put(e, w, x), rankDim)
  {
    TotalChange(e, rankDim, w, x);
    Differs(Total(e, rankDim), Get(e, w), x);
  }

  datatype Write = Write(at: Place, word: nat)

  /** The message after a list of word writes. */
  function Applied(e: Ext, writes: seq<Write>): (r: Ext)
    requires e.Shaped()
    ensures r.Shaped()
  {
    if writes == [] then e
    else
      var w := writes[|writes| - 1];
      Put(Applied(e, writes[..|writes| - 1]), w.at, w.word)
  }

  function RankWrites(p: Param, i: Rank): seq<Write>
    requires p.Covers(i + 1)
  {
    [Write(SendCount(i), p.sendCounts[i]), Write(SendOffset(i), p.sdispls[i]),
     Write(RecvCount(i), p.recvCounts[i]), Write(RecvOffset(i), p.rdispls[i])]
  }

  function BodyWrites(p: Param, n: nat): (w: seq<Write>)
    requires p.Covers(n) && n <= MAX_RANKS
    ensures forall k | 0 <= k < |w| :: !w[k].at.ValidWord?
  {
    if n == 0 then [] else BodyWrites(p, n - 1) + RankWrites(p, n - 1)
  }

  function BodyXor(p: Param, n: nat): nat
    requires p.Covers(n)
  {
    if n == 0 then 0
    else
      var sent := Xor(Xor(BodyXor(p, n - 1), p.sendCounts[n - 1]), p.sdispls[n - 1]);
      Xor(Xor(sent, p.recvCounts[n - 1]), p.rdispls[n - 1])
  }

  /** All writes of a message, in order: rank by rank, the check word, the valid word. */
  function Writes(p: Param, rankDim: nat): (w: seq<Write>)
    requires p.Covers(rankDim) && rankDim <= MAX_RANKS
    ensures |w| > 0
    ensures forall k | 0 <= k < |w| - 1 :: !w[k].at.ValidWord?
  {
    BodyWrites(p, rankDim) + [Write(CheckWord, Xor(BodyXor(p, rankDim), VALID_MASK))] + [Write(ValidWord, VALID_MASK)]
  }

  lemma AppliedNext(e: Ext, writes: seq<Write>, w: Write)
    requires e.Shaped()
    ensures Applied(e, writes + [w]) == Put(Applied(e, writes), w.at, w.word)
  {
    assert (writes + [w])[..|writes|] == writes;
  }

  lemma RankApplied(e: Ext, writes: seq<Write>, p: Param, i: nat)
    requires e.Shaped() && i < MAX_RANKS && p.Covers(i + 1)
    ensures var m := Applied(e, writes);
            Applied(e, writes + RankWrites(p, i)) ==
            m.(sendCounts := m.sendCounts[i := p.sendCounts[i]], sendOffset := m.sendOffset[i := p.sdispls[i]],
               recvCounts := m.recvCounts[i := p.recvCounts[i]], recvOffset := m.recvOffset[i := p.rdispls[i]])
  {
    var r := RankWrites(p, i);
    AppliedNext(e, writes, r[0]);
    AppliedNext(e, writes + [r[0]], r[1]);
    AppliedNext(e, writes + [r[0]] + [r[1]], r[2]);
    AppliedNext(e, writes + [r[0]] + [r[1]] + [r[2]], r[3]);
    assert writes + r == writes + [r[0]] + [r[1]] + [r[2]] + [r[3]];
  }

  lemma {:induction false} BodyCarries(e: Ext, p: Param, n: nat)
    requires e.Shaped() && n <= MAX_RANKS && p.Covers(n)
    ensures Carries(Applied(e, BodyWrites(p, n)), p, n)
  {
    if n > 0 {
      BodyCarries(e, p, n - 1);
      RankApplied(e, BodyWrites(p, n - 1), p, n - 1);
      var m := Applied(e, BodyWrites(p, n - 1));
      Extend(m.sendCounts, p.sendCounts, n - 1);
      Extend(m.sendOffset, p.sdispls, n - 1);
      Extend(m.recvCounts, p.recvCounts, n - 1);
      Extend(m.recvOffset, p.rdispls, n - 1);
    }
  }

  lemma Extend(s: seq<nat>, p: seq<nat>, i: nat)
    requires i < |s| && i < |p| && s[..i] == p[..i]
    ensures s[i := p[i]][..i + 1] == p[..i + 1]
  {
    assert s[i := p[i]][..i + 1] == s[..i] + [p[i]];
    assert p[..i + 1] == p[..i] + [p[i]];
  }

  function Four(a: nat, b: nat, c: nat, d: nat): nat { Xor(Xor(Xor(a, b), c), d) }

  lemma FourColumns(a: nat, b: nat, c: nat, d: nat, s: nat, so: nat, r: nat, ro: nat)
    ensures Xor(Xor(Xor(Xor(Four(a, b, c, d), s), so), r), ro) == Four(Xor(a, s), Xor(b, so), Xor(c, r), Xor(d, ro))
  {
    assert Four(Xor(a, s), b, c, d) == Xor(Four(a, b, c, d), s) by {
      Swap(a, s, b);
      Swap(Xor(a, b), s, c);
      Swap(Xor(Xor(a, b), c), s, d);
    }
    var a' := Xor(a, s);
    assert Four(a', Xor(b, so), c, d) == Xor(Four(a', b, c, d), so) by {
      Assoc(a', b, so);
      Swap(Xor(a', b), so, c);
      Swap(Xor(Xor(a', b), c), so, d);
    }
    var b' := Xor(b, so);
    assert Four(a', b', Xor(c, r), d) == Xor(Four(a', b', c, d), r) by {
      Assoc(Xor(a', b'), c, r);
      Swap(Xor(Xor(a', b'), c), r, d);
    }
    var c' := Xor(c, r);
    assert Four(a', b', c', Xor(d, ro)) == Xor(Four(a', b', c', d), ro) by {
      Assoc(Xor(Xor(a', b'), c'), d, ro);
    }
  }

  lemma {:induction false} BodyXorByColumns(p: Param, n: nat)
    requires p.Covers(n)
    ensures BodyXor(p, n) ==
            Four(XorAll(p.sendCounts[..n]), XorAll(p.sdispls[..n]), XorAll(p.recvCounts[..n]), XorAll(p.rdispls[..n]))
  {
    if n > 0 {
      var k := n - 1;
      BodyXorByColumns(p, k);
      XorNext(p.sendCounts, k);
      XorNext(p.sdispls, k);
      XorNext(p.recvCounts, k);
      XorNext(p.rdispls, k);
      FourColumns(XorAll(p.sendCounts[..k]), XorAll(p.sdispls[..k]), XorAll(p.recvCounts[..k]), XorAll(p.rdispls[..k]),
                  p.sendCounts[k], p.sdispls[k], p.recvCounts[k], p.rdispls[k]);
    } else {
      Self(0);
    }
  }

  lemma TotalOfSix(a: nat, b: nat, c: nat, d: nat, e: nat, f: nat)
    ensures XorAll([a, b, c, d, e, f]) == Xor(Xor(Four(a, b, c, d), e), f)
  {
    var s := [a, b, c, d, e, f];
    assert s[..1] == [a] && s[..0] == [];
    Comm(0, a);
    Self(a);
    XorNext(s, 0);
    XorNext(s, 1);
    XorNext(s, 2);
    XorNext(s, 3);
    XorNext(s, 4);
    XorNext(s, 5);
    assert s[..6] == s;
  }

  lemma CheckCancels(x: nat, m: nat)
    ensures Xor(Xor(x, Xor(x, m)), m) == 0
  {
    Assoc(x, Xor(x, m), m);
    Cancel(x, m);
    Self(x);
  }

  /** Whatever was there before, the writes leave an accepted message with the caller's values, for every
      number of ranks. */
  lemma AssemblePublishes(e: Ext, p: Param, rankDim: nat)
    requires e.Shaped() && rankDim <= MAX_RANKS && p.Covers(rankDim)
    ensures var m := Applied(e, Writes(p, rankDim)); Accepts(m, rankDim) && Carries(m, p, rankDim)
  {
    var body := BodyWrites(p, rankDim);
    BodyCarries(e, p, rankDim);
    BodyXorByColumns(p, rankDim);
    AppliedNext(e, body, Write(CheckWord, Xor(BodyXor(p, rankDim), VALID_MASK)));
    AppliedNext(e, body + [Write(CheckWord, Xor(BodyXor(p, rankDim), VALID_MASK))], Write(ValidWord, VALID_MASK));
    var m := Applied(e, Writes(p, rankDim));
    TotalOfSix(XorAll(m.sendCounts[..rankDim]), XorAll(m.sendOffset[..rankDim]), XorAll(m.recvCounts[..rankDim]),
               XorAll(m.recvOffset[..rankDim]), m.xorCheck, m.valid);
    CheckCancels(BodyXor(p, rankDim), VALID_MASK);
  }

  lemma {:induction false} ValidUntouched(e: Ext, writes: seq<Write>)
    requires e.Shaped() && forall k | 0 <= k < |writes| :: !writes[k].at.ValidWord?
    ensures Applied(e, writes).valid == e.valid
  {
    if writes != [] {
      ValidUntouched(e, writes[..|writes| - 1]);
    }
  }

  /** If the slot was free before, a server that looks after any number k of the writes sees the mask only
      when the whole message is there. */
  lemma MaskShowsOnlyWholeMessages(e: Ext, p: Param, rankDim: nat, k: nat)
    requires e.Shaped() && rankDim <= MAX_RANKS && p.Covers(rankDim)
    requires k <= |Writes(p, rankDim)| && e.valid != VALID_MASK
    ensures var seen := Applied(e, Writes(p, rankDim)[..k]);
            && (seen.valid == VALID_MASK <==> k == |Writes(p, rankDim)|)
            && (Accepts(seen, rankDim) <==> k == |Writes(p, rankDim)|)
            && (Accepts(seen, rankDim) ==> Carries(seen, p, rankDim))
  {
    if k < |Writes(p, rankDim)| {
      ValidUntouched(e, Writes(p, rankDim)[..k]);
    } else {
      assert Writes(p, rankDim)[..k] == Writes(p, rankDim);
      AssemblePublishes(e, p, rankDim);
    }
  }

  class HcclMsgExt {
    const sendCounts: array<nat>
    const sendOffset: array<nat>
    const recvCounts: array<nat>
    const recvOffset: array<nat>
    var valid: nat
    var xorCheck: nat

    constructor ()
      ensures Valid()
    {
      sendCounts := new nat[MAX_RANKS];
      sendOffset := new nat[MAX_RANKS];
      recvCounts := new nat[MAX_RANKS];
      recvOffset := new nat[MAX_RANKS];
      valid, xorCheck := 0, 0;
    }

    ghost predicate Valid()
      reads this
    {
      && sendCounts.Length == sendOffset.Length == recvCounts.Length == recvOffset.Length == MAX_RANKS
      && sendCounts != sendOffset && sendCounts != recvCounts && sendCounts != recvOffset
      && sendOffset != recvCounts && sendOffset != recvOffset && recvCounts != recvOffset
    }

    ghost function View(): (e: Ext)
      reads this, sendCounts, sendOffset, recvCounts, recvOffset
      requires Valid()
      ensures e.Shaped()
    {
      Ext(sendCounts[..], sendOffset[..], recvCounts[..], recvOffset[..], xorCheck, valid)
    }

    /** The four stores of one rank, in order. */
    method StoreRank(param: Param, i: nat)
      requires Valid() && i < MAX_RANKS && param.Covers(i + 1)
      modifies sendCounts, sendOffset, recvCounts, recvOffset
      ensures Valid()
      ensures var m := old(View());
              View() == m.(sendCounts := m.sendCounts[i := param.sendCounts[i]],
                           sendOffset := m.sendOffset[i := param.sdispls[i]],
                           recvCounts := m.recvCounts[i := param.recvCounts[i]],
                           recvOffset := m.recvOffset[i := param.rdispls[i]])
    {
      sendCounts[i] := param.sendCounts[i];
      sendOffset[i] := param.sdispls[i];
      recvCounts[i] := param.recvCounts[i];
      recvOffset[i] := param.rdispls[i];
    }

    /** Fills the message; `writes` is the list of memory writes it makes. */
    method Assemble(param: Param, rankDim: nat) returns (ghost writes: seq<Write>)
      requires Valid() && rankDim <= MAX_RANKS && param.Covers(rankDim)
      modifies this, sendCounts, sendOffset, recvCounts, recvOffset
      ensures Valid() && writes == Writes(param, rankDim)
      ensures View() == Applied(old(View()), writes)
    {
      var x: nat := 0;
      ghost var start := View();
      writes := [];
      for i := 0 to rankDim
        invariant Valid() && writes == BodyWrites(param, i) && View() == Applied(start, writes)
        invariant x == BodyXor(param, i)
      {
        StoreRank(param, i);
        RankApplied(start, writes, param, i);
        writes := writes + RankWrites(param, i);
        x := Xor(Xor(Xor(Xor(x, sendCounts[i]), sendOffset[i]), recvCounts[i]), recvOffset[i]);
      }
      AppliedNext(start, writes, Write(CheckWord, Xor(x, VALID_MASK)));
      writes := writes + [Write(CheckWord, Xor(x, VALID_MASK))];
      xorCheck := Xor(x, VALID_MASK);
      AppliedNext(start, writes, Write(ValidWord, VALID_MASK));
      writes := writes + [Write(ValidWord, VALID_MASK)];
      valid := VALID_MASK;
    }
  }
}
