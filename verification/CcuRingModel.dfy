/**
  The 64-slot message ring that all handles of one core share on the CCU path.

  `Ring` holds the fields the core keeps (one entry per handle in the five count tables) and two
  history variables: `sent`, the messages written to the CCU, and `requested`, the number of commit
  requests.  Every API call is a function from ring to ring; the class in CcuRing.dfy is proved
  against these functions.
*/
module CcuRingModel {
  import opened Common

  /** HCCL_MAX_HANDLE_ID; the number of slots, CCU_MAX_MSG_NUM, is written 64 throughout. */
  const MAX_HANDLES: nat := 63

  /** Eight-bit addition. */
  function Add8(a: int, b: int): uint8 { (a + b) % 256 }

  /** The repeatIndex-th execution of a handle. */
  datatype Task = Task(handle: nat, repeatIndex: nat)

  datatype Msg = Msg(task: Task, slot: nat)

  datatype Ring = Ring(
    working: bool,
    cur: nat,
    reqId: seq<uint8>,
    repeats: seq<uint8>,
    need: seq<uint8>,
    commit: seq<uint8>,
    finish: seq<uint8>,
    resId: nat,
    waitId: nat,
    avail: seq<bool>,
    commits: nat,
    finishes: nat,
    sent: seq<Msg>,
    requested: nat
  ) {
    predicate Shaped() {
      && |reqId| == |repeats| == |need| == |commit| == |finish| == MAX_HANDLES
      && cur <= MAX_HANDLES && |avail| == 64 && resId < 64 && waitId < 64
    }
  }

  // ---------------------------------------------------------------------------------------------
  // The API calls
  // ---------------------------------------------------------------------------------------------

  predicate Initial(r: Ring) {
    && r.Shaped()
    && r.cur == r.resId == r.waitId == r.commits == r.finishes == r.requested == 0
    && r.sent == []
    && forall s | 0 <= s < 64 :: r.avail[s]
  }

  /** Writes one message to the slot at `resId` and advances `resId`. */
  function SendNext(r: Ring, h: nat, repeatIndex: nat): (r': Ring)
    requires r.Shaped() && h < MAX_HANDLES
    ensures r'.Shaped()
  {
    r.(sent := if r.working then r.sent + [Msg(Task(h, repeatIndex), r.resId)] else r.sent,
       avail := r.avail[r.resId := false],
       commit := r.commit[h := Add8(r.commit[h], 1)],
       commits := r.commits + 1,
       resId := (r.resId + 1) % 64)
  }

  function CommitMsg(r: Ring, h: nat): (r': Ring)
    requires r.Shaped() && h < MAX_HANDLES
    ensures r'.Shaped()
  {
    SendNext(r, h, r.commit[h])
  }

  function Request(r: Ring, h: nat, n: uint8): (r': Ring)
    requires r.Shaped() && h < MAX_HANDLES
    ensures r'.Shaped()
  {
    r.(need := r.need[h := Add8(r.need[h], n)], requested := r.requested + n)
  }

  predicate ValidHandle(h: int) { 0 <= h < MAX_HANDLES }

  function Commit(r: Ring, h: int): (r': Ring)
    requires r.Shaped()
    ensures r'.Shaped()
  {
    if !ValidHandle(h) then r
    else
      var q := Request(r, h, 1);
      if q.avail[q.resId] then CommitMsg(q, h) else q
  }

  /** The loop of CommitMsgInner from its i-th round on. */
  function CommitLoop(r: Ring, h: nat, i: nat): (r': Ring)
    requires r.Shaped() && h < MAX_HANDLES
    ensures r'.Shaped() && r'.repeats == r.repeats && r'.reqId == r.reqId && r'.finish == r.finish
    decreases r.repeats[h] - i
  {
    if i < r.repeats[h] && r.avail[r.resId] then CommitLoop(SendNext(r, h, i), h, i + 1) else r
  }

  function CommitMsgInner(r: Ring, h: nat): (r': Ring)
    requires r.Shaped() && h < MAX_HANDLES
    ensures r'.Shaped()
  {
    CommitLoop(Request(r, h, r.repeats[h]), h, 0)
  }

  /** Registers handle `cur`: zeroed counts and the slot of its first task. */
  function Register(r: Ring, repeat: uint8): (r': Ring)
    requires r.Shaped() && r.cur < MAX_HANDLES
    ensures r'.Shaped()
  {
    var h := r.cur;
    var reqId := if h == 0 then 0 else r.reqId[h - 1] as int + r.repeats[h - 1] as int;
    r.(reqId := r.reqId[h := reqId % 64], repeats := r.repeats[h := repeat],
       need := r.need[h := 0], commit := r.commit[h := 0], finish := r.finish[h := 0])
  }

  function Prepare(r: Ring, repeat: uint8, commit: bool): (r': Ring)
    requires r.Shaped() && r.cur < MAX_HANDLES
    ensures r'.Shaped()
  {
    if repeat == 0 then r
    else
      var q := Register(r, repeat);
      var q' := if commit then CommitMsgInner(q, r.cur) else q;
      q'.(cur := r.cur + 1)
  }

  /** The slot whose completion flag Wait reads; the sum is an 8-bit sum. */
  function WaitSlot(r: Ring, h: nat): (s: nat)
    requires r.Shaped() && h < MAX_HANDLES
    ensures s < 64
  {
    Add8(r.reqId[h], r.finish[h]) % 64
  }

  /** Wait accepts the handle; otherwise it fails and changes nothing. */
  predicate WaitAccepts(r: Ring, h: int)
    requires r.Shaped()
  {
    ValidHandle(h) && r.need[h] > 0
  }

  /** Frees the slot of the finished task. */
  function Retire(r: Ring, h: nat): (r': Ring)
    requires r.Shaped() && h < MAX_HANDLES
    ensures r'.Shaped()
  {
    r.(avail := r.avail[WaitSlot(r, h) := true], finish := r.finish[h := Add8(r.finish[h], 1)],
       finishes := r.finishes + 1, waitId := (r.waitId + 1) % 64)
  }

  predicate Deficit(r: Ring, h: nat)
    requires r.Shaped() && h < MAX_HANDLES
  {
    r.commit[h] < r.need[h]
  }

  /** Wait's hidden re-send: this handle's deferred task, else the next handle's, else none. */
  function Resend(r: Ring, h: nat): (r': Ring)
    requires r.Shaped() && h < MAX_HANDLES
    ensures r'.Shaped()
  {
    if Deficit(r, h) then CommitMsg(r, h)
    else if h + 1 < r.cur && Deficit(r, h + 1) then CommitMsg(r, h + 1)
    else r
  }

  function Wait(r: Ring, h: int): (r': Ring)
    requires r.Shaped()
    ensures r'.Shaped()
  {
    if WaitAccepts(r, h) then Resend(Retire(r, h), h) else r
  }

  // ---------------------------------------------------------------------------------------------
  // Program order and the CCU discipline
  // ---------------------------------------------------------------------------------------------

  /** Number of tasks of the first h handles. */
  function Prefix(reps: seq<uint8>, h: nat): nat
    requires h <= |reps|
  {
    if h == 0 then 0 else Prefix(reps, h - 1) + reps[h - 1]
  }

  /** The i-th task when handles are listed in Prepare order and each handle in repeat order. */
  function TaskAt(reps: seq<uint8>, n: nat, i: nat): Task
    requires n <= |reps| && i < Prefix(reps, n)
  {
    if i >= Prefix(reps, n - 1) then Task(n - 1, i - Prefix(reps, n - 1)) else TaskAt(reps, n - 1, i)
  }

  /** The messages sent so far are the first tasks in program order, in consecutive slots. */
  predicate SentInOrder(r: Ring)
    requires r.Shaped()
  {
    && |r.sent| <= Prefix(r.repeats, r.cur)
    && forall i | 0 <= i < |r.sent| :: r.sent[i] == Msg(TaskAt(r.repeats, r.cur, i), i % 64)
  }

  predicate EarlierRequested(r: Ring, h: nat)
    requires r.Shaped() && h <= r.cur
  {
    forall g | 0 <= g < h :: r.need[g] == r.repeats[g]
  }

  predicate NoEarlierDeficit(r: Ring, h: nat)
    requires r.Shaped() && h <= r.cur
  {
    forall g | 0 <= g < h :: !Deficit(r, g)
  }

  predicate EarlierWaited(r: Ring, h: nat)
    requires r.Shaped() && h <= r.cur
  {
    forall g | 0 <= g < h :: r.finish[g] == r.repeats[g]
  }

  datatype Call = PrepareCall(repeat: uint8, commit: bool) | CommitCall(handle: int) | WaitCall(handle: int)

  predicate CommitAllowed(r: Ring, h: int)
    requires r.Shaped()
  {
    && 0 <= h < r.cur && r.need[h] < r.repeats[h] && EarlierRequested(r, h)
    && (r.avail[r.resId] ==> NoEarlierDeficit(r, h))
  }

  predicate PrepareAllowed(r: Ring, repeat: uint8, commit: bool)
    requires r.Shaped()
  {
    && r.cur < MAX_HANDLES
    && (commit && repeat > 0 ==> EarlierRequested(r, r.cur) && (r.avail[r.resId] ==> NoEarlierDeficit(r, r.cur)))
  }

  predicate WaitAllowed(r: Ring, h: int)
    requires r.Shaped()
  {
    0 <= h < r.cur && r.finish[h] < r.need[h] && EarlierWaited(r, h)
  }

  /** The CCU discipline: requests in program order, no request into a free slot past an earlier
      handle's deferred task, waits in Prepare order. */
  predicate Allowed(r: Ring, c: Call)
    requires r.Shaped()
  {
    match c
    case PrepareCall(n, commit) => PrepareAllowed(r, n, commit)
    case CommitCall(h) => CommitAllowed(r, h)
    case WaitCall(h) => WaitAllowed(r, h)
  }

  function Step(r: Ring, c: Call): (r': Ring)
    requires r.Shaped() && (c.PrepareCall? ==> r.cur < MAX_HANDLES)
    ensures r'.Shaped()
  {
    match c
    case PrepareCall(n, commit) => Prepare(r, n, commit)
    case CommitCall(h) => Commit(r, h)
    case WaitCall(h) => Wait(r, h)
  }

  predicate Disciplined(r: Ring, calls: seq<Call>)
    requires r.Shaped()
    decreases |calls|
  {
    calls == [] || (Allowed(r, calls[0]) && Disciplined(Step(r, calls[0]), calls[1..]))
  }

  function Run(r: Ring, calls: seq<Call>): (r': Ring)
    requires r.Shaped() && Disciplined(r, calls)
    ensures r'.Shaped()
    decreases |calls|
  {
    if calls == [] then r else Run(Step(r, calls[0]), calls[1..])
  }

  // ---------------------------------------------------------------------------------------------
  // The invariant
  // ---------------------------------------------------------------------------------------------

  /** Of the first x tasks in program order, how many belong to a handle whose tasks start at p. */
  function Share(x: nat, p: nat, n: nat): (k: nat)
    ensures k <= n
  {
    if x <= p then 0 else if x - p < n then x - p else n
  }

  /** Handle h's counts are its shares of the three totals. */
  predicate HandleAgrees(r: Ring, h: nat)
    requires r.Shaped() && h < r.cur
  {
    var p, n := Prefix(r.repeats, h), r.repeats[h];
    && n >= 1 && r.reqId[h] == p % 64
    && r.need[h] == Share(r.requested, p, n)
    && r.commit[h] == Share(r.commits, p, n)
    && r.finish[h] == Share(r.finishes, p, n)
  }

  predicate HandlesAgree(r: Ring)
    requires r.Shaped()
  {
    forall h | 0 <= h < r.cur :: HandleAgrees(r, h)
  }

  /** Slot s is in use exactly when it lies in the cyclic window of length t - f that starts at f. */
  predicate InWindow(s: nat, f: nat, t: nat) { (s - f) % 64 < t - f }

  predicate WindowAgrees(r: Ring)
    requires r.Shaped()
  {
    && r.finishes <= r.commits <= r.finishes + 64
    && r.resId == r.commits % 64 && r.waitId == r.finishes % 64
    && forall s | 0 <= s < 64 :: r.avail[s] <==> !InWindow(s, r.finishes, r.commits)
  }

  predicate Core(r: Ring) {
    && r.Shaped()
    && r.commits <= r.requested <= Prefix(r.repeats, r.cur)
    && HandlesAgree(r)
    && WindowAgrees(r)
    && |r.sent| == (if r.working then r.commits else 0) && SentInOrder(r)
  }

  /** While some request is deferred, some message is in flight, so a Wait will come to re-send it. */
  predicate Inv(r: Ring) {
    Core(r) && (r.commits < r.requested ==> r.finishes < r.commits)
  }
}
