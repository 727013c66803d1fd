# Verified model of the device-side communication client

This project models the hard parts of the collective and point-to-point communication client and proves
what they promise. Objects that the client updates in place are Dafny classes whose methods are proved
against functions on values; the promises are lemmas about those functions, mostly over whole runs.

| component | files |
|---|---|
| CCU message ring: 64 slots shared by up to 63 handles, deferred commits, hidden re-sends, Finalize | `CcuRingModel.dfy`, `CcuRingProofs.dfy`, `CcuRingTheorems.dfy`, `CcuRingOrder.dfy`, `CcuRingRuns.dfy`, `CcuRing.dfy` |
| Soft synchronisation of the other cores with the working core | `SoftSync.dfy` |
| RoCE send and completion queues | `RoceModel.dfy`, `RoceChannel.dfy` |
| Direct-drive handle tables | `HandleTables.dfy`, `DirectDrive.dfy` |
| AICPU counters and the pairwise AlltoAllV schedule | `AicpuModel.dfy`, `AicpuCounts.dfy`, `AicpuSchedule.dfy`, `AicpuClient.dfy` |
| Publication of messages to the AICPU server | `MachineWords.dfy`, `MsgPublish.dfy` |
| CCU slices and packed register sizes | `CcuSlicing.dfy`, `CcuPrepare.dfy` |
| Serialisation | `StreamModel.dfy`, `BinaryStream.dfy` |
| Algorithm settings and the table they fill | `AlgConfig.dfy`, `AlgTable.dfy`, `AlgParser.dfy`, `AlgEnvConfig.dfy` |
| List mirrored in host and device pointers | `MirroredList.dfy` |
| Quotients and remainders; shared types | `Arithmetic.dfy`, `Common.dfy` |

The CCU, the NIC and the server are environment: their steps are free (`SoftSync`), or their behaviour is a
parameter (`RoceChannel`'s readiness function). `ASCENDC_HCCL_API_ASSERT` is empty in release builds, so its
conditions are preconditions where the code relies on them and are absent where it does not.

Where a promise does not hold on every input, the exact condition is proved:

- **Safe requests.** A request (a Commit, or a Prepare with commit) is safe when, however the run then goes on under
  the discipline, every in-order Wait finds its own task in the slot it reads. With a free slot it is safe exactly
  when every earlier handle has sent all its repeats. With a full ring, where nothing is sent at once, it is safe
  exactly when every earlier handle is fully requested or the handle just before has a single repeat: that one
  cannot be waited for before it is fully requested, so the early request is not re-sent too soon
  (`CommitRunSafeIff`, `PrepareRunSafeIff`). A Commit is assumed to be one of at most `repeat` for its handle.
- **Messages sent at once.** Judged right after the call, the messages that it sends keep program order exactly when
  every earlier handle has sent all its repeats and this one has a repeat left (`CommitKeepsOrderIff`,
  `PrepareKeepsOrderIff`), and go to the slots that their own Waits read exactly when they are a whole number of
  rounds of the ring, a multiple of 64, ahead of program order (`CommitKeepsAgreementIff`,
  `PrepareKeepsAgreementIff`). After handles of 1, 1 and n repeats (n at least 63) and one Wait, a fourth handle
  always breaks order. With n = 63 its message goes to slot 0 while its Wait reads slot 1 (`SlotAgreementFails`).
  With n = 126 both are slot 0, but not for long: for every n the next in-order Wait re-sends a message of the third
  handle in a slot that its Wait will not read, and no such request is safe (`FourthHandleIsUnsafe`).
- **Soft sync.** A follower that returns on a completion flag returns for a completed message exactly when it
  is fewer than 64 Waits ahead of the working core. `FarFollowerReturnsEarly` is a run that breaks it.
- **RoCE slots.** On a fresh channel no outstanding request is overwritten in any run exactly when the limit on
  outstanding requests is at most sqDepth. The limit is cqDepth - 10 for completion queues deeper than 10; for
  others it is -10 modulo cqDepth, or cqDepth if that is 0.
- **AICPU waits.** A Wait asks for more steps than were committed in some run exactly when the handle was
  committed at Prepare and repeat * steps is not a multiple of stepSize; such a Wait cannot be satisfied. A Wait
  asks for more steps than the handle has in some run exactly when repeat * steps is not a multiple of stepSize,
  committed at Prepare or not.
- **AICPU slices.** Some number of Iterate calls ends the series and visits every rank exactly `repeat` times exactly
  when the number of slices of one call divides repeat * rankDim (`IterateVisitsIff`). The 16-bit slice counter never
  wraps exactly when the calls needed to cover the steps end below 2^16 (`NeverWrapsIff`), and over all runs with
  calls of at most L slices exactly when repeat * rankDim - 1 + L does (`SliceStaysInRangeIff`). When it wraps the
  series may not end: Iterate ever returns 0 exactly when the largest power of two that divides the slices of a call
  is at most 2^16 - repeat * rankDim (`SeriesEndsIff`). With 255 repeats, 256 ranks and 512 slices a call it never
  does (`EndlessSeries`).
- **M2M AllReduce.** The slices tile the buffer, and the packed size agrees with register 8 on every rank,
  exactly when count / ceil(count / rankNum) >= rankNum - 1. Otherwise several ranks get the short last slice,
  and unless it is empty, some rank reaches past the end of the buffer (`FiveElementsOnFourRanks`). Registers
  4 and 5 miss the start of the last rank's slice by its rank times the elements that all ranks' full slices have
  too many, modulo 2^64 (`RankSliceOffsetIs`). As long as ranks * ranks elements stay below 2^64 bytes they hold
  the start exactly when the last rank's slice is not short or it is the only rank (`RankSliceOffsetIsStartIff`);
  with several short ranks they wrap below zero (`LastOffsetWraps`).
- **Algorithm table.** A setting is accepted exactly when, without its spaces, it is empty or a printed
  configuration (`AcceptedIff`). An item for all "others" is never accepted, because the second pass knows only
  operations' names; by then the first pass has already overwritten the whole table (`RefusedOthersOverwrite`). A
  refused string leaves every table as it was exactly when it does not come down to items per operation, or the first
  item to be entered is already bad: the first one for all "others" if there is one, otherwise the first one
  (`RefusedConfigUnchangedIff`, `RefusedUnchangedIff`). So "allreduce=level0:ring/foo=level0:ring" fails and leaves
  allreduce changed (`RefusedKeepsEarlierItems`).
- **Register packing.** Sizes are encoded without loss exactly when there are at most 129 loops.

## Model

| member | source | states |
|---|---|---|
| CcuRing.CcuRing.constructor | src/collective_comm/device/impl/platform_v310/hccl_ccu_v0.h:160-172 | a new ring has all 64 slots free and all counters at 0 |
| CcuRing.CcuRing.CommitMsgInner | src/collective_comm/device/impl/platform_v310/hccl_ccu_v0.h:283-305 | in place, the effect on the ring's value of requesting all repeats and sending while slots are free |
| CcuRing.CcuRing.Prepare | src/collective_comm/device/impl/platform_v310/hccl_ccu_v0.h:341-401 | registers the next handle with its first slot and zero counts, commits it if asked; repeat 0 gives -1 and changes nothing |
| CcuRing.CcuRing.CommitMsg | src/collective_comm/device/impl/platform_v310/hccl_ccu_v0.h:459-472 | sends the handle's next repeat to the slot at resId |
| CcuRing.CcuRing.Commit | src/collective_comm/device/impl/platform_v310/hccl_ccu_v0.h:475-494 | records the request; sends only if the slot at resId is free; invalid handles change nothing |
| CcuRing.CcuRing.Wait | src/collective_comm/device/impl/platform_v310/hccl_ccu_v0.h:497-565 | frees the slot derived from the handle's own counts, counts the finish, and re-sends a deferred message of this or the next handle |
| CcuRing.CcuRing.Finalize | src/collective_comm/device/impl/platform_v310/hccl_ccu_v0.h:569-592 | the loop terminates with every requested message finished, and the end marker goes to the slot after the last message; other cores do nothing |
| CcuRingProofs.RunKeepsInv | src/collective_comm/device/impl/platform_v310/hccl_ccu_v0.h:283-305 | every disciplined run keeps: per-handle counts are shares of three totals, slots in use are the cyclic window, sent messages are program order, and a deferred request implies a message in flight |
| CcuRingProofs.PrepareCommits | src/collective_comm/device/impl/platform_v310/hccl_ccu_v0.h:283-305 | committing at Prepare requests all repeats and sends exactly as many as the ring has room for |
| CcuRingProofs.ResendPicksNext | src/collective_comm/device/impl/platform_v310/hccl_ccu_v0.h:551-560 | the re-send picks the handle whose message comes next in program order; if it picks none although one is deferred, a message is in flight |
| CcuRingProofs.WaitSlotIsOldest | src/collective_comm/device/impl/platform_v310/hccl_ccu_v0.h:520-521 | the slot computed from handleReqId_ and handleFinishCnt_ with 8-bit wrap is the oldest slot in use |
| CcuRingTheorems.WaitReadsItsOwnTask | src/collective_comm/device/impl/platform_v310/hccl_ccu_v0.h:520-560 | after any disciplined run an in-order Wait finds its message in flight, reads the slot that very message was sent in, and its re-send has a free slot |
| CcuRingTheorems.ResendHasAFreeSlot | src/collective_comm/device/impl/platform_v310/hccl_ccu_v0.h:551-560 | the unchecked re-send never hits a slot in use and follows program order |
| CcuRingTheorems.SlotsInUseAreAWindow | src/collective_comm/device/impl/platform_v310/hccl_ccu_v0.h:467-471 | after any disciplined run the slots in use run cyclically from waitId to resId, as many as messages sent and not waited for, at most 64 |
| CcuRingTheorems.SentOnceInOrder | src/collective_comm/device/impl/platform_v310/hccl_ccu_v0.h:285-304 | after any disciplined run each repeat of each handle was sent at most once, at its place in program order, and was sent exactly if its index is below the commit count |
| CcuRingOrder.CommitKeepsOrderIff | src/collective_comm/device/impl/platform_v310/hccl_ccu_v0.h:486-493 | exact condition under which a Commit that finds a free slot keeps program order |
| CcuRingOrder.DisciplineIsWhatOrderNeeds | src/collective_comm/device/impl/platform_v310/hccl_ccu_v0.h:486-493 | for in-order requests the condition is that no earlier handle has a deferred commit |
| CcuRingOrder.PrepareKeepsOrderIff | src/collective_comm/device/impl/platform_v310/hccl_ccu_v0.h:285-304 | exact condition under which the messages that preparing and committing a handle sends at once keep program order |
| CcuRingOrder.InvSlotsAgree | src/collective_comm/device/impl/platform_v310/hccl_ccu_v0.h:356-357 | in every state of a disciplined run each message was sent in the slot its own Wait reads |
| CcuRingOrder.CommitKeepsAgreementIff | src/collective_comm/device/impl/platform_v310/hccl_ccu_v0.h:467-493 | exact condition under which a message that a Commit sends at once goes to the slot its own Wait reads |
| CcuRingOrder.PrepareKeepsAgreementIff | src/collective_comm/device/impl/platform_v310/hccl_ccu_v0.h:285-304 | exact condition under which the messages that preparing and committing a handle sends at once go to the slots their own Waits read |
| CcuRingOrder.FourthHandleBreaksOrder | src/collective_comm/device/impl/platform_v310/hccl_ccu_v0.h:285-304 | a family of runs whose last request always breaks order, and whose message at once agrees with its slot exactly when n + 2 is a multiple of 64 |
| CcuRingOrder.SlotAgreementFails | src/collective_comm/device/impl/platform_v310/hccl_ccu_v0.h:285-304 | a run that breaks only that condition: the message sits in slot 0, its Wait reads slot 1 |
| CcuRingRuns.CommitRunSafeIff | src/collective_comm/device/impl/platform_v310/hccl_ccu_v0.h:475-560 | exact condition, readable before the call, under which after a Commit every in-order Wait of every disciplined continuation finds its own task in the slot it reads |
| CcuRingRuns.PrepareRunSafeIff | src/collective_comm/device/impl/platform_v310/hccl_ccu_v0.h:283-401 | the same for preparing and committing a handle |
| CcuRingRuns.FourthHandleIsUnsafe | src/collective_comm/device/impl/platform_v310/hccl_ccu_v0.h:551-560 | every run of the family fails that promise: the next in-order Wait already re-sends into a wrong slot |
| CcuRingRuns.WaitAcceptedIff | src/collective_comm/device/impl/platform_v310/hccl_ccu_v0.h:510-520 | read off the list of calls: one handle per Prepare with a repeat, with the requests the calls made; a Wait is accepted exactly when its handle has one, and otherwise changes nothing |
| CcuRingRuns.NextWait | src/collective_comm/device/impl/platform_v310/hccl_ccu_v0.h:497-565 | while a requested task is not waited for, some handle can be waited for in order |
| CcuRingRuns.WaitsDrain | src/collective_comm/device/impl/platform_v310/hccl_ccu_v0.h:497-565 | from every state of a disciplined run, as many in-order Waits as there are requested tasks left finish them all and free the ring |
| CcuRingTheorems.FinishLast | src/collective_comm/device/impl/platform_v310/hccl_ccu_v0.h:575-588 | waiting out the last handle ends with all requests sent and finished, all slots free, and waitId equal to resId |
| SoftSync.RunKeepsInv | src/collective_comm/device/impl/platform_v310/hccl_ccu_v0.h:525-549 | invariant of every interleaving of the CCU, the working core and any followers, one memory access per step |
| SoftSync.FlagReturnIsSafeIff | src/collective_comm/device/impl/platform_v310/hccl_ccu_v0.h:525-542 | a follower's return on the flag is for a completed message exactly when it is fewer than 64 Waits ahead |
| SoftSync.CountReturnIsSafe | src/collective_comm/device/impl/platform_v310/hccl_ccu_v0.h:536-541 | a return on the shared counter is always for a completed message |
| SoftSync.FollowersReturnAfterCompletion | src/collective_comm/device/impl/platform_v310/hccl_ccu_v0.h:525-547 | in every interleaving all Waits a near follower returned from were for completed messages |
| SoftSync.CompletionAlwaysVisible | src/collective_comm/device/impl/platform_v310/hccl_ccu_v0.h:528-533 | in every reachable state a completed message shows in its flag or in the counter |
| SoftSync.LateFollowerGetsThrough | src/collective_comm/device/impl/platform_v310/hccl_ccu_v0.h:525-542 | once its message completed a follower returns within three reads of its own, whatever runs in between |
| SoftSync.WorkerGetsThrough | src/collective_comm/device/impl/platform_v310/hccl_ccu_v0.h:525-533 | once its message completed the working core returns within three steps of its own and has raised the counter past it, whatever runs in between |
| SoftSync.UnfinishedHoldsWorker | src/collective_comm/device/impl/platform_v310/hccl_ccu_v0.h:525-533 | a message that has not completed holds the working core in its poll |
| SoftSync.FarFollowerReturnsEarly | src/collective_comm/device/impl/platform_v310/hccl_ccu_v0.h:525-542 | a run in which a follower 64 Waits ahead returns for a message that was never sent |
| RoceChannel.FindBufferIdx | include/aicore/hcomm/detail/common/hcomm_utils.h:102-127 | the first registered buffer that covers the range, or -1 exactly when none does |
| RoceChannel.PostIs | include/aicore/hcomm/detail/impl/platform_v310/hcomm_aiv_roce.h:144-163 | at the limit a post takes the next completions, at most 100, and fails unless exactly these show up; then both tails have moved by that number and it fails only without a registered buffer |
| RoceChannel.CoversIff | include/aicore/hcomm/detail/common/hcomm_utils.h:102-127 | the test without overflow is that the whole range lies in the buffer |
| RoceChannel.RoceChannel.MakeWqe | include/aicore/hcomm/detail/impl/platform_v310/hcomm_aiv_roce.h:71-121 | writes only slot head % sqDepth, and fails exactly when a buffer is not registered |
| RoceChannel.RoceChannel.PollCq | include/aicore/hcomm/detail/impl/platform_v310/hcomm_aiv_roce.h:264-315 | succeeds exactly if every completion up to expectIdx showed up within the retries; then both tails reach expectIdx, otherwise neither is stored |
| RoceChannel.RoceChannel.PostSend | include/aicore/hcomm/detail/impl/platform_v310/hcomm_aiv_roce.h:124-171 | polls at the limit, then posts one request at the head, or fails with the state it leaves, as in PostIs |
| RoceChannel.RoceChannel.WriteNbi | include/aicore/hcomm/detail/impl/platform_v310/hcomm_aiv_roce.h:174-180 | a post whose remote buffer is the destination; without a channel it fails and changes nothing |
| RoceChannel.RoceChannel.ReadNbi | include/aicore/hcomm/detail/impl/platform_v310/hcomm_aiv_roce.h:183-189 | a post whose remote buffer is the source; without a channel it fails and changes nothing |
| RoceChannel.RoceChannel.Drain | include/aicore/hcomm/detail/impl/platform_v310/hcomm_aiv_roce.h:318-332 | on success both tails equal the head, which is unchanged |
| RoceModel.PollsAtThreshold | include/aicore/hcomm/detail/impl/platform_v310/hcomm_aiv_roce.h:144-146 | the equality test fires exactly at the limit on outstanding requests, cqDepth - 10 for depths above 10 |
| RoceModel.OccupancyBounded | include/aicore/hcomm/detail/impl/platform_v310/hcomm_aiv_roce.h:144-163 | over every run with any failures and for every depth, head - tail stays within the limit and the two tails stay equal |
| RoceModel.DrainIsAllOrNothing | include/aicore/hcomm/detail/impl/platform_v310/hcomm_aiv_roce.h:318-332 | after any run a drain empties the queue or changes nothing |
| RoceModel.NoOverwrite | include/aicore/hcomm/detail/impl/platform_v310/hcomm_aiv_roce.h:84-86 | over every run each outstanding request is still in its slot when the limit is at most sqDepth |
| RoceModel.SafeDepths | include/aicore/hcomm/detail/impl/platform_v310/hcomm_aiv_roce.h:84-86 | on a fresh channel that holds in all runs exactly when the limit is at most sqDepth |
| MirroredList.ListCommonInit | src/aicore/mc2/src/aicpu_kfc/pub_inc/aicpu_operator_pub.h:261-271 | an initialised head is a circular list of one node; a null host pointer changes nothing |
| MirroredList.ListCommonAddHead | src/aicore/mc2/src/aicpu_kfc/pub_inc/aicpu_operator_pub.h:273-290 | adding a fresh node keeps the circular doubly linked list with mirrored device pointers, the new node first; null pointers change nothing |
| MirroredList.InitAndAdd | src/aicore/mc2/src/aicpu_kfc/pub_inc/aicpu_operator_pub.h:261-290 | after initialising a head and adding any distinct nodes, the list is circular with the nodes newest first and mirrored device pointers |
| MirroredList.WalksAreMirrored | src/aicore/mc2/src/aicpu_kfc/pub_inc/aicpu_operator_pub.h:280-289 | the forward walk visits the nodes newest first, the backward walk in reverse, both ending at the head |
| MirroredList.DeviceLinksMirrorHostLinks | src/aicore/mc2/src/aicpu_kfc/pub_inc/aicpu_operator_pub.h:286-289 | every device pointer is the device image of the matching host pointer |
| StreamModel.RoundTrip | src/collective_comm/cc/hccl/common/binary_stream.h:34-120 | for every nesting of types, reading back what was written gives the value and leaves exactly the remaining bytes |
| StreamModel.ReadMerges | src/collective_comm/cc/hccl/common/binary_stream.h:63-120 | reading into any existing object: plain values and strings are replaced, vectors resized and read in place, maps overridden |
| StreamModel.MapReadOverrides | src/collective_comm/cc/hccl/common/binary_stream.h:107-120 | reading a map into a non-empty map gives the override union, in key order |
| StreamModel.VectorReadsInPlace | src/collective_comm/cc/hccl/common/binary_stream.h:81-91 | each element is read into the existing element at its place, or into a fresh object behind the end |
| StreamModel.SizeBytes | src/collective_comm/cc/hccl/common/binary_stream.h:57-58 | a size is written as its eight bytes, the lowest first |
| StreamModel.VectorGrows | src/collective_comm/cc/hccl/common/binary_stream.h:43-52 | one more element adds its bytes at the end and 1 to the size in front |
| StreamModel.MapGrows | src/collective_comm/cc/hccl/common/binary_stream.h:94-104 | one more entry adds the bytes of its key and then of its value, and 1 to the size |
| StreamModel.SizeReadsBack | src/collective_comm/cc/hccl/common/binary_stream.h:57-58 | an 8-byte size below 2^64 reads back |
| BinaryStream.BinaryStream.Write | src/collective_comm/cc/hccl/common/binary_stream.h:35-61 | appends exactly the value's encoding |
| BinaryStream.BinaryStream.WriteVector | src/collective_comm/cc/hccl/common/binary_stream.h:43-52 | the loop appends the size and the encoded elements |
| BinaryStream.BinaryStream.WriteMap | src/collective_comm/cc/hccl/common/binary_stream.h:94-104 | the loop appends the size and the encoded keys and values |
| BinaryStream.BinaryStream.Read | src/collective_comm/cc/hccl/common/binary_stream.h:63-78 | consumes from the position on what Read on values consumes, with its result |
| BinaryStream.BinaryStream.ReadVector | src/collective_comm/cc/hccl/common/binary_stream.h:81-91 | the loop reads each element into the slot the resized vector has for it |
| BinaryStream.BinaryStream.ReadMap | src/collective_comm/cc/hccl/common/binary_stream.h:107-120 | the loop inserts the entries read one by one |
| HandleTables.MarksAreWhatCallsCover | src/direct_drive/device/impl/platform_v310/hcomm_aiv.h:165-343 | read off the list of calls: a handle is committed exactly when a write or read that asked for it, or a Commit of an existing handle, was for it or a later handle of its channel, and waited for exactly when a Wait of a committed handle was; and which calls are accepted |
| HandleTables.RunKeepsInv | src/direct_drive/device/impl/platform_v310/hcomm_aiv.h:165-174 | on each channel the marks stay downward closed and waited handles are committed, by every write, read, Commit and Wait |
| HandleTables.NewHandleCanBeWaitedFor | src/direct_drive/device/impl/platform_v310/hcomm_aiv.h:165-174 | a handle committed when it is taken can be waited for once; one that is not can still be committed |
| DirectDrive.DirectDrive.JudgeHandleId | src/direct_drive/device/impl/platform_v310/hcomm_aiv.h:195-225 | which handles Commit and Wait accept |
| DirectDrive.DirectDrive.MarkBackwards | src/direct_drive/device/impl/platform_v310/hcomm_aiv.h:256-265 | the loop with its early break marks exactly every handle up to h of h's channel |
| DirectDrive.DirectDrive.Commit | src/direct_drive/device/impl/platform_v310/hcomm_aiv.h:228-267 | accepted calls mark the commit table as above, others change nothing |
| DirectDrive.DirectDrive.Wait | src/direct_drive/device/impl/platform_v310/hcomm_aiv.h:270-343 | accepted calls mark the wait table as above, others change nothing |
| DirectDrive.DirectDrive.Operate | src/direct_drive/device/impl/platform_v310/hcomm_aiv.h:165-178 | takes the next handle for the channel and commits it if asked |
| AicpuModel.CountersStayInRange | src/collective_comm/device/common/hccl_aicpu_impl.h:403-444 | in every run with up to 256 ranks: commits < steps + unit, waits < commits + unit, and these two 16-bit sums do not wrap (the slice counter is in AicpuSchedule) |
| AicpuCounts.CountsAre | src/collective_comm/device/common/hccl_aicpu_impl.h:403-444 | read off the list of calls from repeat, stepSize and rank number: how many steps are committed and how many waited for after every run |
| AicpuCounts.PlainCountsAre | src/collective_comm/device/common/hccl_aicpu_impl.h:403-444 | with stepSize 0: min(Commits, repeat) committed, or repeat if committed at Prepare; one waited for per accepted Wait; waits <= commits <= repeat |
| AicpuCounts.FineCommitsBound | src/collective_comm/device/common/hccl_aicpu_impl.h:262-266 | with a step size: commits are at most repeat * rankDim + stepSize - 1 |
| AicpuModel.WaitsWithinCommitsIff | src/collective_comm/device/common/hccl_aicpu_impl.h:403-420 | waits never exceed commits in any run exactly when the handle was not committed at Prepare or its steps are a multiple of stepSize |
| AicpuModel.WaitsWithinStepsIff | src/collective_comm/device/common/hccl_aicpu_impl.h:403-444 | waits never exceed the handle's steps in any run exactly when the steps are a multiple of stepSize |
| AicpuModel.PeersAre | src/collective_comm/device/impl/platform_v220/hccl_aicpu.h:418-428 | the async peer is the rank k places after, the sync peer the one k places before, and slice 0 is the rank itself |
| AicpuModel.PeersAreDual | src/collective_comm/device/impl/platform_v220/hccl_aicpu.h:418-428 | rank a's async peer is b exactly when rank b's sync peer is a, for every rank count and step |
| AicpuModel.EveryRankOnce | src/collective_comm/device/impl/platform_v220/hccl_aicpu.h:418-428 | any rankDim consecutive slices visit every rank, none twice |
| AicpuModel.SlicesWaitPerStep | src/collective_comm/device/impl/platform_v220/hccl_aicpu.h:418-428 | after a call of any 16-bit length the waited count is stepSize * floor(slice / stepSize) exactly when no Wait was due or the last one found a step committed; if the slice counter wrapped, exactly when it came back into the same step with nothing left to wait for |
| AicpuClient.AicpuClient.Prepare | src/collective_comm/device/common/hccl_aicpu_impl.h:241-271 | the next handle starts with its repeat, and with all its steps committed if asked; other handles are untouched |
| AicpuClient.AicpuClient.Commit | src/collective_comm/device/common/hccl_aicpu_impl.h:425-445 | one unit more unless all steps are committed; other handles are untouched |
| AicpuClient.AicpuClient.Wait | src/collective_comm/device/common/hccl_aicpu_impl.h:390-422 | fails exactly if no committed step is left; otherwise one unit more |
| AicpuModel.StepsFit | src/collective_comm/device/common/hccl_aicpu_impl.h:162-191 | for up to 256 ranks a repeat has one step or one per rank, at least one, and repeat * steps fits the 16-bit counter |
| AicpuSchedule.IterateVisitsIff | src/collective_comm/device/impl/platform_v220/hccl_aicpu.h:408-429 | for every 16-bit sequence length, some number of calls ends the series and visits every rank exactly repeat times exactly when the length divides repeat * rankDim |
| AicpuSchedule.NeverWrapsIff | src/collective_comm/device/impl/platform_v220/hccl_aicpu.h:403-428 | a series of calls never wraps the 16-bit slice counter exactly when the calls needed to cover the steps end below 2^16 |
| AicpuSchedule.SliceStaysInRangeIff | src/collective_comm/device/impl/platform_v220/hccl_aicpu.h:403-428 | over all runs with calls of at most L slices the slice counter never wraps exactly when the steps less one and L together stay below 2^16 |
| AicpuSchedule.SeriesEndsIff | src/collective_comm/device/impl/platform_v220/hccl_aicpu.h:403-428 | Iterate ever returns 0 exactly when the largest power of two dividing the length is at most 2^16 less the steps |
| AicpuSchedule.EndlessSeries | src/collective_comm/device/impl/platform_v220/hccl_aicpu.h:403-428 | with 255 repeats on 256 ranks and 512 slices a call Iterate never returns 0 |
| AicpuClient.AicpuClient.GetStepSizeByHandle | src/collective_comm/device/common/hccl_aicpu_impl.h:160-184 | positive exactly for an AlltoAllV handle with a positive step size in the tiling of a version that has one |
| AicpuClient.AicpuClient.Iterate | src/collective_comm/device/impl/platform_v220/hccl_aicpu.h:389-430 | fills the array with the peers of the next slices and nothing else, and returns 0 past the last slice |
| MachineWords.XorChange | src/collective_comm/device/common/hccl_aicpu_common.h:28-35 | changing one word changes the XOR of all words by the old and the new word |
| MsgPublish.CopyHcclMsg | src/collective_comm/device/common/hccl_aicpu_common.h:23-38 | the memory writes are the body, the check word and the valid word, in this order |
| MsgPublish.CopyPublishes | src/collective_comm/device/common/hccl_aicpu_common.h:28-37 | those writes leave the published message, whatever memory held |
| MsgPublish.PublishedIsAccepted | src/collective_comm/device/common/hccl_aicpu_common.h:27-37 | the XOR of all 16 words is 0 and the other words are the source's |
| MsgPublish.PublishedFits | src/collective_comm/device/common/hccl_aicpu_common.h:27-36 | a message of words that fit n bits, such as 32, is published as words that fit n bits |
| MsgPublish.OneWordChangeIsDetected | src/collective_comm/device/common/hccl_aicpu_common.h:27-36 | any one-word change of an accepted message is rejected |
| MsgPublish.MaskShowsOnlyWholeMessages | src/collective_comm/device/common/hccl_aicpu_impl.h:114-132 | if the slot was free, the mask shows after exactly all writes, and a server that sees it sees the whole message |
| MsgExtPublish.HcclMsgExt.Assemble | src/collective_comm/device/common/hccl_aicpu_common.h:40-51 | the memory writes of the per-rank message, in order |
| MsgExtPublish.AssemblePublishes | src/collective_comm/device/common/hccl_aicpu_common.h:40-51 | for every rank count they leave an accepted message with the caller's values |
| MsgExtPublish.OneWordChangeIsDetected | src/collective_comm/device/common/hccl_aicpu_common.h:42-50 | any one-word change of an accepted per-rank message is rejected |
| MsgExtPublish.MaskShowsOnlyWholeMessages | src/collective_comm/device/common/hccl_aicpu_impl.h:142-149 | if the slot was free, the mask shows only when the whole per-rank message is there |
| CcuPrepare.CcuPrepare.CalcGoSize | src/collective_comm/device/ccu/hccl_ccu_xn_utils.h:130-157 | fills exactly four registers with the encoded decomposition of the size |
| CcuPrepare.CcuPrepare.CalcLoopGroupParam | src/collective_comm/device/ccu/hccl_ccu_xn_utils.h:109-128 | registers 6 and 7 hold the encoding of n and p |
| CcuPrepare.CcuPrepare.LoopRegisters | src/collective_comm/device/ccu/hccl_ccu_v0_prepare.h:135-145 | the callers' own decomposition with CalcLoopGroupParam gives the registers CalcGoSize would |
| CcuPrepare.CcuPrepare.PrepareForAllReduce | src/collective_comm/device/ccu/hccl_ccu_v0_prepare.h:90-117 | registers 3 to 7 describe this rank's slice of the AllReduce cut |
| CcuPrepare.CcuPrepare.PrepareForAllGather | src/collective_comm/device/ccu/hccl_ccu_v0_prepare.h:120-146 | registers 3 to 7 describe the whole buffer at this rank's place |
| CcuPrepare.CcuPrepare.PrepareForAllReduceM2M | src/collective_comm/device/ccu/hccl_ccu_v0_prepare.h:156-205 | registers 3 to 14 describe this rank's slice of the rounded-up cut |
| CcuSlicing.FieldsAreDisjoint | src/collective_comm/device/ccu/hccl_ccu_xn_utils.h:103-107 | the three 7-bit fields joined by or do not overlap: the word is their sum, and each reads back |
| CcuSlicing.RegistersAre | src/collective_comm/device/ccu/hccl_ccu_xn_utils.h:130-157 | every register and every packed field, from the size and the part that whole loops leave over |
| CcuSlicing.RegistersDecodeToSize | src/collective_comm/device/ccu/hccl_ccu_xn_utils.h:130-157 | with at most 129 loops the registers decode to m, n, p with n < loops, p < slice and the size as their sum |
| CcuSlicing.LosslessIff | src/collective_comm/device/ccu/hccl_ccu_xn_utils.h:130-157 | two sizes never share the registers exactly when there are at most 129 loops |
| CcuSlicing.ReduceSliceIs | src/collective_comm/device/ccu/hccl_ccu_v0_prepare.h:98-113 | every rank has count / ranks elements, the last one also those left over |
| CcuSlicing.ReduceSlicesTile | src/collective_comm/device/ccu/hccl_ccu_v0_prepare.h:98-113 | the AllReduce slices tile the buffer for every count and rank number |
| CcuSlicing.MemorySliceIs | src/collective_comm/device/ccu/hccl_ccu_v0_prepare.h:181-198 | slices start c elements apart, c being count / ranks rounded up; the first count / c ranks have c, every later one what is left over |
| CcuSlicing.MemorySizesSum | src/collective_comm/device/ccu/hccl_ccu_v0_prepare.h:181-197 | the M2M slices sum to the total plus (ranks - full - 1) times the last slice when not all ranks are full |
| CcuSlicing.MemorySlicesTileIff | src/collective_comm/device/ccu/hccl_ccu_v0_prepare.h:181-198 | they tile the buffer exactly when at most one rank is short |
| CcuSlicing.MemorySlicesInBoundsIff | src/collective_comm/device/ccu/hccl_ccu_v0_prepare.h:181-198 | no rank reaches past the buffer exactly when at most one rank is short or the short slices are empty |
| CcuSlicing.MemoryGoSizesAgreeIff | src/collective_comm/device/ccu/hccl_ccu_v0_prepare.h:197-204 | the packed size is register 8's on every rank exactly when at most one rank is short |
| CcuSlicing.RankSliceOffsetIs | src/collective_comm/device/ccu/hccl_ccu_v0_prepare.h:166-179 | registers 4 and 5 of every valid job: the start of the slice less the rank times the excess of full slices, on the last rank, modulo 2^64 |
| CcuSlicing.RankSliceOffsetIsStart | src/collective_comm/device/ccu/hccl_ccu_v0_prepare.h:166-179 | they hold the start exactly when that difference is a multiple of 2^64, for every valid job |
| CcuSlicing.RankSliceOffsetIsStartIff | src/collective_comm/device/ccu/hccl_ccu_v0_prepare.h:166-179 | while ranks * ranks elements stay below 2^64 bytes, registers 4 and 5 hold the start of the slice except on a short last rank |
| CcuSlicing.LastOffsetWraps | src/collective_comm/device/ccu/hccl_ccu_v0_prepare.h:166-179 | five elements on four ranks: the last rank's registers 4 and 5 hold 2^64 - 3 instead of 6 |
| CcuSlicing.FiveElementsOnFourRanks | src/collective_comm/device/ccu/hccl_ccu_v0_prepare.h:181-198 | a small buffer whose last slice lies past its end |
| AlgConfig.SplitIff | src/collective_comm/cc/hccl/common/alg_env_config.cc:483-506 | a string splits exactly when it is the join of non-empty separator-free fields, at most four for levels, and then into those |
| AlgConfig.ParseLevelIff | src/collective_comm/cc/hccl/common/alg_env_config.cc:349-396 | a field parses to a setting exactly when it is that setting printed |
| AlgConfig.ParseOfPrint | src/collective_comm/cc/hccl/common/alg_env_config.cc:398-439 | printed settings of distinct levels, in any order, parse back to their vector |
| AlgConfig.ParseIff | src/collective_comm/cc/hccl/common/alg_env_config.cc:398-439 | only printed settings of distinct levels parse |
| AlgConfig.DuplicateLevelsFail | src/collective_comm/cc/hccl/common/alg_env_config.cc:418-425 | settings that name a level twice never parse |
| AlgTable.VectorHolds | src/collective_comm/cc/hccl/common/alg_env_config.cc:418-425 | a vector holds exactly the settings it was made from, and the default at every other level |
| AlgTable.ParseItemIff | src/collective_comm/cc/hccl/common/alg_env_config.cc:323-340 | an item is accepted exactly when it prints an operation with settings that do not set level 0 to null |
| AlgTable.SetSpecificIff | src/collective_comm/cc/hccl/common/alg_env_config.cc:296-347 | items are accepted exactly when each prints an operation with its settings; the last item for an operation counts, and the variable-length AlltoAll operations follow AlltoAll |
| AlgTable.OthersNeverAccepted | src/collective_comm/cc/hccl/common/alg_env_config.cc:298-309 | no call with an item for all "others" succeeds |
| AlgTable.RefusedUnchangedIff | src/collective_comm/cc/hccl/common/alg_env_config.cc:296-347 | a refused list leaves every table as it was exactly when the first item to be entered is already bad |
| AlgTable.ItemsInIff | src/collective_comm/cc/hccl/common/alg_env_config.cc:441-481 | a string comes down to items per operation exactly when, without spaces, it is these joined by slashes, each a name, an equals sign and something more |
| AlgTable.RefusedConfigUnchangedIff | src/collective_comm/cc/hccl/common/alg_env_config.cc:246-265 | a refused string leaves every table as it was exactly when it comes down to no items per operation or the first item to be entered is bad |
| AlgTable.RefusedKeepsEarlierItems | src/collective_comm/cc/hccl/common/alg_env_config.cc:323-341 | a list refused at one item has entered the items before it |
| AlgTable.RefusedOthersOverwrite | src/collective_comm/cc/hccl/common/alg_env_config.cc:298-309 | a refused list whose first item for all "others" parses has left nothing of the table as it was: every entry is the last such vector that was entered or, if none stopped the call, one an item gave by name |
| AlgTable.AcceptedIff | src/collective_comm/cc/hccl/common/alg_env_config.cc:246-265 | a setting is accepted exactly when, without its spaces, it is empty or prints a configuration; an empty one changes nothing |
| AlgTable.PrintedConfigMeans | src/collective_comm/cc/hccl/common/alg_env_config.cc:246-265 | a printed configuration, with spaces anywhere, is accepted and gives every operation what it means |
| AlgTable.SpacesDoNotMatter | src/collective_comm/cc/hccl/common/alg_env_config.cc:249 | a space anywhere in a setting makes no difference |
| AlgTable.PrintsHaveNoSpaces | src/collective_comm/cc/hccl/common/alg_env_config.cc:249 | a printed configuration loses nothing when spaces are removed |
| AlgParser.SplitHcclAlgoLevel | src/collective_comm/cc/hccl/common/alg_env_config.cc:483-506 | the accumulator recursion computes the split at ';' with at most four fields |
| AlgParser.SplitHcclOpType | src/collective_comm/cc/hccl/common/alg_env_config.cc:441-456 | the accumulator recursion computes the split at '/' |
| AlgParser.ParserHcclAlgoLevel | src/collective_comm/cc/hccl/common/alg_env_config.cc:349-396 | the level and algorithm of one field, or failure exactly when the field is not a printed setting (with `ParseLevelIff`) |
| AlgParser.ParseAlgoString | src/collective_comm/cc/hccl/common/alg_env_config.cc:398-439 | the loop parses the whole string into one algorithm per level |
| AlgParser.CheckAlgoConfigValid | src/collective_comm/cc/hccl/common/alg_env_config.cc:459-481 | succeeds exactly for well-placed items that all name an operation, or one item that names none |
| AlgEnvConfig.AlgEnvConfig.SetCommonAlgType | src/collective_comm/cc/hccl/common/alg_env_config.cc:286-294 | gives every operation the one vector, or fails and changes nothing |
| AlgEnvConfig.AlgEnvConfig.SetSpecificAlgType | src/collective_comm/cc/hccl/common/alg_env_config.cc:296-347 | the table after both passes, also when a pass fails halfway |
| AlgEnvConfig.AlgEnvConfig.SetHcclAlgoConfig | src/collective_comm/cc/hccl/common/alg_env_config.cc:246-265 | the table after a whole setting, accepted or not |

## Left out

- CcuRing.CcuRing.Wait: the polling of the completion flag and of the shared counter is not in this method; it is modelled access by access in `SoftSync`.
- CcuRing.CcuRing.Finalize: stated for runs that kept the discipline and waited for all earlier handles; on other runs the loop may not end, because Wait can refuse a handle without changing its counts; with no handle at all the source reads before the tables.
- CcuRing.CcuRing.Prepare: the per-handle parameters kept in global memory are not modelled, only the counts and slots.
- CcuRingOrder.CommitKeepsAgreementIff: judges only the message sent at once; `CommitRunSafeIff` judges the whole run.
- CcuRingOrder.PrepareKeepsAgreementIff: judges only the messages sent at once; `PrepareRunSafeIff` judges the whole run.
- CcuRingOrder.PrepareKeepsOrderIff: as PrepareKeepsAgreementIff.
- RoceChannel.RoceChannel.MakeWqe: a request is its buffers, length and operation; the owner bit, keys and byte layout are not modelled.
- RoceChannel.RoceChannel.PollCq: the owner-bit formula that decides readiness is a parameter, and the UT_TEST branches are not modelled.
- RoceChannel.RoceChannel.PostSend: the doorbell and the byte layout of a work request are not modelled; a request is its buffers, length and operation.
- RoceModel.OccupancyBounded: stated for indices below 2^32 - 100, so the 32-bit wrap of the indices is not covered.
- MirroredList.ListCommonAddHead: takes the nodes of the list as ghost parameters, and a node to add must not be in the list yet.
- StreamModel.RoundTrip: the key order of maps is any strict total order; Dump, SplictStream and the other accessors are not modelled.
- BinaryStream.BinaryStream.Read: when the bytes run out the result is None; the source then goes on with unspecified values.
- BinaryStream.BinaryStream.ReadVector: as Read.
- BinaryStream.BinaryStream.ReadMap: as Read.
- DirectDrive.DirectDrive.Operate: queue heads and tails, work requests and the wait for a free entry are not modelled, only the tables. HcommHandle is not defined in the repository and is an unbounded integer here.
- DirectDrive.DirectDrive.Commit: the doorbell write is not modelled.
- DirectDrive.DirectDrive.Wait: the polling of the completion queue and the queue index updates are not modelled.
- AicpuClient.AicpuClient.Wait: the polling of the server's finished count, the statistics, several queues, message positions, restart flags and the compute-only mode are not modelled.
- AicpuClient.AicpuClient.Prepare: publishing the message and its position are in `MsgPublish`, not in this method.
- AicpuClient.AicpuClient.Commit: the commit word in global memory and the wait for the server to take it are not modelled.
- MsgPublish.CopyHcclMsg: words are naturals with a bitwise XOR that serves 32 and 64 bits (`PublishedFits` keeps the width); how a message's fields are laid out in words is not modelled.
- CcuPrepare.CcuPrepare.PrepareForAllReduceM2M: the total byte count must stay below 2^64; the operation word (GetOpId) is a parameter.
- AlgParser.ParseAlgoString: on failure the partly filled vector is returned as the source leaves it, with no promise about it.
- AlgEnvConfig.AlgEnvConfig.constructor: HCCL_CMD_MAX, the number of operations, is not part of this model and is a parameter; the configuration's other fields and its mutex are not modelled.
- AlltoAll, AlltoAllV, AlltoAllvWrite and the M2M AllGather and ReduceScatter register layouts: more of the same arithmetic.
- Cache flushes, barriers, address casts and logging: global memory is sequentially consistent.
- Host tiling, parameter checks, adapters, symbol loading and environment reads.
