# AIC8800 driver: a verified model

The AIC8800 SDIO Wi-Fi and Bluetooth driver talks to a firmware over one bus. This project models
the parts of it whose correctness is not visible in any single function, and proves what they are for.

- `CmdManager`, `CmdProtocol`: the firmware command manager. Callers, a worker and the receive path
  share a list of commands. The critical sections are methods of a class; every interleaving of them,
  of the actions outside the lock and of the firmware is a step system over the same functions.
- `AckFilter`, `AckRuns`, `AckCalls`: the TCP ACK filter. One class with its scans as loops; every order
  of calls into it, followed by three questions: is the slot table consistent, where is each buffer, and
  do the 32-bit comparisons agree with the true acknowledgement numbers; and what each single call does,
  told of true numbers.
- `Md5Reference`, `Md5`, `Md5Vector`: RFC 1321 from its definition, the streaming context against it, and
  one of its published digests.
- `Crc8`: the header checksum against polynomial division over GF(2).
- `TxFraming`, `FrameQueue`, `TxPath`: transmit aggregation. The layout and its reader, the priority
  queue in its two forms, and the sending thread with producers and the credit register interleaved.
- `RxDeaggregation`: the walk over a received block, with its 16-bit arithmetic.
- `HciReassembly`, `BtCharRing`: reassembly of HCI packets and the ring between it and a reader.
- `Nat25`: the NAT2.5 database, an intrusive hash table with back links, against a finite map.
- `Bytes`, `Wrappers`: bytes, 32-bit quantities, concatenation, `Option`.

Objects that the driver updates in place are classes; each method is proved against a function on
values, and the properties over whole runs are lemmas about those functions. Packets are byte strings.
Clock readings, register values, parser verdicts and allocation results are parameters.

## Where the code falls short

The code is modelled as it is. Where a property one would expect fails, a lemma gives an input and
another the exact condition.

- The command manager tests the list size after it has released the lock (rwnx_cmds.c:200). A special
  message on an empty list, followed by another queue call before that test, leaves a command at the head
  that nobody pushes (`LostWakeUpExample`, `WakeUpLostExactlyByHazard`, `NoLostWakeUpExactly`).
- A slot of the ACK filter that ages out keeps its held buffer. A flow that takes the slot drops it with
  the next acknowledgement, and if nothing else covers it the newest acknowledgement of its flow is lost
  (`StaleTakeExample`, `CoveredExact`, `NothingNewerIsLostExactly`).
- `MD5Update` keeps its loop index in 32 bits. For pieces within 64 bytes of 2^32 the loop never ends
  (`LoopExample`, `LoopEndsExactly`).
- An HCI header that announces more than the buffer holds discards the rest of its fragment, so what
  follows depends on the cutting (`OversizeExample`, `OversizeAnnounced`, `CuttingIrrelevantExactly`). What the
  buffer holds is what was asked for and the allocator's slack, a parameter.
- The receive walk adds in 16 bits. Data lengths 65473 to 65476 make it stand still
  (`StandsStillExample`, `StandsStillExactly`); it checks neither that headers nor that frames end within
  the block, which `Walkable` therefore states.
- The transmit length field has twelve bits (`FieldExample`, `FieldExact`, `ReaderGetsFrames`).
- The platform driver's evicting enqueue puts the newcomer into the FIFO of the packet it evicts, not
  into its own (`EvictionExample`, `EvictionExact`). In the WLAN driver eviction is compiled out and the
  queue refuses.
- A NAT2.5 entry that was looked up often needs as many expiry passes to disappear
  (`KeptByUseExample`, `GoneAfterItsUses`); a stale entry still counts as found.

## Model

| member | source | states |
|---|---|---|
| `CmdProtocol.ConfirmationsFindTheirCause` | patches/kernel/avaota-c1-6.6.0/files/drivers/net/wireless/aic8800/aic8800_fdrv/rwnx_cmds.c:397-422 | In every run each confirmation retires exactly the command that caused it although only the id is compared; at most one command is pushed and unconfirmed, it is the head of the list, and every other one still has its wait-for-push flag |
| `CmdProtocol.BusCarriesAcceptanceOrder` | patches/kernel/avaota-c1-6.6.0/files/drivers/net/wireless/aic8800/aic8800_fdrv/rwnx_cmds.c:81-105 | In every run the commands reach the bus in the order of acceptance, each once, none skipped; `queue_sz` is the length of the list and never exceeds the maximum |
| `CmdProtocol.StepKeepsInv` | patches/kernel/avaota-c1-6.6.0/files/drivers/net/wireless/aic8800/aic8800_fdrv/rwnx_cmds.c:112-245 | Every step of callers, worker, receive path and firmware keeps the protocol invariant: list order, bus order, who pushes the head, who waits for it |
| `CmdProtocol.RunKeepsInv` | patches/kernel/avaota-c1-6.6.0/files/drivers/net/wireless/aic8800/aic8800_fdrv/rwnx_cmds.c:112-425 | The invariant holds in every reachable state |
| `CmdProtocol.MatchIsHead` | patches/kernel/avaota-c1-6.6.0/files/drivers/net/wireless/aic8800/aic8800_fdrv/rwnx_cmds.c:397-404 | An outstanding id finds the head of the list, and nothing before it |
| `CmdProtocol.AdmittedExactly` | patches/kernel/avaota-c1-6.6.0/files/drivers/net/wireless/aic8800/aic8800_fdrv/rwnx_cmds.c:120-176 | In every reachable state a queue call is refused exactly when 16 commands are listed, changing nothing; otherwise the command goes last with its id and the next token, and its caller pushes it exactly if the list was empty and the message is not special |
| `CmdProtocol.ForcedExactly` | patches/kernel/avaota-c1-6.6.0/files/drivers/net/wireless/aic8800/aic8800_fdrv/rwnx_cmds.c:66-105 | The same for a call that always defers |
| `CmdProtocol.WakeUpLostExactlyByHazard` | patches/kernel/avaota-c1-6.6.0/files/drivers/net/wireless/aic8800/aic8800_fdrv/rwnx_cmds.c:178-204 | On the code as it is (size tested after unlocking) a due wake-up survives a step if and only if the step is not a queue call made while nothing but an untested size stands between a waiting head and the worker |
| `CmdProtocol.NoLostWakeUpExactly` | patches/kernel/avaota-c1-6.6.0/files/drivers/net/wireless/aic8800/aic8800_fdrv/rwnx_cmds.c:178-204 | In every run of the code as it is, a waiting head is due to be noticed at every point if and only if no step is the singled-out queue call |
| `CmdProtocol.NoLostWakeUpWhenAtomic` | patches/kernel/avaota-c1-6.6.0/files/drivers/net/wireless/aic8800/aic8800_fdrv/rwnx_cmds.c:178-204 | If every queue call and its size test are one step, the head never waits without someone to wake the worker |
| `CmdProtocol.NoLostWakeUpWithoutSpecials` | patches/kernel/avaota-c1-6.6.0/files/drivers/net/wireless/aic8800/aic8800_fdrv/rwnx_cmds.c:127-176 | Without the always-deferred messages no interleaving loses a wake-up |
| `CmdProtocol.LostWakeUpExample` | patches/kernel/avaota-c1-6.6.0/files/drivers/net/wireless/aic8800/aic8800_fdrv/rwnx_cmds.c:127-204 | Four steps after which a command waits at the head, nobody is going to look, and only another queue call can happen |
| `CmdProtocol.LostUntilForced` | patches/kernel/avaota-c1-6.6.0/files/drivers/net/wireless/aic8800/aic8800_fdrv/rwnx_cmds.c:63-110 | A lost wake-up stays lost until a forced deferral is accepted, and that always repairs it |
| `CmdProtocol.HazardLosesWakeUp` | patches/kernel/avaota-c1-6.6.0/files/drivers/net/wireless/aic8800/aic8800_fdrv/rwnx_cmds.c:200-204 | The singled-out queue call does lose the wake-up |
| `CmdManager.CommandManager.Queue` | patches/kernel/avaota-c1-6.6.0/files/drivers/net/wireless/aic8800/aic8800_fdrv/rwnx_cmds.c:120-176 | The locked part of a queue call: crashed, full, deferred behind a busy last command or as a special message, or sent by the caller; the whole new state |
| `CmdManager.CommandManager.ForceDefer` | patches/kernel/avaota-c1-6.6.0/files/drivers/net/wireless/aic8800/aic8800_fdrv/rwnx_cmds.c:66-105 | The locked part of a queue call that always defers |
| `CmdManager.CommandManager.Pick` | patches/kernel/avaota-c1-6.6.0/files/drivers/net/wireless/aic8800/aic8800_fdrv/rwnx_cmds.c:301-314 | The worker takes the head of the list, only if it still waits for its push |
| `CmdManager.CommandManager.MsgInd` | patches/kernel/avaota-c1-6.6.0/files/drivers/net/wireless/aic8800/aic8800_fdrv/rwnx_cmds.c:378-425 | The first waiting command with the id is unlinked, the others keep their order, the size drops by one; no match leaves everything as it was |
| `AckRuns.EveryBufferInOnePlace` | patches/kernel/avaota-c1-6.6.0/files/drivers/net/wireless/aic8800/aic8800_fdrv/aicwf_tcp_ack.c:447-509 | In every run of sends, receives, timers and completions each buffer offered is in exactly one place: handed on, held by one slot, or dropped; and the slot table is consistent |
| `AckRuns.StepKeepsTable` | patches/kernel/avaota-c1-6.6.0/files/drivers/net/wireless/aic8800/aic8800_fdrv/aicwf_tcp_ack.c:256-344 | Every call keeps: `max_num` counts the busy slots, a non-negative `free_index` names a free slot, no two busy slots share a flow |
| `AckRuns.AllocFindsFree` | patches/kernel/avaota-c1-6.6.0/files/drivers/net/wireless/aic8800/aic8800_fdrv/aicwf_tcp_ack.c:309-344 | Allocation yields a free slot, and fails if and only if all 32 are busy |
| `AckRuns.AgeExact` | patches/kernel/avaota-c1-6.6.0/files/drivers/net/wireless/aic8800/aic8800_fdrv/aicwf_tcp_ack.c:284-306 | Ageing frees exactly the slots quiet for longer than the timeout, and leaves a freed slot as the hint |
| `AckRuns.CallerSendsWhatIsNotFiltered` | patches/kernel/avaota-c1-6.6.0/files/drivers/net/wireless/aic8800/aic8800_fdrv/aicwf_tcp_ack.c:539-610 | The filter says filtered exactly when the caller has not to send the buffer, which is then held or dropped and not both |
| `AckRuns.StepKeepsOwned` | patches/kernel/avaota-c1-6.6.0/files/drivers/net/wireless/aic8800/aic8800_fdrv/aicwf_tcp_ack.c:47-60 | Every call keeps each buffer in one place |
| `AckRuns.BeforeExact` | patches/kernel/avaota-c1-6.6.0/files/drivers/net/wireless/aic8800/aic8800_fdrv/aicwf_tcp_ack.h:18 | What the 32-bit comparison says of any two true numbers |
| `AckRuns.BeforeIsOrder` | patches/kernel/avaota-c1-6.6.0/files/drivers/net/wireless/aic8800/aic8800_fdrv/aicwf_tcp_ack.h:18 | Within half the range (more than -2^31, at most 2^31 apart) the 32-bit comparison is the order of the true numbers |
| `AckRuns.SlotsTrackTrueMaximum` | patches/kernel/avaota-c1-6.6.0/files/drivers/net/wireless/aic8800/aic8800_fdrv/aicwf_tcp_ack.c:435-511 | In every run of numbers in that window, `ack_msg.seq` of a busy slot is the running true maximum modulo 2^32, and an acknowledgement carrying it was handed on or is that slot's held buffer |
| `AckRuns.HandleTracks` | patches/kernel/avaota-c1-6.6.0/files/drivers/net/wireless/aic8800/aic8800_fdrv/aicwf_tcp_ack.c:447-507 | One acknowledgement compared: the maximum becomes the true maximum and the acknowledgement carrying it is at hand |
| `AckRuns.NothingNewerIsLostExactly` | patches/kernel/avaota-c1-6.6.0/files/drivers/net/wireless/aic8800/aic8800_fdrv/aicwf_tcp_ack.c:435-511 | In every run of numbers in the window: at every point each acknowledgement offered has one of its flow, at least as new, that was handed on or is held, if and only if no event makes a slot give up a buffer that the new acknowledgement does not cover and nothing else covers |
| `AckRuns.CoveredExact` | patches/kernel/avaota-c1-6.6.0/files/drivers/net/wireless/aic8800/aic8800_fdrv/aicwf_tcp_ack.c:447-507 | The same for one call: whether something newer is lost can be told before the call, from the slot and what covers its buffer |
| `AckRuns.NothingNewerIsLost` | patches/kernel/avaota-c1-6.6.0/files/drivers/net/wireless/aic8800/aic8800_fdrv/aicwf_tcp_ack.c:584-605 | In particular nothing newer is lost in runs in which no slot is taken over with a buffer in it that the taker does not supersede |
| `AckRuns.OwnLosesNothing` | patches/kernel/avaota-c1-6.6.0/files/drivers/net/wireless/aic8800/aic8800_fdrv/aicwf_tcp_ack.c:447-507 | A slot that holds only its own flow's acknowledgements has nothing to lose |
| `AckRuns.OwnExact` | patches/kernel/avaota-c1-6.6.0/files/drivers/net/wireless/aic8800/aic8800_fdrv/aicwf_tcp_ack.c:584-605 | A slot comes to hold another flow's acknowledgement if and only if a new flow takes a slot that aged out with a buffer in it |
| `AckRuns.StaleAcknowledgementIsLost` | patches/kernel/avaota-c1-6.6.0/files/drivers/net/wireless/aic8800/aic8800_fdrv/aicwf_tcp_ack.c:456-462 | When the guard holds the call drops the held acknowledgement, of another flow or a later one of the same flow, and nothing handed on or held covers it |
| `AckRuns.StaleTakeExample` | patches/kernel/avaota-c1-6.6.0/files/drivers/net/wireless/aic8800/aic8800_fdrv/aicwf_tcp_ack.c:539-610 | Five sends, a timer that fires in vain while the acknowledgement before is in flight, and that one reported sent, with the driver's drop count, after which a flow's newest acknowledgement is dropped and nothing handed on or held covers it |
| `AckFilter.AckManager.UpdateSlots` | patches/kernel/avaota-c1-6.6.0/files/drivers/net/wireless/aic8800/aic8800_fdrv/aicwf_tcp_ack.c:284-306 | The ageing scan, from the last slot down, at most once per timeout |
| `AckFilter.AckManager.Match` | patches/kernel/avaota-c1-6.6.0/files/drivers/net/wireless/aic8800/aic8800_fdrv/aicwf_tcp_ack.c:256-281 | The index of the first busy slot of the flow, or -1 |
| `AckFilter.AckManager.Alloc` | patches/kernel/avaota-c1-6.6.0/files/drivers/net/wireless/aic8800/aic8800_fdrv/aicwf_tcp_ack.c:309-344 | The allocation scan with its hint and counter |
| `AckFilter.AckManager.Handle` | patches/kernel/avaota-c1-6.6.0/files/drivers/net/wireless/aic8800/aic8800_fdrv/aicwf_tcp_ack.c:435-511 | One acknowledgement of a known flow: fast path after PSH, drop counter, hold, timer, replaced and stale buffers |
| `AckFilter.AckManager.Send` | patches/kernel/avaota-c1-6.6.0/files/drivers/net/wireless/aic8800/aic8800_fdrv/aicwf_tcp_ack.c:539-610 | The send filter from the length test to the take-over of a slot |
| `AckFilter.AckManager.Receive` | patches/kernel/avaota-c1-6.6.0/files/drivers/net/wireless/aic8800/aic8800_fdrv/aicwf_tcp_ack.c:513-536 | A received PSH notes the sequence number |
| `AckFilter.AckManager.Fire` | patches/kernel/avaota-c1-6.6.0/files/drivers/net/wireless/aic8800/aic8800_fdrv/aicwf_tcp_ack.c:30-61 | The timer hands the held buffer on unless another is being sent |
| `AckFilter.AckManager.Move` | patches/kernel/avaota-c1-6.6.0/files/drivers/net/wireless/aic8800/aic8800_fdrv/aicwf_tcp_ack.c:612-632 | A completed buffer is cleared from every busy slot that waits for it |
| `AckCalls.FireExactly` | patches/kernel/avaota-c1-6.6.0/files/drivers/net/wireless/aic8800/aic8800_fdrv/aicwf_tcp_ack.c:47-60 | A timer hands on what its slot holds exactly if the slot is in use and no other buffer is being sent, and then the slot waits for that one; otherwise it does nothing |
| `AckCalls.FireExample` | patches/kernel/avaota-c1-6.6.0/files/drivers/net/wireless/aic8800/aic8800_fdrv/aicwf_tcp_ack.c:47-60 | A held acknowledgement goes out when its timer fires after the one before was sent |
| `AckCalls.HandOnExactly` | patches/kernel/avaota-c1-6.6.0/files/drivers/net/wireless/aic8800/aic8800_fdrv/aicwf_tcp_ack.c:447-507 | An acknowledgement of a known flow is handed on exactly if it is no older than the newest and either lies beyond a received PSH, or none is being sent and enough were held in a row; in each case what the slot then holds, counts and waits for |
| `AckCalls.DropsExactly` | patches/kernel/avaota-c1-6.6.0/files/drivers/net/wireless/aic8800/aic8800_fdrv/aicwf_tcp_ack.c:456-507 | What is dropped: an older acknowledgement itself, or the one a newer one replaces in the slot |
| `AckCalls.PshIsAnsweredAtOnce` | patches/kernel/avaota-c1-6.6.0/files/drivers/net/wireless/aic8800/aic8800_fdrv/aicwf_tcp_ack.c:465-475 | The first newer acknowledgement beyond a received PSH goes out at once whatever was held or is being sent, and once only |
| `AckCalls.ReceiveExactly` | patches/kernel/avaota-c1-6.6.0/files/drivers/net/wireless/aic8800/aic8800_fdrv/aicwf_tcp_ack.c:513-536 | Exactly the slots in use by the flow of a received PSH note its number, if the filter is enabled and the frame is at most 200 bytes |
| `AckCalls.SentExactly` | patches/kernel/avaota-c1-6.6.0/files/drivers/net/wireless/aic8800/aic8800_fdrv/aicwf_tcp_ack.c:612-632 | Exactly the slots in use that waited for the buffer no longer do |
| `AckCalls.PassesExactly` | patches/kernel/avaota-c1-6.6.0/files/drivers/net/wireless/aic8800/aic8800_fdrv/aicwf_tcp_ack.c:539-556 | A frame over 200 bytes passes without a trace; one that is no droppable acknowledgement passes and at most old slots are freed |
| `AckCalls.FirstExactly` | patches/kernel/avaota-c1-6.6.0/files/drivers/net/wireless/aic8800/aic8800_fdrv/aicwf_tcp_ack.c:584-605 | The first acknowledgement of a flow passes and takes a free slot exactly if there is one; the state of that slot |
| `AckCalls.DisabledPasses` | patches/kernel/avaota-c1-6.6.0/files/drivers/net/wireless/aic8800/aic8800_fdrv/aicwf_tcp_ack.c:562-584 | While the filter is disabled the acknowledgements of known flows pass |
| `AckCalls.OldExactly` | patches/kernel/avaota-c1-6.6.0/files/drivers/net/wireless/aic8800/aic8800_fdrv/aicwf_tcp_ack.c:284-306 | With tick counts less than half the range apart a slot is old exactly after the timeout, wherever the counter wraps |
| `AckCalls.AgesExactly` | patches/kernel/avaota-c1-6.6.0/files/drivers/net/wireless/aic8800/aic8800_fdrv/aicwf_tcp_ack.c:284-306 | In true ticks: slots are looked over at most once per timeout, and then exactly those in use that were quiet for longer are freed |
| `Md5.DigestOfPieces` | patches/kernel/avaota-c1-6.6.0/files/drivers/net/wireless/aic8800/aic8800_bsp/md5.c:9-52 | For any split of a message into updates, empty ones included, the digest is that of RFC 1321 (sections 3.1 to 3.5) for the concatenation |
| `Md5.Context.Update` | patches/kernel/avaota-c1-6.6.0/files/drivers/net/wireless/aic8800/aic8800_bsp/md5.c:18-41 | Whatever was buffered, the context holds exactly the message so far plus the input: state after all whole blocks, leftover bytes, bit count |
| `Md5.Context.Final` | patches/kernel/avaota-c1-6.6.0/files/drivers/net/wireless/aic8800/aic8800_bsp/md5.c:42-52 | The sixteen bytes written are the RFC 1321 digest of all that was fed |
| `Md5.Context.Transform` | patches/kernel/avaota-c1-6.6.0/files/drivers/net/wireless/aic8800/aic8800_bsp/md5.c:79-161 | The unrolled block transform is the 64 table-driven steps of section 3.4 |
| `Md5.Context.Blocks` | patches/kernel/avaota-c1-6.6.0/files/drivers/net/wireless/aic8800/aic8800_bsp/md5.c:32-33 | The block loop absorbs every whole block and leaves less than one |
| `Md5.Context.AddLength` | patches/kernel/avaota-c1-6.6.0/files/drivers/net/wireless/aic8800/aic8800_bsp/md5.c:23-26 | The two counter words hold the bit length modulo 2^64 across the carry |
| `Md5.CounterAdds` | patches/kernel/avaota-c1-6.6.0/files/drivers/net/wireless/aic8800/aic8800_bsp/md5.c:23-26 | The wrapped 32-bit additions, carry test and shift are 64-bit addition of eight times the length |
| `Md5.CounterIndex` | patches/kernel/avaota-c1-6.6.0/files/drivers/net/wireless/aic8800/aic8800_bsp/md5.c:21 | The number of buffered bytes read off the low counter word is the total length modulo 64 |
| `Md5.LoopEndsExactly` | patches/kernel/avaota-c1-6.6.0/files/drivers/net/wireless/aic8800/aic8800_bsp/md5.c:32 | Once entered the 32-bit block loop ends if and only if the guard on index and length holds; otherwise its test is true for ever |
| `Md5.LoopExample` | patches/kernel/avaota-c1-6.6.0/files/drivers/net/wireless/aic8800/aic8800_bsp/md5.c:32 | An update of 2^32 - 64 bytes on an empty buffer never returns |
| `Md5.IndexFitsExact` | patches/kernel/avaota-c1-6.6.0/files/drivers/net/wireless/aic8800/aic8800_bsp/md5.c:32 | The guard fails if and only if the unreduced index reaches a place inside the input from which the next block ends beyond 2^32 |
| `Md5.PaddedMessage` | patches/kernel/avaota-c1-6.6.0/files/drivers/net/wireless/aic8800/aic8800_bsp/md5.c:46-50 | The padding and the appended length make the message of sections 3.1 and 3.2, a whole number of blocks |
| `Md5.Encode` | patches/kernel/avaota-c1-6.6.0/files/drivers/net/wireless/aic8800/aic8800_bsp/md5.c:53-64 | Words written as bytes, low-order byte first, the rest of the output untouched |
| `Md5.Decode` | patches/kernel/avaota-c1-6.6.0/files/drivers/net/wireless/aic8800/aic8800_bsp/md5.c:66-77 | Bytes read as words, low-order byte first, the rest of the output untouched |
| `Md5.Lines1To8` | patches/kernel/avaota-c1-6.6.0/files/drivers/net/wireless/aic8800/aic8800_bsp/md5.c:87-94 | Steps 1 to 8 as unrolled, with their constants and register order, are those of the tables |
| `Md5.Lines9To16` | patches/kernel/avaota-c1-6.6.0/files/drivers/net/wireless/aic8800/aic8800_bsp/md5.c:95-102 | Steps 9 to 16 as unrolled, with their constants and register order, are those of the tables |
| `Md5.Lines17To24` | patches/kernel/avaota-c1-6.6.0/files/drivers/net/wireless/aic8800/aic8800_bsp/md5.c:105-112 | Steps 17 to 24 as unrolled, with their constants and register order, are those of the tables |
| `Md5.Lines25To32` | patches/kernel/avaota-c1-6.6.0/files/drivers/net/wireless/aic8800/aic8800_bsp/md5.c:113-120 | Steps 25 to 32 as unrolled, with their constants and register order, are those of the tables |
| `Md5.Lines33To40` | patches/kernel/avaota-c1-6.6.0/files/drivers/net/wireless/aic8800/aic8800_bsp/md5.c:123-130 | Steps 33 to 40 as unrolled, with their constants and register order, are those of the tables |
| `Md5.Lines41To48` | patches/kernel/avaota-c1-6.6.0/files/drivers/net/wireless/aic8800/aic8800_bsp/md5.c:131-138 | Steps 41 to 48 as unrolled, with their constants and register order, are those of the tables |
| `Md5.Lines49To56` | patches/kernel/avaota-c1-6.6.0/files/drivers/net/wireless/aic8800/aic8800_bsp/md5.c:141-148 | Steps 49 to 56 as unrolled, with their constants and register order, are those of the tables |
| `Md5.Lines57To64` | patches/kernel/avaota-c1-6.6.0/files/drivers/net/wireless/aic8800/aic8800_bsp/md5.c:149-156 | Steps 57 to 64 as unrolled, with their constants and register order, are those of the tables |
| `Md5Reference.AbsorbConcat` | patches/kernel/avaota-c1-6.6.0/files/drivers/net/wireless/aic8800/aic8800_bsp/md5.c:30-33 | Absorbing may be cut at any block boundary |
| `Md5Vector.LettersDigest` | patches/kernel/avaota-c1-6.6.0/files/drivers/net/wireless/aic8800/aic8800_bsp/md5.h:12-40 | The digest of the 26 small letters that RFC 1321 publishes (section A.5), which ties the sine table, rotations and byte order to the standard |
| `Crc8.ChecksumIsRemainder` | patches/kernel/avaota-c1-6.6.0/files/drivers/net/wireless/aic8800/aic8800_fdrv/aicwf_sdio.c:2507-2530 | A value is the remainder of M(x)*x^8 modulo x^8+x^2+x+1 over GF(2) if and only if it is the checksum |
| `Crc8.RemainderUnique` | patches/kernel/avaota-c1-6.6.0/files/drivers/net/wireless/aic8800/aic8800_fdrv/aicwf_sdio.c:2507-2530 | Polynomial division has one remainder |
| `Crc8.ChecksumOfOne` | patches/kernel/avaota-c1-6.6.0/files/drivers/net/wireless/aic8800/aic8800_fdrv/aicwf_sdio.c:2507-2530 | The message 1 has the checksum 7: x^8 leaves x^2+x+1 |
| `Crc8.Crc8Ponl107` | patches/kernel/avaota-c1-6.6.0/files/drivers/net/wireless/aic8800/aic8800_fdrv/aicwf_sdio.c:2507-2530 | The nested loops over a byte register compute the checksum of any buffer |
| `Crc8.CrcOfByte` | patches/kernel/avaota-c1-6.6.0/files/drivers/net/wireless/aic8800/aic8800_fdrv/aicwf_sdio.c:2513-2526 | The inner mask loop feeds one byte, most significant bit first |
| `Crc8.ChecksumLinear` | patches/kernel/avaota-c1-6.6.0/files/drivers/net/wireless/aic8800/aic8800_fdrv/aicwf_sdio.c:2507-2530 | Buffers of one length: the checksum of the exclusive or is the exclusive or of the checksums |
| `Crc8.ResidueIsZero` | patches/kernel/avaota-c1-6.6.0/files/drivers/net/wireless/aic8800/aic8800_fdrv/aicwf_sdio.c:2507-2530 | A message followed by its checksum has checksum zero |
| `Crc8.ChecksumParity` | patches/kernel/avaota-c1-6.6.0/files/drivers/net/wireless/aic8800/aic8800_fdrv/aicwf_sdio.c:2507-2530 | The checksum has the bit parity of the message |
| `Crc8.BurstDetected` | patches/kernel/avaota-c1-6.6.0/files/drivers/net/wireless/aic8800/aic8800_fdrv/aicwf_sdio.c:2507-2530 | Any non-zero difference confined to eight consecutive bits changes the checksum |
| `HciReassembly.CuttingIrrelevantExactly` | patches/kernel/avaota-c1-6.6.0/files/drivers/net/wireless/aic8800/aic8800_fdrv/aic_btsdio.c:683-817 | The frames delivered and the partial frame left are those of the one-shot parse for every cutting of the stream if and only if the bytes held and received, but for the last, do not consist of whole packets, a header that announces more than fits, and anything after it |
| `HciReassembly.FailsExactly` | patches/kernel/avaota-c1-6.6.0/files/drivers/net/wireless/aic8800/aic8800_fdrv/aic_btsdio.c:739-778 | The parser fails if and only if the bytes held and received are whole packets, a header that announces more than fits, and anything after it |
| `HciReassembly.CuttingIrrelevant` | patches/kernel/avaota-c1-6.6.0/files/drivers/net/wireless/aic8800/aic8800_fdrv/aic_btsdio.c:800-817 | Any cutting of a stream that parses without failing before its last byte delivers and leaves what the whole does |
| `HciReassembly.CuttingMatters` | patches/kernel/avaota-c1-6.6.0/files/drivers/net/wireless/aic8800/aic8800_fdrv/aic_btsdio.c:741-776 | If the parser fails earlier, a cut before the last byte gives another outcome |
| `HciReassembly.OversizeAnnounced` | patches/kernel/avaota-c1-6.6.0/files/drivers/net/wireless/aic8800/aic8800_fdrv/aic_btsdio.c:753-764 | An ACL header and one byte after it: the cutting matters if and only if the header announces more than the 1024 bytes asked for and the allocator's slack |
| `HciReassembly.OversizeExample` | patches/kernel/avaota-c1-6.6.0/files/drivers/net/wireless/aic8800/aic8800_fdrv/aic_btsdio.c:753-764 | Such a header announcing 65535 bytes, unless the allocator gives at least 64511 bytes more than asked for |
| `HciReassembly.PacketsSurviveCutting` | patches/kernel/avaota-c1-6.6.0/files/drivers/net/wireless/aic8800/aic8800_fdrv/aic_btsdio.c:683-817 | Packets of one type (sections 5.4.2 to 5.4.4 of the Bluetooth Core Specification, Vol 4, Part E) followed by part of another, cut anyhow: exactly the packets are delivered, the part is kept |
| `HciReassembly.FeedPacket` | patches/kernel/avaota-c1-6.6.0/files/drivers/net/wireless/aic8800/aic8800_fdrv/aic_btsdio.c:683-798 | One packet is delivered whole and leaves nothing |
| `HciReassembly.AclOnTheWire` | patches/kernel/avaota-c1-6.6.0/files/drivers/net/wireless/aic8800/aic8800_fdrv/aic_btsdio.c:753-764 | Two bytes, a length with its low byte first, and that many bytes: delivered whole exactly if the payload is at most 1024 bytes and the slack, refused otherwise |
| `HciReassembly.ScoOnTheWire` | patches/kernel/avaota-c1-6.6.0/files/drivers/net/wireless/aic8800/aic8800_fdrv/aic_btsdio.c:766-777 | The same for SCO: two bytes, one of length, at most 252 bytes and the slack |
| `HciReassembly.EventOnTheWire` | patches/kernel/avaota-c1-6.6.0/files/drivers/net/wireless/aic8800/aic8800_fdrv/aic_btsdio.c:740-751 | An event, a code and one byte of length, is always delivered whole |
| `HciReassembly.DeliveredInAnyPieces` | patches/kernel/avaota-c1-6.6.0/files/drivers/net/wireless/aic8800/aic8800_fdrv/aic_btsdio.c:800-817 | What is delivered whole in one piece is delivered whole in any pieces |
| `HciReassembly.TaggedExactly` | patches/kernel/avaota-c1-6.6.0/files/drivers/net/wireless/aic8800/aic8800_fdrv/aic_btsdio.c:789-790 | Frames are delivered once, in order, under their type |
| `HciReassembly.FeedConcat` | patches/kernel/avaota-c1-6.6.0/files/drivers/net/wireless/aic8800/aic8800_fdrv/aic_btsdio.c:800-817 | The one-shot parse may be cut anywhere before its first failure |
| `HciReassembly.HciDevice.Reassembly` | patches/kernel/avaota-c1-6.6.0/files/drivers/net/wireless/aic8800/aic8800_fdrv/aic_btsdio.c:683-798 | One call consumes a prefix as the byte-wise parse does, stops after one frame, or reports the error and discards the partial frame; other types are untouched |
| `HciReassembly.HciDevice.RecvFragment` | patches/kernel/avaota-c1-6.6.0/files/drivers/net/wireless/aic8800/aic8800_fdrv/aic_btsdio.c:800-817 | A fragment of any size is parsed to its end or to the first header that does not fit; the loop ends because every live partial frame expects at least one byte |
| `HciReassembly.Fill` | patches/kernel/avaota-c1-6.6.0/files/drivers/net/wireless/aic8800/aic8800_fdrv/aic_btsdio.c:728-797 | The copying loop: minimum of expected and available, header completion, capacity test |
| `HciReassembly.Extend` | patches/kernel/avaota-c1-6.6.0/files/drivers/net/wireless/aic8800/aic8800_fdrv/aic_btsdio.c:729-778 | One round of it: a completed header says what is missing and is refused if that does not fit |
| `BtCharRing.RingIsByteStream` | patches/kernel/avaota-c1-6.6.0/files/drivers/net/wireless/aic8800/aic8800_fdrv/aic_btsdio.c:354-451 | Over every run, bytes read so far followed by bytes queued are the concatenation of the packets accepted; at most 499 packets are held |
| `BtCharRing.TakeSplits` | patches/kernel/avaota-c1-6.6.0/files/drivers/net/wireless/aic8800/aic8800_fdrv/aic_btsdio.c:377-409 | A read of any size takes bytes off the front of the stream and loses none |
| `BtCharRing.ReadExactly` | patches/kernel/avaota-c1-6.6.0/files/drivers/net/wireless/aic8800/aic8800_fdrv/aic_btsdio.c:377-409 | A read of n bytes returns the first n bytes of the oldest packet, or all of it, and leaves the rest in its place |
| `BtCharRing.AcceptedExactly` | patches/kernel/avaota-c1-6.6.0/files/drivers/net/wireless/aic8800/aic8800_fdrv/aic_btsdio.c:354-375 | A packet is refused exactly when 499 are queued |
| `BtCharRing.Ring.Enqueue` | patches/kernel/avaota-c1-6.6.0/files/drivers/net/wireless/aic8800/aic8800_fdrv/aic_btsdio.c:354-375 | A packet is appended, or refused exactly when 499 are held |
| `BtCharRing.Ring.DequeueTry` | patches/kernel/avaota-c1-6.6.0/files/drivers/net/wireless/aic8800/aic8800_fdrv/aic_btsdio.c:377-409 | The oldest packet comes off, or its first bytes do when it is longer than asked for |
| `BtCharRing.Ring.Read` | patches/kernel/avaota-c1-6.6.0/files/drivers/net/wireless/aic8800/aic8800_fdrv/aic_btsdio.c:911-952 | At most n bytes of the oldest packet are copied out; on an empty queue the read goes on with what arrives, or a signal ends it and nothing is taken |
| `BtCharRing.Ring.Count` | patches/kernel/avaota-c1-6.6.0/files/drivers/net/wireless/aic8800/aic8800_fdrv/aic_btsdio.c:434-451 | The count is exact across the wrap of the array |
| `BtCharRing.Ring.Clear` | patches/kernel/avaota-c1-6.6.0/files/drivers/net/wireless/aic8800/aic8800_fdrv/aic_btsdio.c:416-432 | Everything queued is discarded |
| `RxDeaggregation.WalkInvertsPack` | patches/kernel/avaota-c1-6.6.0/files/drivers/net/wireless/aic8800/aic8800_fdrv/aicwf_txrxif.c:304-356 | Any list of data and configuration frames laid out with padding, ended by a zero header or the end, is walked back to exactly that list |
| `RxDeaggregation.WalkOne` | patches/kernel/avaota-c1-6.6.0/files/drivers/net/wireless/aic8800/aic8800_fdrv/aicwf_txrxif.c:304-356 | The walk takes one packed frame off the front and stands at what follows it |
| `RxDeaggregation.DataOnTheWire` | patches/kernel/avaota-c1-6.6.0/files/drivers/net/wireless/aic8800/aic8800_fdrv/aicwf_txrxif.c:305-326 | From the bytes: bit 4 of the third clear, the 60 bytes of hardware header and the content are copied, and the walk goes on at the next multiple of four |
| `RxDeaggregation.ConfigOnTheWire` | patches/kernel/avaota-c1-6.6.0/files/drivers/net/wireless/aic8800/aic8800_fdrv/aicwf_txrxif.c:305-354 | From the bytes: bit 4 set, four bytes of header and the content |
| `RxDeaggregation.StandsStillExactly` | patches/kernel/avaota-c1-6.6.0/files/drivers/net/wireless/aic8800/aic8800_fdrv/aicwf_txrxif.c:308-326 | The walk does not move on if and only if the length is that of a data frame between 65473 and 65476 |
| `RxDeaggregation.StandsStillExample` | patches/kernel/avaota-c1-6.6.0/files/drivers/net/wireless/aic8800/aic8800_fdrv/aicwf_txrxif.c:308-326 | A header of length 65476: nothing is copied, the walk does not move and meets the same header |
| `RxDeaggregation.CopiedWholeExactly` | patches/kernel/avaota-c1-6.6.0/files/drivers/net/wireless/aic8800/aic8800_fdrv/aicwf_txrxif.c:308-326 | A data frame is copied whole if and only if its length is at most 65475 |
| `RxDeaggregation.MovesPastExactly` | patches/kernel/avaota-c1-6.6.0/files/drivers/net/wireless/aic8800/aic8800_fdrv/aicwf_txrxif.c:308-326 | The walk moves past a data frame and its padding if and only if its length is at most 65472 |
| `RxDeaggregation.MovesPastConfigExactly` | patches/kernel/avaota-c1-6.6.0/files/drivers/net/wireless/aic8800/aic8800_fdrv/aicwf_txrxif.c:327-354 | The same for a configuration message, up to 65532 |
| `RxDeaggregation.RxBuffer.Process` | patches/kernel/avaota-c1-6.6.0/files/drivers/net/wireless/aic8800/aic8800_fdrv/aicwf_txrxif.c:304-356 | The loop yields the frames of the block; the alignment assertion never fires |
| `RxDeaggregation.RxBuffer.AnotherPacket` | patches/kernel/avaota-c1-6.6.0/files/drivers/net/wireless/aic8800/aic8800_fdrv/aicwf_txrxif.c:238-255 | There is another frame exactly if the block goes on with a non-zero length |
| `RxDeaggregation.RxBuffer.TakeOne` | patches/kernel/avaota-c1-6.6.0/files/drivers/net/wireless/aic8800/aic8800_fdrv/aicwf_txrxif.c:305-354 | One frame copied out, the read position moved by its rounded size |
| `FrameQueue.EvictionExact` | patches/kernel/avaota-c1-6.6.0/files/drivers/net/wireless/aic8800/aic8800_bsp/aicsdio_txrxif.c:433-463 | The evicting enqueue accepts exactly when there is room or a strictly lower priority to evict from; it removes exactly the newest packet of the lowest non-empty FIFO and puts the newcomer in its place; the newcomer is at the end of its own FIFO if and only if there was room; the total stays |
| `FrameQueue.EvictionExample` | patches/kernel/avaota-c1-6.6.0/files/drivers/net/wireless/aic8800/aic8800_bsp/aicsdio_txrxif.c:450-460 | A full queue of one packet: the newcomer of priority 3 ends up at the lowest |
| `FrameQueue.EvictingConserves` | patches/kernel/avaota-c1-6.6.0/files/drivers/net/wireless/aic8800/aic8800_bsp/aicsdio_txrxif.c:399-463 | Over every run with evictions, the packets accepted are those taken, those evicted and those queued, and the total never exceeds the maximum |
| `FrameQueue.EvictingKeepsOrder` | patches/kernel/avaota-c1-6.6.0/files/drivers/net/wireless/aic8800/aic8800_bsp/aicsdio_txrxif.c:399-463 | Over every run with evictions, what was placed in each FIFO, less what was evicted from it, is what left it followed by what is in it, in order |
| `FrameQueue.EachPriorityIsFifo` | patches/kernel/avaota-c1-6.6.0/files/drivers/net/wireless/aic8800/aic8800_fdrv/aicwf_txrxif.c:669-817 | Over every run, what entered each priority is what left it, in order, followed by what is in it; the total never exceeds the maximum |
| `FrameQueue.OfferedExact` | patches/kernel/avaota-c1-6.6.0/files/drivers/net/wireless/aic8800/aic8800_fdrv/aicwf_txrxif.c:779-817 | The refusing enqueue refuses exactly when the eight lengths together reach the maximum, and otherwise appends |
| `FrameQueue.TakenHighest` | patches/kernel/avaota-c1-6.6.0/files/drivers/net/wireless/aic8800/aic8800_bsp/aicsdio_txrxif.c:399-419 | What is taken is the oldest packet of the highest non-empty priority, if there is any |
| `FrameQueue.FrameQueue.Enq` | patches/kernel/avaota-c1-6.6.0/files/drivers/net/wireless/aic8800/aic8800_fdrv/aicwf_txrxif.c:779-817 | The WLAN driver's enqueue appends, or refuses exactly when full |
| `FrameQueue.FrameQueue.EnqEvicting` | patches/kernel/avaota-c1-6.6.0/files/drivers/net/wireless/aic8800/aic8800_bsp/aicsdio_txrxif.c:433-463 | The platform driver's enqueue |
| `FrameQueue.FrameQueue.Penq` | patches/kernel/avaota-c1-6.6.0/files/drivers/net/wireless/aic8800/aic8800_bsp/aicsdio_txrxif.c:324-338 | Appends to one FIFO and raises the hint, or refuses if that FIFO is full, whatever the 16-bit count says |
| `FrameQueue.FrameQueue.Dequeue` | patches/kernel/avaota-c1-6.6.0/files/drivers/net/wireless/aic8800/aic8800_bsp/aicsdio_txrxif.c:399-419 | The oldest packet of the highest non-empty priority, whatever the hint said |
| `FrameQueue.FrameQueue.DequeueTail` | patches/kernel/avaota-c1-6.6.0/files/drivers/net/wireless/aic8800/aic8800_bsp/aicsdio_txrxif.c:421-431 | The newest packet of one FIFO, none if it is empty |
| `FrameQueue.FrameQueue.PeekTail` | patches/kernel/avaota-c1-6.6.0/files/drivers/net/wireless/aic8800/aic8800_bsp/aicsdio_txrxif.c:369-384 | The lowest non-empty priority, none if all are empty |
| `FrameQueue.FrameQueue.IsEmpty` | patches/kernel/avaota-c1-6.6.0/files/drivers/net/wireless/aic8800/aic8800_bsp/aicsdio_txrxif.c:386-397 | Exact although only the FIFOs up to the stale hint are added up |
| `FrameQueue.FrameQueue.Flush` | patches/kernel/avaota-c1-6.6.0/files/drivers/net/wireless/aic8800/aic8800_bsp/aicsdio_txrxif.c:340-354 | Empties every FIFO and the count |
| `FrameQueue.TotalBelow` | patches/kernel/avaota-c1-6.6.0/files/drivers/net/wireless/aic8800/aic8800_bsp/aicsdio_txrxif.c:386-397 | FIFOs above the hint do not count |
| `TxFraming.ReaderGetsFrames` | patches/kernel/avaota-c1-6.6.0/files/drivers/net/wireless/aic8800/aic8800_fdrv/aicwf_sdio.c:1530-1604 | A reader of four-byte headers recovers exactly the frames, and stops after the last, whatever follows the zero header, if and only if each length is non-zero and below 4096 |
| `TxFraming.AggrBuffer.AggrSend` | patches/kernel/avaota-c1-6.6.0/files/drivers/net/wireless/aic8800/aic8800_fdrv/aicwf_sdio.c:1584-1604 | The block handed to the bus is the frames rounded up to 512 bytes; over whatever stale bytes fill the rounding its reader gets exactly the frames if and only if the header can describe each |
| `TxFraming.AggrBuffer.Aggr` | patches/kernel/avaota-c1-6.6.0/files/drivers/net/wireless/aic8800/aic8800_fdrv/aicwf_sdio.c:1530-1582 | One frame appended: header, content, zeros, length rewritten on all chips but one |
| `TxFraming.AggrBuffer.Reset` | patches/kernel/avaota-c1-6.6.0/files/drivers/net/wireless/aic8800/aic8800_fdrv/aicwf_sdio.c:1606-1613 | The buffer is empty again |
| `TxFraming.FieldExact` | patches/kernel/avaota-c1-6.6.0/files/drivers/net/wireless/aic8800/aic8800_fdrv/aicwf_sdio.c:1540-1569 | The twelve-bit length field carries the length if and only if it is below 4096 |
| `TxFraming.FieldExample` | patches/kernel/avaota-c1-6.6.0/files/drivers/net/wireless/aic8800/aic8800_fdrv/aicwf_sdio.c:1540-1569 | A frame of 4096 bytes reads as a zero header, where the reader stops whatever follows |
| `TxFraming.ReadOne` | patches/kernel/avaota-c1-6.6.0/files/drivers/net/wireless/aic8800/aic8800_fdrv/aicwf_sdio.c:1530-1582 | One frame is read back, padding and all |
| `TxFraming.ReceivedExactly` | patches/kernel/avaota-c1-6.6.0/files/drivers/net/wireless/aic8800/aic8800_fdrv/aicwf_sdio.c:1558-1570 | The AIC8800D80 counts the content alone, the others the zeros up to a multiple of four |
| `TxFraming.FrameExample` | patches/kernel/avaota-c1-6.6.0/files/drivers/net/wireless/aic8800/aic8800_fdrv/aicwf_sdio.c:1540-1570 | The eight bytes of a one-byte frame, on either kind of chip |
| `TxFraming.BlocksExactly` | patches/kernel/avaota-c1-6.6.0/files/drivers/net/wireless/aic8800/aic8800_fdrv/aicwf_sdio.c:1093-1097 | A transfer is the least number of whole 512-byte blocks |
| `TxFraming.HeaderProtected` | patches/kernel/avaota-c1-6.6.0/files/drivers/net/wireless/aic8800/aic8800_fdrv/aicwf_sdio.c:1540-1548 | An AIC8800D80 header has checksum zero as a whole, and any burst of at most eight bits in it shows |
| `TxFraming.TailFits` | patches/kernel/avaota-c1-6.6.0/files/drivers/net/wireless/aic8800/aic8800_fdrv/aicwf_sdio.c:1590-1597 | The zero header and the rounding stay within the buffer and do not add a block |
| `TxPath.CreditsAreSafe` | patches/kernel/avaota-c1-6.6.0/files/drivers/net/wireless/aic8800/aic8800_fdrv/aicwf_sdio.c:1333-1352 | In every run the aggregate between sends is empty or below the credits minus two, and no aggregate sent held more than the credits minus two |
| `TxPath.SendingLeavesTwoCredits` | patches/kernel/avaota-c1-6.6.0/files/drivers/net/wireless/aic8800/aic8800_fdrv/aicwf_sdio.c:1584-1604 | A send never brings the credits below two |
| `TxPath.ReadingPaysForFrames` | patches/kernel/avaota-c1-6.6.0/files/drivers/net/wireless/aic8800/aic8800_fdrv/aicwf_sdio.c:1336-1352 | Over every run the credits are the last reading less all frames sent since; what went out on one reading and what is in the aggregate are together at most that reading minus two |
| `TxPath.ReadingExactly` | patches/kernel/avaota-c1-6.6.0/files/drivers/net/wireless/aic8800/aic8800_fdrv/aicwf_sdio.c:143-180 | More than two credits are read exactly if the register is readable and says so and the cap allows it, and then they are the lesser of both |
| `TxPath.RoundExactly` | patches/kernel/avaota-c1-6.6.0/files/drivers/net/wireless/aic8800/aic8800_fdrv/aicwf_sdio.c:1486-1516 | A round with packets queued and credits over moves the oldest packet of the highest priority to the end of the aggregate |
| `TxPath.GoesOutExactly` | patches/kernel/avaota-c1-6.6.0/files/drivers/net/wireless/aic8800/aic8800_fdrv/aicwf_sdio.c:1518-1524 | An aggregate goes out exactly when a frame has joined and the queue is empty, a command waits or all credits but two are used; it goes out whole |
| `TxPath.QueuedExactly` | patches/kernel/avaota-c1-6.6.0/files/drivers/net/wireless/aic8800/aic8800_fdrv/aicwf_sdio.c:1392-1409 | A packet is refused exactly when 8192 are queued |
| `TxPath.FlushBranchUnreachable` | patches/kernel/avaota-c1-6.6.0/files/drivers/net/wireless/aic8800/aic8800_fdrv/aicwf_sdio.c:1481-1485 | The branch that flushes a full aggregate before dequeuing is never taken from the loop |
| `TxPath.EveryFrameIsSent` | patches/kernel/avaota-c1-6.6.0/files/drivers/net/wireless/aic8800/aic8800_fdrv/aicwf_sdio.c:1473-1527 | Frames sent, in order, followed by those in the aggregate, are the packets dequeued; when the thread leaves the loop none is left behind; the packet count is the queue's |
| `TxPath.ReaderGetsEveryPacket` | patches/kernel/avaota-c1-6.6.0/files/drivers/net/wireless/aic8800/aic8800_fdrv/aicwf_sdio.c:1473-1604 | Over every run a reader of all the blocks gets exactly the packets dequeued, in order, but for those still in the aggregate, if and only if the header can describe each of them |
| `TxPath.AggregatesFit` | patches/kernel/avaota-c1-6.6.0/files/drivers/net/wireless/aic8800/aic8800_fdrv/aicwf_sdio.c:1473-1524 | With a cap of 32 and padded frames of at most 3276 bytes, each transfer fits 1536*64 bytes and there is room for the frame that joins next |
| `TxPath.StepKeepsInv` | patches/kernel/avaota-c1-6.6.0/files/drivers/net/wireless/aic8800/aic8800_fdrv/aicwf_sdio.c:1333-1352 | Every step of thread, producers and register reads keeps the invariant |
| `TxPath.RunKeepsInv` | patches/kernel/avaota-c1-6.6.0/files/drivers/net/wireless/aic8800/aic8800_fdrv/aicwf_sdio.c:1333-1352 | The invariant holds in every reachable state |
| `TxPath.FlowCtrlRange` | patches/kernel/avaota-c1-6.6.0/files/drivers/net/wireless/aic8800/aic8800_fdrv/aicwf_sdio.c:143-180 | The credits read are at most the cap, or not positive |
| `TxPath.TxPriv.SendBegin` | patches/kernel/avaota-c1-6.6.0/files/drivers/net/wireless/aic8800/aic8800_fdrv/aicwf_sdio.c:1473-1516 | First part of a send; the self-repair reset at its entry is unreachable |
| `TxPath.TxPriv.SendEnd` | patches/kernel/avaota-c1-6.6.0/files/drivers/net/wireless/aic8800/aic8800_fdrv/aicwf_sdio.c:1518-1524 | Second part: the aggregate goes out on an empty queue, on request or when the credits are used |
| `TxPath.TxPriv.SendAggregate` | patches/kernel/avaota-c1-6.6.0/files/drivers/net/wireless/aic8800/aic8800_fdrv/aicwf_sdio.c:1584-1604 | Credits drop by the number of frames, and the bus gets exactly the frames |
| `TxPath.TxPriv.BusTxData` | patches/kernel/avaota-c1-6.6.0/files/drivers/net/wireless/aic8800/aic8800_fdrv/aicwf_sdio.c:1392-1409 | A packet accepted is counted, one refused is not |
| `Nat25.EachAddressOnce` | patches/kernel/avaota-c1-6.6.0/files/drivers/net/wireless/aic8800/aic8800_fdrv/aic_br_ext.c:363-377 | Every known address sits in exactly one place, in the chain that its hash names |
| `Nat25.LinksMeet` | patches/kernel/avaota-c1-6.6.0/files/drivers/net/wireless/aic8800/aic8800_fdrv/aic_br_ext.c:363-393 | Every back link designates the link that leads to its entry, and every next entry points back |
| `Nat25.NatDb.Insert` | patches/kernel/avaota-c1-6.6.0/files/drivers/net/wireless/aic8800/aic8800_fdrv/aic_br_ext.c:469-504 | Insertion is the map update: known entries get the new hardware address and time and keep their use count; a failed allocation changes nothing |
| `Nat25.NatDb.LookupAndReplace` | patches/kernel/avaota-c1-6.6.0/files/drivers/net/wireless/aic8800/aic8800_fdrv/aic_br_ext.c:396-466 | Found exactly if the map knows the address; a live entry rewrites the destination and counts a use, a stale one does neither |
| `Nat25.NatDb.Expire` | patches/kernel/avaota-c1-6.6.0/files/drivers/net/wireless/aic8800/aic8800_fdrv/aic_br_ext.c:621-705 | Exactly the entries with a stale time lose one use, exactly those with none left disappear; the cached pointer and its two addresses are cleared exactly if its entry went |
| `Nat25.NatDb.Cleanup` | patches/kernel/avaota-c1-6.6.0/files/drivers/net/wireless/aic8800/aic8800_fdrv/aic_br_ext.c:593-618 | The map is empty and the cached pointer names nothing |
| `Nat25.NatDb.Link` | patches/kernel/avaota-c1-6.6.0/files/drivers/net/wireless/aic8800/aic8800_fdrv/aic_br_ext.c:363-377 | The entry is at the front of its chain, all links exact |
| `Nat25.NatDb.Unlink` | patches/kernel/avaota-c1-6.6.0/files/drivers/net/wireless/aic8800/aic8800_fdrv/aic_br_ext.c:380-393 | The entry is out of its chain, its neighbours meet, all other links exact |
| `Nat25.NatDb.UnlinkPointers` | patches/kernel/avaota-c1-6.6.0/files/drivers/net/wireless/aic8800/aic8800_fdrv/aic_br_ext.c:380-393 | The pointer writes, through a back link that may be a bucket or another entry |
| `Nat25.NatDb.LinkPointers` | patches/kernel/avaota-c1-6.6.0/files/drivers/net/wireless/aic8800/aic8800_fdrv/aic_br_ext.c:363-377 | The pointer writes of linking |
| `Nat25.NatDb.Find` | patches/kernel/avaota-c1-6.6.0/files/drivers/net/wireless/aic8800/aic8800_fdrv/aic_br_ext.c:402-461 | Walking one chain finds the entry of the address if the map has one |
| `Nat25.NatDb.FindEntry` | patches/kernel/avaota-c1-6.6.0/files/drivers/net/wireless/aic8800/aic8800_fdrv/aic_br_ext.c:1543-1567 | The entry of an IPv4 address, found exactly if the map knows it |
| `Nat25.NatDb.CacheSender` | patches/kernel/avaota-c1-6.6.0/files/drivers/net/wireless/aic8800/aic8800_fdrv/rwnx_tx.c:1068-1090 | After looking the sender up the cached pointer names a live entry of the cached IP address, or nothing |
| `Nat25.NetworkHash` | patches/kernel/avaota-c1-6.6.0/files/drivers/net/wireless/aic8800/aic8800_fdrv/aic_br_ext.c:311-360 | The hash, branch by branch and with its fallback loop, is the exclusive or of the bytes that the protocol counts |
| `Nat25.HashExactly` | patches/kernel/avaota-c1-6.6.0/files/drivers/net/wireless/aic8800/aic8800_fdrv/aic_br_ext.c:311-360 | Behind the first byte, a change moves an address to another chain exactly if the protocol counts that byte and the change is in its low four bits |
| `Nat25.Ipv4Exactly` | patches/kernel/avaota-c1-6.6.0/files/drivers/net/wireless/aic8800/aic8800_fdrv/aic_br_ext.c:148-155 | An IPv4 address lies in bytes 7 to 10 behind its protocol byte, the rest is zero |
| `Nat25.ExpiredExactly` | patches/kernel/avaota-c1-6.6.0/files/drivers/net/wireless/aic8800/aic8800_fdrv/aic_br_ext.c:128-145 | Ticks less than half the range apart: stale exactly if 300 seconds have passed, wherever the tick counter wraps |
| `Nat25.ExpiryExactly` | patches/kernel/avaota-c1-6.6.0/files/drivers/net/wireless/aic8800/aic8800_fdrv/aic_br_ext.c:629-697 | A pass leaves a live entry as it is and takes a use from a stale one, its last with it |
| `Nat25.EntryExactly` | patches/kernel/avaota-c1-6.6.0/files/drivers/net/wireless/aic8800/aic8800_fdrv/aic_br_ext.c:469-504 | What an insertion, a lookup and a touch do to an entry and to the others |
| `Nat25.SeenOftenStays` | patches/kernel/avaota-c1-6.6.0/files/drivers/net/wireless/aic8800/aic8800_fdrv/aic_br_ext.c:396-705 | An entry that every pass finds live stays whatever else happens, with the hardware address last inserted, the time last seen and one more use for each lookup that found it live |
| `Nat25.KnownFor300Seconds` | patches/kernel/avaota-c1-6.6.0/files/drivers/net/wireless/aic8800/aic8800_fdrv/aic_br_ext.c:128-145 | An address is known after any lookups, insertions of others and passes less than 300 seconds after its insertion |
| `Nat25.LastInsertionWins` | patches/kernel/avaota-c1-6.6.0/files/drivers/net/wireless/aic8800/aic8800_fdrv/aic_br_ext.c:469-705 | After any history of calls a known address has the hardware address of its last insertion, and at least one use left |
| `Nat25.GoneAfterItsUses` | patches/kernel/avaota-c1-6.6.0/files/drivers/net/wireless/aic8800/aic8800_fdrv/aic_br_ext.c:629-697 | An entry that stays stale survives exactly as many expiry passes as it has uses, less one |
| `Nat25.KeptByUseExample` | patches/kernel/avaota-c1-6.6.0/files/drivers/net/wireless/aic8800/aic8800_fdrv/aic_br_ext.c:629-697 | An entry looked up once survives the first expiry pass after it has gone stale |

## Left out

- Command manager: timeouts and the crashed state they lead to, non-blocking commands, `cmd_mgr_llind`
  and drain. Confirmations come once per pushed command; callbacks return 0.
- Command structures: a command is a value in the list with a key for its caller's structure, so
  aliasing between the caller's copy and the list is not modelled.
- CmdManager.CommandManager.Queue: waiting, pushing and the size test happen outside the lock and are
  steps of `CmdProtocol`.
- ACK filter: parsing of TCP options and headers (the verdict is a parameter), `tcp_ack_handle` (never
  called by the send filter), tear-down. A call is one step, so the sequence-lock interleavings inside
  one call are not modelled. Nothing says that a held ACK is sent in the end: a timer that fires while
  another buffer is being sent does nothing.
- AckRuns.NothingNewerIsLost: asks that no slot be taken over with a buffer in it, which is sufficient
  only; `NothingNewerIsLostExactly` has the exact condition.
- Md5.Context.Update: asks that the block loop end; `LoopEndsExactly` says when it does not.
- Md5.Context.Blocks: asks the same.
- Md5.DigestOfPieces: asks the same of every piece.
- Transmit: bus errors and bus-down, suspended state, register access, flow control towards the network
  stack, headroom moves in `aicwf_sdio_txpkt`, and the thread's command and interrupt work.
- TxPath.TxPriv.SendBegin: asks for room for the frame that joins; `AggregatesFit` says when there is.
- Receive: the branch without preallocated buffers, allocation failures, the USB back end, which handler
  a configuration message goes to.
- RxDeaggregation.RxBuffer.Process: asks that the block be walkable, because the walk checks nothing: what
  lies in memory behind the block is not modelled, and on other blocks the walk need not end.
- RxDeaggregation.RxBuffer.AnotherPacket: asks that the block not end after one more byte, because the code
  then reads the byte behind it.
- RxDeaggregation.RxBuffer.TakeOne: asks that the frame end within the block, because the code copies what
  lies behind it.
- HciReassembly.HciDevice.Reassembly: asks that a valid index belong to the type, as its one call site does.
- TxFraming.AggrBuffer.Aggr: asks for room for the frame, because the code writes past the buffer without it.
- HCI: allocation failures, packet types without a header. The allocator's slack is one number per packet
  type.
- BtCharRing.Ring.Read: failing copies and a clear during a read are not modelled.
- Frame queue: socket buffers have no identity beyond their value.
- NAT2.5: PPPoE relay tags, protocol dispatch in `nat25_db_handle`, the other users of the cached sender
  address, freeing of memory. Tick counters are 64 bits wide.
- Registers, GPIO, kernel threads, probe, suspend, sysfs, debug output, vendor commands, Bluetooth low
  power, tables and message structures: input, output and glue.
