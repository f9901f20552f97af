# minemu, modelled and proved

minemu emulates a small ARM machine: RAM and two ROMs, a two-level MMU, a block
controller, a timer, two UARTs and an interrupt controller driven in virtual time, a
system-image format with its packer and loader, and a service thread that schedules the
whole. This project models those parts in Dafny and proves what they promise.

Check it with `dafny verify dfyconfig.toml` (Dafny 4.11).

## What is proved

Where the program updates state in place, the model is a class or an array algorithm. Each
such method is proved equal to a specification function on values, and the theorems are
lemmas about those functions, for every input and every run.

* **MMU** (`Platform`, `Bytes`, `Memory`, `Mmu`, `PageWords`). Which word of which table a walk
  reads, and what its bits decide, is stated on raw words. Page tables live in the memory that the
  walk itself updates. A word that grants any access is never a legal directory entry,
  before or after its Accessed and Dirty bits change, so no run of walks ever changes what
  any address translates to, whatever aliasing the tables have. A failed walk writes
  nothing; a successful one touches two bits of one RAM word and stays confined.
* **System image** (`Records`, `Validation`, `AddressRules`, `Utf8`, `ImageFormat`,
  `ImageSoundness`, `WireFormat`, `Layout`, `ImagePack`, `ImageRoundTrip`, `ImageBuild`,
  `Sorting`, `Builder`, `Packaging`). `IsImage` says declaratively which bytes are an image of
  what; the parser accepts exactly those and no byte string is two images. `WireFormat` says the
  same in numbers, field by field and address by address, as the documentation does, and both
  agree for all bytes. The cursor-and-buffer packer fills the buffer with the plain
  concatenation of the parts and succeeds exactly on good inputs, and its output parses
  back to the inputs. The result does not depend on the order of modules or segments.
* **Boot** (`Boot`, `Delivery`, `Witnesses`). Applying a boot plan to any RAM loads every segment,
  zeroes every BSS byte, leaves a boot-info record that tells the header's values word by word,
  and changes no other byte. End to end, the bytes of every kernel ELF segment are resident at
  their load address, and every module is carried by the image.
* **Devices** (`Registers`, `Interrupts`, `Timer`, `Serial`, `Block`, `WriteBack`, `Bus`,
  `MachineRuns`, `Emulation`, `Lifetime`). The signal queue always replays to the true device
  levels; ticking one tick at a time equals one jump; claims follow the protocol; timer deadlines
  keep their phase, and a timer interrupts exactly when one is reached. Over every run each
  register holds what was last written to it. In every run of the machine, media agrees with the
  host file on every clean sector and requests complete at exactly T + 32 from their snapshot. A
  reset never loses media: it flushes both units first and rebuilds nothing if a write failed.
* **Scheduling** (`Backend`, `Scheduler`, `ServiceLaws`, `ServiceRuns`, `Persistence`). The CPU
  engine is an oracle that executes at most the count it is given and reports why it stopped.
  What a run costs is stated exactly for each of its outcomes, and bounded work ends. Over every
  run of commands and oracle answers no scheduled input or deadline is overshot, inputs arrive at
  exactly their tick in stable order, and a bounded resume uses n or n + 1 ticks. Every such run
  drives the machine only through permitted actions, flushes and resets, so the device promises
  hold of it too; and whenever the service does not run, nothing is left to write back unless a
  host write failed.
* **Searching** (`Console`, `Search`). The prefix-table overlap and the chunked memory search
  find what their naive definitions find.

## Where the code and its documentation differ

* `docs/platform/system-image-v1.md:147-149` says that empty ranges occupy no bytes. The
  parser nevertheless rejects an image whose empty module table starts strictly inside
  another range. The model follows the code: `ImageSoundness.ImagesExactly` proves that this
  is the only difference, for all images, and `Witnesses.DocumentedImageMayBeRejected` gives
  such an image.
* The parser ignores the data offset of an empty payload
  (`crates/minemu-image/src/tests.rs:163-178`), but `boot_plan` slices the image at that
  offset and panics if it lies outside. `Boot.PlannableExactly` gives the exact condition,
  `Witnesses.ParsedImageMayNotBePlannable` an image that fails it, and `Delivery.PackagedIsPlannable`
  shows that packaged images never do.
* `docs/platform/devices-v2.md:78-80` wants every written sector marked dirty. The marking
  loop counts with 32 bits. On media of 2^32 sectors or more its bound can wrap round (with
  overflow checks it panics), and a write then marks nothing. `WriteBack.WriteMarksExactly`
  gives the exact condition and `Witnesses.WrittenSectorMayStayClean` such a write;
  `WriteBack.RunAgrees` covers all smaller media.

## Model

| member | source | states |
|---|---|---|
| Bytes.Le32RoundTrip | crates/minemu-platform/src/image.rs:359-376 | reading back a written little-endian word gives the word |
| Bytes.FromLe32RoundTrip | crates/minemu-platform/src/image.rs:359-376 | writing back a read word gives the four bytes |
| Bytes.LittleEndian | crates/minemu-platform/src/image.rs:359-376 | byte i of a word is value / 256^i % 256, and weighs 256^i |
| Platform.PhysicalMap | crates/minemu-platform/src/mmap.rs:39-88 | which region holds which address, in numbers |
| Memory.StorageMap | crates/minemu-core/src/memory.rs:73-87 | which bytes back each address, in numbers |
| Memory.WriteMap | crates/minemu-core/src/memory.rs:89-153 | which range writes succeed, which bytes they change and why the others fail, in numbers |
| Memory.ReadAfterWrite | crates/minemu-core/src/memory.rs:121-137 | an aligned store to RAM succeeds, is read back at its address, and changes no other aligned word of any region |
| Memory.PhysicalMemory.WithRoms | crates/minemu-core/src/memory.rs:37-55 | ROM contents that fit are kept and padded with zeros, RAM starts as zeros; larger ones are an out-of-bounds error |
| Memory.PhysicalMemory.ReadWord | crates/minemu-core/src/memory.rs:73-126 | four cells of the array or ROM that holds the address give the little-endian word of the memory value; outside any storage, or past its end, the error tells which |
| Memory.PhysicalMemory.Store | crates/minemu-core/src/memory.rs:89-153 | the copy in place gives the memory of the range write; a refused write reports why and leaves memory as it was |
| Mmu.PackUnpack | crates/minemu-platform/src/mmu.rs:125-212 | the fields of a page-table word and the word determine each other |
| Mmu.Walker.ApplyCp15 | crates/minemu-core/src/mmu.rs:96-104 | each CP15 operation sets its register and no other, and keeps the directory base page aligned |
| Mmu.Walker.Translate | crates/minemu-core/src/mmu.rs:106-178 | with the MMU off the address is its own translation and memory is untouched; with it on the result and all of memory afterwards are those of one walk, and a fault, and only a fault, is recorded |
| Mmu.RecordedAuthorizesAlike | crates/minemu-platform/src/mmu.rs:178-203 | recording an access in a page-table entry changes no authorization decision |
| Mmu.GrantingEntryIsNoDirectory | crates/minemu-platform/src/mmu.rs:97-121 | an entry that authorizes some access is no usable directory entry, before or after recording |
| Mmu.WordAfterWalk | crates/minemu-core/src/mmu.rs:106-178 | after a walk every aligned word is unchanged except the used entry, which is recorded |
| Mmu.WalkPreservesResolve | crates/minemu-core/src/mmu.rs:106-178 | no walk changes the outcome of any other walk, from any directory, even with aliased tables |
| Mmu.WalksPreserveResolve | crates/minemu-core/src/mmu.rs:106-178 | nor does any sequence of walks |
| Mmu.RepeatedWalkIsIdle | crates/minemu-core/src/mmu.rs:106-178 | repeating a walk gives the same outcome and changes no memory |
| Mmu.WalkFrame | crates/minemu-core/src/mmu.rs:124-177 | a failed walk changes no byte; a successful one only sets Accessed, and Dirty exactly for a write, in one RAM word |
| Mmu.WalkConfined | crates/minemu-platform/src/mmu.rs:161-195 | a successful walk yields an implemented address, never a device for user mode, never a ROM for a write |
| PageWords.WalkOnWords | docs/platform/exceptions-and-mmu-v1.md:86-125 | bits 31-22 of an address select the directory word and bits 21-12 the table word; the raw bits of the two words decide the resulting address or the fault cause, for every access |
| PageWords.WalkMarksWord | docs/platform/exceptions-and-mmu-v1.md:127-130 | a successful walk sets bit 5, and for a write bit 6, of that table word, and changes no other aligned word |
| PageWords.DirectoryPages | crates/minemu-platform/src/mmu.rs:45-50 | a value can become the directory exactly when it is an aligned page of RAM |
| Interrupts.ReplaySplit | crates/minemu-core/src/interrupt.rs:53-61 | draining the queue in two goes is draining it in one |
| Interrupts.ReplayKeepsLastLevel | crates/minemu-core/src/interrupt.rs:53-61 | after draining, each source has the level of its last signal, or its old one if it sent none |
| Interrupts.Controller.Select | crates/minemu-core/src/interrupt.rs:81-90 | the choice is an eligible source of least priority and then least ID, and is missing exactly when no source is eligible |
| Interrupts.ClaimIsRetained | crates/minemu-core/src/interrupt.rs:81-112 | a claim survives any events but its own EOI, so every claim in between returns the same source |
| Interrupts.ClaimChangesOnlyByProtocol | crates/minemu-core/src/interrupt.rs:81-112 | a claim changes only by a claim when none is held, for the first eligible source, or by the EOI of its holder, which changes nothing else |
| Interrupts.ClaimTakesFirst | docs/platform/devices-v1.md:58-66 | a claim while none is held takes the pending and enabled source of least priority value, then least ID, and none only when there is no such source |
| Interrupts.EoiReleases | docs/platform/devices-v1.md:72-74 | an EOI with the ID of the claimed source releases it, and any other changes nothing |
| Interrupts.ControllerHoldsLatest | docs/platform/devices-v1.md:44-78 | over any run ENABLE, every priority and every PENDING bit are what was last written or sent |
| Interrupts.InterruptController.ProcessSignals | crates/minemu-core/src/interrupt.rs:53-61 | the draining loop leaves an empty queue and the replayed bitmap |
| Interrupts.InterruptController.ClaimSource | crates/minemu-core/src/interrupt.rs:81-90 | a claim first drains, then keeps the held source or takes the selected one |
| Interrupts.InterruptController.EndOfInterrupt | crates/minemu-core/src/interrupt.rs:96-112 | only the claimed source's EOI is accepted; any other changes nothing |
| Timer.SysTick.Advance | crates/minemu-core/src/systick.rs:92-110 | the catch-up loop ends at the first deadline of its phase beyond now; a one-shot expiry disarms; it reports whether the deadline was reached |
| Timer.SysTick.Update | crates/minemu-core/src/systick.rs:142-165 | an update gives the specified state and always queues the resulting level |
| Timer.NextAfterIsBeyond | crates/minemu-core/src/systick.rs:92-110 | the new deadline lies beyond now, by at most one period |
| Timer.NextAfterKeepsPhase | crates/minemu-core/src/systick.rs:92-110 | it is a whole number of periods after the old one |
| Timer.NextAfterIsLeast | crates/minemu-core/src/systick.rs:92-110 | no smaller value of the same phase lies beyond now |
| Timer.WriteKeepsPhase | crates/minemu-core/src/systick.rs:59-81 | after every accepted write a deadline exists exactly when the timer is enabled with nonzero period, and lies in (now, now + period] |
| Timer.AdvanceKeepsPhase | crates/minemu-core/src/systick.rs:92-110 | the passage of time keeps that invariant |
| Timer.AdvanceTwice | crates/minemu-core/src/systick.rs:92-110 | stopping at an earlier tick makes no difference at a later one |
| Timer.PeriodAndAck | docs/platform/devices-v1.md:96-99 | PERIOD restarts a running timer, ACK clears pending, and neither changes anything else |
| Timer.ControlBits | docs/platform/devices-v1.md:87-94 | bit 0 enables, bit 1 is periodic, bit 2 interrupts; enabling arms the timer one period ahead and disabling disarms it |
| Timer.ExpiryIsExact | docs/platform/devices-v1.md:100-106 | advancing sets pending exactly if the deadline is reached; a one-shot timer then disables itself and a periodic one moves on by whole periods |
| Timer.PeriodicSchedule | docs/platform/devices-v1.md:91-106 | a periodic timer started at T and acknowledged at a is pending at now exactly when some T + kp lies in (a, now] |
| Timer.OneShotSchedule | docs/platform/devices-v1.md:91-106 | a one-shot timer expires once, at T + p |
| Serial.PushAllKeepsNewest | crates/minemu-core/src/uart.rs:48-73 | a bounded queue holds the newest bytes pushed, in order |
| Serial.BytesAreReadInOrder | docs/platform/devices-v1.md:200-207 | over any run without overflow the guest reads the received bytes once each and in order |
| Serial.HistoryIsNewest | docs/platform/devices-v1.md:209-211 | over any run the transmit history is the newest bytes sent, in order |
| Serial.ControlIsLatest | docs/platform/devices-v1.md:198-215 | bit 0 of the last CONTROL written enables the interrupt |
| Serial.Uart.Update | crates/minemu-core/src/uart.rs:48-90 | every UART operation gives the specified queues and byte, and queues the resulting level where the code signals |
| Block.BlockDevice.Update | crates/minemu-core/src/block.rs:350-398 | a refused update changes nothing and sends nothing; any other gives the specified state and queues the resulting level |
| Block.BlockDevice.ExecuteRequest | crates/minemu-core/src/block.rs:265-312 | the transfer and the marking loop, with its 32-bit bound, give the specified media, dirty set, memory and error code |
| Block.BlockDevice.AdvanceTo | crates/minemu-core/src/block.rs:195-207 | a due request completes with its result and one signal; otherwise nothing changes |
| Block.BlockDevice.Flush | crates/minemu-core/src/block.rs:209-237 | the flush writes the media and clears the dirty set, returns early when clean, or keeps everything and reports the failure |
| Block.ErrorReported | docs/platform/devices-v2.md:51-76 | each request reports the first fault among unit, command, RAM buffer, medium and sector range, and none exactly when all are right |
| WriteBack.SpliceAgrees | crates/minemu-core/src/block.rs:299-312 | a write to the media differs from the host file only in sectors it marks dirty |
| WriteBack.StepAgrees | crates/minemu-core/src/block.rs:92-312 | every event keeps each unit's dirty sectors on the media and its clean sectors equal to the host file, whatever the other unit does |
| WriteBack.RunAgrees | crates/minemu-core/src/block.rs:92-312 | so does every run whose attached media has fewer than 2^32 sectors |
| WriteBack.WriteMarksExactly | crates/minemu-core/src/block.rs:306-308 | a write marks every sector it changes exactly when the number past the last one fits 32 bits, or they were dirty already |
| Witnesses.WrittenSectorMayStayClean | crates/minemu-core/src/block.rs:306-308 | on a disk of 2^32 sectors a write of the last one succeeds and changes it, and nothing is dirty |
| WriteBack.CleanMeansEqual | crates/minemu-core/src/block.rs:209-231 | media without dirty sectors is the host file, which justifies the early return |
| WriteBack.SuccessfulFlushPersists | crates/minemu-core/src/block.rs:209-231 | a flush that reports success leaves the host file equal to the media and nothing dirty |
| WriteBack.FailedFlushKeepsDirty | crates/minemu-core/src/block.rs:220-237 | a failed flush of a unit keeps media, dirty set and host file, sets Complete and the deferred error, and only comes from a failed host write |
| WriteBack.OtherUnitIsUntouched | crates/minemu-core/src/block.rs:92-312 | attaching, detaching, flushes and completions leave the other unit's media, dirty set and host file alone |
| WriteBack.BusyUntilDeadline | crates/minemu-core/src/block.rs:150-207 | before its deadline an active request is changed by no event |
| WriteBack.CommandCompletesOnTime | docs/platform/devices-v2.md:60-70 | a command accepted at T is busy through every run before T + 32 and then completes with the result of its snapshot |
| WriteBack.ReadBackSeesWrite | docs/platform/devices-v2.md:78-82 | sectors written from RAM read back as the same bytes before any flush |
| WriteBack.StagingHoldsLatest | docs/platform/devices-v2.md:35-45 | over any run each staging register holds what was last written to it, and bit 0 of the last CONTROL enables the interrupt |
| WriteBack.CommandSnapshotsLatest | docs/platform/devices-v2.md:62-66 | a command after any run snapshots the values last written, clears the status and is due 32 ticks later |
| WriteBack.StatusAndMedia | docs/platform/devices-v2.md:84-99 | which updates set or clear Complete and Error and with what code, and which change the media of which unit |
| WriteBack.RefusedExactly | crates/minemu-core/src/block.rs:85-107 | an update is refused exactly for media that is not whole sectors or a unit that does not exist |
| WriteBack.ReadTransfers | docs/platform/devices-v2.md:78-82 | byte by byte, a read copies the media from byte 512 * lba on into the buffer and changes nothing else |
| WriteBack.WriteTransfers | docs/platform/devices-v2.md:78-82 | byte by byte, a write copies the buffer to the media from byte 512 * lba on and changes nothing else |
| Bus.MmioBus.constructor | crates/minemu-core/src/bus.rs:25-42 | a new bus has all devices in reset over one empty signal queue |
| Bus.MmioBus.AccessController | crates/minemu-core/src/interrupt.rs:134-163 | controller operations fail exactly for a wrong EOI and otherwise give the specified state |
| Bus.MmioBus.Access | crates/minemu-core/src/bus.rs:44-105 | a decoded guest access updates its device and drains the queue, or fails without draining |
| Bus.MmioBus.AdvanceTo | crates/minemu-core/src/bus.rs:107-113 | the devices advance, timer first, and the queue is drained |
| Bus.MmioBus.ReceiveUart | crates/minemu-core/src/bus.rs:115-128 | a host byte reaches its UART and the queue is drained |
| Bus.Machine.AdvanceTicks | crates/minemu-core/src/machine.rs:140-144 | the tick loop leaves every device, the bitmap, media and memory as one jump to the last tick does |
| Bus.AdvancedPending | crates/minemu-core/src/bus.rs:107-113 | after an advance the queue is empty and the bitmap is the replayed one with the timer's and a completed block request's levels |
| Bus.AdvancedTwice | crates/minemu-core/src/bus.rs:107-113 | advancing through an earlier tick makes no difference at a later one |
| Bus.TickingIsJumping | crates/minemu-core/src/machine.rs:140-144 | n ticks one by one equal one jump of n ticks, in every machine state |
| Bus.JumpInPlace | crates/minemu-core/src/machine.rs:140-144 | between ticks a jump of zero ticks only drains the queue |
| Bus.StepIsCoherent | crates/minemu-core/src/bus.rs:44-128 | every operation keeps the queue replaying to each device's true level, including failed flushes and bytes delivered outside the bus |
| Bus.PendingEqualsLevels | crates/minemu-core/src/interrupt.rs:53-66 | after any run, draining makes PENDING equal to the true levels of all four sources |
| Bus.LevelsOfDevices | docs/platform/devices-v1.md:105-106 | the level of each source in terms of its status and its enable bit |
| Bus.AccessSettlesLevels | crates/minemu-core/src/bus.rs:44-105 | a guest access fails exactly by a wrong EOI and changes nothing, and after any other the queue is empty and the bitmap is the true levels |
| Bus.TimerStaysPending | docs/platform/devices-v1.md:105-107 | a pending timer stays so over any run without an ACK, and bit 2 of the last CONTROL says whether it interrupts |
| Bus.ExpiryInterrupts | docs/platform/devices-v1.md:100-107 | once the deadline is reached the timer is in the drained bitmap after any run without an ACK, exactly if the last CONTROL set bit 2 |
| Bus.ResetIsCoherent | crates/minemu-core/src/bus.rs:25-42 | the reset state starts so |
| Bus.ActedIsSettled | crates/minemu-core/src/machine.rs:85-144 | every guest access, host input, store and tick keeps levels true, the timer in phase and no block request overdue |
| Bus.PlayedIsSettled | crates/minemu-core/src/machine.rs:85-144 | so does every run of the machine |
| MachineRuns.ActedIsBlockRun | crates/minemu-core/src/machine.rs:140-144 | each action of the machine, any number of ticks included, is one event for its block device, memory and host files |
| MachineRuns.PlayedIsBlockRun | crates/minemu-core/src/machine.rs:140-144 | so every run of the machine is a run of the block device |
| MachineRuns.MediaAgreesInEveryRun | crates/minemu-core/src/block.rs:92-312 | in every run of the machine a unit whose clean sectors equal its host file keeps them so |
| MachineRuns.CommandCompletesOnTime | docs/platform/devices-v2.md:60-70 | a guest command accepted at T is active after every machine run that ends before T + 32, and ticking on to T + 32 completes it with the result of its snapshot |
| Emulation.Emulator.Flush | crates/minemu-runtime/src/service.rs:270-292 | the flush loop gives the specified devices and files, whatever errors it meets |
| Emulation.CloneBus | crates/minemu-core/src/machine.rs:66-82 | a reset clone has every device in reset, the same ROMs and media, and leaves its source alone |
| Emulation.ConfiguredBus | crates/minemu-runtime/src/service.rs:357-377 | the configured machine attaches the host files and prefills RAM, or fails |
| Emulation.Emulator.Reset | crates/minemu-runtime/src/service.rs:247-268 | a reset ends in the specified machine and files for every answer of host and engine |
| Emulation.FlushAttemptsBoth | docs/platform/devices-v2.md:105-108 | a flush attempts both units: each is written out or, if its own write fails, kept dirty; any failure is reported |
| Emulation.ResetKeepsMedia | docs/platform/devices-v2.md:25-29 | whatever a reset meets, media bytes that are attached stay attached and unchanged |
| Emulation.ResetAgrees | docs/platform/devices-v2.md:25-29 | after a reset of any outcome every unit with a host file still agrees with it, so no dirty sector is discarded |
| Emulation.ConfiguredAgrees | crates/minemu-runtime/src/service.rs:357-377 | a machine configured from any source agrees with its host files |
| Emulation.ConfiguredIsSettled | crates/minemu-runtime/src/service.rs:357-377 | and starts with a queue true to its devices, its timer in phase and no request overdue |
| Emulation.SuccessfulResetIsClean | docs/platform/devices-v2.md:25-29 | a reset succeeds only if no write failed, and then leaves clean devices with a true queue, the same ROMs and prefilled zero RAM, settled at tick 0 |
| Emulation.PrefillHoldsLatest | crates/minemu-runtime/src/service.rs:373-375 | the prefill succeeds exactly when every write lies in RAM, and then each byte is what the last write covering it says |
| Emulation.ResetSucceedsExactly | crates/minemu-runtime/src/service.rs:247-268 | a reset succeeds exactly when no host write fails, media and readable host files hold whole sectors, the prefill lies in RAM and the engine takes the machine and its registers |
| Emulation.ResetValues | docs/platform/devices-v1.md:23-31 | the reset value of each controller, timer, block and UART register, queue and byte of RAM, as tabulated |
| Lifetime.LifeIsSound | crates/minemu-runtime/src/service.rs:247-292 | over any lifetime of machine actions, flushes and resets, whatever fails, levels replay, the timer is in phase, no request is overdue and every unit with a host file agrees with it |
| Lifetime.StartIsSound | crates/minemu-runtime/src/service.rs:208-223 | a freshly configured machine starts such a life |
| Console.Borders | crates/minemu/src/tui/widgets/console.rs:103-118 | the prefix table holds, for each position, the longest proper border |
| Console.SuffixPrefixOverlap | crates/minemu/src/tui/widgets/console.rs:103-133 | the result is the longest overlap of a suffix of the old bytes with a prefix of the new |
| Console.LongestOverlap | crates/minemu/src/tui/widgets/console.rs:103-133 | it is an overlap, and no longer one exists |
| Console.ConsoleStream.Append | crates/minemu/src/tui/widgets/console.rs:84-91 | the transcript becomes its newest bytes within capacity |
| Console.ConsoleStream.Observe | crates/minemu/src/tui/widgets/console.rs:33-44 | a poll appends what follows the overlap and remembers the history |
| Console.AppendsShortestExtension | crates/minemu/src/tui/widgets/console.rs:33-44 | the appended bytes are the shortest after which the old history ends in the new |
| Console.PollKeepsNewest | crates/minemu/src/tui/widgets/console.rs:33-44 | a poll leaves the newest 16384 bytes, on the first poll of history and echoed input, later of the transcript and what is new |
| Console.PollingKeepsUp | crates/minemu/src/tui/widgets/console.rs:33-44 | while the history has not wrapped, polls of a growing output keep the transcript equal to it |
| Console.TranscriptIsOutput | crates/minemu/src/tui/widgets/console.rs:33-44 | so the transcript is the guest's output however the polls fall |
| Search.SearchMemory | crates/minemu-unicorn/src/backend.rs:416-468 | chunked search returns the lowest match in RAM, or none exactly when there is none, and rejects empty and oversized patterns |
| Search.FirstFrom | crates/minemu-unicorn/src/backend.rs:449-453 | the naive search finds an occurrence no later than any other |
| Backend.UnicornBackend.ResumeDeferred | crates/minemu-unicorn/src/backend.rs:660-672 | a deferred entry waits at a reached deadline and otherwise costs one tick |
| Backend.UnicornBackend.FinishTrap | crates/minemu-unicorn/src/backend.rs:637-658 | a trap costs two ticks, the second deferred when only the first fits before the deadline |
| Backend.UnicornBackend.RunWithTickDeadline | crates/minemu-unicorn/src/backend.rs:154-231 | time, deferred entry and stop reason are the specified ones for every oracle |
| Backend.EngineIsAlwaysBounded | crates/minemu-unicorn/src/backend.rs:172-190 | the engine is started with a nonzero count within budget and deadline |
| Backend.DeadlineIsNeverPassed | crates/minemu-unicorn/src/backend.rs:154-231 | whatever the engine does, time neither goes back nor passes the deadline |
| Backend.RunCost | crates/minemu-unicorn/src/backend.rs:154-231 | a run costs at most its budget plus one tick, the extra one only for an exception entry |
| Backend.PlainCharge | crates/minemu-unicorn/src/backend.rs:185-229 | completed instructions, a breakpoint and a CP15 boundary cost one tick each instruction, an interrupt behind them one more, and the stop is named |
| Backend.FaultCharge | crates/minemu-unicorn/src/backend.rs:190-215 | a faulting last instruction costs only its abort, a prefetch abort for a fetch and a data abort otherwise |
| Backend.TrapCharge | crates/minemu-unicorn/src/backend.rs:637-658 | a trap costs one tick for its instruction and one for its entry, which waits when the deadline falls between them |
| Backend.EntryCharge | crates/minemu-unicorn/src/backend.rs:161-171 | a waiting entry or an interrupt before the start costs one tick, and nothing happens at a reached deadline |
| Backend.EveryRunAdvances | crates/minemu-unicorn/src/backend.rs:154-231 | a run before the deadline that executes anything takes time, unless it stops at a breakpoint |
| Backend.SplitTrapIsWhole | crates/minemu-unicorn/src/backend.rs:637-672 | a deadline between a trap's two ticks changes neither the final tick nor the stop reached by resuming |
| Sorting.SortSorts | crates/minemu-runtime/src/service.rs:420 | sorting by a total preorder gives a sorted permutation |
| Sorting.SortIsStable | crates/minemu-runtime/src/service.rs:420 | equal elements keep their order |
| Sorting.SortedIsUnique | crates/minemu-image/src/lib.rs:92-122 | distinct keys have one sorted order |
| Scheduler.ScheduleIsStable | crates/minemu-runtime/src/service.rs:420 | the schedule holds the same inputs in tick order, in submission order within a tick |
| Scheduler.Service.ProcessCommand | crates/minemu-runtime/src/service.rs:635-731 | each command has the specified effect on lifecycle, limit, breakpoint and machine |
| Scheduler.Service.ProcessCommands | crates/minemu-runtime/src/service.rs:614-633 | queued commands take effect in order until one ends the service |
| Scheduler.Service.DeliverDue | crates/minemu-runtime/src/service.rs:460-472 | every input due now is delivered in schedule order, and no other |
| Scheduler.Service.RunBatch | crates/minemu-runtime/src/service.rs:458-572 | one turn delivers, pauses at the deadline, or runs one clipped batch and accounts for it |
| Scheduler.Service.HandleStop | crates/minemu-runtime/src/service.rs:519-572 | errors end the service, breakpoints and a used-up limit pause it |
| Scheduler.Service.RunLoop | crates/minemu-runtime/src/service.rs:435-612 | the loop over any turns reaches the specified state and log |
| Scheduler.BatchBounds | crates/minemu-runtime/src/service.rs:487-512 | a batch has a nonzero budget within batch size and limit, and ends by the deadline and the next input |
| ServiceLaws.BudgetIsExact | crates/minemu-runtime/src/service.rs:487-506 | a number is within the budget exactly when it is within batch size and limit and passes neither deadline nor next input |
| ServiceLaws.CommandEffects | crates/minemu-runtime/src/service.rs:635-731 | what each command does to lifecycle, limit, breakpoint and clock, and when it is ignored |
| ServiceLaws.NewestWishDecides | crates/minemu-runtime/src/service.rs:614-633 | of the commands queued together the newest pause or resume decides whether the service runs |
| ServiceLaws.StopEffects | crates/minemu-runtime/src/service.rs:519-572 | an engine error ends the service, a breakpoint pauses it at its address without a limit, any other stop exactly when the limit is used up |
| ServiceLaws.BreakpointPauses | crates/minemu-runtime/src/service.rs:533-551 | a turn that stops at a breakpoint leaves the service paused there |
| ServiceLaws.DeadlinePauses | crates/minemu-runtime/src/service.rs:473-486 | a turn at the deadline pauses the service and runs nothing |
| ServiceLaws.PausedIsIdle | crates/minemu-runtime/src/service.rs:593-611 | a paused service stays exactly as it is until it is told otherwise |
| ServiceLaws.StartsAsConfigured | crates/minemu-runtime/src/service.rs:413-452 | a service starts at tick 0 without a limit, and if configured so waits paused |
| ServiceLaws.BoundedResumeEnds | crates/minemu-runtime/src/service.rs:487-572 | a resume bounded by n, whose engine executes something in every turn and meets no error or breakpoint, is paused by its limit within n turns, n or n + 1 ticks later |
| Scheduler.StepKeepsInv | crates/minemu-runtime/src/service.rs:453-612 | every turn keeps the scheduling invariant |
| Scheduler.SchedulingIsExact | crates/minemu-runtime/src/service.rs:435-612 | over every run: no deadline or undelivered input is passed, each input is delivered once at exactly its tick and in order, deadline pauses happen at the deadline, no batch is empty, and a bounded resume that ends by its limit used n or n + 1 ticks |
| ServiceRuns.DeliveriesAreReceived | crates/minemu-runtime/src/service.rs:460-472 | the machine receives what the log says is delivered, byte for byte and in order |
| ServiceRuns.TurnBringsBytes | crates/minemu-runtime/src/service.rs:460-486 | in a turn each UART gets from the host exactly the bytes of the inputs due, in order, and then, unless the deadline is reached, those of the inbox |
| ServiceRuns.BatchInStep | crates/minemu-runtime/src/service.rs:485-572 | inbox, guest work and the flush of a stop are permitted deeds that keep the machine's clock with the backend's |
| ServiceRuns.TurnInStep | crates/minemu-runtime/src/service.rs:453-612 | after every turn, its resets included, the two clocks agree |
| ServiceRuns.ServiceRunIsSound | crates/minemu-runtime/src/service.rs:435-612 | every service run drives its machine through permitted deeds, keeps the clocks together and the machine sound |
| ServiceRuns.EveryServiceRunIsSound | crates/minemu-runtime/src/service.rs:435-612 | from a freshly configured machine on, and the machine never runs past the execution deadline |
| Persistence.StoppedMeansPersisted | crates/minemu-runtime/src/service.rs:473-611 | over every service run in which host writes succeed, whenever the service does not run no unit is dirty and each host file equals its medium |
| Persistence.StartIsClean | crates/minemu-runtime/src/service.rs:208-223 | every service starts in such a state |
| Records.WriteWord | crates/minemu-platform/src/image.rs:374-376 | a word written in place changes that word only |
| Records.EncodeHeader | crates/minemu-platform/src/image.rs:69-113 | encoding succeeds exactly on valid headers and lays out their words |
| Records.EncodeKernelSegment | crates/minemu-platform/src/image.rs:148-186 | likewise for kernel segments |
| Records.EncodeModuleRecord | crates/minemu-platform/src/image.rs:214-223 | every module record is laid out as its words |
| Records.EncodeModuleSegment | crates/minemu-platform/src/image.rs:256-277 | encoding succeeds exactly on valid module segments and lays out their words |
| Records.EncodeBootInfo | crates/minemu-platform/src/image.rs:317-335 | encoding succeeds exactly on valid boot info and lays out its words |
| Records.HeaderCodec | crates/minemu-platform/src/image.rs:40-113 | bytes decode to a header exactly when it is valid and they start with its encoding |
| Records.KernelSegmentCodec | crates/minemu-platform/src/image.rs:128-186 | bytes decode to a kernel segment exactly when it is valid and they are its encoding |
| Records.ModuleRecordCodec | crates/minemu-platform/src/image.rs:199-223 | bytes decode to a module record exactly when they are its encoding |
| Records.ModuleSegmentCodec | crates/minemu-platform/src/image.rs:237-277 | bytes decode to a module segment exactly when it is valid and they are its encoding |
| Records.BootInfoCodec | crates/minemu-platform/src/image.rs:290-335 | bytes decode to boot info exactly when they start with its encoding and it names the system ROM |
| ImageFormat.ImageMap.Occupy | crates/minemu-image/src/format.rs:231-240 | a range is claimed exactly when it fits the image and overlaps no claimed one |
| ImageFormat.ParseKernelTable | crates/minemu-image/src/format.rs:60-72 | accepts exactly the tables whose records decode and whose payloads can be claimed |
| ImageFormat.ParseModule | crates/minemu-image/src/format.rs:78-114 | accepts exactly the modules with a new UTF-8 name, decodable segments, claimable ranges and valid records |
| ImageFormat.ParseModuleTable | crates/minemu-image/src/format.rs:75-115 | accepts exactly the module tables |
| ImageFormat.Parse | crates/minemu-image/src/format.rs:41-122 | a result is the image the bytes are; no result means that they are no image |
| ImageFormat.ImageIsUnique | crates/minemu-image/src/format.rs:41-122 | no byte string decodes to two images |
| ImageSoundness.PartIsClaimed | crates/minemu-image/src/format.rs:46-108 | the extent of every part of an image is among the claimed ranges |
| ImageSoundness.PartsAreClaimedApart | crates/minemu-image/src/format.rs:46-108 | different parts are claimed separately |
| ImageSoundness.SpanHasPart | crates/minemu-image/src/format.rs:46-108 | every claimed range is some part's extent |
| ImageSoundness.OverlapExactly | crates/minemu-image/src/format.rs:272-274 | ranges overlap exactly when they share a byte or one is empty and strictly inside the other |
| ImageSoundness.AcceptedLayouts | crates/minemu-image/src/format.rs:231-274 | the claims succeed exactly when every part fits, no byte has two owners and no empty part starts strictly inside another |
| ImageSoundness.OnlyModuleTableIsEmpty | crates/minemu-image/src/format.rs:73-109 | of the parts of a decoded image only the module table can be empty, and is so exactly for a module count of zero |
| ImageSoundness.ImagesExactly | docs/platform/system-image-v1.md:143-149 | the parser accepts exactly what decodes with a documented layout, except that an empty module table must not start strictly inside another part |
| Witnesses.DocumentedImageMayBeRejected | docs/platform/system-image-v1.md:143-149 | an image exists that decodes with a documented layout and is rejected |
| ImageSoundness.EveryByteHasOneOwner | crates/minemu-image/src/format.rs:41-122 | in an accepted image header, tables, names and payloads lie inside it and no byte is in two of them |
| ImageSoundness.EveryAddressHasOneSegment | crates/minemu-image/src/validation.rs:49-68 | in an accepted image no physical or virtual address is in two kernel segments, and no loaded one in the boot workspace |
| AddressRules.KernelRecordsExactly | docs/platform/system-image-v1.md:51-87 | kernel records are accepted exactly when executable initialized bytes hold both entry instructions and no address is in the boot workspace, past 2^32 or in two segments |
| AddressRules.ModuleRecordsExactly | docs/platform/system-image-v1.md:111-139 | module records are accepted exactly when executable initialized bytes hold the aligned entry and no address is in the direct map, past 2^32 or in two segments |
| AddressRules.KernelAddressesInImage | docs/platform/system-image-v1.md:73-84 | in an accepted image no address of a kernel segment is outside RAM, in the boot workspace or in another segment |
| AddressRules.ModuleAddressesInImage | docs/platform/system-image-v1.md:137-139 | in an accepted image no address of a module segment is in the direct map or in another segment of the module |
| Utf8.Utf8Exactly | crates/minemu-image/src/format.rs:88-90 | a name passes the check exactly when it is the UTF-8 encoding of some sequence of scalar values |
| WireFormat.HeaderExactly | docs/platform/system-image-v1.md:24-53 | bytes decode to a header exactly when each of its words is at its offset and has a documented value |
| WireFormat.KernelSegmentExactly | docs/platform/system-image-v1.md:57-81 | likewise for a kernel segment, with its sizes, flags and address ranges |
| WireFormat.ModuleRecordExactly | docs/platform/system-image-v1.md:91-101 | likewise for a module record |
| WireFormat.ModuleSegmentExactly | docs/platform/system-image-v1.md:121-135 | likewise for a module segment |
| WireFormat.BootInfoExactly | docs/platform/boot-v1.md:102-118 | likewise for the boot-info record |
| WireFormat.DecodesExactly | docs/platform/system-image-v1.md:24-139 | bytes decode to an image exactly when the format, in numbers, describes it |
| WireFormat.AcceptedExactly | docs/platform/system-image-v1.md:24-158 | the parser accepts exactly what the format describes, lays out with one owner per byte, and whose module table, if empty, splits no other part |
| ImagePack.ZoneOffset | crates/minemu-image/src/format.rs:146-176 | the parts of a packed image start where the layout arithmetic puts them |
| ImagePack.KernelDataAt | crates/minemu-image/src/format.rs:162-167 | each kernel payload is at its assigned offset |
| ImagePack.SegmentDataAt | crates/minemu-image/src/format.rs:168-175 | each module payload is at its assigned offset |
| ImagePack.PaddingIsZero | docs/platform/system-image-v1.md:156-158 | the padding before the payloads is zero |
| ImageRoundTrip.SpansArePacked | crates/minemu-image/src/format.rs:146-176 | the ranges of a packed image lie inside it and do not overlap |
| ImageRoundTrip.PackedInputsAreAnImage | crates/minemu-image/src/format.rs:141-216 | packing good inputs gives an image with the same records, names and entries, and assigned offsets |
| ImageRoundTrip.PayloadsAreFound | crates/minemu-image/src/format.rs:162-175 | every nonempty payload is in the packed image at the offset its record carries |
| ImageRoundTrip.OnlyGoodInputsPack | crates/minemu-image/src/format.rs:176-215 | if packed bytes are an image at all, the inputs were good and it is the expected image |
| ImageBuild.PlaceSegmentTables | crates/minemu-image/src/format.rs:148-155 | the cursor loop gives each module's table the specified offset, unless one exceeds 32 bits |
| ImageBuild.PlaceNames | crates/minemu-image/src/format.rs:156-161 | likewise for the names |
| ImageBuild.PlaceKernelData | crates/minemu-image/src/format.rs:162-167 | likewise for kernel payloads, leaving records of empty payloads as they are |
| ImageBuild.PlaceModules | crates/minemu-image/src/format.rs:168-175 | likewise for module payloads |
| ImageBuild.FillAll | crates/minemu-image/src/format.rs:189-214 | a completed fill leaves the buffer equal to the concatenation of all parts, and valid records always complete |
| ImageBuild.BuildImage | crates/minemu-image/src/format.rs:141-216 | whatever it returns is the expected image of good inputs; good inputs whose sizes match their data always pack |
| Boot.MakePlan | crates/minemu-image/src/boot.rs:28-54 | a plan exists exactly when every segment's slice lies in the image, and then mirrors the records and the header |
| Boot.ApplyCopy | crates/minemu-image/src/boot.rs:66-75 | a copy and its page-wise zeroing write the bytes and then zeros |
| Boot.Apply | crates/minemu-image/src/boot.rs:60-78 | a fitting plan applies without error and leaves RAM as all its writes in order |
| Boot.WriteShows | crates/minemu-image/src/boot.rs:60-78 | of any number of disjoint writes, each one shows in the result |
| Boot.NothingElseChanges | crates/minemu-image/src/boot.rs:60-78 | and a byte that none of them covers keeps its value |
| Boot.BootIsFaithful | crates/minemu-image/src/boot.rs:28-78 | booting an accepted image loads every segment, zeroes its BSS, leaves boot info whose words are the ROM base and the header's image size, module table and module count, and changes no other byte of any RAM |
| Boot.PlannableExactly | crates/minemu-image/src/boot.rs:28-37 | an accepted image can be planned exactly when the data offsets of its empty payloads lie inside it |
| Boot.PackedIsPlannable | crates/minemu-image/src/boot.rs:28-37 | packed images with in-image offsets for empty payloads can be planned |
| Witnesses.ParsedImageMayNotBePlannable | crates/minemu-image/src/boot.rs:28-37 | an image exists that parses and cannot be planned |
| Builder.NameLeIsTotal | crates/minemu-image/src/lib.rs:122 | byte order on names is total and antisymmetric |
| Builder.NameLeIsTransitive | crates/minemu-image/src/lib.rs:122 | and transitive |
| Builder.ConvertKernel | crates/minemu-image/src/lib.rs:69-91 | the conversion loop gives every kernel record, or fails exactly when one segment does |
| Builder.ConvertSegments | crates/minemu-image/src/lib.rs:101-113 | likewise for a module's segments |
| Builder.ConvertModules | crates/minemu-image/src/lib.rs:95-121 | likewise for modules, each with its segments sorted and validated |
| Builder.AdjacentDuplicatesSuffice | crates/minemu-image/src/lib.rs:122-128 | in a list sorted by name, neighbours repeat a name exactly when any two modules do |
| Builder.Package | crates/minemu-image/src/lib.rs:67-135 | the builder returns the expected image of the prepared inputs when they are good, and otherwise an error |
| Builder.PackingIsCanonical | crates/minemu-image/src/lib.rs:67-135 | permuting modules, and segments within any program, changes neither the image nor whether there is one |
| Packaging.KernelSegmentConverts | crates/minemu-image/src/lib.rs:69-91 | a kernel segment converts exactly when its load range lies in RAM, its memory holds its bytes and its flags are three bits |
| Packaging.ModuleSegmentConverts | crates/minemu-image/src/lib.rs:101-113 | likewise for a module segment, wherever it lies |
| Packaging.PackagesExactly | crates/minemu-image/src/lib.rs:67-135 | the builder packages exactly the programs whose segments convert and which, packed, are an image of the documented format |
| Packaging.NameOrderExactly | docs/platform/system-image-v1.md:162-166 | names are ordered by their first difference, a prefix first |
| Packaging.PackagedIsSorted | docs/platform/system-image-v1.md:162-166 | a packaged image has its modules in name order and all segments in address order |
| Packaging.CanonicalLayout | crates/minemu-image/src/format.rs:141-161 | header, kernel records, module records, segment records by module and names follow each other without gaps, in numbers |
| Packaging.CanonicalPayloads | crates/minemu-image/src/format.rs:162-176 | kernel and module payloads follow from the next multiple of four on, in order, and end the image |
| Witnesses.SomeProgramPackages | crates/minemu-image/src/lib.rs:67-135 | a one-word program packages, so the statements about packaged images and accepted images are not vacuous |
| Witnesses.SomeModulePackages | crates/minemu-image/src/tests.rs:10-20 | a program with a module linked at 0x0040_0000 packages |
| Delivery.KernelIsDelivered | crates/minemu-image/src/boot.rs:57-78 | after booting a packaged image, each kernel ELF segment's bytes and then zeros are in RAM at its load address |
| Delivery.KernelIsRecorded | crates/minemu-image/src/lib.rs:69-92 | a packaged image has the kernel entry and a record per kernel segment with its addresses, sizes and flags |
| Delivery.PackagedIsPlannable | crates/minemu-image/src/boot.rs:28-54 | a packaged image can always be planned |
| Delivery.ModulesAreDelivered | crates/minemu-image/src/lib.rs:95-135 | a packaged image carries every module under its name and entry, each segment's bytes at its recorded offset |

## Left out

- ELF parsing (`crates/minemu-image/src/elf.rs`): the builder starts from parsed segments, whose bounds it does not assume.
- The CPU: the engine, its registers, hooks and TLB are an oracle, and the scheduler sees the machine only through its tick count and the oracle's answer whether an interrupt can be taken, which is not tied to the bitmap. Nothing is said about the tick that a register access inside a batch observes.
- Backend.UnicornBackend.RunWithTickDeadline: the resume address of a deferred entry is not kept.
- Integer width of virtual time and of host sizes: ticks are unbounded naturals rather than `u64`, and `usize` overflow checks have no counterpart; 32-bit widths are modelled.
- Block.BlockDevice.Flush: the host write succeeds or fails as a whole.
- Mmu.Walker.Translate: the packed fault-status word is modelled by its fields.
- Bus.MmioBus.Access: the value that a register read returns is not modelled.
- Bus.Machine.AdvanceTicks: the trace events retired after the loop are not modelled.
- Backend.UnicornBackend.ResumeDeferred: the resume address of the deferred entry is not kept.
- Backend.UnicornBackend.FinishTrap: the trap address stored with a deferred entry is not kept.
- Scheduler.Service.ProcessCommand: the flush made on pause and shutdown and the rebuilding of a reset are not in the state this method specifies; `ServiceRuns.CommandDeeds` says them.
- Scheduler.Service.RunBatch: the flush at the deadline and the drain of unscheduled host input are not in the state this method specifies; `ServiceRuns.BatchDeeds` says them.
- Scheduler.Service.HandleStop: the flush on a pausing or failing stop is not in the state this method specifies; `ServiceRuns.StopDeeds` says it.
- Scheduler.Service.RunLoop: what a turn does to the machine is not in the state this method specifies; `ServiceRuns.TurnDeeds` says it. Status publication is not modelled.
- ImageFormat.Parse: which error a rejected image reports; rejection is one outcome, and so it is in the packer, the builder and the validators.
- Boot.ApplyCopy: a write address past 2^32 ends the copy with a failure; no accepted image reaches it.
- Interrupts.InterruptController.ProcessSignals: PENDING and ENABLE are sets of the four sources rather than bit masks, and the channel never closes.
- Console.TranscriptIsOutput: nothing is claimed once the history has wrapped or input was echoed locally, where the overlap is ambiguous.
- Unscheduled host input (`UartInbox`): the bounded queue between the threads; what it holds reaches the machine as any bytes.
- Register reads, MMIO decoding, breakpoint and A32 condition decoding: finite tables.
- The random number generator, trace buffer, event ring, status publishing and logging: no property spans them.
- Threads, channels, mutexes, wall-clock periods, file I/O and path canonicalization: commands and host writes are inputs of the model.
- The rest of the terminal interface, the command line, manifests and headless assertions: user interface.
