# A verified model of a small macOS debugger

The debugger has two hard parts, and both are modelled here.

**The target's memory.** `MachVMMemory` reads the target piece by piece, a page at most at a time. It writes it region
by region: it looks up the region of an address, makes the wanted part of it read-write, writes that piece by piece, and
leaves the old protection to be put back by the next lookup or by the destructor of `MachVMRegion`. The target is a
class with a map of pages (protection, maximum protection, map entry), a map of bytes and a log of the read and write
requests it was sent. A VM region is a maximal run of equal page records, so a protection change rounds outward to whole
pages, splits regions, and joins them again when undone. What is proved: whatever page size the debugger goes by, a
write that ends leaves every protection as it found it, on every path out, and stores a prefix of its buffer; with the
target's page size it always ends, stores exactly the longest prefix the kernel allows, in one-page pieces that tile it,
and a read returns exactly the longest readable prefix; without a page size it is known before the call whether a write
ends; a write and a read back make a round trip if and only if every byte can be written and read. `GetMemoryRegionInfo`
and the dirty-page list are shown to describe the address space without gap or overlap.

**The attach, stop, resume and exception protocol.** Three parties act: the controlling thread, the exception thread,
and the target in the kernel, which raises exceptions, starts and ends threads, forks, execs and is killed.
`ProtocolSpec` is the transition system. `ProtocolInvariants` is an invariant of every step, and `ProtocolTheorems`
draws from it what holds in every reachable state. `ProtocolRuns` has whole runs that end badly. `MachProcesses` holds
the imperative classes `MachTask` and `MachProcess`, whose methods are proved to do exactly what the system's steps say;
the exception thread's loop, SingleStep's wait and Detach are proved with anything the other parties may do in between,
and `Interleaving` shows that what they do is then still a run of the system. `ExceptionPorts` is the saving, rerouting
and restoring of the target's table of exception ports.

Files, in reading order: `MachTypes`, `Paging`, `PageMap`, `TargetVM`, `MachVMRegion`, `Pieces`, `MachVMMemory`,
`MemoryTheorems`, `MemoryMap`; `MachException`, `ProtocolSpec`, `ReplyEffects`, `ProtocolInvariants`,
`ProtocolTheorems`, `ProtocolRuns`, `Interleaving`, `MachProcess`; `ExceptionPorts`.

## What is assumed

- The kernel's calls do what the contracts of `TargetVM.Target`, `MachProcesses.KernelCalls` and
  `ExceptionPorts.ExceptionTable` say. In particular a plain protection change is granted exactly within the maximum
  protection of every page touched, a change with VM_PROT_COPY may also raise that maximum on a copyable page, and a
  page's protection is always within its maximum. It follows that an original protection can always be put back. A read
  of 2^32 bytes or more fails, for its count is a 32-bit value.
- A protection is three bits, so masking with VM_PROT_ALL changes nothing.
- The target's page size lies strictly between 0 and 2^32, and no region ends at 2^64. The global `vm_page_size` is that
  page size. What the debugger takes for the page size, `MachVMMemory.Unit`, may be anything.
- What is one step: `ExceptionMessageReceived`; `Resume`; the start of `SingleStep`, up to its wait loop, and its end;
  `Stop`; the two halves of `Detach`, of which the first restores the exception ports and ends the exception thread
  between two messages, and the second gives up the port, PT_DETACH and the resumption; and in the exception thread's
  loop, taking a message off the port, and then decoding it together with following its task port. The source has no
  lock around `m_exception_messages`, and statement by statement the invariants do not hold: `UnlockedHoldBreaksBalance`
  is a run in which SingleStep returns after mac_ptrace/lldb/MachProcess.cpp:109 and Resume replies before :111.
- The exception thread is cancelled only between messages. A print between receiving a message and holding it may be a
  cancellation point (mac_ptrace/lldb/MachTask.cpp:243); cancelled there, the thread would lose a message that is then
  neither held nor queued. `DetachFreesTarget` depends on this.
- The debugger is built with assertions: `Message::Reply` ends it when the process of a foreign soft signal is not found
  (mac_ptrace/lldb/MachException.cpp:150). Without assertions the update of the thread fails, which is printed, and the
  reply is sent.
- A run is one session, from the start of the exception thread with nothing raised, held or suspended and no step bit
  set, on.
- kill and ptrace(PT_DETACH) succeed exactly when some live task has the process id. Other calls to change threads,
  ports and signals of a live target succeed; in a run no reply and no update of a thread fails; and every message
  received is a recognised exception.
- A thread starts with a step bit only if its creator has one; the first thread of a forked or replaced program starts
  without.

## What the source does not do

Each of these was found by stating what one would expect; the exact condition is proved.

- On a processor that flushes, the status of `mach_vm_write` is overwritten by that of the cache flush, so a piece whose
  flush is refused is stored but not counted, and `Write` can store it twice (`RefusedFlushStillStores`; exactly:
  `Write`, `WriteEffect`, `StoresWhatItCounts`).
- Without a page size, a region's part of a write whose length 32 bits do not hold is repeated for ever (`WriteForEver`;
  exactly: `StuckExactly` and `Write`).
- On a processor that flushes, `WriteRegion` counts bytes of pages that cannot be written, and does not store them
  (exactly: `TriedStep`, `WriteRegion`). `Write` only calls it on pages made read-write.
- Two protection changes after one lookup lose the first unless the second covers it (`SecondChangeIsUndone`), and a
  repeated request for the same protection answers true even for pages that do not have it (`RepeatedRequestHolds`).
  `Write` makes one change for each lookup and so does neither.
- The dirty-page list counts pages in a 32-bit int (`PagesCovered`).
- An attach that fails after the exception ports were rerouted leaves them so, and a detach that cannot put some handler
  back neither goes on to the next nor reports it (exactly: `Session`, `ShutDownExceptionThread`).
- A bundle that begins with a message of a task that died in an exec, and goes on with the new task's trap, leaves the
  new task running while its messages are held (`ExecInBundleBreaksBalance`; exactly: `SuspendBalance`), and `Resume`
  ends the debugger when it replies to a soft signal of the dead task (`ResumeEffect`, `ResumeSuppressesSignals`).
- A task killed during a single step ends the debugger when the message that ends the step is held: clearing the step
  bits fails and the exception thread throws (`KillInStepEndsDebugger`; exactly: `DebuggerDies`).
- `Detach` does not reply to held or queued exceptions, so their threads stay blocked. When the process is gone, or the
  exception port cannot be given up, it throws before it resumes, and so leaves a child that is tracked in its place
  suspended (`DetachLeavesChildSuspended`; exactly: `DetachFreesTarget`).
- Clearing the step bit clears the upper 32 bits of the debug register as well (`StepRestoresRegister`).

## Model

| member | source | states |
|---|---|---|
| PageMap.RegionOpens | mac_ptrace/lldb/MachVMMemory.cpp:212-218 | a request to make part of a region read-write is granted, or needless, exactly when the page of its first byte can be opened, whatever changes were made and undone before, and then every byte of it can be |
| PageMap.PageOpenableExactly | mac_ptrace/lldb/MachVMMemory.cpp:218 | a page can be opened exactly when it can be read and written and not executed, or may be within its limit, or may be copied |
| PageMap.ChangeIsRecorded | mac_ptrace/lldb/MachVMRegion.cpp:41-84 | a change inside a uniform region leaves the pages in its rounded range with the new protection and the others with the old; undoing it is always allowed and gives every protection back, copied or not |
| PageMap.UndoIsAllowed | mac_ptrace/lldb/MachVMRegion.cpp:69-84 | the kernel never refuses to undo a recorded change, and the region is uniform again after it |
| PageMap.SamePart | mac_ptrace/lldb/MachVMRegion.cpp:86-106 | protection changes below an address change neither the part of its region from there on nor whether it can be opened |
| PageMap.PartIsRegion | mac_ptrace/lldb/MachVMMemory.cpp:213-216 | the part of a range in one region is of pages all alike, and ends with the range or where the pages are no longer like them |
| MachVMRegions.MachVMRegion.constructor | mac_ptrace/lldb/MachVMRegion.cpp:17-21 | a new object owes the target nothing |
| MachVMRegions.MachVMRegion.ContainsIsPageMembership | mac_ptrace/lldb/MachVMRegion.h:26-35 | an address is contained exactly when its page is one of the region's; the end never wraps, and the bytes remaining are positive and reach exactly to the region's end |
| MachVMRegions.MachVMRegion.RestoreProtections | mac_ptrace/lldb/MachVMRegion.cpp:69-84 | the target's pages become the baseline; it fails exactly when a change is outstanding and the kernel refuses; under the invariant it never fails and keeps the invariant |
| MachVMRegions.MachVMRegion.Clear | mac_ptrace/lldb/MachVMRegion.cpp:28-39 | undoes the change, leaves the pages at the baseline and forgets the region |
| MachVMRegions.MachVMRegion.Destroy | mac_ptrace/lldb/MachVMRegion.cpp:23-26 | the destructor leaves the pages at the baseline |
| MachVMRegions.MachVMRegion.GetRegionForAddress | mac_ptrace/lldb/MachVMRegion.cpp:86-106 | undoes the previous change; true exactly when the address is mapped, and then the object holds its region and contains the address; false with a success status when a later region is described |
| MachVMRegions.MachVMRegion.ClampedPages | mac_ptrace/lldb/MachVMRegion.cpp:42-47 | the clamped request is not empty, is the whole request or reaches exactly to the region's end, and its pages, rounded outward, lie inside the region |
| MachVMRegions.MachVMRegion.ProtectOrCopy | mac_ptrace/lldb/MachVMRegion.cpp:52-56 | succeeds exactly when the kernel grants the change plainly or by copying, and changes nothing otherwise |
| MachVMRegions.MachVMRegion.SetProtections | mac_ptrace/lldb/MachVMRegion.cpp:41-67 | exact condition for success, exact new record and pages, nothing changed on failure; the first change after a lookup keeps the invariant, and the protections that clearing will restore |
| MachVMRegions.SecondChangeIsUndone | mac_ptrace/lldb/MachVMRegion.cpp:57-61 | after two changes in one lookup every protection comes back if and only if the second covers the first |
| MachVMRegions.RepeatedRequestHolds | mac_ptrace/lldb/MachVMRegion.cpp:48-50 | a repeated request that is answered without a kernel call is true of its pages if and only if the first covered them |
| Paging.PageOfIsQuotient | mac_ptrace/lldb/MachVMMemory.cpp:56-57 | the model's counted page number and bytes left in a page are the source's quotient and remainder |
| Paging.PageUpIsQuotient | mac_ptrace/lldb/MachVMRegion.cpp:52 | the model's rounded end of a protection change is the quotient rounded up |
| Pieces.TilesCover | mac_ptrace/lldb/MachVMMemory.cpp:53-61 | the pieces of a range are not empty, stay in one page each, begin at page starts after the first, and follow one another from its start to its end |
| Pieces.PieceIsRemainder | mac_ptrace/lldb/MachVMMemory.cpp:53-61 | a piece in numbers: what is left of the page by the remainder, or all when the page size is zero |
| Pieces.TilesJoin | mac_ptrace/lldb/MachVMMemory.cpp:211-264 | cutting a range at a page boundary first, as the split by region does, gives the same pieces as cutting it by pages only |
| Pieces.PieceFits | mac_ptrace/lldb/MachVMMemory.cpp:247-248 | a piece survives the cast to 32 bits when pages are smaller than 2^32 bytes, or when the page size is unknown and the range is |
| Pieces.CutAtBoundary | mac_ptrace/lldb/MachVMMemory.cpp:213-219 | the piece at any point of a range cut at a region's end is the piece there in the whole range |
| Pieces.ProgressStep | mac_ptrace/lldb/MachVMMemory.cpp:211-234 | what one region's part of a write, whole, short or empty, does to the bytes stored, the bytes counted and the requests sent so far |
| MachVMMemories.MachVMMemory.constructor | mac_ptrace/lldb/MachVMMemory.cpp:26-28 | a new object goes by the page size of any task that tells it |
| MachVMMemories.MachVMMemory.PageSize | mac_ptrace/lldb/MachVMMemory.cpp:32-51 | the cached size, else the task's, else the host's, else zero; it is cached, and the answer never changes |
| MachVMMemories.MachVMMemory.MaxBytesLeftInPage | mac_ptrace/lldb/MachVMMemory.cpp:53-61 | the count, cut at the end of the page of the address for pages of the size the debugger goes by, and not cut when that is zero |
| MachVMMemories.MachVMMemory.Read | mac_ptrace/lldb/MachVMMemory.cpp:178-202 | with any page size: the bytes before the first piece that cannot be read are all readable and fill the buffer, which is untouched past them, and the requests sent are exactly the pieces up to and with that one; with the target's page size the result is the longest readable prefix |
| MachVMMemories.MachVMMemory.PieceIsReadable | mac_ptrace/lldb/MachVMMemory.cpp:185-190 | with the target's page size a piece can be read exactly when its first byte can |
| MachVMMemories.MachVMMemory.WrittenStep | mac_ptrace/lldb/MachVMMemory.cpp:246-263 | one more piece of a region's write on read-write pages, counted or refused by its flush, keeps what Written says of bytes counted, bytes stored, flushes and requests |
| MachVMMemories.MachVMMemory.ReportedStep | mac_ptrace/lldb/MachVMMemory.cpp:246-263 | one more piece on any pages: what counts is what was reported as written, and the sizes of the pieces are those of the cast |
| MachVMMemories.MachVMMemory.TriedStep | mac_ptrace/lldb/MachVMMemory.cpp:246-263 | one more piece on any pages: the rest of memory is untouched, without flushes the counted bytes are there, and for pages of the target's size a tried byte is there exactly when its page is writable |
| MachVMMemories.MachVMMemory.WritePiece | mac_ptrace/lldb/MachVMMemory.cpp:247-255 | one request, for what is left in the page cast to 32 bits: it stores all or nothing, and its status is the flush's on a processor that flushes |
| MachVMMemories.MachVMMemory.WriteRegion | mac_ptrace/lldb/MachVMMemory.cpp:239-266 | with any page size and on any pages: it counts up to the first piece that is not reported as written, with the target's page size up to the first such byte; what memory then holds, byte by byte; on read-write pages it stores the counted bytes and at most the piece after them, and its requests tile what it stored; without a page size it is repeated for ever exactly when 32 bits do not hold the length and the first piece is reported as written |
| MachVMMemories.MachVMMemory.StuckExactly | mac_ptrace/lldb/MachVMMemory.cpp:246-264 | with pages smaller than 2^32 bytes the loop always ends; without a page size it never ends exactly when the length needs more than 32 bits and the first piece, what the cast leaves, is reported as written |
| MachVMMemories.MachVMMemory.StopsAtFirst | mac_ptrace/lldb/MachVMMemory.cpp:257-263 | with the target's page size a region's write stops at the first byte that is not reported as written |
| MachVMMemories.MachVMMemory.OpenRegion | mac_ptrace/lldb/MachVMMemory.cpp:212-218 | the part of the range up to exactly the end of the region is made read-write, when the page of the address can be opened and only then; the protections to be restored are kept, and later pages are as they were |
| MachVMMemories.MachVMMemory.WriteInOneRegion | mac_ptrace/lldb/MachVMMemory.cpp:212-233 | one pass of Write's loop: nothing happens unless the page can be opened; else the part up to exactly the end of the region is written as WriteRegion says, with the exact condition for repeating it for ever; the protections to be restored are kept, and later pages are as they were |
| MachVMMemories.MachVMMemory.GoingStep | mac_ptrace/lldb/MachVMMemory.cpp:211-234 | what one pass, whole, short or empty, does to the bytes counted and stored and to the requests, and with the target's page size to the repeated attempts |
| MachVMMemories.MachVMMemory.SticksStep | mac_ptrace/lldb/MachVMMemory.cpp:211-234 | a pass without a page size is stuck, and then so is the write; or takes its whole part, and then the rest tells whether the write is; or counts nothing, and then the write ends |
| MachVMMemories.MachVMMemory.Write | mac_ptrace/lldb/MachVMMemory.cpp:204-237 | with any page size: unless it is stuck, every protection is as before on every path, the stored bytes are a prefix of the buffer in pages that can be opened, the counted ones were flushed, it stops only at a refused flush or at a page that cannot be opened, and every request is for part of a page inside the stored bytes and read-write then; without a page size it is stuck if and only if a region it comes to has a part whose length 32 bits do not hold, said of the pages before the call; with the target's page size it never is, the result is the longest prefix whose pages can be opened and flushed, and memory and requests are exactly those of that prefix, plus at most one piece whose flush was refused, tried at most twice |
| MemoryTheorems.WriteEffect | mac_ptrace/lldb/MachVMMemory.cpp:204-266 | the counted bytes are in memory, no byte but the stored ones changed, and the uncounted ones are unchanged if and only if the bytes stored past the counted ones were there already |
| MemoryTheorems.WriteRequestsArePageWrites | mac_ptrace/lldb/MachVMMemory.cpp:246-264 | with the target's page size, every write request of a Write is not empty and lies in one page, inside the range, that can be read and written and not executed at that moment |
| MemoryTheorems.StoresWhatItCounts | mac_ptrace/lldb/MachVMMemory.cpp:249-263 | said before the call: a write stores exactly what it counts if and only if no byte it reaches, in a page that can be opened, has its flush refused |
| MemoryTheorems.WithoutFlushes | mac_ptrace/lldb/MachVMMemory.cpp:249-263 | on a processor that does not flush, a write stores exactly what it counts, with any page size |
| MemoryTheorems.WritesPlainMemory | mac_ptrace/lldb/MachVMMemory.cpp:204-266 | a range of plain read-write pages is written in full by a debugger without flushes that can learn the page size, and nothing else changes |
| MemoryTheorems.ReadsReadableMemory | mac_ptrace/lldb/MachVMMemory.cpp:178-202 | a range of pages that can all be read is read in full by a debugger that can learn the page size |
| MemoryTheorems.WriteThenRead | mac_ptrace/lldb/MachVMMemory.cpp:178-266 | with any page size whose pieces 32 bits can count, a write and a read of the same range both do the full count if and only if every byte can be opened, flushed and read, and what is read back is what was written |
| MemoryTheorems.RefusedFlushStillStores | mac_ptrace/lldb/MachVMMemory.cpp:249-263 | on a processor that flushes, a write can return zero and yet have stored a byte |
| MemoryTheorems.WriteForEver | mac_ptrace/lldb/MachVMMemory.cpp:246-264 | no page size can be had and 2^32 bytes lie in one read-write region: the write is stuck |
| MemoryMap.DirtyInExact | mac_ptrace/lldb/MachVMMemory.cpp:86-89 | the one-pass list is strictly increasing and holds exactly the starts of the dirty pages |
| MemoryMap.DirtyExactly | mac_ptrace/lldb/MachVMMemory.cpp:88 | a page is dirty when the kernel's word for it has bit 3 |
| MemoryMap.AnsweredAll | mac_ptrace/lldb/MachVMMemory.cpp:76-85 | every page is answered for exactly when the query of no 4096-page chunk fails |
| MemoryMap.AnsweredUpTo | mac_ptrace/lldb/MachVMMemory.cpp:76-85 | when not every page is answered for, the answers end at the first chunk of 4096 pages whose query fails |
| MemoryMap.ChunkExactly | mac_ptrace/lldb/MachVMMemory.cpp:63 | a chunk is 4096 pages |
| MemoryMap.PushDirty | mac_ptrace/lldb/MachVMMemory.cpp:86-89 | a chunk's words append the dirty pages of its span |
| MemoryMap.GetDirtyPages | mac_ptrace/lldb/MachVMMemory.cpp:65-92 | the chunked queries give the one-pass list of the pages before the first failed chunk, or of all of them; the outcome is undefined exactly when the page count is negative as a 32-bit int |
| MemoryMap.PagesCovered | mac_ptrace/lldb/MachVMMemory.cpp:68 | the page count is the region's exactly below 2^31 pages; else it is that count less a multiple of 2^32, as a signed 32-bit int |
| MemoryMap.GetDNBPermissions | mac_ptrace/lldb/MachVMRegion.cpp:108-116 | the permission bits of the protection the kernel reported, none without a region |
| MemoryMap.PermissionBits | mac_ptrace/lldb/MachVMRegion.cpp:108-116 | bit 0 to write, bit 1 to read, bit 2 to execute, and no other bit |
| MemoryMap.GetMemoryRegionInfo | mac_ptrace/lldb/MachVMMemory.cpp:94-123 | for any region and page count: reports the region of the address with its dirty pages, else the gap to the next region, else all that is left, and leaves the protections alone |
| MemoryMap.DirtyInsideRegion | mac_ptrace/lldb/MachVMMemory.cpp:101 | every dirty page reported lies inside the reported range |
| MemoryMap.RegionFromInside | mac_ptrace/lldb/MachVMRegion.cpp:86-106 | up to the end of the region a lookup finds, every page's lookup finds that region |
| MemoryMap.RangeIsRegion | mac_ptrace/lldb/MachVMMemory.cpp:97-99 | what is reported for a mapped address is every page like its own around it and no other |
| MemoryMap.RangeIsGap | mac_ptrace/lldb/MachVMMemory.cpp:103-121 | what is reported for an unmapped address is the rest of its gap, up to the next mapped byte or the end of the address space, without permissions |
| MemoryMap.StepToBoundary | mac_ptrace/lldb/MachVMMemory.cpp:94-123 | asked where a range may begin, a query's range begins there, is not empty, does not pass the invalid address, and ends where one may begin |
| MemoryMap.StepDescribes | mac_ptrace/lldb/MachVMMemory.cpp:94-123 | such a range is a whole region with its permissions, or a gap with none, and every byte in it agrees |
| MemoryMap.WalkTiles | mac_ptrace/lldb/MachVMMemory.cpp:94-123 | asking from a place where a range may begin, and then at the end of each answer, meets ranges that follow one another up to the invalid address, each a whole region or a gap |
| MemoryMap.WalkFromZero | mac_ptrace/lldb/MachVMMemory.cpp:94-123 | asking at 0 and then at the end of each answer: every address below the invalid one lies in exactly one range, and each range is a whole region or a gap |
| ExceptionPorts.ExceptionTable.GetExceptionPorts | mac_ptrace/lldb/MachException.cpp:190-197 | the kernel's answer: entries that cover the mask, no type twice, with the table's handlers |
| ExceptionPorts.PortInfo.Save | mac_ptrace/lldb/MachException.cpp:182-203 | saves the whole mask, or the older one on a system that does not know all of it; on failure mask and count are empty |
| ExceptionPorts.PortInfo.Restore | mac_ptrace/lldb/MachException.cpp:205-216 | the types of the entries before the first that cannot be set get their handlers back, the others keep theirs, and all entries are forgotten; it succeeds exactly when every entry can be set |
| ExceptionPorts.AnyOfExactly | mac_ptrace/lldb/MachTask.cpp:27-29 | a type is ignored exactly when some mask of the list has it |
| ExceptionPorts.TaskExceptionPorts.UsableMaskIs | mac_ptrace/lldb/MachException.cpp:187-201 | all exceptions where the system knows them, else the older ones where it knows those, else none |
| ExceptionPorts.TaskExceptionPorts.StartExceptionThread | mac_ptrace/lldb/MachTask.cpp:7-39 | exactly the usable types that are in no ignored mask are given to the new port, with default behaviour, exception codes and no thread state; the whole mask stays saved, and a failed save changes nothing |
| ExceptionPorts.TaskExceptionPorts.ShutDownExceptionThread | mac_ptrace/lldb/MachTask.cpp:40-54 | the handlers that can be set are back, the thread has ended and the port is forgotten; the status is that of giving up the port, whatever became of the handlers |
| ExceptionPorts.TaskExceptionPorts.Attach | mac_ptrace/lldb/MachProcess.cpp:16-30 | it throws unless the process exists, the table can be saved, the thread starts and the process can be traced; once the table is saved the types are rerouted even if it throws |
| ExceptionPorts.AllReturned | mac_ptrace/lldb/MachException.cpp:208-213 | every type of the mask gets its handler back exactly when every saved port can be set, and a type whose port cannot be set never does |
| ExceptionPorts.Session | mac_ptrace/lldb/MachTask.cpp:7-57 | for any table, ignored list and usable mask, a session leaves the table as it was if every saved port of the mask can still be set, and only if every type whose port cannot is ignored; given the order of the kernel's entries, exactly when the rerouted types from the first entry on that cannot be set had our handler before; a failed attach leaves the rerouting in place; ignored types are never rerouted |
| MachExceptions.AppendExceptionData | mac_ptrace/lldb/MachException.h:53-60 | the codes are appended in order |
| MachExceptions.CatchMachExceptionRaise | mac_ptrace/lldb/MachException.cpp:66-93 | takes an exception of the tracked task, or a SIGTRAP soft signal while that task is dead, and leaves the port alone otherwise |
| MachExceptions.CatchExceptionRaise | mac_ptrace/lldb/MachException.cpp:111-132 | every recognised message is a success, accepted or not, decoded as the specification says |
| MachExceptions.DecodeExactly | mac_ptrace/lldb/MachException.cpp:66-93 | in numbers, which messages are accepted; what is decoded of them is everything the kernel sent, and of others nothing |
| MachExceptions.PortMovesExactlyOnExec | mac_ptrace/lldb/MachException.cpp:77-91 | in numbers: a decoded message moves the tracked port if and only if that port is dead and the message is a SIGTRAP soft signal of another, real task and thread; and then to that task |
| MachExceptions.SoftSignalExactly | mac_ptrace/lldb/MachException.h:45-49 | which data is a soft signal, in numbers, and that the signal is its second code as a 32-bit int |
| ReplyEffects.ReplyEachEffect | mac_ptrace/lldb/MachProcess.cpp:114-126 | replying to a bundle dies exactly when it holds a soft signal of a dead foreign task, and else replies to each message once, in order, freeing exactly their threads |
| ReplyEffects.PlainMessage | mac_ptrace/lldb/MachException.cpp:140-160 | a message that is not a soft signal is only replied to, and ends nothing |
| ReplyEffects.SoftMessage | mac_ptrace/lldb/MachException.cpp:140-160 | the thread of a soft signal is updated before the reply, with no signal in the tracked task and with the signal itself in another live one; it is fatal exactly in a dead one |
| ReplyEffects.ReplyOutcome | mac_ptrace/lldb/MachException.cpp:134-164 | for any signal and whether the update and the reply succeed or fail: what is done, in order; a failed update does not keep the reply back |
| ReplyEffects.SignalsSuppressed | mac_ptrace/lldb/MachException.cpp:134-164 | one reply for each message in order; every thread update carries signal 0; a soft signal's reply comes right after the update of its thread |
| ProtocolInvariants.GoodAfterTake | mac_ptrace/lldb/MachTask.cpp:189-241 | taking a message off the port keeps the invariant and what is pending |
| ProtocolInvariants.GoodAfterDecode | mac_ptrace/lldb/MachTask.cpp:243-252 | decoding it and following its task port keeps the invariant and what is pending, whatever happened since it was taken |
| ProtocolInvariants.HoldFields | mac_ptrace/lldb/MachProcess.cpp:105-112 | holding a decoded message ends the debugger exactly when it ends a single step of a dead task; else it suspends the tracked task if it is the first of its bundle, ends the step and changes nothing else |
| ProtocolInvariants.GoodAfterHold | mac_ptrace/lldb/MachProcess.cpp:105-112 | and then keeps the invariant and what is pending, whatever happened since it was decoded |
| ProtocolInvariants.ResumeEffect | mac_ptrace/lldb/MachProcess.cpp:48-55 | Resume dies exactly on a held soft signal of a task no longer tracked; else it replies to every held message once in order, leaves no task suspended, and keeps the invariant |
| ProtocolInvariants.SuspendedIsTracked | mac_ptrace/lldb/MachProcess.cpp:105-112 | a live task that a bundle suspended is the one Resume will resume |
| ProtocolInvariants.BlockedAfterReplies | mac_ptrace/lldb/MachProcess.cpp:114-126 | after the replies, a thread is blocked exactly when an exception of its is still in flight or queued |
| ProtocolInvariants.GoodAfterEnable | mac_ptrace/lldb/MachTask.cpp:261-277 | setting the step bits of the tracked task keeps the invariant |
| ProtocolInvariants.StepBitOn | mac_ptrace/lldb/MachTask.cpp:273 | setting the step bit sets bit 0 and keeps every other bit |
| ProtocolInvariants.StepBitOff | mac_ptrace/lldb/MachTask.cpp:290 | clearing it clears bit 0 and keeps bits 1 to 31 |
| ProtocolInvariants.StepsAfterDisable | mac_ptrace/lldb/MachTask.cpp:278-294 | clearing the step bits of the tracked task leaves none set in any thread, and bits 1 to 31 as they were |
| ProtocolTheorems.StepKeepsInvariant | mac_ptrace/lldb/MachProcess.cpp:16-126 | every step of every party keeps the invariant |
| ProtocolTheorems.EveryRunKeepsInvariant | mac_ptrace/lldb/MachProcess.cpp:16-126 | so does every run |
| ProtocolTheorems.ExceptionsExactlyOnce | mac_ptrace/lldb/MachProcess.cpp:105-126 | in every reachable state the exceptions raised are those replied, then held, then in flight, then queued, in one order; a thread is blocked exactly when one of its exceptions is not yet replied, and none has two |
| ProtocolTheorems.SuspendBalance | mac_ptrace/lldb/MachProcess.cpp:105-112 | in every reachable state a live tracked task is suspended once if the bundle's first message was its own and else not at all, and no other task is suspended; so "suspended exactly when messages are held" holds if and only if nothing is held or the first message is the tracked task's |
| ProtocolTheorems.NothingRunsWhileHeld | mac_ptrace/lldb/MachProcess.cpp:105-106 | while such a bundle is held no thread of the tracked task can execute |
| ProtocolTheorems.DetachFreesTarget | mac_ptrace/lldb/MachProcess.cpp:33-46 | Detach leaves every task unsuspended if and only if the port can be given up and the process exists, or no bundle suspends the tracked task; it ends detached exactly in the first case, and a thread can then execute exactly when none of its exceptions was held or queued |
| ProtocolTheorems.PortTracking | mac_ptrace/lldb/MachTask.cpp:172-256 | the exception thread and the task object always track the same port; a step moves it exactly when it decodes a SIGTRAP soft signal of another task while the tracked one is dead, and then to that task |
| ProtocolTheorems.BundleGrows | mac_ptrace/lldb/MachProcess.cpp:105-126 | no message is dropped, doubled or reordered on its way into the bundle, and only a resuming step empties it |
| ProtocolTheorems.ResumeSuppressesSignals | mac_ptrace/lldb/MachException.cpp:134-164 | in every reachable state, Resume dies exactly on a held soft signal of a task no longer tracked, and else suppresses every soft signal before its reply |
| ProtocolTheorems.DebuggerDies | mac_ptrace/lldb/MachProcess.cpp:48-126 | in every reachable state a step ends the debugger exactly when it holds a message that ends a single step of a dead task, or resumes with a soft signal held of a task no longer tracked |
| ProtocolTheorems.StepStarts | mac_ptrace/lldb/MachProcess.cpp:62-66 | in every reachable state, SingleStep on a live task that does not die starts with bit 0 set in every thread of the task, no other bit or register changed, the bundle replied to and the target running |
| ProtocolTheorems.ResumeRunsTarget | mac_ptrace/lldb/MachProcess.cpp:48-55 | in every reachable state, a Resume that does not die leaves the target running exactly when its task is live |
| ProtocolTheorems.StepEndsAtFirstMessage | mac_ptrace/lldb/MachProcess.cpp:105-112 | a single step under way is ended by the first message held and by no other step of any party |
| ProtocolTheorems.StepBitsAreClean | mac_ptrace/lldb/MachProcess.cpp:62-69 | outside a step, and so when SingleStep returns, no thread has its step bit set, whichever threads came and went; bits 1 to 31 of every thread are as when it began |
| ProtocolTheorems.StepRestoresRegister | mac_ptrace/lldb/MachTask.cpp:260-294 | setting and clearing the bit gives a register back if and only if it had neither that bit nor any upper bit |
| ProtocolRuns.ExecInBundleBreaksBalance | mac_ptrace/lldb/MachProcess.cpp:105-126 | a run that ends with two messages held, the tracked task not suspended, and a Resume that ends the debugger |
| ProtocolRuns.KillInStepEndsDebugger | mac_ptrace/lldb/MachProcess.cpp:107-110 | a run in which a task is killed in a single step, and holding its message ends the debugger |
| ProtocolRuns.DetachLeavesChildSuspended | mac_ptrace/lldb/MachProcess.cpp:33-46 | a run in which the process dies, its child is tracked and suspended, and Detach throws and leaves it so |
| ProtocolRuns.UnlockedHoldBreaksBalance | mac_ptrace/lldb/MachProcess.cpp:105-112 | statement by statement: a run in which a message is held while its task is not suspended and can execute |
| ProtocolRuns.AppendIsLast | mac_ptrace/lldb/MachProcess.cpp:105-112 | holding a message is all that ExceptionMessageReceived does before its last statement, and then that |
| Interleaving.StepKeeps | mac_ptrace/lldb/MachTask.cpp:172-256 | no step of another party changes the exception thread's variables or the tracked port |
| Interleaving.OthersDo | mac_ptrace/lldb/MachTask.cpp:177-256 | events that the other parties can do one after another are all done |
| Interleaving.StepDeals | mac_ptrace/lldb/MachTask.cpp:243-254 | in every good state, only holding a message adds to the exceptions replied to and held, and adds that message's last |
| Interleaving.PassEffect | mac_ptrace/lldb/MachTask.cpp:177-256 | what one pass does, whatever the others do in it: a message that is there is the next to be replied to or held, and is counted; a timeout after messages resets the count; a timeout or interruption that finds the task dead ends the loop; nothing else changes |
| Interleaving.LoopHoldsQueue | mac_ptrace/lldb/MachTask.cpp:177-256 | left alone, the loop moves the messages from the port into the bundle one by one and in order, and dies only if the first ends a step of a dead task |
| Interleaving.PassesRun | mac_ptrace/lldb/MachTask.cpp:177-256 | whatever the others do before a pass, once a message is taken and once it is decoded, the loop's passes are a run of the system |
| Interleaving.PassesAreReached | mac_ptrace/lldb/MachTask.cpp:177-256 | so from any point of a session they end in a reachable state, of which the session's theorems hold |
| Interleaving.PassKeepsInvariant | mac_ptrace/lldb/MachTask.cpp:177-256 | a pass keeps the invariant and ends with no message in flight |
| Interleaving.StepComesBack | mac_ptrace/lldb/MachProcess.cpp:62-69 | whatever the others do, SingleStep comes back, stopped, right after the first message of its wait is held |
| Interleaving.EndedStepIsBack | mac_ptrace/lldb/MachProcess.cpp:67-68 | a SingleStep on a live task whose step has ended is back, and its target counts as stopped |
| Interleaving.WholeStepIsReached | mac_ptrace/lldb/MachProcess.cpp:62-69 | a whole SingleStep, whatever the others do during its wait, ends in a reachable state, and when it has come back no thread has its step bit set |
| MachProcesses.MachTask.Resume | mac_ptrace/lldb/MachTask.cpp:66-83 | takes one suspension off a suspended task, leaves any other alone, and fails exactly on a dead one |
| MachProcesses.MachTask.IsValid | mac_ptrace/lldb/MachTask.cpp:122-128 | true exactly for the port of a live task |
| MachProcesses.MachTask.SetSingleStep | mac_ptrace/lldb/MachTask.cpp:261-294 | the loop over the thread list sets or clears the bit of exactly the tracked task's threads; it fails exactly on a dead task and then changes nothing |
| MachProcesses.MachProcess.ExceptionMessageReceived | mac_ptrace/lldb/MachProcess.cpp:105-112 | does what the system's Hold step does, to the whole state |
| MachProcesses.MachProcess.Reply | mac_ptrace/lldb/MachException.cpp:134-164 | does what the system's Reply does, for any signal and whether the update and the reply succeed or fail; the debugger dies when the task of a foreign soft signal is dead |
| MachProcesses.MachProcess.ReplyToAllExceptions | mac_ptrace/lldb/MachProcess.cpp:114-126 | the loop does what the system's replies do, and empties the bundle |
| MachProcesses.MachProcess.Resume | mac_ptrace/lldb/MachProcess.cpp:48-55 | does what the system's Resume step does; it throws exactly when it did not die and the task is dead; the bundle is then empty, and the target running unless it threw |
| MachProcesses.MachProcess.Stop | mac_ptrace/lldb/MachProcess.cpp:56-60 | does what the system's Stop does: the target counts as stopped, or the process is gone, and then it throws and the status is kept |
| MachProcesses.MachProcess.SingleStepStart | mac_ptrace/lldb/MachProcess.cpp:62-66 | SingleStep up to its wait is the system's step; it throws exactly on a dead task |
| MachProcesses.MachProcess.SingleStep | mac_ptrace/lldb/MachProcess.cpp:62-69 | the whole of it, with anything the others do while its loop waits, is the system's whole step; it throws exactly on a dead task, and when it neither died, threw nor waits the target counts as stopped |
| MachProcesses.MachProcess.Detach | mac_ptrace/lldb/MachProcess.cpp:33-46 | stops a running target, shuts down and, whatever the others do in between, lets go as the system does; it throws exactly when the exception port cannot be given up, the process is gone or the task is dead, and keeps its status exactly in the first two cases |
| MachProcesses.ReceivePass | mac_ptrace/lldb/MachTask.cpp:241-254 | a message received, decoded, followed and held, with anything the others do in between, is what the system's steps do |
| MachProcesses.LoopPass | mac_ptrace/lldb/MachTask.cpp:177-256 | one pass of the loop is the system's pass, with the effect PassEffect gives for messages, timeouts, interruptions and errors |
| MachProcesses.ExceptionThread | mac_ptrace/lldb/MachTask.cpp:140-258 | for every sequence of receive outcomes and everything the others do in between, the loop does what the system's passes do, and keeps the invariant; left alone with messages on the port it holds them one by one in order |

## Left out

- MachProcesses.MachProcess.SingleStep: that a message ever comes to end the wait is not claimed
- MachProcesses.MachProcess.Detach: that ptrace(PT_DETACH) can fail on a process that exists is not modelled; what the others do is put between its two halves
- MachVMMemories.MachVMMemory.Write: the buffer is a value, since the source only reads it, and a null buffer is None; a pass that repeats for ever is the result `stuck`; a pass of its loop is the method WriteInOneRegion; with a page size other than the target's the requests are not listed one by one, and a flush refused twice may have been of different pieces; for pages of 2^32 bytes or more only what being stuck needs is said
- MachVMMemories.MachVMMemory.WriteRegion: it is protected in the source and called by Write alone; like that call, it asks for an end below 2^64
- MachVMRegions.MachVMRegion.SetProtections: the invariant is promised for the first change after a lookup, which is the only one Write makes; `SecondChangeIsUndone` and `RepeatedRequestHolds` say what holds otherwise
- MemoryMap.GetDirtyPages: what happens when the source sizes an array by a negative page count is the result None
- MemoryMap.GetMemoryRegionInfo: the list of memory types is not reported, and outside a region the source leaves the caller's empty dirty-page list as it is
- MachProcesses.MachProcess.ReplyToAllExceptions: no reply and no update of a thread fails in it
- ExceptionPorts.TaskExceptionPorts.ShutDownExceptionThread: the thread can be cancelled and joined if it was started; a task that dies during the session takes its table with it and is not modelled
- MachExceptions.CatchExceptionRaise: messages that are not recognised exceptions are not modelled
- The values of EXC_MASK_ALL and PREV_EXC_MASK_ALL: they are parameters
- A second session on the same object: Detach keeps the held messages and the cached task port
- Finding the task port of a process, with its retries, and the allocation of the exception port
- Thread priorities, sleeps, timeouts and printing
- m_depth and user_tag of a region, `GetMemoryTypes`, `GetMemoryProfile`, `GetPhysicalMemory` and `ReadRegister`: plain system queries and tables
- `MachException::Name` and `MachException::ExceptionMask`: finite tables settled by reading
- mac_ptrace/main.cpp, mac_ptrace/logger.hpp, target.cpp and linux_int3: demonstration programs and printing
