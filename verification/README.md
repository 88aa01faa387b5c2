# A verified model of the kernel's memory manager, ACPI core and terminal

This project models the parts of the Serpyntyne kernel, and of the uACPI and flanterm libraries it
carries, whose correctness depends on more than one function at a time, and proves what they are
meant to guarantee. `dafny verify dfyconfig.toml` covers the whole project.

| files | what they model |
|---|---|
| `physmem`, `curtain`, `curtainsteps` | physical memory as a map from word addresses to words; the "curtain" frame allocator, whose free lists live inside the free frames; any number of allocators interleaved |
| `pagetable`, `paging`, `vmm` | four-level x86-64 page tables (section 4.5 of volume 3A of the Intel SDM) in frames of the same pool; `map_page` against the processor's walk; isolation of `allocate_random_and_map` |
| `globallock`, `lockprogress`, `locks` | the ACPI global lock shared with firmware (section 5.2.10.1 of the ACPI specification), the recursive lock and the reader/writer lock, as step systems over every interleaving, and what their steps lead to |
| `gpe`, `gpemask` | general purpose events: reference counts, software masks and the enable register; the masking protocol against interrupts and deferred work |
| `bitcopy`, `bufferfield`, `fieldunit` | bit-granular copies, buffer fields, and field units over an operation region |
| `namespace`, `walk`, `teardown` | the namespace's pointer tree: the stackless walk and the teardown |
| `lookup`, `pathresolver`, `amlnames`, `agreement`, `shortpath`, `abspath` | names: both resolvers, the two printers, and how they fit together |
| `governors`, `handlers` | address space handlers cached in operation regions |
| `heldarray`, `synclevel`, `syncruns` | the list of held AML mutexes, the SyncLevel discipline of one activation, and any number of activations interleaved |
| `utf8`, `text` | the terminal's decoder and the text it prints |
| `picture`, `commands`, `effects` | the calls to the framebuffer backend and what they draw; what every control character, escape sequence and control sequence calls, and what the screen shows after it |
| `terminal`, `sequences` | the byte-stream parser, and whole sequences written to it |

Conventions. Foreign calls become parameters (`granted`, `ok`, `memory`, `denoter`) or nondeterministic
choices, so that a result holds whatever they answer. A linked list that the code only searches and
splices is a sequence where its links are not the point (allocator steps, handler lists); where they are
(free frames, namespace nodes), the links are modelled. An 8-bit event mask is the set of its events.

## Where the code decides

Some promises hold only under a condition. The code is modelled as it is, and the condition is proved.

- With enough frames in the pool, a 4 KiB mapping takes effect exactly if no 2 MiB page covers the address; otherwise the entry lands inside the large page (`Paging.SmallOutcome` in the contract of `Paging.Pagemap.MapPage`, `Paging.LargePageShadows`). With fewer frames than missing tables the pool ends empty.
- The flags of a mapping are not masked. Pages with different frames can translate to one frame if flags reach into the address bits (`Vmm.StrayFlagsCollide`); an entry leads to its frame, whichever that is, exactly if they do not (`Vmm.FlagsExact`), and then isolation is proved of the translations (`Vmm.Space.Run`).
- Masking a general purpose event reports success even if its disabling write fails, and the event then stays enabled (`GpeMask.FailedWriteLeavesEnabled`). In the same way a failing "disable all" can leave a register enabling events outside its current mask; `Gpe.Block.Mask` and `Gpe.Block.ApplyAction` state exactly when.
- A NameString made of one segment behind a MultiNamePrefix is looked up in the scope only, while its path is also searched for in the ancestors; `Agreement.ResolversAgree` states exactly when the two coincide, and `Agreement.LoneMultiDiffers` gives a family of trees where they do not. A NullName without prefix is an error in AML and the scope itself as a path.
- The namespace walk tests the type before the temporary flag, so a temporary node that fails the type filter does not hide its children. A node without an object counts as matching if the node tested before it did (`Walk.NoObjectInherits`); `Walk.VisitOrders` gives the order of the calls for all trees, and where every node has an object it depends on nothing tested before (`Walk.ObjectsDecide`).
- Installing an address space handler walks permanent nodes only, while a temporary region gets a handler when it is initialized. So an install can leave a region with the handler of a farther device (`Handlers.TemporaryRegionGoesStale`). The cache stays right exactly if no region that has a handler is temporary or below a temporary node on the way from the device (`Handlers.InstallRight`). A handler that such a region still uses outlives its own uninstall; `Handlers.OpRegions.UninstallHandler` says exactly when.
- A run of activations that keeps the SyncLevel rules can reach a deadlock exactly if two mutexes share a level (`SyncRuns.DeadlockIff`).
- A path segment may be given without its trailing underscores, and then means the same exactly if the first segment does not become empty (`ShortPath.SameSegments`, `ShortPath.EmptyPathIsScope`).
- Acquiring and releasing a mutex brings the current SyncLevel back exactly if something else is held; otherwise it becomes zero, even where the activation began above that (`SyncLevel.AcquireThenRelease`).
- A UTF-8 sequence that encodes nothing prints exactly one replacement character, unless it starts with F4 and a byte from 90 on: the comment in the code announces a replacement for those too, but an earlier test returns first and nothing is printed (`Text.SequencePrints`, `Text.AboveRangePrintsNothing`).
- A parameter of a control sequence is read as the number its digits spell exactly if that fits 32 bits (`Commands.NumberRead`); a larger one need not become the largest value (`Commands.LongNumberIsCut`).
- A control sequence written between others does what its final byte says exactly if no private sequence was cancelled before it (`Sequences.WriteControl`): cancelling does not forget that the sequence was private, and the next one is then taken for a list of private modes (`Sequences.CancelThenPosition`).

## Model

| member | source | states |
|---|---|---|
| Curtain.Curtain.Hang | kernel/src/mm/pmm.c:146-177 | after hanging, the list of thread g is the page list restricted to the 2 MiB range g, in reverse order; the free frames are exactly the listed ones and no other memory word changed |
| Curtain.Curtain.MoveToThread | kernel/src/mm/pmm.c:154-176 | one round moves the front page to the head of its thread's list and yields the page that was linked behind it |
| Curtain.HangingPartitions | kernel/src/mm/pmm.c:146-177 | the threads partition the page list by address / 2 MiB: nothing lost, nothing twice |
| Curtain.Curtain.AllocatePage | kernel/src/mm/pmm.c:192-222 | zero exactly when no thread holds a frame; otherwise a free frame, zeroed and no longer free, everything else untouched |
| Curtain.Curtain.Pop | kernel/src/mm/pmm.c:200-213 | unlinks the head of one thread and zeroes it, keeping all lists well formed although their links live in the frames |
| Curtain.ProbeReaches | kernel/src/mm/pmm.c:194-196 | the circular probe visits every thread within frame_len rounds, from any start |
| CurtainSteps.NoFrameTwice | kernel/src/mm/pmm.c:224-263 | in every state of every run of any number of allocators: free plus handed-out frames are the initial ones, none is handed out twice, and a call that returned zero finds every thread empty |
| CurtainSteps.OneHolder | kernel/src/mm/pmm.c:239-257 | two allocators are never between lock and unlock of the same thread |
| CurtainSteps.StepInv | kernel/src/mm/pmm.c:235-258 | every step of every allocator keeps the invariant behind the two results above |
| CurtainSteps.NeverStuck | kernel/src/mm/pmm.c:235-258 | in every state of every run with a call under way, some call under way can take its next step |
| CurtainSteps.CallCompletes | kernel/src/mm/pmm.c:235-263 | a call that nobody gets in between hands out the head of the first thread in its probe that is not empty, and zero exactly if all it has yet to probe are empty; every lock is free again |
| PageTable.EntryBits | kernel/arch/x86_64/paging.h:38-45 | present is bit 0 and size is bit 7 |
| PageTable.FrameBits | kernel/arch/x86_64/paging.h:16 | the frame is bits 12 to 51 |
| PageTable.OpenBits | kernel/arch/x86_64/paging.h:56-67 | a new table's flags are present, writable and user, and nothing else |
| PageTable.LargeBit | kernel/arch/x86_64/paging.h:45 | marking an entry large sets that bit alone |
| PageTable.RightsBits | kernel/arch/x86_64/paging.h:56-60 | two levels together grant writing and user access only if both do, and withhold execution if either does |
| PageTable.WritePage | kernel/arch/x86_64/paging.c:78-80 | in a well-formed tree, storing a level-1 entry remaps one 4 KiB page to that entry, changes no other translation and keeps the tree well formed |
| PageTable.WriteLargePage | kernel/arch/x86_64/paging.c:66-69 | storing a level-2 entry with the size bit remaps one 2 MiB page and nothing else, and keeps the tree well formed |
| PageTable.GrowKeepsWalk | kernel/arch/x86_64/paging.c:24-31 | linking a fresh zeroed table changes no translation of any address |
| PageTable.GrowKeepsTree | kernel/arch/x86_64/paging.c:24-31 | linking a fresh zeroed table keeps the tree well formed, with one more table |
| PageTable.LeafEntryExact | kernel/arch/x86_64/paging.c:80 | address and flags come back unchanged from a leaf entry built from them |
| PageTable.SlotInjective | kernel/arch/x86_64/paging.c:52-64 | different tables or different indices give different entry addresses |
| Paging.AcceptableSizes | kernel/arch/x86_64/paging.c:43-47 | the accepted size exponents are exactly 0 and 9 |
| Paging.CheckExact | kernel/arch/x86_64/paging.c:38-47 | which addresses and sizes are accepted, and which are called misaligned, bit by bit |
| Paging.Pagemap.PageCycle | kernel/arch/x86_64/paging.c:18-34 | follows a present entry without any change; otherwise links one zeroed frame from the pool, or entry zero if the pool is empty |
| Paging.Pagemap.MapPage | kernel/arch/x86_64/paging.c:36-86 | misalignment and bad sizes change nothing; else, with enough frames, a 2 MiB mapping takes effect, and a 4 KiB mapping does exactly if no 2 MiB page covers the address: walking it gives the requested entry, every address outside the page translates as before and the tree stays well formed |
| Paging.Pagemap.MapLarge | kernel/arch/x86_64/paging.c:66-75 | the 2 MiB case of that statement, with the number of frames it takes from the pool |
| Paging.Pagemap.MapSmall | kernel/arch/x86_64/paging.c:78-85 | the 4 KiB case, including the shadowed and the starved outcome |
| Paging.CycleAdvances | kernel/arch/x86_64/paging.c:57-64 | one page_cycle takes the walk one level down the path of the address and uses one frame exactly if the table was missing |
| Paging.LargePageShadows | kernel/arch/x86_64/paging.c:78-80 | under a 2 MiB page the 4 KiB store does not map the page, whatever the large page's first frame is; the address keeps its 2 MiB translation unless its own walk reads the stored entry |
| Paging.LargeNeverSplits | kernel/arch/x86_64/paging.c:78-80 | while a 2 MiB page covers an address, no state maps its 4 KiB page and leaves the neighbours alone |
| Vmm.MapKeepsIsolation | kernel/arch/x86_64/paging.c:78-80 | mapping one more page to a frame of its own keeps all pages on distinct frames that are neither free nor tables; with clean flags this is said of the frames the processor's walk yields |
| Vmm.FlagsExact | kernel/arch/x86_64/paging.c:80 | an entry translates to the frame it was made for, for every frame, if and only if its flags have no address bits |
| Vmm.StrayFlagsCollide | kernel/arch/x86_64/paging.c:80 | two frames and two flags whose entries translate to the same third frame |
| Vmm.CleanPagesApart | kernel/src/mm/vmm.c:171-187 | with clean flags, owned pages translate to distinct frames, none of them free or a page table |
| Vmm.DryStaysDry | kernel/src/mm/vmm.c:180-184 | once the pool is empty it stays empty through a mapping |
| Vmm.Space.GivePages | kernel/src/mm/vmm.c:180-184 | the loop gives each page of the range its own frame and leaves translations outside the range alone |
| Vmm.Space.AllocateRandomAndMap | kernel/src/mm/vmm.c:171-187 | returns the address it was given; afterwards every page of the rounded range is owned with the requested flags, or the pool did not last |
| Vmm.Space.Run | kernel/src/mm/vmm.c:171-187 | any sequence of calls on disjoint unmapped ranges: while the pool lasts, distinct pages own distinct frames, none of them free or a page table, and with clean flags the walk of each page yields its own frame; four frames per page always last |
| GlobalLock.GlobalLockSafe | kernel/uacpi/source/mutex.c:20-116 | every interleaving with firmware and the release interrupt: never two owners, the owned bit is exact, bits above the lock never change, a waiter always has a wake-up coming, and an acquire makes at most 65535 attempts, giving up only after exactly that many |
| GlobalLock.NotificationReachesWaiter | kernel/uacpi/source/event.c:2136-2161 | if the operating system waits when the handler tests the flag, the handler signals the event |
| GlobalLock.StepKeeps | kernel/uacpi/source/mutex.c:55-116 | every step of the operating system, the firmware and the interrupt handler keeps the invariant |
| LockProgress.SwapTakesLock | kernel/uacpi/source/mutex.c:20-103 | in every run, swapping an unchanged free word makes the operating system the owner, and two steps later the acquire has returned with spinlock and flag clear |
| LockProgress.SwapGivesLock | kernel/uacpi/source/mutex.c:43-116 | in every run, the release's swap of an unchanged word leaves the lock free with its upper bits, and firmware is told exactly if it waits |
| LockProgress.FirstAttemptSucceeds | kernel/uacpi/source/mutex.c:55-103 | steps of the operating system alone take a free lock at the first attempt and change nothing else |
| LockProgress.FirstAttempt | kernel/uacpi/source/mutex.c:55-103 | such steps exist from every state with a free lock and spinlock |
| LockProgress.ReleaseSucceeds | kernel/uacpi/source/mutex.c:105-116 | steps of the operating system alone give the lock back, with the upper bits as they were |
| LockProgress.EveryWaitCanEnd | kernel/uacpi/source/event.c:2136-2161 | every wait in every run can end: at most 115 steps of the owner's release, the interrupt handler and the waiter wake it |
| LockProgress.WaiterWakes | kernel/uacpi/source/event.c:2136-2161 | the same from any state that satisfies the invariant, with the number of steps |
| RecursiveLock.Acquires | kernel/uacpi/source/mutex.c:287-305 | a thread can take the free lock, and is then owner and native holder at depth one |
| RecursiveLock.AcquiresAgain | kernel/uacpi/source/mutex.c:293-296 | the holder can take it again, one deeper |
| RecursiveLock.Releases | kernel/uacpi/source/mutex.c:307-314 | a release goes one up, and the last one frees the lock |
| ReaderWriterLock.ReaderEnters | kernel/uacpi/source/mutex.c:353-369 | a reader gets in beside any number of readers, unless there is a writer |
| ReaderWriterLock.ReaderLeaves | kernel/uacpi/source/mutex.c:371-384 | the last reader to leave lets writers in again |
| ReaderWriterLock.WriterEnters | kernel/uacpi/source/mutex.c:386-394 | a writer gets in when there is nobody, and leaves the lock as it was |
| RecursiveLock.RecursiveLockSafe | kernel/uacpi/source/mutex.c:287-314 | any number of threads: at most one holds the lock, it is the recorded owner and the native holder, and depth is its number of unmatched acquires |
| RecursiveLock.OwnerHoldsMutex | kernel/uacpi/source/mutex.c:302-313 | whenever an owner is recorded it holds the native mutex |
| ReaderWriterLock.WriterExcludesAll | kernel/uacpi/source/mutex.c:353-394 | a writer is never inside together with a reader or another writer, whichever native acquires fail |
| ReaderWriterLock.NumReadersCounts | kernel/uacpi/source/mutex.c:353-384 | num_readers is the number of threads holding the read lock, plus one only while a would-be first reader is inside the opening section |
| ReaderWriterLock.StepInv | kernel/uacpi/source/mutex.c:353-394 | every step of every thread keeps the invariant |
| GpeMask.MaskedStaysOff | kernel/uacpi/source/event.c:1262-1310 | under every interleaving with interrupts, deferred handlers and restores, once masking has returned with its write done, the enable bit is clear until the event is unmasked |
| GpeMask.CallKeeps | kernel/uacpi/source/event.c:335-376 | no step of set_gpe_state switches on an event that the protocol guards, although the mask is tested outside the spinlock |
| GpeMask.WorkKeeps | kernel/uacpi/source/event.c:385-563 | every step of dispatch, deferred handler and restore keeps the protocol's invariant |
| GpeMask.ApiKeeps | kernel/uacpi/source/event.c:1262-1310 | every step of masking, unmasking and the other operations under the event lock keeps it |
| GpeMask.FailedWriteLeavesEnabled | kernel/uacpi/source/event.c:1291-1299 | a run in which the disabling write fails, masking returns, and the event is still enabled |
| GpeMask.Masks | kernel/uacpi/source/event.c:1271-1300 | with no interrupt and no failure, masking an event clears its enable bit and no other |
| GpeMask.UnmasksAgain | kernel/uacpi/source/event.c:1302-1309 | unmasking a current event whose interrupts are not blocked sets its enable bit and no other |
| GpeBits.ToggledBit | kernel/uacpi/source/event.c:324-327 | setting or clearing an event's bit adds or removes that event and no other |
| Gpe.Block.SetState | kernel/uacpi/source/event.c:335-376 | which goals reach the hardware, and the enable register afterwards |
| Gpe.Block.AddUser | kernel/uacpi/source/event.c:1218-1241 | the first user enables the event if and only if it is not masked; a failure undoes count and runtime mask but leaves the current mask equal to the runtime mask; 255 users are the limit |
| Gpe.Block.RemoveUser | kernel/uacpi/source/event.c:1193-1211 | the last user disables the event; a failure restores the count; no user is an error |
| Gpe.Block.Mask | kernel/uacpi/source/event.c:1271-1300 | the new state, and that the block stays consistent exactly if the write succeeded or the event was off |
| Gpe.Block.Unmask | kernel/uacpi/source/event.c:1302-1309 | enabled again exactly if current, used and not being handled |
| Gpe.Block.Suspend | kernel/uacpi/source/event.c:1660-1692 | the event is blocked and, if the write succeeds, off |
| Gpe.Block.Restore | kernel/uacpi/source/event.c:385-399 | the block on interrupts goes away; the event comes back only if current and not masked |
| Gpe.Block.Dispatch | kernel/uacpi/source/event.c:491-563 | unless re-enabled at once, the event ends disabled and blocked |
| Gpe.Block.ApplyAction | kernel/uacpi/source/event.c:700-738 | in every register up to the first failing write an event is enabled if and only if the action enables and the event has users and is not masked; consistency survives exactly if none failed, or the action enables, or that register enabled nothing |
| Gpe.OffAndOn | kernel/uacpi/source/event.c:700-738 | disabling all and enabling all again enables exactly the events with users that are not masked |
| Gpe.PerformAll | kernel/uacpi/source/event.c:1176-1310 | every sequence of operations keeps: runtime bit exactly for events with users, current within runtime, enable within current minus masked |
| BitCopy.Copy | kernel/uacpi/source/io.c:48-95 | destination bit i of the span becomes source bit i, or zero past the source; every other bit is unchanged; no access outside the spans' bytes |
| BitCopy.CopyUnique | kernel/uacpi/source/io.c:48-95 | that description determines every byte of the result |
| BitCopy.Gather | kernel/uacpi/source/io.c:68-81 | up to eight source bits from any bit position, zero past the end |
| BitCopy.Scatter | kernel/uacpi/source/io.c:83-90 | up to eight bits are placed at any bit position across a byte boundary, all other bits kept |
| BufferField.Read | kernel/uacpi/source/io.c:113-128 | on both paths the destination becomes the field's bits followed by zeroes |
| BufferField.Write | kernel/uacpi/source/io.c:148-176 | on both paths the field becomes the zero-extended source and no other bit changes |
| BufferField.MemCopyZero | kernel/uacpi/source/stdlib.c:112-122 | the source cut or padded with zeroes to the destination's size |
| BufferField.CutTail | kernel/uacpi/source/io.c:16-26 | keeps the low bits of the last byte of a field that does not end on a byte |
| FieldUnit.ReadSlow | kernel/uacpi/source/io.c:406-458 | the looped path: the field's bits, zero-extended or truncated to the destination |
| FieldUnit.ReadFast | kernel/uacpi/source/io.c:488-507 | the single-access path: the same |
| FieldUnit.Read | kernel/uacpi/source/io.c:460-511 | whichever path is taken, the destination becomes the field's bits, zero-extended or truncated |
| FieldUnit.ReadBothWays | kernel/uacpi/source/io.c:406-511 | where the fast path applies to at least one bit, both paths give the same bytes |
| FieldUnit.Write | kernel/uacpi/source/io.c:513-582 | the field's bits become the zero-extended source; under Preserve all other bits of the region are unchanged, under the other rules the rest of a partial access becomes ones or zeroes; a reserved rule fails if and only if some access is partial, and then leaves everything outside the field alone |
| FieldUnit.WriteThenRead | kernel/uacpi/source/io.c:460-582 | reading a field just written returns the source cut to the field and zero-extended to the destination |
| FieldUnit.OneUnit | kernel/uacpi/source/io.c:427-439 | each access reduces the number of accesses still needed by one, for widths 1, 2, 4 and 8 |
| Walk.ForEachChild | kernel/uacpi/source/namespace.c:836-938 | terminates, and makes exactly the calls of the recursive visit, with arbitrary history-dependent decisions; callbacks that only skip children are called in pre-order and post-order; any other ends the walk the first time it breaks it off, or answers nonsense on the way down |
| Walk.VisitOrders | kernel/uacpi/source/namespace.c:836-938 | for every tree, descending calls are exactly the pre-order and ascending calls exactly the post-order, after type filter with inherited matches, depth limit, NEXT_PEER and pruning |
| Walk.VisitObeys | kernel/uacpi/source/namespace.c:891-930 | the visit ends at the first callback that stops it, with the status that callback asks for |
| Walk.ObjectsDecide | kernel/uacpi/source/namespace.c:871-880 | where all nodes have objects, the order does not depend on what was tested before |
| Walk.NoObjectInherits | kernel/uacpi/source/namespace.c:871-875 | two siblings, one without an object, of which the order decides whether both are called |
| Walk.MoveToChild | kernel/uacpi/source/namespace.c:917-923 | stepping to the first child leaves the outcome of the whole walk as it was |
| Walk.MoveToParent | kernel/uacpi/source/namespace.c:912-914 | so does stepping back to the parent |
| Walk.MoveToPeer | kernel/uacpi/source/namespace.c:905-909 | so does stepping to the next sibling |
| Walk.TurnAround | kernel/uacpi/source/namespace.c:924-927 | so does turning around at a node whose children are not visited |
| Teardown.Uninstall | kernel/uacpi/source/namespace.c:351-446 | errors leave the tree alone; otherwise the node leaves its sibling list, the others keep their order, and it becomes dangling without an object |
| Teardown.Wipe | kernel/uacpi/source/namespace.c:229-230 | removes all childless children of a node; every uninstall succeeds |
| Teardown.Deinitialize | kernel/uacpi/source/namespace.c:208-252 | on every tree without dangling nodes the loop terminates, uninstalls every node below the root exactly once and after all the nodes below it, takes its object away, and leaves the root childless |
| Teardown.RemovedBottomUp | kernel/uacpi/source/namespace.c:208-252 | in the order of removal no node outlives the nodes below it |
| Lookup.FindSubNode | kernel/uacpi/source/namespace.c:448-468 | the first child with that name, or none |
| Lookup.FollowPrefix | kernel/uacpi/source/namespace.c:519-563 | the node the root or parent prefixes lead to; an error above the root or for a root after carets |
| Lookup.SearchUpNearest | kernel/uacpi/source/namespace.c:578-593 | the search finds the child of the nearest ancestor that has one of that name, and nothing exactly if none has |
| PathResolver.SegmentToName | kernel/uacpi/source/namespace.c:470-491 | the characters up to a dot, the fourth or the end, then underscores, and the cursor behind what was copied |
| PathResolver.CaretMeans | kernel/uacpi/source/namespace.c:519-563 | a caret means the rest of the path from the parent, without search; above the root or before a backslash it is an error |
| PathResolver.RootedMeans | kernel/uacpi/source/namespace.c:519-563 | behind a backslash the segments are followed from the root, whatever the scope |
| PathResolver.Resolve | kernel/uacpi/source/namespace.c:493-623 | equals the meaning of the path: prefix, then one child per segment, or for a lone segment the nearest ancestor that has it; temporary nodes can be denied |
| PathResolver.SearchAncestors | kernel/uacpi/source/namespace.c:578-593 | the child of the nearest ancestor that has one of that name |
| AmlNames.Resolve | kernel/uacpi/source/interpreter.c:477-635 | equals the meaning of the NameString's bytes; found or not, the offset ends just past it, and a malformed one leaves it |
| AmlNames.SearchUpwards | kernel/uacpi/source/interpreter.c:607-614 | the upward loop that stops at the root finds the same node as the search by ancestors |
| AmlNames.ToPath | kernel/uacpi/source/interpreter.c:364-470 | prefix and segments joined by dots, filling a buffer of the computed size exactly |
| Agreement.ResolversAgree | kernel/uacpi/source/interpreter.c:364-635 | for every tree, scope and valid NameString the two resolvers give the same outcome, exactly outside two named forms |
| Agreement.ResolveBothWays | kernel/uacpi/source/interpreter.c:364-635 | both resolvers, applied to the same bytes, return the same outcome and the offset ends just past the NameString |
| Agreement.PrintedPath | kernel/uacpi/source/interpreter.c:437-469 | the printer turns a valid NameString into its path |
| Agreement.LoneMultiDiffers | kernel/uacpi/source/interpreter.c:543-556 | for a one-segment MultiNamePath the bytes are not found where the path is |
| Agreement.SegmentsOfJoined | kernel/uacpi/source/namespace.c:565-575 | joined valid segments split into the same segments |
| ShortPath.SameSegments | kernel/uacpi/source/namespace.c:470-491 | a path with shortened segments has the segments of the full path if and only if its first segment is not empty |
| ShortPath.ShortPathMeans | kernel/uacpi/source/namespace.c:493-623 | such a path means what the full path means, in every tree and from every scope |
| ShortPath.EmptyPathIsScope | kernel/uacpi/source/namespace.c:493-623 | the empty path, which a name of four underscores would shorten to, is the scope |
| ShortPath.FindSleepState | kernel/uacpi/source/sleep.c:197-210 | looking for "_S0" to "_S5" finds the child named _S0_ to _S5_ of the root, if there is one |
| AbsolutePath.Generate | kernel/uacpi/source/namespace.c:1036-1074 | the backslash and the dotted names from the root, with the terminator, fill the buffer exactly |
| AbsolutePath.NodeDepth | kernel/uacpi/source/namespace.c:1017-1027 | the number of parents up to the root |
| AbsolutePath.PathMeansNode | kernel/uacpi/source/namespace.c:493-623 | with unique valid sibling names, the printed path resolves to the node from every scope |
| AbsolutePath.PrintThenResolve | kernel/uacpi/source/namespace.c:1036-1074 | printing a path and resolving it gives the node back |
| Governors.WalkReaches | kernel/uacpi/source/opregion.c:425-471 | a walk that skips below devices with their own handler reaches exactly the nodes whose nearest such device is the start |
| Governors.ReachedVisible | kernel/uacpi/source/namespace.c:877-881 | a walk that passes over some nodes misses exactly those that are such a node or below one |
| Governors.WalkCallsReached | kernel/uacpi/source/namespace.c:836-938 | the calls the namespace walk makes are for exactly those nodes, in that order |
| Governors.GovernedFromParent | kernel/uacpi/source/opregion.c:798-811 | the nearest device of a node follows from its parent's |
| Handlers.CacheIsRight | kernel/uacpi/source/opregion.c:297-381 | when the cache is right: a cached handler is the nearest device's, each list holds exactly its users once, the count is one more than their number |
| Handlers.InstallRight | kernel/uacpi/source/opregion.c:671-675 | an install leaves every cached handler that of the nearest device if and only if no region with a handler is out of the permanent-only walk's sight |
| Handlers.InstallServes | kernel/uacpi/source/opregion.c:671-675 | the new handler serves every region that has its device as the nearest if and only if none of them is out of that walk's sight |
| Handlers.TemporaryRegionGoesStale | kernel/uacpi/source/opregion.c:671-675 | a tree whose temporary region keeps the root's handler after a nearer device got one |
| Handlers.NobodyUses | kernel/uacpi/source/opregion.c:746-750 | after the uninstalling walk nobody uses the handler if and only if all its users had the device as their nearest |
| Handlers.WalkBelow | kernel/uacpi/source/opregion.c:671-675 | the walk, with the callback's decisions, calls the nodes that have the device as their nearest and, if permanent only, no temporary node in between |
| Handlers.OpRegions.InstallCallback | kernel/uacpi/source/opregion.c:425-471 | one call of the installing callback: its decision, and one region of the space changed over |
| Handlers.OpRegions.UninstallCallback | kernel/uacpi/source/opregion.c:425-471 | one call of the uninstalling callback: its decision, and one region that used the handler freed of it |
| Handlers.DetachKeeps | kernel/uacpi/source/opregion.c:316-381 | detaching a region keeps lists and counts right |
| Handlers.AttachKeeps | kernel/uacpi/source/opregion.c:297-309 | so does attaching one |
| Handlers.OpRegions.InstallHandler | kernel/uacpi/source/opregion.c:620-699 | all outcomes; which regions change over, and that all others, their handlers and the other devices stay; exactly when the handler serves all its regions and when the cache stays right |
| Handlers.OpRegions.UninstallHandler | kernel/uacpi/source/opregion.c:711-781 | all outcomes; the handler is freed if and only if all its users had the device as their nearest, as they do when the cache is right; else those left behind are its only references; all other regions and devices stay as they were |
| Handlers.OpRegions.Drop | kernel/uacpi/source/opregion.c:752-776 | unlinking frees a handler without regions, whose count is one, and keeps one with regions alive |
| Handlers.OpRegions.InitializeRegion | kernel/uacpi/source/opregion.c:783-826 | a new region takes the handler of its nearest device that has one, else none; a right cache stays right |
| Handlers.OpRegions.DeleteRegion | kernel/uacpi/source/opregion.c:398-406 | a region goes away: every other region, device, handler and space is as before, each list without the region keeps its order, and its handler's count falls by one |
| Handlers.PerformAll | kernel/uacpi/source/opregion.c:620-826 | where no node is temporary, every sequence of installs, uninstalls, new and deleted regions keeps the cache right |
| HeldArray.Held.Push | kernel/uacpi/source/interpreter.c:113-126 | appends, growing the separate storage when both parts are full; without memory nothing changes |
| HeldArray.Held.RemoveIdx | kernel/uacpi/source/interpreter.c:128-178 | whatever the split between inline and separate storage, exactly sequence removal |
| SyncLevel.Table.Acquire | kernel/uacpi/source/mutex.c:201-239 | owner and depth after an AML acquire, and its refusals |
| SyncLevel.Table.Release | kernel/uacpi/source/mutex.c:241-253 | owner and depth after an AML release |
| SyncLevel.Context.Acquire | kernel/uacpi/source/interpreter.c:3654-3694 | keeps the list ordered by level and the current level that of its last entry; a lower mutex is ignored, an owned one gets deeper, a new one is appended; every other mutex is untouched |
| SyncLevel.Context.Release | kernel/uacpi/source/interpreter.c:3696-3723 | keeps the same; only a mutex of the current level is released, and its last release takes it out of the list wherever it stands |
| SyncLevel.Context.FindBackwards | kernel/uacpi/source/interpreter.c:226-234 | the backward search always finds an owned mutex |
| SyncLevel.RunOps | kernel/uacpi/source/interpreter.c:3636-3730 | any run of acquires and releases keeps the discipline |
| SyncLevel.AcquireThenRelease | kernel/uacpi/source/interpreter.c:3654-3723 | acquiring and releasing a mutex brings back list and owners, and the current level exactly if something else is held |
| SyncLevel.OthersKeep | kernel/uacpi/source/mutex.c:201-253 | a change to a mutex that is not another activation's leaves that activation's discipline intact |
| SyncLevel.ActBeside | kernel/uacpi/source/interpreter.c:3636-3730 | an acquire or release of one activation keeps the discipline of another over the same mutexes |
| SyncLevel.NoWaitCycle | kernel/uacpi/source/interpreter.c:3661-3668 | with pairwise distinct levels no set of waiting activations forms a cycle |
| SyncLevel.WaitingContext | kernel/uacpi/source/interpreter.c:3661-3682 | an activation that waits has passed the level test with an ordered list |
| SyncRuns.StepInv | kernel/uacpi/source/interpreter.c:3654-3723 | every step of every activation keeps the discipline of all of them |
| SyncRuns.NeverDeadlocked | kernel/uacpi/source/interpreter.c:3654-3723 | with pairwise distinct levels, no reachable state of any number of interleaved activations is a deadlock |
| SyncRuns.EqualLevelsDeadlock | kernel/uacpi/source/interpreter.c:3661-3668 | for two mutexes of one level, a run of two activations from the start into a deadlock |
| SyncRuns.DeadlockIff | kernel/uacpi/source/interpreter.c:3654-3723 | a deadlock is reachable if and only if two mutexes share a level |
| SyncRuns.AcquireRuns | kernel/uacpi/source/interpreter.c:3654-3694 | every outcome of an acquire is a run of at most two of these steps |
| SyncRuns.ReleaseRuns | kernel/uacpi/source/interpreter.c:3696-3723 | every release of an owned mutex of the current level is one of these steps |
| Utf8.EncodedDecodes | kernel/flanterm/src/flanterm.c:1983-2051 | every code point from U+0080 on comes back from its UTF-8 encoding |
| Utf8.AcceptedIsShortest | kernel/flanterm/src/flanterm.c:1983-2010 | a sequence that is not rejected is the encoding of its code point: no overlong form, nothing above U+10FFFF |
| Text.SequencePrints | kernel/flanterm/src/flanterm.c:1970-2035 | a sequence that encodes a code point prints its glyph; one that encodes nothing prints exactly one replacement if and only if it is not F4 followed by a byte from 90 on, which prints nothing |
| Text.AboveRangePrintsNothing | kernel/flanterm/src/flanterm.c:1986-1989 | F4 90 80 80 prints nothing |
| Text.DecodedIsEncoded | kernel/flanterm/src/flanterm.c:1983-2051 | a sequence decodes to an accepted code point if and only if it is that code point's encoding |
| Picture.BelowIsErased | kernel/flanterm/src/flanterm.c:897-914 | the calls of CSI 0 J, drawn: exactly the cells from the cursor on are blank and the cursor is back |
| Picture.AboveIsErased | kernel/flanterm/src/flanterm.c:915-930 | the same for CSI 1 J and the cells up to the cursor |
| Picture.RowIsErased | kernel/flanterm/src/flanterm.c:982-1006 | the same for CSI K |
| Picture.ShiftedRight | kernel/flanterm/src/flanterm.c:1945-1956 | moving a row's characters from the right end shifts the rest of the row intact: nothing is overwritten before it has moved |
| Picture.BlanksInserted | kernel/flanterm/src/flanterm.c:937-954 | CSI @ opens exactly that many blanks at the cursor and moves the rest of the row |
| Picture.CharactersDeleted | kernel/flanterm/src/flanterm.c:955-972 | CSI P closes the gap and blanks the end of the row |
| Picture.ScrolledUp | kernel/flanterm/src/flanterm_backends/fb.c:874-899 | scrolling n times moves the rows between the margins up by n and blanks the last n |
| Picture.ScrolledDown | kernel/flanterm/src/flanterm_backends/fb.c:845-872 | the same downwards |
| Picture.CursorRestored | kernel/flanterm/src/flanterm_backends/fb.c:543-561 | whatever is drawn between saving and restoring, the cursor comes back, unless it is saved again |
| Commands.NumberRead | kernel/flanterm/src/flanterm.c:659-675 | digits are read as the number they spell if and only if it fits 32 bits |
| Commands.LongNumberIsCut | kernel/flanterm/src/flanterm.c:664-666 | 4294967300 is read as 429496730 |
| Commands.HoldsAll | kernel/flanterm/src/flanterm.c:659-709 | the numbers collected from up to sixteen digit lists are, with the command's default filled in, what each list is read as |
| Commands.TabStops | kernel/flanterm/src/flanterm.c:608-615 | a tab goes to the next multiple of the tab size, or to the last column |
| Commands.TargetInside | kernel/flanterm/src/flanterm.c:755-846 | no cursor command leaves the screen, and in origin mode none that names a row leaves the margins |
| Commands.PrivateModes | kernel/flanterm/src/flanterm.c:457-502 | the private modes named are set or reset, and only they, however many and in whatever order |
| Commands.AlternateScreen | kernel/flanterm/src/flanterm.c:487-495 | leaving the alternate screen brings back the modes from when it was entered, whatever modes were switched in between |
| Commands.LineFeedUndone | kernel/flanterm/src/flanterm.c:1168-1194 | reverse line feed undoes line feed, except where one of them scrolls |
| Effects.MovesGo | kernel/flanterm/src/flanterm.c:755-846 | away from the edges each of the thirteen cursor commands goes exactly where it says |
| Effects.MovesStop | kernel/flanterm/src/flanterm.c:755-846 | beyond an edge they stop at it |
| Effects.SavedCursorReturns | kernel/flanterm/src/flanterm.c:976-981 | CSI u goes where CSI s was, whatever happened to margins and modes |
| Effects.OmittedNumber | kernel/flanterm/src/flanterm.c:691-709 | a number left out is zero for the commands that choose by it and one for those that count |
| Effects.InsertModeSwitched | kernel/flanterm/src/flanterm.c:514-538 | CSI 4 h and CSI 4 l switch insert mode; nothing else does |
| Effects.MarginsTaken | kernel/flanterm/src/flanterm.c:1007-1023 | the rows CSI r takes, counted from one, and when it takes the whole screen instead |
| Effects.Erases | kernel/flanterm/src/flanterm.c:896-1006 | what CSI J and CSI K with every number leave on the screen |
| Effects.Edits | kernel/flanterm/src/flanterm.c:937-972 | what CSI @, CSI P and CSI X leave on the screen |
| Effects.DeleteUndoesInsert | kernel/flanterm/src/flanterm.c:937-972 | CSI P takes out the blanks that CSI @ put in; what was pushed over the end of the row stays lost |
| Effects.RegionScrolls | kernel/flanterm/src/flanterm.c:1028-1043 | CSI S and CSI T move the rows between the margins by the number asked for |
| Effects.RowsScroll | kernel/flanterm/src/flanterm.c:847-874 | CSI M and CSI L do so from the cursor's row to the bottom margin, and nothing outside the margins |
| Effects.LineFeeds | kernel/flanterm/src/flanterm.c:1168-1194 | where line feed, reverse line feed, next line, return and backspace leave the cursor, and what scrolls |
| Effects.TextAppears | kernel/flanterm/src/flanterm.c:2094-2115 | a character goes where the cursor is; in insert mode the rest of the row moves right first |
| Effects.RepeatsPut | kernel/flanterm/src/flanterm.c:1044-1062 | outside insert mode CSI b puts the character once for every repetition |
| Terminal.Context.Write | kernel/flanterm/src/flanterm.c:132-140 | for every byte string and every in-grid cursor reported: at most 16 numbers (fewer while one is open), at most 256 OSC bytes, top margin below bottom margin within the screen, charset indices 0 or 1, and every coordinate given to the backend inside the grid |
| Terminal.Context.Putchar | kernel/flanterm/src/flanterm.c:1958-2116 | what one byte prints, calls and changes in every state of the parser: cancelled, in an escape or control sequence, in a command to the operating system, in or interrupting a character, or plain |
| Terminal.Context.Continuation | kernel/flanterm/src/flanterm.c:1983-2035 | the decoder's state after a continuation byte, what is printed, and when a surrogate is reported |
| Terminal.Context.EscapeParse | kernel/flanterm/src/flanterm.c:1112-1207 | the step of any byte after ESC, including a command to the operating system that ESC aborts |
| Terminal.Context.ControlSequence | kernel/flanterm/src/flanterm.c:642-1081 | the step of any byte of a control sequence: numbers, control characters, private sequences, sequences to skip, and the command with its arguments |
| Terminal.Context.Dispatch | kernel/flanterm/src/flanterm.c:747-1074 | every final byte makes exactly the calls and changes of its command |
| Terminal.Context.DecPrivate | kernel/flanterm/src/flanterm.c:457-502 | switches the private modes given, in order, when set or reset is asked for |
| Terminal.Context.Digit | kernel/flanterm/src/flanterm.c:659-675 | a digit extends the open number with the code's 32-bit limits and never adds one beyond the sixteenth |
| Terminal.Context.Separator | kernel/flanterm/src/flanterm.c:677-689 | closes the open number or records an omitted one as zero, up to sixteen |
| Terminal.Context.FillDefaults | kernel/flanterm/src/flanterm.c:691-709 | numbers not given become the command's default; where that is one, so do given zeroes, and all others stay |
| Terminal.Context.RelativeMove | kernel/flanterm/src/flanterm.c:755-794 | the cursor goes to the requested place, clamped to the screen or the margins |
| Terminal.Context.AbsoluteMove | kernel/flanterm/src/flanterm.c:800-846 | the same for commands that name a row or column, counted from the margin in origin mode |
| Terminal.Context.EraseDisplay | kernel/flanterm/src/flanterm.c:896-936 | the calls of CSI J, row by row |
| Terminal.Context.DeleteCharacters | kernel/flanterm/src/flanterm.c:955-972 | the calls of CSI P, which go on as those of CSI X at the cursor the backend reports |
| Terminal.Context.Repeat | kernel/flanterm/src/flanterm.c:1044-1062 | the last character is put as often as asked, at most once per column, each time with room made in insert mode |
| Terminal.Context.SetMargins | kernel/flanterm/src/flanterm.c:1007-1023 | the margins become the requested ones exactly if those leave two rows inside the screen, else the whole screen; where the cursor goes |
| Terminal.Context.ScrollFromRow | kernel/flanterm/src/flanterm.c:847-874 | scrolls from the cursor's row and puts the margin back |
| Terminal.Context.ShiftRight | kernel/flanterm/src/flanterm.c:1945-1956 | which characters are moved where, in which order, all inside their row |
| Terminal.Context.OscParse | kernel/flanterm/src/flanterm.c:556-592 | bytes are stored up to the end of the buffer; BEL, ESC with backslash and an aborting escape end the command |
| Terminal.Context.ExecuteC0 | kernel/flanterm/src/flanterm.c:594-640 | where backspace, tab, line feeds and return move the reported cursor; shift-in and shift-out select the character set |
| Terminal.Context.LineEscape | kernel/flanterm/src/flanterm.c:1168-1194 | the calls of ESC D, E and M at the reported cursor |
| Terminal.Context.SelectCharset | kernel/flanterm/src/flanterm.c:2059-2073 | the named character set is selected for the slot asked for; a control character is not taken for a name |
| Sequences.WriteSequence | kernel/flanterm/src/flanterm.c:1958-2051 | a whole UTF-8 sequence written between others prints its glyph, one replacement, or nothing, as above |
| Sequences.WriteControl | kernel/flanterm/src/flanterm.c:642-1081 | ESC [, any digit lists with semicolons between and a final byte: exactly the command with the numbers the lists are read as, defaults filled in, and between sequences again; with a question mark, or after a cancelled private sequence, exactly the private modes |
| Sequences.WritePosition | kernel/flanterm/src/flanterm.c:824-846 | ESC [ row ; column H goes to that row and column, counted from one |
| Sequences.CancelThenPosition | kernel/flanterm/src/flanterm.c:1959-1969 | after a cancelled private sequence the cursor position command does nothing |
| Sequences.TypeAndRepeat | kernel/flanterm/src/flanterm.c:1044-1062 | a character and CSI n b put it once and n times more, up to a row's length |
| Sequences.SelectAndType | kernel/flanterm/src/flanterm.c:2059-2115 | selecting the DEC graphics for either slot, and deselecting them, decides what is printed while that slot is current |
| Sequences.WriteUnknown | kernel/flanterm/src/flanterm.c:724-738 | a control sequence with an intermediate byte has no effect up to its final byte |
| Sequences.WriteOsc | kernel/flanterm/src/flanterm.c:556-592 | a command to the operating system of any length, ended either way, prints and draws nothing |
| Sequences.Reset | kernel/flanterm/src/flanterm.c:1158-1167 | ESC c: margins, modes, character sets and what is saved are the defaults, and the screen is cleared |
| Sequences.SaveWriteRestore | kernel/flanterm/src/flanterm.c:1084-1110 | ESC 7, any bytes, ESC 8: origin mode, character sets and the cursor on the screen are as before, unless the bytes saved again or ended inside a sequence |

## Left out

- Terminal.Context.Putchar: the font's table of code points and the widths of those it lacks are given; pixels, colours and cursor visibility are not modelled.
- Terminal.Context.ControlSequence: SGR colours, the Linux private sequences and the client callback are not modelled.
- Picture.BlanksInserted: like the other pictures it leaves out wrapping at the end of a row, which these calls never reach.
- LockProgress.EveryWaitCanEnd: assumes the owner releases and interrupts are delivered; it says that a wake-up can always happen, not that a scheduler lets it.
- FieldUnit.Write: region accesses succeed; a failing access in the middle of a field is not modelled, and neither are index, bank and buffer-access fields.
- Vmm.Space.Run: the ranges must not wrap around to a page they already contain.
- Handlers.OpRegions.UninstallHandler: what later operations do with a handler that outlived its uninstall is not followed.
- Handlers.WalkBelow: every node has an object, as the callback demands when it reads the object's type, and the tree is less than 2^32 levels deep.
- Handlers.OpRegions.DeleteRegion: attach and detach callbacks and _REG methods are not modelled.
- SyncLevel.Context.Acquire: serialized-method entry and nested execution contexts are not modelled; one activation per thread.
- `map_multiple_pages` and the direct-map loop of `paging_init`: further loops over `map_page`, which is covered in full.
- The kernel heap, reservation of the frame and lock arrays, RAM totals, TLB invalidation and the randomness of the probe's start: the remaining page list and the starting thread are given.
- The sequence-number wrapper of the global lock and timeouts of its event.
- Waking general purpose events, raw handlers, `uacpi_resume_gpe` in the bookkeeping, and the lifetime of blocks and interrupt contexts.
- Creating nodes while resolving a NameString, and the rest of the AML interpreter, table loading and resource conversion.
- Reference counts of namespace nodes, and namespace read/write locking around callbacks; callbacks do not change the tree they are called on.
- The widths of `size_t` and 32-bit bit counts in field offsets: the model uses unbounded numbers there, while page tables, lock word and bytes are bit vectors of their own width.
- Registers, notifications, operating-system interface strings, interrupts, context switching and assembly.
