# RayNu-V in Dafny

A model of the parts of the RayNu-V hypervisor that keep intricate state, with
proofs of what they promise. `dafny verify dfyconfig.toml` checks all of it.

- **Shared** (`Common`, `Bytes`). Optional results, integer bounds, little-endian
  words.
- **Post-boot heap** (`HeapTiling`, `HeapMemory`, `Heap`). `HeapTiling` is the
  arithmetic of blocks: what tiles the buffer, what is free, what a take and a
  release do. `HeapMemory` says how blocks and the free list lie in bytes. The
  class `Heap` runs on the bytes and is proved to refine the tiling, operation
  by operation, without touching a byte of any live block.
- **Virtio block device** (`GuestMemory`, `VirtioXfer`, `VirtioRequest`,
  `VirtioQueue`). Page-split guest copies, chunked segments, whole requests and
  the queue drain, each proved against the layer below; the result is that a
  clean request is one flat copy, and that the drain serves every published
  entry it can reach and ends on any guest memory.
- **Guest page ownership** (`EptError`, `EptMap`, `EptRanges`). The mapping table refines an
  injective map; the range claims partition the window whatever the order of
  the holes.
- **Emulated arithmetic** (`Bits`, `Alu`, `Rflags`). Rotates round-trip with
  their flags, condition codes mean comparisons, carry chains add and subtract.
- **Interrupt controllers** (`Lapic`, `Pic`). The local APIC's bitmaps are a
  stack of priority classes; the PIC pair does not starve the timer.
- **Guest CD** (`AtapiRead`). One READ over many bursts hands over exactly the
  requested bytes.
- **Audit log** (`AuditChain`, `AuditImage`). The hash chain, its disk image and
  adoption over many boots.
- **Serial auto-answer** (`SerialAnswer`). The reply that erases a disk goes out
  at most once, with leave, and never on a second boot.
- **Frame bump** (`FrameBump`). Racing takers never share a frame.

Machine integers are natural numbers with wrap-around and saturation written
out; RFLAGS and the PIC registers are bit-vectors. State that the code updates
in place is a class whose methods are proved against functions on values.

Several promises turned out to hold only under a condition. Each has a failing
input and the exact condition:

- An over-aligned heap pointer is recognised by `dealloc` unless the bytes 16
  below it hold the header magic (`Heap.Heap.ReturnableIff`,
  `Heap.StaleMagicMisleadsFree`).
- A pointer the heap did not hand out is ignored by `dealloc` exactly when the
  bytes around it lead to no header or to one marked free
  (`Heap.Heap.Dealloc`, `Heap.StrayPointerFrees`, `Heap.FalseHeaderFrees`).
- A virtio segment is served from the right place exactly when every segment
  begins on a sector boundary of the request (`VirtioRequest.RoundingIff`,
  `VirtioRequest.SplitSectorMisplaced`).
- A virtio read answered with success has moved every byte exactly when it ends
  on the disk (`VirtioXfer.Transfer.XferDataSeg`, `VirtioXfer.ReadPastEnd`).
- A virtio write stores the bytes the guest had exactly when the segment is not
  device-writable, or the bounce buffer held the same
  (`VirtioXfer.StoresGuestIff`, `VirtioXfer.WriteFromDevice`).
- A queue size that is too large is ignored exactly when its low byte is no size
  or the current one (`VirtioQueue.LargeSizeIgnoredIff`).
- A READ serves the sectors asked for exactly when every burst starts at a
  32-bit sector number (`AtapiRead.PlanIff`, `AtapiRead.AddressSticks`).
- A burst keeps within the guest's byte limit exactly when the limit admits a
  whole sector (`AtapiRead.WithinLimitIff`, `AtapiRead.SmallLimitExceeded`).
- The frame bump stays in its span exactly when the span does not touch the top
  of the address space (`FrameBump.InsideIff`, `FrameBump.TopFrameOutside`).

The image comments in `audit/persist.rs` speak of a stored record hash; the
code stores none and recomputes it, and so does the model.

## Model

| member | source | states |
|---|---|---|
| `HeapTiling.ExactTiling` | boot/post_ebs_heap.rs:69-296 | every byte below the bump lies in exactly one block |
| `HeapTiling.ApplyKeeps` | boot/post_ebs_heap.rs:69-120 | every alloc or free keeps the whole invariant: blocks tile [0, bump), sizes are multiples of 16 and at least 32, no two free blocks touch, the last block is live, the free list holds each free block once, bump = live + free bytes, pointers stay inside their blocks |
| `HeapTiling.Run` | boot/post_ebs_heap.rs:69-120 | that invariant holds after any sequence of operations |
| `HeapTiling.RefusedIff` | boot/post_ebs_heap.rs:69-89 | null is returned exactly for layouts over the limits or when no free block fits and the tail is too short; a refusal changes nothing |
| `HeapTiling.GrantMeaning` | boot/post_ebs_heap.rs:69-89 | a granted payload is aligned, lies between its block's header and footer, was nobody's, is disjoint from every other block; other live blocks are unchanged |
| `HeapTiling.GivingAllBack` | boot/post_ebs_heap.rs:92-120 | freeing all live blocks in any order gives the empty heap: bump, live and free list back to zero |
| `HeapTiling.ReleaseKeeps` | boot/post_ebs_heap.rs:288-296 | coalescing with either neighbour, then rewinding the bump or pushing on the free list, keeps the invariant |
| `HeapTiling.TakeFreeKeeps` | boot/post_ebs_heap.rs:122-171 | first-fit take with split keeps the invariant |
| `HeapTiling.TakeBumpKeeps` | boot/post_ebs_heap.rs:145-153 | bump take keeps the invariant |
| `HeapTiling.FirstFit` | boot/post_ebs_heap.rs:122-143 | the walk stops at the first free block that is big enough |
| `HeapTiling.NeighboursKnown` | boot/post_ebs_heap.rs:232-263 | at most one free neighbour on each side, and they are what the footer and header lookups must find |
| `HeapTiling.BlockNeed` | boot/post_ebs_heap.rs:299-314 | room for header, aligned payload and footer, a multiple of 16, at least 32 |
| `HeapTiling.AlignUp` | boot/post_ebs_heap.rs:316-319 | least multiple at or above the address |
| `HeapTiling.UserOf` | boot/post_ebs_heap.rs:175-187 | the payload is aligned and leaves the header and, for larger alignments, the back pointer clear |
| `HeapTiling.UserAligned` | boot/post_ebs_heap.rs:175-187 | for every power-of-two alignment the payload lies on a 16-byte boundary |
| `HeapMemory.WriteBlockWords` | boot/post_ebs_heap.rs:329-339 | header and footer words read back, and nothing else in memory moves |
| `HeapMemory.BypassChain` | boot/post_ebs_heap.rs:265-284 | relinking one pointer removes exactly that node from the threaded list |
| `Heap.UnlinkThreaded` | boot/post_ebs_heap.rs:265-284 | unlinking in memory refines removal from the abstract list |
| `Heap.PushThreaded` | boot/post_ebs_heap.rs:288-296 | pushing in memory refines insertion at the head |
| `Heap.ReleaseThreaded` | boot/post_ebs_heap.rs:92-120 | the bytes after a merge and release represent the abstract release |
| `Heap.TakenThreaded` | boot/post_ebs_heap.rs:122-171 | the bytes after unlink and split represent the abstract take |
| `Heap.Heap.constructor` | boot/post_ebs_heap.rs:45-54 | an aligned empty heap |
| `Heap.Heap.FreePrev` | boot/post_ebs_heap.rs:232-248 | by the footer below; finds the free left neighbour of a block exactly when there is one |
| `Heap.Heap.FreeNext` | boot/post_ebs_heap.rs:252-263 | by the header there; finds the free right neighbour of a block exactly when there is one |
| `Heap.Heap.Unlink` | boot/post_ebs_heap.rs:265-284 | the walk removes the node at any position and leaves the list alone when it is not there |
| `Heap.Heap.Split` | boot/post_ebs_heap.rs:160-171 | splits off a free remainder exactly when it can hold a block |
| `Heap.Heap.TakeFree` | boot/post_ebs_heap.rs:122-143 | refines the first-fit take; no byte of a live block changes |
| `Heap.Heap.TakeBump` | boot/post_ebs_heap.rs:145-153 | refines the bump take |
| `Heap.Heap.Claim` | boot/post_ebs_heap.rs:175-187 | writes header, footer and back pointer; the payload is as found |
| `Heap.Heap.Alloc` | boot/post_ebs_heap.rs:69-89 | refines the abstract operation for every layout; null exactly when it refuses; every byte of every live block unchanged |
| `Heap.Heap.HeaderOkAt` | boot/post_ebs_heap.rs:213-222 | the header test passes at every block |
| `Heap.Heap.BlockOfLive` | boot/post_ebs_heap.rs:189-211 | what the lookup reads below a live pointer, and that it can read it |
| `Heap.Heap.ReturnableIff` | boot/post_ebs_heap.rs:189-211 | a live pointer is recognised if and only if it directly follows its header or the four bytes 16 below it are not the magic number (or the back pointer is too small to pass for a size) |
| `Heap.StaleMagicMisleadsFree` | boot/post_ebs_heap.rs:189-211 | a reachable over-aligned pointer that free does not recognise |
| `Heap.Heap.ReleaseBlock` | boot/post_ebs_heap.rs:288-296 | rewinds the bump or pushes the block |
| `Heap.Heap.Detach` | boot/post_ebs_heap.rs:92-120 | unlinks both free neighbours |
| `Heap.Heap.Dealloc` | boot/post_ebs_heap.rs:92-120 | for every pointer: ignored exactly when the bytes around it lead to no header or to one marked free, otherwise the live count drops by the size found there; when they lead to a block of the heap, refines the abstract free of that block with every byte of every block still live unchanged |
| `Heap.Heap.ReleaseAt` | boot/post_ebs_heap.rs:92-120 | releases what a header describes; for a live block refines the abstract free in bytes |
| `Heap.Heap.SomethingLive` | boot/post_ebs_heap.rs:92-120 | wherever a header can be found something is live, so the count does drop |
| `Heap.Heap.FreeAll` | boot/post_ebs_heap.rs:92-120 | giving back every live pointer in any order, each recognised, leaves the bytes an empty heap: bump, live and free head zero |
| `Heap.Heap.StaysReturnable` | boot/post_ebs_heap.rs:189-211 | a pointer stays recognised while the bytes of its block do not change |
| `Heap.StrayPointerFrees` | boot/post_ebs_heap.rs:91-120 | a foreign pointer above the word of a live block address frees that block |
| `Heap.FalseHeaderFrees` | boot/post_ebs_heap.rs:91-120 | a reachable pointer that leads to no block, only to bytes that pass for a header, counts off live bytes and breaks the heap |
| `Heap.Heap.UserWrite` | boot/post_ebs_heap.rs:122-187 | a caller writing inside its payload disturbs no metadata and no other block |
| `GuestMemory.HostInjective` | devices/guest_virtio_blk.rs:1754-1778 | under a translation that keeps pages apart, distinct guest bytes are distinct host bytes |
| `GuestMemory.GuestRam.ReadBytes` | devices/guest_virtio_blk.rs:1758-1778 | page-split read: succeeds iff every page is mapped, then equals the flat guest bytes; on failure exactly the mapped prefix was read |
| `GuestMemory.GuestRam.WriteBytes` | devices/guest_virtio_blk.rs:1780-1799 | page-split write: succeeds iff mapped; writes exactly the bytes before the first missing page and no others |
| `VirtioXfer.Transfer.SectorRw` | devices/guest_virtio_blk.rs:1461-1479 | flat sector transfer on the DRAM disk: exactly the bytes that exist, in either direction, or an error |
| `VirtioXfer.Transfer.MoveChunk` | devices/guest_virtio_blk.rs:1823-1867 | one bounce-buffer chunk between guest and disk, byte by byte, in all four direction combinations |
| `VirtioXfer.Transfer.XferDataSeg` | devices/guest_virtio_blk.rs:1823-1867 | the chunked segment transfer, byte by byte, in all four direction combinations, with the failure cases; past the end of the disk an IN, and anywhere a device-writable OUT, delivers what the bounce buffer held |
| `VirtioXfer.ReadPastEnd` | devices/guest_virtio_blk.rs:1461-1479 | 1024 bytes read from a 512-byte disk succeed, the second half stale |
| `VirtioXfer.WriteFromDevice` | devices/guest_virtio_blk.rs:1823-1867 | a device-writable segment of an OUT succeeds and puts stale bytes on disk and in the guest |
| `VirtioXfer.StoresGuestIff` | devices/guest_virtio_blk.rs:1823-1867 | an OUT stores the bytes the guest had iff the segment is not device-writable or the bounce buffer held the same |
| `VirtioRequest.Server.ServeSegs` | devices/guest_virtio_blk.rs:1967-1990 | status is OK iff every segment can be served; guest memory outside the segments and disk outside the stretch are untouched; after a read every device-writable segment matches the disk, after a write every segment does, in mixed requests too |
| `VirtioRequest.MovedMatches` | devices/guest_virtio_blk.rs:1967-1990 | a segment that has been moved matches the disk |
| `VirtioRequest.FlatCopy` | devices/guest_virtio_blk.rs:1967-1990 | the segments read one after the other are a prefix of the requested disk bytes |
| `VirtioRequest.RequestIsFlat` | devices/guest_virtio_blk.rs:1967-1990 | segments that match one by one are together exactly the requested disk bytes |
| `VirtioRequest.RoundingIff` | devices/guest_virtio_blk.rs:1823-1867 | every segment is served from its own place if and only if every segment begins on a sector boundary |
| `VirtioRequest.SplitSectorMisplaced` | devices/guest_virtio_blk.rs:1823-1867 | a sector split over two segments is served from the wrong place |
| `VirtioQueue.Advance` | devices/guest_virtio_blk.rs:1869-1895 | the 16-bit distance to the published index falls by one per request |
| `VirtioQueue.WalkFrom` | devices/guest_virtio_blk.rs:1896-1934 | any chain, cyclic or not, is read in at most qsize + 1 descriptors |
| `VirtioQueue.WalkWellFormed` | devices/guest_virtio_blk.rs:1896-1936 | for a well-formed chain the walk returns exactly its header, data segments and status address |
| `VirtioQueue.Queue.constructor` | devices/guest_virtio_blk.rs:1313-1323 | indices equal after construction |
| `VirtioQueue.Queue.WriteByte` | devices/guest_virtio_blk.rs:1293-1355 | one byte into the window: selectors, features, status with its reset of indices, enable, notification and ISR, sizes judged byte by byte, addresses merged |
| `VirtioQueue.Queue.WriteConfig` | devices/guest_virtio_blk.rs:1357-1378 | a store of any size is its bytes, low first |
| `VirtioQueue.Queue.WriteMmio` | devices/guest_virtio_blk.rs:1357-1383 | the window or the notify register |
| `VirtioQueue.RingsWritten` | devices/guest_virtio_blk.rs:1341-1352 | a store into the ring addresses, at any offset and size, puts exactly its bytes there |
| `VirtioQueue.SizeWritten` | devices/guest_virtio_blk.rs:1328-1336 | a 16-bit queue size takes its low byte if that is a size and is ignored otherwise |
| `VirtioQueue.LargeSizeIgnoredIff` | devices/guest_virtio_blk.rs:1328-1336 | a size over the maximum is ignored iff its low byte is no size or the current one; 0x140 sets 64 |
| `VirtioQueue.Queue.WalkChain` | devices/guest_virtio_blk.rs:1896-1934 | the loop computes the walk |
| `VirtioQueue.Queue.Publish` | devices/guest_virtio_blk.rs:2005-2019 | the used element and index read back as head, length and next index |
| `VirtioQueue.Queue.Complete` | devices/guest_virtio_blk.rs:1998-2021 | status byte then used entry; a missing page advances neither index |
| `VirtioQueue.Queue.ServeId` | devices/guest_virtio_blk.rs:1943-1964 | succeeds iff the writable segments are mapped; then each of them holds zeros |
| `VirtioQueue.Queue.Dispatch` | devices/guest_virtio_blk.rs:1935-1997 | the status is the verdict for every request type, refusals and identity included; what memory and disk hold for each; nothing else changes |
| `VirtioQueue.Queue.Execute` | devices/guest_virtio_blk.rs:1935-2022 | published iff the pages are there; guest memory outside the segments, status and ring and disk outside the stretch unchanged; the status byte tells the verdict; a clean transfer is one flat copy with the right used length |
| `VirtioQueue.Queue.ServeOne` | devices/guest_virtio_blk.rs:1869-2030 | the same for the request that the next avail entry names; otherwise neither index moves |
| `VirtioQueue.Queue.ServeChain` | devices/guest_virtio_blk.rs:1869-2030 | for a well-formed chain the request served is the one its descriptors spell |
| `VirtioQueue.Queue.Drain` | devices/guest_virtio_blk.rs:1869-2030 | terminates for arbitrary guest memory; every entry up to the stop is served in order, snapshot by snapshot, used entry k naming the head of avail entry k; it stops short of the published index only at an entry whose pages are missing |
| `VirtioQueue.Queue.DrainDisk` | devices/guest_virtio_blk.rs:2083-2142 | takes the notification, drains an enabled queue, sets the ISR and raises the line exactly when notified or something was served |
| `EptMap.ViewExclusive` | memory/ept.rs:137-240 | a duplicate-free table is an injective map from guest page to frame |
| `EptMap.RunExclusive` | memory/ept.rs:137-201 | injectivity holds after every run of map, unmap and transfer |
| `EptMap.TransferIsUnmapThenMap` | memory/ept.rs:544-570 | a transfer is an unmap then a map, or nothing |
| `EptMap.TransferKeepsFrames` | memory/ept.rs:544-570 | frames are neither lost nor duplicated by a transfer |
| `EptMap.Registry.constructor` | memory/ept.rs:115-120 | the empty registry |
| `EptMap.Registry.Map` | memory/ept.rs:137-170 | refines map insertion with every error case |
| `EptMap.Registry.Unmap` | memory/ept.rs:179-201 | refines removal and returns the frame |
| `EptMap.Registry.OwnerOf` | memory/ept.rs:203-209 | the guest of a frame, if any |
| `EptMap.Registry.OwnerOfGpa` | memory/ept.rs:211-218 | the frame of a guest page, if any |
| `EptMap.Registry.CheckInvariants` | memory/ept.rs:221-240 | true if and only if the table is duplicate-free and its length is right |
| `EptMap.Registry.TransferPage` | memory/ept.rs:544-570 | moves exactly one page or leaves the abstract map as it was; the restore branch is unreachable |
| `EptRanges.SweepIff` | memory/ept.rs:334-413 | a sorted list is accepted iff its holes are proper, in order and need at most 16 ranges; then the ranges tile the window |
| `EptRanges.SweepPartition` | memory/ept.rs:334-413 | each hole is a range of its guest; every other range is G0's and clear of the holes |
| `EptRanges.Ownership` | memory/ept.rs:334-413 | each address lies in exactly one range, owned by the hole's guest or by G0; all guest RAM is G0's |
| `EptRanges.InOrderIff` | memory/ept.rs:334-413 | for sorted proper holes, in order means pairwise disjoint |
| `EptRanges.SortedOnce` | memory/ept.rs:334-413 | strictly increasing holes have no other sorted arrangement |
| `EptRanges.OrderIndependent` | memory/ept.rs:334-413 | acceptance and the resulting ranges do not depend on the order of the list |
| `EptRanges.PiecesBound` | memory/ept.rs:334-413 | n holes need at most 2n + 1 ranges, and that many exactly when there is a gap at every turn |
| `EptRanges.OutOfRangesIff` | memory/ept.rs:334-413 | up to eight holes run out of ranges exactly when there are eight with a gap at every turn |
| `EptRanges.RechecksHold` | memory/ept.rs:394-413 | after an accepted sweep every final lookup succeeds |
| `EptRanges.RangeMap.constructor` | memory/ept.rs:264-269 | no range claimed |
| `EptRanges.RangeMap.ClaimRange` | memory/ept.rs:276-303 | refines the claim with every error case |
| `EptRanges.RangeMap.ContainsGpa` | memory/ept.rs:305-309 | some range of the guest holds the address |
| `EptRanges.SortHoles` | memory/ept.rs:334-413 | sorts in place, a permutation |
| `EptRanges.ClaimHole` | memory/ept.rs:350-392 | one step of the sweep, error by error |
| `EptRanges.ClaimPrecise` | memory/ept.rs:334-413 | the whole operation is the sweep of the sorted list |
| `EptRanges.Recheck` | memory/ept.rs:394-413 | the final lookups, exactly |
| `Alu.TurnedIsRotL` | devices/guest_virtio_blk.rs:2734-2801 | the shift-or form is a left rotation |
| `Alu.UnturnedIsRotR` | devices/guest_virtio_blk.rs:2734-2801 | the shift-or form is a right rotation |
| `Alu.RolThenRor` | devices/guest_virtio_blk.rs:2734-2801 | ROL then ROR restores the value at every width, count and carry |
| `Alu.RclIsRotL` | devices/guest_virtio_blk.rs:2734-2801 | RCL is a left rotation of operand and carry together |
| `Alu.RcrIsRotR` | devices/guest_virtio_blk.rs:2734-2801 | RCR is a right rotation of operand and carry together |
| `Alu.RclThenRcr` | devices/guest_virtio_blk.rs:2734-2801 | RCL then RCR restores value and carry at every width, count and carry |
| `Rflags.RotateThroughCarryRoundTrip` | devices/guest_virtio_blk.rs:2804-2897 | the same with the carry taken from the computed RFLAGS |
| `Rflags.TestFlagBits` | devices/guest_virtio_blk.rs:2591-2611 | ZF, SF and PF say what they mean; CF, OF and AF clear, bit 1 set, all other bits kept |
| `Rflags.CmpFlagBits` | devices/guest_virtio_blk.rs:2613-2631 | CF is the unsigned borrow, OF says that the signed difference does not fit, ZF, SF and PF describe the difference |
| `Rflags.CompareCodes` | devices/guest_virtio_blk.rs:2542-2570 | E/NE, B/AE/BE/A and L/GE/LE/G are taken exactly on the matching equality, unsigned and two's-complement comparison |
| `Rflags.AdcLimb` | devices/guest_virtio_blk.rs:2667-2684 | operands plus carry in = result plus carry out times 2^width |
| `Rflags.AdcOverflow` | devices/guest_virtio_blk.rs:2667-2684 | OF iff the signed sum does not fit |
| `Rflags.SbbLimb` | devices/guest_virtio_blk.rs:2686-2703 | the borrow counterpart |
| `Rflags.SbbOverflow` | devices/guest_virtio_blk.rs:2686-2703 | OF iff the signed difference does not fit |
| `Rflags.AdcChainAdds` | devices/guest_virtio_blk.rs:2667-2684 | a chain of ADC limbs adds numbers of any length |
| `Rflags.SbbChainSubtracts` | devices/guest_virtio_blk.rs:2686-2703 | a chain of SBB limbs subtracts numbers of any length |
| `Lapic.StepStacks` | devices/lapic_virt.rs:211-274 | every event keeps the in-service set a stack of strictly rising priority classes; a take pushes above all of it; EOI pops the last taken |
| `Lapic.RunStacks` | devices/lapic_virt.rs:211-274 | so in every run |
| `Lapic.EoiPops` | devices/lapic_virt.rs:337-342 | EOI retires exactly the most recently taken vector |
| `Lapic.FifteenDeep` | devices/lapic_virt.rs:259-274 | at most 15 vectors in service |
| `Lapic.ForcedTakeIff` | devices/lapic_virt.rs:580-584 | a take that ignores priority nests iff it is above the latest delivery; otherwise the EOI retires that one in its place |
| `Lapic.ViewSet` | devices/lapic_virt.rs:126-132 | setting a bit of the eight words adds one vector |
| `Lapic.ViewClear` | devices/lapic_virt.rs:134-140 | clearing removes one |
| `Lapic.HighestBit` | devices/lapic_virt.rs:142-154 | the greatest vector of the set, or none |
| `Lapic.Apic.constructor` | devices/lapic_virt.rs:701-728 | nothing requested or in service |
| `Lapic.Apic.LatchIrr` | devices/lapic_virt.rs:253-257 | adds a request, refusing vectors below 16 |
| `Lapic.Apic.FireTimer` | devices/lapic_virt.rs:522-548 | requests the noted vector iff the timer was armed and still may deliver; a periodic timer starts over |
| `Lapic.Apic.ArmTimer` | devices/lapic_virt.rs:292-300 | notes the vector while the timer runs, may deliver and has a nonzero count |
| `Lapic.Apic.StartCountdown` | devices/lapic_virt.rs:370-384 | starts the countdown; zero cancels it |
| `Lapic.Apic.PollTimer` | devices/lapic_virt.rs:420-433 | fires exactly when the countdown has run out |
| `Lapic.Apic.WriteSvr` | devices/lapic_virt.rs:392-395 | arms the timer when enabling lets it deliver |
| `Lapic.Apic.WriteLvt` | devices/lapic_virt.rs:396-399 | the same for the timer entry |
| `Lapic.ExpiredIffZero` | devices/lapic_virt.rs:315-335 | a one-shot timer has expired iff its count reads zero; a periodic one never reads zero |
| `Lapic.FiresOnce` | devices/lapic_virt.rs:522-548 | a fire disarms a one-shot for good and re-arms a periodic timer with its current vector |
| `Lapic.Apic.AcceptIcrLow` | devices/lapic_virt.rs:172-193 | self-directed fixed interrupts become requests |
| `Lapic.Apic.PriorityClass` | devices/lapic_virt.rs:259-274 | the larger of task priority and highest in service |
| `Lapic.Apic.TakeDeliverable` | devices/lapic_virt.rs:550-578 | the highest request, iff its class is above the threshold |
| `Lapic.Apic.TakeIrrVec` | devices/lapic_virt.rs:589-614 | one named vector, same rule |
| `Lapic.Apic.TakeSelfIpi` | devices/lapic_virt.rs:211-226 | the highest self-IPI, same rule |
| `Lapic.Apic.HandleEoi` | devices/lapic_virt.rs:337-342 | removes the highest in service |
| `Pic.NeverStarved` | devices/guest_irq.rs:849-960 | in every stretch of every run from reset in which the timer asks at each take, IRQ 11 is taken at most three times in a row without IRQ 0 |
| `Pic.AtMostThree` | devices/guest_irq.rs:849-960 | the inductive form, from any latch state |
| `Pic.AtMostOne` | devices/guest_irq.rs:914-943 | at most once before the boot media is mounted |
| `Pic.ThreeHappens` | devices/guest_irq.rs:914-943 | three in a row does occur |
| `Pic.TakeCovers` | devices/guest_irq.rs:849-943 | while a timer take is owed the virtio line is not chosen, and something always is |
| `Pic.RunCounts` | devices/guest_irq.rs:925-938 | the take counter never reaches three |
| `Pic.DeliversOnlyRequests` | devices/guest_irq.rs:849-960 | a delivered line was requested, unmasked and not in service; the cascade never is delivered |
| `Pic.TakeThenEoi` | devices/guest_irq.rs:914-960 | a take acknowledged by specific EOIs restores the in-service registers of both controllers, whatever is nested |
| `Pic.PlainEoiIff` | devices/guest_irq.rs:1047-1061 | a plain EOI does so for a master line iff nothing of higher priority was in service |
| `Pic.RaiseLowerIff` | devices/guest_irq.rs:423-447 | raising then lowering a line restores the chip; for a slave line iff the cascade was up exactly for the requests waiting |
| `Pic.Initialised` | devices/guest_irq.rs:1063-1105 | what the initialisation words leave, and when the controller is ready |
| `Pic.Lowest` | devices/guest_irq.rs:849-903 | the lowest set line |
| `Pic.IrqChip.constructor` | devices/guest_irq.rs:81-94 | idle controllers |
| `Pic.IrqChip.RaiseLine` | devices/guest_irq.rs:414-436 | refines raise |
| `Pic.IrqChip.LowerLine` | devices/guest_irq.rs:438-447 | refines lower |
| `Pic.IrqChip.PendingLine` | devices/guest_irq.rs:849-903 | refines the choice of line |
| `Pic.IrqChip.TakeLine` | devices/guest_irq.rs:914-960 | refines take; the vector wraps at a byte |
| `Pic.IrqChip.WriteCommand` | devices/guest_irq.rs:1063-1082 | the register writes of ICW1, OCW2 and OCW3 refine the command step |
| `Pic.IrqChip.WriteData` | devices/guest_irq.rs:1084-1105 | the register writes of ICW2 to ICW4 and the mask refine the data step |
| `AtapiRead.PlanIff` | devices/ide_cdrom.rs:1866-1941 | the sectors served are the requested run iff every burst starts at a 32-bit address |
| `AtapiRead.ReadIsFlat` | devices/ide_cdrom.rs:1866-1941 | then the bytes are exactly the requested ones, in order |
| `AtapiRead.AddressSticks` | devices/ide_cdrom.rs:1918-1936 | a read across the last 32-bit sector is accepted and owes other bytes than were asked for |
| `AtapiRead.StuckPlan` | devices/ide_cdrom.rs:1918-1936 | its last burst is the last addressable sector again |
| `AtapiRead.WithinLimitIff` | devices/ide_cdrom.rs:1889-1903 | a burst keeps within the guest's byte limit iff the limit admits a sector |
| `AtapiRead.SmallLimitExceeded` | devices/ide_cdrom.rs:1889-1903 | a limit of 512 gets bursts of 2048 |
| `AtapiRead.Sectors` | devices/ide_cdrom.rs:1894-1899 | 1 to 31 sectors a burst |
| `AtapiRead.CdMedia.PacketOk` | devices/ide_cdrom.rs:1792-1800 | idle, ready, interrupt reason 3 |
| `AtapiRead.CdMedia.PacketError` | devices/ide_cdrom.rs:1802-1812 | idle, failed, sense recorded |
| `AtapiRead.CdMedia.BeginPacketData` | devices/ide_cdrom.rs:1814-1832 | the cylinder registers give the burst's true length |
| `AtapiRead.CdMedia.LoadSectors` | devices/ide_cdrom.rs:1866-1881 | accepted iff in range; what remains to be read is the plan |
| `AtapiRead.CdMedia.FillReadDrq` | devices/ide_cdrom.rs:1889-1941 | loading a burst leaves what is owed unchanged; its own range test cannot fail |
| `AtapiRead.CdMedia.StartPacket` | devices/ide_cdrom.rs:2170-2182 | waits for a command block, byte limit noted |
| `AtapiRead.CdMedia.FinishPacket` | devices/ide_cdrom.rs:1966-2074 | the whole reply to a complete command block, the informing answers byte by byte |
| `AtapiRead.CapacityIsLast` | devices/ide_cdrom.rs:1992-2002 | READ CAPACITY tells exactly the last sector the medium has |
| `AtapiRead.CdMedia.WriteData` | devices/ide_cdrom.rs:2257-2271 | bytes fill the block in order; the twelfth runs it |
| `AtapiRead.CdMedia.ReadData` | devices/ide_cdrom.rs:2229-2255 | the next bytes owed, in order, none lost or repeated; the last completes the command |
| `AtapiRead.CdMedia.EndBurst` | devices/ide_cdrom.rs:2240-2253 | the next burst or completion |
| `AtapiRead.Read` | devices/ide_cdrom.rs:2284-2314 | a whole READ at width 1, 2 or 4 under any byte limit gets exactly count sectors, then DRQ clears with reason 3; out of range is refused |
| `AuditChain.MultiplyInverse` | audit/integrity.rs:592-600 | the hash multiplier is invertible modulo 2^64 |
| `AuditChain.HashInjective` | audit/integrity.rs:592-600 | the hash is injective in each of sequence number, kind and previous hash |
| `AuditChain.OneKindMovesTheTip` | audit/integrity.rs:592-600 | replacing one entry's kind changes the tip |
| `AuditChain.VerifiedIff` | audit/integrity.rs:520-535 | a log numbered from zero verifies iff it is what appending its events builds |
| `AuditChain.ChangedRecordFails` | audit/integrity.rs:520-535 | a change of number, kind, previous hash or hash in any one record is noticed |
| `AuditChain.PayloadUnnoticed` | audit/integrity.rs:520-535 | a changed payload is not: the hash does not cover it |
| `AuditChain.SealedGrows` | audit/integrity.rs:494-513 | appending extends an intact chain |
| `AuditChain.AuditRing.constructor` | audit/integrity.rs:465-472 | the empty chain |
| `AuditChain.AuditRing.Append` | audit/integrity.rs:494-513 | fails iff full; keeps the chain intact |
| `AuditChain.AuditRing.VerifyChain` | audit/integrity.rs:520-535 | true iff every link matches |
| `AuditChain.AuditRing.TamperHashAt` | audit/integrity.rs:572-582 | breaks a verified chain |
| `AuditImage.EncodeRing` | audit/persist.rs:24-52 | writes the one image of the log; false iff the buffer is short |
| `AuditImage.DecodeRing` | audit/persist.rs:61-95 | succeeds iff magic, version, checksum, count, every record and the tip agree; then an intact chain |
| `AuditImage.RoundTrip` | audit/persist.rs:24-95 | decoding the image of an intact log gives its events with zeroed payloads |
| `AuditImage.Checksum` | audit/persist.rs:159-163 | the byte sum |
| `AuditImage.AdoptImage` | audit/integrity.rs:540-559 | succeeds iff the image decodes and fits; otherwise the ring is unchanged |
| `AuditImage.RecordAll` | audit/integrity.rs:715-716 | events are recorded until the log is full, the rest dropped |
| `AuditImage.NextBoot` | audit/integrity.rs:540-559 | one boot: image of the last log, own events, adoption, further events |
| `AuditImage.HistoryKinds` | audit/integrity.rs:540-559 | while everything fits, the kinds over many boots are the concatenation |
| `AuditImage.Boots` | audit/integrity.rs:540-559 | any number of boots, each adopting the last image where it fits, end in one verified chain numbered 0 to n-1 over the history; over all kinds while everything fits |
| `SerialAnswer.WindowDecides` | devices/guest_serial_answer.rs:207-212 | the 48-byte window ends with a prompt exactly when the whole stream does |
| `SerialAnswer.WindowSlides` | devices/guest_serial_answer.rs:353-360 | sliding a byte in keeps the window the last 48 bytes |
| `SerialAnswer.SeenOnce` | devices/guest_serial_answer.rs:214-219 | a needle occurs in the stream exactly when it was seen in the window at some byte |
| `SerialAnswer.ReactDraws` | devices/guest_serial_answer.rs:290-445 | when each counted reply is drawn and what it costs |
| `SerialAnswer.SessionCareful` | devices/guest_serial_answer.rs:290-445 | between resets: SETUP at most once and only with the policy's leave at that byte, "y" at most four times and only after SETUP, reboot at most once; never both SETUP and the note that it was withheld |
| `SerialAnswer.SecondBootNeverErases` | devices/guest_serial_answer.rs:176-200 | once the second boot has begun no reset re-arms SETUP |
| `SerialAnswer.Answerer.constructor` | devices/guest_serial_answer.rs:123-131 | fresh state |
| `SerialAnswer.Answerer.Reset` | devices/guest_serial_answer.rs:176-194 | everything but the second-boot mark |
| `SerialAnswer.Answerer.BeginSecondBoot` | devices/guest_serial_answer.rs:197-200 | reset and mark |
| `SerialAnswer.Answerer.Push` | devices/guest_serial_answer.rs:353-360 | the window follows the stream |
| `SerialAnswer.Answerer.EndsWith` | devices/guest_serial_answer.rs:207-212 | true iff the stream ends with the needle |
| `SerialAnswer.Answerer.MarkProgress` | devices/guest_serial_answer.rs:361-375 | the mounted and overlay marks are set exactly when the stream since the reset has shown their needles |
| `SerialAnswer.Answerer.Enqueue` | devices/guest_serial_answer.rs:338-347 | appends as much as fits |
| `SerialAnswer.Answerer.TakeRx` | devices/guest_serial_answer.rs:448-458 | first in, first out |
| `SerialAnswer.Answerer.WithholdOrSetup` | devices/guest_serial_answer.rs:290-311 | refines the policy decision |
| `SerialAnswer.Answerer.TakeWithheld` | devices/guest_serial_answer.rs:314-335 | the note is handed over once |
| `SerialAnswer.Answerer.NoteTx` | devices/guest_serial_answer.rs:350-445 | refines one step of the machine over the whole stream, keeps the progress marks, and queues the reply |
| `FrameBump.Seed` | boot/handoff.rs:43-57 | aligned start, or nothing |
| `FrameBump.InsideIff` | boot/handoff.rs:43-57 | every frame lies in the seeded span iff the span does not touch the top of the address space |
| `FrameBump.TopFrameOutside` | boot/handoff.rs:43-76 | a span at the top of the address space from which the second take is outside |
| `FrameBump.Capped` | boot/handoff.rs:43-57 | no frame 2 GiB or more above the first |
| `FrameBump.RunKeeps` | boot/handoff.rs:59-76 | over every interleaving the grants are the first frames, one each, in order |
| `FrameBump.OutcomeMeans` | boot/handoff.rs:59-76 | a failed exchange means another taker succeeded; None means less than a frame is left |
| `FrameBump.FramesExclusive` | boot/handoff.rs:43-76 | frames are aligned, pairwise disjoint, capped and inside the span |

## Left out

- Heap.Heap.Dealloc: after a false header was taken for a block only the counts are promised, because the stores then go wherever its size says; stores outside the buffer are not modelled, and the word below a pointer outside it is a parameter
- Heap.Heap.Alloc: the checked additions of `Layout` sizes are not modelled, because a layout's size is below 2^63 and they cannot fail
- VirtioQueue.Queue.Dispatch: the flush backend's answer is a parameter
- VirtioXfer.Transfer.SectorRw: only the DRAM disk; the durable-LUN, MegaRAID and ISO backends are not modelled
- VirtioQueue.Queue.WriteMmio: the stores before the queues are armed, which are dropped, are not modelled
- GuestMemory.GuestRam.ReadBytes: the page translation is a fixed partial map for the length of one drain; that no two guest pages share a host page is part of its validity
- AtapiRead.CdMedia.FillReadDrq: the medium is one byte string; the ISO library and the retained product window are not told apart, and a failing library read is not modelled
- AtapiRead.Read: other ATA commands between PACKET and the last data byte, device reset and IDENTIFY are not modelled; the interrupt line is not
- Lapic.Apic.FireTimer: the TSC is a parameter of every call that reads it; the idle relatch and the forced firmware expiry are the same request event
- Lapic.Apic.HandleEoi: the notice to the I/O APIC is not modelled
- Pic.IrqChip.TakeLine: the telemetry counters, the I/O APIC path and the lock are not modelled; whether the boot media is mounted is an input of each take
- AuditChain.AuditRing.Append: an event is its kind and one opaque payload; the 81 payload layouts are not modelled
- AuditImage.Boots: the staging sectors and their flush are not modelled; a blank disk on the first boot is the empty log's image
- SerialAnswer.Answerer.NoteTx: the wording of the replies is a parameter; the usbdelay clock is not modelled
- SerialAnswer.Answerer.WithholdOrSetup: the quiet, guest-ISO and wipe policies are inputs at every byte
- FrameBump.RunKeeps: interleaving is sequentially consistent; a second seed during a race is not modelled
- EptRanges.ClaimPrecise: the `PRECISE_RANGES_OK` flag is not modelled
- The remaining instruction emulation (shifts, double shifts, multiply, divide, string and stack forms) is left out: it would add easy members
- Boot, VM entry and exit, MSR and port access, USB, NVMe and network drivers, the management plane and reports are not part of this model
