# Alpha kernel core, modelled and proved

A Dafny model of the hard parts of the Alpha port in a Linux 2.6.32.2 tree (`arch/alpha`),
with the properties those parts exist for.

- **The PCI IOMMU arena** (`Arena`, `TlbCoherence`, `DmaMapping`, `ScatterSpec`, `ScatterGather`,
  `DmaSteps`, `DeviceView`, `EmptyMapping`, `AgpGart`, `TitanFlush`). A table of page-table entries
  under a next-fit search, a chip-side buffer that is flushed lazily, single mappings, scatter lists
  that are merged and compacted in place over themselves, and the AGP aperture that shares the table.
  The arena, the hose and the scatter list are classes whose methods are proved against functions of
  their state, and against what the device can use: its mask, its segment size and its segment
  boundary. The lazy flush and the AGP protocol are proved over all runs, and `DeviceView` joins them
  end to end: what a device reads through the chip's buffer from mapping to unmap.
- **The module loader** (`ByteMemory`, `Relocation`, `RelocationMeaning`, `GotNumbering`,
  `ModuleLoad`). GOT slots per (symbol, addend) pair packed into the relocation's type word, what
  each relocation type means, and the whole load: it succeeds exactly if every relocation fits, every
  LITERAL ends up addressing its own value, and every other patch reads as it should.
- **Two concurrent protocols** (`Ipi` with `IpiProgress`, `DecAndLock`), as steps over any number of
  CPUs and threads: safety over all runs, and that calls can come to their end.
- **Loops over arithmetic** (`BootMemory`, `UnmappedArea`, `ResourceAlign`, `WideIo`, `Console`).

`Arith` holds the shared page, alignment and 64-bit arithmetic. `dafny verify dfyconfig.toml`
checks the project.

## What the proofs say about the code

Where code, comment and intent differ, the model follows the code.

- The flush of the chip's buffer protects live mappings only. A freed entry stays in use exactly if
  the chip had cached it and its block, or all blocks of its list, lie below `next_entry`
  (`FreedEntryUsed`, `FreedListEntryUsed`, and `FreedEntryMayStayCached` as an instance).
- Even live mappings can lose that protection after a mapping of no pages with an alignment: a
  zero-length buffer at the start of a page, mapped for the ISA bridge, moves `next_entry` without
  looking at the entries it passes. Some further steps then read a live mapping through a stale entry
  if and only if a live block straddles the new value (`EmptyStepGoesStale`; a run in
  `LiveMappingStale`). The runs of `TlbCoherence` include all mappings of no pages but these.
- The branch check admits displacements in [-2^21, 2^21) words, but the field holds [-2^20, 2^20);
  an accepted branch reaches its target exactly in the smaller range (`BranchExact`,
  `FarBranchWraps`).
- `got_offset == 0` means "unassigned", yet 0 is also the first slot handed out: if the pair
  numbered first comes again, it gets a second slot and the GOT is 8 bytes larger (`GotSize`). The
  first LITERAL keeps slot 0, and both slots end up holding the value.
- Packing the slot into `r_info` is reversible exactly below 2^23, since `got_offset << 8` is a
  32-bit `int` (`PackRoundTrip`).
- In `setup_memory` the difference `end - start` is unsigned: a usable cluster that starts and ends
  inside the kernel image is taken for the bootmap, which then goes right behind the image. The
  bootmap is well placed exactly if the chosen cluster is no such cluster, or some cluster has room
  right behind the image (`WellPlacedWhen`, `SwallowedClusterMisplaces`, `SwallowedMayBeHarmless`).
- Without a buffer-invalidate routine pci_map_sg sets `max_dma` to all ones for lists of several
  elements, so a direct entry may lie beyond the device's mask; it lies within it exactly if the mask
  serves the group directly (`ListIgnoresMask`, `BeyondTheMask`). The single-element path keeps to the
  mask there.
- A single buffer whose direct address is bus address 0 is reported as a failure, since 0 means one
  (`Hose.MapSingle`).
- `pcibios_align_resource` compares unsigned differences: a resource that starts below its hose's base
  is not raised to the minimum, unless distance and minimum together exceed 2^64 (`RaisedMeans`,
  `BelowBaseEscapes`).
- The sparse-space search cannot succeed for alignments of 128 MB and more, nor for a resource that
  does not fit behind the first good offset; it does in all other cases (`AlignMem`,
  `PlaceExists`, and 96 MB at a 64 MB alignment in `NoPlaceFor96`).
- On Titan a single-tag flush covers its range exactly when the range is shorter than 64 KB; the
  test looks at bits 31:16 only, which is enough below 4 GB (`PciTbi`).
- Both console paths put the carriage return after the line feed, although the comment in
  `srm_printk.c` speaks of carriage-return/linefeed. They agree with each other.
- `_memset_c_io` with a negative count still stores one byte (`MemsetCIo`). At an odd address
  memsetw_io with two bytes or more does not leave its halfword's bytes by turns unless they are
  equal (`MemsetwIoFills`).
- `PAGE_ALIGN` of a hint above 2^64 - PAGE_SIZE, that is past the first byte of the last page, wraps
  to 0, and the search then starts there: page 0 may be handed out, which no other hint allows
  (`PageAlignRaises`, `WrappedHint`, `AllOnesHint`).
- An AGP aperture whose page count is no power of two is searched with `pg_count - 1` all the same: it
  still gets a free run, but no natural alignment. A size below a page gives an empty aperture and
  takes `next_entry` back to 0 without a flush; some further steps then read a live mapping through a
  stale entry if and only if the chip has one at that moment (`AgpSetup`, `MaskAligns`,
  `ResetGoesStale`; a run in `StaleAfterReset`).

## Assumptions

- Addresses, sizes and counts are natural numbers; wrap-around is written out (`U64`, `Int32`,
  `Wrap32`) where the code can reach it or relies on it. The page size is 8 KB.
- The bodies of `iommu_is_span_boundary`, `iommu_num_pages`, `bootmem_bootmap_pages` and `find_vma`
  are not part of the tree; they are defined by what they stand for. Constants (page size, entry
  markers, `TASK_SIZE`, relocation numbers) are those of the headers beside the code.
- The bus windows lie apart: the ISA window below the PCI window, both below 4 GB, page aligned and
  clear of the direct map, the DAC offset at or above 4 GB and above the direct map; where it matters
  for the mask test, the direct map ends within the 64-bit bus (`FitsBus`). Window bases
  are positive, so that bus address 0 can mean failure. The device's segment boundary is a power of
  two of at least a page.
- Scatter elements have positive length, since a zero length ends a list for pci_unmap_sg. Without
  a buffer-invalidate routine every buffer of a list must be reachable directly or by DAC
  (`ReachableWithoutArena`): the code has no arena to fall back on there.
- `align_entry` is 1 in a new arena; chip set-up raises it on some machines, and the contracts hold for
  every power of two.
- An unmap names ranges that lie in the table, as its comment demands of callers.
- A module's type words carry a type below 256 and nothing else, symbol indices are in range, patch
  sites do not overlap each other or the GOT, and the GOT stays within 2^23 bytes.
- The text of srm_printk holds no NUL and the 1024-byte buffer has room for the longer text.
- Firmware replies, port contents and reservations that fail are arbitrary.

## Model

| member | source | states |
|---|---|---|
| IommuArena.MadePteNamesPage | linux底层/src_mini2440/linux-2.6.32.2/arch/alpha/kernel/pci_iommu.c:38-42 | a made entry is valid and names the page frame of the address; so it is none of the even markers 0, invalid and reserved |
| IommuArena.SpanMeansCrossing | linux底层/src_mini2440/linux-2.6.32.2/arch/alpha/kernel/pci_iommu.c:145 | the span test is true exactly when a multiple of the boundary lies strictly inside the run |
| IommuArena.Arena.constructor | linux底层/src_mini2440/linux-2.6.32.2/arch/alpha/kernel/pci_iommu.c:56-108 | a new arena has an all-zero table of window/page entries and `next_entry` 0 |
| IommuArena.Arena.Scan | linux底层/src_mini2440/linux-2.6.32.2/arch/alpha/kernel/pci_iommu.c:144-154 | the inner search stops on a free run that crosses no boundary, for a mask one less than a power of two the least aligned one at or after its start, or finds that there is none to the end of the table |
| IommuArena.Arena.FindPages | linux底层/src_mini2440/linux-2.6.32.2/arch/alpha/kernel/pci_iommu.c:118-175 | for any mask: terminates, and what it finds is a free run off every boundary and off the mask's bits; for a mask one less than a power of two, sound and complete next fit: the least place at or after the aligned `next_entry`, else the least of all, else -1, and everything is flushed exactly when the first pass fails |
| Arith.AlignMaskIsUp | linux底层/src_mini2440/linux-2.6.32.2/arch/alpha/kernel/pci_iommu.c:140-151 | ALIGN, computed bit by bit as `(x + mask) & ~mask`, rounds up to a multiple when the mask is one less than a power of two |
| IommuArena.NextFitUnique | linux底层/src_mini2440/linux-2.6.32.2/arch/alpha/kernel/pci_iommu.c:118-175 | the next-fit specification admits one answer only |
| IommuArena.SkipBusy | linux底层/src_mini2440/linux-2.6.32.2/arch/alpha/kernel/pci_iommu.c:150-151 | a busy entry spoils every start up to the next aligned one after it, so the jump misses nothing |
| IommuArena.SkipStart | linux底层/src_mini2440/linux-2.6.32.2/arch/alpha/kernel/pci_iommu.c:145-147 | a start that crosses a boundary may be passed over to the next aligned one |
| IommuArena.NoneAtTheEnd | linux底层/src_mini2440/linux-2.6.32.2/arch/alpha/kernel/pci_iommu.c:156-170 | a run that leaves the table rules out every later start |
| IommuArena.Arena.Alloc | linux底层/src_mini2440/linux-2.6.32.2/arch/alpha/kernel/pci_iommu.c:177-207 | exactly the n entries found become invalid-in-use, `next_entry` is the end of the run; a refusal leaves the table alone |
| IommuArena.Arena.Free | linux底层/src_mini2440/linux-2.6.32.2/arch/alpha/kernel/pci_iommu.c:209-218 | exactly the given entries become zero |
| TlbCoherence.AllocKeepsInv | linux底层/src_mini2440/linux-2.6.32.2/arch/alpha/kernel/pci_iommu.c:177-207 | an allocation keeps: table in step with the live blocks, blocks disjoint, no block straddling `next_entry`, stale cached entries only for freed entries below it |
| TlbCoherence.UnmapKeepsInv | linux底层/src_mini2440/linux-2.6.32.2/arch/alpha/kernel/pci_iommu.c:379-389 | so does unmapping one block, because of the test `dma_ofs >= next_entry` |
| TlbCoherence.SegmentCoversItsPages | linux底层/src_mini2440/linux-2.6.32.2/arch/alpha/kernel/pci_iommu.c:379-389 | the bus range handed to the flush touches every page of the block |
| TlbCoherence.ListFlushSuffices | linux底层/src_mini2440/linux-2.6.32.2/arch/alpha/kernel/pci_iommu.c:734-780 | one test on the greatest freed address decides for the whole list: what stays cached of any freed block lies below `next_entry` |
| TlbCoherence.FreeAllZeroes | linux底层/src_mini2440/linux-2.6.32.2/arch/alpha/kernel/pci_iommu.c:738-774 | the loop of pci_unmap_sg zeroes the entries of its blocks and no others |
| TlbCoherence.UnmapListKeepsInv | linux底层/src_mini2440/linux-2.6.32.2/arch/alpha/kernel/pci_iommu.c:734-782 | unmapping a list keeps the invariant |
| TlbCoherence.RunKeepsInv | linux底层/src_mini2440/linux-2.6.32.2/arch/alpha/kernel/pci_iommu.c:118-302 | the invariant holds in every state of every run of allocations, entry writes, unmaps, unmaps of lists, buffer loads, evictions, and those mappings and reservations of no pages that `EmptyStepGoesStale` and `ResetGoesStale` find harmless |
| TlbCoherence.LiveMappingNeverStale | linux底层/src_mini2440/linux-2.6.32.2/arch/alpha/kernel/pci_iommu.c:379-391 | in every run the chip translates a page of a live mapping by the table's own entry, or not at all while that is not written yet |
| TlbCoherence.TableMatchesMappings | linux底层/src_mini2440/linux-2.6.32.2/arch/alpha/kernel/pci_iommu.c:177-218 | in every run an entry is zero exactly when no mapping holds it, and mappings never overlap |
| TlbCoherence.FreedEntryUsed | linux底层/src_mini2440/linux-2.6.32.2/arch/alpha/kernel/pci_iommu.c:379-389 | right after any unmap the chip still uses a freed entry exactly if it had cached it and the block lies below `next_entry` |
| TlbCoherence.FlushDecided | linux底层/src_mini2440/linux-2.6.32.2/arch/alpha/kernel/pci_iommu.c:734-780 | the unmap of a list flushes exactly if some block of it lies at or above `next_entry` |
| TlbCoherence.FreedListEntryUsed | linux底层/src_mini2440/linux-2.6.32.2/arch/alpha/kernel/pci_iommu.c:734-782 | after any unmap of a list the chip still uses a freed entry exactly if it had cached it and every block of the list lies below `next_entry` |
| TlbCoherence.FreedEntryMayStayCached | linux底层/src_mini2440/linux-2.6.32.2/arch/alpha/kernel/pci_iommu.c:385-389 | a concrete run after which the chip still translates a freed page |
| TlbCoherence.SafeEmptyStepKeepsInv | linux底层/src_mini2440/linux-2.6.32.2/arch/alpha/kernel/pci_iommu.c:177-207 | a mapping of no pages that leaves `next_entry` off every live block keeps the invariant |
| EmptyMapping.NeverStale | linux底层/src_mini2440/linux-2.6.32.2/arch/alpha/kernel/pci_iommu.c:118-395 | from a state with the invariant no further steps lead to a live mapping that is read through a stale entry |
| EmptyMapping.CachedAheadGoesStale | linux底层/src_mini2440/linux-2.6.32.2/arch/alpha/kernel/pci_iommu.c:177-207 | from any state whose chip has an entry cached for a free one at or above `next_entry`, mapping single pages leads to such a read |
| EmptyMapping.EmptyStepGoesStale | linux底层/src_mini2440/linux-2.6.32.2/arch/alpha/kernel/pci_iommu.c:279-284 | after a mapping of no pages further steps lead to a live mapping read through a stale entry if and only if a live block straddles the aligned `next_entry`; without an alignment never |
| EmptyMapping.LiveMappingStale | linux底层/src_mini2440/linux-2.6.32.2/arch/alpha/kernel/pci_iommu.c:282-284 | a concrete run in which a zero-length mapping for the ISA bridge makes the device read a later live mapping through a stale entry |
| EmptyMapping.ResetGoesStale | linux底层/src_mini2440/linux-2.6.32.2/arch/alpha/kernel/pci_iommu.c:840-852 | after `next_entry` was taken back to 0, as reserving no pages with a mask of -1 does, further steps lead to a live mapping read through a stale entry if and only if the chip had a stale entry at that moment |
| EmptyMapping.StaleAfterReset | linux底层/src_mini2440/linux-2.6.32.2/arch/alpha/kernel/pci_iommu.c:840-852 | a concrete run in which that happens |
| DeviceView.WrittenEntryKept | linux底层/src_mini2440/linux-2.6.32.2/arch/alpha/kernel/pci_iommu.c:177-218 | no step of any driver or of the chip changes a written entry while its block is live |
| DeviceView.EntryKeptInRun | linux底层/src_mini2440/linux-2.6.32.2/arch/alpha/kernel/pci_iommu.c:177-395 | nor does any run |
| DeviceView.ChipReadsLater | linux底层/src_mini2440/linux-2.6.32.2/arch/alpha/kernel/pci_iommu.c:229-395 | what the table shows of a live mapping in one state, the chip forms, through its own buffer, in that and every later state until the unmap |
| DeviceView.DeviceReadsBuffer | linux底层/src_mini2440/linux-2.6.32.2/arch/alpha/kernel/pci_iommu.c:291-395 | a mapped buffer is read byte for byte through the chip, in every interleaving, from its last entry write until its unmap |
| DeviceView.DeviceReadsList | linux底层/src_mini2440/linux-2.6.32.2/arch/alpha/kernel/pci_iommu.c:629-785 | so is a list mapped by pci_map_sg: its concatenated buffers, in every interleaving until its unmap |
| DeviceView.ListStillMapped | linux底层/src_mini2440/linux-2.6.32.2/arch/alpha/kernel/pci_iommu.c:711-782 | whatever ran in between, the table is some table without the list's entries plus exactly those, which is what unmapping needs |
| DmaMapping.Hose.MapSingle | linux底层/src_mini2440/linux-2.6.32.2/arch/alpha/kernel/pci_iommu.c:229-302 | the route taken, the address returned and the whole new arena state; a nonzero address reaches the buffer byte for byte, and is the direct one exactly if every byte then lies within window and mask, else the DAC one if that is allowed, else in the PCI window if the mask covers that window, else in the ISA window, off every multiple of the segment size; the ISA bridge gets a multiple of eight entries; 0 means that no route and no place in the table was left |
| DmaMapping.DirectOkMeans | linux底层/src_mini2440/linux-2.6.32.2/arch/alpha/kernel/pci_iommu.c:246-247 | the two comparisons hold exactly if every byte of the buffer lies in the direct window at a bus address within the mask |
| DmaMapping.BytesOffBoundary | linux底层/src_mini2440/linux-2.6.32.2/arch/alpha/kernel/pci_iommu.c:130-145 | entries off every multiple of the boundary are bytes off every multiple of the segment size |
| DmaMapping.GrantThroughWindow | linux底层/src_mini2440/linux-2.6.32.2/arch/alpha/kernel/pci_iommu.c:275-296 | what the search grants lies in the arena's window, at the buffer's place in its page, with no multiple of the segment size strictly inside |
| DmaMapping.SingleRouted | linux底层/src_mini2440/linux-2.6.32.2/arch/alpha/kernel/pci_iommu.c:244-296 | each route of pci_map_single_1 is one the device can use, and a 0 has its reason |
| DmaMapping.RoutedDrivable | linux底层/src_mini2440/linux-2.6.32.2/arch/alpha/kernel/pci_iommu.c:244-277 | so the range ends at or below the mask, or is the buffer's DAC address, or lies in the ISA window |
| DmaMapping.MapThrough | linux底层/src_mini2440/linux-2.6.32.2/arch/alpha/kernel/pci_iommu.c:275-293 | the IOMMU leg: a next-fit grant whose entries name the buffer's pages in order, or no change |
| DmaMapping.FilledPagesTranslate | linux底层/src_mini2440/linux-2.6.32.2/arch/alpha/kernel/pci_iommu.c:291-296 | byte k of the buffer is what the window shows at byte k of the mapping |
| DmaMapping.WindowReaches | linux底层/src_mini2440/linux-2.6.32.2/arch/alpha/kernel/pci_iommu.c:275-296 | entries written for a buffer make the whole buffer reachable through the window that serves the mask |
| DmaMapping.Hose.UnmapSingle | linux底层/src_mini2440/linux-2.6.32.2/arch/alpha/kernel/pci_iommu.c:338-395 | the whole new state: nothing for direct, DAC and bogus addresses, otherwise the segment's entries zeroed and the conditional flush |
| DmaMapping.TakesBackMeansInside | linux底层/src_mini2440/linux-2.6.32.2/arch/alpha/kernel/pci_iommu.c:350-377 | with unsigned wrap-around, the tests let through exactly the addresses of the window |
| DmaMapping.UnmapFindsMapping | linux底层/src_mini2440/linux-2.6.32.2/arch/alpha/kernel/pci_iommu.c:366-379 | the address a mapping returned leads back to the same arena, first entry and entry count, whatever happened in between |
| DmaMapping.UnmapUndoesMap | linux底层/src_mini2440/linux-2.6.32.2/arch/alpha/kernel/pci_iommu.c:338-395 | unmapping takes any table that holds the mapping to that table without it |
| DmaSteps.MappingIsSteps | linux底层/src_mini2440/linux-2.6.32.2/arch/alpha/kernel/pci_iommu.c:275-293 | what a mapping promises is what one allocation step and one write step per entry of the table's protocol do |
| DmaSteps.UnmappingIsStep | linux底层/src_mini2440/linux-2.6.32.2/arch/alpha/kernel/pci_iommu.c:379-391 | what the unmap of a live mapping promises is one unmap step |
| DmaSteps.UnmappingListIsStep | linux底层/src_mini2440/linux-2.6.32.2/arch/alpha/kernel/pci_iommu.c:729-782 | what the unmap of a live list promises is one step of unmapping a list |
| ScatterGather.SgList.Classify | linux底层/src_mini2440/linux-2.6.32.2/arch/alpha/kernel/pci_iommu.c:480-525 | the list falls into groups, each leader carrying kind and total length; the grouping is the coarsest that adjacency, page joins and the segment size allow |
| ScatterSpec.JoinTest | linux底层/src_mini2440/linux-2.6.32.2/arch/alpha/kernel/pci_iommu.c:498-517 | the branches decide exactly whether an element may join the group and with which mark |
| ScatterSpec.CloseGroup | linux底层/src_mini2440/linux-2.6.32.2/arch/alpha/kernel/pci_iommu.c:512-514 | writing flag and length into the leader completes the group |
| ScatterSpec.NoVirtualJoins | linux底层/src_mini2440/linux-2.6.32.2/arch/alpha/kernel/pci_iommu.c:579-582 | reclassified without virtual joins every group is physically contiguous, which is why the retry happens at most once |
| ScatterSpec.PagesAddUp | linux底层/src_mini2440/linux-2.6.32.2/arch/alpha/kernel/pci_iommu.c:591-612 | after each run the writer has used exactly the pages the group's bytes so far need, and stands on a page boundary for the next run |
| ScatterSpec.BackRun | linux底层/src_mini2440/linux-2.6.32.2/arch/alpha/kernel/pci_iommu.c:608-612 | writing one run extends the bytes the entries show by that run's bytes |
| ScatterGather.WriteGroup | linux底层/src_mini2440/linux-2.6.32.2/arch/alpha/kernel/pci_iommu.c:591-624 | writes exactly the entries allocated for the group's total, and they show the group's buffers byte after byte |
| ScatterGather.FillContiguous | linux底层/src_mini2440/linux-2.6.32.2/arch/alpha/kernel/pci_iommu.c:541-566 | direct or DAC is taken exactly under its conditions, and then the device reads the group's bytes |
| ScatterGather.PlaceGroup | linux底层/src_mini2440/linux-2.6.32.2/arch/alpha/kernel/pci_iommu.c:568-626 | the IOMMU leg: the group's bytes at one bus range, in the window that serves the device and off its segment boundary, and only the output element written; or nothing changed, and there was no place in the table |
| ScatterGather.TryGroup | linux底层/src_mini2440/linux-2.6.32.2/arch/alpha/kernel/pci_iommu.c:541-575 | one attempt at a group: on success the group is placed, routed and drivable; on failure nothing changed and the table had no place for it |
| ScatterGather.FillGroup | linux底层/src_mini2440/linux-2.6.32.2/arch/alpha/kernel/pci_iommu.c:530-627 | with the retry: on success the group is placed where the device can use it and the rest of the list is still an unread grouped list, as coarse as virtual joins are still allowed; they are given up only if the table had no place for the joined group; on failure the table is as before and had no place for a contiguous group |
| ScatterGather.PlaceNext | linux底层/src_mini2440/linux-2.6.32.2/arch/alpha/kernel/pci_iommu.c:677-683 | one turn of the loop maps one more group and extends the plan by it; the output index never passes the element being read |
| ScatterGather.SplitNext | linux底层/src_mini2440/linux-2.6.32.2/arch/alpha/kernel/pci_iommu.c:569-582 | virtual joins are given up at most once, at an element whose joined group had no place |
| ScatterGather.PlanGrows | linux底层/src_mini2440/linux-2.6.32.2/arch/alpha/kernel/pci_iommu.c:677-683 | placing a group adds its entry to the plan and leaves the others as they were |
| ScatterGather.MapOneMore | linux底层/src_mini2440/linux-2.6.32.2/arch/alpha/kernel/pci_iommu.c:677-683 | placing a group extends what the device reads and the table change, and disturbs no earlier entry |
| ScatterSpec.DeviceBytesStable | linux底层/src_mini2440/linux-2.6.32.2/arch/alpha/kernel/pci_iommu.c:677-683 | later mappings do not change what the device reads through earlier ones |
| ScatterGather.MapOne | linux底层/src_mini2440/linux-2.6.32.2/arch/alpha/kernel/pci_iommu.c:647-654 | the single-element path keeps the promise of the whole; a refusal has the reason of pci_map_single_1 |
| ScatterGather.MapMany | linux底层/src_mini2440/linux-2.6.32.2/arch/alpha/kernel/pci_iommu.c:656-704 | the list path: mapped by a plan of maximal groups and end-marked on success; on failure every entry of the table as before, and a contiguous group without direct or DAC route had no place in the table |
| ScatterGather.MapSg | linux底层/src_mini2440/linux-2.6.32.2/arch/alpha/kernel/pci_iommu.c:629-704 | pci_map_sg: on success the device reads the buffers' bytes in order, each entry is a maximal group within the device's segment size, routed to where the device can use it and off its segment boundary, and the table gained exactly the entries an unmap frees; on failure the table is unchanged, and one group had no direct or DAC route and no place in it |
| ScatterGather.EntryWithinLimits | linux底层/src_mini2440/linux-2.6.32.2/arch/alpha/kernel/pci_iommu.c:495-589 | what the plan means for each entry: at most the segment size or a single element, and no element left out that could have joined; within the mask, or a DAC address, or in a window the device can drive or the ISA window, off every multiple of the segment size |
| ScatterSpec.MaximalWithinSegment | linux底层/src_mini2440/linux-2.6.32.2/arch/alpha/kernel/pci_iommu.c:495-502 | a maximal group of two elements or more is within the segment size |
| ScatterSpec.MaximalStops | linux底层/src_mini2440/linux-2.6.32.2/arch/alpha/kernel/pci_iommu.c:501-512 | the element behind a maximal group would not have fitted the segment size, or neither adjacency nor an allowed page join connects the two |
| ScatterSpec.MaximalUnique | linux底层/src_mini2440/linux-2.6.32.2/arch/alpha/kernel/pci_iommu.c:495-517 | a maximal group has only one possible end, so the plan leaves the grouping no choice |
| ScatterSpec.FirstGroupMaximal | linux底层/src_mini2440/linux-2.6.32.2/arch/alpha/kernel/pci_iommu.c:480-525 | each group that the classification forms is maximal |
| ScatterSpec.PhysMeansContiguous | linux底层/src_mini2440/linux-2.6.32.2/arch/alpha/kernel/pci_iommu.c:504-506 | the leader's mark is 0 exactly if the group's bytes are physically contiguous |
| ScatterGather.ListIgnoresMask | linux底层/src_mini2440/linux-2.6.32.2/arch/alpha/kernel/pci_iommu.c:664-668 | without a buffer-invalidate routine a list entry is one the device can drive exactly if its mask serves the group directly |
| ScatterGather.BeyondTheMask | linux底层/src_mini2440/linux-2.6.32.2/arch/alpha/kernel/pci_iommu.c:664-668 | a list for a 24-bit device whose entry lies beyond its mask |
| ScatterGather.UnmapSg | linux底层/src_mini2440/linux-2.6.32.2/arch/alpha/kernel/pci_iommu.c:711-785 | the whole new state: entries of the IOMMU ranges up to the first zero length are zeroed, and one flush decision |
| ScatterSpec.FreeAllRestores | linux底层/src_mini2440/linux-2.6.32.2/arch/alpha/kernel/pci_iommu.c:738-774 | freeing all ranges of a mapped list restores the table |
| ScatterGather.MappedUnmaps | linux底层/src_mini2440/linux-2.6.32.2/arch/alpha/kernel/pci_iommu.c:695-703 | the error path's unmap of the entries placed so far is well defined and restores the table |
| ScatterGather.MappedListMeaning | linux底层/src_mini2440/linux-2.6.32.2/arch/alpha/kernel/pci_iommu.c:629-785 | a mapped list shows the concatenated buffers, its lengths sum to the input total, and an unmap by either count restores the table under any other mappings |
| AgpGart.Reserve | linux底层/src_mini2440/linux-2.6.32.2/arch/alpha/kernel/pci_iommu.c:827-856 | exactly the run found becomes reserved: for any mask a free run off every boundary and off the mask's bits, for a mask one less than a power of two the next fit |
| AgpGart.Release | linux底层/src_mini2440/linux-2.6.32.2/arch/alpha/kernel/pci_iommu.c:858-875 | frees the whole range if all of it is reserved, otherwise -EBUSY and no change |
| AgpGart.Bind | linux底层/src_mini2440/linux-2.6.32.2/arch/alpha/kernel/pci_iommu.c:877-904 | binds the whole range if all of it is reserved, otherwise -EBUSY and no change |
| AgpGart.Unbind | linux底层/src_mini2440/linux-2.6.32.2/arch/alpha/kernel/pci_iommu.c:906-919 | the range becomes reserved |
| AgpGart.AgpSetup | linux底层/src_mini2440/linux-2.6.32.2/arch/alpha/kernel/core_marvel.c:899-927 | for every configured size: an aperture of that many whole pages over entries that were free and are now reserved, naturally aligned for a power of two of pages; otherwise the table is unchanged |
| Arith.MaskAligns | linux底层/src_mini2440/linux-2.6.32.2/arch/alpha/kernel/core_marvel.c:911-913 | a start clear of the bits of `pg_count - 1` is a multiple of the page count, for every such start, if and only if the page count is a power of two |
| Arith.MaskedStays | linux底层/src_mini2440/linux-2.6.32.2/arch/alpha/kernel/pci_iommu.c:140 | every start clear of the mask's bits is where the search begins when `next_entry` stands there |
| AgpGart.AgpCleanup | linux底层/src_mini2440/linux-2.6.32.2/arch/alpha/kernel/core_marvel.c:929-948 | whatever is still bound, the whole aperture ends up free |
| AgpGart.BoundPageTranslates | linux底层/src_mini2440/linux-2.6.32.2/arch/alpha/kernel/core_marvel.c:1014-1049 | every address of page i of a bound range translates to pages[i] |
| AgpGart.TranslatesToBound | linux底层/src_mini2440/linux-2.6.32.2/arch/alpha/kernel/core_marvel.c:1030-1049 | in every run an address of an aperture translates to the page bound there, and is refused if none is |
| AgpGart.BoundUntilUnbound | linux底层/src_mini2440/linux-2.6.32.2/arch/alpha/kernel/pci_iommu.c:877-919 | a bound page stays bound through every step that does not unbind it |
| AgpGart.TranslatesUntilUnbound | linux底层/src_mini2440/linux-2.6.32.2/arch/alpha/kernel/core_marvel.c:1014-1049 | from the bind on, in every run, every address of the page translates to it until the unbind |
| AgpGart.ReservedMeansUnbound | linux底层/src_mini2440/linux-2.6.32.2/arch/alpha/kernel/pci_iommu.c:868-871 | inside an aperture the all-reserved test means nothing is bound there |
| AgpGart.GartNextKeepsInv | linux底层/src_mini2440/linux-2.6.32.2/arch/alpha/kernel/pci_iommu.c:827-919 | every step of reserve, bind, unbind, release and DMA keeps entries and owners in step |
| AgpGart.EntryKindsMatchOwners | linux底层/src_mini2440/linux-2.6.32.2/arch/alpha/kernel/pci_iommu.c:827-919 | in every run each entry is exactly one of free, invalid-in-use, reserved or valid, as its owner requires; apertures and DMA blocks never share one |
| AgpGart.ReservingIsStep | linux底层/src_mini2440/linux-2.6.32.2/arch/alpha/kernel/pci_iommu.c:827-856 | what Reserve promises of a run found is a step of the protocol |
| AgpGart.BindingIsStep | linux底层/src_mini2440/linux-2.6.32.2/arch/alpha/kernel/pci_iommu.c:877-904 | so is what Bind promises, refused or not |
| AgpGart.ReleasingIsStep | linux底层/src_mini2440/linux-2.6.32.2/arch/alpha/kernel/pci_iommu.c:858-875 | so is what Release promises for a whole aperture |
| TitanFlush.PciTbi | linux底层/src_mini2440/linux-2.6.32.2/arch/alpha/kernel/core_titan.c:201-232 | register and value written; a tag flush covers the range if and only if it is shorter than 64 KB, and for addresses below 4 GB the choice always covers it |
| TitanFlush.TagCovers | linux底层/src_mini2440/linux-2.6.32.2/arch/alpha/kernel/core_titan.c:215-226 | addresses that agree on bits 31:16 bound a range of that one tag |
| Relocation.RefquadStoresQuad | linux底层/src_mini2440/linux-2.6.32.2/arch/alpha/kernel/module.c:206-210 | the two 32-bit stores are one 64-bit store of symbol plus addend |
| RelocationMeaning.PatchExact | linux底层/src_mini2440/linux-2.6.32.2/arch/alpha/kernel/module.c:188-300 | every relocation, by its type number: it is applied exactly if its value fits (in terms of symbol, addend, gp, GOT and location, for all fourteen types and for unknown ones), and then the patched bytes read as exactly that value |
| RelocationMeaning.Gprel32Exact | linux底层/src_mini2440/linux-2.6.32.2/arch/alpha/kernel/module.c:211-216 | GPREL32: applied exactly if symbol plus addend minus gp is a signed 32-bit number, which the word then reads as |
| RelocationMeaning.Srel32Exact | linux底层/src_mini2440/linux-2.6.32.2/arch/alpha/kernel/module.c:260-265 | SREL32: the same for symbol plus addend minus location |
| RelocationMeaning.Srel64Exact | linux底层/src_mini2440/linux-2.6.32.2/arch/alpha/kernel/module.c:266-269 | SREL64: always applied; the quadword is symbol plus addend minus location |
| RelocationMeaning.GprelHighExact | linux底层/src_mini2440/linux-2.6.32.2/arch/alpha/kernel/module.c:270-275 | GPRELHIGH: applied exactly if the distance from gp fits a split displacement; the halfword is its rounded upper half |
| RelocationMeaning.Gprel16Exact | linux底层/src_mini2440/linux-2.6.32.2/arch/alpha/kernel/module.c:280-285 | GPREL16: applied exactly for signed 16-bit distances from gp, which the halfword then reads as |
| RelocationMeaning.GpdispMeans | linux底层/src_mini2440/linux-2.6.32.2/arch/alpha/kernel/module.c:227-235 | GPDISP: applied exactly if gp minus location fits, and the two instructions then add it |
| RelocationMeaning.BraddrExact | linux底层/src_mini2440/linux-2.6.32.2/arch/alpha/kernel/module.c:247-257 | BRADDR: applied exactly for whole words at most 2^23 bytes away; opcode and register kept; the branch reaches symbol plus addend if and only if that is at most 2^22 bytes away |
| RelocationMeaning.BrsgpExact | linux底层/src_mini2440/linux-2.6.32.2/arch/alpha/kernel/module.c:236-257 | BRSGP: refused for an undefined symbol, otherwise as BRADDR, 8 bytes further exactly for a standard gp load |
| RelocationMeaning.SlotlessExact | linux底层/src_mini2440/linux-2.6.32.2/arch/alpha/kernel/module.c:204-301 | NONE, LITUSE and HINT always pass and change nothing; any other number is refused |
| RelocationMeaning.HighAndLowAddUp | linux底层/src_mini2440/linux-2.6.32.2/arch/alpha/kernel/module.c:270-279 | a GPRELHIGH and its GPRELLOW, one after the other, add up to the distance from gp |
| Relocation.SplitHalves | linux底层/src_mini2440/linux-2.6.32.2/arch/alpha/kernel/module.c:228-232 | for every 64-bit displacement the overflow test passes exactly in [-2^31-2^15, 2^31-2^15-1], and then the sign-extended halves sum to it |
| Relocation.GpdispExact | linux底层/src_mini2440/linux-2.6.32.2/arch/alpha/kernel/module.c:227-235 | GPDISP: accepted exactly in that range, the two patched instructions add gp - location, no other byte changes |
| Relocation.GprelPairExact | linux底层/src_mini2440/linux-2.6.32.2/arch/alpha/kernel/module.c:270-279 | GPRELHIGH is accepted exactly in that range, and with its GPRELLOW sums to value - gp |
| Relocation.BranchExact | linux底层/src_mini2440/linux-2.6.32.2/arch/alpha/kernel/module.c:236-257 | accepted exactly for word-aligned displacements in [-2^21, 2^21) words; opcode and register bits kept; the branch reaches its target if and only if the displacement is in [-2^20, 2^20) |
| Relocation.FarBranchWraps | linux底层/src_mini2440/linux-2.6.32.2/arch/alpha/kernel/module.c:252-256 | a concrete accepted branch that does not reach its target |
| GotNumbering.PackRoundTrip | linux底层/src_mini2440/linux-2.6.32.2/arch/alpha/kernel/module.c:83-86 | unpacking r_info recovers symbol, type and slot if and only if the slot is below 2^23 |
| GotNumbering.ProcessReloc | linux底层/src_mini2440/linux-2.6.32.2/arch/alpha/kernel/module.c:54-87 | one relocation: the chains record what the pair table records, the running size and the packed r_info follow |
| GotNumbering.NumberGot | linux底层/src_mini2440/linux-2.6.32.2/arch/alpha/kernel/module.c:134-143 | the pass computes the size and packs every LITERAL with its slot |
| GotNumbering.NumberAllOk | linux底层/src_mini2440/linux-2.6.32.2/arch/alpha/kernel/module.c:54-87 | after any list of relocations: offsets are multiples of 8 inside the GOT, distinct for distinct pairs, and size and recorded offsets are as below |
| GotNumbering.SlotsSeparatePairs | linux底层/src_mini2440/linux-2.6.32.2/arch/alpha/kernel/module.c:66-82 | slot 0 goes to the first LITERAL alone; all others share a slot exactly when they share (symbol, addend) |
| GotNumbering.GotSize | linux底层/src_mini2440/linux-2.6.32.2/arch/alpha/kernel/module.c:134-143 | the size is 8 bytes per distinct pair, plus 8 exactly when the pair numbered first comes again |
| ModuleLoad.Image.ApplyRelocateAdd | linux底层/src_mini2440/linux-2.6.32.2/arch/alpha/kernel/module.c:166-304 | one section: every patch in order, or -ENOEXEC at the first refusal; 0 exactly if every relocation fits |
| ModuleLoad.AppliedExactly | linux底层/src_mini2440/linux-2.6.32.2/arch/alpha/kernel/module.c:188-303 | whether a list of relocations is applied depends on no byte of memory: exactly if every one of them fits |
| ModuleLoad.ReadsSame | linux底层/src_mini2440/linux-2.6.32.2/arch/alpha/kernel/module.c:203-300 | what a patch says depends on the patched bytes only |
| ModuleLoad.EveryPatchReads | linux底层/src_mini2440/linux-2.6.32.2/arch/alpha/kernel/module.c:188-303 | after the whole load the bytes that each relocation patched say what its type promises, for every type that patches its section |
| ModuleLoad.ApplyAppend | linux底层/src_mini2440/linux-2.6.32.2/arch/alpha/kernel/module.c:188-303 | sections applied one after the other are their relocations applied in order |
| ModuleLoad.PatchFrame | linux底层/src_mini2440/linux-2.6.32.2/arch/alpha/kernel/module.c:203-300 | a patch changes no byte outside its site and, for a LITERAL, its slot |
| ModuleLoad.LiteralPatched | linux底层/src_mini2440/linux-2.6.32.2/arch/alpha/kernel/module.c:217-224 | right after its patch a LITERAL's displacement from gp is the address of its slot, which holds symbol plus addend |
| ModuleLoad.LiteralKept | linux底层/src_mini2440/linux-2.6.32.2/arch/alpha/kernel/module.c:188-303 | a later patch leaves an earlier LITERAL and its slot intact unless it fills the same slot with another value |
| ModuleLoad.SameSlotSameValue | linux底层/src_mini2440/linux-2.6.32.2/arch/alpha/kernel/module.c:54-87 | two LITERALs with one slot ask for one value |
| ModuleLoad.EveryLiteralFindsItsValue | linux底层/src_mini2440/linux-2.6.32.2/arch/alpha/kernel/module.c:54-304 | after the whole load every LITERAL addresses a slot inside the GOT that holds the value of its own symbol plus addend |
| Ipi.RunKeepsInv | linux底层/src_mini2440/linux-2.6.32.2/arch/alpha/kernel/smp.c:550-611 | in every interleaving bits, fetched words and messages stay in step and every set bit is owed attention |
| Ipi.SetBitIsNoticed | linux底层/src_mini2440/linux-2.6.32.2/arch/alpha/kernel/smp.c:550-577 | a set bit means a pending interrupt, a handler still draining, or a sender that still owes wripir |
| Ipi.NoIpiLost | linux底层/src_mini2440/linux-2.6.32.2/arch/alpha/kernel/smp.c:550-611 | at quiescence no bit is set and every message of every call was dispatched |
| Ipi.FetchedWasSet | linux底层/src_mini2440/linux-2.6.32.2/arch/alpha/kernel/smp.c:577 | a message is fetched only after a state in which its bit was set |
| Ipi.HandledAfterSet | linux底层/src_mini2440/linux-2.6.32.2/arch/alpha/kernel/smp.c:577-608 | each handled message was handled by a dispatch of its own bit that started after the bit was set |
| Ipi.HandledOnce | linux底层/src_mini2440/linux-2.6.32.2/arch/alpha/kernel/smp.c:577-608 | a handled message is never waiting or fetched again |
| Ipi.ClearLowest | linux底层/src_mini2440/linux-2.6.32.2/arch/alpha/kernel/smp.c:582-584 | clearing `ops & -ops` clears the lowest set bit and no other |
| Ipi.DrainWord | linux底层/src_mini2440/linux-2.6.32.2/arch/alpha/kernel/smp.c:577-608 | the do-while calls exactly the set bits of the word, each once, lowest first |
| Ipi.TakesLowest | linux底层/src_mini2440/linux-2.6.32.2/arch/alpha/kernel/smp.c:579-608 | an operation leaves a CPU's fetched bits only by being dispatched, and it is the lowest of them |
| Ipi.CalledSoFar | linux底层/src_mini2440/linux-2.6.32.2/arch/alpha/kernel/smp.c:577-608 | between two xchgs what a CPU dispatched and what is left make up what it fetched, everything dispatched being lower |
| Ipi.DispatchesDrainWord | linux底层/src_mini2440/linux-2.6.32.2/arch/alpha/kernel/smp.c:577-608 | a CPU's dispatch steps for one fetched word are exactly what the do-while calls for it, in its order |
| IpiProgress.InnerShrinks | linux底层/src_mini2440/linux-2.6.32.2/arch/alpha/kernel/smp.c:550-611 | every set_bit, wripir, handler entry, xchg and dispatch, whichever CPU takes it, brings the end nearer |
| IpiProgress.CanStep | linux底层/src_mini2440/linux-2.6.32.2/arch/alpha/kernel/smp.c:550-611 | no deadlock: unless everything is at rest, some CPU can take such a step |
| IpiProgress.CallCanStart | linux底层/src_mini2440/linux-2.6.32.2/arch/alpha/kernel/smp.c:550-561 | a call can start in every state, with any targets and any message but the stop |
| IpiProgress.EveryScheduleEnds | linux底层/src_mini2440/linux-2.6.32.2/arch/alpha/kernel/smp.c:550-611 | without new calls no schedule from a reachable state is longer than the work left, and one that cannot go on ends at rest |
| IpiProgress.EveryMessageCanBeHandled | linux底层/src_mini2440/linux-2.6.32.2/arch/alpha/kernel/smp.c:550-611 | from every reachable state some schedule ends at rest with every message of every call handled |
| DecAndLock.RunKeepsInv | linux底层/src_mini2440/linux-2.6.32.2/arch/alpha/lib/dec_and_lock.c:11-41 | over every run of any number of threads: the lock holder, the reservations and each call's progress stay in step |
| DecAndLock.ZeroOnlyUnderLock | linux底层/src_mini2440/linux-2.6.32.2/arch/alpha/lib/dec_and_lock.c:16-41 | the counter goes from 1 to 0 only by a thread that holds the lock and returns 1 |
| DecAndLock.ResultMeansLock | linux底层/src_mini2440/linux-2.6.32.2/arch/alpha/lib/dec_and_lock.c:33-41 | a call returns 1 exactly if its one decrement reached zero, and holds the lock exactly then; nobody else does |
| DecAndLock.CounterConserved | linux底层/src_mini2440/linux-2.6.32.2/arch/alpha/lib/dec_and_lock.c:17-24 | the counter is always start plus increments minus decrements, as a 32-bit number |
| DecAndLock.CallCanFinish | linux底层/src_mini2440/linux-2.6.32.2/arch/alpha/lib/dec_and_lock.c:11-41 | in every reachable state a call that nobody keeps from the lock can finish by at most six steps of its own, with the right result |
| DecAndLock.CallAlone | linux底层/src_mini2440/linux-2.6.32.2/arch/alpha/lib/dec_and_lock.c:11-41 | a whole call by itself decrements once, returns 1 exactly if the counter was 1, and keeps the lock exactly then |
| DecAndLock.FastPathNeedsNoLock | linux底层/src_mini2440/linux-2.6.32.2/arch/alpha/lib/dec_and_lock.c:17-24 | unless the counter is 1, a call finishes by two steps of its own whoever holds the lock |
| DecAndLock.SomeoneCanStep | linux底层/src_mini2440/linux-2.6.32.2/arch/alpha/lib/dec_and_lock.c:11-41 | no deadlock: while a call is under way some call can take a step, unless another user has the lock |
| BootMemory.TopOfMemory | linux底层/src_mini2440/linux-2.6.32.2/arch/alpha/kernel/setup.c:315-355 | the highest end of a usable cluster or the limit, whichever is less; without a limit that is 32 GB |
| BootMemory.UsableMeans | linux底层/src_mini2440/linux-2.6.32.2/arch/alpha/kernel/setup.c:320-324 | a cluster is usable exactly if bits 0 and 1 of its usage word are clear |
| BootMemory.HalvesDivide | linux底层/src_mini2440/linux-2.6.32.2/arch/alpha/kernel/setup.c:396-399 | j halvings divide by the j-th power of two |
| BootMemory.BootmapFits | linux底层/src_mini2440/linux-2.6.32.2/arch/alpha/kernel/setup.c:366-368 | the bootmap has a bit for every page, and with one page less it would not |
| BootMemory.PlacementGood | linux底层/src_mini2440/linux-2.6.32.2/arch/alpha/kernel/setup.c:375-393 | the place chosen in a cluster is inside it, below the top and off the kernel if and only if the cluster is not swallowed by the kernel image |
| BootMemory.PassedOverHasNoRoom | linux底层/src_mini2440/linux-2.6.32.2/arch/alpha/kernel/setup.c:371-394 | a cluster that is passed over has no room for the bootmap anywhere |
| BootMemory.TakenMeans | linux底层/src_mini2440/linux-2.6.32.2/arch/alpha/kernel/setup.c:371-394 | the scan takes a cluster exactly if it has room for the bootmap somewhere or is swallowed by the kernel image |
| BootMemory.WellPlacedWhen | linux底层/src_mini2440/linux-2.6.32.2/arch/alpha/kernel/setup.c:371-394 | the bootmap lies in some usable cluster, below the top and off the kernel, if and only if the chosen cluster is not swallowed or some cluster has room right behind the kernel |
| BootMemory.PlaceBootmap | linux底层/src_mini2440/linux-2.6.32.2/arch/alpha/kernel/setup.c:362-399 | the halving retry ends, in the first cluster with a place or in the panic at the end of the kernel |
| BootMemory.FreeCluster | linux底层/src_mini2440/linux-2.6.32.2/arch/alpha/kernel/setup.c:405-431 | exactly the usable pages of the cluster below the top and outside the kernel are freed |
| BootMemory.FreeRegions | linux底层/src_mini2440/linux-2.6.32.2/arch/alpha/kernel/setup.c:404-432 | over all clusters: exactly the usable pages below the top outside the kernel |
| BootMemory.SetupMemory | linux底层/src_mini2440/linux-2.6.32.2/arch/alpha/kernel/setup.c:301-437 | the boot allocator gets exactly those pages minus the bootmap; memory is halved only while no usable cluster has room; memory stays within the limit, or within 32 GB if there is none; the bootmap has just enough pages for a bit per page, and is well placed exactly under the condition of `WellPlacedWhen` |
| BootMemory.SwallowedClusterMisplaces | linux底层/src_mini2440/linux-2.6.32.2/arch/alpha/kernel/setup.c:388-392 | a memory map for which the unsigned difference wraps and the bootmap lands where no cluster has memory |
| BootMemory.SwallowedMayBeHarmless | linux底层/src_mini2440/linux-2.6.32.2/arch/alpha/kernel/setup.c:388-392 | a memory map with a swallowed cluster whose bootmap is well placed all the same |
| UnmappedArea.Search | linux底层/src_mini2440/linux-2.6.32.2/arch/alpha/kernel/osf_sys.c:1169-1184 | the lowest hole at or above the start, or -ENOMEM if there is none |
| UnmappedArea.GetUnmappedArea | linux底层/src_mini2440/linux-2.6.32.2/arch/alpha/kernel/osf_sys.c:1186-1231 | the lowest hole above the aligned hint, else above the usual base, else of all; -ENOMEM means there is no hole from PAGE_SIZE up; page aligned; never below PAGE_SIZE unless the hint wraps; the range ends within 2 GB for a 31-bit process, 4 TB otherwise |
| UnmappedArea.PageAlignRaises | linux底层/src_mini2440/linux-2.6.32.2/arch/alpha/kernel/osf_sys.c:1216 | PAGE_ALIGN of a hint is the least page address at or above it exactly up to 2^64 - PAGE_SIZE, and 0 beyond |
| UnmappedArea.WrappedHint | linux底层/src_mini2440/linux-2.6.32.2/arch/alpha/kernel/osf_sys.c:1215-1219 | for a hint that wraps the search starts at 0 and hands out the first page exactly if there is a hole in it |
| UnmappedArea.AllOnesHint | linux底层/src_mini2440/linux-2.6.32.2/arch/alpha/kernel/osf_sys.c:1215-1219 | with nothing mapped the hint of all ones gets address 0 |
| ResourceAlign.AlignIo | linux底层/src_mini2440/linux-2.6.32.2/arch/alpha/kernel/pci.c:138-148 | the least address with bits 8 and 9 clear at or above both the start and the hose's minimum; a start below the hose's base escapes the minimum |
| ResourceAlign.RaisedMeans | linux底层/src_mini2440/linux-2.6.32.2/arch/alpha/kernel/pci.c:140-141 | at or above its base a start is raised to the minimum exactly if it is below it; below its base exactly if distance and minimum together exceed 2^64 |
| ResourceAlign.BelowBaseEscapes | linux底层/src_mini2440/linux-2.6.32.2/arch/alpha/kernel/pci.c:140-152 | a start below its base that is left below the minimum, in both spaces |
| ResourceAlign.AlignMem | linux底层/src_mini2440/linux-2.6.32.2/arch/alpha/kernel/pci.c:149-187 | an aligned start at or above both the start and the hose's minimum, in sparse space off the alias and inside one segment if and only if the resource fits behind the first good offset; then it is the least such start |
| ResourceAlign.PlaceExists | linux底层/src_mini2440/linux-2.6.32.2/arch/alpha/kernel/pci.c:157-184 | in sparse space a place exists at all exactly if the resource fits a segment behind the first good offset |
| ResourceAlign.NoPlaceFor96 | linux底层/src_mini2440/linux-2.6.32.2/arch/alpha/kernel/pci.c:173-184 | 96 MB at a 64 MB alignment: below the limit of 112 MB, yet every result is on the alias or crosses a segment, and there is no better one |
| ResourceAlign.SegmentSteps | linux底层/src_mini2440/linux-2.6.32.2/arch/alpha/kernel/pci.c:173-184 | the two adjustments for alignments below 128 MB: result, condition and nothing suitable skipped |
| ResourceAlign.BigAlignment | linux底层/src_mini2440/linux-2.6.32.2/arch/alpha/kernel/pci.c:171-184 | with an alignment of 128 MB or more no aligned start is off the alias |
| ResourceAlign.OffAlias | linux底层/src_mini2440/linux-2.6.32.2/arch/alpha/kernel/pci.c:172-178 | an aligned address off the alias is at or past the first good offset |
| WideIo.SplitJoin | linux底层/src_mini2440/linux-2.6.32.2/arch/alpha/kernel/io.c:427-463 | a value read from w bytes stores those bytes again |
| WideIo.CopyStretch | linux底层/src_mini2440/linux-2.6.32.2/arch/alpha/kernel/io.c:425-434 | a stretch of accesses of one width copies whole accesses until too few bytes are left, when both sides are equally aligned |
| WideIo.Memcpy | linux底层/src_mini2440/linux-2.6.32.2/arch/alpha/kernel/io.c:420-520 | memcpy_fromio and memcpy_toio equal a byte copy for every pair of alignments and every count |
| WideIo.FourBytes | linux底层/src_mini2440/linux-2.6.32.2/arch/alpha/kernel/io.c:226-230 | four bytes read in turn make the longword that stores them in order |
| WideIo.IoRead8Rep | linux底层/src_mini2440/linux-2.6.32.2/arch/alpha/kernel/io.c:213-239 | the port's bytes land in memory in the order read, count of them, longword stores aligned |
| WideIo.LongwordHalves | linux底层/src_mini2440/linux-2.6.32.2/arch/alpha/kernel/io.c:364-367 | a longword is its low and its high halfword, in memory order |
| WideIo.IoWrite16Rep | linux底层/src_mini2440/linux-2.6.32.2/arch/alpha/kernel/io.c:350-373 | the port receives the buffer's halfwords in order |
| WideIo.IoRead16Rep | linux底层/src_mini2440/linux-2.6.32.2/arch/alpha/kernel/io.c:256-279 | the port's halfwords land in memory in order |
| WideIo.UnwordsWords | linux底层/src_mini2440/linux-2.6.32.2/arch/alpha/kernel/io.c:256-373 | halfwords written out and read back are the same bytes |
| WideIo.SameAccess | linux底层/src_mini2440/linux-2.6.32.2/arch/alpha/kernel/io.c:530-580 | all bytes of an aligned access, no wider one fitting, have it as their widest |
| WideIo.FillHead | linux底层/src_mini2440/linux-2.6.32.2/arch/alpha/kernel/io.c:530-549 | the odd byte, halfword and longword are the widest aligned stores there; what is left is aligned for every wider one it has room for |
| WideIo.FillTail | linux底层/src_mini2440/linux-2.6.32.2/arch/alpha/kernel/io.c:563-580 | the same for the longword, halfword and byte that are left |
| WideIo.MemsetCIo | linux底层/src_mini2440/linux-2.6.32.2/arch/alpha/kernel/io.c:528-582 | for every value, address and count: each byte gets what the widest naturally aligned store around it within the range puts there; a negative count stores one byte |
| WideIo.RepeatedBytes | linux底层/src_mini2440/linux-2.6.32.2/arch/alpha/include/asm/io.h:511-520 | the 64-bit values that memset_io and memsetw_io make of a byte and of a halfword |
| WideIo.MemsetIoFills | linux底层/src_mini2440/linux-2.6.32.2/arch/alpha/include/asm/io.h:511-514 | memset_io fills with its byte, at any address and for any count |
| WideIo.MemsetwIoFills | linux底层/src_mini2440/linux-2.6.32.2/arch/alpha/include/asm/io.h:517-520 | memsetw_io fills with its halfword exactly if the address is even, or at most one byte is filled, or the halfword's bytes are equal |
| Console.ExpandInPlace | linux底层/src_mini2440/linux-2.6.32.2/arch/alpha/lib/srm_printk.c:20-39 | the buffer ends up holding the text with a carriage return after each line feed, and the NUL; the count is the number of line feeds |
| Console.Backwards | linux底层/src_mini2440/linux-2.6.32.2/arch/alpha/lib/srm_printk.c:29-37 | the backward loop, in place |
| Console.StepHalfway | linux底层/src_mini2440/linux-2.6.32.2/arch/alpha/lib/srm_printk.c:31-36 | no character is overwritten before it is read |
| Console.NextChunk | linux底层/src_mini2440/linux-2.6.32.2/arch/alpha/kernel/srmcons.c:102-109 | a chunk ends after a line feed, at 128 characters, or at the end |
| Console.ChunkExpands | linux底层/src_mini2440/linux-2.6.32.2/arch/alpha/kernel/srmcons.c:101-129 | a chunk and its carriage return are the next piece of the expansion |
| Console.PutAll | linux底层/src_mini2440/linux-2.6.32.2/arch/alpha/kernel/srmcons.c:111-128 | however the firmware splits it, a piece goes out in order and once |
| Console.DoWrite | linux底层/src_mini2440/linux-2.6.32.2/arch/alpha/kernel/srmcons.c:91-131 | for any pattern of partial writes the console shows a prefix of the same expansion that srm_printk makes, and all of it at the end |

## Left out

- LiveMappingNeverStale: one cached entry stands for one table entry; the four-entry lines behind
  `align_entry` are not modelled. Only this arena's part of the buffer appears; evictions on behalf
  of another arena are eviction steps.
- EntryKindsMatchOwners: iommu_unbind and iommu_release do not flush, so the AGP protocol has its own
  run and says nothing about cached entries.
- NumberGot: the got_entry chains are sequences, not linked nodes; section lookup and failed
  allocations of module_frob_arch_sections are not modelled; the RELA tables are taken end to end.
- NoIpiLost: IPI_CPU_STOP, which halts the handler, is not sent.
- EveryMessageCanBeHandled: that new calls do not keep arriving for ever, and that a CPU with a step to
  take is scheduled, is not claimed.
- ResultMeansLock: fairness is not claimed; a store-conditional may fail for ever.
- SetupMemory: the initrd move and the arithmetic of init_bootmem are not modelled.
- GetUnmappedArea: the MAP_FIXED shortcut, which returns the address given, is not modelled.
- Memcpy: the memory barrier at the end is not modelled.
- DoWrite: reading pending input between pieces is not modelled; a run is cut short when the script
  of firmware replies ends.
- MapSg: pci_dac_dma_supported is a parameter (dac_allowed), with the caller's fact that a DAC offset
  exists when it is true.
- pci_alloc_consistent, pci_dma_supported, ioread32_rep, iowrite8_rep and iowrite32_rep would only
  add easy members.
- Locks, interrupt flags and memory barriers: each critical section or atomic operation is one step.
- Chip bring-up and configuration space, machine vectors, interrupt tables, machine-check decoding,
  boot loaders and the super-I/O chips: register programming and text without a property to prove.
- The character-device drivers written for teaching: registration, GPIO and bounds checks.
