# Verified models of NexaOS components

This project models the parts of NexaOS and its NVM hypervisor platform whose correctness
is hard to see from the code, and proves what they promise:

- **Guest memory** (`Machine`, `GuestMemory`, `PageWalk`, `VirtualMemory`): RAM with
  little-endian accessors, and the four-level page walk. The unrolled walk is a recursive
  descent over the base-512 digits of the address, maps blocks linearly, and depends on
  nothing but the entries it reads; so virtual writes are local unless they hit page tables
  that matter.
- **The memory bus** (`MmioBus`, `AddressSpace`, `StableOrder`): routing to RAM or MMIO
  handlers, and the bulk `fill`. A fill has the effect of single writes exactly under a
  condition that the caller can check first.
- **The VGA text buffer** (`TextScreen`, `Vga`): its handler replaces the default fill of the
  bus by one of its own, and the two are compared byte by byte.
- **The kernel log** (`LogRing`, `LogPool`): a ring buffer without a length field, whose
  reader is characterised for every history, and a two-slot buffer pool as a concurrent
  protocol over all interleavings.
- **PCI configuration ports** (`PciLanes`, `PciWindow`, `PciPorts`): read-modify-writes of
  32-bit registers at ports 0xCF8 and 0xCFC refine a byte-addressed window, over all runs of
  the byte, word and dword accesses that are routed to them and of the direct accessors.
- **VM state** (`VirtualCpu`, `VmcsFields`, `Vmx`, `VmxRuns`, `VmxOutcomes`, `Snapshot`): interrupt
  delivery; what every VMX operation of a run answers, told from the operations before it,
  VMCS launch state and guest context; and sparse memory snapshots.
- **Library build order** (`LibraryOrder`): a depth-first topological sort on arbitrary
  graphs, cyclic or not.
- **Services** (`RateLimiter`, `NetworkPolicy`, `Symbols`, `LineRanges`): the fixed-window rate
  limiter with its tight bound, policy and symbol lookup as an argmax over the history, and
  two range compressors with one canonical result.

`dafny verify dfyconfig.toml` checks the whole project.

## How the code is represented

- Objects with fields that methods update are classes; the methods are proved against
  functions on values, and the theorems are about those functions and about runs of them.
- Machine words on which bits matter are Dafny bit vectors. Where only their identity
  matters, proofs are generic in the word or byte type. CPU registers, VMCS fields and
  addresses on the bus are numbers.
- Locks are sequential: each operation is one atomic step. In the log pool each atomic access
  to the state byte is a step, and a run is any sequence of steps of any number of callers.
- A panic on an access outside RAM is a precondition, or the `Outside`/`Panic` result of a
  walk. Clocks are parameters. `HashMap` iteration takes any order.
- `sort_by` and `sort_by_key` are stable sorts; `StableSortIsUnique` shows that leaves no
  choice of result.

Some properties do not hold in general. For each there is a lemma with an input that fails,
and one that says exactly when the property does hold:

- Log length (`NulLogReadsEmpty`, `LengthRightIff`): with NUL bytes in the log, the reader of a
  full buffer can take it for a partly filled one. It then returns the newest
  `|history| % 65536` bytes only.
- Fill as single writes (`FillSkipsHandler`, `FillPanicsPastRam`, `FillKeepsWideValue`,
  `FillSwallowsMiddle`, `FillEqualsSinglesIff`): a fill that starts in RAM and runs into MMIO
  writes RAM and calls no handler, or panics where RAM ends; a fill whose value does not fit
  its unit hands handlers the whole value, where single writes cut it; and a fill whose two
  ends have one handler is handed to it whole, whatever lies between.
- The VGA fill as single writes (`FillDropsTail`, `FillIsWritesIff`): of a unit that runs over
  the end of the text, single writes store the words that fit and the fill stores nothing.
- SYSENTER MSRs (`SysenterLost`, `SysenterSurvivesIff`): an entry loads them, an exit does not
  save them.
- Snapshots (`FilledPageStays`, `FullyRestoredIff`): a page that was zero is not restored.
- Rate limit (`ZeroLimitAdmits`, `TwiceIsBoundIff`): a limit of zero still admits a request that
  comes 60 seconds or more after the client's window began.
- Build order (`CycleIsBuilt`, `TopologicalIffAcyclic`): cyclic dependencies are built too.

A virtual write is read back if it does not hit an entry of its own walk (`WriteReadsBack`);
`SelfMapLosesWrite` shows that this cannot be dropped. It is no exact condition: a write to such
an entry may happen to leave the translation as it was.

## Model

| member | source | states |
|---|---|---|
| `LibraryOrder.CatalogOf` | scripts/src/config.ts:478 | the name table holds exactly the listed names, each with a listed library of that name |
| `LibraryOrder.LastOfNameWins` | scripts/src/config.ts:478 | among libraries of one name the last listed is the one in the table |
| `LibraryOrder.Sorter.constructor` | scripts/src/config.ts:478-480 | a sort begins with the name table, nothing visited and an empty result |
| `LibraryOrder.Sorter.Visit` | scripts/src/config.ts:482-495 | on every graph a visit ends, only extends the result, leaves the open visits as they were, and keeps the order correct, provided every open library reaches the visited name |
| `LibraryOrder.Sorter.Finish` | scripts/src/config.ts:494 | pushing a library whose dependencies are all visited closes its visit and keeps the order correct |
| `LibraryOrder.TopologicalSortLibraries` | scripts/src/config.ts:477-502 | for every list, every listed name appears exactly once, and a listed dependency precedes its dependent unless it depends on it in turn |
| `LibraryOrder.UniqueNamesPermute` | scripts/src/config.ts:477-502 | with unique names the result is a permutation of the input |
| `LibraryOrder.CycleIsBuilt` | scripts/src/config.ts:477-502 | a self-dependent library is built although no order respects its dependency |
| `LibraryOrder.TopologicalIffAcyclic` | scripts/src/config.ts:477-502 | the result respects every listed dependency exactly when the graph has no cycle |
| `LogRing.RingBuffer.constructor` | src/logger.rs:759-764 | a new buffer is all zero with the write position at 0, and represents the empty history |
| `LogRing.RingBuffer.WriteBytes` | src/logger.rs:767-781 | the bytes are stored one after the other from the write position, which is first forced into range and wraps; the buffer then represents the history with them appended |
| `LogRing.RingBuffer.ReadToSlice` | src/logger.rs:549-596 | the destination receives the oldest min(its length, v) of the last v bytes of the history and keeps the rest; v is the length reported for the history |
| `LogRing.Copy` | src/logger.rs:582 | a slice copy changes the copied range of the destination only |
| `LogRing.CopyWrapped` | src/logger.rs:584-593 | two chunk copies deliver a prefix of the rotation that starts at the write position |
| `LogRing.StoreByteRepresents` | src/logger.rs:774-780 | storing one byte keeps the buffer the image of the bytes written so far |
| `LogRing.WritesRepresent` | src/logger.rs:767-781 | after any writes the buffer holds, in rotation, the last 65536 bytes of the concatenation of all writes, or all of them and zeros |
| `LogRing.ReaderOnAnyHistory` | src/logger.rs:549-596 | for every history, with or without NUL bytes, the reader yields the last v bytes written; v is given exactly |
| `LogRing.NulLogReadsEmpty` | src/logger.rs:554-572 | a full buffer of NUL bytes is reported as empty |
| `LogRing.LengthRightIff` | src/logger.rs:554-572 | the guessed length is right exactly when the buffer is not yet full or its probed bytes are non-zero |
| `LogRing.ReaderOnText` | src/logger.rs:549-596 | for NUL-free logs the length is min(total, 65536) and the data the last that many bytes |
| `LogPool.StepKeepsInv` | src/logger.rs:675-738 | every step of every caller keeps the ownership invariant |
| `LogPool.StepKeepsText` | src/logger.rs:727-749 | every step of every caller leaves a handle its own text, extended by its own accepted write |
| `LogPool.RunKeepsInv` | src/logger.rs:675-738 | in every interleaving a bit is set exactly when a live handle owns that buffer, and no two live handles share one |
| `LogPool.LoadStarts` | src/logger.rs:679 | a new call starts from the current state byte |
| `LogPool.AttemptOutcome` | src/logger.rs:681-723 | after any events, a caller whose value is current gets buffer 0 if that has no owner, else buffer 1 if that has none, else nothing; the state byte gains 1 or 2 |
| `LogPool.StaleAttemptRetries` | src/logger.rs:699 | a caller whose value is out of date tries again with the current one |
| `LogPool.FullAttemptGivesUp` | src/logger.rs:720-723 | a caller whose value shows both buffers in use gives up |
| `LogPool.ReleaseIsLocal` | src/logger.rs:732-738 | a release clears its own bit and leaves the other slot's bit, owner and bytes alone |
| `LogPool.HandleReadsOwnText` | src/logger.rs:727-749 | in every interleaving a live handle's bytes are exactly the accepted texts of its own writes, in order |
| `LogPool.WriteOutcome` | src/logger.rs:741-749 | a write is accepted whole exactly when it fits what is left of 1024 bytes |
| `LogPool.ObservedAt` | src/logger.rs:679-719 | a caller that keeps trying holds a value that the state byte really had at a moment since which it has been trying with it |
| `LogPool.RefusedOnlyWhenFull` | src/logger.rs:720-723 | acquisition gives up only after a moment, during the call, at which both buffers had owners |
| `LogPool.OnlyProgressChangesState` | src/logger.rs:684-738 | the state byte changes only by an acquisition or a release |
| `LogPool.RetryMeansProgress` | src/logger.rs:681-719 | a compare-exchange can fail only if another caller acquired or released a buffer meanwhile |
| `Machine.Le16Digits` | nvm/src/memory.rs:249-252 | the bytes of a 16-bit value are its base-256 digits, lowest first |
| `Machine.Le32Digits` | nvm/src/memory.rs:255-269 | the bytes of a 32-bit value are its base-256 digits, lowest first |
| `Machine.Le64Halves` | nvm/src/memory.rs:272-282 | a 64-bit value is stored as its low half, then its high half |
| `Machine.Le64RoundTrip` | nvm/src/memory.rs:272-282 | splitting a 64-bit value into bytes and joining them again gives the value |
| `GuestMemory.MapPartitions` | nvm/src/memory.rs:145-153 | the memory map covers each RAM address once and no other, and is reserved from 640 KB to 1 MB |
| `GuestMemory.PhysicalMemory.constructor` | nvm/src/memory.rs:120-162 | new RAM has the megabytes asked for, is zero and has the standard memory map |
| `GuestMemory.PhysicalMemory.ReadU8` | nvm/src/memory.rs:227-230 | a byte read returns the byte at the address |
| `GuestMemory.PhysicalMemory.WriteU8` | nvm/src/memory.rs:234-237 | a byte write changes that byte only |
| `GuestMemory.PhysicalMemory.WriteU16` | nvm/src/memory.rs:249-252 | the two bytes at the address become the value's, lowest first, and nothing else changes |
| `GuestMemory.PhysicalMemory.ReadU32` | nvm/src/memory.rs:255-261 | the value joined from four bytes, lowest first |
| `GuestMemory.PhysicalMemory.WriteU32` | nvm/src/memory.rs:264-269 | the four bytes at the address become the value's and nothing else changes |
| `GuestMemory.PhysicalMemory.ReadU64` | nvm/src/memory.rs:272-276 | the value joined from eight bytes, through two 32-bit reads |
| `GuestMemory.PhysicalMemory.WriteU64` | nvm/src/memory.rs:279-282 | the eight bytes at the address become the value's, through two 32-bit writes |
| `GuestMemory.LoadAfterStore` | nvm/src/memory.rs:272-282 | a stored 64-bit value is read back |
| `GuestMemory.LoadFrame` | nvm/src/memory.rs:272-276 | a 64-bit read does not depend on bytes outside its eight |
| `PageWalk.UnrolledIsRadix` | nvm/src/memory.rs:400-425 | the unrolled walk is the recursive descent over any digits that its four indices spell, with early leaves at levels 3 and 2 |
| `PageWalk.SharedLeaf` | nvm/src/memory.rs:393-425 | addresses that agree on the indices down to the leaf find the same leaf |
| `PageWalk.DescendFrame` | nvm/src/memory.rs:400-425 | a walk depends on no table entry but those it reads |
| `VirtualMemory.PathSpellsDigits` | nvm/src/memory.rs:393-397 | the four shifted and masked fields are the base-512 digits of the page number |
| `VirtualMemory.DigitsRebuildAddress` | nvm/src/memory.rs:393-398 | digits and page offset make up the low 48 bits of the address |
| `VirtualMemory.MaskIsBlock` | nvm/src/memory.rs:408-425 | the offset masks of the leaves are 4096 * 512^(level - 1) - 1 |
| `VirtualMemory.TranslateIsRadix` | nvm/src/memory.rs:386-426 | translation is the recursive descent over the digits of the address, plus the offset in the block of the leaf |
| `VirtualMemory.DecodeMeans` | nvm/src/memory.rs:402-424 | for all bits: an entry is present exactly when it is odd, large exactly when bit 7 is set, and its address is a whole number of pages |
| `VirtualMemory.BaseIsPage` | nvm/src/memory.rs:401 | the address in CR3 or an entry is its value rounded down to 4096 |
| `VirtualMemory.EntryAddress` | nvm/src/memory.rs:402 | entries are eight bytes apart |
| `VirtualMemory.LinkedTablesMap` | nvm/src/memory.rs:400-425 | four tables that RAM links along the digits of an address, by entries with any flags that say present, map its page to the last link |
| `VirtualMemory.LinkedTablesMap2M` | nvm/src/memory.rs:413-419 | tables linked down to a level 2 entry with bit 7, whatever its other flags, map its 2 MB page |
| `VirtualMemory.LinkedTablesMap1G` | nvm/src/memory.rs:405-411 | tables linked down to a level 3 entry with bit 7, whatever its other flags, map its 1 GB page |
| `VirtualMemory.UnlinkedFaults` | nvm/src/memory.rs:402-403 | a top entry whose lowest bit is clear maps nothing, whatever its other bits |
| `VirtualMemory.OutsidePanics` | nvm/src/memory.rs:218-223 | a top entry that does not lie in RAM as a whole makes the walk panic |
| `VirtualMemory.PagingOff` | nvm/src/memory.rs:388-391 | with CR3 zero addresses are physical |
| `VirtualMemory.HighBitsIgnored` | nvm/src/memory.rs:393-398 | with CR3 set, address bits 48 and above do not matter |
| `VirtualMemory.BlockIsLinear` | nvm/src/memory.rs:408-425 | from the start of a 4 KB, 2 MB or 1 GB block, translate(base + off) is translate(base) + off |
| `VirtualMemory.BlockSplices` | nvm/src/memory.rs:408-425 | from anywhere in a block, changing the offset bits changes those of the translation and nothing else |
| `VirtualMemory.SpliceAdds` | nvm/src/memory.rs:410-425 | joining frame and offset by bits is adding them |
| `VirtualMemory.VirtualMemory.constructor` | nvm/src/memory.rs:368-373 | paging starts switched off |
| `VirtualMemory.VirtualMemory.SetCr3` | nvm/src/memory.rs:376-378 | the page table base is replaced |
| `VirtualMemory.VirtualMemory.ReadU8` | nvm/src/memory.rs:429-431 | a virtual read gives the byte at the translation, or nothing when not mapped |
| `VirtualMemory.VirtualMemory.WriteU8` | nvm/src/memory.rs:434-441 | a virtual write succeeds exactly when the address is mapped, and changes the byte at the translation only |
| `VirtualMemory.FaultHasNoEffect` | nvm/src/memory.rs:429-441 | an address that is not mapped reads nothing and a write to it changes nothing |
| `VirtualMemory.MappedByteIsStored` | nvm/src/memory.rs:434-441 | a write to a mapped address stores the value at its translation |
| `VirtualMemory.TranslateFrame` | nvm/src/memory.rs:386-426 | a RAM byte outside the entries that a walk reads can change without changing the translation |
| `VirtualMemory.WriteReadsBack` | nvm/src/memory.rs:429-441 | a virtual write to a byte that its own walk does not read is read back at the same address |
| `VirtualMemory.WriteKeepsOthers` | nvm/src/memory.rs:429-441 | every address whose walk does not read the written byte keeps its translation, and its value unless it maps to that byte |
| `VirtualMemory.SelfMapLosesWrite` | nvm/src/memory.rs:434-441 | the side condition is needed: through a self-referencing table a write unmaps its own address |
| `StableOrder.SortIsStable` | nvm/src/network.rs:160 | the sort is ordered by key and keeps the order of equal keys |
| `StableOrder.SortPermutes` | nvm/src/network.rs:160 | the sort is a permutation |
| `StableOrder.StableSortIsUnique` | nvm/src/network.rs:160 | a list has only one stable sort |
| `StableOrder.PushesSortHistory` | nvm/src/network.rs:157-161 | sorting after every push is sorting the whole history once |
| `StableOrder.FirstMatchIsBest` | nvm/src/network.rs:157-195 | the first match of the kept list is the entry of the history with the least key, earliest among equals; none exactly if nothing matches |
| `NetworkPolicy.NetworkManager.constructor` | nvm/src/network.rs:133-140 | there are no policies at first |
| `NetworkPolicy.NetworkManager.AddPolicy` | nvm/src/network.rs:157-161 | the policy is pushed and the list stably sorted by falling priority |
| `NetworkPolicy.NetworkManager.EvaluatePolicy` | nvm/src/network.rs:179-195 | the scan returns the action of the first policy that matches protocol and port, or Allow |
| `NetworkPolicy.MatchesIffApplies` | nvm/src/network.rs:182-191 | a policy matches exactly when the packet's protocol is among those it is for, which are all unless it names one other than Any, and its port is listed if ports are |
| `NetworkPolicy.EvaluationPicksDeciding` | nvm/src/network.rs:157-195 | after any additions the applying policy of highest priority, earliest added, decides; without one it is Allow |
| `MmioBus.LookupAfterRegistrations` | nvm/src/memory.rs:586-603 | after any registrations, overlapping or not, the lookup finds the containing region with the lowest start, earliest registered, and its offset |
| `MmioBus.HandlerFill` | nvm/src/memory.rs:550-555 | the default handler fill makes one call per unit at consecutive offsets with the value as given |
| `MmioBus.WritesInRam` | nvm/src/memory.rs:732-763 | single writes that all go to RAM have the effect of one contiguous store of repeated units |
| `MmioBus.RamFillIff` | nvm/src/memory.rs:730-764 | the RAM path equals single writes exactly when no unit is in MMIO |
| `MmioBus.HandlerFillIff` | nvm/src/memory.rs:706-711 | the handler path equals single writes exactly when the value fits and all units lie at consecutive offsets of that handler |
| `MmioBus.CrossingFillIff` | nvm/src/memory.rs:712-727 | the unit path equals single writes exactly when the value fits |
| `MmioBus.RamRangeFits` | nvm/src/memory.rs:732 | a range that starts in RAM and whose units all succeed there fits RAM as a whole |
| `MmioBus.FillEqualsSinglesIff` | nvm/src/memory.rs:694-765 | for arbitrary regions, wherever single writes succeed, a fill succeeds with their effect on RAM and on all handler calls exactly under the condition `FillIsExact` |
| `MmioBus.SeparateIsConsecutive` | nvm/src/memory.rs:703-711 | when no two regions share an address or a handler, one handler at both ends means one region throughout |
| `MmioBus.FillOnSeparateRegions` | nvm/src/memory.rs:694-765 | for such regions the condition is: starts in MMIO with a value that fits, or has no unit in MMIO; otherwise the fill differs or panics |
| `AddressSpace.AddressSpace.constructor` | nvm/src/memory.rs:578-583 | no regions at first |
| `AddressSpace.AddressSpace.RegisterMmio` | nvm/src/memory.rs:586-591 | the region is pushed and the list stably sorted by start |
| `AddressSpace.AddressSpace.Find` | nvm/src/memory.rs:594-603 | the scan finds the first containing region and the offset in it |
| `AddressSpace.AddressSpace.StoreInRam` | nvm/src/memory.rs:718-724 | the four widths store their bytes; other widths store nothing |
| `AddressSpace.AddressSpace.Write` | nvm/src/memory.rs:617-683 | a single write goes to the handler with the value cut to the width, or to RAM |
| `AddressSpace.AddressSpace.Fill` | nvm/src/memory.rs:694-765 | the fill takes the RAM path, the handler path or the unit path by the handlers of its first and last byte; it reports what the handler reports on the second, and else the count |
| `AddressSpace.AddressSpace.FillHandler` | nvm/src/memory.rs:550-555 | the default handler fill, call by call, and the count that the handler reports |
| `AddressSpace.AddressSpace.FillUnits` | nvm/src/memory.rs:713-727 | the path across regions routes unit by unit and hands handlers the value as given |
| `AddressSpace.AddressSpace.FillRam` | nvm/src/memory.rs:732-763 | the RAM path stores the unit's low bytes over the whole slice |
| `Machine.StoreAt` | nvm/src/memory.rs:740-742 | a chunk copy changes the chunk only |
| `AddressSpace.NarrowIsRemainder` | nvm/src/memory.rs:615-683 | the value handed to a handler is cut modulo 2^8, 2^16 and 2^32, and not at all at 64 bits |
| `AddressSpace.NarrowKeepsIff` | nvm/src/memory.rs:615-683 | cutting keeps a value exactly when it is below the range of the width |
| `AddressSpace.BulkStoresUnits` | nvm/src/memory.rs:733-763 | for the four widths the RAM path stores per unit what a single write stores |
| `AddressSpace.FillMeansSingleWrites` | nvm/src/memory.rs:685-765 | for the four widths and separate regions, a fill succeeds and means single writes exactly when it starts in MMIO with a value below the range of the width, or avoids MMIO |
| `AddressSpace.FillSkipsHandler` | nvm/src/memory.rs:730-764 | a fill from RAM into a region makes no call, where single writes make one |
| `AddressSpace.FillPanicsPastRam` | nvm/src/memory.rs:732 | a fill from RAM into a region past the end of RAM panics where single writes succeed |
| `AddressSpace.FillKeepsWideValue` | nvm/src/memory.rs:703-711 | a fill calls a handler with 0x100, where a single byte write calls it with 0 |
| `AddressSpace.FillSwallowsMiddle` | nvm/src/memory.rs:703-711 | a fill over two regions of one handler calls it three times and leaves the RAM byte between; single writes call it twice and store the byte |
| `TextScreen.UnitStores` | nvm/src/devices/vga.rs:945-974 | a write of a unit stores its whole words that fit the text, or its one byte |
| `TextScreen.WritesAre` | nvm/src/devices/vga.rs:945-988 | a run of writes stores the units that fit and then the words of one more, as one stretch |
| `TextScreen.WholeIsUnits` | nvm/src/devices/vga.rs:993-998 | the units that fit are min(count, room / size) copies |
| `TextScreen.StrayBytesAre` | nvm/src/devices/vga.rs:953-967 | the bytes beyond them are the whole words of the rest of the room, if the count goes that far |
| `TextScreen.TextFill` | nvm/src/devices/vga.rs:993-1040 | a fill in the text stores nothing when no unit fits, and else as many copies as fit |
| `TextScreen.FillIsWritesIff` | nvm/src/devices/vga.rs:980-1040 | the bulk fill leaves the screen, dirty flag included, that a write per unit leaves exactly when it starts outside the text or its stray bytes add nothing; it reports the whole count exactly when it starts outside or all units fit |
| `TextScreen.AlignedFillIsWrites` | nvm/src/devices/vga.rs:980-1040 | fills aligned to their unit are exact for every count |
| `TextScreen.FillDropsTail` | nvm/src/devices/vga.rs:996-1002 | a fill at the end of the text that stores nothing and reports 0 where a write stores a word |
| `Vga.WordIsBytes` | nvm/src/devices/vga.rs:953-967 | the shifted words of a value are its little-endian bytes, two by two |
| `Vga.ClampedCount` | nvm/src/devices/vga.rs:994-998 | clamping the bytes to the room and dividing gives the number of units that fit |
| `Vga.Vga.constructor` | nvm/src/devices/vga.rs:97-141 | a new text buffer is blank and dirty |
| `Vga.Vga.WriteVramByte` | nvm/src/devices/vga.rs:637-642 | a byte inside the buffer is stored and makes it dirty |
| `Vga.Vga.WriteVramWord` | nvm/src/devices/vga.rs:645-651 | a word is stored whole or dropped |
| `Vga.Vga.WriteTextWords` | nvm/src/devices/vga.rs:953-967 | the words of a unit are written in order, each dropped if it does not fit |
| `Vga.Vga.WriteText` | nvm/src/devices/vga.rs:950-969 | units of 2, 4 and 8 bytes go word by word, units of every other size write one byte |
| `Vga.Vga.Write` | nvm/src/devices/vga.rs:945-974 | only offsets of the text buffer have an effect |
| `Vga.Vga.Fill` | nvm/src/devices/vga.rs:980-1040 | outside the text a write per unit; inside, copies of the units that fit, and their number; excluded are only the calls that panic |
| `Vga.Vga.FillInText` | nvm/src/devices/vga.rs:990-1040 | inside the text, copies of the units that fit, and their number |
| `Vga.Vga.WriteEach` | nvm/src/devices/vga.rs:984-986 | a write per unit at offsets one size apart, in order, for every size |
| `Vga.Vga.FillText` | nvm/src/devices/vga.rs:1005-1038 | the unit is copied into each chunk and the screen is dirty |
| `Vga.TextIsAtB8000` | nvm/src/devices/vga.rs:945-974 | with the region at 0xA0000, a unit written at 0xB8000 + k is stored at place k |
| `Vga.AlignedFillIsDefault` | nvm/src/devices/vga.rs:980-1040 | on the 4000-byte buffer every aligned fill of the four widths is the default fill |
| `Vga.DefaultFillOnScreen` | nvm/src/memory.rs:550-555 | the calls of the default fill do to the screen what a write per unit does |
| `Vga.OwnFillMeansDefaultIff` | nvm/src/devices/vga.rs:980-1040 | the handler's own fill has the effect of the calls that the bus model records exactly under that condition |
| `PciLanes.ByteAtIsLane` | nvm/src/hal.rs:119-136 | the shifted and masked byte is the lane of the register |
| `PciLanes.HalfAtIsLanes` | nvm/src/hal.rs:138-154 | the shifted and masked word is the two lanes of the register |
| `PciLanes.PutByteIsLane` | nvm/src/hal.rs:164-182 | the masked merge of a byte changes its lane only |
| `PciLanes.PutHalfIsLanes` | nvm/src/hal.rs:184-202 | the masked merge of a word changes its two lanes only |
| `PciWindow.RoutedIsAligned` | nvm/src/hal.rs:119-210 | the accesses routed to the window are those of 1, 2 or 4 bytes aligned to their size within ports 0xCF8 to 0xCFF |
| `PciWindow.PeekIsRegister` | nvm/src/hal.rs:119-162 | the bytes of the window at a port are the lanes of the register behind it |
| `PciWindow.ReadModifyWriteIsPoke` | nvm/src/hal.rs:164-210 | a read-modify-write of a whole register replaces just the bytes that were modified |
| `PciPorts.ConfigAddressInvertsParse` | nvm/src/pci.rs:250-261 | every enabled address is that of the location and offset parsed from it, up to the bits the parser skips, and the location fits the format |
| `PciPorts.ParseNeedsEnable` | nvm/src/pci.rs:250-253 | an address selects nothing exactly when it is below 0x8000_0000 |
| `PciPorts.ParseBytes` | nvm/src/pci.rs:250-261 | an address names what its four bytes say: enable bit, bus, device and function, dword |
| `PciPorts.ConfigAddressBytes` | nvm/src/pci.rs:45-51 | the four bytes of a constructed address, in numbers |
| `PciPorts.ParseInvertsConfigAddress` | nvm/src/pci.rs:45-51 | parsing a constructed address gives back bus, device, function and dword, up to the bits the format drops |
| `PciPorts.Read32IsFourBytes` | nvm/src/pci.rs:127-141 | a dword read is the four bytes of the space, lowest first |
| `PciPorts.Write32IsFourBytes` | nvm/src/pci.rs:143-157 | a dword write replaces the four bytes and nothing else |
| `PciPorts.InRefines` | nvm/src/hal.rs:119-162 | every routed read returns the bytes at its port of a window that selects by its own address bytes, all ones without a device |
| `PciPorts.OutRefines` | nvm/src/hal.rs:164-210 | every routed write replaces exactly the bytes at its port of that window, in the address register or in the selected function |
| `PciPorts.DisabledWindow` | nvm/src/pci.rs:250-297 | while the enable bit is clear, data reads give ones and data writes change nothing |
| `PciPorts.PerformRefines` | nvm/src/hal.rs:119-238 | every routed port access and every direct access does to the registers what it does to the window |
| `PciPorts.RunRefines` | nvm/src/hal.rs:119-238 | over any run of routed and direct accesses the registers and spaces stay the image of the byte-addressed window |
| `PciPorts.InAfterRun` | nvm/src/hal.rs:119-238 | what a read returns after any run is what the window then holds |
| `PciPorts.ReadIsDword` | nvm/src/hal.rs:216-226 | a direct read gives the dword of the addressed function, all ones without a device |
| `PciPorts.WriteIsDword` | nvm/src/hal.rs:228-238 | a direct write replaces that dword of that function and nothing else, nothing at all without a device |
| `PciPorts.PciBus.constructor` | nvm/src/pci.rs:216-221 | an empty bus with the address register at 0 |
| `PciPorts.PciBus.AddDevice` | nvm/src/pci.rs:224-226 | the space is placed at its location |
| `PciPorts.PciBus.LoadData` | nvm/src/pci.rs:274-285 | the selected dword, or all ones |
| `PciPorts.PciBus.StoreData` | nvm/src/pci.rs:288-297 | the selected dword is replaced, if there is a device |
| `PciPorts.PciBus.Inb` | nvm/src/hal.rs:119-136 | reads the lane of the register behind the port |
| `PciPorts.PciBus.Inw` | nvm/src/hal.rs:138-154 | reads the half of the register behind the port |
| `PciPorts.PciBus.Inl` | nvm/src/hal.rs:156-162 | reads the register behind the port |
| `PciPorts.PciBus.Outb` | nvm/src/hal.rs:164-182 | merges the byte into the register behind the port |
| `PciPorts.PciBus.Outw` | nvm/src/hal.rs:184-202 | merges the word into the register behind the port |
| `PciPorts.PciBus.Outl` | nvm/src/hal.rs:204-210 | replaces the register behind the port |
| `PciPorts.PciBus.ReadConfig32` | nvm/src/hal.rs:216-226 | selects and reads a dword, leaving it selected |
| `PciPorts.PciBus.WriteConfig32` | nvm/src/hal.rs:228-238 | selects and writes a dword, leaving it selected |
| `Snapshot.SnapshotRange` | nvm/src/vm.rs:1038-1043 | the page loop adds exactly the non-zero pages of its range |
| `Snapshot.SnapshotMemory` | nvm/src/vm.rs:1032-1054 | the snapshot is exactly the non-zero pages below 16 MB |
| `Snapshot.RestoreMemory` | nvm/src/vm.rs:1057-1061 | in whatever order the pages come, their bytes are written back and all others stay |
| `Snapshot.WritePage` | nvm/src/memory.rs:303-316 | a page write changes that page only |
| `Snapshot.SnapshotFits` | nvm/src/vm.rs:1032-1061 | a snapshot can be restored into RAM of the same size |
| `Snapshot.RestoredBytes` | nvm/src/vm.rs:1032-1061 | after a restore each byte is that of the snapshot if its page was non-zero and below 16 MB, else as before |
| `Snapshot.SnapshotDeterminesLowMemory` | nvm/src/vm.rs:1032-1054 | snapshots are equal exactly when all pages below 16 MB are |
| `Snapshot.PageBackIff` | nvm/src/vm.rs:1032-1061 | a page below 16 MB comes back exactly unless it was zero and is not any more |
| `Snapshot.FilledPageStays` | nvm/src/vm.rs:1032-1061 | a restore that leaves a byte written to a page that was zero, so that neither the low 16 MB nor a new snapshot is as taken |
| `Snapshot.FullyRestoredIff` | nvm/src/vm.rs:993-1061 | the low 16 MB is restored, and a new snapshot is the same, exactly when no page that was zero has been filled since |
| `RateLimiter.Limiter.constructor` | nvm/src/api.rs:150-155 | no client has an entry at first |
| `RateLimiter.Limiter.Check` | nvm/src/api.rs:157-177 | the client's entry and the verdict follow the fixed-window rule, other clients are untouched |
| `RateLimiter.RefusedIffFull` | nvm/src/api.rs:167-176 | a request is refused exactly inside a window under 60 seconds old that holds `limit` admissions |
| `RateLimiter.AtMostNearlyTwice` | nvm/src/api.rs:157-177 | with a positive limit and a clock that does not run backwards, a client is admitted at most 2 * limit - 1 times in any half-open minute |
| `RateLimiter.BoundIsReached` | nvm/src/api.rs:157-177 | for every positive limit some run reaches that bound |
| `RateLimiter.ZeroLimitAdmits` | nvm/src/api.rs:167-170 | a run in which a limit of zero admits a request |
| `RateLimiter.TwiceIsBoundIff` | nvm/src/api.rs:167-170 | twice the limit bounds all runs exactly when the limit is positive |
| `RateLimiter.CountIsAdmissions` | nvm/src/api.rs:164-173 | the stored count is the number of admissions since the stored start |
| `RateLimiter.RefusedOnlyWhenFull` | nvm/src/api.rs:171-176 | a refusal happens only inside a window under 60 seconds old that holds exactly `limit` admissions |
| `VirtualCpu.MsrReadsBack` | nvm/src/cpu.rs:1071-1115 | an MSR write is read back, performance counters included, and changes no other MSR |
| `VirtualCpu.VirtualCpu.InjectInterrupt` | nvm/src/cpu.rs:1317-1325 | the vector joins the end of the queue |
| `VirtualCpu.VirtualCpu.InjectNmi` | nvm/src/cpu.rs:1328-1330 | the NMI becomes pending |
| `VirtualCpu.VirtualCpu.HasPendingInterrupt` | nvm/src/cpu.rs:1340-1352 | true exactly when a delivery would return a vector |
| `VirtualCpu.VirtualCpu.DeliverInterrupt` | nvm/src/cpu.rs:1355-1384 | a pending NMI first, else the head of the queue if interrupts are on and it is above the priority threshold in CR8, else nothing |
| `VirtualCpu.FreshMsrIsZero` | nvm/src/cpu.rs:1073 | an MSR that was never written reads 0 |
| `VirtualCpu.CountersAreSeparate` | nvm/src/cpu.rs:1078-1087 | the seven performance counters are read from their own storage, all other MSRs from the table |
| `VirtualCpu.Threshold` | nvm/src/cpu.rs:1372 | a vector passes exactly when it is above 16 times the low 60 bits of CR8 |
| `VirtualCpu.NmiFirst` | nvm/src/cpu.rs:1359-1364 | a pending NMI is delivered as vector 2, once, whatever else holds |
| `VirtualCpu.HeadDelivered` | nvm/src/cpu.rs:1366-1383 | without an NMI, the head of the queue is delivered exactly when interrupts are enabled and it is above 16 times CR8 |
| `VirtualCpu.DisabledHoldsQueue` | nvm/src/cpu.rs:1366-1369 | over any run that does not enable them, disabled interrupts hold back the whole queue |
| `VirtualCpu.FlagsKeptElsewhere` | nvm/src/cpu.rs:1304-1314 | enabling sets and disabling clears bit 9 of RFLAGS and no other bit |
| `VirtualCpu.NmiPendingIff` | nvm/src/cpu.rs:1328-1363 | an NMI is pending exactly when one was injected since the last delivery |
| `VirtualCpu.Cr8IsLastWritten` | nvm/src/cpu.rs:1371-1372 | the threshold is that of the last write to CR8 |
| `VirtualCpu.InterruptsAreConserved` | nvm/src/cpu.rs:1317-1384 | over any run the external vectors queued and injected are those delivered followed by those pending, in order |
| `VirtualCpu.MaskedHeadBlocks` | nvm/src/cpu.rs:1371-1383 | a masked head holds back all external vectors until CR8 is written |
| `VirtualCpu.EnabledFollowsIf` | nvm/src/cpu.rs:1304-1314 | over any run the enabled flag equals the IF bit |
| `VmcsFields.InitialRegisters` | nvm/src/vmx.rs:537-611 | the first values of the guest registers, PAT and EFER |
| `VmcsFields.InitialSegments` | nvm/src/vmx.rs:545-585 | the first selectors, bases, limits and access rights of the eight segment registers |
| `VmcsFields.InitialControls` | nvm/src/vmx.rs:587-616 | the first values of descriptor tables, controls, bitmaps, link address and states |
| `Vmx.SavedGuest` | nvm/src/vmx.rs:658-674 | saving puts the whole guest state into the VMCS fields |
| `Vmx.LoadedGuest` | nvm/src/vmx.rs:636-655 | loading takes the whole guest state, the interrupt flag and the SYSENTER MSRs from the fields, onto any CPU |
| `Vmx.VmxManager.constructor` | nvm/src/vmx.rs:820-830 | off, nothing registered, first identifier 1, no counts |
| `Vmx.VmxManager.EnableVmx` | nvm/src/vmx.rs:843-852 | switches on, or reports why not |
| `Vmx.VmxManager.DisableVmx` | nvm/src/vmx.rs:855-862 | switches off and unloads, or reports that it was off |
| `Vmx.VmxManager.CreateVmcs` | nvm/src/vmx.rs:870-881 | registers a new VMCS, with all its first field values, under a fresh identifier |
| `Vmx.VmxManager.LoadVmcs` | nvm/src/vmx.rs:884-895 | loads a registered VMCS and marks it active |
| `Vmx.VmxManager.ClearVmcs` | nvm/src/vmx.rs:898-908 | resets active, launched and the abort indicator; an unknown identifier is no error |
| `Vmx.VmxManager.VmWrite` | nvm/src/vmx.rs:926-931 | writes a field of the loaded VMCS |
| `Vmx.VmxManager.VmEntry` | nvm/src/vmx.rs:934-955 | fails with code 0 or 1 by launch state, else loads the guest onto the CPU, marks launched and counts |
| `Vmx.VmxManager.VmExit` | nvm/src/vmx.rs:958-977 | saves the guest, records reason and qualification, counts in total and by reason |
| `Vmx.TotalOfBump` | nvm/src/vmx.rs:970-974 | counting one reason up raises the sum over all reasons by one |
| `Vmx.RunKeepsInv` | nvm/src/vmx.rs:843-977 | over every run a loaded VMCS implies VMX is on and the VMCS registered, identifiers are fresh, no abort is recorded, and the exit total is the sum over the reasons |
| `Vmx.CountersCannotWrap` | nvm/src/vmx.rs:805-828 | no run short of 2^64 - 1 operations wraps an identifier or a counter |
| `VmxRuns.LaunchStateMeans` | nvm/src/vmx.rs:934-955 | over every run a VMCS is launched exactly when a launch of it succeeded since its last clear |
| `VmxRuns.OneLaunchBetweenClears` | nvm/src/vmx.rs:938-940 | two successful launches of a VMCS have a clear between them |
| `VmxRuns.ResumeFollowsLaunch` | nvm/src/vmx.rs:941-943 | every successful resume follows a successful launch with no clear between |
| `VmxRuns.OnlyTheseChangeFields` | nvm/src/vmx.rs:843-977 | only an exit from a VMCS or a write to it while loaded changes its fields |
| `VmxRuns.GuestKept` | nvm/src/vmx.rs:843-977 | over any stretch without those the guest state in a VMCS stays |
| `VmxRuns.GuestContextSurvives` | nvm/src/vmx.rs:934-977 | an entry on any CPU brings back the guest state of the last exit of that VMCS, whatever ran in between without writing it |
| `VmxRuns.SysenterStep` | nvm/src/vmx.rs:636-674 | only a write to its field while loaded changes what a VMCS holds for a SYSENTER MSR |
| `VmxRuns.FieldIsLastWritten` | nvm/src/vmx.rs:926-931 | over every run a SYSENTER field holds the last value written to it, or 0 |
| `VmxRuns.EntryLoadsLastWritten` | nvm/src/vmx.rs:934-955 | at every successful entry each SYSENTER MSR becomes the last value written to its field while the VMCS was loaded, or 0 |
| `VmxRuns.LastWrittenIsUnique` | nvm/src/vmx.rs:926-931 | there is only one such value |
| `VmxRuns.SysenterSurvivesIff` | nvm/src/vmx.rs:934-977 | what a SYSENTER MSR held at an exit is back at a later entry exactly when it is the last value written to the field before that entry |
| `VmxRuns.SysenterLost` | nvm/src/vmx.rs:652-674 | a guest leaves with a SYSENTER value and comes back with 0 |
| `VmxOutcomes.EnabledIffOn` | nvm/src/vmx.rs:843-862 | VMX is on exactly when it is supported and was switched on since it was last switched off |
| `VmxOutcomes.RegisteredIff` | nvm/src/vmx.rs:870-881 | the registered identifiers are 1 up to the number of creations made while VMX was on |
| `VmxOutcomes.CurrentIffLoaded` | nvm/src/vmx.rs:884-895 | a VMCS is the loaded one exactly when it was loaded and nothing has unloaded it since |
| `VmxOutcomes.ActiveIffLoadedSinceClear` | nvm/src/vmx.rs:884-908 | a VMCS is active exactly when it was loaded since it was last cleared |
| `VmxOutcomes.SwitchAnswers` | nvm/src/vmx.rs:843-862 | what VMXON and VMXOFF answer, from the operations before |
| `VmxOutcomes.RegistryAnswers` | nvm/src/vmx.rs:870-908 | what creating, loading and clearing answer, from the operations before |
| `VmxOutcomes.EntryAnswers` | nvm/src/vmx.rs:934-955 | a launch succeeds exactly when no launch succeeded since the last clear, a resume exactly when one did; else they fail with codes 0 and 1 |
| `VmxOutcomes.ResumesIff` | nvm/src/vmx.rs:941-954 | a resume of the loaded VMCS succeeds exactly when a launch of it succeeded since its last clear |
| `VmxOutcomes.LaunchesIff` | nvm/src/vmx.rs:938-954 | a launch of the loaded VMCS succeeds exactly when none did since its last clear |
| `VmxOutcomes.LoadedAnswers` | nvm/src/vmx.rs:911-977 | without a loaded VMCS entries, exits and writes fail and change nothing; with one, exits and writes succeed |
| `VmxOutcomes.ExitInfoReadsBack` | nvm/src/vmx.rs:966-967 | reason and qualification of an exit can be read from the VMCS it left |
| `VmxOutcomes.WriteReadsBack` | nvm/src/vmx.rs:926-931 | a written field is read back and no other changes |
| `VmxOutcomes.CountsAreExits` | nvm/src/vmx.rs:970-974 | the count of each reason is the number of its exits |
| `VmxOutcomes.EntriesAreCounted` | nvm/src/vmx.rs:952 | the entry count is the number of successful entries |
| `VmxOutcomes.CreatedIsNew` | nvm/src/vmx.rs:870-881 | a created VMCS is neither active nor launched and has the first field values |
| `Symbols.SymbolTable.constructor` | nvm/src/debugger.rs:158-172 | no symbols at first |
| `Symbols.SymbolTable.AddSymbol` | nvm/src/debugger.rs:533-536 | the name is recorded for the address and the address for the name |
| `Symbols.SymbolTable.ResolveSymbol` | nvm/src/debugger.rs:551-583 | the answer is the label of the closest symbol at or below the address, and none exactly if all lie above |
| `Symbols.AnswerIsUnique` | nvm/src/debugger.rs:560-573 | no iteration order of the map can change the answer |
| `Symbols.HexRoundTrip` | nvm/src/debugger.rs:580 | the hexadecimal offset reads back as the number |
| `Symbols.LabelFormat` | nvm/src/debugger.rs:575-582 | a label is the name, followed unless the offset is 0 by +0x and the offset in hexadecimal |
| `Symbols.LabelTellsOffset` | nvm/src/debugger.rs:575-582 | labels of one name with different offsets differ |
| `Symbols.TableHoldsCurrent` | nvm/src/debugger.rs:533-536 | after any additions the table holds the name given last to each address added |
| `Symbols.AnswerAfterAdds` | nvm/src/debugger.rs:533-583 | after any additions an answer carries the name given last to the closest address added |
| `LineRanges.HtmlRanges` | scripts/src/html-report.ts:79-96 | for every list the ranges spell it out in order and cannot be merged |
| `LineRanges.CliRanges` | scripts/src/cli.ts:624-644 | for every list the ranges spell out its sorted distinct numbers and cannot be merged |
| `LineRanges.SortedDistinctIs` | scripts/src/cli.ts:628 | the sorted list is strictly increasing and has the numbers of the input |
| `LineRanges.CompressionIsUnique` | scripts/src/html-report.ts:82-96 | a list has only one compression |
| `LineRanges.CompressorsAgree` | scripts/src/html-report.ts:79-96 | on strictly increasing lists both compressors yield the same ranges |
| `LineRanges.CliCoversInput` | scripts/src/cli.ts:624-644 | the command line ranges cover exactly the input's numbers and leave a gap between any two |

## Left out

- The rest of the kernel: boot, scheduling, drivers and file systems; log formatting, levels and timestamps.
- The debugger apart from symbol lookup, and the parsing of symbol files: table upkeep that would only add easy members.
- The JIT, the executors' run loops, the SVM manager and the EPT tables.
- CPU snapshots: they copy fields, and a restore empties the interrupt queue; exceptions, CPUID and CPU events.
- Device ticking, keyboard and disk code, and of the VGA device all but writes to its text buffer; devices behind other ports than the PCI ones.
- Reads through the bus: what a handler returns is up to the device.
- Memory statistics, event logs and counters that only grow, except the exit counts.
- Feature flags, YAML and TOML loading, process spawning and HTML output of the build tool; joining and truncating the range strings.
- LogPool.RunKeepsInv: atomic accesses are sequentially consistent; weaker memory orderings are not modelled.
- RateLimiter.Limiter.Check: a clock earlier than the window start underflows a subtraction in the source and is excluded.
- AddressSpace.AddressSpace.Fill: records the calls of the default handler fill; for the one handler with a fill of its own, `Vga.OwnFillMeansDefaultIff` says when that is its effect, and `TextScreen.Reported` is the count it reports. Ranges and region ends that overflow 64-bit addresses, where the source overflows an addition, are excluded or unbounded.
- MmioBus.LookupAfterRegistrations: addresses and region ends are unbounded numbers; regions whose end overflows 64 bits are not modelled.
- Vmx.VmxManager.CreateVmcs: identifiers are unbounded; `Vmx.CountersCannotWrap` bounds the runs for which that makes no difference.
- PciPorts.PciBus.AddDevice: devices are added before a run, not during it.
