# WaterBuffalo memory management, modelled in Dafny

This project models the memory manager of the WaterBuffalo kernel, the physical frame allocator
and the four-level page tables built on it, and proves what they promise over every input and
every run. A second, smaller part models the kernel's formatted printer.

Check everything with `dafny verify dfyconfig.toml`.

## How the model is laid out

| file | what it holds |
|---|---|
| `Bits.dfy` | bitwise and, or, not and shifts on 64-bit words, digit by digit, and their meaning as arithmetic |
| `AddressCodec.dfy` | address split and join, canonical check, entry packing, written with the header's masks and shifts |
| `PageTree.dfy` | the table tree in physical memory: where each table is, the tree invariant, one write, one link, the walk |
| `Mapper.dfy` | one mapping call on decoded memory, and its refinement of a flat map |
| `Ranges.dfy`, `RangeOutcome.dfy` | range calls, the table budget, and what a range call leaves behind |
| `Spaces.dfy` | several address spaces on one machine: who owns which frame, and what a call on one means for the others |
| `Runs.dfy`, `RunHistory.dfy` | whole runs: spaces created and mapped into in any order, interleaved with clients of the allocator; and what they leave, told by their calls and answers |
| `WalkOutcome.dfy` | the same results said of the hardware walk |
| `AnyMemory.dfy` | the steps of a call, and the walk, whatever memory holds |
| `Exhaustion.dfy`, `ExhaustedRuns.dfy`, `ExhaustedBuild.dfy` | what happens, and exactly when, if frames run out: in one call, in a range call, over a run, in the kernel's build |
| `PageEntries.dfy` | page-table entries as words and as decoded records |
| `FrameBitmap.dfy`, `FrameAllocator.dfy`, `AllocatorProperties.dfy` | the packed bitmap, the allocator class, and what init and every later run keep |
| `AddressSpaces.dfy` | the paging calls as methods over word memory, proved equal to their meaning on decoded memory |
| `AddressOutcome.dfy` | the same calls by address and flag bit: when they succeed, what they map, which word they store |
| `Extents.dfy`, `KernelSpace.dfy`, `Boot.dfy` | lists of ranges, the kernel's address space, and the boot sequence that ties allocator and paging together |
| `Numerals.dfy`, `Printer.dfy`, `PrintedForms.dfy` | numerals, the format interpreter, and what each format prints |

Numbers are naturals below 2^64 where the source has `uint64_t`; every place the source can wrap
is written with an explicit remainder. Physical memory is a store of 2^40 frames of 512 words,
as many as the 52-bit address field of an entry can name. A table is named by its level and by
the number all pages below it share, so the tree needs no ghost state: `TableAt` and `SlotAt`
read it off memory.

A mapping call is described three times: as the method over words (`PageTables.MapPage`), as a
function on decoded memory (`MapSmall`), and as one step of a flat map from page number to
mapping (`FlatUnit`). The first two are proved equal, the third is proved to be what the walk
of every page sees.

Preconditions that come from outside the code: flags words name no address bit, frame numbers
stay below 2^40 (physical addresses are 52 bits wide), and the direct map shows no page table at
address 0. The last holds for every frame under a built direct map except frame 0 with an offset
of 0 (`KernelSpace.FrameReachable`); there `allocate_table` writes through a null pointer before
anything tests it (src/mm/vmm.cpp:30-37), and C++ no longer says what happens.

Results about calls that need frames assume that the frames are there when the call needs them:
`UnitSupplied` asks of a call that could go through for a frame per table it misses (`Enough`);
`RangeSupplied`, `AllSupplied`, `ExtentsSupplied` and `KernelSupplied` ask it of every call a
range, a run, a list of ranges or the kernel's build makes, in the state that call meets. Nothing
less would do: without them frame 0 becomes a table (`RangeDryIff`, `RunDryIff`, `ExtentsDryIff`,
`KernelDryIff`). For a range, a list or a build that can go through they come down to counting:
the free frames must be as many as the missing tables (`RangeSuppliedIff`, `ExtentsSuppliedIff`,
`KernelSuppliedIff`). Bounds read off the address bits (`Budget`, `TotalCost`, `KernelCost`) are
shown to suffice.

## Where the code does less than its comments say

- `create_address_space` is documented to return false when no frame is available
  (src/mm/vmm.hpp:272), and `allocate_table` tests for `UINT64_MAX` (src/mm/vmm.cpp:26), but
  `alloc_frame` answers 0 (src/mm/pmm.cpp:363). Exhaustion is not noticed: frame 0 is wiped and
  used as a table. A new root is frame 0 if and only if no frame is free or 0 is
  (`Exhaustion.RootsInARow`). A mapping call makes frame 0 a table if and only if the missing
  tables outnumber the free frames (`SmallExact`, `LargeExact`, `UnitDryIff`, `RangeDryIff`).
- `map_page` promises that success means the page is mapped. `Exhaustion.LostIff` says exactly when
  it is not: no pointer table, no frame for it, and a directory index that differs from both the
  table index and the pointer index of the page. If those two are equal, the walk takes the mapped
  frame itself for a directory, and the page is lost unless what that frame holds happens to lead
  to the mapping asked for (`LeadsBack`; always so for frame 0). `Exhaustion.LostMapping` is a call
  that loses its page. `map_page_large` keeps the promise always (`LargeExact`). In a space that does
  not yet use frame 0, neither call harms a page that was mapped before.
- `translate` answers 0 for failure on the ground that nothing maps frame 0
  (src/mm/vmm.hpp:342); the direct map does (`KernelSpace.FrameZeroMapped`). Results are stated
  on the walk, which tells the two apart.
- The bitmap is placed at a region's base as it is, but the frames reserved for it start at the
  rounded-down frame. `AllocatorProperties.StorageKeptIff` gives the exact condition on the memory
  map under which no byte of it lies in a free frame; an aligned base suffices, and
  `StorageExposed` is a map that fails.
- The free counter is incremented without looking at the old bit.
  `AllocatorProperties.InitialCount` proves by how much it starts ahead, and that it is exact if no
  frame lies in two usable regions and, short of 2^64 counts, only then; `CountedTwiceOnce` is a
  map that fails. The error never grows (`RunFromInit`).
- A length modifier with nothing after it makes the interpreter step past the terminator: `"%l"`
  does, `"%%l"` does not (`Printer.LongOverruns`). `Printer.OverrunsIff` proves that the scan by
  position leaves the string if and only if it meets one (`BareLong`), and `Printer.Kprintf` is
  stated for every other format.
- `emit_unsigned` has room for 24 digits and takes any base. `Numerals.BufferFitsIff` proves that
  the digits fit if and only if the value is below base^24, as all 64-bit values are exactly in
  the bases from 7 up.

## Model

| member | source | states |
|---|---|---|
| AddressCodec.DecomposeDivides | src/mm/vmm.hpp:174-197 | the five fields are the base-512 digits and the page offset of the address |
| AddressCodec.CanonicalHalves | src/mm/vmm.hpp:244-254 | an address is canonical exactly when it lies in the lowest or the highest 2^47 bytes |
| AddressCodec.ReassembleAdds | src/mm/vmm.hpp:204-222 | joining adds the shifted fields and sign-extends from bit 47 |
| AddressCodec.DecomposeReassembled | src/mm/vmm.hpp:174-222 | joining in-range fields gives a canonical address that splits into the same fields |
| AddressCodec.ReassembleDecomposed | src/mm/vmm.hpp:174-254 | splitting and joining restores an address if and only if it is canonical |
| AddressCodec.SameIndicesSamePage | src/mm/vmm.hpp:174-197 | two canonical addresses share all four table indices if and only if they lie in one 4 KiB page |
| AddressCodec.AlignUpRounds | src/mm/vmm.hpp:25-28 | for every power of two, align_up gives the least multiple not below the value, or 0 when that is past the last 64-bit word |
| PageEntries.EntryRoundTrip | src/mm/vmm.hpp:119-145 | address and flags packed into an entry come out unchanged |
| PageEntries.IntermediateIs | src/mm/vmm.cpp:65-79 | interior flags are present and writable, and user exactly when the leaf's are |
| PageEntries.DecodeInterior | src/mm/vmm.cpp:106-110 | the entry of a new table links it, writable, never no-execute, and user when asked |
| PageEntries.DecodeRaised | src/mm/vmm.cpp:115-118 | or-ing permissions into a linked entry keeps its table and every other bit |
| PageEntries.DecodeLeaf | src/mm/vmm.cpp:331-396 | the leaf entries carry exactly the frame and the rights asked for, present, and large only for 2 MiB pages |
| PageEntries.DecodePositions | src/mm/vmm.hpp:44-60 | every field of an entry and of a flags word, by its bit position |
| PageEntries.EncodeDecoded | src/mm/vmm.hpp:119-145 | decoding loses and moves no bit of a word |
| PageEntries.LeafWords | src/mm/vmm.cpp:331-396 | the leaf words are the address and the flags as given, with bit 0 set, and bit 7 for 2 MiB pages |
| PageTree.LinkedOnce | src/mm/vmm.cpp:82-126 | in a sound tree every linked frame is referenced by exactly one entry and the root by none |
| PageTree.WriteKeepsTree | src/mm/vmm.cpp:115-118 | rewriting an entry without changing its link keeps the tree invariant |
| PageTree.LinkKeepsTree | src/mm/vmm.cpp:98-113 | linking a zeroed frame taken from the free set keeps the tree invariant |
| PageTree.WalkIsLeaf | src/mm/vmm.hpp:296-299 | the rights combined over all levels are the leaf's own, for every page |
| AnyMemory.InteriorStep | src/mm/vmm.cpp:82-126 | on any memory an interior step is refused exactly on an entry with the large bit, keeps a present table and raises its permissions, or links the least free frame, wiped, and touches nothing else |
| AnyMemory.SmallAnywhere | src/mm/vmm.cpp:284-338 | on any memory map_page past its checks succeeds exactly when no step is refused and the last entry is not present, and then writes that entry alone |
| AnyMemory.LargeAnywhere | src/mm/vmm.cpp:364-399 | likewise for map_page_large |
| AnyMemory.WalkAnywhere | src/mm/vmm.cpp:418-506 | on any memory a page is mapped exactly when present entries lead to a leaf; rights are those all entries of the path grant |
| Mapper.EnsureStep | src/mm/vmm.cpp:82-126 | an interior step yields the table below, keeps the tree and every leaf, and takes a frame only for a missing table |
| Mapper.DescendStep | src/mm/vmm.cpp:284-302 | with frames for the missing tables the descent to a page directory succeeds and changes no leaf |
| Mapper.PresentIffMapped | src/mm/vmm.cpp:380-388 | a directory entry is present if and only if some page under it is mapped, since no linked table is empty |
| Mapper.MapSmallRefines | src/mm/vmm.cpp:238-338 | map_page succeeds if and only if the page is unmapped, adds that mapping alone, writes no frame outside the space, keeps the invariant, and when refused takes no frame |
| Mapper.MapLargeRefines | src/mm/vmm.cpp:340-399 | map_page_large succeeds if and only if no page of the 2 MiB region is mapped, maps all 512, writes no frame outside the space, and when refused changes nothing |
| Ranges.UnitRefines | src/mm/vmm.cpp:238-399 | one mapping call answers and acts as one step of the flat map |
| Ranges.UnitsRefine | src/mm/vmm.cpp:172-184 | the range loop refines the same loop on the flat map when each unit it reaches finds its frames |
| Ranges.RangeReserved | src/mm/vmm.cpp:128-232 | frames for the tables of the range, or a free set the size of its budget, supply every unit of it |
| Ranges.RangeRefines | src/mm/vmm.cpp:128-232 | both range calls refine the flat map and add only tables of their range, and all of them when they succeed |
| Ranges.RangeNodesBound | src/mm/vmm.cpp:128-232 | a range needs at most one table per value of the address bits from 39, 30 and, for small pages, 21 on |
| Ranges.BudgetExact | src/mm/vmm.cpp:128-232 | in one canonical half a range needs exactly that many |
| RangeOutcome.RangeAdds | src/mm/vmm.cpp:170-184 | a range call adds exactly the pages before its first refused unit |
| RangeOutcome.RangeExact | src/mm/vmm.cpp:136-186 | a range call succeeds if and only if its arguments are valid and its whole range lies in one canonical half, has 52-bit physical addresses and is unmapped |
| RangeOutcome.RangeSuppliedIff | src/mm/vmm.cpp:128-232 | a range that can go through finds its frames if and only if its missing tables do not outnumber the free frames |
| RangeOutcome.RangeCanonical | src/mm/vmm.cpp:167-186 | on any machine, frames or not, a successful range was wholly canonical and in one half, and its pages are consecutive in the tables |
| Spaces.FreshSpace | src/mm/vmm.cpp:48-62 | a new space has one table, the least free frame, and maps nothing |
| Spaces.OtherSpaceKept | src/mm/vmm.cpp:82-126 | a mapping call on one space keeps another with disjoint tables sound, its tables, and the walk of its every page, and shares none with it afterwards |
| Spaces.TakenAreTables | src/mm/vmm.cpp:98-113 | the frames a call takes are exactly the tables it adds |
| Runs.StepRefines | src/mm/vmm.cpp:48-399 | every operation that finds its frames answers as the flat maps, keeps every space sound, keeps each frame in one role (free, held, table of one space), and loses no frame |
| Runs.RunRefines | src/mm/vmm.cpp:48-399 | the same over every run of creations, mapping calls and client requests, on any number of spaces |
| Runs.WalkAfterRun | src/mm/vmm.cpp:48-506 | from the first address space on, after any such run the walk of every page of every space is the flat map folded from its successful calls |
| Runs.TranslationsPersist | src/mm/vmm.hpp:288-291 | a mapping in force at one point of a run is in force, unchanged, at every later point |
| Runs.Isolation | src/mm/vmm.cpp:128-399 | a run that maps nothing into a space leaves the walk of its every page as it was |
| Runs.CostSupplies | src/mm/vmm.cpp:82-113 | a run whose summed worst-case cost is free at the start finds its frames throughout |
| Runs.ClientMoves | src/mm/pmm.cpp:326-405 | a client's request moves the least free frame to those it holds, and a release moves it back |
| RunHistory.StepAnswers | src/mm/vmm.cpp:128-399 | an operation of a run answers true exactly when its space exists, its arguments are aligned, in one canonical half and in physical reach, and none of its pages is mapped in the state it meets |
| RunHistory.WalkHistory | src/mm/vmm.cpp:48-506 | after any run, pages of successful calls walk to the frame and rights asked for; every mapped page was asked for, as it is mapped, by a successful call or a range call that got that far; with no failed range, a page is mapped exactly when a successful call covers it |
| RunHistory.CostAttained | src/mm/vmm.cpp:82-113 | in a space without tables a successful call takes exactly its cost |
| WalkOutcome.UnitWalks | src/mm/vmm.cpp:238-399 | exact success condition and exact effect of map_page and map_page_large on the walk of every page, rights included |
| WalkOutcome.RangeWalks | src/mm/vmm.cpp:170-184 | a range call, failed or not, changes the walk of exactly the pages before the first refused unit |
| WalkOutcome.RangeTranslates | src/mm/vmm.cpp:170-186 | a successful range translates page by page, across all table boundaries, with the rights asked for |
| WalkOutcome.LargeRefinesSmall | src/mm/vmm.cpp:190-232 | on arguments both accept, 2 MiB and 4 KiB ranges agree on success and then on every page's frame and rights |
| WalkOutcome.BudgetKept | src/mm/vmm.cpp:128-232 | with its budget free a range call takes at most that many frames, on success and on failure, and no allocation in it runs dry |
| Exhaustion.RootsInARow | src/mm/vmm.cpp:22-62 | a new root is frame 0 if and only if none is free or 0 is, two new roots coincide if and only if no other frame is free, and the root is wiped and nothing else |
| Exhaustion.SmallExact | src/mm/vmm.cpp:22-338 | map_page on any unmapped page, frames or not: when it is refused, what the page then leads to, when frame 0 becomes a table, and that mapped pages keep their translation |
| Exhaustion.LostIff | src/mm/vmm.cpp:22-338 | exactly when map_page reports success and the page is not mapped as asked, by the page's indices and what the mapped frame held before the call |
| Exhaustion.LostMapping | src/mm/vmm.cpp:22-45 | a map_page call that reports success while the page stays unmapped |
| Exhaustion.LargeExact | src/mm/vmm.cpp:22-399 | the same for map_page_large, whose success always means that all 512 pages are mapped |
| ExhaustedRuns.UnitDryIff | src/mm/vmm.cpp:82-399 | one mapping call makes frame 0 a table if and only if it could go through and lacks a frame |
| ExhaustedRuns.RangeDryIff | src/mm/vmm.cpp:128-232 | a range call makes frame 0 a table if and only if some unit it reaches lacks a frame |
| ExhaustedRuns.RunDryIff | src/mm/vmm.cpp:22-399 | over every run, frame 0 never becomes a root or a table if and only if every operation finds its frames |
| ExhaustedBuild.ExtentsDryIff | src/mm/vmm.cpp:554-610 | a list of range calls makes frame 0 a table if and only if some call it reaches lacks a frame |
| ExhaustedBuild.KernelDryIff | src/mm/vmm.cpp:521-614 | the build makes frame 0 its root or a table if and only if it does not find its frames |
| FrameBitmap.FreeAfterUsed | src/mm/pmm.cpp:65-74 | setting a frame's bit removes that frame and no other from the free set |
| FrameBitmap.FreeAfterFree | src/mm/pmm.cpp:77-86 | clearing a frame's bit adds that frame and no other to the free set |
| FrameBitmap.FirstFreeBit | src/mm/pmm.cpp:332-346 | the trailing zeros of the inverted word point at its first clear bit |
| FrameBitmap.UsedThenFree | src/mm/pmm.cpp:391-404 | freeing the frame just taken restores the bitmap word for word |
| FrameAllocator.FindHighestUsableEnd | src/mm/pmm.cpp:108-131 | no usable region ends past the result, and some usable region ends there unless it is 0 |
| FrameAllocator.PlaceBitmap | src/mm/pmm.cpp:177-194 | the bitmap goes to the first usable region long enough for it, if there is one |
| FrameAllocator.FrameAllocator.SetFrameUsed | src/mm/pmm.cpp:65-74 | a valid frame leaves the free set; an invalid one changes nothing |
| FrameAllocator.FrameAllocator.SetFrameFree | src/mm/pmm.cpp:77-86 | a valid frame joins the free set; an invalid one changes nothing |
| FrameAllocator.FrameAllocator.UseAll | src/mm/pmm.cpp:237-246 | after the first phase nothing is free and every padding bit is used |
| FrameAllocator.FrameAllocator.FreeRegions | src/mm/pmm.cpp:246-274 | the second phase frees the whole frames of usable regions and counts each of them once per region |
| FrameAllocator.FrameAllocator.ReserveBitmap | src/mm/pmm.cpp:281-304 | the third phase takes the bitmap's frames back and counts off those that were free |
| FrameAllocator.FrameAllocator.Init | src/mm/pmm.cpp:93-304 | init fails exactly where the kernel halts; otherwise it leaves the pool the three phases define, padding bits used |
| FrameAllocator.FrameAllocator.AllocFrame | src/mm/pmm.cpp:326-364 | the word scan takes the least free frame, or answers 0, and changes one bit |
| FrameAllocator.FrameAllocator.FreeFrame | src/mm/pmm.cpp:371-405 | a misaligned, out-of-range or already free address changes nothing; any other frame joins the free set and is counted, and one bit changes |
| FrameAllocator.DirectMapRoundTrip | src/mm/pmm.cpp:408-416 | the two direct-map translations undo each other |
| AllocatorProperties.InitialFree | src/mm/pmm.cpp:248-304 | after init exactly the frames wholly inside some usable region are free, less the bitmap's |
| AllocatorProperties.InitialFreeWrapped | src/mm/pmm.cpp:248-304 | the same on every memory map, with the wrap-around of 64-bit ends |
| AllocatorProperties.ReservedBytes | src/mm/pmm.cpp:154-304 | frames are counted to the end of usable memory; of those inside a usable region exactly the ones set aside for a bitmap of eight bytes per 64 frames are not free, and with an aligned base exactly those that hold a byte of it |
| AllocatorProperties.BitmapRoom | src/mm/pmm.cpp:167-194 | the bitmap goes to the first usable region with room for its bytes in whole pages |
| AllocatorProperties.FrameZeroUsed | src/mm/pmm.cpp:255-257 | with no usable memory below the first page, frame 0 is never free |
| AllocatorProperties.InitialCount | src/mm/pmm.cpp:246-301 | the free counter starts ahead by the frames counted twice, modulo 2^64: exact if no frame lies in two usable regions and, short of 2^64 counts, only then |
| AllocatorProperties.CountedTwiceOnce | src/mm/pmm.cpp:259-270 | two overlapping usable regions after which the counter is one ahead |
| AllocatorProperties.StorageKeptIff | src/mm/pmm.cpp:281-289 | the exact condition on the memory map under which no byte of the bitmap lies in a free frame; an aligned base suffices |
| AllocatorProperties.StorageExposed | src/mm/pmm.cpp:281-289 | a misaligned usable region after which a byte of the bitmap lies in a free frame |
| AllocatorProperties.ServeSound | src/mm/pmm.cpp:326-405 | a frame handed out was free, neither reserved nor outstanding, and every request keeps the books |
| AllocatorProperties.RunSound | src/mm/pmm.cpp:326-405 | over every run that frees only outstanding frames, free and outstanding frames partition the initial ones and the counter drifts no further |
| AllocatorProperties.InitSound | src/mm/pmm.cpp:237-304 | init leaves such books on every memory map |
| AllocatorProperties.RunFromInit | src/mm/pmm.cpp:237-405 | from init on, every frame handed out is offered by the memory map and none of the bitmap's, free and outstanding frames partition what init freed, and with disjoint regions the counter is exact |
| AllocatorProperties.RunDrift | src/mm/pmm.cpp:326-405 | over every run of requests, honest or not, the counter keeps its distance from the free set |
| AllocatorProperties.RequestExact | src/mm/pmm.cpp:326-364 | a request takes the least free frame and counts it off, or answers 0 and changes nothing |
| AllocatorProperties.ReleaseExact | src/mm/pmm.cpp:371-405 | a release is refused exactly if misaligned, out of range or of a free frame; otherwise it frees that frame alone and counts it |
| AllocatorProperties.ReleaseTwice | src/mm/pmm.cpp:395-401 | releasing twice is releasing once |
| AllocatorProperties.ZeroMeansExhausted | src/mm/pmm.cpp:352-363 | an answer of 0 means exhaustion exactly when frame 0 is not free |
| AllocatorProperties.TakeThenGive | src/mm/pmm.cpp:326-405 | taking a frame and giving it back restores the pool, counter included |
| AddressSpaces.PageTables.AllocateTable | src/mm/vmm.cpp:22-45 | takes the least free frame and zeroes it, frame 0 when there is none; the allocator's counter keeps its distance from the free set |
| AddressSpaces.PageTables.CreateAddressSpace | src/mm/vmm.cpp:48-62 | the new root, by frame and by physical address |
| AddressSpaces.PageTables.EnsureTable | src/mm/vmm.cpp:82-126 | on words, the interior step of the decoded model |
| AddressSpaces.PageTables.MapPage | src/mm/vmm.cpp:238-338 | on words and addresses, with every argument check, the 4 KiB call of the decoded model |
| AddressSpaces.PageTables.MapPageLarge | src/mm/vmm.cpp:340-399 | likewise for 2 MiB pages |
| AddressSpaces.PageTables.MapPages | src/mm/vmm.cpp:170-186 | the loop over 4 KiB pages equals the run of calls of the decoded model, stopped at the first refusal |
| AddressSpaces.PageTables.MapLargePages | src/mm/vmm.cpp:214-231 | likewise for 2 MiB pages |
| AddressSpaces.PageTables.MapRange | src/mm/vmm.cpp:128-187 | with every argument check, the range call of the decoded model |
| AddressSpaces.PageTables.MapRangeLarge | src/mm/vmm.cpp:190-232 | likewise for 2 MiB pages |
| AddressSpaces.PageTables.Translate | src/mm/vmm.cpp:401-506 | whatever the tables hold, the entry the walk ends at joined with the offset into its page of any size; for aligned entries, and so in every sound space, the walk's physical address; 0 when unmapped or not canonical |
| AddressSpaces.EndAddressBits | src/mm/vmm.cpp:450-505 | the answer bit by bit, misaligned large entries included |
| AddressOutcome.UnitAtExact | src/mm/vmm.cpp:238-399 | by address and flag bit: map_page and map_page_large succeed if and only if the root is present, the address canonical and aligned, the physical address aligned and below 2^52, bit 7 clear for 4 KiB pages, and no byte of the page mapped; then exactly those bytes are mapped as asked, and a refused call changes no walk and takes no frame |
| AddressOutcome.RangeAtExact | src/mm/vmm.cpp:128-232 | likewise for both range calls; an absent root or a failed check changes nothing |
| AddressOutcome.StoredWord | src/mm/vmm.cpp:331-396 | the word a successful call leaves in the last table: address and flags, bit 0 set, bit 7 for 2 MiB pages |
| Extents.ExtentsRefine | src/mm/vmm.cpp:554-610 | a list of range calls that find their frames refines the flat map and adds only tables of its ranges, and all of them when it succeeds |
| Extents.ExtentsReserved | src/mm/vmm.cpp:554-610 | frames for the tables of all ranges, shared ones counted once, supply every call |
| Extents.ExtentsExact | src/mm/vmm.cpp:554-610 | a list of ranges is mapped into an empty space if and only if each can be mapped and no two share an address; then every canonical address maps as its range says and no other is mapped |
| Extents.ExtentsSuppliedIff | src/mm/vmm.cpp:554-610 | on a space without tables, a list that can be mapped finds its frames if and only if as many are free as its ranges have tables |
| KernelSpace.FindHighestEnd | src/mm/vmm.cpp:540-547 | no region ends past the result, and some region ends there unless it is 0 |
| KernelSpace.MapSegment | src/mm/vmm.cpp:569-578 | one image segment, at the physical address of its virtual one |
| KernelSpace.MapKernel | src/mm/vmm.cpp:554-612 | the direct map and the four segments, in order, stopping at the first failure |
| KernelSpace.BuildKernelAddressSpace | src/mm/vmm.cpp:521-614 | the whole build, every early exit included |
| KernelSpace.BuildExits | src/mm/vmm.cpp:529-548 | an early exit changes nothing; past it the least free frame is the root, announced even if the build then fails |
| KernelSpace.SegmentsOrdered | src/mm/vmm.cpp:566-610 | accepted segments follow each other strictly, page aligned, apart from the direct map: empty, wrapped and overlapping ones are refused |
| KernelSpace.KernelReserved | src/mm/vmm.cpp:521-614 | as many free frames as the root and the tables of the ranges supply the build, and so does the bound by address bits |
| KernelSpace.KernelSuppliedIff | src/mm/vmm.cpp:521-614 | a build that can go through finds its frames if and only if that many are free |
| KernelSpace.KernelExact | src/mm/vmm.cpp:521-614 | when it finds its frames the build succeeds if and only if direct map and segments can be mapped apart, and the space is then exactly theirs |
| KernelSpace.KernelTranslates | src/mm/vmm.hpp:354-357 | each canonical address goes to v minus the offset, to its image address, or nowhere, with its segment's rights |
| KernelSpace.KernelBytes | src/mm/vmm.cpp:521-614 | the same in bytes and single rights: memory rounded to 2 MiB from the offset on, then head, code, constants and data of the image, and nothing else |
| KernelSpace.WriteXorExecute | src/mm/vmm.hpp:381-384 | no page of the built space is both writable and executable, and none is open to user code |
| KernelSpace.FrameZeroMapped | src/mm/vmm.hpp:342-343 | the direct map maps physical frame 0, so an answer of 0 is ambiguous |
| KernelSpace.TablesFromFree | src/mm/vmm.cpp:22-45 | every table of the built space is a frame the allocator had free |
| KernelSpace.KernelTakes | src/mm/vmm.cpp:521-614 | a successful build takes exactly as many frames as its root and the tables of its ranges |
| KernelSpace.FrameReachable | src/mm/vmm.cpp:537-562 | every byte of every frame init made free is mapped writable where physical_to_virtual looks for it, never at address 0 but for frame 0 and offset 0 |
| KernelSpace.SelfReachable | src/mm/vmm.cpp:537-562 | every byte of every page table of the new space is mapped writable where physical_to_virtual looks for it |
| Boot.BootProperties | src/main.cpp:382-420 | over the allocator's initial frames, a successful build gives a sound space that reaches its own tables and separates writable from executable pages |
| Boot.BootRun | src/main.cpp:382-420 | after the build and any run of creations, mapping calls and client requests that find their frames, every frame, and so every table of every space, is still mapped writable in the kernel's space |
| Boot.SampleBuilds | src/mm/vmm.cpp:521-614 | for one GiB of memory and a four-segment image at the kernel's link address the build needs six frames and succeeds with them |
| Boot.BootMemory | src/main.cpp:382-420 | succeeds if and only if there is usable memory with room for the bitmap and the build succeeds on what init leaves; then the same properties of the machine the two methods leave, and a counter ahead by the frames counted twice alone |
| Numerals.NumeralRoundTrip | src/lib/print.cpp:35-73 | a numeral reads back as its value and has no leading zero |
| Numerals.SignedRoundTrip | src/lib/print.cpp:75-88 | signed decimal reads back as its value |
| Numerals.PaddedRoundTrip | src/lib/print.cpp:216-222 | zero-padded hexadecimal has its full width and reads back |
| Numerals.BuffersSuffice | src/lib/print.cpp:35-64 | 64-bit values fit the 24-character buffer from base 7 up, and the 16-character one in hexadecimal |
| Numerals.BufferFitsIff | src/lib/print.cpp:35-49 | the digits fit the buffer if and only if the value is below base^24, and 64-bit values always do if and only if the base is at least 7 |
| Printer.Printer.SetSink | src/lib/print.cpp:93-95 | output goes to a sink once one is set |
| Printer.Printer.Emit | src/lib/print.cpp:15-18 | a character reaches the sink, if one is set |
| Printer.Printer.EmitString | src/lib/print.cpp:20-33 | a string is written whole, a null pointer as (null) |
| Printer.Printer.EmitUnsigned | src/lib/print.cpp:35-53 | the buffer filled backwards and drained gives the numeral, in every base whose digits fit it |
| Printer.Printer.EmitHex | src/lib/print.cpp:55-73 | likewise with masks and shifts, in hexadecimal |
| Printer.Printer.EmitSigned | src/lib/print.cpp:75-88 | sign and magnitude, the minimum included |
| Printer.Printer.EmitPointer | src/lib/print.cpp:207-225 | all sixteen digits after 0x |
| Printer.Printer.EmitConversion | src/lib/print.cpp:135-234 | each conversion writes its argument's meaning; unknown ones are written as they stand |
| Printer.Printer.Kprintf | src/lib/print.cpp:108-240 | the output grows by the meanings of the format's tokens, one after the other |
| Printer.OverrunsIff | src/lib/print.cpp:115-236 | the scan reads past the terminator if and only if it meets a length modifier with nothing after it |
| Printer.LongOverruns | src/lib/print.cpp:128-133 | a format on which it does, and one with the same ending on which it does not |
| Printer.NumbersReadBack | src/lib/print.cpp:153-225 | every number conversion reads back as its argument: 64 bits, or the low 32, signed ones by two's complement |
| PrintedForms.PrintsUnsigned | src/lib/print.cpp:179-204 | %u, %x, %lu and %lx write the digits of the low 32 or all 64 bits, without sign or leading zero |
| PrintedForms.PrintsSigned | src/lib/print.cpp:153-174 | %d and %ld write every 32-bit and 64-bit number from its two's complement |
| PrintedForms.PrintsPointer | src/lib/print.cpp:207-225 | %p writes 0x and sixteen digits |
| PrintedForms.PrintsText | src/lib/print.cpp:141-151 | %c writes the character of the low eight bits, %s the string or (null) |
| PrintedForms.PrintsPlain | src/lib/print.cpp:122-139 | %% is one percent sign, unknown letters stand as they are, a lone percent sign at the end writes nothing |
| PrintedForms.MeaningAppends | src/lib/print.cpp:115-236 | a format in two parts prints what the parts print, each with its own arguments in order |
| PrintedForms.PlainText | src/lib/print.cpp:117-120 | text without a percent sign is printed as it is |
| PrintedForms.SampleLines | src/lib/print.cpp:108-240 | three printed lines |

## Left out

- src/main.cpp beyond the order of init and build: boot protocol plumbing, framebuffer and the deliberate fault.
- CR3 and EFER writes, port input and output, descriptor tables and interrupt stubs: hardware effects; the two calls the paging code makes are taken as having no effect on memory.
- src/lib/string.cpp, src/arch: short routines that would only add easy members.
- Direct-map aliasing: clients that write to page tables or to the bitmap through the direct map are not modelled; the bitmap is an array of its own, and physical memory holds page tables only.
- Diagnostic printing inside init and free_frame, and the names of region types.
- Null region pointers: an absent memory map is the empty one, which the code refuses in the same way.
- AddressSpaces.PageTables.EnsureTable: takes a table for found whatever its address; the null pointer of frame 0 under a direct-map offset of 0 is excluded by the precondition above.
- Exhaustion.SmallExact: likewise says nothing of a direct-map offset of 0, where writing frame 0 is undefined.
- Exhaustion.LostIff: likewise says nothing of a direct-map offset of 0, where writing frame 0 is undefined.
- Exhaustion.LargeExact: likewise says nothing of a direct-map offset of 0, where writing frame 0 is undefined.
- KernelSpace.KernelExact: likewise, for an offset of 0 with frame 0 free.
- FrameAllocator.FrameAllocator.Init: the halt loops are an answer of false, after which nothing is promised.
- Printer.Printer.EmitUnsigned: a value of 24 digits is the most its buffer takes; longer ones, which only bases below 7 have and no caller uses, would overrun it and are excluded.
- Printer.Printer.Kprintf: variadic arguments whose kind does not match the conversion are excluded, as C excludes them, and so are formats on which the source reads past its string.
