# Kernel mechanisms, specified and proved

This project models the core mechanisms of a Rust kernel, each a stateful structure or an algorithm that
stands in for something much simpler, and proves that it does. Imperative code is modelled by classes and
methods with loops, and every such method is proved against a specification on values.

| files | mechanism | what it is proved to be |
|---|---|---|
| `PageTableSpec`, `PageAddress`, `AddressSpace`, `PageTable` | the 3- or 4-level page table (Sv39 and Sv48, sections 4.4 and 4.5 of the RISC-V Privileged Architecture) | a flat map from virtual to physical addresses, whose tables form a tree that is freed exactly once |
| `LinkedList`, `ListCursor` | the intrusive circular list and its cursor | a sequence, walked in both directions |
| `StackImage`, `UserStack` | the initial user stack (section 3.4.1 of the System V AMD64 psABI) | an image from which the layout's reader recovers every input |
| `SlabSpec`, `HeapSpec`, `HeapRuns`, `SlabAllocator`, `HeapClient` | the slab heap over a buddy heap | disjoint pieces, with every byte accounted for |
| `CfsSpec`, `CfsFairness`, `Cfs` | the completely fair scheduler | a coherent queue, fair within 69 and, at nice 0, round robin |
| `Paths`, `CurrentDir`, `RamFs`, `RamFsOps` | path canonicalisation, the current directory, the RAM file system | a fold over a component stack that finds what the tree walk finds |
| `FixedPoint`, `Ratios` | fixed-point ratios | rounding of the fraction's value, with its error bound |
| `Disk` | the byte cursor over a RAM disk | a flat byte array with an index |
| `GraphSpec`, `GraphSearch` | breadth-first and depth-first search | the reachable vertices, by distance |

`Common` and `Powers` hold what several of them share. `dafny verify dfyconfig.toml` checks everything.

## How the outside is modelled

- A page table entry is one of unused, table or page. This is the free model of what `GenericPTE` promises: an
  entry gives back what it was made of, and nothing else. The frame allocator gives out any free frame, or none
  at any time.
- Page table claims hold for all addresses in terms of their low 39 or 48 bits, which is all the indices see;
  `CanonicalPages` and `PageMappedCanonical` say what that means for sign-extended addresses.
- The buddy heap is a contract: an answer, if it gives one, is an aligned region apart from all others, charged
  with a power of two. The answer is a parameter of the allocating methods.
- The two random words on the user stack are a parameter, so the results hold for the constants of the source.
  The auxiliary vector is the key-ascending sequence that the source iterates over.
- The root of the file system is a RAM file system without mounts, all of whose directories are accessible.
- `new` of a ratio and `unmap_region` can stop the program; their contracts say exactly when.
- Integers are unbounded, except in the ratio, whose 32-, 64- and final 64-bit casts are modelled.

## Where the code and its description part

- `update` is documented to return NotMapped on unmapped addresses. It does so exactly when a table is missing;
  with all tables there it returns success (`PageTable64.Update`, `LeftoverTables`).
- `map` is documented to return AlreadyMapped if the mapping is present. It does so exactly if the slot of the page
  is taken, be it by an empty table left from smaller pages (`PageTable64.Map`, `LeftoverTables`).
- `unmap_region` panics when the region ends or begins inside a page; `UnmapRegion` says exactly when.
- `remove_task` of a task that was never added can take out another task, since both carry id 0
  (`RemoveUnadded`); `RemoveCoherent` states exactly when removal answers rightly.
- canonicalize(a/b) = canonicalize(canonicalize(a)/b) fails for relative paths whose components all cancel
  (`DotDoesNotCompose`); `CanonComposes` is the exact condition.
- `create` of a path ending in ".." answers success even at the root, which has no parent, and the path then finds
  nothing (`CreateAboveRoot`); `CreateThenLookup` states exactly when lookup succeeds after create.
- An auxiliary entry with key 0 is read as the end of the vector; `AuxFound` says what is recovered.
- `mul_trunc` is documented to round down. A third of three comes out as 0 (`ThirdOfThree`); `TruncExactIff` and
  `TruncOfWhole` say exactly when the result is the floor.
- The iterator's two directions share one cursor: `iter()` driven backwards yields the first entry only
  (`IterateBackward`).
- Equality of ratios identifies some different fractions (`DistinctFractionsMayAgree`); `EqualIff` is the exact
  condition.
- A request of up to 4096 bytes aligned above 4096 is served by the 4096-byte class and only so aligned
  (`OverAligned`); `SlabHeap.Allocate` states the alignment for all other requests.

## Model

| member | source | states |
|---|---|---|
| `PageTableSpec.LeafWriteFollow` | async/async/crates/page_table/src/bits64.rs:383-407 | a write to a leaf slot is seen by exactly the walks whose indices pass that slot |
| `PageTableSpec.LeafWriteInv` | async/async/crates/page_table/src/bits64.rs:66-111 | writing or clearing a leaf slot keeps the tree invariant |
| `PageTableSpec.InstallInv` | async/async/crates/page_table/src/bits64.rs:371-380 | hanging a fresh empty table under an unused slot keeps the tree invariant |
| `PageTableSpec.InstallFollow` | async/async/crates/page_table/src/bits64.rs:371-380 | a walk through an unused slot goes exactly one level further once an empty table hangs there and finds nothing; no other walk changes |
| `PageTableSpec.FollowThrough` | async/async/crates/page_table/src/bits64.rs:383-407 | the walk from the root passes through every table placed on its path |
| `PageTableSpec.OnePointer` | async/async/crates/page_table/src/bits64.rs:371-380 | an entry that points at a table is the one slot that table's place names, and none points at the root |
| `PageTableSpec.EveryTableReached` | async/async/crates/page_table/src/bits64.rs:341-380 | every table is reached from the root along its place |
| `PageTableSpec.ReachedOnlyAtPlace` | async/async/crates/page_table/src/bits64.rs:341-380 | and along no other index path |
| `PageTableSpec.ListedExactlyReached` | async/async/crates/page_table/src/bits64.rs:43-50 | a frame is in the list of tables exactly when some path from the root leads to it |
| `PageTableSpec.TablesFormTree` | async/async/crates/page_table/src/bits64.rs:29-37 | every table but the root is pointed to by exactly one entry, and the root by none |
| `PageAddress.IndexBits` | async/async/crates/page_table/src/bits64.rs:13-27 | the indices are the nine binary digits of the address from 39, 30, 21 and 12 on, as the shifts and masks take them |
| `PageAddress.SamePageIsSameSlot` | async/async/crates/page_table/src/bits64.rs:13-27 | two addresses share a page of a size exactly when their index paths share the slot for that size |
| `PageAddress.SamePageOffset` | async/async/crates/memory_addr/src/lib.rs:35-45 | from an aligned start, a page is exactly the offsets below its size |
| `PageAddress.AlignDown` | async/async/crates/memory_addr/src/lib.rs:17-19 | the greatest multiple of the page size not above the address |
| `PageAddress.CanonicalPages` | async/async/crates/page_table/src/lib.rs:79-83 | on sign-extended addresses, sharing a page by low bits is sharing it by the whole address |
| `AddressSpace.WriteTranslates` | async/async/crates/page_table/src/bits64.rs:66-111 | a leaf write changes the translation of exactly the addresses of that page, to what the entry means |
| `AddressSpace.InstallTranslates` | async/async/crates/page_table/src/bits64.rs:371-380 | creating a table changes no translation |
| `AddressSpace.PageUniform` | async/async/crates/page_table/src/bits64.rs:135-142 | all addresses of a mapped page translate by the same base, flags and size |
| `AddressSpace.UnmappedWithTables` | async/async/crates/page_table/src/bits64.rs:144-160 | a well-formed memory in which an address is unmapped, no table is missing for update, and its 2M slot is taken |
| `AddressSpace.PageMappedCanonical` | async/async/crates/page_table/src/bits64.rs:66-79 | for canonical addresses a mapped page is the interval from the aligned address, and every other address is untouched |
| `AddressSpace.MapStep` | async/async/crates/page_table/src/bits64.rs:207-234 | one more page extends a mapped region by its size, and the pages still tile it |
| `AddressSpace.InstallKeepsSlots` | async/async/crates/page_table/src/bits64.rs:371-380 | a new table takes exactly the slot it hangs in |
| `AddressSpace.WriteKeepsSlots` | async/async/crates/page_table/src/bits64.rs:66-111 | a leaf takes, and clearing it frees, exactly its own slot |
| `AddressSpace.TakenAt4K` | async/async/crates/page_table/src/bits64.rs:64-76 | a 4K slot is taken exactly when a 4K page is mapped there |
| `AddressSpace.MappedTakesSlots` | async/async/crates/page_table/src/bits64.rs:64-76 | a mapped page takes its slot and those of all larger pages around it |
| `AddressSpace.StopRegion` | async/async/crates/page_table/src/bits64.rs:207-230 | where map_region is refused a page, the slot chosen was taken or a larger page covers it, exactly as before the call |
| `AddressSpace.NextTile` | async/async/crates/page_table/src/bits64.rs:288-296 | between two points that whole pages lead to, the next page is mapped, starts at the one and ends by the other |
| `AddressSpace.TiledStep` | async/async/crates/page_table/src/bits64.rs:288-296 | an aligned page unmapped at the end of a tiled part extends the tiled part |
| `AddressSpace.UnmapStopsOnce` | async/async/crates/page_table/src/bits64.rs:279-298 | where unmap_region stops and with what outcome is determined by the translation before |
| `AddressSpace.UnmapSucceedsIff` | async/async/crates/page_table/src/bits64.rs:279-298 | it succeeds exactly on regions tiled by whole pages |
| `AddressSpace.PartOfHugePage` | async/async/crates/page_table/src/bits64.rs:292-293 | unmapping less than the page at the start panics at once |
| `AddressSpace.RegionMappedCanonical` | async/async/crates/page_table/src/bits64.rs:181-236 | on canonical addresses map_region maps exactly the interval from the address on, and touches no other address |
| `AddressSpace.RegionUnmappedCanonical` | async/async/crates/page_table/src/bits64.rs:279-298 | on canonical addresses unmap_region unmaps exactly the interval |
| `AddressSpace.RegionMappingsAgree` | async/async/crates/page_table/src/bits64.rs:181-236 | any two ways to map a region from one translation give the same address and flags everywhere |
| `AddressSpace.UnmapUndoesMap` | async/async/crates/page_table/src/bits64.rs:181-298 | mapping a region and unmapping it restores the translation at every address |
| `PageTable.FrameAllocator.AllocFrame` | async/async/crates/page_table/src/lib.rs:88-92 | returns a frame that was free, or nothing and no change |
| `PageTable.FrameAllocator.DeallocFrame` | async/async/crates/page_table/src/lib.rs:92-92 | takes back a frame that is in use, so a double free is impossible where it is called |
| `PageTable.PageTable64.TryNew` | async/async/crates/page_table/src/bits64.rs:43-50 | a new table maps nothing, lists its root only, and has taken one frame; failure takes none |
| `PageTable.PageTable64.AllocTable` | async/async/crates/page_table/src/bits64.rs:341-349 | a new table is a fresh zeroed frame |
| `PageTable.PageTable64.NextTableOrCreate` | async/async/crates/page_table/src/bits64.rs:371-380 | yields the next table on the path of the address, changes no translation, and fails only for want of a frame or under a huge page |
| `PageTable.PageTable64.GetEntryOrCreate` | async/async/crates/page_table/src/bits64.rs:409-437 | yields the slot of the page of the address, with no translation changed whether it succeeds or fails |
| `PageTable.PageTable64.GetEntry` | async/async/crates/page_table/src/bits64.rs:383-407 | yields the slot the walk ends in with its page size, or fails exactly when a table is missing |
| `PageTable.PageTable64.Map` | async/async/crates/page_table/src/bits64.rs:66-79 | success changes exactly one page, from unmapped to the aligned target with the flags and size; failure changes no translation, and is NoMemory exactly when a frame was refused, MappedToHugePage exactly under a larger page and AlreadyMapped exactly when the slot is taken |
| `PageTable.PageTable64.Unmap` | async/async/crates/page_table/src/bits64.rs:103-111 | fails exactly on unmapped addresses and otherwise makes exactly that one page unmapped, returning its base and size |
| `PageTable.PageTable64.Query` | async/async/crates/page_table/src/bits64.rs:135-142 | computes the flat translation |
| `PageTable.PageTable64.Update` | async/async/crates/page_table/src/bits64.rs:151-168 | fails exactly when a table is missing; replaces exactly the page of the address, but leaves a page at physical address zero alone; on an unmapped address with all tables there it answers 4K and changes nothing |
| `AddressSpace.ChooseSize` | async/async/crates/page_table/src/bits64.rs:208-224 | the largest size that divides both addresses and fits in what is left, or 4K without huge pages |
| `AddressSpace.FreeAt4K` | async/async/crates/page_table/src/bits64.rs:181-236 | without huge pages a region is free exactly when none of its pages is mapped |
| `PageTable.PageTable64.MapRegion` | async/async/crates/page_table/src/bits64.rs:181-236 | NotAligned exactly on unaligned arguments, NoMemory exactly when a frame was refused; otherwise success exactly when the region is no longer than the address space and free for every page chosen, and then exactly the region is mapped, tiled by whole pages; failure maps exactly the part before the failing page, and is AlreadyMapped or MappedToHugePage exactly as the slot of the chosen size was taken or covered |
| `PageTable.PageTable64.UnmapRegion` | async/async/crates/page_table/src/bits64.rs:279-298 | succeeds exactly on tiled regions; NotMapped exactly at the first point after whole pages where nothing is mapped, a panic exactly where the page there sticks out; what is unmapped then is said for each outcome |
| `PageTable.PageTable64.MapThenUnmap` | async/async/crates/page_table/src/bits64.rs:181-298 | after a successful map_region, unmap_region succeeds without a panic and every address translates as before |
| `PageTable.PageTable64.Drop` | async/async/crates/page_table/src/bits64.rs:469-475 | returns exactly the frames of the tables, each once |
| `PageTable.HugeOrNot` | async/async/crates/page_table/src/bits64.rs:181-236 | from equal translations, mapping with and without huge pages gives the same address and flags at every address, also for two tables on one allocator |
| `PageTable.MapBeside` | async/async/crates/page_table/src/bits64.rs:181-236 | mapping in one table leaves another one on the same allocator alone |
| `PageTable.UnmapPartOfHuge` | async/async/crates/page_table/src/bits64.rs:279-298 | on a fresh table with one 2M page, unmap_region of 4K panics |
| `PageTable.LeftoverTables` | async/async/crates/page_table/src/bits64.rs:66-168 | after one 4K page is mapped and unmapped, query finds nothing, update succeeds and a 2M map is AlreadyMapped |
| `PageTable.Lifetime` | async/async/crates/page_table/src/bits64.rs:39-475 | over every run of operations from creation to drop, the frames in use at the end are those in use before |
| `LinkedList.List.constructor` | async/async/crates/linked_list/src/unsafe_list.rs:99-101 | denotes the empty sequence |
| `LinkedList.List.IsEmpty` | async/async/crates/linked_list/src/unsafe_list.rs:104-106 | true exactly for the empty sequence |
| `LinkedList.List.InsertOnlyEntry` | async/async/crates/linked_list/src/unsafe_list.rs:111-127 | an empty list comes to denote the one entry |
| `LinkedList.List.LinkAfter` | async/async/crates/linked_list/src/unsafe_list.rs:210-230 | the three link updates turn a circle into the circle with the entry after the existing one |
| `LinkedList.List.InsertAfter` | async/async/crates/linked_list/src/unsafe_list.rs:210-230 | the entry comes right after the existing one, in both directions, all others staying in order |
| `LinkedList.List.InsertBefore` | async/async/crates/linked_list/src/unsafe_list.rs:241-249 | the entry comes right before the existing one, and becomes the first if that was the first |
| `LinkedList.List.PushBack` | async/async/crates/linked_list/src/unsafe_list.rs:137-146 | the entry is appended |
| `LinkedList.List.PushFront` | async/async/crates/linked_list/src/unsafe_list.rs:156-164 | the entry is put in front |
| `LinkedList.List.Unlink` | async/async/crates/linked_list/src/unsafe_list.rs:188-192 | the two link updates turn a circle of several into the circle without the entry |
| `LinkedList.List.Remove` | async/async/crates/linked_list/src/unsafe_list.rs:172-199 | exactly the entry leaves the sequence; a removed first entry is succeeded by the next |
| `LinkedList.List.Front` | async/async/crates/linked_list/src/unsafe_list.rs:252-254 | the first element, if there is one |
| `LinkedList.List.Back` | async/async/crates/linked_list/src/unsafe_list.rs:257-260 | the last element, if there is one |
| `LinkedList.Rotated` | async/async/crates/linked_list/src/unsafe_list.rs:241-249 | a circle may be read from any of its entries |
| `ListCursor.OnePosition` | async/async/crates/linked_list/src/unsafe_list.rs:440-447 | where a cursor stands determines its position among the n entries and None |
| `ListCursor.Cursor.MoveNext` | async/async/crates/linked_list/src/unsafe_list.rs:455-468 | one position forward on the circle of the n entries plus None |
| `ListCursor.Cursor.MovePrev` | async/async/crates/linked_list/src/unsafe_list.rs:476-494 | one position backward on that circle |
| `ListCursor.Cursor.ThereAndBack` | async/async/crates/linked_list/src/unsafe_list.rs:455-494 | the two moves undo each other from every position and in either order |
| `ListCursor.Cursor.Next` | async/async/crates/linked_list/src/unsafe_list.rs:335-339 | yields the current entry and moves on; once on None it yields nothing and stays |
| `ListCursor.Cursor.NextBack` | async/async/crates/linked_list/src/unsafe_list.rs:343-347 | yields the current entry and moves back; once on None it stays |
| `ListCursor.IterateForward` | async/async/crates/linked_list/src/unsafe_list.rs:263-277 | iteration yields each element exactly once, in order, and stops |
| `ListCursor.IterateBackward` | async/async/crates/linked_list/src/unsafe_list.rs:268-285 | backward iteration from a position yields exactly that entry and those before it, so from the back the whole list reversed |
| `ListCursor.RemoveUndoes` | async/async/crates/linked_list/src/unsafe_list.rs:137-249 | removal undoes every kind of insertion |
| `ListCursor.Perform` | async/async/crates/linked_list/src/unsafe_list.rs:137-249 | each operation edits the denoted sequence as it promises |
| `ListCursor.Run` | async/async/crates/linked_list/src/unsafe_list.rs:111-260 | over every run that meets the preconditions the links denote the edited sequence |
| `ListCursor.RunAndWalk` | async/async/crates/linked_list/src/unsafe_list.rs:111-350 | and walking it forth and back reads that sequence and its reverse, without repeats |
| `StackImage.LittleEndian` | async/async/crates/elf_parser/src/user_stack.rs:37-48 | byte i of a word in memory order is its digit of weight 256^i |
| `StackImage.WordRoundTrip` | async/async/crates/elf_parser/src/user_stack.rs:37-48 | a word read from its eight bytes is the word |
| `StackImage.WordsOfBytes` | async/async/crates/elf_parser/src/user_stack.rs:37-48 | words read from their bytes are the words, whatever follows |
| `StackImage.CStringReads` | async/async/crates/elf_parser/src/user_stack.rs:50-54 | a NUL-free string read up to its NUL is the string |
| `StackImage.TableReads` | async/async/crates/elf_parser/src/user_stack.rs:96-112 | reading the words by the layout gives argc, both pointer lists and the auxiliary vector up to its first null key |
| `StackImage.ImageReads` | async/async/crates/elf_parser/src/user_stack.rs:96-112 | reading a memory image that starts with the table gives the strings its pointers point to |
| `UserStack.UserStackBuffer.Push` | async/async/crates/elf_parser/src/user_stack.rs:37-48 | the position drops by the size and to the alignment, the bytes stand there, the gap is zero and all above is unchanged |
| `UserStack.UserStackBuffer.PushStr` | async/async/crates/elf_parser/src/user_stack.rs:50-54 | the string and its NUL stand right below what was there, at the returned position |
| `UserStack.UserStackBuffer.PushStrings` | async/async/crates/elf_parser/src/user_stack.rs:76-83 | every returned pointer points to its string in the resulting image |
| `UserStack.AuxRecovered` | async/async/crates/elf_parser/src/user_stack.rs:98-105 | an entry is read back exactly when its key is not zero and it was pushed |
| `UserStack.AuxFound` | async/async/crates/elf_parser/src/user_stack.rs:98-105 | the entries read back are exactly those given with a key other than 0 and 25, and for key 25 one that leads to the random bytes, keys going down |
| `UserStack.FixUp` | async/async/crates/elf_parser/src/user_stack.rs:85-95 | one extra word, decided in advance, lands the final position on the multiple of 16 |
| `UserStack.FinalSp` | async/async/crates/elf_parser/src/user_stack.rs:86-95 | the highest multiple of 16 that leaves room for the null entry and the table |
| `UserStack.PushUpper` | async/async/crates/elf_parser/src/user_stack.rs:71-95 | random bytes, strings, null entry and padding: the strings are found by their pointers and the position is the one the fix-up foresaw |
| `UserStack.PushAuxv` | async/async/crates/elf_parser/src/user_stack.rs:98-105 | the words of the auxiliary entries stand below what was there, the last pushed lowest |
| `UserStack.PushTable` | async/async/crates/elf_parser/src/user_stack.rs:107-112 | argc, argv, null, envp and null stand in this order |
| `UserStack.InitStack` | async/async/crates/elf_parser/src/user_stack.rs:65-114 | reading the image from the final position by the layout recovers every argument, every environment string, both terminators and exactly the auxiliary entries with a nonzero key, key 25 leading to the 16 random bytes; the final position is a multiple of 16 with no more than alignment wasted |
| `UserStack.GetAppStackRegion` | async/async/crates/elf_parser/src/auxv.rs:83-98 | the region has the stack's size, is zero below the image, and holds above it an image from which the same is recovered |
| `SlabSpec.BlockAt` | async/async/crates/slab_allocator/src/slab.rs:76-80 | block i of a chunk starts i block sizes in |
| `SlabSpec.BlocksFromAre` | async/async/crates/slab_allocator/src/slab.rs:71-82 | the blocks cut from a chunk are distinct, lie in it and are whole blocks from its start |
| `SlabSpec.SameChunkApart` | async/async/crates/slab_allocator/src/slab.rs:71-82 | two blocks of one chunk are a whole block apart |
| `SlabSpec.PopOk` | async/async/crates/slab_allocator/src/slab.rs:92-98 | popping keeps the list acyclic with a true length, and the block becomes held |
| `SlabSpec.PushOk` | async/async/crates/slab_allocator/src/slab.rs:100-104 | pushing a held block keeps the list acyclic with a true length |
| `SlabSpec.RefillOk` | async/async/crates/slab_allocator/src/slab.rs:26-33 | a refill of an empty list with the blocks of a new chunk keeps the slab sound |
| `HeapSpec.PiecesApart` | async/async/crates/slab_allocator/src/lib.rs:131-190 | no two pieces, held or free, of any class or from the buddy heap, overlap |
| `HeapSpec.PopBlockOk` | async/async/crates/slab_allocator/src/slab.rs:40-41 | taking a free block keeps the whole heap sound |
| `HeapSpec.PushBlockOk` | async/async/crates/slab_allocator/src/slab.rs:57-62 | giving a block back keeps the whole heap sound |
| `HeapSpec.RefillHeapOk` | async/async/crates/slab_allocator/src/slab.rs:42-49 | a refill keeps the whole heap sound, all other classes included |
| `HeapSpec.GrantBigOk` | async/async/crates/slab_allocator/src/lib.rs:158-162 | a direct grant keeps the whole heap sound |
| `HeapSpec.ReleaseBigOk` | async/async/crates/slab_allocator/src/lib.rs:186-188 | giving a direct grant back keeps the whole heap sound |
| `HeapSpec.ClientWriteOk` | async/async/crates/slab_allocator/src/lib.rs:131-135 | whatever a caller writes into a piece it holds, no free list is disturbed |
| `HeapSpec.ChargeIsLeast` | async/async/crates/slab_allocator/src/lib.rs:158-162 | the charge of the buddy heap is the least power of two that holds the size, the alignment and 8 bytes |
| `HeapSpec.CountedTwice` | async/async/crates/slab_allocator/src/lib.rs:229-250 | the total is the heap size plus 64 blocks for every chunk; the used bytes are all charges, chunks included, plus the held blocks |
| `HeapSpec.AvailableIs` | async/async/crates/slab_allocator/src/lib.rs:228-255 | available bytes are the free blocks plus what the buddy heap has left, and never negative |
| `HeapSpec.PopBlockBytes` | async/async/crates/slab_allocator/src/lib.rs:253-255 | a block from the free list lowers the available bytes by its size |
| `HeapSpec.RefillBytes` | async/async/crates/slab_allocator/src/lib.rs:253-255 | a refill leaves the available bytes alone |
| `HeapSpec.PushBlockBytes` | async/async/crates/slab_allocator/src/lib.rs:253-255 | giving a block back raises the available bytes by its size |
| `HeapSpec.PopBlockAllocates` | async/async/crates/slab_allocator/src/slab.rs:40-41 | a hit hands out a block nobody held and costs its size |
| `HeapSpec.RefillAllocates` | async/async/crates/slab_allocator/src/slab.rs:42-49 | a refill followed by a pop hands out a block nobody held and costs just its size |
| `HeapSpec.BlockAligned` | async/async/crates/slab_allocator/src/slab.rs:43-48 | a block is aligned to every power of two up to its class size |
| `HeapSpec.MoreMemoryOk` | async/async/crates/slab_allocator/src/lib.rs:95-106 | adding memory keeps the heap sound |
| `HeapRuns.NextOk` | async/async/crates/slab_allocator/src/lib.rs:95-190 | every event keeps the heap sound |
| `HeapRuns.NextBalanced` | async/async/crates/slab_allocator/src/lib.rs:95-190 | every event keeps the charged bytes equal to the slabs' blocks plus the callers' regions |
| `HeapRuns.RunOk` | async/async/crates/slab_allocator/src/lib.rs:95-190 | both hold at the end of every legal run |
| `HeapRuns.AvailableIsUnheld` | async/async/crates/slab_allocator/src/lib.rs:228-255 | in every run from an empty heap, available_bytes is the heap size minus the bytes callers hold, and not negative |
| `HeapRuns.RunPiecesApart` | async/async/crates/slab_allocator/src/lib.rs:131-190 | in every run from an empty heap no two pieces overlap |
| `SlabAllocator.FreeBlockList.Pop` | async/async/crates/slab_allocator/src/slab.rs:92-98 | removes and returns the head, the rest staying in order |
| `SlabAllocator.FreeBlockList.Push` | async/async/crates/slab_allocator/src/slab.rs:100-104 | puts a block in front |
| `SlabAllocator.NewList` | async/async/crates/slab_allocator/src/slab.rs:71-82 | the list of a chunk's blocks in address order, nothing else in memory touched |
| `SlabAllocator.MoveAll` | async/async/crates/slab_allocator/src/slab.rs:30-32 | moves all blocks to the front of the other list, reversing them, and touches only their links |
| `SlabAllocator.SlabCache.Grow` | async/async/crates/slab_allocator/src/slab.rs:26-33 | the blocks of the chunk come, last one first, in front of the list |
| `SlabAllocator.ClassOf` | async/async/crates/slab_allocator/src/lib.rs:208-226 | the smallest class that fits size and alignment; none exactly above 4096 bytes |
| `SlabAllocator.SlabHeap.constructor` | async/async/crates/slab_allocator/src/lib.rs:59-86 | a sound heap with empty slabs |
| `SlabAllocator.SlabHeap.AddMemory` | async/async/crates/slab_allocator/src/lib.rs:95-106 | raises the buddy heap's total and changes nothing else |
| `SlabAllocator.SlabHeap.AllocateSlab` | async/async/crates/slab_allocator/src/slab.rs:35-55 | fails exactly when the list is empty and the buddy heap refuses; success hands out the head of the list, or the last block of the new chunk, and costs the block size, refill or not |
| `SlabAllocator.SlabHeap.Refill` | async/async/crates/slab_allocator/src/slab.rs:42-49 | a granted chunk becomes the blocks of the class |
| `SlabAllocator.SlabHeap.Allocate` | async/async/crates/slab_allocator/src/lib.rs:135-164 | the result is at least the requested size, held by nobody else, costs the class size or the power-of-two charge, and is aligned, to 4096 only for small requests aligned above 4096 |
| `SlabAllocator.OverAligned` | async/async/crates/slab_allocator/src/lib.rs:208-226 | for every small request aligned above 4096 there is a chunk for which the result is not so aligned |
| `SlabAllocator.SlabHeap.TotalBytes` | async/async/crates/slab_allocator/src/lib.rs:229-238 | the buddy heap's memory plus, for each chunk of each slab, 64 blocks of its class once more |
| `SlabAllocator.SlabHeap.UsedBytes` | async/async/crates/slab_allocator/src/lib.rs:241-250 | the charges of all regions, chunks included, plus the held blocks of each class once more |
| `SlabAllocator.SlabHeap.Available` | async/async/crates/slab_allocator/src/lib.rs:253-255 | the difference, which is never negative |
| `SlabAllocator.SlabHeap.Deallocate` | async/async/crates/slab_allocator/src/lib.rs:177-190 | the piece leaves the held ones and its cost is available again |
| `HeapClient.Take` | async/async/crates/slab_allocator/src/lib.rs:135-164 | whatever the buddy heap answers, what is available and what is held stay in balance |
| `HeapClient.Give` | async/async/crates/slab_allocator/src/lib.rs:177-190 | so they do when a piece is given back |
| `HeapClient.LedgerApart` | async/async/crates/slab_allocator/src/lib.rs:131-190 | no two held pieces overlap |
| `HeapClient.Serve` | async/async/crates/slab_allocator/src/lib.rs:131-255 | after every run of requests on a new heap, available_bytes is the heap size less the cost of what is held, and no two held pieces overlap |
| `CfsSpec.WeightFalls` | async/async/crates/scheduler/src/cfs.rs:23-50 | each nice level weighs about a quarter more than the next one, from 1024 at nice 0 |
| `CfsSpec.VruntimeScales` | async/async/crates/scheduler/src/cfs.rs:43-63 | the virtual run time past the start is the elapsed time times 1024 over the weight, rounded down |
| `CfsSpec.TickStep` | async/async/crates/scheduler/src/cfs.rs:56-63 | one tick adds at most 69 to the virtual run time, and exactly 1 at nice 0 |
| `CfsSpec.TickStepReached` | async/async/crates/scheduler/src/cfs.rs:43-63 | the step of 69 is reached, at nice 19 |
| `CfsSpec.NicerRunsFaster` | async/async/crates/scheduler/src/cfs.rs:23-63 | for the same elapsed time a less nice task never has the larger virtual run time |
| `CfsSpec.Reprioritized` | async/async/crates/scheduler/src/cfs.rs:71-77 | changing the priority keeps the virtual run time, from which the elapsed time starts anew |
| `CfsSpec.PrioritySet` | async/async/crates/scheduler/src/cfs.rs:182-189 | a priority from -20 to 19 is set and touches nothing but the fields of that task; any other changes nothing |
| `CfsSpec.AddStartsAtMinimum` | async/async/crates/scheduler/src/cfs.rs:129-143 | an added task starts at the recorded minimum, or at 0 if there is none, and the least key is recorded again |
| `CfsSpec.MinimumRecorded` | async/async/crates/scheduler/src/cfs.rs:129-180 | the minimum is recorded by additions and successful removals only |
| `CfsSpec.TickAndPut` | async/async/crates/scheduler/src/cfs.rs:169-180 | a tick adds one to the elapsed time of its task, and a task put back gets the next id; nothing else changes in any task |
| `CfsSpec.DistinctIds` | async/async/crates/scheduler/src/cfs.rs:129-136 | two tasks that entered the queue never share an id |
| `CfsSpec.AddCoherent` | async/async/crates/scheduler/src/cfs.rs:129-143 | adding displaces no task and keeps every key equal to its task's current key |
| `CfsSpec.PutCoherent` | async/async/crates/scheduler/src/cfs.rs:169-174 | so does putting a task back |
| `CfsSpec.PickCoherent` | async/async/crates/scheduler/src/cfs.rs:161-167 | picking takes exactly one task, one of least current virtual run time |
| `CfsSpec.RemoveCoherent` | async/async/crates/scheduler/src/cfs.rs:145-159 | removal finds a task exactly when it is queued, unless its key is another queued task's; a task that entered before is never mistaken |
| `CfsSpec.RemoveNeverAdded` | async/async/crates/scheduler/src/cfs.rs:145-159 | a task never added can have another task removed in its place |
| `CfsSpec.PrioritizeCoherent` | async/async/crates/scheduler/src/cfs.rs:182-189 | a priority change leaves every key alone, of queued tasks too |
| `CfsSpec.NextCoherent` | async/async/crates/scheduler/src/cfs.rs:129-189 | every legal event keeps the queue coherent with the task fields |
| `CfsSpec.RunCoherent` | async/async/crates/scheduler/src/cfs.rs:129-189 | coherence holds at the end of every legal run |
| `CfsSpec.HandedOut` | async/async/crates/scheduler/src/cfs.rs:145-167 | what a pick or a removal hands back is exactly what leaves the queue |
| `CfsSpec.RunConserves` | async/async/crates/scheduler/src/cfs.rs:129-189 | no task is lost or duplicated: over every run, how often a task went in less how often it came out is whether it is there |
| `CfsFairness.FairPick` | async/async/crates/scheduler/src/cfs.rs:161-167 | a pick keeps the bound and picks a least task |
| `CfsFairness.FairTick` | async/async/crates/scheduler/src/cfs.rs:176-180 | a tick of the picked task keeps the bound |
| `CfsFairness.FairPut` | async/async/crates/scheduler/src/cfs.rs:169-174 | putting the task back keeps the bound |
| `CfsFairness.FairPrioritize` | async/async/crates/scheduler/src/cfs.rs:182-189 | a priority change keeps the bound |
| `CfsFairness.FairRun` | async/async/crates/scheduler/src/cfs.rs:129-189 | in every run with arbitrary in-range priority changes any two tasks stay within 69 |
| `CfsFairness.EvenRun` | async/async/crates/scheduler/src/cfs.rs:129-180 | as long as all tasks are kept at nice 0 they stay within 1 |
| `CfsFairness.FreshRunFair` | async/async/crates/scheduler/src/cfs.rs:129-189 | the bound of 69 holds in every run from any number of fresh tasks |
| `CfsFairness.FreshRunEven` | async/async/crates/scheduler/src/cfs.rs:129-180 | and the bound of 1 while they are kept at nice 0 |
| `CfsFairness.LoadedNew` | async/async/crates/scheduler/src/cfs.rs:129-143 | fresh tasks are all queued at virtual run time 0 with their number as id |
| `CfsFairness.KthPick` | async/async/crates/scheduler/src/tests.rs:8-22 | the k-th pick is task k mod n, for every n and k |
| `Cfs.CFSTask.GetVruntime` | async/async/crates/scheduler/src/cfs.rs:56-63 | computes the virtual run time of the fields |
| `Cfs.CFSTask.SetPriority` | async/async/crates/scheduler/src/cfs.rs:71-77 | folds the elapsed time into the start value |
| `Cfs.CFScheduler.AddTask` | async/async/crates/scheduler/src/cfs.rs:129-143 | the task starts at the recorded minimum with the next id, the least key is recorded, and the abstract addition is refined |
| `Cfs.CFScheduler.RemoveTask` | async/async/crates/scheduler/src/cfs.rs:145-159 | refines the abstract removal, result included |
| `Cfs.CFScheduler.PickNextTask` | async/async/crates/scheduler/src/cfs.rs:161-167 | refines the abstract pick, result included |
| `Cfs.CFScheduler.PutPrevTask` | async/async/crates/scheduler/src/cfs.rs:169-174 | refines the abstract put |
| `Cfs.CFScheduler.TaskTick` | async/async/crates/scheduler/src/cfs.rs:176-180 | refines the abstract tick; asks for rescheduling exactly when there is no recorded minimum or the task has passed it |
| `Cfs.CFScheduler.SetPriority` | async/async/crates/scheduler/src/cfs.rs:182-189 | accepts exactly the range from -20 to 19; then the task has that priority, no elapsed time and starts at the virtual run time it had reached, and otherwise keeps all its fields |
| `Cfs.RemoveUnadded` | async/async/crates/scheduler/src/cfs.rs:145-159 | on a scheduler with one task, removing a task that was never added returns that task |
| `Paths.SplitAtSlash` | async/async/crates/axfs_vfs/src/path.rs:22-22 | the pieces of two paths joined by a slash are the pieces of both |
| `Paths.RenderReads` | async/async/crates/axfs_vfs/src/path.rs:19-52 | a rendered component stack reads back as that stack |
| `Paths.CanonIdempotent` | async/async/crates/axfs_vfs/src/path.rs:19-52 | canonicalising twice is canonicalising once, and keeps absoluteness |
| `Paths.CanonComponents` | async/async/crates/axfs_vfs/src/path.rs:5-8 | the result has no empty, "." or ".." component beyond the leading slash |
| `Paths.CanonComposes` | async/async/crates/axfs_vfs/src/path.rs:19-52 | canonicalising the first part beforehand changes nothing, exactly when that part is absolute, empty or has components that do not all cancel |
| `Paths.DotDoesNotCompose` | async/async/crates/axfs_vfs/src/path.rs:19-52 | it fails for "." and "b" |
| `Paths.PopChars` | async/async/crates/axfs_vfs/src/path.rs:25-35 | popping characters takes off exactly the last component and its slash, but keeps a lone slash |
| `Paths.PopComponent` | async/async/crates/axfs_vfs/src/path.rs:25-35 | the buffer comes to stand for the stack without its last component |
| `Paths.PushComponent` | async/async/crates/axfs_vfs/src/path.rs:36-45 | the buffer comes to stand for the stack with the component |
| `Paths.Canonicalize` | async/async/crates/axfs_vfs/src/path.rs:19-52 | the loop computes the fold of the components over a stack |
| `CurrentDir.PrefixResolves` | async/async/modules/axfs/src/root.rs:219-226 | a relative path resolves to its components folded over the current directory |
| `CurrentDir.TargetComposes` | async/async/modules/axfs/src/root.rs:219-226 | resolving in two steps is resolving the joined path |
| `CurrentDir.CurrentDirectory.AbsolutePath` | async/async/modules/axfs/src/root.rs:219-226 | the canonical form of an absolute path as it is, and of a relative one behind the stored path, which is the path of the target |
| `CurrentDir.CurrentDirectory.SetCurrentDir` | async/async/modules/axfs/src/root.rs:304-326 | looks up that canonical form with one slash at its end from the root, whatever the old directory for an absolute path: if a directory is found it becomes the stored path and node, and otherwise its error is returned and nothing changes |
| `CurrentDir.CurrentDirectory.ChangeTwice` | async/async/modules/axfs/src/root.rs:304-326 | two changes that succeed end at the path and the node the joined path leads to |
| `CurrentDir.RelativeIsAbsolute` | async/async/modules/axfs/src/root.rs:211-238 | what a relative path finds from the current node, its absolute form finds from the root |
| `CurrentDir.CurrentDirectory.LookupBothWays` | async/async/modules/axfs/src/root.rs:211-238 | so do the two lookups themselves |
| `RamFs.SplitPathParts` | async/async/crates/axfs_ramfs/src/dir.rs:178-183 | split_path yields the first component and the remaining ones |
| `RamFs.LookupIsWalk` | async/async/crates/axfs_ramfs/src/dir.rs:89-106 | the recursive lookup is the walk over the slash-separated pieces |
| `RamFs.ParentWalk` | async/async/crates/axfs_ramfs/src/dir.rs:85-93 | in every tree the parent link leads to the directory that holds the node |
| `RamFs.FoldWalk` | async/async/crates/axfs_ramfs/src/dir.rs:89-106 | a successful walk ends where the walk over the folded components ends |
| `RamFs.LookupCanonical` | async/async/crates/axfs_ramfs/src/dir.rs:89-106 | where lookup of a path succeeds, lookup of its canonical form finds the same node |
| `RamFsOps.HolderStep` | async/async/crates/axfs_ramfs/src/dir.rs:127-183 | one recursive step of create and remove moves to the directory that holds the rest |
| `RamFsOps.RamFileSystem.CreateNode` | async/async/crates/axfs_ramfs/src/dir.rs:45-64 | fails exactly on existing names and unsupported types; otherwise adds one fresh node whose parent is the directory |
| `RamFsOps.RamFileSystem.RemoveNode` | async/async/crates/axfs_ramfs/src/dir.rs:67-77 | fails exactly on missing names and non-empty directories; otherwise removes exactly that entry |
| `RamFsOps.RamFileSystem.Create` | async/async/crates/axfs_ramfs/src/dir.rs:127-149 | acts on the directory the walk over all but the last component finds, or fails as that walk does |
| `RamFsOps.RamFileSystem.Remove` | async/async/crates/axfs_ramfs/src/dir.rs:151-173 | acts on the directory the walk over all but the last component finds, or fails as that walk does |
| `RamFsOps.LookupNode` | async/async/crates/axfs_ramfs/src/dir.rs:89-106 | computes the abstract lookup |
| `RamFsOps.LookupInHolder` | async/async/crates/axfs_ramfs/src/dir.rs:89-106 | a path leads where its last component leads from the directory that holds it |
| `RamFsOps.WalkStays` | async/async/crates/axfs_ramfs/src/dir.rs:45-64 | adding entries redirects no walk |
| `RamFsOps.WalkLost` | async/async/crates/axfs_ramfs/src/dir.rs:67-77 | removing an entry lets a walk end where it did or find nothing |
| `RamFsOps.RamFileSystem.CreateThenLookup` | async/async/modules/axfs/src/root.rs:240-249 | after a successful create, lookup of the path succeeds exactly unless it ends in ".." at a directory without a parent, and a new name finds the new node |
| `RamFsOps.RamFileSystem.CreateFile` | async/async/modules/axfs/src/root.rs:240-249 | the outcome on every path: the failures of empty paths, trailing slashes, the walk to the directory, existing names and a missing parent, and otherwise the node that the path names from then on, a new file for a new name |
| `RamFsOps.RamFileSystem.RemoveThenLookup` | async/async/crates/axfs_ramfs/src/dir.rs:151-173 | after a successful remove, lookup of the path finds nothing |
| `RamFsOps.CreateAboveRoot` | async/async/crates/axfs_ramfs/src/dir.rs:144-145 | create of ".." at the root succeeds and lookup of it fails |
| `RamFsOps.Session` | async/async/crates/axfs_ramfs/src/dir.rs:45-183 | after every run of create and remove from an empty root, a path that is found is found under its canonical form too, as the same node |
| `FixedPoint.Candidate` | async/async/crates/ratio/src/lib.rs:58-62 | each candidate is the value times a power of two rounded half up |
| `FixedPoint.Stop` | async/async/crates/ratio/src/lib.rs:58-67 | the search stops at the largest shift up to 32 at which the multiplier fits 32 bits |
| `FixedPoint.Reduce` | async/async/crates/ratio/src/lib.rs:69-72 | the value is kept and the result is odd or unshifted |
| `FixedPoint.NearestOfValue` | async/async/crates/ratio/src/lib.rs:57-62 | equal fractions round to the same integer |
| `FixedPoint.FixedFits` | async/async/crates/ratio/src/lib.rs:61-79 | the multiplier fits 32 bits and the shift is at most 32 |
| `FixedPoint.SameFixed` | async/async/crates/ratio/src/lib.rs:47-80 | the representation depends only on the value of the fraction |
| `FixedPoint.CandidateNext` | async/async/crates/ratio/src/lib.rs:61-67 | one more bit of precision at most doubles the candidate, but for one |
| `FixedPoint.SameFixedIff` | async/async/crates/ratio/src/lib.rs:47-80 | two fractions are held alike exactly when the search stops at one shift with one candidate |
| `FixedPoint.ProperStop` | async/async/crates/ratio/src/lib.rs:58-67 | a proper fraction is held at the full shift of 32 |
| `FixedPoint.ErrorBound` | async/async/crates/ratio/src/lib.rs:107-125 | value * mult / 2^shift is within value / 2^(s + 1) of value * n / d, s being the shift of the search |
| `Ratios.New` | async/async/crates/ratio/src/lib.rs:47-80 | panics exactly on a zero denominator with a nonzero numerator; otherwise builds the representation, normalised |
| `Ratios.FirstMult` | async/async/crates/ratio/src/lib.rs:61-62 | the candidate is computed within 64 bits |
| `Ratios.Inverse` | async/async/crates/ratio/src/lib.rs:92-94 | panics exactly on a zero numerator with a nonzero denominator; otherwise builds the swapped fraction |
| `Ratios.EqualFractionsEqualRatios` | async/async/crates/ratio/src/lib.rs:141-146 | equal fractions, in particular k * n over k * d, compare equal |
| `Ratios.EqualIff` | async/async/crates/ratio/src/lib.rs:141-146 | two ratios compare equal exactly when they have one precision and round to one integer at it |
| `Ratios.EqualAreClose` | async/async/crates/ratio/src/lib.rs:141-146 | ratios that compare equal are less than 2^-s apart, s being their precision |
| `Ratios.EqualToNothing` | async/async/crates/ratio/src/lib.rs:141-146 | the ratio 0/0 equals exactly the ratios with numerator zero |
| `Ratios.DistinctFractionsMayAgree` | async/async/crates/ratio/src/lib.rs:141-146 | two different fractions that compare equal |
| `Ratios.RoundClose` | async/async/crates/ratio/src/lib.rs:123-125 | for values below 2^s, mul_round is less than one away from value * n / d |
| `Ratios.RoundExact` | async/async/crates/ratio/src/lib.rs:123-125 | mul_round is exact when the denominator divides value * n and value is below 2^s |
| `Ratios.TruncExactIff` | async/async/crates/ratio/src/lib.rs:107-109 | mul_trunc returns the floor of value * n / d exactly when that fits 64 bits and the multiplier's excess leaves the remainder in range |
| `Ratios.TruncOfWhole` | async/async/crates/ratio/src/lib.rs:107-109 | on whole answers below the precision, mul_trunc is right exactly when the multiplier was not rounded down |
| `Ratios.ThirdOfThree` | async/async/crates/ratio/src/lib.rs:96-125 | a third of three comes out of mul_trunc as 0 and of mul_round as 1 |
| `Disk.AlignUp` | async/async/crates/driver_block/src/ramdisk.rs:107-109 | the least multiple of the block size not below the value |
| `Disk.RamDisk.FromBytes` | async/async/crates/driver_block/src/ramdisk.rs:35-40 | holds the given bytes, then zeros up to whole blocks |
| `Disk.RamDisk.ReadBlock` | async/async/crates/driver_block/src/ramdisk.rs:78-88 | Io exactly beyond the end, InvalidParam exactly on partial blocks; otherwise the buffer holds the block's bytes |
| `Disk.RamDisk.WriteBlock` | async/async/crates/driver_block/src/ramdisk.rs:90-100 | the same failures, without effect; otherwise exactly those bytes are replaced |
| `Disk.Disk.SetPosition` | async/async/modules/axfs/src/dev.rs:34-37 | the cursor stands at the given byte, its offset below the block size |
| `Disk.Disk.ReadOne` | async/async/modules/axfs/src/dev.rs:40-68 | fails exactly at or beyond the end, without effect; otherwise reads the bytes at the cursor up to the end of the buffer or the block, whichever comes first, and advances by their number |
| `Disk.Disk.WriteOne` | async/async/modules/axfs/src/dev.rs:71-95 | fails exactly at or beyond the end, without effect; otherwise replaces exactly the bytes at the cursor up to the end of the buffer or the block, whichever comes first, and advances by their number |
| `Disk.Disk.Read` | async/async/modules/axfs/src/fs/fatfs.rs:263-277 | fills the buffer with the bytes from the cursor on; an error tells exactly that the device ended first |
| `Disk.Disk.Write` | async/async/modules/axfs/src/fs/fatfs.rs:281-294 | replaces exactly the bytes from the cursor on; an error tells exactly that the device ended first, after writing what fits |
| `Disk.WriteThenRead` | async/async/modules/axfs/src/dev.rs:24-95 | whatever fits is read back as it was written |
| `GraphSpec.Pigeonhole` | Rust-rustlings/exercises/algorithm/algorithm6.rs:30-32 | distinct vertices as many as there are, are all of them |
| `GraphSpec.NearSeen` | Rust-rustlings/exercises/algorithm/algorithm5.rs:38-48 | everything no further than the head of the queue has been seen |
| `GraphSpec.Discovered` | Rust-rustlings/exercises/algorithm/algorithm5.rs:42-47 | a vertex seen for the first time is exactly one step further than the head |
| `GraphSpec.WalkBack` | Rust-rustlings/exercises/algorithm/algorithm5.rs:23-26 | in a graph built from such edges every walk can be walked back |
| `GraphSpec.SameComponent` | Rust-rustlings/exercises/algorithm/algorithm5.rs:23-51 | searches of either kind from two vertices of which one finds the other find the same vertices |
| `GraphSearch.Graph.AddEdge` | Rust-rustlings/exercises/algorithm/algorithm5.rs:23-26 | each end is appended to the list of the other, no other list changes, and the graph stays symmetric |
| `GraphSearch.Graph.QueueNeighbours` | Rust-rustlings/exercises/algorithm/algorithm5.rs:42-47 | the neighbours of the head are all seen afterwards, each at its true distance |
| `GraphSearch.Graph.BfsWithReturn` | Rust-rustlings/exercises/algorithm/algorithm5.rs:29-51 | every reachable vertex once, nothing else, in nondecreasing shortest distance, each the first unseen neighbour of the earliest vertex that still had one |
| `GraphSearch.BreadthFirstUnique` | Rust-rustlings/exercises/algorithm/algorithm5.rs:29-51 | there is one such order from a start |
| `GraphSearch.Graph.DfsUtil` | Rust-rustlings/exercises/algorithm/algorithm6.rs:26-38 | the order grows without repeats by reachable vertices, stays depth-first, and the neighbours of all new ones are in it, early return or not |
| `GraphSearch.Graph.Dfs` | Rust-rustlings/exercises/algorithm/algorithm6.rs:41-46 | every reachable vertex once and nothing else, each the first unseen neighbour of the latest vertex before it that still had one |
| `GraphSearch.DepthFirstUnique` | Rust-rustlings/exercises/algorithm/algorithm6.rs:41-46 | there is one such order from a start |

## Left out

- `map_fault`, `map_fault_region`, `map_overwrite`, `update_region` and `walk`: fault entries depend on the architecture, and the others add easy members beside map and update.
- Page table entry encodings, TLB flushes, physical-to-virtual translation and raw pointers: entries and tables are values of a map from frames.
- When a frame is refused: the frame allocator may refuse at any time.
- `MaybeUninit`, `UnsafeCell` and pinning of list links, and the reference-counted `linked_list.rs` wrapper: the links of an entry outside a list have no meaning here.
- `_grow`, `usable_size` and deallocation with another layout than the one allocated with: outside the heap's contract.
- The heap's start address and the buddy heap's own free lists: the buddy heap is a contract.
- CFS `min_vruntime` as a lower bound and tasks added with elapsed time: the code does not maintain these.
- Atomic orderings, locks and interrupts: each operation is one step.
- Mounting, devfs, the interrupts node, permissions, file contents, `read_dir` and rename: easy members beside lookup.
- Non-ASCII paths: strings are sequences of characters, while the source slices by bytes.
- Wrap-around of stack positions, virtual run times, disk positions and addresses.
- `RamDisk`'s `new`, `copy_from_slice` and `flush` and the ext4 and FAT file systems above the disk, except their read and write loops.
- Graph vertices out of range, on which the source panics, are excluded by preconditions.
- Allocator wrappers over the bitmap library, drivers, spinlocks, per-CPU data, the build scripts, configuration and the other exercises.
