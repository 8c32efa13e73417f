# Verified model of the heap allocator, the firmware patcher and the SSDT builder

The project models three components and proves them correct with Dafny 4.11 (`dafny verify dfyconfig.toml`).

**The TLSF allocator** (`tlsf.c`). `Bits`, `Bitwise` and `Mapping` hold the arithmetic: C's bitwise operators,
find-first-set and find-last-set, alignment, request sizes, size classes, the gap before an aligned block. `Blocks` says
what the headers mean (which blocks there are, splitting, merging, coalescing), `Headers` how they lie in memory, where
each header starts in the last payload word of the block before it. `FreeLists` and `Bitmaps` hold the 800 linked lists
and the two-level bitmap over them. `Invariant` states what holds between the steps of every operation, including the
steps where a block is free but off its list, and what each step does to it. `Allocator` is the class whose methods do
what the C functions do, on an array of 8-byte words. Its `Valid()` is the whole invariant: blocks tile every pool up to a
zero-size sentinel, flags and predecessor words are right, no two neighbours are free, every free block is once on the
list of its class, both bitmap levels are exact. The contracts speak about two abstract states: `Live(words, h)`, the
contents of every live allocation, and `Plan()`, the blocks there are and the order in which the free ones stand on their
lists. `Plans` gives every operation as what it makes of the plan: which block is taken, where it is cut, what goes back
to which list. That determines the outcome of every request. `Layout` is the control structure field by field. `Checks`
says what the integrity checks find in any memory, valid or not. `Runs` lets a client make any sequence of requests,
pools handed over and taken back included, and proves what its memory and the plan look like after each of them.

**The EL3 patcher** (`patch_bl.c`). `Patterns` is the pattern search, `Patcher` the rewriting of the BL31 image in a
firmware package. The final image is given as one function of the original image, and the loop is proved to reach it.
`A64` decodes and performs the few instructions involved (Arm Architecture Reference Manual, DDI 0487, part C), and `Stub`
runs the code before and after: patched, it does what it did and sets bit 63 of MPAM3_EL3 in between.

**The AML emitter and the SSDT builder** (`aml.c`, `dsdt_fix.c`). `Aml` sizes and serializes node trees into a buffer,
`AmlGrammar` is an independent reader and writer of AML terms (ACPI 6.5, sections 20.2.2 to 20.2.5), and `Ssdt` builds the
table from two lists of device paths. A reader of the table, with characters and opcodes of its own, finds the header and
exactly the intended terms. `Bytes` is shared.

Where code and comments disagree, the model follows the code:

- `tlsf_realloc` promises to leave the buffer untouched when a request cannot be satisfied (tlsf.c:1209-1210). Read as one
  predicate (`ReallocPromise`: null and nothing changed, or a block of at least `size` bytes with the old contents), the
  promise for a live pointer and a size other than 0 is kept **if and only if the size is at most 2^32 - 8**
  (`Allocator.Tlsf.Realloc`, `Invariant.OversizeRealloc`). Above that the old pointer comes back as if all were well:
  - from 2^32 - 7 to 2^64 - 8 the adjusted size is 0. A 24-byte block is left as it is. Any other block is cut to size 0:
    its contents are given to the free lists and its zero-size header now ends its pool, so that the pool falls into pieces;
    the rest of the heap stays consistent (`BlockTrimUsed`, `TrimToNothing`, `PoolsBroken`).
  - from 2^64 - 7 on the adjusted size wraps to 24, and the block is cut to fewer than 56 bytes.
- `tlsf_memalign` returns null exactly when the search finds nothing for the request it makes of size and alignment
  (`Refused`). A pointer keeps the promise, an aligned block of at least `size` bytes, **if and only if the alignment is below
  2^63 and the size is at most 2^64 - 8** (`MemalignPromise`, `Allocator.Tlsf.Memalign`; at 2^63, in a memory of at most 2^63
  bytes). The two failing families:
  - a size from 2^64 - 7 on wraps to 24, and a block of fewer than 56 bytes comes back. At the alignment 16 any free block of
    80 bytes will do (`WrappedFound`).
  - at an alignment of 2^63 the enlarged request wraps to 24. Some free block comes back as it lies, unaligned and possibly
    too small; there is null only if no block is free (`TopRefused`).

  The heap stays consistent in every case.
- `tlsf_malloc` has the first of these: a pointer leads to at least `size` bytes **if and only if the size is at most
  2^64 - 8** (`Allocator.Tlsf.Malloc`).
- `tlsf_add_pool` accepts a pool of exactly 2^32 bytes, whose block belongs to no list (`MaxPoolOffTable`): it goes on to index
  the table of lists outside the array. What it does is defined **if and only if the pool is not of exactly that size**
  (`Allocator.Tlsf.AddPool`).
- The patcher reports "Init pattern not found", but then still copies the stub and returns 0 (patch_bl.c:152-156, 174-177).
  Returning 0 therefore does not mean that anything calls the stub: the image differs from one with only the stub copied in
  **if and only if it held an init sequence** (`PatchedOrNot`; `StubNeverCalled` names an image without one).
- A rewritten word is always a BL, but it calls the stub only when the distance is a whole number of words within 128 MB
  (`BlReaches`, `PatchedImage`).
- `tlsf_check` is to return nonzero if any internal consistency check fails (tlsf.h:82-84), and says that first and second
  level lists agree (tlsf.c:867). It returns 0 **if and only if** lists and bitmaps are as `Checks.Clean` says, and that lets
  one fault through: a bit of the first level over an empty row. Without such bits both levels are exact (`CleanMaps`,
  `StrayBit`). Likewise `tlsf_check_pool` sees every wrong prev-free flag except that of the sentinel, where its walk has
  ended (`Allocator.Tlsf.CheckPool`).

Addresses in the allocator are counted in 8-byte words; pointers at the public interface are bytes. Stored words are
unbounded integers, but every block size stays below 2^32, and requests and pool sizes are taken modulo 2^64 where C does.

## Model

| member | source | states |
|---|---|---|
| Bits.FfsLowest | tlsf.c:171-174 | for every non-zero word ffs is the index of its lowest set bit |
| Bits.FlsOfValue | tlsf.c:156-168 | the masks and shifts of the generic fls do to the word what the same steps do to its numeric value |
| Bits.FlsValueIsLog | tlsf.c:156-168 | the generic fls of a non-zero word is one more than the floor of its base-2 logarithm |
| Mapping.FlsIsLog2 | tlsf.c:185-200 | the 64-bit fls of every non-zero size is the floor of its base-2 logarithm |
| Bits.SetBit | tlsf.c:627-628 | setting bit i adds i to the set bits and changes no other |
| Bits.ClearBit | tlsf.c:597-606 | clearing bit i removes i from the set bits and changes no other |
| Bits.CutBit | tlsf.c:558-562 | the search mask keeps exactly the set bits at or above an index |
| Bitwise.OneBit | tlsf.c:474-496 | the disabled assert on an alignment, that it has no bit in common with the number before it, holds exactly for powers of two |
| Mapping.AlignBits | tlsf.c:474-484 | align_up and align_down, written with and, not and the mask of the alignment, are the rounding by remainders that the model uses |
| Mapping.Ceiling | tlsf.c:474-478 | align_up gives the least multiple of a power of two at or above x, and 0 when that multiple is 2^64 |
| Mapping.AdjustGood | tlsf.c:498-512 | an adjusted request is 0 exactly for size 0 and for sizes too large; otherwise it is a multiple of 8, at least 24 and below 2^32, at least the request and less than 8 above it (or 24); above 2^64 - 8 it wraps to 24 |
| Mapping.MappingIsClass | tlsf.c:519-536 | for every 64-bit size the two indices are in range and, read row by row, are the size's class |
| Mapping.ClassBounds | tlsf.c:519-536 | every size lies between the least size of its class and that of the next: the classes partition the sizes |
| Mapping.ClassMono | tlsf.c:519-536 | a larger size never has a smaller class |
| Mapping.LeastClosed | tlsf.c:519-536 | the classes of one first-level row start at (32 + j) times a power of two |
| Mapping.ClassInTable | tlsf.c:519-536 | a size has a list in the 25 by 32 table if and only if it is below 2^32 |
| Mapping.MaxPoolOffTable | tlsf.c:1001-1024 | the first-level index of an accepted pool size is in the table if and only if the size is not 2^32 itself |
| Mapping.MappingSearchIsFirstFit | tlsf.c:539-547 | the class searched for is the first one all of whose sizes are at least the request, also when rounding crosses a power of two |
| Mapping.FirstFitLarge | tlsf.c:780-784 | any block filed at or above the searched class is at least as large as the request: the disabled assert holds |
| Mapping.RoundUpClass | tlsf.c:539-547 | rounding up to the class boundary adds less than a 32nd part to requests of 256 bytes or more |
| Mapping.AdjustLarge | tlsf.c:1244-1252 | when the block is too small for the adjusted request it is smaller than the request, so the move copies the whole block |
| Mapping.GapRange | tlsf.c:1158-1174 | the alignment gap is 0, or a multiple of 8 between 32 and align + 24; it leads to a multiple of align, and none comes before it, at the block itself or behind room for a free block |
| Mapping.SizeWithGap | tlsf.c:1143-1149 | the enlarged request is refused, or has room for the request, the alignment and a leading free block |
| Mapping.SizeWithGapExact | tlsf.c:1143-1149 | that room is there if and only if the alignment is below 2^63 |
| Mapping.PoolBytesFit | tlsf.c:991-1001 | a pool's block takes all whole words but two of the memory given; less than 16 bytes are refused |
| Layout.Follows | tlsf.c:351-362 | each field of the control structure starts at the end of the one declared before it, at an offset that its alignment allows |
| Layout.FieldsApart | tlsf.c:351-362 | no two fields of the control structure share a byte |
| Layout.FieldsFill | tlsf.c:947-954 | a byte lies below tlsf_size if and only if some field holds it |
| Layout.HeadIndex | tlsf.c:361 | the list heads row by row are the 800 words behind the bitmaps |
| Layout.Constants | tlsf.c:211-293 | the sizes and counts follow from the two logarithms, 5 and 3, and the header's four words; the static assert on them holds |
| Blocks.SplitTiled | tlsf.c:653-672 | splitting a block keeps the tiling of its pool |
| Blocks.AbsorbTiled | tlsf.c:675-682 | absorbing the successor keeps the tiling |
| Blocks.AbsorbSplit | tlsf.c:653-682 | absorbing what was split off restores the tiling as it was |
| Blocks.LinkWrite | tlsf.c:298-338 | writing list links into a free block or the null block changes no header and no live payload |
| Blocks.ReleaseCoalesced | tlsf.c:684-713 | giving a block back merges it with both free neighbours, so no two neighbours are free |
| Blocks.ReleaseTake | tlsf.c:789-800 | freeing a block just taken restores the tiling exactly |
| Blocks.MemalignTiling | tlsf.c:1156-1183 | cutting a leading block off, allocating behind it and freeing at once restores the tiling exactly |
| Blocks.TrimMergeCoalesced | tlsf.c:729-741 | trimming a live block leaves no two free neighbours and less than 32 bytes over |
| Blocks.BrokenTiled | tlsf.c:653-672 | a live block cut to size 0 ends its pool, and what lay behind it is a pool of its own: both are tiled |
| Blocks.TrimToNothing | tlsf.c:729-741 | trimming a live block of 32 bytes or more to size 0 leaves a tiling without free neighbours in which the block is gone |
| Blocks.PoolsBroken | tlsf.c:729-741 | that replaces exactly one pool by its pieces |
| Blocks.AddPoolTiled | tlsf.c:1020-1030 | a new pool is one free block and its sentinel, apart from all others |
| Blocks.ChainExact | tlsf.c:910-925 | following a pool's blocks meets each of them once, in increasing order of addresses |
| Blocks.ChainBytes | tlsf.c:653-713 | block sizes plus 8 per block add up to the same number however a pool is split and merged |
| Blocks.NothingLive | tlsf.c:685-713 | with nothing live every pool is one free block from its first header to its sentinel |
| Headers.FlagBits | tlsf.c:371-413 | each size and flag operation, written with and, or and not on a 64-bit word, is the arithmetic that the model uses |
| Headers.FlagOps | tlsf.c:371-415 | size and flag operations on a header word change what they name and nothing else |
| Headers.MarkFreeTagged | tlsf.c:459-465 | marking a block free writes the headers of exactly this change |
| Headers.MarkUsedTagged | tlsf.c:467-472 | marking a block used writes the headers of exactly this change |
| Headers.SplitIs | tlsf.c:653-672 | what block_split leaves: all headers right except the remainder's prev-free bit, which is the bit of the old memory |
| Headers.SplitFreeDone | tlsf.c:721-723 | the repair after splitting a free block makes every header right |
| Headers.SplitUsedDone | tlsf.c:735-736 | the repair after splitting a used block, at size 0 as well, writes the headers and keeps the payload up to the cut |
| Headers.BrokenTagged | tlsf.c:735-736 | after a split at size 0 every header is right for the two pools that result |
| Headers.AbsorbUsedTagged | tlsf.c:1256-1261 | growing a used block over its free successor and marking it used makes every header right |
| FreeLists.CutFiled | tlsf.c:582-595 | taking a block off its list leaves every other free block on its own list once |
| FreeLists.PutFiled | tlsf.c:611-626 | pushing a block on the list of its class files it once |
| FreeLists.ChainedCut | tlsf.c:582-595 | the two link writes of a removal keep all 800 lists linked in both directions |
| FreeLists.ChainedPut | tlsf.c:611-626 | the three link writes of an insertion keep all 800 lists linked in both directions |
| Bitmaps.MapSet | tlsf.c:626-628 | after an insertion both bitmap levels say which lists are empty |
| Bitmaps.MapClear | tlsf.c:597-606 | after the last removal from a list both bitmap levels say which lists are empty |
| Bitmaps.RowSearch | tlsf.c:558-559 | the row search finds the first non-empty list of the row, or the row has none |
| Bitmaps.UpperSearch | tlsf.c:561-575 | the search above the row finds the first non-empty list above it, or there is none |
| Invariant.UnlinkInv | tlsf.c:582-608 | removal keeps the whole invariant, with the block off its list, and all live payloads |
| Invariant.LinkInv | tlsf.c:611-629 | insertion keeps the whole invariant and all live payloads |
| Invariant.MarkFreeInv | tlsf.c:459-465 | marking a live block free removes its payload from the live ones and keeps the others |
| Invariant.MarkUsedInv | tlsf.c:467-472 | marking a block used adds one live payload and keeps the others |
| Invariant.SplitFree | tlsf.c:719-723 | splitting a free block keeps the invariant and every live payload |
| Invariant.SplitUsed | tlsf.c:732-736 | splitting a live block shortens its payload and keeps the others |
| Invariant.SplitToNothing | tlsf.c:732-736 | splitting a live block at size 0 keeps the invariant, and exactly this payload is gone |
| Invariant.AbsorbFree | tlsf.c:685-713 | merging two free blocks keeps the invariant and every live payload |
| Invariant.GrownInv | tlsf.c:1256-1261 | growing a live block in place extends its payload and keeps the others |
| Invariant.PayloadWrite | tlsf.c:298-338 | a store to a live payload disturbs no header, no list and no other payload |
| Invariant.FirstIsLarge | tlsf.c:549-579 | if the search finds a list, its block reaches the request rounded up to its class boundary, so the search fails only if no free block does |
| Invariant.NoneListed | tlsf.c:549-579 | if the search finds no list, every free block is smaller than the request rounded up to its class boundary |
| Invariant.BoundedWaste | tlsf.c:759-787 | then no free block exceeds the request by a 32nd part, and below 256 bytes none reaches it |
| Invariant.OversizeRealloc | tlsf.c:1209-1270 | for a size above 2^32 - 8 no outcome with a pointer keeps the promise of realloc: no block is that large |
| Invariant.PromiseKept | tlsf.c:1209-1270 | a block of at least the adjusted size that keeps the words both blocks have is what realloc promises |
| Invariant.MemalignFound | tlsf.c:1129-1184 | the block found for any alignment: how large it is, where it starts, and that the promise of memalign is kept for it if and only if the alignment is below 2^63 and the size at most 2^64 - 8 |
| Invariant.WrappedFound | tlsf.c:1143-1154 | for a size that wraps and the alignment 16 the search does not fail when a block of 80 bytes is free |
| Invariant.TopRefused | tlsf.c:1143-1154 | at the alignment 2^63 the search fails exactly when the adjusted size is 0 or no block is free |
| Plans.PickedFits | tlsf.c:549-579 | the head of the first list found is a good fit: no free block belongs to a smaller class that reaches the request |
| Plans.OnePick | tlsf.c:759-787 | lists and request determine which block is taken |
| Plans.OnePlace | tlsf.c:1121-1127 | they determine the pointer, all blocks and all lists after an allocation |
| Plans.OneAlignedPlace | tlsf.c:1129-1184 | the same for an aligned allocation |
| Plans.OneMove | tlsf.c:1244-1252 | the same for a resize that moves |
| Plans.ReleaseLists | tlsf.c:1186-1199 | which neighbours leave their lists when a block is freed does not depend on which is joined first |
| Checks.CleanMaps | tlsf.c:858-881 | where tlsf_check finds nothing both bitmap levels are exact if and only if no bit of the first level stands for an empty row |
| Checks.StrayBit | tlsf.c:867-877 | there are such bits that it does not see |
| Checks.ValidClean | tlsf.c:850-900 | a valid allocator passes every test |
| Checks.OneList | tlsf.c:883-895 | memory and head determine what the list walk meets |
| Checks.ValidPool | tlsf.c:833-945 | in a valid pool the walk meets exactly the blocks up to the sentinel, and every prev-free flag is right |
| Allocator.Tlsf.constructor | tlsf.c:803-819 | the fresh control structure is a valid allocator without blocks |
| Allocator.Tlsf.Fields | tlsf.c:351-362 | the declared rows and heads are those of the class's arrays |
| Allocator.CreateWithPool | tlsf.c:1082-1108 | null exactly for misaligned memory, with nothing written; otherwise a valid allocator with nothing live and, if what is left has a size in range, one pool, which begins behind the last field of the control structure, payload at memory + 6544, and takes all whole words of the rest; undefined exactly if that pool has 2^32 bytes |
| Allocator.Tlsf.SearchSuitableBlock | tlsf.c:549-579 | returns the head of the lexicographically first non-empty list at or above the class, and null exactly when there is none |
| Allocator.Tlsf.RemoveFreeBlock | tlsf.c:582-608 | takes one block off its list and changes the order of no other, keeps the rest of the invariant and all live payloads |
| Allocator.Tlsf.InsertFreeBlock | tlsf.c:611-629 | pushes the block on its list and sets both bitmap levels, and writes nothing else |
| Allocator.Tlsf.BlockMergePrev | tlsf.c:685-697 | merges with a free predecessor |
| Allocator.Tlsf.BlockMergeNext | tlsf.c:700-713 | merges with a free successor; on a used block it leaves the state that tlsf_realloc completes |
| Allocator.Tlsf.BlockTrimFree | tlsf.c:716-726 | returns what is left over of a free block to the lists |
| Allocator.Tlsf.BlockTrimUsed | tlsf.c:729-741 | shortens a live block to the request and joins the rest to a free successor; at size 0 the allocation is gone, unless it has 24 bytes |
| Allocator.Tlsf.BlockTrimFreeLeading | tlsf.c:743-757 | keeps the front of a free block on the lists and returns the rest |
| Allocator.Tlsf.BlockLocateFree | tlsf.c:759-787 | returns the head of the first non-empty list from the first class on whose sizes all reach the request, and no free block of a smaller such class exists; it leaves its list; null exactly when nothing is asked for or no free block reaches the request rounded up |
| Allocator.Tlsf.BlockPrepareUsed | tlsf.c:789-800 | turns the block into an allocation and changes no other |
| Allocator.Tlsf.Malloc | tlsf.c:1121-1127 | null exactly when the search fails, with nothing changed; otherwise the good fit: the head of the first list whose class reaches the request is taken, cut behind the adjusted size, and the rest put in front of its list; a block of less than 32 bytes above the adjusted request, at least the size if and only if the size is at most 2^64 - 8; all others keep place and contents; freeing it restores the tiling |
| Allocator.Tlsf.LeadingGap | tlsf.c:1158-1174 | computes the least usable alignment gap |
| Allocator.Tlsf.AlignBlock | tlsf.c:1156-1181 | leaves a free block whose payload starts at the least usable multiple of align; what is cut off in front goes to its list |
| Allocator.Tlsf.LocateAligned | tlsf.c:1154-1181 | the block found, cut in front of the least aligned address, or null when the search fails |
| Allocator.Tlsf.Memalign | tlsf.c:1129-1184 | null exactly when the search fails; otherwise the good fit for the enlarged request is cut in front of the least aligned address in it; a pointer is an aligned block of at least the size if and only if the alignment is below 2^63 and the size is at most 2^64 - 8; at 2^63 a free block comes back as it lies; otherwise as Malloc |
| Allocator.Tlsf.Free | tlsf.c:1186-1199 | removes exactly one allocation, keeps all others, and coalesces: free neighbours leave their lists, and the joined block is put in front of its own |
| Allocator.Tlsf.Realloc | tlsf.c:1209-1270 | for every size and live pointer: the promise is kept if and only if the size is at most 2^32 - 8; the allocation stays in place if and only if it fits there, alone or with a free successor, and otherwise moves to the good fit; null exactly when it does not fit and the search fails, with nothing changed; what the two ranges of larger sizes leave behind; for a null pointer all that Malloc promises |
| Allocator.Tlsf.ReallocMove | tlsf.c:1244-1252 | allocates, copies the whole old block and frees it |
| Allocator.Tlsf.ReallocInPlace | tlsf.c:1254-1265 | grows into the free successor if needed, then trims, keeping the contents; an adjusted size of 0 loses the block or, at 24 bytes, writes nothing |
| Allocator.Tlsf.AddPool | tlsf.c:986-1033 | accepts exactly the aligned memory of a size in range, adds one free block and a sentinel behind it, in front of its list, and keeps all allocations; the payload starts one word into the memory and no whole word is left over behind the sentinel; undefined exactly for 2^32 bytes |
| Allocator.Tlsf.RemovePool | tlsf.c:1035-1048 | forgets a pool that is one free block, takes that off its list, keeps all allocations |
| Allocator.Tlsf.SizeAt | tlsf.c:927-936 | the payload size of a live block |
| Allocator.Tlsf.CheckList | tlsf.c:883-895 | the list walk ends and takes something off the status if and only if some block of the list fails one of the six tests |
| Allocator.Tlsf.Check | tlsf.c:850-900 | in any memory whose lists end: 0 if and only if bitmaps, heads and lists are clean, and so in every valid state |
| Allocator.Tlsf.WalkPool | tlsf.c:910-925 | in any memory where the headers lead to one of size 0: visits every one before it, in order, with its pointer, size and status |
| Allocator.Tlsf.IntegrityWalker | tlsf.c:833-848 | takes one off the status for each of previous status and size that disagrees with the header |
| Allocator.Tlsf.CheckPool | tlsf.c:938-945 | on any such pool: 0 if and only if every flag but that of the sentinel says whether the block before is free, and so in every valid state |
| Runs.Run | tlsf.c:986-1270 | over every sequence of allocations, frees, resizes of any size, stores, pools added and pools removed the allocator stays valid; each request does to the client's memory and to the plan of blocks and lists what it promises and nothing else; it fails exactly when the search finds nothing, and a resize stays in place exactly when it fits there; allocations stay disjoint, inside the pools, and inside memory that was there or is lent at the time; once nothing is live every pool is one free block |
| Runs.OneOutcome | tlsf.c:986-1270 | a request has one outcome: the plan, the memory lent and every pointer are determined by those before |
| Runs.ServeLost | tlsf.c:1232-1270 | the client of a resize that is turned down loses its block and the pool around it, unless the block has 24 bytes, and nothing else |
| Runs.WorldDisjoint | tlsf.c:298-338 | no two live allocations overlap |
| Runs.WorldContained | tlsf.c:986-1033 | every live allocation lies inside a pool |
| Runs.WorldBacked | tlsf.c:1121-1199 | the used blocks are exactly those that the client holds |
| Runs.KnownTaken | tlsf.c:1035-1048 | when a pool is taken back, no block of the allocator is left in its memory |
| Patterns.SearchPatternInBuffer | patch_bl.c:75-99 | returns the first match, masked or not, of the first pattern that matches anywhere, and none if none matches |
| Patcher.BlBits | patch_bl.c:165-168 | the or of the opcode with the masked offset, in two's complement, is the word of the model |
| Patcher.AlignBits | patch_bl.c:143-144 | adding 3 and clearing two bits rounds up to a multiple of four |
| Patcher.BlReaches | patch_bl.c:165-168 | the word written is a BL, and its target is the stub if and only if the distance is whole words in [-2^27, 2^27) |
| Patcher.InitApart | patch_bl.c:48-62 | two occurrences of the init sequence never share a byte |
| Patcher.PatchEnds | patch_bl.c:165-171 | writing a BL over the second word ends this occurrence and starts no other |
| Patcher.ReplaceStep | patch_bl.c:147-172 | one pass of the loop replaces one more second word, and exactly one occurrence fewer is left |
| Patcher.AllReplaced | patch_bl.c:147-172 | replacing the second words of any set of occurrences at once leaves exactly the other occurrences |
| Patcher.StringApart | patch_bl.c:41-62 | the stub string shares no byte with any occurrence of the init sequence |
| Patcher.StringKept | patch_bl.c:147-172 | the rewriting leaves the stub string as it was |
| Patcher.StubInside | patch_bl.c:142-144 | the aligned stub lies inside the matched string |
| Patcher.NoInitAcross | patch_bl.c:64-73 | no init sequence overlaps a copy of the stub |
| Patcher.StubStartsNone | patch_bl.c:174-175 | copying the stub anywhere in an image starts no init sequence |
| Patcher.PatchedImage | patch_bl.c:127-177 | the final image holds no init sequence, holds the stub inside the string, every old occurrence holds a BL that calls the stub if and only if it is in range, and no other byte differs |
| Patcher.PatchedOrNot | patch_bl.c:152-177 | more than the stub was written if and only if the image held an init sequence |
| Stub.StubRuns | patch_bl.c:64-73 | run from any state the stub writes 2^63 to MPAM3_EL3, passes an ISB, and returns to x30 with 0 in x0 |
| Stub.InitRuns | patch_bl.c:48-62 | the sequence searched for clears a mask bit, sets x0 to 0 and writes that to CPTR_EL3 |
| Stub.PatchedRuns | patch_bl.c:147-175 | an occurrence that reaches the stub does in the patched image what it did before, with MPAM3_EL3 written and an ISB in between; of the registers only x30 differs |
| Patcher.StubNeverCalled | patch_bl.c:152-177 | an image that is only the string has no init sequence and is patched with a stub that nothing calls |
| Patcher.NoInitOnEntry | patch_bl.c:149-171 | no init sequence has its second word on the offset or size of the image's own entry, so no pass of the loop overwrites what the next one reads |
| Patcher.FramedEntry | patch_bl.c:149-151 | whatever has been replaced in the image so far, the entry still locates it |
| Patcher.FieldsPacked | patch_bl.c:18-31 | each field of package header and entries starts where the one before it ends |
| Patcher.FieldsRead | patch_bl.c:101-125 | magic, uuid, offset and size are read from their fields, the numbers as little-endian |
| Patcher.StringText | patch_bl.c:41-46 | the string searched for, character by character |
| Patcher.UuidText | patch_bl.c:110-118 | the uuid compared with is 6d08d447-fe4c-4698-9b95-2950cbbd5a00 |
| Patcher.Bl31First | patch_bl.c:110-118 | the entry found is the first that matches, and -1 means that none does |
| Patcher.FindBl31 | patch_bl.c:110-118 | finds the first of the sixteen entries with the BL31 uuid, or that there is none |
| Patcher.RewriteInits | patch_bl.c:147-172 | the loop ends, and the buffer then is the simultaneous replacement of all second words; it reports whether there was one |
| Patcher.PatchEl3 | patch_bl.c:101-180 | fails exactly on a bad magic, a missing entry or a missing stub string, leaving the buffer unchanged; otherwise the image becomes the patched image of its first stub string, and no byte outside it changes |
| Aml.WidthsAgree | aml.c:51-65 | the size thresholds 63, 4094, 1048573 and the serializer's 64, 4096, 1048576 always choose the same number of length bytes |
| Aml.LengthBits | aml.c:132-151 | the masked bytes of a PkgLength are the remainders of the model |
| Aml.KnownOpcodes | aml.c:42-85 | the opcodes that have a size, and which of them are packages |
| Aml.PkgRoundTrip | aml.c:132-151 | decoding a PkgLength gives the package's own byte count if and only if that is below 2^28 |
| Aml.ChildrenSize | aml.c:32-40 | the sum of the sizes of the children, or the error of one that is not supported |
| Aml.NodeSize | aml.c:7-85 | the number of bytes of a supported tree, and the error code exactly for the others |
| Aml.Parts | aml.c:119-171 | how the bytes of a node, supported or not, follow from opcode, length and children |
| Aml.WrittenAll | aml.c:92-172 | of a supported tree exactly its encoding is written |
| Aml.WrittenStop | aml.c:161-169 | where the writing of a tree that is not supported stops |
| Aml.WritePkgLength | aml.c:132-151 | writes the length in one to four bytes |
| Aml.SerializeChildren | aml.c:161-169 | writes the children one behind the other |
| Aml.SerializeTerm | aml.c:119-171 | writes opcode, package length and children |
| Aml.Serialize | aml.c:92-172 | writes exactly the bytes of the tree from pos on and nothing else; for a tree that is not supported those up to the first opcode that is unknown, with the length that the error code makes, and the error is returned |
| AmlGrammar.ReadNameBack | dsdt_fix.c:35-55 | a reader of NameStrings finds the path that was written |
| AmlGrammar.ReadPackageBack | aml.c:128-150 | a reader of packages finds the content that was wrapped |
| AmlGrammar.ReadTermBack | aml.c:119-169 | a reader of terms, with opcodes of its own, finds the term that was written, whatever follows it |
| AmlGrammar.ReadTermsBack | aml.c:119-169 | a reader of term lists finds the terms that were written |
| Ssdt.NameString | dsdt_fix.c:35-55 | encodes a path of 1 to 255 segments as a DualNamePath or a MultiNamePath |
| Ssdt.DevpathList.Append | dsdt_fix.c:29-70 | walks to the end of the linked list, hangs the encoded path there and keeps all other nodes |
| Ssdt.DevpathList.Count | dsdt_fix.c:213-219 | the number of nodes on the list |
| Ssdt.BuildExternals | dsdt_fix.c:222-249 | the If node: the condition, then an External per missing and per offline device, in order |
| Ssdt.BuildTree | dsdt_fix.c:213-273 | the root: the If node, then a Scope per missing device with its numbered _HID, then a Scope per offline one |
| Ssdt.Spelled | dsdt_fix.c:213-289 | the emitter's bytes for the tree are the grammar's bytes for the intended terms |
| Ssdt.ValidTable | dsdt_fix.c:213-273 | every name of the table is well-formed and every package below 2^28 bytes, for all lists within the 16-bit counts |
| Ssdt.HidsDiffer | dsdt_fix.c:252-256 | two devices never get the same _HID |
| Ssdt.TableDescribes | dsdt_fix.c:275-289 | a reader of header and body finds the characters and numbers of the header, the table's own length, and exactly the intended terms |
| Ssdt.HeaderReads | dsdt_fix.c:278-287 | the header reads as SSDT, length, revision 2, DIXYES, DSDTFIX, 1, DIXY, 1 at the offsets of a table header, whatever body follows |
| Ssdt.HidReads | dsdt_fix.c:252-256 | the _HID reads as DIXY and the device's number in hexadecimal |
| Ssdt.TableSays | dsdt_fix.c:213-273 | the intended terms are one If (Zero) with the Externals, then the Scopes in order |
| Ssdt.WriteHeader | dsdt_fix.c:278-287 | writes the 36 header bytes |
| Ssdt.FixDsdt | dsdt_fix.c:211-325 | no table exactly when both lists are empty; otherwise a table that begins with "SSDT", its own length, revision and ids, and reads back as If (Zero) with an External per device, then the Scopes, in order, with each device's number in its _HID |

## Left out

- Allocator.Tlsf.AddPool: requires memory outside the control structure and all pools; for exactly 2^32 pool bytes the model stops where tlsf.c:611-629 indexes the table of lists outside the array, which C leaves undefined.
- Allocator.Tlsf.RemovePool: requires that the pool is one free block, which the disabled asserts demand.
- Patcher.PatchEl3: requires a buffer of less than 2^47 bytes that holds the header and the whole image, and an image no shorter than the stub string: past its end the search would read outside (patch_bl.c:78).
- Aml.NodeSize: requires a tree that fits a 64-bit memory, so that no sum of sizes wraps.
- Ssdt.FixDsdt: requires counts within 16 bits; a serialization error is proved impossible.
- The bitmaps and list heads are arrays of the class, not words of the memory, where their words stay reserved; Layout gives their places.
- Allocator.Tlsf.Check: requires that the lists it walks end, with headers inside the memory; on others tlsf_check reads outside or runs forever. The same holds for Allocator.Tlsf.WalkPool and its pool.
- A64: only the instructions of the stub and of the sequence it is called from; exceptions and privilege are not modelled.
- Copies in tlsf_realloc are whole words; Mapping.AdjustLarge shows that the code copies whole blocks.
- Allocator.CreateWithPool: requires memory inside the address space.
- Runs.Run: starts with nothing live; memory handed over lies apart from the control structure and from the pools there were, and exactly 2^32 pool bytes are never handed over.
- tlsf_get_pool, tlsf_destroy and the functions that return size constants.
- The compiler-intrinsic branches of ffs and fls, and the 32-bit configuration of tlsf.c.
- Memory exhaustion inside the SSDT builder, and aml_free_node.
- The walk over the ACPI namespace that fills the two lists (dsdt_fix.c:89-172), and the installation of the table.
- main in patch_bl.c: file input and output.
- tablesfix.c, hob.c, readnor.c and uacpi_kernel.c: firmware protocol calls and fixed tables.
