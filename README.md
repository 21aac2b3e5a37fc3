# my_allocator: a boundary-tag arena allocator in Dafny

`my_allocator<T, N>` (Allocator.h) serves elements of type `T` from a fixed
arena of `N` bytes. The arena is cut into blocks. Each block's payload sits
between two `int` sentinels, a header and a footer, which both hold the
block's tag: a positive tag is the payload size of a free block, a negative
tag is the negated payload size of a block in use. A block with tag `v`
therefore spans `|v| + 8` bytes, and the next block's header follows its footer.

- The constructor writes one free block over the whole arena.
- `allocate(n)` scans the blocks first-fit from offset 0. It takes the first
  free block whose size is strictly larger than the request. If the leftover
  would be smaller than `min_size = sizeof(T) + 8`, it marks the whole block in
  use. Otherwise it splits the block into an in-use front part of exactly the
  request and a free rest. It returns the payload address, one sentinel past
  the header.
- `deallocate(p)` frees the block whose payload starts at `p` and merges it
  with a free neighbour on either side.
- `valid()` is the consistency check the code asserts at the end of the
  constructor (Allocator.h:100), at the end of allocate's split case (163)
  and on entry to deallocate (190).

The model has five files:

- `wrappers.dfy`: `Option` and `Result`.
- `layout.dfy` (module `Layout`): the arena as a list of block tags.
  - `Laid` says where the blocks' sentinels sit in the cells.
  - `WellFormed` is the arena invariant: no zero tag, the blocks tile exactly
    `N` bytes, and no two neighbours are both free. `Roomy` adds that every
    block spans at least `min_size` bytes.
  - `FirstFit`, `Carve` and `Release` say what allocate and deallocate do to
    the block list.
  - `Walk` is the sentinel walk that `valid()` performs.
- `allocator.dfy` (module `Allocator`): the class `MyAllocator`.
  - It holds the arena as an `array<int>` of `N` cells indexed by byte offset.
    The cell at offset `i` is the `int` that `operator[](i)` reads.
  - A ghost field `blocks` holds the block list, and `Valid()` ties the two
    together.
  - `Allocate` and `Deallocate` write the sentinel cells in the same order as
    the source. They are proved to keep `Valid()` and to change the block list
    exactly as `Carve` and `Release` say.
- `findings.dfy` (module `Findings`): the pointer arithmetic of the source as
  written, beside the arithmetic the model uses.
- `scenarios.dfy` (module `Scenarios`): the unit tests of the `TestAllocator2`
  suite, replayed on the class. `BadCount` is adapted: it calls `allocate(0)`
  and `allocate(-1)` on a constructed 100-byte arena, where the tests throw
  already when constructing a one-byte arena. `DoubleFree` is not one of the
  tests; it checks the doc comment of `deallocate` (Allocator.h:186).

`sizeof(T)` is the parameter `elemSize` and `N` is `n`. The exceptions
`bad_alloc` and `invalid_argument` become the `Error` values `BadAlloc` and
`InvalidArgument` of a `Result`. A null result is `Ok(None)`.

Sentinel cells never overlap. Every span is at least 8 bytes, so two
sentinels are always at least 4 bytes apart. Treating each sentinel as one
cell therefore loses nothing.

In several places the model follows the behaviour the doc comments and tests
describe rather than the code as written. Each one is logged under
"## Findings" below.

- The model steps the scan from header to next header, abs(v) + 8 bytes, and
  stops at byte N, one past the last footer. The code steps to the footer and
  stops at the last sentinel, N - 4 (Allocator.h:130, 134).
- It computes deallocate's footer and merge steps in bytes.
- It reads a right neighbour only when the freed run does not end at the
  last footer. The code compares the footer with the end of the arena.
- `IsValid` performs the sentinel walk instead of returning `true`.
- It returns null whenever no block fits.

It also implements one check the code leaves out. The doc comment of
`deallocate` (Allocator.h:186) says an invalid pointer throws
`invalid_argument`, and TestAllocator.c++:206-217 expects it, but the code
does not check. `Deallocate` walks the headers (`IsLive`) and refuses any
address that is not the payload of a block in use.

The model keeps two details of the code as written:

- A block fits only when it is strictly larger than the request
  (Allocator.h:131). A block exactly the size of the request is not used,
  although it could hold it.
- With 8-byte elements in a 40-byte arena, `allocate(1)` splits the 32-byte
  block into `[-8, 16]`, because the leftover of 24 bytes is at least
  `min_size` = 16. TestAllocator.c++:139 checks the -8 at offset 0, which
  tells the split apart from taking the whole block, which would give -32.

## Model

| member | source | states |
|---|---|---|
| Allocator.Create | Allocator.h:88-100 | bad_alloc exactly when N < sizeof(T) + 8, with no allocator created; otherwise a fresh, valid allocator whose layout is one free block of N - 8 |
| Allocator.MyAllocator.constructor | Allocator.h:96-97 | the arena is valid, is one free block, and holds N - 8 at offset 0 and at offset N - 4 |
| Allocator.MyAllocator.At | Allocator.h:225-233 | the int at a block's header offset is that block's tag |
| Allocator.MyAllocator.IsValid | Allocator.h:71-78 | true exactly when the sentinel walk succeeds, and true in every state that satisfies the arena invariant |
| Layout.Walk | Allocator.h:71-78 | a successful walk yields a block list that is laid out in the cells, has no zero tag, has no two free neighbours, and tiles the arena exactly |
| Layout.WalkExact | Allocator.h:71-78 | the walk from offset 0 returns b if and only if b is laid out in the cells and satisfies the arena invariant |
| Layout.FirstFit | Allocator.h:127-135 | the index of the first block that is free and strictly larger than the request: no earlier block fits, and the block found fits (or none does) |
| Allocator.MyAllocator.Scan | Allocator.h:127-135 | the scan stops at the header offset of the first-fit block, or at the end of the arena when none fits |
| Allocator.MyAllocator.Allocate | Allocator.h:110-164 | count <= 0 is bad_alloc and nothing changes; no fit gives null and nothing changes; otherwise the result is the first-fit block's header + 4, the block list is carved, and the arena stays valid |
| Allocator.MyAllocator.TakeWhole | Allocator.h:144-148 | negating the block's header and footer keeps the arena valid and marks the whole block in use |
| Allocator.MyAllocator.Split | Allocator.h:151-161 | writing -size at both ends of the front part and free_size - size - 8 at both ends of the rest keeps the arena valid and gives the split layout |
| Layout.TakeWholeStep | Allocator.h:144-148 | the two writes of the whole-block case lay out the carved list, which satisfies the invariant |
| Layout.SplitStep | Allocator.h:151-161 | the four writes of the split case lay out the carved list, which satisfies the invariant |
| Layout.Carve | Allocator.h:144-161 | serving size bytes from block k either marks the whole block in use or splits it into an in-use block of exactly size and a free rest; the list grows by at most one block, the blocks before and after k are unchanged, and the served block is in use and holds the request |
| Layout.CarveWellFormed | Allocator.h:113-115 | carving a fitting block keeps the invariant and leaves earlier blocks in place; the served block is in use, holds the request, and exceeds it by less than min_size; a split leaves a free block spanning at least min_size |
| Layout.CarveRoomy | Allocator.h:113-114 | after allocation every block still spans at least min_size = sizeof(T) + 8 bytes |
| Layout.ReleaseRoomy | Allocator.h:114 | after deallocation every block still spans at least min_size bytes |
| Allocator.MyAllocator.Deallocate | Allocator.h:182-207 | the payload of a block in use is freed and merged as Release says, and the arena stays valid; any other address is invalid_argument and nothing changes |
| Allocator.MyAllocator.IsLive | Allocator.h:186 | true exactly when p - 4 is the header offset of a block in use |
| Allocator.MyAllocator.MergeBounds | Allocator.h:191-203 | the merged run's header and footer offsets and its new tag: left over a free left neighbour, right over a free right neighbour |
| Layout.Release | Allocator.h:191-205 | freeing block k replaces the run from its free left neighbour to its free right neighbour by one free block, whose tag is at least the freed payload; the blocks outside the run are unchanged |
| Layout.ReleaseWellFormed | Allocator.h:185 | freeing a block in use keeps the invariant (no two free neighbours remain), and the merged free block spans exactly the bytes of the run it replaces |
| Layout.ReleaseLaid | Allocator.h:204-205 | writing the merged tag at the run's header and footer lays out the released list |
| Layout.CarveRelease | Allocator.h:195-205 | allocating from a block and then freeing that block restores the previous layout |
| Layout.ReleaseRetires | Allocator.h:186 | after a block is freed, its payload address no longer names a block in use, so a second free is refused |
| Layout.BlockAt | Allocator.h:191 | the block whose header is at a byte offset, or none when no header lies there |
| Layout.BlockAtStart | Allocator.h:191 | each block's header offset finds that block |
| Layout.BlockAtInside | Allocator.h:191 | no header lies strictly inside a block |
| Scenarios.Index | TestAllocator.c++:125-133 | my_allocator<int, 100> holds 92 at offset 0 |
| Scenarios.Coalesce | TestAllocator.c++:135-149 | 40 bytes of doubles: 32, then -8 after allocate(1) at payload 4, then 32 after freeing it |
| Scenarios.CoalesceBoth | TestAllocator.c++:151-169 | 100 bytes of doubles: -8 after two allocations, 8 after freeing the first, 92 after freeing both |
| Scenarios.TakeRest | TestAllocator.c++:171-175 | 1000 bytes of doubles: allocate(123) takes the whole block, -992 |
| Scenarios.BadBytes | TestAllocator.c++:177-185 | a 1-byte arena of doubles is bad_alloc |
| Scenarios.BadCount | TestAllocator.c++:187-204 | allocate(0) and allocate(-1) are bad_alloc and leave the arena unchanged |
| Scenarios.BadDealloc | TestAllocator.c++:206-217 | freeing an address inside a block in use is invalid_argument |
| Scenarios.DoubleFree | Allocator.h:186 | a second deallocate of the same payload address is invalid_argument |
| Findings.ScanStepLandsOnFooter | Allocator.h:134 | the written scan step reaches the block's own footer, never the next header |
| Findings.ScanMissesHeader | Allocator.h:134 | after allocate(1) in a 100-byte arena of doubles the written scan goes 0, 12, 24, and byte 24 is no header |
| Findings.FooterBeforeHeader | Allocator.h:192-193 | from a header of a block in use, the written footer is never after the header |
| Findings.FooterOutsideArena | Allocator.h:192-193 | freeing the first block of [-8, 16] puts the written footer at byte -28 |
| Findings.MergeStepsMiss | Allocator.h:196-200 | over a free neighbour the written merge steps never reach its far sentinel |
| Findings.MergeStepsLeaveArena | Allocator.h:196-200 | freeing the middle block of [8, -16, 52] steps to -24 and 252, not 0 and 96 |
| Findings.LastFooterPassesTest | Allocator.h:199 | the last block's footer is at N - 4, so the written test end != a + N passes there and the neighbour read is at byte N |
| Findings.LastBlockReadsPastArena | Allocator.h:199 | freeing the last block of [-8, -16] in 40 bytes reads byte 40; in the model it has no right neighbour and the result is [-8, 16] |
| Findings.NullMissesExactFit | Allocator.h:139-140 | the written null test misses exactly an exact fit and a non-positive tag |
| Findings.ExactFitOverruns | Allocator.h:139-148 | allocate(4) of doubles from 40 bytes writes its footer at byte 72; in the model no block fits |
| Findings.ValidAcceptsBrokenArena | Allocator.h:76-78 | an arena with no valid layout is accepted by valid() as written and rejected by the walk |

## Left out

- construct and destroy (Allocator.h:170-219): placement construction and destruction of a `T`. They do no arena bookkeeping.
- operator== and operator!= (Allocator.h:48-56): constant results.
- The defaulted copy constructor, destructor and assignment (Allocator.h:102-104).
- The ignored `size_type` second parameter of deallocate (Allocator.h:189).
- RunAllocator.c++: the driver's input parsing and printing are I/O around the allocator.
- Payload bytes, alignment and the `reinterpret_cast` between `char*`, `int*` and `T*`. Only the sentinel cells are modelled, and pointers are byte offsets into the arena.
- The `assert(valid())` calls at Allocator.h:100, 163 and 190. Their run-time checks become the proved postcondition and precondition `Valid()`.
- Allocator.MyAllocator.Allocate: `size_type` is unsigned in the source, so a negative count converts to a huge count whose product with `sizeof(T)` wraps. A large positive count wraps the same way: with 8-byte doubles, 2^61 gives size 0 at Allocator.h:125, which passes the test at 119, and the source then splits off a block tagged 0. The model takes a mathematical integer count and multiplies without wrap-around: it treats every count <= 0 as bad_alloc, and for a large count finds no fit and returns null.
- Allocator.MyAllocator.Allocate: the comparison `free_size - size < min_size` at Allocator.h:145 is unsigned in the source. The model compares integers. They agree whenever the block fits, because the scan only stops at a block larger than the request.
- Allocator.MyAllocator.constructor: the bad_alloc throw for N < min_size is modelled by `Create`, which checks before constructing. The constructor itself requires a large enough arena.
- Allocator.MyAllocator.Deallocate: the source promises O(1) time. The model's liveness check walks the headers from offset 0.
- The hard-coded 8 at Allocator.h:96 is two sentinels of `sizeof(int)` = 4, which is what the model uses.
- Allocator.Create: the model accepts any positive `sizeof(T)` and any N. The source steps int pointers with truncating divisions (`abs(*p)/sizeof(int)` at Allocator.h:134, `free_size/sizeof(int)` at 147 and 157, `size/sizeof(int)` at 152), so its byte positions agree with the model's only when `sizeof(T)` and N are multiples of 4. When N is not, the scan never meets the stop at Allocator.h:130. The model does not capture that truncation.
- Allocator.MyAllocator.constructor: the same truncation is left out. The model writes the last sentinel at N - 4 for every N, as Allocator.h:97 does, but only for N a multiple of 4 does that cell start on an int boundary of the arena.

## Findings

| source | as written | input that shows it | evidently intended | confidence | as-written member | corrected member |
|---|---|---|---|---|---|---|
| Allocator.h:134 | `p += abs(*p)/sizeof(int) + 1` moves abs(v) + 4 bytes, from a header to its own footer; the loop at line 130 stops at the last sentinel N - 4, which only this stride reaches | 100 bytes of doubles after allocate(1), blocks [-8, 76]: the next scan visits 0, 12, 24, and byte 24 is inside the second block | step abs(v) + 8 bytes to the next header and stop at N, one past the last footer | not executed; high | Findings.ScanMissesHeader | Allocator.MyAllocator.Scan |
| Allocator.h:192-193 | `end = front + *front + 1` and `size = *front` use the negative tag of a block in use | 40 bytes of doubles after allocate(1), deallocate(p = 4): end is byte -28 and size is -8 | footer at `front - *front + 4`, size `-*front` | not executed; high | Findings.FooterOutsideArena | Allocator.MyAllocator.MergeBounds |
| Allocator.h:196-200 | the merge steps `*(front - 1) + 2` and `*(end + 1) + 2` count ints, so they move `4v + 8` bytes | 100 bytes of doubles holding [8, -16, 52], freeing the middle block: steps to -24 and 252 | move `v + 8` bytes, to 0 and 96 | not executed; high | Findings.MergeStepsLeaveArena | Allocator.MyAllocator.MergeBounds |
| Allocator.h:199 | `end != reinterpret_cast<int*>(a + N)` compares a footer with the end of the arena; a footer is never there | 40 bytes of doubles, allocate(1) twice, then freeing the second block: its footer is at 36, the test passes and `*(end + 1)` reads byte 40 | read a right neighbour only when end + 4 != N | not executed; high | Findings.LastBlockReadsPastArena | Allocator.MyAllocator.MergeBounds |
| Allocator.h:139-140 | null is returned only for `0 < *p < size`, so an exact fit or an in-use last block falls through | 40 bytes of doubles, allocate(4): 32 free bytes, 32 asked; the whole-block case writes its footer at byte 72 | return null when no block is strictly larger than the request | not executed; high | Findings.ExactFitOverruns | Allocator.MyAllocator.Allocate |
| Allocator.h:76-78 | `valid()` returns `true` | an arena whose first sentinel is 0 | walk the sentinels and check the layout | not executed; high | Findings.ValidAcceptsBrokenArena | Allocator.MyAllocator.IsValid |
