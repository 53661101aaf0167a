# Bitmask-sparse decompression, and the small containers beside it

This project is a Dafny model of a set of AVX-512 experiments. Its core is
**bitmask-sparse decompression**. A dense weight matrix is stored as:

- one 64-bit mask word per 64-byte row;
- a packed stream holding only the bytes the set bits select.

Decompression walks the rows in blocks of 64 (4096 bytes per block). For
each row it scatters the next `popcount(mask)` packed bytes into the selected
lanes, writes zeros everywhere else, and advances the stream cursor by the
popcount.

The repository has four implementations of this operation, and the model
covers all of them:

- **Two scalar C++ kernels and two intrinsic kernels**
  (`decompress_scalar_nounroll`, `decompress_scalar`,
  `decompress_avx512_nounroll`, `decompress_avx512`). After every block they
  round the absolute cursor address up to the next multiple of 64.
- **The exp5 JIT generator** (`jit_decompress_kernel_t::generate`). It emits
  unmasked 64-byte loads, then `popcnt`, `vpexpandb` and stores, four rows
  per unrolled group, and ends each block with a six-instruction cursor
  fix-up.
- **The exp7 JIT generator** (`SparseDecompressKernel::generate_code`). It
  builds a "lowest `P` bits" load mask per row (`get_load_mask`), performs a
  zero-masked load of exactly the packed bytes, and expands them. It never
  realigns the cursor.
- **The benchmark's stream generator** (the data set-up in `main` of
  `jit_decomp_c.cpp`), which lays out the packed stream that the kernels read.

Beside that core the model covers:

- the static work `splitter` of the parallel-for experiment;
- the bump-pointer `Arena`, and its variant that records destructors;
- the header-node `LinkList`;
- the C `DynamicArray` with `push_back`;
- the dismissable `ScopeGuard`.

## How the model is organised

| module | what it holds |
|---|---|
| `Bits`, `Expansion` | Mask bits, ranks, popcount, and the `LowMask(p)` word. Expansion is defined by rank and also as the processor manual's counter walk. `Compress` is its inverse. |
| `Reference` | The meaning of a run: `Decompress` and `FinalCursor` with 64-byte realignment between blocks, and `PackedDecompress` / `PackedFinal` without it. |
| `Alignment` | The realignment rule, both on unbounded addresses and on a 64-bit register (the JIT fix-up). |
| `ScalarKernels` | The four C++ kernels as methods with loops, each proved equal to `Reference`. |
| `RowIr` | The per-row operations both generators emit, and an interpreter for them that faults (`None`) on an out-of-range access. |
| `Jit5`, `Sparse7` | The operation lists each generator emits for `n` blocks, and the proof that running them computes the reference. |
| `LoadMask` | The exp7 load-mask instruction sequence, on 64-bit registers with the processor's shift-count masking. |
| `X86`, `Frames` | The push/pop and `kmovq` frames the generators emit around the kernel body, and the proof that they restore every saved register. |
| `StreamGen` | When a packed stream decodes to the intended rows: the generator as written and as corrected. |
| `Progress`, `Seqs`, `Wrappers` | Loop-progress predicates, sequence lemmas, and `Option`/`Result`. |
| `Scenarios` | The repository's three test drivers, as facts about the reference. |
| `Splitter`, `Arena`, `AutoRelease`, `LinkList`, `DynArray`, `ScopeGuard` | The secondary components. |

A few modelling choices cut across modules:

- **Addresses and sizes are unbounded naturals.** The stream's byte at
  address `a` is `mem[a - base]`. Where the source computes on a 64-bit
  register, the model does so too: mask words, the cursor fix-up, and the
  load-mask shifts are all `bv64` with the hardware's wrap-around and
  count masking.
- **Allocator outcomes are parameters.** What `malloc` and `realloc` return
  is an argument (success or failure, or the address). Destructor and
  callback runs are returned as event logs.
- **Duplicate kernels share members.** `asm/exp5/test_decomp.cpp:10-80`
  repeats `decompress_scalar_nounroll` and `decompress_avx512_nounroll`
  word for word. `ScalarKernels.ScalarNoUnroll` and
  `ScalarKernels.IntrinsicNoUnroll` model both copies.

## Model

| member | source | states |
|---|---|---|
| Bits.RankStrictlyIncreasing | asm/exp5/jit_decomp_c.cpp:37-43 | Two selected lanes read distinct packed bytes, in lane order: the lower lane has the smaller rank. |
| Bits.RankOnto | asm/exp5/jit_decomp_c.cpp:37-43 | Every packed byte index below the row's popcount is read by some selected lane. With `RankStrictlyIncreasing`, exactly one lane reads each byte. |
| Bits.LowMaskShape | asm/exp7/decompress_sparse.cpp:100-113 | `2^p - 1` has exactly lanes `0 .. p-1` set and popcount `p`. It is 0 at `p = 0` and all ones at `p = 64`. |
| Expansion.ExpandInstrIsExpand | asm/exp5/jit_decomp_c.cpp:36-44 | The counter walk (the scalar inner loop, and the zeroing `vpexpandb` / `maskz_expandloadu`) equals the rank-based definition: lane `i` gets packed byte `rank(i)` if selected, else 0. |
| Expansion.ExpandReadsOnlyPopcount | asm/exp5/jit_decomp.cpp:116-130 | A row depends only on the first `popcount` packed bytes. What a full 64-byte load reads past them does not affect the result. |
| Expansion.ExpandZeroMask | asm/exp7/decompress_sparse.cpp:258 | A zero mask writes 64 zeros and consumes nothing. |
| Expansion.ExpandAllOnes | asm/exp7/decompress_sparse.cpp:259 | An all-ones mask copies 64 packed bytes verbatim. |
| Expansion.ExpandCompress | asm/exp5/jit_decomp_c.cpp:280-298 | Dense to packed to dense: expanding the compressed row gives back the selected lanes, with zeros elsewhere. |
| Expansion.CompressExpand | asm/exp5/jit_decomp_c.cpp:280-298 | Packed to dense to packed: compressing an expanded row gives back exactly the packed bytes. |
| Alignment.AlignUp | asm/exp5/jit_decomp_c.cpp:47-52 | The realigned cursor is a multiple of 64 and lies in `[c, c + 64)`. |
| Alignment.AlignUpLeast | asm/exp5/jit_decomp_c.cpp:47-52 | It is the least multiple of 64 that is at least `c`, and an aligned cursor stays put. |
| Alignment.ScalarPadIsNegMod | asm/exp5/jit_decomp_c.cpp:48-52 | The scalar skip `64 - (addr & 63)` (none when aligned) is `(-addr) mod 64`. |
| Alignment.FixupMatchesScalar | asm/exp5/jit_decomp.cpp:148-155 | For every 64-bit value, `not; and 0x3f; add 1; and 0x3f` equals `(-x) & 63` and the scalar rule, and it is 0 exactly on aligned values. |
| Alignment.FixupIgnoresHighBits | asm/exp5/jit_decomp.cpp:148-155 | Both rules depend only on the low six address bits. |
| Alignment.JitPadIsScalarPad | asm/exp5/jit_decomp.cpp:148-155 | For every unbounded address, the generated fix-up moves the cursor exactly as the scalar kernels do. |
| Reference.DecompressLayout | asm/exp5/jit_decomp_c.cpp:26-53 | Output byte `4096*b + 64*r + i` is the stream byte at row `64*b + r`'s cursor plus the rank of lane `i` when bit `i` is set, and 0 otherwise. |
| Reference.ZeroBlocks | asm/exp5/jit_decomp_c.cpp:26 | A run of zero blocks writes nothing and leaves the cursor at the base. |
| Reference.BlockStartAligned | asm/exp5/jit_decomp_c.cpp:47-52 | Every block after the first starts on a 64-byte boundary, whatever the base. |
| Reference.PackedIsAligned | asm/exp7/decompress_sparse.cpp:185-211 | With a 64-aligned base and each block's popcounts summing to a multiple of 64, the realigning and non-realigning cursors coincide at every row. |
| Reference.PackedRowsIsRows | asm/exp7/decompress_sparse.cpp:185-211 | Where the two cursors coincide, the two reference outputs coincide. |
| ScalarKernels.ScalarRow | asm/exp5/jit_decomp_c.cpp:34-44 | The lane loop writes exactly the row's 64 bytes with the expansion, leaves every other byte unchanged, and counts the popcount. |
| ScalarKernels.IntrinsicRow | asm/exp5/jit_decomp_c.cpp:158-165 | The expand-load, store and popcount advance write the same 64 bytes and move the cursor by the popcount. |
| ScalarKernels.Realign | asm/exp5/jit_decomp_c.cpp:48-52 | After a block the cursor is the unique multiple of 64 in `[cur, cur + 64)`: it is unchanged when already aligned and never moves 64 bytes or more. |
| ScalarKernels.ScalarNoUnroll | asm/exp5/jit_decomp_c.cpp:18-54 | Whatever the output buffer held, it ends up as the reference decompression, and the cursor ends at the reference's final cursor. |
| ScalarKernels.ScalarUnrolled | asm/exp5/jit_decomp_c.cpp:60-135 | The same, for the four-times unrolled scalar kernel. |
| ScalarKernels.IntrinsicNoUnroll | asm/exp5/jit_decomp_c.cpp:142-175 | The same, for the intrinsic kernel. |
| ScalarKernels.IntrinsicUnrolled | asm/exp5/jit_decomp_c.cpp:182-231 | The same, for the four-times unrolled intrinsic kernel. |
| RowIr.MaskByteOffset | asm/exp5/jit_decomp.cpp:96-101 | The byte offset `r*8 + (b*4096)/8` is word-aligned and addresses mask word `64*b + r`. |
| Jit5.MaskPhaseStep | asm/exp5/jit_decomp.cpp:99-114 | The four mask loads and `kmovq`s put row `cl + u`'s mask word into slot `u`'s temporary and opmask, and touch nothing else. |
| Jit5.LoadIsWindow | asm/exp5/jit_decomp.cpp:116-130 | A full load at a row's cursor holds the 64-byte window there, and `popcnt` / `add` move the cursor by the mask's popcount. |
| Jit5.WindowRowIsExpand | asm/exp5/jit_decomp.cpp:132-145 | Expanding the 64-byte window under the row mask gives the row of the reference. |
| Jit5.StoredRow | asm/exp5/jit_decomp.cpp:132-145 | The vector each group stores is the reference row of its slot. |
| Jit5.Gen5Correct | asm/exp5/jit_decomp.cpp:74-172 | When the stream has 64 bytes of slack after every row's cursor, the emitted kernel runs without a fault, leaves the reference decompression in the destination, and leaves the cursor at the reference's final cursor. |
| Jit5.Gen5NeedsSlack | asm/exp5/jit_decomp.cpp:116 | With a stream shorter than 64 bytes, the first unmasked load already faults, so the slack requirement is not an artefact of the proof. |
| Sparse7.BlockCount | asm/exp7/decompress_sparse.cpp:32-34 | `K_blk * 64 / 4096` is the number of whole 4096-byte blocks in `K_blk` rows. |
| Sparse7.TestBlockCount | asm/exp7/decompress_sparse.cpp:236-237 | The block size is 4096, and the driver's `K_blk = 128` gives two blocks. |
| Sparse7.RegisterTables | asm/exp7/decompress_sparse.cpp:79-157 | The slots' vector registers, opmasks and mask temporaries are pairwise distinct. No slot uses `k0`, and no temporary clashes with the pointer or load-mask registers. |
| Sparse7.ClobberedAreSaved | asm/exp7/decompress_sparse.cpp:166-176 | Every general register the kernel writes is among the ten it saves. |
| Sparse7.MaskedRowIsExpand | asm/exp7/decompress_sparse.cpp:198-205 | A masked load under the lowest-`P`-bits mask, followed by a zeroing expand under the row mask, gives the row of the reference. |
| Sparse7.Row7Effect | asm/exp7/decompress_sparse.cpp:192-208 | One emitted row runs without a fault when its `P` packed bytes are in the buffer. It moves the cursor by `P` and writes exactly that row's 64 destination bytes. |
| Sparse7.Gen7Correct | asm/exp7/decompress_sparse.cpp:162-226 | When the stream holds every row's packed bytes, the emitted kernel runs without a fault and computes the decompression without realignment. The cursor ends at the base plus all popcounts. |
| Sparse7.Gen7MatchesRealigning | asm/exp7/decompress_sparse.cpp:185-211 | With an aligned base and block popcounts that are multiples of 64, this kernel agrees with the realigning reference, and so with every other variant. |
| Sparse7.ShortMasksFault | asm/exp7/decompress_sparse.cpp:185-195 | A mask array that does not reach word `64 * (nblks - 1)` makes the kernel fault, whatever the stream holds. |
| Sparse7.DriverMasksTooShort | asm/exp7/decompress_sparse.cpp:236-265 | The driver's kernel for `K_blk = 128`, run on its 64-word mask array, faults. |
| Sparse7.DriverMasksSized | asm/exp7/decompress_sparse.cpp:236-278 | With 128 mask words and a stream for 128 rows, the same kernel runs and fills both blocks. |
| LoadMask.LoadMaskConstruction | asm/exp7/decompress_sparse.cpp:116-140 | The emitted `mov/shr/shl/and/sub` sequence, starting with popcount `P` in `rcx`, leaves `2^P - 1` in `r11` with popcount `P`, and restores `rcx` to `P`. |
| LoadMask.LoadMaskIsLowMask | asm/exp7/decompress_sparse.cpp:100-113 | For every `P` in `[0, 64]` (both ends included) the result has exactly lanes `0 .. P-1` set. |
| LoadMask.ShiftCountsInRange | asm/exp7/decompress_sparse.cpp:120-132 | The three shift counts are `P/2`, `P/2` and `P mod 2`, all below 64, so the processor's count masking never changes them. |
| LoadMask.NaiveLoadMaskFailsAtFullWidth | asm/exp7/decompress_sparse.cpp:102-104 | A single `shl` by `P` is right for `P < 64` and yields 0 instead of all ones at `P = 64`. This is why the code splits the shift. |
| Frames.Jit5Code | asm/exp5/jit_decomp.cpp:78-169 | The prologue is exactly `push r12..r15`, then `kmovq rax, k1..k4; push rax`. The epilogue is the mirror image. |
| Frames.Sparse7Prologue | asm/exp7/decompress_sparse.cpp:167-176 | The prologue is exactly the ten pushes, in order. |
| Frames.Sparse7Epilogue | asm/exp7/decompress_sparse.cpp:214-223 | The epilogue is exactly the ten pops, in reverse order. |
| Frames.Jit5Restores | asm/exp5/jit_decomp.cpp:78-169 | For any body that leaves the stack as the prologue left it, `r12..r15` and `k1..k4` get back their values on entry, and the stack is balanced. |
| Frames.Sparse7Restores | asm/exp7/decompress_sparse.cpp:167-223 | The same, for the ten saved registers. |
| X86.SaveRestore | asm/exp7/decompress_sparse.cpp:167-223 | For any list of distinct saved registers, the generated save code followed by the restore code returns every one of them, whatever the body does. |
| StreamGen.LayoutDecodes | asm/exp5/jit_decomp_c.cpp:287-299 | A stream whose every payload sits at its row's cursor decompresses to the expected rows. |
| StreamGen.DecodedLane | asm/exp5/jit_decomp_c.cpp:287-299 | Conversely, if the stream decompresses to the expected rows, every selected lane's payload byte lies at the row's cursor plus its rank. |
| StreamGen.AlignedRoundTrip | asm/exp5/jit_decomp_c.cpp:268-316 | The generator padded by absolute address decodes to the expected rows at every base, has full-load slack, and ends the cursor at the end of the stream. |
| StreamGen.WrittenIsAligned | asm/exp5/jit_decomp_c.cpp:302-311 | On a 64-aligned base, padding the logical size gives the same stream. |
| StreamGen.WrittenRoundTrip | asm/exp5/jit_decomp_c.cpp:268-316 | So on a 64-aligned base the generator as written round-trips. |
| StreamGen.WrittenCursorMismatch | asm/exp5/jit_decomp_c.cpp:302-311 | On an unaligned base, when a block's payloads fill whole lines (as with the benchmark's `0xAAAA...` masks), the kernels start the next block `64 - base % 64` bytes past where the generator put it. |
| Scenarios.ScalarScenario | asm/exp5/test_decomp.cpp:84-147 | The scalar driver's data yields 10, 20 and 30 at bytes 0, 2 and 4, and zeros in the other 16381 bytes. The cursor ends at `AlignUp(base + 3)`. |
| Scenarios.JitScenario | asm/exp5/jit_decomp.cpp:193-246 | The JIT driver's data yields `0xA0 + row + p` in lane `8p` of each row and 0 elsewhere, with full-load slack. The cursor ends at `AlignUp(base + 512)`. |
| Scenarios.SparseScenario | asm/exp7/decompress_sparse.cpp:248-320 | The exp7 driver's rows 0-2 are `1..4`, `5..12` and all zeros, and the cursor has moved 77 bytes after five rows. |
| Scenarios.SparseScenarioLate | asm/exp7/decompress_sparse.cpp:248-320 | Rows 3 and 4 are `13..76`, and then 77 in lane 63 with zeros elsewhere. |
| Splitter.SplitTrivial | hpc/parallel_for/test_vec_add.cpp:27-29 | A team of at most one thread, or `n = 0`, gives `[0, n)`. |
| Splitter.ChunkSizes | hpc/parallel_for/test_vec_add.cpp:31-35 | Threads below `T1` take `ceil(n/team)` items and the others one fewer, so any two shares differ by at most one. |
| Splitter.Contiguous | hpc/parallel_for/test_vec_add.cpp:33-37 | Thread 0 starts at 0, and each thread ends where the next starts. |
| Splitter.LastEndsAtN | hpc/parallel_for/test_vec_add.cpp:31-37 | The last thread ends at `n`. |
| Splitter.Ordered | hpc/parallel_for/test_vec_add.cpp:31-37 | A later thread never starts before an earlier one ends. |
| Splitter.Partition | hpc/parallel_for/test_vec_add.cpp:25-38 | The ranges partition `[0, n)`: every index has exactly one owner, and no range leaves `[0, n)`. |
| Arena.AlignAddr | c++/arena_memory/main.cpp:69-73 | The rounded address is a multiple of the alignment and lies in `[p, p + a)`. |
| Arena.AlignAddrLeast | c++/arena_memory/main.cpp:69-73 | It is the least such multiple. |
| Arena.Allocate | c++/arena_memory/main.cpp:43-50 | Null leaves the arena unchanged. Success returns an aligned address at or past the cursor that fits in the block, and moves the cursor just past it. |
| Arena.AllocateFirstFit | c++/arena_memory/main.cpp:43-50 | If any aligned address at or past the cursor fits, allocation succeeds, and at the lowest such address. |
| Arena.AllocateValid | c++/arena_memory/main.cpp:43-50 | The cursor stays inside the block. |
| Arena.AllocationsDisjoint | c++/arena_memory/main.cpp:43-50 | Successive allocations do not overlap. |
| Arena.AllocateUsed | c++/arena_memory/main.cpp:43-67 | A successful allocation raises `used()` by at least its size and leaves `capacity()` alone. |
| Arena.Reset | c++/arena_memory/main.cpp:59-61 | After `reset`, `used()` is 0 and the block and capacity are kept. |
| Arena.ResetReclaims | c++/arena_memory/main.cpp:59-61 | After `reset`, any allocation that fits a fresh arena on the same block succeeds. |
| Arena.Create | c++/arena_memory/main.cpp:51-58 | `create` throws exactly when `allocate` returns null. Then the arena is unchanged; otherwise the object is at an aligned address. |
| Arena.New | c++/arena_memory/main.cpp:9-17 | The constructor throws exactly when `malloc` fails. Otherwise it yields an empty valid arena of the given capacity. |
| Arena.MoveConstruct | c++/arena_memory/main.cpp:23-30 | The new arena is valid with the same used bytes and capacity as the source. The moved-from arena is valid, empty and has capacity 0. |
| Arena.MoveAssign | c++/arena_memory/main.cpp:31-42 | Self-assignment leaves the arena as it was, with the same used bytes and capacity. Otherwise the target is valid with the source's used bytes and capacity, and the source becomes an empty, valid arena of capacity 0. |
| Arena.MovedIsEmpty | c++/arena_memory/main.cpp:23-30 | A moved-from arena is valid and empty, and every non-empty allocation from it fails. |
| AutoRelease.New | c++/arena_memory/auto_release.cpp:18-22 | The constructor throws exactly when `malloc` fails. Otherwise it yields a valid arena with no destructors recorded. |
| AutoRelease.CreateChain | c++/arena_memory/auto_release.cpp:44-79 | A trivially destructible type records nothing. Any other type pushes one node for the new object at the head. A failed creation leaves the chain alone. |
| AutoRelease.CreateNodeFailure | c++/arena_memory/auto_release.cpp:57-63 | When the object fits but its node does not, the object's destructor runs, `bad_alloc` is thrown, and the object's bytes stay allocated. |
| AutoRelease.CreateValid | c++/arena_memory/auto_release.cpp:44-79 | Creation keeps the cursor in the block, keeps every recorded object below the cursor, and keeps the chain newest first. |
| AutoRelease.Reset | c++/arena_memory/auto_release.cpp:81-94 | `reset` calls the recorded destructors in chain order, then empties the chain and rewinds the cursor. |
| AutoRelease.ResetRunsEachOnce | c++/arena_memory/auto_release.cpp:81-94 | Each recorded destructor runs once, in strictly decreasing object-address order (newest first). |
| AutoRelease.ResetIdempotent | c++/arena_memory/auto_release.cpp:81-94 | A second `reset` runs nothing and changes nothing. |
| AutoRelease.Destroy | c++/arena_memory/auto_release.cpp:24-27 | The destructor runs exactly the destructors `reset` runs. |
| LinkList.Empty | ds/include/LinkList.hpp:20-32 | A new list is valid and empty. |
| LinkList.PositionIsSpine | ds/include/LinkList.hpp:148-154 | `position(k)` reaches the `k`-th chain node (the header is the 0th). |
| LinkList.Append | ds/include/LinkList.hpp:34-41 | `insert(elem)` keeps the list valid and appends `elem`. |
| LinkList.SpliceValid | ds/include/LinkList.hpp:49-62 | Relinking a new node after node `idx - 1` keeps the chain acyclic and null-terminated, and places `elem` at position `idx`. |
| LinkList.InsertAtSpec | ds/include/LinkList.hpp:43-67 | As written, positional insert succeeds exactly for `1 <= idx <= length`, putting `elem` at `idx`. A failure changes nothing, and it always fails at `length + 1`. |
| LinkList.InsertAtIntended | ds/include/LinkList.hpp:43-67 | As intended, positional insert succeeds exactly for `1 <= idx <= length + 1`, with the same contents. |
| LinkList.InsertAtIntendedExtends | ds/include/LinkList.hpp:43-67 | The intended insert at `length + 1` is `insert(elem)`, and on the other positions it is the written insert. |
| LinkList.Remove | ds/include/LinkList.hpp:69-88 | `remove` succeeds exactly for `1 <= idx <= length`, dropping that element and keeping the list valid. A failure changes nothing. |
| LinkList.RemoveUndoesInsert | ds/include/LinkList.hpp:43-88 | Removing the position just inserted gives the old contents back. |
| LinkList.Set | ds/include/LinkList.hpp:90-97 | `set` succeeds exactly in range and replaces just that element. |
| LinkList.Get | ds/include/LinkList.hpp:99-106 | `get` succeeds exactly in range and returns the element at that position. |
| LinkList.GetAfterSet | ds/include/LinkList.hpp:90-106 | Reading a position just set gives the written value, and the other positions are unchanged. |
| LinkList.Clear | ds/include/LinkList.hpp:112-119 | `clear` unlinks every node after the header, leaving a valid empty list on the same header. |
| DynArray.Create | c++/dynamic_allocate/main.cpp:10-27 | Creation fails exactly when either `malloc` fails. Otherwise the array is empty and valid with the requested capacity. |
| DynArray.PushBackGrows | c++/dynamic_allocate/main.cpp:29-44 | With room, or with a successful `realloc` on positive capacity, `push_back` appends and keeps the array valid, doubling the capacity when full. |
| DynArray.FailedGrowBreaksInvariant | c++/dynamic_allocate/main.cpp:30-36 | A failed `realloc` keeps the elements but leaves the capacity doubled, so the array no longer matches its block. |
| DynArray.PushAfterFailedGrowFaults | c++/dynamic_allocate/main.cpp:29-44 | The next `push_back` then writes past the end of the block. |
| DynArray.ZeroCapacityFaults | c++/dynamic_allocate/main.cpp:29-44 | Initial capacity 0 stays 0 when doubled, so the first `push_back` writes past an empty block. |
| DynArray.PushBackFixed | c++/dynamic_allocate/main.cpp:29-44 | The corrected `push_back` commits the new capacity only after `realloc` succeeds and grows 0 to 1. It always keeps the array valid, and it appends exactly when it reports success. |
| DynArray.FixedAgreesWhenGrowthSucceeds | c++/dynamic_allocate/main.cpp:29-44 | Wherever the written `push_back` keeps its invariant, the corrected one gives the same array. |
| ScopeGuard.Make | idiom/guard/ScopeGuard2.hpp:8-9 | A new guard holds the callback, armed: destroyed untouched, it runs the callback exactly once. |
| ScopeGuard.Dismiss | idiom/guard/ScopeGuard2.hpp:23-26 | A dismissed guard keeps its callback but runs nothing when destroyed. |
| ScopeGuard.DismissIdempotent | idiom/guard/ScopeGuard2.hpp:23-26 | Dismissing twice is dismissing once, and a dismissed guard runs nothing. |
| ScopeGuard.Move | idiom/guard/ScopeGuard2.hpp:11-20 | The moved-from guard runs nothing. The new guard runs exactly what the source would have run, so the two together run the callback at most once, and only if the source was armed. |
| ScopeGuard.MakeGuard | idiom/guard/ScopeGuard2.hpp:38-40 | `MakeGuard(f)` runs `f` exactly once when destroyed. |

## Left out

- **Machine-code encoding and code buffers:** Xbyak's instruction encoding,
  the code buffer sizes, `ready()`, and the loading of kernel arguments from
  the parameter struct. The kernels start with the three pointers already
  in place.
- **CPU-feature check:** the `tAVX512F` check in the exp7 constructor. The
  model assumes AVX-512.
- **Benchmarks, printing and test bookkeeping:** timing, printing, and the
  buffer allocation and `memcmp` bookkeeping of the drivers.
  `Scenarios` states what each driver's check compares.
- **Exp7 driver rows 5-63:** the driver's remaining rows, with masks
  `0x5555...` and `0xAAAA...`, are not stated as scenarios. `Gen7Correct`
  covers every row.
- **Registers the frames do not restore:** the exp7 kernel overwrites
  `zmm25..zmm28` and `k1..k4` without saving them. The exp5 kernel
  overwrites `rax` (the opmask moves and `popcnt`), `rdx` (the alignment
  fix-up), `r8`-`r11` (its pointers) and `zmm0`-`zmm3`, and saves none of
  them. All of these are caller-saved, and none of the overwrites is
  modelled. `Frames`
  states exactly which registers each frame restores.
- **Unaligned mask loads:** the interpreter `RowIr.Step` treats a mask load
  whose byte offset is not a multiple of 8 as a fault. On x86, `mov r64, [reg+off]`
  reads an unaligned word without faulting. Both generators emit only
  multiples of 8 (`RowIr.MaskByteOffset`), so no emitted program reaches
  this case.
- **64-bit wrap-around of addresses and sizes:** addresses, sizes and counts
  are unbounded naturals. A run whose cursor would wrap past `2^64` is out
  of scope. Mask words and the fix-up arithmetic are 64-bit, as in the
  source.
- Arena.AlignAddr: rounds up to a multiple of `a` for any positive `a`. The
  source clears low bits, which agrees only for powers of two. That is
  every alignment `alignof` can produce, so other alignments are not
  modelled.
- **Freeing memory:** `free`, the destructors' effect on memory, and the
  contents of fresh `malloc` blocks (modelled as zeros, which the source
  never reads before writing).
- **Destructor and callback behaviour:** running a destructor or a scope
  guard's callback is recorded as an event, and what it does is not
  modelled.
- **`LinkList::dump`** (printing only), and the `List<T>` interface and its
  `utils.hpp` helper. Neither is part of this model. `length()` is the
  list's `length` field; `Values` has exactly that many elements.
- **ScopeGuard:** the printing in its destructor and in `Dismiss`, and the
  deleted copy operations.
- **The splitter's callers:** the threads that call `splitter` (OpenMP) and
  the vector addition they perform. The thread id and team size are
  parameters.
- **The rest of the repository** (other experiments, data structures and
  idioms) is not part of this model.

## Findings

| source | as written | input that shows it | evidently intended | confidence | as-written member | corrected member |
|---|---|---|---|---|---|---|
| ds/include/LinkList.hpp:43-67 | The guard is `0 < idx && idx < m_length + 1`, so the branch for `idx == m_length + 1` (append through `insert(elem)`) is dead, and appending by position is refused. | An empty list with `idx = 1`, or any list with `idx = length + 1`. | The guard `idx <= m_length + 1`, so the inner branch appends. | not executed; high (the dead branch shows the intent) | LinkList.InsertAtSpec | LinkList.InsertAtIntended |
| c++/dynamic_allocate/main.cpp:29-44 | `capacity *= 2` happens before `realloc`. When `realloc` fails the doubled capacity is kept, so the next `push_back` sees spare room and writes `data[size]` past the block. A capacity of 0 also doubles to 0. | A full array whose growth `realloc` fails, followed by another `push_back`; or `createDynamicArray(0)` followed by `push_back`. | Compute the new capacity (at least 1), and store it only after `realloc` succeeds. | not executed; high | DynArray.PushAfterFailedGrowFaults | DynArray.PushBackFixed |
| asm/exp5/jit_decomp_c.cpp:302-311 | The generator pads each block's stream to a multiple of 64 of its logical size, but the kernels (lines 47-52) round the absolute cursor address. The two agree only when the buffer starts 64-aligned. | The benchmark's `0xAAAA...` masks (2048 packed bytes per block, so no padding is written) with a `std::vector` buffer whose data starts 16-aligned. The kernels then skip 48 payload bytes before block 1. | Pad to bring `base + size` to a multiple of 64, or allocate the stream 64-aligned. | not executed; medium (depends on the allocator's alignment) | StreamGen.WrittenCursorMismatch | StreamGen.AlignedRoundTrip |
| asm/exp7/decompress_sparse.cpp:236-265 | The driver builds the kernel with `K_blk = 128`, which is two blocks, but fills only 64 mask words and a stream for 64 rows. The second block reads mask words 64-127 and stream bytes past both buffers. | `run_test` itself. | Mask and stream buffers for all `64 * nblks` rows (or `K_blk = 64` for one block). | not executed; medium (the out-of-range reads need not crash) | Sparse7.DriverMasksTooShort | Sparse7.DriverMasksSized |
