# SimpleKernel core in Dafny

A verified model of the computational core of KernelKraze/SimpleKernel, a small
x86_64 hobby kernel written in C:

- **Kernel heap allocator** (`src/kernel/mm/mm.c`, module `KernelHeap` in
  `mm.dfy`). It is an intrusive, singly linked free list of `mem_block_t`
  headers `{size, next}` kept inside the managed region. `mm_init` seeds the
  list with one block. `kmalloc` walks the list first-fit. If the chosen block
  is larger than the request plus a header, it splits the block and the
  remainder takes its place on the list; otherwise it unlinks the whole block.
  It returns the address just past the header. `kfree` pushes the block's
  header back on the head of the list.
  - The class `Allocator` holds the global `free_list` as the chain of header
    addresses (`free`) and the `size` fields as a map (`hdr`).
  - Its methods `Kmalloc`, `Take` and `Kfree` are proved against the value-level
    functions `Malloc`, `FirstFit` and `Free`.
  - The class invariant says the headers tile the region handed to `mm_init`
    without gaps and the free chain has no repeats.
- **String routines** (`src/kernel/lib/string.c`, module `CString` in
  `string.dfy`): `strlen`, `strcpy` and `strcmp` over NUL-terminated byte
  arrays.
- **Software 64-bit division** (`udivdi3` in `src/kernel/time/time.c`,
  module `Udiv` in `time.dfy`): restoring binary long division, proved equal
  to `n / d`. For `d == 0` the result is proved to be all ones.
- **Console output** (`src/kernel/printk.c`, module `Printk` in
  `printk.dfy`), in three parts:
  - the hex encoder `itoh`, with a round trip back through base 16;
  - the format loop of `vprintk`, which writes into its 1024-byte local buffer;
  - the loop that copies the buffer to text-mode video memory while moving
    `cursor_pos`, in the class `Console`.

`bits.dfy` (module `Bits`) holds the shared arithmetic: powers of two and the
uniqueness of Euclidean division. Shifts and masks on unsigned words are
written with it as `/`, `%` and `*` on naturals, and the wrap-around of
`uint64_t` and `unsigned int` is written out explicitly.

`mm.c` does no size rounding or alignment, never merges adjacent free blocks
and does no bounds check in `kfree`; the model does none of these either:
- `Malloc` uses the requested size as given;
- `Free` only pushes onto the head of the list;
- `Kfree` requires from its caller what the C code leaves unchecked.

## Model

| member | source | states |
|---|---|---|
| KernelHeap.InitHeap | include/kernel/mm.h:26 | `mm_init(start, total)` leaves one free block at `start` with size `total - H`; that single header tiles `[start, start + total)` and the chain has no repeats; requires a non-NULL `start`, since `kmalloc`'s `while (current)` treats a header at address 0 as the end of the chain |
| KernelHeap.Allocator.Init | src/kernel/mm/mm.c:11-16 | the allocator starts in state `InitHeap(start, total)` with its invariant established over the region; requires a non-NULL `start` and `total >= H`, since the `size_t` subtraction would wrap otherwise |
| KernelHeap.InitServes | src/kernel/mm/mm.c:11-25 | after init of a region at a non-NULL `start`, any request up to `total - H` is served by the block at the start of the region |
| KernelHeap.FirstFit | src/kernel/mm/mm.c:24-25 | the index chosen is the first on the chain whose size is at least `n`: every earlier block is too small, and the index is past the end only when no block fits |
| KernelHeap.Malloc | src/kernel/mm/mm.c:19-58 | the result is NULL exactly when no free block has `size >= n`, and then nothing changes; otherwise it is the first-fit block's address plus H, the block records at least `n` bytes, and it is no longer on the chain |
| KernelHeap.ChainNotNull | src/kernel/mm/mm.c:24 | no header on the chain is at address 0, so `while (current)` walks the whole chain |
| KernelHeap.SplitHdr | src/kernel/mm/mm.c:29-32 | the split adds exactly one header, at `a + H + n`; the block at a keeps `n` bytes, and its `n`, the new header and the remainder's size add up to the old size; every other header keeps its size |
| KernelHeap.MallocKeepsInv | src/kernel/mm/mm.c:27-47 | allocation preserves the invariant: the headers still tile the region and the chain still has no repeats |
| KernelHeap.SplitKeepsInv | src/kernel/mm/mm.c:27-39 | splitting any free block larger than `n + H` keeps the invariant: the halves tile the region and the remainder, a new header, leaves the chain without repeats |
| KernelHeap.SplitTiles | src/kernel/mm/mm.c:29-32 | splitting a tile into `n` bytes plus a remainder header at `a + H + n` gives a tiling of the same region, and that address was not a header before |
| KernelHeap.MallocSplit | src/kernel/mm/mm.c:27-39 | when `size > n + H` the returned block gets exactly `n`, the remainder has `size - n - H > 0` bytes, the two exactly cover the old block's span, the remainder takes the block's place on the chain, and every other chain entry and header is unchanged |
| KernelHeap.MallocSplitMembers | src/kernel/mm/mm.c:35-39 | after a split the free blocks are the old ones minus the chosen block plus the remainder |
| KernelHeap.MallocWhole | src/kernel/mm/mm.c:40-47 | without a split the block leaves the chain whole with a size between `n` and `n + H`; the headers are unchanged, the rest of the chain keeps its order, and exactly that block leaves the free set |
| KernelHeap.MallocInRegion | src/kernel/mm/mm.c:49 | the returned pointer and the payload recorded for it lie inside the region given to `mm_init` |
| KernelHeap.Allocator.Kmalloc | src/kernel/mm/mm.c:19-58 | the walk over `current`/`previous` leaves the state and returns the pointer that `Malloc` specifies, and keeps the invariant |
| KernelHeap.Allocator.Take | src/kernel/mm/mm.c:25-49 | the in-place split or unlink of the first fitting block at index k leaves exactly the state and returns exactly the pointer that `Malloc` specifies |
| KernelHeap.Free | src/kernel/mm/mm.c:61-69 | `kfree(NULL)` changes nothing; otherwise the header at `p - H` heads the chain, followed by the old chain, and every header keeps its size |
| KernelHeap.Allocator.Kfree | src/kernel/mm/mm.c:61-69 | the in-place push matches `Free` and keeps the invariant, given a pointer that was handed out and is not already free |
| KernelHeap.FreeKeepsInv | src/kernel/mm/mm.c:66-68 | pushing a block that is not already free keeps the chain free of repeats and the tiling intact |
| KernelHeap.MallocFreeRoundTrip | src/kernel/mm/mm.c:20-68 | after `p = kmalloc(n); kfree(p)`, a request no larger than p's recorded size returns p again |
| KernelHeap.TilesFootprint | include/kernel/mm.h:15-18 | the headers and payloads of a tiling add up to exactly the region's length |
| KernelHeap.InitAsWritten | src/kernel/mm/mm.c:11-16 | for the value t its single parameter receives, the one-argument body leaves one free block at address t whose payload ends at `2t` |
| KernelHeap.InitAsWrittenMisplaced | src/kernel/mm/mm.c:13-14 | unless the region's start equals its size, no value t gives the declared initial state; for t = start the block has size `start - H` instead of `total - H`, and for t = total it does not lie inside the region |
| CString.Len | src/kernel/lib/string.c:22-28 | the length of a C string is the index of its first NUL |
| CString.Strlen | src/kernel/lib/string.c:22-28 | `strlen` returns the index of the first NUL: that byte is NUL and every byte before it is not |
| CString.Strcpy | src/kernel/lib/string.c:10-12 | `dest` receives exactly the `Len(src) + 1` bytes of the string and its terminator; every byte beyond them keeps its old value |
| CString.StopAt | src/kernel/lib/string.c:15-18 | the comparison stops at the first index where the strings differ or the first one ends, and everything before it agrees |
| CString.Strcmp | src/kernel/lib/string.c:14-20 | `strcmp` returns the difference of the unsigned bytes at the stop point, and it is 0 exactly when the strings agree up to and including the first NUL |
| CString.Compare | src/kernel/lib/string.c:14-20 | the difference of the two unsigned bytes at the stop point, so it lies between -255 and 255 |
| CString.CompareZeroIff | src/kernel/lib/string.c:14-20 | the comparison is 0 exactly when both strings are equal through their terminators, in both directions |
| CString.CompareAntisymmetric | src/kernel/lib/string.c:14-20 | `strcmp(a, b) == -strcmp(b, a)` |
| CString.CompareReflexive | src/kernel/lib/string.c:14-20 | `strcmp(s, s) == 0` |
| Udiv.Udivdi3 | src/kernel/time/time.c:19-29 | for `d > 0` the result is `n / d`; for `d == 0` it is `2^64 - 1`. The loop invariant keeps the quotient of the bits above i in its place and the remainder at `(n >> (i+1)) % d` |
| Udiv.ShiftLeft1 | src/kernel/time/time.c:22 | `x << 1` on `uint64_t` is `2x` when bit 63 is clear and `2x - 2^64` when it is set |
| Udiv.BitAt | src/kernel/time/time.c:22 | `(n >> i) & 1` is 0 or 1 |
| Udiv.OrLow | src/kernel/time/time.c:22 | or-ing a bit b into bit 0 leaves every higher bit alone; bit 0 becomes 1 when b is 1 and keeps its value when b is 0 |
| Udiv.OrBit | src/kernel/time/time.c:25 | `x \| (1 << i)` has bit i set, and its bits below i and above i are those of x |
| Udiv.SetClearBit | src/kernel/time/time.c:25 | adding `2^i` to a number whose bit i is clear sets that bit and leaves the bits below and above it unchanged |
| Udiv.UdivStep | src/kernel/time/time.c:21-26 | one iteration for bit i takes the loop invariant at i + 1 to the invariant at i, and the shifted remainder and the quotient stay below 2^64 |
| Udiv.ShiftInBit | src/kernel/time/time.c:22 | `(r << 1) \| bit i` is exactly `2r + bit i` and the bits of n from i up fit in `64 - i` bits |
| Udiv.StepDivides | src/kernel/time/time.c:23-26 | for `d > 0`, after the test and subtraction the quotient holds `(n >> i) / d` in place, the remainder is `(n >> i) % d`, and the quotient stays below 2^64 |
| Udiv.HalfStep | src/kernel/time/time.c:22 | `n >> i` is twice `n >> (i+1)` plus bit i |
| Udiv.NoBitDropped | src/kernel/time/time.c:22 | while `r < 2^(63-i)`, `r << 1` on `uint64_t` loses no bit and leaves bit 0 clear for the or |
| Udiv.DivStep | src/kernel/time/time.c:22-26 | one restoring step: from `m / d` and `m % d`, appending bit b and subtracting d once when the remainder reaches d gives `(2m + b) / d` and `(2m + b) % d` |
| Udiv.QuotientBitClear | src/kernel/time/time.c:25 | bit i of the quotient is still clear when it is set, so `q \|= 1 << i` adds exactly `2^i` |
| Udiv.AllOnesAbove | src/kernel/time/time.c:23-26 | with d == 0, setting bit i below all-ones-above-i gives all ones above i - 1 |
| Printk.Nibble | src/kernel/printk.c:22-23 | the value `num & 0xF` takes after k shifts by 4 is below 16, so it indexes the 16 digits |
| Printk.Hex8 | src/kernel/printk.c:19-24 | the eight digits are exactly eight characters, each one of `0123456789ABCDEF` |
| Printk.Itoh | src/kernel/printk.c:18-26 | `buffer[0..7]` holds the hex digit of nibble `7 - i`, `buffer[8]` is NUL, and nothing past index 8 is written |
| Printk.NextNibble | src/kernel/printk.c:23 | shifting right by 4 once more moves to the next nibble |
| Printk.DigitOfNibble | src/kernel/printk.c:19 | reading back the digit written for a nibble gives the nibble |
| Printk.ParseDigitStep | src/kernel/printk.c:22-23 | appending the digit of `x & 0xF` to the digits of `x >> 4` gives the digits of x |
| Printk.ParseDigitsPrefix | src/kernel/printk.c:21-24 | for any eight digits whose i-th is nibble `7 - i` of num, the first k read in base 16 give `num >> 4(8 - k)` |
| Printk.ParseHexPrefix | src/kernel/printk.c:21-24 | the first k digits of `itoh`'s output read in base 16 give `num >> 4(8 - k)` |
| Printk.ParseHexRoundTrip | src/kernel/printk.c:18-26 | the eight digits read back in base 16 give `num` |
| Printk.Expand | src/kernel/printk.c:35-72 | the text the format loop appends, with one argument text per conversion; it holds no NUL when the argument texts hold none, so the display loop, which stops at the first NUL, prints all of it |
| Printk.ExpandStep | src/kernel/printk.c:35-72 | one step of the format loop: a plain character is copied, `%%` gives `%`, an unknown `%c` gives `%` then `c`, and a conversion gives the next argument's text |
| Printk.ExpandLiteral | src/kernel/printk.c:69-71 | a format without `%` is copied unchanged up to its NUL |
| Printk.NextItem | src/kernel/printk.c:36-72 | one pass of the format loop moves `fmt_ptr` by 1 or 2 and consumes at most one argument, and the text it appends followed by the expansion of the rest is the expansion from the old position |
| Printk.CopyText | src/kernel/printk.c:41 | an argument's text is written at the buffer position, after the text already there |
| Printk.Render | src/kernel/printk.c:30-74 | the buffer up to and including `buf_ptr` holds exactly the expansion of the format followed by its NUL terminator |
| Printk.NewLine | src/kernel/printk.c:81 | the new cursor is even; unless the `unsigned int` product wraps, it is a row start strictly beyond the old position and at most one row further |
| Printk.Put | src/kernel/printk.c:78-93 | a newline only moves the cursor; any other character is stored at the cursor with attribute 0x07 after it, nothing else in video memory changes, and the cursor advances by 2 or wraps to 0, staying below 4000 |
| Printk.Display | src/kernel/printk.c:77-94 | the display loop run over a text, one character at a time; video memory only gains offsets, none is removed |
| Printk.DisplayKeepsEven | src/kernel/printk.c:14-92 | an even `cursor_pos` stays even through any text |
| Printk.LastRowNewLine | src/kernel/printk.c:78-93 | on the last row a newline sets the cursor to 4000, one past the screen, and the next character is written at offsets 4000 and 4001 before the cursor wraps to 0 |
| Printk.Console.PutChar | src/kernel/printk.c:78-93 | one pass of the display loop changes the cursor and video memory exactly as `Put` says, and keeps the cursor even |
| Printk.Console.constructor | src/kernel/printk.c:14 | `cursor_pos` starts at 0 |
| Printk.Console.Vprintk | src/kernel/printk.c:30-95 | the display loop stops at the buffer's first NUL, which is its terminator, so the screen after `vprintk` is the old screen with the whole expanded text displayed character by character; the cursor stays even |

## Left out

- `KernelHeap.Allocator.Kmalloc`: sizes are unbounded naturals, so the `size_t` overflow of `size + sizeof(mem_block_t)` at mm.c:27 is not modelled; inside a region below 2^64 no block is large enough to reach it.
- `KernelHeap.Allocator.Take`: the `next = NULL` written into the handed-out header is not modelled, because the chain is kept as a sequence and a handed-out header's `next` is never read.
- `KernelHeap.Allocator.Kfree`: requires a pointer that was handed out and is not already free. The C code checks neither; a double free makes the list cyclic, and a foreign pointer corrupts memory.
- Memory contents other than the headers' `size` fields are not modelled.
- `CString.Strcpy`: requires `dest` and `src` to be different arrays with room for the copy. Overlapping buffers and overruns, which C leaves undefined, are not modelled.
- `Printk.Render`: the `%d`, `%x`, `%p` and `%s` conversions delegate to `snprintf`, which is not part of this model. Their output is a parameter `pieces`, one text per conversion.
- `Printk.Render`: requires the output to fit in the 1024-byte buffer and the format not to end in a lone `%`. The C code checks neither and would write or read out of bounds.
- `printk`, which prefixes the level with `snprintf`, is not modelled; it only calls `snprintf` and `vprintk`.
- `Printk.Console`: video memory at 0xb8000 is a map from byte offset to the byte written, not physical memory.
- `rdtsc`, `init_time` and `delay` in time.c are not modelled: they are inline assembly, port I/O and busy waiting on hardware time.
- The UEFI loader (src/boot/efi/boot.c) and the entry sequence (src/kernel/kernel.c) are not modelled: they are firmware calls, port I/O and plumbing.
- Concurrency is not modelled; the kernel runs the allocator and console single-threaded.

## Findings

| source | as written | input that shows it | evidently intended | confidence | as-written member | corrected member |
|---|---|---|---|---|---|---|
| src/kernel/mm/mm.c:11-16 | `mm_init(size_t total_memory)` takes one argument and uses it as both the address of the first header and its size. The declaration in include/kernel/mm.h:26 and the call at src/kernel/kernel.c:88 use `(start_address, total_memory)`. | for the value T the single parameter receives, the header lands at T with size T − H. mm.c:5 includes mm.h, whose prototype (mm.h:26) conflicts, so mm.c does not compile as given; without it, kernel.c:88 would pass `start`: right address, size `start − H`, not `total − H` | one free block at `start_address` with size `total_memory - sizeof(mem_block_t)`, tiling the region | not executed | KernelHeap.InitAsWrittenMisplaced | KernelHeap.InitHeap |
