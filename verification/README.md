# t1 in Dafny

A Dafny model of the single-header C++ test library `t1` (`src/t1/t1.hpp`). The model covers the library's logic and leaves out its printing:

- **Rounding.** The two `uint64_t` helpers: `t1_ceil_multiple2` rounds up to a power-of-two multiple by masking. `t1_ceil_exp2` rounds up to a power of two by smearing the top bit.
- **Time.** `t1_get_timespec_difference` subtracts two timespecs with a borrow.
- **Growable array.** `t1_array` with `init`, `t1_add_elements`, both `t1_add_at_end` overloads and `free`. `realloc` is an oracle that may fail.
- **Ring buffer.** The Linux `t1_ring_buffer` `init` and `free` run against an operating-system oracle. One memfd is mapped `mapping_count` times back to back, so offset `a` of the region is byte `a mod size` of one store.
- **Temporary formatting.** The static format buffer (`_get_static_format_buffer`, `t1_tvprintf`, `t1_tprintf`) formats into a two-view ring buffer and advances a cursor.
- **File names.** `t1_get_filename` returns the file-name part of a path.

The modules, in dependency order:

| module | file | models |
|---|---|---|
| `Arith` | arith.dfy | division and modulus facts the other proofs use |
| `Bits` | bits.dfy | `&`, `\|`, `>>` on naturals, powers of two, bit length, ceiling log |
| `Word` | word.dfy | `u64`/`u32`/`u8` and wrapping `+`, `-`, `*`, unary `-` |
| `Options` | options.dfy | `Option` (a null pointer is `None`) |
| `Rounding` | rounding.dfy | `t1_ceil_multiple2`, `t1_ceil_exp2` |
| `Timespec` | timespec.dfy | `t1_get_timespec_difference` |
| `GrowArray` | growarray.dfy | `t1_array` |
| `Aliasing` | aliasing.dfy | one store seen through consecutive views |
| `RingBuffer` | ringbuffer.dfy | `t1_ring_buffer` `init` and `free` |
| `TempFormat` | tformat.dfy | `_get_static_format_buffer`, `t1_tvprintf`, `t1_tprintf` |
| `Filename` | filename.dfy | `t1_get_filename` |

How the model is built:

- **Words.** `uint64_t` is a natural below 2^64. Wrap-around is written out in `Word.Add`, `Word.Sub`, `Word.Mul` and `Word.Neg`. Bitwise `&` and `|` are defined bit by bit on naturals, and `>>` is halving.
- **Operating system.** System calls are inputs. For the ring buffer, an `Os` value gives each call's outcome. The address space is a map from view-sized chunks to a placeholder or a mapping of the memfd.
- **Formatting.** `vsnprintf`'s output is an input: the text it would produce, or `None` for an error.

Several behaviours of the code are not what a reader would expect. The model follows the code in each case:

- **Ring-buffer `init`.** When all ten attempts fail, it falls through to the success exit and returns true with the last reservation as the buffer.
- **Static format buffer.** `_get_static_format_buffer` trusts that `true`, so `t1_tvprintf` then stores through an unmapped view and faults.
- **Ring-buffer `free`.** When a `munmap` fails, it returns false and keeps the data pointer.
- **Format offset.** The offset is reduced with a strict `>`, so it ranges over 0..size rather than 0..size-1.
- **`t1_get_filename`.** A path without a `/` gives the empty string at the terminator, not the whole path. The backslash branch sits under the macro `Windows`, which is never defined, so `\` is an ordinary character.

## Model

| member | source | states |
|---|---|---|
| Rounding.CeilMultiple2ByZero | src/t1/t1.hpp:190-191 | a zero multiple returns x unchanged |
| Rounding.CeilMultiple2IsMask | src/t1/t1.hpp:193 | for multiple 2^k without wrap-around, the result is x + 2^k - 1 with the low k bits cleared, because -2^k is the mask of bits k..63 |
| Rounding.CeilMultiple2Rounds | src/t1/t1.hpp:186-194 | for multiple 2^k and no wrap-around in x + 2^k - 1, the result is a multiple of 2^k, is at least x, and is at most every multiple of 2^k that is at least x |
| Rounding.SmearFillsBelowTopBit | src/t1/t1.hpp:175-180 | the six `x \|= x >> s` steps turn a non-zero word of bit length L into 2^L - 1 |
| Rounding.CeilExp2IsNextPow2 | src/t1/t1.hpp:171-184 | for 1 <= x <= 2^63 the result is 2^ceil(log2 x), the least power of two at or above x |
| Rounding.CeilExp2OfPow2 | src/t1/t1.hpp:171-184 | every power of two up to 2^63 is returned unchanged |
| Rounding.CeilExp2Wraps | src/t1/t1.hpp:174-181 | 0 and every x above 2^63 wrap around to 0 |
| Timespec.Difference | src/t1/t1.hpp:138-152 | the result denotes end - start in nanoseconds; when both inputs have nanoseconds in [0, 1e9), so does the result |
| Timespec.DifferenceIsCanonical | src/t1/t1.hpp:138-152 | for canonical inputs the result equals the canonical (floor-division) form of the elapsed nanoseconds |
| Timespec.DifferenceSignFollowsOrder | src/t1/t1.hpp:138-152 | for canonical inputs the seconds field is negative exactly when end is before start, and the difference is zero exactly when start and end are equal |
| Timespec.NormalizedUnique | src/t1/t1.hpp:138-152 | two canonical timespecs that denote the same instant are equal |
| GrowArray.Init | src/t1/t1.hpp:390-396 | the new array is null, empty and unreserved, and satisfies the array invariant |
| GrowArray.Free | src/t1/t1.hpp:447-456 | after `free` the array is the same as after `init` |
| GrowArray.AddElements | src/t1/t1.hpp:398-431 | n = 0 returns null and changes nothing; a null result leaves the array unchanged; otherwise the slot is the old size and size grows by n (wrapping); elements already in use are kept |
| GrowArray.FastPathKeepsBlock | src/t1/t1.hpp:404-411 | with size + n strictly below reserved_size, the block is kept and size grows by n |
| GrowArray.ExactFitStillReallocates | src/t1/t1.hpp:406-418 | an array filled exactly to reserved_size still reallocates, so a failing realloc makes the call fail |
| GrowArray.GrowthIsNextPow2 | src/t1/t1.hpp:413-428 | on reallocation the reserved size becomes the least power of two at or above reserved_size + n |
| GrowArray.ReallocKeepsValid | src/t1/t1.hpp:413-430 | a successful reallocation keeps the invariant and every element in use, and adds exactly n slots |
| GrowArray.AddElementsKeepsValid | src/t1/t1.hpp:398-431 | without wrap-around, every call keeps size <= reserved_size, a power-of-two reservation and the block length, keeps the old elements, and adds n slots on success |
| GrowArray.AddAtEnd | src/t1/t1.hpp:433-437 | adding one element returns the old size as the slot and grows size by one, or returns null and changes nothing |
| GrowArray.AddAtEndValueAsWritten | src/t1/t1.hpp:439-445 | the store through the returned pointer is a store through null exactly when the add failed |
| GrowArray.AddAtEndValueWritesNull | src/t1/t1.hpp:442-443 | an empty array and a failing realloc reach the store through null |
| GrowArray.AddAtEndValue | src/t1/t1.hpp:439-445 | with a null check: a failure stores nothing; otherwise the elements become the old ones followed by the value, and the invariant holds |
| GrowArray.AddAtEndInBlock | src/t1/t1.hpp:433-445 | under the invariant, a successful add returns a slot inside the block |
| Aliasing.WriteRunContents | src/t1/t1.hpp:272-277 | after a run of at most size bytes is written at offset o, store byte k holds the byte of the run that reached it, or its old value |
| Aliasing.WriteRunReadBack | src/t1/t1.hpp:272-277 | a run of at most size bytes written at any offset reads back unchanged through the same offsets, even when it spills into the next view |
| Aliasing.RunSurvivesNextRun | src/t1/t1.hpp:517-524 | a run written right after d earlier bytes, with both runs fitting in one store, leaves those bytes unchanged |
| Aliasing.RewindSameByte | src/t1/t1.hpp:523-524 | stepping the offset back by whole views keeps the store byte it denotes |
| Aliasing.RewindClosedForm | src/t1/t1.hpp:523-524 | above size, the reduced offset is (x - 1) mod size + 1 |
| RingBuffer.Reserve | src/t1/t1.hpp:267 | the PROT_NONE reservation puts a placeholder at every view address and leaves the rest of the address space alone |
| RingBuffer.MapViews | src/t1/t1.hpp:272-290 | every view is mapped exactly when every fixed mapping succeeds, and then all of them map the memfd; a failure names the first view that failed, every earlier view having mapped; chunks at no mapped view address keep their occupant |
| RingBuffer.Unroll | src/t1/t1.hpp:282-284 | the unroll succeeds exactly when the munmap of every view j..i-1 does, and then none of those views remains; every other chunk stays; nothing is added or changed |
| RingBuffer.RetryAsWritten | src/t1/t1.hpp:259-300 | at most ten attempts; a false return leaves the data pointer null; a true return records the size and view count of a non-empty reservation, and either every view is mapped or all ten attempts were used |
| RingBuffer.RetryAsWrittenAttempt | src/t1/t1.hpp:266-289 | an attempt whose reservation is empty or fails returns false and leaves the address space alone; one in which every view maps returns true with that reservation and every view mapped; one whose unroll hits a failing munmap returns false; one whose views fail to map but whose unroll succeeds goes on to attempt retry + 1 with the unrolled space and the reservation as the pointer |
| RingBuffer.UnrollFailureStopsAttempt | src/t1/t1.hpp:272-289 | when a view fails to map and unmapping an earlier view fails, the attempt stops at its first failing view and the unroll reports the failure |
| RingBuffer.InitAsWritten | src/t1/t1.hpp:241-300 | memfd or ftruncate failure returns false with data null and nothing reserved; an empty or failed first reservation returns false; a first attempt in which every view maps returns true with all views mapped; a failing munmap in the first unroll returns false; a true return has a non-empty size ceil_multiple2(min_size, page size) and the given view count |
| RingBuffer.RetryExhaustedAsWritten | src/t1/t1.hpp:262-300 | when every fixed mapping fails, the loop runs out and returns true with the last reservation, whose first view is still a placeholder |
| RingBuffer.FailedAttemptAsWritten | src/t1/t1.hpp:272-293 | whenever a reservation succeeds and view 0 fails to map, the loop moves on to the next attempt with the whole reservation still in place |
| RingBuffer.InitAsWrittenSucceedsUnmapped | src/t1/t1.hpp:262-300 | `init` as written returns true for a buffer whose views are not mapped: the tenth reservation, whose first view is a placeholder |
| RingBuffer.UnrollLeavesPlaceholder | src/t1/t1.hpp:279-288 | when view i is the first that fails to map, the unroll leaves view i and every later view as placeholders in the address space, whether or not it succeeds |
| RingBuffer.ViewAddressIncreasing | src/t1/t1.hpp:272-273 | with non-empty views and no wrap-around in count * size, later views start at higher addresses |
| RingBuffer.Retry | src/t1/t1.hpp:262-294 | with a release on unroll and failure on exhaustion: success means every view maps the memfd and only view addresses changed; failure with working releases gives back a part of the old space |
| RingBuffer.RetryAttempt | src/t1/t1.hpp:266-289 | corrected loop: an empty or failed reservation returns false and leaves the space; an attempt in which every view maps returns true with that reservation; a failed release returns false; a map failure followed by a successful release goes on to attempt retry + 1 with the reservation released |
| RingBuffer.RetryFailsWhenMappingAlwaysFails | src/t1/t1.hpp:262-300 | corrected loop: when every fixed mapping fails, the loop returns false |
| RingBuffer.Init | src/t1/t1.hpp:241-300 | the corrected `init`: on success the buffer's views are all mapped with size ceil_multiple2(min_size, page size); on failure data is null; an empty or failed first reservation, or a failed release of a partly mapped first attempt, returns false; a first attempt in which every view maps returns true with that reservation |
| RingBuffer.InitFailsWhenMappingAlwaysFails | src/t1/t1.hpp:241-300 | the corrected `init` returns false when every fixed mapping fails |
| RingBuffer.InitSizeRoundsToPages | src/t1/t1.hpp:246-247 | with a power-of-two page size and no wrap-around, the view size is the least multiple of the page size that holds min_size bytes |
| RingBuffer.ReadByte | src/t1/t1.hpp:234-239 | a read through the region that does not fault returns store byte off mod size |
| RingBuffer.WriteByte | src/t1/t1.hpp:234-239 | a write faults exactly when a read at the same offset would; otherwise it updates store byte off mod size |
| RingBuffer.RegionReadsStore | src/t1/t1.hpp:272-277 | with every view mapped, every offset below count * size reads store byte off mod size |
| RingBuffer.ViewsAlias | src/t1/t1.hpp:272-277 | offset k of view i reads byte k of the store, for every view i |
| RingBuffer.WriteVisibleInEveryView | src/t1/t1.hpp:272-277 | a byte written through one view is read back through every other view |
| RingBuffer.UnmapViews | src/t1/t1.hpp:357-359 | the loop succeeds exactly when every munmap does, and then no view remains mapped |
| RingBuffer.Free | src/t1/t1.hpp:348-363 | a null handle or null data returns true and changes nothing; the result is true exactly when every munmap succeeds; on failure the handle keeps its data; on success data is null and no view remains |
| RingBuffer.FreeTwice | src/t1/t1.hpp:348-354 | after a successful `free`, a second `free` succeeds and changes nothing |
| RingBuffer.InitThenFreeLeavesNothing | src/t1/t1.hpp:348-363 | the corrected `init` followed by a fully successful `free` leaves only what the address space held before |
| TempFormat.Initial | src/t1/t1.hpp:478 | the zero-initialised static buffer has no data and satisfies the invariant |
| TempFormat.GetStaticFormatBuffer | src/t1/t1.hpp:476-494 | freeing always returns the buffer, resets the offset and only shrinks the address space; data is cleared exactly when every munmap succeeds; without freeing, a live buffer is returned as is, and a missing one is created by `init` as written, the buffer being returned exactly when `init` returns true, with two views of ceil_multiple2(16384, page size) zero bytes |
| TempFormat.GetStaticFormatBufferKeepsValid | src/t1/t1.hpp:476-494 | asking for the buffer keeps the invariant (both views mapped, offset in 0..size) unless the lazy `init` used all ten attempts, and always when the returned buffer's views are mapped; a fully successful free keeps it and leaves no buffer |
| TempFormat.TvprintfFaultsAfterExhaustedInit | src/t1/t1.hpp:476-517 | when every fixed mapping fails, the buffer is still returned, and the first store of `t1_tvprintf` through it faults |
| TempFormat.FormatAtFaultsOnPlaceholder | src/t1/t1.hpp:508-512 | a call at offset 0 whose first view is still a placeholder faults on its first store |
| TempFormat.CleanupThenReuse | src/t1/t1.hpp:476-499 | after the exit cleanup frees the buffer, asking again returns a buffer exactly when `init` does, zeroed and at offset 0, and satisfying the invariant unless `init` used all ten attempts |
| TempFormat.GetStaticFormatBufferIntended | src/t1/t1.hpp:476-494 | with the corrected `init`: agrees with the function as written except when creating a buffer, which it returns exactly when `init` succeeds, with both views mapped |
| TempFormat.GetStaticFormatBufferIntendedKeepsValid | src/t1/t1.hpp:476-494 | with the corrected `init`, asking for the buffer always keeps the invariant |
| TempFormat.WriteRegion | src/t1/t1.hpp:512-517 | a store through the views that does not fault writes the bytes at consecutive offsets modulo size |
| TempFormat.WriteRegionMapped | src/t1/t1.hpp:512-517 | with every view mapped, a store that ends inside the last view does not fault |
| TempFormat.ReduceOffset | src/t1/t1.hpp:523-524 | the loop computes the recursive rewind of the offset: the offset itself when at most size, otherwise (offset - 1) mod size + 1; the result lies in 0..size and denotes the same byte |
| TempFormat.Truncated | src/t1/t1.hpp:509-512 | with a limit n > 0, `vsnprintf` stores min(len, n - 1) bytes of the text and a terminator; with n = 0 it stores nothing |
| TempFormat.StoreFormattedInViews | src/t1/t1.hpp:512-517 | when the terminator lands inside the two views, the store holds `vsnprintf`'s output followed by a NUL at offset + bytes_written |
| TempFormat.StoreFormattedPastViews | src/t1/t1.hpp:517 | a text of 2 * size bytes at offset 0 stores the terminator past both views (a fault in the model) |
| TempFormat.FormatAt | src/t1/t1.hpp:508-526 | a call that returns gives the string at the old offset with bytes_written as its length, keeps the buffer and mappings, and leaves the offset in 0..size |
| TempFormat.FormatAtAdvances | src/t1/t1.hpp:521-524 | the new offset denotes the store byte just past the terminator |
| TempFormat.Tvprintf | src/t1/t1.hpp:501-527 | a buffer that `_get_static_format_buffer` (with `init` as written) fails to return, or a `vsnprintf` error, gives the null string; a non-null string has the text's full length |
| TempFormat.Tprintf | src/t1/t1.hpp:529-538 | formats as `t1_tvprintf`: errors give the null string, and a non-null string has the text's full length |
| TempFormat.StoreFormattedFits | src/t1/t1.hpp:509-517 | a text of at most size - 2 bytes is stored whole with its terminator |
| TempFormat.FormatAtFits | src/t1/t1.hpp:501-527 | a text of at most size - 2 bytes does not fault, keeps the invariant, and reads back as the text and a NUL from the old offset, even when it spills into the second view |
| TempFormat.TvprintfFits | src/t1/t1.hpp:501-527 | the same for the whole call, on a buffer it obtains with both views mapped |
| TempFormat.StoreFormattedOneOver | src/t1/t1.hpp:509-517 | for a text of size - 1 bytes, the bytes from the offset are the truncated output and its terminator |
| TempFormat.FormatAtReportsUntruncatedLength | src/t1/t1.hpp:512-519 | as written, a text of size - 1 bytes is returned with its full length, but its bytes are not the text |
| TempFormat.FormatAtTerminatorPastViews | src/t1/t1.hpp:517 | as written, a text of 2 * size bytes at offset 0 stores the terminator past both views (a fault in the model) |
| TempFormat.FormatAtIntended | src/t1/t1.hpp:501-527 | corrected call: the returned length is what `vsnprintf` kept, and the offset stays in 0..size |
| TempFormat.TvprintfIntended | src/t1/t1.hpp:501-527 | corrected call: errors give the null string; a string is never longer than the text |
| TempFormat.StoreIntendedInViews | src/t1/t1.hpp:512-517 | the corrected store never faults from an offset in 0..size |
| TempFormat.FormatAtIntendedStoresPrefix | src/t1/t1.hpp:501-527 | the corrected call never faults, keeps the invariant, and its string reads back as the kept prefix of the text and a NUL |
| TempFormat.TvprintfIntendedStoresPrefix | src/t1/t1.hpp:501-527 | the same for the whole corrected call |
| TempFormat.IntendedAgreesWhenFits | src/t1/t1.hpp:501-527 | for a text of at most size - 2 bytes, the corrected call and the call as written agree |
| TempFormat.FormatAtIntendedLeavesBehind | src/t1/t1.hpp:517-524 | a call just after d earlier bytes, fitting beside them, leaves those bytes unchanged |
| TempFormat.EarlierStringSurvives | src/t1/t1.hpp:517-524 | after two calls whose strings fit in one view together, the first string and its terminator still read back unchanged |
| Filename.StrLen | src/t1/t1.hpp:618 | the scan stops at the first NUL |
| Filename.LastSeparator | src/t1/t1.hpp:616-632 | the last '/' before position n, with none after it, or none at all |
| Filename.FilenameStart | src/t1/t1.hpp:611-638 | the result is at most the string length and has no separator after it; it is just past a separator exactly when the string holds one, and is the terminator otherwise |
| Filename.GetFilename | src/t1/t1.hpp:611-638 | the loop returns null exactly for null, and otherwise one past the last '/' or the terminator |
| Filename.FilenameAfterLastSlash | src/t1/t1.hpp:611-638 | for "dir/name" the file name is exactly "name" |
| Filename.TrailingSeparatorEmpty | src/t1/t1.hpp:636-637 | a path ending in '/' has an empty file name |
| Filename.BackslashIsNotSeparator | src/t1/t1.hpp:622-626 | a backslash does not separate: "dir\name" without '/' gives the terminator |
| Filename.BareNameGivesEmpty | src/t1/t1.hpp:634-635 | as written, a path without '/' gives the empty string at its terminator |
| Filename.FilenameNotIdempotent | src/t1/t1.hpp:634-635 | as written, taking the file name of a file name does not return it: "name" gives "" |
| Filename.FilenameStartIntended | src/t1/t1.hpp:634-637 | corrected: a path without '/' is returned whole; otherwise one past the last '/' |
| Filename.FilenameIntendedIdempotent | src/t1/t1.hpp:611-638 | with the correction, taking the file name of a file name returns it unchanged |

## Left out

- The Windows branches of ring-buffer `init` and `free` (src/t1/t1.hpp:301-342, 364-370). The library targets Linux, and that branch calls an undefined `ceil_multiple2`.
- Real system calls (`memfd_create`, `ftruncate`, `mmap`, `munmap`, `close`, `sysconf`) and `realloc`/`free` of the heap. Their outcomes are inputs.
- The `defer` that closes the memfd. The descriptor plays no part after `init`.
- `vsnprintf` formatting. The text it would produce is an input. `va_list` handling in `t1_tprintf` is not modelled.
- `atexit` registration in `_get_static_format_buffer`. The cleanup it registers is modelled as a call with `free_buffer` set.
- Floating point: `t1_timespec_to_seconds` and `t1_get_seconds_difference`.
- `t1_get_time`: it reads the clock.
- Every `t1_to_string` overload, the output functions, the test registration and runner, the assertion macros and colours, and `src/t1.hpp`'s iostream helpers. These are reporting glue.
- GrowArray.AddElements: does not model the overflow of `sizeof(T) * n_elements` in `t1_reallocate_memory`, because the element size is not part of the model. Its lemmas require reserved_size + n <= 2^63.
- Timespec.Difference: does not model overflow of the signed 64-bit seconds field, because its integers are unbounded.
- TempFormat.Tvprintf: does not model the `int` overflow of `bytes_written + 1` when `vsnprintf` reports INT_MAX bytes.
- TempFormat.GetStaticFormatBufferKeepsValid: freeing with a failed `munmap` leaves a data pointer whose views may be gone. The invariant is claimed only when every `munmap` succeeds. When the lazy `init` runs out of attempts the invariant fails, because `init` returns true with unmapped views (see TempFormat.TvprintfFaultsAfterExhaustedInit).
- TempFormat.TvprintfFits: claimed only for a buffer whose views are mapped. On the buffer left by exhausted retries the call faults instead.
- TempFormat.CleanupThenReuse: the invariant is claimed only when `init` succeeds before its last attempt, for the reason above.
- TempFormat.TvprintfIntended: for a buffer of fewer than 2 bytes the corrected call keeps no text and stores only its own terminator, because no text fits beside it.
- RingBuffer.RetryAsWritten: its own contract does not say what a failed attempt leads to; RingBuffer.RetryAsWrittenAttempt states, attempt by attempt, that an unrolled attempt continues with the next one.
- RingBuffer.Retry: likewise, RingBuffer.RetryAttempt states that an attempt whose release succeeds continues with the next one.
- RingBuffer.ReadByte: an access past the last view is modelled as a fault; in the program it is an out-of-bounds access whose effect depends on whatever is mapped next to the region.

## Findings

| source | as written | input that shows it | evidently intended | confidence | as-written member | corrected member |
|---|---|---|---|---|---|---|
| src/t1/t1.hpp:262-300 | after ten failed attempts the loop ends and falls through to `return true` with the last reservation as `data`; `t1_tvprintf` then faults on its first store | every `mmap(MAP_FIXED)` fails while the reservations succeed | exhausting the retries returns false | not executed | RingBuffer.InitAsWrittenSucceedsUnmapped | RingBuffer.InitFailsWhenMappingAlwaysFails |
| src/t1/t1.hpp:279-288 | the unroll unmaps the mapped views but never releases the PROT_NONE reservation, so each retry leaks it | the first view of an attempt fails to map | release the whole reservation before retrying | not executed | RingBuffer.UnrollLeavesPlaceholder | RingBuffer.Retry |
| src/t1/t1.hpp:442-443 | `*ret = val` stores through the result of `t1_add_at_end` without checking it | an empty array and a failing `realloc` | return null without storing | not executed | GrowArray.AddAtEndValueWritesNull | GrowArray.AddAtEndValue |
| src/t1/t1.hpp:634-635 | a path without '/' returns the advanced pointer, the empty string at the terminator | `t1_get_filename("name")` | return the whole path | not executed | Filename.FilenameNotIdempotent | Filename.FilenameIntendedIdempotent |
| src/t1/t1.hpp:512-519 | the string's length is `vsnprintf`'s return value, the untruncated length, although at most size - 2 bytes were stored | a text of size - 1 bytes | a length of at most size - 2, the bytes actually stored | not executed | TempFormat.FormatAtReportsUntruncatedLength | TempFormat.FormatAtIntendedStoresPrefix |
| src/t1/t1.hpp:517 | the terminator goes to `data[offset + bytes_written]`, which for a long text lies past both views, an out-of-bounds write (a fault in the model) | a text of 2 * size bytes at offset 0 | the terminator at the end of the stored output | not executed | TempFormat.FormatAtTerminatorPastViews | TempFormat.StoreIntendedInViews |
