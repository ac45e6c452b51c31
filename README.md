# mingwrt core runtime routines in Dafny

This project models the self-contained core routines of the MinGW.org
runtime library (mingwrt) for Win32. It also proves properties of the model.
The routines are:

- **`__pformat`**, the printf engine behind the MinGW `printf` family. It
  covers the format-string scan, the conversion state machine, the
  positional (`%n$`, `*m$`) argument prescan and the output handlers for
  characters, strings and integers. `__vsnprintf` bounds its output by a
  buffer length.
- **The MinGW `glob()`**:
  - the leaf matcher for wildcards and character sets;
  - `GLOB_BRACE` expansion;
  - the matcher that scans a directory, collates matches in a binary tree
    and stores them in `gl_pathv`;
  - the `glob_t` registry and `globfree()`.
- **`__mingw32_setargv`**, the command-line tokenizer that prepares each
  argument for globbing.
- **`strtok_r`**, `insque`/`remque`, and `tsearch`/`tfind`/`tdelete`/`twalk`
  (Knuth's unbalanced binary search tree).
- **The POSIX `random()` generator**: `srandom`, `initstate`, `setstate`
  and the additive feedback step.
- **The aligned allocator arithmetic of `memalign.c`**: alignment checks,
  header padding, rounding, and the alignment header written in front of
  each block and read back.
- **Wide-character conversion**: `__mingw_wctomb_convert` and `wcrtomb`
  with surrogate-pair state.
- **`getdelim`/`getline`**, with a buffer that grows 64 bytes at a time.
- **`__mingw_crypto_tmpname`**, the `dlfcn` emulation (`dlopen`,
  `dlclose`, `dlerror` and the global module table),
  `_mingw_output_format_control` and `imaxdiv`.

The target platform is Win32:

- `int`, `long`, pointers and `size_t` are 32 bits;
- `long long` and `intmax_t` are 64 bits;
- wrap-around and truncating conversions are written out explicitly.

A C string is a `seq<char>`. `At(s, i)` reads NUL past the end, so an
embedded NUL ends a string as it does in C.

The model follows each source file's own form:

- **Value level.** Pure computations are functions, and recursive
  structures are datatypes. Search trees and the glob collator are tree
  values, and each operation returns the new tree.
- **In-place state.** Routines that update state in place are methods on
  classes with `modifies` clauses:
  - the `__pformat` output stream;
  - the `glob_t` vector;
  - the `random()` state buffer;
  - the queue nodes;
  - the `dlfcn` table;
  - the stream of `getdelim`;
  - the `strtok_r` and `__vsnprintf` buffers.
- **Loops.** Loops in the source are `while` loops with invariants.

Anything the runtime gets from the operating system is a parameter of the
call that uses it. This covers:

- directory listings, loader and allocator outcomes;
- random bytes, locale data and `WideCharToMultiByte` results;
- the text that the floating-point handlers would produce.

One module per core source file: `CInt` (shared integer widths and C
string helpers), `ImaxDiv`, `OfmtCtl`, `StrtokR`, `Queue`, `TSearch`,
`Random`, `MemAlign`, `WcharMap`, `Wcrtomb`, `GetDelim`, `CryptNam`,
`Dlfcn`, `SetArgv`, `Glob`, `GlobBrace`, `GlobVector`, `GlobMatch`,
`PfOutput`, `PfIndex`, `PFormat`, `PFormatLaws`, `VSnprintf`.

## Model

| member | source | states |
|---|---|---|
| ImaxDiv.Div | mingwrt/mingwex/imaxdiv.c:41-47 | quot * denom + rem == numer, abs(rem) < abs(denom), rem has numer's sign, quot truncates toward zero, and both fit intmax_t, for every denom != 0 except INTMAX_MIN / -1 |
| ImaxDiv.DivFacts | mingwrt/mingwex/imaxdiv.c:44-45 | the truncating quotient and the remainder numer - quot * denom satisfy C99's division laws and stay within 64 bits |
| ImaxDiv.QuotientSign | mingwrt/mingwex/imaxdiv.c:44 | abs(numer / denom) is abs(numer) / abs(denom), negative exactly when the operands' signs differ |
| ImaxDiv.QuotientRange | mingwrt/mingwex/imaxdiv.c:44 | the quotient fits intmax_t unless the division is INTMAX_MIN / -1 |
| ImaxDiv.SignedRemainder | mingwrt/mingwex/imaxdiv.c:45 | numer % denom is plus or minus abs(numer) mod abs(denom), with the sign of numer |
| OfmtCtl.OutputFormat.Control | mingwrt/mingwex/ofmtctl.c:47-67 | returns the previous flags without the exponent-digit bits; the new flags are (old & (keep \| mask)) \| (set & ~mask) |
| OfmtCtl.NewFlagsSplit | mingwrt/mingwex/ofmtctl.c:59-60 | the exponent-digit bits never change, and every other bit becomes (old & keep) \| set |
| OfmtCtl.QueryLeavesFlags | mingwrt/mingwex/ofmtctl.c:47-67 | keep = ~0 with set = 0 reads the flags without changing them |
| OfmtCtl.ClearThenSet | mingwrt/mingwex/ofmtctl.c:59-60 | setting a MinGW bit and then keeping everything except it clears it again |
| StrtokR.Span | mingwrt/mingwex/strtok_r.c:52 | strspn stops at the first character that is not a separator |
| StrtokR.CSpan | mingwrt/mingwex/strtok_r.c:65 | strcspn stops at the NUL or at the first separator, within the string |
| StrtokR.SpanSeps | mingwrt/mingwex/strtok_r.c:52 | every character strspn steps over is a separator |
| StrtokR.CSpanWord | mingwrt/mingwex/strtok_r.c:65 | every character strcspn steps over is neither NUL nor a separator |
| StrtokR.Strtok | mingwrt/mingwex/strtok_r.c:34-73 | one call: skip separators; at the NUL return NULL with state there; otherwise return the token start, write NUL over the separator that ends it and resume after it, or resume at the NUL |
| StrtokR.OutcomeToken | mingwrt/mingwex/strtok_r.c:65-72 | when a token starts at p, the call returns p, and either cuts at p + strcspn and resumes one past it, or leaves the buffer alone at the NUL |
| StrtokR.TokenInBuffer | mingwrt/mingwex/strtok_r.c:65-72 | after the call the token reads back as the C string at its start, and the text after the resume point is unchanged |
| StrtokR.AfterCall | mingwrt/mingwex/strtok_r.c:34-73 | a call from state peels exactly the first remaining token of the reference tokenization, or returns NULL exactly when none remains |
| StrtokR.TokStep | mingwrt/mingwex/strtok_r.c:52-70 | skip, scan and cut split the remaining text into the next token and the rest |
| StrtokR.CallAdvances | mingwrt/mingwex/strtok_r.c:44-72 | a call with the saved state keeps the invariant of the tokenizing loop, or ends it with every token collected |
| StrtokR.TokenizeAll | mingwrt/mingwex/strtok_r.c:34-73 | calling strtok_r with s and then with NULL until it returns NULL yields exactly the reference tokens of the string |
| StrtokR.TokensConcat | mingwrt/mingwex/strtok_r.c:34-73 | the tokens, concatenated, are the string's non-separator characters in order |
| StrtokR.TokWords | mingwrt/mingwex/strtok_r.c:34-73 | every token is non-empty and holds no separator |
| StrtokR.Text | mingwrt/mingwex/strtok_r.c:52 | the C string in a buffer is the characters before its first NUL |
| Queue.QNode.constructor | mingwrt/mingwex/insque.c:43 | a fresh element has null forward and backward links |
| Queue.Insque | mingwrt/mingwex/insque.c:50-73 | a null element changes nothing; otherwise element.bkwd is pred, element.fwd is pred's old successor (null for a null pred), pred.fwd and the successor's bkwd point at element, with the later store winning when nodes alias |
| Queue.Remque | mingwrt/mingwex/remque.c:50-69 | a null element changes nothing; otherwise the successor's bkwd takes element.bkwd, the predecessor's fwd takes element.fwd, and element's own links are left as they were |
| Queue.InsertThenRemove | mingwrt/mingwex/remque.c:50-69 | remque after insque of a fresh element into a well-linked queue restores pred and its successor |
| TSearch.Compare | mingwrt/mingwex/tsearch.c:36 | the comparator is zero exactly for equal keys and negative exactly for a smaller key |
| TSearch.Find | mingwrt/mingwex/tfind.c:29-39 | a found node holds the key and is a subtree of the tree; in a search tree, not found means the key is absent |
| TSearch.FindIff | mingwrt/mingwex/tfind.c:29-39 | in a search tree the descent finds the key if and only if the tree holds it |
| TSearch.TFind | mingwrt/mingwex/tfind.c:15-40 | a null root pointer or comparator gives NULL; a result is a node holding the key |
| TSearch.Insert | mingwrt/mingwex/tsearch.c:33-51 | the node returned holds the key |
| TSearch.TSearch | mingwrt/mingwex/tsearch.c:15-52 | returns NULL exactly when the root pointer or the comparator is NULL, before any search |
| TSearch.InsertExisting | mingwrt/mingwex/tsearch.c:36-37 | a key already present returns its node and leaves the tree unchanged |
| TSearch.InsertNew | mingwrt/mingwex/tsearch.c:44-50 | an absent key with a successful allocation adds exactly that key, one more node, and returns a leaf with null links |
| TSearch.InsertFails | mingwrt/mingwex/tsearch.c:44-51 | a failed allocation returns NULL and leaves the tree as it was |
| TSearch.InsertKeys | mingwrt/mingwex/tsearch.c:33-51 | the tree afterwards holds the old keys and at most the new one |
| TSearch.InsertBST | mingwrt/mingwex/tsearch.c:33-51 | insertion keeps the search-tree order |
| TSearch.InsertedLeafIsFound | mingwrt/mingwex/tsearch.c:39-47 | the new leaf sits where a later search for its key arrives |
| TSearch.MinKey | mingwrt/mingwex/tdelete.c:49-50 | the leftmost key is a key of the tree |
| TSearch.DetachMinKeys | mingwrt/mingwex/tdelete.c:49-51 | detaching the leftmost node removes exactly its key, keeps the order, and leaves only larger keys |
| TSearch.UnlinkKeys | mingwrt/mingwex/tdelete.c:39-57 | replacing a node by its successor subtree (steps D1-D4) removes exactly its key and keeps the order |
| TSearch.SuccessorKeys | mingwrt/mingwex/tdelete.c:47-54 | step D3: the successor takes the deleted node's place and links, keeping all other keys and the order |
| TSearch.DeleteFromMissing | mingwrt/mingwex/tdelete.c:30-37 | a missing key returns NULL and leaves the tree unchanged |
| TSearch.DeleteFromPresent | mingwrt/mingwex/tdelete.c:30-58 | a present key is removed, the order kept, and the result is its parent (or the old root when the root held the key) |
| TSearch.TDelete | mingwrt/mingwex/tdelete.c:27-28 | NULL exactly for a NULL root pointer, an empty tree or a NULL comparator |
| TSearch.TDeleteSpec | mingwrt/mingwex/tdelete.c:15-59 | tdelete removes exactly the node holding the key, keeps the order and returns the deleted node's parent, or returns NULL and leaves the tree when the key is missing |
| TSearch.TWalk | mingwrt/mingwex/twalk.c:39-47 | a NULL root or action makes no call |
| TSearch.FrameVisits | mingwrt/mingwex/twalk.c:28-36 | an inner node is visited preorder, then its left walk, postorder, its right walk, endorder |
| TSearch.WalkInOrder | mingwrt/mingwex/twalk.c:18-37 | the postorder and leaf visits list the keys in in-order sequence |
| TSearch.WalkKeys | mingwrt/mingwex/twalk.c:18-37 | every visit is of a key of the tree, at a level no lower than the start level |
| TSearch.WalkVisits | mingwrt/mingwex/twalk.c:25-36 | every node gets one leaf visit if it has no children, and otherwise exactly a preorder, a postorder and an endorder visit, in that order |
| TSearch.VisitsAtRoot | mingwrt/mingwex/twalk.c:28-35 | an inner root is visited preorder, postorder, endorder |
| TSearch.WalkLevels | mingwrt/mingwex/twalk.c:31-34 | the level passed with each visit is the node's depth plus the start level |
| TSearch.InOrderKeys | mingwrt/mingwex/twalk.c:18-37 | the in-order list holds exactly the tree's keys |
| TSearch.InOrderIncreasing | mingwrt/mingwex/tsearch.c:33-51 | the in-order key list of a search tree is strictly increasing, so twalk's postorder visits come in comparator order |
| VSnprintf.Snprintf | mingwrt/mingwex/stdio/vsnprintf.c:52-71 | the buffer keeps its length; with length 0 it is untouched, otherwise it holds what __pformat delivers within the int quota, then a NUL at min(count, length - 1) |
| VSnprintf.VSnprintf | mingwrt/mingwex/stdio/vsnprintf.c:52-71 | returns the full length __pformat generates; __pformat gets length - 1 converted to int as its quota; the buffer afterwards is Snprintf of it |
| VSnprintf.Quota | mingwrt/mingwex/stdio/vsnprintf.c:67 | the quota is length - 1 converted to int: equal to it up to 2^31, negative (length - 1 - 2^32) from there to 2^32, never above length - 1 |
| VSnprintf.Terminate | mingwrt/mingwex/stdio/vsnprintf.c:67-68 | the NUL written at min(count, length - 1) after what __pformat delivered within the quota completes the buffer |
| VSnprintf.ZeroLength | mingwrt/mingwex/stdio/vsnprintf.c:56-61 | a zero length leaves the buffer alone, whatever the format generates |
| VSnprintf.Terminated | mingwrt/mingwex/stdio/vsnprintf.c:67-68 | the NUL lands at min(count, length - 1), always inside the buffer; before it come the delivered output characters, then the buffer's old bytes |
| VSnprintf.QuotaFits | mingwrt/mingwex/stdio/vsnprintf.c:67-68 | while length - 1 fits an int, the buffer holds min(count, length - 1) output characters, then a NUL, then its old bytes |
| VSnprintf.NegativeQuota | mingwrt/mingwex/stdio/pformat.c:289 | for length - 1 from 2^31 to 2^32 - 1 the int quota is negative: no output character is stored, only the NUL at min(count, length - 1) |
| VSnprintf.WithinLength | mingwrt/mingwex/stdio/vsnprintf.c:52-71 | nothing at or beyond index length is written |
| VSnprintf.ReadBack | mingwrt/mingwex/stdio/vsnprintf.c:52-71 | for length up to 2^31, the string read back is the whole output when it is shorter than length, else its first length - 1 characters |
| Random.SeedStep | mingwrt/mingwex/math/random.c:148-157 | the seeding step, with the Mersenne fold corrected, yields an int32 entry |
| Random.SeedStepIsLehmer | mingwrt/mingwex/math/random.c:133-157 | for a non-negative entry the corrected step is exactly 16807 * prev mod (2^31 - 1), the multiplicative sequence the seeding promises |
| Random.FoldStepCounterexample | mingwrt/mingwex/math/random.c:156-157 | the fold as written gives 6798 for the entry 868985321, whose Lehmer successor is 6800 |
| Random.Lcg | mingwrt/mingwex/math/random.c:237-241 | the 8-byte generator's result, (1103515245 * x + 12345) masked to 31 bits, is a non-negative int32 |
| Random.UpdateKeepsCycle | mingwrt/mingwex/math/random.c:110-117 | update_state wraps an index at the limit to 0 before using it, advances both indices by one and keeps them within 1..limit |
| Random.Warm | mingwrt/mingwex/math/random.c:174-175 | any number of discarded updates keeps the index invariant and the buffer size |
| Random.Seeded | mingwrt/mingwex/math/random.c:127-158 | the seeding fills exactly n entries |
| Random.SeededLehmer | mingwrt/mingwex/math/random.c:127-158 | a seed below 2^31 fills the entries with the Lehmer sequence x[i] = 16807 * x[i-1] mod (2^31 - 1), starting from the seed, or from 1 for a zero seed |
| Random.SeededSteps | mingwrt/mingwex/math/random.c:127-158 | entry 0 is the seed (1 for 0) and every later entry is the seeding step of its predecessor |
| Random.SeededExtends | mingwrt/mingwex/math/random.c:145-158 | seeding one more entry keeps the earlier ones |
| Random.Initialized | mingwrt/mingwex/math/random.c:119-177 | initialize_state_data keeps the limit and size; with more than one entry the index invariant holds afterwards; with one entry only data[0] changes, to the seed or 1 |
| Random.InitialCycleOk | mingwrt/mingwex/math/random.c:162-169 | phase 0 with the shift chosen for 7, 15, 31 or 63 entries satisfies the index invariant |
| Random.CycleForValid | mingwrt/mingwex/math/random.c:97-108 | for 8 bytes or more the normalized cycle is a permitted limit (0, 1, 7, 15, 31 or 63) that fits the buffer's entries after the control word |
| Random.NormalizedCycle | mingwrt/mingwex/math/random.c:97-108 | the halving loop from 256 (or 8 below 32 bytes) computes the entry count of the largest permitted buffer size not above len |
| Random.StateBuffer.constructor | mingwrt/mingwex/math/random.c:47-60 | a fresh state buffer of the given byte size, zeroed, with zero control indices |
| Random.Prng.constructor | mingwrt/mingwex/math/random.c:62-67 | the generator starts on the 128-byte default buffer, not yet initialized |
| Random.Prng.SetState | mingwrt/mingwex/math/random.c:75-95 | setstate adopts buf and returns the previous buffer; NULL sets EINVAL, returns NULL and keeps the state |
| Random.Prng.UpdateState | mingwrt/mingwex/math/random.c:110-117 | update_state adds data[phase] into data[shift] after the wrap-around and returns the new entry, as the value function Update describes |
| Random.Prng.FillEntries | mingwrt/mingwex/math/random.c:145-158 | the seeding loop leaves the first limit entries equal to the seeded sequence and the rest of the buffer unchanged |
| Random.Prng.WarmUp | mingwrt/mingwex/math/random.c:174-175 | ten discarded updates per entry |
| Random.Prng.InitializeStateData | mingwrt/mingwex/math/random.c:119-177 | the buffer afterwards is Initialized of the seed and the buffer before |
| Random.Prng.InitState | mingwrt/mingwex/math/random.c:179-197 | NULL buf sets EINVAL; a length below 8 bytes returns NULL and changes nothing; otherwise buf is adopted, sized by normalized_cycle and seeded, the previous buffer is returned, and random() may then be called |
| Random.Prng.InitStateAsWritten | mingwrt/mingwex/math/random.c:179-197 | as written, a non-NULL buf below 8 bytes is still adopted, although NULL is returned and it is never seeded |
| Random.Prng.SRandom | mingwrt/mingwex/math/random.c:199-207 | the untouched default buffer is first sized for 128 bytes; then the active buffer is seeded |
| Random.Prng.Random | mingwrt/mingwex/math/random.c:209-248 | the result lies in 0..2^31-1; the untouched default buffer is first seeded with 1; an 8-byte buffer steps the linear congruential generator; any larger buffer makes one update and returns it, as unsigned, halved |
| MemAlign.PowIsPowerOfTwo | mingwrt/mingwex/memalign.c:123-130 | every power of two 2^k passes is_power_of_two: x > 0 and x & (x - 1) == 0 |
| MemAlign.PowerOfTwoLog | mingwrt/mingwex/memalign.c:123-130 | conversely, every value passing is_power_of_two is 2^k for some k |
| MemAlign.MinAlignmentIsPowerOfTwo | mingwrt/mingwex/memalign.c:132-177 | the Win32 minimum alignment, 8, is a power of two, so the fallback search in memalign_normalized is never entered |
| MemAlign.NormalizedProps | mingwrt/mingwex/memalign.c:155-177 | a normalized alignment is at least the minimum: unchanged when already at least the minimum, else the minimum; a power of two stays one |
| MemAlign.PaddingValue | mingwrt/mingwex/memalign.c:179-189 | padding is alignment + sizeof(void *) - 1 + sizeof(size_t), plus one more size_t when both flags are set |
| MemAlign.AlignedRoundsDown | mingwrt/mingwex/memalign.c:197-198 | for a power-of-two alignment, aligned() rounds ptr + offset down to a multiple of it |
| MemAlign.AndTopMask | mingwrt/mingwex/memalign.c:197-198 | and-ing with ~(2^k - 1) in 32 bits clears exactly the low k bits |
| MemAlign.AlignedPtrProps | mingwrt/mingwex/memalign.c:204-205 | aligned_ptr's result plus offset is a multiple of the alignment, and the result lies in (ptr + padding - alignment, ptr + padding] |
| MemAlign.HeaderFlags | mingwrt/mingwex/memalign.c:362-364 | the flags fit the flag mask, and are zero exactly when there is no offset and no over-alignment |
| MemAlign.FlagBits | mingwrt/mingwex/memalign.c:104-109 | each flag bit reads back from the flags, and (1 + flags) >> 2 selects the second size_t slot only when both are set |
| MemAlign.HeaderLayout | mingwrt/mingwex/memalign.c:375-403 | the returned pointer lies past the stored header words and inside the padding, with the pointer slot between them |
| MemAlign.HeaderReads | mingwrt/mingwex/memalign.c:391-403 | the alignment, the offset and the flagged base pointer stored in the header read back from their slots |
| MemAlign.MemalignBase | mingwrt/mingwex/memalign.c:273-335 | __mingw_memalign_base returns ptr itself, or a base at or above the low-water mark and at least a header below ptr |
| MemAlign.BaseFromHeader | mingwrt/mingwex/memalign.c:295-327 | __mingw_memalign_base on a header with the stored contents returns its block |
| MemAlign.HeaderReadBack | mingwrt/mingwex/memalign.c:342-414 | for every alignment 8..2^30 and every flag combination, __mingw_memalign_base recovers the block from the pointer __mingw_aligned_offset_malloc returned |
| MemAlign.AllocationCorrect | mingwrt/mingwex/memalign.c:342-414 | a successful header-carrying allocation returns an offset-aligned pointer past the header and inside the padding, which maps back to its block |
| MemAlign.AlignmentLog | mingwrt/mingwex/memalign.c:356-364 | an alignment that passes validation normalizes to 2^k with 3 <= k < 31 |
| MemAlign.RequestSizeWraps | mingwrt/mingwex/memalign.c:383 | as written, want + padding is computed in size_t: 0xFFFFFFF0 bytes at 16-byte alignment request only 7 bytes from malloc |
| MemAlign.Heap.constructor | mingwrt/mingwex/memalign.c:240 | an empty heap with the low-water mark at 0 |
| MemAlign.Heap.RecordLowWaterMark | mingwrt/mingwex/memalign.c:214-223 | the low-water mark becomes ptr when it was 0 or above ptr, and nothing else changes |
| MemAlign.Heap.StoreHeader | mingwrt/mingwex/memalign.c:391-403 | stores the alignment when over-aligned, the offset after it when offset-aligned, and the flagged base pointer at the slot below the result |
| MemAlign.Heap.PaddedMalloc | mingwrt/mingwex/memalign.c:375-414 | the header-carrying path: ENOMEM when want + padding does not fit size_t, NULL when malloc fails, else the aligned pointer with the header written and the low-water mark updated |
| MemAlign.Heap.AlignedOffsetMalloc | mingwrt/mingwex/memalign.c:342-415 | a non-power-of-two alignment, or a non-zero offset not below want, gives EINVAL and NULL; a request needing no header is malloc(want); an oversized padded request gives ENOMEM; otherwise the result is offset-aligned and maps back to its block |
| WcharMap.Terminated | mingwrt/mingwex/wcharmap.c:108-136 | the units through the first NUL, the NUL last and no NUL before it |
| WcharMap.Consumed | mingwrt/mingwex/wcharmap.c:106-167 | the code-page-zero scan visits through the NUL when wclen is -1, otherwise at most wclen units, stopping after a NUL |
| WcharMap.FirstInvalid | mingwrt/mingwex/wcharmap.c:112-143 | every unit before the index fits in an unsigned char, and the unit at it does not |
| WcharMap.Codeset0Convert | mingwrt/mingwex/wcharmap.c:97-173 | the code-page-zero branch reports the outcome of Codeset0 on the visited units, and stores each accepted unit as one byte, leaving the rest of the buffer alone |
| WcharMap.UnboundedScan | mingwrt/mingwex/wcharmap.c:108-136 | the do-while scan through the NUL: its result and the bytes it stores |
| WcharMap.BoundedScan | mingwrt/mingwex/wcharmap.c:138-167 | the scan of at most wclen units, cut short after a NUL: its result and the bytes it stores |
| WcharMap.StopsAt | mingwrt/mingwex/wcharmap.c:112-156 | the scan stops at the first unit that is too wide, with EILSEQ, or at the first that does not fit the buffer, with ENOMEM, having stored the units before it |
| WcharMap.ScanCompletes | mingwrt/mingwex/wcharmap.c:106-172 | when every unit is accepted, the scan converts and stores them all |
| WcharMap.Codeset0ConvertsIff | mingwrt/mingwex/wcharmap.c:97-173 | the code-page-zero conversion succeeds exactly when every visited unit fits a byte and, with a buffer, the buffer holds them all; it then counts every visited unit |
| WcharMap.WideUnitIsIllegal | mingwrt/mingwex/wcharmap.c:112-144 | any unit above UCHAR_MAX makes a length-only conversion fail with EILSEQ |
| WcharMap.WideUnitBeforeBufferEnd | mingwrt/mingwex/wcharmap.c:112-128 | with a buffer, a wide unit within the buffer's room gives EILSEQ even though later units would not fit |
| WcharMap.ShortBufferIsNoMem | mingwrt/mingwex/wcharmap.c:120-156 | a buffer too small for valid units fails with ENOMEM |
| WcharMap.CountingMatchesStoring | mingwrt/mingwex/wcharmap.c:97-173 | counting without a buffer gives the same result as storing into a buffer that holds every visited unit |
| WcharMap.UnboundedCountsTerminator | mingwrt/mingwex/wcharmap.c:108-136 | an unbounded scan of valid units counts through the terminating NUL |
| WcharMap.BoundedStopsAtNul | mingwrt/mingwex/wcharmap.c:162 | a bound reaching past the NUL visits exactly what the unbounded scan visits |
| WcharMap.Checked | mingwrt/mingwex/wcharmap.c:195-204 | the surrogate scan checks through the NUL for (size_t)-1, else exactly wclen units |
| WcharMap.SurrogateScan | mingwrt/mingwex/wcharmap.c:185-235 | the UTF-7/UTF-8 scan succeeds exactly when every high surrogate is followed by a low one and no low surrogate stands alone |
| WcharMap.EncodeOne | mingwrt/mingwex/wcharmap.c:209-232 | the UTF-16 encoding of one scalar value (section 2.1 of RFC 2781) never ends in a high surrogate |
| WcharMap.EncodeOnePaired | mingwrt/mingwex/wcharmap.c:209-232 | the encoding of one scalar value is a well-formed unit or pair |
| WcharMap.EncodedIsPaired | mingwrt/mingwex/wcharmap.c:185-235 | the UTF-16 encoding of any sequence of scalar values passes the surrogate scan |
| WcharMap.Utf8IgnoresInvalidFlag | mingwrt/mingwex/wcharmap.c:185-247 | for UTF-7 and UTF-8 a malformed sequence is EILSEQ, and a well-formed one reports WideCharToMultiByte's count when it is non-zero |
| WcharMap.WctombConvert | mingwrt/mingwex/wcharmap.c:61-248 | __mingw_wctomb_convert: code page zero as above; UTF-7/UTF-8 scan then delegate; other code pages delegate; a zero count or a default-character flag gives EILSEQ and (size_t)-1 |
| Wcrtomb.MbState.constructor | mingwrt/mingwex/wcrtomb.c:38-44 | a fresh mbstate_t is the initial state, 0 |
| Wcrtomb.WcrtombStep | mingwrt/mingwex/wcrtomb.c:38-109 | the state left is 0, or a high surrogate just given with a buffer from the initial state; a held-back surrogate reports 0 bytes |
| Wcrtomb.WcrtombInternal | mingwrt/mingwex/wcrtomb.c:38-109 | __wcrtomb_internal reports and leaves the state WcrtombStep gives, and writes nothing for a held-back or illegal surrogate |
| Wcrtomb.Wcrtomb | mingwrt/mingwex/wcrtomb.c:111-119 | a NULL ps uses the library's internal state; a caller's ps leaves the internal state alone |
| Wcrtomb.NullBufferIsOneByte | mingwrt/mingwex/wcrtomb.c:79 | with no pending state, a NULL buffer reports one byte and leaves the initial state |
| Wcrtomb.StateIsZeroOrHigh | mingwrt/mingwex/wcrtomb.c:38-109 | a call only ever leaves the initial state or a high surrogate |
| Wcrtomb.UnpairedIsIllegal | mingwrt/mingwex/wcrtomb.c:60-102 | a pending high surrogate followed by anything but a low one, or an orphan low surrogate, is EILSEQ and resets the state |
| Wcrtomb.SplitPairMatchesWhole | mingwrt/mingwex/wcrtomb.c:44-96 | a surrogate pair fed one unit per call reports the same outcome as converting the pair at once, and ends in the initial state |
| Wcrtomb.SplitPairIsWellFormed | mingwrt/mingwex/wcrtomb.c:52-58 | for UTF-7 and UTF-8 a split pair passes the surrogate scan and reports the foreign converter's count |
| Wcrtomb.Codeset0RejectsPair | mingwrt/mingwex/wcrtomb.c:52-58 | in the "C" locale a completed surrogate pair is EILSEQ |
| GetDelim.Line | mingwrt/mingwex/stdio/getdelim.c:122-159 | the characters getdelim takes: a prefix of the input that ends at its first brk, or all of it when brk never comes, and nothing when brk is EOF |
| GetDelim.LineEndsAtFirstBrk | mingwrt/mingwex/stdio/getdelim.c:122 | the line is the input through the first occurrence of the delimiter |
| GetDelim.LineWithoutBrk | mingwrt/mingwex/stdio/getdelim.c:122 | without the delimiter in the input, the line is the whole input |
| GetDelim.NeededStep | mingwrt/mingwex/stdio/getdelim.c:143-154 | storing one more character grows the buffer by 64 bytes exactly when count + 2 > *len |
| GetDelim.NeededHasRoom | mingwrt/mingwex/stdio/getdelim.c:143-158 | after at least one character the buffer has room for the NUL, and a grown buffer is less than a chunk beyond what is needed |
| GetDelim.GrantsAt | mingwrt/mingwex/stdio/getdelim.c:143-148 | the growths so far fit in the allocator's grants, and the refused growth is the one at the fail count |
| GetDelim.Getdelim | mingwrt/mingwex/stdio/getdelim.c:60-170 | NULL linebuf or len gives EINVAL; a NULL stream gives EBADF; a stream at end of file or in error returns -1 and changes nothing; otherwise the buffer, the stream and the result are those the expected outcome Expect describes |
| GetDelim.ReadLine | mingwrt/mingwex/stdio/getdelim.c:107-169 | the read loop and the NUL store leave the buffer, the stream position and indicators, and the result that Expect describes |
| GetDelim.ReadLoop | mingwrt/mingwex/stdio/getdelim.c:122-159 | the loop stops when a growth is refused, when a character arrives after SSIZE_MAX are stored, or after brk or EOF, with the stored prefix equal to the line |
| GetDelim.Accept | mingwrt/mingwex/stdio/getdelim.c:143-158 | one iteration grows by a chunk when count + 2 > *len and stores the character, failing only at the fail count with nothing changed |
| GetDelim.Grow | mingwrt/mingwex/stdio/getdelim.c:144-153 | realloc to *len + 64 keeps the old contents and updates *linebuf and *len when granted, and changes nothing when refused |
| GetDelim.Store | mingwrt/mingwex/stdio/getdelim.c:158 | storing the character at count extends the stored prefix of the line by one |
| GetDelim.LoopEndIsExpected | mingwrt/mingwex/stdio/getdelim.c:122-169 | where the loop stops is what Expect reports: count, consumed characters, EOF seen, buffer length, grants left, errno and result |
| GetDelim.NoMemExit | mingwrt/mingwex/stdio/getdelim.c:143-148 | the ENOMEM exit: the growth at the fail count is refused after the character was read |
| GetDelim.OverflowExit | mingwrt/mingwex/stdio/getdelim.c:130-135 | the EOVERFLOW (ERANGE) exit: a character arrives after SSIZE_MAX are stored |
| GetDelim.DoneExit | mingwrt/mingwex/stdio/getdelim.c:122-169 | the normal exit stores the whole line and returns its length, or -1 for an empty line |
| GetDelim.ExpectedLength | mingwrt/mingwex/stdio/getdelim.c:143-154 | the buffer grows in whole 64-byte chunks, one grant each; once a character is stored there is room for it and the NUL; a growth never goes a chunk further than needed |
| GetDelim.ExpectedOutcome | mingwrt/mingwex/stdio/getdelim.c:122-169 | success returns the line's length (-1 when empty) having consumed exactly the line; ENOMEM and ERANGE return -1 having consumed one character more than they stored |
| GetDelim.EnoughMemorySucceeds | mingwrt/mingwex/stdio/getdelim.c:143-148 | with enough grants for the line and its NUL the read succeeds |
| GetDelim.TerminatorSkippedOnlyWhenEmpty | mingwrt/mingwex/stdio/getdelim.c:164 | the NUL store lies outside the buffer only for an empty result in a buffer that was and stays empty |
| GetDelim.Terminate | mingwrt/mingwex/stdio/getdelim.c:164 | the corrected NUL store: the byte at count becomes NUL when it lies inside the buffer, and nothing else changes |
| GetDelim.AsWrittenTerminate | mingwrt/mingwex/stdio/getdelim.c:164 | the store as written is in bounds exactly when count < *len on an allocated buffer, and then agrees with Terminate |
| GetDelim.EmptyReadOverruns | mingwrt/mingwex/stdio/getdelim.c:107-164 | a first read from an empty stream into a NULL buffer of length 0 reaches the store with count 0 and *len 0, so the store as written goes through the NULL pointer |
| CryptNam.FilenameChar | mingwrt/mingwex/cryptnam.c:135-140 | an accepted byte maps to '0'..'9' or 'a'..'z', the symbol numbered byte mod 36 |
| CryptNam.Draw | mingwrt/mingwex/cryptnam.c:120-130 | the retry loop takes the first byte at most 251 and skips only larger ones, or fails when the generator fails first |
| CryptNam.RandomFilenameChar | mingwrt/mingwex/cryptnam.c:97-146 | draws bytes into the caret until one is accepted and stores its character; on generator failure the caret keeps the last raw byte |
| CryptNam.Fill | mingwrt/mingwex/cryptnam.c:169-181 | the walk over the tail keeps the template's length and consumes drawn bytes in order |
| CryptNam.FillPosition | mingwrt/mingwex/cryptnam.c:176 | one 'X' of the tail is replaced by a drawn character, or the walk fails with the bytes exhausted |
| CryptNam.FillUnfold | mingwrt/mingwex/cryptnam.c:169-181 | a tail position other than 'X' fails the call; otherwise it takes the next accepted byte's character and the walk goes on |
| CryptNam.CryptoTmpname | mingwrt/mingwex/cryptnam.c:148-187 | __mingw_crypto_tmpname leaves the template Tmpname describes and returns NULL exactly where it fails |
| CryptNam.AcceptedBytesAreWholeCycles | mingwrt/mingwex/cryptnam.c:107-116 | the span is 36, the largest accepted byte 251, so the accepted bytes are exactly seven whole cycles of the 36 symbols |
| CryptNam.SameCharIffSameResidue | mingwrt/mingwex/cryptnam.c:135-140 | two accepted bytes give the same character exactly when they agree modulo 36 |
| CryptNam.EverySymbolReachable | mingwrt/mingwex/cryptnam.c:135-140 | every one of the 36 symbols is produced by some byte |
| CryptNam.ShortTemplateUnchanged | mingwrt/mingwex/cryptnam.c:159-164 | a template shorter than six characters is returned unchanged and draws nothing |
| CryptNam.OnlyTailChanges | mingwrt/mingwex/cryptnam.c:159-181 | only the six characters before the terminator can change |
| CryptNam.FillOutside | mingwrt/mingwex/cryptnam.c:169-181 | the walk leaves every position outside the tail alone |
| CryptNam.FillSuccess | mingwrt/mingwex/cryptnam.c:169-181 | a successful walk found 'X' at every tail position and left an alphanumeric there |
| CryptNam.FillNeedsX | mingwrt/mingwex/cryptnam.c:176-180 | a tail position that does not hold 'X' makes the call fail |
| CryptNam.TmpnameTail | mingwrt/mingwex/cryptnam.c:148-187 | success means the last six characters held 'X' and now hold alphanumerics; any other tail character makes the call return NULL |
| CryptNam.FillAccepted | mingwrt/mingwex/cryptnam.c:169-181 | when every byte is accepted, the 'X's take the characters of successive bytes, one byte each |
| CryptNam.TmpnameAccepted | mingwrt/mingwex/cryptnam.c:148-187 | six 'X's and six accepted bytes: the call succeeds and maps the bytes to the tail in order |
| Dlfcn.Active | mingwrt/mingwex/dlfcn.c:245-258 | the active view of the table: its slots with a non-zero flag, in table order |
| Dlfcn.ActiveMembers | mingwrt/mingwex/dlfcn.c:245-258 | every active slot is a slot of the table |
| Dlfcn.FirstVacant | mingwrt/mingwex/dlfcn.c:323-336 | the first slot with a zero flag, or the table size when every slot is active |
| Dlfcn.Lookup | mingwrt/mingwex/dlfcn.c:324-353 | the first active slot holding the module, or none when no active slot holds it |
| Dlfcn.Slot | mingwrt/mingwex/dlfcn.c:585-610 | the first slot, active or not, naming the module: where dlclose stops |
| Dlfcn.NewFlag | mingwrt/mingwex/dlfcn.c:453 | the flag of a new entry, the low byte of RTLD_EXPLICIT \| mode, is non-zero and carries RTLD_EXPLICIT |
| Dlfcn.Promote | mingwrt/mingwex/dlfcn.c:348 | or-ing bits into the flags of one slot changes nothing else |
| Dlfcn.Record | mingwrt/mingwex/dlfcn.c:84-102 | dlfcn_store_error_message: both references name the new message, or both are lost when realloc fails |
| Dlfcn.Retrieve | mingwrt/mingwex/dlfcn.c:146-167 | dlerror returns the message exactly when one is pending, and afterwards nothing is pending; a retrieved message is freed on the next call |
| Dlfcn.DlState.constructor | mingwrt/mingwex/dlfcn.c:619-699 | the state after dlfcn_init: the table it enumerated, no pending message |
| Dlfcn.DlState.StoreError | mingwrt/mingwex/dlfcn.c:84-102 | storing a message leaves the table and records the message as Record says |
| Dlfcn.DlState.DlError | mingwrt/mingwex/dlfcn.c:146-167 | dlerror_internal reports as Retrieve says and leaves the table |
| Dlfcn.DlState.DlOpen | mingwrt/mingwex/dlfcn.c:283-460 | a NULL name returns RTLD_ALL_GLOBAL and changes nothing; otherwise the handle and table are those of Open; a failed load or a table that cannot grow records the error message, and a success leaves the messages alone |
| Dlfcn.DlState.DlClose | mingwrt/mingwex/dlfcn.c:577-617 | the table is that of Close; success returns 0 and leaves the messages; failure returns GetLastError's code and records the message |
| Dlfcn.Scan | mingwrt/mingwex/dlfcn.c:323-354 | the search loop finds the first active slot holding the module, and otherwise the first vacant slot as insertion point |
| Dlfcn.Insert | mingwrt/mingwex/dlfcn.c:359-454 | a new module is added when there is a vacant slot or the table can grow: into the packed table right after the active slots, or into a new last slot |
| Dlfcn.Pack | mingwrt/mingwex/dlfcn.c:371-405 | the packing loops copy the active slots from the insertion point down in order and mark every slot after them vacant |
| Dlfcn.SkipVacant | mingwrt/mingwex/dlfcn.c:380-381 | the first inner loop steps over vacant slots, keeping the packing invariant |
| Dlfcn.MoveRun | mingwrt/mingwex/dlfcn.c:386-393 | the second inner loop copies a run of active slots down, keeping the packing invariant |
| Dlfcn.Vacate | mingwrt/mingwex/dlfcn.c:404-405 | the final loop makes every slot from the insertion point on vacant |
| Dlfcn.PackingMove | mingwrt/mingwex/dlfcn.c:391-392 | copying an active slot down to the insertion point extends the packed prefix by it |
| Dlfcn.PackedFromFirstVacant | mingwrt/mingwex/dlfcn.c:359-405 | packing from the first vacant slot leaves the active slots, in order, at the front |
| Dlfcn.VacancyIff | mingwrt/mingwex/dlfcn.c:359 | the table has a vacant slot exactly when its active view is shorter than the table |
| Dlfcn.ActiveIsLooked | mingwrt/mingwex/dlfcn.c:324-353 | a module in the active view is found by the search |
| Dlfcn.ErrorReportedOnce | mingwrt/mingwex/dlfcn.c:146-167 | a stored message is returned by the next dlerror, and the call after that returns NULL and frees it |
| Dlfcn.LostMessageReportsNothing | mingwrt/mingwex/dlfcn.c:95-101 | a failed message allocation leaves nothing for dlerror to report |
| Dlfcn.ActiveUpdate | mingwrt/mingwex/dlfcn.c:348 | changing the flags of an active slot, keeping it active, keeps the order of the active modules |
| Dlfcn.ReopenPromotes | mingwrt/mingwex/dlfcn.c:337-352 | reopening a module already in the table returns it and or-s mode & RTLD_GLOBAL into its slot's flags |
| Dlfcn.PromoteKeepsOrder | mingwrt/mingwex/dlfcn.c:348 | promoting an active slot adds no slot and keeps the order of the active modules |
| Dlfcn.NewModuleAppended | mingwrt/mingwex/dlfcn.c:359-459 | a module not in the table is added behind every active module with flags RTLD_EXPLICIT \| mode, reusing a slot when one is vacant; it fails, returning NULL with the table unchanged, only when there is no vacant slot and the table cannot grow |
| Dlfcn.OpenKeepsDistinct | mingwrt/mingwex/dlfcn.c:283-460 | dlopen keeps every module in at most one active slot |
| Dlfcn.OpenAdds | mingwrt/mingwex/dlfcn.c:359-454 | the packed table that receives the new entry is the table with the entry added |
| Dlfcn.SlotOfAdded | mingwrt/mingwex/dlfcn.c:585-602 | in the table with a module added, the first slot naming it is the added one, and clearing its flag leaves it vacant |
| Dlfcn.AddedView | mingwrt/mingwex/dlfcn.c:453-454 | the added entry comes after the active modules in the active view, if it is active itself |
| Dlfcn.OpenThenClose | mingwrt/mingwex/dlfcn.c:577-617 | dlclose of a module just added by dlopen succeeds when FreeLibrary does, and leaves the active modules as they were before the dlopen |
| SetArgv.Backslashes | mingwrt/setargv.c:58-67 | a run of n backslashes |
| SetArgv.Backslash | mingwrt/setargv.c:58-67 | backslash() writes count backslashes at the pointer and returns the pointer past them, keeping what was written before |
| SetArgv.UnquoteAt | mingwrt/setargv.c:70-89 | unquote() writes half the pending backslashes, then either a literal quote (odd count, or inside the other kind of quotes) or toggles the quoting state, as the reference Unquote step says |
| SetArgv.Consume | mingwrt/setargv.c:114-224 | one character of the main loop advances the buffer, the quoting state, the pending backslashes and the argument list as the reference Step says, within the buffer's bound |
| SetArgv.ConsumeToken | mingwrt/setargv.c:138-165 | a globbing token writes the pending backslashes and the token, escaped when it must stay literal |
| SetArgv.ConsumeOther | mingwrt/setargv.c:190-223 | any other character writes the pending backslashes and then the character; an unquoted blank instead hands on a pending argument and restarts the buffer |
| SetArgv.Mingw32Setargv | mingwrt/setargv.c:92-244 | the argument vector built in a buffer of twice the command line's length plus two, never overrun, is the reference tokenization Setargv of the line |
| SetArgv.RunConcat | mingwrt/setargv.c:114-225 | scanning a concatenation is scanning each part in turn |
| SetArgv.RunBackslashes | mingwrt/setargv.c:123-136 | outside single quotes backslashes are only counted |
| SetArgv.BackslashesBeforeQuote | mingwrt/setargv.c:70-89 | n backslashes then a double quote write n/2 backslashes; an odd n makes the quote literal, an even n opens or closes quoting |
| SetArgv.BackslashesLiteral | mingwrt/setargv.c:190-229 | backslashes not followed by a quote are written literally |
| SetArgv.BlankEndsArgument | mingwrt/setargv.c:195-212 | outside quotes a blank ends a pending argument, and is dropped otherwise |
| SetArgv.BlankInQuotesKept | mingwrt/setargv.c:195-223 | inside quotes a blank is part of the argument |
| SetArgv.EmptyQuotesMakeArgument | mingwrt/setargv.c:167-230 | a pair of double quotes makes an argument even with nothing between them |
| SetArgv.GlobTokenEscaped | mingwrt/setargv.c:138-165 | a glob token is escaped exactly when quoted, when it is the escape character, or when it is '[' with bracket groups off |
| SetArgv.SingleQuoteNeedsOption | mingwrt/setargv.c:175-188 | a single quote quotes only with the single-quote option, otherwise it is copied; inside single quotes a backslash is copied at once |
| SetArgv.RunMarks | mingwrt/setargv.c:114-225 | the quoting state is only ever none, a double or a single quote |
| SetArgv.RunPlainWord | mingwrt/setargv.c:213-223 | a plain word is collected as it stands |
| SetArgv.RunWords | mingwrt/setargv.c:114-225 | scanning plain words each followed by a blank yields those words, one argument each |
| SetArgv.WordEnds | mingwrt/setargv.c:195-212 | a blank after a collected word hands the word on |
| SetArgv.SetargvOfWords | mingwrt/setargv.c:92-244 | the tokenizer gives back the words of a line of plain words, in order |
| SetArgv.RunQuoted | mingwrt/setargv.c:138-223 | inside double quotes, text without quotes and backslashes is appended with every glob token escaped |
| SetArgv.RunQuotedLine | mingwrt/setargv.c:114-225 | after a double-quoted word quoting is closed and the escaped word is pending |
| SetArgv.FinishQuoted | mingwrt/setargv.c:229-236 | a pending argument marked by quotes is handed on as it is |
| SetArgv.QuotedArgument | mingwrt/setargv.c:92-236 | a double-quoted word without quotes, backslashes and NUL becomes one argument with its glob tokens escaped, and glob_strdup()'s copy of that argument is the word as typed |
| SetArgv.UnescapeQuoted | mingwrt/mingwex/glob.c:85-97 | glob_strdup()'s unescaping undoes the escapes the tokenizer puts inside quotes |
| Glob.Lower | mingwrt/mingwex/glob.c:230-237 | the case folding of glob_case_match changes exactly the upper-case ASCII letters |
| Glob.NoTokensAt | mingwrt/mingwex/glob.c:113-190 | scanning a pattern free of '*', '?' and '[' never finds a glob pattern |
| Glob.IsGlobAt | mingwrt/mingwex/glob.c:113-190 | the scan reports a glob pattern only when a '*', '?' or ']' lies ahead |
| Glob.IsGlobPattern | mingwrt/mingwex/glob.c:113-190 | is_glob_pattern() accepts only a pattern holding a '*', '?' or ']' |
| Glob.PlainNameIsNoPattern | mingwrt/mingwex/glob.c:113-190 | is_glob_pattern() rejects a plain name |
| Glob.WildcardAt | mingwrt/mingwex/glob.c:133-156 | a '*' or '?' reached outside any set makes the scan succeed |
| Glob.WildcardMakesPattern | mingwrt/mingwex/glob.c:113-190 | a wild card preceded only by ordinary characters makes a glob pattern |
| Glob.SetAdjusted | mingwrt/mingwex/glob.c:192-228 | glob_set_adjusted() returns the position just past a ']' further on, or NULL |
| Glob.SetAdjustedReaches | mingwrt/mingwex/glob.c:192-228 | over a body with no NUL, no ']' and no active escape, glob_set_adjusted() returns the position just past the closing ']' |
| Glob.InSetLoop | mingwrt/mingwex/glob.c:278-346 | the set scan resumes past the set or fails |
| Glob.InSet | mingwrt/mingwex/glob.c:239-347 | glob_in_set() resumes past the set or fails |
| Glob.LeadingBracketIsLiteral | mingwrt/mingwex/glob.c:261-276 | a ']' or '-' first in a set stands for itself |
| Glob.RangeSet | mingwrt/mingwex/glob.c:283-312 | a one-range set matches exactly the characters between its ends, ascending or descending, and resumes after the ']' |
| Glob.UnterminatedAdjust | mingwrt/mingwex/glob.c:206-222 | without a later ']' glob_set_adjusted() returns NULL |
| Glob.UnterminatedLoop | mingwrt/mingwex/glob.c:278-326 | without a later ']' the set scan fails |
| Glob.UnterminatedSetFails | mingwrt/mingwex/glob.c:239-347 | a set with no closing ']' never matches |
| Glob.SeparatorNotListed | mingwrt/mingwex/glob.c:278-326 | a set whose body, up to its closing ']', lists no range reports a mismatch for '/' and '\': the scan reaches the ']' without a hit |
| Glob.ListedSetRejectsSeparator | mingwrt/mingwex/glob.c:259-326 | a whole set listing one or more plain characters and no range never matches '/' or '\' |
| Glob.RangeSpansSeparator | mingwrt/mingwex/glob.c:283-326 | as written a range is tried before the separator check, so "[.-0]" matches '/' |
| Glob.SetNeverMatchesSeparator | mingwrt/mingwex/glob.c:427-463 | with the corrected set step a '[' in the pattern never matches a directory separator of the text |
| Glob.SetNext | mingwrt/mingwex/glob.c:427-463 | the corrected set step: no set matches a directory separator, and an excluded set rejects a listed character; otherwise it resumes inside the pattern past the set, or fails |
| Glob.AsWrittenSetNext | mingwrt/mingwex/glob.c:439-456 | the set step as written may resume anywhere up to one past the pattern |
| Glob.SkipStars | mingwrt/mingwex/glob.c:394-398 | skipping a run of '*' lands on the first other character |
| Glob.LeadingPeriod | mingwrt/mingwex/glob.c:364-371 | a name starting with '.' needs an explicit '.' unless GLOB_PERIOD is set |
| Glob.GlobStrcmp | mingwrt/mingwex/glob.c:349-371 | a match of a name starting with '.' without GLOB_PERIOD needs a pattern starting with '.' |
| Glob.QuestionMark | mingwrt/mingwex/glob.c:381-389 | '?' fails at the end of the name and otherwise takes exactly one character |
| Glob.StarsCollapse | mingwrt/mingwex/glob.c:394-398 | consecutive '*' mean what one does |
| Glob.TrailingStar | mingwrt/mingwex/glob.c:402-408 | a trailing '*' matches whatever remains |
| Glob.StarScan | mingwrt/mingwex/glob.c:419-425 | the '*' loop succeeds iff the rest of the pattern, with GLOB_PERIOD set, matches some suffix of the name |
| Glob.RefStars | mingwrt/mingwex/glob.c:391-425 | under the reference semantics a run of '*' means one '*' |
| Glob.LoopIsRef | mingwrt/mingwex/glob.c:375-505 | on patterns of literals, '?' and '*' the matching loop equals the reference semantics |
| Glob.StarCaseIsRef | mingwrt/mingwex/glob.c:391-425 | the '*' case of the loop equals the reference semantics |
| Glob.StarIsRef | mingwrt/mingwex/glob.c:419-420 | each attempt of the '*' loop is the reference semantics of the rest |
| Glob.RefIgnoresPeriod | mingwrt/mingwex/glob.c:419 | setting GLOB_PERIOD for the recursive call does not change the reference semantics |
| Glob.GlobStrcmpIsRef | mingwrt/mingwex/glob.c:349-506 | glob_strcmp() on simple patterns is the leading-period rule plus the reference semantics |
| Glob.ExcludedSetAsWritten | mingwrt/mingwex/glob.c:439-456 | "[!x]" matches "xx]" as written and does not with the corrected set step |
| Glob.ExcludedSetComplements | mingwrt/mingwex/glob.c:439-456 | the corrected excluded set rejects every character the plain set lists (the converse is ExcludedSetAccepts) |
| Glob.ExcludedSetAccepts | mingwrt/mingwex/glob.c:439-456 | in a corrected excluded set closed by a ']' over a plain body, a character is accepted, resuming just past the ']', iff it is no separator and the plain set does not list it |
| GlobVector.StoredLaid | mingwrt/mingwex/glob.c:600-606 | storing a path name over the terminating NULL and a NULL after it appends the name to gl_pathv's list and keeps the layout |
| GlobVector.GlobT.constructor | mingwrt/mingwex/glob.c:1369-1370 | a glob_t with its gl_offs, unsigned and with no vector |
| GlobVector.GlobT.Initialise | mingwrt/mingwex/glob.c:546-576 | gl_offs + 1 NULL slots and no path names, or GLOB_NOSPACE when malloc fails |
| GlobVector.GlobT.StoreEntry | mingwrt/mingwex/glob.c:586-615 | one more path name before a NULL, or GLOB_ABORTED with the vector unchanged for a NULL name or a failed realloc |
| GlobVector.GlobT.Register | mingwrt/mingwex/glob.c:1311-1325 | an unsigned glob_t is initialised and signed, even when the initial allocation fails; a signed one is left alone |
| GlobVector.GlobT.Free | mingwrt/mingwex/glob.c:1332-1345 | the corrected GLOB_FREE releases a signed glob_t and clears the signature, so a second globfree() does nothing |
| GlobVector.GlobT.AsWrittenFree | mingwrt/mingwex/glob.c:1332-1345 | GLOB_FREE as written keeps the signature, so a second call releases an already released vector |
| GlobVector.GlobT.StoreCollated | mingwrt/mingwex/glob.c:685-718 | the collator's path names are stored in in-order sequence; as far as memory lasts, exactly the first min(grants, size) of them |
| GlobVector.CollatedStores | mingwrt/mingwex/glob.c:694-710 | storing prev, entry and next in turn keeps the first path names of the whole in-order sequence |
| GlobVector.CollatedPrefix | mingwrt/mingwex/glob.c:694-710 | the three partial stores add up to one prefix of the in-order sequence |
| GlobVector.LessIrreflexive | mingwrt/mingwex/glob.c:645-649 | the byte-wise collating order is irreflexive |
| GlobVector.LessTransitive | mingwrt/mingwex/glob.c:645-649 | the byte-wise collating order is transitive |
| GlobVector.LessTotal | mingwrt/mingwex/glob.c:645-649 | any two different keys are ordered one way or the other |
| GlobVector.CollationIsTotalPreorder | mingwrt/mingwex/glob.c:645-649 | collating after, with or without case, is a total preorder on path names |
| GlobVector.Insert | mingwrt/mingwex/glob.c:628-683 | glob_collate_entry() adds exactly the new entry to the collator |
| GlobVector.CollateEntry | mingwrt/mingwex/glob.c:653-682 | a failed malloc leaves the collator as it was, a successful one inserts the entry |
| GlobVector.InsertOrdered | mingwrt/mingwex/glob.c:637-678 | insertion keeps the collator ordered |
| GlobVector.OrderedSorted | mingwrt/mingwex/glob.c:685-718 | the in-order sequence of an ordered collator is sorted |
| GlobVector.BuildOrdered | mingwrt/mingwex/glob.c:628-683 | inserting a list of matches keeps the collator ordered |
| GlobVector.BuildPermutes | mingwrt/mingwex/glob.c:628-683 | inserting a list of matches adds exactly those matches |
| GlobVector.CollatedIsSortedPermutation | mingwrt/mingwex/glob.c:628-718 | the collated flush yields every match exactly once, in collating order |
| GlobVector.EqualEntriesReversed | mingwrt/mingwex/glob.c:649-675 | a later entry collating equal to an earlier one is stored before it |
| GlobVector.InsertNotAfter | mingwrt/mingwex/glob.c:649-675 | an entry that does not collate after the root goes before it |
| GlobBrace.EscRun | mingwrt/mingwex/glob.c:892-904 | a run of escape pairs ends at a character that is not an escape, within the pattern |
| GlobBrace.BraceAt | mingwrt/mingwex/glob.c:889-996 | the common-prefix scan stops at an unescaped '{' that opens a group with a comma at its own level |
| GlobBrace.AltEnd | mingwrt/mingwex/glob.c:746-784 | the corrected copy of one alternative stops at a comma at depth one or at the closing brace, or at the end of the pattern with a level still open |
| GlobBrace.AsWrittenAltEnd | mingwrt/mingwex/glob.c:746-784 | the copy as written stops at the same kinds of place, though an escape right after an escape pair protects nothing |
| GlobBrace.SkipAlts | mingwrt/mingwex/glob.c:801-826 | the skip over the remaining alternatives stops at the closing brace, or at the end of the pattern with a level still open |
| GlobBrace.Tail | mingwrt/mingwex/glob.c:836-841 | the copied suffix is the C string after the closing brace |
| GlobBrace.Finish | mingwrt/mingwex/glob.c:797-854 | the expansion resumes where the alternative stopped and, on success, fits in the sub-pattern buffer and is made of pattern characters |
| GlobBrace.BraceExpand | mingwrt/mingwex/glob.c:732-855 | glob_brace_expand() advances, fits its buffer and, on success, resumes at a comma or the closing brace; alternatives end where the corrected AltEnd says, so an escaped comma stays in its alternative |
| GlobBrace.AsWrittenBraceExpand | mingwrt/mingwex/glob.c:732-855 | glob_brace_expand() as written advances |
| GlobBrace.Series | mingwrt/mingwex/glob.c:1001-1036 | the loop globs one pattern per alternative until one ends at the closing brace or expansion fails; only the last can be a failure; alternatives are split by the corrected AltEnd, so an escaped comma stays in its alternative |
| GlobBrace.SeriesChars | mingwrt/mingwex/glob.c:1001-1036 | every pattern of the series is made of prefix and pattern characters |
| GlobBrace.JoinChars | mingwrt/mingwex/glob.c:1001-1036 | a group of plain alternatives holds only plain characters and commas |
| GlobBrace.LookFlat | mingwrt/mingwex/glob.c:913-974 | the look-ahead over a flat group finds a comma iff the group holds one |
| GlobBrace.BraceAtFlat | mingwrt/mingwex/glob.c:889-996 | the prefix scan passes over ordinary characters to the group |
| GlobBrace.AltEndFlat | mingwrt/mingwex/glob.c:746-784 | a plain alternative stops at the following separator |
| GlobBrace.SkipFlat | mingwrt/mingwex/glob.c:801-826 | the skip over plain alternatives reaches the closing brace |
| GlobBrace.TailWhole | mingwrt/mingwex/glob.c:836-841 | without a NUL the suffix is the whole rest |
| GlobBrace.FirstAltEnds | mingwrt/mingwex/glob.c:746-784 | the first alternative of a flat group ends at the following comma or brace |
| GlobBrace.RestSkipped | mingwrt/mingwex/glob.c:801-841 | the remaining alternatives are skipped and the suffix after the brace is copied |
| GlobBrace.ExpandAtComma | mingwrt/mingwex/glob.c:797-841 | an alternative stopping at a comma expands to itself and the suffix after the closing brace |
| GlobBrace.ExpandAtBrace | mingwrt/mingwex/glob.c:830-841 | an alternative stopping at the closing brace expands to itself and the suffix |
| GlobBrace.FirstExpansion | mingwrt/mingwex/glob.c:732-855 | on a flat group glob_brace_expand() yields the first alternative and the suffix, and resumes at the rest of the group |
| GlobBrace.LastExpansion | mingwrt/mingwex/glob.c:732-855 | the last alternative yields itself and the suffix and stops at the brace |
| GlobBrace.MoreExpansion | mingwrt/mingwex/glob.c:732-855 | a non-last alternative yields itself and the suffix and resumes at a comma before the rest |
| GlobBrace.SeriesCons | mingwrt/mingwex/glob.c:1007-1036 | an alternative ending at a comma is followed by the series from that comma |
| GlobBrace.SeriesLast | mingwrt/mingwex/glob.c:1007-1036 | an alternative ending at the brace is the last |
| GlobBrace.Substituted | mingwrt/mingwex/glob.c:1001-1036 | prefix + alternative + suffix for each alternative, in order |
| GlobBrace.SeriesFlat | mingwrt/mingwex/glob.c:1001-1036 | the loop over a flat group globs prefix + alternative + suffix for each alternative |
| GlobBrace.FlatGroupExpands | mingwrt/mingwex/glob.c:874-1036 | a pattern with one flat group of two or more alternatives expands into each substitution in order |
| GlobBrace.FlatGroupFound | mingwrt/mingwex/glob.c:913-983 | two or more plain alternatives make the group expandable |
| GlobBrace.SingleAlternativeIsLiteral | mingwrt/mingwex/glob.c:913-983 | a group with one alternative is not expanded |
| GlobBrace.AsWrittenSplitsEscapedComma | mingwrt/mingwex/glob.c:755-769 | as written, a comma after a second escape ends the first alternative |
| GlobBrace.EscapedCommaKept | mingwrt/mingwex/glob.c:755-769 | with escape pairs kept whole the same group has two alternatives |
| GlobMatch.GlobStrdup | mingwrt/mingwex/glob.c:85-97 | glob_strdup() gives the copy with every unescaped DEL escape removed and the character after it kept, ending at the NUL; NULL when malloc fails |
| GlobMatch.Unescape | mingwrt/mingwex/glob.c:85-97 | the copy glob_strdup() makes is never longer than the original |
| GlobMatch.UnescapePlain | mingwrt/mingwex/glob.c:85-97 | a string without escapes and NUL is copied unchanged |
| GlobMatch.Worst | mingwrt/mingwex/glob.c:1004-1036 | the combined status of two iterations is the more severe of the two |
| GlobMatch.BraceStatus | mingwrt/mingwex/glob.c:1004-1036 | the corrected brace status is GLOB_NOMATCH iff every iteration matched nothing, GLOB_ABORTED iff one aborted, and always the status of some iteration |
| GlobMatch.BraceStatusSnoc | mingwrt/mingwex/glob.c:1013 | each iteration folds its status into the corrected brace status |
| GlobMatch.AsWrittenBraceStatus | mingwrt/mingwex/glob.c:1013 | as written the brace status is one iteration's status (the last) |
| GlobMatch.MatchesFrom | mingwrt/mingwex/glob.c:1166-1176 | the glob_strdup() copies of the names glob_strcmp() accepts, in directory order, each the copy of a matching name of the listing |
| GlobMatch.ScanStep | mingwrt/mingwex/glob.c:1166-1237 | one readdir entry: a name that does not match changes nothing; a match turns GLOB_NOMATCH into another status and adds at most the glob_strdup() copy of that name |
| GlobMatch.Flush | mingwrt/mingwex/glob.c:1256-1264 | flushing the collator keeps the scan's status and uses no more memory than is left |
| GlobMatch.ScanDirectory | mingwrt/mingwex/glob.c:1160-1242 | the readdir loop over one directory leaves gl_pathv, the memory and the collator as the reference scan says |
| GlobMatch.ScanEntry | mingwrt/mingwex/glob.c:1171-1237 | one readdir entry updates gl_pathv, the memory and the collator as the reference step says |
| GlobMatch.MatchDir | mingwrt/mingwex/glob.c:1150-1265 | one prefix directory: opendir, the readdir loop, GLOB_ERR or errfn on failure, and the collator flush, as the reference step says |
| GlobMatch.MatchDirs | mingwrt/mingwex/glob.c:1146-1266 | the loop over the prefix directories, each scanned unless an earlier one aborted, as the reference loop says |
| GlobMatch.MatchLeaf | mingwrt/mingwex/glob.c:1048-1273 | glob_match() on a pattern without a directory prefix appends what the reference Leaf says, names and the GLOB_NOCHECK literal as glob_strdup() copies, and returns its status |
| GlobMatch.MatchInDot | mingwrt/mingwex/glob.c:1117-1273 | once "." is the only directory, the stored entries are glob_strdup() copies of bare names, or of the GLOB_NOCHECK literal, as the reference says |
| GlobMatch.GlobMatch | mingwrt/mingwex/glob.c:858-1274 | glob_match() on a pattern without a directory prefix appends exactly the reference result, brace expansion included, each entry a glob_strdup() copy |
| GlobMatch.SeriesNoPrefix | mingwrt/mingwex/glob.c:1001-1036 | the expansions of a pattern without a directory prefix have none either |
| GlobMatch.MatchBraces | mingwrt/mingwex/glob.c:1001-1036 | the GLOB_BRACE loop globs each expansion in turn, stopping after an abort, and returns the corrected combined status |
| GlobMatch.MatchBrace | mingwrt/mingwex/glob.c:1007-1036 | one iteration: an unterminated group aborts, any other alternative is globbed; the loop stops after an abort |
| GlobMatch.MatchAlternative | mingwrt/mingwex/glob.c:1007-1019 | globbing one expansion adds its matches and folds its status into the combined one |
| GlobMatch.MingwGlob | mingwrt/mingwex/glob.c:1353-1391 | __mingw_glob() clears gl_offs without GLOB_DOOFFS, registers the glob_t, globs, and under GLOB_NOCHECK falls back to the pattern's glob_strdup() copy; when registration finds no memory, glob_match() finds none either and the status is GLOB_NOSPACE |
| GlobMatch.GlobRegistered | mingwrt/mingwex/glob.c:1379-1390 | after registration, glob_match() and then the GLOB_NOCHECK fallback storing the pattern's glob_strdup() copy, as the reference call says |
| GlobMatch.StorePattern | mingwrt/mingwex/glob.c:1386 | the pattern's glob_strdup() copy, without its escapes, is stored when both allocations succeed, and nothing is stored otherwise |
| GlobMatch.ScanSorted | mingwrt/mingwex/glob.c:1166-1237 | with enough memory a sorted scan collates exactly the matches and stores nothing yet |
| GlobMatch.SortedStep | mingwrt/mingwex/glob.c:1202-1228 | the glob_strdup() copy of a matching name is collated |
| GlobMatch.ScanUnsorted | mingwrt/mingwex/glob.c:1229-1235 | with enough memory a GLOB_NOSORT scan stores exactly the matches in directory order |
| GlobMatch.ScanOnlyMatches | mingwrt/mingwex/glob.c:1166-1237 | a scan only ever adds copies of names the pattern matches |
| GlobMatch.LeafSorted | mingwrt/mingwex/glob.c:1048-1273 | with enough memory the stored names are a sorted permutation of the matches; SUCCESS iff one matched |
| GlobMatch.LeafScans | mingwrt/mingwex/glob.c:1127-1264 | past the GLOB_NOCHECK literal case the leaf is the flushed scan of "." |
| GlobMatch.OneDir | mingwrt/mingwex/glob.c:1146-1266 | the loop over a single directory is one step |
| GlobMatch.FlushAll | mingwrt/mingwex/glob.c:685-718 | with enough memory the flush stores every collated name in order |
| GlobMatch.LeafUnsorted | mingwrt/mingwex/glob.c:1048-1273 | with enough memory GLOB_NOSORT stores the matches in directory order |
| GlobMatch.LeafUnreadable | mingwrt/mingwex/glob.c:1246-1252 | a directory that cannot be opened adds nothing and aborts under GLOB_ERR, else reports GLOB_NOMATCH |
| GlobMatch.LeafOnlyMatches | mingwrt/mingwex/glob.c:1133-1237 | the leaf stores only the pattern's copy (GLOB_NOCHECK literal) or copies of names the pattern matches |
| GlobMatch.ScanQuiet | mingwrt/mingwex/glob.c:1166-1237 | a scan still at GLOB_NOMATCH has stored nothing |
| GlobMatch.DirsQuiet | mingwrt/mingwex/glob.c:1146-1266 | the directory loop reports GLOB_NOMATCH only when it stored nothing |
| GlobMatch.NoMatchAddsNothing | mingwrt/mingwex/glob.c:858-1274 | a glob reporting GLOB_NOMATCH has appended nothing to gl_pathv |
| GlobMatch.RunNoMatch | mingwrt/mingwex/glob.c:1004-1036 | the brace loop keeps that property over its iterations |
| GlobMatch.RunStep | mingwrt/mingwex/glob.c:1007-1036 | one iteration of the brace loop |
| GlobMatch.BraceUnion | mingwrt/mingwex/glob.c:874-1036 | globbing pre{a,b}suf appends the matches of pre a suf, then those of pre b suf, and stops after the first when it aborts |
| GlobMatch.GroupOfTwo | mingwrt/mingwex/glob.c:889-1036 | pre{a,b}suf expands into pre a suf, then pre b suf |
| GlobMatch.PairExpands | mingwrt/mingwex/glob.c:889-1036 | a group of two plain alternatives expands into both substitutions |
| GlobMatch.ExpectedBrace | mingwrt/mingwex/glob.c:874-1044 | a pattern whose first expandable group is at b globs the series of that group |
| GlobMatch.RunTwo | mingwrt/mingwex/glob.c:1004-1036 | the loop over two patterns globs both unless the first aborts |
| GlobMatch.NocheckPlaceholder | mingwrt/mingwex/glob.c:1380-1390 | under GLOB_NOCHECK a glob matching nothing stores the pattern's glob_strdup() copy and still returns GLOB_NOMATCH |
| GlobMatch.LeafOnly | mingwrt/mingwex/glob.c:1038-1048 | a pattern without an expandable group is globbed as a leaf |
| GlobMatch.GlobsA | mingwrt/mingwex/glob.c:1048-1273 | "a" in a directory holding "a" stores "a" with SUCCESS |
| GlobMatch.GlobsB | mingwrt/mingwex/glob.c:1048-1273 | "b" in the same directory stores nothing with GLOB_NOMATCH |
| GlobMatch.AsWrittenBraceReportsNoMatch | mingwrt/mingwex/glob.c:1007-1036 | as written "{a,b}" stores "a" yet reports GLOB_NOMATCH |
| GlobMatch.BraceReportsSuccess | mingwrt/mingwex/glob.c:1007-1036 | with the corrected status "{a,b}" stores "a" and reports SUCCESS |
| GlobMatch.SuccessThenNoMatch | mingwrt/mingwex/glob.c:1013 | SUCCESS then GLOB_NOMATCH combine to SUCCESS |
| GlobMatch.ExpectedLeadingBrace | mingwrt/mingwex/glob.c:874-1044 | a pattern opening with an expandable group globs its series |
| GlobMatch.RunAB | mingwrt/mingwex/glob.c:1004-1036 | the two iterations over {a,b}: a matches, b does not |
| GlobMatch.SeriesAB | mingwrt/mingwex/glob.c:889-1036 | {a,b} is expandable and expands to a, then b |
| GlobMatch.QuotedPatternStoredPlain | mingwrt/mingwex/glob.c:1127-1141 | the quoted pattern DEL * . c is no glob pattern, and under GLOB_NOCHECK what is stored for it is "*.c" |
| PfOutput.Delivered | mingwrt/mingwex/stdio/pformat.c:284-306 | what __pformat_putc lets through is a prefix of the generated text: all of it without a limit, else the first quota characters |
| PfOutput.Stream.constructor | mingwrt/mingwex/stdio/pformat.c:2644-2654 | a stream with its destination, limit and quota, nothing counted or written |
| PfOutput.Stream.VisibleSnoc | mingwrt/mingwex/stdio/pformat.c:289-305 | one more character is delivered iff there is no limit or the quota exceeds the count |
| PfOutput.Stream.Putc | mingwrt/mingwex/stdio/pformat.c:284-306 | __pformat_putc() stores or writes c only within the quota, and counts it in any case |
| PfOutput.Stream.PutAll | mingwrt/mingwex/stdio/pformat.c:435-436 | the put loops pass the characters on in order |
| PfOutput.Stream.PutSpaces | mingwrt/mingwex/stdio/pformat.c:349-365 | the padding loops pass on that many blanks |
| PfOutput.Stream.PutChars | mingwrt/mingwex/stdio/pformat.c:309-366 | __pformat_putchars() passes on the field CharsText describes |
| PfOutput.Stream.PutField | mingwrt/mingwex/stdio/pformat.c:331-365 | blanks before the body unless '-', the body, then what is left of the width |
| PfOutput.Stream.Puts | mingwrt/mingwex/stdio/pformat.c:369-385 | __pformat_puts() prints a NULL string as "(null)" |
| PfOutput.Stream.WPutChars | mingwrt/mingwex/stdio/pformat.c:388-445 | __pformat_wputchars() passes on the field WideText describes |
| PfOutput.Stream.PutWideField | mingwrt/mingwex/stdio/pformat.c:408-444 | the width counts wide characters while the body is their conversion |
| PfOutput.Stream.PutWide | mingwrt/mingwex/stdio/pformat.c:432-437 | the conversion loop stops at the first wide character wcrtomb() rejects |
| PfOutput.Stream.WcPuts | mingwrt/mingwex/stdio/pformat.c:448-465 | __pformat_wcputs() prints a NULL string as "(null)" |
| PfOutput.Stream.EmitLifo | mingwrt/mingwex/stdio/pformat.c:786-791 | the digit buffer goes out last pushed first, ',' as the thousands separator |
| PfOutput.Stream.Int | mingwrt/mingwex/stdio/pformat.c:651-801 | __pformat_int() passes on the text IntText specifies |
| PfOutput.Stream.PutLifo | mingwrt/mingwex/stdio/pformat.c:926-931 | the buffer goes out reversed |
| PfOutput.Stream.XInt | mingwrt/mingwex/stdio/pformat.c:816-939 | the corrected __pformat_xint() passes on the text XIntText specifies |
| PfOutput.Field | mingwrt/mingwex/stdio/pformat.c:331-365 | a field is the body plus its padding |
| PfOutput.Clip | mingwrt/mingwex/stdio/pformat.c:322-327 | %c and %s take min(count, precision) characters when a precision is given |
| PfOutput.CharsTextShape | mingwrt/mingwex/stdio/pformat.c:309-366 | the field is the clipped string padded with blanks to the width, on the left or under '-' on the right |
| PfOutput.WcsLen | mingwrt/mingwex/stdio/pformat.c:464 | wcslen() counts the wide characters before the first zero |
| PfOutput.IntDigits | mingwrt/mingwex/stdio/pformat.c:675-736 | sign detection, the digit loop and the precision step leave the reference body |
| PfOutput.Frame | mingwrt/mingwex/stdio/pformat.c:738-800 | the width, zero fill and sign step lays the field out as the reference says |
| PfOutput.DecimalDigits | mingwrt/mingwex/stdio/pformat.c:695-720 | the digit loop leaves the reference LIFO buffer, grouping separators included |
| PfOutput.PushZeros | mingwrt/mingwex/stdio/pformat.c:728-729 | the zero loops append that many zeros |
| PfOutput.EmittedAppend | mingwrt/mingwex/stdio/pformat.c:786-791 | the emission reverses, so a concatenation goes out back to front |
| PfOutput.EmittedLength | mingwrt/mingwex/stdio/pformat.c:635-646 | with a one-byte separator each buffer character becomes one output character |
| PfOutput.IntDecimal | mingwrt/mingwex/stdio/pformat.c:695-791 | without grouping the emitted digits are the decimal numeral of the value |
| PfOutput.IntRoundTrip | mingwrt/mingwex/stdio/pformat.c:695-791 | reading the emitted digits back gives the value converted |
| PfOutput.IntShape | mingwrt/mingwex/stdio/pformat.c:738-800 | %d's field is the sign, the digits after the precision step, and the width filled with zeros only for '0' without '-' or a precision |
| PfOutput.FrameText | mingwrt/mingwex/stdio/pformat.c:738-800 | the laid-out field emits as the reference field text |
| PfOutput.FrameZeroFill | mingwrt/mingwex/stdio/pformat.c:749-757 | the zero-fill case |
| PfOutput.FrameRight | mingwrt/mingwex/stdio/pformat.c:758-765 | the right-justified case |
| PfOutput.FrameLeft | mingwrt/mingwex/stdio/pformat.c:793-800 | the left-justified case |
| PfOutput.IntWidth | mingwrt/mingwex/stdio/pformat.c:738-800 | with a one-byte separator the field is the width, or the sign and digits when longer |
| PfOutput.PrecisionText | mingwrt/mingwex/stdio/pformat.c:722-729 | the precision step pads with leading zeros up to the precision |
| PfOutput.IntPrecision | mingwrt/mingwex/stdio/pformat.c:722-729 | a nonzero value is zero-padded up to the precision |
| PfOutput.IntZero | mingwrt/mingwex/stdio/pformat.c:731-736 | zero prints as "0", as nothing with precision 0, or as precision zeros |
| PfOutput.PlainDigits | mingwrt/mingwex/stdio/pformat.c:695-736 | without precision and grouping the digits are the numeral of the magnitude |
| PfOutput.SignedMagnitude | mingwrt/mingwex/stdio/pformat.c:675-691 | the negative flag reads the value as two's complement 64-bit |
| PfOutput.SignedDecimal | mingwrt/mingwex/stdio/pformat.c:651-801 | a plain %d prints the signed 64-bit value with '-' when negative |
| PfOutput.GroupEvery | mingwrt/mingwex/stdio/pformat.c:699-713 | with grouping string [n] the loop counter runs through the groups |
| PfOutput.IntGrouped | mingwrt/mingwex/stdio/pformat.c:699-713 | "'" with grouping [n] puts a separator between every n digits |
| PfOutput.UngroupedTail | mingwrt/mingwex/stdio/pformat.c:695-720 | without grouping no separator is placed |
| PfOutput.GroupStops | mingwrt/mingwex/stdio/pformat.c:705-707 | a CHAR_MAX entry stops grouping after one more separator |
| PfOutput.Reversed | mingwrt/mingwex/stdio/pformat.c:926-931 | reversal keeps the length |
| PfOutput.XDigitLoop | mingwrt/mingwex/stdio/pformat.c:831-842 | the digit loop leaves the reference digits, least significant first |
| PfOutput.XIntDigits | mingwrt/mingwex/stdio/pformat.c:844-874 | the zero test and precision step leave the corrected reference body |
| PfOutput.XFrame | mingwrt/mingwex/stdio/pformat.c:876-938 | width, zero fill and prefix lay the field out as the reference says |
| PfOutput.ReversedAppend | mingwrt/mingwex/stdio/pformat.c:926-931 | reversal of a concatenation |
| PfOutput.XDigitRead | mingwrt/mingwex/stdio/pformat.c:839-840 | a digit character reads back as its value |
| PfOutput.XRoundTrip | mingwrt/mingwex/stdio/pformat.c:831-931 | reading the emitted digits back in the radix gives the value converted |
| PfOutput.XCase | mingwrt/mingwex/stdio/pformat.c:839-840 | 'X' spells digits above nine in upper case, 'x' and 'o' in lower case |
| PfOutput.XIntWidth | mingwrt/mingwex/stdio/pformat.c:876-938 | the field is the width, or the digits and prefix when longer |
| PfOutput.XPrefix | mingwrt/mingwex/stdio/pformat.c:844-915 | "%#x" of a nonzero value is "0x" and the digits; of zero, a lone "0" |
| PfOutput.XZero | mingwrt/mingwex/stdio/pformat.c:868-874 | zero without a precision prints "0" |
| PfOutput.XUnpadded | mingwrt/mingwex/stdio/pformat.c:926-931 | without width or prefix the text is the buffer, most significant first |
| PfOutput.XOctal | mingwrt/mingwex/stdio/pformat.c:851-866 | "%#o" starts with a zero: zeros up to the precision, or one extra |
| PfOutput.ReversedZeros | mingwrt/mingwex/stdio/pformat.c:856-857 | zeros read the same both ways |
| PfOutput.HashedOctalZero | mingwrt/mingwex/stdio/pformat.c:844-874 | "%#.0o" of zero prints nothing as written and "0" corrected |
| PfIndex.Imul10Plus | mingwrt/mingwex/stdio/pformat.c:1961-1962 | __pformat_imul10plus() stays a 32-bit int |
| PfIndex.DecValueHead | mingwrt/mingwex/stdio/pformat.c:1977-1989 | the leading digit of a run weighs ten to the run's length less one |
| PfIndex.AccumulateFrom | mingwrt/mingwex/stdio/pformat.c:1961-1962 | digit-by-digit accumulation from t gives t times a power of ten plus the run's value, while that fits an int |
| PfIndex.AccumulateDecimal | mingwrt/mingwex/stdio/pformat.c:1961-1962 | a width or precision read after PFORMAT_IGNORE or zero is the decimal value of its digits |
| PfIndex.Decimal | mingwrt/mingwex/stdio/pformat.c:695-720 | the decimal numeral of n is a non-empty run of digits |
| PfIndex.DecimalValue | mingwrt/mingwex/stdio/pformat.c:695-720 | the numeral reads back as n |
| PfIndex.DigitEnd | mingwrt/mingwex/stdio/pformat.c:2339-2340 | the first non-digit at or after i, with only digits before it |
| PfIndex.SkipDigits | mingwrt/mingwex/stdio/pformat.c:2339-2340 | the digit-skipping loop stops where DigitEnd says |
| PfIndex.RunValueSlice | mingwrt/mingwex/stdio/pformat.c:1977-1989 | the run's accumulated value is the decimal value of the slice |
| PfIndex.RunValueGrows | mingwrt/mingwex/stdio/pformat.c:1977-1989 | reading more digits never lowers the value |
| PfIndex.IndexAt | mingwrt/mingwex/stdio/pformat.c:1965-1995 | __pformat_read_arg_index() stops after the digits; the index is nonzero iff their value is 1 .. NL_ARGMAX and a '$' follows, and then it is that value |
| PfIndex.ReadArgIndex | mingwrt/mingwex/stdio/pformat.c:1965-1995 | the loop with its early exit above NL_ARGMAX gives what IndexAt says |
| PfIndex.DigitEndOfRun | mingwrt/mingwex/stdio/pformat.c:1986-1989 | a run of digits ends at its first non-digit |
| PfIndex.IndexRoundTrip | mingwrt/mingwex/stdio/pformat.c:1965-1995 | "%n$" for n in 1 .. NL_ARGMAX reads back as n, stopping at the '$' |
| PfIndex.ArgIndexAt | mingwrt/mingwex/stdio/pformat.c:2006-2018 | __pformat_arg_index() moves past the '$' when one ends the digits, and stays put otherwise |
| PfIndex.ArgIndex | mingwrt/mingwex/stdio/pformat.c:2006-2018 | the method gives what ArgIndexAt says |
| PfIndex.FlagsEnd | mingwrt/mingwex/stdio/pformat.c:2028-2035 | the corrected flag skip stops at the first non-flag, the NUL included |
| PfIndex.IgnoreFlags | mingwrt/mingwex/stdio/pformat.c:2028-2035 | the corrected flag-skipping loop stops where FlagsEnd says |
| PfIndex.AsWrittenFlagsEnd | mingwrt/mingwex/stdio/pformat.c:2033 | as written the flag skip never moves backwards, and treats the NUL as a flag |
| PfIndex.AsWrittenFlagsOverrun | mingwrt/mingwex/stdio/pformat.c:2033 | as written a format ending in "%" is scanned past its NUL; corrected it stops there |
| PfIndex.FieldEnd | mingwrt/mingwex/stdio/pformat.c:2038-2045 | past one '*', or past a run of digits |
| PfIndex.LookAhead | mingwrt/mingwex/stdio/pformat.c:2038-2045 | __pformat_look_ahead() stops where FieldEnd says |
| PfIndex.SpecBodyEnd | mingwrt/mingwex/stdio/pformat.c:2048-2056 | past flags, a width and an optional ".precision", within the string |
| PfIndex.LookAheadBeyondFlags | mingwrt/mingwex/stdio/pformat.c:2048-2056 | __pformat_look_ahead_beyond_flags() stops where SpecBodyEnd says |
| PfIndex.LengthModifier | mingwrt/mingwex/stdio/pformat.c:2059-2144 | a length modifier takes at most three characters; without one the scan stays put with the default length; the length is one of the Win32 classes |
| PfIndex.IsConversionType | mingwrt/mingwex/stdio/pformat.c:2165-2178 | double, integer and pointer conversions classify as such; NUL classifies as a pointer |
| PfIndex.StarAt | mingwrt/mingwex/stdio/pformat.c:2316-2334 | a '*' field's index is in 1 .. NL_ARGMAX and the scan moves past it |
| PfIndex.FieldAt | mingwrt/mingwex/stdio/pformat.c:2316-2365 | a width or precision field is an indexed '*' or digits |
| PfIndex.IndexedAt | mingwrt/mingwex/stdio/pformat.c:2303-2372 | the fields of an indexed specification lie within the string and their indices within NL_ARGMAX |
| PfIndex.ArgcStep | mingwrt/mingwex/stdio/pformat.c:2236-2397 | one pass raises the count to at most NL_ARGMAX and never moves backwards |
| PfIndex.ArgcFrom | mingwrt/mingwex/stdio/pformat.c:2233-2408 | the count is 0 or at least the count so far, and at most NL_ARGMAX |
| PfIndex.ArgcScan | mingwrt/mingwex/stdio/pformat.c:2236-2397 | one pass of the loop does what ArgcStep says |
| PfIndex.ReadField | mingwrt/mingwex/stdio/pformat.c:2316-2365 | a width or precision field is read as FieldAt says |
| PfIndex.ReadIndexed | mingwrt/mingwex/stdio/pformat.c:2303-2372 | the fields after "%n$" are read as IndexedAt says |
| PfIndex.IndexedArgc | mingwrt/mingwex/stdio/pformat.c:2225-2409 | __pformat_indexed_argc() returns the reference count, never above NL_ARGMAX |
| PfIndex.ArgcPass | mingwrt/mingwex/stdio/pformat.c:2233-2402 | one pass either gives up with 0, ends the scan, or continues it with the same final count |
| PfIndex.ArgcUnfold | mingwrt/mingwex/stdio/pformat.c:2233-2402 | the count from a position unfolds through one pass |
| PfIndex.SizeofArgument | mingwrt/mingwex/stdio/pformat.c:2412-2446 | an argument takes 4, 8 or 12 bytes; 12 exactly for a long double |
| PfIndex.SlotSize | mingwrt/mingwex/stdio/pformat.c:2412-2446 | a stored entry is read back as 4, 8 or 12 bytes |
| PfIndex.Update | mingwrt/mingwex/stdio/pformat.c:2574-2584 | a reference leaves its argument classified |
| PfIndex.Mark | mingwrt/mingwex/stdio/pformat.c:2593-2595 | marking '*' arguments keeps the map's size |
| PfIndex.ParseStep | mingwrt/mingwex/stdio/pformat.c:2462-2617 | a pass resumes within the string, and a recorded conversion has an index and a known class |
| PfIndex.Apply | mingwrt/mingwex/stdio/pformat.c:2565-2596 | updating keeps the map's size |
| PfIndex.Parse | mingwrt/mingwex/stdio/pformat.c:2459-2618 | the scan finds at least one reference or non-reference |
| PfIndex.Fold | mingwrt/mingwex/stdio/pformat.c:2459-2618 | applying references keeps the map's size |
| PfIndex.ApplyClassifies | mingwrt/mingwex/stdio/pformat.c:2565-2596 | a reference classifies exactly the arguments it names and keeps the others' state |
| PfIndex.MarkClassifies | mingwrt/mingwex/stdio/pformat.c:2593-2595 | '*' marks classify exactly their arguments |
| PfIndex.FoldClassifies | mingwrt/mingwex/stdio/pformat.c:2459-2618 | after the scan an argument is classified iff some reference names it |
| PfIndex.ArgMap | mingwrt/mingwex/stdio/pformat.c:2449-2638 | the map holds one entry per counted argument |
| PfIndex.Cleared | mingwrt/mingwex/stdio/pformat.c:2457 | the first loop leaves argc unclassified entries |
| PfIndex.ParseUnfold | mingwrt/mingwex/stdio/pformat.c:2459-2618 | the scan is the first reference's update followed by the scan after it |
| PfIndex.StepFits | mingwrt/mingwex/stdio/pformat.c:2236-2617 | where the counting pass goes on, the mapping pass resumes at the same place and names no argument beyond the count |
| PfIndex.ParseBounded | mingwrt/mingwex/stdio/pformat.c:2225-2618 | every reference of the mapping scan lies within the count, so the map is never indexed out of range |
| PfIndex.ParseCons | mingwrt/mingwex/stdio/pformat.c:2459-2618 | the scan is the reference found, then the scan after it |
| PfIndex.MapScan | mingwrt/mingwex/stdio/pformat.c:2462-2617 | one pass updates the map array as Apply says |
| PfIndex.ReadStep | mingwrt/mingwex/stdio/pformat.c:2462-2566 | the reading half of a pass gives what ParseStep says |
| PfIndex.Record | mingwrt/mingwex/stdio/pformat.c:2574-2596 | recording a conversion updates the map array as Apply says |
| PfIndex.Argmap | mingwrt/mingwex/stdio/pformat.c:2449-2638 | __pformat_argmap() fills the map as ArgMap says and returns argc, or 0 when an argument is left unclassified |
| PfIndex.ScanMap | mingwrt/mingwex/stdio/pformat.c:2459-2618 | the do-while scan applies every reference in turn |
| PfIndex.RemainingStep | mingwrt/mingwex/stdio/pformat.c:2459-2618 | each pass keeps the loop's invariant or ends with the final map |
| PfIndex.ScanOnce | mingwrt/mingwex/stdio/pformat.c:2459-2618 | one pass keeps the invariant and moves forward |
| PfIndex.CountClassified | mingwrt/mingwex/stdio/pformat.c:2627-2637 | the final check returns argc iff every argument is classified, else 0 |
| PfIndex.ClassCodeSize | mingwrt/mingwex/stdio/pformat.c:2412-2446 | the class code stored reads back as the conversion's size |
| PfIndex.UpdateWidens | mingwrt/mingwex/stdio/pformat.c:2576-2584 | corrected, an argument's slot is the widest of its references |
| PfIndex.AsWrittenNarrows | mingwrt/mingwex/stdio/pformat.c:2576-2584 | as written "%1$Lf%1$f" leaves a 12-byte argument sized as 8 bytes |
| PfIndex.ArgmapAccepts | mingwrt/mingwex/stdio/pformat.c:2449-2638 | the map is complete iff the indices referenced cover 1 .. argc without a gap |
| PFormat.UnsignedArg | mingwrt/mingwex/stdio/pformat.c:2863-2898 | an unsigned argument is read as 64 bits, cut to 16 bits for "h" and 8 bits for "hh" |
| PFormat.Short | mingwrt/mingwex/stdio/pformat.c:2939-2943 | conversion to short keeps the value modulo 2^16 in -32768 .. 32767 |
| PFormat.SChar | mingwrt/mingwex/stdio/pformat.c:2944-2948 | conversion to signed char keeps the value modulo 2^8 in -128 .. 127 |
| PFormat.SignedArg | mingwrt/mingwex/stdio/pformat.c:2916-2949 | a signed argument is a 64-bit value, and a 32-bit one unless "ll" |
| PFormat.IndexOrNone | mingwrt/mingwex/stdio/pformat.c:2758-2765 | an index "n$" is read only when the format is processed positionally, and stays within NL_ARGMAX |
| PFormat.StarStep | mingwrt/mingwex/stdio/pformat.c:3199-3251 | '*' reads a width or precision and moves on |
| PFormat.SpecStep | mingwrt/mingwex/stdio/pformat.c:2778-3353 | one pass of the switch moves on, or ends at a conversion character |
| PFormat.ParseFrom | mingwrt/mingwex/stdio/pformat.c:2777-3353 | the inner loop ends at a conversion character, or runs out at the NUL |
| PFormat.ParseAt | mingwrt/mingwex/stdio/pformat.c:2740-3353 | the specification at a '%' ends past it at a conversion character, or runs out at the NUL |
| PFormat.RenderCons | mingwrt/mingwex/stdio/pformat.c:2733-3362 | rendering an item then more is its output then the rest's, counted after it |
| PFormat.SpecSwitch | mingwrt/mingwex/stdio/pformat.c:2778-3353 | one pass of the switch does what SpecStep says |
| PFormat.LengthStep | mingwrt/mingwex/stdio/pformat.c:3118-3160 | a length modifier, with "l" for long double under the Microsoft quirks, does what SpecStep says |
| PFormat.Star | mingwrt/mingwex/stdio/pformat.c:3199-3251 | the '*' case does what StarStep says |
| PFormat.ParseSpec | mingwrt/mingwex/stdio/pformat.c:2777-3353 | the inner loop does what ParseFrom says |
| PFormat.Convert | mingwrt/mingwex/stdio/pformat.c:2785-3112 | the conversion's handler passes on ConversionText, and %n records the count at its length |
| PFormat.Emitted | mingwrt/mingwex/stdio/pformat.c:2733-3362 | once an item's text is written, what is left is the rest's rendering |
| PFormat.EmittedAt | mingwrt/mingwex/stdio/pformat.c:2733-3362 | the same, with the count after the item given |
| PFormat.ItemsAtPercent | mingwrt/mingwex/stdio/pformat.c:2740-3353 | at a '%' the items are the conversion, or a literal '%' when rejected, or nothing when cut short |
| PFormat.ParseSpecAt | mingwrt/mingwex/stdio/pformat.c:2740-2777 | the index prefix and the inner loop give what ParseAt says |
| PFormat.ScanOne | mingwrt/mingwex/stdio/pformat.c:2733-3362 | one pass of the outer loop writes the next item and leaves the rest to render |
| PFormat.ScanSpec | mingwrt/mingwex/stdio/pformat.c:2740-3353 | a specification is converted, or rejected with its '%' copied, or cut short |
| PFormat.EmitItem | mingwrt/mingwex/stdio/pformat.c:2785-3360 | one item written leaves the rest to render |
| PFormat.IndexedArguments | mingwrt/mingwex/stdio/pformat.c:2665-2723 | the prescan counts the indexed arguments as IndexedCount says |
| PFormat.Scan | mingwrt/mingwex/stdio/pformat.c:2733-3362 | the format_scan loop writes the rendering of the format's items |
| PFormat.Format | mingwrt/mingwex/stdio/pformat.c:2640-3377 | __pformat() returns the full count and delivers the text within the limit to the FILE or the buffer, leaving the rest of the buffer alone; octal and hex use the corrected XIntText, and positional argument sizes the corrected (widening) ArgMap |
| PFormatLaws.RenderAppend | mingwrt/mingwex/stdio/pformat.c:2733-3362 | rendering a concatenation renders the parts in turn |
| PFormatLaws.RenderAppendStep | mingwrt/mingwex/stdio/pformat.c:2733-3362 | the inductive step of RenderAppend |
| PFormatLaws.LiteralRun | mingwrt/mingwex/stdio/pformat.c:3356-3360 | characters other than '%' and NUL are copied and store nothing |
| PFormatLaws.Literals | mingwrt/mingwex/stdio/pformat.c:3356-3360 | one literal item per character |
| PFormatLaws.ItemsLiteral | mingwrt/mingwex/stdio/pformat.c:3356-3360 | a plain run's items are its characters as literals |
| PFormatLaws.RenderLiterals | mingwrt/mingwex/stdio/pformat.c:3356-3360 | literal items print their characters |
| PFormatLaws.PlainFormat | mingwrt/mingwex/stdio/pformat.c:2733-3376 | a format without '%' prints itself up to its NUL |
| PFormatLaws.PercentParse | mingwrt/mingwex/stdio/pformat.c:2785-2795 | "%%" ends at its second '%' and reads no argument |
| PFormatLaws.PercentPercent | mingwrt/mingwex/stdio/pformat.c:2785-2795 | "%%" prints one '%' and keeps the argument cursor |
| PFormatLaws.UnknownDirective | mingwrt/mingwex/stdio/pformat.c:3344-3351 | "%y" prints "%y": the '%' is copied and the scan resumes after it |
| PFormatLaws.ItemsRejected | mingwrt/mingwex/stdio/pformat.c:3344-3351 | a rejected specification leaves a literal '%' |
| PFormatLaws.LiteralItem | mingwrt/mingwex/stdio/pformat.c:3356-3360 | any other character is copied |
| PFormatLaws.FlagsRunOut | mingwrt/mingwex/stdio/pformat.c:3257-3303 | flags alone never end a specification |
| PFormatLaws.FlagStep | mingwrt/mingwex/stdio/pformat.c:3257-3303 | a flag keeps the initial state |
| PFormatLaws.TrailingFlags | mingwrt/mingwex/stdio/pformat.c:2777 | "100%-" prints "100": a specification cut short prints nothing |
| PFormatLaws.IndexedCountIs | mingwrt/mingwex/stdio/pformat.c:2665-2672 | positional processing happens iff the count is positive and every index up to it is referenced |
| PFormatLaws.ArgcSkipsLiterals | mingwrt/mingwex/stdio/pformat.c:2233-2236 | the prescan passes over literals unchanged |
| PFormatLaws.UnindexedCount | mingwrt/mingwex/stdio/pformat.c:2246-2289 | a first specification without "n$" that ends in a conversion makes the format sequential |
| PFormatLaws.SwapCount | mingwrt/mingwex/stdio/pformat.c:2665-2672 | "%2$s%1$s" is processed with two arguments |
| PFormatLaws.AllReferenced | mingwrt/mingwex/stdio/pformat.c:2665-2672 | a count whose every index is referenced is the one __pformat uses |
| PFormatLaws.SwapParse | mingwrt/mingwex/stdio/pformat.c:2758-2765 | each specification of "%2$s%1$s" starts at its own index |
| PFormatLaws.PlainString | mingwrt/mingwex/stdio/pformat.c:2846-2861 | a plain %s prints the string up to its NUL |
| PFormatLaws.PrintfItems | mingwrt/mingwex/stdio/pformat.c:2733-3362 | the output is the rendering of the format's items |
| PFormatLaws.PositionalSwap | mingwrt/mingwex/stdio/pformat.c:2640-3377 | "%2$s%1$s" prints its two strings in reverse order |
| PFormatLaws.GapCount | mingwrt/mingwex/stdio/pformat.c:2627-2637 | "%2$d" leaves argument 1 unreferenced, so the format is sequential |
| PFormatLaws.GapParse | mingwrt/mingwex/stdio/pformat.c:3318-3351 | read sequentially, "%2$d" is rejected at the '$' |
| PFormatLaws.GapVerbatim | mingwrt/mingwex/stdio/pformat.c:2640-3377 | "%2$d" prints as it stands |
| PFormatLaws.RejectedVerbatim | mingwrt/mingwex/stdio/pformat.c:3344-3360 | a format whose one specification is rejected prints as it stands |
| PFormatLaws.StarWidth | mingwrt/mingwex/stdio/pformat.c:3199-3239 | "%*s" takes its width from the argument before the string; a negative width left-justifies |
| PFormatLaws.CountStored | mingwrt/mingwex/stdio/pformat.c:3079-3112 | "ab%n" prints "ab" and stores 2 |
| PFormatLaws.SignedRoundTrip | mingwrt/mingwex/stdio/pformat.c:2923-2927 | a 64-bit value stored as unsigned reads back unchanged |
| PFormatLaws.DecimalText | mingwrt/mingwex/stdio/pformat.c:2916-2954 | a plain %d prints the 32-bit value with '-' when negative, then its digits |
| PFormatLaws.SignedDecimalFormat | mingwrt/mingwex/stdio/pformat.c:2640-3377 | "%d" prints its argument, reduced to an int, in decimal |

## Left out

- Floating-point conversions of `__pformat` (`%e`, `%f`, `%g`, `%a` and their infinity and NaN forms) need the gdtoa digit converter and floating-point numerics. The text each one emits is the parameter `fp`.
- The locale queries of `__pformat` (`localeconv`, `mbrtowc`) and the `PRINTF_EXPONENT_DIGITS` environment lookup are foreign calls. The grouping, the thousands separator and the wide-character renderings are the `Locale` parameter.
- `va_list` handling is vararg machinery. The arguments are a tagged sequence, one element per `va_arg` read.
- The `int` character count of `__pformat` is unbounded here. An output longer than `INT_MAX` is undefined behaviour in C and is not modelled.
- VSnprintf.ReadBack: the read-back string is promised only for length up to 2^31. Beyond that the int quota is negative, nothing is stored, and what is read back depends on the buffer's old bytes; VSnprintf.NegativeQuota states that buffer.
- Writing to a `FILE` is modelled as the sequence of characters that reach it. Stream buffering and write errors are left out.
- `tsearch`, `tdelete` and the glob collator tree work on values: each call returns the new tree. Relinking nodes in place and pointers shared between trees are left out. The comparator is the three-way comparison of integer keys.
- `twalk` records its `action` calls as a sequence of visits. The action itself is a call into caller code.
- The `memalign.c` realloc and free paths (`__mingw_aligned_offset_realloc`, `__mingw_aligned_free`) depend on the msvcrt `realloc` and `_msize` and on raw reads of header memory. Only the header that `__mingw_memalign_base` reads back is modelled.
- The `dlfcn` emulation leaves out `dlsym`, the `dlfcn_init` enumeration of loaded modules through PSAPI, and the message text `FormatMessage` produces. A diagnostic records which message would be formatted.
- Dlfcn.DlState.DlOpen: a reallocation that grows `modules[]` but fails on `flags[]` is modelled as the table staying unchanged.
- Directory I/O in `glob()` (`opendir`, `readdir`, `stat`) is a given listing of names per directory. An `errfn` that asks to stop is folded into the GLOB_ERR flag.
- GlobMatch.MingwGlob: patterns with a directory prefix, meaning a `dirname()` other than ".", are not modelled. The recursion that globs the prefix first is left out.
- `GLOB_DIRONLY`, `GLOB_MARK` and the `GLOB_ISDIR` tests need `stat()` and are left out.
- Failures of `malloc`, `realloc` and `strdup` are an allocator that grants a fixed number of further requests.
- SetArgv.Mingw32Setargv: the older `_setargv` path, `_pgmptr`, and the `glob()` call with its option handling are left out. Each completed argument is appended, as prepared, to the argument vector.
- GetDelim.ReadLine: the `ferror` test after each successful `fgetc` is not modelled. The stream position and its end-of-file and error indicators are updated once, after the read loop.
- In `__mingw_crypto_tmpname`, the raw random byte the retry loop stores at the current position before testing it is folded into a single store of the accepted character.
- The bytes `CryptGenRandom` would deliver are a parameter, and running out of them stands for the generator failing. Acquiring and releasing the crypto provider is left out.
- WcharMap.WctombConvert: conversions outside code page 0 go through `WideCharToMultiByte`, a foreign call. Its result count and its invalid-character flag are parameters, and the bytes it would store are not modelled.
- For `wcrtomb`, the codeset and `MB_CUR_MAX` come from the locale and are parameters.
- `_EXPONENT_DIGIT_MASK` and `RTLD_GLOBAL` are defined in headers that are not part of this model, so they are parameters.
- Thread safety and the atomics some routines use are concurrency and are left out.

## Findings

| source | as written | input that shows it | evidently intended | confidence | as-written member | corrected member |
|---|---|---|---|---|---|---|
| mingwrt/mingwex/glob.c:439-456 | in `[!set]`, when the character is in the set, the pattern pointer is not moved past the set, so the set's body is then matched as literal text | pattern "[!x]" against the name "xx]" matches | a character in an excluded set is a mismatch | not executed | Glob.ExcludedSetAsWritten | Glob.ExcludedSetComplements |
| mingwrt/mingwex/math/random.c:156-157 | the Mersenne reduction of 16807*x folds once and adds 2^31-1 only when the int result is negative | x = 868985321 gives 6798; 16807*x mod (2^31-1) is 6800 | data[i] = 16807*data[i-1] mod (2^31-1) | not executed | Random.FoldStepCounterexample | Random.SeedStepIsLehmer |
| mingwrt/mingwex/math/random.c:185 | `initstate` with a non-NULL buffer and len < 8 still switches to that buffer, with a NULL state | `initstate(1, buf, 4)` | len < 8 is rejected and the state is left unchanged | not executed | Random.Prng.InitStateAsWritten | Random.Prng.InitState |
| mingwrt/mingwex/glob.c:1332-1346 | `globfree` frees the vector but leaves the magic signature set | calling `globfree` twice on one `glob_t` | a second `globfree` frees nothing | not executed | GlobVector.GlobT.AsWrittenFree | GlobVector.GlobT.Free |
| mingwrt/mingwex/memalign.c:383 | `want + padding` is computed in `size_t` and can wrap | want 0xFFFFFFF0 with 16-byte alignment asks `malloc` for 7 bytes | a request that does not fit in `size_t` fails with ENOMEM | not executed | MemAlign.RequestSizeWraps | MemAlign.Heap.AlignedOffsetMalloc |
| mingwrt/mingwex/stdio/getdelim.c:164 | the terminating NUL is stored even when nothing was read and no buffer was allocated | a NULL buffer of length 0 and an empty stream: the NUL is stored through NULL | store the NUL only into an allocated buffer | not executed | GetDelim.EmptyReadOverruns | GetDelim.ReadLine |
| mingwrt/mingwex/glob.c:755-769 | inside a brace alternative, an escape pair is copied, but the character right after it is then tested as a terminator without its own escape check | "{", ESC, "x", ESC, ",y,z}" with ESC the glob escape character 0x7F: the escaped comma ends the first alternative, which expands to ESC "x" ESC | an escaped comma stays part of the alternative | not executed | GlobBrace.AsWrittenSplitsEscapedComma | GlobBrace.EscapedCommaKept |
| mingwrt/mingwex/glob.c:1007-1036 | the status of a brace expansion is the status of its last alternative only | "{a,b}" with only the file "a" present reports GLOB_NOMATCH | success when any alternative matched | not executed | GlobMatch.AsWrittenBraceReportsNoMatch | GlobMatch.BraceReportsSuccess |
| mingwrt/mingwex/stdio/pformat.c:2033 | `strchr` also finds the NUL terminator, so the flag skip runs past the end of the format | "100%" is scanned beyond its terminating NUL | stop at the terminator | not executed | PfIndex.AsWrittenFlagsOverrun | PfIndex.IgnoreFlags |
| mingwrt/mingwex/stdio/pformat.c:2576-2584 | a later reference to an argument replaces its recorded size even when that size is smaller | "%1$Lf%1$f" sizes a 12-byte argument as 8 | keep the widest size referenced | not executed | PfIndex.AsWrittenNarrows | PfIndex.UpdateWidens |
| mingwrt/mingwex/stdio/pformat.c:844-874 | with `#` on octal, a zero value with precision 0 prints nothing | "%#.0o" with 0 prints "" | "0", as section 7.19.6.1 of ISO/IEC 9899:1999 requires | not executed | PfOutput.HashedOctalZero | PfOutput.Stream.XInt |
| mingwrt/mingwex/glob.c:283-326 | a range in a set is tried before the check that rejects a directory separator, so a range spanning '/' matches it | the set "[.-0]" against the character '/' | no set matches a directory separator (harmless for readdir names, which hold none) | not executed | Glob.RangeSpansSeparator | Glob.SetNeverMatchesSeparator |
