# SafeOperations in Dafny

A model of `src/SafeOps.c` from the SafeOperations C library. The library is a layer of
bounds-checked replacements for C standard-library operations, and the model proves what
each of those operations promises. It covers:

- the thread's last-error cell, which `SetError` updates and `SafeOpsGetLastError` reads;
- the allocation functions, which check size zero, then overflow, then allocator failure;
- the free functions, which clear the caller's pointer;
- the bounded length scans for narrow and wide strings;
- copy and concatenation for narrow and wide strings;
- `SafeMemCopy`, with memmove semantics;
- `SafeStrFind` and its "not found" sentinel;
- `SafeStrReplace`, a two-pass replace-all through a scratch buffer;
- checked indexed access, pointer offsets and integer arithmetic.

Files:

- `wrappers.dfy`: `Option`.
- `limits.dfy`: the C limits of an LP64 target: `SIZE_MAX`, `UINTPTR_MAX`,
  `INT_MIN`/`INT_MAX`, `LLONG_MIN`/`LLONG_MAX`, `sizeof(size_t)`, and Linux `EINVAL`
  and `EOVERFLOW`.
- `cstrings.dfy`: NUL-terminated strings over buffer contents. `StrLen` plays the
  role of strlen and `Splice` of memcpy.
- `search.dfy`: the pure meaning of strstr (`FirstMatch`), of the counting pass
  (`CountMatches`) and of the building pass (`ReplaceAll`), with their lemmas.
- `arith.dfy`: the range checks of `SafeAddInt`, `SafeCastLongLongToInt` and
  `SafePointerOffset`, as pure functions.
- `fileopts.dfy`: the pure choice of open flags in `SafeFOpen`.
- `safeops.dfy`: the class `SafeOps`, which holds the library's state, its methods, and
  the specification function `ReplaceSpec` of `SafeStrReplace`.
- `scenarios.dfy`: the concrete string and allocation scenarios of the test program.

The state sits in one object of class `SafeOps`:

- `lastError` is the last-error cell.
- `errno` is the C errno.
- `loggerInstalled` says whether a logger is set.
- The ghost sequence `reports` holds the codes passed to the logger.
- The ghost set `live` holds the allocations.

Functions that report only through errno leave `lastError` and `reports` out of their
`modifies` clauses, so their frame itself shows that they leave them alone.

C out-parameters become an `Option` result. `None` means that the function returned
false and wrote nothing. A nullable array `array?<char>` stands for a pointer that may be
NULL. Whether calloc or malloc succeeds is the parameter `allocatorSucceeds`.

Two facts about the code are worth stating on their own:

- The replace scenario of the test program gives length 29, which is `strlen("Hello, Everyone! How are you?")`.
- `SafeFreeTyped` sets only errno on a NULL argument; it does not call `SetError`.

## Model

| member | source | states |
|---|---|---|
| SafeOperations.SafeOps.constructor | src/SafeOps.c:44-45 | the last error starts as Ok, the logger is unset, nothing is allocated |
| SafeOperations.SafeOps.SetError | src/SafeOps.c:50-55 | the code is stored in the last-error cell and passed to the logger exactly when one is installed |
| SafeOperations.SafeOps.SafeOpsSetLogger | src/SafeOps.c:57-59 | installs or removes the logger |
| SafeOperations.SafeOps.SafeOpsGetLastError | src/SafeOps.c:61-63 | returns the last-error cell |
| SafeOperations.SafeOps.SafeMalloc | src/SafeOps.c:66-86 | size 0 gives InvalidParam; otherwise size > SIZE_MAX - sizeof(size_t) gives Overflow; otherwise allocator failure gives AllocationFailed; success returns a fresh all-zero buffer of the size, adds it to the live set and reports nothing |
| SafeOperations.SafeOps.SafeMallocUninitialized | src/SafeOps.c:88-106 | the same checks in the same order; success returns a fresh buffer of the size, with unspecified contents |
| SafeOperations.SafeOps.SafeFree | src/SafeOps.c:108-116 | a null cell or null pointer changes nothing; otherwise the allocation leaves the live set and the cell becomes null, so a second free is a no-op |
| SafeOperations.SafeOps.SafeFreeTyped | src/SafeOps.c:118-131 | returns false with errno EINVAL exactly on a null cell or pointer, and then frees nothing; otherwise zeroes the first size bytes, frees the allocation and nulls the cell; a non-null cell is null afterwards in both cases; lastError is untouched |
| SafeOperations.SafeOps.SafeMemCopy | src/SafeOps.c:137-159 | null gives NullPointer; srcSize > destSize gives OutOfBounds; every failure leaves dest unchanged; otherwise succeeds; dest then holds the pre-call source bytes at the destination offset, even when the regions overlap, and is unchanged elsewhere; an overlap only passes code Ok to the logger and never changes lastError |
| SafeOperations.SafeOps.SafeStrLen | src/SafeOps.c:162-180 | succeeds iff a NUL exists at an index <= maxLen, including maxLen itself; the result is the index of the first NUL; failure reports OutOfBounds (or NullPointer) and returns nothing |
| SafeOperations.SafeOps.SafeWStrLen | src/SafeOps.c:182-201 | the same contract for wide strings |
| SafeOperations.SafeOps.SafeStrCat | src/SafeOps.c:203-222 | null gives NullPointer; otherwise it succeeds iff dest is terminated within destSize, src is terminated, and destLen + srcLen < destSize; success writes src and its NUL at destLen, so the new C string is the old one followed by src; every failure leaves dest unchanged; the length of dest is scanned by StrLenBelow (see Findings) |
| SafeOperations.SafeOps.SafeStrCopy | src/SafeOps.c:224-237 | null or destSize 0 fails with errno EINVAL; srcLen >= destSize fails with errno EOVERFLOW; both leave dest unchanged; success puts src at the start and NUL in every byte up to destSize; lastError is untouched |
| SafeOperations.SafeOps.SafeWStrNCopy | src/SafeOps.c:239-265 | null gives NullPointer; destSize 0 gives InvalidParam; a src with no NUL within count is rejected, not truncated; otherwise it succeeds iff srcLen < destSize; success writes src and its NUL at index 0; failure leaves dest unchanged |
| SafeOperations.SafeOps.SafeWStrNCat | src/SafeOps.c:267-291 | null gives NullPointer; otherwise it succeeds iff dest is terminated within destSize, src is terminated within count, and destLen + srcLen < destSize; success appends src at destLen followed by NUL; every failure leaves dest unchanged; the length of dest is scanned by StrLenBelow (see Findings) |
| SafeOperations.SafeOps.StrLenBelow | src/SafeOps.c:168-179 | the corrected bounded scan: it reads only indices below maxLen, succeeds iff the first NUL lies below maxLen, returns its index, and otherwise reports OutOfBounds |
| SafeOperations.SafeOps.SafeStrFind | src/SafeOps.c:293-315 | a needle that is empty or longer than haystackLen gives InvalidParam; otherwise the result is the index of the first occurrence in the whole terminated haystack, or haystackLen when there is none |
| SafeOperations.FindIndex | src/SafeOps.c:307-313 | the result is an occurrence with no occurrence before it, or haystackLen when the needle does not occur |
| SafeOperations.FindIndexSentinel | src/SafeOps.c:308-310 | with haystackLen equal to the haystack's length, the sentinel is returned iff the needle does not occur |
| SafeOperations.SafeOps.SafeStrReplace | src/SafeOps.c:317-387 | null gives NullPointer; otherwise the result and the new buffer contents are those that ReplaceSpec gives and the error is reported; every failure, a null argument included, leaves the buffer unchanged; the scratch buffer is freed |
| SafeOperations.SafeOps.ReplaceThroughScratch | src/SafeOps.c:355-385 | the scratch allocation fails with Overflow or AllocationFailed and leaves the buffer untouched; otherwise the buffer holds the replaced string and its NUL at index 0 and is unchanged after that, and the scratch buffer is freed |
| SafeOperations.ReplaceSpec | src/SafeOps.c:325-353 | a failure is one of InvalidParam, OutOfBounds, Overflow, AllocationFailed; a success has a non-empty oldStr and a length equal to the final length and below strSize |
| SafeOperations.ReplaceSpecBuffer | src/SafeOps.c:378-385 | on success the buffer keeps its size, its C string is the replace-all of the old one, its terminator sits at the returned length, and bytes past it are unchanged |
| SafeOperations.ReplaceSelfUnchanged | src/SafeOps.c:317-387 | replacing X by X, when the scratch allocation can succeed, returns the original length and leaves the buffer as it was |
| SafeOperations.ReplaceOverCapacityFails | src/SafeOps.c:343-347 | a success always fits below strSize, and a result that would not fit fails with OutOfBounds |
| SafeOperations.Overlapping | src/SafeOps.c:149-150 | the overlap test: the same array, and either the source starts before the destination and runs into it, or the destination starts before the source and its destSize elements run into it |
| SafeOperations.OverlapDetected | src/SafeOps.c:148-157 | whenever the elements the copy reads and writes share one at different offsets, the test reports overlap |
| SafeOperations.PtrCell.constructor | src/SafeOps.c:108 | the cell a caller passes as `void **ptrRef` holds the pointer it is made with |
| SafeOperations.CountPass | src/SafeOps.c:335-340 | the counting loop yields the number of leftmost non-overlapping matches |
| SafeOperations.CopyInto | src/SafeOps.c:367 | a memcpy's effect: the bytes are written at the offset and the bytes around them are unchanged |
| SafeOperations.CopyMatch | src/SafeOps.c:365-375 | one iteration of the build loop keeps the result written so far followed by the rest still to build equal to the whole replace-all |
| SafeOperations.CopyMatches | src/SafeOps.c:362-376 | after the build loop, what is written followed by the unread rest of the string is the replace-all, and no match remains |
| SafeOperations.BuildPass | src/SafeOps.c:362-379 | the scratch buffer starts with the replace-all result followed by NUL |
| SafeOperations.SafeOps.SafeWriteInt | src/SafeOps.c:393-400 | fails with errno EINVAL iff the array is null or index >= arraySize, and then changes nothing; success changes only array[index]; lastError is untouched |
| SafeOperations.SafeOps.SafeReadInt | src/SafeOps.c:402-409 | fails with errno EINVAL iff the array is null or index >= arraySize; success returns array[index]; lastError is untouched |
| SafeOperations.SafeOps.SafePointerOffset | src/SafeOps.c:415-427 | the result is that of OffsetChecked; a NULL base sets errno EINVAL; any other NULL result sets errno EOVERFLOW |
| SafeOperations.SafeOps.SafeAddInt | src/SafeOps.c:433-453 | the result is that of AddChecked; overflow sets errno EOVERFLOW; lastError is untouched |
| SafeOperations.SafeOps.SafeCastLongLongToInt | src/SafeOps.c:455-466 | the result is that of CastChecked; an out-of-range value sets errno EOVERFLOW; lastError is untouched |
| CheckedArith.AddChecked | src/SafeOps.c:444-449 | succeeds iff INT_MIN <= a + b <= INT_MAX, and then gives the exact sum |
| CheckedArith.CastChecked | src/SafeOps.c:459-464 | succeeds iff the value is within int's range, and then gives it unchanged |
| CheckedArith.WrappingAdd | src/SafeOps.c:421 | the uintptr_t sum is below the base iff the true sum exceeds UINTPTR_MAX, and otherwise equals the true sum |
| CheckedArith.OffsetChecked | src/SafeOps.c:417-426 | non-NULL iff the base is non-NULL, offset <= baseSize and base + offset does not wrap, and then equals base + offset |
| CheckedArith.AddExamples | tests/test_SafeOps.c:227-239 | 5 + 3 = 8, and INT_MAX + 1 overflows |
| CheckedArith.CastExamples | tests/test_SafeOps.c:241-248 | 42 and INT_MAX narrow unchanged; INT_MAX + 1 is rejected |
| CStrings.FirstNulFrom | src/SafeOps.c:169-171 | the first NUL at or after an index: it is a NUL and none comes before it |
| CStrings.StrLen | src/SafeOps.c:228 | strlen: the index of a NUL with no NUL before it |
| CStrings.CStr | src/SafeOps.c:325-327 | the characters before the first NUL: they hold no NUL and are followed by one |
| CStrings.Splice | src/SafeOps.c:220 | memcpy into a buffer: the written range holds the copied bytes and everything else is unchanged |
| CStrings.StrLenIs | src/SafeOps.c:173-178 | a NUL at k with none before it makes k the string's length |
| CStrings.CStrOfSplice | src/SafeOps.c:234-235 | writing a NUL-free string and a NUL behind a NUL-free prefix makes the C string the prefix followed by that string |
| CStrings.TerminatedAtStart | src/SafeOps.c:262-263 | copying a string and its NUL to the start of a buffer makes it the buffer's C string and leaves the rest untouched |
| CStrings.UnterminatedScanReadsPast | src/SafeOps.c:169-173 | a buffer with no NUL, scanned with its own length as the bound, needs index bound itself, one past the buffer |
| CStrings.AppendedAtEnd | src/SafeOps.c:288-289 | writing a string and its NUL over the terminator appends it to the C string |
| Search.FirstMatch | src/SafeOps.c:307 | strstr from a position: a match lies at or after it and inside the string |
| Search.FirstMatchIsFirst | src/SafeOps.c:337 | strstr returns an occurrence with no earlier one, and returns none only when there is none |
| Search.CountFrom | src/SafeOps.c:337-340 | the matches counted from a position, each found by strstr and skipped by its length; they take no more room than the rest of the string |
| Search.CountMatches | src/SafeOps.c:335-340 | the count of the first pass; count * oldLen <= strLen |
| Search.ReplaceFrom | src/SafeOps.c:364-379 | the text the build loop writes from a read position: the chunk before each match, then the replacement, then the rest after the last match; its length is proved in ReplaceFromLength |
| Search.ReplaceAll | src/SafeOps.c:362-379 | the result of the building pass; with no match it is the string itself |
| Search.FirstMatchFound | src/SafeOps.c:364 | the found position holds the pattern |
| Search.ReplaceFromStep | src/SafeOps.c:364-375 | at a match, the result is the chunk before it, then the replacement, then the rest, and the count grows by one |
| Search.ReplaceFromDone | src/SafeOps.c:378-379 | with no match left, the rest is copied unchanged and nothing more is counted |
| Search.FinalLen | src/SafeOps.c:343 | strLen + count * (newLen - oldLen), computed exactly, is the length of the replace-all result |
| Search.ScaleIsProduct | src/SafeOps.c:343 | repeated addition of the per-match length change is the product |
| Search.ReplaceFromLength | src/SafeOps.c:343 | each replacement changes the length by newLen - oldLen, and everything else is copied |
| Search.CountZeroIffAbsent | src/SafeOps.c:350-353 | the count is zero iff the pattern does not occur |
| Search.ReplaceSelf | src/SafeOps.c:362-379 | replacing a pattern by itself gives back the string |
| Search.ReplaceNulFree | src/SafeOps.c:379-382 | the replace-all of NUL-free strings is NUL-free, so the NUL written after it ends the result |
| Search.FinalLenAsWritten | src/SafeOps.c:343 | the size_t value of strLen + count * (newLen - oldLen): it equals the exact value modulo 2^64, and the exact value itself when newLen >= oldLen and nothing wraps |
| Search.WrapCongruent | src/SafeOps.c:343 | the three reductions modulo 2^64 in turn give the exact value modulo 2^64, and the exact value when it is below 2^64 |
| Search.FinalLenWrapsPastCheck | src/SafeOps.c:343-344 | the size_t computation of the final length wraps to a value that passes the capacity check, although the true length is far larger |
| FileOpts.StreamAllowed | src/SafeOps.c:557 | the descriptor access fdopen accepts for a mode: read-write after a '+', otherwise read for 'r' and write for 'w' and 'a' |
| FileOpts.OpenFlagsAsWritten | src/SafeOps.c:521-529 | the flags as the code chooses them: no read-write access ever; write access exactly with O_CREAT; read-only exactly when the mode has no 'w' or 'a'; O_NOFOLLOW exactly when symlinks are not followed |
| FileOpts.PlusModeMismatch | src/SafeOps.c:521-557 | for "w+" and "r+" the descriptor's access is not one fdopen accepts for the mode, and "w+" truncates before that failure |
| FileOpts.OpenFlagsFor | src/SafeOps.c:521-557 | the corrected choice: create, truncate and append follow the first mode character, and the access always suits the mode passed to fdopen |
| FileOpts.OpenFlagsForPlainModes | src/SafeOps.c:521-523 | for "r", "w" and "a" the corrected choice equals the code's |
| Scenarios.FindWorld | tests/test_SafeOps.c:139-146 | "World" is found at position 7 of "Hello, World! How are you?" |
| Scenarios.ReplaceWorld | tests/test_SafeOps.c:148-154 | "World" occurs once, and replacing it by "Everyone" gives "Hello, Everyone! How are you?" |
| Scenarios.ReplaceInTestBuffer | tests/test_SafeOps.c:120-154 | in the test's 50-byte buffer, SafeStrReplace succeeds with length 29, and the new string is "Hello, Everyone! How are you?" |
| Scenarios.MallocThenFreeTwice | tests/test_SafeOps.c:86-101 | a SafeMalloc followed by two SafeFree calls on the same reference leaves it null and the live set as before |

## Left out

- `SafeFOpen` (src/SafeOps.c:488-566): the open/fstat/fdopen and fopen_s calls are operating-system I/O. Only the pure flag choice and the default options are modelled.
- `SafePrintf` (src/SafeOps.c:472-482): a variadic wrapper around vprintf, which is output.
- `IsValidPointer` (src/SafeOps.c:572-575): a single NULL test with nothing to prove.
- The logger callback is a foreign function pointer. It is modelled as the flag `loggerInstalled` plus a ghost record of the codes it receives. The message strings and the file/line arguments are not modelled.
- The last-error cell is thread-local in the source. The model has one thread and one field.
- SafeOperations.SafeOps.SafeAddInt: models the manual range check of lines 444-449. The `__builtin_sadd_overflow` path of lines 438-442 also stores the wrapped sum in `*result` on overflow; the model stores nothing.
- The functions declared in include/SafeOps.h without a definition have no body to model: `SafeStrNCopy`, `SafeStrNCat`, `SafeWStrCopy`, `SafeWStrCat`, `SafeMemMove`, `SafeSubInt`, `SafeMulInt`, `SafeDivInt`, `SafeSnprintf`, `SafeFClose`, `IsAligned`.
- NULL out-parameters (`outLen`, `outPos`, `outValue`, `result`, `out`) are not modelled: results are returned as values.
- The handling of errno by calloc, malloc and free, and their internals, is not modelled. Allocation is a fresh array whose success is a parameter.
- `char` and `wchar_t` are both Dafny `char`, and untyped memory is an array of `char`. The element width and the byte counts of `SafeFreeTyped` and `SafeMemCopy` are therefore counted in elements.
- Pointers into the middle of an object are an array plus an offset. Regions in different arrays are treated as never overlapping, where C would compare raw addresses.
- Reads past the end of a buffer are excluded by preconditions. SafeStrLen and SafeWStrLen read index `maxLen`, so their callers must make that index readable or put a NUL before it; the concatenations scan dest with StrLenBelow instead (see Findings). Where the code calls `strlen`, the model requires a terminator.
- SafeOperations.SafeOps.SafeStrCat, SafeOperations.SafeOps.SafeStrCopy, SafeOperations.SafeOps.SafeWStrNCopy and SafeOperations.SafeOps.SafeWStrNCat: require distinct source and destination, because the C calls are undefined behaviour when the two overlap.
- SafeOperations.SafeOps.SafeStrReplace: computes the final length exactly, as a mathematical integer, rather than modulo 2^64. The wrapped computation is the finding below.

## Findings

| source | as written | input that shows it | evidently intended | confidence | as-written member | corrected member |
|---|---|---|---|---|---|---|
| src/SafeOps.c:343-344 | `finalLen = strLen + count * (newLen - oldLen)` is computed in size_t, so the product wraps modulo 2^64 | a buffer of strSize 2^32 + 1 holding 2^32 copies of "a", with "a" replaced by a string of 2^32 + 1 characters: the true length is 2^64 + 2^32, but the wrapped finalLen is 2^32, which passes `finalLen < strSize`, and the building pass then writes far past the buffer | the capacity check compares the exact final length, so a result that does not fit is rejected (proved as SafeOperations.ReplaceOverCapacityFails) | not executed | Search.FinalLenWrapsPastCheck | SafeOperations.SafeOps.SafeStrReplace |
| src/SafeOps.c:173, 210, 274 | SafeStrCat and SafeWStrNCat scan dest with SafeStrLen/SafeWStrLen(dest, destSize), which reads `dest[destSize]` when no NUL comes earlier | dest a buffer of exactly destSize characters none of which is NUL: the scan reads `dest[destSize]`, one past the buffer, where the bounded concatenation is meant to reject the buffer | scan dest only below destSize and fail with OutOfBounds when no NUL is found there; the success condition of the concatenation is unchanged, because a NUL at destSize could never leave room for the result | not executed | CStrings.UnterminatedScanReadsPast | SafeOperations.SafeOps.StrLenBelow |
| src/SafeOps.c:521-523, 557 | the open flags are O_RDONLY, or O_WRONLY with 'w' or 'a' anywhere in the mode, so a '+' never gives O_RDWR | mode "w+": the file is opened write-only and truncated, then `fdopen(fd, "w+")` rejects the write-only descriptor, so the call fails after truncating the file; "r+" likewise fails on a read-only descriptor | a '+' in the mode opens the descriptor for reading and writing, and the first mode character selects create, truncate or append | not executed | FileOpts.PlusModeMismatch | FileOpts.OpenFlagsFor |
