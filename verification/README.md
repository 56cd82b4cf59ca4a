# Verification model of fragma's checked code

fragma checks Linux kernel C code. This project models, in Dafny, five parts of it and proves properties of
them for all inputs, all runs and all schedules:

- the kernel string and memory routines, whose word-at-a-time forms are proved against a byte-by-byte meaning
  (`Words`, `Memory`, `Strscpy`, `MemCompare`, `Copying`, `Strsep`, `Strings`);
- the reference-count get and put protocol, its compare-and-exchange retry loop, the exhaustive schedule
  enumeration and the store-conditional diagnostic built on it (`CasRetry`, `ScheduleCounts`, `LlscProgress`,
  `RefcountLifetime`);
- the ARM32 cache-clean publication protocol as a transition system of any number of callers (`CacheSync`);
- the ELF relocatable reader, the complete-table gate and the calibration definition (`ElfReader`, `ElfLayout`,
  `Ranges`, `ElfMips`, `ElfTables`, `ElfRules`);
- the C lexical scanners and the ordered token search (`Scanner`), against a lexical meaning of their own
  (`CLexis`).

Conventions. C memory is an `array<bv8>`, a pointer is an offset into it, and a loop of the source that moves
pointers is a loop over offsets. A read-only string is a `seq<bv8>`. `Splice(m, off, b)` is memory `m` with the
bytes `b` at `off` and everything else unchanged. Exceptions and error returns are `Result` or `Option` values.
A single loop of the source may be split over two or three methods.

Two places where the code does less than its documentation says, each with its exact condition:

- `memchr_inv` is documented for any size. Its word count is a 32-bit `unsigned int`, so it scans the whole area
  exactly when at most 2^32 - 1 words follow the aligned start (`MemCompare.ScanIsNaiveIff`); at 2^35 bytes from
  an aligned start nothing is scanned (`MemCompare.WrapExample`).
- `strnstr` is described as a search in a length-limited string, but a NUL in the searched bytes does not stop it
  (`Strings.StrnstrPastNul`). Whatever follows the NUL, it finds what a search of the first `len` bytes of the
  string finds exactly when `len` is at most the length of both strings together or the string has a match
  (`Strings.StrnstrAgreesIff`); with `len` at least the string's length that search is `strstr`.

## Model

| member | source | states |
|---|---|---|
| `Words.HasZeroIff` | annotated/normalized.c:121-127 | has_zero is nonzero exactly when one of the eight bytes is zero |
| `Words.FirstZeroAt` | annotated/normalized.c:106-147 | for every word with first zero byte k, despite false positives above it, zero_bytemask of the has_zero bits covers exactly the k bytes before it, and the trailing-zero count over 8 is the same k |
| `Words.TzcntOfMask` | annotated/normalized.c:106-147 | on high-bit marks, the byte mask covering k bytes and a trailing-zero count of 8k+7 go together |
| `Words.ProbeWord` | annotated/normalized.c:295-308 | one load, test and masked store: found exactly when the word holds a NUL, the bytes stored are the word cleared from its first NUL on, and k is that NUL's index |
| `Words.TruncateWord` | annotated/normalized.c:311-315 | the truncating store clears exactly the last byte in memory order |
| `Words.LoadWordInjective` | annotated/string.verified.c:754-760 | two word loads are equal exactly when their eight bytes are, in either byte order |
| `Words.ReplicateFills` | annotated/string.verified.c:919-929 | the three configurations all build the word whose eight bytes are the value |
| `Memory.Strlen` | annotated/string.verified.c:488-495 | returns the index of the first NUL |
| `Strscpy.SizedStrscpy` | annotated/string.verified.c:98-172 | n is the first NUL: counts of 0 or above 0x7fffffff return -7 and write nothing; otherwise n is returned with n bytes copied if n is below count, else -7 with count-1 bytes copied and a NUL; the word loads are exactly the multiples of eight up to n that the build allows (all, those in src's first page when unaligned, those of two aligned addresses, none under KMSAN), and the word holding n, if loaded, is stored cleared behind n; nothing else is stored |
| `Strscpy.CopyWord` | annotated/string.verified.c:131-154 | one iteration, whatever lies past src's end: the word holds the first NUL, is the last that fits, or is copied whole |
| `Strscpy.CopyWords` | annotated/string.verified.c:131-154 | the word loop: finishes with the specified result and image, or has copied at least 8*(max/8) bytes without a NUL; its loads are 0, 8, 16 and so on, up to the word holding the NUL |
| `Strscpy.CopyBytes` | annotated/string.verified.c:156-171 | the byte loop and forced terminator complete the same image from wherever the word loop stopped |
| `Strscpy.ImageIsTruncatedString` | annotated/string.verified.c:98-172 | the stored image is the longest prefix that fits, its first NUL is right after it, it lies within count, and every later stored byte is zero |
| `Strscpy.VariantsAgree` | annotated/string.verified.c:107-129 | every starting max up to count leaves the same terminated string, so page-limited, aligned-only and KMSAN variants agree |
| `Strscpy.TailIrrelevant` | annotated/string.verified.c:122-144 | bytes after src's first NUL influence neither the return value nor any stored byte |
| `Strscpy.LoadsStayInPage` | annotated/string.verified.c:108-114 | the condition on the loads of an efficient-unaligned build keeps every load within one page |
| `MemCompare.Memcmp` | annotated/string.verified.c:745-769 | with and without word steps and in both byte orders: the difference of the first differing bytes, 0 if none |
| `MemCompare.SkipEqualWords` | annotated/string.verified.c:751-763 | the word loop skips only equal bytes and stops at an unequal word or below eight bytes |
| `MemCompare.DifferenceLaws` | annotated/string.verified.c:738-788 | the result is 0 exactly on equal ranges (which is bcmp's promise) and swapping the ranges negates it |
| `MemCompare.DifferenceIs` | annotated/string.verified.c:765-768 | the result is the first differing byte of the first range minus that of the second |
| `MemCompare.MemchrInv` | annotated/string.verified.c:910-953 | for every start address: the first other byte among the covered ones, each word load aligned and inside the area |
| `MemCompare.ScanWords` | annotated/string.verified.c:943-952 | the word loop and remainder find the first other byte of the words and tail, every load aligned and in range |
| `MemCompare.CheckBytes8` | annotated/string.verified.c:890-899 | the first byte other than the value, or none |
| `MemCompare.CoveredAll` | annotated/string.verified.c:931-952 | prefix, words and remainder cover the whole range exactly when the word count fits 32 bits, in particular below 2^35 bytes |
| `MemCompare.ScanIsNaiveIff` | annotated/string.verified.c:901-953 | the result equals the naive scan on every area of a length if and only if the word count fits in an unsigned int |
| `MemCompare.MissedByte` | annotated/string.verified.c:914-943 | whenever the count wraps, an area whose last byte alone differs is reported as uniform |
| `MemCompare.WrapExample` | annotated/string.verified.c:914-943 | the concrete failing area: of 2^35 bytes from an aligned start, all equal but the last, nothing is looked at |
| `Copying.Memmove` | annotated/string.verified.c:714-733 | for every relative placement of two ranges in one memory, dest gets the pre-state of src and nothing else changes |
| `Copying.Strlcat` | annotated/string.verified.c:234-299 | result is d+n modulo 2^64; dest holds the first count-1 bytes of both strings, terminated within count; bytes from count on unchanged; when the count bytes of dest and the src object fit in one address space, at least count is returned if and only if the call truncates |
| `Copying.CatAllIsPrefix` | annotated/string.verified.c:234-299 | any sequence of calls with one count leaves the first count-1 bytes of the initial string and all sources, always shorter than count, so BUG_ON is never reached |
| `Copying.TruncationTestIff` | annotated/string.verified.c:236-246 | result >= count tells truncation if and only if the attempted length does not wrap, and for separate objects in one address space it never wraps |
| `Copying.StrlcatAll` | annotated/string.verified.c:234-299 | a loop of calls over a list of sources: each call may be made, and dest is left with the first count-1 bytes of everything |
| `Strsep.Strchr` | annotated/string.verified.c:360-366 | the first occurrence, the NUL counting as part of the string |
| `Strsep.Strpbrk` | annotated/string.verified.c:555-564 | the first byte that is in the set, or none before the NUL |
| `Strsep.Strsep` | annotated/string.verified.c:580-593 | one call: the token, the new cursor and the whole new memory, and nothing for a NULL cursor |
| `Strsep.SepSplits` | annotated/string.verified.c:569-593 | a call splits its string into a delimiter-free token, a delimiter, and the string at the new cursor |
| `Strsep.RunSplits` | annotated/string.verified.c:569-593 | calling until NULL loses nothing: tokens and overwritten delimiters rebuild the string, no token has a delimiter, and the delimiters are all of the string's in order |
| `Strsep.RunFrom` | annotated/string.verified.c:569-593 | a whole run terminates with one token more than delimiters and memory of the same size |
| `Strsep.StrsepAll` | annotated/string.verified.c:569-593 | the loop of calls until NULL: its memory is the run's, and when it ends every pointer returned still is the run's token as a string |
| `Strsep.RunWrites` | annotated/string.verified.c:588-591 | a run stores NUL at exactly the delimiters of the string and changes no other byte |
| `Strsep.SplitUnique` | annotated/string.verified.c:569-593 | a string has only one split into delimiter-free tokens at delimiters, so the run returns that one |
| `Strings.Strcmp` | annotated/string.verified.c:309-322 | the lexicographic order of the two strings as unsigned bytes |
| `Strings.OrderLaws` | annotated/string.verified.c:304-322 | zero exactly on equal strings, and antisymmetric |
| `Strings.OrderTransitive` | annotated/string.verified.c:304-322 | transitive, so strcmp is a total order |
| `Strings.Strncmp` | annotated/string.verified.c:333-347 | equals strcmp on the strings cut to count bytes, with no read past the cut |
| `Strings.Strstr` | annotated/string.verified.c:823-838 | the least offset of a match, or NULL exactly when there is none |
| `Strings.Strnstr` | annotated/string.verified.c:849-863 | the least offset of a match within len bytes, NULs included; len may exceed the storage at s1 when a match stops the search inside it |
| `Strings.Search` | annotated/string.verified.c:831-837 | the loop both share: the least match, or none |
| `Strings.StrnstrAgreesIff` | annotated/string.verified.c:842-863 | for every content after the NUL strnstr finds what a search of the string's first len bytes finds, if and only if len is at most the sum of both lengths or the string has a match |
| `Strings.StrnstrPastNul` | annotated/string.verified.c:849-863 | the smallest input on which strnstr matches past the NUL |
| `CasRetry.SimulateBoundedSchedule` | fragma/concurrency_c3_ipc_refcount.py:998-1081 | the loop's outcome, attempts, failures, final values and whole list of events, from every head it can be at |
| `CasRetry.TraceTells` | fragma/concurrency_c3_ipc_refcount.py:1010-1081 | the events account for the result: one for every failure, the final values in the last, and after each mismatch the saved value is the counter if and only if it is updated |
| `CasRetry.TraceIsSchedule` | fragma/concurrency_c3_ipc_refcount.py:1010-1081 | the values the events report as seen are the schedule's, in order, up to where the loop ends; only the last event ends it, and which one it is says the outcome, the attempts and whether the interference was over |
| `CasRetry.UpdatingOutcome` | fragma/concurrency_c3_ipc_refcount.py:1025-1074 | for every initial value and schedule the updating loop ends at the first head whose saved value is zero or seen again, with that many failures, and never raises the disagreement error |
| `CasRetry.UpdatingBound` | fragma/concurrency_c3_ipc_refcount.py:1301-1305 | at most n failures and n+1 attempts under n observations, and no nontermination |
| `CasRetry.BoundAttained` | fragma/concurrency_c3_ipc_refcount.py:1301-1311 | n+1 attempts occur for every n once there are two nonzero values, so no bound holds for all schedules |
| `CasRetry.InterferenceCycle` | fragma/concurrency_c3_ipc_refcount.py:1140-1164 | the alternating interference returns to the same loop head, two failures later, whatever follows |
| `CasRetry.StaleOutcome` | fragma/concurrency_c3_ipc_refcount.py:1055-1081 | the stale loop hangs if and only if the initial value is nonzero, there is interference, and it never shows that value; when it succeeds it has failed once for every value before the first match |
| `ScheduleCounts.UpdatingCounts` | fragma/concurrency_c3_ipc_refcount.py:1084-1116 | the closed counting laws of the updating loop for every domain of at least two values with zero among them, and every length bound |
| `ScheduleCounts.StaleCounts` | fragma/concurrency_c3_ipc_refcount.py:1084-1116 | the closed counting laws of the stale loop, likewise |
| `ScheduleCounts.CountUpdating` | fragma/concurrency_c3_ipc_refcount.py:1087-1109 | every nonzero initial value has S(L) successes and Z(L) zero exits over the schedules of length L |
| `ScheduleCounts.CountStale` | fragma/concurrency_c3_ipc_refcount.py:1087-1109 | every nonzero initial value hangs on (k-1)^L schedules of length L >= 1 |
| `ScheduleCounts.PerValueTotal` | fragma/concurrency_c3_ipc_refcount.py:1106-1109 | successes and zero exits together are all schedules |
| `ScheduleCounts.TableSize` | fragma/concurrency_c3_ipc_refcount.py:1087-1106 | the number of rows is the number of values times the number of schedules |
| `ScheduleCounts.ProductHas` | fragma/concurrency_c3_ipc_refcount.py:1087-1091 | the enumeration leaves out no schedule over the values |
| `ScheduleCounts.UpdatingMaxima` | fragma/concurrency_c3_ipc_refcount.py:1102-1111 | the largest numbers are exactly m+1 attempts and m failures, and no row is an error |
| `ScheduleCounts.StaleMaxima` | fragma/concurrency_c3_ipc_refcount.py:1102-1111 | the stale loop's largest numbers are m+1 attempts and m+1 failures |
| `ScheduleCounts.PinnedTotals` | fragma/concurrency_c3_ipc_refcount.py:25-53 | the pinned totals and maxima of both cases follow from the laws |
| `LlscProgress.BoundedDiagnostic` | fragma/concurrency_c3_llsc_progress.py:240-264 | every number of the diagnostic: rows, largest attempts, largest failed and tried stores, no nontermination, a row attaining the maximum; an error exactly for an empty list |
| `LlscProgress.BuildRows` | fragma/concurrency_c3_llsc_progress.py:243-252 | the nested loops build every row with its sums and outcome, in order |
| `LlscProgress.RowsExactly` | fragma/concurrency_c3_llsc_progress.py:243-252 | a row is in the table if and only if its failures are within the bound, its length is listed and its sums are those of its schedule |
| `LlscProgress.ProductIsBounded` | fragma/concurrency_c3_llsc_progress.py:245 | the enumeration is exactly the failure schedules within the bound |
| `LlscProgress.DiagnosticMaxima` | fragma/concurrency_c3_llsc_progress.py:253-263 | no row exceeds the most attempts with every failure allowed, and that row is in the table |
| `LlscProgress.DiagnosticSize` | fragma/concurrency_c3_llsc_progress.py:255-256 | the number of rows is the sum of the powers of the bound plus one |
| `LlscProgress.PinnedDiagnostic` | fragma/concurrency_c3_llsc_progress.py:145-164 | the pinned 120, 4, 12, 8 and 0 follow |
| `LlscProgress.StoresAreRow` | fragma/concurrency_c3_llsc_progress.py:244-252 | the stores of a get, counted along the retry loop under any interference and any failures per exchange, are those of the row of its exchanges |
| `LlscProgress.ComposedBound` | fragma/concurrency_c3_llsc_progress.py:240-264 | a get that meets n interfering values stores at most (maximum+1)*(n+1) times |
| `LlscProgress.ComposedBoundAttained` | fragma/concurrency_c3_llsc_progress.py:240-264 | that bound is attained for every n and maximum |
| `RefcountLifetime.StepInv` | fragma/concurrency_c3_ipc_refcount.py:1403-1424 | each step keeps the counter equal to the references held, schedules destruction exactly at 1 to 0, and from zero neither gets nor puts |
| `RefcountLifetime.RunInv` | fragma/concurrency_c3_ipc_refcount.py:1403-1424 | the same over whole runs, destructions counted |
| `RefcountLifetime.Lifetime` | fragma/concurrency_c3_ipc_refcount.py:1387-1396 | for any number of threads and any interleaving from one reference: destruction is scheduled at most once, and exactly when nothing is held |
| `RefcountLifetime.Conservation` | fragma/concurrency_c3_ipc_refcount.py:1403-1424 | the counter moves only by successful gets and puts |
| `RefcountLifetime.PutVersusGet` | fragma/concurrency_c3_ipc_refcount.py:865-873 | the object is released if and only if the puts outnumber the successful gets by one; with one put, release and acquisition never both happen |
| `RefcountLifetime.ReleasedForever` | fragma/concurrency_c3_ipc_refcount.py:1403-1412 | after release the counter stays zero and no get succeeds, even with a stale nonzero saved value |
| `RefcountLifetime.Resurrection` | fragma/concurrency_c3_ipc_refcount.py:19-22 | the unconditional-get control lets any thread of any number acquire an object whose destruction is scheduled |
| `RefcountLifetime.GetAcquires` | fragma/concurrency_c3_ipc_refcount.py:1403-1416 | without interference a get takes one reference from any nonzero counter |
| `RefcountLifetime.GetExits` | fragma/concurrency_c3_ipc_refcount.py:1403-1408 | and exits from zero, changing nothing |
| `RefcountLifetime.PutAlone` | fragma/concurrency_c3_ipc_refcount.py:1417-1424 | an idle holder can always put, giving back one reference, and destruction is scheduled exactly when it was the last |
| `RefcountLifetime.NeverStuck` | fragma/concurrency_c3_ipc_refcount.py:1403-1424 | in every state every thread has a step |
| `RefcountLifetime.GetIsSimulated` | fragma/concurrency_c3_ipc_refcount.py:1224-1239 | a thread's get in any interleaving has the outcome, attempts and failures of the simulator on the values it observed |
| `RefcountLifetime.ChargeFailures` | fragma/concurrency_c3_ipc_refcount.py:1234-1239 | each failed exchange is charged to a counter change by another thread since the previous failure |
| `RefcountLifetime.FailuresNeedChanges` | fragma/concurrency_c3_ipc_refcount.py:1225-1239 | every failure of a get is charged to a counter change by another thread that lies before it and after the previous failure, so the changes charged are distinct |
| `CacheSync.StepInv` | concurrency/arm32_cache_sync.c:96-152 | every step of every caller keeps the invariant |
| `CacheSync.RunInv` | concurrency/arm32_cache_sync.c:96-177 | so does every interleaving |
| `CacheSync.Published` | concurrency/arm32_cache_sync.c:114-152 | at the assertion the flush of the caller's id is recorded, the bit set implies some flush, at most one caller holds the lock, and a returned caller with an id in the table implies some flush |
| `CacheSync.OwnFlushFirst` | concurrency/arm32_cache_sync.c:114-152 | in every run a caller inside set_bit has itself flushed earlier in the same call, whichever callers share its id |
| `CacheSync.StaysSet` | concurrency/arm32_cache_sync.c:129-133 | once a caller has set the bit it is set in every later state of the run |
| `CacheSync.LeavesSet` | concurrency/arm32_cache_sync.c:114-133 | a caller with an id in the table whose lock call in set_bit succeeds leaves set_bit, and so returns, only with the bit set |
| `CacheSync.TestDecides` | concurrency/arm32_cache_sync.c:96-112 | in any interleaving a caller that reads the bit set returns without a flush, and one that reads it clear goes on to flush |
| `CacheSync.FlushRecords` | concurrency/arm32_cache_sync.c:135-146 | a flush step records the caller's id if it is in the table, and set_bit follows |
| `CacheSync.LockFails` | concurrency/arm32_cache_sync.c:102-122 | a lock call that fails in test_bit makes the caller flush, one in set_bit makes it return |
| `CacheSync.SoloCall` | concurrency/arm32_cache_sync.c:96-152 | a caller alone returns after eight steps with its flush recorded, the bit set and the lock free |
| `CacheSync.SoloCallWhenSet` | concurrency/arm32_cache_sync.c:96-112 | where the bit is set already it returns after three steps and changes nothing |
| `CacheSync.NeverCleared` | concurrency/arm32_cache_sync.c:130 | no run clears a bit of the flag word |
| `CacheSync.EarlySetFails` | concurrency/arm32_cache_sync.c:108-110 | with the early set any caller alone breaks the assertion after five steps |
| `CacheSync.OutsideTable` | concurrency/arm32_cache_sync.c:124-144 | any caller with an id outside the table can return with no flush recorded, so the id bound is needed |
| `ElfReader.ParseRelocatable` | fragma/elf.py:67-132 | total on arbitrary bytes: accepted if and only if all the bounds hold, and then the object is the one the tables describe, every read in bounds |
| `ElfLayout.ReadsExactly` | fragma/elf.py:67-132 | bytes are accepted as an object if and only if they are a file that lays it out: the identification, the header, every section row and every symbol entry encoded in the order and widths of the ABI, every name NUL-terminated at its place, all bounds kept |
| `ElfLayout.LaidOutIsRead` | fragma/elf.py:67-132 | every laid-out file is accepted and read as the object laid out |
| `ElfLayout.ReadIsLaidOut` | fragma/elf.py:67-132 | every accepted file lays out the object read |
| `ElfLayout.HeaderEncoded` | fragma/elf.py:85-90 | the header reads as a record if and only if its bytes are the record's digits in ABI order, both classes and byte orders |
| `ElfLayout.RowEncoded` | fragma/elf.py:91-93 | the same for section rows |
| `ElfLayout.EntryEncoded` | fragma/elf.py:125-130 | the same for symbol entries, whose field order differs between the classes |
| `ElfLayout.FieldIff` | fragma/elf.py:80-93 | a field reads as v if and only if its bytes are the base-256 digits of v |
| `ElfReader.ParseTables` | fragma/elf.py:92-132 | the same behind a readable header |
| `ElfReader.CheckRows` | fragma/elf.py:94-99 | accepts exactly a null first row and bounded others |
| `ElfReader.NameSections` | fragma/elf.py:112-115 | names every section from its table, or rejects exactly when one cannot be named |
| `ElfReader.FindSymbolTable` | fragma/elf.py:116-117 | the only symbol table, or none exactly when there is not exactly one |
| `ElfReader.ReadSymbols` | fragma/elf.py:122-130 | every entry of the table in order, or a rejection exactly when one cannot be named |
| `ElfReader.ParseSymbols` | fragma/elf.py:116-130 | the only readable symbol table and all its symbols, or a rejection exactly when there is none |
| `ElfReader.NameIsTerminated` | fragma/elf.py:106-110 | a name returned is NUL-terminated inside its table, and none is returned only when that is impossible |
| `ElfReader.EndianMirror` | fragma/elf.py:80-93 | the two byte orders read the same number from mirrored bytes |
| `ElfReader.ReadIsWellFormed` | fragma/elf.py:94-132 | what every later stage relies on: links, file-backed extents and tables in bounds |
| `Ranges.SortSorts` | fragma/elf.py:246 | the sort orders its input and permutes it |
| `Ranges.SortedCheckIsPairwise` | fragma/elf.py:246-248 | sorting and comparing neighbours decides pairwise disjointness of nonempty ranges, both directions |
| `Ranges.DisjointSize` | fragma/elf.py:246-248 | disjoint ranges inside a file are together no larger than it |
| `ElfMips.MetadataSections` | fragma/elf.py:157-203 | unless the metadata check fails, a section with one of the three names or kinds only occurs on the exact route, is the only one with either, and has both |
| `ElfMips.RouteRules` | fragma/elf.py:152-172 | the one route the metadata belongs to, by the bytes of e_flags |
| `ElfMips.ReginfoRules` | fragma/elf.py:183-189 | in an admitted MIPS object the section with this name or kind has both, the pinned shape, and the six pinned words |
| `ElfMips.AbiflagsRules` | fragma/elf.py:191-197 | likewise for the ABI flags and their eleven fields |
| `ElfMips.AddrsigRules` | fragma/elf.py:199-203 | likewise for the address-significance section, which links to the symbol table |
| `ElfTables.CompleteTables` | fragma/elf.py:217-290 | the gate admits exactly the complete objects, the MIPS metadata check included and disjointness said of all pairs, and returns every relocation row in order |
| `ElfTables.CheckSections` | fragma/elf.py:221-245 | accepts exactly the admissible sections and collects the ranges of the header, the table and all nonempty file-backed sections |
| `ElfTables.CheckSymbols` | fragma/elf.py:249-270 | accepts exactly the admissible symbol tables |
| `ElfTables.ReadRelocations` | fragma/elf.py:273-289 | the rows of one relocation section, or a rejection exactly when its header or an entry is out of bounds |
| `ElfRules.RelocationEncoded` | fragma/elf.py:281-289 | the row read for an entry has an address, symbol and kind if and only if the entry's two words encode them |
| `ElfRules.EncodedIsRead` | fragma/elf.py:281-289 | the words are the address and symbol*2^8+kind in 32-bit entries of 12 or 8 bytes, symbol*2^32+kind in 64-bit ones of 24 or 16 |
| `ElfRules.SectionRules` | fragma/elf.py:223-245 | a section is admissible if and only if its kind, flag remainders, alignment, string table ends, links and exception index are as the gate's masks say |
| `ElfRules.SymbolRules` | fragma/elf.py:252-270 | a symbol is admissible if and only if, by its st_info value and section index, it is one of the undefined, file, section and defined symbols the gate lets through |
| `ElfRules.AlphaRules` | fragma/elf.py:135-149 | the Alpha exception, with e_flags as its four bytes |
| `ElfRules.TableRules` | fragma/elf.py:249-280 | an admitted object has a null first symbol, a local boundary in range, and relocation tables of the right link, entry size and non-executable target |
| `ElfTables.AdmittedIsDisjoint` | fragma/elf.py:219-248 | header, section table and nonempty file-backed sections are pairwise disjoint, inside the file, and together no larger than it |
| `ElfTables.BytesOwnedOnce` | fragma/elf.py:219-248 | in an admitted object no position of the file is in two of the header, the section table and the sections |
| `ElfTables.LocalsAreCounted` | fragma/elf.py:125-130 | in raw bytes that calibrate, sh_info of the symbol table is the number of entries whose st_info byte has local binding, those entries come first, and the definition's entry is behind them |
| `ElfTables.RelocationTargets` | fragma/elf.py:277-289 | every relocation row names an existing symbol, an address inside its target, and a target that is not executable |
| `ElfTables.FindDefinition` | fragma/elf.py:312-316 | the only symbol with the definition's name, or none exactly when there is not exactly one |
| `ElfTables.CheckUndefined` | fragma/elf.py:323-337 | accepts exactly when every undefined symbol is the one admitted unwind reference |
| `ElfTables.Calibrate` | fragma/elf.py:309-338 | accepts exactly the calibrating objects, and the content is the file's bytes of the definition |
| `ElfTables.BodyIsItsOwn` | fragma/elf.py:315-338 | the hashed bytes number symbol.size, lie in their section, overlap no header, table or other section, and no relocation targets them |
| `ElfTables.CalibrationObject` | fragma/elf.py:293-338 | from raw bytes to the hashed content, accepted if and only if the bytes read as an object that calibrates |
| `ElfRules.PlainObject` | fragma/elf.py:293-338 | for every class, byte order, machine and code size, an object of code, symbols and strings with the one definition calibrates |
| `ElfRules.ArmObject` | fragma/elf.py:316-337 | so does an ARM object whose exception index keeps the undefined unwind routine by an R_ARM_NONE relocation, given by its bytes |
| `ElfRules.DefinitionRules` | fragma/elf.py:315-322 | which symbols may be the definition, both directions |
| `ElfRules.UndefinedRules` | fragma/elf.py:323-335 | an undefined symbol is admitted if and only if exactly one relocation names it, with address and kind 0, from a REL section into the definition's exception index |
| `ElfRules.CalibrationRules` | fragma/elf.py:301-336 | the fixture matches the object, the definition's name is unique, and at most one symbol is undefined |
| `Scanner.StripCComments` | fragma/concurrency_c2.py:281-328 | the output and the unterminated error, for every text |
| `CLexis.StripIsItems` | fragma/concurrency_c2.py:281-328 | a text strips if and only if it is a list of ordinary characters, comments and literals, and then to their images in order: a comment becomes a space and its newlines, everything else stays |
| `CLexis.StripItems` | fragma/concurrency_c2.py:281-328 | every admissible list of items strips to its images |
| `CLexis.Itemize` | fragma/concurrency_c2.py:281-328 | every terminated text is such a list |
| `CLexis.DepthOfItems` | fragma/concurrency_c2.py:345-368 | only ordinary characters count for the bracket depth |
| `CLexis.CloseIffItems` | fragma/concurrency_c2.py:345-386 | the scan ends at a place if and only if the text up to it is a list of items whose last one is the first to balance, whatever follows |
| `CLexis.BalancingIsItems` | fragma/concurrency_c2_irq.py:383-468 | the extractors return the bracket that ends such a span, and the error if and only if there is none |
| `Scanner.StripStep` | fragma/concurrency_c2.py:287-325 | one iteration appends, advances and changes state as the scan's meaning says |
| `Scanner.StripKeepsNewlines` | fragma/concurrency_c2.py:310-315 | stripping preserves the number of newlines |
| `Scanner.StripIdempotent` | fragma/concurrency_c2.py:281-328 | scanning the output reproduces it, enters no comment and ends in code |
| `Scanner.StripIdentityIff` | fragma/concurrency_c2.py:281-328 | stripping changes nothing if and only if there is no comment |
| `Scanner.LiteralsKept` | fragma/concurrency_c2.py:282-324 | string and character literals come out character for character |
| `Scanner.ScanBalanced` | fragma/concurrency_c2_irq.py:383-424 | the loop the three extractors share returns the balancing bracket or the unterminated error |
| `Scanner.BracketStep` | fragma/concurrency_c2.py:348-385 | one iteration moves index, depth and state as the scan's meaning says, an escape at the end stepping past the text |
| `Scanner.CloseIsShortest` | fragma/concurrency_c2_irq.py:383-424 | the bracket found ends the shortest balanced prefix from any depth and state, every proper prefix still open; none is found exactly when every prefix stays open |
| `Scanner.BalancedFrom` | fragma/concurrency_c2.py:345-386 | from an opening bracket in code the result is the shortest balanced text, ending in code |
| `Scanner.BodyStrips` | fragma/concurrency_c2.py:331-386 | the body found always strips, and its stripped text balances too |
| `Scanner.DepthOfStripped` | fragma/concurrency_c2.py:281-386 | stripping keeps the bracket depth of every terminated text |
| `Scanner.MatchingParen` | fragma/concurrency_c2_irq.py:383-424 | the index of the parenthesis that balances the opening one, or an error when none does |
| `Scanner.BalancedBody` | fragma/concurrency_c2_irq.py:427-468 | the text from start through the balancing brace, or an error when none does |
| `Scanner.OrderedTokenPositions` | fragma/concurrency_c2.py:406-417 | the pointwise-least increasing occurrence of the names, and no positions exactly when they do not occur |
| `Scanner.IndexFrom` | fragma/concurrency_c2.py:411-414 | the first occurrence at or after the cursor, or none |

## Left out

- Inline assembly and exception tables: tzcnt is taken to count trailing zeros of a nonzero word, and a word load past the end of src returns its bytes exactly and arbitrary bytes after them.
- The big-endian has_zero and create_zero_mask of sized_strscpy, whose bodies are not part of this model; memcmp and memchr_inv are modelled in both byte orders.
- The easy string functions (strcpy, strcat, strnchr, strcspn, strspn, memchr, memscan, memset and the like) and case folding through the _ctype table: they would add only easy members.
- Aliasing of dest and src in sized_strscpy and strlcat, and of the string and the delimiter set in strsep: the read-only operand is a sequence, as the source requires separate objects.
- `Copying.Strlcat`: takes a dest terminated within count, as its ACSL contract does, so the BUG_ON trap itself is not modelled.
- `MemCompare.MemchrInv`: takes the byte the int argument is cut to, and an area that is a whole array.
- The four-byte unsigned long of 32-bit builds: the word loops of sized_strscpy and memcmp step by eight bytes here.
- Addresses are unbounded: a range that wraps around the address space is not modelled.
- The witness rows of the schedule aggregate, and the one-step spurious-failure and lost-reservation cycles.
- `CasRetry.SimulateBoundedSchedule`: does not repeat its arguments in the result.
- Weak memory, fences, RCU grace periods, refcount saturation and overflow: steps are atomic and interleavings sequentially consistent, as the source's own exclusions say.
- The flag word is the set of its bit numbers, the flush is one step, mutex creation and thread creation failures are not modelled, and the branches whose conditions the source fixes to constants (aliasing, reserved folios, invalid pages) are not taken.
- `ElfTables.CalibrationObject`: returns the symbol, the relocation count and the hashed bytes; the other output fields repeat the object's own, and SHA-256 and the MIPS and Alpha records are left out.
- The JSON dictionaries of the model and of the fixture observation are reduced to their checked fields.
- `CLexis.StripIsItems`: the items are those of the scanners, which let a newline stand in a literal and do not splice lines, where C11 section 6.4 does otherwise.
- Regular expressions: the function head match before extract_function's loop, the tokenizer, macros and kconfig parsing.
- Everything that runs tools or touches files: builds, Frama-C, herd7, manifests, inventories, receipts and reports.
