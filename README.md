# Memory scanner core: Horspool search and region walk

This project models the core of the user-id fetcher in
`windows/runner/user_id_fetcher.cpp`. That core is a scanner that finds a byte
pattern in another process's memory. It has two parts:

- `aobscan` (module `PatternMatcher`) is a Boyer–Moore–Horspool search. It
  builds a 256-entry bad-character shift table. It then slides a window over
  the buffer and compares right to left. On a mismatch it shifts by the table
  entry for the byte under the window's last position.
- `ScanProcessMemory` (module `RegionWalker`) walks the address space region by
  region, starting at the minimum application address:
  - it skips regions that are not committed or not readable;
  - it reads each remaining region in chunks of at most 64 KiB into one reused
    buffer and searches each chunk with `aobscan`;
  - it returns the absolute address of the first hit, or 0.

Both parts are imperative in the source, and the model keeps that form:

- `BuildShiftTable` fills a 256-entry array in place.
- `Search` runs the nested window and compare loops over an array buffer.
- `ScanProcessMemory`, `ScanRegion` and `ScanChunk` keep the source's nested
  loops, its early exits and its single reused buffer.

Each method is proved against a reference function:

| reference function | what it means |
|---|---|
| `PatternMatcher.Occurrence` | the leftmost occurrence of a non-empty pattern |
| `PatternMatcher.Shift` | one table entry |
| `RegionWalker.RegionScan` | the scan of one region |
| `RegionWalker.WalkFrom` | the whole walk |

`RegionScan` and `WalkFrom` give both the hit and the list of read requests the
walk issues. The lemmas state what the source promises about those functions.

The operating system is reached only through parameters:

- `GetSystemInfo` becomes the pair `minAddr`/`maxAddr`.
- `VirtualQueryEx` becomes an oracle `query: nat -> Option<RegionInfo>`. It
  returns the base, size, state and protection of a region, or failure.
- `ReadProcessMemory` becomes an oracle `read: (nat, nat) -> Option<seq<byte>>`.
  It returns the bytes copied (possibly fewer than asked for) or failure.
  The model keeps at most the requested number of bytes. This matches how
  `ReadProcessMemory` reports `bytesRead`.

The module `Scenarios` works through concrete cases:

- a hit inside a region;
- a read failure that hides a present pattern;
- an occurrence that straddles the 64 KiB chunk boundary, or the boundary of two
  adjacent regions, which the scanner does not report;
- a hit at address 0, which the scanner cannot tell apart from "not found".

## Model

| member | source | states |
|---|---|---|
| PatternMatcher.Search | windows/runner/user_id_fetcher.cpp:7-28 | The result is exactly `Occurrence(pattern, buffer[..bufferLen])`: the leftmost offset where the pattern occurs in the first `bufferLen` bytes, or not-found. It is not-found whenever the pattern is empty or the buffer is shorter than the pattern. The loops terminate and every index stays in bounds. |
| PatternMatcher.BuildShiftTable | windows/runner/user_id_fetcher.cpp:11-15 | Returns a fresh 256-entry table whose entry for every byte value `c` equals `Shift(pattern, c)`. |
| PatternMatcher.LastIndexBeforeIsLast | windows/runner/user_id_fetcher.cpp:14-15 | The index the table is built from is the last occurrence of the byte in `pattern[0..n)`. Not-found means the byte does not occur there. |
| PatternMatcher.ShiftInRange | windows/runner/user_id_fetcher.cpp:11-15 | Every table entry lies between 1 and `patternLen`. So each shift moves the window forward, which makes the search terminate. |
| PatternMatcher.ShiftOfAbsentByte | windows/runner/user_id_fetcher.cpp:12-13 | A byte absent from `pattern[0..patternLen-2]` has entry `patternLen`. |
| PatternMatcher.ShiftOfLastOccurrence | windows/runner/user_id_fetcher.cpp:14-15 | A byte whose last occurrence in `pattern[0..patternLen-2]` is at `i` has entry `patternLen-1-i`. |
| PatternMatcher.ShiftSkipsNoMatch | windows/runner/user_id_fetcher.cpp:25 | The positions skipped by a shift hold no match. The shift is keyed by the byte under the window's last position. This is why the search never misses an occurrence. |
| PatternMatcher.FirstMatchFromIsLeftmost | windows/runner/user_id_fetcher.cpp:17-27 | Searching from `k` finds a match at or after `k` with none between `k` and it. When it finds nothing, there is no match at or after `k`. |
| PatternMatcher.OccurrenceCharacterized | windows/runner/user_id_fetcher.cpp:9-27 | `Occurrence` is `k` if and only if the pattern is non-empty, matches at `k` and matches nowhere before `k`. It is not-found if and only if the pattern is empty or matches nowhere. |
| PatternMatcher.OccurrenceIsSound | windows/runner/user_id_fetcher.cpp:20-22 | A found offset `k` satisfies `k + patternLen <= bufferLen`, and `buffer[k..k+patternLen)` equals the pattern. |
| RegionWalker.Received | windows/runner/user_id_fetcher.cpp:53-54 | The bytes delivered into the buffer never exceed the `toRead` requested. |
| RegionWalker.ScanChunk | windows/runner/user_id_fetcher.cpp:52-63 | One chunk step is exactly `ChunkStep`. It requests `min(65536, regionSize - offset)` bytes at `regionBase + offset`. A failed or empty read abandons the region and leaves the buffer unchanged. Otherwise the bytes received (at most `toRead`) are what the shared buffer holds at its front afterwards, the rest of the buffer is unchanged, and those bytes are searched. |
| RegionWalker.ScanRegion | windows/runner/user_id_fetcher.cpp:47-65 | The region loop returns exactly the hit of `RegionScan(pattern, read, mbi, 0)`. A hit is reported as `regionBase + offset + k`. The offset advances by `toRead`. |
| RegionWalker.ScanProcessMemory | windows/runner/user_id_fetcher.cpp:30-74 | The result is the hit address of the reference walk `WalkFrom(minAddr, maxAddr)`, or 0 when the walk finds nothing. |
| RegionWalker.Readable | windows/runner/user_id_fetcher.cpp:44-45 | The region filter holds exactly when the state is `MEM_COMMIT` and the protection shares a bit with the mask `0x66` of READONLY, READWRITE, EXECUTE_READ and EXECUTE_READWRITE. |
| RegionWalker.RegionReadsAreChunks | windows/runner/user_id_fetcher.cpp:52-64 | A scan from an offset inside the region issues at least one read, and the first is at that offset. The i-th read of a region starts `i * 65536` bytes after the starting offset, lies below the region size and asks for `min(65536, size - its offset)` bytes. So the offset advances by the length requested, not by the bytes received. |
| RegionWalker.RegionReadsStayInRegion | windows/runner/user_id_fetcher.cpp:39-52 | Every read lies wholly inside the region and asks for between 1 and 65536 bytes. The reused buffer is never overfilled. |
| RegionWalker.WalkReadsOnlyReadableRegions | windows/runner/user_id_fetcher.cpp:42-67 | Every read the walk issues lies inside the region returned by a query the walk made (`Visited`: the address chain `addr`, `addr + size`, ... before a query fails or `maxAddr` is reached). That region is committed and has one of the protections READWRITE, READONLY, EXECUTE_READ or EXECUTE_READWRITE. |
| RegionWalker.RegionScanStopsAtFirstStop | windows/runner/user_id_fetcher.cpp:51-65 | Every request of a region scan but the last delivered bytes without an occurrence. So a failed or empty read, or a hit, is the last request of the region. |
| RegionWalker.RegionScanRunsToEnd | windows/runner/user_id_fetcher.cpp:51-64 | If the last request of a region scan delivered bytes without an occurrence, it ends exactly at `base + size`: the scan read the region to its end. |
| RegionWalker.RegionHitIsFirstHit | windows/runner/user_id_fetcher.cpp:51-65 | A region hit comes from the last request of the scan. That read succeeded, and the hit is its address plus the leftmost occurrence in the bytes received. Every earlier request held no occurrence, so the hit is the first in scan order. |
| RegionWalker.WalkHitIsFirstHit | windows/runner/user_id_fetcher.cpp:42-67 | A walk hit comes from the last request the walk issued. That read succeeded, and the hit is its address plus the leftmost occurrence in the bytes received. Every earlier request, in any region, failed or held no occurrence, so the hit is the first among the requests the walk issued. |
| RegionWalker.VisitedInRange | windows/runner/user_id_fetcher.cpp:42-67 | Every address the walk visits lies in `[addr, maxAddr)`. |
| RegionWalker.WalkMissIffRegionsMiss | windows/runner/user_id_fetcher.cpp:42-73 | The walk finds nothing if and only if the scan of every readable region on its address chain finds nothing. A region that misses, or whose reads are abandoned, does not end the walk; it goes on at `addr + RegionSize`. |
| RegionWalker.WalkHitIsFirstRegionHit | windows/runner/user_id_fetcher.cpp:42-67 | A walk hit is the hit of a readable region on the walk's address chain. The scan of every readable region visited before it, at a lower address, found nothing. |
| RegionWalker.RegionMissMeansNoChunkHit | windows/runner/user_id_fetcher.cpp:51-65 | If a region scan finds nothing, every chunk it requested either failed or holds no occurrence in the bytes received. |
| RegionWalker.WalkMissMeansNoChunkHit | windows/runner/user_id_fetcher.cpp:42-73 | If the walk finds nothing, every chunk it requested either failed or holds no occurrence. |
| Scenarios.SearchFindsAbcAtTwo | windows/runner/user_id_fetcher.cpp:17-22 | "ABC" in "XXABCYY" is found at offset 2. |
| Scenarios.SearchMissesAbsentPattern | windows/runner/user_id_fetcher.cpp:27 | "AB" is not found in "BAXA". |
| Scenarios.WalkFindsPatternInRegion | windows/runner/user_id_fetcher.cpp:55-58 | A readable 100-byte region holding the pattern at byte 50 yields `base + 50`. |
| Scenarios.WalkMissesPatternWhenReadFails | windows/runner/user_id_fetcher.cpp:61-62 | Over the same region and memory, the walk finds `base + 50` when reads succeed and nothing when every read fails. |
| Scenarios.WalkMissesPatternAcrossChunkBoundary | windows/runner/user_id_fetcher.cpp:52-55 | An occurrence that straddles the 64 KiB chunk boundary is not reported: each chunk is searched on its own. |
| Scenarios.WalkMissesPatternAcrossRegionBoundary | windows/runner/user_id_fetcher.cpp:42-67 | An occurrence that straddles the boundary of two adjacent readable regions is not reported: each region is searched on its own. |
| Scenarios.WalkHitAtAddressZero | windows/runner/user_id_fetcher.cpp:57-73 | A walk can find a hit at address 0 (region base 0, pattern at its first byte), which `ScanProcessMemory` then returns as 0, the value it also returns for "not found". |

## Left out

- `fetch_user_id` and the global `data[33]` (lines 76-89) are left out. They are FFI glue: a window lookup by title, PID resolution, `OpenProcess`/`CloseHandle`, the hard-coded pattern, and reinterpreting 32 raw bytes as a C string.
- `GetSystemInfo`, `VirtualQueryEx` and `ReadProcessMemory` are foreign calls. They appear only as the address-bound parameters and the `query`/`read` oracles.
- A target process that changes between a query and a read is not modelled. Any such change is just an oracle result.
- Addresses are unbounded naturals: `uintptr_t` wrap-around of `addr + RegionSize` or `regionBase + offset + k` is not modelled.
- RegionWalker.ScanProcessMemory: a hit at absolute address 0 is returned as 0, the same value as "not found", as in the source. So a result of 0 means "no hit" only when no readable region starts at address 0 (`Scenarios.WalkHitAtAddressZero`). `WalkFrom`'s `Option` result keeps the two apart.
- Region sizes are positive. A zero `RegionSize` would make the source loop forever, and the model excludes it by the type `RegionSize`.
- RegionWalker.ScanProcessMemory: its contract states the hit of the reference walk, not the sequence of reads it performs. The read pattern is stated about `WalkFrom` and `RegionScan` by the lemmas above.
- The walk continues at `addr + RegionSize`, the queried address plus the region's size, as the code does, rather than at `BaseAddress + RegionSize`. The two differ when `addr` is not the region's base.
- The chunk offset advances by `toRead`, as the code does, rather than by `bytesRead`. A short read therefore leaves the unread tail of that chunk unsearched.
- Pattern and buffer are modelled as values: `Search` takes the pattern as a sequence and the buffer as an array with its used length, and returns an offset instead of a pointer.
