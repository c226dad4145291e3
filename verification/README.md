# PrincessIDE: verified models of its cache, walker, streams, tables and parsers

This project models five parts of PrincessIDE in Dafny and proves what they promise.

1. **The windowed file reader** (`hex.rs`). `Recency.dfy` defines, from the bare history of
   accesses, which windows an LRU cache must hold. `WindowCache.dfy` is one access and one
   read as functions of values; `HexReader.dfy` is the class with its deque, counters and
   loops, over a file that other processes append to, and `HexLines.dfy` its display rows.
   The reader is plain random access whenever the file has not grown past a cached window,
   returns a prefix otherwise, is an exact LRU cache of its own history, takes from the file
   exactly what that cache loads, and a larger cache never takes more.
2. **The x86-64 page-table walk** (`pagetable.rs`, `guestmem.rs`; Intel SDM Vol. 3A section
   4.5). `PageTable.dfy` holds levels, entries and the walk as a recursion,
   `Translation.dfy` what it guarantees in every memory, `Walker.dfy` the source's loops,
   `GuestMemory.dfy` the sparse RAM the walk may run over, and `Architecture.dfy` sets the
   walk against the processor's own, with inputs in `WalkWitnesses.dfy`. The walk is sound and complete for paths from CR3, its
   guards change nothing but cyclic answers, translation is affine on the whole leaf, writes
   to RAM affect it exactly through the entries on the path, and it is the processor's walk
   exactly when no table repeats and the processor meets no entry that the two read
   differently: absent with PS set, present with a reserved bit set that the code does not
   look at, or a 4 KiB entry with PAT set. The processor's physical-address width, its
   no-execute mode and its 1 GiB pages are parameters; the comparison is of translations, so
   access rights are not part of it, and both sides read one memory at one moment.
3. **Incremental stream decoding** (`http.rs`, `sse.rs`, `openai.rs`; RFC 9112 sections 6.3
   and 7.1, WHATWG HTML sections 9.2.5 and 9.2.6). `Sse.dfy`, `Chunked.dfy`, `Http.dfy`,
   `HttpMessages.dfy`, `AiProtocol.dfy` and `OpenAi.dfy` go from bytes to events, layer by layer;
   each layer's result is shown to be independent of how the bytes were cut, then all layers
   together, and to be what a server wrote: fields to framing to body, lines to payloads,
   payloads to events.
   The event protocol ends in exactly one terminal event. After a delivery that found the
   token cancelled no chunk follows; after `cancel` none follows exactly when the request
   does not retry or its retry emits none (`CancelWitness.dfy` has the input).
4. **Interval and descriptor tables** (`source.rs`, `descriptor.rs`, `idt.c`).
   `LineTable.dfy` compares the coalesced interval table and its binary search with the raw
   rows; `Gdt.dfy` shows that a read table tiles its slots and that decoding loses no bit;
   `Idt.dfy` sets the C kernel that builds a table against the reader that decodes it.
5. **Text parsers against printers** (`monitor.rs`, `backend.rs`, `process.rs`).
   `InfoTlb.dfy` inverts the `info tlb` report and pins down its error positions;
   `ShellSplit.dfy` and `DisplayArgv.dfy` settle when splitting undoes quoting and display.

`Words.dfy` (machine words as bounded naturals, bitwise operators by recursion),
`Text.dfy` (UTF-8, whitespace, splitting, numbers), `Seqs.dfy` and `Wrappers.dfy` are shared.

Where the source mutates, the model does: classes with fields, and loops with invariants,
each method proved equal to a function of values whose properties the lemmas then state.
Words are naturals below 2^64; masks and shifts are written as field extractions, and
`PageTable.MasksAreFields`, `Translation.OrIsSum` and `WindowCache.WindowArithmetic` prove
that these are the operators of the source. Environments are explicit: the file on disk
and whether `pread` fails, guest memory as a function or as a byte map, a socket as a list
of reads that ends in a close or in an error (deadline, abort or I/O), cancellation as the
sample each delivery takes, the parsed form of a payload as a function parameter.

Where the documentation or a manual and the code disagree the model follows the code, and
a lemma shows an input and the exact condition:

- A finished walk need not have a present leaf, because PS is looked at before P; it need not
  be free of reserved bits, on which the processor faults; and bit 7 of a 4 KiB entry is
  refused, where the SDM has PAT. `WalkWitnesses.AbsentLeafIsFound`,
  `WalkWitnesses.ReservedHugeIsFound` and `WalkWitnesses.PatIsRefused` are the inputs,
  `Architecture.WalkIsSdmIff` and `Architecture.FinishedWalkIsSdmIff` the conditions.
- `pagetable.rs:336-342` promises a fault for an entry with `reserved_bits_set`. The processor
  ignores those bits: `Architecture.ReservedFlagSaysNothing` shows for every entry that
  setting or clearing them changes neither its reserved bits nor its presence.
- A two-slot system descriptor takes the upper half of its second slot as base bits 63:32;
  Intel SDM Vol. 3A section 7.2.3 puts them in the lower half. `Gdt.HigherHalfTssIsLost` is
  an input, `Gdt.BaseIsSdmIff` and `Gdt.LaidOutBaseIff` the conditions.
- `hex.rs:97-98` bounds `bytes_read` by `bytes_served`, and `WindowCache.ReadsMoreThanItServes`
  is an input where it is not so. Whatever is cached, ranges that cut no window keep to it, one
  by one (`WindowCache.BytesReadWithinServed`) and over a run (`WindowCache.RunWithinServed`);
  behind every cached window no others do. `WindowCache.RunLoads` gives the total of any run as
  what an LRU cache of its accesses loads, and `WindowCache.RoomyRunLoadsOnce` as the windows
  touched, each once, where nothing is evicted, so that the totals keep their documented order
  exactly when those sums are within what is served.
- `hex.rs:100` counts short reads; a short read counts twice, not once, except where
  `HexReader.OneTickIffSaturated` says. `HexReader.HexReader.ReadRange` carries these clauses and
  those on the bytes.
- `source.rs:327` calls the segments non-overlapping and derives the exactness of the binary
  search from it. They overlap exactly when two rows share a start below 2^64-1
  (`LineTable.OverlapIffRepeatedStart`); the search is exact all the same
  (`LineTable.LookupIsNaive`), short of the last 64-bit address, which no segment covers
  (`LineTable.LastAddressIsNeverCovered`).
- The end of a leaf's virtual range overflows 64 bits for the topmost page and no other:
  `WalkWitnesses.TopPageIsMapped` is an input, `Translation.VirtualRangeFitsIff` the condition.
- `openai.rs:228-235` gives each exchange a flag of its own, so `cancel` does not reach a retry:
  `CancelWitness.ChunkAfterCancel` is an input, `OpenAi.NoChunkAfterCancel` the condition, and
  `OpenAi.CancelledRetriesIff` says when a cancelled exchange still retries.
- The end of a RAM read saturates at 2^64 - 1, so a RAM that declares this size lets a read
  across its end pass: `GuestMemory.SaturatedReadPasses` is an input,
  `GuestMemory.SaturationShowsIff` the condition.
- The end of a chunk is computed in 64 bits and can overflow: `Chunked.LargestSizeOverflows`
  is an input, `Chunked.WordsAgreeIff` the condition.
- A line `data` without a colon is an empty data line in section 9.2.6 of the WHATWG standard.
  The code passes over it, as `Sse.LineDataOfSent` and `Sse.OthersCarryNothing` say of every
  non-empty line that does not start with `data:`, and of no other.

`dafny verify dfyconfig.toml` checks everything.

## Model

| member | source | states |
|---|---|---|
| Recency.RecentIsRecencyOrder | crates/princess-bin/src/hex.rs:336-375 | after any history the recency list holds exactly the windows used since the last clear, each once, by last use |
| Recency.RecencyOrderIsUnique | crates/princess-bin/src/hex.rs:336-375 | those conditions determine the list |
| Recency.TouchTracksRecency | crates/princess-bin/src/hex.rs:336-375 | move-to-front and evict-from-back on the first `capacity` windows in recency order gives the first `capacity` of the new order |
| Recency.LargerCacheNeverMissesMore | crates/princess-bin/src/hex.rs:336-375 | no Belady anomaly: a larger cache never misses more, and hits plus misses stay the same |
| WindowCache.AccessTouches | crates/princess-bin/src/hex.rs:336-375 | on the index list, an access is one LRU touch when it succeeds and nothing when it fails |
| WindowCache.AccessKeepsLru | crates/princess-bin/src/hex.rs:336-375 | the cached index list and the hit, miss and syscall counters stay those of the LRU cache of the whole history |
| WindowCache.AccessOutcome | crates/princess-bin/src/hex.rs:336-375 | an access serves a prefix of the window of the current file, and a stale one only when it was cached so |
| WindowCache.ReadKeepsLru | crates/princess-bin/src/hex.rs:253-281 | a whole read, failed or not, leaves the LRU cache of its history |
| WindowCache.ReadIsPrefix | crates/princess-bin/src/hex.rs:253-281 | a read returns a prefix of the file's bytes in the range, cut short only where a window was cached before the file grew past it |
| WindowCache.ReadIsExact | crates/princess-bin/src/hex.rs:253-281 | with no outdated window cached, a read is exactly the file slice, by accesses that depend on file and range alone |
| WindowCache.MemoryBound | crates/princess-bin/src/hex.rs:75-78 | cached bytes never exceed window size times resident windows, nor that times capacity |
| WindowCache.CoherentAfterGrowth | crates/princess-bin/src/hex.rs:200-219 | appending to the file keeps every cached window a prefix of its window |
| WindowCache.WindowArithmetic | crates/princess-bin/src/hex.rs:253-281 | the window index and the offset within it are the quotient and remainder of the position |
| WindowCache.ReadManyTraced | crates/princess-bin/src/hex.rs:253-281 | a run of reads makes exactly the accesses the file and the ranges dictate, whatever the capacity |
| WindowCache.BytesTaken | crates/princess-bin/src/hex.rs:253-375 | on an up-to-date cache a read takes from the file at most the windows of its range, each whole and once; behind every cached window it takes exactly those |
| WindowCache.BytesReadWithinServed | crates/princess-bin/src/hex.rs:94-98 | whatever is cached, a read takes no more bytes than it serves when neither end of its range cuts a window the file reaches into; behind every cached window only then |
| WindowCache.ReadsMoreThanItServes | crates/princess-bin/src/hex.rs:94-98 | one byte of a two-byte file served through a two-byte window reads two |
| WindowCache.RunWithinServed | crates/princess-bin/src/hex.rs:94-98 | the totals of a run of reads keep the documented order, whatever is cached at its start, when no range cuts a window |
| WindowCache.RunLoads | crates/princess-bin/src/hex.rs:253-375 | a run of reads takes from the file exactly the bytes an LRU cache of its accesses loads, which file, geometry and ranges determine |
| WindowCache.RoomyRunLoadsOnce | crates/princess-bin/src/hex.rs:94-98 | a new reader with room for every window it touches takes each of them from the file once |
| WindowCache.LargerReaderNeverReadsMore | crates/princess-bin/src/hex.rs:253-375 | two readers of one file given the same reads: the smaller cache is a prefix of the larger, which never misses more, calls `pread` more often or takes more bytes |
| HexReader.HexReader.WithOptions | crates/princess-bin/src/hex.rs:151-175 | fails exactly when the path cannot be opened or stat-ed; otherwise an empty cache with the geometry clamped to at least one window of one byte |
| HexReader.HexReader.Window | crates/princess-bin/src/hex.rs:336-375 | one access to the deque, counters included, is the access of the model |
| HexReader.HexReader.ReadRange | crates/princess-bin/src/hex.rs:253-281 | bytes, cache, counters and error of a read: a prefix of the file always, the exact slice on an up-to-date cache; how often a short read counts, and when the bytes read stay within the bytes served |
| HexReader.OneTickIffSaturated | crates/princess-bin/src/hex.rs:266-279 | on an up-to-date reader a read counts as short exactly once only where the end of its range saturates; two bytes of a one-byte file count twice |
| HexReader.HexReader.ReadLines | crates/princess-bin/src/hex.rs:317-334 | every row up to the recorded length is rendered from a prefix of the bytes at its place, whatever the cache holds; on an up-to-date cache they are exactly the rows of the file |
| HexReader.HexReader.Stats | crates/princess-bin/src/hex.rs:220-235 | the counters, with the bytes actually held below the resident figure and that below the byte bound |
| HexReader.HexReader.ClearCache | crates/princess-bin/src/hex.rs:238-241 | empties the cache and makes reads exact again |
| HexReader.HexReader.RefreshLen | crates/princess-bin/src/hex.rs:208-219 | takes over the current size, or keeps the old one when `stat` fails, and keeps every cached window valid |
| HexReader.HexReader.FileGrows | crates/princess-bin/src/hex.rs:200-207 | an append by another process keeps the reader's invariant |
| HexReader.RowsCover | crates/princess-bin/src/hex.rs:310-334 | the rows of a range are its bytes in order, none lost or repeated |
| HexReader.RowAt | crates/princess-bin/src/hex.rs:310-334 | row k starts at 16k bytes past the first, and only the last row of the file is marked short |
| HexLines.RenderLine | crates/princess-bin/src/hex.rs:378-408 | the loop and the trimming make the sixteen cells, joined, and the ASCII column |
| HexLines.HexColumnReadsBack | crates/princess-bin/src/hex.rs:378-408 | the hexadecimal column read back gives exactly the bytes of the row |
| HexLines.AsciiColumn | crates/princess-bin/src/hex.rs:378-408 | the ASCII column shows graphic characters and the space, a dot for any other byte and a space past the end |
| GuestMemory.BytesRoundTrip | crates/princess-bin/src/guestmem.rs:160-187 | reading n little-endian bytes of a fitting word gives the word |
| GuestMemory.WordRoundTrip | crates/princess-bin/src/guestmem.rs:160-187 | and writing the word read gives the bytes |
| GuestMemory.PutBytesReads | crates/princess-bin/src/guestmem.rs:148-178 | where each byte of a write lands, and that no other address changes |
| GuestMemory.ReadAfterWrite | crates/princess-bin/src/guestmem.rs:160-187 | a word written inside RAM is read back |
| GuestMemory.ReadElsewhere | crates/princess-bin/src/guestmem.rs:160-212 | a write leaves every word it does not overlap as it was, errors included |
| GuestMemory.GuestRam.WriteByte | crates/princess-bin/src/guestmem.rs:148-158 | sets one byte inside RAM, refuses and changes nothing outside |
| GuestMemory.GuestRam.WriteBytes | crates/princess-bin/src/guestmem.rs:171-177 | writes the bytes that fit and names the first address outside RAM |
| GuestMemory.GuestRam.WriteU64 | crates/princess-bin/src/guestmem.rs:160-169 | shifts the word's bytes out little-endian, keeping those before the end of RAM |
| GuestMemory.GuestRam.ReadBytes | crates/princess-bin/src/guestmem.rs:189-212 | the bytes, the two distinct errors outside and across the end of RAM, or an address overflow behind the saturated end |
| GuestMemory.GuestRam.ReadU64 | crates/princess-bin/src/guestmem.rs:180-187 | or-ing shifted bytes gives the little-endian word |
| GuestMemory.SaturationShowsIff | crates/princess-bin/src/guestmem.rs:189-212 | the saturating end changes an answer exactly when RAM declares 2^64 - 1 bytes and the read ends above that |
| GuestMemory.SaturatedReadPasses | crates/princess-bin/src/guestmem.rs:189-212 | in such a RAM the last byte of the address space reads as zero and two bytes from there overflow the address |
| PageTable.MasksAreFields | crates/princess-bin/src/pagetable.rs:348-369 | the three address masks of the source pick the fields the model uses |
| PageTable.FlagsAreBits | crates/princess-bin/src/pagetable.rs:312-325 | P is bit 0 of an entry and PS bit 7 |
| Translation.CanonicalIffTopBitsEqual | crates/princess-bin/src/pagetable.rs:689-710 | sign extension reproduces an address exactly when bits 63..47 (63..56 under LA57) agree |
| Translation.EdgeWidths | crates/princess-bin/src/pagetable.rs:689-699 | widths that leave no bit to extend accept every address |
| Translation.GuardedRefinesPlain | crates/princess-bin/src/pagetable.rs:824-906 | at any level, without a cyclic answer the guarded recursion is the plain one, entry for entry |
| Translation.WalkRefinesPlain | crates/princess-bin/src/pagetable.rs:795-932 | a walk that does not answer `Cycle` is the walk without a visited list |
| Translation.CycleIffTablesRepeat | crates/princess-bin/src/pagetable.rs:824-846 | `Cycle` arises exactly when the chain of tables repeats, naming the first repeated table and the level that reached it |
| Translation.WalkRefusals | crates/princess-bin/src/pagetable.rs:795-846 | exactly which addresses are non-canonical and exactly which walks are cyclic |
| Translation.WalkOkIffPath | crates/princess-bin/src/pagetable.rs:795-932 | soundness and completeness: `Ok(w)` exactly for the complete path through distinct tables that `w` describes |
| Translation.PresenceOnPath | crates/princess-bin/src/pagetable.rs:859-904 | in a finished walk all entries above the last are present tables; a 4 KiB leaf is present, a huge one only has PS |
| Translation.IndicesAreFields | crates/princess-bin/src/pagetable.rs:235-243 | the index of each level is its nine bits of the address: 56:48, 47:39, 38:30, 29:21, 20:12 |
| Translation.WalkSpellsAddress | crates/princess-bin/src/pagetable.rs:795-932 | in a finished walk the indices, worth 2^48, 2^39, 2^30, 2^21 and 2^12 by level, and the offset add up to the low 48 bits of the address, or 57 under LA57 |
| Translation.LeafBounds | crates/princess-bin/src/pagetable.rs:359-369 | leaf bases are aligned to their size and the page ends at or below 2^52 |
| Translation.OrIsSum | crates/princess-bin/src/pagetable.rs:630-634 | or-ing the offset into the base adds it |
| Translation.SamePageSamePath | crates/princess-bin/src/pagetable.rs:795-932 | every address of a leaf's page follows the identical entries |
| Translation.TranslationIsAffine | crates/princess-bin/src/pagetable.rs:795-932 | if one address of a page resolves, every one does, affinely, or is refused for exactly its own physical address outside RAM; no sum overflows |
| Translation.VirtualRangeFitsIff | crates/princess-bin/src/pagetable.rs:643-648 | the end of the virtual range fits in 64 bits exactly when the page is not the topmost one |
| WalkWitnesses.TopPageIsMapped | crates/princess-bin/src/pagetable.rs:643-648 | RAM in which the last 1 GiB of the address space is mapped and its virtual range ends at 2^64 |
| Translation.EntryReadsAreExact | crates/princess-bin/src/pagetable.rs:824-846 | every entry a walk reads lies below 2^52, where the 64-bit read of RAM is the modelled one |
| Translation.WalkDependsOnPath | crates/princess-bin/src/pagetable.rs:824-906 | a finished walk depends on memory only through the entries it read |
| Translation.WriteOffPath | crates/princess-bin/src/guestmem.rs:160-178 | a RAM write that misses the entries of a walk leaves the walk unchanged |
| Translation.EntriesDisjoint | crates/princess-bin/src/pagetable.rs:824-846 | the entries of a path lie in distinct aligned tables, so no two overlap |
| Translation.OverwriteLeaf | crates/princess-bin/src/pagetable.rs:859-932 | overwriting the last entry with another leaf of that size keeps the path and moves only the base, or reports the new address outside RAM |
| Translation.RetraceFollowsWalk | crates/princess-bin/src/pagetable.rs:968-1019 | where the walk finds a hole, retracing to its level reads the same entries |
| Translation.HolesAreExplained | crates/princess-bin/src/pagetable.rs:942-1019 | a hole always comes back as a finding with the levels above it and the true address of the absent entry; every other outcome is passed on |
| Walker.Walk | crates/princess-bin/src/pagetable.rs:795-932 | the loop computes the recursive walk |
| Walker.PartialPath | crates/princess-bin/src/pagetable.rs:968-1019 | the loop retraces a walk down to one level |
| Walker.WalkOrExplain | crates/princess-bin/src/pagetable.rs:942-966 | never fails on a hole, and what it returns explains the hole |
| Walker.WriteAndWalk | crates/princess-bin/src/guestmem.rs:160-187 | writing a word to RAM and walking again: off the path nothing changes, a new leaf moves only the base |
| Architecture.PlainIsSdm | crates/princess-bin/src/pagetable.rs:859-906 | for every processor the recursion is the processor's exactly when the processor meets no odd entry: absent with PS set, present with a reserved bit the code ignores, or a 4 KiB entry with PAT set |
| Architecture.SdmEndsAtFirstOdd | crates/princess-bin/src/pagetable.rs:824-906 | the processor reads the entries the code reads up to the first odd one and ends there; without one both paths and ends are the same |
| Architecture.WalkIsSdmIff | crates/princess-bin/src/pagetable.rs:795-932 | `walk` answers as the processor does exactly when the address is not canonical, or no table repeats and the processor meets no odd entry |
| Architecture.FinishedWalkIsSdmIff | crates/princess-bin/src/pagetable.rs:859-932 | a finished walk is the processor's exactly when its leaf is present and no entry on its path has a reserved bit set; otherwise the processor faults |
| Architecture.RefusedBitSeven | crates/princess-bin/src/pagetable.rs:859-904 | where the walk refuses bit 7 the processor maps the page exactly when the entry is a present 4 KiB one and no entry on the path has a reserved bit set |
| Architecture.ReservedFlagSaysNothing | crates/princess-bin/src/pagetable.rs:336-342 | `reserved_bits_set` can be made true or false of any entry without changing whether the processor faults on it |
| WalkWitnesses.AbsentLeafIsFound | crates/princess-bin/src/pagetable.rs:859-904 | RAM in which the walk ends at an absent leaf and the processor faults |
| WalkWitnesses.ReservedHugeIsFound | crates/princess-bin/src/pagetable.rs:859-904 | RAM in which the walk ends at a present 2 MiB leaf with reserved bit 13 set and the processor faults |
| WalkWitnesses.PatIsRefused | crates/princess-bin/src/pagetable.rs:859-904 | RAM in which the walk refuses a present 4 KiB entry with PAT set and the processor maps it |
| Sse.FindFrameEnd | crates/princess-ai/src/sse.rs:101-131 | the loop finds the first blank-line pattern, of two to four bytes |
| Sse.FrameEndStable | crates/princess-ai/src/sse.rs:101-131 | a frame end found in a prefix is that of the whole stream, despite the look-ahead |
| Sse.DecodeFrame | crates/princess-ai/src/sse.rs:133-158 | the data lines of a frame joined by LF, or the sentinel, or nothing |
| Text.FirstIffEncoded | crates/princess-ai/src/sse.rs:134 | text read lossily holds a character exactly where its own bytes stand: overlong forms, surrogates and cut characters never become one |
| Text.ReplacedIsLongest | crates/princess-ai/src/sse.rs:134 | what a replacement character stands for is one byte or the longest beginning of a character |
| Sse.LineDataOfSent | crates/princess-ai/src/sse.rs:133-158 | a `data:` line gives its text, less one optional space; comments, other fields and anything that is not `data:` give nothing; a carriage return at the end changes nothing |
| Sse.SentDecodes | crates/princess-ai/src/sse.rs:101-158 | a frame of any sendable lines decodes to its data lines joined by LF, to nothing when it has none, or to the sentinel, whatever follows |
| Sse.OthersCarryNothing | crates/princess-ai/src/sse.rs:133-158 | comments and other fields anywhere among the lines of a frame change nothing |
| Sse.SseDecoder.Push | crates/princess-ai/src/sse.rs:59-87 | a push appends, drains every complete frame and stops for good at the sentinel |
| Sse.SseDecoder.Finish | crates/princess-ai/src/sse.rs:91-97 | flushes the one frame that lacks its blank line |
| Sse.UnendedStays | crates/princess-ai/src/sse.rs:91-97 | a last frame without its blank line stays in the buffer, and the flush decodes it |
| Sse.DrainAppend | crates/princess-ai/src/sse.rs:59-87 | draining in two steps is draining at once |
| Sse.PushTwice | crates/princess-ai/src/sse.rs:59-87 | two pushes are one push of their concatenation: events, residue and sentinel flag |
| Sse.ChunkingInvariance | crates/princess-ai/src/sse.rs:59-97 | any cut of any stream gives the events, residue and sentinel flag of one push, and with them the outcome of `finish` |
| Sse.FramedDecodes | crates/princess-ai/src/sse.rs:101-158 | a payload framed line by line decodes to itself whatever follows, with LF or CRLF; a framed sentinel ends the stream |
| Sse.SentAllDecodes | crates/princess-ai/src/sse.rs:59-158 | frames of any sendable lines decode in order to the payloads of those that have one, and decoding goes on behind them |
| Sse.StreamRoundTrip | crates/princess-ai/src/sse.rs:59-158 | a server's whole stream, with comments and other fields anywhere and cut anywhere, decodes to its payloads and the sentinel; what follows the sentinel is ignored |
| Chunked.DecodeChunked | crates/princess-ai/src/http.rs:610-633 | the loop computes the verdict on a body |
| Chunked.DecodeChunkedPartial | crates/princess-ai/src/http.rs:635-657 | the loop collects the chunks that arrived in full |
| Chunked.VerdictStable | crates/princess-ai/src/http.rs:610-633 | complete and malformed verdicts survive any further bytes |
| Chunked.ArrivedMonotone | crates/princess-ai/src/http.rs:635-657 | more bytes only extend the partial decoding |
| Chunked.ArrivedIsComplete | crates/princess-ai/src/http.rs:610-657 | of a complete body the partial decoding is the decoding |
| Chunked.ChunksInFront | crates/princess-ai/src/http.rs:610-657 | whole chunks in front of any bytes are decoded off in order, by both decoders |
| Chunked.ChunkedRoundTrip | crates/princess-ai/src/http.rs:610-633 | decoding undoes encoding for all non-empty chunks, sizes in digits of either case with zeros in front and blanks behind, CRLF-free extensions and trailing bytes |
| Chunked.CutTransfer | crates/princess-ai/src/http.rs:635-657 | a transfer cut inside a chunk yields exactly the chunks before it, and asks for more |
| Chunked.WordsAgreeIff | crates/princess-ai/src/http.rs:610-657 | with 64-bit additions both decoders give these results exactly when the size line where the whole chunks end announces a chunk that fits |
| Chunked.LargestSizeOverflows | crates/princess-ai/src/http.rs:610-633 | a first size line that says 2^64 - 1 overflows whatever follows |
| Http.HeaderEndStable | crates/princess-ai/src/http.rs:504-506 | a header end found in a prefix is that of the stream |
| Http.HeaderEndIsFirst | crates/princess-ai/src/http.rs:504-506 | the header ends at the first CRLFCRLF |
| Http.BodyVerdictStable | crates/princess-ai/src/http.rs:423-480 | once a body is decided, by any framing, more bytes do not change it |
| Http.Socket.ReadMore | crates/princess-ai/src/http.rs:513-544 | one read: bytes under the ceiling, clean close, or failure |
| Http.ReadHeader | crates/princess-ai/src/http.rs:372-389 | the header block and what was read beyond it, losing no byte, or an error the bytes account for |
| Http.ReadBody | crates/princess-ai/src/http.rs:423-480 | the body the framing determines from all the bytes, or the callback's first refusal |
| Http.ReadResponse | crates/princess-ai/src/http.rs:361-488 | under the ceilings the response depends on the bytes and the way the stream ends alone, and the callback was given exactly the body bytes consumed, up to its first refusal |
| HttpMessages.HeadParses | crates/princess-ai/src/http.rs:391-421 | a written header block parses to its status, reason and fields, and is framed by them |
| HttpMessages.FramingIs | crates/princess-ai/src/http.rs:400-421 | which fields give which framing: chunked whatever length is declared, else the length, else the close; any content encoding but identity is refused |
| HttpMessages.ChunkedMessage | crates/princess-ai/src/http.rs:361-488 | bytes to body: a message whose first `Transfer-Encoding` mentions chunked, in any case, is read as the data of its chunks, whatever `Content-Length` says and however the stream ends |
| HttpMessages.CutChunkedMessage | crates/princess-ai/src/http.rs:423-444 | cut inside a chunk it is the chunks before when the stream closes, and the failure when it fails |
| HttpMessages.LengthMessage | crates/princess-ai/src/http.rs:446-459 | a declared length gives that many bytes, or an error when the stream ends before, even cleanly |
| HttpMessages.CloseMessage | crates/princess-ai/src/http.rs:460-472 | with neither, every byte up to the close |
| HttpMessages.EncodedMessage | crates/princess-ai/src/http.rs:406-416 | encoded content is refused by its name |
| HttpMessages.OtherProtocol | crates/princess-ai/src/http.rs:490-502 | a first line of another protocol, or with a status that 16 bits do not hold, is refused, and with it the message |
| Http.SeenIsWholeBody | crates/princess-ai/src/http.rs:423-480 | without chunking and surplus bytes, the increments concatenate to the whole body |
| AiProtocol.ExchangeFinishes | crates/princess-ai/src/openai.rs:258-366 | an exchange emits its one terminal event, after all chunks, exactly when it succeeds |
| AiProtocol.NothingAfterCancel | crates/princess-ai/src/openai.rs:258-308 | from the first delivery that saw a cancellation on, the stream emits nothing more |
| AiProtocol.CancelledExchange | crates/princess-ai/src/openai.rs:258-366 | after that point neither the stream nor the final flush adds a chunk |
| AiProtocol.DeliverTwice | crates/princess-ai/src/openai.rs:258-308 | two deliveries are one of their concatenation, events and usage included |
| AiProtocol.RunIsOneDelivery | crates/princess-ai/src/openai.rs:258-308 | an uncancelled exchange processes its increments as if they came in one piece |
| AiProtocol.EndToEnd | crates/princess-ai/src/openai.rs:252-366 | socket to events: for an uncancelled, unchunked response without surplus bytes all events and the result are those of the whole body at once, for every cut |
| AiProtocol.PayloadsTaken | crates/princess-ai/src/openai.rs:272-308 | payloads make their events one after another, the last usage reported stands, and any text counts as content |
| AiProtocol.ServedStream | crates/princess-ai/src/openai.rs:258-366 | frames to events: a whole stream with its sentinel, cut anywhere and answered 2xx, emits the events of its payloads in order and one `AiFinished` with the last usage |
| AiProtocol.UnendedStream | crates/princess-ai/src/openai.rs:310-332 | a stream that closes inside its last frame loses nothing of it; one that does not parse is passed over |
| AiProtocol.ResultIsStatus | crates/princess-ai/src/openai.rs:310-366 | the result is the failure of the read, a cancelled flush, success for a 2xx status, or the status |
| OpenAi.StreamConsumer.OnBody | crates/princess-ai/src/openai.rs:258-308 | the callback, event by event, is one delivery of the protocol |
| OpenAi.StreamConsumer.OnEnd | crates/princess-ai/src/openai.rs:310-332 | the final flush, and whether a cancellation stopped it |
| OpenAi.OpenAiProvider.Cancel | crates/princess-ai/src/openai.rs:451-468 | raises the flag of each live exchange of that request, and no other request's |
| OpenAi.OpenAiProvider.Sample | crates/princess-ai/src/openai.rs:493-495 | a delivery samples the flag that `cancel` raised, and the token |
| OpenAi.SeenIsMonotone | crates/princess-ai/src/openai.rs:493-495 | sampled flags stay raised, given only that the token does |
| OpenAi.OpenAiProvider.RemoveLive | crates/princess-ai/src/openai.rs:369-375 | unregisters that request |
| OpenAi.WithoutKeepsOthers | crates/princess-ai/src/openai.rs:369-375 | no entry of the request stays and every other one does |
| OpenAi.OpenAiProvider.Exchange | crates/princess-ai/src/openai.rs:220-367 | the events and result of one exchange are those of the increments read while other threads call `cancel`, and its live entry is gone on every path |
| OpenAi.OpenAiProvider.Replay | crates/princess-ai/src/openai.rs:258-366 | the callback run over the increments, its flag sampled before each, and the end of the exchange emit what the protocol says |
| OpenAi.OpenAiProvider.TryTwice | crates/princess-ai/src/openai.rs:424-441 | one exchange, and exactly one retry when the server rejected the option |
| OpenAi.RejectionIff | crates/princess-ai/src/openai.rs:497-508 | an answer counts as a rejection of the option exactly when its status is not 408 and its body, trimmed and cut at 2048 bytes, mentions one of three phrases in any case |
| OpenAi.ReasonRejectionIff | crates/princess-ai/src/openai.rs:497-508 | a failed connection or an unreadable reply does exactly when its reason mentions one |
| OpenAi.TakesTheMost | crates/princess-ai/src/error_map.rs:139-150 | the cut keeps the longest beginning that fits and cuts no character |
| OpenAi.OpenAiProvider.ChatCompletions | crates/princess-ai/src/openai.rs:394-449 | up-front refusals emit nothing; every other run emits exactly one terminal event, after every chunk, and leaves no live entry |
| OpenAi.ChatFinishesOnce | crates/princess-ai/src/openai.rs:394-449 | whether one or two exchanges ran, their events and the failure report hold exactly one terminal event, after every chunk |
| OpenAi.CancelledFromStart | crates/princess-ai/src/openai.rs:258-366 | an exchange that starts cancelled emits no chunk |
| OpenAi.NoChunkAfterToken | crates/princess-ai/src/openai.rs:394-449 | after a delivery that found the one token cancelled, in the first exchange or in the retry, the request emits no chunk |
| OpenAi.NoChunkAfterCancel | crates/princess-ai/src/openai.rs:394-449 | after `cancel` took effect on the first exchange the request emits no chunk if and only if it does not retry or the retry emits none |
| OpenAi.NoChunkAfterRetryCancel | crates/princess-ai/src/openai.rs:394-449 | after `cancel` took effect on the retry the request emits no chunk |
| OpenAi.CancelledRetriesIff | crates/princess-ai/src/openai.rs:258-441 | a request cancelled in its first exchange retries if and only if the option was rejected and no delivery since, nor the flush, completed an event |
| CancelWitness.ChunkAfterCancel | crates/princess-ai/src/openai.rs:220-441 | a 400 whose body completes no event, cancelled before its first delivery, then a retry that answers: all events of the request, a chunk after `cancel` among them |
| LineTable.SortIsStablePermutation | crates/princess-bin/src/source.rs:413-414 | rows are permuted into ascending starts, those of one start keeping their order |
| LineTable.BuildSegments | crates/princess-bin/src/source.rs:413-448 | the loop extends or appends segments row by row |
| LineTable.SegmentsTile | crates/princess-bin/src/source.rs:416-448 | with ascending starts, segments are non-empty, contiguous and maximally coalesced, from the first start to one past the last |
| LineTable.SegmentsFaithful | crates/princess-bin/src/source.rs:416-448 | every segment starts at a row and names what each row inside it names |
| LineTable.BuiltTableTiles | crates/princess-bin/src/source.rs:413-448 | the same of the table built from any raw rows with distinct starts below the last address |
| LineTable.SegmentsOrdered | crates/princess-bin/src/source.rs:416-448 | whatever the rows, starts and ends of the segments both ascend |
| LineTable.SegmentsAreIntervals | crates/princess-bin/src/source.rs:416-448 | coalescing neither drops nor adds an address of any row |
| LineTable.LineRangeForAddress | crates/princess-bin/src/source.rs:325-343 | what the search returns covers the address; in an ordered table it finds none only where none covers it |
| LineTable.LookupIsNaive | crates/princess-bin/src/source.rs:325-448 | for all raw rows: the table is ordered, a covering segment names a row with the greatest start at or below the address, and the covered addresses are those from the first start to the last, short of 2^64-1 |
| LineTable.OverlapIffRepeatedStart | crates/princess-bin/src/source.rs:325-448 | for all raw rows, segments overlap exactly when two share a start below 2^64-1 |
| LineTable.LastAddressIsNeverCovered | crates/princess-bin/src/source.rs:420-426 | the saturating end leaves address 2^64-1 out of every segment |
| Gdt.SegmentRoundTrip | crates/princess-bin/src/descriptor.rs:161-205 | the decoded fields of a segment descriptor rebuild its raw word |
| Gdt.SystemRoundTrip | crates/princess-bin/src/descriptor.rs:537-575 | those of a system descriptor rebuild its low word up to two unused bits, and its base continues with the upper half of the second slot |
| Gdt.BaseIsSdmIff | crates/princess-bin/src/descriptor.rs:547-551 | the decoded base is the architectural one exactly when both halves of the second slot are the same |
| Gdt.LaidOutBaseIff | crates/princess-bin/src/descriptor.rs:547-551 | a descriptor laid out as the manual says for a base decodes to it exactly when the base is below 4 GiB |
| Gdt.HigherHalfTssIsLost | crates/princess-bin/src/descriptor.rs:547-551 | a TSS at 0xffff800000100000 decodes to base 0x100000 |
| Gdt.Read | crates/princess-bin/src/descriptor.rs:459-515 | one entry a slot, each describing what memory holds there, or the error of the first unreadable slot |
| Gdt.SlotsFill | crates/princess-bin/src/descriptor.rs:464-466 | the slots are those that end within the limit |
| Gdt.SlotAddressesFit | crates/princess-bin/src/descriptor.rs:459-515 | over RAM no slot address overflows, because the slot before it was readable |
| Gdt.HighHalvesFollow | crates/princess-bin/src/descriptor.rs:484-508 | an entry is a high half exactly when the one before it is a system entry of type 2, 9, 11 or 12, which it names |
| Gdt.SelectorsIndexEntries | crates/princess-bin/src/descriptor.rs:439-452 | in a table of up to 64 KiB entry k sits at offset 8k, so a selector names the entry its upper bits index |
| Gdt.SelectorLookup | crates/princess-bin/src/descriptor.rs:439-452 | looking a selector up in a table of up to 64 KiB gives the entry its upper bits index, or none beyond it |
| Gdt.EntryForSelector | crates/princess-bin/src/descriptor.rs:449-452 | the first entry at the selector's offset, or none when no entry sits there |
| Idt.KernelIdt.SetGate | fixtures/paging-kernel/idt.c:38-47 | assigning the fields one by one makes the gate of the handler and touches no other vector |
| Idt.KernelIdt.Init | fixtures/paging-kernel/idt.c:49-63 | every vector has its stub's gate, vectors from 32 on that of stub 6, and the limit is 4095 |
| Idt.HandlerBytes | crates/princess-bin/src/descriptor.rs:751-756 | for any 16 bytes the decoded handler is the little-endian word of bytes 0-1, 6-7 and 8-11 |
| Idt.HandlerRoundTrip | fixtures/paging-kernel/idt.c:38-47 | splitting a handler into three fields and joining them again gives it back |
| Idt.GateRoundTrip | crates/princess-bin/src/descriptor.rs:721-771 | the reader's gate undoes the C encoder: handler, selector 8, IST 0, DPL 0, interrupt, present |
| Idt.AnyGateRoundTrip | crates/princess-bin/src/descriptor.rs:721-771 | decoding the 16 bytes of any handler, selector, IST, kind, DPL and present bit gives exactly those, whatever the ignored bits hold |
| Idt.RefusedGateIff | crates/princess-bin/src/descriptor.rs:736-749 | a gate is refused, by its type, exactly when that is none of 5, 14 and 15 and some byte is not zero |
| Idt.InstalledIff | crates/princess-bin/src/descriptor.rs:793-804 | the listed vectors are those of gates that are present and not all zeros |
| Idt.Read | crates/princess-bin/src/descriptor.rs:712-777 | the table memory holds, gate by gate, or the first error |
| Idt.GatesFill | crates/princess-bin/src/descriptor.rs:717-719 | the gates are those that end within the limit |
| Idt.GateAddressesFit | crates/princess-bin/src/descriptor.rs:712-777 | over RAM no gate address overflows, because the gate before it was readable |
| Idt.GatesAreHeld | crates/princess-bin/src/descriptor.rs:712-777 | one gate for every 16 bytes of the limit, each decoded from its own bytes, or the failure of the first gate that has one |
| Idt.Gate | crates/princess-bin/src/descriptor.rs:779-782 | the first gate of a vector, or none when there is none |
| Idt.StoredTableIsHeld | fixtures/paging-kernel/idt.c:19-31 | the packed table stored in RAM is held there entry by entry |
| Idt.HeldTableReadsBack | crates/princess-bin/src/descriptor.rs:712-777 | the same in any memory that holds the table entry by entry |
| Idt.KernelTableReadsBack | crates/princess-bin/src/descriptor.rs:712-804 | for every stub table stored anywhere in RAM: reading at limit 4095 gives 256 gates with the full handlers of the stubs that serve them, all installed |
| InfoTlb.DecodeTlbFlags | crates/princess-bin/src/monitor.rs:562-590 | the loop accepts exactly the nine-column fields and sets the flag of each letter |
| InfoTlb.FlagsInverse | crates/princess-bin/src/monitor.rs:562-590 | decoding and printing flags are inverse on both sides |
| InfoTlb.LinesWithOffsets | crates/princess-bin/src/monitor.rs:335-346 | numbers, byte offsets and texts of the lines |
| InfoTlb.LinePosition | crates/princess-bin/src/monitor.rs:335-346 | line k of a text starts after k newlines and at its UTF-8 offset, and is one whole line |
| InfoTlb.PiecesConcat | crates/princess-bin/src/monitor.rs:335-346 | text made of whole lines splits on its own, whatever follows |
| InfoTlb.ParseInfoTlb | crates/princess-bin/src/monitor.rs:487-555 | the loop computes the entries or the first error, each with its reason |
| InfoTlb.LineAccepted | crates/princess-bin/src/monitor.rs:487-555 | a hexadecimal address with a colon, another and nine flag columns make an entry, however they are spaced |
| InfoTlb.LineRefused | crates/princess-bin/src/monitor.rs:487-555 | every other line is refused for the first reason that holds, and a line without words is passed over |
| InfoTlb.AddressIff | crates/princess-bin/src/monitor.rs:487-555 | an address is exactly a hexadecimal spelling, in any case and with zeros in front, of a number below 2^64 |
| InfoTlb.ErrorsLocateTheFirstBadLine | crates/princess-bin/src/monitor.rs:487-555 | an error names a malformed line by its 1-based number and the byte offset where it starts, and the text before it parses |
| InfoTlb.LocatedErrorsAreReported | crates/princess-bin/src/monitor.rs:487-555 | conversely a malformed line with only well-formed text before it is the one reported |
| InfoTlb.RoundTrip | crates/princess-bin/src/monitor.rs:487-555 | parsing undoes the printed report of every list of entries, with LF or CRLF |
| ShellSplit.ShellSplit | crates/princess-build/src/backend.rs:897-935 | the character loop computes the split |
| Text.WhitespaceIs | crates/princess-build/src/backend.rs:922 | the separators are the 25 characters with the Unicode White_Space property |
| ShellSplit.SplitIsGroupedLex | crates/princess-build/src/backend.rs:897-935 | the one-pass loop equals resolving quotes first and grouping literals between blanks second |
| ShellSplit.NoEmptyArguments | crates/princess-build/src/backend.rs:897-935 | no argument is ever empty |
| ShellSplit.QuotingRoundTrip | crates/princess-build/src/backend.rs:897-935 | quoting arguments and splitting gives them back exactly when none is empty |
| ShellSplit.RequotingRoundTrip | crates/princess-build/src/backend.rs:897-935 | re-quoting and re-splitting the split of any string changes nothing |
| ShellSplit.CommandLineReads | crates/princess-build/src/backend.rs:897-935 | arguments written in bare text, either kind of quotes and escapes side by side, with any whitespace around them, split into exactly what was meant |
| ShellSplit.LeftOpen | crates/princess-build/src/backend.rs:897-935 | an unclosed quote runs to the end, and a final backslash is lost |
| DisplayArgv.DebugReads | crates/princess-build/src/process.rs:409-420 | an item shown in debug form always reads back as one argument, and which |
| DisplayArgv.AsciiDebug | crates/princess-build/src/process.rs:409-420 | how string debugging shows each ASCII character |
| DisplayArgv.RereadIsSame | crates/princess-build/src/process.rs:409-420 | that argument is the item exactly when no character needed a letter or code escape |
| DisplayArgv.NeverOneMore | crates/princess-build/src/process.rs:409-420 | by counting whitespace: the display of some arguments never reads as those and one more |
| DisplayArgv.DisplayRoundTrip | crates/princess-build/src/process.rs:409-420 | splitting a display gives the arguments back if and only if every item is non-empty and either has a space and no escaped character, or has no whitespace, quote or backslash |

## Left out

- HexReader.HexReader.ReadRange: counters are unbounded, so their overflow and that of `byte_bound` are not modelled; a file that shrinks is not either, only one that grows.
- WindowCache.BytesReadWithinServed: the converse is for reads behind every cached window, the empty cache among them; how many bytes any other read takes depends on the eviction order, and is `WindowCache.RunLoads`.
- Http.ReadResponse: the body loops of the three framings are one loop that asks the framing whether it has seen enough; error texts that quote a count of bytes are a fixed word.
- OpenAi.OpenAiProvider.Exchange: the callback runs over the recorded increments after the read; the read itself sees the callback's verdict as a function of the increments, which `OpenAi.StreamConsumer.OnBody` computes.
- OpenAi.CancelledRetriesIff: when an abort makes a read fail is the environment's choice, so the statement also covers deliveries behind the flag that the abort check before each read of the source prevents.
- OpenAi.RejectionIff: the mark that a cut response body gets at its end is not part of the detail; it starts with an ellipsis, so no phrase looked for lies in it or across it.
- Architecture.WalkIsSdmIff: access rights, protection keys, paging-structure caches and reserved bits of CR3 are not part of the processor's side, and bits 62:52 of an entry are ignored there.
- OpenAi.NoChunkAfterToken: assumes what the token's owner promises, that a raised token stays raised.
- Chunked.DecodeChunked: sizes are unbounded; `Chunked.WordsAgreeIff` says exactly when the 64-bit additions of the code give the same.
- Chunked.DecodeChunkedPartial: the same.
- Gdt.Read: addresses are naturals. Over RAM they always fit 64 bits (`Gdt.SlotAddressesFit`); a source that answers at the very top of the address space could make the code overflow instead.
- Idt.Read: the same (`Idt.GateAddressesFit`); and memory is required to return as many bytes as asked for, as the source's fixed-size copy does.
- LineTable.LineRangeForAddress: a standard bisection stands for the library's; where repeated starts make several segments cover one address, which of them it meets is the library's choice.
- Translation.TranslationIsAffine: the virtual range is stated over naturals; `Translation.VirtualRangeFitsIff` says for which page that differs from 64 bits.
- DisplayArgv.DisplayRoundTrip: which characters beyond ASCII string debugging shows as themselves is a parameter, so the statement holds for every such table.
- Walker set-up from register text, the paging-mode guards of its constructor, permission bits along a path and their summaries: easy members.
- TSS decoding, descriptor labels, ring-3 vector lists, `read_tables`: easy members.
- The `info mem`, `info registers` and `info cpus` parsers: the same shape as `info tlb`, with easier grammars.
- URL parsing, request building, name resolution, TCP, `poll` and clocks: input and output; deadlines and aborts are failures of a read.
- JSON bodies, the message texts of logs, and event sinks that fail.
- DWARF loading, file names and inlining: the table starts from the collected rows.
- Process spawning, QEMU control, project and toolchain discovery, and the user interface.
