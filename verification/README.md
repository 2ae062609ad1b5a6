# Verified models of sqlite-wasm-rs

sqlite-wasm-rs runs SQLite in the browser. It brings its own C library shims (sorting,
formatted output, number parsing, floating-point remainders, string scans) and two file
systems: one in memory, one over the slots of a browser's private file system. This project
models the parts where a mistake is silent and hard to see, and proves what they promise.

Run `dafny verify dfyconfig.toml`.

## What is modelled

**Smoothsort** (`Bits`, `WordPair`, `Leonardo`, `LeonardoHeap`, `SmoothsortSteps`,
`Smoothsort`, `ElementBytes`, `Bsearch`). The sort runs in place on an array, with its forest
of Leonardo trees encoded in two 32-bit words and an order offset exactly as in C. The
specification side has the forest as a list of orders; `Leonardo.Code` is the number the two
words must hold. `pntz`, which looks for the next tree, calls `__builtin_ctz(0)` when the low word is 1;
the value of that undefined call is the parameter `ctz0`. For every total preorder,
`Smoothsort.Qsort` sorts and permutes every array up to 11405773 elements whatever `ctz0` is,
and up to 18454929 elements where it is 32, as on WebAssembly. `ElementBytes` has the elements
as bytes in memory, moved by `cycle` in pieces of 256.

**The slot pool** (`Bytes`, `Unicode`, `SlotHeader`, `PoolDisk`, `PoolState`, `SahPool`, `PoolRuns`).
Each slot on disk has the header its handle reads, the set of headers a crash can leave, its
content, and whether the content is durable. A header write is atomic; every write, flush,
truncation and directory operation can fail, with or without having taken effect. Each method
of `SahPool.OpfsSAHPool` is one stretch of code between two awaits; what an unfinished
operation keeps is in the field `op`, and a caller can drop it at any point. The ghost field
`trail` records the disk after every single I/O step, so "a crash at any moment" is a
statement about all its elements. `PoolRuns.Run` executes any sequence of calls, drops and
crashes. `Common` holds what several parts share.

**The memory file and database transfer** (`MemChunks`, `ReadCallback`, `TransferRules`,
`MemVfs`, `Transfer`). The chunked file refines a flat string of bytes; imports and exports
stream an image in arbitrary pieces; together they give a round trip.

**Exact arithmetic** (`Fmodl`, `Decimal`, `DecimalValue`, `DecimalScale`, `DecimalRead`). The
113-bit remainder on wrapping 64-bit halves, and the base-10^9 circular-buffer arithmetic that
turns the text of a number into exactly 113 bits of it.

**Printing, parsing and strings** (`PrintfText`, `PrintfFormat`, `Printf`, `PrintfStandard`,
`Strtol`, `StrtolStandard`, `PrintParse`, `UnsignedParse`, `WordStrings`). `PrintfText` says what a
conversion prints; `PrintfFormat` says how format strings are spelled and takes them apart;
`Printf` builds the text backwards in a 32-character buffer, as the C code does, and cuts it off
at the output buffer's end. `PrintfStandard` and `StrtolStandard` say what the C standard asks of
integer conversions and of numbers in text, independently of the code, and when the code does it;
`PrintParse` and `UnsignedParse` are the round trips between the two.

## What turned out false

Each of these has a lemma with a concrete input and one with the exact condition.

- `pntz` does not always find the next set bit: where `ctz` of 0 gives 32, a low word of 1 with
  an even high word is read wrongly (`WordPair.PntzMisses`, `WordPair.PntzExact`). The words of
  trees of orders 34 and 1, 18454930 elements, are such a pair (`Smoothsort.PntzMissesTree`);
  with fewer elements the sort never meets one (`Smoothsort.PntzReads`).
- A slot header written by `open_file` is not always one that `resume` accepts: requests
  without a file kind, or with a temporary kind that is not delete-on-close, pass the option
  check (`SlotHeader.OptionsCanBeUnrecoverable`, `SlotHeader.RecoverableExactly`).
- A name that `resume` takes over is not flushed again, so one that came back because deleting it
  failed half-way can still be lost in a later crash (`PoolRuns.AdoptedNameCanBeLost`). On a given disk,
  every crash preserves the persistent names if and only if every slot is settled
  (`PoolDisk.CrashExact`). That is so in a healthy pool as long as no pool was paused or removed
  while it needed recovery, which a caller can watch (`PoolRuns.Run`,
  `PoolRuns.CrashThenResume`).
- Which error a failing import reports can depend on how it was cut into chunks, although whether
  it fails does not (`TransferRules.ErrorDependsOnChunks`). It does not if and only if the image
  is no longer than the declared size, or its header decides first in every cutting, or all
  cuttings exceed the size alike (`TransferRules.ErrorIgnoresChunksExactly`).
- A negative number loses its sign, and is then parsed as positive, when padding zeros fill
  the conversion buffer (`PrintParse.SignCanBeLost`, `PrintParse.PrintedIsRead`). An unsigned one
  loses the zero of its `0x`, and is then parsed as 0, for an explicit precision of 31
  (`UnsignedParse.ZeroCanBeLost`, `UnsignedParse.UnsignedIsRead`).
- Integer conversions print what the C standard asks for if and only if sign, prefix, zeros and
  digits together have at most 32 characters, or all that is lost is a blank for a sign next to
  blanks (`PrintfStandard.WideZeroPadding`, `PrintfStandard.PrintsStandard`).
- The end that `strtol` reports is not where the C standard puts it if and only if there is a
  `0x` without a hexadecimal digit behind it, in base 0 or 16; the number is right in all cases
  (`StrtolStandard.PrefixIsSwallowed`, `StrtolStandard.FindsStandardNumber`).
- The format scanner does not always see the end of the format string: behind flags, or a width
  or precision in digits, it puts out the NUL and steps over it (`PrintfFormat.EndIsMissed`,
  `PrintfFormat.ParseConversion`).

## Model

| member | source | states |
|---|---|---|
| `WordPair.PntzExact` | shim/musl/stdlib/qsort.c:36-42 | `pntz` returns the distance to the next set bit above bit 0 if and only if the low word is not 1, or `ctz` of 0 happens to lead to the right answer |
| `WordPair.PntzMisses` | shim/musl/stdlib/qsort.c:36-42 | an input on which it returns the wrong distance |
| `WordPair.Shl` | shim/musl/stdlib/qsort.c:67-77 | the two words become their value times 2^n modulo 2^64, across the word boundary |
| `WordPair.Shr` | shim/musl/stdlib/qsort.c:79-89 | the two words become their value divided by 2^n |
| `Leonardo.CodeReads` | shim/musl/stdlib/qsort.c:36-42 | in the number that encodes a forest, the next set bit above bit 0 is as far away as the next tree's order |
| `LeonardoHeap.SiftMakesHeap` | shim/musl/stdlib/qsort.c:91-116 | sifting the root of a tree whose subtrees are heaps makes the tree a heap |
| `LeonardoHeap.TrinkleRepairs` | shim/musl/stdlib/qsort.c:118-155 | if all roots but the last ascend and every tree is a heap except perhaps at the last root, afterwards every tree is a heap and all roots ascend |
| `LeonardoHeap.TrinklePermutes` | shim/musl/stdlib/qsort.c:118-155 | the elements are only rearranged |
| `LeonardoHeap.FinalPrefix` | shim/musl/stdlib/qsort.c:180-184 | trees that can never merge again come before all others |
| `SmoothsortSteps.MergeStep` | shim/musl/stdlib/qsort.c:175-178 | joining two adjacent trees under a new root keeps heaps, encoding and ascending final roots |
| `SmoothsortSteps.FrontAscends` | shim/musl/stdlib/qsort.c:180-184 | when the last tree becomes final, the roots before it ascend, so trinkling it is enough |
| `SmoothsortSteps.GrowStep` | shim/musl/stdlib/qsort.c:180-196 | settling the last tree and starting a new one keeps the invariant of the build loop |
| `SmoothsortSteps.SplitStep` | shim/musl/stdlib/qsort.c:207-214 | taking the root off a tree and trinkling its two subtrees restores heaps and ascending roots, with the largest element left in place |
| `SmoothsortSteps.DropStep` | shim/musl/stdlib/qsort.c:202-205 | dropping a single-element tree leaves the forest in order and the element in its final place |
| `Smoothsort.Cycle` | shim/musl/stdlib/qsort.c:44-64 | moves each element one step along the path, and the first to the end |
| `Smoothsort.SiftDown` | shim/musl/stdlib/qsort.c:91-116 | the loop with its path of pointers computes the sift of the specification in place |
| `Smoothsort.PntzReads` | shim/musl/stdlib/qsort.c:36-42 | `pntz` reads the next tree's order correctly in forests of up to 11405773 elements whatever `ctz` of 0 is, and up to 18454929 where it is 32 |
| `Smoothsort.PntzBoundIsTight` | shim/musl/stdlib/qsort.c:36-42 | with one element more than the first bound there is a forest on which it depends on `ctz` of 0 |
| `Smoothsort.PntzMissesTree` | shim/musl/stdlib/qsort.c:36-42 | with one more than the second there is one that it reads wrongly where `ctz` of 0 is 32 |
| `ElementBytes.CycleBytes` | shim/musl/stdlib/qsort.c:44-64 | on elements of any width, moving pieces of at most 256 bytes through the buffer is rotating whole elements, and touches no other byte |
| `Smoothsort.TrinkleDown` | shim/musl/stdlib/qsort.c:118-155 | the loop computes the trinkle of the specification in place |
| `Smoothsort.FillTable` | shim/musl/stdlib/qsort.c:171-172 | the table holds the Leonardo numbers up to the first that is not below the size |
| `Smoothsort.BuildForest` | shim/musl/stdlib/qsort.c:174-199 | ends with a forest over the whole array, encoded in the two words, heaps everywhere and all roots ascending |
| `Smoothsort.DrainForest` | shim/musl/stdlib/qsort.c:201-217 | takes such a forest apart so that the array is sorted |
| `Smoothsort.Qsort` | shim/musl/stdlib/qsort.c:157-218 | the array ends sorted and is a permutation of what it was, as section 7.20.5.2 of ISO/IEC 9899:1999 asks |
| `Bsearch.Bsearch` | shim/musl/stdlib/bsearch.c:3-20 | on an ordered array returns a matching element if and only if there is one |
| `Bsearch.SortAndSearch` | shim/musl/stdlib/bsearch.c:3-20 | after sorting, search finds a match exactly if the array ever held one |
| `SlotHeader.DecodeEncode` | crates/sqlite-wasm-vfs/src/sahpool.rs:305-400 | decoding the bytes written for a header, with any database content behind them, gives its meaning |
| `SlotHeader.EncodeDecode` | crates/sqlite-wasm-vfs/src/sahpool.rs:332-372 | bytes that decode to a name are exactly those written for that name and those flags |
| `SlotHeader.DecodeExactly` | crates/sqlite-wasm-vfs/src/sahpool.rs:332-372 | the header bytes that are accepted are exactly those that can be written for a header with recoverable flags, and each is accepted for what was written |
| `SlotHeader.HeaderLayout` | crates/sqlite-wasm-vfs/src/sahpool.rs:383-412 | a written header is the name, NULs up to byte 512, and the flags with the most significant byte first |
| `SlotHeader.ContentFollows` | crates/sqlite-wasm-vfs/src/sahpool.rs:67-70 | content begins at byte 4096, and what is between it and the header is zero |
| `Unicode.Utf8Exactly` | crates/sqlite-wasm-vfs/src/sahpool.rs:354-355 | a name in a header passes for UTF-8 if and only if it is the encoding of some sequence of Unicode scalar values |
| `SlotHeader.RecoverableExactly` | crates/sqlite-wasm-vfs/src/sahpool.rs:305-400 | for all flags, by bit numbers: the bytes of a slot give its name if and only if exactly one of the bits 0x100, 0x800, 0x4000, 0x80000 is set, none of 0x200, 0x400, 0x1000, 0x2000 is, and 0x8 is not; they give nothing for exactly one of the eight with 0x8; all else is refused |
| `SlotHeader.OptionsCanBeUnrecoverable` | crates/rsqlite-vfs/src/options.rs:224-237 | option sets that validation lets through and a rebuild refuses |
| `SlotHeader.OptionsExactly` | crates/rsqlite-vfs/src/options.rs:224-237 | the open flags that pass validation, by bit numbers |
| `SlotHeader.KindsAreFound` | crates/sqlite-wasm-vfs/src/sahpool.rs:356-371 | every validated file of a main database, journal, super-journal or write-ahead log without delete-on-close is found again |
| `SlotHeader.TemporariesGo` | crates/sqlite-wasm-vfs/src/sahpool.rs:362-364 | every validated temporary file with delete-on-close leaves a slot that counts as empty |
| `SlotHeader.SuffixesFit` | crates/sqlite-wasm-vfs/src/sahpool.rs:114-130 | valid database names are exactly those that any journal suffix of up to 12 bytes fits behind |
| `SlotHeader.SuffixNames` | crates/sqlite-wasm-vfs/src/sahpool.rs:1103-1107 | the two names that an import and an export look for end in -journal and -wal |
| `PoolState.PhysicalOffset` | crates/sqlite-wasm-vfs/src/sahpool.rs:148-160 | file offsets map behind the header region exactly when the whole span is a safe integer, 64-bit overflow included |
| `PoolDisk.CrashNeverDuplicates` | crates/sqlite-wasm-vfs/src/sahpool.rs:835-856 | whatever headers a crash leaves, no name is on two slots |
| `PoolDisk.CrashRebuilds` | crates/sqlite-wasm-vfs/src/sahpool.rs:835-870 | and they decode into one namespace |
| `PoolDisk.RebuildsOnce` | crates/sqlite-wasm-vfs/src/sahpool.rs:835-870 | that namespace is unique |
| `PoolDisk.MapIsDecodedHeaders` | crates/sqlite-wasm-vfs/src/sahpool.rs:835-856 | the map of an active pool that needs no recovery is what decoding its headers yields, plus the live delete-on-close names |
| `PoolDisk.DecodesToPersistent` | crates/sqlite-wasm-vfs/src/sahpool.rs:835-870 | decoding the headers under such a map yields exactly its persistent names |
| `PoolDisk.CrashExact` | crates/sqlite-wasm-vfs/src/sahpool.rs:383-412 | every crash preserves exactly the persistent names if and only if all headers a crash can leave in a slot mean the same |
| `PoolDisk.PublishAllOrNothing` | crates/sqlite-wasm-vfs/src/sahpool.rs:1513-1531 | while a durable image gets its name, a crash leaves the name unknown or on the whole image |
| `PoolDisk.RetractAllOrNothing` | crates/sqlite-wasm-vfs/src/sahpool.rs:1549-1559 | taking the name back keeps that |
| `PoolDisk.EmptyingKeeps` | crates/sqlite-wasm-vfs/src/sahpool.rs:1022-1056 | while slots are emptied, a name that a crash can leave on one still has its whole content, as durable as it was |
| `SahPool.OpfsSAHPool.Associate` | crates/sqlite-wasm-vfs/src/sahpool.rs:383-412 | at each step old headers stay possible until the new one is durable, and content goes only after that |
| `SahPool.OpfsSAHPool.DeleteFile` | crates/sqlite-wasm-vfs/src/sahpool.rs:884-908 | removes a name that is not open and makes its slot the next to use, empty, or fails with the map unchanged and recovery needed; at every step a crash leaves the name with its content or not at all |
| `SahPool.OpfsSAHPool.WithNewFile` | crates/sqlite-wasm-vfs/src/sahpool.rs:910-952 | the next unassigned slot gets the name, durably and empty; a failure puts the slot back or sets it aside |
| `SahPool.OpfsSAHPool.OpenFile` | crates/sqlite-wasm-vfs/src/sahpool.rs:1179-1246 | opens what is there without touching it, or creates an empty file on the next unassigned slot; adds one handle to it; reports a name collision exactly if all random names for an anonymous file are taken |
| `SahPool.OpfsSAHPool.WriteFile` | crates/sqlite-wasm-vfs/src/sahpool.rs:469-480 | patches exactly that content and touches no other slot; refusals have exact conditions and change nothing; a failed write leaves header and name alone |
| `SahPool.OpfsSAHPool.ReadFile` | crates/sqlite-wasm-vfs/src/sahpool.rs:458-467 | gives what a flat file has at the offset |
| `SahPool.OpfsSAHPool.TruncateFile` | crates/sqlite-wasm-vfs/src/sahpool.rs:482-490 | the content becomes its first bytes, or is extended with zeros; refusals change nothing |
| `SahPool.OpfsSAHPool.SyncFile` | crates/sqlite-wasm-vfs/src/sahpool.rs:492-497 | header and content become durable, or nothing changes |
| `SahPool.OpfsSAHPool.CloseFile` | crates/sqlite-wasm-vfs/src/sahpool.rs:1145-1169 | always gives the handle back; a file that stays is flushed and otherwise as it was; with delete-on-close its slot ends clean exactly if the name went, and no other name or slot changes |
| `SahPool.OpfsSAHPool.DropHandle` | crates/sqlite-wasm-vfs/src/sahpool.rs:1156-1160 | the flush that a close begins with makes the content durable or changes nothing, and the handle goes either way |
| `SahPool.OpfsSAHPool.Clear` | crates/sqlite-wasm-vfs/src/sahpool.rs:1022-1056 | empties every held slot, or fails keeping all of them and asking for recovery; at every step a crash leaves each name with its content or not at all |
| `SahPool.OpfsSAHPool.Pause` | crates/sqlite-wasm-vfs/src/sahpool.rs:954-972 | refuses exactly while busy, removed or with open files, without effect; else releases everything |
| `SahPool.OpfsSAHPool.Uninstall` | crates/sqlite-wasm-vfs/src/sahpool.rs:1738-1766 | the same for removal |
| `SahPool.OpfsSAHPool.ReadNamespace` | crates/sqlite-wasm-vfs/src/sahpool.rs:835-856 | sorts the slots into named and free ones by their headers; never reports a duplicate name the pool wrote |
| `SahPool.OpfsSAHPool.ResumeFinish` | crates/sqlite-wasm-vfs/src/sahpool.rs:974-1020 | publishes exactly the namespace in the headers, with every other slot emptied, or stays paused; named slots are never touched |
| `SahPool.OpfsSAHPool.AddSlot` | crates/sqlite-wasm-vfs/src/sahpool.rs:701-746 | adds an empty slot that was not held, never touching a nonempty file of the same name, or ends the operation; a taken name ends it at the 16th attempt and not before |
| `SahPool.OpfsSAHPool.AddFinish` | crates/sqlite-wasm-vfs/src/sahpool.rs:750-752 | only then do the new slots count |
| `SahPool.OpfsSAHPool.ReduceSlot` | crates/sqlite-wasm-vfs/src/sahpool.rs:766-777 | gives up one clean unassigned slot at a time |
| `SahPool.OpfsSAHPool.CreateImport` | crates/sqlite-wasm-vfs/src/sahpool.rs:1094-1129 | reserves the next unassigned slot, empty, for a name that has no file and no journals |
| `SahPool.OpfsSAHPool.Commit` | crates/sqlite-wasm-vfs/src/sahpool.rs:1513-1531 | exactly the reserved slot gets the name, with what was written as its durable content; since the import began, a crash at any moment leaves the name unknown or bound to the complete durable image |
| `SahPool.OpfsSAHPool.Abort` | crates/sqlite-wasm-vfs/src/sahpool.rs:1533-1568 | the name was never on disk; the slot is emptied or exactly it is set aside |
| `SahPool.OpfsSAHPool.OpenExport` | crates/sqlite-wasm-vfs/src/sahpool.rs:1064-1092 | exports only a closed database with empty journals |
| `SahPool.OpfsSAHPool.ExportRead` | crates/sqlite-wasm-vfs/src/sahpool.rs:1584-1587 | every read is from the one image there was when the export was opened |
| `PoolRuns.Run` | crates/sqlite-wasm-vfs/src/sahpool.rs:640-1129 | any sequence of calls, drops and crashes keeps the pool's invariant, its headers acceptable if every opened file had a kind, and no name in doubt unless a pool was paused or removed while it needed recovery |
| `PoolRuns.AnyCrashRebuilds` | crates/sqlite-wasm-vfs/src/sahpool.rs:800-871 | a crash after any single I/O step of a run leaves no duplicate name and decodable headers |
| `PoolRuns.MapAgrees` | crates/sqlite-wasm-vfs/src/sahpool.rs:835-870 | in every reachable healthy state the map is the decoded headers |
| `PoolRuns.CrashKeepsNames` | crates/sqlite-wasm-vfs/src/sahpool.rs:383-412 | then any crash of a healthy pool leaves headers that decode to exactly its persistent names |
| `PoolRuns.PauseThenResume` | crates/sqlite-wasm-vfs/src/sahpool.rs:954-1020 | pausing and resuming a healthy pool brings back exactly its persistent names, on the same slots, unchanged |
| `PoolRuns.CrashThenResume` | crates/sqlite-wasm-vfs/src/sahpool.rs:800-1020 | a new process that resumes after a crash has exactly the persistent names, on the same slots, with the content of each one that was durable, and cannot fail on a header |
| `PoolRuns.WriteCloseCrashResume` | crates/sqlite-wasm-vfs/src/sahpool.rs:1145-1169 | what was written before a successful close is there after any crash and a resume |
| `PoolRuns.AdoptedNameCanBeLost` | crates/sqlite-wasm-vfs/src/sahpool.rs:835-870 | a resumed, healthy pool with a name that a crash can take, which a half-done delete had left |
| `PoolRuns.EachHeldSlotOnce` | crates/sqlite-wasm-vfs/src/sahpool.rs:782-786 | each held slot is in exactly one of available, named and quarantined, and capacity counts them |
| `MemChunks.MemChunksFile.Read` | crates/rsqlite-vfs/src/lib.rs:97-132 | the buffer gets what a flat file has at the offset, and nothing else in it changes |
| `MemChunks.MemChunksFile.Write` | crates/rsqlite-vfs/src/lib.rs:134-193 | the file becomes the flat file patched, gaps zero, even after truncation; a failed write changes nothing |
| `MemChunks.MemChunksFile.Truncate` | crates/rsqlite-vfs/src/lib.rs:195-221 | only shortens, and what was cut off stays gone |
| `MemChunks.JoinSpliced` | crates/rsqlite-vfs/src/lib.rs:171-187 | writing into a chunk is writing into the flat file at that chunk's position |
| `MemChunks.CutChunks` | crates/rsqlite-vfs/src/lib.rs:206-217 | dropping chunks and zeroing the tail leaves exactly as many chunks as needed, zero past the end |
| `MemChunks.Replay` | crates/rsqlite-vfs/src/lib.rs:96-221 | any sequence of calls is answered as a flat file would answer it, for every chunk size |
| `ReadCallback.Finish` | crates/rsqlite-vfs/src/lib.rs:1269-1297 | for any backend: a short count zero-fills the rest and is reported, an excessive one is refused |
| `ReadCallback.XRead` | crates/rsqlite-vfs/src/lib.rs:1248-1304 | every byte of the buffer is that of the file at its place, or zero past the end; a short read is reported exactly when the file ends inside |
| `TransferRules.HeaderAccepted` | crates/rsqlite-vfs/src/transfer.rs:186-205 | on the bytes: the check accepts exactly the text of the signature, a big-endian page size 2^k for 9 <= k <= 16 with 1 for 65536, and a whole positive number of pages, as sections 1.3.1 to 1.3.3 of the SQLite database file format ask |
| `TransferRules.HeaderRefused` | crates/rsqlite-vfs/src/transfer.rs:186-205 | and which error it reports otherwise |
| `TransferRules.AcceptanceIgnoresChunks` | crates/rsqlite-vfs/src/transfer.rs:238-300 | acceptance depends on the concatenated bytes only, and holds exactly for complete acceptable images |
| `TransferRules.ErrorDependsOnChunks` | crates/rsqlite-vfs/src/transfer.rs:238-273 | 513 zero bytes for an import of 512 fail differently in one chunk and in two |
| `TransferRules.ErrorIgnoresChunksExactly` | crates/rsqlite-vfs/src/transfer.rs:238-300 | exactly when all cuttings of an image, in chunks of up to 2^32 - 1 bytes, have the same outcome |
| `Transfer.DbImport.Write` | crates/rsqlite-vfs/src/transfer.rs:238-273 | apart from backend failures the outcome is the verdict on the bytes so far; after a failure nothing more is taken |
| `Transfer.DbImport.Finish` | crates/rsqlite-vfs/src/transfer.rs:281-300 | commits only a complete, acceptable image with no failed write, with the two version bytes reset if checked |
| `Transfer.DbExport.Read` | crates/rsqlite-vfs/src/transfer.rs:338-356 | the next bytes of the image, however the backend splits its reads; on failure the cursor stays |
| `Transfer.ImportPieces` | crates/rsqlite-vfs/src/transfer.rs:238-300 | publishes exactly the acceptable images, however they are cut, and reports the outcome of the cutting, unless the backend fails |
| `Transfer.ImportDb` | crates/rsqlite-vfs/src/transfer.rs:142-176 | checks the header first and leaves the namespace alone on any failure |
| `Transfer.ExportPieces` | crates/rsqlite-vfs/src/transfer.rs:338-356 | buffers of any sizes together get the image from its start |
| `Transfer.ExportDb` | crates/rsqlite-vfs/src/transfer.rs:364-376 | the whole image, or the exact reason why not |
| `Transfer.RoundTrip` | crates/rsqlite-vfs/src/memvfs.rs:339-416 | import in any pieces and export through any buffers returns the same bytes, with bytes 18 and 19 set to 1 if checked |
| `MemVfs.MemVfs.OpenFile` | crates/rsqlite-vfs/src/memvfs.rs:142-196 | shares an existing file, creates an empty one, or fails with the reason |
| `MemVfs.MemVfs.CloseFile` | crates/rsqlite-vfs/src/memvfs.rs:198-218 | delete-on-close never removes a replacement created under the same name |
| `MemVfs.MemVfs.DeleteFile` | crates/rsqlite-vfs/src/memvfs.rs:232-241 | removes that name only |
| `MemVfs.SuffixesFit` | crates/rsqlite-vfs/src/memvfs.rs:29-40 | valid names are exactly those that any suffix of up to 12 bytes fits behind within 1024 |
| `MemVfs.Commit` | crates/rsqlite-vfs/src/memvfs.rs:382-389 | publishes the file unless the name was taken meanwhile |
| `Fmodl.Borrow` | shim/musl/math/fmodl.c:36-40 | the sign bit after word-wise wrapping subtraction tells which number is larger |
| `Fmodl.Reduce` | shim/musl/math/fmodl.c:35-59 | the loop computes x * 2^(ex - ey) modulo y on 113-bit significands |
| `Fmodl.Renormalise` | shim/musl/math/fmodl.c:60 | ends with the leading bit in place, never running out of exponents |
| `Fmodl.Fmodl` | shim/musl/math/fmodl.c:3-71 | for all finite x and nonzero finite y the magnitude of the result is exactly that of x modulo that of y, with the sign of x, as section 7.12.10.1 of ISO/IEC 9899:1999 asks |
| `Decimal.QuotExact` | shim/musl/internal/floatscan.c:164-174 | dividing digit by digit from the top loses nothing if the rest becomes one more digit |
| `Decimal.UpValue` | shim/musl/internal/floatscan.c:182-193 | multiplying digit by digit from the bottom gives carry and digits of exactly 2^29 times the number, even with digits equal to the base |
| `Decimal.CarryBound` | shim/musl/internal/floatscan.c:182-190 | digits stay at most 10^9 and carries at most 2^29, so the 32- and 64-bit words do not overflow |
| `DecimalScale.Divide` | shim/musl/internal/floatscan.c:221-230 | the in-place loop computes those quotients over the circular buffer and drops a leading zero |
| `DecimalScale.MultiplyPass` | shim/musl/internal/floatscan.c:180-193 | the in-place loop computes those products and drops trailing zeros, but never the first digit |
| `DecimalScale.Upscale` | shim/musl/internal/floatscan.c:178-203 | ends, with the exact value unchanged and four large enough digits before the radix point, unless the buffer fills up, for which it must have had fewer free places than the number has groups of nine zeros behind the point |
| `DecimalScale.CompareTop` | shim/musl/internal/floatscan.c:209-216 | the digit-wise comparison is the comparison of the first four digits with 2^113 - 1 |
| `DecimalScale.Downscale` | shim/musl/internal/floatscan.c:205-237 | ends, with the exact value unchanged and the first four digits between 2^112 and 2^113 - 1, unless the buffer fills up, for which 9 * digits + 21 * digits before the point must be at least 18170 |
| `DecimalRead.ReadDigits` | shim/musl/internal/floatscan.c:64-98 | the buffer holds the digits as one number unless there are more than 18405 significant ones, and the radix position is right for any mixture of zeros and point |
| `DecimalRead.PointAndExponent` | shim/musl/internal/floatscan.c:64-98 | the number that a text stands for: printed whole digits, a point, digits and a decimal exponent have their usual value |
| `DecimalRead.AlignRadix` | shim/musl/internal/floatscan.c:160-176 | moves the radix point to a digit boundary without changing the value, using one more place at most |
| `DecimalRead.ScanDecimal` | shim/musl/internal/floatscan.c:64-237 | from the text to 113 bits and a binary exponent, with the buffer standing for exactly the number written; the buffer does not fill up for fewer than 17995 decimal places and 3 * significant digits + 7 * digits before the point below 54403 |
| `Printf.OutputGadget.PutChar` | shim/printf/printf.c:396-416 | counts every character and stores those that fit |
| `Printf.OutputGadget.AppendTermination` | shim/printf/printf.c:420-431 | puts the NUL behind the kept characters, changing nothing else |
| `Printf.OutputGadget.OutRev` | shim/printf/printf.c:516-539 | puts the buffer out backwards with blanks up to the width |
| `Printf.OutputGadget.WriteDigits` | shim/printf/printf.c:636-643 | the backward digits are those of the number, most significant first |
| `Printf.OutputGadget.PrintIntegerFinalization` | shim/printf/printf.c:546-612 | zeros, prefix and sign come out in their places, as far as the conversion buffer holds them |
| `Printf.OutputGadget.PrintInteger` | shim/printf/printf.c:615-647 | appends the text of the number to the output |
| `Printf.OutputGadget.PrintString` | shim/printf/printf.c:1503-1533 | the string, cut at an explicit precision, with blanks up to the width |
| `PrintfFormat.FieldsApart` | shim/printf/printf.c:1248-1369 | no field of a conversion begins with a character that the scanner before it would take |
| `PrintfFormat.ParseFlags` | shim/printf/printf.c:1214-1227 | takes all flag characters, and the flags are those that occur, in any order and number |
| `PrintfFormat.Atou` | shim/printf/printf.c:505-512 | takes all digits, and gives their number modulo 2^32 |
| `PrintfFormat.ParseWidth` | shim/printf/printf.c:1253-1272 | takes exactly the width, from the text or the arguments; a negative argument turns the field left |
| `PrintfFormat.ParsePrecision` | shim/printf/printf.c:1274-1298 | takes exactly the precision; a negative one counts as none |
| `PrintfFormat.ParseModifier` | shim/printf/printf.c:1300-1369 | takes exactly the length modifier and gives the argument's type |
| `PrintfFormat.EndIsMissed` | shim/printf/printf.c:1255-1260 | `%5` at the end of a format string is a case in which it does not |
| `PrintfFormat.ParseConversion` | shim/printf/printf.c:1245-1577 | from any spelling of a conversion and its arguments, the conversion that is meant, or nothing if the format string breaks off; the scanner stays inside the string if and only if it does not break off behind flags or a width or precision in digits |
| `Printf.OutputGadget.FormatStringLoop` | shim/printf/printf.c:1229-1579 | for the spelling of any sequence of literals and conversions, the output is the concatenation of what they mean |
| `Printf.Vsnprintf` | shim/printf/printf.c:1582-1609 | returns the untruncated length whatever n is, and leaves exactly the first min(length, n - 1) characters and a NUL, as section 7.19.6.5 of ISO/IEC 9899:1999 asks |
| `PrintfStandard.PrintsStandard` | shim/printf/printf.c:546-647 | every integer conversion prints what section 7.19.6.1 of ISO/IEC 9899:1999 asks for, if and only if sign, prefix, zeros and digits have at most 32 characters or only a blank for a sign is lost next to blanks |
| `PrintfStandard.WideZeroPadding` | shim/printf/printf.c:558-560 | a zero-padded width of 40 is such a case |
| `PrintfStandard.ArgumentsConverted` | shim/printf/printf.c:1410-1463 | arguments of every length become the one value in range that differs from them by a multiple of the size of their type |
| `PrintfStandard.EachByExample` | shim/printf/printf.c:1214-1461 | each flag, length modifier and specifier by itself, from its spelling to its output |
| `PrintfStandard.StringsPadded` | shim/printf/printf.c:1484-1533 | characters, and the part of a string that the precision allows, are printed whole with blanks on one side |
| `PrintParse.DigitsAreWorth` | shim/printf/printf.c:636-643 | in bases 8, 10 and 16 the digits printed for a number are worth that number |
| `PrintParse.DigitLetters` | shim/printf/printf.c:640-641 | they are taken from 0-9 and a-f, or A-F for upper case, without a leading zero |
| `Strtol.TooLarge` | shim/musl/stdlib/strtol.c:54-59 | the overflow test is exact and does not itself overflow |
| `Strtol.Accumulate` | shim/musl/stdlib/strtol.c:48-60 | the digits' number, or that it does not fit 64 bits |
| `Strtol.Strtox` | shim/musl/stdlib/strtol.c:12-84 | for even and odd limits the result is the number limited to the caller's type, with a range error exactly if it was outside; the end is behind the digits or a leading zero and `x`, or at the start if there are none |
| `Strtol.Strtol` | shim/musl/stdlib/strtol.c:86-88 | the number in the text, or the nearest long with a range error; the end as above |
| `StrtolStandard.DigitValues` | shim/musl/stdlib/strtol.c:49-52 | which characters are worth which digit, up to base 36 |
| `StrtolStandard.FindsStandardNumber` | shim/musl/stdlib/strtol.c:12-84 | for every text and base, the number that section 7.20.1.4 of ISO/IEC 9899:1999 defines; the end is as defined there if and only if there is no `0x` without a hexadecimal digit behind it |
| `StrtolStandard.OnlyOneNumber` | shim/musl/stdlib/strtol.c:22-44 | that definition gives at most one number and end |
| `StrtolStandard.PrefixIsSwallowed` | shim/musl/stdlib/strtol.c:33-38 | "0x" is a case in which the ends differ |
| `PrintParse.PrintedShape` | shim/printf/printf.c:546-647 | a printed long is blanks, sign, zeros and digits worth its magnitude |
| `PrintParse.ParseLaid` | shim/musl/stdlib/strtol.c:12-62 | digits are found behind blanks and a sign, and what follows is left alone |
| `PrintParse.PrintedIsRead` | shim/printf/printf.c:516-647 | parsing a printed long gives it back if and only if it is not negative or its sign had room, whatever the flags |
| `PrintParse.SmallFieldsRoundTrip` | shim/printf/printf.c:516-647 | so always with width and precision below 32, the smallest long included |
| `PrintParse.SignCanBeLost` | shim/printf/printf.c:546-612 | `%033d` of -1 is not read back as -1 |
| `PrintParse.PrintThenParse` | shim/musl/stdlib/strtol.c:86-88 | the same through any spelling of the conversion, the output buffer and the two routines |
| `UnsignedParse.UnsignedIsRead` | shim/printf/printf.c:546-647 | parsing a printed `%u`, `%o`, `%x` or `%X` in its base gives the number back if and only if its prefix has kept the zero, whatever flags, width, precision and length |
| `UnsignedParse.ZeroCanBeLost` | shim/printf/printf.c:590-599 | `%#.31x` of 255 is not read back |
| `UnsignedParse.BaseIsTold` | shim/musl/stdlib/strtol.c:33-44 | numbers in alternative form, and plain decimals, are read back in base 0 |
| `WordStrings.WordScan` | shim/musl/string/strchrnul.c:6-8 | the word test is true exactly if one of the four bytes is the one looked for |
| `WordStrings.Memchr` | shim/musl/string/memchr.c:11-25 | the first occurrence among n bytes, or none, for every alignment |
| `WordStrings.Strchrnul` | shim/musl/string/strchrnul.c:10-23 | the first occurrence or the end of the string |
| `WordStrings.Strcspn` | shim/musl/string/strcspn.c:6-17 | the length of the part before any character of the set |
| `WordStrings.FillSet` | shim/musl/string/strcspn.c:13-14 | the 256-bit set holds exactly the characters of the string |
| `WordStrings.Stpncpy` | shim/musl/string/stpncpy.c:10-27 | copies and zero-pads exactly n bytes, changes nothing else, and returns the first NUL or the end |

## Left out

- `Smoothsort.Qsort`: elements are whole values, with `ElementBytes.CycleBytes` for what happens to their bytes; with more elements than the bounds `pntz` can depend on `ctz` of 0, which C leaves undefined, or read a forest wrongly
- `Smoothsort.SiftDown`: the fixed-size array of element pointers is a sequence of indices, which never grows beyond the size the C code reserves
- `SahPool.OpfsSAHPool.ResumeFinish`: VFS registration is a step that can fail, and starting with `clear_on_init` is not modelled; a process starts with a paused pool and resumes it
- `SahPool.OpfsSAHPool.AddSlot`: random names are given by the caller; the lock file and its lease are not modelled
- `SahPool.OpfsSAHPool.OpenFile`: names are byte strings, well-formed as UTF-8 by their Rust type; memory for the map can run out at the places the code checks
- `SahPool.OpfsSAHPool.TruncateFile`: size hints, which extend a file in the same way, and lock levels are left out; `size` is the length of the content
- `PoolDisk.CrashRebuilds`: headers damaged by others, directory entries that are not files, and partial header writes are outside the crash model
- `Transfer.DbImport.Write`: the import target is the memory file system's; the pool's target is the import of `SahPool`, with the same contract
- `DecimalRead.ScanDecimal`: says nothing about the value once the digit buffer is full; the early returns for small and extreme exponents, the `lnz` shortcut they use, and everything after the downscaling are floating-point
- `DecimalScale.Upscale`: stops at a full buffer instead of folding the lost digit into the last one
- `Fmodl.Fmodl`: multiplication by 2^120 and 2^-120 is taken to be exact, which `Fmodl.ScaledDown` shows the second to be; a remainder of zero is returned in one place instead of two
- `Printf.Vsnprintf`: the full text must fit an int, as the standard requires; `%b`, `%p`, `%n` and floating-point conversions are left out
- `PrintfFormat.ParseConversion`: a specifier that belongs to an earlier field (as in `%5*`), and `INT_MIN` as a width or precision argument, are undefined in C and excluded
- `Printf.OutputGadget.FormatStringLoop`: a format string may break off only where the code sees its end; the rest is undefined in C, and `PrintfFormat.ParseConversion` says which
- `WordStrings.Strchrnul`: pointers are indices into a memory made of whole words
- Hexadecimal floats, floating-point printing and the other mathematical functions: rounding, not integers
- SQLite's callback plumbing, bindings, error texts, wakers and the JavaScript side
