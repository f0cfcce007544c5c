# PlainShelf, modelled and proved

PlainShelf keeps a library of book packages in plain directories. This project models the parts of it
whose correctness is a matter of history, interleaving or arithmetic rather than of one function body,
and proves in Dafny 4.11 what each of them is for. `dafny verify dfyconfig.toml` checks all of it.

| group | files | main result |
|---|---|---|
| directory scan cache | Basics, RacyWindow, ShelfFs, ScanCache, ShelfScan, ScanExactness, ScanReport | `ShelfScan.IterateShelfTree`: a scan that reuses listings reports, event for event, what a scan with no cache reports, after any life of the cache; `ScanReport.ScanReportsWhatIsDue`: that is exactly the books, folders and metadata files that the tree has where the rules look |
| browser file system and its write-behind copy | MemTree, MemFs, WriteBehind, Opfs | `Opfs.Storage.Drain`: every difference between memory and storage stays marked through any interleaving and failure; an undisturbed drain leaves none |
| streaming text counter | Utf8, TextCounter | `TextCounter.CountParts`: the same counts for every way of cutting the bytes into writes |
| similarity engine | Heap, Lex, Sketch, Compare, PairTable, SimilarPairs, Codec | exact bottom-k sketches, an estimate that is the exact index up to a limit, a skip that loses nothing |
| fingerprint cache | Fingerprint, FingerprintCache | `FingerprintCache.Cache.Resolve`: every answer is the fingerprint of content the source held during the call, also when it was never opened |
| natural order | NaturalCompare | a total order: text by bytes, digit runs by value |
| offline copies | FolderPaths, OfflineStore | records, in memory and stored, name packages that are there; routes lead to such records |
| background work | TaskWorker, TaskPool | one chain at work for a key, bounded retention, everything accepted terminal after closing |
| rescans | Rescan | never more grants in an interval than a burst and its refills; the wait named is exact |
| folder listing | FolderOrder | a permutation in depth-first order, siblings by key |
| hidden content | RevealGuard | the guard stops a move exactly when it would newly show something |
| reading time | ReadingStats | the projection does not depend on iteration order; exactly what it leaves |

Three conventions run through the project. Other programs, other machines and other goroutines act
between any two steps: they are the `Interfere`, `Wait`, `Progress` and `Others` methods, which do an
arbitrary number of arbitrary permitted changes. Failures of the file system are arbitrary too, and counted
in ghost fields, so that a contract can say what holds when none struck. And a state-changing method is tied to
a function or predicate on values, about which the theorems are proved as lemmas.

Where the code and an expectation of it part ways, there is a run or a family of inputs that shows it and
the exact condition:

- The scan cache does not notice a books folder replaced by one with the same time: `ScanExactness.ScanRightExactly`, `ScanExactness.TopFoldersRight`, `ScanExactness.ReplacedBooksFolderIsMissed`.
- The skip by size changes the list where a sampled estimate exceeds the bound: `SimilarPairs.PruningChangesNothingExactly`, `SimilarPairs.SampledEstimateMayExceedBound`.
- A download list may name one package inside another's: `OfflineStore.Store.RemoveDownload`, `OfflineStore.NestedPackageGoesToo`.
- Projected reading time depends on iteration order where a key moves to another that moves: `ReadingStats.OrdersAgreeExactly`. A key that resolves to itself loses its time: `ReadingStats.Project`, `ReadingStats.Sources`.
- A save between a lookup and its recording may leave the fingerprint cache unclosed: `FingerprintCache.Cache.Record`, `FingerprintCache.PruneBetween`.
- A rescan is let through without a token where rounding leaves the tokens short of one by less than a nanosecond's worth: `Rescan.WaitIsEmptyExactly`, `Rescan.FreeClaimExactly`. Five claims at 0 s and one each at 2 s, 9 s and 10 s leave 0.9999999999999999 tokens in double precision; the claim at 10 s is free, and one a nanosecond later is granted as well.

## Model

| member | source | states |
|---|---|---|
| ScanCache.ChildIsEntry | shelf/scancache/scancache.go:53-66 | A listed child stands for exactly one kind of entry: a subdirectory, or a kept regular file; nothing else is listed and nothing of these is missing |
| ScanCache.ListChildren | shelf/scancache/scancache.go:53-66 | The loop over the entries gives the children `ChildIsEntry` is about |
| ScanCache.SettledMatchIsFresh | internal/fsutil/racywindow.go:5-9 | An equal modification time on a snapshot that was settled when read means the inode's listing has not changed since |
| RacyWindow.SettledMeans | internal/fsutil/racywindow.go:5-9 | A stat is settled, two seconds old, if and only if no change made from the nanosecond before the reading on can carry its time |
| ScanCache.LocationKept | shelf/scancache/cache.go:127-148 | While no listed ancestor changed, a path keeps leading to the inode that was listed, through any changes by others |
| ScanCache.MatchingChainIsCurrent | shelf/scancache/cache.go:139-148 | When every directory from the books folder down to p still has its stored modification time, the stored children are those an uncached listing gives |
| ScanCache.TruthfulEvolves | shelf/scancache/cache.go:127-162 | The invariant of stored snapshots (settled, no older than the parent's, current unless changed) survives anything others do |
| ScanCache.RecordKeepsTruth | shelf/scancache/cache.go:157-160 | Recording one more snapshot, taken before anything below it, keeps that invariant |
| ScanCache.Walk.ReadDir | shelf/scancache/cache.go:127-162 | Undisturbed, for every cache: the stored children exactly when the parent's listing was reused and the time matches, and the current ones otherwise; what is reused is not listed again, a settled listing is kept for the next walk, and a child snapshot is never older than its parent's |
| ScanCache.SeenIsRight | shelf/scancache/cache.go:139-161 | Such an answer is the current listing if and only if it is not a stored one that would be used and differs |
| ScanCache.SettledCacheNeverLies | shelf/scancache/cache.go:139-148 | No stored listing that would be used differs, if the books folder is the directory that was listed or shows another time than that did |
| ScanCache.Walk.Finish | shelf/scancache/cache.go:164-185 | A complete walk replaces what the cache holds, an abandoned one leaves it |
| ScanCache.Cache.constructor | shelf/scancache/cache.go:43-89 | Opening takes over the stored snapshots if they can be read, and holds nothing otherwise |
| ScanCache.Cache.Save | shelf/scancache/cache.go:187-235 | The file becomes what the cache holds, unless caching is off, the store is read-only or broken, there is nothing to write, it is what was last loaded or written, or the write fails |
| ShelfScan.IterateShelfTree | shelf/shelf_book.go:273-389 | An undisturbed scan is `CachedScan` of what the cache holds, for every cache; it makes the same events and ends the same way as `PlainScan`, which has no cache, if the books folder was not replaced since it was listed or shows another time; a completed scan that lists the books folder anew knows it again; disturbed or stopped, a scan leaves a cache that later ones may rely on |
| ShelfScan.CachedScanIsPlain | shelf/shelf_book.go:356-373 | Passing down whether the parent's listing was reused makes a scan with stored listings, none of which lies, the scan without |
| ShelfScan.ScanAgain | shelf/shelf_book.go:375-381 | After the books folder was replaced by one that shows another time, one completed scan is right and makes the next one right |
| ShelfScan.Scan.Visit | shelf/shelf_book.go:297-373 | The same for one subtree, whatever the cache holds and whether or not the parent's listing was reused |
| ShelfScan.AnyLife | shelf/shelf_book.go:375-381 | After any sequence of scans, saves, restarts and changes by others the cache still meets what a scan asks of it; it knows a books folder that was not replaced since the first cache |
| ShelfScan.AnyLifeRecovers | shelf/shelf_book.go:375-381 | After any life, in which the books folder was replaced however often, a completed scan that finds another time there is right, and so is the next |
| ScanReport.ScanReportsWhatIsDue | shelf/shelf_book.go:273-389 | For every tree and any visitor: a scan reports, each once, exactly the events that are due, up to the first that the visitor refuses; a book or folder is due if the visitor wants such, it is the books folder or an entry of a readable folder, its name is (or is not) a book's and not ignored, and no folder above it is ignored or a book; a remote shelf is none if and only if its books folder is no directory |
| ScanReport.UnstoppedScanReports | shelf/shelf_book.go:297-373 | To a visitor that stops at nothing an event is reported if and only if it is due, and never twice |
| ScanReport.ScanFinds | shelf/shelf_book.go:273-389 | The same of the scan that is run, undisturbed and over a books folder that the cache knows |
| ScanExactness.ScanRightExactly | shelf/shelf_book.go:273-389 | For every cache, and a visitor that hears of folders and stops at nothing: the scan with stored listings reports and ends as the one without if and only if, at every folder there is to report down to which all times match, the stored children show the same folders, books and metadata files as the current ones |
| ScanExactness.SameBelow | shelf/shelf_book.go:356-373 | The same below any folder, whether its parent's listing was reused or not |
| ScanExactness.ScanReports | shelf/shelf_book.go:297-373 | What a scan reports is the books folder and then, child by child, what is shown of each and of what is in it |
| ScanExactness.TopFoldersRight | shelf/shelf_book.go:375-375 | For every cache the folders right in the books folder are reported as they are if and only if its time is not the stored one, or they are those of the stored children |
| ScanExactness.ScanExactly | shelf/shelf_book.go:273-389 | Both of the scan that is run |
| ScanExactness.ReplacedBooksFolderIsMissed | shelf/shelf_book.go:375-375 | A truthful cache over which a scan goes wrong, for any rules and any plain folder name: the books folder was replaced by another directory with the same stamp |
| MemFs.MemFs.Open | cmd/plainshelf-wasm/web/memfs.js:126-143 | Exactly which opens succeed and with which error each other fails; which opens create a file, which empty one, and that no other changes anything; what is marked; the descriptor |
| MemFs.MemFs.Mkdir | cmd/plainshelf-wasm/web/memfs.js:161-168 | The whole new state, or the error with nothing changed |
| MemFs.MemFs.Rmdir | cmd/plainshelf-wasm/web/memfs.js:174-180 | Only an empty directory goes, and its parent is marked |
| MemTree.HasChildrenMeans | cmd/plainshelf-wasm/web/memfs.js:174-180 | A directory is empty if and only if no name below it is a path |
| MemFs.MemFs.Unlink | cmd/plainshelf-wasm/web/memfs.js:181-186 | Only a file goes, and its directory is marked |
| MemFs.MemFs.Rename | cmd/plainshelf-wasm/web/memfs.js:187-206 | Exactly when it succeeds and with which error it fails; a whole subtree moves and nothing else does; both parents and every moved node are marked |
| MemFs.RenamedIsTree | cmd/plainshelf-wasm/web/memfs.js:199-204 | Moving every path of a subtree leaves a tree |
| MemFs.RenamedTouched | cmd/plainshelf-wasm/web/memfs.js:187-206 | A rename marks enough: every path whose node, kind or content changed is marked, or its nearest live directory is |
| MemFs.MemFs.Write | cmd/plainshelf-wasm/web/memfs.js:222-233 | The file's content is the old one with the bytes written over it at the position, zeros in a gap, and only this file and descriptor change |
| MemFs.WriteAt | cmd/plainshelf-wasm/web/memfs.js:222-233 | On the growing buffer, the content is the overwritten one whatever the buffer's spare bytes held |
| MemFs.Resize | cmd/plainshelf-wasm/web/memfs.js:80-86 | Truncation and growth on the buffer: the content is cut or extended with zeros, and no old byte comes back |
| MemFs.MemFs.TakeDirtyParentsFirst | cmd/plainshelf-wasm/web/memfs.js:259-267 | Exactly the marked live paths are handed out, each once and with its content, a directory before all that lies below it, and no mark remains |
| MemFs.MemFs.RequeueDirty | cmd/plainshelf-wasm/web/memfs.js:251-254 | A live path is marked again |
| MemFs.MemFs.AnyOperations | cmd/plainshelf-wasm/web/memfs.js:109-233 | Any sequence of operations keeps the tree a tree and marks every change |
| MemTree.NearestStable | cmd/plainshelf-wasm/web/memfs.js:19-22 | After any operations the nearest live ancestor of a path is marked, or it is the same untouched node as before |
| WriteBehind.OperationKeepsInv | cmd/plainshelf-wasm/web/opfs.js:64-73 | An operation that runs between two steps of a drain leaves every difference covered |
| WriteBehind.MismatchIsStale | cmd/plainshelf-wasm/web/opfs.js:48-53 | A stored child whose kind memory does not confirm may be removed: all that lives there is marked |
| WriteBehind.RemoveKeepsInv | cmd/plainshelf-wasm/web/opfs.js:53-53 | Removing it recursively leaves every difference covered |
| WriteBehind.FinishDirectoryKeepsInv | cmd/plainshelf-wasm/web/opfs.js:45-55 | A cleaned directory needs its mark no longer |
| WriteBehind.FinishFileKeepsInv | cmd/plainshelf-wasm/web/opfs.js:56-61 | A written file needs its mark no longer, unless it changed meanwhile and has a new one |
| WriteBehind.RequeueKeepsInv | cmd/plainshelf-wasm/web/opfs.js:68-71 | A failed write that is marked again leaves every difference covered |
| WriteBehind.UndisturbedHasNoClash | cmd/plainshelf-wasm/web/opfs.js:45-62 | With parents first, an undisturbed drain never meets a file where it needs a directory, or the reverse |
| WriteBehind.ReloadShowsSameTree | cmd/plainshelf-wasm/web/opfs.js:32-43 | What is loaded after such a drain is the tree that was in memory |
| Opfs.Storage.Load | cmd/plainshelf-wasm/web/opfs.js:89-104 | Loading fills memory with exactly what is stored, and leaves nothing marked |
| Opfs.Storage.RemoveStale | cmd/plainshelf-wasm/web/opfs.js:53-53 | Recursive removals keep the invariant at every await, also when they fail after removing some of it |
| Opfs.Storage.WriteFile | cmd/plainshelf-wasm/web/opfs-writer.js:5-23 | Creating directories, truncating and writing keep the invariant at every await, whether the write ends whole or with an error |
| Opfs.Storage.Drain | cmd/plainshelf-wasm/web/opfs.js:64-73 | Every difference stays marked whatever runs or fails meanwhile; undisturbed, storage equals memory on every path |
| Opfs.Storage.AnyRun | cmd/plainshelf-wasm/web/opfs.js:77-86 | The same over any run of operations and drains |
| Utf8.PartialMeansExtensible | internal/util/count.go:27-29 | What is held back is exactly a proper beginning of some sequence of section 4 of RFC 3629 |
| Utf8.CutAtStart | internal/util/count.go:39-48 | Cutting a text before a byte that may start a rune splits its count |
| Utf8.ThreeTailsSettle | internal/util/count.go:39-47 | After three continuation bytes, nothing that follows changes the count of what came before |
| Utf8.WellFormedCount | internal/util/count.go:48-61 | On well-formed text the count is the number of sequences |
| Utf8.SequencesEncode | internal/util/count.go:48-61 | The sequences counted as one are exactly the encodings of the Unicode scalar values, by the arithmetic of section 3 of RFC 3629 |
| Utf8.EncodedCount | internal/util/count.go:48-61 | What any list of scalar values is written as counts its length |
| Utf8.RuneSizeMeans | internal/util/count.go:48-61 | A rune is an encoding that the text begins with, and one byte where there is none |
| TextCounter.TextCounter.Write | internal/util/count.go:15-50 | After every write the bytes held back are a proper beginning of a sequence, and the counts so far are right for any continuation |
| TextCounter.TextCounter.Chars | internal/util/count.go:59-61 | The rune count of all that was written |
| TextCounter.TextCounter.Lines | internal/util/count.go:52-57 | The newlines of all that was written, and one more for an unterminated last line |
| TextCounter.LinesCounted | internal/util/count.go:52-57 | Lines without line feeds, written each with one at its end, count their number, and one more if something follows the last |
| TextCounter.CountParts | internal/util/count.go:8-61 | Both counts depend only on the concatenation of the writes |
| Heap.Heap.From | internal/container/heap.go:18-25 | Heapifying keeps the elements and establishes the heap order |
| Heap.Heap.RootPrecedes | internal/container/heap.go:31-39 | Nothing in a heap comes before its root |
| Heap.Heap.Up | internal/container/heap.go:76-85 | Sifting one misfit up restores the order and keeps the elements |
| Heap.Heap.Down | internal/container/heap.go:87-102 | Sifting one misfit down restores the order from there on and keeps the elements |
| Heap.Heap.Pop | internal/container/heap.go:46-60 | Takes out an element nothing precedes, and nothing else |
| Heap.Heap.Replace | internal/container/heap.go:62-74 | Exchanges an element nothing precedes for a new one |
| Sketch.EachShingle | internal/sketch/shingle.go:5-24 | The ring buffer visits every window of n runes once, in order |
| Sketch.WindowsHoldNRunes | internal/sketch/shingle.go:5-24 | Each of those windows holds exactly n runes, and there are as many as the text has room for |
| Sketch.KeepSmallest | internal/sketch/sketch.go:48-68 | The heap and the seen set keep, in strictly ascending order, exactly the k smallest distinct hashes and their true number |
| Sketch.BottomUnique | internal/sketch/sketch.go:67-70 | Being the k smallest in ascending order determines the list |
| Sketch.Build | internal/sketch/sketch.go:38-71 | The sketch of a text is that of the hashes of all its windows |
| Sketch.BuildDefault | internal/sketch/sketch.go:28-36 | A text under the limit keeps every hash, so its sketch is complete |
| Compare.Jaccard | internal/sketch/compare.go:5-37 | The merge computes the index of the two lists cut at the exhaustive limit |
| Compare.EstimateIsExactUpto | internal/sketch/compare.go:66-76 | That is the exact index of the two full sets restricted to hashes up to the limit |
| Compare.EstimateSymmetric | internal/sketch/compare.go:5-37 | Symmetric |
| Compare.EstimateBounds | internal/sketch/compare.go:32-36 | Within 0 and 1 |
| Compare.CompleteIsExact | internal/sketch/compare.go:66-76 | Two complete sketches give the exact Jaccard index of their sets |
| Compare.MaxJaccardBounds | internal/sketch/compare.go:53-60 | The size bound is an upper bound, and reached when one set contains the other |
| Compare.ContainmentIsExact | internal/sketch/compare.go:39-51 | From the exact index, both containments are the exact shared parts |
| Compare.ContainmentShares | internal/sketch/compare.go:39-51 | From any index, both containments are the parts that the shared hashes are of either set, where index and sizes say how many are shared; none exceeds 1 |
| SimilarPairs.BuildSimilarPairs | server/handle_fingerprints.go:88-120 | The list is the table of the sorted books' reported pairs |
| SimilarPairs.ListedExactly | server/handle_fingerprints.go:93-117 | A pair is listed exactly when two books' estimate reaches the floor and their sizes allow it |
| SimilarPairs.ListedOnce | server/handle_fingerprints.go:89-94 | With different ids no unordered pair is listed twice, and the list is strictly ordered |
| SimilarPairs.EntrySays | server/handle_fingerprints.go:71-117 | An entry names its books, their lengths and their estimate, and its relation: identical if and only if the md5s are equal; else a subset, nearly identical or of one source, by 0.95 of a part and indexes of 0.9 and 0.85 |
| SimilarPairs.SimilarIsNeverSkipped | server/handle_fingerprints.go:97-99 | Books as alike as the floor asks are never skipped by size |
| SimilarPairs.PruningChangesNothingExactly | server/handle_fingerprints.go:97-104 | The skip changes no list, whatever the floor, if and only if no two books' estimate exceeds the bound of their sizes |
| SimilarPairs.PruningChangesNothing | server/handle_fingerprints.go:97-99 | On complete sketches the list is that of the loop without the skip |
| SimilarPairs.SampledEstimateMayExceedBound | server/handle_fingerprints.go:97-104 | Where a long text's kept hashes are all that a short text has, the skip drops a pair that the loop without it lists: the skip is right and the estimate too high |
| SimilarPairs.SampledBooksExist | internal/sketch/sketch.go:28-36 | There are such books with as many kept hashes as are kept by default, of every larger size |
| SimilarPairs.CompareTexts | internal/sketch/sketch.go:28-71 | From two texts to what is reported of them: a pair exactly when their windows' hashes overlap enough up to the lesser of two limits, and their numbers allow it; the limits are given by the sets of hashes, and for short texts do not limit: then exactly when they are as alike as the floor asks, with the relation that the two sets have; the lengths are the texts' rune counts |
| Codec.Encode | internal/sketch/codec.go:16-28 | The bytes of the format |
| Codec.Layout | internal/sketch/codec.go:16-28 | Byte by byte: version 1, the width in four bytes, the number of shingles in eight, of hashes in four, and each hash in eight, lowest byte first |
| Codec.Decode | internal/sketch/codec.go:30-72 | Accepts exactly the encodings of storable sketches (ascending, count within the distinct number), each as itself |
| Codec.EncodedInjective | internal/sketch/codec.go:16-28 | Different storable sketches have different bytes |
| Codec.RoundTrip | internal/sketch/codec.go:16-72 | Decoding what was encoded gives it back |
| Fingerprint.KeySplitsBack | shelf/fingerprint/cache.go:412-422 | A key splits into the ids it was made of, when the book id holds no slash |
| Fingerprint.MatchingStatNamesContent | shelf/fingerprint/cache.go:38-40 | Where a source has the settled modification time of a record, made by whichever caller and however late, the recorded hash is that of its content at that moment or at a later one of its history |
| Fingerprint.EditsKeepIndexTrue | shelf/fingerprint/cache.go:271-280 | No edit makes a record lie |
| Fingerprint.InFlightLater | shelf/fingerprint/cache.go:167-214 | What a call knows between two holds of the lock stays true whatever others edit, record or save |
| Fingerprint.MergeKeepsNewest | shelf/fingerprint/cache.go:380-387 | Each key keeps one of its two records, the one first seen later, or of two seen together the one with the later modification time |
| Fingerprint.MergeCommutes | shelf/fingerprint/cache.go:380-387 | Which machine's file merges into which does not matter, but for different records with the same two times |
| Fingerprint.SaveKeepsClosed | shelf/fingerprint/cache.go:309-324 | If memory and file were closed (every indexed hash has its fingerprint), so is what is saved |
| Fingerprint.SaveKeepsLiveRecords | shelf/fingerprint/cache.go:389-410 | With the live books known, the record of a source is kept if and only if its book is live and memory or a stored file of the same rules has it; with the live books not known, if one of them has it |
| Fingerprint.SaveKeepsExactlyTheUsed | shelf/fingerprint/cache.go:389-410 | With the live books known, exactly the fingerprints survive that a kept record of a live book's source names or that were answered this run; with the live books not known, all |
| Fingerprint.SaveIsIdempotent | shelf/fingerprint/cache.go:309-342 | Saving what was just saved asks for nothing new |
| Fingerprint.SaveKeepsTrue | shelf/fingerprint/cache.go:309-346 | What is saved is true of the sources if memory and file were |
| FingerprintCache.Cache.constructor | shelf/fingerprint/cache.go:96-130 | A file of other rules, or none, leaves an empty cache |
| FingerprintCache.Cache.LookupIsHeld | shelf/fingerprint/cache.go:216-232 | A lookup by a stat taken earlier answers with the fingerprint of content held at the stat or since, even when another caller made the record in between |
| FingerprintCache.Cache.Step | shelf/fingerprint/cache.go:167-281 | What each part of a call between two holds of the lock leads to, and that it keeps the cache true and the call in good order |
| FingerprintCache.Cache.Resolve | shelf/fingerprint/cache.go:159-214 | The answer is the fingerprint of content held at some moment of the call; undisturbed it is the current content's, a matching record answers without opening the source unless forced, a forced call opens it, and a settled source is recorded |
| FingerprintCache.Cache.Record | shelf/fingerprint/cache.go:260-281 | Only a stat settled before reading is recorded; an unchanged observation keeps its first date; a closed cache stays closed if and only if, where a settled reading's fingerprint was already known, it is still there |
| FingerprintCache.PruneBetween | shelf/fingerprint/cache.go:194-212 | A run of a closed cache in which another caller's save prunes the fingerprint after it was found: the call is answered, and the cache is no longer closed |
| FingerprintCache.Cache.MergeIndex | shelf/fingerprint/cache.go:380-387 | The loop makes the merge that `MergeKeepsNewest` is about, in any iteration order |
| FingerprintCache.Cache.MergeEntries | shelf/fingerprint/cache.go:372-378 | No fingerprint of either file is lost, and this machine's own are kept, in any iteration order |
| FingerprintCache.Cache.PruneCache | shelf/fingerprint/cache.go:389-410 | The two loops leave what `SaveKeepsExactlyTheUsed` is about |
| FingerprintCache.Cache.Save | shelf/fingerprint/cache.go:301-347 | Memory becomes the merged and pruned cache or, on any failure, stays; the file is written exactly when it differs from what was read |
| FingerprintCache.Cache.SaveTwice | shelf/fingerprint/cache.go:337-342 | A second save with nothing changed writes nothing |
| FingerprintCache.AnyRun | shelf/fingerprint/cache.go:96-347 | Over any life of two machines on one file, with any number of calls at once on each, every answer is right at some moment of its call |
| NaturalCompare.NaturalCompare | internal/cbz/cbz.go:162-197 | The loop compares sort keys (bytes of text, digit runs as one unbounded number), then the names as given |
| NaturalCompare.CompareRuns | internal/cbz/cbz.go:173-182 | By length without leading zeros and then by bytes is by value |
| NaturalCompare.NumbersByValue | internal/cbz/cbz.go:162-197 | After the same beginning the smaller number, as written in decimal, comes first, however many zeros lead either; zeros alone leave it to the names as given |
| NaturalCompare.TextByBytes | internal/cbz/cbz.go:162-197 | After the same beginning, where no run of digits goes across, the smaller byte comes first, and nothing before anything; names that fold alike are compared as given |
| NaturalCompare.DigitsAreDecimals | internal/cbz/cbz.go:166-172 | The digits are the ten that numbers below ten are written with |
| Lex.LessMeans | internal/cbz/cbz.go:180-197 | The first byte that differs decides, and else the longer is the greater |
| NaturalCompare.ZeroOnlyOnTheSameName | internal/cbz/cbz.go:194-197 | Zero exactly on identical names |
| NaturalCompare.OrderIsAntisymmetric | internal/cbz/cbz.go:162-197 | Antisymmetric |
| NaturalCompare.OrderIsTransitive | internal/cbz/cbz.go:162-197 | Transitive |
| NaturalCompare.PageOrderIsUnique | internal/cbz/cbz.go:162-199 | The pages of an archive have one sorted order, whatever order the archive has |
| FolderPaths.JoinTellsPath | shelf/folderpath.go:8-12 | Folders with the same joined name are the same folder |
| FolderPaths.JoinGrows | shelf/folderpath.go:8-12 | The joined name of a folder below another is that one's, a slash and the last segment |
| FolderPaths.HasPrefixMeans | shelf/folderpath.go:18-20 | A folder is a prefix if and only if the path is it and something more |
| OfflineStore.FoundPackagesAreApart | shelf/shelf_offline.go:352-363 | Packages that scans find do not lie in one another |
| OfflineStore.LoadDownloads | shelf/shelf_offline.go:133-140 | Exactly the usable entries are loaded, and each path they name has a route to one of them |
| OfflineStore.UsableMeans | shelf/shelf_cache_snapshot.go:235-238 | An entry is usable if and only if it is of its own book and its path leads from "books" to a name that ends in ".bookpkg" |
| OfflineStore.StateMeans | shelf/shelf_offline.go:571-588 | An update is available if and only if a downloaded book is listed at another path or in another version |
| OfflineStore.Store.ReconcileDownloads | shelf/shelf_offline.go:389-416 | No route contradicts the listing, and every path of a record that does not has one |
| OfflineStore.Disk.ReplaceDirKeepingPrevious | shelf/shelf_offline.go:653-671 | The new package is in place, or the old state is back; only a failed putting back loses the old package |
| OfflineStore.Store.Adopt | shelf/shelf_offline.go:480-493 | The new record takes its path over from any other, and routes still lead to records of their path |
| OfflineStore.Store.DownloadBook | shelf/shelf_offline.go:435-506 | The whole disk after it; the other records' packages are kept if and only if none lies inside the new package or inside the old one that goes; through every failure, a path apart from the records' keeps all of them safe |
| OfflineStore.RemovalKeepsExactly | shelf/shelf_offline.go:534-539 | Removing a directory keeps the records' packages if and only if none lies at or below it |
| OfflineStore.Store.RemoveDownload | shelf/shelf_offline.go:508-541 | The package goes unless another record names its path; the records that remain keep theirs if and only if it stays or none of theirs lies inside it |
| OfflineStore.AnyRun | shelf/shelf_offline.go:389-541 | Over any run of downloads, removals, listings and restarts on records whose paths are apart, every record, in memory or that a restart would load, names a package that is there, unless its own replacing failed twice over |
| OfflineStore.NestedPackageGoesToo | shelf/shelf_offline.go:508-541 | Of any loaded list with a package inside another, removing the outer download removes the inner one's package, though its record stays |
| OfflineStore.NestedRecordsAreUsable | shelf/shelf_cache_snapshot.go:235-238 | The check of a loaded path admits such records |
| TaskWorker.TaskChain.Status | internal/taskutil/worker.go:112-148 | The loop's answer: failed before all, settled only with all settled, running once anything began |
| TaskWorker.Worker.EndTask | internal/taskutil/worker.go:218-241 | A task that returns, fails or panics leaves its chain with its status and either stopped or at the next task, no other chain touched, and no chain back from a terminal status |
| TaskWorker.Worker.TakeChain | internal/taskutil/worker.go:214-219 | The chain queued first is the next to run, from its first task on |
| TaskWorker.Worker.TryEnqueue | internal/taskutil/worker.go:243-262 | Closed, full or queued last: exactly which |
| TaskWorker.Worker.Close | internal/taskutil/worker.go:195-208 | When the call that closes a started worker returns, every accepted chain is terminal; it does return |
| TaskPool.Pool.FindActiveLocked | internal/taskutil/pool.go:128-139 | Nothing found means that no accepted chain of the key is at work; something found was at work |
| TaskPool.Pool.EvictLocked | internal/taskutil/pool.go:141-157 | What goes is terminal and the oldest; no more than the limit stays listed |
| TaskPool.Pool.Submit | internal/taskutil/pool.go:49-79 | The order has no duplicates and matches the map, no two chains of a key are at work, and only a chain at work, a full queue or a closed worker refuses one |
| TaskPool.Pool.Busy | internal/taskutil/pool.go:102-111 | Yes means some chain was at work, no that none is |
| TaskPool.AnyRun | internal/taskutil/pool.go:33-79 | In every reachable state of an open pool the order has no duplicates and matches the map, no two chains of a key are at work, all at work are listed, and no more are listed than are kept by setting or than the worker can hold, while tasks settle, fail and panic at any moment |
| TaskPool.AnyRunClosed | internal/taskutil/pool.go:47-47 | Closed after any such run, every accepted chain is terminal |
| Rescan.WaitIsPositive | shelf/shelf_rescan.go:111-113 | In exact arithmetic a refusal's wait is never empty, so no claim is let through without a token |
| Rescan.WaitIsEmptyExactly | shelf/shelf_rescan.go:111-113 | For tokens of any value below one, the wait is empty if and only if they fall short of one by less than a nanosecond's worth |
| Rescan.FreeClaimExactly | shelf/shelf_rescan.go:108-126 | Exactly then a claim is let through without a token; and at the next nanosecond another one is |
| Rescan.BookCache.TakeToken | shelf/shelf_rescan.go:108-117 | The whole outcome of a claim for tokens of any value |
| Rescan.WaitIsExact | shelf/shelf_rescan.go:108-126 | In exact arithmetic a refused caller is granted exactly from the named wait on, other refusals in between or not |
| Rescan.PaceInAnyInterval | shelf/shelf_rescan.go:14-18 | Grants so accounted for number no more than 5 + T/10s in any interval of length T |
| Rescan.BookCache.TakeRescanTokenLocked | shelf/shelf_rescan.go:108-117 | Keeps the account of tokens and grants that gives the pace |
| Rescan.BookCache.BeginRescan | shelf/shelf_rescan.go:90-106 | One scan at a time; a running scan or an unthrottled claim costs no token; exactly when a claim is granted |
| Rescan.AnyRun | shelf/shelf_rescan.go:90-132 | In exact arithmetic the pace, at most one running scan and tokens within 0 and 5 in every run, whatever the clock shows |
| FolderOrder.SortFolderSiblings | shelf/shelf_cache.go:332-382 | Without a key nothing moves; with one, distinct folders are permuted into the order `InOrder` states: ancestors first, siblings keyed first, by key, then as listed |
| FolderOrder.PrecedesMeans | shelf/shelf_cache.go:360-372 | Of two siblings the one with a key comes first, then the smaller key, and else the one that the list reaches first |
| FolderOrder.SubtreesAreContiguous | shelf/shelf_cache.go:357-379 | In that order every subtree is in one piece |
| FolderOrder.OrderIsStrict | shelf/shelf_cache.go:337-343 | In that order nothing stands twice |
| FolderOrder.Sorter.Add | shelf/shelf_cache.go:339-348 | Each folder and each missing ancestor becomes a child of its parent once, in the order first met |
| FolderOrder.Sorter.Visit | shelf/shelf_cache.go:357-379 | Lists exactly the present folders below one, in order, and ends |
| RevealGuard.Rules.IsNSFWFolder | shelf/internal/shelfutil/shelfutil.go:120-143 | A folder is marked exactly when it or a folder above it is |
| RevealGuard.Visibility.FilterFolders | server/visibility.go:87-117 | Keeps, in order, the unmarked folders that hold no book or a visible one |
| RevealGuard.Add | server/visibility.go:75-85 | The names recorded are those of exactly the folders that hold something, at any depth |
| RevealGuard.RevealedBy | server/visibility.go:152-199 | Counts the moved books that are newly visible, and the empty folders that lose their mark |
| RevealGuard.MovedUnder | server/visibility.go:140-146 | A moved folder holds after the move what it held before |
| RevealGuard.GuardIsExact | server/visibility.go:124-199 | For a move to an unlisted target the guard reports nothing if and only if nothing in the moved folder, book or folder, is visible after and was not before |
| RevealGuard.LeavingGuardIsExact | server/visibility.go:128-199 | For a folder that leaves the shelf it reports nothing if and only if nothing of it, book or folder, is visible where no folder is marked and was not before |
| ReadingStats.Project | internal/readingstats/readingstats.go:155-189 | The result is that of some iteration order; where no key moves to another that moves, the keys that resolve are gone, and each day of each book holds what it and its sources had, up to a day's length |
| ReadingStats.TargetMeans | internal/readingstats/readingstats.go:160-173 | A key moves if and only if it is the reader's name, a slash and an id that resolves to a name neither blank nor the reader's, and then to that name, trimmed |
| ReadingStats.OrdersAgreeExactly | internal/readingstats/readingstats.go:162-184 | Every iteration order gives the same document if and only if no key moves to another key that moves |
| ReadingStats.ChainDependsOnOrder | internal/readingstats/readingstats.go:162-184 | In any document with such a chain, two orders that give different documents |
| ReadingStats.ProjectionIsIdempotent | internal/readingstats/readingstats.go:162-187 | A second projection moves nothing if and only if no target of the first resolves, but to itself |
| ReadingStats.OtherNamesStay | internal/readingstats/readingstats.go:161-171 | Targets that are not a reader's keys meet both conditions |

## Left out

- Symbolic links in the scan: a link's target may change without its directory's modification time.
- Clocks that step back for file stamps, stamps set by hand, and machines with different clocks on one cache file: a stamp is taken to be later than its change less the racy window.
- ScanCache.Cache.Save: the digest of a listing is the listing itself, as for a hash without collisions.
- Opening a book package, logging and the duration statistics of a scan.
- MemFs.MemFs.Rename: moving a directory into itself, and removing `/`, are excluded by preconditions; paths are already normalized, and permissions, times and reads are not modelled.
- MemFs.MemFs.Write: nodes are inode numbers in a map rather than objects; descriptors refer to them, and sharing between a descriptor and a path is kept.
- Opfs.Storage.Drain: when a drain starts (timer, page events) is arbitrary; a drain starts after the one before it has ended, as the promise chain makes it.
- Opfs.Storage.WriteFile: a write ends whole or with an error; the byte count that the worker's `write` returns is ignored by the code, so a short write without an error would count as a success, and is not among the outcomes here.
- Names that do not survive percent-encoding, and the messages to the writer worker.
- The functions of `unicode/utf8` are written from section 4 of RFC 3629 and that package's documented results.
- Sketch.EachShingle: the callback's hashes are collected in a sequence; the hash function is a parameter.
- Codec.Encode: base64 around the bytes.
- Jaccard, containment, tokens and sort keys are real numbers; rounding is not modelled, but for what `Rescan.FreeClaimExactly` says of tokens of any value.
- Rescan.AnyRun: the pace is that of exact arithmetic.
- The work budget and the HTTP side of the similar books search.
- FingerprintCache.Cache.Resolve: its contract is for a call with no other caller; calls at once are `FingerprintCache.AnyRun`'s, made of the same parts in `Step`. MD5 is a parameter without collisions, the builder deterministic; repairing a stale hash in the book's own record and the hit counters are left out.
- FingerprintCache.Cache.Save: two files have equal bytes exactly when they hold the same value; the generator's version string is left out.
- Reading, marking and listing of comic pages beyond their order; case folding is a parameter.
- OfflineStore.Store.DownloadBook: the crash window between the two renames, and the staging directory, which holds a value here; packages are opaque, and the stored listing snapshot and mirrored configuration file are left out.
- OfflineStore.UsableMeans: paths are lists of names, so the refusal of empty, `.` and `..` segments has no counterpart.
- OfflineStore.AnyRun: over records and listed books whose paths are apart, as those of scans are; what happens otherwise is said operation by operation.
- TaskWorker.Worker.EndTask: a task that returns is settled, and one that returns an error with tasks after it has failed, as all chains built in the repository do; contexts and cancellation are left out. One worker goroutine.
- TaskWorker.Worker.Close: a second caller of Close does not wait, in the code as here.
- TaskPool.Pool.Submit: random ids are fresh; creation times are left out.
- Rescan.BookCache.BeginRescan: what a scan does, and locks around it; its contract is for tokens in whole nanoseconds, as exact arithmetic keeps them.
- FolderOrder.SortFolderSiblings: the maps are keyed by paths, which `FolderPaths.JoinTellsPath` justifies; with duplicates in the input the contract says nothing.
- RevealGuard.RevealedBy: books and folders are read at one moment; an ancestor of the moved folder that is left empty may appear, and is not covered.
- ReadingStats.Project: documents as parsing leaves them; trimming of names is a parameter.
- Adding to reading time, `Project`'s file locking, and parsing.
- WebDAV and pCloud clients, EPUB and HTML extraction, settings, security middleware, shells and the frontend.
