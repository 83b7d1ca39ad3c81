# A verified model of cpp_leveldb

cpp_leveldb is a log-structured key/value store. Writes go to a memory segment (a skip list with a
write-ahead log); memory segments pile up behind each other, and a merger turns runs of segments into
one on disk (a prefix-compressed, block-structured key file with a sparse index, and a data file).
Readers see the newest entry of each key; an entry with an empty value is a removal.

This project models those parts in Dafny and proves that they fit together. The reference throughout is
a finite map from keys to values. A segment stands for one such map (`Entries`), a list of segments for
their *merge* (`Views.Merged`, the newest entry of each key) and, with the removals dropped, for the
*live view* (`Views.LiveView`). A listing (`Listings.Item`) is such a list with the ID ranges and with what is on
disk; the database objects, the state machine and the directory are all held to the same functions on listings,
one for each operation.

| module | what it holds |
|---|---|
| `Bytes`, `KeyValues`, `LittleEndian` | byte strings and their order, pairs and maps, integers on disk |
| `SkipLinks`, `SkipReaders`, `SkipLevels` | the skip list as a sequence of pointer stores; lock-free readers; the levels as chains |
| `SkipLists`, `SkipIterators` | the skip list object and its iterators |
| `SkipCursors`, `StaleCursors`, `SkipRuns` | iterators beside the writer: every interleaving of next with stores, and runs of whole operations |
| `KeyFormat`, `KeyFile`, `SegmentWriter` | the key file format, its meaning, and the writer |
| `DiskSegments`, `DiskIterators` | the two readers: point lookup and range iterator |
| `LogFormat`, `LogReplay`, `LogFiles` | the write-ahead log, what survives truncation, the log object and its reader |
| `MemorySegments`, `LookupIterators`, `MultiSegments`, `Segments` | segments, their iterators, the k-way merge |
| `Views` | what a list of segments means; when merging, purging and `get` respect it |
| `Merger`, `Compaction` | one merge; which window to merge; sizes |
| `Listings` | what each operation makes of the list of segments, and when `get` can read it |
| `Directory`, `StoredFiles`, `DirectoryRuns` | the files of a database, superseded ones among them; every order of writing and deleting them |
| `SegmentLists`, `Databases` | the database object: open, put, remove, write, get, snapshot, lookup, merge, close |
| `Sessions`, `Lifetimes` | any sequence of requests to it, iterators read meanwhile, sessions with close and open in between |
| `Machine`, `MachineRuns`, `MachineTheorems` | the same database as a state machine in which clients and the merger interleave |
| `MachineReads`, `StaleReads` | gets in its runs, those among them that read without the lock while others go on |

How the concurrent parts are modelled. The skip list's writer makes one pointer store at a time; each is
appended to the ghost `trace`, and the theorems about readers quantify over all ways to interleave single
pointer reads with those stores. An iterator keeps the moment at which its node was linked; its contracts hold
however many stores have come since. The merger of the state machine copies the segment list, reads the
segments of its window one by one and commits later, with any client steps in between; segments are
reached through references into a heap, so that what a copied list means is not fixed by copying it. Closing
and opening is a step of the machine, too.

Where the code falls short of its documentation, the model follows the code, a lemma shows an input, and
another says exactly when all is well:

- `get` passes over empty values and goes on to older segments, so it may return a value that a newer
  removal has hidden (`Views.GetFindsRemovedValue`, `Views.GetIsLiveExactlyWhen`), and a merge may change
  what it returns, although the view stays (`Views.MergeKeepsGetExactlyWhen`);
- a segment on disk may be empty, after a merge of empty memory segments or of a value and its removal; `get`
  then reads through a null mapping (`Listings.EmptyMergeIsUnsearchable`, `Listings.RemovalsMergeToNothing`,
  `MachineTheorems.EmptyMergeFaults`; exactly when: `Listings.FetchedExactly`,
  `Listings.SearchableAfterMergeExactlyWhen`, `Listings.AlwaysSearchableExactlyWhen`, `MachineRuns.RunIsFold`);
- keys of 1024 bytes are admitted, but one of more than 1000 cannot be read back from disk, and neither can the
  file it is in (`KeyFormat.KeyReadsBackExactlyWhen`, `MachineTheorems.LongKeyBreaksMerge`,
  `MachineTheorems.LongKeyBreaksView`);
- `write` checks no keys, and the empty key makes a segment's iterators stop before they start
  (`MachineTheorems.EmptyKeyHidesSegment`); `MachineTheorems.StepIsSafeExactlyWhen` says which puts and batches
  do what they should, whatever comes before and after;
- an empty batch is written to the log as a put of nothing under the empty key
  (`LogReplay.EmptyBatchIsEmptyPut`, `LogReplay.FullReplayExactlyWhen`);
- the disk iterator delivers a key equal to the lower bound even above the upper one
  (`DiskIterators.CrossedBoundsDeliver`; exactly when: `DiskIterators.DeliversRangeExactlyWhen`,
  `Segments.LookupIsRangeExactlyWhen`);
- the node an iterator stands on keeps its pointer when it is replaced or removed, so that next may pass over a key
  inserted behind it (`StaleCursors.NextSkipsInserted`; exactly when: `SkipCursors.NextIsExactExactlyWhen`; never a
  key that was there all along: `SkipCursors.IterationMissesNothing`);
- a get that captured its segments before a merge committed may answer as it would have at no moment of its call
  (`StaleReads.GetAcrossCommit`); not so without a commit before its first read (`MachineReads.GetLinearizes`) or
  for a key that nobody removes (`MachineReads.GetAmongIsFold`);
- what was only in memory when the process died is lost; the view survives exactly if that adds nothing
  (`Listings.SurvivingViewExactlyWhen`);
- while a key is being removed from the skip list it is linked on upper levels but no longer on the
  lowest (`SkipLists.UnlinkKeysNestedExactlyWhen`); searches are right nevertheless.

## Model

| member | source | states |
|---|---|---|
| Bytes.LessIsStrictTotalOrder | include/slice.h:29-48 | `less` is a strict total order with the empty slice as its least element, as every search and merge needs |
| Bytes.LessMeaning | include/slice.h:29-35 | `less` is lexicographic: a common prefix, then the end of the smaller or a smaller byte |
| LittleEndian.RoundTrip64 | diskio.cpp:12-77 | an integer written in 8 little-endian bytes reads back modulo 2^64 |
| LittleEndian.LowestFirst | diskio.cpp:64-77 | the bytes of an integer, lowest first |
| SkipLinks.InsertKeeps | include/skiplist.h:103-106 | publishing a node at one level keeps the invariant: every slot a reader can reach is set and leads to the true successor on its level |
| SkipLinks.ReplaceKeeps | include/skiplist.h:89-92 | so does the store that puts a node in the place of one with an equal key |
| SkipLinks.UnlinkKeeps | include/skiplist.h:121-123 | so does the store that takes a node off one level |
| SkipLinks.PrepareKeeps | include/skiplist.h:104 | so does setting the next pointer of a node not yet published, which readers must not have seen before |
| SkipLinks.RaiseKeeps | include/skiplist.h:96-101 | so does raising maxHeight before the new levels hold anything |
| SkipReaders.SearchLinearizes | include/skiplist.h:32-50 | for every interleaving of a search's pointer reads with the writer's stores: no unset slot is read, and the result was the right one at some moment between the first and the last read |
| SkipReaders.SearchFinishes | include/skiplist.h:32-50 | wherever a search has got to beside the writer, once the list stays as it is some number of turns ends it, with the right node of some moment since it began |
| SkipReaders.IdleSearchEnds | include/skiplist.h:32-50 | on a list that stays as it is every search ends at the first node not below the key |
| SkipReaders.FirstAtLeastDecidesBinding | include/skiplist.h:109-116 | the node a search returns decides whether the key is bound, and to what |
| SkipLists.SearchDuringWrite | include/skiplist.h:32-50 | a search overlapping a put or remove answers from the map before or the map after, and from the map after once it starts after the level-0 store |
| SkipLevels.LevelsAscend | include/skiplist.h:84-108 | after any store, following a level's pointers from the head meets exactly that level's nodes, strictly ascending |
| SkipLists.InsertKeysNested | include/skiplist.h:96-107 | at every stage of an insertion each level's keys are among those of the level below |
| SkipLists.ReplaceKeysNested | include/skiplist.h:88-92 | the same at every stage of a replacement |
| SkipLists.UnlinkKeysNestedExactlyWhen | include/skiplist.h:117-127 | during a remove this holds exactly before its first and after its last store |
| SkipLists.SkipList.FindGreaterOrEqual | include/skiplist.h:32-50 | terminates at the first node not below the key, which is what some number of turns of the lock-free reader gives on the same list, and fills prev with the true predecessor on every level |
| SkipLists.SkipList.Put | include/skiplist.h:84-108 | the list becomes the map with the pair put in, by one new node of the height drawn (1..12), or by one as high as the node with the key, which it replaces; the previous pair is returned; level 0 changes in one single store; all states on the way have nested levels |
| SkipLists.SkipList.Remove | include/skiplist.h:117-127 | the list becomes the map without the key; the removed pair is returned; level 0 changes in one single store |
| SkipLists.SkipList.Get | include/skiplist.h:113-116 | the pair bound to the key, or the empty pair |
| SkipLists.SkipList.Contains | include/skiplist.h:109-112 | true exactly for the bound keys |
| SkipIterators.ListIterator.Seek | include/skiplist.h:146-149 | at any moment between stores, and whatever has become of the node it stood on: stands on the bindings not below the target |
| SkipIterators.ListIterator.SeekToFirst | include/skiplist.h:142-145 | likewise on all the bindings |
| SkipIterators.ListIterator.Next | include/skiplist.h:150-153 | from any node that was linked once, replaced or removed since or not: goes to the node that followed it at some moment between then and now; if it still is linked, exactly the current binding is passed |
| SkipCursors.NextLinearizes | include/skiplist.h:150-153 | a next that reads at one time from a node linked at an earlier one gets to its true successor at some moment in between |
| SkipCursors.IterationLinearizes | include/skiplist.h:150-153 | for any number of next and every interleaving with the writer's stores there are such moments for all of them, in order |
| SkipCursors.IterationMissesNothing | include/skiplist.h:150-153 | so keys ascend strictly, each pair was bound at a moment before it was fetched, and a key bound all along is not skipped |
| SkipCursors.ScanMissesNothing | include/skiplist.h:146-153 | the same of a seek followed by any number of next, each pointer read at a moment of its own |
| SkipCursors.NothingFound | include/skiplist.h:146-149 | when seek finds nothing, no key from the target on was bound all along |
| SkipCursors.NextIsExactExactlyWhen | include/skiplist.h:150-153 | next finds the pair that followed the key when its node was last linked, and so passes just the current key exactly when the same pair still follows |
| StaleCursors.NextSkipsInserted | include/skiplist.h:88-92 | a run in which it does not: the current node is replaced, a key put behind it, and next passes over that key |
| SkipRuns.ScanAmong | include/skiplist.h:84-153 | over every run of puts, removes and next after a seek: the list is the fold of the writes; keys delivered ascend from the target on, each with a value it had after some of the writes; every key bound throughout is delivered |
| SkipIterators.SkipListIterator.PeekKey | include/skiplistitr.h:32-39 | also beside a writer: the key of the current node unless past the upper bound; on an unchanged list the first key still to come, nothing being consumed |
| SkipIterators.SkipListIterator.Next | include/skiplistitr.h:18-31 | also beside a writer: the pair of the current node, which was bound when the iterator got there, or the end marker; on an unchanged list the first pair of the range still to come, and just that is consumed |
| KeyFormat.CalculatePrefixLen | diskio.cpp:91-101 | the length n of the longest common prefix, or 0 when n is above 127 or the rest of the key above 255 bytes |
| KeyFormat.EncodeKeyIs | diskio.cpp:103-110 | the header 0x8000 + n * 256 + length of the rest, and the rest, when 0 < n fits so; otherwise the length and the whole key |
| KeyFormat.KeyRoundTrip | diskio.cpp:103-110 | for ascending keys the header is never the end marker, the stored part never empty, and decoding gives the key back, unless the key has more than 1000 bytes: then, and only then, the decoder throws |
| KeyFormat.KeyReadsBackExactlyWhen | disksegment.cpp:226-245 | of keys of any length, exactly those of at most 1000 bytes can be read back after whatever smaller key |
| KeyFile.RecordLayout | disksegment.cpp:257-280 | at the place of a record both readers find its header, its stored key part, and the offset and length of its value |
| SegmentWriter.WriteSegmentFiles | diskio.cpp:112-175 | for every ascending list whose records fit a block, so for all keys that checkKey admits: the key file is whole 4096-byte blocks of consecutive records, the first of each uncompressed, with room for the end marker, and no block ends sooner or later than it must; data file and key index (the first key of every 16th block) match; purging drops exactly the removals |
| KeyFile.KeyFileIsUnique | diskio.cpp:137-162 | there is just one such key file for a list of entries |
| KeyFile.BlockBytes | diskio.cpp:139-145 | after its records a block has the bytes 0 and 0x80 and then zeros |
| SegmentWriter.EndBlock | diskio.cpp:139-145 | the open block is closed with the end marker and zeros to exactly 4096 bytes |
| SegmentWriter.WriteEntry | diskio.cpp:137-162 | one more entry is in the files, the index and the running state being those of the entries so far |
| SegmentWriter.KeptFrom | diskio.cpp:136 | what is written is the list without, if purging, its empty values, order kept |
| DiskSegments.BinarySearch0Finds | disksegment.cpp:121-146 | the recursion ends in the block b with first(b) <= key < first(b+1), the ends of the given range open |
| DiskSegments.BlockToScanIsCandidate | disksegment.cpp:92-108 | started from the sparse index, the search ends in such a block of the whole file |
| DiskSegments.OnlyCandidate | disksegment.cpp:92-110 | the key can be in no other block |
| DiskSegments.ScanBlock | disksegment.cpp:156-203 | the value's offset and length if the block has the key, and not found otherwise; no overrun |
| DiskSegments.Get | disksegment.cpp:205-219 | exactly the value stored for the key, empty when it is absent or a removal; in an empty file, and only there, a read where nothing is mapped |
| DiskSegments.LoadKeyIndex | disksegment.cpp:309-323 | the index rebuilt from the file is the one the writer built |
| DiskIterators.DiskIterator.NextKeyValue | disksegment.cpp:247-307 | moves to the next pair within the bounds, across blocks and prefix compression, or to the end |
| DiskIterators.DiskIterator.PeekKey | include/disksegment.h:83-87 | the next key, nothing being consumed |
| DiskIterators.DiskIterator.Next | include/disksegment.h:70-82 | delivers the first pair still to come and consumes just that |
| DiskIterators.DeliversRangeExactlyWhen | disksegment.cpp:282-295 | what is delivered is the range lower <= key <= upper, unless the bounds are crossed and the lower one is a stored key |
| DiskIterators.EmittedIs | disksegment.cpp:282-295 | and in that case it delivers the lower bound's pair and nothing else |
| DiskIterators.CrossedBoundsDeliver | disksegment.cpp:285 | an input of that kind |
| LogReplay.TruncatedReplay | logfile.cpp:62-131 | cut at any byte, a log of puts and non-empty batches replays the longest run of whole records; of a cut batch nothing, or with applyPartial its whole puts |
| LogReplay.CompleteIsLongest | logfile.cpp:96-122 | the run of whole records that is counted is the longest one in the bytes that are left |
| LogReplay.WrongEndMark | logfile.cpp:79-93 | a batch whose end mark is another number than the one that opened it: what was written before is replayed, of the batch nothing, and reading stops; with applyPartial its puts are, and reading goes on |
| LogReplay.FullReplayExactlyWhen | logfile.cpp:26-43 | an uncut log replays every put exactly when it has no empty batch |
| LogReplay.EmptyBatchIsEmptyPut | logfile.cpp:26-34 | an empty batch and a put of nothing are the same bytes |
| LogFiles.LogFile.StartBatch | logfile.cpp:26-29 | opens a batch of the announced length, whose negative goes to the file in four bytes |
| LogFiles.LogFile.EndBatch | logfile.cpp:30-34 | the same four bytes again; the file is the encoding of the records so far and the batch |
| LogFiles.LogFile.Write | logfile.cpp:35-43 | key length, key, value length, value: one put more, in the open batch or on its own |
| LogFiles.ReadLogFile | logfile.cpp:55-132 | the list receives what the log replays in the given mode; the exception leaves in returnOpenError mode, and always there |
| MemorySegments.TotalBytesAfterPut | include/memorysegment.h:58 | the sum of all key and value lengths changes as the code counts it |
| MemorySegments.MemorySegment.Put | include/memorysegment.h:54-63 | contents and log gain the pair, the previous value is returned, and the byte count stays that of the contents, except that it goes up by the previous value when the empty key is put again |
| MemorySegments.MemorySegment.Write | memorysegment.cpp:9-24 | contents and byte count gain the pairs in order, the log one batch |
| MemorySegments.MemorySegment.Get | include/memorysegment.h:64-68 | the value of the key, empty when there is none |
| MemorySegments.MemorySegment.Lookup | include/memorysegment.h:76-85 | an iterator over the entries with lower <= key <= upper; it stays usable while the segment is written to |
| MemorySegments.PutBeside | include/memorysegment.h:54-63 | a put leaves an iterator over the segment where it is, and ready for next |
| MemorySegments.MemorySegment.ReplayRebuilds | logfile.cpp:55-132 | replaying the segment's log rebuilds its contents |
| Segments.DiskSegment.Lookup | include/disksegment.h:116-131 | an iterator from a block early enough for the lower bound, or the empty one for an empty file |
| MultiSegments.MultiIterator.FindLowest | include/multisegment.h:99-119 | the newest of the iterators standing on the smallest key, or none when all are at their end |
| MultiSegments.MultiIterator.AdvancePast | include/multisegment.h:127-140 | that iterator loses the delivered key and nothing else |
| MultiSegments.MultiIterator.Next | include/multisegment.h:98-143 | the first pair of the merge, each key once with its newest value, for any number and mix of iterators |
| Segments.MultiLookup | include/multisegment.h:77-87 | an iterator over the merge of what each segment delivers, whatever the bounds; besides its own objects it depends only on the segments |
| Segments.LookupIsRangeExactlyWhen | include/multisegment.h:77-87 | that is the range of the merge exactly unless the bounds are crossed and a disk segment has the lower one |
| Segments.MultiGet | include/multisegment.h:35-43 | the newest non-empty value, or the bad read of an empty file that is reached before one is found |
| Listings.FetchedExactly | include/multisegment.h:35-43 | the bad read happens exactly when a segment on disk is empty and no newer segment has a value for the key; otherwise the result is the newest non-empty value |
| Listings.AbsentIsNotFetched | include/multisegment.h:35-43 | where no file is empty, a key that no segment has gives the empty value |
| Listings.SearchableAfterMergeExactlyWhen | merger.cpp:62-65 | a merge leaves no empty segment on disk exactly when there is none outside the window and the merge of the window is not empty |
| Listings.SearchableAfterWrite | databaseops.cpp:27-50 | writing, and setting the memory segment aside, neither add an empty file nor take one away |
| Listings.SearchableAfterReopen | database.cpp:138-149 | nor do closing and opening |
| Listings.AlwaysSearchableExactlyWhen | merger.cpp:50-93 | no sequence of merges, whatever their windows, leaves an empty file exactly when there is none to begin with, no two neighbouring segments above the oldest are both empty, and something is live from the oldest segment up to any other |
| Listings.EmptyMergeIsUnsearchable | include/disksegment.h:34 | two empty memory segments merged: get reads through the null mapping, for every key |
| Listings.RemovalsMergeToNothing | diskio.cpp:136 | a value and its removal, merged at the oldest end, are an empty file as well |
| Views.GetIsLiveExactlyWhen | include/multisegment.h:35-43 | that is the live view's value exactly when no removal hides an older value |
| Views.GetFindsRemovedValue | include/multisegment.h:37-41 | a list of two segments in which it is not |
| Views.NewestNonEmptyIs | include/multisegment.h:37-41 | of several values it is the one in the newest segment that has one, whatever removals are newer |
| Views.MergeKeepsGetExactlyWhen | merger.cpp:79-86 | a merge of a window, purging or not, leaves the newest non-empty value of a key the same exactly when a newer segment has a value, or no removal in the window hides one, or the value it hides is what get finds below the window |
| Views.MergedIsNewest | include/multisegment.h:104-114 | the merge takes each key from the newest segment that has it |
| Views.WindowMergeKeepsMerged | merger.cpp:79-86 | replacing any window of segments by its merge changes no entry |
| Listings.MergedItemIs | merger.cpp:96-117 | the merged segment has the newest entry of each key in its window; a removal among them goes exactly when the window starts at the oldest segment; its ID range is that of the window |
| Views.PurgeKeepsLiveViewExactlyWhen | diskio.cpp:136 | dropping the removals of a merge keeps the live view exactly when none of them hides an older value |
| Views.PurgeAtBottomKeepsLiveView | merger.cpp:65 | which is always so when the window starts at the oldest segment |
| Views.PurgeAboveResurrects | merger.cpp:65 | and not above it: a removed value comes back |
| Merger.Drain | diskio.cpp:133-136 | the pairs of the merged iterator up to its end marker are ascending and are the whole merge |
| Merger.WriteAndLoadSegment | diskio.cpp:48-63 | the segment loaded from the files written holds the entries given, or those that are no removals |
| Merger.MergeSegments1 | merger.cpp:96-117 | one segment with the ID range of the window and its merge, purged if asked |
| Compaction.ChooseWindow | merger.cpp:53-63 | the window starts at the first smallest segment but the last of the list, and has at least two segments and at most half of them or four |
| Compaction.SizeOfSegment | include/disksegment.h:97 | size() of a segment on disk is the bytes of both files, and of any segment a function of its entries and kind |
| Compaction.CompactionIsDetermined | merger.cpp:46-94 | a list and a limit determine the whole sequence of windows: there is just one compaction that gets down to the limit |
| Compaction.ShortIsLeftAlone | merger.cpp:52 | on a list no longer than the limit it is the empty one |
| Directory.RemoveContained | disksegment.cpp:64-75 | the erase-and-restart loop ends, with exactly the files no other one covers, in order |
| Directory.LoadDiskSegments | disksegment.cpp:49-76 | from a listing in any order: exactly the maximal ID ranges, sorted |
| Directory.OpenDirectory | disksegment.cpp:49-76 | when every other file lies within an active one, exactly the active ones are found |
| StoredFiles.MergedNameIsNew | diskio.cpp:49-51 | the files of a merged segment do not exist yet, those scheduled for deletion included |
| DirectoryRuns.DirectoryMeansAllWritten | merger.cpp:96-117 | segments being added, written out in any order, merged, nested in further merges, and superseded files deleted at any time, the list keeps the live view of everything ever added, and every file is covered by a segment on disk |
| DirectoryRuns.StepTakesEffect | diskio.cpp:32-62 | writing out puts the segment's file there, merging one with the window's range, which is new, and deleting takes away just a file that no segment on disk has |
| DirectoryRuns.OpeningFindsOnDisk | disksegment.cpp:49-76 | wherever that is interrupted, the maximal ranges among the files are those of the segments on disk, and the files hold their entries |
| DirectoryRuns.LoadAfter | disksegment.cpp:49-76 | loadDiskSegments after any such life of the directory finds exactly those; what they hold has the live view of everything ever added exactly when the segments lost with the memory add nothing, as when there are none |
| Listings.SurvivingViewExactlyWhen | disksegment.cpp:49-76 | the segments on disk have the view of all exactly when each key whose newest entry is in memory has the same value in them, a removal counting as none |
| StoredFiles.CommitKeepsOrder | merger.cpp:69-89 | after a commit ID ranges ascend, the new segment's files exist and are not to be deleted, and every other file lies within a segment on disk |
| StoredFiles.DeletionKeepsOrder | include/deleter.h:27-40 | deleting any part of what is scheduled changes none of this |
| SegmentLists.Commit | merger.cpp:69-86 | succeeds exactly when the window is where the merger found it, and then puts the merged segment in its place |
| Databases.Create | database.cpp:36-42 | a new database: open, valid, empty, and made of new objects |
| Databases.Database.constructor | database.cpp:44-85 | opening a directory gives its active segments and a new memory segment with an ID above theirs, with their live view |
| Databases.Database.Swap | databaseops.cpp:89-94 | the memory segment joins the list, an empty one with the next ID replaces it, the view stays; the next ID is one more |
| Databases.Database.MaybeSwapMemory | databaseops.cpp:27-35 | the same when the memory segment is over its limit, and nothing otherwise |
| Databases.Database.Put | databaseops.cpp:37-50 | the errors for a closed database, an empty or a long key; otherwise the view gains the pair (an empty value removes), a memory segment over its limit being set aside first |
| Databases.Database.Get | databaseops.cpp:13-17 | the same errors; otherwise the value that is found in the listing, empty or not, or the bad read of an empty file |
| Databases.Database.Remove | databaseops.cpp:52-68 | the value get finds, or its bad read, and then nothing is changed; the view loses the key, also when nothing was found and nothing done |
| Databases.Database.Write | databaseops.cpp:70-78 | the view gains the pairs of the batch in order, a memory segment over its limit being set aside first |
| Databases.Database.TakeSnapshot | databaseops.cpp:85-97 | the snapshot shows the view of now and consists of objects that no operation modifies any more |
| Databases.Database.Lookup | databaseops.cpp:80-83 | an iterator whose pairs, removals aside, are the view's from lower to upper, unless these are crossed; it shares no object with what later operations modify |
| Databases.Snapshot.Lookup | snapshot.cpp:15-18 | the same of a snapshot, with the exact condition on crossed bounds |
| Databases.Snapshot.Get | snapshot.cpp:10-13 | what get finds in the segments of the snapshot |
| Databases.Database.MergeWindow | merger.cpp:50-93 | one pass merges the window at the first smallest segment but the last, of half the list or four segments, or up to its end; keeps the view, leaves fewer segments, keeps list and directory in order, and schedules the files of every segment that leaves the list; no segment on disk is empty afterwards exactly when none was outside the window and the merge is not |
| Databases.Database.MergeSegments0 | merger.cpp:46-94 | the loop ends with at most maxSegments segments and the same view, the list being the one that its passes lead to; each pass finds more than maxSegments and merges the window to be chosen there |
| Databases.Database.Merge | merger.cpp:46-94 | in an open database the view, and so what iterators deliver, stays as it was; the listing is the one its passes lead to, without an empty file where `Listings.AlwaysSearchableExactlyWhen` rules it out; each pass as in MergeSegments0, on the list without the memory segment, and none when that is short enough |
| Databases.Database.WriteSegmentToDisk | diskio.cpp:32-46 | the segment's entries are on disk under its ID range; an empty one leaves nothing |
| Databases.Database.Flush | database.cpp:138-149 | afterwards every non-empty segment is on disk, and the directory alone has the list's live view |
| Databases.Database.CloseWithMerge | database.cpp:119-156 | the directory that is left can be opened and holds the merged list, all written out, with the view of before; with compaction it has at most that many segments; what was scheduled or merged away is gone; each pass as in MergeSegments0 with that limit, and none when the list, the memory segment included, is no longer |
| Databases.CloseAndReopen | database.cpp:119-156 | closing, with or without compaction, and opening again gives a new database with the same view; its listing, all written out and a new memory segment on top, is searchable exactly when the compacted one was; the passes are those of CloseWithMerge |
| Databases.Recover | merger.cpp:113-114 | opening what a dead process left, at any stage of deleting what merges superseded, gives exactly the segments on disk, each with its entries, and their view; the view of before exactly when the segments in memory add nothing |
| Sessions.Serve | databaseops.cpp:13-97 | one request of whatever kind does to the view what the same step does to the clients' map; only a remove whose get meets an empty file goes wrong, and it changes nothing; a snapshot sets the memory segment aside, and a merge gets down to its limit |
| Sessions.Session | databaseops.cpp:13-97 | any sequence of puts, removes, batches, snapshots and merges on a database object leaves the fold of the clients' operations as its view, as far as it gets; it ends early only at a remove whose get meets an empty file |
| Sessions.ReadAmong | databaseops.cpp:80-97 | an iterator read piece by piece between any requests delivers the range of the view of the moment it was taken, ascending |
| Lifetimes.Lifetime | database.cpp:119-156 | the same over any number of sessions with closing, compacting and opening in between: the view is everything asked for so far, in order, also when a session ends early at a remove whose get meets an empty file |
| Lifetimes.PutReopenGet | database.cpp:36-85 | create, put, close, open: get returns the value, and a full iteration just the pair |
| Lifetimes.NothingInNew | databaseops.cpp:13-17 | in a new database get and remove of any key of 1 to 1024 bytes return the empty value |
| MachineRuns.StepIsSound | databaseops.cpp:27-97 | every step of a client or the merger, and closing and opening, keeps the invariant, does to the listing what the function for it says and to the view what its caller expects; only the get in a remove can fail, and exactly on an empty file it reaches |
| MachineRuns.RunIsFold | merger.cpp:46-94 | in every run, for keys of 1 to 1000 bytes, the view is the clients' operations folded in order, whatever the merger does meanwhile and across closing and opening; "unexpected segment change" never happens, and a run fails exactly when the get of one of its removes comes upon an empty file |
| MachineRuns.LoadedIsCurrent | merger.cpp:51-65 | what the merger read without the lock is still what the window holds |
| MachineRuns.CommitKeeps | merger.cpp:79-89 | a commit finds its window, puts the merge in its place and keeps the invariant: ID ranges disjoint and ascending, references distinct |
| MachineTheorems.MergeHappens | merger.cpp:50-89 | from every state without a merge and for every window: the read, the loads and the commit put the merged segment in the window's place |
| MachineRuns.ReopenKeeps | database.cpp:119-156 | closing and opening makes the listing what was written out and a new memory segment, and keeps the invariant |
| MachineRuns.NothingToRemove | databaseops.cpp:57-58 | when get finds nothing, the view has nothing |
| MachineRuns.RemoveOfNothing | databaseops.cpp:57-58 | and remove then changes nothing at all |
| MachineReads.GetIsFold | databaseops.cpp:13-17 | in every run, for a key that no step removes or gives an empty value: get returns what the fold of the clients' operations has, unless it reaches an empty file |
| MachineReads.GetReadsOneMoment | include/multisegment.h:35-43 | a get without the lock, its reads spread over any steps, answers from its captured segments as they were at its first read |
| MachineReads.CapturedMeansAMoment | databaseops.cpp:13-17 | whatever others do meanwhile, a captured list has the view that the database had at some moment since; without a commit it is the list of that moment |
| MachineReads.GetLinearizes | databaseops.cpp:13-17 | with no commit between the capture and the first read, the answer is that of a get at some moment of the call |
| MachineReads.GetAmongIsFold | databaseops.cpp:13-17 | whatever is committed, for a key that nobody removes it is the fold at some moment of the call, unless an empty file is reached |
| StaleReads.GetAcrossCommit | databaseops.cpp:13-17 | a run with a commit and a remove between capture and reads, in which the answer is that of no moment |
| StaleReads.FourReached | databaseops.cpp:27-50 | four puts lead from a new database to the state in which that run starts |
| MachineTheorems.CommitFindsItsWindow | merger.cpp:69-74 | in every run from a state without a merge: whenever one is under way, the list it copied is a prefix of the current one and its window unchanged |
| MachineTheorems.FrozenForever | databaseops.cpp:85-97 | a segment that is not the current memory segment holds the same entries after any further steps |
| MachineTheorems.SnapshotIsConstant | databaseops.cpp:85-97 | so a snapshot means the view of its moment after any further steps |
| MachineTheorems.IteratorIsConstant | snapshot.cpp:15-18 | and an iterator over it, asked for its pairs at any times of the run, delivers those it would have delivered at once |
| MachineTheorems.StepIsSafeExactlyWhen | databaseops.cpp:37-78 | a step does what its caller expects in every state and before every continuation exactly when a key it puts has at most 1000 bytes, unless rejected, and the keys of a batch have 1 to 1000 |
| MachineTheorems.LongKeyBreaksView | diskio.cpp:32-46 | a longer key, put or in a batch, and the database closed and opened: no iterator gets past its file |
| MachineTheorems.LongKeyBreaksMerge | diskio.cpp:48-63 | the same after a merge, for a key that put admits |
| MachineTheorems.EmptyKeyHidesSegment | memorysegment.cpp:14-20 | after a batch with the empty key, a pair put next is not in the view |
| MachineTheorems.EmptyMergeFaults | include/memorymapped.h:42-45 | two snapshots of an idle database, a merge and a remove of any key: get reads through a null mapping |

## Left out

- Files, memory mapping, renames and clean-up of tmp files, the lock file, the format of the list of deletions, flush and sync: a key file, a data file and a log are byte strings, a directory is a map from ID ranges to them. The removal of a file when the last reference to its segment goes is covered by deletions at arbitrary times.
- Thread pool, wait groups, condition variables, timed sleeps and wake-ups: only the merger's read, merge and commit steps matter. `Databases` runs a merge as one piece; `MachineRuns` interleaves it.
- Weak memory ordering: a pointer store takes effect at once for every reader.
- Arena, buffer capacities, reference counts.
- `userKeyCompare`: disk files are in bytewise order, so the skip list is modelled with that order too, and for key/value pairs only.
- The height generator: a height is any number in 1..12 that the caller names; in `MemorySegments.MemorySegment.Write` and log replay it is any function of the pair.
- Aliasing of Slices with a buffer that is reused, and `compareTo`'s short cut for equal pointers, which gives the same result.
- `LogSegment`: loadDiskSegments tests the full path for the prefix "log.", so it is never created; `LogFiles.ReadLogFile` is modelled on its own, and so what a process that dies had only in memory and log is lost to `Databases.Recover`.
- `WriteBatch::remove`, exceptions as classes, options parsing, `checkValidDatabase`, file-name splitting: they would only add easy members.
- 64-bit IDs and file offsets do not wrap around in the model; the byte count of a memory segment does.
- C++ leaves the order of the `file.get()` calls in the stream readers open; the model reads left to right.
- std::sort is modelled by insertion; ID ranges are file names and thus distinct, so the sorted list is unique.
- SegmentWriter.WriteSegmentFiles: the iterator it drains is given as the list of its pairs; `Merger.Drain` provides that list.
- SegmentWriter.WriteSegmentFiles: keys of at most 4079 bytes, so that a record fits a block (longer ones, which only a batch can bring in, overrun it), values shorter than 2^31 bytes, which is all that the int length of a Slice can express, and data files below 2^63.
- SegmentWriter.WriteEntry: likewise, keys of at most 4079 bytes.
- KeyFormat.KeyRoundTrip: keys of less than 32768 bytes, as a longer one's length is taken for a compressed header or wraps around; `KeyFormat.KeyReadsBackExactlyWhen` covers them.
- Merger.WriteAndLoadSegment: keys of at most 1000 bytes, since the segment it loads could not be read otherwise; Merger.MergeSegments1 does likewise. The longer ones are the subject of `KeyFormat.KeyReadsBackExactlyWhen` and the theorems of `MachineTheorems`.
- Databases.Database.MergeSegments0: requires that all keys in the list have 1 to 1000 bytes and that it totals less than 2^51 bytes; Databases.Database.MergeWindow, Merge, WriteSegmentToDisk, Flush, CloseWithMerge and CloseAndReopen do likewise, and the requests of Sessions and Lifetimes keep to it. `MachineTheorems.StepIsSafeExactlyWhen` covers longer keys.
- Databases.Database.Write: requires a batch without the empty key; `MachineTheorems.StepIsSafeExactlyWhen` covers the others.
- MachineReads.GetLinearizes: no close and open during the call, which the code does not guard against either.
- MultiSegments.MultiIterator.Next: for segments that are not written to while it is in use, which is how lookup and merges use it; a merged iteration beside a writer is not part of this model, while that of one list is (`SkipIterators.SkipListIterator.Next`).
- MachineRuns.RunIsFold: in the machine a point lookup in a file with a key of more than 1000 bytes always counts as a bad read, while the code fails only in the blocks it scans; and a merge that comes upon such a file is dropped, while the code also sets the asynchronous error.
- MachineTheorems.LongKeyBreaksView: a file with a key that cannot be read back counts as one that no iterator gets past. With a key of 4080 bytes or more, from a batch, the code may not throw there but deliver other bytes; the view is wrong either way.
- Databases.Database.MergeSegments0: maxSegments is at least 1, as options and close see to.
- The state machine takes the choice of window and the decision to swap memory as parameters of its steps, so that its theorems hold for every choice.
- The asynchronous error field, `maybeMerge`'s threshold and closing twice at once.
