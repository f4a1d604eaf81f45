# A model of erofs-utils

This project models the parts of erofs-utils that decide whether a file system image holds what was put into
it, and proves that it does, or exactly when it does not. What the C code updates in place is updated in place
here (buffers are arrays, the allocator, the bit writer, the match finder and the encoder are classes); the
rest is functions and lemmas. Every method is proved against a specification that does not mention its body,
and the lemmas connect writers with readers.

A. **Extent indexes of compressed files.** A file is a sequence of extents; everything is derived from their
absolute offsets (`Extents`). mkfs writes one record per logical cluster (`FullIndex`), may convert the
records in place into packs of 2-byte and 4-byte entries (`CompactIndex`, `CompactConvert`), and the reader
loads clusters (`IndexReader`, `IndexMeaning`), maps offsets (`MapBlocks`) and reads data (`ReadData`).
`IndexRoundTrip` composes all of it. `FragmentOffset` is about files that end in a fragment.

B. **The DEFLATE encoder** (kite_deflate): bit writer, canonical codes, Huffman construction with heap sort
and a length limit (optimal while the limit is out of reach: `HuffmanOptimal`, `HuffmanCost`), run-length coded
trees, slots, the hash chain match finder, greedy and lazy matching, accounting against an output budget, fixed,
dynamic and stored blocks (`Bits` to `KiteDeflate`). The partner of the encoder is a decoder written from
RFC 1951 (`Inflate`).

C. **The metadata allocator**: buffer blocks, buckets, mapping, dropping, and the placement of inodes with
their inline tails (`BufferBlocks`, `BufferManager`).

D. **Directories, chunk-based files and extended attributes**, each as a writer and a reader (`DirBlock`,
`DirWrite`, `DirRead`; `ChunkMap`, `ChunkFile`, `ChunkStore`; `XattrBody`, `XattrRead`).

E. **Queues and the tree walk**: the job ring and the work queue as state machines over their critical
sections (`JobRing`, `WorkQueue`), and the walk that feeds the ring (`TreeDump`).

F. **Deduplication**: rolling hash and match extension (`RollingHash`, `Dedupe`, `ByteCompare`).

## Model

| member | source | states |
|---|---|---|
| `FullIndex.IndexWriter.WriteExtent` | lib/compress.c:138-235 | one extent appends exactly the records of its clusters (head, block count, capped distances) and carries the offset within the cluster to the next extent; the address word of the head is the address of the extent, or the high half of the fragment offset |
| `FullIndex.IndexWriter.WriteIndexes` | lib/compress.c:237-249 | the buffer of one record per logical cluster is filled exactly, and each record is the one that the absolute extent offsets define |
| `FragmentOffset.WriteMapHeader` | lib/compress.c:937-957 | flags, algorithms, cluster size, and the low half of the fragment offset or the inline size are in the header where the reader looks for them |
| `FragmentOffset.WriteWholeHeader` | lib/compress.c:1106-1115 | the simplified header of a file that is all fragment holds the offset below the top bit |
| `FragmentOffset.FillInode` | lib/zmap.c:34-112 | the fields come from the header; the low half of the fragment offset is that of the header and the high half, with full indexes, the address of the tail extent; the simplified header gives 63 bits |
| `FragmentOffset.WriteAndFill` | lib/zmap.c:34-112 | the offset of a fragment comes back from header and index, whatever it is with full indexes and below 4 GiB with compact ones |
| `Extents.SavingExtentOk` | lib/compress.c:638-639 | an extent that saves a block, which mkfs demands of every compressed extent, satisfies everything the index format needs |
| `CompactConvert.SplitEntries` | lib/compress.c:866-882 | the three groups of entries add up, end on whole packs, and are those the reader derives from the image position |
| `CompactConvert.Convert` | lib/compress.c:830-935 | the in-place conversion overwrites no record before it is read, leaves the header alone, fails only for the cluster sizes the source rejects, and leaves packs that hold every entry |
| `IndexMeaning.FullIsFaithful` | lib/zmap.c:145-197 | every cluster of an image that holds the records loads with the type, offset, address, distances and block count that the extents define |
| `IndexMeaning.CompactFaithfulExactly` | lib/zmap.c:232-390 | a compact entry loads truthfully if and only if it is not a last-of-pack look-ahead distance with bit 11 set |
| `IndexMeaning.CompactIsFaithful` | lib/zmap.c:232-390 | compact indexes lose nothing when no extent spans more than 2048 clusters |
| `IndexMeaning.MisreadExample` | lib/compress.c:788-799 | with 512-byte blocks, every compact image of a file with an extent of 3000 clusters misreads the index of cluster 1 |
| `MapBlocks.FindHead` | lib/zmap.c:562-632 | the lookback ends at the head of the extent that holds the offset and tells whether the extent ends in the same cluster |
| `MapBlocks.DoMapBlocks` | lib/zmap.c:562-680 | mapping any offset gives the start, address, size on disk, algorithm and length of its extent, with the exact conditions under which length and flag are off |
| `MapBlocks.RawFits` | lib/zmap.c:653-658 | the corruption check on uncompressed extents never refuses a truthful index |
| `MapBlocks.LongExtentIsMisreported` | lib/zmap.c:520-560 | FIEMAP reports a wrong length for an extent of 65537 clusters on every image with full indexes that holds it |
| `MapBlocks.PartialFlagLeaks` | lib/zmap.c:631-632 | an extent that is no partial reference is reported as one because the next extent's head was loaded on the way |
| `IndexRoundTrip.StoreFull` | lib/compress.c:237-249 | what the writer leaves behind any prefix is an image that the reader loads truthfully |
| `IndexRoundTrip.StoreCompact` | lib/compress.c:830-935 | writing and converting gives an image that holds the packs |
| `IndexRoundTrip.WriteAndMap` | lib/zmap.c:682-713 | extents written, converted if the inode is compact, and mapped, come back for every offset, with either kind of index |
| `IndexRoundTrip.MisreadImage` | lib/compress.c:788-799 | conversion itself makes the misread image, for every prefix and position |
| `ReadData.WriteUncompressed` | lib/compress.c:383-417 | a raw block is its data rotated by the cluster offset and padded with zeroes |
| `ReadData.Decompress` | lib/decompress.c:507-562 | shifted and interlaced blocks give the requested bytes and nothing else in the buffer changes |
| `ReadData.DecodedIsFile` | lib/data.c:234-290 | decoding the extent that mapping reports yields the file's bytes |
| `ReadData.Read` | lib/data.c:292-359 | the backward read loop fills every byte of the buffer with the file's data, zero beyond its end |
| `Bits.BitWriter.WriteBits` | lib/kite_deflate.c:141-160 | the written bit string grows by exactly the given bits, across 32-bit spills |
| `Bits.BitWriter.Flush` | lib/kite_deflate.c:162-181 | fewer than eight zero bits are added up to a byte boundary |
| `Bits.ReversedCode` | lib/kite_deflate.c:203-212 | the swap network reverses a code of any length up to 16, so it appears in the stream most significant bit first |
| `PrefixCode.PrefixFree` | lib/kite_deflate.c:185-201 | no canonical code is the beginning of another |
| `PrefixCode.ReadsWritten` | lib/kite_deflate.c:185-201 | a decoder reads back the symbol whose code stands in the stream |
| `PrefixCode.GenHuffCodes` | lib/kite_deflate.c:185-201 | the codes are the canonical ones, and the debug assertion holds exactly for complete sets of lengths |
| `HeapSort.HeapSort` | lib/kite_deflate.c:456-510 | the array is sorted and a permutation of what it was |
| `HuffmanTree.Merge` | lib/kite_deflate.c:547-562 | the in-place merge builds a tree over all leaves in which every node has two children and weighs as much as they, and the nodes together weigh what merging the two lightest again and again adds up to; a tree of depth d takes a total frequency of at least Fibonacci number d + 3 |
| `HuffmanTree.CountLengths` | lib/kite_deflate.c:564-580 | the counts of code lengths add up to a complete code within the limit, as deep as the tree or the limit allows; below the limit they are the numbers of leaves at each depth |
| `HuffmanOptimal.AtLeastMerged` | lib/kite_deflate.c:547-562 | no lengths that satisfy the Kraft inequality cost less than merging the two lightest again and again adds up to |
| `HuffmanCost.TreeCost` | lib/kite_deflate.c:547-580 | the leaves of the merged tree cost exactly that much, lie the deeper the lighter they are, and are counted by depth |
| `Huffman.Generate` | lib/kite_deflate.c:515-595 | complete canonical codes for all used symbols within the limit, no longer for a symbol that is more frequent; no prefix code takes fewer bits unless the total frequency allows the limit to be reached; lengths bounded by the total frequency |
| `Huffman.LimitIsReached` | lib/kite_deflate.c:515-595 | for every limit up to 16 there are frequencies whose longest code has that many bits |
| `RunLengths.RunsRoundTrip` | lib/kite_deflate.c:259-356 | expanding the emitted runs gives the code lengths back, and every count fits its field |
| `RunLengths.ScanLens` | lib/kite_deflate.c:259-300 | the histogram grows by exactly the symbols that sending will emit |
| `RunLengths.SendTree` | lib/kite_deflate.c:302-356 | the bits of the tokens are written, and nothing else |
| `RunLengths.LengthsRecovered` | lib/kite_deflate.c:302-356 | a decoder reads both trees back if and only if no length is over 15 |
| `Slots.InitLenSlots` | lib/kite_deflate.c:224-257 | the filled table gives the length slot of every length, the overwritten last entry included |
| `Slots.InitFastPos` | lib/kite_deflate.c:224-257 | the filled table gives the slot of every position it covers |
| `Slots.DistSlotFound` | lib/kite_deflate.c:381-387 | the branch-free lookup, with its 32-bit wrap-around, finds the distance slot of every position |
| `CrcTable.CrcInjective` | lib/kite_deflate.c:700-739 | no two bytes have the same table entry |
| `ByteCompare.MemCmp2` | lib/dedupe.c:12-62 | the word-wise comparison returns the length of the common prefix, for every alignment |
| `MatchFinder.ThirdByte` | lib/kite_deflate.c:741-796 | equal hashes and two equal bytes imply a third one, as a debug assertion says |
| `MatchFinder.Finder.GetMatches` | lib/kite_deflate.c:741-796 | all matches reported lie in the window, agree with the input byte by byte and grow in length; and no position of the window that fewer than `depth` others with the same hash come before agrees on more bytes than the last of them, or than `start` if there is none |
| `MatchFinder.WholeWindow` | lib/kite_deflate.c:760-792 | with as many steps as the window has places, nothing in it is longer |
| `MatchFinder.NearestIsFirst` | lib/kite_deflate.c:760-792 | one step is enough for the nearest position with the same hash |
| `MatchFinder.Finder.Reset` | lib/kite_deflate.c:859-888 | after any earlier run the finder starts anew, with no entry of an earlier buffer in its window |
| `DynamicBlock.ReadsTrees` | lib/kite_deflate.c:363-379 | the header of a dynamic block is read back if and only if no code length is over 15 |
| `DynamicBlock.ReadsDynamicBlock` | lib/kite_deflate.c:363-436 | a dynamic block decodes to the data its symbols describe |
| `DynamicBlock.ReadsFixedBlock` | lib/kite_deflate.c:389-436 | a fixed block decodes to the data its symbols describe |
| `BlockCost.TokensSize` | lib/kite_deflate.c:438-454 | the price of the trees is their size, plus two bits for each code length of 16 |
| `BlockTables.BuildTable` | lib/kite_deflate.c:597-651 | the codes cover all symbols of the block, are Huffman codes for their frequencies and optimal for fewer than 4180 symbols, can be sent with nothing needless, and the price is that of the block |
| `BlockTables.CostIsExact` | lib/kite_deflate.c:597-651 | with codes of at most 15 bits the accounted cost is the exact size of the block |
| `BlockWriter.SendTrees` | lib/kite_deflate.c:363-379 | the header and the trees of a dynamic block are written bit for bit |
| `StoredBlock.ReadsStoredBlock` | lib/kite_deflate.c:985-1004 | a stored block reads as its data at every place that is as far into a byte as where it was made |
| `StoredBlock.WriteStored` | lib/kite_deflate.c:985-1004 | header, padding, both counts and the data are written, with the extra bit at the start of the output |
| `KiteDeflate.Deflater.CountCode` | lib/kite_deflate.c:890-945 | a symbol is counted only if the block stays within the budget, and refused only if it would not: with fixed codes, or with the present dynamic ones, or, if these have no code for it, with codes built anew; a refusal leaves frequencies and table as before |
| `KiteDeflate.Deflater.Tally` | lib/kite_deflate.c:947-983 | a symbol is recorded, or the block is closed without it in a state that fits; fixed codes are left only if they no longer fit, and the block is closed only if dynamic codes do not fit either |
| `KiteDeflate.Deflater.EndBlock` | lib/kite_deflate.c:1006-1030 | fixed codes, codes built for the block and the reckoned stored block: none is cheaper than the choice; the block becomes the last exactly if no room is left |
| `KiteDeflate.Deflater.FindSymbol` | lib/kite_deflate.c:1065-1093 | without lazy matching, the symbol is the longest match within the search depth, and a literal only if there is none or it is three bytes from more than 4096 away |
| `KiteDeflate.Deflater.NextLazy` | lib/kite_deflate.c:1111-1162 | with lazy matching, the held match is taken exactly if no longer one is found one byte further, and a literal is coded where nothing was found or what was found is beaten |
| `KiteDeflate.Deflater.CommitBlock` | lib/kite_deflate.c:1044-1057 | the bits of the chosen block, holding the data between two positions, are appended |
| `KiteDeflate.Deflater.DeflateFast` | lib/kite_deflate.c:1059-1104 | a block of greedy matches holds the data consumed; it is the last exactly at the end of the input or where nine bits a byte do not reach further, and otherwise holds 16384 symbols |
| `KiteDeflate.Deflater.DeflateSlow` | lib/kite_deflate.c:1106-1177 | the same with lazy matching, except for the last byte when it is dropped |
| `KiteDeflate.Deflater.Run` | lib/kite_deflate.c:1234-1252 | the blocks of a whole run, greedy or lazy, what a decoder makes of them, where the run ends and why, and how long the output is |
| `KiteDeflate.DestSize` | lib/kite_deflate.c:1234-1252 | the output decodes to the consumed input, keeps within the limit exactly if the last block does, ends before the end of the input only where nine bits a byte do not reach further, never takes more than nine bits a byte and 42 a block, codes every symbol as the level demands, and leaves finder and tables fit for the next call |
| `KiteDeflate.WholeInput` | lib/kite_deflate.c:1234-1252 | an input of fewer than 16384 bytes for which nine bits a byte fit is consumed whole, within the limit |
| `KiteDeflate.AmpleInput` | lib/kite_deflate.c:1234-1252 | an input of any length is consumed whole, within the limit, if nine bits a byte fit and 42 more for each started 16384 bytes |
| `KiteDeflate.Deflate` | lib/kite_deflate.c:1193-1252 | at all nine levels: round trip for every input below 2583 bytes with room for nine bits a byte; in general unless a code has 16 bits; and the lost third byte at levels 4 to 9 |
| `KiteDeflate.LostByte` | lib/kite_deflate.c:1172-1176 | with lazy matching and a limit of four bytes, every input of three bytes is reported as consumed and decodes to its first two |
| `KiteDeflate.ReckonedExactly` | lib/kite_deflate.c:1018-1025 | the cost reckoned for a stored block is its size if and only if at most five bits are in the bit buffer |
| `KiteDeflate.ReckonedTooLittle` | lib/kite_deflate.c:1018-1025 | numbers for which a stored block passes the check and not the limit |
| `BufferBlocks.GrantsApart` | lib/cache.c:68-115 | no two grants ever handed out share a byte on disk, be their blocks alive or freed |
| `BufferBlocks.GrantsPlaced` | lib/cache.c:68-115 | every grant is aligned on disk and lies below the tail |
| `BufferBlocks.DropKeepsOwners` | lib/cache.c:427-451 | dropping a head leaves every other grant on disk where it was, unless its block is rolled back |
| `BufferBlocks.InlineTail` | lib/inode.c:780-819 | after a request that reserved inline space, attaching the inline data cannot fail |
| `BufferBlocks.InlineReads` | lib/data.c:34-50 | the address read for an offset in the tail is that of its byte, and the check against crossing a block never fires for a tail placed in one block |
| `BufferManager.BucketHolds` | lib/cache.c:128-190 | the first block of a bucket is mapped, has the bucket's offset and type, and has only the last mapped block after it if its successor is not mapped |
| `BufferManager.BucketFits` | lib/cache.c:128-190 | a request that a bucket is searched for fits behind the bucket's offset |
| `BufferManager.BufMgr.Attach` | lib/cache.c:68-115 | attaching succeeds exactly when the aligned request fits, and then the whole new state is the extended block |
| `BufferManager.BufMgr.FindForAttach` | lib/cache.c:128-234 | a block is added exactly if neither pass has a choice; otherwise the choice whose last disk block will be fullest is taken; every block with room for the request is a choice, except mapped ones whose bucket begins with the last mapped block |
| `BufferManager.BufMgr.Balloc` | lib/cache.c:236-295 | a request fails exactly if it exceeds a block; otherwise its space is granted, reserved space included, in the block that the search prefers, and no block is added while one has room |
| `BufferManager.BufMgr.Balloon` | lib/cache.c:117-126 | only the last head of a block grows, exactly when it fits |
| `BufferManager.BufMgr.Battach` | lib/cache.c:297-324 | a new head goes behind the last one, exactly when it fits |
| `BufferManager.BufMgr.MapBh` | lib/cache.c:326-363 | mapping proceeds in list order, gives consecutive addresses, and changes no address already given |
| `BufferManager.BufMgr.Bdrop` | lib/cache.c:427-451 | the state after dropping a head, all other grants in place; the tail comes back exactly with the last head of the topmost block and on request, and then nothing is placed above it |
| `BufferManager.MapThenDrop` | lib/cache.c:427-451 | a block that is mapped and then dropped with its only head leaves no trace on disk |
| `BufferManager.TailFollows` | lib/cache.c:68-115 | the tail moves by as many disk blocks as the topmost block grows, and for no other block |
| `BufferManager.BufMgr.PrepareInode` | lib/inode.c:748-825 | an inode is aligned to 32 bytes, and its tail is inlined exactly if it fits, behind the inode and within one disk block |
| `ChunkMap.MergeKeepsMap` | lib/blobchunk.c:205-235 | merging chunks keeps the address of every block if intervals begin only at multiples of the new size |
| `ChunkFile.MergeChunks` | lib/blobchunk.c:205-235 | the in-place merge leaves every n-th chunk and the count that goes with the new size |
| `ChunkFile.MergeShrinks` | lib/blobchunk.c:205-235 | merging makes the indexes fewer, as a debug assertion says |
| `ChunkFile.WriteChunkedFile` | lib/blobchunk.c:260-379 | whatever chunk size is chosen, every block is found as if nothing had been merged, every index is a chunk of the file, and the chunk size is the largest up to 2^31 that all intervals allow |
| `ChunkFile.WriteIndexes` | lib/blobchunk.c:133-203 | indexes and block maps hold every chunk, with holes marked and the base added to addresses on the first device |
| `ChunkFile.MapBlocks` | lib/data.c:65-133 | the reader finds for every byte the device and address of its chunk, or a hole |
| `ChunkStore.Blob.GetChunk` | lib/blobchunk.c:56-117 | chunk data is in the blob at the address returned, padded to blocks; data with a known digest is not stored again |
| `ChunkStore.Collect` | lib/blobchunk.c:300-372 | the chunks of a file hold its bytes, and holes stand for zeroes only, if equal digests mean equal data |
| `ChunkStore.StoreAndMap` | lib/data.c:65-133 | with the blob placed in the image or on its own device, every byte of the file is at the address the reader maps its offset to, and unmapped offsets are zero |
| `DirBlock.FillDirblock` | lib/inode.c:279-301 | a block holds its dirents, name offsets and names, zero-padded |
| `DirWrite.PackFlat` | lib/inode.c:239-277 | filling blocks greedily loses, repeats and reorders no entry |
| `DirWrite.PackGreedy` | lib/inode.c:239-277 | a block is closed only when the next entry does not fit |
| `DirWrite.PrepareDirFile` | lib/inode.c:239-277 | the computed size is that of the blocks that will be written |
| `DirWrite.WriteDirFile` | lib/inode.c:423-482 | all blocks but a short last one are written whole; the last becomes the tail |
| `DirWrite.WrittenSize` | lib/inode.c:423-482 | the size computed beforehand is what is written, block by block and in the tail |
| `DirRead.OrderCheck` | lib/dir.c:60-75 | the order check of fsck accepts names in the order of strcmp and no others |
| `DirRead.DirContext.Traverse` | lib/dir.c:20-139 | a block with given entries passes exactly if, in fsck mode, names are in order, special entries right and not repeated, types known and names free of slashes; then its entries are visited once each and in order; whatever a block holds, what passes has none of these faults |
| `DirRead.DirContext.IterateDir` | lib/dir.c:141-188 | the same for a whole directory, whatever its number of blocks |
| `DirRead.FsckFinds` | lib/dir.c:20-139 | what passes fsck is in the order of strcmp within each block and has no slash in a name |
| `DirRead.GoodDirPasses` | lib/dir.c:141-188 | a directory in strict order throughout, as mkfs builds it, passes |
| `DirRead.MisorderedPasses` | lib/dir.c:20-139 | a directory whose second block should come before its first passes |
| `DirRead.FindTarget` | lib/namei.c:155-190 | the search in a block finds the entry with the name and no other |
| `DirRead.Namei` | lib/namei.c:198-242 | every name of a written directory is found with its node number, and no other name is found |
| `DirRead.WrittenIsGood` | lib/inode.c:423-482 | what the writer wrote is a directory that the readers accept |
| `XattrBody.Prepare` | lib/xattr.c:666-706 | the size reserved covers header, shared ids and aligned entries, and is refused exactly if there is no room |
| `XattrBody.Export` | lib/xattr.c:963-1036 | the body holds every attribute within the size that was reserved; a bit of the name filter in its first word is set exactly if no attribute hashes to it |
| `XattrBody.NoneLost` | lib/xattr.c:679-691 | every attribute is inline, or shared and among the ids stored in the inode, also beyond 255 shared ones |
| `XattrRead.InitXattrs` | lib/xattr.c:1048-1122 | the shared ids come back as they were stored, across blocks |
| `XattrRead.XattrIter.Foreach` | lib/xattr.c:1189-1289 | one entry is matched, delivered or skipped, whatever block boundaries it crosses, and the position moves to the next |
| `XattrRead.InlineGet` | lib/xattr.c:1373-1390 | a stored attribute is found with its value, and every other name is not |
| `JobRing.Dfops.Go` | lib/inode.c:1384-1405 | the critical section stores the job and advances the ring |
| `JobRing.Dfops.PopItem` | lib/inode.c:1346-1364 | the critical section hands out the oldest slot |
| `JobRing.MaskIsModulo` | lib/inode.c:1384-1405 | masking with the number of entries less one is a remainder |
| `JobRing.RingSafe` | lib/inode.c:1346-1405 | in every reachable state the jobs run are the jobs queued, in order, and the slot in use outside the lock is not overwritten |
| `JobRing.FlushWaitsForAll` | lib/inode.c:1336-1344 | without unasked wakeups a flush returns only when all queued jobs have run |
| `JobRing.SpuriousFlush` | lib/inode.c:1336-1344 | a run in which an unasked wakeup lets the flush return with a job still queued |
| `JobRing.WorkerWakesProducer` | lib/inode.c:1346-1405 | a producer asleep on a full ring is woken after finitely many steps of a worker that has not stopped |
| `JobRing.StoppedStrands` | lib/inode.c:1366-1382 | once the worker has stopped on an error, only an unasked wakeup can reach such a producer |
| `JobRing.FailureStrands` | lib/inode.c:1366-1382 | a run in which a failed job leaves a flush asleep that only an unasked wakeup can end |
| `JobRing.StopsExactly` | lib/inode.c:1366-1382 | the worker stops exactly if a job fails or the item that is no job comes up |
| `JobRing.RunsAll` | lib/inode.c:1346-1382 | if no job fails, the worker runs all that is queued, in order, and then sleeps |
| `JobRing.WorkerRests` | lib/inode.c:1346-1382 | a worker that has not stopped and can do nothing has run all that was queued |
| `WorkQueue.QueueSafe` | lib/workqueue.c:20-123 | the queue is bounded, jobs are taken once each and in order, and no wakeup is lost |
| `WorkQueue.DestroyWaitsForAll` | lib/workqueue.c:125-145 | when all workers have returned, every queued job has run once |
| `WorkQueue.NeverStuck` | lib/workqueue.c:20-63 | while there is something to do, some worker can take a step |
| `WorkQueue.DestroyEnds` | lib/workqueue.c:125-145 | every step after the start of destruction brings the workers closer to returning |
| `WorkQueue.JobList.Append` | lib/workqueue.c:102-123 | appending to the linked list is the queueing step of the state machine |
| `WorkQueue.JobList.Take` | lib/workqueue.c:37-58 | unlinking its head is the taking step |
| `TreeDump.Dumper.Dump` | lib/inode.c:1708-1784 | the walk ends; no job is queued twice; a directory's blocks come after the inodes of itself and its parent and, if nothing failed, of its children; every reachable inode is queued if and only if none of them fails; only a failure of the root is reported; a directory ends with two links and one for each dentry that is a directory, or with one if that does not fit |
| `TreeDump.WalkIsComplete` | lib/inode.c:1708-1784 | if nothing fails, the jobs are one per reachable inode and one more per reachable directory, and the link counts are those of the dentries walked |
| `TreeDump.CountedIsRight` | lib/inode.c:1462-1509 | then a directory has two links and one for each dentry that is a directory, or one in the 32-byte form if that passes 65535 |
| `TreeDump.LostFailure` | lib/inode.c:1758-1780 | a file that fails is left out of the image though the walk reports success and its directory is written |
| `TreeDump.StoredLinksExactly` | lib/inode.c:591-596 | a file's count is the number of dentries naming it, and the stored one is right if and only if it fits the inode's form |
| `TreeDump.LinksWrap` | lib/inode.c:591-596 | a file under 65536 names is stored with no links |
| `RollingHash.HashInit` | lib/rolling_hash.h:13-33 | the hash of a window is its polynomial, forwards or backwards |
| `RollingHash.AdvanceIs` | lib/rolling_hash.h:35-49 | the corrections for negative remainders make the update the one in modular arithmetic |
| `RollingHash.Slide` | lib/rolling_hash.h:35-49 | sliding the window by one byte gives the hash of the bytes it then covers |
| `RollingHash.CalcRm` | lib/rolling_hash.h:51-60 | the removal factor is the power of the radix that belongs to the window size |
| `Dedupe.MatchIsCopy` | lib/dedupe.c:83-150 | a match is a copy of the beginning of what was inserted, if equal digests mean equal windows |
| `Dedupe.DedupeTable.MatchBackward` | lib/dedupe.c:83-150 | the first window from the end that an item matches is found with its full length, and none that would do is passed over |
| `Dedupe.DedupeTable.Insert` | lib/dedupe.c:152-190 | an extent is added unless it is short or its window is listed |
| `Dedupe.DedupeTable.Commit` | lib/dedupe.c:192-206 | what was inserted since the last commit is kept or dropped as a whole |

## Findings

Properties that do not hold, with the input that shows it and the exact condition that is proved.

| what | where | condition | members |
|---|---|---|---|
| the look-ahead distance in the last entry of a pack is cut off at a bit that the reader takes for the block count flag | lib/compress.c:788-799, lib/zmap.c:209-338 | exactly the last entries of packs whose distance has bit 11 set; none if no extent spans more than 2048 clusters | `IndexMeaning.CompactFaithfulExactly`, `MisreadExample`, `IndexRoundTrip.MisreadImage` |
| FIEMAP lengths from full indexes, whose distances have 16 bits | lib/zmap.c:520-560 | right if and only if the extent spans at most 65536 clusters; mkfs writes no longer ones | `MapBlocks.DoMapBlocks`, `LongExtentIsMisreported` |
| the partial-reference flag of the next extent is reported too | lib/zmap.c:631-632 | exactly when the extent ends in the cluster of the offset and the next one is a partial reference | `MapBlocks.DoMapBlocks`, `PartialFlagLeaks` |
| codes of 16 bits, which RFC 1951 does not have | lib/kite_deflate.c:597-651 | the trees are read back if and only if no length is over 15; lengths of 16 take a total frequency of 2584; they are reached | `RunLengths.LengthsRecovered`, `DynamicBlock.ReadsTrees`, `Huffman.LimitIsReached` |
| the price of a code length of 16 is two bits too high | lib/kite_deflate.c:449-454 | exactly two bits for each | `BlockCost.TokensSize` |
| the output passes its limit | lib/kite_deflate.c:1234-1252 | exactly when the last block begins with fewer than ten bits of room, or is stored and larger than the room; always for a limit of one byte | `KiteDeflate.DestSize` |
| the cost of a stored block leaves out bytes still in the bit buffer | lib/kite_deflate.c:1018-1025 | right if and only if at most five bits are in the buffer | `KiteDeflate.ReckonedExactly`, `ReckonedTooLittle` |
| lazy matching reports the last byte as consumed though it did not fit | lib/kite_deflate.c:1172-1176 | exactly when the final symbol is refused; never if nine bits a byte fit; for every input of three bytes with a limit of four | `KiteDeflate.DestSize`, `WholeInput`, `LostByte` |
| a flush of the job ring waits with `if` | lib/inode.c:1336-1344 | only an unasked wakeup lets it return early | `JobRing.FlushWaitsForAll`, `SpuriousFlush` |
| a worker that stops on an error strands a producer | lib/inode.c:1366-1382 | the worker stops exactly on a failed job; then nothing but an unasked wakeup reaches the producer | `JobRing.StopsExactly`, `StoppedStrands`, `FailureStrands` |
| fsck does not compare names in different blocks of a directory | lib/dir.c:20-139 | a directory passes exactly if every block by itself is in order, special entries and names being right | `DirRead.DirContext.IterateDir`, `MisorderedPasses` |
| a child that fails while a tree is dumped goes unreported | lib/inode.c:1758-1780 | the return value depends on the root alone; all reachable inodes are placed if and only if none fails | `TreeDump.Dumper.Dump`, `LostFailure` |
| 16-bit link counts in 32-byte inodes, a form that is chosen before links are counted | lib/inode.c:948, lib/inode.c:591-596 | right if and only if the form is extended or there are at most 65535 names | `TreeDump.StoredLinksExactly`, `LinksWrap` |

## Left out

- MapBlocks.DoMapBlocks: does not model the FINDTAIL flag nor the tail-inline and fragment branches, because extents here are those stored in blocks of their own; the second head type and clusters larger than a block are left out as well.
- Extents.SavingExtentOk: tail-inline and fragment extents, which may end within their first cluster, are not among the extents whose indexes are proved faithful; the writer's branches for fragments are modelled.
- ReadData.Read: a mapped piece that does not cover the byte asked for returns an error, where the source has a debug assertion; 64-bit wrap-around on malformed images is not modelled.
- KiteDeflate.Deflater.Run: does not follow a run beyond a stored block that is not the last and has passed the limit (`wrapped`), since the 32-bit difference that is left wraps around there; output buffers have four bytes more than the limit, so that what passes it is visible.
- KiteDeflate.Deflater.Tally: the symbol buffer grows as needed; with lazy matching one symbol more than `max_symbols` can be recorded at the end of the input.
- MatchFinder.Finder.Reset: memory of the finder that the source leaves uninitialised counts as zero.
- CrcTable.CrcInjective: the 256 literals of the table are not transcribed; the table is computed from its polynomial.
- BufferManager.BufMgr.FindForAttach: blocks are named by positions instead of pointers, and the search is over the same buckets in the same order; a mapped block whose bucket begins with the last mapped one is passed over, as it is in the source.
- Dedupe.MatchIsCopy: SHA-256 and xxHash are functions about which only what is said is assumed.
- XattrRead.InlineGet: lookup in the shared area and the handlers that list names are left out.
- XattrBody.Export: xxHash is any function from a short prefix and a name to 32 bits.
- FragmentOffset.FillInode: the search for the tail extent and what depends on inline tails and on the large cluster flags are left out; `tail` is the address that the search finds.
- ChunkStore.Collect: reading from the file descriptor and the search for holes are given as data; the digest is any function, and what is said of equal digests is assumed only where it is said.
- DirRead.Namei: the walk over the components of a path is left out; reads beyond the end of a block give zeroes.
- DirWrite.PrepareDirFile: entries come sorted (qsort is not modelled), and names are at most 254 bytes long, to which the source truncates them.
- TreeDump.Dumper.Dump: builds from a tree in memory (rebuild, incremental), where link counts come from the tar reader, and the build without threads, which runs each job at once, are left out.
- WorkQueue.QueueSafe: queueing after destruction has begun is left out.
- Huffman.Generate: where the total frequency reaches Fibonacci number limit + 3, the length limit may be in the way, and the lengths are not claimed to be the best within it.
- Bounds that follow from 32-bit arithmetic are preconditions.
- Decompressors other than the layouts of raw blocks: a codec is a function from input to output.
- Failures of memory allocation, of reads and writes, and of the pthread calls; writing buffers back (`erofs_bflush`).
- Tar input, overlays, device tables, the LZ4 and LZMA compressors, superblock checks, and the command line tools.
