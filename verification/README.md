# Models of the Wii homebrew libraries

This project models the parts of the repository where state is hardest to keep in order, and proves what their
callers rely on. Each component has its own modules; what its code updates in place are fields of a class here,
what it does in loops is done in loops, and 32-bit arithmetic is written out.

**The allocator** of libbroadway (`Words`, `BinIndex`, `BinMap`, `Rings`, `HeadWords`, `Trie`, `TrieLinks`,
`TrieKey`, `TreeBins`, `BestFit`, `Tiling`, `Bins`, `Heap`, `Fit`, `Requests`, `Policy`, `Merging`, `Memory`,
`Dlmalloc`, `Resizing`, `Clients`), in the configuration that is built: no mmap, pages of 8 bytes, 32-bit sizes, no
footers, no locks, one contiguous segment. Class `MallocState` has the head, foot and link words of memory, the two
bin maps, `dv` and `top`. Its ghost fields say which chunks there are and what each bin holds, and `Valid` is what
the source checks at run time: the chunks tile the segment, free ones are coalesced and tagged at both ends, the
bins hold exactly the free chunks other than `dv`, small bins are rings, large ones digital tries of rings, and a
map bit is set exactly for a bin that is not empty. A request is answered with the chunk that the policy prescribes,
and refused exactly when nothing fits and the system is not asked or has nothing left; the state afterwards, `dv`
included, is a function of the state before and of the chunk, and the state after a free is determined by the one
before it. No call writes a word of a block that is in use before and after it, whatever field the word would be
read as; so a client reads back what it has stored (`Clients`), until it frees the block, and across resizing as far
as there is room.

**The message protocol** between the PowerPC and the ARM (`MessageRings`, `IpcState`, `MessageMachine`, `Exchanges`,
`Ipc`). Class `Protocol` has the two shared rings, the doorbell and the state of three threads: the PPC, the ARM's
interrupt handler and its main loop. A step is one write to shared memory, or one word of a message. Under every
interleaving the rings do what a machine with plain logs of messages does. What clients that only exchange rely on
is proved about that machine (`Exchanges`), for every schedule that keeps to the discipline.

**NAND error correction** (`XorWords`, `NandEcc`): `nand_correct` over blocks of 4096 bits, with the generator in
hardware specified by its line-parity equation.

**The sector cache and the disk layer over it** (`SectorCache`, `DiskIo`), with a card that may fail any command.

**SHA-1 streaming** (`Sha1`), around a compression function that is left open.

**FatFs** (`FatEntries`, `Sectors`, `ClusterChains`, `FatVolume`, `FileSectors`, `FatFile`, `FatClient`, `LongNames`,
`ShortNames`, `Layouts`, `Format`, `NewVolume`), for sectors of 512 bytes, read-write, long names on. Class
`Volume` has the sector window over the disk; its ghost fields are the bytes of the table and the entry of every
cluster. Class `File` has the position, the current cluster and the sector buffer; its ghost fields are its chain
and what its sectors hold. While a file does not count as changed, its directory entry says where it begins and how
large it is. A program sees an array of bytes with a position (`FatClient`), with room for as much
as the file's own clusters and the free ones hold together.

Some facts are wrapped in a predicate with a trigger of its own, and looked into by a lemma such as
`Heap.HeapOpen` or `File.Parts`, so that proofs that only pass them on stay short.

## What the proofs found

- `SHA1Update` adds 31 blocks to its index in 32 bits. With j bytes buffered it decides rightly exactly if
  j + len <= 2^32 - 1985 (`Sha1.ExactlyUpToLongest`); beyond that the first loop takes a burst that lies behind
  the data, for example for a call of 2^32 - 1 bytes on an empty buffer.
- A request beyond `MAX_REQUEST` is made to fail, but only after the system has been asked: on a fresh heap it takes
  48 bytes of the region, and with a top chunk of more than 48 bytes and less than about 2 GiB it also ends the
  contiguous mode for good (`Requests.OversizeAsks`).
- Invalidating sectors computes the end of the range in 32 bits: with a range that ends at the last sector of the
  32-bit space nothing is invalidated, and the old content stays in the cache (`SectorCache.InvalidatesAll`,
  `DiskIo.StaleLastSector`).
- Long names of 254 and 255 characters can be created, but are not read back, and one of 255 is not found either
  (`LongNames.ReadBack`, `LongNames.FoundByName`).
- `init_bins` has no effect on what is served: an empty small bin is never read, and entering the first chunk sets
  the header anew. As long as there are no chunks, the bins are in order whatever the links are (`Bins.AnyLinks`).
- What `f_getfree` counts on FAT16 and FAT32 are the zero entries of the whole table; that is the number of free
  clusters exactly if entries 0 and 1 are not zero (`ClusterChains.RawCountRight`).

## Model

| member | source | states |
|---|---|---|
| `BinIndex.ComputeTreeIndex` | libbroadway/malloc.c:2244-2260 | the branch-free code computes the bin of a size as defined by floor(log2) and the bit below |
| `BinIndex.TreeBinRange` | libbroadway/malloc.c:2273-2275 | a size lies between the least sizes of its bin and of the next; in bin 31 only the lower bound holds |
| `BinMap.FirstMarked` | libbroadway/malloc.c:2307-2322 | least_bit and compute_bit2idx find the lowest marked bin |
| `BinMap.LeftOf` | libbroadway/malloc.c:2325-2325 | left_bits keeps exactly the marks above a bin |
| `BinMap.RemainderlessFit` | libbroadway/malloc.c:4082-4086 | the test of two map bits finds whether the bin of a size or the next is marked, and which of the two to use |
| `BinMap.NextMarked` | libbroadway/malloc.c:4101-4105 | the first marked bin above an index, or that there is none |
| `HeadWords.WordRoundTrip` | libbroadway/malloc.c:1690-1723 | size and status bits share a head word without loss, and changing PINUSE changes it alone |
| `Trie.InsertTrie` | libbroadway/malloc.c:2965-3014 | insertion keeps every size in the subtrie of its bits and in the bin's range |
| `Trie.InsertItems` | libbroadway/malloc.c:2965-3014 | insertion adds exactly the one chunk under its size |
| `Trie.RemoveTrie` | libbroadway/malloc.c:3033-3102 | removal, with the rightmost leaf taking the place of an inner node, keeps the trie a trie |
| `Trie.RemoveItems` | libbroadway/malloc.c:3033-3102 | removal takes out exactly the one chunk, and every other chunk stays under its size |
| `Dlmalloc.LinkLarge` | libbroadway/malloc.c:2965-3014 | insert_large_chunk on the links, the map and the root: afterwards they represent the trie with the chunk inserted, and no word outside that tree has changed |
| `Dlmalloc.UnlinkLarge` | libbroadway/malloc.c:3033-3102 | unlink_large_chunk on them: afterwards they represent the trie with the chunk removed, the root is null exactly if it was the last, and then the map bit is cleared |
| `Dlmalloc.MallocState.InsertSmallChunk` | libbroadway/malloc.c:2894-2910 | a free chunk that is in no bin enters its small bin in front of the others, also where the header's links were stale; all bins stay in order |
| `Dlmalloc.MallocState.UnlinkSmallChunk` | libbroadway/malloc.c:2913-2930 | a chunk leaves its small bin wherever it is in the ring, and the bin is marked empty exactly if it was the last |
| `Dlmalloc.MallocState.UnlinkFirstSmallChunk` | libbroadway/malloc.c:2933-2947 | the chunk that leaves a marked small bin is the one that was put there last, and has exactly the bin's size |
| `Dlmalloc.MallocState.InsertLargeChunk` | libbroadway/malloc.c:2965-3014 | a free chunk that is in no bin enters the tree of its size; all bins stay in order |
| `Dlmalloc.MallocState.UnlinkLargeChunk` | libbroadway/malloc.c:3033-3102 | a chunk leaves its tree; all bins stay in order |
| `BestFit.SearchBin` | libbroadway/malloc.c:3655-3677 | the walk down one tree, keeping the deepest right subtree not taken: what is not better than the best found is in that subtree only |
| `BestFit.LeastOf` | libbroadway/malloc.c:3689-3696 | the walk down the leftmost path finds the least size of a subtree, compared in wrap-around arithmetic |
| `Fit.FindLarge` | libbroadway/malloc.c:3648-3696 | all of the search, starting from -nb: the remainder is the least over all sizes in all tries, and belongs to the chunk found |
| `Fit.BestChunk` | libbroadway/malloc.c:3648-3696 | the chunk found is the smallest binned one that fits, or none fits |
| `Fit.SmallestChunk` | libbroadway/malloc.c:3721-3737 | tmalloc_small finds the smallest chunk of all trees |
| `Dlmalloc.MallocState.TmallocLarge` | libbroadway/malloc.c:3648-3718 | a block is given out from the best fitting chunk of all, dv included, and nothing is done exactly if dv is at least as good or nothing fits; dv stays |
| `Dlmalloc.MallocState.TmallocSmall` | libbroadway/malloc.c:3721-3757 | a block is given out from the smallest chunk of the trees; if it has to be split, dv is exactly the rest behind the block, otherwise dv stays |
| `Dlmalloc.MallocState.ReplaceDv` | libbroadway/malloc.c:2951-2960 | the remainder of a split becomes dv, and the old one is binned |
| `Dlmalloc.MallocState.MallocSmall` | libbroadway/malloc.c:4077-4128 | small requests: a fit without remainder first, which leaves dv alone; otherwise, if dv is too small, the smallest chunk there is, whose rest becomes dv; 0 exactly tells that dv or top must serve |
| `Dlmalloc.MallocState.TakeDv` | libbroadway/malloc.c:4140-4158 | dv serves: whole, and there is none afterwards, if the rest would be no chunk, otherwise its lower part, and dv is the rest |
| `Dlmalloc.MallocState.Sbrk` | libbroadway/malloc.c:453-466 | the break moves exactly if the region has that much left |
| `Dlmalloc.MallocState.SysAlloc` | libbroadway/malloc.c:3351-3538 | the break moves by exactly the amount computed, and the contiguous mode ends exactly if that is negative when signed; top grows by what is granted and serves, dv stays; it fails exactly if the amount is negative or the region is used up |
| `Dlmalloc.MallocState.AddMemory` | libbroadway/malloc.c:3473-3504 | new memory becomes the first segment, with every small bin a ring of its own, or is appended to it, and the links stay; the whole invariant holds afterwards |
| `Dlmalloc.MallocState.Dlmalloc` | libbroadway/malloc.c:4050-4180 | for every request the answer is null exactly if the size is beyond MAX_REQUEST or nothing fits and the system is not asked or exhausted; otherwise an 8-aligned block in a chunk of at least nb and less than nb + 16 bytes, chosen by the policy (best fit for large requests, dv on ties, top only when none fits); the chunks, dv, top, break and mode afterwards are exactly those that giving this chunk out makes: dv is the rest of a chunk split for a small request, dv's own rest or none where it served, and else what it was; no word of a block in use is written; the whole heap invariant is kept |
| `Dlmalloc.MallocState.Dlfree` | libbroadway/malloc.c:4182-4280 | exactly the one block is no longer in use, whatever its neighbours are; dv is the free chunk that contains what was dv, or none if there was none or it went into top; no word of the other blocks is written, and the break, the mode and the end of top stay; the whole heap invariant, coalescing included, is kept; null is ignored |
| `Policy.SystemNeeded` | libbroadway/malloc.c:4140-4172 | the system is needed exactly if neither dv nor top nor a binned chunk fits |
| `Policy.LeastBeatsDv` | libbroadway/malloc.c:3698-3699 | the best of the bins is the best of all free chunks unless dv is at least as good |
| `Requests.FreshEnough` | libbroadway/malloc.c:3455-3471 | the amount asked for is enough for the request and a new top, also in 32-bit arithmetic |
| `Merging.MergeOk` | libbroadway/malloc.c:4234-4268 | a block and its free neighbours made into one chunk leave the heap tiled, tagged and coalesced |
| `Merging.BlocksTell` | libbroadway/malloc.c:2750-2807 | where free chunks are coalesced, the blocks in use determine all other chunks and where top begins |
| `Merging.FreedTells` | libbroadway/malloc.c:4217-4268 | so there is only one state that freeing a block can leave: chunks, dv and top are determined by those before |
| `Dlmalloc.MallocState.AllFreed` | libbroadway/malloc.c:2750-2807 | with no block in use the segment is a single top chunk, dv is empty and both maps are zero |
| `Tiling.PayloadsDisjoint` | libbroadway/malloc.c:2614-2625 | no byte belongs to two blocks in use |
| `Memory.WordsApart` | libbroadway/malloc.c:1625-1637 | no word of memory serves two fields of chunks at once |
| `Memory.ClientsApart` | libbroadway/malloc.c:1625-1637 | no word that the allocator keeps lies in a block in use |
| `Memory.BinsSurvive` | libbroadway/malloc.c:2781-2807 | whatever a client stores in its block, the bins stay as they are |
| `Dlmalloc.MallocState.StoreWord` | libbroadway/malloc.c:1625-1637 | a client's store, seen through every field that shares the word, keeps the whole invariant |
| `Memory.TagsSpared` | libbroadway/malloc.c:1690-1723 | head words written where chunks begin or in top, and foot words where free chunks end, are words of no block in use |
| `Memory.LinksSpared` | libbroadway/malloc.c:2894-3102 | nor are the links that are written in free chunks and in the headers of small bins |
| `Requests.OversizeAsks` | libbroadway/malloc.c:3381-3466 | what a request beyond MAX_REQUEST asks the system for, and exactly when it ends the contiguous mode |
| `Clients.Serve` | libbroadway/malloc.c:4050-4322 | one call of a client (malloc, free, realloc, memalign, or a store to or a load from its own block) is answered as it should be, and the client's record of its blocks and of what it has stored stays right |
| `Clients.ServeStore` | libbroadway/malloc.c:1625-1637 | a store to the client's own block changes that word, as every field reads it, and nothing else; any other is left undone |
| `Clients.Run` | libbroadway/malloc.c:4050-4322 | every run of calls from the initial heap: each is answered as it should be in the state it finds, each state has its chunks back to back and coalesced and dv among them, the run ends early only when sbrk is exhausted, the blocks lie apart and hold what was stored in them, and if all are freed nothing is left but top |
| `Clients.ReadsBack` | libbroadway/malloc.c:4050-4322 | in every run, a word stored in a block is what is loaded from there, whatever other calls come between, as long as it is not stored again and the block not freed or resized |
| `Clients.ResizedWords` | libbroadway/malloc.c:3809-3823 | and after resizing, in place or by a move, the words that there is still room for are there |
| `Resizing.Reallocate` | libbroadway/malloc.c:3761-3828 | the block is resized where it is exactly if it is large enough or can grow into top, otherwise moved; refused exactly if neither is possible, and then no block changes; the state afterwards is exactly that of cutting off and freeing what is too much, of taking it from top, or of a malloc and a free; the first bytes, as many as both sizes have, are carried over word by word; the other blocks and their words stay |
| `Resizing.CopyBlock` | libbroadway/malloc.c:3820-3822 | the copy takes all of the old block, which is always the smaller one and made of whole words, and writes nothing outside the new one |
| `Resizing.Dlrealloc` | libbroadway/malloc.c:4297-4318 | the public entry: a null pointer is a malloc, any other is resized in place, moved or refused exactly as internal_realloc does it |
| `Resizing.RoundAlignment` | libbroadway/malloc.c:3835-3841 | the alignment used is the least power of two from 16 on that is large enough |
| `Resizing.Memalign` | libbroadway/malloc.c:3832-3915 | the block begins at the first multiple of the alignment in a malloc's block that leaves no lead or one that makes a chunk; lead and tail are freed and nothing else happens, no other block changes and no word of one is written; null exactly if the size is too large or malloc refuses |
| `Resizing.Dlmemalign` | libbroadway/malloc.c:4320-4322 | the public entry: alignments up to 8 are a malloc, and others are placed or refused exactly as internal_memalign does it |
| `MessageRings.FullTest` | libbroadway/ipc.c:128-138 | the test on indices holds exactly if size - 1 messages are outstanding |
| `MessageRings.EmptyTest` | mini/ipc.c:295-295 | equal indices mean exactly that nothing is outstanding |
| `MessageRings.WriteWord` | libbroadway/ipc.c:139-143 | writing a word of the next message disturbs no outstanding one, and not the slot in use at the other side |
| `MessageRings.Take` | mini/ipc.c:206-208 | the slot at the head carries the oldest outstanding message |
| `Ipc.Protocol.PpcPostWord` | libbroadway/ipc.c:139-143 | while the PPC writes a word, the slot that process_in uses does not change |
| `Ipc.Protocol.PpcPublish` | libbroadway/ipc.c:145-146 | publishing appends the whole message to the log of requests |
| `Ipc.Protocol.PpcRecvDone` | libbroadway/ipc.c:184-193 | what ipc_receive returns carries the next reply, and the slot is given back only then |
| `Ipc.Protocol.PpcCompare` | libbroadway/ipc.c:202-230 | a reply is the result of the exchange exactly if its code and tag are those waited for, otherwise it is discarded and the PPC waits again; a bare ipc_receive returns what it has |
| `Ipc.Protocol.RequestRead` | mini/ipc.c:206-217 | what process_in reads is the request that was posted |
| `Ipc.Protocol.IrqProcess` | mini/ipc.c:206-288 | a fast request is handled at once, a slow one enters the slow queue, and the ARM panics exactly if that is full |
| `IpcState.FlagsOnTop` | mini/ipc.h:108-120 | a request is fast exactly if the lowest bit of the flags byte is set, which is on top of the code word |
| `Ipc.Protocol.ArmPostWord` | mini/ipc.c:104-112 | while the ARM writes a word, the slot that ipc_receive copies does not change |
| `Ipc.Protocol.DeviceEnqueue` | mini/ipc.c:181-204 | another device's request enters the slow queue as it is, or the ARM panics if that is full |
| `Ipc.Protocol.Do` | mini/ipc.c:290-304 | any step of any thread keeps the invariant, and does to the rings what the machine with logs does |
| `Ipc.Protocol.Run` | libbroadway/ipc.c:118-230 | every interleaving of PPC, interrupt handler and main loop is a run of the machine with logs; under every one that keeps the exchange discipline from the initial state on, the k-th exchange returns the k-th reply |
| `Exchanges.ExchangesPair` | libbroadway/ipc.c:213-230 | under every schedule in which the PPC only exchanges and the ARM only answers requests it has begun to handle, each at most once, no reply is discarded, and exchange k returns reply k, which has the code and tag of request k |
| `Exchanges.StepKeeps` | libbroadway/ipc.c:202-230 | what every step that keeps to the discipline preserves: answers in the order of the requests, and where the PPC is in its exchange |
| `Exchanges.ExchangeCompletes` | libbroadway/ipc.c:213-230 | for any code and arguments there is such a schedule in which the exchange completes |
| `Ipc.Protocol.Lossless` | mini/ipc.c:206-304 | at most 31 messages are outstanding in a ring, and what has been received is what was sent, in order |
| `Ipc.Protocol.SlowInOrder` | mini/ipc.c:279-351 | slow requests are executed in the order of posting, each once, with the words that were posted, and so is what other devices put between them |
| `Ipc.Protocol.ExchangesPair` | libbroadway/ipc.c:213-230 | after such a schedule the words that the k-th exchange has returned are those of the k-th reply, which answers the k-th request |
| `Ipc.Protocol.NotStranded` | mini/ipc.c:290-304 | an outstanding request has the bell set, or the handler draining, or the PPC about to ring |
| `NandEcc.FlipCode` | mini/nand.c:260-269 | flipping data bit p flips p in the odd and its complement in the even half of the code |
| `NandEcc.DecidedBySyndrome` | mini/nand.c:259-279 | for no, one or two flipped bits, anywhere in data and code, the syndrome alone leads to the right verdict and repair |
| `NandEcc.CorrectsAndDetects` | mini/nand.c:259-279 | one flipped data bit is restored, one flipped code bit leaves the data alone, two flipped bits are reported and the data left alone |
| `NandEcc.CorrectBlock` | mini/nand.c:260-279 | what is done in place to one block of a page, and that the others stay |
| `NandEcc.NandCorrect` | mini/nand.c:250-291 | every block of the page is judged and repaired by its own pair of words, and the result is the worst verdict |
| `NandEcc.PageRestored` | mini/nand.c:250-291 | a page with at most one flipped bit in each block comes out as it was written |
| `SectorCache.Cache.Read` | libdiskmii/cache.c:31-44 | a hit exactly if the sector is cached, and it counts as a use |
| `SectorCache.Cache.Add` | libdiskmii/cache.c:46-68 | the first free entry is used, or the first with the least stamp, which is the least recently used one until the stamps wrap around; never two entries for a sector |
| `SectorCache.LeastStamp` | libdiskmii/cache.c:52-60 | the least stamp belongs to the least recently used entry while the counter has not wrapped |
| `SectorCache.Cache.Invalidate` | libdiskmii/cache.c:70-78 | exactly the entries of the range, as it is computed in 32 bits, are given up |
| `SectorCache.InvalidatesAll` | libdiskmii/cache.c:70-78 | every sector of the range is given up exactly if the end of the range does not wrap around |
| `DiskIo.SdDisk.Read` | libdiskmii/diskio.c:237-248 | a successful read returns what is on the card; it succeeds exactly if it hits or the card does its part, and the card is asked, as often as it takes up to the first failure, exactly if it does not hit; a sector read alone is cached afterwards, and a run is given up |
| `DiskIo.SdDisk.Write` | libdiskmii/diskio.c:283-302 | a successful write puts the data on the card; a failed one stops there, with what was written before in place, and changes at most its range; the range is given up in the cache, which agrees with the card in both cases |
| `DiskIo.StaleLastSector` | libdiskmii/cache.c:70-78 | the input for which the cache disagrees: a write to the last sector of the 32-bit space while it is cached |
| `DiskIo.Trace` | libdiskmii/diskio.c:215-302 | any trace of reads and writes, with any commands failing, is answered as an uncached card would answer it, and nothing fails if the card does not |
| `Sha1.FoldConcat` | libbroadway/sha1.c:125-140 | compressing in any bursts is compressing block by block |
| `Sha1.AddToCount` | libbroadway/sha1.c:121-124 | the two words count bits modulo 2^64 |
| `Sha1.ExactlyUpToLongest` | libbroadway/sha1.c:125-140 | the 32-bit tests of SHA1Update are right exactly if the buffered bytes and the call together are at most 2^32 - 1985 |
| `Sha1.BurstWraps` | libbroadway/sha1.c:129-131 | a call for which they are not |
| `Sha1.Context.Bursts` | libbroadway/sha1.c:129-140 | one loop over bursts compresses whole blocks until fewer are left |
| `Sha1.Context.Update` | libbroadway/sha1.c:117-145 | after any calls that short, state, count and buffer are those of the whole message |
| `Sha1.Context.Final` | libbroadway/sha1.c:150-178 | the loop ends, and the digest is the five words, each most significant byte first, of the fold over the message padded as in section 4 of FIPS PUB 180-1; the context is wiped |
| `Sha1.PaddedWhole` | libbroadway/sha1.c:160-164 | the padded message is made of whole blocks |
| `Sha1.LengthValue` | libbroadway/sha1.c:155-158 | the eight bytes at its end are the number of bits, most significant first |
| `Sha1.InitialBytes` | libbroadway/sha1.c:105-110 | the initial state, least significant byte first, is 01 23 45 67 and so on up to EF, then FE DC and so on down to 10, then F0 E1 D2 C3 |
| `Sha1.Sha1Of` | libbroadway/sha1.c:180-187 | SHA1 of one buffer is that digest: 20 bytes that spell the five words of the folded state |
| `Sha1.Sha1OfPieces` | libbroadway/sha1.c:117-178 | however a message is cut into calls, the digest is that of the whole |
| `FatEntries.StoredEntry` | libdiskmii/ff.c:365-416 | reading an entry back gives the stored value modulo the entry's width, for 12, 16 and 28 bits |
| `FatEntries.OtherEntry` | libdiskmii/ff.c:365-416 | every other entry is as before, also a 12-bit one that shares a byte |
| `FatEntries.Digits12` | libdiskmii/ff.c:323-355 | which bytes and halves of bytes hold the digits of a 12-bit entry, for even and for odd clusters |
| `FatEntries.Digits16` | libdiskmii/ff.c:323-355 | a 16-bit entry has its low byte first |
| `FatEntries.Digits32` | libdiskmii/ff.c:323-355 | a 28-bit entry has its bytes from the lowest on, and ignores the top half of the last |
| `FatVolume.Volume.MoveWindow` | libdiskmii/ff.c:243-275 | the disk as seen through the window does not change but for the copies of the table, and those stay equal to the first but for a dirty window |
| `FatVolume.Volume.GetFat` | libdiskmii/ff.c:323-355 | the entry of the cluster, also one that straddles two sectors, or 1 for a bad cluster; the disk as seen stays |
| `FatVolume.Volume.PutFat` | libdiskmii/ff.c:365-416 | exactly the one entry changes; nothing but the table does |
| `FatVolume.Volume.CreateChain` | libdiskmii/ff.c:468-516 | on any table: the next cluster, or the first free one after the end of the chain or after the last one given out, linked to the end; 0 exactly if no cluster is free or bad, 1 if a bad one comes first or there is no chain; a right count of free clusters stays right, and is noted for the information sector |
| `FatVolume.Volume.RemoveChain` | libdiskmii/ff.c:427-457 | on any table: exactly the clusters on the way from the first one are freed, up to the end, to one that is free or has been freed, or to a bad one; it fails exactly for a bad one and for a first cluster out of range; a right count stays right |
| `FatVolume.Volume.GetFree` | libdiskmii/ff.c:2315-2374 | a tracked count is returned as it is; otherwise the scan counts the free clusters (FAT12), and fails exactly if there is a bad one or no cluster at all, or all zero entries (FAT16, FAT32) |
| `FatVolume.Volume.Sync` | libdiskmii/ff.c:285-312 | afterwards the disk is what was seen through the window, and with 32-bit entries the information sector has the count of free clusters and the last cluster, if they have changed |
| `FatVolume.Volume.SaveEntry` | libdiskmii/ff.c:1990-2005 | the directory entry has the first cluster and the size, the time and the archive bit, and nothing else of any directory changes |
| `ClusterChains.NoCycle` | libdiskmii/ff.c:427-457 | a chain meets no cluster twice |
| `ClusterChains.SameChain` | libdiskmii/ff.c:427-457 | a chain goes by its first cluster |
| `ClusterChains.CreatedChain` | libdiskmii/ff.c:468-516 | a new chain of one free cluster, all other chains untouched, refused exactly if no cluster is free |
| `ClusterChains.CreatedNext` | libdiskmii/ff.c:468-516 | stretching a chain at any of its clusters: the next one, or one more at its end; the chains stay disjoint and acyclic |
| `ClusterChains.FreeChain` | libdiskmii/ff.c:427-457 | freeing a chain leaves the others disjoint and acyclic |
| `ClusterChains.ChainWalked` | libdiskmii/ff.c:427-457 | where a chain begins, the way is the chain, and there is no failure |
| `ClusterChains.CutChain` | libdiskmii/ff.c:2383-2418 | cutting a chain and freeing the rest does |
| `ClusterChains.FreedCount` | libdiskmii/ff.c:445-450 | freeing a chain adds exactly its length to the free clusters |
| `ClusterChains.NotDamaged` | libdiskmii/ff.c:443-444 | in such a table no entry of a cluster is 1 |
| `ClusterChains.RawCountRight` | libdiskmii/ff.c:2348-2369 | the raw scan is right exactly if entries 0 and 1 are not zero |
| `FileSectors.WriteRun` | libdiskmii/ff.c:1908-1931 | writing sectors of a cluster behind the buffer's back, and refreshing it, changes exactly those sectors of the file |
| `FileSectors.ClustersApart` | libdiskmii/ff.c:527-535 | two clusters share no sector |
| `FileSectors.NoSector` | libdiskmii/ff.c:527-535 | clust2sect answers 0 exactly for a number that is no cluster's |
| `FatFile.File.Read` | libdiskmii/ff.c:1763-1848 | a read returns exactly the next bytes, as many as asked or up to the end, whatever mix of buffer and direct transfers serves it |
| `FatFile.File.Write` | libdiskmii/ff.c:1858-1964 | a write overwrites exactly the bytes at the position and may extend the file; it is short only if no cluster is free, and writes nothing if the size would pass 4 GB; the file counts as changed |
| `FatFile.File.Seek` | libdiskmii/ff.c:2102-2191 | the position is the one asked for, cut at the end if read-only and at a full disk otherwise; no content changes; the file comes to count as changed exactly if it has been extended |
| `FatFile.File.Walk` | libdiskmii/ff.c:2142-2158 | the walk over clusters from the start or the current one gets to the same place, creating clusters if writing |
| `FatFile.File.Truncate` | libdiskmii/ff.c:2383-2418 | the content is cut at the position, and the clusters behind it are free; the file comes to count as changed exactly if something is cut off |
| `FatFile.File.Sync` | libdiskmii/ff.c:1973-2010 | a changed file's buffer is written and its directory entry says where it begins and how large it is; afterwards it does not count as changed; if it did not before, nothing is written |
| `FatFile.File.CurrentCluster` | libdiskmii/ff.c:2122-2166 | after every operation the current cluster is the one of the byte before the position, counted from the chain's start, and csect goes with it |
| `FatClient.MineCounted` | libdiskmii/ff.c:427-516 | clusters pass between a file and the free ones, and none is lost |
| `FatClient.Do` | libdiskmii/ff.c:1763-1964 | each operation does to the array of bytes what it should: a write is cut and a seek stops exactly where there is no more room |
| `FatClient.Run` | libdiskmii/ff.c:1763-2191 | however work is divided into calls, the file is an array of bytes, every other file keeps its content, and of the directories only the file's own entry changes |
| `FatClient.Reopen` | libdiskmii/ff.c:1665-1750 | a file that has been synchronized is found again from the disk alone: mounting the table and opening its directory entry gives the same content |
| `FatClient.ReadBack` | libdiskmii/ff.c:1763-1964 | writing, seeking back and reading as much returns what was written, also on a full disk |
| `FatClient.WritesJoin` | libdiskmii/ff.c:1858-1964 | two writes one after the other are one |
| `FatClient.OtherFileKept` | libdiskmii/ff.c:1858-1964 | where only a file's own and free clusters change, the data of every other chain stays |
| `LongNames.FitLfn` | libdiskmii/ff.c:728-753 | an entry gets its 13 characters, the end mark and the filling behind it |
| `LongNames.PickLfn` | libdiskmii/ff.c:695-723 | the characters of any entry are put in their place, up to its terminator; it is refused exactly if there is no room for them or something follows the terminator |
| `LongNames.CmpLfn` | libdiskmii/ff.c:664-690 | any entry matches exactly if its characters up to the terminator agree with the buffer in upper case, nothing follows the terminator, and the buffer ends where the last entry does |
| `LongNames.SumSfn` | libdiskmii/ff.c:810-819 | the checksum ties a run to its short name: each byte is added after a rotation to the right |
| `LongNames.Attributes` | libdiskmii/ff.c:853-858 | which attribute bits make an entry a part of a long name, and that the masked byte tells them |
| `LongNames.DirFind` | libdiskmii/ff.c:830-881 | on any directory, the first entry that is wanted is found, before its end: one with the short name, unless that has lost something, or one right behind a complete run, in order and with its checksum, of which every part matches |
| `LongNames.DirRead` | libdiskmii/ff.c:891-935 | on any directory, the first entry in use that is no part of a long name is read, and it has a long name exactly if a complete run with its checksum is right before it, whose parts are then all in the buffer |
| `LongNames.ReadBack` | libdiskmii/ff.c:891-938 | where the parts of a name stand before an entry, reading rebuilds it exactly if it has at most 253 characters |
| `LongNames.FoundByName` | libdiskmii/ff.c:830-881 | there it is found exactly by the names that are equal in upper case, if it has less than 255 characters |
| `LongNames.WriteName` | libdiskmii/ff.c:1001-1014 | the entries written, bottom first, are a run of parts of the name |
| `LongNames.RunStands` | libdiskmii/ff.c:1001-1014 | wherever in a directory a run has been written, the parts of its name stand there |
| `LongNames.AllPartsMatch` | libdiskmii/ff.c:664-690 | all parts match exactly under that condition |
| `ShortNames.CreateName` | libdiskmii/ff.c:1097-1225 | for every path the short name and its flags are those that the name up to the separator determines: leading dots and spaces dropped, the body cut at 8 and the extension, behind the last dot, at 3 bytes, in upper case, other characters replaced; something lost exactly if anything was dropped, cut or replaced, and a long name needed then or for mixed case |
| `ShortNames.NothingLost` | libdiskmii/ff.c:1130-1215 | if nothing is lost, the name is a body of at most 8 and an extension of at most 3 bytes, each character kept, and the short name is their padded form; otherwise a long name is needed |
| `ShortNames.PlainName` | libdiskmii/ff.c:1130-1215 | a plain 8.3 name is padded and upper-cased without loss, and needs a long entry exactly if body or extension mixes cases |
| `ShortNames.Codepoints` | libdiskmii/ff.c:1132-1197 | which characters are refused in a long name, and which are replaced in a short one |
| `ShortNames.RoundTrip` | libdiskmii/ff.c:1311-1345 | what is printed from the entry made for a plain name is the name with its case |
| `ShortNames.GetInfo` | libdiskmii/ff.c:1311-1345 | for any entry, what is printed is the body up to a space, with its first byte restored, and behind a dot the extension, each in the case that the entry's flags say |
| `ShortNames.NoOtherCase` | libdiskmii/ff.c:1189-1197 | the case bits tell which cases occur |
| `Layouts.Plan` | libdiskmii/ff.c:2833-2870 | the layout is the one that the sizes determine; it is kept exactly if aligning the data leaves as many clusters as the FAT type needs, and then the table has room for every entry |
| `Layouts.GeometryOk` | libdiskmii/ff.c:2839-2870 | every entry lies inside the table, and the last cluster ends inside the partition |
| `Layouts.ClusterSize` | libdiskmii/ff.c:2821-2832 | the cluster size asked for if it is one, otherwise the tables' for the size of the partition |
| `Format.MakeFs` | libdiskmii/ff.c:2780-2985 | a disk is formatted exactly if rule, size and FAT type allow it, and carries the layout then, and its other sectors stay; otherwise nothing is written |
| `Format.BootRecord` | libdiskmii/ff.c:2901-2943 | the boot record says the layout, the media, the label and the signatures |
| `Format.PartitionTable` | libdiskmii/ff.c:2872-2897 | the table has one bootable entry, with the type that goes with the size, the sectors of the layout, and the last cylinder that it reaches or that can be said |
| `Format.Mount` | libdiskmii/ff.c:1464-1587 | for every disk: the boot record is found in sector 0 or where the first partition begins, or there is no file system; for every boot record whose areas fit into the volume, whatever the numbers of tables, reserved sectors and root entries are, the table, the root directory and the data follow one another, as many clusters as there is room for are counted, and their number tells the type |
| `Format.LaidOutOk` | libdiskmii/ff.c:1542-1560 | such a volume is in order exactly if its table has room for all entries |
| `Format.FormattedMounts` | libdiskmii/ff.c:1464-1587 | the boot record of a formatted disk is one of these, and mounting finds the layout: FAT type, table, root directory, data area, number of clusters and free clusters |
| `NewVolume.FormatAndMount` | libdiskmii/ff.c:2780-2985 | formatting and then mounting gives a volume with the planned geometry, chains in order and a right count of free clusters, exactly for the disks that can be formatted |

## Left out

- The repository's `sbrk` returns 0 when its region is used up, while the allocator tests for all ones
  (libbroadway/malloc.c:453-466); its 32-bit sum may also wrap around. A request that meets this ends the model with
  the outcome `exhausted`.
- The start of the sbrk region is taken to be 8-aligned, as the linker places it; trimming, mmap, several segments,
  footers, locks, mspaces and statistics are compiled out or inert.
- Clients.Run: a client accesses its blocks by whole words at offsets that are multiples of 4; what it finds in words
  that it has not stored is not described.
- Resizing.Memalign: alignments beyond 2^31 are excluded, for which the doubling loop of the source does not end.
- `dlcalloc` and the independent_calloc family are built from malloc, and are not modelled.
- Ipc.Protocol.Run: memory writes are taken to be visible before the index is published, and the interrupt line to
  stay asserted while the bell is set; that anybody makes progress is not claimed, since a client that posts
  without receiving can block both sides.
- What the handlers of requests do is a choice of the environment: they may post any messages, or none.
- NandEcc.CorrectsAndDetects: the hardware's generator is specified by its line-parity equation; a stored code of
  all ones means an unformatted block, and is excluded as in the source.
- DiskIo.Trace: writes that end at the last sector of the 32-bit space are excluded, where the cache can go stale;
  card changes and other ioctls are not modelled.
- Sha1.Context.Update: longer calls are excluded, for which the code decides wrongly; the SHA engine is a function
  parameter.
- FatFile.File.Read, FatFile.File.Write: disk errors are left out, and so are re-entrancy and several open handles
  on one file. Truncating keeps a dirty buffer of a cluster that has been freed; it stays among the file's own or
  free clusters and harms only another file that takes that cluster before the buffer is written.
- A file is opened from its directory entry; paths, directories as chains of clusters (dir_seek, dir_next,
  follow_path), f_mkdir, f_unlink, f_rename and volume labels are not modelled. A file's chain is taken to be sound,
  so the error paths for damaged chains are not reached; those of the table itself are (`CreateChain`,
  `RemoveChain`, `GetFree`).
- LongNames.DirFind, LongNames.DirRead: a directory is a sequence of entries. Long entries whose order byte has
  none of its lower six bits set are excluded, for which the code computes an index before the buffer. Code pages with
  double bytes and the Unicode tables are not modelled; upper-casing is a function parameter.
- ShortNames.CreateName: the conversions between Unicode and the code page are function parameters, of which only
  what is needed on ASCII is taken for granted; numbered names, dates and the long name in get_fileinfo are left out.
- Format.MakeFs: drive status and ioctl errors are left out; the block size is the 512 sectors that the SD driver
  reports, which the NAND driver leaves unset.
- Format.Mount: a boot record with no sectors per cluster is an outcome of its own, where the source divides by zero;
  of one whose areas do not fit into the volume, where the sums wrap around, the areas are not described.
- `libbroadway/lists.c`, `libdiskmii/nandfs.c`, `libhextwelve`, the older copies under `mini/`, and drivers, video,
  console and USB code are not part of this model.
