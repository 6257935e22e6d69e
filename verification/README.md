# A verified model of the ntfsprogs-plus library core

The project models the parts of ntfsprogs-plus in which data could silently be lost or mixed up, and
proves what they keep:

* **Compression** (`libntfs/compress.c`). The LZNT1 format is given twice: as a decoder function over
  bytes and as sequences of tokens with their serialized form. The hash-chain match finder, the lazy
  tokenizer, whose rule on the input leaves one block for every sub-block, the block compressor, the in-place decompressor, the compression set, the release of spare
  clusters, the compressed read and the closing of a compressed file are methods proved against it. The
  end of this chain is `CloseAndRead.CloseThenRead`: whatever becomes of the last compression block (packed,
  turned into a hole, or left alone), every read through the compressed read path returns what it would have
  returned before, and no cluster that is still mapped has been given back.
* **Runlists** (`libntfs/attrib.c`, `libntfs/lcnalloc.c`). A runlist denotes the sequence of logical
  clusters behind its virtual clusters, and through a disk the bytes of a file. Gather reads, cluster
  writes, cluster release and the splitting of holes are stated on that map.
* **The fsck bitmaps** (`libntfs/fsck.c`, `libntfs/bitmap.c`, `src/ntfsck.c`). Blocks that are all free,
  all allocated or literal represent a set of clusters; marking, clearing, duplicate detection, the
  allocator's oracle, the windowed update of the on-disk bitmap and its MFT shadow are stated on that set.
* **The cache** (`libntfs/cache.c`). The doubly linked least recently used list with its hash chains is a
  class over index arrays; it behaves as a plain sequence of items over every run of operations, and,
  removals apart, keeps an item exactly as long as fewer others than it has room for are used.
* **Multi sector transfers** (`libntfs/mst.c`, `libntfs/device.c`). Fixups, the transfers around them over
  a device that may transfer less than asked, and exactly which mixtures of writes go undetected.
* **Attribute records** (`libntfs/attrib.c`, `libntfs/unistr.c`). Search, enumeration, sorted insertion and
  resizing of attributes in the bytes of an MFT record.

How the C is rendered: shifts and masks by powers of two are divisions and remainders; little endian
numbers are decoded explicitly; the 32-bit hash, the 16-bit update sequence number, the attribute instance
and the 16-bit phrase tokens wrap or are bounded as in C, other integers are unbounded. The null runlist
is the empty sequence. Linked structures are index arrays, pointers into runlists are indices. An MFT record
is a byte sequence beside its header fields; multi sector records and the device below them are sequences
of 16-bit words.

Where the code and its documentation differ, the model follows the code:

* `ntfs_mst_pread` is documented to return 0 for a block size of 0; the code divides by the block size, so
  `MstTransfer.MstPRead` asks for a positive one.
* `split_compressed_hole` takes one spare element without counting it when the hole is the last run and
  ends inside the write's block; `HoleSplit.SplitHole` states exactly that.
* `split_compressed_hole` promises a part "within a single compression block". A hole longer than a block
  gives such a part exactly when it reaches the end of the write's block; a hole not longer than a block is
  handed back as it is, so it gives one exactly when it lies inside that block. `HoleSplit.SplitHole` states
  the equivalence for all lengths, `HoleSplit.CrossingHoles` gives an input of either kind where it fails.
* `ntfs_comp_set` is documented to return 0 for zeros. It compares the packed form with three patterns, and a
  last sub-block of three or four zeros packs to none of them, so these are stored. `CompressionSet.CompSet`
  states exactly when 0 comes back, `CompressionSet.ThreeZeroesStored` gives the shortest exception.
* `ntfs_attr_find` is documented both to match any name and to look for the unnamed attribute when it is
  given no name; the code matches any name. Looking for a value that way does not go with the order of the
  record: a present value is found exactly when the values climb up to it (`AttrSearch.AnyNameFound`, with
  the exception `AttrSearch.AnyNameMissed`), and adding such an attribute keeps the order exactly when no named
  attribute is passed (`AttrSearch.InsertUnnamed`, with the exception `AttrSearch.OrderLost`).
* `ntfs_fsck_check_and_set_lcnbmp` gives back the null list for a run without length, also when a list of
  duplicates was passed in.
* `ntfs_fsck_fill_unused_lcnbmp` begins one byte behind its block exactly when the number of clusters is a
  multiple of 65536 (`ShadowBitmap.FillIndexFits`). An all-ones last block is read without the fill, so
  `ClusterBitmap.FindBlock` rules out only the other last blocks of such a volume.

## Model

| member | source | states |
|---|---|---|
| Lznt1RoundTrip.GroupRoundTrip | libntfs/compress.c:554-626 | decoding the serialized form of up to eight tokens yields exactly what the tokens spell, from any point of any stream |
| Lznt1RoundTrip.TagsRoundTrip | libntfs/compress.c:534-628 | the same for all tag groups of a sub-block, followed by zeros up to 4096 bytes |
| Lznt1RoundTrip.BlockRoundTrip | libntfs/compress.c:500-628 | decoding the bytes of a stored or packed sub-block gives its content |
| Lznt1RoundTrip.StreamRoundTrip | libntfs/compress.c:464-633 | decoding a sequence of sub-blocks and its end mark gives their contents one after the other |
| Lznt1RoundTrip.PrefixDecode | libntfs/compress.c:464-633 | decoding into a smaller 4096-aligned buffer gives the prefix of the contents |
| Lznt1Accepts.GroupOnly | libntfs/compress.c:554-626 | what the decoder accepts of one tag group is the bytes of at most eight tokens whose kinds are the bits of the tag, and its effect is theirs |
| Lznt1Accepts.BlockOnly | libntfs/compress.c:500-628 | a sub-block that decodes is stored with exactly 4096 bytes, or its content is what some tokens spell, filled up with zeros |
| Lznt1Decoder.Decompress | libntfs/compress.c:464-633 | the in-place decompressor computes the decoder function: same bytes, and failure exactly where it reports overflow |
| Lznt1Decoder.CopyPhrase | libntfs/compress.c:603-623 | copying a phrase, overlapping itself or not, repeats the earlier output as the format says |
| Lznt1Matcher.MatchFinder.Insert | libntfs/compress.c:170-174 | every chain leads through every earlier position of its hash, latest first, and keeps doing so |
| Lznt1Matcher.MatchFinder.SkipPosition | libntfs/compress.c:248-259 | the same when a position is passed over |
| Lznt1Matcher.MatchFinder.BestMatch | libntfs/compress.c:149-243 | a reported match is a real earlier occurrence within the length limit at one of the 24 latest positions of the same hash; below 18 bytes none of these agrees for longer, and none later for as long; from 18 bytes on it is the latest to reach 18 and goes on to the limit, the end of the input or a byte that differs |
| Lznt1Zeros.ZeroLazy | libntfs/compress.c:316-419 | the rule makes literals of up to four zeros, and one literal with one phrase of more |
| Lznt1Encoder.BitsAgree | libntfs/compress.c:308-376 | the encoder's count of offset bits equals the decoder's at every position of a sub-block |
| Lznt1Encoder.PhraseEncodes | libntfs/compress.c:348-391 | the 16-bit word written for a real match extends the decoded text by exactly that match |
| Lznt1Encoder.TokenWriter.Finish | libntfs/compress.c:421-441 | the output buffer holds the serialized form of the tokens written |
| Lznt1Compressor.Tokenize | libntfs/compress.c:316-419 | the lazy match loop emits tokens that follow the rule and spell the input passed so far, and stops before its end only when the output has reached the size of a stored sub-block |
| Lznt1Lazy.PhraseBest | libntfs/compress.c:329-400 | a phrase is a real match of a candidate; below 18 bytes no candidate agrees for longer, at its position or at the next; from 18 bytes on it is as long as the bytes and the format allow |
| Lznt1Lazy.LiteralGivesWay | libntfs/compress.c:368-405 | a byte that begins a match of three bytes and is spelled out gives way to a longer match at the next position |
| Lznt1Lazy.LazyPrefix | libntfs/compress.c:329-410 | of two token sequences under the rule the shorter is a prefix of the longer: the rule leaves no choice |
| Lznt1Lazy.OneBlock | libntfs/compress.c:276-447 | the sub-block made of an input is determined by the input |
| Lznt1Lazy.EqualTokens | libntfs/compress.c:316-419 | more than four equal bytes become one literal and one phrase, and a different byte after them one more literal |
| Lznt1Compressor.EqualMade | libntfs/compress.c:276-447 | such an input is packed: behind the header of two bytes come five with the different byte and four without |
| Lznt1Compressor.CompressBlock | libntfs/compress.c:276-447 | for 1 to 4096 bytes what is written is the sub-block that the rule makes of the input, and it stands for the input followed by zeros; it is packed exactly when the tokens reach the end and take less room than storing it, so whenever the literals alone would; nothing before it changes |
| Lznt1Zeros.FormRecognised | libntfs/compress.c:1108-1127 | the three patterns recognise the packed form of every number of zeros but three and four |
| ClusterIO.WriteClusters | libntfs/compress.c:1023-1056 | writing through a fragmented runlist patches exactly the addressed bytes of the file |
| CompressionSet.StageDecodes | libntfs/compress.c:1090-1157 | what is staged for a compression set decodes to every 4096-aligned prefix of the padded input |
| CompressionSet.CompSet | libntfs/compress.c:1068-1159 | a positive result is stored at the write position, is the packed size of the sub-blocks the encoder makes, rounded up to clusters, decodes to the input and leaves a cluster spare; 0 comes back exactly for zeros whose last sub-block is not of three or four bytes and whose packed form would leave a cluster spare; -1 means that the sub-blocks save no cluster, and can happen only when literals or stored sub-blocks would save none either |
| CompressionSet.ResultSame | libntfs/compress.c:1068-1159 | the result is determined by the input and the two sizes |
| CompressionSet.ThreeZeroesStored | libntfs/compress.c:1058-1066 | three zeros are all zeros and are not among the inputs that come to nothing |
| CompressFree.Volume.FreeFromRl | libntfs/lcnalloc.c:600-638 | exactly the mapped clusters of the runs are no longer in use |
| CompressFree.FreedCells | libntfs/compress.c:1489-1548 | the kept clusters map as before and the rest of the block is hole |
| CompressFree.FreedValid | libntfs/compress.c:1168-1202 | the freed runlist is a valid compressed one if the old one was |
| CompressFree.ValidRun | libntfs/compress.c:1168-1202 | the check starts at the nearest run before the position that begins on a block boundary and accepts exactly the lists that are adjacent, end their holes on block boundaries and have no two holes in a row from there on |
| CompressFree.ValidIff | libntfs/compress.c:1168-1202 | from the first run on, the check accepts exactly the lists of adjacent runs whose holes end on block boundaries and are not side by side |
| CompressFree.Attr.Free | libntfs/compress.c:1444-1575 | releasing spare clusters keeps the map below the used part, makes the rest one hole merged with a preceding one, frees exactly the dropped clusters, lowers the compressed size by them, moves the update position back to the run and to the hole exactly, and needs no more room than there is |
| GatherRead.FindVcn | libntfs/attrib.c:967-1007 | the run found is the one that holds the virtual cluster |
| GatherRead.PRead | libntfs/attrib.c:1058-1230 | a read returns exactly the requested slice of the file: device bytes for runs, zeros for holes and beyond the initialized size, cut at the data size |
| GatherRead.LogicalAt | libntfs/attrib.c:1058-1230 | byte by byte a read sees the mapped byte below the initialized size and zero from there on |
| GatherRead.ReadClusters | libntfs/compress.c:981-1015 | reading a stretch of clusters yields the bytes the runlist maps there |
| CompressedRead.IsCbCompressed | libntfs/compress.c:650-686 | a compression block that starts allocated counts as compressed exactly when a hole is among its clusters or the runlist ends inside it |
| CompressedRead.ReadCb | libntfs/compress.c:805-964 | one block's share of a request is zeros, its raw clusters, or what they decode to as far as needed; it fails exactly when the block is not mapped or that part does not decode, and then writes nothing |
| CompressedRead.CompressedPRead | libntfs/compress.c:709-973 | a read at any position and count delivers everything up to the first block that fails, zeros behind the initialized size, cut at the data size, and reports an error exactly when a failure comes before any data |
| CompressedRead.DeliveredText | libntfs/compress.c:805-964 | when every block is readable, decoding only the needed parts delivers the requested slice of the whole text |
| CompressedRead.AskedText | libntfs/compress.c:709-973 | in a readable attribute every read gets exactly its slice of the uncompressed file, cut at the data size |
| CompressedClose.PackedBlock | libntfs/compress.c:1873-1964 | a block whose staged bytes end in a hole reads back as the data that was staged |
| CompressedClose.BlockRun | libntfs/compress.c:1920-1928 | walking back finds the run in which the last block begins |
| CompressedClose.AfterPacked | libntfs/compress.c:1932-1944 | storing and releasing keep what every block reads as |
| CompressedClose.Close | libntfs/compress.c:1873-1964 | after closing, all data reads as before the call, whichever way the last block was stored; as many clusters are given back as packing the data saves; the result is that of the final check, which passes on a list that was valid; the update position is exact, and only runs from it on changed; exactly the dropped clusters leave the in-use set and the compressed size; clusters still mapped stay in use |
| CompressedClose.SpareSame | libntfs/compress.c:1932-1950 | how many clusters are given back is determined by the data of the last block |
| CompressedClose.SpareSome | libntfs/compress.c:1932-1950 | some are given back whenever literals or stored sub-blocks would leave one spare |
| CompressedClose.StillInUse | libntfs/compress.c:1444-1575 | if the runs share no cluster and all mapped clusters were in use, all clusters still mapped are in use after the release |
| CloseAndRead.ReadableSound | libntfs/compress.c:464-633 | blocks that read as text never lead the decoder out of its buffers |
| CloseAndRead.CloseThenRead | libntfs/compress.c:709-973 | a read at any position and count after closing returns without failure the bytes it would have returned before |
| LinkedLists.UnlinkNextList | libntfs/cache.c:103-138 | unlinking one node leaves the list of the others, in order |
| CacheIndex.InsertKeeps | libntfs/cache.c:63-97 | entering a node in the hash index keeps every other chain and the free list |
| CacheIndex.DropKeeps | libntfs/cache.c:103-138 | dropping a node keeps every other chain and returns its link to the free list |
| LruCache.Cache.InsertHashIndex | libntfs/cache.c:63-97 | the entry joins its chain; the index otherwise shows the same entries |
| LruCache.Cache.DropHashIndex | libntfs/cache.c:103-138 | the entry leaves its chain; the index otherwise shows the same entries |
| LruCache.Cache.Fetch | libntfs/cache.c:147-205 | hash search and list scan give the same answer; a found item moves to the front, and nothing else changes |
| LruCache.Cache.Enter | libntfs/cache.c:212-330 | a present item is fetched, a new one goes to the front, and only a full cache gives up its last item |
| LruCache.Cache.Invalidate | libntfs/cache.c:377-433 | exactly the matching items disappear, in both search modes, and their number is returned |
| LruCache.Cache.Remove | libntfs/cache.c:435-448 | exactly the given entry disappears |
| LruCache.Cache.FetchAndRemove | libntfs/inode.c:509-516 | looking an item up and removing its entry takes out exactly that item, or nothing if it is not there |
| LruCache.Cache.constructor | libntfs/cache.c:475-551 | a new cache is empty and well linked |
| LruCache.Execute | libntfs/cache.c:147-448 | over any run of lookups, insertions, invalidations and removals the linked structure stays sound, hashing is never dropped, and the contents are those of the abstract machine |
| LruSpec.RunOrdered | libntfs/cache.c:147-330 | in every reachable state the items are pairwise different and ordered by their last use |
| LruSpec.EvictsOldest | libntfs/cache.c:268-300 | what a full cache gives up is its least recently used item |
| LruRetention.Retained | libntfs/cache.c:147-330 | an item used in a run is still there after it if nothing took it away and fewer different other items than there is room for were used since |
| LruRetention.Forgotten | libntfs/cache.c:147-330 | with lookups and insertions only, an item is gone once as many different other items as there is room for were used since |
| LruRetention.Members | libntfs/cache.c:147-448 | one more operation: a lookup keeps all items, an insertion into a cache that is not full keeps them and adds the item if no equal one is there, invalidation and removal take out exactly what they match |
| LruRetention.RunBounded | libntfs/cache.c:255-300 | no run holds more items than there is room for |
| LruRetention.UsedComesFirst | libntfs/cache.c:188-203 | an item just found or brought in is at the front |
| Bits.SetBitGet | libntfs/bitmap.c:65-88 | setting a bit gives it the value and touches no other bit |
| Bits.BitIsShift | libntfs/bitmap.c:82-88 | a bit is what shifting the byte down leaves |
| Bits.ByteIs | libntfs/bitmap.c:65-88 | bit k of a byte counts for the k-th power of two |
| Bits.GetAndSet | libntfs/bitmap.c:99-110 | flipping on a difference sets the bit and returns its former value |
| Bits.CountSet | libntfs/fsck.c:699-704 | the count of set bits changes by one exactly when the bit did |
| ShadowBlock.Materialize | libntfs/fsck.c:87-120 | a literal block shows the same bits as the sentinel it replaces, with the right count |
| ShadowBlock.TryCollapse | libntfs/fsck.c:126-147 | a block collapses to the sentinel exactly when it lies wholly in the volume and all its bits are set, and shows the same bits |
| ShadowBlock.FillUnused | libntfs/fsck.c:612-633 | exactly the bits past the end of the volume are set |
| ShadowBitmap.FillIndexFits | libntfs/fsck.c:612-633 | the fill begins inside its block except exactly when the volume is a multiple of 65536 clusters; then it begins right behind it |
| ShadowBitmap.StoreKeeps | libntfs/fsck.c:651-725 | replacing one block updates the represented set by its range only, and keeps all counts right |
| ShadowBitmap.Conserved | libntfs/fsck.c:699-704 | clusters taken plus duplicates grow by the length of the range |
| ShadowBitmap.ClusterBitmap.SetRange | libntfs/fsck.c:651-725 | the set becomes its union with, or its difference from, the range; duplicates are counted exactly; an empty range is refused |
| ShadowBitmap.ClusterBitmap.FindBlock | libntfs/fsck.c:297-326 | a block read shows the clusters of the set, set bits past the volume in the last block and zeros beyond, and changes no cluster |
| ShadowBitmap.ClusterBitmap.CheckAndSet | libntfs/fsck.c:735-873 | the duplicates listed grow by exactly the clusters of the run that were taken, in order and with their virtual clusters; the set becomes the union; nothing found leaves the list as it was |
| DupRunlist.MakeDup | libntfs/fsck.c:552-610 | the expanded list grows by the expanded run, and no neighbours become mergeable |
| DupRunlist.HitsExact | libntfs/fsck.c:812-850 | the duplicates of a run are exactly its clusters that were taken |
| BitmapHistory.Replay | libntfs/fsck.c:297-725 | over any sequence of markings, clearings and block reads each cluster is as the last operation on it left it, and while only marking, clusters plus duplicates account for every mark |
| RunlistCheck.ClaimsNone | src/ntfsck.c:2129-2158 | nothing is reported exactly when no cluster is claimed twice |
| RunlistCheck.ClaimsExact | src/ntfsck.c:2129-2158 | a cluster is reported with its virtual cluster exactly when its run claims it and it was taken before or by an earlier run |
| RunlistCheck.SizeIs | src/ntfsck.c:2158-2166 | the allocated size is the length of the cluster map |
| RunlistCheck.CheckRunlist | src/ntfsck.c:2110-2180 | told from the list as it was found: it is cut at the first run that is neither a hole nor begins in the volume; a run before it keeps its length, or ends with the volume if it would leave it; a cluster is taken afterwards exactly when it was before or one of these runs covers it, and free when they are cleared; the duplicates are exactly those claimed before, and the sizes add up |
| AllocOracle.Oracle.SetRange | libntfs/fsck.c:374-431 | the oracle's set becomes its union with the range; nothing is ever unmarked |
| AllocOracle.MarkAll | libntfs/fsck.c:374-431 | over any history a cluster is occupied exactly when it was at first or some marking covered it |
| AllocOracle.Oracle.FindBlock | libntfs/fsck.c:438-450 | the block shows exactly the marked clusters, also outside the volume |
| AllocOracle.Oracle.OrInto | libntfs/fsck.c:457-478 | a bit of the window becomes set exactly when it was or its cluster is marked, for windows straddling blocks too |
| BitmapRun.FillHigh | libntfs/bitmap.c:165-176 | the partial first byte gets exactly the run's bits, and the count runs to -1 exactly when it ends inside that byte |
| BitmapRun.OneWindow | libntfs/bitmap.c:178-256 | one buffer of at most 8192 bytes brings the bitmap to the wanted bits up to its end; the two consistency errors cannot occur |
| BitmapRun.SetBitsInRun | libntfs/bitmap.c:124-265 | every bit of the run has the value and no other bit changes, for any start and length; negative arguments are refused |
| MftShadow.MftBitmap.SetValue | libntfs/fsck.c:236-268 | one record changes, exactly when it is inside the bitmap |
| MftShadow.MftBitmap.Mirror | libntfs/bitmap.c:273-288 | the shadow gets the run |
| MftShadow.SetRun | libntfs/bitmap.c:301-336 | the on-disk bitmap and its shadow each get exactly the run, and agree after every update if they did before |
| MstFixup.StampRestore | libntfs/mst.c:172-259 | deprotecting a protected record gives back every word but the update sequence array |
| MstFixup.PreWrite | libntfs/mst.c:172-222 | the record is protected in place, exactly when it is acceptable |
| MstFixup.PostRead | libntfs/mst.c:65-140 | the record is deprotected exactly when every sector ends with the sequence number, and marked BAAD otherwise |
| MstFixup.PostWrite | libntfs/mst.c:233-259 | the saved words return to the ends of their sectors |
| MstFixup.ProtectedReads | libntfs/mst.c:40-259 | what was protected is accepted on reading and gives the data back |
| TornWrites.UsnAt | libntfs/mst.c:198-206 | the sequence numbers run through 1 to 0xfffe and return after 65534 writes |
| TornWrites.MixtureDetected | libntfs/mst.c:65-222 | a record put together from sectors of different writes is accepted exactly when those writes are whole cycles of 65534 apart, and is marked BAAD otherwise |
| TornWrites.RecentMixture | libntfs/mst.c:65-222 | among 65534 consecutive writes only one whole write is accepted |
| MstDevice.PRead | libntfs/device.c:186-215 | however the device splits the transfer, what is reported read is what the device holds |
| MstDevice.PWrite | libntfs/device.c:236-279 | however the device splits the transfer, exactly what is reported written is on it |
| MstTransfer.MstPWrite | libntfs/device.c:367-401 | the blocks before the first unacceptable one reach the device protected, the buffer is deprotected again, and complete blocks are counted |
| MstTransfer.MstPRead | libntfs/device.c:310-335 | the complete blocks read are fixed up, damaged ones marked, the others left |
| MstTransfer.PowersOfTwo | libntfs/device.c:315-318 | the accepted block sizes are the powers of two |
| MstTransfer.ReadBack | libntfs/device.c:310-401 | reading back what a write got to disk gives the writer's own buffer |
| MstTransfer.WriteThenRead | libntfs/device.c:310-401 | on a device that transfers all it is asked, writing blocks and reading them back gives what the writer's buffer holds, for all blocks before the first unacceptable one |
| HoleSplit.ReplacedKeeps | libntfs/attrib.c:1595-1690 | replacing a hole by its pieces keeps the cluster map, the adjacency and the end mark |
| HoleSplit.PartRight | libntfs/attrib.c:1584-1587 | for a hole that ends with a block, the part computed from its length is what lies before it in the write's block |
| HoleSplit.SplitHole | libntfs/attrib.c:1556-1695 | the list keeps its meaning and all other runs; the run handed back holds the write position, and lies inside the write's block exactly when the hole is longer than a block and reaches that block's end, or is not longer and lies inside that block; then it is exactly the part of the hole in that block, with no more elements than that needs, and every piece ends on a block boundary or with the hole; otherwise the last block's length is cut off |
| HoleSplit.CrossingHoles | libntfs/attrib.c:1556-1695 | two holes, one exactly a block long and one longer, whose part crosses a block boundary |
| HoleSplit.OneBlockHole | libntfs/attrib.c:2170-2185 | a hole exactly one block long is inside a block if and only if it is that block |
| AttrOrder.FullCollate | libntfs/unistr.c:165-243 | the collation is lexicographic without case, then by length, then with case |
| AttrOrder.NameOrderFlip | libntfs/unistr.c:165-243 | the collation is antisymmetric and zero on equal names only |
| AttrOrder.NameOrderTrans | libntfs/unistr.c:165-243 | the collation is transitive |
| AttrOrder.CaseLast | libntfs/unistr.c:165-243 | case decides only between names that are otherwise the same |
| AttrImage.HeaderMakes | libntfs/attrib.c:4463-4486 | bytes with the header, name and value written by the insertion read back as that attribute, resident, with its flags and instance, and indexed exactly if it is a file name |
| MftRecords.MftRecord.Find | libntfs/attrib.c:2862-3005 | from the context's attribute, or behind it, the search passes only smaller attributes and stops at the first of the wanted type, name and value or at the first greater one; in a sorted record it succeeds exactly when there is one; type 0 takes the next attribute; a value under any name is found exactly when the values climb up to it |
| MftRecords.MftRecord.FindAll | libntfs/attrib.c:2819-2825 | repeating the search until it fails finds attributes of the wanted type, name and value in order, each once: all of the record for type 0, and all that there are in a sorted record |
| AttrSearch.HereMeans | libntfs/attrib.c:2912-2997 | the search stops at an attribute exactly when its type, its name unless any will do, and its value if one is given are the wanted ones |
| AttrSearch.AnyNameFound | libntfs/attrib.c:2926-2997 | without a name, a value is found exactly when some attribute of the type has it and every earlier one of the type a smaller value |
| AttrSearch.AnyNameMissed | libntfs/attrib.c:2926-2997 | a sorted record in which a value that is there is not found without a name |
| AttrSearch.MissingAbsent | libntfs/attrib.c:2862-2995 | in a sorted record a failed search means that the attribute is not there |
| AttrSearch.InsertSorted | libntfs/attrib.c:4437-4456 | where a failed search stops, inserting keeps the record sorted |
| AttrSearch.InsertUnnamed | libntfs/attrib.c:4437-4456 | a value added without a name keeps the record sorted exactly when the search passes no named attribute of the type |
| AttrSearch.OrderLost | libntfs/attrib.c:4437-4456 | a sorted record of one named attribute that is not sorted after such an insertion |
| MftRecords.MftRecord.MakeRoom | libntfs/attrib.c:4349-4387 | everything from the position on moves up by the aligned size, or nothing changes |
| MftRecords.MftRecord.Resize | libntfs/attrib.c:5115-5170 | what follows the attribute moves to its new end and the rest stays, with each refusal exactly when its test says |
| MftRecords.MftRecord.Remove | libntfs/attrib.c:5115-5170 | resizing to nothing takes out one attribute; all others keep their bytes and order |
| MftRecords.MftRecord.Add | libntfs/attrib.c:4406-4518 | the attribute is inserted where the search stopped with the next instance number, all others keep their bytes, the used size grows by the aligned length; it is refused as present exactly when a sorted record has it; a sorted record stays sorted exactly when the search could rely on the order or passed no named attribute; on any failure, also one after the insertion, the used bytes are as before |

## Left out

- ntfs_compress_overwr_free, borrow_from_hole and the write path around them: the overwrite path has no clean contract to state.
- Lznt1Decoder.Decompress: streams on which the C code would leave its buffers are outside its precondition; the decoder function marks them.
- CompressedRead.ReadCb: the same streams, and lists that do not map whole blocks, are outside its precondition.
- CompressedRead.CompressedPRead: as for ReadCb; short and failing device reads are not modelled.
- GatherRead.FindVcn: the list is mapped to its end; mapping further extents on demand is not modelled.
- GatherRead.PRead: fully mapped attributes that are neither compressed nor encrypted.
- ShadowBitmap.ClusterBitmap.FindBlock: a last block that is not all ones, of a volume of a multiple of 65536 clusters, is outside its precondition; the C code would write behind the block.
- MstTransfer.MstPRead: asks for a positive block size.
- MstTransfer.MstPWrite: asks for a positive block size and for update sequence arrays behind the record header.
- MftRecords.MftRecord.Add: the refusal of a null name with a length and sizes that wrap 32 bits are not modelled.
- MftRecords.MftRecord.Find: well-formed records only; a non-resident attribute counts as one with an empty value, which is how the code reads it when its lowest cluster number is 0; case-insensitive search is not modelled.
- HoleSplit.SplitHole: writes inside one compression block, with the two spare elements already reserved.
- Failing allocations, failing writes of clusters and bitmaps, and the sync at the end of a device write.
- The variable part of cache entries, their dofree callback and recycling on allocation failure.
- Resident and encrypted reads, mapping pairs, attribute lists, and the repair that moves duplicated clusters.
- The mapped scratch file behind the cluster bitmap, mounting, and the environment.
- Directories, indexes, security descriptors, the unused bit search helpers and the remaining utilities.
