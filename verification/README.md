# Fast Cache Engine: a verified model of the storage engine

Fast Cache Engine stores an immutable map from key bytes to value bytes in a directory, in one of five
physical forms: a sorted hash index, a radix trie, a minimal perfect hash, a direct table, or an append log.
This project models the engine in Dafny and proves that all five refine one specification,
`Records.LastPut`: the value of the newest put under the key.

The modules follow the pipeline.

| stage | modules |
|---|---|
| bytes, sorting, structs on disk | `Bytes`, `Sorting`, `Format`, `DiskLayout` (where every field lies), `Words` |
| staging, deduplication, key and value files | `Records`, `Builders`, `Schemas`, `PutLaws` (what a freeze accepts) |
| the five backends | `SortedIndex`; `RadixTrie`, `RadixBuild`, `RadixFlat`, `RadixScan`; `MphGroup`, `Mph`; `DirectTable`; `Log`, `LogIndex`, `LogCache` |
| codecs | `Delta`, `Rle`, `Bitpack`, `Codecs`, `CodecFormats` |
| checksum | `CrcWord` (facts about 64-bit words), `CrcAlgebra` (the burst argument for any register), `Crc`, `CrcLaws` (check value and residue) |
| validation, open, get | `Validation`, `ValidationLimits`, `Reader`, `ReaderGet` |
| iterators and scans | `Scans`, `ScanLaws`, `ScanLimits` |
| translation between backends | `Compaction`, `CompactionLaws`, `OneRecord` (a directory of one record), `CompactionLimits` |
| appending to a frozen log | `Appending` |
| lock protocol | `Locks` (safety), `LockProgress` |
| allocator, arenas, their runs | `Memory`, `Arenas`, `MemoryRuns` |

How the parts are represented:

- A file is a byte sequence. Index sections are sequences of records, tied to bytes by encoders and decoders
  that are proved inverse. A missing file is an empty one, as the reader treats it.
- The key hash, the seeded slot hash and, in the log parser, the checksum are function parameters. No lookup
  property depends on which functions they are; the checksum is the reflected ECMA-182 CRC-64 of `Crc`
  wherever a cache is written or opened.
- Loops and in-place updates of the C code are loops, arrays and classes here (`TrieBuilder`, `Builder`,
  `Iterator`, `LogDir`, `Allocator`, `Arena`). Every such method is proved against a function of its inputs
  or of its old state, and the laws are proved of those functions.
- `size_t` and `uint64_t` are unbounded except where wrap-around matters: the count casts of rle, the header
  sizes of bitpack, radix and perfect-hash files, and `max_key + 1` of the direct table are written out.
- `fwrite` fails exactly past `MAX_FILE` (2^63 - 1 bytes, the range of a file offset), and no codec
  buffer is larger than `MAX_OBJECT` (2^56 bytes, a 57-bit address space); other I/O and allocations succeed.

## Findings

Properties that are false as stated for the code, each with the exact condition under which they hold:

- Compaction of an index hands stored key bytes to `fce_builder_put`, which encodes them once more
  (src/api/fce_reader_api.c:533, src/api/fce_builder_api.c:49). Successful compactions of an index keep every
  answer if and only if no key and value of the fixed sizes can be put, and put again as stored, with the stored key
  changed: `CompactionLimits.IndexCompactionIsFaithfulIff`. Without a fixed key size that means a pass-through key
  codec (`CompactionLimits.CodecGuard`); keys of four bytes are safe under every codec
  (`CompactionLimits.OneWordKeysAreKept`). A losing key for each of delta_i32, rle and bitpack is in
  `CompactionLimits.KeyThatEncodesAgain`, the losing run in `CompactionLimits.CompactAndLose`. Compaction of a log
  is faithful under every codec.
- A log accepts repeated keys under every schema (src/backends/fce_backend_log.c:97-175), deduplication refuses them
  (src/core/fce_build_records.c:51-54). When the schema forbids them, no index can be compacted from such a log:
  `CompactionLaws.RepeatedKeysAreRefused`; `CompactionLaws.LogCompactsIff` is the exact condition.
- A freeze leaves the files of the other kind where they are, and opening compares their sizes with the manifest
  (src/api/fce_reader_api.c:6-7). A frozen index opens if and only if the directory held no non-empty log:
  `Reader.FrozenIndexOpens`. The output of a compaction opens if and only if its directory held nothing of the other
  kind (`CompactionLaws.CompactedOpensIff`), so a log compacted into an index in place never opens again:
  `CompactionLaws.InPlaceCompactionNeverOpens`.
- The reader multiplies section counts in uint64_t without a guard (src/api/fce_reader_api.c:30-36 and 74-78). A
  72-byte radix file with 2^60 + 1 nodes and a 40-byte perfect-hash file with 2^61 slots pass the header checks, and
  validation then reads past the file: `ValidationLimits.WrappingRadixRunsOff`,
  `ValidationLimits.WrappingMphRunsOff`. An accepted header fits its file if and only if no section size overflows
  (`Validation.RadixHeaderFitsIff`, `Validation.MphHeaderFitsIff`), and without overflow validation stays inside the
  file (`ValidationLimits.NoOverflowStaysInside`).
- Validation checks the nodes of a radix file one by one and not that they form a tree
  (src/api/fce_reader_api.c:41-54). The search of a prefix scan (src/api/fce_reader_api.c:239 and 266-279) has a stack
  of `node_count` entries and room for `record_count` matches. It ends inside both if and only if no cycle can be
  reached and its peak and its hits fit: `ScanLimits.StaysInsideIff`. Accepted files on which it does not:
  `ScanLimits.LoopIsAccepted` never ends, `ScanLimits.FanIsAccepted` overruns the stack, `ScanLimits.TwinIsAccepted`
  overruns the matches. On a trie it fits and is exact: `RadixScan.TrieScanIsSafe`, `RadixScan.TrieScanIsExact`.
- `freeze_log` and `fce_log_append` write lengths that the parser refuses (src/backends/fce_backend_log.c:43). A
  frozen log opens if and only if every encoded key and value length fits 32 bits (and no index files are left
  behind): `Reader.FrozenLogOpens`.
- rle stores its element count in an `int32_t` (src/codecs/fce_codecs.c:48). Decoding undoes encoding if and only if
  the count is at most INT32_MAX; past that the decoder refuses, it never returns wrong data: `Codecs.RoundTrip`,
  `Codecs.NeverDecodesWrong`.
- docs/API.md:19 promises that open readers keep writers out. Releasing a POSIX record lock
  (src/core/fce_file.c:148-155) drops the lock of every other reader of the directory in the same process, so the
  promise holds on all runs if and only if all threads share one process or no two threads do:
  `Locks.ReadersExcludedIff`, with the losing run in `Locks.ReaderLosesItsLock`. Writers exclude each other always.

Where the code and its documentation differ the model follows the code: docs/BACKENDS.md:106 gives the slot of a
perfect-hash key as `fnv % slot_count` where the code mixes the hash first (src/backends/fce_backend_mph.c:20-23),
docs/API.md:380 restricts prefix scans to pass-through key codecs where the code does not check
(src/api/fce_reader_api.c:226-246), and the FNV offset basis (src/core/fce_hash.c:15) is not the usual one. None of
these affects a property proved here.

## Model

| member | source | states |
|---|---|---|
| Builders.FreezeOpenGet | src/api/fce_builder_api.c:92-120 | Freeze, open, get: for every backend, codec pair and hash function, the lookup of a key returns the original bytes of its last put exactly when those bytes survive the value codec; a key never put is not found, or refused by the key codec. |
| Builders.AllBackendsAgree | src/api/fce_reader_api.c:134-153 | The same puts frozen under any two backends answer every key alike, whatever the two hash functions are (8-byte keys when a direct table is involved). |
| CompactionLaws.FreezeCompactGet | src/api/fce_reader_api.c:492-542 | Put, freeze, compact, open, get: under any source and target backend every reader of the output answers a key with the original bytes of its last put exactly when they survive the value codec, and does not find a key that was never put (sources that are a log or have a pass-through key codec). |
| Appending.FreezeAppendCompactGet | src/backends/fce_backend_log.c:97-175 | The same when records were appended to the frozen log before the compaction. |
| CompactionLaws.CompactionPreservesGets | src/api/fce_reader_api.c:492-542 | When a compaction of a library-written log, or of an index with a pass-through key codec, succeeds, every reader of its output answers every key as the source does. |
| CompactionLaws.LogCompactsIff | src/api/fce_reader_api.c:501-520 | A log of encoded puts, staged or appended without a size check, compacts if and only if the target schema is valid, every put has the fixed sizes and can be decoded, the builder has room for all of them and the target backend accepts the records. |
| CompactionLaws.IndexCompactsIff | src/api/fce_reader_api.c:521-537 | An index of accepted puts under a pass-through key codec compacts if and only if the target schema is valid, the last put of every key can be decoded, the builder has room and the target backend accepts the records. |
| CompactionLaws.RepeatedKeysAreRefused | src/api/fce_reader_api.c:501-540 | A log with repeated keys under a schema that forbids them, whatever else it holds, never compacts into an index. |
| CompactionLaws.CompactedOpensIff | src/api/fce_reader_api.c:6-7 | The output of a compaction opens if and only if its directory held nothing of the other kind (no log before an index, no index files before a log) and, for a log, all lengths fit 32 bits. |
| CompactionLaws.InPlaceCompactionNeverOpens | src/api/fce_reader_api.c:6-7 | A log with records that is compacted into an index in its own directory leaves a directory that never opens. |
| Compaction.RestagingIff | src/api/fce_reader_api.c:501-537 | All records are staged if and only if each decodes, has the fixed sizes and encodes again, and there are at most 2^58 of them; what is staged is then their translation, one for one. |
| Compaction.Compact | src/api/fce_reader_api.c:492-542 | Succeeds exactly when the source opens, the target schema is valid, every record is staged and the target backend accepts what is staged; then the output is the freeze of exactly those records, otherwise the status is that of the first complaint. |
| CompactionLimits.IndexCompactionIsFaithfulIff | src/api/fce_reader_api.c:521-537 | Over all runs - put, freeze, open, compact to any backend, open - every successful compaction of an index keeps every answer if and only if no key and value of the fixed sizes can be put and, as stored, put again with the stored key changed. |
| CompactionLimits.KeyThatEncodesAgain | src/api/fce_builder_api.c:49 | For each of delta_i32, rle and bitpack a concrete key whose encoding has a different encoding. |
| CompactionLimits.CompactionLosesTheKey | src/api/fce_reader_api.c:524-533 | For every key and value that can be put twice with the stored key changed, and any hash functions, there is a run whose source answers the key with the value and whose output answers NOT_FOUND. |
| CompactionLimits.CompactAndLose | src/api/fce_reader_api.c:492-542 | The losing run itself, for every key that can be lost, under both backends that take a transforming key codec: put, freeze, open, get gives the value; compact, open, get gives NOT_FOUND. |
| CompactionLimits.LosingInputExists | src/api/fce_reader_api.c:524-533 | Every schema with a transforming key codec and without fixed sizes has a key that is lost. |
| CompactionLimits.CodecGuard | src/api/fce_reader_api.c:521-537 | Without a fixed key size compaction of an index is faithful if and only if the key codec is pass-through, or nothing can be stored at all. |
| CompactionLimits.WithoutFixedSizes | src/api/fce_reader_api.c:521-537 | Without fixed sizes the codecs alone decide. |
| CompactionLimits.DeltaGuard | src/api/fce_builder_api.c:41-49 | Under delta_i32 a fixed key size makes compaction faithful if and only if it is 4 or no multiple of 4. |
| CompactionLimits.OneWordKeysAreKept | src/api/fce_builder_api.c:41-49 | With keys of four bytes compaction of an index is faithful under every codec. |
| CompactionLimits.NothingLostIsFaithful | src/api/fce_reader_api.c:521-537 | Where nothing can be lost every successful compaction stages the very records it reads, so every lookup answers alike. |
| CompactionLimits.AnswersAreServed | src/api/fce_reader_api.c:134-186 | The answers compared are those of the reader of the source and the reader of the output. |
| CompactionLaws.StagedIsSource | src/api/fce_reader_api.c:501-537 | Decoding and re-encoding, or re-staging under a pass-through key codec, reproduces the very records of the source. |
| Compaction.FeedLog | src/api/fce_reader_api.c:501-520 | The unchecked reading loop visits exactly the records the parser accepted, in order; it stages each of them decoded and re-encoded, or stops with the status of the first that is refused. |
| Compaction.FeedIndex | src/api/fce_reader_api.c:521-536 | Draining a full scan stages one record per occupied cell under its stored key bytes, or stops with the status of the first that is refused. |
| Compaction.SourceCount | src/api/fce_reader_api.c:501-537 | The records a compaction reads are as many as the manifest counts. |
| Bytes.KeyBytesCmpIsLexicographic | src/core/fce_hash.c:43-49 | The memcmp-then-length comparison is exactly byte-wise lexicographic order with a proper prefix first, in all three signs. |
| Bytes.KeyLessIff | src/core/fce_hash.c:43-49 | Said without recursion: a proper prefix comes first, otherwise the first byte that differs decides. |
| Bytes.LeRoundTrip | src/core/fce_hash.c:3-11 | A number that fits its width is read back from its little-endian bytes. |
| Bytes.UnLeRoundTrip | src/core/fce_hash.c:3-11 | Any byte string is the little-endian writing of the number read from it. |
| Bytes.UnLeEight | src/core/fce_hash.c:3-7 | rd64 in numbers: byte i counts 256 to the i. |
| Records.CmpBuildByKeyIsTotal | src/core/fce_build_records.c:3-11 | cmp_build_by_key is a total preorder, so qsort may be used with it. |
| Records.DedupeRecords | src/core/fce_build_records.c:33-66 | Fails exactly when duplicates exist and are not allowed; otherwise the ascending list with the newest value of each key. |
| Records.LatestOfRun | src/core/fce_build_records.c:48-58 | The inner loop finds the end of a run of equal keys and its newest record, or stops at the second record when duplicates are refused. |
| Records.SurvivorsKeepTheMap | src/core/fce_build_records.c:33-66 | The deduplicated list has strictly increasing keys and the same last-put map as the puts. |
| Records.AscendingListingIsUnique | src/core/fce_build_records.c:40-61 | A map has only one listing with strictly increasing keys. |
| Records.PermutationSameMap | src/core/fce_build_records.c:13-21 | With distinct keys the order of the records does not matter to the map. |
| Records.WriteKeysValues | src/core/fce_build_records.c:68-112 | Succeeds exactly when every length fits 32 bits and both files fit; then every offset and length denotes its record in the concatenated files. Otherwise the status is that of the first record that cannot be stored. |
| Sorting.Qsort | src/core/fce_build_records.c:40 | Some permutation of its input that is ascending under a total preorder. |
| Sorting.SortedPermutationIsUnique | src/backends/fce_backend_mph.c:69 | Under an order without ties qsort has one possible outcome. |
| Format.PackRoundTrip | src/internal/fce_internal.h:58-67 | The fields of a struct are read back from its bytes. |
| Format.TableRoundTrip | src/api/fce_reader_api.c:19-20 | An array of structs written row by row is the array read by size / sizeof. |
| DiskLayout.SortedFile | src/internal/fce_internal.h:58-67 | Where every field of every entry of a sorted index lies: offsets into 48-byte rows. |
| DiskLayout.DirectFile | src/internal/fce_internal.h:69-77 | And of every slot of a direct table: slot k at 40 k. |
| DiskLayout.RadixFitsIff | src/backends/fce_backend_radix.c:117-154 | When the three arrays of a trie fill its file, in header bytes: the magic FCERADX1, 56, and sections of 16, 8 and 24 bytes a row end to end. |
| DiskLayout.RadixHeaderLies | src/internal/fce_internal.h:107-115 | The seven header words. |
| DiskLayout.RadixNodeLies | src/internal/fce_internal.h:117-122 | Where the fields of every node lie, wherever the header puts the section. |
| DiskLayout.RadixEdgeLies | src/internal/fce_internal.h:124-128 | The same of edges. |
| DiskLayout.RadixValueLies | src/internal/fce_internal.h:130-135 | The same of value slices. |
| DiskLayout.MphFitsIff | src/backends/fce_backend_mph.c:125-138 | When seeds and slots of a perfect hash fill its file: the magic FCEMPH1, 40, 8 bytes a seed, 48 a slot. |
| DiskLayout.MphFile | src/internal/fce_internal.h:79-100 | Where every seed and the fields of every slot lie. |
| DiskLayout.RecordLies | src/backends/fce_backend_log.c:143-151 | A log record byte by byte: the magic FCELOG1, two lengths, key, value, and the checksum of all that. |
| SortedIndex.CmpSortedEntryIsTotal | src/core/fce_build_records.c:13-21 | cmp_sorted_entry is a total preorder. |
| SortedIndex.FreezeSorted | src/backends/fce_backend_sorted.c:3-47 | Succeeds exactly when duplicates are absent or allowed, the records are storable and the index fits; the files then hold exactly the surviving records under their hashes, ordered by hash, then key length, then key offset. |
| SortedIndex.HashLessIff | src/core/fce_build_records.c:13-21 | Entries are ordered by the hash as one 128-bit number, high word first. |
| SortedIndex.GetSorted | src/backends/fce_backend_sorted.c:49-69 | On a hash-ordered table, lower bound plus equal-hash scan equals a linear search for the first entry with the hash and the key. |
| SortedIndex.SortedLookupIsLastPut | src/backends/fce_backend_sorted.c:49-69 | On a frozen index the lookup is the last-put map for any hash function, collisions included. |
| RadixTrie.WithEdgeIsTrie | src/backends/fce_backend_radix.c:36-48 | Inserting an edge at its sorted position with a fresh child keeps a rooted trie with strictly increasing labels. |
| RadixTrie.WalkReachesItsPath | src/backends/fce_backend_radix.c:215-219 | A node is reached by exactly the key that spells its path. |
| RadixTrie.WalkConcat | src/backends/fce_backend_radix.c:215-219 | Walking a concatenation is walking its parts. |
| RadixBuild.TrieBuilder.AddNode | src/backends/fce_backend_radix.c:3-17 | Appends one fresh node without value, and fails exactly when the index would not fit 32 bits. |
| RadixBuild.TrieBuilder.ScanLabels | src/backends/fce_backend_radix.c:22-24 | The position of the first label not below the wanted one. |
| RadixBuild.TrieBuilder.FindOrAddEdge | src/backends/fce_backend_radix.c:19-49 | Finds the child behind a label or adds it, keeping a trie whose paths only grow. |
| RadixBuild.TrieBuilder.InsertKey | src/backends/fce_backend_radix.c:85-88 | Ends at the node that spells the key; old nodes keep their paths and values, and only prefixes of the key are added. |
| RadixBuild.TrieBuilder.AddRecord | src/backends/fce_backend_radix.c:84-90 | After record i exactly the first i + 1 records are held, each at the end of its key. |
| RadixBuild.BuildTrie | src/backends/fce_backend_radix.c:75-105 | Succeeds exactly when the distinct key prefixes number at most UINT32_MAX; the trie then has one node per prefix and holds every record. |
| RadixFlat.FlattenTrie | src/backends/fce_backend_radix.c:136-152 | The flattened arrays, read back node by node, are the trie; first_edge is the running edge total. |
| RadixFlat.RadixFileRoundTrip | src/backends/fce_backend_radix.c:106-135 | The encoded sections are contiguous, fill the file and decode to the arrays. |
| RadixFlat.FreezeRadix | src/backends/fce_backend_radix.c:57-176 | Exact success condition, and files that hold a trie over exactly the surviving records. |
| RadixFlat.TrieViewIsSafe | src/api/fce_reader_api.c:37-59 | Flattened builder output passes every structural check of the reader. |
| RadixFlat.FindChild | src/backends/fce_backend_radix.c:189-206 | Binary search over the sorted edges of a node finds the child that a plain search finds. |
| RadixFlat.GetRadix | src/backends/fce_backend_radix.c:208-227 | On any arrays that pass the structural checks, tree or not, every access is in bounds and the result is the walk followed by the key check. |
| RadixFlat.RadixLookupIsLastPut | src/backends/fce_backend_radix.c:208-227 | On a frozen index the walk is the last-put map. |
| RadixFlat.WalkIsIndex | src/backends/fce_backend_radix.c:84-90 | The walk ends at a node carrying index i exactly when the query is the key of record i. |
| RadixScan.PrefixScan | src/api/fce_reader_api.c:248-279 | On every accepted index on which the search stays inside its arrays the scan ends with what the search gathers, every access in bounds. |
| RadixScan.TrieScanIsExact | src/api/fce_reader_api.c:248-279 | On a trie the scan returns exactly the indices whose key starts with the prefix, none twice. |
| RadixScan.TrieScanIsSafe | src/api/fce_reader_api.c:261-279 | On a trie the search ends and never leaves its stack of node_count entries or its match array. |
| RadixScan.OutcomeIsWalked | src/api/fce_reader_api.c:252-279 | On any accepted index the matches are exactly the values of the keys that start with the prefix and can be walked. |
| RadixScan.TrieSearch | src/api/fce_reader_api.c:270-279 | By induction over the rounds: from any frontier the search completes inside its arrays and gathers exactly the keys below the prefix, each once. |
| RadixScan.Descend | src/api/fce_reader_api.c:266-279 | The loop over the two arrays computes the search: same rounds, same matches. |
| RadixScan.Visit | src/api/fce_reader_api.c:273-278 | One round in a trie pops a node, records its value and pushes its children; stack and visited nodes stay disjoint and keep covering the subtree. |
| RadixScan.FrontierFits | src/api/fce_reader_api.c:266-278 | Stacked and visited nodes are all different, so the stack never exceeds node_count. |
| RadixScan.FrontierStep | src/api/fce_reader_api.c:273-278 | Replacing a node by its children keeps the stacked subtrees disjoint and exhaustive. |
| RadixScan.HarvestIsComplete | src/api/fce_reader_api.c:273-279 | With an empty stack the matches are exactly the keys below the prefix. |
| MphGroup.GroupByBucket | src/backends/fce_backend_mph.c:52-68 | The counting sort lists, in the segment of each bucket, exactly the records of that bucket in ascending order. |
| Mph.TrySeed | src/backends/fce_backend_mph.c:79-95 | A seed is accepted exactly when all its trial slots are free and different. |
| Mph.FindSeed | src/backends/fce_backend_mph.c:77-96 | The least seed in [1, 10^6) that fits, or none. |
| Mph.ByBucketDescIsTotal | src/backends/fce_backend_mph.c:3-8 | cmp_mph_bucket_desc is a total order, so the bucket order is determined. |
| Mph.PlaceAll | src/backends/fce_backend_mph.c:69-114 | Succeeds exactly when every bucket has a least suitable seed after the larger buckets, stores those seeds, and then every record sits in its own slot. |
| Mph.LargestFirst | src/backends/fce_backend_mph.c:3-8 | Whatever qsort does, the buckets are processed by falling number of members, those of one size by rising index. |
| Mph.GreedyIffLeast | src/backends/fce_backend_mph.c:69-117 | The search succeeds if and only if every bucket has a seed below 1000000 that gives its records slots of their own, none of them a slot of a larger bucket (or of one of its size with a lower index), and it stores the least such seed for each; empty buckets store 0. |
| Mph.HomeIsRemainder | src/backends/fce_backend_mph.c:19-22 | Bucket and slot are the remainders of the high hash word and of the seeded hash. |
| Mph.AllSlotsOwned | src/backends/fce_backend_mph.c:69-114 | Pigeonhole: n records in n different slots leave no slot free; slots and records correspond one to one. |
| Mph.MphFileRoundTrip | src/backends/fce_backend_mph.c:125-136 | Header, seeds and slots are contiguous, fill the file and decode to what was encoded. |
| Mph.FreezeMph | src/backends/fce_backend_mph.c:24-161 | Exact success condition, said over bucket members and slots alone; the seeds in the index file are the least ones, largest bucket first, and every slot holds one record whose lookup ends in that slot. |
| Mph.MphLookupIsLastPut | src/backends/fce_backend_mph.c:163-184 | On a frozen index every stored key finds its own value with one probe and every other key misses. |
| DirectTable.ScanKeys | src/backends/fce_backend_direct.c:8-16 | Fails exactly when some key is not 8 bytes, else the largest key number. |
| DirectTable.FillSlots | src/backends/fce_backend_direct.c:33-43 | Every record sits in the slot its key numbers and every other slot is empty. |
| DirectTable.FreezeDirect | src/backends/fce_backend_direct.c:3-67 | Exact success condition and status (8-byte keys, density or the sparse flag, addressable size), and files that hold exactly the surviving records. |
| DirectTable.KeyNumberOf | src/core/fce_hash.c:3-11 | The key that fce_builder_put_u64 writes for n is numbered n, for every n below 2^64. |
| DirectTable.TabularIff | src/backends/fce_backend_direct.c:14-25 | Records under the numbers up to m suit a table if and only if it is sparse or m + 1 is at most four times the number of records, and 40 (m + 1) bytes fit a file: m + 1 = 4n is accepted, 4n + 1 refused. |
| PutLaws.DirectFreezesIff | src/backends/fce_backend_direct.c:3-67 | The same of puts, before deduplication: exactly when a direct table can be frozen, from the put keys, their number and the flags alone. |
| PutLaws.DenseFreezes | src/backends/fce_backend_direct.c:20-25 | Puts under exactly the numbers 0 to n - 1, in any order, always freeze without the sparse flag. |
| PutLaws.SortedFreezesIff | src/backends/fce_backend_sorted.c:3-47 | Puts of storable size freeze into a sorted index exactly when no key repeats (or that is allowed) and 48 bytes for each different key fit a file. |
| PutLaws.RadixFreezesIff | src/backends/fce_backend_radix.c:57-95 | And into a trie exactly when the keys have fewer than 2^32 different prefixes, of which there are at most one more than key bytes. |
| PutLaws.LogFreezesIff | src/backends/fce_backend_log.c:3-29 | A log freezes exactly when 32 bytes for each put and all key and value bytes fit a file. |
| PutLaws.SurvivorsAreTheKeys | src/core/fce_build_records.c:33-66 | Deduplication keeps one record for each different key. |
| DirectTable.DirectLookupIsLastPut | src/backends/fce_backend_direct.c:69-80 | On a frozen table the slot lookup of an 8-byte key is the last-put map. |
| Codecs.FceCodecEncode | src/codecs/fce_codecs.c:16-104 | The dispatch with all its length checks computes the encoding function of the codec, whose domain and formats are the next rows. |
| Codecs.EncodeAccepts | src/codecs/fce_codecs.c:7-100 | What an encoder accepts, of every input of 32-bit size: pass-through codecs everything, handed back as it is; rle and bitpack whole words; delta_i32 whole words whose neighbours differ by an int32_t; zstd nothing; with the status otherwise. |
| CodecFormats.DeltaFormat | src/codecs/fce_codecs.c:21-41 | delta_i32 writes exactly the first element and then each element less the one before it. |
| CodecFormats.DeltaDecodes | src/codecs/fce_codecs.c:111-131 | And its decoder answers exactly the array that encodes to its input. |
| CodecFormats.RleFormat | src/codecs/fce_codecs.c:42-61 | rle writes the count and then value and count of each maximal run: the pairs spell the input, no count is 0, neighbours differ. |
| CodecFormats.RleDecodes | src/codecs/fce_codecs.c:132-156 | The rle decoder accepts exactly pairs that spell as many elements as announced, maximal or not, and answers what they spell. |
| CodecFormats.BitpackFormat | src/codecs/fce_codecs.c:62-85 | bitpack writes count, least width and payload: bit b of word i is bit i * width + b of the payload, eight to a byte from the lowest. |
| CodecFormats.BitpackAccepts | src/codecs/fce_codecs.c:157-164 | The bitpack decoder accepts exactly a header that agrees with the length. |
| CodecFormats.BitpackDecodes | src/codecs/fce_codecs.c:165-177 | And unpacks by the same positions, whatever the width. |
| Words.ReadsWord | src/codecs/fce_codecs.c:24 | Native 32-bit words are four bytes, the least significant first; signed ones are two's complement. |
| Codecs.FceCodecDecode | src/codecs/fce_codecs.c:106-200 | The dispatch with all its checks computes the decoding function of the codec. |
| Codecs.RoundTrip | src/codecs/fce_codecs.c:106-200 | What a codec encoded decodes to itself exactly when the element count survives its int32 cast (only rle can fail). |
| Codecs.NeverDecodesWrong | src/codecs/fce_codecs.c:132-156 | A codec never decodes its own output to something else; what it cannot recover it refuses. |
| Codecs.EncodeInjective | src/codecs/fce_codecs.c:16-104 | Every encoder is injective on what it accepts, even where decoding fails. |
| Codecs.BitPackedSize | src/codecs/fce_codecs.c:66-83 | Bitpack output is exactly 16 + ceil(n*w/8) bytes for the least width w >= 1 holding every element. |
| Codecs.RunLengthRoundTrip | src/codecs/fce_codecs.c:42-61 | Rle output is at most 4 + 8n bytes and decodes back exactly when n <= INT32_MAX. |
| Delta.EncodeDelta | src/codecs/fce_codecs.c:21-41 | The loop stores first value and differences, and refuses exactly when a difference overflows 32 bits. |
| Delta.DecodeDelta | src/codecs/fce_codecs.c:111-131 | The loop stores running sums, and refuses exactly when one overflows 32 bits. |
| Delta.DeltaInverse | src/codecs/fce_codecs.c:21-41 | Encode and decode are mutually inverse partial maps: each accepts exactly the outputs of the other. |
| Rle.EncodeRle | src/codecs/fce_codecs.c:42-60 | The nested loops write the count word and one value-count pair per maximal run of at most INT32_MAX elements. |
| Rle.ScanRun | src/codecs/fce_codecs.c:51-53 | The inner loop stops at the end of the run. |
| Rle.DecodeRle | src/codecs/fce_codecs.c:132-155 | The nested loops spell out the pairs and refuse negative counts and wrong totals. |
| Rle.RleRoundTrip | src/codecs/fce_codecs.c:132-156 | The round trip holds if and only if the array has at most INT32_MAX elements. |
| Rle.RleOverflowRefused | src/codecs/fce_codecs.c:48 | Past INT32_MAX elements the stored count wraps and the decoder refuses the output. |
| Rle.RleInjective | src/codecs/fce_codecs.c:42-61 | The pairs alone determine the array. |
| Bitpack.EncodeBitpack | src/codecs/fce_codecs.c:62-85 | The maximum, width and bit loops with bit-or into a zeroed buffer write the header and the bit stream cut into bytes. |
| Bitpack.FindWidth | src/codecs/fce_codecs.c:66-70 | The loops find the width. |
| Bitpack.LeastWidthIsWidth | src/codecs/fce_codecs.c:68-70 | The width is the least w >= 1 with every element below 2^w, and at most 32. |
| Bitpack.PackWord | src/codecs/fce_codecs.c:78-81 | The inner loop appends the low w bits of one number to the stream in the buffer. |
| Bitpack.DecodeBitpack | src/codecs/fce_codecs.c:157-177 | The header checks in 64-bit arithmetic and the bit loops compute the decoding function. |
| Bitpack.UnpackWord | src/codecs/fce_codecs.c:170-171 | The inner loop gathers the next w bits of the stream as a number. |
| Bitpack.BitpackRoundTrip | src/codecs/fce_codecs.c:157-177 | Decoding undoes encoding for every array that fits in memory. |
| Bitpack.CutStream | src/codecs/fce_codecs.c:78-81 | Numbers laid end to end as w-bit groups are recovered by cutting the stream, whatever padding follows. |
| Crc.UpdateByte | src/core/fce_crc.c:7-11 | The eight masked steps are the eight conditional steps of the register. |
| Crc.Crc64Update | src/core/fce_crc.c:3-14 | The byte loop between two complements computes the update function. |
| Crc.Crc64File | src/core/fce_crc.c:16-25 | Reading in buffers of 8192 gives the checksum of the whole file. |
| CrcLaws.CheckValue | src/core/fce_crc.c:3-14 | The generator pinned by its published check value: the digits 1 to 9 have the checksum 0x995DC9BBDF1939FA. |
| CrcLaws.Residue | src/core/fce_crc.c:3-25 | For every file: with its own checksum appended, least significant byte first, the checksum is the one residue 0xB66A73654282CAC0. |
| Crc.CrcConcat | src/core/fce_crc.c:3-14 | Chaining the update over pieces equals one pass over their concatenation. |
| CrcWord.StepLinear | src/core/fce_crc.c:9-10 | One step distributes over exclusive or. |
| Crc.TurnUndoesLift | src/core/fce_crc.c:8-11 | Eight steps of a value shifted up by a byte give the value back: the reflected register shifts the low byte out. |
| CrcAlgebra.BurstChangesFold | src/core/fce_crc.c:6-12 | Any register with these algebraic laws tells apart streams that differ only inside a window of at most eight bytes. |
| Crc.BurstChangesCrc | src/core/fce_crc.c:3-25 | Any change confined to at most eight consecutive bytes changes the checksum. |
| Crc.BurstChangesCrc64 | src/core/fce_crc.c:3-25 | The same for the 64-bit number that the manifest stores. |
| Log.LogRoundTrip | src/backends/fce_backend_log.c:31-72 | The parser accepts what the writer prints exactly when every length fits 32 bits (the writer does not check), and then recovers exactly those records in order. |
| Log.ParseRows | src/backends/fce_backend_log.c:38-68 | On any file made of framed rows the parsing loop returns the rows in order, or fails if one of them is not parseable. |
| Log.ParsePrinted | src/backends/fce_backend_log.c:40-56 | A printed record parses to its own key and value slices. |
| LogCache.FrameRecord | src/backends/fce_backend_log.c:10-18 | Header, key, value and a checksum chained over the three are the framed record. |
| LogCache.FreezeLog | src/backends/fce_backend_log.c:3-29 | The framed records end to end with their count, size and checksum, or an I/O error exactly when the file would be too large. |
| LogCache.LogDir.Append | src/backends/fce_backend_log.c:97-175 | A manifest that is not a log is refused; codec errors change nothing; success appends one framed record and rewrites count, size and checksum; a failed write leaves the manifest and a log with the old bytes as prefix. With room in the file an append succeeds exactly when both codecs accept. |
| LogCache.FreezeThenAppend | src/backends/fce_backend_log.c:97-175 | A freeze followed by any appends leaves the very log bytes, count, size and checksum of one freeze of all records. |
| Appending.AppendTo | src/backends/fce_backend_log.c:97-175 | An append to a cache directory touches the log and its fields of the manifest only, as LogDir.Append says. |
| Appending.AppendStep | src/backends/fce_backend_log.c:143-173 | One successful append to a frozen log directory leaves the frozen directory of one more record. |
| Appending.FreezeAppendGet | src/backends/fce_backend_log.c:97-175 | Freeze, append, open, get: the newest put answers, staged or appended, with its original bytes exactly when they survive the value codec. |
| LogIndex.CmpLogIndexEntryIsTotal | src/core/fce_build_records.c:23-31 | cmp_log_index_entry is a total preorder. |
| LogIndex.BuildLogIndex | src/backends/fce_backend_log.c:31-72 | Accepts exactly what parses with the manifest count; the index has one entry per record, in hash order. |
| LogIndex.ReadEntries | src/backends/fce_backend_log.c:36-67 | The parsing loop fills one entry per record, with its hash and position. |
| LogIndex.GetLog | src/backends/fce_backend_log.c:74-95 | Binary search to the first equal hash and the scan of its run equal the linear search for the matching entry of greatest order. |
| LogIndex.LogLookupIsLastPut | src/backends/fce_backend_log.c:74-95 | On the index of a log, the lookup is the newest record under the key, for any hash function. |
| Schemas.CanonicalKeys | src/core/fce_schema.c:49-54 | A valid schema has a pass-through key codec wherever slots, tries, prefixes or ranges look at key bytes. |
| Schemas.SchemaOkIff | src/core/fce_schema.c:46-55 | Exactly the schemas that a builder or reader accepts: a fixed size of a 64-bit key is 8 and of a 128-bit key 16, fixed records name their size, direct tables have 64-bit keys, and what looks into key bytes has a pass-through key codec. |
| Validation.CheckFile | src/api/fce_reader_api.c:6-16 | A file passes exactly when its size matches and, unless empty, its checksum does. |
| Validation.ValidateSorted | src/api/fce_reader_api.c:17-25 | Accepts exactly a whole number of entries, as many as counted, all in range. |
| Validation.ValidateNode | src/api/fce_reader_api.c:42-53 | Accepts exactly an in-range edge slice with in-range children and strictly increasing labels, and an in-range value. |
| Validation.ValidateNodes | src/api/fce_reader_api.c:40-54 | All nodes pass, and the terminals are counted. |
| Validation.CheckRadixHeader | src/api/fce_reader_api.c:27-36 | The checks in wrapping uint64 arithmetic; without overflow they accept exactly contiguous sections that fill the file, and with overflow what they accept never fits the file. |
| Validation.RadixHeaderFitsIff | src/api/fce_reader_api.c:30-36 | An accepted radix header describes sections that fill the file if and only if no section size overflows. |
| Validation.ValidateRadix | src/api/fce_reader_api.c:26-59 | On any file: accepts exactly those on which lookups are safe and whose counts agree, and says exactly when the checking loops themselves would read outside the file. |
| Validation.ValidateDirect | src/api/fce_reader_api.c:60-69 | Accepts exactly whole slots, as many present as counted, all in range. |
| Validation.CheckMphHeader | src/api/fce_reader_api.c:70-77 | The checks in wrapping uint64 arithmetic; without overflow they accept exactly contiguous sections that fill the file. |
| Validation.MphHeaderFitsIff | src/api/fce_reader_api.c:73-77 | An accepted perfect-hash header describes sections that fill the file if and only if no section size overflows. |
| Validation.ValidateMph | src/api/fce_reader_api.c:70-87 | On any file: accepts exactly contiguous sections with every slot present and in range, and says exactly when the slot loop would read outside the file. |
| Validation.ValidateReaderFiles | src/api/fce_reader_api.c:3-89 | Accepts exactly when sizes, checksums and the structure of the backend are right, leaves the file exactly when an intact file makes its backend check run off, and refuses otherwise. |
| ValidationLimits.NoOverflowStaysInside | src/api/fce_reader_api.c:26-87 | When no section size overflows, validation never reads outside the file, whatever the file holds. |
| ValidationLimits.MphOverflowRunsOffIff | src/api/fce_reader_api.c:70-87 | With overflowing counts a perfect-hash file is never accepted; validation leaves the file if and only if no readable slot is out of range. |
| ValidationLimits.RadixOverflowIsNotAccepted | src/api/fce_reader_api.c:26-59 | With overflowing node or value counts a radix file is never accepted. |
| ValidationLimits.WrappingRadixRunsOff | src/api/fce_reader_api.c:30-42 | A 72-byte file with 2^60 + 1 nodes passes the header checks although its sections do not fit, and the node loop leaves the file. |
| ValidationLimits.WrappingMphRunsOff | src/api/fce_reader_api.c:73-83 | A 40-byte file with 2^61 slots passes the header checks and the slot loop leaves the file. |
| ValidationLimits.DirectoryThatRunsOff | src/api/fce_reader_api.c:3-89 | Under every valid radix or perfect-hash schema such a file can sit in a directory with matching sizes and checksums. |
| Reader.Open | src/api/fce_reader_api.c:91-128 | Opens exactly the directories that pass schema, checksum, structure and log parsing, with the exact status otherwise, unless validation itself leaves the index file. |
| Reader.BuilderOutputIsStructured | src/api/fce_reader_api.c:17-87 | The files frozen by every index backend satisfy every structural check. |
| Reader.FrozenIndexOpens | src/api/fce_reader_api.c:6-16 | A frozen index opens exactly when no non-empty log of another backend was left in the directory. |
| Reader.FrozenLogOpens | src/api/fce_reader_api.c:6-16 | A frozen log opens exactly when no index files were left behind and every encoded length fits 32 bits. |
| Reader.BurstIsCorrupt | src/api/fce_reader_api.c:13-16 | Any change inside a window of eight bytes of any data file, length unchanged, makes the cache fail to open. |
| ReaderGet.GetCanonical | src/api/fce_reader_api.c:134-153 | Safe on every reader that opened; on frozen files the five searches give the last put, NOT_FOUND, or INVALID_ARGUMENT for a direct key that is not 8 bytes. |
| ReaderGet.FceReaderGet | src/api/fce_reader_api.c:155-186 | Encodes the key, looks it up and decodes the value, with every error passed on; a direct table, whatever its files hold, answers INVALID_ARGUMENT to a key that is not 8 bytes. |
| ReaderGet.LastPutEncoded | src/api/fce_reader_api.c:161-165 | Because encoders are injective, the newest put of an encoded key is the encoded newest put. |
| ReaderGet.GetThroughCodecs | src/api/fce_reader_api.c:155-186 | A lookup answers in the original bytes although storage and comparison see only encoded bytes, exactly when the value is recoverable. |
| Scans.Iterator.Next | src/api/fce_reader_api.c:390-457 | The next match with its key as stored and its value decoded; the position advances by one even past a match that fails, and NOT_FOUND at the end changes nothing. |
| Scans.ScanAll | src/api/fce_reader_api.c:348-388 | The occupied positions of the table in order; a log is unsupported. |
| Scans.FullScanFindsAll | src/api/fce_reader_api.c:348-388 | On frozen files a full scan lists every record exactly once. |
| Scans.RangeScan | src/api/fce_reader_api.c:293-346 | Exactly the positions with start <= key < end in table order, or UNSUPPORTED for other backends and non-canonical keys. |
| Scans.RangeScanFinds | src/api/fce_reader_api.c:313-343 | On frozen files a range scan lists exactly the records in [start, end), each once, and in ascending order on a radix index. |
| Scans.FilterCells | src/api/fce_reader_api.c:326-343 | The filtering loop collects exactly the wanted positions, ascending. |
| Scans.FcePrefixScan | src/api/fce_reader_api.c:226-291 | On any accepted files - on a radix index, any whose search stays inside its arrays - the iterator lists the entries whose key starts with the prefix, or the values of the keys that do and can be walked; other backends are unsupported. |
| Scans.PrefixScanFinds | src/api/fce_reader_api.c:226-291 | On frozen files every prefix scan stays inside its arrays and lists exactly the records whose key starts with the prefix, each once. |
| ScanLaws.DrainedScanYields | src/api/fce_reader_api.c:390-457 | Draining an iterator of a frozen index yields, for each wanted key that was put, exactly one item: the stored key with the original bytes of its last put, or an error when these do not survive the value codec. |
| ScanLaws.Drain | src/api/fce_reader_api.c:524-533 | Calling next until NOT_FOUND visits every match once, in order, past those that fail. |
| ScanLaws.ScanEverything | src/api/fce_reader_api.c:348-388 | A drained full scan yields every key that was put. |
| ScanLaws.ScanBelow | src/api/fce_reader_api.c:226-291 | A drained prefix scan yields exactly the keys whose stored bytes start with the prefix. |
| ScanLaws.ScanBetween | src/api/fce_reader_api.c:293-346 | A drained range scan yields exactly the keys in [start, end). |
| ScanLimits.SearchEndsIff | src/api/fce_reader_api.c:266-279 | On any links that validation accepts, the stack search below a node ends if and only if no cycle can be reached from it. |
| ScanLimits.StaysInsideIff | src/api/fce_reader_api.c:239-278 | On any links that validation accepts, the search ends without leaving its stack of node_count entries or its match array if and only if no cycle can be reached and its peak and its hits, computed along the edges, fit them. |
| ScanLimits.PeakAndHitsDecide | src/api/fce_reader_api.c:239-278 | Where no cycle can be reached the search stays inside exactly when peak and hits fit, along any falling rank. |
| ScanLimits.ScanIsSafeIff | src/api/fce_reader_api.c:239-278 | A prefix scan of an accepted file stays inside its arrays if and only if the prefix leads nowhere or the search below the node it leads to fits. |
| ScanLimits.LoopIsAccepted | src/api/fce_reader_api.c:37-59 | A file with one node that is its own child passes validation, and a prefix scan of it never ends. |
| ScanLimits.FanIsAccepted | src/api/fce_reader_api.c:266-277 | A file with three edges to one leaf passes validation, its search ends, and the stack of two entries is overrun. |
| ScanLimits.TwinIsAccepted | src/api/fce_reader_api.c:239-275 | A file with two edges to one leaf that carries the only value passes validation, its search ends and fits the stack, and the match array of one entry is overrun. |
| Builders.Builder.Grow | src/api/fce_builder_api.c:3-12 | Makes room for one record by doubling from 64 and keeps what is staged; fails exactly when 2^58 records are staged. |
| Builders.Builder.Put | src/api/fce_builder_api.c:39-68 | Stages the encoded pair with its position as order, or leaves the staged records as they were with the exact status: refusal, no room, or the codec error. Without naming the encoder: it succeeds exactly when the builder is not frozen, has room below 2^58 records, the fixed sizes are met and both codecs accept; a wrong fixed size is INVALID_ARGUMENT. |
| Builders.Builder.Freeze | src/api/fce_builder_api.c:92-120 | Freezes at most once, succeeds exactly when the backend accepts the staged records, with the exact status otherwise, and then the directory holds them. |
| Builders.FreezeIndex | src/api/fce_builder_api.c:97-109 | The switch over the index backends, with the exact condition of success. |
| Builders.FrozenIsServed | src/api/fce_builder_api.c:92-120 | Any reader that opens a frozen directory serves exactly the staged records. |
| Locks.AppendsLoseNothing | src/backends/fce_backend_log.c:97-175 | Over every run of any threads and processes, refused appends included, no two writers are inside together, and whenever no append is between log and manifest, log, count, size and checksum are those of one freeze of all records appended so far. |
| LockProgress.LocksHaveHolders | src/core/fce_file.c:61-160 | On every run a record lock that is not free belongs to a thread of its process that is inside, an exclusive one to a writer: a release frees the lock. |
| LockProgress.NoDeadlock | src/core/fce_file.c:61-160 | In every state of every run in which some thread is under way, some thread can go on. |
| LockProgress.AppendCompletes | src/backends/fce_backend_log.c:97-175 | From every state of a run in which all threads are idle any thread can append any record, every step allowed; then all are idle, every lock is free, the record is the newest, and log and manifest are those of one freeze. |
| LockProgress.RefusedAppendLeaves | src/backends/fce_backend_log.c:97-124 | An append that is refused can leave as well, and nothing has changed. |
| LockProgress.ReadersShare | src/core/fce_file.c:61-160 | Without a writer any idle thread can read, however many readers are inside, and nothing changes. |
| Locks.AppendedStays | src/backends/fce_backend_log.c:143-168 | An append that has reached the log is in every later log. |
| Locks.WritersExclude | src/core/fce_file.c:61-160 | Two writers never hold the lock together, in one process or in several. |
| Locks.ExclusionKept | src/core/fce_file.c:61-160 | Every step of acquire and release keeps the exclusion invariant. |
| Locks.RecordedKept | src/backends/fce_backend_log.c:103-173 | Every step keeps log, manifest and in-flight append consistent. |
| Locks.LoneReadersAreSafe | src/core/fce_file.c:137-160 | While no process has two shared holders at once, readers and writers exclude each other and a reader sees a log and a manifest that belong together. |
| Locks.ReaderLosesItsLock | src/core/fce_file.c:148-155 | A run in which closing one reader drops the record lock of another reader of the same process and a writer of another process enters beside it. |
| Locks.ReadersExcludedIff | src/core/fce_file.c:137-160 | Reader-writer exclusion holds on every run if and only if all threads share one process or no two threads do. |
| MemoryRuns.EveryRunBalances | src/core/fce_memory.c:117-285 | After any calls with any number of arenas, failures included: total allocations are frees plus active ones, active bytes are the size sum of the list, the peak is the largest total ever reached (attained, 0 at the start), and every listed block has exactly one owner. |
| MemoryRuns.NothingLeaks | src/core/fce_memory.c:117-285 | On any run, nothing is active if and only if the client has released its own blocks and destroyed its arenas. |
| MemoryRuns.DestroyIsExact | src/core/fce_memory.c:262-285 | Destroying one arena of many releases each of its blocks once; all other blocks stay listed and every other arena still owns its own. |
| MemoryRuns.OpKeeps | src/core/fce_memory.c:117-285 | Every call, also one that fails half way, keeps a legal history (nothing is released or moved that is not allocated) and one owner for every block. |
| MemoryRuns.Play | src/core/fce_memory.c:117-285 | The calls on the real lists and counters end in the state of the run, for any sequence of calls. |
| Memory.LegalHistory | src/core/fce_memory.c:108-115 | Over every legal history allocations are frees plus active ones, no address is listed twice, and the total size never exceeds the peak. |
| Memory.PeakIsLargest | src/core/fce_memory.c:112-114 | The peak is the least upper bound of the total sizes over the whole history, the empty one included. |
| Memory.Allocator.FindAllocation | src/core/fce_memory.c:93-106 | The first list node of a pointer, or the proof that there is none. |
| Memory.Allocator.Xmalloc | src/core/fce_memory.c:117-134 | One allocation in front of the list and in the history, counters and peak following, or no change at all when either malloc fails. |
| Memory.Allocator.Free | src/core/fce_memory.c:176-193 | Unlinks the node of a tracked pointer and counts one free; an untracked pointer changes nothing; the peak stays. |
| Memory.Allocator.Xrealloc | src/core/fce_memory.c:144-174 | Replaces the node in place and raises the peak if needed, is malloc for NULL and free for size 0, and changes nothing when it fails. |
| Arenas.Arena.Create | src/core/fce_memory.c:203-213 | One block for the arena, released again when its lock cannot be made. |
| Arenas.Arena.Alloc | src/core/fce_memory.c:215-236 | The block and its list node are allocated and owned, in front of an otherwise unchanged list; on any failure both are released again. |
| Arenas.Arena.RegisterCleanup | src/core/fce_memory.c:245-260 | The cleanup is pushed in front, with one node in front of an otherwise unchanged list; on any failure nothing is kept. |
| Arenas.Arena.Destroy | src/core/fce_memory.c:262-285 | Cleanups run once each, newest first, and exactly the owned blocks are released, one by one, the arena last. |
| Arenas.WithoutAllTracks | src/core/fce_memory.c:272-284 | After the frees none of the owned blocks is tracked and every other allocation is. |

## Left out

- Builders.Builder.Freeze: the minimal perfect hash is stated for fewer than 2^32 surviving records, because its builder casts record counts and indices to 32 bits without a check.
- Compaction.Compact: the same bound on the record count of the source when the target is a minimal perfect hash.
- Reader.Open: where validation of an intact file with overflowing counts leaves the file, the C code has no defined outcome and the model answers an error without promising its status.
- Scans.FcePrefixScan: where the search of a radix index would leave its arrays (ScanLimits.ScanIsSafeIff) the C code has no defined outcome, and the model promises none.
- Rle.DecodeRle: stated for an odd number of words; on an even number, which no encoder writes, the C code reads one word past its input. Codecs.FceCodecDecode answers CORRUPT there, and so do lookups, iterators and compactions on a cache that the library did not write.
- Codecs.FceCodecEncode: zstd is a foreign library and behaves as in a build without it (UNSUPPORTED); buffers larger than the address space are answered with OUT_OF_MEMORY.
- LogCache.LogDir.Append: after a failed write only the manifest and the old bytes of the log are known; crash recovery is not modelled.
- Arenas.Arena.Destroy: a cleanup releases its context block and nothing else, which is what the engine registers; arbitrary callbacks are not modelled.
- Locks.AppendsLoseNothing: one cache directory, successful I/O, and POSIX locks; the Windows lock and lock-acquisition failures are not modelled.
- Growth of temporary arrays and out-of-memory branches in the backends; the builder's own growth is modelled.
- Which of the data files a failed freeze has already overwritten.
- mmap, stdio buffering, path joining, directory creation.
- The planner, manifest flag packing, version and endian tags, schema hash and SCHEMA_MISMATCH, status strings, `fce_inspect`, the copy, batch and u64/u128 convenience calls: branch tables or wrappers that add only easy members.
- The FNV and mixing arithmetic of the hashes, and the probability that the seed search succeeds; failure is a possible outcome.
- The CLI, the Python binding, the SQLite and LMDB bridges and the build files.
- The duplicate check and fixed-size checks for log appends, which the code does not perform.
