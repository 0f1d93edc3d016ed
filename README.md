# transparentlog: a verified model of the Merkle-tree engine

This project models the core of the Rust crate `transparentlog_core`, a
transparent (append-only, tamper-evident) log in the style of Russ Cox's tlog.

Records are appended to the log. Their leaf hashes form a binary Merkle tree,
in which level `k` holds `n >> k` complete nodes for a log of `n` records. A
client trusts one tree head `(size, root)`. It checks a record with an
inclusion proof, and it moves to a newer head only after a consistency
("prefix") proof.

The tree shape is the largest-power-of-two split of section 2.1 of RFC 6962.
The hashing is the crate's own:

- an interior node is the digest of the two children's hex strings
  concatenated, with no domain-separation prefix;
- a node whose right child is missing carries its left child's hash up
  unchanged;
- the empty string stands both for "no node" and for the root of the empty log.

The model has seven modules (plus `Wrappers`):

- `Hashing` holds the vocabulary: hashes, tree heads, records, errors, and the
  digest and codec parameters.
- `Arith` holds powers of two, `ceil(log2 n)`, and `Shift(n, k)`, which is
  `n >> k`.
- `TreeMath` models `tree_sizes`, `proof_positions`, `proof_step` and
  `prefix_proof_positions` as methods with their loops. Each is proved against
  a specification function. `proof_step`, and with it `proof_positions` and
  `prefix_proof_positions`, comes in two variants: as written, and corrected
  (see "Findings").
- `Merkle` models `calc_hash`, `verify` and `verify_tree`. It also holds a
  reference tree hash (`SubtreeHash`, `Root`) and the round-trip theorems,
  which hold for the corrected positions:
  - faithful stored hashes at the proof positions rebuild the root;
  - `verify` accepts exactly the records that fit the root;
  - a prefix proof rebuilds the new root, and accepts a trusted root exactly
    when it is the root of the prefix.

  For the positions as written, counterexamples show an honest record and an
  honest head that are rejected.
- `FileStore` models the hash files of `FileLog`: the binary-counter carry of
  `push_hash`, the peak fold of `latest`, and `append`, `get` and `proofs`. It
  proves that after any sequence of appends, level `k` holds exactly the
  complete nodes of level `k` of the tree, and that `latest` returns the root
  `calc_hash` rebuilds.
- `Memory` models the `InMemoryLog` (records plus a per-level hash table), the
  client and its builder.
- `Protocol` models `get_proofs` and `check_record`, as written and corrected.
  For the corrected `check_record` it proves three things. The client
  protocol is correct against an honest log. A trusted head that is not a
  prefix of the log is refused whenever the client checks a record at or
  past the trusted size, and the client keeps it. A cache that holds
  only true node hashes still holds only true node hashes after every
  `check_record`.

SHA-256 and MessagePack are not modelled. Every operation takes a digest
function `d` and a codec as parameters. The general theorems hold for every
digest that never returns the empty string; that is the only fact about the
digest they use. The counterexamples use one concrete digest, `Dot`, which
appends "." to its input: `Merkle.Seven*`,
`Merkle.AsWrittenConsistencyRejects5To15`,
`FileStore.ServedAsWrittenConsistencyRejects5To15`,
`Protocol.AsWrittenConsistencyFails5To15`, and the 5-of-15 clauses of
`Protocol.RefreshHeadAsWritten` and `Protocol.CheckRecordAsWritten`. The
integer type `LogSize` is `nat`.

The in-memory log in `memory.rs` implements a newer trait (`size`, `add`,
`add_hash`, `get_hash`) than the tuple-based `TransparentLog` of `base.rs`
(`append`, `latest`, `get`, `proofs`). The default methods of that newer trait
are not part of this model. The in-memory log is therefore modelled through
its own operations only. `check_record` runs over `FileLog`, which implements
the trait shown in `base.rs`.

## Model

| member | source | states |
|---|---|---|
| Hashing.Combine | transparentlog_core/src/base.rs:199-209 | a missing ("") right child yields the left hash unchanged; otherwise the digest of left ++ right; never "" when the left child is not |
| Hashing.NodeHash | transparentlog_core/src/base.rs:207-209 | an interior node's hash is never "" under a digest that never returns "" |
| Hashing.LeafHash | transparentlog_core/src/base.rs:87-91 | a record's leaf hash is the digest of its serialisation and is never "" |
| TreeMath.TreeSizes | transparentlog_core/src/base.rs:94-114 | the loop returns LevelSizes(size): entry k is size >> k, one entry per level; empty exactly when size is 0 |
| TreeMath.LevelSizesShape | transparentlog_core/src/base.rs:94-114 | there are 1 + ceil(log2 n) entries (none for n = 0); entry k is n >> k; entry 0 is n |
| TreeMath.LevelSizesHalve | transparentlog_core/src/base.rs:101-109 | each level holds half the count of the one below, rounded down |
| TreeMath.HalveLevel | transparentlog_core/src/base.rs:102-108 | one loop round, including its 1 -> 0 special case, moves from n >> k to n >> (k + 1) |
| TreeMath.TreeSizesExit | transparentlog_core/src/base.rs:101 | when the loop stops after k rounds, k is ceil(log2 size) |
| TreeMath.TopLevelSize | transparentlog_core/src/base.rs:94-114 | the last entry is at most 1, and it is 1 exactly when n is a power of two |
| TreeMath.HeightMonotone | transparentlog_core/src/base.rs:94-114 | a larger log never has fewer levels |
| TreeMath.SizesExamples | transparentlog_core/src/base.rs:226-244 | tree_sizes of 0, 7, 8, 13 and 16 are [], [7,3,1,0], [8,4,2,1], [13,6,3,1,0], [16,8,4,2,1] |
| TreeMath.ProofStepAsWritten | transparentlog_core/src/base.rs:128-151 | the recursion, as written with its break, adds exactly PathProofAsWritten(level, index) to the set |
| TreeMath.ProofStep | transparentlog_core/src/base.rs:128-151 | the corrected recursion adds exactly PathProof(level, index): at odd indices the left sibling; at even ones the right sibling, or every complete node under a partial right sibling |
| TreeMath.ProofPositionsAsWritten | transparentlog_core/src/base.rs:117-125 | proof_positions as written returns ProofPositionSetAsWritten(index, size), which is empty for size 0 |
| TreeMath.ProofPositions | transparentlog_core/src/base.rs:117-125 | the corrected proof_positions returns ProofPositionSet(index, size), which is empty for size 0 |
| TreeMath.SpanBelowComplete | transparentlog_core/src/base.rs:134-143 | the walk under a partial sibling names only complete nodes of lower levels, including the one node the as-written walk keeps |
| TreeMath.PathProofComplete | transparentlog_core/src/base.rs:128-151 | every position of the path proof is a complete node; the as-written path proof is contained in the corrected one |
| TreeMath.ProofPositionsComplete | transparentlog_core/src/base.rs:117-151 | for index <= size, every (l, i) returned names a level of tree_sizes(size) and has i < tree_sizes(size)[l] |
| TreeMath.PastEndPositionsAgree | transparentlog_core/src/base.rs:124-150 | for the index just past the end of the tree, proof_positions as written and corrected give the same set, for every size |
| TreeMath.AsWrittenWithinCorrected | transparentlog_core/src/base.rs:134-143 | the as-written positions are always a subset of the corrected positions |
| TreeMath.LowestPeak | transparentlog_core/src/base.rs:163-168 | at most one position, (l, sizes[l] - 1), where l is the lowest level below the top with an odd count (every level under it is even); empty exactly when no level below the top is odd |
| TreeMath.AddLowestPeak | transparentlog_core/src/base.rs:161-168 | the loop adds the lowest peak to the set and nothing else, stopping at the first odd level below the top |
| TreeMath.PrefixProofPositionsAsWritten | transparentlog_core/src/base.rs:154-170 | fails with the assertion exactly when not 0 < size1 < size2; otherwise returns the as-written proof_positions(size1) ∪ proof_positions(size1 - 1) ∪ the lowest peak |
| TreeMath.PrefixProofPositions | transparentlog_core/src/base.rs:154-170 | corrected: fails with the assertion exactly when not 0 < size1 < size2; otherwise returns the corrected proof_positions(size1) ∪ proof_positions(size1 - 1) ∪ the lowest peak |
| TreeMath.ProofPositionsExample13 | transparentlog_core/src/base.rs:249-254 | (9, 13) gives {(0,8),(1,5),(3,0),(0,12)}, as written and corrected |
| TreeMath.ProofPositionsExample8 | transparentlog_core/src/base.rs:255-259 | (7, 8) gives {(0,6),(1,2),(2,0)}, as written and corrected |
| TreeMath.ProofPositionsExample12 | transparentlog_core/src/base.rs:248-263 | (12, 13) gives {(3,0),(2,2)} and (0, 0) gives the empty set, as written and corrected |
| TreeMath.ProofPositionsExample16 | transparentlog_core/src/base.rs:265-270 | (9, 16) gives {(3,0),(2,3),(1,5),(0,8)}, as written and corrected |
| TreeMath.ProofPositionsExample7 | transparentlog_core/src/base.rs:134-143 | (0, 7) as written is {(0,1),(1,1),(1,2)}; corrected it also contains (0,6) |
| TreeMath.ProofPositionsExample6And7Of13 | transparentlog_core/src/base.rs:158-159 | the two inclusion parts of the (7, 13) prefix proof: as written {(0,6),(1,2),(2,0),(2,2)} and {(0,7),(1,2),(2,0),(2,2)}; corrected, each also contains (0,12) |
| TreeMath.ProofPositionsExample6And7Of16 | transparentlog_core/src/base.rs:158-159 | the two inclusion parts of the (7, 16) prefix proof, equal as written and corrected: {(0,6),(1,2),(2,0),(3,1)} and {(0,7),(1,2),(2,0),(3,1)} |
| TreeMath.LowestPeakExamples | transparentlog_core/src/base.rs:161-168 | the peak part is {(0,12)} for 13 records and empty for 16 |
| TreeMath.PrefixPositionsExample | transparentlog_core/src/base.rs:275-283 | prefix_proof_positions(7, 13) is the six positions {(2,0),(1,2),(0,6),(0,7),(0,12),(2,2)}, as written and corrected alike |
| TreeMath.PrefixPositionsExampleAsWritten | transparentlog_core/src/base.rs:154-170 | as written, prefix_proof_positions(7, 13) gets the leaf 12 that both inclusion parts miss from the lowest peak |
| TreeMath.PrefixPositionsExample16 | transparentlog_core/src/base.rs:285-292 | prefix_proof_positions(7, 16) is the five positions {(2,0),(1,2),(0,6),(0,7),(3,1)}, as written and corrected alike |
| TreeMath.ProofPositionsExample4And5Of15 | transparentlog_core/src/base.rs:134-143 | (5, 15) as written is {(0,4),(1,3),(2,0),(2,2)} and (4, 15) {(0,5),(1,3),(2,0),(2,2)}; corrected, each also contains (1,6) and (0,14) |
| TreeMath.PrefixPositionsExample15 | transparentlog_core/src/base.rs:154-170 | as written, prefix_proof_positions(5, 15) is {(0,4),(0,5),(1,3),(2,0),(2,2),(0,14)}; corrected, it also contains (1,6) |
| Merkle.Reconstruct | transparentlog_core/src/base.rs:193-212 | calc_hash returns the reference hash of every node that faithful stored hashes determine |
| Merkle.SiblingStep | transparentlog_core/src/base.rs:145-150 | a determined node plus the siblings proof_step names determines its parent |
| Merkle.PathCovers | transparentlog_core/src/base.rs:128-151 | climbing the path of a leaf, the positions proof_step names determine the root |
| Merkle.InclusionRoundTrip | transparentlog_core/src/base.rs:173-181 | faithful hashes at the corrected proof positions make verify accept record (i, leaf_i) against (n, root) |
| Merkle.ProofPositionsOffPath | transparentlog_core/src/base.rs:128-151 | no proof position is the record's leaf or one of its ancestors, so verify's write at (0, id) overwrites nothing |
| Merkle.FaithfulAfterUpdate | transparentlog_core/src/base.rs:178-179 | off-path faithful hashes, with the record inserted at (0, i), are faithful to the log whose leaf i is the record |
| Merkle.VerifyExactly | transparentlog_core/src/base.rs:173-181 | with faithful off-path hashes at the proof positions, verify of (i, h) against root r holds iff r is the root of the log with leaf i replaced by h |
| Merkle.VerifyAsWrittenAcceptsPastEnd | transparentlog_core/src/base.rs:173-181 | given faithful hashes at the as-written proof_positions(n, n), verify as written accepts record id n with any hash against an honest n-record head; the corrected verify rejects it |
| Merkle.OldRootRebuilt | transparentlog_core/src/base.rs:184-190 | the hashes at the corrected proof_positions(s, n) rebuild the root of the first s records |
| Merkle.NewRootRebuilt | transparentlog_core/src/base.rs:184-190 | the hashes at the corrected proof_positions(s, n) and proof_positions(s - 1, n) rebuild the root of all n records |
| Merkle.FaithfulToPrefix | transparentlog_core/src/base.rs:184-190 | hashes faithful to a log are faithful to each non-empty prefix of it |
| Merkle.ConsistencyRoundTrip | transparentlog_core/src/base.rs:184-190 | with faithful hashes at the corrected prefix_proof_positions(s, n), verify_tree accepts a size-s head exactly when its hash is the root of the first s records, and a size-n head exactly when its hash is the root of all n |
| Merkle.AsWrittenConsistencyRejects5To15 | transparentlog_core/src/base.rs:154-170 | for any 15 non-empty leaf hashes (digest appending "."), faithful hashes at exactly the as-written prefix_proof_positions(5, 15) rebuild the honest root of 5 records, but verify_tree rejects the honest head of 15 |
| Merkle.SevenRoot | transparentlog_core/src/base.rs:199-209 | the root of seven leaves carries the lone right-edge nodes up unchanged |
| Merkle.SevenAsWrittenRebuild | transparentlog_core/src/base.rs:193-212 | from the as-written positions for record 0 of 7, calc_hash rebuilds the tree without leaf 6 |
| Merkle.AsWrittenProofRejectsRecord0Of7 | transparentlog_core/src/base.rs:134-143 | faithful hashes at the as-written positions of record 0 of 7 make verify reject the honest record |
| Merkle.CorrectedProofAcceptsRecord0Of7 | transparentlog_core/src/base.rs:134-143 | with the corrected positions (leaf 6 added), the same record verifies |
| FileStore.Push | transparentlog_core/src/file.rs:57-65 | a level's file is created when it is missing, the hash is appended to it, and every other level is unchanged |
| FileStore.CarryUp | transparentlog_core/src/file.rs:66-74 | an even count after the push carries the digest of the level's last two hashes one level up |
| FileStore.CarryStop | transparentlog_core/src/file.rs:66-75 | an odd count after the push ends the carry with every level exact for the grown log |
| FileStore.CarryKeepsStore | transparentlog_core/src/file.rs:55-76 | the carry, started from any intermediate level, leaves the store exact for the grown log |
| FileStore.AppendKeepsStore | transparentlog_core/src/file.rs:55-76 | push_hash(0, h) turns the exact store of n leaves into the exact store of n + 1: level k holds the (n+1) >> k complete nodes in order, and levels exist while (n+1) >> k >= 1 |
| FileStore.MergeLowest | transparentlog_core/src/file.rs:119-125 | replacing the two lowest peaks by the digest of both leaves the fold unchanged |
| FileStore.Spine | transparentlog_core/src/file.rs:109-125 | the partial node at level k hashes to the fold of the peaks below k |
| FileStore.PeaksFoldToRoot | transparentlog_core/src/file.rs:106-128 | the fold of the last hash of every odd-sized level is the tree root; it is "" for an empty log |
| FileStore.CollectPeaks | transparentlog_core/src/file.rs:109-118 | the first loop of latest collects the last hash of each odd-sized level, top level first |
| FileStore.MergePeaks | transparentlog_core/src/file.rs:119-127 | the pop/push loop returns the fold of the peaks, or "" when there is none |
| FileStore.StoredFaithful | transparentlog_core/src/file.rs:149-163 | every hash proofs reads back is the hash of that node in the tree |
| FileStore.StoredComplete | transparentlog_core/src/file.rs:149-163 | positions naming complete nodes are all present in the store, so proofs answers each of them |
| FileStore.PrefixPositionsComplete | transparentlog_core/src/base.rs:154-170 | every consistency-proof position is a complete node of the larger tree |
| FileStore.ServedInclusionVerifies | transparentlog_core/src/file.rs:149-163 | the hashes the store serves for the corrected proof_positions(i, n) make verify accept record i against the log's head |
| FileStore.ServedConsistencyExample13 | transparentlog_core/src/base.rs:444-455 | the hashes the store serves at the as-written prefix_proof_positions(7, 13) make verify_tree accept both the honest size-7 head and the honest size-13 head, for every digest |
| FileStore.ServedConsistencyVerifies | transparentlog_core/src/base.rs:444-455 | the hashes the store serves for the corrected prefix_proof_positions(s, n) make verify_tree accept the honest size-n head, and accept a size-s head exactly when its hash is the root of the first s records |
| FileStore.ServedAsWrittenConsistencyRejects5To15 | transparentlog_core/src/base.rs:154-170 | the hashes an honest 15-record store serves for the as-written prefix_proof_positions(5, 15) rebuild the honest size-5 root and make verify_tree reject the honest head |
| FileStore.TwoRecords | transparentlog_core/src/base.rs:376-384 | for two records the root is the digest of both leaves, and the proof for record 1 is exactly leaf 0, as written and corrected |
| FileStore.EightLeaves | transparentlog_core/src/base.rs:343-347 | the stored node (3, 0) is hash_eight of the first eight leaves |
| FileStore.ThirteenRecordsProof | transparentlog_core/src/base.rs:400-405 | after 13 appends the proof for record 9 reads leaf 8, hash_two(10), hash_eight(0) and leaf 12 |
| FileStore.ThirteenRecordsRoot | transparentlog_core/src/base.rs:407-411 | the root of 13 records is the digest of hash_eight(0) with the subtree over leaves 8..12 |
| FileStore.AppendKeepsRecords | transparentlog_core/src/file.rs:84-97 | appending a record's bytes and the entry (old data length, byte length) keeps every earlier index entry pointing at its record |
| FileStore.FileLog.Open | transparentlog_core/src/file.rs:30-49 | opening an empty directory gives empty data and index files and no hash files |
| FileStore.FileLog.PushHash | transparentlog_core/src/file.rs:55-76 | the hash files become Carry(old files, level, h); data and index are unchanged |
| FileStore.FileLog.Append | transparentlog_core/src/file.rs:84-104 | id is the number of earlier records, h is the leaf hash, one index entry is added at the old data length, and the store stays exact |
| FileStore.FileLog.Latest | transparentlog_core/src/file.rs:106-128 | returns (record count, Root of the leaves) |
| FileStore.FileLog.Get | transparentlog_core/src/file.rs:130-147 | an id past the end fails with UnexpectedEof; otherwise decodes the id-th record, so get(append(r).id) is r for a round-tripping codec |
| FileStore.FileLog.Proofs | transparentlog_core/src/file.rs:149-163 | returns the stored hash for every asked position on an existing level and skips other levels; fails exactly when an asked index lies past its level's end |
| Memory.HashAt | transparentlog_core/src/memory.rs:59-71 | the stored hash, else InvalidHeight for a missing level, else InvalidIndex for a missing index |
| Memory.WithHash | transparentlog_core/src/memory.rs:47-57 | for level <= count, appends to that level (creating it at count) and returns the new length - 1, other levels unchanged; for level > count, fails with InvalidHeight after pushing one empty level |
| Memory.InMemoryLog.Default | transparentlog_core/src/memory.rs:19-26 | the new log has no records and no hashes |
| Memory.InMemoryLog.Size | transparentlog_core/src/memory.rs:33-35 | returns the record count |
| Memory.InMemoryLog.Get | transparentlog_core/src/memory.rs:37-39 | returns the i-th record iff i < size, None otherwise |
| Memory.InMemoryLog.Add | transparentlog_core/src/memory.rs:41-45 | the id is the previous length, the record goes at the end, earlier records and hashes are unchanged |
| Memory.InMemoryLog.AddHash | transparentlog_core/src/memory.rs:47-57 | the table and result are WithHash(old table, level, h); records are unchanged |
| Memory.InMemoryLog.GetHash | transparentlog_core/src/memory.rs:59-71 | returns HashAt(table, level, index) |
| Memory.CachedHash | transparentlog_core/src/memory.rs:140-145 | None whenever caching is off; otherwise the cached hash exactly when the position is cached |
| Memory.Extended | transparentlog_core/src/memory.rs:147-151 | a cache that is off stays off; otherwise the keys are the union, the given entries win, and the rest are kept |
| Memory.InMemoryLogClient.constructor | transparentlog_core/src/memory.rs:115-125 | the client holds the given head and cache |
| Memory.InMemoryLogClient.Latest | transparentlog_core/src/memory.rs:132-134 | returns the trusted head |
| Memory.InMemoryLogClient.SetLatest | transparentlog_core/src/memory.rs:136-138 | replaces the trusted head and keeps the cache |
| Memory.InMemoryLogClient.Cached | transparentlog_core/src/memory.rs:140-145 | returns CachedHash(cache, p) |
| Memory.InMemoryLogClient.AddCached | transparentlog_core/src/memory.rs:147-151 | the cache becomes Extended(old cache, proofs); the head is unchanged |
| Memory.InMemoryLogClientBuilder.New | transparentlog_core/src/memory.rs:91-97 | starts from the log's latest head, with caching on |
| Memory.InMemoryLogClientBuilder.Open | transparentlog_core/src/memory.rs:100-105 | starts from the given head, with caching on |
| Memory.InMemoryLogClientBuilder.NoCache | transparentlog_core/src/memory.rs:108-111 | switches caching off and keeps the head |
| Memory.InMemoryLogClientBuilder.Build | transparentlog_core/src/memory.rs:114-126 | a fresh client with the builder's head, and an empty cache exactly when caching is on |
| Protocol.CachedAt | transparentlog_core/src/base.rs:69-76 | exactly the asked positions the cache answers, with the cached hashes |
| Protocol.SplitStep | transparentlog_core/src/base.rs:70-76 | each position goes either to the cached part or to the part left for the log |
| Protocol.SplitCached | transparentlog_core/src/base.rs:69-76 | the filter's loop returns the cached hashes and the uncached positions |
| Protocol.GetProofs | transparentlog_core/src/base.rs:67-84 | cached positions are not read; the read ones are added to the cache; the result is the union; a failed read leaves the cache unchanged |
| Protocol.GatheredFaithful | transparentlog_core/src/base.rs:67-84 | with a faithful cache and an exact store, every gathered hash is a true node hash, and the extended cache stays faithful |
| Protocol.GatheredComplete | transparentlog_core/src/base.rs:67-84 | asking only for complete nodes, the read succeeds and every asked position is answered |
| Protocol.ConsistencyPasses | transparentlog_core/src/base.rs:50-59 | at the corrected positions, an honest log's consistency proof from a trusted size k passes the check of the log's head, and passes the check of the trusted head exactly when its hash is the root of the first k records |
| Protocol.AsWrittenConsistencyFails5To15 | transparentlog_core/src/base.rs:50-58 | at the as-written positions, an honest 15-record log and a faithful cache yield hashes that pass the check of the honest trusted head of 5 records and fail the check of the honest head |
| Protocol.InclusionDecided | transparentlog_core/src/base.rs:62-64 | the gathered inclusion proof decides exactly whether the record fits the trusted prefix's root |
| Protocol.CheckConsistency | transparentlog_core/src/base.rs:50-59 | corrected positions; success means both heads rebuild from the gathered hashes; with a faithful cache the answer is exactly whether the trusted hash is the root of the log's prefix, so a trusted head not on the log gets false; the cache only grows and stays faithful |
| Protocol.RefreshHead | transparentlog_core/src/base.rs:47-61 | corrected: the log's head is fetched only for id >= trusted size; it is adopted unchecked from size 0 and otherwise only after both verify_tree checks pass; a log that did not grow answers false; a trusted head that is not the root of the log's prefix answers false and is kept; a cache holding only true node hashes still does afterwards |
| Protocol.AdvanceHead | transparentlog_core/src/base.rs:50-60 | corrected: the new head is adopted only after both verify_tree checks pass; a log that did not grow, or a trusted head that is not the root of the log's prefix, answers false and the head is kept; an honest client stays honest; a cache holding only true node hashes still does afterwards |
| Protocol.CheckInclusion | transparentlog_core/src/base.rs:62-64 | the answer is verify against the trusted head over the gathered proof; for an honest client it is true iff the record fits the trusted prefix, and the proof ends up cached; the true leaf hash is accepted; a cache holding only true node hashes still does afterwards |
| Protocol.CheckRecord | transparentlog_core/src/base.rs:46-65 | corrected: true only for ids inside the trusted head; for an honest client and log, true iff the record's hash fits the tree it checks against, true for every real record, and the client stays honest; a trusted head that is not the root of the log's prefix gets false for any id at or past it, and is kept; a cache holding only true node hashes still does afterwards |
| Protocol.RefreshHeadAsWritten | transparentlog_core/src/base.rs:47-61 | as written: from trusted size 0 the log's head is adopted unchecked and the answer is true; a trusted size > 0 that the log did not exceed makes the assertion abort the call; a new head is adopted only after both verify_tree checks pass over the as-written prefix positions; an honest client trusting 5 of 15 records (digest appending ".") with a faithful cache gets false and keeps its head |
| Protocol.CheckRecordAsWritten | transparentlog_core/src/base.rs:46-65 | as written, check_record aborts in that case, and answers false for every record at or past 5 to the honest client that trusts 5 of 15 records; from trusted size 0 it adopts the log's head, and the answer is verify as written over the hashes gathered at the as-written proof positions, which are cached |
| Protocol.AppendAll | transparentlog_core/src/base.rs:315-325 | append_multiple appends the records in order and keeps the log exact |
| Protocol.ClientThirteen | transparentlog_core/src/base.rs:417-441 | after 13 appends, checking record 9 succeeds, the client trusts size 13, and (0, 8) is cached exactly when caching is on |
| Protocol.ClientThirteenAsWritten | transparentlog_core/src/base.rs:417-441 | the same scenario with check_record as written: checking record 9 succeeds, the client trusts size 13, and (0, 8) is cached exactly when caching is on |
| Protocol.ThirteenAsWrittenAccepts | transparentlog_core/src/base.rs:173-181 | for record 9 of any honest 13-record log the read at the as-written proof positions succeeds, verify as written accepts the true leaf hash, and from an empty cache leaf (0, 8) is read |

## Left out

- File I/O: the directory scan and file creation of `FileLog::open`, and every `seek`, `metadata`, `read_exact` and `write_all`, are not modelled. The files are sequences: `data` is a string, `index` a sequence of (offset, length) entries, and each hash file a sequence of hashes. `Open` models opening an empty directory; reopening an existing one is not modelled.
- The physical layout is not modelled: 64-byte hash records, 16-byte big-endian index entries, and the byte-count divisions that recover counts from file lengths.
- I/O errors are not modelled. The only read failures kept are a read past the end of a file (`UnexpectedEof`) and a failed decode (`DecodeFailed`).
- `RefCell` borrowing and the `println!` debug output of `latest` are not modelled.
- SHA-256 and MessagePack (`rmp_serde`) are parameters: the digest `d` and the codec. The proofs hold for every digest that never returns "". Collision resistance is not modelled, so "accepts" is proved exact only up to digest collisions (`Merkle.VerifyExactly`).
- Hashing.LeafHash: the serialisation error that `hash` can return is not modelled; encoding is total.
- Integer widths are not modelled. `LogSize` and `LogHeight` are unbounded naturals, so the overflow of `index * 2` and `new_index * 2` in `usize` and `u64` does not exist in the model.
- `HashSet` and `HashMap` iteration order is not modelled: positions are a `set`, and `FileLog.Proofs` visits them in an arbitrary order, as the source does.
- The newer trait's default `append`, `latest` and `proofs`, which `InMemoryLog` relies on, are not part of this model, so the in-memory log has no root of its own.
- Memory.InMemoryLogClientBuilder.New: takes a `FileLog` as the log, because that is the only log whose `latest` is defined here.
- Protocol.CheckRecord: modelled with `FileLog` as the log and `InMemoryLogClient` as the client, not for arbitrary trait implementations.
- `check_record` is split into `RefreshHead`, `CheckConsistency` and `CheckInclusion`; the split changes nothing observable.
- The loops of `get_proofs`, `latest` and `append_multiple` are separate methods: `SplitCached`, `CollectPeaks`, `MergePeaks` and `AppendAll`.
- The log construction configuration, and the crash-consistency requirements of a file-backed store, are not modelled.
- transparentlog_core/src/test_helpers.rs, transparentlog_core/src/lib.rs and transparentlog_rocksdb/src/lib.rs are not part of this model.

## Findings

| source | as written | input that shows it | evidently intended | confidence | as-written member | corrected member |
|---|---|---|---|---|---|---|
| transparentlog_core/src/base.rs:134-143 | under a partial right sibling, the inner walk of `proof_step` keeps only the first complete node it meets and then breaks | `proof_positions(0, 7)` gives {(0,1),(1,1),(1,2)} and leaves out leaf 6, so `verify` rejects the honest record 0 of a 7-record log even with every asked hash supplied faithfully | after each complete node, step to the next node on its right, so every complete node under the partial sibling is named; then every honest record verifies | not executed | Merkle.AsWrittenProofRejectsRecord0Of7 | Merkle.InclusionRoundTrip |
| transparentlog_core/src/base.rs:173-181 | `verify` stores the record at (0, id) without checking id < tree size | for a log of n > 0 records, with the hashes at `proof_positions(n, n)`, the record (n, any hash) verifies against the honest head (n, root) | reject any record whose id is not inside the tree | not executed | Merkle.VerifyAsWrittenAcceptsPastEnd | Merkle.VerifyExactly |
| transparentlog_core/src/base.rs:154-170 | `prefix_proof_positions` builds on `proof_positions` as written, so a consistency proof lacks the nodes under a partial sibling after the first one | an honest log of 15 records, and a client trusting its honest head (5, root of 5): the positions {(0,4),(0,5),(1,3),(2,0),(2,2),(0,14)} lack (1,6), `calc_hash` rebuilds node (2,3) from leaf 14 alone, `verify_tree` rejects the honest head of 15, and `check_record` answers false for every record from 5 on | build on the corrected `proof_positions`, so an honest head always passes | not executed | Merkle.AsWrittenConsistencyRejects5To15 | Merkle.ConsistencyRoundTrip |
| transparentlog_core/src/base.rs:47-51 | `check_record` calls `prefix_proof_positions(trusted, log size)` whenever the id is at or past a non-zero trusted size, and that function asserts trusted < log size | a client trusting the honest head (13, root) of a 13-record log checks record 13: the assertion aborts the call | answer `false` when the log has not grown past the trusted head | not executed | Protocol.CheckRecordAsWritten | Protocol.CheckRecord |
