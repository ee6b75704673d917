# SkeinDB storage engine: models and proofs

This project models the storage engine of SkeinDB (`crates/skeindb-core`, with the Merkle helper of the engine crate) and
proves what it promises: that a content-addressed store built from delta chains means one fixed map whatever is done to
it, that its log survives crashes at any byte, that its caches and indexes never answer differently from the plain code
they accelerate, and that key rotation keeps every plaintext.

Check everything with `dafny verify dfyconfig.toml` (Dafny 4.11).

## How it is built

- `ValueGraph` says what a collection of whole values and delta chains means: a map from ids to bytes, defined by the
  memoised reconstruction of the engine. `Patch`, `Compaction` and `Import` prove what patching, storing, compacting and
  accepting foreign entries do to that meaning; the class in `ValueStore` carries the operations out in place and keeps
  the learned index (`LearnedIndex`) and the Bloom filter (`Bloom`) behind it harmless. `PartialStore` is about stores
  only part of which can be relied on, as a refused import may leave them, `ImportMeaning` shows that imports see only values
  and the deltas that wait for one, `StoreRuns` covers whole runs, `LateBase` is a run in which the base comes last, and
  `DeltaAtWork` one in which a value is stored as a delta and stays one.
- `ValueSegment` and `StoreReload` write a store to a segment file and load it again.
- `Wal` is the log as a state machine over append, crash and reopen, with the writer class beside it; `WalRecovery` is
  the grouping into transactions against a declarative specification by spans of the log.
- `RowSeg`, `Mvcc`, `VersionChains` and `VisibleIndex` are row segments, the version walk over them, and its bounded cache.
- `RunFile` is the block-split sorted file with its writer and reader; `Lsm` and `RowDir` use it for a memtable over runs
  and for the row directory.
- `Merkle` is root and proof generation; `Encryption` and `EncryptedStore` are envelopes, keys, rotation and the sweep.
- `Codec`, `FileHeader` and `Wrappers` hold the shared encodings, the file header and the result types.

Loops and objects of the source are methods and classes proved against functions; what those functions mean is proved as
lemmas. Files are byte sequences. `value_id`, `crc32c`, zstd, HKDF, the AEAD, SHA-256 and Rust's string trimming and UTF-8
check are parameters; the only facts taken from them are written as predicates (`Lossless`, `Unseals`) or as hypotheses
about the bytes actually stored (`NoClash`). Nothing assumes that a hash is injective. `HashMap` and directory enumeration
orders are arbitrary choices. VarU is unsigned LEB128 (section 7.6 of DWARF version 5); the decoder also accepts longer
forms and drops bits above 64, and the model does the same.

## Where the code does less than one might expect

- `valuestore.rs:1281-1354`: an import that is refused leaves its entries behind. What was stored before stands
  (`PartialStore.ImportNeverHarms`), and without a circle of base links the store stays in working order, its deltas waiting
  for their base (`PartialStore.ImportKeepsValid`); exactly when, `PartialStore.DecodedImportWellFoundedIff`.
  `StoreRuns.ImportCircle` imports two deltas that are each other's base; from such ids the chain walk never ends
  (`PartialStore.CircleNeverEnds`).
- `valuestore.rs:757-864`: deltas left by a refused import keep the depth they came with, so compaction may leave chains
  longer than `max_chain` (`LateBase.LateBase`; exactly when, `Compaction.CompactedChainIff`).
- `valuestore.rs:1315-1354`: loading and importing check the hash of deltas only (`Import.AcceptedHashesIff`);
  `Import.ForgedCellAccepted` is a whole entry accepted under an id that is not its hash.
- `wal.rs:489-520`: a transaction id left open by a crash and begun again keeps its uncommitted mutations, and the next
  commit recovers them (`WalRecovery.ReusedIdKeepsUncommitted`; exactly when, `WalRecovery.RecoveredFollowsBeginIff`).
- `mvcc.rs:239-308`: when a superseded version is left with `end_ts = 0`, a later read in the same time bucket may get the
  older version from the cache. `ReadOpenEnded` is a concrete case, `TwoReads` says exactly when it happens and
  `DisjointIsStable` when it cannot.
- `rowseg.rs:474`: a row whose frame exceeds 16 MiB is appended but can never be read at its pointer (`RowSeg.ReadBack`,
  `RowSeg.OversizeRowUnreadable`), and a row with 2^32 groups or more encodes to something that does not decode
  (`RowSeg.RowRoundTrip`, `RowSeg.TooManyGroups`).
- `run.rs:272-282`: a footer checksum of zero is not compared with the file (`RunFile.OpenRunIff`).
- `run.rs:473`: the run id counter saturates, so every run after the last id overwrites it
  (`Lsm.ReusedRunKeepsAnswersIff`, `Lsm.ReusedIdLosesAPut`).
- `run.rs:420`: opening a directory that holds run 4294967295 wraps the counter to 0 (in builds that do not check for
  overflow), so runs written next are put under the older ones by the next reopen (`Lsm.SortedKeepsAnswersIff`,
  `Lsm.WrappedKeepsAnswersIff`, `Lsm.WrappedIdLosesAPut`).
- `rowdir.rs:147-151`: loading drops tombstones, so compacting a newer run by loading and flushing it can bring back rows it
  had deleted (`RowDir.ReflushedAnswersIff`, `RowDir.ReflushedDeletionResurrects`).
- `encryption.rs:301-327`: a failed mode change for an unknown database registers it with encryption off, so that its values
  are stored as they are from then on (`Encryption.FailedSetModeChanges`, `Encryption.FailedSetModeStoresPlaintext`).
- `encryption.rs:360-382`: loaded profiles bring no keys, and only they can leave a database that encrypts without its key
  (`Encryption.LackingComesFromLoading`, `Encryption.LoadedWithoutKey`).

## Model

| member | source | states |
|---|---|---|
| Compaction.CompactionPreservesMeaning | crates/skeindb-core/src/valuestore.rs:757-864 | For every store in working order, also with deltas that wait for their base, and every policy: rewriting flagged deltas to cells and rebuilding skip patches leaves what each id materializes to unchanged, or the error it fails with, although rewritten entries are bases of others |
| ValueStore.ValueStore.CompactDeltas | crates/skeindb-core/src/valuestore.rs:757-864 | The two in-place phases, in any enumeration order of the index: a delta with a value whose recorded depth is above `max_chain` or a multiple of the snapshot interval becomes a cell of that value, every other entry keeps kind, bytes and base; the count is the number of ids whose kind changed; contents unchanged, and in a store no refused import has touched no real chain above `max_chain` |
| Compaction.CompactionBoundsDepth | crates/skeindb-core/src/valuestore.rs:782-856 | After compaction of a store no refused import has touched every real chain is at most `max_chain` long, the stored depth is never below it, and equals it when skips were rebuilt |
| Compaction.CompactedChainIff | crates/skeindb-core/src/valuestore.rs:757-864 | In any store in working order the chains left are exactly the runs of unflagged deltas down to a value held or made whole, so a chain exceeds `max_chain` if and only if that many deltas in a row are not flagged |
| Compaction.CompactedSkips | crates/skeindb-core/src/valuestore.rs:813-856 | A delta that is left gets its real depth and, up to the limit, every skip patch that can be had, at the distances 2, 4, 8 and so on |
| Compaction.CompactKeeps | crates/skeindb-core/src/valuestore.rs:757-864 | Compaction keeps the whole invariant of the store, its meaning, and the depth bounds if they held |
| StoreRuns.Replay | crates/skeindb-core/src/valuestore.rs:622-1354 | Over any run of puts, delta puts, policy changes, compactions, index refreshes, segment reloads and imports, accepted or refused, the store stays in working order and its values, and the deltas waiting for one, are those of the run told over whole values; only an import that ties a circle, or is refused with skip patches, breaks the store and ends the run, and leaves all values in a part it does not touch |
| StoreRuns.ValuesNeverChange | crates/skeindb-core/src/valuestore.rs:622-1354 | Through every later operation a value keeps its bytes, and an id without one keeps its entry or, if it is a delta, gets a value that hashes to its id |
| StoreRuns.FirstStoreWins | crates/skeindb-core/src/valuestore.rs:622-1354 | Exactly the ids some operation brought in are known; a value is the bytes of that put (never readable if stored with kind Delta), or of the first entry imported under the id, or hashes to it if that was a delta |
| StoreRuns.ReadBack | crates/skeindb-core/src/valuestore.rs:744-747 | Reading any id after any run, also one only a refused import brought, gives its value or the exact error of the link that fails; after an import that broke the store the ids known before it, but for waiting deltas, read as before |
| LateBase.LateBase | crates/skeindb-core/src/valuestore.rs:1281-1354 | Two deltas imported before their base: refused and not readable; once the base is put both read back, and compaction leaves them a chain of two under a limit of one |
| StoreRuns.ImportCircle | crates/skeindb-core/src/valuestore.rs:1281-1297 | The class at work on the circle: the import fails, both entries stay and the store is no longer well founded |
| ValueGraph.MatSound | crates/skeindb-core/src/valuestore.rs:1103-1161 | In a sound store rebuilding terminates and gives the model value, the same with and without skip patches; an id without one gives the fault of the first link that fails, the same with and without skip patches |
| ValueGraph.SkipsSaveSteps | crates/skeindb-core/src/valuestore.rs:1103-1161 | Reconstruction with skip patches never takes more steps than the real chain length, and reports a skip patch when and only when it takes fewer |
| ValueGraph.ShortestWay | crates/skeindb-core/src/valuestore.rs:1103-1161 | Reconstruction takes one step more than the best of its base and its skip bases, is what one of them gives, and prefers the base when none is better |
| ValueGraph.PlainStepsAreChainLen | crates/skeindb-core/src/valuestore.rs:1103-1161 | Without skips the reported steps are exactly the length of the base chain |
| ValueGraph.LinksIsChainLen | crates/skeindb-core/src/valuestore.rs:996-1008 | The chain walk answers a length exactly when base links reach a whole value in that many steps |
| ValueGraph.MeaningIs | crates/skeindb-core/src/valuestore.rs:1103-1161 | A store sound for some model means exactly that model: soundness determines every materialization |
| ValueGraph.AddEntry | crates/skeindb-core/src/valuestore.rs:650-742 | A new entry rebuilt from values gets its own value, leaves every other value, and gives a value to no other entry unless one waited for it |
| ValueStore.ValueStore.MaterializeWithCache | crates/skeindb-core/src/valuestore.rs:1103-1161 | On any store, well founded or not: for an id in a well-founded part of it the memoised recursion over base and skip candidates ends and equals the uncached definition, errors included |
| ValueStore.ValueStore.Materialize | crates/skeindb-core/src/valuestore.rs:744-747 | Returns the bytes the id stands for, or the exact error, for every id in a part of the store in working order, also where a refused import has left the rest ill founded |
| ValueStore.ValueStore.MaterializeWithTrace | crates/skeindb-core/src/valuestore.rs:749-755 | The trace reports at most as many steps as the real chain has, and a skip patch exactly when it reports fewer, under the same condition |
| ValueStore.ValueStore.DeltaChainDepth | crates/skeindb-core/src/valuestore.rs:996-1008 | The loop computes the real chain length and ends for every id in a well-founded part of the store |
| PartialStore.CircleNeverEnds | crates/skeindb-core/src/valuestore.rs:996-1008 | From an id on a circle of base links no number of links leaves the deltas: the loop of the chain walk has no end there |
| ValueStore.ValueStore.Put | crates/skeindb-core/src/valuestore.rs:622-625 | In any state of the store: adds the bytes under their hash unless the id is taken; a store in working order stays so and every other value stays |
| ValueStore.ValueStore.PutWithId | crates/skeindb-core/src/valuestore.rs:627-648 | In any state of the store: adds the bytes under the given id unless it is taken; a store in working order stays so and every other value stays |
| ValueStore.ValueStore.PutWithDelta | crates/skeindb-core/src/valuestore.rs:650-742 | Stores a delta, against that base, of the value's length and one deeper than the base is recorded to be, exactly when the policy is on, the kind is Cell, the base has another value, length and depth are admitted and the patch is small enough; the whole value otherwise; either way exactly the bytes given, in every well-founded store |
| ValueStore.ValueStore.ChooseEntry | crates/skeindb-core/src/valuestore.rs:665-722 | The entry is the one `Compaction.EntryIsStoredAs` describes, whole at the first check that rules a delta out |
| Compaction.EntryIsStoredAs | crates/skeindb-core/src/valuestore.rs:656-722 | Which puts are stored as deltas, and with which base, length, depth, patch and skip patches, in terms of the values and the policy alone |
| DeltaAtWork.PutChanged | crates/skeindb-core/src/valuestore.rs:650-864 | A hundred bytes with one changed: stored as a delta of depth 1 with deltas on and whole with deltas off, and left alone by a compaction within its limits, which counts 0 |
| Compaction.StoreKeeps | crates/skeindb-core/src/valuestore.rs:650-742 | A fresh put or delta put keeps the store in working order, gives the id its bytes and leaves every value; where no delta waits it adds nothing else and keeps the depth bounds |
| Compaction.SkipPatchesOk | crates/skeindb-core/src/valuestore.rs:1705-1737 | At most `max_skip` skip patches, each against the ancestor at its distance, each rebuilding the same bytes |
| Compaction.SkipPatchesDouble | crates/skeindb-core/src/valuestore.rs:1705-1737 | Skip patches stand at the distances 2, 4, 8 and so on, and end only at the limit, at the depth, or at an ancestor that is missing, has no value or has the same bytes |
| ValueStore.ValueStore.BuildSkipPatches | crates/skeindb-core/src/valuestore.rs:1705-1737 | The doubling loop produces the specified skip patches |
| ValueStore.ValueStore.AncestorAtDistance | crates/skeindb-core/src/valuestore.rs:2061-2073 | Follows exactly that many base links |
| Import.AcceptedIsHealthy | crates/skeindb-core/src/valuestore.rs:1315-1385 | Entries accepted on loading form a valid store in which every id has a value, depths are exact and every delta hashes to its id |
| Import.AcceptableIff | crates/skeindb-core/src/valuestore.rs:1315-1354 | Entries are accepted if and only if, without their skip patches, they are well founded and each has a value |
| Import.AcceptedHashesIff | crates/skeindb-core/src/valuestore.rs:1315-1354 | Every accepted id is the hash of its value if and only if that holds of the non-delta entries, which loading does not hash |
| Import.ForgedCellAccepted | crates/skeindb-core/src/valuestore.rs:1315-1354 | For every hash, a whole entry under an id that is not its hash, accepted and read back under that id |
| Import.AcceptedKeepsOld | crates/skeindb-core/src/valuestore.rs:1281-1297 | Values stored before an accepted import keep their bytes |
| Import.ImportKeeps | crates/skeindb-core/src/valuestore.rs:1281-1297 | Accepting entries beside a store in working order, also one with deltas waiting, gives a store in which every id has a value and every old value is kept |
| Import.NoChainThroughItself | crates/skeindb-core/src/valuestore.rs:1362-1364 | An id met again on its own path has no chain: the visiting check rejects exactly cycles |
| ValueStore.ValueStore.RebuildLoadedDepth | crates/skeindb-core/src/valuestore.rs:1356-1385 | The memoised, cycle-checked recursion returns the real chain length and fails exactly when there is none |
| ValueStore.ValueStore.RecomputeLoadedMetadata | crates/skeindb-core/src/valuestore.rs:1315-1354 | Succeeds if and only if the links are well founded and every delta rebuilds; either way the entries keep kind, bytes and base, and exactly the ids before the first one without a chain get their exact depth and lose their skips |
| ValueStore.ValueStore.ImportTransferEntries | crates/skeindb-core/src/valuestore.rs:1281-1297 | In any state of the store: entries in any order are accepted if and only if the merged store is acceptable (or nothing is new); also after an error every new entry stays, in the order given, and every part in working order stands; with decoded entries a store in working order stays so if and only if the arrivals and the deltas that waited form no circle |
| PartialStore.ImportNeverHarms | crates/skeindb-core/src/valuestore.rs:1281-1354 | Whatever becomes of an import, and whatever state the rest of the store is in, the entries of a part in working order read only one another and rebuild to the same bytes |
| PartialStore.ImportWellFoundedIff | crates/skeindb-core/src/valuestore.rs:1281-1354 | After any import into a store in working order, accepted or not, the store is well founded if and only if the entries that arrived and the deltas that waited are, taken by themselves (without the skip patches the import dropped) |
| PartialStore.AcyclicIff | crates/skeindb-core/src/valuestore.rs:1356-1385 | Entries without skip patches are well founded if and only if no base links run in a circle |
| PartialStore.DecodedImportWellFoundedIff | crates/skeindb-core/src/valuestore.rs:1281-1354 | For entries as a segment or transfer decodes them: well founded afterwards if and only if the base links of the arrivals, and of deltas that waited, run in no circle |
| PartialStore.ImportKeepsValid | crates/skeindb-core/src/valuestore.rs:1281-1354 | A refused import that leaves the store well founded leaves it in working order: old values kept, some arrivals waiting |
| PartialStore.CircleIsRefused | crates/skeindb-core/src/valuestore.rs:1281-1354 | Two deltas that are each other's base are refused and leave a store that is not well founded |
| ImportMeaning.ImportSeesValues | crates/skeindb-core/src/valuestore.rs:1281-1354 | Whether an import is accepted, whether it ties a circle, and what the store means afterwards, accepted or refused, depends only on the values stored and the deltas without one, not on how values are cut into deltas |
| ImportMeaning.SamePut | crates/skeindb-core/src/valuestore.rs:650-742 | Stored whole or as a delta, a value does the same to the values and the waiting deltas |
| ValueStore.ValueStore.LoadStore | crates/skeindb-core/src/valuestore.rs:1820-1828 | Succeeds if and only if the ids are distinct and the entries acceptable |
| ValueStore.ValueStore.GetWithTrace | crates/skeindb-core/src/valuestore.rs:1029-1076 | Whatever range the model predicts, stale or not, the entry returned is the one of the hash index; a current model finds its keys without fallback within 2(max_error+1)+1 probes |
| ValueStore.ValueStore.BloomMaybeContains | crates/skeindb-core/src/valuestore.rs:535-538 | Never false for a stored id |
| ValueStore.ValueStore.RebuildSortedKeys | crates/skeindb-core/src/valuestore.rs:1387-1393 | The sorted arrays list the index in id order whatever its enumeration order |
| Bloom.BloomFilter.Insert | crates/skeindb-core/src/valuestore.rs:452-458 | Sets the seven positions of the id, no other, and clears none, so no earlier id is denied |
| Bloom.BloomFilter.MaybeContains | crates/skeindb-core/src/valuestore.rs:460-467 | True exactly when all seven positions of the id are set |
| Bloom.SlotsStep | crates/skeindb-core/src/valuestore.rs:435-450 | The positions start at the low half of the id and go on in steps of the high half and one, round the filter |
| Bloom.BitsForIs | crates/skeindb-core/src/valuestore.rs:424-433 | Ten bits for each expected item, at least 640, in the smallest power of two with room for them |
| LearnedIndex.RoundIsNearest | crates/skeindb-core/src/valuestore.rs:1546-1552 | Rounding goes to the nearest whole number, away from zero when two are as near |
| LearnedIndex.WindowIff | crates/skeindb-core/src/valuestore.rs:1427-1443 | The probed window is exactly the positions of the list within the largest error and one of the prediction |
| LearnedIndex.WindowContainsKey | crates/skeindb-core/src/valuestore.rs:1427-1443 | With distinct 8-byte prefixes every key present at build time lies in its predicted window of bounded width |
| LearnedIndex.SegmentIndexFinds | crates/skeindb-core/src/valuestore.rs:1427-1436 | The segment search lands on the segment holding the key |
| LearnedIndex.Build | crates/skeindb-core/src/valuestore.rs:1403-1425 | The segments built are the specified cuts of the sorted keys, each with its exact maximal error |
| LearnedIndex.SegmentsCut | crates/skeindb-core/src/valuestore.rs:1403-1425 | The segments cut the sorted keys in order and without a gap into pieces of the size asked for, the last as long as is left |
| LearnedIndex.LineThroughEnds | crates/skeindb-core/src/valuestore.rs:1403-1425 | A segment's line goes through its first and last position, and is level when their keys do not differ |
| Patch.PatchRoundTrip | crates/skeindb-core/src/valuestore.rs:1599-1685 | For every base and target that differ, applying the built patch to the base gives the target |
| Patch.OpsForRebuild | crates/skeindb-core/src/valuestore.rs:1599-1643 | The copy, add and copy operations cut the target into parts that never overlap in either sequence |
| Patch.BuildPatchBytes | crates/skeindb-core/src/valuestore.rs:1599-1643 | The builder returns the specified patch, empty exactly for equal sequences |
| Patch.PatchIsShort | crates/skeindb-core/src/valuestore.rs:1599-1643 | A built patch is at most 64 bytes longer than what lies between the longest common prefix and the longest common suffix |
| Patch.ApplyPatchBytes | crates/skeindb-core/src/valuestore.rs:1645-1685 | The cursor loop computes patch application, errors included; a patch that applies yields exactly its declared length |
| Patch.PatchOfOps | crates/skeindb-core/src/valuestore.rs:1645-1685 | A patch of any operations that fit the base applies exactly when nothing follows them and they make up the declared length, and gives their pieces |
| Patch.MisfitRefused | crates/skeindb-core/src/valuestore.rs:1645-1685 | A copy from outside the base, or an operation of another kind, is refused wherever it stands |
| Patch.PatchOnDisk | crates/skeindb-core/src/valuestore.rs:1599-1643 | The bytes of a patch with all three operations |
| Patch.FindCommonPrefixLen | crates/skeindb-core/src/valuestore.rs:1687-1694 | The longest common prefix |
| Patch.FindCommonSuffixLen | crates/skeindb-core/src/valuestore.rs:1696-1703 | The longest common suffix that leaves the prefix alone |
| ValueSegment.EntryRoundTrip | crates/skeindb-core/src/valuestore.rs:1906-1986 | A VE1 entry, raw or compressed, decodes to its id and everything a segment keeps |
| ValueSegment.PacksShortest | crates/skeindb-core/src/valuestore.rs:1906-1930 | The shorter of the raw and the compressed bytes is stored, raw when they are as long |
| ValueSegment.EntryOnDisk | crates/skeindb-core/src/valuestore.rs:1906-1986 | The bytes of a raw entry, and its refusal with bytes added, cut short or with another declared length |
| ValueSegment.DecodedFields | crates/skeindb-core/src/valuestore.rs:1931-1986 | What an accepted entry has in its fixed fields; a decoded delta has depth 0 and no skips |
| ValueSegment.DeltaRoundTrip | crates/skeindb-core/src/valuestore.rs:1988-2039 | A DELTA1 body decodes to its base, length and patch, with depth 0 and no skips |
| ValueSegment.SegmentReadsBack | crates/skeindb-core/src/valuestore.rs:1806-1818 | Every entry written to a segment file is read back in order |
| ValueSegment.ReadSegmentIff | crates/skeindb-core/src/valuestore.rs:1799-1818 | A segment reads as a list of entries if and only if it is a value-segment header and, up to its last byte, frames of payloads that decode to them |
| ValueSegment.ReadSegmentFile | crates/skeindb-core/src/valuestore.rs:1799-1818 | The reading loop equals the specified parse of any file, errors included |
| ValueSegment.ValueSegmentWriter.Append | crates/skeindb-core/src/valuestore.rs:1775-1782 | Appends one frame, or leaves the file alone when the entry cannot be encoded or framed |
| StoreReload.KeptIsAccepted | crates/skeindb-core/src/valuestore.rs:1315-1385 | What a segment keeps of a store in working order means the same, and is accepted if and only if every id has a value |
| StoreReload.WrittenLoads | crates/skeindb-core/src/valuestore.rs:1260-1274 | The written file reads back as distinct entries whose meaning is the store's, acceptable if and only if every id has a value |
| StoreReload.WriteSegmentFile | crates/skeindb-core/src/valuestore.rs:1260-1267 | The file is the header and one frame per entry in stored order, or the first error |
| StoreReload.LoadSegmentFile | crates/skeindb-core/src/valuestore.rs:1269-1274 | Loading any file succeeds if and only if it parses to distinct, acceptable entries |
| StoreReload.WriteThenLoad | crates/skeindb-core/src/valuestore.rs:1260-1274 | Writing succeeds if and only if every entry can be encoded and framed, which rules out orphan deltas; the file loads if and only if every id has a value, and then keeps each |
| Codec.VaruRoundTrip | crates/skeindb-core/src/lib.rs:37-73 | Decoding an encoded u64 returns it and leaves exactly the following bytes |
| Codec.DecodeVaruLoop | crates/skeindb-core/src/lib.rs:53-73 | The shift loop, which drops bits above 64, equals the arithmetic decoding for every input, canonical or not |
| Codec.EncodeVaru | crates/skeindb-core/src/lib.rs:37-51 | The loop emits the canonical bytes |
| Codec.FrameRoundTrip | crates/skeindb-core/src/lib.rs:293-327 | A frame decodes to its payload and leaves exactly the following bytes |
| Codec.DecodeFrameIff | crates/skeindb-core/src/lib.rs:293-327 | Bytes decode as a frame if and only if they begin with one: the declared length and the checksum of the payload |
| Codec.DecodeFrameFails | crates/skeindb-core/src/lib.rs:293-327 | A frame is refused for its length if and only if its header or its payload is cut short, and otherwise for its checksum alone |
| Codec.DamagedFrameRefused | crates/skeindb-core/src/lib.rs:312-318 | A payload damaged into one with another checksum is refused for it |
| Codec.CutFrameFails | crates/skeindb-core/src/lib.rs:302-321 | A frame cut anywhere is refused for its length, whatever the checksum |
| FileHeader.HeaderRoundTrip | crates/skeindb-core/src/lib.rs:190-262 | A header is read back from the front of any file starting with it |
| FileHeader.DecodeIff | crates/skeindb-core/src/lib.rs:201-285 | A file header is accepted if and only if it is one the writer makes |
| FileHeader.BeginsIff | crates/skeindb-core/src/lib.rs:201-285 | Whether a file is accepted as one of a kind depends on its first 64 bytes alone: they must be a header of that kind |
| FileHeader.HeaderOnDisk | crates/skeindb-core/src/lib.rs:201-285 | The magic, kind, byte order, length and version every file starts with |
| Wal.RunSafety | crates/skeindb-core/src/wal.rs:359-432 | Over every interleaving of appends, crashes at any byte and reopens: the lenient scan finds exactly the surviving records, the truncation flag is exact, LSNs run from 1 without a gap, and an open log scans strictly |
| Wal.CutScan | crates/skeindb-core/src/wal.rs:541-593 | A log cut at any byte scans to the records of its longest whole-frame prefix; the truncated flag holds exactly off a frame boundary |
| Wal.CutLog | crates/skeindb-core/src/wal.rs:541-593 | Cutting at any byte leaves the longest whole-frame prefix and a torn rest |
| Wal.TruncationCleans | crates/skeindb-core/src/wal.rs:376-393 | Whatever the bytes, dropping what the scan rejects leaves a log that scans strictly to the same records |
| Wal.ScanAppend | crates/skeindb-core/src/wal.rs:421-432 | Appending a frame to a clean log appends its record |
| Wal.RecordRoundTrip | crates/skeindb-core/src/wal.rs:182-283 | Every encodable record decodes to itself, in both header versions |
| Wal.DecodeIff | crates/skeindb-core/src/wal.rs:218-283 | A record is accepted if and only if its fields are those of its encoding, its body that of its kind and nothing follows |
| Wal.RecordBytes | crates/skeindb-core/src/wal.rs:182-216 | The bytes of a mutation, and the codes of the other records |
| Wal.ScanBytes | crates/skeindb-core/src/wal.rs:541-593 | The scanning loop, strict or lenient, equals the specified scan |
| Wal.ScanIsFrames | crates/skeindb-core/src/wal.rs:541-593 | Whatever the bytes, the valid prefix is a sequence of frames with the right checksums, each holding the record found, and no such frame follows it |
| Wal.DamageEndsScan | crates/skeindb-core/src/wal.rs:541-593 | A record whose payload was damaged into one with another checksum ends the scan with FrameCrcMismatch; it and what follows are not read |
| Wal.WalWriter.Open | crates/skeindb-core/src/wal.rs:359-403 | Opening keeps exactly the scanned records, cuts the rest and reports what was cut |
| Wal.WalWriter.Append | crates/skeindb-core/src/wal.rs:421-432 | Adds one record under the next LSN, or changes nothing when it does not fit a frame |
| Wal.Execute | crates/skeindb-core/src/wal.rs:359-432 | The writer class carries out every such run with the bytes of the state machine |
| WalRecovery.Group | crates/skeindb-core/src/wal.rs:478-531 | The loop over pending transactions returns exactly one transaction per Commit, in commit order, with its span's mutations and last Begin |
| WalRecovery.PendingGrows | crates/skeindb-core/src/wal.rs:489-520 | The pending table after one more record is what the spans of the log say |
| WalRecovery.RecoveryIsMonotone | crates/skeindb-core/src/wal.rs:478-531 | Recovery of a prefix of the log is a prefix of recovery of the log |
| WalRecovery.CrashKeepsCommitted | crates/skeindb-core/src/wal.rs:478-531 | A crash at any byte loses no transaction whose Commit frame was complete and invents none |
| WalRecovery.RecoveredFollowsBeginIff | crates/skeindb-core/src/wal.rs:478-531 | Over every run of appends, crashes and reopens, all mutations recovered with a commit come after the `begin_lsn` reported if and only if, since the id last ended, each Mutation had a Begin before it and none after |
| WalRecovery.ReusedIdKeepsUncommitted | crates/skeindb-core/src/wal.rs:489-520 | Begin and Mutation of id 7, a crash, then Begin, Mutation and Commit of id 7: both mutations are recovered, the first from before the `begin_lsn` |
| WalRecovery.Recover | crates/skeindb-core/src/wal.rs:478-531 | Recovery of any log file reports the transactions of its valid prefix and the exact discarded tail |
| RowSeg.RowRoundTrip | crates/skeindb-core/src/rowseg.rs:184-289 | An encoded row decodes to itself if and only if it has fewer than 2^32 groups |
| RowSeg.RowAndMore | crates/skeindb-core/src/rowseg.rs:213-289 | Bytes after a row are refused |
| RowSeg.DecodedFields | crates/skeindb-core/src/rowseg.rs:213-289 | The fixed part of an accepted row is that of its encoding |
| RowSeg.RowOnDisk | crates/skeindb-core/src/rowseg.rs:184-211 | The bytes of a row with an inline group and a reference |
| RowSeg.TooManyGroups | crates/skeindb-core/src/rowseg.rs:184-289 | A row of 2^32 empty groups encodes to bytes that are refused |
| RowSeg.ReadBack | crates/skeindb-core/src/rowseg.rs:461-484 | The pointer an append returned reads the row back however the file grows, if and only if its frame is within the 16 MiB read cap |
| RowSeg.OversizeRowUnreadable | crates/skeindb-core/src/rowseg.rs:461-484 | A row with one inline group of 16 MiB: appended, its frame above the read cap, and reading its pointer fails |
| RowSeg.ReadAllRows | crates/skeindb-core/src/rowseg.rs:448-459 | A sequential read yields every appended row at its offset |
| RowSeg.ReadAll | crates/skeindb-core/src/rowseg.rs:448-459 | The offset loop equals the specified read |
| RowSeg.RowSegmentWriter.Append | crates/skeindb-core/src/rowseg.rs:397-410 | Returns where the frame starts, or leaves the file alone when the row does not fit a frame |
| RowSeg.DecodeRowBytes | crates/skeindb-core/src/rowseg.rs:213-289 | The cursor loop equals the specified decoding, errors included |
| RowSeg.PtrRoundTrip | crates/skeindb-core/src/rowseg.rs:96-110 | A file pointer decodes to itself |
| Mvcc.ResolveChain | crates/skeindb-core/src/mvcc.rs:330-385 | The loop equals the recursive walk and ends on every finite set of versions, cyclic or not |
| Mvcc.WalkFindsFirst | crates/skeindb-core/src/mvcc.rs:330-385 | A walk that succeeds returns the first visible version of the chain with its hop count, deleted exactly when bit 0 of its flags is set; all versions passed are of the row and table asked for |
| Mvcc.WalkDecides | crates/skeindb-core/src/mvcc.rs:330-385 | What ends a walk, in any chain: the first version of another row or table, the first visible one, the regular end, a circle, or a pointer to nothing, each with its answer |
| Mvcc.AsOfReadsGreatest | crates/skeindb-core/src/mvcc.rs:48-54 | On a contiguous chain an as-of read returns the version with the greatest commit timestamp at or below the snapshot, skipping staged versions, deleted exactly when it is a deletion |
| Mvcc.VisibleIsGreatest | crates/skeindb-core/src/mvcc.rs:48-54 | On a contiguous chain visibility means being that version |
| Mvcc.WalkSurvivesGrowth | crates/skeindb-core/src/mvcc.rs:330-385 | New versions under new pointers change no successful walk |
| Mvcc.AppendedWalksSucceed | crates/skeindb-core/src/mvcc.rs:330-385 | Rows linked to earlier appends form acyclic chains every walk of which succeeds |
| VersionChains.WrittenChainsWalk | crates/skeindb-core/src/rowseg.rs:397-410 | Rows written to a segment with `prev_ptr` from earlier appends are read back and can be walked from any of them: no cycle, no dangling pointer, only a row or table id that changes along the chain stops the walk |
| VisibleIndex.VisibleVersionIndex.Resolve | crates/skeindb-core/src/mvcc.rs:239-278 | A hit returns the cached lookup, else the plain walk; on a stable chain they agree, hops included; every answer is a version of the row that the snapshot sees and says rightly whether it is a deletion; size, order and counters stay exact |
| VisibleIndex.VisibleVersionIndex.Insert | crates/skeindb-core/src/mvcc.rs:280-293 | Caches the entry; `order` is the old order without the shortest front that makes room, then the new key; every eviction is counted and `order` stays a duplicate-free listing |
| VisibleIndex.RunReads | crates/skeindb-core/src/mvcc.rs:239-299 | Over every run of version appends, head changes and reads whose chains are stable, the cache answers as the plain walk; hits and misses count the reads |
| VisibleIndex.ReuseIsRight | crates/skeindb-core/src/mvcc.rs:301-308 | Reusing a cached version for another snapshot that sees it is right if and only if no newer version is visible there |
| VisibleIndex.DisjointIsStable | crates/skeindb-core/src/mvcc.rs:239-278 | Pairwise disjoint visibility windows never mislead the cache, whatever the bucket width |
| VisibleIndex.ContiguousIsDisjoint | crates/skeindb-core/src/mvcc.rs:239-278 | Contiguous chains have disjoint windows |
| VisibleIndex.TwoReads | crates/skeindb-core/src/mvcc.rs:239-278 | After one read the second differs from the plain walk exactly when it shares the bucket, sees the cached version, and a newer one is visible; on a shared bucket it returns what the first returned |
| VisibleIndex.OpenEndedVersionsMislead | crates/skeindb-core/src/mvcc.rs:301-308 | Versions at 100 and 200 both left open-ended: what a read at 150 finds still matches a read at 250, which should find the newer one |
| VisibleIndex.ReadOpenEnded | crates/skeindb-core/src/mvcc.rs:239-278 | The cache at work on them: the read at 250 returns the older row |
| VisibleIndex.ReadDeleted | crates/skeindb-core/src/mvcc.rs:239-278 | A row written at 100 and deleted at 200, read through the cache at 150 and 250: the row, then the deletion and not the row |
| VisibleIndex.SameBucketIff | crates/skeindb-core/src/mvcc.rs:165-170 | Two snapshots share a cache bucket if and only if no multiple of the width lies between them; the latest snapshot has its own |
| RunFile.OpenWritten | crates/skeindb-core/src/run.rs:252-305 | Opening what the writer wrote succeeds with the index of first keys and offsets |
| RunFile.ReadAllWritten | crates/skeindb-core/src/run.rs:307-314 | Reading all blocks of a written run returns the list exactly |
| RunFile.GetIsFind | crates/skeindb-core/src/run.rs:316-328 | The indexed lookup agrees with a linear search of the whole list |
| RunFile.ScanIsFind | crates/skeindb-core/src/run.rs:320-326 | Stopping at the first larger key loses nothing in a sorted block |
| RunFile.LessIff | crates/skeindb-core/src/run.rs:166-189 | One key is below another if and only if it is a proper prefix or has the smaller byte where they first differ |
| RunFile.FindBlockForKey | crates/skeindb-core/src/run.rs:342-357 | Binary search finds the last block whose first key is not above the key |
| RunFile.OpenedIndexSorted | crates/skeindb-core/src/run.rs:582-626 | Any file that opens has a strictly sorted index |
| RunFile.DataBlockRoundTrip | crates/skeindb-core/src/run.rs:510-569 | A data block of sorted entries decodes to them |
| RunFile.DataBlockIff | crates/skeindb-core/src/run.rs:510-569 | A data block of any entries is accepted if and only if their keys strictly increase and nothing follows |
| RunFile.IndexBlockRoundTrip | crates/skeindb-core/src/run.rs:571-626 | An index block decodes to its entries |
| RunFile.IndexBlockIff | crates/skeindb-core/src/run.rs:571-626 | An index block of any entries is accepted if and only if their keys strictly increase and nothing follows |
| RunFile.BlocksOnDisk | crates/skeindb-core/src/run.rs:510-580 | The bytes of a data block and of an index block |
| RunFile.DecodeDataBlockBytes | crates/skeindb-core/src/run.rs:522-569 | The block-decoding loop equals the specified decoding, errors included |
| RunFile.DecodeIndexBlockBytes | crates/skeindb-core/src/run.rs:582-626 | The index-decoding loop equals the specified decoding, errors included |
| RunFile.RunWriter.Append | crates/skeindb-core/src/run.rs:166-189 | Appends exactly a key above the last one and refuses any other, at every block size |
| RunFile.RunWriter.FlushPendingBlock | crates/skeindb-core/src/run.rs:222-241 | Cutting a block changes nothing that was appended and keeps the index exact |
| RunFile.RunWriter.Finish | crates/skeindb-core/src/run.rs:191-220 | The finished file is a run of exactly the entries appended |
| RunFile.WriteRun | crates/skeindb-core/src/run.rs:166-220 | Writing a list succeeds if and only if its keys strictly increase, and gives a run of it, each block but the last cut by the entry that takes it to the block size, no longer than 96 bytes more than the weights of its entries |
| RunFile.RunIsShort | crates/skeindb-core/src/run.rs:191-220 | The whole file, with its blocks, index and footer, is bounded by the weights of the entries |
| RunFile.OpenFile | crates/skeindb-core/src/run.rs:252-305 | Opening any file is the specified check of header, footer, checksum and index, each error in place |
| RunFile.OpenRunIff | crates/skeindb-core/src/run.rs:252-305 | A file opens if and only if it has a run header, a footer whose checksum is zero or right, and an index of increasing offsets before it |
| RunFile.DamagedRunRefused | crates/skeindb-core/src/run.rs:270-282 | A run damaged before its footer into one with another checksum does not open |
| RunFile.ReadAll | crates/skeindb-core/src/run.rs:307-314 | Reading all blocks of any opened file is the specified scan, stopping at the first bad block |
| RunFile.Get | crates/skeindb-core/src/run.rs:316-328 | A lookup in any opened file scans exactly the last block whose first key is not above the key, and none if there is no such block |
| RunFile.LookUp | crates/skeindb-core/src/run.rs:252-328 | A lookup in any file at all, sound or damaged: the answer or error of opening it and scanning that block |
| RunFile.LookUpIsFind | crates/skeindb-core/src/run.rs:252-328 | In a run file that answer is a linear search of its entries |
| RunFile.ScanIsEntries | crates/skeindb-core/src/run.rs:307-314 | A scan of a run file returns its entries in order |
| Lsm.LastSurvivingPut | crates/skeindb-core/src/run.rs:403-475 | After any run of puts, automatic and explicit flushes and reopens, what is answered for each key is its last put that no reopen lost |
| Lsm.GetAfterRun | crates/skeindb-core/src/run.rs:403-475 | The store object, run through any number of operations with each directory listed in any order, answers from the newest run with the key; as long as every operation was harmless, which all are while run ids last, that is the last put no reopen lost; it fails only if the puts weigh 2^64 bytes together |
| Lsm.Execute | crates/skeindb-core/src/run.rs:403-475 | The runs, their contents, the counter and the memory of the object after any number of operations are those of the state machine over single runs; as long as every operation was harmless its view is that of the machine over one table; it fails only with TooLong, if the puts weigh 2^64 bytes together |
| Lsm.HarmlessIff | crates/skeindb-core/src/run.rs:403-475 | An operation does to the answers what it should if and only if it overwrites no run still needed and lifts no older run above a newer one it contradicts |
| Lsm.ShelfIsTrace | crates/skeindb-core/src/run.rs:403-475 | While every operation of a run is harmless, the runs laid over each other hold what the run says |
| Lsm.ShortRunsAreHarmless | crates/skeindb-core/src/run.rs:403-475 | Fewer operations than there are run ids are all harmless |
| Lsm.SimpleLsm.Get | crates/skeindb-core/src/run.rs:441-452 | Over any directory, damaged or not: the memtable first, then runs newest to oldest, the first answer or error; over run files that is the newest table holding the key |
| Lsm.AnswerIsOverlay | crates/skeindb-core/src/run.rs:441-452 | Searching run files from the newest back is a lookup in their tables laid over each other, also when a file is listed more than once |
| Lsm.SimpleLsm.FlushMemtable | crates/skeindb-core/src/run.rs:454-475 | The whole new state, also when it fails, which only a run of 2^64 bytes does; no answer changes if and only if no key outside the memtable needs the run that is overwritten, in particular while run ids last |
| Lsm.SimpleLsm.Put | crates/skeindb-core/src/run.rs:431-439 | Inserts, and flushes exactly when the memtable is full; if that fails the entry stays in memory and answers as put |
| Lsm.SimpleLsm.Open | crates/skeindb-core/src/run.rs:403-429 | On any directory runs are taken in id order whatever the listing order; the next id follows the last, modulo 2^32 |
| Lsm.Reopened | crates/skeindb-core/src/run.rs:403-429 | A reopened store has the same runs in id order and nothing in memory; it answers what was flushed as before if and only if, for each key, the newest run that has it says what the one with the greatest id does, as in every store whose run counter has not wrapped |
| Lsm.SortedKeepsAnswersIff | crates/skeindb-core/src/run.rs:419-419 | Putting any list of runs in id order keeps every answer if and only if, for each key, the newest run that has it and the one with the greatest id agree |
| Lsm.OrderedKeepsAnswers | crates/skeindb-core/src/run.rs:403-429 | A list of runs in id order, also with repetitions as a store with used-up ids keeps it, meets that condition |
| Lsm.WrappedKeepsAnswersIff | crates/skeindb-core/src/run.rs:420-420 | When the counter has wrapped, reopening keeps every answer if and only if the runs written since and the older ones agree on each key both hold |
| Lsm.WrappedIdLosesAPut | crates/skeindb-core/src/run.rs:403-475 | The object on a directory holding run 4294967295: a put that was flushed and answered is gone after reopening |
| Lsm.InKeyOrder | crates/skeindb-core/src/run.rs:466-468 | Iterating the memtable gives a strictly sorted list of exactly its entries |
| Lsm.FreshRunKeepsAnswers | crates/skeindb-core/src/run.rs:466-475 | A run under an unused id adds the memtable on top of every older table |
| Lsm.NewRunKeepsAnswersIff | crates/skeindb-core/src/run.rs:466-475 | Writing the memtable as a run, under an old or a new id, keeps every answer if and only if no key it lacks is answered by the run overwritten |
| Lsm.ReusedRunKeepsAnswersIff | crates/skeindb-core/src/run.rs:473-473 | However often the saturated counter has named the newest run already, overwriting it again keeps every answer if and only if each key of it is in the memtable or answered alike by an older run |
| Lsm.ReusedIdLosesAPut | crates/skeindb-core/src/run.rs:454-475 | The object on a directory holding run 4294967294: after two puts, each flushed, the first is gone |
| Lsm.IncreasingIsUnique | crates/skeindb-core/src/run.rs:419-420 | Sorting any listing of a directory gives the same run order |
| RowDir.BigEndianOrder | crates/skeindb-core/src/rowdir.rs:123-132 | Byte order of big-endian keys is numeric order |
| RowDir.RowDirectory.FlushToRun | crates/skeindb-core/src/rowdir.rs:123-132 | Flushing never fails on key order and writes exactly the entries; the file stays below 2^64 bytes for fewer than some 2^57 rows |
| RowDir.RowDirectory.LoadFromRun | crates/skeindb-core/src/rowdir.rs:140-154 | Loading any file: live entries set, tombstones removed, entries before an error stay applied |
| RowDir.LoadFlushed | crates/skeindb-core/src/rowdir.rs:140-154 | Loading a flushed directory succeeds and merges it over what is there |
| RowDir.FlushAndReload | crates/skeindb-core/src/rowdir.rs:157-161 | A flushed and reloaded directory answers the same for every row and has lost only its tombstones, for as many rows |
| RowDir.ReplayRuns | crates/skeindb-core/src/rowdir.rs:140-154 | Replaying any stack of flushed runs oldest first gives the newest entry for each row, tombstones hiding older heads |
| RowDir.ReflushedAnswersIff | crates/skeindb-core/src/rowdir.rs:147-151 | Over one older run, a run loaded and flushed again still hides what it deleted if and only if the older run has no head for the row |
| RowDir.Reflush | crates/skeindb-core/src/rowdir.rs:123-161 | The same on directory objects and files: flush both, replay both, and replay again with the newer run loaded and flushed once more |
| RowDir.ReflushedDeletionResurrects | crates/skeindb-core/src/rowdir.rs:123-161 | The objects at work: the deletion of row 1 flushed over a run with its head reads as deleted; with that run loaded and flushed again first, the head is back |
| RowDir.EntryRoundTrip | crates/skeindb-core/src/rowdir.rs:164-198 | A directory entry decodes to itself |
| RowDir.EntryIff | crates/skeindb-core/src/rowdir.rs:164-198 | Exactly the encodings of directory entries are accepted |
| RowDir.RowKeyRoundTrip | crates/skeindb-core/src/rowdir.rs:200-207 | A row key decodes to its row id |
| RowDir.RowKeyIff | crates/skeindb-core/src/rowdir.rs:200-207 | Exactly the eight-byte keys are accepted, each as its row |
| RowDir.InRowOrder | crates/skeindb-core/src/rowdir.rs:123-129 | Iterating the map lists each entry once in row order |
| Merkle.ProofReachesRoot | crates/skeindb/src/engine/forensic_helpers.rs:351-393 | Folding a record's hash with its proof gives the root, for every list and index, through odd promotions at any level |
| Merkle.ProofIsShort | crates/skeindb/src/engine/forensic_helpers.rs:351-393 | A proof over at most 2^k records has at most k siblings |
| Merkle.MerkleRoot | crates/skeindb/src/engine/forensic_helpers.rs:322-346 | The nested loops compute the root, nothing for an empty list |
| Merkle.RootOfThree | crates/skeindb/src/engine/forensic_helpers.rs:322-346 | The root of three records, with the third promoted |
| Merkle.MerkleProof | crates/skeindb/src/engine/forensic_helpers.rs:351-393 | The nested loops compute the proof, empty when out of range |
| Merkle.ProofBinds | crates/skeindb/src/engine/forensic_helpers.rs:337-339 | Proofs with the same sides and the same root are the same proof of the same hash unless strings hashed along them collide |
| Merkle.OnlyTheRecordProves | crates/skeindb/src/engine/forensic_helpers.rs:351-393 | On the sides of a position only that record's hash leads to the root, short of a collision |
| Merkle.InclusionsProve | crates/skeindb/src/engine/forensic_helpers.rs:228-253 | Records of a chain with distinct ids get one proof each, in order, with the id, place, hash and proof of the record, each leading to the root |
| Merkle.AbsentHasNone | crates/skeindb/src/engine/forensic_helpers.rs:228-253 | A record whose id is not in the chain gets no proof |
| Encryption.EnvelopeRoundTrip | crates/skeindb-core/src/encryption.rs:144-249 | A stored envelope parses back to itself, trailing bytes excluded |
| Encryption.ForeignBytesRefused | crates/skeindb-core/src/encryption.rs:180-249 | Bytes after an envelope, or another version, are refused |
| Encryption.EnvelopeOnDisk | crates/skeindb-core/src/encryption.rs:144-178 | The bytes of an envelope |
| Encryption.AadBinds | crates/skeindb-core/src/encryption.rs:109-122 | Equal associated data means equal database, table, column, kind and codec version |
| Encryption.EncryptIff | crates/skeindb-core/src/encryption.rs:384-451 | Encryption gives an envelope if and only if it has the profile's mode and, unless that is Off, its active key, with the ciphertext sealed under the key derived from that master key and the context's associated data; EncRandom carries the nonce drawn and no salt, EncMleDb the digest of the plaintext as salt |
| Encryption.EncryptFails | crates/skeindb-core/src/encryption.rs:384-451 | Why an encryption fails, in the order of the checks |
| Encryption.SameOrFreshEnvelope | crates/skeindb-core/src/encryption.rs:384-451 | In EncMleDb mode the same plaintext gives the same envelope whatever the nonce; in EncRandom mode different nonces give different envelopes |
| Encryption.DecryptIff | crates/skeindb-core/src/encryption.rs:453-494 | Decryption gives a plaintext if and only if the envelope is of the context's scope and the key it names unseals it under the context's associated data |
| Encryption.EncryptThenDecrypt | crates/skeindb-core/src/encryption.rs:384-494 | Decryption returns the plaintext in every mode, also under later keys that keep the one used |
| Encryption.DecryptSurvives | crates/skeindb-core/src/encryption.rs:261-327 | No run of rotations, activations, mode changes or other registrations makes an envelope unreadable |
| Encryption.NeverWithoutKey | crates/skeindb-core/src/encryption.rs:261-327 | Over any run from scratch of registrations, activations, mode changes and rotations, encryption never fails for want of a key |
| Encryption.KeyOpDoes | crates/skeindb-core/src/encryption.rs:261-327 | When a registration, activation, mode change or rotation succeeds, and what it does to the keys, to that database's profile and to no other |
| Encryption.LacksKeyIff | crates/skeindb-core/src/encryption.rs:384-451 | Encryption fails for want of a key if and only if the database is known, encrypts, and its active key is missing |
| Encryption.LackingComesFromLoading | crates/skeindb-core/src/encryption.rs:261-382 | With profile loads among the operations: a database lacks its key only since some load brought its profile in, and nothing after that mended it |
| Encryption.LoadedWithoutKey | crates/skeindb-core/src/encryption.rs:360-382 | A loaded profile that encrypts under an unregistered key makes encryption fail with MissingKey |
| Encryption.LoadedProfiles | crates/skeindb-core/src/encryption.rs:360-382 | Loading keeps the last profile given for each named database, with its names trimmed and a blank key id dropped |
| Encryption.FailedSetModeChanges | crates/skeindb-core/src/encryption.rs:301-327 | A failed mode change leaves the state alone if and only if the database was known; otherwise it registers it with encryption off |
| Encryption.FailedSetModeStoresPlaintext | crates/skeindb-core/src/encryption.rs:301-327 | For an unknown database encryption is refused; after a failed request to turn encryption on, its values are stored as plaintext |
| Encryption.ReencryptKeepsPlaintext | crates/skeindb-core/src/encryption.rs:594-631 | A renewed envelope decrypts to the same plaintext, is what encryption under the profile gives, has its mode and active key, and is current afterwards |
| Encryption.CountsOnce | crates/skeindb-core/src/encryption.rs:594-631 | One envelope goes into exactly one of the counts rewritten, off and current, by what was done with it, or into none after an error; counts stop at 2^64 - 1 |
| Encryption.PassedOverIff | crates/skeindb-core/src/encryption.rs:594-631 | An envelope is passed over if and only if it is off or already has the profile's mode and active key |
| Encryption.RenewedIff | crates/skeindb-core/src/encryption.rs:594-631 | It is renewed if and only if it is neither, the database has an active key, and its plaintext can be had and sealed |
| Encryption.DatabaseKeyManager.RegisterDatabaseKey | crates/skeindb-core/src/encryption.rs:261-280 | The new state is the specified one: key stored, first key made active |
| Encryption.DatabaseKeyManager.SetActiveDatabaseKey | crates/skeindb-core/src/encryption.rs:282-299 | The new state is the specified one; a missing key changes nothing |
| Encryption.DatabaseKeyManager.SetDatabaseMode | crates/skeindb-core/src/encryption.rs:301-327 | The new state is the specified one, including what a failed call leaves behind |
| Encryption.DatabaseKeyManager.LoadProfiles | crates/skeindb-core/src/encryption.rs:360-382 | The new state is the specified one: only the loaded profiles, trimmed, later ones winning; keys stay |
| Encryption.DatabaseKeyManager.RotateActiveKey | crates/skeindb-core/src/encryption.rs:564-589 | The active key changes, all keys stay, and the plan names the key replaced |
| Encryption.DatabaseKeyManager.ReencryptEnvelope | crates/skeindb-core/src/encryption.rs:594-631 | The outcome, exactly which counters change (rewritten, off, current, or only inspected on an error), and the two key ids recorded |
| EncryptedStore.EncryptedValueStore.PutEncrypted | crates/skeindb-core/src/encrypted_valuestore.rs:59-74 | In any state of the inner store: fails exactly as encryption does (or for an envelope of 2^64 bytes) and then stores nothing; otherwise exactly the envelope the profile asks for is stored under its hash, and the id reads back the plaintext unless other bytes lie there |
| EncryptedStore.EncryptedValueStore.GetPlaintext | crates/skeindb-core/src/encrypted_valuestore.rs:77-85 | Reads the envelope and decrypts it, each error in place |
| EncryptedStore.EncryptedValueStore.ReencryptValue | crates/skeindb-core/src/encrypted_valuestore.rs:111-126 | The exact outcome: each error of reading, deciding or encrypting, nothing to do, or exactly one envelope stored; old entries unchanged |
| EncryptedStore.EncryptedValueStore.ReencryptValues | crates/skeindb-core/src/encrypted_valuestore.rs:136-149 | The sweep maps every id to the same plaintext in the profile's mode and under its active key; every old id reads as before, also after an error, which is that of the first id that fails; inspected = rewritten + off + current grows by the number of ids |
| EncryptedStore.SweepTwice | crates/skeindb-core/src/encrypted_valuestore.rs:136-149 | A second sweep over the results of a first rewrites nothing and stores nothing |
| EncryptedStore.MovedIsSettled | crates/skeindb-core/src/encrypted_valuestore.rs:128-135 | The returned mapping sends each id to one with the same plaintext and nothing left to do, and a rewritten one to an envelope of the profile's mode and active key |
| EncryptedStore.RewriteIff | crates/skeindb-core/src/encrypted_valuestore.rs:111-126 | A pass over an id writes exactly the renewed envelope when there is one below 2^64 bytes, and nothing if and only if the id is settled |
| EncryptedStore.RewriteSettles | crates/skeindb-core/src/encrypted_valuestore.rs:111-126 | A stored rewrite reads the same plaintext and needs no further pass |
| EncryptedStore.CellsDoNotClash | crates/skeindb-core/src/encrypted_valuestore.rs:59-74 | In a store of cells it is enough that the bytes written share no hash with other stored bytes |
| EncryptedStore.PutReadsPlaintext | crates/skeindb-core/src/encrypted_valuestore.rs:59-85 | An encrypted value that was stored reads back as its plaintext |

## Left out

- Lsm.SimpleLsm.Open: `id + 1` wraps for a run file numbered 2^32 - 1, as in release builds (debug builds stop there); parsing `run-######.run` names is not modelled.
- Lsm.SimpleLsm.FlushMemtable: a run of 2^64 bytes or more is reported as an error; no file system holds one.
- StoreRuns.Replay: stops at the first import that ties a circle of base links, after which rebuilding or compacting may not end, or that is refused with skip patches, which decoded entries never have.
- StoreRuns.ReadBack: after such an import only the ids known before it.
- ValueStore.ValueStore.PutWithDelta: with a base, the store is well founded; on a circle of base links the chain walk of the source does not end.
- ValueStore.ValueStore.CompactDeltas: the store is in working order, which only such an import ends.
- LearnedIndex.Build: slopes and errors are exact reals, not f64.
- LearnedIndex.WindowContainsKey: predictions are exact reals, not f64; the rounding of the source is outside the bound.
- Wal.WalWriter.Append: LSNs stay below 2^64; `next_lsn += 1` overflowing is not modelled.
- EncryptedStore.EncryptedValueStore.ReencryptValues: the counts are stated below saturation of the u64 counters, and what a rewritten id reads is stated for the case that the envelope itself lies under its hash (`NoClash`); `put` keeps whatever was there first.
- EncryptedStore.EncryptedValueStore.PutEncrypted: the same, and an envelope of 2^64 bytes or more is reported as an error.
- StoreReload.WriteThenLoad: assumes what fits in memory, lengths below 2^64.
- Partial writes followed by more appends without a reopen, fsync, paths, timestamps, entropy failures and other `std::io` errors.
- Error messages and their numeric payloads: each error is one constructor.
- Reserving memory for a declared count before reading the entries, which can abort on hostile counts.
- `min_savings_ratio` is an arbitrary function from a length to the largest patch accepted, and the histogram shift that may trigger a model refresh an arbitrary choice, because both are floating-point heuristics.
- Lookup statistics, energy estimates, topology reports, benchmarks and memory estimates of `valuestore.rs`: they report, and store nothing.
- `materialize_transfer_entry_with_resolver` (`valuestore.rs:1839-1867`): one step of the reconstruction already modelled.
- Counters at the top of usize or u64 saturate in the source; they are unbounded here except the re-encryption counters.
- RowSegmentSet of `mvcc.rs` opens segment files on demand; the walk is modelled over the versions they hold.
- `manifest.rs`, the WASM catalog and runtime, the forensic JSON filters and record hashing, the query and network crates.
