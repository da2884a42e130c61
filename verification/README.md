# GoCluster in Dafny

GoCluster is a DX cluster node: it takes radio spots from skimmers, peers and users,
filters and aggregates them, remembers what it learned about callsigns and propagation
paths, and hands spots on to telnet clients and peer nodes. This project models the parts
of it that keep state over unbounded runs or that claim to agree with a simpler definition,
and proves what they promise.

| files | part of the system |
|---|---|
| Common, Bytes, Text, Pebble, Shards | machine integers, byte order, ASCII text, the key-value store, sharded tables |
| GridRecord, GridKeys, GridStore, GridRuns, GridBatches, GridNormalize, GridWriter | the persistent store of call metadata |
| Aggregate, AggregateRuns, AggregateLaws, Aggregator | the skimmer spot aggregator |
| PathKeys, PathStats, PathStore, PathTable, PathHistory, PathPredict, PathShards | path reliability: decayed statistics and prediction |
| CtyTrie, CtyLookup, CtyOrder | country lookup by longest prefix, and the segments of portable calls |
| ArchiveCodec, Archive | the spot archive: records, keys, retention, newest-first reads |
| PeerFrames, PeerFlood | handling peer frames, and flooding over a whole network |
| Dedup, Dedupers | the two duplicate filters |
| MetaCache, MetaGrids, MetaShard | the in-memory LRU cache of call metadata |
| Ring | the lock-free ring of recent spots |

Where the program updates things in place, the model is a class or a method with loops,
proved against a specification function; the properties over whole runs are proved about
those functions. Pebble is a map from byte strings to byte strings with atomic batches and
ordered scans. Time is an integer, clocks and commit failures are parameters, hashes are
keys, and maps the program ranges over are visited in an arbitrary order.

Some promises do not hold of the code as it stands. For each there is a concrete
counterexample and the exact condition under which the promise holds:

- the grid store's count and index (`GridRuns.RepeatedNewCallBreaksCount`,
  `GridRuns.EpochRunBreaksIndex`; exact over runs in `GridRuns.RunSoundIff`);
- a grid record not depending on how its updates are batched (`GridBatches.RepeatDropsFirst`:
  of a call named twice in a batch only the last value counts; exact in
  `GridBatches.BatchingShowsIff` and, for stored calls, `GridBatches.StoredBatchingShowsIff`);
- a purge removing every record at or before its cutoff (`GridStore.OldRecordSurvives`: not
  one from before 1970; exact in `GridStore.PurgeExact`, and from the caller's records in
  `GridNormalize.PurgeByRecord`);
- the in-memory count being right after a purge (`GridWriter.InterruptedPurge`: after a
  refused commit it is right if and only if nothing had been removed);
- archive cleanup deleting every expired row (`Archive.NegativeRowSurvives`; exact in
  `Archive.CleanupExactIff`). Only a database with rows from elsewhere breaks it: in every
  archive this writer builds with a clock past 1970 cleanup is exact
  (`Archive.WriterCleansExactly`);
- cleanup passes of the secondary deduper changing no answer (`Dedup.EarlySpotEscapes`;
  exact over runs in `Dedup.InvisibleIff`), and the same of the primary's two-phase cleanup
  (`Dedupers.RefreshedSpotForgotten`; exact in `Dedupers.DeletionShowsIff`);
- the duplicate window meaning "less than a window apart" (`Dedup.FarPastInWindow`; exact in
  `Dedup.InWindowIff`);
- portable country lookup not depending on segment order
  (`CtyLookup.FallbackDependsOnOrder`; exact in `CtyOrder.OrderFreeIff`);
- a ring at rest returning its newest spots (`Ring.LappedWriterHidesSpot`; exact over runs in
  `Ring.AtRestReadIff`).

One comment in the sources disagrees with the code, and the model follows the code: a
deduper window of zero does not always bypass deduplication (dedup/deduplicator.go:234-236).
A spot 2^63 ns or more before the cached one still counts as a duplicate
(`Dedup.ZeroWindowSuppresses`).

## Model

| member | source | states |
|---|---|---|
| Bytes.PrefixUpperBound | gridstore/store.go:1037-1050 | the bound it returns encloses exactly the byte strings with the prefix; there is none exactly when the prefix is all 0xFF |
| Bytes.BEOrder | gridstore/store.go:1000-1006 | byte order of equally long big-endian numbers is numeric order |
| GridRecord.MergeAssociative | gridstore/store.go:688-722 | merging record values is associative: a history may be merged in any grouping |
| GridRecord.MergeAllConcat | gridstore/store.go:688-722 | a history can be cut anywhere: merging the merged parts merges the whole |
| GridRecord.MergeAllGrid | gridstore/store.go:688-722 | the merged grid is the last non-derived one if any was seen, else the last derived one; it is valid exactly when one was ever seen |
| GridRecord.MergeAllLastWins | gridstore/store.go:688-722 | country data and expiry are those of the last value that carried any |
| GridRecord.MergeAllObservations | gridstore/store.go:688-722 | observations add up modulo 2^64 |
| GridRecord.MergeAllFirstSeen | gridstore/store.go:688-722 | first-seen is the least nonzero instant of the history and zero only when all are zero |
| GridRecord.MergeAllUpdated | gridstore/store.go:688-722 | updated-at is the greatest instant of the history; known is set exactly when some value set it |
| GridRecord.EncodeRecordValue | gridstore/store.go:764-812 | the buffer filled field by field is the encoding the codec theorems are about |
| GridRecord.DecodeEncoded | gridstore/store.go:764-884 | every encoding decodes, whatever its string lengths, to the value with strings cut to 16-bit lengths and absent groups blanked |
| GridRecord.RoundTrip | gridstore/store.go:764-884 | decoding inverts encoding exactly on canonical values |
| GridRecord.NormalizedIsCanonical | gridstore/store.go:640-686 | a normalized record is canonical when its strings fit 16-bit lengths |
| GridRecord.MergeKeepsCanonical | gridstore/store.go:688-722 | merging canonical values gives a canonical value |
| GridRecord.DecodedIsCanonical | gridstore/store.go:814-884 | whatever decodes is canonical, so storing a record that was read loses nothing |
| GridKeys.ParseCallKeyIff | gridstore/store.go:988-998 | a key parses to a call exactly when it is that nonempty call's key |
| GridKeys.ParseUpdatedKeyIff | gridstore/store.go:1000-1022 | an index key parses to an instant and a call exactly when it was built from them |
| GridKeys.UpdatedKeyInjective | gridstore/store.go:1000-1006 | index keys of different instants or calls differ |
| GridKeys.FamiliesDisjoint | gridstore/store.go:988-1006 | record keys, index keys and the count key never coincide |
| GridKeys.PurgeRange | gridstore/store.go:1024-1029 | for every call string the purge range covers an index key exactly when the cutoff reaches its instant |
| GridKeys.PurgeRangeSkipsOthers | gridstore/store.go:1024-1036 | no record key and no count key lies in a purge range |
| GridStore.BatchRow | gridstore/store.go:434-498 | what a batch, repeated calls included, does to one call's record and index entries |
| GridStore.CountDeltaExact | gridstore/store.go:434-498 | the count increment is never below the number of new calls and equals it exactly when no new call is repeated |
| GridStore.BatchCalls | gridstore/store.go:434-498 | a batch stores its new calls beside the old ones and loses none |
| GridStore.UpsertSoundIff | gridstore/store.go:434-498 | on a sound store a batch leaves index, persisted and in-memory count exact if and only if the batch is safe |
| GridStore.PurgedKeysSound | gridstore/store.go:548-622 | deleting any part of the index with its records, as each purge chunk does, keeps the store sound |
| GridStore.PurgeExact | gridstore/store.go:548-622 | a purge removes exactly the records its cutoff reaches and keeps every other record with its index entry |
| GridStore.PurgePositive | gridstore/store.go:548-622 | with positive instants, exactly the records updated at or before the cutoff go |
| GridStore.OldRecordSurvives | gridstore/store.go:1000-1029 | a record from before 1970 outlives every purge below the greatest cutoff |
| GridStore.PurgeRemoved | gridstore/store.go:548-622 | the number of index keys deleted is the number of records removed, and the count drops by it |
| GridStore.UnflaggedConsistent | gridstore/store.go:500-546 | clearing known flags, wholly or in part, disturbs neither index nor counts |
| GridStore.ClearedExact | gridstore/store.go:500-546 | clearing changes the known flag of every record and nothing else |
| GridRuns.RunSoundIff | gridstore/store.go:434-622 | in every run from a sound store, index and both counts are exact at every point if and only if every batch was safe when applied |
| GridRuns.PlainRunsSound | gridstore/store.go:434-622 | runs of batches with distinct calls and positive instants, with any clears and purges, stay exact from the empty store |
| GridRuns.RepeatedNewCallBreaksCount | gridstore/store.go:445-498 | a batch naming one new call twice leaves one record and a count of two |
| GridRuns.EpochBreaksIndex | gridstore/store.go:460-475 | updating a record stamped at the Unix epoch leaves its stale index entry beside the new one |
| GridRuns.EpochRunBreaksIndex | gridstore/store.go:434-498 | two requests from the empty store reach that: one call listed at the epoch and at its new instant |
| GridRuns.ShortRecordsStorable | gridstore/store.go:640-686 | normalized records with strings of 16-bit length are stored losslessly |
| GridRuns.MergeAllCleared | gridstore/store.go:500-546 | clearing the flag of a whole history clears it in the merge and changes nothing else |
| GridRuns.RecordsAreHistories | gridstore/store.go:434-622 | after every safe run a call is stored exactly when its history since the last purge is nonempty, and its record is the merge of that history |
| GridBatches.BatchingShowsIff | gridstore/store.go:434-498 | one batch and the same values in two leave a call the same record if and only if the call is not in both, or merging the last value of the first changes nothing |
| GridBatches.NegligibleIff | gridstore/store.go:688-722 | that a merged value changes nothing, field by field |
| GridBatches.StoredBatchingShowsIff | gridstore/store.go:434-498 | for a stored call: if and only if it is not in both, or the value passed over is negligible |
| GridBatches.ObservationsShow | gridstore/store.go:452-460 | the batching shows whenever the value passed over counts an observation |
| GridBatches.RepeatDropsFirst | gridstore/store.go:452-460 | naming a stored call twice in one batch and in two batches leaves different records |
| GridNormalize.RebuildIff | gridstore/store.go:640-762 | whatever the clock, the record read back from a stored value normalizes to that value if and only if the value is tidy: clean texts, blank absent parts, no instant that reads as missing, a count that fits an int |
| GridNormalize.MissingInstants | gridstore/store.go:641-648 | a record without an update instant is stored as one updated now, one without a first sighting as one first seen at its update |
| GridNormalize.CallSpelling | gridstore/store.go:938-940 | a call is stored under one spelling, whatever its case and padding, and only that spelling is left alone |
| GridNormalize.StoredInstant | gridstore/store.go:434-498 | after a first batch of distinct calls each record is stored with its own instant, the clock's when it has none |
| GridNormalize.PurgeByRecord | gridstore/store.go:434-622 | of such a batch a purge removes exactly the calls whose own instant lies from 1970 to the cutoff, all at the greatest cutoff |
| GridWriter.Store.ApplyUpsertBatch | gridstore/store.go:434-498 | succeeds exactly when every record it reads decodes and the commit succeeds; then the state is the upserted one, otherwise it is unchanged; what a caller's record becomes is in GridNormalize |
| GridWriter.Store.GatherOps | gridstore/store.go:445-480 | the loop over the records: the gathered operations, committed together, give the upserted database, and the number of new calls |
| GridWriter.Store.RecordOps | gridstore/store.go:452-480 | the operations written for one record |
| GridWriter.Store.ApplyClearKnownFlags | gridstore/store.go:500-546 | chunked clearing, with a commit that may fail at any chunk, only ever clears flags, and on success clears all |
| GridWriter.Store.ApplyPurgeOlderThan | gridstore/store.go:548-622 | chunked purging reaches the purged state and returns the number removed; on a failed commit the deleted part is part of it and the count is the old one |
| GridWriter.InterruptedPurge | gridstore/store.go:606-622 | an interrupted purge leaves a sound database; the in-memory count is right exactly when nothing had been removed |
| Aggregate.CollapseExact | aggregate/skimmer.go:460-471 | collapsing keeps each origin once, drawn from the bucket, first record first |
| Aggregate.ConsensusUnique | aggregate/skimmer.go:395-419 | the consensus frequency is unique, so it cannot depend on the order votes are visited in |
| Aggregate.Consensus | aggregate/skimmer.go:395-419 | every nonempty bucket has a consensus: most votes, then the lower frequency |
| Aggregate.RescoredOk | aggregate/skimmer.go:420-439 | rescoring keeps every skimmer's good and bad counts within bounds and its score their difference |
| Aggregate.Best | aggregate/skimmer.go:473-495 | the record picked is at least as good as every other |
| Aggregate.SearchNearest | aggregate/skimmer.go:365-382 | the walk finds the nearest bucket of the call in range, the upper on a tie, and none only when there is none |
| AggregateRuns.RunOk | aggregate/skimmer.go:224-342 | in every run with a nondecreasing clock: queued buckets, caps, search range and score bounds hold; every emission had its quality and wait; two emissions of one bucket are a respot interval apart, re-keyed or not |
| AggregateRuns.EmissionMeets | aggregate/skimmer.go:292-322 | a bucket that is released has enough distinct origins, and enough of them or has waited long enough |
| AggregateRuns.IngestedOk | aggregate/skimmer.go:224-275 | taking in a spot keeps the state invariant and the emission log's |
| AggregateRuns.EmittedOk | aggregate/skimmer.go:302-334 | an emission with its re-keying keeps both invariants |
| AggregateRuns.TickedOk | aggregate/skimmer.go:277-342 | a whole pass over the queue, in any order, keeps both invariants |
| AggregateRuns.WaitBounded | aggregate/skimmer.go:277-334 | after a pass over every queued key, in any order, a bucket that still holds records is younger than the limbo time |
| AggregateLaws.IngestLaw | aggregate/skimmer.go:224-275 | a spot is taken if and only if the start-up silence is over, it has a call, its bucket is past the respot interval or holds records, and there is room; then the nearest bucket in range, or a new one at its frequency, gains it last and is queued; no other bucket changes |
| AggregateLaws.AgreementRaises | aggregate/skimmer.go:420-438 | agreeing with the consensus raises a skimmer's score while there is room and never lowers it; disagreeing does the opposite |
| AggregateLaws.HigherScoreWeighsMore | aggregate/skimmer.go:402-410 | a higher score weighs more, in proportion from one point on, a tenth of a point below |
| AggregateLaws.ConsensusMeans | aggregate/skimmer.go:408-419 | the consensus is a reported frequency that no other has more votes than, the lowest of those with as many |
| AggregateLaws.BestMeans | aggregate/skimmer.go:473-495 | the best record carries a report if any does, then the strongest, then is the latest |
| AggregateLaws.ForgottenExact | aggregate/skimmer.go:337-341 | exactly the scores not updated for longer than the cache time are forgotten |
| AggregateLaws.ProcessLaw | aggregate/skimmer.go:278-334 | a bucket with records is emitted, once, if and only if it is ripe and has enough origins; dropped if and only if it lacks them at the limbo time; an empty one goes if and only if the cache time has passed; otherwise nothing changes |
| AggregateLaws.EmittedMoves | aggregate/skimmer.go:306-334 | an emitted bucket ends empty under its call and consensus frequency and remembers when it was emitted |
| AggregateLaws.Gathers | aggregate/skimmer.go:224-275 | spots of one call within reach of the first gather, in order, in one queued bucket |
| AggregateLaws.Progress | aggregate/skimmer.go:224-334 | from enough origins they give exactly one emission, with their consensus frequency, at the first pass once the dwell time is over |
| Aggregator.CollapseByOrigin | aggregate/skimmer.go:460-471 | the loop keeps the first record of each origin |
| Aggregator.PickBestRecord | aggregate/skimmer.go:473-495 | the loop finds the best record |
| Aggregator.Winner | aggregate/skimmer.go:408-419 | ranging over the vote map in any order finds the consensus |
| Aggregator.SkimmerAggregator.FindBucket | aggregate/skimmer.go:365-382 | the outward probing finds what the specification search finds |
| Aggregator.SkimmerAggregator.Ingest | aggregate/skimmer.go:224-275 | the new state after a spot is the one AggregateLaws.IngestLaw describes |
| Aggregator.SkimmerAggregator.ConsensusFrequency | aggregate/skimmer.go:395-439 | the consensus of the records, and every voter's score afterwards |
| Aggregator.SkimmerAggregator.ProcessKey | aggregate/skimmer.go:278-334 | the state and the emission after one queued key |
| Aggregator.SkimmerAggregator.Emit | aggregate/skimmer.go:306-334 | the emission, the scores and the re-keyed bucket |
| Aggregator.SkimmerAggregator.ProcessQueue | aggregate/skimmer.go:277-342 | visits each queued key once in an arbitrary order, then forgets stale scores |
| PathKeys.FineFields | pathreliability/keys.go:4-10 | a fine key is nonzero and decodes to its band and cells |
| PathKeys.CoarseFields | pathreliability/keys.go:12-17 | a coarse key is nonzero, marked coarse and decodes to its band and cells |
| PathKeys.KeysInjective | pathreliability/keys.go:4-17 | fine keys are injective, coarse keys are injective, and no fine key is a coarse one |
| PathKeys.NewBandIndex | pathreliability/band.go:12-26 | lists every nonempty normalized band once, each with its position as index |
| PathKeys.LookupNames | pathreliability/band.go:39-44 | a known band's index names that band |
| PathKeys.IndicesDistinctIff | pathreliability/band.go:12-26 | all bands have different indices exactly when there are at most 65536 |
| PathStats.DecayAdd | pathreliability/store.go:462-467 | decay over a sum of times is the product of the decays |
| PathStats.DecayHalves | pathreliability/store.go:462-467 | one half-life halves |
| PathStats.ClosedForm | pathreliability/store.go:74-126 | for positive weights at nondecreasing times the incremental bucket is the closed form, each part decayed by its own age |
| PathStats.SumAges | pathreliability/store.go:94-112 | the closed form ages as a whole by the decay of the time that passed |
| PathStats.SampleMean | pathreliability/store.go:147-181 | the sampled mean is the weighted mean at every instant until the bucket goes stale, and then there is none |
| PathStats.UpdateWithin | pathreliability/store.go:74-126 | an update keeps a bucket's mean within the bounds of its powers, in any time order |
| PathStats.SampleIsWithin | pathreliability/store.go:147-181 | sampling keeps the mean within the bounds |
| PathStore.PurgeInvisible | pathreliability/store.go:184-228 | purging changes no lookup at the purge instant or later, for any cells and any band |
| PathStore.PowerMono | pathreliability/normalize.go:132-146 | within the clamp limits a higher level never gets a lower power, table or formula |
| PathStore.PowerRange | pathreliability/normalize.go:132-146 | every report's power lies between the powers given to the two clamp limits |
| PathTable.BuildTable | pathreliability/config.go:359-382 | the table samples the curve at whole steps and covers the clamp limits, rounded outwards |
| PathTable.TableNear | pathreliability/normalize.go:132-146 | with that table a report's power is that of a level at most half a step from its clamped one |
| PathStore.PredictWithin | pathreliability/predictor.go:65-126 | blending fine and coarse and merging both directions keeps the bounds, up to the noise divisor; the value itself is in PathPredict.PredictionLaw |
| PathStore.RunWithin | pathreliability/store.go:55-126 | after every run of positive-weight reports and purges each bucket's mean lies between the powers of the two clamp limits |
| PathStore.RunPredictsWithin | pathreliability/predictor.go:29-126 | after every such run, in any time order, a prediction lies between the power of the lower clamp limit over the noise divisor and the power of the upper one |
| PathHistory.HitBand | pathreliability/keys.go:4-17 | a report reaches only keys of its own band, and never one key both ways |
| PathHistory.ReportKey | pathreliability/store.go:55-72 | a report updates each bucket it hits once and no other |
| PathHistory.PurgeKey | pathreliability/store.go:184-228 | a purge drops a bucket exactly when its band goes stale and its last report is longer ago than that |
| PathHistory.BucketIsFold | pathreliability/store.go:55-126 | after every run of reports and purges each bucket of the store is the fold of its own reports since a purge last dropped it, at its band's half-life |
| PathHistory.BucketClosedForm | pathreliability/store.go:55-126 | each bucket of the store is the closed form over its own reports since a purge last dropped it |
| PathPredict.PredictionLaw | pathreliability/predictor.go:65-126 | after every run of positive-weight reports and purges the prediction is the verdict on four histories: what the user received from the far cells, fine and coarse, combined with what those received from the user; both directions by their merge weights, one at a discount, none without evidence |
| PathPredict.EvidenceClosedForm | pathreliability/store.go:74-181 | of reports in time order that evidence is the quotient of two sums, each report decayed by its own age, until it is stale |
| PathPredict.FineThresholds | pathreliability/normalize.go:99-130 | at the upper threshold fine evidence stands alone, below the lower one coarse evidence does, and in between the mean lies between them with the weights added |
| PathPredict.HalfLifeUsed | pathreliability/band.go:46-54 | a positive override for the band, however written, is the half-life used, otherwise the default |
| PathPredict.StaleUsed | pathreliability/store.go:479-494 | a positive multiplier decides staleness, rounded up to a whole second; without it the fixed time does, and none means never |
| PathPredict.BeaconCapped | pathreliability/predictor.go:33-36 | a beacon report never adds more than the cap, any other report its whole weight |
| PathShards.Store.UpdateBucket | pathreliability/store.go:74-126 | updating a shard is updating the one map |
| PathShards.Store.Record | pathreliability/store.go:55-72 | Update on shards is Update on the one map |
| PathShards.Store.SampleOne | pathreliability/store.go:147-181 | sampling a shard is sampling the one map |
| PathShards.Store.PurgeStale | pathreliability/store.go:184-228 | purging shard by shard, entries in any order, purges the one map and returns how many went |
| PathShards.Store.Compact | pathreliability/store.go:232-270 | compaction loses nothing, counts exactly the shards far below their peak, and leaves every peak as specified |
| CtyTrie.BuildTrie | cty/parser.go:70-99 | the node array is a trie of exactly the nonempty keys, repeated or not |
| CtyTrie.LongestPrefixKey | cty/parser.go:101-125 | returns a key exactly when some nonempty key is a prefix of the call, and then the longest |
| CtyLookup.NaiveIsLongest | cty/parser.go:243-257 | trying every prefix from the longest down finds the longest key |
| CtyLookup.ExactAgrees | cty/parser.go:243-257 | for a nonempty call the exact-match shortcut agrees with plain longest-prefix search |
| CtyLookup.LookupNoCache | cty/parser.go:243-257 | the trie lookup answers as the plain search does |
| CtyLookup.SplitExact | cty/parser.go:270-275 | splitting a call at slashes loses nothing and leaves none |
| CtyLookup.LookupPortable | cty/parser.go:259-296 | the portable lookup gives the shortest matching segment, the least among equals, or the whole call's answer when none matches |
| CtyOrder.PortableMeans | cty/parser.go:259-296 | the portable answer is the longest key that starts the shortest usable segment, the first of those in byte order; with no slash or no usable segment, the longest key that starts the call; nothing when no key does |
| CtyLookup.SameCandidates | cty/parser.go:275-294 | reordering segments does not change which of them match |
| CtyOrder.DecodedKeyTrimmed | cty/parser.go:180-192 | every key the data is loaded under is trimmed |
| CtyOrder.FallbackIff | cty/parser.go:291-296 | with no matching segment the fallback finds something exactly when the call starts with a key that contains a slash |
| CtyOrder.OrderIndependent | cty/parser.go:259-296 | two calls whose segments match alike get the same answer when some segment matches; under different first segments, if and only if some segment matches or neither starts with a slashed key |
| CtyOrder.OrderFreeIff | cty/parser.go:259-296 | every order of a call's segments gets the same answer if and only if some segment matches, all segments are alike, or no order starts with a slashed key |
| CtyLookup.NoMatchFindsNothing | cty/parser.go:291-296 | with slash-free keys, when no segment matches the whole call finds nothing either |
| CtyLookup.FallbackDependsOnOrder | cty/parser.go:291-296 | a key with a slash makes the fallback depend on segment order |
| ArchiveCodec.EncodeRecord | archive/archive.go:611-719 | the buffer filled in place is the encoding the codec theorems are about |
| ArchiveCodec.DecodeRecord | archive/archive.go:721-786 | the loop over the length table decodes as the specification does, errors included |
| ArchiveCodec.ModeIsFTRecord | archive/archive.go:788-835 | on every byte string the mode peek fails exactly when decoding fails and otherwise tells whether the decoded mode is FT8 or FT4 |
| ArchiveCodec.RoundTrip | archive/archive.go:611-786 | decoding inverts encoding exactly on storable records; it fails exactly when a string is longer than 65535 bytes |
| ArchiveCodec.TruncatedIff | archive/archive.go:686-690 | clamping leaves the numbers alone exactly when they are in range |
| Archive.SpotTimeOf | archive/archive.go:885-900 | a spot key parses back to its timestamp |
| Archive.SpotOrder | archive/archive.go:885-900 | spot keys sort by the unsigned form of their timestamps |
| Archive.CleanupExactIff | archive/archive.go:431-486 | the early stop reaches every expired row if and only if no expired row has a negative timestamp beside a late row that has not |
| Archive.NegativeRowSurvives | archive/archive.go:431-438 | an expired row before 1970 is left behind |
| Archive.NonNegativeIsSafe | archive/archive.go:902-911 | a store of rows with nonnegative timestamps is always cleaned exactly |
| Archive.WriterCleansExactly | archive/archive.go:312-496 | in every archive a writer builds with a clock past 1970 cleanup deletes exactly the expired rows |
| Archive.FlushedKept | archive/archive.go:312-338 | no spot of a batch of up to 2^32 overwrites another: each is stored under its own time, the clock's when it has none, with its own sequence number |
| Archive.FlushedNonNegative | archive/archive.go:312-338 | flushing only adds rows with nonnegative timestamps |
| Archive.Writer.Flush | archive/archive.go:312-338 | one batch stores every spot that is not nil under its own time and the next sequence number, or nothing when the commit is refused |
| Archive.Writer.CleanupOnce | archive/archive.go:367-496 | in an archive of rows from 1970 on, a record is gone afterwards if and only if it is older than the retention of its mode, FT8 and FT4 having their own; a row that does not decode goes with the shorter retention, and nothing else changes; for any archive it deletes exactly the expired rows when the store is safe, and after a failed commit only expired rows |
| Archive.RetentionHolds | archive/archive.go:367-496 | the cutoffs, the mode test and the early stop together keep that retention rule, stated in ages and modes alone |
| Archive.Writer.Outdated | archive/archive.go:439-475 | the equal-cutoff branch and the two-cutoff branch apply the same rule |
| Archive.RecentFiltered | archive/archive.go:521-582 | returns the first limit matches among the newest 200000 rows, so the growing scan limit never shows |
| Archive.HitsMeans | archive/archive.go:548-577 | the hits among rows read are exactly the wanted spots of the rows that decode, with their times |
| Archive.NewestOrdered | archive/archive.go:548-577 | the rows read later are never newer, by unsigned time |
| PeerFrames.DedupeCache.MarkSeen | peer/dedupe.go:30-41 | true exactly for a nonempty key not held, which is then held from now on |
| PeerFrames.DedupeCache.Prune | peer/dedupe.go:47-62 | forgets exactly the keys older than the TTL, in any visiting order |
| PeerFrames.SendsBounded | peer/manager.go:399-484 | a relayed frame goes to other sessions only, never back to its source, each carrying one hop less |
| PeerFrames.RecipientsExact | peer/manager.go:186-251 | a frame sends exactly one line, in the receiver's protocol with one hop less, to each other session that must get it (pc9x sessions, and all for PC11 and PC61), and none to others, if and only if its key is new, it has a hop left, parses and is not a stale spot |
| PeerFrames.MarkedExact | peer/manager.go:186-251 | which frames mark their key as seen: new ones, kind by kind |
| PeerFrames.Manager.HandleFrame | peer/manager.go:186-251 | which frames mark the cache and which lines are sent, kind by kind, and for distinct sessions exactly how many lines each gets |
| PeerFrames.Manager.ForwardFrame | peer/manager.go:468-484 | sends to every pc9x session but the source; who gets a line is exact in PeerFrames.RecipientsExact |
| PeerFrames.Manager.BroadcastSpot | peer/manager.go:399-426 | sends to every session but the source in the protocol it speaks, unless the spot is stale |
| PeerFlood.RelayedBounded | peer/manager.go:186-251 | every line sent carries one hop less and at least one, and there are at most as many as sessions |
| PeerFlood.WeightBound | peer/manager.go:204-206 | a frame causes at most (degree+1)^hop deliveries |
| PeerFlood.DeliveryDecreases | peer/manager.go:186-251 | every delivery lowers the total weight in flight, whatever is lost |
| PeerFlood.FloodTerminates | peer/manager.go:186-251 | on any topology, in any order, with any losses and prunes, deliveries never exceed the weight in flight at the start |
| PeerFlood.FloodHops | peer/manager.go:204-231 | nothing relayed ever carries a hop below one or above the highest at the start |
| PeerFlood.RelayIsMarked | peer/manager.go:204-231 | a node that sends anything marked the frame's key in that step |
| PeerFlood.FloodOnce | peer/dedupe.go:30-62 | over every run each node's cache holds exactly the keys its marks and prunes account for, and only keys not held are marked |
| PeerFlood.RelayedOnce | peer/dedupe.go:30-62 | two relays of a key by one node have a prune more than the TTL after the first between them |
| Dedup.InWindowIff | dedup/secondary.go:396-406 | the age test holds when the times are less than a window apart, and otherwise only for times 2^63 ns or more in the past |
| Dedup.FarPastInWindow | dedup/secondary.go:396-406 | a spot 2^63 ns before the cached one passes a window of 1 ns |
| Dedup.ZeroWindowSuppresses | dedup/deduplicator.go:234-250 | with a window of zero such a spot is suppressed |
| Dedup.CleanupInvisible | dedup/secondary.go:128-262 | cleanup passes anywhere in a run change no answer when no later spot is more than 1 ns before a cleanup instant |
| Dedup.CleanupInvisibleIff | dedup/secondary.go:241-262 | one cleanup is invisible to spots of a given time, whatever the cache, if and only if that time is at most 1 ns before the cleanup or cleanup never removes anything |
| Dedup.InvisibleIff | dedup/secondary.go:128-262 | cleanups at given times are invisible over a run, whatever the cache and the spots, if and only if no offer comes more than 1 ns before a cleanup that precedes it, or cleanup never removes anything |
| Dedup.EarlySpotEscapes | dedup/secondary.go:241-262 | for any earlier time some cache and spot show the difference |
| Dedup.ForwardedIff | dedup/secondary.go:128-163 | in either deduper, between removals of its key, a spot is forwarded exactly when it is out of the window of the last one accepted under its key, newly reported, or strictly stronger where that is preferred |
| Dedup.NotBetterTwice | dedup/deduplicator.go:178-200 | in either deduper with prefer-stronger off, removals or not, two in-window acceptances of a key never follow each other |
| Dedup.CountersExact | dedup/secondary.go:128-180 | over every run of either deduper processed is accepted plus duplicates, and duplicates are the suppressed spots |
| Dedupers.Deduper.ShouldForward | dedup/secondary.go:128-163 | the sharded answer, cache and counters are those of one map; a spot it does not judge is forwarded and leaves no trace, every other is counted |
| Dedupers.Deduper.ProcessSpot | dedup/deduplicator.go:166-211 | the primary's sharded verdict, cache and counters are those of one map |
| Dedupers.Deduper.GetStats | dedup/secondary.go:170-180 | the totals over the shards, and the size of the one map |
| Dedupers.Deduper.Cleanup | dedup/secondary.go:241-262 | cleaning and compacting shard by shard cleans the one map |
| Dedupers.Deduper.MaybeCompact | dedup/secondary.go:200-217 | compaction loses nothing |
| Dedupers.Deduper.CollectExpired | dedup/deduplicator.go:283-292 | phase one of the primary's cleanup collects exactly the expired keys |
| Dedupers.Deduper.DeleteCollected | dedup/deduplicator.go:294-302 | phase two drops the collected keys whatever they hold by then |
| Dedupers.DeletionShowsIff | dedup/deduplicator.go:278-305 | the deletion shows in a verdict exactly when the key was collected and by then holds an entry the spot is in the window of |
| Dedupers.RefreshedSpotForgotten | dedup/deduplicator.go:278-305 | a spot accepted between the two phases can be forgotten, and its repeat goes out |
| MetaCache.PerShard | call_meta_cache.go:60-84 | every shard holds at least one entry and all together no more than the capacity |
| MetaCache.StepOk | call_meta_cache.go:199-366 | every operation keeps a list of distinct calls within its bound |
| MetaCache.StepFind | call_meta_cache.go:199-366 | every operation changes only its own row, except that adding to a full shard evicts the least recent one and never the one added |
| MetaCache.StepFront | call_meta_cache.go:345-366 | the call just touched is the most recent |
| MetaCache.RecentStays | call_meta_cache.go:345-366 | a call stays cached over any operations that name fewer than max other calls since it was touched |
| MetaCache.StepActual | call_meta_cache.go:199-318 | an operation leaves a valid non-derived grid valid and non-derived exactly when the call stays and no lookup finds it expired |
| MetaCache.ActualStays | call_meta_cache.go:199-318 | over any run such a grid is only ever lost to TTL invalidation, eviction or a clear |
| MetaGrids.FirstGridLives | call_meta_cache.go:199-272 | a first grid is found from its update until the TTL has passed, and not after |
| MetaGrids.UpdateReadBack | call_meta_cache.go:199-272 | an update is read back by the next lookup, unless it is derived and the cache holds an actual grid, which then stays |
| MetaGrids.ExpiryIsFinal | call_meta_cache.go:213-226 | a lookup that finds a grid past its TTL drops it for good, one that finds it live leaves it |
| MetaGrids.StoredGridKept | call_meta_cache.go:278-318 | of the cached and the stored grid an actual one wins over a derived one, else the strictly newer; what the record says of known and country is taken over |
| MetaGrids.WrittenIff | call_meta_cache.go:250-266 | an update has to be persisted unless it is derived under an actual grid or repeats a live one |
| MetaGrids.CtyNeverStale | call_meta_cache.go:150-192 | over any run a cached country, or its absence, is the last verdict recorded for the call |
| MetaGrids.CtyAnswered | call_meta_cache.go:150-192 | a verdict, that there is no country too, is answered from the cache while fewer than max other calls are named |
| MetaGrids.KnownMarked | call_meta_cache.go:324-334 | marking a call known is kept and changes no grid or country answer |
| MetaShard.Shard.Stands | call_meta_cache.go:29-34 | a shard whose map and list agree stands for a recency list, and its map finds what the list holds |
| MetaShard.Shard.AddEntry | call_meta_cache.go:353-366 | the new entry in front, the last one gone from list and map when over the bound |
| MetaShard.Shard.GetOrCreate | call_meta_cache.go:345-351 | the entry moved to the front or added there |
| MetaShard.Shard.LookupGrid | call_meta_cache.go:199-232 | answers exactly a cached, valid, unexpired grid, and leaves the specified list |
| MetaShard.Shard.UpdateGrid | call_meta_cache.go:238-272 | true exactly when the grid has to be persisted, and leaves the specified list |
| MetaShard.Recorded | call_meta_cache.go:289-317 | the field updates from a stored record |
| MetaShard.Shard.ApplyRecord | call_meta_cache.go:278-318 | applying a stored record refines the list operation |
| MetaShard.Shard.SetKnown | call_meta_cache.go:324-334 | marking a call known refines the list operation |
| MetaShard.Shard.PeekCty | call_meta_cache.go:151-169 | the first lock section answers exactly what is cached |
| MetaShard.Shard.StoreCty | call_meta_cache.go:171-192 | the second lock section caches found and not found |
| MetaShard.Shard.Clear | call_meta_cache.go:90-101 | nothing is left |
| Ring.ReadSound | buffer/ringbuffer.go:45-90 | after any run, a read for n spots in any interleaving with writers holds at most n published spots as added, ids strictly decreasing, from the last capacity ids of its snapshot |
| Ring.InterleavedOk | buffer/ringbuffer.go:45-90 | under every interleaving of any number of writers with a reader, what it holds are published spots as added, ids strictly decreasing, from the last capacity ids of its snapshot |
| Ring.StayingSpotSeen | buffer/ringbuffer.go:79-87 | a spot that stays in its slot while the reader passes is in the result |
| Ring.NewestIff | buffer/ringbuffer.go:45-53 | a writer's step keeps every slot at its newest published spot if and only if it does not overwrite a later one |
| Ring.OneWriterInOrder | buffer/ringbuffer.go:45-53 | a single writer never overwrites a later spot |
| Ring.NewestRunIff | buffer/ringbuffer.go:45-53 | over any run of any number of writers every slot ends at its newest spot if and only if the last publication into each slot carried the highest id published there |
| Ring.AtRestReadIff | buffer/ringbuffer.go:45-90 | after any run with nothing in flight a read finds exactly the newest spots in reverse order if and only if the schedule meets that condition |
| Ring.AtRestIff | buffer/ringbuffer.go:59-90 | with nothing in flight the last capacity ids are all found exactly when every slot is at its newest |
| Ring.OneWriterAtRest | buffer/ringbuffer.go:45-90 | after every single-writer run with nothing in flight the walk finds exactly the newest spots in reverse order |
| Ring.LappedWriterHidesSpot | buffer/ringbuffer.go:45-53 | a writer that is lapped publishes over a later spot and hides it |
| Ring.RingBuffer.Reserve | buffer/ringbuffer.go:46-48 | the atomic increment, whatever other writers have reserved |
| Ring.RingBuffer.Publish | buffer/ringbuffer.go:50-52 | the pointer store for an id reserved at any earlier time |
| Ring.RingBuffer.Add | buffer/ringbuffer.go:45-53 | both steps, which keep every slot at its newest whatever others have reserved |
| Ring.RingBuffer.GetRecent | buffer/ringbuffer.go:59-90 | what the walk over the slots finds; with nothing pending and every slot at its newest, exactly the newest min(n, capacity, total) spots, newest first |
| Ring.RingBuffer.GetRecentFiltered | buffer/ringbuffer.go:96-139 | the first n matches the walk finds within the scan limit; at rest, the first n among the newest spots it covers |
| Ring.FilterMeans | buffer/ringbuffer.go:131-136 | the filtered spots are exactly the wanted ones, newest first as they were |
| Ring.ScanLimit | buffer/ringbuffer.go:116-122 | twenty slots per wanted spot, at most 5000 |

## Left out

- Text handling is ASCII: trimming and case changes of other Unicode letters are not modelled.
- Floating point is modelled by real numbers, so rounding is not; aggregator frequencies are integers in 100 Hz units.
- The math library: `math.Pow` enters as any curve that is positive, increasing and halves over a half-life.
- Bit shifts and ors of packed path keys are written as products and sums.
- Opening and closing stores, `loadCount`, `Get`, `Entries`, the write queue and busy errors of the grid store.
- `mergePending` in main.go: it drops the derived flag, so it is not an upsert sequence.
- LRU caches in front of the CTY lookups, loading of CTY files, metrics.
- The aggregator's channels, drop counters, quality tag and spot cloning; an emission is counted whether or not the output channel takes it.
- Archive.Writer.Flush: takes spots already normalized; errors of single batch writes, which the source only logs, are not modelled.
- ArchiveCodec.EncodeRecord: takes the thirteen texts already chosen, trimmed and upper-cased.
- Concurrent inserts during an archive cleanup pass or read: the iterator sees one snapshot.
- Reconstruction of a spot from an archive record (band, mode class, comment clean-up).
- PeerFrames.Manager.HandleFrame: the topology and ingest queues, WWV and talk callbacks are left out; the dedupe key is a text carried by the frame rather than formatted from its fields.
- PeerFlood.FloodTerminates: sessions are fixed during a run; nothing is claimed about which nodes a flood reaches, because a copy with few hops left can mark a key before a better one arrives.
- Sharding of the call metadata cache by FNV hash and call normalization: operations act on one shard with the normalized call.
- Hash functions of both dedupers; the primary's output channel; counters are unbounded where the source has 64 bits.
- Ring.RingBuffer.Add: each call adds a different spot object; adding one object twice would rewrite the id in its old slot. A capacity of zero, on which the source panics, and more than 2^63 spots are excluded.
- Configuration, filters, telnet, RBN and PSKReporter clients, call correction, statistics displays: input handling and presentation without state of their own worth a theorem.
