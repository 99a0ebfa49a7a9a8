# A verified model of the YaCy-compatible node, crawler and their libraries

The repository is a peer-to-peer search engine: a node that keeps postings (which word occurs
where in which document) and the metadata of the documents' URLs, trades them with other peers,
and a crawler with a page pipeline beside it. These Dafny modules model the parts of it whose
correctness spans several operations, and prove what the code and its documentation promise
of them.

**The posting lifecycle** (`Collections`, `Lifecycle`, `Transactions`, `Eviction`, `Node`). Eight
collections of five services change together in transactions: the index of postings with its
word-by-URL projection, URL metadata with its staleness order, and the escrow in which postings
wait for the metadata of their URL. `Node.Vault` has the collections as fields and the services'
operations as methods, loop by loop; each is proved against a function on the whole state, and
the lemmas say what every run of those functions keeps. One promise of the code does not hold: the
staleness order is documented never to drift from the metadata, but storing a URL again with
another day leaves its earlier rank behind. The model keeps the code's behaviour, proves over whole
runs exactly when the order never drifts and what then holds of sweeps, and shows a run after which
sweeps in batches of one URL delete nothing although metadata is stored.

**Storage engines and keys** (`Keyspace`, `MemoryEngine`, `MemoryRuns`, `PebbleEngine`,
`EngineRuns`, `BoltEngine`, `BoltRuns`, `Successors`, `KeyParts`, `TextParts`). The Pebble engine
keeps all buckets in one ordered keyspace with a running tally of each, and the bolt engine keeps a
length counter beside each bucket; both are proved to refine the in-memory engine on every run of
transactions. Above them, typed key parts become byte ranges.

**Records** (`StoredFields`, `VarInts`, `RecordLayouts`, `UrlMetadataRecords`, `PostingRecords`,
`Appearances`, `CalendarDays`). Printer and parser of stored records, over any layout of fields,
and the append-only promise that a record written before some fields existed stays readable. It
holds for URL metadata. It fails for posting records cut before the language, and the lemma says
so as an if-and-only-if.

**Codecs** (`Punycode`, `Base64`, `Hashes`, `DhtRing`, `WireForm`, `PropertyPairs`,
`DecimalPrefixes`, `Languages`, `RwiPostings`, `Decimals`, `Separators`). The punycode encoder
against the decoder of section 6.2 of RFC 3492, enhanced base64 with its overflowing accumulator,
ring positions and distances modulo 2^63, and the wire line of a posting. A printer and a parser
that err alike still read each other, so alphabets, layouts, limits and the meaning of malformed
input are stated apart from both.

**Algorithms** (`Records`, `DerivationGraphs`, `DerivationReach`, `FormatCatalogs`,
`CleanedPaths`, `Backpaths`, `PeerSelection`, `PeerRoster`, `ReachedPeers`). Optimistic revision of
shared records under every interleaving, the graph check on format derivations and the recursion it makes safe,
two path normalisers, and the capped peer roster. A peer can be reachable without being stored in
the roster, because overflow is evicted before it is admitted; exactly when is proved for every
peer that is reached, and exactly for which capacities it never happens for whole runs.

`Wrappers`, `ByteStrings`, `Arithmetic`, `Cardinalities`, `KeyOrder` and `Sums` are shared by the
others.

`dafny verify dfyconfig.toml` checks the whole project.

## Model

| member | source | states |
|---|---|---|
| Lifecycle.EveryRunIsConsistent | services/yacynode/internal/rwiescrow/posting_escrow.go:88-109 | after any sequence of posting receipts, metadata receipts, expiries, sweep batches, hand-offs and aborted transactions from empty storage: every indexed posting is under its own identity and its URL has metadata; the word-by-URL set is the transpose of the index and the referenced set is its URLs; the escrow holds only postings of unknown URLs, with exactly one hold each, within its capacity; the freshness map ranks exactly the stored URLs and the order has every current rank |
| Lifecycle.IndexAndEscrowAreDisjoint | services/yacynode/internal/rwiadmission/posting_admission.go:43-54 | on every run no posting is both indexed and held, the index has only postings that can be redistributed, and holds and escrowed postings are equally many, no more than the capacity |
| Lifecycle.RunKeepsConsistent | services/yacynode/internal/rwipostings/posting_directory.go:43-69 | the agreement of all eight collections is kept from any consistent state, not only from the empty one |
| Lifecycle.StepKeepsConsistent | services/yacynode/internal/rwiadmission/posting_admission.go:25-70 | each kind of transaction keeps it, refused and aborted ones included |
| Lifecycle.RouteEachKeepsConsistent | services/yacynode/internal/rwiadmission/posting_admission.go:90-125 | routing a whole batch keeps the agreement when exactly the unknown URLs are awaited |
| Lifecycle.HoldKeepsEscrow | services/yacynode/internal/rwiescrow/posting_escrow.go:38-77 | holding a posting again replaces its one hold, holding a new one adds one, and the capacity is never exceeded |
| Lifecycle.StoreKeepsEscrow | services/yacynode/internal/rwiescrow/posting_escrow.go:88-109 | storing a URL takes all postings that wait for it, and exactly their holds, out of the escrow |
| Lifecycle.StoreKeepsStaleness | services/yacynode/internal/urlmetastaleness/staleness_order.go:60-74 | storing metadata keeps the freshness map on the stored URLs and every current rank in the order |
| Lifecycle.PurgeClearsIndex | services/yacynode/internal/eviction/quota_sweeper.go:93-112 | purging the postings of some URLs leaves exactly the postings, references and referenced URLs of all others |
| Lifecycle.RoutingEndsWithTheLastEntry | services/yacynode/internal/rwiadmission/posting_admission.go:90-125 | an accepted receipt leaves, for every identity it names, the last entry with it: in the index if its URL is known, and if not in the escrow, held since the time of that entry |
| Lifecycle.OtherIdentitiesStay | services/yacynode/internal/rwiadmission/posting_admission.go:90-125 | routing a batch changes no identity that the batch does not name, nor any metadata; what is awaited stays as it is in the index, and what is not in the escrow |
| Lifecycle.RoutingSucceedsIff | services/yacynode/internal/rwiescrow/posting_escrow.go:38-77 | a batch is routed if and only if the escrow holds already all that must wait, or together with it holds no more than its capacity |
| Lifecycle.HasRoomIff | services/yacynode/internal/rwiescrow/posting_escrow.go:38-77 | in numbers: no awaited posting is new to the escrow, or those escrowed and the new ones are together no more than the capacity |
| Lifecycle.MetadataReleasesWhatWaits | services/yacynode/internal/urlmeta/url_metadata_intake.go:51-91 | a batch of metadata moves a held posting into the index, as it was last held, exactly when the batch names its URL; otherwise it stays held unchanged |
| Lifecycle.StoredByTheFirstKnownDay | libraries/yacymodel/url_metadata.go:61-69 | metadata is stored under its URL, which is ranked by its loaded day, or else the modified day, or else the day until which it is fresh; metadata without a hash changes nothing |
| Lifecycle.LastMetadataStays | services/yacynode/internal/urlmeta/url_metadata_intake.go:51-91 | of a batch the last metadata of each URL is what stays stored and ranked |
| Lifecycle.HeldPostingsLeaveOnlyTwoWays | services/yacynode/internal/rwiescrow/posting_escrow.go:88-145 | no transaction loses a held posting except by indexing it when its metadata arrives, or by expiring it as one of the selected holds before the cutoff |
| Lifecycle.ExpiryDropsTheOldest | services/yacynode/internal/rwiescrow/posting_escrow.go:115-145 | an expiry batch drops as many holds as the limit and the holds before the cutoff allow, one posting with each, and none that stays is older |
| Node.Vault.ReceivePostings | services/yacynode/internal/rwiadmission/posting_admission.go:25-70 | a receipt is accepted exactly when storage has room, the context is done neither before the transaction nor at any entry, the commit is taken, and the postings of unknown URLs that are new to the escrow are none or fit its capacity; then the state is that of the routed batch and the missing URLs are returned. It is cancelled exactly when the context is done first and the escrow had room for the entries until then. Any other receipt is busy, and leaves every collection as it was |
| Node.Vault.RouteAll | services/yacynode/internal/rwiadmission/posting_admission.go:90-125 | the routing loop admits or holds entry by entry, undoes the whole batch when it is cut short, and tells a full escrow from a context that is done |
| Node.Vault.MissingURLs | services/yacynode/internal/urlmeta/url_metadata_directory.go:35-57 | the URLs without metadata in the order in which they are first named |
| Transactions.MissingHasEachOnce | services/yacynode/internal/urlmeta/url_metadata_directory.go:35-57 | those are exactly the named URLs without metadata, each once |
| Transactions.MissingInOrder | services/yacynode/internal/urlmeta/url_metadata_directory.go:35-57 | each of them is named for the first time after all those returned before it |
| Transactions.FullPrefixIsFull | services/yacynode/internal/rwiadmission/posting_admission.go:90-125 | a prefix of a batch that finds the escrow full makes the whole batch fail |
| Node.Vault.HoldBack | services/yacynode/internal/rwiescrow/posting_escrow.go:38-77 | holding fails exactly when the posting is new and the escrow holds as many as its capacity, and then changes nothing; otherwise the posting is escrowed, and held, at this time |
| Node.Vault.ReleaseWaiting | services/yacynode/internal/rwiescrow/posting_escrow.go:88-109 | the release loop indexes every waiting posting, in key order, and drops its hold: the same as releasing them all at once |
| Node.Vault.ReleaseHeld | services/yacynode/internal/rwiescrow/posting_escrow.go:201-213 | one held posting is admitted and its escrow entry and hold go |
| Node.Vault.DropHold | services/yacynode/internal/rwiescrow/posting_escrow.go:215-224 | one escrow entry and one hold go, and nothing else changes |
| Node.Vault.ExpireHolds | services/yacynode/internal/rwiescrow/posting_escrow.go:115-145 | an expiry batch leaves what dropping the selected holds leaves, reports how many there were, and keeps all invariants; what goes was held longer than the hold time |
| Node.Vault.HoldsPlacedBefore | services/yacynode/internal/rwiescrow/posting_escrow.go:183-199 | the scan collects the oldest holds before the cutoff, stopping at the limit |
| Node.Vault.AdmitPosting | services/yacynode/internal/rwipostings/posting_directory.go:43-53 | admitting a posting updates the index and both projections |
| Node.Vault.Purge | services/yacynode/internal/rwipostings/posting_directory.go:55-69 | purging reports whether the posting was there, and unmarks the URL as referenced when this was its last posting |
| Node.Vault.WordsReferencing | services/yacynode/internal/urlreferences/url_references.go:67-86 | exactly the words under which the URL is indexed, in ascending order |
| Node.Vault.StoreOne | services/yacynode/internal/urlmeta/url_metadata_intake.go:51-91 | storing one URL's metadata ranks it and releases what waits for it, and tells whether metadata was there before; metadata without a valid hash is skipped |
| Node.Vault.ReceiveUrls | services/yacynode/internal/urlmeta/url_metadata_intake.go:21-49 | a metadata receipt commits whole or not at all, not at all when the context is done before the transaction or at any entry; an accepted one counts the URLs that were stored before or come earlier in the batch |
| Transactions.DoublesAreCounted | services/yacynode/internal/urlmeta/url_metadata_intake.go:51-91 | counting at every turn the URLs that are stored then counts those stored before the batch or named earlier in it |
| Node.Vault.RankStored | services/yacynode/internal/urlmetastaleness/staleness_order.go:60-74 | a rank is added to the order and becomes the current one; no earlier rank is removed |
| Node.Vault.RankPurged | services/yacynode/internal/urlmetastaleness/staleness_order.go:78-94 | only the current rank of a purged URL is removed from the order |
| Node.Vault.StalestURLs | services/yacynode/internal/urlmetastaleness/staleness_order.go:39-58 | the URLs of the first entries of the order, up to the limit |
| Node.Vault.PurgeMetadata | services/yacynode/internal/urlmeta/url_metadata_directory.go:68-87 | one URL's metadata and current rank go, and the metadata collection shrinks by what is reported |
| Node.Vault.PurgePostingsOfUrl | services/yacynode/internal/eviction/quota_sweeper.go:93-112 | purging word by word what the projection names is the same as purging all of the URL's postings at once; the count is what the index lost |
| Transactions.PurgeOfAllWords | services/yacynode/internal/eviction/quota_sweeper.go:93-112 | purging the listed words one after another, the last one unmarking the URL, equals clearing the URL |
| Node.Vault.PurgeBatch | services/yacynode/internal/eviction/quota_sweeper.go:65-91 | a batch purges postings and metadata of the stalest URLs; its two counts are the drops in the sizes of the two collections |
| Node.Vault.SweepQuota | services/yacynode/internal/eviction/quota_sweeper.go:29-63 | the states of a sweep, from before it to after it, follow each other by sweep batches: every batch finds a reading at the high water mark or above, every batch before the last deletes a URL, and the sweep ends when the readings do, at a reading below the mark, or after a batch that deletes none. Without quota or batch size, and below the mark, nothing changes; at the mark, with an exact order and metadata stored, a URL is deleted. The totals are the drops in the sizes |
| Eviction.FewerAfterTheFirst | services/yacynode/internal/eviction/quota_sweeper.go:29-63 | while the order is exact, whatever batches a sweep runs it ends with fewer URLs than it began with |
| Eviction.BatchesKeepConsistent | services/yacynode/internal/eviction/quota_sweeper.go:29-63 | however many batches a sweep runs, all collections agree afterwards |
| Node.Vault.HandOffPostings | services/yacynode/internal/rwidistribution/postinghandoff/handoff.go:50-77 | exactly the postings that enough closer peers hold leave the index, as many as are counted, and all invariants are kept |
| Node.Vault.HeldElsewhereAreHeld | services/yacynode/internal/rwidistribution/postinghandoff/handoff.go:50-77 | the postings purged one after another are those held elsewhere |
| Node.Vault.HeldElsewhereAreCounted | services/yacynode/internal/rwidistribution/postinghandoff/handoff.go:50-77 | and their number is that of the places in the batch that are held elsewhere |
| Lifecycle.HandOffRemovesTheHeld | services/yacynode/internal/rwidistribution/postinghandoff/handoff.go:50-77 | a hand-off takes exactly the postings handed off out of the index, and leaves metadata, staleness and escrow alone |
| Lifecycle.HandOffKeepsConsistent | services/yacynode/internal/rwidistribution/postinghandoff/handoff.go:50-77 | it keeps the agreement of all collections |
| Eviction.PurgeClearsSelectedUrlsOnly | services/yacynode/internal/eviction/quota_sweeper.go:65-91 | after a sweep batch nothing of a selected URL is left in any collection, everything of the others is, and the escrow is untouched |
| Eviction.OrderStaysExactIff | services/yacynode/internal/urlmetastaleness/staleness_order.go:60-74 | storing metadata keeps the order exact (every URL once, at its current rank, nothing else) if and only if the URL is new or keeps its rank |
| Eviction.BatchKeepsOrderExactIff | services/yacynode/internal/urlmetastaleness/staleness_order.go:60-74 | a whole batch keeps the order exact if and only if none of it gives a stored URL another rank |
| Eviction.OtherStepsKeepOrderExact | services/yacynode/internal/urlmetastaleness/staleness_order.go:78-94 | receiving postings, expiry, sweeps, hand-offs and aborts keep an exact order exact |
| Eviction.OrderIsExactUnlessRankedAnew | services/yacynode/internal/urlmetastaleness/urlmetastaleness.go:1-6 | on every run that never stores a URL again with another rank, the order has exactly the stored URLs at the ranks of their days |
| Eviction.OrderNeverDriftsIff | services/yacynode/internal/urlmetastaleness/urlmetastaleness.go:1-6 | over any run from a consistent state with an exact order, the order is exact after every transaction if and only if no metadata of the run gives a stored URL another rank |
| Eviction.OrderNeverDriftsFromEmptyIff | services/yacynode/internal/urlmetastaleness/urlmetastaleness.go:1-6 | the same over every run from empty storage |
| Eviction.BatchProgressesIff | services/yacynode/internal/eviction/quota_sweeper.go:55-57 | a sweep batch deletes a URL if and only if the entries it selects name a stored URL |
| Eviction.BatchWithoutProgressIsStuck | services/yacynode/internal/eviction/quota_sweeper.go:55-57 | a batch that deletes no URL changes nothing at all |
| Eviction.ExactOrderMakesProgress | services/yacynode/internal/eviction/quota_sweeper.go:29-63 | while the order is exact, every batch deletes a URL if any is stored |
| Eviction.BatchSelectsTheStalest | services/yacynode/internal/urlmetastaleness/staleness_order.go:39-58 | while the order is exact, no URL that a batch leaves is of an earlier day than one it selects |
| Eviction.RankOrderIsDayOrder | services/yacynode/internal/urlmetastaleness/staleness_order.go:14-18 | for years 0 to 9999 the text order of ranks is the order of days, with unknown days first |
| Eviction.DriftedOrderStopsEviction | services/yacynode/internal/urlmetastaleness/urlmetastaleness.go:1-6 | the order does drift: a URL stored, stored again with a later day and purged leaves an entry that stops every later batch of one URL although metadata is stored |
| EngineRuns.PebbleRefinesMemory | libraries/vaultengines/pebblevault/engine.go:110-125 | from empty storage, every run of provisioning and of committed and aborted transactions over provisioned buckets gets the same answers from the Pebble engine as from the in-memory engine: values, deletions, ordered scans cut short by any visitor, lengths and used bytes |
| EngineRuns.RunsAgree | libraries/vaultengines/memoryvault/engine.go:47-62 | the same from any two states that agree |
| EngineRuns.StepsAgree | libraries/vaultengines/pebblevault/pebble_bucket.go:17-66 | every single call answers alike and keeps the two engines agreeing |
| PebbleEngine.PutRepresents | libraries/vaultengines/pebblevault/pebble_bucket.go:21-38 | after a put, the keyspace answers for the changed bucket and all others, and the written tally is its entry count and byte sum; the clamps at zero do not act |
| PebbleEngine.DeleteRepresents | libraries/vaultengines/pebblevault/pebble_bucket.go:40-56 | the same after a delete, of a present or an absent key |
| PebbleEngine.ScanIsolated | libraries/vaultengines/pebblevault/stored_entries.go:32-62 | iterating the bounds of a region visits exactly that bucket's entries in range, in relative key order |
| PebbleEngine.TalliesAddUp | libraries/vaultengines/pebblevault/bucket_tally.go:98-114 | the tallies in the keyspace add up to the key and value bytes of all buckets |
| PebbleEngine.TalliesHeld | libraries/vaultengines/pebblevault/bucket_tally.go:98-114 | so does the scan of the tally region that reads and decodes them one by one, and it never fails |
| PebbleEngine.TallyReadsBack | libraries/vaultengines/pebblevault/bucket_tally.go:60-96 | a tally of two machine integers is read back from its stored form |
| EngineRuns.Engine.AdjustTally | libraries/vaultengines/pebblevault/bucket_tally.go:73-88 | the tally changes by the deltas, clamped at zero, unless it cannot be read |
| EngineRuns.Engine.PutEntry | libraries/vaultengines/pebblevault/pebble_bucket.go:21-38 | the put writes entry and tally into the staged batch only |
| EngineRuns.Engine.DeleteEntry | libraries/vaultengines/pebblevault/pebble_bucket.go:40-56 | the delete reports whether the key was there, and changes entry and tally only if it was |
| EngineRuns.Engine.LenOf | libraries/vaultengines/pebblevault/pebble_bucket.go:58-62 | the length is the tally's entry count |
| EngineRuns.Engine.ScanEntries | libraries/vaultengines/pebblevault/stored_entries.go:32-62 | the scan shows the visitor one entry after another until it says to stop |
| EngineRuns.Engine.HeldBytes | libraries/vaultengines/pebblevault/bucket_tally.go:98-114 | the loop over the tally region adds up the tallies of what is committed |
| EngineRuns.Engine.CommitBatch | libraries/vaultengines/pebblevault/engine.go:110-125 | a commit makes the staged batch the stored state |
| EngineRuns.Engine.ReleaseBatch | libraries/vaultengines/pebblevault/engine.go:110-125 | a discarded batch leaves the stored state, and later reads see it |
| Keyspace.RegionsAreDisjoint | libraries/vaultengines/pebblevault/keyspace_region.go:9-29 | no key lies in two bucket regions, or in a bucket region and the tally region, whatever the bucket names are |
| Keyspace.BoundsAreTheRange | libraries/vaultengines/pebblevault/keyspace_region.go:35-42 | a key is between the bounds of a region exactly when it has the region's prefix and its relative part is in range |
| Keyspace.FirstAbsoluteKeyAfter | libraries/vaultengines/pebblevault/keyspace_region.go:44-52 | the backwards loop ends and finds the least key after the region |
| Successors.PrefixRange | libraries/vault/key_range.go:19-33 | a byte string has a prefix exactly when it is at least the prefix and below the prefix's successor |
| Successors.SuccessorOf | libraries/vault/key_range.go:19-33 | the backwards scan computes that successor, and none when every byte is 0xFF |
| MemoryRuns.Engine.Get | libraries/vaultengines/memoryvault/transaction.go:24-31 | the answer is that model's, and the state stays |
| MemoryRuns.Engine.Put | libraries/vaultengines/memoryvault/transaction.go:33-37 | the put takes the engine to the next state of the model that the Pebble engine is proved to refine |
| MemoryRuns.Engine.Delete | libraries/vaultengines/memoryvault/transaction.go:39-46 | state and answer are that model's, for a present and an absent key |
| MemoryRuns.Engine.Len | libraries/vaultengines/memoryvault/transaction.go:48-50 | the number of entries is that model's answer |
| MemoryRuns.Engine.Scan | libraries/vaultengines/memoryvault/transaction.go:52-78 | the visitor is shown that model's entries: those in range in key order until it says to stop |
| MemoryEngine.EntriesAre | libraries/vaultengines/memoryvault/transaction.go:52-86 | the entries of a scan are exactly those whose keys are in range, each once, in the order of the keys |
| MemoryEngine.VisitedAre | libraries/vaultengines/memoryvault/transaction.go:52-64 | the visitor sees the first of them, up to and with the first that it does not go on from |
| MemoryRuns.ReadsItsWrites | libraries/vaultengines/memoryvault/transaction.go:24-46 | a transaction reads what it put or deleted, and everything else as it was before |
| MemoryRuns.Engine.UsedBytes | libraries/vaultengines/memoryvault/engine.go:88-104 | the loops over buckets and entries compute that model's answer, the lengths of all keys and values that are committed |
| MemoryEngine.SizeIs | libraries/vaultengines/memoryvault/engine.go:88-104 | the size of a bucket is the lengths of its keys and values, entry by entry |
| MemoryEngine.UsedIs | libraries/vaultengines/memoryvault/engine.go:88-104 | and the bytes in use are the sizes of all buckets |
| MemoryRuns.Engine.Provision | libraries/vaultengines/memoryvault/engine.go:36-45 | provisioning a bucket takes the engine to that model's next state, a bucket that is there keeping its entries |
| MemoryRuns.ProvisionKeepsEntries | libraries/vaultengines/memoryvault/engine.go:36-45 | provisioning adds an empty bucket at most, and changes no other and no entry |
| EngineRuns.ProvisionedRepresents | libraries/vaultengines/pebblevault/engine.go:106-108 | an empty bucket is like none, so the Pebble engine has nothing to do to provision one |
| MemoryRuns.Engine.Commit | libraries/vaultengines/memoryvault/engine.go:47-62 | the staged copy becomes what is committed, as in that model |
| BoltRuns.BoltRefinesMemory | libraries/vaultengines/boltvault/bolt_bucket.go:18-70 | from empty storage, every run of provisioning and of committed and aborted transactions gets the same values, deletions, ordered scans and lengths from bolt as from the in-memory engine |
| BoltRuns.RunsAgree | libraries/vaultengines/boltvault/bolt_bucket.go:18-70 | the same from any two states that agree, where every counter is its bucket's number of entries |
| BoltRuns.StepsAgree | libraries/vaultengines/boltvault/bolt_bucket.go:18-70 | every single call answers alike and keeps every counter exact; no counter is ever unreadable |
| BoltRuns.OnlyTheReservedNameIsRefused | libraries/vaultengines/boltvault/engine.go:94-100 | provisioning answers as in memory if and only if the name is not the one under which bolt keeps its counters |
| BoltEngine.BoltBucket.AdjustLength | libraries/vaultengines/boltvault/bucket_length.go:39-52 | the stored counter changes by the delta, clamped at zero, unless it cannot be read |
| BoltEngine.BoltBucket.Put | libraries/vaultengines/boltvault/bolt_bucket.go:22-32 | after a put the stored counter is the bucket's entry count, and no other counter is changed, removed or added |
| BoltEngine.BoltBucket.Delete | libraries/vaultengines/boltvault/bolt_bucket.go:34-46 | the same after a delete, which reports whether the key was there |
| BoltEngine.BoltBucket.Len | libraries/vaultengines/boltvault/bolt_bucket.go:48-50 | the length read from the counter is the entry count |
| BoltEngine.BoltBucket.Scan | libraries/vaultengines/boltvault/bolt_bucket.go:52-78 | the cursor shows the visitor exactly what the in-memory engine would |
| BoltEngine.LengthReadsBack | libraries/vaultengines/boltvault/bucket_length.go:23-52 | an eight byte counter is read back |
| BoltEngine.CounterIs | libraries/vaultengines/boltvault/bucket_length.go:23-37 | no counter means none; a counter of another length than eight bytes, or beyond the integers, is an error, and any other is the number that its bytes write, the high one first |
| BoltEngine.EntriesAreBetween | libraries/vaultengines/boltvault/bolt_bucket.go:72-82 | the entries in range are those from the place the cursor seeks up to the first excluded key |
| KeyParts.RangesAreExact | libraries/vault/key_part.go:15-49 | the four ranges hold exactly the keys whose first part is equal to the value, at least it, at most it, and below it, whatever follows, for ascending and descending parts |
| KeyParts.FirstPartDecides | libraries/vault/key_part.go:15-49 | keys with different first parts are ordered by them, backwards for a descending part |
| KeyParts.PartsReadBack | libraries/vault/triple_key_parts.go:17-76 | the parts of pairs and triples are read back from their keys |
| KeyParts.PairOrder | libraries/vault/pair_key_parts.go:12-33 | the byte order of pair keys is the order of their parts, part by part, each part in its own direction |
| KeyParts.FirstPartThenRest | libraries/vault/key_part.go:137-158 | keys are ordered by their first parts, and those with the same first part by the rest |
| KeyParts.TripleOrder | libraries/vault/triple_key_parts.go:17-39 | the same for triples, in any mix of directions |
| TextParts.TextIsOrderly | libraries/vault/key_part.go:66-85 | escaped, terminated byte strings provide all that the ranges need: order, prefix freedom, reading back, and an end below 0xFF |
| TextParts.DescendingTextIsOrderly | libraries/vault/key_part.go:137-158 | so do the same bytes inverted, for descending parts |
| TextParts.EscapedKeepsOrder | libraries/vault/key_part.go:66-85 | escaping keeps the byte order |
| TextParts.EscapedReadsBack | libraries/vault/key_part.go:66-85 | an escaped text is read back, whatever follows it |
| TextParts.UnescapedIs | libraries/vault/key_part.go:66-85 | a text that does not end is malformed, and so is a pair of bytes that starts like an escape and is none |
| VarInts.UvarintReadsBack | libraries/storedfields/writer.go:33-38 | every 64-bit number is read back from its variable-length form, whatever follows |
| VarInts.UvarintPrefixFree | libraries/storedfields/writer.go:33-38 | no variable-length form is a prefix of another |
| VarInts.VarintReadsBack | libraries/storedfields/writer.go:40-44 | so is every signed 64-bit number |
| VarInts.ReadUvarintIs | libraries/storedfields/reader.go:60-91 | low bits come first, seven to a byte; a number that its bytes do not end, that takes more than ten bytes, or more than 64 bits, is malformed |
| StoredFields.CountReadsBackIff | libraries/storedfields/reader.go:60-77 | a count is read back if and only if it is no more than the largest signed integer |
| StoredFields.MachineCountReadsBackIff | libraries/storedfields/writer.go:33-38 | a signed integer written as a count is read back if and only if it is not negative |
| StoredFields.TextReadsBack | libraries/storedfields/reader.go:127-152 | a length-prefixed text is read back, whatever follows |
| StoredFields.Reader.Fixed | libraries/storedfields/reader.go:113-125 | a fixed number of bytes is taken, zeros at the end of the record, and a failure when only some are left; a reader that has failed stays failed |
| StoredFields.Reader.Byte | libraries/storedfields/reader.go:38-45 | one byte is taken, zero at the end; a reader that has failed stays failed |
| StoredFields.Reader.Presence | libraries/storedfields/reader.go:47-49 | a presence byte is taken, and absent at the end; a reader that has failed stays failed |
| StoredFields.Reader.Wide | libraries/storedfields/reader.go:51-58 | a little-endian number is taken, zero at the end; a reader that has failed stays failed |
| StoredFields.Reader.Count | libraries/storedfields/reader.go:60-77 | a variable-length count is taken, zero at the end; one that is malformed or too large fails; a reader that has failed stays failed |
| StoredFields.Reader.Signed | libraries/storedfields/reader.go:79-91 | a signed variable-length number is taken, zero at the end; a reader that has failed stays failed |
| StoredFields.Reader.Text | libraries/storedfields/reader.go:127-152 | a text is taken, empty at the end; one longer than what is left fails; a reader that has failed stays failed |
| StoredFields.Writer.Presence | libraries/storedfields/writer.go:18-25 | one byte tells presence |
| StoredFields.Writer.Wide | libraries/storedfields/writer.go:27-31 | a little-endian number is appended |
| StoredFields.Writer.Count | libraries/storedfields/writer.go:33-38 | a variable-length count is appended |
| StoredFields.Writer.Signed | libraries/storedfields/writer.go:40-44 | a signed variable-length number is appended |
| StoredFields.Writer.Text | libraries/storedfields/writer.go:60-69 | a length and the bytes are appended |
| RecordLayouts.FieldReadsBack | libraries/storedfields/doc.go:1-7 | every kind of field is read back from what was written of it, whatever follows |
| RecordLayouts.PastTheEnd | libraries/storedfields/doc.go:1-7 | at the end of a record every field is its zero without an error, except a required language |
| RecordLayouts.CutRecordReadsBackIff | libraries/storedfields/doc.go:1-7 | a record of the first fields of any layout is readable if and only if no required language is among the missing ones; it then gives those fields and zeros |
| RecordLayouts.RecordReadsBackIff | libraries/storedfields/reader.go:12-162 | a whole record of any layout is read back if every field fits its reader, and is rejected if one does not |
| RecordLayouts.UnfitIsRejected | libraries/storedfields/reader.go:12-162 | negative counts and years, coordinates out of range and a missing language are rejected by the reader of their field |
| RecordLayouts.IsPointIff | libraries/yacymodel/coordinates.go:21-35 | coordinates are in range exactly when neither float is beyond 90 or 180 on either side; what is no number is not beyond |
| RecordLayouts.FailureStaysToTheEnd | libraries/storedfields/reader.go:154-162 | after a malformed field the record fails whatever fields follow |
| RecordLayouts.TagsFitTheBytesLeft | services/yacynode/internal/urlmeta/stored_url_metadata_codec.go:186-205 | the guard against tag counts beyond the bytes left never rejects a written list |
| RecordLayouts.ReadTags | services/yacynode/internal/urlmeta/stored_url_metadata_codec.go:186-205 | the loop reads as many tags as counted, and rejects a count beyond the bytes left |
| RecordLayouts.ReadHash | services/yacynode/internal/urlmeta/stored_url_metadata_codec.go:94-107 | an optional hash is read |
| RecordLayouts.ReadSpoken | services/yacynode/internal/urlmeta/stored_url_metadata_codec.go:119-132 | an optional language is read, and a code that is not two letters rejected |
| RecordLayouts.ReadPoint | services/yacynode/internal/urlmeta/stored_url_metadata_codec.go:147-162 | optional coordinates are read, and rejected out of range |
| RecordLayouts.ReadDay | services/yacynode/internal/urlmeta/stored_url_metadata_codec.go:175-184 | an optional day is read and normalised |
| CalendarDays.RealDayIsItself | libraries/yacymodel/calendar_day.go:12-20 | a real day of the calendar is what its own parts are normalised to |
| CalendarDays.NewCalendarDayIs | libraries/yacymodel/calendar_day.go:12-20 | a month past December is one of the next year, a day past its month one of the next month, and day and month zero the last ones before |
| UrlMetadataRecords.MetadataReadsBackIff | services/yacynode/internal/urlmeta/stored_url_metadata_codec.go:13-83 | metadata is read back from its record if and only if it has no negative count or year and its coordinates are in range; any other record is rejected as malformed |
| UrlMetadataRecords.WellFormedIff | services/yacynode/internal/urlmeta/stored_url_metadata_codec.go:13-83 | well-formed is what has coordinates in range or none, no year before year zero, and no negative count |
| UrlMetadataRecords.RecordIs | services/yacynode/internal/urlmeta/stored_url_metadata_codec.go:13-43 | the record is the address, the referrer, the title and so on to the favicon, in the order and with the bytes of each |
| UrlMetadataRecords.FirstFieldsDecode | libraries/storedfields/doc.go:1-7 | a record of the first fields only, at least one, decodes to those fields and zeros for the rest |
| UrlMetadataRecords.Encode | services/yacynode/internal/urlmeta/stored_url_metadata_codec.go:13-43 | for all metadata, the writer appends the twenty-three fields in their order |
| UrlMetadataRecords.Decode | services/yacynode/internal/urlmeta/stored_url_metadata_codec.go:45-83 | the reader gives the metadata of the fields; empty values and malformed fields are the two errors |
| PostingRecords.PostingReadsBackIff | services/yacynode/internal/rwipostings/posting_directory_vault.go:46-97 | a posting is read back from its record, but for the hashes, which are in its key, if and only if it has a language and no negative count; any other record is rejected as malformed |
| PostingRecords.RecordIs | services/yacynode/internal/rwipostings/posting_directory_vault.go:46-65 | the record is the day, the word counts and so on to the phrase position, in the order and with the bytes of each |
| PostingRecords.FirstFieldsDecodeIff | services/yacynode/internal/rwipostings/posting_directory_vault.go:67-108 | a record of the first fields decodes if and only if the language is one of them: against the promise of the stored fields, a shorter one is rejected |
| PostingRecords.Encode | services/yacynode/internal/rwipostings/posting_directory_vault.go:46-65 | for all postings, the writer appends the fifteen fields in their order |
| PostingRecords.Decode | services/yacynode/internal/rwipostings/posting_directory_vault.go:67-97 | the reader gives the posting of the fields; empty values and malformed fields are the two errors |
| Appearances.MaskReadsBack | services/yacynode/internal/rwipostings/posting_directory_vault.go:127-143 | all twelve flags are read back from the mask they are packed into |
| Appearances.PackAppearance | services/yacynode/internal/rwipostings/posting_directory_vault.go:127-135 | the loop sets the mask's bits in the order of the flags |
| Appearances.UnpackAppearance | services/yacynode/internal/rwipostings/posting_directory_vault.go:137-143 | the loop reads them back in that order |
| Appearances.MaskBits | services/yacynode/internal/rwipostings/posting_directory_vault.go:110-143 | which flag is which bit of the mask, and that no other bit is set |
| Appearances.FieldReadsBack | libraries/yacyproto/appearance_wire.go:22-54 | all flags are read back from the bitfield of four bytes |
| Appearances.FieldBits | libraries/yacyproto/appearance_wire.go:22-54 | which flag is which bit of the four bytes, and that no other bit is set |
| Appearances.FlagOfWithFlag | libraries/yacyproto/bitfield_bit_access.go:22-49 | setting a flag of a bitfield changes that flag and no other |
| Appearances.SetBit | libraries/yacyproto/bitfield_bit_access.go:39-49 | the bit is set or cleared in place, and a position outside the field changes nothing |
| Appearances.BitfieldFromAppearance | libraries/yacyproto/appearance_wire.go:39-54 | the twelve flags are set in a fresh bitfield |
| Appearances.AppearanceFromBitfield | libraries/yacyproto/appearance_wire.go:22-37 | each flag is the bit at its position, unset when the field is too short |
| Punycode.RoundTrip | libraries/yacymodel/host_punycode.go:44-95 | the decoder of section 6.2 of RFC 3492, with its own digits, thresholds and biases, gives back every sequence of code points from its encoding |
| Punycode.EncodingIsInjective | libraries/yacymodel/host_punycode.go:44-95 | no two sequences have the same encoding |
| Punycode.PunycodeEncode | libraries/yacymodel/host_punycode.go:44-95 | the nested loops end and compute an encoding that the decoder reads back, whose digits, thresholds and biases are its own |
| Punycode.VisitKeepsSync | libraries/yacymodel/host_punycode.go:70-90 | at every code point of every walk the decoder, run on what is written so far, stays behind the encoder by exactly the delta |
| Punycode.VarIntReadsBack | libraries/yacymodel/host_punycode.go:76-85 | the integers of section 3.3 of RFC 3492 are read back exactly, whatever follows them |
| Punycode.WriteVarInt | libraries/yacymodel/host_punycode.go:76-85 | the digit loop ends and writes that form; digits stay within the alphabet and are never the delimiter |
| Punycode.RoundGrows | libraries/yacymodel/host_punycode.go:61-93 | every round of the outer loop handles at least one more code point |
| Punycode.LeastCodePointFrom | libraries/yacymodel/host_punycode.go:62-67 | the search finds the least code point not yet handled |
| Punycode.PunyAdapt | libraries/yacymodel/host_punycode.go:108-121 | the loop computes the adapted bias |
| Punycode.BiasOfADelta | libraries/yacymodel/host_punycode.go:108-121 | the bias is 36 j + 36 e / (e + 38), where d is the delta over 700 the first time and over 2 later, and that over the number of points more, and j the least number of divisions by 35 that take d to an e of 455 or less |
| Punycode.AdaptIsTheRfcs | libraries/yacymodel/host_punycode.go:108-121 | the encoder's adaptation is the decoder's own one for every delta |
| Punycode.ThresholdIsTheRfcThreshold | libraries/yacymodel/host_punycode.go:97-106 | the threshold, written with other comparisons, is the standard's |
| Punycode.ThresholdOfABias | libraries/yacymodel/host_punycode.go:97-106 | the threshold of position k is k less the bias, but no less than 1 and no more than 26 |
| Punycode.DigitsAreLowerCase | libraries/yacymodel/host_punycode.go:123-128 | the digits are the small letters and then the decimal digits |
| Base64.BytesReadBack | libraries/yacymodel/alphabet.go:25-69 | decoding undoes encoding for every byte string |
| Base64.TextReadsBack | libraries/yacymodel/alphabet.go:25-69 | encoding undoes decoding for every text of whole groups, so hash bytes and hash text are inverse |
| Base64.SymbolsAreText | libraries/yacymodel/alphabet.go:25-44 | an encoding has only symbols of the alphabet, one for every six bits or part of them |
| Base64.AlphabetIs | libraries/yacymodel/alphabet.go:8-23 | capital letters, small letters, digits, minus and underscore, in this order; no other byte has a value |
| Base64.GroupEncoded | libraries/yacymodel/alphabet.go:25-44 | three bytes are four symbols of six bits each, the first bits first |
| Base64.RestEncoded | libraries/yacymodel/alphabet.go:25-44 | one or two bytes left over are padded with zero bits to two or three symbols |
| Base64.ReadableIff | libraries/yacymodel/alphabet.go:46-69 | a text is decoded if and only if every byte is a symbol or a line break, and a line break changes nothing |
| Base64.RestDecoded | libraries/yacymodel/alphabet.go:46-69 | bits left over that make no whole byte are dropped |
| Base64.Encode | libraries/yacymodel/alphabet.go:25-44 | the loop over a 32-bit accumulator that overflows computes the same encoding as one that never does |
| Base64.Decode | libraries/yacymodel/alphabet.go:46-69 | so does the decoding loop; line breaks are skipped and any other foreign symbol is an error |
| Hashes.ParseHash | libraries/yacymodel/hash.go:20-30 | exactly the texts of twelve symbols are hashes |
| Hashes.BytesAreOfAHash | libraries/yacymodel/hash.go:32-43 | exactly the strings of nine bytes are the bytes of a hash |
| Hashes.HashOfItsBytes | libraries/yacymodel/hash.go:32-60 | a hash is the hash of its own bytes |
| Hashes.WordHash | libraries/yacymodel/hash.go:76-86 | the shift loop ends after eight rounds at most, with the first shift of the text of the digest's first nine bytes that does not start with five underscores |
| Hashes.DigestTextIsOfNineBytes | libraries/yacymodel/hash.go:76-86 | the first twelve symbols of a digest are the text of its first nine bytes, and are decoded to them |
| Hashes.FirstUnreservedIs | libraries/yacymodel/hash.go:76-86 | shifting by k leaves the symbols after the first k and fills up with the letter A; k is 8 at most, and every symbol shifted away or among the next four was an underscore |
| DhtRing.DhtRingPositionOf | libraries/yacymodel/dht_position.go:42-55 | the loop computes the number that the first ten symbols write in base 64, on the ring, its low three bits set |
| DhtRing.HashFromDhtRingPosition | libraries/yacymodel/dht_position.go:60-74 | the loop writes the position's digits and fills up with the highest symbol |
| DhtRing.PositionReadsBack | libraries/yacymodel/dht_position.go:42-74 | a position turned into a hash and placed again keeps all but its low three bits, which are set |
| DhtRing.HashReadsBack | libraries/yacymodel/dht_position.go:42-74 | a hash placed and turned back keeps its first ten symbols |
| DhtRing.PositionIs | libraries/yacymodel/dht_position.go:42-55 | the position is the number that the first ten symbols write in base 64, times eight and seven more; a shorter text counts as filled up with the letter A |
| DhtRing.PlacesAre | libraries/yacymodel/dht_position.go:96-120 | there are 2^e partitions of 2^(63-e) positions each; a posting lies at the remainder of its word and the partition of its URL, and the distance is a remainder too |
| DhtRing.DistanceIsTheDifference | libraries/yacymodel/dht_position.go:79-85 | the two-case distance is the difference modulo 2^63, and walking it from one position reaches the other |
| DhtRing.DistanceIsTheLeastOfAllPartitions | libraries/yacymodel/dht_position.go:112-120 | the masked, wrapping distance is the least forward distance to the peer from the word's places in all 2^e partitions, and one of them has it |
| DhtRing.PostingsGoToThePlaces | libraries/yacymodel/dht_position.go:96-105 | every posting of a word is placed at the word's place in the partition of its URL |
| DhtRing.ShiftLengthOfExponent | libraries/yacymodel/dht_position.go:33-35 | the number of bits of 2^e is e + 1 |
| WireForm.LineReadsBackIff | libraries/yacyproto/rwi_posting_wire_form.go:66-80 | a printed line is read back if and only if the posting has both hashes and a language; what is read is the posting with every cardinal, negative ones included, modulo its column |
| WireForm.BatchReadsBack | libraries/yacyproto/rwi_posting_wire_form.go:101-146 | a printed batch has, line by line and in order, exactly its complete postings, reduced |
| WireForm.CompleteBatchReadsBack | libraries/yacyproto/rwi_posting_wire_form.go:99-146 | a batch of complete postings is read back whole and in order, or the first thousand of it |
| WireForm.DomainReadsBack | libraries/yacyproto/rwi_posting_wire_form.go:162-263 | the columns of a posting give back the posting, reduced, if and only if its URL and language are set |
| WireForm.TypeReadsBack | libraries/yacyproto/rwi_posting_wire_form.go:14-62 | a known document type survives its character, any other becomes unknown |
| WireForm.MicroDateEncoded | libraries/yacyproto/micro_date_wire.go:13-20 | a day, negative ones included, is sent modulo 2^18 |
| WireForm.DecodeLine | libraries/yacyproto/rwi_posting_wire_form.go:66-76 | the line parser finds the word, the braces and the properties, or fails |
| WireForm.PostedIs | libraries/yacyproto/rwi_posting_wire_form.go:265-286 | a line is a word hash, an opening brace, the pairs and a closing brace; any other line, and one whose word is no hash or whose pairs are malformed, has no posting |
| WireForm.LanguageIs | libraries/yacyproto/rwi_posting_wire_form.go:217-224 | a language is read from the first two letters of its column, whatever longer code a peer sends; fewer than two letters, or other bytes, are none |
| WireForm.DomainIs | libraries/yacyproto/rwi_posting_wire_form.go:162-197 | a posting is read exactly when its URL hash, language and flags are; each cardinal is cut to the width of its own column |
| WireForm.DocumentTypesAre | libraries/yacyproto/rwi_posting_wire_form.go:37-62 | which letter is which document type, and that any other letter is the unknown one |
| WireForm.EncodeLine | libraries/yacyproto/rwi_posting_wire_form.go:78-80 | the word and the property form make the line |
| WireForm.ColumnsWritten | libraries/yacyproto/rwi_posting_wire_form.go:242-263 | a line has exactly the sixteen columns, each with its field of the posting |
| WireForm.EncodeLines | libraries/yacyproto/rwi_posting_wire_form.go:101-108 | the lines are joined by line breaks |
| WireForm.DecodeLines | libraries/yacyproto/rwi_posting_wire_form.go:112-146 | blank and malformed lines are dropped, and the first thousand postings kept |
| WireForm.OnLineIs | libraries/yacyproto/rwi_posting_wire_form.go:112-146 | carriage returns at the end of a line are dropped, and a blank line has no posting |
| PropertyPairs.PropertiesReadBack | libraries/yacyproto/property_pairs.go:19-33 | properties with plain keys and values are read back from their printed form |
| PropertyPairs.ParsePropertyPairs | libraries/yacyproto/property_pairs.go:19-33 | the loop reads pair after pair, trimmed, the last value of a key winning, and fails on a pair without an equals sign or without a key before it |
| PropertyPairs.ParsedIff | libraries/yacyproto/property_pairs.go:19-33 | a form is parsed if and only if every part that is not blank has an equals sign after its first byte |
| PropertyPairs.OneMoreParsed | libraries/yacyproto/property_pairs.go:19-33 | what is before the first equals sign of a part, trimmed, is the key of what is after it, trimmed; a later value of the same key replaces it |
| PropertyPairs.TrimmedIs | libraries/yacyproto/property_pairs.go:19-33 | trimming takes the six white space bytes of ASCII from both ends and nothing else |
| PropertyPairs.PropertyForm | libraries/yacyproto/rwi_posting_wire_form.go:292-310 | the pairs are written in the order of their keys |
| PropertyPairs.BodyIsInOrder | libraries/yacyproto/rwi_posting_wire_form.go:292-310 | the pairs are joined by commas in ascending order of the keys |
| DecimalPrefixes.WrittenReadsBack | libraries/yacyproto/rwi_posting_wire_form.go:317-350 | a number printed by one side is read by the other modulo 2^64 |
| DecimalPrefixes.ParseDecimalPrefix | libraries/yacyproto/rwi_posting_wire_form.go:317-343 | the reader takes spaces, one sign and digits, and stops at anything else; digits beyond 64 bits count as none |
| DecimalPrefixes.PrefixIs | libraries/yacyproto/rwi_posting_wire_form.go:317-343 | on every text of spaces, at most one sign, digits and something else: the number the digits write, negative after a minus, and none without digits or beyond 64 bits |
| DecimalPrefixes.NumbersAre | libraries/yacyproto/rwi_posting_wire_form.go:317-350 | digits are decimal, and a negative number is taken from the top of the 64 bits |
| Records.NoUpdateIsLost | services/yacycrawler/internal/jetstreamrecord/records.go:31-127 | in every interleaving of any calls, what stands at a key is the outcome of exactly the committed revisions, each applied to the value committed before it |
| Records.ReportsAreTrue | services/yacycrawler/internal/jetstreamrecord/records.go:31-71 | a call that reports a revision made exactly one write, of its revision of the value committed just before; every other call made none |
| Records.ContentionIsProgress | services/yacycrawler/internal/jetstreamrecord/records.go:31-51 | a call that gives up as contended made no write, and since it began others made at least five writes to its key; one that reports no revision had none to make |
| Records.StepIsSound | services/yacycrawler/internal/jetstreamrecord/records.go:53-127 | every fetch, write, conflict, pause and cancellation keeps the state sound |
| Records.WriteIsSound | services/yacycrawler/internal/jetstreamrecord/records.go:94-127 | so does a write that succeeds, for the writer and for every call that holds a record of the key |
| Records.ReplayedIsTheLatest | services/yacycrawler/internal/jetstreamrecord/records.go:94-127 | replaying the revisions behind any number of the first commits gives the latest of them |
| Records.Records.Revise | services/yacycrawler/internal/jetstreamrecord/records.go:31-51 | the retry loop makes one to five attempts, with any steps of other calls in between; every attempt but the last lost its write to others and was not cancelled after it; the outcome is how the last one ends, and contended only after five |
| Records.EndOfACall | services/yacycrawler/internal/jetstreamrecord/records.go:31-51 | a call whose last attempt had nothing to write, or met no write of others between its fetch and its own, reports what it read and revised; otherwise it is cancelled if and only if the pause after that was |
| Records.EarlierAttemptsLost | services/yacycrawler/internal/jetstreamrecord/records.go:31-51 | before every attempt after the first, others wrote to the key between the fetch and the write of the one before, which was not cancelled |
| Records.Records.Attempt | services/yacycrawler/internal/jetstreamrecord/records.go:31-51 | an attempt is cancelled exactly when others were first and the pause was cancelled, is to be repeated exactly when others were first and it was not, and reports otherwise |
| Records.Records.ReviseOnce | services/yacycrawler/internal/jetstreamrecord/records.go:53-71 | one attempt is a fetch, whatever others do, and a conditional write, which is contended exactly when others wrote in between |
| Records.Records.StandingRecordAt | services/yacycrawler/internal/jetstreamrecord/records.go:78-92 | the record and revision that stand, or the absent record and revision zero |
| Records.Records.WriteRecord | services/yacycrawler/internal/jetstreamrecord/records.go:94-127 | creating needs an absent key and replacing the revision that was read; otherwise nothing is written |
| DerivationReach.EnsureNoCycle | libraries/pageformats/internal/derivationreach/derivation_reach.go:44-53 | accepts exactly the derivation graphs without a cycle |
| DerivationReach.Walk.EnsureNoCycleFrom | libraries/pageformats/internal/derivationreach/derivation_reach.go:55-70 | the depth-first walk ends on every graph, restores what was pending, and accepts exactly when no path from the format meets a pending format or itself |
| DerivationGraphs.SafeEverywhereIffAcyclic | libraries/pageformats/internal/derivationreach/derivation_reach.go:44-70 | walks from all targets are safe if and only if there is no cycle anywhere |
| DerivationReach.FormatsReaching | libraries/pageformats/internal/derivationreach/derivation_reach.go:96-113 | the worklist ends and finds exactly the formats with a path to the target |
| DerivationReach.ReachedByAnyOf | libraries/pageformats/internal/derivationreach/derivation_reach.go:83-94 | true exactly when an emitted format has a path to the target |
| DerivationReach.EnsureNoDanglingFormat | libraries/pageformats/internal/derivationreach/derivation_reach.go:72-81 | accepts exactly when every target is reached from an emitted format |
| DerivationReach.EnsureFormatsDerivable | libraries/pageformats/internal/derivationreach/derivation_reach.go:15-24 | derivations are accepted exactly when they have no cycle and leave no format dangling, and the cycle is reported first |
| DerivationReach.DerivationReachOf | libraries/pageformats/internal/derivationreach/derivation_reach.go:30-42 | the graph has exactly the sources of every target, in the order of the derivations |
| DerivationGraphs.DerivesIff | libraries/pageformats/internal/derivationreach/derivation_reach.go:96-113 | a format is reached exactly when it is the target or reaches one of its sources' sources |
| DerivationGraphs.ReachShrinks | libraries/pageformats/format_derivation_catalog.go:47-70 | without cycles a source reaches strictly less than what is made from it, which is why the recursion ends |
| FormatCatalogs.BodyIffDerived | libraries/pageformats/format_derivation_catalog.go:47-88 | on an accepted catalog whose derivations always succeed, a body is found if and only if the document's format is, or reaches, the requested one |
| FormatCatalogs.BodyFollowsAChain | libraries/pageformats/format_derivation_catalog.go:47-88 | whatever derivations fail, a body that is found is the outcome of a chain of derivations from the document |
| FormatCatalogs.BodyIsTheFirst | libraries/pageformats/format_derivation_catalog.go:47-88 | a document's own format is its own body; any other body is that of the first derivation in order that gives one, and there is none when no derivation does |
| FormatCatalogs.FormatDerivationCatalogOf | libraries/pageformats/format_derivation_catalog.go:18-29 | a catalog is made, of exactly the given derivations, if and only if they have no cycle and leave no format dangling; a refusal tells a cycle from a dangling format |
| FormatCatalogs.DerivationsByTargetFormat | libraries/pageformats/format_derivation_catalog.go:31-45 | the loop groups the derivations by target, each group in order |
| CleanedPaths.CleanedPathIsTheStandards | libraries/canonicalurl/canonical_url.go:130-155 | on every path, rooted first if it is not, the stack of segments computes what remove_dot_segments of section 5.2.4 of RFC 3986 does |
| CleanedPaths.OneMoreResolved | libraries/canonicalurl/canonical_url.go:130-155 | segment by segment, what goes and what stays on that stack, and that a dot segment at the end leaves a slash there |
| CleanedPaths.CleaningTwice | libraries/canonicalurl/canonical_url.go:62-76 | a cleaned path starts with a slash, has no dot segments and is its own cleaned path, as the canonical check needs |
| CleanedPaths.CleanedPathOf | libraries/canonicalurl/canonical_url.go:130-155 | the pushing and popping loop computes that path |
| Backpaths.ResolvedIsClean | libraries/yacymodel/resolve_backpath.go:5-27 | a resolved path starts with a slash and has no empty segment, no current segment before another one, and no parent segment anywhere |
| Backpaths.ResolvedIsTheStack | libraries/yacymodel/resolve_backpath.go:5-71 | on every path: the resolved path is that of the segments which stay on a stack where an empty or current one stays only as the last, a parent one takes a named one before it away, and parent ones at the root go |
| Backpaths.OneMoreOnTheStack | libraries/yacymodel/resolve_backpath.go:29-71 | segment by segment, which segments stay on that stack |
| Backpaths.SegmentsStayInOrder | libraries/yacymodel/resolve_backpath.go:29-52 | a path without parent segments keeps all its named segments, in order, and its last one |
| Backpaths.ResolvingTwice | libraries/yacymodel/resolve_backpath.go:5-27 | resolving is idempotent |
| Backpaths.NoParentAnywhere | libraries/yacymodel/resolve_backpath.go:5-27 | a collapsed path without a leading parent segment has no parent segment at all |
| Backpaths.CollapsingShortens | libraries/yacymodel/resolve_backpath.go:29-52 | a pass that changes anything shortens the path, and changes nothing exactly when every position is plain |
| Backpaths.ResolveBackpath | libraries/yacymodel/resolve_backpath.go:5-27 | the fixpoint loop ends and computes the resolved path |
| Backpaths.CollapseBackpath | libraries/yacymodel/resolve_backpath.go:29-52 | one scan with lookahead computes one pass |
| Backpaths.MatchParentBackpath | libraries/yacymodel/resolve_backpath.go:54-71 | the lookahead finds a named segment and a parent segment after it, and where they end |
| PeerRoster.RunKeepsBounds | services/yacynode/internal/peerroster/roster.go:52-366 | any run from a bounded roster keeps the bounds |
| PeerRoster.EveryRunIsBounded | services/yacynode/internal/peerroster/roster.go:52-366 | on every run from an empty roster the stored roster is no larger than the larger capacity, the reachable set no larger than its own, and the node is in neither |
| PeerRoster.EvictionKeeps | services/yacynode/internal/peerroster/roster.go:112-146 | overflow never evicts a reachable peer or changes one that stays, and leaves as many peers as the capacity, or the reachable ones, ask for |
| PeerRoster.EvictionTakesTheStalest | services/yacynode/internal/peerroster/roster.go:126-184 | no unreachable peer that stays was contacted before one that is evicted |
| ReachedPeers.ReachedPeerStaysKnownIff | services/yacynode/internal/peerroster/roster.go:281-317 | a peer that was just reached stays stored if and only if it was reachable already, or the roster does not overflow, or at least as many unreachable stored peers as the excess go before it: contacted earlier, or in the same second and with a smaller hash |
| ReachedPeers.ReachableAreStoredIff | services/yacynode/internal/peerroster/roster.go:281-317 | all reachable peers are stored on every run from an empty roster whose times rise, if and only if the roster has room for as many stored peers as reachable ones |
| ReachedPeers.RunKeepsReachableStored | services/yacynode/internal/peerroster/roster.go:52-366 | with that room, the reachable peers stay stored on every run of discoveries, reached and missed peers with rising times, from any state in which they are |
| ReachedPeers.ReachableWithoutBeingKnown | services/yacynode/internal/peerroster/roster.go:281-317 | without that room, whatever the two capacities are, one peer more than the roster stores is reachable but not stored, because overflow is evicted before it is admitted |
| ReachedPeers.SameSecondLosesThePeer | services/yacynode/internal/peerroster/roster.go:281-317 | times must rise: a peer reached in the second in which another was discovered can be evicted for it, although nobody else is reachable |
| PeerRoster.OrdersOfTheRoster | services/yacynode/internal/peerroster/roster.go:176-184 | both comparisons are strict orders by one or two times |
| PeerSelection.OneMoreSelected | services/yacynode/internal/peerroster/roster.go:186-225 | inserting a peer before the first it precedes, and letting the last one fall off, keeps the first ones of the stable order |
| PeerSelection.StableOrder | services/yacynode/internal/peerroster/roster.go:186-225 | peers that neither precedes stay in the order of the scan |
| PeerSelection.SelectedComeFirst | services/yacynode/internal/peerroster/roster.go:186-225 | what is selected is unreachable, as much as the limit allows, in stable order, and no other unreachable peer comes before any of it |
| PeerSelection.SelectUnreachable | services/yacynode/internal/peerroster/roster.go:186-225 | the scan keeps in its array exactly the first unreachable peers of the stable sort |
| PeerSelection.Insert | services/yacynode/internal/peerroster/roster.go:186-225 | peers are shifted in place by one, and the last one is lost only when there is no room |
| PeerSelection.FindPlace | services/yacynode/internal/peerroster/roster.go:186-225 | the place is before the first kept peer that the new one precedes |
| PeerRoster.Roster.Discover | services/yacynode/internal/peerroster/roster.go:52-124 | discovery stores every seed with an address but the node itself, keeps the contacts of known peers, and evicts the overflow |
| PeerRoster.Roster.DiscoverEach | services/yacynode/internal/peerroster/roster.go:74-110 | the loop stores the seeds in turn |
| PeerRoster.DiscoveredIs | services/yacynode/internal/peerroster/roster.go:74-110 | a discovered peer has the address of its last seed with one; if it was known it keeps its contacts, and if not it counts as contacted now and never reachable |
| PeerRoster.UnnamedIsNotDiscovered | services/yacynode/internal/peerroster/roster.go:74-110 | a peer without such a seed, and the node itself, stay as they were |
| PeerRoster.Roster.StalestBeyondCapacity | services/yacynode/internal/peerroster/roster.go:126-146 | exactly the stalest unreachable peers beyond the capacity |
| PeerRoster.Roster.EvictOverflow | services/yacynode/internal/peerroster/roster.go:112-124 | exactly those are deleted |
| PeerRoster.Roster.ConfirmReachable | services/yacynode/internal/peerroster/roster.go:227-317 | the contact is stored, the overflow evicted, and the peer admitted if it is there already or there is room |
| PeerRoster.ReachedIs | services/yacynode/internal/peerroster/roster.go:227-317 | a reached peer, if it stays stored, has its address and this contact, other peers stay as they were if they stay, and it is reachable exactly when it was or there is room |
| PeerRoster.Roster.ConfirmUnreachable | services/yacynode/internal/peerroster/roster.go:319-366 | the peer leaves the reachable set, and a stored one is marked as never reachable |
| PeerRoster.MissedIs | services/yacynode/internal/peerroster/roster.go:319-366 | a missed peer is not reachable; if it is stored it keeps its address, was contacted now and counts as never reachable, and no other peer changes |
| PeerRoster.Roster.UnreachablePeerHashes | services/yacynode/internal/peerroster/roster.go:451-481 | the peers reachable most recently, and then those contacted longest ago, up to the limit |
| PeerRoster.ProbedInOrder | services/yacynode/internal/peerroster/roster.go:451-481 | a peer comes before another, selected or not, if it was reachable later, or as lately and contacted earlier, or by its hash |

## Left out

Around the posting lifecycle:

- Storage errors in the middle of a transaction, and observer errors, which `urlmeta` only logs
  (services/yacynode/internal/urlmeta/url_metadata_observer.go:21-28).
- `Node.Vault.StoreOne`: a put that storage refuses is not modelled; the metadata codec itself
  never fails.
- `Node.Vault.ReceiveUrls`: so the receipt's list of rejected URLs, which only such a put fills, is
  not modelled either.
- Which postings closer peers hold: the replica ledger's answer is a parameter of the hand-off.
- Clocks, usage readings, the high water mark (a float product), refused commits and cancelled
  contexts are parameters of the methods; times are whole seconds, as the keys keep them.
- The columns of a posting and the texts of metadata, which no transaction reads, are one opaque
  value there; their codecs are modelled in the record modules.
- The projection of posting records that distribution keeps, metrics, logs and configuration.

Around the engines and keys:

- The internals of Pebble and bbolt, their durability, stalls, on-disk sizes, read snapshots
  beside a writer, and closing; bolt's page-based used bytes.
- Copying of keys and values between caller and engine: byte strings are values here.
- `EngineRuns.PebbleRefinesMemory`: assumes buckets whose entry count and byte sum fit a signed
  64-bit integer, and calls on provisioned buckets, which the vault above the engines guarantees.
- `BoltRuns.BoltRefinesMemory`: leaves out the used bytes, which bolt counts in pages, and bolt's own
  limits on keys and values, an empty key among them; it assumes provisioned buckets, as above, and
  no more entries in one than a signed 64-bit integer counts.
- `BoltEngine.BoltBucket.Put`: assumes that the entries stay within the largest signed integer.
- The encodings of integers, times and hashes in key parts come from a library; the ranges are
  proved for every encoding with the properties of `KeyParts.Orderly`, which the escaped text
  parts are proved to have, ascending and descending.

Around the records:

- Which field a reader's error names: a reader has one failed state. Nil and empty byte slices are
  the same. Times in records, which no modelled codec stores.
- Floats are their 64-bit patterns; only the order of magnitudes that the coordinate limits need
  is modelled. Masks and shifts are written as arithmetic. Years are unbounded.
- `UrlMetadataRecords.MetadataReadsBackIff`: for values of the fields' types: integers of 64 bits,
  hashes of nine bytes, languages as they are parsed, and days of the calendar, as the domain's
  constructors make them.
- `PostingRecords.PostingReadsBackIff`: for integers of 64 bits, and a language that is parsed or
  unset.

Around the codecs:

- Splitting a host name into labels and choosing which to encode (`toPunycode`); the overflow of a
  64-bit delta, which takes labels far longer than a host name.
- MD5 and lower-casing: a word's digest is a parameter. The conversion of the ring distance to a
  float.
- White space trimmed around pairs is ASCII only. The envelope of wire messages, whose printer does
  not escape what its parser unescapes (libraries/yacyproto/message_wire_form.go:46-69).
- Why a line of a batch is malformed: the parser's errors are one absent result.

Around the algorithms:

- Records: JSON, time to live, deletes and writes whose outcome is unknown; the bucket is a map
  with strictly rising revisions. The context's end is a parameter of a pause, jitter is left out.
- `Records.ContentionIsProgress`: says nothing about fairness; the code promises none.
- Format derivations take the context and the page address as well; here both are part of the
  derivation's function. `FormatCatalogs.BodyIffDerived` is for derivations that always succeed, as
  one that fails can hide a path; `FormatCatalogs.BodyFollowsAChain` covers failing ones.
- URL parsing, escaping and the rest of canonical URLs; session ids and the other parts of URL
  normal forms.
- Peer roster: discovery, reaching and missing a peer are atomic steps, as the lock and the
  transaction make their parts; steps read one time each, in whole seconds, as it is stored. The
  entry codec, the recency queries, the network address lookup and storage errors.

The services' I/O (NATS, HTTP, gRPC, Chrome, SSH, process supervision), HTML and page processing
and the generated code are outside the model.
