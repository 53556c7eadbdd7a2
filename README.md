# metadb ledger model

metadb keeps metadata about MusicBrainz recordings and release groups for a set of
scrapers. Its data layer (`metadb/data.py`) is a ledger over a few tables:

- the known recording identities and the redirects between them;
- last-write-wins metadata rows for recordings and release groups;
- links between recordings and release groups;
- the registered sources and scrapers;
- an at-most-once item ledger recording which scraper has processed which mbid, with an optional payload.

Every public function is one atomic transaction made of check-then-insert or
check-then-update steps.

The model has four modules:

- `Schema` (`schema.dfy`):
  - the rows and the `Tables` value, with one field per table;
  - the invariant `Valid` that every operation keeps. It covers:
    - serial ids;
    - redirect targets are known recordings;
    - a release group identity exists exactly when its metadata does;
    - every payload belongs to an item.
- `Queries` (`queries.dfy`): the read-only queries as functions of the tables. Each SELECT becomes a lookup or a set comprehension.
- `Ledger` (`ledger.dfy`): each write operation as a function from the tables before to the tables after (and the result), plus the lemmas that state what the operations promise.
  - It also defines `Evolves`: no operation ever removes an identity, redirect, link, item or payload, and no metadata timestamp ever goes back.
  - Properties of every later state are stated over `Evolves`. For example, a redirected or processed recording never re-enters a work queue.
- `Store` (`store.dfy`): the class `MetaDb`, whose fields are the tables.
  - Each write operation is a method that does the source's lookups and inserts step by step. `_add_recording_mbids` and `cache_musicbrainz_metadata` keep their loops.
  - Each method is proved to keep `Valid` and to leave the tables exactly as the matching `Ledger` function says, so every `Ledger` lemma applies to the method.

Timestamps are integers. Each id sequence is a counter starting at 1 that advances once per INSERT attempt into its table. Only the freshness of ids is meant to correspond to the program (see below).

## Model

| member | source | states |
|---|---|---|
| Queries.LoadSource | metadb/data.py:112-123 | a source is returned exactly when its name is registered, with that name and its stored id |
| Queries.GetRecordingMeta | metadb/data.py:338-356 | a row is returned exactly when metadata is stored for the mbid, carrying the mbid and the stored name, artist credit and timestamp |
| Queries.GetReleaseGroupMeta | metadb/data.py:449-465 | a row is returned exactly when metadata is stored for the release group, carrying its stored fields including the first release date |
| Queries.GetReleaseGroupsForRecording | metadb/data.py:468-478 | a release group is in the result exactly when it is linked to the recording |
| Queries.LoadScrapersForSource | metadb/data.py:148-170 | the result is exactly the registered scrapers whose source id is the source's |
| Queries.LatestAmong | metadb/data.py:173-196 | the chosen id is a scraper of the source whose version no scraper of the source exceeds; none is chosen only when the source has no scraper |
| Queries.LoadLatestScraperForSource | metadb/data.py:173-196 | the result is a stored scraper of the source with maximal version, and it is None exactly when the source has no scraper |
| Queries.UnprocessedRecordings | metadb/data.py:250-272 | a row is in the work queue exactly when its mbid is a known recording with metadata, is not the old side of any redirect and has no item for this scraper (and is the given mbid when one is given); the row carries the stored name and artist credit |
| Queries.UnprocessedReleaseGroups | metadb/data.py:275-295 | a row is in the work queue exactly when its mbid is a known release group with metadata and no item for this scraper (and is the given mbid when one is given); there is no redirect clause |
| Queries.RecordingsMissingMeta | metadb/data.py:298-310 | an mbid is returned exactly when it is a known recording with no metadata that is not the old side of a redirect |
| Queries.MissingMetaDisjointFromUnprocessed | metadb/data.py:250-310 | no recording is both missing metadata and in any scraper's work queue |
| Queries.RecordingStatusPartition | metadb/data.py:250-310 | a known, non-redirected recording either misses metadata or, for a given scraper, is in its work queue exactly when it has no item for that scraper |
| Queries.FilterRestrictsUnprocessedRecordings | metadb/data.py:267-269 | giving an mbid yields exactly the unfiltered work queue restricted to that mbid |
| Queries.FilterRestrictsUnprocessedReleaseGroups | metadb/data.py:290-292 | giving an mbid yields exactly the unfiltered release-group work queue restricted to that mbid |
| Queries.ItemHidesOnlyFromItsScraper | metadb/data.py:250-272 | an item removes the recording from its own scraper's work queue and from no other scraper's |
| Queries.LatestScraperIsAmongScrapers | metadb/data.py:148-196 | the latest scraper exists exactly when the source has scrapers, is one of them, and no scraper of the source has a higher version |
| Ledger.EvolvesTransitive | metadb/data.py:66-531 | a later state of a later state is a later state |
| Ledger.AddSourceKeepsValid | metadb/data.py:66-74 | registering a source keeps the invariant and only grows the tables |
| Ledger.AddSourceThenLoad | metadb/data.py:66-74 | registering a fresh name succeeds and gives an id no other source has, and the name then loads back; a taken name is rejected, and only the source id sequence advances; other names load as before |
| Ledger.AddScraperKeepsValid | metadb/data.py:126-145 | registering a scraper keeps the invariant (ids are fresh and every stored mb_type is valid) and only grows the tables |
| Ledger.AddScraperChecksMbType | metadb/data.py:126-145 | add_scraper fails exactly on an mb_type outside recording and release_group, and then writes nothing; on success the scraper carries the given fields and a fresh id, and only that scraper is added |
| Ledger.AddScraperBecomesLatest | metadb/data.py:126-196 | a new scraper is added to exactly its source's scrapers, and when no existing scraper of the source has a higher version the latest scraper has the new version |
| Ledger.FirstIndex | metadb/data.py:85-90 | the index returned is the first occurrence of the mbid in the input |
| Ledger.FirstIndexUnique | metadb/data.py:85-90 | an occurrence with no earlier one is the first occurrence |
| Ledger.NewMbidsMembers | metadb/data.py:77-91 | the mbids reported as added are exactly the input mbids that were not already known |
| Ledger.NewMbidsDistinct | metadb/data.py:77-91 | no mbid is reported as added twice, even when it occurs twice in the input |
| Ledger.NewMbidsInInputOrder | metadb/data.py:77-91 | the added mbids appear in the order of their first occurrences in the input |
| Ledger.AddRecordingMbidsRegisters | metadb/data.py:77-99 | afterwards every input mbid is a known recording, already known mbids are untouched, the result is exactly the previously unknown ones, and no other table changes |
| Ledger.AddRecordingMbidsKeepsValid | metadb/data.py:77-99 | registering identities keeps the invariant and only grows the tables |
| Ledger.CheckMbidRedirectRecords | metadb/data.py:364-385 | a redirect of an mbid to itself is a no-op; otherwise afterwards the pair is recorded and the target is a known recording, and only the identity and redirect tables change |
| Ledger.CheckMbidRedirectIdempotent | metadb/data.py:364-385 | a second identical redirect call changes nothing |
| Ledger.CheckMbidRedirectKeepsValid | metadb/data.py:364-385 | recording a redirect keeps the invariant and only grows the tables |
| Ledger.RedirectedNeverUnprocessed | metadb/data.py:250-310 | once an mbid has been redirected away from, it is in no scraper's work queue and not among the recordings missing metadata in any later state |
| Ledger.UpsertRecordingMetaLastWriteWins | metadb/data.py:416-441 | after the upsert the stored row is the incoming one unless a row at least as new was stored (which is kept), the stored timestamp is the maximum of the two, and no other recording or table changes |
| Ledger.UpsertRecordingMetaKeepsValid | metadb/data.py:416-441 | the recording metadata upsert keeps the invariant and never moves a timestamp back |
| Ledger.UpsertRecordingMetaRejectsStale | metadb/data.py:421-425 | applying a newer row and then an older or equally old one equals applying the newer alone |
| Ledger.UpsertRecordingMetaOrderIndependent | metadb/data.py:416-441 | two rows with distinct timestamps reconcile to the same state in either order |
| Ledger.UpsertReleaseGroupMetaLastWriteWins | metadb/data.py:481-513 | the same last-write-wins rule for release groups, including the first release date; the bare identity is added exactly on the insert path |
| Ledger.UpsertReleaseGroupMetaKeepsValid | metadb/data.py:481-513 | the release-group upsert keeps the invariant, in particular identity and metadata stay in step so the unconditional identity insert never collides |
| Ledger.UpsertReleaseGroupMetaRejectsStale | metadb/data.py:484-490 | applying a newer release-group row and then an older one equals applying the newer alone |
| Ledger.UpsertReleaseGroupMetaOrderIndependent | metadb/data.py:481-513 | two release-group rows with distinct timestamps reconcile to the same state in either order |
| Ledger.LinkRecordingReleaseGroupOnce | metadb/data.py:516-531 | linking adds exactly the pair, and linking it again changes nothing |
| Ledger.LinkRecordingReleaseGroupKeepsValid | metadb/data.py:516-531 | linking keeps the invariant and only grows the tables |
| Ledger.LinksOfSnoc | metadb/data.py:402-404 | the links of a map's values grow by one pair per further value |
| Ledger.AbsorbedSurvives | metadb/data.py:388-531 | release groups absorbed by the store stay absorbed in every later state |
| Ledger.CacheReleaseGroupKeepsValid | metadb/data.py:402-404 | one iteration of the cache loop keeps the invariant |
| Ledger.CacheReleaseGroupKeepsLinksBacked | metadb/data.py:402-404 | one iteration of the cache loop adds only a link whose ends both have metadata, and leaves recording metadata alone |
| Ledger.CacheReleaseGroupsKeepsLinksBacked | metadb/data.py:402-404 | the cache loop adds only links whose ends both have metadata |
| Ledger.CacheReleaseGroupsKeepsValid | metadb/data.py:402-404 | the cache loop keeps the invariant and changes only release groups, their metadata and links |
| Ledger.CacheReleaseGroupsLinks | metadb/data.py:402-404 | the cache loop adds exactly one link per release group of the map to the recording, and no other |
| Ledger.CacheReleaseGroupAbsorbs | metadb/data.py:402-404 | one iteration absorbs its release group and keeps earlier ones absorbed |
| Ledger.CacheReleaseGroupsAbsorbs | metadb/data.py:402-404 | after the loop every release group of the map has metadata at least as new as its row and is linked to the recording |
| Ledger.AbsorbedCacheIsNoOp | metadb/data.py:402-404 | running the loop over already absorbed release groups changes nothing |
| Ledger.CacheMusicBrainzMetadataEffect | metadb/data.py:388-404 | caching keeps the invariant, adds exactly the links of the map, and leaves the recording's and every release group's metadata at least as new as the call's rows |
| Ledger.CacheMusicBrainzMetadataLinksAll | metadb/data.py:388-404 | afterwards every release group of the map is among the recording's release groups |
| Ledger.CacheRepeatWithOlderIsNoOp | metadb/data.py:388-404 | caching again with the same recording and equal or older timestamps changes nothing |
| Ledger.CacheMusicBrainzMetadataIdempotent | metadb/data.py:388-404 | caching the same recording twice equals caching it once, so there is one link per pair |
| Ledger.AddItemKeepsValid | metadb/data.py:211-247 | recording an item keeps the invariant (item ids are fresh and every payload belongs to an item) and only grows the tables |
| Ledger.AddItemAtMostOnce | metadb/data.py:211-247 | the answer is true exactly when no item existed for (scraper, mbid), and afterwards the item exists; a false answer changes nothing; a new item gets a fresh id and a payload row exactly when the payload is non-empty |
| Ledger.AddItemTwice | metadb/data.py:211-247 | recording the same item a second time answers false and changes nothing, whatever the payload |
| Ledger.ProcessedStaysProcessed | metadb/data.py:211-295 | once an item exists for (scraper, mbid), that mbid is in neither of the scraper's work queues in any later state |
| Schema.EmptyIsValid | metadb/data.py:66-531 | the empty store satisfies the invariant |
| Store.MetaDb.constructor | metadb/data.py:66-531 | a new store has empty tables and satisfies the invariant |
| Store.MetaDb.AddSource | metadb/data.py:66-74 | the method keeps the invariant and its new tables and result are those of Ledger.AddSource |
| Store.MetaDb.AddScraper | metadb/data.py:126-145 | the method checks the mb_type before writing, keeps the invariant, and its new tables and result are those of Ledger.AddScraper |
| Store.MetaDb.AddRecordingMbids | metadb/data.py:77-91 | the loop inserts each unknown mbid and collects it; the tables and result are those of Ledger.AddRecordingMbids |
| Store.MetaDb.CheckMbidRedirect | metadb/data.py:364-385 | the method keeps the invariant and its new tables are those of Ledger.CheckMbidRedirect |
| Store.MetaDb.AddItem | metadb/data.py:211-247 | the method keeps the invariant and its new tables and answer are those of Ledger.AddItem |
| Store.MetaDb.UpsertRecordingMeta | metadb/data.py:407-441 | the method reads the stored row, keeps the invariant, and its new tables are those of Ledger.UpsertRecordingMeta |
| Store.MetaDb.UpsertReleaseGroupMeta | metadb/data.py:481-513 | the method reads the stored row, inserts the identity on the insert path only, keeps the invariant, and its new tables are those of Ledger.UpsertReleaseGroupMeta |
| Store.MetaDb.LinkRecordingReleaseGroup | metadb/data.py:516-531 | the method keeps the invariant and its new tables are those of Ledger.LinkRecordingReleaseGroup |
| Store.MetaDb.CacheMusicBrainzMetadata | metadb/data.py:388-404 | the loop upserts and links each release group in map order; the method keeps the invariant and its new tables are those of Ledger.CacheMusicBrainzMetadata |

## Left out

- Tokens (`metadb/data.py:11-63`) are not modelled. They depend on random UUID generation and UUID parsing.
- JSON encoding of payloads (`metadb/data.py:204-208`, `239-241`) is not modelled.
  - A payload is an opaque value. Only its Python truthiness (None or empty means no payload row) is modelled, for strings, lists, dicts and None.
  - Numbers and booleans as payloads are not modelled.
- Time-zone re-tagging of timestamps (`metadb/data.py:346-355`, `455-464`) is not modelled. Timestamps are integers, compared as the source compares datetimes.
- Result order (`ORDER BY`) and the dict or list shaping of rows are not modelled. Query results are sets, so duplicate rows cannot arise in the model.
- `load_item`, `get_recording_mbids` and `add_item`'s connection wrapper are not modelled. Neither are the public wrappers `get_recording_meta` and `get_release_group_meta`, which open their own connection around the modelled `_get_*_meta` lookups.
  - They are thin lookups or wrappers.
  - `load_item` dereferences a source or scraper that may be missing.
- SQL, the engine and transactions (`metadb/db.py`) are not modelled. Each public function is one atomic operation. Concurrency and isolation are left to the database.
- `dump_unprocessed.py` is file I/O and argument parsing, and is not part of this model.
- Ledger.AddSource: a duplicate source name is reported as `DuplicateSourceName`.
  - The source code relies on the unique key of the `source` table. The INSERT raises there, and the transaction's table writes are undone.
  - The id the INSERT drew from the `source` sequence is not given back, so the model advances `nextSourceId` on this path too.
  - The schema script is not part of this model.
- Id counters have no gaps except the one above. A database sequence also skips values drawn by transactions that fail for reasons outside the model, such as lost connections or concurrent inserts. So only the freshness of source, scraper and item ids corresponds to the program, not their exact values.
- Mbids are taken in canonical UUID text form and compared as strings.
  - The columns are UUIDs, as the `mbid::text` casts show. The database therefore compares mbids regardless of letter case and spelling, and rejects a malformed id with an error.
  - UUID parsing is not modelled: case and format normalisation, and the rejection of malformed ids.
  - With non-canonical input the model differs. For example, two spellings of one UUID passed to `_add_recording_mbids` become two identities in the model. Likewise `musicbrainz_check_mbid_redirect` compares its arguments with Python `==`, so the database may record a redirect of a UUID to itself when it is spelled two ways.
- Foreign keys are not modelled.
  - A scraper's source id, an item's scraper id and the ends of a link are not required to exist.
  - `_add_link_recording_release_group` alone does not require metadata at either end. The separate predicate `LinksBacked` is proved to be preserved by the caching operation.
- Queries.LoadLatestScraperForSource: the model returns the lowest id among scrapers sharing the greatest version, but the contract does not promise which. The source's `ORDER BY version DESC LIMIT 1` leaves that choice to the database.
- The keys of `release_group_map` are not read by the source and are not modelled. The map is its sequence of values in iteration order.
