/**
 The write operations of the metadata ledger, as functions from the tables before
 the operation to the tables after it (and the operation's result).

 Each public operation is one atomic transaction, so each is one function. The
 lemmas state what the operations promise: last-write-wins reconciliation,
 insert-if-absent identities, links and redirects, the at-most-once item ledger,
 and the invariant `Valid` that all of them keep.
 */
module Ledger {
  import opened Schema
  import opened Queries

  /** The mbids a sequence mentions. */
  function Elems(mbids: seq<Mbid>): set<Mbid> {
    set m | m in mbids
  }

  function Max(a: int, b: int): int {
    if a >= b then a else b
  }

  // ---------------------------------------------------------------------------
  // Evolution of the store: what no operation ever takes back.

  ghost predicate Extends<K, V>(m: map<K, V>, m': map<K, V>) {
    forall k :: k in m ==> k in m' && m'[k] == m[k]
  }

  /** `t'` is a later state of `t`: identities, redirects, links, sources, scrapers,
      items and payloads are never removed or rewritten, metadata rows are never
      removed, and their timestamps never go back. */
  ghost predicate Evolves(t: Tables, t': Tables) {
    && Extends(t.sources, t'.sources)
    && Extends(t.scrapers, t'.scrapers)
    && t.recordings <= t'.recordings
    && t.redirects <= t'.redirects
    && (forall m :: m in t.recordingMeta ==>
          m in t'.recordingMeta && t.recordingMeta[m].lastUpdated <= t'.recordingMeta[m].lastUpdated)
    && t.releaseGroups <= t'.releaseGroups
    && (forall m :: m in t.releaseGroupMeta ==>
          m in t'.releaseGroupMeta && t.releaseGroupMeta[m].lastUpdated <= t'.releaseGroupMeta[m].lastUpdated)
    && t.links <= t'.links
    && Extends(t.items, t'.items)
    && Extends(t.itemData, t'.itemData)
    && t.nextSourceId <= t'.nextSourceId
    && t.nextScraperId <= t'.nextScraperId
    && t.nextItemId <= t'.nextItemId
  }

  lemma EvolvesTransitive(t1: Tables, t2: Tables, t3: Tables)
    requires Evolves(t1, t2) && Evolves(t2, t3)
    ensures Evolves(t1, t3)
  {
  }

  // ---------------------------------------------------------------------------
  // Sources and scrapers

  /** add_source: registers a source under a fresh id; the name is a unique key.
      The INSERT draws its id from the sequence before the key is checked, so a
      rejected name still uses up one id. */
  function AddSource(t: Tables, name: string): (Tables, Result<Source>) {
    if name in t.sources then
      (t.(nextSourceId := t.nextSourceId + 1), Err(DuplicateSourceName(name)))
    else
      var id := t.nextSourceId;
      (t.(sources := t.sources[name := id], nextSourceId := id + 1), Ok(Source(id, name)))
  }

  /** add_scraper: rejects an unknown mb_type before writing anything; otherwise
      registers the scraper under a fresh id. */
  function AddScraper(t: Tables, source: Source, moduleRef: string, mbType: string, version: int,
                      description: string): (Tables, Result<Scraper>)
  {
    if !IsMbType(mbType) then
      (t, Err(InvalidMbType(mbType)))
    else
      var s := Scraper(t.nextScraperId, source.id, moduleRef, mbType, version, description);
      (t.(scrapers := t.scrapers[s.id := s], nextScraperId := s.id + 1), Ok(s))
  }

  lemma AddSourceKeepsValid(t: Tables, name: string)
    requires Valid(t)
    ensures Valid(AddSource(t, name).0) && Evolves(t, AddSource(t, name).0)
  {
    var id := t.nextSourceId;
    if name in t.sources {
      assert AddSource(t, name).0 == t.(nextSourceId := id + 1);
    } else {
      assert AddSource(t, name).0 == t.(sources := t.sources[name := id], nextSourceId := id + 1);
    }
  }

  /** A source is registered once, and then loads back under its fresh id; a taken
      name is rejected and only the id sequence moves. */
  lemma AddSourceThenLoad(t: Tables, name: string)
    requires Valid(t)
    ensures var (t', r) := AddSource(t, name);
      && (r.Ok? <==> LoadSource(t, name).None?)
      && (r.Err? ==> t' == t.(nextSourceId := t.nextSourceId + 1) && r.error == DuplicateSourceName(name))
      && (r.Ok? ==>
            && LoadSource(t', name) == Some(r.value)
            && (forall n :: n in t.sources ==> t.sources[n] != r.value.id)
            && (forall n :: n != name ==> LoadSource(t', n) == LoadSource(t, n)))
  {
  }

  lemma AddScraperKeepsValid(t: Tables, source: Source, moduleRef: string, mbType: string, version: int,
                             description: string)
    requires Valid(t)
    ensures var t' := AddScraper(t, source, moduleRef, mbType, version, description).0;
      Valid(t') && Evolves(t, t')
  {
    if IsMbType(mbType) {
      var s := Scraper(t.nextScraperId, source.id, moduleRef, mbType, version, description);
      assert AddScraper(t, source, moduleRef, mbType, version, description).0
          == t.(scrapers := t.scrapers[s.id := s], nextScraperId := s.id + 1);
    }
  }

  /** add_scraper fails exactly on an unknown mb_type, and then writes nothing; on
      success the scraper carries the given fields and an id no scraper had. */
  lemma AddScraperChecksMbType(t: Tables, source: Source, moduleRef: string, mbType: string, version: int,
                               description: string)
    requires Valid(t)
    ensures var (t', r) := AddScraper(t, source, moduleRef, mbType, version, description);
      && (r.Err? <==> !IsMbType(mbType))
      && (r.Err? ==> t' == t && r.error == InvalidMbType(mbType))
      && (r.Ok? ==>
            && r.value.id !in t.scrapers
            && r.value == Scraper(r.value.id, source.id, moduleRef, mbType, version, description)
            && t'.scrapers == t.scrapers[r.value.id := r.value])
  {
  }

  /** Registering a scraper adds exactly it to its source's scrapers, and when no
      scraper of that source has a higher version, the latest one has its version. */
  lemma {:induction false} AddScraperBecomesLatest(t: Tables, source: Source, moduleRef: string, mbType: string,
                                                   version: int, description: string)
    requires Valid(t) && IsMbType(mbType)
    ensures var (t', r) := AddScraper(t, source, moduleRef, mbType, version, description);
      && Valid(t')
      && LoadScrapersForSource(t', source) == LoadScrapersForSource(t, source) + {r.value}
      && ((forall s :: s in LoadScrapersForSource(t, source) ==> s.version <= version) ==>
            LoadLatestScraperForSource(t', source).Some?
            && LoadLatestScraperForSource(t', source).value.version == version)
  {
    var (t', r) := AddScraper(t, source, moduleRef, mbType, version, description);
    var s := r.value;
    assert s.id !in t.scrapers;
    assert t'.scrapers.Values == t.scrapers.Values + {s} by {
      forall x | x in t'.scrapers.Values ensures x in t.scrapers.Values + {s} {
        var k :| k in t'.scrapers && t'.scrapers[k] == x;
        if k != s.id { assert x in t.scrapers.Values; }
      }
      forall x | x in t.scrapers.Values ensures x in t'.scrapers.Values {
        var k :| k in t.scrapers && t.scrapers[k] == x;
        assert t'.scrapers[k] == x;
      }
      assert t'.scrapers[s.id] == s;
    }
    assert s in LoadScrapersForSource(t', source);
  }

  // ---------------------------------------------------------------------------
  // Recording identities

  /** The mbids `_add_recording_mbids` reports as added: every mbid not yet known,
      once, at its first occurrence, in input order. */
  function NewMbids(known: set<Mbid>, mbids: seq<Mbid>): seq<Mbid>
    decreases |mbids|
  {
    if mbids == [] then
      []
    else
      var prefix := mbids[..|mbids| - 1];
      var last := mbids[|mbids| - 1];
      NewMbids(known, prefix) + (if last !in known && last !in prefix then [last] else [])
  }

  /** _add_recording_mbids: every mbid becomes a known recording; the result lists
      those that were not known before. */
  function AddRecordingMbids(t: Tables, mbids: seq<Mbid>): (Tables, seq<Mbid>) {
    (t.(recordings := t.recordings + Elems(mbids)), NewMbids(t.recordings, mbids))
  }

  /** The position of the first occurrence of `m` in `s`. */
  function FirstIndex(s: seq<Mbid>, m: Mbid): (i: nat)
    requires m in s
    ensures i < |s| && s[i] == m && m !in s[..i]
  {
    if s[0] == m then
      0
    else
      var i := 1 + FirstIndex(s[1..], m);
      assert s[..i] == [s[0]] + s[1..][..i - 1];
      i
  }

  /** An occurrence with no earlier one is the first occurrence. */
  lemma FirstIndexUnique(s: seq<Mbid>, m: Mbid, k: nat)
    requires k < |s| && s[k] == m && m !in s[..k]
    ensures FirstIndex(s, m) == k
  {
  }

  /** The added mbids are exactly the input mbids that were not known. */
  lemma {:induction false} NewMbidsMembers(known: set<Mbid>, mbids: seq<Mbid>)
    ensures forall m :: m in NewMbids(known, mbids) <==> m in mbids && m !in known
  {
    if mbids != [] {
      var prefix := mbids[..|mbids| - 1];
      NewMbidsMembers(known, prefix);
      assert mbids == prefix + [mbids[|mbids| - 1]];
    }
  }

  /** No mbid is reported as added twice. */
  lemma {:induction false} NewMbidsDistinct(known: set<Mbid>, mbids: seq<Mbid>)
    ensures forall i, j :: 0 <= i < j < |NewMbids(known, mbids)| ==> NewMbids(known, mbids)[i] != NewMbids(known, mbids)[j]
  {
    if mbids != [] {
      var prefix := mbids[..|mbids| - 1];
      var last := mbids[|mbids| - 1];
      var before := NewMbids(known, prefix);
      var added := NewMbids(known, mbids);
      NewMbidsDistinct(known, prefix);
      NewMbidsMembers(known, prefix);
      assert added == before + (if last !in known && last !in prefix then [last] else []);
      forall i, j | 0 <= i < j < |added|
        ensures added[i] != added[j]
      {
        assert added[i] == before[i];
        if j < |before| {
          assert added[j] == before[j];
          assert before[i] != before[j];
        } else {
          assert added[j] == last && last !in prefix;
          assert before[i] in before;
          assert before[i] in prefix;
        }
      }
    }
  }

  /** The added mbids keep the order of their first occurrences in the input. */
  lemma {:induction false} NewMbidsInInputOrder(known: set<Mbid>, mbids: seq<Mbid>, i: nat, j: nat)
    requires i < j < |NewMbids(known, mbids)|
    ensures NewMbids(known, mbids)[i] in mbids && NewMbids(known, mbids)[j] in mbids
    ensures FirstIndex(mbids, NewMbids(known, mbids)[i]) < FirstIndex(mbids, NewMbids(known, mbids)[j])
  {
    var added := NewMbids(known, mbids);
    var prefix := mbids[..|mbids| - 1];
    var last := mbids[|mbids| - 1];
    var before := NewMbids(known, prefix);
    NewMbidsMembers(known, prefix);
    NewMbidsMembers(known, mbids);
    assert added[i] == before[i];
    assert before[i] in before;
    assert added[i] in prefix;
    var fi := FirstIndex(prefix, added[i]);
    assert mbids[..fi] == prefix[..fi];
    FirstIndexUnique(mbids, added[i], fi);
    if j < |before| {
      assert added[j] == before[j];
      NewMbidsInInputOrder(known, prefix, i, j);
      var fj := FirstIndex(prefix, added[j]);
      assert mbids[..fj] == prefix[..fj];
      FirstIndexUnique(mbids, added[j], fj);
    } else {
      assert added[j] == last && last !in prefix;
      assert mbids[..|mbids| - 1] == prefix;
      FirstIndexUnique(mbids, last, |mbids| - 1);
    }
  }

  /** Afterwards every input mbid is known, the result is exactly the mbids that
      were not, and no other table changes. */
  lemma AddRecordingMbidsRegisters(t: Tables, mbids: seq<Mbid>)
    ensures var (t', added) := AddRecordingMbids(t, mbids);
      && t'.recordings == t.recordings + Elems(mbids)
      && (forall m :: m in mbids ==> m in t'.recordings)
      && (forall m :: m in added <==> m in mbids && m !in t.recordings)
      && t' == t.(recordings := t'.recordings)
  {
    NewMbidsMembers(t.recordings, mbids);
  }

  lemma AddRecordingMbidsKeepsValid(t: Tables, mbids: seq<Mbid>)
    requires Valid(t)
    ensures Valid(AddRecordingMbids(t, mbids).0) && Evolves(t, AddRecordingMbids(t, mbids).0)
  {
  }

  // ---------------------------------------------------------------------------
  // Redirects

  /** musicbrainz_check_mbid_redirect: records that `queryMbid` now resolves to
      `actualMbid`, registering `actualMbid` as a recording; a no-op when the two are
      equal or the redirect is already recorded. */
  function CheckMbidRedirect(t: Tables, queryMbid: Mbid, actualMbid: Mbid): Tables {
    if queryMbid == actualMbid || (queryMbid, actualMbid) in t.redirects then
      t
    else
      var t1 := AddRecordingMbids(t, [actualMbid]).0;
      t1.(redirects := t1.redirects + {(queryMbid, actualMbid)})
  }

  /** A redirect from an mbid to itself changes nothing; otherwise afterwards the pair
      is recorded and the target is a known recording, and only the identity and
      redirect tables change. */
  lemma CheckMbidRedirectRecords(t: Tables, queryMbid: Mbid, actualMbid: Mbid)
    requires Valid(t)
    ensures var t' := CheckMbidRedirect(t, queryMbid, actualMbid);
      && (queryMbid == actualMbid ==> t' == t)
      && (queryMbid != actualMbid ==>
            && t'.redirects == t.redirects + {(queryMbid, actualMbid)}
            && t'.recordings == t.recordings + {actualMbid})
      && t' == t.(recordings := t'.recordings, redirects := t'.redirects)
  {
    assert Elems([actualMbid]) == {actualMbid};
  }

  /** Repeating a redirect changes nothing. */
  lemma CheckMbidRedirectIdempotent(t: Tables, queryMbid: Mbid, actualMbid: Mbid)
    ensures var t' := CheckMbidRedirect(t, queryMbid, actualMbid);
      CheckMbidRedirect(t', queryMbid, actualMbid) == t'
  {
  }

  lemma CheckMbidRedirectKeepsValid(t: Tables, queryMbid: Mbid, actualMbid: Mbid)
    requires Valid(t)
    ensures var t' := CheckMbidRedirect(t, queryMbid, actualMbid);
      Valid(t') && Evolves(t, t')
  {
    CheckMbidRedirectRecords(t, queryMbid, actualMbid);
  }

  /** Once `a` has been redirected away from, it never again appears in any
      scraper's work queue nor among the recordings missing metadata, whatever the
      store goes through afterwards. */
  lemma RedirectedNeverUnprocessed(t: Tables, t': Tables, a: Mbid, b: Mbid, scraper: Scraper, mbid: Option<Mbid>)
    requires (a, b) in t.redirects && Evolves(t, t')
    ensures forall row :: row in UnprocessedRecordings(t', scraper, mbid) ==> row.mbid != a
    ensures a !in RecordingsMissingMeta(t')
  {
    assert (a, b) in t'.redirects;
    assert IsRedirected(t', a);
  }

  // ---------------------------------------------------------------------------
  // Last-write-wins metadata

  /** The recording_meta table after reconciling `row`: the row is inserted when
      none is stored, overwrites the stored one when strictly newer, and is dropped
      otherwise. */
  function MergeRecordingMeta(stored: map<Mbid, RecordingMeta>, row: RecordingRow): map<Mbid, RecordingMeta> {
    if row.mbid in stored && stored[row.mbid].lastUpdated >= row.lastUpdated then stored
    else stored[row.mbid := RecordingMeta(row.name, row.artistCredit, row.lastUpdated)]
  }

  /** The release_group_meta table after reconciling `row`, by the same rule. */
  function MergeReleaseGroupMeta(stored: map<Mbid, ReleaseGroupMeta>, row: ReleaseGroupRow)
    : map<Mbid, ReleaseGroupMeta>
  {
    if row.mbid in stored && stored[row.mbid].lastUpdated >= row.lastUpdated then stored
    else stored[row.mbid := ReleaseGroupMeta(row.name, row.artistCredit, row.firstReleaseDate, row.lastUpdated)]
  }

  /** _add_recording_meta. */
  function UpsertRecordingMeta(t: Tables, row: RecordingRow): Tables {
    t.(recordingMeta := MergeRecordingMeta(t.recordingMeta, row))
  }

  /** _add_release_group_meta: also inserts the bare release group identity, on the
      insert path only. */
  function UpsertReleaseGroupMeta(t: Tables, row: ReleaseGroupRow): Tables {
    t.(releaseGroups := if row.mbid in t.releaseGroupMeta then t.releaseGroups else t.releaseGroups + {row.mbid},
       releaseGroupMeta := MergeReleaseGroupMeta(t.releaseGroupMeta, row))
  }

  /** Reading back after an upsert gives the incoming row, unless a row at least as
      new was already stored, which is then kept; the stored timestamp ends as the
      maximum of the two; other recordings and other tables are untouched. */
  lemma UpsertRecordingMetaLastWriteWins(t: Tables, row: RecordingRow)
    ensures var t' := UpsertRecordingMeta(t, row);
      var before := GetRecordingMeta(t, row.mbid);
      && GetRecordingMeta(t', row.mbid)
         == (if before.Some? && before.value.lastUpdated >= row.lastUpdated then before else Some(row))
      && t'.recordingMeta[row.mbid].lastUpdated
         == (if before.Some? then Max(before.value.lastUpdated, row.lastUpdated) else row.lastUpdated)
      && (forall m :: m != row.mbid ==> GetRecordingMeta(t', m) == GetRecordingMeta(t, m))
      && t' == t.(recordingMeta := t'.recordingMeta)
  {
  }

  lemma UpsertRecordingMetaKeepsValid(t: Tables, row: RecordingRow)
    requires Valid(t)
    ensures Valid(UpsertRecordingMeta(t, row)) && Evolves(t, UpsertRecordingMeta(t, row))
  {
  }

  /** Applying a newer row and then an older (or equally old) one is the same as
      applying the newer row alone; in particular an upsert is idempotent. */
  lemma UpsertRecordingMetaRejectsStale(t: Tables, newer: RecordingRow, older: RecordingRow)
    requires newer.mbid == older.mbid && older.lastUpdated <= newer.lastUpdated
    ensures UpsertRecordingMeta(UpsertRecordingMeta(t, newer), older) == UpsertRecordingMeta(t, newer)
  {
  }

  /** Rows with distinct timestamps reconcile to the same state in either order of
      arrival. */
  lemma UpsertRecordingMetaOrderIndependent(t: Tables, a: RecordingRow, b: RecordingRow)
    requires a.lastUpdated != b.lastUpdated
    ensures UpsertRecordingMeta(UpsertRecordingMeta(t, a), b) == UpsertRecordingMeta(UpsertRecordingMeta(t, b), a)
  {
    var m := t.recordingMeta;
    if a.mbid == b.mbid {
      if a.lastUpdated < b.lastUpdated {
        UpsertRecordingMetaRejectsStale(t, b, a);
      } else {
        UpsertRecordingMetaRejectsStale(t, a, b);
      }
    } else {
      assert MergeRecordingMeta(MergeRecordingMeta(m, a), b) == MergeRecordingMeta(MergeRecordingMeta(m, b), a);
    }
  }

  /** The release-group counterpart of UpsertRecordingMetaLastWriteWins; in addition
      the identity is added exactly when no metadata was stored. */
  lemma UpsertReleaseGroupMetaLastWriteWins(t: Tables, row: ReleaseGroupRow)
    ensures var t' := UpsertReleaseGroupMeta(t, row);
      var before := GetReleaseGroupMeta(t, row.mbid);
      && GetReleaseGroupMeta(t', row.mbid)
         == (if before.Some? && before.value.lastUpdated >= row.lastUpdated then before else Some(row))
      && t'.releaseGroupMeta[row.mbid].lastUpdated
         == (if before.Some? then Max(before.value.lastUpdated, row.lastUpdated) else row.lastUpdated)
      && t'.releaseGroups == (if before.None? then t.releaseGroups + {row.mbid} else t.releaseGroups)
      && (forall m :: m != row.mbid ==> GetReleaseGroupMeta(t', m) == GetReleaseGroupMeta(t, m))
      && t' == t.(releaseGroups := t'.releaseGroups, releaseGroupMeta := t'.releaseGroupMeta)
  {
  }

  lemma UpsertReleaseGroupMetaKeepsValid(t: Tables, row: ReleaseGroupRow)
    requires Valid(t)
    ensures Valid(UpsertReleaseGroupMeta(t, row)) && Evolves(t, UpsertReleaseGroupMeta(t, row))
  {
  }

  /** Applying a newer release-group row and then an older one equals applying the
      newer row alone. */
  lemma UpsertReleaseGroupMetaRejectsStale(t: Tables, newer: ReleaseGroupRow, older: ReleaseGroupRow)
    requires newer.mbid == older.mbid && older.lastUpdated <= newer.lastUpdated
    ensures UpsertReleaseGroupMeta(UpsertReleaseGroupMeta(t, newer), older) == UpsertReleaseGroupMeta(t, newer)
  {
  }

  /** Release-group rows with distinct timestamps reconcile to the same state in
      either order of arrival. */
  lemma UpsertReleaseGroupMetaOrderIndependent(t: Tables, a: ReleaseGroupRow, b: ReleaseGroupRow)
    requires a.lastUpdated != b.lastUpdated
    ensures UpsertReleaseGroupMeta(UpsertReleaseGroupMeta(t, a), b)
         == UpsertReleaseGroupMeta(UpsertReleaseGroupMeta(t, b), a)
  {
    var m := t.releaseGroupMeta;
    if a.mbid == b.mbid {
      if a.lastUpdated < b.lastUpdated {
        UpsertReleaseGroupMetaRejectsStale(t, b, a);
      } else {
        UpsertReleaseGroupMetaRejectsStale(t, a, b);
      }
    } else {
      assert MergeReleaseGroupMeta(MergeReleaseGroupMeta(m, a), b)
          == MergeReleaseGroupMeta(MergeReleaseGroupMeta(m, b), a);
    }
  }

  // ---------------------------------------------------------------------------
  // Links and the metadata cache

  /** _add_link_recording_release_group: inserts the pair if it is absent. */
  function LinkRecordingReleaseGroup(t: Tables, recording: Mbid, releaseGroup: Mbid): Tables {
    if (recording, releaseGroup) in t.links then t else t.(links := t.links + {(recording, releaseGroup)})
  }

  /** Linking adds exactly the pair, and linking it again changes nothing. */
  lemma LinkRecordingReleaseGroupOnce(t: Tables, recording: Mbid, releaseGroup: Mbid)
    ensures var t' := LinkRecordingReleaseGroup(t, recording, releaseGroup);
      && t' == t.(links := t.links + {(recording, releaseGroup)})
      && LinkRecordingReleaseGroup(t', recording, releaseGroup) == t'
  {
  }

  /** One iteration of the cache loop: reconcile the release group, then link it. */
  function CacheReleaseGroup(t: Tables, recording: Mbid, rg: ReleaseGroupRow): Tables {
    LinkRecordingReleaseGroup(UpsertReleaseGroupMeta(t, rg), recording, rg.mbid)
  }

  /** The cache loop over the release groups, in order. */
  function CacheReleaseGroups(t: Tables, recording: Mbid, rgs: seq<ReleaseGroupRow>): Tables
    decreases |rgs|
  {
    if rgs == [] then t
    else CacheReleaseGroup(CacheReleaseGroups(t, recording, rgs[..|rgs| - 1]), recording, rgs[|rgs| - 1])
  }

  /** cache_musicbrainz_metadata: reconcile the recording's metadata, then every
      release group of its map, linking each to the recording. */
  function CacheMusicBrainzMetadata(t: Tables, rec: MusicBrainzRecording): Tables {
    CacheReleaseGroups(UpsertRecordingMeta(t, rec.recording), rec.recording.mbid, rec.releaseGroupMap)
  }

  /** Every release group of `rgs` has metadata at least as new as its row and is
      linked to `recording`. */
  ghost predicate Absorbed(t: Tables, recording: Mbid, rgs: seq<ReleaseGroupRow>) {
    forall i :: 0 <= i < |rgs| ==>
      && rgs[i].mbid in t.releaseGroupMeta
      && rgs[i].lastUpdated <= t.releaseGroupMeta[rgs[i].mbid].lastUpdated
      && (recording, rgs[i].mbid) in t.links
  }

  /** Every link joins a recording with metadata to a release group with metadata. */
  ghost predicate LinksBacked(t: Tables) {
    forall p :: p in t.links ==> p.0 in t.recordingMeta && p.1 in t.releaseGroupMeta
  }

  /** The links a cache call over `rgs` adds. */
  ghost function LinksOf(recording: Mbid, rgs: seq<ReleaseGroupRow>): set<(Mbid, Mbid)> {
    set i | 0 <= i < |rgs| :: (recording, rgs[i].mbid)
  }

  lemma LinksOfSnoc(recording: Mbid, rgs: seq<ReleaseGroupRow>)
    requires rgs != []
    ensures LinksOf(recording, rgs) == LinksOf(recording, rgs[..|rgs| - 1]) + {(recording, rgs[|rgs| - 1].mbid)}
  {
    var prefix := rgs[..|rgs| - 1];
    forall p | p in LinksOf(recording, rgs)
      ensures p in LinksOf(recording, prefix) + {(recording, rgs[|rgs| - 1].mbid)}
    {
      var i :| 0 <= i < |rgs| && p == (recording, rgs[i].mbid);
      if i < |prefix| { assert rgs[i] == prefix[i]; }
    }
    forall p | p in LinksOf(recording, prefix) ensures p in LinksOf(recording, rgs) {
      var i :| 0 <= i < |prefix| && p == (recording, prefix[i].mbid);
      assert rgs[i] == prefix[i];
    }
  }

  lemma AbsorbedSurvives(t: Tables, t': Tables, recording: Mbid, rgs: seq<ReleaseGroupRow>)
    requires Absorbed(t, recording, rgs) && Evolves(t, t')
    ensures Absorbed(t', recording, rgs)
  {
  }

  lemma LinkRecordingReleaseGroupKeepsValid(t: Tables, recording: Mbid, releaseGroup: Mbid)
    requires Valid(t)
    ensures var t' := LinkRecordingReleaseGroup(t, recording, releaseGroup);
      Valid(t') && Evolves(t, t')
  {
    var t' := LinkRecordingReleaseGroup(t, recording, releaseGroup);
    if (recording, releaseGroup) !in t.links {
      assert t' == t.(links := t.links + {(recording, releaseGroup)});
    }
  }

  /** One iteration of the cache loop keeps the invariants and evolves the store. */
  lemma CacheReleaseGroupKeepsValid(t: Tables, recording: Mbid, rg: ReleaseGroupRow)
    requires Valid(t)
    ensures var t' := CacheReleaseGroup(t, recording, rg);
      && Valid(t') && Evolves(t, t')
  {
    var tu := UpsertReleaseGroupMeta(t, rg);
    UpsertReleaseGroupMetaKeepsValid(t, rg);
    LinkRecordingReleaseGroupKeepsValid(tu, recording, rg.mbid);
    EvolvesTransitive(t, tu, CacheReleaseGroup(t, recording, rg));
  }

  /** One iteration of the cache loop adds only links whose both ends have metadata. */
  lemma CacheReleaseGroupKeepsLinksBacked(t: Tables, recording: Mbid, rg: ReleaseGroupRow)
    requires LinksBacked(t) && recording in t.recordingMeta
    ensures LinksBacked(CacheReleaseGroup(t, recording, rg))
    ensures CacheReleaseGroup(t, recording, rg).recordingMeta == t.recordingMeta
  {
    var tu := UpsertReleaseGroupMeta(t, rg);
    assert rg.mbid in tu.releaseGroupMeta;
    assert t.releaseGroupMeta.Keys <= tu.releaseGroupMeta.Keys;
  }

  /** The cache loop adds only links whose both ends have metadata. */
  lemma {:induction false} CacheReleaseGroupsKeepsLinksBacked(t: Tables, recording: Mbid, rgs: seq<ReleaseGroupRow>)
    requires LinksBacked(t) && recording in t.recordingMeta
    ensures LinksBacked(CacheReleaseGroups(t, recording, rgs))
    ensures CacheReleaseGroups(t, recording, rgs).recordingMeta == t.recordingMeta
  {
    if rgs != [] {
      CacheReleaseGroupsKeepsLinksBacked(t, recording, rgs[..|rgs| - 1]);
      CacheReleaseGroupKeepsLinksBacked(CacheReleaseGroups(t, recording, rgs[..|rgs| - 1]), recording, rgs[|rgs| - 1]);
    }
  }

  /** The cache loop keeps the invariants and changes only the release groups, their
      metadata and the links. */
  lemma {:induction false} CacheReleaseGroupsKeepsValid(t: Tables, recording: Mbid, rgs: seq<ReleaseGroupRow>)
    requires Valid(t)
    ensures var t' := CacheReleaseGroups(t, recording, rgs);
      && Valid(t') && Evolves(t, t')
      && t' == t.(releaseGroups := t'.releaseGroups, releaseGroupMeta := t'.releaseGroupMeta, links := t'.links)
  {
    if rgs != [] {
      var prefix := rgs[..|rgs| - 1];
      var tp := CacheReleaseGroups(t, recording, prefix);
      CacheReleaseGroupsKeepsValid(t, recording, prefix);
      CacheReleaseGroupKeepsValid(tp, recording, rgs[|rgs| - 1]);
      EvolvesTransitive(t, tp, CacheReleaseGroups(t, recording, rgs));
    }
  }

  /** The cache loop adds exactly the links of the map. */
  lemma {:induction false} CacheReleaseGroupsLinks(t: Tables, recording: Mbid, rgs: seq<ReleaseGroupRow>)
    ensures CacheReleaseGroups(t, recording, rgs).links == t.links + LinksOf(recording, rgs)
  {
    if rgs != [] {
      CacheReleaseGroupsLinks(t, recording, rgs[..|rgs| - 1]);
      LinksOfSnoc(recording, rgs);
    }
  }

  /** One iteration of the cache loop absorbs its release group and keeps absorbed
      whatever was absorbed before. */
  lemma CacheReleaseGroupAbsorbs(t: Tables, recording: Mbid, rg: ReleaseGroupRow, done: seq<ReleaseGroupRow>)
    requires Absorbed(t, recording, done)
    ensures Absorbed(CacheReleaseGroup(t, recording, rg), recording, done + [rg])
  {
    var t' := CacheReleaseGroup(t, recording, rg);
    var all := done + [rg];
    forall i | 0 <= i < |all|
      ensures all[i].mbid in t'.releaseGroupMeta
      ensures all[i].lastUpdated <= t'.releaseGroupMeta[all[i].mbid].lastUpdated
      ensures (recording, all[i].mbid) in t'.links
    {
      if i < |done| {
        assert all[i] == done[i];
      }
    }
  }

  /** After the cache loop every release group of the map is absorbed. */
  lemma {:induction false} CacheReleaseGroupsAbsorbs(t: Tables, recording: Mbid, rgs: seq<ReleaseGroupRow>)
    ensures Absorbed(CacheReleaseGroups(t, recording, rgs), recording, rgs)
  {
    if rgs != [] {
      var prefix := rgs[..|rgs| - 1];
      CacheReleaseGroupsAbsorbs(t, recording, prefix);
      CacheReleaseGroupAbsorbs(CacheReleaseGroups(t, recording, prefix), recording, rgs[|rgs| - 1], prefix);
      assert prefix + [rgs[|rgs| - 1]] == rgs;
    }
  }

  /** Running the cache loop over release groups that are already absorbed changes
      nothing. */
  lemma {:induction false} AbsorbedCacheIsNoOp(t: Tables, recording: Mbid, rgs: seq<ReleaseGroupRow>)
    requires Absorbed(t, recording, rgs)
    ensures CacheReleaseGroups(t, recording, rgs) == t
  {
    if rgs != [] {
      var prefix := rgs[..|rgs| - 1];
      assert Absorbed(t, recording, prefix) by {
        forall i | 0 <= i < |prefix| ensures prefix[i] == rgs[i] { }
      }
      AbsorbedCacheIsNoOp(t, recording, prefix);
      var last := rgs[|rgs| - 1];
      assert UpsertReleaseGroupMeta(t, last) == t;
    }
  }

  /** Caching a recording keeps the invariants, links every release group of its map
      to it and adds no other link, and leaves the recording's metadata and every
      release group's metadata at least as new as the call's rows. */
  lemma CacheMusicBrainzMetadataEffect(t: Tables, rec: MusicBrainzRecording)
    requires Valid(t)
    ensures var t' := CacheMusicBrainzMetadata(t, rec);
      && Valid(t') && Evolves(t, t')
      && (LinksBacked(t) ==> LinksBacked(t'))
      && t'.links == t.links + LinksOf(rec.recording.mbid, rec.releaseGroupMap)
      && rec.recording.mbid in t'.recordingMeta
      && rec.recording.lastUpdated <= t'.recordingMeta[rec.recording.mbid].lastUpdated
      && Absorbed(t', rec.recording.mbid, rec.releaseGroupMap)
  {
    var tr := UpsertRecordingMeta(t, rec.recording);
    UpsertRecordingMetaKeepsValid(t, rec.recording);
    CacheReleaseGroupsKeepsValid(tr, rec.recording.mbid, rec.releaseGroupMap);
    if LinksBacked(t) {
      CacheReleaseGroupsKeepsLinksBacked(tr, rec.recording.mbid, rec.releaseGroupMap);
    }
    CacheReleaseGroupsLinks(tr, rec.recording.mbid, rec.releaseGroupMap);
    CacheReleaseGroupsAbsorbs(tr, rec.recording.mbid, rec.releaseGroupMap);
    EvolvesTransitive(t, tr, CacheMusicBrainzMetadata(t, rec));
  }

  /** Every release group of the map is linked to the recording afterwards. */
  lemma CacheMusicBrainzMetadataLinksAll(t: Tables, rec: MusicBrainzRecording)
    requires Valid(t)
    ensures forall i :: 0 <= i < |rec.releaseGroupMap| ==>
      rec.releaseGroupMap[i].mbid in GetReleaseGroupsForRecording(CacheMusicBrainzMetadata(t, rec), rec.recording.mbid)
  {
    CacheMusicBrainzMetadataEffect(t, rec);
  }

  /** Some row of `rgs` names the same release group as `rg`, with a timestamp at
      least as new. */
  ghost predicate Covered(rgs: seq<ReleaseGroupRow>, rg: ReleaseGroupRow) {
    exists i :: 0 <= i < |rgs| && rgs[i].mbid == rg.mbid && rg.lastUpdated <= rgs[i].lastUpdated
  }

  /** The recording `later` carries nothing newer than `earlier`: the same recording,
      no newer recording row, and every release group of its map covered by the map
      of `earlier`. */
  ghost predicate NoNewerThan(later: MusicBrainzRecording, earlier: MusicBrainzRecording) {
    && later.recording.mbid == earlier.recording.mbid
    && later.recording.lastUpdated <= earlier.recording.lastUpdated
    && forall j :: 0 <= j < |later.releaseGroupMap| ==> Covered(earlier.releaseGroupMap, later.releaseGroupMap[j])
  }

  /** Caching again with equal or older timestamps changes nothing. */
  lemma CacheRepeatWithOlderIsNoOp(t: Tables, earlier: MusicBrainzRecording, later: MusicBrainzRecording)
    requires Valid(t) && NoNewerThan(later, earlier)
    ensures var t' := CacheMusicBrainzMetadata(t, earlier);
      CacheMusicBrainzMetadata(t', later) == t'
  {
    var t' := CacheMusicBrainzMetadata(t, earlier);
    var recording := earlier.recording.mbid;
    CacheMusicBrainzMetadataEffect(t, earlier);
    assert UpsertRecordingMeta(t', later.recording) == t';
    assert Absorbed(t', recording, later.releaseGroupMap) by {
      forall j | 0 <= j < |later.releaseGroupMap|
        ensures later.releaseGroupMap[j].mbid in t'.releaseGroupMeta
        ensures later.releaseGroupMap[j].lastUpdated <= t'.releaseGroupMeta[later.releaseGroupMap[j].mbid].lastUpdated
        ensures (recording, later.releaseGroupMap[j].mbid) in t'.links
      {
        assert Covered(earlier.releaseGroupMap, later.releaseGroupMap[j]);
        var i :| 0 <= i < |earlier.releaseGroupMap|
          && earlier.releaseGroupMap[i].mbid == later.releaseGroupMap[j].mbid
          && later.releaseGroupMap[j].lastUpdated <= earlier.releaseGroupMap[i].lastUpdated;
      }
    }
    AbsorbedCacheIsNoOp(t', recording, later.releaseGroupMap);
  }

  /** Caching the same recording twice is the same as caching it once: one link per
      (recording, release group) pair, no metadata rewritten. */
  lemma CacheMusicBrainzMetadataIdempotent(t: Tables, rec: MusicBrainzRecording)
    requires Valid(t)
    ensures CacheMusicBrainzMetadata(CacheMusicBrainzMetadata(t, rec), rec) == CacheMusicBrainzMetadata(t, rec)
  {
    assert NoNewerThan(rec, rec) by {
      forall j | 0 <= j < |rec.releaseGroupMap|
        ensures Covered(rec.releaseGroupMap, rec.releaseGroupMap[j])
      {
        var rg := rec.releaseGroupMap[j];
        assert rec.releaseGroupMap[j].mbid == rg.mbid && rg.lastUpdated <= rec.releaseGroupMap[j].lastUpdated;
      }
    }
    CacheRepeatWithOlderIsNoOp(t, rec, rec);
  }

  // ---------------------------------------------------------------------------
  // The item ledger

  /** _add_item_w_connection: when no item exists for (scraper, mbid), creates one
      under a fresh id, attaches the payload when it is non-empty, and answers true;
      otherwise answers false and writes nothing. */
  function AddItem(t: Tables, scraper: Scraper, mbid: Mbid, data: Payload): (Tables, bool) {
    if (scraper.id, mbid) in t.items then
      (t, false)
    else
      var id := t.nextItemId;
      var itemData := if data.IsTruthy() then t.itemData[id := data] else t.itemData;
      (t.(items := t.items[(scraper.id, mbid) := id], itemData := itemData, nextItemId := id + 1), true)
  }

  lemma AddItemKeepsValid(t: Tables, scraper: Scraper, mbid: Mbid, data: Payload)
    requires Valid(t)
    ensures Valid(AddItem(t, scraper, mbid, data).0) && Evolves(t, AddItem(t, scraper, mbid, data).0)
  {
    var (t', created) := AddItem(t, scraper, mbid, data);
    if created {
      assert t.items.Values <= t'.items.Values by {
        forall v | v in t.items.Values ensures v in t'.items.Values {
          var k :| k in t.items && t.items[k] == v;
          assert t'.items[k] == v;
        }
      }
      assert t'.items[(scraper.id, mbid)] == t.nextItemId;
    }
  }

  /** The answer is true exactly when no item existed; afterwards the item exists;
      a false answer leaves every table as it was; a new item gets an id no item or
      payload had, and a payload row exactly when the payload is non-empty. */
  lemma AddItemAtMostOnce(t: Tables, scraper: Scraper, mbid: Mbid, data: Payload)
    requires Valid(t)
    ensures var (t', created) := AddItem(t, scraper, mbid, data);
      && (created <==> (scraper.id, mbid) !in t.items)
      && (scraper.id, mbid) in t'.items
      && (!created ==> t' == t)
      && (created ==>
            && t'.items[(scraper.id, mbid)] !in t.items.Values
            && t'.items[(scraper.id, mbid)] !in t.itemData
            && t'.itemData == (if data.IsTruthy() then t.itemData[t'.items[(scraper.id, mbid)] := data] else t.itemData)
            && t' == t.(items := t'.items, itemData := t'.itemData, nextItemId := t'.nextItemId))
  {
    var (t', created) := AddItem(t, scraper, mbid, data);
    var id := t.nextItemId;
    assert id !in t.items.Values;
    if created {
      assert t'.items[(scraper.id, mbid)] == id;
    }
  }

  /** Recording an item a second time answers false and changes nothing, whatever
      payload comes with it. */
  lemma AddItemTwice(t: Tables, scraper: Scraper, mbid: Mbid, first: Payload, second: Payload)
    ensures var t' := AddItem(t, scraper, mbid, first).0;
      AddItem(t', scraper, mbid, second) == (t', false)
  {
  }

  /** An item removes its recording from its own scraper's work queue for good. */
  lemma ProcessedStaysProcessed(t: Tables, t': Tables, scraper: Scraper, mbid: Mbid, data: Payload)
    requires Evolves(AddItem(t, scraper, mbid, data).0, t')
    ensures forall row :: row in UnprocessedRecordings(t', scraper, None) ==> row.mbid != mbid
    ensures forall row :: row in UnprocessedReleaseGroups(t', scraper, None) ==> row.mbid != mbid
  {
    assert (scraper.id, mbid) in AddItem(t, scraper, mbid, data).0.items;
  }
}
