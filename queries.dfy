/**
 The read-only queries of the metadata ledger, as functions of the tables.

 Each query is the meaning of one SELECT: a lookup by key, or the set of rows a
 join with its filters selects. Result order (ORDER BY) is not modelled: results
 are sets.
 */
module Queries {
  import opened Schema

  /** A row of the unprocessed-recordings work queue. */
  datatype RecordingSummary = RecordingSummary(mbid: Mbid, name: string, artistCredit: string)

  /** A row of the unprocessed-release-groups work queue. */
  datatype ReleaseGroupSummary =
    ReleaseGroupSummary(mbid: Mbid, name: string, artistCredit: string, firstReleaseDate: string)

  /** The recording has been redirected away from: it is the old side of some redirect. */
  predicate IsRedirected(t: Tables, mbid: Mbid) {
    exists p :: p in t.redirects && p.0 == mbid
  }

  function SummarizeRecording(mbid: Mbid, meta: RecordingMeta): RecordingSummary {
    RecordingSummary(mbid, meta.name, meta.artistCredit)
  }

  function SummarizeReleaseGroup(mbid: Mbid, meta: ReleaseGroupMeta): ReleaseGroupSummary {
    ReleaseGroupSummary(mbid, meta.name, meta.artistCredit, meta.firstReleaseDate)
  }

  /** The source with the given name, if one is registered. */
  function LoadSource(t: Tables, name: string): (r: Option<Source>)
    ensures r.Some? <==> name in t.sources
    ensures r.Some? ==> r.value.name == name && r.value.id == t.sources[name]
  {
    if name in t.sources then Some(Source(t.sources[name], name)) else None
  }

  /** The stored metadata of a recording, read back as a row. */
  function GetRecordingMeta(t: Tables, mbid: Mbid): (r: Option<RecordingRow>)
    ensures r.Some? <==> mbid in t.recordingMeta
    ensures r.Some? ==>
      && r.value.mbid == mbid
      && RecordingMeta(r.value.name, r.value.artistCredit, r.value.lastUpdated) == t.recordingMeta[mbid]
  {
    if mbid in t.recordingMeta then
      var m := t.recordingMeta[mbid];
      Some(RecordingRow(mbid, m.name, m.artistCredit, m.lastUpdated))
    else
      None
  }

  /** The stored metadata of a release group, read back as a row. */
  function GetReleaseGroupMeta(t: Tables, mbid: Mbid): (r: Option<ReleaseGroupRow>)
    ensures r.Some? <==> mbid in t.releaseGroupMeta
    ensures r.Some? ==>
      && r.value.mbid == mbid
      && ReleaseGroupMeta(r.value.name, r.value.artistCredit, r.value.firstReleaseDate, r.value.lastUpdated)
         == t.releaseGroupMeta[mbid]
  {
    if mbid in t.releaseGroupMeta then
      var m := t.releaseGroupMeta[mbid];
      Some(ReleaseGroupRow(mbid, m.name, m.artistCredit, m.firstReleaseDate, m.lastUpdated))
    else
      None
  }

  /** The release groups linked to a recording. */
  function GetReleaseGroupsForRecording(t: Tables, recording: Mbid): (r: set<Mbid>)
    ensures forall g :: g in r <==> (recording, g) in t.links
  {
    set p | p in t.links && p.0 == recording :: p.1
  }

  /** All scrapers registered for a source. */
  function LoadScrapersForSource(t: Tables, source: Source): (r: set<Scraper>)
    ensures forall s :: s in r <==> s in t.scrapers.Values && s.sourceId == source.id
  {
    set s | s in t.scrapers.Values && s.sourceId == source.id
  }

  /** Among the scrapers with an id below `bound`, the id of one of `sourceId` with
      the greatest version; ties go to the lowest id. */
  function LatestAmong(scrapers: map<nat, Scraper>, sourceId: nat, bound: nat): (best: Option<nat>)
    ensures best.Some? ==>
      && best.value < bound && best.value in scrapers && scrapers[best.value].sourceId == sourceId
      && (forall k :: k < bound && k in scrapers && scrapers[k].sourceId == sourceId ==>
            scrapers[k].version <= scrapers[best.value].version)
    ensures best.None? ==> forall k :: k < bound && k in scrapers ==> scrapers[k].sourceId != sourceId
    decreases bound
  {
    if bound == 0 then
      None
    else
      var k := bound - 1;
      var prev := LatestAmong(scrapers, sourceId, k);
      if k in scrapers && scrapers[k].sourceId == sourceId
         && (prev.None? || scrapers[k].version > scrapers[prev.value].version)
      then Some(k)
      else prev
  }

  /** A scraper of the source with the greatest version, or None when the source has
      no scraper. Which of several scrapers sharing that version is returned is not
      promised. */
  function LoadLatestScraperForSource(t: Tables, source: Source): (r: Option<Scraper>)
    requires Valid(t)
    ensures r.Some? ==>
      && r.value.id in t.scrapers && t.scrapers[r.value.id] == r.value
      && r.value.sourceId == source.id
      && (forall s :: s in t.scrapers.Values && s.sourceId == source.id ==> s.version <= r.value.version)
    ensures r.None? <==> forall s :: s in t.scrapers.Values ==> s.sourceId != source.id
  {
    match LatestAmong(t.scrapers, source.id, t.nextScraperId)
    case Some(k) => Some(t.scrapers[k])
    case None => None
  }

  /** The recordings scraper `scraper` still has to process: known recordings with
      metadata, not redirected away from, with no item for this scraper, restricted
      to `mbid` when one is given. */
  function UnprocessedRecordings(t: Tables, scraper: Scraper, mbid: Option<Mbid>): (rows: set<RecordingSummary>)
    ensures forall row :: row in rows ==>
      && row.mbid in t.recordings && row.mbid in t.recordingMeta
      && row == SummarizeRecording(row.mbid, t.recordingMeta[row.mbid])
      && !IsRedirected(t, row.mbid)
      && (scraper.id, row.mbid) !in t.items
      && (mbid.Some? ==> row.mbid == mbid.value)
    ensures forall m ::
      (&& m in t.recordings && m in t.recordingMeta && !IsRedirected(t, m)
       && (scraper.id, m) !in t.items && (mbid.Some? ==> m == mbid.value))
      ==> SummarizeRecording(m, t.recordingMeta[m]) in rows
  {
    set m | m in t.recordings && m in t.recordingMeta && !IsRedirected(t, m)
            && (scraper.id, m) !in t.items && (mbid.None? || m == mbid.value)
      :: SummarizeRecording(m, t.recordingMeta[m])
  }

  /** The release groups scraper `scraper` still has to process: known release groups
      with metadata and no item for this scraper (there is no redirect clause),
      restricted to `mbid` when one is given. */
  function UnprocessedReleaseGroups(t: Tables, scraper: Scraper, mbid: Option<Mbid>)
    : (rows: set<ReleaseGroupSummary>)
    ensures forall row :: row in rows ==>
      && row.mbid in t.releaseGroups && row.mbid in t.releaseGroupMeta
      && row == SummarizeReleaseGroup(row.mbid, t.releaseGroupMeta[row.mbid])
      && (scraper.id, row.mbid) !in t.items
      && (mbid.Some? ==> row.mbid == mbid.value)
    ensures forall m ::
      (&& m in t.releaseGroups && m in t.releaseGroupMeta
       && (scraper.id, m) !in t.items && (mbid.Some? ==> m == mbid.value))
      ==> SummarizeReleaseGroup(m, t.releaseGroupMeta[m]) in rows
  {
    set m | m in t.releaseGroups && m in t.releaseGroupMeta
            && (scraper.id, m) !in t.items && (mbid.None? || m == mbid.value)
      :: SummarizeReleaseGroup(m, t.releaseGroupMeta[m])
  }

  /** Known recordings with no metadata that have not been redirected away from. */
  function RecordingsMissingMeta(t: Tables): (r: set<Mbid>)
    ensures forall m :: m in r <==> m in t.recordings && m !in t.recordingMeta && !IsRedirected(t, m)
  {
    set m | m in t.recordings && m !in t.recordingMeta && !IsRedirected(t, m)
  }

  /** No recording is both in a work queue and missing its metadata. */
  lemma MissingMetaDisjointFromUnprocessed(t: Tables, scraper: Scraper, mbid: Option<Mbid>)
    ensures forall row :: row in UnprocessedRecordings(t, scraper, mbid) ==> row.mbid !in RecordingsMissingMeta(t)
  {
  }

  /** Every known recording that has not been redirected away from is, for any scraper,
      exactly one of: missing metadata, waiting in the work queue, or processed. */
  lemma RecordingStatusPartition(t: Tables, scraper: Scraper, m: Mbid)
    requires m in t.recordings && !IsRedirected(t, m)
    ensures m in RecordingsMissingMeta(t) <==> m !in t.recordingMeta
    ensures m in t.recordingMeta ==>
      (SummarizeRecording(m, t.recordingMeta[m]) in UnprocessedRecordings(t, scraper, None)
       <==> (scraper.id, m) !in t.items)
  {
  }

  /** Giving an mbid restricts the work queue to that mbid. */
  lemma {:induction false} FilterRestrictsUnprocessedRecordings(t: Tables, scraper: Scraper, m: Mbid)
    ensures UnprocessedRecordings(t, scraper, Some(m))
         == set row | row in UnprocessedRecordings(t, scraper, None) && row.mbid == m
  {
    var filtered := UnprocessedRecordings(t, scraper, Some(m));
    var all := UnprocessedRecordings(t, scraper, None);
    forall row | row in all && row.mbid == m
      ensures row in filtered
    {
    }
  }

  /** Giving an mbid restricts the release-group work queue to that mbid. */
  lemma {:induction false} FilterRestrictsUnprocessedReleaseGroups(t: Tables, scraper: Scraper, m: Mbid)
    ensures UnprocessedReleaseGroups(t, scraper, Some(m))
         == set row | row in UnprocessedReleaseGroups(t, scraper, None) && row.mbid == m
  {
    var filtered := UnprocessedReleaseGroups(t, scraper, Some(m));
    var all := UnprocessedReleaseGroups(t, scraper, None);
    forall row | row in all && row.mbid == m
      ensures row in filtered
    {
    }
  }

  /** An item hides a recording from the work queue of its own scraper only. */
  lemma ItemHidesOnlyFromItsScraper(t: Tables, processor: Scraper, other: Scraper, m: Mbid)
    requires m in t.recordings && m in t.recordingMeta && !IsRedirected(t, m)
    requires (processor.id, m) in t.items && (other.id, m) !in t.items
    ensures forall row :: row in UnprocessedRecordings(t, processor, None) ==> row.mbid != m
    ensures SummarizeRecording(m, t.recordingMeta[m]) in UnprocessedRecordings(t, other, None)
  {
  }

  /** The latest scraper of a source is one of its scrapers, and none of them is newer. */
  lemma LatestScraperIsAmongScrapers(t: Tables, source: Source)
    requires Valid(t)
    ensures LoadLatestScraperForSource(t, source).Some? <==> LoadScrapersForSource(t, source) != {}
    ensures LoadLatestScraperForSource(t, source).Some? ==>
      && LoadLatestScraperForSource(t, source).value in LoadScrapersForSource(t, source)
      && (forall s :: s in LoadScrapersForSource(t, source) ==> s.version <= LoadLatestScraperForSource(t, source).value.version)
  {
    var latest := LoadLatestScraperForSource(t, source);
    if latest.Some? {
      assert latest.value in LoadScrapersForSource(t, source);
    } else {
      assert forall s :: s !in LoadScrapersForSource(t, source);
    }
  }
}
