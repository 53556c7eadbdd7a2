/**
 The store handle: one object whose fields are the tables, with one method per
 write operation of the ledger. Each method does what the source does step by
 step (look up, then insert or update) and is proved to leave the tables exactly
 as the matching `Ledger` function describes, so every lemma about that function
 holds of the method.
 */
module Store {
  import opened Schema
  import Queries
  import Ledger

  class MetaDb {
    var sources: map<string, nat>
    var scrapers: map<nat, Scraper>
    var recordings: set<Mbid>
    var redirects: set<(Mbid, Mbid)>
    var recordingMeta: map<Mbid, RecordingMeta>
    var releaseGroups: set<Mbid>
    var releaseGroupMeta: map<Mbid, ReleaseGroupMeta>
    var links: set<(Mbid, Mbid)>
    var items: map<(nat, Mbid), nat>
    var itemData: map<nat, Payload>
    var nextSourceId: nat
    var nextScraperId: nat
    var nextItemId: nat

    /** The current contents of the tables, on which the queries are evaluated. */
    function Snapshot(): Tables
      reads this
    {
      Tables(sources, scrapers, recordings, redirects, recordingMeta, releaseGroups, releaseGroupMeta,
             links, items, itemData, nextSourceId, nextScraperId, nextItemId)
    }

    ghost predicate Valid()
      reads this
    {
      Schema.Valid(Snapshot())
    }

    /** A store with empty tables. */
    constructor ()
      ensures Valid() && Snapshot() == EMPTY
    {
      sources, scrapers := map[], map[];
      recordings, redirects, recordingMeta := {}, {}, map[];
      releaseGroups, releaseGroupMeta, links := {}, map[], {};
      items, itemData := map[], map[];
      nextSourceId, nextScraperId, nextItemId := 1, 1, 1;
    }

    /** add_source */
    method AddSource(name: string) returns (r: Result<Source>)
      requires Valid()
      modifies this`sources, this`nextSourceId
      ensures Valid()
      ensures (Snapshot(), r) == Ledger.AddSource(old(Snapshot()), name)
    {
      var id := nextSourceId;
      nextSourceId := id + 1;
      if name in sources {
        r := Err(DuplicateSourceName(name));
      } else {
        sources := sources[name := id];
        r := Ok(Source(id, name));
      }
      assert (Snapshot(), r) == Ledger.AddSource(old(Snapshot()), name);
      Ledger.AddSourceKeepsValid(old(Snapshot()), name);
    }

    /** add_scraper */
    method AddScraper(source: Source, moduleRef: string, mbType: string, version: int, description: string)
      returns (r: Result<Scraper>)
      requires Valid()
      modifies this`scrapers, this`nextScraperId
      ensures Valid()
      ensures (Snapshot(), r) == Ledger.AddScraper(old(Snapshot()), source, moduleRef, mbType, version, description)
    {
      if mbType != RECORDING_TYPE && mbType != RELEASE_GROUP_TYPE {
        return Err(InvalidMbType(mbType));
      }
      var data := Scraper(nextScraperId, source.id, moduleRef, mbType, version, description);
      scrapers := scrapers[data.id := data];
      nextScraperId := data.id + 1;
      r := Ok(data);
      assert (Snapshot(), r) == Ledger.AddScraper(old(Snapshot()), source, moduleRef, mbType, version, description);
      Ledger.AddScraperKeepsValid(old(Snapshot()), source, moduleRef, mbType, version, description);
    }

    /** _add_recording_mbids */
    method AddRecordingMbids(mbids: seq<Mbid>) returns (added: seq<Mbid>)
      requires Valid()
      modifies this`recordings
      ensures Valid()
      ensures (Snapshot(), added) == Ledger.AddRecordingMbids(old(Snapshot()), mbids)
    {
      added := [];
      var i := 0;
      while i < |mbids|
        invariant 0 <= i <= |mbids|
        invariant recordings == old(recordings) + Ledger.Elems(mbids[..i])
        invariant added == Ledger.NewMbids(old(recordings), mbids[..i])
      {
        var mbid := mbids[i];
        assert mbids[..i + 1][..i] == mbids[..i] && mbids[..i + 1][i] == mbid;
        assert mbid in recordings <==> mbid in old(recordings) || mbid in mbids[..i];
        if mbid !in recordings {
          recordings := recordings + {mbid};
          added := added + [mbid];
        }
        assert Ledger.Elems(mbids[..i + 1]) == Ledger.Elems(mbids[..i]) + {mbid};
        i := i + 1;
      }
      assert mbids[..|mbids|] == mbids;
      Ledger.AddRecordingMbidsKeepsValid(old(Snapshot()), mbids);
    }

    /** musicbrainz_check_mbid_redirect */
    method CheckMbidRedirect(queryMbid: Mbid, actualMbid: Mbid)
      requires Valid()
      modifies this`recordings, this`redirects
      ensures Valid()
      ensures Snapshot() == Ledger.CheckMbidRedirect(old(Snapshot()), queryMbid, actualMbid)
    {
      if queryMbid == actualMbid {
        return;
      }
      if (queryMbid, actualMbid) !in redirects {
        var _ := AddRecordingMbids([actualMbid]);
        redirects := redirects + {(queryMbid, actualMbid)};
      }
      Ledger.CheckMbidRedirectKeepsValid(old(Snapshot()), queryMbid, actualMbid);
    }

    /** _add_item_w_connection */
    method AddItem(scraper: Scraper, mbid: Mbid, data: Payload) returns (created: bool)
      requires Valid()
      modifies this`items, this`itemData, this`nextItemId
      ensures Valid()
      ensures (Snapshot(), created) == Ledger.AddItem(old(Snapshot()), scraper, mbid, data)
    {
      if (scraper.id, mbid) in items {
        return false;
      }
      var id := nextItemId;
      items := items[(scraper.id, mbid) := id];
      nextItemId := id + 1;
      if data.IsTruthy() {
        itemData := itemData[id := data];
      }
      created := true;
      assert Snapshot() == Ledger.AddItem(old(Snapshot()), scraper, mbid, data).0;
      Ledger.AddItemKeepsValid(old(Snapshot()), scraper, mbid, data);
    }

    /** _add_recording_meta */
    method UpsertRecordingMeta(row: RecordingRow)
      requires Valid()
      modifies this`recordingMeta
      ensures Valid()
      ensures Snapshot() == Ledger.UpsertRecordingMeta(old(Snapshot()), row)
    {
      var existing := Queries.GetRecordingMeta(Snapshot(), row.mbid);
      if existing.Some? && existing.value.lastUpdated >= row.lastUpdated {
        return;
      }
      recordingMeta := recordingMeta[row.mbid := RecordingMeta(row.name, row.artistCredit, row.lastUpdated)];
      assert Snapshot() == Ledger.UpsertRecordingMeta(old(Snapshot()), row);
      Ledger.UpsertRecordingMetaKeepsValid(old(Snapshot()), row);
    }

    /** _add_release_group_meta */
    method UpsertReleaseGroupMeta(row: ReleaseGroupRow)
      requires Valid()
      modifies this`releaseGroups, this`releaseGroupMeta
      ensures Valid()
      ensures Snapshot() == Ledger.UpsertReleaseGroupMeta(old(Snapshot()), row)
    {
      var existing := Queries.GetReleaseGroupMeta(Snapshot(), row.mbid);
      if existing.Some? {
        if existing.value.lastUpdated >= row.lastUpdated {
          return;
        }
      } else {
        releaseGroups := releaseGroups + {row.mbid};
      }
      releaseGroupMeta := releaseGroupMeta[row.mbid :=
        ReleaseGroupMeta(row.name, row.artistCredit, row.firstReleaseDate, row.lastUpdated)];
      assert Snapshot() == Ledger.UpsertReleaseGroupMeta(old(Snapshot()), row);
      Ledger.UpsertReleaseGroupMetaKeepsValid(old(Snapshot()), row);
    }

    /** _add_link_recording_release_group */
    method LinkRecordingReleaseGroup(recording: Mbid, releaseGroup: Mbid)
      requires Valid()
      modifies this`links
      ensures Valid()
      ensures Snapshot() == Ledger.LinkRecordingReleaseGroup(old(Snapshot()), recording, releaseGroup)
    {
      if (recording, releaseGroup) !in links {
        links := links + {(recording, releaseGroup)};
      }
    }

    /** cache_musicbrainz_metadata */
    method CacheMusicBrainzMetadata(rec: MusicBrainzRecording)
      requires Valid()
      modifies this`recordingMeta, this`releaseGroups, this`releaseGroupMeta, this`links
      ensures Valid()
      ensures Snapshot() == Ledger.CacheMusicBrainzMetadata(old(Snapshot()), rec)
    {
      UpsertRecordingMeta(rec.recording);
      ghost var start := Snapshot();
      var rgs := rec.releaseGroupMap;
      var i := 0;
      while i < |rgs|
        invariant 0 <= i <= |rgs|
        invariant Valid()
        invariant Snapshot() == Ledger.CacheReleaseGroups(start, rec.recording.mbid, rgs[..i])
      {
        var rg := rgs[i];
        assert rgs[..i + 1][..i] == rgs[..i] && rgs[..i + 1][i] == rg;
        UpsertReleaseGroupMeta(rg);
        LinkRecordingReleaseGroup(rec.recording.mbid, rg.mbid);
        i := i + 1;
      }
      assert rgs[..|rgs|] == rgs;
    }
  }
}
