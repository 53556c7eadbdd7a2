/**
 The tables of the metadata ledger, as values.

 Every table of the store is one field of `Tables`: identity tables are sets,
 tables keyed by an identifier are maps, and the serial id sequences of the
 `source`, `scraper` and `item` tables are counters. Timestamps are integers.
 */
module Schema {

  /** A MusicBrainz identifier (a UUID), in its canonical text form and compared as a string. */
  type Mbid = string

  datatype Option<T> = None | Some(value: T)

  /** The failures a write operation reports instead of changing the store. */
  datatype Error =
    | InvalidMbType(mbType: string)     // add_scraper's ValueError
    | DuplicateSourceName(name: string) // the unique key on source.name

  datatype Result<T> = Ok(value: T) | Err(error: Error)

  const RECORDING_TYPE: string := "recording"
  const RELEASE_GROUP_TYPE: string := "release_group"

  /** The only metadata kinds a scraper may target. */
  predicate IsMbType(mbType: string) {
    mbType == RECORDING_TYPE || mbType == RELEASE_GROUP_TYPE
  }

  datatype Source = Source(id: nat, name: string)

  datatype Scraper = Scraper(
    id: nat,
    sourceId: nat,
    moduleRef: string,
    mbType: string,
    version: int,
    description: string)

  /** The payload handed to the item ledger; only its truthiness matters to the store. */
  datatype Payload =
    | Null
    | Text(text: string)
    | List(elems: seq<string>)
    | Dict(entries: map<string, string>)
  {
    /** Python's truthiness: None and empty strings, lists and dicts are false. */
    predicate IsTruthy() {
      match this
      case Null => false
      case Text(s) => s != ""
      case List(xs) => xs != []
      case Dict(m) => m != map[]
    }
  }

  /** A stored recording_meta row, keyed by its mbid. */
  datatype RecordingMeta = RecordingMeta(name: string, artistCredit: string, lastUpdated: int)

  /** A stored release_group_meta row, keyed by its mbid. */
  datatype ReleaseGroupMeta =
    ReleaseGroupMeta(name: string, artistCredit: string, firstReleaseDate: string, lastUpdated: int)

  /** Incoming recording metadata, and the row `_get_recording_meta` reads back. */
  datatype RecordingRow = RecordingRow(mbid: Mbid, name: string, artistCredit: string, lastUpdated: int)

  /** Incoming release-group metadata, and the row `_get_release_group_meta` reads back. */
  datatype ReleaseGroupRow = ReleaseGroupRow(
    mbid: Mbid,
    name: string,
    artistCredit: string,
    firstReleaseDate: string,
    lastUpdated: int)

  /** What the MusicBrainz scraper hands to the cache: the recording's own metadata and
      the values of its release_group_map, in the map's iteration order. */
  datatype MusicBrainzRecording = MusicBrainzRecording(recording: RecordingRow, releaseGroupMap: seq<ReleaseGroupRow>)

  datatype Tables = Tables(
    sources: map<string, nat>,              // source: name -> id (name is unique)
    scrapers: map<nat, Scraper>,            // scraper: id -> row
    recordings: set<Mbid>,                  // recording
    redirects: set<(Mbid, Mbid)>,           // recording_redirect: (mbid, new_mbid)
    recordingMeta: map<Mbid, RecordingMeta>,
    releaseGroups: set<Mbid>,               // release_group
    releaseGroupMeta: map<Mbid, ReleaseGroupMeta>,
    links: set<(Mbid, Mbid)>,               // recording_release_group: (recording, release group)
    items: map<(nat, Mbid), nat>,           // item: (scraper_id, mbid) -> item id
    itemData: map<nat, Payload>,            // item_data: item id -> payload
    nextSourceId: nat,
    nextScraperId: nat,
    nextItemId: nat)

  /** A freshly created store: every table empty, every id sequence at 1. */
  const EMPTY: Tables := Tables(map[], map[], {}, {}, map[], {}, map[], {}, map[], map[], 1, 1, 1)

  /** The invariant every operation of the ledger keeps. */
  ghost predicate Valid(t: Tables) {
    // serial ids: every id handed out is below the next one, and source ids are distinct
    && (forall name :: name in t.sources ==> t.sources[name] < t.nextSourceId)
    && (forall n1, n2 :: n1 in t.sources && n2 in t.sources && n1 != n2 ==> t.sources[n1] != t.sources[n2])
    && (forall id :: id in t.scrapers ==>
          id < t.nextScraperId && t.scrapers[id].id == id && IsMbType(t.scrapers[id].mbType))
    // a redirect never points at itself, and its target is a known recording
    && (forall p :: p in t.redirects ==> p.0 != p.1 && p.1 in t.recordings)
    // a release group identity exists exactly when its metadata does
    && t.releaseGroups == t.releaseGroupMeta.Keys
    // item ids are serial, and every payload belongs to an item
    && (forall k :: k in t.items ==> t.items[k] < t.nextItemId)
    && t.itemData.Keys <= t.items.Values
  }

  lemma EmptyIsValid()
    ensures Valid(EMPTY)
  {
  }
}
