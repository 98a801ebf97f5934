/**
 * The cache manager (`CacheManager`): a manifest from dataset keys to
 * download records, the set of files present in the cache directory, and
 * the rules that decide when a dataset is fetched again.
 *
 * Paths are file names relative to the cache directory. Times are integer
 * microseconds since the epoch, in UTC; the clock is a parameter.
 */
module Cache {
  import opened Wrappers
  import opened Exceptions

  const MicrosPerDay: int := 86400 * 1000000

  /** `CacheEntry`: a cacheable dataset. Its fetcher is outside the model. */
  datatype Entry = Entry(key: string, filename: string, ttlDays: int, version: Option<string>)

  /** One manifest record: the JSON object `ensure` writes. */
  datatype Record = Record(filename: string, downloadedAt: int, ttlDays: int, version: Option<string>)

  /** What `manifest.json` holds on disk. */
  datatype Stored = Absent | Undecodable | Saved(manifest: map<string, Record>)

  /** `_load_manifest`: a missing or undecodable file loads as an empty manifest. */
  function LoadManifest(stored: Stored): (m: map<string, Record>)
    ensures stored.Saved? ==> m == stored.manifest
    ensures !stored.Saved? ==> m == map[]
  {
    if stored.Saved? then stored.manifest else map[]
  }

  /**
   * `_is_stale`: the entry pins a version the record does not have, or the
   * record is older than the entry's time to live.
   */
  predicate IsStale(record: Record, entry: Entry, now: int) {
    var versionChanged := entry.version.Some? && Some(entry.version.value) != record.version;
    versionChanged || now - record.downloadedAt > entry.ttlDays * MicrosPerDay
  }

  /** The record `ensure` writes after fetching. */
  function Fetched(entry: Entry, now: int): (r: Record)
    ensures r.filename == entry.filename && r.ttlDays == entry.ttlDays && r.version == entry.version
    ensures r.downloadedAt == now
  {
    Record(entry.filename, now, entry.ttlDays, entry.version)
  }

  /** A freshly written record stays fresh for exactly its time to live. */
  lemma FetchedFreshness(entry: Entry, fetchedAt: int, now: int)
    ensures IsStale(Fetched(entry, fetchedAt), entry, now) <==> now - fetchedAt > entry.ttlDays * MicrosPerDay
  {
  }

  /** Pinning a version the record lacks always makes it stale. */
  lemma VersionMismatchStale(record: Record, entry: Entry, now: int)
    requires entry.version.Some? && record.version != entry.version
    ensures IsStale(record, entry, now)
  {
  }

  class CacheManager {
    var manifest: map<string, Record>
    /** The files present in the cache directory. */
    var files: set<string>
    /** The content of `manifest.json`. */
    var stored: Stored

    /** `CacheManager(base_dir)`: loads the manifest found on disk. */
    constructor (disk: Stored, present: set<string>)
      ensures manifest == LoadManifest(disk) && files == present && stored == disk
    {
      manifest := LoadManifest(disk);
      files := present;
      stored := disk;
    }

    /**
     * `ensure(entry, refresh=…)`: returns the dataset's path, fetching it
     * unless a fresh copy is recorded and present. `fetchError` is the
     * exception the fetcher raises, if it does; the manifest is then unchanged.
     */
    method Ensure(entry: Entry, refresh: bool, now: int, fetchError: Option<Error>) returns (r: Outcome<string>)
      modifies this
      ensures var current := !refresh && entry.key in old(manifest) && entry.filename in old(files)
                           && !IsStale(old(manifest)[entry.key], entry, now);
              if current then
                r == Ok(entry.filename) && manifest == old(manifest) && files == old(files) && stored == old(stored)
              else if fetchError.Some? then
                r == Fail(fetchError.value) && manifest == old(manifest) && files == old(files) && stored == old(stored)
              else
                r == Ok(entry.filename) && manifest == old(manifest)[entry.key := Fetched(entry, now)]
                && files == old(files) + {entry.filename} && stored == Saved(manifest)
    {
      if !refresh && entry.key in manifest && entry.filename in files {
        if !IsStale(manifest[entry.key], entry, now) {
          return Ok(entry.filename);
        }
      }
      if fetchError.Some? {
        return Fail(fetchError.value);
      }
      files := files + {entry.filename};
      manifest := manifest[entry.key := Fetched(entry, now)];
      SaveManifest();
      return Ok(entry.filename);
    }

    /** `_save_manifest` */
    method SaveManifest()
      modifies this
      ensures stored == Saved(manifest) && manifest == old(manifest) && files == old(files)
    {
      stored := Saved(manifest);
    }

    /** `clear(key)`: drops that record and its file; other records stay. */
    method ClearKey(key: string)
      modifies this
      ensures manifest == old(manifest) - {key}
      ensures files == if key in old(manifest) then old(files) - {old(manifest)[key].filename} else old(files)
      ensures stored == Saved(manifest)
    {
      if key in manifest {
        var payload := manifest[key];
        manifest := manifest - {key};
        files := files - {payload.filename};
      }
      SaveManifest();
    }

    /** `clear()`: drops every record and every recorded file. */
    method ClearAll()
      modifies this
      ensures manifest == map[]
      ensures files == old(files) - set k | k in old(manifest) :: old(manifest)[k].filename
      ensures stored == Saved(map[])
    {
      var pending := manifest.Keys;
      while pending != {}
        invariant pending <= manifest.Keys && manifest == old(manifest)
        invariant files == old(files) - set k | k in manifest.Keys - pending :: manifest[k].filename
        decreases |pending|
      {
        var k :| k in pending;
        files := files - {manifest[k].filename};
        pending := pending - {k};
      }
      manifest := map[];
      SaveManifest();
    }
  }

  /** A manager built on what another one saved sees the same manifest. */
  lemma ReloadSaved(m: map<string, Record>)
    ensures LoadManifest(Saved(m)) == m
  {
  }
}
