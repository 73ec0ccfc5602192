/** The server-side video cache: `video_cache` maps a video URL to the path of
    the downloaded file and the time it was stored. Entries older than an hour
    are dropped (with their files) before every `/preview` lookup; a video is
    stored after its thumbnails were generated. The file system is modelled
    as the set of paths that exist. */
module Cache {
  import opened Common

  /** `CACHE_DURATION`, in seconds. */
  const CacheDuration: real := 3600.0

  datatype Entry = Entry(path: string, timestamp: real)

  /** `current_time - data['timestamp'] > CACHE_DURATION`: strictly older than an hour. */
  predicate Expired(e: Entry, now: real)
  {
    now - e.timestamp > CacheDuration
  }

  /** Whether the sweep drops an entry. `os.unlink` runs before `del`, so an
      entry whose existing file cannot be unlinked stays (the error is logged);
      `unlinkable` is the set of paths whose unlink succeeds. */
  predicate Dropped(e: Entry, now: real, files: set<string>, unlinkable: set<string>)
  {
    Expired(e, now) && (e.path !in files || e.path in unlinkable)
  }

  /** The cache after a sweep. */
  function Survivors(entries: map<string, Entry>, files: set<string>, now: real, unlinkable: set<string>): (r: map<string, Entry>)
    ensures r.Keys <= entries.Keys
    ensures forall u :: u in r ==> r[u] == entries[u]
    ensures forall u :: u in entries && !Expired(entries[u], now) ==> u in r
    ensures forall u :: u in entries && Expired(entries[u], now) && entries[u].path !in files ==> u !in r
  {
    map u | u in entries && !Dropped(entries[u], now, files, unlinkable) :: entries[u]
  }

  /** The files the sweep unlinks. */
  function Unlinked(entries: map<string, Entry>, files: set<string>, now: real, unlinkable: set<string>): set<string>
  {
    set u | u in entries && Expired(entries[u], now) && entries[u].path in files && entries[u].path in unlinkable :: entries[u].path
  }

  /** The `/preview` lookup: a hit only when the URL is cached and its file still exists. */
  function Lookup(entries: map<string, Entry>, files: set<string>, url: string): (r: Result<string>)
    ensures r.Ok? <==> url in entries && entries[url].path in files
    ensures r.Ok? ==> r.value == entries[url].path
  {
    if url in entries && entries[url].path in files then Ok(entries[url].path) else Err(NotLoaded)
  }

  /** The paths that exist. */
  class FileSystem {
    var files: set<string>

    constructor (files: set<string>)
      ensures this.files == files
    {
      this.files := files;
    }
  }

  class VideoCache {
    var entries: map<string, Entry>

    constructor ()
      ensures entries == map[]
    {
      entries := map[];
    }

    /** `cleanup_old_cache`, with `now` for `time.time()`. The expired URLs are
        collected first and then removed one at a time, in no particular order. */
    method CleanupOldCache(fs: FileSystem, now: real, unlinkable: set<string>)
      modifies this, fs
      ensures entries == Survivors(old(entries), old(fs.files), now, unlinkable)
      ensures fs.files == old(fs.files) - Unlinked(old(entries), old(fs.files), now, unlinkable)
    {
      ghost var e0 := entries;
      ghost var f0 := fs.files;
      var expired := set url | url in entries && Expired(entries[url], now);
      ghost var done: set<string> := {};
      while expired != {}
        invariant expired !! done
        invariant forall u :: u in expired || u in done <==> u in e0 && Expired(e0[u], now)
        invariant entries == map u | u in e0 && !(u in done && Dropped(e0[u], now, f0, unlinkable)) :: e0[u]
        invariant fs.files == f0 - set u | u in done && e0[u].path in f0 && e0[u].path in unlinkable :: e0[u].path
        decreases expired
      {
        var url :| url in expired;
        var path := entries[url].path;
        if path in fs.files {
          if path in unlinkable {
            fs.files := fs.files - {path};
            entries := entries - {url};
          } else {
            // os.unlink raised: the error is logged and the entry stays
          }
        } else {
          entries := entries - {url};
        }
        expired := expired - {url};
        done := done + {url};
      }
    }

    /** `/preview`: sweep, then look the URL up. A miss answers "Please load
        video information first" with status 400 (see PreviewAsWritten). */
    method Preview(fs: FileSystem, url: string, now: real, unlinkable: set<string>) returns (r: Result<string>)
      modifies this, fs
      ensures entries == Survivors(old(entries), old(fs.files), now, unlinkable)
      ensures fs.files == old(fs.files) - Unlinked(old(entries), old(fs.files), now, unlinkable)
      ensures r == Lookup(entries, fs.files, url)
    {
      CleanupOldCache(fs, now, unlinkable);
      if url in entries && entries[url].path in fs.files {
        r := Ok(entries[url].path);
      } else {
        r := Err(NotLoaded);
      }
    }

    /** The store after thumbnail generation: `os.rename` moves the downloaded
        file to the cache path, then the URL is mapped to it with the current
        time, replacing any earlier entry. */
    method Store(fs: FileSystem, url: string, videoPath: string, cachePath: string, now: real)
      requires videoPath in fs.files
      modifies this, fs
      ensures fs.files == old(fs.files) - {videoPath} + {cachePath}
      ensures entries == old(entries)[url := Entry(cachePath, now)]
    {
      fs.files := fs.files - {videoPath} + {cachePath};
      entries := entries[url := Entry(cachePath, now)];
    }
  }

  // ---------------------------------------------------------------------
  // Properties of the sweep

  /** An expired entry outlives the sweep exactly when its file exists and
      cannot be unlinked: the failed `os.unlink` skips the `del`. */
  lemma SweepKeepsStuckEntries(entries: map<string, Entry>, files: set<string>, now: real, unlinkable: set<string>)
    ensures forall u :: u in entries && Expired(entries[u], now) ==>
      (u in Survivors(entries, files, now, unlinkable) <==> entries[u].path in files && entries[u].path !in unlinkable)
  {
  }

  /** When every unlink succeeds, the cache holds exactly the entries at most
      an hour old; an entry exactly an hour old survives. */
  lemma SweepExact(entries: map<string, Entry>, files: set<string>, now: real, unlinkable: set<string>)
    requires files <= unlinkable
    ensures Survivors(entries, files, now, unlinkable) == map u | u in entries && now - entries[u].timestamp <= CacheDuration :: entries[u]
    ensures forall u :: u in entries && entries[u].timestamp == now - 3600.0 ==> u in Survivors(entries, files, now, unlinkable)
  {
    var s := Survivors(entries, files, now, unlinkable);
    var m := map u | u in entries && now - entries[u].timestamp <= CacheDuration :: entries[u];
    assert s.Keys == m.Keys;
  }

  /** A second sweep at the same time changes nothing: what survived the first
      is either fresh or held by a file that still cannot be unlinked. */
  lemma SweepIdempotent(entries: map<string, Entry>, files: set<string>, now: real, unlinkable: set<string>)
    ensures var e1 := Survivors(entries, files, now, unlinkable);
            var f1 := files - Unlinked(entries, files, now, unlinkable);
            Survivors(e1, f1, now, unlinkable) == e1 && Unlinked(e1, f1, now, unlinkable) == {}
  {
    var e1 := Survivors(entries, files, now, unlinkable);
    var f1 := files - Unlinked(entries, files, now, unlinkable);
    forall u | u in e1 ensures !Dropped(e1[u], now, f1, unlinkable) {
      if Expired(e1[u], now) {
        assert e1[u].path in files && e1[u].path !in unlinkable;
        assert e1[u].path !in Unlinked(entries, files, now, unlinkable);
      }
    }
    assert Survivors(e1, f1, now, unlinkable).Keys == e1.Keys;
  }

  /** A later sweep drops at least what an earlier one would. */
  lemma SweepMonotoneInTime(entries: map<string, Entry>, files: set<string>, now: real, later: real, unlinkable: set<string>)
    requires now <= later
    ensures Survivors(entries, files, later, unlinkable).Keys <= Survivors(entries, files, now, unlinkable).Keys
  {
  }

  // ---------------------------------------------------------------------
  // Store, then preview

  /** A stored video is served by `/preview` for the hour after it was stored,
      provided no other entry shares its file. */
  lemma StoredVideoIsServed(entries: map<string, Entry>, files: set<string>, url: string, videoPath: string,
                            cachePath: string, storedAt: real, now: real, unlinkable: set<string>)
    requires now - storedAt <= CacheDuration
    requires forall u :: u in entries && u != url ==> entries[u].path != cachePath
    ensures var e := entries[url := Entry(cachePath, storedAt)];
            var f := files - {videoPath} + {cachePath};
            Lookup(Survivors(e, f, now, unlinkable), f - Unlinked(e, f, now, unlinkable), url) == Ok(cachePath)
  {
    var e := entries[url := Entry(cachePath, storedAt)];
    var f := files - {videoPath} + {cachePath};
    assert url in Survivors(e, f, now, unlinkable);
    assert cachePath !in Unlinked(e, f, now, unlinkable);
  }

  /** The lookup fails exactly for an unknown URL or a vanished file, and then
      answers 400. */
  lemma LookupMissIsBadRequest(entries: map<string, Entry>, files: set<string>, url: string)
    ensures Lookup(entries, files, url).Err? <==> url !in entries || entries[url].path !in files
    ensures Lookup(entries, files, url).Err? ==> Status(Lookup(entries, files, url).error) == 400
  {
  }

  /** `/preview` as written: the 400 "load first" error is raised inside a
      `try` whose only handler is `except Exception`, which re-raises every
      error, HTTPException included, as a 500. */
  function PreviewAsWritten(entries: map<string, Entry>, files: set<string>, url: string): (r: Result<string>)
    ensures r.Ok? <==> Lookup(entries, files, url).Ok?
    ensures r.Ok? ==> r.value == entries[url].path
    ensures r.Err? ==> Status(r.error) == 500
  {
    match Lookup(entries, files, url)
    case Ok(path) => Ok(path)
    case Err(e) => Err(Rewrapped(e))
  }

  /** A miss reaches the client as a 500, not the intended 400. */
  lemma PreviewAsWrittenMissIs500(entries: map<string, Entry>, files: set<string>, url: string)
    requires url !in entries
    ensures PreviewAsWritten(entries, files, url).Err?
    ensures Status(PreviewAsWritten(entries, files, url).error) == 500
    ensures Status(Lookup(entries, files, url).error) == 400
  {
  }
}
