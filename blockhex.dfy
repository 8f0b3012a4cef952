/**
 * blockhex.py: sweep the hotspot listing into a hex set, write it to a
 * local cache file as a sorted list, and read the cache back subject to a
 * maximum age.
 *
 * The file system is a map from path to file; the cache path is a
 * parameter. A file keeps the list written to it and its modification time.
 */
module BlockHex {
  import opened Base
  import opened Order
  import opened Helium

  datatype CacheFile = CacheFile(contents: seq<string>, mtime: int)

  type FileSystem = map<string, CacheFile>

  /**
   * `fetch_hotspots(cursor)`: the URL requested, the next cursor (`''` when
   * the payload has none) and the page's `data` list, unchanged.
   */
  function FetchHotspots(cursor: string, payload: Payload): (r: (string, string, seq<Hotspot>))
    ensures r.0 == CursorUrl(cursor)
    ensures payload.cursor.None? ==> r.1 == ""
    ensures payload.cursor.Some? ==> r.1 == payload.cursor.value
    ensures r.2 == payload.data
  {
    (CursorUrl(cursor), NextCursor(payload), payload.data)
  }

  /** `dump_hex_cache`: the file at `path` now holds the list, stamped `now`; no other file changes. */
  function DumpHexCache(fs: FileSystem, path: string, hexList: seq<string>, now: int): (fs': FileSystem)
    ensures path in fs' && fs'[path] == CacheFile(hexList, now)
    ensures forall p :: p in fs && p != path ==> p in fs' && fs'[p] == fs[p]
    ensures forall p :: p in fs' ==> p in fs || p == path
  {
    fs[path := CacheFile(hexList, now)]
  }

  /** Which branch of `load_hex_cache` was taken (the message it logs). */
  datatype CacheStatus = Loaded | Expired | NotFound

  datatype CacheRead = CacheRead(hexes: set<string>, timestamp: int, status: CacheStatus)

  /**
   * `load_hex_cache`: `maxAge == None` is the default infinite age. A cache
   * younger than the maximum age gives its contents and mtime; an older one
   * the empty set but still its mtime; a missing one the empty set and 0.
   */
  function LoadHexCache(fs: FileSystem, path: string, now: int, maxAge: Option<int>): (r: CacheRead)
    ensures path !in fs <==> r.status == NotFound
    ensures r.status == NotFound ==> r == CacheRead({}, 0, NotFound)
    ensures path in fs ==> r.timestamp == fs[path].mtime
    ensures path in fs && (maxAge.None? || now - fs[path].mtime < maxAge.value) ==>
      r.status == Loaded && forall h :: h in r.hexes <==> h in fs[path].contents
    ensures path in fs && maxAge.Some? && now - fs[path].mtime >= maxAge.value ==>
      r.status == Expired && r.hexes == {}
  {
    if path !in fs then CacheRead({}, 0, NotFound)
    else
      var f := fs[path];
      if maxAge.None? || now - f.mtime < maxAge.value then CacheRead(Elements(f.contents), f.mtime, Loaded)
      else CacheRead({}, f.mtime, Expired)
  }

  /**
   * A cache read back within its age (always, with the default infinite
   * age) gives exactly the set that was dumped and the dump's time.
   */
  lemma LoadAfterDump(fs: FileSystem, path: string, hexList: seq<string>, written: int, now: int, maxAge: Option<int>)
    requires maxAge.None? || now - written < maxAge.value
    ensures LoadHexCache(DumpHexCache(fs, path, hexList, written), path, now, maxAge)
      == CacheRead(Elements(hexList), written, Loaded)
  {
  }

  /** A cache read back too late keeps its timestamp but yields no hexes. */
  lemma LoadAfterExpiry(fs: FileSystem, path: string, hexList: seq<string>, written: int, now: int, maxAge: int)
    requires now - written >= maxAge
    ensures LoadHexCache(DumpHexCache(fs, path, hexList, written), path, now, Some(maxAge))
      == CacheRead({}, written, Expired)
  {
  }

  /**
   * Dumping a set's sorted list and reading it back, then dumping that set
   * again, writes the same list: the cache file depends only on the set.
   */
  lemma DumpReloadStable(fs: FileSystem, path: string, hexList: seq<string>, hexList': seq<string>,
                         written: int, now: int)
    requires StrictlyIncreasing(hexList) && StrictlyIncreasing(hexList')
    requires forall h :: h in hexList' <==> h in LoadHexCache(DumpHexCache(fs, path, hexList, written), path, now, None).hexes
    ensures hexList' == hexList
  {
    LoadAfterDump(fs, path, hexList, written, now, None);
    IncreasingUnique(hexList', hexList);
  }

  /**
   * The main loop: fetch at least once, keep fetching while the returned
   * cursor is non-empty, fold each page into the set and the count, and
   * dump `sorted(list(hex_set))` at `path`.
   */
  method BuildCache(fs: FileSystem, path: string, responses: seq<Payload>, now: int)
    returns (fs': FileSystem, hexList: seq<string>, total: nat, urls: seq<string>)
    ensures StrictlyIncreasing(hexList)
    ensures forall h :: h in hexList <==> h in PagesHexes(SweptPages(responses))
    ensures total == TotalHotspots(SweptPages(responses))
    ensures |hexList| <= total
    ensures fs' == DumpHexCache(fs, path, hexList, now)
    ensures |urls| == SweepLength(responses)
    ensures responses != [] ==> urls[0] == HOTSPOTS_URL
    ensures forall i :: 1 <= i < |urls| ==> urls[i] == CursorUrl(NextCursor(responses[i - 1]))
  {
    var firstPass := true;
    var cursor := "";
    total := 0;
    var hexSet: set<string> := {};
    var k := 0;
    urls := [];
    while (firstPass || cursor != "") && k < |responses|
      invariant Sweeping(responses, k, firstPass, cursor)
      invariant hexSet == PagesHexes(Datas(responses[..k]))
      invariant total == TotalHotspots(Datas(responses[..k]))
      invariant urls == SweepUrls(responses, k)
      decreases |responses| - k
    {
      SweepingStep(responses, k, firstPass, cursor);
      SweepUrlsStep(responses, k, firstPass, cursor);
      DatasStep(responses, k);
      firstPass := false;
      var fetched := FetchHotspots(cursor, responses[k]);
      urls := urls + [fetched.0];
      cursor := fetched.1;
      hexSet, total := AddPage(hexSet, total, fetched.2);
      k := k + 1;
    }
    SweepingDone(responses, k, firstPass, cursor);
    HexesBound(Datas(responses[..k]));
    hexList := SortedList(hexSet);
    fs' := DumpHexCache(fs, path, hexList, now);
  }

  lemma DatasStep(responses: seq<Payload>, k: nat)
    requires k < |responses|
    ensures PagesHexes(Datas(responses[..k + 1])) == PagesHexes(Datas(responses[..k])) + PageHexes(responses[k].data)
    ensures TotalHotspots(Datas(responses[..k + 1])) == TotalHotspots(Datas(responses[..k])) + |responses[k].data|
  {
    assert Datas(responses[..k + 1])[..k] == Datas(responses[..k]);
  }
}
