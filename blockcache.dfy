/**
 * blockcache.py: the single-page variant of blockhex.py. Its fetch reads
 * the payload's `cursor` without a fallback, and its main loop ends in
 * `break`, so exactly one page is taken and written out sorted.
 */
module BlockCache {
  import opened Base
  import opened Order
  import opened Helium
  import opened BlockHex

  /**
   * `fetch_hotspots(cursor)`: the URL requested, the page's cursor and its
   * `data`; a payload without a `cursor` key raises KeyError.
   */
  function FetchHotspotsStrict(cursor: string, payload: Payload): (r: Result<(string, string, seq<Hotspot>)>)
    ensures payload.cursor.None? <==> r == Err(KeyError("cursor"))
    ensures r.Ok? ==> r.value == (CursorUrl(cursor), payload.cursor.value, payload.data)
  {
    match payload.cursor
    case None => Err(KeyError("cursor"))
    case Some(c) => Ok((CursorUrl(cursor), c, payload.data))
  }

  /** On a payload with a cursor, the strict fetch agrees with blockhex's lenient one. */
  lemma StrictAgreesWithLenient(cursor: string, payload: Payload)
    requires payload.cursor.Some?
    ensures FetchHotspotsStrict(cursor, payload) == Ok(BlockHex.FetchHotspots(cursor, payload))
  {
  }

  /**
   * The main loop and the write after it, on the one response the single
   * request gets. Whatever cursor comes back, no second request is made.
   * When the fetch raises, nothing is written.
   */
  method SinglePass(fs: FileSystem, path: string, response: Payload, now: int)
    returns (r: Result<(seq<string>, nat)>, fs': FileSystem, urls: seq<string>)
    ensures urls == [HOTSPOTS_URL]
    ensures response.cursor.None? <==> r.Err?
    ensures r.Err? ==> r.error == KeyError("cursor") && fs' == fs
    ensures r.Ok? ==> StrictlyIncreasing(r.value.0)
    ensures r.Ok? ==> forall h :: h in r.value.0 <==> h in PageHexes(response.data)
    ensures r.Ok? ==> r.value.1 == |response.data| && |r.value.0| <= r.value.1
    ensures r.Ok? ==> fs' == DumpHexCache(fs, path, r.value.0, now)
  {
    var firstPass := true;
    var cursor := "";
    var total := 0;
    var hexSet: set<string> := {};
    urls := [];
    // The source's `while first_pass or cursor:` body ends in `break`, so
    // it runs exactly when its guard first holds: it is this `if`.
    if firstPass || cursor != "" {
      var fetched := FetchHotspotsStrict(cursor, response);
      urls := urls + [CursorUrl(cursor)];
      if fetched.Err? {
        r, fs' := Err(fetched.error), fs;
        return;
      }
      cursor := fetched.value.1;
      firstPass := false;
      hexSet, total := AddPage(hexSet, total, fetched.value.2);
    }
    PageHexesBound(response.data);
    var hexList := SortedList(hexSet);
    r := Ok((hexList, total));
    fs' := DumpHexCache(fs, path, hexList, now);
  }
}
