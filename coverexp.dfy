/**
 * coverexp.py: sweep the hotspot listing page by page, collect the hex of
 * every located hotspot, write the hex set out as coverage rows, and read
 * the most recent rows back as a set plus their oldest timestamp.
 *
 * The listing's answers are an input: `responses[i]` is what the i-th
 * request returns. Timestamps are integers.
 */
module CoverExp {
  import opened Base
  import opened Order
  import opened Helium

  /**
   * `fetch_hotspots`: the first request has the empty cursor, each later one
   * carries the cursor of the page before it, and the sweep stops at the
   * first page without a cursor. `urls` are the addresses requested.
   */
  method FetchHotspots(responses: seq<Payload>) returns (pages: seq<seq<Hotspot>>, urls: seq<string>)
    ensures pages == SweptPages(responses)
    ensures |urls| == |pages|
    ensures responses != [] ==> |pages| >= 1 && urls[0] == HOTSPOTS_URL
    ensures forall i :: 1 <= i < |urls| ==> urls[i] == CursorUrl(NextCursor(responses[i - 1]))
  {
    var firstPass := true;
    var cursor := "";
    var k := 0;
    pages := [];
    urls := [];
    while (firstPass || cursor != "") && k < |responses|
      invariant Sweeping(responses, k, firstPass, cursor)
      invariant pages == Datas(responses[..k])
      invariant urls == SweepUrls(responses, k)
      decreases |responses| - k
    {
      SweepingStep(responses, k, firstPass, cursor);
      SweepUrlsStep(responses, k, firstPass, cursor);
      DatasPrefixStep(responses, k);
      firstPass := false;
      urls := urls + [CursorUrl(cursor)];
      var payload := responses[k];
      cursor := NextCursor(payload);
      pages := pages + [payload.data];
      k := k + 1;
    }
    SweepingDone(responses, k, firstPass, cursor);
  }

  /**
   * The main loop: fold every swept page into the hex set and the hotspot
   * count.
   */
  method CollectHexes(responses: seq<Payload>) returns (hexSet: set<string>, total: nat)
    ensures hexSet == PagesHexes(SweptPages(responses))
    ensures total == TotalHotspots(SweptPages(responses))
    ensures |hexSet| <= total
  {
    var pages, _ := FetchHotspots(responses);
    total := 0;
    hexSet := {};
    for k := 0 to |pages|
      invariant hexSet == PagesHexes(pages[..k])
      invariant total == TotalHotspots(pages[..k])
    {
      PagesStep(pages, k);
      hexSet, total := AddPage(hexSet, total, pages[k]);
    }
    assert pages[..|pages|] == pages;
    HexesBound(pages);
  }

  /** A row of the explorer coverage table. */
  datatype ExplorerRow = ExplorerRow(h3Index: string, explorerCoverage: bool, updateTime: int)

  function Indexes(rows: seq<ExplorerRow>): (r: seq<string>)
    ensures |r| == |rows|
    ensures forall i :: 0 <= i < |rows| ==> r[i] == rows[i].h3Index
  {
    seq(|rows|, i requires 0 <= i < |rows| => rows[i].h3Index)
  }

  /**
   * What `load_explorer_coverage` writes: one row per hex of the set, in
   * ascending order, each marked covered and stamped with the same time.
   */
  ghost predicate IsExplorerLoad(rows: seq<ExplorerRow>, hexSet: set<string>, now: int) {
    && StrictlyIncreasing(Indexes(rows))
    && (forall h :: h in Indexes(rows) <==> h in hexSet)
    && (forall i :: 0 <= i < |rows| ==> rows[i].explorerCoverage && rows[i].updateTime == now)
  }

  method LoadExplorerCoverage(hexSet: set<string>, now: int) returns (rows: seq<ExplorerRow>)
    ensures IsExplorerLoad(rows, hexSet, now)
    ensures |rows| == |hexSet|
  {
    var hexes := SortedList(hexSet);
    rows := seq(|hexes|, i requires 0 <= i < |hexes| => ExplorerRow(hexes[i], true, now));
    assert Indexes(rows) == hexes;
  }

  /** The oldest `update_time` among the rows. */
  function MinTime(rows: seq<ExplorerRow>): (t: int)
    requires rows != []
    ensures forall i :: 0 <= i < |rows| ==> t <= rows[i].updateTime
    ensures exists i :: 0 <= i < |rows| && t == rows[i].updateTime
  {
    if |rows| == 1 then rows[0].updateTime
    else
      var m := MinTime(rows[1..]);
      assert forall i :: 1 <= i < |rows| ==> rows[i] == rows[1..][i - 1];
      if rows[0].updateTime <= m then rows[0].updateTime else m
  }

  /** The hexes of the rows that are marked covered. */
  function CoveredHexes(rows: seq<ExplorerRow>): set<string>
  {
    set i | 0 <= i < |rows| && rows[i].explorerCoverage :: rows[i].h3Index
  }

  /**
   * `query_explorer_coverage`: `None` stands for a query that returned no
   * table (the AttributeError path), which gives the empty set and epoch 0;
   * an empty table makes `min` raise.
   */
  function QueryExplorerCoverage(result: Option<seq<ExplorerRow>>): (r: Result<(set<string>, int)>)
    ensures result.None? ==> r == Ok(({}, 0))
    ensures result == Some([]) ==> r == Err(EmptyMin)
    ensures result.Some? && result.value != [] ==> r.Ok?
    ensures r.Ok? && result.Some? ==> forall h :: h in r.value.0 <==>
      exists i :: 0 <= i < |result.value| && result.value[i].h3Index == h && result.value[i].explorerCoverage
    ensures r.Ok? && result.Some? ==> forall i :: 0 <= i < |result.value| ==> r.value.1 <= result.value[i].updateTime
    ensures r.Ok? && result.Some? ==> exists i :: 0 <= i < |result.value| && r.value.1 == result.value[i].updateTime
  {
    match result
    case None => Ok(({}, 0))
    case Some(rows) =>
      if rows == [] then Err(EmptyMin) else Ok((CoveredHexes(rows), MinTime(rows)))
  }

  lemma LoadEmpty(rows: seq<ExplorerRow>, hexSet: set<string>, now: int)
    requires IsExplorerLoad(rows, hexSet, now)
    ensures rows == [] <==> hexSet == {}
  {
    if rows != [] {
      assert rows[0].h3Index in Indexes(rows);
    }
    if hexSet != {} {
      var h :| h in hexSet;
      assert h in Indexes(rows);
    }
  }

  /**
   * Reading back what one load wrote gives the loaded set and its time; an
   * empty load leaves nothing for `min` and raises.
   */
  lemma LoadThenQuery(rows: seq<ExplorerRow>, hexSet: set<string>, now: int)
    requires IsExplorerLoad(rows, hexSet, now)
    ensures hexSet != {} ==> QueryExplorerCoverage(Some(rows)) == Ok((hexSet, now))
    ensures hexSet == {} ==> QueryExplorerCoverage(Some(rows)) == Err(EmptyMin)
  {
    LoadEmpty(rows, hexSet, now);
    if hexSet != {} {
      var h :| h in hexSet;
      assert h in Indexes(rows);
      assert CoveredHexes(rows) == hexSet by {
        forall x ensures x in CoveredHexes(rows) <==> x in hexSet {
          if x in hexSet {
            assert x in Indexes(rows);
            var i :| 0 <= i < |rows| && Indexes(rows)[i] == x;
          }
        }
      }
    }
  }
}
