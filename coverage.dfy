/**
 * coverage.py: a hex's coverage is two flags: whether the explorer API
 * lists hotspots in it, and whether a hex of its ring has uplinks on the
 * mappers API. The session raises on every error status, so unlike
 * covermap.py there is no 500 special case. The driver does not sort the
 * refresh rows, and it tags every output row with its region.
 */
module Coverage {
  import opened Base
  import opened Driver

  const EXPLORER_BASE := "https://helium-api.stakejoy.com/v1/hotspots/hex/"
  const MAPPER_BASE := "https://mappers.helium.com/api/v1/uplinks/hex/"

  /** `EXPLORER_ENABLED` and `MAPPERS_ENABLED`. */
  datatype Switches = Switches(explorer: bool, mappers: bool)

  const ENABLED := Switches(true, true)

  /** A ring answer that sets the mappers flag: it did not raise and has uplinks. */
  predicate HasUplinks(r: Response) {
    !IsErrorStatus(r.status) && r.items > 0
  }

  /** Where the ring scan stops: the first answer that raises or has uplinks, else the ring's end. */
  function StopAt(ring: seq<Probe>): (i: nat)
    ensures i <= |ring|
    ensures forall j :: 0 <= j < i ==> !IsErrorStatus(ring[j].response.status) && ring[j].response.items == 0
    ensures i < |ring| ==> IsErrorStatus(ring[i].response.status) || ring[i].response.items > 0
  {
    if ring == [] then 0
    else if IsErrorStatus(ring[0].response.status) || ring[0].response.items > 0 then 0
    else
      var rest := StopAt(ring[1..]);
      assert forall j :: 1 <= j < |ring| ==> ring[j] == ring[1..][j - 1];
      1 + rest
  }

  /** A row as `fetch_coverage` returns it. */
  datatype CoverageRow = CoverageRow(h3Index: string, explorerCoverage: bool, mappersCoverage: bool, updateTime: int)

  /** What `fetch_coverage(h3_index)` gives, from the explorer answer and the ring's answers. */
  function CoverageOutcome(h3Index: string, explorer: Response, ring: seq<Probe>, now: int, sw: Switches): Result<CoverageRow>
  {
    if sw.explorer && IsErrorStatus(explorer.status) then Err(HttpError(explorer.status))
    else
      var explorerCoverage := sw.explorer && explorer.items > 0;
      if !sw.mappers then Ok(CoverageRow(h3Index, explorerCoverage, false, now))
      else
        match RingOutcome(ring)
        case Err(e) => Err(e)
        case Ok(found) => Ok(CoverageRow(h3Index, explorerCoverage, found, now))
  }

  /** What the ring scan gives: the error of the answer it stops on, or whether it stopped on uplinks. */
  function RingOutcome(ring: seq<Probe>): Result<bool>
  {
    var i := StopAt(ring);
    if i < |ring| && IsErrorStatus(ring[i].response.status) then Err(HttpError(ring[i].response.status))
    else Ok(i < |ring|)
  }

  /** Some ring answer has uplinks, and none before it raised. */
  predicate UplinksFirst(ring: seq<Probe>) {
    exists i :: 0 <= i < |ring| && HasUplinks(ring[i].response)
      && forall j :: 0 <= j < i ==> !IsErrorStatus(ring[j].response.status)
  }

  /** Some ring answer raises, and none before it had uplinks. */
  predicate ErrorFirst(ring: seq<Probe>) {
    exists i :: 0 <= i < |ring| && IsErrorStatus(ring[i].response.status)
      && forall j :: 0 <= j < i ==> ring[j].response.items == 0
  }

  lemma StopAtMeaning(ring: seq<Probe>)
    ensures UplinksFirst(ring) <==> StopAt(ring) < |ring| && !IsErrorStatus(ring[StopAt(ring)].response.status)
    ensures ErrorFirst(ring) <==> StopAt(ring) < |ring| && IsErrorStatus(ring[StopAt(ring)].response.status)
  {
    var s := StopAt(ring);
    if UplinksFirst(ring) {
      var i :| 0 <= i < |ring| && HasUplinks(ring[i].response)
        && forall j :: 0 <= j < i ==> !IsErrorStatus(ring[j].response.status);
      assert s <= i;
    }
    if ErrorFirst(ring) {
      var i :| 0 <= i < |ring| && IsErrorStatus(ring[i].response.status)
        && forall j :: 0 <= j < i ==> ring[j].response.items == 0;
      assert s <= i;
    }
  }

  /**
   * The explorer flag is set exactly when that switch is on and the
   * explorer lists hotspots; the mappers flag exactly when that switch is on
   * and some ring answer has uplinks before any raises. A disabled source
   * is not asked and its flag is false. The row keeps the input's index.
   */
  lemma CoverageOutcomeMeaning(h3Index: string, explorer: Response, ring: seq<Probe>, now: int, sw: Switches)
    ensures var r := CoverageOutcome(h3Index, explorer, ring, now, sw);
      r.Ok? ==> && r.value.h3Index == h3Index && r.value.updateTime == now
                && (r.value.explorerCoverage <==> sw.explorer && explorer.items > 0)
                && (r.value.mappersCoverage <==> sw.mappers && UplinksFirst(ring))
    ensures CoverageOutcome(h3Index, explorer, ring, now, sw).Err? <==>
      (sw.explorer && IsErrorStatus(explorer.status)) || (sw.mappers && ErrorFirst(ring))
    ensures !sw.explorer && !sw.mappers ==> CoverageOutcome(h3Index, explorer, ring, now, sw) == Ok(CoverageRow(h3Index, false, false, now))
  {
    StopAtMeaning(ring);
  }

  /**
   * A 500 from the first ring URL fails the fetch here, where covermap.py
   * would read it as no coverage and go on.
   */
  lemma Status500Fails(h3Index: string, ring: seq<Probe>, now: int)
    requires ring != [] && ring[0].response.status == 500
    ensures CoverageOutcome(h3Index, Response(200, 0), ring, now, ENABLED) == Err(HttpError(500))
  {
  }

  /**
   * `fetch_coverage`: ask the explorer (when enabled), then the ring URLs in
   * order (when enabled), stopping after the first that has uplinks; an
   * error status raises. `urls` are the addresses requested.
   */
  method FetchCoverage(h3Index: string, explorer: Response, ring: seq<Probe>, now: int, sw: Switches)
    returns (r: Result<CoverageRow>, urls: seq<string>)
    ensures r == CoverageOutcome(h3Index, explorer, ring, now, sw)
    ensures var asked := if sw.explorer then [EXPLORER_BASE + h3Index] else [];
      && (sw.explorer && IsErrorStatus(explorer.status) ==> urls == asked)
      && (!sw.mappers ==> urls == asked)
      && (sw.mappers && !(sw.explorer && IsErrorStatus(explorer.status)) ==> urls == asked + RingUrls(ring))
  {
    urls := [];
    var explorerCoverage := false;
    if sw.explorer {
      urls := urls + [EXPLORER_BASE + h3Index];
      if IsErrorStatus(explorer.status) {
        r := Err(HttpError(explorer.status));
        return;
      }
      explorerCoverage := explorer.items > 0;
    }
    var mappersCoverage := false;
    if sw.mappers {
      var scan, ringUrls := ScanRing(ring);
      urls := urls + ringUrls;
      if scan.Err? {
        r := Err(scan.error);
        return;
      }
      mappersCoverage := scan.value;
    }
    r := Ok(CoverageRow(h3Index, explorerCoverage, mappersCoverage, now));
  }

  /** The ring URLs the scan requests: those up to and including the one it stops on. */
  function RingUrls(ring: seq<Probe>): (urls: seq<string>)
    ensures |urls| == Min(StopAt(ring) + 1, |ring|)
    ensures forall i :: 0 <= i < |urls| ==> urls[i] == MAPPER_BASE + ring[i].hex
  {
    seq(Min(StopAt(ring) + 1, |ring|), i requires 0 <= i < Min(StopAt(ring) + 1, |ring|) => MAPPER_BASE + ring[i].hex)
  }

  /**
   * The ring loop of `fetch_coverage`: request the ring URLs in order and
   * stop after the first answer with uplinks; an error status raises. The
   * flag is whether the scan stopped on uplinks.
   */
  method ScanRing(ring: seq<Probe>) returns (r: Result<bool>, urls: seq<string>)
    ensures r == RingOutcome(ring)
    ensures urls == RingUrls(ring)
  {
    urls := [];
    var i := 0;
    while i < |ring|
      invariant 0 <= i <= |ring| && i <= StopAt(ring)
      invariant |urls| == i
      invariant forall j :: 0 <= j < i ==> urls[j] == MAPPER_BASE + ring[j].hex
    {
      urls := urls + [MAPPER_BASE + ring[i].hex];
      var response := ring[i].response;
      if IsErrorStatus(response.status) {
        r := Err(HttpError(response.status));
        return;
      }
      if response.items > 0 {
        r := Ok(true);
        return;
      }
      i := i + 1;
    }
    r := Ok(false);
  }

  /** The external answers a hex's fetch gets. */
  datatype Answers = Answers(explorer: Response, ring: seq<Probe>)

  function Outcome(h: string, net: string -> Answers, now: int): Result<CoverageRow> {
    CoverageOutcome(h, net(h).explorer, net(h).ring, now, ENABLED)
  }

  /** `rows` are the results of fetching `hexes`, one for one and in order. */
  predicate RowsMatch(rows: seq<CoverageRow>, hexes: seq<string>, net: string -> Answers, now: int) {
    |rows| == |hexes| && forall i :: 0 <= i < |rows| ==> Ok(rows[i]) == Outcome(hexes[i], net, now)
  }

  lemma RowsMatchAppend(a: seq<CoverageRow>, x: seq<string>, b: seq<CoverageRow>, y: seq<string>,
                        net: string -> Answers, now: int)
    requires RowsMatch(a, x, net, now) && RowsMatch(b, y, net, now)
    ensures RowsMatch(a + b, x + y, net, now)
  {
    forall i | 0 <= i < |a + b| ensures Ok((a + b)[i]) == Outcome((x + y)[i], net, now) {
      if i >= |a| {
        assert (a + b)[i] == b[i - |a|] && (x + y)[i] == y[i - |a|];
      }
    }
  }

  predicate AllFetch(work: seq<string>, net: string -> Answers, now: int) {
    forall i :: 0 <= i < |work| ==> Outcome(work[i], net, now).Ok?
  }

  /**
   * `fetch_coverages`: one result per input hex, in input order (the
   * concurrent gather is read as a sequential map); any failing fetch fails
   * the whole gather.
   */
  method FetchCoverages(hexes: seq<string>, net: string -> Answers, now: int) returns (r: Result<seq<CoverageRow>>)
    ensures r.Ok? <==> AllFetch(hexes, net, now)
    ensures r.Ok? ==> RowsMatch(r.value, hexes, net, now)
    ensures r.Err? ==> exists i :: 0 <= i < |hexes| && Outcome(hexes[i], net, now) == Err(r.error)
  {
    var rows: seq<CoverageRow> := [];
    for i := 0 to |hexes|
      invariant RowsMatch(rows, hexes[..i], net, now)
    {
      var row, _ := FetchCoverage(hexes[i], net(hexes[i]).explorer, net(hexes[i]).ring, now, ENABLED);
      if row.Err? {
        r := Err(row.error);
        return;
      }
      RowsMatchAppend(rows, hexes[..i], [row.value], [hexes[i]], net, now);
      assert hexes[..i] + [hexes[i]] == hexes[..i + 1];
      rows := rows + [row.value];
    }
    assert hexes[..|hexes|] == hexes;
    r := Ok(rows);
  }

  /** A row of the `updates` table: a coverage row with its region as the second column. */
  datatype UpdateRow = UpdateRow(h3Index: string, region: string, explorerCoverage: bool,
                                 mappersCoverage: bool, updateTime: int)

  /** `df_output.insert(1, 'region', region)`: every row gains the region; nothing else changes. */
  function InsertRegion(rows: seq<CoverageRow>, region: string): (r: seq<UpdateRow>)
    ensures |r| == |rows|
    ensures forall i :: 0 <= i < |rows| ==> r[i].region == region
    ensures forall i :: 0 <= i < |rows| ==> CoverageOf(r[i]) == rows[i]
  {
    seq(|rows|, i requires 0 <= i < |rows| =>
      UpdateRow(rows[i].h3Index, region, rows[i].explorerCoverage, rows[i].mappersCoverage, rows[i].updateTime))
  }

  /** The coverage row an update row was made from (the region column dropped). */
  function CoverageOf(u: UpdateRow): CoverageRow {
    CoverageRow(u.h3Index, u.explorerCoverage, u.mappersCoverage, u.updateTime)
  }

  lemma InsertRegionAppend(a: seq<CoverageRow>, b: seq<CoverageRow>, region: string)
    ensures InsertRegion(a + b, region) == InsertRegion(a, region) + InsertRegion(b, region)
  {
  }

  /** How a region's run ended. */
  datatype RunStatus = Skipped | Completed | Failed(error: Error)

  /**
   * The batch loop: `ceil(n / batch_size)` balanced batches, each fetched,
   * tagged with the region and appended to the table. `rows` are the
   * coverage rows of what was appended, `loaded` the appended rows.
   */
  method FetchBatches(work: seq<string>, batchSize: int, region: string, net: string -> Answers, now: int)
    returns (status: RunStatus, rows: seq<CoverageRow>, loaded: seq<UpdateRow>, processed: nat)
    requires work != []
    ensures status != Skipped
    ensures processed == |loaded| == |rows| <= |work|
    ensures loaded == InsertRegion(rows, region)
    ensures RowsMatch(rows, work[..|rows|], net, now)
    ensures status == Completed ==> processed == |work|
    ensures status.Failed? ==> processed < |work|
    ensures status.Failed? ==> Sections(|work|, batchSize).Err? || !AllFetch(work, net, now)
    ensures batchSize > 0 && AllFetch(work, net, now) ==> status == Completed
    ensures Sections(|work|, batchSize).Err? ==> loaded == []
    ensures Sections(|work|, batchSize).Ok? ==> WholeParts(work, Sections(|work|, batchSize).value, |loaded|)
  {
    rows, loaded, processed := [], [], 0;
    var sections := Sections(|work|, batchSize);
    if sections.Err? {
      status := Failed(sections.error);
      return;
    }
    var k := sections.value;
    var parts := ArraySplit(work, k);
    for j := 0 to |parts|
      invariant |rows| == Start(|work|, k, j) <= |work|
      invariant processed == |rows|
      invariant loaded == InsertRegion(rows, region)
      invariant RowsMatch(rows, work[..|rows|], net, now)
    {
      var output := FetchCoverages(parts[j], net, now);
      PartSlice(work, k, j);
      if output.Err? {
        status := Failed(output.error);
        FailedBatch(work, k, j, net, now);
        ArraySplitPrefix(work, k, j);
        return;
      }
      RowsMatchAppend(rows, work[..|rows|], output.value, parts[j], net, now);
      InsertRegionAppend(rows, output.value, region);
      var tagged := InsertRegion(output.value, region);
      loaded := loaded + tagged;
      rows := rows + output.value;
      processed := processed + |tagged|;
    }
    StartBounds(|work|, k, k);
    ArraySplitPrefix(work, k, k);
    status := Completed;
  }

  lemma PartSlice(work: seq<string>, k: nat, j: nat)
    requires k >= 1 && j < k
    ensures Start(|work|, k, j) <= Start(|work|, k, j + 1) <= |work|
    ensures ArraySplit(work, k)[j] == work[Start(|work|, k, j)..Start(|work|, k, j + 1)]
    ensures work[..Start(|work|, k, j + 1)] == work[..Start(|work|, k, j)] + ArraySplit(work, k)[j]
  {
    StartStep(|work|, k, j);
    StartBounds(|work|, k, j + 1);
    assert ArraySplit(work, k)[j] == Part(work, k, j);
  }

  lemma FailedBatch(work: seq<string>, k: nat, j: nat, net: string -> Answers, now: int)
    requires k >= 1 && j < k
    requires !AllFetch(ArraySplit(work, k)[j], net, now)
    ensures !AllFetch(work, net, now)
  {
    var part := ArraySplit(work, k)[j];
    PartSlice(work, k, j);
    var i :| 0 <= i < |part| && Outcome(part[i], net, now).Err?;
    assert part[i] == work[Start(|work|, k, j) + i];
  }

  /**
   * One region of the main loop: the `expire` filter and its `retain`
   * count, the work list of additions then refresh hexes (in the order the
   * query returned them), nothing fetched under `analyze` or for an empty
   * list, and otherwise the batch loop.
   */
  method RunRegion(region: string, additions: seq<string>, refreshRows: seq<RefreshRow>, expire: Option<int>,
                   utcNow: int, analyze: bool, batchSize: int, net: string -> Answers, now: int)
    returns (status: RunStatus, retain: nat, work: seq<string>, loaded: seq<UpdateRow>, processed: nat)
    ensures var sel := SelectRefresh(refreshRows, expire, utcNow);
      retain == sel.1 && work == WorkList(additions, sel.0)
    ensures status == Skipped <==> analyze || work == []
    ensures processed == |loaded| <= |work|
    ensures forall i :: 0 <= i < |loaded| ==>
      loaded[i].region == region && Ok(CoverageOf(loaded[i])) == Outcome(work[i], net, now)
    ensures status == Completed ==> processed == |work|
    ensures status.Failed? ==> processed < |work|
    ensures status.Failed? ==> Sections(|work|, batchSize).Err? || !AllFetch(work, net, now)
    ensures !analyze && work != [] && batchSize > 0 && AllFetch(work, net, now) ==> status == Completed
    ensures status != Skipped && Sections(|work|, batchSize).Ok? ==>
      WholeParts(work, Sections(|work|, batchSize).value, |loaded|)
  {
    var sel := SelectRefresh(refreshRows, expire, utcNow);
    retain := sel.1;
    work := WorkList(additions, sel.0);
    if analyze || |work| == 0 {
      status, loaded, processed := Skipped, [], 0;
      return;
    }
    var rows;
    status, rows, loaded, processed := FetchBatches(work, batchSize, region, net, now);
  }
}
