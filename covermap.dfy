/**
 * covermap.py: a hex is covered when one of the hexes of its ring has
 * uplinks on the mappers API. The ring is an input, with the answer each
 * ring URL gets. The driver filters and sorts the refresh rows, builds the
 * work list, and fetches it in balanced batches.
 */
module CoverMap {
  import opened Base
  import opened Driver

  const MAPPERS_URL := "https://mappers.helium.com/api/v1/uplinks/hex/"

  /** A 200 answer with a non-empty `uplinks` list. */
  predicate Covers(r: Response) {
    r.status == 200 && r.items > 0
  }

  /** Neither 200 nor 500: handed to `raise_for_status`, which raises from 400 up. */
  predicate Raises(r: Response) {
    r.status != 200 && r.status != 500 && IsErrorStatus(r.status)
  }

  /** Where the ring scan stops: the first answer that covers or raises, else the ring's end. */
  function StopAt(ring: seq<Probe>): (i: nat)
    ensures i <= |ring|
    ensures forall j :: 0 <= j < i ==> !Covers(ring[j].response) && !Raises(ring[j].response)
    ensures i < |ring| ==> Covers(ring[i].response) || Raises(ring[i].response)
  {
    if ring == [] then 0
    else if Covers(ring[0].response) || Raises(ring[0].response) then 0
    else
      var rest := StopAt(ring[1..]);
      assert forall j :: 1 <= j < |ring| ==> ring[j] == ring[1..][j - 1];
      1 + rest
  }

  /** A row of `mappers_updates`. */
  datatype UplinkRow = UplinkRow(h3Index: string, mappersCoverage: bool, updateTime: int)

  /** What `fetch_uplinks(h3_index)` gives for a ring and a clock reading. */
  function UplinkOutcome(h3Index: string, ring: seq<Probe>, now: int): Result<UplinkRow>
  {
    var i := StopAt(ring);
    if i < |ring| && Raises(ring[i].response) then Err(HttpError(ring[i].response.status))
    else Ok(UplinkRow(h3Index, i < |ring|, now))
  }

  /** Some ring answer covers, and no answer before it raises. */
  predicate CoverFirst(ring: seq<Probe>) {
    exists i :: 0 <= i < |ring| && Covers(ring[i].response) && forall j :: 0 <= j < i ==> !Raises(ring[j].response)
  }

  /** Some ring answer raises, and no answer before it covers. */
  predicate RaiseFirst(ring: seq<Probe>) {
    exists i :: 0 <= i < |ring| && Raises(ring[i].response) && forall j :: 0 <= j < i ==> !Covers(ring[j].response)
  }

  /**
   * The hex is reported covered exactly when some ring answer covers and
   * no answer before it raised; it fails exactly when some answer raises
   * before any covers. In every successful row the index is the input's.
   */
  lemma UplinkOutcomeMeaning(h3Index: string, ring: seq<Probe>, now: int)
    ensures UplinkOutcome(h3Index, ring, now).Ok? ==> UplinkOutcome(h3Index, ring, now).value.h3Index == h3Index
    ensures UplinkOutcome(h3Index, ring, now) == Ok(UplinkRow(h3Index, true, now)) <==> CoverFirst(ring)
    ensures UplinkOutcome(h3Index, ring, now).Err? <==> RaiseFirst(ring)
  {
    var s := StopAt(ring);
    if CoverFirst(ring) {
      var i :| 0 <= i < |ring| && Covers(ring[i].response) && forall j :: 0 <= j < i ==> !Raises(ring[j].response);
      assert s <= i;
      assert !Raises(ring[s].response) by {
        if s < i {
          assert !Raises(ring[s].response);
        } else {
          assert Covers(ring[s].response);
        }
      }
    }
    if RaiseFirst(ring) {
      var i :| 0 <= i < |ring| && Raises(ring[i].response) && forall j :: 0 <= j < i ==> !Covers(ring[j].response);
      assert s <= i;
      assert !Covers(ring[s].response) by {
        if s < i {
          assert !Covers(ring[s].response);
        } else {
          assert Raises(ring[s].response);
        }
      }
    }
  }

  /** A 500 answer that is not the last counts as no coverage, and the scan goes on to the next URL. */
  lemma Status500Continues(ring: seq<Probe>)
    requires ring != [] && ring[0].response.status == 500
    ensures StopAt(ring) == 1 + StopAt(ring[1..])
  {
  }

  /** A 2xx or 3xx answer other than 200 neither covers nor raises: the scan goes on too. */
  lemma QuietStatusContinues(ring: seq<Probe>)
    requires ring != [] && ring[0].response.status != 200 && ring[0].response.status < 400
    ensures StopAt(ring) == 1 + StopAt(ring[1..])
  {
  }

  /**
   * `fetch_uplinks`: request the ring URLs in order, OR each 200 answer's
   * non-empty uplinks into the flag, let other error statuses raise, and
   * stop after the first covering answer. `urls` are the addresses
   * requested: nothing after the scan stops.
   */
  method FetchUplinks(h3Index: string, ring: seq<Probe>, now: int) returns (r: Result<UplinkRow>, urls: seq<string>)
    ensures r == UplinkOutcome(h3Index, ring, now)
    ensures |urls| == Min(StopAt(ring) + 1, |ring|)
    ensures forall i :: 0 <= i < |urls| ==> urls[i] == MAPPERS_URL + ring[i].hex
  {
    var mappersCoverage := false;
    urls := [];
    for i := 0 to |ring|
      invariant !mappersCoverage
      invariant forall j :: 0 <= j < i ==> !Covers(ring[j].response) && !Raises(ring[j].response)
      invariant |urls| == i
      invariant forall j :: 0 <= j < i ==> urls[j] == MAPPERS_URL + ring[j].hex
    {
      urls := urls + [MAPPERS_URL + ring[i].hex];
      var response := ring[i].response;
      if response.status == 200 {
        mappersCoverage := mappersCoverage || response.items > 0;
      } else if response.status == 500 {
        mappersCoverage := mappersCoverage || false;
      } else if IsErrorStatus(response.status) {
        r := Err(HttpError(response.status));
        return;
      }
      if mappersCoverage {
        r := Ok(UplinkRow(h3Index, mappersCoverage, now));
        return;
      }
    }
    r := Ok(UplinkRow(h3Index, mappersCoverage, now));
  }

  /** `rows` are the results of fetching `hexes`, one for one and in order. */
  predicate RowsMatch(rows: seq<UplinkRow>, hexes: seq<string>, rings: string -> seq<Probe>, now: int) {
    |rows| == |hexes| && forall i :: 0 <= i < |rows| ==> Ok(rows[i]) == UplinkOutcome(hexes[i], rings(hexes[i]), now)
  }

  lemma RowsMatchAppend(a: seq<UplinkRow>, x: seq<string>, b: seq<UplinkRow>, y: seq<string>,
                        rings: string -> seq<Probe>, now: int)
    requires RowsMatch(a, x, rings, now) && RowsMatch(b, y, rings, now)
    ensures RowsMatch(a + b, x + y, rings, now)
  {
    forall i | 0 <= i < |a + b| ensures Ok((a + b)[i]) == UplinkOutcome((x + y)[i], rings((x + y)[i]), now) {
      if i >= |a| {
        assert (a + b)[i] == b[i - |a|] && (x + y)[i] == y[i - |a|];
      }
    }
  }

  /** Every hex of the work list fetches without raising. */
  predicate AllFetch(work: seq<string>, rings: string -> seq<Probe>, now: int) {
    forall i :: 0 <= i < |work| ==> UplinkOutcome(work[i], rings(work[i]), now).Ok?
  }

  /**
   * `fetch_mappers`: one result per input hex, in input order (the
   * concurrent gather is read as a sequential map); any failing fetch fails
   * the whole gather.
   */
  method FetchMappers(hexes: seq<string>, rings: string -> seq<Probe>, now: int) returns (r: Result<seq<UplinkRow>>)
    ensures r.Ok? <==> AllFetch(hexes, rings, now)
    ensures r.Ok? ==> RowsMatch(r.value, hexes, rings, now)
    ensures r.Err? ==> exists i :: 0 <= i < |hexes| && UplinkOutcome(hexes[i], rings(hexes[i]), now) == Err(r.error)
  {
    var rows: seq<UplinkRow> := [];
    for i := 0 to |hexes|
      invariant RowsMatch(rows, hexes[..i], rings, now)
    {
      var row, _ := FetchUplinks(hexes[i], rings(hexes[i]), now);
      if row.Err? {
        r := Err(row.error);
        return;
      }
      RowsMatchAppend(rows, hexes[..i], [row.value], [hexes[i]], rings, now);
      assert hexes[..i] + [hexes[i]] == hexes[..i + 1];
      rows := rows + [row.value];
    }
    assert hexes[..|hexes|] == hexes;
    r := Ok(rows);
  }

  /** How a region's run ended. */
  datatype RunStatus = Skipped | Completed | Failed(error: Error)

  /**
   * The batch loop: `ceil(n / batch_size)` balanced batches, each fetched
   * and appended to the table in turn. `loaded` is what has been appended
   * when the loop ends or a batch fails; `processed` counts it.
   */
  method FetchBatches(work: seq<string>, batchSize: int, rings: string -> seq<Probe>, now: int)
    returns (status: RunStatus, loaded: seq<UplinkRow>, processed: nat)
    requires work != []
    ensures status != Skipped
    ensures processed == |loaded| <= |work|
    ensures RowsMatch(loaded, work[..|loaded|], rings, now)
    ensures status == Completed ==> processed == |work|
    ensures status.Failed? ==> processed < |work|
    ensures status.Failed? ==> Sections(|work|, batchSize).Err? || !AllFetch(work, rings, now)
    ensures batchSize > 0 && AllFetch(work, rings, now) ==> status == Completed
    ensures Sections(|work|, batchSize).Err? ==> loaded == []
    ensures Sections(|work|, batchSize).Ok? ==> WholeParts(work, Sections(|work|, batchSize).value, |loaded|)
  {
    loaded, processed := [], 0;
    var sections := Sections(|work|, batchSize);
    if sections.Err? {
      status := Failed(sections.error);
      return;
    }
    var k := sections.value;
    var parts := ArraySplit(work, k);
    for j := 0 to |parts|
      invariant |loaded| == Start(|work|, k, j) <= |work|
      invariant processed == |loaded|
      invariant RowsMatch(loaded, work[..|loaded|], rings, now)
    {
      var output := FetchMappers(parts[j], rings, now);
      PartSlice(work, k, j);
      if output.Err? {
        status := Failed(output.error);
        FailedBatch(work, k, j, rings, now);
        ArraySplitPrefix(work, k, j);
        return;
      }
      RowsMatchAppend(loaded, work[..|loaded|], output.value, parts[j], rings, now);
      loaded := loaded + output.value;
      processed := processed + |output.value|;
    }
    StartBounds(|work|, k, k);
    ArraySplitPrefix(work, k, k);
    status := Completed;
  }

  /** Batch j is the stretch of the work list between its start and the next one's. */
  lemma PartSlice(work: seq<string>, k: nat, j: nat)
    requires k >= 1 && j < k
    ensures Start(|work|, k, j) <= Start(|work|, k, j + 1) <= |work|
    ensures ArraySplit(work, k)[j] == work[Start(|work|, k, j)..Start(|work|, k, j + 1)]
    ensures work[..Start(|work|, k, j + 1)] == work[..Start(|work|, k, j)] + ArraySplit(work, k)[j]
  {
    StartStep(|work|, k, j);
    StartBounds(|work|, k, j + 1);
    assert ArraySplit(work, k)[j] == Part(work, k, j);
  }

  /** A batch that fails contains a hex of the work list whose fetch raises. */
  lemma FailedBatch(work: seq<string>, k: nat, j: nat, rings: string -> seq<Probe>, now: int)
    requires k >= 1 && j < k
    requires !AllFetch(ArraySplit(work, k)[j], rings, now)
    ensures !AllFetch(work, rings, now)
  {
    var part := ArraySplit(work, k)[j];
    PartSlice(work, k, j);
    var i :| 0 <= i < |part| && UplinkOutcome(part[i], rings(part[i]), now).Err?;
    assert part[i] == work[Start(|work|, k, j) + i];
  }

  /**
   * One region of the main loop. The `expire` filter counts the retained
   * rows, the refresh rows are sorted by update time, the work list is the
   * additions then the refresh hexes, and nothing is fetched under
   * `analyze` or for an empty list; otherwise the batch loop runs.
   */
  method RunRegion(additions: seq<string>, refreshRows: seq<RefreshRow>, expire: Option<int>, utcNow: int,
                   analyze: bool, batchSize: int, rings: string -> seq<Probe>, now: int)
    returns (status: RunStatus, retain: nat, refresh: seq<RefreshRow>, work: seq<string>,
             loaded: seq<UplinkRow>, processed: nat)
    ensures var sel := SelectRefresh(refreshRows, expire, utcNow);
      retain == sel.1 && multiset(refresh) == multiset(sel.0) && TimeOrdered(refresh)
    ensures work == WorkList(additions, refresh)
    ensures status == Skipped <==> analyze || work == []
    ensures processed == |loaded| <= |work|
    ensures RowsMatch(loaded, work[..|loaded|], rings, now)
    ensures status == Completed ==> processed == |work|
    ensures status.Failed? ==> processed < |work|
    ensures status.Failed? ==> Sections(|work|, batchSize).Err? || !AllFetch(work, rings, now)
    ensures !analyze && work != [] && batchSize > 0 && AllFetch(work, rings, now) ==> status == Completed
    ensures status != Skipped && Sections(|work|, batchSize).Ok? ==>
      WholeParts(work, Sections(|work|, batchSize).value, |loaded|)
  {
    var sel := SelectRefresh(refreshRows, expire, utcNow);
    retain := sel.1;
    var a := new RefreshRow[|sel.0|](i requires 0 <= i < |sel.0| => sel.0[i]);
    assert a[..] == sel.0;
    SortByTime(a);
    refresh := a[..];
    work := WorkList(additions, refresh);
    if analyze || |work| == 0 {
      status, loaded, processed := Skipped, [], 0;
      return;
    }
    status, loaded, processed := FetchBatches(work, batchSize, rings, now);
  }
}
