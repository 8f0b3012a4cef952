/**
 * The batch-driver rules that covermap.py and coverage.py share: the
 * expire filter on the refresh rows, the work list, `math.ceil(n /
 * batch_size)` batches cut by `numpy.array_split`, and the per-URL status
 * policies of the two scripts' ring scans.
 *
 * Times are integer seconds since the epoch.
 */
module Driver {
  import opened Base

  // ---------------------------------------------------------------------
  // Batching
  // ---------------------------------------------------------------------

  /**
   * `math.ceil(n / b)` for a row count n (exact: float rounding of very
   * large counts is not modelled).
   */
  function CeilDiv(n: nat, b: int): (r: int)
    requires b != 0
    ensures b > 0 ==> (r - 1) * b < n <= r * b
    ensures b > 0 ==> r >= 0
    ensures b > 0 && n > 0 ==> r >= 1
    ensures b < 0 ==> r <= 0
  {
    if b > 0 then (n + b - 1) / b else -(n / -b)
  }

  /**
   * The number of batches, or the error the source raises on the way:
   * `n / 0` divides by zero, and `array_split` refuses a section count
   * that is not positive.
   */
  function Sections(n: nat, batchSize: int): (r: Result<nat>)
    ensures batchSize == 0 ==> r == Err(ZeroDivisionError)
    ensures batchSize != 0 && r.Ok? ==> r.value == CeilDiv(n, batchSize) && r.value >= 1
    ensures batchSize > 0 && n > 0 ==> r.Ok?
    ensures batchSize < 0 ==> r == Err(SectionsNotPositive)
    ensures n == 0 && batchSize != 0 ==> r == Err(SectionsNotPositive)
  {
    if batchSize == 0 then Err(ZeroDivisionError)
    else
      var k := CeilDiv(n, batchSize);
      if k <= 0 then Err(SectionsNotPositive) else Ok(k)
  }

  function Min(a: int, b: int): int {
    if a <= b then a else b
  }

  /**
   * Where part i of an `array_split` of n items into k parts begins: the
   * first `n % k` parts hold `n / k + 1` items, the rest `n / k`.
   */
  function Start(n: nat, k: nat, i: nat): nat
    requires k >= 1
  {
    i * (n / k) + Min(i, n % k)
  }

  lemma MulMono(a: nat, b: nat, c: nat)
    requires a <= b
    ensures a * c <= b * c
  {
  }

  lemma StartStep(n: nat, k: nat, i: nat)
    requires k >= 1 && i < k
    ensures Start(n, k, i + 1) == Start(n, k, i) + (if i < n % k then n / k + 1 else n / k)
  {
    assert (i + 1) * (n / k) == i * (n / k) + n / k;
  }

  lemma StartBounds(n: nat, k: nat, i: nat)
    requires k >= 1 && i <= k
    ensures Start(n, k, i) <= n
    ensures i == k ==> Start(n, k, i) == n
  {
    MulMono(i, k, n / k);
    assert k * (n / k) + n % k == n;
    assert i * (n / k) <= k * (n / k);
    if i < k {
      assert i * (n / k) + Min(i, n % k) <= i * (n / k) + (k - i) * (n / k) + n % k by {
        assert (k - i) * (n / k) >= 0;
      }
      assert i * (n / k) + (k - i) * (n / k) == k * (n / k);
    }
  }

  lemma StartMono(n: nat, k: nat, i: nat, j: nat)
    requires k >= 1 && i <= j <= k
    ensures Start(n, k, i) <= Start(n, k, j)
  {
    MulMono(i, j, n / k);
  }

  /** Part i of `numpy.array_split(xs, k)`. */
  function Part<T>(xs: seq<T>, k: nat, i: nat): (p: seq<T>)
    requires k >= 1 && i < k
    ensures |p| == if i < |xs| % k then |xs| / k + 1 else |xs| / k
  {
    PartBounds(|xs|, k, i);
    xs[Start(|xs|, k, i)..Start(|xs|, k, i + 1)]
  }

  /** Part i's bounds lie within the list, and it is as long as `Start` says. */
  lemma PartBounds(n: nat, k: nat, i: nat)
    requires k >= 1 && i < k
    ensures Start(n, k, i) <= Start(n, k, i + 1) <= n
    ensures Start(n, k, i + 1) - Start(n, k, i) == if i < n % k then n / k + 1 else n / k
  {
    StartStep(n, k, i);
    StartBounds(n, k, i + 1);
  }

  /**
   * `numpy.array_split(xs, k)`: k consecutive parts, the first `|xs| % k`
   * one item longer than the rest.
   */
  function ArraySplit<T>(xs: seq<T>, k: nat): (parts: seq<seq<T>>)
    requires k >= 1
    ensures |parts| == k
    ensures forall i :: 0 <= i < k ==> |parts[i]| == (if i < |xs| % k then |xs| / k + 1 else |xs| / k)
  {
    seq(k, i requires 0 <= i < k => Part(xs, k, i))
  }

  /** The parts laid end to end (`pandas.concat` of the batches' outputs). */
  function Concat<T>(parts: seq<seq<T>>): (r: seq<T>)
  {
    if parts == [] then [] else Concat(parts[..|parts| - 1]) + parts[|parts| - 1]
  }

  lemma ConcatStep<T>(parts: seq<seq<T>>, j: nat)
    requires j < |parts|
    ensures Concat(parts[..j + 1]) == Concat(parts[..j]) + parts[j]
  {
    assert parts[..j + 1][..j] == parts[..j];
  }

  /** The first j parts of a split are the items before part j begins. */
  lemma {:induction false} ArraySplitPrefix<T>(xs: seq<T>, k: nat, j: nat)
    requires k >= 1 && j <= k
    ensures Start(|xs|, k, j) <= |xs|
    ensures Concat(ArraySplit(xs, k)[..j]) == xs[..Start(|xs|, k, j)]
  {
    StartBounds(|xs|, k, j);
    if j > 0 {
      var parts := ArraySplit(xs, k);
      ArraySplitPrefix(xs, k, j - 1);
      ConcatStep(parts, j - 1);
      PartBounds(|xs|, k, j - 1);
      assert parts[j - 1] == xs[Start(|xs|, k, j - 1)..Start(|xs|, k, j)];
      SliceAppend(xs, Start(|xs|, k, j - 1), Start(|xs|, k, j));
    }
  }

  /** The first n items of the list are exactly its first j parts, for some j of the k. */
  predicate WholeParts<T(==)>(xs: seq<T>, k: nat, n: nat) {
    && k >= 1 && n <= |xs|
    && exists j :: 0 <= j <= k && n == Start(|xs|, k, j) && xs[..n] == Concat(ArraySplit(xs, k)[..j])
  }

  /** A prefix is a shorter prefix followed by the slice between them. */
  lemma SliceAppend<T>(xs: seq<T>, a: nat, b: nat)
    requires a <= b <= |xs|
    ensures xs[..b] == xs[..a] + xs[a..b]
  {
  }

  /** The parts of a split, laid end to end, are the input: nothing lost, repeated or moved. */
  lemma ArraySplitConcat<T>(xs: seq<T>, k: nat)
    requires k >= 1
    ensures Concat(ArraySplit(xs, k)) == xs
  {
    ArraySplitPrefix(xs, k, k);
    assert ArraySplit(xs, k)[..k] == ArraySplit(xs, k);
    StartBounds(|xs|, k, k);
  }

  /** `array_split` parts are balanced: two part sizes differ by at most one. */
  lemma ArraySplitBalanced<T>(xs: seq<T>, k: nat, i: nat, j: nat)
    requires k >= 1 && i < k && j < k
    ensures -1 <= |ArraySplit(xs, k)[i]| - |ArraySplit(xs, k)[j]| <= 1
  {
  }

  /**
   * With `ceil(n / batch_size)` parts, no part is empty and none is longer
   * than the batch size.
   */
  lemma BatchSizeBound<T>(xs: seq<T>, batchSize: nat, i: nat)
    requires batchSize >= 1 && |xs| >= 1
    requires i < CeilDiv(|xs|, batchSize)
    ensures 1 <= |ArraySplit(xs, CeilDiv(|xs|, batchSize))[i]| <= batchSize
  {
    SectionBounds(|xs|, batchSize);
  }

  /** The arithmetic behind `BatchSizeBound`, on the counts alone. */
  lemma SectionBounds(n: nat, b: nat)
    requires b >= 1 && n >= 1
    ensures 1 <= CeilDiv(n, b) <= n
    ensures 1 <= n / CeilDiv(n, b)
    ensures n / CeilDiv(n, b) + (if n % CeilDiv(n, b) == 0 then 0 else 1) <= b
  {
    var k := CeilDiv(n, b);
    MulMono(1, b, k - 1);
    assert k <= n;
    var q, r := n / k, n % k;
    assert k * q + r == n && r < k;
    MulPos(k, q, n - r);
    assert n <= k * b;
    if r == 0 {
      MulLessEq(q, b, k);
    } else {
      MulLess(q, b, k);
    }
  }

  lemma MulPos(k: nat, q: nat, m: nat)
    requires k * q == m && m >= 1
    ensures q >= 1
  {
  }

  lemma MulLessEq(a: nat, b: nat, c: nat)
    requires c >= 1 && c * a <= c * b
    ensures a <= b
  {
  }

  lemma MulLess(a: nat, b: nat, c: nat)
    requires c * a < c * b
    ensures a < b
  {
  }

  /** 2500 rows in batches of 1000 are cut 834 / 833 / 833, not 1000 / 1000 / 500. */
  lemma Split2500<T>(xs: seq<T>)
    requires |xs| == 2500
    ensures Sections(|xs|, 1000) == Ok(3)
    ensures |ArraySplit(xs, 3)[0]| == 834
    ensures |ArraySplit(xs, 3)[1]| == 833
    ensures |ArraySplit(xs, 3)[2]| == 833
  {
  }

  // ---------------------------------------------------------------------
  // Expire filter and work list
  // ---------------------------------------------------------------------

  const SECONDS_PER_DAY := 86400

  /** A row of the refresh query: a hex and its most recent update time. */
  datatype RefreshRow = RefreshRow(h3Index: string, updateTime: int)

  /** `df[df['update_time'] <= cutoff]`: the rows at or before the cutoff, in order. */
  function KeepExpired(rows: seq<RefreshRow>, cutoff: int): (kept: seq<RefreshRow>)
    ensures |kept| <= |rows|
    ensures forall i :: 0 <= i < |kept| ==> kept[i].updateTime <= cutoff
    ensures forall x :: x in kept <==> x in rows && x.updateTime <= cutoff
    ensures |rows| == 1 ==> kept == (if rows[0].updateTime <= cutoff then rows else [])
  {
    if rows == [] then []
    else
      var rest := KeepExpired(rows[1..], cutoff);
      assert rows == [rows[0]] + rows[1..];
      if rows[0].updateTime <= cutoff then [rows[0]] + rest else rest
  }

  /** The filter works row by row, so the kept rows stay in their order. */
  lemma {:induction false} KeepExpiredAppend(a: seq<RefreshRow>, b: seq<RefreshRow>, cutoff: int)
    ensures KeepExpired(a + b, cutoff) == KeepExpired(a, cutoff) + KeepExpired(b, cutoff)
  {
    if a == [] {
      assert a + b == b;
    } else {
      assert (a + b)[1..] == a[1..] + b;
      KeepExpiredAppend(a[1..], b, cutoff);
    }
  }

  /** How many rows are newer than the cutoff. */
  function CountFresh(rows: seq<RefreshRow>, cutoff: int): nat
  {
    if rows == [] then 0
    else (if rows[0].updateTime > cutoff then 1 else 0) + CountFresh(rows[1..], cutoff)
  }

  /** Every row is either kept for refetching or counted as retained. */
  lemma {:induction false} KeepPlusFresh(rows: seq<RefreshRow>, cutoff: int)
    ensures |KeepExpired(rows, cutoff)| + CountFresh(rows, cutoff) == |rows|
  {
    if rows != [] {
      KeepPlusFresh(rows[1..], cutoff);
    }
  }

  /** Filtering twice with the same cutoff changes nothing more. */
  lemma {:induction false} KeepExpiredIdempotent(rows: seq<RefreshRow>, cutoff: int)
    ensures KeepExpired(KeepExpired(rows, cutoff), cutoff) == KeepExpired(rows, cutoff)
  {
    if rows != [] {
      KeepExpiredIdempotent(rows[1..], cutoff);
    }
  }

  /**
   * The expiration date `expire` days before the current UTC time. This is
   * what the drivers evidently mean; `ExpirationDateAsWritten` is what
   * they compute.
   */
  function ExpirationDate(utcNow: int, days: int): (cutoff: int)
    ensures days >= 0 ==> cutoff <= utcNow
    ensures utcNow - cutoff == days * SECONDS_PER_DAY
  {
    utcNow - days * SECONDS_PER_DAY
  }

  /**
   * `datetime.now().replace(tzinfo=utc) - timedelta(days=expire)`: the
   * local wall-clock time, `utcOffset` seconds ahead of UTC, relabelled as
   * UTC before the days are subtracted.
   */
  function ExpirationDateAsWritten(utcNow: int, utcOffset: int, days: int): (cutoff: int)
    ensures cutoff == ExpirationDate(utcNow, days) + utcOffset
  {
    (utcNow + utcOffset) - days * SECONDS_PER_DAY
  }

  /**
   * On a host one hour ahead of UTC, a row updated half an hour less than
   * a day ago is already treated as expired with `expire = 1`.
   */
  lemma ExpirationDateOffByZone()
    ensures var now, row := 1_000_000, RefreshRow("8928308280fffff", 1_000_000 - SECONDS_PER_DAY + 1800);
      && row in KeepExpired([row], ExpirationDateAsWritten(now, 3600, 1))
      && row !in KeepExpired([row], ExpirationDate(now, 1))
  {
  }

  /**
   * The `if expire:` block: with `expire` unset or 0 nothing is filtered and
   * nothing is retained; otherwise the rows newer than the cutoff are
   * dropped and counted in `retain`. The cutoff is the intended UTC one,
   * `ExpirationDate`.
   */
  function SelectRefresh(rows: seq<RefreshRow>, expire: Option<int>, utcNow: int): (r: (seq<RefreshRow>, nat))
    ensures expire.None? || expire == Some(0) ==> r == (rows, 0)
    ensures expire.Some? && expire.value != 0 ==>
      r.0 == KeepExpired(rows, ExpirationDate(utcNow, expire.value))
      && r.1 == CountFresh(rows, ExpirationDate(utcNow, expire.value))
    ensures |r.0| + r.1 == |rows|
  {
    if expire.Some? && expire.value != 0 then
      var cutoff := ExpirationDate(utcNow, expire.value);
      var kept := KeepExpired(rows, cutoff);
      KeepPlusFresh(rows, cutoff);
      (kept, |rows| - |kept|)
    else (rows, 0)
  }

  /** `pandas.concat([df_additions, df_refresh])`, read as the list of hexes to fetch. */
  function WorkList(additions: seq<string>, refresh: seq<RefreshRow>): (work: seq<string>)
    ensures |work| == |additions| + |refresh|
    ensures work[..|additions|] == additions
    ensures forall i :: 0 <= i < |refresh| ==> work[|additions| + i] == refresh[i].h3Index
  {
    additions + seq(|refresh|, i requires 0 <= i < |refresh| => refresh[i].h3Index)
  }

  // ---------------------------------------------------------------------
  // Sorting the refresh rows (covermap.py only)
  // ---------------------------------------------------------------------

  ghost predicate TimeOrdered(s: seq<RefreshRow>) {
    forall i, j :: 0 <= i < j < |s| ==> s[i].updateTime <= s[j].updateTime
  }

  /**
   * `df_refresh.sort_values(by=['update_time'], inplace=True)`: the rows in
   * ascending update time, as a rearrangement of the same rows.
   */
  method SortByTime(a: array<RefreshRow>)
    modifies a
    ensures TimeOrdered(a[..])
    ensures multiset(a[..]) == old(multiset(a[..]))
  {
    for i := 0 to a.Length
      invariant forall p, q :: 0 <= p < q < i ==> a[p].updateTime <= a[q].updateTime
      invariant multiset(a[..]) == old(multiset(a[..]))
    {
      SinkInto(a, i);
    }
  }

  /** One pass of the insertion sort: row i moves down into the ordered rows before it. */
  method SinkInto(a: array<RefreshRow>, i: nat)
    requires i < a.Length
    requires forall p, q :: 0 <= p < q < i ==> a[p].updateTime <= a[q].updateTime
    modifies a
    ensures forall p, q :: 0 <= p < q <= i ==> a[p].updateTime <= a[q].updateTime
    ensures multiset(a[..]) == old(multiset(a[..]))
  {
    var j := i;
    while j > 0 && a[j - 1].updateTime > a[j].updateTime
      invariant 0 <= j <= i
      invariant multiset(a[..]) == old(multiset(a[..]))
      invariant forall p, q :: 0 <= p < q <= i && q != j ==> a[p].updateTime <= a[q].updateTime
      invariant forall q :: j < q <= i ==> a[j].updateTime < a[q].updateTime
      invariant 0 < j < i ==> a[j - 1].updateTime <= a[j + 1].updateTime
    {
      Swap(a, j - 1, j);
      j := j - 1;
    }
  }

  /** Exchanges two rows; every other row stays where it is. */
  method Swap(a: array<RefreshRow>, i: nat, j: nat)
    requires i < a.Length && j < a.Length
    modifies a
    ensures a[i] == old(a[j]) && a[j] == old(a[i])
    ensures forall k :: 0 <= k < a.Length && k != i && k != j ==> a[k] == old(a[k])
    ensures multiset(a[..]) == old(multiset(a[..]))
  {
    a[i], a[j] := a[j], a[i];
  }

  // ---------------------------------------------------------------------
  // Ring responses and regions
  // ---------------------------------------------------------------------

  /**
   * An HTTP answer as the scans read it: its status, and the length of the
   * list they look at (`uplinks` or `data`).
   */
  datatype Response = Response(status: int, items: nat)

  /** A hex of a ring and the answer its URL gets. */
  datatype Probe = Probe(hex: string, response: Response)

  /** aiohttp's `raise_for_status`: a status of 400 or more raises. */
  predicate IsErrorStatus(status: int) {
    status >= 400
  }

  /** The region loop's `if region == 'gadm': continue`, as the regions it runs, in order. */
  function RegionsToRun(regions: seq<string>): (r: seq<string>)
    ensures "gadm" !in r
    ensures forall x :: x in r <==> x in regions && x != "gadm"
    ensures |r| <= |regions|
    ensures |regions| == 1 ==> r == (if regions[0] == "gadm" then [] else regions)
  {
    if regions == [] then []
    else
      var rest := RegionsToRun(regions[1..]);
      assert regions == [regions[0]] + regions[1..];
      if regions[0] == "gadm" then rest else [regions[0]] + rest
  }

  /** The loop visits the regions in turn, so the regions run in their listed order. */
  lemma {:induction false} RegionsToRunAppend(a: seq<string>, b: seq<string>)
    ensures RegionsToRun(a + b) == RegionsToRun(a) + RegionsToRun(b)
  {
    if a == [] {
      assert a + b == b;
    } else {
      assert (a + b)[1..] == a[1..] + b;
      RegionsToRunAppend(a[1..], b);
    }
  }
}
