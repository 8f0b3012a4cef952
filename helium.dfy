/**
 * What the three hotspot scripts (coverexp.py, blockhex.py, blockcache.py)
 * share: the hotspot listing's pages, the cursor URL rule, and the step
 * that folds one page of hotspots into the running hex set and count.
 */
module Helium {
  import opened Base

  /** One hotspot record; only its optional `location_hex` matters here. */
  datatype Hotspot = Hotspot(locationHex: Option<string>)

  /** A decoded listing page: the `data` list and the `cursor` key, if present. */
  datatype Payload = Payload(data: seq<Hotspot>, cursor: Option<string>)

  /** `EXPLORER_URL` in coverexp.py and `HOTSPOTS_URL` in blockhex.py / blockcache.py. */
  const HOTSPOTS_URL := "https://api.helium.io/v1/hotspots"
  const CURSOR_QUERY := "?cursor="

  predicate HasHex(h: Hotspot) {
    Truthy(h.locationHex)
  }

  /** The URL a fetch with `cursor` requests: the bare listing for an empty cursor. */
  function CursorUrl(cursor: string): (url: string)
    ensures IsPrefix(HOTSPOTS_URL, url)
    ensures url == HOTSPOTS_URL <==> cursor == ""
  {
    if cursor != "" then HOTSPOTS_URL + CURSOR_QUERY + cursor else HOTSPOTS_URL
  }

  /** Reads the cursor back out of a requested URL (None for a foreign URL). */
  function CursorOfUrl(url: string): Option<string>
  {
    var p := HOTSPOTS_URL + CURSOR_QUERY;
    if url == HOTSPOTS_URL then Some("")
    else if |url| > |p| && url[..|p|] == p then Some(url[|p|..])
    else None
  }

  /** Distinct cursors give distinct URLs: the URL carries the cursor, unchanged. */
  lemma CursorUrlRoundTrip(cursor: string)
    ensures CursorOfUrl(CursorUrl(cursor)) == Some(cursor)
  {
    var p := HOTSPOTS_URL + CURSOR_QUERY;
    if cursor != "" {
      assert CursorUrl(cursor) == p + cursor;
      assert (p + cursor)[..|p|] == p;
      assert (p + cursor)[|p|..] == cursor;
    }
  }

  /**
   * The cursor handed to the next call: the payload's `cursor`, or `''`
   * when the key is missing (the KeyError fallback of coverexp/blockhex).
   */
  function NextCursor(p: Payload): (c: string)
    ensures p.cursor.Some? ==> c == p.cursor.value
    ensures p.cursor.None? ==> c == ""
  {
    match p.cursor
    case Some(c) => c
    case None => ""
  }

  /** The hexes a page contributes: every truthy `location_hex`, and nothing else. */
  function PageHexes(hotspots: seq<Hotspot>): set<string>
  {
    set i | 0 <= i < |hotspots| && HasHex(hotspots[i]) :: hotspots[i].locationHex.value
  }

  /** The hexes of a sweep: the union of its pages' hexes. */
  function PagesHexes(pages: seq<seq<Hotspot>>): set<string>
  {
    if pages == [] then {} else PagesHexes(pages[..|pages| - 1]) + PageHexes(pages[|pages| - 1])
  }

  /** `total_hotspots` after a sweep: the sum of the page lengths. */
  function TotalHotspots(pages: seq<seq<Hotspot>>): nat
  {
    if pages == [] then 0 else TotalHotspots(pages[..|pages| - 1]) + |pages[|pages| - 1]|
  }

  /** Some hotspot of some page has `h` as its truthy `location_hex`. */
  predicate Carries(pages: seq<seq<Hotspot>>, h: string) {
    exists i, j :: 0 <= i < |pages| && 0 <= j < |pages[i]| && HasHex(pages[i][j])
      && pages[i][j].locationHex.value == h
  }

  /** A hex is in a sweep's set exactly when some hotspot of some page carries it. */
  lemma {:induction false} PagesHexesMembership(pages: seq<seq<Hotspot>>, h: string)
    ensures h in PagesHexes(pages) <==> Carries(pages, h)
  {
    if pages != [] {
      var init := pages[..|pages| - 1];
      PagesHexesMembership(init, h);
      if h in PagesHexes(pages) {
        if h in PagesHexes(init) {
          var i, j :| 0 <= i < |init| && 0 <= j < |init[i]| && HasHex(init[i][j])
            && init[i][j].locationHex.value == h;
          assert pages[i] == init[i];
        } else {
          var last := pages[|pages| - 1];
          var j :| 0 <= j < |last| && HasHex(last[j]) && last[j].locationHex.value == h;
          assert pages[|pages| - 1][j] == last[j];
        }
      }
      if Carries(pages, h) {
        var i, j :| 0 <= i < |pages| && 0 <= j < |pages[i]| && HasHex(pages[i][j])
          && pages[i][j].locationHex.value == h;
        if i < |pages| - 1 {
          assert init[i] == pages[i];
        }
      }
    }
  }

  /** A page of n hotspots contributes at most n hexes. */
  lemma {:induction false} PageHexesBound(hotspots: seq<Hotspot>)
    ensures |PageHexes(hotspots)| <= |hotspots|
  {
    if hotspots != [] {
      var init := hotspots[..|hotspots| - 1];
      var last := hotspots[|hotspots| - 1];
      PageHexesBound(init);
      var extra := if HasHex(last) then {last.locationHex.value} else {};
      assert PageHexes(hotspots) <= PageHexes(init) + extra by {
        forall h | h in PageHexes(hotspots) ensures h in PageHexes(init) + extra {
          var i :| 0 <= i < |hotspots| && HasHex(hotspots[i]) && hotspots[i].locationHex.value == h;
          if i < |hotspots| - 1 {
            assert init[i] == hotspots[i];
          }
        }
      }
      SubsetCard(PageHexes(hotspots), PageHexes(init) + extra);
    }
  }

  lemma SubsetCard(a: set<string>, b: set<string>)
    requires a <= b
    ensures |a| <= |b|
  {
    assert b == a + (b - a);
  }

  /** There are never more hexes than hotspots: `len(hex_set) <= total_hotspots`. */
  lemma {:induction false} HexesBound(pages: seq<seq<Hotspot>>)
    ensures |PagesHexes(pages)| <= TotalHotspots(pages)
  {
    if pages != [] {
      var init := pages[..|pages| - 1];
      HexesBound(init);
      PageHexesBound(pages[|pages| - 1]);
      UnionCard(PagesHexes(init), PageHexes(pages[|pages| - 1]));
    }
  }

  lemma UnionCard(a: set<string>, b: set<string>)
    ensures |a + b| <= |a| + |b|
  {
    assert a + b == a + (b - a);
    assert b == (b - a) + (b * a);
  }

  /**
   * The inner loop of every sweep: count the page, then add each truthy
   * `location_hex` to the set.
   */
  method AddPage(hexSet: set<string>, total: nat, hotspots: seq<Hotspot>)
    returns (hexSet': set<string>, total': nat)
    ensures total' == total + |hotspots|
    ensures hexSet' == hexSet + PageHexes(hotspots)
  {
    total' := total + |hotspots|;
    hexSet' := hexSet;
    for j := 0 to |hotspots|
      invariant hexSet' == hexSet + PageHexes(hotspots[..j])
    {
      ghost var before := hotspots[..j];
      assert hotspots[..j + 1][..j] == before;
      if hotspots[j].locationHex.Some? && hotspots[j].locationHex.value != "" {
        hexSet' := hexSet' + {hotspots[j].locationHex.value};
      }
    }
    assert hotspots[..|hotspots|] == hotspots;
  }

  /** Folding a sweep's pages one by one gives its hex set and count. */
  lemma PagesStep(pages: seq<seq<Hotspot>>, k: nat)
    requires k < |pages|
    ensures PagesHexes(pages[..k + 1]) == PagesHexes(pages[..k]) + PageHexes(pages[k])
    ensures TotalHotspots(pages[..k + 1]) == TotalHotspots(pages[..k]) + |pages[k]|
  {
    assert pages[..k + 1][..k] == pages[..k];
  }

  /**
   * How many pages a sweep over `responses` takes: up to and including the
   * first page whose cursor is missing or empty (all of them if none is).
   */
  function SweepLength(responses: seq<Payload>): (n: nat)
    ensures n <= |responses|
    ensures responses != [] ==> 1 <= n
    ensures forall i :: 0 <= i < n - 1 ==> NextCursor(responses[i]) != ""
    ensures 0 < n < |responses| ==> NextCursor(responses[n - 1]) == ""
  {
    if responses == [] then 0
    else if NextCursor(responses[0]) == "" then 1
    else 1 + SweepLength(responses[1..])
  }

  /** The sweep length is the first page that ends the sweep, counted from 1. */
  lemma {:induction false} SweepLengthIs(responses: seq<Payload>, k: nat)
    requires 1 <= k <= |responses|
    requires forall i :: 0 <= i < k - 1 ==> NextCursor(responses[i]) != ""
    requires k == |responses| || NextCursor(responses[k - 1]) == ""
    ensures SweepLength(responses) == k
  {
    if k > 1 {
      assert NextCursor(responses[0]) != "";
      forall i | 0 <= i < k - 2 ensures NextCursor(responses[1..][i]) != "" {
        assert responses[1..][i] == responses[i + 1];
      }
      SweepLengthIs(responses[1..], k - 1);
    }
  }

  /**
   * N pages of which only the last lacks a cursor are swept completely:
   * exactly N pages are taken.
   */
  lemma SweepExact(responses: seq<Payload>)
    requires responses != []
    requires forall i :: 0 <= i < |responses| - 1 ==> NextCursor(responses[i]) != ""
    requires NextCursor(responses[|responses| - 1]) == ""
    ensures SweepLength(responses) == |responses|
  {
    SweepLengthIs(responses, |responses|);
  }

  /** The `data` lists of a run of pages. */
  function Datas(responses: seq<Payload>): (pages: seq<seq<Hotspot>>)
    ensures |pages| == |responses|
    ensures forall i :: 0 <= i < |pages| ==> pages[i] == responses[i].data
  {
    seq(|responses|, i requires 0 <= i < |responses| => responses[i].data)
  }

  /** The pages a sweep over `responses` yields. */
  function SweptPages(responses: seq<Payload>): seq<seq<Hotspot>>
  {
    Datas(responses[..SweepLength(responses)])
  }

  /**
   * The state of a sweep after k requests: the first request carried the
   * empty cursor, the current one is the last page's, and every page but
   * the last had one.
   */
  predicate Sweeping(responses: seq<Payload>, k: nat, firstPass: bool, cursor: string) {
    && k <= |responses|
    && (firstPass <==> k == 0)
    && (k == 0 ==> cursor == "")
    && (k > 0 ==> cursor == NextCursor(responses[k - 1]))
    && forall i :: 0 <= i < k - 1 ==> NextCursor(responses[i]) != ""
  }

  /** Taking one more page keeps the sweep state. */
  lemma SweepingStep(responses: seq<Payload>, k: nat, firstPass: bool, cursor: string)
    requires Sweeping(responses, k, firstPass, cursor)
    requires (firstPass || cursor != "") && k < |responses|
    ensures Sweeping(responses, k + 1, false, NextCursor(responses[k]))
  {
  }

  /** When the loop stops, it has taken exactly the sweep's pages. */
  lemma SweepingDone(responses: seq<Payload>, k: nat, firstPass: bool, cursor: string)
    requires Sweeping(responses, k, firstPass, cursor)
    requires !((firstPass || cursor != "") && k < |responses|)
    ensures SweepLength(responses) == k
  {
    if k > 0 {
      SweepLengthIs(responses, k);
    }
  }

  /** The cursor request i of a sweep carries: none at first, then the previous page's. */
  function RequestCursor(responses: seq<Payload>, i: nat): string
    requires i <= |responses|
  {
    if i == 0 then "" else NextCursor(responses[i - 1])
  }

  /** The URLs of a sweep's first k requests: the bare listing, then each previous page's cursor. */
  function SweepUrls(responses: seq<Payload>, k: nat): (urls: seq<string>)
    requires k <= |responses|
    ensures |urls| == k
    ensures k > 0 ==> urls[0] == HOTSPOTS_URL
    ensures forall i :: 1 <= i < k ==> urls[i] == CursorUrl(NextCursor(responses[i - 1]))
  {
    seq(k, i requires 0 <= i < k => CursorUrl(RequestCursor(responses, i)))
  }

  /** The next request's URL is the current cursor's. */
  lemma SweepUrlsStep(responses: seq<Payload>, k: nat, firstPass: bool, cursor: string)
    requires Sweeping(responses, k, firstPass, cursor) && k < |responses|
    ensures SweepUrls(responses, k + 1) == SweepUrls(responses, k) + [CursorUrl(cursor)]
  {
    var a := SweepUrls(responses, k + 1);
    var b := SweepUrls(responses, k) + [CursorUrl(cursor)];
    forall i | 0 <= i < k + 1 ensures a[i] == b[i] {
      if i < k {
        assert b[i] == SweepUrls(responses, k)[i];
      }
    }
  }

  /** The pages of the first k requests grow by one page's data. */
  lemma DatasPrefixStep(responses: seq<Payload>, k: nat)
    requires k < |responses|
    ensures Datas(responses[..k + 1]) == Datas(responses[..k]) + [responses[k].data]
  {
    var a := Datas(responses[..k + 1]);
    var b := Datas(responses[..k]) + [responses[k].data];
    forall i | 0 <= i < k + 1 ensures a[i] == b[i] {
      if i < k {
        assert b[i] == Datas(responses[..k])[i];
      }
    }
  }
}
