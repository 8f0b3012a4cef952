/**
 * views.py: the names of the views built over the coverage data. A name
 * is its parts joined with underscores, optionally ending in a suffix
 * that is also appended to the caller's list; a geometry switch decides
 * whether the `geo` suffix is used and whether the geometry columns are
 * commented out of the query.
 */
module Views {
  import opened Base

  /** The name `_create_id(names, suffix)` returns: the parts, then the suffix when it is non-empty. */
  function NameId(names: seq<string>, suffix: Option<string>): (r: string)
    ensures !Truthy(suffix) ==> r == Join(names, '_')
    ensures Truthy(suffix) ==> r == Join(names + [suffix.value], '_')
  {
    if Truthy(suffix) then Join(names + [suffix.value], '_') else Join(names, '_')
  }

  /** Names whose parts hold no underscore split back into the parts and the suffix. */
  lemma NameIdSplits(names: seq<string>, suffix: Option<string>)
    requires names != []
    requires forall i :: 0 <= i < |names| ==> '_' !in names[i]
    requires suffix.Some? ==> '_' !in suffix.value
    ensures Truthy(suffix) ==> Split(NameId(names, suffix), '_') == names + [suffix.value]
    ensures !Truthy(suffix) ==> Split(NameId(names, suffix), '_') == names
  {
    if Truthy(suffix) {
      var parts := names + [suffix.value];
      assert forall i :: 0 <= i < |parts| ==> '_' !in parts[i] by {
        forall i | 0 <= i < |parts| ensures '_' !in parts[i] {
          if i < |names| {
            assert parts[i] == names[i];
          }
        }
      }
      SplitJoin(parts, '_');
    } else {
      SplitJoin(names, '_');
    }
  }

  /**
   * `_create_id(name_list, suffix)`: a non-empty suffix is appended to the
   * caller's list itself, then the list is joined with underscores.
   */
  method CreateId(nameList: StringList, suffix: Option<string>) returns (id: string)
    modifies nameList
    ensures Truthy(suffix) ==> nameList.items == old(nameList.items) + [suffix.value]
    ensures !Truthy(suffix) ==> nameList.items == old(nameList.items)
    ensures id == NameId(old(nameList.items), suffix) && id == Join(nameList.items, '_')
  {
    if Truthy(suffix) {
      nameList.Append(suffix.value);
    }
    id := Join(nameList.items, '_');
  }

  /** The comment markers around the geometry columns and the name suffix. */
  datatype GeomParts = GeomParts(start: string, stop: string, suffix: Option<string>)

  /** `_geom_add(include)`: no markers and the `geo` suffix, or comment markers and no suffix. */
  function GeomAdd(geomInclude: bool): (r: GeomParts)
    ensures geomInclude <==> Truthy(r.suffix)
    ensures geomInclude ==> r == GeomParts("", "", Some("geo"))
    ensures !geomInclude ==> r == GeomParts("/*", "*/", None)
  {
    if geomInclude then GeomParts("", "", Some("geo")) else GeomParts("/*", "*/", None)
  }

  /** The settings of one region's ini section that the view names use. */
  datatype RegionParams = RegionParams(semAdmin: string, semGeomInclude: bool, bisAdmin: string, bisGeomInclude: bool)

  /** The name of a division view: `div1`/`div2`, the region, `by`, the admin name with blanks as underscores. */
  function DivViewId(division: string, region: string, admin: string, geomInclude: bool): (r: string)
    ensures geomInclude ==> r == Join([division, region, "by", ReplaceChar(admin, ' ', '_'), "geo"], '_')
    ensures !geomInclude ==> r == Join([division, region, "by", ReplaceChar(admin, ' ', '_')], '_')
  {
    var parts := [division, region, "by", ReplaceChar(admin, ' ', '_')];
    assert parts + ["geo"] == [division, region, "by", ReplaceChar(admin, ' ', '_'), "geo"];
    NameId(parts, GeomAdd(geomInclude).suffix)
  }

  /** The three views created for a region, in creation order. */
  function RegionViewIds(geopopId: string, coverageId: string, region: string, p: RegionParams): seq<string>
  {
    [NameId([geopopId, coverageId, region], None),
     DivViewId("div1", region, p.semAdmin, p.semGeomInclude),
     DivViewId("div2", region, p.bisAdmin, p.bisGeomInclude)]
  }

  /** Every view name of the region loop, `gadm` skipped. */
  function LoopViewIds(geopopId: string, coverageId: string, regions: seq<string>, params: string -> RegionParams)
    : (r: seq<string>)
    ensures |r| % 3 == 0
  {
    if regions == [] then []
    else
      var init := LoopViewIds(geopopId, coverageId, regions[..|regions| - 1], params);
      var region := regions[|regions| - 1];
      if region == "gadm" then init else init + RegionViewIds(geopopId, coverageId, region, params(region))
  }

  /** How many regions other than `gadm` the list holds. */
  function CountNonGadm(regions: seq<string>): nat
  {
    if regions == [] then 0
    else CountNonGadm(regions[..|regions| - 1]) + (if regions[|regions| - 1] == "gadm" then 0 else 1)
  }

  /** The loop creates three views for each region but `gadm`, and none for `gadm`. */
  lemma {:induction false} LoopViewCount(geopopId: string, coverageId: string, regions: seq<string>, params: string -> RegionParams)
    ensures |LoopViewIds(geopopId, coverageId, regions, params)| == 3 * CountNonGadm(regions)
  {
    if regions != [] {
      LoopViewCount(geopopId, coverageId, regions[..|regions| - 1], params);
    }
  }

  /** A list holding only `gadm` yields no region views at all. */
  lemma OnlyGadm(geopopId: string, coverageId: string, params: string -> RegionParams)
    ensures LoopViewIds(geopopId, coverageId, ["gadm"], params) == []
  {
    assert ["gadm"][..0] == [];
  }

  /** Including the geometry only adds `_geo` to a division view's name. */
  lemma DivViewSuffix(division: string, region: string, admin: string)
    ensures DivViewId(division, region, admin, true) == DivViewId(division, region, admin, false) + "_geo"
  {
    JoinWithLast([division, region, "by", ReplaceChar(admin, ' ', '_')], "geo");
  }

  /** Joining with a last part puts an underscore and that part at the end. */
  lemma {:induction false} JoinWithLast(xs: seq<string>, last: string)
    requires xs != []
    ensures Join(xs + [last], '_') == Join(xs, '_') + "_" + last
  {
    if |xs| > 1 {
      JoinWithLast(xs[1..], last);
      assert (xs + [last])[1..] == xs[1..] + [last];
    } else {
      assert (xs + [last])[1..] == [last];
    }
  }

  /**
   * The region loop of the main program: for each region but `gadm`, the
   * coverage view, then the two division views, each name built by
   * `_create_id` on a fresh list.
   */
  method RegionLoop(geopopId: string, coverageId: string, regions: seq<string>, params: string -> RegionParams)
    returns (viewIds: seq<string>)
    ensures viewIds == LoopViewIds(geopopId, coverageId, regions, params)
  {
    viewIds := [];
    for j := 0 to |regions|
      invariant viewIds == LoopViewIds(geopopId, coverageId, regions[..j], params)
    {
      assert regions[..j + 1][..j] == regions[..j];
      var region := regions[j];
      if region == "gadm" {
        continue;
      }
      var created := CreateRegionViews(geopopId, coverageId, region, params(region));
      viewIds := viewIds + created;
    }
    assert regions[..|regions|] == regions;
  }

  /** The loop body for one region: the coverage view, then the two division views. */
  method CreateRegionViews(geopopId: string, coverageId: string, region: string, p: RegionParams)
    returns (created: seq<string>)
    ensures created == RegionViewIds(geopopId, coverageId, region, p)
  {
    var names := new StringList([geopopId, coverageId, region]);
    var viewId := CreateId(names, None);
    created := [viewId];
    var geo := GeomAdd(p.semGeomInclude);
    names := new StringList(["div1", region, "by", ReplaceChar(p.semAdmin, ' ', '_')]);
    viewId := CreateId(names, geo.suffix);
    created := created + [viewId];
    geo := GeomAdd(p.bisGeomInclude);
    names := new StringList(["div2", region, "by", ReplaceChar(p.bisAdmin, ' ', '_')]);
    viewId := CreateId(names, geo.suffix);
    created := created + [viewId];
  }

  /** Every view the main program creates, in order: three fixed views, the region loop, two summary views. */
  method MainViewIds(geopopId: string, coverageId: string, regions: seq<string>, params: string -> RegionParams)
    returns (viewIds: seq<string>)
    ensures |viewIds| == 5 + 3 * CountNonGadm(regions)
    ensures viewIds[..3] == ["most_recent", "covered_hexes", "region_stats"]
    ensures viewIds[3..|viewIds| - 2] == LoopViewIds(geopopId, coverageId, regions, params)
    ensures viewIds[|viewIds| - 2..] == ["div1_usa_canada_by_state_province", "div0_global_by_country"]
  {
    var loop := RegionLoop(geopopId, coverageId, regions, params);
    LoopViewCount(geopopId, coverageId, regions, params);
    viewIds := ["most_recent", "covered_hexes", "region_stats"] + loop
      + ["div1_usa_canada_by_state_province", "div0_global_by_country"];
  }
}
