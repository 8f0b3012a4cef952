/**
 * summarize.py: which summary tables a run creates. Each region but
 * `gadm` gets its coverage table and, when divisions 1 or 2 are asked
 * for, its division tables; then a combined USA/Canada table and a global
 * table by country are created when their inputs are there.
 */
module Summarize {
  import opened Base
  import opened Views
  import Hexpop

  /**
   * `_name_table(name_list, suffix)`: the same rule as the views' names;
   * a non-empty suffix is appended to the caller's list itself.
   */
  method NameTable(nameList: StringList, suffix: Option<string>) returns (name: string)
    modifies nameList
    ensures Truthy(suffix) ==> nameList.items == old(nameList.items) + [suffix.value]
    ensures !Truthy(suffix) ==> nameList.items == old(nameList.items)
    ensures name == NameId(old(nameList.items), suffix)
  {
    if Truthy(suffix) {
      nameList.Append(suffix.value);
    }
    name := Join(nameList.items, '_');
  }

  /** The `--geography` switch: no comment markers and the `geo` suffix, or markers and no suffix. */
  function Geography(geography: bool): (r: GeomParts)
    ensures r == GeomAdd(geography)
    ensures geography <==> r.suffix == Some("geo")
  {
    if geography then GeomParts("", "", Some("geo")) else GeomParts("/*", "*/", None)
  }

  /** The tables the loop creates for one region, in creation order. */
  function RegionTables(regionalId: string, coverageId: string, region: string, divisions: seq<int>,
                        geography: bool, p: RegionParams): (r: seq<string>)
    ensures |r| == 1 + (if 1 in divisions then 1 else 0) + (if 2 in divisions then 1 else 0)
    ensures r[0] == NameId([regionalId, coverageId, region], None)
    ensures 1 in divisions ==> r[1] == DivViewId("div1", region, p.semAdmin, geography)
    ensures 2 in divisions ==> r[|r| - 1] == DivViewId("div2", region, p.bisAdmin, geography)
  {
    [NameId([regionalId, coverageId, region], None)]
    + (if 1 in divisions then [DivViewId("div1", region, p.semAdmin, geography)] else [])
    + (if 2 in divisions then [DivViewId("div2", region, p.bisAdmin, geography)] else [])
  }

  /** Every table of the region loop, `gadm` skipped. */
  function LoopTables(regionalId: string, coverageId: string, regions: seq<string>, divisions: seq<int>,
                      geography: bool, params: string -> RegionParams): seq<string>
  {
    if regions == [] then []
    else
      var init := LoopTables(regionalId, coverageId, regions[..|regions| - 1], divisions, geography, params);
      var region := regions[|regions| - 1];
      if region == "gadm" then init
      else init + RegionTables(regionalId, coverageId, region, divisions, geography, params(region))
  }

  /** Each region but `gadm` gets its coverage table, and its division-1 table when division 1 is asked for. */
  lemma {:induction false} LoopBuildsRegion(regionalId: string, coverageId: string, regions: seq<string>,
                                            divisions: seq<int>, geography: bool, params: string -> RegionParams,
                                            region: string)
    requires region in regions && region != "gadm"
    ensures NameId([regionalId, coverageId, region], None) in LoopTables(regionalId, coverageId, regions, divisions, geography, params)
    ensures 1 in divisions ==>
      DivViewId("div1", region, params(region).semAdmin, geography) in LoopTables(regionalId, coverageId, regions, divisions, geography, params)
  {
    var init := regions[..|regions| - 1];
    var last := regions[|regions| - 1];
    var rt := RegionTables(regionalId, coverageId, last, divisions, geography, params(last));
    if region == last {
      assert rt[0] in rt;
      if 1 in divisions {
        assert rt[1] == DivViewId("div1", region, params(region).semAdmin, geography);
      }
    } else {
      assert region in init by {
        var i :| 0 <= i < |regions| && regions[i] == region;
        assert i < |regions| - 1;
        assert init[i] == region;
      }
      LoopBuildsRegion(regionalId, coverageId, init, divisions, geography, params, region);
    }
  }

  /** How many regions other than `gadm` the list holds, from the front. */
  lemma {:induction false} LoopTablesCount(regionalId: string, coverageId: string, regions: seq<string>,
                                           divisions: seq<int>, geography: bool, params: string -> RegionParams)
    ensures |LoopTables(regionalId, coverageId, regions, divisions, geography, params)|
      == CountNonGadm(regions) * (1 + (if 1 in divisions then 1 else 0) + (if 2 in divisions then 1 else 0))
  {
    if regions != [] {
      LoopTablesCount(regionalId, coverageId, regions[..|regions| - 1], divisions, geography, params);
    }
  }

  /**
   * The combined USA/Canada gate as written: division 1 and both `usa`
   * and `europe` among the regions, although the combined table reads the
   * USA and Canada division-1 tables.
   */
  predicate ComboGateAsWritten(divisions: seq<int>, regions: seq<string>) {
    1 in divisions && {"usa", "europe"} <= set r | r in regions
  }

  /** The combined USA/Canada gate as intended: division 1, `usa` and `canada`. */
  predicate ComboGate(divisions: seq<int>, regions: seq<string>) {
    1 in divisions && {"usa", "canada"} <= set r | r in regions
  }

  /** The global-by-country gate: division 0 and `europe` among the regions (the table reads Europe's division-1 table). */
  predicate CountryGate(divisions: seq<int>, regions: seq<string>) {
    0 in divisions && {"europe"} <= set r | r in regions
  }

  /** The combined gate as written opens for division 1 with `usa` and `europe` requested. */
  lemma ComboGateAsWrittenMeaning(divisions: seq<int>, regions: seq<string>)
    ensures ComboGateAsWritten(divisions, regions) <==> 1 in divisions && "usa" in regions && "europe" in regions
  {
    assert "usa" in regions <==> "usa" in set r | r in regions;
    assert "europe" in regions <==> "europe" in set r | r in regions;
  }

  /** The intended combined gate opens for division 1 with `usa` and `canada` requested. */
  lemma ComboGateMeaning(divisions: seq<int>, regions: seq<string>)
    ensures ComboGate(divisions, regions) <==> 1 in divisions && "usa" in regions && "canada" in regions
  {
    assert "usa" in regions <==> "usa" in set r | r in regions;
    assert "canada" in regions <==> "canada" in set r | r in regions;
  }

  /** The global gate opens for division 0 with `europe` requested. */
  lemma CountryGateMeaning(divisions: seq<int>, regions: seq<string>)
    ensures CountryGate(divisions, regions) <==> 0 in divisions && "europe" in regions
  {
    assert "europe" in regions <==> "europe" in set r | r in regions;
  }

  /** The other way round, `usa` and `canada` at division 1 leave the gate as written shut. */
  lemma ComboGateAsWrittenMissesCanada()
    ensures ComboGate([1], ["usa", "canada"])
    ensures !ComboGateAsWritten([1], ["usa", "canada"])
  {
    ComboGateMeaning([1], ["usa", "canada"]);
    ComboGateAsWrittenMeaning([1], ["usa", "canada"]);
  }

  /** With the intended gate, both tables the combined table reads are created in the same run. */
  lemma ComboInputsBuilt(regionalId: string, coverageId: string, regions: seq<string>, divisions: seq<int>,
                         geography: bool, params: string -> RegionParams)
    requires ComboGate(divisions, regions)
    ensures DivViewId("div1", "usa", params("usa").semAdmin, geography)
      in LoopTables(regionalId, coverageId, regions, divisions, geography, params)
    ensures DivViewId("div1", "canada", params("canada").semAdmin, geography)
      in LoopTables(regionalId, coverageId, regions, divisions, geography, params)
  {
    assert "usa" in set r | r in regions;
    assert "canada" in set r | r in regions;
    LoopBuildsRegion(regionalId, coverageId, regions, divisions, geography, params, "usa");
    LoopBuildsRegion(regionalId, coverageId, regions, divisions, geography, params, "canada");
  }

  /** Every table the loop creates belongs to a listed region other than `gadm`. */
  lemma {:induction false} LoopTablesFrom(regionalId: string, coverageId: string, regions: seq<string>,
                                          divisions: seq<int>, geography: bool, params: string -> RegionParams,
                                          t: string)
    requires t in LoopTables(regionalId, coverageId, regions, divisions, geography, params)
    ensures exists region :: BuiltFor(regionalId, coverageId, regions, divisions, geography, params, region, t)
  {
    var init := regions[..|regions| - 1];
    var last := regions[|regions| - 1];
    var prior := LoopTables(regionalId, coverageId, init, divisions, geography, params);
    if t in prior {
      LoopTablesFrom(regionalId, coverageId, init, divisions, geography, params, t);
      var region :| BuiltFor(regionalId, coverageId, init, divisions, geography, params, region, t);
      assert BuiltFor(regionalId, coverageId, regions, divisions, geography, params, region, t);
    } else {
      assert BuiltFor(regionalId, coverageId, regions, divisions, geography, params, last, t);
    }
  }

  /** `t` is one of the tables the loop creates for `region`, a listed region other than `gadm`. */
  predicate BuiltFor(regionalId: string, coverageId: string, regions: seq<string>, divisions: seq<int>,
                     geography: bool, params: string -> RegionParams, region: string, t: string)
  {
    && region in regions && region != "gadm"
    && t in RegionTables(regionalId, coverageId, region, divisions, geography, params(region))
  }

  /**
   * As written, asking for `usa` and `europe` with division 1 opens the
   * combined gate, though the run creates tables for those two regions
   * only and none for Canada.
   */
  lemma ComboGateAsWrittenWithoutCanada(regionalId: string, coverageId: string, geography: bool,
                                        params: string -> RegionParams)
    ensures ComboGateAsWritten([1], ["usa", "europe"])
    ensures !ComboGate([1], ["usa", "europe"])
    ensures LoopTables(regionalId, coverageId, ["usa", "europe"], [1], geography, params)
      == RegionTables(regionalId, coverageId, "usa", [1], geography, params("usa"))
      + RegionTables(regionalId, coverageId, "europe", [1], geography, params("europe"))
    ensures forall t :: !BuiltFor(regionalId, coverageId, ["usa", "europe"], [1], geography, params, "canada", t)
  {
    var regions := ["usa", "europe"];
    assert "canada" !in set r | r in regions;
    assert {"usa", "europe"} <= set r | r in regions;
    LoopUsaEurope(regionalId, coverageId, geography, params);
  }

  /** The loop over `usa` and `europe` creates the tables of those two regions, in that order. */
  lemma LoopUsaEurope(regionalId: string, coverageId: string, geography: bool, params: string -> RegionParams)
    ensures LoopTables(regionalId, coverageId, ["usa", "europe"], [1], geography, params)
      == RegionTables(regionalId, coverageId, "usa", [1], geography, params("usa"))
      + RegionTables(regionalId, coverageId, "europe", [1], geography, params("europe"))
  {
    var regions := ["usa", "europe"];
    assert regions[..1] == ["usa"];
    assert ["usa"][..0] == [];
    var usa := RegionTables(regionalId, coverageId, "usa", [1], geography, params("usa"));
    assert LoopTables(regionalId, coverageId, ["usa"], [1], geography, params) == [] + usa;
  }

  /** The loop body for one region: its coverage table, then the division tables asked for. */
  method CreateRegionTables(regionalId: string, coverageId: string, region: string, divisions: seq<int>,
                            geoSuffix: Option<string>, p: RegionParams)
    returns (created: seq<string>)
    ensures geoSuffix == GeomAdd(true).suffix ==> created == RegionTables(regionalId, coverageId, region, divisions, true, p)
    ensures geoSuffix == GeomAdd(false).suffix ==> created == RegionTables(regionalId, coverageId, region, divisions, false, p)
  {
    var names := new StringList([regionalId, coverageId, region]);
    var name := NameTable(names, None);
    created := [name];
    if 1 in divisions {
      names := new StringList(["div1", region, "by", ReplaceChar(p.semAdmin, ' ', '_')]);
      name := NameTable(names, geoSuffix);
      created := created + [name];
    }
    if 2 in divisions {
      names := new StringList(["div2", region, "by", ReplaceChar(p.bisAdmin, ' ', '_')]);
      name := NameTable(names, geoSuffix);
      created := created + [name];
    }
  }

  /**
   * The main program's tables, in creation order: the region loop, then
   * the combined table and the global table when their gates open. The
   * loop and both gates read the cleaned request: `clean_regions` of the
   * requested regions against the warehouse's table listing.
   */
  method SummaryTables(regionalId: string, coverageId: string, requested: seq<string>,
                       listing: seq<Hexpop.TableEntry>, divisions: seq<int>,
                       geography: bool, params: string -> RegionParams)
    returns (tables: seq<string>)
    ensures var regions := Hexpop.CleanRegions(requested, listing).0;
      tables == LoopTables(regionalId, coverageId, regions, divisions, geography, params)
      + (if ComboGate(divisions, regions) then ["div1_usa_canada_by_state_province"] else [])
      + (if CountryGate(divisions, regions) then ["div0_global_by_country"] else [])
  {
    var regions := Hexpop.CleanRegions(requested, listing).0;
    var geo := Geography(geography);
    tables := [];
    for j := 0 to |regions|
      invariant tables == LoopTables(regionalId, coverageId, regions[..j], divisions, geography, params)
    {
      assert regions[..j + 1][..j] == regions[..j];
      var region := regions[j];
      if region == "gadm" {
        continue;
      }
      var created := CreateRegionTables(regionalId, coverageId, region, divisions, geo.suffix, params(region));
      assert geo.suffix == GeomAdd(geography).suffix;
      tables := tables + created;
    }
    assert regions[..|regions|] == regions;
    if ComboGate(divisions, regions) {
      tables := tables + ["div1_usa_canada_by_state_province"];
    }
    if CountryGate(divisions, regions) {
      tables := tables + ["div0_global_by_country"];
    }
  }
}
