/**
 * hexpop.py: the shared BigQuery helpers. Ids are joined with periods, the
 * warehouse's `project:dataset.table` form is fixed to periods, temporary
 * ids get a timestamp suffix, schemas are stripped, and the region list is
 * checked against the prepared tables. The logger and table objects are
 * configured field by field.
 */
module Hexpop {
  import opened Base

  const LOG_DIR := "/var/log/hexpop"

  /** `f'{project}.{name}'`, with `_test` appended to the name for a test dataset. */
  function DatasetId(project: string, name: string, testDataset: bool): (r: string)
    ensures testDataset ==> r == project + "." + name + "_test"
    ensures !testDataset ==> r == project + "." + name
  {
    project + "." + (if testDataset then name + "_test" else name)
  }

  /** A dataset id built from period-free parts splits back into the project and the dataset name. */
  lemma DatasetIdSplits(project: string, name: string, testDataset: bool)
    requires '.' !in project && '.' !in name
    ensures Split(DatasetId(project, name, testDataset), '.') == [project, if testDataset then name + "_test" else name]
  {
    var n := if testDataset then name + "_test" else name;
    assert '.' !in n;
    SplitCons(project, n, '.');
    assert project + "." + n == project + ['.'] + n;
  }

  /** `'.'.join([project, dataset_id, table_id])`: the id of a table or a view. */
  function TableId(project: string, datasetId: string, tableId: string): (r: string)
    ensures r == project + "." + datasetId + "." + tableId
  {
    var parts := [project, datasetId, tableId];
    assert parts[1..][1..] == [tableId];
    assert Join(parts[1..], '.') == datasetId + "." + tableId;
    assert Join(parts, '.') == project + "." + (datasetId + "." + tableId);
    Join(parts, '.')
  }

  /** An id whose parts hold no period splits back into its parts. */
  lemma TableIdSplits(project: string, datasetId: string, tableId: string)
    requires '.' !in project && '.' !in datasetId && '.' !in tableId
    ensures Split(TableId(project, datasetId, tableId), '.') == [project, datasetId, tableId]
  {
    SplitJoin([project, datasetId, tableId], '.');
  }

  /** `bq_full_id`: every colon becomes a period; nothing else changes. */
  function FullId(fullTableId: string): (r: string)
    ensures |r| == |fullTableId| && ':' !in r
    ensures forall i :: 0 <= i < |r| ==> fullTableId[i] != ':' ==> r[i] == fullTableId[i]
    ensures forall i :: 0 <= i < |r| ==> fullTableId[i] == ':' ==> r[i] == '.'
  {
    ReplaceChar(fullTableId, ':', '.')
  }

  /** The warehouse's `project:dataset.table` becomes the id the helpers build. */
  lemma FullIdOfTable(project: string, datasetId: string, tableId: string)
    requires ':' !in project && ':' !in datasetId && ':' !in tableId
    ensures FullId(project + ":" + datasetId + "." + tableId) == TableId(project, datasetId, tableId)
  {
    var s := project + ":" + datasetId + "." + tableId;
    var t := TableId(project, datasetId, tableId);
    assert |FullId(s)| == |t|;
    forall i | 0 <= i < |t|
      ensures FullId(s)[i] == t[i]
    {
      if i < |project| {
        assert s[i] == project[i] && t[i] == project[i];
      } else if i > |project| {
        assert s[i] == t[i];
      }
    }
  }

  /** Fixing the colons twice is fixing them once. */
  lemma FullIdIdempotent(fullTableId: string)
    ensures FullId(FullId(fullTableId)) == FullId(fullTableId)
  {
  }

  /**
   * `bq_tmp_id(table_id)`: the id, an underscore, and the clock reading
   * (given here as its text) with its periods replaced by underscores.
   */
  function TmpId(tableId: string, clockText: string): (r: string)
    ensures |r| == |tableId| + 1 + |clockText|
    ensures r[..|tableId| + 1] == tableId + "_"
    ensures forall i :: 0 <= i < |clockText| ==>
      r[|tableId| + 1 + i] == (if clockText[i] == '.' then '_' else clockText[i])
  {
    tableId + "_" + ReplaceChar(clockText, '.', '_')
  }

  /** A temporary id reads back as the original id and the clock text. */
  lemma TmpIdParts(tableId: string, clockText: string)
    requires '.' !in clockText
    ensures TmpId(tableId, clockText) == tableId + "_" + clockText
  {
    assert ReplaceChar(clockText, '.', '_') == clockText;
  }

  /** `bq_form_schema`: one field per pair, in order, name and type stripped. */
  function FormSchema(fields: seq<(string, string)>): (r: seq<(string, string)>)
    ensures |r| == |fields|
    ensures forall i :: 0 <= i < |r| ==> Stripped(r[i].0) && Stripped(r[i].1)
    ensures forall i :: 0 <= i < |r| ==> |r[i].0| <= |fields[i].0| && |r[i].1| <= |fields[i].1|
  {
    seq(|fields|, i requires 0 <= i < |fields| => (Strip(fields[i].0), Strip(fields[i].1)))
  }

  /** Forming a schema from a formed schema changes nothing. */
  lemma FormSchemaIdempotent(fields: seq<(string, string)>)
    ensures FormSchema(FormSchema(fields)) == FormSchema(fields)
  {
    var r := FormSchema(fields);
    forall i | 0 <= i < |r|
      ensures FormSchema(r)[i] == r[i]
    {
      StripOfStripped(r[i].0);
      StripOfStripped(r[i].1);
    }
  }

  /** A table in the `geopop` dataset listing: its id and its kind (`TABLE`, `VIEW`, ...). */
  datatype TableEntry = TableEntry(tableId: string, tableType: string)

  /** The ids of the listed entries of type `TABLE`, in listing order. */
  function RegionalTables(listing: seq<TableEntry>): (r: seq<string>)
    ensures |r| <= |listing|
    ensures forall t :: t in r <==> exists e :: e in listing && e.tableType == "TABLE" && e.tableId == t
    ensures |listing| == 1 ==> r == (if listing[0].tableType == "TABLE" then [listing[0].tableId] else [])
  {
    if listing == [] then []
    else
      var rest := RegionalTables(listing[1..]);
      assert forall e :: e in listing <==> e == listing[0] || e in listing[1..];
      if listing[0].tableType == "TABLE" then [listing[0].tableId] + rest else rest
  }

  /** The listing is read entry by entry, so the tables keep their listing order. */
  lemma {:induction false} RegionalTablesAppend(a: seq<TableEntry>, b: seq<TableEntry>)
    ensures RegionalTables(a + b) == RegionalTables(a) + RegionalTables(b)
  {
    if a == [] {
      assert a + b == b;
    } else {
      assert (a + b)[1..] == a[1..] + b;
      RegionalTablesAppend(a[1..], b);
    }
  }

  /** The requested regions that have no table; each is logged as a warning. */
  function UnknownRegions(regions: seq<string>, tables: seq<string>): (r: seq<string>)
    ensures forall x :: x in r <==> x in regions && x !in tables
    ensures r == [] <==> forall x :: x in regions ==> x in tables
  {
    if regions == [] then []
    else
      var rest := UnknownRegions(regions[1..], tables);
      assert forall x :: x in regions <==> x == regions[0] || x in regions[1..];
      if regions[0] in tables then rest else [regions[0]] + rest
  }

  /**
   * `clean_regions`: `all` selects every prepared table; otherwise the
   * request is returned unchanged, with unknown regions only warned about.
   */
  function CleanRegions(regions: seq<string>, listing: seq<TableEntry>): (r: (seq<string>, seq<string>))
    ensures "all" in regions ==> r == (RegionalTables(listing), [])
    ensures "all" !in regions ==> r.0 == regions
    ensures "all" !in regions ==> forall x :: x in r.1 <==> x in regions && x !in RegionalTables(listing)
  {
    if "all" in regions then (RegionalTables(listing), [])
    else (regions, UnknownRegions(regions, RegionalTables(listing)))
  }

  /** Cleaning a request that names only prepared tables warns about nothing. */
  lemma CleanKnownRegions(regions: seq<string>, listing: seq<TableEntry>)
    requires "all" !in regions
    requires forall x :: x in regions ==> x in RegionalTables(listing)
    ensures CleanRegions(regions, listing) == (regions, [])
  {
  }

  datatype Level = Debug | Info | Warn

  /** The console handler's level: DEBUG when verbose, INFO otherwise. */
  function ConsoleLevel(verbose: bool): (r: Level)
    ensures r == Debug <==> verbose
    ensures r == Info <==> !verbose
  {
    if verbose then Debug else Info
  }

  /** ASCII `str.lower()`. */
  function Lower(s: string): (r: string)
    ensures |r| == |s|
    ensures forall i :: 0 <= i < |s| ==> ('A' <= s[i] <= 'Z' ==> r[i] == (s[i] as int + 32) as char)
    ensures forall i :: 0 <= i < |s| ==> (!('A' <= s[i] <= 'Z') ==> r[i] == s[i])
    ensures forall i :: 0 <= i < |r| ==> !('A' <= r[i] <= 'Z')
  {
    seq(|s|, i requires 0 <= i < |s| => if 'A' <= s[i] <= 'Z' then (s[i] as int + 32) as char else s[i])
  }

  /** Lower-casing twice is lower-casing once. */
  lemma LowerIdempotent(s: string)
    ensures Lower(Lower(s)) == Lower(s)
  {
  }

  /** `sub` occurs in `s` at position i. */
  predicate At(s: string, sub: string, i: int) {
    0 <= i <= |s| - |sub| && s[i..i + |sub|] == sub
  }

  /** `sub in s`. */
  predicate Contains(s: string, sub: string) {
    exists i | 0 <= i <= |s| - |sub| :: At(s, sub, i)
  }

  /** The syslog socket for the platform: Linux, then macOS, else nothing. */
  function SyslogPath(platform: string): (r: string)
    ensures Contains(Lower(platform), "linux") ==> r == "/dev/log"
    ensures !Contains(Lower(platform), "linux") && Contains(Lower(platform), "macos") ==> r == "/var/run/syslog"
    ensures r == "/dev/null" <==> !Contains(Lower(platform), "linux") && !Contains(Lower(platform), "macos")
  {
    var p := Lower(platform);
    if Contains(p, "linux") then "/dev/log"
    else if Contains(p, "macos") then "/var/run/syslog"
    else "/dev/null"
  }

  datatype Sink = Console | RotatingFile(path: string, maxBytes: nat, backupCount: nat) | Syslog(address: string)
  datatype Handler = Handler(sink: Sink, level: Level)

  /** A logger whose level and handlers `initialize_logging` resets. */
  class Logger {
    var level: Level
    var handlers: seq<Handler>

    constructor()
      ensures level == Warn && handlers == []
    {
      level := Warn;
      handlers := [];
    }

    /**
     * `initialize_logging(logger, verbose)`: a clean slate, then a console
     * handler at the verbosity's level, a rotating log file at INFO
     * under the log directory, and syslog at WARN. The main script's stem
     * and the platform string are inputs.
     */
    method Initialize(verbose: bool, scriptStem: string, platform: string)
      modifies this
      ensures level == Debug
      ensures handlers == [
        Handler(Console, ConsoleLevel(verbose)),
        Handler(RotatingFile(LOG_DIR + "/" + scriptStem + ".log", 1_000_000, 5), Info),
        Handler(Syslog(SyslogPath(platform)), Warn)]
    {
      var syslogPath := SyslogPath(platform);
      handlers := [];
      level := Debug;
      var consoleLevel := if verbose then Debug else Info;
      handlers := handlers + [Handler(Console, consoleLevel)];
      handlers := handlers + [Handler(RotatingFile(LOG_DIR + "/" + scriptStem + ".log", 1_000_000, 5), Info)];
      handlers := handlers + [Handler(Syslog(syslogPath), Warn)];
    }
  }

  datatype PartitionType = Hour | Day
  datatype Partitioning = Partitioning(field: string, kind: PartitionType)

  /** The partition granularity: HOUR when asked for hourly partitions, DAY otherwise. */
  function PartitionKind(partitionHourly: bool): (r: PartitionType)
    ensures r == Hour <==> partitionHourly
    ensures r == Day <==> !partitionHourly
  {
    if partitionHourly then Hour else Day
  }

  /** A table definition whose settings `bq_create_table` fills in one by one. */
  class Table {
    var tableId: string
    var schema: Option<seq<(string, string)>>
    var partitioning: Option<Partitioning>
    var clustering: Option<seq<string>>
    var description: Option<string>

    /** `bigquery.Table(table_id, schema=schema)`: nothing else set. */
    constructor(tableId: string, schema: Option<seq<(string, string)>>)
      ensures this.tableId == tableId && this.schema == schema
      ensures partitioning == None && clustering == None && description == None
    {
      this.tableId := tableId;
      this.schema := schema;
      partitioning := None;
      clustering := None;
      description := None;
    }
  }

  /**
   * The table `bq_create_table` asks the warehouse to create: its id is
   * `project.dataset.table`; it is partitioned on the named field only when
   * one is given, hourly or daily as asked; clustered and described only
   * when those are given and non-empty.
   */
  method CreateTable(
    project: string, datasetId: string, tableId: string,
    schema: Option<seq<(string, string)>>, partition: Option<string>, partitionHourly: bool,
    cluster: Option<seq<string>>, description: Option<string>)
    returns (table: Table)
    ensures fresh(table)
    ensures table.tableId == TableId(project, datasetId, tableId) && table.schema == schema
    ensures table.partitioning == (if Truthy(partition) then Some(Partitioning(partition.value, PartitionKind(partitionHourly))) else None)
    ensures table.clustering == (if cluster.Some? && cluster.value != [] then cluster else None)
    ensures table.description == (if Truthy(description) then description else None)
  {
    var id := TableId(project, datasetId, tableId);
    table := new Table(id, schema);
    if Truthy(partition) {
      var kind := if partitionHourly then Hour else Day;
      table.partitioning := Some(Partitioning(partition.value, kind));
    }
    if cluster.Some? && cluster.value != [] {
      table.clustering := cluster;
    }
    if Truthy(description) {
      table.description := description;
    }
  }
}
