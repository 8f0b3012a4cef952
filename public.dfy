/**
 * public.py: read one public data source's settings from its ini file,
 * derive the local file name and the table name from its path, choose the
 * rows to read, map the column types to a table schema and choose how many
 * batches to load in parallel.
 */
module Public {
  import opened Base
  import opened Driver

  /** An ini file: section name to option name to raw value. */
  type Ini = map<string, map<string, string>>

  /** `ConfigParser.get(section, option)`: a missing section and a missing option raise different errors. */
  function IniGet(ini: Ini, section: string, option: string): (r: Result<string>)
    ensures section !in ini <==> r == Err(NoSectionError(section))
    ensures section in ini && option !in ini[section] <==> r == Err(NoOptionError(section, option))
    ensures r.Ok? <==> section in ini && option in ini[section]
    ensures r.Ok? ==> r.value == ini[section][option]
  {
    if section !in ini then Err(NoSectionError(section))
    else if option !in ini[section] then Err(NoOptionError(section, option))
    else Ok(ini[section][option])
  }

  /** What `parse_ini` collects for one source. */
  datatype Config = Config(
    source: string,
    description: Option<string>,
    gdfile: string,
    encoding: Option<string>,
    dropColumns: seq<string>,
    recastQuery: string)

  /** `filter(None, [x.strip() for x in lines])`: the stripped lines, empty ones dropped, order kept. */
  function NonEmptyStripped(lines: seq<string>): (r: seq<string>)
    ensures |r| <= |lines|
    ensures forall i :: 0 <= i < |r| ==> r[i] != "" && Stripped(r[i])
    ensures forall x :: x in r <==> x != "" && exists i :: 0 <= i < |lines| && Strip(lines[i]) == x
    ensures |lines| == 1 ==> r == (if Strip(lines[0]) == "" then [] else [Strip(lines[0])])
  {
    if lines == [] then []
    else
      var rest := NonEmptyStripped(lines[1..]);
      var x := Strip(lines[0]);
      assert forall i :: 0 < i < |lines| ==> lines[i] == lines[1..][i - 1];
      if x == "" then rest else [x] + rest
  }

  /** The lines are cleaned one by one, so the kept lines stay in their order. */
  lemma {:induction false} NonEmptyStrippedAppend(a: seq<string>, b: seq<string>)
    ensures NonEmptyStripped(a + b) == NonEmptyStripped(a) + NonEmptyStripped(b)
  {
    if a == [] {
      assert a + b == b;
    } else {
      assert (a + b)[1..] == a[1..] + b;
      NonEmptyStrippedAppend(a[1..], b);
    }
  }

  /** Lines that are already stripped and non-empty pass through unchanged. */
  lemma {:induction false} NonEmptyStrippedKeeps(lines: seq<string>)
    requires forall i :: 0 <= i < |lines| ==> lines[i] != "" && Stripped(lines[i])
    ensures NonEmptyStripped(lines) == lines
  {
    if lines != [] {
      StripOfStripped(lines[0]);
      NonEmptyStrippedKeeps(lines[1..]);
    }
  }

  /** Stripping and filtering twice is filtering once. */
  lemma NonEmptyStrippedIdempotent(lines: seq<string>)
    ensures NonEmptyStripped(NonEmptyStripped(lines)) == NonEmptyStripped(lines)
  {
    NonEmptyStrippedKeeps(NonEmptyStripped(lines));
  }

  /** The `drop_columns` option: one column name per non-blank line, stripped. */
  function DropColumns(value: string): (columns: seq<string>)
    ensures forall i :: 0 <= i < |columns| ==> columns[i] != "" && Stripped(columns[i]) && NoLineBreak(columns[i])
  {
    var lines := SplitLines(value);
    forall i | 0 <= i < |NonEmptyStripped(lines)| ensures NoLineBreak(NonEmptyStripped(lines)[i]) {
      var x := NonEmptyStripped(lines)[i];
      assert x in NonEmptyStripped(lines);
      var j :| 0 <= j < |lines| && Strip(lines[j]) == x;
      StripNoLineBreak(lines[j]);
    }
    NonEmptyStripped(lines)
  }

  /** Stripping keeps a line free of line breaks. */
  lemma StripNoLineBreak(s: string)
    requires NoLineBreak(s)
    ensures NoLineBreak(Strip(s))
  {
    StripInfix(s);
    var i := SkipSpace(s, 0);
    forall k | 0 <= k < |Strip(s)| ensures !IsLineBreak(Strip(s)[k]) {
      assert Strip(s)[k] == s[i + k];
    }
  }

  /**
   * An option value written one name per line gives those names, stripped,
   * in order, with the blank lines dropped.
   */
  lemma DropColumnsOfLines(lines: seq<string>)
    requires forall i :: 0 <= i < |lines| ==> NoLineBreak(lines[i])
    ensures DropColumns(UnixText(lines)) == NonEmptyStripped(lines)
  {
    SplitLinesUnixText(lines);
  }

  /** Reads every option after `description`, once the section is known to exist. */
  function ParseOptions(ini: Ini, source: string, description: Option<string>): (r: Result<Config>)
    requires source in ini
  {
    var path := IniGet(ini, source, "path");
    if path.Err? then Err(path.error)
    else
      var enc := IniGet(ini, source, "encoding");
      var encoding := if enc.Ok? then Some(enc.value) else None;
      var dc := IniGet(ini, source, "drop_columns");
      var dropColumns := if dc.Ok? then DropColumns(dc.value) else [];
      var query := IniGet(ini, source, "recast_query");
      if query.Err? then Err(query.error)
      else Ok(Config(source, description, path.value, encoding, dropColumns, query.value))
  }

  /**
   * `parse_ini(source)` as written: the first read, of `description`,
   * catches only NoOptionError, so a source without a section raises
   * NoSectionError there and the exit meant for that case is never reached.
   */
  function ParseIniAsWritten(ini: Ini, source: string): (r: Result<Config>)
    ensures r != Err(SystemExit)
    ensures source !in ini <==> r == Err(NoSectionError(source))
  {
    var d := IniGet(ini, source, "description");
    if d == Err(NoSectionError(source)) then Err(NoSectionError(source))
    else
      var description := if d.Ok? then Some(Strip(d.value)) else None;
      var path := IniGet(ini, source, "path");
      if path == Err(NoSectionError(source)) then Err(SystemExit)
      else ParseOptions(ini, source, description)
  }

  /**
   * `parse_ini(source)` with the evident intent: a source without a
   * section ends the program; otherwise a missing `description` or
   * `encoding` reads as None, a missing `drop_columns` as no columns, and
   * a missing `path` or `recast_query` raises NoOptionError.
   */
  function ParseIni(ini: Ini, source: string): (r: Result<Config>)
    ensures source !in ini <==> r == Err(SystemExit)
    ensures source in ini ==> (r.Err? <==> "path" !in ini[source] || "recast_query" !in ini[source])
    ensures source in ini && "path" !in ini[source] ==> r == Err(NoOptionError(source, "path"))
    ensures source in ini && "path" in ini[source] && "recast_query" !in ini[source] ==>
      r == Err(NoOptionError(source, "recast_query"))
    ensures r.Ok? ==> ParsedFrom(ini, source, r.value)
  {
    if source !in ini then Err(SystemExit)
    else
      var d := IniGet(ini, source, "description");
      ParseOptions(ini, source, if d.Ok? then Some(Strip(d.value)) else None)
  }

  /** Each field of `c` is what the section's options give. */
  predicate ParsedFrom(ini: Ini, source: string, c: Config)
    requires source in ini
  {
    var sec := ini[source];
    && c.source == source
    && c.description == (if "description" in sec then Some(Strip(sec["description"])) else None)
    && "path" in sec && c.gdfile == sec["path"]
    && c.encoding == (if "encoding" in sec then Some(sec["encoding"]) else None)
    && c.dropColumns == (if "drop_columns" in sec then DropColumns(sec["drop_columns"]) else [])
    && "recast_query" in sec && c.recastQuery == sec["recast_query"]
  }

  /** Whenever the section exists the two versions agree; they differ only in how a missing section fails. */
  lemma ParseIniAgrees(ini: Ini, source: string)
    ensures source in ini ==> ParseIniAsWritten(ini, source) == ParseIni(ini, source)
    ensures source !in ini ==> ParseIniAsWritten(ini, source) == Err(NoSectionError(source))
    ensures source !in ini ==> ParseIni(ini, source) == Err(SystemExit)
  {
  }

  /** The exit is unreachable as written: an empty ini file raises instead. */
  lemma ParseIniMissingSection()
    ensures ParseIniAsWritten(map[], "census") == Err(NoSectionError("census"))
    ensures ParseIni(map[], "census") == Err(SystemExit)
  {
  }

  /** `config.gdfile.rsplit('/', maxsplit=1)[-1]`: the file name after the last slash. */
  function GdLocal(path: string): (r: string)
    ensures '/' !in r
    ensures |r| <= |path| && path[|path| - |r|..] == r
    ensures '/' !in path ==> r == path
  {
    AfterLast(path, '/')
  }

  /** `gdlocal.split('.')[0]`: the file name up to its first dot. */
  function GdName(gdlocal: string): (r: string)
    ensures '.' !in r
    ensures IsPrefix(r, gdlocal)
    ensures '.' !in gdlocal ==> r == gdlocal
  {
    BeforeFirst(gdlocal, '.')
  }

  /** A path ending in `/name.ext` gives the local file `name.ext` and the table name `name`. */
  lemma PathNames(dir: string, name: string, ext: string)
    requires '/' !in name && '/' !in ext && '.' !in name
    ensures GdLocal(dir + "/" + name + "." + ext) == name + "." + ext
    ensures GdName(name + "." + ext) == name
  {
    var local := name + "." + ext;
    assert '/' !in local;
    assert dir + "/" + name + "." + ext == dir + "/" + local;
    AfterLastSuffix(dir, local);
    BeforeFirstDot(name, ext);
  }

  lemma BeforeFirstDot(name: string, ext: string)
    requires '.' !in name
    ensures BeforeFirst(name + "." + ext, '.') == name
  {
    IndexOfAfter(name, ext, '.');
    assert name + "." + ext == name + ['.'] + ext;
    assert (name + ['.'] + ext)[..|name|] == name;
  }

  lemma AfterLastSuffix(dir: string, local: string)
    requires '/' !in local
    ensures AfterLast(dir + "/" + local, '/') == local
  {
    var s := dir + "/" + local;
    assert s[|dir|] == '/';
    assert s[|s| - |local|..] == local;
  }

  /** `read_gdf`: with `test_rows` set, only the rows of `[start, start + test_rows)`; otherwise all of them. */
  function ReadRows<T>(rows: seq<T>, testRows: int, testStart: int): (r: seq<T>)
    ensures testRows == 0 ==> r == rows
    ensures testRows > 0 && 0 <= testStart && testStart + testRows <= |rows| ==>
      r == rows[testStart..testStart + testRows] && |r| == testRows
    ensures testRows > 0 && 0 <= testStart && |rows| <= testStart ==> r == []
    ensures testRows > 0 && 0 <= testStart < |rows| < testStart + testRows ==> r == rows[testStart..]
  {
    if testRows != 0 then PySlice(rows, testStart, testStart + testRows) else rows
  }

  /** `dtype2sql`: the table type for each column type the loader knows. */
  function Dtype2Sql(dtype: string): (sql: Option<string>)
    ensures sql.Some? <==> dtype in {"float64", "int64", "object", "geometry"}
  {
    if dtype == "float64" then Some("FLOAT64")
    else if dtype == "int64" then Some("INTEGER")
    else if dtype == "object" then Some("STRING")
    else if dtype == "geometry" then Some("GEOGRAPHY")
    else None
  }

  /** Distinct known column types get distinct table types. */
  lemma Dtype2SqlInjective(a: string, b: string)
    requires Dtype2Sql(a).Some? && Dtype2Sql(a) == Dtype2Sql(b)
    ensures a == b
  {
  }

  /**
   * The schema field of one column: geometry becomes a `WKT` string column,
   * so the `GEOGRAPHY` type is never used; every other column keeps its name.
   */
  function SchemaField(column: string, dtype: string): (r: Result<(string, string)>)
    ensures r.Ok? <==> Dtype2Sql(dtype).Some?
    ensures r.Err? ==> r.error == KeyError(dtype)
    ensures r.Ok? && dtype != "geometry" ==> r.value == (column, Dtype2Sql(dtype).value)
    ensures r.Ok? ==> r.value.1 in {"FLOAT64", "INTEGER", "STRING"}
  {
    if dtype == "geometry" then Ok(("WKT", "STRING"))
    else
      match Dtype2Sql(dtype)
      case None => Err(KeyError(dtype))
      case Some(sql) => Ok((column, sql))
  }

  /** Column j is the first whose type has no table type. */
  predicate FirstUnknown(columns: seq<(string, string)>, j: int) {
    && 0 <= j < |columns|
    && SchemaField(columns[j].0, columns[j].1).Err?
    && forall i :: 0 <= i < j ==> SchemaField(columns[i].0, columns[i].1).Ok?
  }

  /** The schema of the columns, in column order; the first unknown type raises KeyError. */
  function Schema(columns: seq<(string, string)>): (r: Result<seq<(string, string)>>)
    ensures r.Ok? <==> forall i :: 0 <= i < |columns| ==> SchemaField(columns[i].0, columns[i].1).Ok?
    ensures r.Ok? ==> |r.value| == |columns|
    ensures r.Ok? ==> forall i :: 0 <= i < |columns| ==>
      (columns[i].1 == "geometry" ==> r.value[i] == ("WKT", "STRING"))
      && (columns[i].1 != "geometry" ==> r.value[i] == (columns[i].0, Dtype2Sql(columns[i].1).value))
    ensures r.Err? ==> exists j :: FirstUnknown(columns, j) && r.error == KeyError(columns[j].1)
  {
    if columns == [] then Ok([])
    else
      var init := columns[..|columns| - 1];
      var last := columns[|columns| - 1];
      var r0 := Schema(init);
      assert forall i :: 0 <= i < |init| ==> init[i] == columns[i];
      if r0.Err? then r0
      else
        match SchemaField(last.0, last.1)
        case Err(e) => Err(e)
        case Ok(f) => Ok(r0.value + [f])
  }

  /** The schema loop: append each column's field in turn. */
  method SchemaFields(columns: seq<(string, string)>) returns (r: Result<seq<(string, string)>>)
    ensures r == Schema(columns)
  {
    var schemaFields: seq<(string, string)> := [];
    for i := 0 to |columns|
      invariant Schema(columns[..i]) == Ok(schemaFields)
    {
      assert columns[..i + 1][..i] == columns[..i];
      var (column, dtype) := columns[i];
      if dtype == "geometry" {
        schemaFields := schemaFields + [("WKT", "STRING")];
      } else {
        var sql := Dtype2Sql(dtype);
        if sql.None? {
          SchemaStaysFailed(columns, i + 1);
          assert columns[..|columns|] == columns;
          return Err(KeyError(dtype));
        }
        schemaFields := schemaFields + [(column, sql.value)];
      }
    }
    assert columns[..|columns|] == columns;
    r := Ok(schemaFields);
  }

  /** Once a prefix of the columns fails, every longer prefix fails the same way. */
  lemma {:induction false} SchemaStaysFailed(columns: seq<(string, string)>, i: nat)
    requires 1 <= i <= |columns| && Schema(columns[..i]).Err?
    ensures Schema(columns) == Schema(columns[..i])
    decreases |columns| - i
  {
    if i < |columns| {
      assert columns[..i + 1][..i] == columns[..i];
      SchemaStaysFailed(columns, i + 1);
    } else {
      assert columns[..i] == columns;
    }
  }

  /** `max(min(cpus, rows), ceil(rows / 10**6))`: enough batches for the processors, and none over a million rows. */
  function BatchCount(cpus: nat, rows: nat): (r: int)
    ensures r >= CeilDiv(rows, 1_000_000) && r >= Min(cpus, rows)
    ensures r == CeilDiv(rows, 1_000_000) || r == Min(cpus, rows)
    ensures rows >= 1 && cpus >= 1 ==> r >= 1
  {
    var byCpu := Min(cpus, rows);
    var bySize := CeilDiv(rows, 1_000_000);
    if byCpu >= bySize then byCpu else bySize
  }

  /**
   * The batch count is taken from `counted` rows, while the rows split into
   * that many batches are those `kept` after rows without a geometry are
   * dropped. Each batch then holds at most a million rows, and at least
   * one when no row was dropped.
   */
  lemma BatchesFit<T>(kept: seq<T>, counted: nat, cpus: nat, i: nat)
    requires |kept| <= counted && counted >= 1 && cpus >= 1
    requires i < BatchCount(cpus, counted)
    ensures |ArraySplit(kept, BatchCount(cpus, counted))[i]| <= 1_000_000
    ensures |kept| == counted ==> 1 <= |ArraySplit(kept, BatchCount(cpus, counted))[i]|
  {
    var n, k := |kept|, BatchCount(cpus, counted);
    var c := CeilDiv(counted, 1_000_000);
    SectionBounds(counted, 1_000_000);
    assert c <= k <= counted;
    MulLe(c, k, 1_000_000);
    CeilBound(n, k, 1_000_000);
    if n == counted {
      DivAtLeastOne(n, k);
    }
  }

  /**
   * Eight processors and eight counted rows give eight batches; when one
   * row has no geometry, the seven kept rows leave the last batch empty.
   */
  lemma EmptyBatchAfterFilter<T>(kept: seq<T>)
    requires |kept| == 7
    ensures BatchCount(8, 8) == 8
    ensures ArraySplit(kept, BatchCount(8, 8))[7] == []
  {
    assert CeilDiv(8, 1_000_000) == 1;
  }

  lemma DivAtLeastOne(n: nat, k: nat)
    requires 1 <= k <= n
    ensures n / k >= 1
  {
  }

  /** With `n <= k * b`, no part of a balanced split into k parts exceeds b. */
  lemma CeilBound(n: nat, k: nat, b: nat)
    requires k >= 1 && n <= k * b
    ensures n / k + (if n % k == 0 then 0 else 1) <= b
  {
    var q, r := n / k, n % k;
    assert n == k * q + r;
    if q > b {
      MulLe(b + 1, q, k);
      assert false;
    }
    if q == b && r > 0 {
      assert false;
    }
  }

  lemma MulLe(a: nat, b: nat, c: nat)
    requires a <= b
    ensures a * c <= b * c
  {
  }
}
