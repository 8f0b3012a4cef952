# hexpop in Dafny

hexpop collects Helium network coverage for H3 hexes and publishes it in a
BigQuery warehouse. The warehouse, HTTP and geodata glue is left out of this
model. What it keeps are the sequential rules underneath that glue:

- **Cursor pagination of the hotspot listing.** This covers `coverexp.py`,
  `blockhex.py` and `blockcache.py`. It is modelled by the modules `Helium`,
  `CoverExp`, `BlockHex`, `BlockCache` and `Order`.
  - The first request uses the bare URL.
  - Each later request carries the previous page's cursor.
  - The sweep stops at the first page without a cursor (or when the given pages run out).
  - Every truthy `location_hex` is collected into a set.
  - The set is written as a sorted list and read back under the cache's age rule.
- **The per-hex coverage scans and their batch driver.** This covers
  `covermap.py` and `coverage.py`. It is modelled by the modules `CoverMap`,
  `Coverage` and `Driver`.
  - A scan is an OR over the neighbour ring that stops at the first covering answer.
  - Each script has its own HTTP status policy.
  - The expire filter and the `retain` count come first.
  - The work list is the additions, then the refresh rows.
  - The work list is cut into `ceil(n / batch_size)` balanced parts by `numpy.array_split`.
  - A `processed` counter tracks the work done.
- **The fixed-width parser of the Statoids county table**
  (`statoids.py`, module `Statoids`).
- **The naming, schema and configuration helpers.** This covers `public.py`,
  `hexpop.py`, `views.py` and `summarize.py`. It is modelled by the modules
  `Public`, `Hexpop`, `Views` and `Summarize`.

`Base` holds the shared vocabulary:
- `Option`, `Result` and the error kinds;
- Python's `str.strip`, `replace`, `split`, `join`, `splitlines` and slicing;
- a mutable list of strings (`StringList`), used where the source appends to a caller's list.

### Inputs

Everything outside the program is an input:
- the pages of a listing (`seq<Payload>`);
- the answers of a ring (`string -> seq<Probe>`);
- the clock (`now`, integer seconds);
- the local cache (`map<string, CacheFile>`);
- the contents of an ini file;
- the warehouse's table listing.

A result `Err(e)` means the call raises `e`.

### How the model is written

Where the source updates state step by step, the model is imperative:
- the pagination and collection loops;
- the ring scans with their early `break`;
- the batch loops with their counters;
- the in-place sort of the refresh rows, on an `array`;
- the record loop of the county parser;
- the schema loop;
- the logger and table objects, as classes.

Each loop is proved against a function of its inputs. Properties relating
several calls are separate lemmas.

`numpy.array_split` makes balanced parts, not fixed-size chunks: the first
`n mod k` parts get one extra element. So 2500 rows at batch size 1000 come
out as 834, 833 and 833 (`Driver.Split2500`), not as 1000, 1000 and 500. The
model follows the code.

## Model

| member | source | states |
|---|---|---|
| Base.StripInfix | statoids.py:16 | `strip()` keeps the infix between the leading and trailing blanks, and that infix starts and ends with a non-blank |
| Base.StripIdempotent | hexpop.py:116 | stripping twice is stripping once |
| Base.StripPadded | statoids.py:16 | a blank-free token followed only by padding strips back to the token |
| Base.StripEmpty | statoids.py:36 | a line strips to `''` exactly when all of its characters are whitespace |
| Base.ReplaceChar | hexpop.py:199 | same length; exactly the positions holding the old character get the new one, and no other position changes |
| Base.RemoveChar | statoids.py:40 | no occurrence of the character is left, every other character keeps its count, and a one-character text is dropped exactly when it is that character |
| Base.RemoveCharAppend | statoids.py:40 | removing from a concatenation is concatenating the removals, so the kept characters stay in their order |
| Base.ReplaceAllKeepsAbsent | statoids.py:31 | a replacement never introduces a character absent from both the text and the replacement |
| Base.ReplaceAllAround | statoids.py:31 | when `pat` first occurs right after `a`, in `a + pat + b`, that occurrence becomes `rep` in place and the text on either side is replaced on its own |
| Base.ReplaceAllWhole | statoids.py:31 | `'2010 pop.'.replace('2010 pop.', r)` is `r` |
| Base.Split | statoids.py:27 | `split(sep)` gives at least one part, no part holds the separator, and joining the parts gives the text back |
| Base.SplitJoin | views.py:197 | splitting a join of separator-free parts gives the parts back |
| Base.IndexOfAfter | statoids.py:27 | the first separator of `a + sep + b` is at the length of `a` when `a` has none |
| Base.LineEnd | public.py:67 | a line ends at the first line break, and no break comes before it |
| Base.SplitLines | public.py:67 | no line of `splitlines()` holds a line break, and a non-empty text without a break is one line |
| Base.SplitLinesCons | public.py:67 | a break-free line followed by `\n` is split off in front of the lines of the rest |
| Base.SplitLinesUnixText | public.py:67 | the break-free lines of a text that ends each of them with `\n` come back exactly, in order, empty lines included |
| Base.AfterLast | public.py:143 | the text after the last occurrence of the character: holds none, is a suffix, and the character precedes it |
| Base.BeforeFirst | public.py:146 | the text before the first occurrence of the character: holds none, is a prefix, and the character follows it |
| Base.PySlice | statoids.py:16 | for a non-negative start, item k of `s[start:stop]` is item `start + k` of `s`; for non-negative bounds its length is the stop clamped to the length, minus the start, or 0 when the slice is empty |
| Base.StringList.Append | views.py:196 | the caller's list gains the element at its end, and nothing else changes |
| Order.LessIrreflexive | blockhex.py:90 | no string is below itself in Python's code-point order |
| Order.LessAsymmetric | blockhex.py:90 | the order is asymmetric |
| Order.LessTransitive | blockhex.py:90 | the order is transitive |
| Order.LessTotal | blockhex.py:90 | any two distinct strings are ordered one way or the other |
| Order.Insert | blockhex.py:90 | inserting into a sorted list keeps it sorted and adds exactly that element |
| Order.Sort | blockhex.py:90 | `sorted` gives a non-decreasing rearrangement of its input |
| Order.SortedDistinctIncreasing | blockhex.py:90 | a sorted list with no duplicates is strictly increasing |
| Order.PermutationDistinct | blockhex.py:90 | a rearrangement of a duplicate-free list is duplicate-free |
| Order.IncreasingUnique | blockhex.py:90 | two strictly increasing lists with the same elements are equal |
| Order.SameElementsEmpty | blockhex.py:90 | lists with the same elements are empty together |
| Order.ListOfSet | blockcache.py:52 | `list(hex_set)` has the set's elements, each once |
| Order.SortedList | blockhex.py:90 | `sorted(list(hex_set))` is strictly increasing, has exactly the set's elements and has the set's size |
| Order.ElementsSize | blockhex.py:58 | `set(lst)` has no more elements than the list, and exactly as many for a list without duplicates |
| Helium.CursorUrl | coverexp.py:24-27 | the listing URL is requested bare exactly when the cursor is empty, and otherwise with `?cursor=` appended |
| Helium.CursorUrlRoundTrip | coverexp.py:24-25 | the cursor can be read back from the URL it produced, so distinct cursors request distinct URLs |
| Helium.NextCursor | coverexp.py:39-42 | the page's cursor when it has one, `''` when the key is missing |
| Helium.PagesHexesMembership | coverexp.py:103-105 | a hex is in the sweep's set exactly when some hotspot of some page has it as a truthy `location_hex` |
| Helium.PageHexesBound | coverexp.py:103-105 | a page of n hotspots adds at most n hexes |
| Helium.HexesBound | coverexp.py:102-105 | `len(hex_set) <= total_hotspots` after any number of pages |
| Helium.AddPage | coverexp.py:102-105 | one step of the main loop: the count grows by the page length, and the set grows by the page's truthy hexes |
| Helium.PagesStep | coverexp.py:101-105 | folding one more page extends the set and the count by that page |
| Helium.SweepLength | coverexp.py:36-42 | a non-empty run of pages takes at least one page; every page before the last taken has a cursor; the sweep stops at the first page without one, or when the pages run out |
| Helium.SweepLengthIs | coverexp.py:36-42 | the sweep length is exactly the first page without a cursor, counted from 1 |
| Helium.SweepExact | coverexp.py:36-43 | when only the Nth of N pages lacks a cursor, exactly N pages are fetched |
| CoverExp.FetchHotspots | coverexp.py:32-43 | the pages yielded are those of the sweep; the first request is the bare URL; each later one carries the previous page's cursor |
| CoverExp.CollectHexes | coverexp.py:99-105 | the main loop's set is the sweep's set of truthy hexes, its count is the sweep's hotspot total, and the set is no larger than the count |
| CoverExp.LoadExplorerCoverage | coverexp.py:57-61 | one row per hex of the set, in strictly ascending order, each marked covered and stamped with the same time |
| CoverExp.MinTime | coverexp.py:82-83 | `min(update_time)` is a lower bound of the column and is attained |
| CoverExp.QueryExplorerCoverage | coverexp.py:75-83 | a missing result gives (empty set, 0); an empty frame fails in `min`; otherwise exactly the covered rows' hexes and the least update time |
| CoverExp.LoadEmpty | coverexp.py:59 | a load writes no rows exactly when the set is empty |
| CoverExp.LoadThenQuery | coverexp.py:57-61 | reading back a load gives the loaded set and its timestamp, or fails in `min` for an empty set |
| BlockHex.FetchHotspots | blockhex.py:26-38 | the requested URL follows the cursor rule; the new cursor is `''` when the payload has none; the `data` list is unchanged |
| BlockHex.DumpHexCache | blockhex.py:41-45 | the cache file holds the list, stamped with the time of the write; no other file changes |
| BlockHex.LoadHexCache | blockhex.py:48-69 | a missing file gives (empty, 0); a file younger than the maximum age gives its contents and mtime; an older one gives the empty set with its mtime |
| BlockHex.LoadAfterDump | blockhex.py:48-60 | a dump read back within its age (always, with the default infinite age) gives exactly the dumped set and the dump's time |
| BlockHex.LoadAfterExpiry | blockhex.py:61-66 | a dump read back at or past its age gives the empty set, still stamped with the dump's time |
| BlockHex.DumpReloadStable | blockhex.py:90 | re-sorting a reloaded sorted dump gives the same list |
| BlockHex.BuildCache | blockhex.py:76-90 | the main program: the URLs follow the cursor chain; the dumped list is strictly increasing and holds exactly the sweep's hexes; the count is the sweep's hotspot total |
| BlockHex.DatasStep | blockhex.py:82-86 | one more page extends the set and the count by that page |
| BlockCache.FetchHotspotsStrict | blockcache.py:22-30 | a payload without `cursor` raises KeyError; otherwise the URL, the cursor and the `data` list |
| BlockCache.StrictAgreesWithLenient | blockcache.py:30 | on a payload with a cursor, the strict fetch agrees with blockhex.py's fetch with fallback |
| BlockCache.SinglePass | blockcache.py:36-59 | one request to the bare URL only. A page without a cursor raises and writes nothing. Otherwise the file holds the page's truthy hexes, strictly increasing, and the count is the page length |
| Driver.CeilDiv | covermap.py:216 | `math.ceil(n / b)`: the least r with `n <= r * b` for positive b, at least 1 when n is; not positive for negative b |
| Driver.Sections | covermap.py:215-216 | a zero batch size raises ZeroDivisionError; a section count below 1 makes `array_split` raise; otherwise the ceiling |
| Driver.StartStep | covermap.py:215-216 | part i of `array_split` is one longer than `n / k` exactly when `i < n % k` |
| Driver.StartBounds | covermap.py:215-216 | every part boundary lies within the list, and the last one is its end |
| Driver.StartMono | covermap.py:215-216 | the part boundaries never decrease |
| Driver.Part | covermap.py:215-216 | part i has `n / k + 1` elements when `i < n % k`, else `n / k` |
| Driver.ArraySplit | covermap.py:215-216 | `array_split(xs, k)` gives k parts with the balanced sizes |
| Driver.ArraySplitPrefix | covermap.py:215-216 | the first j parts concatenated are the list up to the jth boundary |
| Driver.ArraySplitConcat | covermap.py:215-216 | the parts concatenated give the list back, in order |
| Driver.ArraySplitBalanced | covermap.py:215-216 | any two parts differ in size by at most one |
| Driver.BatchSizeBound | covermap.py:215-216 | with `ceil(n / b)` parts, each part has between 1 and b elements |
| Driver.SectionBounds | covermap.py:216 | `ceil(n / b)` lies in 1..n, and the largest part is at most b |
| Driver.Split2500 | covermap.py:215-216 | 2500 rows at batch size 1000 give 3 parts of 834, 833 and 833 |
| Driver.KeepExpired | covermap.py:195-196 | exactly the rows with `update_time <= cutoff` survive the filter, each at most the cutoff; a single row survives exactly when it is not newer than the cutoff |
| Driver.KeepExpiredAppend | covermap.py:195-196 | filtering a concatenation is concatenating the filtered parts, so the kept rows keep their order |
| Driver.KeepPlusFresh | covermap.py:191-197 | kept rows plus dropped rows is the original count, so `retain` counts the dropped ones |
| Driver.KeepExpiredIdempotent | covermap.py:195-196 | filtering twice is filtering once |
| Driver.ExpirationDate | covermap.py:193-194 | the intended cutoff is `expire` days before the UTC now, and not after it for a non-negative `expire` |
| Driver.ExpirationDateAsWritten | covermap.py:193-194 | the cutoff as written is the intended one shifted by the host's UTC offset |
| Driver.ExpirationDateOffByZone | covermap.py:193-196 | one hour ahead of UTC, a row updated 23.5 hours ago is refetched with `expire = 1`; the intended cutoff keeps it out |
| Driver.SelectRefresh | covermap.py:190-197 | with `expire` unset or 0 nothing is filtered and `retain` is 0; otherwise the rows kept by the intended UTC cutoff and the count dropped, which sum to the original count |
| Driver.WorkList | covermap.py:205-206 | the additions, then the refresh rows' hexes, in order |
| Driver.SortByTime | covermap.py:198 | `sort_values(by=['update_time'], inplace=True)` leaves the rows in ascending time, as a rearrangement of the same rows |
| Driver.SinkInto | covermap.py:198 | one pass of the sort: with the first i rows in ascending time, afterwards the first i + 1 are, and the rows are a rearrangement of the same rows |
| Driver.Swap | covermap.py:198 | an exchange of two rows that changes nothing else and keeps the multiset |
| Driver.RegionsToRun | covermap.py:173-175 | the regions the loop runs are the listed ones except `gadm`; a single region runs exactly when it is not `gadm` |
| Driver.RegionsToRunAppend | covermap.py:173-175 | the regions of a concatenated list run in the order of the two parts |
| CoverMap.StopAt | covermap.py:75-90 | the scan stops at the first answer that covers or raises, and every answer before it does neither |
| CoverMap.UplinkOutcomeMeaning | covermap.py:69-91 | covered, with the input index and the fetch time, exactly when a 200 with uplinks comes before any raising status; raises exactly when a raising status comes first |
| CoverMap.Status500Continues | covermap.py:82-86 | a 500 answer is read as no coverage and the scan goes on |
| CoverMap.QuietStatusContinues | covermap.py:87-88 | a status below 400 other than 200 does not raise and the scan goes on |
| CoverMap.FetchUplinks | covermap.py:69-91 | the result is the outcome above; the URLs requested are the ring's, in order, up to and including the one where the scan stops |
| CoverMap.RowsMatchAppend | covermap.py:96-98 | results for two runs of hexes concatenate to the results for their concatenation |
| CoverMap.FetchMappers | covermap.py:94-98 | one row per input hex, in input order, when no fetch raises; otherwise the error of some hex's fetch |
| CoverMap.FetchBatches | covermap.py:213-224 | `processed` counts the loaded rows, which match a prefix of the work list made of whole batches: the first j parts of `array_split(work, ceil(n / batch_size))`; it ends at n when every fetch succeeds; a failure means a bad batch size (nothing loaded) or a raising fetch |
| CoverMap.PartSlice | covermap.py:215-216 | batch j is the slice of the work list between its boundaries |
| CoverMap.FailedBatch | covermap.py:219 | a raising fetch in one batch is a raising fetch in the whole work list |
| CoverMap.RunRegion | covermap.py:190-224 | one region: refresh rows filtered by the intended cutoff, counted and time-sorted; the work list; nothing fetched under `--analyze` or for an empty list; then the batch loop's guarantees, the loaded rows being whole batches |
| Coverage.StopAt | coverage.py:109-116 | the ring scan stops at the first answer that raises or has uplinks, and every answer before it does neither |
| Coverage.StopAtMeaning | coverage.py:109-116 | the scan stops on uplinks exactly when uplinks come before any error, and on an error exactly when an error comes first |
| Coverage.CoverageOutcomeMeaning | coverage.py:93-122 | the explorer flag is a non-empty `data` list; the mappers flag is uplinks before any error; a disabled source gives False; any error status of an enabled source raises |
| Coverage.Status500Fails | coverage.py:127 | with `raise_for_status=True`, a 500 from the ring fails the fetch: there is no special case for 500 |
| Coverage.ScanRing | coverage.py:105-116 | the ring loop requests the ring URLs in order up to the answer where the scan stops; it raises that answer's error status, or reports whether it stopped on uplinks |
| Coverage.FetchCoverage | coverage.py:93-122 | the result is the outcome above; the explorer URL is requested first when enabled, then the ring URLs up to the one where the scan stops |
| Coverage.RowsMatchAppend | coverage.py:128-129 | results for two runs of hexes concatenate to the results for their concatenation |
| Coverage.FetchCoverages | coverage.py:125-129 | one row per input hex, in input order, when no fetch raises; otherwise the error of some hex's fetch |
| Coverage.InsertRegion | coverage.py:204 | each output row gets the region as its second column and otherwise keeps its values |
| Coverage.InsertRegionAppend | coverage.py:204 | inserting the region commutes with concatenating batches |
| Coverage.FetchBatches | coverage.py:192-209 | `processed` counts the loaded rows, region-tagged and matching a prefix of the work list made of whole batches of `array_split`; it ends at n when every fetch succeeds; a failure means a bad batch size (nothing loaded) or a raising fetch |
| Coverage.PartSlice | coverage.py:194-195 | batch j is the slice of the work list between its boundaries |
| Coverage.FailedBatch | coverage.py:198 | a raising fetch in one batch is a raising fetch in the whole work list |
| Coverage.RunRegion | coverage.py:170-209 | one region: the refresh rows filtered by the intended cutoff (unsorted here) and `retain`; the work list; nothing fetched under `--analyze` or for an empty list; then the batch loop's guarantees, the loaded rows being whole batches |
| Statoids.Slices | statoids.py:16-18 | one slice per width |
| Statoids.SlicesAt | statoids.py:16-18 | slice i starts at the sum of the widths before it |
| Statoids.String2Fields | statoids.py:14-18 | exactly `len(lengths)` fields, none longer than its slice |
| Statoids.FieldAt | statoids.py:16-18 | field i is `s[p:p + lengths[i]].strip()`, where p is the sum of the earlier widths |
| Statoids.FieldPastEnd | statoids.py:16 | a field that starts past the line's end is `''` |
| Statoids.ColumnWidths | statoids.py:26-28 | one width per space-separated token of the underline, each the token's length plus one, with the last width forced to 99 |
| Statoids.UnderlineRoundTrip | statoids.py:26-28 | slicing the underline row by its own widths gives back its tokens |
| Statoids.TokensRoundTrip | statoids.py:14-18 | whitespace-free tokens joined by blanks and cut with widths one longer than each token (the last wide enough) give the tokens back |
| Statoids.JoinSlices | statoids.py:16-18 | slicing space-joined tokens by their lengths plus one gives each token with its blank, and the last token alone |
| Statoids.SlicesShift | statoids.py:16-18 | slicing after a prefix is slicing the rest |
| Statoids.NormaliseKeyNoHyphen | statoids.py:31 | no key holds a `-` |
| Statoids.NormalisePopulation | statoids.py:31 | the header `2010 pop.` becomes the key `Pop_2010` |
| Statoids.NormaliseKeyAround | statoids.py:31 | in a hyphen-free header field, the first `2010 pop.` becomes `Pop_2010` in place and the text around it is normalised on its own |
| Statoids.ZipMapMeaning | statoids.py:39-40 | the record's keys are the first n keys, and each maps to the value at the last position holding that key, as a dict built left to right keeps it |
| Statoids.Uncomma | statoids.py:40 | one value per field |
| Statoids.Keys | statoids.py:29-33 | one key per column, each the normalised header field, and none holding a `-` |
| Statoids.SkipLineMeaning | statoids.py:36-37 | a line is skipped exactly when it is all whitespace or strips to the header or the underline as they stand; a header line with padding of its own is not skipped |
| Statoids.RecordsAppend | statoids.py:35-41 | the records of two runs of lines concatenate, so the records keep line order |
| Statoids.RecordsOne | statoids.py:35-41 | one line gives its record, or nothing when it is skipped |
| Statoids.CountyRecords | statoids.py:21-41 | fewer than three lines raise IndexError; otherwise one record per line that is not skipped, each keyed by table keys with comma-free values |
| Statoids.RecordsCount | statoids.py:35-41 | every line that is not blank, the header or the underline yields exactly one record |
| Statoids.RecordCommaFree | statoids.py:39-40 | every stored key is one of the table keys, and no stored value holds a comma |
| Statoids.RecordsShape | statoids.py:34-41 | every record's keys are table keys, and none of its values holds a comma |
| Statoids.RecordsStep | statoids.py:35-41 | one more line adds its record unless it is skipped |
| Statoids.RecordOfLine | statoids.py:38-40 | the inner loop builds the record of the line |
| Statoids.ZipUncomma | statoids.py:39-40 | the loop over `zip(keys, fields)` stores each key with its field, commas removed, a later equal key overwriting an earlier one |
| Statoids.UsaCounties | statoids.py:21-41 | a table of fewer than three lines raises IndexError; otherwise the records of the table's lines |
| Public.IniGet | public.py:52 | `ini.get`: NoSectionError for a missing section, NoOptionError for a missing option, else the value |
| Public.NonEmptyStripped | public.py:66-67 | every kept line is stripped and non-empty, the kept lines are exactly the non-empty stripped lines, and one line is kept, stripped, exactly when it is not blank |
| Public.NonEmptyStrippedAppend | public.py:66-67 | cleaning a concatenation is concatenating the cleaned parts, so the kept lines keep their order and multiplicity |
| Public.NonEmptyStrippedKeeps | public.py:66-67 | a list of non-empty stripped lines is kept whole and in order |
| Public.NonEmptyStrippedIdempotent | public.py:66-67 | filtering twice is filtering once |
| Public.DropColumns | public.py:64-69 | every column name to drop is non-empty, stripped and free of line breaks |
| Public.DropColumnsOfLines | public.py:64-69 | an option written one name per line gives those names stripped, in order, with blank lines dropped |
| Public.ParseIniAsWritten | public.py:46-71 | a missing section raises NoSectionError from the description read, so the program never exits through `sys.exit` |
| Public.ParseIni | public.py:51-70 | a missing section exits; a missing `path` or `recast_query` raises; otherwise each option as read, with None or `[]` for the optional ones |
| Public.ParseIniAgrees | public.py:51-59 | both readings agree on every ini that has the section, and differ only in how a missing section fails |
| Public.ParseIniMissingSection | public.py:51-59 | for an empty ini, the code as written raises NoSectionError where the exit was intended |
| Public.GdLocal | public.py:143 | the text after the last `/`: a suffix of the path with no `/`, the whole path when it has none |
| Public.GdName | public.py:146 | the text before the first `.`, the whole name when it has none |
| Public.PathNames | public.py:143-146 | `dir/name.ext` gives the local file `name.ext` and the name `name` |
| Public.ReadRows | public.py:84-90 | `test_rows == 0` reads all rows; otherwise the slice `[start, start + test_rows)`: exactly it inside the file, the rest of the file when it runs past the end, nothing when it starts past the end |
| Public.Dtype2Sql | public.py:157-162 | a table type exactly for the four column types the loader knows |
| Public.Dtype2SqlInjective | public.py:157-162 | distinct known column types get distinct table types |
| Public.SchemaField | public.py:163-168 | a field exactly for a known type, else KeyError of the type; other columns keep their name; geometry is stored as a `STRING`, so no field has type `GEOGRAPHY` |
| Public.Schema | public.py:163-168 | one field per column, in order, when every dtype is known: geometry gives `('WKT', 'STRING')`, others their SQL type; otherwise KeyError for the first unknown dtype |
| Public.SchemaFields | public.py:163-169 | the loop builds that schema, or stops with that KeyError |
| Public.SchemaStaysFailed | public.py:168 | once a column fails the lookup, the whole schema fails with that error |
| Public.BatchCount | public.py:176-177 | at least the million-row ceiling, at least `min(cpus, rows)`, equal to one of them, and at least 1 when both are positive |
| Public.BatchesFit | public.py:150-182 | the batch count comes from the rows counted before the null-geometry filter and the split from the rows it keeps: each batch holds at most a million rows, and at least one when no row was dropped |
| Public.EmptyBatchAfterFilter | public.py:150-182 | eight processors and eight counted rows give eight batches; with one row dropped, the last batch is empty |
| Hexpop.DatasetIdSplits | hexpop.py:95-97 | the dataset id of period-free parts splits back into the project and the dataset name, `_test` included for a test dataset |
| Hexpop.TableId | hexpop.py:129 | `project.dataset.table` |
| Hexpop.TableIdSplits | hexpop.py:153 | period-free parts split back out of the id |
| Hexpop.FullId | hexpop.py:197-199 | every `:` becomes `.`, and nothing else changes |
| Hexpop.FullIdOfTable | hexpop.py:197-199 | the warehouse's `project:dataset.table` becomes the period-joined id |
| Hexpop.FullIdIdempotent | hexpop.py:197-199 | fixing twice is fixing once |
| Hexpop.TmpId | hexpop.py:202-204 | the id, `_`, then the clock text character by character, each `.` as `_` and every other character kept |
| Hexpop.TmpIdParts | hexpop.py:202-204 | a period-free clock text is appended unchanged |
| Hexpop.FormSchema | hexpop.py:114-116 | one field per input, in order, with stripped name and type |
| Hexpop.FormSchemaIdempotent | hexpop.py:114-116 | forming a formed schema changes nothing |
| Hexpop.RegionalTables | hexpop.py:68-71 | the ids of exactly the listed entries of type TABLE; a single entry gives its id exactly when it is a table |
| Hexpop.RegionalTablesAppend | hexpop.py:68-71 | the tables of a concatenated listing come in listing order |
| Hexpop.UnknownRegions | hexpop.py:74-77 | the warnings name exactly the requested regions that have no table, and there are none exactly when all have one |
| Hexpop.CleanRegions | hexpop.py:62-78 | `all` gives every regional table; otherwise the input unchanged, with a warning for each unknown region |
| Hexpop.CleanKnownRegions | hexpop.py:72-78 | known regions pass unchanged and without warnings |
| Hexpop.Lower | hexpop.py:20 | ASCII capitals become lower case, every other character is kept, and no ASCII capital is left |
| Hexpop.LowerIdempotent | hexpop.py:20 | lower-casing twice is lower-casing once |
| Hexpop.SyslogPath | hexpop.py:20-25 | `/dev/log` on Linux, `/var/run/syslog` on macOS, `/dev/null` exactly when neither name appears |
| Hexpop.Logger.Initialize | hexpop.py:18-52 | a clean slate at DEBUG, then console at the verbosity's level, a rotating file (1 MB, 5 backups) at INFO, and syslog at WARN |
| Hexpop.Table.constructor | hexpop.py:132 | a table with its id and schema and nothing else set |
| Hexpop.CreateTable | hexpop.py:128-143 | the id is `project.dataset.table`; partitioned only with a field, hourly or daily as asked; clustered and described only when given and non-empty |
| Views.NameIdSplits | views.py:194-197 | a name splits back into its underscore-free parts and suffix |
| Views.CreateId | views.py:194-197 | a non-empty suffix is appended to the caller's list, and the id is the joined list |
| Views.DivViewId | views.py:261-265 | `div/region/by/admin` with blanks in the admin name as `_`, and `geo` appended when the geometry is included |
| Views.LoopViewIds | views.py:246-301 | the loop's names come in threes |
| Views.LoopViewCount | views.py:246-301 | three views for each region except `gadm`, and none for `gadm` |
| Views.OnlyGadm | views.py:247-248 | a list holding only `gadm` gives no region views |
| Views.DivViewSuffix | views.py:280-284 | including the geometry only appends `_geo` to a division view's name |
| Views.JoinWithLast | views.py:197 | joining with one more part appends `_` and that part |
| Views.CreateRegionViews | views.py:250-284 | one region's views in creation order: the coverage view, then the division-1 and division-2 views, each built on a fresh list |
| Views.RegionLoop | views.py:246-301 | the loop, with fresh lists built in place, creates exactly the loop's names in order |
| Views.MainViewIds | views.py:218-315 | the three fixed views, the loop's views, and the two summary views, in creation order |
| Summarize.NameTable | summarize.py:154-157 | the same naming rule as the views, appending a non-empty suffix to the caller's list |
| Summarize.Geography | summarize.py:168-173 | the `--geography` switch gives no comment markers and the `geo` suffix, or the markers and no suffix |
| Summarize.RegionTables | summarize.py:185-226 | the coverage table, then the division-1 and division-2 tables when those divisions are asked for |
| Summarize.LoopBuildsRegion | summarize.py:175-205 | every listed region except `gadm` gets its coverage table, and its division-1 table when division 1 is asked for |
| Summarize.LoopTablesCount | summarize.py:175-226 | each region except `gadm` gets one table plus one per asked-for division among 1 and 2 |
| Summarize.LoopTablesFrom | summarize.py:175-226 | every table of the loop belongs to a listed region other than `gadm` |
| Summarize.ComboInputsBuilt | summarize.py:79-86 | with the intended gate, the USA and Canada division-1 tables the combined query reads are built in the same run |
| Summarize.ComboGateMeaning | summarize.py:243-244 | the intended combined gate opens exactly for division 1 with `usa` and `canada` requested |
| Summarize.ComboGateAsWrittenMeaning | summarize.py:243-244 | the combined gate as written opens exactly for division 1 with `usa` and `europe` requested |
| Summarize.CountryGateMeaning | summarize.py:255-256 | the global gate opens exactly for division 0 with `europe` requested |
| Summarize.ComboGateAsWrittenWithoutCanada | summarize.py:243-244 | as written, asking for `usa` and `europe` at division 1 opens the combined gate though no Canada table is built; the intended gate stays shut |
| Summarize.ComboGateAsWrittenMissesCanada | summarize.py:243-244 | `usa` and `canada` at division 1 open the intended gate but leave the gate as written shut |
| Summarize.CreateRegionTables | summarize.py:185-226 | the loop body for one region creates that region's tables in order |
| Summarize.SummaryTables | summarize.py:175-262 | the run cleans the requested regions against the table listing, creates the loop's tables for them, then the combined table under the intended gate, then the global table when division 0 and `europe` are asked for |

## Left out

- HTTP requests and JSON decoding: pages and answers are inputs. For a listing page only the `data` list and the `cursor` key are kept. For an answer only the status and the length of `uplinks` or `data` are kept.
- Tenacity's retry and backoff: an `Err` result is the attempt that raises. The retries themselves are unbounded and depend on the clock.
- `asyncio.gather`: modelled as a sequential map that keeps the input order.
- The token-bucket rate limiter and its `time.sleep` calls in covermap.py.
- The h3 calls `k_ring` and `h3_to_center_child`: each hex's neighbour ring is an input.
- BigQuery, for these reasons:
  - Client calls, SQL text, views and queries are left out.
  - `bq_create_table`'s deletion of an old table, and its fallback to the existing table on a conflict, are client calls.
  - The ADDITIONS and REFRESH queries are inputs: the additions hexes and the refresh rows.
  - `query_*_coverage(hexset=False)`, which returns the frame itself, is not modelled.
  - `bq_query_table`'s `None` result, which makes `.to_dataframe()` raise AttributeError, is the `None` input of `CoverExp.QueryExplorerCoverage`.
- geopandas and pandas, for these reasons:
  - File reading, the CRS conversion, WKT encoding, `drop(columns=…)` and `to_numeric` are left out. The `notnull` filter enters only as the list of rows it keeps.
  - The frame's columns enter the schema loop as (name, dtype) pairs.
  - The column insert of coverage.py is the value function `Coverage.InsertRegion`, not an in-place update.
- The multiprocessing pool of public.py and its worker naming. The batches the pool gets are still modelled, by `Public.BatchesFit`: the rows counted and the rows kept by the null-geometry filter are separate inputs, the kept ones no more than the counted ones.
- Driver.SortByTime: the rows are sorted by an insertion sort. Pandas' choice of order among rows with equal times is not modelled.
- blockcache.py's `hex_list.sort()`: modelled on values, as `Order.SortedList`, not as an in-place sort of a list.
- Time:
  - Times are integer seconds; the floats of `time.time()` and `getmtime` are not modelled.
  - `float('inf')` is a maximum age of `None`.
  - `datetime.fromtimestamp(0)` is 0.
  - Each run takes one `now` as an input.
  - Hexpop.TmpId takes `str(time.time())` as an input text.
- Throughput and elapsed-time logging, log text, and argparse definitions.
- `hexpop.CACHE_DIR` is used by blockhex.py and blockcache.py but is not defined in hexpop.py: the cache path is a parameter.
- Hexpop.Logger.Initialize takes the main script's stem and the platform string as inputs. Handlers are values, not objects.
- The statoids.py web request, the HTML `<pre>` extraction and the `\r\n` split: the table's lines are the input.
- Strings, for these reasons:
  - `strip()` uses the whitespace of `Base.IsSpace`: the ASCII blanks, U+001C to U+001F, U+0085 and U+00A0. Other Unicode spaces, among them U+2028 and U+2029, are not stripped.
  - `splitlines()` breaks at the characters of `Base.IsLineBreak`, U+0085, U+2028 and U+2029 among them.
  - Hexpop.Lower folds ASCII letters only.
- configparser: the ini is a map from sections to options. The DEFAULT section, interpolation and file reading are not modelled.
- `geopop.parse_ini`, which the view and summary loops call for region settings: each region's settings are an input.
- geopop.py, usa48.py and home.py are not part of this model.
- Driver.SelectRefresh: filters by the intended cutoff `Driver.ExpirationDate`, `expire` days before the current UTC time, not by the local time relabelled as UTC that covermap.py:193-194 and coverage.py:173-174 compute (`Driver.ExpirationDateAsWritten`, see Findings). CoverMap.RunRegion and Coverage.RunRegion inherit this. The two cutoffs agree on a host whose offset from UTC is zero.
- Summarize.SummaryTables: gates the combined USA/Canada table on the intended `Summarize.ComboGate` (`usa` and `canada`), not on the `usa` and `europe` test of summarize.py:243-244 (`Summarize.ComboGateAsWritten`, see Findings). The program calls `clean_regions` three times; the model cleans the request once, against one table listing.
- Helium.SweepLength: the pages are a finite input. When they run out before a page without a cursor, the model stops there, and an empty input takes no page. The program always requests at least once and keeps requesting until a page lacks a cursor.
- Statoids.String2Fields: its own contract states only the field count and a length bound. The exact content of each field is stated by Statoids.FieldAt.
- Hexpop.FormSchema: its contract states that names and types come out stripped and no longer. That each is exactly its input's stripped core follows from Base.StripInfix.

## Findings

| source | as written | input that shows it | evidently intended | confidence | as-written member | corrected member |
|---|---|---|---|---|---|---|
| public.py:51-59 | the description read catches only NoOptionError, so a missing section raises NoSectionError at line 52 and the `sys.exit` handler for a missing section is never reached | an ini without the requested section, e.g. an empty ini and source `census` | a missing section logs the error and exits | high, not executed | Public.ParseIniAsWritten | Public.ParseIni |
| summarize.py:243-244 | the combined USA/Canada table is gated on `usa` and `europe` being requested | regions `usa`, `europe` at division 1: the gate opens, but no Canada table is built for the query at summarize.py:79-86 | the gate requires `usa` and `canada`, so both tables the query reads are built (Summarize.ComboInputsBuilt) | medium, not executed | Summarize.ComboGateAsWrittenWithoutCanada | Summarize.ComboGate |
| covermap.py:193-194 | `datetime.now()`, which is local wall-clock time, is relabelled as UTC before `expire` days are subtracted; coverage.py:173-174 does the same | a host one hour ahead of UTC and `expire = 1`: a row updated 23.5 hours ago is already refetched | the cutoff is `expire` days before the current UTC time | medium, not executed | Driver.ExpirationDateOffByZone | Driver.ExpirationDate |
