/**
 * statoids.py: parse the fixed-width county table of the Statoids page.
 * Column widths come from the underline row (row 2), keys from the header
 * row (row 1); every other non-blank line becomes one record whose values
 * have their commas removed.
 *
 * The input is the table's lines, as the page's `<pre>` text split at
 * `'\r\n'`.
 */
module Statoids {
  import opened Base

  /** `sum(lengths[:idx])`. */
  function Sum(lengths: seq<int>): int
  {
    if lengths == [] then 0 else Sum(lengths[..|lengths| - 1]) + lengths[|lengths| - 1]
  }

  /** The raw column slices of `s` from position `pos` on, one per width. */
  function Slices(s: string, lengths: seq<int>, pos: int): (r: seq<string>)
    ensures |r| == |lengths|
  {
    if lengths == [] then []
    else [PySlice(s, pos, pos + lengths[0])] + Slices(s, lengths[1..], pos + lengths[0])
  }

  /** Slice i of a walk from `pos` starts where the widths before it end. */
  lemma {:induction false} SlicesAt(s: string, lengths: seq<int>, pos: int, i: nat)
    requires i < |lengths|
    ensures Slices(s, lengths, pos)[i] == PySlice(s, pos + Sum(lengths[..i]), pos + Sum(lengths[..i]) + lengths[i])
  {
    if i > 0 {
      SlicesAt(s, lengths[1..], pos + lengths[0], i - 1);
      SumCons(lengths[..i]);
      assert lengths[..i][1..] == lengths[1..][..i - 1];
    } else {
      assert lengths[..0] == [];
    }
  }

  lemma {:induction false} SumCons(xs: seq<int>)
    requires xs != []
    ensures Sum(xs) == xs[0] + Sum(xs[1..])
  {
    if |xs| > 1 {
      SumCons(xs[..|xs| - 1]);
      assert xs[..|xs| - 1][1..] == xs[1..][..|xs[1..]| - 1];
    }
  }

  /** `string2fields(s, lengths)`: one stripped field per width. */
  function String2Fields(s: string, lengths: seq<int>): (r: seq<string>)
    ensures |r| == |lengths|
    ensures forall i :: 0 <= i < |lengths| ==> |r[i]| <= |Slices(s, lengths, 0)[i]|
  {
    var slices := Slices(s, lengths, 0);
    seq(|lengths|, i requires 0 <= i < |lengths| => Strip(slices[i]))
  }

  /** Field i is slice i, stripped. */
  lemma FieldOfSlice(s: string, lengths: seq<int>, i: nat)
    requires i < |lengths|
    ensures String2Fields(s, lengths)[i] == Strip(Slices(s, lengths, 0)[i])
  {
  }

  /**
   * Field i is `s[p : p + lengths[i]].strip()` with p the sum of the
   * widths before it (a slice past the end of `s` is empty).
   */
  lemma FieldAt(s: string, lengths: seq<int>, i: nat)
    requires i < |lengths|
    ensures String2Fields(s, lengths)[i] == Strip(PySlice(s, Sum(lengths[..i]), Sum(lengths[..i]) + lengths[i]))
  {
    FieldOfSlice(s, lengths, i);
    SlicesAt(s, lengths, 0, i);
  }

  /** A field that starts at or past the end of the line is empty. */
  lemma FieldPastEnd(s: string, lengths: seq<int>, i: nat)
    requires i < |lengths| && |s| <= Sum(lengths[..i]) && lengths[i] >= 0
    ensures String2Fields(s, lengths)[i] == ""
  {
    FieldAt(s, lengths, i);
  }

  /** The widths the underline row gives: one more than each token, the last forced to 99. */
  function ColumnWidths(underline: string): (widths: seq<int>)
    ensures |widths| == |Split(underline, ' ')|
    ensures widths[|widths| - 1] == 99
    ensures forall i :: 0 <= i < |widths| - 1 ==> widths[i] == |Split(underline, ' ')[i]| + 1
  {
    var tokens := Split(underline, ' ');
    var widths := seq(|tokens|, i requires 0 <= i < |tokens| => |tokens[i]| + 1);
    widths[|widths| - 1 := 99]
  }

  /** No whitespace anywhere in a token. */
  predicate Solid(t: string) {
    forall i :: 0 <= i < |t| ==> !IsSpace(t[i])
  }

  /**
   * Reading the underline row with the widths it gives returns its own
   * tokens, when they hold no whitespace and the last is at most 99 long:
   * the widths line the columns up with the underline.
   */
  lemma UnderlineRoundTrip(underline: string)
    requires forall i :: 0 <= i < |Split(underline, ' ')| ==> Solid(Split(underline, ' ')[i])
    requires |Split(underline, ' ')[|Split(underline, ' ')| - 1]| <= 99
    ensures String2Fields(underline, ColumnWidths(underline)) == Split(underline, ' ')
  {
    var tokens := Split(underline, ' ');
    ColumnWidthsFit(underline);
    TokensRoundTrip(tokens, ColumnWidths(underline));
  }

  /** The underline's widths fit its tokens when the last token is at most 99 long. */
  lemma ColumnWidthsFit(underline: string)
    requires |Split(underline, ' ')[|Split(underline, ' ')| - 1]| <= 99
    ensures WidthsFit(Split(underline, ' '), ColumnWidths(underline))
  {
  }

  /** Solid tokens joined by blanks and read with fitting widths give the tokens back. */
  lemma TokensRoundTrip(tokens: seq<string>, widths: seq<int>)
    requires WidthsFit(tokens, widths)
    requires forall i :: 0 <= i < |tokens| ==> Solid(tokens[i])
    ensures String2Fields(Join(tokens, ' '), widths) == tokens
  {
    var fields := String2Fields(Join(tokens, ' '), widths);
    forall i | 0 <= i < |tokens|
      ensures fields[i] == tokens[i]
    {
      TokenFieldAt(tokens, widths, i);
    }
  }

  /** Field i of the joined tokens is token i. */
  lemma TokenFieldAt(tokens: seq<string>, widths: seq<int>, i: nat)
    requires WidthsFit(tokens, widths)
    requires i < |tokens| && Solid(tokens[i])
    ensures String2Fields(Join(tokens, ' '), widths)[i] == tokens[i]
  {
    JoinSliceAt(tokens, widths, i);
    FieldOfTokenSlice(Join(tokens, ' '), widths, i, tokens[i], i < |tokens| - 1);
  }

  /** Slice i of the joined tokens is token i, followed by its blank unless it is the last. */
  lemma JoinSliceAt(tokens: seq<string>, widths: seq<int>, i: nat)
    requires WidthsFit(tokens, widths) && i < |tokens|
    ensures Slices(Join(tokens, ' '), widths, 0)[i] == if i < |tokens| - 1 then tokens[i] + " " else tokens[i]
  {
    JoinSlices(tokens, widths);
  }

  /** A field whose slice is a solid token, padded or not, is that token. */
  lemma FieldOfTokenSlice(s: string, widths: seq<int>, i: nat, t: string, padded: bool)
    requires i < |widths| && Solid(t)
    requires Slices(s, widths, 0)[i] == if padded then t + " " else t
    ensures String2Fields(s, widths)[i] == t
  {
    FieldOfSlice(s, widths, i);
    TokenField(t, Slices(s, widths, 0)[i], padded);
  }

  /** A solid token read from its column, with or without its separating blank, strips back to itself. */
  lemma TokenField(t: string, slice: string, padded: bool)
    requires Solid(t)
    requires padded ==> slice == t + " "
    requires !padded ==> slice == t
    ensures Strip(slice) == t
  {
    if padded {
      StripPadded(t, " ");
    } else {
      StripPadded(t, []);
      assert t + [] == t;
    }
  }

  /** The widths are the token lengths plus one, and the last width covers the last token. */
  predicate WidthsFit(tokens: seq<string>, widths: seq<int>) {
    && |widths| == |tokens| >= 1
    && (forall i :: 0 <= i < |tokens| - 1 ==> widths[i] == |tokens[i]| + 1)
    && |tokens[|tokens| - 1]| <= widths[|tokens| - 1]
  }

  /** Slicing the joined tokens with fitting widths gives each token with its separating blank. */
  lemma {:induction false} JoinSlices(tokens: seq<string>, widths: seq<int>)
    requires WidthsFit(tokens, widths)
    ensures var slices := Slices(Join(tokens, ' '), widths, 0);
      && (forall i :: 0 <= i < |tokens| - 1 ==> slices[i] == tokens[i] + " ")
      && slices[|tokens| - 1] == tokens[|tokens| - 1]
  {
    var s := Join(tokens, ' ');
    if |tokens| == 1 {
      assert s == tokens[0];
      assert PySlice(s, 0, widths[0]) == tokens[0];
    } else {
      var t, rest := tokens[0], Join(tokens[1..], ' ');
      assert s == (t + " ") + rest;
      assert PySlice(s, 0, widths[0]) == t + " ";
      SlicesShift(t + " ", rest, widths[1..], 0);
      var slices := Slices(s, widths, 0);
      var restSlices := Slices(rest, widths[1..], 0);
      assert slices == [t + " "] + restSlices;
      JoinSlices(tokens[1..], widths[1..]);
      forall i | 1 <= i < |tokens| - 1 ensures slices[i] == tokens[i] + " " {
        assert slices[i] == restSlices[i - 1] && tokens[1..][i - 1] == tokens[i];
      }
      assert slices[|tokens| - 1] == restSlices[|tokens| - 2];
    }
  }

  /** Reading after a prefix is reading the rest from the matching position. */
  lemma {:induction false} SlicesShift(prefix: string, rest: string, widths: seq<int>, p: nat)
    requires forall i :: 0 <= i < |widths| ==> widths[i] >= 0
    ensures Slices(prefix + rest, widths, |prefix| + p) == Slices(rest, widths, p)
  {
    if widths != [] {
      var q := p + widths[0];
      SliceShift(prefix, rest, p, q);
      SlicesShift(prefix, rest, widths[1..], q);
      assert |prefix| + p + widths[0] == |prefix| + q;
      assert Slices(prefix + rest, widths, |prefix| + p)
        == [PySlice(prefix + rest, |prefix| + p, |prefix| + q)] + Slices(prefix + rest, widths[1..], |prefix| + q);
    }
  }

  lemma {:induction false} SumNonNeg(xs: seq<int>)
    requires forall i :: 0 <= i < |xs| ==> xs[i] >= 0
    ensures Sum(xs) >= 0
  {
    if xs != [] {
      SumNonNeg(xs[..|xs| - 1]);
    }
  }

  lemma SliceShift(prefix: string, rest: string, a: nat, b: nat)
    requires a <= b
    ensures PySlice(prefix + rest, |prefix| + a, |prefix| + b) == PySlice(rest, a, b)
  {
    var s := prefix + rest;
    var lo, hi := Clamp(|prefix| + a, |s|), Clamp(|prefix| + b, |s|);
    assert s[lo..hi] == rest[Clamp(a, |rest|)..Clamp(b, |rest|)];
  }

  /** A header field as a key: `'-'` becomes `'_'`, then `'2010 pop.'` becomes `'Pop_2010'`. */
  function NormaliseKey(field: string): string
  {
    ReplaceAll(ReplaceChar(field, '-', '_'), "2010 pop.", "Pop_2010")
  }

  /** No key keeps a hyphen. */
  lemma NormaliseKeyNoHyphen(field: string)
    ensures '-' !in NormaliseKey(field)
  {
    var t := ReplaceChar(field, '-', '_');
    assert forall i :: 0 <= i < |t| ==> t[i] != '-';
    assert '-' !in "Pop_2010";
    ReplaceAllKeepsAbsent(t, "2010 pop.", "Pop_2010", '-');
  }

  /**
   * Inside a hyphen-free header field, the first `2010 pop.` is replaced in
   * place by `Pop_2010`, and the text around it is normalised on its own.
   */
  lemma NormaliseKeyAround(a: string, b: string)
    requires '-' !in a && '-' !in b
    requires forall i :: 0 <= i < |a| ==> !IsPrefix("2010 pop.", (a + "2010 pop." + b)[i..])
    ensures NormaliseKey(a + "2010 pop." + b) == NormaliseKey(a) + "Pop_2010" + NormaliseKey(b)
  {
    ReplaceCharAbsent(a + "2010 pop." + b, '-', '_');
    ReplaceCharAbsent(a, '-', '_');
    ReplaceCharAbsent(b, '-', '_');
    ReplaceAllAround(a, b, "2010 pop.", "Pop_2010");
  }

  /** The population column's header becomes `Pop_2010`. */
  lemma NormalisePopulation()
    ensures NormaliseKey("2010 pop.") == "Pop_2010"
  {
    ReplaceCharAbsent("2010 pop.", '-', '_');
    ReplaceAllWhole("2010 pop.", "Pop_2010");
  }

  /** `dict(zip(keys, values))` over the first n pairs, built left to right: a later equal key overwrites an earlier one. */
  function ZipMap(keys: seq<string>, values: seq<string>, n: nat): map<string, string>
    requires n <= |keys| && n <= |values|
  {
    if n == 0 then map[]
    else ZipMap(keys, values, n - 1)[keys[n - 1] := values[n - 1]]
  }

  /** The last of the first n positions holding key k is i. */
  predicate LastAt(keys: seq<string>, n: nat, k: string, i: int) {
    0 <= i < n <= |keys| && keys[i] == k && forall j :: i < j < n ==> keys[j] != k
  }

  /** The map's keys are the first n keys, and each maps to the value at the last position holding it. */
  lemma {:induction false} ZipMapMeaning(keys: seq<string>, values: seq<string>, n: nat)
    requires n <= |keys| && n <= |values|
    ensures ZipMap(keys, values, n).Keys == set i | 0 <= i < n :: keys[i]
    ensures forall k :: k in ZipMap(keys, values, n) ==>
      exists i :: LastAt(keys, n, k, i) && ZipMap(keys, values, n)[k] == values[i]
  {
    if n > 0 {
      ZipMapMeaning(keys, values, n - 1);
      assert (set i | 0 <= i < n :: keys[i]) == (set i | 0 <= i < n - 1 :: keys[i]) + {keys[n - 1]};
      forall k | k in ZipMap(keys, values, n) {
        ZipMapLast(keys, values, n, k);
      }
    }
  }

  /** One step of `ZipMapMeaning`: the nth pair either sets key k or leaves its last position alone. */
  lemma ZipMapLast(keys: seq<string>, values: seq<string>, n: nat, k: string)
    requires 1 <= n <= |keys| && n <= |values|
    requires k in ZipMap(keys, values, n)
    requires k != keys[n - 1] ==>
      k in ZipMap(keys, values, n - 1) &&
      exists i :: LastAt(keys, n - 1, k, i) && ZipMap(keys, values, n - 1)[k] == values[i]
    ensures exists i :: LastAt(keys, n, k, i) && ZipMap(keys, values, n)[k] == values[i]
  {
    if k == keys[n - 1] {
      assert LastAt(keys, n, k, n - 1);
    } else {
      var i :| LastAt(keys, n - 1, k, i) && ZipMap(keys, values, n - 1)[k] == values[i];
      assert LastAt(keys, n, k, i);
    }
  }

  /** The line is one of the skipped ones: blank, the header or the underline (compared after stripping). */
  predicate SkipLine(line: string, header: string, underline: string) {
    Strip(line) == "" || Strip(line) == header || Strip(line) == underline
  }

  /**
   * A skipped line is all whitespace, or strips to the header or the
   * underline as they stand; so a header line with padding of its own is
   * not skipped.
   */
  lemma SkipLineMeaning(line: string, header: string, underline: string)
    ensures SkipLine(line, header, underline) <==> AllSpace(line) || Strip(line) == header || Strip(line) == underline
    ensures !Stripped(header) && !AllSpace(header) && Strip(header) != underline ==> !SkipLine(header, header, underline)
  {
    StripEmpty(line);
    StripEmpty(header);
  }

  /** The fields with their commas removed. */
  function Uncomma(fields: seq<string>): (values: seq<string>)
    ensures |values| == |fields|
  {
    seq(|fields|, i requires 0 <= i < |fields| => RemoveChar(fields[i], ','))
  }

  /** One record: each key paired with its field, commas removed; `zip` stops at the shorter list. */
  function Record(keys: seq<string>, line: string, widths: seq<int>): map<string, string>
  {
    var values := Uncomma(String2Fields(line, widths));
    var n := if |keys| <= |values| then |keys| else |values|;
    ZipMap(keys, values, n)
  }

  /** The records of the lines that are not skipped, in line order. */
  function Records(lines: seq<string>, keys: seq<string>, widths: seq<int>, header: string, underline: string)
    : seq<map<string, string>>
  {
    if lines == [] then []
    else
      var init := Records(lines[..|lines| - 1], keys, widths, header, underline);
      var line := lines[|lines| - 1];
      if SkipLine(line, header, underline) then init else init + [Record(keys, line, widths)]
  }

  /** The lines are read one by one, in order: the records of two runs of lines concatenate. */
  lemma {:induction false} RecordsAppend(a: seq<string>, b: seq<string>, keys: seq<string>, widths: seq<int>,
                                         header: string, underline: string)
    ensures Records(a + b, keys, widths, header, underline)
      == Records(a, keys, widths, header, underline) + Records(b, keys, widths, header, underline)
    decreases |b|
  {
    if b == [] {
      assert a + b == a;
    } else {
      var b0 := b[..|b| - 1];
      assert (a + b)[..|a + b| - 1] == a + b0;
      RecordsAppend(a, b0, keys, widths, header, underline);
    }
  }

  /** One line gives its record, or nothing when it is skipped. */
  lemma RecordsOne(line: string, keys: seq<string>, widths: seq<int>, header: string, underline: string)
    ensures Records([line], keys, widths, header, underline)
      == if SkipLine(line, header, underline) then [] else [Record(keys, line, widths)]
  {
    assert [line][..0] == [];
  }

  /** The keys of the table: the normalised header fields. */
  function Keys(header: string, widths: seq<int>): (keys: seq<string>)
    ensures |keys| == |widths|
    ensures forall i :: 0 <= i < |keys| ==> keys[i] == NormaliseKey(String2Fields(header, widths)[i])
    ensures forall i :: 0 <= i < |keys| ==> '-' !in keys[i]
  {
    var fields := String2Fields(header, widths);
    forall i | 0 <= i < |fields| ensures '-' !in NormaliseKey(fields[i]) {
      NormaliseKeyNoHyphen(fields[i]);
    }
    seq(|fields|, i requires 0 <= i < |fields| => NormaliseKey(fields[i]))
  }

  /** What `usa_counties` collects before the frame is built; fewer than three lines raise IndexError. */
  function CountyRecords(table: seq<string>): (r: Result<seq<map<string, string>>>)
    ensures r.Err? <==> |table| < 3
    ensures r.Err? ==> r.error == IndexError
    ensures r.Ok? ==> |r.value| == CountKept(table, table[1], table[2])
    ensures r.Ok? ==> Shaped(r.value, Keys(table[1], ColumnWidths(table[2])))
  {
    if |table| < 3 then Err(IndexError)
    else
      var widths := ColumnWidths(table[2]);
      var keys := Keys(table[1], widths);
      RecordsCount(table, keys, widths, table[1], table[2]);
      RecordsShape(table, keys, widths, table[1], table[2]);
      Ok(Records(table, keys, widths, table[1], table[2]))
  }

  /** How many lines are not skipped. */
  function CountKept(lines: seq<string>, header: string, underline: string): nat
  {
    if lines == [] then 0
    else
      var last := if SkipLine(lines[|lines| - 1], header, underline) then 0 else 1;
      CountKept(lines[..|lines| - 1], header, underline) + last
  }

  /** Every line that is not skipped yields exactly one record. */
  lemma {:induction false} RecordsCount(lines: seq<string>, keys: seq<string>, widths: seq<int>, header: string, underline: string)
    ensures |Records(lines, keys, widths, header, underline)| == CountKept(lines, header, underline)
  {
    if lines != [] {
      RecordsCount(lines[..|lines| - 1], keys, widths, header, underline);
    }
  }

  /** Every stored key is a table key, and no stored value contains a comma. */
  lemma RecordCommaFree(keys: seq<string>, line: string, widths: seq<int>, k: string)
    requires k in Record(keys, line, widths)
    ensures k in keys
    ensures ',' !in Record(keys, line, widths)[k]
  {
    var fields := String2Fields(line, widths);
    var values := Uncomma(fields);
    var n := if |keys| <= |values| then |keys| else |values|;
    ZipMapMeaning(keys, values, n);
    var i :| 0 <= i < n && keys[i] == k && Record(keys, line, widths)[k] == values[i];
    UncommaAt(fields, i);
  }

  /** Every record is keyed by a subset of the keys and holds no comma. */
  predicate Shaped(rs: seq<map<string, string>>, keys: seq<string>) {
    forall j, k :: 0 <= j < |rs| && k in rs[j] ==> k in keys && ',' !in rs[j][k]
  }

  /** Every record of the table is comma-free and keyed by a subset of the keys. */
  lemma {:induction false} RecordsShape(lines: seq<string>, keys: seq<string>, widths: seq<int>, header: string, underline: string)
    ensures Shaped(Records(lines, keys, widths, header, underline), keys)
  {
    if lines != [] {
      var init := Records(lines[..|lines| - 1], keys, widths, header, underline);
      var rs := Records(lines, keys, widths, header, underline);
      RecordsShape(lines[..|lines| - 1], keys, widths, header, underline);
      var line := lines[|lines| - 1];
      if !SkipLine(line, header, underline) {
        var rec := Record(keys, line, widths);
        assert rs == init + [rec];
        forall k | k in rec
          ensures k in keys && ',' !in rec[k]
        {
          RecordCommaFree(keys, line, widths, k);
        }
        forall j, k | 0 <= j < |rs| && k in rs[j]
          ensures k in keys && ',' !in rs[j][k]
        {
          if j == |init| {
            assert rs[j] == rec;
          } else {
            assert rs[j] == init[j];
          }
        }
      }
    }
  }

  lemma RecordsStep(lines: seq<string>, j: nat, keys: seq<string>, widths: seq<int>, header: string, underline: string)
    requires j < |lines|
    ensures Records(lines[..j + 1], keys, widths, header, underline) ==
      if SkipLine(lines[j], header, underline) then Records(lines[..j], keys, widths, header, underline)
      else Records(lines[..j], keys, widths, header, underline) + [Record(keys, lines[j], widths)]
  {
    assert lines[..j + 1][..j] == lines[..j];
  }

  /** The inner loop: store each key's field, commas removed. */
  method RecordOfLine(keys: seq<string>, line: string, widths: seq<int>) returns (dataDict: map<string, string>)
    requires |keys| == |widths|
    ensures dataDict == Record(keys, line, widths)
  {
    var fields := String2Fields(line, widths);
    dataDict := ZipUncomma(keys, fields);
    RecordOfAll(keys, line, widths);
  }

  /** The loop over `zip(keys, fields)`: each key gets its field, commas removed. */
  method ZipUncomma(keys: seq<string>, fields: seq<string>) returns (dataDict: map<string, string>)
    requires |keys| == |fields|
    ensures dataDict == ZipMap(keys, Uncomma(fields), |keys|)
  {
    ghost var values := Uncomma(fields);
    dataDict := map[];
    for i := 0 to |keys|
      invariant dataDict == ZipMap(keys, values, i)
    {
      UncommaAt(fields, i);
      dataDict := dataDict[keys[i] := RemoveChar(fields[i], ',')];
    }
  }

  /** Value i is field i with its commas removed. */
  lemma UncommaAt(fields: seq<string>, i: nat)
    requires i < |fields|
    ensures Uncomma(fields)[i] == RemoveChar(fields[i], ',')
  {
  }

  /** With one key per width, the record zips all the keys. */
  lemma RecordOfAll(keys: seq<string>, line: string, widths: seq<int>)
    requires |keys| == |widths|
    ensures Record(keys, line, widths) == ZipMap(keys, Uncomma(String2Fields(line, widths)), |keys|)
  {
  }

  /**
   * `usa_counties` up to the frame: derive the widths and keys, then walk
   * the lines, skipping blank, header and underline lines, and build one
   * record per other line.
   */
  method UsaCounties(table: seq<string>) returns (r: Result<seq<map<string, string>>>)
    ensures r == CountyRecords(table)
    ensures r.Err? <==> |table| < 3
  {
    if |table| < 3 {
      return Err(IndexError);
    }
    var columnLines := table[2];
    var columnWidths := ColumnWidths(columnLines);
    var columnNames := table[1];
    var keys := Keys(columnNames, columnWidths);
    var dataDictList: seq<map<string, string>> := [];
    for j := 0 to |table|
      invariant dataDictList == Records(table[..j], keys, columnWidths, columnNames, columnLines)
    {
      RecordsStep(table, j, keys, columnWidths, columnNames, columnLines);
      var line := table[j];
      if SkipLine(line, columnNames, columnLines) {
        continue;
      }
      var dataDict := RecordOfLine(keys, line, columnWidths);
      dataDictList := dataDictList + [dataDict];
    }
    assert table[..|table|] == table;
    r := Ok(dataDictList);
  }
}
