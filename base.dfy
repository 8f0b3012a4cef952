/**
 * Shared vocabulary of the model: optional values, the exceptions the
 * scripts can raise, the handful of Python string operations they use,
 * and a mutable string list (a Python `list` that is appended to in place).
 */
module Base {

  datatype Option<T> = None | Some(value: T)

  /** The exceptions (and the one `sys.exit`) the modelled code can end in. */
  datatype Error =
    | KeyError(key: string)              // a missing JSON or dict key
    | HttpError(status: int)             // raise_for_status on a 4xx/5xx answer
    | IndexError                         // a list index past the end
    | EmptyMin                           // min() of an empty sequence
    | ZeroDivisionError                  // n / 0
    | SectionsNotPositive                // numpy.array_split with fewer than one part
    | NoSectionError(section: string)    // configparser: no such section
    | NoOptionError(section: string, option: string)
    | SystemExit                         // sys.exit()

  datatype Result<T> = Ok(value: T) | Err(error: Error)

  /** Python truthiness of an optional string (None and '' are false). */
  predicate Truthy(s: Option<string>) {
    s.Some? && s.value != ""
  }

  /** The characters `str.strip()` removes (the ASCII ones and the Latin-1 extras). */
  predicate IsSpace(c: char) {
    c == ' ' || c == '\t' || c == '\n' || c == '\r' || c == '\U{B}' || c == '\U{C}'
    || ('\U{1C}' <= c <= '\U{1F}') || c == '\U{85}' || c == '\U{A0}'
  }

  predicate AllSpace(s: string) {
    forall i :: 0 <= i < |s| ==> IsSpace(s[i])
  }

  predicate Stripped(s: string) {
    s == [] || (!IsSpace(s[0]) && !IsSpace(s[|s| - 1]))
  }

  /** The first non-whitespace position at or after `i`. */
  function SkipSpace(s: string, i: nat): (j: nat)
    requires i <= |s|
    ensures i <= j <= |s|
    ensures forall k :: i <= k < j ==> IsSpace(s[k])
    ensures j == |s| || !IsSpace(s[j])
    decreases |s| - i
  {
    if i < |s| && IsSpace(s[i]) then SkipSpace(s, i + 1) else i
  }

  /** The position just after the last non-whitespace character of `s[lo..j]`, or `lo`. */
  function SkipSpaceBack(s: string, lo: nat, j: nat): (k: nat)
    requires lo <= j <= |s|
    ensures lo <= k <= j
    ensures forall m :: k <= m < j ==> IsSpace(s[m])
    ensures k == lo || !IsSpace(s[k - 1])
  {
    if j > lo && IsSpace(s[j - 1]) then SkipSpaceBack(s, lo, j - 1) else j
  }

  /** `str.strip()`: the infix of `s` left after removing whitespace at both ends. */
  function Strip(s: string): (r: string)
    ensures Stripped(r)
    ensures |r| <= |s|
  {
    var a := SkipSpace(s, 0);
    s[a..SkipSpaceBack(s, a, |s|)]
  }

  /** Strip removes exactly a whitespace prefix and a whitespace suffix. */
  lemma StripInfix(s: string)
    ensures var r := Strip(s); var i := SkipSpace(s, 0);
      i + |r| <= |s| && s[i..i + |r|] == r && AllSpace(s[..i]) && AllSpace(s[i + |r|..])
  {
  }

  /** A string strips to nothing exactly when it is all whitespace. */
  lemma StripEmpty(s: string)
    ensures Strip(s) == "" <==> AllSpace(s)
  {
    var i := SkipSpace(s, 0);
    if AllSpace(s) {
      assert i == |s|;
    } else {
      var m :| 0 <= m < |s| && !IsSpace(s[m]);
      StripInfix(s);
    }
  }

  lemma StripOfStripped(s: string)
    requires Stripped(s)
    ensures Strip(s) == s
  {
    if s != [] {
      assert SkipSpace(s, 0) == 0;
      assert s[0..|s|] == s;
    }
  }

  lemma StripIdempotent(s: string)
    ensures Strip(Strip(s)) == Strip(s)
  {
    StripOfStripped(Strip(s));
  }

  /** A string without whitespace, padded on the right with blanks, strips back to itself. */
  lemma StripPadded(t: string, pad: string)
    requires forall i :: 0 <= i < |t| ==> !IsSpace(t[i])
    requires AllSpace(pad)
    ensures Strip(t + pad) == t
  {
    var s := t + pad;
    if t == [] {
      assert s == pad;
    } else {
      assert !IsSpace(s[0]) && !IsSpace(s[|t| - 1]);
      assert forall m :: |t| <= m < |s| ==> IsSpace(s[m]);
      assert s[..|t|] == t;
    }
  }

  function ReplaceChar(s: string, a: char, b: char): (r: string)
    ensures |r| == |s|
    ensures forall i :: 0 <= i < |s| ==> r[i] == (if s[i] == a then b else s[i])
  {
    if s == [] then [] else [if s[0] == a then b else s[0]] + ReplaceChar(s[1..], a, b)
  }

  /** Replacing a character that does not occur changes nothing. */
  lemma ReplaceCharAbsent(s: string, a: char, b: char)
    requires a !in s
    ensures ReplaceChar(s, a, b) == s
  {
    assert forall i :: 0 <= i < |s| ==> s[i] != a;
  }

  /** `s.replace(c, '')`: every occurrence of `c` dropped, the rest in order. */
  function RemoveChar(s: string, c: char): (r: string)
    ensures |r| <= |s|
    ensures c !in r
    ensures forall d :: d != c ==> multiset(r)[d] == multiset(s)[d]
    ensures |s| == 1 ==> r == (if s[0] == c then [] else s)
  {
    if s == [] then []
    else
      assert s == [s[0]] + s[1..];
      if s[0] == c then RemoveChar(s[1..], c) else [s[0]] + RemoveChar(s[1..], c)
  }

  /** Removal works piece by piece, so the kept characters stay in their order. */
  lemma {:induction false} RemoveCharAppend(a: string, b: string, c: char)
    ensures RemoveChar(a + b, c) == RemoveChar(a, c) + RemoveChar(b, c)
  {
    if a == [] {
      assert a + b == b;
    } else {
      assert (a + b)[1..] == a[1..] + b;
      RemoveCharAppend(a[1..], b, c);
    }
  }

  predicate IsPrefix(p: string, s: string) {
    |p| <= |s| && s[..|p|] == p
  }

  /**
   * `s.replace(pat, rep)` for a non-empty `pat`: occurrences are found from
   * the left and replaced without overlapping.
   */
  function ReplaceAll(s: string, pat: string, rep: string): string
    requires pat != []
    decreases |s|
  {
    if s == [] then []
    else if IsPrefix(pat, s) then rep + ReplaceAll(s[|pat|..], pat, rep)
    else [s[0]] + ReplaceAll(s[1..], pat, rep)
  }

  /** A replacement that brings no `c` with it leaves a `c`-free string `c`-free. */
  lemma {:induction false} ReplaceAllKeepsAbsent(s: string, pat: string, rep: string, c: char)
    requires pat != [] && c !in s && c !in rep
    ensures c !in ReplaceAll(s, pat, rep)
    decreases |s|
  {
    if s != [] {
      if IsPrefix(pat, s) {
        assert forall k :: 0 <= k < |s[|pat|..]| ==> s[|pat|..][k] == s[|pat| + k];
        ReplaceAllKeepsAbsent(s[|pat|..], pat, rep, c);
      } else {
        assert forall k :: 0 <= k < |s[1..]| ==> s[1..][k] == s[1 + k];
        ReplaceAllKeepsAbsent(s[1..], pat, rep, c);
      }
    }
  }

  /**
   * A text in which `pat` first starts right after `a` has that occurrence
   * replaced in place: `a`'s own replacement, then `rep`, then the rest's.
   */
  lemma {:induction false} ReplaceAllAround(a: string, b: string, pat: string, rep: string)
    requires pat != []
    requires forall i :: 0 <= i < |a| ==> !IsPrefix(pat, (a + pat + b)[i..])
    ensures ReplaceAll(a + pat + b, pat, rep) == ReplaceAll(a, pat, rep) + rep + ReplaceAll(b, pat, rep)
    decreases |a|
  {
    var s := a + pat + b;
    if a == [] {
      assert s == pat + b && IsPrefix(pat, s);
      assert s[|pat|..] == b;
    } else {
      assert !IsPrefix(pat, s[0..]);
      assert s[0..] == s;
      assert !IsPrefix(pat, a);
      assert s[1..] == a[1..] + pat + b;
      forall i | 0 <= i < |a[1..]|
        ensures !IsPrefix(pat, (a[1..] + pat + b)[i..])
      {
        assert (a[1..] + pat + b)[i..] == s[i + 1..];
      }
      ReplaceAllAround(a[1..], b, pat, rep);
    }
  }

  /** A string that is exactly `pat` becomes exactly `rep`. */
  lemma ReplaceAllWhole(pat: string, rep: string)
    requires pat != []
    ensures ReplaceAll(pat, pat, rep) == rep
  {
    assert pat[|pat|..] == [];
    assert rep + [] == rep;
  }

  /** `sep.join(xs)` for a one-character separator. */
  function Join(xs: seq<string>, sep: char): string
  {
    if |xs| == 0 then ""
    else if |xs| == 1 then xs[0]
    else xs[0] + [sep] + Join(xs[1..], sep)
  }

  /** Index of the first `c` in `s`. */
  function IndexOf(s: string, c: char): (i: nat)
    requires c in s
    ensures i < |s| && s[i] == c && c !in s[..i]
  {
    if s[0] == c then 0
    else
      assert c in s[1..] by { assert s == [s[0]] + s[1..]; }
      var k := IndexOf(s[1..], c);
      assert s[..k + 1] == [s[0]] + s[1..][..k];
      k + 1
  }

  /** `s.split(sep)` with an explicit one-character separator (empty fields kept). */
  function Split(s: string, sep: char): (r: seq<string>)
    ensures |r| >= 1
    ensures forall i :: 0 <= i < |r| ==> sep !in r[i]
    ensures Join(r, sep) == s
    decreases |s|
  {
    if sep !in s then [s]
    else
      var i := IndexOf(s, sep);
      var rest := Split(s[i + 1..], sep);
      assert s == s[..i] + [sep] + s[i + 1..];
      assert ([s[..i]] + rest)[1..] == rest;
      [s[..i]] + rest
  }

  /** In `a + [sep] + b` with no `sep` in `a`, the first separator sits right after `a`. */
  lemma {:induction false} IndexOfAfter(a: string, b: string, sep: char)
    requires sep !in a
    ensures sep in a + [sep] + b && IndexOf(a + [sep] + b, sep) == |a|
  {
    var s := a + [sep] + b;
    assert s[|a|] == sep;
    if a != [] {
      assert s[1..] == a[1..] + [sep] + b;
      assert sep !in a[1..] by { assert a == [a[0]] + a[1..]; }
      IndexOfAfter(a[1..], b, sep);
    }
  }

  /** Splitting a join gives the pieces back, when no piece holds the separator. */
  lemma {:induction false} SplitJoin(xs: seq<string>, sep: char)
    requires |xs| >= 1
    requires forall i :: 0 <= i < |xs| ==> sep !in xs[i]
    ensures Split(Join(xs, sep), sep) == xs
  {
    if |xs| > 1 {
      SplitCons(xs[0], Join(xs[1..], sep), sep);
      SplitJoin(xs[1..], sep);
      assert xs == [xs[0]] + xs[1..];
    }
  }

  /** A first piece without the separator splits off in front of the rest's split. */
  lemma SplitCons(a: string, tail: string, sep: char)
    requires sep !in a
    ensures Split(a + [sep] + tail, sep) == [a] + Split(tail, sep)
  {
    var s := a + [sep] + tail;
    IndexOfAfter(a, tail, sep);
    assert s[..|a|] == a;
    assert s[|a| + 1..] == tail;
  }

  /** The characters `str.splitlines()` breaks lines at (`\r\n` counts once). */
  predicate IsLineBreak(c: char) {
    c == '\n' || c == '\r' || c == '\U{B}' || c == '\U{C}' || c == '\U{1C}' || c == '\U{1D}'
    || c == '\U{1E}' || c == '\U{85}' || c == '\U{2028}' || c == '\U{2029}'
  }

  /** Index of the first line break in `s`, or `|s|` when there is none. */
  function LineEnd(s: string): (i: nat)
    ensures i <= |s|
    ensures i < |s| ==> IsLineBreak(s[i])
    ensures forall k :: 0 <= k < i ==> !IsLineBreak(s[k])
  {
    if s == [] || IsLineBreak(s[0]) then 0 else 1 + LineEnd(s[1..])
  }

  /** No character of `s` is a line break. */
  predicate NoLineBreak(s: string) {
    forall k :: 0 <= k < |s| ==> !IsLineBreak(s[k])
  }

  /** The first break of `a + rest` is the one that starts `rest`, when `a` has none. */
  lemma {:induction false} LineEndAfter(a: string, rest: string)
    requires NoLineBreak(a) && rest != [] && IsLineBreak(rest[0])
    ensures LineEnd(a + rest) == |a|
  {
    if a != [] {
      assert (a + rest)[1..] == a[1..] + rest;
      LineEndAfter(a[1..], rest);
    }
  }

  /** `str.splitlines()`: no empty last line for a trailing break. */
  function SplitLines(s: string): (r: seq<string>)
    ensures forall i :: 0 <= i < |r| ==> NoLineBreak(r[i])
    ensures s != [] && NoLineBreak(s) ==> r == [s]
    decreases |s|
  {
    if s == [] then []
    else
      var i := LineEnd(s);
      if i == |s| then [s]
      else
        var skip := if s[i] == '\r' && i + 1 < |s| && s[i + 1] == '\n' then 2 else 1;
        [s[..i]] + SplitLines(s[i + skip..])
  }

  /** A break-free line followed by `\n` splits off in front of the rest's lines. */
  lemma SplitLinesCons(a: string, b: string)
    requires NoLineBreak(a)
    ensures SplitLines(a + "\n" + b) == [a] + SplitLines(b)
  {
    var s := a + "\n" + b;
    LineEndAfter(a, "\n" + b);
    assert s == a + ("\n" + b);
    assert s[..|a|] == a;
    assert s[|a| + 1..] == b;
  }

  /** The text of lines each ended by `\n`. */
  function UnixText(lines: seq<string>): string {
    if lines == [] then "" else lines[0] + "\n" + UnixText(lines[1..])
  }

  /** `splitlines()` gives back the break-free lines of a `\n`-terminated text, empty lines included. */
  lemma {:induction false} SplitLinesUnixText(lines: seq<string>)
    requires forall i :: 0 <= i < |lines| ==> NoLineBreak(lines[i])
    ensures SplitLines(UnixText(lines)) == lines
  {
    if lines != [] {
      SplitLinesCons(lines[0], UnixText(lines[1..]));
      SplitLinesUnixText(lines[1..]);
    }
  }

  /** `s.rsplit(c, maxsplit=1)[-1]`: the text after the last `c` (all of `s` if none). */
  function AfterLast(s: string, c: char): (r: string)
    ensures c !in r
    ensures |r| <= |s| && s[|s| - |r|..] == r
    ensures |r| < |s| ==> s[|s| - |r| - 1] == c
    decreases |s|
  {
    if c !in s then s
    else
      var i := IndexOf(s, c);
      var t := s[i + 1..];
      var r := AfterLast(t, c);
      assert s[|s| - |r|..] == t[|t| - |r|..];
      assert |r| < |t| ==> s[|s| - |r| - 1] == t[|t| - |r| - 1];
      r
  }

  /** `s.split(c)[0]`: the text before the first `c` (all of `s` if none). */
  function BeforeFirst(s: string, c: char): (r: string)
    ensures c !in r
    ensures IsPrefix(r, s)
    ensures |r| < |s| ==> s[|r|] == c
  {
    if c in s then s[..IndexOf(s, c)] else s
  }

  /** Python's `lst[start:stop]` on a sequence: negative bounds count from the end, then clamp. */
  function PySlice<T>(s: seq<T>, start: int, stop: int): (r: seq<T>)
    ensures 0 <= start <= stop ==> r == s[Clamp(start, |s|)..Clamp(stop, |s|)]
    ensures 0 <= start ==> forall k :: 0 <= k < |r| ==> start + k < |s| && r[k] == s[start + k]
    ensures 0 <= start && 0 <= stop ==>
      |r| == (if start < stop && start < |s| then Clamp(stop, |s|) - start else 0)
  {
    var a := Clamp(if start < 0 then start + |s| else start, |s|);
    var b := Clamp(if stop < 0 then stop + |s| else stop, |s|);
    if a <= b then s[a..b] else []
  }

  /** A negative bound counts from the end: `s[-m:]` is `s[len(s) - m:]`. */
  lemma PySliceFromEnd<T>(s: seq<T>, start: int, stop: int)
    requires -|s| <= start < 0
    ensures PySlice(s, start, stop) == PySlice(s, start + |s|, stop)
    ensures -|s| <= stop < 0 ==> PySlice(s, start, stop) == PySlice(s, start + |s|, stop + |s|)
  {
  }

  function Clamp(i: int, n: nat): (r: nat)
    ensures r <= n
    ensures 0 <= i <= n ==> r == i
  {
    if i < 0 then 0 else if i > n then n else i
  }

  /** A Python list of strings that callers share and that is appended to in place. */
  class StringList {
    var items: seq<string>

    constructor (xs: seq<string>)
      ensures items == xs
    {
      items := xs;
    }

    method Append(x: string)
      modifies this
      ensures items == old(items) + [x]
    {
      items := items + [x];
    }
  }
}
