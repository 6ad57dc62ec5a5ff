/** The preprocessing script (parse_data/parse.py) that cuts the fixed-width
    station history file into columns and keeps the European stations.

    A line is a `string` holding the line exactly as Python 2 iterates it
    from a text file, final newline included. The Python library routines
    the script relies on (`str.find`, slicing, `str.strip`) are modelled
    here with their documented meaning. */
module IsdParse {
  import opened Wrappers

  /** The output header, and the column captions looked up in the file's
      own header line. */
  const ColumnNames: seq<string> :=
    ["USAF", "WBAN", "STATION NAME", "CTRY", "ST", "CALL", "LAT", "LON",
     "ELEV(M)", "BEGIN", "END"]

  /** The position of the "ST" caption, which is not searched for. */
  const StColumn: nat := 4
  /** The fixed start of the "ST" column. */
  const StStart: int := 48
  /** The position of the FIPS country code in a parsed row. */
  const CountryColumn: nat := 3

  // ---------------------------------------------------------------------
  // str.find
  // ---------------------------------------------------------------------

  predicate OccursAt(s: string, needle: string, i: int)
  {
    0 <= i && i + |needle| <= |s| && s[i..i + |needle|] == needle
  }

  /** The first occurrence of `needle` in `s` at or after `i`, or -1. */
  function FindFrom(s: string, needle: string, i: nat): (r: int)
    requires i <= |s|
    ensures r == -1 || (i <= r && OccursAt(s, needle, r))
    ensures r != -1 ==> forall j :: i <= j < r ==> !OccursAt(s, needle, j)
    ensures r == -1 ==> forall j :: i <= j ==> !OccursAt(s, needle, j)
    decreases |s| - i
  {
    if OccursAt(s, needle, i) then i
    else if i == |s| then -1
    else FindFrom(s, needle, i + 1)
  }

  /** `s.find(needle)`: the index of the first occurrence, -1 when there is
      none (an empty needle occurs at 0). */
  function Find(s: string, needle: string): (r: int)
    ensures r == -1 <==> forall j :: !OccursAt(s, needle, j)
    ensures r != -1 ==> OccursAt(s, needle, r) && forall j :: 0 <= j < r ==> !OccursAt(s, needle, j)
  {
    FindFrom(s, needle, 0)
  }

  /** A caption that is a prefix of another is found no later than it. */
  lemma FindPrefixNoLater(s: string, p: string, q: string)
    requires |p| <= |q| && q[..|p|] == p
    requires Find(s, q) != -1
    ensures Find(s, p) != -1 && Find(s, p) <= Find(s, q)
  {
    var r := Find(s, q);
    assert s[r..r + |p|] == s[r..r + |q|][..|p|];
    assert OccursAt(s, p, r);
  }

  /** Why the "ST" column start is fixed by hand: searching for "ST" finds
      the start of "STATION NAME" or something before it, never the state
      column that follows the country column. */
  lemma StSearchHitsStationName(header: string)
    requires Find(header, "STATION NAME") != -1
    ensures Find(header, "ST") != -1 && Find(header, "ST") <= Find(header, "STATION NAME")
  {
    FindPrefixNoLater(header, "ST", "STATION NAME");
  }

  // ---------------------------------------------------------------------
  // get_start_of_columns
  // ---------------------------------------------------------------------

  /** The start of every caption in the header line, with "ST" forced to
      48. Assigning position 4 raises IndexError when there are at most four
      captions; that is the `None` result. */
  function GetStartOfColumns(header: string, names: seq<string>): (r: Option<seq<int>>)
    ensures r.None? <==> |names| <= StColumn
    ensures r.Some? ==> |r.value| == |names| && r.value[StColumn] == StStart
    ensures r.Some? ==> forall k :: 0 <= k < |names| && k != StColumn ==> r.value[k] == Find(header, names[k])
  {
    if |names| <= StColumn then None
    else Some(seq(|names|, k requires 0 <= k < |names| =>
                if k == StColumn then StStart else Find(header, names[k])))
  }

  /** On a header line that begins with its first caption, that column
      starts at 0. */
  lemma FirstCaptionAtZero(header: string, names: seq<string>)
    requires |names| > StColumn
    requires |names[0]| <= |header| && header[..|names[0]|] == names[0]
    ensures GetStartOfColumns(header, names).value[0] == 0
  {
    assert OccursAt(header, names[0], 0);
  }

  // ---------------------------------------------------------------------
  // Python slicing
  // ---------------------------------------------------------------------

  /** How a slice bound is normalised against a length `n`: a negative bound
      counts from the end, and the result is clamped to `[0, n]`. */
  function PyIndex(i: int, n: nat): (r: nat)
    ensures r <= n
    ensures 0 <= i <= n ==> r == i
    ensures i < 0 && 0 <= n + i ==> r == n + i
    ensures n + i < 0 ==> r == 0
    ensures n < i ==> r == n
  {
    if i < 0 then (if i + n < 0 then 0 else i + n)
    else if i > n then n
    else i
  }

  /** `s[lo:hi]`: empty when the normalised start is not before the
      normalised end. */
  function Slice<T>(s: seq<T>, lo: int, hi: int): (r: seq<T>)
    ensures |r| == if PyIndex(lo, |s|) <= PyIndex(hi, |s|) then PyIndex(hi, |s|) - PyIndex(lo, |s|) else 0
    ensures forall k :: 0 <= k < |r| ==> r[k] == s[PyIndex(lo, |s|) + k]
  {
    var a := PyIndex(lo, |s|);
    var b := PyIndex(hi, |s|);
    if a <= b then s[a..b] else []
  }

  // ---------------------------------------------------------------------
  // str.strip
  // ---------------------------------------------------------------------

  /** The characters Python 2's `str.strip()` removes. */
  predicate IsSpace(c: char)
  {
    c == ' ' || c == '\t' || c == '\n' || c == '\r' || c == '\U{0B}' || c == '\U{0C}'
  }

  predicate AllSpace(s: string)
  {
    forall k :: 0 <= k < |s| ==> IsSpace(s[k])
  }

  /** Neither starts nor ends with whitespace. */
  predicate Trimmed(s: string)
  {
    s == [] || (!IsSpace(s[0]) && !IsSpace(s[|s| - 1]))
  }

  /** How many whitespace characters `s` starts with. */
  function LeadingSpaces(s: string): (n: nat)
    ensures n <= |s|
  {
    if |s| > 0 && IsSpace(s[0]) then 1 + LeadingSpaces(s[1..]) else 0
  }

  /** How many whitespace characters `s` ends with. */
  function TrailingSpaces(s: string): (n: nat)
    ensures n <= |s|
  {
    if |s| > 0 && IsSpace(s[|s| - 1]) then 1 + TrailingSpaces(s[..|s| - 1]) else 0
  }

  /** `s.strip()`: drop the leading whitespace, then the trailing
      whitespace of what is left. */
  function Strip(s: string): (r: string)
    ensures |r| <= |s|
  {
    var t := s[LeadingSpaces(s)..];
    t[..|t| - TrailingSpaces(t)]
  }

  /** The leading run is all whitespace and stops at a non-space. */
  lemma {:induction false} LeadingSpacesSpec(s: string)
    ensures forall k :: 0 <= k < LeadingSpaces(s) ==> IsSpace(s[k])
    ensures LeadingSpaces(s) == |s| || !IsSpace(s[LeadingSpaces(s)])
    decreases |s|
  {
    if |s| > 0 && IsSpace(s[0]) {
      var rest := s[1..];
      LeadingSpacesSpec(rest);
      forall k | 1 <= k < LeadingSpaces(s)
        ensures IsSpace(s[k])
      {
        assert s[k] == rest[k - 1];
      }
    }
  }

  /** The trailing run is all whitespace and stops at a non-space. */
  lemma {:induction false} TrailingSpacesSpec(s: string)
    ensures forall k :: |s| - TrailingSpaces(s) <= k < |s| ==> IsSpace(s[k])
    ensures TrailingSpaces(s) == |s| || !IsSpace(s[|s| - TrailingSpaces(s) - 1])
    decreases |s|
  {
    if |s| > 0 && IsSpace(s[|s| - 1]) {
      var front := s[..|s| - 1];
      TrailingSpacesSpec(front);
      forall k | |s| - TrailingSpaces(s) <= k < |s| - 1
        ensures IsSpace(s[k])
      {
        assert s[k] == front[k];
      }
    }
  }

  /** What strip returns neither starts nor ends with whitespace. */
  lemma StripTrimmed(s: string)
    ensures Trimmed(Strip(s))
  {
    var t := s[LeadingSpaces(s)..];
    LeadingSpacesSpec(s);
    TrailingSpacesSpec(t);
  }

  /** What strip removes is whitespace on both sides of what it keeps. */
  lemma StripDecomposes(s: string)
    ensures var r := Strip(s); var i := LeadingSpaces(s);
      i + |r| <= |s| && r == s[i..i + |r|] &&
      (forall k :: 0 <= k < i ==> IsSpace(s[k])) &&
      (forall k :: i + |r| <= k < |s| ==> IsSpace(s[k]))
  {
    var i := LeadingSpaces(s);
    var t := s[i..];
    LeadingSpacesSpec(s);
    TrailingSpacesSpec(t);
    TrimmedRun(s, i, TrailingSpaces(t));
  }

  lemma TrimmedRun(s: string, i: nat, m: nat)
    requires i <= |s| && m <= |s| - i
    requires forall k :: |s[i..]| - m <= k < |s[i..]| ==> IsSpace(s[i..][k])
    ensures s[i..][..|s| - i - m] == s[i..|s| - m]
    ensures forall k :: |s| - m <= k < |s| ==> IsSpace(s[k])
  {
    var t := s[i..];
    forall k | |s| - m <= k < |s|
      ensures IsSpace(s[k])
    {
      assert s[k] == t[k - i];
    }
  }

  lemma {:induction false} LeadingOfPadded(a: string, u: string)
    requires AllSpace(a)
    requires u == [] || !IsSpace(u[0])
    ensures LeadingSpaces(a + u) == |a|
    decreases |a|
  {
    if a == [] {
      assert a + u == u;
    } else {
      assert (a + u)[1..] == a[1..] + u;
      LeadingOfPadded(a[1..], u);
    }
  }

  lemma {:induction false} TrailingOfPadded(u: string, b: string)
    requires AllSpace(b)
    requires u == [] || !IsSpace(u[|u| - 1])
    ensures TrailingSpaces(u + b) == |b|
    decreases |b|
  {
    if b == [] {
      assert u + b == u;
    } else {
      var n := |b| - 1;
      assert (u + b)[..|u + b| - 1] == u + b[..n];
      TrailingOfPadded(u, b[..n]);
    }
  }

  /** Strip undoes padding: whitespace around a trimmed value is exactly
      what it removes. */
  lemma StripPadded(a: string, t: string, b: string)
    requires AllSpace(a) && AllSpace(b) && Trimmed(t)
    ensures Strip(a + t + b) == t
  {
    var s := a + t + b;
    if t == [] {
      assert s == (a + b) + [];
      LeadingOfPadded(a + b, []);
    } else {
      assert s == a + (t + b);
      LeadingOfPadded(a, t + b);
      assert s[|a|..] == t + b;
      TrailingOfPadded(t, b);
    }
  }

  lemma StripIdempotent(s: string)
    ensures Strip(Strip(s)) == Strip(s)
  {
    var r := Strip(s);
    StripTrimmed(s);
    assert [] + r + [] == r;
    StripPadded([], r, []);
  }

  // ---------------------------------------------------------------------
  // parse_row
  // ---------------------------------------------------------------------

  /** Where column `k` ends: the next column's start, or -1 (one before the
      end of the line) for the last column, which is what the IndexError
      handler substitutes. */
  function ColumnEnd(offsets: seq<int>, k: nat): int
    requires k < |offsets|
  {
    if k + 1 < |offsets| then offsets[k + 1] else -1
  }

  /** Column `k` of a line: from its start to the next column's start,
      stripped. */
  function Column(row: string, offsets: seq<int>, k: nat): string
    requires k < |offsets|
  {
    Strip(Slice(row, offsets[k], ColumnEnd(offsets, k)))
  }

  /** The first `n` columns of a line, in order. */
  function Columns(row: string, offsets: seq<int>, n: nat): (fields: seq<string>)
    requires n <= |offsets|
    ensures |fields| == n
  {
    if n == 0 then [] else Columns(row, offsets, n - 1) + [Column(row, offsets, n - 1)]
  }

  /** `parse_row`, with the line it reads passed explicitly: one field per
      column start. */
  function ParseRow(row: string, offsets: seq<int>): (fields: seq<string>)
    ensures |fields| == |offsets|
  {
    Columns(row, offsets, |offsets|)
  }

  lemma {:induction false} ColumnsAt(row: string, offsets: seq<int>, n: nat, k: nat)
    requires k < n <= |offsets|
    ensures Columns(row, offsets, n)[k] == Column(row, offsets, k)
    decreases n
  {
    if k < n - 1 {
      ColumnsAt(row, offsets, n - 1, k);
    }
  }

  /** Field `k` of a parsed row is column `k` of the line, and carries no
      surrounding whitespace. */
  lemma ParseRowField(row: string, offsets: seq<int>, k: nat)
    requires k < |offsets|
    ensures ParseRow(row, offsets)[k] == Column(row, offsets, k)
    ensures Trimmed(ParseRow(row, offsets)[k])
  {
    ColumnsAt(row, offsets, |offsets|, k);
    StripTrimmed(Slice(row, offsets[k], ColumnEnd(offsets, k)));
  }

  /** With column starts inside the line and in order, column `k` is the
      text between its start and the next one, and the last column runs to,
      but not including, the line's final character. */
  lemma ParseRowColumns(row: string, offsets: seq<int>, k: nat)
    requires |row| >= 1 && k < |offsets|
    requires forall j :: 0 <= j < |offsets| ==> 0 <= offsets[j] <= |row| - 1
    requires k + 1 < |offsets| ==> offsets[k] <= offsets[k + 1]
    ensures k + 1 < |offsets| ==> ParseRow(row, offsets)[k] == Strip(row[offsets[k]..offsets[k + 1]])
    ensures k + 1 == |offsets| ==> ParseRow(row, offsets)[k] == Strip(row[offsets[k]..|row| - 1])
  {
    ParseRowField(row, offsets, k);
    var s := Slice(row, offsets[k], ColumnEnd(offsets, k));
    if k + 1 < |offsets| {
      assert s == row[offsets[k]..offsets[k + 1]];
    } else {
      assert s == row[offsets[k]..|row| - 1];
    }
  }

  /** The line's final character (its newline) never reaches a field. */
  lemma LastCharacterIgnored(row: string, c: char, d: char, offsets: seq<int>)
    requires forall j :: 0 <= j < |offsets| ==> 0 <= offsets[j] <= |row|
    ensures ParseRow(row + [c], offsets) == ParseRow(row + [d], offsets)
  {
    forall k | 0 <= k < |offsets|
      ensures ParseRow(row + [c], offsets)[k] == ParseRow(row + [d], offsets)[k]
    {
      ParseRowField(row + [c], offsets, k);
      ParseRowField(row + [d], offsets, k);
      SliceBeforeLast(row, c, d, offsets[k], ColumnEnd(offsets, k));
    }
  }

  /** The bound above is needed: a column start past the end of a short
      line lets the slice before it run into the final character. */
  lemma ShortLineReachesLastCharacter()
    ensures ParseRow("ab" + ['X'], [0, 1, 5])[1] == "bX"
  {
    var row := "ab" + ['X'];
    ParseRowField(row, [0, 1, 5], 1);
    assert Slice(row, 1, 5) == "bX";
    StripPadded([], "bX", []);
    assert [] + "bX" + [] == "bX";
  }

  lemma SliceBeforeLast(row: string, c: char, d: char, lo: int, hi: int)
    requires 0 <= lo <= |row|
    requires hi == -1 || 0 <= hi <= |row|
    ensures Slice(row + [c], lo, hi) == Slice(row + [d], lo, hi)
  {
    var e := if hi == -1 then |row| else hi;
    if lo <= e {
      assert Slice(row + [c], lo, hi) == row[lo..e] == Slice(row + [d], lo, hi);
    }
  }

  // ---------------------------------------------------------------------
  // A fixed-width layout, and the round trip through parse_row
  // ---------------------------------------------------------------------

  function Spaces(n: nat): (s: string)
    ensures |s| == n && AllSpace(s)
  {
    seq(n, _ => ' ')
  }

  /** Every value fits its column width. */
  predicate Fits(values: seq<string>, widths: seq<nat>)
  {
    |values| == |widths| && forall k :: 0 <= k < |values| ==> |values[k]| <= widths[k]
  }

  /** A value left-aligned in a column of width `w`. */
  function Pad(v: string, w: nat): (s: string)
    requires |v| <= w
    ensures |s| == w
  {
    v + Spaces(w - |v|)
  }

  function Sum(widths: seq<nat>): nat
  {
    if widths == [] then 0 else Sum(widths[..|widths| - 1]) + widths[|widths| - 1]
  }

  /** The start of every column of a layout with the given widths. */
  function Starts(widths: seq<nat>): (offsets: seq<int>)
    ensures |offsets| == |widths|
  {
    seq(|widths|, k requires 0 <= k < |widths| => Sum(widths[..k]))
  }

  /** A line of the history file without its newline: the values padded to
      their widths, side by side. */
  function Layout(values: seq<string>, widths: seq<nat>): (line: string)
    requires Fits(values, widths)
    ensures |line| == Sum(widths)
  {
    if values == [] then []
    else
      var n := |values| - 1;
      Layout(values[..n], widths[..n]) + Pad(values[n], widths[n])
  }

  lemma {:induction false} SumPrefixMonotone(widths: seq<nat>, k: nat)
    requires k <= |widths|
    ensures Sum(widths[..k]) <= Sum(widths)
    decreases |widths|
  {
    if k < |widths| {
      var n := |widths| - 1;
      assert widths[..n][..k] == widths[..k];
      SumPrefixMonotone(widths[..n], k);
    } else {
      assert widths[..k] == widths;
    }
  }

  lemma {:induction false} LayoutPrefix(values: seq<string>, widths: seq<nat>, k: nat)
    requires Fits(values, widths) && k <= |values|
    ensures Fits(values[..k], widths[..k])
    ensures Sum(widths[..k]) <= |Layout(values, widths)|
    ensures Layout(values, widths)[..Sum(widths[..k])] == Layout(values[..k], widths[..k])
    decreases |values|
  {
    if k == |values| {
      assert values[..k] == values && widths[..k] == widths;
    } else {
      var n := |values| - 1;
      assert values[..n][..k] == values[..k] && widths[..n][..k] == widths[..k];
      LayoutPrefix(values[..n], widths[..n], k);
    }
  }

  /** Column `k` of a layout is exactly its padded value. */
  lemma LayoutColumn(values: seq<string>, widths: seq<nat>, k: nat)
    requires Fits(values, widths) && k < |values|
    ensures Sum(widths[..k]) <= Sum(widths[..k + 1]) <= |Layout(values, widths)|
    ensures Layout(values, widths)[Sum(widths[..k])..Sum(widths[..k + 1])] == Pad(values[k], widths[k])
  {
    LayoutPrefix(values, widths, k + 1);
    var front := Layout(values[..k + 1], widths[..k + 1]);
    assert values[..k + 1][..k] == values[..k] && widths[..k + 1][..k] == widths[..k];
    assert front == Layout(values[..k], widths[..k]) + Pad(values[k], widths[k]);
  }

  /** The round trip the script depends on: a line laid out in fixed-width
      columns, followed by its newline, parses back into its trimmed values
      when the column starts are the layout's. */
  lemma FixedWidthRoundTrip(values: seq<string>, widths: seq<nat>, eol: char)
    requires Fits(values, widths) && |values| >= 1
    requires forall k :: 0 <= k < |values| ==> Trimmed(values[k])
    ensures ParseRow(Layout(values, widths) + [eol], Starts(widths)) == values
  {
    forall k | 0 <= k < |values|
      ensures ParseRow(Layout(values, widths) + [eol], Starts(widths))[k] == values[k]
    {
      RoundTripColumn(values, widths, eol, k);
    }
  }

  lemma RoundTripColumn(values: seq<string>, widths: seq<nat>, eol: char, k: nat)
    requires Fits(values, widths) && k < |values|
    requires Trimmed(values[k])
    ensures ParseRow(Layout(values, widths) + [eol], Starts(widths))[k] == values[k]
  {
    LayoutCell(values, widths, eol, k);
    PaddedField(Layout(values, widths) + [eol], Starts(widths), k, values[k], Spaces(widths[k] - |values[k]|));
  }

  /** A column holding a trimmed value followed by blanks parses to the
      value. */
  lemma PaddedField(row: string, offsets: seq<int>, k: nat, v: string, pad: string)
    requires k < |offsets|
    requires Slice(row, offsets[k], ColumnEnd(offsets, k)) == v + pad
    requires Trimmed(v) && AllSpace(pad)
    ensures ParseRow(row, offsets)[k] == v
  {
    ParseRowField(row, offsets, k);
    assert [] + v + pad == v + pad;
    StripPadded([], v, pad);
  }

  /** In a laid-out line, column `k` as `parse_row` slices it is the padded
      value, for the last column too since only the newline follows it. */
  lemma LayoutCell(values: seq<string>, widths: seq<nat>, eol: char, k: nat)
    requires Fits(values, widths) && k < |values|
    ensures var offsets := Starts(widths);
      Slice(Layout(values, widths) + [eol], offsets[k], ColumnEnd(offsets, k)) == Pad(values[k], widths[k])
  {
    var line := Layout(values, widths);
    var row := line + [eol];
    var offsets := Starts(widths);
    LayoutColumn(values, widths, k);
    var lo := Sum(widths[..k]);
    var hi := Sum(widths[..k + 1]);
    if k + 1 < |values| {
      SliceWithin(row, lo, hi);
    } else {
      assert widths[..k + 1] == widths;
      SliceToLast(row, lo);
    }
    assert row[lo..hi] == line[lo..hi];
  }

  /** Bounds inside the sequence and in order slice as they read. */
  lemma SliceWithin<T>(s: seq<T>, lo: int, hi: int)
    requires 0 <= lo <= hi <= |s|
    ensures Slice(s, lo, hi) == s[lo..hi]
  {
  }

  /** An end bound of -1 stops one before the end. */
  lemma SliceToLast<T>(s: seq<T>, lo: int)
    requires 0 <= lo <= |s| - 1
    ensures Slice(s, lo, -1) == s[lo..|s| - 1]
  {
  }

  // ---------------------------------------------------------------------
  // The FIPS list and the country filter
  // ---------------------------------------------------------------------

  /** The country list: every line of the FIPS file, stripped. */
  function ReadFips(lines: seq<string>): (fips: seq<string>)
    ensures |fips| == |lines|
  {
    seq(|lines|, k requires 0 <= k < |lines| => Strip(lines[k]))
  }

  /** A code written with surrounding whitespace is read as the bare code. */
  lemma ReadFipsCode(lines: seq<string>, k: nat, a: string, code: string, b: string)
    requires k < |lines| && lines[k] == a + code + b
    requires AllSpace(a) && AllSpace(b) && Trimmed(code)
    ensures code in ReadFips(lines)
  {
    StripPadded(a, code, b);
    assert ReadFips(lines)[k] == code;
  }

  /** The rows of the station table whose country code is in the list, in
      file order, each parsed with the header's column starts. */
  function KeepEuropean(rows: seq<string>, offsets: seq<int>, fips: seq<string>): (kept: seq<seq<string>>)
    requires |offsets| > CountryColumn
    ensures |kept| <= |rows|
    decreases |rows|
  {
    if rows == [] then []
    else
      var n := |rows| - 1;
      var fields := ParseRow(rows[n], offsets);
      KeepEuropean(rows[..n], offsets, fips) + (if fields[CountryColumn] in fips then [fields] else [])
  }

  /** Every kept row has all its columns and a listed country code. */
  lemma {:induction false} KeptRowAt(rows: seq<string>, offsets: seq<int>, fips: seq<string>, k: nat)
    requires |offsets| > CountryColumn
    requires k < |KeepEuropean(rows, offsets, fips)|
    ensures |KeepEuropean(rows, offsets, fips)[k]| == |offsets|
    ensures KeepEuropean(rows, offsets, fips)[k][CountryColumn] in fips
    decreases |rows|
  {
    var n := |rows| - 1;
    var fields := ParseRow(rows[n], offsets);
    var front := KeepEuropean(rows[..n], offsets, fips);
    var kept := KeepEuropean(rows, offsets, fips);
    if fields[CountryColumn] in fips {
      assert kept == front + [fields];
      if k < |front| {
        KeptRowAt(rows[..n], offsets, fips, k);
        assert kept[k] == front[k];
      } else {
        assert kept[k] == fields;
      }
    } else {
      assert kept == front;
      KeptRowAt(rows[..n], offsets, fips, k);
    }
  }

  /** Filtering a file is filtering its parts: the filter keeps file order. */
  lemma {:induction false} KeepEuropeanAppend(a: seq<string>, b: seq<string>, offsets: seq<int>, fips: seq<string>)
    requires |offsets| > CountryColumn
    ensures KeepEuropean(a + b, offsets, fips) == KeepEuropean(a, offsets, fips) + KeepEuropean(b, offsets, fips)
    decreases |b|
  {
    if b == [] {
      assert a + b == a;
    } else {
      var n := |b| - 1;
      assert (a + b)[..|a + b| - 1] == a + b[..n];
      KeepEuropeanAppend(a, b[..n], offsets, fips);
    }
  }

  /** A single line is kept exactly when its country code is listed. */
  lemma KeepEuropeanSingle(row: string, offsets: seq<int>, fips: seq<string>)
    requires |offsets| > CountryColumn
    ensures var fields := ParseRow(row, offsets);
      KeepEuropean([row], offsets, fips) == if fields[CountryColumn] in fips then [fields] else []
  {
    assert [row][..0] == [];
  }

  /** No listed station is lost. */
  lemma KeepEuropeanComplete(rows: seq<string>, offsets: seq<int>, fips: seq<string>, i: nat)
    requires |offsets| > CountryColumn && i < |rows|
    requires ParseRow(rows[i], offsets)[CountryColumn] in fips
    ensures ParseRow(rows[i], offsets) in KeepEuropean(rows, offsets, fips)
  {
    var fields := ParseRow(rows[i], offsets);
    var before := KeepEuropean(rows[..i], offsets, fips);
    var after := KeepEuropean(rows[i + 1..], offsets, fips);
    assert rows == rows[..i + 1] + rows[i + 1..];
    KeepEuropeanAppend(rows[..i + 1], rows[i + 1..], offsets, fips);
    KeepEuropeanStep(rows, offsets, fips, i);
    assert KeepEuropean(rows, offsets, fips) == before + [fields] + after;
    assert KeepEuropean(rows, offsets, fips)[|before|] == fields;
  }

  /** One more line of the file adds its parsed row, if listed, at the end. */
  lemma KeepEuropeanStep(rows: seq<string>, offsets: seq<int>, fips: seq<string>, i: nat)
    requires |offsets| > CountryColumn && i < |rows|
    ensures var fields := ParseRow(rows[i], offsets);
      KeepEuropean(rows[..i + 1], offsets, fips)
      == KeepEuropean(rows[..i], offsets, fips) + (if fields[CountryColumn] in fips then [fields] else [])
  {
    assert rows[..i + 1][..i] == rows[..i];
  }

  /** A whitespace-only line in the FIPS file puts the empty code on the
      list, and then a station with a blank country column is kept. */
  lemma BlankFipsLineKeepsBlankCountry(lines: seq<string>, k: nat, row: string, offsets: seq<int>)
    requires k < |lines| && AllSpace(lines[k])
    requires |offsets| > CountryColumn && ParseRow(row, offsets)[CountryColumn] == []
    ensures KeepEuropean([row], offsets, ReadFips(lines)) == [ParseRow(row, offsets)]
  {
    assert lines[k] + [] + [] == lines[k];
    StripPadded(lines[k], [], []);
    assert ReadFips(lines)[k] == [];
    KeepEuropeanSingle(row, offsets, ReadFips(lines));
  }

  // ---------------------------------------------------------------------
  // The whole script
  // ---------------------------------------------------------------------

  /** `row[:4] == "USAF"`. */
  predicate IsHeader(line: string)
  {
    Slice(line, 0, 4) == "USAF"
  }

  /** A line shorter than four characters is never the header. */
  lemma IsHeaderMeaning(line: string)
    ensures IsHeader(line) <==> |line| >= 4 && line[..4] == "USAF"
  {
    if |line| >= 4 {
      assert Slice(line, 0, 4) == line[..4];
    } else {
      assert |Slice(line, 0, 4)| < 4;
    }
  }

  /** The first header line, if any. */
  function FirstHeader(lines: seq<string>): (h: Option<nat>)
    ensures h.Some? ==> h.value < |lines| && IsHeader(lines[h.value])
    ensures h.Some? ==> forall j :: 0 <= j < h.value ==> !IsHeader(lines[j])
    ensures h.None? ==> forall j :: 0 <= j < |lines| ==> !IsHeader(lines[j])
  {
    if lines == [] then None
    else if IsHeader(lines[0]) then Some(0)
    else match FirstHeader(lines[1..])
      case None => None
      case Some(h) => Some(h + 1)
  }

  /** The table the script writes: its own column names, then the listed
      stations among the lines after the first header line. With no header
      line the first loop exhausts the file, the second never runs, and the
      table is the column names alone. */
  function Output(lines: seq<string>, fips: seq<string>): seq<seq<string>>
  {
    var h := FirstHeader(lines);
    if h.None? then [ColumnNames]
    else [ColumnNames] + Listed(lines, h.value, fips)
  }

  /** The listed stations among the lines after the header line `h`, cut
      at the header's column starts. */
  function Listed(lines: seq<string>, h: nat, fips: seq<string>): seq<seq<string>>
    requires h < |lines|
  {
    KeepEuropean(lines[h + 1..], GetStartOfColumns(lines[h], ColumnNames).value, fips)
  }

  /** The script's first loop: read lines until one starts with "USAF". */
  method FindHeaderLine(lines: seq<string>) returns (h: Option<nat>)
    ensures h == FirstHeader(lines)
  {
    var i := 0;
    while i < |lines|
      invariant 0 <= i <= |lines|
      invariant forall j :: 0 <= j < i ==> !IsHeader(lines[j])
    {
      if IsHeader(lines[i]) {
        return Some(i);
      }
      i := i + 1;
    }
    return None;
  }

  /** The script's second loop: parse every remaining line and keep the
      ones whose country code is listed. */
  method FilterRows(rows: seq<string>, offsets: seq<int>, fips: seq<string>) returns (kept: seq<seq<string>>)
    requires |offsets| > CountryColumn
    ensures kept == KeepEuropean(rows, offsets, fips)
    ensures forall k :: 0 <= k < |kept| ==> |kept[k]| == |offsets| && kept[k][CountryColumn] in fips
  {
    kept := [];
    var i := 0;
    while i < |rows|
      invariant 0 <= i <= |rows|
      invariant kept == KeepEuropean(rows[..i], offsets, fips)
    {
      var fields := ParseRow(rows[i], offsets);
      KeepEuropeanStep(rows, offsets, fips, i);
      if fields[CountryColumn] in fips {
        kept := kept + [fields];
      }
      i := i + 1;
    }
    assert rows[..i] == rows;
    forall k | 0 <= k < |kept|
      ensures |kept[k]| == |offsets| && kept[k][CountryColumn] in fips
    {
      KeptRowAt(rows, offsets, fips, k);
    }
  }

  /** The whole script on the history file's lines and the country list:
      find the header line and take the column starts from it, then parse
      and filter every line after it, both loops sharing one iterator. */
  method ParseIsdHistory(lines: seq<string>, fips: seq<string>) returns (parsed: seq<seq<string>>)
    ensures parsed == Output(lines, fips)
    ensures |parsed| >= 1 && parsed[0] == ColumnNames
    ensures forall k :: 1 <= k < |parsed| ==> |parsed[k]| == |ColumnNames| && parsed[k][CountryColumn] in fips
    ensures (forall j :: 0 <= j < |lines| ==> !IsHeader(lines[j])) ==> parsed == [ColumnNames]
  {
    var h := FindHeaderLine(lines);
    parsed := [ColumnNames];
    if h.Some? {
      var offsets := GetStartOfColumns(lines[h.value], ColumnNames).value;
      var kept := FilterRows(lines[h.value + 1..], offsets, fips);
      parsed := parsed + kept;
    }
  }
}
