/**
 * The author manifest (`FileReadme`): README.txt rows of `filter,name`, the prefix derived
 * from each filter, and the fuzzy lookup of an author for a file name.
 *
 * The instance members that only read the row list (`FindPrefix`, `SearchFilterReturnName`,
 * `FindSecondCsvValue`) are functions of the row sequence; the class keeps the state and the
 * two members that loop (`ReadReadme`, `GetEachFilter`).
 */
module Readme {
  import opened Nullable
  import opened Text
  import opened Paths

  const ReadmeFileName := "README.txt"

  /** An informative row of README.txt. */
  datatype CsvRow = CsvRow(Filter: string, Name: string, Prefix: string)

  // ---------------------------------------------------------------------------
  // Prefixes

  /** `TakeWhile(char.IsLetter)`. */
  function LeadingLetters(s: string): (r: string)
    ensures |r| <= |s| && r == s[..|r|]
    ensures forall i | 0 <= i < |r| :: IsLetter(r[i])
    ensures |r| == |s| || !IsLetter(s[|r|])
  {
    if |s| > 0 && IsLetter(s[0]) then [s[0]] + LeadingLetters(s[1..]) else ""
  }

  /**
   * The bucket of a filter or file name: everything through the first underscore when that
   * underscore is not the first character, otherwise the leading run of letters.
   */
  function FindPrefix(filter: string): (prefix: string)
    ensures |prefix| <= |filter| && prefix == filter[..|prefix|]
    ensures |filter| > 0 && filter[0] != '_' && '_' in filter ==>
      |prefix| >= 2 && prefix[|prefix| - 1] == '_' && '_' !in prefix[..|prefix| - 1]
    ensures !(|filter| > 0 && filter[0] != '_' && '_' in filter) ==>
      (forall i | 0 <= i < |prefix| :: IsLetter(prefix[i])) &&
      (|prefix| == |filter| || !IsLetter(filter[|prefix|]))
  {
    var underscoreIdx := IndexOf(filter, '_');
    if underscoreIdx > 0 then
      assert filter[..underscoreIdx + 1][..underscoreIdx] == filter[..underscoreIdx];
      filter[..underscoreIdx + 1]
    else LeadingLetters(filter)
  }

  /** A leading underscore does not count: such a filter has the empty prefix. */
  lemma LeadingUnderscorePrefix(filter: string)
    requires |filter| > 0 && filter[0] == '_'
    ensures FindPrefix(filter) == ""
  {
  }

  // ---------------------------------------------------------------------------
  // Parsing README.txt

  /**
   * One line of README.txt: a row only when the line has a comma. The row is built from
   * the first two pieces of `line.Split(',')`, trimmed.
   */
  function ParseLine(line: string): (r: Option<CsvRow>)
    ensures r.None? <==> ',' !in line
  {
    var parts := Split(line, ',');
    if |parts| > 1 then Some(CsvRow(Trim(parts[0]), Trim(parts[1]), FindPrefix(Trim(parts[0]))))
    else None
  }

  /**
   * The row of a line: the filter is the trimmed text before the first comma, the name the
   * trimmed text between the first and the second comma (or the end of the line), and the
   * prefix is derived from the filter; further fields are ignored.
   */
  lemma ParseLineFields(line: string)
    requires ',' in line
    ensures var r := ParseLine(line).value;
      var c := IndexOf(line, ',');
      var rest := line[c + 1..];
      && r.Filter == Trim(line[..c])
      && r.Name == Trim(if ',' in rest then rest[..IndexOf(rest, ',')] else rest)
      && r.Prefix == FindPrefix(r.Filter)
  {
    SplitSecond(line, ',');
  }

  /** The rows one line contributes: none or one. */
  function LineRows(line: string): seq<CsvRow> {
    match ParseLine(line)
    case Some(row) => [row]
    case None => []
  }

  /** The rows of README.txt, given its lines: reading stops at the first blank line. */
  function ParseManifest(lines: seq<string>): (rows: seq<CsvRow>)
    ensures |rows| <= |lines|
  {
    if |lines| == 0 || IsBlank(lines[0]) then []
    else
      LineRows(lines[0]) + ParseManifest(lines[1..])
  }

  /** Reading resumed at a blank line yields nothing more. */
  lemma ManifestAtBlank(lines: seq<string>, k: nat)
    requires k < |lines| && IsBlank(lines[k])
    ensures ParseManifest(lines[k..]) == []
  {
    assert lines[k..][0] == lines[k];
  }

  /** Reading resumed at a non-blank line yields that line's row, then the rest. */
  lemma ManifestAtLine(lines: seq<string>, k: nat)
    requires k < |lines| && !IsBlank(lines[k])
    ensures ParseManifest(lines[k..]) == LineRows(lines[k]) + ParseManifest(lines[k + 1..])
  {
    assert lines[k..][0] == lines[k];
    assert lines[k..][1..] == lines[k + 1..];
  }

  /** Appending the row of a non-blank line moves the reading point past that line. */
  lemma AddLineStep(lines: seq<string>, k: nat, added: seq<CsvRow>, goal: seq<CsvRow>)
    requires k < |lines| && !IsBlank(lines[k])
    requires added + ParseManifest(lines[k..]) == goal
    ensures (added + LineRows(lines[k])) + ParseManifest(lines[k + 1..]) == goal
  {
    ManifestAtLine(lines, k);
    var rows := LineRows(lines[k]);
    var rest := ParseManifest(lines[k + 1..]);
    assert (added + rows) + rest == added + (rows + rest);
  }

  /** No line at or after a blank line contributes a row. */
  lemma {:induction false} ParseStopsAtBlank(lines: seq<string>, k: nat)
    requires k < |lines| && IsBlank(lines[k])
    ensures ParseManifest(lines) == ParseManifest(lines[..k])
  {
    if k > 0 && !IsBlank(lines[0]) {
      assert lines[1..][..k - 1] == lines[..k][1..];
      ParseStopsAtBlank(lines[1..], k - 1);
    }
  }

  /** Before the first blank line, each line contributes its own row (if any), in file order. */
  lemma {:induction false} ParseConcatenates(lines: seq<string>, more: seq<string>)
    requires forall i | 0 <= i < |lines| :: !IsBlank(lines[i])
    ensures ParseManifest(lines + more) == ParseManifest(lines) + ParseManifest(more)
  {
    if |lines| > 0 {
      assert (lines + more)[1..] == lines[1..] + more;
      ParseConcatenates(lines[1..], more);
    } else {
      assert lines + more == more;
    }
  }

  /** Lines `0..j` of the file are all read: none of them is blank. */
  ghost predicate ReadsThrough(lines: seq<string>, j: int) {
    0 <= j < |lines| && forall i | 0 <= i <= j :: !IsBlank(lines[i])
  }

  lemma ReadsThroughShift(lines: seq<string>, j: int)
    requires |lines| > 0 && !IsBlank(lines[0]) && ReadsThrough(lines[1..], j)
    ensures ReadsThrough(lines, j + 1) && lines[j + 1] == lines[1..][j]
  {
    assert forall i | 1 <= i <= j + 1 :: lines[i] == lines[1..][i - 1];
  }

  /** Every row read comes from a line with a comma that precedes every blank line. */
  lemma {:induction false} ParsedRowsComeFromLines(lines: seq<string>, row: CsvRow)
    requires row in ParseManifest(lines)
    ensures exists j :: ReadsThrough(lines, j) && row in LineRows(lines[j])
  {
    if row in LineRows(lines[0]) {
      assert ReadsThrough(lines, 0);
    } else {
      ParsedRowsComeFromLines(lines[1..], row);
      var j :| ReadsThrough(lines[1..], j) && row in LineRows(lines[1..][j]);
      ReadsThroughShift(lines, j);
    }
  }

  // ---------------------------------------------------------------------------
  // Looking up an author

  /** `GetEachFilter`'s result: the filter of every row, in row order. */
  function Filters(rows: seq<CsvRow>): (f: seq<string>)
    ensures |f| == |rows| && forall k | 0 <= k < |rows| :: f[k] == rows[k].Filter
  {
    seq(|rows|, k requires 0 <= k < |rows| => rows[k].Filter)
  }

  /** The name of the first row whose filter starts with `item` (ignoring case), else "". */
  function FindSecondCsvValue(rows: seq<CsvRow>, item: string): (r: string)
    ensures (forall k | 0 <= k < |rows| :: !StartsWithIgnoreCase(rows[k].Filter, item)) ==> r == ""
    ensures forall k | 0 <= k < |rows| ::
      (StartsWithIgnoreCase(rows[k].Filter, item) &&
       forall j | 0 <= j < k :: !StartsWithIgnoreCase(rows[j].Filter, item)) ==> r == rows[k].Name
  {
    if |rows| == 0 then ""
    else if StartsWithIgnoreCase(rows[0].Filter, item) then rows[0].Name
    else
      var r := FindSecondCsvValue(rows[1..], item);
      assert forall k | 1 <= k < |rows| :: rows[k] == rows[1..][k - 1];
      r
  }

  predicate PrefixMatches(row: CsvRow, prefix: string) {
    EqualsIgnoreCase(row.Prefix, prefix)
  }

  /** LINQ `rows.Where(keep)`: the elements that pass `keep`, in their order. */
  function Where<T>(rows: seq<T>, keep: T -> bool): (m: seq<T>)
    ensures |m| <= |rows|
  {
    if |rows| == 0 then []
    else (if keep(rows[0]) then [rows[0]] else []) + Where(rows[1..], keep)
  }

  /** Filtering a sequence is filtering all but its last element, then testing the last. */
  lemma {:induction false} WhereSnoc<T>(rows: seq<T>, keep: T -> bool)
    requires |rows| > 0
    ensures Where(rows, keep) == Where(rows[..|rows| - 1], keep) + (if keep(rows[|rows| - 1]) then [rows[|rows| - 1]] else [])
  {
    if |rows| > 1 {
      var tail := rows[1..];
      WhereSnoc(tail, keep);
      assert tail[..|tail| - 1] == rows[..|rows| - 1][1..];
      assert tail[|tail| - 1] == rows[|rows| - 1];
    }
  }

  /** `Where` keeps exactly the elements that pass. */
  lemma {:induction false} WhereMembers<T>(rows: seq<T>, keep: T -> bool)
    ensures forall r | r in Where(rows, keep) :: r in rows && keep(r)
    ensures forall r | r in rows && keep(r) :: r in Where(rows, keep)
  {
    if |rows| > 0 {
      WhereMembers(rows[1..], keep);
      assert rows == [rows[0]] + rows[1..];
    }
  }

  /** The number in a filter: its digits parsed, or 0 when they do not parse. */
  function RowNumber(row: CsvRow): nat {
    TryParseInt32(Digits(row.Filter)).GetOr(0)
  }

  /** `Math.Abs(num - searchNumber)`. */
  function Distance(row: CsvRow, n: int): nat {
    if RowNumber(row) >= n then RowNumber(row) - n else n - RowNumber(row)
  }

  /**
   * `OrderBy(dist).First()`: as `OrderBy` is stable, the earliest of the rows at the least
   * distance.
   */
  function Closest(m: seq<CsvRow>, dist: CsvRow -> nat): (best: CsvRow)
    requires |m| > 0
    ensures best in m
    ensures forall r | r in m :: dist(best) <= dist(r)
  {
    if |m| == 1 then m[0]
    else
      var rest := Closest(m[1..], dist);
      assert forall r | r in m :: r == m[0] || r in m[1..];
      if dist(m[0]) <= dist(rest) then m[0] else rest
  }

  /**
   * The author for `filename`: among the rows whose prefix equals the prefix of the
   * extension-stripped name (ignoring case), the first one when that name's digits do not
   * parse as an `int`, otherwise the earliest one whose filter number is nearest; "" when
   * there are no rows, the name is blank or no prefix matches.
   */
  function SearchFilterReturnName(rows: seq<CsvRow>, filename: string): (r: string)
    ensures |rows| == 0 || IsBlank(filename) ==> r == ""
    ensures r != "" ==> exists row | row in rows ::
      PrefixMatches(row, FindPrefix(GetFileNameWithoutExtension(filename))) && row.Name == r
  {
    if |rows| == 0 || IsBlank(filename) then ""
    else
      var filenameNoExt := GetFileNameWithoutExtension(filename);
      var searchPrefix := FindPrefix(filenameNoExt);
      var matchingRows := Where(rows, row => PrefixMatches(row, searchPrefix));
      if |matchingRows| == 0 then ""
      else
        WhereMembers(rows, row => PrefixMatches(row, searchPrefix));
        assert matchingRows[0] in matchingRows;
        match TryParseInt32(Digits(filenameNoExt))
        case None => matchingRows[0].Name
        case Some(searchNumber) => Closest(matchingRows, row => Distance(row, searchNumber)).Name
  }

  /** The first row of the filtered list is the first kept row of the manifest. */
  lemma {:induction false} FirstKeptRow(rows: seq<CsvRow>, keep: CsvRow -> bool)
    requires Where(rows, keep) != []
    ensures exists j | 0 <= j < |rows| ::
      && Where(rows, keep)[0] == rows[j] && keep(rows[j])
      && forall i | 0 <= i < j :: !keep(rows[i])
  {
    if !keep(rows[0]) {
      FirstKeptRow(rows[1..], keep);
      var j :| 0 <= j < |rows[1..]| &&
        Where(rows[1..], keep)[0] == rows[1..][j] && keep(rows[1..][j]) &&
        forall i | 0 <= i < j :: !keep(rows[1..][i]);
      assert forall i | 1 <= i < j + 1 :: rows[i] == rows[1..][i - 1];
      assert rows[j + 1] == rows[1..][j];
    }
  }

  /** `j` is the earliest kept row of `rows` at least distance. */
  ghost predicate EarliestNearest(rows: seq<CsvRow>, keep: CsvRow -> bool, dist: CsvRow -> nat, j: int) {
    && 0 <= j < |rows| && keep(rows[j])
    && (forall i | 0 <= i < |rows| && keep(rows[i]) :: dist(rows[j]) <= dist(rows[i]))
    && (forall i | 0 <= i < j && keep(rows[i]) :: dist(rows[i]) > dist(rows[j]))
  }

  /** Shifting past a dropped or beaten head row keeps the choice earliest and nearest. */
  lemma EarliestNearestShift(rows: seq<CsvRow>, keep: CsvRow -> bool, dist: CsvRow -> nat, j: int)
    requires |rows| > 0 && EarliestNearest(rows[1..], keep, dist, j)
    requires keep(rows[0]) ==> dist(rows[0]) > dist(rows[j + 1])
    ensures EarliestNearest(rows, keep, dist, j + 1)
  {
    assert forall i | 1 <= i < |rows| :: rows[i] == rows[1..][i - 1];
  }

  /** A kept head row that is at least as near as the best of the rest is the choice. */
  lemma EarliestNearestHead(rows: seq<CsvRow>, keep: CsvRow -> bool, dist: CsvRow -> nat)
    requires |rows| > 0 && keep(rows[0])
    requires forall r | r in Where(rows[1..], keep) :: dist(rows[0]) <= dist(r)
    ensures EarliestNearest(rows, keep, dist, 0)
  {
    WhereMembers(rows[1..], keep);
    forall i | 0 < i < |rows| && keep(rows[i]) ensures dist(rows[0]) <= dist(rows[i]) {
      assert rows[i] in rows[1..];
    }
  }

  /**
   * Nearest-number selection in manifest order: the chosen row is a kept row at least
   * distance, and every kept row before it is strictly farther.
   */
  lemma {:induction false} ClosestIsEarliestNearest(rows: seq<CsvRow>, keep: CsvRow -> bool, dist: CsvRow -> nat)
    requires Where(rows, keep) != []
    ensures exists j :: EarliestNearest(rows, keep, dist, j) && Closest(Where(rows, keep), dist) == rows[j]
  {
    var m := Where(rows, keep);
    var tail := Where(rows[1..], keep);
    if !keep(rows[0]) {
      assert m == tail;
      ClosestIsEarliestNearest(rows[1..], keep, dist);
      var j :| EarliestNearest(rows[1..], keep, dist, j) && Closest(tail, dist) == rows[1..][j];
      EarliestNearestShift(rows, keep, dist, j);
    } else if tail == [] {
      assert m == [rows[0]];
      EarliestNearestHead(rows, keep, dist);
    } else {
      assert m == [rows[0]] + tail && m[1..] == tail;
      ClosestIsEarliestNearest(rows[1..], keep, dist);
      var j :| EarliestNearest(rows[1..], keep, dist, j) && Closest(tail, dist) == rows[1..][j];
      if dist(rows[0]) <= dist(rows[1..][j]) {
        EarliestNearestHead(rows, keep, dist);
      } else {
        EarliestNearestShift(rows, keep, dist, j);
      }
    }
  }

  /**
   * What `SearchFilterReturnName` answers once some row's prefix matches: the first
   * matching row's name when the file name's digits do not parse, otherwise the name of the
   * earliest matching row at least distance.
   */
  lemma SearchFilterReturnNameChoice(rows: seq<CsvRow>, filename: string)
    requires !IsBlank(filename)
    requires var p := FindPrefix(GetFileNameWithoutExtension(filename));
      exists i | 0 <= i < |rows| :: PrefixMatches(rows[i], p)
    ensures var noExt := GetFileNameWithoutExtension(filename);
      var p := FindPrefix(noExt);
      var keep := (row: CsvRow) => PrefixMatches(row, p);
      exists j | 0 <= j < |rows| ::
        && SearchFilterReturnName(rows, filename) == rows[j].Name
        && match TryParseInt32(Digits(noExt))
           case None => 0 <= j < |rows| && keep(rows[j]) && forall i | 0 <= i < j :: !keep(rows[i])
           case Some(n) => EarliestNearest(rows, keep, row => Distance(row, n), j)
  {
    var noExt := GetFileNameWithoutExtension(filename);
    var p := FindPrefix(noExt);
    var keep := (row: CsvRow) => PrefixMatches(row, p);
    var i :| 0 <= i < |rows| && PrefixMatches(rows[i], p);
    assert keep(rows[i]);
    assert Where(rows, keep) != [] by {
      WhereMembers(rows, keep);
      assert rows[i] in Where(rows, keep);
    }
    match TryParseInt32(Digits(noExt)) {
      case None =>
        FirstKeptRow(rows, keep);
      case Some(n) =>
        ClosestIsEarliestNearest(rows, keep, row => Distance(row, n));
    }
  }

  /** No matching prefix, no author. */
  lemma SearchFilterReturnNameNoMatch(rows: seq<CsvRow>, filename: string)
    requires var p := FindPrefix(GetFileNameWithoutExtension(filename));
      forall i | 0 <= i < |rows| :: !PrefixMatches(rows[i], p)
    ensures SearchFilterReturnName(rows, filename) == ""
  {
    if |rows| > 0 && !IsBlank(filename) {
      var p := FindPrefix(GetFileNameWithoutExtension(filename));
      var m := Where(rows, row => PrefixMatches(row, p));
      if m != [] {
        WhereMembers(rows, row => PrefixMatches(row, p));
        assert m[0] in m;
      }
    }
  }

  // ---------------------------------------------------------------------------
  // The manifest object

  class FileReadme {
    const directory: string
    var rows: seq<CsvRow>

    constructor (directory: string)
      ensures this.directory == directory && rows == []
    {
      this.directory := directory;
      rows := [];
    }

    /**
     * Reads `directory\README.txt`, where `textFiles` gives the lines of each text file on
     * disk. A missing file answers false and leaves the rows alone; otherwise the parsed rows
     * are appended to the rows already held.
     */
    method ReadReadme(textFiles: map<string, seq<string>>) returns (found: bool)
      modifies this
      ensures var readmePath := Combine(directory, ReadmeFileName);
        && found == (readmePath in textFiles)
        && rows == if found then old(rows) + ParseManifest(textFiles[readmePath]) else old(rows)
    {
      var readmePath := Combine(directory, ReadmeFileName);
      if readmePath !in textFiles {
        return false;
      }
      AddLines(textFiles[readmePath]);
      return true;
    }

    /**
     * The line loop of `ReadReadme`: stops at the first blank line; a line with a comma adds
     * its row (`ParseLine`). The rows are collected locally and stored once.
     */
    method AddLines(lines: seq<string>)
      modifies this
      ensures rows == old(rows) + ParseManifest(lines)
    {
      var added := rows;
      ghost var total := rows + ParseManifest(lines);
      var k := 0;
      while k < |lines| && !IsBlank(lines[k])
        invariant 0 <= k <= |lines|
        invariant added + ParseManifest(lines[k..]) == total
      {
        AddLineStep(lines, k, added, total);
        added := added + LineRows(lines[k]);
        k := k + 1;
      }
      if k < |lines| {
        ManifestAtBlank(lines, k);
      }
      rows := added;
    }

    /** The filter of every row, in row order, in a new array. */
    method GetEachFilter() returns (result: array<string>)
      ensures fresh(result)
      ensures result[..] == Filters(rows)
    {
      result := new string[|rows|];
      var i := 0;
      while i < |rows|
        invariant 0 <= i <= |rows|
        invariant forall k | 0 <= k < i :: result[k] == rows[k].Filter
      {
        result[i] := rows[i].Filter;
        i := i + 1;
      }
    }
  }
}
