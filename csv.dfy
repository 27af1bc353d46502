/**
 * The audit CSV (`FileCSV`): field quoting, the header and the row of each record, and the
 * choice of an output file name that is not yet taken.
 */
module FileCsv {
  import opened Nullable
  import opened Text
  import opened Paths
  import opened Records
  import opened Dates
  import opened FileSystem

  // ---------------------------------------------------------------------------------------
  // Escape

  /** The characters that make `Escape` quote a value: comma, double quote and line feed. */
  predicate NeedsQuoting(value: string) {
    ',' in value || '"' in value || '\n' in value
  }

  /** `value.Replace("\"", "\"\"")`. */
  function DoubleQuotes(value: string): string {
    if |value| == 0 then ""
    else (if value[0] == '"' then "\"\"" else [value[0]]) + DoubleQuotes(value[1..])
  }

  /**
   * A text field as written: empty stays empty, a value holding a comma, a double quote or a
   * line feed is enclosed in double quotes with its double quotes doubled, any other value is
   * written as it is.
   */
  function Escape(value: string): string {
    if |value| == 0 then ""
    else if NeedsQuoting(value) then "\"" + DoubleQuotes(value) + "\""
    else value
  }

  /** The reverse of `DoubleQuotes`: each pair of double quotes becomes one. */
  function UndoubleQuotes(s: string): string
    decreases |s|
  {
    if |s| == 0 then ""
    else if |s| >= 2 && s[0] == '"' && s[1] == '"' then "\"" + UndoubleQuotes(s[2..])
    else [s[0]] + UndoubleQuotes(s[1..])
  }

  /** Reading one field back: a quoted field loses its quotes and its doubled quotes. */
  function Unescape(field: string): string {
    if |field| >= 2 && field[0] == '"' && field[|field| - 1] == '"' then UndoubleQuotes(field[1..|field| - 1])
    else field
  }

  lemma {:induction false} UndoubleDouble(value: string)
    ensures UndoubleQuotes(DoubleQuotes(value)) == value
  {
    if |value| > 0 {
      UndoubleDouble(value[1..]);
      var d := DoubleQuotes(value[1..]);
      if value[0] == '"' {
        assert ("\"\"" + d)[2..] == d;
      } else {
        assert ([value[0]] + d)[1..] == d;
      }
      assert value == [value[0]] + value[1..];
    }
  }

  /** An empty value and a value without special characters are written unchanged. */
  lemma EscapePlain(value: string)
    requires !NeedsQuoting(value)
    ensures Escape(value) == value
  {
  }

  /** A value holding a special character is quoted, with its double quotes doubled. */
  lemma EscapeQuotes(value: string)
    requires NeedsQuoting(value)
    ensures Escape(value) == "\"" + DoubleQuotes(value) + "\""
  {
  }

  /** Every value can be read back from its field. */
  lemma EscapeRoundTrip(value: string)
    ensures Unescape(Escape(value)) == value
  {
    if |value| > 0 && NeedsQuoting(value) {
      var e := Escape(value);
      UndoubleDouble(value);
      assert e[1..|e| - 1] == DoubleQuotes(value);
    } else if |value| > 0 {
      assert '"' !in value;
      assert value[0] != '"';
    }
  }

  // ---------------------------------------------------------------------------------------
  // Reading a line back (section 2 of RFC 4180)

  /**
   * The rest of a quoted field, after its opening quote: its value, up to the closing quote,
   * and the text after the closing quote.
   */
  function ReadQuoted(s: string): (r: (string, string))
    ensures |r.1| <= |s|
    decreases |s|
  {
    if |s| == 0 then ("", "")
    else if s[0] == '"' then
      if |s| >= 2 && s[1] == '"' then
        var (v, rest) := ReadQuoted(s[2..]);
        ("\"" + v, rest)
      else ("", s[1..])
    else
      var (v, rest) := ReadQuoted(s[1..]);
      ([s[0]] + v, rest)
  }

  /** The values of the comma-separated fields of a line, quoted or not. */
  function ParseLine(s: string): (values: seq<string>)
    ensures |values| >= 1
    decreases |s|
  {
    if |s| > 0 && s[0] == '"' then
      var (v, rest) := ReadQuoted(s[1..]);
      if |rest| > 0 && rest[0] == ',' then [v] + ParseLine(rest[1..]) else [v]
    else
      var k := IndexOf(s, ',');
      if k < 0 then [s] else [s[..k]] + ParseLine(s[k + 1..])
  }

  /** The doubled quotes of a value, then a closing quote, read back as the value. */
  lemma {:induction false} ReadDoubled(value: string, tail: string)
    requires |tail| == 0 || tail[0] != '"'
    ensures ReadQuoted(DoubleQuotes(value) + "\"" + tail) == (value, tail)
  {
    var s := DoubleQuotes(value) + "\"" + tail;
    if |value| == 0 {
      assert s == "\"" + tail;
      assert s[1..] == tail;
    } else {
      var d := DoubleQuotes(value[1..]);
      ReadDoubled(value[1..], tail);
      if value[0] == '"' {
        assert s == "\"\"" + (d + "\"" + tail);
        assert s[2..] == d + "\"" + tail;
      } else {
        assert s == [value[0]] + (d + "\"" + tail);
        assert s[1..] == d + "\"" + tail;
      }
      assert value == [value[0]] + value[1..];
    }
  }

  /** Each value through `Escape`. */
  function EscapeAll(values: seq<string>): (fields: seq<string>)
    ensures |fields| == |values|
  {
    if |values| == 0 then [] else [Escape(values[0])] + EscapeAll(values[1..])
  }

  /** A line of escaped values, joined by commas, reads back as the values. */
  lemma {:induction false} ParseEscaped(values: seq<string>)
    requires |values| >= 1
    ensures ParseLine(Join(EscapeAll(values), ',')) == values
  {
    var fields := EscapeAll(values);
    assert fields[0] == Escape(values[0]);
    if |values| == 1 {
      ParseField(values[0], "");
      assert Escape(values[0]) + "" == Escape(values[0]);
    } else {
      var rest := Join(EscapeAll(values[1..]), ',');
      assert fields[1..] == EscapeAll(values[1..]);
      assert Join(fields, ',') == Escape(values[0]) + ("," + rest);
      ParseField(values[0], "," + rest);
      assert ("," + rest)[1..] == rest;
      ParseEscaped(values[1..]);
      assert values == [values[0]] + values[1..];
    }
  }

  /** An escaped value followed by the end of the line or by a comma reads back as the value. */
  lemma ParseField(value: string, tail: string)
    requires |tail| == 0 || tail[0] == ','
    ensures ParseLine(Escape(value) + tail) == [value] + (if |tail| == 0 then [] else ParseLine(tail[1..]))
  {
    if |value| > 0 && NeedsQuoting(value) {
      ParseQuoted(value, tail);
    } else {
      ParsePlain(value, tail);
    }
  }

  lemma ParseQuoted(value: string, tail: string)
    requires |tail| == 0 || tail[0] == ','
    requires |value| > 0 && NeedsQuoting(value)
    ensures ParseLine(Escape(value) + tail) == [value] + (if |tail| == 0 then [] else ParseLine(tail[1..]))
  {
    EscapeQuotes(value);
    ParseQuotedLine(value, tail);
  }

  lemma ParseQuotedLine(value: string, tail: string)
    requires |tail| == 0 || tail[0] == ','
    ensures ParseLine("\"" + DoubleQuotes(value) + "\"" + tail) == [value] + (if |tail| == 0 then [] else ParseLine(tail[1..]))
  {
    var s := "\"" + DoubleQuotes(value) + "\"" + tail;
    assert s[0] == '"' && s[1..] == DoubleQuotes(value) + "\"" + tail;
    ReadDoubled(value, tail);
  }

  lemma ParsePlain(value: string, tail: string)
    requires |tail| == 0 || tail[0] == ','
    requires |value| == 0 || !NeedsQuoting(value)
    ensures ParseLine(Escape(value) + tail) == [value] + (if |tail| == 0 then [] else ParseLine(tail[1..]))
  {
    var s := value + tail;
    assert Escape(value) == value;
    assert ',' !in value && '"' !in value;
    if |value| > 0 {
      assert s[0] == value[0];
    }
    if |tail| > 0 {
      assert s[|value|] == ',' && s[..|value|] == value;
      IndexOfIs(s, ',', |value|);
      assert s[|value| + 1..] == tail[1..];
    } else {
      assert s == value;
    }
  }

  // ---------------------------------------------------------------------------------------
  // Header and rows

  /** The column names, in order. */
  const Columns: seq<string> := ["FilePath", "FileName", "FileNameMod", "FileNameAuthor", "FileNameOrdered", "Author",
    "BestDate", "DateTaken", "FileCreated", "FileModified", "Status", "ErrorMessage"]

  /** The header line: the column names separated by commas. */
  const Header: string := Join(Columns, ',')

  /** The header reads back as the twelve column names. */
  lemma HeaderColumns()
    ensures ParseLine(Header) == Columns
  {
    ColumnsPlain();
    ParseEscaped(Columns);
  }

  lemma ColumnsPlain()
    ensures EscapeAll(Columns) == Columns
  {
    forall i | 0 <= i < |Columns| ensures !NeedsQuoting(Columns[i]) {
      IsNameUnquoted(Columns[i]);
    }
    EscapeAllPlain(Columns);
  }

  /** A name made of letters needs no quoting. */
  lemma IsNameUnquoted(s: string)
    requires forall i | 0 <= i < |s| :: IsLetter(s[i])
    ensures !NeedsQuoting(s)
  {
  }

  /** Values without special characters are written unchanged. */
  lemma {:induction false} EscapeAllPlain(values: seq<string>)
    requires forall i | 0 <= i < |values| :: !NeedsQuoting(values[i])
    ensures EscapeAll(values) == values
  {
    if |values| > 0 {
      EscapeAllPlain(values[1..]);
      assert values == [values[0]] + values[1..];
    }
  }

  /** `NullableDate`: the rendering of the date, or the empty text when there is none. */
  function NullableDate(d: Option<DateTime>): string {
    match d
    case Some(t) => Format(t)
    case None => ""
  }

  /** The twelve values of a record's row, in column order, before quoting. */
  function Values(r: FileRecord): (vs: seq<string>)
    ensures |vs| == 12
  {
    WithDates(r, Format(r.BestDate()), NullableDate(r.DateTaken), Format(r.FileCreated), Format(r.FileModified))
  }

  /** The twelve values of a record's row, given its four dates as rendered. */
  function WithDates(r: FileRecord, bestDate: string, dateTaken: string, fileCreated: string, fileModified: string): seq<string> {
    [r.FilePath, r.FileName, r.FileNameMod, r.FileNameAuthor, r.FileNameOrdered, r.Author,
     bestDate, dateTaken, fileCreated, fileModified, r.Status, r.ErrorMessage]
  }

  /** The columns that hold dates: `BestDate`, `DateTaken`, `FileCreated` and `FileModified`. */
  predicate IsDateColumn(i: int) {
    6 <= i < 10
  }

  /** The fields of a row: the dates as rendered, every other value through `Escape`. */
  function Fields(values: seq<string>): (fields: seq<string>)
    ensures |fields| == |values|
  {
    seq(|values|, i requires 0 <= i < |values| => if IsDateColumn(i) then values[i] else Escape(values[i]))
  }

  /** The row of a record: its fields joined by commas. */
  function Row(r: FileRecord): string {
    Join(Fields(Values(r)), ',')
  }

  /** A rendered date needs no quoting. */
  lemma FormatUnquoted(t: DateTime)
    ensures !NeedsQuoting(Format(t))
  {
    FormatPlain(t);
  }

  /** The row is the record's twelve values, escaped; the dates need no quoting. */
  lemma RowEscapesValues(r: FileRecord)
    ensures Row(r) == Join(EscapeAll(Values(r)), ',')
  {
    DatesUnquoted(r);
    FieldsEscapeAll(Values(r));
  }

  /** Values whose dates need no quoting: writing the dates as they are is escaping them. */
  lemma FieldsEscapeAll(values: seq<string>)
    requires forall i | 0 <= i < |values| && IsDateColumn(i) :: !NeedsQuoting(values[i])
    ensures Fields(values) == EscapeAll(values)
  {
    forall i | 0 <= i < |values| ensures Fields(values)[i] == EscapeAll(values)[i] {
      EscapeAllAt(values, i);
    }
  }

  /** None of a record's rendered dates needs quoting. */
  lemma DatesUnquoted(r: FileRecord)
    ensures forall i | 0 <= i < 12 && IsDateColumn(i) :: !NeedsQuoting(Values(r)[i])
  {
    FormatUnquoted(r.BestDate());
    FormatUnquoted(r.FileCreated);
    FormatUnquoted(r.FileModified);
    if r.DateTaken.Some? {
      FormatUnquoted(r.DateTaken.value);
    }
    PlainDates(r, Format(r.BestDate()), NullableDate(r.DateTaken), Format(r.FileCreated), Format(r.FileModified));
  }

  lemma PlainDates(r: FileRecord, bestDate: string, dateTaken: string, fileCreated: string, fileModified: string)
    requires !NeedsQuoting(bestDate) && !NeedsQuoting(dateTaken) && !NeedsQuoting(fileCreated) && !NeedsQuoting(fileModified)
    ensures forall i | 0 <= i < 12 && IsDateColumn(i) :: !NeedsQuoting(WithDates(r, bestDate, dateTaken, fileCreated, fileModified)[i])
  {
  }

  lemma {:induction false} EscapeAllAt(values: seq<string>, i: nat)
    requires i < |values|
    ensures EscapeAll(values)[i] == Escape(values[i])
  {
    if i > 0 {
      EscapeAllAt(values[1..], i - 1);
    }
  }

  /** Each row reads back as the record's twelve values, in column order, whatever the text fields hold. */
  lemma RowRoundTrip(r: FileRecord)
    ensures ParseLine(Row(r)) == Values(r)
  {
    RowEscapesValues(r);
    ParseEscaped(Values(r));
  }

  /** `f` applied to each element, in order. */
  function Map<A, B>(f: A -> B, xs: seq<A>): (ys: seq<B>)
    ensures |ys| == |xs|
  {
    if |xs| == 0 then [] else Map(f, xs[..|xs| - 1]) + [f(xs[|xs| - 1])]
  }

  lemma {:induction false} MapAt<A, B>(f: A -> B, xs: seq<A>, i: nat)
    requires i < |xs|
    ensures Map(f, xs)[i] == f(xs[i])
  {
    if i < |xs| - 1 {
      var front := xs[..|xs| - 1];
      MapAt(f, front, i);
      assert xs[i] == front[i];
    }
  }

  lemma MapSnoc<A, B>(f: A -> B, xs: seq<A>, k: nat)
    requires k < |xs|
    ensures Map(f, xs[..k + 1]) == Map(f, xs[..k]) + [f(xs[k])]
  {
    assert xs[..k + 1][..k] == xs[..k];
  }

  /** The rows of the records, in list order. */
  function Rows(items: seq<FileRecord>): seq<string> {
    Map(Row, items)
  }

  /** Row `i` is the row of record `i`. */
  lemma RowsAt(items: seq<FileRecord>, i: nat)
    requires i < |items|
    ensures |Rows(items)| == |items| && Rows(items)[i] == Row(items[i])
  {
    MapAt(Row, items, i);
  }

  // ---------------------------------------------------------------------------------------
  // WriteAuditCsv

  /** The `n`-th file name tried: `base.csv`, then `base(1).csv`, `base(2).csv`, ... in the folder. */
  function Candidate(folderPath: string, baseFileName: string, n: nat): string {
    if n == 0 then Combine(folderPath, baseFileName + ".csv")
    else Combine(folderPath, baseFileName + "(" + NatToDecimal(n) + ").csv")
  }

  /** Different attempts try different file names. */
  lemma CandidateInjective(folderPath: string, baseFileName: string, m: nat, n: nat)
    requires Candidate(folderPath, baseFileName, m) == Candidate(folderPath, baseFileName, n)
    ensures m == n
  {
    var a := if m == 0 then baseFileName + ".csv" else baseFileName + "(" + NatToDecimal(m) + ").csv";
    var b := if n == 0 then baseFileName + ".csv" else baseFileName + "(" + NatToDecimal(n) + ").csv";
    CombineInjective(folderPath, a, b);
    if m > 0 && n > 0 {
      var dm, dn := NatToDecimal(m), NatToDecimal(n);
      var k := |baseFileName| + 1;
      assert |dm| == |dn|;
      assert a[k..k + |dm|] == dm;
      assert b[k..k + |dn|] == dn;
      NatToDecimalInjective(m, n);
    }
  }

  /** `Path.Combine` with one directory tells names apart. */
  lemma CombineInjective(directory: string, a: string, b: string)
    requires Combine(directory, a) == Combine(directory, b)
    ensures a == b
  {
    var x := Combine(directory, a);
    assert |a| == |b|;
    assert a == x[|x| - |a|..];
  }

  /** Attempts that all hit existing files are no more than the files there are. */
  lemma {:induction false} TakenBound(existing: set<string>, folderPath: string, baseFileName: string, n: nat)
    requires forall j | 0 <= j < n :: Candidate(folderPath, baseFileName, j) in existing
    ensures n <= |existing|
  {
    if n > 0 {
      var last := Candidate(folderPath, baseFileName, n - 1);
      var rest := existing - {last};
      forall j | 0 <= j < n - 1 ensures Candidate(folderPath, baseFileName, j) in rest {
        if Candidate(folderPath, baseFileName, j) == last {
          CandidateInjective(folderPath, baseFileName, j, n - 1);
        }
      }
      TakenBound(rest, folderPath, baseFileName, n - 1);
    }
  }

  /**
   * The file-name search of `WriteAuditCsv`: the first of `base.csv`, `base(1).csv`, ... that
   * does not exist, and how many were tried before it.
   */
  method ChooseFileName(existing: set<string>, folderPath: string, baseFileName: string) returns (fileName: string, taken: nat)
    ensures fileName == Candidate(folderPath, baseFileName, taken) && fileName !in existing
    ensures forall j | 0 <= j < taken :: Candidate(folderPath, baseFileName, j) in existing
  {
    fileName := Combine(folderPath, baseFileName + ".csv");
    var count := 1;
    while fileName in existing
      invariant 1 <= count && fileName == Candidate(folderPath, baseFileName, count - 1)
      invariant forall j | 0 <= j < count - 1 :: Candidate(folderPath, baseFileName, j) in existing
      decreases |existing| - count
    {
      TakenBound(existing, folderPath, baseFileName, count);
      var numberedFileName := baseFileName + "(" + NatToDecimal(count) + ").csv";
      fileName := Combine(folderPath, numberedFileName);
      count := count + 1;
    }
    taken := count - 1;
  }

  /**
   * `WriteAuditCsv`: picks the first free file name and writes the header and then one row per
   * record, in list order; the file is created.
   */
  method WriteAuditCsv(allResults: ResultList, baseFileName: string, folderPath: string, disk: Disk)
    returns (fileName: string, lines: seq<string>)
    modifies disk
    ensures fileName !in old(disk.paths) && disk.paths == old(disk.paths) + {fileName}
    ensures exists n: nat ::
              && fileName == Candidate(folderPath, baseFileName, n)
              && (forall j | 0 <= j < n :: Candidate(folderPath, baseFileName, j) in old(disk.paths))
    ensures lines == [Header] + Rows(allResults.items)
  {
    var taken;
    fileName, taken := ChooseFileName(disk.paths, folderPath, baseFileName);
    disk.paths := disk.paths + {fileName};
    var rows := WriteRows(allResults.items);
    lines := [Header] + rows;
  }

  /** The row loop of `WriteAuditCsv`: one row per record, in list order. */
  method WriteRows(items: seq<FileRecord>) returns (rows: seq<string>)
    ensures rows == Rows(items)
  {
    rows := [];
    for k := 0 to |items|
      invariant rows == Rows(items[..k])
    {
      MapSnoc(Row, items, k);
      rows := rows + [Row(items[k])];
    }
    assert items[..|items|] == items;
  }
}
