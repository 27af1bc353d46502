# ImageSorter core, modelled in Dafny

ImageSorter renames a folder of photos and videos so they sort in shooting order. Each file
has a record (`FileProcessResult`). Metadata readers fill in its dates. A chain of in-memory
stages then works on the list of records:

- `FileMOV.UpdateMovDatesFromJpeg` gives a `.mov` video the capture date of the `.jpg` or
  `.jpeg` photo that has its base name.
- `FileManipulation.FindSimilarFiles` adds a "Similar" record for each file in the folder that
  shares a base name with a listed file. The new record inherits that file's dates.
- `FileManipulation.FindAuthors` asks the README.txt manifest (`FileReadme`) which author took
  each file.
- `FileManipulation.OrderFiles` sorts the records by their best date (`BestDate`) and numbers
  them in batches. A sidecar (same base name as the previous record) keeps the previous
  number. A gap of more than two hours starts a fresh multiple of ten.
- `FileManipulation.RenameFiles` moves each file to its `FileNameMod` with `_{author}` inserted
  before the extension when the record has an author. It never overwrites an existing file.
  As the stages are wired, `FileNameMod` already holds the author, so the author appears twice
  (see "Author written twice" below).
- `FileCSV.WriteAuditCsv` writes an audit CSV under the first free name among `base.csv`,
  `base(1).csv`, and so on.

This project models those stages and proves what they promise. The modules follow the
program's files:

| module | file | models |
|---|---|---|
| `Records` | `records.dfy` | the record, `BestDate`, tick timestamps, the shared `List<FileProcessResult>` (class `ResultList`) |
| `Readme` | `readme.dfy` | `FileReadme`: manifest parsing, `FindPrefix`, `SearchFilterReturnName`, `FindSecondCsvValue`, `GetEachFilter` |
| `FileManipulation` | `manipulation.dfy` | `OrderFiles`, `FindAuthors`, `FindSimilarFiles`, `RenameFiles` |
| `FileCsv` | `csv.dfy` | `Escape`, `NullableDate`, header and rows, the output-name search of `WriteAuditCsv` |
| `FileMov` | `mov.dfy` | `UpdateMovDatesFromJpeg` |
| `Text`, `Paths`, `Dates` | `text.dfy`, `paths.dfy`, `dates.dfy` | the .NET string, `System.IO.Path` and `DateTime` formatting behaviour the core relies on |
| `Nullable`, `FileSystem` | `nullable.dfy`, `filesystem.dfy` | `DateTime?`, and the set of existing paths |

Modelling choices:

- **Records and the list.** A record is a value (`datatype FileRecord`). The list that every
  stage changes in place is a class (`ResultList`) with a `seq` field. Each stage is a
  `method` with a `modifies` clause and a loop. Its `ensures` ties the new list to a
  specification function of the old one. Lemmas about that function state what the source
  promises.
- **Timestamps.** A `DateTime` is its tick count (100 ns units since 0001-01-01), as .NET
  stores it. `TotalHours > 2` is a tick difference above two hours.
- **Null strings.** Text fields that C# leaves null are the empty string here. Every
  consumer treats null and `""` alike (`IsNullOrWhiteSpace`, `Escape`, string interpolation).
- **Files.** The file system is a set of existing paths (class `Disk`). README.txt is a map
  from a path to its lines. The folder listing that `Directory.GetFiles` returns is a
  sequence of paths.
- **Record fields.** `FileProcessResult.cs` lacks `FileNameAuthor` and `FileNameOrdered`.
  `FileManipulation.cs` and `FileCSV.cs` read and write both fields. The record here carries
  all eleven fields that `FileCSV.cs:36` writes.

Behaviour of the code that the model keeps as written:

- **Prefix with a leading underscore.** `FindPrefix` takes the text through the first
  underscore only when that underscore is past the first character
  (`FileReadme.cs:123-125`). A filter that starts with `_` gets its leading letters as its
  prefix, and those are the empty string (`Readme.LeadingUnderscorePrefix`). The comment at
  `FileReadme.cs:115` describes the prefix as the leading letters up to the first underscore.
- **Sort order.** `List.Sort` is not stable, so `OrderFiles` promises a permutation sorted by
  `BestDate`.
- **Sidecar numbering.** Only a run of adjacent sidecars shares a number after sorting
  (`FileManipulation.SameOrdinalIffSidecarRun`). Two files with one base name that are not
  next to each other get different numbers.
- **Three-digit prefixes.** `{i:D3}` is a minimum width, so from 1000 on the first three
  characters of `FileNameOrdered` no longer identify the number: 100 and 1000 both start
  with `100`. `FileManipulation.NumberedNames` and `FileManipulation.SamePrefixIffSidecarRun`
  therefore speak about records whose number is below 1000, in a list of any length.

A consequence of the pipeline order that the model proves:

- **Author written twice.** `FindAuthors` runs before `OrderFiles`. `OrderFiles` builds
  `FileNameMod` from `FileNameAuthor`, which already holds the author. `RenameFiles` then
  inserts the author again, giving `001_IMG_1234_Ann_Ann.jpg`
  (`FileManipulation.RenameRepeatsAuthor`).

## Model

| member | source | states |
|---|---|---|
| Records.FileRecord.BestDate | FileProcessResult.cs:9-13 | `DateTaken` when present; otherwise one of `FileCreated`/`FileModified` that is no later than either (their minimum) |
| Records.BestDateReadsOnlyDates | FileProcessResult.cs:12 | records that agree on the three date fields have the same `BestDate`, whatever their names, author or status |
| Text.EqualsIgnoreCaseIff | ImageSorter/FileManipulation.cs:165-167 | `OrdinalIgnoreCase` equality holds exactly when the lengths agree and every position agrees after upper-casing |
| Text.EqualsIgnoreCaseReflexive | ImageSorter/FileManipulation.cs:159-167 | every base name equals itself ignoring case, so the first record counts as a sidecar of itself |
| Text.IndexOf | FileReadme.cs:123 | `IndexOf('_')` is the first position holding the character, or -1 exactly when there is none |
| Text.LastIndexOfFacts | ImageSorter/FileManipulation.cs:134-135 | `LastIndexOf('.')` holds the character with none after it, or -1 exactly when there is none |
| Text.TrimStart | FileReadme.cs:70-72 | drops exactly a blank prefix; the result is empty or starts with a non-space |
| Text.TrimEnd | FileReadme.cs:70-72 | drops exactly a blank suffix; the result is empty or ends with a non-space |
| Text.Trim | FileReadme.cs:70-72 | the result is empty or starts and ends with a non-space |
| Text.TrimIsInfix | FileReadme.cs:70-72 | `Trim` keeps exactly the middle of the line, between a blank prefix and a blank suffix |
| Text.Digits | FileReadme.cs:160 | `Where(char.IsDigit)` keeps exactly the digits of the text, and a string of digits unchanged |
| Text.DigitsConcat | FileReadme.cs:160 | the digits of a concatenation are the digits of the first part followed by those of the second, so order and multiplicity are kept |
| Text.DigitsOne | FileReadme.cs:160 | a single character is kept exactly when it is a digit; with `DigitsConcat` this determines `Digits` of every text |
| Text.TryParseInt32 | FileReadme.cs:161 | `int.TryParse` of a digit string succeeds exactly when the string is non-empty and its value is at most `int.MaxValue`; it then gives that value |
| Text.NatToDecimal | ImageSorter/FileCSV.cs:24 | `{count}` is a non-empty digit string without a leading zero |
| Text.DecimalRoundTrip | ImageSorter/FileCSV.cs:24 | the rendering of a number reads back as that number |
| Text.NatToDecimalInjective | ImageSorter/FileCSV.cs:24 | different numbers render differently |
| Text.ZeroPad | ImageSorter/FileManipulation.cs:190 | `{i:D3}` is digits, at least three of them, ending in the plain rendering of `i` |
| Text.ZeroPadRoundTrip | ImageSorter/FileManipulation.cs:190 | the zero-padded rendering reads back as the number |
| Text.ZeroPadWidth | ImageSorter/FileManipulation.cs:190 | a number below 10^w is padded to exactly `w` characters |
| Text.Split | FileReadme.cs:67 | `Split(',')` gives at least one piece, and more than one exactly when the line holds a comma |
| Text.SplitPieces | FileReadme.cs:67 | no piece holds the separator |
| Text.SplitSecond | FileReadme.cs:67-71 | the second piece is the text between the first and the second comma, or up to the end |
| Text.SplitThenJoin | FileReadme.cs:67 | joining the pieces with the separator gives the line back |
| Text.JoinThenSplit | FileReadme.cs:67 | splitting a join of separator-free pieces gives the pieces back |
| Paths.LastSeparatorFacts | ImageSorter/FileManipulation.cs:277 | the last separator position holds `\` or `/` and none follows it |
| Paths.GetFileNameFacts | ImageSorter/FileManipulation.cs:241 | `GetFileName` is a separator-free suffix, preceded by a separator unless it is the whole path |
| Paths.NoExtensionFacts | ImageSorter/FileManipulation.cs:134 | `GetFileNameWithoutExtension` is the file name, or its part before the last `.` |
| Paths.GetExtension | ImageSorter/FileManipulation.cs:135 | `GetExtension` is empty, or a suffix of the file name that starts with its only `.` and has a character after it |
| Paths.StemAndExtension | ImageSorter/FileManipulation.cs:278-279 | the stem followed by the extension is the file name; a trailing `.` belongs to neither |
| Paths.InsertBeforeExtension | ImageSorter/FileManipulation.cs:136 | text free of dots inserted before a real extension keeps that extension and lengthens the stem |
| Paths.Combine | ImageSorter/FileCSV.cs:20 | `Path.Combine` ends with the name, behind a separator when the directory is not empty, and starts with the directory |
| Paths.SiblingPathFacts | ImageSorter/FileManipulation.cs:277-289 | `Combine(GetDirectoryName(path), name)` has file name `name` and the directory part of `path` |
| Readme.LeadingLetters | FileReadme.cs:128 | `TakeWhile(char.IsLetter)` is the longest prefix made of letters |
| Readme.FindPrefix | FileReadme.cs:119-132 | when the first `_` is past index 0 the result runs through it; otherwise it is the longest leading run of letters; always a prefix of the filter |
| Readme.LeadingUnderscorePrefix | FileReadme.cs:123-128 | a filter that starts with `_` has the empty prefix |
| Readme.ParseLine | FileReadme.cs:67-73 | a line makes no row exactly when it has no comma |
| Readme.ParseLineFields | FileReadme.cs:67-73 | the row of a line with a comma holds the trimmed text before the first comma, the trimmed second field, and the filter's prefix; later fields are ignored |
| Readme.ParseStopsAtBlank | FileReadme.cs:61-65 | no line at or after the first blank line contributes a row |
| Readme.ParseConcatenates | FileReadme.cs:61-74 | before the first blank line each line contributes its own row, in file order |
| Readme.ParsedRowsComeFromLines | FileReadme.cs:61-73 | every row comes from a line with a comma that is read before any blank line |
| Readme.Filters | FileReadme.cs:79-90 | the filter of every row, in row order |
| Readme.FindSecondCsvValue | FileReadme.cs:97-110 | the name of the first row whose filter starts with the item, ignoring case; "" when none does |
| Readme.WhereMembers | FileReadme.cs:155 | `Where` keeps exactly the rows that pass the test |
| Readme.Closest | FileReadme.cs:165-178 | the chosen row is among the matching rows and no matching row is nearer |
| Readme.SearchFilterReturnName | FileReadme.cs:143-157 | "" when there are no rows or the file name is blank; a non-empty answer is the name of a row whose prefix matches |
| Readme.FirstKeptRow | FileReadme.cs:162 | `matchingRows.First()` is the earliest manifest row that matches |
| Readme.ClosestIsEarliestNearest | FileReadme.cs:165-178 | `OrderBy(Distance).First()` is a matching row at the least distance, and every earlier matching row is strictly farther |
| Readme.SearchFilterReturnNameChoice | FileReadme.cs:159-180 | once some prefix matches: the first matching row's name when the file's digits do not parse, otherwise the name of the earliest matching row with the nearest filter number |
| Readme.SearchFilterReturnNameNoMatch | FileReadme.cs:154-157 | no row with a matching prefix means no author |
| Readme.FileReadme.constructor | FileReadme.cs:41-44 | a new manifest has its directory and no rows |
| Readme.FileReadme.ReadReadme | FileReadme.cs:51-77 | answers whether `directory\README.txt` exists; if it does, the parsed rows are appended, otherwise the rows are unchanged |
| Readme.FileReadme.AddLines | FileReadme.cs:58-75 | the line loop appends exactly the parsed rows of the file |
| Readme.FileReadme.GetEachFilter | FileReadme.cs:79-90 | a new array holding the filter of every row, in row order |
| FileManipulation.InsertBy | ImageSorter/FileManipulation.cs:155 | inserting into a sorted list keeps it sorted and adds exactly one element |
| FileManipulation.SortBy | ImageSorter/FileManipulation.cs:155 | the result is sorted by the key and is a permutation of the input |
| FileManipulation.SortByBestDate | ImageSorter/FileManipulation.cs:155 | `Sort` by `BestDate` yields a permutation sorted by `BestDate` |
| FileManipulation.MoveAt | ImageSorter/FileManipulation.cs:164-188 | the move at record `k` compares it with record `k - 1` (the first with itself) |
| FileManipulation.AdvanceFacts | ImageSorter/FileManipulation.cs:169-188 | a move keeps the number exactly when it is a sidecar; other moves raise it by 1 to 10, and a new batch lands on a multiple of ten |
| FileManipulation.AfterBounds | ImageSorter/FileManipulation.cs:158-188 | after `k` moves the number is between 1 and `10k + 1` |
| FileManipulation.AfterMonotone | ImageSorter/FileManipulation.cs:158-188 | the running number never decreases |
| FileManipulation.SameAfterIffSidecars | ImageSorter/FileManipulation.cs:158-188 | the number is unchanged across a stretch of moves exactly when all of them are sidecar moves |
| FileManipulation.OrdinalSteps | ImageSorter/FileManipulation.cs:158-188 | the first record is 1; a sidecar keeps the previous number whatever the gap; otherwise `prev/10*10+10` (a multiple of ten) after a gap over two hours, else `prev+1` |
| FileManipulation.FirstMoveIsSidecar | ImageSorter/FileManipulation.cs:159-167 | the first record is compared with itself, a sidecar move |
| FileManipulation.OrdinalBounds | ImageSorter/FileManipulation.cs:158-183 | numbers start at 1 and grow by at most ten per record |
| FileManipulation.OrdinalMonotone | ImageSorter/FileManipulation.cs:169-188 | numbers never decrease along the sorted list |
| FileManipulation.SidecarMoveIff | ImageSorter/FileManipulation.cs:164-169 | the loop keeps the number at record `m` exactly when `m` has the base name of record `m - 1` |
| FileManipulation.SameOrdinalIffSidecarRun | ImageSorter/FileManipulation.cs:164-188 | two records share a number exactly when every record between them is a sidecar of its predecessor |
| FileManipulation.NumberedNames | ImageSorter/FileManipulation.cs:189-202 | for a record whose number is below 1000, `FileNameOrdered` is the three-digit number, `_`, the file name; `FileNameMod` is the number, `_`, then `FileNameAuthor` when not blank, else the file name |
| FileManipulation.NumberedKeepsOtherFields | ImageSorter/FileManipulation.cs:189-202 | the numbering writes `FileNameOrdered` and `FileNameMod` only |
| FileManipulation.SamePrefixIffSidecarRun | ImageSorter/FileManipulation.cs:190 | while the numbers are below 1000, in a list of any length, two names share their three-digit prefix exactly when the records form a sidecar run |
| FileManipulation.AssignOrdinals | ImageSorter/FileManipulation.cs:157-204 | the numbering loop names every record after its number |
| FileManipulation.NumberOne | ImageSorter/FileManipulation.cs:162-204 | one turn names record `k` and moves the loop state on to `k + 1` |
| FileManipulation.NextOrdinal | ImageSorter/FileManipulation.cs:164-188 | the number update equals the move's effect, and `lastPrefix` follows `i` |
| FileManipulation.OrderFiles | ImageSorter/FileManipulation.cs:148-205 | fewer than two records: unchanged; otherwise the list becomes a sorted permutation of the old one, numbered |
| FileManipulation.AttributeAll | ImageSorter/FileManipulation.cs:123-142 | every record is attributed in place; the length is kept |
| FileManipulation.AttributedSkipsBlank | ImageSorter/FileManipulation.cs:125-126 | a record with a blank file name is left alone |
| FileManipulation.AttributedKeepsOtherFields | ImageSorter/FileManipulation.cs:128-141 | attribution writes `Author` and `FileNameAuthor` only |
| FileManipulation.AttributedAuthor | ImageSorter/FileManipulation.cs:128-141 | the author is "" or the name of a manifest row whose prefix matches; with no author `FileNameAuthor` is the file name |
| FileManipulation.AttributedWithoutRows | ImageSorter/FileManipulation.cs:120-121 | with an empty manifest every author would be cleared, which is why the stage returns early |
| FileManipulation.WithAuthorParts | ImageSorter/FileManipulation.cs:134-136 | `{noExt}_{author}{ext}` keeps the extension, and its stem is the old stem, `_`, the author |
| FileManipulation.AttributeOne | ImageSorter/FileManipulation.cs:125-141 | the loop body gives the attributed record |
| FileManipulation.FindAuthors | ImageSorter/FileManipulation.cs:115-143 | no filters: unchanged; otherwise every record is attributed |
| FileManipulation.StemGlobIff | ImageSorter/FileManipulation.cs:228-231 | the pattern `stem.*` matches a name equal to the stem, or one starting with the stem and `.`, ignoring case |
| FileManipulation.ListedIff | ImageSorter/FileManipulation.cs:232 | `allResults.Any(...)` holds exactly when some record has the path, ignoring case |
| FileManipulation.SimilarPathsChosen | ImageSorter/FileManipulation.cs:228-233 | each chosen entry is in the folder, matches the stem, and is not yet in the list |
| FileManipulation.RecordsForAt | ImageSorter/FileManipulation.cs:238-247 | new record `i` has path `i`, its file name, status "Similar" and the source's three dates |
| FileManipulation.RecordsMatchingChosen | ImageSorter/FileManipulation.cs:228-250 | the records appended for one source are those of the chosen paths, in folder order |
| FileManipulation.SimilarRecordsChosen | ImageSorter/FileManipulation.cs:225-250 | one turn appends the records of the paths chosen for that source's base name |
| FileManipulation.SimilarPassStep | ImageSorter/FileManipulation.cs:223-251 | each turn of the outer loop appends the similar records of its original record |
| FileManipulation.SimilarPassKeepsOriginals | ImageSorter/FileManipulation.cs:223-251 | the original records stay unchanged and in place at the front |
| FileManipulation.SimilarRecordsOf | ImageSorter/FileManipulation.cs:238-247 | whatever a turn appends is a "Similar" copy of its source, with the source's dates |
| FileManipulation.SimilarStepOf | ImageSorter/FileManipulation.cs:223-250 | every turn's additions are "Similar" copies of that turn's record |
| FileManipulation.SimilarPassAppends | ImageSorter/FileManipulation.cs:223-251 | every appended record is a "Similar" copy of some original record, for a file in the folder matching its stem |
| FileManipulation.SimilarPathsDistinct | ImageSorter/FileManipulation.cs:232-233 | the chosen paths of a duplicate-free folder listing have no duplicates |
| FileManipulation.SimilarStepFresh | ImageSorter/FileManipulation.cs:228-249 | one turn appends paths new to the list and to each other |
| FileManipulation.SimilarPassFresh | ImageSorter/FileManipulation.cs:223-251 | every appended record has a path that no record before it has, ignoring case |
| FileManipulation.TurnAddsMissing | ImageSorter/FileManipulation.cs:225-250 | a folder file that matches the stem of the turn's record and is not yet listed is in the list after that turn |
| FileManipulation.SimilarPassComplete | ImageSorter/FileManipulation.cs:208-211 | after the turn of original record `j`, every folder file matching its stem is listed, whether it was already there or was appended |
| FileManipulation.FindSimilarFiles | ImageSorter/FileManipulation.cs:214-252 | an empty list stays empty; otherwise the list is the outer loop's result over the original records, which `SimilarPassComplete`, `SimilarPassAppends` and `SimilarPassFresh` describe |
| FileManipulation.AppendSimilar | ImageSorter/FileManipulation.cs:225-250 | one turn of the outer loop appends that record's similar files |
| FileManipulation.NewRecords | ImageSorter/FileManipulation.cs:236-250 | the inner loop builds one "Similar" record per path, in order |
| FileManipulation.RenameSkipsBlank | ImageSorter/FileManipulation.cs:270-274 | a blank `FileNameMod` changes neither the files nor the record |
| FileManipulation.RenameNeverOverwrites | ImageSorter/FileManipulation.cs:293-297 | when the target exists nothing changes |
| FileManipulation.RenameMoves | ImageSorter/FileManipulation.cs:297-301 | the path changes exactly when the move happens, and then to the target; the old path is gone, the target exists, the file count is kept, no other file changes |
| FileManipulation.RenameTargetPlace | ImageSorter/FileManipulation.cs:277-289 | the target is a file called the new name in the directory of the record's file |
| FileManipulation.NewFileNameWithAuthor | ImageSorter/FileManipulation.cs:278-287 | with an author the new name is `{noExt}_{author}{ext}` of `FileNameMod`, which keeps its extension |
| FileManipulation.NewFileNameWithoutAuthor | ImageSorter/FileManipulation.cs:278-287 | without an author the new name is the file name of `FileNameMod`, minus a trailing `.` |
| FileManipulation.RenameRepeatsAuthor | ImageSorter/FileManipulation.cs:283-285 | after `FindAuthors` and `OrderFiles`, the rename inserts the author a second time |
| FileManipulation.RenamePrefixShape | ImageSorter/FileManipulation.cs:268-307 | the loop keeps the number of files, and changes no record field but `FilePath` |
| FileManipulation.RenameFiles | ImageSorter/FileManipulation.cs:260-308 | the files and the records become those of the rename loop over the old list and the old files |
| FileManipulation.RenameOne | ImageSorter/FileManipulation.cs:268-306 | one turn: skip a blank name, an existing target or a missing file; otherwise move the file and set `FilePath` to the target |
| Dates.SplitDays | ImageSorter/FileCSV.cs:36 | the 400-, 100-, 4- and 1-year counts and the day of year add back up to the day number, within their ranges |
| Dates.SplitDaysYear | ImageSorter/FileCSV.cs:36 | the computed year starts exactly the day-of-year before the day number |
| Dates.SplitDaysLeap | ImageSorter/FileCSV.cs:36 | the computed year is a leap year exactly when the counts say so |
| Dates.MonthFrom | ImageSorter/FileCSV.cs:36 | the month found holds the day of the year |
| Dates.MonthLength | ImageSorter/FileCSV.cs:36 | every month has 28 to 31 days |
| Dates.DateOf | ImageSorter/FileCSV.cs:36 | a day number gives a valid date between years 1 and 9999 |
| Dates.ToCivil | ImageSorter/FileCSV.cs:36 | a tick count gives a valid date and a time of day |
| Dates.YearBound | ImageSorter/FileCSV.cs:36 | no `DateTime` lies beyond year 9999 |
| Dates.CivilRoundTrip | ImageSorter/FileCSV.cs:36 | the date and time add back up to the tick count, to the second |
| Dates.TimeOfDay | ImageSorter/FileCSV.cs:36 | the hour, minute and second counters are the time of day |
| Dates.StampLayout | ImageSorter/FileCSV.cs:36 | where each field of a `yyyy-MM-dd HH:mm:ss` stamp sits |
| Dates.PaddedField | ImageSorter/FileCSV.cs:36 | a padded field has its width and reads back as its number |
| Dates.RenderLayout | ImageSorter/FileCSV.cs:36 | the rendering is 19 characters with separators `- - space : :`; each field is digits that read back as its component |
| Dates.RenderPlain | ImageSorter/FileCSV.cs:36 | a rendering holds only digits, `-`, space and `:` |
| Dates.FormatPlain | ImageSorter/FileCSV.cs:36 | a formatted date holds no comma, double quote or line feed |
| FileCsv.UndoubleDouble | ImageSorter/FileCSV.cs:52 | un-doubling the doubled quotes gives the value back |
| FileCsv.EscapePlain | ImageSorter/FileCSV.cs:49-55 | an empty value, or one without comma, double quote or line feed, is written unchanged |
| FileCsv.EscapeQuotes | ImageSorter/FileCSV.cs:50-54 | a value with one of them is enclosed in double quotes with its double quotes doubled |
| FileCsv.EscapeRoundTrip | ImageSorter/FileCSV.cs:47-56 | stripping the quotes of a field and un-doubling recovers every value |
| FileCsv.ParseEscaped | ImageSorter/FileCSV.cs:36 | any values, escaped and joined by commas, read back as those values |
| FileCsv.ParseField | ImageSorter/FileCSV.cs:36 | an escaped value followed by a comma or the end of the line reads back as the value |
| FileCsv.HeaderColumns | ImageSorter/FileCSV.cs:33 | the header reads back as the twelve column names, in order |
| FileCsv.ColumnsPlain | ImageSorter/FileCSV.cs:33 | no column name needs quoting |
| FileCsv.FormatUnquoted | ImageSorter/FileCSV.cs:36 | a formatted date needs no quoting |
| FileCsv.DatesUnquoted | ImageSorter/FileCSV.cs:36 | no date column of a row needs quoting |
| FileCsv.RowEscapesValues | ImageSorter/FileCSV.cs:36 | a row is its twelve values, each through `Escape`, joined by commas |
| FileCsv.RowRoundTrip | ImageSorter/FileCSV.cs:36 | each row reads back as the record's twelve values in header order, whatever its text fields hold |
| FileCsv.RowsAt | ImageSorter/FileCSV.cs:34-37 | one row per record; row `i` is the row of record `i` |
| FileCsv.CandidateInjective | ImageSorter/FileCSV.cs:20-27 | different attempts try different file names |
| FileCsv.TakenBound | ImageSorter/FileCSV.cs:20-27 | no more attempts can fail than there are files, so the search ends |
| FileCsv.ChooseFileName | ImageSorter/FileCSV.cs:20-27 | the name chosen is attempt `n`, which is free, and attempts `0..n-1` all exist |
| FileCsv.WriteAuditCsv | ImageSorter/FileCSV.cs:17-40 | the file is created under the first free name among `base.csv`, `base(1).csv`, ...; its lines are the header, then one row per record in list order |
| FileCsv.WriteRows | ImageSorter/FileCSV.cs:34-37 | the row loop writes one row per record, in list order |
| FileMov.MovIsNotJpeg | Allegory/FileMOV.cs:56-69 | no record is both a `.mov` and a `.jpg`/`.jpeg` |
| FileMov.First | Allegory/FileMOV.cs:66-69 | `FirstOrDefault`: the first element that passes, with none before it, or none when no element passes |
| FileMov.FirstIs | Allegory/FileMOV.cs:66-69 | an element that passes, with none passing before it, is the one found |
| FileMov.FirstMatchSamePhotos | Allegory/FileMOV.cs:66-69 | lists that differ only in videos find the same photo for a base name |
| FileMov.AdoptSamePhotos | Allegory/FileMOV.cs:66-76 | so a video takes the same date from the list before and after earlier videos were updated |
| FileMov.AdoptsFirstPhotoDate | Allegory/FileMOV.cs:66-76 | a video whose first matching photo has a date takes that date and status "Jpeg" |
| FileMov.FirstPhotoWithoutDate | Allegory/FileMOV.cs:66-72 | a video whose first matching photo has no date is unchanged, even when a later photo has one |
| FileMov.NoPhoto | Allegory/FileMOV.cs:66-72 | a video no photo matches is unchanged |
| FileMov.UpdatedShape | Allegory/FileMOV.cs:56-76 | length and order are kept, non-videos are untouched, and only `DateTaken` and `Status` of a video change |
| FileMov.UpdatedIdempotent | Allegory/FileMOV.cs:56-76 | a second pass changes nothing |
| FileMov.UpdateMovDatesFromJpeg | Allegory/FileMOV.cs:53-78 | the list becomes the updated list of the old one |
| FileMov.VisitRecord | Allegory/FileMOV.cs:59-77 | one turn updates record `k` and nothing else |

## Left out

- Metadata extraction (`ProcessJpegFile`, `ProcessPngFile`, the HEIC reader, `FileMOV.ProcessMovFile`): these are wrappers over foreign image and video libraries. The dates they find are inputs here.
- `FindFiles` and `PrintFileProcessResult`: directory enumeration and console output. All console messages of the modelled stages are left out too.
- `UndoRenameFiles`: its body is empty, so there is nothing to model.
- Program entry points and the older copies of `FileManipulation.cs` and `ReadmeFileHelper.cs` at the repository root: these are not wired to the current types.
- I/O: README.txt is a map from a path to its lines, `Directory.GetFiles` is a listing parameter, and `File.Exists`, `File.Move` and `StreamWriter` act on a set of paths. `WriteAuditCsv` returns the lines it writes rather than bytes on disk. Line endings and the text encoding are not modelled.
- Null checks on the list and on the manifest (`files == null`, `_rows == null`): a Dafny reference is never null.
- `FileManipulation.SortByBestDate`: `List.Sort` is an unstable introspective sort. The model uses an insertion sort, and `OrderFiles` promises only what any correct sort gives: a permutation sorted by `BestDate`.
- `FileManipulation.NextOrdinal`: `TimeSpan.TotalHours` is a double. The comparison `> 2` is modelled exactly on the tick difference, which the double represents closely enough for any realistic gap.
- `Text.EqualsIgnoreCaseIff`: `OrdinalIgnoreCase`, `char.IsLetter`, `char.IsDigit` and `char.IsWhiteSpace` are modelled on ASCII, not on all of Unicode.
- `Text.TryParseInt32`: applied only to digit strings, which is all the core passes it; signs and leading white space never occur.
- `Paths.Combine`: Windows rules only (separators `\` and `/`; a rooted second argument does not occur). Drive letters, 8.3 short names and `Path.GetDirectoryName`'s normalisation of the directory part are not modelled.
- `FileManipulation.MatchesStem`: `Directory.GetFiles(folder, "stem.*")` is modelled as a case-insensitive match of the file name against `stem` or `stem.` followed by anything. Windows' other wildcard quirks are left out.
- `FileManipulation.NumberedNames`: speaks only of records whose number is below 1000. From 1000 on, `{i:D3}` writes four or more digits, so the first three characters no longer identify the number; `SamePrefixIffSidecarRun` has the same bound.
- `FileManipulation.SimilarPassFresh`: it requires that the listing names each file once (`DistinctPaths`), as a file system does.
- `FileManipulation.Renames`: `File.Exists` on the target is exact set membership, not a case-insensitive lookup. `File.Move` fails only when the source is missing; other failures (access, locks, a full disk) are not modelled.
- `FileManipulation.NextOrdinal`: the counter `i` is a 32-bit `int` in the source, so `i + 1` and `(i / 10) * 10 + 10` would wrap past 2^31 - 1; the model's counter is an unbounded `nat`. A folder would need more than 2^31 records to reach it.
- `FileCsv.ChooseFileName`: `count` is an unbounded integer; the 32-bit wrap-around after 2^31 - 1 existing files cannot be reached.
- `FileCsv.Escape`: as in the source, a carriage return does not cause quoting, so a value holding `\r` is written bare. `RowRoundTrip` holds for the reader in `FileCsv.ParseLine`, which splits lines only at commas.
- `FileCsv.Header`: defined as the twelve column names joined by commas, which is the literal of `FileCSV.cs:33`; the literal itself is not repeated.
- `Dates.Format`: `DateTime.ToString("yyyy-MM-dd HH:mm:ss", InvariantCulture)` is modelled on the tick count. Sub-second ticks are dropped, as the format does. Culture machinery is left out.
- `FileMov.UpdateMovDatesFromJpeg`: records are values, not shared objects. The source mutates the record objects that the list holds; since no list holds one object twice, updating the list element is the same.
- `FileManipulation.FindAuthors`: `readme.GetFilters()` is taken to be `GetEachFilter`, which is the filter list of the manifest.
