/**
 * The in-memory stages of the pipeline (`FileManipulation`): ordering the records and
 * numbering them in batches (`OrderFiles`), attributing authors from the manifest
 * (`FindAuthors`), adding same-named sidecar files (`FindSimilarFiles`) and renaming files
 * on disk (`RenameFiles`).
 */
module FileManipulation {
  import opened Nullable
  import opened Text
  import opened Paths
  import opened Records
  import opened Readme
  import opened FileSystem

  // ===========================================================================
  // OrderFiles: the sort

  /** Non-decreasing by `key`. */
  predicate SortedBy<T>(s: seq<T>, key: T -> int) {
    forall i, j | 0 <= i < j < |s| :: key(s[i]) <= key(s[j])
  }

  /** Inserts `x` into a sorted sequence in front of the first element with a larger key. */
  function InsertBy<T>(x: T, s: seq<T>, key: T -> int): (t: seq<T>)
    requires SortedBy(s, key)
    ensures SortedBy(t, key)
    ensures multiset(t) == multiset(s) + multiset{x}
  {
    if |s| == 0 then [x]
    else if key(x) <= key(s[0]) then
      ConsSorted(x, s, key);
      [x] + s
    else
      var rest := InsertBy(x, s[1..], key);
      assert s == [s[0]] + s[1..];
      LowerBound(s[0], x, s[1..], rest, key);
      ConsSorted(s[0], rest, key);
      [s[0]] + rest
  }

  /** A key no larger than the first of a sorted sequence can go in front. */
  lemma ConsSorted<T>(y: T, s: seq<T>, key: T -> int)
    requires SortedBy(s, key) && (|s| > 0 ==> key(y) <= key(s[0]))
    ensures SortedBy([y] + s, key)
  {
    var t := [y] + s;
    forall i, j | 0 <= i < j < |t| ensures key(t[i]) <= key(t[j]) {
      if i == 0 {
        assert t[j] == s[j - 1];
        assert key(s[0]) <= key(s[j - 1]);
      } else {
        assert t[i] == s[i - 1] && t[j] == s[j - 1];
      }
    }
  }

  /** A lower bound of `u` and of `x` bounds any arrangement of `u` with `x`. */
  lemma LowerBound<T>(y: T, x: T, u: seq<T>, rest: seq<T>, key: T -> int)
    requires key(y) <= key(x) && (forall j | 0 <= j < |u| :: key(y) <= key(u[j]))
    requires multiset(rest) == multiset(u) + multiset{x}
    ensures forall j | 0 <= j < |rest| :: key(y) <= key(rest[j])
  {
    forall j | 0 <= j < |rest| ensures key(y) <= key(rest[j]) {
      assert rest[j] in multiset(rest);
      if rest[j] != x {
        assert rest[j] in multiset(u);
        var k :| 0 <= k < |u| && u[k] == rest[j];
      }
    }
  }

  /** An insertion sort by `key`. */
  function SortBy<T>(s: seq<T>, key: T -> int): (t: seq<T>)
    ensures SortedBy(t, key) && multiset(t) == multiset(s)
  {
    if |s| == 0 then []
    else
      assert s == [s[0]] + s[1..];
      InsertBy(s[0], SortBy(s[1..], key), key)
  }

  /** `t` is `s` rearranged into `BestDate` order; ties may come out in any order. */
  predicate SortedPermutation(t: seq<FileRecord>, s: seq<FileRecord>) {
    SortedBy(t, (r: FileRecord) => r.BestDate()) && multiset(t) == multiset(s)
  }

  /**
   * One ordering `List.Sort` may produce. `List.Sort` is not stable, so `OrderFiles`
   * promises only a sorted permutation, not this particular one.
   */
  function SortByBestDate(s: seq<FileRecord>): (t: seq<FileRecord>)
    ensures SortedPermutation(t, s)
  {
    SortBy(s, (r: FileRecord) => r.BestDate())
  }

  // ===========================================================================
  // OrderFiles: the numbers

  /** Same file name once the extension is dropped, ignoring case: a sidecar of the previous file. */
  predicate SameBase(a: FileRecord, b: FileRecord) {
    EqualsIgnoreCase(GetFileNameWithoutExtension(a.FileName), GetFileNameWithoutExtension(b.FileName))
  }

  /** How the numbering moves on from one record to the next. */
  datatype Move = Sidecar | NewBatch | NextNumber

  /**
   * The move from record `last` to record `cur`: a sidecar of `last` keeps its number, a gap
   * of more than two hours starts a new batch, anything else takes the next number.
   */
  function MoveOf(last: FileRecord, cur: FileRecord): Move {
    if SameBase(cur, last) then Sidecar
    else if cur.BestDate() - last.BestDate() > TwoHoursTicks then NewBatch
    else NextNumber
  }

  /** `(i / 10) * 10 + 10`: the next multiple of ten above `i`. */
  function NextBatch(i: nat): nat {
    i / 10 * 10 + 10
  }

  /** The number after move `m` from number `prev`. */
  function Advance(prev: nat, m: Move): nat {
    match m
    case Sidecar => prev
    case NewBatch => NextBatch(prev)
    case NextNumber => prev + 1
  }

  /** The move the loop makes at each record of the sorted list; the first record is compared with itself. */
  function Moves(t: seq<FileRecord>): (ms: seq<Move>)
    ensures |ms| == |t|
  {
    if |t| == 0 then [] else Moves(t[..|t| - 1]) + [MoveInto(t, |t| - 1)]
  }

  /** The move the loop makes at record `k`. */
  function MoveInto(t: seq<FileRecord>, k: nat): Move
    requires k < |t|
  {
    MoveOf(if k == 0 then t[0] else t[k - 1], t[k])
  }

  /** The move at record `k`. */
  lemma {:induction false} MoveAt(t: seq<FileRecord>, k: nat)
    requires k < |t|
    ensures Moves(t)[k] == MoveInto(t, k)
  {
    if k < |t| - 1 {
      var p := t[..|t| - 1];
      MoveAt(p, k);
      assert p[k] == t[k];
      assert k > 0 ==> p[k - 1] == t[k - 1];
      assert MoveInto(p, k) == MoveInto(t, k);
    }
  }

  /** The running number after the first `k` moves, starting from 1. */
  function After(ms: seq<Move>, k: nat): nat
    requires k <= |ms|
  {
    if k == 0 then 1 else Advance(After(ms, k - 1), ms[k - 1])
  }

  /** The number of record `k` of the sorted list. */
  function Ordinal(t: seq<FileRecord>, k: nat): nat
    requires k < |t|
  {
    After(Moves(t), k + 1)
  }

  /** `{i:D3}`. */
  function Pad3(i: nat): string {
    ZeroPad(i, 3)
  }

  /** The two names `OrderFiles` writes for number `i`. */
  function WithOrdinal(r: FileRecord, i: nat): FileRecord {
    r.(FileNameOrdered := Pad3(i) + "_" + r.FileName,
       FileNameMod := Pad3(i) + "_" + (if !IsBlank(r.FileNameAuthor) then r.FileNameAuthor else r.FileName))
  }

  /** The sorted list with every record named after its number. */
  function Numbered(t: seq<FileRecord>): (u: seq<FileRecord>)
    ensures |u| == |t|
  {
    seq(|t|, k requires 0 <= k < |t| => WithOrdinal(t[k], Ordinal(t, k)))
  }

  /** Records before `k` carry their names, the others are as sorted. */
  ghost predicate NumberedUpTo(t: seq<FileRecord>, u: seq<FileRecord>, k: nat) {
    && |u| == |t| && k <= |t|
    && (forall j {:trigger u[j]} | 0 <= j < k :: u[j] == Numbered(t)[j])
    && (forall j {:trigger u[j]} | k <= j < |t| :: u[j] == t[j])
  }

  lemma NumberedUpToStep(t: seq<FileRecord>, u: seq<FileRecord>, k: nat)
    requires NumberedUpTo(t, u, k) && k < |t|
    ensures NumberedUpTo(t, u[k := WithOrdinal(t[k], Ordinal(t, k))], k + 1)
  {
    var named := WithOrdinal(t[k], Ordinal(t, k));
    var v := u[k := named];
    assert Numbered(t)[k] == named;
    forall j | 0 <= j < k + 1 ensures v[j] == Numbered(t)[j] {
      if j < k {
        assert v[j] == u[j];
      }
    }
    forall j | k + 1 <= j < |t| ensures v[j] == t[j] {
      assert v[j] == u[j];
    }
  }

  lemma NumberedUpToAll(t: seq<FileRecord>, u: seq<FileRecord>)
    requires NumberedUpTo(t, u, |t|)
    ensures u == Numbered(t)
  {
  }

  /** The fields that decide the move to the next record: the file name and the three dates. */
  predicate SameStamp(a: FileRecord, b: FileRecord) {
    a.FileName == b.FileName && a.DateTaken == b.DateTaken && a.FileCreated == b.FileCreated && a.FileModified == b.FileModified
  }

  /** The move reads only the name and the dates of the previous record. */
  lemma MoveReadsStamp(a: FileRecord, b: FileRecord, cur: FileRecord)
    requires SameStamp(a, b)
    ensures MoveOf(a, cur) == MoveOf(b, cur)
  {
    BestDateReadsOnlyDates(a, b);
    assert SameBase(cur, a) == SameBase(cur, b);
  }

  /** The record the loop compares record `k` with. */
  function Previous(t: seq<FileRecord>, k: nat): FileRecord
    requires 0 < |t| && k <= |t|
  {
    if k == 0 then t[0] else t[k - 1]
  }

  /**
   * The state of the numbering loop before record `k`: the records before it are named,
   * `i` and `lastPrefix` hold the number reached so far and `lastResult` has the name and
   * dates of the record before `k` (of the first record before the first step).
   */
  ghost predicate NumberingState(t: seq<FileRecord>, u: seq<FileRecord>, k: nat, i: nat, lastPrefix: nat, lastResult: FileRecord) {
    && NumberedUpTo(t, u, k)
    && 0 < |t|
    && lastPrefix == i
    && i == After(Moves(t), k)
    && SameStamp(lastResult, Previous(t, k))
  }

  /** The state before the first turn of the numbering loop. */
  lemma NumberingStart(t: seq<FileRecord>)
    requires |t| > 0
    ensures NumberingState(t, t, 0, 1, 1, t[0])
  {
  }

  /** One turn of the numbering loop keeps its state. */
  lemma NumberingStep(t: seq<FileRecord>, u: seq<FileRecord>, k: nat, i: nat, lastResult: FileRecord, i': nat)
    requires k < |t| && NumberingState(t, u, k, i, i, lastResult)
    requires i' == Advance(i, MoveOf(lastResult, u[k]))
    ensures NumberingState(t, u[k := WithOrdinal(u[k], i')], k + 1, i', i', WithOrdinal(u[k], i'))
  {
    assert u[k] == t[k];
    MoveReadsStamp(lastResult, Previous(t, k), t[k]);
    MoveAt(t, k);
    NumberedUpToStep(t, u, k);
  }

  /** The numbering loop of `OrderFiles`, over the sorted records. */
  method AssignOrdinals(t: seq<FileRecord>) returns (u: seq<FileRecord>)
    requires |t| > 0
    ensures u == Numbered(t)
  {
    u := t;
    var i: nat := 1;
    var lastResult := t[0];
    var lastPrefix := i;
    NumberingStart(t);
    for k := 0 to |t|
      invariant NumberingState(t, u, k, i, lastPrefix, lastResult)
    {
      u, i, lastPrefix, lastResult := NumberOne(t, u, k, i, lastPrefix, lastResult);
    }
    NumberedUpToAll(t, u);
  }

  /** One turn of the numbering loop: record `k` gets its number and its names. */
  method NumberOne(ghost t: seq<FileRecord>, u: seq<FileRecord>, k: nat, i: nat, lastPrefix: nat, lastResult: FileRecord)
    returns (u': seq<FileRecord>, i': nat, lastPrefix': nat, lastResult': FileRecord)
    requires k < |t| && NumberingState(t, u, k, i, lastPrefix, lastResult)
    ensures NumberingState(t, u', k + 1, i', lastPrefix', lastResult')
  {
    var result := u[k];
    i', lastPrefix' := NextOrdinal(i, lastPrefix, lastResult, result);
    NumberingStep(t, u, k, i, lastResult, i');
    u' := u[k := WithOrdinal(result, i')];
    lastResult' := u'[k];
  }

  /**
   * The number update in the body of the numbering loop. `lastPrefix` always equals `i`, so
   * the sidecar branch keeps the previous number.
   */
  method NextOrdinal(i: nat, lastPrefix: nat, lastResult: FileRecord, result: FileRecord)
    returns (i': nat, lastPrefix': nat)
    requires lastPrefix == i
    ensures i' == lastPrefix' == Advance(i, MoveOf(lastResult, result))
  {
    i', lastPrefix' := i, lastPrefix;
    var isSameBaseFile := SameBase(result, lastResult);
    if !isSameBaseFile {
      var diff := result.BestDate() - lastResult.BestDate();
      if diff > TwoHoursTicks {
        i' := NextBatch(i');
      } else {
        i' := i' + 1;
      }
      lastPrefix' := i';
    } else {
      i' := lastPrefix';
    }
  }

  // ===========================================================================
  // OrderFiles: what the numbering promises

  /**
   * A move keeps the number exactly when it is a sidecar; any other move raises it by at
   * most ten, and a new batch lands on a multiple of ten.
   */
  lemma AdvanceFacts(prev: nat, m: Move)
    ensures Advance(prev, m) == prev <==> m == Sidecar
    ensures m != Sidecar ==> prev < Advance(prev, m) <= prev + 10
    ensures m == NewBatch ==> Advance(prev, m) % 10 == 0
  {
  }

  /** After `k` moves the number is between 1 and `10 * k + 1`. */
  lemma {:induction false} AfterBounds(ms: seq<Move>, k: nat)
    requires k <= |ms|
    ensures 1 <= After(ms, k) <= 10 * k + 1
  {
    if k > 0 {
      AfterBounds(ms, k - 1);
      AdvanceFacts(After(ms, k - 1), ms[k - 1]);
    }
  }

  /** The running number never decreases. */
  lemma {:induction false} AfterMonotone(ms: seq<Move>, j: nat, k: nat)
    requires j <= k <= |ms|
    ensures After(ms, j) <= After(ms, k)
  {
    if j < k {
      AfterMonotone(ms, j, k - 1);
      AdvanceFacts(After(ms, k - 1), ms[k - 1]);
    }
  }

  /** The running number is the same after `j` and after `k` moves exactly when all moves between are sidecars. */
  lemma {:induction false} SameAfterIffSidecars(ms: seq<Move>, j: nat, k: nat)
    requires j <= k <= |ms|
    ensures After(ms, j) == After(ms, k) <==> forall m | j <= m < k :: ms[m] == Sidecar
  {
    if j < k {
      SameAfterIffSidecars(ms, j, k - 1);
      AfterMonotone(ms, j, k - 1);
      AdvanceFacts(After(ms, k - 1), ms[k - 1]);
    }
  }

  /**
   * The first record is number 1. After it, a sidecar of the previous record keeps that
   * record's number whatever the gap between them; any other record gets a larger number:
   * `(prev / 10) * 10 + 10`, a multiple of ten, after a gap of more than two hours, otherwise
   * `prev + 1`.
   */
  lemma OrdinalSteps(t: seq<FileRecord>, k: nat)
    requires k < |t|
    ensures k == 0 ==> Ordinal(t, k) == 1
    ensures k > 0 && SameBase(t[k], t[k - 1]) ==> Ordinal(t, k) == Ordinal(t, k - 1)
    ensures k > 0 && !SameBase(t[k], t[k - 1]) ==> Ordinal(t, k) > Ordinal(t, k - 1)
    ensures k > 0 && !SameBase(t[k], t[k - 1]) && t[k].BestDate() - t[k - 1].BestDate() > TwoHoursTicks ==>
      Ordinal(t, k) == Ordinal(t, k - 1) / 10 * 10 + 10 && Ordinal(t, k) % 10 == 0
    ensures k > 0 && !SameBase(t[k], t[k - 1]) && t[k].BestDate() - t[k - 1].BestDate() <= TwoHoursTicks ==>
      Ordinal(t, k) == Ordinal(t, k - 1) + 1
  {
    MoveAt(t, k);
    if k == 0 {
      FirstMoveIsSidecar(t);
      assert After(Moves(t), 0) == 1;
    } else {
      AdvanceFacts(Ordinal(t, k - 1), Moves(t)[k]);
    }
  }

  /** The loop compares the first record with itself: a sidecar move. */
  lemma FirstMoveIsSidecar(t: seq<FileRecord>)
    requires |t| > 0
    ensures Moves(t)[0] == Sidecar
  {
    MoveAt(t, 0);
    EqualsIgnoreCaseReflexive(GetFileNameWithoutExtension(t[0].FileName));
  }

  /** A leading sidecar move changes nothing: the number after it is the number without it. */
  lemma {:induction false} AfterAfterSidecar(ms: seq<Move>, k: nat)
    requires 0 < k <= |ms| && ms[0] == Sidecar
    ensures After(ms, k) == After(ms[1..], k - 1)
  {
    if k > 1 {
      AfterAfterSidecar(ms, k - 1);
      assert ms[1..][k - 2] == ms[k - 1];
    }
  }

  /** Numbers start at 1 and grow by at most ten per record. */
  lemma OrdinalBounds(t: seq<FileRecord>, k: nat)
    requires k < |t|
    ensures 1 <= Ordinal(t, k) <= 10 * k + 1
  {
    FirstMoveIsSidecar(t);
    AfterAfterSidecar(Moves(t), k + 1);
    AfterBounds(Moves(t)[1..], k);
  }

  /** Numbers never decrease along the sorted list. */
  lemma OrdinalMonotone(t: seq<FileRecord>, j: nat, k: nat)
    requires j <= k < |t|
    ensures Ordinal(t, j) <= Ordinal(t, k)
  {
    AfterMonotone(Moves(t), j + 1, k + 1);
  }

  /** At record `m` the loop makes a sidecar move exactly when `m` has the base name of record `m - 1`. */
  lemma SidecarMoveIff(t: seq<FileRecord>, m: nat)
    requires 0 < m < |t|
    ensures Moves(t)[m] == Sidecar <==> SameBase(t[m], t[m - 1])
  {
    MoveAt(t, m);
  }

  /**
   * At each record from `j + 1` to `k` the loop makes a sidecar move: by `SidecarMoveIff`,
   * each of them is a sidecar of the record before it.
   */
  ghost predicate SidecarRun(t: seq<FileRecord>, j: nat, k: nat)
    requires j <= k < |t|
  {
    forall m | j < m <= k :: Moves(t)[m] == Sidecar
  }

  /**
   * Two records share a number exactly when every record after the first, up to the second,
   * is a sidecar of its predecessor: files with the same base name that are not adjacent
   * after sorting get different numbers.
   */
  lemma SameOrdinalIffSidecarRun(t: seq<FileRecord>, j: nat, k: nat)
    requires j <= k < |t|
    ensures Ordinal(t, j) == Ordinal(t, k) <==> SidecarRun(t, j, k)
  {
    SameAfterIffSidecars(Moves(t), j + 1, k + 1);
  }

  /**
   * The names `OrderFiles` gives record `k` while its number is below 1000: the number in
   * three digits, `_`, then the file name, or the author name when there is one.
   */
  lemma NumberedNames(t: seq<FileRecord>, k: nat)
    requires k < |t| && Ordinal(t, k) < 1000
    ensures var r := Numbered(t)[k];
      && |r.FileNameOrdered| == 4 + |t[k].FileName|
      && AllDigits(r.FileNameOrdered[..3])
      && DecimalValue(r.FileNameOrdered[..3]) == Ordinal(t, k)
      && r.FileNameOrdered[3] == '_'
      && r.FileNameOrdered[4..] == t[k].FileName
      && r.FileNameMod[..4] == r.FileNameOrdered[..4]
      && r.FileNameMod[4..] == (if !IsBlank(t[k].FileNameAuthor) then t[k].FileNameAuthor else t[k].FileName)
  {
    var n := Ordinal(t, k);
    assert Pow10(3) == 1000;
    ZeroPadWidth(n, 3);
    ZeroPadRoundTrip(n, 3);
    var r := Numbered(t)[k];
    PrefixOfConcat(Pad3(n), "_", t[k].FileName);
    PrefixOfConcat(Pad3(n), "_", if !IsBlank(t[k].FileNameAuthor) then t[k].FileNameAuthor else t[k].FileName);
  }

  /** The parts of a three-part concatenation. */
  lemma PrefixOfConcat(a: string, b: string, c: string)
    ensures (a + b + c)[..|a|] == a && (a + b + c)[..|a| + |b|] == a + b
    ensures (a + b + c)[|a| + |b|..] == c && |a + b + c| == |a| + |b| + |c|
  {
  }

  /** `OrderFiles` writes the two names only. */
  lemma NumberedKeepsOtherFields(t: seq<FileRecord>, k: nat)
    requires k < |t|
    ensures var r := Numbered(t)[k];
      r == t[k].(FileNameOrdered := r.FileNameOrdered, FileNameMod := r.FileNameMod)
  {
  }

  /**
   * While the numbers stay below 1000, two records carry the same three-digit prefix
   * exactly when they form a run of sidecars.
   */
  lemma SamePrefixIffSidecarRun(t: seq<FileRecord>, j: nat, k: nat)
    requires j <= k < |t| && Ordinal(t, k) < 1000
    ensures Numbered(t)[j].FileNameOrdered[..3] == Numbered(t)[k].FileNameOrdered[..3] <==> SidecarRun(t, j, k)
  {
    OrdinalMonotone(t, j, k);
    NumberedNames(t, j);
    NumberedNames(t, k);
    SameOrdinalIffSidecarRun(t, j, k);
  }

  /**
   * `OrderFiles`: a list of fewer than two records is left alone; otherwise the list is
   * sorted by `BestDate` and each record gets its ordinal-prefixed names.
   */
  method OrderFiles(allResults: ResultList)
    modifies allResults
    ensures |old(allResults.items)| < 2 ==> allResults.items == old(allResults.items)
    ensures |old(allResults.items)| >= 2 ==>
      exists t :: SortedPermutation(t, old(allResults.items)) && allResults.items == Numbered(t)
  {
    if |allResults.items| < 2 {
      return;
    }
    var sorted := SortByBestDate(allResults.items);
    allResults.items := sorted;
    var numbered := AssignOrdinals(allResults.items);
    allResults.items := numbered;
  }

  // ===========================================================================
  // FindAuthors

  /** The author `FindAuthors` records for a file name: the manifest's answer, or "" when that is blank. */
  function AuthorFor(rows: seq<CsvRow>, fileName: string): string {
    var author := SearchFilterReturnName(rows, fileName);
    if IsBlank(author) then "" else author
  }

  /** `{noExt}_{author}{ext}`: the author name inserted before the extension. */
  function WithAuthor(fileName: string, author: string): string {
    GetFileNameWithoutExtension(fileName) + "_" + author + GetExtension(fileName)
  }

  /**
   * One turn of the `FindAuthors` loop: a record with a blank file name is skipped; any other
   * gets its author, and `FileNameAuthor` is the file name with the author inserted, or the
   * plain file name when there is no author.
   */
  function Attributed(rows: seq<CsvRow>, r: FileRecord): FileRecord {
    if IsBlank(r.FileName) then r
    else
      var author := AuthorFor(rows, r.FileName);
      r.(Author := author,
         FileNameAuthor := if !IsBlank(author) then WithAuthor(r.FileName, author) else r.FileName)
  }

  /** Every record attributed, in place. */
  function AttributeAll(rows: seq<CsvRow>, s: seq<FileRecord>): (u: seq<FileRecord>)
    ensures |u| == |s|
  {
    seq(|s|, k requires 0 <= k < |s| => Attributed(rows, s[k]))
  }

  /** A record with a blank file name is left alone. */
  lemma AttributedSkipsBlank(rows: seq<CsvRow>, r: FileRecord)
    requires IsBlank(r.FileName)
    ensures Attributed(rows, r) == r
  {
  }

  /** `FindAuthors` writes `Author` and `FileNameAuthor` only. */
  lemma AttributedKeepsOtherFields(rows: seq<CsvRow>, r: FileRecord)
    ensures var a := Attributed(rows, r);
      a == r.(Author := a.Author, FileNameAuthor := a.FileNameAuthor)
  {
  }

  /**
   * The author written is "" or the name of a manifest row whose prefix matches the file
   * name's; with no author, `FileNameAuthor` is the file name itself.
   */
  lemma AttributedAuthor(rows: seq<CsvRow>, r: FileRecord)
    requires !IsBlank(r.FileName)
    ensures var a := Attributed(rows, r);
      && (a.Author == "" || (!IsBlank(a.Author) && exists row | row in rows ::
            PrefixMatches(row, FindPrefix(GetFileNameWithoutExtension(r.FileName))) && row.Name == a.Author))
      && (a.Author == "" ==> a.FileNameAuthor == r.FileName)
  {
    var author := SearchFilterReturnName(rows, r.FileName);
    if !IsBlank(author) {
      assert author != "";
    }
  }

  /** An empty manifest would clear every author, which is why `FindAuthors` checks for filters first. */
  lemma AttributedWithoutRows(r: FileRecord)
    requires !IsBlank(r.FileName)
    ensures Attributed([], r) == r.(Author := "", FileNameAuthor := r.FileName)
  {
  }

  /**
   * For a plain file name with an extension, and an author free of dots and separators, the
   * name with the author keeps the extension, and its stem is the old stem, `_` and the author.
   */
  lemma WithAuthorParts(fileName: string, author: string)
    requires HasNoSeparator(fileName) && GetExtension(fileName) != ""
    requires HasNoSeparator(author) && '.' !in author
    ensures GetExtension(WithAuthor(fileName, author)) == GetExtension(fileName)
    ensures GetFileNameWithoutExtension(WithAuthor(fileName, author)) == GetFileNameWithoutExtension(fileName) + "_" + author
  {
    var stem := GetFileNameWithoutExtension(fileName);
    var ext := GetExtension(fileName);
    NameParts(fileName);
    var x := "_" + author;
    UnderscorePrefix(author);
    InsertBeforeExtension(stem, x, ext);
    RegroupConcat(stem, "_", author, ext);
  }

  /** An underscore followed by a plain author name is free of separators and dots. */
  lemma UnderscorePrefix(author: string)
    requires HasNoSeparator(author) && '.' !in author
    ensures HasNoSeparator("_" + author) && '.' !in "_" + author
  {
    var x := "_" + author;
    assert forall i | 1 <= i < |x| :: x[i] == author[i - 1];
  }

  lemma RegroupConcat(a: string, b: string, c: string, d: string)
    ensures a + b + c + d == a + (b + c) + d
  {
  }

  /** The stem and the extension of a plain file name are free of separators. */
  lemma NameParts(fileName: string)
    requires HasNoSeparator(fileName)
    ensures HasNoSeparator(GetFileNameWithoutExtension(fileName))
    ensures HasNoSeparator(GetExtension(fileName))
  {
    GetFileNameFacts(fileName);
    NoExtensionFacts(fileName);
    var name := GetFileName(fileName);
    var stem := GetFileNameWithoutExtension(fileName);
    var ext := GetExtension(fileName);
    SliceHasNoSeparator(name, 0, |stem|);
    SliceHasNoSeparator(name, |name| - |ext|, |name|);
  }

  /** The body of the `FindAuthors` loop, for one record. */
  method AttributeOne(rows: seq<CsvRow>, file: FileRecord) returns (file': FileRecord)
    ensures file' == Attributed(rows, file)
  {
    file' := file;
    if IsBlank(file'.FileName) {
      return;
    }
    var author := SearchFilterReturnName(rows, file'.FileName);
    file' := file'.(Author := if IsBlank(author) then "" else author);
    if !IsBlank(file'.Author) {
      var fileNameWithoutExt := GetFileNameWithoutExtension(file'.FileName);
      var extension := GetExtension(file'.FileName);
      file' := file'.(FileNameAuthor := fileNameWithoutExt + "_" + file'.Author + extension);
    } else {
      file' := file'.(FileNameAuthor := file'.FileName);
    }
  }

  /**
   * `FindAuthors`: when the manifest has no filters nothing changes; otherwise every record
   * with a file name gets its author and its author-qualified name.
   */
  method FindAuthors(files: ResultList, readme: FileReadme)
    modifies files
    ensures files.items == if |readme.rows| == 0 then old(files.items) else AttributeAll(readme.rows, old(files.items))
  {
    var filters := readme.GetEachFilter();
    if filters.Length == 0 {
      assert |Filters(readme.rows)| == 0;
      return;
    }
    var original := files.items;
    var updated := original;
    for k := 0 to |original|
      invariant |updated| == |original|
      invariant forall j | 0 <= j < k :: updated[j] == Attributed(readme.rows, original[j])
      invariant forall j | k <= j < |original| :: updated[j] == original[j]
    {
      var file := AttributeOne(readme.rows, updated[k]);
      updated := updated[k := file];
    }
    files.items := updated;
  }

  // ===========================================================================
  // FindSimilarFiles

  /**
   * The wildcard pattern `stem.*` under Windows rules, ignoring case: the name is `stem`
   * followed by `.` and anything, or `stem` alone.
   */
  predicate StemGlob(name: string, stem: string) {
    if |stem| == 0 then |name| == 0 || name[0] == '.'
    else |name| > 0 && ToUpper(name[0]) == ToUpper(stem[0]) && StemGlob(name[1..], stem[1..])
  }

  /** The pattern `stem.*` in other words. */
  lemma {:induction false} StemGlobIff(name: string, stem: string)
    ensures StemGlob(name, stem) <==> EqualsIgnoreCase(name, stem) || StartsWithIgnoreCase(name, stem + ".")
  {
    if |stem| == 0 {
      if |name| > 0 {
        assert (stem + ".") == ".";
        assert EqualsIgnoreCase(name[..1], ".") <==> name[0] == '.' by {
          assert name[..1][1..] == "" && "."[1..] == "";
        }
      }
    } else if |name| > 0 {
      StemGlobIff(name[1..], stem[1..]);
      var dotted := stem + ".";
      assert dotted[1..] == stem[1..] + ".";
      if |dotted| <= |name| {
        assert name[..|dotted|][1..] == name[1..][..|dotted| - 1];
      }
    }
  }

  /** `Directory.GetFiles(folder, stem + ".*")` applied to one entry of the folder. */
  predicate MatchesStem(stem: string, path: string) {
    StemGlob(GetFileName(path), stem)
  }

  /** `allResults.Any(r => r.FilePath.Equals(path, OrdinalIgnoreCase))`. */
  predicate Listed(items: seq<FileRecord>, path: string) {
    |items| > 0 && (EqualsIgnoreCase(items[0].FilePath, path) || Listed(items[1..], path))
  }

  /** `Listed` holds exactly when some record has the path, ignoring case. */
  lemma {:induction false} ListedIff(items: seq<FileRecord>, path: string)
    ensures Listed(items, path) <==> exists j | 0 <= j < |items| :: EqualsIgnoreCase(items[j].FilePath, path)
  {
    if |items| > 0 {
      ListedIff(items[1..], path);
      assert forall j | 1 <= j < |items| :: items[1..][j - 1] == items[j];
    }
  }

  /** The test the `Where` of `FindSimilarFiles` applies to each entry of the folder. */
  function KeepSimilar(stem: string, items: seq<FileRecord>): string -> bool {
    p => MatchesStem(stem, p) && !Listed(items, p)
  }

  /** The entries of `listing` that match `stem` and are not yet in `items`, in listing order. */
  function SimilarPaths(listing: seq<string>, stem: string, items: seq<FileRecord>): (ps: seq<string>)
    ensures |ps| <= |listing|
  {
    Where(listing, KeepSimilar(stem, items))
  }

  /** Each chosen entry is in the listing, matches the stem and is not yet in the list. */
  lemma SimilarPathsChosen(listing: seq<string>, stem: string, items: seq<FileRecord>)
    ensures forall i | 0 <= i < |SimilarPaths(listing, stem, items)| ::
      var p := SimilarPaths(listing, stem, items)[i];
      p in listing && MatchesStem(stem, p) && !Listed(items, p)
  {
    var ps := SimilarPaths(listing, stem, items);
    WhereMembers(listing, KeepSimilar(stem, items));
    forall i | 0 <= i < |ps| ensures ps[i] in listing && KeepSimilar(stem, items)(ps[i]) {
      assert ps[i] in ps;
    }
  }

  /** The record added for `path`: its name, status "Similar" and the dates of `source`. */
  function SimilarRecord(source: FileRecord, path: string): FileRecord {
    FileRecord(path, GetFileName(path), "", "", "", "", source.DateTaken, source.FileCreated, source.FileModified, StatusSimilar, "")
  }

  /** The records for `paths`, in order, each with the dates of `source`. */
  function RecordsFor(source: FileRecord, paths: seq<string>): (rs: seq<FileRecord>)
    ensures |rs| == |paths|
  {
    if |paths| == 0 then [] else RecordsFor(source, paths[..|paths| - 1]) + [SimilarRecord(source, paths[|paths| - 1])]
  }

  /** The record for the `i`-th path. */
  lemma {:induction false} RecordsForAt(source: FileRecord, paths: seq<string>, i: nat)
    requires i < |paths|
    ensures RecordsFor(source, paths)[i] == SimilarRecord(source, paths[i])
  {
    if i < |paths| - 1 {
      var p := paths[..|paths| - 1];
      RecordsForAt(source, p, i);
      assert p[i] == paths[i];
    }
  }

  /** A "Similar" record carrying the dates of `source` for each entry `SimilarPaths` chooses. */
  function RecordsMatching(listing: seq<string>, stem: string, source: FileRecord, items: seq<FileRecord>): seq<FileRecord> {
    if |listing| == 0 then []
    else
      var p := listing[|listing| - 1];
      RecordsMatching(listing[..|listing| - 1], stem, source, items) + (if MatchesStem(stem, p) && !Listed(items, p) then [SimilarRecord(source, p)] else [])
  }

  /** The records of a concatenation are the records of its parts. */
  lemma {:induction false} RecordsForConcat(source: FileRecord, a: seq<string>, b: seq<string>)
    ensures RecordsFor(source, a + b) == RecordsFor(source, a) + RecordsFor(source, b)
  {
    if |b| > 0 {
      var b' := b[..|b| - 1];
      RecordsForConcat(source, a, b');
      assert (a + b)[..|a + b| - 1] == a + b';
    } else {
      assert a + b == a;
    }
  }

  /** `RecordsMatching` is the records of the chosen paths, in order. */
  lemma {:induction false} RecordsMatchingChosen(listing: seq<string>, stem: string, source: FileRecord, items: seq<FileRecord>)
    ensures RecordsMatching(listing, stem, source, items) == RecordsFor(source, SimilarPaths(listing, stem, items))
  {
    if |listing| > 0 {
      var front := listing[..|listing| - 1];
      var p := listing[|listing| - 1];
      RecordsMatchingChosen(front, stem, source, items);
      WhereSnoc(listing, KeepSimilar(stem, items));
      var last: seq<string> := if MatchesStem(stem, p) && !Listed(items, p) then [p] else [];
      RecordsForConcat(source, SimilarPaths(front, stem, items), last);
      if last != [] {
        assert RecordsFor(source, last) == [SimilarRecord(source, p)] by {
          assert last[..0] == [];
        }
      }
    }
  }

  /** The records the inner loop appends for `source`, given the list as it stands. */
  function SimilarRecords(listing: seq<string>, source: FileRecord, items: seq<FileRecord>): (added: seq<FileRecord>)
  {
    RecordsMatching(listing, GetFileNameWithoutExtension(source.FileName), source, items)
  }

  /** What a turn appends is the records of the paths `SimilarPaths` chooses for `source`. */
  lemma SimilarRecordsChosen(listing: seq<string>, source: FileRecord, items: seq<FileRecord>)
    ensures SimilarRecords(listing, source, items) == RecordsFor(source, SimilarPaths(listing, GetFileNameWithoutExtension(source.FileName), items))
  {
    RecordsMatchingChosen(listing, GetFileNameWithoutExtension(source.FileName), source, items);
  }

  /**
   * A loop over the original records that appends, at each one, what `step` gives for the
   * list so far and that record: the list after the first `k` turns.
   */
  function Grow<T>(original: seq<T>, step: (seq<T>, T) -> seq<T>, k: nat): seq<T>
    requires k <= |original|
  {
    if k == 0 then original
    else
      var before := Grow(original, step, k - 1);
      before + step(before, original[k - 1])
  }

  /** The original elements stay, unchanged and in place, at the front. */
  lemma {:induction false} GrowKeepsOriginals<T>(original: seq<T>, step: (seq<T>, T) -> seq<T>, k: nat)
    requires k <= |original|
    ensures var items := Grow(original, step, k);
      |items| >= |original| && items[..|original|] == original
  {
    if k > 0 {
      GrowKeepsOriginals(original, step, k - 1);
      var before := Grow(original, step, k - 1);
      var items := before + step(before, original[k - 1]);
      assert items[..|original|] == before[..|original|];
    }
  }

  /**
   * When everything a turn appends stands in relation `rel` to the element of that turn, every
   * appended element stands in `rel` to one of the first `k` originals.
   */
  lemma {:induction false} GrowAppends<T>(original: seq<T>, step: (seq<T>, T) -> seq<T>, k: nat, rel: (T, T) -> bool)
    requires k <= |original|
    requires forall items, x, r | r in step(items, x) :: rel(r, x)
    ensures var items := Grow(original, step, k);
      forall m | |original| <= m < |items| :: exists j | 0 <= j < k :: rel(items[m], original[j])
  {
    if k > 0 {
      GrowAppends(original, step, k - 1, rel);
      GrowKeepsOriginals(original, step, k - 1);
      var before := Grow(original, step, k - 1);
      var added := step(before, original[k - 1]);
      var items := before + added;
      forall m | |original| <= m < |items|
        ensures exists j | 0 <= j < k :: rel(items[m], original[j])
      {
        if m < |before| {
          assert items[m] == before[m];
        } else {
          assert items[m] == added[m - |before|];
          assert items[m] in step(before, original[k - 1]);
          assert rel(items[m], original[k - 1]);
        }
      }
    }
  }

  /** A property of the list that every turn keeps holds after every turn. */
  lemma {:induction false} GrowKeeps<T>(original: seq<T>, step: (seq<T>, T) -> seq<T>, k: nat, inv: seq<T> -> bool)
    requires k <= |original| && inv(original)
    requires forall items, x | inv(items) :: inv(items + step(items, x))
    ensures inv(Grow(original, step, k))
  {
    if k > 0 {
      GrowKeeps(original, step, k - 1, inv);
    }
  }

  /** A turn of the outer loop of `FindSimilarFiles`. */
  function SimilarStep(listing: seq<string>): (seq<FileRecord>, FileRecord) -> seq<FileRecord> {
    (items, source) => SimilarRecords(listing, source, items)
  }

  /** The list after the outer loop has handled the first `k` of the original records. */
  function SimilarPass(original: seq<FileRecord>, listing: seq<string>, k: nat): (items: seq<FileRecord>)
    requires k <= |original|
  {
    Grow(original, SimilarStep(listing), k)
  }

  /** A turn of the outer loop appends the records similar to its original. */
  lemma SimilarPassStep(original: seq<FileRecord>, listing: seq<string>, k: nat)
    requires k < |original|
    ensures var before := SimilarPass(original, listing, k);
      SimilarPass(original, listing, k + 1) == before + SimilarRecords(listing, original[k], before)
  {
  }

  /** The original records stay, unchanged and in place, at the front of the list. */
  lemma SimilarPassKeepsOriginals(original: seq<FileRecord>, listing: seq<string>, k: nat)
    requires k <= |original|
    ensures var items := SimilarPass(original, listing, k);
      |items| >= |original| && items[..|original|] == original
  {
    GrowKeepsOriginals(original, SimilarStep(listing), k);
  }

  /** `source` lent its dates to `r`, a "Similar" record for a listed file matching its stem. */
  predicate SimilarOf(r: FileRecord, source: FileRecord, listing: seq<string>) {
    && r.Status == StatusSimilar
    && r.DateTaken == source.DateTaken && r.FileCreated == source.FileCreated && r.FileModified == source.FileModified
    && r.FilePath in listing
    && r.FileName == GetFileName(r.FilePath)
    && MatchesStem(GetFileNameWithoutExtension(source.FileName), r.FilePath)
  }

  /** What one turn appends for `source` are "Similar" copies of it. */
  lemma SimilarRecordsOf(listing: seq<string>, source: FileRecord, items: seq<FileRecord>)
    ensures forall r | r in SimilarRecords(listing, source, items) :: SimilarOf(r, source, listing)
  {
    var stem := GetFileNameWithoutExtension(source.FileName);
    var ps := SimilarPaths(listing, stem, items);
    var added := RecordsFor(source, ps);
    SimilarPathsChosen(listing, stem, items);
    forall r | r in added ensures SimilarOf(r, source, listing) {
      var a :| 0 <= a < |added| && added[a] == r;
      RecordsForAt(source, ps, a);
    }
    SimilarRecordsChosen(listing, source, items);
  }

  /** Whatever a turn of the outer loop appends is a "Similar" copy of the record of that turn. */
  lemma SimilarStepOf(listing: seq<string>)
    ensures forall items, x, r | r in SimilarStep(listing)(items, x) :: SimilarOf(r, x, listing)
  {
    forall items, x, r | r in SimilarStep(listing)(items, x) ensures SimilarOf(r, x, listing) {
      SimilarRecordsOf(listing, x, items);
    }
  }

  /** `SimilarOf` for a fixed listing, as a relation between two records. */
  function SimilarRel(listing: seq<string>): (FileRecord, FileRecord) -> bool {
    (r, source) => SimilarOf(r, source, listing)
  }

  /** Every appended record is a "Similar" copy of one of the original records. */
  lemma SimilarPassAppends(original: seq<FileRecord>, listing: seq<string>, k: nat)
    requires k <= |original|
    ensures var items := SimilarPass(original, listing, k);
      forall m | |original| <= m < |items| :: exists j | 0 <= j < k :: SimilarOf(items[m], original[j], listing)
  {
    SimilarStepOf(listing);
    GrowAppends(original, SimilarStep(listing), k, SimilarRel(listing));
    var items := Grow(original, SimilarStep(listing), k);
    forall m | |original| <= m < |items| ensures exists j | 0 <= j < k :: SimilarOf(items[m], original[j], listing) {
      assert |original| <= m < |Grow(original, SimilarStep(listing), k)|;
      var j :| 0 <= j < k && SimilarRel(listing)(items[m], original[j]);
      assert SimilarOf(items[m], original[j], listing);
    }
  }

  /** No two entries of a listing name the same file, ignoring case, as on a Windows file system. */
  predicate DistinctPaths(listing: seq<string>) {
    forall i, j | 0 <= i < j < |listing| :: !EqualsIgnoreCase(listing[i], listing[j])
  }

  /** Records from `n` on have paths unlike those of all records before them, ignoring case. */
  predicate FreshFrom(items: seq<FileRecord>, n: nat) {
    forall m, i | n <= m < |items| && 0 <= i < m :: !EqualsIgnoreCase(items[i].FilePath, items[m].FilePath)
  }

  /** The chosen entries of a listing without duplicates have no duplicates. */
  lemma SimilarPathsDistinct(listing: seq<string>, stem: string, items: seq<FileRecord>)
    requires DistinctPaths(listing)
    ensures DistinctPaths(SimilarPaths(listing, stem, items))
  {
    WhereDistinct(listing, KeepSimilar(stem, items));
  }

  /** Filtering a listing without duplicates leaves none. */
  lemma {:induction false} WhereDistinct(listing: seq<string>, keep: string -> bool)
    requires DistinctPaths(listing)
    ensures DistinctPaths(Where(listing, keep))
  {
    if |listing| > 0 {
      var tail := listing[1..];
      assert DistinctPaths(tail) by {
        forall i, j | 0 <= i < j < |tail| ensures !EqualsIgnoreCase(tail[i], tail[j]) {
          assert tail[i] == listing[i + 1] && tail[j] == listing[j + 1];
        }
      }
      WhereDistinct(tail, keep);
      var rest := Where(tail, keep);
      WhereMembers(tail, keep);
      forall i | 0 <= i < |rest| ensures !EqualsIgnoreCase(listing[0], rest[i]) {
        assert rest[i] in rest;
        var j :| 0 <= j < |tail| && tail[j] == rest[i];
        assert listing[j + 1] == rest[i];
      }
      var m := Where(listing, keep);
      if keep(listing[0]) {
        assert m == [listing[0]] + rest;
        forall i, j | 0 <= i < j < |m| ensures !EqualsIgnoreCase(m[i], m[j]) {
          if i > 0 {
            assert m[i] == rest[i - 1] && m[j] == rest[j - 1];
          } else {
            assert m[j] == rest[j - 1];
          }
        }
      } else {
        assert m == rest;
      }
    }
  }

  /** One turn of the outer loop appends records whose paths are new to the list and to each other. */
  lemma SimilarStepFresh(before: seq<FileRecord>, n: nat, listing: seq<string>, source: FileRecord)
    requires n <= |before| && FreshFrom(before, n) && DistinctPaths(listing)
    ensures FreshFrom(before + SimilarRecords(listing, source, before), n)
  {
    var ps := SimilarPaths(listing, GetFileNameWithoutExtension(source.FileName), before);
    var added := SimilarRecords(listing, source, before);
    var items := before + added;
    SimilarRecordsChosen(listing, source, before);
    SimilarPathsDistinct(listing, GetFileNameWithoutExtension(source.FileName), before);
    SimilarPathsChosen(listing, GetFileNameWithoutExtension(source.FileName), before);
    forall a | 0 <= a < |added| ensures added[a].FilePath == ps[a] {
      RecordsForAt(source, ps, a);
    }
    forall m, i | n <= m < |items| && 0 <= i < m
      ensures !EqualsIgnoreCase(items[i].FilePath, items[m].FilePath)
    {
      if m < |before| {
        assert items[i] == before[i] && items[m] == before[m];
      } else if i < |before| {
        assert items[m].FilePath == ps[m - |before|];
        assert items[i] == before[i];
        ListedIff(before, ps[m - |before|]);
      } else {
        assert items[m].FilePath == ps[m - |before|];
        assert items[i].FilePath == ps[i - |before|];
      }
    }
  }

  /**
   * Provided the folder lists each file once, every appended record has a path that no record
   * before it has, ignoring case: no file is added twice and no original record is duplicated.
   */
  lemma SimilarPassFresh(original: seq<FileRecord>, listing: seq<string>, k: nat)
    requires k <= |original| && DistinctPaths(listing)
    ensures FreshFrom(SimilarPass(original, listing, k), |original|)
  {
    var n := |original|;
    var step := SimilarStep(listing);
    var inv := (items: seq<FileRecord>) => n <= |items| && FreshFrom(items, n);
    forall items, x | inv(items) ensures inv(items + step(items, x)) {
      SimilarStepFresh(items, n, listing, x);
    }
    GrowKeeps(original, step, k, inv);
  }

  /** Appending records never takes a path out of the list. */
  lemma {:induction false} ListedGrows(items: seq<FileRecord>, extra: seq<FileRecord>, p: string)
    requires Listed(items, p)
    ensures Listed(items + extra, p)
  {
    ListedIff(items, p);
    ListedIff(items + extra, p);
    var j :| 0 <= j < |items| && EqualsIgnoreCase(items[j].FilePath, p);
    assert (items + extra)[j] == items[j];
  }

  /** The list after `j` turns is a prefix of the list after `k`. */
  lemma {:induction false} GrowPrefix<T>(original: seq<T>, step: (seq<T>, T) -> seq<T>, j: nat, k: nat)
    requires j <= k <= |original|
    ensures var early, late := Grow(original, step, j), Grow(original, step, k);
      |early| <= |late| && early == late[..|early|]
  {
    if j < k {
      GrowPrefix(original, step, j, k - 1);
      var early, before := Grow(original, step, j), Grow(original, step, k - 1);
      var late := before + step(before, original[k - 1]);
      assert late[..|early|] == before[..|early|];
    }
  }

  /** A path in the list after `j` turns of a loop that only appends stays there after `k`. */
  lemma {:induction false} GrowListed(original: seq<FileRecord>, step: (seq<FileRecord>, FileRecord) -> seq<FileRecord>, j: nat, k: nat, p: string)
    requires j <= k <= |original| && Listed(Grow(original, step, j), p)
    ensures Listed(Grow(original, step, k), p)
  {
    var early, late := Grow(original, step, j), Grow(original, step, k);
    GrowPrefix(original, step, j, k);
    ListedGrows(early, late[|early|..], p);
    assert early + late[|early|..] == late;
  }

  /** Some record of `paths` has the path `p`, so `p` is listed once they are appended. */
  lemma {:induction false} RecordsForListed(before: seq<FileRecord>, source: FileRecord, paths: seq<string>, p: string)
    requires p in paths
    ensures Listed(before + RecordsFor(source, paths), p)
  {
    var added := RecordsFor(source, paths);
    var a :| 0 <= a < |paths| && paths[a] == p;
    RecordsForAt(source, paths, a);
    var items := before + added;
    assert items[|before| + a] == added[a];
    EqualsIgnoreCaseReflexive(p);
    ListedIff(items, p);
  }

  /** A folder file matching the stem of `source` and missing from the list is added by its turn. */
  lemma {:induction false} TurnAddsMissing(listing: seq<string>, source: FileRecord, before: seq<FileRecord>, p: string)
    requires p in listing && MatchesStem(GetFileNameWithoutExtension(source.FileName), p) && !Listed(before, p)
    ensures Listed(before + SimilarRecords(listing, source, before), p)
  {
    var stem := GetFileNameWithoutExtension(source.FileName);
    WhereMembers(listing, KeepSimilar(stem, before));
    assert KeepSimilar(stem, before)(p);
    SimilarRecordsChosen(listing, source, before);
    RecordsForListed(before, source, SimilarPaths(listing, stem, before), p);
  }

  /**
   * In a loop that only appends, a path that turn `j` adds whenever it is missing is in the
   * list after every later turn.
   */
  lemma {:induction false} GrowFindsHit(original: seq<FileRecord>, step: (seq<FileRecord>, FileRecord) -> seq<FileRecord>, j: nat, k: nat, p: string)
    requires j < k <= |original|
    requires forall before | !Listed(before, p) :: Listed(before + step(before, original[j]), p)
    ensures Listed(Grow(original, step, k), p)
  {
    var before := Grow(original, step, j);
    if Listed(before, p) {
      ListedGrows(before, step(before, original[j]), p);
    }
    assert Listed(Grow(original, step, j + 1), p);
    GrowListed(original, step, j + 1, k, p);
  }

  /**
   * What `FindSimilarFiles` is for: once the turn of record `j` is done, every file of the
   * folder that shares its base name is in the list, whether it was there already or was
   * appended as a "Similar" record.
   */
  lemma {:induction false} SimilarPassComplete(original: seq<FileRecord>, listing: seq<string>, k: nat, j: nat, p: string)
    requires j < k <= |original| && p in listing
    requires MatchesStem(GetFileNameWithoutExtension(original[j].FileName), p)
    ensures Listed(SimilarPass(original, listing, k), p)
  {
    var step := SimilarStep(listing);
    forall before | !Listed(before, p) ensures Listed(before + step(before, original[j]), p) {
      TurnAddsMissing(listing, original[j], before, p);
    }
    GrowFindsHit(original, step, j, k, p);
  }

  /**
   * `FindSimilarFiles`, with `listing` the files of the folder: an empty list stays empty;
   * otherwise, for each original record in turn, the matching files not yet in the list are
   * appended as "Similar" records carrying its dates.
   */
  method FindSimilarFiles(allResults: ResultList, listing: seq<string>)
    modifies allResults
    ensures |old(allResults.items)| == 0 ==> allResults.items == old(allResults.items)
    ensures allResults.items == SimilarPass(old(allResults.items), listing, |old(allResults.items)|)
  {
    var snapshot := allResults.items;
    if |snapshot| == 0 {
      return;
    }
    var k := 0;
    while k < |snapshot|
      invariant k <= |snapshot| && allResults.items == SimilarPass(snapshot, listing, k)
    {
      AppendSimilar(allResults, listing, snapshot, k);
      k := k + 1;
    }
  }

  /**
   * The body of the outer loop, at original record `k`: the files similar to it and not yet
   * listed are appended.
   */
  method AppendSimilar(allResults: ResultList, listing: seq<string>, original: seq<FileRecord>, k: nat)
    requires k < |original| && allResults.items == SimilarPass(original, listing, k)
    modifies allResults
    ensures allResults.items == SimilarPass(original, listing, k + 1)
  {
    var result := original[k];
    var fileNameWithoutExtension := GetFileNameWithoutExtension(result.FileName);
    var similarFiles := SimilarPaths(listing, fileNameWithoutExtension, allResults.items);
    var added := NewRecords(result, similarFiles);
    allResults.items := allResults.items + added;
    SimilarRecordsChosen(listing, result, old(allResults.items));
    SimilarPassStep(original, listing, k);
  }

  /** The inner loop: a "Similar" record for each path, in order. */
  method NewRecords(source: FileRecord, paths: seq<string>) returns (added: seq<FileRecord>)
    ensures added == RecordsFor(source, paths)
  {
    added := [];
    for j := 0 to |paths|
      invariant added == RecordsFor(source, paths[..j])
    {
      assert paths[..j + 1][..j] == paths[..j];
      added := added + [SimilarRecord(source, paths[j])];
    }
    assert paths[..|paths|] == paths;
  }

  // ---------------------------------------------------------------------------------------
  // RenameFiles
  // ---------------------------------------------------------------------------------------

  /**
   * The new file name: `FileNameMod` without its extension, then `_` and the author when the
   * author is not blank, then the extension of `FileNameMod`.
   */
  function NewFileName(r: FileRecord): string {
    var stem := GetFileNameWithoutExtension(r.FileNameMod);
    (if !IsBlank(r.Author) then stem + "_" + r.Author else stem) + GetExtension(r.FileNameMod)
  }

  /** The path the record's file is moved to: the new name in the file's own directory. */
  function RenameTarget(r: FileRecord): string {
    SiblingPath(r.FilePath, NewFileName(r))
  }

  /**
   * Whether the move happens: the record has a modified name, nothing exists at the target,
   * and the file itself exists (otherwise `File.Move` throws and the error is only reported).
   */
  predicate Renames(paths: set<string>, r: FileRecord) {
    !IsBlank(r.FileNameMod) && RenameTarget(r) !in paths && r.FilePath in paths
  }

  /** The files after one turn of the loop. */
  function PathsAfter(paths: set<string>, r: FileRecord): set<string> {
    if Renames(paths, r) then paths - {r.FilePath} + {RenameTarget(r)} else paths
  }

  /** The record after one turn of the loop. */
  function RecordAfter(paths: set<string>, r: FileRecord): FileRecord {
    if Renames(paths, r) then r.(FilePath := RenameTarget(r)) else r
  }

  /** The files and the records handled so far. */
  datatype RenameState = RenameState(paths: set<string>, done: seq<FileRecord>)

  /** The state after the loop has handled the first `k` records. */
  function RenamePrefix(paths: set<string>, items: seq<FileRecord>, k: nat): (s: RenameState)
    requires k <= |items|
    ensures |s.done| == k
  {
    if k == 0 then RenameState(paths, [])
    else
      var before := RenamePrefix(paths, items, k - 1);
      RenameState(PathsAfter(before.paths, items[k - 1]), before.done + [RecordAfter(before.paths, items[k - 1])])
  }

  /** A record with a blank modified name is skipped: neither the files nor the record change. */
  lemma RenameSkipsBlank(paths: set<string>, r: FileRecord)
    requires IsBlank(r.FileNameMod)
    ensures PathsAfter(paths, r) == paths && RecordAfter(paths, r) == r
  {
  }

  /** When something already exists at the target, nothing is overwritten and nothing changes. */
  lemma RenameNeverOverwrites(paths: set<string>, r: FileRecord)
    requires RenameTarget(r) in paths
    ensures PathsAfter(paths, r) == paths && RecordAfter(paths, r) == r
  {
  }

  /**
   * The record's path changes exactly when the move happens, and then to the target; the move
   * replaces the file's old path by the target, which was free, so the number of files stays
   * the same and no other file is touched.
   */
  lemma RenameMoves(paths: set<string>, r: FileRecord)
    ensures RecordAfter(paths, r).FilePath != r.FilePath <==> Renames(paths, r)
    ensures Renames(paths, r) ==>
      && RecordAfter(paths, r).FilePath == RenameTarget(r)
      && r.FilePath !in PathsAfter(paths, r) && RenameTarget(r) in PathsAfter(paths, r)
    ensures |PathsAfter(paths, r)| == |paths|
    ensures forall p | p != r.FilePath && p != RenameTarget(r) :: p in PathsAfter(paths, r) <==> p in paths
    ensures RecordAfter(paths, r) == r.(FilePath := RecordAfter(paths, r).FilePath)
  {
    if Renames(paths, r) {
      var rest := paths - {r.FilePath};
      assert paths == rest + {r.FilePath};
      assert |rest| == |paths| - 1;
    }
  }

  /**
   * The target is a file called `NewFileName` in the directory of the record's file, provided
   * the new name holds no directory separator.
   */
  lemma RenameTargetPlace(r: FileRecord)
    requires HasNoSeparator(NewFileName(r))
    ensures GetFileName(RenameTarget(r)) == NewFileName(r)
    ensures var t := RenameTarget(r);
      t[..|t| - |NewFileName(r)|] == r.FilePath[..|r.FilePath| - |GetFileName(r.FilePath)|]
  {
    SiblingPathFacts(r.FilePath, NewFileName(r));
  }

  /**
   * With an author, the new name is the modified name with `_` and the author inserted before
   * its extension; for a plain name with an extension and an author free of dots and
   * separators, the new name keeps that extension and its stem gains `_` and the author.
   */
  lemma NewFileNameWithAuthor(r: FileRecord)
    requires !IsBlank(r.Author)
    ensures NewFileName(r) == WithAuthor(r.FileNameMod, r.Author)
    ensures HasNoSeparator(r.FileNameMod) && GetExtension(r.FileNameMod) != "" && HasNoSeparator(r.Author) && '.' !in r.Author ==>
      && GetExtension(NewFileName(r)) == GetExtension(r.FileNameMod)
      && GetFileNameWithoutExtension(NewFileName(r)) == GetFileNameWithoutExtension(r.FileNameMod) + "_" + r.Author
  {
    if HasNoSeparator(r.FileNameMod) && GetExtension(r.FileNameMod) != "" && HasNoSeparator(r.Author) && '.' !in r.Author {
      WithAuthorParts(r.FileNameMod, r.Author);
    }
  }

  /**
   * Without an author, the new name is the file name of `FileNameMod`, except that a trailing
   * `.` is dropped.
   */
  lemma NewFileNameWithoutAuthor(r: FileRecord)
    requires IsBlank(r.Author)
    ensures var name := GetFileName(r.FileNameMod);
      if |name| > 0 && name[|name| - 1] == '.' then NewFileName(r) + "." == name
      else NewFileName(r) == name
  {
    StemAndExtension(r.FileNameMod);
  }

  /**
   * A record named by `OrderFiles` after `FindAuthors` gave it an author has modified name
   * `{ordinal}_{noExt}_{author}{ext}`, and the rename appends the author a second time:
   * the new name is `{ordinal}_{noExt}_{author}_{author}{ext}`.
   */
  lemma RenameRepeatsAuthor(r: FileRecord, ordinal: nat)
    requires !IsBlank(r.Author) && HasNoSeparator(r.Author) && '.' !in r.Author
    requires HasNoSeparator(r.FileName) && GetExtension(r.FileName) != ""
    requires r.FileNameMod == Pad3(ordinal) + "_" + WithAuthor(r.FileName, r.Author)
    ensures NewFileName(r) ==
      Pad3(ordinal) + "_" + GetFileNameWithoutExtension(r.FileName) + "_" + r.Author + "_" + r.Author + GetExtension(r.FileName)
  {
    NewFileNameWithAuthor(r);
    PadHasNoSeparator(ordinal);
    WithAuthorTwice(Pad3(ordinal), r.FileName, r.Author);
  }

  /** Inserting the same author twice, the second time behind a prefix `p`. */
  lemma WithAuthorTwice(p: string, name: string, a: string)
    requires HasNoSeparator(p) && HasNoSeparator(name) && GetExtension(name) != ""
    requires HasNoSeparator(a) && '.' !in a
    ensures WithAuthor(p + "_" + WithAuthor(name, a), a) ==
      p + "_" + GetFileNameWithoutExtension(name) + "_" + a + "_" + a + GetExtension(name)
  {
    var stem := GetFileNameWithoutExtension(name);
    var ext := GetExtension(name);
    NameParts(name);
    var head := p + "_" + stem;
    assert HasNoSeparator(head) by {
      ConcatHasNoSeparator(p, "_");
      ConcatHasNoSeparator(p + "_", stem);
    }
    var x := "_" + a;
    assert HasNoSeparator(x) && '.' !in x by {
      assert forall i | 1 <= i < |x| :: x[i] == a[i - 1];
    }
    var mod := p + "_" + WithAuthor(name, a);
    RegroupNested(p, stem, a, ext);
    assert mod == head + x + ext;
    InsertBeforeExtension(head, x, ext);
    RegroupTwice(p, stem, a, ext);
  }

  lemma RegroupNested(p: string, stem: string, a: string, ext: string)
    ensures p + "_" + (stem + "_" + a + ext) == (p + "_" + stem) + ("_" + a) + ext
  {
  }

  lemma RegroupTwice(p: string, stem: string, a: string, ext: string)
    ensures (p + "_" + stem) + ("_" + a) + "_" + a + ext == p + "_" + stem + "_" + a + "_" + a + ext
  {
  }

  /** The zero-padded ordinal holds no separator. */
  lemma PadHasNoSeparator(i: nat)
    ensures HasNoSeparator(Pad3(i))
  {
    DigitsHaveNoSeparator(Pad3(i));
  }

  /** Text made of digits holds no separator. */
  lemma DigitsHaveNoSeparator(s: string)
    requires AllDigits(s)
    ensures HasNoSeparator(s)
  {
  }

  /** After the whole loop the records keep their number and order, and only paths change. */
  lemma {:induction false} RenamePrefixShape(paths: set<string>, items: seq<FileRecord>, k: nat)
    requires k <= |items|
    ensures var s := RenamePrefix(paths, items, k);
      && |s.paths| == |paths|
      && forall i | 0 <= i < k :: s.done[i] == items[i].(FilePath := s.done[i].FilePath)
  {
    if k > 0 {
      RenamePrefixShape(paths, items, k - 1);
      var before := RenamePrefix(paths, items, k - 1);
      RenameMoves(before.paths, items[k - 1]);
    }
  }

  /** The state after the loop over all records. */
  function RenameAll(paths: set<string>, items: seq<FileRecord>): RenameState {
    RenamePrefix(paths, items, |items|)
  }

  /**
   * `RenameFiles`: each record in turn is moved to its new name unless its modified name is
   * blank, something exists at the target, or the file is missing; a moved record's
   * `FilePath` becomes the target.
   */
  method RenameFiles(allResults: ResultList, disk: Disk)
    modifies allResults, disk
    ensures var s := RenameAll(old(disk.paths), old(allResults.items));
      disk.paths == s.paths && allResults.items == s.done
  {
    if |allResults.items| == 0 {
      return;
    }
    var original := allResults.items;
    var updated: seq<FileRecord> := [];
    for k := 0 to |original|
      invariant RenamePrefix(old(disk.paths), original, k) == RenameState(disk.paths, updated)
    {
      var result := RenameOne(disk, original[k]);
      updated := updated + [result];
    }
    allResults.items := updated;
  }

  /** The body of the `RenameFiles` loop, for one record. */
  method RenameOne(disk: Disk, result: FileRecord) returns (result': FileRecord)
    modifies disk
    ensures disk.paths == PathsAfter(old(disk.paths), result)
    ensures result' == RecordAfter(old(disk.paths), result)
  {
    result' := result;
    if IsBlank(result.FileNameMod) {
      return;
    }
    var fileNameWithoutExt := GetFileNameWithoutExtension(result.FileNameMod);
    var extension := GetExtension(result.FileNameMod);
    var newFileName := fileNameWithoutExt;
    if !IsBlank(result.Author) {
      newFileName := newFileName + "_" + result.Author;
    }
    newFileName := newFileName + extension;
    var newFilePath := SiblingPath(result.FilePath, newFileName);
    if newFilePath in disk.paths {
      return;
    }
    if result.FilePath !in disk.paths {
      return;
    }
    disk.paths := disk.paths - {result.FilePath} + {newFilePath};
    result' := result.(FilePath := newFilePath);
  }
}
