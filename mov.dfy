/**
 * `FileMOV.UpdateMovDatesFromJpeg`: a video (`.mov`) without a capture date takes the
 * `DateTaken` of the photo (`.jpg` or `.jpeg`) that shares its base name.
 */
module FileMov {
  import opened Nullable
  import opened Text
  import opened Paths
  import opened Records

  /** The record is a video: its extension is `.mov`, ignoring case. */
  predicate IsMov(r: FileRecord) {
    EqualsIgnoreCase(GetExtension(r.FileName), ".mov")
  }

  /** The record is a photo: its extension is `.jpg` or `.jpeg`, ignoring case. */
  predicate IsJpeg(r: FileRecord) {
    EqualsIgnoreCase(GetExtension(r.FileName), ".jpg") || EqualsIgnoreCase(GetExtension(r.FileName), ".jpeg")
  }

  /** The record is a photo whose base name is `baseName`, ignoring case. */
  predicate IsMatch(r: FileRecord, baseName: string) {
    IsJpeg(r) && EqualsIgnoreCase(GetFileNameWithoutExtension(r.FileName), baseName)
  }

  /** No record is both a video and a photo. */
  lemma MovIsNotJpeg(r: FileRecord)
    ensures !(IsMov(r) && IsJpeg(r))
  {
    var e := GetExtension(r.FileName);
    EqualsIgnoreCaseIff(e, ".mov");
    EqualsIgnoreCaseIff(e, ".jpg");
    EqualsIgnoreCaseIff(e, ".jpeg");
  }

  /** The test `FirstOrDefault` applies to each record: a photo with base name `baseName`. */
  function Matching(baseName: string): FileRecord -> bool {
    r => IsMatch(r, baseName)
  }

  /**
   * `xs.FirstOrDefault(p)`, searching from position `from`: the position of the first element
   * that satisfies `p`, or none when no element from there on does.
   */
  function First<T>(xs: seq<T>, p: T -> bool, from: nat): (m: Option<nat>)
    requires from <= |xs|
    ensures m.Some? ==> from <= m.value < |xs| && p(xs[m.value])
    ensures m.Some? ==> forall i | from <= i < m.value :: !p(xs[i])
    ensures m.None? <==> forall i | from <= i < |xs| :: !p(xs[i])
    decreases |xs| - from
  {
    if from == |xs| then None
    else if p(xs[from]) then Some(from)
    else First(xs, p, from + 1)
  }

  /** The first element satisfying `p` is the one that does with none before it. */
  lemma FirstIs<T>(xs: seq<T>, p: T -> bool, j: nat)
    requires j < |xs| && p(xs[j])
    requires forall k | 0 <= k < j :: !p(xs[k])
    ensures First(xs, p, 0) == Some(j)
  {
    var m := First(xs, p, 0);
    assert m.Some?;
  }

  /** Lists that agree on which elements satisfy `p`, and on those elements, find the same first one. */
  lemma {:induction false} FirstAgrees<T>(a: seq<T>, b: seq<T>, p: T -> bool, from: nat)
    requires |a| == |b| && from <= |a|
    requires forall i | 0 <= i < |a| :: p(a[i]) == p(b[i]) && (p(a[i]) ==> a[i] == b[i])
    ensures First(a, p, from) == First(b, p, from)
    ensures First(a, p, from).Some? ==> a[First(a, p, from).value] == b[First(a, p, from).value]
    decreases |a| - from
  {
    if from < |a| && !p(a[from]) {
      FirstAgrees(a, b, p, from + 1);
    }
  }

  /** What the loop does to one record `r`, looking its photo up in `files`. */
  function Adopt(files: seq<FileRecord>, r: FileRecord): FileRecord {
    if !IsMov(r) then r
    else
      match First(files, Matching(GetFileNameWithoutExtension(r.FileName)), 0)
      case None => r
      case Some(j) =>
        if files[j].DateTaken.Some? then r.(DateTaken := files[j].DateTaken, Status := StatusJpeg) else r
  }

  /** The list after the pass: every record adopted against the list as it was. */
  function Updated(files: seq<FileRecord>): (updated: seq<FileRecord>)
    ensures |updated| == |files|
  {
    seq(|files|, i requires 0 <= i < |files| => Adopt(files, files[i]))
  }

  /** The list after the first `k` records have been visited. */
  function UpdatedPrefix(files: seq<FileRecord>, k: nat): (updated: seq<FileRecord>)
    ensures |updated| == |files|
  {
    seq(|files|, i requires 0 <= i < |files| => if i < k then Adopt(files, files[i]) else files[i])
  }

  /**
   * `b` differs from `a` only in videos, and only in their date and status: it has the same
   * length, the same file names, and the same photos.
   */
  predicate SamePhotos(a: seq<FileRecord>, b: seq<FileRecord>) {
    |a| == |b| &&
    forall i | 0 <= i < |a| :: a[i].FileName == b[i].FileName && (!IsMov(a[i]) ==> a[i] == b[i])
  }

  /** Two lists with the same photos find the same photo for each base name. */
  lemma FirstMatchSamePhotos(a: seq<FileRecord>, b: seq<FileRecord>, baseName: string)
    requires SamePhotos(a, b)
    ensures First(a, Matching(baseName), 0) == First(b, Matching(baseName), 0)
    ensures First(a, Matching(baseName), 0).Some? ==> a[First(a, Matching(baseName), 0).value] == b[First(a, Matching(baseName), 0).value]
  {
    var p := Matching(baseName);
    forall i | 0 <= i < |a| ensures p(a[i]) == p(b[i]) && (p(a[i]) ==> a[i] == b[i]) {
      MovIsNotJpeg(a[i]);
    }
    FirstAgrees(a, b, p, 0);
  }

  /** Adopting records never changes their file names or any photo. */
  lemma AdoptKeepsPhotos(files: seq<FileRecord>, k: nat)
    ensures SamePhotos(files, UpdatedPrefix(files, k))
  {
  }

  /** Visiting record `k` in the partly updated list has the effect it has on the original list. */
  lemma AdoptStep(files: seq<FileRecord>, k: nat)
    requires k < |files|
    ensures var current := UpdatedPrefix(files, k);
      UpdatedPrefix(files, k + 1) == current[k := Adopt(current, current[k])]
  {
    var current := UpdatedPrefix(files, k);
    assert current[k] == files[k];
    AdoptKeepsPhotos(files, k);
    AdoptSamePhotos(files, current, files[k]);
    PrefixStep(files, k, Adopt(files, files[k]));
  }

  /** A record adopts the same date from any list with the same photos. */
  lemma AdoptSamePhotos(a: seq<FileRecord>, b: seq<FileRecord>, r: FileRecord)
    requires SamePhotos(a, b)
    ensures Adopt(a, r) == Adopt(b, r)
  {
    FirstMatchSamePhotos(a, b, GetFileNameWithoutExtension(r.FileName));
  }

  lemma PrefixStep(files: seq<FileRecord>, k: nat, adopted: FileRecord)
    requires k < |files| && adopted == Adopt(files, files[k])
    ensures UpdatedPrefix(files, k + 1) == UpdatedPrefix(files, k)[k := adopted]
  {
  }

  /**
   * The pass copies, onto a video `i`, the date of the first photo `j` with its base name,
   * when that photo has one, and marks its status as taken from the photo.
   */
  lemma AdoptsFirstPhotoDate(files: seq<FileRecord>, i: nat, j: nat)
    requires i < |files| && j < |files| && IsMov(files[i])
    requires IsMatch(files[j], GetFileNameWithoutExtension(files[i].FileName))
    requires forall k | 0 <= k < j :: !IsMatch(files[k], GetFileNameWithoutExtension(files[i].FileName))
    requires files[j].DateTaken.Some?
    ensures Updated(files)[i] == files[i].(DateTaken := files[j].DateTaken, Status := StatusJpeg)
  {
    FirstIs(files, Matching(GetFileNameWithoutExtension(files[i].FileName)), j);
  }

  /**
   * A video keeps its record when its first photo has no date, even when a later photo with
   * the same base name has one.
   */
  lemma FirstPhotoWithoutDate(files: seq<FileRecord>, i: nat, j: nat)
    requires i < |files| && j < |files|
    requires IsMatch(files[j], GetFileNameWithoutExtension(files[i].FileName))
    requires forall k | 0 <= k < j :: !IsMatch(files[k], GetFileNameWithoutExtension(files[i].FileName))
    requires files[j].DateTaken.None?
    ensures Updated(files)[i] == files[i]
  {
    FirstIs(files, Matching(GetFileNameWithoutExtension(files[i].FileName)), j);
  }

  /** A video no photo matches keeps its record. */
  lemma NoPhoto(files: seq<FileRecord>, i: nat)
    requires i < |files|
    requires forall k | 0 <= k < |files| :: !IsMatch(files[k], GetFileNameWithoutExtension(files[i].FileName))
    ensures Updated(files)[i] == files[i]
  {
    var p := Matching(GetFileNameWithoutExtension(files[i].FileName));
    assert forall k | 0 <= k < |files| :: !p(files[k]);
  }

  /**
   * The pass keeps the length and the order of the list, leaves every record that is not a
   * video as it is, and changes nothing of a video but its `DateTaken` and `Status`.
   */
  lemma UpdatedShape(files: seq<FileRecord>)
    ensures |Updated(files)| == |files|
    ensures forall i | 0 <= i < |files| && !IsMov(files[i]) :: Updated(files)[i] == files[i]
    ensures forall i | 0 <= i < |files| ::
      Updated(files)[i] == files[i].(DateTaken := Updated(files)[i].DateTaken, Status := Updated(files)[i].Status)
  {
  }

  /** A second pass changes nothing: photos are never changed, so each video finds the same date again. */
  lemma UpdatedIdempotent(files: seq<FileRecord>)
    ensures Updated(Updated(files)) == Updated(files)
  {
    var u := Updated(files);
    assert u == UpdatedPrefix(files, |files|);
    AdoptKeepsPhotos(files, |files|);
    forall i | 0 <= i < |u| ensures Adopt(u, u[i]) == u[i] {
      FirstMatchSamePhotos(files, u, GetFileNameWithoutExtension(files[i].FileName));
    }
  }

  /**
   * `UpdateMovDatesFromJpeg`: visits every video in list order and, when the first photo with
   * its base name has a date, copies that date onto it and sets its status to `Jpeg`; the
   * photo is looked up in the list as updated so far.
   */
  method UpdateMovDatesFromJpeg(files: ResultList)
    modifies files
    ensures files.items == Updated(old(files.items))
  {
    var original := files.items;
    for k := 0 to |original|
      invariant files.items == UpdatedPrefix(original, k)
    {
      VisitRecord(files, original, k);
    }
    assert UpdatedPrefix(original, |original|) == Updated(original);
  }

  /** One turn of the loop of `UpdateMovDatesFromJpeg`: record `k`, if it is a video. */
  method VisitRecord(files: ResultList, original: seq<FileRecord>, k: nat)
    requires k < |original| && files.items == UpdatedPrefix(original, k)
    modifies files
    ensures files.items == UpdatedPrefix(original, k + 1)
  {
    AdoptStep(original, k);
    var movFile := files.items[k];
    if IsMov(movFile) {
      var baseName := GetFileNameWithoutExtension(movFile.FileName);
      var matchingJpeg := First(files.items, Matching(baseName), 0);
      if matchingJpeg.Some? && files.items[matchingJpeg.value].DateTaken.Some? {
        movFile := movFile.(DateTaken := files.items[matchingJpeg.value].DateTaken, Status := StatusJpeg);
        files.items := files.items[k := movFile];
      }
    }
  }
}
