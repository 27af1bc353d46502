/**
 * The per-file record (`FileProcessResult`), its derived `BestDate`, the timestamps it
 * carries, and the mutable list of records that the pipeline stages share.
 */
module Records {
  import opened Nullable

  // ---------------------------------------------------------------------------
  // Timestamps

  const TicksPerSecond: int := 10_000_000
  const TicksPerMinute: int := 60 * TicksPerSecond
  const TicksPerHour: int := 60 * TicksPerMinute
  const TicksPerDay: int := 24 * TicksPerHour

  /** The threshold of `TimeSpan.TotalHours > 2`, in ticks. */
  const TwoHoursTicks: int := 2 * TicksPerHour

  /** `DateTime.MaxValue.Ticks`: the last tick of 9999-12-31. */
  const MaxTicks: int := 3_155_378_975_999_999_999

  /**
   * A `DateTime`, represented as .NET represents it: its tick count, the number of
   * 100-nanosecond intervals since 0001-01-01 00:00:00. Comparison and subtraction of
   * `DateTime` values are those of their tick counts.
   */
  type DateTime = t: int | 0 <= t <= MaxTicks

  // ---------------------------------------------------------------------------
  // The record

  const StatusExif := "Exif"
  const StatusNoExif := "NoExif"
  const StatusError := "Error"
  const StatusSimilar := "Similar"
  const StatusJpeg := "Jpeg"

  /**
   * One file under consideration. Text fields that C# leaves null until a stage writes them
   * are the empty string here (every consumer treats null and "" alike).
   */
  datatype FileRecord = FileRecord(
    FilePath: string,
    FileName: string,
    FileNameMod: string,
    FileNameAuthor: string,
    FileNameOrdered: string,
    Author: string,
    DateTaken: Option<DateTime>,
    FileCreated: DateTime,
    FileModified: DateTime,
    Status: string,
    ErrorMessage: string)
  {
    /** `DateTaken` if present, otherwise the older of `FileCreated` and `FileModified`. */
    function BestDate(): (d: DateTime)
      ensures DateTaken.Some? ==> d == DateTaken.value
      ensures DateTaken.None? ==>
        && (d == FileCreated || d == FileModified)
        && d <= FileCreated && d <= FileModified
    {
      match DateTaken
      case Some(t) => t
      case None => if FileCreated < FileModified then FileCreated else FileModified
    }
  }

  /** `BestDate` reads the three date fields only: name, author and status fields do not matter. */
  lemma BestDateReadsOnlyDates(r: FileRecord, s: FileRecord)
    requires r.DateTaken == s.DateTaken && r.FileCreated == s.FileCreated && r.FileModified == s.FileModified
    ensures r.BestDate() == s.BestDate()
  {
  }

  /** The `List<FileProcessResult>` the pipeline stages update in place. */
  class ResultList {
    var items: seq<FileRecord>

    constructor (items: seq<FileRecord>)
      ensures this.items == items
    {
      this.items := items;
    }
  }
}
