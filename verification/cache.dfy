/** The cache file: the entries of the last fetch and when it happened,
    fresh for thirty minutes. The file system is an explicit file state. */
module Cache {
  import opened Wrappers
  import opened Entries

  /** How long a fetch stays fresh. */
  const CacheDuration: Duration := 30 * Minute

  /** Permission bits 0600 (owner read and write), given to a created file. */
  const OwnerReadWrite: int := 6 * 64

  /** The smallest `time.Duration` (-2^63 nanoseconds). */
  const MinDuration: Duration := -0x8000_0000_0000_0000

  /** What the cache file holds once decoded. */
  datatype Snapshot = Snapshot(lastQuery: Instant, entries: seq<FeedEntry>)

  /** The cache file: absent, present but not openable, readable or
      decodable, or holding a snapshot. `mode` is its permission bits. */
  datatype CacheFile = Missing | Unreadable(mode: int) | Present(mode: int, snapshot: Snapshot)

  datatype CacheError = CacheUnreadable | CacheWriteFailed

  /** The three results of getFromCache. */
  datatype CacheRead = CacheRead(entries: seq<FeedEntry>, isStale: bool, err: Option<CacheError>)

  /** time.Time.Sub: the difference, saturated to the range of a Duration. */
  function TimeSub(t: Instant, u: Instant): (d: Duration)
    ensures MinDuration <= d <= MaxDuration
    ensures MinDuration <= t - u <= MaxDuration ==> d == t - u
    // saturation keeps the sign and the order of the true difference
    ensures d > CacheDuration <==> t - u > CacheDuration
  {
    if t - u > MaxDuration then MaxDuration
    else if t - u < MinDuration then MinDuration
    else t - u
  }

  /** getFromCache, reading the clock as `now`. */
  function GetFromCache(file: CacheFile, now: Instant): (r: CacheRead)
    // an error exactly when the file exists but cannot be used, and then
    // no entries and not stale
    ensures r.err.Some? <==> file.Unreadable?
    ensures r.err.Some? ==> r.entries == [] && !r.isStale
    // no file: nothing cached, and stale so that a fetch follows
    ensures file.Missing? ==> r.entries == [] && r.isStale && r.err.None?
    // a snapshot: its entries as stored, stale once strictly more than
    // thirty minutes have passed
    ensures file.Present? ==>
      && r.entries == file.snapshot.entries
      && (r.isStale <==> now > file.snapshot.lastQuery + CacheDuration)
  {
    match file
    case Missing => CacheRead([], true, None)
    case Unreadable(_) => CacheRead([], false, Some(CacheUnreadable))
    case Present(_, snapshot) =>
      CacheRead(snapshot.entries, TimeSub(now, snapshot.lastQuery) > CacheDuration, None)
  }

  datatype WriteResult = WriteResult(file: CacheFile, err: Option<CacheError>)

  /** writeToCache at time `now`; `writeOk` says whether the file system
      accepted the write. A created file gets mode 0600, before the
      process umask; an existing file keeps its mode, as os.WriteFile does. */
  function WriteToCache(file: CacheFile, now: Instant, entries: seq<FeedEntry>, writeOk: bool): (r: WriteResult)
    // a failed write reports an error and leaves the file as it was
    ensures !writeOk ==> r.err == Some(CacheWriteFailed) && r.file == file
    // a successful write stores the entries verbatim, stamped with `now`
    ensures writeOk ==> r.err.None? && r.file.Present? && r.file.snapshot == Snapshot(now, entries)
    // the mode of a created file is 0600; otherwise it is kept
    ensures writeOk && file.Missing? ==> r.file.mode == OwnerReadWrite
    ensures writeOk && !file.Missing? ==> r.file.mode == file.mode
  {
    if !writeOk then WriteResult(file, Some(CacheWriteFailed))
    else
      var mode := if file.Missing? then OwnerReadWrite else file.mode;
      WriteResult(Present(mode, Snapshot(now, entries)), None)
  }

  /** A write followed, within thirty minutes, by a read gives back the
      written entries and reports them fresh; after that they are stale. */
  lemma WriteThenRead(file: CacheFile, written: Instant, entries: seq<FeedEntry>, now: Instant)
    ensures var read := GetFromCache(WriteToCache(file, written, entries, true).file, now);
      && read.entries == entries && read.err.None?
      && (read.isStale <==> now - written > CacheDuration)
  {
  }

  /** Staleness is strict: exactly thirty minutes is still fresh, one
      nanosecond more is stale, and a timestamp in the future is fresh. */
  lemma StalenessBoundary(mode: int, snapshot: Snapshot)
    ensures !GetFromCache(Present(mode, snapshot), snapshot.lastQuery + CacheDuration).isStale
    ensures GetFromCache(Present(mode, snapshot), snapshot.lastQuery + CacheDuration + 1).isStale
    ensures forall now :: now <= snapshot.lastQuery ==> !GetFromCache(Present(mode, snapshot), now).isStale
  {
  }
}
