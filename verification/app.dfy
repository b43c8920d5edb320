/** main: read the cache; when it is stale, read the URL list, fetch the
    feeds, merge them with the cached entries and write the cache; then
    select and play. Everything outside the program is an input. */
module App {
  import opened Wrappers
  import opened Entries
  import opened VideoDuration
  import opened Merge
  import opened Render
  import opened Selection
  import opened Cache

  /** A line of the URL list that starts with `#` is a comment. */
  predicate IsComment(line: string) {
    |line| > 0 && line[0] == '#'
  }

  /** The line filter of getFeedURLs: every line but the comments, in order. */
  function FeedUrlLines(lines: seq<string>): (urls: seq<string>)
    ensures |urls| <= |lines|
  {
    if |lines| == 0 then []
    else (if IsComment(lines[0]) then [] else [lines[0]]) + FeedUrlLines(lines[1..])
  }

  /** A URL is kept exactly when it is a line of the list and not a comment. */
  lemma {:induction false} FeedUrlLinesMembers(lines: seq<string>)
    ensures forall l :: l in FeedUrlLines(lines) <==> l in lines && !IsComment(l)
    decreases |lines|
  {
    if |lines| > 0 {
      FeedUrlLinesMembers(lines[1..]);
      assert lines == [lines[0]] + lines[1..];
    }
  }

  /** The filter works line by line: splitting the list anywhere and
      filtering the parts gives the same URLs. */
  lemma {:induction false} FeedUrlLinesAppend(a: seq<string>, b: seq<string>)
    ensures FeedUrlLines(a + b) == FeedUrlLines(a) + FeedUrlLines(b)
    decreases |a|
  {
    if |a| > 0 {
      FeedUrlLinesAppend(a[1..], b);
      var head := if IsComment(a[0]) then [] else [a[0]];
      assert (a + b)[0] == a[0];
      assert (a + b)[1..] == a[1..] + b;
      var x, y := FeedUrlLines(a[1..]), FeedUrlLines(b);
      assert head + (x + y) == (head + x) + y;
    } else {
      assert a + b == b;
    }
  }

  /** The world the program runs in. */
  datatype Env = Env(
    parse: TimeParser,                   // RFC 3339 parsing
    format: DateFormatter,               // "02 Jan" rendering of a timestamp
    fetch: Fetcher,                      // HTTP GET of a video page
    urlList: Option<seq<string>>,        // the lines of the URL list, if it can be read
    fetchFeeds: seq<string> -> seq<Feed>, // getFeeds: the feeds that were fetched and decoded
    fzf: string -> FzfRun,               // fzf, given the listing
    mpvOk: string -> bool,               // whether mpv played a URL without error
    writeOk: bool)                       // whether the cache write succeeds

  /** Why main stops: log.Fatal, or the panic of normalizeTitle on an empty
      title inside an enrichment worker, which ends the whole program. */
  datatype AppError =
    | ReadCacheFailed
    | ReadUrlListFailed
    | EnrichPanicked
    | WriteCacheFailed
    | SelectFailed(cause: PlayError)

  /** What main did besides its result: whether it fetched and wrote. */
  datatype Trace = Trace(fetched: bool, wrote: bool)

  /** The fetched feeds when the cache is stale and the URL list reads. */
  function FetchedFeeds(env: Env): seq<Feed>
    requires env.urlList.Some?
  {
    env.fetchFeeds(FeedUrlLines(env.urlList.value))
  }

  /** The merge order of a refresh: the cached entries, then the fetched ones. */
  function RefreshOrder(env: Env, cached: seq<FeedEntry>): seq<FeedEntry>
    requires env.urlList.Some?
  {
    MergeOrder(FetchedFeeds(env), cached)
  }

  /** Every URL of `entries` is the URL of some entry of `pool`. */
  predicate UrlsAmong(entries: seq<FeedEntry>, pool: seq<FeedEntry>) {
    forall k :: 0 <= k < |entries| ==> entries[k].url in UrlsOf(pool)
  }

  /** The URLs of `pool`, in order. */
  function UrlsOf(pool: seq<FeedEntry>): (urls: seq<string>)
    ensures |urls| == |pool| && forall j :: 0 <= j < |pool| ==> urls[j] == pool[j].url
  {
    seq(|pool|, j requires 0 <= j < |pool| => pool[j].url)
  }

  /** The stale branch of main after the panic check: merge the fetched
      entries with the cached ones, write the cache. `ok` is false when the
      write failed. */
  method Refresh(env: Env, file: CacheFile, writeNow: Instant, cached: seq<FeedEntry>)
    returns (file': CacheFile, entries: seq<FeedEntry>, ok: bool)
    requires env.urlList.Some?
    requires FirstCopiesEnrichable(env.fetch, RefreshOrder(env, cached))
    ensures ok == env.writeOk
    ensures !ok ==> file' == file
    // the cache receives what getFeedEntries returns, stamped with the
    // clock reading of the write
    ensures ok ==> file'.Present? && file'.snapshot == Snapshot(writeNow, entries)
    ensures IsMergedResult(env.parse, env.fetch, RefreshOrder(env, cached), entries)
    ensures UrlsAmong(entries, RefreshOrder(env, cached))
  {
    var all := RefreshOrder(env, cached);
    entries := GetFeedEntries(env.parse, env.fetch, FetchedFeeds(env), cached);
    forall k | 0 <= k < |entries|
      ensures entries[k].url in UrlsOf(all)
    {
      assert IsEnrichedFirstCopy(env.fetch, all, entries[k]);
      var i := FirstIndex(all, entries[k].id);
      assert UrlsOf(all)[i] == entries[k].url;
    }
    assert UrlsAmong(entries, all);
    var written := WriteToCache(file, writeNow, entries, env.writeOk);
    file' := written.file;
    ok := written.err.None?;
  }

  /** main reaches selectAndPlay: the cache read, and it was fresh or has
      just been refreshed and written. */
  predicate Lists(file: CacheFile, now: Instant, trace: Trace) {
    GetFromCache(file, now).err.None? && (!GetFromCache(file, now).isStale || trace.wrote)
  }

  /** An error of selectAndPlay is fatal to main. */
  function AsAppResult(played: Result<Option<string>, PlayError>): Result<Option<string>, AppError> {
    match played
    case Failure(cause) => Failure(SelectFailed(cause))
    case Success(url) => Success(url)
  }

  /** The last step of main: selectAndPlay on the listed entries, its
      errors fatal. `pool` holds the entries the listed ones come from. */
  method ListAndPlay(env: Env, shown: seq<FeedEntry>, ghost pool: seq<FeedEntry>)
    returns (r: Result<Option<string>, AppError>)
    requires UrlsAmong(shown, pool)
    ensures r.Failure? && r.error.SelectFailed? && r.error.cause.RenderFailed?
            <==> exists i: nat :: ShownUnparseable(env.parse, shown, i)
    ensures (forall i: nat :: !ShownUnparseable(env.parse, shown, i)) ==>
      r == AsAppResult(PlayOf(FzfChoice(env.format, shown, env.fzf), env.mpvOk))
    ensures r.Success? && r.value.Some? ==> exists e :: e in pool && e.url == r.value.value
  {
    var played := SelectAndPlay(env.parse, env.format, shown, env.fzf, env.mpvOk);
    r := AsAppResult(played);
    if played.Success? && played.value.Some? {
      var url := played.value.value;
      ghost var i :| 0 <= i < |shown| && !ShouldFilterOut(shown[i]) && shown[i].url == url;
      ghost var j :| 0 <= j < |pool| && UrlsOf(pool)[j] == url;
      assert pool[j] in pool;
    }
  }

  /** main. `now` is the clock reading of the staleness check in
      getFromCache; `writeNow` is the later one taken by writeToCache, after
      the feeds have been fetched and enriched. Returns the cache file
      afterwards, what was done, the entries handed to selectAndPlay, and
      Success(Some(url)) when `url` was played. */
  method Run(env: Env, file: CacheFile, now: Instant, writeNow: Instant)
    returns (file': CacheFile, trace: Trace, shown: seq<FeedEntry>, r: Result<Option<string>, AppError>)
    // an unusable cache file is fatal before anything else happens
    ensures file.Unreadable? ==> r == Failure(ReadCacheFailed) && file' == file && !trace.fetched
    // feeds are fetched exactly when the cache is missing or stale and the
    // URL list can be read
    ensures trace.fetched <==> GetFromCache(file, now).isStale && env.urlList.Some?
    ensures GetFromCache(file, now).isStale && env.urlList.None? ==> r == Failure(ReadUrlListFailed)
    // a fresh cache is neither refreshed nor rewritten, and its entries are listed
    ensures !trace.fetched ==> file' == file && !trace.wrote
    ensures GetFromCache(file, now).err.None? && !GetFromCache(file, now).isStale ==>
      shown == GetFromCache(file, now).entries
    // after a fetch: a first copy that would reach normalizeTitle with an
    // empty title crashes the program; otherwise the cache is rewritten, or
    // the failed write is fatal
    ensures trace.fetched ==>
      (trace.wrote <==> env.writeOk && FirstCopiesEnrichable(env.fetch, RefreshOrder(env, GetFromCache(file, now).entries)))
    ensures trace.fetched && !FirstCopiesEnrichable(env.fetch, RefreshOrder(env, GetFromCache(file, now).entries)) ==>
      r == Failure(EnrichPanicked) && file' == file
    ensures (trace.fetched && FirstCopiesEnrichable(env.fetch, RefreshOrder(env, GetFromCache(file, now).entries))
             && !env.writeOk) ==> r == Failure(WriteCacheFailed) && file' == file
    // a written cache holds getFeedEntries' result, stamped with the write's
    // own clock reading, and that
    // result is what is listed
    ensures trace.wrote ==>
      && file'.Present? && file'.snapshot == Snapshot(writeNow, shown)
      && IsMergedResult(env.parse, env.fetch, RefreshOrder(env, GetFromCache(file, now).entries), shown)
    // once the listing is reached, selectAndPlay decides and its errors are fatal
    ensures Lists(file, now, trace) ==>
      (r.Failure? && r.error.SelectFailed? && r.error.cause.RenderFailed?
       <==> exists i: nat :: ShownUnparseable(env.parse, shown, i))
    ensures Lists(file, now, trace) && (forall i: nat :: !ShownUnparseable(env.parse, shown, i)) ==>
      r == AsAppResult(PlayOf(FzfChoice(env.format, shown, env.fzf), env.mpvOk))
    // the video played belongs to a cached or a fetched entry
    ensures r.Success? && r.value.Some? ==>
      exists e :: e in GetFromCache(file, now).entries + (if trace.fetched then FeedsEntries(FetchedFeeds(env)) else [])
                  && e.url == r.value.value
  {
    file' := file;
    trace := Trace(false, false);
    var read := GetFromCache(file, now);
    shown := read.entries;
    if read.err.Some? {
      r := Failure(ReadCacheFailed);
      return;
    }
    if read.isStale {
      if env.urlList.None? {
        r := Failure(ReadUrlListFailed);
        return;
      }
      trace := trace.(fetched := true);
      if !FirstCopiesEnrichable(env.fetch, RefreshOrder(env, shown)) {
        r := Failure(EnrichPanicked);
        return;
      }
      var stored, ok;
      stored, shown, ok := Refresh(env, file, writeNow, shown);
      if !ok {
        r := Failure(WriteCacheFailed);
        return;
      }
      file' := stored;
      trace := trace.(wrote := true);
    }
    ghost var pool := read.entries + (if trace.fetched then FeedsEntries(FetchedFeeds(env)) else []);
    if trace.fetched {
      assert pool == RefreshOrder(env, read.entries);
    } else {
      forall k | 0 <= k < |shown|
        ensures shown[k].url in UrlsOf(pool)
      {
        assert UrlsOf(pool)[k] == shown[k].url;
      }
    }
    assert UrlsAmong(shown, pool);
    r := ListAndPlay(env, shown, pool);
  }
}
