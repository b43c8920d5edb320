# yt-rss, modelled in Dafny

yt-rss is a terminal front end for YouTube RSS feeds. It reads a cache of
feed entries. When the cache is missing or older than thirty minutes, it
fetches the feeds listed in a URL file and merges the fetched entries with
the cached ones: the first copy of every ID wins. It sorts the merged
entries newest first, with a stable sort. It then enriches each entry with
the video's duration, scraped from the watch page, and with a normalised
title, and writes the cache back. Finally it lists the videos that are not
Shorts in fzf and plays the chosen one with mpv.

This project models that pipeline as pure functions and short methods over
immutable datatypes, and proves what each stage promises.

Everything outside the program is an input:
- the RFC 3339 parser (`TimeParser`) and the `"02 Jan"` formatting of a
  parsed timestamp (`DateFormatter`, from the timestamp's text, so the day
  is taken in the timestamp's own offset);
- the HTTP GET of a watch page (`Fetcher`);
- the fetched feeds (`Env.fetchFeeds`) and the lines of the URL list
  (`Env.urlList`);
- how an fzf run ended (`FzfRun`) and whether mpv succeeded;
- whether the cache write succeeds;
- the two clock readings: `now`, taken by the staleness check, and
  `writeNow`, taken later when the cache is written (`time.Now` is called
  in each, cache.go:46 and cache.go:57).

Modules, following the stages of the pipeline:

| module | models |
|---|---|
| `Wrappers` | `Option` and `Result` |
| `Text` | ASCII character classes and case mapping, `%d`, `%02d`, `%-Ns`, and Go's truncating `/` and `%` |
| `Entries` | `FeedEntry`, `Feed`, time quantities, `GetPublishedDate` |
| `VideoDuration` | `getVideoDuration` without the HTTP request: the two regular expressions and `time.ParseDuration` |
| `Title` | `normalizeTitle`, including the hashtag pattern `\B(\#[\w_-]+\b)` under RE2's leftmost-first, non-overlapping semantics |
| `Enrich` | `addMetadata`; `bulkAddMetadata` as a sequential element-wise map |
| `Merge` | `getFeedEntries`: first-copy-wins dedup, stable sort newest first, enrichment |
| `Render` | `shouldFilterOutEntry`, `findLongestAuthorNameLength`, `buildFZFContent` |
| `Selection` | the decision in `selectAndPlay` after fzf has run |
| `Cache` | `getFromCache` and `writeToCache` over an explicit cache-file state |
| `App` | the comment filter of `getFeedURLs`, and `main` |

Behaviour worth noting:
- **Unparseable `published` timestamp.** It sorts as Go's zero time
  (`time.Time{}`, year 1), not as the earliest possible instant. A
  timestamp from year 0000 parses to an earlier instant, so it sorts after
  an unparseable one.
- **Example title.** `"My AMAZING Video #shorts #fun"` normalises to
  `"My amazing video  "`. The spaces before the two hashtags are kept,
  because only the matches are deleted (`Title.NormalizeTitleExample`).
- **Trailing newline in the fzf listing.** The newline after a shown line
  depends on the line's index among all entries, not among the shown ones.
  So the listing ends in a newline exactly when the last entry is hidden
  and at least one entry is shown.
- **Cache write.** It uses `os.WriteFile` rather than write-then-rename.
  The mode 0600 applies only when the file is created, and before the
  process umask, which is not modelled; an existing file keeps its mode.
- **Staleness.** It is computed with `time.Time.Sub`, which saturates at
  the range of a `time.Duration`. The comparison with thirty minutes is
  strict.
- **Cache stamp.** The stored timestamp is read from the clock when the
  cache is written, after fetching and enrichment, not when staleness was
  judged. So the next refresh is thirty minutes after the write.
- **Listing dates without a year.** `"02 Jan"` drops the year, so two
  entries from the same day of different years, with the same clock,
  author and title, give the same line; the later one wins in the lookup.

## Model

| member | source | states |
|---|---|---|
| Entries.PublishedKey | main.go:62-65 | the ordering key is the parsed `published` time, and the zero time when it does not parse |
| Entries.FeedsEntries | main.go:166-174 | the fetched entries in visiting order: every entry of every feed is in it, and nothing else is |
| Entries.FeedsEntriesSingle | main.go:166-174 | one feed contributes exactly its own entries, in its own order |
| Entries.FeedsEntriesAppend | main.go:166-174 | feeds are visited in order: the entries of two runs of feeds are those of the first run followed by those of the second |
| VideoDuration.LazyClose | videoduration.go:14 | `(.+?)">` is lazy: the capture is the shortest newline-free run that is followed by `">`, or there is none |
| VideoDuration.FindDurationFrom | videoduration.go:14 | the meta-tag match is the leftmost one; no start before it matches with any capture length |
| VideoDuration.DurationContent | videoduration.go:33-37 | None exactly when the meta-tag pattern matches nowhere; otherwise the capture of the leftmost, shortest match |
| VideoDuration.SimplifiedAt | videoduration.go:18 | `PT(\d+)M(\d+)S` tried at one position: the match found is the only one starting there, and None means there is none |
| VideoDuration.FindSimplifiedFrom | videoduration.go:40-43 | the leftmost `PT<digits>M<digits>S` in the capture, or None when the capture has none anywhere |
| VideoDuration.MinutesSeconds | videoduration.go:46-50 | ParseDuration of `<m>m<s>s` succeeds exactly when m·60 s + s s fits in a Duration, and then gives that many whole seconds |
| VideoDuration.DurationFromBody | videoduration.go:33-50 | "duration not found" exactly when no meta tag matches; "not parsed correctly" exactly when a tag matches but its capture holds no `PT<digits>M<digits>S`; otherwise the result is ParseDuration of the leftmost such match (success or "invalid duration"); a success is a non-negative whole number of seconds |
| VideoDuration.GetVideoDuration | videoduration.go:21-51 | a failed GET or body read is an error; otherwise the result is what the body yields |
| VideoDuration.DurationOfTag | videoduration.go:33-50 | extraction inverts the page encoding: the tag for m minutes and s seconds parses to exactly what ParseDuration makes of m and s |
| VideoDuration.SecondsBeyondSixtyAccepted | videoduration.go:44-50 | `PT1M75S` gives 135 seconds: seconds of 60 or more are not rejected |
| VideoDuration.ZeroDurationParses | videoduration.go:46-50 | `PT0M0S` parses to a zero Duration |
| VideoDuration.OverflowRejected | videoduration.go:46-49 | a minute count beyond the Duration range makes ParseDuration fail |
| VideoDuration.HourFormNotParsed | videoduration.go:40-43 | the hour form `PT1H2M3S` gives "duration not parsed correctly" |
| Title.HashtagAtMatches | main.go:31 | the hashtag scanner at a position agrees exactly with the pattern `\B(\#[\w_-]+\b)`: `\B` before `#`, a greedy tag run trimmed back to its last word character |
| Title.NoMatchInside | main.go:31 | no second match starts inside a match, so the matches do not overlap |
| Title.StripHashtagsDeletesMatches | main.go:242 | the left-to-right, resume-after-match scan deletes exactly the characters that lie inside some match against the original text |
| Title.SentenceCase | main.go:234-239 | same length; the first character is upper-cased after lower-casing, and every other character is lower-cased |
| Title.NormalizeTitle | main.go:233-245 | for a non-empty title: the sentence-cased title with every hashtag match deleted and nothing else removed; never longer than the title |
| Title.KeptChar | main.go:242 | a character other than `#` starts no match and is kept |
| Title.NoHashKept | main.go:242 | a stretch without `#` passes through unchanged |
| Title.NormalizeTitleExample | main.go:233-245 | `"My AMAZING Video #shorts #fun"` becomes `"My amazing video  "` |
| Enrich.AddMetadata | main.go:247-264 | only the extra metadata changes; a known duration is kept without a lookup; a failed lookup leaves the entry untouched; a non-empty normalised title is kept; otherwise the title is normalised |
| Enrich.EnrichedIsFixedPoint | main.go:249-261 | an entry with both a duration and a normalised title is returned unchanged, whatever the lookup would give |
| Enrich.LookupOnlyOwnUrl | main.go:249-256 | the result depends on the lookup only through the entry's own URL, and not at all once the duration is known |
| Enrich.AddMetadataIdempotent | main.go:247-264 | a second pass with the same lookup changes nothing |
| Enrich.ZeroDurationStaysPending | main.go:249-255 | a page declaring `PT0M0S` leaves the duration at zero, so the entry is looked up again next time, while its title is normalised |
| Enrich.BulkAddMetadata | main.go:185-231 | same length and order; element i is addMetadata of input element i |
| Merge.DedupById | main.go:157-174 | IDs pairwise distinct; every ID of the input present; each kept entry is the first copy of its ID; kept entries are in first-occurrence order |
| Merge.CachedCopyWins | main.go:153-165 | a cached ID's first copy in the merge order is its cached copy, ahead of any fetched one |
| Merge.SortDesc | main.go:176-178 | sorted non-increasing by key; a permutation of the input; for every key, the entries with that key keep their input order (stability) |
| Merge.StableSortUnique | main.go:176-178 | two key-sorted sequences with the same entries per key, in the same order, are equal, so every stable sort gives this result |
| Merge.SortDescDistinct | main.go:176-178 | sorting keeps the IDs distinct and keeps the set of IDs |
| Merge.SortedFirstCopies | main.go:157-178 | after the sort: each ID once, all IDs present, each entry a first copy, and equal times in first-occurrence order |
| Merge.EnrichPointwise | main.go:180 | enrichment keeps every entry's ID and sort key, so the sorted order survives it |
| Merge.GetFeedEntries | main.go:145-183 | for entries whose titles can be normalised: each ID once and every cached or fetched ID present; each entry is the first copy of its ID in the merge order, enriched; sorted newest first; equal times in merge order |
| Merge.CachedMetadataSurvives | main.go:153-183 | a cached ID comes out as its cached copy run through addMetadata, and unchanged when the cached copy was already enriched |
| Render.ShouldFilterOut | main.go:266-272 | hidden exactly when 0 < duration < 80 s: a zero duration is never hidden, and 80 s is shown |
| Render.EnrichedShortHidden | main.go:266-272 | once an entry is enriched from a page declaring m minutes and s seconds, it is hidden exactly when 0 < m·60 + s < 80 |
| Render.LongestAuthorNameLength | main.go:274-282 | at least every author name's length, and equal to one of them (0 for no entries) |
| Render.ClockTextReadsBack | main.go:304 | under 100 minutes the `MM:SS` field is five characters, with MM the whole minutes and SS the whole seconds mod 60, so MM·60 + SS is the whole seconds |
| Render.LookupOfKeys | main.go:294-310 | the lookup's keys are exactly the lines of the shown entries |
| Render.LookupOfLastWins | main.go:310 | a key maps to the last shown entry with that line |
| Render.ListingTextWhole | main.go:312-315 | the appended text is the shown lines joined by newlines, plus a trailing newline exactly when the last entry is hidden and at least one entry is shown |
| Render.ListEntries | main.go:295-317 | fails exactly when a shown entry's date does not parse, and then reports the first such entry; otherwise returns the listing text and the lookup |
| Render.BuildFzfContent | main.go:288-318 | the same, with each line holding the date formatted from the entry's own timestamp text, the MM:SS clock, the author and the normalised title between vertical bars, the author padded to the longest name among all entries, hidden ones included |
| Render.DistinctDatesDistinctLines | main.go:299-308 | entries whose formatted day-and-month texts differ (texts of one width) get different lines; the text has no year, so the same day of different years can still give equal lines, the later one winning in the lookup |
| Text.PadRight | main.go:292 | `%-Ns` keeps the name as a prefix and pads it with spaces to the field width, never truncating |
| Text.Pad2 | main.go:304 | `%02d` of 0..99 is exactly two digits denoting the number |
| Text.TruncRem | main.go:304 | Go's `%`: quotient times divisor plus remainder is the dividend, and the remainder takes the dividend's sign |
| Selection.TrimNewlines | main.go:346 | no newline at either end, and empty exactly when the output was all newlines |
| Selection.TrimNewlinesPadded | main.go:346 | trimming gives back a line surrounded by any number of newlines |
| Selection.Choose | main.go:331-358 | fzf not starting, or exiting with status 2, is an error; any other exit, or an output of only newlines, selects nothing; a known line plays its entry's URL; an unknown one is "url not found" |
| Selection.ChooseShownLine | main.go:346-349 | choosing any shown line, as fzf prints it, plays the URL of the last shown entry with that line |
| Selection.SelectAndPlay | main.go:320-360 | a render failure exactly when a shown date does not parse; otherwise the outcome is fzf's choice over the listing (`FzfChoice`) played as `PlayOf` says: an fzf failure, nothing, an unknown line, or mpv's result; only a shown entry's video is played |
| Cache.TimeSub | cache.go:46 | the difference saturated to the Duration range, which leaves the comparison with thirty minutes unchanged |
| Cache.GetFromCache | cache.go:21-52 | missing file: no entries, stale, no error; unusable file: an error, not stale, no entries; otherwise the stored entries, stale exactly when more than thirty minutes have passed |
| Cache.WriteToCache | cache.go:54-69 | a successful write stores the entries verbatim, stamped with now; a created file gets mode 0600 (before the umask); a failed write leaves the file as it was |
| Cache.WriteThenRead | cache.go:21-69 | reading back a write gives the written entries, and they are stale exactly when more than thirty minutes have passed since the write |
| Cache.StalenessBoundary | cache.go:45-51 | exactly thirty minutes is fresh, one nanosecond more is stale, and a timestamp in the future is fresh |
| App.FeedUrlLines | main.go:392-399 | the URL list never has more lines than the file |
| App.FeedUrlLinesMembers | main.go:396 | a line is a URL exactly when it does not start with `#` |
| App.FeedUrlLinesAppend | main.go:393-399 | the filter works line by line: filtering two halves and concatenating gives the filter of the whole |
| App.Refresh | main.go:417-427 | after a fetch the written cache holds exactly what getFeedEntries returns, stamped with the write's clock reading: each ID once, all present, each entry the enriched first copy of its ID in the merge order, newest first, ties in merge order; a failed write leaves the file as it was |
| App.ListAndPlay | main.go:432-435 | selectAndPlay on the listed entries with its errors fatal: a render failure exactly when a shown date does not parse, otherwise the fzf choice played; a played video comes from the pool the entries were taken from |
| App.Run | main.go:406-437 | an unusable cache is fatal; feeds are fetched exactly when the cache is stale and the URL list reads; a fresh cache is neither refetched nor rewritten and its entries are listed; after a fetch an empty title reaching normalizeTitle crashes, else the merged entries are written, stamped with the later clock reading `writeNow`, and listed, and a failed write is fatal; the listed entries then decide the outcome as selectAndPlay does; a played video belongs to a cached or fetched entry |

## Left out

- HTTP and XML: `getFeeds` and `getFeed`, with their goroutine pool, are
  an input, `Env.fetchFeeds`. `getFeeds` never returns its error, so the
  fatal branch after it in `main` cannot be taken and is not modelled.
- The worker pool, channels and progress bar of `bulkAddMetadata`: only
  the element-wise effect is modelled. Each index goes to exactly one
  worker.
- Process I/O: running fzf and mpv, and piping their streams. Each run's
  outcome is an input.
- ANSI colouring of the listing line: only the uncoloured line, which keys
  the lookup, is modelled.
- Logging to stderr: "Using cached feeds", "Playing …", the "failed to get
  video duration for …" message of `addMetadata`, and the printed errors
  of the feed and enrichment workers. None affects the result.
- Library internals, all inputs:
  - RFC 3339 parsing and `"02 Jan"` formatting (`time`);
  - JSON encoding and decoding, with the serialiser taken as faithful;
  - configuration and cache path resolution (environment, user lookup).
- Text encoding:
  - Case mapping is ASCII only, where `cases.Lower` and `unicode.ToUpper`
    cover all of Unicode.
  - Strings are sequences of characters, so the byte length that pads
    author names and the rune indexing of `normalizeTitle` coincide.
- `int(d.Minutes())` and `int(d.Seconds())` go through `float64`. The
  model divides integers, truncating toward zero. This is exact for the
  whole-second durations the duration parser produces.
- The URL file is given as its lines. `bufio.Scanner` line splitting,
  including its token-size limit, is not modelled.
- The unused `cachedEntryLookup` map in `getFeedEntries` is dead code.
- The monotonic clock reading that `time.Now` carries is not modelled:
  instants are wall-clock nanoseconds.
- A write that fails part-way may leave a truncated file on disk. The
  model treats a failed write as leaving the file as it was; the run stops
  with a fatal error either way.
- Fatal exits (`log.Fatal`) are results (`AppError`), not process exits.
  So is the panic of `normalizeTitle` on an empty title (main.go:238,
  raised in a worker at main.go:199): `Run` reports it as `EnrichPanicked`
  before writing anything. Below `Run`, `AddMetadata`, `BulkAddMetadata`
  and `GetFeedEntries` require that no first copy reaching `normalizeTitle`
  has an empty title, since the source has no result for that case.
- Render.ClockTextReadsBack: stated for durations under 100 minutes,
  where `%02d` gives exactly two digits. Beyond that the field only grows.
