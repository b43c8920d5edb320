/** The feed entry record shared by every stage of the pipeline, and the
    time quantities it carries. */
module Entries {
  import opened Wrappers

  /** A point in time, in nanoseconds relative to Go's zero `time.Time`
      (midnight UTC, 1 January of year 1). RFC 3339 years 0000..9999 are
      representable, so instants before the zero time are negative. */
  type Instant = int

  /** A `time.Duration`: a count of nanoseconds. */
  type Duration = int

  const Second: Duration := 1_000_000_000
  const Minute: Duration := 60 * Second

  /** The largest `time.Duration` (2^63 - 1 nanoseconds). */
  const MaxDuration: Duration := 0x7fff_ffff_ffff_ffff

  /** The zero `time.Time`, returned when a timestamp does not parse. */
  const ZeroTime: Instant := 0

  /** Metadata that is not part of the feed and is filled in by enrichment.
      A zero duration and an empty title both mean "not filled in yet". */
  datatype ExtraMetadata = ExtraMetadata(videoDuration: Duration, normalizedTitle: string)

  /** One entry of a video feed, with the feed's own fields flattened. */
  datatype FeedEntry = FeedEntry(
    id: string,
    ytVideoId: string,
    published: string,
    updated: string,
    authorName: string,
    title: string,
    url: string,
    extra: ExtraMetadata)

  /** A fetched feed: its entries in document order. */
  datatype Feed = Feed(entries: seq<FeedEntry>)

  /** An RFC 3339 parser: the instant a timestamp denotes, or None when it
      does not parse. The parser itself belongs to Go's `time` package. */
  type TimeParser = string -> Option<Instant>

  /** The published time used for ordering: the parsed `published` field,
      or the zero time when it does not parse. */
  function PublishedKey(parse: TimeParser, e: FeedEntry): (t: Instant)
    ensures parse(e.published).Some? ==> t == parse(e.published).value
    // an unparseable timestamp sorts as the zero time
    ensures parse(e.published).None? ==> t == ZeroTime
  {
    match parse(e.published)
    case Some(t) => t
    case None => ZeroTime
  }

  /** The entries of every feed, feed by feed, each in document order. */
  function FeedsEntries(feeds: seq<Feed>): (es: seq<FeedEntry>)
    ensures |feeds| == 0 ==> es == []
    ensures forall i, j :: 0 <= i < |feeds| && 0 <= j < |feeds[i].entries| ==> feeds[i].entries[j] in es
    ensures forall e :: e in es ==> exists i :: 0 <= i < |feeds| && e in feeds[i].entries
  {
    if |feeds| == 0 then [] else feeds[0].entries + FeedsEntries(feeds[1..])
  }

  /** One feed contributes its entries in document order. */
  lemma FeedsEntriesSingle(f: Feed)
    ensures FeedsEntries([f]) == f.entries
  {
    assert [f][1..] == [];
  }

  /** Feeds are visited in order: the entries of earlier feeds come before
      those of later feeds. */
  lemma {:induction false} FeedsEntriesAppend(a: seq<Feed>, b: seq<Feed>)
    ensures FeedsEntries(a + b) == FeedsEntries(a) + FeedsEntries(b)
    decreases |a|
  {
    if |a| == 0 {
      assert a + b == b;
    } else {
      FeedsEntriesAppend(a[1..], b);
      assert (a + b)[0] == a[0];
      assert (a + b)[1..] == a[1..] + b;
      var x, y := FeedsEntries(a[1..]), FeedsEntries(b);
      assert a[0].entries + (x + y) == (a[0].entries + x) + y;
    }
  }
}
