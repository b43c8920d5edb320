/** addMetadata and bulkAddMetadata: filling in an entry's duration and
    normalised title. The index-parallel worker pool of the source is
    modelled by its sequential effect, one independent update per index. */
module Enrich {
  import opened Wrappers
  import opened Entries
  import opened Title
  import opened VideoDuration

  /** A zero duration means the duration has not been looked up yet. */
  predicate NeedsDuration(e: FeedEntry) {
    e.extra.videoDuration == 0
  }

  /** An entry whose metadata is filled in. */
  predicate IsEnriched(e: FeedEntry) {
    e.extra.videoDuration != 0 && e.extra.normalizedTitle != ""
  }

  /** addMetadata reaches normalizeTitle: the title is still empty and the
      duration was either already known or the lookup succeeded. */
  predicate ReachesNormalize(fetch: Fetcher, e: FeedEntry) {
    && e.extra.normalizedTitle == ""
    && (!NeedsDuration(e) || GetVideoDuration(fetch, e.url).Success?)
  }

  /** addMetadata does not panic: normalizeTitle is only reached with a
      non-empty raw title. */
  predicate CanEnrich(fetch: Fetcher, e: FeedEntry) {
    ReachesNormalize(fetch, e) ==> |e.title| > 0
  }

  function AddMetadata(fetch: Fetcher, e: FeedEntry): (r: FeedEntry)
    requires CanEnrich(fetch, e)
    // only the extra metadata changes
    ensures r.(extra := e.extra) == e
    // a known duration is kept; otherwise a successful lookup supplies it
    ensures !NeedsDuration(e) ==> r.extra.videoDuration == e.extra.videoDuration
    ensures NeedsDuration(e) && GetVideoDuration(fetch, e.url).Success? ==>
              r.extra.videoDuration == GetVideoDuration(fetch, e.url).value
    // a failed lookup returns early: the entry is left exactly as it was
    ensures NeedsDuration(e) && GetVideoDuration(fetch, e.url).Failure? ==> r == e
    // a normalised title is kept; otherwise it is filled in once the duration step passes
    ensures e.extra.normalizedTitle != "" ==> r.extra.normalizedTitle == e.extra.normalizedTitle
    ensures ReachesNormalize(fetch, e) ==> r.extra.normalizedTitle == NormalizeTitle(e.title)
  {
    if NeedsDuration(e) then
      match GetVideoDuration(fetch, e.url)
      case Failure(_) => e
      case Success(d) => NormalizeIfEmpty(e.(extra := e.extra.(videoDuration := d)))
    else
      NormalizeIfEmpty(e)
  }

  /** The second half of addMetadata. */
  function NormalizeIfEmpty(e: FeedEntry): (r: FeedEntry)
    requires e.extra.normalizedTitle == "" ==> |e.title| > 0
  {
    if e.extra.normalizedTitle == "" then
      e.(extra := e.extra.(normalizedTitle := NormalizeTitle(e.title)))
    else e
  }

  /** An enriched entry is a fixed point of addMetadata, whatever the
      lookup would return: enrichment is idempotent and costs no lookup. */
  lemma EnrichedIsFixedPoint(fetch: Fetcher, e: FeedEntry)
    requires IsEnriched(e)
    ensures AddMetadata(fetch, e) == e
  {
  }

  /** The result depends on the lookup only through the entry's own URL,
      and not at all once the duration is known. */
  lemma LookupOnlyOwnUrl(f1: Fetcher, f2: Fetcher, e: FeedEntry)
    requires CanEnrich(f1, e) && CanEnrich(f2, e)
    requires f1(e.url) == f2(e.url) || !NeedsDuration(e)
    ensures AddMetadata(f1, e) == AddMetadata(f2, e)
  {
  }

  /** With the same lookup, a second pass changes nothing. */
  lemma AddMetadataIdempotent(fetch: Fetcher, e: FeedEntry)
    requires CanEnrich(fetch, e)
    ensures CanEnrich(fetch, AddMetadata(fetch, e))
    ensures AddMetadata(fetch, AddMetadata(fetch, e)) == AddMetadata(fetch, e)
  {
  }

  /** A page declaring `PT0M0S` yields a zero duration, which the next pass
      takes for "not looked up yet": the lookup is made again. */
  lemma ZeroDurationStaysPending(fetch: Fetcher, e: FeedEntry)
    requires NeedsDuration(e) && |e.title| > 0
    requires fetch(e.url) == Some(DurationTag(0, 0))
    ensures NeedsDuration(AddMetadata(fetch, e))
    ensures AddMetadata(fetch, e).extra.normalizedTitle ==
              if e.extra.normalizedTitle == "" then NormalizeTitle(e.title) else e.extra.normalizedTitle
  {
    ZeroDurationParses();
  }

  /** bulkAddMetadata: every index is handed to exactly one worker, which
      updates that element alone, so the effect is an element-wise map. */
  method BulkAddMetadata(fetch: Fetcher, entries: seq<FeedEntry>) returns (r: seq<FeedEntry>)
    requires forall i :: 0 <= i < |entries| ==> CanEnrich(fetch, entries[i])
    ensures |r| == |entries|
    ensures forall i :: 0 <= i < |r| ==> r[i] == AddMetadata(fetch, entries[i])
  {
    r := entries;
    var i := 0;
    while i < |entries|
      invariant 0 <= i <= |entries| && |r| == |entries|
      invariant forall j :: 0 <= j < i ==> r[j] == AddMetadata(fetch, entries[j])
      invariant forall j :: i <= j < |entries| ==> r[j] == entries[j]
    {
      r := r[i := AddMetadata(fetch, entries[i])];
      i := i + 1;
    }
  }
}
