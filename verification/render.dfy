/** The fzf listing: short videos are hidden, every other entry becomes one
    line `date | MM:SS | author | title`, and a lookup maps each line back to
    its entry. */
module Render {
  import opened Wrappers
  import opened Text
  import opened Entries
  import opened VideoDuration
  import opened Enrich

  /** Videos shorter than this are taken to be YouTube Shorts. */
  const ShortsThreshold: Duration := 80 * Second

  /** shouldFilterOutEntry: a known duration below the Shorts threshold. */
  function ShouldFilterOut(e: FeedEntry): (r: bool)
    // an entry still waiting for its duration is always shown
    ensures NeedsDuration(e) ==> !r
    // a video of at least 80 seconds, or of a negative duration, is shown
    ensures e.extra.videoDuration >= ShortsThreshold || e.extra.videoDuration < 0 ==> !r
    // everything else is hidden
    ensures 0 < e.extra.videoDuration < ShortsThreshold ==> r
  {
    0 < e.extra.videoDuration && e.extra.videoDuration < ShortsThreshold
  }

  /** Once enriched from a page declaring `minutes` and `seconds`, a video is
      hidden exactly when it lasts more than nothing and under 80 seconds;
      one of 80 seconds or more stays listed. */
  lemma EnrichedShortHidden(fetch: Fetcher, e: FeedEntry, minutes: nat, seconds: nat)
    requires NeedsDuration(e) && |e.title| > 0
    requires fetch(e.url) == Some(DurationTag(minutes, seconds))
    ensures ShouldFilterOut(AddMetadata(fetch, e)) <==> 0 < minutes * 60 + seconds < 80
  {
    PageDuration(fetch, e.url, minutes, seconds);
    var t := minutes * 60 + seconds;
    var g := GetVideoDuration(fetch, e.url);
    if g.Success? {
      assert AddMetadata(fetch, e).extra.videoDuration == t * Second;
      WholeSecondsShort(t);
    } else {
      assert AddMetadata(fetch, e) == e;
      OverflowIsLong(minutes, seconds);
    }
  }

  /** The page of a video of `minutes` and `seconds` yields its duration. */
  lemma PageDuration(fetch: Fetcher, url: string, minutes: nat, seconds: nat)
    requires fetch(url) == Some(DurationTag(minutes, seconds))
    ensures GetVideoDuration(fetch, url) == MinutesSeconds(minutes, seconds)
  {
    DurationOfTag(minutes, seconds);
  }

  /** A length ParseDuration rejects is far above the Shorts threshold. */
  lemma OverflowIsLong(minutes: nat, seconds: nat)
    requires minutes * Minute + seconds * Second > MaxDuration
    ensures minutes * 60 + seconds >= 80
  {
    var t := minutes * 60 + seconds;
    calc {
      minutes * Minute + seconds * Second;
      minutes * 60 * Second + seconds * Second;
      t * Second;
    }

  }

  lemma WholeSecondsShort(t: nat)
    ensures 0 < t * Second < ShortsThreshold <==> 0 < t < 80
  {
    if t >= 80 {
      assert t * Second >= 80 * Second;
    }
  }

  /** findLongestAuthorNameLength: the length of the longest author name,
      0 for no entries. */
  function LongestAuthorNameLength(entries: seq<FeedEntry>): (n: nat)
    ensures forall i :: 0 <= i < |entries| ==> |entries[i].authorName| <= n
    ensures n == 0 || exists i :: 0 <= i < |entries| && |entries[i].authorName| == n
  {
    if |entries| == 0 then 0
    else
      var front := LongestAuthorNameLength(entries[..|entries| - 1]);
      var last := |entries[|entries| - 1].authorName|;
      assert forall i :: 0 <= i < |entries| - 1 ==> entries[..|entries| - 1][i] == entries[i];
      if last > front then last else front
  }

  /** `time.Parse` of an RFC 3339 timestamp followed by `Format("02 Jan")`,
      as a function of the timestamp's text: the day printed is the day in
      the zone offset the timestamp carries, so two timestamps denoting the
      same instant may print different days. Both steps belong to Go's
      `time` package. */
  type DateFormatter = string -> string

  /** `%02d:%02d` of whole minutes and whole seconds mod 60, each truncated
      toward zero as Go's integer conversions do. */
  function ClockText(d: Duration): string {
    Pad2(TruncDiv(d, Minute)) + ":" + Pad2(TruncRem(TruncDiv(d, Second), 60))
  }

  lemma MinutesOfSeconds(d: nat)
    ensures d / Minute == (d / Second) / 60
    ensures (d / Second) == (d / Minute) * 60 + (d / Second) % 60
  {
    var s := d / Second;
    var m := s / 60;
    assert d == s * Second + d % Second;
    assert s == m * 60 + s % 60;
    assert d == m * Minute + ((s % 60) * Second + d % Second);
    assert 0 <= (s % 60) * Second + d % Second < Minute;
  }

  /** For durations under 100 minutes the clock reads back as the minutes
      and the seconds of the duration. */
  lemma ClockTextReadsBack(d: Duration)
    requires 0 <= d < 100 * Minute
    ensures var s := ClockText(d);
      && |s| == 5 && s[2] == ':'
      && AllDigits(s[..2]) && AllDigits(s[3..])
      && DigitsValue(s[..2]) == d / Minute
      && DigitsValue(s[3..]) == (d / Second) % 60
      && DigitsValue(s[..2]) * 60 + DigitsValue(s[3..]) == d / Second
  {
    MinutesOfSeconds(d);
    var mm := Pad2(TruncDiv(d, Minute));
    var ss := Pad2(TruncRem(TruncDiv(d, Second), 60));
    var s := ClockText(d);
    assert s == mm + ":" + ss;
    assert s[..2] == mm;
    assert s[3..] == ss;
  }

  /** The uncoloured line of an entry, with the author padded to `width`. */
  function KeyLine(format: DateFormatter, e: FeedEntry, width: nat): string {
    format(e.published) + KeyLineTail(e, width)
  }

  /** What follows the date in a line. */
  function KeyLineTail(e: FeedEntry, width: nat): string {
    " | " + ClockText(e.extra.videoDuration) + " | "
      + PadRight(e.authorName, width) + " | " + e.extra.normalizedTitle
  }

  /** The line function of a listing whose authors are padded to `width`. */
  function LineOf(format: DateFormatter, width: nat): FeedEntry -> string {
    e => KeyLine(format, e, width)
  }

  /** A line starts with the entry's formatted date. */
  lemma KeyLineDate(format: DateFormatter, e: FeedEntry, width: nat)
    ensures |format(e.published)| <= |KeyLine(format, e, width)|
    ensures KeyLine(format, e, width)[..|format(e.published)|] == format(e.published)
  {
  }

  /** Entries whose dates print differently, in the fixed-width "02 Jan"
      layout, get different lines and so different lookup keys, whatever
      else they share. */
  lemma DistinctDatesDistinctLines(format: DateFormatter, e1: FeedEntry, e2: FeedEntry, width: nat)
    requires |format(e1.published)| == |format(e2.published)|
    requires format(e1.published) != format(e2.published)
    ensures KeyLine(format, e1, width) != KeyLine(format, e2, width)
  {
    KeyLineDate(format, e1, width);
    KeyLineDate(format, e2, width);
  }

  /** The lines of the entries that are not filtered out, in order. */
  function VisibleLines(lineOf: FeedEntry -> string, xs: seq<FeedEntry>): seq<string> {
    if |xs| == 0 then []
    else
      var last := xs[|xs| - 1];
      VisibleLines(lineOf, xs[..|xs| - 1]) + (if ShouldFilterOut(last) then [] else [lineOf(last)])
  }

  /** Every line followed by a newline. */
  function Terminated(ls: seq<string>): string {
    if |ls| == 0 then "" else Terminated(ls[..|ls| - 1]) + ls[|ls| - 1] + "\n"
  }

  /** The lines separated by newlines. */
  function JoinLines(ls: seq<string>): string {
    if |ls| == 0 then "" else Terminated(ls[..|ls| - 1]) + ls[|ls| - 1]
  }

  /** The map from line to entry that the listing builds, a later entry
      overwriting an earlier one with the same line. */
  function LookupOf(lineOf: FeedEntry -> string, xs: seq<FeedEntry>): map<string, FeedEntry> {
    if |xs| == 0 then map[]
    else
      var last := xs[|xs| - 1];
      var m := LookupOf(lineOf, xs[..|xs| - 1]);
      if ShouldFilterOut(last) then m else m[lineOf(last) := last]
  }

  /** The entry at `j` is shown with line `key`, and no later shown entry has
      that line. */
  predicate LastWithLine(lineOf: FeedEntry -> string, xs: seq<FeedEntry>, key: string, j: nat) {
    && j < |xs| && !ShouldFilterOut(xs[j]) && lineOf(xs[j]) == key
    && forall j' :: j < j' < |xs| && !ShouldFilterOut(xs[j']) ==> lineOf(xs[j']) != key
  }

  /** The lookup holds exactly the shown lines. */
  lemma {:induction false} LookupOfKeys(lineOf: FeedEntry -> string, xs: seq<FeedEntry>)
    ensures forall key :: key in LookupOf(lineOf, xs) <==> key in VisibleLines(lineOf, xs)
    decreases |xs|
  {
    if |xs| > 0 {
      var n := |xs| - 1;
      LookupOfKeys(lineOf, xs[..n]);
      var ls := VisibleLines(lineOf, xs[..n]);
      if ShouldFilterOut(xs[n]) {
        assert ls + [] == ls;
      }
    }
  }

  /** Each line of the lookup maps to the last shown entry with that line. */
  lemma {:induction false} LookupOfLastWins(lineOf: FeedEntry -> string, xs: seq<FeedEntry>)
    ensures forall key :: key in LookupOf(lineOf, xs) ==>
      exists j: nat :: LastWithLine(lineOf, xs, key, j) && LookupOf(lineOf, xs)[key] == xs[j]
    decreases |xs|
  {
    if |xs| > 0 {
      var n := |xs| - 1;
      var front := xs[..n];
      LookupOfLastWins(lineOf, front);
      var m := LookupOf(lineOf, xs);
      var mf := LookupOf(lineOf, front);
      forall key | key in m
        ensures exists j: nat :: LastWithLine(lineOf, xs, key, j) && m[key] == xs[j]
      {
        if !ShouldFilterOut(xs[n]) && key == lineOf(xs[n]) {
          assert LastWithLine(lineOf, xs, key, n);
        } else {
          assert key in mf && m[key] == mf[key];
          var j: nat :| LastWithLine(lineOf, front, key, j) && mf[key] == front[j];
          assert forall j' :: 0 <= j' < n ==> xs[j'] == front[j'];
          assert LastWithLine(lineOf, xs, key, j);
        }
      }
    }
  }

  /** The text the listing loop appends for `xs`, the first entries of a
      list of `total`: each shown line, then a newline unless its index is
      the last of the list. */
  function ListingText(lineOf: FeedEntry -> string, xs: seq<FeedEntry>, total: nat): string {
    if |xs| == 0 then ""
    else
      var last := xs[|xs| - 1];
      ListingText(lineOf, xs[..|xs| - 1], total)
        + (if ShouldFilterOut(last) then ""
           else lineOf(last) + (if |xs| - 1 < total - 1 then "\n" else ""))
  }

  /** Before the last index every shown line is newline-terminated. */
  lemma {:induction false} ListingTextTerminated(lineOf: FeedEntry -> string, xs: seq<FeedEntry>, total: nat)
    requires |xs| < total
    ensures ListingText(lineOf, xs, total) == Terminated(VisibleLines(lineOf, xs))
    decreases |xs|
  {
    if |xs| > 0 {
      var n := |xs| - 1;
      ListingTextTerminated(lineOf, xs[..n], total);
      var ls := VisibleLines(lineOf, xs[..n]);
      var pre := ListingText(lineOf, xs[..n], total);
      if ShouldFilterOut(xs[n]) {
        assert pre + "" == pre && ls + [] == ls;
        assert ListingText(lineOf, xs, total) == pre;
        assert VisibleLines(lineOf, xs) == ls;
      } else {
        var l := lineOf(xs[n]);
        assert ListingText(lineOf, xs, total) == pre + (l + "\n");
        assert VisibleLines(lineOf, xs) == ls + [l];
        assert (ls + [l])[..|ls|] == ls;
        assert Terminated(ls + [l]) == Terminated(ls) + l + "\n";
        assert pre + (l + "\n") == Terminated(ls) + l + "\n";
      }
    } else {
      assert ListingText(lineOf, xs, total) == "";
      assert VisibleLines(lineOf, xs) == [];
    }
  }

  /** The whole listing: lines joined by newlines, with a trailing newline
      exactly when the last entry is hidden and at least one entry is
      shown. */
  lemma ListingTextWhole(lineOf: FeedEntry -> string, xs: seq<FeedEntry>)
    ensures ListingText(lineOf, xs, |xs|)
      == if |xs| > 0 && !ShouldFilterOut(xs[|xs| - 1])
         then JoinLines(VisibleLines(lineOf, xs))
         else Terminated(VisibleLines(lineOf, xs))
  {
    if |xs| > 0 {
      var n := |xs| - 1;
      ListingTextTerminated(lineOf, xs[..n], |xs|);
      var ls := VisibleLines(lineOf, xs[..n]);
      var pre := ListingText(lineOf, xs[..n], |xs|);
      if ShouldFilterOut(xs[n]) {
        assert pre + "" == pre && ls + [] == ls;
        assert ListingText(lineOf, xs, |xs|) == pre;
        assert VisibleLines(lineOf, xs) == ls;
      } else {
        var l := lineOf(xs[n]);
        assert l + "" == l;
        assert ListingText(lineOf, xs, |xs|) == pre + l;
        assert VisibleLines(lineOf, xs) == ls + [l];
        assert (ls + [l])[..|ls|] == ls;
        assert JoinLines(ls + [l]) == Terminated(ls) + l;
      }
    } else {
      assert ListingText(lineOf, xs, |xs|) == "";
      assert VisibleLines(lineOf, xs) == [];
    }
  }

  datatype FzfContent = FzfContent(text: string, lookup: map<string, FeedEntry>)

  datatype RenderError = UnparseablePublished(published: string)

  /** The entry at `i` is shown but its publication time does not parse. */
  predicate ShownUnparseable(parse: TimeParser, entries: seq<FeedEntry>, i: int) {
    0 <= i < |entries| && !ShouldFilterOut(entries[i]) && parse(entries[i].published).None?
  }

  /** One more entry: the lookup and the text grow by that entry's line. */
  lemma ListingStep(lineOf: FeedEntry -> string, xs: seq<FeedEntry>, i: nat)
    requires i < |xs|
    ensures LookupOf(lineOf, xs[..i + 1])
      == if ShouldFilterOut(xs[i]) then LookupOf(lineOf, xs[..i]) else LookupOf(lineOf, xs[..i])[lineOf(xs[i]) := xs[i]]
    ensures ListingText(lineOf, xs[..i + 1], |xs|)
      == ListingText(lineOf, xs[..i], |xs|)
         + (if ShouldFilterOut(xs[i]) then "" else lineOf(xs[i]) + (if i < |xs| - 1 then "\n" else ""))
  {
    assert xs[..i + 1][..i] == xs[..i];
  }

  /** What the listing loop has built after the first `i` entries. */
  ghost predicate ListingInvariant(parse: TimeParser, lineOf: FeedEntry -> string, entries: seq<FeedEntry>,
                                   i: nat, text: string, lookup: map<string, FeedEntry>) {
    && i <= |entries|
    && (forall j :: 0 <= j < i ==> !ShownUnparseable(parse, entries, j))
    && lookup == LookupOf(lineOf, entries[..i])
    && text == ListingText(lineOf, entries[..i], |entries|)
  }

  lemma ListingAdvance(parse: TimeParser, lineOf: FeedEntry -> string, entries: seq<FeedEntry>,
                       i: nat, text: string, lookup: map<string, FeedEntry>)
    requires i < |entries| && ListingInvariant(parse, lineOf, entries, i, text, lookup)
    requires !ShownUnparseable(parse, entries, i)
    ensures var e := entries[i];
      ListingInvariant(parse, lineOf, entries, i + 1,
        if ShouldFilterOut(e) then text
        else if i < |entries| - 1 then text + lineOf(e) + "\n"
        else text + lineOf(e),
        if ShouldFilterOut(e) then lookup else lookup[lineOf(e) := e])
  {
    var e := entries[i];
    ListingStep(lineOf, entries, i);
    assert text + "" == text;
    assert text + lineOf(e) + "\n" == text + (lineOf(e) + "\n");
    assert lineOf(e) + "" == lineOf(e);
  }

  /** The loop of buildFZFContent, for a given line function. */
  method ListEntries(parse: TimeParser, lineOf: FeedEntry -> string, entries: seq<FeedEntry>)
    returns (r: Result<FzfContent, RenderError>)
    ensures r.Failure? <==> exists i: nat :: ShownUnparseable(parse, entries, i)
    ensures r.Failure? ==> exists i: nat ::
      && ShownUnparseable(parse, entries, i)
      && r.error == UnparseablePublished(entries[i].published)
      && forall j :: 0 <= j < i ==> !ShownUnparseable(parse, entries, j)
    ensures r.Success? ==>
      && r.value.text == (if |entries| > 0 && !ShouldFilterOut(entries[|entries| - 1])
                          then JoinLines(VisibleLines(lineOf, entries))
                          else Terminated(VisibleLines(lineOf, entries)))
      && r.value.lookup == LookupOf(lineOf, entries)
  {
    var text := "";
    var lookup: map<string, FeedEntry> := map[];
    var i := 0;
    assert entries[..0] == [];
    while i < |entries|
      invariant ListingInvariant(parse, lineOf, entries, i, text, lookup)
    {
      var e := entries[i];
      if ShouldFilterOut(e) {
        ListingAdvance(parse, lineOf, entries, i, text, lookup);
      } else {
        match parse(e.published)
        case None =>
          r := Failure(UnparseablePublished(e.published));
          assert ShownUnparseable(parse, entries, i);
          return;
        case Some(_) =>
          ListingAdvance(parse, lineOf, entries, i, text, lookup);
          var line := lineOf(e);
          lookup := lookup[line := e];
          text := text + line;
          if i < |entries| - 1 {
            text := text + "\n";
          }
      }
      i := i + 1;
    }
    assert entries[..i] == entries;
    ListingTextWhole(lineOf, entries);
    r := Success(FzfContent(text, lookup));
  }

  /** buildFZFContent. The newline after a shown line depends on its index
      among all entries, so a listing whose last entry is hidden ends in a
      newline, unless no entry is shown at all. */
  method BuildFzfContent(parse: TimeParser, format: DateFormatter, entries: seq<FeedEntry>)
    returns (r: Result<FzfContent, RenderError>)
    // the call fails exactly when a shown entry has an unparseable date, and
    // reports the first one
    ensures r.Failure? <==> exists i: nat :: ShownUnparseable(parse, entries, i)
    ensures r.Failure? ==> exists i: nat ::
      && ShownUnparseable(parse, entries, i)
      && r.error == UnparseablePublished(entries[i].published)
      && forall j :: 0 <= j < i ==> !ShownUnparseable(parse, entries, j)
    // otherwise: the shown lines, with authors padded to the longest name of
    // all entries, newline-separated, plus a trailing newline when the last
    // entry is hidden and some entry is shown; the lookup keyed by those
    // lines, last one winning
    ensures r.Success? ==>
      var lineOf := LineOf(format, LongestAuthorNameLength(entries));
      && r.value.text == (if |entries| > 0 && !ShouldFilterOut(entries[|entries| - 1])
                          then JoinLines(VisibleLines(lineOf, entries))
                          else Terminated(VisibleLines(lineOf, entries)))
      && r.value.lookup == LookupOf(lineOf, entries)
  {
    var width := LongestAuthorNameLength(entries);
    r := ListEntries(parse, LineOf(format, width), entries);
  }
}
