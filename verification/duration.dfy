/** getVideoDuration without the HTTP request: the duration embedded in a
    watch page, found by two regular expressions applied one after the
    other and converted by `time.ParseDuration`. */
module VideoDuration {
  import opened Wrappers
  import opened Text
  import opened Entries

  /** The literal text before the capture group of
      `<meta itemprop="duration" content="(.+?)">`. */
  const Marker: string := "<meta itemprop=\"duration\" content=\""

  datatype DurationError =
    | FetchFailed        // the GET or the body read failed
    | DurationNotFound   // "duration not found"
    | DurationNotParsed  // "duration not parsed correctly"
    | InvalidDuration    // time.ParseDuration rejected the value (overflow)

  /** An HTTP GET: the response body for a URL, or None when the request or
      the read of the body fails. */
  type Fetcher = string -> Option<string>

  predicate MarkerAt(body: string, p: nat) {
    p + |Marker| <= |body| && body[p..p + |Marker|] == Marker
  }

  /** `(.+?)">` matches with a capture of `k` characters starting at `q`: at
      least one character, none of them a newline (`.` does not match one),
      followed by `">`. */
  predicate ClosesAt(body: string, q: nat, k: nat) {
    && 1 <= k && q + k + 2 <= |body|
    && (forall m :: q <= m < q + k ==> body[m] != '\n')
    && body[q + k] == '"' && body[q + k + 1] == '>'
  }

  /** The whole pattern matches at `p` with a capture of length `k`. */
  predicate IsDurationMatch(body: string, p: nat, k: nat) {
    MarkerAt(body, p) && ClosesAt(body, p + |Marker|, k)
  }

  /** The match RE2 reports: the leftmost start, and there the shortest
      capture, since `+?` is lazy. */
  ghost predicate IsLeftmostLazy(body: string, p: nat, k: nat) {
    && IsDurationMatch(body, p, k)
    && (forall p': nat, k': nat :: p' < p ==> !IsDurationMatch(body, p', k'))
    && (forall k': nat :: k' < k ==> !IsDurationMatch(body, p, k'))
  }

  /** The shortest capture length of at least `k` that closes at `q`. */
  function LazyClose(body: string, q: nat, k: nat): (r: Option<nat>)
    requires 1 <= k && q + k <= |body| + 1
    requires forall m :: q <= m < q + k - 1 ==> body[m] != '\n'
    ensures r.Some? ==> k <= r.value && ClosesAt(body, q, r.value)
    ensures r.Some? ==> forall j: nat :: k <= j < r.value ==> !ClosesAt(body, q, j)
    ensures r.None? ==> forall j: nat :: k <= j ==> !ClosesAt(body, q, j)
    decreases |body| + 1 - (q + k)
  {
    if q + k > |body| then None
    else if body[q + k - 1] == '\n' then None
    else if q + k + 2 <= |body| && body[q + k] == '"' && body[q + k + 1] == '>' then Some(k)
    else LazyClose(body, q, k + 1)
  }

  /** The leftmost match starting at `p` or later, as (start, capture length). */
  function FindDurationFrom(body: string, p: nat): (r: Option<(nat, nat)>)
    requires p <= |body|
    ensures r.Some? ==> p <= r.value.0 && IsDurationMatch(body, r.value.0, r.value.1)
    ensures r.Some? ==> forall p': nat, k': nat :: p <= p' < r.value.0 ==> !IsDurationMatch(body, p', k')
    ensures r.Some? ==> forall k': nat :: k' < r.value.1 ==> !IsDurationMatch(body, r.value.0, k')
    ensures r.None? ==> forall p': nat, k': nat :: p <= p' ==> !IsDurationMatch(body, p', k')
    decreases |body| - p
  {
    if p + |Marker| > |body| then None
    else if MarkerAt(body, p) && LazyClose(body, p + |Marker|, 1).Some? then
      Some((p, LazyClose(body, p + |Marker|, 1).value))
    else FindDurationFrom(body, p + 1)
  }

  /** `FindStringSubmatch` with the meta-tag pattern: the captured text. */
  function DurationContent(body: string): (r: Option<string>)
    ensures r.None? <==> forall p: nat, k: nat :: !IsDurationMatch(body, p, k)
    ensures r.Some? ==> exists p: nat, k: nat :: IsLeftmostLazy(body, p, k) && r.value == body[p + |Marker|..p + |Marker| + k]
  {
    match FindDurationFrom(body, 0)
    case None => None
    case Some((p, k)) =>
      assert IsLeftmostLazy(body, p, k);
      Some(body[p + |Marker|..p + |Marker| + k])
  }

  /** `PT(\d+)M(\d+)S` matches at `p` with the minutes in `c[p+2..b]` and the
      seconds in `c[b+1..d]`. */
  ghost predicate IsSimplifiedMatch(c: string, p: nat, b: nat, d: nat) {
    && p + 2 < b < d < |c|
    && c[p] == 'P' && c[p + 1] == 'T'
    && (forall m :: p + 2 <= m < b ==> IsDigit(c[m]))
    && c[b] == 'M'
    && b + 1 < d
    && (forall m :: b + 1 <= m < d ==> IsDigit(c[m]))
    && c[d] == 'S'
  }

  /** The pattern tried at `p`. `\d+` is greedy and is followed by a letter,
      so each digit group is the maximal run of digits. */
  function SimplifiedAt(c: string, p: nat): (r: Option<(nat, nat)>)
    requires p <= |c|
    ensures forall b: nat, d: nat :: r == Some((b, d)) <==> IsSimplifiedMatch(c, p, b, d)
  {
    if p + 2 <= |c| && c[p] == 'P' && c[p + 1] == 'T' then
      var b := RunEnd(c, p + 2, IsDigit);
      if p + 2 < b < |c| && c[b] == 'M' then
        var d := RunEnd(c, b + 1, IsDigit);
        if b + 1 < d < |c| && c[d] == 'S' then
          assert forall b': nat, d': nat :: IsSimplifiedMatch(c, p, b', d') ==> b' == b && d' == d by {
            forall b': nat, d': nat | IsSimplifiedMatch(c, p, b', d')
              ensures b' == b && d' == d
            {
              RunEndExact(c, p + 2, b', IsDigit);
              RunEndExact(c, b + 1, d', IsDigit);
            }
          }
          Some((b, d))
        else
          assert forall b': nat, d': nat :: !IsSimplifiedMatch(c, p, b', d') by {
            forall b': nat, d': nat | IsSimplifiedMatch(c, p, b', d')
              ensures false
            {
              RunEndExact(c, p + 2, b', IsDigit);
              RunEndExact(c, b + 1, d', IsDigit);
            }
          }
          None
      else
        assert forall b': nat, d': nat :: !IsSimplifiedMatch(c, p, b', d') by {
          forall b': nat, d': nat | IsSimplifiedMatch(c, p, b', d')
            ensures false
          {
            RunEndExact(c, p + 2, b', IsDigit);
          }
        }
        None
    else None
  }

  /** The leftmost match of `PT(\d+)M(\d+)S` at `p` or later, as (start, b, d). */
  function FindSimplifiedFrom(c: string, p: nat): (r: Option<(nat, nat, nat)>)
    requires p <= |c|
    ensures r.Some? ==> p <= r.value.0 && IsSimplifiedMatch(c, r.value.0, r.value.1, r.value.2)
    ensures r.Some? ==> forall p': nat, b: nat, d: nat :: p <= p' < r.value.0 ==> !IsSimplifiedMatch(c, p', b, d)
    ensures r.None? ==> forall p': nat, b: nat, d: nat :: p <= p' ==> !IsSimplifiedMatch(c, p', b, d)
    decreases |c| - p
  {
    if p == |c| then None
    else
      match SimplifiedAt(c, p)
      case Some((b, d)) => Some((p, b, d))
      case None => FindSimplifiedFrom(c, p + 1)
  }

  /** The match `FindStringSubmatch` reports for `PT(\d+)M(\d+)S`: a match at
      `p` with no match starting earlier. */
  ghost predicate IsLeftmostSimplified(c: string, p: nat, b: nat, d: nat) {
    && IsSimplifiedMatch(c, p, b, d)
    && forall p': nat, b': nat, d': nat :: p' < p ==> !IsSimplifiedMatch(c, p', b', d')
  }

  /** What `time.ParseDuration` makes of `<minutes>m<seconds>s`: the sum in
      nanoseconds, or an error when it exceeds the largest Duration. */
  function MinutesSeconds(minutes: nat, seconds: nat): (r: Result<Duration, DurationError>)
    ensures r.Success? <==> minutes * Minute + seconds * Second <= MaxDuration
    ensures r.Success? ==> r.value == (minutes * 60 + seconds) * Second
    ensures r.Success? ==> 0 <= r.value <= MaxDuration && r.value % Second == 0
    ensures r.Failure? ==> r.error == InvalidDuration
  {
    var total := minutes * Minute + seconds * Second;
    assert total == (minutes * 60 + seconds) * Second;
    assert total % Second == 0;
    if total > MaxDuration then Failure(InvalidDuration) else Success(total)
  }

  /** ParseDuration applied to the minutes and seconds of a match. */
  function MatchedDuration(c: string, p: nat, b: nat, d: nat): Result<Duration, DurationError>
    requires IsSimplifiedMatch(c, p, b, d)
  {
    var mm, ss := c[p + 2..b], c[b + 1..d];
    assert AllDigits(mm) by {
      forall m | 0 <= m < |mm| ensures IsDigit(mm[m]) {
        assert mm[m] == c[p + 2 + m];
      }
    }
    assert AllDigits(ss) by {
      forall m | 0 <= m < |ss| ensures IsDigit(ss[m]) {
        assert ss[m] == c[b + 1 + m];
      }
    }
    MinutesSeconds(DigitsValue(mm), DigitsValue(ss))
  }

  /** The duration a watch page declares, without the HTTP request. */
  function DurationFromBody(body: string): (r: Result<Duration, DurationError>)
    ensures r == Failure(DurationNotFound) <==> forall p: nat, k: nat :: !IsDurationMatch(body, p, k)
    // "duration not parsed correctly" exactly when the capture holds no
    // `PT<digits>M<digits>S` anywhere
    ensures r == Failure(DurationNotParsed) <==>
      && DurationContent(body).Some?
      && forall p: nat, b: nat, d: nat :: !IsSimplifiedMatch(DurationContent(body).value, p, b, d)
    // otherwise ParseDuration decides, on the digits of the leftmost match
    ensures r.Success? || r == Failure(InvalidDuration) ==>
      && DurationContent(body).Some?
      && exists p: nat, b: nat, d: nat ::
        && IsLeftmostSimplified(DurationContent(body).value, p, b, d)
        && r == MatchedDuration(DurationContent(body).value, p, b, d)
    ensures r.Failure? ==> r.error != FetchFailed
    ensures r.Success? ==> 0 <= r.value <= MaxDuration && r.value % Second == 0
  {
    match DurationContent(body)
    case None => Failure(DurationNotFound)
    case Some(c) =>
      match FindSimplifiedFrom(c, 0)
      case None => Failure(DurationNotParsed)
      case Some((p, b, d)) =>
        assert IsLeftmostSimplified(c, p, b, d);
        MatchedDuration(c, p, b, d)
  }

  /** getVideoDuration: fetch the page, then extract its duration. */
  function GetVideoDuration(fetch: Fetcher, url: string): (r: Result<Duration, DurationError>)
    ensures fetch(url).None? <==> r == Failure(FetchFailed)
    ensures fetch(url).Some? ==> r == DurationFromBody(fetch(url).value)
  {
    match fetch(url)
    case None => Failure(FetchFailed)
    case Some(body) => DurationFromBody(body)
  }

  /** The meta tag a watch page carries for a video of `minutes` minutes and
      `seconds` seconds, in the minutes-and-seconds form. */
  function DurationTag(minutes: nat, seconds: nat): string {
    Marker + "PT" + Decimal(minutes) + "M" + Decimal(seconds) + "S" + "\">"
  }

  /** A capture that holds neither a newline nor a double quote closes at
      the first `">` after it. */
  lemma {:induction false} LazyCloseAtEnd(body: string, q: nat, k: nat, n: nat)
    requires 1 <= k <= n && q + n + 2 <= |body|
    requires forall m :: q <= m < q + n ==> body[m] != '\n' && body[m] != '"'
    requires body[q + n] == '"' && body[q + n + 1] == '>'
    ensures LazyClose(body, q, k) == Some(n)
    decreases n - k
  {
    if k < n {
      LazyCloseAtEnd(body, q, k + 1, n);
    }
  }

  /** Extraction inverts the page encoding: the tag for `minutes` and
      `seconds` yields exactly what ParseDuration makes of them. */
  lemma DurationOfTag(minutes: nat, seconds: nat)
    ensures DurationFromBody(DurationTag(minutes, seconds)) == MinutesSeconds(minutes, seconds)
  {
    var mm, ss := Decimal(minutes), Decimal(seconds);
    var cap := "PT" + mm + "M" + ss + "S";
    assert DurationTag(minutes, seconds) == Marker + cap + "\">";
    CaptureChars(mm, ss);
    ContentOfTag(cap);
    SimplifiedOfCapture(mm, ss);
  }

  lemma CaptureChars(mm: string, ss: string)
    requires AllDigits(mm) && AllDigits(ss)
    ensures var cap := "PT" + mm + "M" + ss + "S";
      forall i :: 0 <= i < |cap| ==> cap[i] != '\n' && cap[i] != '"'
  {
    var cap := "PT" + mm + "M" + ss + "S";
    forall i | 0 <= i < |cap|
      ensures cap[i] != '\n' && cap[i] != '"'
    {
      if 2 <= i < 2 + |mm| {
        assert cap[i] == mm[i - 2];
      } else if 3 + |mm| <= i < 3 + |mm| + |ss| {
        assert cap[i] == ss[i - 3 - |mm|];
      }
    }
  }

  lemma SimplifiedOfCapture(mm: string, ss: string)
    requires 1 <= |mm| && 1 <= |ss| && AllDigits(mm) && AllDigits(ss)
    ensures var cap := "PT" + mm + "M" + ss + "S";
      FindSimplifiedFrom(cap, 0) == Some((0, 2 + |mm|, 3 + |mm| + |ss|))
      && cap[2..2 + |mm|] == mm && cap[3 + |mm|..3 + |mm| + |ss|] == ss
  {
    var cap := "PT" + mm + "M" + ss + "S";
    var b, d := 2 + |mm|, 3 + |mm| + |ss|;
    assert cap[2..b] == mm;
    assert cap[b + 1..d] == ss;
    assert IsSimplifiedMatch(cap, 0, b, d);
  }

  /** The captured text of a tag is what stands between its quotes. */
  lemma ContentOfTag(cap: string)
    requires |cap| >= 1
    requires forall i :: 0 <= i < |cap| ==> cap[i] != '\n' && cap[i] != '"'
    ensures DurationContent(Marker + cap + "\">") == Some(cap)
  {
    var body := Marker + cap + "\">";
    var L := |Marker|;
    assert body[..L] == Marker;
    assert MarkerAt(body, 0);
    forall m | L <= m < L + |cap|
      ensures body[m] != '\n' && body[m] != '"'
    {
      assert body[m] == cap[m - L];
    }
    LazyCloseAtEnd(body, L, 1, |cap|);
    assert FindDurationFrom(body, 0) == Some((0, |cap|));
    assert body[L..L + |cap|] == cap;
  }

  /** Seconds of 60 or more are accepted and carried into minutes. */
  lemma SecondsBeyondSixtyAccepted()
    ensures DurationFromBody(DurationTag(1, 75)) == Success(135 * Second)
  {
    DurationOfTag(1, 75);
  }

  /** A zero-length video parses to a zero Duration. */
  lemma ZeroDurationParses()
    ensures DurationFromBody(DurationTag(0, 0)) == Success(0)
  {
    DurationOfTag(0, 0);
  }

  /** More minutes than a Duration can hold make ParseDuration fail. */
  lemma OverflowRejected()
    ensures DurationFromBody(DurationTag(153722868, 0)) == Failure(InvalidDuration)
  {
    DurationOfTag(153722868, 0);
  }

  /** The hour form is not recognised by the minutes-and-seconds pattern. */
  lemma HourFormNotParsed()
    ensures DurationFromBody(Marker + "PT1H2M3S" + "\">") == Failure(DurationNotParsed)
  {
    var cap := "PT1H2M3S";
    ContentOfTag(cap);
    HourCaptureNotSimplified(cap);
  }

  lemma HourCaptureNotSimplified(cap: string)
    requires cap == "PT1H2M3S"
    ensures FindSimplifiedFrom(cap, 0).None?
  {
    assert RunEnd(cap, 3, IsDigit) == 3;
    assert RunEnd(cap, 2, IsDigit) == 3;
    assert SimplifiedAt(cap, 0).None?;
    assert FindSimplifiedFrom(cap, 8).None?;
    assert FindSimplifiedFrom(cap, 7).None?;
    assert FindSimplifiedFrom(cap, 6).None?;
    assert FindSimplifiedFrom(cap, 5).None?;
    assert FindSimplifiedFrom(cap, 4).None?;
    assert FindSimplifiedFrom(cap, 3).None?;
    assert FindSimplifiedFrom(cap, 2).None?;
    assert FindSimplifiedFrom(cap, 1).None?;
  }
}
