/** Title normalisation: sentence case, then deletion of every match of the
    hashtag pattern `\B(\#[\w_-]+\b)` with RE2's leftmost-first semantics. */
module Title {
  import opened Wrappers
  import opened Text

  /** Characters of the class `[\w_-]`. */
  predicate IsTagChar(c: char) {
    IsWordChar(c) || c == '-'
  }

  /** `\B` before a `#` (a non-word character): the start of the text, or a
      non-word character before it. */
  predicate NonBoundaryBefore(s: string, i: nat)
    requires i < |s|
  {
    i == 0 || !IsWordChar(s[i - 1])
  }

  /** `s[i..e]` is the match the hashtag pattern makes when tried at `i`:
      `#` after a non-boundary, tag characters, a word character last (so that
      `\b` holds at `e`), and only `-` between `e` and the end of the greedy
      run of tag characters (so no longer run ends at a boundary). */
  ghost predicate IsHashtagMatch(s: string, i: nat, e: nat) {
    && i + 2 <= e <= |s|
    && s[i] == '#'
    && NonBoundaryBefore(s, i)
    && (forall m :: i < m < e ==> IsTagChar(s[m]))
    && IsWordChar(s[e - 1])
    && (forall m :: e <= m < RunEnd(s, i + 1, IsTagChar) ==> s[m] == '-')
  }

  /** One past the last word character of `s[lo..hi]`, if there is one. */
  function LastWordEnd(s: string, lo: nat, hi: nat): (r: Option<nat>)
    requires lo <= hi <= |s|
    ensures r.None? <==> (forall m :: lo <= m < hi ==> !IsWordChar(s[m]))
    ensures r.Some? ==> lo < r.value <= hi && IsWordChar(s[r.value - 1])
    ensures r.Some? ==> (forall m :: r.value <= m < hi ==> !IsWordChar(s[m]))
    decreases hi
  {
    if hi == lo then None
    else if IsWordChar(s[hi - 1]) then Some(hi)
    else LastWordEnd(s, lo, hi - 1)
  }

  /** The end of the hashtag match starting at `i`, or None when the pattern
      does not match there. */
  function HashtagAt(s: string, i: nat): (r: Option<nat>)
    requires i < |s|
    ensures r.Some? ==> i + 2 <= r.value <= |s| && s[i] == '#'
    ensures r.Some? ==> forall m :: i < m < r.value ==> IsTagChar(s[m])
  {
    if s[i] == '#' && NonBoundaryBefore(s, i) then
      LastWordEnd(s, i + 1, RunEnd(s, i + 1, IsTagChar))
    else
      None
  }

  /** HashtagAt finds exactly the match the pattern makes at `i`. */
  lemma HashtagAtMatches(s: string, i: nat)
    requires i < |s|
    ensures forall e: nat :: HashtagAt(s, i) == Some(e) <==> IsHashtagMatch(s, i, e)
  {
    if s[i] == '#' && NonBoundaryBefore(s, i) {
      var j := RunEnd(s, i + 1, IsTagChar);
      var r := LastWordEnd(s, i + 1, j);
      forall e: nat | IsHashtagMatch(s, i, e)
        ensures r == Some(e)
      {
        RunEndCovers(s, i + 1, e, IsTagChar);
        assert IsWordChar(s[e - 1]);
        assert r.Some? && e <= r.value;
        assert IsWordChar(s[r.value - 1]);
      }
    }
  }

  /** `ReplaceAllString(s[i..], "")` for a scan that resumes at `i`: matches
      are found left to right, do not overlap, and are matched against the
      whole original text. */
  function StripFrom(s: string, i: nat): string
    requires i <= |s|
    decreases |s| - i
  {
    if i == |s| then []
    else
      match HashtagAt(s, i)
      case Some(e) => StripFrom(s, e)
      case None => [s[i]] + StripFrom(s, i + 1)
  }

  /** Deletes every hashtag match from `s`. */
  function StripHashtags(s: string): string {
    StripFrom(s, 0)
  }

  /** Reference definition: position `k` lies inside some hashtag match,
      wherever that match starts. */
  ghost predicate Covered(s: string, k: nat)
    requires k < |s|
  {
    exists i :: 0 <= i <= k && HashtagAt(s, i).Some? && k < HashtagAt(s, i).value
  }

  /** Reference definition: the characters of `s[from..]` not covered by a
      match, in order. */
  ghost function Uncovered(s: string, from: nat): string
    requires from <= |s|
    decreases |s| - from
  {
    if from == |s| then []
    else (if Covered(s, from) then [] else [s[from]]) + Uncovered(s, from + 1)
  }

  /** No match that starts before `i` reaches past `i`. */
  ghost predicate ScanAligned(s: string, i: nat)
    requires i <= |s|
  {
    forall i' :: 0 <= i' < i && HashtagAt(s, i').Some? ==> HashtagAt(s, i').value <= i
  }

  /** A match contains no second `#`, so no other match starts inside it. */
  lemma NoMatchInside(s: string, i: nat, m: nat)
    requires i < m < |s| && HashtagAt(s, i).Some? && m < HashtagAt(s, i).value
    ensures HashtagAt(s, m).None?
  {
    assert IsTagChar(s[m]);
  }

  lemma {:induction false} StripFromUncovered(s: string, i: nat)
    requires i <= |s|
    requires ScanAligned(s, i)
    ensures StripFrom(s, i) == Uncovered(s, i)
    decreases |s| - i, 1
  {
    if i < |s| {
      if HashtagAt(s, i).Some? {
        StripMatchUncovered(s, i);
      } else {
        StripNoMatchUncovered(s, i);
      }
    }
  }

  /** A match at `i` is skipped whole, and every position in it is covered. */
  lemma {:induction false} StripMatchUncovered(s: string, i: nat)
    requires i < |s| && ScanAligned(s, i) && HashtagAt(s, i).Some?
    ensures StripFrom(s, i) == Uncovered(s, i)
    decreases |s| - i, 0
  {
    var e := HashtagAt(s, i).value;
    assert StripFrom(s, i) == StripFrom(s, e);
    forall k | i <= k < e
      ensures Covered(s, k) && Uncovered(s, k) == Uncovered(s, k + 1)
    {
      CoveredByMatch(s, i, k);
    }
    UncoveredSkip(s, i, e);
    AlignedAfterMatch(s, i);
    StripFromUncovered(s, e);
  }

  lemma CoveredByMatch(s: string, i: nat, k: nat)
    requires i <= k < |s| && HashtagAt(s, i).Some? && k < HashtagAt(s, i).value
    ensures Covered(s, k) && Uncovered(s, k) == Uncovered(s, k + 1)
  {
    assert 0 <= i <= k && HashtagAt(s, i).Some? && k < HashtagAt(s, i).value;
    assert Uncovered(s, k) == [] + Uncovered(s, k + 1);
  }

  /** After a match the scan is aligned again at its end. */
  lemma AlignedAfterMatch(s: string, i: nat)
    requires i < |s| && ScanAligned(s, i) && HashtagAt(s, i).Some?
    ensures ScanAligned(s, HashtagAt(s, i).value)
  {
    var e := HashtagAt(s, i).value;
    forall i' | 0 <= i' < e
      ensures HashtagAt(s, i').Some? ==> HashtagAt(s, i').value <= e
    {
      if i < i' {
        NoMatchInside(s, i, i');
      }
    }
  }

  /** Without a match at `i` the character there is kept, and nothing
      earlier covers it. */
  lemma {:induction false} StripNoMatchUncovered(s: string, i: nat)
    requires i < |s| && ScanAligned(s, i) && HashtagAt(s, i).None?
    ensures StripFrom(s, i) == Uncovered(s, i)
    decreases |s| - i, 0
  {
    assert StripFrom(s, i) == [s[i]] + StripFrom(s, i + 1);
    assert !Covered(s, i);
    assert Uncovered(s, i) == [s[i]] + Uncovered(s, i + 1);
    assert ScanAligned(s, i + 1);
    StripFromUncovered(s, i + 1);
  }

  lemma {:induction false} UncoveredSkip(s: string, from: nat, to: nat)
    requires from <= to <= |s|
    requires forall k :: from <= k < to ==> Covered(s, k) && Uncovered(s, k) == Uncovered(s, k + 1)
    ensures Uncovered(s, from) == Uncovered(s, to)
    decreases |s| - from
  {
    if from < to {
      UncoveredSkip(s, from + 1, to);
    }
  }

  /** The left-to-right, non-overlapping scan deletes exactly the characters
      that lie inside some match of the pattern against the original text. */
  lemma StripHashtagsDeletesMatches(s: string)
    ensures StripHashtags(s) == Uncovered(s, 0)
  {
    StripFromUncovered(s, 0);
  }

  /** Lower-cases `title` and upper-cases its first character. */
  function SentenceCase(title: string): (r: string)
    requires |title| > 0
    ensures |r| == |title|
    ensures r[0] == ToUpper(ToLower(title[0]))
    ensures forall k :: 0 < k < |r| ==> r[k] == ToLower(title[k])
  {
    [ToUpper(ToLower(title[0]))] + seq(|title| - 1, k requires 0 <= k < |title| - 1 => ToLower(title[k + 1]))
  }

  /** normalizeTitle. The title must be non-empty: the source indexes its
      first rune and panics on an empty title. */
  function NormalizeTitle(title: string): (r: string)
    requires |title| > 0
    ensures r == Uncovered(SentenceCase(title), 0)
    ensures |r| <= |title|
  {
    var cased := SentenceCase(title);
    StripHashtagsDeletesMatches(cased);
    UncoveredLength(cased, 0);
    StripHashtags(cased)
  }

  lemma {:induction false} UncoveredLength(s: string, from: nat)
    requires from <= |s|
    ensures |Uncovered(s, from)| <= |s| - from
    decreases |s| - from
  {
    if from < |s| {
      UncoveredLength(s, from + 1);
      var head := if Covered(s, from) then [] else [s[from]];
      assert Uncovered(s, from) == head + Uncovered(s, from + 1);
    }
  }

  /** A stretch of text without `#` is kept as it is. */
  lemma {:induction false} NoHashKept(s: string, i: nat, j: nat)
    requires i <= j <= |s|
    requires forall k :: i <= k < j ==> s[k] != '#'
    ensures StripFrom(s, i) == s[i..j] + StripFrom(s, j)
    decreases j - i
  {
    if i < j {
      NoHashKept(s, i, j - 1);
      KeptChar(s, j - 1);
      var kept, rest := s[i..j - 1], StripFrom(s, j);
      assert kept + ([s[j - 1]] + rest) == (kept + [s[j - 1]]) + rest;
      assert kept + [s[j - 1]] == s[i..j];
    } else {
      assert s[i..j] == [];
    }
  }

  /** A character other than `#` starts no match and is kept. */
  lemma KeptChar(s: string, i: nat)
    requires i < |s| && s[i] != '#'
    ensures StripFrom(s, i) == [s[i]] + StripFrom(s, i + 1)
  {
    assert HashtagAt(s, i).None?;
  }

  /** An example title keeps the spaces that stood before its two
      hashtags: only the matches are deleted. */
  lemma NormalizeTitleExample()
    ensures NormalizeTitle("My AMAZING Video #shorts #fun") == "My amazing video  "
  {
    var cased := SentenceCase("My AMAZING Video #shorts #fun");
    ExampleCased("My AMAZING Video #shorts #fun", cased);
    ExampleStrip(cased);
  }

  lemma ExampleCased(title: string, cased: string)
    requires title == "My AMAZING Video #shorts #fun" && cased == SentenceCase(title)
    ensures cased == "My amazing video #shorts #fun"
  {
    var want := "My amazing video #shorts #fun";
    assert cased[0] == want[0];
    forall k | 1 <= k < 10 ensures cased[k] == want[k] {
      assert cased[k] == ToLower(title[k]);
    }
    forall k | 10 <= k < 20 ensures cased[k] == want[k] {
      assert cased[k] == ToLower(title[k]);
    }
    forall k | 20 <= k < 29 ensures cased[k] == want[k] {
      assert cased[k] == ToLower(title[k]);
    }
  }

  lemma ExampleStrip(s: string)
    requires s == "My amazing video #shorts #fun"
    ensures StripFrom(s, 0) == "My amazing video  "
  {
    assert forall k :: 0 <= k < 17 ==> s[k] != '#';
    NoHashKept(s, 0, 17);
    ExampleFirstTag(s);
    KeptChar(s, 24);
    ExampleSecondTag(s);
    assert StripFrom(s, 0) == s[0..17] + ([s[24]] + []);
    assert s[0..17] == "My amazing video ";
  }

  lemma ExampleFirstTag(s: string)
    requires s == "My amazing video #shorts #fun"
    ensures StripFrom(s, 17) == StripFrom(s, 24)
  {
    assert RunEnd(s, 18, IsTagChar) == 24 by {
      assert RunEnd(s, 24, IsTagChar) == 24;
      assert RunEnd(s, 23, IsTagChar) == 24;
      assert RunEnd(s, 22, IsTagChar) == 24;
      assert RunEnd(s, 21, IsTagChar) == 24;
      assert RunEnd(s, 20, IsTagChar) == 24;
      assert RunEnd(s, 19, IsTagChar) == 24;
    }
    assert LastWordEnd(s, 18, 24) == Some(24);
  }

  lemma ExampleSecondTag(s: string)
    requires s == "My amazing video #shorts #fun"
    ensures StripFrom(s, 25) == []
  {
    assert RunEnd(s, 26, IsTagChar) == 29 by {
      assert RunEnd(s, 29, IsTagChar) == 29;
      assert RunEnd(s, 28, IsTagChar) == 29;
      assert RunEnd(s, 27, IsTagChar) == 29;
    }
    assert LastWordEnd(s, 26, 29) == Some(29);
    assert StripFrom(s, 25) == StripFrom(s, 29);
  }
}
