/** selectAndPlay: the listing goes to fzf, the printed line is looked up,
    and the entry's video is handed to mpv. The two processes are inputs. */
module Selection {
  import opened Wrappers
  import opened Text
  import opened Entries
  import opened Render

  /** How an fzf run ended: it printed the chosen line, it exited with a
      non-zero status, or it could not be run at all. */
  datatype FzfRun = FzfSelected(stdout: string) | FzfExit(code: int) | FzfNotStarted

  /** What the selection comes to. */
  datatype Selection = SelectionError | NothingSelected | Play(url: string) | NotFound

  /** `n` newlines. */
  function Newlines(n: nat): string {
    Repeat('\n', n)
  }

  /** strings.Trim(s, "\n"): newlines removed from both ends. */
  function TrimNewlines(s: string): (r: string)
    ensures |r| <= |s|
    ensures |r| > 0 ==> r[0] != '\n' && r[|r| - 1] != '\n'
    ensures r == [] <==> forall i :: 0 <= i < |s| ==> s[i] == '\n'
    decreases |s|
  {
    if |s| > 0 && s[0] == '\n' then
      var r := TrimNewlines(s[1..]);
      assert forall i :: 1 <= i < |s| ==> s[i] == s[1..][i - 1];
      r
    else if |s| > 0 && s[|s| - 1] == '\n' then
      var r := TrimNewlines(s[..|s| - 1]);
      assert s[0] != '\n';
      r
    else
      s
  }

  /** Trimming gives back a line padded with newlines on either side. */
  lemma {:induction false} TrimNewlinesPadded(p: nat, line: string, q: nat)
    requires |line| > 0 && line[0] != '\n' && line[|line| - 1] != '\n'
    ensures TrimNewlines(Newlines(p) + line + Newlines(q)) == line
    decreases p + q
  {
    var s := Newlines(p) + line + Newlines(q);
    if p > 0 {
      assert s[0] == '\n';
      assert s[1..] == Newlines(p - 1) + line + Newlines(q);
      TrimNewlinesPadded(p - 1, line, q);
    } else if q > 0 {
      assert s[0] == line[0];
      assert s[|s| - 1] == '\n';
      assert s[..|s| - 1] == Newlines(0) + line + Newlines(q - 1);
      TrimNewlinesPadded(p, line, q - 1);
    } else {
      assert s == line;
    }
  }

  /** The decision of selectAndPlay after fzf has run. Exit status 2 is an
      fzf error; any other non-zero status (no match, interrupted) selects
      nothing. */
  function Choose(run: FzfRun, lookup: map<string, FeedEntry>): (r: Selection)
    // fzf failing to start, or exiting with status 2, is an error
    ensures r == SelectionError <==> run.FzfNotStarted? || (run.FzfExit? && run.code == 2)
    // other exits, and output made only of newlines, select nothing
    ensures r == NothingSelected <==>
      || (run.FzfExit? && run.code != 2)
      || (run.FzfSelected? && forall i :: 0 <= i < |run.stdout| ==> run.stdout[i] == '\n')
    // a played URL is the URL of the entry whose line fzf printed
    ensures r.Play? ==> run.FzfSelected? && TrimNewlines(run.stdout) in lookup
                        && r.url == lookup[TrimNewlines(run.stdout)].url
    // a printed line the listing does not know is reported
    ensures r == NotFound <==>
      run.FzfSelected? && TrimNewlines(run.stdout) != [] && TrimNewlines(run.stdout) !in lookup
  {
    match run
    case FzfNotStarted => SelectionError
    case FzfExit(code) => if code == 2 then SelectionError else NothingSelected
    case FzfSelected(out) =>
      var selection := TrimNewlines(out);
      if selection == [] then NothingSelected
      else if selection in lookup then Play(lookup[selection].url)
      else NotFound
  }

  /** Choosing a line of the listing, as fzf prints it, plays the video of
      the last shown entry with that line. */
  lemma ChooseShownLine(lineOf: FeedEntry -> string, entries: seq<FeedEntry>, line: string, p: nat, q: nat)
    requires line in VisibleLines(lineOf, entries)
    requires |line| > 0 && line[0] != '\n' && line[|line| - 1] != '\n'
    ensures exists j: nat ::
      && LastWithLine(lineOf, entries, line, j)
      && Choose(FzfSelected(Newlines(p) + line + Newlines(q)), LookupOf(lineOf, entries)) == Play(entries[j].url)
  {
    LookupOfKeys(lineOf, entries);
    LookupOfLastWins(lineOf, entries);
    TrimNewlinesPadded(p, line, q);
  }

  /** Why selectAndPlay returns an error. */
  datatype PlayError = RenderFailed(cause: RenderError) | FzfFailed | UrlNotFound | PlayerFailed(url: string)

  /** The text buildFZFContent hands to fzf when every shown entry parses. */
  function ListingOf(lineOf: FeedEntry -> string, entries: seq<FeedEntry>): string {
    if |entries| > 0 && !ShouldFilterOut(entries[|entries| - 1])
    then JoinLines(VisibleLines(lineOf, entries))
    else Terminated(VisibleLines(lineOf, entries))
  }

  /** How fzf's run on the listing of `entries` is decided, when every shown
      entry's date parses. */
  function FzfChoice(format: DateFormatter, entries: seq<FeedEntry>, fzf: string -> FzfRun): Selection {
    var lineOf := LineOf(format, LongestAuthorNameLength(entries));
    Choose(fzf(ListingOf(lineOf, entries)), LookupOf(lineOf, entries))
  }

  /** What selectAndPlay returns once the choice is made: an fzf error, no
      selection, an unknown line, or mpv's outcome on the chosen URL. */
  function PlayOf(choice: Selection, mpvOk: string -> bool): Result<Option<string>, PlayError> {
    match choice
    case SelectionError => Failure(FzfFailed)
    case NothingSelected => Success(None)
    case NotFound => Failure(UrlNotFound)
    case Play(url) => if mpvOk(url) then Success(Some(url)) else Failure(PlayerFailed(url))
  }

  /** selectAndPlay with fzf and mpv as inputs: `fzf` maps the listing to
      how the run ended, `mpvOk` says whether mpv played a URL without
      error. Success(Some(url)) means `url` was played. */
  method SelectAndPlay(parse: TimeParser, format: DateFormatter, entries: seq<FeedEntry>,
                       fzf: string -> FzfRun, mpvOk: string -> bool)
    returns (r: Result<Option<string>, PlayError>)
    // an unparseable date on a shown entry stops everything before fzf runs
    ensures r.Failure? && r.error.RenderFailed? <==> exists i: nat :: ShownUnparseable(parse, entries, i)
    // otherwise fzf gets the listing and its answer decides
    ensures (forall i: nat :: !ShownUnparseable(parse, entries, i)) ==>
      var choice := FzfChoice(format, entries, fzf);
      && (r == Failure(FzfFailed) <==> choice == SelectionError)
      && (r == Success(None) <==> choice == NothingSelected)
      && (r == Failure(UrlNotFound) <==> choice == NotFound)
      && (choice.Play? ==> r == (if mpvOk(choice.url) then Success(Some(choice.url))
                                 else Failure(PlayerFailed(choice.url))))
      && r == PlayOf(choice, mpvOk)
    // only the video of a shown entry is ever played
    ensures r.Success? && r.value.Some? ==>
      exists i :: 0 <= i < |entries| && !ShouldFilterOut(entries[i]) && entries[i].url == r.value.value
  {
    var content := BuildFzfContent(parse, format, entries);
    if content.Failure? {
      return Failure(RenderFailed(content.error));
    }
    var lineOf := LineOf(format, LongestAuthorNameLength(entries));
    assert content.value.text == ListingOf(lineOf, entries);
    var lookup := content.value.lookup;
    match Choose(fzf(content.value.text), lookup)
    case SelectionError =>
      r := Failure(FzfFailed);
    case NothingSelected =>
      r := Success(None);
    case NotFound =>
      r := Failure(UrlNotFound);
    case Play(url) =>
      if mpvOk(url) {
        LookupOfLastWins(lineOf, entries);
        var key := TrimNewlines(fzf(content.value.text).stdout);
        var j: nat :| LastWithLine(lineOf, entries, key, j) && lookup[key] == entries[j];
        r := Success(Some(url));
      } else {
        r := Failure(PlayerFailed(url));
      }
  }
}
