/** The pure parts of summary.py: gathering a day's commits page by page,
    the day's time window, one markdown line per commit, and the early
    returns of `main`.  The GitHub answer for each page is a function
    parameter; the OpenAI call, printing and file writing are not
    modelled. */
module CommitSummary {
  import opened Results
  import opened Text

  /** `MAX_PAGES` */
  const MaxPages: nat := 5
  /** `DAYS_AGO`: 0 is today. */
  const DaysAgo: nat := 0
  /** One day in microseconds, the resolution of `datetime`. */
  const Day: int := 24 * 60 * 60 * 1000000

  /** The fields `main` reads from one commit of the API answer. */
  datatype Commit = Commit(sha: string, htmlUrl: string, message: string)

  /** One answer of the commits endpoint. */
  datatype Page = Page(status: int, commits: seq<Commit>)

  /** The exception raised for a status other than 200. */
  datatype ApiError = ApiError(status: int)

  // ---------------------------------------------------------------------
  // Pagination

  /** Pages `1` to `n` concatenated in order. */
  function Pages(fetch: nat -> Page, n: nat): seq<Commit>
    decreases n
  {
    if n == 0 then [] else Pages(fetch, n - 1) + fetch(n).commits
  }

  function Prepend(commits: seq<Commit>, r: Result<seq<Commit>, ApiError>): Result<seq<Commit>, ApiError> {
    match r
    case Err(e) => Err(e)
    case Ok(rest) => Ok(commits + rest)
  }

  lemma PrependConcat(xs: seq<Commit>, ys: seq<Commit>, r: Result<seq<Commit>, ApiError>)
    ensures Prepend([], r) == r
    ensures Prepend(xs, Prepend(ys, r)) == Prepend(xs + ys, r)
  {
    if r.Ok? {
      assert [] + r.value == r.value;
      assert xs + (ys + r.value) == (xs + ys) + r.value;
    }
  }

  /** What the pages from `page` on contribute: nothing past the last page
      or from an empty page, an error from a failed page, otherwise the
      page followed by the rest. */
  function Collect(fetch: nat -> Page, page: nat): Result<seq<Commit>, ApiError>
    decreases MaxPages + 1 - page
  {
    if page > MaxPages then Ok([])
    else
      var p := fetch(page);
      if p.status != 200 then Err(ApiError(p.status))
      else if |p.commits| == 0 then Ok([])
      else Prepend(p.commits, Collect(fetch, page + 1))
  }

  /** What the requests up to page `n` amount to: the error of page `n`
      if it failed, otherwise the commits of pages 1 to `n`. */
  function PagesOutcome(fetch: nat -> Page, n: nat): Result<seq<Commit>, ApiError> {
    if fetch(n).status != 200 then Err(ApiError(fetch(n).status)) else Ok(Pages(fetch, n))
  }

  /** When the pages before `n` all answered with commits and page `n` ends
      the pagination (by failing, by being empty, or by being the last
      allowed), collecting from any page up to `n` completes what the
      earlier pages started to `PagesOutcome(fetch, n)`. */
  lemma {:induction false} CollectFrom(fetch: nat -> Page, page: nat, n: nat)
    requires 1 <= page <= n <= MaxPages
    requires forall p :: page <= p < n ==> fetch(p).status == 200 && |fetch(p).commits| > 0
    requires n == MaxPages || fetch(n).status != 200 || |fetch(n).commits| == 0
    ensures Prepend(Pages(fetch, page - 1), Collect(fetch, page)) == PagesOutcome(fetch, n)
    decreases n - page
  {
    var before := Pages(fetch, page - 1);
    if page < n {
      CollectFrom(fetch, page + 1, n);
      PrependConcat(before, fetch(page).commits, Collect(fetch, page + 1));
    } else if fetch(n).status == 200 {
      assert Collect(fetch, n) == Prepend(fetch(n).commits, Ok([])) by {
        if |fetch(n).commits| == 0 {
          assert fetch(n).commits + [] == [];
        }
      }
      assert fetch(n).commits + [] == fetch(n).commits;
    }
  }

  /** `get_github_commits`: request pages 1, 2, … in order, raise on the
      first failed page, stop after the first empty one or after
      `MAX_PAGES`. */
  method GetCommits(fetch: nat -> Page) returns (r: Result<seq<Commit>, ApiError>, requested: seq<nat>)
    ensures 1 <= |requested| <= MaxPages
    ensures forall i :: 0 <= i < |requested| ==> requested[i] == i + 1
    ensures forall p :: 1 <= p < |requested| ==> fetch(p).status == 200 && |fetch(p).commits| > 0
    ensures |requested| < MaxPages ==> fetch(|requested|).status != 200 || fetch(|requested|).commits == []
    ensures r.Err? <==> fetch(|requested|).status != 200
    ensures r.Err? ==> r.error == ApiError(fetch(|requested|).status)
    ensures r.Ok? ==> r.value == Pages(fetch, |requested|)
    ensures r == Collect(fetch, 1)
  {
    var commits: seq<Commit> := [];
    requested := [];
    var page: nat := 1;
    while page <= MaxPages
      invariant 1 <= page <= MaxPages + 1
      invariant |requested| == page - 1
      invariant forall i :: 0 <= i < |requested| ==> requested[i] == i + 1
      invariant forall p :: 1 <= p < page ==> fetch(p).status == 200 && |fetch(p).commits| > 0
      invariant commits == Pages(fetch, page - 1)
    {
      requested := requested + [page];
      var response := fetch(page);
      if response.status != 200 {
        r := Err(ApiError(response.status));
        CollectFrom(fetch, 1, page);
        PrependConcat([], [], Collect(fetch, 1));
        return;
      }
      if |response.commits| == 0 {
        r := Ok(commits);
        assert Pages(fetch, page) == commits + [];
        CollectFrom(fetch, 1, page);
        PrependConcat([], [], Collect(fetch, 1));
        return;
      }
      commits := commits + response.commits;
      page := page + 1;
    }
    r := Ok(commits);
    CollectFrom(fetch, 1, MaxPages);
    PrependConcat([], [], Collect(fetch, 1));
  }

  // ---------------------------------------------------------------------
  // The window

  /** `since` and `until` for an instant `now`, all in microseconds since
      the epoch, UTC: `since` is midnight `DAYS_AGO` days back. */
  function Window(now: int): (w: (int, int))
    ensures w.0 % Day == 0
    ensures w.0 + DaysAgo * Day <= now < w.0 + DaysAgo * Day + Day
    ensures w.1 == w.0 + Day
  {
    var midnight := now - now % Day;
    (midnight - DaysAgo * Day, midnight - DaysAgo * Day + Day)
  }

  /** The window starts at the one midnight at most a day before `now`. */
  lemma WindowIsThatDay(now: int, m: int)
    requires m % Day == 0 && m <= now < m + Day
    ensures Window(now).0 == m - DaysAgo * Day
  {
    var w := Window(now).0 + DaysAgo * Day;
    var a, b := m / Day, w / Day;
    assert m == a * Day && w == b * Day;
  }

  // ---------------------------------------------------------------------
  // One line per commit

  /** `sha[:7]` */
  function ShortSha(sha: string): (r: string)
    ensures |r| == if |sha| < 7 then |sha| else 7
    ensures r == sha[..|r|]
  {
    if |sha| < 7 then sha else sha[..7]
  }

  lemma JoinHead(parts: seq<string>, sep: string)
    requires 1 <= |parts|
    ensures Join(parts, sep)[..|parts[0]|] == parts[0]
    ensures 2 <= |parts| ==> Join(parts, sep)[|parts[0]|..|parts[0]| + |sep|] == sep
  {
  }

  /** `message.split('\n')[0]`: the message up to its first line break. */
  function FirstLine(msg: string): (r: string)
    ensures |r| <= |msg| && r == msg[..|r|]
    ensures '\n' !in r
    ensures |r| < |msg| ==> msg[|r|] == '\n'
    ensures '\n' !in msg ==> r == msg
  {
    var parts := Split(msg, "\n");
    JoinHead(parts, "\n");
    FreeOfChar(parts[0], '\n');
    parts[0]
  }

  /** One entry of the commit list handed to the summariser. */
  function FormatLine(c: Commit): (line: string)
    ensures '\n' !in c.sha && '\n' !in c.htmlUrl ==> '\n' !in line
  {
    "- [" + ShortSha(c.sha) + "](" + c.htmlUrl + ") " + FirstLine(c.message)
  }

  function FormatLines(commits: seq<Commit>): (lines: seq<string>)
    ensures |lines| == |commits|
    ensures forall i :: 0 <= i < |commits| ==> lines[i] == FormatLine(commits[i])
  {
    seq(|commits|, i requires 0 <= i < |commits| => FormatLine(commits[i]))
  }

  /** A formatted line keeps the first seven characters of the hash, the
      link and the first line of the message, and nothing after that
      line's end. */
  lemma FormatLineShape(c: Commit)
    ensures var line := FormatLine(c);
            var pre := "- [" + ShortSha(c.sha) + "](" + c.htmlUrl + ") ";
            && line[..|pre|] == pre
            && line[|pre|..] == c.message[..|line| - |pre|]
            && (|line| - |pre| < |c.message| ==> c.message[|line| - |pre|] == '\n')
  {
  }

  /** Joined with "\n" as the prompt does, the list reads back as exactly
      one line per commit, in commit order, when hashes and links hold no
      line break. */
  lemma OneLinePerCommit(commits: seq<Commit>)
    requires 1 <= |commits|
    requires forall i :: 0 <= i < |commits| ==> '\n' !in commits[i].sha && '\n' !in commits[i].htmlUrl
    ensures Split(Join(FormatLines(commits), "\n"), "\n") == FormatLines(commits)
  {
    var lines := FormatLines(commits);
    forall k | 0 <= k < |lines|
      ensures "\n"[0] !in lines[k]
    {
      assert lines[k] == FormatLine(commits[k]);
    }
    SplitOfJoin(lines, "\n");
  }

  // ---------------------------------------------------------------------
  // main

  datatype Outcome =
    | MissingApiKey              // `OPENAI_API_KEY` unset or empty
    | NoCommits                  // nothing committed in the window
    | RunError(error: ApiError)  // the exception printed by `main`
    | Summarise(lines: seq<string>)  // the list handed to the summariser

  /** `main` up to the summariser call. */
  method RunSummary(apiKey: Option<string>, fetch: nat -> Page) returns (o: Outcome, requested: seq<nat>)
    ensures o == MissingApiKey <==> apiKey.None? || apiKey == Some("")
    ensures o == MissingApiKey ==> requested == []
    ensures o == NoCommits <==> o != MissingApiKey && Collect(fetch, 1) == Ok([])
    ensures o.RunError? <==> o != MissingApiKey && Collect(fetch, 1).Err?
    ensures o.Summarise? ==> Collect(fetch, 1).Ok? && |o.lines| == |Collect(fetch, 1).value| > 0
                             && o.lines == FormatLines(Collect(fetch, 1).value)
  {
    if apiKey.None? || apiKey == Some("") {
      return MissingApiKey, [];
    }
    var commits;
    commits, requested := GetCommits(fetch);
    if commits.Err? {
      return RunError(commits.error), requested;
    }
    if |commits.value| == 0 {
      return NoCommits, requested;
    }
    o := Summarise(FormatLines(commits.value));
  }
}
