# Himawari mosaic ledger, in Dafny

blueearth.py rebuilds full-disk earth mosaics, one per ten-minute time slice.
Each mosaic is a `zoom`×`zoom` grid of fragments downloaded separately.
A persistent key→bool ledger records which fragments, and which whole
slices, are already fetched, so an interrupted run resumes where it stopped.
This project models that ledger state machine and proves its properties:

- `get_fragments` works out the missing cells, streams the fetched fragments
  and writes the flags.
- `turncated_img` resets a slice.
- `stitching` runs the resume check, the short-circuit, the canvas, the
  paste loop and the background save.
- `main` builds the 24-hour window of slices.

It also models two small pure cores of the repository's helper scripts:

- The cookie header parser and the sign-in message dispatch of zhenbaimeng.py.
- The paginated commit fetch, the day window, the one-line-per-commit
  formatting and the early returns of summary.py.

Modules, one per file:

| file | module | what it holds |
|---|---|---|
| results.dfy | `Results` | `Option`, `Result` |
| text.dfy | `Text` | decimal rendering, `str.split`, `str.split(sep, 1)`, `str.join` |
| naming.dfy | `Naming` | slice and fragment keys, mosaic path, their injectivity |
| ledger.dfy | `Ledger` | the ledger map, the task list, the reset, the soundness invariant |
| fragment_stream.dfy | `FragmentStream` | `get_fragments` as a fold over downloads in completion order |
| mosaic.dfy | `Mosaic` | paste offsets, the tile partition of the canvas, paste order |
| compositor.dfy | `Compositor` | `stitching` for one slice and its ending |
| orchestrator.dfy | `Orchestrator` | the slice window, the date check, slices run in turn |
| sign_in.dfy | `SignIn` | zhenbaimeng.py |
| commit_summary.dfy | `CommitSummary` | summary.py |

Modelling choices:

- Ledger keys are the real strings: `"{zoom}_{dd}_{HHMM}"` for a slice and
  `"{zoom}_{dd}_{HHMM}_{col}_{row}"` for a fragment. Their injectivity is
  proved, not assumed.
- A slice instant is a record of calendar fields. The window of `main` is in
  whole minutes.
- Concurrent downloads become the sequence of their results in completion
  order. Each result says whether bytes arrived and whether those bytes
  decode. Lemmas that need it take as a hypothesis that this sequence is a
  permutation of the task list.
- The file system's answers are booleans given to the job: does the file
  exist, does it open, does the save succeed. The server's answers are
  parameters too.

Three behaviours of the code are easy to miss:

- A fragment whose bytes do not decode is not skipped. `Image.open` raises
  inside the paste loop and the exception ends the job
  (`Compositor.Stitch`, ending `Raised`).
- A mosaic file that fails to open gets no blank canvas. `target` is never
  bound, so the first paste raises. If nothing is pasted, the save raises
  and the slice is reset (`Compositor.HasCanvas`).
- A deleted mosaic whose slice was complete is not rebuilt from the flags.
  The missing file resets every flag, and all zoom² fragments are fetched
  again (`Compositor.RebuildFetchesWholeGrid`).

Fragment flags are set before the consumer decodes the bytes. So when the
mosaic file existed and opened, every download arrived, and only the last
one does not decode, the slice is already marked complete and the next run
never fetches that tile (`Compositor.UndecodableLastFragmentNeverRetried`).
More generally, when a job on an opened mosaic raises, the flags of every
fragment taken in so far stay set while the canvas holding them is never
saved, so those tiles are lost until the file is removed or fails to
open: a later run over the same file does not request them (`Compositor.RaiseLosesPastedTiles`). When the file
was missing at the start of the job, it is still missing at the next run,
which resets the slice and fetches every tile again.

## Model

| member | source | states |
|---|---|---|
| Text.DecInjective | blueearth.py:63 | two numbers rendered by `f"{n}"` (or zero-padded to two digits) are equal exactly when the numbers are |
| Text.Split | zhenbaimeng.py:40 | `s.split(sep)` gives at least one piece, its pieces joined by `sep` give `s` back, and no piece contains `sep` |
| Text.SplitOnce | zhenbaimeng.py:39 | `s.split(sep, 1)` gives one piece exactly when `sep` does not occur, and otherwise a first piece free of `sep` and a rest that rebuild `s` |
| Text.SplitOfJoin | summary.py:69 | joining parts that do not contain the separator's first character and then splitting gives the parts back |
| Text.SplitOnceOfPair | zhenbaimeng.py:39 | cutting `k + "=" + v` at the first `=` gives `k` and `v` when `k` has no `=`, whatever `v` holds |
| Naming.SliceKeyInjective | blueearth.py:59-70 | two valid slices share the slice flag `"{zoom}_{dd_HHMM}"` exactly when they are the same slice |
| Naming.FragmentKeyInjective | blueearth.py:63 | two fragment flags `"{zoom}_{dd_HHMM}_{col}_{row}"` coincide exactly when slice and cell are equal |
| Naming.SliceKeyNotFragmentKey | blueearth.py:63-70 | no slice flag is ever a fragment flag |
| Naming.StampsShareKeys | blueearth.py:59 | two instants share their flags exactly when they agree on day of month, hour and minute; year, month and seconds are ignored |
| Naming.SliceKey | blueearth.py:59-70 | the slice flag `f"{zoom}_{dd_HHMM}"`; it carries no contract of its own, and `Naming.SliceKeyInjective` states that it names one slice |
| Naming.FragmentKey | blueearth.py:59-63 | the fragment flag `f"{zoom}_{dd_HHMM}_{col}_{row}"`; it carries no contract of its own, and `Naming.FragmentKeyInjective` states that it names one fragment |
| Naming.MosaicPath | blueearth.py:110-116 | the file `save_path / f"{zoom:02d}_{%Y%m}" / f"{%d_%H%M}.webp"`; it carries no contract of its own, and `Naming.MosaicPathInjective` states when two jobs share it |
| Naming.MosaicPathInjective | blueearth.py:110-116 | two jobs write the same mosaic file exactly when zoom, year, month, day, hour and minute agree |
| Ledger.Get | blueearth.py:63 | `db.get(key, False)`: an absent key reads false; it carries no contract of its own |
| Ledger.Missing | blueearth.py:61-64 | the task list holds exactly the grid cells whose flag is absent or false, in the nested loop's column-major order |
| Ledger.NothingMissingIffAllFetched | blueearth.py:67-71 | the task list is empty exactly when every fragment flag of the slice reads true |
| Ledger.Reset | blueearth.py:95-102 | after the reset every fragment flag of the slice and the slice flag read false, and every other key reads as before |
| Ledger.FootprintsDisjoint | blueearth.py:99-102 | the keys of two distinct valid slices are disjoint, so a reset of one never touches another |
| Ledger.ResetKeepsSound | blueearth.py:95-102 | a reset keeps the invariant that a set slice flag implies all its fragment flags are set |
| Ledger.MissingAfterReset | blueearth.py:95-102 | after a reset the task list is the whole grid in loop order, zoom² cells |
| FragmentStream.Step | blueearth.py:76-85 | one pass of the `as_completed` loop; it carries no contract of its own, and `FragmentStream.RunEffect` states the effect of any number of passes |
| FragmentStream.StreamUpTo | blueearth.py:57-85 | the generator after its consumer has taken some downloads: it marks the slice at most once; with no task it marks the slice and yields nothing; otherwise it has yielded exactly the successful downloads taken in, in order, and counted each once |
| FragmentStream.RunEffect | blueearth.py:76-85 | after any run of downloads: the successes are yielded in arrival order, the count is their number, only their flags and possibly the slice flag turn true, and the slice flag is marked at most once |
| FragmentStream.WrittenBeforeYield | blueearth.py:77-85 | a success's flag is already true when its cell is yielded; a failure changes neither the ledger nor the output |
| FragmentStream.TakenInFlagged | blueearth.py:76-85 | once the generator has taken in a successful download, that cell's flag and the flags of every cell yielded before it are set |
| FragmentStream.FetchedAreTasks | blueearth.py:61-79 | every fetched cell was a task: a grid cell whose flag was unset |
| FragmentStream.DownloadsDistinct | blueearth.py:61-77 | when results arrive in completion order, no cell arrives twice |
| FragmentStream.StreamFrame | blueearth.py:63-83 | the stream changes no key outside the slice's own keys, and never turns a flag from true to false |
| FragmentStream.StreamCompletion | blueearth.py:66-83 | the slice flag is marked exactly when the stream is consumed to the end and every task succeeded; a slice flag it sets comes with all zoom² fragment flags set |
| FragmentStream.StreamKeepsSound | blueearth.py:57-85 | the stream, however far it is consumed, keeps the ledger sound |
| Mosaic.TileInsideCanvas | blueearth.py:107-109 | a tile pasted for a grid cell at `(col*unit, row*unit)` lies within the `(zoom*unit)²` canvas |
| Mosaic.TilesPartitionCanvas | blueearth.py:137-138 | a pixel lies in a cell's square exactly when that cell is the pixel's quotient by `unit`, and every canvas pixel belongs to a grid cell |
| Mosaic.TilesDisjoint | blueearth.py:137-138 | squares of distinct cells share no pixel |
| Mosaic.PasteAllIsComposite | blueearth.py:136-138 | pasting in arrival order gives the canvas whose pixels show the tile of their cell if that cell was pasted, else the background |
| Mosaic.PasteOrderIrrelevant | blueearth.py:136-138 | two arrival orders of the same set of fragments give the same mosaic |
| Compositor.Stitch | blueearth.py:106-150 | the job returns early exactly when the file exists and the slice flag is set; a save happens only with a bound canvas and leaves the file in place; a failed save leaves no file and the slice flag unset |
| Compositor.StitchRaises | blueearth.py:136-138 | when the loop raises on a download, the error names that cell and says whether its bytes failed to decode or no canvas was bound; the ledger is the generator's after that download, and only the fragments yielded before it are pasted |
| Compositor.Finish | blueearth.py:140-148 | `tail_process` saves exactly when a canvas is bound and the save succeeds, keeping the ledger and the file; otherwise no file remains and the slice's flags read false; keys outside the slice are untouched either way |
| Compositor.RaiseLosesPastedTiles | blueearth.py:76-150 | when a job on an opened mosaic raises, the cells pasted so far and the one it raised on keep their flags set while the file stays as it was, so a later run over that file requests none of them |
| Compositor.ShortCircuitIff | blueearth.py:118-123 | a job that returns early (file present, slice flag set) requests nothing, leaves the ledger unchanged and keeps the file |
| Compositor.RebuildFetchesWholeGrid | blueearth.py:118-136 | a missing mosaic file, or one that fails to open while the slice is not marked, makes the job request every one of the zoom² cells |
| Compositor.SaveFailureResetsSlice | blueearth.py:140-148 | when the save fails, there is no file, the slice flag and every fragment flag of the slice read false, every other key reads as after the whole stream, and the next task list is the whole grid |
| Compositor.PastedAreRequested | blueearth.py:136-138 | the cells requested are the task list, and every pasted cell is a requested grid cell |
| Compositor.StitchFrame | blueearth.py:106-150 | a job changes no key outside its own slice's keys |
| Compositor.StitchKeepsSound | blueearth.py:106-150 | every ending of a job leaves the ledger sound |
| Compositor.CleanRunCompletes | blueearth.py:125-148 | with a canvas (no file, or one that opens) and a save that succeeds, when every task downloads and decodes, the job saves the mosaic, every fragment flag and the slice flag are set, the slice flag is written once, and exactly the requested cells are pasted |
| Compositor.FullSuccessStream | blueearth.py:66-85 | a stream over an unmarked slice in which every download succeeds marks the slice once, sets every fragment flag, and yields exactly the tasks |
| Compositor.SecondRunIsNoOp | blueearth.py:118-123 | rerunning a slice that completed and saved fetches nothing and changes nothing |
| Compositor.FailedDownloadsRetriedNextRun | blueearth.py:44-150 | with a canvas (no file, or one that opens), a save that succeeds and every fetched fragment decoding, when some downloads fail, the rest are pasted and saved, the slice flag stays unset, and the cells left missing in the ledger are exactly the failed ones; a next run whose file exists and opens requests exactly those cells |
| Compositor.NextRunRequests | blueearth.py:118-136 | a run over a mosaic file that exists and opens requests nothing when the slice flag is set, and otherwise exactly the cells the ledger has missing |
| Compositor.PartialFailureStream | blueearth.py:61-85 | a stream over an unmarked slice in which some download fails leaves the slice flag unset, yields the successes, and leaves missing exactly the failed cells |
| Compositor.WrittenIffFetched | blueearth.py:78-79 | a fragment flag is among those the stream writes exactly when its cell was fetched |
| Compositor.FailedCellIsMissing | blueearth.py:61-85 | after the whole stream, a cell is still missing exactly when its download failed |
| Compositor.TaskIffDownloaded | blueearth.py:61-77 | when results arrive in completion order, a cell is a task exactly when some download is for it |
| Compositor.AllFetchedMarksSlice | blueearth.py:79-83 | when every task succeeds the stream marks the slice, and the last cell to arrive was not yielded before |
| Compositor.UndecodableLastFragmentNeverRetried | blueearth.py:79-137 | on an opened mosaic, when every download arrives and only the last one's bytes do not decode, the job raises with that tile unpasted, yet the slice stays marked and the file stays, so the next run short-circuits |
| Compositor.LastFragmentCrash | blueearth.py:125-138 | when only the last fragment is fatal, the loop takes in every download and the job raises on that last cell, with the file still there |
| Orchestrator.SliceWindow | blueearth.py:175-179 | the window has 145 instants, `latest - 24h + 10k` minutes for k = 0..144, strictly ascending from `latest - 24h` to `latest`; an instant is in it exactly when it lies in that range on the 10-minute grid |
| Orchestrator.LatestInstant | blueearth.py:158-163 | an absent or empty date raises `ValueError`; otherwise the result is what the date parser gives, or its failure |
| Orchestrator.PlanRun | blueearth.py:174-177 | the run fails exactly when the date check fails, and otherwise plans 145 slices, the k-th at `latest - 24h + 10k` minutes, ending at the latest instant |
| Orchestrator.RunAll | blueearth.py:176-179 | the slices run one after another and a job that raises stops the later ones; it carries no contract of its own, and the two lemmas below state what a whole run keeps |
| Orchestrator.RunAllKeepsSound | blueearth.py:176-179 | running the slices one after another, up to a job that raises, keeps the ledger sound |
| Orchestrator.RunAllFrame | blueearth.py:176-179 | a key that belongs to none of the slices run reads as before |
| SignIn.ParseItem | zhenbaimeng.py:39 | an item parses exactly when it contains `=`; the key is the text before the first `=` and the value is all the rest |
| SignIn.ParseItems | zhenbaimeng.py:38-41 | the items parse exactly when each does, giving one pair per item in order |
| SignIn.ToDict | zhenbaimeng.py:38-41 | the dictionary's keys are exactly the keys of the pairs |
| SignIn.ParseCookies | zhenbaimeng.py:38-41 | the dict comprehension over `cookies.split("; ")` raises exactly when some item has no `=` |
| SignIn.LaterDuplicateWins | zhenbaimeng.py:38-41 | a key is present exactly when some pair holds it, and it maps to the value of the last pair holding it |
| SignIn.CookieParseFails | zhenbaimeng.py:39-40 | parsing raises exactly when some `"; "`-separated item has no `=`; the empty header raises |
| SignIn.CookieEntries | zhenbaimeng.py:38-41 | each key of a parsed header comes from an item `key=value` for its value, and every item `k=v` with no `=` in `k` puts `k` in the dictionary |
| SignIn.CookieRoundTrip | zhenbaimeng.py:38-41 | rendering pairs as `k=v; k=v` and parsing gives their dictionary when keys hold no `=` or `;` and values no `;` |
| SignIn.Sign | zhenbaimeng.py:26-34 | code 1 or -1 (as Python compares, `True` and `1.0` included) gives the response's `msg`; any other code gives the failure text plus the response; a non-object response, a missing `code`, or a missing `msg` for a known code raises |
| SignIn.ReportIsMessage | zhenbaimeng.py:58-60 | the report is `msg + "\n\n"` exactly when `sign` gives the string `msg`, and it raises when the message is not a string |
| SignIn.SignAndReport | zhenbaimeng.py:58-60 | a report always ends in a blank line, and there is none only when `sign` raises or gives a message that is not a string |
| SignIn.OtherCodeReportsFailure | zhenbaimeng.py:32-33 | a code other than 1 and -1 always reports the failure text followed by a blank line |
| SignIn.SleepTime | zhenbaimeng.py:67-68 | no delay in debug mode, otherwise a delay in [0, 300] seconds |
| SignIn.EveryDelayPossible | zhenbaimeng.py:68 | every delay from 0 to 300 seconds can be drawn |
| CommitSummary.GetCommits | summary.py:34-54 | pages 1, 2, … are requested in order, at most 5; all pages before the last requested one answered 200 with commits; the result is an error exactly when the last one did not answer 200, otherwise the concatenation of the pages requested; fewer than 5 pages means the last one was empty |
| CommitSummary.CollectFrom | summary.py:34-54 | once the pages before `n` answered with commits and page `n` ends the loop, the page-by-page collection gives page `n`'s error or the concatenation of pages 1 to `n` |
| CommitSummary.Window | summary.py:30-32 | `since` is a UTC midnight `DAYS_AGO` days before the day of `now`, and `until` is one day later |
| CommitSummary.WindowIsThatDay | summary.py:31 | that midnight is the only one at most a day before `now` |
| CommitSummary.ShortSha | summary.py:105 | `sha[:7]` is the first `min(7, len(sha))` characters |
| CommitSummary.FirstLine | summary.py:106 | the first line is a prefix of the message without a line break, followed in the message by a line break or by nothing |
| CommitSummary.FormatLine | summary.py:104-108 | a commit's line holds no line break when its hash and link hold none, so each commit gives one line of the report |
| CommitSummary.FormatLines | summary.py:104-108 | one line per commit, in commit order, each the commit's formatted line |
| CommitSummary.FormatLineShape | summary.py:105-106 | a line is `- [sha7](url) ` followed by the message's first line |
| CommitSummary.OneLinePerCommit | summary.py:104-108 | the lines joined by `"\n"` read back as exactly one line per commit, in commit order, when hashes and links hold no line break |
| CommitSummary.RunSummary | summary.py:90-108 | a missing or empty API key returns before any page is requested; no commits returns before formatting; a failed page ends in the printed error; otherwise one line per commit is handed on |

## Left out

- HTTP: the client, `safe_urlopen` and its retry and rate-limit decorators,
  and the URL template. Each download is a success or failure outcome, and
  the decorators are not defined in utils.py.
- asyncio: the `TaskGroup`, the `as_completed` order, `to_thread` and the
  concurrency caps. Downloads arrive in an arbitrary permutation. Slices
  run one after another, and a job that raises stops the later ones. The
  cancellation of jobs already running is not modelled.
- The background save is treated as awaited before the next slice starts.
- Mosaic.Paste: a decoded fragment is assumed to be exactly `png_unit_size`
  pixels square, so each paste covers its own cell's square. Pillow pastes
  the whole image, so a larger fragment would overlap its neighbours and
  paste order would matter. `Mosaic.TilesDisjoint`,
  `Mosaic.PasteAllIsComposite` and `Mosaic.PasteOrderIrrelevant` hold
  under this assumption.
- Pillow: decoding, encoding and pixel values. A canvas is a map from pixel
  to an abstract colour; a fragment either decodes or not.
- `tqdm` and its local-shadowing quirk, logging, and `get_coastline`, which
  is an unused stub.
- Calendar arithmetic, `strptime` and `strftime`. A slice's fields are a
  record, and the window works on whole minutes. A parser is a parameter.
- Naming.DirName: renders `%Y` as the plain decimal of the year. For years
  below 1000 the zero padding of strftime depends on the platform, which
  is not modelled.
- The zoom level is a natural number, so a negative zoom from the
  configuration is not modelled. Zoom 0 is: the grid is empty, so the slice is
  marked at once and the job goes on to save the empty canvas.
- SignIn.Sign: `str(res)` is a parameter, not Python's repr of the response.
- SignIn: dictionary insertion order is not modelled (a Dafny map).
- SignIn: the header values set on the session and the HTTP call are not
  modelled.
- SignIn.SleepTime: `random.randint` is a draw given as a parameter, and
  `time.sleep` and `print` are not modelled.
- CommitSummary: commit objects missing `sha`, `html_url` or
  `commit.message` are not modelled; such a commit raises `KeyError`,
  which `main` catches and prints.
- CommitSummary: the `isoformat` text of the window, the request
  parameters and the token header are not modelled.
- CommitSummary.RunSummary: stops where the OpenAI call starts. The call, its
  errors, printing and the summary file are not modelled.
- Configuration loading (`utils.load_config`, `utils.load_kvdb`).
- SignIn.Sign: a JSON `code` with a fraction is compared with 1 and -1 as an
  exact number. The rounding of Python's float parsing is not modelled: a
  code written `1.0000000000000001` reads as `1.0` in Python, so it is taken
  as 1 there and not here.
