/** `main` and `get_latest_fragments_info` of blueearth.py: the window of
    slices to (re)build, and the slices run one after another.  Instants are
    whole minutes on one time line; the server's date string is read by a
    parser given as a parameter. */
module Orchestrator {
  import opened Results
  import opened Naming
  import opened Ledger
  import opened FragmentStream
  import opened Compositor

  /** `timedelta(hours=24)` and `timedelta(minutes=10)`, in minutes. */
  const Lookback: int := 24 * 60
  const Step: int := 10

  /** Number of slices in a window: 24 hours at 10 minutes, both ends. */
  const WindowSize: nat := 145

  /** The `while dt <= latest_dt` loop of `main`: every instant from
      `latest - 24h` up to and including `latest`, 10 minutes apart. */
  method SliceWindow(latest: int) returns (slices: seq<int>)
    ensures |slices| == WindowSize
    ensures forall k :: 0 <= k < |slices| ==> slices[k] == latest - Lookback + Step * k
    ensures slices[0] == latest - Lookback && slices[|slices| - 1] == latest
    ensures forall i, j :: 0 <= i < j < |slices| ==> slices[i] < slices[j]
    ensures forall t :: t in slices <==> latest - Lookback <= t <= latest && (t - (latest - Lookback)) % Step == 0
  {
    var dt := latest - Lookback;
    slices := [];
    while dt <= latest
      invariant |slices| <= WindowSize
      invariant dt == latest - Lookback + Step * |slices|
      invariant forall k :: 0 <= k < |slices| ==> slices[k] == latest - Lookback + Step * k
      decreases latest - dt
    {
      slices := slices + [dt];
      dt := dt + Step;
    }
    forall t | latest - Lookback <= t <= latest && (t - (latest - Lookback)) % Step == 0
      ensures t in slices
    {
      var k := (t - (latest - Lookback)) / Step;
      assert slices[k] == t;
    }
  }

  /** `json_data.get("date", "")`, then `datetime.strptime`. */
  datatype DateError =
    | InvalidDate       // the field is absent or empty: `ValueError` raised by hand
    | Unparseable       // `strptime` rejects the text

  function LatestInstant(date: Option<string>, parse: string -> Option<int>): (r: Result<int, DateError>)
    ensures r == Err(InvalidDate) <==> date.None? || date == Some("")
    ensures r.Ok? <==> date.Some? && date.value != "" && parse(date.value).Some?
    ensures r.Ok? ==> r.value == parse(date.value).value
  {
    var text := if date.Some? then date.value else "";
    if text == "" then Err(InvalidDate)
    else match parse(text)
      case None => Err(Unparseable)
      case Some(t) => Ok(t)
  }

  /** `main` before any slice starts: the window, or the error that ends
      the run before anything is fetched. */
  method PlanRun(date: Option<string>, parse: string -> Option<int>) returns (r: Result<seq<int>, DateError>)
    ensures r.Err? <==> LatestInstant(date, parse).Err?
    ensures r.Err? ==> r.error == LatestInstant(date, parse).error
    ensures r.Ok? ==> |r.value| == WindowSize && r.value[|r.value| - 1] == LatestInstant(date, parse).value
    ensures r.Ok? ==> forall k :: 0 <= k < |r.value| ==> r.value[k] == LatestInstant(date, parse).value - Lookback + Step * k
  {
    var latest := LatestInstant(date, parse);
    if latest.Err? {
      return Err(latest.error);
    }
    var slices := SliceWindow(latest.value);
    return Ok(slices);
  }

  /** The slice jobs run one after another: an exception escaping a job
      ends the task group, so no later job runs. */
  function RunAll(db: Db, zoom: nat, runs: seq<SliceRun>): Db
    decreases |runs|
  {
    if |runs| == 0 then db
    else
      var j := Stitch(db, zoom, runs[0]);
      if j.ending.Raised? then j.db else RunAll(j.db, zoom, runs[1..])
  }

  /** Each job that runs downloads exactly its own task list. */
  predicate AllWellOrdered(db: Db, zoom: nat, runs: seq<SliceRun>)
    decreases |runs|
  {
    |runs| == 0
    || (var j := Stitch(db, zoom, runs[0]);
        WellOrdered(db, zoom, runs[0]) && (j.ending.Raised? || AllWellOrdered(j.db, zoom, runs[1..])))
  }

  /** A whole run, however each job ends, leaves a sound ledger. */
  lemma {:induction false} RunAllKeepsSound(db: Db, zoom: nat, runs: seq<SliceRun>)
    requires Sound(db) && AllWellOrdered(db, zoom, runs)
    requires forall i :: 0 <= i < |runs| ==> runs[i].stamp.Valid()
    ensures Sound(RunAll(db, zoom, runs))
    decreases |runs|
  {
    if |runs| > 0 {
      StitchKeepsSound(db, zoom, runs[0]);
      var j := Stitch(db, zoom, runs[0]);
      if !j.ending.Raised? {
        RunAllKeepsSound(j.db, zoom, runs[1..]);
      }
    }
  }

  /** A whole run touches only the keys of the slices it visits. */
  lemma {:induction false} RunAllFrame(db: Db, zoom: nat, runs: seq<SliceRun>, k: string)
    requires AllWellOrdered(db, zoom, runs)
    requires forall i :: 0 <= i < |runs| ==> k !in Footprint(SliceOf(zoom, runs[i].stamp))
    ensures Get(RunAll(db, zoom, runs), k) == Get(db, k)
    decreases |runs|
  {
    if |runs| > 0 {
      StitchFrame(db, zoom, runs[0]);
      var j := Stitch(db, zoom, runs[0]);
      if !j.ending.Raised? {
        RunAllFrame(j.db, zoom, runs[1..], k);
      }
    }
  }
}
