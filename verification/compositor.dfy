/** `stitching` of blueearth.py for one slice: the resume check, the
    short-circuit, the canvas, the fragment loop and the background save,
    reduced to their effect on the ledger and on the mosaic file.  File
    system answers and download results are inputs. */
module Compositor {
  import opened Results
  import opened Naming
  import opened Ledger
  import opened FragmentStream

  /** What the environment answers while one slice is stitched. */
  datatype SliceRun = SliceRun(
    stamp: Stamp,
    fileExists: bool,          // `file_path.exists()` when the job starts
    opens: bool,               // `Image.open(file_path)` succeeds, if the file exists
    downloads: seq<Download>,  // the finished download tasks, in completion order
    saves: bool)               // `target.save(...)` succeeds, if it is reached

  /** Why an exception escaped the fragment loop. */
  datatype Fault =
    | UndecodableFragment      // `Image.open(img_bytes)` raised
    | NoCanvas                 // `target` was never assigned (the mosaic file did not open)

  datatype Ending =
    | ShortCircuited           // the slice flag was set: returned before any fetch
    | Saved                    // the background save wrote the mosaic
    | SaveFailed               // the background save raised and reset the slice
    | Raised(cell: Cell, fault: Fault)  // the job died while handling this fragment

  /** The job's outcome: final ledger, how it ended, the cells it asked the
      server for, the fragments pasted (in order), whether the mosaic file
      exists afterwards, and how often the slice flag was written true. */
  datatype Job = Job(db: Db, ending: Ending, requested: seq<Cell>, pasted: seq<Cell>,
                     fileExists: bool, sliceMarks: nat)

  /** The ledger after the resume check (`turncated_img` when the file is
      missing). */
  function Checked(db: Db, zoom: nat, run: SliceRun): Db {
    var s := SliceOf(zoom, run.stamp);
    if run.fileExists then db else Reset(db, s)
  }

  predicate ShortCircuits(db: Db, zoom: nat, run: SliceRun) {
    Get(Checked(db, zoom, run), SliceKey(SliceOf(zoom, run.stamp)))
  }

  /** Whether a canvas is bound to `target`: a new one when there was no
      file, the opened file otherwise. */
  predicate HasCanvas(run: SliceRun) {
    !run.fileExists || run.opens
  }

  /** The ledger `get_fragments` reads its task list from: after a failed
      open, `turncated_img` has reset the slice once more. */
  function StreamStart(db: Db, zoom: nat, run: SliceRun): Db {
    var s := SliceOf(zoom, run.stamp);
    var db1 := Checked(db, zoom, run);
    if HasCanvas(run) then db1 else Reset(db1, s)
  }

  /** The cells the job downloads. */
  function Tasks(db: Db, zoom: nat, run: SliceRun): seq<Cell> {
    if ShortCircuits(db, zoom, run) then []
    else Missing(StreamStart(db, zoom, run), SliceOf(zoom, run.stamp))
  }

  /** The downloads of the job are its tasks, each finishing once. */
  predicate WellOrdered(db: Db, zoom: nat, run: SliceRun) {
    multiset(Cells(run.downloads)) == multiset(Tasks(db, zoom, run))
  }

  /** A fragment the loop body cannot handle. */
  predicate Fatal(d: Download, canvas: bool) {
    d.fetched && (!d.decodes || !canvas)
  }

  /** The first fatal download, if any. */
  function FirstFatal(ds: seq<Download>, canvas: bool): (r: Option<nat>)
    ensures r.Some? ==> r.value < |ds| && Fatal(ds[r.value], canvas)
    ensures r.Some? ==> forall j :: 0 <= j < r.value ==> !Fatal(ds[j], canvas)
    ensures r.None? ==> forall j :: 0 <= j < |ds| ==> !Fatal(ds[j], canvas)
    decreases |ds|
  {
    if |ds| == 0 then None
    else if Fatal(ds[0], canvas) then Some(0)
    else match FirstFatal(ds[1..], canvas)
      case None => None
      case Some(i) => Some(i + 1)
  }

  /** `tail_process`: save the canvas, or reset the slice if that raises
      (which it does when no canvas was ever bound). */
  function Finish(st: State, s: Slice, canvas: bool, saves: bool, requested: seq<Cell>): (j: Job)
    ensures j.ending == Saved <==> canvas && saves
    ensures j.ending == Saved ==> j.fileExists && j.db == st.db
    ensures j.ending != Saved ==> j.ending == SaveFailed && !j.fileExists
    ensures j.ending == SaveFailed ==> !Get(j.db, SliceKey(s)) && forall c :: InGrid(s.zoom, c) ==> !Get(j.db, FragmentKey(s, c))
    ensures forall k :: k !in Footprint(s) ==> Get(j.db, k) == Get(st.db, k)
    ensures j.pasted == st.yielded && j.requested == requested
  {
    if canvas && saves then Job(st.db, Saved, requested, st.yielded, true, st.sliceMarks)
    else Job(Reset(st.db, s), SaveFailed, requested, st.yielded, false, st.sliceMarks)
  }

  /** The position of the download during which the fragment loop raises,
      if it does.  With no task the generator returns before any download. */
  function Crash(db: Db, zoom: nat, run: SliceRun): (r: Option<nat>)
    ensures r.Some? ==> r.value < |run.downloads|
  {
    var s := SliceOf(zoom, run.stamp);
    if |Missing(StreamStart(db, zoom, run), s)| > 0 then FirstFatal(run.downloads, HasCanvas(run)) else None
  }

  /** How many finished downloads the fragment loop takes in. */
  function Consumed(db: Db, zoom: nat, run: SliceRun): (n: nat)
    ensures n <= |run.downloads|
  {
    match Crash(db, zoom, run)
    case Some(i) => i + 1
    case None => |run.downloads|
  }

  /** The generator's state when the fragment loop stops. */
  function AfterLoop(db: Db, zoom: nat, run: SliceRun): State {
    StreamUpTo(StreamStart(db, zoom, run), SliceOf(zoom, run.stamp), run.downloads, Consumed(db, zoom, run))
  }

  /** `stitching(dt, zoom_level, save_path, tg)` with its background save
      awaited. */
  function Stitch(db: Db, zoom: nat, run: SliceRun): (j: Job)
    ensures j.ending == ShortCircuited <==> run.fileExists && Get(db, SliceKey(SliceOf(zoom, run.stamp)))
    ensures j.ending == Saved ==> j.fileExists && HasCanvas(run) && run.saves
    ensures j.ending == SaveFailed ==> !j.fileExists && !Get(j.db, SliceKey(SliceOf(zoom, run.stamp)))
  {
    var s := SliceOf(zoom, run.stamp);
    if ShortCircuits(db, zoom, run) then
      Job(Checked(db, zoom, run), ShortCircuited, [], [], run.fileExists, 0)
    else
      var start := StreamStart(db, zoom, run);
      var requested := Missing(start, s);
      var st := AfterLoop(db, zoom, run);
      match Crash(db, zoom, run)
      case Some(i) =>
        var d := run.downloads[i];
        var fault := if !d.decodes then UndecodableFragment else NoCanvas;
        Job(st.db, Raised(d.cell, fault), requested, StreamUpTo(start, s, run.downloads, i).yielded,
            run.fileExists && run.opens, st.sliceMarks)
      case None =>
        Finish(st, s, HasCanvas(run), run.saves, requested)
  }

  // ---------------------------------------------------------------------
  // Properties

  /** A job that returns early (the file exists and the slice flag is set)
      fetches nothing, changes nothing and keeps the file. */
  lemma {:induction false} ShortCircuitIff(db: Db, zoom: nat, run: SliceRun)
    ensures var j := Stitch(db, zoom, run);
            j.ending == ShortCircuited ==> j.db == db && j.requested == [] && j.fileExists
  {
  }

  /** A missing or unreadable mosaic file makes the job download the whole
      grid, every one of the zoom² cells, whatever the ledger said. */
  lemma {:induction false} RebuildFetchesWholeGrid(db: Db, zoom: nat, run: SliceRun)
    requires !run.fileExists || (!run.opens && !Get(db, SliceKey(SliceOf(zoom, run.stamp))))
    ensures Stitch(db, zoom, run).requested == Grid(zoom)
    ensures |Stitch(db, zoom, run).requested| == zoom * zoom
  {
    var s := SliceOf(zoom, run.stamp);
    assert !ShortCircuits(db, zoom, run);
    if run.fileExists {
      MissingAfterReset(Checked(db, zoom, run), s);
    } else {
      MissingAfterReset(db, s);
    }
  }

  /** The ledger the job leaves behind: the generator's, reset again when
      the background save raised. */
  lemma {:induction false} StitchLedger(db: Db, zoom: nat, run: SliceRun)
    requires !ShortCircuits(db, zoom, run)
    ensures var j := Stitch(db, zoom, run);
            var st := AfterLoop(db, zoom, run);
            j.db == if j.ending == SaveFailed then Reset(st.db, SliceOf(zoom, run.stamp)) else st.db
  {
  }

  /** A job whose fragment loop ran to the end but whose save failed (or
      had no canvas to save) leaves no file and a reset slice: its flags
      read false, every other key reads as after the whole stream, and the
      next run must fetch the whole grid. */
  lemma {:induction false} SaveFailureResetsSlice(db: Db, zoom: nat, run: SliceRun)
    requires Stitch(db, zoom, run).ending == SaveFailed
    ensures var j := Stitch(db, zoom, run);
            var s := SliceOf(zoom, run.stamp);
            && !j.fileExists
            && !Get(j.db, SliceKey(s))
            && (forall c :: InGrid(zoom, c) ==> !Get(j.db, FragmentKey(s, c)))
            && (forall k :: k !in Footprint(s) ==> Get(j.db, k) == Get(Stream(StreamStart(db, zoom, run), s, run.downloads).db, k))
            && Missing(j.db, s) == Grid(zoom)
  {
    var s := SliceOf(zoom, run.stamp);
    var st := AfterLoop(db, zoom, run);
    assert Crash(db, zoom, run).None?;
    assert run.downloads[..|run.downloads|] == run.downloads;
    assert Stitch(db, zoom, run).db == Reset(st.db, s);
    MissingAfterReset(st.db, s);
  }

  /** The cells asked for are the task list; the cells pasted are
      successful downloads among them, so each lies on the grid. */
  lemma {:induction false} PastedAreRequested(db: Db, zoom: nat, run: SliceRun)
    requires WellOrdered(db, zoom, run)
    ensures var j := Stitch(db, zoom, run);
            && j.requested == Tasks(db, zoom, run)
            && (forall c :: c in j.pasted ==> c in j.requested && InGrid(zoom, c))
  {
    var j := Stitch(db, zoom, run);
    var s := SliceOf(zoom, run.stamp);
    if !ShortCircuits(db, zoom, run) {
      var start := StreamStart(db, zoom, run);
      var ds := run.downloads;
      assert CompletionOrder(start, s, ds);
      var n := match Crash(db, zoom, run) case Some(i) => i case None => |ds|;
      assert j.pasted == StreamUpTo(start, s, ds, n).yielded;
      forall c | c in j.pasted
        ensures c in j.requested && InGrid(zoom, c)
      {
        FetchedAreTasks(start, s, ds, n, c);
      }
    }
  }

  /** Stitching one slice touches no ledger key of any other slice: slices
      can run concurrently without sharing a flag. */
  lemma {:induction false} StitchFrame(db: Db, zoom: nat, run: SliceRun)
    requires WellOrdered(db, zoom, run)
    ensures var s := SliceOf(zoom, run.stamp);
            forall k :: k !in Footprint(s) ==> Get(Stitch(db, zoom, run).db, k) == Get(db, k)
  {
    var s := SliceOf(zoom, run.stamp);
    if !ShortCircuits(db, zoom, run) {
      var start := StreamStart(db, zoom, run);
      var ds := run.downloads;
      assert CompletionOrder(start, s, ds);
      assert forall k :: k !in Footprint(s) ==> Get(start, k) == Get(db, k);
      StreamFrame(start, s, ds, Consumed(db, zoom, run));
      StitchLedger(db, zoom, run);
    }
  }

  /** Every way the job can end keeps the ledger sound: no slice flag is
      left set over an unset fragment flag. */
  lemma {:induction false} StitchKeepsSound(db: Db, zoom: nat, run: SliceRun)
    requires run.stamp.Valid() && Sound(db)
    requires WellOrdered(db, zoom, run)
    ensures Sound(Stitch(db, zoom, run).db)
  {
    var s := SliceOf(zoom, run.stamp);
    var db1 := Checked(db, zoom, run);
    if !run.fileExists {
      ResetKeepsSound(db, s);
    }
    if !ShortCircuits(db, zoom, run) {
      var start := StreamStart(db, zoom, run);
      if !HasCanvas(run) {
        ResetKeepsSound(db1, s);
      }
      assert Sound(start);
      var ds := run.downloads;
      assert CompletionOrder(start, s, ds);
      StreamKeepsSound(start, s, ds, Consumed(db, zoom, run));
      var st := AfterLoop(db, zoom, run);
      ResetKeepsSound(st.db, s);
      StitchLedger(db, zoom, run);
    }
  }

  /** With a canvas and every fragment decodable nothing is fatal: the
      loop takes in every download and the job ends in the save. */
  lemma {:induction false} CleanLoop(db: Db, zoom: nat, run: SliceRun)
    requires !ShortCircuits(db, zoom, run) && HasCanvas(run)
    requires forall i :: 0 <= i < |run.downloads| ==> run.downloads[i].decodes
    ensures var s := SliceOf(zoom, run.stamp);
            var start := StreamStart(db, zoom, run);
            Stitch(db, zoom, run) == Finish(Stream(start, s, run.downloads), s, true, run.saves, Missing(start, s))
  {
    assert FirstFatal(run.downloads, true).None?;
    assert Crash(db, zoom, run).None?;
  }

  /** The whole stream of a slice with tasks leaves its flag set exactly
      when it was set before or every download succeeded. */
  lemma {:induction false} StreamMarksSlice(db: Db, s: Slice, ds: seq<Download>)
    requires CompletionOrder(db, s, ds) && |Missing(db, s)| > 0
    ensures Get(Stream(db, s, ds).db, SliceKey(s)) <==> Get(db, SliceKey(s)) || |FetchedCells(ds)| == |ds|
  {
    DownloadCount(db, s, ds);
    StreamDb(db, s, ds, |ds|);
    assert ds[..|ds|] == ds;
    SliceKeyWritten(s, |ds|, 0, ds);
  }

  /** A slice whose tasks all download and decode, with a canvas and a
      working save, ends saved with every flag set, the slice flag written
      exactly once, and every requested fragment pasted. */
  lemma {:induction false} CleanRunCompletes(db: Db, zoom: nat, run: SliceRun)
    requires WellOrdered(db, zoom, run)
    requires !ShortCircuits(db, zoom, run)
    requires HasCanvas(run) && run.saves
    requires forall i :: 0 <= i < |run.downloads| ==> run.downloads[i].fetched && run.downloads[i].decodes
    ensures var j := Stitch(db, zoom, run);
            var s := SliceOf(zoom, run.stamp);
            && j.ending == Saved && j.fileExists
            && Get(j.db, SliceKey(s)) && AllFetched(j.db, s)
            && j.sliceMarks == 1
            && j.pasted == FetchedCells(run.downloads)
            && (forall c :: c in j.requested <==> c in j.pasted)
  {
    var s := SliceOf(zoom, run.stamp);
    var start := StreamStart(db, zoom, run);
    assert CompletionOrder(start, s, run.downloads);
    assert !Get(start, SliceKey(s));
    CleanLoop(db, zoom, run);
    FullSuccessStream(start, s, run.downloads);
  }

  /** The stream of a slice whose flag is unset, when every download
      succeeds: it marks the slice once, sets every fragment flag, and
      yields exactly the tasks. */
  lemma {:induction false} FullSuccessStream(db: Db, s: Slice, ds: seq<Download>)
    requires CompletionOrder(db, s, ds) && !Get(db, SliceKey(s))
    requires forall i :: 0 <= i < |ds| ==> ds[i].fetched
    ensures var r := Stream(db, s, ds);
            && Get(r.db, SliceKey(s)) && AllFetched(r.db, s)
            && r.sliceMarks == 1
            && r.yielded == FetchedCells(ds)
            && (forall c :: c in Missing(db, s) <==> c in r.yielded)
  {
    DownloadCount(db, s, ds);
    StreamMarks(db, s, ds, |ds|);
    assert ds[..|ds|] == ds;
    if |Missing(db, s)| > 0 {
      StreamMarksSlice(db, s, ds);
    }
    NewMarkMeansAllFetched(db, s, ds, |ds|);
    forall c
      ensures c in Missing(db, s) <==> c in FetchedCells(ds)
    {
      if c in Missing(db, s) {
        assert c in multiset(Cells(ds));
        var i :| 0 <= i < |ds| && Cells(ds)[i] == c;
      }
      if c in FetchedCells(ds) {
        FetchedAreTasks(db, s, ds, |ds|, c);
      }
    }
  }

  /** Running the same slice again after a saved, completed run fetches
      nothing and changes nothing. */
  lemma {:induction false} SecondRunIsNoOp(db: Db, zoom: nat, run: SliceRun, again: SliceRun)
    requires WellOrdered(db, zoom, run)
    requires !ShortCircuits(db, zoom, run)
    requires HasCanvas(run) && run.saves
    requires forall i :: 0 <= i < |run.downloads| ==> run.downloads[i].fetched && run.downloads[i].decodes
    requires again.stamp == run.stamp
    requires again.fileExists == Stitch(db, zoom, run).fileExists
    ensures var first := Stitch(db, zoom, run);
            var second := Stitch(first.db, zoom, again);
            second.ending == ShortCircuited && second.requested == [] && second.db == first.db
  {
    CleanRunCompletes(db, zoom, run);
  }

  /** With a canvas, a working save and every fetched fragment decoding,
      downloads that fail leave the slice flag unset while the rest are
      pasted and saved; the cells left missing are exactly those that
      failed, and a next run whose file exists and opens requests exactly
      them. */
  lemma {:induction false} FailedDownloadsRetriedNextRun(db: Db, zoom: nat, run: SliceRun, again: SliceRun)
    requires run.stamp.Valid()
    requires WellOrdered(db, zoom, run)
    requires !ShortCircuits(db, zoom, run)
    requires HasCanvas(run) && run.saves
    requires forall i :: 0 <= i < |run.downloads| ==> run.downloads[i].decodes
    requires exists i :: 0 <= i < |run.downloads| && !run.downloads[i].fetched
    ensures var j := Stitch(db, zoom, run);
            var s := SliceOf(zoom, run.stamp);
            && j.ending == Saved && j.fileExists
            && !Get(j.db, SliceKey(s))
            && j.pasted == FetchedCells(run.downloads)
            && forall c :: c in Missing(j.db, s)
                 <==> exists i :: 0 <= i < |run.downloads| && run.downloads[i].cell == c && !run.downloads[i].fetched
    ensures var j := Stitch(db, zoom, run);
            again.stamp == run.stamp && again.fileExists && again.opens
            ==> Stitch(j.db, zoom, again).requested == Missing(j.db, SliceOf(zoom, run.stamp))
  {
    var s := SliceOf(zoom, run.stamp);
    var start := StreamStart(db, zoom, run);
    var ds := run.downloads;
    assert CompletionOrder(start, s, ds);
    assert !Get(start, SliceKey(s));
    CleanLoop(db, zoom, run);
    PartialFailureStream(start, s, ds);
    if again.stamp == run.stamp && again.fileExists && again.opens {
      NextRunRequests(Stitch(db, zoom, run).db, zoom, again);
    }
  }

  /** A run over a mosaic file that exists and opens requests exactly the
      cells the ledger says are missing, unless the slice flag is set. */
  lemma {:induction false} NextRunRequests(db: Db, zoom: nat, run: SliceRun)
    requires run.fileExists && run.opens
    ensures var s := SliceOf(zoom, run.stamp);
            Stitch(db, zoom, run).requested == if Get(db, SliceKey(s)) then [] else Missing(db, s)
  {
  }

  /** The stream of a slice whose flag is unset, when some download
      fails: the flag stays unset, the successes are yielded, and the cells
      still missing are exactly the failed ones. */
  lemma {:induction false} PartialFailureStream(db: Db, s: Slice, ds: seq<Download>)
    requires s.Valid()
    requires CompletionOrder(db, s, ds) && !Get(db, SliceKey(s))
    requires exists i :: 0 <= i < |ds| && !ds[i].fetched
    ensures var r := Stream(db, s, ds);
            && !Get(r.db, SliceKey(s))
            && r.yielded == FetchedCells(ds)
            && forall c :: c in Missing(r.db, s) <==> exists i :: 0 <= i < |ds| && ds[i].cell == c && !ds[i].fetched
  {
    DownloadCount(db, s, ds);
    assert ds[..|ds|] == ds;
    StreamMarksSlice(db, s, ds);
    forall c
      ensures c in Missing(Stream(db, s, ds).db, s)
              <==> exists i :: 0 <= i < |ds| && ds[i].cell == c && !ds[i].fetched
    {
      FailedCellIsMissing(db, s, ds, c);
    }
  }

  /** Under completion order a fragment flag is among those the stream
      writes exactly when its cell was fetched. */
  lemma {:induction false} WrittenIffFetched(db: Db, s: Slice, ds: seq<Download>, c: Cell)
    requires s.Valid()
    ensures FragmentKey(s, c) in Written(s, |Missing(db, s)|, 0, ds) <==> c in FetchedCells(ds)
  {
    var key := FragmentKey(s, c);
    if key in Written(s, |Missing(db, s)|, 0, ds) {
      SliceKeyNotFragmentKey(s, s, c);
      var e :| e in FetchedCells(ds) && key == FragmentKey(s, e);
      FragmentKeyInjective(s, c, s, e);
    }
  }

  /** After the whole stream, a grid cell is still missing exactly when its
      download failed. */
  lemma {:induction false} FailedCellIsMissing(db: Db, s: Slice, ds: seq<Download>, c: Cell)
    requires s.Valid()
    requires CompletionOrder(db, s, ds) && |Missing(db, s)| > 0
    ensures c in Missing(Stream(db, s, ds).db, s)
            <==> exists i :: 0 <= i < |ds| && ds[i].cell == c && !ds[i].fetched
  {
    StreamDb(db, s, ds, |ds|);
    assert ds[..|ds|] == ds;
    var r := Stream(db, s, ds).db;
    WrittenIffFetched(db, s, ds, c);
    assert c in Missing(r, s) <==> c in Missing(db, s) && c !in FetchedCells(ds);
    TaskIffDownloaded(db, s, ds, c);
    DownloadsDistinct(db, s, ds);
  }

  /** Under completion order a cell is a task exactly when some download
      is for it. */
  lemma {:induction false} TaskIffDownloaded(db: Db, s: Slice, ds: seq<Download>, c: Cell)
    requires CompletionOrder(db, s, ds)
    ensures c in Missing(db, s) <==> exists i :: 0 <= i < |ds| && ds[i].cell == c
  {
    if c in Missing(db, s) {
      assert c in multiset(Missing(db, s));
      var i :| 0 <= i < |ds| && Cells(ds)[i] == c;
    }
    if exists i :: 0 <= i < |ds| && ds[i].cell == c {
      var i :| 0 <= i < |ds| && ds[i].cell == c;
      assert Cells(ds)[i] == c;
      assert c in multiset(Cells(ds));
    }
  }

  /** When every task succeeds, the whole stream marks the slice, and the
      last cell to arrive was not among those yielded before it. */
  lemma {:induction false} AllFetchedMarksSlice(db: Db, s: Slice, ds: seq<Download>)
    requires CompletionOrder(db, s, ds) && |ds| > 0
    requires forall i :: 0 <= i < |ds| ==> ds[i].fetched
    ensures Get(Stream(db, s, ds).db, SliceKey(s))
    ensures ds[|ds| - 1].cell !in StreamUpTo(db, s, ds, |ds| - 1).yielded
  {
    var n := |ds| - 1;
    DownloadCount(db, s, ds);
    StreamMarksSlice(db, s, ds);
    DownloadsDistinct(db, s, ds);
  }

  /** Flags are written before the consumer decodes the bytes: when the
      last task's fragment cannot be decoded, the job raises with that
      fragment unpasted, yet the slice is already marked complete and the
      mosaic file stays, so the next run returns without fetching it. */
  lemma {:induction false} UndecodableLastFragmentNeverRetried(db: Db, zoom: nat, run: SliceRun, again: SliceRun)
    requires WellOrdered(db, zoom, run)
    requires !ShortCircuits(db, zoom, run) && run.fileExists && run.opens
    requires |run.downloads| > 0
    requires forall i :: 0 <= i < |run.downloads| ==> run.downloads[i].fetched
    requires forall i :: 0 <= i < |run.downloads| - 1 ==> run.downloads[i].decodes
    requires !run.downloads[|run.downloads| - 1].decodes
    requires again.stamp == run.stamp && again.fileExists == Stitch(db, zoom, run).fileExists
    ensures var j := Stitch(db, zoom, run);
            var last := run.downloads[|run.downloads| - 1].cell;
            && j.ending == Raised(last, UndecodableFragment)
            && last !in j.pasted
            && j.fileExists
            && Get(j.db, SliceKey(SliceOf(zoom, run.stamp)))
            && Stitch(j.db, zoom, again).ending == ShortCircuited
  {
    var s := SliceOf(zoom, run.stamp);
    var start := StreamStart(db, zoom, run);
    var ds := run.downloads;
    LastFragmentCrash(db, zoom, run);
    AllFetchedMarksSlice(start, s, ds);
    assert ShortCircuits(Stitch(db, zoom, run).db, zoom, again);
  }

  /** A job whose loop raises on the download at position `i`: the
      ledger is the generator's after taking in that download, the canvas
      holds the fragments yielded before it, and the mosaic file is left as
      it was. */
  lemma {:induction false} StitchRaises(db: Db, zoom: nat, run: SliceRun, i: nat)
    requires !ShortCircuits(db, zoom, run) && Crash(db, zoom, run) == Some(i)
    ensures var s := SliceOf(zoom, run.stamp);
            var start := StreamStart(db, zoom, run);
            var d := run.downloads[i];
            var j := Stitch(db, zoom, run);
            && j.ending == Raised(d.cell, if d.decodes then NoCanvas else UndecodableFragment)
            && j.db == StreamUpTo(start, s, run.downloads, i + 1).db
            && j.pasted == StreamUpTo(start, s, run.downloads, i).yielded
            && j.fileExists == (run.fileExists && run.opens)
  {
    assert Consumed(db, zoom, run) == i + 1;
  }

  /** A job on an opened mosaic that raises loses what it took in: the
      flags of every fragment pasted so far, and of the one it raised on,
      are set, yet the canvas holding them is never saved, so a later run
      over the same file requests none of those cells. */
  lemma {:induction false} RaiseLosesPastedTiles(db: Db, zoom: nat, run: SliceRun, i: nat, again: SliceRun)
    requires !ShortCircuits(db, zoom, run) && run.fileExists && run.opens
    requires Crash(db, zoom, run) == Some(i)
    requires again.stamp == run.stamp && again.fileExists && again.opens
    ensures var j := Stitch(db, zoom, run);
            var s := SliceOf(zoom, run.stamp);
            var next := Stitch(j.db, zoom, again);
            && j.ending.Raised? && j.fileExists
            && forall c :: c in j.pasted || c == run.downloads[i].cell
                 ==> Get(j.db, FragmentKey(s, c)) && c !in next.requested
  {
    var s := SliceOf(zoom, run.stamp);
    var start := StreamStart(db, zoom, run);
    var ds := run.downloads;
    StitchRaises(db, zoom, run, i);
    assert |Missing(start, s)| > 0 && ds[i].fetched;
    TakenInFlagged(start, s, ds, i);
    NextRunRequests(Stitch(db, zoom, run).db, zoom, again);
  }

  /** When only the last fragment cannot be decoded, the loop takes in
      every download and raises on the last one. */
  lemma {:induction false} LastFragmentCrash(db: Db, zoom: nat, run: SliceRun)
    requires WellOrdered(db, zoom, run)
    requires !ShortCircuits(db, zoom, run) && run.fileExists && run.opens
    requires |run.downloads| > 0
    requires forall i :: 0 <= i < |run.downloads| - 1 ==> !Fatal(run.downloads[i], true)
    requires Fatal(run.downloads[|run.downloads| - 1], true)
    requires !run.downloads[|run.downloads| - 1].decodes
    ensures var s := SliceOf(zoom, run.stamp);
            var start := StreamStart(db, zoom, run);
            var ds := run.downloads;
            var j := Stitch(db, zoom, run);
            && j.ending == Raised(ds[|ds| - 1].cell, UndecodableFragment)
            && j.db == Stream(start, s, ds).db
            && j.pasted == StreamUpTo(start, s, ds, |ds| - 1).yielded
            && j.fileExists
  {
    var s := SliceOf(zoom, run.stamp);
    var start := StreamStart(db, zoom, run);
    var ds := run.downloads;
    assert |Missing(start, s)| > 0 by {
      assert CompletionOrder(start, s, ds);
      DownloadCount(start, s, ds);
    }
    assert FirstFatal(ds, true) == Some(|ds| - 1);
    StitchRaises(db, zoom, run, |ds| - 1);
  }
}
