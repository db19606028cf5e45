/** `get_fragments` of blueearth.py: the stream of newly fetched fragments of
    one slice, and the ledger writes it makes on the way.  The concurrent
    downloads are replaced by the sequence of their results in completion
    order. */
module FragmentStream {
  import opened Naming
  import opened Ledger

  /** What one finished download task hands back: its cell, whether a body
      arrived (`img_bytes` is not None), and whether those bytes are a
      readable image, which only the consumer of the stream looks at. */
  datatype Download = Download(cell: Cell, fetched: bool, decodes: bool)

  /** The generator's locals between two results, plus what an observer
      sees: the cells yielded so far and how many times the slice flag was
      written true. */
  datatype State = State(db: Db, completed: nat, yielded: seq<Cell>, sliceMarks: nat)

  function Cells(ds: seq<Download>): (r: seq<Cell>)
    ensures |r| == |ds|
    ensures forall i :: 0 <= i < |ds| ==> r[i] == ds[i].cell
  {
    seq(|ds|, i requires 0 <= i < |ds| => ds[i].cell)
  }

  /** Downloads arrive in completion order: each task of the list built from
      `db` finishes exactly once. */
  predicate CompletionOrder(db: Db, s: Slice, ds: seq<Download>) {
    multiset(Cells(ds)) == multiset(Missing(db, s))
  }

  /** The cells of the successful downloads, in arrival order. */
  function FetchedCells(ds: seq<Download>): (r: seq<Cell>)
    ensures |r| <= |ds|
    ensures |r| == |ds| <==> forall i :: 0 <= i < |ds| ==> ds[i].fetched
    ensures forall c :: c in r <==> exists i :: 0 <= i < |ds| && ds[i].fetched && ds[i].cell == c
    decreases |ds|
  {
    if |ds| == 0 then []
    else
      var prefix := ds[..|ds| - 1];
      var last := ds[|ds| - 1];
      var r := FetchedCells(prefix) + (if last.fetched then [last.cell] else []);
      assert forall i :: 0 <= i < |prefix| ==> prefix[i] == ds[i];
      r
  }

  /** The flags a run of downloads writes true: the fragment flag of each
      success, and the slice flag if the count of successes reaches `total`. */
  function Written(s: Slice, total: nat, completed: nat, ds: seq<Download>): set<string> {
    FragmentKeys(s, FetchedCells(ds))
    + (if completed < total <= completed + |FetchedCells(ds)| then {SliceKey(s)} else {})
  }

  /** One iteration of the `as_completed` loop. */
  function Step(s: Slice, total: nat, st: State, d: Download): State {
    if !d.fetched then st
    else
      var db := st.db[FragmentKey(s, d.cell) := true];
      var n := st.completed + 1;
      if n == total then State(db[SliceKey(s) := true], n, st.yielded + [d.cell], st.sliceMarks + 1)
      else State(db, n, st.yielded + [d.cell], st.sliceMarks)
  }

  /** The loop after the downloads `ds` have arrived. */
  function Run(s: Slice, total: nat, st: State, ds: seq<Download>): State
    decreases |ds|
  {
    if |ds| == 0 then st
    else Step(s, total, Run(s, total, st, ds[..|ds| - 1]), ds[|ds| - 1])
  }

  /** The generator after its consumer has taken the first `n` downloads'
      worth of output.  With nothing missing it marks the slice and yields
      nothing; otherwise it counts successes against the number of tasks. */
  function StreamUpTo(db: Db, s: Slice, ds: seq<Download>, n: nat): (r: State)
    requires n <= |ds|
    ensures r.sliceMarks <= 1
    ensures |Missing(db, s)| == 0 ==> r.yielded == [] && Get(r.db, SliceKey(s))
    ensures |Missing(db, s)| > 0 ==> r.yielded == FetchedCells(ds[..n]) && r.completed == |r.yielded|
  {
    var total := |Missing(db, s)|;
    if total == 0 then State(db[SliceKey(s) := true], 0, [], 1)
    else
      RunCounts(s, total, State(db, 0, [], 0), ds[..n]);
      Run(s, total, State(db, 0, [], 0), ds[..n])
  }

  /** The whole generator, consumed to the end. */
  function Stream(db: Db, s: Slice, ds: seq<Download>): State {
    StreamUpTo(db, s, ds, |ds|)
  }

  /** What a run of the loop does, in closed form: the successes are
      yielded in order, each write sets a flag true and only the flags in
      `Written` change, and the slice flag is marked at most once — when the
      count of successes passes `total`. */
  lemma {:induction false} RunEffect(s: Slice, total: nat, st: State, ds: seq<Download>)
    ensures Run(s, total, st, ds).completed == st.completed + |FetchedCells(ds)|
    ensures Run(s, total, st, ds).yielded == st.yielded + FetchedCells(ds)
    ensures Run(s, total, st, ds).sliceMarks
            == st.sliceMarks + if st.completed < total <= st.completed + |FetchedCells(ds)| then 1 else 0
    ensures forall k :: Get(Run(s, total, st, ds).db, k) == (Get(st.db, k) || k in Written(s, total, st.completed, ds))
  {
    RunCounts(s, total, st, ds);
    RunWrites(s, total, st, ds);
  }

  lemma {:induction false} FetchedCellsSnoc(ds: seq<Download>, d: Download)
    ensures FetchedCells(ds + [d]) == FetchedCells(ds) + (if d.fetched then [d.cell] else [])
  {
    assert (ds + [d])[..|ds|] == ds;
  }

  /** One iteration: a success counts once and is yielded, and the slice
      is marked by the success that reaches `total`. */
  lemma {:induction false} StepCounts(s: Slice, total: nat, st: State, d: Download)
    ensures Step(s, total, st, d).completed == st.completed + (if d.fetched then 1 else 0)
    ensures Step(s, total, st, d).yielded == st.yielded + (if d.fetched then [d.cell] else [])
    ensures Step(s, total, st, d).sliceMarks
            == st.sliceMarks + if d.fetched && st.completed + 1 == total then 1 else 0
  {
  }

  /** One iteration sets the fragment flag of a success, and the slice
      flag when it is the success that reaches `total`; nothing else. */
  lemma {:induction false} StepWrites(s: Slice, total: nat, st: State, d: Download)
    ensures forall k ::
              Get(Step(s, total, st, d).db, k)
              == (Get(st.db, k) || (d.fetched && k == FragmentKey(s, d.cell))
                  || (d.fetched && st.completed + 1 == total && k == SliceKey(s)))
  {
  }

  lemma {:induction false} RunCounts(s: Slice, total: nat, st: State, ds: seq<Download>)
    ensures Run(s, total, st, ds).completed == st.completed + |FetchedCells(ds)|
    ensures Run(s, total, st, ds).yielded == st.yielded + FetchedCells(ds)
    ensures Run(s, total, st, ds).sliceMarks
            == st.sliceMarks + if st.completed < total <= st.completed + |FetchedCells(ds)| then 1 else 0
    decreases |ds|
  {
    if |ds| > 0 {
      var prefix := ds[..|ds| - 1];
      var last := ds[|ds| - 1];
      RunCounts(s, total, st, prefix);
      StepCounts(s, total, Run(s, total, st, prefix), last);
    }
  }

  /** The fragment flags of some cells of slice `s`. */
  function FragmentKeys(s: Slice, cells: seq<Cell>): set<string> {
    set c | c in cells :: FragmentKey(s, c)
  }

  lemma {:induction false} FragmentKeysAppend(s: Slice, a: seq<Cell>, b: seq<Cell>)
    ensures FragmentKeys(s, a + b) == FragmentKeys(s, a) + FragmentKeys(s, b)
  {
    forall k | k in FragmentKeys(s, a + b)
      ensures k in FragmentKeys(s, a) + FragmentKeys(s, b)
    {
      var c :| c in a + b && k == FragmentKey(s, c);
    }
  }

  /** Adding one download to a run adds its fragment flag, and the slice
      flag when it is the success that reaches `total`. */
  lemma {:induction false} WrittenSnoc(s: Slice, total: nat, completed: nat, ds: seq<Download>, d: Download)
    ensures Written(s, total, completed, ds + [d])
            == Written(s, total, completed, ds)
               + (if d.fetched then {FragmentKey(s, d.cell)} else {})
               + (if d.fetched && completed + |FetchedCells(ds)| + 1 == total then {SliceKey(s)} else {})
  {
    FetchedCellsSnoc(ds, d);
    var extra := if d.fetched then [d.cell] else [];
    FragmentKeysAppend(s, FetchedCells(ds), extra);
    assert FragmentKeys(s, extra) == if d.fetched then {FragmentKey(s, d.cell)} else {};
  }

  lemma {:induction false} RunWrites(s: Slice, total: nat, st: State, ds: seq<Download>)
    ensures forall k :: Get(Run(s, total, st, ds).db, k) == (Get(st.db, k) || k in Written(s, total, st.completed, ds))
    decreases |ds|
  {
    if |ds| > 0 {
      var prefix := ds[..|ds| - 1];
      var last := ds[|ds| - 1];
      RunWrites(s, total, st, prefix);
      RunCounts(s, total, st, prefix);
      StepWrites(s, total, Run(s, total, st, prefix), last);
      assert ds == prefix + [last];
      WrittenSnoc(s, total, st.completed, prefix, last);
    }
  }

  /** A success's fragment flag is already set when the fragment is handed
      to the consumer, and a failure leaves the ledger and the output as
      they were. */
  lemma {:induction false} WrittenBeforeYield(s: Slice, total: nat, st: State, ds: seq<Download>, i: nat)
    requires i < |ds|
    ensures var before := Run(s, total, st, ds[..i]);
            var after := Run(s, total, st, ds[..i + 1]);
            if ds[i].fetched
            then Get(after.db, FragmentKey(s, ds[i].cell)) && after.yielded == before.yielded + [ds[i].cell]
            else after == before
  {
    assert ds[..i + 1][..i] == ds[..i];
  }

  /** After the generator has taken in the download at position `i`, the
      flags of that download's cell and of every cell yielded before it
      are set. */
  lemma {:induction false} TakenInFlagged(db: Db, s: Slice, ds: seq<Download>, i: nat)
    requires i < |ds| && ds[i].fetched && |Missing(db, s)| > 0
    ensures forall c :: c in StreamUpTo(db, s, ds, i).yielded || c == ds[i].cell
              ==> Get(StreamUpTo(db, s, ds, i + 1).db, FragmentKey(s, c))
  {
    RunEffect(s, |Missing(db, s)|, State(db, 0, [], 0), ds[..i + 1]);
    forall c | c in StreamUpTo(db, s, ds, i).yielded || c == ds[i].cell
      ensures FragmentKey(s, c) in FragmentKeys(s, FetchedCells(ds[..i + 1]))
    {
      if c == ds[i].cell {
        assert ds[..i + 1][i] == ds[i];
      } else {
        var k :| 0 <= k < i && ds[..i][k].fetched && ds[..i][k].cell == c;
        assert ds[..i + 1][k] == ds[k];
      }
    }
  }

  /** Under completion order every fetched cell is a task, hence a grid cell
      whose flag was unset. */
  lemma {:induction false} FetchedAreTasks(db: Db, s: Slice, ds: seq<Download>, n: nat, c: Cell)
    requires CompletionOrder(db, s, ds) && n <= |ds|
    requires c in FetchedCells(ds[..n])
    ensures c in Missing(db, s)
  {
    var i :| 0 <= i < n && ds[..n][i].fetched && ds[..n][i].cell == c;
    assert Cells(ds)[i] == c;
    assert c in multiset(Cells(ds));
  }

  lemma {:induction false} AscendingCountsOnce(cs: seq<Cell>, x: Cell)
    requires Ascending(cs)
    ensures multiset(cs)[x] <= 1
    decreases |cs|
  {
    if |cs| > 0 {
      assert cs == [cs[0]] + cs[1..];
      assert Ascending(cs[1..]);
      AscendingCountsOnce(cs[1..], x);
      if x == cs[0] {
        forall k | 0 <= k < |cs[1..]|
          ensures cs[1..][k] != x
        {
          assert Before(cs[0], cs[k + 1]);
        }
        assert x !in cs[1..];
      }
    }
  }

  lemma {:induction false} RepeatCountsTwice(xs: seq<Cell>, i: nat, j: nat)
    requires i < j < |xs| && xs[i] == xs[j]
    ensures multiset(xs)[xs[j]] >= 2
  {
    assert xs == xs[..j] + [xs[j]] + xs[j + 1..];
    assert xs[..j][i] == xs[j];
    assert xs[j] in multiset(xs[..j]);
  }

  /** Under completion order no cell is downloaded twice. */
  lemma {:induction false} DownloadsDistinct(db: Db, s: Slice, ds: seq<Download>)
    requires CompletionOrder(db, s, ds)
    ensures forall i, j :: 0 <= i < j < |ds| ==> ds[i].cell != ds[j].cell
  {
    forall i, j | 0 <= i < j < |ds|
      ensures ds[i].cell != ds[j].cell
    {
      if ds[i].cell == ds[j].cell {
        RepeatCountsTwice(Cells(ds), i, j);
        AscendingCountsOnce(Missing(db, s), ds[j].cell);
      }
    }
  }

  /** The flags the stream writes true when consumed over `n` downloads. */
  function StreamWrites(db: Db, s: Slice, ds: seq<Download>, n: nat): set<string>
    requires n <= |ds|
  {
    var total := |Missing(db, s)|;
    if total == 0 then {SliceKey(s)} else Written(s, total, 0, ds[..n])
  }

  lemma {:induction false} StreamDb(db: Db, s: Slice, ds: seq<Download>, n: nat)
    requires n <= |ds|
    ensures forall k :: Get(StreamUpTo(db, s, ds, n).db, k) == (Get(db, k) || k in StreamWrites(db, s, ds, n))
  {
    var total := |Missing(db, s)|;
    if total > 0 {
      RunWrites(s, total, State(db, 0, [], 0), ds[..n]);
    }
  }

  /** The slice flag is among those a run writes exactly when the count of
      successes passes `total`. */
  lemma {:induction false} SliceKeyWritten(s: Slice, total: nat, completed: nat, ds: seq<Download>)
    ensures SliceKey(s) in Written(s, total, completed, ds)
            <==> completed < total <= completed + |FetchedCells(ds)|
  {
    if SliceKey(s) in FragmentKeys(s, FetchedCells(ds)) {
      var c :| c in FetchedCells(ds) && SliceKey(s) == FragmentKey(s, c);
      SliceKeyNotFragmentKey(s, s, c);
    }
  }

  /** Under completion order every flag the stream writes is one of the
      slice's own keys. */
  lemma {:induction false} WritesInFootprint(db: Db, s: Slice, ds: seq<Download>, n: nat, k: string)
    requires CompletionOrder(db, s, ds) && n <= |ds|
    requires k in StreamWrites(db, s, ds, n)
    ensures k in Footprint(s)
  {
    if k != SliceKey(s) {
      var c :| c in FetchedCells(ds[..n]) && k == FragmentKey(s, c);
      FetchedAreTasks(db, s, ds, n, c);
      assert k == FragmentKey(s, Cell(c.col, c.row));
    }
  }

  /** Under completion order, the ledger changes only inside the slice's
      footprint, and only from unset to set. */
  lemma {:induction false} StreamFrame(db: Db, s: Slice, ds: seq<Download>, n: nat)
    requires CompletionOrder(db, s, ds) && n <= |ds|
    ensures forall k :: k !in Footprint(s) ==> Get(StreamUpTo(db, s, ds, n).db, k) == Get(db, k)
    ensures forall k :: Get(db, k) ==> Get(StreamUpTo(db, s, ds, n).db, k)
  {
    StreamDb(db, s, ds, n);
    forall k | k in StreamWrites(db, s, ds, n)
      ensures k in Footprint(s)
    {
      WritesInFootprint(db, s, ds, n, k);
    }
  }

  /** Under completion order the number of downloads is the number of tasks. */
  lemma {:induction false} DownloadCount(db: Db, s: Slice, ds: seq<Download>)
    requires CompletionOrder(db, s, ds)
    ensures |ds| == |Missing(db, s)|
  {
    assert |multiset(Cells(ds))| == |multiset(Missing(db, s))|;
  }

  /** Under completion order, the slice flag is marked exactly when there
      was no task, or the whole stream was consumed and every task
      succeeded. */
  lemma {:induction false} StreamMarks(db: Db, s: Slice, ds: seq<Download>, n: nat)
    requires CompletionOrder(db, s, ds) && n <= |ds|
    ensures StreamUpTo(db, s, ds, n).sliceMarks == 1 <==> n == |ds| && forall i :: 0 <= i < |ds| ==> ds[i].fetched
  {
    var total := |Missing(db, s)|;
    DownloadCount(db, s, ds);
    if total > 0 {
      RunCounts(s, total, State(db, 0, [], 0), ds[..n]);
      if |FetchedCells(ds[..n])| >= total {
        assert n == |ds| && ds[..n] == ds;
      }
      if n == |ds| {
        assert ds[..n] == ds;
      }
    }
  }

  /** Whenever the stream sets the slice flag, every fragment flag of the
      slice is set. */
  lemma {:induction false} NewMarkMeansAllFetched(db: Db, s: Slice, ds: seq<Download>, n: nat)
    requires CompletionOrder(db, s, ds) && n <= |ds|
    requires Get(StreamUpTo(db, s, ds, n).db, SliceKey(s)) && !Get(db, SliceKey(s))
    ensures AllFetched(StreamUpTo(db, s, ds, n).db, s)
  {
    var total := |Missing(db, s)|;
    var r := StreamUpTo(db, s, ds, n).db;
    StreamDb(db, s, ds, n);
    if total > 0 {
      DownloadCount(db, s, ds);
      SliceKeyWritten(s, total, 0, ds[..n]);
      assert n == |ds| && ds[..n] == ds;
      forall c | InGrid(s.zoom, c)
        ensures Get(r, FragmentKey(s, c))
      {
        if !Get(db, FragmentKey(s, c)) {
          assert c in multiset(Missing(db, s));
          var i :| 0 <= i < |ds| && Cells(ds)[i] == c;
          assert c in FetchedCells(ds);
        }
      }
    } else {
      NothingMissingIffAllFetched(db, s);
    }
  }

  /** Under completion order, the slice flag is marked exactly when there
      was no task, or the whole stream was consumed and every task
      succeeded; and whenever the stream leaves the slice flag set, all
      zoom² fragment flags are set. */
  lemma {:induction false} StreamCompletion(db: Db, s: Slice, ds: seq<Download>, n: nat)
    requires CompletionOrder(db, s, ds) && n <= |ds|
    ensures var r := StreamUpTo(db, s, ds, n);
            && (r.sliceMarks == 1 <==> n == |ds| && forall i :: 0 <= i < |ds| ==> ds[i].fetched)
            && (Get(r.db, SliceKey(s)) && !Get(db, SliceKey(s)) ==> AllFetched(r.db, s))
  {
    StreamMarks(db, s, ds, n);
    if Get(StreamUpTo(db, s, ds, n).db, SliceKey(s)) && !Get(db, SliceKey(s)) {
      NewMarkMeansAllFetched(db, s, ds, n);
    }
  }

  /** The stream, however far it is consumed, keeps every slice of the
      ledger sound. */
  lemma {:induction false} StreamKeepsSound(db: Db, s: Slice, ds: seq<Download>, n: nat)
    requires s.Valid() && Sound(db)
    requires CompletionOrder(db, s, ds) && n <= |ds|
    ensures Sound(StreamUpTo(db, s, ds, n).db)
  {
    var r := StreamUpTo(db, s, ds, n).db;
    StreamFrame(db, s, ds, n);
    StreamCompletion(db, s, ds, n);
    if Get(r, SliceKey(s)) && Get(db, SliceKey(s)) {
      assert AllFetched(db, s);
    }
    SoundOutsideFootprint(db, r, s);
  }
}
