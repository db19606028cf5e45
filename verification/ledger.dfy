/** The completion ledger of blueearth.py: a persistent map from key to
    flag, read with `db.get(key, False)`.  This module holds what the ledger
    means (which cells are still missing, the invariant that a slice flag
    implies all its fragment flags) and the reset `turncated_img` applies. */
module Ledger {
  import opened Naming

  type Db = map<string, bool>

  /** `db.get(key, False)` */
  function Get(db: Db, k: string): bool {
    k in db && db[k]
  }

  predicate InGrid(zoom: nat, c: Cell) {
    c.col < zoom && c.row < zoom
  }

  /** Every fragment flag of the slice reads true. */
  ghost predicate AllFetched(db: Db, s: Slice) {
    forall c: Cell :: InGrid(s.zoom, c) ==> Get(db, FragmentKey(s, c))
  }

  /** No slice is marked complete while one of its fragments is not. */
  ghost predicate Sound(db: Db) {
    forall s: Slice :: s.Valid() && Get(db, SliceKey(s)) ==> AllFetched(db, s)
  }

  /** The keys that belong to one slice: its own flag and its zoom² fragment
      flags. */
  function Footprint(s: Slice): set<string> {
    {SliceKey(s)} + set col: nat, row: nat | col < s.zoom && row < s.zoom :: FragmentKey(s, Cell(col, row))
  }

  /** Cell `(col, row)` comes before `(col', row')` in the order the task list
      is built: column-major, rows ascending within a column. */
  predicate Before(a: Cell, b: Cell) {
    a.col < b.col || (a.col == b.col && a.row < b.row)
  }

  predicate Ascending(cs: seq<Cell>) {
    forall i, j :: 0 <= i < j < |cs| ==> Before(cs[i], cs[j])
  }

  /** Cells `(col, row)`, `row` from `row0` on, whose flag is not set. */
  function MissingInColumn(db: Db, s: Slice, col: nat, row0: nat): (r: seq<Cell>)
    ensures forall c :: c in r <==> c.col == col && row0 <= c.row < s.zoom && !Get(db, FragmentKey(s, c))
    ensures forall i, j :: 0 <= i < j < |r| ==> r[i].row < r[j].row
    decreases s.zoom - row0
  {
    if row0 >= s.zoom then []
    else
      var here := Cell(col, row0);
      (if Get(db, FragmentKey(s, here)) then [] else [here]) + MissingInColumn(db, s, col, row0 + 1)
  }

  /** Missing cells in the columns from `col0` on. */
  function MissingFrom(db: Db, s: Slice, col0: nat): (r: seq<Cell>)
    ensures forall c :: c in r <==> col0 <= c.col && InGrid(s.zoom, c) && !Get(db, FragmentKey(s, c))
    ensures Ascending(r)
    decreases s.zoom - col0
  {
    if col0 >= s.zoom then []
    else
      var here := MissingInColumn(db, s, col0, 0);
      var rest := MissingFrom(db, s, col0 + 1);
      ColumnAscending(here, col0);
      ConcatAscending(here, rest, col0);
      here + rest
  }

  lemma ColumnAscending(cs: seq<Cell>, col: nat)
    requires forall c :: c in cs ==> c.col == col
    requires forall i, j :: 0 <= i < j < |cs| ==> cs[i].row < cs[j].row
    ensures Ascending(cs)
  {
    forall i, j | 0 <= i < j < |cs|
      ensures Before(cs[i], cs[j])
    {
      assert cs[i] in cs && cs[j] in cs;
    }
  }

  lemma ConcatAscending(a: seq<Cell>, b: seq<Cell>, col: nat)
    requires Ascending(a) && Ascending(b)
    requires forall c :: c in a ==> c.col == col
    requires forall c :: c in b ==> col < c.col
    ensures Ascending(a + b)
  {
    var ab := a + b;
    forall i, j | 0 <= i < j < |ab|
      ensures Before(ab[i], ab[j])
    {
      if j < |a| {
        assert ab[i] == a[i] && ab[j] == a[j];
      } else if |a| <= i {
        assert ab[i] == b[i - |a|] && ab[j] == b[j - |a|];
      } else {
        assert ab[i] == a[i] && ab[j] == b[j - |a|];
        assert a[i] in a && b[j - |a|] in b;
      }
    }
  }

  /** The task list of `get_fragments`: every grid cell whose fragment flag
      is absent or false, each once, in the order the nested loop visits. */
  function Missing(db: Db, s: Slice): (r: seq<Cell>)
    ensures forall c :: c in r <==> InGrid(s.zoom, c) && !Get(db, FragmentKey(s, c))
    ensures Ascending(r)
  {
    MissingFrom(db, s, 0)
  }

  /** Nothing is missing exactly when every fragment flag of the slice is set. */
  lemma NothingMissingIffAllFetched(db: Db, s: Slice)
    ensures |Missing(db, s)| == 0 <==> AllFetched(db, s)
  {
    if |Missing(db, s)| != 0 {
      assert Missing(db, s)[0] in Missing(db, s);
    }
  }

  /** `turncated_img`: every fragment flag of the slice and the slice flag
      are written false. */
  function Reset(db: Db, s: Slice): (r: Db)
    ensures forall c :: InGrid(s.zoom, c) ==> !Get(r, FragmentKey(s, c))
    ensures !Get(r, SliceKey(s))
    ensures forall k :: k !in Footprint(s) ==> Get(r, k) == Get(db, k)
  {
    db + map k | k in Footprint(s) :: false
  }

  lemma InFootprint(s: Slice, k: string)
    requires k in Footprint(s)
    ensures k == SliceKey(s) || exists c :: InGrid(s.zoom, c) && k == FragmentKey(s, c)
  {
    if k != SliceKey(s) {
      var col: nat, row: nat :| col < s.zoom && row < s.zoom && k == FragmentKey(s, Cell(col, row));
      assert InGrid(s.zoom, Cell(col, row));
    }
  }

  /** Distinct slices own disjoint sets of keys, so no key has two writers. */
  lemma FootprintsDisjoint(a: Slice, b: Slice)
    requires a.Valid() && b.Valid() && a != b
    ensures Footprint(a) !! Footprint(b)
  {
    forall k | k in Footprint(a) && k in Footprint(b)
      ensures false
    {
      OutsideOtherFootprint(a, b, k);
    }
  }

  /** A key of slice `a` — its flag or one of its fragment flags — is no key
      of any other slice `b`. */
  lemma OutsideOtherFootprint(a: Slice, b: Slice, k: string)
    requires a.Valid() && b.Valid() && a != b
    requires k == SliceKey(a) || exists c :: k == FragmentKey(a, c)
    ensures k !in Footprint(b)
  {
    if k in Footprint(b) {
      InFootprint(b, k);
      if k == SliceKey(a) {
        if k == SliceKey(b) {
          SliceKeyInjective(a, b);
        } else {
          var d :| InGrid(b.zoom, d) && k == FragmentKey(b, d);
          SliceKeyNotFragmentKey(a, b, d);
        }
      } else {
        var c :| k == FragmentKey(a, c);
        if k == SliceKey(b) {
          SliceKeyNotFragmentKey(b, a, c);
        } else {
          var d :| InGrid(b.zoom, d) && k == FragmentKey(b, d);
          FragmentKeyInjective(a, c, b, d);
        }
      }
    }
  }

  /** A ledger change confined to slice `s`'s keys that leaves `s` sound
      leaves every slice sound. */
  lemma SoundOutsideFootprint(db: Db, r: Db, s: Slice)
    requires s.Valid() && Sound(db)
    requires forall k :: k !in Footprint(s) ==> Get(r, k) == Get(db, k)
    requires Get(r, SliceKey(s)) ==> AllFetched(r, s)
    ensures Sound(r)
  {
    forall b: Slice | b.Valid() && Get(r, SliceKey(b))
      ensures AllFetched(r, b)
    {
      if b != s {
        OutsideOtherFootprint(b, s, SliceKey(b));
        forall c | InGrid(b.zoom, c)
          ensures Get(r, FragmentKey(b, c))
        {
          OutsideOtherFootprint(b, s, FragmentKey(b, c));
        }
      }
    }
  }

  /** Resetting one slice cannot break the soundness of any slice. */
  lemma ResetKeepsSound(db: Db, s: Slice)
    requires s.Valid() && Sound(db)
    ensures Sound(Reset(db, s))
  {
    SoundOutsideFootprint(db, Reset(db, s), s);
  }

  /** After a reset the task list is the whole grid, in loop order. */
  lemma {:induction false} MissingAfterReset(db: Db, s: Slice)
    ensures Missing(Reset(db, s), s) == Grid(s.zoom)
    ensures |Missing(Reset(db, s), s)| == s.zoom * s.zoom
  {
    var r := Reset(db, s);
    GridFromIsMissing(r, s, 0);
    GridSize(s.zoom, 0);
  }

  /** All cells of a `zoom`×`zoom` grid from column `col0` on, in loop order. */
  function GridFrom(zoom: nat, col0: nat): seq<Cell>
    decreases zoom - col0
  {
    if col0 >= zoom then [] else ColumnFrom(zoom, col0, 0) + GridFrom(zoom, col0 + 1)
  }

  function ColumnFrom(zoom: nat, col: nat, row0: nat): seq<Cell>
    decreases zoom - row0
  {
    if row0 >= zoom then [] else [Cell(col, row0)] + ColumnFrom(zoom, col, row0 + 1)
  }

  function Grid(zoom: nat): seq<Cell> {
    GridFrom(zoom, 0)
  }

  lemma {:induction false} ColumnIsMissing(db: Db, s: Slice, col: nat, row0: nat)
    requires col < s.zoom
    requires forall c :: InGrid(s.zoom, c) ==> !Get(db, FragmentKey(s, c))
    ensures MissingInColumn(db, s, col, row0) == ColumnFrom(s.zoom, col, row0)
    decreases s.zoom - row0
  {
    if row0 < s.zoom {
      assert InGrid(s.zoom, Cell(col, row0));
      ColumnIsMissing(db, s, col, row0 + 1);
    }
  }

  lemma {:induction false} GridFromIsMissing(db: Db, s: Slice, col0: nat)
    requires forall c :: InGrid(s.zoom, c) ==> !Get(db, FragmentKey(s, c))
    ensures MissingFrom(db, s, col0) == GridFrom(s.zoom, col0)
    decreases s.zoom - col0
  {
    if col0 < s.zoom {
      ColumnIsMissing(db, s, col0, 0);
      GridFromIsMissing(db, s, col0 + 1);
    }
  }

  lemma {:induction false} ColumnSize(zoom: nat, col: nat, row0: nat)
    ensures |ColumnFrom(zoom, col, row0)| == if row0 >= zoom then 0 else zoom - row0
    decreases zoom - row0
  {
    if row0 < zoom {
      ColumnSize(zoom, col, row0 + 1);
    }
  }

  lemma {:induction false} GridSize(zoom: nat, col0: nat)
    ensures |GridFrom(zoom, col0)| == if col0 >= zoom then 0 else (zoom - col0) * zoom
    decreases zoom - col0
  {
    if col0 < zoom {
      ColumnSize(zoom, col0, 0);
      GridSize(zoom, col0 + 1);
    }
  }
}
