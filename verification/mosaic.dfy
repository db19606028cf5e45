/** Where `stitching` pastes fragments: a `zoom`×`zoom` grid of
    `unit`×`unit` tiles on a square canvas of side `zoom * unit`, fragment
    `(col, row)` at pixel offset `(col * unit, row * unit)`.  Pixel values
    are an abstract type; decoding and encoding are not modelled. */
module Mosaic {
  import opened Naming
  import opened Ledger

  datatype Pixel = Pixel(x: int, y: int)

  /** `(col * png_unit_size, row * png_unit_size)` */
  function Offset(c: Cell, unit: nat): Pixel {
    Pixel(c.col * unit, c.row * unit)
  }

  /** The square a tile pasted for cell `c` covers. */
  predicate Covers(c: Cell, unit: nat, p: Pixel) {
    var o := Offset(c, unit);
    o.x <= p.x < o.x + unit && o.y <= p.y < o.y + unit
  }

  /** `png_width = png_height = png_unit_size * zoom_level` */
  predicate OnCanvas(zoom: nat, unit: nat, p: Pixel) {
    0 <= p.x < zoom * unit && 0 <= p.y < zoom * unit
  }

  /** The cell whose square holds pixel `p`. */
  function CellAt(p: Pixel, unit: nat): Cell
    requires unit > 0 && 0 <= p.x && 0 <= p.y
  {
    Cell(p.x / unit, p.y / unit)
  }

  lemma MulMonotone(a: nat, b: nat, unit: nat)
    requires a <= b
    ensures a * unit <= b * unit
  {
  }

  lemma QuotientOf(q: nat, x: int, unit: nat)
    requires unit > 0 && q * unit <= x < q * unit + unit
    ensures x / unit == q
  {
    var d := x / unit;
    assert x == d * unit + x % unit;
    if d < q {
      MulMonotone(d + 1, q, unit);
    } else if d > q {
      MulMonotone(q + 1, d, unit);
    }
  }

  lemma QuotientBounds(x: int, unit: nat)
    requires unit > 0 && 0 <= x
    ensures (x / unit) * unit <= x < (x / unit) * unit + unit
  {
  }

  /** A fragment pasted for a grid cell lies wholly inside the canvas. */
  lemma TileInsideCanvas(zoom: nat, unit: nat, c: Cell, p: Pixel)
    requires InGrid(zoom, c) && Covers(c, unit, p)
    ensures OnCanvas(zoom, unit, p)
  {
    MulMonotone(c.col + 1, zoom, unit);
    MulMonotone(c.row + 1, zoom, unit);
  }

  /** Squares of distinct cells do not overlap, and every pixel of the
      canvas lies in the square of exactly one grid cell: the tiles
      partition the canvas. */
  lemma TilesPartitionCanvas(zoom: nat, unit: nat, c: Cell, p: Pixel)
    requires unit > 0 && 0 <= p.x && 0 <= p.y
    ensures Covers(c, unit, p) <==> c == CellAt(p, unit)
    ensures OnCanvas(zoom, unit, p) ==> InGrid(zoom, CellAt(p, unit))
  {
    if Covers(c, unit, p) {
      QuotientOf(c.col, p.x, unit);
      QuotientOf(c.row, p.y, unit);
    }
    QuotientBounds(p.x, unit);
    QuotientBounds(p.y, unit);
    if OnCanvas(zoom, unit, p) {
      var d := CellAt(p, unit);
      if zoom <= d.col {
        MulMonotone(zoom, d.col, unit);
      }
      if zoom <= d.row {
        MulMonotone(zoom, d.row, unit);
      }
    }
  }

  /** Distinct cells own disjoint squares. */
  lemma TilesDisjoint(unit: nat, a: Cell, b: Cell, p: Pixel)
    requires a != b
    ensures !(Covers(a, unit, p) && Covers(b, unit, p))
  {
    if Covers(a, unit, p) && Covers(b, unit, p) {
      TilesPartitionCanvas(0, unit, a, p);
      TilesPartitionCanvas(0, unit, b, p);
    }
  }

  /** `target.paste(img, offset)`: the square of `c` takes the tile's
      pixels, read in the tile's own coordinates; the rest is kept. */
  function Paste<C>(canvas: map<Pixel, C>, tile: Pixel -> C, c: Cell, unit: nat): map<Pixel, C> {
    map p | p in canvas :: if Covers(c, unit, p) then tile(Pixel(p.x - c.col * unit, p.y - c.row * unit)) else canvas[p]
  }

  /** The fragments pasted in the order they arrived; `tiles` gives the
      decoded image of each cell. */
  function PasteAll<C>(canvas: map<Pixel, C>, cells: seq<Cell>, tiles: Cell -> Pixel -> C, unit: nat): map<Pixel, C>
    decreases |cells|
  {
    if |cells| == 0 then canvas
    else
      var last := cells[|cells| - 1];
      Paste(PasteAll(canvas, cells[..|cells| - 1], tiles, unit), tiles(last), last, unit)
  }

  /** What the canvas shows once a set of cells has been pasted, whatever the
      order: a pixel in a pasted cell's square shows that tile, any other
      pixel keeps its background. */
  function Composite<C>(canvas: map<Pixel, C>, placed: set<Cell>, tiles: Cell -> Pixel -> C, unit: nat): map<Pixel, C>
    requires unit > 0
  {
    map p | p in canvas ::
      if 0 <= p.x && 0 <= p.y && CellAt(p, unit) in placed
      then tiles(CellAt(p, unit))(Pixel(p.x % unit, p.y % unit))
      else canvas[p]
  }

  /** Pasting one more cell onto a composite gives the composite of the
      larger set. */
  lemma CompositeStep<C>(canvas: map<Pixel, C>, before: set<Cell>, last: Cell, tiles: Cell -> Pixel -> C, unit: nat)
    requires unit > 0
    ensures Paste(Composite(canvas, before, tiles, unit), tiles(last), last, unit)
            == Composite(canvas, before + {last}, tiles, unit)
  {
    var m := Composite(canvas, before, tiles, unit);
    var l := Paste(m, tiles(last), last, unit);
    var r := Composite(canvas, before + {last}, tiles, unit);
    forall p | p in canvas
      ensures l[p] == r[p]
    {
      CompositePixel(canvas, before, last, tiles, unit, p);
    }
    assert l.Keys == r.Keys;
  }

  lemma CompositePixel<C>(canvas: map<Pixel, C>, before: set<Cell>, last: Cell, tiles: Cell -> Pixel -> C, unit: nat, p: Pixel)
    requires unit > 0 && p in canvas
    ensures Paste(Composite(canvas, before, tiles, unit), tiles(last), last, unit)[p]
            == Composite(canvas, before + {last}, tiles, unit)[p]
  {
    if Covers(last, unit, p) {
      TilesPartitionCanvas(0, unit, last, p);
      QuotientBounds(p.x, unit);
      QuotientBounds(p.y, unit);
      assert p.x % unit == p.x - last.col * unit;
      assert p.y % unit == p.y - last.row * unit;
    } else if 0 <= p.x && 0 <= p.y {
      TilesPartitionCanvas(0, unit, last, p);
    }
  }

  /** Pasting in arrival order yields the order-free composite. */
  lemma {:induction false} PasteAllIsComposite<C>(canvas: map<Pixel, C>, cells: seq<Cell>, tiles: Cell -> Pixel -> C, unit: nat)
    requires unit > 0
    ensures PasteAll(canvas, cells, tiles, unit) == Composite(canvas, (set c | c in cells), tiles, unit)
    decreases |cells|
  {
    if |cells| == 0 {
      var r := Composite(canvas, {}, tiles, unit);
      assert forall p | p in canvas :: r[p] == canvas[p];
      assert r.Keys == canvas.Keys;
    } else {
      var prefix := cells[..|cells| - 1];
      var last := cells[|cells| - 1];
      PasteAllIsComposite(canvas, prefix, tiles, unit);
      assert (set c | c in cells) == (set c | c in prefix) + {last};
      CompositeStep(canvas, (set c | c in prefix), last, tiles, unit);
    }
  }

  /** The mosaic depends only on which fragments arrived, not on the order. */
  lemma PasteOrderIrrelevant<C>(canvas: map<Pixel, C>, xs: seq<Cell>, ys: seq<Cell>, tiles: Cell -> Pixel -> C, unit: nat)
    requires unit > 0
    requires forall c :: c in xs <==> c in ys
    ensures PasteAll(canvas, xs, tiles, unit) == PasteAll(canvas, ys, tiles, unit)
  {
    PasteAllIsComposite(canvas, xs, tiles, unit);
    PasteAllIsComposite(canvas, ys, tiles, unit);
    assert (set c | c in xs) == (set c | c in ys);
  }
}
