/** The names blueearth.py derives for one time slice: the ledger keys of the
    slice and of its fragments, and the file path of its mosaic. */
module Naming {
  import opened Text

  /** Calendar fields of a slice instant, as strftime reads them.  How an
      instant is turned into these fields is not modelled. */
  datatype Stamp = Stamp(year: nat, month: nat, day: nat, hour: nat, minute: nat, second: nat) {
    predicate Valid() {
      1 <= year <= 9999 && 1 <= month <= 12 && 1 <= day <= 31
      && hour < 24 && minute < 60 && second < 60
    }
  }

  /** What a ledger key identifies: the zoom level and the day of month,
      hour and minute of the slice (`"%d_%H%M"`); year, month and seconds
      are not part of it. */
  datatype Slice = Slice(zoom: nat, day: nat, hour: nat, minute: nat) {
    predicate Valid() {
      1 <= day <= 31 && hour < 24 && minute < 60
    }
  }

  /** One grid position of a mosaic. */
  datatype Cell = Cell(col: nat, row: nat)

  function SliceOf(zoom: nat, t: Stamp): (s: Slice)
    ensures t.Valid() ==> s.Valid()
  {
    Slice(zoom, t.day, t.hour, t.minute)
  }

  /** `dt.strftime("%d_%H%M")` */
  function FormatDt(s: Slice): string {
    Dec02(s.day) + "_" + Dec02(s.hour) + Dec02(s.minute)
  }

  /** `f"{zoom_level}_{format_dt}"`: the slice-complete flag. */
  function SliceKey(s: Slice): string {
    Dec(s.zoom) + "_" + FormatDt(s)
  }

  /** `f"{zoom_level}_{format_dt}_{col}_{row}"`: the fragment-fetched flag. */
  function FragmentKey(s: Slice, c: Cell): string {
    SliceKey(s) + "_" + Dec(c.col) + "_" + Dec(c.row)
  }

  /** `f"{zoom_level:02d}_{dt:%Y%m}"`: the directory holding a month's mosaics. */
  function DirName(zoom: nat, t: Stamp): string {
    Dec02(zoom) + "_" + Dec(t.year) + Dec02(t.month)
  }

  /** `f"{format_dt}.webp"` */
  function FileName(t: Stamp): string {
    FormatDt(SliceOf(0, t)) + ".webp"
  }

  /** `save_path / dir / file`, a path as its list of components. */
  function MosaicPath(root: seq<string>, zoom: nat, t: Stamp): seq<string> {
    root + [DirName(zoom, t), FileName(t)]
  }

  // ---------------------------------------------------------------------
  // Every name is its numeric fields joined by '_'

  function SliceParts(s: Slice): seq<string> {
    [Dec(s.zoom), Dec02(s.day), Dec02(s.hour) + Dec02(s.minute)]
  }

  function FragmentParts(s: Slice, c: Cell): seq<string> {
    SliceParts(s) + [Dec(c.col), Dec(c.row)]
  }

  lemma NoUnderscoreInDigits(s: string)
    requires AllDigits(s)
    ensures '_' !in s
  {
  }

  lemma PartsAreDigits(s: Slice, c: Cell)
    ensures forall k :: 0 <= k < |FragmentParts(s, c)| ==> '_' !in FragmentParts(s, c)[k]
  {
    var ps := FragmentParts(s, c);
    forall k | 0 <= k < |ps|
      ensures '_' !in ps[k]
    {
      NoUnderscoreInDigits(ps[k]);
    }
  }

  lemma JoinCons(p: string, ps: seq<string>, sep: string)
    requires 1 <= |ps|
    ensures Join([p] + ps, sep) == p + sep + Join(ps, sep)
  {
    assert ([p] + ps)[1..] == ps;
  }

  lemma PartsJoin3(a: string, b: string, c: string, sep: string)
    ensures Join([a, b, c], sep) == a + sep + b + sep + c
  {
    JoinCons(b, [c], sep);
    assert [b] + [c] == [b, c];
    JoinCons(a, [b, c], sep);
    assert [a] + [b, c] == [a, b, c];
  }

  lemma SliceKeyJoin(s: Slice)
    ensures SliceKey(s) == Join(SliceParts(s), "_")
  {
    var ps := SliceParts(s);
    PartsJoin3(ps[0], ps[1], ps[2], "_");
  }

  lemma FragmentKeyJoin(s: Slice, c: Cell)
    ensures FragmentKey(s, c) == Join(FragmentParts(s, c), "_")
  {
    var ps := SliceParts(s);
    SliceKeyJoin(s);
    JoinSnoc(ps, Dec(c.col), "_");
    JoinSnoc(ps + [Dec(c.col)], Dec(c.row), "_");
    assert ps + [Dec(c.col)] + [Dec(c.row)] == FragmentParts(s, c);
  }

  lemma SliceKeyIsJoin(s: Slice)
    ensures Split(SliceKey(s), "_") == SliceParts(s)
  {
    var ps := SliceParts(s);
    SliceKeyJoin(s);
    forall k | 0 <= k < |ps|
      ensures "_"[0] !in ps[k]
    {
      NoUnderscoreInDigits(ps[k]);
    }
    SplitOfJoin(ps, "_");
  }

  lemma FragmentKeyIsJoin(s: Slice, c: Cell)
    ensures Split(FragmentKey(s, c), "_") == FragmentParts(s, c)
  {
    FragmentKeyJoin(s, c);
    PartsAreDigits(s, c);
    SplitOfJoin(FragmentParts(s, c), "_");
  }

  /** Two two-digit fields written side by side can be read apart again. */
  lemma PairOfDec02(a: nat, b: nat, x: nat, y: nat)
    requires a < 100 && b < 100 && x < 100 && y < 100
    ensures Dec02(a) + Dec02(b) == Dec02(x) + Dec02(y) <==> a == x && b == y
  {
    if Dec02(a) + Dec02(b) == Dec02(x) + Dec02(y) {
      var l := Dec02(a) + Dec02(b);
      assert l[..2] == Dec02(a) && l[2..] == Dec02(b);
      assert (Dec02(x) + Dec02(y))[..2] == Dec02(x);
      assert (Dec02(x) + Dec02(y))[2..] == Dec02(y);
      DecInjective(a, x);
      DecInjective(b, y);
    }
  }

  lemma SlicePartsInjective(a: Slice, b: Slice)
    requires a.Valid() && b.Valid()
    requires SliceParts(a) == SliceParts(b)
    ensures a == b
  {
    assert SliceParts(a)[0] == SliceParts(b)[0];
    assert SliceParts(a)[1] == SliceParts(b)[1];
    assert SliceParts(a)[2] == SliceParts(b)[2];
    DecInjective(a.zoom, b.zoom);
    DecInjective(a.day, b.day);
    PairOfDec02(a.hour, a.minute, b.hour, b.minute);
  }

  /** Distinct slices never share a slice-complete flag. */
  lemma SliceKeyInjective(a: Slice, b: Slice)
    requires a.Valid() && b.Valid()
    ensures SliceKey(a) == SliceKey(b) <==> a == b
  {
    if SliceKey(a) == SliceKey(b) {
      SliceKeyIsJoin(a);
      SliceKeyIsJoin(b);
      SlicePartsInjective(a, b);
    }
  }

  /** Distinct fragments, of the same slice or not, never share a flag. */
  lemma FragmentKeyInjective(a: Slice, c: Cell, b: Slice, d: Cell)
    requires a.Valid() && b.Valid()
    ensures FragmentKey(a, c) == FragmentKey(b, d) <==> a == b && c == d
  {
    if FragmentKey(a, c) == FragmentKey(b, d) {
      FragmentKeyIsJoin(a, c);
      FragmentKeyIsJoin(b, d);
      var pa, pb := FragmentParts(a, c), FragmentParts(b, d);
      assert pa[..3] == SliceParts(a) && pb[..3] == SliceParts(b);
      SlicePartsInjective(a, b);
      assert pa[3] == pb[3] && pa[4] == pb[4];
      DecInjective(c.col, d.col);
      DecInjective(c.row, d.row);
    }
  }

  /** The two key families are disjoint: a slice flag is never a fragment
      flag, whatever the slices. */
  lemma SliceKeyNotFragmentKey(a: Slice, b: Slice, d: Cell)
    ensures SliceKey(a) != FragmentKey(b, d)
  {
    SliceKeyIsJoin(a);
    FragmentKeyIsJoin(b, d);
  }

  /** Two instants share their ledger keys exactly when they agree on day
      of month, hour and minute: the same minute of a different month or
      year, or a different second, lands on the same flags. */
  lemma StampsShareKeys(zoom: nat, t1: Stamp, t2: Stamp)
    requires t1.Valid() && t2.Valid()
    ensures SliceKey(SliceOf(zoom, t1)) == SliceKey(SliceOf(zoom, t2))
            <==> t1.day == t2.day && t1.hour == t2.hour && t1.minute == t2.minute
  {
    SliceKeyInjective(SliceOf(zoom, t1), SliceOf(zoom, t2));
  }

  /** The mosaic file is a function of the zoom level and the slice's year,
      month, day, hour and minute, and distinct such tuples get distinct
      files. */
  lemma MosaicPathInjective(root: seq<string>, z1: nat, t1: Stamp, z2: nat, t2: Stamp)
    requires t1.Valid() && t2.Valid()
    ensures MosaicPath(root, z1, t1) == MosaicPath(root, z2, t2)
            <==> z1 == z2 && t1.year == t2.year && t1.month == t2.month
                 && SliceOf(0, t1) == SliceOf(0, t2)
  {
    var p1, p2 := MosaicPath(root, z1, t1), MosaicPath(root, z2, t2);
    if p1 == p2 {
      assert p1[|root|] == DirName(z1, t1) && p2[|root|] == DirName(z2, t2);
      assert p1[|root| + 1] == FileName(t1) && p2[|root| + 1] == FileName(t2);
      DirNameInjective(z1, t1, z2, t2);
      FileNameInjective(t1, t2);
    }
  }

  lemma DirNameInjective(z1: nat, t1: Stamp, z2: nat, t2: Stamp)
    requires t1.Valid() && t2.Valid()
    requires DirName(z1, t1) == DirName(z2, t2)
    ensures z1 == z2 && t1.year == t2.year && t1.month == t2.month
  {
    var a := DirParts(z1, t1);
    var b := DirParts(z2, t2);
    DirNameSplits(z1, t1);
    DirNameSplits(z2, t2);
    assert a == b;
    DecInjective(z1, z2);
    YearMonthInjective(t1.year, t1.month, t2.year, t2.month);
  }

  function DirParts(zoom: nat, t: Stamp): seq<string> {
    [Dec02(zoom), Dec(t.year) + Dec02(t.month)]
  }

  lemma DirNameSplits(zoom: nat, t: Stamp)
    ensures Split(DirName(zoom, t), "_") == DirParts(zoom, t)
  {
    var a := DirParts(zoom, t);
    NoUnderscoreInDigits(a[0]);
    NoUnderscoreInDigits(a[1]);
    JoinCons(a[0], [a[1]], "_");
    assert [a[0]] + [a[1]] == a;
    assert DirName(zoom, t) == Join(a, "_");
    SplitOfJoin(a, "_");
  }

  /** `%Y%m` can be read apart: the month always takes the last two digits. */
  lemma YearMonthInjective(y1: nat, m1: nat, y2: nat, m2: nat)
    requires m1 < 100 && m2 < 100
    requires Dec(y1) + Dec02(m1) == Dec(y2) + Dec02(m2)
    ensures y1 == y2 && m1 == m2
  {
    var u := Dec(y1) + Dec02(m1);
    var n := |u| - 2;
    assert u[..n] == Dec(y1) && u[n..] == Dec02(m1);
    var v := Dec(y2) + Dec02(m2);
    assert v[..n] == Dec(y2) && v[n..] == Dec02(m2);
    DecInjective(y1, y2);
    DecInjective(m1, m2);
  }

  lemma FileNameInjective(t1: Stamp, t2: Stamp)
    requires t1.Valid() && t2.Valid()
    requires FileName(t1) == FileName(t2)
    ensures SliceOf(0, t1) == SliceOf(0, t2)
  {
    var s1, s2 := SliceOf(0, t1), SliceOf(0, t2);
    var f1, f2 := FormatDt(s1), FormatDt(s2);
    assert |f1| == 7 && |f2| == 7;
    assert FileName(t1)[..7] == f1 && FileName(t2)[..7] == f2;
    SliceKeyInjective(s1, s2);
  }
}
