/**
 The pixel buffer (`sf::Image`) and the tile body of `parallel_loop`.

 The image is indexed as `setPixel` is, by (column, row). Besides its
 pixels it keeps a ghost log of every coordinate `SetPixel` has written, so
 that "each pixel of the rectangle is written exactly once" is a statement
 about the writes themselves and not only about the final colours.

 The fragments a `tbb::parallel_for` over a `blocked_range2d` hands to the
 body are an input here: any sequence of fragments that partitions the
 rectangle (how TBB splits the range and schedules the pieces is not
 modelled; the body is run on the fragments one after another).
 */
module Imaging {
  import opened Colors
  import opened Kernel

  /** A pixel coordinate in `setPixel` order: column first, then row. */
  datatype Pixel = Pixel(column: int, row: int)

  /** A half-open fragment [rowBegin, rowEnd) x [colBegin, colEnd) of a `blocked_range2d<int>`. */
  datatype Fragment = Fragment(rowBegin: int, rowEnd: int, colBegin: int, colEnd: int) {

    /** `blocked_range` demands begin <= end in each dimension. */
    predicate WellFormed() {
      rowBegin <= rowEnd && colBegin <= colEnd
    }

    predicate IsEmpty() {
      rowBegin == rowEnd || colBegin == colEnd
    }

    predicate Contains(row: int, column: int) {
      rowBegin <= row < rowEnd && colBegin <= column < colEnd
    }

    predicate Within(outer: Fragment) {
      outer.rowBegin <= rowBegin && rowEnd <= outer.rowEnd
      && outer.colBegin <= colBegin && colEnd <= outer.colEnd
    }

    /** Every coordinate of the fragment is a valid `setPixel` position of a width x height image. */
    predicate InImage(width: int, height: int) {
      0 <= rowBegin && rowEnd <= height && 0 <= colBegin && colEnd <= width
    }
  }

  /** Two fragments share no pixel (one is empty, or they are apart in rows or in columns). */
  predicate Disjoint(f: Fragment, g: Fragment) {
    f.IsEmpty() || g.IsEmpty()
    || f.rowEnd <= g.rowBegin || g.rowEnd <= f.rowBegin
    || f.colEnd <= g.colBegin || g.colEnd <= f.colBegin
  }

  lemma DisjointNoSharedPixel(f: Fragment, g: Fragment, row: int, column: int)
    requires Disjoint(f, g)
    ensures !(f.Contains(row, column) && g.Contains(row, column))
  {
  }

  /** The fragments tile the rectangle: inside it, pairwise disjoint, and covering every pixel of it. */
  ghost predicate Partitions(fragments: seq<Fragment>, rect: Fragment) {
    && rect.WellFormed()
    && (forall i :: 0 <= i < |fragments| ==> fragments[i].WellFormed() && fragments[i].Within(rect))
    && (forall i, j :: 0 <= i < j < |fragments| ==> Disjoint(fragments[i], fragments[j]))
    && (forall row, column :: rect.Contains(row, column) ==>
          exists i :: 0 <= i < |fragments| && fragments[i].Contains(row, column))
  }

  /**
   Where the colours come from: `sample(row, column)` is the pixel's point
   `top_left + (delta_x * column, delta_y * row)`, and `step` and `diverged`
   are the kernel's `z * z + c` and `norm(z) >= 4`.
   */
  datatype Plane<!Z> = Plane(sample: (int, int) -> Z, step: (Z, Z) -> Z, diverged: Z -> bool)

  /** `to_color(mandelbrot(sample))` for the pixel at (row, column): always a pure red shade. */
  function PixelColor<Z>(plane: Plane<Z>, row: int, column: int): (c: Color)
    ensures c.green == 0 && c.blue == 0
  {
    ToColor(EscapeCount(plane.sample(row, column), plane.step, plane.diverged))
  }

  /** A pixel whose orbit stays bounded up to the limit is drawn black. */
  lemma PixelColorInSet<Z>(plane: Plane<Z>, row: int, column: int)
    requires forall j :: 0 <= j < IterationLimit ==>
               !plane.diverged(Orbit(plane.sample(row, column), plane.step, j))
    ensures PixelColor(plane, row, column) == Black
  {
    EscapeCountAtLimit(plane.sample(row, column), plane.step, plane.diverged);
  }

  // ---------------------------------------------------------------------
  // The order in which the tile body writes pixels.

  /** The pixels of row `row`, columns colBegin .. colEnd - 1, left to right. */
  function RowPixels(row: int, colBegin: int, colEnd: int): seq<Pixel>
    decreases colEnd - colBegin
  {
    if colEnd <= colBegin then [] else RowPixels(row, colBegin, colEnd - 1) + [Pixel(colEnd - 1, row)]
  }

  /** Rows rowBegin .. rowEnd - 1 in turn, each left to right. */
  function TilePixels(rowBegin: int, rowEnd: int, colBegin: int, colEnd: int): seq<Pixel>
    decreases rowEnd - rowBegin
  {
    if rowEnd <= rowBegin then []
    else TilePixels(rowBegin, rowEnd - 1, colBegin, colEnd) + RowPixels(rowEnd - 1, colBegin, colEnd)
  }

  /** The writes of the tile body for one fragment, in loop order. */
  function Visits(f: Fragment): seq<Pixel> {
    TilePixels(f.rowBegin, f.rowEnd, f.colBegin, f.colEnd)
  }

  /** The writes of the body run over fragments 0 .. n - 1 in turn. */
  function AllVisits(fragments: seq<Fragment>, n: nat): seq<Pixel>
    requires n <= |fragments|
  {
    if n == 0 then [] else AllVisits(fragments, n - 1) + Visits(fragments[n - 1])
  }

  /** How many times `p` occurs in a write log. */
  function Count(log: seq<Pixel>, p: Pixel): nat {
    multiset(log)[p]
  }

  /** How many of fragments 0 .. n - 1 contain `p`. */
  function Hits(fragments: seq<Fragment>, n: nat, p: Pixel): nat
    requires n <= |fragments|
  {
    if n == 0 then 0
    else Hits(fragments, n - 1, p) + (if fragments[n - 1].Contains(p.row, p.column) then 1 else 0)
  }

  lemma {:induction false} CountRowPixels(row: int, colBegin: int, colEnd: int, p: Pixel)
    ensures Count(RowPixels(row, colBegin, colEnd), p)
            == if p.row == row && colBegin <= p.column < colEnd then 1 else 0
    decreases colEnd - colBegin
  {
    if colBegin < colEnd {
      CountRowPixels(row, colBegin, colEnd - 1, p);
    }
  }

  lemma {:induction false} CountTilePixels(rowBegin: int, rowEnd: int, colBegin: int, colEnd: int, p: Pixel)
    ensures Count(TilePixels(rowBegin, rowEnd, colBegin, colEnd), p)
            == if rowBegin <= p.row < rowEnd && colBegin <= p.column < colEnd then 1 else 0
    decreases rowEnd - rowBegin
  {
    if rowBegin < rowEnd {
      CountTilePixels(rowBegin, rowEnd - 1, colBegin, colEnd, p);
      CountRowPixels(rowEnd - 1, colBegin, colEnd, p);
    }
  }

  /** One fragment's body writes each of its pixels exactly once and nothing else. */
  lemma VisitsOnce(f: Fragment, p: Pixel)
    ensures Count(Visits(f), p) == if f.Contains(p.row, p.column) then 1 else 0
  {
    CountTilePixels(f.rowBegin, f.rowEnd, f.colBegin, f.colEnd, p);
  }

  /** Over several fragments, a pixel is written once per fragment that contains it. */
  lemma {:induction false} CountAllVisits(fragments: seq<Fragment>, n: nat, p: Pixel)
    requires n <= |fragments|
    ensures Count(AllVisits(fragments, n), p) == Hits(fragments, n, p)
  {
    if n > 0 {
      CountAllVisits(fragments, n - 1, p);
      VisitsOnce(fragments[n - 1], p);
    }
  }

  /** Pairwise disjoint fragments contain any pixel at most once. */
  lemma {:induction false} HitsAtMostOne(fragments: seq<Fragment>, n: nat, p: Pixel)
    requires n <= |fragments|
    requires forall i, j :: 0 <= i < j < |fragments| ==> Disjoint(fragments[i], fragments[j])
    ensures Hits(fragments, n, p) <= 1
  {
    if n > 0 {
      HitsAtMostOne(fragments, n - 1, p);
      if fragments[n - 1].Contains(p.row, p.column) {
        forall i | 0 <= i < n - 1 ensures !fragments[i].Contains(p.row, p.column) {
          DisjointNoSharedPixel(fragments[i], fragments[n - 1], p.row, p.column);
        }
        HitsNone(fragments, n - 1, p);
      }
    }
  }

  lemma {:induction false} HitsNone(fragments: seq<Fragment>, n: nat, p: Pixel)
    requires n <= |fragments|
    requires forall i :: 0 <= i < n ==> !fragments[i].Contains(p.row, p.column)
    ensures Hits(fragments, n, p) == 0
  {
    if n > 0 {
      HitsNone(fragments, n - 1, p);
    }
  }

  lemma {:induction false} HitsSome(fragments: seq<Fragment>, n: nat, p: Pixel, k: int)
    requires n <= |fragments|
    requires 0 <= k < n && fragments[k].Contains(p.row, p.column)
    ensures Hits(fragments, n, p) >= 1
  {
    if k < n - 1 {
      HitsSome(fragments, n - 1, p, k);
    }
  }

  /** In a partition, a pixel lies in exactly one fragment if it is in the rectangle, and in none otherwise. */
  lemma PartitionHits(fragments: seq<Fragment>, rect: Fragment, p: Pixel)
    requires Partitions(fragments, rect)
    ensures Hits(fragments, |fragments|, p) == if rect.Contains(p.row, p.column) then 1 else 0
  {
    HitsAtMostOne(fragments, |fragments|, p);
    if rect.Contains(p.row, p.column) {
      var k :| 0 <= k < |fragments| && fragments[k].Contains(p.row, p.column);
      HitsSome(fragments, |fragments|, p, k);
    } else {
      forall i | 0 <= i < |fragments| ensures !fragments[i].Contains(p.row, p.column) {
        assert fragments[i].Within(rect);
      }
      HitsNone(fragments, |fragments|, p);
    }
  }

  /**
   Exactly-once coverage: if the fragments partition the rectangle, running
   the body over all of them writes every pixel of the rectangle exactly once
   and no pixel outside it.
   */
  lemma ExactlyOnce(fragments: seq<Fragment>, rect: Fragment, p: Pixel)
    requires Partitions(fragments, rect)
    ensures Count(AllVisits(fragments, |fragments|), p) == if rect.Contains(p.row, p.column) then 1 else 0
  {
    CountAllVisits(fragments, |fragments|, p);
    PartitionHits(fragments, rect, p);
  }

  /** A partition of an empty rectangle makes the body write nothing at all. */
  lemma EmptyRangeWritesNothing(fragments: seq<Fragment>, rect: Fragment)
    requires Partitions(fragments, rect) && rect.IsEmpty()
    ensures AllVisits(fragments, |fragments|) == []
  {
    var log := AllVisits(fragments, |fragments|);
    if log != [] {
      ExactlyOnce(fragments, rect, log[0]);
    }
  }

  // ---------------------------------------------------------------------
  // The image and the code that writes it.

  /** `sf::Image`: a fixed-size buffer of colours indexed [column, row]. */
  class Image {
    const pixels: array2<Color>
    /** Every (column, row) passed to `SetPixel`, in order. */
    ghost var writes: seq<Pixel>

    /** `image.create(width, height)`: every pixel starts black. */
    constructor Create(width: nat, height: nat)
      ensures pixels.Length0 == width && pixels.Length1 == height
      ensures fresh(pixels)
      ensures forall x, y :: 0 <= x < width && 0 <= y < height ==> pixels[x, y] == Black
      ensures writes == []
    {
      pixels := new Color[width, height]((x, y) => Black);
      writes := [];
    }

    function Width(): nat {
      pixels.Length0
    }

    function Height(): nat {
      pixels.Length1
    }

    /** `setPixel(x, y, color)`: x is the column and y the row. */
    method SetPixel(x: int, y: int, color: Color)
      requires 0 <= x < Width() && 0 <= y < Height()
      modifies this, pixels
      ensures pixels[x, y] == color
      ensures forall i, j :: 0 <= i < Width() && 0 <= j < Height() && (i != x || j != y)
                ==> pixels[i, j] == old(pixels[i, j])
      ensures writes == old(writes) + [Pixel(x, y)]
    {
      pixels[x, y] := color;
      writes := writes + [Pixel(x, y)];
    }
  }

  /** Appending to a write log regroups: `(start + done) + next == start + (done + next)`. */
  lemma LogAppend(start: seq<Pixel>, done: seq<Pixel>, next: seq<Pixel>)
    ensures (start + done) + next == start + (done + next)
  {
  }

  /**
   The inner loop of the `parallel_for` lambda: row `row`, columns colBegin
   .. colEnd - 1 left to right, each coloured `to_color(mandelbrot(...))`.
   */
  method FillRow<Z>(image: Image, row: int, colBegin: int, colEnd: int, plane: Plane<Z>)
    requires 0 <= row < image.Height() && 0 <= colBegin <= colEnd <= image.Width()
    modifies image, image.pixels
    ensures forall x, y :: 0 <= x < image.Width() && 0 <= y < image.Height() ==>
              image.pixels[x, y] == if y == row && colBegin <= x < colEnd then PixelColor(plane, y, x)
                                    else old(image.pixels[x, y])
    ensures image.writes == old(image.writes) + RowPixels(row, colBegin, colEnd)
  {
    var column := colBegin;
    while column != colEnd
      invariant colBegin <= column <= colEnd
      invariant image.writes == old(image.writes) + RowPixels(row, colBegin, column)
      invariant forall x, y :: 0 <= x < image.Width() && 0 <= y < image.Height() ==>
                  image.pixels[x, y] == if y == row && colBegin <= x < column then PixelColor(plane, y, x)
                                        else old(image.pixels[x, y])
      decreases colEnd - column
    {
      var k := Mandelbrot(plane.sample(row, column), plane.step, plane.diverged);
      image.SetPixel(column, row, ToColor(k));
      assert image.writes == old(image.writes) + RowPixels(row, colBegin, column + 1) by {
        LogAppend(old(image.writes), RowPixels(row, colBegin, column), [Pixel(column, row)]);
      }
      column := column + 1;
    }
  }

  /**
   The body of the `parallel_for` lambda for one fragment: rows in turn, each
   left to right, colour every pixel with `to_color(mandelbrot(...))`.
   */
  method FillFragment<Z>(image: Image, fragment: Fragment, plane: Plane<Z>)
    requires fragment.WellFormed() && fragment.InImage(image.Width(), image.Height())
    modifies image, image.pixels
    ensures forall x, y :: 0 <= x < image.Width() && 0 <= y < image.Height() ==>
              image.pixels[x, y] == if fragment.Contains(y, x) then PixelColor(plane, y, x)
                                    else old(image.pixels[x, y])
    ensures image.writes == old(image.writes) + Visits(fragment)
  {
    var f := fragment;
    var row := f.rowBegin;
    while row != f.rowEnd
      invariant f.rowBegin <= row <= f.rowEnd
      invariant image.writes == old(image.writes) + TilePixels(f.rowBegin, row, f.colBegin, f.colEnd)
      invariant forall x, y :: 0 <= x < image.Width() && 0 <= y < image.Height() ==>
                  image.pixels[x, y] == if f.rowBegin <= y < row && f.colBegin <= x < f.colEnd
                                        then PixelColor(plane, y, x) else old(image.pixels[x, y])
      decreases f.rowEnd - row
    {
      FillRow(image, row, f.colBegin, f.colEnd, plane);
      assert image.writes == old(image.writes) + TilePixels(f.rowBegin, row + 1, f.colBegin, f.colEnd) by {
        LogAppend(old(image.writes), TilePixels(f.rowBegin, row, f.colBegin, f.colEnd),
                  RowPixels(row, f.colBegin, f.colEnd));
      }
      row := row + 1;
    }
  }

  /** One step of the fragment loop appends the current fragment's visits to the write log. */
  lemma LogStep(start: seq<Pixel>, fragments: seq<Fragment>, i: int, before: seq<Pixel>, after: seq<Pixel>)
    requires 0 <= i < |fragments|
    requires before == start + AllVisits(fragments, i)
    requires after == before + Visits(fragments[i])
    ensures after == start + AllVisits(fragments, i + 1)
  {
    LogAppend(start, AllVisits(fragments, i), Visits(fragments[i]));
  }

  /**
   `tbb::parallel_for` run sequentially: the body over each fragment in turn.
   A pixel ends up with the kernel's colour when some fragment contains it.
   */
  method ParallelFor<Z>(fragments: seq<Fragment>, plane: Plane<Z>, image: Image)
    requires forall i :: 0 <= i < |fragments| ==>
               fragments[i].WellFormed() && fragments[i].InImage(image.Width(), image.Height())
    modifies image, image.pixels
    ensures forall x, y {:trigger image.pixels[x, y]} :: 0 <= x < image.Width() && 0 <= y < image.Height() ==>
              image.pixels[x, y] == if Hits(fragments, |fragments|, Pixel(x, y)) > 0
                                    then PixelColor(plane, y, x) else old(image.pixels[x, y])
    ensures image.writes == old(image.writes) + AllVisits(fragments, |fragments|)
  {
    var i := 0;
    while i < |fragments|
      invariant 0 <= i <= |fragments|
      invariant image.writes == old(image.writes) + AllVisits(fragments, i)
      invariant forall x, y {:trigger image.pixels[x, y]} :: 0 <= x < image.Width() && 0 <= y < image.Height() ==>
                  image.pixels[x, y] == if Hits(fragments, i, Pixel(x, y)) > 0
                                        then PixelColor(plane, y, x) else old(image.pixels[x, y])
    {
      label Step:
      FillFragment(image, fragments[i], plane);
      LogStep(old(image.writes), fragments, i, old@Step(image.writes), image.writes);
      i := i + 1;
    }
  }

  /**
   `parallel_loop(rows_min, rows_max, cols_min, cols_max, ...)`: run the
   body over every fragment of a partition of the rectangle. Afterwards the
   rectangle holds the kernel's colours, the rest of the image is unchanged,
   and every pixel of the rectangle has been written exactly once.
   */
  method ParallelLoop<Z>(rowsMin: int, rowsMax: int, colsMin: int, colsMax: int,
                         fragments: seq<Fragment>, plane: Plane<Z>, image: Image)
    requires Partitions(fragments, Fragment(rowsMin, rowsMax, colsMin, colsMax))
    requires Fragment(rowsMin, rowsMax, colsMin, colsMax).InImage(image.Width(), image.Height())
    modifies image, image.pixels
    ensures forall x, y :: 0 <= x < image.Width() && 0 <= y < image.Height() ==>
              image.pixels[x, y] == if rowsMin <= y < rowsMax && colsMin <= x < colsMax
                                    then PixelColor(plane, y, x) else old(image.pixels[x, y])
    ensures image.writes == old(image.writes) + AllVisits(fragments, |fragments|)
    ensures forall p :: Count(image.writes[|old(image.writes)|..], p)
                        == if rowsMin <= p.row < rowsMax && colsMin <= p.column < colsMax then 1 else 0
  {
    ghost var rect := Fragment(rowsMin, rowsMax, colsMin, colsMax);
    forall i | 0 <= i < |fragments| ensures fragments[i].InImage(image.Width(), image.Height()) {
      assert fragments[i].Within(rect);
    }
    ParallelFor(fragments, plane, image);
    forall x, y | 0 <= x < image.Width() && 0 <= y < image.Height()
      ensures image.pixels[x, y] == if rect.Contains(y, x) then PixelColor(plane, y, x)
                                    else old(image.pixels[x, y])
    {
      PartitionHits(fragments, rect, Pixel(x, y));
    }
    assert image.writes[|old(image.writes)|..] == AllVisits(fragments, |fragments|);
    forall p ensures Count(image.writes[|old(image.writes)|..], p)
                     == if rect.Contains(p.row, p.column) then 1 else 0
    {
      ExactlyOnce(fragments, rect, p);
    }
  }
}
