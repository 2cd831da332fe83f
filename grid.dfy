/**
 * Row-major traversal of a grid indexed `cells[x][y]`: row `y = 0` first,
 * and within a row `x` from left to right, as the rasterizer's
 * `for _y ...: for _x ...:` loops visit the pixels.
 */
module Grid {

  /** The grid covers every column `x < width` and row `y < height`. */
  predicate Covers<T>(cells: seq<seq<T>>, width: nat, height: nat)
  {
    |cells| >= width && forall x :: 0 <= x < width ==> |cells[x]| >= height
  }

  /** Row `y`, left to right. */
  function Row<T>(cells: seq<seq<T>>, width: nat, y: nat): (row: seq<T>)
    requires Covers(cells, width, y + 1)
    ensures |row| == width
  {
    seq(width, x requires 0 <= x < width => cells[x][y])
  }

  /** The first `height` rows, one after the other. */
  function RowMajor<T>(cells: seq<seq<T>>, width: nat, height: nat): seq<T>
    requires Covers(cells, width, height)
  {
    if height == 0 then [] else RowMajor(cells, width, height - 1) + Row(cells, width, height - 1)
  }

  lemma MulLeq(a: nat, b: nat, c: nat)
    requires a <= b
    ensures a * c <= b * c
  {}

  /** A flat index below `width * height` names column `k % width` of row `k / width`. */
  lemma FlatIndexInGrid(k: nat, width: nat, height: nat)
    requires k < width * height
    ensures width > 0 && k % width < width && k / width < height
    ensures k == (k / width) * width + k % width
  {
    if k / width >= height {
      MulLeq(height, k / width, width);
    }
  }

  /** Where position `y * width + x` falls: in the rows before the last one, or in the last row. */
  lemma RowMajorBounds(x: nat, y: nat, width: nat, height: nat)
    requires x < width && y < height
    ensures y * width + x < width * height
    ensures y < height - 1 ==> y * width + x < width * (height - 1)
    ensures y == height - 1 ==> y * width + x == width * (height - 1) + x
    ensures width * (height - 1) + width == width * height
  {
    if y < height - 1 {
      MulLeq(y + 1, height - 1, width);
    }
  }

  /** One element per cell. */
  lemma {:induction false} RowMajorLength<T>(cells: seq<seq<T>>, width: nat, height: nat)
    requires Covers(cells, width, height)
    ensures |RowMajor(cells, width, height)| == width * height
  {
    if height > 0 {
      RowMajorLength(cells, width, height - 1);
      assert width * (height - 1) + width == width * height;
    }
  }

  /** Cell (x, y) sits at position `y * width + x`. */
  lemma {:induction false} RowMajorAt<T>(cells: seq<seq<T>>, width: nat, height: nat, x: nat, y: nat)
    requires Covers(cells, width, height)
    requires x < width && y < height
    ensures |RowMajor(cells, width, height)| == width * height
    ensures y * width + x < width * height
    ensures RowMajor(cells, width, height)[y * width + x] == cells[x][y]
  {
    var before := RowMajor(cells, width, height - 1);
    var row := Row(cells, width, height - 1);
    RowMajorLength(cells, width, height - 1);
    RowMajorBounds(x, y, width, height);
    var i := y * width + x;
    if y < height - 1 {
      RowMajorAt(cells, width, height - 1, x, y);
      assert RowMajor(cells, width, height)[i] == before[i];
    } else {
      assert RowMajor(cells, width, height)[i] == row[x];
    }
  }

  /** Position `k` holds cell (k % width, k / width). */
  lemma RowMajorAtFlat<T>(cells: seq<seq<T>>, width: nat, height: nat, k: nat)
    requires Covers(cells, width, height)
    requires k < width * height
    ensures width > 0 && k % width < width && k / width < height
    ensures |RowMajor(cells, width, height)| == width * height
    ensures RowMajor(cells, width, height)[k] == cells[k % width][k / width]
  {
    FlatIndexInGrid(k, width, height);
    RowMajorAt(cells, width, height, k % width, k / width);
  }

  /** Two different positions name two different cells. */
  lemma PositionsDistinct(width: nat, height: nat, k1: nat, k2: nat)
    requires k1 < width * height && k2 < width * height && k1 != k2
    ensures k1 % width != k2 % width || k1 / width != k2 / width
  {
    FlatIndexInGrid(k1, width, height);
    FlatIndexInGrid(k2, width, height);
  }

  /** Two different cells are visited at two different positions. */
  lemma RowMajorDistinct(width: nat, x1: nat, y1: nat, x2: nat, y2: nat)
    requires x1 < width && x2 < width
    requires x1 != x2 || y1 != y2
    ensures y1 * width + x1 != y2 * width + x2
  {
    if y1 < y2 {
      MulLeq(y1 + 1, y2, width);
    } else if y2 < y1 {
      MulLeq(y2 + 1, y1, width);
    }
  }
}
