/** Grids stored row after row in one flat sequence: the cell in column `x` of row `y` of a
    grid `width` cells wide is at index `y * width + x`. */
module RowMajor {

  /** The column of index `pos`. */
  function Column(pos: nat, width: nat): (x: nat)
    requires width > 0
    ensures x < width
  {
    pos % width
  }

  /** The row of index `pos`. */
  function Row(pos: nat, width: nat, height: nat): (y: nat)
    requires width > 0
    ensures pos < width * height ==> y < height
  {
    RowBound(pos, width, height);
    pos / width
  }

  /** The index of the cell in column `x` of row `y`; a cell inside the grid has an index
      inside it, and so does the rest of its row. */
  function Index(x: nat, y: nat, width: nat, height: nat): (i: nat)
    ensures x < width && y < height ==> i < width * height
    ensures x <= width && y < height ==> i + (width - x) <= width * height
  {
    IndexBound(x, y, width, height);
    y * width + x
  }

  lemma IndexBound(x: nat, y: nat, width: nat, height: nat)
    ensures x <= width && y < height ==> y * width + width <= width * height
  {
    if x <= width && y < height {
      assert y * width + width == (y + 1) * width;
      assert (y + 1) * width <= height * width;
    }
  }

  lemma RowBound(pos: nat, width: nat, height: nat)
    requires width > 0
    ensures pos < width * height ==> pos / width < height
  {
  }

  /** Column and row give back the coordinates an index was made from. */
  lemma Coordinates(x: nat, y: nat, width: nat)
    requires x < width
    ensures (y * width + x) / width == y && (y * width + x) % width == x
  {
    var n := y * width + x;
    var q, r := n / width, n % width;
    assert (q - y) * width == x - r;
    OnlySmallMultiple(q - y, width);
  }

  lemma OnlySmallMultiple(k: int, w: int)
    requires w > 0 && -w < k * w < w
    ensures k == 0
  {
  }

  /** Moving `k` rows down moves the index on by `k` widths. */
  lemma RowsDown(x: nat, y: nat, k: nat, width: nat, height: nat)
    ensures Index(x, y + k, width, height) == Index(x, y, width, height) + k * width
  {
    assert (y + k) * width == y * width + k * width;
  }
}
