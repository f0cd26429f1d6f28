/** Row-major indexing of a `height x width` raster stored as one flat buffer,
    the layout of a continuous `cv::Mat` and of the camera's image buffers. */
module Grid {

  /** Offset of cell `(row, col)` in a raster whose rows are `width` cells long. */
  function RowMajor(row: nat, col: nat, width: nat): (offset: nat)
  {
    row * width + col
  }

  /** Every cell of the raster lands inside the flat buffer of `width * height` cells. */
  lemma RowMajorInRange(row: nat, col: nat, width: nat, height: nat)
    requires row < height && col < width
    ensures RowMajor(row, col, width) < width * height
  {
    calc {
      row * width + col;
    <  row * width + width;
    == (row + 1) * width;
    <= { MulMonotone(row + 1, height, width); }
      height * width;
    }
  }

  /** Every offset of the flat buffer is the row-major offset of exactly one cell:
      the reshape of the `height x width` grid into `width * height` points is a bijection. */
  lemma RowMajorBijection(k: nat, width: nat, height: nat)
    requires k < width * height
    ensures width > 0 && k / width < height && k % width < width
    ensures RowMajor(k / width, k % width, width) == k
    ensures forall row: nat, col: nat :: row < height && col < width && RowMajor(row, col, width) == k ==>
              row == k / width && col == k % width
  {
    var q := k / width;
    assert q * width + k % width == k;
    MulMonotone(height, q, width);
    forall row: nat, col: nat | row < height && col < width && RowMajor(row, col, width) == k
      ensures row == k / width && col == k % width
    {
      DivModUnique(k, width, row, col);
    }
  }

  /** Moving from one row to the next advances the row-major offset by one row. */
  lemma NextRow(row: nat, width: nat, height: nat)
    requires row < height
    ensures row * width + width == (row + 1) * width <= width * height
  {
    MulMonotone(row + 1, height, width);
  }

  lemma MulMonotone(a: int, b: int, c: int)
    ensures 0 <= a <= b && 0 <= c ==> a * c <= b * c
  {
  }

  lemma DivModUnique(k: nat, width: nat, q: nat, r: nat)
    requires r < width && q * width + r == k
    ensures q == k / width && r == k % width
  {
    var q0 := k / width;
    assert q0 * width + k % width == k;
    MulMonotone(q + 1, q0, width);
    MulMonotone(q0 + 1, q, width);
  }
}
