/** Rows of equal stride in a linear buffer. */
module Rasters {
  lemma TimesMonotone(x: int, y: int, b: nat)
    ensures x < y ==> (x + 1) * b <= y * b
    ensures x <= y ==> x * b <= y * b
  {
  }

  lemma RowAndColumn(row: nat, column: nat, stride: nat)
    requires column < stride
    ensures (row * stride + column) / stride == row && (row * stride + column) % stride == column
  {
    var i := row * stride + column;
    assert i / stride * stride + i % stride == i;
    TimesMonotone(i / stride, row, stride);
    TimesMonotone(row, i / stride, stride);
  }

  /** A part of one row, as a range of indices. */
  lemma RowRange(i: nat, row: nat, stride: nat, first: nat, length: nat)
    requires 0 < stride && first + length <= stride
    ensures i / stride == row && first <= i % stride < first + length
       <==> row * stride + first <= i < row * stride + first + length
    ensures row * stride + first <= i < row * stride + first + length ==> i % stride == i - row * stride
  {
    assert i / stride * stride + i % stride == i;
    if row * stride + first <= i < row * stride + first + length {
      RowAndColumn(row, i - row * stride, stride);
    }
  }

  lemma RowsFit(top: nat, row: nat, height: nat, stride: nat)
    requires top + row < height
    ensures 0 <= top * stride && 0 <= row * stride && top * stride + row * stride + stride <= height * stride
  {
    assert (top + row + 1) * stride == top * stride + row * stride + stride;
    TimesMonotone(top + row, height, stride);
  }
}
