/**
 * Row-major addressing of a locked bitmap (`BitmapData`): the pixel at
 * (row, col) starts `row` strides plus `col` pixels after `Scan0`. The
 * quantizer's cursors reach a row's start by adding the stride once per
 * row, and `RowStart` is defined the same way; `RowStartProduct` gives its
 * closed form `row * stride`.
 */
module Layout {
  import opened Pixels

  /** Byte offset of the first byte of row `row`: `row` strides from the start. */
  function RowStart(row: nat, stride: int): (start: int)
    ensures 0 <= stride ==> 0 <= start
    decreases row
  {
    if row == 0 then 0 else RowStart(row - 1, stride) + stride
  }

  /** The row cursor's position is the product of the row number and the stride. */
  lemma {:induction false} RowStartProduct(row: nat, stride: int)
    ensures RowStart(row, stride) == row * stride
  {
    if row > 0 {
      RowStartProduct(row - 1, stride);
    }
  }

  /** Byte offset of pixel (row, col) in a buffer with the given row stride and pixel size. */
  function Offset(row: nat, col: int, stride: int, pixelSize: int): int
  {
    RowStart(row, stride) + col * pixelSize
  }

  /**
   * A `width` x `height` grid of `pixelSize`-byte pixels with row stride
   * `stride` lies inside a buffer of `length` bytes: a row's pixels fit in its
   * stride and `height` strides fit in the buffer.
   */
  predicate Fits(length: int, width: int, height: int, stride: int, pixelSize: int)
  {
    0 <= width && 0 <= height && 0 < pixelSize && width * pixelSize <= stride && RowStart(height, stride) <= length
  }

  /** A whole row lies before the start of any later row. */
  lemma {:induction false} RowBelow(r1: nat, r2: nat, stride: int)
    requires r1 < r2 && 0 <= stride
    ensures RowStart(r1, stride) + stride <= RowStart(r2, stride)
    decreases r2 - r1
  {
    if r1 + 1 < r2 {
      RowBelow(r1, r2 - 1, stride);
    }
  }

  /** Rows start in order, and none before the buffer does. */
  lemma {:induction false} RowOrder(r1: nat, r2: nat, stride: int)
    requires r1 <= r2 && 0 <= stride
    ensures 0 <= RowStart(r1, stride) <= RowStart(r2, stride)
  {
    if 0 < r1 {
      RowBelow(0, r1, stride);
    }
    if r1 < r2 {
      RowBelow(r1, r2, stride);
    }
  }

  /** Distinct cells of one grid have distinct offsets. */
  lemma {:induction false} OffsetInjective(r1: nat, c1: int, r2: nat, c2: int, stride: int)
    requires 0 <= c1 < stride && 0 <= c2 < stride
    ensures Offset(r1, c1, stride, 1) == Offset(r2, c2, stride, 1) <==> r1 == r2 && c1 == c2
  {
    if r1 < r2 {
      RowBelow(r1, r2, stride);
    } else if r2 < r1 {
      RowBelow(r2, r1, stride);
    }
  }

  /** Every pixel of row `row < height` ends inside the first `height` strides. */
  lemma {:induction false} PixelInside(length: int, row: nat, col: int, width: int, height: int, stride: int,
                                       pixelSize: int)
    requires Fits(length, width, height, stride, pixelSize)
    requires row < height && 0 <= col < width
    ensures 0 <= Offset(row, col, stride, pixelSize)
    ensures Offset(row, col, stride, pixelSize) + pixelSize <= RowStart(height, stride) <= length
  {
    RowStartProduct(col, pixelSize);
    RowStartProduct(width, pixelSize);
    RowBelow(col, width, pixelSize);
    RowOrder(0, row, stride);
    RowBelow(row, height, stride);
  }

  /** A grid that fits also fits with fewer rows. */
  lemma {:induction false} FitsFewerRows(length: int, width: int, height: int, rows: nat, stride: int, pixelSize: int)
    requires Fits(length, width, height, stride, pixelSize)
    requires rows <= height
    ensures Fits(length, width, rows, stride, pixelSize)
  {
    RowStartProduct(width, pixelSize);
    RowOrder(0, width, pixelSize);
    RowOrder(rows, height, stride);
  }

  /** The record at pixel (row, col) of a grid that fits `mem`: the pixel-buffer view's read. */
  function PixelAt(mem: seq<byte>, width: int, height: int, stride: int, row: nat, col: int): (c: Color32)
    requires Fits(|mem|, width, height, stride, PixelSize)
    requires row < height && 0 <= col < width
    ensures 0 <= Offset(row, col, stride, PixelSize) && Offset(row, col, stride, PixelSize) + PixelSize <= |mem|
    ensures c.byte0 == mem[Offset(row, col, stride, PixelSize)]
  {
    PixelInside(|mem|, row, col, width, height, stride, PixelSize);
    ReadColor32(mem, Offset(row, col, stride, PixelSize))
  }

  /** Byte `col` of row `row` in a buffer of `height` rows of `stride` bytes each. */
  function ByteAt(buf: seq<byte>, stride: int, height: int, row: nat, col: int): byte
    requires row < height && 0 <= col < stride && RowStart(height, stride) <= |buf|
  {
    PixelInside(|buf|, row, col, stride, height, stride, 1);
    buf[Offset(row, col, stride, 1)]
  }

  /** The `n` records of one row, starting at byte `start`, left to right. */
  function RowPixels(mem: seq<byte>, start: int, n: int): (r: seq<Color32>)
    requires 0 <= start && 0 <= n && start + n * PixelSize <= |mem|
    ensures |r| == n
    ensures forall col :: 0 <= col < n ==> r[col] == ReadColor32(mem, start + col * PixelSize)
    decreases n
  {
    if n == 0 then [] else RowPixels(mem, start, n - 1) + [ReadColor32(mem, start + (n - 1) * PixelSize)]
  }

  /**
   * The pixels of a `width` x `height` grid of 32-bit records in row-major
   * order: row 0 first, each row left to right; there are `width * height`
   * of them (`RowStart(height, width)`). SourcePixelAt says where each one
   * comes from.
   */
  function SourcePixels(mem: seq<byte>, width: int, height: nat, stride: int): (r: seq<Color32>)
    requires Fits(|mem|, width, height, stride, PixelSize)
    ensures |r| == RowStart(height, width)
    decreases height
  {
    if height == 0 then []
    else
      FitsFewerRows(|mem|, width, height, height - 1, stride, PixelSize);
      RowOrder(0, height - 1, stride);
      SourcePixels(mem, width, height - 1, stride) + RowPixels(mem, RowStart(height - 1, stride), width)
  }

  /**
   * Row `row` of a grid of 32-bit records lies inside `mem` from byte
   * `RowStart(row, stride)` on, and `pixels` lists its `width` records from
   * position `RowStart(row, width)` on.
   */
  ghost predicate RowListed(pixels: seq<Color32>, mem: seq<byte>, width: int, stride: int, row: nat)
  {
    && 0 <= width
    && 0 <= RowStart(row, stride) && RowStart(row, stride) + width * PixelSize <= |mem|
    && 0 <= RowStart(row, width) && RowStart(row, width) + width <= |pixels|
    && forall k :: RowStart(row, width) <= k < RowStart(row, width) + width ==>
         pixels[k] == ReadColor32(mem, RowStart(row, stride) + (k - RowStart(row, width)) * PixelSize)
  }

  /**
   * `pixels` lists the pixels of a `width` by `height` grid of 32-bit
   * records in row-major order: the one at position `RowStart(row, width) + col`
   * is the record at byte `RowStart(row, stride) + col * PixelSize` of `mem`.
   */
  ghost predicate RowMajor(pixels: seq<Color32>, mem: seq<byte>, width: int, height: nat, stride: int)
  {
    && |pixels| == RowStart(height, width)
    && forall row: nat :: row < height ==> RowListed(pixels, mem, width, stride, row)
  }

  /** Row `row` of the grid is listed in `SourcePixels` where row-major order puts it. */
  lemma {:induction false} SourceRowListed(mem: seq<byte>, width: int, height: nat, stride: int, row: nat)
    requires Fits(|mem|, width, height, stride, PixelSize)
    requires row < height
    ensures RowListed(SourcePixels(mem, width, height, stride), mem, width, stride, row)
    decreases height
  {
    FitsFewerRows(|mem|, width, height, height - 1, stride, PixelSize);
    BufferRow(stride, height, row);
    RowOrder(0, row, width);
    RowOrder(0, height - 1, stride);
    var prefix := SourcePixels(mem, width, height - 1, stride);
    var last := RowPixels(mem, RowStart(height - 1, stride), width);
    assert SourcePixels(mem, width, height, stride) == prefix + last;
    if row < height - 1 {
      SourceRowListed(mem, width, height - 1, stride, row);
      RowBelow(row, height - 1, width);
    }
  }

  /** The rows read one after another are the grid in row-major order. */
  lemma {:induction false} SourcePixelsRowMajor(mem: seq<byte>, width: int, height: nat, stride: int)
    requires Fits(|mem|, width, height, stride, PixelSize)
    ensures RowMajor(SourcePixels(mem, width, height, stride), mem, width, height, stride)
  {
    forall row: nat | row < height
      ensures RowListed(SourcePixels(mem, width, height, stride), mem, width, stride, row)
    {
      SourceRowListed(mem, width, height, stride, row);
    }
  }

  /**
   * Pixel (row, col) is at position `row * width + col` of the row-major
   * sequence, and its bytes are those at `row * stride + col * PixelSize`:
   * row padding is skipped and never read.
   */
  lemma SourcePixelAt(mem: seq<byte>, width: int, height: nat, stride: int, row: nat, col: int)
    requires Fits(|mem|, width, height, stride, PixelSize)
    requires row < height && 0 <= col < width
    ensures 0 <= Offset(row, col, width, 1) < |SourcePixels(mem, width, height, stride)|
    ensures 0 <= Offset(row, col, stride, PixelSize) && Offset(row, col, stride, PixelSize) + PixelSize <= |mem|
    ensures SourcePixels(mem, width, height, stride)[Offset(row, col, width, 1)]
         == ReadColor32(mem, Offset(row, col, stride, PixelSize))
  {
    SourceRowListed(mem, width, height, stride, row);
    var k := RowStart(row, width) + col;
    assert k - RowStart(row, width) == col;
  }

  /** Row `row < height` of a buffer lies inside the first `height` strides. */
  lemma {:induction false} BufferRow(stride: int, height: nat, row: nat)
    requires row < height && 0 <= stride
    ensures 0 <= RowStart(row, stride) && RowStart(row, stride) + stride <= RowStart(height, stride)
  {
    RowOrder(0, row, stride);
    RowBelow(row, height, stride);
  }

  /**
   * `buf` after `n` bytes of `values`, from position `start` on, are
   * written one by one to the bytes from `at` on.
   */
  function WriteRun(buf: seq<byte>, at: int, values: seq<byte>, start: int, n: nat): (r: seq<byte>)
    requires 0 <= at && at + n <= |buf|
    requires 0 <= start && start + n <= |values|
    ensures |r| == |buf|
    ensures forall i {:trigger r[i]} :: 0 <= i < |buf| ==> r[i] == if at <= i < at + n then values[start + i - at] else buf[i]
    decreases n
  {
    if n == 0 then buf else WriteRun(buf, at, values, start, n - 1)[at + n - 1 := values[start + n - 1]]
  }

  /** A run one byte longer is the shorter run with one more byte written. */
  lemma WriteRunNext(buf: seq<byte>, at: int, values: seq<byte>, start: int, n: nat)
    requires 0 <= at && at + n < |buf|
    requires 0 <= start && start + n < |values|
    ensures WriteRun(buf, at, values, start, n + 1) == WriteRun(buf, at, values, start, n)[at + n := values[start + n]]
  {
  }

  /**
   * `buf` after the first `rows` rows of a `width`-wide grid, given in
   * row-major order by `values`, are written row by row into a buffer with
   * row stride `stride`; the bytes of each row past `width` are not written.
   */
  function WriteRows(buf: seq<byte>, stride: int, rows: nat, width: int, values: seq<byte>): (r: seq<byte>)
    requires 0 <= width <= stride && RowStart(rows, stride) <= |buf| && RowStart(rows, width) <= |values|
    ensures |r| == |buf|
    decreases rows
  {
    if rows == 0 then buf
    else
      RowOrder(rows - 1, rows, stride);
      RowOrder(rows - 1, rows, width);
      WriteRun(WriteRows(buf, stride, rows - 1, width, values), RowStart(rows - 1, stride),
               values, RowStart(rows - 1, width), width)
  }

  /**
   * After `height` rows are written, cell (row, col) holds value
   * `row * width + col` when `col < width`, and the row padding keeps its
   * old byte.
   */
  lemma {:induction false} WriteRowsCell(buf: seq<byte>, stride: int, height: nat, width: int, values: seq<byte>,
                                         row: nat, col: int)
    requires 0 <= width <= stride && RowStart(height, stride) <= |buf| && RowStart(height, width) <= |values|
    requires row < height && 0 <= col < stride
    ensures 0 <= col < width ==> 0 <= RowStart(row, width) + col < |values|
    ensures ByteAt(WriteRows(buf, stride, height, width, values), stride, height, row, col)
         == if col < width then values[RowStart(row, width) + col] else ByteAt(buf, stride, height, row, col)
    decreases height
  {
    RowBelow(row, height, width);
    var last := height - 1;
    RowOrder(last, height, stride);
    RowOrder(last, height, width);
    PixelInside(|buf|, row, col, stride, height, stride, 1);
    var offset := Offset(row, col, stride, 1);
    var start := RowStart(last, stride);
    var previous := WriteRows(buf, stride, last, width, values);
    assert WriteRows(buf, stride, height, width, values)[offset]
        == if start <= offset < start + width then values[RowStart(last, width) + offset - start] else previous[offset];
    if row < last {
      RowBelow(row, last, stride);
      RowBelow(row, last, width);
      WriteRowsCell(buf, stride, last, width, values, row, col);
    } else if width <= col {
      WriteRowsBefore(buf, stride, last, width, values, offset);
    }
  }

  /** Bytes at or after the start of row `rows` are not written by the first `rows` rows. */
  lemma {:induction false} WriteRowsBefore(buf: seq<byte>, stride: int, rows: nat, width: int, values: seq<byte>,
                                           i: int)
    requires 0 <= width <= stride && RowStart(rows, stride) <= |buf| && RowStart(rows, width) <= |values|
    requires RowStart(rows, stride) <= i < |buf|
    ensures WriteRows(buf, stride, rows, width, values)[i] == buf[i]
    decreases rows
  {
    if 0 < rows {
      RowOrder(rows - 1, rows, stride);
      RowOrder(rows - 1, rows, width);
      WriteRowsBefore(buf, stride, rows - 1, width, values, i);
    }
  }

  /**
   * Once at least one row is written, a value stored beforehand in cell
   * (0, 0) makes no difference: that cell is overwritten with `values[0]`.
   */
  lemma {:induction false} WriteRowsOverwrite(buf: seq<byte>, stride: int, rows: nat, width: int, values: seq<byte>)
    requires 1 <= width <= stride && 1 <= rows && RowStart(rows, stride) <= |buf| && RowStart(rows, width) <= |values|
    ensures 0 < |values| && 0 < |buf|
    ensures WriteRows(buf[0 := values[0]], stride, rows, width, values) == WriteRows(buf, stride, rows, width, values)
    decreases rows
  {
    RowOrder(rows - 1, rows, stride);
    RowOrder(rows - 1, rows, width);
    if 1 < rows {
      WriteRowsOverwrite(buf, stride, rows - 1, width, values);
    } else {
      assert WriteRun(buf[0 := values[0]], 0, values, 0, width) == WriteRun(buf, 0, values, 0, width);
    }
  }
}
