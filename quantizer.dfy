/**
 * The `Quantizer` base class of GifMotion/Quantizer.cs: the pipeline that
 * walks a locked 32-bit-per-pixel bitmap and, in its second pass, writes one
 * palette index per pixel into an 8-bit indexed bitmap.
 *
 * The source's subclasses supply the hooks. Here a strategy is a pair of
 * functions fixed at construction: `mapPixel` is `QuantizePixel` and
 * `buildPalette` is `GetPalette`. A strategy's accumulated state is taken to
 * be the sequence of pixels `InitialQuantizePixel` has been given
 * (`history`), so both hooks are functions of that history and their input,
 * and `QuantizePixel` is deterministic once the first pass is over.
 */
module Quantization {
  import opened Wrappers
  import opened Pixels
  import opened Layout
  import opened PixelCache

  /** Row length in bytes of an 8-bit indexed bitmap: rows are padded to a multiple of four bytes. */
  function IndexedStride(width: int): (stride: int)
    requires 0 <= width
    ensures width <= stride < width + 4
    ensures stride % 4 == 0
  {
    (width + 3) / 4 * 4
  }

  /** The 8-bit indexed `Bitmap` that `Quantize` creates and returns. */
  class IndexedBitmap {
    const width: int
    const height: int
    const stride: int
    const pixels: array<byte>

    ghost predicate Valid()
    {
      1 <= width && 1 <= height && stride == IndexedStride(width)
      && pixels.Length == height * stride
      && Fits(pixels.Length, width, height, stride, 1)
    }

    /** A new bitmap of the given size; its pixel bytes start out as zero. */
    constructor (width: int, height: int)
      requires 1 <= width && 1 <= height
      ensures Valid() && fresh(pixels)
      ensures this.width == width && this.height == height
      ensures forall i :: 0 <= i < pixels.Length ==> pixels[i] == 0
    {
      this.width := width;
      this.height := height;
      var stride := IndexedStride(width);
      this.stride := stride;
      pixels := new byte[height * stride](_ => 0);
      RowStartProduct(height, stride);
    }
  }

  /** The source image as `Quantize` sees it after widening it to 32 bits per pixel. */
  datatype SourceImage = SourceImage(width: int, height: int, rendered: seq<byte>)
  {
    /** `rendered` holds the tightly packed 32-bit rows that drawing the image produces. */
    predicate Valid()
    {
      1 <= width && 1 <= height ==> |rendered| == height * (width * PixelSize)
    }
  }

  /** A `Bitmap` cannot be created with a width or height below one. */
  datatype QuantizeError = InvalidParameter

  /** The palette index `quantize(history, p)` of every pixel `p` of `ps`, in order. */
  function Quantized(quantize: (seq<Color32>, Color32) -> byte, history: seq<Color32>, ps: seq<Color32>)
    : (r: seq<byte>)
    ensures |r| == |ps|
    ensures forall k {:trigger r[k]} :: 0 <= k < |ps| ==> r[k] == quantize(history, ps[k])
    decreases |ps|
  {
    if |ps| == 0 then [] else Quantized(quantize, history, ps[..|ps| - 1]) + [quantize(history, ps[|ps| - 1])]
  }

  /** `values` holds the palette index `quantize(history, p)` of each pixel `p` of `pixels`. */
  ghost predicate IndexesOf(values: seq<byte>, pixels: seq<Color32>,
                            quantize: (seq<Color32>, Color32) -> byte, history: seq<Color32>)
  {
    |values| == |pixels| && forall k {:trigger values[k]} :: 0 <= k < |pixels| ==> values[k] == quantize(history, pixels[k])
  }

  /**
   * The state the second pass carries from pixel to pixel, once the first
   * `done` of the row-major `pixels` are handled: `previousPixel` is the
   * offset of a pixel with the same raw value as the last one handled,
   * `pixelValue` is that pixel's index in `values`, and `calls` extends
   * `callsBefore` by the pixels the cache misses on among the first `done`
   * (the seed call counts for the first pixel).
   */
  ghost predicate CacheState(mem: seq<byte>, pixels: seq<Color32>, values: seq<byte>, done: int, previousPixel: int,
                             pixelValue: byte, calls: seq<Color32>, callsBefore: seq<Color32>)
  {
    && 1 <= |pixels| == |values| && 0 <= done <= |pixels|
    && 0 <= previousPixel && previousPixel + PixelSize <= |mem|
    && ReadColor32(mem, previousPixel) == pixels[if done == 0 then 0 else done - 1]
    && pixelValue == values[if done == 0 then 0 else done - 1]
    && calls == callsBefore + CacheMisses(pixels, if done == 0 then 1 else done)
  }

  class Quantizer {
    /** `_singlePass`: the strategy needs no first pass. */
    const singlePass: bool
    /** `_pixelSize`: the size of one `Color32` record. */
    const pixelSize: int := PixelSize
    /** The strategy's `QuantizePixel`. */
    const mapPixel: (seq<Color32>, Color32) -> byte
    /** The strategy's `GetPalette`. */
    const buildPalette: (seq<Color32>, Palette) -> Palette

    /** Every pixel given to `InitialQuantizePixel` so far, in order. */
    var history: seq<Color32>
    /** Every pixel given to `QuantizePixel` so far, in order. */
    ghost var mapCalls: seq<Color32>

    constructor (singlePass: bool, mapPixel: (seq<Color32>, Color32) -> byte,
                 buildPalette: (seq<Color32>, Palette) -> Palette)
      ensures this.singlePass == singlePass
      ensures this.mapPixel == mapPixel && this.buildPalette == buildPalette
      ensures history == [] && mapCalls == []
    {
      this.singlePass := singlePass;
      this.mapPixel := mapPixel;
      this.buildPalette := buildPalette;
      history := [];
      mapCalls := [];
    }

    /**
     * Widens `image` to 32 bits per pixel, creates the 8-bit indexed output
     * bitmap of the same size and, unless the strategy is single-pass, runs
     * the first pass over the widened copy, whose rows are `width * 4` bytes
     * apart. The output is returned as created: the second pass and the
     * palette hook are not called.
     */
    method Quantize(image: SourceImage) returns (r: Result<IndexedBitmap, QuantizeError>)
      requires image.Valid()
      modifies this`history
      ensures r.Failure? <==> image.width < 1 || image.height < 1
      ensures r.Success? ==>
        && fresh(r.value) && fresh(r.value.pixels) && r.value.Valid()
        && r.value.width == image.width && r.value.height == image.height
        && (forall i :: 0 <= i < r.value.pixels.Length ==> r.value.pixels[i] == 0)
      ensures r.Success? && !singlePass ==>
        && Fits(|image.rendered|, image.width, image.height, image.width * PixelSize, PixelSize)
        && history == old(history) + SourcePixels(image.rendered, image.width, image.height, image.width * PixelSize)
      ensures r.Failure? || singlePass ==> history == old(history)
      ensures mapCalls == old(mapCalls)
    {
      var height := image.height;
      var width := image.width;
      if width < 1 || height < 1 {
        return Failure(InvalidParameter);
      }
      var copy := image.rendered;
      var output := new IndexedBitmap(width, height);
      var stride := width * pixelSize;
      RowStartProduct(height, stride);
      if !singlePass {
        FirstPass(copy, stride, width, height);
      }
      return Success(output);
    }

    /** The first-pass hook: the strategy takes note of one pixel. */
    method InitialQuantizePixel(pixel: Color32)
      modifies this`history
      ensures history == old(history) + [pixel]
    {
      history := history + [pixel];
    }

    /** The second-pass hook: the palette index of one pixel. */
    method QuantizePixel(pixel: Color32) returns (index: byte)
      modifies this`mapCalls
      ensures index == mapPixel(history, pixel)
      ensures mapCalls == old(mapCalls) + [pixel]
    {
      index := mapPixel(history, pixel);
      mapCalls := mapCalls + [pixel];
    }

    /** The palette hook; `original` is the bitmap's current palette. */
    function GetPalette(original: Palette): Palette
      reads this
    {
      buildPalette(history, original)
    }

    /**
     * Gives every pixel of the `width` x `height` source to
     * `InitialQuantizePixel`, in row-major order, reading pixel (row, col) at
     * byte `Offset(row, col, stride, PixelSize)`.
     */
    method FirstPass(source: seq<byte>, stride: int, width: int, height: int)
      requires Fits(|source|, width, height, stride, PixelSize)
      modifies this`history
      ensures history == old(history) + SourcePixels(source, width, height, stride)
    {
      var sourceRow := 0;
      for row := 0 to height
        invariant Fits(|source|, width, row, stride, PixelSize)
        invariant sourceRow == RowStart(row, stride)
        invariant history == old(history) + SourcePixels(source, width, row, stride)
      {
        BufferRow(stride, height, row);
        FirstPassRow(source, sourceRow, width);
        FitsFewerRows(|source|, width, height, row + 1, stride, PixelSize);
        assert SourcePixels(source, width, row + 1, stride)
            == SourcePixels(source, width, row, stride) + RowPixels(source, sourceRow, width);
        sourceRow := sourceRow + stride;
      }
    }

    /**
     * One iteration of the first pass's row loop: gives the `width` pixels
     * that start at byte `sourceRow` to `InitialQuantizePixel`, left to right.
     */
    method FirstPassRow(source: seq<byte>, sourceRow: int, width: int)
      requires 0 <= sourceRow && 0 <= width && sourceRow + width * PixelSize <= |source|
      modifies this`history
      ensures history == old(history) + RowPixels(source, sourceRow, width)
    {
      var sourcePixel := sourceRow;
      for col := 0 to width
        invariant sourcePixel == sourceRow + col * PixelSize
        invariant history == old(history) + RowPixels(source, sourceRow, col)
      {
        InitialQuantizePixel(ReadColor32(source, sourcePixel));
        sourcePixel := sourcePixel + pixelSize;
      }
    }

    /**
     * Writes the palette index of every source pixel into `output`, row by
     * row: cell (row, col) of the output is byte `col` of row `row`, whose
     * rows are `outputStride` bytes apart. The first pixel is quantized once
     * before the loop; afterwards `QuantizePixel` is called only for a pixel
     * whose raw 32-bit value differs from that of the pixel before it.
     */
    method SecondPass(source: seq<byte>, sourceStride: int, output: array<byte>, outputStride: int,
                      width: int, height: int)
      requires 1 <= width && 1 <= height
      requires Fits(|source|, width, height, sourceStride, PixelSize)
      requires Fits(output.Length, width, height, outputStride, 1)
      modifies output, this`mapCalls
      ensures var pixels := SourcePixels(source, width, height, sourceStride);
        && output[..] == WriteRows(old(output[..]), outputStride, height, width, Quantized(mapPixel, history, pixels))
        && mapCalls == old(mapCalls) + CacheMisses(pixels, |pixels|)
    {
      ghost var pixels := SourcePixels(source, width, height, sourceStride);
      ghost var values := Quantized(mapPixel, history, pixels);
      SourcePixelsRowMajor(source, width, height, sourceStride);
      assert RowListed(pixels, source, width, sourceStride, 0);

      var sourcePixel := 0;
      var destinationPixel := 0;
      var pixelValue := QuantizePixel(ReadColor32(source, sourcePixel));
      output[destinationPixel] := pixelValue;
      assert CacheState(source, pixels, values, 0, sourcePixel, pixelValue, mapCalls, old(mapCalls));

      SecondPassRows(source, sourceStride, output, outputStride, width, height, sourcePixel, pixelValue,
                     pixels, values, old(mapCalls));
      WriteRowsOverwrite(old(output[..]), outputStride, height, width, values);
    }

    /**
     * The row loop of the second pass, entered with the first pixel already
     * quantized: `previousPixel` is its offset and `pixelValue` its index.
     */
    method SecondPassRows(source: seq<byte>, sourceStride: int, output: array<byte>, outputStride: int,
                          width: int, height: int, previousPixel: int, pixelValue: byte,
                          ghost pixels: seq<Color32>, ghost values: seq<byte>, ghost callsBefore: seq<Color32>)
      requires 1 <= width && 1 <= height
      requires Fits(|source|, width, height, sourceStride, PixelSize)
      requires Fits(output.Length, width, height, outputStride, 1)
      requires RowMajor(pixels, source, width, height, sourceStride)
      requires IndexesOf(values, pixels, mapPixel, history)
      requires CacheState(source, pixels, values, 0, previousPixel, pixelValue, mapCalls, callsBefore)
      modifies output, this`mapCalls
      ensures output[..] == WriteRows(old(output[..]), outputStride, height, width, values)
      ensures mapCalls == callsBefore + CacheMisses(pixels, |pixels|)
    {
      var previousPixel, pixelValue := previousPixel, pixelValue;
      ghost var base := output[..];
      var sourceRow := 0;
      var destinationRow := 0;
      for row := 0 to height
        invariant sourceRow == RowStart(row, sourceStride)
        invariant destinationRow == RowStart(row, outputStride) <= RowStart(height, outputStride)
        invariant CacheState(source, pixels, values, RowStart(row, width), previousPixel, pixelValue, mapCalls, callsBefore)
        invariant output[..] == WriteRows(base, outputStride, row, width, values)
      {
        BufferRow(outputStride, height, row);
        assert RowListed(pixels, source, width, sourceStride, row);
        previousPixel, pixelValue :=
          SecondPassRow(source, sourceStride, output, outputStride, width, sourceRow, destinationRow,
                        previousPixel, pixelValue, row, pixels, values, base, callsBefore);
        sourceRow := sourceRow + sourceStride;
        destinationRow := destinationRow + outputStride;
      }
    }

    /**
     * One iteration of the second pass's row loop, for row `row`: afterwards
     * the first `row + 1` rows of `output` hold their indices and the cache
     * state covers the pixels of those rows.
     */
    method SecondPassRow(source: seq<byte>, sourceStride: int, output: array<byte>, outputStride: int,
                         width: int, sourceRow: int, destinationRow: int,
                         previousPixel: int, pixelValue: byte, ghost row: nat,
                         ghost pixels: seq<Color32>, ghost values: seq<byte>,
                         ghost base: seq<byte>, ghost callsBefore: seq<Color32>)
      returns (previousPixel': int, pixelValue': byte)
      requires 1 <= width <= outputStride && |base| == output.Length
      requires sourceRow == RowStart(row, sourceStride) && destinationRow == RowStart(row, outputStride)
      requires 0 <= destinationRow && destinationRow + outputStride <= output.Length
      requires RowListed(pixels, source, width, sourceStride, row)
      requires IndexesOf(values, pixels, mapPixel, history)
      requires CacheState(source, pixels, values, RowStart(row, width), previousPixel, pixelValue, mapCalls, callsBefore)
      requires output[..] == WriteRows(base, outputStride, row, width, values)
      modifies output, this`mapCalls
      ensures CacheState(source, pixels, values, RowStart(row + 1, width), previousPixel', pixelValue', mapCalls, callsBefore)
      ensures output[..] == WriteRows(base, outputStride, row + 1, width, values)
    {
      previousPixel', pixelValue' :=
        SecondPassColumns(source, output, width, sourceRow, destinationRow, previousPixel, pixelValue,
                          pixels, values, RowStart(row, width), callsBefore);
    }

    /**
     * The column loop of the second pass: quantizes the `width`
     * pixels that start at byte `sourceRow`, left to right, through the
     * cache, and writes their indices to the `width` bytes that start at
     * `destinationRow`. Those are pixels `done` to `done + width - 1` in
     * row-major order.
     */
    method SecondPassColumns(source: seq<byte>, output: array<byte>, width: int,
                             sourceRow: int, destinationRow: int, previousPixel: int, pixelValue: byte,
                             ghost pixels: seq<Color32>, ghost values: seq<byte>, ghost done: int,
                             ghost callsBefore: seq<Color32>)
      returns (previousPixel': int, pixelValue': byte)
      requires 0 <= width && 0 <= sourceRow && 0 <= destinationRow && 0 <= done
      requires sourceRow + width * PixelSize <= |source|
      requires destinationRow + width <= output.Length
      requires done + width <= |pixels|
      requires IndexesOf(values, pixels, mapPixel, history)
      requires forall k :: done <= k < done + width ==> pixels[k] == ReadColor32(source, sourceRow + (k - done) * PixelSize)
      requires CacheState(source, pixels, values, done, previousPixel, pixelValue, mapCalls, callsBefore)
      modifies output, this`mapCalls
      ensures CacheState(source, pixels, values, done + width, previousPixel', pixelValue', mapCalls, callsBefore)
      ensures output[..] == WriteRun(old(output[..]), destinationRow, values, done, width)
    {
      previousPixel', pixelValue' := previousPixel, pixelValue;
      var sourcePixel := sourceRow;
      var destinationPixel := destinationRow;
      for col := 0 to width
        invariant sourcePixel == sourceRow + col * PixelSize
        invariant destinationPixel == destinationRow + col
        invariant CacheState(source, pixels, values, done + col, previousPixel', pixelValue', mapCalls, callsBefore)
        invariant output[..] == WriteRun(old(output[..]), destinationRow, values, done, col)
      {
        WriteRunNext(old(output[..]), destinationRow, values, done, col);
        assert pixels[done + col] == ReadColor32(source, sourcePixel);
        previousPixel', pixelValue' :=
          SecondPassPixel(source, output, sourcePixel, destinationPixel, previousPixel', pixelValue',
                          pixels, values, done + col, callsBefore);
        sourcePixel := sourcePixel + pixelSize;
        destinationPixel := destinationPixel + 1;
      }
    }

    /**
     * The body of the second pass's column loop, for the pixel at byte
     * `sourcePixel`, which is pixel `done` in row-major order: if its raw
     * value differs from the one at `previousPixel` it is quantized and
     * becomes the new previous pixel; either way the current index is
     * written to byte `destinationPixel` of `output`.
     */
    method SecondPassPixel(source: seq<byte>, output: array<byte>, sourcePixel: int, destinationPixel: int,
                           previousPixel: int, pixelValue: byte,
                           ghost pixels: seq<Color32>, ghost values: seq<byte>, ghost done: int,
                           ghost callsBefore: seq<Color32>)
      returns (previousPixel': int, pixelValue': byte)
      requires 0 <= sourcePixel && sourcePixel + PixelSize <= |source|
      requires 0 <= destinationPixel < output.Length
      requires 0 <= done < |pixels| && pixels[done] == ReadColor32(source, sourcePixel)
      requires IndexesOf(values, pixels, mapPixel, history)
      requires CacheState(source, pixels, values, done, previousPixel, pixelValue, mapCalls, callsBefore)
      modifies output, this`mapCalls
      ensures CacheState(source, pixels, values, done + 1, previousPixel', pixelValue', mapCalls, callsBefore)
      ensures output[..] == old(output[..])[destinationPixel := values[done]]
    {
      previousPixel', pixelValue' := previousPixel, pixelValue;
      ArgbInjective(ReadColor32(source, previousPixel), pixels[done]);
      if ReadInt32(source, previousPixel) != ReadInt32(source, sourcePixel) {
        pixelValue' := QuantizePixel(ReadColor32(source, sourcePixel));
        previousPixel' := sourcePixel;
      }
      output[destinationPixel] := pixelValue';
    }
  }

  /**
   * The first pass visits the pixels in row-major order: there are
   * `width * height` of them, and visit number `row * width + col` reads the
   * four bytes at `row * stride + col * 4`.
   */
  lemma FirstPassOrder(mem: seq<byte>, width: int, height: nat, stride: int, row: nat, col: int)
    requires Fits(|mem|, width, height, stride, PixelSize)
    requires row < height && 0 <= col < width
    ensures |SourcePixels(mem, width, height, stride)| == width * height
    ensures 0 <= row * width + col < width * height
    ensures 0 <= row * stride + col * PixelSize && row * stride + col * PixelSize + PixelSize <= |mem|
    ensures SourcePixels(mem, width, height, stride)[row * width + col] == ReadColor32(mem, row * stride + col * PixelSize)
  {
    RowStartProduct(height, width);
    RowStartProduct(row, width);
    RowStartProduct(row, stride);
    SourcePixelAt(mem, width, height, stride, row, col);
  }

  /**
   * What the second pass leaves in a cell of the output: byte `col` of row
   * `row` is the palette index of pixel (row, col) when `col < width`, and
   * the padding bytes past `width` keep their old value.
   */
  lemma SecondPassCell(mem: seq<byte>, stride: int, width: int, height: nat, buf: seq<byte>, outputStride: int,
                       quantize: (seq<Color32>, Color32) -> byte, history: seq<Color32>, row: nat, col: int)
    requires Fits(|mem|, width, height, stride, PixelSize)
    requires width <= outputStride && RowStart(height, outputStride) <= |buf|
    requires row < height && 0 <= col < outputStride
    ensures var values := Quantized(quantize, history, SourcePixels(mem, width, height, stride));
      ByteAt(WriteRows(buf, outputStride, height, width, values), outputStride, height, row, col)
      == if col < width then quantize(history, PixelAt(mem, width, height, stride, row, col))
         else ByteAt(buf, outputStride, height, row, col)
  {
    var pixels := SourcePixels(mem, width, height, stride);
    var values := Quantized(quantize, history, pixels);
    WriteRowsCell(buf, outputStride, height, width, values, row, col);
    if col < width {
      SourcePixelAt(mem, width, height, stride, row, col);
      var k := RowStart(row, width) + col;
      assert values[k] == quantize(history, pixels[k]);
      assert pixels[k] == PixelAt(mem, width, height, stride, row, col);
    }
  }
}
