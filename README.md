# GifMotion quantizer pipeline and file-name helpers, in Dafny

This project models two parts of GifMotion:

- The `Quantizer` base class (GifMotion/Quantizer.cs).
  - Its first pass feeds every pixel of a 32-bit-per-pixel bitmap to a strategy hook.
  - Its second pass writes one palette index per pixel into an 8-bit indexed bitmap. A one-entry cache skips the hook for a pixel whose raw value equals the previous one's.
  - The `Color32` record overlays four bytes of pixel memory.
- The extension helpers of GifMotion/Helper.cs.

Modules:

- `Pixels` (pixels.dfy): bytes, the `Color32` record and its fields, `ARGB` as a signed little-endian 32-bit integer, and `Marshal.ReadInt32`.
- `Layout` (layout.dfy): row-strided buffers.
  - `RowStart(row, stride)` is the start of a row, equal to `row * stride`.
  - `SourcePixels` lists the pixels in the order the passes visit them (row-major).
  - `WriteRows` states what the second pass leaves in the output.
- `PixelCache` (cache.dfy): the same-as-previous cache as a function of the pixel sequence, giving which pixels cause a `QuantizePixel` call.
- `Quantization` (quantizer.dfy): the `Quantizer` class, the output bitmap and `Quantize`.
  - `FirstPass` and `SecondPass` are imperative methods with the source's cursors and loops.
  - Each is proved against the specification functions above.
  - The second pass's two loops are split into the methods `SecondPassRows`, `SecondPassRow`, `SecondPassColumns` and `SecondPassPixel`, one per loop level.
- `Helper` (helper.dfy): `GetFilenameExtension`, `CheckExtension`, `IsImage` and the extension table. A C# string that may be null is an `Option<string>`.
- `Wrappers` (wrappers.dfy): `Option` and `Result`.

The source's subclasses supply the hooks. A strategy here is a pair of functions fixed at construction:

- `mapPixel` is `QuantizePixel`.
- `buildPalette` is `GetPalette`.

The state a strategy builds in its first pass is taken to be the whole sequence of pixels given to `InitialQuantizePixel` (the field `history`). Both hooks are functions of that history and their argument. The ghost field `mapCalls` records every pixel given to `QuantizePixel`, so the contracts can count the calls.

Buffers:

- The locked 32-bit source is an immutable `seq<byte>`, because it is locked read-only.
- The locked 8-bit output is an `array<byte>`, which the second pass updates in place.

## Model

| member | source | states |
|---|---|---|
| Pixels.Color32.Argb | GifMotion/Quantizer.cs:235 | `ARGB` is a signed 32-bit value whose low byte is the record's first byte |
| Pixels.ReadColor32 | GifMotion/Quantizer.cs:222-225 | `new Color32(p)` reads the record at `p`; its first byte is the byte at `p` |
| Pixels.Color32.Blue | GifMotion/Quantizer.cs:227 | `Blue` sits at offset 0, so it is the low byte of `ARGB` |
| Pixels.Color32.Green | GifMotion/Quantizer.cs:229 | `Green` also sits at offset 0: the low byte of `ARGB`, not the second byte |
| Pixels.Color32.Red | GifMotion/Quantizer.cs:231 | `Red` also sits at offset 0: the low byte of `ARGB`, not the third byte |
| Pixels.Color32.Alpha | GifMotion/Quantizer.cs:233 | `Alpha` also sits at offset 0: the low byte of `ARGB`, not the fourth byte |
| Pixels.Color32.ToColor | GifMotion/Quantizer.cs:227-240 | all four fields sit at offset 0, so `Color` is a grey whose alpha, red, green and blue are all the low byte of `ARGB` |
| Pixels.ToColorLosesChannels | GifMotion/Quantizer.cs:227-240 | records that agree only in their first byte give the same `Color`; an opaque red comes out transparent black (as written, see Findings) |
| Pixels.Color32.ColorInMemoryOrder | GifMotion/Quantizer.cs:214-218 | the channels in the memory order the struct's remarks describe pack back into the record's unsigned 32-bit value (corrected, see Findings) |
| Pixels.ReadInt32 | GifMotion/Quantizer.cs:148 | `Marshal.ReadInt32` gives a signed 32-bit value whose low byte is the byte at the pointer |
| Pixels.ReadInt32LittleEndian | GifMotion/Quantizer.cs:148 | taken modulo 2^32, `Marshal.ReadInt32` is the four bytes at the pointer, lowest address as lowest digit |
| Pixels.ArgbInjective | GifMotion/Quantizer.cs:148 | two `Marshal.ReadInt32` values are equal exactly when the two records are equal, so the cache test compares pixels |
| Layout.RowStartProduct | GifMotion/Quantizer.cs:165 | adding the stride once per row puts row `row` at byte `row * stride` |
| Layout.SourceRowListed | GifMotion/Quantizer.cs:135-162 | row `row` of the row-major pixel list is the `width` records read from byte `row * stride` on, `PixelSize` bytes apart |
| Layout.SourcePixelAt | GifMotion/Quantizer.cs:84-98 | pixel (row, col) is at position `row * width + col` of the visiting order and is read from byte `row * stride + col * PixelSize`, inside the buffer; row padding is never read |
| Layout.OffsetInjective | GifMotion/Quantizer.cs:158-168 | distinct cells (row, col) with col inside the stride are distinct output bytes |
| Layout.WriteRowsCell | GifMotion/Quantizer.cs:135-169 | after the row loop, output byte `col` of row `row` is the `row * width + col`-th value when `col < width`; the padding bytes of each row keep their old value |
| Layout.WriteRowsBefore | GifMotion/Quantizer.cs:135-169 | bytes at or after the end of the last row are not written |
| Layout.WriteRowsOverwrite | GifMotion/Quantizer.cs:129-132 | the write of the seed value before the loop makes no difference, because the loop writes the same cell with the same value |
| PixelCache.CacheMisses | GifMotion/Quantizer.cs:128-155 | the pixels `QuantizePixel` is called with: the first pixel, then every pixel that differs from its predecessor; the list starts with the first pixel and ends with the last one handled |
| PixelCache.CacheMissCount | GifMotion/Quantizer.cs:128-155 | the number of calls is one (the seed) plus the number of positions whose pixel differs from the one before |
| PixelCache.UniformImageOneCall | GifMotion/Quantizer.cs:128-155 | a uniform image makes exactly one `QuantizePixel` call |
| PixelCache.CacheCovers | GifMotion/Quantizer.cs:146-155 | every pixel handled was one `QuantizePixel` saw, and every call was for a pixel of the image |
| Quantization.IndexedStride | GifMotion/Quantizer.cs:36 | an 8-bit indexed row is padded to a multiple of four bytes, between `width` and `width + 3` bytes long |
| Quantization.IndexedBitmap.constructor | GifMotion/Quantizer.cs:36 | `new Bitmap(width, height, Format8bppIndexed)`: a fresh, zeroed buffer of exactly `height` padded rows, `height * stride` bytes |
| Quantization.Quantized | GifMotion/Quantizer.cs:151-158 | the palette index of every pixel, in order, one per pixel |
| Quantization.Quantizer.constructor | GifMotion/Quantizer.cs:19-23 | the single-pass flag and the hooks are as given, `_pixelSize` is the 4-byte `Color32` size, and no hook has been called yet |
| Quantization.Quantizer.InitialQuantizePixel | GifMotion/Quantizer.cs:186-188 | the strategy takes note of exactly one more pixel |
| Quantization.Quantizer.QuantizePixel | GifMotion/Quantizer.cs:195 | the index is the strategy's mapping of the pixel given what it learnt in the first pass; one more call is recorded |
| Quantization.Quantizer.Quantize | GifMotion/Quantizer.cs:25-69 | fails exactly when width or height is below one; otherwise returns a fresh zeroed indexed bitmap of the image's size; runs the first pass over the widened copy (stride `width * 4`) exactly when not single-pass; never calls `QuantizePixel`, so the second pass does not run |
| Quantization.Quantizer.GetPalette | GifMotion/Quantizer.cs:202 | the palette hook: the strategy's palette for what its first pass saw, given the bitmap's current palette (no further promise; see Left out) |
| Quantization.Quantizer.FirstPass | GifMotion/Quantizer.cs:77-99 | `InitialQuantizePixel` receives exactly the pixels of the grid in row-major order, nothing else |
| Quantization.Quantizer.FirstPassRow | GifMotion/Quantizer.cs:86-95 | one row's `width` pixels go to the hook left to right |
| Quantization.FirstPassOrder | GifMotion/Quantizer.cs:77-99 | the first pass makes `width * height` calls, and call number `row * width + col` gets the record at byte `row * stride + col * 4` |
| Quantization.Quantizer.SecondPass | GifMotion/Quantizer.cs:109-176 | the output holds the strategy's index of every pixel as if no call were skipped (the cache never changes the result); padding and bytes past the last row are untouched; `QuantizePixel` is called exactly for the cache misses |
| Quantization.SecondPassCell | GifMotion/Quantizer.cs:109-176 | output cell (row, col) is `QuantizePixel` of pixel (row, col) when `col < width`, and keeps its old value in the row padding |
| Quantization.Quantizer.SecondPassRows | GifMotion/Quantizer.cs:135-169 | the row loop entered after the seed call writes every row and makes the cache's calls |
| Quantization.Quantizer.SecondPassRow | GifMotion/Quantizer.cs:136-168 | one iteration of the row loop extends the written rows and the calls by one row |
| Quantization.Quantizer.SecondPassColumns | GifMotion/Quantizer.cs:144-162 | the column loop writes the row's run of indices and carries the cache across the row |
| Quantization.Quantizer.SecondPassPixel | GifMotion/Quantizer.cs:146-161 | one pixel: `QuantizePixel` is called exactly when its raw value differs from the previous pixel's; either way the written index is that pixel's own |
| Helper.LastIndexOf | GifMotion/Helper.cs:31 | -1 exactly when the character is absent; otherwise a position holding it with none after it |
| Helper.GetFilenameExtension | GifMotion/Helper.cs:27-37 | an extension is a proper suffix of a non-null path, holds no '.', and directly follows a '.' of the path |
| Helper.ExtensionExistsIffDot | GifMotion/Helper.cs:27-37 | there is an extension exactly when the path is not null and contains a '.'; a null or empty path has none |
| Helper.ExtensionAfterLastDot | GifMotion/Helper.cs:31-33 | an extension contains no '.' and the path is some prefix, a '.', then the extension |
| Helper.ExtensionOfJoin | GifMotion/Helper.cs:31-33 | conversely, prefix + "." + ext has extension ext whenever ext contains no '.' |
| Helper.TrailingDotExample | GifMotion/Helper.cs:33 | a path ending in '.' has the empty extension |
| Helper.SlashAfterDotExample | GifMotion/Helper.cs:31-33 | "a.b/c" has extension "b/c": directory separators are not looked at |
| Helper.LastDotExample | GifMotion/Helper.cs:31-33 | only the last '.' counts: "archive.tar.gz" has extension "gz" |
| Helper.ToLower | GifMotion/Helper.cs:24 | ASCII upper-case letters fold to lower case and nothing else changes |
| Helper.EqualsIgnoreCase | GifMotion/Helper.cs:24 | two strings are equal ignoring case exactly when they are equal once both are folded to lower case |
| Helper.EqualsIgnoreCaseEquivalence | GifMotion/Helper.cs:24 | case-insensitive equality is reflexive, symmetric and transitive |
| Helper.AnyMatches | GifMotion/Helper.cs:24 | `Any` is true exactly when some entry equals the extension ignoring case |
| Helper.CheckExtension | GifMotion/Helper.cs:19-25 | true exactly when the path has an extension, it is non-empty, and some entry equals it ignoring case |
| Helper.CheckExtensionIff | GifMotion/Helper.cs:19-25 | true exactly when the path is not null, has a '.', its extension is non-empty and some entry matches it ignoring case |
| Helper.IsImage | GifMotion/Helper.cs:14-17 | a path judged an image is not null, contains a '.', and its extension is non-empty and, folded to lower case, one of the table's entries |
| Helper.ImageExtensionListed | GifMotion/Helper.cs:14-25 | the check against the table passes only for an extension that, folded, is one of the entries |
| Helper.ListedExtensionsLowered | GifMotion/Helper.cs:11-12 | every entry of `ImageFileExtensions` is non-empty, already lower case and holds no '.', so each can be an extension |
| Helper.ListedExtensionIsImage | GifMotion/Helper.cs:11-25 | conversely, any path ending in '.' and an entry, in any case, is an image |
| Helper.UpperCaseJpgExtension | GifMotion/Helper.cs:31-33 | the extension of "x.JPG" is "JPG" |
| Helper.UpperCaseJpgListed | GifMotion/Helper.cs:11-24 | "JPG" matches the table's "jpg" ignoring case |
| Helper.IsImageExample | GifMotion/Helper.cs:11-17 | "x.JPG" is an image |
| Helper.IsNotImageExample | GifMotion/Helper.cs:11-17 | "x.tar.gz" is not an image |
| Helper.GzExtension | GifMotion/Helper.cs:31-33 | the extension of "x.tar.gz" is "gz" |
| Helper.GzNotListed | GifMotion/Helper.cs:11-12 | "gz" is none of the table's entries, folded or not |
| Helper.TrailingDotNotImage | GifMotion/Helper.cs:11-25 | "x." is not an image, because its extension is empty |

## Left out

- The second pass as the source lays it out. It is one method with two nested loops. Here each loop level is its own method (`SecondPassRows`, `SecondPassRow`, `SecondPassColumns`, `SecondPassPixel`) so that each proof stays small. The statements and their order are the source's.
- GDI+ itself is not modelled: `Graphics.DrawImage`, `LockBits`/`UnlockBits`, `GraphicsUnit` and the `try`/`finally` unlocking.
  - What drawing the image produces is a parameter (`SourceImage.rendered`): tightly packed 32-bit rows, `width * 4` bytes apart.
  - A failing `new Bitmap` is the `InvalidParameter` error. Only non-positive dimensions are modelled; out-of-memory is not.
- The new 8-bit output bitmap is taken to start zero-filled (`IndexedBitmap`'s constructor, and `Quantize`'s result). This is GDI+'s behaviour and is not in the source.
- The 8-bit output stride is taken to be the width rounded up to a multiple of four bytes. This is GDI+'s convention and is not in the source.
- `SecondPass` has a `bounds` parameter that it only passes to `LockBits`, so it is left out. The locked output's stride is a parameter.
- Negative strides (bottom-up bitmaps) and 64-bit pointer arithmetic are not modelled. Offsets are non-negative integers inside the buffer.
- Quantizer.GetPalette: modelled as `buildPalette(history, original)` with no further contract, because the source leaves it to subclasses and nothing calls it.
- Subclass strategies are not modelled: `OctreeQuantizer` and `GrayscaleQuantizer`, which `Extensions` instantiates, are not part of this model.
  - A strategy is taken to be deterministic, that is, a function of the pixels its first pass saw.
  - Hidden state a strategy might change during the second pass is not modelled.
- Helper.EqualsIgnoreCase: folds ASCII letters only, where `InvariantCultureIgnoreCase` compares using culture-invariant Unicode rules. Non-ASCII extensions may compare differently.
- Quantizer.Quantize: a null `source` image is not modelled. The source throws `NullReferenceException` at its first line; a `SourceImage` value cannot be null.
- Helper.CheckExtension: a null `extensions` list is not modelled. `Any` throws `ArgumentNullException` once the extension is non-empty; a `seq<string>` cannot be null.
- Helper.CheckExtension: a null entry in the list is not modelled. `ext.Equals(null, ...)` is false, so a null entry never matches.
- `LoadImage`, `CreateDirectoryFromFilePath` and `CreateDirectoryFromDirectoryPath` are not modelled. They do file-system I/O and console output.
- The rest of the repository is not part of this model: `Extensions` (GIF saving and stream wiring), the `AnimatedGif.Create` factory for the `GifCreator` encoder, and the demo program.

## Findings

| source | as written | input that shows it | evidently intended | confidence | as-written member | corrected member |
|---|---|---|---|---|---|---|
| GifMotion/Quantizer.cs:227-240 | `Blue`, `Green`, `Red` and `Alpha` all carry `FieldOffset(0)`, so each reads the lowest byte, and `Color` is `FromArgb(b0, b0, b0, b0)` | the opaque red pixel with bytes 0, 0, 255, 255 gives `Color` (0, 0, 0, 0), transparent black | offsets 0, 1, 2, 3 (blue, green, red, alpha), the memory order the struct's remarks describe and `ARGB` packs, which gives opaque red (255, 255, 0, 0) | high; not executed | Pixels.ToColorLosesChannels | Pixels.Color32.ColorInMemoryOrder |

The pipeline itself does not depend on this finding. Both passes hand whole records to the hooks, and the cache compares all four bytes through `ARGB`. Only a strategy that reads the channel fields would see the difference.
