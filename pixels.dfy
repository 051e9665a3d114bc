/**
 * The `Color32` struct of GifMotion/Quantizer.cs: a view of four bytes of
 * pixel memory. Its layout is explicit and every field sits at offset 0, so
 * the four channels all read the same byte (the lowest-addressed one) and
 * `ARGB` reads all four bytes as one little-endian signed 32-bit integer.
 */
module Pixels {

  newtype byte = x: int | 0 <= x < 256

  /** Size in bytes of one `Color32` record (`Marshal.SizeOf(typeof(Color32))`). */
  const PixelSize: nat := 4

  /** A colour with separate channels, as `System.Drawing.Color.FromArgb` takes them. */
  datatype Color = Color(alpha: byte, red: byte, green: byte, blue: byte)

  /** One palette: the entries of a `ColorPalette`. */
  type Palette = seq<Color>

  /** The four bytes of memory one `Color32` overlays, lowest address first. */
  datatype Color32 = Color32(byte0: byte, byte1: byte, byte2: byte, byte3: byte)
  {
    /** The `ARGB` field: the four bytes read as a little-endian two's-complement int. */
    function Argb(): (r: int)
      ensures -0x8000_0000 <= r < 0x8000_0000
      ensures r % 256 == byte0 as int
    {
      var u := Unsigned();
      if u < 0x8000_0000 then u else u - 0x1_0000_0000
    }

    /** The same four bytes read as an unsigned 32-bit value. */
    function Unsigned(): (u: int)
      ensures 0 <= u < 0x1_0000_0000
    {
      byte0 as int + 256 * (byte1 as int + 256 * (byte2 as int + 256 * byte3 as int))
    }

    /** The `Blue` field, at offset 0: the low byte of `ARGB`. */
    function Blue(): (b: byte)
      ensures b as int == Argb() % 256
    {
      byte0
    }

    /** The `Green` field, also at offset 0: the low byte of `ARGB`. */
    function Green(): (b: byte)
      ensures b as int == Argb() % 256
    {
      byte0
    }

    /** The `Red` field, also at offset 0: the low byte of `ARGB`. */
    function Red(): (b: byte)
      ensures b as int == Argb() % 256
    {
      byte0
    }

    /** The `Alpha` field, also at offset 0: the low byte of `ARGB`. */
    function Alpha(): (b: byte)
      ensures b as int == Argb() % 256
    {
      byte0
    }

    /**
     * The `Color` property, `Color.FromArgb(Alpha, Red, Green, Blue)`: because
     * every channel aliases byte 0, the result is a grey whose alpha is that
     * same byte, the low byte of `ARGB`.
     */
    function ToColor(): (c: Color)
      ensures c.alpha == c.red == c.green == c.blue
      ensures c.blue as int == Argb() % 256
    {
      Color(Alpha(), Red(), Green(), Blue())
    }

    /**
     * The channels in the memory order the struct's own remarks describe:
     * blue at the lowest address, then green, red and alpha, which is how
     * `ARGB` packs them. This is the colour the record evidently means.
     */
    function ColorInMemoryOrder(): (c: Color)
      ensures c.alpha as int * 0x100_0000 + c.red as int * 0x1_0000 + c.green as int * 0x100 + c.blue as int
           == Unsigned()
    {
      Color(byte3, byte2, byte1, byte0)
    }
  }

  /** `new Color32(p)`: the record at byte offset `offset` of `mem`. */
  function ReadColor32(mem: seq<byte>, offset: int): (c: Color32)
    requires 0 <= offset && offset + PixelSize <= |mem|
    ensures c.byte0 == mem[offset]
  {
    Color32(mem[offset], mem[offset + 1], mem[offset + 2], mem[offset + 3])
  }

  /** `Marshal.ReadInt32`: the four bytes at `offset`, which is the `ARGB` of the record there. */
  function ReadInt32(mem: seq<byte>, offset: int): (v: int)
    requires 0 <= offset && offset + PixelSize <= |mem|
    ensures -0x8000_0000 <= v < 0x8000_0000
    ensures v % 256 == mem[offset] as int
  {
    ReadColor32(mem, offset).Argb()
  }

  /**
   * `Marshal.ReadInt32` is little-endian: taken modulo 2^32, the value is
   * the four bytes at `offset` with the lowest address as the lowest digit.
   */
  lemma ReadInt32LittleEndian(mem: seq<byte>, offset: int)
    requires 0 <= offset && offset + PixelSize <= |mem|
    ensures (ReadInt32(mem, offset) + 0x1_0000_0000) % 0x1_0000_0000
         == mem[offset] as int + 0x100 * mem[offset + 1] as int
          + 0x1_0000 * mem[offset + 2] as int + 0x100_0000 * mem[offset + 3] as int
  {
  }

  /** Splitting a base-256 number into its low digit and the rest is unique. */
  lemma DigitSplit(d1: int, rest1: int, d2: int, rest2: int)
    requires 0 <= d1 < 256 && 0 <= d2 < 256
    requires d1 + 256 * rest1 == d2 + 256 * rest2
    ensures d1 == d2 && rest1 == rest2
  {
  }

  /**
   * Two records have the same `ARGB` value exactly when their four bytes are
   * equal. This is what lets a comparison of `Marshal.ReadInt32` values stand
   * for equality of pixels.
   */
  lemma ArgbInjective(a: Color32, b: Color32)
    ensures a.Argb() == b.Argb() <==> a == b
  {
    if a.Argb() == b.Argb() {
      assert a.Unsigned() == b.Unsigned();
      DigitSplit(a.byte0 as int, a.byte1 as int + 256 * (a.byte2 as int + 256 * a.byte3 as int),
                 b.byte0 as int, b.byte1 as int + 256 * (b.byte2 as int + 256 * b.byte3 as int));
      DigitSplit(a.byte1 as int, a.byte2 as int + 256 * a.byte3 as int,
                 b.byte1 as int, b.byte2 as int + 256 * b.byte3 as int);
      DigitSplit(a.byte2 as int, a.byte3 as int, b.byte2 as int, b.byte3 as int);
    }
  }

  /**
   * With every field at offset 0, two records that differ anywhere but in
   * their lowest byte give the same `Color`: an opaque pure red (bytes
   * 0, 0, 255, 255) comes out fully transparent black, where the memory
   * order gives opaque red.
   */
  lemma ToColorLosesChannels(a: Color32, b: Color32)
    requires a.byte0 == b.byte0
    ensures a.ToColor() == b.ToColor()
    ensures Color32(0, 0, 255, 255).ToColor() == Color(0, 0, 0, 0)
    ensures Color32(0, 0, 255, 255).ColorInMemoryOrder() == Color(255, 255, 0, 0)
  {
  }
}
