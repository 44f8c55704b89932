/**
 * The screen of src/main.rs: an RGBA byte buffer of a given width, rewritten
 * in place by `apply_palette_dithered`, one whole 4-byte pixel at a time.
 */
module Screens {
  import opened Colors
  import opened OrderedDither
  import opened PaletteMatch

  /**
   * What `apply_palette_dithered` needs to run without panicking: once
   * there is a whole pixel, a non-zero width (for `i / width`) and a
   * non-empty palette (for `colors[0]`); and pixel coordinates that fit an
   * i32 (for `try_into().unwrap()`), ensured here by at most 2^31 pixels.
   */
  predicate CanDither(length: nat, width: nat, palette: Palette) {
    length / 4 <= 0x8000_0000
    && (length >= 4 ==> width > 0 && |palette.colors| > 0)
  }

  /** The RGB bytes of the whole pixel i (bytes 4i .. 4i + 3). */
  function PixelAt(buf: seq<byte>, i: nat): Rgb
    requires i < |buf| / 4
  {
    Rgb(buf[4 * i], buf[4 * i + 1], buf[4 * i + 2])
  }

  /** A whole pixel i lies inside the buffer. */
  lemma PixelInBuffer(length: nat, i: nat)
    requires i < length / 4
    ensures 4 <= length && 4 * i + 4 <= length
  {
  }

  /** Byte k of pixel i sits at 4i + k. */
  lemma ByteOffset(i: nat, k: nat)
    requires k < 4
    ensures (4 * i + k) / 4 == i && (4 * i + k) % 4 == k
  {
  }

  lemma {:induction false} MulAtLeast(a: nat, b: nat)
    requires a >= 1
    ensures a * b >= b
  {
    if a > 1 {
      MulAtLeast(a - 1, b);
      assert a * b == (a - 1) * b + b;
    }
  }

  /** Both coordinates of pixel i are at most i, so they fit an i32 when i does. */
  lemma CoordinatesFit(i: nat, width: nat)
    requires width > 0
    ensures 0 <= i % width <= i && 0 <= i / width <= i
  {
    var q, r := i / width, i % width;
    assert i == width * q + r;
    MulAtLeast(width, q);
  }

  /** The new colour of pixel i, at x = i % width and y = i / width, from its own RGB only. */
  function DitheredPixel(palette: Palette, space: ColorSpace, width: nat, i: nat, px: Rgb): (c: Rgb)
    requires width > 0 && |palette.colors| > 0 && i < 0x8000_0000
    ensures exists j | 0 <= j < |palette.colors| :: c == space.toRgb(palette.colors[j])
  {
    var cm := ClosestMix(palette, space, px);
    CoordinatesFit(i, width);
    Dither(i % width, i / width, cm.closest, cm.alternative, cm.mix)
  }

  /** Channel k (0 red, 1 green, 2 blue) of a colour. */
  function ChannelOf(c: Rgb, k: nat): byte
    requires k < 3
  {
    if k == 0 then c.r else if k == 1 then c.g else c.b
  }

  /**
   * Byte j of the buffer after the pass: the R, G and B bytes of every whole
   * pixel take the dithered colour; alpha bytes and the bytes after the
   * last whole pixel keep their value.
   */
  function DitheredByte(buf: seq<byte>, width: nat, palette: Palette, space: ColorSpace, j: nat): byte
    requires CanDither(|buf|, width, palette) && j < |buf|
  {
    var i := j / 4;
    if i < |buf| / 4 && j % 4 < 3 then
      ChannelOf(DitheredPixel(palette, space, width, i, PixelAt(buf, i)), j % 4)
    else
      buf[j]
  }

  /** The bytes of pixel i after the pass. */
  lemma DitheredByteAt(buf: seq<byte>, width: nat, palette: Palette, space: ColorSpace, i: nat, k: nat)
    requires CanDither(|buf|, width, palette) && i < |buf| / 4 && k < 4
    ensures 4 * i + k < |buf|
    ensures DitheredByte(buf, width, palette, space, 4 * i + k)
            == if k < 3 then ChannelOf(DitheredPixel(palette, space, width, i, PixelAt(buf, i)), k)
               else buf[4 * i + k]
  {
    ByteOffset(i, k);
  }

  /** The whole buffer after `apply_palette_dithered`. */
  function Dithered(buf: seq<byte>, width: nat, palette: Palette, space: ColorSpace): (out: seq<byte>)
    requires CanDither(|buf|, width, palette)
    ensures |out| == |buf|
    ensures forall j {:trigger out[j]} | 0 <= j < |buf| && j % 4 == 3 :: out[j] == buf[j]
    ensures forall j {:trigger out[j]} | 4 * (|buf| / 4) <= j < |buf| :: out[j] == buf[j]
  {
    seq(|buf|, j requires 0 <= j < |buf| => DitheredByte(buf, width, palette, space, j))
  }

  /**
   * Pixel i of the result is the dither decision at (i % width, i / width)
   * between the two palette candidates for pixel i's original colour, and
   * its alpha is unchanged.
   */
  lemma DitheredPixelAt(buf: seq<byte>, width: nat, palette: Palette, space: ColorSpace, i: nat)
    requires CanDither(|buf|, width, palette) && i < |buf| / 4
    ensures |palette.colors| > 0 && width > 0 && i < 0x8000_0000
    ensures var out := Dithered(buf, width, palette, space);
            PixelAt(out, i) == DitheredPixel(palette, space, width, i, PixelAt(buf, i))
            && out[4 * i + 3] == buf[4 * i + 3]
  {
    PixelInBuffer(|buf|, i);
    var out := Dithered(buf, width, palette, space);
    var c := DitheredPixel(palette, space, width, i, PixelAt(buf, i));
    assert out[4 * i] == c.r by { DitheredByteAt(buf, width, palette, space, i, 0); }
    assert out[4 * i + 1] == c.g by { DitheredByteAt(buf, width, palette, space, i, 1); }
    assert out[4 * i + 2] == c.b by { DitheredByteAt(buf, width, palette, space, i, 2); }
    assert out[4 * i + 3] == buf[4 * i + 3] by { ByteOffset(i, 3); }
  }

  /**
   * Pixels are independent: a pixel's result depends on its own original
   * bytes and its index only, never on any other pixel.
   */
  lemma PixelsIndependent(buf: seq<byte>, buf': seq<byte>, width: nat, palette: Palette, space: ColorSpace, i: nat)
    requires CanDither(|buf|, width, palette) && CanDither(|buf'|, width, palette)
    requires i < |buf| / 4 && i < |buf'| / 4
    requires PixelAt(buf, i) == PixelAt(buf', i) && buf[4 * i + 3] == buf'[4 * i + 3]
    ensures var out, out' := Dithered(buf, width, palette, space), Dithered(buf', width, palette, space);
            PixelAt(out, i) == PixelAt(out', i) && out[4 * i + 3] == out'[4 * i + 3]
  {
    DitheredPixelAt(buf, width, palette, space, i);
    DitheredPixelAt(buf', width, palette, space, i);
  }

  /** Every rewritten pixel shows the RGB form of some palette colour. */
  lemma OnlyPaletteColors(buf: seq<byte>, width: nat, palette: Palette, space: ColorSpace, i: nat)
    requires CanDither(|buf|, width, palette) && i < |buf| / 4
    ensures exists j | 0 <= j < |palette.colors| ::
              PixelAt(Dithered(buf, width, palette, space), i) == space.toRgb(palette.colors[j])
  {
    DitheredPixelAt(buf, width, palette, space, i);
  }

  /** The first n whole pixels of `cur` are done and the rest is still as in `before`. */
  ghost predicate DonePrefix(cur: seq<byte>, before: seq<byte>, width: nat, palette: Palette, space: ColorSpace, n: nat)
    requires CanDither(|before|, width, palette)
  {
    && |cur| == |before|
    && 4 * n <= |before|
    && (forall j | 0 <= j < 4 * n :: cur[j] == DitheredByte(before, width, palette, space, j))
    && (forall j | 4 * n <= j < |cur| :: cur[j] == before[j])
  }

  /** Writing pixel n's dithered colour and its own alpha extends the done prefix by one pixel. */
  lemma DonePrefixStep(cur: seq<byte>, before: seq<byte>, width: nat, palette: Palette, space: ColorSpace, n: nat, c: Rgb)
    requires CanDither(|before|, width, palette) && n < |before| / 4
    requires DonePrefix(cur, before, width, palette, space, n)
    requires c == DitheredPixel(palette, space, width, n, PixelAt(before, n))
    ensures DonePrefix(cur[4 * n := c.r][4 * n + 1 := c.g][4 * n + 2 := c.b][4 * n + 3 := cur[4 * n + 3]],
                       before, width, palette, space, n + 1)
  {
    var next := cur[4 * n := c.r][4 * n + 1 := c.g][4 * n + 2 := c.b][4 * n + 3 := cur[4 * n + 3]];
    forall j | 0 <= j < 4 * n + 4
      ensures next[j] == DitheredByte(before, width, palette, space, j)
    {
      if j >= 4 * n {
        DitheredByteAt(before, width, palette, space, n, j - 4 * n);
      }
    }
    forall j | 4 * n + 4 <= j < |next|
      ensures next[j] == before[j]
    {
    }
  }

  /** Once every whole pixel is done, the buffer is the dithered one. */
  lemma DonePrefixComplete(cur: seq<byte>, before: seq<byte>, width: nat, palette: Palette, space: ColorSpace)
    requires CanDither(|before|, width, palette)
    requires DonePrefix(cur, before, width, palette, space, |before| / 4)
    ensures cur == Dithered(before, width, palette, space)
  {
  }

  /** The screen: a row-major RGBA buffer `width` pixels wide and its palette. */
  class Screen {
    var width: nat
    var buffer: array<byte>
    var palette: Palette

    /** The fields as `Screen::new` sets them, the buffer already resized and converted to RGBA. */
    constructor (width: nat, buffer: array<byte>, palette: Palette)
      ensures this.width == width && this.buffer == buffer && this.palette == palette
    {
      this.width := width;
      this.buffer := buffer;
      this.palette := palette;
    }

    /**
     * `apply_palette_dithered`: every whole 4-byte pixel, in order, is
     * replaced by the dithered palette colour for its own original RGB and
     * its position, with its alpha byte written back unchanged.
     */
    method ApplyPaletteDithered(space: ColorSpace)
      requires CanDither(buffer.Length, width, palette)
      modifies buffer
      ensures buffer[..] == Dithered(old(buffer[..]), width, palette, space)
    {
      ghost var before := buffer[..];
      var i := 0;
      while i < buffer.Length / 4
        invariant 0 <= i <= buffer.Length / 4
        invariant DonePrefix(buffer[..], before, width, palette, space, i)
      {
        var r, g, b, a := buffer[4 * i], buffer[4 * i + 1], buffer[4 * i + 2], buffer[4 * i + 3];
        CoordinatesFit(i, width);
        var y, x := i / width, i % width;
        var cm := FindClosest(palette, space, r, g, b, a);
        var c := Dither(x, y, cm.closest, cm.alternative, cm.mix);
        assert PixelAt(before, i) == Rgb(r, g, b);
        DonePrefixStep(buffer[..], before, width, palette, space, i, c);
        buffer[4 * i], buffer[4 * i + 1], buffer[4 * i + 2], buffer[4 * i + 3] := c.r, c.g, c.b, a;
        i := i + 1;
      }
      DonePrefixComplete(buffer[..], before, width, palette, space);
    }
  }
}
