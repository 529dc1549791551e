/** Memory footprint of a decoded bitmap: the pixel formats of Bitmap.Config
    and the rule "width * height * bytes per pixel". */
module Footprint {

  /** Bitmap.Config: the pixel layouts a bitmap can be decoded into. */
  datatype Config = Argb8888 | Argb4444 | Rgb565 | Alpha8

  /** A decoded bitmap, as far as its memory cost is concerned. */
  datatype Bitmap = Bitmap(width: nat, height: nat, config: Config)

  /** Bits per channel, as each format's name spells them out
      (alpha, red, green, blue in that order, where present). */
  function ChannelBits(c: Config): seq<nat>
  {
    match c
    case Argb8888 => [8, 8, 8, 8]
    case Argb4444 => [4, 4, 4, 4]
    case Rgb565 => [5, 6, 5]
    case Alpha8 => [8]
  }

  function Sum(s: seq<nat>): nat
  {
    if s == [] then 0 else s[0] + Sum(s[1..])
  }

  /** Bytes one pixel takes: 4 for ARGB_8888, 2 for ARGB_4444 and RGB_565,
      1 for ALPHA_8. */
  function BytesPerPixel(c: Config): (n: nat)
    ensures 1 <= n <= 4
  {
    match c
    case Argb8888 => 4
    case Argb4444 => 2
    case Rgb565 => 2
    case Alpha8 => 1
  }

  /** The byte table agrees with the channel layouts: each format's bytes per
      pixel hold exactly its channel bits. */
  lemma BytesPerPixelHoldsChannels(c: Config)
    ensures 8 * BytesPerPixel(c) == Sum(ChannelBits(c))
  {
    var bits := ChannelBits(c);
    assert Sum(bits) == bits[0] + Sum(bits[1..]);
    if |bits| > 1 {
      assert Sum(bits[1..]) == bits[1] + Sum(bits[2..]);
      assert Sum(bits[2..]) == bits[2] + Sum(bits[3..]);
    }
    if |bits| > 3 {
      assert Sum(bits[3..]) == bits[3] + Sum(bits[4..]);
    }
  }

  /** Bitmap.getByteCount for a tightly packed bitmap. */
  function ByteCount(b: Bitmap): (n: nat)
    ensures n == 0 <==> b.width == 0 || b.height == 0
  {
    b.width * b.height * BytesPerPixel(b.config)
  }

  /** Choosing RGB_565 instead of ARGB_8888 halves the memory a bitmap takes. */
  lemma Rgb565HalvesArgb8888(width: nat, height: nat)
    ensures ByteCount(Bitmap(width, height, Argb8888)) == 2 * ByteCount(Bitmap(width, height, Rgb565))
  {
    var pixels := width * height;
    assert ByteCount(Bitmap(width, height, Argb8888)) == pixels * 4;
    assert ByteCount(Bitmap(width, height, Rgb565)) == pixels * 2;
  }

  /** A bitmap no wider and no taller than another of the same format takes no more memory. */
  lemma ByteCountMonotone(small: Bitmap, large: Bitmap)
    requires small.config == large.config
    requires small.width <= large.width && small.height <= large.height
    ensures ByteCount(small) <= ByteCount(large)
  {
    var bpp := BytesPerPixel(small.config);
    MulMonotone(small.width, large.width, small.height);
    MulMonotone(small.height, large.height, large.width);
    assert small.width * small.height <= large.width * large.height;
    MulMonotone(small.width * small.height, large.width * large.height, bpp);
  }

  lemma MulMonotone(a: int, b: int, c: int)
    requires a <= b && 0 <= c
    ensures a * c <= b * c && c * a <= c * b
  {
  }
}
