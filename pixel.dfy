/** Packed 32-bit ARGB pixels and the "linear light" blend operator of LockBitmap.Blend.
    C# `int` and `uint` values are modelled as bounded mathematical integers; the bit
    operations the blend uses are written out arithmetically:
    - `v >> n` on an `int` is an arithmetic shift by `n & 31`, i.e. floor division by 2^(n & 31);
    - `v & 0xff` on a two's-complement `int` is the Euclidean remainder modulo 256;
    - OR-ing fields that occupy disjoint bit ranges is their sum. */
module Pixel {

  type int32 = x: int | -0x8000_0000 <= x < 0x8000_0000
  type uint32 = x: int | 0 <= x < 0x1_0000_0000
  type byte = x: int | 0 <= x < 0x100

  /** Opaque black, the colour every frame is cleared to. */
  const OpaqueBlack: uint32 := 0xff00_0000

  /** 2^k for the 32 shift counts an `int` shift can use. */
  const PowersOfTwo: seq<nat> := [
    0x1, 0x2, 0x4, 0x8, 0x10, 0x20, 0x40, 0x80,
    0x100, 0x200, 0x400, 0x800, 0x1000, 0x2000, 0x4000, 0x8000,
    0x1_0000, 0x2_0000, 0x4_0000, 0x8_0000, 0x10_0000, 0x20_0000, 0x40_0000, 0x80_0000,
    0x100_0000, 0x200_0000, 0x400_0000, 0x800_0000, 0x1000_0000, 0x2000_0000, 0x4000_0000, 0x8000_0000]

  /** The unchecked `(int)` cast of a `uint`: the same 32 bits read as two's complement. */
  function AsInt32(u: uint32): (v: int32)
    ensures v % 0x1_0000_0000 == u
    ensures (v < 0) == (u >= 0x8000_0000)
  {
    if u < 0x8000_0000 then u else u - 0x1_0000_0000
  }

  /** The unchecked `(uint)` cast of an `int`. */
  function AsUInt32(v: int32): (u: uint32)
    ensures AsInt32(u) == v
  {
    v % 0x1_0000_0000
  }

  lemma CastRoundTrip(u: uint32)
    ensures AsUInt32(AsInt32(u)) == u
  {
  }

  /** C#'s `v >> count` on an `int`: the count is taken modulo 32 and the shift is arithmetic,
      so the sign survives and a count that is a multiple of 32 shifts nothing. */
  function ShiftRight(v: int32, count: int): (r: int)
    ensures (r < 0) == (v < 0)
    ensures count % 32 == 0 ==> r == v
  {
    v / PowersOfTwo[count % 32]
  }

  /** The arithmetic shift rounds towards negative infinity: `v >> count` is the floor of
      v / 2^(count % 32). */
  lemma ShiftRightFloors(v: int32, count: int)
    ensures var k := PowersOfTwo[count % 32];
      k * ShiftRight(v, count) <= v < k * ShiftRight(v, count) + k
  {
  }

  /** `v & 0xff`: the low eight bits of the two's-complement representation. */
  function LowByte(v: int): (b: byte)
    ensures (v - b) % 0x100 == 0
  {
    v % 0x100
  }

  /** Channel views of a packed pixel (alpha in bits 24-31, then red, green, blue). */
  function Alpha(u: uint32): byte { u / 0x100_0000 }
  function Red(u: uint32): byte { (u / 0x1_0000) % 0x100 }
  function Green(u: uint32): byte { (u / 0x100) % 0x100 }
  function Blue(u: uint32): byte { u % 0x100 }

  /** The per-channel formula of lines 37-39, before clamping. */
  function LinearLight(base: int, top: int): int
  {
    if top < 0x80 then base + 2 * (top - 0x80) else base + 2 * top - 0xff
  }

  /** The clamp to [0, 255] of lines 40-63. */
  function Clamp(v: int): (c: byte)
    ensures 0 <= v <= 0xff ==> c == v
    ensures v > 0xff ==> c == 0xff
    ensures v < 0 ==> c == 0
  {
    if v > 0xff then 0xff else if v < 0 then 0 else v
  }

  /** `(int)0xff000000L | (red << 16) | (green << 8) | blue` for channel values in [0, 255]. */
  function OpaqueArgb(red: byte, green: byte, blue: byte): (v: int32)
    ensures Alpha(AsUInt32(v)) == 0xff
    ensures Red(AsUInt32(v)) == red && Green(AsUInt32(v)) == green && Blue(AsUInt32(v)) == blue
  {
    var u: uint32 := 0xff00_0000 + red * 0x1_0000 + green * 0x100 + blue;
    CastRoundTrip(u);
    assert u / 0x100 == 0xff_0000 + red * 0x100 + green;
    assert u / 0x1_0000 == 0xff00 + red;
    AsInt32(u)
  }

  /** LockBitmap.Blend, as written: the top colour's "blue" is `top >> 0xff`, which is
      `top >> 31`, i.e. 0 or -1 according to the sign bit of `top`. */
  function Blend(bottom: int32, top: int32): (v: int32)
    ensures Alpha(AsUInt32(v)) == 0xff
  {
    var r := LowByte(ShiftRight(bottom, 16));
    var g := LowByte(ShiftRight(bottom, 8));
    var b := LowByte(bottom);
    var num4 := LowByte(ShiftRight(top, 16));
    var num5 := LowByte(ShiftRight(top, 8));
    var num6 := ShiftRight(top, 0xff);
    OpaqueArgb(Clamp(LinearLight(r, num4)), Clamp(LinearLight(g, num5)), Clamp(LinearLight(b, num6)))
  }

  /** What one red or green channel of Blend computes from the base and top channel values. */
  function ChannelBlend(base: byte, top: byte): (r: byte)
    ensures top >= 0x80 ==> r >= base
    ensures top < 0x80 ==> r <= base
    ensures top == 0xff ==> r == 0xff
    ensures top == 0 ==> r == 0
    ensures top == 0x80 ==> r == if base == 0xff then 0xff else base + 1
    ensures top == 0x7f ==> r == if base < 2 then 0 else base - 2
  {
    Clamp(LinearLight(base, top))
  }

  /** The blend as the framebuffer applies it to stored `uint` pixels (line 87): the result is
      always opaque. */
  function BlendPixel(bottom: uint32, color: uint32): (p: uint32)
    ensures Alpha(p) == 0xff
  {
    AsUInt32(Blend(AsInt32(bottom), AsInt32(color)))
  }

  /** Shifting the signed view right by 16 or 8 and masking gives the same byte as the
      unsigned view: the extra 2^32 of a negative value vanishes modulo 256. */
  lemma SignedChannels(u: uint32)
    ensures LowByte(ShiftRight(AsInt32(u), 16)) == Red(u)
    ensures LowByte(ShiftRight(AsInt32(u), 8)) == Green(u)
    ensures LowByte(AsInt32(u)) == Blue(u)
  {
    var v := AsInt32(u);
    assert ShiftRight(v, 16) == v / 0x1_0000 && ShiftRight(v, 8) == v / 0x100;
    if v < 0 {
      assert u == v as int + 0x1_0000_0000;
      assert u / 0x100 == v as int / 0x100 + 0x100_0000;
      assert u / 0x1_0000 == v as int / 0x1_0000 + 0x1_0000;
    }
  }

  /** The top colour's blue term `top >> 0xff` is 0 or -1, so it is always below 0x80. */
  lemma SignShift(top: int32)
    ensures ShiftRight(top, 0xff) == (if top < 0 then -1 else 0)
  {
    assert 0xff % 32 == 31;
  }

  /** Blend read through the pixel channels: alpha is forced to 0xff, red and green are the
      clamped linear-light blend of the two colours' channels, and blue is always 0. */
  lemma BlendChannels(bottom: uint32, top: uint32)
    ensures Alpha(BlendPixel(bottom, top)) == 0xff
    ensures Red(BlendPixel(bottom, top)) == ChannelBlend(Red(bottom), Red(top))
    ensures Green(BlendPixel(bottom, top)) == ChannelBlend(Green(bottom), Green(top))
    ensures Blue(BlendPixel(bottom, top)) == 0
  {
    var b, t := AsInt32(bottom), AsInt32(top);
    SignedChannels(bottom);
    SignedChannels(top);
    SignShift(t);
    var blue := Clamp(LinearLight(Blue(bottom), ShiftRight(t, 0xff)));
    assert blue == 0;
    assert Blend(b, t) == OpaqueArgb(ChannelBlend(Red(bottom), Red(top)), ChannelBlend(Green(bottom), Green(top)), 0);
  }

  /** A brighter top channel or a brighter base never gives a darker result. */
  lemma ChannelBlendMonotone(base: byte, base': byte, top: byte, top': byte)
    requires base <= base' && top <= top'
    ensures ChannelBlend(base, top) <= ChannelBlend(base', top')
  {
  }

  /** A packed pixel is determined by its four channels. */
  lemma PixelFromChannels(u: uint32)
    ensures u == Alpha(u) * 0x100_0000 + Red(u) * 0x1_0000 + Green(u) * 0x100 + Blue(u)
  {
    var q1, q2, q3 := u / 0x100, u / 0x1_0000, u / 0x100_0000;
    assert u == q1 * 0x100 + Blue(u);
    assert q1 == q2 * 0x100 + Green(u);
    assert q2 == q3 * 0x100 + Red(u);
  }

  /** The red, green and blue channels live in the low 24 bits. */
  lemma ColourChannelsAreLow(u: uint32)
    ensures Red(u) == (u % 0x100_0000) / 0x1_0000
    ensures Green(u) == ((u % 0x100_0000) / 0x100) % 0x100
    ensures Blue(u) == (u % 0x100_0000) % 0x100
  {
    var a, low := u / 0x100_0000, u % 0x100_0000;
    assert u == a * 0x100_0000 + low;
    assert u / 0x1_0000 == a * 0x100 + low / 0x1_0000;
    assert u / 0x100 == a * 0x1_0000 + low / 0x100;
  }

  /** Blend reads only the low 24 bits of the bottom pixel: its alpha byte is ignored. */
  lemma BlendIgnoresBottomAlpha(bottom: uint32, bottom': uint32, top: uint32)
    requires bottom % 0x100_0000 == bottom' % 0x100_0000
    ensures BlendPixel(bottom, top) == BlendPixel(bottom', top)
  {
    ColourChannelsAreLow(bottom);
    ColourChannelsAreLow(bottom');
    BlendChannels(bottom, top);
    BlendChannels(bottom', top);
    PixelFromChannels(BlendPixel(bottom, top));
    PixelFromChannels(BlendPixel(bottom', top));
  }

  /** The particle colour, Color.LightSalmon as ARGB. */
  const LightSalmon: uint32 := 0xffff_a07a

  /** The pixel after `n` successive blends of `color` onto `c`. */
  function BlendRepeated(c: uint32, color: uint32, n: nat): uint32
  {
    if n == 0 then c else BlendPixel(BlendRepeated(c, color, n - 1), color)
  }

  /** An opaque pixel with red 255, green `g` and blue 0. */
  function YellowishRed(g: byte): (p: uint32)
    ensures Alpha(p) == 0xff && Red(p) == 0xff && Green(p) == g && Blue(p) == 0
  {
    0xffff_0000 + g * 0x100
  }

  /** The green channel after `n` hits of a colour whose red is 255 and whose green is 0xa0 on
      black: 65 per hit, saturating at 255. */
  function SalmonGreen(n: nat): byte
  {
    if 65 * n < 0xff then 65 * n else 0xff
  }

  /** Blending a colour with red 255 and green 0xa0 onto any pixel gives red 255, blue 0 and
      the pixel's green plus 65, saturating at 255. */
  lemma SalmonStep(p: uint32, color: uint32)
    requires Red(color) == 0xff && Green(color) == 0xa0
    ensures BlendPixel(p, color) == YellowishRed(if Green(p) + 65 < 0xff then Green(p) + 65 else 0xff)
  {
    var next := BlendPixel(p, color);
    BlendChannels(p, color);
    assert Red(next) == 0xff;
    assert Green(next) == (if Green(p) + 65 < 0xff then Green(p) + 65 else 0xff);
    PixelFromChannels(next);
  }

  /** A pixel with no green, hit by `n >= 1` particles of a colour with red 255 and green 0xa0
      (light salmon): red saturates at once, green rises by 65 per hit up to 255, blue stays 0. */
  lemma {:induction false} SalmonHits(c: uint32, color: uint32, n: nat)
    requires Green(c) == 0 && Red(color) == 0xff && Green(color) == 0xa0
    requires n >= 1
    ensures BlendRepeated(c, color, n) == YellowishRed(SalmonGreen(n))
  {
    var prev := BlendRepeated(c, color, n - 1);
    var g := if n > 1 then SalmonGreen(n - 1) else 0;
    assert Green(prev) == g by {
      if n > 1 {
        SalmonHits(c, color, n - 1);
      }
    }
    assert (if g + 65 < 0xff then g + 65 else 0xff) == SalmonGreen(n);
    SalmonStep(prev, color);
  }

  /** On the black background, the pixel hit by `n >= 1` particles is 0xff_ff_gg_00 with
      gg = min(65 n, 255). */
  lemma SalmonOnBlack(n: nat)
    requires n >= 1
    ensures BlendRepeated(OpaqueBlack, LightSalmon, n) == YellowishRed(SalmonGreen(n))
  {
    SalmonHits(OpaqueBlack, LightSalmon, n);
  }
}
