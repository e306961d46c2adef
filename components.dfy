/** The colour components of a blur hash: the DC term packed as a 24-bit RGB value, the AC
    terms packed as base-19 triples of quantisation levels, the clamps applied on the way, and
    the floating-point kernels of the codec, which this model takes as given functions. */
module Components {
  import opened Base83

  /** An unsigned 8-bit value (uint8_t). */
  type Byte = b: int | 0 <= b < 256

  /** A floating-point colour triple (three floats of the factors or colors arrays). */
  datatype Rgb = Rgb(r: real, g: real, b: real)

  /** An integer triple: sRGB bytes of the DC term, or quantisation levels of an AC term. */
  datatype Triple = Triple(r: int, g: int, b: int)

  /** The floating-point computations of the codec, which are not modelled. Reals stand in for
      floats. Each field carries only the integer range the C code guarantees for it:
      - linearToSRGB: linearTosRGB, which clamps its input to [0,1] first, so its result is
        always a byte;
      - sRGBToLinear: sRGBToLinear;
      - acLevel: floorf(signPow(v, 0.5) * 9 + 9.5) in encodeAC, before the clamp to [0,18];
      - maxLevel: floorf(v * 166 - 0.5) in blurHashForPixels, before the clamp to [0,82];
      - cosine: (a, k, n) maps to cos((M_PI * a * k) / n), the factor of the basis function
        of the decoder's pixel loops;
      - multiply: the rounded float products of the decoder: in its pixel loops, both in the
        basis function and in the weighting of a colour by it, and in maxValue * punch, the
        scale of the AC colours;
      - divide: the rounded float quotient r / maximumValue of encodeAC. */
  datatype Numerics = Numerics(
    linearToSRGB: real -> Byte,
    sRGBToLinear: int -> real,
    acLevel: real -> int,
    maxLevel: real -> int,
    cosine: (int, int, int) -> real,
    multiply: (real, real) -> real,
    divide: (real, real) -> real)

  /** Channel c (red, green, blue) of a colour. */
  function Channel(colour: Rgb, c: int): real
  {
    if c == 0 then colour.r else if c == 1 then colour.g else colour.b
  }

  /** The maximum AC magnitude a quantised maximum stands for: (q + 1) / 166, the maximumValue
      of blurHashForPixels and the maxValue of decodeToArray. */
  function MaximumValue(quantisedMaximum: int): real
  {
    (quantisedMaximum + 1) as real / 166.0
  }

  /** fmaxf(lo, fminf(hi, v)) on an integral v. */
  function Clamp(v: int, lo: int, hi: int): (r: int)
    requires lo <= hi
    ensures lo <= r <= hi
    ensures lo <= v <= hi ==> r == v
    ensures v < lo ==> r == lo
    ensures v > hi ==> r == hi
  {
    var low := if v < hi then v else hi;
    if lo < low then low else lo
  }

  /** clampToUByte (src/blurhash_ffi.c:141-145). */
  function ClampToUByte(v: int): (b: Byte)
    ensures b == Clamp(v, 0, 255)
  {
    if v >= 0 && v <= 255 then v else if v < 0 then 0 else 255
  }

  // ---------------------------------------------------------------------------------------------
  // DC term: 8 bits per channel

  /** The packing of encodeDC: (R << 16) + (G << 8) + B; shifts of non-negative values are
      multiplications by powers of two. */
  function PackDC(t: Triple): (v: int)
    requires IsRgbBytes(t)
    ensures 0 <= v < 0x100_0000
  {
    t.r * 0x1_0000 + t.g * 0x100 + t.b
  }

  predicate IsRgbBytes(t: Triple)
  {
    0 <= t.r < 256 && 0 <= t.g < 256 && 0 <= t.b < 256
  }

  /** The unpacking of decodeDC: value >> 16, (value >> 8) & 255 and value & 255. */
  function UnpackDC(v: nat): Triple
  {
    Triple(v / 0x1_0000, (v / 0x100) % 0x100, v % 0x100)
  }

  /** Every packed DC value fits the four digits it is written with, and unpacks to the bytes
      it was packed from. */
  lemma DCRoundTrip(t: Triple)
    requires IsRgbBytes(t)
    ensures PackDC(t) < Pow83(4)
    ensures UnpackDC(PackDC(t)) == t
  {
    assert Pow83(4) == 47458321;
    var v := PackDC(t);
    DivUnique(v, 0x1_0000, t.r, t.g * 0x100 + t.b);
    DivUnique(v, 0x100, t.r * 0x100 + t.g, t.b);
    DivUnique(t.r * 0x100 + t.g, 0x100, t.r, t.g);
  }

  /** Any four-digit value unpacks to green and blue bytes and a red value of at most 724 (a
      byte only when the value is below 2^24); below 2^24 unpacking is inverted by packing. */
  lemma DCUnpackRange(v: nat)
    requires v < Pow83(4)
    ensures var t := UnpackDC(v);
      0 <= t.r <= 724 && 0 <= t.g < 256 && 0 <= t.b < 256 &&
      (v < 0x100_0000 <==> t.r < 256) &&
      (v < 0x100_0000 ==> PackDC(t) == v)
  {
    assert Pow83(4) == 47458321;
    var t := UnpackDC(v);
    assert v == t.r * 0x1_0000 + (v % 0x1_0000);
    assert v % 0x1_0000 == t.g * 0x100 + t.b by {
      DivDiv(v, 0x100, 0x100);
      var q := v / 0x100;
      assert v == q * 0x100 + t.b;
      assert q == t.r * 0x100 + t.g;
      DivUnique(v, 0x1_0000, t.r, t.g * 0x100 + t.b);
    }
  }

  // ---------------------------------------------------------------------------------------------
  // AC terms: three levels in [0,18], base 19

  predicate IsLevels(t: Triple)
  {
    0 <= t.r <= 18 && 0 <= t.g <= 18 && 0 <= t.b <= 18
  }

  /** The packing of encodeAC: R * 19 * 19 + G * 19 + B. */
  function PackAC(t: Triple): (v: int)
    requires IsLevels(t)
    ensures 0 <= v < 19 * 19 * 19
  {
    t.r * 19 * 19 + t.g * 19 + t.b
  }

  /** The unpacking of decodeAC: value / (19 * 19), (value / 19) % 19 and value % 19. */
  function UnpackAC(v: nat): Triple
  {
    Triple(v / (19 * 19), (v / 19) % 19, v % 19)
  }

  /** Every packed AC value fits the two digits it is written with, and unpacks to the levels
      it was packed from. */
  lemma ACRoundTrip(t: Triple)
    requires IsLevels(t)
    ensures PackAC(t) < Pow83(2)
    ensures UnpackAC(PackAC(t)) == t
  {
    var v := PackAC(t);
    DivUnique(v, 19 * 19, t.r, t.g * 19 + t.b);
    DivUnique(v, 19, t.r * 19 + t.g, t.b);
    DivUnique(t.r * 19 + t.g, 19, t.r, t.g);
  }

  /** Any two-digit value unpacks to green and blue levels in [0,18] and a red level of at most
      19 (a level only when the value is below 19^3); below 19^3 packing inverts unpacking. */
  lemma ACUnpackRange(v: nat)
    requires v < Pow83(2)
    ensures var t := UnpackAC(v);
      0 <= t.r <= 19 && 0 <= t.g <= 18 && 0 <= t.b <= 18 &&
      (v < 19 * 19 * 19 <==> t.r <= 18) &&
      (v < 19 * 19 * 19 ==> PackAC(t) == v)
  {
    var t := UnpackAC(v);
    var q := v / 19;
    assert v == q * 19 + t.b;
    DivDiv(v, 19, 19);
    assert q == t.r * 19 + t.g;
  }

  // ---------------------------------------------------------------------------------------------
  // The floating-point wrappers

  /** encodeDC (src/blurhash_ffi.c:112-117): the sRGB bytes of the three channels, packed. */
  function EncodeDC(num: Numerics, c: Rgb): (v: int)
    ensures 0 <= v < Pow83(4)
    ensures UnpackDC(v) == SRGBBytes(num, c)
  {
    DCRoundTrip(SRGBBytes(num, c));
    PackDC(SRGBBytes(num, c))
  }

  function SRGBBytes(num: Numerics, c: Rgb): (t: Triple)
    ensures IsRgbBytes(t)
  {
    Triple(num.linearToSRGB(c.r), num.linearToSRGB(c.g), num.linearToSRGB(c.b))
  }

  /** The quantisation level of one channel in encodeAC, clamped to [0,18]. */
  function Quantise(num: Numerics, v: real): int
  {
    Clamp(num.acLevel(v), 0, 18)
  }

  function ACLevels(num: Numerics, c: Rgb, maximumValue: real): (t: Triple)
    ensures IsLevels(t)
  {
    Triple(Quantise(num, num.divide(c.r, maximumValue)),
           Quantise(num, num.divide(c.g, maximumValue)),
           Quantise(num, num.divide(c.b, maximumValue)))
  }

  /** encodeAC (src/blurhash_ffi.c:119-125): the levels of the three channels relative to
      maximumValue, packed. */
  function EncodeAC(num: Numerics, c: Rgb, maximumValue: real): (v: int)
    ensures 0 <= v < Pow83(2)
    ensures UnpackAC(v) == ACLevels(num, c, maximumValue)
  {
    ACRoundTrip(ACLevels(num, c, maximumValue));
    PackAC(ACLevels(num, c, maximumValue))
  }

  /** decodeDC (src/blurhash_ffi.c:181-185). */
  function DecodeDC(num: Numerics, v: nat): Rgb
  {
    var t := UnpackDC(v);
    Rgb(num.sRGBToLinear(t.r), num.sRGBToLinear(t.g), num.sRGBToLinear(t.b))
  }

  /** signPow(x, 2.0) = copysignf(powf(fabsf(x), 2), x): x squared, with the sign of x. */
  function SignSquare(x: real): real
  {
    if x < 0.0 then -(x * x) else x * x
  }

  /** The signed level (level - 9) / 9 that decodeAC reconstructs a channel from. */
  function Unlevel(level: int): real
  {
    SignSquare((level - 9) as real / 9.0)
  }

  /** decodeAC (src/blurhash_ffi.c:187-195). */
  function DecodeAC(v: nat, maximumValue: real): Rgb
  {
    var t := UnpackAC(v);
    Rgb(Unlevel(t.r) * maximumValue, Unlevel(t.g) * maximumValue, Unlevel(t.b) * maximumValue)
  }
}
