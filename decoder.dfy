/** decodeToArray: validate a blur hash, read its colour terms into a colours array, then fill
    the caller's width * height * nChannels pixel buffer row by row, each pixel being the
    cosine-weighted sum of the terms passed through the sRGB curve. */
module Decoder {
  import opened Options
  import opened Base83
  import opened Components
  import opened Hash

  /** The contrast factor the decoder uses: punch < 1 is treated as 1. */
  function EffectivePunch(punch: int): (p: int)
    ensures p >= 1
    ensures punch >= 1 ==> p == punch
    ensures punch < 1 ==> p == 1
  {
    if punch < 1 then 1 else punch
  }

  /** The colours array decodeToArray fills: the DC colour first, then one colour per AC value,
      each scaled by `scale` (maxValue * punch). */
  function Colours(num: Numerics, dc: nat, ac: seq<int>, scale: real): (colours: seq<Rgb>)
    requires forall i :: 0 <= i < |ac| ==> 0 <= ac[i]
    ensures |colours| == |ac| + 1
  {
    seq(|ac| + 1, k requires 0 <= k <= |ac| =>
      if k == 0 then DecodeDC(num, dc) else DecodeAC(ac[k - 1], scale))
  }

  /** Appending an AC value appends its colour. */
  lemma ColoursSnoc(num: Numerics, dc: nat, ac: seq<int>, v: nat, scale: real)
    requires forall i :: 0 <= i < |ac| ==> 0 <= ac[i]
    ensures Colours(num, dc, ac + [v], scale) ==
      Colours(num, dc, ac, scale) + [DecodeAC(v, scale)]
  {
    var longer := Colours(num, dc, ac + [v], scale);
    var shorter := Colours(num, dc, ac, scale) + [DecodeAC(v, scale)];
    forall k | 0 <= k < |longer|
      ensures longer[k] == shorter[k]
    {
      if 1 <= k <= |ac| {
        assert (ac + [v])[k - 1] == ac[k - 1];
      }
    }
  }

  // ---------------------------------------------------------------------------------------------
  // The pixel values

  /** What the pixel loops work from: the floating-point kernels, the colours of the numX by numY
      terms in row-major order, and the size and channel count of the output image. */
  datatype Render = Render(num: Numerics, colours: seq<Rgb>, numX: int, numY: int, width: int,
                           height: int, nChannels: int)

  predicate ValidRender(r: Render)
  {
    1 <= r.numX && 1 <= r.numY && |r.colours| == r.numX * r.numY &&
    0 <= r.width && 0 <= r.height && (r.nChannels == 3 || r.nChannels == 4)
  }

  /** Term (i, j) sits at index i + j * numX of the colours. */
  lemma TermIndex(i: int, j: int, numX: int, numY: int)
    requires 0 <= i < numX && 0 <= j < numY
    ensures 0 <= i + j * numX < numX * numY
  {
    MulLeMono(j + 1, numY, numX);
  }

  function Add(a: Rgb, b: Rgb): Rgb
  {
    Rgb(a.r + b.r, a.g + b.g, a.b + b.b)
  }

  /** A colour weighted by s, channel by channel. */
  function Scale(multiply: (real, real) -> real, a: Rgb, s: real): Rgb
  {
    Rgb(multiply(a.r, s), multiply(a.g, s), multiply(a.b, s))
  }

  /** The weight of term (i, j) at pixel (x, y): cos(pi x i / width) * cos(pi y j / height). */
  function Basis(r: Render, x: int, y: int, i: int, j: int): real
  {
    r.num.multiply(r.num.cosine(x, i, r.width), r.num.cosine(y, j, r.height))
  }

  /** The running total of the pixel loops at pixel (x, y) when they reach term (i, j): the
      weighted terms of rows 0 .. j - 1, then the first i terms of row j. */
  function PartialSum(r: Render, x: int, y: int, j: nat, i: nat): Rgb
    requires ValidRender(r) && 0 <= x < r.width && 0 <= y < r.height
    requires j <= r.numY && i <= r.numX && (j == r.numY ==> i == 0)
    decreases j, i
  {
    if i == 0 then
      if j == 0 then Rgb(0.0, 0.0, 0.0) else PartialSum(r, x, y, j - 1, r.numX)
    else
      TermIndex(i - 1, j, r.numX, r.numY);
      Add(PartialSum(r, x, y, j, i - 1),
          Scale(r.num.multiply, r.colours[i - 1 + j * r.numX], Basis(r, x, y, i - 1, j)))
  }

  /** One step of the innermost pixel loop adds the weighted term (i, j), stored at idx. */
  lemma PartialSumStep(r: Render, x: int, y: int, j: nat, i: nat, idx: int)
    requires ValidRender(r) && 0 <= x < r.width && 0 <= y < r.height
    requires j < r.numY && i < r.numX && idx == i + j * r.numX
    ensures 0 <= idx < |r.colours|
    ensures PartialSum(r, x, y, j, i + 1) ==
      Add(PartialSum(r, x, y, j, i), Scale(r.num.multiply, r.colours[idx], Basis(r, x, y, i, j)))
  {
    TermIndex(i, j, r.numX, r.numY);
  }

  /** The linear colour of pixel (x, y): the sum over all terms. */
  function PixelColour(r: Render, x: int, y: int): Rgb
    requires ValidRender(r) && 0 <= x < r.width && 0 <= y < r.height
  {
    PartialSum(r, x, y, r.numY, 0)
  }

  /** The bytes one pixel is stored as: red, green and blue, then 255 for alpha when there are
      four channels. */
  function ChannelBytes(red: Byte, green: Byte, blue: Byte, nChannels: int): (bytes: seq<Byte>)
    requires nChannels == 3 || nChannels == 4
    ensures |bytes| == nChannels
  {
    if nChannels == 4 then [red, green, blue, 255] else [red, green, blue]
  }

  /** Byte c of pixel (x, y): 255 for alpha, otherwise the sRGB value of the colour channel
      through clampToUByte. */
  function PixelByte(r: Render, x: int, y: int, c: int): Byte
    requires ValidRender(r) && 0 <= x < r.width && 0 <= y < r.height
  {
    if c == 3 then 255 else ClampToUByte(r.num.linearToSRGB(Channel(PixelColour(r, x, y), c)))
  }

  /** Bytes c .. nChannels - 1 of pixel (x, y). */
  function PixelBytes(r: Render, x: int, y: int, c: nat): (bytes: seq<Byte>)
    requires ValidRender(r) && 0 <= x < r.width && 0 <= y < r.height && c <= r.nChannels
    ensures |bytes| == r.nChannels - c
    decreases r.nChannels - c
  {
    if c == r.nChannels then [] else [PixelByte(r, x, y, c)] + PixelBytes(r, x, y, c + 1)
  }

  /** The bytes of a pixel are those its colour is stored as. */
  lemma PixelBytesOf(r: Render, x: int, y: int, colour: Rgb)
    requires ValidRender(r) && 0 <= x < r.width && 0 <= y < r.height
    requires colour == PixelColour(r, x, y)
    ensures PixelBytes(r, x, y, 0) ==
      ChannelBytes(ClampToUByte(r.num.linearToSRGB(colour.r)),
                   ClampToUByte(r.num.linearToSRGB(colour.g)),
                   ClampToUByte(r.num.linearToSRGB(colour.b)), r.nChannels)
  {
    var alpha := if r.nChannels == 4 then [255] else [];
    assert PixelBytes(r, x, y, 3) == alpha;
    assert PixelBytes(r, x, y, 2) == [PixelByte(r, x, y, 2)] + alpha;
    assert PixelBytes(r, x, y, 1) == [PixelByte(r, x, y, 1)] + PixelBytes(r, x, y, 2);
  }

  /** Byte c of the bytes from channel d of a pixel on is its channel d + c. */
  lemma {:induction false} PixelBytesAt(r: Render, x: int, y: int, d: nat, c: int)
    requires ValidRender(r) && 0 <= x < r.width && 0 <= y < r.height
    requires d <= r.nChannels && 0 <= c < r.nChannels - d
    ensures PixelBytes(r, x, y, d)[c] == PixelByte(r, x, y, d + c)
    decreases c
  {
    if c > 0 {
      PixelBytesAt(r, x, y, d + 1, c - 1);
    }
  }

  /** The bytes of the first n pixels of row y. */
  function RowBytes(r: Render, y: int, n: nat): (bytes: seq<Byte>)
    requires ValidRender(r) && 0 <= y < r.height && n <= r.width
    ensures |bytes| == n * r.nChannels
  {
    if n == 0 then [] else RowBytes(r, y, n - 1) + PixelBytes(r, n - 1, y, 0)
  }

  /** The bytes of the first m rows. */
  function Raster(r: Render, m: nat): (bytes: seq<Byte>)
    requires ValidRender(r) && m <= r.height
    ensures |bytes| == m * (r.width * r.nChannels)
  {
    if m == 0 then [] else Raster(r, m - 1) + RowBytes(r, m - 1, r.width)
  }

  /** The whole image, rows top to bottom, pixels left to right, channels in order. */
  function Image(r: Render): seq<Byte>
    requires ValidRender(r)
  {
    Raster(r, r.height)
  }

  /** Channel c of pixel (x, y) is byte nChannels * x + c + y * width * nChannels of the image:
      the sRGB byte of the pixel's colour channel through clampToUByte, or 255 for alpha. */
  lemma ImageAt(r: Render, x: int, y: int, c: int)
    requires ValidRender(r) && 0 <= x < r.width && 0 <= y < r.height && 0 <= c < r.nChannels
    ensures 0 <= r.nChannels * x + c + y * (r.width * r.nChannels) < |Image(r)|
    ensures Image(r)[r.nChannels * x + c + y * (r.width * r.nChannels)] ==
      if c == 3 then 255 else ClampToUByte(r.num.linearToSRGB(Channel(PixelColour(r, x, y), c)))
  {
    RasterAt(r, r.height, y, r.nChannels * x + c);
    RowByteAt(r, y, x, c);
  }

  /** Channel c of pixel x is byte x * nChannels + c of row y. */
  lemma RowByteAt(r: Render, y: int, x: int, c: int)
    requires ValidRender(r) && 0 <= x < r.width && 0 <= y < r.height && 0 <= c < r.nChannels
    ensures 0 <= r.nChannels * x + c < r.width * r.nChannels
    ensures RowBytes(r, y, r.width)[r.nChannels * x + c] == PixelByte(r, x, y, c)
  {
    RowBytesAt(r, y, r.width, x, c);
    PixelBytesAt(r, x, y, 0, c);
  }

  /** Byte k of row y sits at y * rowLength + k in the first m > y rows. */
  lemma {:induction false} RasterAt(r: Render, m: nat, y: int, k: int)
    requires ValidRender(r) && m <= r.height && 0 <= y < m && 0 <= k < r.width * r.nChannels
    ensures 0 <= y * (r.width * r.nChannels) + k < |Raster(r, m)|
    ensures Raster(r, m)[y * (r.width * r.nChannels) + k] == RowBytes(r, y, r.width)[k]
    decreases m, 1
  {
    if y < m - 1 {
      RasterAtEarlier(r, m, y, k);
    } else {
      RasterLast(r, m, y, k);
    }
  }

  /** Byte k of a row y above row m - 1 sits at y * rowLength + k in the first m rows. */
  lemma {:induction false} RasterAtEarlier(r: Render, m: nat, y: int, k: int)
    requires ValidRender(r) && m <= r.height && 0 <= y < m - 1 && 0 <= k < r.width * r.nChannels
    ensures 0 <= y * (r.width * r.nChannels) + k < |Raster(r, m)|
    ensures Raster(r, m)[y * (r.width * r.nChannels) + k] == RowBytes(r, y, r.width)[k]
    decreases m, 0
  {
    RasterAt(r, m - 1, y, k);
    RasterPrefix(r, m, y, k);
  }

  /** Adding row m - 1 keeps the bytes of the rows above it. */
  lemma {:induction false} RasterPrefix(r: Render, m: nat, y: int, k: int)
    requires ValidRender(r) && 0 <= y < m - 1 && m <= r.height && 0 <= k < r.width * r.nChannels
    ensures y * (r.width * r.nChannels) + k < |Raster(r, m - 1)| < |Raster(r, m)|
    ensures Raster(r, m)[y * (r.width * r.nChannels) + k] ==
      Raster(r, m - 1)[y * (r.width * r.nChannels) + k]
  {
    var rowLength := r.width * r.nChannels;
    MulLeMono(y + 1, m - 1, rowLength);
    assert (y + 1) * rowLength == y * rowLength + rowLength;
    assert Raster(r, m) == Raster(r, m - 1) + RowBytes(r, m - 1, r.width);
  }

  /** Row y = m - 1 is the last rowLength bytes of the first m rows. */
  lemma {:induction false} RasterLast(r: Render, m: nat, y: int, k: int)
    requires ValidRender(r) && 0 < m <= r.height && y == m - 1 && 0 <= k < r.width * r.nChannels
    ensures 0 <= y * (r.width * r.nChannels) + k < |Raster(r, m)|
    ensures Raster(r, m)[y * (r.width * r.nChannels) + k] == RowBytes(r, y, r.width)[k]
  {
    var previous, row := Raster(r, y), RowBytes(r, y, r.width);
    assert Raster(r, m) == previous + row;
    assert |previous| == y * (r.width * r.nChannels) && |row| == r.width * r.nChannels;
    assert (previous + row)[|previous| + k] == row[k];
  }

  /** Channel c of pixel x sits at x * nChannels + c in the first n > x pixels of a row. */
  lemma {:induction false} RowBytesAt(r: Render, y: int, n: nat, x: int, c: int)
    requires ValidRender(r) && 0 <= y < r.height && n <= r.width
    requires 0 <= x < n && 0 <= c < r.nChannels
    ensures 0 <= r.nChannels * x + c < |RowBytes(r, y, n)|
    ensures RowBytes(r, y, n)[r.nChannels * x + c] == PixelBytes(r, x, y, 0)[c]
  {
    var previous := RowBytes(r, y, n - 1);
    assert RowBytes(r, y, n) == previous + PixelBytes(r, n - 1, y, 0);
    if x < n - 1 {
      RowBytesAt(r, y, n - 1, x, c);
    } else {
      assert r.nChannels * x == |previous|;
    }
  }

  /** With a single term every pixel has the DC colour, given that cos(0) = 1 and that
      multiplying by 1 is exact, as both are for floats. */
  lemma FlatImage(r: Render, x: int, y: int)
    requires ValidRender(r) && r.numX == 1 && r.numY == 1
    requires 0 <= x < r.width && 0 <= y < r.height
    requires r.num.cosine(x, 0, r.width) == 1.0 && r.num.cosine(y, 0, r.height) == 1.0
    requires forall v :: r.num.multiply(v, 1.0) == v
    ensures PixelColour(r, x, y) == r.colours[0]
  {
    assert Basis(r, x, y, 0, 0) == 1.0;
    var c := r.colours[0];
    assert PartialSum(r, x, y, 0, 1) == Add(Rgb(0.0, 0.0, 0.0), Scale(r.num.multiply, c, 1.0));
    assert PartialSum(r, x, y, 1, 0) == PartialSum(r, x, y, 0, 1);
    assert c == Rgb(c.r, c.g, c.b);
  }

  // ---------------------------------------------------------------------------------------------
  // decodeToArray

  /** The factor decodeToArray scales the AC colours by: the float product maxValue * punch. */
  function ColourScale(num: Numerics, quantisedMaximum: int, punch: int): real
  {
    num.multiply(MaximumValue(quantisedMaximum), EffectivePunch(punch) as real)
  }

  /** What the pixel loops work from once the fields of a hash are read. */
  function FieldsRender(f: Fields, punch: int, num: Numerics, width: int, height: int,
                        nChannels: int): (r: Render)
    requires WellFormed(f)
    requires 0 <= width && 0 <= height && (nChannels == 3 || nChannels == 4)
    ensures ValidRender(r)
    ensures r.numX == f.numX && r.numY == f.numY
    ensures r.width == width && r.height == height && r.nChannels == nChannels
  {
    Render(num,
           Colours(num, f.dc, f.ac, ColourScale(num, f.quantisedMaximum, punch)),
           f.numX, f.numY, width, height, nChannels)
  }

  /** The image decodeToArray produces for a hash, or None when it returns -1. */
  function DecodedImage(hash: string, width: int, height: int, punch: int, nChannels: int,
                        num: Numerics): Option<seq<Byte>>
    requires 0 <= width && 0 <= height && (nChannels == 3 || nChannels == 4)
  {
    match ReadFields(hash)
    case None => None
    case Some(f) =>
      SerialiseRead(hash);
      Some(Image(FieldsRender(f, punch, num, width, height, nChannels)))
  }

  /** decodeToArray (src/blurhash_ffi.c:197-276): -1 and an untouched buffer when the hash is
      rejected, otherwise 0 and the decoded image in the buffer. */
  method DecodeToArray(hash: string, width: int, height: int, punch: int, nChannels: int,
                       pixels: array<Byte>, num: Numerics) returns (status: int)
    requires 0 <= width && 0 <= height && (nChannels == 3 || nChannels == 4)
    requires pixels.Length == width * height * nChannels
    modifies pixels
    ensures status == -1 || status == 0
    ensures status == -1 <==> ReadFields(hash).None?
    ensures status == -1 ==> pixels[..] == old(pixels[..])
    ensures status == 0 ==> DecodedImage(hash, width, height, punch, nChannels, num) == Some(pixels[..])
  {
    var colours, numX, numY, ok := ReadHash(hash, punch, num);
    if !ok {
      return -1;
    }
    ghost var f := ReadFields(hash).value;
    SerialiseRead(hash);
    var r := Render(num, colours[..], numX, numY, width, height, nChannels);
    assert r == FieldsRender(f, punch, num, width, height, nChannels);
    FillPixels(r, colours, pixels);
    return 0;
  }

  /** The parsing half of decodeToArray (src/blurhash_ffi.c:198-239): the grid size and the
      colours array of the fields the hash is read as, or false when it is rejected. */
  method ReadHash(hash: string, punch: int, num: Numerics)
    returns (colours: array<Rgb>, numX: int, numY: int, ok: bool)
    ensures ok <==> ReadFields(hash).Some?
    ensures ok ==> WellFormed(ReadFields(hash).value)
    ensures ok ==> var f := ReadFields(hash).value;
      numX == f.numX && numY == f.numY &&
      colours[..] == Colours(num, f.dc, f.ac, ColourScale(num, f.quantisedMaximum, punch))
  {
    colours := new Rgb[0];
    numX, numY := 0, 0;
    if !IsValidBlurhash(hash) {
      return colours, numX, numY, false;
    }
    var p := punch;
    if p < 1 {
      p := 1;
    }
    numX, numY := ReadSize(hash);
    var coloursSize := numX * numY;
    ghost var n: nat := coloursSize - 1;
    var quantisedMaximum := DecodeToInt(hash, 1, 2);
    if quantisedMaximum == -1 {
      ReadFieldsNone(hash, n);
      return colours, numX, numY, false;
    }
    var maxValue := (quantisedMaximum + 1) as real / 166.0;
    assert maxValue == MaximumValue(quantisedMaximum) && p == EffectivePunch(punch);
    var scale := num.multiply(maxValue, p as real);
    colours, ok := ReadColours(hash, coloursSize, scale, num);
    if !ok {
      ReadFieldsNone(hash, n);
      return colours, numX, numY, false;
    }
    assert ColourScale(num, quantisedMaximum, punch) == scale;
    ReadHashFields(hash, n, quantisedMaximum, punch, num, colours[..]);
  }

  /** A valid hash whose maximum and colour terms all decode is read as the fields they
      make up, and the colours read are those of these fields. */
  lemma ReadHashFields(hash: string, n: nat, quantisedMaximum: int, punch: int, num: Numerics,
                       colours: seq<Rgb>)
    requires IsValidBlurhash(hash)
    requires n == ComponentCount(DecodeInt(hash[..1])) - 1 && |hash| == 6 + 2 * n
    requires quantisedMaximum == DecodeInt(hash[1..2]) != -1
    requires ReadColoursSpec(hash, n, colours, ColourScale(num, quantisedMaximum, punch), num)
    ensures ReadFields(hash).Some? && WellFormed(ReadFields(hash).value)
    ensures var f := ReadFields(hash).value;
      f.numX == NumX(DecodeInt(hash[..1])) && f.numY == NumY(DecodeInt(hash[..1])) &&
      colours == Colours(num, f.dc, f.ac, ColourScale(num, f.quantisedMaximum, punch))
  {
    var flag := DecodeInt(hash[..1]);
    var f := Fields(NumX(flag), NumY(flag), quantisedMaximum, DecodeInt(hash[2..6]),
                    ReadAC(hash, n).value);
    ReadFieldsOfParts(hash, n, f);
    SerialiseRead(hash);
  }

  /** The size flag of decodeToArray, the first character: numY = floorf(sizeFlag / 9) + 1
      and numX = (sizeFlag % 9) + 1, in C's integer arithmetic. */
  method ReadSize(hash: string) returns (numX: int, numY: int)
    requires IsValidBlurhash(hash)
    ensures numX == NumX(DecodeInt(hash[..1])) && numY == NumY(DecodeInt(hash[..1]))
    ensures 1 <= numX * numY && numX * numY == ComponentCount(DecodeInt(hash[..1]))
    ensures |hash| == 4 + 2 * (numX * numY)
  {
    ValidDimensions(hash);
    var sizeFlag := DecodeToInt(hash, 0, 1);
    assert hash[0..1] == hash[..1];
    numY := CDiv(sizeFlag, 9) + 1;
    numX := CRem(sizeFlag, 9) + 1;
  }

  /** The loop of decodeToArray over the colour terms: the DC term from [2,6), AC term iter from
      [4 + 2 iter, 6 + 2 iter); false as soon as one of them holds a foreign character. */
  method ReadColours(hash: string, coloursSize: int, scale: real, num: Numerics)
    returns (colours: array<Rgb>, ok: bool)
    requires 1 <= coloursSize && |hash| == 4 + 2 * coloursSize
    ensures fresh(colours) && colours.Length == coloursSize
    ensures ok <==> DecodeInt(hash[2..6]) != -1 && ReadAC(hash, coloursSize - 1).Some?
    ensures ok ==> ReadColoursSpec(hash, coloursSize - 1, colours[..], scale, num)
  {
    colours := new Rgb[coloursSize](_ => Rgb(0.0, 0.0, 0.0));
    var iter := 0;
    while iter < coloursSize
      invariant 0 <= iter <= coloursSize
      invariant iter > 0 ==> ReadColoursSpec(hash, iter - 1, colours[..iter], scale, num)
    {
      ok := ReadTerm(hash, colours, iter, scale, num);
      if !ok {
        return colours, false;
      }
      iter := iter + 1;
    }
    assert colours[..coloursSize] == colours[..];
    return colours, true;
  }

  /** One iteration of the loop over the colour terms: the DC term when iter is 0, an AC term
      otherwise. */
  method ReadTerm(hash: string, colours: array<Rgb>, iter: int, scale: real, num: Numerics)
    returns (ok: bool)
    requires 0 <= iter < colours.Length && |hash| == 4 + 2 * colours.Length
    requires iter > 0 ==> ReadColoursSpec(hash, iter - 1, colours[..iter], scale, num)
    modifies colours
    ensures !ok ==> !(DecodeInt(hash[2..6]) != -1 && ReadAC(hash, colours.Length - 1).Some?)
    ensures ok ==> ReadColoursSpec(hash, iter, colours[..iter + 1], scale, num)
    ensures !ok ==> colours[..] == old(colours[..])
    ensures colours[iter + 1..] == old(colours[iter + 1..])
  {
    if iter == 0 {
      ok := ReadDCTerm(hash, colours, scale, num);
    } else {
      ok := ReadACTerm(hash, colours, iter, scale, num);
    }
  }

  /** The first iteration of the loop over the colour terms: the DC term from [2,6). */
  method ReadDCTerm(hash: string, colours: array<Rgb>, scale: real, num: Numerics)
    returns (ok: bool)
    requires 6 <= |hash| && 1 <= colours.Length
    modifies colours
    ensures ok <==> DecodeInt(hash[2..6]) != -1
    ensures ok ==> ReadColoursSpec(hash, 0, colours[..1], scale, num)
    ensures !ok ==> colours[..] == old(colours[..])
    ensures colours[1..] == old(colours[1..])
  {
    var value := DecodeToInt(hash, 2, 6);
    if value == -1 {
      return false;
    }
    colours[0] := DecodeDC(num, value);
    ReadColoursFirst(hash, value, scale, num);
    assert colours[..1] == [DecodeDC(num, value)];
    return true;
  }

  /** Iteration iter >= 1 of the loop over the colour terms: AC term iter - 1 from
      [4 + 2 iter, 6 + 2 iter). */
  method ReadACTerm(hash: string, colours: array<Rgb>, iter: int, scale: real, num: Numerics)
    returns (ok: bool)
    requires 1 <= iter < colours.Length && |hash| == 4 + 2 * colours.Length
    requires ReadColoursSpec(hash, iter - 1, colours[..iter], scale, num)
    modifies colours
    ensures ok <==> ReadAC(hash, iter).Some?
    ensures !ok ==> ReadAC(hash, colours.Length - 1).None?
    ensures ok ==> ReadColoursSpec(hash, iter, colours[..iter + 1], scale, num)
    ensures !ok ==> colours[..] == old(colours[..])
    ensures colours[iter + 1..] == old(colours[iter + 1..])
  {
    var value := DecodeToInt(hash, 4 + iter * 2, 6 + iter * 2);
    TermSlice(hash, iter);
    if value == -1 {
      ReadACNone(hash, iter, colours.Length - 1);
      return false;
    }
    ReadColoursStep(hash, iter - 1, colours[..iter], value, scale, num);
    StoreColour(colours, iter, DecodeAC(value, scale));
    return true;
  }

  /** The characters [4 + 2 iter, 6 + 2 iter) are AC slice iter - 1. */
  lemma TermSlice(hash: string, iter: int)
    requires 1 <= iter && 6 + 2 * iter <= |hash|
    ensures hash[4 + iter * 2 .. 6 + iter * 2] == ACSlice(hash, iter - 1)
  {
  }

  /** colours[iter] = colour, after the first iter colours. */
  method StoreColour(colours: array<Rgb>, iter: int, colour: Rgb)
    requires 0 <= iter < colours.Length
    modifies colours
    ensures colours[..iter + 1] == old(colours[..iter]) + [colour]
    ensures colours[iter + 1..] == old(colours[iter + 1..])
  {
    colours[iter] := colour;
    assert colours[..iter + 1] == old(colours[..iter]) + [colour];
  }

  /** A slice that does not decode rejects it and every longer run of slices. */
  lemma ReadACNone(hash: string, m: nat, n: nat)
    requires 1 <= m <= n && 6 + 2 * n <= |hash| && DecodeInt(ACSlice(hash, m - 1)) == -1
    ensures ReadAC(hash, m).None? && ReadAC(hash, n).None?
  {
    ReadACFails(hash, m, n);
  }

  /** The colours read from the DC term and the first n AC slices of a hash. */
  predicate ReadColoursSpec(hash: string, n: nat, colours: seq<Rgb>, scale: real, num: Numerics)
    requires 6 + 2 * n <= |hash|
  {
    DecodeInt(hash[2..6]) != -1 && ReadAC(hash, n).Some? &&
    (ReadACSlices(hash, n, ReadAC(hash, n).value);
     colours == Colours(num, DecodeInt(hash[2..6]), ReadAC(hash, n).value, scale))
  }

  /** Reading the DC term gives its colour. */
  lemma ReadColoursFirst(hash: string, v: int, scale: real, num: Numerics)
    requires 6 <= |hash| && v == DecodeInt(hash[2..6]) && v != -1
    ensures ReadColoursSpec(hash, 0, [DecodeDC(num, v)], scale, num)
  {
    assert [DecodeDC(num, v)] == Colours(num, v, [], scale);
  }

  /** Reading one more slice appends its colour. */
  lemma ReadColoursStep(hash: string, n: nat, colours: seq<Rgb>, v: int, scale: real,
                        num: Numerics)
    requires 8 + 2 * n <= |hash| && ReadColoursSpec(hash, n, colours, scale, num)
    requires v == DecodeInt(ACSlice(hash, n)) && v != -1
    ensures ReadAC(hash, n + 1).Some?
    ensures ReadColoursSpec(hash, n + 1, colours + [DecodeAC(v, scale)], scale, num)
  {
    var previous := ReadAC(hash, n).value;
    assert ReadAC(hash, n + 1) == Some(previous + [v]);
    ReadACSlices(hash, n, previous);
    ColoursSnoc(num, DecodeInt(hash[2..6]), previous, v, scale);
  }

  /** The pixel loops of decodeToArray: every row, every pixel, every channel. */
  method FillPixels(r: Render, colours: array<Rgb>, pixels: array<Byte>)
    requires ValidRender(r) && colours[..] == r.colours
    requires pixels.Length == r.width * r.height * r.nChannels
    modifies pixels
    ensures pixels[..] == Image(r)
  {
    var bytesPerRow := r.width * r.nChannels;
    assert pixels.Length == r.height * bytesPerRow;
    var y := 0;
    OverwriteEmpty(pixels[..], 0);
    while y < r.height
      invariant 0 <= y <= r.height
      invariant y * bytesPerRow <= pixels.Length
      invariant pixels[..] == Overwrite(old(pixels[..]), 0, Raster(r, y))
    {
      MulLeMono(y + 1, r.height, bytesPerRow);
      FillRow(r, colours, pixels, y);
      OverwriteTwice(old(pixels[..]), 0, Raster(r, y), RowBytes(r, y, r.width));
      y := y + 1;
    }
    OverwriteAll(old(pixels[..]), Raster(r, r.height));
  }

  /** One row of the pixel loops: pixels x = 0 .. width - 1 of row y. */
  method FillRow(r: Render, colours: array<Rgb>, pixels: array<Byte>, y: int)
    requires ValidRender(r) && colours[..] == r.colours && 0 <= y < r.height
    requires (y + 1) * (r.width * r.nChannels) <= pixels.Length
    modifies pixels
    ensures pixels[..] ==
      Overwrite(old(pixels[..]), y * (r.width * r.nChannels), RowBytes(r, y, r.width))
  {
    var bytesPerRow := r.width * r.nChannels;
    var start := y * bytesPerRow;
    MulLeMono(0, y, bytesPerRow);
    assert (y + 1) * bytesPerRow == start + bytesPerRow;
    var x := 0;
    OverwriteEmpty(pixels[..], start);
    while x < r.width
      invariant 0 <= x <= r.width
      invariant pixels[..] == Overwrite(old(pixels[..]), start, RowBytes(r, y, x))
    {
      RowStep(r, y, x, old(pixels[..]), start);
      FillPixel(r, colours, pixels, x, y, r.nChannels * x + start);
      x := x + 1;
    }
  }

  /** Writing pixel x of row y right after the first x pixels of the row, which start at index
      start, writes the first x + 1 pixels. */
  lemma RowStep(r: Render, y: int, x: int, s: seq<Byte>, start: int)
    requires ValidRender(r) && 0 <= y < r.height && 0 <= x < r.width
    requires 0 <= start && start + r.width * r.nChannels <= |s|
    ensures r.nChannels * x + start + r.nChannels <= |s|
    ensures Overwrite(Overwrite(s, start, RowBytes(r, y, x)), r.nChannels * x + start,
                      PixelBytes(r, x, y, 0)) ==
            Overwrite(s, start, RowBytes(r, y, x + 1))
  {
    MulLeMono(x + 1, r.width, r.nChannels);
    assert (x + 1) * r.nChannels == r.nChannels * x + r.nChannels;
    OverwriteTwice(s, start, RowBytes(r, y, x), PixelBytes(r, x, y, 0));
  }

  /** The body of the pixel loops for pixel (x, y), whose bytes start at index at: the pixel's
      colour through the sRGB curve and clampToUByte. */
  method FillPixel(r: Render, colours: array<Rgb>, pixels: array<Byte>, x: int, y: int, at: int)
    requires ValidRender(r) && colours[..] == r.colours
    requires 0 <= x < r.width && 0 <= y < r.height
    requires 0 <= at && at + r.nChannels <= pixels.Length
    modifies pixels
    ensures pixels[..] == Overwrite(old(pixels[..]), at, PixelBytes(r, x, y, 0))
  {
    var colour := PixelSums(r, colours, x, y);
    var intR := r.num.linearToSRGB(colour.r);
    var intG := r.num.linearToSRGB(colour.g);
    var intB := r.num.linearToSRGB(colour.b);
    StorePixel(pixels, at, ClampToUByte(intR), ClampToUByte(intG), ClampToUByte(intB),
               r.nChannels);
    PixelBytesOf(r, x, y, colour);
  }

  /** The writes of one pixel at index at of the buffer, alpha included when there are four
      channels. */
  method StorePixel(pixels: array<Byte>, at: int, red: Byte, green: Byte, blue: Byte,
                    nChannels: int)
    requires nChannels == 3 || nChannels == 4
    requires 0 <= at && at + nChannels <= pixels.Length
    modifies pixels
    ensures pixels[..] == Overwrite(old(pixels[..]), at, ChannelBytes(red, green, blue, nChannels))
  {
    ghost var before := pixels[..];
    pixels[at + 0] := red;
    pixels[at + 1] := green;
    pixels[at + 2] := blue;
    if nChannels == 4 {
      pixels[at + 3] := 255;
      OverwriteRgba(before, at, red, green, blue, 255);
    } else {
      OverwriteRgb(before, at, red, green, blue);
    }
  }

  /** s with the elements from index at on replaced, one by one, by those of t. */
  function Overwrite<T>(s: seq<T>, at: int, t: seq<T>): (u: seq<T>)
    requires 0 <= at && at + |t| <= |s|
    ensures |u| == |s|
    decreases |t|
  {
    if t == [] then s else Overwrite(s[at := t[0]], at + 1, t[1..])
  }

  /** Overwriting keeps what comes before at and after at + |t|, and puts t in between. */
  lemma {:induction false} OverwriteSlices<T>(s: seq<T>, at: int, t: seq<T>)
    requires 0 <= at && at + |t| <= |s|
    ensures Overwrite(s, at, t) == s[..at] + t + s[at + |t|..]
    decreases |t|
  {
    if t != [] {
      var s' := s[at := t[0]];
      OverwriteSlices(s', at + 1, t[1..]);
      assert s'[..at + 1] == s[..at] + [t[0]];
      assert s'[at + |t|..] == s[at + |t|..];
      assert [t[0]] + t[1..] == t;
    }
  }

  /** Writing nothing changes nothing. */
  lemma OverwriteEmpty<T>(s: seq<T>, at: int)
    requires 0 <= at <= |s|
    ensures Overwrite(s, at, []) == s
  {
  }

  /** Writing t and then t2 right after it is writing t + t2. */
  lemma {:induction false} OverwriteTwice<T>(s: seq<T>, at: int, t: seq<T>, t2: seq<T>)
    requires 0 <= at && at + |t| + |t2| <= |s|
    ensures Overwrite(Overwrite(s, at, t), at + |t|, t2) == Overwrite(s, at, t + t2)
    decreases |t|
  {
    if t == [] {
      assert t + t2 == t2;
    } else {
      OverwriteTwice(s[at := t[0]], at + 1, t[1..], t2);
      assert (t + t2)[0] == t[0] && (t + t2)[1..] == t[1..] + t2;
    }
  }

  /** Writing a whole sequence from the start leaves only it. */
  lemma OverwriteAll<T>(s: seq<T>, t: seq<T>)
    requires |t| == |s|
    ensures Overwrite(s, 0, t) == t
  {
    OverwriteSlices(s, 0, t);
    assert s[..0] == [] && s[|t|..] == [];
  }

  /** The three writes of a pixel without alpha are the overwrite by its bytes. */
  lemma OverwriteRgb<T>(s: seq<T>, at: int, red: T, green: T, blue: T)
    requires 0 <= at && at + 3 <= |s|
    ensures Overwrite(s, at, [red, green, blue]) == s[at := red][at + 1 := green][at + 2 := blue]
  {
    var s1 := s[at := red];
    var s2 := s1[at + 1 := green];
    var s3 := s2[at + 2 := blue];
    assert Overwrite(s2, at + 2, [blue]) == s3;
    assert Overwrite(s1, at + 1, [green, blue]) == s3;
  }

  /** The four writes of a pixel with alpha are the overwrite by its bytes. */
  lemma OverwriteRgba<T>(s: seq<T>, at: int, red: T, green: T, blue: T, alpha: T)
    requires 0 <= at && at + 4 <= |s|
    ensures Overwrite(s, at, [red, green, blue, alpha]) ==
      s[at := red][at + 1 := green][at + 2 := blue][at + 3 := alpha]
  {
    var s1 := s[at := red];
    var s2 := s1[at + 1 := green];
    var s3 := s2[at + 2 := blue];
    var s4 := s3[at + 3 := alpha];
    assert Overwrite(s3, at + 3, [alpha]) == s4;
    assert Overwrite(s2, at + 2, [blue, alpha]) == s4;
    assert Overwrite(s1, at + 1, [green, blue, alpha]) == s4;
  }

  /** The two inner loops of decodeToArray: the weighted sum of all terms at pixel (x, y). */
  method PixelSums(r: Render, colours: array<Rgb>, x: int, y: int) returns (colour: Rgb)
    requires ValidRender(r) && colours[..] == r.colours
    requires 0 <= x < r.width && 0 <= y < r.height
    ensures colour == PixelColour(r, x, y)
  {
    colour := Rgb(0.0, 0.0, 0.0);
    var j := 0;
    while j < r.numY
      invariant 0 <= j <= r.numY
      invariant colour == PartialSum(r, x, y, j, 0)
    {
      colour := RowSums(r, colours, x, y, j, colour);
      j := j + 1;
    }
  }

  /** The innermost loop of decodeToArray: the terms of row j added to the running total. */
  method RowSums(r: Render, colours: array<Rgb>, x: int, y: int, j: int, total: Rgb)
    returns (colour: Rgb)
    requires ValidRender(r) && colours[..] == r.colours
    requires 0 <= x < r.width && 0 <= y < r.height && 0 <= j < r.numY
    requires total == PartialSum(r, x, y, j, 0)
    ensures colour == PartialSum(r, x, y, j + 1, 0)
  {
    colour := total;
    var i := 0;
    while i < r.numX
      invariant 0 <= i <= r.numX
      invariant colour == PartialSum(r, x, y, j, i)
    {
      var basics := Basis(r, x, y, i, j);
      var idx := i + j * r.numX;
      TermIndex(i, j, r.numX, r.numY);
      colour := Add(colour, Scale(r.num.multiply, colours[idx], basics));
      PartialSumStep(r, x, y, j, i, idx);
      i := i + 1;
    }
  }
}
