/** What the decoder makes of the encoder's output: blurHashForPixels writes hashes that
    isValidBlurhash accepts and that decodeToArray reads back field for field, so the colours it
    decodes are the encoder's factors passed through the sRGB bytes (DC term) and the
    quantisation levels (AC terms). */
module RoundTrip {
  import opened Options
  import opened Components
  import opened Hash
  import opened Encoder
  import opened Decoder

  /** The encoder's hash is valid, has four characters plus two per component, and is read back
      as the fields it was written from. */
  lemma EncodedRoundTrip(num: Numerics, numX: int, numY: int, flat: seq<real>)
    requires 1 <= numX <= 9 && 1 <= numY <= 9 && |flat| == 3 * (numX * numY)
    ensures var f := Encoded(num, numX, numY, flat);
      IsValidBlurhash(Serialise(f)) && |Serialise(f)| == 4 + 2 * (numX * numY) &&
      ReadFields(Serialise(f)) == Some(f)
  {
    var f := Encoded(num, numX, numY, flat);
    SerialisedValid(f);
    ReadSerialise(f);
  }

  /** The colours decodeToArray reads from the encoder's hash: the DC colour is the DC factor
      mapped to sRGB bytes and back to linear values; AC colour i is decodeAC of a value whose
      unpacked levels are the quantisation levels of AC factor i against the encoder's maximum,
      which for AC terms is the maxValue (q + 1) / 166 the decoder scales by before the punch. */
  lemma DecodedColours(num: Numerics, numX: int, numY: int, flat: seq<real>, punch: int)
    requires 1 <= numX <= 9 && 1 <= numY <= 9 && |flat| == 3 * (numX * numY)
    ensures var f := Encoded(num, numX, numY, flat);
      var colours := Colours(num, f.dc, f.ac, ColourScale(num, f.quantisedMaximum, punch));
      var dc := SRGBBytes(num, Term(flat, 0));
      colours[0] == Rgb(num.sRGBToLinear(dc.r), num.sRGBToLinear(dc.g), num.sRGBToLinear(dc.b))
    ensures var f := Encoded(num, numX, numY, flat);
      var scale := ColourScale(num, f.quantisedMaximum, punch);
      var colours := Colours(num, f.dc, f.ac, scale);
      forall i :: 0 <= i < |f.ac| ==>
        colours[i + 1] == DecodeAC(f.ac[i], scale) &&
        UnpackAC(f.ac[i]) == ACLevels(num, Term(flat, i + 1), MaximumValue(f.quantisedMaximum))
  {
    var f := Encoded(num, numX, numY, flat);
    var scale := ColourScale(num, f.quantisedMaximum, punch);
    DecodedDCColour(num, f, scale, Term(flat, 0));
    forall i | 0 <= i < |f.ac|
      ensures Colours(num, f.dc, f.ac, scale)[i + 1] == DecodeAC(f.ac[i], scale)
      ensures UnpackAC(f.ac[i]) == ACLevels(num, Term(flat, i + 1), MaximumValue(f.quantisedMaximum))
    {
      DecodedACColour(num, f, scale, i);
    }
  }

  /** The first decoded colour is the DC value unpacked to bytes and mapped back to linear
      values. */
  lemma DecodedDCColour(num: Numerics, f: Fields, scale: real, dcTerm: Rgb)
    requires WellFormed(f) && UnpackDC(f.dc) == SRGBBytes(num, dcTerm)
    ensures var dc := SRGBBytes(num, dcTerm);
      Colours(num, f.dc, f.ac, scale)[0] ==
        Rgb(num.sRGBToLinear(dc.r), num.sRGBToLinear(dc.g), num.sRGBToLinear(dc.b))
  {
    assert Colours(num, f.dc, f.ac, scale)[0] == DecodeDC(num, f.dc);
  }

  /** Decoded colour i + 1 is decodeAC of AC value i, scaled by maxValue * punch. */
  lemma DecodedACColour(num: Numerics, f: Fields, scale: real, i: int)
    requires WellFormed(f) && 0 <= i < |f.ac|
    ensures Colours(num, f.dc, f.ac, scale)[i + 1] == DecodeAC(f.ac[i], scale)
  {
  }

  /** Any hash the encoder writes decodes, for any output size and channel count. */
  lemma EncodedDecodes(num: Numerics, numX: int, numY: int, flat: seq<real>, width: int,
                       height: int, punch: int, nChannels: int)
    requires 1 <= numX <= 9 && 1 <= numY <= 9 && |flat| == 3 * (numX * numY)
    requires 0 <= width && 0 <= height && (nChannels == 3 || nChannels == 4)
    ensures DecodedImage(Serialise(Encoded(num, numX, numY, flat)), width, height, punch,
                         nChannels, num).Some?
  {
    EncodedRoundTrip(num, numX, numY, flat);
  }
}
