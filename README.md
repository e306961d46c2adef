# BlurHash FFI codec: a verified model of its integer and serialisation layer

BlurHash turns an image into a short ASCII string and back into a blurred placeholder image.
The string has four parts, each written as base-83 digits over a fixed alphabet of 83 characters:

- a size flag for the numX by numY grid of cosine components (1..9 each);
- a quantised maximum of the AC terms;
- four digits for the DC colour, which packs three sRGB bytes as (R << 16) + (G << 8) + B;
- two digits for each AC term, which packs three quantisation levels in [0,18] in base 19.

This project models the C implementation in `src/blurhash_ffi.c`:

- the digit codec `encode_int` and `decodeToInt`, over the `characters` alphabet;
- the length check `isValidBlurhash`;
- the packing functions `encodeDC` and `encodeAC` and their inverses `decodeDC` and `decodeAC`;
- `clampToUByte`;
- the encoder `blurHashForPixels`, which fills the factors array and writes the hash buffer;
- the decoder `decodeToArray`, which validates the hash and reads its colour terms into the colours array, all or nothing. It then fills the caller's pixel buffer.

The floating-point arithmetic is a set of uninterpreted kernels. These are the sRGB transfer curve, the cosine basis, the `floorf` quantisations and the float products and quotients. They are bundled in the `Numerics` datatype, which the decoder's `Render` carries. Everything else is modelled exactly, with the limits listed under "## Left out": reals stand in for floats (no NaN), and a hash character stands for one byte of the C string.

Modules, one per concern:

- `Base83` (`base83.dfy`) holds the alphabet, the digit codec and the `decodeToInt` and `encode_int` loops.
- `Components` (`components.dfy`) holds the clamps and the DC and AC packing and unpacking.
- `Hash` (`hash.dfy`) holds the size flag, `isValidBlurhash`, and the fields of a hash. It proves that serialising and parsing are inverse to each other.
- `Encoder` (`encoder.dfy`) holds `blurHashForPixels` as a method over arrays, proved against the `Encoded` and `Serialise` functions.
- `Decoder` (`decoder.dfy`) holds `decodeToArray` as a method over arrays, proved against the `ReadFields`, `Colours` and `Image` functions.
- `RoundTrip` (`roundtrip.dfy`) states what the decoder makes of the encoder's output.
- `Options` (`option.dfy`) holds the `Option` type, which stands for a NULL or -1 result.

## Model

| member | source | states |
|---|---|---|
| Base83.FindFrom | src/blurhash_ffi.c:155-160 | The search through `characters` yields -1 or a position at or after its start that is inside the alphabet. |
| Base83.IndexOf | src/blurhash_ffi.c:154-160 | The digit value `decodeToInt` gives a character: the first position of `characters` that holds it, or -1. Base83.IndexOfSpec characterises it, and Base83.IndexOfIsDigitOf equates it with the reference digit value. |
| Base83.IndexOfSpec | src/blurhash_ffi.c:154-160 | The lookup accepts exactly the 83 alphabet characters. It returns the position of the one it finds, so `characters[index]` is the character looked up. |
| Base83.IndexOfAlphabet | src/blurhash_ffi.c:127 | Looking up the d-th alphabet character gives d, because no character repeats earlier. |
| Base83.IndexOfIsDigitOf | src/blurhash_ffi.c:154-160 | The first-match linear lookup agrees with an independent reference digit value. That reference goes by character class: digits 0-9, then A-Z, then a-z, then the punctuation. |
| Base83.AlphabetIsDigitChar | src/blurhash_ffi.c:127 | The alphabet is the ten decimal digits, then the upper-case letters, then the lower-case letters, then the 21 punctuation digits, in that order. |
| Base83.DigitOfDigitChar | src/blurhash_ffi.c:127 | The reference digit value inverts the reference digit character on all 83 digits. |
| Base83.DigitOfAlphabet | src/blurhash_ffi.c:127 | The reference digit value of the i-th alphabet character is i. |
| Base83.AlphabetAtDigitOf | src/blurhash_ffi.c:127 | A character that has a reference digit value d is the d-th alphabet character. |
| Base83.AlphabetDistinct | src/blurhash_ffi.c:127 | The 83 alphabet characters are pairwise distinct. |
| Base83.EncodeInt | src/blurhash_ffi.c:129-139 | The `length` characters `encode_int` writes for `value`. Base83.EncodeIntDigit gives each character, Base83.DecodeEncode and Base83.EncodeDecodeValue show that `decodeToInt` inverts it, and Base83.EncodeIntInto writes it. |
| Base83.EncodeIntDigit | src/blurhash_ffi.c:130-137 | Output character k is `characters[(value / 83^(length-1-k)) % 83]`, the digit that the running divisor picks. |
| Base83.EncodeIntInAlphabet | src/blurhash_ffi.c:136 | Every character written is an alphabet character. |
| Base83.EncodeIntInto | src/blurhash_ffi.c:129-139 | The method writes exactly the `length` digits of `value`, most significant first, at `dest[pos..pos+length]`. It changes nothing else in `dest` and returns `pos + length`. |
| Base83.DecodeInt | src/blurhash_ffi.c:151-165 | The value of a string is either the sentinel -1 or lies in `[0, 83^|s|)`, so a successful decode never collides with the sentinel. |
| Base83.DecodeIntSentinel | src/blurhash_ffi.c:151-165 | The value is -1 exactly when some character is not in the alphabet. |
| Base83.DecodeEncode | src/blurhash_ffi.c:151-165 | Decoding the `length` digits that `encode_int` writes for any `value < 83^length` gives `value` back. |
| Base83.EncodeDecode | src/blurhash_ffi.c:129-139 | A string made only of alphabet characters decodes to a value, and `encode_int` at the string's own width writes the string back. |
| Base83.EncodeDecodeValue | src/blurhash_ffi.c:129-139 | Any string that decodes to a value is the encoding of that value at its own width. |
| Base83.FindFromFound | src/blurhash_ffi.c:156-158 | A position that the search finds holds the character looked up. |
| Base83.DigitOfDecoded | src/blurhash_ffi.c:161 | Every character of a string that decodes to a value is an alphabet character. |
| Base83.DecodeIntSlice | src/blurhash_ffi.c:153-163 | Every slice of a string that decodes to a value also decodes to a value. |
| Base83.DecodeIntAppend | src/blurhash_ffi.c:153-163 | A concatenation decodes to a value exactly when both of its parts do. |
| Base83.DecodePrefixFails | src/blurhash_ffi.c:161 | If a prefix fails to decode, the whole string fails to decode. |
| Base83.DecodeToInt | src/blurhash_ffi.c:151-165 | The accumulator loop returns the base-83 value of `s[start..end]`, or -1 as soon as a character is foreign. An empty range returns 0. |
| Base83.FindDigit | src/blurhash_ffi.c:154-160 | The inner loop with its `break` returns the first alphabet position of the character, or -1. |
| Components.MaximumValue | src/blurhash_ffi.c:210 | The maximum `(q + 1) / 166` the decoder scales the AC colours by. Encoder.ACMaximum shows that the encoder divides by the same value at line 67 whenever there are AC terms. |
| Components.Clamp | src/blurhash_ffi.c:120-122 | `fmaxf(lo, fminf(hi, v))` lies in `[lo, hi]`. It is the identity inside that range and maps values below it to `lo` and values above it to `hi`. |
| Components.ClampToUByte | src/blurhash_ffi.c:141-145 | clampToUByte keeps a value in [0,255]. It sends negative values to 0 and values above 255 to 255. |
| Components.UnpackDC | src/blurhash_ffi.c:182-184 | decodeDC's `>> 16`, `(>> 8) & 255` and `& 255` on a non-negative value. Components.DCRoundTrip and Components.DCUnpackRange state what it recovers. |
| Components.PackDC | src/blurhash_ffi.c:116 | The DC packing of three bytes lies below 2^24. |
| Components.DCRoundTrip | src/blurhash_ffi.c:112-117 | A packed DC value fits in four base-83 digits. decodeDC's `>> 16`, `(>> 8) & 255` and `& 255` recover the three bytes it was packed from. |
| Components.DCUnpackRange | src/blurhash_ffi.c:181-185 | Unpacking any four-digit value gives green and blue bytes and a red value of at most 724. Red is a byte exactly when the value is below 2^24, and for those values repacking gives the value back. |
| Components.DecodeDC | src/blurhash_ffi.c:181-185 | decodeDC: the three unpacked bytes through `sRGBToLinear`. Components.DCUnpackRange gives the bytes it unpacks, and RoundTrip.DecodedDCColour shows that on an encoder hash they are the DC term's sRGB bytes. |
| Components.UnpackAC | src/blurhash_ffi.c:188-190 | decodeAC's `/ 361`, `/ 19 % 19` and `% 19` on a non-negative value. Components.ACRoundTrip and Components.ACUnpackRange state what it recovers. |
| Components.PackAC | src/blurhash_ffi.c:124 | The AC packing of three levels lies below 19^3. |
| Components.ACRoundTrip | src/blurhash_ffi.c:119-125 | A packed AC value fits in two base-83 digits. decodeAC's `/ 361`, `/ 19 % 19` and `% 19` recover the three levels. |
| Components.ACUnpackRange | src/blurhash_ffi.c:187-191 | Unpacking any two-digit value gives green and blue levels in [0,18] and a red level of at most 19. Red is a level exactly when the value is below 19^3, and for those values repacking gives the value back. |
| Components.DecodeAC | src/blurhash_ffi.c:187-195 | decodeAC: each unpacked level `q` gives the signed square of `(q - 9) / 9`, times the maximum. Components.ACUnpackRange gives the levels it unpacks, and RoundTrip.DecodedColours shows that on an encoder hash they are the AC term's levels. |
| Components.SRGBBytes | src/blurhash_ffi.c:113-115 | The three rounded sRGB values of the DC term are bytes. |
| Components.EncodeDC | src/blurhash_ffi.c:112-117 | encodeDC fits in four digits, and unpacking it gives the sRGB bytes of the three channels. |
| Components.Quantise | src/blurhash_ffi.c:120-122 | One channel's level in encodeAC: the `floorf` kernel clamped to [0,18]. Components.Clamp gives its range, which Components.ACLevels states. |
| Components.ACLevels | src/blurhash_ffi.c:120-122 | Each quantised channel of an AC term is a level in [0,18]. |
| Components.EncodeAC | src/blurhash_ffi.c:119-125 | encodeAC fits in two digits, and unpacking it gives the three levels of the channels relative to `maximumValue`. |
| Hash.SizeFlag | src/blurhash_ffi.c:56 | The flag `(numX - 1) + (numY - 1) * 9` the encoder writes. Hash.SizeFlagRoundTrip shows that Hash.NumX and Hash.NumY recover both counts from it. |
| Hash.NumX | src/blurhash_ffi.c:175 | The column count `(sizeFlag % 9) + 1`, with C's truncating remainder. Hash.SizeFlagRoundTrip and Hash.FlagDimensions give its values. |
| Hash.NumY | src/blurhash_ffi.c:174 | The row count `(int)floorf(sizeFlag / 9) + 1`, with C's truncating quotient. Hash.SizeFlagRoundTrip and Hash.FlagDimensions give its values, including 10 rows for flags 81 and 82. |
| Hash.SizeFlagRoundTrip | src/blurhash_ffi.c:56 | For counts in [1,9], the encoder's flag `(x-1) + (y-1)*9` lies in [0,80], and the decoder's `%9+1` and `/9+1` give x and y back. |
| Hash.FlagDimensions | src/blurhash_ffi.c:173-175 | Every one-digit flag names 1..9 columns and 1..10 rows. Flags 81 and 82, which the encoder never writes, give 10 rows. The flag is the encoder's flag of that grid. |
| Hash.DecodeOneChar | src/blurhash_ffi.c:173 | decodeToInt on one character is that character's alphabet position, or -1. |
| Hash.IsValidBlurhash | src/blurhash_ffi.c:167-179 | isValidBlurhash: at least six characters, and exactly `4 + 2*numX*numY` for the grid the first character names. Hash.IsValidBlurhashIff characterises it, and Hash.ValidDimensions gives the grid of an accepted hash. |
| Hash.IsValidBlurhashIff | src/blurhash_ffi.c:167-179 | isValidBlurhash accepts exactly the strings that have at least 6 characters, a first character in the alphabet, and length `4 + 2*numX*numY` for the flag's grid. In particular, C's truncating arithmetic on the flag -1 always rejects a foreign first character. |
| Hash.ValidFlag | src/blurhash_ffi.c:173 | The size flag of an accepted hash is a digit value. |
| Hash.ValidDimensions | src/blurhash_ffi.c:171-177 | An accepted hash has a grid of 1..9 by 1..10 components and exactly `4 + 2*numX*numY` characters. |
| Hash.Serialise | src/blurhash_ffi.c:54-80 | The encoder writes `1 + 1 + 4 + 2*(numX*numY - 1) = 4 + 2*numX*numY` characters before the terminator. |
| Hash.ACSlice | src/blurhash_ffi.c:229 | The slice `[4 + 2*iter, 6 + 2*iter)` has two characters. |
| Hash.ReadAC | src/blurhash_ffi.c:228-238 | The AC values the colour loop reads, slice by slice, or None at the first slice with a foreign character. Hash.ReadACSpec, Hash.ReadACFails and Hash.ReadACOf characterise it. |
| Hash.ReadACSpec | src/blurhash_ffi.c:228-238 | The first n AC slices read back exactly when each of them decodes. They then read as the value of each slice, in order. |
| Hash.ReadACDigits | src/blurhash_ffi.c:229 | The values read are two-digit values whose digits are the AC part of the hash. |
| Hash.ReadACSlices | src/blurhash_ffi.c:229 | Each value read is below 83^2, and its two digits are its slice. |
| Hash.SliceDigits | src/blurhash_ffi.c:229 | A two-character slice that decodes is the two digits of its value. |
| Hash.ACDigitsOfSlices | src/blurhash_ffi.c:76-78 | Values whose digits fill the AC slices are written as the AC part of the hash. |
| Hash.ACDigitsSnoc | src/blurhash_ffi.c:77 | Appending a value whose digits fill the next slice extends the AC part by that slice. |
| Hash.SerialisedACSlice | src/blurhash_ffi.c:76-78 | AC slice i of an encoder hash holds the two digits of AC value i. |
| Hash.ReadSerialise | src/blurhash_ffi.c:198-239 | Parsing the hash written for well-formed fields gives back exactly those fields. |
| Hash.SerialisedFlag | src/blurhash_ffi.c:56-57 | The first character of an encoder hash reads back as its grid. |
| Hash.SerialisedValid | src/blurhash_ffi.c:167-179 | Every hash the encoder writes passes isValidBlurhash. |
| Hash.SerialisedHeader | src/blurhash_ffi.c:66-74 | The second character reads back as the quantised maximum, and the next four read back as the DC value. |
| Hash.SerialisedAC | src/blurhash_ffi.c:76-78 | The AC slices of an encoder hash read back as its AC values. |
| Hash.ReadFields | src/blurhash_ffi.c:198-239 | The fields decodeToArray reads, or None when it returns -1. Hash.ReadFieldsSucceedsIff and Hash.ReadFieldsShape characterise it, and Hash.ReadSerialise and Hash.SerialiseRead show that it inverts Hash.Serialise. |
| Hash.ReadFieldsNone | src/blurhash_ffi.c:207-233 | A valid hash is rejected when the maximum, the DC term or any AC slice fails to decode. |
| Hash.ReadACFails | src/blurhash_ffi.c:229-233 | Once one AC slice fails, every longer run of slices fails too. |
| Hash.ReadACOf | src/blurhash_ffi.c:228-238 | Slices that decode to given values read as exactly those values. |
| Hash.ReadFieldsOfParts | src/blurhash_ffi.c:198-239 | A valid hash whose parts decode is parsed as the fields made of those parts. |
| Hash.SerialiseRead | src/blurhash_ffi.c:54-80 | Whatever the decoder parses is well-formed, and the encoder writes it back as that same hash. Together with ReadSerialise, parsing and writing are inverse bijections between well-formed fields and accepted hashes. |
| Hash.ReadFieldsShape | src/blurhash_ffi.c:198-239 | A successful parse has the exact length, every part decodes, and the fields are the flag's grid, the maximum, the DC value and the AC values. |
| Hash.PartsOfRead | src/blurhash_ffi.c:198-239 | The parts of a parsed hash form well-formed fields, and each part holds the digits of its field. |
| Hash.ACPartOfRead | src/blurhash_ffi.c:228-238 | The AC values parsed from a hash are written back as its AC part. |
| Hash.SerialisePieces | src/blurhash_ffi.c:56-78 | A hash whose four parts are the digits of the fields' four parts is their serialisation. |
| Hash.ACDigitsDecode | src/blurhash_ffi.c:77 | The AC digits of two-digit values decode as a number. |
| Hash.SerialiseDecodes | src/blurhash_ffi.c:54-80 | An encoder hash is made only of alphabet characters. |
| Hash.ReadFieldsSucceedsIff | src/blurhash_ffi.c:197-239 | decodeToArray parses a hash exactly when it passes isValidBlurhash and every character is in the alphabet. The slices it reads cover the whole validated length. |
| Hash.DecodedReadFields | src/blurhash_ffi.c:197-239 | A valid hash that decodes as one base-83 number is parsed. |
| Hash.SlicesDecode | src/blurhash_ffi.c:207-233 | Every slice that decodeToArray reads from a hash that decodes as one number also decodes. |
| Encoder.Abs | src/blurhash_ffi.c:63 | fabsf is non-negative, and its result is v or -v. |
| Encoder.Max | src/blurhash_ffi.c:63 | fmaxf on reals, which have no NaN, is an upper bound of both arguments and equals one of them. |
| Encoder.Factors | src/blurhash_ffi.c:36 | The factors array holds `yComponents * xComponents * 3` floats. |
| Encoder.FactorAt | src/blurhash_ffi.c:45-47 | Entry `k` of the factors array: channel `k % 3` of the component at position `k / 3` in row-major order. Encoder.FactorSlot shows that the stores of the factor loop put each factor channel there. |
| Encoder.FactorSlot | src/blurhash_ffi.c:45-47 | Index `(y*xComponents + x)*3 + c` holds channel c of the factor of component (x, y). |
| Encoder.Term | src/blurhash_ffi.c:77 | Component i of the factors array: the floats at `i * 3`, `i * 3 + 1` and `i * 3 + 2`. Encoder.FactorsTerm ties it to the component's factor. |
| Encoder.FactorsTerm | src/blurhash_ffi.c:45-47 | The components of the factors array are the factors of the grid, in row-major order. |
| Encoder.MaxAbs | src/blurhash_ffi.c:61-64 | The running `fmaxf(fabsf(ac[i]), maximum)` from 0. Encoder.MaxAbsSpec states that it is the largest magnitude, and Encoder.ActualMaximum that the loop computes it. |
| Encoder.MaxAbsSpec | src/blurhash_ffi.c:61-64 | Over reals, the running `fmaxf(fabsf(ac[i]), max)` from 0 is non-negative and bounds every magnitude. It is either 0 or attained by some AC float. |
| Encoder.QuantisedMaximum | src/blurhash_ffi.c:60-72 | The maximum digit lies in [0,82]. It is 0 when there is no AC term (a 1 by 1 grid), and otherwise it is the clamped `floorf(max*166 - 0.5)`. |
| Encoder.ACMaximum | src/blurhash_ffi.c:67-70 | The quantisation maximum is positive. It is `(q + 1)/166` when there are AC terms, which is exactly the `maxValue` the decoder reconstructs. |
| Encoder.ACValues | src/blurhash_ffi.c:76-78 | The packed value of each AC term fits in two digits and unpacks to the term's levels against the maximum. |
| Encoder.ACValuesSnoc | src/blurhash_ffi.c:76-78 | One more loop iteration appends the packed value of the next AC term. |
| Encoder.Encoded | src/blurhash_ffi.c:51-78 | The fields the encoder writes are well-formed and carry the grid and the quantised maximum of the AC magnitudes. The DC value unpacks to the sRGB bytes of the DC factor, and each AC value unpacks to the levels of its factor. |
| Encoder.BlurHashForPixels | src/blurhash_ffi.c:30-85 | The encoder returns NULL exactly when a component count lies outside [1,9]. Otherwise it returns the serialised fields of the image's factors, whose properties are given by Encoder.Encoded, RoundTrip.EncodedRoundTrip and Hash.SerialisedValid. |
| Encoder.ComputeFactors | src/blurhash_ffi.c:42-49 | The nested loops fill the whole factors array with the factors of all components, in row-major order. |
| Encoder.FactorRow | src/blurhash_ffi.c:43-48 | After row y, the factors of the first y+1 rows are in place, and the rest of the array is unchanged. |
| Encoder.StoreFactor | src/blurhash_ffi.c:45-47 | The three stores extend the filled prefix by one component and leave the rest of the array unchanged. |
| Encoder.WriteHash | src/blurhash_ffi.c:51-80 | The buffer holds the serialised fields of the factors, followed by the terminator. |
| Encoder.WriteHeader | src/blurhash_ffi.c:54-74 | The first six characters are the size flag, the maximum digit and the DC digits. The maximum returned is the one the AC terms are packed against. |
| Encoder.WriteMaximum | src/blurhash_ffi.c:59-72 | Both branches write one digit in [0,82] that equals QuantisedMaximum. The maximum returned is ACMaximum of that digit. |
| Encoder.ActualMaximum | src/blurhash_ffi.c:61-64 | The loop computes the running maximum magnitude of the AC floats. |
| Encoder.WriteACTerms | src/blurhash_ffi.c:76-78 | The loop appends the two digits of every packed AC value, in order, after what the buffer already holds. |
| Encoder.PackTerm | src/blurhash_ffi.c:77 | The encodeAC call packs floats `ac[i*3 .. i*3+2]`, which are component i + 1 of the factors array. |
| Encoder.WriteDigits | src/blurhash_ffi.c:77 | One `encode_int(.., 2, ptr)` call extends the AC part of the hash by one value. |
| Decoder.EffectivePunch | src/blurhash_ffi.c:199 | A punch below 1 is treated as 1, and any other punch is kept. |
| Decoder.ColourScale | src/blurhash_ffi.c:234 | The scale `maxValue * punch` the AC colours are decoded with, after the punch is raised to 1. Decoder.ReadHash states that the colours array is scaled by it. |
| Decoder.Colours | src/blurhash_ffi.c:212-238 | The colours array has one entry per term, `numX*numY` in all. |
| Decoder.ColoursSnoc | src/blurhash_ffi.c:234-237 | One more AC value appends its decodeAC colour. |
| Decoder.PartialSum | src/blurhash_ffi.c:249-256 | The running sum of the two inner pixel loops when they reach term `(i, j)`. Decoder.PartialSumStep and Decoder.RowSums tie it to the loops. |
| Decoder.PixelColour | src/blurhash_ffi.c:247-257 | The linear colour of a pixel: the weighted sum of all terms. Decoder.PixelSums states that the loops compute it, and Decoder.FlatImage evaluates it for a single term. |
| Decoder.PartialSumStep | src/blurhash_ffi.c:250-255 | Term `idx = i + j*numX` lies inside the colours array, and one inner iteration adds its weighted colour. |
| Decoder.ChannelBytes | src/blurhash_ffi.c:263-268 | A pixel is stored as nChannels bytes. |
| Decoder.PixelBytesOf | src/blurhash_ffi.c:259-268 | The bytes of a pixel are clampToUByte of the sRGB values of its summed colour, then 255 when there are four channels. |
| Decoder.PixelBytesAt | src/blurhash_ffi.c:263-268 | Byte c of a pixel's bytes is its channel c. |
| Decoder.RowBytes | src/blurhash_ffi.c:245-270 | The first n pixels of a row occupy `n*nChannels` bytes. |
| Decoder.Raster | src/blurhash_ffi.c:244-271 | The first m rows occupy `m*width*nChannels` bytes. |
| Decoder.Image | src/blurhash_ffi.c:244-271 | The pixel buffer the loops fill, row by row. Decoder.ImageAt gives every byte of it, and Decoder.FillPixels states that the loops write exactly it. |
| Decoder.ImageAt | src/blurhash_ffi.c:244-268 | Byte `nChannels*x + c + y*width*nChannels` of the image lies inside the `width*height*nChannels` buffer. It holds 255 for alpha, and otherwise clampToUByte of the sRGB value of channel c of pixel (x, y). |
| Decoder.RowByteAt | src/blurhash_ffi.c:263-265 | Channel c of pixel x is byte `nChannels*x + c` of its row. |
| Decoder.RasterAt | src/blurhash_ffi.c:263-268 | Byte k of row y sits at `y*bytesPerRow + k`. |
| Decoder.RasterPrefix | src/blurhash_ffi.c:244 | Adding a row keeps the bytes of the rows above it. |
| Decoder.RasterAtEarlier | src/blurhash_ffi.c:244 | Byte k of a row above the last one written sits at `y*bytesPerRow + k`. |
| Decoder.RasterLast | src/blurhash_ffi.c:244 | The last row written is the last `bytesPerRow` bytes. |
| Decoder.RowBytesAt | src/blurhash_ffi.c:245 | Channel c of pixel x sits at `nChannels*x + c` once the row has passed x. |
| Decoder.FlatImage | src/blurhash_ffi.c:249-257 | With a single term, every pixel has the DC colour, given `cos(0) = 1` and exact multiplication by 1. |
| Decoder.FieldsRender | src/blurhash_ffi.c:240-257 | The pixel loops work from the parsed grid, the decoded colours and the requested size and channel count. |
| Decoder.DecodedImage | src/blurhash_ffi.c:197-276 | The buffer decodeToArray leaves, or None when it returns -1. Decoder.DecodeToArray states that the method computes it, and RoundTrip.EncodedDecodes that it exists for every encoder hash. |
| Decoder.DecodeToArray | src/blurhash_ffi.c:197-276 | decodeToArray returns -1 and leaves the buffer untouched exactly when the hash is rejected. Otherwise it returns 0, and the whole buffer holds the decoded image, every byte as Decoder.ImageAt describes. |
| Decoder.ReadHash | src/blurhash_ffi.c:198-239 | Parsing succeeds exactly when ReadFields does. The grid and the colours array are then those of the parsed fields, scaled by `maxValue * punch`. |
| Decoder.ReadHashFields | src/blurhash_ffi.c:198-239 | A valid hash whose maximum and colour terms all decode is parsed as the fields they make up. |
| Decoder.ReadSize | src/blurhash_ffi.c:201-203 | numY and numX come from the size flag, and the hash has `4 + 2*numX*numY` characters. |
| Decoder.ReadColours | src/blurhash_ffi.c:216-239 | The loop succeeds exactly when the DC slice and all AC slices decode. The colours array then holds the DC colour followed by the AC colours. |
| Decoder.ReadTerm | src/blurhash_ffi.c:217-238 | One iteration extends the colours read and leaves the later entries unchanged. A failure means that some slice does not decode, and then nothing is written. |
| Decoder.ReadDCTerm | src/blurhash_ffi.c:217-227 | The DC iteration succeeds exactly when `[2,6)` decodes. It then stores decodeDC of that value in entry 0; nothing else is written. |
| Decoder.ReadACTerm | src/blurhash_ffi.c:228-238 | AC iteration `iter` succeeds exactly when the first `iter` AC slices decode. It then stores decodeAC of the slice's value in entry `iter`; nothing else is written. |
| Decoder.TermSlice | src/blurhash_ffi.c:229 | `[4 + iter*2, 6 + iter*2)` is AC slice `iter - 1`. |
| Decoder.StoreColour | src/blurhash_ffi.c:235-237 | The stores append one colour to the colours read so far and leave the later entries unchanged. |
| Decoder.ReadACNone | src/blurhash_ffi.c:229-233 | A slice that fails to decode makes the whole parse fail. |
| Decoder.ReadColoursFirst | src/blurhash_ffi.c:218-226 | The DC value gives the first colour. |
| Decoder.ReadColoursStep | src/blurhash_ffi.c:229-237 | Reading one more slice appends its colour. |
| Decoder.FillPixels | src/blurhash_ffi.c:244-271 | The pixel loops leave exactly the decoded image in the buffer, which has `width*height*nChannels` bytes. |
| Decoder.FillRow | src/blurhash_ffi.c:245-270 | One row writes its bytes at `y*bytesPerRow` and nothing else. |
| Decoder.RowStep | src/blurhash_ffi.c:245-270 | Writing pixel x after the first x pixels of a row writes the first x+1 pixels. |
| Decoder.FillPixel | src/blurhash_ffi.c:247-268 | One pixel writes its nChannels bytes at its index and nothing else. |
| Decoder.StorePixel | src/blurhash_ffi.c:263-268 | The stores write red, green and blue, then 255 for alpha when there are four channels. |
| Decoder.OverwriteSlices | src/blurhash_ffi.c:263-268 | Writing bytes at an index leaves everything before and after them unchanged. |
| Decoder.OverwriteTwice | src/blurhash_ffi.c:263-268 | Two writes that follow each other are one write of both. |
| Decoder.OverwriteAll | src/blurhash_ffi.c:244-271 | Writing a whole buffer's worth of bytes leaves only them. |
| Decoder.OverwriteRgb | src/blurhash_ffi.c:263-265 | The three channel stores write the pixel's three bytes. |
| Decoder.OverwriteRgba | src/blurhash_ffi.c:263-268 | The four stores, alpha included, write the pixel's four bytes. |
| Decoder.PixelSums | src/blurhash_ffi.c:247-257 | The two inner loops compute the weighted sum of all terms at the pixel. |
| Decoder.RowSums | src/blurhash_ffi.c:250-256 | The innermost loop adds the weighted terms of row j. |
| RoundTrip.EncodedRoundTrip | src/blurhash_ffi.c:53-80 | Every encoder hash is valid, has `4 + 2*numX*numY` characters, and parses back as the fields it was written from. |
| RoundTrip.DecodedColours | src/blurhash_ffi.c:216-238 | Decoding an encoder hash gives a DC colour that is the DC factor through the sRGB bytes. Each AC colour is decodeAC of a value that unpacks to the levels of its factor against `(q + 1)/166`. |
| RoundTrip.DecodedDCColour | src/blurhash_ffi.c:218-226 | When the DC value unpacks to the sRGB bytes of the DC term, the first colour is those bytes through `sRGBToLinear`. |
| RoundTrip.DecodedACColour | src/blurhash_ffi.c:229-237 | Colour `i + 1` is decodeAC of AC value `i` at the scale `maxValue * punch`. |
| RoundTrip.EncodedDecodes | src/blurhash_ffi.c:197-276 | decodeToArray accepts every encoder hash, for any output size and channel count. |

## Left out

- The floating-point functions are uninterpreted kernels. Their only properties are the ranges the code clamps them to.
  - `linearTosRGB` and `sRGBToLinear` (the sRGB transfer curve of IEC 61966-2-1) are kernels. linearTosRGB is typed as a byte, because it clamps its input to [0,1] first.
  - `floorf(signPow(v, 0.5) * 9 + 9.5)` and `floorf(max * 166 - 0.5)` are kernels, clamped as the code clamps them.
  - `cos`, and the float quotient `r / maximumValue` and product `maxValue * punch`, are kernels.
- Float rounding of additions and of the few products written out is not modelled. This affects the decode sums, decodeAC's `(q - 9) / 9`, its signed square and its product by the maximum. It also affects the quotient `(q + 1) / 166`, which the C divides in float in both the encoder and the decoder and Components.MaximumValue computes as an exact real. Reals stand in for floats, so NaN and infinities cannot be represented.
- `multiplyBasisFunction` (the cosine-weighted average over the input pixels) is a parameter of the encoder. It is a function from a component to its factor, so the pixel buffer, width, height and bytesPerRow of blurHashForPixels are not modelled.
- The allocation failures are not modelled. These are the `calloc` failure, where the encoder returns an empty string, and the `malloc` failure, where the decoder returns -1. So are `free`, `createByteArray`, the `decode` wrapper and `freePixelArray`, which only allocate and release memory.
- The encoder's function-static return buffer and the static factor result are not modelled. The encoder returns a fresh string, so aliasing between calls is not captured.
- The colours array of decodeToArray holds one colour per term, not three consecutive floats per term.
- `src/blurhash_ffi.h` is not part of this model. It holds only declarations and platform macros.
- A zero-area image is not modelled faithfully. blurHashForPixels never checks `width` or `height`. When `width * height` is 0, the scale `normalisation / (width * height)` is infinite, and every factor is `0 * inf`, which is NaN. `fmaxf` then ignores the NaN, so the maximum stays 0 and the digit is 0. `linearTosRGB(NaN)` gives 255, and every clamped AC level becomes 18. The model's reals cannot represent NaN. Encoder.Max and Encoder.MaxAbsSpec describe fmaxf on real inputs only. Encoder.BlurHashForPixels still holds for whatever factors and kernel results such an image produces, but the model does not say what those are.
- A hash character is one byte of the C string that `strlen` measures. NUL and characters above 255 are not inputs the C can receive: `strlen` stops at a NUL, and a character outside one byte, such as a UTF-8 `é`, is several bytes to the C code. The model's `string` does not exclude them. Hash.IsValidBlurhash counts characters where the C counts bytes.
- A NULL hash is not modelled. The hash is always a string, so the call to `strlen` before the NULL check has no counterpart.
- The 32-bit `int` products `width * nChannels` and `bytesPerRow * height`, and the index arithmetic in the pixel loops, are unbounded integers. Overflow on huge images is not modelled.
- Base83.EncodeIntInto: requires `0 <= value < 2^31` and `length <= 5`. Beyond five digits the C divisor `83^(length-1)` overflows an `int`, and negative values are not modelled. The encoder writes at most four digits.
- Base83.DecodeToInt: the accumulated value is an unbounded integer. C's `int` overflows from the fifth character on, because 83^5 - 1 exceeds 2^31 - 1. For example, `"k0000"` accumulates 46 * 83^4 = 2183082766. No caller reads more than four characters.
- Decoder.DecodeToArray: requires `nChannels` to be 3 or 4. For other counts the C stores overlap, or leave bytes unwritten. It also requires non-negative `width` and `height` and a buffer of exactly `width * height * nChannels` bytes, which decodeToArray assumes but does not check.
