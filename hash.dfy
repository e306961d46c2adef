/** The layout of a blur hash: the size flag, the quantised maximum, four DC digits and two digits
    per AC term; the length check of isValidBlurhash; and the reading of every field that
    decodeToArray parses. */
module Hash {
  import opened Options
  import opened Base83

  /** C's int division, which truncates toward zero (positive divisors only). */
  function CDiv(a: int, b: int): int
    requires b > 0
  {
    if a >= 0 then a / b else -((-a) / b)
  }

  /** C's int remainder, which takes the sign of the dividend (positive divisors only). */
  function CRem(a: int, b: int): int
    requires b > 0
  {
    a - b * CDiv(a, b)
  }

  /** The size flag blurHashForPixels writes as the first digit. */
  function SizeFlag(numX: int, numY: int): int
  {
    (numX - 1) + (numY - 1) * 9
  }

  /** The column count the decoder recovers from a size flag: (sizeFlag % 9) + 1. */
  function NumX(sizeFlag: int): int
  {
    CRem(sizeFlag, 9) + 1
  }

  /** The row count the decoder recovers: (int)floorf(sizeFlag / 9) + 1, where the quotient is
      the C integer quotient and floorf leaves it unchanged. */
  function NumY(sizeFlag: int): int
  {
    CDiv(sizeFlag, 9) + 1
  }

  /** The number of terms (the DC term and the AC terms) of the grid a size flag names. */
  function ComponentCount(sizeFlag: int): int
  {
    NumX(sizeFlag) * NumY(sizeFlag)
  }

  /** The encoder's flag for a grid of 1..9 by 1..9 components is a single digit in [0,80], and
      the decoder recovers both counts from it. */
  lemma SizeFlagRoundTrip(x: int, y: int)
    requires 1 <= x <= 9 && 1 <= y <= 9
    ensures 0 <= SizeFlag(x, y) <= 80
    ensures NumX(SizeFlag(x, y)) == x && NumY(SizeFlag(x, y)) == y
  {
    DivUnique(SizeFlag(x, y), 9, y - 1, x - 1);
  }

  /** Every flag one digit can carry names a grid of 1..9 columns and 1..10 rows (flags 81 and 82
      give ten rows, which the encoder never writes) whose own flag it is. */
  lemma FlagDimensions(sizeFlag: int)
    requires 0 <= sizeFlag < 83
    ensures 1 <= NumX(sizeFlag) <= 9 && 1 <= NumY(sizeFlag) <= 10
    ensures NumY(sizeFlag) == 10 <==> sizeFlag >= 81
    ensures SizeFlag(NumX(sizeFlag), NumY(sizeFlag)) == sizeFlag
  {
    assert sizeFlag == (sizeFlag / 9) * 9 + sizeFlag % 9;
  }

  /** isValidBlurhash (src/blurhash_ffi.c:167-179): at least six characters, and exactly as many
      as the size flag's grid needs. The flag is decoded with decodeToInt, so a foreign first
      character gives the flag -1. */
  predicate IsValidBlurhash(hash: string)
  {
    |hash| >= 6 &&
    var sizeFlag := DecodeInt(hash[..1]);
    |hash| == 4 + 2 * NumX(sizeFlag) * NumY(sizeFlag)
  }

  /** The value decodeToInt reads from a single character is its digit value, or -1. */
  lemma DecodeOneChar(s: string)
    requires |s| == 1
    ensures DecodeInt(s) == IndexOf(s[0])
  {
    assert s[..0] == [];
  }

  /** isValidBlurhash accepts exactly the strings of at least six characters whose first
      character is a digit and whose length is 4 + 2 * numX * numY for the grid that digit
      names. In particular a foreign first character is always rejected: the C arithmetic turns
      the flag -1 into numX = 0 and numY = 1, and no string of length 4 passes the first test. */
  lemma IsValidBlurhashIff(hash: string)
    ensures IsValidBlurhash(hash) <==>
      |hash| >= 6 && hash[0] in Alphabet &&
      |hash| == 4 + 2 * NumX(IndexOf(hash[0])) * NumY(IndexOf(hash[0]))
  {
    if |hash| >= 6 {
      DecodeOneChar(hash[..1]);
      IndexOfSpec(hash[0]);
      if hash[0] !in Alphabet {
        assert NumX(-1) == 0;
      }
    }
  }

  /** The size flag of a valid hash is a digit value. */
  lemma ValidFlag(hash: string)
    requires IsValidBlurhash(hash)
    ensures 0 <= DecodeInt(hash[..1]) < 83
  {
    DecodeOneChar(hash[..1]);
    if DecodeInt(hash[..1]) == -1 {
      assert false;
    }
  }

  /** A valid hash has a grid of 1..9 by 1..10 components and room for every slice. */
  lemma ValidDimensions(hash: string)
    requires IsValidBlurhash(hash)
    ensures var sizeFlag := DecodeInt(hash[..1]);
      0 <= sizeFlag < 83 &&
      1 <= NumX(sizeFlag) <= 9 && 1 <= NumY(sizeFlag) <= 10 &&
      1 <= ComponentCount(sizeFlag) && |hash| == 4 + 2 * ComponentCount(sizeFlag)
  {
    ValidFlag(hash);
    var sizeFlag := DecodeInt(hash[..1]);
    FlagDimensions(sizeFlag);
    GridLength(NumX(sizeFlag), NumY(sizeFlag), |hash|);
  }

  lemma GridLength(numX: int, numY: int, n: int)
    requires 1 <= numX && 1 <= numY && n == 4 + 2 * numX * numY
    ensures 1 <= numX * numY && n == 4 + 2 * (numX * numY)
  {
    assert 2 * numX * numY == 2 * (numX * numY);
  }

  // ---------------------------------------------------------------------------------------------
  // The fields of a hash

  /** What a blur hash carries: the grid size, the quantised maximum of the AC terms, the packed
      DC value and one packed value per AC term in row-major order. */
  datatype Fields = Fields(numX: int, numY: int, quantisedMaximum: int, dc: int, ac: seq<int>)

  /** Fields that fit the digits they are written with. */
  predicate WellFormed(f: Fields)
  {
    1 <= f.numX <= 9 && 1 <= f.numY && SizeFlag(f.numX, f.numY) < 83 &&
    0 <= f.quantisedMaximum < 83 && 0 <= f.dc < Pow83(4) &&
    |f.ac| == f.numX * f.numY - 1 &&
    forall i :: 0 <= i < |f.ac| ==> 0 <= f.ac[i] < Pow83(2)
  }

  /** Two digits per AC value, in order. */
  function ACDigits(ac: seq<int>): (s: string)
    requires forall i :: 0 <= i < |ac| ==> 0 <= ac[i]
    ensures |s| == 2 * |ac|
  {
    if ac == [] then [] else ACDigits(ac[..|ac| - 1]) + EncodeInt(ac[|ac| - 1], 2)
  }

  /** The characters blurHashForPixels writes for these fields, terminator excluded. */
  function Serialise(f: Fields): (hash: string)
    requires WellFormed(f)
    ensures |hash| == 4 + 2 * (f.numX * f.numY)
  {
    EncodeInt(SizeFlag(f.numX, f.numY), 1) + EncodeInt(f.quantisedMaximum, 1) +
    EncodeInt(f.dc, 4) + ACDigits(f.ac)
  }

  /** The two characters holding AC value i (the slice decodeToArray reads for iter = i + 1). */
  function ACSlice(hash: string, i: nat): (slice: string)
    requires 8 + 2 * i <= |hash|
    ensures |slice| == 2
  {
    hash[6 + 2 * i .. 8 + 2 * i]
  }

  /** The values decodeToArray reads from the AC slices [4 + 2 * iter, 6 + 2 * iter) for
      iter = 1..n, or None as soon as one slice holds a foreign character. */
  function ReadAC(hash: string, n: nat): Option<seq<int>>
    requires 6 + 2 * n <= |hash|
  {
    if n == 0 then Some([])
    else
      var previous := ReadAC(hash, n - 1);
      var v := DecodeInt(ACSlice(hash, n - 1));
      if previous.None? || v == -1 then None else Some(previous.value + [v])
  }

  /** The fields decodeToArray reads (src/blurhash_ffi.c:198-239): None when the hash is not
      valid or when the maximum [1,2), the DC term [2,6) or one of the AC slices holds a
      foreign character. */
  function ReadFields(hash: string): Option<Fields>
  {
    if !IsValidBlurhash(hash) then None
    else
      ValidDimensions(hash);
      var sizeFlag := DecodeInt(hash[..1]);
      var numX, numY := NumX(sizeFlag), NumY(sizeFlag);
      var quantisedMaximum := DecodeInt(hash[1..2]);
      var dc := DecodeInt(hash[2..6]);
      if quantisedMaximum == -1 || dc == -1 then None
      else
        match ReadAC(hash, ComponentCount(sizeFlag) - 1)
        case None => None
        case Some(ac) => Some(Fields(numX, numY, quantisedMaximum, dc, ac))
  }

  // ---------------------------------------------------------------------------------------------
  // Round trips between fields and hashes

  /** The digits of AC value i sit at [2i, 2i+2). */
  lemma {:induction false} ACDigitsAt(ac: seq<int>, i: int)
    requires forall k :: 0 <= k < |ac| ==> 0 <= ac[k]
    requires 0 <= i < |ac|
    ensures ACDigits(ac)[2 * i .. 2 * i + 2] == EncodeInt(ac[i], 2)
  {
    var p := ac[..|ac| - 1];
    if i < |ac| - 1 {
      ACDigitsAt(p, i);
      assert ACDigits(ac)[2 * i .. 2 * i + 2] == ACDigits(p)[2 * i .. 2 * i + 2];
    }
  }

  /** The first n AC slices read back exactly when each of them decodes, and then they read as
      the value of each slice, in order. */
  lemma {:induction false} ReadACSpec(hash: string, n: nat)
    requires 6 + 2 * n <= |hash|
    ensures ReadAC(hash, n).Some? <==> forall i :: 0 <= i < n ==> DecodeInt(ACSlice(hash, i)) != -1
    ensures ReadAC(hash, n).Some? ==>
      |ReadAC(hash, n).value| == n &&
      forall i :: 0 <= i < n ==> ReadAC(hash, n).value[i] == DecodeInt(ACSlice(hash, i))
  {
    if n > 0 {
      ReadACSpec(hash, n - 1);
      var previous := ReadAC(hash, n - 1);
      var v := DecodeInt(ACSlice(hash, n - 1));
      if previous.Some? && v != -1 {
        var ac := previous.value + [v];
        assert ReadAC(hash, n) == Some(ac);
        forall i | 0 <= i < n
          ensures ac[i] == DecodeInt(ACSlice(hash, i))
        {
          if i < n - 1 {
            assert ac[i] == previous.value[i];
          }
        }
      } else if previous.None? {
        var i :| 0 <= i < n - 1 && DecodeInt(ACSlice(hash, i)) == -1;
      }
    }
  }

  /** What ReadAC returns is n two-digit values whose digits are the AC part of the hash. */
  lemma ReadACDigits(hash: string, n: nat)
    requires 6 + 2 * n <= |hash| && ReadAC(hash, n).Some?
    ensures |ReadAC(hash, n).value| == n
    ensures forall i :: 0 <= i < n ==> 0 <= ReadAC(hash, n).value[i] < Pow83(2)
    ensures ACDigits(ReadAC(hash, n).value) == hash[6 .. 6 + 2 * n]
  {
    var values := ReadAC(hash, n).value;
    ReadACSlices(hash, n, values);
    ACDigitsOfSlices(hash, values);
  }

  /** Each value read is a two-digit value whose digits are its slice. */
  lemma ReadACSlices(hash: string, n: nat, values: seq<int>)
    requires 6 + 2 * n <= |hash| && ReadAC(hash, n) == Some(values)
    ensures |values| == n
    ensures forall i :: 0 <= i < n ==>
      0 <= values[i] < Pow83(2) && ACSlice(hash, i) == EncodeInt(values[i], 2)
  {
    ReadACSpec(hash, n);
    forall i | 0 <= i < n
      ensures 0 <= values[i] < Pow83(2) && ACSlice(hash, i) == EncodeInt(values[i], 2)
    {
      SliceDigits(ACSlice(hash, i), values[i]);
    }
  }

  /** A two-character slice that decodes is the two digits of its value. */
  lemma SliceDigits(slice: string, v: int)
    requires |slice| == 2 && v == DecodeInt(slice) && v != -1
    ensures 0 <= v < Pow83(2) && slice == EncodeInt(v, 2)
  {
    EncodeDecodeValue(slice);
  }

  /** Values whose digits fill the AC slices are written as the AC part of the hash. */
  lemma {:induction false} ACDigitsOfSlices(hash: string, values: seq<int>)
    requires 6 + 2 * |values| <= |hash|
    requires forall i :: 0 <= i < |values| ==> 0 <= values[i]
    requires forall i :: 0 <= i < |values| ==> ACSlice(hash, i) == EncodeInt(values[i], 2)
    ensures ACDigits(values) == hash[6 .. 6 + 2 * |values|]
  {
    if values != [] {
      var prev := values[..|values| - 1];
      var v := values[|values| - 1];
      ACDigitsOfSlices(hash, prev);
      assert prev + [v] == values;
      ACDigitsSnoc(hash, prev, v);
    }
  }

  /** Appending a value whose digits fill the next slice extends the AC part by that slice. */
  lemma ACDigitsSnoc(hash: string, prev: seq<int>, v: int)
    requires 8 + 2 * |prev| <= |hash|
    requires forall i :: 0 <= i < |prev| ==> 0 <= prev[i]
    requires 0 <= v
    requires ACDigits(prev) == hash[6 .. 6 + 2 * |prev|]
    requires EncodeInt(v, 2) == ACSlice(hash, |prev|)
    ensures ACDigits(prev + [v]) == hash[6 .. 6 + 2 * |prev + [v]|]
  {
    assert (prev + [v])[..|prev|] == prev;
    SliceSplit(hash, 6, 6 + 2 * |prev|, 8 + 2 * |prev|);
  }

  lemma SliceSplit(s: string, lo: int, mid: int, hi: int)
    requires 0 <= lo <= mid <= hi <= |s|
    ensures s[lo..hi] == s[lo..mid] + s[mid..hi]
  {}

  /** The AC slices of a serialised hash are the digits of the AC values. */
  lemma SerialisedACSlice(f: Fields, i: nat)
    requires WellFormed(f) && i < |f.ac|
    ensures 8 + 2 * i <= |Serialise(f)|
    ensures ACSlice(Serialise(f), i) == EncodeInt(f.ac[i], 2)
  {
    var hash := Serialise(f);
    ACDigitsAt(f.ac, i);
    assert hash[6..] == ACDigits(f.ac);
    assert ACSlice(hash, i) == hash[6..][2 * i .. 2 * i + 2];
  }

  /** Reading the hash written for well-formed fields gives back exactly those fields. */
  lemma ReadSerialise(f: Fields)
    requires WellFormed(f)
    ensures ReadFields(Serialise(f)) == Some(f)
  {
    SerialisedFlag(f);
    SerialisedValid(f);
    SerialisedHeader(f);
    SerialisedAC(f);
    ReadFieldsOfParts(Serialise(f), |f.ac|, f);
  }

  /** The first character of a serialised hash reads as the flag of its grid. */
  lemma SerialisedFlag(f: Fields)
    requires WellFormed(f)
    ensures var flag := DecodeInt(Serialise(f)[..1]);
      NumX(flag) == f.numX && NumY(flag) == f.numY && |f.ac| == ComponentCount(flag) - 1
  {
    var flag := SizeFlag(f.numX, f.numY);
    DivUnique(flag, 9, f.numY - 1, f.numX - 1);
    assert Serialise(f)[..1] == EncodeInt(flag, 1);
    DecodeEncode(flag, 1);
  }

  /** A serialised hash passes isValidBlurhash. */
  lemma SerialisedValid(f: Fields)
    requires WellFormed(f)
    ensures IsValidBlurhash(Serialise(f))
  {
    SerialisedFlag(f);
    GridLength(f.numX, f.numY, 4 + 2 * f.numX * f.numY);
  }

  /** The second character reads as the quantised maximum and the next four as the DC value. */
  lemma SerialisedHeader(f: Fields)
    requires WellFormed(f)
    ensures DecodeInt(Serialise(f)[1..2]) == f.quantisedMaximum
    ensures DecodeInt(Serialise(f)[2..6]) == f.dc
  {
    var hash := Serialise(f);
    assert DecodeInt(hash[1..2]) == f.quantisedMaximum by {
      assert hash[1..2] == EncodeInt(f.quantisedMaximum, 1);
      DecodeEncode(f.quantisedMaximum, 1);
    }
    assert hash[2..6] == EncodeInt(f.dc, 4);
    DecodeEncode(f.dc, 4);
  }

  /** The AC slices of a serialised hash read as the AC values. */
  lemma SerialisedAC(f: Fields)
    requires WellFormed(f)
    ensures 6 + 2 * |f.ac| <= |Serialise(f)| && ReadAC(Serialise(f), |f.ac|) == Some(f.ac)
  {
    var hash := Serialise(f);
    forall i | 0 <= i < |f.ac|
      ensures 8 + 2 * i <= |hash| && DecodeInt(ACSlice(hash, i)) == f.ac[i]
    {
      SerialisedACSlice(f, i);
      DecodeEncode(f.ac[i], 2);
    }
    ReadACOf(hash, f.ac);
  }

  /** A valid hash with a part that does not decode is rejected; n is the number of AC terms of
      its grid. */
  lemma ReadFieldsNone(hash: string, n: nat)
    requires IsValidBlurhash(hash)
    requires n == ComponentCount(DecodeInt(hash[..1])) - 1 && 6 + 2 * n <= |hash|
    requires !(DecodeInt(hash[1..2]) != -1 && DecodeInt(hash[2..6]) != -1 && ReadAC(hash, n).Some?)
    ensures ReadFields(hash).None?
  {
    ValidDimensions(hash);
  }

  /** Once a slice fails, every longer run of AC slices fails. */
  lemma ReadACFails(hash: string, m: nat, n: nat)
    requires m <= n && 6 + 2 * n <= |hash| && ReadAC(hash, m).None?
    ensures ReadAC(hash, n).None?
  {
    ReadACSpec(hash, m);
    ReadACSpec(hash, n);
  }

  /** Slices that decode to the given values read as those values. */
  lemma ReadACOf(hash: string, ac: seq<int>)
    requires 6 + 2 * |ac| <= |hash|
    requires forall i :: 0 <= i < |ac| ==> 0 <= ac[i] && DecodeInt(ACSlice(hash, i)) == ac[i]
    ensures ReadAC(hash, |ac|) == Some(ac)
  {
    ReadACSpec(hash, |ac|);
    assert ReadAC(hash, |ac|).value == ac;
  }

  /** A valid hash whose parts read as the given fields is read as those fields. */
  lemma ReadFieldsOfParts(hash: string, n: nat, f: Fields)
    requires IsValidBlurhash(hash)
    requires f.numX == NumX(DecodeInt(hash[..1])) && f.numY == NumY(DecodeInt(hash[..1]))
    requires n == ComponentCount(DecodeInt(hash[..1])) - 1 && 6 + 2 * n <= |hash|
    requires f.quantisedMaximum == DecodeInt(hash[1..2]) != -1
    requires f.dc == DecodeInt(hash[2..6]) != -1
    requires ReadAC(hash, n) == Some(f.ac)
    ensures ReadFields(hash) == Some(f)
  {
    ValidDimensions(hash);
  }

  /** Conversely, whatever the decoder reads from a hash is well-formed and is written back as
      that very hash: reading and writing are inverse bijections between well-formed fields and
      the hashes the decoder accepts. */
  lemma SerialiseRead(hash: string)
    requires ReadFields(hash).Some?
    ensures WellFormed(ReadFields(hash).value)
    ensures Serialise(ReadFields(hash).value) == hash
  {
    var n := ComponentCount(DecodeInt(hash[..1])) - 1;
    ReadFieldsShape(hash, n);
    var f := ReadFields(hash).value;
    PartsOfRead(hash, DecodeInt(hash[..1]), n, f);
    SerialisePieces(f, hash);
  }

  /** What ReadFields returns when it succeeds, field by field, given n, the number of AC
      terms of its grid. */
  lemma ReadFieldsShape(hash: string, n: int)
    requires ReadFields(hash).Some?
    requires n == ComponentCount(DecodeInt(hash[..1])) - 1
    ensures var flag := DecodeInt(hash[..1]);
      0 <= flag < 83 && 0 <= n && |hash| == 6 + 2 * n &&
      DecodeInt(hash[1..2]) != -1 && DecodeInt(hash[2..6]) != -1 && ReadAC(hash, n).Some? &&
      ReadFields(hash).value ==
        Fields(NumX(flag), NumY(flag), DecodeInt(hash[1..2]), DecodeInt(hash[2..6]),
               ReadAC(hash, n).value)
  {
    ValidDimensions(hash);
  }

  /** Fields made of the values read from the parts of a hash are well-formed, and each part
      holds the digits of its field. */
  lemma PartsOfRead(hash: string, flag: int, n: nat, f: Fields)
    requires 0 <= flag < 83 && |hash| == 6 + 2 * n && n == ComponentCount(flag) - 1
    requires flag == DecodeInt(hash[..1]) && f.numX == NumX(flag) && f.numY == NumY(flag)
    requires f.quantisedMaximum == DecodeInt(hash[1..2]) != -1
    requires f.dc == DecodeInt(hash[2..6]) != -1
    requires ReadAC(hash, n) == Some(f.ac)
    ensures WellFormed(f)
    ensures EncodeInt(SizeFlag(f.numX, f.numY), 1) == hash[..1]
    ensures EncodeInt(f.quantisedMaximum, 1) == hash[1..2]
    ensures EncodeInt(f.dc, 4) == hash[2..6]
    ensures |hash| == 6 + 2 * |f.ac| && ACDigits(f.ac) == hash[6 .. 6 + 2 * |f.ac|]
  {
    assert |f.ac| == n && ACDigits(f.ac) == hash[6 .. 6 + 2 * |f.ac|] by {
      ACPartOfRead(hash, n, f.ac);
    }
    assert WellFormed(f) by {
      FlagDimensions(flag);
      ReadACDigits(hash, n);
    }
    assert EncodeInt(SizeFlag(f.numX, f.numY), 1) == hash[..1] by {
      FlagDimensions(flag);
      EncodeDecodeValue(hash[..1]);
    }
    assert EncodeInt(f.quantisedMaximum, 1) == hash[1..2] by {
      EncodeDecodeValue(hash[1..2]);
    }
    assert EncodeInt(f.dc, 4) == hash[2..6] by {
      EncodeDecodeValue(hash[2..6]);
    }
  }

  /** The AC values read from a hash are written back as its AC part. */
  lemma ACPartOfRead(hash: string, n: nat, ac: seq<int>)
    requires 6 + 2 * n <= |hash| && ReadAC(hash, n) == Some(ac)
    ensures |ac| == n && forall i :: 0 <= i < n ==> 0 <= ac[i]
    ensures ACDigits(ac) == hash[6 .. 6 + 2 * |ac|]
  {
    ReadACDigits(hash, n);
  }

  /** A hash whose four parts are the digits of the fields' four parts is their serialisation. */
  lemma SerialisePieces(f: Fields, hash: string)
    requires WellFormed(f) && |hash| >= 6
    requires EncodeInt(SizeFlag(f.numX, f.numY), 1) == hash[..1]
    requires EncodeInt(f.quantisedMaximum, 1) == hash[1..2]
    requires EncodeInt(f.dc, 4) == hash[2..6]
    requires |hash| == 6 + 2 * |f.ac| && ACDigits(f.ac) == hash[6 .. 6 + 2 * |f.ac|]
    ensures Serialise(f) == hash
  {
    assert hash == hash[..1] + hash[1..2] + hash[2..6] + hash[6 .. 6 + 2 * |f.ac|];
  }

  /** The AC digits of two-digit values decode to a value. */
  lemma {:induction false} ACDigitsDecode(ac: seq<int>)
    requires forall i :: 0 <= i < |ac| ==> 0 <= ac[i] < Pow83(2)
    ensures DecodeInt(ACDigits(ac)) != -1
  {
    if ac != [] {
      var last := ac[|ac| - 1];
      ACDigitsDecode(ac[..|ac| - 1]);
      DecodeEncode(last, 2);
      DecodeIntAppend(ACDigits(ac[..|ac| - 1]), EncodeInt(last, 2));
    }
  }

  /** A serialised hash is made of alphabet characters only. */
  lemma SerialiseDecodes(f: Fields)
    requires WellFormed(f)
    ensures DecodeInt(Serialise(f)) != -1
  {
    var a := EncodeInt(SizeFlag(f.numX, f.numY), 1);
    var b := EncodeInt(f.quantisedMaximum, 1);
    var c := EncodeInt(f.dc, 4);
    var d := ACDigits(f.ac);
    DecodeEncode(SizeFlag(f.numX, f.numY), 1);
    DecodeEncode(f.quantisedMaximum, 1);
    DecodeEncode(f.dc, 4);
    ACDigitsDecode(f.ac);
    DecodeIntAppend(a, b);
    DecodeIntAppend(a + b, c);
    DecodeIntAppend(a + b + c, d);
  }

  /** decodeToArray's parsing succeeds exactly on the valid hashes made only of digit
      characters: the slices it reads cover the whole validated length. */
  lemma ReadFieldsSucceedsIff(hash: string)
    ensures ReadFields(hash).Some? <==>
      IsValidBlurhash(hash) && forall k :: 0 <= k < |hash| ==> IsDigit(hash[k])
  {
    DecodeIntSentinel(hash);
    if ReadFields(hash).Some? {
      SerialiseRead(hash);
      SerialiseDecodes(ReadFields(hash).value);
    } else if IsValidBlurhash(hash) && DecodeInt(hash) != -1 {
      DecodedReadFields(hash);
    }
  }

  /** A valid hash that decodes as one base-83 number is accepted. */
  lemma DecodedReadFields(hash: string)
    requires IsValidBlurhash(hash) && DecodeInt(hash) != -1
    ensures ReadFields(hash).Some?
  {
    ValidDimensions(hash);
    var flag := DecodeInt(hash[..1]);
    var n := ComponentCount(flag) - 1;
    SlicesDecode(hash, n);
    ReadFieldsOfParts(hash, n, Fields(NumX(flag), NumY(flag), DecodeInt(hash[1..2]),
                                      DecodeInt(hash[2..6]), ReadAC(hash, n).value));
  }

  /** Every slice of a hash that decodes as one number decodes. */
  lemma SlicesDecode(hash: string, n: nat)
    requires 6 + 2 * n <= |hash| && DecodeInt(hash) != -1
    ensures DecodeInt(hash[1..2]) != -1 && DecodeInt(hash[2..6]) != -1 && ReadAC(hash, n).Some?
  {
    DecodeIntSlice(hash, 1, 2);
    DecodeIntSlice(hash, 2, 6);
    forall i | 0 <= i < n
      ensures DecodeInt(ACSlice(hash, i)) != -1
    {
      DecodeIntSlice(hash, 6 + 2 * i, 8 + 2 * i);
    }
    ReadACSpec(hash, n);
  }
}
