/** blurHashForPixels: check the component counts, gather the basis factors of every component
    into a factors array, find the largest AC magnitude, and write the size flag, the quantised
    maximum, the DC term and the AC terms into the hash buffer. */
module Encoder {
  import opened Options
  import opened Base83
  import opened Components
  import opened Hash

  /** fabsf. */
  function Abs(v: real): (a: real)
    ensures 0.0 <= a && (a == v || a == -v)
  {
    if v < 0.0 then -v else v
  }

  /** fmaxf on values that are not NaN. */
  function Max(a: real, b: real): (m: real)
    ensures a <= m && b <= m && (m == a || m == b)
  {
    if a < b then b else a
  }

  // ---------------------------------------------------------------------------------------------
  // The factors array

  /** Entry k of the factors array: channel k % 3 of component k / 3, which is component
      (x, y) = ((k / 3) % numX, (k / 3) / numX). factor(x, y) stands for what
      multiplyBasisFunction(x, y, width, height, rgb, bytesPerRow) returns for the image. */
  function FactorAt(factor: (int, int) -> Rgb, numX: int, k: int): real
    requires 1 <= numX
  {
    Channel(factor((k / 3) % numX, (k / 3) / numX), k % 3)
  }

  /** The factors array of a numX by numY grid. */
  function Factors(factor: (int, int) -> Rgb, numX: int, numY: int): (flat: seq<real>)
    requires 1 <= numX && 1 <= numY
    ensures |flat| == 3 * (numX * numY)
  {
    seq(3 * (numX * numY), k => FactorAt(factor, numX, k))
  }

  /** Channel c of component (x, y) is stored at (y * numX + x) * 3 + c. */
  lemma FactorSlot(factor: (int, int) -> Rgb, numX: int, x: int, y: int, c: int)
    requires 0 <= x < numX && 0 <= y && 0 <= c < 3
    ensures FactorAt(factor, numX, (y * numX + x) * 3 + c) == Channel(factor(x, y), c)
  {
    var k := (y * numX + x) * 3 + c;
    DivUnique(k, 3, y * numX + x, c);
    DivUnique(y * numX + x, numX, y, x);
  }

  /** Component i of the factors array as a colour: factors[3i], factors[3i + 1], factors[3i + 2]. */
  function Term(flat: seq<real>, i: nat): Rgb
    requires 3 * i + 3 <= |flat|
  {
    Rgb(flat[3 * i], flat[3 * i + 1], flat[3 * i + 2])
  }

  /** The components of the factors array are the factors of the grid in row-major order. */
  lemma FactorsTerm(factor: (int, int) -> Rgb, numX: int, numY: int, x: int, y: int)
    requires 0 <= x < numX && 0 <= y < numY
    ensures 3 * (y * numX + x) + 3 <= |Factors(factor, numX, numY)|
    ensures Term(Factors(factor, numX, numY), y * numX + x) == factor(x, y)
  {
    MulLeMono(y + 1, numY, numX);
    assert (y + 1) * numX == y * numX + numX;
    var flat := Factors(factor, numX, numY);
    FactorSlot(factor, numX, x, y, 0);
    FactorSlot(factor, numX, x, y, 1);
    FactorSlot(factor, numX, x, y, 2);
    assert flat[3 * (y * numX + x)] == FactorAt(factor, numX, (y * numX + x) * 3 + 0);
  }

  // ---------------------------------------------------------------------------------------------
  // What the encoder writes

  /** The running maximum of the AC loop: fmaxf(fabsf(v), maximum) over the values in order,
      starting from 0. */
  function MaxAbs(s: seq<real>): real
  {
    if s == [] then 0.0 else Max(Abs(s[|s| - 1]), MaxAbs(s[..|s| - 1]))
  }

  /** The running maximum is the largest magnitude among the values, or 0 when there are none. */
  lemma {:induction false} MaxAbsSpec(s: seq<real>)
    ensures 0.0 <= MaxAbs(s)
    ensures forall k :: 0 <= k < |s| ==> Abs(s[k]) <= MaxAbs(s)
    ensures MaxAbs(s) == 0.0 || exists k :: 0 <= k < |s| && Abs(s[k]) == MaxAbs(s)
  {
    if s != [] {
      var previous := s[..|s| - 1];
      MaxAbsSpec(previous);
      forall k | 0 <= k < |s| - 1
        ensures Abs(s[k]) <= MaxAbs(s)
      {
        assert s[k] == previous[k];
      }
      if MaxAbs(s) != Abs(s[|s| - 1]) && MaxAbs(s) != 0.0 {
        var k :| 0 <= k < |previous| && Abs(previous[k]) == MaxAbs(previous);
        assert s[k] == previous[k];
      }
    }
  }

  /** The quantised maximum written as the second digit: floorf(maximum * 166 - 0.5) clamped
      to [0,82] when there are AC terms, 0 when there are none. */
  function QuantisedMaximum(num: Numerics, acCount: int, actualMaximum: real): (q: int)
    ensures 0 <= q <= 82
    ensures acCount <= 0 ==> q == 0
    ensures acCount > 0 ==> q == Clamp(num.maxLevel(actualMaximum), 0, 82)
  {
    if acCount > 0 then Clamp(num.maxLevel(actualMaximum), 0, 82) else 0
  }

  /** The maximum the AC terms are quantised against: (q + 1) / 166, or 1 without AC terms. */
  function ACMaximum(acCount: int, quantisedMaximum: int): (m: real)
    requires 0 <= quantisedMaximum
    ensures 0.0 < m
    ensures acCount > 0 ==> m == MaximumValue(quantisedMaximum)
  {
    if acCount > 0 then MaximumValue(quantisedMaximum) else 1.0
  }

  /** The packed values of the first n AC terms of the factors array. */
  function ACValues(num: Numerics, flat: seq<real>, n: nat, maximumValue: real): (ac: seq<int>)
    requires 3 + 3 * n <= |flat|
    ensures |ac| == n
    ensures forall i :: 0 <= i < n ==>
      0 <= ac[i] < Pow83(2) && UnpackAC(ac[i]) == ACLevels(num, Term(flat, i + 1), maximumValue)
  {
    seq(n, i requires 0 <= i < n => EncodeAC(num, Term(flat, i + 1), maximumValue))
  }

  /** One more AC term appends its packed value. */
  lemma ACValuesSnoc(num: Numerics, flat: seq<real>, n: nat, maximumValue: real)
    requires 6 + 3 * n <= |flat|
    ensures ACValues(num, flat, n + 1, maximumValue) ==
      ACValues(num, flat, n, maximumValue) + [EncodeAC(num, Term(flat, n + 1), maximumValue)]
  {
  }

  /** The fields blurHashForPixels writes for a factors array of a numX by numY grid (flat):
      the grid, the quantised maximum of the AC magnitudes, the packed DC term and the packed
      AC terms. */
  function Encoded(num: Numerics, numX: int, numY: int, flat: seq<real>): (f: Fields)
    requires 1 <= numX <= 9 && 1 <= numY <= 9 && |flat| == 3 * (numX * numY)
    ensures WellFormed(f)
    ensures f.numX == numX && f.numY == numY
    ensures f.quantisedMaximum == QuantisedMaximum(num, numX * numY - 1, MaxAbs(flat[3..]))
    ensures UnpackDC(f.dc) == SRGBBytes(num, Term(flat, 0))
    ensures forall i :: 0 <= i < |f.ac| ==>
      UnpackAC(f.ac[i]) ==
        ACLevels(num, Term(flat, i + 1), ACMaximum(|f.ac|, f.quantisedMaximum))
  {
    SizeFlagRoundTrip(numX, numY);
    var acCount := numX * numY - 1;
    var q := QuantisedMaximum(num, acCount, MaxAbs(flat[3..]));
    Fields(numX, numY, q, EncodeDC(num, Term(flat, 0)),
           ACValues(num, flat, acCount, ACMaximum(acCount, q)))
  }

  // ---------------------------------------------------------------------------------------------
  // blurHashForPixels

  /** blurHashForPixels (src/blurhash_ffi.c:30-85): None (NULL) when a component count is
      outside [1,9], otherwise the characters of the buffer up to its terminator, which are
      the serialised fields of the factors of the image. */
  method BlurHashForPixels(xComponents: int, yComponents: int, factor: (int, int) -> Rgb,
                           num: Numerics)
    returns (hash: Option<string>)
    ensures hash.None? <==> !(1 <= xComponents <= 9 && 1 <= yComponents <= 9)
    ensures hash.Some? ==>
      hash.value == Serialise(Encoded(num, xComponents, yComponents,
                                      Factors(factor, xComponents, yComponents)))
  {
    if xComponents < 1 || xComponents > 9 {
      return None;
    }
    if yComponents < 1 || yComponents > 9 {
      return None;
    }
    var factors := ComputeFactors(xComponents, yComponents, factor);
    var buffer := new char[2 + 4 + (9 * 9 - 1) * 2 + 1];
    var length := WriteHash(num, xComponents, yComponents, factors, buffer);
    hash := Some(buffer[..length]);
  }

  /** The loops over the components: factors[(y * numX + x) * 3 + c] is channel c of the
      factor of component (x, y). */
  method ComputeFactors(numX: int, numY: int, factor: (int, int) -> Rgb)
    returns (factors: array<real>)
    requires 1 <= numX <= 9 && 1 <= numY <= 9
    ensures fresh(factors) && factors[..] == Factors(factor, numX, numY)
  {
    factors := new real[numY * numX * 3](_ => 0.0);
    var y := 0;
    while y < numY
      invariant 0 <= y <= numY
      invariant forall k :: 0 <= k < (y * numX) * 3 ==> factors[k] == FactorAt(factor, numX, k)
    {
      FactorRow(numX, numY, factor, factors, y);
      y := y + 1;
    }
    assert factors[..] == Factors(factor, numX, numY);
  }

  /** The inner loop over the components of row y. */
  method FactorRow(numX: int, numY: int, factor: (int, int) -> Rgb, factors: array<real>, y: int)
    requires 1 <= numX && 0 <= y < numY && factors.Length == numY * numX * 3
    requires forall k :: 0 <= k < (y * numX) * 3 ==> factors[k] == FactorAt(factor, numX, k)
    modifies factors
    ensures forall k :: 0 <= k < ((y + 1) * numX) * 3 ==> factors[k] == FactorAt(factor, numX, k)
    ensures forall k :: ((y + 1) * numX) * 3 <= k < factors.Length ==>
      factors[k] == old(factors[k])
  {
    MulLeMono(y + 1, numY, numX);
    var x := 0;
    while x < numX
      invariant 0 <= x <= numX
      invariant forall k :: 0 <= k < (y * numX + x) * 3 ==> factors[k] == FactorAt(factor, numX, k)
      invariant forall k :: (y * numX + x) * 3 <= k < factors.Length ==>
        factors[k] == old(factors[k])
    {
      var colour := factor(x, y);
      StoreFactor(numX, factor, factors, x, y, colour);
      x := x + 1;
    }
    assert (y + 1) * numX == y * numX + numX;
  }

  /** The three stores of one component. */
  method StoreFactor(numX: int, factor: (int, int) -> Rgb, factors: array<real>, x: int, y: int,
                     colour: Rgb)
    requires 0 <= x < numX && 0 <= y && (y * numX + x) * 3 + 3 <= factors.Length
    requires colour == factor(x, y)
    requires forall k :: 0 <= k < (y * numX + x) * 3 ==> factors[k] == FactorAt(factor, numX, k)
    modifies factors
    ensures forall k :: 0 <= k < (y * numX + x) * 3 + 3 ==>
      factors[k] == FactorAt(factor, numX, k)
    ensures forall k :: (y * numX + x) * 3 + 3 <= k < factors.Length ==>
      factors[k] == old(factors[k])
  {
    var slot := (y * numX + x) * 3;
    factors[slot + 0] := colour.r;
    factors[slot + 1] := colour.g;
    factors[slot + 2] := colour.b;
    FactorSlot(factor, numX, x, y, 0);
    FactorSlot(factor, numX, x, y, 1);
    FactorSlot(factor, numX, x, y, 2);
  }

  /** The writes into the hash buffer: the header, the AC terms and the terminator. The result
      is the length of the hash. */
  method WriteHash(num: Numerics, numX: int, numY: int, factors: array<real>,
                   buffer: array<char>)
    returns (length: int)
    requires 1 <= numX <= 9 && 1 <= numY <= 9 && factors.Length == 3 * (numX * numY)
    requires buffer.Length == 2 + 4 + (9 * 9 - 1) * 2 + 1
    modifies buffer
    ensures 0 <= length < buffer.Length && buffer[length] == 0 as char
    ensures buffer[..length] == Serialise(Encoded(num, numX, numY, factors[..]))
  {
    MulLeMono(numX, 9, numY);
    MulLeMono(numY, 9, 9);
    var acCount := numX * numY - 1;
    var ptr, maximumValue, header := WriteHeader(num, numX, numY, factors, buffer);
    ptr := WriteACTerms(num, factors, acCount, maximumValue, buffer, ptr, header);
    buffer[ptr] := 0 as char;
    length := ptr;
  }

  /** The first six characters: the size flag (xComponents - 1) + (yComponents - 1) * 9, the
      quantised maximum and the DC term. The ghost result is what they hold. */
  method WriteHeader(num: Numerics, numX: int, numY: int, factors: array<real>,
                     buffer: array<char>)
    returns (ptr: int, maximumValue: real, ghost header: string)
    requires 1 <= numX <= 9 && 1 <= numY <= 9 && factors.Length == 3 * (numX * numY)
    requires buffer.Length == 2 + 4 + (9 * 9 - 1) * 2 + 1
    modifies buffer
    ensures ptr == 6 && buffer[..6] == header
    ensures var f := Encoded(num, numX, numY, factors[..]);
      maximumValue == ACMaximum(|f.ac|, f.quantisedMaximum) &&
      header + ACDigits(ACValues(num, factors[..], |f.ac|, maximumValue)) == Serialise(f)
  {
    ghost var f := Encoded(num, numX, numY, factors[..]);
    var sizeFlag := (numX - 1) + (numY - 1) * 9;
    SizeFlagRoundTrip(numX, numY);
    ptr := EncodeIntInto(sizeFlag, 1, buffer, 0);
    var quantisedMaximumValue;
    ptr, quantisedMaximumValue, maximumValue := WriteMaximum(num, factors, numX * numY - 1,
                                                              buffer, ptr);
    var dc := EncodeDC(num, Rgb(factors[0], factors[1], factors[2]));
    ptr := EncodeIntInto(dc, 4, buffer, ptr);
    header := EncodeInt(sizeFlag, 1) + EncodeInt(quantisedMaximumValue, 1) + EncodeInt(dc, 4);
  }

  /** The second character: when there are AC terms, the quantised largest AC magnitude, against
      which the AC terms are then packed as (q + 1) / 166; otherwise 0, with maximum 1. */
  method WriteMaximum(num: Numerics, factors: array<real>, acCount: int, buffer: array<char>,
                      ptr: int)
    returns (next: int, quantisedMaximumValue: int, maximumValue: real)
    requires 0 <= acCount && factors.Length == 3 + 3 * acCount
    requires 0 <= ptr && ptr + 1 <= buffer.Length
    modifies buffer
    ensures next == ptr + 1 && 0 <= quantisedMaximumValue <= 82
    ensures buffer[..next] == old(buffer[..ptr]) + EncodeInt(quantisedMaximumValue, 1)
    ensures quantisedMaximumValue == QuantisedMaximum(num, acCount, MaxAbs(factors[..][3..]))
    ensures maximumValue == ACMaximum(acCount, quantisedMaximumValue)
  {
    if acCount > 0 {
      var actualMaximumValue := ActualMaximum(factors, acCount);
      quantisedMaximumValue := Clamp(num.maxLevel(actualMaximumValue), 0, 82);
      maximumValue := (quantisedMaximumValue as real + 1.0) / 166.0;
      next := EncodeIntInto(quantisedMaximumValue, 1, buffer, ptr);
    } else {
      quantisedMaximumValue := 0;
      maximumValue := 1.0;
      next := EncodeIntInto(0, 1, buffer, ptr);
    }
  }

  /** The loop for the largest AC magnitude, over the acCount * 3 floats after the DC term. */
  method ActualMaximum(factors: array<real>, acCount: int) returns (maximum: real)
    requires 0 <= acCount && factors.Length == 3 + 3 * acCount
    ensures maximum == MaxAbs(factors[..][3..])
  {
    maximum := 0.0;
    var i := 0;
    while i < acCount * 3
      invariant 0 <= i <= acCount * 3
      invariant maximum == MaxAbs(factors[3 .. 3 + i])
    {
      assert factors[3 .. 3 + i + 1][..i] == factors[3 .. 3 + i];
      maximum := Max(Abs(factors[3 + i]), maximum);
      i := i + 1;
    }
    assert factors[..][3..] == factors[3 .. 3 + i];
  }

  /** The loop over the AC terms: each is packed against maximumValue and written as two
      digits after what the buffer already holds. */
  method WriteACTerms(num: Numerics, factors: array<real>, acCount: int, maximumValue: real,
                      buffer: array<char>, start: int, ghost written: string)
    returns (next: int)
    requires 0 <= acCount && factors.Length == 3 + 3 * acCount
    requires 0 <= start && start + 2 * acCount < buffer.Length
    requires buffer[..start] == written
    modifies buffer
    ensures next == start + 2 * acCount
    ensures buffer[..next] == written + ACDigits(ACValues(num, factors[..], acCount, maximumValue))
  {
    ghost var flat := factors[..];
    next := start;
    var i := 0;
    while i < acCount
      invariant 0 <= i <= acCount && next == start + 2 * i
      invariant buffer[..next] == written + ACDigits(ACValues(num, flat, i, maximumValue))
    {
      var value := PackTerm(num, factors, i, maximumValue);
      ACValuesSnoc(num, flat, i, maximumValue);
      next := WriteDigits(value, buffer, next, written, ACValues(num, flat, i, maximumValue));
      i := i + 1;
    }
  }

  /** encodeAC(ac[i * 3 + 0], ac[i * 3 + 1], ac[i * 3 + 2], maximumValue). */
  method PackTerm(num: Numerics, factors: array<real>, i: int, maximumValue: real)
    returns (value: int)
    requires 0 <= i && 3 + i * 3 + 3 <= factors.Length
    ensures value == EncodeAC(num, Term(factors[..], i + 1), maximumValue)
  {
    value := EncodeAC(num, Rgb(factors[3 + i * 3 + 0], factors[3 + i * 3 + 1],
                               factors[3 + i * 3 + 2]), maximumValue);
  }

  /** One AC value written as two digits at next, after the hash so far. */
  method WriteDigits(value: int, buffer: array<char>, next: int, ghost written: string,
                     ghost done: seq<int>)
    returns (after: int)
    requires 0 <= value < Pow83(2) && forall k :: 0 <= k < |done| ==> 0 <= done[k]
    requires 0 <= next && next + 2 <= buffer.Length
    requires buffer[..next] == written + ACDigits(done)
    modifies buffer
    ensures after == next + 2
    ensures buffer[..after] == written + ACDigits(done + [value])
  {
    assert Pow83(2) == 6889;
    after := EncodeIntInto(value, 2, buffer, next);
    assert (done + [value])[..|done|] == done;
  }
}
