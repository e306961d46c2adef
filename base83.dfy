/** The base-83 digit codec of BlurHash: the fixed alphabet, fixed-width most-significant-first
    encoding (encode_int) and the checked decoding with the -1 sentinel (decodeToInt). */
module Base83 {

  const Digits: string := "0123456789"
  const Upper: string := "ABCDEFGHIJKLMNOPQRSTUVWXYZ"
  const Lower: string := "abcdefghijklmnopqrstuvwxyz"
  const Punctuation: string := "#$%*+,-.:;=?@[]^_{|}~"

  /** The 83 digit characters in digit order; the order is part of the wire format. */
  const Alphabet: string := Digits + Upper + Lower + Punctuation

  /** 83 to the power n. */
  function Pow83(n: nat): (p: nat)
    ensures p >= 1
  {
    if n == 0 then 1 else 83 * Pow83(n - 1)
  }

  // ---------------------------------------------------------------------------------------------
  // Looking a character up in the alphabet

  /** The C lookup: the first position at or after j whose character is c, or -1. (Naming c in
      the decreases clause keeps the verifier from unrolling the search along the whole alphabet
      whenever j is a literal.) */
  function FindFrom(c: char, j: nat): (i: int)
    ensures i == -1 || j <= i < |Alphabet|
    decreases |Alphabet| - j, c
  {
    if j >= |Alphabet| then -1 else if Alphabet[j] == c then j else FindFrom(c, j + 1)
  }

  /** The digit value decodeToInt assigns to c, or -1 when c is not a digit character. */
  function IndexOf(c: char): (d: int)
    ensures -1 <= d < |Alphabet|
  {
    FindFrom(c, 0)
  }

  /** c is a digit character: the lookup finds it (IndexOfSpec: exactly the alphabet's characters). */
  predicate IsDigit(c: char)
  {
    IndexOf(c) != -1
  }

  /** Position of c among the punctuation digits (which start at digit 62), or -1. */
  function PunctuationIndex(c: char, k: nat): int
    decreases |Punctuation| - k, c
  {
    if k >= |Punctuation| then -1
    else if Punctuation[k] == c then 62 + k
    else PunctuationIndex(c, k + 1)
  }

  /** Reference digit value by character class, independent of the linear search. */
  function DigitOf(c: char): int
  {
    if '0' <= c <= '9' then c as int - '0' as int
    else if 'A' <= c <= 'Z' then c as int - 'A' as int + 10
    else if 'a' <= c <= 'z' then c as int - 'a' as int + 36
    else PunctuationIndex(c, 0)
  }

  /** Reference character of digit d by class, the inverse of DigitOf. */
  function DigitChar(d: int): char
    requires 0 <= d < 83
  {
    if d < 10 then ('0' as int + d) as char
    else if d < 36 then ('A' as int + d - 10) as char
    else if d < 62 then ('a' as int + d - 36) as char
    else Punctuation[d - 62]
  }

  lemma DigitsAt(m: int)
    requires 0 <= m < |Digits|
    ensures Digits[m] as int == '0' as int + m
  {}

  lemma UpperAt(m: int)
    requires 0 <= m < |Upper|
    ensures Upper[m] as int == 'A' as int + m
  {}

  lemma LowerAt(m: int)
    requires 0 <= m < |Lower|
    ensures Lower[m] as int == 'a' as int + m
  {}

  lemma PunctuationNotAlphanumeric(k: int)
    requires 0 <= k < |Punctuation|
    ensures var c := Punctuation[k]; !('0' <= c <= '9') && !('A' <= c <= 'Z') && !('a' <= c <= 'z')
  {}

  lemma {:induction false} PunctuationIndexFrom(k: int, j: nat)
    requires j <= k < |Punctuation|
    ensures PunctuationIndex(Punctuation[k], j) == 62 + k
    decreases k - j
  {
    if j < k {
      assert Punctuation[j] != Punctuation[k];
      PunctuationIndexFrom(k, j + 1);
    }
  }

  lemma {:induction false} PunctuationIndexRange(c: char, j: nat)
    ensures var d := PunctuationIndex(c, j);
      d == -1 || (62 + j <= d < 83 && Punctuation[d - 62] == c)
    decreases |Punctuation| - j
  {
    if j < |Punctuation| && Punctuation[j] != c {
      PunctuationIndexRange(c, j + 1);
    }
  }

  /** The alphabet holds, in order, the ten decimal digits, the upper-case letters, the
      lower-case letters and the punctuation digits. */
  lemma AlphabetIsDigitChar(d: int)
    requires 0 <= d < |Alphabet|
    ensures Alphabet[d] == DigitChar(d)
  {
    if d < 10 {
      assert Alphabet[d] == Digits[d];
      DigitsAt(d);
    } else if d < 36 {
      assert Alphabet[d] == Upper[d - 10];
      UpperAt(d - 10);
    } else if d < 62 {
      assert Alphabet[d] == Lower[d - 36];
      LowerAt(d - 36);
    } else {
      assert Alphabet[d] == Punctuation[d - 62];
    }
  }

  /** The reference digit value inverts the reference digit character. */
  lemma DigitOfDigitChar(d: int)
    requires 0 <= d < 83
    ensures DigitOf(DigitChar(d)) == d
  {
    if d >= 62 {
      PunctuationNotAlphanumeric(d - 62);
      PunctuationIndexFrom(d - 62, 0);
    }
  }

  /** The reference digit value of the i-th alphabet character is i. */
  lemma DigitOfAlphabet(i: int)
    requires 0 <= i < |Alphabet|
    ensures DigitOf(Alphabet[i]) == i
  {
    AlphabetIsDigitChar(i);
    DigitOfDigitChar(i);
  }

  /** A character with a reference digit value sits at that position of the alphabet. */
  lemma AlphabetAtDigitOf(c: char)
    ensures var d := DigitOf(c); d == -1 || (0 <= d < |Alphabet| && Alphabet[d] == c)
  {
    var d := DigitOf(c);
    if !('0' <= c <= '9') && !('A' <= c <= 'Z') && !('a' <= c <= 'z') {
      PunctuationIndexRange(c, 0);
    }
    if d != -1 {
      assert DigitChar(d) == c;
      AlphabetIsDigitChar(d);
    }
  }

  /** The 83 alphabet characters are pairwise distinct. */
  lemma AlphabetDistinct(i: int, j: int)
    requires 0 <= i < |Alphabet| && 0 <= j < |Alphabet| && i != j
    ensures Alphabet[i] != Alphabet[j]
  {
    DigitOfAlphabet(i);
    DigitOfAlphabet(j);
  }

  lemma {:induction false} FindFromMiss(c: char, j: nat)
    requires forall k :: j <= k < |Alphabet| ==> Alphabet[k] != c
    ensures FindFrom(c, j) == -1
    decreases |Alphabet| - j
  {
    if j < |Alphabet| {
      FindFromMiss(c, j + 1);
    }
  }

  lemma {:induction false} FindFromHit(c: char, j: nat, d: int)
    requires j <= d < |Alphabet| && Alphabet[d] == c
    requires forall k :: j <= k < d ==> Alphabet[k] != c
    ensures FindFrom(c, j) == d
    decreases d - j
  {
    if j < d {
      FindFromHit(c, j + 1, d);
    }
  }

  /** The linear lookup agrees with the reference digit value on every character. */
  lemma IndexOfIsDigitOf(c: char)
    ensures IndexOf(c) == DigitOf(c)
  {
    var d := DigitOf(c);
    AlphabetAtDigitOf(c);
    if d == -1 {
      forall k | 0 <= k < |Alphabet|
        ensures Alphabet[k] != c
      {
        DigitOfAlphabet(k);
      }
      FindFromMiss(c, 0);
    } else {
      forall k | 0 <= k < d
        ensures Alphabet[k] != c
      {
        AlphabetDistinct(k, d);
      }
      FindFromHit(c, 0, d);
    }
  }

  /** The lookup finds every alphabet character at its own position and rejects everything else. */
  lemma IndexOfSpec(c: char)
    ensures IsDigit(c) <==> c in Alphabet
    ensures IndexOf(c) != -1 ==> 0 <= IndexOf(c) < |Alphabet| && Alphabet[IndexOf(c)] == c
  {
    IndexOfIsDigitOf(c);
    AlphabetAtDigitOf(c);
    if c in Alphabet {
      var i :| 0 <= i < |Alphabet| && Alphabet[i] == c;
      DigitOfAlphabet(i);
    }
  }

  lemma IndexOfAlphabet(d: int)
    requires 0 <= d < |Alphabet|
    ensures IndexOf(Alphabet[d]) == d
  {
    IndexOfIsDigitOf(Alphabet[d]);
    DigitOfAlphabet(d);
  }

  // ---------------------------------------------------------------------------------------------
  // Encoding

  /** The `length` base-83 digit characters of `value`, most significant first. Only
      value % 83^length is represented: a wider value loses its top digits. Digit d is written
      as DigitChar(d), which is Alphabet[d] (AlphabetIsDigitChar). */
  function EncodeInt(value: nat, length: nat): (s: string)
    ensures |s| == length
  {
    if length == 0 then [] else EncodeInt(value / 83, length - 1) + [DigitChar(value % 83)]
  }

  /** Every character of an encoding is an alphabet character. */
  lemma EncodeIntInAlphabet(value: nat, length: nat, k: nat)
    requires k < length
    ensures EncodeInt(value, length)[k] in Alphabet
  {
    EncodeIntDigit(value, length, k);
  }

  /** Division of naturals by a product divides twice. */
  lemma DivDiv(v: nat, a: nat, b: nat)
    requires a > 0 && b > 0
    ensures v / a / b == v / (a * b)
  {
    var q, r := v / a, v % a;
    var q2, r2 := q / b, q % b;
    assert v == q * a + r;
    assert q == q2 * b + r2;
    assert v == q2 * (a * b) + (r2 * a + r) by {
      calc {
        v;
        q * a + r;
        (q2 * b + r2) * a + r;
        q2 * (a * b) + (r2 * a + r);
      }
    }
    assert r2 * a <= (b - 1) * a by {
      MulLeMono(r2, b - 1, a);
    }
    assert r2 * a + r < a * b;
    DivUnique(v, a * b, q2, r2 * a + r);
  }

  lemma MulLeMono(x: nat, y: nat, z: nat)
    requires x <= y
    ensures x * z <= y * z
  {}

  /** Euclidean division is determined by quotient and remainder. */
  lemma DivUnique(v: int, d: int, q: int, r: int)
    requires d > 0 && 0 <= r < d && v == q * d + r
    ensures v / d == q && v % d == r
  {
    var q', r' := v / d, v % d;
    assert (q' - q) * d == r - r';
    if q' > q {
      MulLeMono(1, q' - q, d);
      assert false;
    } else if q' < q {
      MulLeMono(1, q - q', d);
      assert false;
    }
  }

  /** Digit k of the encoding is (value / 83^(length-1-k)) % 83, the digit encode_int
      computes with its running divisor. */
  lemma {:induction false} EncodeIntDigit(value: nat, length: nat, k: nat)
    requires k < length
    ensures EncodeInt(value, length)[k] == Alphabet[(value / Pow83(length - 1 - k)) % 83]
  {
    var s := EncodeInt(value, length);
    assert s == EncodeInt(value / 83, length - 1) + [DigitChar(value % 83)];
    if k == length - 1 {
      assert Pow83(length - 1 - k) == 1;
      assert value / 1 == value;
      AlphabetIsDigitChar(value % 83);
    } else {
      var p := Pow83(length - 2 - k);
      assert s[k] == EncodeInt(value / 83, length - 1)[k];
      EncodeIntDigit(value / 83, length - 1, k);
      assert length - 1 - 1 - k == length - 2 - k;
      DivDiv(value, 83, p);
      assert Pow83(length - 1 - k) == 83 * p;
    }
  }

  /** encode_int (src/blurhash_ffi.c:129-139): writes the `length` digits of `value` at
      dest[pos..pos+length], leaves the rest of dest alone, and returns the next position. */
  method EncodeIntInto(value: int, length: int, dest: array<char>, pos: nat) returns (next: nat)
    requires 0 <= value < 0x8000_0000    // a non-negative C int
    requires 0 <= length <= 5            // beyond five digits the C divisor 83^(length-1) overflows
    requires pos + length <= dest.Length
    modifies dest
    ensures next == pos + length
    ensures dest[..] == old(dest[..pos]) + EncodeInt(value, length) + old(dest[pos + length..])
    ensures dest[..pos + length] == old(dest[..pos]) + EncodeInt(value, length)
  {
    var divisor := 1;
    var i := 0;
    while i < length - 1
      invariant 0 <= i <= if length == 0 then 0 else length - 1
      invariant divisor == Pow83(i)
    {
      divisor := divisor * 83;
      i := i + 1;
    }
    ghost var encoded := EncodeInt(value, length);
    ghost var before := dest[..];
    i := 0;
    next := pos;
    while i < length
      invariant 0 <= i <= length && next == pos + i
      invariant i < length ==> divisor == Pow83(length - 1 - i)
      invariant forall m :: 0 <= m < dest.Length && !(pos <= m < pos + i) ==> dest[m] == before[m]
      invariant forall m :: 0 <= m < i ==> dest[pos + m] == encoded[m]
    {
      var digit := (value / divisor) % 83;
      EncodeIntDigit(value, length, i);
      divisor := divisor / 83;
      dest[next] := Alphabet[digit];
      next := next + 1;
      i := i + 1;
    }
    assert dest[..] == before[..pos] + encoded + before[pos + length..];
    assert dest[..pos + length] == dest[..][..pos + length];
  }

  // ---------------------------------------------------------------------------------------------
  // Decoding

  /** The value decodeToInt reads from the characters s: the base-83 number they spell, most
      significant first, or the sentinel -1 when one of them is not an alphabet character. */
  function DecodeInt(s: string): (v: int)
    ensures v == -1 || 0 <= v < Pow83(|s|)
  {
    if |s| == 0 then 0
    else
      var prefix := DecodeInt(s[..|s| - 1]);
      var d := IndexOf(s[|s| - 1]);
      if prefix == -1 || d == -1 then -1
      else
        assert prefix * 83 <= (Pow83(|s| - 1) - 1) * 83 by { MulLeMono(prefix, Pow83(|s| - 1) - 1, 83); }
        assert (Pow83(|s| - 1) - 1) * 83 == Pow83(|s|) - 83;
        prefix * 83 + d
  }

  /** The sentinel comes back exactly when some character is not a digit character. */
  lemma {:induction false} DecodeIntSentinel(s: string)
    ensures DecodeInt(s) == -1 <==> exists k :: 0 <= k < |s| && !IsDigit(s[k])
  {
    if |s| > 0 {
      var p := s[..|s| - 1];
      DecodeIntSentinel(p);
      assert IsDigit(s[|s| - 1]) <==> IndexOf(s[|s| - 1]) != -1;
      if exists k :: 0 <= k < |p| && !IsDigit(p[k]) {
        var k :| 0 <= k < |p| && !IsDigit(p[k]);
        assert s[k] == p[k];
      }
      if exists k :: 0 <= k < |s| && !IsDigit(s[k]) {
        var k :| 0 <= k < |s| && !IsDigit(s[k]);
        if k < |s| - 1 {
          assert p[k] == s[k];
        }
      }
    }
  }

  /** Decoding the digits of any value representable in `length` digits gives it back. */
  lemma {:induction false} DecodeEncode(value: nat, length: nat)
    requires value < Pow83(length)
    ensures DecodeInt(EncodeInt(value, length)) == value
  {
    if length > 0 {
      var s := EncodeInt(value, length);
      assert s[..length - 1] == EncodeInt(value / 83, length - 1);
      DecodeEncode(value / 83, length - 1);
      AlphabetIsDigitChar(value % 83);
      IndexOfAlphabet(value % 83);
    }
  }

  /** Encoding the value of a string of digit characters at its own width gives it back. */
  lemma EncodeDecode(s: string)
    requires forall k :: 0 <= k < |s| ==> IsDigit(s[k])
    ensures DecodeInt(s) != -1 && EncodeInt(DecodeInt(s), |s|) == s
  {
    DecodeIntSentinel(s);
    EncodeDecodeValue(s);
  }

  /** Whatever decodes to a value is the encoding of that value at its own width. */
  lemma {:induction false} EncodeDecodeValue(s: string)
    requires DecodeInt(s) != -1
    ensures EncodeInt(DecodeInt(s), |s|) == s
  {
    if |s| > 0 {
      var p := s[..|s| - 1];
      var c := s[|s| - 1];
      var d := IndexOf(c);
      EncodeDecodeValue(p);
      FindFromFound(c, 0);
      AlphabetIsDigitChar(d);
      var v := DecodeInt(s);
      assert v == DecodeInt(p) * 83 + d;
      DivUnique(v, 83, DecodeInt(p), d);
      assert s == p + [c];
    }
  }

  /** A character the search finds sits where it is found. */
  lemma {:induction false} FindFromFound(c: char, j: nat)
    requires FindFrom(c, j) != -1
    ensures Alphabet[FindFrom(c, j)] == c
    decreases |Alphabet| - j
  {
    if Alphabet[j] != c {
      FindFromFound(c, j + 1);
    }
  }

  /** Every character of a string that decodes to a value is a digit character. */
  lemma {:induction false} DigitOfDecoded(s: string, k: int)
    requires DecodeInt(s) != -1 && 0 <= k < |s|
    ensures IsDigit(s[k])
  {
    if k < |s| - 1 {
      var p := s[..|s| - 1];
      DigitOfDecoded(p, k);
      assert p[k] == s[k];
    }
  }

  /** Every slice of a string that decodes to a value decodes to a value. */
  lemma {:induction false} DecodeIntSlice(s: string, lo: int, hi: int)
    requires DecodeInt(s) != -1
    requires 0 <= lo <= hi <= |s|
    ensures DecodeInt(s[lo..hi]) != -1
    decreases hi - lo
  {
    if lo < hi {
      DecodeIntSlice(s, lo, hi - 1);
      DigitOfDecoded(s, hi - 1);
      assert s[lo..hi][..hi - 1 - lo] == s[lo..hi - 1];
    }
  }

  /** A concatenation decodes to a value exactly when both of its parts do. */
  lemma {:induction false} DecodeIntAppend(a: string, b: string)
    ensures DecodeInt(a + b) != -1 <==> DecodeInt(a) != -1 && DecodeInt(b) != -1
  {
    if b == [] {
      assert a + b == a;
    } else {
      var p := b[..|b| - 1];
      DecodeIntAppend(a, p);
      assert (a + b)[..|a + b| - 1] == a + p;
      assert (a + b)[|a + b| - 1] == b[|b| - 1];
    }
  }

  /** decodeToInt (src/blurhash_ffi.c:151-165): the value of the characters s[start..end], or
      -1 as soon as one of them is not in the alphabet; an empty range reads as 0. */
  method DecodeToInt(s: string, start: int, end: int) returns (value: int)
    requires 0 <= start && end <= |s|
    ensures start < end ==> value == DecodeInt(s[start..end])
    ensures start >= end ==> value == 0
  {
    value := 0;
    var i := start;
    while i < end
      invariant start >= end ==> i == start && value == 0
      invariant start < end ==> start <= i <= end && value == DecodeInt(s[start..i]) && value != -1
    {
      var index := FindDigit(s[i]);
      assert s[start..i + 1][..i - start] == s[start..i];
      if index == -1 {
        DecodePrefixFails(s[start..end], i + 1 - start);
        assert s[start..end][..i + 1 - start] == s[start..i + 1];
        return -1;
      }
      value := value * 83 + index;
      i := i + 1;
    }
  }

  /** The inner loop of decodeToInt: the first position of c in the alphabet, or -1. */
  method FindDigit(c: char) returns (index: int)
    ensures index == IndexOf(c)
  {
    index := -1;
    var j := 0;
    while j < 83
      invariant 0 <= j <= 83
      invariant index == -1 ==> FindFrom(c, j) == IndexOf(c)
      invariant index != -1 ==> index == IndexOf(c)
    {
      if Alphabet[j] == c {
        index := j;
        break;
      }
      j := j + 1;
    }
  }

  /** A string with a prefix that fails to decode fails to decode. */
  lemma DecodePrefixFails(s: string, n: int)
    requires 0 <= n <= |s|
    ensures DecodeInt(s[..n]) == -1 ==> DecodeInt(s) == -1
  {
    if DecodeInt(s) != -1 {
      DecodeIntSlice(s, 0, n);
    }
  }
}
