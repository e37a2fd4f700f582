/**
 The shortcode alphabet: the `^[a-zA-Z0-9]+$` pattern the create handler
 applies to every code, and the generator that supplies a code when the client
 sends none (five random bytes, URL-safe base64, cut to five characters).
 */
module Shortcode {

  /** Length passed to the generator: it is only ever called with its default. */
  const GeneratedLength: nat := 5

  predicate IsAlnumChar(c: char) {
    ('a' <= c <= 'z') || ('A' <= c <= 'Z') || ('0' <= c <= '9')
  }

  /** The pattern `^[a-zA-Z0-9]+$` (no multiline flag, so `$` is the end of
      the input): at least one character, every character alphanumeric. */
  predicate MatchesPattern(code: string) {
    |code| > 0 && forall i :: 0 <= i < |code| ==> IsAlnumChar(code[i])
  }

  /** The regular-expression test as a left-to-right scan. */
  method TestPattern(code: string) returns (matched: bool)
    ensures matched <==> MatchesPattern(code)
    ensures matched ==> |code| > 0
    ensures !matched ==> |code| == 0 || exists i :: 0 <= i < |code| && !IsAlnumChar(code[i])
  {
    if |code| == 0 {
      return false;
    }
    var i := 0;
    while i < |code|
      invariant 0 <= i <= |code|
      invariant forall j :: 0 <= j < i ==> IsAlnumChar(code[j])
    {
      if !IsAlnumChar(code[i]) {
        return false;
      }
      i := i + 1;
    }
    return true;
  }

  // ---------------------------------------------------------------------------
  // Bits
  // ---------------------------------------------------------------------------

  type Byte = b: int | 0 <= b < 256

  function Pow2(n: nat): (p: nat)
    ensures p >= 1
  {
    if n == 0 then 1 else 2 * Pow2(n - 1)
  }

  lemma Pow2Facts()
    ensures Pow2(6) == 64
    ensures Pow2(8) == 256
  {
    assert Pow2(2) == 4;
    assert Pow2(4) == 16;
    assert Pow2(6) == 64;
  }

  /** The number a bit string denotes, most significant bit first. */
  function BitsValue(bits: seq<bool>): nat
  {
    if bits == [] then 0
    else 2 * BitsValue(bits[..|bits| - 1]) + (if bits[|bits| - 1] then 1 else 0)
  }

  lemma {:induction false} BitsValueBound(bits: seq<bool>)
    ensures BitsValue(bits) < Pow2(|bits|)
  {
    if bits != [] {
      BitsValueBound(bits[..|bits| - 1]);
    }
  }

  /** The `n`-bit big-endian representation of `v`: the inverse of `BitsValue`. */
  function ToBits(v: nat, n: nat): (bits: seq<bool>)
    requires v < Pow2(n)
    ensures |bits| == n
    ensures BitsValue(bits) == v
  {
    if n == 0 then []
    else
      var half := v / 2;
      assert half < Pow2(n - 1);
      var high := ToBits(half, n - 1);
      var bits := high + [v % 2 == 1];
      assert bits[..|bits| - 1] == high;
      assert BitsValue(bits) == 2 * BitsValue(high) + (if v % 2 == 1 then 1 else 0);
      bits
  }

  /** Dropping the last bit halves the value: the high `n - 1` bits of `v`. */
  lemma ToBitsHighBits(v: nat, n: nat)
    requires 0 < n && v < Pow2(n)
    ensures v / 2 < Pow2(n - 1)
    ensures ToBits(v, n)[..n - 1] == ToBits(v / 2, n - 1)
  {
  }

  /** The other direction of the round trip: a bit string is recovered from its value. */
  lemma {:induction false} ToBitsOfValue(bits: seq<bool>)
    ensures BitsValue(bits) < Pow2(|bits|)
    ensures ToBits(BitsValue(bits), |bits|) == bits
  {
    BitsValueBound(bits);
    if bits != [] {
      var prefix := bits[..|bits| - 1];
      ToBitsOfValue(prefix);
      assert bits == prefix + [bits[|bits| - 1]];
    }
  }

  /** The bit stream of a byte string, each byte most significant bit first. */
  function Bits(bytes: seq<Byte>): (bits: seq<bool>)
    ensures |bits| == 8 * |bytes|
  {
    if bytes == [] then []
    else
      Pow2Facts();
      ToBits(bytes[0], 8) + Bits(bytes[1..])
  }

  // ---------------------------------------------------------------------------
  // URL-safe base64 (section 5 of RFC 4648)
  // ---------------------------------------------------------------------------

  /** The character of a 6-bit value in the URL-safe base64 alphabet:
      `A`-`Z`, `a`-`z`, `0`-`9`, then `-` and `_`. */
  function Base64UrlChar(v: nat): (c: char)
    requires v < 64
    ensures IsAlnumChar(c) <==> v < 62
  {
    if v < 26 then ('A' as int + v) as char
    else if v < 52 then ('a' as int + (v - 26)) as char
    else if v < 62 then ('0' as int + (v - 52)) as char
    else if v == 62 then '-'
    else '_'
  }

  predicate IsBase64UrlChar(c: char) {
    IsAlnumChar(c) || c == '-' || c == '_'
  }

  /** The 6-bit value a URL-safe base64 character stands for. */
  function Base64UrlValue(c: char): (v: nat)
    requires IsBase64UrlChar(c)
    ensures v < 64
    ensures Base64UrlChar(v) == c
  {
    if 'A' <= c <= 'Z' then c as int - 'A' as int
    else if 'a' <= c <= 'z' then c as int - 'a' as int + 26
    else if '0' <= c <= '9' then c as int - '0' as int + 52
    else if c == '-' then 62
    else 63
  }

  lemma Base64UrlCharIsInvertible(v: nat)
    requires v < 64
    ensures IsBase64UrlChar(Base64UrlChar(v))
    ensures Base64UrlValue(Base64UrlChar(v)) == v
  {
  }

  /** Value of the 6-bit group starting at bit `6 * i` of `bits`. */
  function Sextet(bits: seq<bool>, i: nat): (v: nat)
    requires 6 * i + 6 <= |bits|
    ensures v < 64
  {
    BitsValueBound(bits[6 * i..6 * i + 6]);
    Pow2Facts();
    BitsValue(bits[6 * i..6 * i + 6])
  }

  /** The first `n` characters of the URL-safe base64 text of `bits`. */
  function EncodeSextets(bits: seq<bool>, n: nat): (text: string)
    requires 6 * n <= |bits|
    ensures |text| == n
  {
    seq(n, i requires 0 <= i < n => Base64UrlChar(Sextet(bits, i)))
  }

  /** Concatenated 6-bit groups a URL-safe base64 text stands for. */
  function DecodeSextets(text: string): (bits: seq<bool>)
    requires forall i :: 0 <= i < |text| ==> IsBase64UrlChar(text[i])
    ensures |bits| == 6 * |text|
  {
    if text == [] then []
    else
      Pow2Facts();
      ToBits(Base64UrlValue(text[0]), 6) + DecodeSextets(text[1..])
  }

  lemma EncodedAlphabet(bits: seq<bool>, n: nat)
    requires 6 * n <= |bits|
    ensures forall i :: 0 <= i < n ==> IsBase64UrlChar(EncodeSextets(bits, n)[i])
  {
    forall i | 0 <= i < n
      ensures IsBase64UrlChar(EncodeSextets(bits, n)[i])
    {
      Base64UrlCharIsInvertible(Sextet(bits, i));
    }
  }

  /** Dropping the first character drops the first six bits. */
  lemma EncodeSextetsTail(bits: seq<bool>, n: nat)
    requires 0 < n && 6 * n <= |bits|
    ensures EncodeSextets(bits, n)[1..] == EncodeSextets(bits[6..], n - 1)
  {
    var rest := bits[6..];
    forall i | 0 <= i < n - 1
      ensures EncodeSextets(bits, n)[1..][i] == EncodeSextets(rest, n - 1)[i]
    {
      assert rest[6 * i..6 * i + 6] == bits[6 * (i + 1)..6 * (i + 1) + 6];
    }
  }

  /** The first character of an encoding decodes to the first six bits. */
  lemma FirstSextetDecodes(bits: seq<bool>, n: nat)
    requires 0 < n && 6 * n <= |bits|
    ensures IsBase64UrlChar(EncodeSextets(bits, n)[0])
    ensures ToBits(Base64UrlValue(EncodeSextets(bits, n)[0]), 6) == bits[0..6]
  {
    Base64UrlCharIsInvertible(Sextet(bits, 0));
    Pow2Facts();
    ToBitsOfValue(bits[0..6]);
  }

  lemma SplitPrefix(bits: seq<bool>, n: nat)
    requires 0 < n && 6 * n <= |bits|
    ensures bits[..6 * n] == bits[0..6] + bits[6..][..6 * (n - 1)]
  {
  }

  lemma {:induction false} DecodeEncodeSextets(bits: seq<bool>, n: nat)
    requires 6 * n <= |bits|
    ensures forall i :: 0 <= i < n ==> IsBase64UrlChar(EncodeSextets(bits, n)[i])
    ensures DecodeSextets(EncodeSextets(bits, n)) == bits[..6 * n]
  {
    EncodedAlphabet(bits, n);
    if n > 0 {
      var text := EncodeSextets(bits, n);
      EncodeSextetsTail(bits, n);
      DecodeEncodeSextets(bits[6..], n - 1);
      FirstSextetDecodes(bits, n);
      SplitPrefix(bits, n);
      assert DecodeSextets(text) == ToBits(Base64UrlValue(text[0]), 6) + DecodeSextets(text[1..]);
    }
  }

  /** Model of `generateShortcode()`: the URL-safe base64 text of the random
      bytes, cut to as many characters as there are bytes. */
  function GenerateShortcode(random: seq<Byte>): (code: string)
  {
    EncodeSextets(Bits(random), |random|)
  }

  /** A generated code has the requested length, uses only the URL-safe base64
      alphabet, and carries exactly the first `6 * |random|` random bits. */
  lemma GeneratedCodeEncodesRandomBits(random: seq<Byte>)
    ensures |GenerateShortcode(random)| == |random|
    ensures forall i :: 0 <= i < |random| ==> IsBase64UrlChar(GenerateShortcode(random)[i])
    ensures DecodeSextets(GenerateShortcode(random)) == Bits(random)[..6 * |random|]
  {
    DecodeEncodeSextets(Bits(random), |random|);
  }

  /** None of the first `n` 6-bit groups of `bits` is 62 or 63. */
  predicate SextetsBelow62(bits: seq<bool>, n: nat)
    requires 6 * n <= |bits|
  {
    forall i :: 0 <= i < n ==> Sextet(bits, i) < 62
  }

  /** A generated code passes the pattern iff none of its 6-bit groups is 62 or 63. */
  lemma GeneratedCodePatternCondition(random: seq<Byte>)
    ensures MatchesPattern(GenerateShortcode(random)) <==> |random| > 0 && SextetsBelow62(Bits(random), |random|)
  {
    EncodedPatternCondition(Bits(random), |random|);
  }

  lemma EncodedPatternCondition(bits: seq<bool>, n: nat)
    requires 6 * n <= |bits|
    ensures MatchesPattern(EncodeSextets(bits, n)) <==> n > 0 && SextetsBelow62(bits, n)
  {
    var code := EncodeSextets(bits, n);
    if MatchesPattern(code) {
      forall i | 0 <= i < n
        ensures Sextet(bits, i) < 62
      {
        assert IsAlnumChar(code[i]);
      }
    } else if n > 0 {
      var i :| 0 <= i < |code| && !IsAlnumChar(code[i]);
      assert code[i] == Base64UrlChar(Sextet(bits, i));
    }
  }

  /** The first character of a generated code is the top six bits of the
      first random byte. */
  lemma GeneratedFirstChar(random: seq<Byte>)
    requires |random| > 0
    ensures GenerateShortcode(random)[0] == Base64UrlChar(random[0] / 4)
  {
    var bits := Bits(random);
    Pow2Facts();
    assert bits[0..6] == ToBits(random[0], 8)[..6];
    ToBitsHighBits(random[0], 8);
    ToBitsHighBits(random[0] / 2, 7);
    assert ToBits(random[0], 8)[..6] == ToBits(random[0], 8)[..7][..6];
    assert random[0] / 2 / 2 == random[0] / 4;
    assert Sextet(bits, 0) == random[0] / 4;
  }

  /** The generator as written can produce a code the pattern rejects: a first
      random byte of 0xF8 makes the first character `-`. */
  lemma GeneratedCodeMayFailPattern()
    ensures GenerateShortcode([248, 0, 0, 0, 0])[0] == '-'
    ensures !MatchesPattern(GenerateShortcode([248, 0, 0, 0, 0]))
  {
    GeneratedFirstChar([248, 0, 0, 0, 0]);
  }

  /** Corrected generator: every random byte picks a character from the 62
      alphanumeric characters, so a generated code always passes the pattern. */
  function AlnumShortcode(random: seq<Byte>): (code: string)
    ensures |code| == |random|
    ensures |random| > 0 ==> MatchesPattern(code)
    ensures forall i :: 0 <= i < |code| ==> IsAlnumChar(code[i])
  {
    seq(|random|, i requires 0 <= i < |random| => Base64UrlChar(random[i] % 62))
  }

}
