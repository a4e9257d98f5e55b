/** The string helpers of Go's standard library that the core relies on:
    strconv.Itoa and strconv.Atoi, hex.EncodeToString, strings.Trim with a
    quote cutset, strings.Split(s, sep)[0] and strings.HasPrefix, and the
    byte/string conversions. A Go string is a byte string: the model keeps one
    byte per character. */
module Text {
  import opened Base

  // ---------------------------------------------------------------- decimal

  predicate IsDigit(c: char) { '0' <= c <= '9' }

  predicate AllDigits(s: string) { forall i | 0 <= i < |s| :: IsDigit(s[i]) }

  function DigitChar(d: nat): (c: char)
    requires d < 10
    ensures IsDigit(c) && c as int - '0' as int == d
  {
    (d + '0' as int) as char
  }

  /** Decimal digits of n, most significant first, no leading zero. */
  function NatDigits(n: nat): (s: string)
    ensures |s| > 0 && AllDigits(s)
    ensures s[0] == '0' ==> n == 0
    decreases n
  {
    if n < 10 then [DigitChar(n)] else NatDigits(n / 10) + [DigitChar(n % 10)]
  }

  /** The value of a digit string read left to right. */
  function DigitsValue(s: string): nat
    requires AllDigits(s)
  {
    if s == [] then 0
    else DigitsValue(s[..|s| - 1]) * 10 + (s[|s| - 1] as int - '0' as int)
  }

  lemma {:induction false} DigitsValueOfNatDigits(n: nat)
    ensures DigitsValue(NatDigits(n)) == n
    decreases n
  {
    if n >= 10 {
      var s := NatDigits(n);
      assert s[..|s| - 1] == NatDigits(n / 10);
      DigitsValueOfNatDigits(n / 10);
    }
  }

  /** strconv.Itoa. */
  function Itoa(n: int): (s: string)
    ensures |s| > 0
    ensures n >= 0 <==> IsDigit(s[0])
  {
    if n < 0 then "-" + NatDigits(-n) else NatDigits(n)
  }

  const MinInt64: int := -0x8000_0000_0000_0000
  const MaxInt64: int := 0x7fff_ffff_ffff_ffff

  /** strconv.Atoi on a 64-bit platform: an optional sign, then one or more
      decimal digits and nothing else; a value outside int64 is a range
      error. */
  function Atoi(s: string): (r: Result<int>)
    ensures r.Ok? ==> MinInt64 <= r.value <= MaxInt64
    ensures r.Ok? ==> |s| > 0 && (IsDigit(s[0]) || s[0] == '-' || s[0] == '+')
  {
    var neg := |s| > 0 && s[0] == '-';
    var digits := if |s| > 0 && (s[0] == '-' || s[0] == '+') then s[1..] else s;
    if digits == [] || !AllDigits(digits) then Err(Syntax(s))
    else
      var v: int := if neg then 0 - DigitsValue(digits) else DigitsValue(digits);
      if v < MinInt64 || v > MaxInt64 then Err(OutOfRange(s)) else Ok(v)
  }

  /** The digits of a non-negative int64 read back as it. */
  lemma AtoiNatDigits(n: nat)
    requires n <= MaxInt64
    ensures Atoi(NatDigits(n)) == Ok(n)
  {
    var s := NatDigits(n);
    assert IsDigit(s[0]);
    DigitsValueOfNatDigits(n);
  }

  /** A minus sign and the digits of -n read back as a negative n. */
  lemma AtoiNegDigits(n: int)
    requires MinInt64 <= n < 0
    ensures Atoi("-" + NatDigits(-n)) == Ok(n)
  {
    var s := "-" + NatDigits(-n);
    assert s[0] == '-' && s[1..] == NatDigits(-n);
    DigitsValueOfNatDigits(-n);
  }

  /** Itoa and Atoi are inverse on every int64. */
  lemma AtoiItoa(n: int)
    requires MinInt64 <= n <= MaxInt64
    ensures Atoi(Itoa(n)) == Ok(n)
  {
    if n < 0 {
      AtoiNegDigits(n);
    } else {
      AtoiNatDigits(n);
    }
  }

  // -------------------------------------------------------------------- hex

  const HexAlphabet: string := "0123456789abcdef"

  /** hex.EncodeToString: two lower-case digits per byte, high nibble first. */
  function Hex(b: seq<byte>): (s: string)
    ensures |s| == 2 * |b|
    ensures forall i | 0 <= i < |s| :: IsHexDigit(s[i])
  {
    if b == [] then ""
    else [HexAlphabet[b[0] / 16], HexAlphabet[b[0] % 16]] + Hex(b[1..])
  }

  predicate IsHexDigit(c: char) { '0' <= c <= '9' || 'a' <= c <= 'f' }

  function NibbleValue(c: char): nat {
    if '0' <= c <= '9' then c as int - '0' as int
    else if 'a' <= c <= 'f' then c as int - 'a' as int + 10
    else 0
  }

  /** hex.DecodeString on lower-case input of even length. */
  function Unhex(s: string): seq<byte>
    requires |s| % 2 == 0
    requires forall i | 0 <= i < |s| :: IsHexDigit(s[i])
  {
    if s == [] then []
    else [NibbleValue(s[0]) * 16 + NibbleValue(s[1])] + Unhex(s[2..])
  }

  lemma NibbleOfAlphabet(d: nat)
    requires d < 16
    ensures IsHexDigit(HexAlphabet[d]) && NibbleValue(HexAlphabet[d]) == d
  {
  }

  /** Unhex takes two digits per byte from the front. */
  lemma UnhexCons(hi: nat, lo: nat, rest: string)
    requires hi < 16 && lo < 16
    requires |rest| % 2 == 0 && forall i | 0 <= i < |rest| :: IsHexDigit(rest[i])
    ensures var s := [HexAlphabet[hi], HexAlphabet[lo]] + rest;
      |s| % 2 == 0 && (forall i | 0 <= i < |s| :: IsHexDigit(s[i]))
      && Unhex(s) == [hi * 16 + lo] + Unhex(rest)
  {
    NibbleOfAlphabet(hi);
    NibbleOfAlphabet(lo);
    var s := [HexAlphabet[hi], HexAlphabet[lo]] + rest;
    assert s[2..] == rest;
  }

  /** Hex output decodes back to the bytes it came from. */
  lemma {:induction false} UnhexHex(b: seq<byte>)
    ensures Unhex(Hex(b)) == b
  {
    if b != [] {
      var hi, lo := b[0] / 16, b[0] % 16;
      UnhexHex(b[1..]);
      UnhexCons(hi, lo, Hex(b[1..]));
      assert Hex(b) == [HexAlphabet[hi], HexAlphabet[lo]] + Hex(b[1..]);
      assert b == [hi * 16 + lo] + b[1..];
    }
  }

  // ------------------------------------------------------- strings.Trim "\""

  function LeadingQuotes(s: string): (n: nat)
    ensures n <= |s|
    ensures forall k | 0 <= k < n :: s[k] == '"'
    ensures n < |s| ==> s[n] != '"'
  {
    if |s| > 0 && s[0] == '"' then 1 + LeadingQuotes(s[1..]) else 0
  }

  function TrailingQuotes(s: string): (n: nat)
    ensures n <= |s|
    ensures forall k | |s| - n <= k < |s| :: s[k] == '"'
    ensures n < |s| ==> s[|s| - n - 1] != '"'
  {
    if |s| > 0 && s[|s| - 1] == '"' then 1 + TrailingQuotes(s[..|s| - 1]) else 0
  }

  /** strings.Trim(s, "\""): drop every leading and every trailing quote. */
  function TrimQuotes(s: string): (r: string)
    ensures r == [] || (r[0] != '"' && r[|r| - 1] != '"')
    ensures LeadingQuotes(s) + |r| <= |s|
    ensures r == s[LeadingQuotes(s)..LeadingQuotes(s) + |r|]
    ensures forall k | LeadingQuotes(s) + |r| <= k < |s| :: s[k] == '"'
  {
    var t := s[LeadingQuotes(s)..];
    t[..|t| - TrailingQuotes(t)]
  }

  // ------------------------------------------------------- split and prefix

  /** strings.Split(s, [sep])[0]: s up to its first sep, all of s if none. */
  function UpToFirst(s: string, sep: char): (r: string)
    ensures |r| <= |s| && r == s[..|r|]
    ensures sep !in r
    ensures |r| < |s| ==> s[|r|] == sep
  {
    if s == [] || s[0] == sep then [] else [s[0]] + UpToFirst(s[1..], sep)
  }

  /** Split stops at the first separator, wherever the text after it came
      from. */
  lemma {:induction false} UpToFirstConcat(a: string, sep: char, b: string)
    requires sep !in a
    ensures UpToFirst(a + [sep] + b, sep) == a
  {
    if a != [] {
      assert (a + [sep] + b)[1..] == a[1..] + [sep] + b;
      UpToFirstConcat(a[1..], sep, b);
    }
  }

  predicate HasPrefix(s: string, prefix: string) {
    |prefix| <= |s| && s[..|prefix|] == prefix
  }

  // ------------------------------------------------ bytes <-> Go byte string

  /** Go's string(b). */
  function BytesToString(b: seq<byte>): (s: string)
    ensures |s| == |b|
    ensures forall i | 0 <= i < |b| :: s[i] as int == b[i]
  {
    seq(|b|, i requires 0 <= i < |b| => b[i] as char)
  }

  /** Go's []byte(s) for a byte string; a character above 255 keeps its low
      eight bits. */
  function StringToBytes(s: string): (b: seq<byte>)
    ensures |b| == |s|
    ensures forall i | 0 <= i < |s| :: b[i] == Byte(s[i] as int)
  {
    seq(|s|, i requires 0 <= i < |s| => Byte(s[i] as int))
  }

  predicate IsByteString(s: string) { forall i | 0 <= i < |s| :: s[i] as int < 0x100 }

  lemma BytesStringRoundTrip(b: seq<byte>, s: string)
    ensures StringToBytes(BytesToString(b)) == b
    ensures IsByteString(s) ==> BytesToString(StringToBytes(s)) == s
  {
  }
}
