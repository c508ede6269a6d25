/**
 * Bytes and the integer encodings the archive format uses: big-endian
 * unsigned integers of a fixed width (Python's `struct` codes `>H` and `>I`)
 * and the decimal rendering of a natural number (Python's `f"{n}"`).
 */
module Bytes {

  type byte = b: int | 0 <= b < 256

  const U16_LIMIT: nat := 0x1_0000
  const U32_LIMIT: nat := 0x1_0000_0000

  predicate IsU16(x: int) { 0 <= x < U16_LIMIT }
  predicate IsU32(x: int) { 0 <= x < U32_LIMIT }

  /** 256 to the power n: the number of values an n-byte field can hold. */
  function Pow256(n: nat): (r: nat)
    ensures r > 0
  {
    if n == 0 then 1 else 256 * Pow256(n - 1)
  }

  /** The unsigned integer whose big-endian encoding is `s`. */
  function BeUint(s: seq<byte>): (r: nat)
    ensures r < Pow256(|s|)
  {
    if |s| == 0 then 0
    else
      var hi := BeUint(s[..|s| - 1]);
      assert hi <= Pow256(|s| - 1) - 1;
      hi * 256 + s[|s| - 1]
  }

  /** The n-byte big-endian encoding of `x`; the reference encoder for `BeUint`. */
  function BeBytes(x: nat, n: nat): (r: seq<byte>)
    requires x < Pow256(n)
    ensures |r| == n
  {
    if n == 0 then [] else BeBytes(x / 256, n - 1) + [x % 256]
  }

  /** Decoding an encoding gives back the number. */
  lemma {:induction false} BeUintOfBeBytes(x: nat, n: nat)
    requires x < Pow256(n)
    ensures BeUint(BeBytes(x, n)) == x
  {
    if n > 0 {
      var s := BeBytes(x, n);
      assert s[..n - 1] == BeBytes(x / 256, n - 1);
      BeUintOfBeBytes(x / 256, n - 1);
    }
  }

  /** Encoding a decoded field gives back the bytes: the encoding is a bijection. */
  lemma {:induction false} BeBytesOfBeUint(s: seq<byte>)
    ensures BeBytes(BeUint(s), |s|) == s
  {
    if |s| > 0 {
      var init := s[..|s| - 1];
      var hi := BeUint(init);
      var x := hi * 256 + s[|s| - 1];
      assert x / 256 == hi && x % 256 == s[|s| - 1];
      BeBytesOfBeUint(init);
      assert BeBytes(x, |s|) == init + [s[|s| - 1]];
      assert init + [s[|s| - 1]] == s;
    }
  }

  lemma U16Width(s: seq<byte>)
    requires |s| == 2
    ensures IsU16(BeUint(s)) && BeUint(s) == s[0] as int * 256 + s[1] as int
  {
  }

  lemma U32Width(s: seq<byte>)
    requires |s| == 4
    ensures IsU32(BeUint(s))
    ensures BeUint(s) == ((s[0] as int * 256 + s[1] as int) * 256 + s[2] as int) * 256 + s[3] as int
  {
    var s3, s2, s1 := s[..3], s[..2], s[..1];
    assert s3[..2] == s2 && s2[..1] == s1 && s1[..0] == [];
    assert BeUint(s2) == s[0] as int * 256 + s[1] as int;
    assert Pow256(4) == U32_LIMIT;
  }

  // ---------------------------------------------------------------------
  // Decimal rendering

  predicate IsDigit(c: char) { '0' <= c <= '9' }

  predicate IsDigits(s: string) { forall i :: 0 <= i < |s| ==> IsDigit(s[i]) }

  function DigitChar(d: nat): (c: char)
    requires d < 10
    ensures IsDigit(c)
  {
    ('0' as int + d) as char
  }

  /** The shortest decimal numeral for `n`: no sign, no leading zeros. */
  function Decimal(n: nat): (r: string)
    ensures |r| >= 1 && IsDigits(r)
    ensures r[0] == '0' ==> r == "0"
    decreases n
  {
    if n < 10 then [DigitChar(n)] else Decimal(n / 10) + [DigitChar(n % 10)]
  }

  /** The value of a numeral; the reference decoder for `Decimal`. */
  function DigitsValue(s: string): nat
    requires IsDigits(s)
  {
    if |s| == 0 then 0
    else DigitsValue(s[..|s| - 1]) * 10 + (s[|s| - 1] as int - '0' as int)
  }

  /** How many characters at the start of `s` are digits. */
  function LeadingDigits(s: string): (n: nat)
    ensures n <= |s|
  {
    if |s| == 0 || !IsDigit(s[0]) then 0 else 1 + LeadingDigits(s[1..])
  }

  /** A numeral followed by a non-digit: its digits are exactly the leading ones. */
  lemma {:induction false} LeadingDigitsOfNumeral(p: string, x: string)
    requires IsDigits(p) && |x| > 0 && !IsDigit(x[0])
    ensures LeadingDigits(p + x) == |p|
  {
    if |p| > 0 {
      assert (p + x)[1..] == p[1..] + x;
      LeadingDigitsOfNumeral(p[1..], x);
    } else {
      assert p + x == x;
    }
  }

  /** `Decimal` loses nothing: reading the numeral back gives `n`. */
  lemma {:induction false} DecimalRoundTrip(n: nat)
    ensures DigitsValue(Decimal(n)) == n
    decreases n
  {
    if n >= 10 {
      var s := Decimal(n);
      assert s[..|s| - 1] == Decimal(n / 10);
      DecimalRoundTrip(n / 10);
    }
  }

  /** Different numbers have different numerals. */
  lemma DecimalInjective(a: nat, b: nat)
    requires Decimal(a) == Decimal(b)
    ensures a == b
  {
    DecimalRoundTrip(a);
    DecimalRoundTrip(b);
  }
}
