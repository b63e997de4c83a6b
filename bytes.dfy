/**
 * Kotlin bytes and the two text conversions the chunk header uses:
 * `Int.toString()` in base 10 and `String.toByteArray()` on ASCII text.
 */
module Bytes {

  /** A Kotlin `Byte`: a signed two's-complement 8-bit value. */
  newtype Byte = x: int | -128 <= x < 128

  /**
   * `b.toInt() and 0xFF`: the sign-extended value masked to its low eight
   * bits, i.e. the byte read as unsigned. The result is the one value in
   * 0..255 congruent to `b` modulo 256.
   */
  function Unsigned(b: Byte): (r: int)
    ensures 0 <= r < 256
    ensures (r - b as int) % 256 == 0
    ensures b >= 0 ==> r == b as int
  {
    if b < 0 then b as int + 256 else b as int
  }

  /** Every byte of `bs` read as unsigned, in order. */
  function UnsignedAll(bs: seq<Byte>): (r: seq<int>)
    ensures |r| == |bs|
    ensures forall i :: 0 <= i < |bs| ==> r[i] == Unsigned(bs[i])
  {
    seq(|bs|, i requires 0 <= i < |bs| => Unsigned(bs[i]))
  }

  predicate IsAscii(s: string) {
    forall i :: 0 <= i < |s| ==> s[i] as int < 128
  }

  /**
   * `String.toByteArray()` (UTF-8) on text made of ASCII characters only:
   * one byte per character, carrying the character's code.
   */
  function Ascii(s: string): (b: seq<Byte>)
    requires IsAscii(s)
    ensures |b| == |s|
    ensures forall i :: 0 <= i < |s| ==> b[i] as int == s[i] as int
  {
    seq(|s|, i requires 0 <= i < |s| => s[i] as int as Byte)
  }

  /** Encoding distributes over concatenation (string templates become byte concatenation). */
  lemma AsciiAppend(a: string, b: string)
    requires IsAscii(a) && IsAscii(b)
    ensures IsAscii(a + b)
    ensures Ascii(a + b) == Ascii(a) + Ascii(b)
  {
    assert forall i :: 0 <= i < |a + b| ==> (a + b)[i] == if i < |a| then a[i] else b[i - |a|];
  }

  /** Two ASCII strings with the same encoding are the same string. */
  lemma AsciiInjective(a: string, b: string)
    requires IsAscii(a) && IsAscii(b)
    requires Ascii(a) == Ascii(b)
    ensures a == b
  {
    assert |a| == |b|;
    forall i | 0 <= i < |a| ensures a[i] == b[i] {
      assert Ascii(a)[i] == Ascii(b)[i];
    }
  }

  predicate IsDigitChar(c: char) { '0' <= c <= '9' }

  /** The ASCII code of a decimal digit character, '0' = 48 to '9' = 57. */
  predicate IsDigit(b: Byte) { 48 <= b <= 57 }

  predicate AllDigits(d: seq<Byte>) {
    forall i :: 0 <= i < |d| ==> IsDigit(d[i])
  }

  function DigitChar(d: nat): (c: char)
    requires d < 10
    ensures IsDigitChar(c) && c as int - '0' as int == d
  {
    (48 + d) as char
  }

  /**
   * Kotlin's `Int.toString()` on a non-negative value: base 10, most
   * significant digit first, no leading zero except for 0 itself.
   */
  function Decimal(n: nat): (s: string)
    ensures |s| >= 1
    ensures forall i :: 0 <= i < |s| ==> IsDigitChar(s[i])
    ensures s[0] == '0' ==> n == 0
    decreases n
  {
    if n < 10 then [DigitChar(n)] else Decimal(n / 10) + [DigitChar(n % 10)]
  }

  lemma DecimalIsAscii(n: nat)
    ensures IsAscii(Decimal(n))
    ensures AllDigits(Ascii(Decimal(n)))
  {
  }

  /** The value of a run of decimal digit bytes, most significant first. */
  function ParseDigits(d: seq<Byte>): nat
    requires AllDigits(d)
  {
    if d == [] then 0 else ParseDigits(d[..|d| - 1]) * 10 + (d[|d| - 1] as int - 48)
  }

  /** Reading back the digits that `Int.toString()` wrote gives the number. */
  lemma {:induction false} DecimalRoundTrip(n: nat)
    ensures IsAscii(Decimal(n)) && AllDigits(Ascii(Decimal(n)))
    ensures ParseDigits(Ascii(Decimal(n))) == n
    decreases n
  {
    DecimalIsAscii(n);
    var d := Ascii(Decimal(n));
    if n >= 10 {
      DecimalIsAscii(n / 10);
      AsciiAppend(Decimal(n / 10), [DigitChar(n % 10)]);
      assert d[..|d| - 1] == Ascii(Decimal(n / 10));
      DecimalRoundTrip(n / 10);
    }
  }

  /** A digit run that does not start with 0 (or is the single digit 0) has a non-zero leading digit's weight. */
  lemma {:induction false} ParseDigitsPositive(d: seq<Byte>)
    requires |d| >= 1 && AllDigits(d) && d[0] != 48
    ensures ParseDigits(d) >= 1
    decreases |d|
  {
    if |d| > 1 {
      ParseDigitsPositive(d[..|d| - 1]);
    }
  }

  /**
   * Conversely, a canonical digit run (no leading zero unless it is "0")
   * is exactly what `Int.toString()` writes for its value.
   */
  lemma {:induction false} DecimalCanonical(d: seq<Byte>)
    requires |d| >= 1 && AllDigits(d)
    requires d[0] == 48 ==> |d| == 1
    ensures IsAscii(Decimal(ParseDigits(d)))
    ensures Ascii(Decimal(ParseDigits(d))) == d
    decreases |d|
  {
    var v := ParseDigits(d);
    DecimalIsAscii(v);
    if |d| == 1 {
      assert d[..0] == [] && ParseDigits(d[..0]) == 0;
      assert v == d[0] as int - 48;
      assert Ascii(Decimal(v))[0] == d[0];
    } else {
      var front := d[..|d| - 1];
      var last := d[|d| - 1] as int - 48;
      assert front[0] == d[0];
      ParseDigitsPositive(front);
      DecimalCanonical(front);
      assert v == ParseDigits(front) * 10 + last;
      assert v / 10 == ParseDigits(front) && v % 10 == last;
      DecimalIsAscii(v / 10);
      AsciiAppend(Decimal(v / 10), [DigitChar(last)]);
      assert Ascii([DigitChar(last)]) == [d[|d| - 1]];
      assert d == front + [d[|d| - 1]];
    }
  }
}
