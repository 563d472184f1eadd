/**
  Hexadecimal addresses as the script writes and reads them: `"0x%x" % n`
  formats, `int(t, 16)` parses (Python accepts the `0x` prefix in base 16).
  Python integers are unbounded, so addresses are `nat`.
 */
module Hex {
  import opened Chars

  function DigitValue(c: char): (v: nat)
    requires IsHexDigit(c)
    ensures v < 16
  {
    if IsDigit(c) then c as int - '0' as int else c as int - 'a' as int + 10
  }

  /** The lower-case digit `%x` writes for a value below sixteen. */
  function DigitChar(v: nat): (c: char)
    requires v < 16
    ensures IsHexDigit(c) && DigitValue(c) == v
  {
    if v < 10 then ('0' as int + v) as char else ('a' as int + v - 10) as char
  }

  /** The value of a string of lower-case hex digits, most significant first. */
  function HexValue(ds: string): nat
    requires All(ds, IsHexDigit)
  {
    if |ds| == 0 then 0 else HexValue(ds[..|ds| - 1]) * 16 + DigitValue(ds[|ds| - 1])
  }

  /** No leading zeros: the single digit `0`, or a first digit other than `0`. */
  predicate IsCanonicalHex(ds: string) {
    |ds| >= 1 && All(ds, IsHexDigit) && (ds[0] == '0' ==> |ds| == 1)
  }

  /** The digits `%x` writes for `n`. */
  function HexDigits(n: nat): (ds: string)
    ensures IsCanonicalHex(ds)
    ensures n == 0 <==> ds == "0"
  {
    if n < 16 then [DigitChar(n)] else HexDigits(n / 16) + [DigitChar(n % 16)]
  }

  /** `0x` followed by at least one lower-case hex digit: the text `(0x[0-9a-f]+)` captures. */
  predicate IsHexLiteral(t: string) {
    |t| >= 3 && t[0] == '0' && t[1] == 'x' && All(t[2..], IsHexDigit)
  }

  /** `0x` and one hex digit start at `i`. */
  predicate HexLiteralAt(s: string, i: nat) {
    i + 2 < |s| && s[i] == '0' && s[i + 1] == 'x' && IsHexDigit(s[i + 2])
  }

  /** The longest hex run after a `0x` at `i` is a literal `(0x[0-9a-f]+)` captures. */
  lemma HexRunIsLiteral(s: string, i: nat)
    requires HexLiteralAt(s, i)
    ensures IsHexLiteral(s[i..Span(s, i + 2, IsHexDigit)])
  {
    SpanRun(s, i + 2, IsHexDigit);
    var t := s[i..Span(s, i + 2, IsHexDigit)];
    assert forall k :: 2 <= k < |t| ==> t[k] == s[i + k];
  }

  /** `0x` at `i` followed by hex digits up to `j`, taken as a slice. */
  lemma LiteralSlice(s: string, i: nat, j: nat)
    requires i + 3 <= j <= |s| && HexLiteralAt(s, i)
    requires forall k :: i + 2 <= k < j ==> IsHexDigit(s[k])
    ensures IsHexLiteral(s[i..j])
  {
    var t := s[i..j];
    assert forall k :: 2 <= k < |t| ==> t[k] == s[i + k];
  }

  /** `"0x%x" % n` */
  function FormatHex(n: nat): (t: string)
    ensures IsHexLiteral(t) && IsCanonicalHex(t[2..])
  {
    "0x" + HexDigits(n)
  }

  /** `int(t, 16)` on a captured hex literal. */
  function ParseHexLiteral(t: string): nat
    requires IsHexLiteral(t)
  {
    HexValue(t[2..])
  }

  lemma {:induction false} HexDigitsValue(n: nat)
    ensures HexValue(HexDigits(n)) == n
  {
    if n >= 16 {
      var ds := HexDigits(n);
      assert ds[..|ds| - 1] == HexDigits(n / 16);
      HexDigitsValue(n / 16);
    }
  }

  /** Parsing what `"0x%x"` wrote gives the address back. */
  lemma ParseFormat(n: nat)
    ensures ParseHexLiteral(FormatHex(n)) == n
  {
    assert FormatHex(n)[2..] == HexDigits(n);
    HexDigitsValue(n);
  }

  lemma {:induction false} PositiveValue(ds: string)
    requires All(ds, IsHexDigit) && |ds| >= 1 && ds[0] != '0'
    ensures HexValue(ds) > 0
  {
    if |ds| > 1 {
      PositiveValue(ds[..|ds| - 1]);
    } else {
      assert DigitValue(ds[0]) > 0;
    }
  }

  lemma {:induction false} CanonicalHexDigits(ds: string)
    requires IsCanonicalHex(ds)
    ensures HexDigits(HexValue(ds)) == ds
  {
    if |ds| == 1 {
      assert HexValue(ds) == DigitValue(ds[0]);
      assert DigitChar(DigitValue(ds[0])) == ds[0];
    } else {
      var init := ds[..|ds| - 1];
      var last := ds[|ds| - 1];
      assert IsCanonicalHex(init);
      PositiveValue(init);
      CanonicalHexDigits(init);
      var v := HexValue(ds);
      assert v / 16 == HexValue(init) && v % 16 == DigitValue(last);
      assert DigitChar(DigitValue(last)) == last;
      assert ds == init + [last];
    }
  }

  /** A literal without leading zeros is exactly what `"0x%x"` writes for its value. */
  lemma FormatParse(t: string)
    requires IsHexLiteral(t) && IsCanonicalHex(t[2..])
    ensures FormatHex(ParseHexLiteral(t)) == t
  {
    CanonicalHexDigits(t[2..]);
    assert t == "0x" + t[2..];
  }
}
