/** String helpers the engine relies on: decimal numbers, ASCII case folding, joining. */
module Text {

  predicate IsDigit(c: char) {
    '0' <= c <= '9'
  }

  predicate AllDigits(s: string) {
    forall i :: 0 <= i < |s| ==> IsDigit(s[i])
  }

  function DigitChar(d: nat): (c: char)
    requires d < 10
    ensures IsDigit(c)
  {
    ('0' as int + d) as char
  }

  function DigitValue(c: char): (d: nat)
    requires IsDigit(c)
    ensures d < 10 && DigitChar(d) == c
  {
    c as int - '0' as int
  }

  /** `n.toString()` for a non-negative integer: its canonical decimal digits. */
  function DecimalString(n: nat): (s: string)
    ensures |s| >= 1 && AllDigits(s)
    ensures n > 0 ==> s[0] != '0'
    ensures |s| == 1 <==> n < 10
  {
    if n < 10 then [DigitChar(n)] else DecimalString(n / 10) + [DigitChar(n % 10)]
  }

  /** The value of a string of decimal digits (leading zeros allowed). */
  function ParseDecimal(s: string): nat
    requires AllDigits(s)
  {
    if s == [] then 0 else ParseDecimal(s[..|s| - 1]) * 10 + DigitValue(s[|s| - 1])
  }

  /** Rendering a number and parsing it back gives the number. */
  lemma {:induction false} ParseDecimalString(n: nat)
    ensures ParseDecimal(DecimalString(n)) == n
  {
    if n >= 10 {
      var s := DecimalString(n);
      assert s[..|s| - 1] == DecimalString(n / 10);
      ParseDecimalString(n / 10);
    }
  }

  /** Distinct numbers render as distinct strings. */
  lemma DecimalStringInjective(a: nat, b: nat)
    ensures DecimalString(a) == DecimalString(b) ==> a == b
  {
    ParseDecimalString(a);
    ParseDecimalString(b);
  }

  /** JavaScript's case-insensitive comparison of an ASCII letter: upper case maps to lower case. */
  function LowerAscii(c: char): (l: char)
    ensures !('A' <= l <= 'Z')
    ensures 'a' <= c <= 'z' ==> l == c
  {
    if 'A' <= c <= 'Z' then (c as int + 32) as char else c
  }

  predicate StartsWith(s: string, prefix: string) {
    |prefix| <= |s| && s[..|prefix|] == prefix
  }

  /** `Array.prototype.join`. */
  function Join(parts: seq<string>, sep: string): string {
    if parts == [] then ""
    else if |parts| == 1 then parts[0]
    else Join(parts[..|parts| - 1], sep) + sep + parts[|parts| - 1]
  }

  /** `part` occurs in `s` starting at position `i`. */
  predicate PartAt(part: string, s: string, i: int) {
    0 <= i <= |s| - |part| && s[i..i + |part|] == part
  }

  /** Every part occurs in the joined string; `i` is where. */
  lemma {:induction false} JoinContainsParts(parts: seq<string>, sep: string, k: nat) returns (i: int)
    requires k < |parts|
    ensures PartAt(parts[k], Join(parts, sep), i)
  {
    var j := Join(parts, sep);
    if |parts| == 1 {
      i := 0;
      assert j[0..|parts[0]|] == parts[k];
    } else if k == |parts| - 1 {
      i := |j| - |parts[k]|;
      assert j[i..i + |parts[k]|] == parts[k];
    } else {
      var init := parts[..|parts| - 1];
      i := JoinContainsParts(init, sep, k);
      assert j[i..i + |parts[k]|] == Join(init, sep)[i..i + |init[k]|];
    }
  }
}
