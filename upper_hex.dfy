/** Rust's `format!("{:X}", n)` for an unsigned integer: base 16, the digits
    `0`-`9` and `A`-`F`, most significant digit first, no leading zeros, and
    the single digit `0` for zero. */
module UpperHex {
  import opened Bits

  predicate IsUpperHexDigit(c: char)
  {
    '0' <= c <= '9' || 'A' <= c <= 'F'
  }

  /** The value of one upper-case hexadecimal digit. */
  function DigitValue(c: char): (d: nat)
    requires IsUpperHexDigit(c)
    ensures d < 16
  {
    if c <= '9' then c as int - '0' as int else c as int - 'A' as int + 10
  }

  /** The upper-case digit for a value below 16. */
  function DigitChar(d: nat): (c: char)
    requires d < 16
    ensures IsUpperHexDigit(c) && DigitValue(c) == d
    ensures c == '0' <==> d == 0
  {
    if d < 10 then ('0' as int + d) as char else ('A' as int + d - 10) as char
  }

  /** What `{:X}` can produce: a non-empty string of upper-case hexadecimal
      digits that starts with `0` only when it is exactly "0". */
  predicate IsCanonical(s: string)
  {
    |s| > 0
    && (forall i :: 0 <= i < |s| ==> IsUpperHexDigit(s[i]))
    && (s[0] == '0' ==> s == "0")
  }

  /** `format!("{:X}", n)`. */
  function FormatUpperHex(n: nat): (s: string)
    ensures IsCanonical(s)
    ensures s == "0" <==> n == 0
    decreases n
  {
    if n < 16 then [DigitChar(n)] else FormatUpperHex(n / 16) + [DigitChar(n % 16)]
  }

  /** Reads a string of upper-case hexadecimal digits back as a number. */
  function ParseUpperHex(s: string): (n: nat)
    requires forall i :: 0 <= i < |s| ==> IsUpperHexDigit(s[i])
  {
    if s == [] then 0 else 16 * ParseUpperHex(s[..|s| - 1]) + DigitValue(s[|s| - 1])
  }

  /** Reading the rendered digits back yields the number exactly. */
  lemma {:induction false} ParseFormat(n: nat)
    ensures ParseUpperHex(FormatUpperHex(n)) == n
    decreases n
  {
    var s := FormatUpperHex(n);
    if n >= 16 {
      assert s[..|s| - 1] == FormatUpperHex(n / 16);
      ParseFormat(n / 16);
    }
  }

  /** Different numbers are rendered as different strings. */
  lemma FormatInjective(a: nat, b: nat)
    ensures FormatUpperHex(a) == FormatUpperHex(b) ==> a == b
  {
    ParseFormat(a);
    ParseFormat(b);
  }

  /** Every canonical string is the rendering of the number it denotes, so the
      rendering is onto the canonical strings. */
  lemma {:induction false} FormatParse(s: string)
    requires IsCanonical(s)
    ensures FormatUpperHex(ParseUpperHex(s)) == s
    decreases |s|
  {
    var last := s[|s| - 1];
    assert DigitChar(DigitValue(last)) == last;
    if |s| > 1 {
      var p := s[..|s| - 1];
      assert p[0] == s[0];
      assert IsCanonical(p);
      FormatParse(p);
      var n := ParseUpperHex(s);
      assert ParseUpperHex(p) != 0;
      assert n / 16 == ParseUpperHex(p) && n % 16 == DigitValue(last);
      assert s == p + [last];
    }
  }

  /** A number below 16^k is rendered with at most k digits. */
  lemma {:induction false} FormatLength(n: nat, k: nat)
    requires k >= 1 && n < Pow2(4 * k)
    ensures |FormatUpperHex(n)| <= k
    decreases k
  {
    if n >= 16 {
      Pow2Add(4, 4 * (k - 1));
      assert Pow2(4) == 16;
      assert k > 1;
      FormatLength(n / 16, k - 1);
    }
  }

  /** The seed 0x9e3779f8 is rendered as "9E3779F8". */
  lemma HexRenderingExample()
    ensures FormatUpperHex(0x9e3779f8) == "9E3779F8"
  {
    assert FormatUpperHex(0x9) == "9";
    assert FormatUpperHex(0x9e) == "9E";
    assert FormatUpperHex(0x9e3) == "9E3";
    assert FormatUpperHex(0x9e37) == "9E37";
    assert FormatUpperHex(0x9e377) == "9E377";
    assert FormatUpperHex(0x9e3779) == "9E3779";
    assert FormatUpperHex(0x9e3779f) == "9E3779F";
  }
}
