/**
 Uppercase hexadecimal formatting of non-negative integers, as Rust's `{:02X}`
 format specifier does it: the digits of the number without leading zeros, padded
 on the left with `0` to a width of two. A parser is given as the inverse, so the
 formatter's output can be read back.
 */
module HexFormat {
  import opened Numeric

  const DIGITS: string := "0123456789ABCDEF"

  predicate IsUpperHexDigit(ch: char) {
    '0' <= ch <= '9' || 'A' <= ch <= 'F'
  }

  predicate IsUpperHex(s: string) {
    forall i :: 0 <= i < |s| ==> IsUpperHexDigit(s[i])
  }

  lemma UpperHexConcat(a: string, b: string)
    ensures IsUpperHex(a + b) <==> IsUpperHex(a) && IsUpperHex(b)
  {
    assert forall i :: 0 <= i < |a| ==> (a + b)[i] == a[i];
    assert forall i :: 0 <= i < |b| ==> (a + b)[|a| + i] == b[i];
  }

  function HexDigit(d: nat): (ch: char)
    requires d < 16
    ensures IsUpperHexDigit(ch)
    ensures d < 10 ==> ch as int == '0' as int + d
    ensures d >= 10 ==> ch as int == 'A' as int + (d - 10)
  {
    DIGITS[d]
  }

  /** The value of one hexadecimal digit; lower-case letters are not digits here. */
  function DigitValue(ch: char): (r: Option<nat>)
    ensures r.Some? <==> IsUpperHexDigit(ch)
    ensures r.Some? ==> r.value < 16
  {
    if '0' <= ch <= '9' then Some(ch as int - '0' as int)
    else if 'A' <= ch <= 'F' then Some(ch as int - 'A' as int + 10)
    else None
  }

  lemma DigitRoundTrip(d: nat)
    requires d < 16
    ensures DigitValue(HexDigit(d)) == Some(d)
  {
  }

  /** The uppercase hexadecimal digits of `n`, most significant first, without leading zeros. */
  function UpperHex(n: nat): (s: string)
    ensures 1 <= |s|
    ensures IsUpperHex(s)
    ensures |s| == 1 <==> n < 16
    ensures |s| <= 2 <==> n < 256
    decreases n
  {
    if n < 16 then [HexDigit(n)] else UpperHex(n / 16) + [HexDigit(n % 16)]
  }

  /** The number a string of hexadecimal digits denotes; `None` if a character is not a digit. */
  function ParseHex(s: string): (r: Option<nat>)
    ensures r.Some? <==> IsUpperHex(s)
    ensures r.Some? && |s| <= 1 ==> r.value < 16
    ensures r.Some? && |s| <= 2 ==> r.value < 256
    decreases |s|
  {
    if |s| == 0 then Some(0)
    else
      var init, last := s[..|s| - 1], s[|s| - 1];
      assert IsUpperHex(s) <==> IsUpperHex(init) && IsUpperHexDigit(last) by {
        assert forall i :: 0 <= i < |init| ==> init[i] == s[i];
      }
      var p, d := ParseHex(init), DigitValue(last);
      if p.Some? && d.Some? then
        assert |s| <= 2 ==> p.value < 16 by {
          if |s| == 1 { assert init == []; }
        }
        Some(p.value * 16 + d.value)
      else None
  }

  lemma {:induction false} UpperHexRoundTrip(n: nat)
    ensures ParseHex(UpperHex(n)) == Some(n)
    decreases n
  {
    if n < 16 {
      DigitRoundTrip(n);
      assert UpperHex(n)[..0] == [];
    } else {
      var s := UpperHex(n);
      assert s[..|s| - 1] == UpperHex(n / 16);
      assert s[|s| - 1] == HexDigit(n % 16);
      UpperHexRoundTrip(n / 16);
      DigitRoundTrip(n % 16);
    }
  }

  /** `format!("{:02X}", n)`: the digits of `n`, zero-padded on the left to at least two. */
  function Format02X(n: nat): (s: string)
    ensures IsUpperHex(s)
    ensures |s| == 2 <==> n < 256
    ensures |s| >= 2
    ensures ParseHex(s) == Some(n)
  {
    var digits := UpperHex(n);
    UpperHexRoundTrip(n);
    if |digits| < 2 then
      var s := "0" + digits;
      assert s[..1] == "0" && s[1] == digits[0];
      assert ParseHex(s[..1]) == Some(0) by { assert s[..1][..0] == []; }
      s
    else digits
  }
}
