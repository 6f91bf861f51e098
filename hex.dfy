/**
 * Bytes and the upper-case hexadecimal formatting used by Rust's `{:02X}`
 * format specifier: the shortest upper-case hex numeral of the value,
 * left-padded with '0' up to a width of two.
 */
module Hex {
  /** A Rust `u8`. */
  type Byte = b: int | 0 <= b < 256

  predicate IsUpperHexDigit(c: char) {
    '0' <= c <= '9' || 'A' <= c <= 'F'
  }

  predicate AllUpperHex(s: string) {
    forall i :: 0 <= i < |s| ==> IsUpperHexDigit(s[i])
  }

  /** The value of one upper-case hex digit. */
  function DigitValue(c: char): (d: nat)
    requires IsUpperHexDigit(c)
    ensures d < 16
  {
    if c <= '9' then c as int - '0' as int else c as int - 'A' as int + 10
  }

  /** The upper-case hex digit of a value below sixteen. */
  function HexDigit(d: nat): (c: char)
    requires d < 16
    ensures IsUpperHexDigit(c) && DigitValue(c) == d
  {
    if d < 10 then ('0' as int + d) as char else ('A' as int + d - 10) as char
  }

  /** Each upper-case digit is the digit of its own value, so DigitValue is injective. */
  lemma DigitRoundTrip(c: char)
    requires IsUpperHexDigit(c)
    ensures HexDigit(DigitValue(c)) == c
  {
  }

  /** The value of a numeral written in upper-case hex, most significant digit first. */
  function HexValue(s: string): (v: nat)
    requires AllUpperHex(s)
  {
    if s == [] then 0 else 16 * HexValue(s[..|s| - 1]) + DigitValue(s[|s| - 1])
  }

  /** Shortest upper-case hex numeral of n (what `{:X}` prints). */
  function UpperHex(n: nat): (s: string)
    ensures 1 <= |s| && AllUpperHex(s)
    ensures HexValue(s) == n
    ensures s[0] == '0' ==> s == "0"
    ensures n < 256 ==> |s| <= 2
    decreases n
  {
    if n < 16 then [HexDigit(n)]
    else
      var hi := UpperHex(n / 16);
      var s := hi + [HexDigit(n % 16)];
      assert s[..|s| - 1] == hi;
      s
  }

  /** `width` copies of `fill`, then s, when s is shorter than `width`; s itself otherwise. */
  function PadLeft(s: string, width: nat, fill: char): (r: string)
    ensures |r| == if |s| < width then width else |s|
    ensures r[|r| - |s|..] == s
    ensures forall i :: 0 <= i < |r| - |s| ==> r[i] == fill
  {
    if |s| < width then seq(width - |s|, _ => fill) + s else s
  }

  /** Leading zeros do not change the value of a hex numeral. */
  lemma {:induction false} LeadingZeros(z: string, s: string)
    requires forall i :: 0 <= i < |z| ==> z[i] == '0'
    requires AllUpperHex(s)
    ensures AllUpperHex(z + s) && HexValue(z + s) == HexValue(s)
    decreases |s|, |z|
  {
    var t := z + s;
    assert AllUpperHex(t) by {
      forall i | 0 <= i < |t| ensures IsUpperHexDigit(t[i]) {
        if i < |z| { assert t[i] == z[i]; } else { assert t[i] == s[i - |z|]; }
      }
    }
    if s == [] {
      assert t == z;
      if z != [] {
        LeadingZeros(z[..|z| - 1], []);
        assert t[..|t| - 1] + [] == z[..|z| - 1];
      }
    } else {
      LeadingZeros(z, s[..|s| - 1]);
      assert t[..|t| - 1] == z + s[..|s| - 1];
    }
  }

  /**
   * `{:02X}` applied to n: for a byte, exactly two upper-case digits whose
   * hex value is the byte.
   */
  function Hex02(n: nat): (r: string)
    ensures n < 256 ==> |r| == 2 && AllUpperHex(r) && HexValue(r) == n
  {
    var u := UpperHex(n);
    var r := PadLeft(u, 2, '0');
    var z := r[..|r| - |u|];
    assert r == z + u;
    LeadingZeros(z, u);
    r
  }

  /** The value of a two-digit numeral is sixteen times its first digit plus its second. */
  lemma TwoDigits(s: string)
    requires |s| == 2 && AllUpperHex(s)
    ensures HexValue(s) == 16 * DigitValue(s[0]) + DigitValue(s[1])
  {
    var hi := s[..1];
    assert hi[..0] == [] && hi[0] == s[0];
    assert HexValue(hi) == DigitValue(s[0]);
    assert HexValue(s) == 16 * HexValue(hi) + DigitValue(s[1]);
  }

  /** A quotient and remainder by sixteen determine each other's pair uniquely. */
  lemma SplitBySixteen(hi1: nat, lo1: nat, hi2: nat, lo2: nat)
    requires lo1 < 16 && lo2 < 16 && 16 * hi1 + lo1 == 16 * hi2 + lo2
    ensures hi1 == hi2 && lo1 == lo2
  {
    var d := hi1 - hi2;
    assert 16 * d == lo2 - lo1;
    assert -16 < 16 * d < 16;
  }

  /** Every two-digit upper-case numeral is the `{:02X}` form of its value, which is a byte. */
  lemma Hex02Canonical(s: string)
    requires |s| == 2 && AllUpperHex(s)
    ensures HexValue(s) < 256 && Hex02(HexValue(s)) == s
  {
    var v := HexValue(s);
    TwoDigits(s);
    assert v <= 16 * 15 + 15;
    var r := Hex02(v);
    assert |r| == 2 && AllUpperHex(r) && HexValue(r) == v;
    TwoDigits(r);
    // both numerals split v into the same quotient and remainder by sixteen
    SplitBySixteen(DigitValue(r[0]), DigitValue(r[1]), DigitValue(s[0]), DigitValue(s[1]));
    DigitRoundTrip(r[0]); DigitRoundTrip(s[0]);
    DigitRoundTrip(r[1]); DigitRoundTrip(s[1]);
  }
}
