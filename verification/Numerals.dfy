/** Numbers as text: how they are printed, and how digit strings are read. */
module Numerals {
  import opened Wrappers

  const U128_BOUND: nat := 0x1_0000_0000_0000_0000_0000_0000_0000_0000

  /** `char::to_digit`. */
  function DigitVal(c: char, radix: nat): Option<nat> {
    var v := if '0' <= c <= '9' then (c as int) - ('0' as int)
             else if 'a' <= c <= 'f' then (c as int) - ('a' as int) + 10
             else if 'A' <= c <= 'F' then (c as int) - ('A' as int) + 10
             else radix;
    if v < radix then Some(v) else None
  }

  function DigitChar(d: nat): (c: char)
    requires d < 10
    ensures DigitVal(c, 10) == Some(d)
  {
    (('0' as int) + d) as char
  }

  predicate AllDigits(s: string, radix: nat) {
    forall i :: 0 <= i < |s| ==> DigitVal(s[i], radix).Some?
  }

  function ValueOf(s: string, radix: nat): nat
    requires AllDigits(s, radix)
  {
    if s == "" then 0 else ValueOf(s[..|s| - 1], radix) * radix + DigitVal(s[|s| - 1], radix).value
  }

  function ShowNat(n: nat): (s: string)
    ensures s != ""
  {
    if n < 10 then [DigitChar(n)] else ShowNat(n / 10) + [DigitChar(n % 10)]
  }

  function Show(n: int): string {
    if n < 0 then "-" + ShowNat(-n) else ShowNat(n)
  }

  /** A printed number is made of digits, reads back as itself, and has no leading zero
      unless it is zero, in which case that is all there is. */
  lemma {:induction false} ShowNatReads(n: nat)
    ensures AllDigits(ShowNat(n), 10) && ValueOf(ShowNat(n), 10) == n
    ensures ShowNat(n)[0] == '0' <==> n == 0
    ensures n == 0 ==> |ShowNat(n)| == 1
  {
    if n >= 10 {
      ShowNatReads(n / 10);
      assert ShowNat(n)[..|ShowNat(n)| - 1] == ShowNat(n / 10);
    } else {
      assert ShowNat(n)[..0] == "";
    }
  }

  /** Hex digits are written in lower or in upper case. */
  function HexChar(d: nat, upper: bool): (c: char)
    requires d < 16
    ensures DigitVal(c, 16) == Some(d)
  {
    if upper then "0123456789ABCDEF"[d] else "0123456789abcdef"[d]
  }

  function ShowHex(n: nat, upper: bool): (s: string)
    ensures s != ""
  {
    if n < 16 then [HexChar(n, upper)] else ShowHex(n / 16, upper) + [HexChar(n % 16, upper)]
  }

  /** The same for hex digits, in either case. */
  lemma {:induction false} ShowHexReads(n: nat, upper: bool)
    ensures AllDigits(ShowHex(n, upper), 16) && ValueOf(ShowHex(n, upper), 16) == n
  {
    hide HexChar, DigitVal;
    if n >= 16 {
      ShowHexReads(n / 16, upper);
      assert ShowHex(n, upper)[..|ShowHex(n, upper)| - 1] == ShowHex(n / 16, upper);
    } else {
      assert ShowHex(n, upper)[..0] == "";
    }
  }

  /** Leading zeros do not count. */
  lemma {:induction false} LeadingZeros(zeros: string, s: string, radix: nat)
    requires 2 <= radix && AllDigits(s, radix) && forall i :: 0 <= i < |zeros| ==> zeros[i] == '0'
    ensures AllDigits(zeros + s, radix) && ValueOf(zeros + s, radix) == ValueOf(s, radix)
  {
    var all := zeros + s;
    if all != "" {
      var last := all[|all| - 1];
      if s == "" {
        LeadingZeros(zeros[..|zeros| - 1], s, radix);
        assert all[..|all| - 1] == zeros[..|zeros| - 1] + s;
      } else {
        LeadingZeros(zeros, s[..|s| - 1], radix);
        assert all[..|all| - 1] == zeros + s[..|s| - 1];
      }
    }
  }

  /** `u128::from_str_radix`: a sign `+` may lead, at least one digit must follow, and the
      value must fit. */
  function ParseU128(s: string, radix: nat): Option<nat> {
    var digits := if s != "" && s[0] == '+' then s[1..] else s;
    if digits != "" && AllDigits(digits, radix) && ValueOf(digits, radix) < U128_BOUND
    then Some(ValueOf(digits, radix)) else None
  }
}
