/** Hexadecimal digits. */
module Hexadecimal {

  predicate IsXDigit(c: nat) {
    0x30 <= c <= 0x39 || 0x41 <= c <= 0x46 || 0x61 <= c <= 0x66
  }

  function DigitValue(d: char): (v: nat)
    requires IsXDigit(d as nat)
    ensures v < 16
  {
    if d <= '9' then d as nat - 0x30 else if d <= 'F' then d as nat - 0x41 + 10 else d as nat - 0x61 + 10
  }

  function HexDigit(d: nat): (c: char)
    requires d < 16
    ensures IsXDigit(c as nat) && DigitValue(c) == d
  {
    if d < 10 then (0x30 + d) as char else (0x41 + d - 10) as char
  }

  /** printf's %X. */
  function Hex(n: nat): (s: string)
    ensures s != [] && forall i :: 0 <= i < |s| ==> IsXDigit(s[i] as nat)
  {
    if n < 16 then [HexDigit(n)] else Hex(n / 16) + [HexDigit(n % 16)]
  }

  function HexValue(digits: string): nat
    requires forall i :: 0 <= i < |digits| ==> IsXDigit(digits[i] as nat)
  {
    if digits == [] then 0 else 16 * HexValue(digits[..|digits| - 1]) + DigitValue(digits[|digits| - 1])
  }

  lemma {:induction false} HexValueOf(n: nat)
    ensures HexValue(Hex(n)) == n
  {
    if n < 16 {
      assert [HexDigit(n)][..0] == [];
      assert HexValue([]) == 0;
    } else {
      HexValueOf(n / 16);
      var s := Hex(n);
      assert s[..|s| - 1] == Hex(n / 16);
    }
  }

  function Power16(k: nat): nat {
    if k == 0 then 1 else 16 * Power16(k - 1)
  }

  lemma {:induction false} HexLength(n: nat, k: nat)
    requires k > 0 && n < Power16(k)
    ensures |Hex(n)| <= k
  {
    if n >= 16 {
      HexLength(n / 16, k - 1);
    }
  }
}
