/** Decimal digits of strings, and hexadecimal digits of byte strings. */
module Digits {
  import opened Bytes

  predicate IsDigit(c: char) { '0' <= c <= '9' }
  predicate AllDigits(s: string) { forall i :: 0 <= i < |s| ==> IsDigit(s[i]) }

  function DigitValue(c: char): nat
    requires IsDigit(c)
  {
    c as int - '0' as int
  }

  function DecimalValue(s: string): nat
    requires AllDigits(s)
  {
    if s == "" then 0 else DecimalValue(s[..|s| - 1]) * 10 + DigitValue(s[|s| - 1])
  }

  predicate LowerHex(b: Byte) { 0x30 <= b <= 0x39 || 0x61 <= b <= 0x66 }
  predicate HexDigit(b: Byte) { LowerHex(b) || 0x41 <= b <= 0x46 }
  predicate AllHex(s: seq<Byte>) { forall i :: 0 <= i < |s| ==> HexDigit(s[i]) }

  function HexDigitValue(b: Byte): nat
    requires HexDigit(b)
  {
    if b <= 0x39 then b - 0x30 else if b <= 0x46 then b - 0x41 + 10 else b - 0x61 + 10
  }

  function HexValue(s: seq<Byte>): nat
    requires AllHex(s)
  {
    if s == [] then 0 else HexValue(s[..|s| - 1]) * 16 + HexDigitValue(s[|s| - 1])
  }

  // ---- The characters and their values

  lemma DecimalDigits(c: char)
    ensures IsDigit(c) <==> c in "0123456789"
    ensures forall i :: 0 <= i < 10 ==> IsDigit("0123456789"[i]) && DigitValue("0123456789"[i]) == i
  {
    var digits := "0123456789";
    assert forall i :: 0 <= i < 10 ==> digits[i] as int == '0' as int + i;
    if IsDigit(c) {
      assert digits[c as int - '0' as int] == c;
    }
  }

  /** A number is its digits, the last one counting once and each one before it ten times more. */
  lemma DecimalReads(s: string, c: char)
    requires AllDigits(s) && IsDigit(c)
    ensures AllDigits(s + [c]) && DecimalValue(s + [c]) == 10 * DecimalValue(s) + DigitValue(c)
    ensures DecimalValue("") == 0
  {
    assert (s + [c])[..|s|] == s;
  }

  lemma HexDigits(b: Byte)
    ensures HexDigit(b) <==> b as char in "0123456789abcdefABCDEF"
    ensures LowerHex(b) <==> b as char in "0123456789abcdef"
    ensures HexDigit(b) ==>
              var n := HexDigitValue(b);
              && n < 16 && (b as char == "0123456789abcdef"[n] || b as char == "0123456789ABCDEF"[n])
  {
    var lower, upper, all := "0123456789abcdef", "0123456789ABCDEF", "0123456789abcdefABCDEF";
    assert all == lower + "ABCDEF";
    assert forall i :: 0 <= i < 10 ==> lower[i] as int == 0x30 + i && upper[i] as int == 0x30 + i;
    assert forall i :: 10 <= i < 16 ==> lower[i] as int == 0x61 + (i - 10) && upper[i] as int == 0x41 + (i - 10);
    assert forall i :: 0 <= i < 6 ==> "ABCDEF"[i] as int == 0x41 + i;
    if LowerHex(b) {
      assert lower[if b <= 0x39 then b - 0x30 else b - 0x61 + 10] == b as char;
    } else if HexDigit(b) {
      assert "ABCDEF"[b - 0x41] == b as char;
    }
  }

  /** The same in hexadecimal. */
  lemma HexReads(s: seq<Byte>, b: Byte)
    requires AllHex(s) && HexDigit(b)
    ensures AllHex(s + [b]) && HexValue(s + [b]) == 16 * HexValue(s) + HexDigitValue(b)
    ensures HexValue([]) == 0
  {
    assert (s + [b])[..|s|] == s;
  }
}
