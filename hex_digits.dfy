/** Lower-case hexadecimal digit strings, the text form produced by
    JavaScript's `BigInt.prototype.toString(16)`, and their big-endian value. */
module HexDigits {

  predicate IsHexDigit(c: char) {
    '0' <= c <= '9' || 'a' <= c <= 'f'
  }

  predicate IsLowerHex(s: string) {
    forall i :: 0 <= i < |s| ==> IsHexDigit(s[i])
  }

  /** A minimal digit string: at least one digit, and no leading `0`
      unless the string is exactly "0". */
  predicate IsCanonicalHex(s: string) {
    IsLowerHex(s) && |s| >= 1 && (|s| > 1 ==> s[0] != '0')
  }

  /** The value of a digit; a character that is not a lower-case digit
      reads as 0 (no such character ever reaches it in this model). */
  function DigitValue(c: char): (d: nat)
    ensures d < 16
    ensures IsHexDigit(c) ==> (d == 0 <==> c == '0')
  {
    if '0' <= c <= '9' then c as int - '0' as int
    else if 'a' <= c <= 'f' then c as int - 'a' as int + 10
    else 0
  }

  function DigitChar(d: nat): (c: char)
    requires d < 16
    ensures IsHexDigit(c) && DigitValue(c) == d
  {
    if d < 10 then ('0' as int + d) as char else ('a' as int + d - 10) as char
  }

  lemma DigitCharOfValue(c: char)
    requires IsHexDigit(c)
    ensures DigitChar(DigitValue(c)) == c
  {
  }

  /** Appending a digit `d` to the digits of `q` gives `q * 16 + d`; this
      is the number whose quotient by 16 is `q` and remainder is `d`. */
  lemma DivModDigit(q: nat, d: nat)
    requires d < 16
    ensures (q * 16 + d) / 16 == q && (q * 16 + d) % 16 == d
  {
  }

  /** `k` zero digits. */
  function ZeroDigits(k: nat): (z: string)
    ensures |z| == k
  {
    seq(k, _ => '0')
  }

  /** Zero digits in pairs in front of digit text keep it digit text of
      the same parity. */
  lemma ZeroPairsInFront(p: nat, s: string)
    requires IsLowerHex(s)
    ensures IsLowerHex(ZeroDigits(2 * p) + s)
    ensures |ZeroDigits(2 * p) + s| % 2 == |s| % 2
  {
  }

  /** Two more zero digits in front. */
  lemma ZeroDigitsCons(k: nat, s: string)
    ensures "00" + (ZeroDigits(k) + s) == ZeroDigits(k + 2) + s
  {
    assert ZeroDigits(k + 2) == "00" + ZeroDigits(k);
  }

  /** The number a digit string denotes, most significant digit first. */
  function HexValue(s: string): nat {
    if s == [] then 0 else HexValue(s[..|s| - 1]) * 16 + DigitValue(s[|s| - 1])
  }

  /** A leading zero digit does not change the value. */
  lemma {:induction false} LeadingZeroDigit(s: string)
    ensures HexValue("0" + s) == HexValue(s)
  {
    if s != [] {
      var p := s[..|s| - 1];
      assert ("0" + s)[..|s|] == "0" + p;
      LeadingZeroDigit(p);
    }
  }

  /** A digit string that starts with a non-zero digit denotes a positive number. */
  lemma {:induction false} LeadingDigitPositive(s: string)
    requires |s| >= 1 && IsHexDigit(s[0]) && s[0] != '0'
    ensures HexValue(s) >= 1
  {
    if |s| > 1 {
      LeadingDigitPositive(s[..|s| - 1]);
    }
  }
}
