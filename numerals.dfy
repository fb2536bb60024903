/** Hexadecimal and decimal numerals: Python's `int(x, 16)` and `int(x)` restricted to
    plain digit strings, and the digits of `%X` and `%d`. */
module Numerals {
  import opened Wrappers
  import opened Text

  /** Bases the generator reads and writes. */
  predicate ValidBase(base: nat)
  {
    base == 10 || base == 16
  }

  /** The value of one digit character in any base up to 16, letters in either case. */
  function DigitValue(c: char): Option<nat>
  {
    if '0' <= c <= '9' then Some(c as int - '0' as int)
    else if 'A' <= c <= 'F' then Some(c as int - 'A' as int + 10)
    else if 'a' <= c <= 'f' then Some(c as int - 'a' as int + 10)
    else None
  }

  /** The upper-case digit character for `d`, as `%X` and `%d` write it. */
  function DigitChar(d: nat): (c: char)
    requires d < 16
    ensures DigitValue(c) == Some(d)
    ensures '0' <= c <= '9' || 'A' <= c <= 'F'
  {
    if d < 10 then ('0' as int + d) as char else ('A' as int + d - 10) as char
  }

  /** A character that is a digit of `base`. */
  predicate IsDigitOf(c: char, base: nat)
  {
    DigitValue(c).Some? && DigitValue(c).value < base
  }

  /** The value of a digit string, or `None` if some character is not a digit of `base`;
      the empty string has value 0 here (`ParseNumeral` refuses it). */
  function DigitsValue(s: string, base: nat): Option<nat>
    decreases |s|
  {
    if |s| == 0 then Some(0)
    else
      var c := s[|s| - 1];
      match DigitsValue(s[..|s| - 1], base)
      case None => None
      case Some(v) => if IsDigitOf(c, base) then Some(v * base + DigitValue(c).value) else None
  }

  /** Python's `int(s, base)` on strings made only of digits: `None` for the empty string
      and for any other character. */
  function ParseNumeral(s: string, base: nat): Option<nat>
  {
    if |s| == 0 then None else DigitsValue(s, base)
  }

  function ParseHex(s: string): Option<nat>
  {
    ParseNumeral(s, 16)
  }

  function ParseDecimal(s: string): Option<nat>
  {
    ParseNumeral(s, 10)
  }

  /** The shortest upper-case digit string of `n` in `base` (`%X`, `%d`). */
  function FormatDigits(n: nat, base: nat): string
    requires ValidBase(base)
    decreases n
  {
    if n < base then [DigitChar(n)] else FormatDigits(n / base, base) + [DigitChar(n % base)]
  }

  function FormatHex(n: nat): string
  {
    FormatDigits(n, 16)
  }

  function FormatDecimal(n: nat): string
  {
    FormatDigits(n, 10)
  }

  /** `%0NX`: upper-case hexadecimal, zero-padded to at least `width` digits. */
  function PaddedHex(n: nat, width: nat): string
  {
    PadLeft(FormatHex(n), width, '0')
  }

  /** A digit `%X` writes. */
  predicate UpperHexDigit(c: char)
  {
    '0' <= c <= '9' || 'A' <= c <= 'F'
  }

  /** The zero-padded hexadecimal numeral reads back as `n` and is made of upper-case
      hexadecimal digits only, at least `width` of them. */
  lemma PaddedHexShape(n: nat, width: nat)
    ensures ParseHex(PaddedHex(n, width)) == Some(n)
    ensures |PaddedHex(n, width)| >= width
    ensures forall i :: 0 <= i < |PaddedHex(n, width)| ==> UpperHexDigit(PaddedHex(n, width)[i])
  {
    ZeroPaddedRoundTrip(n, width, 16);
    HexDigitsUpper(n);
    PadLeftChars(FormatHex(n), width, '0', UpperHexDigit);
  }

  /** `%X` writes upper-case hexadecimal digits only. */
  lemma HexDigitsUpper(n: nat)
    ensures forall i :: 0 <= i < |FormatHex(n)| ==> UpperHexDigit(FormatHex(n)[i])
  {
    FormatDigitsShape(n, 16);
  }

  /** The digit string is non-empty, made of upper-case digits of its base, and starts
      with a zero only when it is the numeral of zero. */
  lemma {:induction false} FormatDigitsShape(n: nat, base: nat)
    requires ValidBase(base)
    ensures |FormatDigits(n, base)| >= 1
    ensures forall i :: 0 <= i < |FormatDigits(n, base)| ==>
      IsDigitOf(FormatDigits(n, base)[i], base) && !('a' <= FormatDigits(n, base)[i] <= 'f')
    ensures FormatDigits(n, base)[0] == '0' <==> n == 0
    decreases n
  {
    if n >= base {
      FormatDigitsShape(n / base, base);
      assert FormatDigits(n, base)[0] == FormatDigits(n / base, base)[0];
    }
  }

  /** Reading a written numeral gives back the number. */
  lemma {:induction false} FormatParseRoundTrip(n: nat, base: nat)
    requires ValidBase(base)
    ensures ParseNumeral(FormatDigits(n, base), base) == Some(n)
    decreases n
  {
    var s := FormatDigits(n, base);
    if n < base {
      assert s == [DigitChar(n)] && s[..|s| - 1] == [];
      assert DigitsValue(s[..|s| - 1], base) == Some(0);
      assert IsDigitOf(s[|s| - 1], base) && DigitValue(s[|s| - 1]).value == n;
    } else {
      FormatParseRoundTrip(n / base, base);
      assert s[..|s| - 1] == FormatDigits(n / base, base);
    }
  }

  /** A leading zero does not change the value of a digit string. */
  lemma {:induction false} LeadingZero(s: string, base: nat)
    requires ValidBase(base)
    ensures DigitsValue(['0'] + s, base) == DigitsValue(s, base)
    decreases |s|
  {
    if |s| > 0 {
      var t := ['0'] + s;
      assert t[..|t| - 1] == ['0'] + s[..|s| - 1];
      LeadingZero(s[..|s| - 1], base);
    } else {
      assert (['0'] + s)[..0] == [];
    }
  }

  /** Any number of leading zeros leaves the value unchanged. */
  lemma {:induction false} LeadingZeros(k: nat, s: string, base: nat)
    requires ValidBase(base)
    ensures DigitsValue(Repeat('0', k) + s, base) == DigitsValue(s, base)
    decreases k
  {
    if k == 0 {
      assert Repeat('0', k) + s == s;
    } else {
      assert Repeat('0', k) + s == ['0'] + (Repeat('0', k - 1) + s);
      LeadingZero(Repeat('0', k - 1) + s, base);
      LeadingZeros(k - 1, s, base);
    }
  }

  /** The zero-padded numeral of `%0NX` / `%0Nd` also reads back as the number. */
  lemma ZeroPaddedRoundTrip(n: nat, width: nat, base: nat)
    requires ValidBase(base)
    ensures ParseNumeral(PadLeft(FormatDigits(n, base), width, '0'), base) == Some(n)
  {
    var s := FormatDigits(n, base);
    FormatParseRoundTrip(n, base);
    PadLeftFill(s, width, '0');
    LeadingZeros(|PadLeft(s, width, '0')| - |s|, s, base);
  }

  /** `base` to the power `k`. */
  function Pow(base: nat, k: nat): nat
  {
    if k == 0 then 1 else base * Pow(base, k - 1)
  }

  /** A number below `base^k` needs at most `k` digits, and at least `k` when it is at
      least `base^(k-1)`. */
  lemma {:induction false} FormatDigitsLength(n: nat, base: nat, k: nat)
    requires ValidBase(base) && k >= 1
    ensures n < Pow(base, k) ==> |FormatDigits(n, base)| <= k
    ensures Pow(base, k - 1) <= n ==> |FormatDigits(n, base)| >= k
    decreases k
  {
    if k > 1 {
      FormatDigitsLength(n / base, base, k - 1);
      if n < base {
        PowAtLeastBase(base, k - 1);
      }
    }
  }

  lemma {:induction false} PowAtLeastBase(base: nat, k: nat)
    requires ValidBase(base) && k >= 1
    ensures Pow(base, k) >= base
    decreases k
  {
    if k > 1 {
      PowAtLeastBase(base, k - 1);
    }
  }
}
