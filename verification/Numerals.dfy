/** Positional numerals: what the printer writes, and reading it back. */
module Numerals {
  import opened Bits

  function DigitChar(d: nat): char
    requires d < 16
  {
    "0123456789abcdef"[d]
  }

  /** The digits of a positive value, most significant first; none for zero. */
  function Digits(value: nat, base: nat): string
    requires 2 <= base <= 16
  {
    if value == 0 then "" else Digits(value / base, base) + [DigitChar(value % base)]
  }

  function Numeral(value: nat, base: nat): string
    requires 2 <= base <= 16
  {
    if value == 0 then "0" else Digits(value, base)
  }

  function SignedNumeral(value: int): string {
    if value < 0 then "-" + Numeral(-value, 10) else Numeral(value, 10)
  }

  /** The last `n` hexadecimal digits, with leading zeros. */
  function Padded(value: nat, n: nat): string {
    if n == 0 then "" else Padded(value / 16, n - 1) + [DigitChar(value % 16)]
  }

  function DigitValue(c: char): nat {
    if '0' <= c <= '9' then (c - '0') as nat else if 'a' <= c <= 'f' then (c - 'a') as nat + 10 else 0
  }

  function Parse(s: string, base: nat): nat {
    if s == "" then 0 else Parse(s[..|s| - 1], base) * base + DigitValue(s[|s| - 1])
  }

  function ParseSigned(s: string): int {
    if s != "" && s[0] == '-' then 0 - Parse(s[1..], 10) else Parse(s, 10)
  }

  lemma DigitValueOfChar(d: nat)
    requires d < 16
    ensures DigitValue(DigitChar(d)) == d && (DigitChar(d) == '0' <==> d == 0) && DigitChar(d) != '-'
  {}

  lemma {:induction false} ParseDigits(value: nat, base: nat)
    requires 2 <= base <= 16
    ensures Parse(Digits(value, base), base) == value
  {
    hide Parse, Digits;
    if value == 0 {
      ParseEmpty(base);
    } else {
      Shrinks(value, base);
      ParseDigits(value / base, base);
      LastDigit(value, base);
      QuotientRemainder(value, base);
    }
  }

  lemma Shrinks(value: nat, base: nat)
    requires value > 0 && base >= 2
    ensures 0 <= value / base < value
  {}

  lemma LastDigit(value: nat, base: nat)
    requires 2 <= base <= 16 && value > 0
    ensures Parse(Digits(value, base), base) == Parse(Digits(value / base, base), base) * base + value % base
  {
    hide Parse, DigitValue, DigitChar;
    DigitValueOfChar(value % base);
    ParseSnoc(Digits(value / base, base), DigitChar(value % base), base);
  }

  lemma ParseEmpty(base: nat)
    requires 2 <= base <= 16
    ensures Parse(Digits(0, base), base) == 0
  {}

  lemma ParseSnoc(s: string, c: char, base: nat)
    ensures Parse(s + [c], base) == Parse(s, base) * base + DigitValue(c)
  {}

  lemma QuotientRemainder(value: nat, base: nat)
    requires base > 0
    ensures value / base * base + value % base == value
  {}

  /** A numeral reads back as its value and carries no leading zero. */
  lemma NumeralRoundTrip(value: nat, base: nat)
    requires 2 <= base <= 16
    ensures Parse(Numeral(value, base), base) == value
    ensures value > 0 ==> Numeral(value, base)[0] != '0'
    ensures |Numeral(value, base)| > 0 && Numeral(value, base)[0] != '-'
  {
    if value > 0 {
      ParseDigits(value, base);
      FirstDigit(value, base);
    } else {
      assert "0"[..0] == "";
    }
  }

  lemma {:induction false} FirstDigit(value: nat, base: nat)
    requires 2 <= base <= 16 && value > 0
    ensures |Digits(value, base)| > 0 && Digits(value, base)[0] != '0' && Digits(value, base)[0] != '-'
  {
    hide DigitChar;
    Shrinks(value, base);
    if value / base > 0 {
      FirstDigit(value / base, base);
    } else {
      QuotientRemainder(value, base);
      DigitValueOfChar(value % base);
    }
  }

  lemma SignedRoundTrip(value: int)
    ensures ParseSigned(SignedNumeral(value)) == value
  {
    hide Numeral, Parse;
    if value < 0 {
      NumeralRoundTrip(-value, 10);
      assert SignedNumeral(value)[1..] == Numeral(-value, 10);
    } else {
      NumeralRoundTrip(value, 10);
    }
  }

  lemma {:induction false} PaddedRoundTrip(value: nat, n: nat)
    ensures |Padded(value, n)| == n && Parse(Padded(value, n), 16) == value % Power(16, n)
  {
    if n > 0 {
      PaddedRoundTrip(value / 16, n - 1);
      DigitValueOfChar(value % 16);
      var s := Padded(value, n);
      assert s[..n - 1] == Padded(value / 16, n - 1);
      ModSplit(value, Power(16, n - 1));
    }
  }

  function Power(b: nat, n: nat): (r: nat)
    requires b > 0
    ensures r > 0
  {
    if n == 0 then 1 else b * Power(b, n - 1)
  }

  lemma ModSplit(value: nat, m: nat)
    requires m > 0
    ensures value % (16 * m) == value / 16 % m * 16 + value % 16
  {
    var q, r := value / 16 / m, value / 16 % m;
    assert value == 16 * (m * q + r) + value % 16;
    assert value == (16 * m) * q + (16 * r + value % 16) by { assert (16 * m) * q == 16 * (m * q); }
    assert 16 * r + value % 16 < 16 * m;
    DivModUnique(value, 16 * m, q, 16 * r + value % 16);
  }

  /** A value below base^k has at most k digits. */
  lemma {:induction false} DigitsFit(value: nat, base: nat, k: nat)
    requires 2 <= base <= 16 && value < Power(base, k)
    ensures |Digits(value, base)| <= k
  {
    hide DigitChar;
    if value > 0 {
      BelowQuotient(value, base, Power(base, k - 1));
      Shrinks(value, base);
      DigitsFit(value / base, base, k - 1);
    }
  }

  /** Any other value has more. */
  lemma {:induction false} DigitsExceed(value: nat, base: nat, k: nat)
    requires 2 <= base <= 16 && value >= Power(base, k)
    ensures |Digits(value, base)| > k
    decreases k
  {
    hide DigitChar;
    if k > 0 {
      AboveQuotient(value, base, Power(base, k - 1));
      DigitsExceed(value / base, base, k - 1);
    }
  }

  lemma AboveQuotient(value: nat, base: nat, m: nat)
    requires base > 0 && value >= base * m
    ensures value / base >= m
  {
    QuotientRemainder(value, base);
    if value / base < m { MulAtMost(base, value / base + 1, m); }
  }

  lemma BelowQuotient(value: nat, base: nat, m: nat)
    requires base > 0 && value < base * m
    ensures value / base < m
  {}

  lemma {:induction false} PowerGrows(a: nat, b: nat, n: nat)
    requires 0 < a <= b
    ensures Power(a, n) <= Power(b, n)
  {
    if n > 0 {
      PowerGrows(a, b, n - 1);
      MulAtMost(a, Power(a, n - 1), Power(b, n - 1));
      MulAtMost(Power(b, n - 1), a, b);
    }
  }

  lemma {:induction false} PowerSplit(b: nat, m: nat, n: nat)
    requires b > 0
    ensures Power(b, m + n) == Power(b, m) * Power(b, n)
  {
    if m > 0 {
      PowerSplit(b, m - 1, n);
      Associate(b, Power(b, m - 1), Power(b, n));
    }
  }

  lemma Associate(x: nat, y: nat, z: nat)
    ensures (x * y) * z == x * (y * z)
  {}

  lemma BigPowers()
    ensures Power(7, 24) > 0x1_0000_0000_0000_0000 && Power(16, 16) == 0x1_0000_0000_0000_0000
  {
    assert Power(7, 6) == 117649;
    PowerSplit(7, 6, 6);
    PowerSplit(7, 12, 12);
    assert Power(16, 4) == 0x1_0000;
    PowerSplit(16, 4, 4);
    PowerSplit(16, 8, 8);
  }

  /** A 64-bit value fits the 24-character buffer in every base from 7 up, and the 16-character one in
      hexadecimal. */
  lemma BuffersSuffice(value: nat, base: nat)
    requires value < 0x1_0000_0000_0000_0000 && 7 <= base <= 16
    ensures |Digits(value, base)| <= 24
    ensures base == 16 ==> |Digits(value, base)| <= 16
  {
    BigPowers();
    PowerGrows(7, base, 24);
    DigitsFit(value, base, 24);
    if base == 16 {
      DigitsFit(value, 16, 16);
    }
  }

  /** The 24-character buffer takes the digits exactly of the values below base^24, and those of all
      64-bit values exactly in the bases from 7 up. */
  lemma BufferFitsIff(value: nat, base: nat)
    requires 2 <= base <= 16
    ensures |Digits(value, base)| <= 24 <==> value < Power(base, 24)
    ensures Power(base, 24) >= 0x1_0000_0000_0000_0000 <==> base >= 7
  {
    hide Digits, Power;
    if value < Power(base, 24) { DigitsFit(value, base, 24); } else { DigitsExceed(value, base, 24); }
    BigPowers();
    SixPower();
    if base >= 7 { PowerGrows(7, base, 24); } else { PowerGrows(base, 6, 24); }
  }

  lemma SixPower()
    ensures Power(6, 24) < 0x1_0000_0000_0000_0000
  {
    assert Power(6, 6) == 46656;
    PowerSplit(6, 6, 6);
    PowerSplit(6, 12, 12);
  }
}
