/** What formats print, by letter: the text of every conversion, and of formats put together. */
module PrintedForms {
  import opened Options
  import opened Bits
  import opened Numerals
  import opened Printer

  /** Digits of the base, without a leading zero, that read back as `n`. */
  ghost predicate WrittenAs(s: string, base: nat, n: nat)
    requires 2 <= base <= 16
  {
    && s != "" && (s[0] == '0' ==> |s| == 1)
    && (forall i :: 0 <= i < |s| ==> s[i] in "0123456789abcdef"[..base])
    && Parse(s, base) == n
  }

  lemma CharOf(d: nat, base: nat)
    requires d < base <= 16
    ensures DigitChar(d) in "0123456789abcdef"[..base]
  {
    assert "0123456789abcdef"[..base][d] == DigitChar(d);
  }

  lemma {:induction false} DigitsInBase(value: nat, base: nat)
    requires 2 <= base <= 16
    ensures forall i :: 0 <= i < |Digits(value, base)| ==> Digits(value, base)[i] in "0123456789abcdef"[..base]
  {
    if value > 0 {
      hide DigitChar;
      Shrinks(value, base);
      DigitsInBase(value / base, base);
      RemainderBelow(value, base);
      CharOf(value % base, base);
    }
  }

  lemma RemainderBelow(value: nat, base: nat)
    requires base > 0
    ensures value % base < base
  {}

  lemma {:induction false} PaddedInBase(value: nat, n: nat)
    ensures forall i :: 0 <= i < |Padded(value, n)| ==> Padded(value, n)[i] in "0123456789abcdef"[..16]
  {
    if n > 0 {
      hide DigitChar;
      PaddedInBase(value / 16, n - 1);
      CharOf(value % 16, 16);
    }
  }

  lemma NumeralWritten(value: nat, base: nat)
    requires 2 <= base <= 16
    ensures WrittenAs(Numeral(value, base), base, value)
  {
    hide Digits, Parse;
    NumeralRoundTrip(value, base);
    DigitsInBase(value, base);
    if value == 0 { assert "0" == [DigitChar(0)]; CharOf(0, base); }
  }

  // ---------------------------------------------------------------------------
  // One conversion
  // ---------------------------------------------------------------------------

  lemma SingleToken(long: bool, c: char, args: seq<Arg>)
    requires Accepts(c, args)
    ensures Matches([Conversion(long, c)], args)
    ensures Render([Conversion(long, c)], args) == ConversionMeaning(long, c, args)
  {
    hide NumberMeaning, PlainMeaning, TextOf;
    assert [Conversion(long, c)][1..] == [];
    assert ConversionMeaning(long, c, args) + "" == ConversionMeaning(long, c, args);
  }

  lemma OneConversion(c: char, args: seq<Arg>)
    requires c != 'l' && Accepts(c, args)
    ensures WellFormed("%" + [c], args) && Meaning("%" + [c], args) == ConversionMeaning(false, c, args)
  {
    hide NumberMeaning, PlainMeaning, TextOf;
    var f := "%" + [c];
    assert f[2..] == "";
    assert Tokens(f) == [Conversion(false, c)];
    SingleToken(false, c, args);
  }

  lemma LongConversion(c: char, args: seq<Arg>)
    requires Accepts(c, args)
    ensures WellFormed("%l" + [c], args) && Meaning("%l" + [c], args) == ConversionMeaning(true, c, args)
  {
    hide NumberMeaning, PlainMeaning, TextOf;
    var f := "%l" + [c];
    assert f[3..] == "";
    assert Tokens(f) == [Conversion(true, c)];
    SingleToken(true, c, args);
  }

  /** %u and %x write the low 32 bits, %lu and %lx all 64, without sign or leading zero. */
  lemma PrintsUnsigned(w: Word)
    ensures var a := [Number(w)];
            && WellFormed("%u", a) && WrittenAs(Meaning("%u", a), 10, w % 0x1_0000_0000)
            && WellFormed("%x", a) && WrittenAs(Meaning("%x", a), 16, w % 0x1_0000_0000)
            && WellFormed("%lu", a) && WrittenAs(Meaning("%lu", a), 10, w)
            && WellFormed("%lx", a) && WrittenAs(Meaning("%lx", a), 16, w)
  {
    hide WellFormed, Meaning, Numeral, WrittenAs;
    var a := [Number(w)];
    OneConversion('u', a);
    OneConversion('x', a);
    LongConversion('u', a);
    LongConversion('x', a);
    assert "%" + ['u'] == "%u" && "%" + ['x'] == "%x" && "%l" + ['u'] == "%lu" && "%l" + ['x'] == "%lx";
    NumeralWritten(w % 0x1_0000_0000, 10);
    NumeralWritten(w % 0x1_0000_0000, 16);
    NumeralWritten(w, 10);
    NumeralWritten(w, 16);
  }

  /** A minus sign for negative numbers, and then the magnitude. */
  ghost predicate SignedAs(s: string, z: int) {
    if z < 0 then s != "" && s[0] == '-' && WrittenAs(s[1..], 10, -z) else WrittenAs(s, 10, z)
  }

  lemma SignedWritten(z: int)
    ensures SignedAs(SignedNumeral(z), z)
  {
    hide WrittenAs, Numeral;
    NumeralWritten(if z < 0 then -z else z, 10);
    if z < 0 { assert SignedNumeral(z)[1..] == Numeral(-z, 10); }
  }

  /** %d writes every 32-bit number, and %ld every 64-bit number, from its two's complement; what lies
      above the 32 bits is ignored. */
  lemma PrintsSigned(z: int, w: Word)
    ensures -0x8000_0000 <= z < 0x8000_0000 && w % 0x1_0000_0000 == z % 0x1_0000_0000 ==>
              WellFormed("%d", [Number(w)]) && SignedAs(Meaning("%d", [Number(w)]), z)
    ensures -0x8000_0000_0000_0000 <= z < 0x8000_0000_0000_0000 && w == z % 0x1_0000_0000_0000_0000 ==>
              WellFormed("%ld", [Number(w)]) && SignedAs(Meaning("%ld", [Number(w)]), z)
  {
    hide WellFormed, Meaning, SignedNumeral, SignedAs;
    var a := [Number(w)];
    OneConversion('d', a);
    LongConversion('d', a);
    assert "%" + ['d'] == "%d" && "%l" + ['d'] == "%ld";
    SignedWritten(z);
  }

  /** %p writes all sixteen hexadecimal digits after 0x. */
  lemma PrintsPointer(w: Word)
    ensures var a := [Number(w)];
            && WellFormed("%p", a)
            && var s := Meaning("%p", a);
               && |s| == 18 && s[..2] == "0x" && Parse(s[2..], 16) == w
               && forall i :: 2 <= i < 18 ==> s[i] in "0123456789abcdef"
  {
    hide WellFormed, Meaning, Padded, Parse, Power;
    var a := [Number(w)];
    OneConversion('p', a);
    assert "%" + ['p'] == "%p";
    PaddedRoundTrip(w, 16);
    PaddedInBase(w, 16);
    BigPowers();
    assert "0123456789abcdef"[..16] == "0123456789abcdef";
    var s := Meaning("%p", a);
    assert s[2..] == Padded(w, 16);
    forall i | 2 <= i < 18 ensures s[i] in "0123456789abcdef" { assert s[i] == Padded(w, 16)[i - 2]; }
  }

  /** %c writes the character of the low eight bits, %s a string or the text for a null pointer. */
  lemma PrintsText(w: Word, t: string)
    ensures WellFormed("%c", [Number(w)]) && Meaning("%c", [Number(w)]) == [(w % 0x100) as char]
    ensures WellFormed("%s", [Text(Some(t))]) && Meaning("%s", [Text(Some(t))]) == t
    ensures WellFormed("%s", [Text(None)]) && Meaning("%s", [Text(None)]) == "(null)"
  {
    hide WellFormed, Meaning;
    OneConversion('c', [Number(w)]);
    OneConversion('s', [Text(Some(t))]);
    OneConversion('s', [Text(None)]);
    assert "%" + ['c'] == "%c" && "%" + ['s'] == "%s";
  }

  /** A doubled percent sign is one; unknown letters, with or without a modifier, are written as they
      stand; a lone percent sign at the end writes nothing. */
  lemma PrintsPlain(c: char)
    requires c !in {'c', 'd', 'u', 'x', 'p', 's', '%'}
    ensures WellFormed("%%", []) && Meaning("%%", []) == "%"
    ensures WellFormed("%l%", []) && Meaning("%l%", []) == "%"
    ensures c != 'l' ==> WellFormed("%" + [c], []) && Meaning("%" + [c], []) == "%" + [c]
    ensures WellFormed("%l" + [c], []) && Meaning("%l" + [c], []) == "%l" + [c]
    ensures WellFormed("%", []) && Meaning("%", []) == ""
  {
    hide WellFormed, Meaning;
    OneConversion('%', []);
    LongConversion('%', []);
    assert "%" + ['%'] == "%%" && "%l" + ['%'] == "%l%";
    if c != 'l' { OneConversion(c, []); }
    LongConversion(c, []);
    assert "%" + "l" + [c] == "%l" + [c] && "%" + "" + [c] == "%" + [c];
    LonePercent("%", []);
  }

  // ---------------------------------------------------------------------------
  // Formats put together
  // ---------------------------------------------------------------------------

  /** The format ends where a conversion or a plain character ends. */
  predicate Whole(format: string) {
    if format == "" then true
    else if format[0] != '%' then Whole(format[1..])
    else if |format| == 1 then false
    else if format[1] == 'l' then |format| > 2 && Whole(format[3..])
    else Whole(format[2..])
  }

  lemma {:induction false} TokensAppend(f: string, g: string)
    requires Whole(f)
    ensures !BareLong(f) && (BareLong(f + g) <==> BareLong(g))
    ensures !BareLong(g) ==> Tokens(f + g) == Tokens(f) + Tokens(g)
    decreases |f|
  {
    if f == "" {
      assert f + g == g;
    } else {
      var k := if f[0] != '%' then 1 else if f[1] == 'l' then 3 else 2;
      assert (f + g)[k..] == f[k..] + g;
      TokensAppend(f[k..], g);
    }
  }

  function Arguments(tokens: seq<Token>): nat {
    if tokens == [] then 0
    else (if TakesNumber(tokens[0]) || TakesText(tokens[0]) then 1 else 0) + Arguments(tokens[1..])
  }

  lemma {:induction false} RenderAppend(t: seq<Token>, u: seq<Token>, a: seq<Arg>, b: seq<Arg>)
    requires Matches(t, a) && |a| == Arguments(t) && Matches(u, b)
    ensures Matches(t + u, a + b) && Render(t + u, a + b) == Render(t, a) + Render(u, b)
    decreases |t|
  {
    hide NumberMeaning, PlainMeaning, TextOf;
    if t == [] {
      assert t + u == u && a + b == b;
    } else {
      assert (t + u)[1..] == t[1..] + u && (t + u)[0] == t[0];
      if TakesNumber(t[0]) || TakesText(t[0]) {
        assert (a + b)[1..] == a[1..] + b && (a + b)[0] == a[0];
        RenderAppend(t[1..], u, a[1..], b);
      } else {
        RenderAppend(t[1..], u, a, b);
      }
    }
  }

  /** A format made of two parts prints what the parts print, each with its own arguments in order. */
  lemma MeaningAppends(f: string, g: string, a: seq<Arg>, b: seq<Arg>)
    requires Whole(f) && WellFormed(f, a) && |a| == Arguments(Tokens(f)) && WellFormed(g, b)
    ensures WellFormed(f + g, a + b) && Meaning(f + g, a + b) == Meaning(f, a) + Meaning(g, b)
  {
    TokensAppend(f, g);
    RenderAppend(Tokens(f), Tokens(g), a, b);
  }

  /** Text without a percent sign is printed as it is. */
  lemma {:induction false} PlainText(f: string)
    requires '%' !in f
    ensures Whole(f) && WellFormed(f, []) && Meaning(f, []) == f && Arguments(Tokens(f)) == 0
    decreases |f|
  {
    if f != "" {
      PlainText(f[1..]);
      assert f == [f[0]] + f[1..];
    }
  }

  // ---------------------------------------------------------------------------
  // Some printed lines
  // ---------------------------------------------------------------------------

  lemma Two(base: nat, a: nat, b: nat)
    requires 2 <= base <= 16 && 0 < a < base && b < base
    ensures Digits(a * base + b, base) == [DigitChar(a), DigitChar(b)]
  {
    hide DigitChar;
    DivModUnique(a * base + b, base, a, b);
    DivModUnique(a, base, 0, a);
    assert Digits(a, base) == Digits(0, base) + [DigitChar(a)];
  }

  lemma SampleLines()
    ensures WellFormed("%d", [Number(0xFFFF_FFFF_FFFF_FFD6)]) && Meaning("%d", [Number(0xFFFF_FFFF_FFFF_FFD6)]) == "-42"
    ensures WellFormed("%x", [Number(0xDE)]) && Meaning("%x", [Number(0xDE)]) == "de"
    ensures WellFormed("100%%", []) && Meaning("100%%", []) == "100%"
  {
    hide WellFormed, Meaning;
    SampleNumbers();
    SamplePercent();
  }

  lemma SampleNumbers()
    ensures WellFormed("%d", [Number(0xFFFF_FFFF_FFFF_FFD6)]) && Meaning("%d", [Number(0xFFFF_FFFF_FFFF_FFD6)]) == "-42"
    ensures WellFormed("%x", [Number(0xDE)]) && Meaning("%x", [Number(0xDE)]) == "de"
  {
    hide WellFormed, Meaning, Digits;
    OneConversion('d', [Number(0xFFFF_FFFF_FFFF_FFD6)]);
    OneConversion('x', [Number(0xDE)]);
    assert "%" + ['d'] == "%d" && "%" + ['x'] == "%x";
    Two(10, 4, 2);
    Two(16, 13, 14);
  }

  lemma SamplePercent()
    ensures WellFormed("100%%", []) && Meaning("100%%", []) == "100%"
  {
    hide WellFormed, Meaning, BareLong, Tokens, Whole, Arguments;
    PlainText("100");
    PrintsPlain('q');
    FormatSafe("100");
    MeaningAppends("100", "%%", [], []);
    var none: seq<Arg> := [];
    assert none + none == none;
    assert "100" + "%%" == "100%%" && "100" + "%" == "100%";
  }

  lemma FormatSafe(f: string)
    requires WellFormed(f, [])
    ensures !BareLong(f)
  {}
}
