/** The kernel's formatted output: digit buffers, and the format interpreter. */
module Printer {
  import opened Options
  import opened Numerals
  import opened Bits

  /** One variadic argument: a machine word, or a C string pointer that may be null. */
  datatype Arg = Number(word: Word) | Text(text: Option<string>)

  // ---------------------------------------------------------------------------
  // What a format means
  // ---------------------------------------------------------------------------

  datatype Token = Literal(c: char) | Conversion(long: bool, c: char)

  /** Whether the scan meets a length modifier with nothing after it: see OverrunsIff. */
  predicate BareLong(format: string) {
    if format == "" then false
    else if format[0] != '%' then BareLong(format[1..])
    else if |format| == 1 then false
    else if format[1] == 'l' then |format| == 2 || BareLong(format[3..])
    else BareLong(format[2..])
  }

  /** The scan by position, over the characters and the terminator after the last: whether a position past
      the terminator is read.  Each turn reads one character, or a percent sign and what follows it. */
  predicate Overruns(format: string, i: nat)
    decreases |format| + 3 - i
  {
    if i >= |format| then i > |format|
    else if format[i] != '%' then Overruns(format, i + 1)
    else if i + 1 == |format| then false
    else if format[i + 1] == 'l' then Overruns(format, i + 3)
    else Overruns(format, i + 2)
  }

  /** The scan leaves the string exactly on a bare length modifier. */
  lemma {:induction false} OverrunsIff(format: string, i: nat)
    requires i <= |format|
    ensures Overruns(format, i) <==> BareLong(format[i..])
    decreases |format| - i
  {
    var rest := format[i..];
    if i < |format| {
      if format[i] != '%' {
        assert rest[1..] == format[i + 1..];
        OverrunsIff(format, i + 1);
      } else if i + 1 < |format| {
        var k := if format[i + 1] == 'l' then 3 else 2;
        if i + k <= |format| {
          assert rest[k..] == format[i + k..];
          OverrunsIff(format, i + k);
        }
      }
    }
  }

  /** One format that does, and one that ends in the same two characters and does not. */
  lemma LongOverruns()
    ensures Overruns("%l", 0) && !Overruns("%%l", 0)
  {
    assert Overruns("%l", 3);
    assert !Overruns("%%l", 3);
  }

  /** The format as tokens; a final lone percent sign is dropped. */
  function Tokens(format: string): seq<Token>
    requires !BareLong(format)
  {
    if format == "" then []
    else if format[0] != '%' then [Literal(format[0])] + Tokens(format[1..])
    else if |format| == 1 then []
    else if format[1] == 'l' then [Conversion(true, format[2])] + Tokens(format[3..])
    else [Conversion(false, format[1])] + Tokens(format[2..])
  }

  predicate TakesNumber(t: Token) {
    t.Conversion? && t.c in {'c', 'd', 'u', 'x', 'p'}
  }

  predicate TakesText(t: Token) {
    t.Conversion? && t.c == 's'
  }

  /** The arguments are those the tokens call for, in order, as C demands of the caller. */
  predicate Matches(tokens: seq<Token>, args: seq<Arg>) {
    if tokens == [] then true
    else if TakesNumber(tokens[0]) then args != [] && args[0].Number? && Matches(tokens[1..], args[1..])
    else if TakesText(tokens[0]) then args != [] && args[0].Text? && Matches(tokens[1..], args[1..])
    else Matches(tokens[1..], args)
  }

  function Low32(w: Word): nat { w % 0x1_0000_0000 }

  function AsInt32(w: Word): int {
    if Low32(w) < 0x8000_0000 then Low32(w) else Low32(w) - 0x1_0000_0000
  }

  function AsInt64(w: Word): int {
    if w < 0x8000_0000_0000_0000 then w else w - WORD
  }

  function TextOf(t: Option<string>): string {
    if t.None? then "(null)" else t.value
  }

  /** What a number conversion writes. */
  function NumberMeaning(long: bool, c: char, w: Word): string
    requires c in {'c', 'd', 'u', 'x', 'p'}
  {
    if c == 'c' then [(w % 256) as char]
    else if c == 'd' then SignedNumeral(if long then AsInt64(w) else AsInt32(w))
    else if c == 'u' then Numeral(if long then w else Low32(w), 10)
    else if c == 'x' then Numeral(if long then w else Low32(w), 16)
    else "0x" + Padded(w, 16)
  }

  /** What a token without argument writes. */
  function PlainMeaning(t: Token): string {
    if t.Literal? then [t.c]
    else if t.c == '%' then "%"
    else "%" + (if t.long then "l" else "") + [t.c]
  }

  function Render(tokens: seq<Token>, args: seq<Arg>): string
    requires Matches(tokens, args)
  {
    if tokens == [] then ""
    else if TakesNumber(tokens[0]) then
      NumberMeaning(tokens[0].long, tokens[0].c, args[0].word) + Render(tokens[1..], args[1..])
    else if TakesText(tokens[0]) then
      TextOf(args[0].text) + Render(tokens[1..], args[1..])
    else PlainMeaning(tokens[0]) + Render(tokens[1..], args)
  }

  /** A format and its arguments fit together. */
  predicate WellFormed(format: string, args: seq<Arg>) {
    !BareLong(format) && Matches(Tokens(format), args)
  }

  /** What a format writes: the meanings of its tokens, one after the other. */
  function Meaning(format: string, args: seq<Arg>): string
    requires WellFormed(format, args)
  {
    Render(Tokens(format), args)
  }

  predicate Accepts(c: char, args: seq<Arg>) {
    (c in {'c', 'd', 'u', 'x', 'p'} ==> args != [] && args[0].Number?) && (c == 's' ==> args != [] && args[0].Text?)
  }

  /** How many arguments a conversion takes, and what it writes. */
  function Used(c: char): nat {
    if c in {'c', 'd', 'u', 'x', 'p', 's'} then 1 else 0
  }

  function ConversionMeaning(long: bool, c: char, args: seq<Arg>): string
    requires Accepts(c, args)
  {
    if c in {'c', 'd', 'u', 'x', 'p'} then NumberMeaning(long, c, args[0].word)
    else if c == 's' then TextOf(args[0].text)
    else PlainMeaning(Conversion(long, c))
  }

  // ---------------------------------------------------------------------------
  // The printer
  // ---------------------------------------------------------------------------

  class Printer {
    var hasSink: bool
    var output: string

    constructor ()
      ensures !hasSink && output == ""
    {
      hasSink, output := false, "";
    }

    method SetSink(present: bool)
      modifies this`hasSink
      ensures hasSink == present
    {
      hasSink := present;
    }

    /** Without a sink characters are dropped. */
    method Emit(c: char)
      modifies this`output
      ensures output == old(output) + if hasSink then [c] else ""
    {
      if hasSink { output := output + [c]; }
    }

    method EmitString(text: Option<string>)
      modifies this`output
      ensures output == old(output) + if hasSink then TextOf(text) else ""
    {
      var s := if text.None? then "(null)" else text.value;
      for i := 0 to |s|
        invariant output == old(output) + if hasSink then s[..i] else ""
      {
        Emit(s[i]);
        assert s[..i + 1] == s[..i] + [s[i]];
      }
      assert s[..|s|] == s;
    }

    /** Writes the first `length` buffered digits, last one first. */
    method Drain(buffer: array<char>, length: nat)
      requires length <= buffer.Length
      modifies this`output
      ensures output == old(output) + if hasSink then Reversed(buffer[..length]) else ""
    {
      ghost var digits := buffer[..length];
      var n: nat := length;
      while n > 0
        invariant n <= length
        invariant output == old(output) + if hasSink then Reversed(digits[n..]) else ""
      {
        n := n - 1;
        assert digits[n..][1..] == digits[n + 1..];
        Emit(buffer[n]);
      }
      assert digits[0..] == digits;
    }

    /** Decimal and other bases, as long as the digits fit the 24-character buffer. */
    method EmitUnsigned(value: Word, base: nat)
      requires 2 <= base <= 16 && |Digits(value, base)| <= 24
      modifies this`output
      ensures output == old(output) + if hasSink then Numeral(value, base) else ""
    {
      hide Digits, Reversed;
      var buffer := new char[24](_ => '0');
      if value == 0 {
        Emit('0');
        assert "0" == ['0'];
        return;
      }
      var length: nat, rest: nat := 0, value;
      FillStart(value, base);
      while rest != 0
        invariant output == old(output) && length + |Digits(rest, base)| <= 24
        invariant Digits(value, base) == Digits(rest, base) + Reversed(buffer[..length])
        decreases rest
      {
        ghost var before := buffer[..length];
        FillStep(rest, base, before);
        buffer[length] := DigitChar(rest % base);
        assert buffer[..length + 1] == before + [DigitChar(rest % base)];
        length := length + 1;
        rest := rest / base;
      }
      FillEnd(buffer[..length], base);
      Drain(buffer, length);
    }

    /** Hexadecimal by masks and shifts; the digits fit the 16-character buffer. */
    method EmitHex(value: Word)
      modifies this`output
      ensures output == old(output) + if hasSink then Numeral(value, 16) else ""
    {
      hide Digits, Reversed, And, Shr;
      var buffer := new char[16](_ => '0');
      if value == 0 {
        Emit('0');
        assert "0" == ['0'];
        return;
      }
      var length: nat, rest: nat := 0, value;
      BuffersSuffice(value, 16);
      FillStart(value, 16);
      while rest != 0
        invariant output == old(output) && length + |Digits(rest, 16)| <= 16
        invariant Digits(value, 16) == Digits(rest, 16) + Reversed(buffer[..length])
        decreases rest
      {
        ghost var before := buffer[..length];
        Nibble(rest);
        FillStep(rest, 16, before);
        buffer[length] := DigitChar(And(rest, 0xF));
        assert buffer[..length + 1] == before + [DigitChar(rest % 16)];
        length := length + 1;
        rest := Shr(rest, 4);
      }
      FillEnd(buffer[..length], 16);
      Drain(buffer, length);
    }

    /** Signed decimal, the minimum included: the magnitude is built without negating the value itself. */
    method EmitSigned(value: int)
      requires -0x8000_0000_0000_0000 <= value < 0x8000_0000_0000_0000
      modifies this`output
      ensures output == old(output) + if hasSink then SignedNumeral(value) else ""
    {
      hide Numeral, Digits;
      if value < 0 {
        Emit('-');
        var magnitude := -(value + 1) + 1;
        BuffersSuffice(magnitude, 10);
        EmitUnsigned(magnitude, 10);
      } else {
        BuffersSuffice(value, 10);
        EmitUnsigned(value, 10);
      }
    }

    /** A pointer: all sixteen hexadecimal digits. */
    method EmitPointer(value: Word)
      modifies this`output
      ensures output == old(output) + if hasSink then "0x" + Padded(value, 16) else ""
    {
      hide Shr, And, Padded, DigitChar;
      AllShifted(value);
      Emit('0');
      Emit('x');
      var i := 15;
      while i >= 0
        invariant -1 <= i <= 15
        invariant output == old(output) + if hasSink then "0x" + Padded(Shr(value, 4 * (i + 1)), 15 - i) else ""
      {
        var shifted := Shr(value, i * 4);
        NextNibble(value, i);
        Nibble(shifted);
        Emit(DigitChar(And(shifted, 0xF)));
        i := i - 1;
      }
    }

    /** The conversion of one number argument. */
    method EmitNumber(long: bool, c: char, w: Word)
      requires c in {'c', 'd', 'u', 'x', 'p'}
      modifies this`output
      ensures output == old(output) + if hasSink then NumberMeaning(long, c, w) else ""
    {
      hide Numeral, SignedNumeral, Padded;
      if c == 'c' {
        Emit((w % 256) as char);
      } else if c == 'd' {
        EmitSigned(if long then AsInt64(w) else AsInt32(w));
      } else if c == 'u' {
        BuffersSuffice(if long then w else Low32(w), 10);
        EmitUnsigned(if long then w else Low32(w), 10);
      } else if c == 'x' {
        EmitHex(if long then w else Low32(w));
      } else {
        EmitPointer(w);
      }
    }

    /** Unknown conversions are written as they stand. */
    method EmitPlain(long: bool, c: char)
      requires c !in {'c', 'd', 'u', 'x', 'p', 's'}
      modifies this`output
      ensures output == old(output) + if hasSink then PlainMeaning(Conversion(long, c)) else ""
    {
      Emit('%');
      if c != '%' {
        if long { Emit('l'); }
        Emit(c);
      }
    }

    /** One conversion, by its letter. */
    method EmitConversion(long: bool, c: char, args: seq<Arg>)
      requires Accepts(c, args)
      modifies this`output
      ensures output == old(output) + if hasSink then ConversionMeaning(long, c, args) else ""
    {
      hide NumberMeaning, PlainMeaning, TextOf;
      if c in {'c', 'd', 'u', 'x', 'p'} {
        EmitNumber(long, c, args[0].word);
      } else if c == 's' {
        EmitString(args[0].text);
      } else {
        EmitPlain(long, c);
      }
    }

    /** Interprets a format: the output grows by the meaning of its tokens, one after the other. */
    method Kprintf(format: Option<string>, args: seq<Arg>)
      requires format.Some? ==> WellFormed(format.value, args)
      modifies this`output
      ensures format.None? ==> output == old(output)
      ensures format.Some? ==> output == old(output) + if hasSink then Meaning(format.value, args) else ""
    {
      hide WellFormed, Meaning, ConversionMeaning, Accepts;
      if format.None? { return; }
      var rest, left := format.value, args;
      ghost var done := "";
      while rest != ""
        invariant WellFormed(rest, left)
        invariant Meaning(format.value, args) == done + Meaning(rest, left)
        invariant output == old(output) + if hasSink then done else ""
        decreases |rest|
      {
        if rest[0] != '%' {
          PlainStep(rest, left);
          Emit(rest[0]);
          done := done + [rest[0]];
          rest := rest[1..];
          continue;
        }
        if |rest| == 1 {
          LonePercent(rest, left);
          return;
        }
        ConversionStep(rest, left);
        var long := rest[1] == 'l';
        var letter := if long then 2 else 1;
        var c := rest[letter];
        EmitConversion(long, c, left);
        done := done + ConversionMeaning(long, c, left);
        rest, left := rest[letter + 1..], left[Used(c)..];
      }
      NothingLeft(left);
    }
  }

  lemma NothingLeft(args: seq<Arg>)
    ensures WellFormed("", args) && Meaning("", args) == ""
  {}

  lemma LonePercent(rest: string, args: seq<Arg>)
    requires |rest| == 1 && rest[0] == '%'
    ensures WellFormed(rest, args) && Meaning(rest, args) == ""
  {}

  lemma PlainStep(rest: string, args: seq<Arg>)
    requires rest != "" && rest[0] != '%' && WellFormed(rest, args)
    ensures WellFormed(rest[1..], args)
    ensures Meaning(rest, args) == [rest[0]] + Meaning(rest[1..], args)
  {}

  /** Taking one conversion off the front of a format. */
  lemma ConversionStep(rest: string, args: seq<Arg>)
    requires |rest| >= 2 && rest[0] == '%' && WellFormed(rest, args)
    ensures var long := rest[1] == 'l';
            var k := if long then 3 else 2;
            |rest| >= k &&
            var c, more := rest[k - 1], rest[k..];
            && Accepts(c, args) && Used(c) <= |args|
            && WellFormed(more, args[Used(c)..])
            && Meaning(rest, args) == ConversionMeaning(long, c, args) + Meaning(more, args[Used(c)..])
  {
    hide NumberMeaning, PlainMeaning, TextOf;
    var k := if rest[1] == 'l' then 3 else 2;
    assert Tokens(rest)[1..] == Tokens(rest[k..]);
    assert args[0..] == args;
  }

  /** Every number conversion reads back as its argument: whole words as they are, others by their low
      32 bits, signed ones by two's complement, and pointers in all sixteen digits. */
  lemma NumbersReadBack(long: bool, w: Word)
    ensures var n := if long then w else w % 0x1_0000_0000;
            var half := if long then 0x8000_0000_0000_0000 else 0x8000_0000;
            && ParseSigned(NumberMeaning(long, 'd', w)) == (if n < half then n else n - 2 * half)
            && Parse(NumberMeaning(long, 'u', w), 10) == n
            && Parse(NumberMeaning(long, 'x', w), 16) == n
    ensures |NumberMeaning(long, 'p', w)| == 18 && Parse(NumberMeaning(long, 'p', w)[2..], 16) == w
  {
    hide Numeral, SignedNumeral, Padded, Parse, ParseSigned, Power;
    SignedRoundTrip(if long then AsInt64(w) else AsInt32(w));
    NumeralRoundTrip(if long then w else Low32(w), 10);
    NumeralRoundTrip(if long then w else Low32(w), 16);
    PaddedRoundTrip(w, 16);
    BigPowers();
    assert NumberMeaning(long, 'p', w)[2..] == Padded(w, 16);
  }

  /** A digit buffer read backwards. */
  function Reversed(s: string): string {
    if s == "" then "" else Reversed(s[1..]) + [s[0]]
  }

  lemma {:induction false} ReversedSnoc(s: string, c: char)
    ensures Reversed(s + [c]) == [c] + Reversed(s)
  {
    if s != "" {
      assert (s + [c])[1..] == s[1..] + [c];
      ReversedSnoc(s[1..], c);
    }
  }

  lemma FillStart(value: nat, base: nat)
    requires 2 <= base <= 16
    ensures Digits(value, base) == Digits(value, base) + Reversed("")
  {}

  /** Moving the last digit of `rest` into the buffer. */
  lemma FillStep(rest: nat, base: nat, before: string)
    requires 2 <= base <= 16 && rest > 0
    ensures 0 <= rest / base < rest
    ensures |Digits(rest, base)| == |Digits(rest / base, base)| + 1
    ensures Digits(rest, base) + Reversed(before) ==
            Digits(rest / base, base) + Reversed(before + [DigitChar(rest % base)])
  {
    hide Digits, Reversed, DigitChar;
    Shrinks(rest, base);
    DigitsSplit(rest, base);
    ReversedSnoc(before, DigitChar(rest % base));
  }

  lemma DigitsSplit(rest: nat, base: nat)
    requires 2 <= base <= 16 && rest > 0
    ensures Digits(rest, base) == Digits(rest / base, base) + [DigitChar(rest % base)]
  {
    hide DigitChar;
  }

  lemma FillEnd(s: string, base: nat)
    requires 2 <= base <= 16
    ensures Digits(0, base) + Reversed(s) == Reversed(s)
  {}

  lemma Nibble(x: nat)
    ensures And(x, 0xF) == x % 16 && Shr(x, 4) == x / 16
  {
    hide And, Shr;
    assert Pow2(4) == 16;
    LowMask(x, 4);
    ShrDivides(x, 4);
  }

  /** One more hexadecimal digit of a value that is read from the top. */
  lemma NextNibble(value: nat, i: nat)
    requires i <= 15
    ensures Padded(Shr(value, 4 * i), 16 - i) ==
            Padded(Shr(value, 4 * (i + 1)), 15 - i) + [DigitChar(Shr(value, i * 4) % 16)]
  {
    hide Shr, DigitChar, Padded;
    ShrShr(value, 4 * i, 4);
    Nibble(Shr(value, 4 * i));
    LastPadded(Shr(value, 4 * i), 16 - i);
  }

  lemma LastPadded(x: nat, n: nat)
    requires n > 0
    ensures Padded(x, n) == Padded(x / 16, n - 1) + [DigitChar(x % 16)]
  {
    hide DigitChar;
  }

  lemma AllShifted(value: Word)
    ensures Padded(Shr(value, 64), 0) == "" && Shr(value, 0) == value
  {
    hide Shr;
    assert Shr(value, 0) == value by { ShrNone(value); }
  }

  lemma ShrNone(value: nat)
    ensures Shr(value, 0) == value
  {}

  lemma {:induction false} ShrShr(x: nat, a: nat, b: nat)
    ensures Shr(Shr(x, a), b) == Shr(x, a + b)
  {
    if a > 0 { ShrShr(x / 2, a - 1, b); }
  }
}
