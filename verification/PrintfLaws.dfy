/** What the conversions of `os_vsnprintf` print, said without the functions that compute it: which number a text stands for, in which
    digits, how long it is, and where a conversion stands in a format. */
module PrintfLaws {
  import opened Arith
  import opened Printf
  import opened Strtol

  const INT_MIN: int := -0x8000_0000

  // ----- Numbers -----

  /** A digit of the base, its letters in one case. */
  predicate DigitOf(c: char, base: nat, upper: bool) {
    || ('0' <= c <= '9' && c as int - '0' as int < base)
    || (upper && 'A' <= c <= 'Z' && c as int - 'A' as int + 10 < base)
    || (!upper && 'a' <= c <= 'z' && c as int - 'a' as int + 10 < base)
  }

  /** The text of a number: a '-' if it is negative, digits of its magnitude, at least the width in all, and no leading zero unless the
      width or a lone digit asks for it. */
  ghost predicate Shows(text: seq<char>, negative: bool, magnitude: nat, base: nat, upper: bool, width: int) {
    && (negative ==> text != [] && text[0] == '-')
    && var digits := if negative then text[1..] else text;
       && digits != [] && Numeral(digits, base) == magnitude && (forall c :: c in digits ==> DigitOf(c, base, upper))
       && |text| >= width && (|digits| > 1 && |text| > width ==> digits[0] != '0')
  }

  lemma {:induction false} DigitsInBase(n: nat, base: nat, upper: bool)
    requires 2 <= base <= 16
    ensures forall c :: c in Digits(n, base, upper) ==> DigitOf(c, base, upper)
  {
    if n > 0 {
      Quotient(n, base);
      DigitsInBase(n / base, base, upper);
      DigitInBase(n % base, base, upper);
    }
  }

  lemma DigitInBase(d: nat, base: nat, upper: bool)
    requires d < base <= 16
    ensures DigitOf(Digit(d, upper), base, upper)
  {
  }

  lemma {:induction false} ZerosBefore(count: int, s: seq<char>, base: nat)
    ensures Numeral(Pads(count, '0') + s, base) == Numeral(s, base)
    decreases |s|, count
  {
    hide DigitValue;
    if s != [] {
      var n := |s| - 1;
      assert (Pads(count, '0') + s)[..|Pads(count, '0')| + n] == Pads(count, '0') + s[..n];
      ZerosBefore(count, s[..n], base);
    } else if count > 0 {
      assert Pads(count, '0') + s == Pads(count - 1, '0') + ['0'];
      NumeralAppend(Pads(count - 1, '0'), '0', base);
      ZerosBefore(count - 1, [], base);
      assert Pads(count - 1, '0') + [] == Pads(count - 1, '0');
      ZeroStands();
    } else {
      assert Pads(count, '0') + s == s;
    }
  }

  lemma ZeroStands()
    ensures DigitValue('0') == 0
  {
  }

  /** `print_int` with zero padding. */
  lemma RenderShows(val: int, base: nat, unsigned: bool, width: int, upper: bool)
    requires 2 <= base <= 16 && INT_MIN <= val <= INT_MAX
    ensures Shows(RenderInt(val, base, unsigned, width, '0', upper), val < 0 && !unsigned,
                  if unsigned then val % 0x1_0000_0000 else if val < 0 then -val else val, base, upper, width)
  {
    hide Digits, Body, Magnitude, Numeral, DigitOf, Shows;
    var n, sign := Magnitude(val, unsigned), Sign(val, unsigned);
    var digits := Digits(n, base, upper);
    MagnitudeMeans(val, unsigned);
    DigitsDenote(n, base, upper);
    DigitsInBase(n, base, upper);
    DigitsOfZero(base, upper);
    BodyShows(digits, width, |sign|, base, upper);
    SignedShows(sign, Body(digits, width, |sign|, '0'), n, base, upper, width);
  }

  lemma SignedShows(sign: seq<char>, body: seq<char>, n: nat, base: nat, upper: bool, width: int)
    requires (sign == "-" || sign == "") && body != [] && Numeral(body, base) == n && forall c :: c in body ==> DigitOf(c, base, upper)
    requires |sign| + |body| >= width && (|body| > 1 && |sign| + |body| > width ==> body[0] != '0')
    ensures Shows(sign + body, sign == "-", n, base, upper, width)
  {
    hide Numeral, DigitOf;
    assert (sign + body)[|sign|..] == body;
    if sign == "" { assert sign + body == body; }
  }

  lemma MagnitudeMeans(val: int, unsigned: bool)
    requires INT_MIN <= val <= INT_MAX
    ensures Magnitude(val, unsigned) == if unsigned then val % 0x1_0000_0000 else if val < 0 then -val else val
    ensures val < 0 && !unsigned ==> Magnitude(val, unsigned) > 0
  {
  }

  lemma BodyShows(digits: seq<char>, width: int, negate: nat, base: nat, upper: bool)
    requires base >= 2 && (forall c :: c in digits ==> DigitOf(c, base, upper)) && (digits == [] ==> negate == 0)
    requires digits != [] ==> DigitValue(digits[0]) > 0
    ensures var body := Body(digits, width, negate, '0');
      && body != [] && Numeral(body, base) == Numeral(digits, base) && (forall c :: c in body ==> DigitOf(c, base, upper))
      && negate + |body| >= width && (|body| > 1 && negate + |body| > width ==> body[0] != '0')
  {
    ZeroStands();
    var count := if width > 0 then width - |digits| - negate else 0;
    ZerosBefore(count, digits, base);
    var body := Body(digits, width, negate, '0');
    if digits == [] && width <= 0 {
      assert body == "0";
      LoneDigit(base);
    } else {
      assert body == Pads(count, '0') + digits;
    }
  }

  lemma LoneDigit(base: nat)
    ensures Numeral("0", base) == 0 == Numeral([], base)
  {
    assert "0"[..0] == [];
  }

  /** There is only one such text. */
  lemma ShowsOnce(s: seq<char>, t: seq<char>, negative: bool, magnitude: nat, base: nat, upper: bool, width: int)
    requires 2 <= base <= 16 && Shows(s, negative, magnitude, base, upper, width) && Shows(t, negative, magnitude, base, upper, width)
    ensures s == t
  {
    var a, b := if negative then s[1..] else s, if negative then t[1..] else t;
    NumeralOnce(a, b, base, upper);
    if |a| < |b| { NumeralBelow(a, base, upper); NumeralAbove(b, base, upper); PowMonotone(base, |a|, |b| - 1); }
    if |b| < |a| { NumeralBelow(b, base, upper); NumeralAbove(a, base, upper); PowMonotone(base, |b|, |a| - 1); }
    if negative { assert s == ['-'] + a && t == ['-'] + b; }
  }

  lemma DigitBelow(c: char, base: nat, upper: bool)
    requires DigitOf(c, base, upper) && base <= 16
    ensures 0 <= DigitValue(c) < base && (DigitValue(c) == 0 <==> c == '0')
  {
  }

  lemma DigitOnce(c: char, d: char, base: nat, upper: bool)
    requires DigitOf(c, base, upper) && DigitOf(d, base, upper) && DigitValue(c) == DigitValue(d) && base <= 16
    ensures c == d
  {
  }

  lemma {:induction false} NumeralBelow(s: seq<char>, base: nat, upper: bool)
    requires base <= 16 && forall c :: c in s ==> DigitOf(c, base, upper)
    ensures 0 <= Numeral(s, base) < Pow(base, |s|)
  {
    hide DigitValue, DigitOf;
    if s != [] {
      var n := |s| - 1;
      NumeralBelow(s[..n], base, upper);
      DigitBelow(s[n], base, upper);
      MulMonotone(Numeral(s[..n], base) + 1, Pow(base, n), base);
      MulMonotone(0, Numeral(s[..n], base), base);
    }
  }

  lemma {:induction false} NumeralAbove(s: seq<char>, base: nat, upper: bool)
    requires 2 <= base <= 16 && s != [] && s[0] != '0' && forall c :: c in s ==> DigitOf(c, base, upper)
    ensures Numeral(s, base) >= Pow(base, |s| - 1)
  {
    hide DigitValue, DigitOf;
    var n := |s| - 1;
    DigitBelow(s[n], base, upper);
    if n > 0 {
      NumeralAbove(s[..n], base, upper);
      MulMonotone(Pow(base, n - 1), Numeral(s[..n], base), base);
    } else {
      assert s[..0] == [];
    }
  }

  lemma {:induction false} NumeralOnce(s: seq<char>, t: seq<char>, base: nat, upper: bool)
    requires base <= 16 && (forall c :: c in s ==> DigitOf(c, base, upper)) && forall c :: c in t ==> DigitOf(c, base, upper)
    ensures |s| == |t| && Numeral(s, base) == Numeral(t, base) ==> s == t
  {
    hide DigitValue, DigitOf;
    if |s| == |t| > 0 && Numeral(s, base) == Numeral(t, base) {
      var n := |s| - 1;
      DigitBelow(s[n], base, upper);
      DigitBelow(t[n], base, upper);
      LastDigit(Numeral(s[..n], base), DigitValue(s[n]), base);
      LastDigit(Numeral(t[..n], base), DigitValue(t[n]), base);
      NumeralOnce(s[..n], t[..n], base, upper);
      DigitOnce(s[n], t[n], base, upper);
      assert s == s[..n] + [s[n]] && t == t[..n] + [t[n]];
    }
  }

  lemma LastDigit(x: int, d: int, base: nat)
    requires 0 <= d < base
    ensures (x * base + d) / base == x && (x * base + d) % base == d
  {
    DivModUnique(x * base + d, base, x, d);
  }

  // ----- Conversions -----

  /** `%d` and `%i` print the int in decimal. Read as a number, the text is that int again. */
  lemma PrintsSigned(conv: char, width: int, args: seq<Arg>)
    requires conv in {'d', 'i'} && args != [] && args[0].Int? && INT_MIN <= args[0].i <= INT_MAX
    ensures Suits(conv, args)
    ensures var text := Convert(conv, width, args);
      && Shows(text, args[0].i < 0, if args[0].i < 0 then -args[0].i else args[0].i, 10, false, width)
      && Number(text) == args[0].i && NumberEnd(text) == |text|
  {
    hide RenderInt, Shows, Number, NumberEnd;
    RenderShows(args[0].i, 10, false, width, false);
    PrintedReads(args[0].i, width);
  }

  /** `%u` prints the argument modulo 2^32 in decimal. */
  lemma PrintsUnsigned(width: int, args: seq<Arg>)
    requires args != [] && args[0].Int? && INT_MIN <= args[0].i <= INT_MAX
    ensures Suits('u', args) && Shows(Convert('u', width, args), false, args[0].i % 0x1_0000_0000, 10, false, width)
  {
    hide RenderInt, Shows;
    RenderShows(args[0].i, 10, true, width, false);
  }

  /** `%x` and `%X` print it in hexadecimal, in small and in capital letters. */
  lemma PrintsHex(conv: char, width: int, args: seq<Arg>)
    requires conv in {'x', 'X'} && args != [] && args[0].Int? && INT_MIN <= args[0].i <= INT_MAX
    ensures Suits(conv, args) && Shows(Convert(conv, width, args), false, args[0].i % 0x1_0000_0000, 16, conv == 'X', width)
  {
    hide RenderInt, Shows;
    RenderShows(args[0].i, 16, true, width, conv == 'X');
  }

  /** `%c` prints the character, `%s` the string, `%%` a '%', and any other conversion nothing. */
  lemma PrintsText(conv: char, width: int, args: seq<Arg>)
    requires Suits(conv, args) && conv !in {'d', 'i', 'u', 'x', 'X'}
    ensures conv == 'c' ==> |Convert(conv, width, args)| == 1 && args[0].i % 256 == Convert(conv, width, args)[0] as int
    ensures conv == 's' ==> Convert(conv, width, args) == args[0].s
    ensures conv == '%' ==> Convert(conv, width, args) == ['%']
    ensures conv !in {'c', 's', '%'} ==> Convert(conv, width, args) == []
  {
  }

  // ----- Formats -----

  /** Text without conversions prints itself. */
  lemma {:induction false} RenderPlain(s: seq<char>, fmt: seq<char>, args: seq<Arg>)
    requires '%' !in s && NUL !in s && WellFormed(fmt, args)
    ensures WellFormed(s + fmt, args) && Render(s + fmt, args) == s + Render(fmt, args)
  {
    if s == [] {
      assert s + fmt == fmt;
    } else {
      assert (s + fmt)[1..] == s[1..] + fmt;
      RenderPlain(s[1..], fmt, args);
    }
  }

  /** An option is a '0' and the digits of a width, or nothing, which stands for the width -1. */
  ghost predicate IsOption(option: seq<char>) {
    option != [] ==> option[0] == '0' && AllDigits(option)
  }

  ghost function WidthOf(option: seq<char>): int {
    if option == [] then -1 else Numeral(option, 10)
  }

  /** A conversion with its option prints its text, takes its argument, and leaves the rest of the format to the rest. */
  lemma RenderConversion(option: seq<char>, conv: char, fmt: seq<char>, args: seq<Arg>)
    requires IsOption(option) && WidthOf(option) <= INT_MAX && !IsDigit(conv) && conv != NUL && Suits(conv, args)
    requires WellFormed(fmt, if conv in {'X', 'x', 'd', 'i', 'u', 'c', 's'} then args[1..] else args)
    ensures var f := ['%'] + option + [conv] + fmt;
      && WellFormed(f, args)
      && Render(f, args)
         == Convert(conv, WidthOf(option), args) + Render(fmt, if conv in {'X', 'x', 'd', 'i', 'u', 'c', 's'} then args[1..] else args)
  {
    var f := ['%'] + option + [conv] + fmt;
    var s := f[1..];
    assert s == option + [conv] + fmt;
    OptionRead(option, conv, fmt);
    var k := |option|;
    assert s[k] == conv && s[k + 1..] == fmt;
    hide Convert, OptionLength, Width, WidthOf, Suits;
  }

  lemma OptionRead(option: seq<char>, conv: char, fmt: seq<char>)
    requires IsOption(option) && !IsDigit(conv)
    ensures var s := option + [conv] + fmt; OptionLength(s) == |option| && Width(s) == WidthOf(option)
  {
    var s := option + [conv] + fmt;
    if option != [] {
      DigitRunThen(option, [conv] + fmt);
      assert s == option + ([conv] + fmt) && s[..|option|] == option;
      DecimalIsNumeral(option);
    }
  }

  lemma {:induction false} DigitRunThen(s: seq<char>, rest: seq<char>)
    requires AllDigits(s) && (rest == [] || !IsDigit(rest[0]))
    ensures DigitRun(s + rest) == |s|
  {
    if s != [] {
      assert (s + rest)[1..] == s[1..] + rest;
      DigitRunThen(s[1..], rest);
    } else {
      assert s + rest == rest;
    }
  }

  lemma {:induction false} DecimalIsNumeral(s: seq<char>)
    requires AllDigits(s)
    ensures Decimal(s) == Numeral(s, 10)
  {
    if s != [] { DecimalIsNumeral(s[..|s| - 1]); }
  }

  /** A '+' or no sign, and a '-', before digits, whatever follows that is no digit. */
  lemma NumberReads(digits: seq<char>, rest: seq<char>)
    requires AllDigits(digits) && (rest == [] || (!IsDigit(rest[0]) && (digits == [] ==> rest[0] !in {'+', '-'})))
    ensures Number(digits + rest) == Numeral(digits, 10) && NumberEnd(digits + rest) == |digits|
    ensures Number("+" + digits + rest) == Numeral(digits, 10) && NumberEnd("+" + digits + rest) == 1 + |digits|
    ensures Number("-" + digits + rest) == -Numeral(digits, 10) && NumberEnd("-" + digits + rest) == 1 + |digits|
  {
    hide Number, NumberEnd, Numeral;
    var s := digits + rest;
    assert s[0..] == s && (s != [] ==> s[0] !in {'+', '-'});
    NumberFrom(s, 0, digits, rest);
    Signed("+", digits, rest);
    NumberFrom("+" + digits + rest, 1, digits, rest);
    Signed("-", digits, rest);
    NumberFrom("-" + digits + rest, 1, digits, rest);
  }

  lemma Signed(sign: seq<char>, digits: seq<char>, rest: seq<char>)
    requires |sign| == 1
    ensures var s := sign + digits + rest; |s| > 0 && s[1..] == digits + rest && s[0] == sign[0]
  {
  }

  lemma NumberFrom(s: seq<char>, sign: nat, digits: seq<char>, rest: seq<char>)
    requires AllDigits(digits) && (rest == [] || !IsDigit(rest[0])) && sign <= |s| && s[sign..] == digits + rest && SignLength(s) == sign
    ensures NumberEnd(s) == sign + |digits| && Number(s) == if s != [] && s[0] == '-' then -Numeral(digits, 10) else Numeral(digits, 10)
  {
    DigitRunThen(digits, rest);
    DecimalIsNumeral(digits);
    hide DigitRun, Decimal, Numeral;
    assert s[sign..sign + |digits|] == s[sign..][..|digits|] == digits;
  }
}
