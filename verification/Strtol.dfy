/** `kstrtol` (src/kernel/src/klibc/klibc.c), and its agreement with what `print_int` writes. */
module Strtol {
  import opened Arith
  import opened Printf

  /** Where the digits start: after one sign, if there is any. */
  function SignLength(s: seq<char>): nat {
    if s != [] && (s[0] == '-' || s[0] == '+') then 1 else 0
  }

  /** Where the number ends. */
  function NumberEnd(s: seq<char>): (n: nat)
    ensures SignLength(s) <= n <= |s|
  {
    SignLength(s) + DigitRun(s[SignLength(s)..])
  }

  function Number(s: seq<char>): int {
    var value := Decimal(s[SignLength(s)..NumberEnd(s)]);
    if s != [] && s[0] == '-' then -value else value
  }

  /** The character at i of a string that ends in NUL. */
  function At(s: seq<char>, i: nat): char {
    if i < |s| then s[i] else NUL
  }

  lemma {:induction false} DecimalNonNegative(s: seq<char>)
    requires forall i :: 0 <= i < |s| ==> IsDigit(s[i])
    ensures Decimal(s) >= 0
  {
    if s != [] { DecimalNonNegative(s[..|s| - 1]); }
  }

  /** Reading further digits never makes the value smaller, so only the last value can overflow. */
  lemma {:induction false} DecimalGrows(s: seq<char>, k: nat)
    requires k <= |s| && forall i :: 0 <= i < |s| ==> IsDigit(s[i])
    ensures Decimal(s[..k]) <= Decimal(s)
  {
    if k < |s| {
      var n := |s| - 1;
      DecimalGrows(s[..n], k);
      DecimalNonNegative(s[..n]);
      assert s[..n][..k] == s[..k];
    } else {
      assert s[..k] == s;
    }
  }

  /** integer *= 10; integer += digit, in a long that must not overflow. */
  method NextDigit(integer: nat, c: char, ghost digits: seq<char>, ghost k: nat) returns (next: nat)
    requires k < |digits| && c == digits[k] && integer == Decimal(digits[..k]) && Decimal(digits) <= INT_MAX
    requires forall i :: 0 <= i < |digits| ==> IsDigit(digits[i])
    ensures next == Decimal(digits[..k + 1]) <= INT_MAX
  {
    DecimalGrows(digits, k + 1);
    assert digits[..k + 1][..k] == digits[..k];
    next := integer * 10;
    next := next + (c as int - '0' as int);
  }

  /** `kstrtol` of a string whose digits fit a long. */
  method Kstrtol(str: seq<char>) returns (result: int, end: nat)
    requires -INT_MAX <= Number(str) <= INT_MAX
    ensures result == Number(str) && end == NumberEnd(str)
  {
    hide Decimal, DigitRun;
    DecimalOfNone();
    var i, sign := 0, 1;
    if At(str, 0) == '-' {
      sign, i := -1, 1;
    } else if At(str, 0) == '+' {
      i := 1;
    }
    ghost var digits := str[i..NumberEnd(str)];
    DigitRunMore(str[i..]);
    assert forall k :: 0 <= k < |digits| ==> digits[k] == str[i..][k];
    ghost var start := i;
    var integer: nat := 0;
    while IsDigit(At(str, i))
      invariant start <= i <= NumberEnd(str) && integer == Decimal(digits[..i - start])
      decreases |str| - i
    {
      assert At(str, i) == str[start..][i - start];
      integer := NextDigit(integer, str[i], digits, i - start);
      i := i + 1;
    }
    assert i == NumberEnd(str);
    assert digits[..i - start] == digits;
    result, end := sign * integer, i;
  }

  // ---- reading back what was printed ----

  lemma Shifted(a: int, p: int, b: int)
    ensures (a * p + b) * 10 == a * (10 * p) + b * 10
  {
  }

  lemma {:induction false} DecimalConcat(s: seq<char>, t: seq<char>)
    ensures Decimal(s + t) == Decimal(s) * Pow(10, |t|) + Decimal(t)
  {
    if t == [] {
      assert s + t == s;
    } else {
      var n := |t| - 1;
      assert (s + t)[..|s| + n] == s + t[..n];
      DecimalConcat(s, t[..n]);
      Shifted(Decimal(s), Pow(10, n), Decimal(t[..n]));
    }
  }

  lemma {:induction false} DigitsRead(n: nat, upper: bool)
    ensures Decimal(Digits(n, 10, upper)) == n && AllDigits(Digits(n, 10, upper))
  {
    hide Digit, Decimal, IsDigit;
    DecimalOfNone();
    if n > 0 {
      DigitsRead(n / 10, upper);
      DecimalDigit(n % 10, upper);
      DecimalAppend(Digits(n / 10, 10, upper), Digit(n % 10, upper));
      DivMod(n, 10);
    }
  }

  lemma DecimalAppend(s: seq<char>, c: char)
    ensures Decimal(s + [c]) == Decimal(s) * 10 + (c as int - '0' as int)
  {
    assert (s + [c])[..|s|] == s;
  }

  lemma DecimalDigit(d: nat, upper: bool)
    requires d < 10
    ensures IsDigit(Digit(d, upper)) && Digit(d, upper) as int - '0' as int == d
  {
  }

  ghost predicate AllDigits(s: seq<char>) {
    forall i :: 0 <= i < |s| ==> IsDigit(s[i])
  }

  lemma {:induction false} ZerosRead(count: int)
    ensures Decimal(Pads(count, '0')) == 0 && AllDigits(Pads(count, '0'))
    decreases count
  {
    if count > 0 {
      assert Pads(count, '0')[..count - 1] == Pads(count - 1, '0');
      ZerosRead(count - 1);
    }
  }

  /** Zero padding and the lone zero do not change the value. */
  lemma BodyRead(n: nat, padding: int, negate: nat)
    ensures var body := Body(Digits(n, 10, false), padding, negate, '0'); Decimal(body) == n && AllDigits(body)
  {
    hide Digits, Pads, Decimal;
    var digits := Digits(n, 10, false);
    var pads := Pads(if padding > 0 then padding - |digits| - negate else 0, '0');
    var zero := if digits == [] && padding <= 0 then "0" else "";
    ZerosRead(if padding > 0 then padding - |digits| - negate else 0);
    DigitsRead(n, false);
    DecimalConcat(pads, digits);
    DecimalConcat(pads + digits, zero);
    LoneZero();
    assert 0 * Pow(10, |digits|) == 0;
    if zero == "" {
      assert pads + digits + zero == pads + digits;
    } else {
      assert n == 0;
    }
  }

  lemma DecimalOfNone()
    ensures Decimal([]) == 0
  {
  }

  lemma LoneZero()
    ensures Decimal("0") == 0 && Decimal("") == 0
  {
  }

  lemma {:induction false} DigitRunAll(s: seq<char>)
    requires AllDigits(s)
    ensures DigitRun(s) == |s|
  {
    if s != [] { DigitRunAll(s[1..]); }
  }

  lemma MagnitudeIs(val: int)
    requires -INT_MAX - 1 <= val <= INT_MAX
    ensures Magnitude(val, false) == if val < 0 then -val else val
  {
  }

  /** For every int and every zero padding, the printed text stands for that int, to the end. */
  lemma PrintedReads(val: int, padding: int)
    requires -INT_MAX - 1 <= val <= INT_MAX
    ensures var text := RenderInt(val, 10, false, padding, '0', false); Number(text) == val && NumberEnd(text) == |text|
  {
    hide Digits, Decimal, Body, DigitRun, Magnitude;
    MagnitudeIs(val);
    var sign := Sign(val, false);
    var n := Magnitude(val, false);
    var body := Body(Digits(n, 10, false), padding, |sign|, '0');
    var text := sign + body;
    BodyRead(n, padding, |sign|);
    DigitRunAll(body);
    assert text[|sign|..] == body;
    assert sign == "" ==> text == body;
    assert SignLength(text) == |sign|;
    assert text[|sign|..NumberEnd(text)] == body;
  }

  /** The string a buffer holds: what stands before the first NUL. */
  function CString(s: seq<char>): seq<char> {
    if s == [] || s[0] == NUL then [] else [s[0]] + CString(s[1..])
  }

  lemma {:induction false} CStringEnds(text: seq<char>, rest: seq<char>)
    requires NUL !in text
    ensures CString(text + [NUL] + rest) == text
  {
    if text != [] {
      assert (text + [NUL] + rest)[1..] == text[1..] + [NUL] + rest;
      CStringEnds(text[1..], rest);
    }
  }

  lemma PrintedHasNoNul(val: int, padding: int)
    requires -INT_MAX - 1 <= val <= INT_MAX
    ensures NUL !in RenderInt(val, 10, false, padding, '0', false)
  {
    hide Digits, Decimal, Body, DigitRun, Magnitude;
    BodyRead(Magnitude(val, false), padding, |Sign(val, false)|);
  }

  /** `print_int` into a buffer with room for the text and a NUL, the NUL, then `kstrtol` of the buffer. */
  method RoundTrip(buf: array<char>, val: int, padding: int) returns (result: int, end: nat)
    requires -INT_MAX <= val <= INT_MAX && |RenderInt(val, 10, false, padding, '0', false)| < buf.Length
    modifies buf
    ensures result == val && end == |RenderInt(val, 10, false, padding, '0', false)| && buf[end] == NUL
  {
    hide RenderInt, Number, NumberEnd, CString;
    var n := PrintInt(buf, 0, buf.Length - 1, val, 10, false, padding, '0', false);
    buf[n] := NUL;
    PrintedReads(val, padding);
    PrintedHasNoNul(val, padding);
    ghost var text := RenderInt(val, 10, false, padding, '0', false);
    assert buf[..] == text + [NUL] + buf[n + 1..];
    CStringEnds(text, buf[n + 1..]);
    result, end := Kstrtol(CString(buf[..]));
  }
}
