/** The kernel's bounded formatter (src/kernel/src/klibc/printf.c, with strncpy and strlen of src/kernel/src/klibc/string.c). Strings
    are sequences without their final NUL; the variable arguments are a list. */
module Printf {
  import opened Arith

  const NUL: char := '\0'
  const INT_MAX: int := 0x7fff_ffff
  const TWO32: nat := 0x1_0000_0000

  function Min(a: nat, b: nat): nat {
    if a <= b then a else b
  }

  // ---- print_int ----

  function Digit(d: nat, upper: bool): char
    requires d < 16
  {
    if upper then "0123456789ABCDEF"[d] else "0123456789abcdef"[d]
  }

  /** The numeral of n, most significant digit first; zero has none. */
  function Digits(n: nat, base: nat, upper: bool): seq<char>
    requires 2 <= base <= 16
  {
    if n == 0 then [] else Digits(n / base, base, upper) + [Digit(n % base, upper)]
  }

  function DigitValue(c: char): int {
    if '0' <= c <= '9' then c as int - '0' as int
    else if 'a' <= c <= 'f' then c as int - 'a' as int + 10
    else c as int - 'A' as int + 10
  }

  /** The number a numeral stands for, whatever the base and the case of its digits. */
  function Numeral(s: seq<char>, base: nat): int {
    if s == [] then 0 else Numeral(s[..|s| - 1], base) * base + DigitValue(s[|s| - 1])
  }

  lemma DigitStands(d: nat, upper: bool)
    requires d < 16
    ensures DigitValue(Digit(d, upper)) == d
  {
  }

  lemma NumeralAppend(s: seq<char>, c: char, base: nat)
    ensures Numeral(s + [c], base) == Numeral(s, base) * base + DigitValue(c)
  {
    hide DigitValue;
    assert (s + [c])[..|s|] == s;
  }

  lemma NumeralOfNone(base: nat)
    ensures Numeral([], base) == 0
  {
  }

  lemma DivMod(n: nat, base: nat)
    requires base > 0
    ensures n / base * base + n % base == n && (n / base == 0 ==> n % base == n)
  {
  }

  /** Digits writes the numeral of n, without leading zeros. */
  lemma {:induction false} DigitsDenote(n: nat, base: nat, upper: bool)
    requires 2 <= base <= 16
    ensures Numeral(Digits(n, base, upper), base) == n
    ensures n > 0 ==> Digits(n, base, upper) != [] && DigitValue(Digits(n, base, upper)[0]) > 0
  {
    hide Digit, DigitValue, Numeral;
    NumeralOfNone(base);
    if n > 0 {
      Quotient(n, base);
      DigitsDenote(n / base, base, upper);
      DigitStands(n % base, upper);
      NumeralAppend(Digits(n / base, base, upper), Digit(n % base, upper), base);
      DivMod(n, base);
    }
  }

  function Pads(count: int, c: char): seq<char> {
    if count <= 0 then [] else seq(count, _ => c)
  }

  /** What is printed of the int `val`. The negation of INT_MIN wraps around, to 2^31 once unsigned. */
  function Magnitude(val: int, unsigned: bool): (r: nat)
    ensures r < TWO32
  {
    if val < 0 && !unsigned then -val % TWO32 else val % TWO32
  }

  /** The text after the sign: padding up to the width, digits, or a 0 that would otherwise have no digits at all. */
  function Body(digits: seq<char>, padding: int, negate: nat, pad: char): seq<char> {
    Pads(if padding > 0 then padding - |digits| - negate else 0, pad) + digits + (if digits == [] && padding <= 0 then "0" else "")
  }

  function Sign(val: int, unsigned: bool): seq<char> {
    if val < 0 && !unsigned then "-" else ""
  }

  /** The whole text of an int. */
  function RenderInt(val: int, base: nat, unsigned: bool, padding: int, pad: char, upper: bool): seq<char>
    requires 2 <= base <= 16
  {
    Sign(val, unsigned) + Body(Digits(Magnitude(val, unsigned), base, upper), padding, |Sign(val, unsigned)|, pad)
  }

  /** `n` characters of `text` have been written at `b`, and nothing else. */
  ghost predicate Wrote(before: seq<char>, after: seq<char>, b: nat, text: seq<char>, n: nat) {
    n <= |text| && b + n <= |before| && after == before[..b] + text[..n] + before[b + n..]
  }

  lemma WroteMore(s: seq<char>, s': seq<char>, s'': seq<char>, b: nat, text: seq<char>, more: seq<char>, n: nat)
    requires Wrote(s, s', b, text, |text|) && Wrote(s', s'', b + |text|, more, n)
    ensures Wrote(s, s'', b, text + more, |text| + n)
  {
  }

  lemma WroteShort(s: seq<char>, s': seq<char>, b: nat, text: seq<char>, more: seq<char>, n: nat)
    requires Wrote(s, s', b, text, n)
    ensures Wrote(s, s', b, text + more, n)
  {
  }

  lemma WroteNext(s: seq<char>, s': seq<char>, b: nat, text: seq<char>, n: nat)
    requires Wrote(s, s', b, text, n) && n < |text| && b + n < |s|
    ensures |s'| == |s| && Wrote(s, s'[b + n := text[n]], b, text, n + 1)
  {
  }

  /** *buf = c; buf++, where c is the next character of the text. */
  method Put(buf: array<char>, b: nat, n: nat, c: char, ghost text: seq<char>, ghost s: seq<char>)
    requires b + n < buf.Length == |s| && n < |text| && text[n] == c && Wrote(s, buf[..], b, text, n)
    modifies buf
    ensures Wrote(s, buf[..], b, text, n + 1)
  {
    hide Wrote;
    WroteNext(s, buf[..], b, text, n);
    buf[b + n] := c;
    assert buf[..] == old(buf[..])[b + n := c];
  }

  method EmitPads(buf: array<char>, b: nat, maxLen: nat, count: int, pad: char) returns (n: nat)
    requires 0 < maxLen && b + maxLen <= buf.Length
    modifies buf
    ensures n == Min(|Pads(count, pad)|, maxLen) && Wrote(old(buf[..]), buf[..], b, Pads(count, pad), n)
  {
    hide Wrote;
    n := 0;
    WroteNothing(buf[..], b, Pads(count, pad));
    while n < count
      invariant n < maxLen && n <= |Pads(count, pad)| && Wrote(old(buf[..]), buf[..], b, Pads(count, pad), n)
    {
      Put(buf, b, n, pad, Pads(count, pad), old(buf[..]));
      n := n + 1;
      if n == maxLen { return; }
    }
  }

  lemma WroteNothing(s: seq<char>, b: nat, text: seq<char>)
    requires b <= |s|
    ensures Wrote(s, s, b, text, 0)
  {
  }

  method EmitDigits(buf: array<char>, b: nat, maxLen: nat, tmp: array<char>, ndigits: nat, ghost digits: seq<char>) returns (n: nat)
    requires 0 < maxLen && b + maxLen <= buf.Length && tmp != buf && ndigits == |digits| <= tmp.Length
    requires forall i :: 0 <= i < ndigits ==> tmp[i] == digits[ndigits - 1 - i]
    modifies buf
    ensures n == Min(|digits|, maxLen) && Wrote(old(buf[..]), buf[..], b, digits, n)
  {
    hide Wrote;
    n := 0;
    WroteNothing(buf[..], b, digits);
    var i: int := ndigits - 1;
    while i >= 0
      invariant -1 <= i < ndigits && n == ndigits - 1 - i && n < maxLen
      invariant Wrote(old(buf[..]), buf[..], b, digits, n)
    {
      assert tmp[i] == digits[n];
      Put(buf, b, n, tmp[i], digits, old(buf[..]));
      n := n + 1;
      if n == maxLen { return; }
      i := i - 1;
    }
  }

  /** The digits of temp, least significant first; 64 places are enough for every base. */
  method CollectDigits(val: nat, base: nat, upper: bool) returns (tmp: array<char>, ndigits: nat)
    requires 2 <= base <= 16 && val < TWO32
    ensures fresh(tmp) && ndigits == |Digits(val, base, upper)| <= 32 && tmp.Length == 64
    ensures forall i :: 0 <= i < ndigits ==> tmp[i] == Digits(val, base, upper)[ndigits - 1 - i]
  {
    hide Digit, Pow, Digits;
    DigitsOfZero(base, upper);
    tmp := new char[64];
    ndigits := 0;
    var temp: nat := val;
    ghost var low: seq<char> := [];
    TwoTo32();
    while temp != 0
      invariant ndigits <= 32 && temp < Pow(2, 32 - ndigits)
      invariant |low| == ndigits && Digits(val, base, upper) == Digits(temp, base, upper) + low
      invariant forall i :: 0 <= i < ndigits ==> tmp[i] == low[ndigits - 1 - i]
      decreases temp
    {
      FewerBits(temp, base, 32 - ndigits);
      var d, rest := SplitDigit(temp, base, upper);
      assert (Digits(rest, base, upper) + [d]) + low == Digits(rest, base, upper) + ([d] + low);
      tmp[ndigits] := d;
      low := [d] + low;
      temp := rest;
      ndigits := ndigits + 1;
    }
  }

  lemma DigitsOfZero(base: nat, upper: bool)
    requires 2 <= base <= 16
    ensures Digits(0, base, upper) == []
  {
  }

  method SplitDigit(temp: nat, base: nat, upper: bool) returns (d: char, rest: nat)
    requires 2 <= base <= 16 && temp > 0
    ensures rest == temp / base < temp && Digits(temp, base, upper) == Digits(rest, base, upper) + [d]
  {
    Quotient(temp, base);
    d, rest := Digit(temp % base, upper), temp / base;
  }

  lemma FewerBits(n: nat, base: nat, k: nat)
    requires 0 < n < Pow(2, k) && base >= 2
    ensures k > 0 && n / base < Pow(2, k - 1)
  {
  }

  lemma Quotient(n: nat, base: nat)
    requires n > 0 && base >= 2
    ensures n / base <= n / 2 < n
  {
    if n / base > n / 2 { MulMonotone(n / 2 + 1, n / base, 2); MulMonotone(2, base, n / base); }
  }

  lemma TwoTo32()
    ensures Pow(2, 32) == TWO32
  {
    PowAdd(2, 16, 16);
    PowAdd(2, 8, 8);
    assert Pow(2, 8) == 256;
  }

  /** `print_int`: the text of the int, cut off at buflen. */
  method PrintInt(buf: array<char>, start: nat, buflen: nat, val: int, base: nat, unsigned: bool, padding: int, pad: char, upper: bool)
    returns (n: nat)
    requires 2 <= base <= 16 && start + buflen <= buf.Length
    modifies buf
    ensures var text := RenderInt(val, base, unsigned, padding, pad, upper);
      n == Min(|text|, buflen) && Wrote(old(buf[..]), buf[..], start, text, n)
  {
    hide Digits, Pads, Wrote, Body, Magnitude;
    ghost var s0 := buf[..];
    ghost var text := RenderInt(val, base, unsigned, padding, pad, upper);
    ghost var sign := Sign(val, unsigned);
    var negate := val < 0 && !unsigned;
    var temp := Magnitude(val, unsigned);
    n := 0;
    if buflen == 0 { WroteNothing(buf[..], start, text); return; }
    if negate {
      WroteNothing(buf[..], start, "-");
      Put(buf, start, 0, '-', "-", s0);
      n := 1;
      if buflen == 1 {
        WroteShort(s0, buf[..], start, sign, Body(Digits(temp, base, upper), padding, |sign|, pad), 1);
        return;
      }
    } else {
      WroteNothing(buf[..], start, "");
    }
    var tmp, ndigits := CollectDigits(temp, base, upper);
    ghost var s1, body := buf[..], Body(Digits(temp, base, upper), padding, |sign|, pad);
    var m := EmitBody(buf, start + n, buflen - n, tmp, ndigits, padding, if negate then 1 else 0, pad, Digits(temp, base, upper));
    WroteMore(s0, s1, buf[..], start, sign, body, m);
    assert text == sign + body;
    n := n + m;
  }

  /** From line 46 on: padding, digits, and the lone zero. */
  method EmitBody(buf: array<char>, b: nat, maxLen: nat, tmp: array<char>, ndigits: nat, padding: int, negate: nat, pad: char,
                  ghost digits: seq<char>)
    returns (n: nat)
    requires 0 < maxLen && b + maxLen <= buf.Length && tmp != buf && ndigits == |digits| <= tmp.Length
    requires forall i :: 0 <= i < ndigits ==> tmp[i] == digits[ndigits - 1 - i]
    modifies buf
    ensures var text := Body(digits, padding, negate, pad);
      n == Min(|text|, maxLen) && Wrote(old(buf[..]), buf[..], b, text, n)
  {
    hide Wrote, Pads;
    ghost var s0 := buf[..];
    var count := if padding > 0 then padding - ndigits - negate else 0;
    ghost var pads := Pads(count, pad);
    ghost var zero := if digits == [] && padding <= 0 then "0" else "";
    ghost var text := pads + digits + zero;
    n := EmitPads(buf, b, maxLen, count, pad);
    if n == maxLen {
      WroteShort(s0, buf[..], b, pads, digits + zero, n);
      assert pads + (digits + zero) == text;
      return;
    }
    ghost var s1 := buf[..];
    var m := EmitDigits(buf, b + n, maxLen - n, tmp, ndigits, digits);
    WroteMore(s0, s1, buf[..], b, pads, digits, m);
    n := n + m;
    if n == maxLen {
      WroteShort(s0, buf[..], b, pads + digits, zero, n);
      return;
    }
    assert pads + digits + "" == pads + digits;
    if ndigits == 0 && padding <= 0 {
      WroteShort(s0, buf[..], b, pads + digits, zero, n);
      Put(buf, b, n, '0', text, s0);
      n := n + 1;
    }
  }

  // ---- os_vsnprintf ----

  datatype Arg = Int(i: int) | Str(s: seq<char>)

  predicate IsDigit(c: char) {
    '0' <= c <= '9'
  }

  /** The number of digits a text starts with. */
  function DigitRun(s: seq<char>): (n: nat)
    ensures n <= |s|
  {
    if s != [] && IsDigit(s[0]) then 1 + DigitRun(s[1..]) else 0
  }

  /** The decimal value of a string of digits. */
  function Decimal(s: seq<char>): int {
    if s == [] then 0 else Decimal(s[..|s| - 1]) * 10 + (s[|s| - 1] as int - '0' as int)
  }

  /** How many characters of an option stand before the conversion character, in the text after '%'. */
  function OptionLength(s: seq<char>): (n: nat)
    ensures n <= |s|
  {
    if s != [] && s[0] == '0' then DigitRun(s) else 0
  }

  function Width(s: seq<char>): int {
    if s != [] && s[0] == '0' then Decimal(s[..DigitRun(s)]) else -1
  }

  predicate TakesArgument(conv: char) {
    conv in {'X', 'x', 'd', 'i', 'u', 'c', 's'}
  }

  predicate Suits(conv: char, args: seq<Arg>) {
    TakesArgument(conv) ==> args != [] && if conv == 's' then args[0].Str? && NUL !in args[0].s else args[0].Int?
  }

  /** The text of one conversion; an unknown one prints nothing. */
  function Convert(conv: char, width: int, args: seq<Arg>): seq<char>
    requires Suits(conv, args)
  {
    match conv
    case 'X' => RenderInt(args[0].i, 16, true, width, '0', true)
    case 'x' => RenderInt(args[0].i, 16, true, width, '0', false)
    case 'd' => RenderInt(args[0].i, 10, false, width, '0', false)
    case 'i' => RenderInt(args[0].i, 10, false, width, '0', false)
    case 'u' => RenderInt(args[0].i, 10, true, width, '0', false)
    case 'c' => [(args[0].i % 256) as char]
    case 's' => args[0].s
    case '%' => "%"
    case _ => ""
  }

  /** Every '%' has its conversion character and its argument, and no width exceeds INT_MAX. */
  predicate WellFormed(fmt: seq<char>, args: seq<Arg>)
    decreases |fmt|
  {
    if fmt == [] then true
    else if fmt[0] != '%' then fmt[0] != NUL && WellFormed(fmt[1..], args)
    else
      var s := fmt[1..];
      var k := OptionLength(s);
      && k < |s| && s[k] != NUL && Width(s) <= INT_MAX && Suits(s[k], args)
      && WellFormed(s[k + 1..], if TakesArgument(s[k]) then args[1..] else args)
  }

  /** The text of a format with unbounded room. */
  function Render(fmt: seq<char>, args: seq<Arg>): seq<char>
    requires WellFormed(fmt, args)
    decreases |fmt|
  {
    if fmt == [] then []
    else if fmt[0] != '%' then [fmt[0]] + Render(fmt[1..], args)
    else
      var s := fmt[1..];
      var k := OptionLength(s);
      Convert(s[k], Width(s), args) + Render(s[k + 1..], if TakesArgument(s[k]) then args[1..] else args)
  }

  lemma DigitRunMore(s: seq<char>)
    ensures DigitRun(s) < |s| ==> !IsDigit(s[DigitRun(s)])
    ensures forall i :: 0 <= i < DigitRun(s) ==> IsDigit(s[i])
  {
  }

  /** Lines 95 to 105: the width of a zero-padded conversion. */
  method ReadWidth(s: seq<char>) returns (width: int, k: nat)
    requires OptionLength(s) < |s| && s[0] == '0'
    ensures k == OptionLength(s) && width == Width(s)
  {
    DigitRunMore(s);
    width, k := 0, 0;
    while IsDigit(s[k])
      invariant k <= DigitRun(s) && width == Decimal(s[..k])
      decreases |s| - k
    {
      assert s[..k + 1][..k] == s[..k];
      width := width * 10 + (s[k] as int - '0' as int);
      k := k + 1;
    }
  }

  /** The text stands at `pos`, cut off after `room` characters, and nothing before it or after the next place has changed. */
  ghost predicate Into(before: seq<char>, after: seq<char>, pos: nat, room: nat, text: seq<char>) {
    var n := Min(|text|, room);
    && |after| == |before| && pos + room < |before|
    && after[..pos + n] == before[..pos] + text[..n]
    && after[pos + room + 1..] == before[pos + room + 1..]
  }

  lemma WroteInto(before: seq<char>, after: seq<char>, pos: nat, room: nat, text: seq<char>)
    requires pos + room < |before| && Wrote(before, after, pos, text, Min(|text|, room))
    ensures Into(before, after, pos, room, text)
  {
  }

  /** `strncpy`: up to n + 1 characters of the source, which is followed by NUL; at most dest[b..b + n] is written. */
  method Strncpy(dest: array<char>, b: nat, src: seq<char>, n: nat)
    requires b + n < dest.Length && NUL !in src
    modifies dest
    ensures Into(old(dest[..]), dest[..], b, n, src)
  {
    var i := 0;
    while true
      invariant i <= n && i <= |src|
      invariant forall j :: 0 <= j < b ==> dest[j] == old(dest[j])
      invariant forall j :: b + n < j < dest.Length ==> dest[j] == old(dest[j])
      invariant forall j :: 0 <= j < i ==> dest[b + j] == src[j]
      decreases n - i
    {
      var c := if i < |src| then src[i] else NUL;
      dest[b + i] := c;
      if c == NUL || i == n { break; }
      i := i + 1;
    }
  }

  /** One conversion, lines 94 to 139. */
  method ConvertInto(buf: array<char>, pos: nat, room: nat, conv: char, width: int, args: seq<Arg>) returns (n: nat)
    requires room > 0 && pos + room < buf.Length && Suits(conv, args)
    modifies buf
    ensures n == Min(|Convert(conv, width, args)|, room) && Into(old(buf[..]), buf[..], pos, room, Convert(conv, width, args))
  {
    hide Wrote, RenderInt, Into;
    match conv
    case 'X' =>
      n := PrintInt(buf, pos, room, args[0].i, 16, true, width, '0', true);
      WroteInto(old(buf[..]), buf[..], pos, room, Convert(conv, width, args));
    case 'x' =>
      n := PrintInt(buf, pos, room, args[0].i, 16, true, width, '0', false);
      WroteInto(old(buf[..]), buf[..], pos, room, Convert(conv, width, args));
    case 'd' =>
      n := PrintInt(buf, pos, room, args[0].i, 10, false, width, '0', false);
      WroteInto(old(buf[..]), buf[..], pos, room, Convert(conv, width, args));
    case 'i' =>
      n := PrintInt(buf, pos, room, args[0].i, 10, false, width, '0', false);
      WroteInto(old(buf[..]), buf[..], pos, room, Convert(conv, width, args));
    case 'u' =>
      n := PrintInt(buf, pos, room, args[0].i, 10, true, width, '0', false);
      WroteInto(old(buf[..]), buf[..], pos, room, Convert(conv, width, args));
    case 'c' =>
      n := PutOne(buf, pos, room, (args[0].i % 256) as char);
    case 's' =>
      Strncpy(buf, pos, args[0].s, room);
      n := |args[0].s|;
      if n > room { n := room; }
    case '%' =>
      n := PutOne(buf, pos, room, '%');
    case _ =>
      n := 0;
      WroteNothing(buf[..], pos, "");
      WroteInto(buf[..], buf[..], pos, room, "");
  }

  method PutOne(buf: array<char>, pos: nat, room: nat, c: char) returns (n: nat)
    requires room > 0 && pos + room < buf.Length
    modifies buf
    ensures n == 1 && Into(old(buf[..]), buf[..], pos, room, [c])
  {
    buf[pos] := c;
    n := 1;
  }

  /** `os_vsnprintf`: for every well-formed format the first buflen - 1 characters of the unbounded text and a NUL, inside the buffer. */
  method Vsnprintf(buf: array<char>, buflen: nat, fmt: seq<char>, args: seq<Arg>) returns (nwritten: nat)
    requires buflen <= buf.Length && WellFormed(fmt, args)
    modifies buf
    ensures buflen == 0 ==> nwritten == 0 && buf[..] == old(buf[..])
    ensures buflen > 0 ==> nwritten == Min(|Render(fmt, args)|, buflen - 1) + 1
    ensures buflen > 0 ==> buf[..nwritten] == Render(fmt, args)[..nwritten - 1] + [NUL] && buf[buflen..] == old(buf[buflen..])
  {
    hide WellFormed, Render, Into, Convert, Sofar, Written;
    if buflen == 0 { return 0; }
    var room: int := buflen - 1;
    if room == 0 {
      buf[0] := NUL;
      return 1;
    }
    ghost var full, was := Render(fmt, args), buf[..];
    Started(was, buflen, full);
    var pos: nat := 0;
    var rest, left := fmt, args;
    RenderEnd();
    ghost var done := false;
    while rest != []
      invariant 0 < room && pos + room == buflen - 1 && WellFormed(rest, left)
      invariant Sofar(buf[..], was, pos, buflen, full, Render(rest, left))
      invariant !done
      decreases |rest|
    {
      var n;
      ghost var s := buf[..];
      ghost var piece;
      n, rest, left, piece := Piece(buf, pos, room, rest, left);
      Advance(s, buf[..], was, pos, buflen, piece, full, Render(rest, left));
      pos := pos + n;
      room := room - n;
      if room <= 0 {
        done := true;
        break;
      }
    }
    if !done { AllWritten(buf[..], was, pos, buflen, full); }
    ghost var b := buf[..];
    Terminated(b, was, pos, buflen, full);
    buf[pos] := NUL;
    assert buf[..] == b[pos := NUL];
    nwritten := pos + 1;
  }

  /** While formatting: `pos` characters of the text are written and `more` is still to come. */
  ghost predicate Sofar(b: seq<char>, was: seq<char>, pos: nat, buflen: nat, full: seq<char>, more: seq<char>) {
    pos < buflen <= |b| == |was| && full == b[..pos] + more && b[buflen..] == was[buflen..]
  }

  /** At the end: all of the text, or as much as there was room for. */
  ghost predicate Written(b: seq<char>, was: seq<char>, pos: nat, buflen: nat, full: seq<char>) {
    pos < buflen <= |b| == |was| && pos == Min(|full|, buflen - 1) && b[..pos] == full[..pos] && b[buflen..] == was[buflen..]
  }

  lemma Started(was: seq<char>, buflen: nat, full: seq<char>)
    requires 0 < buflen <= |was|
    ensures Sofar(was, was, 0, buflen, full, full)
  {
  }

  lemma AllWritten(b: seq<char>, was: seq<char>, pos: nat, buflen: nat, full: seq<char>)
    requires Sofar(b, was, pos, buflen, full, [])
    ensures Written(b, was, pos, buflen, full)
  {
  }

  lemma Terminated(b: seq<char>, was: seq<char>, pos: nat, buflen: nat, full: seq<char>)
    requires Written(b, was, pos, buflen, full)
    ensures pos < |b| == |was| && pos == Min(|full|, buflen - 1)
    ensures var b' := b[pos := NUL]; b'[..pos + 1] == full[..pos] + [NUL] && b'[buflen..] == was[buflen..]
  {
    var b' := b[pos := NUL];
    assert b'[..pos + 1] == b[..pos] + [NUL];
    assert b'[buflen..] == b[buflen..];
  }

  lemma RenderEnd()
    ensures forall args :: WellFormed([], args) && Render([], args) == []
  {
  }

  lemma Advance(b: seq<char>, b': seq<char>, was: seq<char>, pos: nat, buflen: nat, piece: seq<char>, full: seq<char>, more: seq<char>)
    requires Sofar(b, was, pos, buflen, full, piece + more) && Into(b, b', pos, buflen - 1 - pos, piece)
    ensures |piece| < buflen - 1 - pos ==> Sofar(b', was, pos + |piece|, buflen, full, more)
    ensures |piece| >= buflen - 1 - pos ==> Written(b', was, buflen - 1, buflen, full)
  {
    var n := Min(|piece|, buflen - 1 - pos);
    assert b'[..pos + n] == b[..pos] + piece[..n];
    assert full[..pos + n] == b[..pos] + piece[..n];
    if n == |piece| { assert piece[..n] == piece && full == b'[..pos + n] + more; }
  }

  /** The next character or conversion of the format. */
  method Piece(buf: array<char>, pos: nat, room: nat, fmt: seq<char>, args: seq<Arg>)
    returns (n: nat, rest: seq<char>, left: seq<Arg>, ghost piece: seq<char>)
    requires room > 0 && pos + room < buf.Length && fmt != [] && WellFormed(fmt, args)
    modifies buf
    ensures |rest| < |fmt| && WellFormed(rest, left) && Render(fmt, args) == piece + Render(rest, left)
    ensures n == Min(|piece|, room) && Into(old(buf[..]), buf[..], pos, room, piece)
  {
    hide Into, Convert;
    if fmt[0] == '%' {
      var s := fmt[1..];
      var width, k := -1, 0;
      if s[0] == '0' {
        width, k := ReadWidth(s);
      }
      n := ConvertInto(buf, pos, room, s[k], width, args);
      piece := Convert(s[k], width, args);
      left := if TakesArgument(s[k]) then args[1..] else args;
      rest := s[k + 1..];
    } else {
      n := PutOne(buf, pos, room, fmt[0]);
      rest, left, piece := fmt[1..], args, [fmt[0]];
    }
  }
}
