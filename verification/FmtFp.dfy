/** The exact limb arithmetic of `fmt_fp` (src/user/libc/stdio/vfprintf.c:294-330): a binary floating-point number is turned
    into base-10^9 limbs, most significant first, by repeated multiplication or division by powers of two.
    A finite `y` is given exactly as m / 2^f. */
module FmtFp {
  import opened Arith

  const BASE := 1_000_000_000

  /** The number written by limbs a..z, as an integer. */
  ghost function Val(s: seq<int>, a: int, z: int): int
    requires 0 <= a && z <= |s|
    decreases z - a
  {
    if a >= z then 0 else s[a] * Pow(BASE, z - a - 1) + Val(s, a + 1, z)
  }

  /** The same number with the radix point held at the end of the array, so that moving `z` does not rescale it. */
  ghost function Scaled(s: seq<int>, a: int, z: int): int
    requires 0 <= a && 0 <= z <= |s|
  {
    Val(s, a, z) * Pow(BASE, |s| - z)
  }

  ghost predicate Limbs(s: seq<int>, a: int, z: int)
    requires 0 <= a && z <= |s|
  {
    forall i :: a <= i < z ==> 0 <= s[i] < BASE
  }

  // ----- Facts about Val -----

  /** Peeling off the last limb instead of the first. */
  lemma {:induction false} ValLast(s: seq<int>, a: int, z: int)
    requires 0 <= a < z <= |s|
    ensures Val(s, a, z) == Val(s, a, z - 1) * BASE + s[z - 1]
    decreases z - a
  {
    if a + 1 < z {
      ValLast(s, a + 1, z);
      assert Pow(BASE, z - a - 1) == BASE * Pow(BASE, z - a - 2);
      var p := Pow(BASE, z - a - 2);
      assert s[a] * (BASE * p) == s[a] * p * BASE;
    } else {
      assert Pow(BASE, 0) == 1;
    }
  }

  lemma {:induction false} ValFrame(s: seq<int>, t: seq<int>, a: int, z: int)
    requires 0 <= a && z <= |s| && z <= |t| && forall i :: a <= i < z ==> s[i] == t[i]
    ensures Val(s, a, z) == Val(t, a, z)
    decreases z - a
  {
    if a < z {
      ValFrame(s, t, a + 1, z);
    }
  }

  lemma {:induction false} ValNonNegative(s: seq<int>, a: int, z: int)
    requires 0 <= a && z <= |s| && Limbs(s, a, z)
    ensures Val(s, a, z) >= 0
    decreases z - a
  {
    if a < z {
      ValNonNegative(s, a + 1, z);
    }
  }

  /** A zero last limb can be dropped, a zero first limb can be skipped, and a last limb appended. */
  lemma ScaledDropLast(s: seq<int>, a: int, z: int)
    requires 0 <= a < z <= |s| && s[z - 1] == 0
    ensures Scaled(s, a, z - 1) == Scaled(s, a, z)
  {
    ValLast(s, a, z);
    var v, p := Val(s, a, z - 1), Pow(BASE, |s| - z);
    assert Pow(BASE, |s| - z + 1) == BASE * p;
    assert v * (BASE * p) == v * BASE * p;
  }

  // ----- One pass upwards -----

  /** Multiplies limbs a..z by 2^sh in place, least significant limb first (lines 307-311). */
  method MultiplyPass(big: array<int>, a: int, z: int, sh: nat) returns (carry: int)
    requires 0 <= a <= z <= big.Length && sh <= 29 && Limbs(big[..], a, z)
    modifies big
    ensures Limbs(big[..], a, z) && 0 <= carry < Pow(2, sh)
    ensures forall i :: 0 <= i < big.Length && !(a <= i < z) ==> big[i] == old(big[i])
    ensures carry * Pow(BASE, z - a) + Val(big[..], a, z) == Pow(2, sh) * old(Val(big[..], a, z))
  {
    ghost var s, p := big[..], Pow(2, sh);
    PowPositive(2, sh);
    carry := 0;
    var d := z;
    while d > a
      invariant a <= d <= z && 0 <= carry < p && Limbs(big[..], a, z)
      invariant forall i :: 0 <= i < big.Length && !(d <= i < z) ==> big[i] == s[i]
      invariant carry * Pow(BASE, z - d) + Val(big[..], d, z) == p * Val(s, d, z)
    {
      d := d - 1;
      var x := big[d] * Pow(2, sh) + carry;
      ghost var c, t := carry, big[..];
      CarryBound(big[d], p, carry);
      big[d] := x % BASE;
      carry := x / BASE;
      ValFrame(t, big[..], d + 1, z);
      MultiplyStep(s[d], p, c, Pow(BASE, z - d - 1), Val(t, d + 1, z), Val(s, d + 1, z));
    }
  }

  lemma CarryBound(limb: int, p: int, carry: int)
    requires 0 <= limb < BASE && 0 < p && 0 <= carry < p
    ensures 0 <= (limb * p + carry) / BASE < p && 0 <= (limb * p + carry) % BASE < BASE
  {
    MulMonotone(limb, BASE - 1, p);
    var x := limb * p + carry;
    assert x == BASE * (x / BASE) + x % BASE;
    if x / BASE >= p {
      MulMonotone(p, x / BASE, BASE);
    }
  }

  lemma MultiplyStep(limb: int, p: int, carry: int, w: int, done: int, was: int)
    requires carry * w + done == p * was
    ensures var x := limb * p + carry;
      x / BASE * (BASE * w) + (x % BASE * w + done) == p * (limb * w + was)
  {
  }

  /** Lines 304-315: scales the limbs up by 2^e2, at most 29 bits a pass. */
  method ScaleUp(big: array<int>, a0: int, z0: int, e2: nat) returns (a: int, z: int)
    requires 0 <= a0 < z0 <= big.Length && Limbs(big[..], a0, z0) && (e2 + 28) / 29 <= a0
    modifies big
    ensures 0 <= a <= a0 && a <= z <= z0 && Limbs(big[..], a, z)
    ensures Scaled(big[..], a, z) == Pow(2, e2) * old(Scaled(big[..], a0, z0))
    ensures forall i :: z0 <= i < big.Length ==> big[i] == old(big[i])
  {
    a, z := a0, z0;
    var e := e2;
    ghost var start := Scaled(big[..], a0, z0);
    assert Pow(2, 0) == 1;
    while e > 0
      invariant 0 <= e <= e2 && 0 <= a <= a0 && a <= z <= z0 && (e + 28) / 29 <= a && Limbs(big[..], a, z)
      invariant Scaled(big[..], a, z) == Pow(2, e2 - e) * start
      invariant forall i :: z0 <= i < big.Length ==> big[i] == old(big[i])
    {
      var sh := if e < 29 then e else 29;
      a, z := UpPass(big, a, z, sh);
      PowAdd(2, e2 - e, sh);
      PowProduct(Pow(2, sh), Pow(2, e2 - e), start);
      e := e - sh;
    }
  }

  lemma PowProduct(p: int, q: int, v: int)
    ensures p * (q * v) == q * p * v
  {
  }

  /** One round of the upward loop: a pass, then a zero last limb dropped and the carry put in front. */
  method UpPass(big: array<int>, a0: int, z0: int, sh: nat) returns (a: int, z: int)
    requires 0 < a0 <= z0 <= big.Length && Limbs(big[..], a0, z0) && 0 < sh <= 29
    modifies big
    ensures a0 - 1 <= a <= a0 && a <= z <= z0 && Limbs(big[..], a, z)
    ensures Scaled(big[..], a, z) == Pow(2, sh) * old(Scaled(big[..], a0, z0))
    ensures forall i :: z0 <= i < big.Length ==> big[i] == old(big[i])
  {
    hide Val, Pow, Scaled;
    a, z := a0, z0;
    ghost var s := big[..];
    var carry := MultiplyPass(big, a, z, sh);
    ghost var t := big[..];
    PassScaled(s, t, a, z, Pow(2, sh), carry);
    if big[z - 1] == 0 && z > a {
      ScaledDropLast(t, a, z);
      z := z - 1;
    }
    Pow2Small(sh);
    if carry != 0 {
      a := a - 1;
      big[a] := carry;
      ScaledPush(t, a + 1, z, carry);
      assert big[..] == t[a := carry];
    }
  }

  lemma PassScaled(s: seq<int>, t: seq<int>, a: int, z: int, p: int, carry: int)
    requires 0 <= a <= z <= |s| == |t| && carry * Pow(BASE, z - a) + Val(t, a, z) == p * Val(s, a, z)
    ensures carry * Pow(BASE, |s| - a) + Scaled(t, a, z) == p * Scaled(s, a, z)
  {
    PowAdd(BASE, z - a, |s| - z);
    Distribute(carry, Pow(BASE, z - a), Val(t, a, z), p, Val(s, a, z), Pow(BASE, |s| - z));
  }

  lemma Distribute(carry: int, q: int, x: int, p: int, y: int, w: int)
    requires carry * q + x == p * y
    ensures carry * (q * w) + x * w == p * (y * w)
  {
  }

  lemma ScaledPush(s: seq<int>, a: int, z: int, carry: int)
    requires 0 < a <= z <= |s|
    ensures Scaled(s[a - 1 := carry], a - 1, z) == carry * Pow(BASE, |s| - a) + Scaled(s, a, z)
  {
    var t := s[a - 1 := carry];
    ValFrame(s, t, a, z);
    PowAdd(BASE, z - a, |s| - z);
    assert Val(t, a - 1, z) == carry * Pow(BASE, z - a) + Val(t, a, z);
    hide Val, Pow;
    SplitArithmetic(carry, Pow(BASE, z - a), Val(s, a, z), Pow(BASE, |s| - z));
  }

  lemma Pow2Small(sh: nat)
    requires sh <= 29
    ensures Pow(2, sh) < BASE
  {
    PowMonotone(2, sh, 29);
    assert Pow(2, 9) == 512 && Pow(2, 2) == 4;
    PowAdd(2, 9, 9);
    PowAdd(2, 18, 9);
    PowAdd(2, 27, 2);
  }

  // ----- One pass downwards -----

  /** Divides limbs a..z by 2^sh in place, most significant limb first (lines 319-323). What is left over is `carry`,
      the limb that would follow. */
  method DividePass(big: array<int>, a: int, z: int, sh: nat) returns (carry: int)
    requires 0 <= a <= big.Length && 0 <= z <= big.Length && 0 < sh <= 9 && Limbs(big[..], a, z)
    modifies big
    ensures Limbs(big[..], a, z) && 0 <= carry < BASE && (a >= z ==> carry == 0)
    ensures forall i :: 0 <= i < big.Length && !(a <= i < z) ==> big[i] == old(big[i])
    ensures Pow(2, sh) * (Val(big[..], a, z) * BASE + carry) == old(Val(big[..], a, z)) * BASE
    ensures a < z && old(big[a]) > 0 && big[a] == 0 ==> if a + 1 < z then big[a + 1] > 0 else carry > 0
  {
    hide Val, Pow, Divided, Handed, Top;
    ghost var s := big[..];
    var p := Pow(2, sh);
    PowDividesBase(sh);
    DividedNone(p, s, a);
    TopBelow(p);
    carry := 0;
    var d := a;
    while d < z
      invariant a <= d && (d <= z || d == a) && (d == a ==> carry == 0)
      invariant 0 <= carry <= Top(p) && Limbs(big[..], a, z)
      invariant forall i :: 0 <= i < big.Length && !(a <= i < d) ==> big[i] == s[i]
      invariant Divided(p, Val(big[..], a, d), carry, Val(s, a, d))
      invariant d > a ==> Handed(s[a], big[a], if d == a + 1 then carry else big[a + 1])
    {
      ghost var c, t := carry, big[..];
      big[d], carry := DivideLimb(big[d], p, carry, Val(t, a, d), Val(s, a, d));
      ValFrame(t, big[..], a, d);
      ValLast(s, a, d + 1);
      ValLast(big[..], a, d + 1);
      if d == a + 1 { HandedMore(s[a], big[a], c, big[d]); }
      d := d + 1;
    }
    DividedEnd(p, big[..], s, a, z, d, carry);
    if a < z { HandedMeans(s[a], big[a], if d == a + 1 then carry else big[a + 1]); }
  }

  /** The greatest carry. */
  function Top(p: int): int
    requires p > 0
  {
    BASE - BASE / p
  }

  lemma TopBelow(p: int)
    requires p > 0 && BASE / p >= 1
    ensures 0 <= Top(p) < BASE
  {
  }

  /** Lines 320 to 322 for one limb. */
  method DivideLimb(limb: int, p: int, carry: int, ghost now: int, ghost was: int) returns (limb': int, carry': int)
    requires 0 <= limb < BASE && p > 0 && BASE % p == 0 && BASE / p >= 1 && 0 <= carry <= Top(p) && Divided(p, now, carry, was)
    ensures carry <= limb' < BASE && 0 <= carry' <= Top(p)
    ensures Divided(p, now * BASE + limb', carry', was * BASE + limb)
    ensures carry == 0 ==> Handed(limb, limb', carry')
  {
    DivideBound(limb, p, carry);
    DivideStep(limb, p, carry, now, was);
    FirstRemainder(limb, p);
    hide Divided, Handed;
    var rm := limb % p;
    limb' := limb / p + carry;
    carry' := BASE / p * rm;
  }

  /** `was` divided by `p` is `now`, with `carry` as the limb after it. */
  ghost predicate Divided(p: int, now: int, carry: int, was: int) {
    p * (now * BASE + carry) == was * BASE
  }

  ghost predicate Handed(limb: int, now: int, next: int) {
    limb > 0 && now == 0 ==> next > 0
  }

  lemma HandedMore(limb: int, now: int, next: int, next': int)
    requires Handed(limb, now, next) && next <= next'
    ensures Handed(limb, now, next')
  {
  }

  lemma HandedMeans(limb: int, now: int, next: int)
    requires Handed(limb, now, next)
    ensures limb > 0 && now == 0 ==> next > 0
  {
  }

  /** A first limb that becomes 0 goes into the carry. */
  lemma FirstRemainder(limb: int, p: int)
    requires p > 0 && BASE / p >= 1
    ensures Handed(limb, limb / p, BASE / p * (limb % p))
  {
    if limb > 0 && limb / p == 0 { MulAtLeast(BASE / p, limb % p); }
  }

  /** The first limb is not 0, unless all are. */
  ghost predicate Leading(s: seq<int>, a: int, z: int)
    requires 0 <= a && z <= |s|
  {
    a < z ==> s[a] > 0 || Val(s, a, z) == 0
  }

  lemma DividedNone(p: int, s: seq<int>, a: int)
    requires 0 <= a <= |s|
    ensures Divided(p, Val(s, a, a), 0, Val(s, a, a))
  {
  }

  lemma DividedEnd(p: int, t: seq<int>, s: seq<int>, a: int, z: int, d: int, carry: int)
    requires 0 <= a && 0 <= z <= |s| == |t| && a <= d <= |s| && (d == z || d == a >= z) && Divided(p, Val(t, a, d), carry, Val(s, a, d))
    ensures p * (Val(t, a, z) * BASE + carry) == Val(s, a, z) * BASE
  {
  }

  lemma PowDividesBase(sh: nat)
    requires 0 < sh <= 9
    ensures Pow(2, sh) > 0 && BASE % Pow(2, sh) == 0 && BASE / Pow(2, sh) >= 1
  {
    assert Pow(2, 1) == 2 && Pow(2, 2) == 4 && Pow(2, 3) == 8 && Pow(2, 4) == 16 && Pow(2, 5) == 32;
    assert Pow(2, 6) == 64 && Pow(2, 7) == 128 && Pow(2, 8) == 256 && Pow(2, 9) == 512;
  }

  lemma DivideBound(limb: int, p: int, carry: int)
    requires 0 <= limb < BASE && p > 0 && BASE % p == 0 && 0 <= carry <= BASE - BASE / p
    ensures 0 <= limb / p + carry < BASE && 0 <= BASE / p * (limb % p) <= BASE - BASE / p
  {
  }

  lemma DivideStep(limb: int, p: int, carry: int, now: int, was: int)
    requires p > 0 && BASE % p == 0 && Divided(p, now, carry, was)
    ensures var q, rm := limb / p, limb % p;
      Divided(p, now * BASE + (q + carry), BASE / p * rm, was * BASE + limb)
  {
  }

  /** One round of the downward loop without the cut: a pass, a zero first limb skipped, the remainder appended. Nothing is lost. */
  method DownPass(big: array<int>, a0: int, z0: int, sh: nat) returns (a: int, z: int)
    requires 0 <= a0 < big.Length && 0 <= z0 < big.Length && 0 < sh <= 9 && Limbs(big[..], a0, z0)
    modifies big
    ensures a0 <= a <= a0 + 1 && z0 <= z <= z0 + 1 && Limbs(big[..], a, z)
    ensures Pow(2, sh) * Scaled(big[..], a, z) == old(Scaled(big[..], a0, z0))
    ensures old(Leading(big[..], a0, z0)) ==> Leading(big[..], a, z)
  {
    hide Val, Pow, Scaled;
    a, z := a0, z0;
    ghost var s := big[..];
    var carry := DividePass(big, a, z, sh);
    ghost var t := big[..];
    if big[a] == 0 {
      SkipFirst(t, a, z);
      a := a + 1;
    }
    if carry != 0 {
      big[z] := carry;
      z := z + 1;
      assert big[..] == t[z0 := carry];
      ScaledAppend(s, t, a0, z0, a, Pow(2, sh), carry);
    } else {
      ScaledNoCarry(s, t, a0, z0, Pow(2, sh));
    }
    PowPositive(2, sh);
    if a0 >= z0 || s[a0] <= 0 { NothingLeads(s, big[..], a0, z0, a, z, Pow(2, sh)); }
  }

  /** Nothing stays nothing. */
  lemma NothingLeads(s: seq<int>, t: seq<int>, a0: int, z0: int, a: int, z: int, p: int)
    requires 0 <= a0 && 0 <= z0 <= |s| == |t| && 0 <= a && 0 <= z <= |t| && p * Scaled(t, a, z) == Scaled(s, a0, z0) && p > 0
    requires a0 < z0 ==> s[a0] <= 0
    ensures Leading(s, a0, z0) ==> Leading(t, a, z)
  {
    if Leading(s, a0, z0) {
      hide Pow;
      assert Scaled(s, a0, z0) == 0 * Pow(BASE, |s| - z0) == 0;
      CancelLeft(p, Scaled(t, a, z), 0);
      PowPositive(BASE, |t| - z);
      CancelLeft(Pow(BASE, |t| - z), Val(t, a, z), 0);
    }
  }

  lemma SkipFirst(s: seq<int>, a: int, z: int)
    requires 0 <= a < |s| && 0 <= z <= |s| && s[a] == 0
    ensures Val(s, a + 1, z) == Val(s, a, z) && Scaled(s, a + 1, z) == Scaled(s, a, z)
  {
  }

  lemma ScaledNoCarry(s: seq<int>, t: seq<int>, a: int, z: int, p: int)
    requires 0 <= a && 0 <= z <= |s| == |t| && p * (Val(t, a, z) * BASE + 0) == Val(s, a, z) * BASE
    ensures p * Scaled(t, a, z) == Scaled(s, a, z)
  {
  }

  lemma ScaledAppend(s: seq<int>, t: seq<int>, a0: int, z: int, a: int, p: int, carry: int)
    requires 0 <= a0 < z < |s| == |t| && (a == a0 || (a == a0 + 1 && t[a0] == 0))
    requires p * (Val(t, a0, z) * BASE + carry) == Val(s, a0, z) * BASE
    ensures p * Scaled(t[z := carry], a, z + 1) == Scaled(s, a0, z)
  {
    var u := t[z := carry];
    ValFrame(t, u, a0, z);
    ValLast(u, a0, z + 1);
    if a == a0 + 1 {
      SkipFirst(u, a0, z + 1);
    }
    assert Pow(BASE, |s| - z) == BASE * Pow(BASE, |s| - z - 1);
    AppendArithmetic(p, Val(t, a0, z) * BASE + carry, Val(s, a0, z), Pow(BASE, |s| - z - 1));
  }

  lemma AppendArithmetic(p: int, x: int, y: int, w: int)
    requires p * x == y * BASE
    ensures p * (x * w) == y * (BASE * w)
  {
  }

  /** How many passes of at most 9 bits it takes. */
  function Passes(e: nat): nat {
    (e + 8) / 9
  }

  lemma PassesLeft(e: nat, sh: nat)
    requires e > 0 && sh == if e < 9 then e else 9
    ensures Passes(e) == Passes(e - sh) + 1
  {
  }

  /** Lines 316-330: scales the limbs down by 2^e, at most 9 bits a pass, keeping at most `need` limbs after the radix
      limb `r` (`%f`) or after the first limb (otherwise). With `%f` the result is the exact number rounded down to whole units of the
      limb `need` places after `r`, although the cut is made again in every round. Otherwise it is exact if the number is a multiple
      of that unit, and in any case too small by less than two of them. */
  method ScaleDown(big: array<int>, r: int, a0: int, z0: int, e2: nat, fixed: bool, need: nat)
    returns (a: int, z: int, ghost lost: int)
    requires 0 <= r <= a0 && 0 <= z0 && z0 + Passes(e2) <= big.Length && a0 + Passes(e2) < big.Length
    requires Limbs(big[..], a0, z0)
    modifies big
    ensures a0 <= a < big.Length && 0 <= z <= big.Length && Limbs(big[..], a, z)
    ensures Pow(2, e2) * Scaled(big[..], a, z) + lost == old(Scaled(big[..], a0, z0)) && lost >= 0
    ensures z0 + Passes(e2) - r <= need || r + need >= big.Length ==> lost == 0
    ensures lost > 0 ==> lost < Pow(2, e2) * (2 * Pow(BASE, big.Length - r - need))
    ensures r + need < big.Length && Multiple(old(Scaled(big[..], a0, z0)), Pow(2, e2) * Pow(BASE, big.Length - r - need)) ==> lost == 0
    ensures fixed && e2 > 0 && r + need < big.Length ==>
      var unit := Pow(BASE, big.Length - r - need);
      && Multiple(Scaled(big[..], a, z), unit) && lost < Pow(2, e2) * unit
      && (lost == 0 <==> Multiple(old(Scaled(big[..], a0, z0)), Pow(2, e2) * unit))
    ensures !fixed && need > 0 && old(Leading(big[..], a0, z0)) ==>
      Small(lost, Pow(BASE, need - 1), Passes(e2), old(Scaled(big[..], a0, z0)))
  {
    assert Pow(2, 0) == 1;
    ghost var g, led := if need > 0 then Pow(BASE, need - 1) else 0, !fixed && need > 0 && Leading(big[..], a0, z0);
    ScaledNonNegative(big[..], a0, z0);
    hide Leading, Small, Going, Val, Scaled, Pow, Unit, Loses, Floors, Spares, Passes, Multiple;
    a, z, lost := a0, z0, 0;
    var e := e2;
    ghost var start, unit := Scaled(big[..], a0, z0), Unit(big.Length, r + need);
    NothingLost(start, unit, e2, fixed);
    NothingSmall(g, start);
    while e > 0
      invariant 0 <= e <= e2 && a0 <= a && 0 <= z && z + Passes(e) <= z0 + Passes(e2) && a + Passes(e) < big.Length
      invariant Limbs(big[..], a, z) && (z0 + Passes(e2) - r <= need || r + need >= big.Length ==> lost == 0)
      invariant Going(e2, e, Scaled(big[..], a, z), lost, start, unit, fixed)
      invariant led ==> Leading(big[..], a, z) && Small(lost, g, Passes(e2) - Passes(e), start)
    {
      var sh := if e < 9 then e else 9;
      PassesLeft(e, sh);
      a, z, lost := LossyRound(big, r, a, z, e2, e, sh, fixed, need, unit, lost, start, led, Passes(e2) - Passes(e));
      e := e - sh;
    }
    assert Passes(0) == 0;
    GoingMeans(e2, Scaled(big[..], a, z), lost, start, unit, fixed);
    LossBound(Pow(2, e2), Scaled(big[..], a, z), lost, start, big.Length, r + need, fixed && e2 > 0);
  }

  /** The number divided by `p` so far, what has been lost on the way, and how much that can be. */
  ghost predicate Loses(p: nat, w: int, lost: int, start: int, unit: nat) {
    p * w + lost == start && 0 <= lost <= 2 * (p - 1) * unit
  }

  /** A multiple of the unit at the end, `p * rest` divisions later, has lost nothing. */
  ghost predicate Spares(p: nat, rest: nat, lost: int, start: int, unit: nat) {
    Multiple(start, p * rest * unit) ==> lost == 0
  }

  /** What is left is a whole number of units, and what is lost is less than one. */
  ghost predicate Floors(p: nat, w: int, lost: int, unit: nat, first: bool) {
    if first then p == 1 && lost == 0 else unit > 0 ==> Multiple(w, unit) && lost < p * unit
  }

  /** After `k` rounds, each of which has lost at most the g-th part of the whole. */
  ghost predicate Small(lost: int, g: nat, k: int, start: int) {
    lost * g <= k * start
  }

  lemma NothingSmall(g: nat, start: int)
    ensures Small(0, g, 0, start)
  {
  }

  lemma ScaledNonNegative(s: seq<int>, a: int, z: int)
    requires 0 <= a && 0 <= z <= |s| && Limbs(s, a, z)
    ensures Scaled(s, a, z) >= 0
  {
    if a <= z { ValBelow(s, a, z); }
    PowPositive(BASE, |s| - z);
    hide Val, Pow;
    MulMonotone(0, Val(s, a, z), Pow(BASE, |s| - z));
  }

  /** A round with `e` of the `e2` bits still to go loses at most the g-th part of what is kept. */
  lemma StillSmall(e2: nat, e: nat, sh: nat, v: int, w: int, cut: int, unit: nat, lost: int, lost': int, start: int, g: nat, k: int)
    requires 0 < sh <= e <= e2 && Pow(2, sh) * (w + cut) == v && cut * g <= w && Small(lost, g, k, start)
    requires Loses(Pow(2, e2 - e), v, lost, start, unit) && Loses(Pow(2, e2 - (e - sh)), w, lost', start, unit)
    ensures Small(lost', g, k + 1, start)
  {
    PowAdd(2, e2 - e, sh);
    PowPositive(2, e2 - e + sh);
    hide Pow;
    SmallStep(Pow(2, e2 - e), Pow(2, sh), v, w, cut, lost, lost', start, g, k);
  }

  lemma SmallStep(p: nat, q: nat, v: int, w: int, cut: int, lost: int, lost': int, start: int, g: nat, k: int)
    requires q * (w + cut) == v && cut * g <= w && lost * g <= k * start && lost' >= 0
    requires p * v + lost == start && p * q * w + lost' == start
    ensures lost' * g <= (k + 1) * start
  {
    MulAssociative(p, q, w + cut);
    assert lost' == lost + p * q * cut;
    MulMonotone(cut * g, w, p * q);
    assert p * q * cut * g == cut * g * (p * q);
  }

  /** What holds of the loss with `e` of the `e2` bits still to go. */
  ghost predicate Going(e2: nat, e: nat, w: int, lost: int, start: int, unit: nat, fixed: bool) {
    && e <= e2 && Loses(Pow(2, e2 - e), w, lost, start, unit) && Spares(Pow(2, e2 - e), Pow(2, e), lost, start, unit)
    && (fixed ==> Floors(Pow(2, e2 - e), w, lost, unit, e == e2))
  }

  lemma NothingLost(start: int, unit: nat, e2: nat, fixed: bool)
    ensures Going(e2, e2, start, 0, start, unit, fixed)
  {
    assert Pow(2, 0) == 1;
  }

  lemma GoingMeans(e2: nat, w: int, lost: int, start: int, unit: nat, fixed: bool)
    requires Going(e2, 0, w, lost, start, unit, fixed)
    ensures Loses(Pow(2, e2), w, lost, start, unit) && Spares(Pow(2, e2), 1, lost, start, unit)
    ensures fixed ==> Floors(Pow(2, e2), w, lost, unit, 0 == e2)
  {
    assert Pow(2, 0) == 1;
  }

  /** A round and what it loses. */
  method LossyRound(big: array<int>, r: int, a0: int, z0: int, e2: nat, e: nat, sh: nat, fixed: bool, need: nat,
                    ghost unit: nat, ghost lost: int, ghost start: int, ghost led: bool, ghost k: int)
    returns (a: int, z: int, ghost lost': int)
    requires 0 <= r <= a0 < big.Length && 0 <= z0 < big.Length && 0 < sh <= 9 && sh <= e && Limbs(big[..], a0, z0)
    requires unit == Unit(big.Length, r + need) && Going(e2, e, Scaled(big[..], a0, z0), lost, start, unit, fixed)
    requires led ==> !fixed && need > 0 && Leading(big[..], a0, z0) && Small(lost, Pow(BASE, need - 1), k, start)
    modifies big
    ensures a0 <= a <= a0 + 1 && 0 <= z <= z0 + 1 && Limbs(big[..], a, z)
    ensures Going(e2, e - sh, Scaled(big[..], a, z), lost', start, unit, fixed)
    ensures lost == 0 && (z0 + 1 - r <= need || r + need >= big.Length) ==> lost' == 0
    ensures led ==> Leading(big[..], a, z) && Small(lost', Pow(BASE, need - 1), k + 1, start)
  {
    hide Leading, Small, Val, Scaled, Pow, Unit, Loses, Floors, Spares, Cuts, Limbs;
    ghost var v := Scaled(big[..], a0, z0);
    ghost var cut;
    a, z, cut := DownRound(big, r, a0, z0, sh, fixed, need);
    lost' := AfterRound(e2, e, sh, v, Scaled(big[..], a, z), cut, unit, lost, start, fixed);
    if led { StillSmall(e2, e, sh, v, Scaled(big[..], a, z), cut, unit, lost, lost', start, Pow(BASE, need - 1), k); }
  }

  /** One round of the downward loop with the cut. */
  method DownRound(big: array<int>, r: int, a0: int, z0: int, sh: nat, fixed: bool, need: nat)
    returns (a: int, z: int, ghost cut: int)
    requires 0 <= r <= a0 < big.Length && 0 <= z0 < big.Length && 0 < sh <= 9 && Limbs(big[..], a0, z0)
    modifies big
    ensures a0 <= a <= a0 + 1 && 0 <= z <= z0 + 1 && Limbs(big[..], a, z)
    ensures Pow(2, sh) * (Scaled(big[..], a, z) + cut) == old(Scaled(big[..], a0, z0))
    ensures cut >= 0 && (z0 + 1 - r <= need || r + need >= big.Length ==> cut == 0)
    ensures Cuts(Scaled(big[..], a, z), cut, Unit(big.Length, r + need), fixed)
    ensures need > 0 && old(Leading(big[..], a0, z0)) ==> Leading(big[..], a, z)
    ensures need > 0 && old(Leading(big[..], a0, z0)) && !fixed ==> cut * Pow(BASE, need - 1) <= Scaled(big[..], a, z)
  {
    hide Val, Scaled, Pow, Multiple, Cuts, Leading;
    a, z := DownPass(big, a0, z0, sh);
    cut := 0;
    var b := if fixed then r else a;
    if z - b > need {
      CutTail(big[..], a, z, b + need, r + need, fixed);
      cut := Scaled(big[..], a, z) - Scaled(big[..], a, b + need);
      if need > 0 && Leading(big[..], a, z) { CutLeading(big[..], a, z, b + need, need); }
      z := b + need;
    } else {
      NoCut(big[..], a, z, r + need, fixed);
      NothingCut(big[..], a, z, need);
    }
  }

  /** What a cut at or after the unit's limb drops: less than a unit, and nothing of a multiple. With `%f` a multiple is left. */
  ghost predicate Cuts(w: int, cut: int, unit: nat, fixed: bool) {
    0 <= cut <= unit && (unit > 0 ==> cut < unit && (Multiple(w + cut, unit) ==> cut == 0) && (fixed ==> Multiple(w, unit)))
  }

  lemma NoCut(s: seq<int>, a: int, z: int, k: int, fixed: bool)
    requires 0 <= a && 0 <= z <= |s| && 0 <= k && (fixed ==> z <= k)
    ensures Cuts(Scaled(s, a, z), 0, Unit(|s|, k), fixed)
  {
    hide Scaled, Multiple, Pow;
    if k < |s| { PowPositive(BASE, |s| - k); }
    if k < |s| && z <= k { ScaledMultiple(s, a, z, k); }
  }

  lemma RoundArithmetic(p: nat, q: nat, rest: nat, v: int, w: int, cut: int, unit: nat, lost: int, start: int, fixed: bool, first: bool)
    returns (lost': int)
    requires p > 0 && q >= 2 && rest > 0 && q * (w + cut) == v && Cuts(w, cut, unit, fixed)
    requires Loses(p, v, lost, start, unit) && Spares(p, q * rest, lost, start, unit) && (fixed ==> Floors(p, v, lost, unit, first))
    ensures Loses(p * q, w, lost', start, unit) && Spares(p * q, rest, lost', start, unit) && (fixed ==> Floors(p * q, w, lost', unit, false))
    ensures (lost' == 0 <==> lost == 0 && cut == 0)
  {
    hide Multiple, Spares, Floors;
    var more := CutArithmetic(p, q, v, w + cut, w);
    CutBound(p, q, unit, lost, more, cut);
    lost' := lost + more;
    SparesRound(p, q, rest, v, w, cut, unit, lost, lost', start, fixed);
    if fixed { FloorsRound(p, q, v, w, cut, unit, lost, lost', first); }
  }

  /** A round of the loop with `e` of the `e2` bits still to go. */
  lemma AfterRound(e2: nat, e: nat, sh: nat, v: int, w: int, cut: int, unit: nat, lost: int, start: int, fixed: bool)
    returns (lost': int)
    requires 0 < sh <= e <= e2 && Pow(2, sh) * (w + cut) == v && Cuts(w, cut, unit, fixed)
    requires Loses(Pow(2, e2 - e), v, lost, start, unit) && Spares(Pow(2, e2 - e), Pow(2, e), lost, start, unit)
    requires fixed ==> Floors(Pow(2, e2 - e), v, lost, unit, e == e2)
    ensures Loses(Pow(2, e2 - (e - sh)), w, lost', start, unit) && Spares(Pow(2, e2 - (e - sh)), Pow(2, e - sh), lost', start, unit)
    ensures fixed ==> Floors(Pow(2, e2 - (e - sh)), w, lost', unit, false)
    ensures lost' == 0 <==> lost == 0 && cut == 0
  {
    hide Cuts, Loses, Spares, Floors, Pow;
    PowAdd(2, e2 - e, sh);
    PowAdd(2, sh, e - sh);
    Doubles(sh);
    PowPositive(2, e2 - e);
    PowPositive(2, e - sh);
    lost' := RoundArithmetic(Pow(2, e2 - e), Pow(2, sh), Pow(2, e - sh), v, w, cut, unit, lost, start, fixed, e == e2);
  }

  lemma SparesRound(p: nat, q: nat, rest: nat, v: int, w: int, cut: int, unit: nat, lost: int, lost': int, start: int, fixed: bool)
    requires p > 0 && q > 0 && rest > 0 && q * (w + cut) == v && Cuts(w, cut, unit, fixed) && p * v + lost == start
    requires Spares(p, q * rest, lost, start, unit) && lost' == lost + p * q * cut
    ensures Spares(p * q, rest, lost', start, unit)
  {
    MulAssociative(p, q, rest);
    if unit > 0 && Multiple(start, p * q * rest * unit) {
      MulAtLeast(p, q);
      MulAtLeast(p * q, rest);
      MulAtLeast(p * q * rest, unit);
      assert lost == 0;
      var j := start / (p * q * rest * unit);
      assert start == p * q * (w + cut) by { MulAssociative(p, q, w + cut); }
      hide Multiple;
      Cancel(p * q, w + cut, rest, unit, j);
      MultipleTimes(j * rest, unit);
    }
  }

  lemma Cancel(p: int, x: int, rest: int, unit: int, j: int)
    requires p > 0 && p * x == p * rest * unit * j
    ensures x == j * rest * unit
  {
    assert p * rest * unit * j == p * (j * rest * unit);
    assert p * (x - j * rest * unit) == 0;
    if x > j * rest * unit { MulAtLeast(p, x - j * rest * unit); }
    if x < j * rest * unit { MulAtLeast(p, j * rest * unit - x); }
  }

  lemma FloorsRound(p: nat, q: nat, v: int, w: int, cut: int, unit: nat, lost: int, lost': int, first: bool)
    requires p > 0 && q > 0 && q * (w + cut) == v && Cuts(w, cut, unit, true) && Floors(p, v, lost, unit, first)
    requires lost' == lost + p * q * cut
    ensures Floors(p * q, w, lost', unit, false)
  {
    hide Multiple;
    if unit > 0 {
      MulAssociative(p, q, cut);
      StrictlyLess(cut, unit, q);
      if first {
        assert p * q * cut == q * cut && lost' == q * cut;
      } else {
        CutUnits(q, v, w, cut, unit);
        WholeUnits(q * cut, q, unit);
        FloorBound(p, q, unit, lost, q * cut);
      }
    }
  }

  /** What is cut from a whole number of units, if a whole number is left. */
  lemma CutUnits(q: nat, v: int, w: int, cut: int, unit: nat)
    requires q * (w + cut) == v && Multiple(v, unit) && Multiple(w, unit)
    ensures Multiple(q * cut, unit)
  {
    var j := w / unit;
    assert w == j * unit;
    MulAssociative(q, j, unit);
    hide Multiple;
    MultipleTimes(q * j, unit);
    MultipleDiff(v, q * w, unit);
    assert q * cut == v - q * w;
  }

  lemma StrictlyLess(x: int, y: int, q: int)
    requires x < y && q > 0
    ensures q * x < q * y
  {
    MulAtLeast(q, y - x);
  }

  /** A whole number of units below q units is at most q - 1 of them. */
  lemma WholeUnits(x: int, q: int, unit: int)
    requires unit > 0 && Multiple(x, unit) && x < q * unit
    ensures x <= (q - 1) * unit
  {
    var j := x / unit;
    if j >= q { MulMonotone(q, j, unit); }
    MulMonotone(j, q - 1, unit);
  }

  lemma FloorBound(p: int, q: int, unit: int, lost: int, x: int)
    requires p > 0 && lost < p * unit && x <= (q - 1) * unit
    ensures lost + p * x < p * q * unit
  {
    MulMonotone(x, (q - 1) * unit, p);
    assert p * ((q - 1) * unit) == p * q * unit - p * unit;
  }

  // ----- Whole numbers of units -----

  ghost predicate Multiple(x: int, unit: int) {
    unit > 0 && x % unit == 0
  }

  lemma MultipleTimes(j: int, unit: int)
    requires unit > 0
    ensures Multiple(j * unit, unit)
  {
    DivModUnique(j * unit, unit, j, 0);
  }

  lemma MultipleDiff(x: int, y: int, unit: int)
    requires Multiple(x, unit) && Multiple(y, unit)
    ensures Multiple(x - y, unit)
  {
    DivModUnique(x - y, unit, x / unit - y / unit, 0);
  }

  lemma MultipleFiner(x: int, c: int, unit: int)
    requires c > 0 && unit > 0 && Multiple(x, c * unit)
    ensures Multiple(x, unit)
  {
    var j := x / (c * unit);
    assert x == j * c * unit;
    MultipleTimes(j * c, unit);
  }

  /** One unit of the limb at `k`, or nothing past the end. */
  ghost function Unit(length: nat, k: nat): nat {
    if k < length then Pow(BASE, length - k) else 0
  }

  lemma Doubles(sh: nat)
    requires sh > 0
    ensures Pow(2, sh) >= 2
  {
    PowPositive(2, sh - 1);
  }

  lemma CutArithmetic(p: nat, q: nat, v: int, w: int, w': int) returns (more: int)
    requires p > 0 && q > 0 && q * w == v && w' <= w
    ensures p * v == p * q * w' + more && more >= 0 && (w' == w <==> more == 0) && more == p * q * (w - w')
  {
    more := p * q * (w - w');
    assert p * (q * w) == p * q * w;
    if w' < w { MulAtLeast(p, q); MulAtLeast(p * q, w - w'); }
  }

  lemma CutBound(p: nat, q: nat, unit: nat, lost: int, more: int, cut: int)
    requires p > 0 && q >= 2 && lost <= 2 * (p - 1) * unit && more == p * q * cut && 0 <= cut <= unit
    ensures lost + more <= 2 * (p * q - 1) * unit
  {
    MulMonotone(cut, unit, p * q);
    MulMonotone(2, q, p);
    MulMonotone(2 * p - 2 + p * q, 2 * (p * q - 1), unit);
  }

  lemma LossBound(p: nat, w: int, lost: int, start: int, length: nat, k: nat, floored: bool)
    requires Loses(p, w, lost, start, Unit(length, k)) && Spares(p, 1, lost, start, Unit(length, k)) && (k >= length ==> lost == 0)
    requires floored ==> Floors(p, w, lost, Unit(length, k), false)
    ensures p * w + lost == start && lost >= 0 && (lost > 0 ==> lost < p * (2 * Pow(BASE, length - k)))
    ensures k < length && Multiple(start, p * Pow(BASE, length - k)) ==> lost == 0
    ensures floored && k < length ==> Multiple(w, Pow(BASE, length - k)) && lost < p * Pow(BASE, length - k)
    ensures floored && k < length && lost == 0 ==> Multiple(start, p * Pow(BASE, length - k))
  {
    if k < length { PowPositive(BASE, length - k); }
    hide Pow;
    var unit := Unit(length, k);
    assert 2 * (p - 1) * unit == p * (2 * unit) - 2 * unit;
    if floored && k < length && lost == 0 {
      var j := w / unit;
      assert w == j * unit;
      assert p * (j * unit) == j * (p * unit);
      assert p * unit > 0;
      hide Multiple;
      MultipleTimes(j, p * unit);
    }
  }

  /** What cutting the limbs from `cut` on drops. */
  lemma CutTail(s: seq<int>, a: int, z: int, cut: int, k: int, fixed: bool)
    requires 0 <= a && 0 <= k <= cut < z <= |s| && Limbs(s, a, z) && (fixed ==> cut == k)
    ensures Scaled(s, a, cut) <= Scaled(s, a, z)
    ensures Cuts(Scaled(s, a, cut), Scaled(s, a, z) - Scaled(s, a, cut), Unit(|s|, k), fixed)
  {
    hide Multiple, Val, Scaled, Pow;
    var c := if a < cut then cut else if a < z then a else z;
    ScaledSplit(s, a, z, cut, c);
    ValBelow(s, c, z);
    TailUnit(s, c, z, k);
    TailUnit(s, c, z, cut);
    PowPositive(BASE, |s| - cut);
    PowPositive(BASE, |s| - k);
    ScaledMultiple(s, a, cut, cut);
    if Multiple(Scaled(s, a, z), Pow(BASE, |s| - k)) {
      PowAdd(BASE, cut - k, |s| - cut);
      PowPositive(BASE, cut - k);
      MultipleFiner(Scaled(s, a, z), Pow(BASE, cut - k), Pow(BASE, |s| - cut));
      MultipleDiff(Scaled(s, a, z), Scaled(s, a, cut), Pow(BASE, |s| - cut));
      MultipleBelow(Scaled(s, c, z), Pow(BASE, |s| - cut));
    }
  }

  /** What is cut behind the `need`-th limb from a first limb that is not 0 is small beside what is kept. */
  lemma CutLeading(s: seq<int>, a: int, z: int, cut: int, need: nat)
    requires 0 <= a && 0 <= cut < z <= |s| && Limbs(s, a, z) && Leading(s, a, z) && need > 0
    ensures Leading(s, a, cut)
    ensures cut == a + need ==> (Scaled(s, a, z) - Scaled(s, a, cut)) * Pow(BASE, need - 1) <= Scaled(s, a, cut)
  {
    hide Val, Scaled, Pow;
    if a < cut {
      ScaledSplit(s, a, z, cut, cut);
      ValBelow(s, cut, z);
      ValBelow(s, a, cut);
      TailUnit(s, cut, z, cut);
      PowPositive(BASE, |s| - cut);
      if s[a] > 0 {
        if cut == a + need { LeadingLimb(s, a, cut, Scaled(s, a, z) - Scaled(s, a, cut)); }
      } else {
        NoneCut(s, a, z, cut);
      }
    }
  }

  lemma LeadingLimb(s: seq<int>, a: int, cut: int, dropped: int)
    requires 0 <= a < cut <= |s| && Limbs(s, a, cut) && s[a] > 0 && 0 <= dropped < Pow(BASE, |s| - cut)
    ensures dropped * Pow(BASE, cut - a - 1) <= Scaled(s, a, cut)
  {
    ValBelow(s, a + 1, cut);
    PowPositive(BASE, cut - a - 1);
    PowPositive(BASE, |s| - cut);
    var g, u := Pow(BASE, cut - a - 1), Pow(BASE, |s| - cut);
    MulMonotone(1, s[a], g);
    assert Val(s, a, cut) >= g;
    assert Scaled(s, a, cut) == Val(s, a, cut) * u;
    hide Val, Scaled, Pow;
    MulMonotone(g, Val(s, a, cut), u);
    MulMonotone(dropped, u, g);
  }

  lemma NoneCut(s: seq<int>, a: int, z: int, cut: int)
    requires 0 <= a < cut < z <= |s| && Limbs(s, a, z) && Val(s, a, z) == 0
    ensures Val(s, a, cut) == 0 && Scaled(s, a, z) == Scaled(s, a, cut) == 0
  {
    hide Val, Pow;
    ScaledSplit(s, a, z, cut, cut);
    ValBelow(s, a, cut);
    ValBelow(s, cut, z);
    PowPositive(BASE, |s| - cut);
    PowPositive(BASE, |s| - z);
    var v, u := Val(s, a, cut), Pow(BASE, |s| - cut);
    MulMonotone(0, Val(s, cut, z), Pow(BASE, |s| - z));
    assert v * u <= 0;
    if v > 0 { MulAtLeast(u, v); }
  }

  lemma NothingCut(s: seq<int>, a: int, z: int, need: nat)
    requires 0 <= a && 0 <= z <= |s| && Limbs(s, a, z)
    ensures need > 0 ==> 0 * Pow(BASE, need - 1) <= Scaled(s, a, z)
  {
    if a <= z { ValBelow(s, a, z); }
    PowPositive(BASE, |s| - z);
    hide Val, Pow;
    MulMonotone(0, Val(s, a, z), Pow(BASE, |s| - z));
  }

  lemma MultipleBelow(x: int, unit: int)
    requires Multiple(x, unit) && 0 <= x < unit
    ensures x == 0
  {
  }

  /** Limbs that end at or before `k` make a whole number of units of the limb at `k`. */
  lemma ScaledMultiple(s: seq<int>, a: int, z: int, k: int)
    requires 0 <= a && 0 <= z <= k <= |s|
    ensures Multiple(Scaled(s, a, z), Pow(BASE, |s| - k))
  {
    PowAdd(BASE, k - z, |s| - k);
    PowPositive(BASE, |s| - k);
    hide Val, Pow, Multiple;
    MulAssociative(Val(s, a, z), Pow(BASE, k - z), Pow(BASE, |s| - k));
    MultipleTimes(Val(s, a, z) * Pow(BASE, k - z), Pow(BASE, |s| - k));
  }

  lemma ScaledSplit(s: seq<int>, a: int, z: int, cut: int, c: int)
    requires 0 <= a && 0 <= cut <= z <= |s| && c == if a < cut then cut else if a < z then a else z
    ensures Scaled(s, a, z) == Scaled(s, a, cut) + Scaled(s, c, z)
  {
    if a < cut {
      ValSplit(s, a, z, cut);
      PowAdd(BASE, z - cut, |s| - z);
      hide Val, Pow;
      SplitArithmetic(Val(s, a, cut), Pow(BASE, z - cut), Val(s, cut, z), Pow(BASE, |s| - z));
    }
  }

  lemma SplitArithmetic(x: int, p: int, y: int, w: int)
    ensures (x * p + y) * w == x * (p * w) + y * w
  {
  }

  lemma {:induction false} ValSplit(s: seq<int>, a: int, z: int, cut: int)
    requires 0 <= a < cut <= z <= |s|
    ensures Val(s, a, z) == Val(s, a, cut) * Pow(BASE, z - cut) + Val(s, cut, z)
    decreases z
  {
    if cut < z {
      ValLast(s, a, z);
      ValLast(s, cut, z);
      ValSplit(s, a, z - 1, cut);
      hide Val;
      ValSplitArithmetic(Val(s, a, cut), Pow(BASE, z - 1 - cut), Val(s, cut, z - 1), s[z - 1]);
    }
  }

  lemma ValSplitArithmetic(x: int, p: int, y: int, l: int)
    ensures (x * p + y) * BASE + l == x * (BASE * p) + (y * BASE + l)
  {
  }

  /** Limbs below the base make a number below the next power, which is 0 exactly when they all are. */
  lemma {:induction false} ValBelow(s: seq<int>, a: int, z: int)
    requires 0 <= a <= z <= |s| && Limbs(s, a, z)
    ensures 0 <= Val(s, a, z) < Pow(BASE, z - a) && (Val(s, a, z) == 0 <==> forall i :: a <= i < z ==> s[i] == 0)
    decreases z - a
  {
    if a < z {
      ValBelow(s, a + 1, z);
      var p := Pow(BASE, z - a - 1);
      MulMonotone(s[a], BASE - 1, p);
      MulMonotone(0, s[a], p);
      if s[a] > 0 { MulAtLeast(p, s[a]); }
    }
  }

  lemma TailUnit(s: seq<int>, c: int, z: int, k: int)
    requires 0 <= k <= c <= z <= |s| && k < |s| && 0 <= Val(s, c, z) < Pow(BASE, z - c)
    ensures 0 <= Scaled(s, c, z) < Pow(BASE, |s| - k)
  {
    hide Val, Pow;
    PowAdd(BASE, z - c, |s| - z);
    PowMonotone(BASE, |s| - c, |s| - k);
    PowPositive(BASE, |s| - z);
    StrictlyLess(Val(s, c, z), Pow(BASE, z - c), Pow(BASE, |s| - z));
    MulMonotone(0, Val(s, c, z), Pow(BASE, |s| - z));
  }

  // ----- The first limbs -----

  /** A double in units of 2^-f: mantissa * 2^exponent. */
  datatype Float = Float(mantissa: nat, exponent: nat)

  ghost function Worth(y: Float): nat {
    Pow(2, y.exponent) * y.mantissa
  }

  /** The values that `y` takes: the first is m, each next one is 10^9 times the fraction of the one before, and their whole parts are
      the limbs. */
  ghost predicate Produced(ys: seq<Float>, m: nat, f: nat, limbs: seq<int>)
    requires Pow(2, f) > 0
  {
    && |ys| == |limbs| && (ys != [] ==> Worth(ys[0]) == m)
    && (forall i :: 0 <= i < |ys| ==> limbs[i] == Worth(ys[i]) / Pow(2, f))
    && (forall i :: 0 <= i < |ys| - 1 ==> Worth(ys[i + 1]) == BASE * (Worth(ys[i]) % Pow(2, f)))
  }

  /** Every value has a mantissa that a double can hold, so that the multiplications in floating point are exact. */
  ghost predicate Representable(ys: seq<Float>) {
    forall i :: 0 <= i < |ys| ==> ys[i].mantissa < Pow(2, MANT_DIG)
  }

  /** A number of at least 1 has a first limb that is not 0. */
  lemma FirstLimb(ys: seq<Float>, m: nat, f: nat, limbs: seq<int>)
    requires 0 < Pow(2, f) <= m && Produced(ys, m, f, limbs) && limbs != []
    ensures limbs[0] > 0
  {
    hide Pow;
    if m / Pow(2, f) <= 0 { DivMod(m, Pow(2, f)); }
  }

  lemma DivMod(n: int, d: int)
    requires d > 0
    ensures n == d * (n / d) + n % d && 0 <= n % d < d
  {
  }

  lemma ProducedMore(ys: seq<Float>, m: nat, f: nat, limbs: seq<int>, y: Float)
    requires Pow(2, f) > 0 && Produced(ys, m, f, limbs)
    requires Worth(y) == if ys == [] then m else BASE * (Worth(ys[|ys| - 1]) % Pow(2, f))
    ensures Produced(ys + [y], m, f, limbs + [Worth(y) / Pow(2, f)])
  {
    hide Worth, Pow;
  }

  /** Lines 299-302: writes m / 2^f as limbs from index `r` on. The fraction gains nine factors of two a step, so the loop
      ends and the limbs are exact. For a double no product needs more bits than a double has. */
  method FillLimbs(big: array<int>, r: int, m: nat, f: nat) returns (z: int, ghost ys: seq<Float>)
    requires 0 <= r && r + 1 + (f + 8) / 9 <= big.Length && m < BASE * Pow(2, f)
    modifies big
    ensures r < z <= r + 1 + (f + 8) / 9 && Limbs(big[..], r, z)
    ensures Pow(2, f) * Val(big[..], r, z) == m * Pow(BASE, z - r - 1)
    ensures forall i :: 0 <= i < r ==> big[i] == old(big[i])
    ensures Pow(2, f) > 0 && Produced(ys, m, f, big[r..z]) && (m < Pow(2, MANT_DIG) && f <= 32 ==> Representable(ys))
  {
    hide Val, Pow, Produced, Representable, Worth, Filling, Limbs, Follows;
    z := r;
    PowPositive(2, f);
    var y, p := m, Pow(2, f);
    ghost var u: nat, fits := m, m < Pow(2, MANT_DIG) && f <= 32;
    ys := [];
    ghost var s := big[..];
    FillStart(s, r, m, p);
    NoneProduced(m, f);
    FollowsMore([], m, p, Float(m, 0));
    assert big[r..z] == [];
    while true
      invariant r <= z && 9 * (z - r) < f + 9 && y >= 0 && Filling(big[..], r, z, m, p, y)
      invariant y == Worth(Float(u, 9 * (z - r))) && (fits ==> Representable(ys) && u < Pow(2, MANT_DIG))
      invariant forall i :: 0 <= i < r ==> big[i] == s[i]
      invariant |ys| == z - r && Produced(ys, m, f, big[r..z]) && Follows(ys, m, p, y)
      decreases f + 9 - 9 * (z - r)
    {
      ghost var t, v := big[..], Float(u, 9 * (z - r));
      Produce(ys, m, f, t[r..z], v, fits);
      big[z] := y / p;
      FillStep(t, big[..], r, z, m, p, y);
      assert big[r..z + 1] == t[r..z] + [y / p];
      FollowsMore(ys, m, p, v);
      ys := ys + [v];
      z := z + 1;
      y := BASE * (y % p);
      if y == 0 {
        break;
      }
      u := NextMantissa(v, f);
      if fits { MantissaFits(u, f); }
    }
    FillEnd(big[..], r, z, m, p);
  }

  /** z - r limbs are written and `y` is still to be written, in units of 1 / p. */
  ghost predicate Filling(s: seq<int>, r: int, z: int, m: nat, p: int, y: int) {
    && 0 <= r <= z <= |s| && Limbs(s, r, z) && 0 <= y < BASE * p
    && m * Pow(BASE, z - r) == Val(s, r, z) * BASE * p + y
  }

  lemma FillStart(s: seq<int>, r: int, m: nat, p: int)
    requires 0 <= r <= |s| && m < BASE * p
    ensures Filling(s, r, r, m, p, m) && Worth(Float(m, 0)) == m
  {
    assert Pow(2, 0) == 1 && Pow(BASE, 0) == 1;
    EmptyVal(s, r);
  }

  lemma FillStep(t: seq<int>, s: seq<int>, r: int, z: int, m: nat, p: int, y: int)
    requires Filling(t, r, z, m, p, y) && p > 0 && z < |t| && s == t[z := y / p]
    ensures Filling(s, r, z + 1, m, p, BASE * (y % p))
  {
    DivBelow(y, p);
    ValFrame(t, s, r, z);
    ValLast(s, r, z + 1);
    FillArithmetic(m, Pow(BASE, z - r), Val(t, r, z), y, p);
  }

  lemma FillEnd(s: seq<int>, r: int, z: int, m: nat, p: int)
    requires Filling(s, r, z, m, p, 0) && r < z
    ensures Limbs(s, r, z) && p * Val(s, r, z) == m * Pow(BASE, z - r - 1)
  {
    FillDone(m, Pow(BASE, z - r - 1), Val(s, r, z), p);
  }

  /** The mantissa of 10^9 times the fraction of v, which keeps nine more factors of two. */
  lemma NextMantissa(v: Float, f: nat) returns (u: nat)
    requires Pow(2, f) > 0 && BASE * (Worth(v) % Pow(2, f)) != 0
    ensures v.exponent < f && BASE * (Worth(v) % Pow(2, f)) == Worth(Float(u, v.exponent + 9)) && u < Pow(2, 21) * Pow(2, f)
  {
    u := Remainder(Worth(v), v.mantissa, v.exponent, f);
  }

  lemma NoneProduced(m: nat, f: nat)
    requires Pow(2, f) > 0
    ensures Produced([], m, f, []) && Representable([])
  {
  }

  /** What is to be written after `ys`. */
  ghost predicate Follows(ys: seq<Float>, m: nat, p: nat, y: int)
    requires p > 0
  {
    y == if ys == [] then m else BASE * (Worth(ys[|ys| - 1]) % p)
  }

  lemma FollowsMore(ys: seq<Float>, m: nat, p: nat, v: Float)
    requires p > 0
    ensures Follows(ys + [v], m, p, BASE * (Worth(v) % p)) && Follows([], m, p, m)
  {
  }

  lemma Produce(ys: seq<Float>, m: nat, f: nat, limbs: seq<int>, y: Float, fits: bool)
    requires Pow(2, f) > 0 && Produced(ys, m, f, limbs)
    requires Follows(ys, m, Pow(2, f), Worth(y))
    requires fits ==> Representable(ys) && y.mantissa < Pow(2, MANT_DIG)
    ensures Produced(ys + [y], m, f, limbs + [Worth(y) / Pow(2, f)]) && (fits ==> Representable(ys + [y]))
  {
    hide Worth, Pow, Produced;
    ProducedMore(ys, m, f, limbs, y);
  }

  /** The fraction has at most f bits, and 5^9 is below 2^21. */
  lemma MantissaFits(u: nat, f: nat)
    requires u < Pow(2, 21) * Pow(2, f) && f <= 32
    ensures u < Pow(2, MANT_DIG)
  {
    PowAdd(2, 21, f);
    PowMonotone(2, 21 + f, MANT_DIG);
  }

  lemma EmptyVal(s: seq<int>, r: int)
    requires 0 <= r <= |s|
    ensures Val(s, r, r) == 0
  {
  }

  lemma DivBelow(y: int, p: int)
    requires p > 0 && 0 <= y < BASE * p
    ensures 0 <= y / p < BASE && 0 <= y % p < p
  {
  }

  lemma FillArithmetic(m: int, w: int, v: int, y: int, p: int)
    requires p > 0 && m * w == v * BASE * p + y
    ensures m * (BASE * w) == (v * BASE + y / p) * BASE * p + BASE * (y % p)
  {
  }

  lemma FillDone(m: int, w: int, v: int, p: int)
    requires m * (BASE * w) == v * BASE * p
    ensures p * v == m * w
  {
  }

  /** The remainder keeps the factors of two of the fraction, and multiplying by 10^9 adds nine. */
  lemma Remainder(y: int, u: int, j: nat, f: nat) returns (u': int)
    requires y == Pow(2, j) * u && u >= 0 && Pow(2, f) > 0 && BASE * (y % Pow(2, f)) != 0
    ensures j < f && u' >= 0 && BASE * (y % Pow(2, f)) == Pow(2, j + 9) * u' && u' < Pow(2, 21) * Pow(2, f)
  {
    PowPositive(2, j);
    if j >= f {
      PowAdd(2, f, j - f);
      MultipleMod(Pow(2, f), Pow(2, j - f), u, y);
      assert false;
    }
    PowAdd(2, j, f - j);
    PowPositive(2, f - j);
    var c := Pow(2, f - j);
    var b := u % c;
    RemainderMod(Pow(2, j), c, u, y);
    u' := 1953125 * b;
    FractionBelow(b, c, Pow(2, f), f, j);
    PowAdd(2, j, 9);
    assert Pow(2, 9) == 512;
    assert BASE * (Pow(2, j) * b) == Pow(2, j) * 512 * (1953125 * b);
  }

  lemma FractionBelow(b: int, c: nat, p: nat, f: nat, j: nat)
    requires j <= f && 0 <= b < c == Pow(2, f - j) && p == Pow(2, f)
    ensures 1953125 * b < Pow(2, 21) * p
  {
    PowMonotone(2, f - j, f);
    PowAdd(2, 10, 11);
    assert Pow(2, 10) == 1024 && Pow(2, 11) == 2048;
    MulMonotone(b, p - 1, 1953125);
    MulMonotone(1953125, 2097152, p);
  }

  lemma MultipleMod(p: int, k: int, u: int, y: int)
    requires p > 0 && y == p * k * u
    ensures y % p == 0
  {
    assert p * k * u == p * (k * u);
    DivModUnique(y, p, k * u, 0);
  }

  lemma RemainderMod(p: int, c: int, u: int, y: int)
    requires p > 0 && c > 0 && y == p * u && u >= 0
    ensures y % (p * c) == p * (u % c)
  {
    var q, b := u / c, u % c;
    assert u == c * q + b;
    assert p * (c * q + b) == p * c * q + p * b;
    MulMonotone(b + 1, c, p);
    assert p * c > 0;
    DivModUnique(y, p * c, q, p * b);
  }

  // ----- The whole conversion -----

  const MANT_DIG := 53
  const MAX_EXP := 1024
  /** The size of `big`: (53+28)/29 + 1 + (1024+53+28+8)/9. */
  const BIG_LENGTH := 126

  /** A double as y * 2^e2 with y = m / 2^f in [0, 2^29), after lines 239-294: its exponent and its lowest bit are in range. A number
      below 2^-1022 is normalised first, so that an integral y can have an exponent down to -1102. */
  ghost predicate IsDouble(m: nat, f: nat, e2: int) {
    && m < Pow(2, 29) * Pow(2, f) && f <= 24 && e2 <= MAX_EXP - 29
    && (e2 < 0 ==> f - e2 <= 1074 || (f == 0 && -e2 <= 1102))
  }

  /** The mantissa, its fraction bits and the exponent that `frexp` and lines 239-294 make of a double x * 2^e. */
  function Normalised(x: nat, e: int): (nat, nat, int) {
    var b := BitLength(x);
    if x == 0 then (0, 0, 0) else if b <= 29 then (x * Pow(2, 29 - b), 0, e - (29 - b)) else (x, b - 29, e + (b - 29))
  }

  function BitLength(x: nat): nat {
    if x == 0 then 0 else 1 + BitLength(x / 2)
  }

  lemma {:induction false} BitLengthIs(x: nat)
    requires x > 0
    ensures BitLength(x) > 0 && Pow(2, BitLength(x) - 1) <= x < Pow(2, BitLength(x))
  {
    if x > 1 { BitLengthIs(x / 2); }
  }

  /** Every finite double, x * 2^e with at most 53 bits and a lowest bit not below 2^-1074, comes out as y in [2^28, 2^29) and an
      exponent in range, with its value unchanged; zero stays zero. */
  lemma EveryDouble(x: nat, e: int)
    requires x < Pow(2, MANT_DIG) && -1074 <= e <= MAX_EXP - MANT_DIG
    ensures var (m, f, e2) := Normalised(x, e);
      && IsDouble(m, f, e2) && (x == 0 <==> m == 0)
      && (x > 0 ==> Pow(2, 28) * Pow(2, f) <= m && e2 - f <= e && m == x * Pow(2, e - (e2 - f)))
  {
    hide Pow, BitLength;
    WholeMantissa();
    if x > 0 {
      var b := MantissaLength(x);
      if b <= 29 { ShortMantissa(x, b); } else { LongMantissa(x, b); }
    }
  }

  lemma MantissaLength(x: nat) returns (b: nat)
    requires 0 < x < Pow(2, MANT_DIG)
    ensures b == BitLength(x) && 0 < b <= MANT_DIG && Pow(2, b - 1) <= x < Pow(2, b)
  {
    b := BitLength(x);
    BitLengthIs(x);
    hide Pow, BitLength;
    if b > MANT_DIG { PowMonotone(2, MANT_DIG, b - 1); }
  }

  lemma WholeMantissa()
    ensures Pow(2, 28) * Pow(2, 0) == Pow(2, 28) && 0 < Pow(2, 29) * Pow(2, 0) == Pow(2, 29)
  {
    PowPositive(2, 29);
    assert Pow(2, 0) == 1;
  }

  /** A mantissa of at most 29 bits is shifted up until it has 29. */
  lemma ShortMantissa(x: nat, b: nat)
    requires 0 < b <= 29 && Pow(2, b - 1) <= x < Pow(2, b)
    ensures 0 < x * Pow(2, 29 - b) && Pow(2, 28) * Pow(2, 0) <= x * Pow(2, 29 - b) < Pow(2, 29) * Pow(2, 0)
  {
    WholeMantissa();
    PowPositive(2, b - 1);
    PowPositive(2, 29 - b);
    PowAdd(2, b, 29 - b);
    PowAdd(2, b - 1, 29 - b);
    hide Pow;
    Between(Pow(2, b - 1), x, Pow(2, b), Pow(2, 29 - b));
  }

  lemma Between(x: int, y: int, z: int, c: int)
    requires x <= y < z && c > 0
    ensures x * c <= y * c < z * c && (0 < y ==> 0 < y * c)
  {
    MulMonotone(x, y, c);
    MulAtLeast(c, z - y);
  }

  /** Of a longer one the bits below the highest 29 are its fraction. */
  lemma LongMantissa(x: nat, b: nat)
    requires 29 < b && Pow(2, b - 1) <= x < Pow(2, b)
    ensures Pow(2, 28) * Pow(2, b - 29) <= x < Pow(2, 29) * Pow(2, b - 29) && x == x * Pow(2, 0)
  {
    assert Pow(2, 0) == 1;
    hide Pow;
    PowAdd(2, 29, b - 29);
    PowAdd(2, 28, b - 29);
  }

  /** Lines 299-302, in units that do not depend on where the limbs end. */
  method FirstLimbs(big: array<int>, r: int, m: nat, f: nat) returns (z: int, ghost ys: seq<Float>)
    requires big.Length == BIG_LENGTH && 0 <= r <= 72 && f <= 24 && m < Pow(2, 29) * Pow(2, f)
    modifies big
    ensures r < z <= r + 1 + (f + 8) / 9 && Limbs(big[..], r, z)
    ensures Pow(2, f) * Scaled(big[..], r, z) == m * Pow(BASE, BIG_LENGTH - 1 - r)
    ensures Pow(2, f) > 0 && Produced(ys, m, f, big[r..z]) && Representable(ys)
    ensures m == 0 || Pow(2, f) <= m ==> Leading(big[..], r, z)
  {
    FirstLimbBound(m, f);
    MantissaBound(m, f);
    z, ys := FillLimbs(big, r, m, f);
    if m == 0 { CancelLeft(Pow(2, f), Val(big[..], r, z), 0); }
    if Pow(2, f) <= m { FirstLimb(ys, m, f, big[r..z]); }
    hide Leading;
    hide Produced, Representable;
    PowAdd(BASE, z - r - 1, BIG_LENGTH - z);
    hide Val, Pow;
    FilledScaled(Pow(2, f), Val(big[..], r, z), m, Pow(BASE, z - r - 1), Pow(BASE, BIG_LENGTH - z));
  }

  /** Lines 296-315 when the exponent is not negative: the array is never overrun and the limbs are exactly y * 2^e2, in units of
      10^-9 per limb after the radix limb `r`. */
  method ConvertUp(m: nat, f: nat, e2: nat) returns (big: array<int>, r: int, a: int, z: int)
    requires IsDouble(m, f, e2)
    ensures big.Length == BIG_LENGTH == 126 && r == 72 && 0 <= a <= z <= BIG_LENGTH && Limbs(big[..], a, z)
    ensures Pow(2, f) * Scaled(big[..], a, z) == Pow(2, e2) * (m * Pow(BASE, BIG_LENGTH - 1 - r))
  {
    big, r := new int[BIG_LENGTH](_ => 0), BIG_LENGTH - MANT_DIG - 1;
    ghost var ys;
    z, ys := FirstLimbs(big, r, m, f);
    hide Val, Pow, Scaled;
    ghost var x := Scaled(big[..], r, z);
    a, z := ScaleUp(big, r, z, e2);
    PowProduct(Pow(2, f), Pow(2, e2), x);
    PowProduct(Pow(2, e2), Pow(2, f), x);
    assert Pow(2, f) * (Pow(2, e2) * x) == Pow(2, e2) * (Pow(2, f) * x);
  }

  /** `need`, which is also the number of limbs kept of a fraction below one: (precision + 25) / 9 limbs after the radix limb. */
  function Needed(precision: nat): nat {
    1 + (precision + MANT_DIG / 3 + 8) / 9
  }

  /** `w` is m / 2^e kept to need - 1 limbs after the radix limb: with `%f` rounded down, and exact just when that many limbs hold all of
      it; otherwise exact at least then. */
  ghost predicate Rounded(w: int, lost: int, m: nat, e: nat, need: nat, fixed: bool)
    requires 1 <= need < BIG_LENGTH
  {
    var whole := m * Pow(BASE, need - 1);
    && (Multiple(whole, Pow(2, e)) ==> lost == 0)
    && (fixed ==> (lost == 0 <==> Multiple(whole, Pow(2, e))))
    && (fixed ==> w == Halved(whole, e) * Pow(BASE, BIG_LENGTH - need))
  }

  /** m / 2^f, in units of the last place of the array, is 2^e times `w`, and `lost`. */
  ghost predicate SplitsInto(m: nat, f: nat, e: nat, w: int, lost: int) {
    Pow(2, f) * (Pow(2, e) * w + lost) == m * Pow(BASE, BIG_LENGTH - 1)
  }

  /** x / 2^e, rounded down. */
  ghost function Halved(x: nat, e: nat): nat {
    PowPositive(2, e);
    x / Pow(2, e)
  }

  /** The number held, in units of 10^-1125, cut off after `q` decimal places. */
  ghost function ToPlaces(w: int, q: nat): int
    requires q <= 1125
  {
    PowPositive(10, 1125 - q);
    w / Pow(10, 1125 - q)
  }

  /** For `%f`: up to 17 places beyond the precision the decimal places are those of m / 2^e. */
  ghost predicate ShowsPlaces(w: int, m: nat, e: nat, precision: nat) {
    forall q :: 0 <= q <= 1125 && q <= precision + 17 ==> ToPlaces(w, q) == Halved(m * Pow(10, q), e)
  }

  /** ... and none is held from the 26th beyond the precision on. */
  ghost predicate ShowsNoMore(w: int, precision: nat) {
    precision + 25 <= 1125 ==> Multiple(w, Pow(10, 1125 - (precision + 25)))
  }

  /** In every case what is held is m / 2^e or too small by less than two units of the 17th place beyond the precision. */
  ghost predicate Near(w: int, m: nat, e: nat, precision: nat) {
    var missing := m * Pow(10, 1125) - Pow(2, e) * w;
    0 <= missing && missing * Pow(10, precision + 17) < 2 * Pow(2, e) * Pow(10, 1125)
  }

  /** Without `%f` the error is small beside the number: at most 123 units of the 17th digit beyond the precision. */
  ghost predicate Close(w: int, m: nat, e: nat, precision: nat) {
    var missing := m * Pow(10, 1125) - Pow(2, e) * w;
    0 <= missing && missing * Pow(10, precision + 17) <= 123 * (m * Pow(10, 1125))
  }

  /** Lines 296-302 and 316-330 when the exponent is negative: again the array is never overrun. With `%f` the limbs are y * 2^e2
      rounded down to 9 * (need - 1) decimal places, and so exact if and only if it has no more. Otherwise that condition is
      sufficient. In any case nothing is lost when the precision covers every digit. */
  method ConvertDown(m: nat, f: nat, e2: int, precision: nat, fixed: bool)
    returns (big: array<int>, r: int, a: int, z: int, ghost lost: int)
    requires IsDouble(m, f, e2) && e2 < 0
    ensures big.Length == BIG_LENGTH && r == 0 && 0 <= a <= BIG_LENGTH && 0 <= z <= BIG_LENGTH && Limbs(big[..], a, z)
    ensures lost >= 0 && SplitsInto(m, f, -e2, Scaled(big[..], a, z), lost)
    ensures Passes(f) + Passes(-e2) < Needed(precision) || Needed(precision) >= BIG_LENGTH ==> lost == 0
    ensures lost > 0 ==> lost < Pow(2, -e2) * (2 * Pow(BASE, BIG_LENGTH - Needed(precision)))
    ensures Needed(precision) < BIG_LENGTH ==> Rounded(Scaled(big[..], a, z), lost, m, f - e2, Needed(precision), fixed)
    ensures fixed ==> ShowsPlaces(Scaled(big[..], a, z), m, f - e2, precision) && ShowsNoMore(Scaled(big[..], a, z), precision)
    ensures Near(Scaled(big[..], a, z), m, f - e2, precision)
    ensures !fixed && (m == 0 || Pow(2, f) <= m) ==> Close(Scaled(big[..], a, z), m, f - e2, precision)
  {
    r := 0;
    big, z := StartDown(m, f, e2);
    ShareBelow(m, f, e2);
    hide Leading, Small, Close, Near, ShowsPlaces, ShowsNoMore, Starts, IsDouble, SplitsInto, Passes, Needed, Val, Pow, Scaled, Limbs, Rounded, CutTo;
    ghost var start := Scaled(big[..], r, z);
    a, z, lost := ScaleLimbs(big, z, -e2, fixed, Needed(precision));
    Outcome(start, Scaled(big[..], a, z), lost, m, f, -e2, precision, fixed, Passes(-e2));
  }

  /** `start` is m / 2^f in units of the last place of the array. */
  ghost predicate Starts(m: nat, f: nat, start: int) {
    Pow(2, f) * start == m * Pow(BASE, BIG_LENGTH - 1)
  }

  lemma Outcome(start: int, w: int, lost: int, m: nat, f: nat, e: nat, precision: nat, fixed: bool, k: nat)
    requires Starts(m, f, start) && CutTo(start, w, lost, e, Needed(precision), fixed) && k <= 123
    requires !fixed && (m == 0 || Pow(2, f) <= m) ==> Small(lost, Pow(BASE, Needed(precision) - 1), k, start)
    ensures lost >= 0 && SplitsInto(m, f, e, w, lost)
    ensures lost > 0 ==> Needed(precision) < BIG_LENGTH && lost < Pow(2, e) * (2 * Pow(BASE, BIG_LENGTH - Needed(precision)))
    ensures Needed(precision) < BIG_LENGTH ==> Rounded(w, lost, m, f + e, Needed(precision), fixed)
    ensures (fixed ==> ShowsPlaces(w, m, f + e, precision) && ShowsNoMore(w, precision)) && Near(w, m, f + e, precision)
    ensures !fixed && (m == 0 || Pow(2, f) <= m) ==> Close(w, m, f + e, precision)
  {
    Guarded(precision);
    hide Pow, Needed, CutTo, Small, SplitsInto, Rounded, ShowsPlaces, ShowsNoMore, Near, Close;
    DownResult(start, w, lost, m, f, e, Needed(precision), fixed);
    if Needed(precision) >= BIG_LENGTH { NothingLostBeyond(start, w, lost, e, Needed(precision), fixed); }
    if fixed {
      PlacesShown(w, lost, m, f, e, precision);
      NoMoreShown(start, w, lost, e, precision);
    }
    NearEnough(w, lost, m, f, e, precision);
    if !fixed && (m == 0 || Pow(2, f) <= m) { CloseEnough(start, w, lost, m, f, e, precision, k); }
  }

  lemma NothingLostBeyond(start: int, w: int, lost: int, e: nat, need: nat, fixed: bool)
    requires CutTo(start, w, lost, e, need, fixed) && need >= BIG_LENGTH
    ensures lost == 0
  {
  }

  /** At most 123 rounds, for the smallest subnormal. */
  lemma ShareBelow(m: nat, f: nat, e2: int)
    requires IsDouble(m, f, e2) && e2 < 0
    ensures 0 <= Passes(-e2) <= 123
  {
  }

  lemma CloseEnough(start: int, w: int, lost: int, m: nat, f: nat, e: nat, precision: nat, k: nat)
    requires lost >= 0 && SplitsInto(m, f, e, w, lost) && Pow(2, f) * start == m * Pow(BASE, BIG_LENGTH - 1)
    requires Small(lost, Pow(BASE, Needed(precision) - 1), k, start) && k <= 123
    ensures Close(w, m, f + e, precision)
  {
    hide Pow, Needed;
    Guarded(precision);
    var need := Needed(precision);
    PowBase(BIG_LENGTH - 1);
    PowBase(need - 1);
    PowAdd(2, f, e);
    PowPositive(2, f);
    PowMonotone(10, precision + 17, 9 * (need - 1));
    Missing(Pow(2, f), Pow(2, e), w, lost, m * Pow(10, 1125));
    PowPositive(10, 1125);
    MulMonotone(0, m, Pow(10, 1125));
    Share(Pow(2, f), lost, Pow(10, 9 * (need - 1)), Pow(10, precision + 17), k, start, m * Pow(10, 1125));
  }

  lemma Share(p: nat, lost: int, g: nat, d: nat, k: nat, start: int, whole: int)
    requires p > 0 && lost >= 0 && lost * g <= k * start && d <= g && k <= 123 && p * start == whole && whole >= 0
    ensures 0 <= p * lost && p * lost * d <= 123 * whole
  {
    MulMonotone(0, lost, p);
    MulMonotone(d, g, p * lost);
    MulMonotone(lost * g, k * start, p);
    assert p * lost * g == lost * g * p && k * start * p == k * whole;
    MulMonotone(k, 123, whole);
  }

  lemma {:induction false} PowBase(k: nat)
    ensures Pow(BASE, k) == Pow(10, 9 * k)
  {
    if k > 0 {
      PowBase(k - 1);
      assert Pow(10, 9) == BASE;
      PowAdd(10, 9, 9 * (k - 1));
    }
  }

  /** The guard limbs: 9 (need - 1) places are at least 17 more than the precision. */
  lemma Guarded(precision: nat)
    ensures Needed(precision) >= 1 && precision + 17 <= 9 * (Needed(precision) - 1) <= precision + 25
  {
  }

  lemma PlacesShown(w: int, lost: int, m: nat, f: nat, e: nat, precision: nat)
    requires lost >= 0 && SplitsInto(m, f, e, w, lost)
    requires var need := Needed(precision); if need < BIG_LENGTH then Rounded(w, lost, m, f + e, need, true) else lost == 0
    ensures ShowsPlaces(w, m, f + e, precision)
  {
    hide Pow, Needed, Multiple;
    Guarded(precision);
    var need := Needed(precision);
    forall q | 0 <= q <= 1125 && q <= precision + 17 ensures ToPlaces(w, q) == Halved(m * Pow(10, q), f + e) {
      if need < BIG_LENGTH {
        PlacesOfLimbs(w, m, f + e, need, q);
      } else {
        PlacesOfAll(w, m, f, e, q);
      }
    }
  }

  lemma NoMoreShown(start: int, w: int, lost: int, e: nat, precision: nat)
    requires CutTo(start, w, lost, e, Needed(precision), true)
    ensures ShowsNoMore(w, precision)
  {
    Guarded(precision);
    var need := Needed(precision);
    if precision + 25 <= 1125 {
      hide Pow, Multiple, Needed;
      PowBase(BIG_LENGTH - need);
      var c := 9 * (BIG_LENGTH - need) - (1125 - (precision + 25));
      PowAdd(10, c, 1125 - (precision + 25));
      PowPositive(10, c);
      PowPositive(10, 1125 - (precision + 25));
      MultipleFiner(w, Pow(10, c), Pow(10, 1125 - (precision + 25)));
    }
  }

  lemma PlacesOfLimbs(w: int, m: nat, e: nat, need: nat, q: nat)
    requires 1 <= need < BIG_LENGTH && q <= 1125 && q <= 9 * (need - 1)
    requires w == Halved(m * Pow(BASE, need - 1), e) * Pow(BASE, BIG_LENGTH - need)
    ensures ToPlaces(w, q) == Halved(m * Pow(10, q), e)
  {
    hide Pow;
    PowBase(need - 1);
    PowBase(BIG_LENGTH - need);
    var x, a, u := m * Pow(10, q), Pow(10, 9 * (need - 1) - q), Pow(10, 9 * (BIG_LENGTH - need));
    PowAdd(10, q, 9 * (need - 1) - q);
    PowAdd(10, 9 * (need - 1) - q, 9 * (BIG_LENGTH - need));
    PowPositive(10, 9 * (need - 1) - q);
    PowPositive(10, 9 * (BIG_LENGTH - need));
    PowPositive(2, e);
    MulAssociative(m, Pow(10, q), a);
    FloorTwice(x, a, Pow(2, e), u, w);
  }

  lemma PlacesOfAll(w: int, m: nat, f: nat, e: nat, q: nat)
    requires q <= 1125 && SplitsInto(m, f, e, w, 0)
    ensures ToPlaces(w, q) == Halved(m * Pow(10, q), f + e)
  {
    hide Pow;
    PowBase(BIG_LENGTH - 1);
    PowAdd(10, q, 1125 - q);
    PowAdd(2, f, e);
    PowPositive(10, 1125 - q);
    PowPositive(2, f + e);
    MulAssociative(m, Pow(10, q), Pow(10, 1125 - q));
    MulAssociative(Pow(2, f), Pow(2, e), w);
    DivModUnique(m * Pow(10, q) * Pow(10, 1125 - q), Pow(2, f + e), w, 0);
    FloorTwice(m * Pow(10, q), Pow(10, 1125 - q), Pow(2, f + e), 1, w);
  }

  /** Rounding down to a finer unit first makes no difference. */
  lemma FloorTwice(x: nat, a: nat, p: nat, u: nat, w: int)
    requires a > 0 && p > 0 && u > 0 && w == x * a / p * u
    ensures a * u > 0 && w / (a * u) == x / p
  {
    var t, s := x / p, x % p;
    FractionScaled(x, a, p, t, s);
    var y := s * a / p;
    MulAtLeast(a, u);
    MulMonotone(0, y, u);
    StrictlyLess(y, a, u);
    assert w == a * u * t + y * u by { assert (t * a + y) * u == a * u * t + y * u; }
    DivModUnique(w, a * u, t, y * u);
  }

  lemma FractionScaled(x: nat, a: nat, p: nat, t: nat, s: nat)
    requires a > 0 && p > 0 && x == p * t + s && s < p
    ensures x * a / p == t * a + s * a / p && 0 <= s * a / p < a
  {
    StrictlyLess(s, p, a);
    MulMonotone(0, s, a);
    var y, r := s * a / p, s * a % p;
    assert x * a == p * (t * a + y) + r by { assert x * a == p * t * a + s * a; }
    DivModUnique(x * a, p, t * a + y, r);
    MulAssociative(p, t, a);
    if y >= a { MulMonotone(a, y, p); }
  }

  lemma NearEnough(w: int, lost: int, m: nat, f: nat, e: nat, precision: nat)
    requires lost >= 0 && SplitsInto(m, f, e, w, lost)
    requires lost > 0 ==> Needed(precision) < BIG_LENGTH && lost < Pow(2, e) * (2 * Pow(BASE, BIG_LENGTH - Needed(precision)))
    ensures Near(w, m, f + e, precision)
  {
    hide Pow, Needed;
    Guarded(precision);
    PowBase(BIG_LENGTH - 1);
    PowAdd(2, f, e);
    PowPositive(2, f);
    PowPositive(2, e);
    PowPositive(10, 1125);
    PowPositive(10, precision + 17);
    Missing(Pow(2, f), Pow(2, e), w, lost, m * Pow(10, 1125));
    if lost > 0 {
      var need := Needed(precision);
      PowBase(BIG_LENGTH - need);
      PowAdd(10, 9 * (BIG_LENGTH - need), precision + 17);
      PowMonotone(10, 9 * (BIG_LENGTH - need) + precision + 17, 1125);
      MissingBelow(Pow(2, f), Pow(2, e), lost, Pow(10, 9 * (BIG_LENGTH - need)), Pow(10, precision + 17), Pow(10, 1125));
    } else {
      MulAtLeast(Pow(2, f + e), Pow(10, 1125));
    }
  }

  lemma Missing(p: nat, q: nat, w: int, lost: int, whole: int)
    requires p * (q * w + lost) == whole
    ensures whole - p * q * w == p * lost
  {
    MulAssociative(p, q, w);
  }

  lemma MissingBelow(p: nat, q: nat, lost: int, u: nat, g: nat, d: nat)
    requires p > 0 && q > 0 && g > 0 && lost < q * (2 * u) && u * g <= d
    ensures p * lost * g < 2 * (p * q) * d
  {
    StrictlyLess(lost, q * (2 * u), p);
    StrictlyLess(p * lost, p * (q * (2 * u)), g);
    MulAtLeast(p, q);
    MulMonotone(u * g, d, 2 * (p * q));
    assert p * (q * (2 * u)) * g == u * g * (2 * (p * q));
  }

  /** What the downward loop promises of the whole array, cut to `need` limbs. */
  ghost predicate CutTo(start: int, w: int, lost: int, e: nat, need: nat, fixed: bool) {
    Pow(2, e) * w + lost == start && 0 <= lost && if need >= BIG_LENGTH then lost == 0 else
      var unit := Pow(BASE, BIG_LENGTH - need);
      && (lost > 0 ==> lost < Pow(2, e) * (2 * unit)) && (Multiple(start, Pow(2, e) * unit) ==> lost == 0)
      && (fixed ==> Multiple(w, unit) && lost < Pow(2, e) * unit)
  }

  method ScaleLimbs(big: array<int>, z0: int, e: nat, fixed: bool, need: nat) returns (a: int, z: int, ghost lost: int)
    requires big.Length == BIG_LENGTH && 0 <= z0 && z0 + Passes(e) < BIG_LENGTH && e > 0 && Limbs(big[..], 0, z0)
    modifies big
    ensures 0 <= a < BIG_LENGTH && 0 <= z <= BIG_LENGTH && Limbs(big[..], a, z)
    ensures CutTo(old(Scaled(big[..], 0, z0)), Scaled(big[..], a, z), lost, e, need, fixed)
    ensures z0 + Passes(e) <= need || need >= BIG_LENGTH ==> lost == 0
    ensures !fixed && need > 0 && old(Leading(big[..], 0, z0)) ==>
      Small(lost, Pow(BASE, need - 1), Passes(e), old(Scaled(big[..], 0, z0)))
  {
    hide Leading, Small, Passes, Val, Pow, Scaled, Multiple, Limbs;
    a, z, lost := ScaleDown(big, 0, 0, z0, e, fixed, need);
  }

  /** The limbs of a double below one, with room for the passes downward. */
  method StartDown(m: nat, f: nat, e2: int) returns (big: array<int>, z: int)
    requires IsDouble(m, f, e2) && e2 < 0
    ensures fresh(big) && big.Length == BIG_LENGTH && 0 < z <= 1 + Passes(f) && z + Passes(-e2) < BIG_LENGTH && Limbs(big[..], 0, z)
    ensures Starts(m, f, Scaled(big[..], 0, z))
    ensures m == 0 || Pow(2, f) <= m ==> Leading(big[..], 0, z)
  {
    big := new int[BIG_LENGTH](_ => 0);
    ghost var ys;
    z, ys := FirstLimbs(big, 0, m, f);
  }

  /** The result in terms of the mantissa. */
  lemma DownResult(start: int, w: int, lost: int, m: nat, f: nat, e: nat, need: nat, fixed: bool)
    requires 1 <= need && Pow(2, f) * start == m * Pow(BASE, BIG_LENGTH - 1) && CutTo(start, w, lost, e, need, fixed)
    ensures lost >= 0 && SplitsInto(m, f, e, w, lost)
    ensures lost > 0 ==> need < BIG_LENGTH && lost < Pow(2, e) * (2 * Pow(BASE, BIG_LENGTH - need))
    ensures need < BIG_LENGTH ==> Rounded(w, lost, m, f + e, need, fixed)
  {
    hide Pow, Multiple, Rounded;
    if need < BIG_LENGTH { RoundedResult(start, w, lost, m, f, e, need, fixed); }
  }

  lemma RoundedResult(start: int, w: int, lost: int, m: nat, f: nat, e: nat, need: nat, fixed: bool)
    requires 1 <= need < BIG_LENGTH && Pow(2, f) * start == m * Pow(BASE, BIG_LENGTH - 1) && CutTo(start, w, lost, e, need, fixed)
    ensures Rounded(w, lost, m, f + e, need, fixed)
  {
    hide Pow, Multiple;
    Positive(f, e, need);
    PowAdd(BASE, need - 1, BIG_LENGTH - need);
    PowAdd(2, f, e);
    var u, b, p, q := Pow(BASE, BIG_LENGTH - need), Pow(BASE, need - 1), Pow(2, f), Pow(2, e);
    WholeStart(start, m, b, u, p, q);
    if fixed { FloorResult(start, w, lost, m, b, u, p, q); }
  }

  lemma Positive(f: nat, e: nat, need: nat)
    requires 1 <= need < BIG_LENGTH
    ensures Pow(2, f) > 0 && Pow(2, e) > 0 && Pow(BASE, BIG_LENGTH - need) > 0 && Pow(2, f + e) > 0
  {
    PowPositive(2, f);
    PowPositive(2, e);
    PowPositive(2, f + e);
    PowPositive(BASE, BIG_LENGTH - need);
  }

  /** What the last unit kept divides, in terms of the mantissa. */
  lemma WholeStart(start: int, m: nat, b: nat, u: nat, p: nat, q: nat)
    requires u > 0 && p > 0 && q > 0 && p * start == m * (b * u)
    ensures Multiple(m * b, p * q) <==> Multiple(start, q * u)
  {
    MulAtLeast(p, q);
    MulAtLeast(q, u);
    if Multiple(m * b, p * q) {
      var j := m * b / (p * q);
      WholeFrom(start, m, b, u, p, q, j);
      hide Multiple;
      MultipleTimes(j, q * u);
    }
    if Multiple(start, q * u) {
      var j := start / (q * u);
      WholeTo(start, m, b, u, p, q, j);
      hide Multiple;
      MultipleTimes(j, p * q);
    }
  }

  lemma WholeFrom(start: int, m: nat, b: nat, u: nat, p: nat, q: nat, j: int)
    requires p > 0 && p * start == m * (b * u) && m * b == p * q * j
    ensures start == j * (q * u)
  {
    MulAssociative(m, b, u);
    Regroup(p, q, j, u);
    CancelLeft(p, start, j * (q * u));
  }

  lemma WholeTo(start: int, m: nat, b: nat, u: nat, p: nat, q: nat, j: int)
    requires u > 0 && p * start == m * (b * u) && start == j * (q * u)
    ensures m * b == j * (p * q)
  {
    MulAssociative(m, b, u);
    Regroup(p, q, j, u);
    CancelLeft(u, m * b, j * (p * q));
  }

  lemma Regroup(p: int, q: int, j: int, u: int)
    ensures p * (j * (q * u)) == p * q * j * u == u * (j * (p * q))
  {
  }

  lemma CancelLeft(p: int, x: int, y: int)
    requires p > 0 && p * x == p * y
    ensures x == y
  {
    if x > y { StrictlyLess(y, x, p); }
    if x < y { StrictlyLess(x, y, p); }
  }

  lemma FloorResult(start: int, w: int, lost: int, m: nat, b: nat, u: nat, p: nat, q: nat)
    requires u > 0 && p > 0 && q > 0 && p * start == m * (b * u) && q * w + lost == start
    requires Multiple(w, u) && 0 <= lost < q * u
    ensures p * q > 0 && w == m * b / (p * q) * u && (lost == 0 <==> Multiple(m * b, p * q))
  {
    var i := w / u;
    var d := m * b - p * q * i;
    assert w == i * u;
    MulAssociative(m, b, u);
    assert p * (q * (i * u)) == p * q * i * u;
    assert d * u == p * lost;
    MulAtLeast(p, q);
    StrictlyLess(lost, q * u, p);
    assert d * u < p * q * u by { MulAssociative(p, q, u); }
    if d >= p * q { MulMonotone(p * q, d, u); }
    if d < 0 { MulMonotone(d, -1, u); MulMonotone(0, lost, p); }
    DivModUnique(m * b, p * q, i, d);
    if lost > 0 { MulAtLeast(p, lost); }
  }

  lemma MantissaBound(m: nat, f: nat)
    requires m < Pow(2, 29) * Pow(2, f) && f <= 24
    ensures m < Pow(2, MANT_DIG)
  {
    PowAdd(2, 29, f);
    PowMonotone(2, 29 + f, MANT_DIG);
  }

  lemma FirstLimbBound(m: nat, f: nat)
    requires m < Pow(2, 29) * Pow(2, f)
    ensures m < BASE * Pow(2, f)
  {
    Pow2Small(29);
    PowPositive(2, f);
    MulMonotone(Pow(2, 29), BASE, Pow(2, f));
  }

  lemma FilledScaled(p: int, v: int, m: int, q: int, w: int)
    requires p * v == m * q
    ensures p * (v * w) == m * (q * w)
  {
  }

  // ----- Decimal digits -----

  const ULONG_MAX := 0xffff_ffff

  /** The number written by decimal digits a..z. */
  ghost function Dec(s: seq<int>, a: int, z: int): int
    requires 0 <= a && z <= |s|
    decreases z - a
  {
    if a >= z then 0 else s[a] * Pow(10, z - a - 1) + Dec(s, a + 1, z)
  }

  lemma {:induction false} DecFrame(s: seq<int>, t: seq<int>, a: int, z: int)
    requires 0 <= a && z <= |s| && z <= |t| && forall i :: a <= i < z ==> s[i] == t[i]
    ensures Dec(s, a, z) == Dec(t, a, z)
    decreases z - a
  {
    if a < z {
      DecFrame(s, t, a + 1, z);
    }
  }

  /** The state of `fmt_u` with `x` still to write in front of position `s`: what is written and what is left make up the number,
      and what is left fits in the room left. */
  ghost predicate Writing(b: seq<int>, s: int, end: int, x: int, whole: int) {
    && 0 <= s <= end <= |b| && 0 <= x < Pow(10, s) && x * Pow(10, end - s) + Dec(b, s, end) == whole
    && (forall i :: s <= i < end ==> 0 <= b[i] <= 9) && (s < end && x == 0 ==> b[s] != 0)
  }

  /** One digit of `fmt_u`. */
  method PutDigit(buf: array<int>, s: int, end: int, x: nat, ghost whole: int) returns (s': int, x': nat)
    requires Writing(buf[..], s, end, x, whole) && x > 0
    modifies buf
    ensures s' == s - 1 && x' == x / 10 && Writing(buf[..], s', end, x', whole)
    ensures forall i :: 0 <= i < buf.Length && !(s' <= i < end) ==> buf[i] == old(buf[i])
  {
    assert Pow(10, 0) == 1;
    ghost var t := buf[..];
    s' := s - 1;
    buf[s'] := x % 10;
    x' := x / 10;
    DecFrame(t, buf[..], s, end);
    assert Pow(10, s) == 10 * Pow(10, s - 1) && Pow(10, end - s') == 10 * Pow(10, end - s);
    DigitArithmetic(x, Pow(10, end - s));
  }

  lemma DigitArithmetic(x: nat, w: int)
    ensures x / 10 * (10 * w) + x % 10 * w == x * w
  {
  }

  /** `fmt_u`: writes x in decimal, ending at `end`. It never runs off the front of a buffer with a digit's room for each power
      of ten, so nine places are enough for a limb, and there are no leading zeros. */
  method FmtU(buf: array<int>, end: int, x: nat) returns (s: int)
    requires 0 <= end <= buf.Length && x < Pow(10, end)
    modifies buf
    ensures 0 <= s <= end && Dec(buf[..], s, end) == x && (forall i :: s <= i < end ==> 0 <= buf[i] <= 9)
    ensures (x == 0 <==> s == end) && (s < end ==> buf[s] != 0)
    ensures forall i :: 0 <= i < buf.Length && !(s <= i < end) ==> buf[i] == old(buf[i])
  {
    s := end;
    var left := x;
    assert Pow(10, 0) == 1;
    while left > ULONG_MAX
      invariant Writing(buf[..], s, end, left, x) && (x == 0 ==> s == end)
      invariant forall i :: 0 <= i < buf.Length && !(s <= i < end) ==> buf[i] == old(buf[i])
      decreases left
    {
      s, left := PutDigit(buf, s, end, left, x);
    }
    var y := left;
    while y != 0
      invariant Writing(buf[..], s, end, y, x) && (x == 0 ==> s == end)
      invariant forall i :: 0 <= i < buf.Length && !(s <= i < end) ==> buf[i] == old(buf[i])
      decreases y
    {
      s, y := PutDigit(buf, s, end, y, x);
    }
  }

  /** `fmt_u(*d, buf+9)`: the nine places `fmt_fp` gives a limb are enough for every limb. */
  method FmtLimb(buf: array<int>, limb: nat) returns (s: int)
    requires limb < BASE && buf.Length >= 9
    modifies buf
    ensures 0 <= s <= 9 && Dec(buf[..], s, 9) == limb && (forall i :: s <= i < 9 ==> 0 <= buf[i] <= 9) && (s < 9 ==> buf[s] != 0)
    ensures forall i :: 0 <= i < buf.Length && !(s <= i < 9) ==> buf[i] == old(buf[i])
  {
    assert Pow(10, 9) == BASE;
    hide Pow, Dec;
    s := FmtU(buf, 9, limb);
  }
}
