/** `memchr` of the user C library (src/user/libc/string/memchr.c): a word at a time, with the borrow trick. */
module Memchr {
  import opened Common
  import opened Words

  const ONES: bv32 := 0x0101_0101
  const HIGHS: bv32 := 0x8080_8080

  /** HASZERO(x): (x - ONES) & ~x & HIGHS */
  function HasZero(x: bv32): bv32 {
    (x - ONES) & !x & HIGHS
  }

  /** The trick is exact: it is non-zero just when one of the four bytes is. */
  lemma HasZeroExact(b0: bv8, b1: bv8, b2: bv8, b3: bv8)
    ensures HasZero(OfBytes(b0, b1, b2, b3)) != 0 <==> b0 == 0 || b1 == 0 || b2 == 0 || b3 == 0
  {
  }

  /** ONES * c: the byte c in all four places. */
  function Key(c: bv8): bv32 {
    ONES * (c as bv32)
  }

  lemma KeyBytes(c: bv8)
    ensures Key(c) == OfBytes(c, c, c, c)
  {
  }

  function Xor(v: bv32, w: bv32): bv32 {
    v ^ w
  }

  function XorByte(a: bv8, b: bv8): bv8 {
    a ^ b
  }

  lemma ByteXorRaw(v: bv32, w: bv32)
    ensures ByteOf(v ^ w, 0) == ByteOf(v, 0) ^ ByteOf(w, 0) && ByteOf(v ^ w, 1) == ByteOf(v, 1) ^ ByteOf(w, 1)
    ensures ByteOf(v ^ w, 2) == ByteOf(v, 2) ^ ByteOf(w, 2) && ByteOf(v ^ w, 3) == ByteOf(v, 3) ^ ByteOf(w, 3)
  {
  }

  lemma ByteXor(v: bv32, w: bv32)
    ensures ByteOf(Xor(v, w), 0) == XorByte(ByteOf(v, 0), ByteOf(w, 0)) && ByteOf(Xor(v, w), 1) == XorByte(ByteOf(v, 1), ByteOf(w, 1))
    ensures ByteOf(Xor(v, w), 2) == XorByte(ByteOf(v, 2), ByteOf(w, 2)) && ByteOf(Xor(v, w), 3) == XorByte(ByteOf(v, 3), ByteOf(w, 3))
  {
    hide ByteOf;
    ByteXorRaw(v, w);
  }

  lemma WordBack(w: bv32)
    ensures OfBytes(ByteOf(w, 0), ByteOf(w, 1), ByteOf(w, 2), ByteOf(w, 3)) == w
  {
  }

  lemma XorBytes(b0: bv8, b1: bv8, b2: bv8, b3: bv8, c: bv8)
    ensures Xor(OfBytes(b0, b1, b2, b3), OfBytes(c, c, c, c)) == OfBytes(XorByte(b0, c), XorByte(b1, c), XorByte(b2, c), XorByte(b3, c))
  {
    hide OfBytes, ByteOf, Xor, XorByte;
    var v, w := OfBytes(b0, b1, b2, b3), OfBytes(c, c, c, c);
    BytesBack(b0, b1, b2, b3);
    BytesBack(c, c, c, c);
    ByteXor(v, w);
    WordBack(Xor(v, w));
  }

  lemma XorZero(b: bv8, c: bv8)
    ensures XorByte(b, c) == 0 <==> b == c
  {
  }

  /** A word holds the byte c exactly when HASZERO says so of the word xored with c in every place. */
  lemma WordHolds(s: seq<bv8>, i: nat, c: bv8)
    requires i + 4 <= |s|
    ensures HasZero(Xor(WordAt(s, i), Key(c))) != 0 <==> s[i] == c || s[i + 1] == c || s[i + 2] == c || s[i + 3] == c
  {
    hide OfBytes, HasZero, Key, Xor, XorByte;
    KeyBytes(c);
    XorBytes(s[i], s[i + 1], s[i + 2], s[i + 3], c);
    HasZeroExact(XorByte(s[i], c), XorByte(s[i + 1], c), XorByte(s[i + 2], c), XorByte(s[i + 3], c));
    XorZero(s[i], c);
    XorZero(s[i + 1], c);
    XorZero(s[i + 2], c);
    XorZero(s[i + 3], c);
  }

  /** `memchr`: the first index that holds c, or none when no byte does. Only the n bytes are read. */
  method Memchr(s: array<bv8>, addr: nat, c: bv8) returns (r: Option<nat>)
    ensures r.None? <==> c !in s[..]
    ensures r.Some? ==> r.value < s.Length && s[r.value] == c && c !in s[..r.value]
  {
    hide WordAt, HasZero, Key, Xor;
    var i := 0;
    while (addr + i) % 4 != 0 && i < s.Length && s[i] != c
      invariant i <= s.Length && c !in s[..i]
      decreases s.Length - i
    {
      i := i + 1;
    }
    if i < s.Length && s[i] != c {
      var k := Key(c);
      while s.Length - i >= 4
        invariant i <= s.Length && (addr + i) % 4 == 0 && c !in s[..i]
      {
        var w := Load(s, addr, i);
        WordHolds(s[..], i, c);
        if HasZero(Xor(w, k)) != 0 {
          break;
        }
        i := i + 4;
      }
      while i < s.Length && s[i] != c
        invariant i <= s.Length && c !in s[..i]
      {
        i := i + 1;
      }
    }
    if i < s.Length {
      assert s[..][i] == c;
      return Some(i);
    }
    return None;
  }
}
