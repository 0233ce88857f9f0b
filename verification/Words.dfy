/** Machine words over bytes, little-endian, for the word-at-a-time string functions of the user C library. */
module Words {

  /** The 32-bit word at `i`. */
  function WordAt(s: seq<bv8>, i: nat): bv32
    requires i + 4 <= |s|
  {
    OfBytes(s[i], s[i + 1], s[i + 2], s[i + 3])
  }

  function OfBytes(b0: bv8, b1: bv8, b2: bv8, b3: bv8): bv32 {
    (b0 as bv32) | (b1 as bv32 << 8) | (b2 as bv32 << 16) | (b3 as bv32 << 24)
  }

  function ByteOf(w: bv32, k: nat): bv8
    requires k < 4
  {
    match k
    case 0 => (w & 0xff) as bv8
    case 1 => ((w >> 8) & 0xff) as bv8
    case 2 => ((w >> 16) & 0xff) as bv8
    case 3 => ((w >> 24) & 0xff) as bv8
  }

  lemma BytesBack(b0: bv8, b1: bv8, b2: bv8, b3: bv8)
    ensures var w := OfBytes(b0, b1, b2, b3);
      ByteOf(w, 0) == b0 && ByteOf(w, 1) == b1 && ByteOf(w, 2) == b2 && ByteOf(w, 3) == b3
  {
  }

  /** A load from an aligned address. */
  method Load(s: array<bv8>, addr: nat, i: nat) returns (w: bv32)
    requires i + 4 <= s.Length && (addr + i) % 4 == 0
    ensures w == WordAt(s[..], i)
  {
    w := OfBytes(s[i], s[i + 1], s[i + 2], s[i + 3]);
  }

  /** A store to an aligned address of the word found at `i` in `s`. */
  method Store(d: array<bv8>, addr: nat, j: nat, w: bv32, ghost s: seq<bv8>, ghost i: nat)
    requires j + 4 <= d.Length && (addr + j) % 4 == 0 && i + 4 <= |s| && w == WordAt(s, i)
    modifies d
    ensures d[..] == old(d[..])[..j] + s[i..i + 4] + old(d[..])[j + 4..]
  {
    BytesBack(s[i], s[i + 1], s[i + 2], s[i + 3]);
    d[j], d[j + 1], d[j + 2], d[j + 3] := ByteOf(w, 0), ByteOf(w, 1), ByteOf(w, 2), ByteOf(w, 3);
  }
}
