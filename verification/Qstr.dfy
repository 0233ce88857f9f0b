/** Strings with a cached hash (src/kernel/src/ds/qstr.c). Characters are bytes and `data` is followed by NUL. */
module Qstr {
  import opened Arith
  import opened Common

  const TWO32: nat := 0x1_0000_0000

  /** djb2, in 32 bits. */
  ghost function Djb2(s: seq<byte>): nat {
    if s == [] then 5381 else (Djb2(s[..|s| - 1]) * 33 + s[|s| - 1]) % TWO32
  }

  /** 0 means that no hash is cached, so a hash of 0 is stored as 42. */
  ghost function Adjusted(s: seq<byte>): nat {
    if Djb2(s) == 0 then 42 else Djb2(s)
  }

  /** The sum of all characters, each with the power of 33 that its place from the end has. */
  ghost function Weighted(s: seq<byte>): nat {
    if s == [] then 0 else s[0] * Pow(33, |s| - 1) + Weighted(s[1..])
  }

  /** The hash in one formula. */
  ghost predicate IsHash(s: seq<byte>, hash: nat) {
    var h := (5381 * Pow(33, |s|) + Weighted(s)) % 0x1_0000_0000;
    hash == if h == 0 then 42 else h
  }

  lemma {:induction false} WeightedAppend(s: seq<byte>, c: byte)
    ensures Weighted(s + [c]) == Weighted(s) * 33 + c
  {
    if s == [] {
      assert Pow(33, 0) == 1;
      assert (s + [c])[1..] == [];
    } else {
      assert (s + [c])[1..] == s[1..] + [c];
      WeightedAppend(s[1..], c);
      var p := Pow(33, |s| - 1);
      assert Pow(33, |s|) == 33 * p;
      hide Pow, Weighted;
      MulAssociative(s[0], p, 33);
    }
  }

  lemma {:induction false} HashClosed(s: seq<byte>)
    ensures Djb2(s) == (5381 * Pow(33, |s|) + Weighted(s)) % 0x1_0000_0000
  {
    if s == [] {
      assert Pow(33, 0) == 1;
    } else {
      var n := |s| - 1;
      HashClosed(s[..n]);
      assert s == s[..n] + [s[n]];
      WeightedAppend(s[..n], s[n]);
      assert Pow(33, |s|) == 33 * Pow(33, n);
      hide Pow, Weighted;
      HashStep(5381 * Pow(33, n) + Weighted(s[..n]), s[n]);
    }
  }

  lemma HashStep(x: nat, c: byte)
    ensures (x % TWO32 * 33 + c) % TWO32 == (x * 33 + c) % TWO32
  {
    var r := (x % TWO32) * 33 + c;
    DivModUnique(x * 33 + c, TWO32, x / TWO32 * 33 + r / TWO32, r % TWO32);
  }

  lemma AdjustedClosed(s: seq<byte>)
    ensures IsHash(s, Adjusted(s))
  {
    HashClosed(s);
  }

  /** hash = ((hash << 5) + hash) + c */
  function NextHash(hash: nat, c: byte): nat {
    ((hash * 32 % TWO32 + hash) % TWO32 + c) % TWO32
  }

  lemma NextIsDjb2(hash: nat, c: byte)
    requires hash < TWO32
    ensures NextHash(hash, c) == (hash * 33 + c) % TWO32
  {
    ModAdd(hash * 32, hash);
    ModAdd(hash * 33, c);
  }

  lemma ModAdd(x: nat, y: int)
    ensures (x % TWO32 + y) % TWO32 == (x + y) % TWO32
  {
    var z := x % TWO32 + y;
    DivModUnique(x + y, TWO32, x / TWO32 + z / TWO32, z % TWO32);
  }

  class Qstr {
    const data: seq<byte>
    const length: nat
    var hash: nat

    /** The characters contain no NUL and a cached hash is the right one. */
    ghost predicate Valid()
      reads this
    {
      0 !in data && length == |data| && (hash == 0 || hash == Adjusted(data))
    }

    /** `qstr_from_length_string` */
    constructor (data: seq<byte>)
      requires 0 !in data
      ensures Valid() && this.data == data && hash == 0
    {
      this.data, length, hash := data, |data|, 0;
    }
  }

  /** The loop of `__eq`: the hash of left, and whether left's characters are found at the start of the other string, which is read no
      further than its NUL. */
  method Scan(left: seq<byte>, right: seq<byte>) returns (hash: nat, equal: bool)
    requires 0 !in left && 0 !in right
    ensures hash == Adjusted(left) && IsHash(left, hash) && (equal <==> left <= right)
  {
    AdjustedClosed(left);
    hide NextHash, IsHash;
    hash, equal := 5381, true;
    var i := 0;
    while i < |left|
      invariant 0 <= i <= |left| && hash == Djb2(left[..i]) < TWO32
      invariant equal <==> left[..i] <= right
    {
      var c := left[i];
      assert left[..i + 1][..i] == left[..i];
      NextIsDjb2(hash, c);
      hash := NextHash(hash, c);
      if equal {
        var r: byte := if i < |right| then right[i] else 0;
        if c != r { equal := false; }
      }
      i := i + 1;
    }
    assert left[..i] == left;
    if hash == 0 { hash := 42; }
  }

  /** `qstr_eq`: content equality, whatever has been cached before. */
  method Eq(left: Qstr, right: Qstr) returns (equal: bool)
    requires left.Valid() && right.Valid()
    modifies left`hash, right`hash
    ensures left.Valid() && right.Valid() && (equal <==> left.data == right.data)
    ensures old(left.hash) != 0 ==> left.hash == old(left.hash)
    ensures old(right.hash) != 0 ==> right.hash == old(right.hash)
    ensures equal ==> left.hash == right.hash != 0
  {
    hide Djb2;
    if left.hash != 0 && right.hash != 0 && left.hash != right.hash { return false; }
    if left.length != right.length { return false; }
    var hash;
    hash, equal := Scan(left.data, right.data);
    assert left.data <= right.data <==> left.data == right.data;
    left.hash := hash;
    if equal { right.hash := hash; }
  }

  /** `qstr_hash`: compares with the empty string to fill the cache. */
  method Hash(q: Qstr)
    requires q.Valid()
    modifies q`hash
    ensures q.Valid() && q.hash == Adjusted(q.data) != 0 && IsHash(q.data, q.hash)
  {
    AdjustedClosed(q.data);
    hide IsHash;
    var hash, equal := Scan(q.data, []);
    q.hash := hash;
  }

  datatype Op = Compare(left: nat, right: nat) | Store(q: nat)

  /** In every sequence of compares and hashes each compare answers content equality, and every cache stays right. */
  method Run(strings: seq<Qstr>, ops: seq<Op>) returns (answers: map<nat, bool>)
    requires forall i :: 0 <= i < |strings| ==> strings[i].Valid()
    requires forall k :: 0 <= k < |ops| ==> match ops[k] case Compare(l, r) => l < |strings| && r < |strings| case Store(q) => q < |strings|
    modifies set i | 0 <= i < |strings| :: strings[i]
    ensures forall i :: 0 <= i < |strings| ==> strings[i].Valid()
    ensures forall k :: 0 <= k < |ops| && ops[k].Compare? ==>
      k in answers && answers[k] == (strings[ops[k].left].data == strings[ops[k].right].data)
  {
    hide Djb2, Adjusted;
    answers := map[];
    for k := 0 to |ops|
      invariant forall i :: 0 <= i < |strings| ==> strings[i].Valid()
      invariant forall n :: 0 <= n < k && ops[n].Compare? ==>
        n in answers && answers[n] == (strings[ops[n].left].data == strings[ops[n].right].data)
    {
      match ops[k]
      case Compare(l, r) =>
        var equal := Eq(strings[l], strings[r]);
        answers := answers[k := equal];
      case Store(q) =>
        Hash(strings[q]);
    }
  }
}
