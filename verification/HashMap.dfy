/** The chained hash map (src/kernel/src/ds/bpf/HashMap.c). Bucket chains are sequences, first entry first. Keys are compared by the
    map's own `equal`, an equivalence that `hash` respects. Whether kcalloc and kmalloc succeed is an input of the operation. */
module HashMap {
  import opened Common
  import opened Arith

  datatype Entry<K, V> = Entry(key: K, value: V)

  datatype Strategy = Add | Set | Update | Append

  const MIN_CAP_BITS: nat := 2

  /** `hash_bits`: the upper `bits` bits of a multiplicative hash (HashMap.h:17-20). A map without buckets has no bits; what is computed
      there is not used. */
  function HashBits(h: nat, bits: nat): (r: nat)
    requires bits <= 32
    ensures r < Pow(2, bits)
  {
    PowAdd(2, bits, 32 - bits);
    PowPositive(2, 32 - bits);
    PowPositive(2, 32);
    var x := h * 11400714819323198485 % Pow(2, 32);
    QuotientBelow(x, Pow(2, bits), Pow(2, 32 - bits));
    x / Pow(2, 32 - bits)
  }

  lemma QuotientBelow(x: nat, a: nat, b: nat)
    requires b > 0 && x < a * b
    ensures x / b < a
  {
  }

  /** They are the upper bits of the 32-bit product. */
  lemma UpperBits(h: nat, bits: nat)
    requires bits <= 32
    ensures var p := Pow(2, 32 - bits);
      HashBits(h, bits) * p <= h * 11400714819323198485 % 0x1_0000_0000 < (HashBits(h, bits) + 1) * p
  {
    assert Pow(2, 32) == 0x1_0000_0000 by { PowAdd(2, 16, 16); PowAdd(2, 8, 8); assert Pow(2, 8) == 256; }
    PowPositive(2, 32 - bits);
    var x, p := h * 11400714819323198485 % Pow(2, 32), Pow(2, 32 - bits);
    hide Pow;
    QuotientParts(x, p);
  }

  lemma QuotientParts(x: nat, p: nat)
    requires p > 0
    ensures x / p * p <= x < (x / p + 1) * p
  {
  }

  // ---- chains ----

  /** `equal` is an equivalence and equal keys hash alike. */
  ghost predicate Lawful<K(!new)>(hash: K -> nat, equal: (K, K) -> bool) {
    && (forall a :: equal(a, a))
    && (forall a, b :: equal(a, b) ==> equal(b, a) && hash(a) == hash(b))
    && (forall a, b, c :: equal(a, b) && equal(b, c) ==> equal(a, c))
  }

  /** The entries of a chain whose key equals k, in order. */
  ghost function Match<K, V>(s: seq<Entry<K, V>>, k: K, equal: (K, K) -> bool): seq<Entry<K, V>> {
    if s == [] then [] else (if equal(s[0].key, k) then [s[0]] else []) + Match(s[1..], k, equal)
  }

  ghost function Reverse<T>(s: seq<T>): seq<T> {
    if s == [] then [] else Reverse(s[1..]) + [s[0]]
  }

  lemma {:induction false} ReverseAppend<T>(s: seq<T>, x: T)
    ensures Reverse(s + [x]) == [x] + Reverse(s)
  {
    if s != [] {
      assert (s + [x])[1..] == s[1..] + [x];
      ReverseAppend(s[1..], x);
    }
  }

  lemma Associative<T>(a: seq<T>, b: seq<T>, c: seq<T>)
    ensures a + b + c == a + (b + c)
  {
  }

  lemma MatchUnfold<K, V>(s: seq<Entry<K, V>>, k: K, equal: (K, K) -> bool)
    requires s != []
    ensures Match(s, k, equal) == (if equal(s[0].key, k) then [s[0]] else []) + Match(s[1..], k, equal)
  {
  }

  lemma {:induction false} MatchConcat<K, V>(s: seq<Entry<K, V>>, t: seq<Entry<K, V>>, k: K, equal: (K, K) -> bool)
    ensures Match(s + t, k, equal) == Match(s, k, equal) + Match(t, k, equal)
  {
    if s == [] {
      assert s + t == t;
    } else {
      hide Match;
      MatchConcat(s[1..], t, k, equal);
      MatchUnfold(s, k, equal);
      MatchUnfold(s + t, k, equal);
      assert (s + t)[1..] == s[1..] + t;
      Associative(if equal(s[0].key, k) then [s[0]] else [], Match(s[1..], k, equal), Match(t, k, equal));
    }
  }

  lemma {:induction false} MatchNone<K, V>(s: seq<Entry<K, V>>, k: K, equal: (K, K) -> bool)
    requires forall i :: 0 <= i < |s| ==> !equal(s[i].key, k)
    ensures Match(s, k, equal) == []
  {
    if s != [] { MatchNone(s[1..], k, equal); }
  }

  lemma MatchOne<K, V>(e: Entry<K, V>, k: K, equal: (K, K) -> bool)
    ensures Match([e], k, equal) == if equal(e.key, k) then [e] else []
  {
  }

  /** The first match of k stands at p. */
  lemma MatchFirst<K, V>(s: seq<Entry<K, V>>, p: nat, k: K, equal: (K, K) -> bool)
    requires p < |s| && equal(s[p].key, k) && forall i :: 0 <= i < p ==> !equal(s[i].key, k)
    ensures Match(s, k, equal) == [s[p]] + Match(s[p + 1..], k, equal)
  {
    hide Match;
    assert s == s[..p] + ([s[p]] + s[p + 1..]);
    MatchConcat(s[..p], [s[p]] + s[p + 1..], k, equal);
    MatchConcat([s[p]], s[p + 1..], k, equal);
    MatchNone(s[..p], k, equal);
    MatchOne(s[p], k, equal);
  }

  /** What the chain with its entry at p replaced by `mid` holds for j. */
  lemma MatchSplice<K, V>(s: seq<Entry<K, V>>, p: nat, mid: seq<Entry<K, V>>, j: K, equal: (K, K) -> bool)
    requires p < |s|
    ensures Match(s[..p] + mid + s[p + 1..], j, equal) == Match(s[..p], j, equal) + Match(mid, j, equal) + Match(s[p + 1..], j, equal)
    ensures Match(s, j, equal) == Match(s[..p], j, equal) + Match([s[p]], j, equal) + Match(s[p + 1..], j, equal)
  {
    MatchConcat(s[..p] + mid, s[p + 1..], j, equal);
    MatchConcat(s[..p], mid, j, equal);
    assert s == s[..p] + [s[p]] + s[p + 1..];
    MatchConcat(s[..p] + [s[p]], s[p + 1..], j, equal);
    MatchConcat(s[..p], [s[p]], j, equal);
  }

  // ---- buckets ----

  ghost function Flatten<T>(b: seq<seq<T>>): seq<T> {
    if b == [] then [] else Flatten(b[..|b| - 1]) + b[|b| - 1]
  }

  ghost predicate InPlace<K, V>(b: seq<seq<Entry<K, V>>>, bits: nat, hash: K -> nat)
    requires bits <= 32
  {
    forall i, p :: 0 <= i < |b| && 0 <= p < |b[i]| ==> HashBits(hash(b[i][p].key), bits) == i
  }

  /** Replacing one chain changes the number of entries by the difference. */
  lemma {:induction false} FlattenUpdate<T>(b: seq<seq<T>>, i: nat, c: seq<T>)
    requires i < |b|
    ensures |Flatten(b[i := c])| == |Flatten(b)| - |b[i]| + |c|
  {
    var n := |b| - 1;
    var b' := b[i := c];
    if i < n {
      assert b'[..n] == b[..n][i := c];
      FlattenUpdate(b[..n], i, c);
    } else {
      assert b'[..n] == b[..n];
    }
  }

  /** All the matches of a key are in the bucket of its hash, so a chain search sees the whole map. */
  lemma {:induction false} MatchFlatten<K(!new), V>(b: seq<seq<Entry<K, V>>>, bits: nat, hash: K -> nat, equal: (K, K) -> bool, k: K)
    requires bits <= 32 && InPlace(b, bits, hash) && Lawful(hash, equal)
    ensures var h := HashBits(hash(k), bits);
      Match(Flatten(b), k, equal) == if h < |b| then Match(b[h], k, equal) else []
  {
    hide HashBits;
    var h := HashBits(hash(k), bits);
    if b != [] {
      var n := |b| - 1;
      MatchFlatten(b[..n], bits, hash, equal, k);
      MatchConcat(Flatten(b[..n]), b[n], k, equal);
      if h != n { MatchNone(b[n], k, equal); }
    }
  }

  /** Replacing the chain of bucket h by `c` changes what the map holds for j only if j belongs to h. */
  lemma MatchUpdate<K(!new), V>(b: seq<seq<Entry<K, V>>>, bits: nat, hash: K -> nat, equal: (K, K) -> bool, h: nat, c: seq<Entry<K, V>>,
                      j: K)
    requires bits <= 32 && InPlace(b, bits, hash) && Lawful(hash, equal) && h < |b| && InPlace(b[h := c], bits, hash)
    ensures Match(Flatten(b[h := c]), j, equal) == if HashBits(hash(j), bits) == h then Match(c, j, equal) else Match(Flatten(b), j, equal)
  {
    hide HashBits, Match, Flatten, InPlace, Lawful;
    MatchFlatten(b, bits, hash, equal, j);
    MatchFlatten(b[h := c], bits, hash, equal, j);
  }

  ghost predicate BelongsTo<K, V>(c: seq<Entry<K, V>>, h: nat, bits: nat, hash: K -> nat)
    requires bits <= 32
  {
    forall p :: 0 <= p < |c| ==> HashBits(hash(c[p].key), bits) == h
  }

  lemma InPlaceUpdate<K, V>(b: seq<seq<Entry<K, V>>>, bits: nat, hash: K -> nat, h: nat, c: seq<Entry<K, V>>)
    requires bits <= 32 && InPlace(b, bits, hash) && h < |b| && BelongsTo(c, h, bits, hash)
    ensures InPlace(b[h := c], bits, hash)
  {
  }

  /** One chain's search or change is the map's: what bucket h holds for a key that hashes there. */
  lemma MatchBucket<K(!new), V>(b: seq<seq<Entry<K, V>>>, bits: nat, hash: K -> nat, equal: (K, K) -> bool, k: K)
    requires bits <= 32 && InPlace(b, bits, hash) && Lawful(hash, equal) && HashBits(hash(k), bits) < |b|
    ensures Match(Flatten(b), k, equal) == Match(b[HashBits(hash(k), bits)], k, equal)
  {
    hide HashBits;
    MatchFlatten(b, bits, hash, equal, k);
  }

  /** The rehashed buckets hold, for every key, the entries of `done` in reverse order. */
  ghost predicate Reversed<K(!new), V>(nb: seq<seq<Entry<K, V>>>, done: seq<Entry<K, V>>, equal: (K, K) -> bool) {
    forall k :: Match(Flatten(nb), k, equal) == Reverse(Match(done, k, equal))
  }

  lemma PushReversed<K(!new), V>(nb: seq<seq<Entry<K, V>>>, bits: nat, hash: K -> nat, equal: (K, K) -> bool, done: seq<Entry<K, V>>,
                       e: Entry<K, V>)
    requires bits <= 32 && InPlace(nb, bits, hash) && Lawful(hash, equal) && Reversed(nb, done, equal) && |nb| == Pow(2, bits)
    ensures var h := HashBits(hash(e.key), bits);
      && InPlace(nb[h := [e] + nb[h]], bits, hash)
      && Reversed(nb[h := [e] + nb[h]], done + [e], equal)
      && |Flatten(nb[h := [e] + nb[h]])| == |Flatten(nb)| + 1
  {
    hide HashBits, Match, Flatten, Reverse, Pow;
    var h := HashBits(hash(e.key), bits);
    var nb' := nb[h := [e] + nb[h]];
    InPlaceUpdate(nb, bits, hash, h, [e] + nb[h]);
    FlattenUpdate(nb, h, [e] + nb[h]);
    forall k ensures Match(Flatten(nb'), k, equal) == Reverse(Match(done + [e], k, equal)) {
      PushedFor(nb, bits, hash, equal, done, e, k);
    }
  }

  /** Pushing an entry puts it before all others of its key, and leaves the other keys alone. */
  lemma PushMatches<K(!new), V>(b: seq<seq<Entry<K, V>>>, bits: nat, hash: K -> nat, equal: (K, K) -> bool, e: Entry<K, V>, k: K)
    requires bits <= 32 && InPlace(b, bits, hash) && Lawful(hash, equal) && |b| == Pow(2, bits)
    requires var h := HashBits(hash(e.key), bits); InPlace(b[h := [e] + b[h]], bits, hash)
    ensures var h := HashBits(hash(e.key), bits);
      Match(Flatten(b[h := [e] + b[h]]), k, equal) == (if equal(e.key, k) then [e] else []) + Match(Flatten(b), k, equal)
  {
    hide HashBits, Match, Flatten, Pow, InPlace;
    var h := HashBits(hash(e.key), bits);
    MatchUpdate(b, bits, hash, equal, h, [e] + b[h], k);
    MatchConcat([e], b[h], k, equal);
    MatchOne(e, k, equal);
    if HashBits(hash(k), bits) == h { MatchBucket(b, bits, hash, equal, k); }
  }

  lemma PushedFor<K(!new), V>(nb: seq<seq<Entry<K, V>>>, bits: nat, hash: K -> nat, equal: (K, K) -> bool, done: seq<Entry<K, V>>,
                    e: Entry<K, V>, k: K)
    requires bits <= 32 && InPlace(nb, bits, hash) && Lawful(hash, equal) && |nb| == Pow(2, bits)
    requires Match(Flatten(nb), k, equal) == Reverse(Match(done, k, equal))
    requires var h := HashBits(hash(e.key), bits); InPlace(nb[h := [e] + nb[h]], bits, hash)
    ensures var h := HashBits(hash(e.key), bits);
      Match(Flatten(nb[h := [e] + nb[h]]), k, equal) == Reverse(Match(done + [e], k, equal))
  {
    hide HashBits, Match, Flatten, Reverse, Pow, InPlace;
    PushMatches(nb, bits, hash, equal, e, k);
    MatchConcat(done, [e], k, equal);
    MatchOne(e, k, equal);
    if equal(e.key, k) {
      ReverseAppend(Match(done, k, equal), e);
    } else {
      assert Match(done, k, equal) + [] == Match(done, k, equal);
    }
  }

  /** The entry at p is the first of the chain whose key equals `key`. */
  ghost predicate FirstAt<K, V>(s: seq<Entry<K, V>>, p: nat, key: K, equal: (K, K) -> bool) {
    p < |s| && equal(s[p].key, key) && forall i :: 0 <= i < p ==> !equal(s[i].key, key)
  }

  /** The chain with its entry at p replaced by `mid` (nothing, or an entry with an equal key). */
  function Spliced<T>(s: seq<T>, p: nat, mid: seq<T>): seq<T>
    requires p < |s|
  {
    s[..p] + mid + s[p + 1..]
  }

  lemma SplicedMatches<K(!new), V>(s: seq<Entry<K, V>>, hash: K -> nat, equal: (K, K) -> bool, p: nat, mid: seq<Entry<K, V>>, key: K, j: K)
    requires Lawful(hash, equal) && FirstAt(s, p, key, equal) && (mid == [] || (|mid| == 1 && equal(mid[0].key, key)))
    ensures equal(key, j) ==> Match(s, j, equal) != [] && Match(Spliced(s, p, mid), j, equal) == mid + Match(s, j, equal)[1..]
    ensures !equal(key, j) ==> Match(Spliced(s, p, mid), j, equal) == Match(s, j, equal)
  {
    hide Match;
    MatchSplice(s, p, mid, j, equal);
    if mid == [] { MatchNone(mid, j, equal); } else { assert mid == [mid[0]]; MatchOne(mid[0], j, equal); }
    MatchOne(s[p], j, equal);
    if equal(key, j) {
      MatchNone(s[..p], j, equal);
      assert [] + mid == mid;
    } else {
      assert Match(s[..p], j, equal) + [] == Match(s[..p], j, equal);
    }
  }

  lemma SpliceMatches<K(!new), V>(b: seq<seq<Entry<K, V>>>, bits: nat, hash: K -> nat, equal: (K, K) -> bool, p: nat,
                        mid: seq<Entry<K, V>>, key: K, j: K)
    requires bits <= 32 && InPlace(b, bits, hash) && Lawful(hash, equal) && |b| == Pow(2, bits)
    requires var h := HashBits(hash(key), bits); FirstAt(b[h], p, key, equal) && InPlace(b[h := Spliced(b[h], p, mid)], bits, hash)
    requires mid == [] || (|mid| == 1 && equal(mid[0].key, key))
    ensures var h := HashBits(hash(key), bits); var b' := b[h := Spliced(b[h], p, mid)];
      && (equal(key, j) ==> Match(Flatten(b), j, equal) != [] && Match(Flatten(b'), j, equal) == mid + Match(Flatten(b), j, equal)[1..])
      && (!equal(key, j) ==> Match(Flatten(b'), j, equal) == Match(Flatten(b), j, equal))
  {
    hide HashBits, Match, Flatten, Pow, InPlace, Spliced;
    var h := HashBits(hash(key), bits);
    MatchUpdate(b, bits, hash, equal, h, Spliced(b[h], p, mid), j);
    SplicedMatches(b[h], hash, equal, p, mid, key, j);
    if HashBits(hash(j), bits) == h { MatchBucket(b, bits, hash, equal, j); }
  }

  lemma SplicedInPlace<K(!new), V>(b: seq<seq<Entry<K, V>>>, bits: nat, hash: K -> nat, equal: (K, K) -> bool, p: nat,
                         mid: seq<Entry<K, V>>, key: K)
    requires bits <= 32 && InPlace(b, bits, hash) && Lawful(hash, equal) && |b| == Pow(2, bits)
    requires p < |b[HashBits(hash(key), bits)]|
    requires mid == [] || (|mid| == 1 && equal(mid[0].key, key))
    ensures var h := HashBits(hash(key), bits); var b' := b[h := Spliced(b[h], p, mid)];
      InPlace(b', bits, hash) && |Flatten(b')| == |Flatten(b)| - 1 + |mid|
  {
    hide HashBits, Pow, Flatten;
    var h := HashBits(hash(key), bits);
    var c := Spliced(b[h], p, mid);
    FlattenUpdate(b, h, c);
    forall q | 0 <= q < |c| ensures HashBits(hash(c[q].key), bits) == h {
      if q < p {
        assert c[q] == b[h][q];
      } else if q >= p + |mid| {
        assert c[q] == b[h][q + 1 - |mid|];
      }
    }
    InPlaceUpdate(b, bits, hash, h, c);
  }

  /** The next capacity: one bit more, but at least four buckets. */
  function GrownBits(bits: nat): nat {
    if bits + 1 < MIN_CAP_BITS then MIN_CAP_BITS else bits + 1
  }

  class Table<K(!new), V> {
    const hash: K -> nat
    const equal: (K, K) -> bool
    var buckets: seq<seq<Entry<K, V>>>
    var cap: nat
    var capBits: nat
    var sz: nat

    ghost predicate Valid()
      reads this
    {
      && Lawful(hash, equal)
      && capBits <= 29
      && (cap == 0 ==> capBits == 0 && sz == 0)
      && (cap > 0 ==> capBits >= MIN_CAP_BITS && cap == Pow(2, capBits))
      && |buckets| == cap
      && InPlace(buckets, capBits, hash)
      && sz == |Flatten(buckets)|
      && sz * 4 / 3 <= cap
    }

    /** All entries for k, over the whole map. */
    ghost function Matches(k: K): seq<Entry<K, V>>
      reads this
    {
      Match(Flatten(buckets), k, equal)
    }

    /** `hashmap__init` */
    constructor (hash: K -> nat, equal: (K, K) -> bool)
      requires Lawful(hash, equal)
      ensures Valid() && sz == 0 && cap == 0 && this.hash == hash && this.equal == equal
      ensures forall k :: Matches(k) == []
    {
      this.hash, this.equal := hash, equal;
      buckets, cap, capBits, sz := [], 0, 0, 0;
    }

    /** `hashmap_needs_to_grow`; the product fits the machine word. */
    predicate NeedsToGrow()
      requires Valid()
      reads this
      ensures (sz + 1) * 4 < 0x1_0000_0000
    {
      CapBound(capBits);
      cap == 0 || (sz + 1) * 4 / 3 > cap
    }

    method Rehash(bits: nat) returns (nb: seq<seq<Entry<K, V>>>)
      requires Valid() && bits <= 32
      ensures |nb| == Pow(2, bits) && InPlace(nb, bits, hash) && |Flatten(nb)| == sz
      ensures Reversed(nb, Flatten(buckets), equal)
    {
      hide HashBits, Match, Pow, InPlace, Lawful, Reversed;
      nb := Fresh(bits, hash, equal);
      ghost var done := [];
      for i := 0 to cap
        invariant done == Flatten(buckets[..i])
        invariant |nb| == Pow(2, bits) && InPlace(nb, bits, hash) && |Flatten(nb)| == |done|
        invariant Reversed(nb, done, equal)
      {
        var chain := buckets[i];
        ghost var before := done;
        for p := 0 to |chain|
          invariant done == before + chain[..p]
          invariant |nb| == Pow(2, bits) && InPlace(nb, bits, hash) && |Flatten(nb)| == |done|
          invariant Reversed(nb, done, equal)
        {
          var h := HashBits(hash(chain[p].key), bits);
          PushReversed(nb, bits, hash, equal, done, chain[p]);
          nb := nb[h := [chain[p]] + nb[h]];
          done := done + [chain[p]];
        }
        assert buckets[..i + 1][..i] == buckets[..i];
      }
      assert buckets[..cap] == buckets;
    }

    /** `hashmap_grow`: doubles the buckets and turns the entries of every key around. */
    method Grow(granted: bool) returns (ok: bool)
      requires Valid() && (granted ==> capBits < 29)
      modifies this
      ensures Valid() && ok == granted && sz == old(sz)
      ensures !ok ==> buckets == old(buckets) && cap == old(cap) && capBits == old(capBits)
      ensures ok ==> cap == (if old(cap) == 0 then 4 else 2 * old(cap)) && capBits == GrownBits(old(capBits))
      ensures ok ==> forall k :: Matches(k) == Reverse(old(Matches(k)))
    {
      hide HashBits, Match, InPlace, Lawful;
      var newBits := GrownBits(capBits);
      var newCap := Pow(2, newBits);
      if !granted { return false; }
      var nb := Rehash(newBits);
      cap, capBits, buckets := newCap, newBits, nb;
      ok := true;
    }
  
    /** `hashmap_find_entry`, whose chain search decides for the whole map. */
    method FindEntry(key: K, h: nat) returns (pos: Option<nat>)
      requires Valid() && h == HashBits(hash(key), capBits)
      ensures pos.None? ==> Matches(key) == []
      ensures pos.Some? ==> h < |buckets| && FirstAt(buckets[h], pos.value, key, equal)
      ensures pos.Some? ==> Matches(key) != [] && Matches(key)[0] == buckets[h][pos.value]
    {
      hide HashBits, Match, Flatten, InPlace;
      MatchFlatten(buckets, capBits, hash, equal, key);
      if cap == 0 { return None; }
      MatchBucket(buckets, capBits, hash, equal, key);
      var chain := buckets[h];
      for p := 0 to |chain|
        invariant forall i :: 0 <= i < p ==> !equal(chain[i].key, key)
      {
        if equal(chain[p].key, key) {
          MatchFirst(chain, p, key, equal);
          return Some(p);
        }
      }
      MatchNone(chain, key, equal);
      return None;
    }

    /** `hashmap__find` */
    method Find(key: K) returns (r: Option<V>)
      requires Valid()
      ensures r == if Matches(key) == [] then None else Some(Matches(key)[0].value)
    {
      hide HashBits, Match, Flatten, InPlace;
      var h := HashBits(hash(key), capBits);
      var pos := FindEntry(key, h);
      if pos.None? { return None; }
      return Some(buckets[h][pos.value].value);
    }

    /** Replaces the entry found at p of bucket h by `mid`. */
    method Splice(key: K, h: nat, p: nat, mid: seq<Entry<K, V>>)
      requires Valid() && h == HashBits(hash(key), capBits) && h < |buckets| && FirstAt(buckets[h], p, key, equal)
      requires mid == [] || (|mid| == 1 && equal(mid[0].key, key))
      modifies this
      ensures Valid() && sz == old(sz) - 1 + |mid| && capBits == old(capBits)
      ensures old(Matches(key)) != []
      ensures forall j :: equal(key, j) ==> old(Matches(j)) != [] && Matches(j) == mid + old(Matches(j))[1..]
      ensures forall j :: !equal(key, j) ==> Matches(j) == old(Matches(j))
    {
      hide HashBits, Match, Flatten, InPlace, Spliced, Pow;
      SplicedInPlace(buckets, capBits, hash, equal, p, mid, key);
      ghost var spliced := buckets[h := Spliced(buckets[h], p, mid)];
      forall j
        ensures equal(key, j) ==> old(Matches(j)) != [] && Match(Flatten(spliced), j, equal) == mid + old(Matches(j))[1..]
        ensures !equal(key, j) ==> Match(Flatten(spliced), j, equal) == old(Matches(j))
      {
        SpliceMatches(buckets, capBits, hash, equal, p, mid, key, j);
      }
      assert equal(key, key);
      buckets := buckets[h := Spliced(buckets[h], p, mid)];
      sz := sz + |mid| - 1;
    }

    /** `hashmap__delete`: removes the first entry of the key, and no other. */
    method Delete(key: K) returns (found: Option<Entry<K, V>>)
      requires Valid()
      modifies this
      ensures Valid()
      ensures found == if old(Matches(key)) == [] then None else Some(old(Matches(key))[0])
      ensures sz == if found.None? then old(sz) else old(sz) - 1
      ensures capBits == old(capBits) && (found.None? ==> buckets == old(buckets))
      ensures found.Some? ==> forall j :: equal(key, j) ==> old(Matches(j)) != [] && Matches(j) == old(Matches(j))[1..]
      ensures found.Some? ==> forall j :: !equal(key, j) ==> Matches(j) == old(Matches(j))
    {
      hide HashBits, Match, Flatten, InPlace;
      var h := HashBits(hash(key), capBits);
      var pos := FindEntry(key, h);
      if pos.None? { return None; }
      found := Some(buckets[h][pos.value]);
      Splice(key, h, pos.value, []);
    }
  
    /** Adds an entry in front of its chain. */
    method Push(key: K, value: V)
      requires Valid() && cap > 0 && (sz + 1) * 4 / 3 <= cap
      modifies this
      ensures Valid() && sz == old(sz) + 1 && capBits == old(capBits)
      ensures forall j :: Matches(j) == (if equal(key, j) then [Entry(key, value)] else []) + old(Matches(j))
    {
      hide HashBits, Match, Flatten, Pow;
      var e := Entry(key, value);
      var h := HashBits(hash(key), capBits);
      InPlaceUpdate(buckets, capBits, hash, h, [e] + buckets[h]);
      FlattenUpdate(buckets, h, [e] + buckets[h]);
      forall j ensures Match(Flatten(buckets[h := [e] + buckets[h]]), j, equal) == (if equal(key, j) then [e] else []) + old(Matches(j)) {
        PushMatches(buckets, capBits, hash, equal, e, j);
      }
      buckets := buckets[h := [e] + buckets[h]];
      sz := sz + 1;
    }

    /** From line 173 of `hashmap__insert` on: grow if needed, then add. A failed kmalloc keeps the grown buckets. */
    method AddNew(key: K, value: V, granted: bool, node: bool) returns (ok: bool, ghost grew: bool)
      requires Valid() && (NeedsToGrow() && granted ==> capBits < 29)
      modifies this
      ensures Valid() && grew == (old(NeedsToGrow()) && granted) && ok == (node && (old(NeedsToGrow()) ==> granted))
      ensures sz == (if ok then old(sz) + 1 else old(sz)) && capBits == if grew then GrownBits(old(capBits)) else old(capBits)
      ensures forall j :: Matches(j) == (if ok && equal(key, j) then [Entry(key, value)] else []) + Turned(old(Matches(j)), grew)
    {
      hide HashBits, Match, Flatten, InPlace, Reverse, Lawful;
      grew := false;
      if cap > 0 { PowMonotone(2, 2, capBits); }
      if NeedsToGrow() {
        RoomAfterGrowth(sz, cap);
        var grown := Grow(granted);
        if !grown { return false, false; }
        grew := true;
      }
      if !node { return false, grew; }
      Push(key, value);
      ok := true;
    }
  
    /** `hashmap__insert`. `granted` and `node` say whether kcalloc and kmalloc deliver. A table of 2^29 buckets never has to grow: the
        entries it would take do not fit the address space. */
    method Insert(key: K, value: V, strategy: Strategy, granted: bool, node: bool)
      returns (ok: bool, found: Option<Entry<K, V>>, ghost grew: bool)
      requires Valid() && (NeedsToGrow() && granted ==> capBits < 29)
      modifies this
      ensures Valid() && capBits == if grew then GrownBits(old(capBits)) else old(capBits)
      ensures found == if strategy.Append? || old(Matches(key)) == [] then None else Some(old(Matches(key))[0])
      ensures found.Some? ==> ok == !strategy.Add? && !grew && sz == old(sz)
      ensures found.None? && strategy.Update? ==> !ok && !grew && sz == old(sz)
      ensures found.None? && !strategy.Update? ==> grew == (old(NeedsToGrow()) && granted)
      ensures found.None? && !strategy.Update? ==> ok == (node && (old(NeedsToGrow()) ==> granted)) && sz == if ok then old(sz) + 1 else old(sz)
      ensures forall j :: !equal(key, j) || !ok ==> Matches(j) == Turned(old(Matches(j)), grew)
      ensures forall j :: equal(key, j) && ok && found.None? ==> Matches(j) == [Entry(key, value)] + Turned(old(Matches(j)), grew)
      ensures forall j :: equal(key, j) && ok && found.Some? ==> old(Matches(j)) != [] && Matches(j) == [Entry(key, value)] + old(Matches(j))[1..]
    {
      hide HashBits, Match, Flatten, InPlace, Reverse;
      var h := HashBits(hash(key), capBits);
      found, grew := None, false;
      if strategy != Append {
        var pos := FindEntry(key, h);
        if pos.Some? {
          found := Some(buckets[h][pos.value]);
          if strategy == Set || strategy == Update {
            Splice(key, h, pos.value, [Entry(key, value)]);
            return true, found, false;
          }
          return false, found, false;
        }
      }
      if strategy == Update { return false, None, false; }
      ok, grew := AddNew(key, value, granted, node);
    }

    /** No key has two entries: what every sequence of operations without Append keeps. */
    ghost predicate Unique()
      reads this
    {
      forall k :: |Matches(k)| <= 1
    }

    /** The finite map that the table stands for. */
    ghost function View(k: K): Option<V>
      reads this
    {
      if Matches(k) == [] then None else Some(Matches(k)[0].value)
    }

    /** Insertion as the finite map sees it: growing does not show, and a failed allocation changes nothing. */
    method Put(key: K, value: V, strategy: Strategy, granted: bool, node: bool) returns (ok: bool)
      requires Valid() && Unique() && !strategy.Append? && (NeedsToGrow() && granted ==> capBits < 29)
      modifies this
      ensures Valid() && Unique() && sz <= old(sz) + 1
      ensures old(View(key)).Some? ==> ok == !strategy.Add?
      ensures old(View(key)).None? ==> ok == (!strategy.Update? && node && (old(NeedsToGrow()) ==> granted))
      ensures forall j :: View(j) == if ok && equal(key, j) then Some(value) else old(View(j))
    {
      hide HashBits, Match, Flatten, InPlace, Reverse;
      var found;
      ghost var grew;
      ok, found, grew := Insert(key, value, strategy, granted, node);
      forall j ensures |Matches(j)| <= 1 && View(j) == if ok && equal(key, j) then Some(value) else old(View(j)) {
        ShortTurned(old(Matches(j)), grew);
        if equal(key, j) { SameMatches(old(buckets), hash, equal, key, j); }
      }
    }

    method Remove(key: K) returns (removed: Option<V>)
      requires Valid() && Unique()
      modifies this
      ensures Valid() && Unique() && removed == old(View(key)) && sz <= old(sz)
      ensures forall j :: View(j) == if equal(key, j) then None else old(View(j))
    {
      hide HashBits, Match, Flatten, InPlace, Reverse;
      var found := Delete(key);
      forall j ensures |Matches(j)| <= 1 && View(j) == if equal(key, j) then None else old(View(j)) {
        if equal(key, j) {
          SameMatches(old(buckets), hash, equal, key, j);
          assert Matches(j) == [];
        } else {
          assert Matches(j) == old(Matches(j));
        }
      }
      removed := if found.None? then None else Some(found.value.value);
    }
  }

  lemma ShortTurned<T>(s: seq<T>, grew: bool)
    requires |s| <= 1
    ensures Turned(s, grew) == s
  {
    if |s| == 1 { assert Reverse(s[1..]) == [] && [] + [s[0]] == s; }
  }

  /** Equal keys have the same entries. */
  lemma {:induction false} MatchSame<K(!new), V>(s: seq<Entry<K, V>>, hash: K -> nat, equal: (K, K) -> bool, j: K, k: K)
    requires Lawful(hash, equal) && equal(j, k)
    ensures Match(s, j, equal) == Match(s, k, equal)
  {
    if s != [] {
      MatchSame(s[1..], hash, equal, j, k);
      assert equal(s[0].key, j) <==> equal(s[0].key, k);
    }
  }

  lemma SameMatches<K(!new), V>(b: seq<seq<Entry<K, V>>>, hash: K -> nat, equal: (K, K) -> bool, j: K, k: K)
    requires Lawful(hash, equal) && equal(j, k)
    ensures Match(Flatten(b), j, equal) == Match(Flatten(b), k, equal)
  {
    MatchSame(Flatten(b), hash, equal, j, k);
  }

  // ---- whole runs ----

  datatype Op<K, V> = Insert(key: K, value: V, strategy: Strategy, granted: bool, node: bool) | Delete(key: K) | Find(key: K)

  datatype Reply<V> = Inserted(ok: bool) | Deleted(old_value: Option<V>) | Found(value: Option<V>)

  /** The finite map after a history: the value last written to the key by an insertion that succeeded, unless deleted since. */
  ghost function After<K, V>(ops: seq<Op<K, V>>, replies: seq<Reply<V>>, k: K, equal: (K, K) -> bool): Option<V>
    requires |replies| == |ops|
  {
    if ops == [] then None
    else
      var n := |ops| - 1;
      Effect(ops[n], replies[n], After(ops[..n], replies[..n], k, equal), k, equal)
  }

  /** What an operation makes of the value of k. */
  ghost function Effect<K, V>(op: Op<K, V>, reply: Reply<V>, before: Option<V>, k: K, equal: (K, K) -> bool): Option<V> {
    match op
    case Insert(key, value, _, _, _) => if reply == Inserted(true) && equal(key, k) then Some(value) else before
    case Delete(key) => if equal(key, k) then None else before
    case Find(_) => before
  }

  lemma AfterNone<K(!new), V>(ops: seq<Op<K, V>>, equal: (K, K) -> bool)
    ensures forall k :: After(ops[..0], [], k, equal) == None
  {
  }

  lemma AfterMore<K, V>(ops: seq<Op<K, V>>, i: nat, replies: seq<Reply<V>>, reply: Reply<V>, k: K, equal: (K, K) -> bool)
    requires i < |ops| && |replies| == i
    ensures After(ops[..i + 1], replies + [reply], k, equal) == Effect(ops[i], reply, After(ops[..i], replies, k, equal), k, equal)
  {
    hide Effect;
    assert ops[..i + 1][..i] == ops[..i] && (replies + [reply])[..i] == replies;
  }

  /** With fewer entries than this the buckets never outgrow the address space. */
  const ENTRY_LIMIT: nat := 0x1800_0000

  /** The reply that a finite map in which the key has the value `now` gives: a new key is refused without memory and, while the map
      cannot have reached the limit, accepted with it. */
  ghost predicate Replies<K, V>(op: Op<K, V>, now: Option<V>, reply: Reply<V>, within: bool) {
    match op
    case Insert(_, _, Add, granted, node) =>
      && reply.Inserted? && (now.Some? || !node ==> !reply.ok)
      && (now.None? && granted && node && within ==> reply.ok)
    case Insert(_, _, Set, granted, node) =>
      && reply.Inserted? && (now.Some? ==> reply.ok) && (now.None? && !node ==> !reply.ok)
      && (granted && node && within ==> reply.ok)
    case Insert(_, _, Update, _, _) => reply == Inserted(now.Some?)
    case Insert(_, _, Append, _, _) => false
    case Delete(_) => reply == Deleted(now)
    case Find(_) => reply == Found(now)
  }

  /** Each reply is the finite map's, after the operations before it. */
  ghost predicate Answers<K, V>(ops: seq<Op<K, V>>, replies: seq<Reply<V>>, equal: (K, K) -> bool) {
    && |replies| <= |ops|
    && forall i :: 0 <= i < |replies| ==>
         Replies(ops[i], After(ops[..i], replies[..i], ops[i].key, equal), replies[i], i + 1 < ENTRY_LIMIT)
  }

  lemma AnswersNone<K, V>(ops: seq<Op<K, V>>, equal: (K, K) -> bool)
    ensures Answers(ops, [], equal)
  {
  }

  lemma AnswersMore<K, V>(ops: seq<Op<K, V>>, replies: seq<Reply<V>>, reply: Reply<V>, equal: (K, K) -> bool)
    requires Answers(ops, replies, equal) && |replies| < |ops|
    requires var n := |replies|; Replies(ops[n], After(ops[..n], replies, ops[n].key, equal), reply, n + 1 < ENTRY_LIMIT)
    ensures Answers(ops, replies + [reply], equal)
  {
    hide Replies, After;
    var more := replies + [reply];
    assert more[..|replies|] == replies;
    assert forall i :: 0 <= i < |replies| ==> more[..i] == replies[..i];
  }

  /** The table answers every sequence of operations as a finite map does, through all growth and allocation failures. */
  method Run<K(!new), V>(hash: K -> nat, equal: (K, K) -> bool, ops: seq<Op<K, V>>) returns (m: Table<K, V>, replies: seq<Reply<V>>)
    requires Lawful(hash, equal)
    requires forall i :: 0 <= i < |ops| && ops[i].Insert? ==> !ops[i].strategy.Append?
    ensures fresh(m) && m.Valid() && m.equal == equal && |replies| == |ops|
    ensures Answers(ops, replies, equal)
    ensures forall k :: m.View(k) == After(ops, replies, k, equal)
  {
    hide HashBits, Match, Flatten, InPlace, Lawful, Answers, Replies, Effect, After;
    AfterNone(ops, equal);
    AnswersNone(ops, equal);
    m := new Table(hash, equal);
    replies := [];
    for i := 0 to |ops|
      invariant fresh(m) && m.Valid() && m.Unique() && m.equal == equal && |replies| == i && m.sz <= i
      invariant forall k :: m.View(k) == After(ops[..i], replies, k, equal)
      invariant Answers(ops, replies, equal)
    {
      var reply := Step(m, ops[i], i + 1 < ENTRY_LIMIT);
      AnswersMore(ops, replies, reply, equal);
      forall k ensures After(ops[..i + 1], replies + [reply], k, equal) == Effect(ops[i], reply, After(ops[..i], replies, k, equal), k, equal) {
        AfterMore(ops, i, replies, reply, k, equal);
      }
      replies := replies + [reply];
    }
    assert ops[..|ops|] == ops;
  }

  method Step<K(!new), V>(m: Table<K, V>, op: Op<K, V>, ghost within: bool) returns (reply: Reply<V>)
    requires (within ==> m.sz + 1 < ENTRY_LIMIT) && m.Valid() && m.Unique() && (op.Insert? ==> !op.strategy.Append?)
    modifies m
    ensures m.Valid() && m.Unique() && m.sz <= old(m.sz) + 1
    ensures Replies(op, old(m.View(op.key)), reply, within)
    ensures forall k :: m.View(k) == Effect(op, reply, old(m.View(k)), k, m.equal)
  {
    hide HashBits, Match, Flatten, InPlace, Lawful;
    match op
    case Insert(key, value, strategy, granted, node) =>
      RoomBelowLimit(m.sz, m.cap, m.capBits);
      var ok := m.Put(key, value, strategy, granted && m.capBits < 29, node);
      reply := Inserted(ok);
    case Delete(key) =>
      var v := m.Remove(key);
      reply := Deleted(v);
    case Find(key) =>
      var v := m.Find(key);
      reply := Found(v);
  }

  /** What Find answers after an Append and any further operations on other keys: the entry just appended when the table has grown an
      even number of times since, and the oldest one for the key when the number is odd. A growth adds one to capBits. The header's
      promise of the last one inserted (HashMap.h:80-84) holds until the next growth. */
  method AppendThen<K(!new), V>(m: Table<K, V>, key: K, value: V, others: seq<Op<K, V>>)
    returns (r: Option<V>, ghost bits: nat, ghost grew: bool)
    requires m.Valid() && (m.NeedsToGrow() ==> m.capBits < 29) && forall i :: 0 <= i < |others| ==> !m.equal(others[i].key, key)
    modifies m
    ensures m.Valid() && grew == old(m.NeedsToGrow()) && bits == (if grew then GrownBits(old(m.capBits)) else old(m.capBits)) <= m.capBits
    ensures var all := [Entry(key, value)] + Turned(old(m.Matches(key)), grew);
      r == Some(if (m.capBits - bits) % 2 == 0 then value else all[|all| - 1].value)
  {
    hide HashBits, Match, Flatten, InPlace, Reverse, Pow;
    var ok, found;
    ok, found, grew := m.Insert(key, value, Append, true, true);
    ghost var all := m.Matches(key);
    bits := m.capBits;
    assert m.equal(key, key);
    for i := 0 to |others|
      invariant m.Valid() && 0 < bits <= m.capBits
      invariant m.Matches(key) == if (m.capBits - bits) % 2 == 0 then all else Reverse(all)
    {
      OtherKey(m, key, others[i]);
      ReverseTwice(all);
    }
    r := m.Find(key);
    ReverseFirst(all);
  }

  /** An operation on another key leaves the entries of `key`, turned around if the table grows. */
  method OtherKey<K(!new), V>(m: Table<K, V>, key: K, op: Op<K, V>)
    requires m.Valid() && !m.equal(op.key, key) && 0 < m.capBits
    modifies m
    ensures m.Valid() && old(m.capBits) <= m.capBits <= old(m.capBits) + 1
    ensures m.Matches(key) == Turned(old(m.Matches(key)), m.capBits > old(m.capBits))
  {
    hide HashBits, Match, Flatten, InPlace, Reverse, Pow, Lawful;
    match op
    case Insert(k, value, strategy, granted, node) =>
      var ok, found, grew := m.Insert(k, value, strategy, granted && m.capBits < 29, node);
    case Delete(k) =>
      var found := m.Delete(k);
    case Find(k) =>
      var v := m.Find(k);
  }

  /** Two appends to one key and two new keys: the fourth insertion grows the table, and find returns the value appended first. */
  method FindsOldest<K(!new), V>(hash: K -> nat, equal: (K, K) -> bool, k: K, x: K, y: K, a: V, b: V) returns (r: Option<V>)
    requires Lawful(hash, equal) && !equal(k, x) && !equal(k, y) && !equal(x, y)
    ensures r == Some(a)
  {
    hide HashBits, Match, Flatten, InPlace, Pow;
    var m: Table<K, V> := new Table(hash, equal);
    FourBuckets();
    var ok1, found1, grew1 := m.Insert(k, a, Append, true, true);
    assert equal(k, k) && m.Matches(k) == [Entry(k, a)] + Turned([], true) == [Entry(k, a)];
    assert m.Matches(x) == [] && m.Matches(y) == [];
    r := FindsOldestFrom(m, k, x, y, a, b);
  }

  method FindsOldestFrom<K(!new), V>(m: Table<K, V>, k: K, x: K, y: K, a: V, b: V) returns (r: Option<V>)
    requires m.Valid() && m.capBits == 2 && m.sz == 1 && m.Matches(k) == [Entry(k, a)] && m.Matches(x) == [] && m.Matches(y) == []
    requires !m.equal(k, x) && !m.equal(k, y) && !m.equal(x, y)
    modifies m
    ensures r == Some(a)
  {
    hide HashBits, Match, Flatten, InPlace, Pow;
    FourBuckets();
    var ok2, found2, grew2 := m.Insert(k, b, Append, true, true);
    assert m.equal(k, k) && m.Matches(k) == [Entry(k, b), Entry(k, a)];
    var ok3, found3, grew3 := m.Insert(x, a, Add, true, true);
    var ok4, found4, grew4 := m.Insert(y, a, Add, true, true);
    assert grew4 && m.Matches(k) == Reverse([Entry(k, b), Entry(k, a)]);
    ReverseFirst([Entry(k, b), Entry(k, a)]);
    r := m.Find(k);
  }

  lemma FourBuckets()
    ensures Pow(2, 2) == 4
  {
  }

  lemma {:induction false} ReverseTwice<T>(s: seq<T>)
    ensures Reverse(Reverse(s)) == s
  {
    if s != [] {
      ReverseAppend(Reverse(s[1..]), s[0]);
      ReverseTwice(s[1..]);
    }
  }

  lemma {:induction false} ReverseFirst<T>(s: seq<T>)
    ensures s != [] ==> Reverse(s) != [] && Reverse(s)[0] == s[|s| - 1]
  {
    if |s| > 1 { ReverseFirst(s[1..]); }
  }

  ghost function Turned<T>(s: seq<T>, grew: bool): seq<T> {
    if grew then Reverse(s) else s
  }

  lemma RoomBelowLimit(sz: nat, cap: nat, bits: nat)
    requires bits <= 29 && (cap > 0 ==> cap == Pow(2, bits)) && (cap == 0 ==> bits == 0)
    ensures bits == 29 && sz + 1 < ENTRY_LIMIT ==> cap > 0 && (sz + 1) * 4 / 3 <= cap
  {
    if bits == 29 { CapExact(); }
  }

  lemma CapExact()
    ensures Pow(2, 29) == 0x2000_0000
  {
    PowAdd(2, 10, 10);
    PowAdd(2, 20, 9);
    assert Pow(2, 10) == 1024 && Pow(2, 9) == 512;
  }

  /** One doubling makes room for the next entry. */
  lemma RoomAfterGrowth(sz: nat, cap: nat)
    requires sz * 4 / 3 <= cap && (cap == 0 ==> sz == 0) && (cap > 0 ==> cap >= 4)
    ensures (sz + 1) * 4 / 3 <= if cap == 0 then 4 else 2 * cap
  {
  }

  /** The empty buckets kcalloc returns. */
  method Fresh<K(!new), V>(bits: nat, hash: K -> nat, equal: (K, K) -> bool) returns (nb: seq<seq<Entry<K, V>>>)
    requires bits <= 32
    ensures |nb| == Pow(2, bits) && InPlace(nb, bits, hash) && Flatten(nb) == [] && Reversed(nb, [], equal)
  {
    hide HashBits, Pow;
    nb := seq(Pow(2, bits), _ => []);
    FlattenEmpty(nb);
  }

  lemma {:induction false} FlattenEmpty<T>(b: seq<seq<T>>)
    requires forall i :: 0 <= i < |b| ==> b[i] == []
    ensures Flatten(b) == []
  {
    if b != [] { FlattenEmpty(b[..|b| - 1]); }
  }

  lemma CapBound(bits: nat)
    requires bits <= 29
    ensures Pow(2, bits) <= 0x2000_0000
  {
    PowMonotone(2, bits, 29);
    CapExact();
  }
}
