/** The cache: an array of records for the names in the trie and a direct-mapped hash
    table, with four bytes of the name as a tag, for all others. */
module Kache {
  import opened FileBytes
  import opened AlphaMaps
  import opened Tries
  import Replies
  import A = AlphaRanges

  const HASHSIZE := 0x200_0000
  const TAG := 4

  type Name = Replies.Name

  const TIME_OUT := 86400  // seconds

  datatype Record = Record(ip: Replies.Word, timestamp: int)

  /** The key of a hash record holds what was last copied into its four bytes. */
  datatype HashRecord = HashRecord(data: Record, partKey: seq<Byte>)

  datatype Cached = None | Some(record: Record)

  // ---- hashing ----

  /** The name as a number with digits in base 131. */
  function Polynomial(s: Name): nat {
    if s == [] then 0 else Polynomial(s[..|s| - 1]) * 131 + s[|s| - 1]
  }

  /** The bucket of a name. */
  function Bucket(s: Name): (h: int)
    ensures 0 <= h < HASHSIZE
  {
    Polynomial(s) % HASHSIZE
  }

  lemma WrapStep(p: nat, hash: nat, c: Byte)
    requires hash == p % 0x1_0000_0000
    ensures (hash * 131 + c) % 0x1_0000_0000 == (p * 131 + c) % 0x1_0000_0000
  {
    var k := p / 0x1_0000_0000;
    assert p * 131 + c == hash * 131 + c + 0x1_0000_0000 * (k * 131);
    Wraps(hash * 131 + c, k * 131);
  }

  lemma Wraps(x: nat, k: nat)
    ensures (x + 0x1_0000_0000 * k) % 0x1_0000_0000 == x % 0x1_0000_0000
  {
    var q, r := x / 0x1_0000_0000, x % 0x1_0000_0000;
    assert x + 0x1_0000_0000 * k == 0x1_0000_0000 * (q + k) + r;
  }

  /** The arithmetic wraps at 32 bits; the bucket is the polynomial modulo 2^25 all the
      same. */
  method BkdrHash(str: Name) returns (h: int)
    ensures h == Bucket(str)
  {
    var hash, i := 0, 0;
    while i < |str|
      invariant 0 <= i <= |str| && hash == Polynomial(str[..i]) % 0x1_0000_0000
    {
      WrapStep(Polynomial(str[..i]), hash, str[i]);
      assert str[..i + 1][..i] == str[..i];
      hash := (hash * 131 + str[i]) % 0x1_0000_0000;
      i := i + 1;
    }
    assert str[..i] == str;
    Masked(Polynomial(str));
    h := hash % HASHSIZE;
  }

  lemma Masked(p: nat)
    ensures p % 0x1_0000_0000 % HASHSIZE == p % HASHSIZE
  {
    var k, r := p / 0x1_0000_0000, p % 0x1_0000_0000;
    assert p == r + HASHSIZE * (128 * k);
  }

  function Power(k: nat): nat {
    if k == 0 then 1 else 131 * Power(k - 1)
  }

  /** What the first `k` characters contribute when `n` characters are hashed. */
  function Weighted(s: Name, k: nat, n: nat): nat
    requires k <= |s| && k <= n
  {
    if k == 0 then 0 else Weighted(s, k - 1, n) + s[k - 1] * Power(n - k)
  }

  lemma {:induction false} WeightedMore(s: Name, c: Byte, k: nat)
    requires k <= |s|
    ensures Weighted(s + [c], k, |s| + 1) == 131 * Weighted(s, k, |s|)
  {
    if k > 0 {
      WeightedMore(s, c, k - 1);
      Distribute(Weighted(s, k - 1, |s|), s[k - 1], Power(|s| - k));
    }
  }

  lemma Distribute(a: nat, x: nat, p: nat)
    ensures 131 * (a + x * p) == 131 * a + x * (131 * p)
  {
  }

  /** The bucket of a name is the sum of its characters, each times 131 to the number of
      characters behind it, modulo 2^25. */
  lemma {:induction false} BucketIsSum(s: Name)
    ensures Polynomial(s) == Weighted(s, |s|, |s|) && Bucket(s) == Weighted(s, |s|, |s|) % 0x200_0000
  {
    if s != [] {
      var n := |s| - 1;
      BucketIsSum(s[..n]);
      WeightedMore(s[..n], s[n], n);
      assert s[..n] + [s[n]] == s;
      assert s[n] * Power(0) == s[n];
    }
  }

  /** Appending names shifts the first one up. */
  lemma {:induction false} PolynomialOfBoth(a: Name, b: Name)
    ensures Polynomial(a + b) == Polynomial(a) * Power(|b|) + Polynomial(b)
  {
    if b == [] {
      assert a + b == a;
    } else {
      var n := |b| - 1;
      PolynomialOfBoth(a, b[..n]);
      assert (a + b)[..|a| + n] == a + b[..n];
      Shift(Polynomial(a), Power(n), Polynomial(b[..n]), b[n]);
    }
  }

  lemma Shift(a: nat, p: nat, b: nat, c: nat)
    ensures (a * p + b) * 131 + c == a * (131 * p) + (b * 131 + c)
  {
  }

  /** 131 is odd, so it has an inverse modulo 2^25. */
  lemma OddFactor(x: int)
    requires 131 * x % HASHSIZE == 0
    ensures x % HASHSIZE == 0
  {
    var q := 131 * x / HASHSIZE;
    assert 131 * 21515819 == 1 + HASHSIZE * 84;
    assert x == HASHSIZE * (q * 21515819 - x * 84);
  }

  lemma {:induction false} OddPower(x: int, k: nat)
    requires x * Power(k) % HASHSIZE == 0
    ensures x % HASHSIZE == 0
  {
    if k > 0 {
      assert x * Power(k) == 131 * (x * Power(k - 1));
      OddFactor(x * Power(k - 1));
      OddPower(x, k - 1);
    }
  }

  /** Two names of the same length that differ in one character never share a bucket. */
  lemma OneByteApart(a: Name, c: Byte, d: Byte, b: Name)
    requires c != d
    ensures Bucket(a + [c] + b) != Bucket(a + [d] + b)
  {
    PolynomialOfBoth(a + [c], b);
    PolynomialOfBoth(a + [d], b);
    LastDigit(a, c);
    LastDigit(a, d);
    hide Polynomial;
    var p, x := Power(|b|), c as int - d as int;
    var u, v := Polynomial(a + [c] + b), Polynomial(a + [d] + b);
    assert u - v == x * p by { Difference(Polynomial(a), c, d, p, Polynomial(b)); }
    if u % HASHSIZE == v % HASHSIZE {
      SameRemainder(u, v);
      OddPower(x, |b|);
    }
  }

  lemma LastDigit(a: Name, c: Byte)
    ensures Polynomial(a + [c]) == Polynomial(a) * 131 + c
  {
    assert (a + [c])[..|a|] == a;
  }

  lemma Difference(a: int, c: int, d: int, p: int, b: int)
    ensures ((a * 131 + c) * p + b) - ((a * 131 + d) * p + b) == (c - d) * p
  {
  }

  lemma SameRemainder(u: nat, v: nat)
    requires u % HASHSIZE == v % HASHSIZE
    ensures (u - v) % HASHSIZE == 0
  {
    assert u - v == HASHSIZE * (u / HASHSIZE - v / HASHSIZE);
  }

  // ---- looking up and storing ----

  /** The characters of a C string. */
  ghost predicate IsName(s: Name) {
    forall i {:trigger s[i]} :: 0 <= i < |s| ==> s[i] != 0
  }

  function TagLength(key: Name): (n: nat)
    ensures n <= |key| && n <= TAG
  {
    if |key| > TAG then TAG else |key|
  }

  predicate TagMatches(partKey: seq<Byte>, key: Name) {
    TagLength(key) <= |partKey| && partKey[..TagLength(key)] == key[..TagLength(key)]
  }

  /** The first four bytes of the key, or all of a shorter one, are those of the tag. */
  ghost predicate SameStart(partKey: seq<Byte>, key: Name)
    requires |partKey| == 4
  {
    forall i {:trigger key[i]} :: 0 <= i < |key| && i < 4 ==> partKey[i] == key[i]
  }

  lemma MatchIsSameStart(partKey: seq<Byte>, key: Name)
    requires |partKey| == 4
    ensures TagMatches(partKey, key) <==> SameStart(partKey, key)
  {
    var n := TagLength(key);
    if TagMatches(partKey, key) {
      assert forall i {:trigger key[i]} :: 0 <= i < n ==> partKey[..n][i] == key[..n][i];
    }
  }

  function Tagged(partKey: seq<Byte>, key: Name): (p: seq<Byte>)
    requires |partKey| == TAG
    ensures |p| == TAG
  {
    key[..TagLength(key)] + partKey[TagLength(key)..]
  }

  /** A tag just written matches its name. */
  lemma TagMatchesItself(partKey: seq<Byte>, key: Name)
    requires |partKey| == TAG
    ensures TagMatches(Tagged(partKey, key), key)
  {
  }

  /** Which other names of the bucket then find the record: those that begin as this one
      does, up to four bytes; behind a shorter name the bytes of earlier ones count. */
  lemma SharedTagIff(partKey: seq<Byte>, key: Name, k: Name)
    requires |partKey| == TAG
    ensures TagMatches(Tagged(partKey, key), k) <==>
            forall i {:trigger k[i]} :: 0 <= i < |k| && i < 4 ==> k[i] == if i < |key| then key[i] else partKey[i]
    ensures TAG <= |key| && TAG <= |k| ==> (TagMatches(Tagged(partKey, key), k) <==> key[..TAG] == k[..TAG])
  {
    var t, n := Tagged(partKey, key), TagLength(k);
    assert forall i {:trigger k[i]} :: 0 <= i < n ==> t[i] == if i < |key| then key[i] else partKey[i];
    if forall i {:trigger k[i]} :: 0 <= i < n ==> k[i] == t[i] {
      assert t[..n] == k[..n];
    }
    forall i {:trigger k[i]} | 0 <= i < n && t[..n] == k[..n]
      ensures k[i] == t[i]
    {
      assert t[..n][i] == k[..n][i];
    }
  }

  /** The place of a name: a record of the trie's array, or a bucket. */
  datatype Place = Main(index: int) | Hashed(bucket: int)

  /** What the trie says of a name. */
  function PlaceOf(contents: map<seq<int>, int>, code: seq<int>, key: Name): Place {
    if code in contents then Main(contents[code]) else Hashed(Bucket(key))
  }

  class Kache {
    const trie: Trie
    const mainData: array<Record>
    const hashData: array<HashRecord>

    ghost predicate Valid()
      reads this, trie, trie.alphaMap, trie.alphaMap.repr, trie.da, trie.tail, hashData
    {
      && trie.Valid() && hashData.Length == HASHSIZE
      && (forall k {:trigger k in trie.contents} :: k in trie.contents ==> 0 <= trie.contents[k] < mainData.Length)
      && (forall h {:trigger hashData[h]} :: 0 <= h < HASHSIZE ==> |hashData[h].partKey| == TAG)
    }

    ghost function Where(key: Name): Place
      reads trie, trie.alphaMap
    {
      PlaceOf(trie.contents, Codes(trie.alphaMap.ranges, key), key)
    }

    /** The four bytes in the bucket of a name that is not in the trie. */
    ghost function PartKey(key: Name): (p: seq<Byte>)
      reads this, trie, trie.alphaMap, trie.alphaMap.repr, trie.da, trie.tail, hashData
      requires Valid()
      ensures |p| == TAG
    {
      if Where(key).Hashed? then hashData[Where(key).bucket].partKey else [0, 0, 0, 0]
    }

    /** What a lookup of `key` yields. */
    ghost function Lookup(key: Name): Cached
      reads this, trie, trie.alphaMap, trie.alphaMap.repr, trie.da, trie.tail, mainData, hashData
      requires Valid()
    {
      var w := Where(key);
      if w.Main? then Some(mainData[w.index])
      else if TagMatches(hashData[w.bucket].partKey, key) then Some(hashData[w.bucket].data)
      else None
    }

    /** A cache over a loaded trie and the list of its addresses; the buckets are zero. */
    constructor (trie: Trie, records: array<Record>)
      requires trie.Valid() && forall k {:trigger k in trie.contents} :: k in trie.contents ==> 0 <= trie.contents[k] < records.Length
      ensures Valid() && this.trie == trie && mainData == records && fresh(hashData)
      ensures forall h {:trigger hashData[h]} :: 0 <= h < HASHSIZE ==> hashData[h] == HashRecord(Record(0, 0), [0, 0, 0, 0])
    {
      this.trie, mainData := trie, records;
      hashData := new HashRecord[HASHSIZE](_ => HashRecord(Record(0, 0), [0, 0, 0, 0]));
    }

    method Locate(key: Name) returns (w: Place)
      requires Valid() && IsName(key)
      ensures w == Where(key)
    {
      hide Trie.Valid, Codes, Bucket;
      var inTrie, index := trie.Retrieve(key);
      if inTrie {
        return Main(index);
      }
      var hashVal := BkdrHash(key);
      return Hashed(hashVal);
    }

    method Retrieve(key: Name) returns (r: Cached)
      requires Valid() && IsName(key)
      ensures r == Lookup(key)
      ensures var code := Codes(trie.alphaMap.ranges, key);
              if code in trie.contents then r == Some(mainData[trie.contents[code]])
              else r == if SameStart(hashData[Bucket(key)].partKey, key) then Some(hashData[Bucket(key)].data) else None
    {
      hide Trie.Valid, Codes, Bucket, TagMatches, SameStart;
      var w := Locate(key);
      if w.Hashed? {
        MatchIsSameStart(hashData[w.bucket].partKey, key);
      }
      if w.Main? {
        return Some(mainData[w.index]);
      }
      if !TagMatches(hashData[w.bucket].partKey, key) {
        return None;
      }
      return Some(hashData[w.bucket].data);
    }

    /** What the server makes of a name at the time `now`: a record older than a day is
        as good as none. */
    method Ask(key: Name, now: int) returns (a: Replies.Answer)
      requires Valid() && IsName(key)
      ensures a == if Lookup(key).Some? && now - Lookup(key).record.timestamp <= 24 * 60 * 60 then Replies.Hit(Lookup(key).record.ip) else Replies.Missed
    {
      hide Trie.Valid, Codes, Bucket, TagMatches;
      var r := Retrieve(key);
      if r.None? || r.record.timestamp + TIME_OUT < now {
        return Replies.Missed;
      }
      return Replies.Hit(r.record.ip);
    }

    method Store(key: Name, data: Record)
      requires Valid() && IsName(key)
      modifies mainData, hashData
      ensures Valid() && Lookup(key) == Some(data)
      ensures forall k: Name {:trigger Where(k)} :: Where(k) == old(Where(k))
      ensures forall k: Name {:trigger Lookup(k)} :: Where(k) != Where(key) ==> Lookup(k) == old(Lookup(k))
      ensures forall k: Name {:trigger Lookup(k)} :: Where(k) == Where(key) && Where(key).Main? ==> Lookup(k) == Some(data)
      ensures forall k: Name {:trigger Lookup(k)} :: Where(k) == Where(key) && Where(key).Hashed? ==>
        Lookup(k) == if TagMatches(Tagged(old(PartKey(key)), key), k) then Some(data) else None
    {
      hide Trie.Valid, Codes, Bucket, TagMatches, Tagged;
      var w := Locate(key);
      if w.Main? {
        mainData[w.index] := data;
      } else {
        TagMatchesItself(hashData[w.bucket].partKey, key);
        hashData[w.bucket] := HashRecord(data, Tagged(hashData[w.bucket].partKey, key));
      }
    }

    /** No two of the names share a record of the array or a bucket, and those not in the
        trie are not empty. */
    ghost predicate Separate(used: set<Name>)
      reads trie, trie.alphaMap
    {
      && (forall k, k' {:trigger Where(k), Where(k')} :: k in used && k' in used && k != k' ==> Where(k) != Where(k'))
      && (forall k {:trigger Where(k)} :: k in used && Where(k).Hashed? ==> k != [])
    }

    /** The cache answers for the names as the map does. */
    ghost predicate Agrees(used: set<Name>, m: map<Name, Record>)
      reads this, trie, trie.alphaMap, trie.alphaMap.repr, trie.da, trie.tail, mainData, hashData
      requires Valid()
    {
      forall k {:trigger Lookup(k)} :: k in used ==> Lookup(k) == Answer(m, k)
    }

    /** A cache without stores agrees with the preloaded records. */
    lemma Preloaded(used: set<Name>, m: map<Name, Record>)
      requires Valid() && Separate(used) && forall k {:trigger k in used} :: k in used ==> IsName(k)
      requires forall h {:trigger hashData[h]} :: 0 <= h < HASHSIZE ==> hashData[h] == HashRecord(Record(0, 0), [0, 0, 0, 0])
      requires forall k {:trigger k in m} :: k in used ==> (k in m <==> Where(k).Main?)
      requires forall k {:trigger m[k]} :: k in used && k in m ==> m[k] == mainData[Where(k).index]
      ensures Agrees(used, m)
    {
      hide Trie.Valid, Codes, Bucket;
      forall k {:trigger Lookup(k)} | k in used
        ensures Lookup(k) == Answer(m, k)
      {
        var w := Where(k);
        if w.Hashed? {
          assert k != [] && IsName(k);
          ZeroTag(k);
        }
      }
    }

    /** The empty name, unless it is in the trie, is always found, stored or not. */
    lemma EmptyNameIsFound()
      requires Valid() && Where([]).Hashed?
      ensures Lookup([]) == Some(hashData[Bucket([])].data)
    {
    }

    /** Any sequence of stores and lookups of such names is answered as the map answers
        it. */
    method Run(ops: seq<Op>, ghost used: set<Name>, ghost m: map<Name, Record>) returns (answers: seq<Cached>)
      requires Valid() && Separate(used) && Agrees(used, m)
      requires forall i {:trigger ops[i]} :: 0 <= i < |ops| ==> ops[i].key in used && IsName(ops[i].key)
      modifies mainData, hashData
      ensures Valid() && |answers| == |ops|
      ensures forall i {:trigger ops[i]} :: 0 <= i < |ops| && ops[i].Retrieve? ==> answers[i] == Answer(MapAfter(m, ops[..i]), ops[i].key)
      ensures Agrees(used, MapAfter(m, ops))
    {
      hide Kache.Valid, Where, Lookup;
      answers := [];
      var i := 0;
      assert ops[..0] == [];
      while i < |ops|
        invariant 0 <= i <= |ops| == |ops| && |answers| == i
        invariant Valid() && Separate(used) && Agrees(used, MapAfter(m, ops[..i]))
        invariant forall j {:trigger ops[j]} :: 0 <= j < i && ops[j].Retrieve? ==> answers[j] == Answer(MapAfter(m, ops[..j]), ops[j].key)
      {
        var a := Perform(ops[i], used, MapAfter(m, ops[..i]));
        assert ops[..i + 1][..i] == ops[..i];
        answers := answers + [a];
        i := i + 1;
      }
      assert ops[..i] == ops;
    }

    method Perform(op: Op, ghost used: set<Name>, ghost m: map<Name, Record>) returns (a: Cached)
      requires Valid() && Separate(used) && Agrees(used, m) && op.key in used && IsName(op.key)
      modifies mainData, hashData
      ensures Valid() && Separate(used)
      ensures op.Retrieve? ==> a == Answer(m, op.key)
      ensures Agrees(used, MapNext(m, op))
    {
      hide Kache.Valid, Where, Lookup;
      a := None;
      if op.Store? {
        Store(op.key, op.data);
      } else {
        a := Retrieve(op.key);
      }
    }
  }

  datatype Op = Store(key: Name, data: Record) | Retrieve(key: Name)

  function Answer(m: map<Name, Record>, k: Name): Cached {
    if k in m then Some(m[k]) else None
  }

  function MapNext(m: map<Name, Record>, op: Op): map<Name, Record> {
    if op.Store? then m[op.key := op.data] else m
  }

  function MapAfter(m: map<Name, Record>, ops: seq<Op>): map<Name, Record> {
    if ops == [] then m else MapNext(MapAfter(m, ops[..|ops| - 1]), ops[|ops| - 1])
  }

  /** The tag of an empty bucket matches no name but the empty one. */
  lemma ZeroTag(key: Name)
    requires key != [] && IsName(key)
    ensures !TagMatches([0, 0, 0, 0], key)
  {
    var n, zero: seq<Byte> := TagLength(key), [0, 0, 0, 0];
    assert zero[..n][0] == 0 && key[..n][0] == key[0];
  }
}
