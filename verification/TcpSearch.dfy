/** A request over TCP from end to end: the client's function is called once for every
    requested name. */
module TcpSearch {
  import opened FileBytes
  import opened Replies
  import opened Client

  /** What the second reply holds: for every missed name its position in the request and
      the address the resolver found. */
  function PairWords(ms: seq<Miss>, resolve: Name -> Word): (ws: seq<Word>)
    ensures |ws| == 2 * |ms|
    ensures forall i {:trigger ms[i]} :: 0 <= i < |ms| ==>
      ws[2 * i] == ms[i].index % 0x1_0000_0000 && ws[2 * i + 1] == resolve(ms[i].domain)
  {
    if ms == [] then []
    else
      var n := |ms| - 1;
      var ws := PairWords(ms[..n], resolve);
      ws + [ms[n].index % 0x1_0000_0000, resolve(ms[n].domain)]
  }

  /** The address a name ends up with. */
  function Final(a: Answer, name: Name, resolve: Name -> Word): Word {
    if a.Hit? then a.ip else resolve(name)
  }

  /** One call for each position. */
  function Expected(index: seq<int>, names: seq<Name>, lookup: Name -> Answer, resolve: Name -> Word): (calls: seq<Call>)
    requires |index| == |names|
    ensures |calls| == |names|
    ensures forall k {:trigger calls[k]} :: 0 <= k < |names| ==> calls[k] == Call(index[k], Final(lookup(names[k]), names[k], resolve))
  {
    seq(|names|, k requires 0 <= k < |names| => Call(index[k], Final(lookup(names[k]), names[k], resolve)))
  }

  ghost predicate Increasing(index: seq<int>) {
    forall i, j {:trigger index[i], index[j]} :: 0 <= i < j < |index| ==> index[i] < index[j]
  }

  /** No name is cached with the very address that marks a miss. */
  ghost predicate NoMarkCached(names: seq<Name>, lookup: Name -> Answer) {
    forall k {:trigger names[k]} :: 0 <= k < |names| ==> lookup(names[k]) != Hit(CACHE_MISS)
  }

  /** The calls for the names missed among the first ones. */
  function LateOf(index: seq<int>, ms: seq<Miss>, resolve: Name -> Word): (calls: seq<Call>)
    requires forall i {:trigger ms[i]} :: 0 <= i < |ms| ==> 0 <= ms[i].index < |index|
    ensures |calls| == |ms|
  {
    seq(|ms|, i requires 0 <= i < |ms| => Call(index[ms[i].index], resolve(ms[i].domain)))
  }

  lemma MissesInRange(names: seq<Name>, lookup: Name -> Answer)
    ensures forall i {:trigger Misses(names, lookup)[i]} :: 0 <= i < |Misses(names, lookup)| ==>
      var m := Misses(names, lookup)[i]; 0 <= m.index < |names| && m.domain == names[m.index] && lookup(m.domain).Missed?
  {
    hide Misses;
    forall i {:trigger Misses(names, lookup)[i]} | 0 <= i < |Misses(names, lookup)|
      ensures var m := Misses(names, lookup)[i]; 0 <= m.index < |names| && m.domain == names[m.index] && lookup(m.domain).Missed?
    {
      MissAt(names, lookup, i);
    }
  }

  lemma FirstWord(names: seq<Name>, lookup: Name -> Answer, k: nat)
    requires k < |names|
    ensures WordIn(WordsBytes(Addresses(names, lookup)), k) == Address(lookup(names[k]))
  {
    WordInWords(Addresses(names, lookup), k);
  }

  /** A first reply without misses has every address. */
  lemma {:induction false} AllHit(index: seq<int>, names: seq<Name>, lookup: Name -> Answer, resolve: Name -> Word, k: nat)
    requires |index| == |names| && k <= |names| && forall i {:trigger names[i]} :: 0 <= i < |names| ==> lookup(names[i]).Hit?
    ensures AllCalls(index, WordsBytes(Addresses(names, lookup)), k) == Expected(index, names, lookup, resolve)[..k]
  {
    hide WordsBytes, WordIn, Addresses;
    if k > 0 {
      AllHit(index, names, lookup, resolve, k - 1);
      FirstWord(names, lookup, k - 1);
      var e := Expected(index, names, lookup, resolve);
      assert e[..k] == e[..k - 1] + [e[k - 1]];
    }
  }

  /** Hits and misses among the first `k` names together make the expected calls. */
  lemma {:induction false} HitsAndMisses(index: seq<int>, names: seq<Name>, lookup: Name -> Answer, resolve: Name -> Word, k: nat)
    requires |index| == |names| && k <= |names| && NoMarkCached(names, lookup)
    ensures forall i {:trigger Misses(names[..k], lookup)[i]} :: 0 <= i < |Misses(names[..k], lookup)| ==> 0 <= Misses(names[..k], lookup)[i].index < |index|
    ensures MissCount(WordsBytes(Addresses(names, lookup)), k) == |Misses(names[..k], lookup)|
    ensures multiset(HitCalls(index, WordsBytes(Addresses(names, lookup)), k)) + multiset(LateOf(index, Misses(names[..k], lookup), resolve))
         == multiset(Expected(index, names, lookup, resolve)[..k])
  {
    hide WordsBytes, WordIn, Addresses, Misses, Expected, LateOf, HitCalls, MissCount;
    MissesInRange(names[..k], lookup);
    if k == 0 {
      NothingYet(index, names, lookup, resolve);
    } else {
      HitsAndMisses(index, names, lookup, resolve, k - 1);
      MissesInRange(names[..k - 1], lookup);
      LateStep(index, names, lookup, resolve, k);
      EarlyStep(index, names, lookup, resolve, k);
      var first := WordsBytes(Addresses(names, lookup));
      var e := Expected(index, names, lookup, resolve);
      OneMore(HitCalls(index, first, k - 1), HitCalls(index, first, k),
              LateOf(index, Misses(names[..k - 1], lookup), resolve), LateOf(index, Misses(names[..k], lookup), resolve),
              e[..k - 1], e[..k], e[k - 1]);
    }
  }

  lemma OneMore(h: seq<Call>, h': seq<Call>, l: seq<Call>, l': seq<Call>, e: seq<Call>, e': seq<Call>, c: Call)
    requires (h' == h + [c] && l' == l) || (h' == h && l' == l + [c])
    requires multiset(h) + multiset(l) == multiset(e) && e' == e + [c]
    ensures multiset(h') + multiset(l') == multiset(e')
  {
  }

  lemma EarlyStep(index: seq<int>, names: seq<Name>, lookup: Name -> Answer, resolve: Name -> Word, k: nat)
    requires |index| == |names| && 0 < k <= |names| && NoMarkCached(names, lookup)
    ensures var first, miss, c := WordsBytes(Addresses(names, lookup)), lookup(names[k - 1]).Missed?, Expected(index, names, lookup, resolve)[k - 1];
            && HitCalls(index, first, k) == HitCalls(index, first, k - 1) + (if miss then [] else [c])
            && MissCount(first, k) == MissCount(first, k - 1) + (if miss then 1 else 0)
            && Expected(index, names, lookup, resolve)[..k] == Expected(index, names, lookup, resolve)[..k - 1] + [c]
            && (miss ==> c == Call(index[k - 1], resolve(names[k - 1])))
  {
    hide WordsBytes, WordIn, Addresses, Expected;
    FirstWord(names, lookup, k - 1);
    var e := Expected(index, names, lookup, resolve);
    assert e[k - 1] == Call(index[k - 1], Final(lookup(names[k - 1]), names[k - 1], resolve));
  }

  lemma NothingYet(index: seq<int>, names: seq<Name>, lookup: Name -> Answer, resolve: Name -> Word)
    requires |index| == |names|
    ensures Misses(names[..0], lookup) == [] && LateOf(index, [], resolve) == []
    ensures HitCalls(index, WordsBytes(Addresses(names, lookup)), 0) == [] && MissCount(WordsBytes(Addresses(names, lookup)), 0) == 0
    ensures Expected(index, names, lookup, resolve)[..0] == []
  {
  }

  lemma LateStep(index: seq<int>, names: seq<Name>, lookup: Name -> Answer, resolve: Name -> Word, k: nat)
    requires |index| == |names| && 0 < k <= |names|
    requires forall i {:trigger Misses(names[..k], lookup)[i]} :: 0 <= i < |Misses(names[..k], lookup)| ==> 0 <= Misses(names[..k], lookup)[i].index < |index|
    requires forall i {:trigger Misses(names[..k - 1], lookup)[i]} :: 0 <= i < |Misses(names[..k - 1], lookup)| ==>
      0 <= Misses(names[..k - 1], lookup)[i].index < |index|
    ensures |Misses(names[..k], lookup)| == |Misses(names[..k - 1], lookup)| + if lookup(names[k - 1]).Missed? then 1 else 0
    ensures LateOf(index, Misses(names[..k], lookup), resolve) == LateOf(index, Misses(names[..k - 1], lookup), resolve)
         + if lookup(names[k - 1]).Missed? then [Call(index[k - 1], resolve(names[k - 1]))] else []
  {
    assert names[..k][..k - 1] == names[..k - 1];
  }

  lemma SecondWords(ms: seq<Miss>, resolve: Name -> Word, i: nat, n: int)
    requires forall j {:trigger ms[j]} :: 0 <= j < |ms| ==> 0 <= ms[j].index < n
    requires 0 < n < 0x1_0000_0000
    ensures var second := WordsBytes(PairWords(ms, resolve));
            if i < |ms| then WordIn(second, 2 * i) == ms[i].index && WordIn(second, 2 * i + 1) == resolve(ms[i].domain)
            else WordIn(second, 2 * i) == 0 && WordIn(second, 2 * i + 1) == 0
    ensures WordIn(WordsBytes(PairWords(ms, resolve)), 2 * i) < n
  {
    hide WordIn, WordsBytes, PairWords;
    var ws := PairWords(ms, resolve);
    WordInWords(ws, 2 * i);
    WordInWords(ws, 2 * i + 1);
    if i < |ms| {
      PairAt(ms, resolve, i, ms[i].index);
    }
  }

  lemma PairAt(ms: seq<Miss>, resolve: Name -> Word, i: nat, index: int)
    requires i < |ms| && ms[i].index == index && 0 <= index < 0x1_0000_0000
    ensures var ws := PairWords(ms, resolve); 2 * i + 1 < |ws| && ws[2 * i] == index && ws[2 * i + 1] == resolve(ms[i].domain)
  {
    hide PairWords;
    assert index % 0x1_0000_0000 == index;
  }

  /** The calls made from the second reply. */
  lemma {:induction false} LateAreLate(index: seq<int>, ms: seq<Miss>, resolve: Name -> Word, k: nat)
    requires 0 < |index| < 0x1_0000_0000 && k <= |ms|
    requires forall i {:trigger ms[i]} :: 0 <= i < |ms| ==> 0 <= ms[i].index < |index|
    requires forall i {:trigger WordIn(WordsBytes(PairWords(ms, resolve)), 2 * i)} :: 0 <= i ==> WordIn(WordsBytes(PairWords(ms, resolve)), 2 * i) < |index|
    ensures LateCalls(index, WordsBytes(PairWords(ms, resolve)), k) == LateOf(index, ms, resolve)[..k]
  {
    hide WordIn, WordsBytes, PairWords;
    if k > 0 {
      LateAreLate(index, ms, resolve, k - 1);
      SecondWords(ms, resolve, k - 1, |index|);
      var l := LateOf(index, ms, resolve);
      assert l[..k] == l[..k - 1] + [l[k - 1]];
    }
  }

  /** What the client is called with, given the two replies of the server. */
  ghost function Calls(index: seq<int>, names: seq<Name>, lookup: Name -> Answer, resolve: Name -> Word): seq<Call>
    requires |index| == |names| && 0 < |names| < 0x1_0000_0000
  {
    var ms := Misses(names, lookup);
    var first, second := WordsBytes(Addresses(names, lookup)), WordsBytes(PairWords(ms, resolve));
    MissesInRange(names, lookup);
    InRange(ms, resolve, |names|);
    if ms == [] then AllCalls(index, first, |names|)
    else HitCalls(index, first, |names|) + LateCalls(index, second, MissCount(first, |names|))
  }

  lemma InRange(ms: seq<Miss>, resolve: Name -> Word, n: int)
    requires forall j {:trigger ms[j]} :: 0 <= j < |ms| ==> 0 <= ms[j].index < n
    requires 0 < n < 0x1_0000_0000
    ensures forall i {:trigger WordIn(WordsBytes(PairWords(ms, resolve)), 2 * i)} :: 0 <= i ==> WordIn(WordsBytes(PairWords(ms, resolve)), 2 * i) < n
  {
    hide WordIn, WordsBytes, PairWords;
    forall i {:trigger WordIn(WordsBytes(PairWords(ms, resolve)), 2 * i)} | 0 <= i
      ensures WordIn(WordsBytes(PairWords(ms, resolve)), 2 * i) < n
    {
      SecondWords(ms, resolve, i, n);
    }
  }

  /** Once for each name, if no cached address is the mark of a miss. */
  lemma OnceEach(index: seq<int>, names: seq<Name>, lookup: Name -> Answer, resolve: Name -> Word)
    requires |index| == |names| && 0 < |names| < 0x1_0000_0000
    requires Misses(names, lookup) == [] || NoMarkCached(names, lookup)
    ensures multiset(Calls(index, names, lookup, resolve)) == multiset(Expected(index, names, lookup, resolve))
  {
    hide WordsBytes, WordIn, Addresses, Misses, Expected, LateOf, HitCalls, MissCount, PairWords, LateCalls, AllCalls;
    var ms, n := Misses(names, lookup), |names|;
    var e := Expected(index, names, lookup, resolve);
    assert names[..n] == names && e[..n] == e;
    MissesInRange(names, lookup);
    InRange(ms, resolve, n);
    if ms == [] {
      NoMisses(names, lookup);
      AllHit(index, names, lookup, resolve, n);
    } else {
      HitsAndMisses(index, names, lookup, resolve, n);
      LateAreLate(index, ms, resolve, |ms|);
      assert LateOf(index, ms, resolve)[..|ms|] == LateOf(index, ms, resolve);
    }
  }

  lemma {:induction false} HitsAreNotMarks(index: seq<int>, first: seq<Byte>, k: nat, c: Call)
    requires k <= |index| && c in HitCalls(index, first, k)
    ensures c.ip != CACHE_MISS
  {
    hide WordIn;
    if c in HitCalls(index, first, k - 1) {
      HitsAreNotMarks(index, first, k - 1, c);
    }
  }

  /** No call from the second reply is for the name `k` with the address `CACHE_MISS`,
      when that name was cached. */
  lemma {:induction false} LateIsNotFor(index: seq<int>, ms: seq<Miss>, resolve: Name -> Word, j: nat, k: nat)
    requires 0 < |index| < 0x1_0000_0000 && k < |index| && Increasing(index)
    requires forall i {:trigger ms[i]} :: 0 <= i < |ms| ==> 0 <= ms[i].index < |index| && ms[i].index != k
    requires forall i {:trigger WordIn(WordsBytes(PairWords(ms, resolve)), 2 * i)} :: 0 <= i ==> WordIn(WordsBytes(PairWords(ms, resolve)), 2 * i) < |index|
    ensures Call(index[k], CACHE_MISS) !in LateCalls(index, WordsBytes(PairWords(ms, resolve)), j)
  {
    hide WordIn, WordsBytes, PairWords;
    if j > 0 {
      LateIsNotFor(index, ms, resolve, j - 1, k);
      SecondWords(ms, resolve, j - 1, |index|);
      if j - 1 < |ms| {
        var i := ms[j - 1].index;
        assert index[i] != index[k];
      }
    }
  }

  /** When a cached address is the mark of a miss and some name is missed, that cached
      name is not called for. */
  lemma MarkSpoils(index: seq<int>, names: seq<Name>, lookup: Name -> Answer, resolve: Name -> Word)
    requires |index| == |names| && 0 < |names| < 0x1_0000_0000 && Increasing(index)
    requires Misses(names, lookup) != [] && !NoMarkCached(names, lookup)
    ensures multiset(Calls(index, names, lookup, resolve)) != multiset(Expected(index, names, lookup, resolve))
  {
    hide WordsBytes, WordIn, Addresses, Misses, LateOf, HitCalls, MissCount, PairWords, LateCalls, AllCalls, Increasing;
    var k :| 0 <= k < |names| && lookup(names[k]) == Hit(CACHE_MISS);
    var c, ms, calls := Call(index[k], CACHE_MISS), Misses(names, lookup), Calls(index, names, lookup, resolve);
    assert Expected(index, names, lookup, resolve)[k] == c;
    assert c in multiset(Expected(index, names, lookup, resolve));
    MissesInRange(names, lookup);
    InRange(ms, resolve, |names|);
    var first := WordsBytes(Addresses(names, lookup));
    LateIsNotFor(index, ms, resolve, MissCount(first, |names|), k);
    assert c !in HitCalls(index, first, |names|) by {
      if c in HitCalls(index, first, |names|) {
        HitsAreNotMarks(index, first, |names|, c);
      }
    }
    assert c !in calls;
  }

  /** The user's function is called exactly once for every name, with the cached address
      or the resolver's, if and only if every name is cached or none is cached with the
      address that marks a miss. */
  lemma OnceEachIff(index: seq<int>, names: seq<Name>, lookup: Name -> Answer, resolve: Name -> Word)
    requires |index| == |names| && 0 < |names| < 0x1_0000_0000 && Increasing(index)
    ensures multiset(Calls(index, names, lookup, resolve)) == multiset(Expected(index, names, lookup, resolve))
       <==> Misses(names, lookup) == [] || NoMarkCached(names, lookup)
  {
    hide Calls, Expected, Misses, NoMarkCached, Increasing;
    if Misses(names, lookup) == [] || NoMarkCached(names, lookup) {
      OnceEach(index, names, lookup, resolve);
    } else {
      MarkSpoils(index, names, lookup, resolve);
    }
  }

  // ---- the request on both sides ----

  /** `t` has its zeros where `s` has them, as far as `s` goes or `t` goes. */
  ghost predicate SameZeros(s: seq<Byte>, t: seq<Byte>) {
    forall i {:trigger s[i]} {:trigger t[i]} :: 0 <= i < |s| && i < |t| ==> (s[i] == 0 <==> t[i] == 0)
  }

  lemma SameLength(s: seq<Byte>, t: seq<Byte>)
    requires SameZeros(s, t) && NameLength(s) < |s| && NameLength(s) < |t|
    ensures NameLength(t) == NameLength(s)
  {
    hide NameLength;
    var m, n := NameLength(s), NameLength(t);
    assert s[m] == 0 && t[m] == 0;
    assert forall i {:trigger t[i]} :: 0 <= i < m ==> t[i] != 0;
  }

  lemma SameZerosRest(s: seq<Byte>, t: seq<Byte>, k: nat)
    requires SameZeros(s, t) && k <= |s| && k <= |t|
    ensures SameZeros(s[k..], t[k..])
  {
    assert forall i {:trigger s[k..][i]} :: 0 <= i < |s| - k ==> s[k..][i] == s[k + i];
    assert forall i {:trigger t[k..][i]} :: 0 <= i < |t| - k ==> t[k..][i] == t[k + i];
  }

  /** A body with the same zeros has as many names, in the same places. */
  lemma {:induction false} SameNames(s: seq<Byte>, t: seq<Byte>, n: nat, base: int)
    requires HasNames(s, n) && SameZeros(s, t) && BodyLength(s, n) <= |t|
    ensures HasNames(t, n) && BodyLength(t, n) == BodyLength(s, n) && Starts(t, n, base) == Starts(s, n, base)
  {
    hide NameLength, BodyLength, Starts, HasNames, SameZeros;
    if n > 0 {
      var m := NameLength(s);
      RestHasNames(s, n);
      var s' := s[m + 1..];
      Unfold(s, n, base, m, s');
      SameLength(s, t);
      SameZerosRest(s, t, m + 1);
      var t' := t[m + 1..];
      SameNames(s', t', n - 1, base + m + 1);
      OneMoreName(t, n, m, t');
      Unfold(t, n, base, m, t');
    } else {
      NoNames(s, base);
      NoNames(t, base);
    }
  }

  lemma OneMoreName(s: seq<Byte>, n: nat, m: nat, rest: seq<Byte>)
    requires 0 < n && m == NameLength(s) < |s| && rest == s[m + 1..] && HasNames(rest, n - 1)
    ensures HasNames(s, n)
  {
    hide NameLength;
  }

  lemma NoNames(s: seq<Byte>, base: int)
    ensures HasNames(s, 0) && BodyLength(s, 0) == 0 && Starts(s, 0, base) == []
  {
  }

  /** The body that goes over the wire splits into exactly the `n` names. */
  lemma {:induction false} BodyNames(s: seq<Byte>, n: nat)
    requires HasNames(s, n) && BodyLength(s, n) == |s|
    ensures |Names(s)| == n && Terminated(s)
  {
    hide NameLength, BodyLength, Names;
    if n > 0 {
      var m := NameLength(s);
      RestHasNames(s, n);
      Unfold(s, n, 0, m, s[m + 1..]);
      BodyNames(s[m + 1..], n - 1);
      NamesUnfold(s);
      assert s[|s| - 1] == if m + 1 == |s| then s[m] else s[m + 1..][|s| - m - 2];
    } else {
      NoNames(s, 0);
      assert Names([]) == [] by { NamesOfNothing(); }
    }
  }

  lemma NamesOfNothing()
    ensures Names([]) == []
  {
  }

  /** The C string `name` stands at `p`. */
  ghost predicate Stands(s: seq<Byte>, p: int, name: Name) {
    0 <= p && p + |name| < |s| && s[p..p + |name|] == name && 0 !in name && s[p + |name|] == 0
  }

  lemma StandsAt(s: seq<Byte>, m: nat)
    requires m == NameLength(s) < |s|
    ensures Stands(s, 0, s[..m])
  {
    hide NameLength;
    assert forall i {:trigger s[..m][i]} :: 0 <= i < m ==> s[..m][i] == s[i];
  }

  lemma StandsLater(s: seq<Byte>, k: nat, p: int, name: Name)
    requires k <= |s| && Stands(s[k..], p, name)
    ensures Stands(s, k + p, name)
  {
    assert s[k..][p..p + |name|] == s[k + p..k + p + |name|];
  }

  /** The `k`-th name of a body stands where the `k`-th start says. */
  lemma {:induction false} NamesStand(s: seq<Byte>, n: nat, base: int, k: nat)
    requires HasNames(s, n) && k < n
    ensures k < |Names(s[..BodyLength(s, n)])| && Stands(s, Starts(s, n, base)[k] - base, Names(s[..BodyLength(s, n)])[k])
  {
    hide NameLength, BodyLength, Starts, HasNames, Names, SameZeros, Stands;
    var m := NameLength(s);
    RestHasNames(s, n);
    var rest := s[m + 1..];
    Unfold(s, n, base, m, rest);
    var body, more := s[..BodyLength(s, n)], rest[..BodyLength(rest, n - 1)];
    FirstName(s, body, m);
    assert body[m + 1..] == more && body[..m] == s[..m];
    NamesUnfold(body);
    StandsAt(s, m);
    if k > 0 {
      NamesStand(rest, n - 1, base + m + 1, k - 1);
      StandsLater(s, m + 1, Starts(rest, n - 1, base + m + 1)[k - 1] - (base + m + 1), Names(more)[k - 1]);
    }
  }

  /** A part of the buffer that includes the first name has it as its first name. */
  lemma FirstName(s: seq<Byte>, body: seq<Byte>, m: nat)
    requires m == NameLength(s) < |body| && body <= s
    ensures NameLength(body) == m
  {
    hide NameLength;
    assert s[m] == body[m] == 0;
    assert forall i {:trigger body[i]} :: 0 <= i < m ==> body[i] == s[i] && s[i] != 0;
  }

  /** Later names start later. */
  lemma {:induction false} StartsIncrease(s: seq<Byte>, n: nat, base: int)
    requires HasNames(s, n)
    ensures Increasing(Starts(s, n, base)) && forall i {:trigger Starts(s, n, base)[i]} :: 0 <= i < n ==> base <= Starts(s, n, base)[i]
  {
    hide NameLength, Starts;
    if n > 0 {
      var m := NameLength(s);
      RestHasNames(s, n);
      Unfold(s, n, base, m, s[m + 1..]);
      StartsIncrease(s[m + 1..], n - 1, base + m + 1);
      var rest, all := Starts(s[m + 1..], n - 1, base + m + 1), Starts(s, n, base);
      assert forall i {:trigger all[i]} :: 0 < i < n ==> all[i] == rest[i - 1];
    }
  }

  /** Whether there is room depends on the zeros only. */
  lemma {:induction false} SameRoom(s: seq<Byte>, t: seq<Byte>, slack: int)
    requires Terminated(s) && Roomy(s, slack) && |s| == |t| && SameZeros(s, t)
    ensures Roomy(t, slack)
    decreases |s|
  {
    hide NameLength, Roomy, SameZeros;
    if s != [] {
      var n := NameLength(s);
      TerminatedRest(s);
      RoomyUnfold(s, slack);
      SameLength(s, t);
      RoomyUnfold(t, slack);
      if n + 1 < |s| {
        SameZerosRest(s, t, n + 1);
        SameRoom(s[n + 1..], t[n + 1..], slack + n + 1 - 4);
      }
    } else {
      NoRoomNeeded(slack);
    }
  }

  /** Putting letters into lower case keeps the zeros. */
  lemma LowerZeros(s: seq<Byte>)
    ensures SameZeros(s, LowerAll(s))
  {
    hide LowerAll;
  }

  lemma PrefixZeros(s: seq<Byte>, t: seq<Byte>, rest: seq<Byte>)
    requires SameZeros(s, t) && |s| == |t|
    ensures SameZeros(s + rest, t + rest) && SameZeros(s + rest, t) && SameZeros(s + rest, s)
  {
    var n, u, v := |s|, s + rest, t + rest;
    assert forall i {:trigger u[i]} {:trigger s[i]} :: 0 <= i < n ==> u[i] == s[i];
    assert forall i {:trigger v[i]} {:trigger t[i]} :: 0 <= i < n ==> v[i] == t[i];
    assert forall i {:trigger u[i]} {:trigger v[i]} :: n <= i < |u| ==> u[i] == v[i];
    assert forall i {:trigger u[i]} {:trigger v[i]} :: 0 <= i < n ==> (u[i] == 0 <==> v[i] == 0);
  }

  /** What is sent after `PreDo`: `sent` is the body in lower case, `buf` the buffer. */
  lemma Sendable(old_: seq<Byte>, buf: seq<Byte>, n: nat, sent: seq<Byte>)
    requires HasNames(old_, n) && Roomy(old_[..BodyLength(old_, n)], 0)
    requires sent == LowerAll(old_[..BodyLength(old_, n)]) && buf == sent + old_[BodyLength(old_, n)..]
    ensures HasNames(buf, n) && Starts(buf, n, 0) == Starts(old_, n, 0) && BodyLength(buf, n) == |sent|
    ensures |Names(sent)| == n && Terminated(sent) && Roomy(sent, 0) && (n > 0 ==> sent != [])
    ensures Increasing(Starts(buf, n, 0))
  {
    var k := BodyLength(old_, n);
    var body := old_[..k];
    LowerZeros(body);
    PrefixZeros(body, sent, old_[k..]);
    assert old_ == body + old_[k..];
    hide NameLength, LowerAll, Starts, BodyLength, HasNames, Names, Roomy, SameZeros, Increasing;
    SameNames(old_, buf, n, 0);
    SameNames(old_, sent, n, 0);
    SameNames(old_, body, n, 0);
    BodyNames(body, n);
    BodyNames(sent, n);
    SameRoom(body, sent, 0);
    StartsIncrease(buf, n, 0);
    NamesOfNothing();
  }

  lemma CallsAre(index: seq<int>, names: seq<Name>, lookup: Name -> Answer, resolve: Name -> Word)
    requires |index| == |names| && 0 < |names| < 0x1_0000_0000
    requires forall i {:trigger WordIn(WordsBytes(PairWords(Misses(names, lookup), resolve)), 2 * i)} ::
      0 <= i ==> WordIn(WordsBytes(PairWords(Misses(names, lookup), resolve)), 2 * i) < |names|
    ensures var first, second := WordsBytes(Addresses(names, lookup)), WordsBytes(PairWords(Misses(names, lookup), resolve));
            Calls(index, names, lookup, resolve) ==
              if Misses(names, lookup) == [] then AllCalls(index, first, |names|)
              else HitCalls(index, first, |names|) + LateCalls(index, second, MissCount(first, |names|))
  {
    hide Misses, AllCalls, HitCalls, LateCalls, WordIn, WordsBytes, Addresses, PairWords, MissCount;
  }
}
