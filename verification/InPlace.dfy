/** The loop that builds the first reply.  The addresses overwrite the buffer from its
    start while the names are still being read from it, so what the loop reads later may
    be what it wrote before. */
module InPlaceReplies {
  import opened FileBytes
  import opened Replies

  /** The buffer after the address `w` was stored at place `k`. */
  function Put(b: seq<Byte>, k: nat, w: Word): (r: seq<Byte>)
    requires 4 * k + 4 <= |b|
    ensures |r| == |b| && r[..4 * k] == b[..4 * k]
  {
    b[..4 * k] + WordBytes(w) + b[4 * k + 4..]
  }

  /** What the loop leaves: the buffer with the addresses, their number and the miss list;
      or it ran over the end of the buffer, reading or writing. */
  datatype Outcome = Finished(buf: seq<Byte>, count: nat, misses: seq<Miss>) | Outside

  function NoteMiss(misses: seq<Miss>, a: Answer, name: Name, k: nat): seq<Miss> {
    if a.Missed? then misses + [Miss(name, k)] else misses
  }

  /** The loop on the buffer `b`, whose first `n` bytes came as the request, when `pos` of
      them have been read and `k` addresses stored. */
  function Replied(b: seq<Byte>, n: int, pos: nat, k: nat, misses: seq<Miss>, lookup: Name -> Answer): Outcome
    requires pos <= |b|
    decreases |b| - pos
  {
    var m := NameLength(b[pos..]);
    if pos + m == |b| || |b| < 4 * k + 4 then Outside
    else
      var name := b[pos..pos + m];
      var next, more := Put(b, k, Address(lookup(name))), NoteMiss(misses, lookup(name), name, k);
      if n <= pos + m + 1 then Finished(next, k + 1, more) else Replied(next, n, pos + m + 1, k + 1, more, lookup)
  }

  /** The reply of looking up all `names` beforehand. */
  ghost predicate IsRight(out: Outcome, names: seq<Name>, lookup: Name -> Answer) {
    && out.Finished? && out.count == |names| && 4 * |names| <= |out.buf|
    && out.buf[..4 * |names|] == WordsBytes(Addresses(names, lookup))
    && out.misses == Misses(names, lookup)
  }

  /** One turn of the loop. */
  lemma OneTurn(b: seq<Byte>, n: int, pos: nat, k: nat, misses: seq<Miss>, lookup: Name -> Answer, m: nat)
    requires pos <= |b| && m == NameLength(b[pos..])
    ensures pos + m == |b| || |b| < 4 * k + 4 ==> Replied(b, n, pos, k, misses, lookup) == Outside
    ensures pos + m < |b| && 4 * k + 4 <= |b| ==>
      var name := b[pos..pos + m];
      var next, more := Put(b, k, Address(lookup(name))), NoteMiss(misses, lookup(name), name, k);
      Replied(b, n, pos, k, misses, lookup) ==
        if n <= pos + m + 1 then Finished(next, k + 1, more) else Replied(next, n, pos + m + 1, k + 1, more, lookup)
  {
    hide NameLength, Put, NoteMiss;
  }

  // ---- the loop in place ----

  /** Storing an address. */
  method PutWord(buf: array<Byte>, k: nat, w: Word)
    requires 4 * k + 4 <= buf.Length
    modifies buf
    ensures buf[..] == Put(old(buf[..]), k, w)
  {
    var b := WordBytes(w);
    buf[4 * k] := b[0];
    buf[4 * k + 1] := b[1];
    buf[4 * k + 2] := b[2];
    buf[4 * k + 3] := b[3];
  }

  /** Looks the names up one after the other, writing each address over the request. */
  method DoSearch(buf: array<Byte>, n: nat, lookup: Name -> Answer) returns (inside: bool, ipcount: nat, misses: seq<Miss>, flag: Byte)
    requires 0 < n <= buf.Length
    modifies buf
    ensures Replied(old(buf[..]), n, 0, 0, [], lookup) == if inside then Finished(buf[..], ipcount, misses) else Outside
    ensures flag == if misses == [] then FIRST_WITHOUT_ERROR else FIRST_WITH_ERROR
  {
    hide NameLength, Put, NoteMiss, Replied, Address;
    ghost var b := buf[..];
    var readcount := 0;
    ipcount, misses := 0, [];
    while true
      invariant readcount <= buf.Length
      invariant Replied(b, n, 0, 0, [], lookup) == Replied(buf[..], n, readcount, ipcount, misses, lookup)
      decreases buf.Length - readcount
    {
      ghost var now := buf[..];
      assert now[readcount..] == buf[readcount..];
      var m := Strlen(buf, readcount);
      OneTurn(now, n, readcount, ipcount, misses, lookup, m);
      if readcount + m == buf.Length || buf.Length < 4 * ipcount + 4 {
        inside := false;
        break;
      }
      var currentName := buf[readcount..readcount + m];
      assert currentName == now[readcount..readcount + m];
      var result := lookup(currentName);
      misses := NoteMiss(misses, result, currentName, ipcount);
      PutWord(buf, ipcount, Address(result));
      readcount := readcount + m + 1;
      ipcount := ipcount + 1;
      if readcount >= n {
        inside := true;
        break;
      }
    }
    flag := if misses == [] then FIRST_WITHOUT_ERROR else FIRST_WITH_ERROR;
  }

  // ---- enough room ----

  /** A C string that ends within a part of the buffer. */
  lemma LengthWithin(b: seq<Byte>, pos: nat, n: nat)
    requires pos <= n <= |b| && NameLength(b[pos..n]) < n - pos
    ensures NameLength(b[pos..]) == NameLength(b[pos..n])
    ensures b[pos..pos + NameLength(b[pos..])] == b[pos..n][..NameLength(b[pos..n])]
  {
    hide NameLength;
    var s, u, m := b[pos..], b[pos..n], NameLength(b[pos..n]);
    assert forall i {:trigger u[i]} :: 0 <= i < n - pos ==> s[i] == u[i];
    assert u[m] == 0;
    assert forall i {:trigger s[i]} :: 0 <= i < m ==> s[i] == u[i] && u[i] != 0;
    assert s[m] == 0;
  }

  /** What lies behind a store stays as it is. */
  lemma Unread(b: seq<Byte>, k: nat, w: Word, pos: nat, n: nat)
    requires 4 * k + 4 <= pos <= n <= |b|
    ensures Put(b, k, w)[pos..n] == b[pos..n]
  {
    hide WordBytes;
  }

  lemma StoredMore(b: seq<Byte>, done: seq<Name>, name: Name, lookup: Name -> Answer)
    requires 4 * |done| + 4 <= |b| && b[..4 * |done|] == WordsBytes(Addresses(done, lookup))
    ensures Put(b, |done|, Address(lookup(name)))[..4 * |done + [name]|] == WordsBytes(Addresses(done + [name], lookup))
    ensures NoteMiss(Misses(done, lookup), lookup(name), name, |done|) == Misses(done + [name], lookup)
  {
    hide WordsBytes, WordBytes, Addresses, Misses;
    AddressesStep(done, name, lookup);
  }

  /** Where the loop is when the names `done` have been read as they were sent and the
      rest of the request is intact. */
  ghost predicate Halfway(body: seq<Byte>, now: seq<Byte>, pos: nat, done: seq<Name>, lookup: Name -> Answer) {
    && 4 * |done| <= pos < |body| <= |now|
    && Terminated(now[pos..|body|]) && Roomy(now[pos..|body|], pos - 4 * |done|)
    && Names(body) == done + Names(now[pos..|body|])
    && now[..4 * |done|] == WordsBytes(Addresses(done, lookup))
  }

  /** The turn for a name that is not the last. */
  lemma HalfwayOn(body: seq<Byte>, now: seq<Byte>, pos: nat, done: seq<Name>, lookup: Name -> Answer, m: nat, name: Name)
    requires Halfway(body, now, pos, done, lookup)
    requires m == NameLength(now[pos..|body|]) && pos + m + 1 < |body| && name == now[pos..|body|][..m]
    ensures 4 * |done| + 4 <= pos + m + 1
    ensures Halfway(body, Put(now, |done|, Address(lookup(name))), pos + m + 1, done + [name], lookup)
  {
    hide NameLength, Roomy, Names, WordsBytes, Addresses, Misses, Put, Address;
    var u := now[pos..|body|];
    TerminatedRest(u);
    RoomyUnfold(u, pos - 4 * |done|);
    NamesStep(done, u);
    assert u[m + 1..] == now[pos + m + 1..|body|];
    Unread(now, |done|, Address(lookup(name)), pos + m + 1, |body|);
    StoredMore(now, done, name, lookup);
  }

  /** The last turn. */
  lemma LastName(body: seq<Byte>, now: seq<Byte>, pos: nat, done: seq<Name>, lookup: Name -> Answer, m: nat, name: Name)
    requires Halfway(body, now, pos, done, lookup)
    requires m == NameLength(now[pos..|body|]) && pos + m + 1 == |body| && name == now[pos..|body|][..m]
    ensures Names(body) == done + [name]
  {
    hide NameLength, Roomy, WordsBytes, Addresses;
    var u := now[pos..|body|];
    NamesStep(done, u);
    assert u[m + 1..] == [];
    assert done + [name] + [] == done + [name];
  }

  /** With room between the names the reply is right, or does not fit the buffer. */
  lemma {:induction false} RoomIsRight(body: seq<Byte>, now: seq<Byte>, pos: nat, done: seq<Name>, lookup: Name -> Answer)
    requires Halfway(body, now, pos, done, lookup)
    ensures var out := Replied(now, |body|, pos, |done|, Misses(done, lookup), lookup);
            if 4 * |Names(body)| <= |now| then IsRight(out, Names(body), lookup) else out == Outside
    decreases |body| - pos
  {
    hide NameLength, Roomy, WordsBytes, Addresses, Misses, Put, Address, Replied, Names, NoteMiss;
    var u := now[pos..|body|];
    TerminatedRest(u);
    var m := NameLength(u);
    LengthWithin(now, pos, |body|);
    var name := u[..m];
    OneTurn(now, |body|, pos, |done|, Misses(done, lookup), lookup, m);
    if pos + m + 1 == |body| {
      LastName(body, now, pos, done, lookup, m, name);
      if 4 * |done| + 4 <= |now| {
        StoredMore(now, done, name, lookup);
      }
    } else {
      HalfwayOn(body, now, pos, done, lookup, m, name);
      StoredMore(now, done, name, lookup);
      RoomIsRight(body, Put(now, |done|, Address(lookup(name))), pos + m + 1, done + [name], lookup);
    }
  }

  // ---- too little room ----

  /** The word of four equal bytes. */
  function Same(c: Byte): Word {
    c * 0x101_0101
  }

  lemma SameBytes(c: Byte)
    ensures WordBytes(Same(c)) == [c, c, c, c]
  {
    var w: int, q: int, p: int := c * 0x101_0101, c * 0x1_0101, c * 0x101;
    assert w == 0x100 * q + c && q == 0x100 * p + c && p == 0x100 * c + c;
    assert w / 0x100 == q && w / 0x1_0000 == p && w / 0x100_0000 == c as int;
    assert w % 0x100 == c as int && q % 0x100 == c as int && p % 0x100 == c as int;
  }

  function OtherByte(c: Byte, i: nat): Byte {
    (c + i) % 256
  }

  /** A cache that has every name, the one at the start of `v` with an address of its own;
      neither address has a byte that is the first of `v`. */
  ghost predicate TellsApart(lookup: Name -> Answer, v: seq<Byte>) {
    && v != []
    && forall x: Name {:trigger lookup(x)} :: lookup(x) == Hit(Same(OtherByte(v[0], if x == v[..NameLength(v)] then 1 else 2)))
  }

  lemma CacheExists(v: seq<Byte>) returns (lookup: Name -> Answer)
    requires v != []
    ensures TellsApart(lookup, v)
  {
    hide NameLength, Same, OtherByte;
    lookup := x => Hit(Same(OtherByte(v[0], if x == v[..NameLength(v)] then 1 else 2)));
  }

  /** What is left of the request behind the first name that leaves no room. */
  function Tight(s: seq<Byte>, slack: int): seq<Byte> {
    var n := NameLength(s);
    if |s| <= n + 1 then []
    else if slack + n + 1 - 4 < 0 then s[n + 1..]
    else Tight(s[n + 1..], slack + n + 1 - 4)
  }

  /** The reply has the addresses of `names` from place `k` on. */
  ghost predicate SlotsFrom(out: Outcome, k: nat, names: seq<Name>, lookup: Name -> Answer) {
    && out.Finished? && out.count == k + |names| && 4 * (k + |names|) <= |out.buf|
    && forall i {:trigger names[i]} :: 0 <= i < |names| ==> out.buf[4 * (k + i)..4 * (k + i) + 4] == WordBytes(Address(lookup(names[i])))
  }

  lemma RightHasSlots(out: Outcome, names: seq<Name>, lookup: Name -> Answer)
    requires IsRight(out, names, lookup)
    ensures SlotsFrom(out, 0, names, lookup)
  {
    hide WordsBytes, WordBytes, Addresses, Address;
    forall i {:trigger names[i]} | 0 <= i < |names|
      ensures out.buf[4 * i..4 * i + 4] == WordBytes(Address(lookup(names[i])))
    {
      var ws := Addresses(names, lookup);
      WordAt(ws, i);
      assert out.buf[4 * i..4 * i + 4] == out.buf[..4 * |names|][4 * i..4 * i + 4];
      assert ws[i] == Address(lookup(names[i]));
    }
  }

  lemma LaterSlots(out: Outcome, k: nat, x: Name, rest: seq<Name>, lookup: Name -> Answer)
    requires SlotsFrom(out, k, [x] + rest, lookup)
    ensures SlotsFrom(out, k + 1, rest, lookup)
  {
    hide WordBytes, Address;
    assert forall i {:trigger rest[i]} :: 0 <= i < |rest| ==> rest[i] == ([x] + rest)[i + 1];
  }

  /** Addresses stored stay. */
  lemma {:induction false} SlotsStay(b: seq<Byte>, n: int, pos: nat, k: nat, misses: seq<Miss>, lookup: Name -> Answer)
    requires pos <= |b| && 4 * k <= |b| && Replied(b, n, pos, k, misses, lookup).Finished?
    ensures var out := Replied(b, n, pos, k, misses, lookup); |out.buf| == |b| && out.buf[..4 * k] == b[..4 * k]
    decreases |b| - pos
  {
    hide NameLength, Address, Replied, NoteMiss;
    var m := NameLength(b[pos..]);
    OneTurn(b, n, pos, k, misses, lookup, m);
    var name := b[pos..pos + m];
    var next, more := Put(b, k, Address(lookup(name))), NoteMiss(misses, lookup(name), name, k);
    hide Put;
    var out := Replied(b, n, pos, k, misses, lookup);
    if pos + m + 1 < n {
      SlotsStay(next, n, pos + m + 1, k + 1, more, lookup);
      assert out.buf[..4 * k] == out.buf[..4 * k + 4][..4 * k];
      assert next[..4 * k] == next[..4 * k + 4][..4 * k];
    }
  }

  /** The address stored in one turn is in the reply. */
  lemma SlotIs(b: seq<Byte>, n: int, pos: nat, k: nat, misses: seq<Miss>, lookup: Name -> Answer)
    requires pos <= |b| && Replied(b, n, pos, k, misses, lookup).Finished?
    ensures var out, name := Replied(b, n, pos, k, misses, lookup), b[pos..pos + NameLength(b[pos..])];
            4 * k + 4 <= |out.buf| && out.buf[4 * k..4 * k + 4] == WordBytes(Address(lookup(name)))
  {
    hide NameLength, Address, Replied, NoteMiss, WordBytes;
    var m := NameLength(b[pos..]);
    OneTurn(b, n, pos, k, misses, lookup, m);
    var name := b[pos..pos + m];
    var next, more := Put(b, k, Address(lookup(name))), NoteMiss(misses, lookup(name), name, k);
    assert next[4 * k..4 * k + 4] == WordBytes(Address(lookup(name)));
    hide Put;
    var out := Replied(b, n, pos, k, misses, lookup);
    if pos + m + 1 < n {
      SlotsStay(next, n, pos + m + 1, k + 1, more, lookup);
      assert out.buf[4 * k..4 * k + 4] == out.buf[..4 * k + 4][4 * k..];
      assert next[4 * k..4 * k + 4] == next[..4 * k + 4][4 * k..];
    }
  }

  /** A name of which the first byte was overwritten is another name. */
  lemma Spoiled(v: seq<Byte>, s: seq<Byte>)
    requires v != [] && s != [] && s[0] != v[0]
    ensures s[..NameLength(s)] != v[..NameLength(v)]
  {
    if NameLength(v) == 0 {
      assert v[0] == 0;
    } else {
      assert v[..NameLength(v)][0] == v[0];
    }
  }

  /** Reading a spoiled name yields the wrong address for it. */
  lemma SpoiledIsWrong(b: seq<Byte>, n: int, pos: nat, k: nat, misses: seq<Miss>, lookup: Name -> Answer, v: seq<Byte>, names: seq<Name>)
    requires pos < |b| && TellsApart(lookup, v) && b[pos] != v[0]
    requires names != [] && names[0] == v[..NameLength(v)]
    ensures !SlotsFrom(Replied(b, n, pos, k, misses, lookup), k, names, lookup)
  {
    hide NameLength, Replied, WordBytes, Same;
    var out := Replied(b, n, pos, k, misses, lookup);
    var name := b[pos..pos + NameLength(b[pos..])];
    Spoiled(v, b[pos..]);
    assert name == b[pos..][..NameLength(b[pos..])];
    SameBytes(OtherByte(v[0], 1));
    SameBytes(OtherByte(v[0], 2));
    assert WordBytes(Address(lookup(name)))[0] != WordBytes(Address(lookup(names[0])))[0];
    if out.Finished? {
      SlotIs(b, n, pos, k, misses, lookup);
    }
  }

  /** A store that reaches the first byte of the next name overwrites it. */
  lemma FirstByteSpoiled(b: seq<Byte>, k: nat, w: Word, pos: nat, c: Byte)
    requires 4 * k <= pos < 4 * k + 4 <= |b| && WordBytes(w) == [c, c, c, c]
    ensures Put(b, k, w)[pos] == c
  {
    hide WordBytes;
  }

  /** When some name but the last leaves too little room, the cache that tells the names
      apart gets a wrong reply. */
  lemma {:induction false} TightIsWrong(b: seq<Byte>, n: nat, pos: nat, k: nat, misses: seq<Miss>, lookup: Name -> Answer, v: seq<Byte>)
    requires 4 * k <= pos < n <= |b| && Terminated(b[pos..n]) && !Roomy(b[pos..n], pos - 4 * k)
    requires v == Tight(b[pos..n], pos - 4 * k) && TellsApart(lookup, v)
    ensures !SlotsFrom(Replied(b, n, pos, k, misses, lookup), k, Names(b[pos..n]), lookup)
    decreases n - pos
  {
    hide NameLength, Roomy, Put, Address, Replied, Names, NoteMiss, SlotsFrom, TellsApart, WordBytes, Terminated, Tight;
    var m := NameLength(b[pos..n]);
    var p := pos + m + 1;
    NotLast(b, pos, n, pos - 4 * k);
    OneTurn(b, n, pos, k, misses, lookup, m);
    var name, names := b[pos..pos + m], Names(b[p..n]);
    if 4 * k + 4 <= |b| {
      var next, more := Put(b, k, Address(lookup(name))), NoteMiss(misses, lookup(name), name, k);
      if p < 4 * k + 4 {
        SpoilsNext(b, k, lookup, name, b[p..n], p);
        SpoiledIsWrong(next, n, p, k + 1, more, lookup, b[p..n], names);
      } else {
        Unread(b, k, Address(lookup(name)), p, n);
        TightIsWrong(next, n, p, k + 1, more, lookup, v);
      }
      NotLater(Replied(b, n, pos, k, misses, lookup), k, name, names, lookup);
    } else {
      OutsideHasNone(k, Names(b[pos..n]), lookup);
    }
  }

  /** A name that is not the last, before one that leaves no room. */
  lemma NotLast(b: seq<Byte>, pos: nat, n: nat, slack: int)
    requires pos < n <= |b| && Terminated(b[pos..n]) && !Roomy(b[pos..n], slack)
    ensures var m := NameLength(b[pos..n]);
            && NameLength(b[pos..]) == m && pos + m + 1 < n
            && Terminated(b[pos + m + 1..n]) && Names(b[pos..n]) == [b[pos..pos + m]] + Names(b[pos + m + 1..n])
            && Names(b[pos + m + 1..n]) != []
            && Names(b[pos + m + 1..n])[0] == b[pos + m + 1..n][..NameLength(b[pos + m + 1..n])]
            && (if slack + m + 1 - 4 < 0 then Tight(b[pos..n], slack) == b[pos + m + 1..n]
                else !Roomy(b[pos + m + 1..n], slack + m + 1 - 4) && Tight(b[pos..n], slack) == Tight(b[pos + m + 1..n], slack + m + 1 - 4))
  {
    hide NameLength, Roomy, Names, Tight, Terminated;
    var u := b[pos..n];
    NotLastName(u, slack, NameLength(u));
    LengthWithin(b, pos, n);
    assert u[NameLength(u) + 1..] == b[pos + NameLength(u) + 1..n];
  }

  lemma NotLastName(u: seq<Byte>, slack: int, m: nat)
    requires u != [] && Terminated(u) && !Roomy(u, slack) && m == NameLength(u)
    ensures m + 1 < |u| && Terminated(u[m + 1..]) && Names(u) == [u[..m]] + Names(u[m + 1..])
    ensures Names(u[m + 1..]) != [] && Names(u[m + 1..])[0] == u[m + 1..][..NameLength(u[m + 1..])]
    ensures if slack + m + 1 - 4 < 0 then Tight(u, slack) == u[m + 1..]
            else !Roomy(u[m + 1..], slack + m + 1 - 4) && Tight(u, slack) == Tight(u[m + 1..], slack + m + 1 - 4)
  {
    hide NameLength, Roomy, Names, Tight;
    TerminatedRest(u);
    RoomyUnfold(u, slack);
    NamesUnfold(u);
    TightUnfold(u, slack);
    TerminatedRest(u[m + 1..]);
    NamesUnfold(u[m + 1..]);
  }

  lemma TightUnfold(s: seq<Byte>, slack: int)
    requires NameLength(s) + 1 < |s|
    ensures var n := NameLength(s);
            Tight(s, slack) == if slack + n + 1 - 4 < 0 then s[n + 1..] else Tight(s[n + 1..], slack + n + 1 - 4)
  {
    hide NameLength;
  }

  lemma SpoilsNext(b: seq<Byte>, k: nat, lookup: Name -> Answer, name: Name, rest: seq<Byte>, pos: nat)
    requires 4 * k <= pos < 4 * k + 4 <= |b| && TellsApart(lookup, rest)
    ensures Put(b, k, Address(lookup(name)))[pos] != rest[0]
  {
    hide Put, Same, WordBytes, NameLength;
    SameBytes(OtherByte(rest[0], 1));
    SameBytes(OtherByte(rest[0], 2));
    FirstByteSpoiled(b, k, Address(lookup(name)), pos, OtherByte(rest[0], if name == rest[..NameLength(rest)] then 1 else 2));
  }

  lemma NotLater(out: Outcome, k: nat, x: Name, rest: seq<Name>, lookup: Name -> Answer)
    requires !SlotsFrom(out, k + 1, rest, lookup)
    ensures !SlotsFrom(out, k, [x] + rest, lookup)
  {
    hide SlotsFrom;
    if SlotsFrom(out, k, [x] + rest, lookup) {
      LaterSlots(out, k, x, rest, lookup);
    }
  }

  lemma OutsideHasNone(k: nat, names: seq<Name>, lookup: Name -> Answer)
    ensures !SlotsFrom(Outside, k, names, lookup)
  {
  }

  // ---- the exact condition ----

  /** The reply is right whatever is cached, if and only if every name but the last
      leaves room for an address before the next name, and all addresses fit the buffer. */
  lemma RightIffRoom(b: seq<Byte>, n: nat)
    requires 0 < n <= |b| && Terminated(b[..n])
    ensures (forall lookup: Name -> Answer {:trigger Replied(b, n, 0, 0, [], lookup)} :: IsRight(Replied(b, n, 0, 0, [], lookup), Names(b[..n]), lookup))
       <==> Roomy(b[..n], 0) && 4 * |Names(b[..n])| <= |b|
  {
    hide NameLength, Roomy, Replied, Names, IsRight, Tight;
    var body := b[..n];
    assert b[0..n] == body;
    if Roomy(body, 0) {
      forall lookup: Name -> Answer {:trigger Replied(b, n, 0, 0, [], lookup)}
        ensures IsRight(Replied(b, n, 0, 0, [], lookup), Names(body), lookup) <==> 4 * |Names(body)| <= |b|
      {
        RightIfItFits(b, n, lookup);
      }
      var lookup: Name -> Answer := x => Missed;
      assert IsRight(Replied(b, n, 0, 0, [], lookup), Names(body), lookup) <==> 4 * |Names(body)| <= |b|;
    } else {
      var lookup := WrongReply(b, n);
    }
  }

  /** With room between the names, the only thing that can go wrong is that the addresses
      do not fit: then the loop stores outside the buffer, whatever is cached. */
  lemma RightIfItFits(b: seq<Byte>, n: nat, lookup: Name -> Answer)
    requires 0 < n <= |b| && Terminated(b[..n]) && Roomy(b[..n], 0)
    ensures var out := Replied(b, n, 0, 0, [], lookup);
            if 4 * |Names(b[..n])| <= |b| then IsRight(out, Names(b[..n]), lookup) else out == Outside
    ensures IsRight(Replied(b, n, 0, 0, [], lookup), Names(b[..n]), lookup) <==> 4 * |Names(b[..n])| <= |b|
  {
    hide NameLength, Roomy, Replied, Names;
    assert b[0..n] == b[..n] && [] + Names(b[..n]) == Names(b[..n]);
    assert Halfway(b[..n], b, 0, [], lookup);
    assert Misses([], lookup) == [];
    RoomIsRight(b[..n], b, 0, [], lookup);
  }

  /** Without the room, there are cache contents for which the reply is wrong. */
  lemma WrongReply(b: seq<Byte>, n: nat) returns (lookup: Name -> Answer)
    requires 0 < n <= |b| && Terminated(b[..n]) && !Roomy(b[..n], 0)
    ensures !IsRight(Replied(b, n, 0, 0, [], lookup), Names(b[..n]), lookup)
  {
    hide NameLength, Replied, Names, IsRight, SlotsFrom, TellsApart;
    assert b[0..n] == b[..n];
    var v := Tight(b[..n], 0);
    TightIsThere(b[..n], 0);
    hide Tight, Roomy;
    lookup := CacheExists(v);
    TightIsWrong(b, n, 0, 0, [], lookup, v);
    if IsRight(Replied(b, n, 0, 0, [], lookup), Names(b[..n]), lookup) {
      RightHasSlots(Replied(b, n, 0, 0, [], lookup), Names(b[..n]), lookup);
    }
  }

  lemma {:induction false} TightIsThere(s: seq<Byte>, slack: int)
    requires Terminated(s) && !Roomy(s, slack)
    ensures Tight(s, slack) != []
    decreases |s|
  {
    hide NameLength, Roomy;
    NoRoomNeeded(slack);
    TerminatedRest(s);
    RoomyUnfold(s, slack);
    var n := NameLength(s);
    if 0 <= slack + n + 1 - 4 {
      TightIsThere(s[n + 1..], slack + n + 1 - 4);
    }
  }

  /** Storing an address leaves the unread names from `pos` on alone, whatever the
      address, exactly if there is room before them. */
  lemma HarmlessIfRoom(b: seq<Byte>, k: nat, pos: nat)
    requires 4 * k + 4 <= |b| && pos < |b|
    ensures (forall w: Word {:trigger Put(b, k, w)} :: Put(b, k, w)[pos..] == b[pos..]) <==> 4 * k + 4 <= pos
  {
    var p0, p1 := Put(b, k, 0), Put(b, k, 0xffff_ffff);
    assert p0[4 * k + 3] == 0 && p1[4 * k + 3] == 255;
    if pos < 4 * k + 4 {
      assert p0[pos..][4 * k + 3 - pos] == 0 && p1[pos..][4 * k + 3 - pos] == 255;
    } else {
      forall w: Word {:trigger Put(b, k, w)}
        ensures Put(b, k, w)[pos..] == b[pos..]
      {
      }
    }
  }

  // ---- over UDP ----

  /** What the client is told of the name `i` over UDP: an address that is cached, unless it
      is the mark of a miss; in all other cases that mark, and the name is in the list of
      those to be looked up. */
  ghost predicate ToldOverUdp(reply: seq<Byte>, i: nat, name: Name, misses: seq<Miss>, a: Answer)
    requires 4 * i + 4 <= |reply|
  {
    var listed := exists m {:trigger m in misses} :: m in misses && m.index == i && m.domain == name;
    match a
    case Hit(ip) => WordOf(reply[4 * i..4 * i + 4]) == ip && (listed <==> ip == CACHE_MISS)
    case Missed => reply[4 * i..4 * i + 4] == [127, 0, 0, 2] && listed
  }

  /** The search over UDP, which also takes a name cached with the mark of a miss for a
      missed one. */
  method UdpDoSearch(buf: array<Byte>, n: nat, lookup: Name -> Answer) returns (inside: bool, ipcount: nat, misses: seq<Miss>, flag: Byte)
    requires 0 < n <= buf.Length
    modifies buf
    ensures flag == if misses == [] then FIRST_WITHOUT_ERROR else FIRST_WITH_ERROR
    ensures var names := Names(old(buf[..n]));
            Terminated(old(buf[..n])) && Roomy(old(buf[..n]), 0) ==>
              && (inside <==> 4 * |names| <= buf.Length)
              && (inside ==> ipcount == |names|)
              && (inside ==> forall i {:trigger names[i]} :: 0 <= i < |names| ==> ToldOverUdp(buf[..], i, names[i], misses, lookup(names[i])))
  {
    hide Terminated, NameLength, Roomy, Names, Replied, ToldOverUdp, UdpAnswer, WordsBytes, Addresses, Misses;
    ghost var b := buf[..];
    assert b[..n] == buf[..n];
    var udp := x => UdpAnswer(lookup(x));
    inside, ipcount, misses, flag := DoSearch(buf, n, udp);
    if Terminated(b[..n]) && Roomy(b[..n], 0) {
      RightIfItFits(b, n, udp);
      if inside {
        RightTells(Replied(b, n, 0, 0, [], udp), Names(b[..n]), lookup);
      }
    }
  }

  lemma RightTells(out: Outcome, names: seq<Name>, lookup: Name -> Answer)
    requires IsRight(out, names, x => UdpAnswer(lookup(x)))
    ensures out.count == |names| && 4 * |names| <= |out.buf|
    ensures forall i {:trigger names[i]} :: 0 <= i < |names| ==> ToldOverUdp(out.buf, i, names[i], out.misses, lookup(names[i]))
  {
    hide ToldOverUdp;
    var udp := x => UdpAnswer(lookup(x));
    forall i {:trigger names[i]} | 0 <= i < |names|
      ensures ToldOverUdp(out.buf, i, names[i], out.misses, lookup(names[i]))
    {
      RightHasSlots(out, names, udp);
      hide IsRight;
      assert out.buf[4 * (0 + i)..4 * (0 + i) + 4] == WordBytes(Address(udp(names[i])));
      ListedIff(names, udp, i);
      TellsName(out.buf, i, names, out.misses, lookup);
    }
  }

  lemma TellsName(buf: seq<Byte>, i: nat, names: seq<Name>, misses: seq<Miss>, lookup: Name -> Answer)
    requires i < |names| && 4 * i + 4 <= |buf|
    requires buf[4 * i..4 * i + 4] == WordBytes(Address(UdpAnswer(lookup(names[i]))))
    requires UdpAnswer(lookup(names[i])).Missed? <==> exists m {:trigger m in misses} :: m in misses && m.index == i && m.domain == names[i]
    ensures ToldOverUdp(buf, i, names[i], misses, lookup(names[i]))
  {
    MissAddress();
    WordRoundTrip(Address(UdpAnswer(lookup(names[i]))));
    hide WordBytes, WordOf;
  }

  /** The miss list has the name at position `i` exactly if it is missed. */
  lemma ListedIff(names: seq<Name>, lookup: Name -> Answer, i: nat)
    requires i < |names|
    ensures lookup(names[i]).Missed? <==>
            exists m {:trigger m in Misses(names, lookup)} :: m in Misses(names, lookup) && m.index == i && m.domain == names[i]
  {
    hide Misses;
    var ms := Misses(names, lookup);
    if lookup(names[i]).Missed? {
      MissListed(names, lookup, i);
      var j :| 0 <= j < |ms| && ms[j].index == i;
      MissAt(names, lookup, j);
      assert ms[j] in ms;
    }
    forall m {:trigger m in ms} | m in ms && m.index == i
      ensures lookup(names[i]).Missed?
    {
      var j :| 0 <= j < |ms| && ms[j] == m;
      MissAt(names, lookup, j);
    }
  }

  lemma LengthIs(s: seq<Byte>, m: nat)
    requires m < |s| && s[m] == 0 && forall i {:trigger s[i]} :: 0 <= i < m ==> s[i] != 0
    ensures NameLength(s) == m
  {
    hide NameLength;
  }

  lemma FirstOfTwo(lookup: Name -> Answer)
    requires lookup([97, 97]) == Hit(Same(5))
    ensures Replied([97, 97, 0, 98, 98, 0, 0, 0], 6, 0, 0, [], lookup) == Replied([5, 5, 5, 5, 98, 0, 0, 0], 6, 3, 1, [], lookup)
  {
    hide NameLength, Same, WordBytes, Replied;
    var b: seq<Byte>, b1: seq<Byte> := [97, 97, 0, 98, 98, 0, 0, 0], [5, 5, 5, 5, 98, 0, 0, 0];
    SameBytes(5);
    assert b[0..] == b;
    LengthIs(b, 2);
    assert b[0..2] == [97, 97];
    OneTurn(b, 6, 0, 0, [], lookup, 2);
    assert Put(b, 0, Same(5)) == b1;
  }

  lemma SecondOfTwo(lookup: Name -> Answer)
    requires lookup([5, 98]) == Hit(Same(5))
    ensures Replied([5, 5, 5, 5, 98, 0, 0, 0], 6, 3, 1, [], lookup) == Finished([5, 5, 5, 5, 5, 5, 5, 5], 2, [])
  {
    hide NameLength, Same, WordBytes, Replied;
    var b1: seq<Byte>, b2: seq<Byte> := [5, 5, 5, 5, 98, 0, 0, 0], [5, 5, 5, 5, 5, 5, 5, 5];
    SameBytes(5);
    LengthIs(b1[3..], 2);
    assert b1[3..5] == [5, 98];
    OneTurn(b1, 6, 3, 1, [], lookup, 2);
    assert Put(b1, 1, Same(5)) == b2;
  }

  /** The names `aa` and `bb`, the second one cached with the address 7: the reply gives it
      the address of whatever else is asked for. */
  lemma ShortNamesSpoiled() returns (lookup: Name -> Answer)
    ensures var b: seq<Byte> := [97, 97, 0, 98, 98, 0, 0, 0];
            && Names(b[..6]) == [[97, 97], [98, 98]] && lookup([98, 98]) == Hit(7)
            && Replied(b, 6, 0, 0, [], lookup) == Finished([5, 5, 5, 5, 5, 5, 5, 5], 2, [])
    ensures WordBytes(7) != [5, 5, 5, 5]
  {
    lookup := x => if x == [98, 98] then Hit(7) else Hit(Same(5));
    hide Same, Replied, Names, NameLength, WordBytes;
    FirstOfTwo(lookup);
    SecondOfTwo(lookup);
    TwoNames();
    SmallWord();
  }

  lemma TwoNames()
    ensures var b: seq<Byte> := [97, 97, 0, 98, 98, 0, 0, 0]; Names(b[..6]) == [[97, 97], [98, 98]]
  {
    var s: seq<Byte>, t: seq<Byte> := [97, 97, 0, 98, 98, 0], [98, 98, 0];
    var b: seq<Byte> := [97, 97, 0, 98, 98, 0, 0, 0];
    hide NameLength, Names;
    LengthIs(s, 2);
    LengthIs(t, 2);
    NamesUnfold(s);
    NamesUnfold(t);
    NoRoomNeeded(0);
    assert s[3..] == t && t[3..] == [] && b[..6] == s && s[..2] == [97, 97] && t[..2] == [98, 98];
  }

  lemma SmallWord()
    ensures WordBytes(7)[0] == 7
  {
  }
}
