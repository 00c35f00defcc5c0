/** The first reply to a request: the addresses are written into the buffer that still
    holds the requested names. */
module Replies {
  import opened FileBytes

  const CACHE_MISS := 0x0200_007f     // 127.0.0.2 in network order, read as a little-endian word
  const DNS_ERROR := 0x0100_007f      // 127.0.0.1
  const FIRST_WITH_ERROR := 0x3f
  const FIRST_WITHOUT_ERROR := 0x7f

  type Word = w: int | 0 <= w < 0x1_0000_0000

  type Name = seq<Byte>

  /** What the cache says of a name; an expired record counts as a miss, and for a UDP
      request so does the address `CACHE_MISS`. */
  datatype Answer = Hit(ip: Word) | Missed

  datatype Miss = Miss(domain: Name, index: int)

  // ---- the request ----

  /** The length of the C string at the start of `s`. */
  function NameLength(s: seq<Byte>): (n: nat)
    ensures n <= |s|
    ensures n < |s| ==> s[n] == 0
    ensures forall i {:trigger s[i]} :: 0 <= i < n ==> s[i] != 0
  {
    if s == [] || s[0] == 0 then 0 else 1 + NameLength(s[1..])
  }

  /** A request body is a sequence of C strings. */
  predicate Terminated(s: seq<Byte>) {
    s == [] || s[|s| - 1] == 0
  }

  function Names(s: seq<Byte>): seq<Name> {
    if s == [] then []
    else
      var n := NameLength(s);
      [s[..n]] + if n < |s| then Names(s[n + 1..]) else []
  }

  /** Names as C strings, one after the other. */
  function Joined(names: seq<Name>): seq<Byte> {
    if names == [] then [] else names[0] + [0] + Joined(names[1..])
  }

  /** The names of a request body are its C strings: joined again they are the body. */
  lemma {:induction false} NamesJoin(s: seq<Byte>)
    requires Terminated(s)
    ensures Joined(Names(s)) == s && forall i {:trigger Names(s)[i]} :: 0 <= i < |Names(s)| ==> 0 !in Names(s)[i]
  {
    hide Names, NameLength;
    if s != [] {
      var n := NameLength(s);
      TerminatedRest(s);
      NamesUnfold(s);
      var rest := Names(s[n + 1..]);
      NamesJoin(s[n + 1..]);
      assert Names(s)[1..] == rest;
      assert forall i {:trigger Names(s)[i]} :: 0 < i < |Names(s)| ==> Names(s)[i] == rest[i - 1];
      assert forall i {:trigger s[..n][i]} :: 0 <= i < n ==> s[..n][i] == s[i];
      assert s == s[..n] + [0] + s[n + 1..];
    } else {
      NoRoomNeeded(0);
    }
  }

  /** Any names without a zero are the names of their body. */
  lemma {:induction false} JoinedNames(names: seq<Name>)
    requires forall i {:trigger names[i]} :: 0 <= i < |names| ==> 0 !in names[i]
    ensures Terminated(Joined(names)) && Names(Joined(names)) == names
  {
    hide Names, NameLength;
    var s := Joined(names);
    if names != [] {
      var x, more := names[0], Joined(names[1..]);
      JoinedNames(names[1..]);
      assert s[|x|] == 0 && forall i {:trigger s[i]} :: 0 <= i < |x| ==> s[i] == x[i];
      assert forall i {:trigger s[i]} :: 0 <= i < |x| ==> x[i] in x;
      assert NameLength(s) == |x|;
      NamesUnfold(s);
      assert s[..|x|] == x && s[|x| + 1..] == more;
      assert s[|s| - 1] == if more == [] then 0 else more[|more| - 1];
    } else {
      NoRoomNeeded(0);
    }
  }

  /** With `slack` bytes read and not overwritten before `s`: after every name but the
      last there is room for one more address before the next name. */
  predicate Roomy(s: seq<Byte>, slack: int) {
    if s == [] then true
    else
      var n := NameLength(s);
      n < |s| && (n + 1 == |s| || (0 <= slack + n + 1 - 4 && Roomy(s[n + 1..], slack + n + 1 - 4)))
  }

  /** Names of three bytes or more leave enough room, also behind the last one. */
  lemma {:induction false} LongNamesAreRoomy(s: seq<Byte>, slack: nat)
    requires Terminated(s) && forall i {:trigger Names(s)[i]} :: 0 <= i < |Names(s)| ==> 3 <= |Names(s)[i]|
    ensures Roomy(s, slack) && 4 * |Names(s)| <= |s|
  {
    hide Names, NameLength, Roomy;
    if s != [] {
      var n := NameLength(s);
      TerminatedRest(s);
      NamesUnfold(s);
      var rest := Names(s[n + 1..]);
      assert Names(s)[0] == s[..n];
      assert forall i {:trigger rest[i]} :: 0 <= i < |rest| ==> rest[i] == Names(s)[i + 1];
      LongNamesAreRoomy(s[n + 1..], slack + n + 1 - 4);
      RoomyUnfold(s, slack);
    } else {
      NoRoomNeeded(slack);
    }
  }

  lemma NoRoomNeeded(slack: int)
    ensures Roomy([], slack) && Names([]) == []
  {
  }

  lemma RoomyUnfold(s: seq<Byte>, slack: int)
    requires s != [] && NameLength(s) < |s|
    ensures var n := NameLength(s);
            Roomy(s, slack) <==> n + 1 == |s| || (0 <= slack + n + 1 - 4 && Roomy(s[n + 1..], slack + n + 1 - 4))
  {
    hide NameLength;
  }

  lemma TerminatedRest(s: seq<Byte>)
    requires Terminated(s) && s != []
    ensures NameLength(s) < |s| && Terminated(s[NameLength(s) + 1..])
  {
    hide NameLength;
    var n := NameLength(s);
    assert s[|s| - 1] == 0;
    assert n + 1 < |s| ==> s[n + 1..][|s| - n - 2] == s[|s| - 1];
  }

  /** The length of a C string; the buffer may end first. */
  method Strlen(buf: array<Byte>, pos: nat) returns (m: nat)
    requires pos <= buf.Length
    ensures m == NameLength(buf[pos..])
  {
    hide NameLength;
    m := 0;
    ghost var s := buf[pos..];
    while pos + m < buf.Length && buf[pos + m] != 0
      invariant m <= NameLength(s) && pos + m <= buf.Length
      decreases buf.Length - m
    {
      assert s[m] == buf[pos + m];
      m := m + 1;
    }
    assert pos + m < buf.Length ==> s[m] == buf[pos + m];
  }

  // ---- the reply ----

  function WordBytes(w: Word): (b: seq<Byte>)
    ensures |b| == 4
  {
    [w % 256, w / 0x100 % 256, w / 0x1_0000 % 256, w / 0x100_0000]
  }

  function WordOf(b: seq<Byte>): Word
    requires |b| == 4
  {
    BigEndian32(b[3], b[2], b[1], b[0])
  }

  lemma WordRoundTrip(w: Word)
    ensures WordOf(WordBytes(w)) == w
  {
    var h, m, l := w / 0x100_0000, w / 0x1_0000, w / 0x100;
    assert w == l * 0x100 + w % 256 && l == m * 0x100 + l % 256 && m == h * 0x100 + m % 256;
  }

  /** The mark of a miss is the address 127.0.0.2. */
  lemma MissAddress()
    ensures WordBytes(CACHE_MISS) == [127, 0, 0, 2]
  {
  }

  function WordsBytes(ws: seq<Word>): (b: seq<Byte>)
    ensures |b| == 4 * |ws|
  {
    if ws == [] then [] else WordsBytes(ws[..|ws| - 1]) + WordBytes(ws[|ws| - 1])
  }

  lemma {:induction false} WordAt(ws: seq<Word>, i: nat)
    requires i < |ws|
    ensures WordsBytes(ws)[4 * i..4 * i + 4] == WordBytes(ws[i])
  {
    var n := |ws| - 1;
    if i < n {
      WordAt(ws[..n], i);
      assert WordsBytes(ws)[4 * i..4 * i + 4] == WordsBytes(ws[..n])[4 * i..4 * i + 4];
    }
  }

  /** The address the first reply gives for a name. */
  function Address(a: Answer): Word {
    if a.Hit? then a.ip else CACHE_MISS
  }

  function Addresses(names: seq<Name>, lookup: Name -> Answer): (ws: seq<Word>)
    ensures |ws| == |names|
    ensures forall i {:trigger ws[i]} :: 0 <= i < |ws| ==> ws[i] == Address(lookup(names[i]))
  {
    seq(|names|, i requires 0 <= i < |names| => Address(lookup(names[i])))
  }

  /** The names that are not cached, with their positions in the request. */
  function Misses(names: seq<Name>, lookup: Name -> Answer): seq<Miss> {
    if names == [] then []
    else
      var n := |names| - 1;
      Misses(names[..n], lookup) + if lookup(names[n]).Missed? then [Miss(names[n], n)] else []
  }

  lemma Regrouped(a: seq<Name>, x: Name, b: seq<Name>)
    ensures a + ([x] + b) == a + [x] + b
  {
  }

  lemma NamesStep(done: seq<Name>, s: seq<Byte>)
    requires s != [] && NameLength(s) < |s|
    ensures done + Names(s) == done + [s[..NameLength(s)]] + Names(s[NameLength(s) + 1..])
  {
    hide Names, NameLength;
    NamesUnfold(s);
    Regrouped(done, s[..NameLength(s)], Names(s[NameLength(s) + 1..]));
  }

  lemma NamesUnfold(s: seq<Byte>)
    requires s != [] && NameLength(s) < |s|
    ensures Names(s) == [s[..NameLength(s)]] + Names(s[NameLength(s) + 1..])
  {
    hide NameLength;
  }

  lemma AddressesStep(done: seq<Name>, name: Name, lookup: Name -> Answer)
    ensures WordsBytes(Addresses(done + [name], lookup)) == WordsBytes(Addresses(done, lookup)) + WordBytes(Address(lookup(name)))
    ensures Misses(done + [name], lookup) == Misses(done, lookup) + if lookup(name).Missed? then [Miss(name, |done|)] else []
  {
    assert (done + [name])[..|done|] == done;
    assert Addresses(done + [name], lookup)[..|done|] == Addresses(done, lookup);
  }

  /** The cache's answer as the UDP server takes it. */
  function UdpAnswer(a: Answer): Answer {
    if a == Hit(CACHE_MISS) then Missed else a
  }

  /** Each entry of the miss list is a missed name with its position. */
  lemma {:induction false} MissAt(names: seq<Name>, lookup: Name -> Answer, i: nat)
    requires i < |Misses(names, lookup)|
    ensures var m := Misses(names, lookup)[i]; 0 <= m.index < |names| && m.domain == names[m.index] && lookup(m.domain).Missed?
  {
    var n := |names| - 1;
    if i < |Misses(names[..n], lookup)| {
      MissAt(names[..n], lookup, i);
      assert Misses(names, lookup)[i] == Misses(names[..n], lookup)[i];
    }
  }

  /** There are no entries exactly if every name is cached. */
  lemma {:induction false} NoMisses(names: seq<Name>, lookup: Name -> Answer)
    ensures Misses(names, lookup) == [] <==> forall i {:trigger names[i]} :: 0 <= i < |names| ==> lookup(names[i]).Hit?
  {
    if names != [] {
      var n := |names| - 1;
      NoMisses(names[..n], lookup);
      assert forall i {:trigger names[i]} :: 0 <= i < n ==> names[..n][i] == names[i];
    }
  }

  lemma {:induction false} MissListed(names: seq<Name>, lookup: Name -> Answer, i: nat)
    requires i < |names| && lookup(names[i]).Missed?
    ensures exists j {:trigger Misses(names, lookup)[j]} :: 0 <= j < |Misses(names, lookup)| && Misses(names, lookup)[j].index == i
  {
    var n := |names| - 1;
    var before, all := Misses(names[..n], lookup), Misses(names, lookup);
    if i < n {
      MissListed(names[..n], lookup, i);
      var j :| 0 <= j < |before| && before[j].index == i;
      assert all[j] == before[j];
    } else {
      assert all[|before|].index == i;
    }
  }

  /** Over UDP the address `CACHE_MISS` stands in the reply exactly at the positions of
      the names in the miss list. */
  lemma UdpMissesMarked(names: seq<Name>, lookup: Name -> Answer, i: nat)
    requires i < |names|
    ensures var udp := n => UdpAnswer(lookup(n));
            Addresses(names, udp)[i] == CACHE_MISS <==>
              exists j {:trigger Misses(names, udp)[j]} :: 0 <= j < |Misses(names, udp)| && Misses(names, udp)[j].index == i
  {
    hide Misses;
    var udp := n => UdpAnswer(lookup(n));
    if Addresses(names, udp)[i] == CACHE_MISS {
      MissListed(names, udp, i);
    }
    forall j | 0 <= j < |Misses(names, udp)| && Misses(names, udp)[j].index == i
      ensures udp(names[i]).Missed?
    {
      MissAt(names, udp, j);
    }
  }
}
