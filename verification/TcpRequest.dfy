/** A request over TCP from the user's buffer through both replies: the client, the
    server's search and the lookup threads together. */
module TcpRequests {
  import opened FileBytes
  import opened Replies
  import opened InPlaceReplies
  import opened Client
  import opened TcpSearch
  import opened DnsThreads
  import opened DnsRuns

  // ---- the second reply ----

  function SlotWords(slots: seq<Slot>): seq<Word> {
    if slots == [] then []
    else
      var n := |slots| - 1;
      SlotWords(slots[..n]) + [slots[n].index % 0x1_0000_0000, slots[n].ip]
  }

  /** A complete reply is the second reply the client expects. */
  lemma CompleteIsExpected(misses: seq<Miss>, marks: seq<bool>, slots: seq<Slot>, flag: int, resolver: Name -> Found)
    requires Complete(misses, marks, slots, flag, resolver)
    ensures SlotWords(slots) == PairWords(misses, n => AddressFor(resolver(n)))
    ensures PairsTell(SlotWords(slots), misses, resolver)
  {
    SameWords(misses, slots, resolver);
    CompleteTells(misses, marks, slots, flag, resolver);
    hide SlotWords, PairWords, Tells;
    assert forall j {:trigger misses[j]} :: 0 <= j < |misses| ==> slots[j] == SlotFor(misses[j], resolver);
  }

  /** The words are, for each of the misses in order, its position in the request and what
      the resolver says of it. */
  ghost predicate PairsTell(ws: seq<Word>, misses: seq<Miss>, resolver: Name -> Found) {
    && |ws| == 2 * |misses|
    && forall j {:trigger misses[j]} :: 0 <= j < |misses| ==>
         ws[2 * j] == misses[j].index % 0x1_0000_0000 && Tells(ws[2 * j + 1], resolver(misses[j].domain))
  }

  lemma {:induction false} SameWords(misses: seq<Miss>, slots: seq<Slot>, resolver: Name -> Found)
    requires |slots| == |misses|
    requires forall j {:trigger slots[j]} :: 0 <= j < |slots| ==> slots[j] == SlotFor(misses[j], resolver)
    ensures SlotWords(slots) == PairWords(misses, n => AddressFor(resolver(n)))
  {
    if slots != [] {
      var n := |slots| - 1;
      SameWords(misses[..n], slots[..n], resolver);
      assert slots[n] == SlotFor(misses[n], resolver);
    }
  }

  /** A run of the lookup threads in which no thread came too late sent the reply `slots`
      to a request for `misses`. */
  ghost predicate SentFor(s: State, steps: seq<Step>, s': State, resolver: Name -> Found, misses: seq<Miss>, slots: seq<Slot>) {
    && Initial(s) && Leads(s, steps, s', resolver) && InTime(s')
    && exists r: nat {:trigger s'.requests[r]} :: r < |s'.requests| && s'.requests[r].misses == misses
         && s'.requests[r].reply.Sent? && s'.requests[r].reply.slots == slots
  }

  /** What such a run sends is what the client takes the second reply for. */
  lemma SentIsExpected(s: State, steps: seq<Step>, s': State, resolver: Name -> Found, misses: seq<Miss>, slots: seq<Slot>)
    requires SentFor(s, steps, s', resolver, misses, slots)
    ensures SlotWords(slots) == PairWords(misses, n => AddressFor(resolver(n)))
    ensures PairsTell(SlotWords(slots), misses, resolver)
  {
    hide Leads, Complete, InTime, PairsTell, SlotWords, PairWords;
    var r: nat :| r < |s'.requests| && s'.requests[r].misses == misses && s'.requests[r].reply.Sent? && s'.requests[r].reply.slots == slots;
    RepliesAreComplete(s, steps, s', resolver, r);
    var q := s'.requests[r];
    CompleteIsExpected(misses, q.marks, slots, q.reply.flag, resolver);
  }

  // ---- both sides together ----

  /** The server's side of the first reply: the body is read into a buffer of its own. */
  method Serve(sent: seq<Byte>, lookup: Name -> Answer) returns (first: seq<Byte>, misses: seq<Miss>, flag: Byte)
    requires sent != [] && Terminated(sent) && Roomy(sent, 0) && 4 * |Names(sent)| <= |sent|
    ensures first == WordsBytes(Addresses(Names(sent), lookup)) && misses == Misses(Names(sent), lookup)
    ensures flag == if misses == [] then FIRST_WITHOUT_ERROR else FIRST_WITH_ERROR
  {
    hide NameLength, Names, Roomy, WordsBytes, Addresses, Misses, Replied;
    var request := new Byte[|sent|](i requires 0 <= i < |sent| => sent[i]);
    assert request[..] == sent && sent[..|sent|] == sent;
    var inside, ipcount;
    inside, ipcount, misses, flag := DoSearch(request, |sent|, lookup);
    RightIfItFits(sent, |sent|, lookup);
    first := request[..4 * ipcount];
  }

  /** A request over TCP: checked and sent, answered by the server from its cache and
      then, in a run of its lookup threads, from the resolver, and put together by the
      client.  The user's function is called exactly once for each name, if and only if
      every name is cached or none is cached with the address that marks a miss. */
  method TcpDnsSearch(buf: array<Byte>, nbuf: nat, lookup: Name -> Answer, resolver: Name -> Found, slots: seq<Slot>,
                      ghost s: State, ghost steps: seq<Step>, ghost s': State)
    returns (res: int, calls: seq<Call>)
    requires 0 < nbuf < 0x1_0000_0000 && HasNames(buf[..], nbuf)
    requires Roomy(buf[..BodyLength(buf[..], nbuf)], 0) && 4 * nbuf <= BodyLength(buf[..], nbuf)
    requires var misses := Misses(Names(LowerAll(buf[..BodyLength(buf[..], nbuf)])), lookup);
             misses != [] ==> SentFor(s, steps, s', resolver, misses, slots)
    modifies buf
    ensures res == if old(AllClean(buf[..], nbuf)) then SUCCESS else NOT_IN_SET
    ensures res == NOT_IN_SET ==> calls == []
    ensures res == SUCCESS <==> AllAllowed(old(buf[..]), old(BodyLength(buf[..], nbuf)))
    ensures res == SUCCESS ==> Lowered(old(buf[..]), old(BodyLength(buf[..], nbuf)), buf[..])
    ensures res == SUCCESS ==>
      var index, names := old(Starts(buf[..], nbuf, 0)), Names(LowerAll(old(buf[..BodyLength(buf[..], nbuf)])));
      && |names| == |index|
      && (multiset(calls) == multiset(Expected(index, names, lookup, n => AddressFor(resolver(n))))
          <==> Misses(names, lookup) == [] || NoMarkCached(names, lookup))
      && (Misses(names, lookup) == [] || NoMarkCached(names, lookup) ==>
            |calls| == nbuf && forall k {:trigger index[k]} :: 0 <= k < nbuf ==> Served(calls, buf[..], index[k], names[k], lookup, resolver))
  {
    hide Stands, Served, AllAllowed, Lowered, NameLength, LowerAll, Starts, BodyLength, HasNames, Names, Roomy, AllClean, Calls, Expected, NoMarkCached,
         Increasing, Misses, AllCalls, HitCalls, LateCalls, WordIn, WordsBytes, Addresses, PairWords, SentFor, SlotWords;
    ghost var before := buf[..];
    var total, index;
    calls := [];
    res, total, index := PreDo(buf, nbuf);
    if res != SUCCESS {
      return;
    }
    var sent := buf[..total - HEAD_LENGTH];
    Sendable(before, buf[..], nbuf, sent);
    var first, misses, flag := Serve(sent, lookup);
    ghost var resolve := n => AddressFor(resolver(n));
    var second := SecondReply(misses, slots, resolver, s, steps, s');
    MissesInRange(Names(sent), lookup);
    InRange(misses, resolve, nbuf);
    calls := MergeReplies(buf, nbuf, index, flag, first, second);
    OnceEachIff(index, Names(sent), lookup, resolve);
    CallsAre(index, Names(sent), lookup, resolve);
    if misses == [] || NoMarkCached(Names(sent), lookup) {
      AllServed(buf[..], nbuf, index, Names(sent), lookup, resolver, calls);
    }
  }

  /** The user's function is called at `at`, where `name` stands in the buffer, with the
      address that is cached or else the one that the resolver found or 127.0.0.1. */
  ghost predicate Served(calls: seq<Call>, buf: seq<Byte>, at: int, name: Name, lookup: Name -> Answer, resolver: Name -> Found) {
    && Stands(buf, at, name)
    && exists c {:trigger c in calls} :: c in calls && c.at == at
         && if lookup(name).Hit? then c.ip == lookup(name).ip else Tells(c.ip, resolver(name))
  }

  lemma AllServed(buf: seq<Byte>, n: nat, index: seq<int>, names: seq<Name>, lookup: Name -> Answer, resolver: Name -> Found, calls: seq<Call>)
    requires HasNames(buf, n) && index == Starts(buf, n, 0) && names == Names(buf[..BodyLength(buf, n)]) && |names| == n
    requires multiset(calls) == multiset(Expected(index, names, lookup, x => AddressFor(resolver(x))))
    ensures |calls| == n && forall k {:trigger index[k]} :: 0 <= k < n ==> Served(calls, buf, index[k], names[k], lookup, resolver)
  {
    hide HasNames, Starts, Names, BodyLength, Expected, Stands, NameLength, WordBytes;
    var e := Expected(index, names, lookup, x => AddressFor(resolver(x)));
    assert |multiset(calls)| == |multiset(e)|;
    ErrorAddress();
    forall k {:trigger index[k]} | 0 <= k < n
      ensures Served(calls, buf, index[k], names[k], lookup, resolver)
    {
      NamesStand(buf, n, 0, k);
      assert e[k] in multiset(e);
      assert e[k] in calls;
    }
  }

  /** The body of the second reply; none is sent when nothing is missed. */
  method SecondReply(misses: seq<Miss>, slots: seq<Slot>, ghost resolver: Name -> Found, ghost s: State, ghost steps: seq<Step>, ghost s': State)
    returns (second: seq<Byte>)
    requires misses != [] ==> SentFor(s, steps, s', resolver, misses, slots)
    ensures second == WordsBytes(PairWords(misses, n => AddressFor(resolver(n))))
  {
    hide SentFor, SlotWords, PairWords, WordsBytes;
    if misses == [] {
      second := [];
      NothingSent(n => AddressFor(resolver(n)));
    } else {
      SentIsExpected(s, steps, s', resolver, misses, slots);
      second := WordsBytes(SlotWords(slots));
    }
  }

  lemma NothingSent(resolve: Name -> Word)
    ensures WordsBytes(PairWords([], resolve)) == []
  {
  }
}
