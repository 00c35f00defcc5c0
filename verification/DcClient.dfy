/** The client: checking and indexing a request, and putting two partial replies
    together. */
module Client {
  import opened FileBytes
  import opened Replies

  const HEAD_LENGTH := 13
  const SUCCESS := 0
  const NOT_IN_SET := 1

  // ---- the request ----

  function LowerCase(c: Byte): Byte {
    if 65 <= c <= 90 then c + 32 else c
  }

  /** Letters, digits, `.`, `-` and `_`. */
  predicate InSet(c: Byte) {
    97 <= c <= 122 || c == 46 || c == 45 || 48 <= c <= 57 || 65 <= c <= 90 || c == 95
  }

  function LowerAll(s: seq<Byte>): (r: seq<Byte>)
    ensures |r| == |s|
    ensures forall i {:trigger r[i]} :: 0 <= i < |s| ==> r[i] == LowerCase(s[i])
  {
    seq(|s|, i requires 0 <= i < |s| => LowerCase(s[i]))
  }

  predicate AllInSet(s: seq<Byte>) {
    forall i {:trigger s[i]} :: 0 <= i < |s| ==> InSet(s[i])
  }

  /** `s` starts with `n` C strings. */
  predicate HasNames(s: seq<Byte>, n: nat) {
    n == 0 || (NameLength(s) < |s| && HasNames(s[NameLength(s) + 1..], n - 1))
  }

  /** Their length, terminators included. */
  function BodyLength(s: seq<Byte>, n: nat): (k: nat)
    requires HasNames(s, n)
    ensures k <= |s|
  {
    if n == 0 then 0 else NameLength(s) + 1 + BodyLength(s[NameLength(s) + 1..], n - 1)
  }

  /** Where they start when the first one starts at `base`. */
  function Starts(s: seq<Byte>, n: nat, base: int): (r: seq<int>)
    requires HasNames(s, n)
    ensures |r| == n
  {
    if n == 0 then [] else [base] + Starts(s[NameLength(s) + 1..], n - 1, base + NameLength(s) + 1)
  }

  predicate AllClean(s: seq<Byte>, n: nat)
    requires HasNames(s, n)
  {
    n == 0 || (AllInSet(s[..NameLength(s)]) && AllClean(s[NameLength(s) + 1..], n - 1))
  }

  const CAPITALS := "ABCDEFGHIJKLMNOPQRSTUVWXYZ"
  const SMALLS := "abcdefghijklmnopqrstuvwxyz"
  const DIGITS := "0123456789"
  const ALLOWED := CAPITALS + SMALLS + DIGITS + ".-_"

  lemma Letters(i: nat)
    requires i < 26
    ensures CAPITALS[i] as int == 65 + i && SMALLS[i] as int == 97 + i
  {
  }

  lemma Digits(i: nat)
    requires i < 10
    ensures DIGITS[i] as int == 48 + i
  {
  }

  lemma Lengths()
    ensures |CAPITALS| == |SMALLS| == 26 && |DIGITS| == 10 && |ALLOWED| == 65
  {
  }

  lemma AllowedAt(i: nat)
    requires i < 65
    ensures |ALLOWED| == 65
    ensures ALLOWED[i] as int == if i < 26 then 65 + i else if i < 52 then 97 + i - 26 else if i < 62 then 48 + i - 52
                                 else if i == 62 then 46 else if i == 63 then 45 else 95
  {
    Lengths();
    if i < 26 {
      Letters(i);
      assert ALLOWED[i] == CAPITALS[i];
    } else if i < 52 {
      Letters(i - 26);
      assert ALLOWED[i] == SMALLS[i - 26];
    } else if i < 62 {
      Digits(i - 52);
      assert ALLOWED[i] == DIGITS[i - 52];
    } else {
      assert ALLOWED[i] == ".-_"[i - 62];
    }
  }

  /** `d` is `c` in lower case: the i-th capital becomes the i-th small letter, and
      everything else stays as it is. */
  ghost predicate IsLowerOf(c: Byte, d: Byte) {
    && (forall i {:trigger CAPITALS[i]} :: 0 <= i < 26 && c == CAPITALS[i] as int ==> d == SMALLS[i] as int)
    && ((forall i {:trigger CAPITALS[i]} :: 0 <= i < 26 ==> c != CAPITALS[i] as int) ==> d == c)
  }

  lemma LowerMeans(c: Byte)
    ensures IsLowerOf(c, LowerCase(c))
  {
    forall i {:trigger CAPITALS[i]} | 0 <= i < 26
      ensures CAPITALS[i] as int == 65 + i && SMALLS[i] as int == 97 + i
    {
      Letters(i);
    }
    if 65 <= c <= 90 {
      assert c == CAPITALS[c - 65] as int;
    }
  }

  /** Names in lower case have no capital, so lowering them again changes nothing. */
  lemma LowerIsLow(s: seq<Byte>)
    ensures LowerAll(LowerAll(s)) == LowerAll(s)
    ensures forall i, j {:trigger LowerAll(s)[i], CAPITALS[j]} :: 0 <= i < |s| && 0 <= j < 26 ==> LowerAll(s)[i] != CAPITALS[j] as int
  {
    hide LowerAll;
    forall j {:trigger CAPITALS[j]} | 0 <= j < 26
      ensures CAPITALS[j] as int == 65 + j
    {
      Letters(j);
    }
  }

  /** The character is one of those allowed. */
  ghost predicate IsAllowed(c: Byte) {
    exists i {:trigger ALLOWED[i]} :: 0 <= i < |ALLOWED| && c == ALLOWED[i] as int
  }

  lemma InSetIff(c: Byte)
    ensures InSet(c) <==> IsAllowed(c)
  {
    forall i {:trigger ALLOWED[i]} | 0 <= i < |ALLOWED| && c == ALLOWED[i] as int
      ensures InSet(c)
    {
      AllowedAt(i);
    }
    if InSet(c) {
      var i := if 65 <= c <= 90 then c - 65 else if 97 <= c <= 122 then c - 97 + 26 else if 48 <= c <= 57 then c - 48 + 52
               else if c == 46 then 62 else if c == 45 then 63 else 64;
      AllowedAt(i);
      assert c == ALLOWED[i] as int;
    }
  }

  /** Every character of the names in the first `k` bytes is allowed. */
  ghost predicate AllAllowed(s: seq<Byte>, k: int) {
    forall i {:trigger s[i]} :: 0 <= i < k && i < |s| && s[i] != 0 ==> IsAllowed(s[i])
  }

  /** The names are clean exactly if every character in front of their end is allowed. */
  lemma {:induction false} CleanIff(s: seq<Byte>, n: nat)
    requires HasNames(s, n)
    ensures AllClean(s, n) <==> AllAllowed(s, BodyLength(s, n))
  {
    hide NameLength, BodyLength, HasNames, IsAllowed, InSet, AllInSet;
    if n > 0 {
      var m := NameLength(s);
      RestHasNames(s, n);
      var rest := s[m + 1..];
      Unfold(s, n, 0, m, rest);
      CleanIff(rest, n - 1);
      FirstClean(s, m);
      assert forall i {:trigger rest[i]} :: 0 <= i < |rest| ==> rest[i] == s[m + 1 + i];
      assert forall i {:trigger s[i]} :: m < i < |s| && i != m ==> s[i] == rest[i - m - 1];
    } else {
      NothingLong(s);
    }
  }

  lemma NothingLong(s: seq<Byte>)
    ensures BodyLength(s, 0) == 0
  {
  }

  lemma FirstClean(s: seq<Byte>, m: nat)
    requires m <= |s| && forall i {:trigger s[i]} :: 0 <= i < m ==> s[i] != 0
    ensures AllInSet(s[..m]) <==> forall i {:trigger s[i]} :: 0 <= i < m ==> IsAllowed(s[i])
  {
    hide InSet, IsAllowed;
    forall c: Byte {:trigger InSet(c)} {:trigger IsAllowed(c)}
      ensures InSet(c) <==> IsAllowed(c)
    {
      InSetIff(c);
    }
    assert forall i {:trigger s[i]} :: 0 <= i < m ==> s[..m][i] == s[i];
  }

  /** Puts one name into lower case; stops at a character outside the set. */
  method LowerName(buf: array<Byte>, pos: nat) returns (ok: bool, next: nat)
    requires pos <= buf.Length && NameLength(buf[pos..]) < |buf[pos..]|
    modifies buf
    ensures var n := NameLength(old(buf[pos..]));
            && ok == AllInSet(old(buf[pos..])[..n])
            && (ok ==> next == pos + n + 1 && buf[pos..pos + n] == LowerAll(old(buf[pos..])[..n])
                       && buf[pos + n..] == old(buf[pos + n..]))
    ensures buf[..pos] == old(buf[..pos])
  {
    hide NameLength, LowerAll;
    ghost var s := buf[pos..];
    var i := 0;
    while buf[pos + i] != 0
      invariant i <= NameLength(s) && pos + i < buf.Length && |s| == buf.Length - pos
      invariant forall j {:trigger s[j]} :: 0 <= j < i ==> InSet(s[j])
      invariant forall j {:trigger buf[j]} :: pos <= j < pos + i ==> buf[j] == LowerCase(s[j - pos])
      invariant forall j {:trigger buf[j]} :: pos + i <= j < buf.Length ==> buf[j] == s[j - pos]
      invariant buf[..pos] == old(buf[..pos])
      decreases |s| - i
    {
      if !InSet(buf[pos + i]) {
        assert s[..NameLength(s)][i] == s[i];
        return false, pos + i;
      }
      assert s[i] != 0;
      if 65 <= buf[pos + i] <= 90 {
        buf[pos + i] := buf[pos + i] + 32;
      }
      i := i + 1;
    }
    assert s[i] == 0;
    return true, pos + i + 1;
  }

  /** Where `PreDo` is: `done` are the positions found, `left` names from `t` on remain. */
  ghost predicate Indexed(body: seq<Byte>, n: nat, now: seq<Byte>, t: int, left: int, done: seq<int>) {
    && 0 <= t <= |body| == |now| && 0 <= left && HasNames(body, n) && HasNames(body[t..], left)
    && now[..t] == LowerAll(body[..t]) && now[t..] == body[t..]
    && Starts(body, n, 0) == done + Starts(body[t..], left, t)
    && BodyLength(body, n) == t + BodyLength(body[t..], left)
    && AllClean(body, n) == AllClean(body[t..], left)
  }

  lemma IndexedStart(body: seq<Byte>, n: nat)
    requires HasNames(body, n)
    ensures Indexed(body, n, body, 0, n, [])
  {
    assert body[0..] == body;
    assert [] + Starts(body, n, 0) == Starts(body, n, 0);
  }

  lemma RestHasNames(s: seq<Byte>, n: nat)
    requires HasNames(s, n) && 0 < n
    ensures NameLength(s) < |s| && HasNames(s[NameLength(s) + 1..], n - 1)
  {
    hide NameLength;
  }

  lemma Unfold(s: seq<Byte>, n: nat, base: int, m: nat, rest: seq<Byte>)
    requires HasNames(s, n) && 0 < n && m == NameLength(s) && m < |s| && rest == s[m + 1..] && HasNames(rest, n - 1)
    ensures Starts(s, n, base) == [base] + Starts(rest, n - 1, base + m + 1)
    ensures BodyLength(s, n) == m + 1 + BodyLength(rest, n - 1)
    ensures AllClean(s, n) == (AllInSet(s[..m]) && AllClean(rest, n - 1))
  {
    hide NameLength, HasNames, AllInSet;
  }

  lemma LowerMore(body: seq<Byte>, now: seq<Byte>, next: seq<Byte>, t: int, m: int)
    requires 0 <= t <= t + m < |body| == |now| == |next|
    requires now[..t] == LowerAll(body[..t]) && next[..t] == now[..t]
    requires next[t..t + m] == LowerAll(body[t..][..m]) && next[t + m..] == body[t..][m..] && body[t..][m] == 0
    ensures next[..t + m + 1] == LowerAll(body[..t + m + 1]) && next[t + m + 1..] == body[t + m + 1..]
  {
    hide LowerAll;
    assert next[t + m] == next[t + m..][0] == body[t..][m];
    assert next[..t + m + 1] == next[..t] + next[t..t + m] + [next[t + m]];
    var l := LowerAll(body[..t + m + 1]);
    assert forall i {:trigger body[i]} :: 0 <= i < m ==> body[t..][..m][i] == body[t + i];
    assert next[..t + m + 1] == l;
    assert next[t + m + 1..] == next[t + m..][1..] == body[t..][m..][1..];
  }

  lemma IndexedStep(body: seq<Byte>, n: nat, now: seq<Byte>, t: int, left: int, done: seq<int>, next: seq<Byte>)
    requires Indexed(body, n, now, t, left, done) && 0 < left && |next| == |now|
    requires var m := NameLength(body[t..]);
             && AllInSet(body[t..][..m]) && t + m < |body|
             && next[..t] == now[..t] && next[t..t + m] == LowerAll(body[t..][..m]) && next[t + m..] == body[t..][m..]
    ensures Indexed(body, n, next, t + NameLength(body[t..]) + 1, left - 1, done + [t])
  {
    hide NameLength, LowerAll, Starts, BodyLength, AllClean, HasNames, AllInSet;
    var m := NameLength(body[t..]);
    RestHasNames(body[t..], left);
    Unfold(body[t..], left, t, m, body[t..][m + 1..]);
    LowerMore(body, now, next, t, m);
    assert body[t..][m + 1..] == body[t + m + 1..];
    var more := Starts(body[t + m + 1..], left - 1, t + m + 1);
    assert done + ([t] + more) == done + [t] + more;
  }

  /** The next name is as it was received. */
  lemma IndexedNext(body: seq<Byte>, n: nat, now: seq<Byte>, t: int, left: int, done: seq<int>)
    requires Indexed(body, n, now, t, left, done) && 0 < left
    ensures 0 <= t <= |body| == |now| && now[t..] == body[t..] && NameLength(body[t..]) < |body| - t
    ensures AllClean(body, n) ==> AllInSet(body[t..][..NameLength(body[t..])])
  {
    hide NameLength, LowerAll, Starts, BodyLength, AllClean, HasNames, AllInSet;
    var m := NameLength(body[t..]);
    RestHasNames(body[t..], left);
    Unfold(body[t..], left, t, m, body[t..][m + 1..]);
  }

  /** The first `n` bytes of `now` are those of `before` in lower case, the others are the
      same. */
  ghost predicate Lowered(before: seq<Byte>, n: int, now: seq<Byte>) {
    && |now| == |before|
    && forall i {:trigger now[i]} :: 0 <= i < |now| ==> if i < n then IsLowerOf(before[i], now[i]) else now[i] == before[i]
  }

  lemma LoweredAll(before: seq<Byte>, n: nat, now: seq<Byte>)
    requires n <= |before| && now == LowerAll(before[..n]) + before[n..]
    ensures Lowered(before, n, now)
  {
    hide IsLowerOf, LowerAll;
    forall i {:trigger now[i]} | 0 <= i < n
      ensures IsLowerOf(before[i], now[i])
    {
      assert now[i] == LowerAll(before[..n])[i] == LowerCase(before[i]);
      LowerMeans(before[i]);
    }
  }

  /** Puts the names into lower case and records where each starts. */
  method PreDo(buf: array<Byte>, nbuf: nat) returns (res: int, totalLength: nat, index: seq<int>)
    requires 0 < nbuf && HasNames(buf[..], nbuf)
    modifies buf
    ensures res == if old(AllClean(buf[..], nbuf)) then SUCCESS else NOT_IN_SET
    ensures res == SUCCESS ==>
      var n := old(BodyLength(buf[..], nbuf));
      && totalLength == n + HEAD_LENGTH
      && buf[..] == LowerAll(old(buf[..n])) + old(buf[n..])
      && index == old(Starts(buf[..], nbuf, 0))
    ensures res == SUCCESS <==> AllAllowed(old(buf[..]), old(BodyLength(buf[..], nbuf)))
    ensures res == SUCCESS ==> Lowered(old(buf[..]), old(BodyLength(buf[..], nbuf)), buf[..])
  {
    hide AllAllowed, Lowered, NameLength, LowerAll, Starts, BodyLength, AllClean, HasNames, AllInSet, Indexed;
    ghost var body, done := buf[..], [];
    totalLength, index := 0, [0];
    IndexedStart(body, nbuf);
    CleanIff(body, nbuf);
    var i := 1;
    while i <= nbuf
      invariant 1 <= i <= nbuf + 1 && 0 <= totalLength <= buf.Length
      invariant Indexed(body, nbuf, buf[..], totalLength, nbuf - i + 1, done)
      invariant index == if i <= nbuf then done + [totalLength] else done
    {
      ghost var now := buf[..];
      IndexedNext(body, nbuf, now, totalLength, nbuf - i + 1, done);
      assert buf[totalLength..] == now[totalLength..];
      var ok, next := LowerName(buf, totalLength);
      if !ok {
        return NOT_IN_SET, totalLength, index;
      }
      IndexedStep(body, nbuf, now, totalLength, nbuf - i + 1, done, buf[..]);
      done := done + [totalLength];
      totalLength := next;
      if i != nbuf {
        index := index + [totalLength];
      }
      i := i + 1;
    }
    IndexedEnd(body, nbuf, buf[..], totalLength, done);
    LoweredAll(body, totalLength, buf[..]);
    totalLength := totalLength + HEAD_LENGTH;
    res := SUCCESS;
  }

  lemma IndexedEnd(body: seq<Byte>, n: nat, now: seq<Byte>, t: int, done: seq<int>)
    requires Indexed(body, n, now, t, 0, done)
    ensures done == Starts(body, n, 0) && t == BodyLength(body, n) && AllClean(body, n)
    ensures now == LowerAll(body[..t]) + body[t..]
  {
    assert done + [] == done;
    assert now == now[..t] + now[t..];
  }

  // ---- the replies ----

  /** A word of a reply; what was not received is zero. */
  function WordIn(b: seq<Byte>, i: int): Word {
    if 0 <= i && 4 * i + 4 <= |b| then WordOf(b[4 * i..4 * i + 4]) else 0
  }

  lemma WordInWords(ws: seq<Word>, i: int)
    requires 0 <= i
    ensures WordIn(WordsBytes(ws), i) == if i < |ws| then ws[i] else 0
  {
    if i < |ws| {
      WordAt(ws, i);
      WordRoundTrip(ws[i]);
    }
  }

  /** One call of the user's function: where the name is in the buffer, and its address. */
  datatype Call = Call(at: int, ip: Word)

  function AllCalls(index: seq<int>, first: seq<Byte>, k: nat): seq<Call>
    requires k <= |index|
  {
    if k == 0 then [] else AllCalls(index, first, k - 1) + [Call(index[k - 1], WordIn(first, k - 1))]
  }

  function HitCalls(index: seq<int>, first: seq<Byte>, k: nat): seq<Call>
    requires k <= |index|
  {
    if k == 0 then []
    else HitCalls(index, first, k - 1) + if WordIn(first, k - 1) == CACHE_MISS then [] else [Call(index[k - 1], WordIn(first, k - 1))]
  }

  function MissCount(first: seq<Byte>, k: nat): nat {
    if k == 0 then 0 else MissCount(first, k - 1) + if WordIn(first, k - 1) == CACHE_MISS then 1 else 0
  }

  function LateCalls(index: seq<int>, second: seq<Byte>, k: nat): seq<Call>
    requires forall i {:trigger WordIn(second, 2 * i)} :: 0 <= i < k ==> WordIn(second, 2 * i) < |index|
  {
    if k == 0 then []
    else LateCalls(index, second, k - 1) + [Call(index[WordIn(second, 2 * (k - 1))], WordIn(second, 2 * (k - 1) + 1))]
  }

  /** Calls the user's function for each name, from the first reply or the second. */
  method MergeReplies(buf: array<Byte>, nbuf: nat, index: seq<int>, flag: Byte, first: seq<Byte>, second: seq<Byte>) returns (calls: seq<Call>)
    requires HasNames(buf[..], nbuf) && index == Starts(buf[..], nbuf, 0)
    requires forall i {:trigger WordIn(second, 2 * i)} :: 0 <= i < MissCount(first, nbuf) ==> WordIn(second, 2 * i) < nbuf
    ensures calls == if flag == FIRST_WITHOUT_ERROR then AllCalls(index, first, nbuf)
                     else HitCalls(index, first, nbuf) + LateCalls(index, second, MissCount(first, nbuf))
  {
    hide WordIn;
    if flag == FIRST_WITHOUT_ERROR {
      calls := CallAll(buf, nbuf, index, first);
      return;
    }
    calls := [];
    var misscount := 0;
    var i := 0;
    while i < nbuf
      invariant 0 <= i <= nbuf && calls == HitCalls(index, first, i) && misscount == MissCount(first, i)
    {
      var tempip := WordIn(first, i);
      if tempip == CACHE_MISS {
        misscount := misscount + 1;
      } else {
        calls := calls + [Call(index[i], tempip)];
      }
      i := i + 1;
    }
    i := 0;
    ghost var early := calls;
    assert early + LateCalls(index, second, 0) == early;
    while i < misscount
      invariant 0 <= i <= misscount && calls == early + LateCalls(index, second, i)
    {
      var call := Call(index[WordIn(second, 2 * i)], WordIn(second, 2 * i + 1));
      assert early + (LateCalls(index, second, i) + [call]) == early + LateCalls(index, second, i) + [call];
      calls := calls + [call];
      i := i + 1;
    }
  }

  /** From one name to the next. */
  lemma StepOver(s: seq<Byte>, index: seq<int>, i: nat, left: nat, count: nat)
    requires count <= |s| && 0 < left && |index| == i + left
    requires HasNames(s[count..], left) && index[i..] == Starts(s[count..], left, count)
    ensures var next := count + NameLength(s[count..]) + 1;
            && index[i] == count && next <= |s|
            && HasNames(s[next..], left - 1) && index[i + 1..] == Starts(s[next..], left - 1, next)
  {
    hide NameLength, HasNames, Starts;
    var n := NameLength(s[count..]);
    RestHasNames(s[count..], left);
    assert s[count..][n + 1..] == s[count + n + 1..];
    Unfold(s[count..], left, count, n, s[count + n + 1..]);
    assert index[i..][0] == index[i] && index[i..][1..] == index[i + 1..];
  }

  /** The branch for a first reply that has every address: the names are found by
      stepping over them. */
  method CallAll(buf: array<Byte>, nbuf: nat, index: seq<int>, first: seq<Byte>) returns (calls: seq<Call>)
    requires HasNames(buf[..], nbuf) && index == Starts(buf[..], nbuf, 0)
    ensures calls == AllCalls(index, first, nbuf)
  {
    hide WordIn, NameLength, HasNames, Starts;
    calls := [];
    ghost var s := buf[..];
    var count, i := 0, 0;
    assert s[0..] == s && index[0..] == index;
    while i < nbuf
      invariant 0 <= i <= nbuf == |index| && 0 <= count <= |s| && calls == AllCalls(index, first, i)
      invariant HasNames(s[count..], nbuf - i) && index[i..] == Starts(s[count..], nbuf - i, count)
    {
      StepOver(s, index, i, nbuf - i, count);
      assert buf[count..] == s[count..];
      var n := Strlen(buf, count);
      calls := calls + [Call(count, WordIn(first, i))];
      count := count + n + 1;
      i := i + 1;
    }
  }
}
