/** Enumerating a trie: the callback sees every stored key once, in lexicographic
    order, until it asks to stop. */
module TrieEnumeration {
  import opened FreeList
  import opened CellTree
  import opened DoubleArray
  import opened TailPool
  import opened TrieContents
  import opened AlphaMaps
  import opened Tries
  import opened TrieRuns
  import A = AlphaRanges

  datatype Entry = Entry(key: AlphaString, data: int)

  /** The callback: told all calls so far, the last one included, it says whether to
      go on. */
  type Callback = seq<Entry> -> bool

  /** Lexicographic order of terminated strings; the terminator is the least character. */
  ghost predicate LessAt(k: seq<int>, k': seq<int>, i: int) {
    0 <= i <= |k| && i <= |k'| && k[..i] == k'[..i] && CharAt(k, i) < CharAt(k', i)
  }

  ghost predicate Less(k: seq<int>, k': seq<int>) {
    exists i {:trigger LessAt(k, k', i)} :: LessAt(k, k', i)
  }

  /** The way of `k` goes through `q`. */
  ghost predicate Below(q: Path, k: Key) {
    q <= k + [0]
  }

  ghost function Keys(rs: seq<A.Range>, calls: seq<Entry>): set<Key> {
    set e | e in calls :: Codes(rs, e.key)
  }

  ghost predicate InOrder(rs: seq<A.Range>, calls: seq<Entry>) {
    forall i, j {:trigger calls[i], calls[j]} :: 0 <= i < j < |calls| ==> Less(Codes(rs, calls[i].key), Codes(rs, calls[j].key))
  }

  /** Every call shows a string over the alphabet that is stored below `q`, with its data. */
  ghost predicate Faithful(rs: seq<A.Range>, m: map<Key, int>, q: Path, calls: seq<Entry>) {
    forall e {:trigger e in calls} :: e in calls ==>
      && IsString(e.key) && OverAlphabet(rs, e.key)
      && Codes(rs, e.key) in m && m[Codes(rs, e.key)] == e.data && Below(q, Codes(rs, e.key))
  }

  /** A stored key below `q` that precedes a shown one has been shown. */
  ghost predicate NoGaps(rs: seq<A.Range>, m: map<Key, int>, q: Path, calls: seq<Entry>) {
    forall k, k' {:trigger k in m, k' in Keys(rs, calls)} :: k in m && Below(q, k) && k' in Keys(rs, calls) && Less(k, k') ==> k in Keys(rs, calls)
  }

  ghost predicate Complete(rs: seq<A.Range>, m: map<Key, int>, q: Path, calls: seq<Entry>) {
    forall k {:trigger k in m} :: k in m && Below(q, k) ==> k in Keys(rs, calls)
  }

  /** The callback has agreed to all calls, except to the last one if it stopped. */
  ghost predicate Obeyed(cont: Callback, log: seq<Entry>, calls: seq<Entry>, ret: bool) {
    && (forall j {:trigger calls[..j]} :: 0 < j < |calls| ==> cont(log + calls[..j]))
    && (calls != [] ==> cont(log + calls) == ret)
    && (calls == [] ==> ret)
  }

  /** The calls made for the subtree at `q`. */
  ghost predicate Enumerated(rs: seq<A.Range>, m: map<Key, int>, q: Path, cont: Callback, log: seq<Entry>, calls: seq<Entry>, ret: bool) {
    && Faithful(rs, m, q, calls) && InOrder(rs, calls) && NoGaps(rs, m, q, calls)
    && Obeyed(cont, log, calls, ret)
    && (ret ==> Complete(rs, m, q, calls))
  }

  /** Among the keys below `q`, the next label decides the order first. */
  lemma OrderByLabel(q: Path, k: Key, k': Key)
    requires Below(q, k) && Below(q, k') && |q| <= |k| && |q| <= |k'|
    ensures CharAt(k, |q|) < CharAt(k', |q|) ==> Less(k, k')
    ensures Less(k, k') ==> CharAt(k, |q|) <= CharAt(k', |q|)
  {
    assert k[..|q|] == (k + [0])[..|q|] == q && k'[..|q|] == (k' + [0])[..|q|] == q;
    if CharAt(k, |q|) < CharAt(k', |q|) {
      assert LessAt(k, k', |q|);
    }
    if Less(k, k') {
      var i :| LessAt(k, k', i);
      if i < |q| {
        assert k[i] == q[i] == k'[i];
      } else if |q| < i {
        assert k[|q|] == k[..i][|q|] == k'[|q|];
      }
    }
  }

  lemma BelowChild(q: Path, k: Key, c: int)
    requires |q| <= |k|
    ensures Below(q + [c], k) <==> Below(q, k) && CharAt(k, |q|) == c
  {
    var w := k + [0];
    assert w[|q|] == CharAt(k, |q|);
    if Below(q + [c], k) {
      assert q + [c] == w[..|q| + 1];
      assert q == w[..|q|];
    }
    if Below(q, k) && CharAt(k, |q|) == c {
      assert q + [c] == w[..|q| + 1];
    }
  }

  /** A stored key below an inner node goes on to one of its children. */
  lemma GoesOn(shape: map<Path, int>, tails: seq<TailBlock>, m: map<Key, int>, q: Path, k: Key)
    requires IsTrie(shape, tails) && Represents(shape, tails, m) && q in shape && shape[q] == INNER
    requires k in m && Below(q, k)
    ensures |q| <= |k| && q + [CharAt(k, |q|)] in shape
  {
    var w := k + [0];
    var p :| IsLeaf(shape, p) && KeyAt(shape, tails, p) == k;
    LeafIsPrefix(shape, tails, p);
    if |p| <= |q| {
      assert p <= q;
      LeafHasNoExtension(shape, p, q);
    }
    PrefixIsThere(shape, p, |q| + 1);
    assert p[..|q| + 1] == q + [w[|q|]];
  }

  /** `calls` show exactly the stored keys below `q` that go on with a label in `done`. */
  ghost predicate Shown(rs: seq<A.Range>, m: map<Key, int>, q: Path, done: set<int>, calls: seq<Entry>) {
    && (forall k {:trigger k in Keys(rs, calls)} :: k in Keys(rs, calls) ==> |q| <= |k| && CharAt(k, |q|) in done)
    && (forall k {:trigger k in m} :: k in m && Below(q, k) && |q| <= |k| && CharAt(k, |q|) in done ==> k in Keys(rs, calls))
  }

  /** All stored keys below `q` go on with a label in `labels`. */
  ghost predicate Branches(m: map<Key, int>, q: Path, labels: seq<int>) {
    forall k {:trigger k in m} :: k in m && Below(q, k) ==> |q| <= |k| && CharAt(k, |q|) in labels
  }

  lemma KeysConcat(rs: seq<A.Range>, calls: seq<Entry>, more: seq<Entry>)
    ensures Keys(rs, calls + more) == Keys(rs, calls) + Keys(rs, more)
  {
    forall k | k in Keys(rs, calls) + Keys(rs, more)
      ensures k in Keys(rs, calls + more)
    {
      var e :| (e in calls || e in more) && Codes(rs, e.key) == k;
      assert e in calls + more;
    }
  }

  lemma FaithfulBelow(rs: seq<A.Range>, m: map<Key, int>, q: Path, c: int, calls: seq<Entry>)
    requires Faithful(rs, m, q + [c], calls)
    requires forall k {:trigger k in m} :: k in m && Below(q, k) ==> |q| <= |k|
    ensures Faithful(rs, m, q, calls)
    ensures forall k {:trigger k in Keys(rs, calls)} :: k in Keys(rs, calls) ==> k in m && Below(q, k) && |q| <= |k| && CharAt(k, |q|) == c
  {
    forall e | e in calls
      ensures Below(q, Codes(rs, e.key)) && |q| <= |Codes(rs, e.key)| && CharAt(Codes(rs, e.key), |q|) == c
    {
      var w := Codes(rs, e.key) + [0];
      assert q <= w by {
        assert q == (q + [c])[..|q|] == w[..|q|];
      }
      BelowChild(q, Codes(rs, e.key), c);
    }
  }

  lemma KeysAreFaithful(rs: seq<A.Range>, m: map<Key, int>, q: Path, calls: seq<Entry>)
    requires Faithful(rs, m, q, calls)
    ensures forall k {:trigger k in Keys(rs, calls)} :: k in Keys(rs, calls) ==> k in m && Below(q, k)
  {
  }

  /** The calls for a further child come after all calls so far. */
  lemma AppendInOrder(rs: seq<A.Range>, m: map<Key, int>, q: Path, done: set<int>, c: int, calls: seq<Entry>, more: seq<Entry>)
    requires Faithful(rs, m, q, calls) && InOrder(rs, calls) && Shown(rs, m, q, done, calls)
    requires Faithful(rs, m, q, more) && InOrder(rs, more)
    requires forall k {:trigger k in Keys(rs, more)} :: k in Keys(rs, more) ==> |q| <= |k| && CharAt(k, |q|) == c
    requires forall d :: d in done ==> d < c
    ensures InOrder(rs, calls + more)
  {
    var all := calls + more;
    forall i, j {:trigger all[i], all[j]} | 0 <= i < j < |all|
      ensures Less(Codes(rs, all[i].key), Codes(rs, all[j].key))
    {
      if i < |calls| && |calls| <= j {
        assert all[i] in calls && all[j] in more;
        assert Codes(rs, all[i].key) in Keys(rs, calls) && Codes(rs, all[j].key) in Keys(rs, more);
        OrderByLabel(q, Codes(rs, all[i].key), Codes(rs, all[j].key));
      }
    }
  }

  /** What is shown after a further child is again without gaps. */
  lemma AppendNoGaps(rs: seq<A.Range>, m: map<Key, int>, q: Path, done: set<int>, labels: seq<int>, c: int, calls: seq<Entry>, more: seq<Entry>)
    requires Faithful(rs, m, q, calls) && Shown(rs, m, q, done, calls) && Branches(m, q, labels)
    requires Faithful(rs, m, q, more) && NoGaps(rs, m, q + [c], more)
    requires forall k {:trigger k in Keys(rs, more)} :: k in Keys(rs, more) ==> k in m && |q| <= |k| && CharAt(k, |q|) == c
    requires forall d {:trigger d in labels} :: d in labels && d < c ==> d in done
    requires forall d :: d in done ==> d < c
    ensures NoGaps(rs, m, q, calls + more)
  {
    KeysConcat(rs, calls, more);
    KeysAreFaithful(rs, m, q, calls);
    KeysAreFaithful(rs, m, q, more);
    forall k, k' | k in m && Below(q, k) && k' in Keys(rs, calls + more) && Less(k, k')
      ensures k in Keys(rs, calls + more)
    {
      OrderByLabel(q, k, k');
      var d := CharAt(k, |q|);
      if d !in done {
        assert d == c;
        BelowChild(q, k, c);
      }
    }
  }

  lemma ShownAfter(rs: seq<A.Range>, m: map<Key, int>, q: Path, done: set<int>, c: int, calls: seq<Entry>, more: seq<Entry>)
    requires Shown(rs, m, q, done, calls) && Complete(rs, m, q + [c], more)
    requires forall k {:trigger k in Keys(rs, more)} :: k in Keys(rs, more) ==> |q| <= |k| && CharAt(k, |q|) == c
    ensures Shown(rs, m, q, done + {c}, calls + more)
  {
    KeysConcat(rs, calls, more);
    forall k | k in m && Below(q, k) && |q| <= |k| && CharAt(k, |q|) == c
      ensures k in Keys(rs, more)
    {
      BelowChild(q, k, c);
    }
  }

  lemma ObeyedAppend(cont: Callback, log: seq<Entry>, calls: seq<Entry>, more: seq<Entry>, ret: bool)
    requires Obeyed(cont, log, calls, true) && Obeyed(cont, log + calls, more, ret)
    ensures Obeyed(cont, log, calls + more, ret)
  {
    var all := calls + more;
    assert log + all == log + calls + more;
    forall j {:trigger all[..j]} | 0 < j < |all|
      ensures cont(log + all[..j])
    {
      if j < |calls| {
        assert all[..j] == calls[..j];
      } else if j == |calls| {
        assert all[..j] == calls;
      } else {
        assert log + all[..j] == log + calls + more[..j - |calls|];
      }
    }
    if more == [] {
      assert all == calls;
    }
  }

  lemma CodesSnoc(rs: seq<A.Range>, key: AlphaString, c: int)
    requires A.IsAlphabet(rs) && IsString(key) && OverAlphabet(rs, key) && 1 <= c <= A.Size(rs)
    ensures IsString(key + [A.Char(rs, c)]) && OverAlphabet(rs, key + [A.Char(rs, c)])
    ensures Codes(rs, key + [A.Char(rs, c)]) == Codes(rs, key) + [c]
  {
    A.CodingIsBijective(rs);
  }

  /** Decodes the characters before the terminator and appends them to `full0`. */
  method AppendDecoded(alphabet: AlphaMap, codes: seq<int>, full0: AlphaString, ghost n: int) returns (full: AlphaString)
    requires alphabet.Valid() && A.IsAlphabet(alphabet.ranges) && IsString(full0) && OverAlphabet(alphabet.ranges, full0)
    requires 0 <= n <= |codes| && (n < |codes| ==> codes[n] == 0) && InRange(alphabet.ranges, codes[..n])
    ensures IsString(full) && OverAlphabet(alphabet.ranges, full)
    ensures Codes(alphabet.ranges, full) == Codes(alphabet.ranges, full0) + codes[..n]
  {
    hide AlphaMap.Linked, A.IsAlphabet, A.Sorted, IsString, OverAlphabet;
    CodesInRange(alphabet.ranges, codes, n);
    full := full0;
    var i := 0;
    while i < |codes| && codes[i] != 0
      invariant 0 <= i <= n
      invariant IsString(full) && OverAlphabet(alphabet.ranges, full)
      invariant Codes(alphabet.ranges, full) == Codes(alphabet.ranges, full0) + codes[..i]
    {
      var c := alphabet.TrieToChar(codes[i]);
      CodesSnoc(alphabet.ranges, full, codes[i]);
      full := full + [c];
      i := i + 1;
    }
  }

  lemma CodesInRange(rs: seq<A.Range>, codes: seq<int>, n: int)
    requires 0 <= n <= |codes| && InRange(rs, codes[..n])
    ensures forall i {:trigger codes[i]} :: 0 <= i < n ==> 1 <= codes[i] <= A.Size(rs)
  {
    forall i {:trigger codes[i]} | 0 <= i < n
      ensures codes[i] in codes[..n]
    {
      assert codes[..n][i] == codes[i];
    }
  }

  /** The arguments of the callback for the leaf `s`. */
  method LeafEntry(trie: Trie, s: int) returns (e: Entry)
    requires trie.Valid() && s in trie.da.path && Base(trie.da.cells, s) < 0
    ensures var rs, q := trie.alphaMap.ranges, trie.da.path[s];
            && IsString(e.key) && OverAlphabet(rs, e.key)
            && Codes(rs, e.key) == KeyAt(trie.da.Shape(), trie.tail.tails, q)
            && e.data == DataAt(trie.tail.tails, TailAt(trie.da.Shape(), q))
  {
    hide DArray.Valid, Tail.Valid, AlphaMap.Valid, IsTrie, NoDeadEnds, A.IsAlphabet, IsKey, IsString, OverAlphabet, Codes;
    ghost var q, k := trie.da.path[s], KeyAt(trie.da.Shape(), trie.tail.tails, trie.da.path[s]);
    trie.NodeKind(s);
    LeafOwns(trie.da.Shape(), trie.tail.tails, q);
    LeafStored(trie.da.Shape(), trie.tail.tails, trie.contents, q);
    var key := trie.da.GetStateKey(s);
    var t := -Base(trie.da.cells, s);
    var suffix := trie.tail.GetSuffix(t);
    ghost var n := if Last(q) == 0 then |q| - 1 else |q|;
    KeyParts(trie.alphaMap.ranges, q, suffix.chars, k, n);
    EmptyString(trie.alphaMap.ranges);
    var full := AppendDecoded(trie.alphaMap, key, [], n);
    full := AppendDecoded(trie.alphaMap, suffix.chars, full, |suffix.chars|);
    var data := trie.tail.GetData(t);
    e := Entry(full, data);
  }

  lemma EmptyString(rs: seq<A.Range>)
    ensures IsString([]) && OverAlphabet(rs, []) && Codes(rs, []) == []
  {
  }

  lemma LeafStored(shape: map<Path, int>, tails: seq<TailBlock>, m: map<Key, int>, q: Path)
    requires Represents(shape, tails, m) && IsLeaf(shape, q)
    ensures KeyAt(shape, tails, q) in m && m[KeyAt(shape, tails, q)] == DataAt(tails, TailAt(shape, q))
  {
  }

  lemma KeyParts(rs: seq<A.Range>, q: Path, suffix: seq<int>, k: Key, n: int)
    requires k == KeyOf(q, suffix) && InRange(rs, k) && (Last(q) == 0 ==> suffix == [])
    requires n == if Last(q) == 0 then |q| - 1 else |q|
    ensures 0 <= n <= |q| && (n < |q| ==> q[n] == 0)
    ensures k == q[..n] + suffix && InRange(rs, q[..n]) && InRange(rs, suffix)
    ensures suffix == suffix[..|suffix|]
  {
    assert k == q[..n] + suffix;
    assert forall c :: c in q[..n] || c in suffix ==> c in k;
  }

  /** A leaf is its own subtree: the callback runs once. */
  lemma LeafEnumerated(rs: seq<A.Range>, shape: map<Path, int>, tails: seq<TailBlock>, m: map<Key, int>, q: Path,
                       cont: Callback, log: seq<Entry>, e: Entry)
    requires IsTrie(shape, tails) && Represents(shape, tails, m) && IsLeaf(shape, q)
    requires IsString(e.key) && OverAlphabet(rs, e.key)
    requires Codes(rs, e.key) == KeyAt(shape, tails, q) && e.data == DataAt(tails, TailAt(shape, q))
    ensures Enumerated(rs, m, q, cont, log, [e], cont(log + [e]))
  {
    LeafIsPrefix(shape, tails, q);
    LeafStored(shape, tails, m, q);
    assert e in [e];
    forall k | k in m && Below(q, k)
      ensures k in Keys(rs, [e])
    {
      StoredAtLeaf(shape, tails, m, k, q);
    }
  }

  /** The calls for the first children, those with a label in `done`, of the node `q`. */
  ghost predicate Partly(rs: seq<A.Range>, m: map<Key, int>, q: Path, done: set<int>, cont: Callback, log: seq<Entry>, calls: seq<Entry>) {
    Faithful(rs, m, q, calls) && InOrder(rs, calls) && Shown(rs, m, q, done, calls) && Obeyed(cont, log, calls, true)
  }

  lemma FaithfulConcat(rs: seq<A.Range>, m: map<Key, int>, q: Path, c: int, calls: seq<Entry>, more: seq<Entry>)
    requires Faithful(rs, m, q, calls) && Faithful(rs, m, q + [c], more)
    requires forall k {:trigger k in m} :: k in m && Below(q, k) ==> |q| <= |k|
    ensures Faithful(rs, m, q, calls + more)
  {
    FaithfulBelow(rs, m, q, c, more);
  }

  lemma NextChild(rs: seq<A.Range>, m: map<Key, int>, q: Path, done: set<int>, labels: seq<int>, c: int,
                  cont: Callback, log: seq<Entry>, calls: seq<Entry>, more: seq<Entry>, ret: bool)
    requires Branches(m, q, labels) && Partly(rs, m, q, done, cont, log, calls)
    requires Enumerated(rs, m, q + [c], cont, log + calls, more, ret)
    requires forall d {:trigger d in labels} :: d in labels && d < c ==> d in done
    requires forall d :: d in done ==> d < c
    ensures !ret ==> Enumerated(rs, m, q, cont, log, calls + more, false)
    ensures ret ==> Partly(rs, m, q, done + {c}, cont, log, calls + more)
  {
    hide InOrder, NoGaps, Obeyed, Complete, Shown;
    FaithfulConcat(rs, m, q, c, calls, more);
    FaithfulBelow(rs, m, q, c, more);
    AppendInOrder(rs, m, q, done, c, calls, more);
    AppendNoGaps(rs, m, q, done, labels, c, calls, more);
    ObeyedAppend(cont, log, calls, more, ret);
    if ret {
      ShownAfter(rs, m, q, done, c, calls, more);
    }
  }

  lemma AllChildren(rs: seq<A.Range>, m: map<Key, int>, q: Path, labels: seq<int>, cont: Callback, log: seq<Entry>, calls: seq<Entry>)
    requires Branches(m, q, labels) && Partly(rs, m, q, Elements(labels), cont, log, calls)
    ensures Enumerated(rs, m, q, cont, log, calls, true)
  {
  }

  lemma NothingShown(rs: seq<A.Range>, m: map<Key, int>, q: Path, cont: Callback, log: seq<Entry>)
    ensures Partly(rs, m, q, {}, cont, log, [])
  {
  }

  lemma ChildrenBranch(shape: map<Path, int>, tails: seq<TailBlock>, m: map<Key, int>, q: Path, labels: seq<int>)
    requires IsTrie(shape, tails) && Represents(shape, tails, m) && q in shape && shape[q] == INNER
    requires forall c {:trigger c in labels} :: q + [c] in shape ==> c in labels
    ensures Branches(m, q, labels)
  {
    forall k | k in m && Below(q, k)
      ensures |q| <= |k| && CharAt(k, |q|) in labels
    {
      GoesOn(shape, tails, m, q, k);
    }
  }

  lemma ElementsSnoc(symbols: seq<int>, i: int)
    requires Ascending(symbols) && 0 <= i < |symbols|
    ensures Elements(symbols[..i + 1]) == Elements(symbols[..i]) + {symbols[i]}
    ensures forall d :: d in Elements(symbols[..i]) ==> d < symbols[i]
    ensures forall d {:trigger d in symbols} :: d in symbols && d < symbols[i] ==> d in Elements(symbols[..i])
  {
    assert symbols[..i + 1] == symbols[..i] + [symbols[i]];
    forall d | d in symbols && d < symbols[i]
      ensures d in symbols[..i]
    {
      var j :| 0 <= j < |symbols| && symbols[j] == d;
      assert j < i;
      assert symbols[..i][j] == d;
    }
  }

  ghost function Subtree(node: map<Path, int>, q: Path): set<Path> {
    set r | r in node && q <= r
  }

  lemma SmallerSubtree(node: map<Path, int>, q: Path, c: int)
    requires q in node
    ensures Subtree(node, q + [c]) < Subtree(node, q)
  {
    forall r | r in Subtree(node, q + [c])
      ensures q <= r
    {
      assert q == (q + [c])[..|q|] == r[..|q|];
    }
    assert q in Subtree(node, q);
  }

  /** Enumerates the subtree at `state`; `log` are the calls made before. */
  method EnumerateFrom(trie: Trie, state: int, cont: Callback, log: seq<Entry>) returns (ret: bool, calls: seq<Entry>)
    requires trie.Valid() && state in trie.da.path
    ensures Enumerated(trie.alphaMap.ranges, trie.contents, trie.da.path[state], cont, log, calls, ret)
    decreases Subtree(trie.da.node, trie.da.path[state])
  {
    hide Trie.Valid, DArray.Valid, Enumerated, Partly, Branches, Obeyed, Faithful, InOrder, NoGaps, Complete, Subtree;
    ghost var rs, m, q := trie.alphaMap.ranges, trie.contents, trie.da.path[state];
    trie.Parts();
    trie.NodeKind(state);
    var base := Base(trie.da.cells, state);
    if base < 0 {
      var e := LeafEntry(trie, state);
      LeafEnumerated(rs, trie.da.Shape(), trie.tail.tails, m, q, cont, log, e);
      calls := [e];
      ret := cont(log + [e]);
    } else {
      var symbols := trie.da.OutputSymbols(state);
      ChildrenBranch(trie.da.Shape(), trie.tail.tails, m, q, symbols);
      NothingShown(rs, m, q, cont, log);
      calls, ret := [], true;
      var i := 0;
      assert Elements(symbols[..0]) == {};
      while ret && i < |symbols|
        invariant 0 <= i <= |symbols|
        invariant ret ==> Partly(rs, m, q, Elements(symbols[..i]), cont, log, calls)
        invariant !ret ==> Enumerated(rs, m, q, cont, log, calls, false)
      {
        var c := symbols[i];
        assert c in symbols;
        ElementsSnoc(symbols, i);
        SmallerSubtree(trie.da.node, q, c);
        trie.da.ChildOf(state, c);
        var ret1, more := EnumerateFrom(trie, base + c, cont, log + calls);
        NextChild(rs, m, q, Elements(symbols[..i]), symbols, c, cont, log, calls, more, ret1);
        ret := ret1;
        calls := calls + more;
        i := i + 1;
      }
      assert symbols[..|symbols|] == symbols;
      if ret {
        AllChildren(rs, m, q, symbols, cont, log, calls);
      }
    }
  }

  /** Coding keeps the lexicographic order. */
  lemma OrderKept(rs: seq<A.Range>, key: AlphaString, key': AlphaString)
    requires A.IsAlphabet(rs) && IsString(key) && OverAlphabet(rs, key) && IsString(key') && OverAlphabet(rs, key')
    ensures Less(Codes(rs, key), Codes(rs, key')) <==> Less(key, key')
  {
    hide A.IsAlphabet, IsString, OverAlphabet, LessAt, Codes;
    forall i | 0 <= i <= |key| && i <= |key'|
      ensures LessAt(Codes(rs, key), Codes(rs, key'), i) <==> LessAt(key, key', i)
    {
      LessAtKept(rs, key, key', i);
    }
    LessSomewhere(key, key');
    LessSomewhere(Codes(rs, key), Codes(rs, key'));
    hide Less;
  }

  lemma LessSomewhere(k: seq<int>, k': seq<int>)
    ensures Less(k, k') <==> exists i {:trigger LessAt(k, k', i)} :: 0 <= i <= |k| && i <= |k'| && LessAt(k, k', i)
  {
  }

  lemma LessAtKept(rs: seq<A.Range>, key: AlphaString, key': AlphaString, i: int)
    requires A.IsAlphabet(rs) && IsString(key) && OverAlphabet(rs, key) && IsString(key') && OverAlphabet(rs, key')
    requires 0 <= i <= |key| && i <= |key'|
    ensures LessAt(Codes(rs, key), Codes(rs, key'), i) <==> LessAt(key, key', i)
  {
    SamePrefix(rs, key, key', i);
    CodeLess(rs, CharAt(key, i), CharAt(key', i));
    assert A.Code(rs, 0) == 0;
    hide A.Code, A.IsAlphabet, A.Covers;
    assert CharAt(Codes(rs, key), i) == A.Code(rs, CharAt(key, i));
    assert CharAt(Codes(rs, key'), i) == A.Code(rs, CharAt(key', i));
  }

  lemma CodeLess(rs: seq<A.Range>, c: int, c': int)
    requires A.IsAlphabet(rs) && 0 <= c && 0 <= c' && (c == 0 || A.Covers(rs, c)) && (c' == 0 || A.Covers(rs, c'))
    ensures A.Code(rs, c) < A.Code(rs, c') <==> c < c'
  {
    A.CodingIsBijective(rs);
    assert A.Code(rs, 0) == 0;
    hide A.Code, A.IsAlphabet, A.Covers;
  }

  lemma SamePrefix(rs: seq<A.Range>, key: AlphaString, key': AlphaString, i: int)
    requires A.IsAlphabet(rs) && OverAlphabet(rs, key) && OverAlphabet(rs, key') && 0 <= i <= |key| && i <= |key'|
    ensures Codes(rs, key)[..i] == Codes(rs, key')[..i] <==> key[..i] == key'[..i]
  {
    A.CodingIsBijective(rs);
    if Codes(rs, key)[..i] == Codes(rs, key')[..i] {
      forall j | 0 <= j < i
        ensures key[j] == key'[j]
      {
        assert Codes(rs, key)[..i][j] == Codes(rs, key')[..i][j];
      }
    }
    if key[..i] == key'[..i] {
      forall j | 0 <= j < i
        ensures Codes(rs, key)[j] == Codes(rs, key')[j]
      {
        assert key[..i][j] == key'[..i][j];
      }
    }
  }

  lemma LastIsNew(rs: seq<A.Range>, calls: seq<Entry>)
    requires InOrder(rs, calls) && calls != []
    ensures Codes(rs, calls[|calls| - 1].key) !in Keys(rs, calls[..|calls| - 1])
  {
    var n := |calls| - 1;
    forall e | e in calls[..n]
      ensures Codes(rs, e.key) != Codes(rs, calls[n].key)
    {
      var i :| 0 <= i < n && calls[i] == e;
      assert Less(Codes(rs, calls[i].key), Codes(rs, calls[n].key));
    }
  }

  /** Calls in strictly ascending order show every key at most once. */
  lemma {:induction false} OncePerKey(rs: seq<A.Range>, calls: seq<Entry>)
    requires InOrder(rs, calls)
    ensures |Keys(rs, calls)| == |calls|
  {
    if calls == [] {
      assert Keys(rs, calls) == {};
    } else {
      var n := |calls| - 1;
      LastIsNew(rs, calls);
      OncePerKey(rs, calls[..n]);
      assert calls == calls[..n] + [calls[n]];
      KeysConcat(rs, calls[..n], [calls[n]]);
      KeysOfOne(rs, calls[n]);
    }
  }

  lemma KeysOfOne(rs: seq<A.Range>, e: Entry)
    ensures Keys(rs, [e]) == {Codes(rs, e.key)}
  {
    assert e in [e];
  }

  /** Shows the stored keys to the callback, in lexicographic order, until it stops:
      all of them exactly once if it never does, else those up to where it stopped. */
  method Enumerate(trie: Trie, cont: Callback) returns (ret: bool, calls: seq<Entry>)
    requires trie.Valid()
    ensures var rs, m := trie.alphaMap.ranges, trie.contents;
            && Enumerated(rs, m, [], cont, [], calls, ret)
            && (forall i, j {:trigger calls[i], calls[j]} :: 0 <= i < j < |calls| ==> Less(calls[i].key, calls[j].key))
            && (ret ==> Keys(rs, calls) == m.Keys && |calls| == |m|)
  {
    trie.Parts();
    trie.da.RootInShape();
    ghost var rs, m := trie.alphaMap.ranges, trie.contents;
    ret, calls := EnumerateFrom(trie, ROOT, cont, []);
    hide Trie.Valid, DArray.Valid, NoGaps, Obeyed;
    OncePerKey(rs, calls);
    forall k | k in m
      ensures Below([], k)
    {
    }
    AlphaOrder(rs, m, calls);
  }

  lemma AlphaOrder(rs: seq<A.Range>, m: map<Key, int>, calls: seq<Entry>)
    requires A.IsAlphabet(rs) && Faithful(rs, m, [], calls) && InOrder(rs, calls)
    ensures forall i, j {:trigger calls[i], calls[j]} :: 0 <= i < j < |calls| ==> Less(calls[i].key, calls[j].key)
  {
    forall i, j {:trigger calls[i], calls[j]} | 0 <= i < j < |calls|
      ensures Less(calls[i].key, calls[j].key)
    {
      assert calls[i] in calls && calls[j] in calls;
      OrderKept(rs, calls[i].key, calls[j].key);
    }
  }
}
