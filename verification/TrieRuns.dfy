/** Whole runs of a trie against a finite map from strings to data. */
module TrieRuns {
  import opened FreeList
  import opened TailPool
  import opened TrieContents
  import opened AlphaMaps
  import opened Tries
  import A = AlphaRanges

  datatype Op =
    | Store(key: AlphaString, data: int)
    | StoreIfAbsent(key: AlphaString, data: int)
    | Delete(key: AlphaString)
    | Retrieve(key: AlphaString)

  datatype Answer = Done(ok: bool) | Found(data: int) | Missing

  ghost predicate OverAlphabet(rs: seq<A.Range>, key: AlphaString) {
    forall i {:trigger key[i]} :: 0 <= i < |key| ==> A.Covers(rs, key[i])
  }

  /** Stored keys must be over the alphabet and fit a short; any string may be looked
      up or deleted. */
  ghost predicate Askable(rs: seq<A.Range>, op: Op) {
    && IsString(op.key)
    && (op.Store? || op.StoreIfAbsent? ==> OverAlphabet(rs, op.key) && |op.key| <= SHRT_MAX)
  }

  /** The answers a finite map `m` gives.  Storing may fail for want of cells, but only
      for a key that is not there, and only if the double array is `full` by then. */
  predicate Legal(m: map<AlphaString, int>, op: Op, a: Answer, full: bool) {
    match op
    case Store(k, _) => a.Done? && (k in m || !full ==> a.ok)
    case StoreIfAbsent(k, _) => a.Done? && (k in m ==> !a.ok) && (k !in m && !full ==> a.ok)
    case Delete(k) => a == Done(k in m)
    case Retrieve(k) => a == if k in m then Found(m[k]) else Missing
  }

  function Next(m: map<AlphaString, int>, op: Op, a: Answer): map<AlphaString, int> {
    match op
    case Store(k, d) => if a == Done(true) then m[k := d] else m
    case StoreIfAbsent(k, d) => if a == Done(true) then m[k := d] else m
    case Delete(k) => m - {k}
    case Retrieve(_) => m
  }

  function StateAfter(ops: seq<Op>, answers: seq<Answer>): map<AlphaString, int>
    requires |answers| == |ops|
  {
    if ops == [] then map[]
    else
      var n := |ops| - 1;
      Next(StateAfter(ops[..n], answers[..n]), ops[n], answers[n])
  }

  /** The double array has reached its largest size. */
  predicate Full(size: nat) {
    TRIE_INDEX_MAX <= size
  }

  /** Every answer is the one the map gives after the operations before it; `sizes[i]`
      is the size of the double array after operation i. */
  ghost predicate Explained(ops: seq<Op>, answers: seq<Answer>, sizes: seq<nat>) {
    && |answers| == |sizes| == |ops|
    && forall i {:trigger ops[i]} :: 0 <= i < |ops| ==> Legal(StateAfter(ops[..i], answers[..i]), ops[i], answers[i], Full(sizes[i]))
  }

  /** The double array never shrinks. */
  ghost predicate NeverShrinks(sizes: seq<nat>) {
    forall i, j {:trigger sizes[i], sizes[j]} :: 0 <= i <= j < |sizes| ==> sizes[i] <= sizes[j]
  }

  /** `m` is the map `contents` says, seen through the coding. */
  ghost predicate Abstracts(rs: seq<A.Range>, contents: map<Key, int>, m: map<AlphaString, int>) {
    && (forall key {:trigger key in m} :: key in m ==> IsString(key) && OverAlphabet(rs, key))
    && (forall key {:trigger Codes(rs, key)} :: IsString(key) ==>
          && (key in m <==> Codes(rs, key) in contents)
          && (key in m ==> m[key] == contents[Codes(rs, key)]))
  }

  /** Different strings get different codes if one of them is over the alphabet. */
  lemma CodesInjective(rs: seq<A.Range>, key: AlphaString, key': AlphaString)
    requires A.IsAlphabet(rs) && IsString(key) && IsString(key') && OverAlphabet(rs, key)
    requires Codes(rs, key) == Codes(rs, key')
    ensures key == key'
  {
    A.CodingIsBijective(rs);
    forall i | 0 <= i < |key|
      ensures key[i] == key'[i]
    {
      assert Codes(rs, key)[i] == A.Code(rs, key[i]) == A.Code(rs, key'[i]);
    }
  }

  /** The trie sees codes only: it can tell a key from all other strings exactly if the
      key is over the alphabet. */
  lemma UniqueIffOverAlphabet(rs: seq<A.Range>, key: AlphaString)
    requires A.IsAlphabet(rs) && IsString(key)
    ensures OverAlphabet(rs, key) <==>
            forall key' {:trigger Codes(rs, key')} :: IsString(key') && Codes(rs, key') == Codes(rs, key) ==> key' == key
  {
    if OverAlphabet(rs, key) {
      forall key' {:trigger Codes(rs, key')} | IsString(key') && Codes(rs, key') == Codes(rs, key)
        ensures key' == key
      {
        CodesInjective(rs, key, key');
      }
    } else {
      var i :| 0 <= i < |key| && !A.Covers(rs, key[i]);
      var key' := Twin(rs, key, i);
    }
  }

  /** Replacing a character outside the alphabet by another one. */
  lemma Twin(rs: seq<A.Range>, key: AlphaString, i: int) returns (key': AlphaString)
    requires A.IsAlphabet(rs) && IsString(key) && 0 <= i < |key| && !A.Covers(rs, key[i])
    ensures IsString(key') && Codes(rs, key') == Codes(rs, key) && key' != key
  {
    A.CodingIsBijective(rs);
    var g := A.Gap(rs, 1);
    if g == key[i] {
      g := A.Gap(rs, g + 1);
    }
    key' := key[i := g];
    assert A.Code(rs, g) == A.Code(rs, key[i]);
    assert forall j {:trigger key'[j]} :: 0 <= j < |key| ==> A.Code(rs, key'[j]) == A.Code(rs, key[j]);
  }

  lemma AbstractsStored(rs: seq<A.Range>, contents: map<Key, int>, m: map<AlphaString, int>, key: AlphaString, data: int)
    requires A.IsAlphabet(rs) && Abstracts(rs, contents, m) && IsString(key) && OverAlphabet(rs, key)
    ensures Abstracts(rs, contents[Codes(rs, key) := data], m[key := data])
  {
    hide A.IsAlphabet, IsString, OverAlphabet;
    forall e {:trigger Codes(rs, e)} | IsString(e)
      ensures Codes(rs, e) == Codes(rs, key) ==> e == key
    {
      if Codes(rs, e) == Codes(rs, key) {
        CodesInjective(rs, key, e);
      }
    }
  }

  lemma AbstractsDeleted(rs: seq<A.Range>, contents: map<Key, int>, m: map<AlphaString, int>, key: AlphaString)
    requires A.IsAlphabet(rs) && Abstracts(rs, contents, m) && IsString(key)
    ensures Abstracts(rs, contents - {Codes(rs, key)}, m - {key})
  {
    hide A.IsAlphabet, IsString, OverAlphabet;
    forall e {:trigger Codes(rs, e)} | IsString(e)
      ensures Codes(rs, e) == Codes(rs, key) && e in m ==> e == key
    {
      if Codes(rs, e) == Codes(rs, key) && e in m {
        CodesInjective(rs, e, key);
      }
    }
  }

  /** One operation, answered as the map `m` answers it. */
  method Perform(trie: Trie, op: Op, ghost m: map<AlphaString, int>) returns (a: Answer)
    requires trie.Valid() && Askable(trie.alphaMap.ranges, op) && Abstracts(trie.alphaMap.ranges, trie.contents, m)
    modifies trie, trie.da, trie.tail
    ensures trie.Valid()
    ensures Legal(m, op, a, Full(|trie.da.cells|)) && Abstracts(trie.alphaMap.ranges, trie.contents, Next(m, op, a))
    ensures old(|trie.da.cells|) <= |trie.da.cells|
  {
    hide Abstracts, Trie.Valid, AlphaMap.Valid, A.IsAlphabet, IsTrie, NoDeadEnds, Represents;
    trie.Parts();
    ghost var rs, contents := trie.alphaMap.ranges, trie.contents;
    AbstractsAt(rs, contents, m, op.key);
    match op {
      case Store(key, data) =>
        var ok := trie.Store(key, data);
        AbstractsStored(rs, contents, m, key, data);
        a := Done(ok);
      case StoreIfAbsent(key, data) =>
        var ok := trie.StoreIfAbsent(key, data);
        AbstractsStored(rs, contents, m, key, data);
        a := Done(ok);
      case Delete(key) =>
        var ok := trie.Delete(key);
        AbstractsDeleted(rs, contents, m, key);
        a := Done(ok);
      case Retrieve(key) =>
        var found, data := trie.Retrieve(key);
        a := if found then Found(data) else Missing;
    }
  }

  lemma AbstractsAt(rs: seq<A.Range>, contents: map<Key, int>, m: map<AlphaString, int>, key: AlphaString)
    requires Abstracts(rs, contents, m) && IsString(key)
    ensures key in m <==> Codes(rs, key) in contents
    ensures key in m ==> m[key] == contents[Codes(rs, key)]
  {
  }

  /** From an empty trie, any sequence of operations is answered as a finite map
      answers it; no store fails before the double array has its largest size. */
  method Run(alphabet: AlphaMap, ops: seq<Op>) returns (answers: seq<Answer>, trie: Trie, ghost sizes: seq<nat>)
    requires alphabet.Valid() && A.IsAlphabet(alphabet.ranges)
    requires forall i {:trigger ops[i]} :: 0 <= i < |ops| ==> Askable(alphabet.ranges, ops[i])
    ensures trie.Valid() && fresh(trie) && trie.alphaMap.ranges == old(alphabet.ranges)
    ensures Explained(ops, answers, sizes) && NeverShrinks(sizes + [|trie.da.cells|])
    ensures Abstracts(trie.alphaMap.ranges, trie.contents, StateAfter(ops, answers))
  {
    hide Trie.Valid, Abstracts, Legal, Next, AlphaMap.Valid, A.IsAlphabet;
    trie := new Trie(alphabet);
    answers, sizes := [], [];
    ghost var m := map[];
    assert ops[..0] == [];
    AbstractsNothing(trie.alphaMap.ranges);
    var i := 0;
    while i < |ops|
      invariant 0 <= i <= |ops| && |answers| == i
      invariant trie.Valid() && fresh(trie) && fresh(trie.da) && fresh(trie.tail)
      invariant trie.alphaMap.ranges == alphabet.ranges == old(alphabet.ranges)
      invariant m == StateAfter(ops[..i], answers) && Abstracts(alphabet.ranges, trie.contents, m)
      invariant Explained(ops[..i], answers, sizes) && NeverShrinks(sizes + [|trie.da.cells|])
    {
      ghost var size := |trie.da.cells|;
      var a := Perform(trie, ops[i], m);
      ghost var before := answers;
      answers := answers + [a];
      m := Next(m, ops[i], a);
      ExplainedStep(ops[..i], before, sizes, ops[i], a, |trie.da.cells|);
      StillAscending(sizes, size, |trie.da.cells|);
      sizes := sizes + [|trie.da.cells|];
      assert ops[..i + 1] == ops[..i] + [ops[i]];
      i := i + 1;
    }
    assert ops[..i] == ops;
  }

  lemma AbstractsNothing(rs: seq<A.Range>)
    ensures Abstracts(rs, map[], map[])
  {
  }

  lemma StillAscending(sizes: seq<nat>, size: nat, size': nat)
    requires NeverShrinks(sizes + [size]) && size <= size'
    ensures NeverShrinks(sizes + [size'] + [size'])
  {
    forall i, j | 0 <= i <= j < |sizes| + 2
      ensures (sizes + [size'] + [size'])[i] <= (sizes + [size'] + [size'])[j]
    {
      if i < |sizes| {
        assert (sizes + [size])[i] <= (sizes + [size])[if j < |sizes| then j else |sizes|];
      }
    }
  }

  lemma ExplainedStep(ops: seq<Op>, answers: seq<Answer>, sizes: seq<nat>, op: Op, a: Answer, size: nat)
    requires Explained(ops, answers, sizes) && Legal(StateAfter(ops, answers), op, a, Full(size))
    ensures Explained(ops + [op], answers + [a], sizes + [size])
    ensures StateAfter(ops + [op], answers + [a]) == Next(StateAfter(ops, answers), op, a)
  {
    var n := |ops|;
    assert (ops + [op])[..n] == ops && (answers + [a])[..n] == answers;
    forall i | 0 <= i < n
      ensures (ops + [op])[..i] == ops[..i] && (answers + [a])[..i] == answers[..i]
    {
    }
  }
}
