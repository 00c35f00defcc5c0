/** The trie: an alphabet, a double array for the branching part of the keys and a
    tail pool for the rest of them. */
module Tries {
  import opened FreeList
  import opened CellTree
  import opened DoubleArray
  import opened TailPool
  import opened TrieContents
  import opened AlphaMaps
  import A = AlphaRanges

  /** A C string of wide characters, without its terminator. */
  type AlphaString = seq<int>

  ghost predicate IsString(key: AlphaString) {
    forall i {:trigger key[i]} :: 0 <= i < |key| ==> 0 < key[i]
  }

  function Codes(rs: seq<A.Range>, key: AlphaString): (r: seq<int>)
    ensures |r| == |key|
    ensures forall i {:trigger r[i]} :: 0 <= i < |key| ==> r[i] == A.Code(rs, key[i])
  {
    seq(|key|, i requires 0 <= i < |key| => A.Code(rs, key[i]))
  }

  /** The codes of a string and its terminator. */
  function Way(rs: seq<A.Range>, key: AlphaString): (w: seq<int>)
    ensures |w| == |key| + 1
  {
    Codes(rs, key) + [0]
  }

  /** All codes of the key are codes of characters of the alphabet. */
  ghost predicate InRange(rs: seq<A.Range>, k: Key) {
    forall c {:trigger c in k} :: c in k ==> 1 <= c <= A.Size(rs)
  }

  ghost predicate AllInRange(rs: seq<A.Range>, m: map<Key, int>) {
    forall k {:trigger k in m} :: k in m ==> InRange(rs, k)
  }

  /** Over an alphabet the code of a character is 0 only for the terminator. */
  lemma CodeOfChar(rs: seq<A.Range>, key: AlphaString, i: int)
    requires A.IsAlphabet(rs) && IsString(key) && 0 <= i <= |key|
    ensures A.Code(rs, CharAt(key, i)) == Way(rs, key)[i] && 0 <= Way(rs, key)[i] <= TRIE_CHAR_MAX
    ensures CharAt(key, i) == 0 <==> i == |key|
    ensures Way(rs, key)[i] == 0 <==> i == |key|
  {
    A.CodingIsBijective(rs);
    A.SizeIsNat(rs);
  }

  lemma RestOfCodes(rs: seq<A.Range>, key: AlphaString, i: int, p: int)
    requires A.IsAlphabet(rs) && IsString(key) && 0 <= i <= p <= |key|
    ensures CharAt(Codes(rs, key)[i..], p - i) == A.Code(rs, CharAt(key, p))
    ensures CharAt(key, p) == 0 <==> p == |key|
    ensures A.Code(rs, CharAt(key, p)) == 0 <==> p == |key|
  {
    CodeOfChar(rs, key, p);
  }

  /** Comparing at the first position not yet compared; strings end at a zero. */
  lemma Compare(s: Key, r: seq<int>, j: nat)
    requires IsKey(s) && j <= |s| && j <= |r| && s[..j] == r[..j] && (CharAt(r, j) == 0 <==> j == |r|)
    ensures CharAt(s, j) != CharAt(r, j) ==> s != r
    ensures CharAt(s, j) == CharAt(r, j) ==> if j == |r| then s == r else j < |s| && s[..j + 1] == r[..j + 1]
  {
    if j < |s| {
      assert s[j] in s;
    }
    if CharAt(s, j) == CharAt(r, j) {
      if j < |r| {
        assert s[..j + 1] == s[..j] + [s[j]] && r[..j + 1] == r[..j] + [r[j]];
      } else {
        assert s == s[..j] && r == r[..j];
      }
    }
  }

  /** The next label on the way of a key is the first character of its rest. */
  lemma RestOfKey(shape: map<Path, int>, k: Key, i: int)
    requires IsKey(k) && WayEnds(shape, k, i)
    ensures 0 <= i <= |k| && (k + [0])[..i + 1] == (k + [0])[..i] + [CharAt(k[i..], 0)]
    ensures 0 <= CharAt(k[i..], 0) <= CODE_MAX
    ensures (k + [0])[..i] in shape && shape[(k + [0])[..i]] == INNER && (k + [0])[..i + 1] !in shape && (k + [0])[..i + 1] != []
  {
    NewKey(k, i);
  }

  lemma LastUpdate(shape: map<Path, int>, p: Path, q: Path, v: int, v': int)
    requires p in shape && shape[p] == INNER && p != q
    ensures shape[p := INNER][q := v][q := v'] == shape[q := v']
  {
  }

  /** A node above or at `q + w` is not a child of `q + w`. */
  lemma LeafKeepsName(q: Path, w: seq<int>)
    ensures q == [] || Init(q) != q + w
  {
  }

  lemma TrieHasShape(shape: map<Path, int>, tails: seq<TailBlock>)
    requires IsTrie(shape, tails)
    ensures IsShape(shape)
  {
  }

  lemma LeafIsNotRoot(shape: map<Path, int>, q: Path)
    requires IsShape(shape) && IsLeaf(shape, q)
    ensures q != []
  {
  }

  lemma GrowNothing(shape: map<Path, int>, q: Path)
    requires IsLeaf(shape, q)
    ensures Grow(shape, q, [], shape[q]) == shape && q + [] == q
  {
  }

  lemma CharCode(s: seq<int>, j: int)
    requires IsKey(s) && 0 <= j <= |s|
    ensures 0 <= CharAt(s, j) <= CODE_MAX && (CharAt(s, j) == 0 <==> j == |s|)
  {
    assert j < |s| ==> s[j] in s;
  }

  /** Two different terminated strings differ before either runs out. */
  lemma CommonChar(s: seq<int>, s': seq<int>, j: int)
    requires IsKey(s) && IsKey(s') && s != s' && 0 <= j <= |s| && j <= |s'| && s[..j] == s'[..j]
    requires CharAt(s, j) == CharAt(s', j)
    ensures j < |s| && j < |s'| && s[..j + 1] == s'[..j + 1] && s[..j + 1] == s[..j] + [s[j]]
    ensures 0 <= s[j] <= CODE_MAX
  {
    CharCode(s, j);
    CharCode(s', j);
    assert s[..|s|] == s && s'[..|s'|] == s';
  }

  /** Keys over the alphabet are encoded by the codes 1..254. */
  lemma CodesAreKey(rs: seq<A.Range>, key: AlphaString)
    requires A.IsAlphabet(rs) && IsString(key)
    requires forall i {:trigger key[i]} :: 0 <= i < |key| ==> A.Covers(rs, key[i])
    ensures IsKey(Codes(rs, key)) && InRange(rs, Codes(rs, key))
  {
    A.CodingIsBijective(rs);
  }

  /** Pruning from a cleared leaf takes at least the leaf, and what it leaves is the
      pruned shape from before the leaf was cleared. */
  lemma PrunedLeaf(shape: map<Path, int>, node: map<Path, int>, node': map<Path, int>, q: Path, top: int)
    requires IsShape(shape) && IsLeaf(shape, q) && shape.Keys == node.Keys && 0 <= top <= |q|
    requires node' == Pruned(node, q, top) && Prunable(node, q, top)
    requires top == 0 || !Childless(node', q[..top])
    ensures top < |q| && Prunable(shape, q, top)
    ensures Pruned(shape[q := 0], q, top) == Pruned(shape, q, top)
  {
    assert forall r :: r in shape <==> r in shape.Keys;
    assert forall r :: r in node <==> r in node.Keys;
    forall r {:trigger Init(r)} | r in node && r != []
      ensures Init(r) != q
    {
      if Init(r) == q {
        LeafHasNoExtension(shape, q, r);
      }
    }
    assert q[..|q|] == q;
  }

  lemma EmptyTrie()
    ensures IsTrie(map[[] := INNER], []) && NoDeadEnds(map[[] := INNER]) && Represents(map[[] := INNER], [], map[])
  {
  }

  class Trie {
    const alphaMap: AlphaMap
    const da: DArray
    const tail: Tail
    var isDirty: bool
    ghost var contents: map<Key, int>

    ghost predicate Valid()
      reads this, alphaMap, alphaMap.repr, da, tail
    {
      && alphaMap.Valid() && A.IsAlphabet(alphaMap.ranges)
      && da.Valid() && tail.Valid()
      && IsTrie(da.Shape(), tail.tails) && NoDeadEnds(da.Shape())
      && Represents(da.Shape(), tail.tails, contents)
      && AllInRange(alphaMap.ranges, contents)
    }

    constructor (alphabet: AlphaMap)
      requires alphabet.Valid() && A.IsAlphabet(alphabet.ranges)
      ensures Valid() && fresh(da) && fresh(tail) && fresh(alphaMap) && fresh(alphaMap.repr)
      ensures contents == map[] && alphaMap.ranges == alphabet.ranges
      ensures isDirty
    {
      hide DArray.Valid, Tail.Valid, AlphaMap.Valid, A.IsAlphabet, IsTrie, NoDeadEnds, Represents;
      var copy := alphabet.Clone();
      alphaMap := copy;
      da := new DArray();
      tail := new Tail();
      isDirty := true;
      contents := map[];
      EmptyTrie();
    }

    /** A trie made of parts read from a file. */
    constructor Assembled(alphaMap: AlphaMap, da: DArray, tail: Tail, ghost contents: map<Key, int>)
      ensures this.alphaMap == alphaMap && this.da == da && this.tail == tail && this.contents == contents && !isDirty
    {
      this.alphaMap, this.da, this.tail, this.contents, isDirty := alphaMap, da, tail, contents, false;
    }

    lemma Parts()
      requires Valid()
      ensures alphaMap.Valid() && A.IsAlphabet(alphaMap.ranges) && da.Valid() && tail.Valid()
      ensures IsTrie(da.Shape(), tail.tails) && NoDeadEnds(da.Shape()) && Represents(da.Shape(), tail.tails, contents)
    {
    }

    /** What `Retrieve` and the others see of a node. */
    lemma NodeKind(s: int)
      requires Valid() && s in da.path
      ensures var q := da.path[s];
              && q in da.Shape() && da.Shape().Keys == da.node.Keys && q in da.node && da.node[q] == s
              && (if Base(da.cells, s) < 0 then IsLeaf(da.Shape(), q) && TailAt(da.Shape(), q) == -Base(da.cells, s)
                  else da.Shape()[q] == INNER && 0 < Base(da.cells, s))
              && (q != [] && Last(q) == 0 ==> Base(da.cells, s) < 0)
    {
      hide DArray.Valid, Tail.Valid, AlphaMap.Valid, Represents, A.IsAlphabet;
      da.NodeInShape(s);
    }

    method WalkBranches(key: AlphaString) returns (found: bool, s: int, i: int)
      requires Valid() && IsString(key)
      ensures s in da.path && 0 <= i <= |key|
      ensures var w := Way(alphaMap.ranges, key);
              if found then Base(da.cells, s) < 0 && (da.path[s] == w[..i] || (i == |key| && da.path[s] == w))
              else 0 < Base(da.cells, s) && da.path[s] == w[..i] && w[..i + 1] !in da.node
    {
      hide DArray.Valid, Tail.Valid, IsTrie, NoDeadEnds, Represents, InRange, A.IsAlphabet, AlphaMap.Linked, A.Sorted, Way;
      ghost var w := Way(alphaMap.ranges, key);
      s, i := ROOT, 0;
      da.RootInShape();
      while !(Base(da.cells, s) < 0)
        invariant 0 <= i <= |key| && s in da.path && da.path[s] == w[..i]
        decreases |key| - i
      {
        NodeKind(s);
        CodeOfChar(alphaMap.ranges, key, i);
        var c := alphaMap.CharToTrie(CharAt(key, i));
        var ok, next := da.Walk(s, c);
        assert w[..i] + [w[i]] == w[..i + 1];
        if !ok {
          return false, s, i;
        }
        da.NodeOfPath(da.path[s] + [c]);
        s := next;
        if CharAt(key, i) == 0 {
          NodeKind(s);
          return true, s, i;
        }
        i := i + 1;
      }
      return true, s, i;
    }

    /** Compares the suffix in block `t` with the rest of `key` from position `i` on. */
    method WalkTail(t: int, key: AlphaString, i: int) returns (same: bool)
      requires alphaMap.Valid() && A.IsAlphabet(alphaMap.ranges) && IsString(key) && 0 <= i <= |key|
      requires Live(tail.tails, t) && Block(tail.tails, t).suffix.Chars?
      requires IsKey(SuffixAt(tail.tails, t)) && |SuffixAt(tail.tails, t)| <= SHRT_MAX
      ensures same <==> SuffixAt(tail.tails, t) == Codes(alphaMap.ranges, key)[i..]
    {
      hide AlphaMap.Linked, A.Sorted, A.IsAlphabet, IsString, Codes;
      ghost var suffix, rest := SuffixAt(tail.tails, t), Codes(alphaMap.ranges, key)[i..];
      var suffixIdx: Short := 0;
      var p := i;
      while true
        invariant i <= p <= |key| && suffixIdx == p - i <= |suffix| && suffix[..p - i] == rest[..p - i]
        decreases |key| - p
      {
        RestOfCodes(alphaMap.ranges, key, i, p);
        Compare(suffix, rest, p - i);
        var c := alphaMap.CharToTrie(CharAt(key, p));
        var ok, next := tail.WalkChar(t, suffixIdx, c);
        suffixIdx := next;
        if !ok {
          return false;
        }
        if CharAt(key, p) == 0 {
          return true;
        }
        p := p + 1;
      }
    }

    /** Whether the key whose way meets the leaf `s` after `i` characters is stored. */
    lemma MeetsLeaf(key: AlphaString, s: int, i: int)
      requires Valid() && IsString(key) && s in da.path && 0 <= i <= |key| && Base(da.cells, s) < 0
      requires var w := Way(alphaMap.ranges, key); da.path[s] == w[..i] || (i == |key| && da.path[s] == w)
      ensures var k, t := Codes(alphaMap.ranges, key), -Base(da.cells, s);
              && IsLeaf(da.Shape(), da.path[s]) && TailAt(da.Shape(), da.path[s]) == t
              && OwnsBlock(da.path[s], tail.tails, t)
              && (k in contents <==> SuffixAt(tail.tails, t) == k[i..])
              && (k in contents ==> contents[k] == DataAt(tail.tails, t) && KeyAt(da.Shape(), tail.tails, da.path[s]) == k)
              && (k !in contents ==> Last(da.path[s]) != 0 && da.path[s] == k[..i])
    {
      hide DArray.Valid, Tail.Valid, AlphaMap.Valid, IsTrie, NoDeadEnds, Represents, InRange, A.IsAlphabet, IsKey;
      var k, q := Codes(alphaMap.ranges, key), da.path[s];
      NodeKind(s);
      LeafOwns(da.Shape(), tail.tails, q);
      StoredAtLeaf(da.Shape(), tail.tails, contents, k, q);
      if q == k + [0] {
        assert KeyAt(da.Shape(), tail.tails, q) == k && k[i..] == [];
      } else {
        assert q == k[..i];
        if i > 0 {
          CodeOfChar(alphaMap.ranges, key, i - 1);
        }
        assert KeyAt(da.Shape(), tail.tails, q) == k[..i] + SuffixAt(tail.tails, -Base(da.cells, s));
        assert k == k[..i] + k[i..];
      }
    }

    /** A key with a way that ends at an inner node is not stored. */
    lemma MeetsNothing(key: AlphaString, s: int, i: int)
      requires Valid() && IsString(key) && s in da.path && 0 <= i <= |key| && 0 < Base(da.cells, s)
      requires var w := Way(alphaMap.ranges, key); da.path[s] == w[..i] && w[..i + 1] !in da.node
      ensures Codes(alphaMap.ranges, key) !in contents
      ensures WayEnds(da.Shape(), Codes(alphaMap.ranges, key), i)
    {
      hide DArray.Valid, Tail.Valid, AlphaMap.Valid, IsTrie, NoDeadEnds, Represents, InRange, A.IsAlphabet, IsKey;
      NodeKind(s);
      NotStored(da.Shape(), tail.tails, contents, Codes(alphaMap.ranges, key), i);
    }

    /** Looks `key` up; a key with characters outside the alphabet just is not there. */
    method Retrieve(key: AlphaString) returns (found: bool, data: int)
      requires Valid() && IsString(key)
      ensures found <==> Codes(alphaMap.ranges, key) in contents
      ensures found ==> data == contents[Codes(alphaMap.ranges, key)]
    {
      hide DArray.Valid, Tail.Valid, AlphaMap.Valid, IsTrie, NoDeadEnds, Represents, AllInRange, InRange, A.IsAlphabet,
           Way, Codes, IsKey, KeyAt, WayEnds, IsString, CellTree.Shape;
      data := TRIE_DATA_ERROR;
      var walked, s, i := WalkBranches(key);
      if !walked {
        MeetsNothing(key, s, i);
        return false, data;
      }
      MeetsLeaf(key, s, i);
      var t := -Base(da.cells, s);
      found := WalkTail(t, key, i);
      if found {
        data := tail.GetData(t);
      }
    }

    method AddTail(suffix: seq<int>, data: int) returns (t: int)
      requires tail.Valid()
      modifies tail
      ensures tail.Valid() && 1 <= t && !Live(old(tail.tails), t) && OthersKept(old(tail.tails), tail.tails, t)
      ensures Live(tail.tails, t) && Block(tail.tails, t) == TailBlock(-1, data, Chars(suffix))
    {
      t := tail.AddSuffix(Chars(suffix));
      ghost var added := tail.tails;
      var _ := tail.SetData(t, data);
      BlockFilled(old(tail.tails), added, tail.tails, t, data);
    }

    /** Adds a branch for `suffix`, the rest of the key `k` after `i` characters, to the
        inner node `s`. */
    method BranchInBranch(s: int, suffix: seq<int>, data: int, ghost k: Key, ghost i: int) returns (ok: bool)
      requires Valid() && IsKey(k) && InRange(alphaMap.ranges, k) && |k| <= SHRT_MAX && WayEnds(da.Shape(), k, i) && suffix == k[i..]
      requires s in da.path && da.path[s] == (k + [0])[..i]
      modifies this, da, tail
      ensures Valid()
      ensures contents == if ok then old(contents)[k := data] else old(contents)
      ensures !ok ==> |da.cells| == TRIE_INDEX_MAX
      ensures |old(da.cells)| <= |da.cells|
      ensures isDirty == (old(isDirty) || ok)
    {
      hide DArray.Valid, Tail.Valid, AlphaMap.Valid, IsTrie, NoDeadEnds, Represents, InRange, A.IsAlphabet, IsKey,
           WayEnds, CharAt, After, Childless, KeepsNames, NoRoom;
      ghost var shape := da.Shape();
      RestOfKey(shape, k, i);
      da.NodeInShape(s);
      var newDa := da.InsertBranch(s, CharAt(suffix, 0));
      if newDa == TRIE_INDEX_ERROR {
        return false;
      }
      FillBranch(newDa, After(suffix), data, shape, Base(da.cells, newDa), k, i);
      return true;
    }

    /** Gives the node `newDa`, just added to the nodes of `shape`, its tail block. */
    method FillBranch(newDa: int, rest: seq<int>, data: int, ghost shape: map<Path, int>, ghost stale: int, ghost k: Key, ghost i: int)
      requires alphaMap.Valid() && A.IsAlphabet(alphaMap.ranges) && da.Valid() && tail.Valid()
      requires IsTrie(shape, tail.tails) && NoDeadEnds(shape) && Represents(shape, tail.tails, contents) && AllInRange(alphaMap.ranges, contents)
      requires IsKey(k) && InRange(alphaMap.ranges, k) && |k| <= SHRT_MAX && WayEnds(shape, k, i) && rest == After(k[i..])
      requires newDa in da.path && da.path[newDa] == (k + [0])[..i + 1] && Base(da.cells, newDa) < 0
      requires da.Shape() == shape[(k + [0])[..i] := INNER][(k + [0])[..i + 1] := stale]
      modifies this, da, tail
      ensures Valid() && contents == old(contents)[k := data]
      ensures |da.cells| == |old(da.cells)|
      ensures isDirty
    {
      hide DArray.Valid, Tail.Valid, AlphaMap.Valid, IsTrie, NoDeadEnds, Represents, InRange, A.IsAlphabet, IsKey,
           OthersKept, WayEnds, CharAt, After, Childless;
      RestOfKey(shape, k, i);
      var newTail := AddTail(rest, data);
      da.NodeInShape(newDa);
      da.LeafIsChildless(newDa);
      da.SetLeafBase(newDa, -newTail);
      isDirty := true;
      LastUpdate(shape, (k + [0])[..i], (k + [0])[..i + 1], stale, -newTail);
      LeafAddsNoDeadEnd(shape, (k + [0])[..i + 1], -newTail);
      BranchAdded(shape, old(tail.tails), contents, k, i, newTail, tail.tails, data);
      contents := contents[k := data];
    }

    /** The state while the leaf `q` of `shape` with index `sepNode` is being continued
        along `w`; `s` is the node reached, whose BASE is still `v`. */
    ghost predicate Growing(shape: map<Path, int>, q: Path, sepNode: int, w: seq<int>, s: int, v: int)
      reads da
    {
      && da.Valid() && IsShape(shape) && IsLeaf(shape, q)
      && da.Shape() == Grow(shape, q, w, v) && v < 0
      && sepNode in da.path && da.path[sepNode] == q
      && s in da.path && da.path[s] == q + w && Base(da.cells, s) == v
    }

    /** Adds the branch for the next character of the old suffix. */
    method GrowBranch(s: int, c: int, ghost shape: map<Path, int>, ghost q: Path, ghost sepNode: int, ghost w: seq<int>, ghost v: int) returns (next: int)
      requires Growing(shape, q, sepNode, w, s, v) && 0 <= c <= CODE_MAX
      modifies da
      ensures if next == TRIE_INDEX_ERROR then |da.cells| == TRIE_INDEX_MAX && Growing(shape, q, sepNode, w, s, v)
              else Growing(shape, q, sepNode, w + [c], next, Base(da.cells, next)) && s in da.path && da.path[s] == q + w
      ensures |old(da.cells)| <= |da.cells|
    {
      hide DArray.Valid, IsShape, IsLeaf, Grow, Childless, NoRoom;
      da.NodeInShape(s);
      da.NodeInShape(sepNode);
      da.LeafIsChildless(s);
      next := da.InsertBranch(s, c);
      if next != TRIE_INDEX_ERROR {
        GrowStep(shape, q, w, v, c, Base(da.cells, next));
        assert q + w + [c] == q + (w + [c]);
        LeafKeepsName(q, w);
      } else {
        da.NodeInShape(s);
      }
    }

    /** Takes back the branches added so far. */
    method Rollback(sepNode: int, s: int, oldTail: int, ghost shape: map<Path, int>, ghost q: Path, ghost w: seq<int>, ghost v: int)
      requires Growing(shape, q, sepNode, w, s, v) && oldTail == -shape[q]
      modifies da
      ensures da.Valid() && da.Shape() == shape && |da.cells| == |old(da.cells)|
    {
      hide DArray.Valid, IsShape, Grow, Pruned, Prunable, Childless;
      LeafIsNotRoot(shape, q);
      ghost var top := da.PruneUpto(sepNode, s);
      SameChildless(da.node, da.Shape(), (q + w)[..top]);
      PruneUndoesGrow(shape, q, w, v, top, -oldTail);
      SameChildless(da.node, da.Shape(), q);
      da.NodeInShape(sepNode);
      da.SetLeafBase(sepNode, -oldTail);
    }

    /** The loop of `BranchInTail` and the branch after it: adds branches for the
        characters that both suffixes share and for the first one in which the old
        one differs. */
    method BranchCommon(sepNode: int, oldSuffix: seq<int>, suffix: seq<int>, ghost shape: map<Path, int>, ghost q: Path)
      returns (ok: bool, s: int, oldDa: int, j: int)
      requires da.Valid() && da.Shape() == shape && IsShape(shape) && IsLeaf(shape, q)
      requires sepNode in da.path && da.path[sepNode] == q && Base(da.cells, sepNode) == shape[q]
      requires IsKey(oldSuffix) && IsKey(suffix) && oldSuffix != suffix
      modifies da
      ensures da.Valid() && 0 <= j <= |oldSuffix| && j <= |suffix| && oldSuffix[..j] == suffix[..j]
      ensures ok ==> CharAt(oldSuffix, j) != CharAt(suffix, j)
      ensures ok ==> Growing(shape, q, sepNode, oldSuffix[..j] + [CharAt(oldSuffix, j)], oldDa, Base(da.cells, oldDa))
      ensures ok ==> s in da.path && da.path[s] == q + oldSuffix[..j]
      ensures !ok ==> da.Shape() == shape && |da.cells| == TRIE_INDEX_MAX
      ensures |old(da.cells)| <= |da.cells|
    {
      hide DArray.Valid, IsShape, Grow;
      var oldTail := -Base(da.cells, sepNode);
      s, j, oldDa := sepNode, 0, TRIE_INDEX_ERROR;
      GrowNothing(shape, q);
      while CharAt(oldSuffix, j) == CharAt(suffix, j)
        invariant 0 <= j <= |oldSuffix| && j <= |suffix| && oldSuffix[..j] == suffix[..j]
        invariant Growing(shape, q, sepNode, oldSuffix[..j], s, Base(da.cells, s)) && |old(da.cells)| <= |da.cells|
        decreases |oldSuffix| - j
      {
        CommonChar(oldSuffix, suffix, j);
        var t := GrowBranch(s, oldSuffix[j], shape, q, sepNode, oldSuffix[..j], Base(da.cells, s));
        if t == TRIE_INDEX_ERROR {
          Rollback(sepNode, s, oldTail, shape, q, oldSuffix[..j], Base(da.cells, s));
          return false, s, oldDa, j;
        }
        s := t;
        j := j + 1;
      }
      CharCode(oldSuffix, j);
      oldDa := GrowBranch(s, CharAt(oldSuffix, j), shape, q, sepNode, oldSuffix[..j], Base(da.cells, s));
      if oldDa == TRIE_INDEX_ERROR {
        Rollback(sepNode, s, oldTail, shape, q, oldSuffix[..j], Base(da.cells, s));
        return false, s, oldDa, j;
      }
      return true, s, oldDa, j;
    }

    /** Cuts the suffix in block `oldTail` down to what follows position `j` and gives
        the block to the leaf `oldDa`.  The stored map stays as it is. */
    method MoveTail(oldTail: int, oldSuffix: seq<int>, j: int, sepNode: int, oldDa: int, ghost shape: map<Path, int>, ghost q: Path)
      requires alphaMap.Valid() && A.IsAlphabet(alphaMap.ranges) && tail.Valid()
      requires IsTrie(shape, tail.tails) && NoDeadEnds(shape) && Represents(shape, tail.tails, contents) && AllInRange(alphaMap.ranges, contents)
      requires IsLeaf(shape, q) && Last(q) != 0 && TailAt(shape, q) == oldTail
      requires oldSuffix == SuffixAt(tail.tails, oldTail) && 0 <= j <= |oldSuffix|
      requires Growing(shape, q, sepNode, oldSuffix[..j] + [CharAt(oldSuffix, j)], oldDa, Base(da.cells, oldDa))
      modifies tail, da
      ensures Valid()
      ensures da.Shape() == Grow(shape, q, oldSuffix[..j] + [CharAt(oldSuffix, j)], -oldTail)
      ensures |da.cells| == |old(da.cells)| && da.path == old(da.path)
    {
      hide DArray.Valid, Tail.Valid, AlphaMap.Valid, IsTrie, NoDeadEnds, Represents, InRange, A.IsAlphabet, IsKey,
           OthersKept, Grow, IsShape, Childless;
      ghost var u := oldSuffix[..j] + [CharAt(oldSuffix, j)];
      LeafOwns(shape, tail.tails, q);
      var _ := tail.SetSuffix(oldTail, Chars(After(oldSuffix[j..])));
      SuffixReplaced(old(tail.tails), oldTail, Chars(After(oldSuffix[j..])), tail.tails);
      GrowAddsNoDeadEnd(shape, q, u, -oldTail);
      SplitKeeps(shape, old(tail.tails), contents, q, j, oldTail, tail.tails);
      da.NodeInShape(oldDa);
      da.LeafIsChildless(oldDa);
      GrowStep(shape, q, oldSuffix[..j], 0, CharAt(oldSuffix, j), Base(da.cells, oldDa));
      GrowStep(shape, q, oldSuffix[..j], 0, CharAt(oldSuffix, j), -oldTail);
      assert q + u == q + oldSuffix[..j] + [CharAt(oldSuffix, j)];
      ghost var inner, v := Grow(shape, q, oldSuffix[..j], INNER), Base(da.cells, oldDa);
      assert inner[q + u := v][q + u := -oldTail] == inner[q + u := -oldTail];
      da.SetLeafBase(oldDa, -oldTail);
    }

    /** Splits the suffix of the leaf `sepNode` where it differs from `suffix`, the rest
        of the key `k` after `i` characters, and adds the key there.  When no cell is
        left the trie stores what it stored before.  (The source also tests for a
        missing suffix; a leaf always has one.) */
    method BranchInTail(sepNode: int, suffix: seq<int>, data: int, ghost k: Key, ghost i: int) returns (ok: bool)
      requires Valid() && IsKey(k) && InRange(alphaMap.ranges, k) && |k| <= SHRT_MAX && 0 <= i <= |k| && suffix == k[i..]
      requires sepNode in da.path && da.path[sepNode] == k[..i] && Base(da.cells, sepNode) < 0 && Last(k[..i]) != 0
      requires SuffixAt(tail.tails, -Base(da.cells, sepNode)) != suffix
      modifies this, da, tail
      ensures Valid()
      ensures contents == if ok then old(contents)[k := data] else old(contents)
      ensures !ok ==> |da.cells| == TRIE_INDEX_MAX
      ensures |old(da.cells)| <= |da.cells|
      ensures isDirty == (old(isDirty) || ok)
    {
      hide DArray.Valid, Tail.Valid, AlphaMap.Valid, IsTrie, NoDeadEnds, Represents, InRange, A.IsAlphabet, IsKey,
           OthersKept, Grow, IsShape, WayEnds;
      ghost var shape, q := da.Shape(), da.path[sepNode];
      NodeKind(sepNode);
      LeafOwns(shape, tail.tails, q);
      KeyPart(k, i);
      var oldTail := -Base(da.cells, sepNode);
      var old_ := tail.GetSuffix(oldTail);
      var oldSuffix := old_.chars;
      var branched, s, oldDa, j := BranchCommon(sepNode, oldSuffix, suffix, shape, q);
      if !branched {
        return false;
      }
      MoveTail(oldTail, oldSuffix, j, sepNode, oldDa, shape, q);
      SplitWayEnds(shape, q, oldSuffix, j, -oldTail, k, i);
      assert suffix[j..] == k[i + j..];
      ok := BranchInBranch(s, suffix[j..], data, k, i + j);
    }

    /** Stores `data` for `key`, whose characters belong to the alphabet; a key that is
        already there is overwritten only on demand.  A new key can only fail when the
        double array has its largest size, and then nothing has changed. */
    method StoreConditionally(key: AlphaString, data: int, isOverwrite: bool) returns (ok: bool)
      requires Valid() && IsString(key) && |key| <= SHRT_MAX
      requires forall i {:trigger key[i]} :: 0 <= i < |key| ==> A.Covers(alphaMap.ranges, key[i])
      modifies this, da, tail
      ensures Valid()
      ensures var k := Codes(alphaMap.ranges, key);
              && contents == (if ok then old(contents)[k := data] else old(contents))
              && (k in old(contents) ==> ok == isOverwrite)
              && (k !in old(contents) && !ok ==> |da.cells| == TRIE_INDEX_MAX)
      ensures |old(da.cells)| <= |da.cells|
      ensures isDirty == (old(isDirty) || ok)
    {
      hide DArray.Valid, Tail.Valid, AlphaMap.Valid, IsTrie, NoDeadEnds, Represents, InRange, A.IsAlphabet, IsKey, Codes, WayEnds;
      CodesAreKey(alphaMap.ranges, key);
      var walked, s, i := WalkBranches(key);
      if !walked {
        MeetsNothing(key, s, i);
        var rest := Encode(key, i);
        ok := BranchInBranch(s, rest, data, Codes(alphaMap.ranges, key), i);
        return;
      }
      ok := StoreAtLeaf(key, s, i, data, isOverwrite);
    }

    /** The second half of `StoreConditionally`: the way of `key` meets the leaf `s`. */
    method StoreAtLeaf(key: AlphaString, s: int, i: int, data: int, isOverwrite: bool) returns (ok: bool)
      requires Valid() && IsString(key) && |key| <= SHRT_MAX && IsKey(Codes(alphaMap.ranges, key)) && InRange(alphaMap.ranges, Codes(alphaMap.ranges, key))
      requires s in da.path && 0 <= i <= |key| && Base(da.cells, s) < 0
      requires var w := Way(alphaMap.ranges, key); da.path[s] == w[..i] || (i == |key| && da.path[s] == w)
      modifies this, da, tail
      ensures Valid()
      ensures var k := Codes(alphaMap.ranges, key);
              && contents == (if ok then old(contents)[k := data] else old(contents))
              && (k in old(contents) ==> ok == isOverwrite)
              && (k !in old(contents) && !ok ==> |da.cells| == TRIE_INDEX_MAX)
      ensures |old(da.cells)| <= |da.cells|
      ensures isDirty == (old(isDirty) || ok)
    {
      hide DArray.Valid, Tail.Valid, AlphaMap.Valid, IsTrie, NoDeadEnds, Represents, InRange, A.IsAlphabet, IsKey, Way, Codes;
      MeetsLeaf(key, s, i);
      var t := -Base(da.cells, s);
      var same := WalkTail(t, key, i);
      if !same {
        var rest := Encode(key, i);
        ok := BranchInTail(s, rest, data, Codes(alphaMap.ranges, key), i);
      } else if !isOverwrite {
        ok := false;
      } else {
        Overwrite(da.path[s], t, data);
        ok := true;
      }
    }

    method Overwrite(ghost q: Path, t: int, data: int)
      requires Valid() && IsLeaf(da.Shape(), q) && TailAt(da.Shape(), q) == t && Live(tail.tails, t)
      modifies this, tail
      ensures Valid() && contents == old(contents)[old(KeyAt(da.Shape(), tail.tails, q)) := data]
      ensures isDirty
    {
      hide DArray.Valid, Tail.Valid, AlphaMap.Valid, IsTrie, NoDeadEnds, Represents, InRange, A.IsAlphabet;
      DataChanged(da.Shape(), tail.tails, contents, q, t, tail.tails[t - 1 := tail.tails[t - 1].(data := data)], data);
      contents := contents[KeyAt(da.Shape(), tail.tails, q) := data];
      var _ := tail.SetData(t, data);
      isDirty := true;
    }

    /** The codes of the characters of `key` from position `i` on. */
    method Encode(key: AlphaString, i: int) returns (codes: seq<int>)
      requires alphaMap.Valid() && 0 <= i <= |key|
      ensures codes == Codes(alphaMap.ranges, key)[i..]
    {
      codes := [];
      var p := i;
      while p < |key|
        invariant i <= p <= |key| && codes == Codes(alphaMap.ranges, key)[i..p]
      {
        var c := alphaMap.CharToTrie(key[p]);
        assert Codes(alphaMap.ranges, key)[i..p + 1] == Codes(alphaMap.ranges, key)[i..p] + [c];
        codes := codes + [c];
        p := p + 1;
      }
    }

    method Store(key: AlphaString, data: int) returns (ok: bool)
      requires Valid() && IsString(key) && |key| <= SHRT_MAX
      requires forall i {:trigger key[i]} :: 0 <= i < |key| ==> A.Covers(alphaMap.ranges, key[i])
      modifies this, da, tail
      ensures Valid()
      ensures contents == if ok then old(contents)[Codes(alphaMap.ranges, key) := data] else old(contents)
      ensures !ok ==> Codes(alphaMap.ranges, key) !in old(contents) && |da.cells| == TRIE_INDEX_MAX
      ensures |old(da.cells)| <= |da.cells|
      ensures isDirty == (old(isDirty) || ok)
    {
      ok := StoreConditionally(key, data, true);
    }

    method StoreIfAbsent(key: AlphaString, data: int) returns (ok: bool)
      requires Valid() && IsString(key) && |key| <= SHRT_MAX
      requires forall i {:trigger key[i]} :: 0 <= i < |key| ==> A.Covers(alphaMap.ranges, key[i])
      modifies this, da, tail
      ensures Valid()
      ensures contents == if ok then old(contents)[Codes(alphaMap.ranges, key) := data] else old(contents)
      ensures ok ==> Codes(alphaMap.ranges, key) !in old(contents)
      ensures !ok ==> Codes(alphaMap.ranges, key) in old(contents) || |da.cells| == TRIE_INDEX_MAX
      ensures |old(da.cells)| <= |da.cells|
      ensures isDirty == (old(isDirty) || ok)
    {
      ok := StoreConditionally(key, data, false);
    }

    /** Removes `key`; returns whether it was there. */
    method Delete(key: AlphaString) returns (ok: bool)
      requires Valid() && IsString(key)
      modifies this, da, tail
      ensures Valid()
      ensures ok <==> Codes(alphaMap.ranges, key) in old(contents)
      ensures contents == old(contents) - {Codes(alphaMap.ranges, key)}
      ensures |da.cells| == |old(da.cells)|
      ensures isDirty == (old(isDirty) || ok)
    {
      hide DArray.Valid, Tail.Valid, AlphaMap.Valid, IsTrie, NoDeadEnds, Represents, InRange, A.IsAlphabet, IsKey, Way,
           Codes, OthersKept, KeyAt;
      var walked, s, i := WalkBranches(key);
      if !walked {
        MeetsNothing(key, s, i);
        return false;
      }
      MeetsLeaf(key, s, i);
      ok := WalkTail(-Base(da.cells, s), key, i);
      if ok {
        RemoveLeaf(s);
      }
    }

    /** Clears the leaf `s` and prunes up to the root. */
    method CutLeaf(s: int) returns (ghost top: int)
      requires da.Valid() && s in da.path && IsShape(da.Shape()) && IsLeaf(da.Shape(), da.path[s])
      requires Base(da.cells, s) == da.Shape()[da.path[s]]
      modifies da
      ensures da.Valid() && |da.cells| == |old(da.cells)|
      ensures var q := old(da.path)[s];
              && 0 <= top < |q| && Prunable(old(da.Shape()), q, top) && da.Shape() == Pruned(old(da.Shape()), q, top)
              && (top == 0 || !Childless(da.Shape(), q[..top]))
    {
      hide DArray.Valid, Childless, Pruned, Prunable, IsShape;
      ghost var shape, q := da.Shape(), da.path[s];
      da.LeafIsChildless(s);
      LeafIsNotRoot(shape, q);
      da.RootInShape();
      da.SetLeafBase(s, TRIE_INDEX_ERROR);
      ghost var node := da.node;
      da.NodeInShape(s);
      top := da.PruneUpto(ROOT, s);
      PrunedLeaf(shape, node, da.node, q, top);
      SameChildless(da.node, da.Shape(), q[..top]);
    }

    /** Frees the block of the leaf `s`, clears the leaf and prunes. */
    method RemoveLeaf(s: int)
      requires Valid() && s in da.path && IsLeaf(da.Shape(), da.path[s]) && Base(da.cells, s) == da.Shape()[da.path[s]]
      modifies da, tail, this
      ensures Valid() && contents == old(contents) - {old(KeyAt(da.Shape(), tail.tails, da.path[s]))}
      ensures |da.cells| == |old(da.cells)|
      ensures isDirty
    {
      hide DArray.Valid, Tail.Valid, AlphaMap.Valid, IsTrie, NoDeadEnds, Represents, InRange, A.IsAlphabet, OthersKept,
           Childless, Pruned, Prunable, KeyAt, IsShape;
      ghost var shape, q, t, tails := da.Shape(), da.path[s], -Base(da.cells, s), tail.tails;
      LeafOwns(shape, tails, q);
      TrieHasShape(shape, tails);
      tail.FreeBlock(-Base(da.cells, s));
      ghost var top := CutLeaf(s);
      LeafRemoved(shape, tails, contents, q, t, tail.tails, top);
      PruneLeavesNoDeadEnd(shape, q, top);
      contents := contents - {KeyAt(shape, tails, q)};
      isDirty := true;
    }
  }
}
