/** What a shape and a tail pool mean together: a finite map from keys to data.  Keys
    are sequences of the codes 1..254; code 0 ends a key. */
module TrieContents {
  import opened CellTree
  import opened TailPool
  import opened FreeList

  type Key = seq<int>

  const CODE_MAX := 254

  ghost predicate IsKey(k: Key) {
    forall c {:trigger c in k} :: c in k ==> 1 <= c <= CODE_MAX
  }

  /** A prefix-closed set of paths in which every node with an extension is inner. */
  ghost predicate IsShape(shape: map<Path, int>) {
    && [] in shape && shape[[]] == INNER
    && forall q {:trigger Init(q)} {:trigger Attached(shape, q)} :: q in shape && q != [] ==> Attached(shape, q)
  }

  /** `q` is a child of an inner node. */
  ghost predicate Attached(shape: map<Path, int>, q: Path)
    requires q != []
  {
    Init(q) in shape && shape[Init(q)] == INNER && 0 <= Last(q) <= CODE_MAX
  }

  predicate IsLeaf(shape: map<Path, int>, q: Path) {
    q in shape && shape[q] < 0
  }

  function TailAt(shape: map<Path, int>, q: Path): int {
    if q in shape then -shape[q] else 0
  }

  function SuffixAt(tails: seq<TailBlock>, t: int): seq<int> {
    if 1 <= t <= |tails| && tails[t - 1].suffix.Chars? then tails[t - 1].suffix.chars else []
  }

  function DataAt(tails: seq<TailBlock>, t: int): int {
    if 1 <= t <= |tails| then tails[t - 1].data else TRIE_DATA_ERROR
  }

  /** The key a leaf stands for: a leaf labelled 0 has used up its terminator. */
  function KeyOf(q: Path, suffix: seq<int>): Key {
    if Last(q) == 0 then Init(q) else q + suffix
  }

  function KeyAt(shape: map<Path, int>, tails: seq<TailBlock>, q: Path): Key {
    KeyOf(q, SuffixAt(tails, TailAt(shape, q)))
  }

  /** A leaf owns an allocated block that holds a suffix. */
  ghost predicate OwnsBlock(q: Path, tails: seq<TailBlock>, t: int) {
    && Live(tails, t)
    && Block(tails, t).suffix.Chars?
    && IsKey(SuffixAt(tails, t))
    && |SuffixAt(tails, t)| <= SHRT_MAX
    && (Last(q) == 0 ==> SuffixAt(tails, t) == [])
  }

  /** Every node is inner or a leaf; only a leaf can be labelled 0. */
  ghost predicate KindsOk(shape: map<Path, int>) {
    forall q {:trigger shape[q]} {:trigger Last(q)} :: q in shape ==>
      && (shape[q] == INNER || shape[q] < 0)
      && (shape[q] == INNER && q != [] ==> Last(q) != 0)
  }

  ghost predicate LeavesOwnBlocks(shape: map<Path, int>, tails: seq<TailBlock>) {
    forall q {:trigger IsLeaf(shape, q)} :: IsLeaf(shape, q) ==> OwnsBlock(q, tails, TailAt(shape, q))
  }

  ghost predicate BlocksNotShared(shape: map<Path, int>) {
    forall p, q {:trigger TailAt(shape, p), TailAt(shape, q)} ::
      IsLeaf(shape, p) && IsLeaf(shape, q) && TailAt(shape, p) == TailAt(shape, q) ==> p == q
  }

  ghost predicate IsTrie(shape: map<Path, int>, tails: seq<TailBlock>) {
    IsShape(shape) && KindsOk(shape) && LeavesOwnBlocks(shape, tails) && BlocksNotShared(shape)
  }

  /** `m` is exactly the map the leaves spell out. */
  ghost predicate Represents(shape: map<Path, int>, tails: seq<TailBlock>, m: map<Key, int>) {
    && (forall q {:trigger IsLeaf(shape, q)} :: IsLeaf(shape, q) ==>
          KeyAt(shape, tails, q) in m && m[KeyAt(shape, tails, q)] == DataAt(tails, TailAt(shape, q)))
    && (forall k {:trigger k in m} :: k in m ==> exists q {:trigger IsLeaf(shape, q)} :: IsLeaf(shape, q) && KeyAt(shape, tails, q) == k)
  }

  lemma {:induction false} PrefixIsInner(shape: map<Path, int>, q: Path, j: nat)
    requires IsShape(shape) && q in shape && j < |q|
    ensures q[..j] in shape && shape[q[..j]] == INNER
  {
    assert Init(q) in shape;
    if j < |q| - 1 {
      PrefixIsInner(shape, Init(q), j);
      assert Init(q)[..j] == q[..j];
    }
  }

  lemma LeafIsPrefix(shape: map<Path, int>, tails: seq<TailBlock>, q: Path)
    requires IsTrie(shape, tails) && IsLeaf(shape, q)
    ensures q <= KeyAt(shape, tails, q) + [0] && q != []
  {
    assert shape[[]] == INNER;
    if Last(q) == 0 {
      assert KeyAt(shape, tails, q) + [0] == q;
    }
  }

  lemma PrefixIsThere(shape: map<Path, int>, q: Path, j: nat)
    requires IsShape(shape) && q in shape && j <= |q|
    ensures q[..j] in shape
  {
    if j < |q| {
      PrefixIsInner(shape, q, j);
    } else {
      assert q[..j] == q;
    }
  }

  /** A leaf that is a prefix of a path of the trie is that path. */
  lemma LeafHasNoExtension(shape: map<Path, int>, p: Path, q: Path)
    requires IsShape(shape) && IsLeaf(shape, p) && q in shape && p <= q
    ensures p == q
  {
    assert q[..|p|] == p;
    if |p| < |q| {
      PrefixIsInner(shape, q, |p|);
    }
  }

  /** At most one leaf lies on the way of a terminated key. */
  lemma OneLeafOnTheWay(shape: map<Path, int>, p: Path, q: Path, w: seq<int>)
    requires IsShape(shape) && IsLeaf(shape, p) && IsLeaf(shape, q) && p <= w && q <= w
    ensures p == q
  {
    if |p| <= |q| {
      LeafHasNoExtension(shape, p, q);
    } else {
      LeafHasNoExtension(shape, q, p);
    }
  }

  /** The way of `k` leaves the shape at an inner node after `i` steps. */
  ghost predicate WayEnds(shape: map<Path, int>, k: Key, i: int) {
    && 0 <= i <= |k|
    && (k + [0])[..i] in shape && shape[(k + [0])[..i]] == INNER
    && (k + [0])[..i + 1] !in shape
  }

  /** A key whose way ends at an inner node is not stored. */
  lemma NotStored(shape: map<Path, int>, tails: seq<TailBlock>, m: map<Key, int>, k: Key, i: int)
    requires IsTrie(shape, tails) && Represents(shape, tails, m) && WayEnds(shape, k, i)
    ensures k !in m
  {
    if k in m {
      var w := k + [0];
      var q :| IsLeaf(shape, q) && KeyAt(shape, tails, q) == k;
      LeafIsPrefix(shape, tails, q);
      if |q| <= i {
        assert q <= w[..i];
        LeafHasNoExtension(shape, q, w[..i]);
      } else {
        assert q[..i + 1] == w[..i + 1];
        PrefixIsThere(shape, q, i + 1);
      }
    }
  }

  /** A key with a leaf on its way is stored exactly if it is the key of that leaf. */
  lemma StoredAtLeaf(shape: map<Path, int>, tails: seq<TailBlock>, m: map<Key, int>, k: Key, q: Path)
    requires IsTrie(shape, tails) && Represents(shape, tails, m)
    requires IsLeaf(shape, q) && q <= k + [0]
    ensures k in m <==> KeyAt(shape, tails, q) == k
    ensures k in m ==> m[k] == DataAt(tails, TailAt(shape, q))
  {
    if k in m {
      var p :| IsLeaf(shape, p) && KeyAt(shape, tails, p) == k;
      LeafIsPrefix(shape, tails, p);
      OneLeafOnTheWay(shape, p, q, k + [0]);
    }
  }

  /** Leaves other than `but` keep their place, their block and its content. */
  ghost predicate LeavesKept(shape: map<Path, int>, tails: seq<TailBlock>, shape': map<Path, int>, tails': seq<TailBlock>, but: Path) {
    forall q {:trigger IsLeaf(shape, q)} :: IsLeaf(shape, q) && q != but ==>
      && IsLeaf(shape', q) && TailAt(shape', q) == TailAt(shape, q)
      && SuffixAt(tails', TailAt(shape, q)) == SuffixAt(tails, TailAt(shape, q))
      && DataAt(tails', TailAt(shape, q)) == DataAt(tails, TailAt(shape, q))
      && Live(tails', TailAt(shape, q)) && Block(tails', TailAt(shape, q)).suffix.Chars?
  }

  /** A new leaf `q` with an own block adds its key. */
  lemma LeafAdded(shape: map<Path, int>, tails: seq<TailBlock>, m: map<Key, int>, shape': map<Path, int>, tails': seq<TailBlock>, q: Path)
    requires IsTrie(shape, tails) && Represents(shape, tails, m)
    requires IsTrie(shape', tails') && IsLeaf(shape', q) && !IsLeaf(shape, q)
    requires LeavesKept(shape, tails, shape', tails', q)
    requires forall p {:trigger IsLeaf(shape', p)} :: IsLeaf(shape', p) && p != q ==> IsLeaf(shape, p)
    requires KeyAt(shape', tails', q) !in m
    ensures Represents(shape', tails', m[KeyAt(shape', tails', q) := DataAt(tails', TailAt(shape', q))])
  {
    var k := KeyAt(shape', tails', q);
    var m' := m[k := DataAt(tails', TailAt(shape', q))];
    forall p | IsLeaf(shape', p)
      ensures KeyAt(shape', tails', p) in m' && m'[KeyAt(shape', tails', p)] == DataAt(tails', TailAt(shape', p))
    {
      assert p != q ==> IsLeaf(shape, p);
    }
    forall e | e in m'
      ensures exists p :: IsLeaf(shape', p) && KeyAt(shape', tails', p) == e
    {
      if e == k {
        assert IsLeaf(shape', q);
      } else {
        var p :| IsLeaf(shape, p) && KeyAt(shape, tails, p) == e;
        assert IsLeaf(shape', p);
      }
    }
  }

  /** The part of a terminated string after its first character. */
  function After(s: seq<int>): seq<int> {
    if s == [] then [] else s[1..]
  }

  /** Leaves other than `but` that own other blocks than `t` keep everything. */
  lemma KeptLeaves(shape: map<Path, int>, tails: seq<TailBlock>, shape': map<Path, int>, tails': seq<TailBlock>, but: Path, t: int)
    requires IsTrie(shape, tails) && OthersKept(tails, tails', t)
    requires forall p {:trigger IsLeaf(shape, p)} :: IsLeaf(shape, p) && p != but ==>
      TailAt(shape, p) != t && p in shape' && shape'[p] == shape[p]
    ensures LeavesKept(shape, tails, shape', tails', but)
  {
    forall p {:trigger IsLeaf(shape, p)} | IsLeaf(shape, p) && p != but
      ensures OwnsBlock(p, tails, TailAt(shape, p)) && Block(tails', TailAt(shape, p)) == Block(tails, TailAt(shape, p))
    {
    }
  }

  /** The way of a key up to its position `i` and the rest after it make up the key. */
  lemma NewKey(k: Key, i: nat)
    requires IsKey(k) && i <= |k|
    ensures var q := (k + [0])[..i + 1];
            && q != [] && Init(q) == (k + [0])[..i] && Last(q) == CharAt(k, i) && 0 <= Last(q) <= CODE_MAX
            && KeyOf(q, After(k[i..])) == k
            && (Last(q) == 0 ==> After(k[i..]) == [])
    ensures IsKey(After(k[i..]))
  {
    var q := (k + [0])[..i + 1];
    assert Init(q) == (k + [0])[..i];
    if i < |k| {
      assert k[i] in k;
      assert After(k[i..]) == k[i + 1..];
      KeyPart(k, i + 1);
      assert q + k[i + 1..] == k;
    } else {
      assert Init(q) == k;
    }
  }

  lemma KeyPart(k: Key, i: nat)
    requires IsKey(k) && i <= |k|
    ensures IsKey(k[i..])
  {
    forall c | c in k[i..]
      ensures c in k
    {
    }
  }

  lemma LeafKeepsShape(shape: map<Path, int>, q: Path, v: int)
    requires IsShape(shape) && q !in shape && q != []
    requires Init(q) in shape && shape[Init(q)] == INNER && 0 <= Last(q) <= CODE_MAX
    ensures IsShape(shape[q := v])
  {
    forall p {:trigger Attached(shape[q := v], p)} | p in shape[q := v] && p != []
      ensures Attached(shape[q := v], p)
    {
      assert Attached(shape, p) && Init(p) != q;
    }
  }

  /** Adding a leaf with its own block below an inner node keeps the trie a trie. */
  lemma KeptTrie(shape: map<Path, int>, tails: seq<TailBlock>, tails': seq<TailBlock>, q: Path, t: int)
    requires IsTrie(shape, tails) && q !in shape && q != [] && 0 < t
    requires Init(q) in shape && shape[Init(q)] == INNER && 0 <= Last(q) <= CODE_MAX
    requires OwnsBlock(q, tails', t) && !Live(tails, t) && OthersKept(tails, tails', t)
    ensures IsTrie(shape[q := -t], tails')
  {
    var shape' := shape[q := -t];
    LeafKeepsShape(shape, q, -t);
    forall p {:trigger shape'[p]} {:trigger Last(p)} | p in shape'
      ensures (shape'[p] == INNER || shape'[p] < 0) && (shape'[p] == INNER && p != [] ==> Last(p) != 0)
    {
      if p != q {
        assert p in shape && shape'[p] == shape[p];
      }
    }
    forall p {:trigger IsLeaf(shape', p)} | IsLeaf(shape', p)
      ensures OwnsBlock(p, tails', TailAt(shape', p)) && (p != q ==> IsLeaf(shape, p) && TailAt(shape', p) != t)
    {
      if p != q {
        assert IsLeaf(shape, p) && OwnsBlock(p, tails, TailAt(shape, p));
      }
    }
    forall p, r {:trigger TailAt(shape', p), TailAt(shape', r)} | IsLeaf(shape', p) && IsLeaf(shape', r) && TailAt(shape', p) == TailAt(shape', r)
      ensures p == r
    {
      if p != q && r != q {
        assert TailAt(shape, p) == TailAt(shape, r);
      }
    }
  }

  /** A way for the key `k` that leaves the trie at its prefix of length `i` is closed
      by a leaf with the block `t`, which holds the rest of `k`. */
  lemma BranchAdded(shape: map<Path, int>, tails: seq<TailBlock>, m: map<Key, int>, k: Key, i: int, t: int, tails': seq<TailBlock>, data: int)
    requires IsTrie(shape, tails) && Represents(shape, tails, m) && IsKey(k) && |k| <= SHRT_MAX && WayEnds(shape, k, i)
    requires 1 <= t && !Live(tails, t) && OthersKept(tails, tails', t)
    requires Live(tails', t) && Block(tails', t) == TailBlock(-1, data, Chars(After(k[i..])))
    ensures IsTrie(shape[(k + [0])[..i + 1] := -t], tails')
    ensures Represents(shape[(k + [0])[..i + 1] := -t], tails', m[k := data])
  {
    hide IsKey;
    var q := (k + [0])[..i + 1];
    NewKey(k, i);
    NotStored(shape, tails, m, k, i);
    KeptTrie(shape, tails, tails', q, t);
    NewLeaf(shape, tails, m, tails', q, t);
  }

  lemma NewLeaf(shape: map<Path, int>, tails: seq<TailBlock>, m: map<Key, int>, tails': seq<TailBlock>, q: Path, t: int)
    requires IsTrie(shape, tails) && Represents(shape, tails, m) && q !in shape && 0 < t
    requires OwnsBlock(q, tails', t) && !Live(tails, t) && OthersKept(tails, tails', t)
    requires IsTrie(shape[q := -t], tails') && KeyOf(q, SuffixAt(tails', t)) !in m
    ensures Represents(shape[q := -t], tails', m[KeyOf(q, SuffixAt(tails', t)) := DataAt(tails', t)])
  {
    hide Represents, OthersKept, OwnsBlock, IsTrie, LeavesKept;
    var shape' := shape[q := -t];
    NotMine(shape, tails, t);
    KeptLeaves(shape, tails, shape', tails', q, t);
    LeafAdded(shape, tails, m, shape', tails', q);
  }

  /** No leaf has a block that is not allocated. */
  lemma NotMine(shape: map<Path, int>, tails: seq<TailBlock>, t: int)
    requires IsTrie(shape, tails) && !Live(tails, t)
    ensures forall p {:trigger IsLeaf(shape, p)} :: IsLeaf(shape, p) ==> TailAt(shape, p) != t
  {
    forall p {:trigger IsLeaf(shape, p)} | IsLeaf(shape, p)
      ensures TailAt(shape, p) != t
    {
      assert OwnsBlock(p, tails, TailAt(shape, p));
    }
  }

  /** `shape` with the leaf `q` continued by inner nodes along `w`, of which the last
      has the kind `v`. */
  ghost function Grow(shape: map<Path, int>, q: Path, w: seq<int>, v: int): map<Path, int> {
    if w == [] then shape[q := v] else Grow(shape, q, Init(w), INNER)[q + w := v]
  }

  predicate Between(q: Path, p: Path, w: seq<int>) {
    q <= p && p <= q + w
  }

  lemma {:induction false} GrowAt(shape: map<Path, int>, q: Path, w: seq<int>, v: int)
    ensures forall p {:trigger p in Grow(shape, q, w, v)} :: p in Grow(shape, q, w, v) <==> p in shape || Between(q, p, w)
    ensures forall p {:trigger Grow(shape, q, w, v)[p]} :: p in Grow(shape, q, w, v) ==>
      Grow(shape, q, w, v)[p] == if p == q + w then v else if Between(q, p, w) then INNER else shape[p]
    decreases |w|
  {
    if w == [] {
      assert q + w == q;
      assert forall p :: Between(q, p, w) <==> p == q;
    } else {
      GrowAt(shape, q, Init(w), INNER);
      forall p
        ensures Between(q, p, w) <==> Between(q, p, Init(w)) || p == q + w
      {
        assert q + w == q + Init(w) + [Last(w)];
      }
    }
  }

  lemma GrowStep(shape: map<Path, int>, q: Path, w: seq<int>, v: int, c: int, v': int)
    ensures Grow(shape, q, w, v)[q + w := INNER] == Grow(shape, q, w, INNER)
    ensures Grow(shape, q, w, INNER)[q + w + [c] := v'] == Grow(shape, q, w + [c], v')
  {
    Snoc(w, c);
    assert q + (w + [c]) == q + w + [c];
    if w == [] {
      assert q + w == q;
    }
  }

  /** Growing a leaf `q` meets no other path of the shape. */
  lemma GrowFromLeaf(shape: map<Path, int>, q: Path, u: seq<int>, p: Path)
    requires IsShape(shape) && IsLeaf(shape, q)
    ensures p in shape && q <= p ==> p == q
    ensures p in shape && p != [] ==> Init(p) in shape && Init(p) != q && !(q <= Init(p))
    ensures Between(q, p, u) && p != q ==> p != [] && Between(q, Init(p), u) && Init(p) != q + u && Last(p) in u
    ensures Between(q, p, u) && p != q && p != q + u ==> Last(p) in Init(u)
  {
    if p in shape && q <= p {
      LeafHasNoExtension(shape, q, p);
    }
    if p in shape && p != [] {
      assert Init(p) in shape;
      if q <= Init(p) {
        LeafHasNoExtension(shape, q, Init(p));
      }
    }
    if Between(q, p, u) && p != q {
      assert p == (q + u)[..|p|];
      assert Init(p) == (q + u)[..|p| - 1];
      assert q == (q + u)[..|q|];
      assert Last(p) == u[|p| - 1 - |q|];
      if |p| < |q + u| {
        assert Last(p) == Init(u)[|p| - 1 - |q|];
      }
    }
  }

  lemma GrowIsShape(shape: map<Path, int>, q: Path, u: seq<int>, v: int)
    requires IsShape(shape) && IsLeaf(shape, q) && u != []
    requires forall c {:trigger c in u} :: c in u ==> 0 <= c <= CODE_MAX
    ensures IsShape(Grow(shape, q, u, v))
  {
    GrowAt(shape, q, u, v);
    var s := Grow(shape, q, u, v);
    GrowFromLeaf(shape, q, u, []);
    assert !Between(q, [], u);
    forall p {:trigger Attached(s, p)} | p in s && p != []
      ensures Attached(s, p)
    {
      GrowFromLeaf(shape, q, u, p);
      assert p in s;
      assert Init(p) in s;
    }
  }

  /** The nodes after growing a leaf, by name. */
  lemma GrowKinds(shape: map<Path, int>, q: Path, u: seq<int>, v: int, p: Path)
    requires IsShape(shape) && IsLeaf(shape, q) && u != [] && v < 0
    ensures var s := Grow(shape, q, u, v);
            && (IsLeaf(s, p) <==> p == q + u || (p != q && IsLeaf(shape, p)))
            && (IsLeaf(s, p) ==> s[p] == if p == q + u then v else shape[p])
            && (p in s && !IsLeaf(s, p) ==> s[p] == INNER || (p in shape && s[p] == shape[p]))
            && (p in s && !IsLeaf(s, p) && p !in shape ==> Last(p) in Init(u))
  {
    GrowAt(shape, q, u, v);
    GrowFromLeaf(shape, q, u, p);
    assert q <= q + u && q != q + u;
    assert Between(q, q, u);
    assert Between(q, q + u, u);
  }

  /** Splitting a suffix: the leaf `q` with block `t` becomes a way along `u`, the
      first characters of its terminated suffix, to a leaf that keeps the block. */
  lemma SplitIsTrie(shape: map<Path, int>, tails: seq<TailBlock>, q: Path, u: seq<int>, t: int, tails': seq<TailBlock>)
    requires IsTrie(shape, tails) && IsLeaf(shape, q) && TailAt(shape, q) == t && u != [] && Last(q) != 0
    requires forall c {:trigger c in u} :: c in u ==> 0 <= c <= CODE_MAX
    requires IsKey(Init(u))
    requires OwnsBlock(q + u, tails', t) && OthersKept(tails, tails', t)
    ensures IsTrie(Grow(shape, q, u, -t), tails')
    ensures LeavesKept(shape, tails, Grow(shape, q, u, -t), tails', q)
  {
    hide LeavesKept, OthersKept;
    var s := Grow(shape, q, u, -t);
    GrowIsShape(shape, q, u, -t);
    assert TailAt(shape, q) == t > 0;
    forall p {:trigger IsLeaf(shape, p)} | IsLeaf(shape, p) && p != q
      ensures TailAt(shape, p) != t && p in s && s[p] == shape[p]
    {
      GrowKinds(shape, q, u, -t, p);
      GrowFromLeaf(shape, q, u, p);
      assert q <= q + u;
    }
    KeptLeaves(shape, tails, s, tails', q, t);
    forall p {:trigger s[p]} {:trigger IsLeaf(s, p)} {:trigger Last(p)} | p in s
      ensures (s[p] == INNER || s[p] < 0) && (s[p] == INNER && p != [] ==> Last(p) != 0)
      ensures IsLeaf(s, p) ==> OwnsBlock(p, tails', TailAt(s, p)) && (p == q + u || (IsLeaf(shape, p) && p != q && TailAt(s, p) == TailAt(shape, p) != t))
    {
      GrowKinds(shape, q, u, -t, p);
      LeafStays(shape, tails, s, tails', q, p);
    }
    forall p, r {:trigger TailAt(s, p), TailAt(s, r)} | IsLeaf(s, p) && IsLeaf(s, r) && TailAt(s, p) == TailAt(s, r)
      ensures p == r
    {
    }
  }

  lemma LeafStays(shape: map<Path, int>, tails: seq<TailBlock>, shape': map<Path, int>, tails': seq<TailBlock>, but: Path, p: Path)
    requires IsTrie(shape, tails) && LeavesKept(shape, tails, shape', tails', but)
    ensures IsLeaf(shape, p) && p != but ==> IsLeaf(shape', p) && TailAt(shape', p) == TailAt(shape, p) && OwnsBlock(p, tails', TailAt(shape, p))
  {
  }

  /** Replacing the leaf `q` by the leaf `r` with the same key, block and data changes
      nothing that the trie stores. */
  lemma SameContents(shape: map<Path, int>, tails: seq<TailBlock>, m: map<Key, int>, q: Path, shape': map<Path, int>, tails': seq<TailBlock>, r: Path)
    requires IsTrie(shape, tails) && Represents(shape, tails, m) && IsLeaf(shape, q) && IsLeaf(shape', r)
    requires LeavesKept(shape, tails, shape', tails', q)
    requires forall p {:trigger IsLeaf(shape', p)} :: IsLeaf(shape', p) ==> p == r || (p != q && IsLeaf(shape, p))
    requires KeyAt(shape', tails', r) == KeyAt(shape, tails, q)
    requires DataAt(tails', TailAt(shape', r)) == DataAt(tails, TailAt(shape, q))
    ensures Represents(shape', tails', m)
  {
    forall p {:trigger IsLeaf(shape', p)} | IsLeaf(shape', p)
      ensures KeyAt(shape', tails', p) in m && m[KeyAt(shape', tails', p)] == DataAt(tails', TailAt(shape', p))
    {
      assert p != r ==> IsLeaf(shape, p);
    }
    forall k | k in m
      ensures exists p {:trigger IsLeaf(shape', p)} :: IsLeaf(shape', p) && KeyAt(shape', tails', p) == k
    {
      var p :| IsLeaf(shape, p) && KeyAt(shape, tails, p) == k;
      assert IsLeaf(shape', if p == q then r else p);
    }
  }

  /** The characters along a terminated suffix up to position `j`, and the rest. */
  lemma SplitSuffix(s: seq<int>, j: nat, q: Path)
    requires IsKey(s) && j <= |s| && Last(q) != 0
    ensures var u := s[..j] + [CharAt(s, j)];
            && u != [] && Init(u) == s[..j] && IsKey(Init(u))
            && (forall c {:trigger c in u} :: c in u ==> 0 <= c <= CODE_MAX)
            && KeyOf(q + u, After(s[j..])) == q + s
            && (Last(q + u) == 0 ==> After(s[j..]) == [])
    ensures IsKey(After(s[j..])) && |After(s[j..])| <= |s|
  {
    var u := s[..j] + [CharAt(s, j)];
    Snoc(s[..j], CharAt(s, j));
    assert Last(q + u) == CharAt(s, j);
    KeyStart(s, j);
    if j < |s| {
      assert s[j] in s;
      assert After(s[j..]) == s[j + 1..];
      KeyPart(s, j + 1);
      assert q + u + s[j + 1..] == q + s;
    } else {
      assert Init(q + u) == q + s;
    }
  }

  lemma KeyStart(k: Key, j: nat)
    requires IsKey(k) && j <= |k|
    ensures IsKey(k[..j])
  {
    forall c | c in k[..j]
      ensures c in k
    {
    }
  }

  lemma LeafOwns(shape: map<Path, int>, tails: seq<TailBlock>, q: Path)
    requires IsTrie(shape, tails) && IsLeaf(shape, q)
    ensures IsShape(shape) && OwnsBlock(q, tails, TailAt(shape, q)) && TailAt(shape, q) > 0
  {
  }

  /** A split keeps the stored map: the old key keeps its data. */
  lemma SplitKeeps(shape: map<Path, int>, tails: seq<TailBlock>, m: map<Key, int>, q: Path, j: nat, t: int, tails': seq<TailBlock>)
    requires IsTrie(shape, tails) && Represents(shape, tails, m) && IsLeaf(shape, q) && TailAt(shape, q) == t && Last(q) != 0
    requires j <= |SuffixAt(tails, t)|
    requires OthersKept(tails, tails', t) && Live(tails', t) && DataAt(tails', t) == DataAt(tails, t)
    requires Block(tails', t).suffix == Chars(After(SuffixAt(tails, t)[j..]))
    ensures var u := SuffixAt(tails, t)[..j] + [CharAt(SuffixAt(tails, t), j)];
            IsTrie(Grow(shape, q, u, -t), tails') && Represents(Grow(shape, q, u, -t), tails', m)
  {
    hide LeavesKept, OthersKept, IsTrie, Represents, IsKey;
    LeafOwns(shape, tails, q);
    var s := SuffixAt(tails, t);
    var u := s[..j] + [CharAt(s, j)];
    SplitSuffix(s, j, q);
    SplitIsTrie(shape, tails, q, u, t, tails');
    forall p {:trigger IsLeaf(Grow(shape, q, u, -t), p)}
      ensures IsLeaf(Grow(shape, q, u, -t), p) ==> p == q + u || (p != q && IsLeaf(shape, p))
    {
      GrowKinds(shape, q, u, -t, p);
    }
    GrowKinds(shape, q, u, -t, q + u);
    SameContents(shape, tails, m, q, Grow(shape, q, u, -t), tails', q + u);
  }

  /** What pruning leaves on top has children, unless pruning went all the way. */
  ghost predicate PrunedFully(m: map<Path, int>, q: Path, top: int, bottom: int) {
    0 <= bottom <= top <= |q| && (top == bottom || !Childless(m, q[..top]))
  }

  /** Pruning a grown way up to its leaf undoes the growth. */
  lemma PruneUndoesGrow(shape: map<Path, int>, q: Path, w: seq<int>, v: int, top: int, v': int)
    requires IsShape(shape) && IsLeaf(shape, q)
    requires PrunedFully(Pruned(Grow(shape, q, w, v), q + w, top), q + w, top, |q|)
    ensures Pruned(Grow(shape, q, w, v), q + w, top)[q := v'] == shape[q := v']
    ensures Childless(Pruned(Grow(shape, q, w, v), q + w, top), q)
  {
    var s := Grow(shape, q, w, v);
    var s' := Pruned(s, q + w, top);
    GrowAt(shape, q, w, v);
    if top > |q| {
      var r :| r in s' && r != [] && Init(r) == (q + w)[..top];
      assert r in s && q <= Init(r);
      GrowFromLeaf(shape, q, w, r);
    }
    forall p {:trigger p in s'}
      ensures p in s' <==> p in shape
    {
      GrowFromLeaf(shape, q, w, p);
      assert p in s <==> p in shape || Between(q, p, w);
    }
    forall p | p in shape && p != q
      ensures s'[p] == shape[p]
    {
      GrowFromLeaf(shape, q, w, p);
      assert s[p] == shape[p];
    }
    forall r {:trigger Init(r)} | r in s' && r != []
      ensures Init(r) != q
    {
      assert r in shape;
      GrowFromLeaf(shape, q, w, r);
    }
  }

  lemma SameChildless(m: map<Path, int>, m': map<Path, int>, q: Path)
    requires m.Keys == m'.Keys
    ensures Childless(m, q) <==> Childless(m', q)
  {
    forall r {:trigger Init(r)}
      ensures r in m <==> r in m'
    {
      assert r in m <==> r in m.Keys;
    }
  }

  lemma PrunedIsShape(shape: map<Path, int>, q: Path, top: int)
    requires IsShape(shape) && IsLeaf(shape, q) && Prunable(shape, q, top) && 0 <= top < |q|
    ensures IsShape(Pruned(shape, q, top))
    ensures forall p {:trigger IsLeaf(Pruned(shape, q, top), p)} :: IsLeaf(Pruned(shape, q, top), p) <==> IsLeaf(shape, p) && p != q
  {
    var s := Pruned(shape, q, top);
    forall p {:trigger Attached(s, p)} | p in s && p != []
      ensures Attached(s, p)
    {
      assert Attached(shape, p);
    }
    forall p {:trigger IsLeaf(s, p)}
      ensures IsLeaf(s, p) <==> IsLeaf(shape, p) && p != q
    {
      if IsLeaf(shape, p) && p <= q {
        LeafHasNoExtension(shape, p, q);
      }
    }
  }

  /** Removing the leaf `q` together with the ancestors it leaves without children
      removes its key and nothing else. */
  lemma LeafRemoved(shape: map<Path, int>, tails: seq<TailBlock>, m: map<Key, int>, q: Path, t: int, tails': seq<TailBlock>, top: int)
    requires IsTrie(shape, tails) && Represents(shape, tails, m) && IsLeaf(shape, q) && TailAt(shape, q) == t
    requires OthersKept(tails, tails', t)
    requires Prunable(shape, q, top) && 0 <= top < |q|
    ensures IsTrie(Pruned(shape, q, top), tails')
    ensures Represents(Pruned(shape, q, top), tails', m - {KeyAt(shape, tails, q)})
  {
    hide LeavesKept, OthersKept, Represents, Prunable;
    var s := Pruned(shape, q, top);
    PrunedIsShape(shape, q, top);
    forall p {:trigger IsLeaf(shape, p)} | IsLeaf(shape, p) && p != q
      ensures IsLeaf(s, p) && s[p] == shape[p] && TailAt(s, p) == TailAt(shape, p) && TailAt(shape, p) != TailAt(shape, q)
    {
      assert IsLeaf(s, p);
    }
    KeptLeaves(shape, tails, s, tails', q, t);
    forall p {:trigger IsLeaf(s, p)} | IsLeaf(s, p)
      ensures OwnsBlock(p, tails', TailAt(s, p)) && TailAt(s, p) == TailAt(shape, p) && IsLeaf(shape, p)
    {
      LeafStays(shape, tails, s, tails', q, p);
    }
    KeyRemoved(shape, tails, m, q, s, tails');
  }

  /** Different leaves have different keys. */
  lemma DistinctKeys(shape: map<Path, int>, tails: seq<TailBlock>, p: Path, q: Path)
    requires IsTrie(shape, tails) && IsLeaf(shape, p) && IsLeaf(shape, q) && p != q
    ensures KeyAt(shape, tails, p) != KeyAt(shape, tails, q) && TailAt(shape, p) != TailAt(shape, q)
  {
    if KeyAt(shape, tails, p) == KeyAt(shape, tails, q) {
      LeafIsPrefix(shape, tails, p);
      LeafIsPrefix(shape, tails, q);
      OneLeafOnTheWay(shape, p, q, KeyAt(shape, tails, q) + [0]);
    }
  }

  lemma KeyRemoved(shape: map<Path, int>, tails: seq<TailBlock>, m: map<Key, int>, q: Path, shape': map<Path, int>, tails': seq<TailBlock>)
    requires IsTrie(shape, tails) && Represents(shape, tails, m) && IsLeaf(shape, q)
    requires LeavesKept(shape, tails, shape', tails', q)
    requires forall p {:trigger IsLeaf(shape', p)} :: IsLeaf(shape', p) ==> p != q && IsLeaf(shape, p)
    ensures Represents(shape', tails', m - {KeyAt(shape, tails, q)})
  {
    var k := KeyAt(shape, tails, q);
    forall p {:trigger IsLeaf(shape', p)} | IsLeaf(shape', p)
      ensures KeyAt(shape', tails', p) == KeyAt(shape, tails, p) != k && DataAt(tails', TailAt(shape', p)) == DataAt(tails, TailAt(shape, p))
    {
      assert IsLeaf(shape, p);
      DistinctKeys(shape, tails, p, q);
    }
    forall e | e in m && e != k
      ensures exists p {:trigger IsLeaf(shape', p)} :: IsLeaf(shape', p) && KeyAt(shape', tails', p) == e
    {
      var p :| IsLeaf(shape, p) && KeyAt(shape, tails, p) == e;
      assert IsLeaf(shape', p);
    }
  }

  lemma DataOnly(tails: seq<TailBlock>, t: int, tails': seq<TailBlock>, data: int)
    requires Live(tails, t) && tails' == tails[t - 1 := tails[t - 1].(data := data)]
    ensures forall u {:trigger SuffixAt(tails', u)} :: SuffixAt(tails', u) == SuffixAt(tails, u)
    ensures forall u {:trigger DataAt(tails', u)} :: DataAt(tails', u) == if u == t then data else DataAt(tails, u)
    ensures forall p, u {:trigger OwnsBlock(p, tails', u)} :: OwnsBlock(p, tails, u) ==> OwnsBlock(p, tails', u)
  {
  }

  /** Overwriting the data of a leaf overwrites the data of its key. */
  lemma DataChanged(shape: map<Path, int>, tails: seq<TailBlock>, m: map<Key, int>, q: Path, t: int, tails': seq<TailBlock>, data: int)
    requires IsTrie(shape, tails) && Represents(shape, tails, m) && IsLeaf(shape, q) && TailAt(shape, q) == t
    requires Live(tails, t) && tails' == tails[t - 1 := tails[t - 1].(data := data)]
    ensures IsTrie(shape, tails') && Represents(shape, tails', m[KeyAt(shape, tails, q) := data])
    ensures KeyAt(shape, tails, q) in m
  {
    DataOnly(tails, t, tails', data);
    hide SuffixAt, DataAt, OwnsBlock, KeyOf, IsShape;
    var k := KeyAt(shape, tails, q);
    var m' := m[k := data];
    forall p {:trigger IsLeaf(shape, p)} | IsLeaf(shape, p)
      ensures OwnsBlock(p, tails', TailAt(shape, p)) && KeyAt(shape, tails', p) == KeyAt(shape, tails, p)
      ensures KeyAt(shape, tails', p) in m' && m'[KeyAt(shape, tails', p)] == DataAt(tails', TailAt(shape, p))
    {
      LeafOwns(shape, tails, p);
      if p != q {
        DistinctKeys(shape, tails, p, q);
      }
    }
    forall e | e in m'
      ensures exists p {:trigger IsLeaf(shape, p)} :: IsLeaf(shape, p) && KeyAt(shape, tails', p) == e
    {
      var p :| IsLeaf(shape, p) && KeyAt(shape, tails, p) == e;
    }
  }

  /** The way of a key that leaves the old suffix `s` after `j` characters. */
  lemma WayLeavesSuffix(q: Path, s: seq<int>, j: int, k: Key, i: int)
    requires 0 <= i <= |k| && q == k[..i]
    requires 0 <= j <= |s| && j <= |k| - i && s[..j] == k[i..][..j] && CharAt(s, j) != CharAt(k[i..], j)
    ensures var u, w := s[..j] + [CharAt(s, j)], k + [0];
            && w[..i + j] == q + s[..j] && w[..i + j] != q + u && Between(q, w[..i + j], u)
            && q <= w[..i + j + 1] && q != w[..i + j + 1] && !Between(q, w[..i + j + 1], u)
  {
    var u, w := s[..j] + [CharAt(s, j)], k + [0];
    assert w[..i + j] == q + s[..j] == (q + u)[..i + j];
    assert w[..i + j + 1][i + j] == CharAt(k[i..], j) && (q + u)[i + j] == CharAt(s, j);
    assert q == w[..i + j + 1][..i];
  }

  /** After a split at position `j` the way of a key that agrees with the old suffix up
      to there, and not further, ends at the split. */
  lemma SplitWayEnds(shape: map<Path, int>, q: Path, s: seq<int>, j: int, v: int, k: Key, i: int)
    requires IsShape(shape) && IsLeaf(shape, q) && 0 <= i <= |k| && q == k[..i]
    requires 0 <= j <= |s| && j <= |k| - i && s[..j] == k[i..][..j] && CharAt(s, j) != CharAt(k[i..], j)
    ensures (k + [0])[..i + j] == q + s[..j]
    ensures WayEnds(Grow(shape, q, s[..j] + [CharAt(s, j)], v), k, i + j)
  {
    var u, w := s[..j] + [CharAt(s, j)], k + [0];
    WayLeavesSuffix(q, s, j, k, i);
    GrowAt(shape, q, u, v);
    GrowFromLeaf(shape, q, u, w[..i + j + 1]);
    hide Between, Grow;
    assert w[..i + j] in Grow(shape, q, u, v);
    assert w[..i + j + 1] !in Grow(shape, q, u, v);
  }

  // ---- no dead branches ----

  /** Every inner node but the root leads on to another node. */
  ghost predicate NoDeadEnds(shape: map<Path, int>) {
    forall q {:trigger Childless(shape, q)} :: q in shape && q != [] && shape[q] == INNER ==> !Childless(shape, q)
  }

  /** A node that has a child in one shape has it in any that keeps the child. */
  lemma StillHasChild(shape: map<Path, int>, shape': map<Path, int>, q: Path)
    requires !Childless(shape, q) && forall r {:trigger r in shape} :: r in shape ==> r in shape'
    ensures !Childless(shape', q)
  {
    var r :| r in shape && r != [] && Init(r) == q;
    assert r in shape';
  }

  lemma LeafAddsNoDeadEnd(shape: map<Path, int>, p: Path, v: int)
    requires NoDeadEnds(shape) && v != INNER
    ensures NoDeadEnds(shape[p := v])
  {
    hide Childless;
    forall q {:trigger Childless(shape[p := v], q)} | q in shape[p := v] && q != [] && shape[p := v][q] == INNER
      ensures !Childless(shape[p := v], q)
    {
      StillHasChild(shape, shape[p := v], q);
    }
  }

  lemma GrowAddsNoDeadEnd(shape: map<Path, int>, q: Path, u: seq<int>, v: int)
    requires NoDeadEnds(shape) && v != INNER
    ensures NoDeadEnds(Grow(shape, q, u, v))
  {
    hide Childless, Grow, Between;
    var s := Grow(shape, q, u, v);
    GrowAt(shape, q, u, v);
    forall p {:trigger Childless(s, p)} | p in s && p != [] && s[p] == INNER
      ensures !Childless(s, p)
    {
      if Between(q, p, u) && p != q + u {
        NextOnWay(q, p, u);
        ChildIs(s, (q + u)[..|p| + 1], p);
      } else {
        StillHasChild(shape, s, p);
      }
    }
  }

  lemma NextOnWay(q: Path, p: Path, u: seq<int>)
    requires Between(q, p, u) && p != q + u
    ensures |p| < |q + u| && Between(q, (q + u)[..|p| + 1], u) && Init((q + u)[..|p| + 1]) == p
  {
    assert p == (q + u)[..|p|];
  }

  lemma ChildIs(shape: map<Path, int>, r: Path, p: Path)
    requires r in shape && r != [] && Init(r) == p
    ensures !Childless(shape, p)
  {
  }

  /** Pruning as far as possible leaves no dead end. */
  lemma PruneLeavesNoDeadEnd(shape: map<Path, int>, q: Path, top: int)
    requires NoDeadEnds(shape) && 0 <= top <= |q|
    requires top == 0 || !Childless(Pruned(shape, q, top), q[..top])
    ensures NoDeadEnds(Pruned(shape, q, top))
  {
    var s := Pruned(shape, q, top);
    hide NoDeadEnds, Childless;
    assert forall p {:trigger Childless(s, p)} :: p in s && p != [] && s[p] == INNER ==> !Childless(s, p) by {
      forall p {:trigger Childless(s, p)} | p in s && p != [] && s[p] == INNER
        ensures !Childless(s, p)
      {
        KeptHasChild(shape, q, top, p);
      }
    }
    IsNoDeadEnds(s);
  }

  lemma IsNoDeadEnds(s: map<Path, int>)
    requires forall p {:trigger Childless(s, p)} :: p in s && p != [] && s[p] == INNER ==> !Childless(s, p)
    ensures NoDeadEnds(s)
  {
    hide Childless;
  }

  lemma KeptHasChild(shape: map<Path, int>, q: Path, top: int, p: Path)
    requires NoDeadEnds(shape) && 0 <= top <= |q| && p in Pruned(shape, q, top) && p != [] && shape[p] == INNER
    requires top == 0 || !Childless(Pruned(shape, q, top), q[..top])
    ensures !Childless(Pruned(shape, q, top), p)
  {
    assert !Childless(shape, p);
    var r :| r in shape && r != [] && Init(r) == p;
    hide NoDeadEnds;
    if r <= q && top < |r| {
      assert p == r[..|r| - 1] == q[..|r| - 1];
      assert |p| == top;
    } else {
      ChildIs(Pruned(shape, q, top), r, p);
    }
  }
}
