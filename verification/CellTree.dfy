/** The tree stored in the used cells.  Two inverse maps name the nodes: `path`
    sends a cell index to the labels on the way from the root to it, `node` sends
    such a label sequence back to the index. */
module CellTree {
  import opened FreeList

  const INNER := 1  // the kind of a node that has a positive BASE

  type Path = seq<int>

  function Init(q: Path): Path { if q == [] then [] else q[..|q| - 1] }

  function Last(q: Path): int { if q == [] then -1 else q[|q| - 1] }

  lemma Snoc(q: Path, c: int)
    ensures Init(q + [c]) == q && Last(q + [c]) == c && q + [c] != []
  {
  }

  /** The used cells are exactly the nodes, named by inverse maps; CHECK of a node
      is its parent and the name of a node extends the name of its parent by one
      label, which is less than TRIE_CHAR_MAX. */
  ghost predicate IsTree(d: seq<Cell>, path: map<int, Path>, node: map<Path, int>) {
    && POOL_BEGIN <= |d|
    && [] in node && node[[]] == ROOT && POOL_BEGIN <= Base(d, ROOT) && Check(d, ROOT) == 0
    && (forall x {:trigger x in path} :: x in path <==> x == ROOT || (POOL_BEGIN <= x < |d| && !Free(d, x)))
    && (forall x {:trigger path[x]} :: x in path ==> path[x] in node && node[path[x]] == x)
    && (forall x {:trigger Base(d, x)} :: x in path ==> Base(d, x) <= 0 || POOL_BEGIN <= Base(d, x))
    && (forall q {:trigger node[q]} :: q in node ==> node[q] in path && path[node[q]] == q)
    && (forall q {:trigger Init(q)} :: q in node && q != [] ==>
          && Init(q) in node
          && Check(d, node[q]) == node[Init(q)]
          && 0 <= Last(q) < TRIE_CHAR_MAX
          && 0 < Base(d, node[Init(q)]))
  }

  /** Every node lies at the BASE of its parent plus its label, where the children
      of `s` with a label in `moved` already use the base `nb`. */
  ghost predicate PlacedBut(d: seq<Cell>, node: map<Path, int>, s: int, moved: set<int>, nb: int) {
    forall q {:trigger Init(q)} :: q in node && q != [] && Init(q) in node ==>
      node[q] == (if node[Init(q)] == s && Last(q) in moved then nb else Base(d, node[Init(q)])) + Last(q)
  }

  ghost predicate Placed(d: seq<Cell>, node: map<Path, int>) {
    PlacedBut(d, node, ROOT, {}, 0)
  }

  lemma NothingMoved(d: seq<Cell>, node: map<Path, int>, s: int, nb: int)
    requires Placed(d, node)
    ensures PlacedBut(d, node, s, {}, nb)
  {
  }

  /** What a node is to the layer above: an inner node, or minus a tail index. */
  function Kind(base: int): int { if base > 0 then INNER else base }

  /** The meaning of the cells: the set of label paths with the kind of each node. */
  ghost function Shape(d: seq<Cell>, node: map<Path, int>): map<Path, int> {
    map q | q in node :: Kind(Base(d, node[q]))
  }

  lemma ShapeAt(d: seq<Cell>, path: map<int, Path>, node: map<Path, int>, x: int)
    requires IsTree(d, path, node) && x in path
    ensures path[x] in Shape(d, node) && Shape(d, node)[path[x]] == Kind(Base(d, x))
    ensures ROOT <= x < |d|
  {
    assert node[path[x]] == x;
  }

  lemma SameName(d: seq<Cell>, path: map<int, Path>, node: map<Path, int>, x: int, y: int)
    requires IsTree(d, path, node) && x in path && y in path
    ensures x == y <==> path[x] == path[y]
    ensures path[ROOT] == [] && ROOT in path
  {
    assert node[path[x]] == x && node[path[y]] == y;
    assert path[node[[]]] == [];
  }

  lemma NameAt(d: seq<Cell>, path: map<int, Path>, node: map<Path, int>, q: Path)
    requires IsTree(d, path, node) && q in node
    ensures node[q] in path && path[node[q]] == q
  {
  }

  lemma BaseInPool(d: seq<Cell>, path: map<int, Path>, node: map<Path, int>, x: int)
    requires IsTree(d, path, node) && x in path && 0 < Base(d, x)
    ensures POOL_BEGIN <= Base(d, x)
  {
  }

  lemma ParentOf(d: seq<Cell>, path: map<int, Path>, node: map<Path, int>, x: int)
    requires IsTree(d, path, node) && x in path && x != ROOT
    ensures path[x] != [] && Init(path[x]) in node && Check(d, x) == node[Init(path[x])]
    ensures Check(d, x) in path && path[Check(d, x)] == Init(path[x])
  {
    assert node[path[x]] == x;
    var p := node[Init(path[x])];
  }

  /** The distance of a node from its parent's BASE is its label. */
  lemma LabelOf(d: seq<Cell>, path: map<int, Path>, node: map<Path, int>, x: int)
    requires IsTree(d, path, node) && Placed(d, node) && x in path && x != ROOT
    ensures Check(d, x) in path && path[x] == path[Check(d, x)] + [x - Base(d, Check(d, x))]
  {
    ParentOf(d, path, node, x);
    assert node[path[x]] == x;
    assert path[x] == Init(path[x]) + [Last(path[x])];
  }

  /** The cell at BASE[x] + c has CHECK x exactly when x has a child labelled c, and
      then it is that child; no child has a label outside 0..254. */
  lemma ChildAt(d: seq<Cell>, path: map<int, Path>, node: map<Path, int>, x: int, c: int)
    requires IsTree(d, path, node) && Placed(d, node) && x in path && 0 < Base(d, x) && 0 <= c
    ensures Check(d, Base(d, x) + c) == x <==> path[x] + [c] in node
    ensures path[x] + [c] in node ==> node[path[x] + [c]] == Base(d, x) + c && c < TRIE_CHAR_MAX
  {
    var y := Base(d, x) + c;
    Snoc(path[x], c);
    assert node[path[x]] == x;
    if Check(d, y) == x {
      assert y in path;
      ParentOf(d, path, node, y);
      assert node[path[y]] == y;
      assert path[y] == Init(path[y]) + [Last(path[y])];
    }
  }

  /** What the scans over labels test. */
  predicate LeadsOn(d: seq<Cell>, s: int, c: int) {
    Check(d, Base(d, s) + c) == s
  }

  lemma NoChildren(d: seq<Cell>, path: map<int, Path>, node: map<Path, int>, x: int)
    requires IsTree(d, path, node) && x in path && Base(d, x) <= 0
    ensures Childless(node, path[x])
    ensures forall c :: path[x] + [c] !in node
  {
    forall c
      ensures path[x] + [c] !in node
    {
      Snoc(path[x], c);
    }
  }

  /** A label that leads on from `x` passes every test a scan over labels makes. */
  lemma LabelsInWindow(d: seq<Cell>, path: map<int, Path>, node: map<Path, int>, x: int, c: int)
    requires IsPool(d) && IsTree(d, path, node) && Placed(d, node) && x in path
    ensures path[x] + [c] in node ==> && 0 <= c < TRIE_CHAR_MAX
                                      && c < TRIE_INDEX_MAX - Base(d, x)
                                      && Check(d, Base(d, x) + c) == x
  {
    Snoc(path[x], c);
    if path[x] + [c] in node {
      assert node[path[x]] == x;
      assert node[path[x] + [c]] in path;
    }
  }

  /** Cells that are not nodes do not matter. */
  lemma TreeFrame(d: seq<Cell>, d': seq<Cell>, path: map<int, Path>, node: map<Path, int>, s: int, moved: set<int>, nb: int)
    requires IsTree(d, path, node) && PlacedBut(d, node, s, moved, nb) && |d| <= |d'|
    requires forall x :: POOL_BEGIN <= x < |d'| ==> (Free(d', x) <==> x !in path)
    requires forall x {:trigger x in path} :: x in path ==> Base(d', x) == Base(d, x) && Check(d', x) == Check(d, x)
    ensures IsTree(d', path, node) && PlacedBut(d', node, s, moved, nb)
    ensures Shape(d', node) == Shape(d, node)
  {
    forall q | q in node
      ensures node[q] in path && (q != [] ==> node[Init(q)] in path)
    {
      assert node[Init(q)] in path;
    }
  }

  lemma GrownKeepsTree(d: seq<Cell>, d': seq<Cell>, path: map<int, Path>, node: map<Path, int>)
    requires IsPool(d) && IsTree(d, path, node) && Placed(d, node) && Grown(d, d')
    ensures IsPool(d') && IsTree(d', path, node) && Placed(d', node) && Shape(d', node) == Shape(d, node)
    ensures forall x :: x in path ==> Base(d', x) == Base(d, x) && Check(d', x) == Check(d, x)
  {
    forall x {:trigger x in path} | x in path
      ensures Base(d', x) == Base(d, x) && Check(d', x) == Check(d, x)
    {
      assert d'[x] == d[x];
    }
    TreeFrame(d, d', path, node, ROOT, {}, 0);
  }

  /** `d'` is `d` with the child `x` of `s` moved to the free cell `y`. */
  ghost predicate MovedChild(d: seq<Cell>, d': seq<Cell>, path: map<int, Path>, s: int, x: int, y: int) {
    && |d'| == |d|
    && Check(d', y) == s && Base(d', y) == Base(d, x)
    && (forall z {:trigger Free(d', z)} :: Free(d', z) <==> (Free(d, z) && z != y) || z == x)
    && (forall z {:trigger z in path} :: z in path && z != x ==>
          && Base(d', z) == Base(d, z)
          && Check(d', z) == if Check(d, z) == x then y else Check(d, z))
  }

  /** The children of a node other than `s` lie in the window of labels from its base on. */
  lemma ChildInWindow(d: seq<Cell>, path: map<int, Path>, node: map<Path, int>, s: int, moved: set<int>, nb: int, x: int, z: int)
    requires IsTree(d, path, node) && PlacedBut(d, node, s, moved, nb) && x in path && x != s
    requires z in path && Check(d, z) == x
    ensures 0 < Base(d, x) <= z < Base(d, x) + TRIE_CHAR_MAX
  {
    ParentOf(d, path, node, z);
    assert node[path[z]] == z;
  }

  lemma MoveKeepsTree(d: seq<Cell>, d': seq<Cell>, path: map<int, Path>, node: map<Path, int>, path': map<int, Path>, node': map<Path, int>,
                      s: int, c: int, x: int, y: int)
    requires IsTree(d, path, node) && s in path && path[s] + [c] in node && node[path[s] + [c]] == x
    requires Free(d, y) && MovedChild(d, d', path, s, x, y)
    requires path' == (path - {x})[y := path[s] + [c]] && node' == node[path[s] + [c] := y]
    ensures IsTree(d', path', node')
  {
    var q := path[s] + [c];
    Snoc(path[s], c);
    assert node[path[s]] == s;
    assert node[q] == x;
    forall p | p in node' && p != []
      ensures && Init(p) in node'
              && Check(d', node'[p]) == node'[Init(p)]
              && 0 <= Last(p) < TRIE_CHAR_MAX
              && 0 < Base(d', node'[Init(p)])
    {
      assert Init(p) in node;
      assert node[p] in path && node[Init(p)] in path;
    }
  }

  lemma MoveKeepsPlaced(d: seq<Cell>, d': seq<Cell>, path: map<int, Path>, node: map<Path, int>, node': map<Path, int>,
                        s: int, c: int, x: int, y: int, moved: set<int>, nb: int)
    requires IsTree(d, path, node) && s in path && path[s] + [c] in node && node[path[s] + [c]] == x
    requires PlacedBut(d, node, s, moved, nb) && c !in moved && y == nb + c
    requires Free(d, y) && MovedChild(d, d', path, s, x, y)
    requires node' == node[path[s] + [c] := y]
    ensures PlacedBut(d', node', s, moved + {c}, nb)
    ensures Shape(d', node') == Shape(d, node)
  {
    var q := path[s] + [c];
    Snoc(path[s], c);
    assert node[path[s]] == s && node[q] == x;
    forall p | p in node'
      ensures Base(d', node'[p]) == Base(d, node[p])
    {
      assert node[p] in path && path[node[p]] == p;
    }
    forall p | p in node' && p != [] && Init(p) in node'
      ensures node'[p] == (if node'[Init(p)] == s && Last(p) in moved + {c} then nb else Base(d', node'[Init(p)])) + Last(p)
    {
      assert node[Init(p)] in path && path[node[Init(p)]] == Init(p);
      assert p == Init(p) + [Last(p)];
    }
  }

  /** Every child of `s` already lies where the base `v` puts it. */
  ghost predicate ChildrenAt(path: map<int, Path>, node: map<Path, int>, s: int, v: int)
    requires s in path
  {
    forall q {:trigger Init(q)} :: q in node && q != [] && Init(q) == path[s] ==>
      0 < v && node[q] == v + Last(q)
  }

  /** The index and the name of a node determine each other, also for its parent. */
  lemma NameOfParent(d: seq<Cell>, path: map<int, Path>, node: map<Path, int>, q: Path, s: int)
    requires IsTree(d, path, node) && q in node && s in path
    ensures node[q] in path && (q == path[s] <==> node[q] == s)
    ensures q != [] ==> Init(q) in node && node[Init(q)] in path && (Init(q) == path[s] <==> node[Init(q)] == s)
  {
    assert path[node[q]] == q && node[path[s]] == s;
    if q != [] {
      assert path[node[Init(q)]] == Init(q);
    }
  }

  lemma SetBaseKeepsTree(d: seq<Cell>, path: map<int, Path>, node: map<Path, int>, s: int, v: int, moved: set<int>, nb: int)
    requires IsTree(d, path, node) && PlacedBut(d, node, s, moved, nb) && s in path
    requires ChildrenAt(path, node, s, v) && (POOL_BEGIN <= v || (v <= 0 && s != ROOT))
    ensures IsTree(SetBase(d, s, v), path, node) && Placed(SetBase(d, s, v), node)
    ensures Shape(SetBase(d, s, v), node) == Shape(d, node)[path[s] := Kind(v)]
  {
    var d' := SetBase(d, s, v);
    assert forall x :: Free(d', x) <==> Free(d, x);
    assert forall x {:trigger Base(d', x)} :: Base(d', x) == if x == s then v else Base(d, x);
    assert forall x {:trigger Check(d', x)} :: Check(d', x) == Check(d, x);
    forall q | q in node
      ensures q == path[s] <==> node[q] == s
      ensures q != [] ==> && Init(q) in node
                          && 0 < Base(d', node[Init(q)])
                          && node[q] == Base(d', node[Init(q)]) + Last(q)
    {
      NameOfParent(d, path, node, q, s);
    }
  }

  /** `d'` is `d` with the free cell `y` made a child of `s`. */
  ghost predicate Attached(d: seq<Cell>, d': seq<Cell>, path: map<int, Path>, s: int, y: int) {
    && |d'| == |d|
    && Check(d', y) == s && Base(d', y) <= 0
    && (forall z {:trigger Free(d', z)} :: Free(d', z) <==> Free(d, z) && z != y)
    && (forall z {:trigger z in path} :: z in path ==> Base(d', z) == Base(d, z) && Check(d', z) == Check(d, z))
  }

  lemma AttachKeepsTree(d: seq<Cell>, d': seq<Cell>, path: map<int, Path>, node: map<Path, int>, path': map<int, Path>, node': map<Path, int>,
                        s: int, c: int, y: int)
    requires IsTree(d, path, node) && Placed(d, node) && s in path && path[s] + [c] !in node && 0 <= c < TRIE_CHAR_MAX
    requires Free(d, y) && Attached(d, d', path, s, y) && y == Base(d, s) + c && POOL_BEGIN <= Base(d, s)
    requires path' == path[y := path[s] + [c]] && node' == node[path[s] + [c] := y]
    ensures IsTree(d', path', node')
  {
    var q := path[s] + [c];
    Snoc(path[s], c);
    assert node[path[s]] == s;
    forall p | p in node' && p != []
      ensures && Init(p) in node'
              && Check(d', node'[p]) == node'[Init(p)]
              && 0 <= Last(p) < TRIE_CHAR_MAX
              && 0 < Base(d', node'[Init(p)])
    {
      if p != q {
        NameOfParent(d, path, node, p, s);
      }
    }
  }

  lemma AttachKeepsPlaced(d: seq<Cell>, d': seq<Cell>, path: map<int, Path>, node: map<Path, int>, node': map<Path, int>,
                          s: int, c: int, y: int)
    requires IsTree(d, path, node) && Placed(d, node) && s in path && path[s] + [c] !in node && 0 <= c < TRIE_CHAR_MAX
    requires Free(d, y) && Attached(d, d', path, s, y) && y == Base(d, s) + c && POOL_BEGIN <= Base(d, s)
    requires node' == node[path[s] + [c] := y]
    ensures Placed(d', node')
    ensures Shape(d', node') == Shape(d, node)[path[s] + [c] := Kind(Base(d', y))]
  {
    var q := path[s] + [c];
    Snoc(path[s], c);
    assert node[path[s]] == s;
    forall p | p in node
      ensures node'[p] == node[p] && node[p] in path
      ensures p != [] ==> Init(p) in node && Init(p) != q && node'[Init(p)] == node[Init(p)] && node[Init(p)] in path
    {
      NameOfParent(d, path, node, p, s);
    }
  }

  lemma DetachKeepsTree(d: seq<Cell>, d': seq<Cell>, path: map<int, Path>, node: map<Path, int>, x: int)
    requires IsTree(d, path, node) && Placed(d, node) && x in path && x != ROOT
    requires Childless(node, path[x])
    requires |d'| == |d| && forall z {:trigger Free(d', z)} :: Free(d', z) <==> Free(d, z) || z == x
    requires forall z {:trigger z in path} :: z in path && z != x ==> Base(d', z) == Base(d, z) && Check(d', z) == Check(d, z)
    ensures IsTree(d', path - {x}, node - {path[x]}) && Placed(d', node - {path[x]})
    ensures Shape(d', node - {path[x]}) == Shape(d, node) - {path[x]}
  {
    var node' := node - {path[x]};
    assert node[path[x]] == x;
    forall p | p in node'
      ensures node[p] in path && node[p] != x
      ensures p != [] ==> && Init(p) in node'
                          && Check(d', node[p]) == node[Init(p)]
                          && 0 <= Last(p) < TRIE_CHAR_MAX
                          && 0 < Base(d', node[Init(p)])
                          && node[p] == Base(d', node[Init(p)]) + Last(p)
    {
      NameOfParent(d, path, node, p, x);
    }
  }

  ghost predicate Childless(node: map<Path, int>, q: Path) {
    forall r {:trigger Init(r)} :: r in node && r != [] ==> Init(r) != q
  }

  /** `m` without the paths that are prefixes of `q` longer than `top`. */
  ghost function Pruned(m: map<Path, int>, q: Path, top: int): map<Path, int> {
    map r | r in m && !(r <= q && top < |r|) :: m[r]
  }

  /** Of the paths that `Pruned` drops, none leads to a path that is kept. */
  ghost predicate Prunable(m: map<Path, int>, q: Path, top: int) {
    forall r {:trigger Init(r)} :: r in m && r != [] && Init(r) <= q && top < |Init(r)| ==> r <= q
  }

  lemma PrunedNothing(m: map<Path, int>, q: Path)
    ensures Pruned(m, q, |q|) == m && Prunable(m, q, |q|)
  {
  }

  lemma PrunedKeys(m: map<Path, int>, q: Path, k: int)
    requires 0 < k <= |q|
    ensures Pruned(m, q, k) - {q[..k]} == Pruned(m, q, k - 1)
  {
    forall r | r in m
      ensures (r <= q && k - 1 < |r|) <==> (r <= q && k < |r|) || r == q[..k]
    {
    }
  }

  lemma PrunedStep(m: map<Path, int>, q: Path, k: int)
    requires 0 < k <= |q| && Prunable(m, q, k)
    requires Childless(Pruned(m, q, k), q[..k])
    ensures Pruned(m, q, k) - {q[..k]} == Pruned(m, q, k - 1)
    ensures Prunable(m, q, k - 1)
  {
    PrunedKeys(m, q, k);
    forall r | r in m && r != [] && Init(r) <= q && k - 1 < |Init(r)|
      ensures r <= q
    {
      if Init(r) == q[..k] {
        assert r !in Pruned(m, q, k);
      }
    }
  }

  /** A node that is not a child of `q` keeps its name when the children of `q` move. */
  lemma KeptNames(path: map<int, Path>, node: map<Path, int>, d': seq<Cell>, path': map<int, Path>, node': map<Path, int>, q: Path)
    requires IsTree(d', path', node')
    requires forall x {:trigger path[x]} :: x in path ==> path[x] in node && node[path[x]] == x
    requires forall p {:trigger p in node} :: p in node && (p == [] || Init(p) != q) ==> p in node' && node'[p] == node[p]
    ensures forall x {:trigger path[x]} {:trigger path'[x]} :: x in path && (path[x] == [] || Init(path[x]) != q) ==> x in path' && path'[x] == path[x]
  {
    forall x | x in path && (path[x] == [] || Init(path[x]) != q)
      ensures x in path' && path'[x] == path[x]
    {
      assert path[x] in node;
      assert path'[node'[path[x]]] == path[x];
    }
  }

  /** A scan over all labels that finds none proves that the node has no children. */
  lemma ScanFindsNone(d: seq<Cell>, path: map<int, Path>, node: map<Path, int>, x: int, maxC: int)
    requires IsPool(d) && IsTree(d, path, node) && Placed(d, node) && x in path
    requires maxC == (if TRIE_CHAR_MAX < TRIE_INDEX_MAX - Base(d, x) then TRIE_CHAR_MAX else TRIE_INDEX_MAX - Base(d, x))
    requires forall e :: 0 <= e < maxC ==> !LeadsOn(d, x, e)
    ensures Childless(node, path[x])
  {
    forall r | r in node && r != []
      ensures Init(r) != path[x]
    {
      var e := Last(r);
      assert r == Init(r) + [e];
      assert !LeadsOn(d, x, e) || maxC <= e || e < 0;
      LabelsInWindow(d, path, node, x, e);
    }
  }
}
