/** The double array: the trie nodes and the free cells in one growable array. */
module DoubleArray {
  import opened FreeList
  import opened CellTree

  /** Symbols are kept as a strictly ascending list. */
  ghost predicate Ascending(symbols: seq<int>) {
    forall i, j :: 0 <= i < j < |symbols| ==> symbols[i] < symbols[j]
  }

  ghost predicate IsSymbols(symbols: seq<int>) {
    && Ascending(symbols)
    && forall c :: c in symbols ==> 0 <= c < TRIE_CHAR_MAX
  }

  /** Adds `c` to the sorted list by binary search. */
  method SymbolsAdd(symbols: seq<int>, c: int) returns (r: seq<int>)
    requires Ascending(symbols)
    ensures Ascending(r)
    ensures forall x :: x in r <==> x in symbols || x == c
  {
    var lower, upper := 0, |symbols|;
    while lower < upper
      invariant 0 <= lower <= upper <= |symbols|
      invariant forall i :: 0 <= i < lower ==> symbols[i] < c
      invariant forall i :: upper <= i < |symbols| ==> c < symbols[i]
    {
      var middle := (lower + upper) / 2;
      if c > symbols[middle] {
        lower := middle + 1;
      } else if c < symbols[middle] {
        upper := middle;
      } else {
        return symbols;
      }
    }
    r := symbols[..lower] + [c] + symbols[lower..];
    assert forall x :: x in symbols <==> x in symbols[..lower] || x in symbols[lower..];
  }

  predicate FreeAt(d: seq<Cell>, base: int, c: int) {
    Free(d, base + c)
  }

  /** No symbol of the list would land on a used cell or past the last index. */
  ghost predicate Fits(d: seq<Cell>, base: int, symbols: seq<int>) {
    forall c :: c in symbols ==> FreeAt(d, base, c)
  }

  ghost predicate Blocked(d: seq<Cell>, base: int, symbols: seq<int>) {
    exists c :: c in symbols && (TRIE_INDEX_MAX <= base + c || (base + c < |d| && !Free(d, base + c)))
  }

  ghost predicate BlockedBelow(d: seq<Cell>, base: int, symbols: seq<int>) {
    forall b :: POOL_BEGIN <= b < base ==> Blocked(d, b, symbols)
  }

  lemma BlockedBelowStays(d: seq<Cell>, d': seq<Cell>, base: int, symbols: seq<int>)
    requires BlockedBelow(d, base, symbols) && Grown(d, d')
    ensures BlockedBelow(d', base, symbols)
  {
    forall b | POOL_BEGIN <= b < base
      ensures Blocked(d', b, symbols)
    {
      assert Blocked(d, b, symbols);
      var c :| c in symbols && (TRIE_INDEX_MAX <= b + c || (b + c < |d| && !Free(d, b + c)));
      assert !Free(d, b + c) && b + c < |d| ==> !Free(d', b + c);
    }
  }

  /** Bases whose first symbol meets no free cell are blocked. */
  lemma NoFreeBlocks(d: seq<Cell>, low: int, high: int, symbols: seq<int>)
    requires POOL_BEGIN <= low && symbols != [] && BlockedBelow(d, low, symbols)
    requires forall x :: low + symbols[0] <= x < high + symbols[0] ==> !Free(d, x)
    requires high + symbols[0] <= |d| || |d| == TRIE_INDEX_MAX
    ensures BlockedBelow(d, high, symbols)
  {
    forall b | POOL_BEGIN <= b < high
      ensures Blocked(d, b, symbols)
    {
      if low <= b {
        assert symbols[0] in symbols && !Free(d, b + symbols[0]);
      }
    }
  }

  /** `d2` is `d1` with the children of `x`, which lie from its base on, given to `y`. */
  ghost predicate Reparented(d1: seq<Cell>, d2: seq<Cell>, x: int, y: int) {
    && |d2| == |d1|
    && var base := Base(d1, x);
       forall z {:trigger d2[z]} :: 0 <= z < |d2| ==>
         d2[z] == if 0 < base <= z < base + TRIE_CHAR_MAX && d1[z].check == x then d1[z].(check := y) else d1[z]
  }

  lemma ReparentedIsPool(d1: seq<Cell>, d2: seq<Cell>, x: int, y: int)
    requires IsPool(d1) && Reparented(d1, d2, x, y) && ROOT <= x && 0 <= y && (Base(d1, x) <= 0 || POOL_BEGIN <= Base(d1, x))
    ensures IsPool(d2)
    ensures forall z {:trigger Free(d2, z)} :: Free(d2, z) <==> Free(d1, z)
  {
    UsedCellsOnly(d1, d2);
  }

  lemma StepsMoveChild(d: seq<Cell>, d1: seq<Cell>, d2: seq<Cell>, d3: seq<Cell>, path: map<int, Path>, node: map<Path, int>,
                       s: int, moved: set<int>, nb: int, x: int, y: int)
    requires IsTree(d, path, node) && PlacedBut(d, node, s, moved, nb) && s in path && x in path && x != s && Free(d, y)
    requires SameBut(d, d1, y) && d1[y] == Cell(Base(d, x), s)
    requires forall z {:trigger Free(d1, z)} :: Free(d1, z) <==> Free(d, z) && z != y
    requires Reparented(d1, d2, x, y)
    requires forall z {:trigger Free(d2, z)} :: Free(d2, z) <==> Free(d1, z)
    requires SameBut(d2, d3, x)
    requires forall z {:trigger Free(d3, z)} :: Free(d3, z) <==> Free(d2, z) || z == x
    ensures MovedChild(d, d3, path, s, x, y)
  {
    assert d1[x] == d[x];
    assert d3[y] == d2[y] == d1[y];
    forall z | z in path && z != x
      ensures Base(d3, z) == Base(d, z) && Check(d3, z) == if Check(d, z) == x then y else Check(d, z)
    {
      assert d3[z] == d2[z] && d1[z] == d[z];
      if Check(d, z) == x {
        ChildInWindow(d, path, node, s, moved, nb, x, z);
      }
    }
  }

  /** `node` with the children of `q` that have a label in `labels` placed at `base`. */
  ghost function Renamed(node: map<Path, int>, q: Path, labels: set<int>, base: int): map<Path, int> {
    map p | p in node :: if p != [] && Init(p) == q && Last(p) in labels then base + Last(p) else node[p]
  }

  ghost function RenamedAll(node: map<Path, int>, q: Path, base: int): map<Path, int> {
    map p | p in node :: if p != [] && Init(p) == q then base + Last(p) else node[p]
  }

  ghost function Elements(symbols: seq<int>): set<int> { set c | c in symbols }

  ghost predicate HasLabels(symbols: seq<int>, node: map<Path, int>, q: Path, c: int) {
    forall e :: e in symbols <==> q + [e] in node || e == c
  }

  /** The pool has its largest size and wherever the branches of `q` and a branch
      `c` were put together, one of them would meet a used cell or the last index. */
  ghost predicate NoRoom(d: seq<Cell>, node: map<Path, int>, q: Path, c: int) {
    && |d| == TRIE_INDEX_MAX
    && exists symbols :: HasLabels(symbols, node, q, c) && BlockedBelow(d, TRIE_INDEX_MAX, symbols)
  }

  /** A relocation: the cells and the nodes at its start, the node whose children
      move, by name and by index, and the two bases. */
  datatype Move = Move(d: seq<Cell>, node: map<Path, int>, q: Path, s: int, oldBase: int, newBase: int)

  ghost predicate StillFree(d0: seq<Cell>, d: seq<Cell>, base: int, but: set<int>) {
    forall c {:trigger FreeAt(d, base, c)} :: FreeAt(d0, base, c) && c !in but ==> FreeAt(d, base, c)
  }

  lemma StillFreeStep(d0: seq<Cell>, d: seq<Cell>, d': seq<Cell>, base: int, moved: set<int>, c: int)
    requires StillFree(d0, d, base, moved)
    requires forall z {:trigger Free(d', z)} :: Free(d, z) && z != base + c ==> Free(d', z)
    ensures StillFree(d0, d', base, moved + {c})
  {
    forall e | FreeAt(d0, base, e) && e !in moved + {c}
      ensures FreeAt(d', base, e)
    {
      assert FreeAt(d, base, e);
    }
  }

  /** The state of a relocation when the children with a label in `moved` have moved. */
  ghost predicate Moving(d: seq<Cell>, path: map<int, Path>, node: map<Path, int>, g: Move, moved: set<int>) {
    && IsPool(d) && IsTree(d, path, node) && PlacedBut(d, node, g.s, moved, g.newBase)
    && |d| == |g.d| && Shape(d, node) == Shape(g.d, g.node)
    && g.s in path && path[g.s] == g.q && Base(d, g.s) == g.oldBase
    && node == Renamed(g.node, g.q, moved, g.newBase)
    && StillFree(g.d, d, g.newBase, moved)
  }

  lemma MovingStart(d: seq<Cell>, path: map<int, Path>, node: map<Path, int>, s: int, newBase: int)
    requires IsPool(d) && IsTree(d, path, node) && Placed(d, node) && s in path
    ensures Moving(d, path, node, Move(d, node, path[s], s, Base(d, s), newBase), {})
  {
    NothingMoved(d, node, s, newBase);
    assert node == Renamed(node, path[s], {}, newBase);
  }

  lemma MovingChild(d: seq<Cell>, path: map<int, Path>, node: map<Path, int>, g: Move, moved: set<int>, c: int)
    requires Moving(d, path, node, g, moved) && g.q + [c] in g.node && c !in moved
    ensures g.q + [c] in node && node[g.q + [c]] == g.oldBase + c
    ensures g.oldBase + c in path && g.oldBase + c != g.s && g.oldBase + c != ROOT && path[g.oldBase + c] == g.q + [c]
  {
    Snoc(g.q, c);
    NameOfParent(d, path, node, g.q + [c], g.s);
  }

  lemma RenamedStep(node0: map<Path, int>, q: Path, moved: set<int>, c: int, base: int)
    requires q + [c] in node0
    ensures Renamed(node0, q, moved, base)[q + [c] := base + c] == Renamed(node0, q, moved + {c}, base)
  {
    Snoc(q, c);
    forall p | p in node0 && p != q + [c]
      ensures Renamed(node0, q, moved, base)[p] == Renamed(node0, q, moved + {c}, base)[p]
    {
      assert p != [] && Init(p) == q ==> p == q + [Last(p)];
    }
  }

  /** The child of `g.s` with the label `c` moves to the new base. */
  ghost predicate MovesNext(d: seq<Cell>, d': seq<Cell>, path: map<int, Path>, node: map<Path, int>, path': map<int, Path>, node': map<Path, int>,
                            g: Move, moved: set<int>, c: int) {
    && Moving(d, path, node, g, moved) && g.q + [c] in node && FreeAt(d, g.newBase, c) && c !in moved
    && node[g.q + [c]] == g.oldBase + c
    && IsPool(d') && MovedChild(d, d', path, g.s, g.oldBase + c, g.newBase + c)
    && path' == (path - {g.oldBase + c})[g.newBase + c := g.q + [c]]
    && node' == node[g.q + [c] := g.newBase + c]
  }

  lemma NextTree(d: seq<Cell>, d': seq<Cell>, path: map<int, Path>, node: map<Path, int>, path': map<int, Path>, node': map<Path, int>,
                 g: Move, moved: set<int>, c: int)
    requires MovesNext(d, d', path, node, path', node', g, moved, c)
    ensures IsTree(d', path', node') && PlacedBut(d', node', g.s, moved + {c}, g.newBase) && Shape(d', node') == Shape(d, node)
  {
    hide IsPool, IsTree, PlacedBut, MovedChild, Renamed, StillFree;
    var x, y := g.oldBase + c, g.newBase + c;
    MoveKeepsTree(d, d', path, node, path', node', g.s, c, x, y);
    MoveKeepsPlaced(d, d', path, node, node', g.s, c, x, y, moved, g.newBase);
  }

  lemma NextSource(d: seq<Cell>, d': seq<Cell>, path: map<int, Path>, node: map<Path, int>, s: int, c: int, x: int, y: int)
    requires IsTree(d, path, node) && s in path && path[s] + [c] in node && node[path[s] + [c]] == x
    requires Free(d, y) && MovedChild(d, d', path, s, x, y)
    ensures s != x && s != y && Base(d', s) == Base(d, s)
  {
    NameOfParent(d, path, node, path[s] + [c], s);
  }

  lemma NextNames(d: seq<Cell>, d': seq<Cell>, path: map<int, Path>, node: map<Path, int>, path': map<int, Path>, node': map<Path, int>,
                  g: Move, moved: set<int>, c: int)
    requires MovesNext(d, d', path, node, path', node', g, moved, c)
    ensures g.s in path' && path'[g.s] == g.q && Base(d', g.s) == g.oldBase
    ensures node' == Renamed(g.node, g.q, moved + {c}, g.newBase) && StillFree(g.d, d', g.newBase, moved + {c})
  {
    hide IsPool, IsTree, PlacedBut, Shape;
    NextSource(d, d', path, node, g.s, c, g.oldBase + c, g.newBase + c);
    RenamedStep(g.node, g.q, moved, c, g.newBase);
    StillFreeStep(g.d, d, d', g.newBase, moved, c);
  }

  lemma MovingStep(d: seq<Cell>, d': seq<Cell>, path: map<int, Path>, node: map<Path, int>, path': map<int, Path>, node': map<Path, int>,
                   g: Move, moved: set<int>, c: int)
    requires MovesNext(d, d', path, node, path', node', g, moved, c)
    ensures Moving(d', path', node', g, moved + {c})
  {
    hide IsPool, IsTree, PlacedBut, Renamed, StillFree, Shape;
    NextTree(d, d', path, node, path', node', g, moved, c);
    NextNames(d, d', path, node, path', node', g, moved, c);
    hide MovedChild;
  }

  /** Nodes that are not children of `q` keep their names. */
  ghost predicate KeepsNames(path: map<int, Path>, path': map<int, Path>, q: Path) {
    forall x {:trigger path[x]} {:trigger path'[x]} :: x in path && (path[x] == [] || Init(path[x]) != q) ==> x in path' && path'[x] == path[x]
  }

  lemma RenamedKeepsNames(d: seq<Cell>, path: map<int, Path>, node: map<Path, int>,
                          d': seq<Cell>, path': map<int, Path>, node': map<Path, int>, q: Path, base: int)
    requires IsTree(d, path, node) && IsTree(d', path', node') && node' == RenamedAll(node, q, base)
    ensures KeepsNames(path, path', q)
  {
    KeptNames(path, node, d', path', node', q);
  }

  lemma AllRenamed(node0: map<Path, int>, node: map<Path, int>, q: Path, moved: set<int>, symbols: seq<int>, base: int)
    requires node == Renamed(node0, q, moved, base)
    requires forall c :: c in moved <==> c in symbols
    requires forall c :: c in symbols <==> q + [c] in node0
    ensures node == RenamedAll(node0, q, base)
  {
    forall p | p in node0 && p != [] && Init(p) == q
      ensures Last(p) in moved
    {
      assert p == q + [Last(p)];
    }
  }

  /** When all children have moved, assigning the new base restores the tree. */
  lemma AllMoved(d: seq<Cell>, path: map<int, Path>, node: map<Path, int>, g: Move, moved: set<int>, symbols: seq<int>)
    requires Moving(d, path, node, g, moved) && POOL_BEGIN <= g.newBase && 0 < g.oldBase
    requires forall c :: c in moved <==> c in symbols
    requires forall c :: c in symbols <==> g.q + [c] in g.node
    ensures node == RenamedAll(g.node, g.q, g.newBase)
    ensures ChildrenAt(path, node, g.s, g.newBase)
  {
    AllRenamed(g.node, node, g.q, moved, symbols, g.newBase);
    forall p | p in node && p != [] && Init(p) == g.q
      ensures node[p] == g.newBase + Last(p)
    {
    }
  }

  class DArray {
    var cells: seq<Cell>
    ghost var path: map<int, Path>
    ghost var node: map<Path, int>

    ghost predicate Valid()
      reads this
    {
      IsPool(cells) && IsTree(cells, path, node) && Placed(cells, node)
    }

    ghost function Shape(): map<Path, int>
      reads this
    {
      CellTree.Shape(cells, node)
    }

    constructor ()
      ensures Valid()
      ensures Shape() == map[[] := INNER]
    {
      cells := [Cell(DA_SIGNATURE, POOL_BEGIN), Cell(-1, -1), Cell(POOL_BEGIN, 0)];
      path := map[ROOT := []];
      node := map[[] := ROOT];
    }

    /** Cells that come from elsewhere, with the tree they are meant to hold. */
    constructor Loaded(cells: seq<Cell>, ghost path: map<int, Path>, ghost node: map<Path, int>)
      ensures this.cells == cells && this.path == path && this.node == node
    {
      this.cells, this.path, this.node := cells, path, node;
    }

    /** A larger block whose new cells hold anything. */
    method Realloc(size: nat)
      requires |cells| <= size
      modifies this`cells
      ensures |cells| == size && cells[..|old(cells)|] == old(cells)
    {
      cells := cells + seq(size - |cells|, _ => Cell(0, 0));
    }

    /** Links the new cells newBegin..to among themselves. */
    method LinkNewCells(newBegin: int, to: int)
      requires 0 <= newBegin <= to && |cells| == to + 1
      modifies this`cells
      ensures |cells| == to + 1 && cells[..newBegin] == old(cells)[..newBegin]
      ensures forall x {:trigger cells[x]} :: newBegin <= x < to ==> cells[x].check == -(x + 1)
      ensures forall x {:trigger cells[x]} :: newBegin < x <= to ==> cells[x].base == -(x - 1)
    {
      var i := newBegin;
      while i < to
        invariant newBegin <= i <= to && |cells| == to + 1 && cells[..newBegin] == old(cells)[..newBegin]
        invariant forall x {:trigger cells[x]} :: newBegin <= x < i ==> cells[x].check == -(x + 1)
        invariant forall x {:trigger cells[x]} :: newBegin < x <= i ==> cells[x].base == -(x - 1)
      {
        cells := SetCheck(cells, i, -(i + 1));
        cells := SetBase(cells, i + 1, -i);
        i := i + 1;
      }
    }

    /** Makes the index `to` usable by adding free cells at the end. */
    method ExtendPool(to: int) returns (ok: bool)
      requires IsPool(cells)
      modifies this`cells
      ensures ok <==> 0 < to < TRIE_INDEX_MAX
      ensures Grown(old(cells), cells)
      ensures !ok || to < |old(cells)| ==> cells == old(cells)
      ensures ok ==> to < |cells|
      ensures ok && |old(cells)| <= to ==> |cells| == to + 1
    {
      if to <= 0 || TRIE_INDEX_MAX <= to {
        return false;
      }
      if to < |cells| {
        return true;
      }
      ghost var d := cells;
      var newBegin := |cells|;
      Realloc(to + 1);
      LinkNewCells(newBegin, to);
      ghost var d1 := cells;
      assert Base(cells, FREE_HEAD) == Base(d, FREE_HEAD) by { assert d1[..newBegin][1] == d[1]; }
      var freeTail := -Base(cells, FREE_HEAD);
      cells := SetCheck(cells, freeTail, -newBegin);
      cells := SetBase(cells, newBegin, -freeTail);
      cells := SetCheck(cells, to, -FREE_HEAD);
      cells := SetBase(cells, FREE_HEAD, -to);
      cells := SetCheck(cells, 0, |cells|);
      JoinedIsExtended(d, d1, to, cells);
      ExtendedIsFreeList(d, cells, to);
      return true;
    }

    method CheckFreeCell(s: int) returns (ok: bool)
      requires IsPool(cells) && POOL_BEGIN <= s
      modifies this`cells
      ensures Grown(old(cells), cells)
      ensures ok <==> Free(cells, s)
      ensures !ok ==> TRIE_INDEX_MAX <= s || s < |cells|
    {
      ok := ExtendPool(s);
      ok := ok && Check(cells, s) < 0;
    }

    method FitSymbols(base: int, symbols: seq<int>) returns (ok: bool)
      requires IsPool(cells) && POOL_BEGIN <= base && IsSymbols(symbols)
      modifies this`cells
      ensures Grown(old(cells), cells)
      ensures if ok then Fits(cells, base, symbols) else Blocked(cells, base, symbols)
    {
      var i := 0;
      while i < |symbols|
        invariant 0 <= i <= |symbols|
        invariant Grown(old(cells), cells)
        invariant forall j {:trigger symbols[j]} :: 0 <= j < i ==> FreeAt(cells, base, symbols[j])
      {
        var sym := symbols[i];
        assert sym in symbols;
        if base > TRIE_INDEX_MAX - sym {
          return false;
        }
        ghost var before := cells;
        var free := CheckFreeCell(base + sym);
        GrownTransitive(old(cells), before, cells);
        if !free {
          return false;
        }
        i := i + 1;
      }
      return true;
    }

    /** The first free cell that is beyond the first symbol, made if there is none. */
    method FirstFreeBeyond(firstSym: int, ghost symbols: seq<int>) returns (s: int)
      requires IsPool(cells) && symbols != [] && firstSym == symbols[0] && 0 <= firstSym < TRIE_CHAR_MAX
      modifies this`cells
      ensures Grown(old(cells), cells)
      ensures s == TRIE_INDEX_ERROR ==> |cells| == TRIE_INDEX_MAX
      ensures s != TRIE_INDEX_ERROR ==> Free(cells, s) && firstSym + POOL_BEGIN <= s
      ensures BlockedBelow(cells, if s == TRIE_INDEX_ERROR then TRIE_INDEX_MAX else s - firstSym, symbols)
    {
      s := FirstListed(firstSym);
      if s == FREE_HEAD {
        s := FirstMade(firstSym);
      }
      NoFreeBlocks(cells, POOL_BEGIN, if s == TRIE_INDEX_ERROR then TRIE_INDEX_MAX else s - firstSym, symbols);
    }

    method FirstListed(firstSym: int) returns (s: int)
      requires IsPool(cells) && 0 <= firstSym < TRIE_CHAR_MAX
      ensures OnList(cells, s) && (s == FREE_HEAD || firstSym + POOL_BEGIN <= s)
      ensures forall x :: firstSym + POOL_BEGIN <= x && (s == FREE_HEAD || x < s) ==> !Free(cells, x)
    {
      s := -Check(cells, FREE_HEAD);
      assert s == Next(cells, FREE_HEAD);
      while s != FREE_HEAD && s < firstSym + POOL_BEGIN
        invariant OnList(cells, s)
        invariant s == FREE_HEAD ==> forall x :: firstSym + POOL_BEGIN <= x ==> !Free(cells, x)
        invariant s != FREE_HEAD ==> forall x :: Free(cells, x) ==> x < firstSym + POOL_BEGIN || s <= x
        decreases s != FREE_HEAD, |cells| - s
      {
        ghost var s0 := s;
        s := -Check(cells, s);
        assert s == Next(cells, s0);
      }
    }

    method FirstMade(firstSym: int) returns (s: int)
      requires IsPool(cells) && 0 <= firstSym < TRIE_CHAR_MAX
      modifies this`cells
      ensures Grown(old(cells), cells)
      ensures s == TRIE_INDEX_ERROR ==> |cells| == TRIE_INDEX_MAX
      ensures s != TRIE_INDEX_ERROR ==> Free(cells, s) && firstSym + POOL_BEGIN <= s
      ensures forall x :: firstSym + POOL_BEGIN <= x && (s == TRIE_INDEX_ERROR || x < s) ==> !Free(cells, x)
    {
      s := firstSym + POOL_BEGIN;
      while true
        invariant firstSym + POOL_BEGIN <= s <= TRIE_INDEX_MAX
        invariant s == firstSym + POOL_BEGIN || s <= |cells|
        invariant Grown(old(cells), cells)
        invariant forall x :: firstSym + POOL_BEGIN <= x < s ==> x < |cells| && !Free(cells, x)
        decreases TRIE_INDEX_MAX - s
      {
        ghost var before := cells;
        var ok := ExtendPool(s);
        GrownTransitive(old(cells), before, cells);
        if !ok {
          return TRIE_INDEX_ERROR;
        }
        if Check(cells, s) < 0 {
          break;
        }
        s := s + 1;
      }
    }

    /** The next free cell after `s`, made at the end of the pool if there is none. */
    method NextFree(s: int, ghost symbols: seq<int>) returns (n: int)
      requires IsPool(cells) && Free(cells, s) && symbols != [] && 0 <= symbols[0] <= s - POOL_BEGIN
      requires BlockedBelow(cells, s - symbols[0] + 1, symbols)
      modifies this`cells
      ensures Grown(old(cells), cells)
      ensures n == TRIE_INDEX_ERROR ==> |cells| == TRIE_INDEX_MAX
      ensures n != TRIE_INDEX_ERROR ==> Free(cells, n) && s < n
      ensures BlockedBelow(cells, if n == TRIE_INDEX_ERROR then TRIE_INDEX_MAX else n - symbols[0], symbols)
    {
      assert -Check(cells, s) == Next(cells, s);
      if -Check(cells, s) == FREE_HEAD {
        ghost var d := cells;
        var ok := ExtendPool(|cells|);
        BlockedBelowStays(d, cells, s - symbols[0] + 1, symbols);
        if !ok {
          NoFreeBlocks(cells, s - symbols[0] + 1, TRIE_INDEX_MAX, symbols);
          return TRIE_INDEX_ERROR;
        }
        assert Free(cells, |d|);
      }
      n := -Check(cells, s);
      assert n == Next(cells, s);
      NoFreeBlocks(cells, s - symbols[0] + 1, n - symbols[0], symbols);
    }

    /** First fit: the least base from 3 at which every symbol meets a free cell. */
    method FindFreeBase(symbols: seq<int>) returns (base: int)
      requires IsPool(cells) && IsSymbols(symbols) && symbols != []
      modifies this`cells
      ensures Grown(old(cells), cells)
      ensures base != TRIE_INDEX_ERROR ==> POOL_BEGIN <= base && Fits(cells, base, symbols)
      ensures base == TRIE_INDEX_ERROR ==> |cells| == TRIE_INDEX_MAX
      ensures BlockedBelow(cells, if base == TRIE_INDEX_ERROR then TRIE_INDEX_MAX else base, symbols)
    {
      hide BlockedBelow, Fits, IsFreeList;
      var firstSym := symbols[0];
      assert firstSym in symbols;
      var s := FirstFreeBeyond(firstSym, symbols);
      if s == TRIE_INDEX_ERROR {
        return TRIE_INDEX_ERROR;
      }
      var fit := TryBase(s - firstSym, symbols, cells);
      while !fit
        invariant Grown(old(cells), cells) && Free(cells, s) && firstSym + POOL_BEGIN <= s
        invariant BlockedBelow(cells, if fit then s - firstSym else s - firstSym + 1, symbols)
        invariant fit ==> Fits(cells, s - firstSym, symbols)
        decreases !fit, TRIE_INDEX_MAX - s
      {
        ghost var d := cells;
        var n := NextFree(s, symbols);
        GrownTransitive(old(cells), d, cells);
        if n == TRIE_INDEX_ERROR {
          return TRIE_INDEX_ERROR;
        }
        s := n;
        fit := TryBase(s - firstSym, symbols, old(cells));
      }
      return s - firstSym;
    }

    /** `FitSymbols` in the course of the search that started from the cells `d0`. */
    method TryBase(base: int, symbols: seq<int>, ghost d0: seq<Cell>) returns (fit: bool)
      requires IsPool(d0) && Grown(d0, cells) && POOL_BEGIN <= base && IsSymbols(symbols)
      requires BlockedBelow(cells, base, symbols)
      modifies this`cells
      ensures Grown(d0, cells) && Grown(old(cells), cells)
      ensures fit ==> Fits(cells, base, symbols)
      ensures BlockedBelow(cells, if fit then base else base + 1, symbols)
    {
      ghost var d := cells;
      fit := FitSymbols(base, symbols);
      GrownTransitive(d0, d, cells);
      BlockedBelowStays(d, cells, base, symbols);
    }

    method AllocCell(cell: int)
      requires IsPool(cells) && Free(cells, cell)
      modifies this`cells
      ensures cells == Unlink(old(cells), cell)
    {
      assert OnList(cells, Prev(cells, cell)) && OnList(cells, Next(cells, cell));
      var prev := -Base(cells, cell);
      var next := -Check(cells, cell);
      cells := SetCheck(cells, prev, -next);
      cells := SetBase(cells, next, -prev);
    }

    /** Takes a free cell off the list and makes it a child of `parent`; it keeps its
        BASE, the stale negative link. */
    method TakeCell(cell: int, parent: int)
      requires IsPool(cells) && Free(cells, cell) && 0 <= parent
      modifies this`cells
      ensures IsPool(cells) && SameBut(old(cells), cells, cell)
      ensures cells[cell] == Cell(old(cells)[cell].base, parent)
      ensures forall x {:trigger Free(cells, x)} :: Free(cells, x) <==> Free(old(cells), x) && x != cell
    {
      ghost var d := cells;
      assert Next(d, Prev(d, cell)) == cell && Prev(d, Next(d, cell)) == cell;
      AllocCell(cell);
      cells := SetCheck(cells, cell, parent);
      UnlinkUses(d, cell, Cell(d[cell].base, parent));
    }

    method InsertionPoint(cell: int) returns (i: int)
      requires IsPool(cells) && POOL_BEGIN <= cell < |cells| && !Free(cells, cell)
      ensures OnList(cells, i) && (i == FREE_HEAD || cell < i)
      ensures forall k :: Free(cells, k) && cell < k ==> i != FREE_HEAD && i <= k
    {
      i := -Check(cells, FREE_HEAD);
      assert i == Next(cells, FREE_HEAD);
      while i != FREE_HEAD && i < cell
        invariant OnList(cells, i)
        invariant forall k :: Free(cells, k) && cell < k ==> i != FREE_HEAD && i <= k
        decreases i != FREE_HEAD, |cells| - i
      {
        ghost var i0 := i;
        i := -Check(cells, i);
        assert i == Next(cells, i0);
      }
    }

    method FreeCell(cell: int)
      requires IsPool(cells) && POOL_BEGIN <= cell < |cells| && !Free(cells, cell)
      modifies this`cells
      ensures IsPool(cells) && SameBut(old(cells), cells, cell)
      ensures forall x {:trigger Free(cells, x)} :: Free(cells, x) <==> Free(old(cells), x) || x == cell
    {
      var i := InsertionPoint(cell);
      LinkFrees(cells, cell, i);
      assert OnList(cells, Prev(cells, i)) && Prev(cells, i) != cell;
      var prev := -Base(cells, i);
      cells := SetCheck(cells, cell, -i);
      cells := SetBase(cells, cell, -prev);
      cells := SetCheck(cells, prev, -cell);
      cells := SetBase(cells, i, -cell);
    }

    /** Gives the children of `x`, which lie from `base` on, to `y`. */
    method ReparentChildren(x: int, y: int, base: int)
      requires |cells| <= TRIE_INDEX_MAX && 0 <= base
      modifies this`cells
      ensures |cells| == |old(cells)|
      ensures forall z {:trigger cells[z]} :: 0 <= z < |cells| ==>
        cells[z] == if base <= z < base + TRIE_CHAR_MAX && old(cells)[z].check == x then old(cells)[z].(check := y) else old(cells)[z]
    {
      var maxC := if TRIE_CHAR_MAX < TRIE_INDEX_MAX - base then TRIE_CHAR_MAX else TRIE_INDEX_MAX - base;
      var c := 0;
      while c < maxC
        invariant 0 <= c && (c <= maxC || c == 0)
        invariant |cells| == |old(cells)|
        invariant forall z {:trigger cells[z]} :: 0 <= z < |cells| ==>
          cells[z] == if base <= z < base + c && old(cells)[z].check == x then old(cells)[z].(check := y) else old(cells)[z]
      {
        if Check(cells, base + c) == x {
          cells := SetCheck(cells, base + c, y);
        }
        c := c + 1;
      }
    }

    /** One turn of the loop of `RelocateBase`: the child `x` of `s` moves to the free
        cell `y` and takes its own children with it. */
    method MoveCells(s: int, x: int, y: int, ghost moved: set<int>, ghost nb: int)
      requires IsPool(cells) && IsTree(cells, path, node) && PlacedBut(cells, node, s, moved, nb)
      requires s in path && x in path && x != s && x != ROOT && Free(cells, y)
      modifies this`cells
      ensures IsPool(cells) && MovedChild(old(cells), cells, path, s, x, y)
    {
      ghost var d := cells;
      var oldNextBase := Base(cells, x);
      TakeCell(y, s);
      ghost var d0 := cells;
      cells := SetBase(cells, y, oldNextBase);
      ghost var d1 := cells;
      UsedCellsOnly(d0, d1);
      if oldNextBase > 0 {
        ReparentChildren(x, y, oldNextBase);
      }
      ghost var d2 := cells;
      ReparentedIsPool(d1, d2, x, y);
      FreeCell(x);
      StepsMoveChild(d, d1, d2, cells, path, node, s, moved, nb, x, y);
    }

    method MoveChild(s: int, c: int, oldBase: int, newBase: int, ghost g: Move, ghost moved: set<int>)
      requires Moving(cells, path, node, g, moved)
      requires s == g.s && oldBase == g.oldBase && newBase == g.newBase
      requires g.q + [c] in g.node && FreeAt(g.d, newBase, c) && c !in moved
      modifies this
      ensures Moving(cells, path, node, g, moved + {c})
    {
      hide IsFreeList, IsPool, IsTree, PlacedBut;
      MovingChild(cells, path, node, g, moved, c);
      assert FreeAt(cells, newBase, c);
      MoveCells(s, oldBase + c, newBase + c, moved, newBase);
      path, node := (path - {oldBase + c})[newBase + c := g.q + [c]], node[g.q + [c] := newBase + c];
      MovingStep(old(cells), cells, old(path), old(node), path, node, g, moved, c);
    }

    /** Whether any label leads on from `s`. */
    method HasChildren(s: int) returns (found: bool)
      requires Valid() && s in path
      ensures found <==> !Childless(node, path[s])
    {
      hide IsPool, IsTree, Placed;
      var base := Base(cells, s);
      if base == TRIE_INDEX_ERROR || base < 0 {
        NoChildren(cells, path, node, s);
        return false;
      }
      var maxC := if TRIE_CHAR_MAX < TRIE_INDEX_MAX - base then TRIE_CHAR_MAX else TRIE_INDEX_MAX - base;
      var c := 0;
      while c < maxC
        invariant 0 <= c
        invariant forall e :: 0 <= e < c ==> !LeadsOn(cells, s, e)
      {
        if Check(cells, base + c) == s {
          ChildAt(cells, path, node, s, c);
          Snoc(path[s], c);
          return true;
        }
        c := c + 1;
      }
      ScanFindsNone(cells, path, node, s, maxC);
      return false;
    }

    /** The labels leading on from `s`, in ascending order. */
    method OutputSymbols(s: int) returns (symbols: seq<int>)
      requires Valid() && s in path && 0 < Base(cells, s)
      ensures IsSymbols(symbols)
      ensures forall c :: c in symbols <==> path[s] + [c] in node
    {
      symbols := [];
      var base := Base(cells, s);
      var maxC := if TRIE_CHAR_MAX < TRIE_INDEX_MAX - base then TRIE_CHAR_MAX else TRIE_INDEX_MAX - base;
      var c := 0;
      while c < maxC
        invariant 0 <= c
        invariant Ascending(symbols)
        invariant forall e {:trigger e in symbols} :: e in symbols <==> 0 <= e < c && LeadsOn(cells, s, e)
      {
        assert LeadsOn(cells, s, c) <==> Check(cells, base + c) == s;
        if Check(cells, base + c) == s {
          assert forall i :: 0 <= i < |symbols| ==> symbols[i] in symbols;
          symbols := symbols + [c];
        }
        c := c + 1;
      }
      forall e
        ensures e in symbols <==> path[s] + [e] in node
        ensures e in symbols ==> 0 <= e < TRIE_CHAR_MAX
      {
        LabelsInWindow(cells, path, node, s, e);
        if 0 <= e {
          ChildAt(cells, path, node, s, e);
        }
      }
    }

    /** Assigns the BASE of a node whose children, if any, already are where it puts them. */
    method AssignBase(s: int, v: int, ghost moved: set<int>, ghost nb: int)
      requires IsPool(cells) && IsTree(cells, path, node) && PlacedBut(cells, node, s, moved, nb) && s in path
      requires ChildrenAt(path, node, s, v) && (POOL_BEGIN <= v || (v <= 0 && s != ROOT))
      modifies this`cells
      ensures Valid()
      ensures Shape() == old(Shape())[path[s] := Kind(v)]
      ensures cells == SetBase(old(cells), s, v)
      ensures forall z {:trigger Free(cells, z)} :: Free(cells, z) <==> Free(old(cells), z)
    {
      SetBaseKeepsTree(cells, path, node, s, v, moved, nb);
      UsedCellsOnly(cells, SetBase(cells, s, v));
      cells := SetBase(cells, s, v);
    }

    method MoveChildren(s: int, symbols: seq<int>, oldBase: int, newBase: int, ghost g: Move)
      requires Moving(cells, path, node, g, {})
      requires s == g.s && oldBase == g.oldBase && newBase == g.newBase && Ascending(symbols)
      requires forall c :: c in symbols ==> g.q + [c] in g.node && FreeAt(g.d, newBase, c)
      modifies this
      ensures Moving(cells, path, node, g, Elements(symbols))
    {
      hide IsFreeList, IsPool, IsTree, PlacedBut;
      var i := 0;
      assert Elements(symbols[..i]) == {};
      while i < |symbols|
        invariant 0 <= i <= |symbols|
        invariant Moving(cells, path, node, g, Elements(symbols[..i]))
      {
        var c := symbols[i];
        assert c in symbols;
        assert Elements(symbols[..i + 1]) == Elements(symbols[..i]) + {c};
        MoveChild(s, c, oldBase, newBase, g, Elements(symbols[..i]));
        i := i + 1;
      }
      assert symbols[..i] == symbols;
    }

    /** Moves all children of `s` so that they hang from `newBase`.  Nothing but the
        indices of these children changes. */
    method RelocateBase(s: int, newBase: int)
      requires Valid() && s in path && 0 < Base(cells, s) && POOL_BEGIN <= newBase
      requires forall c :: path[s] + [c] in node ==> FreeAt(cells, newBase, c)
      modifies this
      ensures Valid() && Base(cells, s) == newBase
      ensures Shape() == old(Shape())
      ensures node == RenamedAll(old(node), old(path)[s], newBase)
      ensures |cells| == |old(cells)|
      ensures forall c :: FreeAt(old(cells), newBase, c) && old(path)[s] + [c] !in old(node) ==> FreeAt(cells, newBase, c)
    {
      hide IsFreeList, IsPool, IsTree, PlacedBut, Placed, CellTree.Shape;
      MovingStart(cells, path, node, s, newBase);
      ShapeAt(cells, path, node, s);
      var oldBase := Base(cells, s);
      var symbols := OutputSymbols(s);
      ghost var g := Move(cells, node, path[s], s, oldBase, newBase);
      ghost var moved := Elements(symbols);
      MoveChildren(s, symbols, oldBase, newBase, g);
      AllMoved(cells, path, node, g, moved, symbols);
      ghost var d := cells;
      AssignBase(s, newBase, moved, newBase);
      forall c | FreeAt(g.d, newBase, c) && g.q + [c] !in g.node
        ensures FreeAt(cells, newBase, c)
      {
        assert FreeAt(d, newBase, c);
      }
    }

    /** Takes the free cell at BASE[s] + c as the child of `s` labelled `c`. */
    method Attach(s: int, c: int, next: int)
      requires Valid() && s in path && 0 < Base(cells, s) && 0 <= c < TRIE_CHAR_MAX && path[s] + [c] !in node
      requires next == Base(cells, s) + c && Free(cells, next)
      modifies this
      ensures Valid()
      ensures next !in old(path)
      ensures path == old(path)[next := old(path)[s] + [c]] && node == old(node)[old(path)[s] + [c] := next]
      ensures Base(cells, next) < 0
      ensures Shape() == old(Shape())[old(path)[s] + [c] := Base(cells, next)]
      ensures |cells| == |old(cells)|
    {
      ghost var d := cells;
      assert OnList(d, Prev(d, next));
      TakeCell(next, s);
      path, node := path[next := path[s] + [c]], node[path[s] + [c] := next];
      AttachKeepsTree(d, cells, old(path), old(node), path, node, s, c, next);
      AttachKeepsPlaced(d, cells, old(path), old(node), node, s, c, next);
    }

    /** Moves the children of `s` to the first base that also has room for `c`. */
    method RelocateFor(s: int, c: int) returns (newBase: int)
      requires Valid() && s in path && 0 < Base(cells, s) && 0 <= c < TRIE_CHAR_MAX && path[s] + [c] !in node
      modifies this
      ensures Valid() && Shape() == old(Shape()) && s in path && path[s] == old(path)[s]
      ensures newBase == TRIE_INDEX_ERROR ==> NoRoom(cells, node, path[s], c) && path == old(path) && node == old(node)
      ensures newBase != TRIE_INDEX_ERROR ==> Base(cells, s) == newBase && POOL_BEGIN <= newBase && FreeAt(cells, newBase, c)
      ensures newBase != TRIE_INDEX_ERROR ==> node == RenamedAll(old(node), path[s], newBase)
      ensures KeepsNames(old(path), path, old(path)[s])
      ensures |old(cells)| <= |cells|
    {
      hide IsFreeList, IsPool, IsTree, PlacedBut, Placed, CellTree.Shape, Blocked, Grown;
      var symbols := OutputSymbols(s);
      symbols := SymbolsAdd(symbols, c);
      assert c in symbols;
      newBase := FindFreeBase(symbols);
      GrownLonger(old(cells), cells);
      GrownKeepsTree(old(cells), cells, path, node);
      if newBase == TRIE_INDEX_ERROR {
        assert HasLabels(symbols, node, path[s], c);
        return TRIE_INDEX_ERROR;
      }
      RelocateBase(s, newBase);
      NameAt(cells, path, node, old(path)[s]);
      RenamedKeepsNames(old(cells), old(path), old(node), cells, path, node, old(path)[s], newBase);
    }

    /** Gives the childless node `s` the first base that has room for `c`. */
    method FirstBase(s: int, c: int) returns (newBase: int)
      requires Valid() && s in path && Base(cells, s) <= 0 && 0 <= c < TRIE_CHAR_MAX
      modifies this`cells
      ensures Valid()
      ensures newBase == TRIE_INDEX_ERROR ==> NoRoom(cells, node, path[s], c) && Shape() == old(Shape())
      ensures newBase != TRIE_INDEX_ERROR ==>
        && Base(cells, s) == newBase && POOL_BEGIN <= newBase && FreeAt(cells, newBase, c)
        && path[s] + [c] !in node && Shape() == old(Shape())[path[s] := INNER]
      ensures |old(cells)| <= |cells|
    {
      hide IsFreeList, IsTree, PlacedBut, Placed, CellTree.Shape, Blocked;
      NoChildren(cells, path, node, s);
      var symbols := SymbolsAdd([], c);
      assert c in symbols;
      newBase := FindFreeBase(symbols);
      GrownKeepsTree(old(cells), cells, path, node);
      if newBase == TRIE_INDEX_ERROR {
        assert HasLabels(symbols, node, path[s], c);
        return TRIE_INDEX_ERROR;
      }
      assert FreeAt(cells, newBase, c);
      NothingMoved(cells, node, s, 0);
      AssignBase(s, newBase, {}, 0);
    }

    /** Adds a branch labelled `c` to `s`.  The new node keeps a stale negative BASE
        until the caller sets it.  When 0 is returned nothing has changed but the
        number of free cells: the pool has its largest size and no base at all has
        room for the branches of `s` and `c`. */
    method InsertBranch(s: int, c: int) returns (next: int)
      requires Valid() && s in path && 0 <= c < TRIE_CHAR_MAX
      modifies this
      ensures Valid() && s in path && path[s] == old(path)[s]
      ensures next == TRIE_INDEX_ERROR ==>
        |cells| == TRIE_INDEX_MAX && NoRoom(cells, node, path[s], c) && path == old(path) && node == old(node) && Shape() == old(Shape())
      ensures next != TRIE_INDEX_ERROR ==> next in path && path[next] == path[s] + [c]
      ensures next != TRIE_INDEX_ERROR && path[s] + [c] in old(node) ==> cells == old(cells) && path == old(path) && node == old(node)
      ensures next != TRIE_INDEX_ERROR && path[s] + [c] !in old(node) ==>
        && Base(cells, next) < 0
        && Shape() == old(Shape())[path[s] := INNER][path[s] + [c] := Base(cells, next)]
      ensures KeepsNames(old(path), path, old(path)[s])
      ensures |old(cells)| <= |cells|
    {
      hide IsFreeList, IsTree, PlacedBut, Placed, CellTree.Shape, Blocked;
      var base := Base(cells, s);
      ShapeAt(cells, path, node, s);
      if base > 0 {
        next := base + c;
        BaseInPool(cells, path, node, s);
        ChildAt(cells, path, node, s, c);
        if Check(cells, next) == s {
          NameAt(cells, path, node, path[s] + [c]);
          return next;
        }
        var room := base <= TRIE_INDEX_MAX - c;
        if room {
          room := CheckFreeCell(next);
          GrownKeepsTree(old(cells), cells, path, node);
        }
        if !room {
          var newBase := RelocateFor(s, c);
          if newBase == TRIE_INDEX_ERROR {
            return TRIE_INDEX_ERROR;
          }
          next := newBase + c;
        }
      } else {
        var newBase := FirstBase(s, c);
        if newBase == TRIE_INDEX_ERROR {
          return TRIE_INDEX_ERROR;
        }
        next := newBase + c;
      }
      Attach(s, c, next);
    }

    /** One step along the label `c`; 255 leads nowhere. */
    method Walk(s: int, c: int) returns (ok: bool, next: int)
      requires Valid() && s in path && 0 < Base(cells, s) && 0 <= c <= TRIE_CHAR_MAX
      ensures ok <==> path[s] + [c] in node
      ensures next == if ok then node[path[s] + [c]] else s
    {
      ChildAt(cells, path, node, s, c);
      next := Base(cells, s) + c;
      if Check(cells, next) == s {
        return true, next;
      }
      return false, s;
    }

    /** Removes the childless node `s`. */
    method Detach(s: int) returns (parent: int)
      requires Valid() && s in path && s != ROOT
      requires Childless(node, path[s])
      modifies this
      ensures Valid()
      ensures path == old(path) - {s} && node == old(node) - {old(path)[s]}
      ensures Shape() == old(Shape()) - {old(path)[s]} && |cells| == |old(cells)|
      ensures parent in path && path[parent] == Init(old(path)[s])
    {
      ghost var d := cells;
      ParentOf(cells, path, node, s);
      assert node[path[s]] == s;
      parent := Check(cells, s);
      FreeCell(s);
      DetachKeepsTree(d, cells, path, node, s);
      path, node := path - {s}, node - {path[s]};
    }

    /** Removes `s` and the ancestors of it that are left without children, up to but
        not including `p`. */
    method PruneUpto(p: int, s: int) returns (ghost top: int)
      requires Valid() && p in path && s in path && path[p] <= path[s]
      modifies this
      ensures Valid()
      ensures |old(path)[p]| <= top <= |old(path)[s]|
      ensures node == Pruned(old(node), old(path)[s], top)
      ensures Shape() == Pruned(old(Shape()), old(path)[s], top)
      ensures Prunable(old(node), old(path)[s], top)
      ensures top == |old(path)[p]| || !Childless(node, old(path)[s][..top])
      ensures |cells| == |old(cells)| && Shape().Keys == node.Keys
      ensures p in path && path[p] == old(path)[p]
    {
      hide IsPool, IsTree, Placed, CellTree.Shape, Childless, Pruned, Prunable;
      ghost var q := path[s];
      var s := s;
      top := |q|;
      PrunedNothing(node, q);
      PrunedNothing(Shape(), q);
      var found := HasChildren(s);
      while p != s && !found
        invariant Valid() && p in path && s in path && path[p] == old(path)[p] && path[p] <= q
        invariant |path[p]| <= top <= |q| && path[s] == q[..top]
        invariant node == Pruned(old(node), q, top) && Shape() == Pruned(old(Shape()), q, top)
        invariant Prunable(old(node), q, top)
        invariant found <==> !Childless(node, path[s])
        invariant |cells| == |old(cells)|
        decreases top
      {
        SameName(cells, path, node, p, s);
        PrunedStep(old(node), q, top);
        PrunedKeys(old(Shape()), q, top);
        s := Detach(s);
        top := top - 1;
        found := HasChildren(s);
      }
      NodeInShape(p);
    }

    /** Assigns a BASE that makes the childless node `s` a leaf, or clears it. */
    method SetLeafBase(s: int, v: int)
      requires Valid() && s in path && s != ROOT && Childless(node, path[s]) && v <= 0
      modifies this`cells
      ensures Valid()
      ensures Shape() == old(Shape())[path[s] := v]
      ensures |cells| == |old(cells)| && Base(cells, s) == v
    {
      hide IsFreeList, IsTree, PlacedBut, Placed, CellTree.Shape;
      ShapeAt(cells, path, node, s);
      NothingMoved(cells, node, s, 0);
      AssignBase(s, v, {}, 0);
    }

    lemma LeafIsChildless(s: int)
      requires Valid() && s in path && Base(cells, s) <= 0
      ensures Childless(node, path[s])
      ensures forall c :: path[s] + [c] !in node
    {
      NoChildren(cells, path, node, s);
    }

    /** What the layer above sees of the node `s`. */
    lemma NodeInShape(s: int)
      requires Valid() && s in path
      ensures path[s] in Shape() && Shape()[path[s]] == Kind(Base(cells, s))
      ensures path[s] in node && node[path[s]] == s
      ensures Shape().Keys == node.Keys
      ensures s == ROOT <==> path[s] == []
      ensures ROOT in path && path[ROOT] == []
    {
      ShapeAt(cells, path, node, s);
      SameName(cells, path, node, s, ROOT);
    }

    lemma RootInShape()
      requires Valid()
      ensures ROOT in path && path[ROOT] == []
    {
      SameName(cells, path, node, node[[]], node[[]]);
    }

    lemma ChildOf(s: int, c: int)
      requires Valid() && s in path && 0 < Base(cells, s) && path[s] + [c] in node
      ensures Base(cells, s) + c in path && path[Base(cells, s) + c] == path[s] + [c]
    {
      hide IsPool, IsTree, Placed;
      LabelsInWindow(cells, path, node, s, c);
      ChildAt(cells, path, node, s, c);
      NameAt(cells, path, node, path[s] + [c]);
    }

    lemma NodeOfPath(q: Path)
      requires Valid() && q in node
      ensures node[q] in path && path[node[q]] == q
    {
    }

    /** The labels on the way from the root to `state`: traced upwards, then reversed
        in place. */
    method GetStateKey(state: int) returns (key: seq<int>)
      requires Valid() && state in path
      ensures key == path[state]
    {
      hide IsPool, IsTree, Placed;
      key := [];
      var s := state;
      assert path[s] + Reversed(key) == path[state];
      RootInShape();
      while ROOT != s
        invariant s in path && path[s] + Reversed(key) == path[state]
        decreases |path[s]|
      {
        SameName(cells, path, node, s, ROOT);
        ParentOf(cells, path, node, s);
        LabelOf(cells, path, node, s);
        var parent := Check(cells, s);
        key := key + [s - Base(cells, parent)];
        ReversedSnoc(key[..|key| - 1], s - Base(cells, parent));
        assert path[s] == path[parent] + [s - Base(cells, parent)];
        s := parent;
      }
      key := ReverseInPlace(key);
    }
  }

  ghost function Reversed(s: seq<int>): (r: seq<int>)
    ensures |r| == |s| && forall i {:trigger r[i]} :: 0 <= i < |s| ==> r[i] == s[|s| - 1 - i]
  {
    seq(|s|, i requires 0 <= i < |s| => s[|s| - 1 - i])
  }

  lemma ReversedSnoc(s: seq<int>, c: int)
    ensures Reversed(s + [c]) == [c] + Reversed(s)
  {
  }

  /** The loop that swaps the ends until they meet. */
  method ReverseInPlace(key0: seq<int>) returns (key: seq<int>)
    ensures key == Reversed(key0)
  {
    key := key0;
    var i, keyLength := 0, |key0|;
    keyLength := keyLength - 1;
    while i < keyLength
      invariant |key| == |key0| && 0 <= i && i + keyLength == |key0| - 1 && i <= keyLength + 1
      invariant forall m {:trigger key[m]} :: 0 <= m < i || keyLength < m < |key| ==> key[m] == key0[|key0| - 1 - m]
      invariant forall m {:trigger key[m]} :: i <= m <= keyLength ==> key[m] == key0[m]
    {
      key := key[i := key[keyLength]][keyLength := key[i]];
      i := i + 1;
      keyLength := keyLength - 1;
    }
  }
}
