/** The cells of the double array and the free list threaded through them.
    Cell 0 is a header, cell 1 the head of the free list, cell 2 the root of the
    tree; the pool starts at cell 3.  A pool cell is free when its CHECK is
    negative; its negated CHECK and BASE are then the next and the previous free
    cell. */
module FreeList {
  const DA_SIGNATURE := 0xDAFCDAFC - 0x1_0000_0000  // the signature as an int32
  const TRIE_INDEX_MAX := 0x7fffffff
  const TRIE_INDEX_ERROR := 0
  const TRIE_CHAR_MAX := 255
  const FREE_HEAD := 1
  const ROOT := 2
  const POOL_BEGIN := 3

  datatype Cell = Cell(base: int, check: int)

  function Base(d: seq<Cell>, s: int): int {
    if 0 <= s < |d| then d[s].base else TRIE_INDEX_ERROR
  }

  function Check(d: seq<Cell>, s: int): int {
    if 0 <= s < |d| then d[s].check else TRIE_INDEX_ERROR
  }

  function SetBase(d: seq<Cell>, s: int, v: int): seq<Cell> {
    if 0 <= s < |d| then d[s := d[s].(base := v)] else d
  }

  function SetCheck(d: seq<Cell>, s: int, v: int): seq<Cell> {
    if 0 <= s < |d| then d[s := d[s].(check := v)] else d
  }

  function Next(d: seq<Cell>, s: int): int { -Check(d, s) }

  function Prev(d: seq<Cell>, s: int): int { -Base(d, s) }

  predicate Free(d: seq<Cell>, s: int) {
    POOL_BEGIN <= s < |d| && Check(d, s) < 0
  }

  /** A link of the circular list: the head or a free cell. */
  predicate OnList(d: seq<Cell>, s: int) {
    s == FREE_HEAD || Free(d, s)
  }

  /** The free cells form one circular doubly linked list through cell 1 that
      visits all of them in strictly ascending order. */
  ghost predicate IsFreeList(d: seq<Cell>) {
    && POOL_BEGIN <= |d|
    && (forall s {:trigger Next(d, s)} :: OnList(d, s) ==>
          && OnList(d, Next(d, s))
          && Prev(d, Next(d, s)) == s
          && (Next(d, s) == FREE_HEAD || s < Next(d, s)))
    && (forall s {:trigger Prev(d, s)} :: OnList(d, s) ==>
          && OnList(d, Prev(d, s))
          && Next(d, Prev(d, s)) == s)
    && (forall s, k {:trigger Next(d, s), Free(d, k)} :: OnList(d, s) && Free(d, k) && s < k ==>
          && Next(d, s) != FREE_HEAD
          && Next(d, s) <= k)
  }

  /** In the cells themselves: minus CHECK of the head or of a free cell is the first free
      cell behind it, or the head again, and minus BASE of that leads back. */
  lemma LinksInCells(d: seq<Cell>, s: int)
    requires IsFreeList(d) && (s == 1 || (3 <= s < |d| && d[s].check < 0))
    ensures var n := -d[s].check;
            && (n == 1 || (s < n < |d| && d[n].check < 0)) && d[n].base == -s
            && forall k {:trigger d[k]} :: 3 <= k < |d| && d[k].check < 0 && s < k ==> n != 1 && n <= k
  {
    assert OnList(d, s) && OnList(d, Next(d, s)) && Prev(d, Next(d, s)) == s;
    forall k {:trigger d[k]} | 3 <= k < |d| && d[k].check < 0 && s < k
      ensures Next(d, s) != 1 && Next(d, s) <= k
    {
      assert Free(d, k);
    }
  }

  /** The effect of taking `cell` off the list. */
  function Unlink(d: seq<Cell>, cell: int): seq<Cell> {
    SetBase(SetCheck(d, Prev(d, cell), -Next(d, cell)), Next(d, cell), -Prev(d, cell))
  }

  /** The effect of putting `cell` on the list, before the link `i`. */
  function LinkBefore(d: seq<Cell>, cell: int, i: int): seq<Cell> {
    var prev := Prev(d, i);
    SetBase(SetCheck(SetBase(SetCheck(d, cell, -i), cell, -prev), prev, -cell), i, -cell)
  }

  /** `d'` differs from `d` only in `cell`, in the list head and in free cells. */
  ghost predicate SameBut(d: seq<Cell>, d': seq<Cell>, cell: int) {
    && |d'| == |d|
    && forall x {:trigger d'[x]} :: 0 <= x < |d| && x != cell && !OnList(d, x) ==> d'[x] == d[x]
  }

  /** What `Unlink` followed by overwriting `cell` does to the links. */
  ghost predicate Unlinked(d: seq<Cell>, d': seq<Cell>, p: int, cell: int, n: int) {
    && |d'| == |d|
    && (forall x {:trigger Free(d', x)} :: Free(d', x) <==> Free(d, x) && x != cell)
    && (forall s {:trigger Next(d', s)} :: OnList(d, s) && s != cell ==> Next(d', s) == if s == p then n else Next(d, s))
    && (forall s {:trigger Prev(d', s)} :: OnList(d, s) && s != cell ==> Prev(d', s) == if s == n then p else Prev(d, s))
  }

  /** What `LinkBefore` does to the links. */
  ghost predicate Linked(d: seq<Cell>, d': seq<Cell>, p: int, cell: int, n: int) {
    && |d'| == |d|
    && (forall x {:trigger Free(d', x)} :: Free(d', x) <==> Free(d, x) || x == cell)
    && Next(d', cell) == n
    && Prev(d', cell) == p
    && (forall s {:trigger Next(d', s)} :: OnList(d, s) ==> Next(d', s) == if s == p then cell else Next(d, s))
    && (forall s {:trigger Prev(d', s)} :: OnList(d, s) ==> Prev(d', s) == if s == n then cell else Prev(d, s))
  }

  lemma UnlinkedIsFreeList(d: seq<Cell>, d': seq<Cell>, p: int, cell: int, n: int)
    requires IsFreeList(d) && Free(d, cell) && p == Prev(d, cell) && n == Next(d, cell)
    requires Unlinked(d, d', p, cell, n)
    ensures IsFreeList(d')
  {
    assert Next(d, p) == cell && Prev(d, n) == cell;
  }

  lemma LinkedIsFreeList(d: seq<Cell>, d': seq<Cell>, p: int, cell: int, n: int)
    requires IsFreeList(d) && POOL_BEGIN <= cell < |d| && !Free(d, cell)
    requires OnList(d, n) && (n == FREE_HEAD || cell < n) && p == Prev(d, n)
    requires forall k :: Free(d, k) && cell < k ==> n != FREE_HEAD && n <= k
    requires Linked(d, d', p, cell, n)
    ensures IsFreeList(d')
  {
    assert Next(d, p) == n;
    assert p < cell;
  }

  lemma UnlinkLinks(d: seq<Cell>, cell: int, c: Cell)
    requires IsFreeList(d) && Free(d, cell) && c.check >= 0
    ensures Unlinked(d, Unlink(d, cell)[cell := c], Prev(d, cell), cell, Next(d, cell))
    ensures SameBut(d, Unlink(d, cell)[cell := c], cell)
  {
    var p, n := Prev(d, cell), Next(d, cell);
    assert Next(d, p) == cell && Prev(d, n) == cell;
    var d' := Unlink(d, cell)[cell := c];
    assert forall x {:trigger d'[x]} :: 0 <= x < |d| && x != cell ==>
      d'[x] == Cell(if x == n then -p else d[x].base, if x == p then -n else d[x].check);
  }

  lemma UnlinkUses(d: seq<Cell>, cell: int, c: Cell)
    requires IsFreeList(d) && Free(d, cell) && c.check >= 0
    ensures IsFreeList(Unlink(d, cell)[cell := c])
    ensures forall x :: Free(Unlink(d, cell)[cell := c], x) <==> Free(d, x) && x != cell
    ensures SameBut(d, Unlink(d, cell)[cell := c], cell)
  {
    UnlinkLinks(d, cell, c);
    UnlinkedIsFreeList(d, Unlink(d, cell)[cell := c], Prev(d, cell), cell, Next(d, cell));
  }

  lemma LinkBeforeLinks(d: seq<Cell>, cell: int, i: int)
    requires IsFreeList(d) && POOL_BEGIN <= cell < |d| && !Free(d, cell) && OnList(d, i)
    ensures Linked(d, LinkBefore(d, cell, i), Prev(d, i), cell, i)
    ensures SameBut(d, LinkBefore(d, cell, i), cell)
  {
    assert Next(d, Prev(d, i)) == i;
  }

  lemma LinkFrees(d: seq<Cell>, cell: int, i: int)
    requires IsFreeList(d) && POOL_BEGIN <= cell < |d| && !Free(d, cell)
    requires OnList(d, i) && (i == FREE_HEAD || cell < i)
    requires forall k :: Free(d, k) && cell < k ==> i != FREE_HEAD && i <= k
    ensures IsFreeList(LinkBefore(d, cell, i))
    ensures forall x :: Free(LinkBefore(d, cell, i), x) <==> Free(d, x) || x == cell
    ensures SameBut(d, LinkBefore(d, cell, i), cell)
  {
    LinkBeforeLinks(d, cell, i);
    LinkedIsFreeList(d, LinkBefore(d, cell, i), Prev(d, i), cell, i);
  }

  /** `d'` is `d` with the cells |d|..to added to the end of its list. */
  ghost predicate Extended(d: seq<Cell>, d': seq<Cell>, to: int) {
    && |d| <= to && |d'| == to + 1
    && (forall x {:trigger Free(d', x)} :: Free(d', x) <==> Free(d, x) || |d| <= x <= to)
    && (forall s {:trigger Next(d', s)} :: OnList(d, s) ==>
          Next(d', s) == if s == Prev(d, FREE_HEAD) then |d| else Next(d, s))
    && (forall s {:trigger Prev(d', s)} :: OnList(d, s) ==>
          Prev(d', s) == if s == FREE_HEAD then to else Prev(d, s))
    && (forall s {:trigger Next(d', s)} :: |d| <= s <= to ==> Next(d', s) == if s == to then FREE_HEAD else s + 1)
    && (forall s {:trigger Prev(d', s)} :: |d| <= s <= to ==>
          Prev(d', s) == if s == |d| then Prev(d, FREE_HEAD) else s - 1)
  }

  lemma ExtendedIsFreeList(d: seq<Cell>, d': seq<Cell>, to: int)
    requires IsFreeList(d) && Extended(d, d', to)
    ensures IsFreeList(d')
  {
    assert Next(d, Prev(d, FREE_HEAD)) == FREE_HEAD;
  }

  /** The cells visited by following the list from `s` until the head comes round. */
  ghost function Chain(d: seq<Cell>, s: int): (r: seq<int>)
    requires IsFreeList(d) && OnList(d, s)
    ensures forall x :: x in r <==> Free(d, x) && s < x
    ensures forall i, j :: 0 <= i < j < |r| ==> r[i] < r[j]
    decreases |d| - s
  {
    var n := Next(d, s);
    if n == FREE_HEAD then [] else [n] + Chain(d, n)
  }

  /** Changing cells that are not on the list, to used cells, keeps the list. */
  lemma UsedCellsOnly(d: seq<Cell>, d': seq<Cell>)
    requires IsFreeList(d) && |d'| == |d|
    requires forall x {:trigger d'[x]} :: 0 <= x < |d| ==> d'[x] == d[x] || (!OnList(d, x) && d'[x].check >= 0)
    ensures IsFreeList(d')
    ensures forall x :: Free(d', x) <==> Free(d, x)
  {
    assert forall x :: Free(d', x) <==> Free(d, x);
    assert forall s {:trigger Next(d', s)} :: OnList(d, s) ==> Next(d', s) == Next(d, s);
    assert forall s {:trigger Prev(d', s)} :: OnList(d, s) ==> Prev(d', s) == Prev(d, s);
  }

  /** The header is in place, the indices are in range and the free list is intact. */
  ghost predicate IsPool(d: seq<Cell>) {
    && POOL_BEGIN <= |d| <= TRIE_INDEX_MAX
    && d[0] == Cell(DA_SIGNATURE, |d|)
    && IsFreeList(d)
  }

  /** `d'` is `d` with some free cells added at the end. */
  ghost predicate Grown(d: seq<Cell>, d': seq<Cell>) {
    && IsPool(d')
    && |d| <= |d'|
    && (forall x {:trigger Free(d', x)} :: Free(d', x) <==> Free(d, x) || |d| <= x < |d'|)
    && (forall x {:trigger d'[x]} :: 0 < x < |d| && !OnList(d, x) ==> d'[x] == d[x])
  }

  lemma GrownLonger(d: seq<Cell>, d': seq<Cell>)
    requires Grown(d, d')
    ensures |d| <= |d'|
  {
  }

  lemma GrownTransitive(d: seq<Cell>, d': seq<Cell>, d'': seq<Cell>)
    requires IsPool(d) && Grown(d, d') && Grown(d', d'')
    ensures Grown(d, d'')
  {
    forall x | 0 < x < |d| && !OnList(d, x)
      ensures d''[x] == d[x]
    {
      assert !Free(d', x);
    }
  }

  /** The four assignments that join a run of new cells, already linked among
      themselves, to the old list. */
  function Joined(d: seq<Cell>, t: int, b: int, to: int): seq<Cell> {
    SetBase(SetCheck(SetBase(SetCheck(d, t, -b), b, -t), to, -FREE_HEAD), FREE_HEAD, -to)
  }

  lemma JoinedIsExtended(d: seq<Cell>, d1: seq<Cell>, to: int, d2: seq<Cell>)
    requires IsPool(d) && |d| <= to && |d1| == to + 1 && d1[..|d|] == d
    requires forall x {:trigger d1[x]} :: |d| <= x < to ==> d1[x].check == -(x + 1)
    requires forall x {:trigger d1[x]} :: |d| < x <= to ==> d1[x].base == -(x - 1)
    requires d2 == SetCheck(Joined(d1, Prev(d, FREE_HEAD), |d|, to), 0, |d1|)
    ensures Extended(d, d2, to)
    ensures forall x {:trigger d2[x]} :: 0 < x < |d| && !OnList(d, x) ==> d2[x] == d[x]
    ensures d2[0] == Cell(DA_SIGNATURE, to + 1)
  {
    var t, b := Prev(d, FREE_HEAD), |d|;
    assert Next(d, t) == FREE_HEAD;
    assert forall x {:trigger d[x]} :: 0 <= x < |d| ==> d1[x] == d[x];
    assert forall x {:trigger d2[x]} :: 0 < x <= to ==>
      d2[x] == Cell(if x == FREE_HEAD then -to else if x == b then -t else d1[x].base,
                    if x == to then -FREE_HEAD else if x == t then -b else d1[x].check);
  }
}
