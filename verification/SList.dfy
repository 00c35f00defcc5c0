/** The singly linked list with preallocated nodes: nodes in use on one chain, blank
    ones on another, and the list of memory blocks they all come from. */
module SLists {
  type Ptr = nat

  const NULL: Ptr := 0

  // ---- what the operations do to the items ----

  /** The position of the first `x`. */
  function IndexOf(s: seq<Ptr>, x: Ptr): (k: int)
    ensures 0 <= k <= |s|
    ensures k < |s| ==> s[k] == x
    ensures x !in s[..k]
    ensures k == |s| <==> x !in s
  {
    if s == [] || s[0] == x then 0
    else
      var k := 1 + IndexOf(s[1..], x);
      assert s[..k] == [s[0]] + s[1..][..k - 1] && s == [s[0]] + s[1..];
      k
  }

  /** The first `x` moved to the front. */
  function MovedToFront(s: seq<Ptr>, x: Ptr): seq<Ptr> {
    var k := IndexOf(s, x);
    if k < |s| then [x] + s[..k] + s[k + 1..] else s
  }

  /** Moving to the front permutes the items. */
  lemma MovedIsPermutation(s: seq<Ptr>, x: Ptr)
    ensures multiset(MovedToFront(s, x)) == multiset(s)
  {
    var k := IndexOf(s, x);
    if k < |s| {
      SplitAt(s, k);
      Swapped(s[..k], x, s[k + 1..]);
    }
  }

  /** Moving to the front keeps the order of the other items. */
  lemma MovedKeepsOrder(s: seq<Ptr>, x: Ptr)
    requires x in s
    ensures MovedToFront(s, x)[0] == x
    ensures MovedToFront(s, x)[1..] == s[..IndexOf(s, x)] + s[IndexOf(s, x) + 1..]
  {
  }

  lemma SplitAt(s: seq<Ptr>, k: nat)
    requires k < |s|
    ensures s == s[..k] + [s[k]] + s[k + 1..]
  {
  }

  lemma Swapped(a: seq<Ptr>, x: Ptr, b: seq<Ptr>)
    ensures multiset([x] + a + b) == multiset(a + [x] + b)
  {
    assert multiset([x] + a + b) == multiset([x]) + multiset(a) + multiset(b);
    assert multiset(a + [x] + b) == multiset(a) + multiset([x]) + multiset(b);
  }

  lemma IndexIs(s: seq<Ptr>, x: Ptr, k: int)
    requires 0 <= k <= |s| && x !in s[..k] && (k < |s| ==> s[k] == x)
    ensures IndexOf(s, x) == k
  {
    var j := IndexOf(s, x);
    assert forall i {:trigger s[i]} :: 0 <= i < k ==> s[i] == s[..k][i];
    assert forall i {:trigger s[i]} :: 0 <= i < j ==> s[i] == s[..j][i];
  }

  // ---- memory ----

  /** The blocks handed out by the allocation function and not freed yet. */
  class Memory {
    var blocks: set<Ptr>
    var next: Ptr

    ghost predicate Valid()
      reads this
    {
      0 < next && forall p {:trigger p in blocks} :: p in blocks ==> 0 < p < next
    }

    constructor ()
      ensures Valid() && blocks == {}
    {
      blocks, next := {}, 1;
    }

    method Alloc() returns (p: Ptr)
      requires Valid()
      modifies this
      ensures Valid() && p != NULL && p !in old(blocks) && blocks == old(blocks) + {p}
    {
      p := next;
      blocks := blocks + {p};
      next := next + 1;
    }

    /** Only a block that is still allocated may be freed. */
    method Free(p: Ptr)
      requires Valid() && p in blocks
      modifies this
      ensures Valid() && blocks == old(blocks) - {p}
    {
      blocks := blocks - {p};
    }
  }

  /** The memory list: every node is itself a block and holds another one. */
  datatype MemList = MemNil | MemCons(self: Ptr, data: Ptr, next: MemList)

  function Blocks(m: MemList): set<Ptr> {
    if m.MemNil? then {} else {m.self, m.data} + Blocks(m.next)
  }

  /** All blocks are different and allocated. */
  predicate Owned(m: MemList, blocks: set<Ptr>) {
    m.MemNil? || (m.self in blocks && m.data in blocks && m.self != m.data && Owned(m.next, blocks - {m.self, m.data}))
  }

  lemma {:induction false} OwnedIn(m: MemList, blocks: set<Ptr>)
    requires Owned(m, blocks)
    ensures Blocks(m) <= blocks
  {
    if m.MemCons? {
      OwnedIn(m.next, blocks - {m.self, m.data});
    }
  }

  // ---- chains of nodes ----

  class SlNode {
    var data: Ptr
    var next: SlNode?

    constructor ()
      ensures next == null
    {
      data, next := NULL, null;
    }
  }

  ghost function At(nodes: seq<SlNode>, i: int): SlNode? {
    if 0 <= i < |nodes| then nodes[i] else null
  }

  ghost predicate Distinct(nodes: seq<SlNode>) {
    forall i, j {:trigger nodes[i], nodes[j]} :: 0 <= i < j < |nodes| ==> nodes[i] != nodes[j]
  }

  /** `s` are the members of `nodes`. */
  ghost predicate Members(nodes: seq<SlNode>, s: set<SlNode>) {
    && (forall i {:trigger nodes[i]} :: 0 <= i < |nodes| ==> nodes[i] in s)
    && (forall x {:trigger x in s} :: x in s ==> x in nodes)
  }

  /** Following the chain from `first` visits `nodes`, each once, and ends. */
  ghost predicate Chain(first: SlNode?, nodes: seq<SlNode>, s: set<SlNode>)
    reads s`next
  {
    && Members(nodes, s) && Distinct(nodes)
    && first == At(nodes, 0)
    && forall i {:trigger nodes[i].next} :: 0 <= i < |nodes| ==> nodes[i].next == At(nodes, i + 1)
  }

  ghost predicate Holds(nodes: seq<SlNode>, s: set<SlNode>, items: seq<Ptr>)
    reads s`data
  {
    && Members(nodes, s)
    && |items| == |nodes| && forall i {:trigger nodes[i].data} :: 0 <= i < |nodes| ==> nodes[i].data == items[i]
  }

  lemma MembersTail(nodes: seq<SlNode>, s: set<SlNode>)
    requires nodes != [] && Members(nodes, s) && Distinct(nodes)
    ensures nodes[0] in s && Members(nodes[1..], s - {nodes[0]}) && Distinct(nodes[1..])
  {
    var rest := nodes[1..];
    assert forall i {:trigger rest[i]} :: 0 <= i < |rest| ==> rest[i] == nodes[i + 1];
    assert nodes == [nodes[0]] + rest;
  }

  lemma MembersAdd(left: seq<SlNode>, x: SlNode, right: seq<SlNode>, s: set<SlNode>)
    requires Members(left + right, s) && Distinct(left + right) && x !in s
    ensures Members(left + [x] + right, s + {x}) && Distinct(left + [x] + right)
  {
    var a, b, n := left + right, left + [x] + right, |left|;
    assert forall i {:trigger b[i]} :: 0 <= i < |b| ==> b[i] == if i < n then a[i] else if i == n then x else a[i - 1];
    assert b[n] == x;
    forall y {:trigger y in s} | y in s
      ensures y in b
    {
      var i :| 0 <= i < |a| && a[i] == y;
      assert b[if i < n then i else i + 1] == y;
    }
  }

  lemma MembersCons(x: SlNode, nodes: seq<SlNode>, s: set<SlNode>)
    requires x !in s && Members(nodes, s) && Distinct(nodes)
    ensures Members([x] + nodes, s + {x}) && Distinct([x] + nodes)
  {
    hide Members, Distinct;
    assert [] + nodes == nodes && [] + [x] + nodes == [x] + nodes;
    MembersAdd([], x, nodes, s);
  }

  lemma ChainTail(nodes: seq<SlNode>, s: set<SlNode>)
    requires nodes != [] && Chain(nodes[0], nodes, s)
    ensures nodes[0] in s && Chain(nodes[0].next, nodes[1..], s - {nodes[0]})
  {
    MembersTail(nodes, s);
    hide Members, Distinct;
  }

  lemma ChainCons(x: SlNode, nodes: seq<SlNode>, s: set<SlNode>)
    requires x !in s && Chain(x.next, nodes, s)
    ensures Chain(x, [x] + nodes, s + {x})
  {
    MembersCons(x, nodes, s);
    hide Members, Distinct;
  }

  lemma HoldsTail(nodes: seq<SlNode>, s: set<SlNode>, items: seq<Ptr>)
    requires nodes != [] && Holds(nodes, s, items) && Distinct(nodes)
    ensures |items| == |nodes| && nodes[0] in s && nodes[0].data == items[0]
    ensures Holds(nodes[1..], s - {nodes[0]}, items[1..])
  {
    MembersTail(nodes, s);
    hide Members, Distinct;
  }

  lemma HoldsCons(x: SlNode, nodes: seq<SlNode>, s: set<SlNode>, items: seq<Ptr>)
    requires x !in s && Holds(nodes, s, items) && Distinct(nodes)
    ensures Holds([x] + nodes, s + {x}, [x.data] + items)
  {
    MembersCons(x, nodes, s);
    hide Members, Distinct;
    assert forall i {:trigger nodes[i]} :: 0 <= i < |nodes| ==> ([x] + nodes)[i + 1] == nodes[i];
  }

  lemma HoldsSnoc(x: SlNode, nodes: seq<SlNode>, s: set<SlNode>, items: seq<Ptr>)
    requires x !in s && Holds(nodes, s, items) && Distinct(nodes)
    ensures Holds(nodes + [x], s + {x}, items + [x.data])
  {
    assert nodes + [] == nodes && nodes + [x] + [] == nodes + [x];
    MembersAdd(nodes, x, [], s);
    hide Members, Distinct;
  }

  /** `n` new nodes on a chain. */
  method NewChain(n: nat) returns (first: SlNode, last: SlNode, ghost nodes: seq<SlNode>, ghost s: set<SlNode>)
    requires 0 < n
    ensures |nodes| == n && Chain(first, nodes, s) && last == nodes[n - 1] && fresh(s)
  {
    first := new SlNode();
    last, nodes, s := first, [first], {first};
    var left := n;
    while left > 1
      invariant 1 <= left <= n && |nodes| == n - left + 1
      invariant Chain(first, nodes, s) && last == nodes[|nodes| - 1] && fresh(s)
    {
      var node := new SlNode();
      JoinNode(nodes, s, last, node);
      last := node;
      nodes := nodes + [node];
      s := s + {node};
      left := left - 1;
    }
  }

  /** Linking a node behind the last one. */
  method JoinNode(ghost nodes: seq<SlNode>, ghost s: set<SlNode>, last: SlNode, node: SlNode)
    requires nodes != [] && last == nodes[|nodes| - 1] && Chain(nodes[0], nodes, s) && node !in s && node.next == null
    modifies last`next
    ensures Chain(nodes[0], nodes + [node], s + {node})
  {
    MembersAdd(nodes, node, [], s);
    assert nodes + [] == nodes && nodes + [node] + [] == nodes + [node];
    assert forall i {:trigger nodes[i]} :: 0 <= i < |nodes| - 1 ==> nodes[i] != last;
    hide Members, Distinct;
    last.next := node;
  }

  /** Linking the last node of a chain to another chain. */
  method JoinChains(ghost nodes: seq<SlNode>, ghost s: set<SlNode>, ghost rest: seq<SlNode>, ghost t: set<SlNode>, last: SlNode, first: SlNode?)
    requires nodes != [] && last == nodes[|nodes| - 1] && Chain(nodes[0], nodes, s) && Chain(first, rest, t) && s !! t
    modifies last`next
    ensures Chain(nodes[0], nodes + rest, s + t)
  {
    JoinMembers(nodes, s, rest, t);
    assert forall i {:trigger nodes[i]} :: 0 <= i < |nodes| - 1 ==> nodes[i] != last;
    assert last !in t;
    assert forall i {:trigger rest[i]} :: 0 <= i < |rest| ==> rest[i] in t;
    hide Members, Distinct;
    last.next := first;
    ghost var all, m := nodes + rest, |nodes|;
    assert forall i {:trigger all[i]} :: 0 <= i < |all| ==> all[i] == if i < m then nodes[i] else rest[i - m];
  }

  lemma JoinMembers(nodes: seq<SlNode>, s: set<SlNode>, rest: seq<SlNode>, t: set<SlNode>)
    requires Members(nodes, s) && Members(rest, t) && s !! t && Distinct(nodes) && Distinct(rest)
    ensures Members(nodes + rest, s + t) && Distinct(nodes + rest)
  {
    var all, m := nodes + rest, |nodes|;
    assert forall i {:trigger all[i]} :: 0 <= i < |all| ==> all[i] == if i < m then nodes[i] else rest[i - m];
  }

  lemma MembersCut(nodes: seq<SlNode>, s: set<SlNode>, k: int)
    requires 0 <= k < |nodes| && Members(nodes, s) && Distinct(nodes)
    ensures nodes[k] in s && Members(nodes[..k] + nodes[k + 1..], s - {nodes[k]}) && Distinct(nodes[..k] + nodes[k + 1..])
  {
    var cut := nodes[..k] + nodes[k + 1..];
    assert forall i {:trigger cut[i]} :: 0 <= i < |cut| ==> cut[i] == if i < k then nodes[i] else nodes[i + 1];
    forall x {:trigger x in s} | x in s && x != nodes[k]
      ensures x in cut
    {
      var i :| 0 <= i < |nodes| && nodes[i] == x;
      assert cut[if i < k then i else i - 1] == x;
    }
  }

  /** Taking a node out of the middle of a chain. */
  method CutNode(ghost nodes: seq<SlNode>, ghost s: set<SlNode>, ghost k: int, pre: SlNode, cur: SlNode)
    requires 0 < k < |nodes| && Chain(nodes[0], nodes, s) && pre == nodes[k - 1] && cur == nodes[k]
    modifies pre`next
    ensures Chain(nodes[0], nodes[..k] + nodes[k + 1..], s - {cur})
  {
    MembersCut(nodes, s, k);
    CutAt(nodes, k);
    hide Members, Distinct;
    pre.next := cur.next;
  }

  lemma CutAt(nodes: seq<SlNode>, k: int)
    requires 0 < k < |nodes| && Distinct(nodes)
    ensures var cut := nodes[..k] + nodes[k + 1..];
            && |cut| == |nodes| - 1
            && forall i {:trigger cut[i]} :: 0 <= i < |cut| ==>
                 cut[i] == (if i < k then nodes[i] else nodes[i + 1]) && (cut[i] == nodes[k - 1] <==> i == k - 1)
  {
  }

  lemma MembersMoved(nodes: seq<SlNode>, s: set<SlNode>, k: int)
    requires 0 <= k < |nodes| && Members(nodes, s) && Distinct(nodes)
    ensures Members([nodes[k]] + (nodes[..k] + nodes[k + 1..]), s)
  {
    var cut := nodes[..k] + nodes[k + 1..];
    MembersCut(nodes, s, k);
    hide Members, Distinct;
    MembersCons(nodes[k], cut, s - {nodes[k]});
    assert s - {nodes[k]} + {nodes[k]} == s;
  }

  lemma ChainMoved(x: SlNode, cut: seq<SlNode>, s: set<SlNode>)
    requires x in s && Chain(x.next, cut, s - {x})
    ensures Chain(x, [x] + cut, s)
  {
    hide Chain;
    ChainCons(x, cut, s - {x});
    assert s - {x} + {x} == s;
  }

  /** The nodes after the one at position `k > 0` went to the front. */
  ghost function MovedNode(nodes: seq<SlNode>, k: int): (r: seq<SlNode>)
    requires 0 < k < |nodes|
    ensures |r| == |nodes|
    ensures r[|r| - 1] == nodes[if k == |nodes| - 1 then k - 1 else |nodes| - 1]
  {
    [nodes[k]] + (nodes[..k] + nodes[k + 1..])
  }

  /** Taking a node out and putting it before the first one. */
  method Relink(ghost nodes: seq<SlNode>, ghost s: set<SlNode>, ghost k: int, pre: SlNode, cur: SlNode, first: SlNode)
    requires 0 < k < |nodes| && Chain(first, nodes, s) && pre == nodes[k - 1] && cur == nodes[k]
    modifies pre`next, cur`next
    ensures Chain(cur, MovedNode(nodes, k), s)
  {
    assert first == nodes[0] && cur in s;
    hide Members, Distinct, Chain;
    CutNode(nodes, s, k, pre, cur);
    cur.next := first;
    ChainMoved(cur, nodes[..k] + nodes[k + 1..], s);
  }

  lemma ItemsMoved(nodes: seq<SlNode>, s: set<SlNode>, items: seq<Ptr>, k: int, data: Ptr)
    requires 0 < k < |nodes| == |items| && Holds(nodes, s, items) && Distinct(nodes)
    requires items[k] == data && data !in items[..k]
    ensures Holds(MovedNode(nodes, k), s, MovedToFront(items, data))
    ensures |MovedToFront(items, data)| == |items| && data in items
  {
    hide Holds, Distinct, IndexOf;
    IndexIs(items, data, k);
    HoldsMoved(nodes, s, items, k);
  }

  lemma HoldsMoved(nodes: seq<SlNode>, s: set<SlNode>, items: seq<Ptr>, k: int)
    requires 0 <= k < |nodes| && Holds(nodes, s, items) && Distinct(nodes)
    ensures |items| == |nodes| && Holds([nodes[k]] + (nodes[..k] + nodes[k + 1..]), s, [items[k]] + items[..k] + items[k + 1..])
  {
    MembersMoved(nodes, s, k);
    hide Members, Distinct;
    var all := [nodes[k]] + (nodes[..k] + nodes[k + 1..]);
    assert forall i {:trigger all[i]} :: 0 <= i < |all| ==> all[i] == if i == 0 then nodes[k] else if i <= k then nodes[i - 1] else nodes[i];
  }

  lemma MemberAt(nodes: seq<SlNode>, s: set<SlNode>, items: seq<Ptr>, k: int)
    requires Holds(nodes, s, items) && 0 <= k < |nodes|
    ensures nodes[k] in s && nodes[k].data == items[k]
  {
  }

  lemma OnlyAt(nodes: seq<SlNode>, i: int, j: int)
    requires Distinct(nodes) && 0 <= i < |nodes| && 0 <= j < |nodes|
    ensures nodes[i] == nodes[j] <==> i == j
  {
  }

  lemma LastIn(nodes: seq<SlNode>, s: set<SlNode>)
    requires nodes != [] && Members(nodes, s)
    ensures nodes[|nodes| - 1] in s
  {
  }

  /** The nodes in use in order, the blank ones, both as sets, and the items. */
  datatype View = View(live: seq<SlNode>, spare: seq<SlNode>, used: set<SlNode>, unused: set<SlNode>, items: seq<Ptr>)

  class SList {
    var head: SlNode?
    var end: SlNode?
    var blank: SlNode?
    var length: nat
    var capacity: nat
    var memlist: MemList
    ghost var view: View

    /** The nodes in use and the blank ones are on two disjoint chains; together there
        are `capacity` of them. */
    ghost predicate Valid()
      reads this, view.used, view.unused
    {
      && Chain(head, view.live, view.used) && Chain(blank, view.spare, view.unused) && view.used !! view.unused
      && end == At(view.live, |view.live| - 1)
      && Holds(view.live, view.used, view.items)
      && length == |view.live| && |view.live| + |view.spare| == capacity
    }

    /** An empty list with `capacity` blank nodes. */
    constructor (mem: Memory, capacity: nat)
      requires mem.Valid() && 0 < capacity
      modifies mem
      ensures Valid() && view.items == [] && this.capacity == capacity && fresh(view.used + view.unused)
      ensures mem.Valid() && Owned(memlist, mem.blocks) && mem.blocks == old(mem.blocks) + Blocks(memlist)
      ensures old(mem.blocks) !! Blocks(memlist)
    {
      var p := mem.Alloc();
      var m := mem.Alloc();
      var first, last, nodes, s := NewChain(capacity);
      head, end, blank, length := null, null, first, 0;
      this.capacity := capacity;
      memlist := MemCons(m, p, MemNil);
      view := View([], nodes, {}, s, []);
    }

    lemma Counted()
      requires Valid()
      ensures |view.items| == |view.live| == length && |view.live| + |view.spare| == capacity
      ensures head == At(view.live, 0) && blank == At(view.spare, 0) && end == At(view.live, |view.live| - 1)
      ensures forall i {:trigger view.live[i].next} :: 0 <= i < |view.live| ==> view.live[i].next == At(view.live, i + 1)
      ensures forall i {:trigger view.live[i].data} :: 0 <= i < |view.live| ==> view.live[i].data == view.items[i]
      ensures view.live != [] ==> view.live[0] in view.used && view.live[|view.live| - 1] in view.used
      ensures view.spare != [] ==> view.spare[0] in view.unused
      ensures Distinct(view.live) && Distinct(view.spare) && Chain(head, view.live, view.used)
    {
      hide Distinct;
    }

    /** Adds `delta` blank nodes from a new block. */
    method Expand(mem: Memory, delta: nat)
      requires Valid() && 0 < delta && mem.Valid() && Owned(memlist, mem.blocks)
      modifies this`capacity, this`blank, this`view, this`memlist, mem
      ensures Valid() && capacity == old(capacity) + delta && fresh(view.unused - old(view.unused))
      ensures view.items == old(view.items) && view.used == old(view.used) && old(view.unused) <= view.unused
      ensures mem.Valid() && Owned(memlist, mem.blocks)
      ensures mem.blocks == old(mem.blocks) + (Blocks(memlist) - old(Blocks(memlist)))
    {
      var m, p := ExpandMemory(mem);
      AddBlanks(delta);
    }

    /** A block for the nodes and one for the entry in the memory list. */
    method ExpandMemory(mem: Memory) returns (m: Ptr, p: Ptr)
      requires mem.Valid() && Owned(memlist, mem.blocks)
      modifies this`memlist, mem
      ensures mem.Valid() && Owned(memlist, mem.blocks) && memlist == MemCons(m, p, old(memlist))
      ensures mem.blocks == old(mem.blocks) + (Blocks(memlist) - old(Blocks(memlist)))
    {
      p := mem.Alloc();
      m := mem.Alloc();
      OwnedIn(memlist, old(mem.blocks));
      assert mem.blocks - {m, p} == old(mem.blocks);
      memlist := MemCons(m, p, memlist);
    }

    method AddBlanks(delta: nat)
      requires Valid() && 0 < delta
      modifies this`capacity, this`blank, this`view
      ensures Valid() && capacity == old(capacity) + delta && fresh(view.unused - old(view.unused))
      ensures view.items == old(view.items) && view.used == old(view.used) && old(view.unused) <= view.unused
    {
      hide Members, Distinct, Holds;
      var first, last, nodes, s := NewChain(delta);
      assert last in s by { LastIn(nodes, s); }
      capacity := capacity + delta;
      JoinChains(nodes, s, view.spare, view.unused, last, blank);
      blank := first;
      view := view.(spare := nodes + view.spare, unused := s + view.unused);
    }

    /** Frees every block of the list once, and no other. */
    method FreeAll(mem: Memory)
      requires mem.Valid() && Owned(memlist, mem.blocks)
      modifies mem
      ensures mem.blocks == old(mem.blocks) - Blocks(memlist)
    {
      var ptr := memlist;
      while ptr.MemCons?
        invariant mem.Valid() && Owned(ptr, mem.blocks)
        invariant old(mem.blocks) - Blocks(memlist) == mem.blocks - Blocks(ptr)
        decreases ptr
      {
        var ptr2 := ptr.next;
        ghost var before := mem.blocks;
        mem.Free(ptr.data);
        mem.Free(ptr.self);
        assert mem.blocks == before - {ptr.self, ptr.data};
        ptr := ptr2;
      }
    }

    /** Adds an item at the end; 1 if there is no blank node. */
    method Append(data: Ptr) returns (res: int)
      requires Valid()
      modifies this, view.used, view.unused
      ensures Valid() && capacity == old(capacity) && memlist == old(memlist)
      ensures res == if old(|view.items|) == old(capacity) then 1 else 0
      ensures view.items == if res == 0 then old(view.items) + [data] else old(view.items)
      ensures view.used + view.unused == old(view.used + view.unused)
    {
      hide Members, Distinct, Chain, Holds;
      Counted();
      if length == capacity {
        return 1;
      }
      ChainTail(view.spare, view.unused);
      var ptr: SlNode := blank;
      blank := blank.next;
      ptr.data := data;
      HoldsSnoc(ptr, view.live, view.used, view.items);
      if head == null {
        head := ptr;
        end := ptr;
        ptr.next := null;
        ChainCons(ptr, view.live, view.used);
        assert [ptr] + view.live == view.live + [ptr];
      } else {
        ptr.next := null;
        JoinNode(view.live, view.used, end, ptr);
        end := ptr;
      }
      length := length + 1;
      view := View(view.live + [ptr], view.spare[1..], view.used + {ptr}, view.unused - {ptr}, view.items + [data]);
      return 0;
    }

    /** Adds an item at the front; 1 if there is no blank node. */
    method Push(data: Ptr) returns (res: int)
      requires Valid()
      modifies this, view.used, view.unused
      ensures Valid() && capacity == old(capacity) && memlist == old(memlist)
      ensures res == if old(|view.items|) == old(capacity) then 1 else 0
      ensures view.items == if res == 0 then [data] + old(view.items) else old(view.items)
      ensures view.used + view.unused == old(view.used + view.unused)
    {
      hide Members, Distinct, Chain, Holds;
      Counted();
      if length == capacity {
        return 1;
      }
      ChainTail(view.spare, view.unused);
      var ptr: SlNode := blank;
      blank := blank.next;
      ptr.data := data;
      ptr.next := head;
      ChainCons(ptr, view.live, view.used);
      HoldsCons(ptr, view.live, view.used, view.items);
      head := ptr;
      if end == null {
        end := ptr;
      }
      length := length + 1;
      view := View([ptr] + view.live, view.spare[1..], view.used + {ptr}, view.unused - {ptr}, [data] + view.items);
      return 0;
    }

    /** Takes the first item off the list; `NULL` if there is none. */
    method Pop() returns (data: Ptr)
      requires Valid()
      modifies this, view.used, view.unused
      ensures Valid() && capacity == old(capacity) && memlist == old(memlist)
      ensures data == if old(view.items) == [] then NULL else old(view.items)[0]
      ensures view.items == if old(view.items) == [] then [] else old(view.items)[1..]
      ensures view.used + view.unused == old(view.used + view.unused)
    {
      hide Members, Distinct, Chain, Holds;
      Counted();
      if head == null {
        return NULL;
      }
      ghost var v := view;
      ChainTail(v.live, v.used);
      HoldsTail(v.live, v.used, v.items);
      data := head.data;
      var ptr: SlNode := head;
      head := head.next;
      if head == null {
        end := null;
      }
      ptr.next := blank;
      ChainCons(ptr, v.spare, v.unused);
      blank := ptr;
      length := length - 1;
      view := View(v.live[1..], [ptr] + v.spare, v.used - {ptr}, v.unused + {ptr}, v.items[1..]);
    }

    method Find(data: Ptr) returns (res: int)
      requires Valid()
      ensures res == if data in view.items then 1 else 0
    {
      Counted();
      var ptr := head;
      ghost var k := 0;
      while ptr != null
        invariant 0 <= k <= |view.live| && ptr == At(view.live, k) && data !in view.items[..k]
        decreases |view.live| - k
      {
        if ptr.data == data {
          return 1;
        }
        ptr := ptr.next;
        k := k + 1;
      }
      return 0;
    }

    /** Moves the first `data` of a non-empty list to the front; 1 if there is none. */
    method Mv2head(data: Ptr) returns (res: int)
      requires Valid() && view.items != []
      modifies this, view.used
      ensures Valid() && capacity == old(capacity) && memlist == old(memlist)
      ensures view.items == MovedToFront(old(view.items), data)
      ensures res == if data in old(view.items) then 0 else 1
      ensures view.used == old(view.used) && view.unused == old(view.unused)
    {
      hide Members, Distinct, Chain, Holds, IndexOf;
      Counted();
      var cur := head;
      if cur.data == data {
        IndexIs(view.items, data, 0);
        assert MovedToFront(view.items, data) == view.items;
        return 0;
      }
      var pre := cur;
      cur := cur.next;
      ghost var k := 1;
      while cur != null
        invariant 1 <= k <= |view.live| && pre == At(view.live, k - 1) && cur == At(view.live, k)
        invariant data !in view.items[..k]
        decreases |view.live| - k
      {
        if cur.data == data {
          MoveNode(k, pre, cur, data);
          return 0;
        }
        assert view.items[..k + 1] == view.items[..k] + [view.items[k]];
        pre := cur;
        cur := cur.next;
        k := k + 1;
      }
      assert view.items[..k] == view.items;
      IndexIs(view.items, data, k);
      return 1;
    }

    method MoveNode(ghost k: int, pre: SlNode, cur: SlNode, ghost data: Ptr)
      requires Valid() && 0 < k < |view.live| && pre == view.live[k - 1] && cur == view.live[k]
      requires |view.items| == |view.live| && cur.data == data && data !in view.items[..k]
      modifies this, view.used
      ensures Valid() && capacity == old(capacity) && memlist == old(memlist)
      ensures view.items == MovedToFront(old(view.items), data) && data in old(view.items)
      ensures view.used == old(view.used) && view.unused == old(view.unused)
    {
      hide Members, Distinct, Chain, Holds, IndexOf, MovedToFront, MovedNode;
      Counted();
      MemberAt(view.live, view.used, view.items, k);
      MemberAt(view.live, view.used, view.items, k - 1);
      ItemsMoved(view.live, view.used, view.items, k, data);
      OnlyAt(view.live, k, |view.live| - 1);
      if cur == end {
        end := pre;
      }
      Relink(view.live, view.used, k, pre, cur, head);
      head := cur;
      view := view.(live := MovedNode(view.live, k), items := MovedToFront(view.items, data));
    }
  }
}
