/** The tail pool: blocks holding the unbranched end of a key and its data.  Blocks
    are named from 1 by their users and from 0 inside; free blocks are chained
    through `nextFree`, where 0 ends the chain. */
module TailPool {
  const TRIE_DATA_ERROR := -1
  const TAIL_START_BLOCKNO := 1
  const SHRT_MAX := 0x7fff

  /** A suffix index is a C short. */
  type Short = x: int | -SHRT_MAX - 1 <= x <= SHRT_MAX

  datatype Suffix = Null | Chars(chars: seq<int>)

  datatype TailBlock = TailBlock(nextFree: int, data: int, suffix: Suffix)

  /** The character of a terminated string. */
  function CharAt(s: seq<int>, i: int): int {
    if 0 <= i < |s| then s[i] else 0
  }

  /** An allocated block is marked by -1. */
  predicate Live(tails: seq<TailBlock>, index: int) {
    1 <= index <= |tails| && tails[index - TAIL_START_BLOCKNO].nextFree == -1
  }

  function Block(tails: seq<TailBlock>, index: int): TailBlock
    requires Live(tails, index)
  {
    tails[index - TAIL_START_BLOCKNO]
  }

  function NextFree(tails: seq<TailBlock>, b: int): int {
    if 0 <= b < |tails| then tails[b].nextFree else 0
  }

  /** `free` are the blocks on the chain that starts at `first`.  Each block points to
      the next larger one, so following the chain visits all of them in strictly
      ascending order; block 0 and allocated blocks are never among them. */
  ghost predicate IsChain(tails: seq<TailBlock>, first: int, free: set<int>) {
    && (forall b {:trigger NextFree(tails, b)} :: -1 <= NextFree(tails, b))
    && (forall b {:trigger b in free} :: b in free ==> 0 < b < |tails|)
    && (first == 0 || first in free)
    && (forall k {:trigger k in free} :: k in free ==> 0 != first <= k)
    && (forall b {:trigger NextFree(tails, b)} :: b in free ==>
          0 <= NextFree(tails, b) && (NextFree(tails, b) == 0 || (NextFree(tails, b) in free && b < NextFree(tails, b))))
    && (forall b, k {:trigger NextFree(tails, b), k in free} :: b in free && k in free && b < k ==>
          0 != NextFree(tails, b) <= k)
  }

  /** The blocks visited by following the chain from block `b`, or from the end mark. */
  ghost function ChainFrom(tails: seq<TailBlock>, first: int, free: set<int>, b: int): (r: seq<int>)
    requires IsChain(tails, first, free) && (b == 0 || b in free)
    ensures forall x {:trigger x in r} :: x in r <==> x in free && b != 0 && b <= x
    decreases b != 0, |tails| - b
  {
    if b == 0 then [] else [b] + ChainFrom(tails, first, free, NextFree(tails, b))
  }

  ghost predicate Ascends(r: seq<int>) {
    forall i, j :: 0 <= i < j < |r| ==> r[i] < r[j]
  }

  /** The chain visits its blocks in strictly ascending order. */
  lemma {:induction false} ChainAscends(tails: seq<TailBlock>, first: int, free: set<int>, b: int)
    requires IsChain(tails, first, free) && (b == 0 || b in free)
    ensures Ascends(ChainFrom(tails, first, free, b))
    decreases b != 0, |tails| - b
  {
    if b != 0 {
      var rest := ChainFrom(tails, first, free, NextFree(tails, b));
      ChainAscends(tails, first, free, NextFree(tails, b));
      var r := [b] + rest;
      forall i, j | 0 <= i < j < |r|
        ensures r[i] < r[j]
      {
        assert r[j] == rest[j - 1] && rest[j - 1] in rest;
        if i == 0 {
          assert b < NextFree(tails, b) <= rest[j - 1];
        } else {
          assert r[i] == rest[i - 1] < rest[j - 1];
        }
      }
    }
  }

  /** Writing the suffix or the data of a block does not touch the chain. */
  lemma PayloadOnly(tails: seq<TailBlock>, tails': seq<TailBlock>, first: int, free: set<int>)
    requires IsChain(tails, first, free) && |tails'| == |tails|
    requires forall b {:trigger tails'[b]} :: 0 <= b < |tails| ==> tails'[b].nextFree == tails[b].nextFree
    ensures IsChain(tails', first, free)
    ensures forall t {:trigger Live(tails', t)} :: Live(tails', t) <==> Live(tails, t)
  {
    assert forall b {:trigger NextFree(tails', b)} :: NextFree(tails', b) == NextFree(tails, b);
  }

  /** The chain after putting `block` between `j` and `i`. */
  lemma InsertedIsChain(d: seq<TailBlock>, d': seq<TailBlock>, first: int, free: set<int>, block: int, j: int, i: int)
    requires IsChain(d, first, free) && 0 <= block < |d| && block !in free && |d'| == |d|
    requires i == 0 || (i in free && block < i)
    requires if j == 0 then i == first else j in free && j < block && i == NextFree(d, j)
    requires forall b {:trigger NextFree(d', b)} ::
      NextFree(d', b) == if j != 0 && b == j then block else if b == block then i else NextFree(d, b)
    ensures IsChain(d', if j == 0 then block else first, if block == 0 then {} else free + {block})
  {
    assert j != 0 ==> NextFree(d, j) == i;
  }

  lemma InsertedInChain(d: seq<TailBlock>, d': seq<TailBlock>, first: int, free: set<int>, block: int, j: int, i: int)
    requires IsChain(d, first, free) && Live(d, block + TAIL_START_BLOCKNO)
    requires i == 0 || (i in free && block < i)
    requires if j == 0 then i == first else j in free && j < block && i == NextFree(d, j)
    requires d' == if j == 0 then d[block := d[block].(nextFree := i)]
                   else d[block := d[block].(nextFree := i)][j := d[j].(nextFree := block)]
    ensures IsChain(d', if j == 0 then block else first, if block == 0 then {} else free + {block})
    ensures forall t {:trigger Live(d', t)} :: Live(d', t) <==> t != block + TAIL_START_BLOCKNO && Live(d, t)
    ensures OthersKept(d, d', block + TAIL_START_BLOCKNO)
  {
    assert NextFree(d, block) == -1;
    assert j != 0 ==> NextFree(d, j) != -1;
    assert i >= 0;
    InsertedIsChain(d, d', first, free, block, j, i);
  }

  /** Allocated blocks other than `t` are as before. */
  ghost predicate OthersKept(tails: seq<TailBlock>, tails': seq<TailBlock>, t: int) {
    forall u {:trigger Live(tails, u)} :: u != t && Live(tails, u) ==> Live(tails', u) && Block(tails', u) == Block(tails, u)
  }

  /** Filling in the data of a block just handed out. */
  lemma BlockFilled(before: seq<TailBlock>, added: seq<TailBlock>, after: seq<TailBlock>, t: int, data: int)
    requires OthersKept(before, added, t) && Live(added, t) && after == added[t - 1 := added[t - 1].(data := data)]
    ensures OthersKept(before, after, t) && Live(after, t) && Block(after, t) == Block(added, t).(data := data)
  {
  }

  /** Replacing the suffix of an allocated block. */
  lemma SuffixReplaced(tails: seq<TailBlock>, t: int, s: Suffix, tails': seq<TailBlock>)
    requires Live(tails, t) && tails' == tails[t - 1 := tails[t - 1].(suffix := s)]
    ensures OthersKept(tails, tails', t) && Live(tails', t) && Block(tails', t) == Block(tails, t).(suffix := s)
  {
  }

  lemma LiveNotFree(tails: seq<TailBlock>, first: int, free: set<int>, t: int)
    requires IsChain(tails, first, free) && Live(tails, t)
    ensures t - TAIL_START_BLOCKNO !in free
    ensures forall b :: b in free ==> 0 < b < |tails|
  {
    assert NextFree(tails, t - TAIL_START_BLOCKNO) == -1;
  }

  lemma FreedKeeps(tails: seq<TailBlock>, d: seq<TailBlock>, d': seq<TailBlock>, t: int)
    requires 1 <= t <= |tails| && d == tails[t - 1 := tails[t - 1].(data := TRIE_DATA_ERROR, suffix := Null)]
    requires OthersKept(d, d', t)
    ensures OthersKept(tails, d', t)
  {
    forall u {:trigger Live(tails, u)} | u != t && Live(tails, u)
      ensures Live(d', u) && Block(d', u) == Block(tails, u)
    {
      assert Live(d, u);
    }
  }

  class Tail {
    var tails: seq<TailBlock>
    var firstFree: int
    ghost var free: set<int>

    ghost predicate Valid()
      reads this
    {
      IsChain(tails, firstFree, free)
    }

    constructor ()
      ensures Valid() && tails == []
    {
      tails, firstFree, free := [], 0, {};
    }

    /** Blocks that come from elsewhere, of which `free` are meant to be on the chain. */
    constructor Loaded(tails: seq<TailBlock>, firstFree: int, ghost free: set<int>)
      ensures this.tails == tails && this.firstFree == firstFree && this.free == free
    {
      this.tails, this.firstFree, this.free := tails, firstFree, free;
    }

    /** Hands out a block that is not allocated and leaves every allocated one alone. */
    method AllocBlock() returns (index: int)
      requires Valid()
      modifies this
      ensures Valid()
      ensures 1 <= index && !Live(old(tails), index)
      ensures Live(tails, index) && Block(tails, index) == TailBlock(-1, TRIE_DATA_ERROR, Null)
      ensures forall t {:trigger Live(tails, t)} :: t != index ==> (Live(tails, t) <==> Live(old(tails), t))
      ensures OthersKept(old(tails), tails, index)
      ensures index - TAIL_START_BLOCKNO == if old(firstFree) != 0 then old(firstFree) else |old(tails)|
      ensures free == old(free) - {index - TAIL_START_BLOCKNO}
      ensures |tails| == if old(firstFree) != 0 then |old(tails)| else |old(tails)| + 1
    {
      var block;
      if 0 != firstFree {
        block := firstFree;
        assert tails[block].nextFree == NextFree(tails, block);
        firstFree := tails[block].nextFree;
        tails := tails[block := TailBlock(-1, TRIE_DATA_ERROR, Null)];
        free := free - {block};
        assert forall b {:trigger NextFree(tails, b)} :: NextFree(tails, b) == if b == block then -1 else NextFree(old(tails), b);
      } else {
        block := |tails|;
        tails := tails + [TailBlock(-1, TRIE_DATA_ERROR, Null)];
        assert forall b {:trigger NextFree(tails, b)} :: NextFree(tails, b) == if b == block then -1 else NextFree(old(tails), b);
      }
      index := block + TAIL_START_BLOCKNO;
    }

    /** The links of the chain between which `block` belongs. */
    method ChainPosition(block: int) returns (j: int, i: int)
      requires Valid() && 0 <= block && block !in free
      ensures i == 0 || (i in free && block < i)
      ensures if j == 0 then i == firstFree else j in free && j < block && i == NextFree(tails, j)
    {
      j, i := 0, firstFree;
      while i != 0 && i < block
        invariant i == 0 || i in free
        invariant if j == 0 then i == firstFree else j in free && j < block && i == NextFree(tails, j)
        decreases i != 0, |tails| - i
      {
        assert tails[i].nextFree == NextFree(tails, i);
        j := i;
        i := tails[i].nextFree;
      }
    }

    /** Gives an allocated block back, in order.  Freeing block 0 drops the chain. */
    method FreeBlock(index: int)
      requires Valid() && Live(tails, index)
      modifies this
      ensures Valid()
      ensures forall t {:trigger Live(tails, t)} :: Live(tails, t) <==> t != index && Live(old(tails), t)
      ensures OthersKept(old(tails), tails, index)
      ensures |tails| == |old(tails)|
      ensures free == if index == TAIL_START_BLOCKNO then {} else old(free) + {index - TAIL_START_BLOCKNO}
    {
      var block := index - TAIL_START_BLOCKNO;
      tails := tails[block := tails[block].(data := TRIE_DATA_ERROR, suffix := Null)];
      PayloadOnly(old(tails), tails, firstFree, free);
      LiveNotFree(tails, firstFree, free, index);
      hide IsChain;
      ghost var d := tails;
      var j, i := ChainPosition(block);
      tails := tails[block := tails[block].(nextFree := i)];
      if 0 != j {
        tails := tails[j := tails[j].(nextFree := block)];
      } else {
        firstFree := block;
      }
      InsertedInChain(d, tails, old(firstFree), free, block, j, i);
      FreedKeeps(old(tails), d, tails, index);
      free := if block == 0 then {} else free + {block};
    }

    method GetSuffix(index: int) returns (s: Suffix)
      requires 1 <= index
      ensures s == if index <= |tails| then tails[index - TAIL_START_BLOCKNO].suffix else Null
    {
      var i := index - TAIL_START_BLOCKNO;
      s := if i < |tails| then tails[i].suffix else Null;
    }

    method SetSuffix(index: int, s: Suffix) returns (ok: bool)
      requires Valid() && 1 <= index
      modifies this`tails
      ensures Valid() && (ok <==> index <= |tails|)
      ensures tails == if index <= |old(tails)| then old(tails)[index - 1 := old(tails)[index - 1].(suffix := s)] else old(tails)
    {
      var i := index - TAIL_START_BLOCKNO;
      if i < |tails| {
        tails := tails[i := tails[i].(suffix := s)];
        PayloadOnly(old(tails), tails, firstFree, free);
        return true;
      }
      return false;
    }

    method GetData(index: int) returns (data: int)
      requires 1 <= index
      ensures data == if index <= |tails| then tails[index - TAIL_START_BLOCKNO].data else TRIE_DATA_ERROR
    {
      var i := index - TAIL_START_BLOCKNO;
      data := if i < |tails| then tails[i].data else TRIE_DATA_ERROR;
    }

    method SetData(index: int, data: int) returns (ok: bool)
      requires Valid() && 1 <= index
      modifies this`tails
      ensures Valid() && (ok <==> index <= |tails|)
      ensures tails == if index <= |old(tails)| then old(tails)[index - 1 := old(tails)[index - 1].(data := data)] else old(tails)
    {
      var i := index - TAIL_START_BLOCKNO;
      if i < |tails| {
        tails := tails[i := tails[i].(data := data)];
        PayloadOnly(old(tails), tails, firstFree, free);
        return true;
      }
      return false;
    }

    method AddSuffix(s: Suffix) returns (index: int)
      requires Valid()
      modifies this
      ensures Valid()
      ensures 1 <= index && !Live(old(tails), index)
      ensures Live(tails, index) && Block(tails, index) == TailBlock(-1, TRIE_DATA_ERROR, s)
      ensures forall t {:trigger Live(tails, t)} :: t != index ==> (Live(tails, t) <==> Live(old(tails), t))
      ensures OthersKept(old(tails), tails, index)
    {
      index := AllocBlock();
      ghost var before := tails;
      var _ := SetSuffix(index, s);
      assert forall t {:trigger Live(tails, t)} :: Live(tails, t) <==> Live(before, t);
    }

    /** Compares one character with the suffix and steps on unless at its end. */
    method WalkChar(index: int, suffixIdx: Short, c: int) returns (ok: bool, next: Short)
      requires 1 <= index <= |tails| && 0 <= suffixIdx
      requires tails[index - 1].suffix.Chars? ==> suffixIdx <= |tails[index - 1].suffix.chars| <= SHRT_MAX
      ensures ok <==> tails[index - 1].suffix.Chars? && CharAt(tails[index - 1].suffix.chars, suffixIdx) == c
      ensures next == if ok && c != 0 then suffixIdx + 1 else suffixIdx
    {
      var s := GetSuffix(index);
      if s.Null? {
        return false, suffixIdx;
      }
      var suffixChar := CharAt(s.chars, suffixIdx);
      if suffixChar == c {
        return true, if 0 != suffixChar then suffixIdx + 1 else suffixIdx;
      }
      return false, suffixIdx;
    }
  }
}
