/** The alphabet map: a linked list of character ranges, edited in place. */
module AlphaMaps {
  import opened AlphaRanges

  /** Cutting the ranges from..to out of the list and putting `mid` in their place. */
  function Splice(rs: seq<Range>, from: int, to: int, mid: seq<Range>): seq<Range>
    requires 0 <= from <= to <= |rs|
  {
    rs[..from] + mid + rs[to..]
  }

  /** The ranges left and right of a cut keep their distance to what replaces it. */
  lemma SpliceSorted(rs: seq<Range>, from: int, to: int, mid: Range)
    requires Sorted(rs) && 0 <= from <= to <= |rs| && mid.begin <= mid.end
    requires from > 0 ==> rs[from - 1].end < mid.begin
    requires to < |rs| ==> mid.end < rs[to].begin
    ensures Sorted(Splice(rs, from, to, [mid]))
  {
    var s := Splice(rs, from, to, [mid]);
    assert forall i {:trigger s[i]} :: 0 <= i < |s| ==>
      s[i] == if i < from then rs[i] else if i == from then mid else rs[i - from - 1 + to];
    forall i, j {:trigger s[i], s[j]} | 0 <= i < j < |s|
      ensures s[i].end < s[j].begin
    {
      if j == from {
        assert rs[from - 1].end < mid.begin;
      } else if i == from {
        assert rs[to].begin <= rs[j - from - 1 + to].begin;
      }
    }
  }

  /** Replacing from..to by `mid` adds the characters of `mid` and drops none outside it
      if everything cut out lies inside `mid`. */
  lemma SpliceCovers(rs: seq<Range>, from: int, to: int, mid: Range, c: int)
    requires 0 <= from <= to <= |rs|
    requires forall i {:trigger rs[i]} :: from <= i < to ==> mid.begin <= rs[i].begin && rs[i].end <= mid.end
    ensures Covers(Splice(rs, from, to, [mid]), c) <==> Covers(rs, c) || mid.begin <= c <= mid.end
  {
    var s := Splice(rs, from, to, [mid]);
    if Covers(s, c) {
      var i :| 0 <= i < |s| && s[i].begin <= c <= s[i].end;
      assert s[i] == if i < from then rs[i] else if i == from then mid else rs[i - from - 1 + to];
    }
    if Covers(rs, c) {
      var i :| 0 <= i < |rs| && rs[i].begin <= c <= rs[i].end;
      if i < from {
        assert s[i] == rs[i];
      } else if to <= i {
        assert s[i - to + from + 1] == rs[i];
      } else {
        assert s[from] == mid;
      }
    }
    if mid.begin <= c <= mid.end {
      assert s[from] == mid;
    }
  }

  /** What begin..end becomes when it swallows the ranges from..to. */
  function Hull(rs: seq<Range>, from: int, to: int, begin: AlphaChar, end: AlphaChar): Range
    requires 0 <= from <= to <= |rs|
  {
    if from == to then Range(begin, end)
    else Range(if begin < rs[from].begin then begin else rs[from].begin, if rs[to - 1].end < end then end else rs[to - 1].end)
  }

  /** from..to are the ranges that meet begin..end. */
  ghost predicate Meets(rs: seq<Range>, from: int, to: int, begin: AlphaChar, end: AlphaChar) {
    && 0 <= from <= to <= |rs|
    && (from > 0 ==> rs[from - 1].end < begin)
    && (to < |rs| ==> end < rs[to].begin)
    && (from < to ==> begin <= rs[from].end && rs[to - 1].begin <= end)
  }

  /** The ranges after adding begin..end: those that meet it are replaced by one. */
  ghost predicate Added(rs: seq<Range>, begin: AlphaChar, end: AlphaChar, rs': seq<Range>) {
    exists from, to :: Meets(rs, from, to, begin, end) && rs' == Splice(rs, from, to, [Hull(rs, from, to, begin, end)])
  }

  /** The hull covers begin..end and what it swallows, and swallows nothing in part. */
  lemma HullCovers(rs: seq<Range>, from: int, to: int, begin: AlphaChar, end: AlphaChar)
    requires Sorted(rs) && begin <= end && Meets(rs, from, to, begin, end)
    ensures var mid := Hull(rs, from, to, begin, end);
            && mid.begin <= begin && end <= mid.end
            && (from > 0 ==> rs[from - 1].end < mid.begin)
            && (to < |rs| ==> mid.end < rs[to].begin)
            && (forall i {:trigger rs[i]} :: from <= i < to ==> mid.begin <= rs[i].begin && rs[i].end <= mid.end)
            && (forall c :: mid.begin <= c <= mid.end ==> Covers(rs, c) || begin <= c <= end)
  {
    var mid := Hull(rs, from, to, begin, end);
    if from < to {
      assert forall i {:trigger rs[i]} :: from <= i < to ==> rs[from].begin <= rs[i].begin && rs[i].end <= rs[to - 1].end;
      forall c | mid.begin <= c <= mid.end && !(begin <= c <= end)
        ensures Covers(rs, c)
      {
        var i := if c < begin then from else to - 1;
        assert rs[i].begin <= c <= rs[i].end;
      }
    }
  }

  lemma AddedAs(rs: seq<Range>, from: int, to: int, begin: AlphaChar, end: AlphaChar, mid: Range)
    requires Sorted(rs) && 0 <= from < to <= |rs| && (from > 0 ==> rs[from - 1].end < begin)
    requires begin <= rs[from].end && rs[to - 1].begin <= end && (end <= rs[to - 1].end || (to < |rs| ==> end < rs[to].begin))
    requires mid.begin == (if begin < rs[from].begin then begin else rs[from].begin)
    requires mid.end == (if rs[to - 1].end < end then end else rs[to - 1].end)
    ensures Added(rs, begin, end, Splice(rs, from, to, [mid]))
  {
    hide Splice;
    assert Meets(rs, from, to, begin, end) && Hull(rs, from, to, begin, end) == mid;
  }

  lemma SpliceIsUnion(rs: seq<Range>, from: int, to: int, begin: AlphaChar, end: AlphaChar)
    requires Sorted(rs) && begin <= end && Meets(rs, from, to, begin, end)
    ensures Sorted(Splice(rs, from, to, [Hull(rs, from, to, begin, end)]))
    ensures IsUnion(rs, begin, end, Splice(rs, from, to, [Hull(rs, from, to, begin, end)]))
  {
    var mid := Hull(rs, from, to, begin, end);
    HullCovers(rs, from, to, begin, end);
    SpliceSorted(rs, from, to, mid);
    hide Splice, Sorted, Covers, Hull;
    forall c
      ensures Covers(Splice(rs, from, to, [mid]), c) <==> Covers(rs, c) || begin <= c <= end
    {
      SpliceCovers(rs, from, to, mid, c);
    }
  }

  /** Adding begin..end yields the union, sorted and disjoint again. */
  lemma AddedIsUnion(rs: seq<Range>, begin: AlphaChar, end: AlphaChar, rs': seq<Range>)
    requires Sorted(rs) && begin <= end && Added(rs, begin, end, rs')
    ensures Sorted(rs') && IsUnion(rs, begin, end, rs')
  {
    hide Splice, Sorted, IsUnion, Hull;
    var from, to :| Meets(rs, from, to, begin, end) && rs' == Splice(rs, from, to, [Hull(rs, from, to, begin, end)]);
    SpliceIsUnion(rs, from, to, begin, end);
  }

  /** A range beyond all others is appended. */
  lemma AddedLast(rs: seq<Range>, begin: AlphaChar, end: AlphaChar, rs': seq<Range>)
    requires Sorted(rs) && begin <= end && Added(rs, begin, end, rs')
    requires rs != [] ==> rs[|rs| - 1].end < begin
    ensures rs' == rs + [Range(begin, end)]
  {
    assert forall i {:trigger rs[i]} :: 0 <= i < |rs| ==> rs[i].begin <= rs[i].end <= rs[|rs| - 1].end;
    var from, to :| Meets(rs, from, to, begin, end) && rs' == Splice(rs, from, to, [Hull(rs, from, to, begin, end)]);
  }

  lemma SpliceTail(rs: seq<Range>, from: int, to: int, mid: Range)
    requires 0 <= from <= to <= |rs|
    ensures |Splice(rs, from, to, [mid])| == |rs| - to + from + 1 && Splice(rs, from, to, [mid])[from] == mid
    ensures to < |rs| ==>
      var s := Splice(rs, from, to, [mid]);
      && s[from + 1] == rs[to]
      && s[..from + 1] + s[from + 2..] == Splice(rs, from, to + 1, [mid])
  {
  }

  lemma SpliceSame(rs: seq<Range>, k: int)
    requires 0 <= k < |rs|
    ensures Splice(rs, k, k + 1, [rs[k]]) == rs
  {
  }

  lemma SpliceUpdate(rs: seq<Range>, from: int, to: int, mid: Range, mid': Range)
    requires 0 <= from <= to <= |rs|
    ensures |Splice(rs, from, to, [mid])| > from
    ensures Splice(rs, from, to, [mid])[from := mid'] == Splice(rs, from, to, [mid'])
  {
  }

  lemma SortedAt(rs: seq<Range>, k: int)
    requires Sorted(rs) && 0 <= k < |rs|
    ensures rs[k].begin <= rs[k].end && (k > 0 ==> rs[k - 1].end < rs[k].begin)
  {
  }

  class AlphaRange {
    var next: AlphaRange?
    var begin: AlphaChar
    var end: AlphaChar

    constructor (begin: AlphaChar, end: AlphaChar, next: AlphaRange?)
      ensures this.begin == begin && this.end == end && this.next == next
    {
      this.begin, this.end, this.next := begin, end, next;
    }
  }

  ghost function At(nodes: seq<AlphaRange>, i: int): AlphaRange? {
    if 0 <= i < |nodes| then nodes[i] else null
  }

  ghost predicate Distinct(nodes: seq<AlphaRange>) {
    forall i, j {:trigger nodes[i], nodes[j]} :: 0 <= i < j < |nodes| ==> nodes[i] != nodes[j]
  }

  lemma DistinctInsert(nodes: seq<AlphaRange>, k: int, x: AlphaRange)
    requires Distinct(nodes) && 0 <= k <= |nodes| && x !in nodes
    ensures Distinct(nodes[..k] + [x] + nodes[k..])
  {
    var s := nodes[..k] + [x] + nodes[k..];
    assert forall i {:trigger s[i]} :: 0 <= i < |s| ==> s[i] == if i < k then nodes[i] else if i == k then x else nodes[i - 1];
  }

  class AlphaMap {
    var firstRange: AlphaRange?
    ghost var nodes: seq<AlphaRange>  // the list, from the first range on
    ghost var ranges: seq<Range>      // what its nodes hold
    ghost var repr: set<AlphaRange>   // the nodes of the list and maybe some removed ones

    /** The nodes are distinct, linked in order, and hold `ranges`. */
    ghost predicate Linked()
      reads this, repr
    {
      && |ranges| == |nodes|
      && (forall i {:trigger nodes[i]} :: 0 <= i < |nodes| ==> nodes[i] in repr)
      && firstRange == At(nodes, 0)
      && Distinct(nodes)
      && (forall i {:trigger nodes[i].next} :: 0 <= i < |nodes| ==> nodes[i].next == At(nodes, i + 1))
      && (forall i {:trigger nodes[i].begin} :: 0 <= i < |nodes| ==> nodes[i].begin == ranges[i].begin)
      && (forall i {:trigger nodes[i].end} :: 0 <= i < |nodes| ==> nodes[i].end == ranges[i].end)
    }

    ghost predicate Valid()
      reads this, repr
    {
      Linked() && Sorted(ranges)
    }

    lemma NodeAt(i: int)
      requires Linked() && 0 <= i < |nodes|
      ensures |ranges| == |nodes| && nodes[i].next == At(nodes, i + 1)
      ensures nodes[i].begin == ranges[i].begin && nodes[i].end == ranges[i].end
      ensures i + 1 < |nodes| ==> nodes[i + 1] != nodes[i]
      ensures i > 0 ==> nodes[i - 1] != nodes[i]
    {
    }

    lemma SameLength()
      requires Linked()
      ensures |ranges| == |nodes| && firstRange == At(nodes, 0)
    {
    }

    constructor ()
      ensures Valid() && ranges == [] && repr == {}
    {
      firstRange, nodes, ranges, repr := null, [], [], {};
    }

    method SetBegin(ghost k: int, r: AlphaRange, begin: AlphaChar)
      requires Linked() && 0 <= k < |nodes| && r == nodes[k]
      modifies r, this`ranges
      ensures Linked() && ranges == old(ranges)[k := Range(begin, old(ranges)[k].end)]
    {
      r.begin := begin;
      ranges := ranges[k := Range(begin, ranges[k].end)];
    }

    method SetEnd(ghost k: int, r: AlphaRange, end: AlphaChar)
      requires Linked() && 0 <= k < |nodes| && r == nodes[k]
      modifies r, this`ranges
      ensures Linked() && ranges == old(ranges)[k := Range(old(ranges)[k].begin, end)]
    {
      r.end := end;
      ranges := ranges[k := Range(ranges[k].begin, end)];
    }

    /** Takes the node `r` after `q` out of the list. */
    method Remove(ghost k: int, q: AlphaRange?, r: AlphaRange) returns (next: AlphaRange?)
      requires Linked() && 0 <= k < |nodes| && r == nodes[k] && q == At(nodes, k - 1)
      modifies this, if q == null then {} else {q}
      ensures Linked()
      ensures nodes == old(nodes)[..k] + old(nodes)[k + 1..]
      ensures ranges == old(ranges)[..k] + old(ranges)[k + 1..] && repr == old(repr)
      ensures next == At(nodes, k)
    {
      if q != null {
        q.next := r.next;
        next := q.next;
      } else {
        firstRange := r.next;
        next := firstRange;
      }
      nodes := nodes[..k] + nodes[k + 1..];
      ranges := ranges[..k] + ranges[k + 1..];
    }

    /** Puts a new node between `q` and `r`. */
    method InsertBetween(ghost k: int, q: AlphaRange?, r: AlphaRange?, begin: AlphaChar, end: AlphaChar)
      requires Linked() && 0 <= k <= |nodes| && r == At(nodes, k) && q == At(nodes, k - 1)
      modifies this, if q == null then {} else {q}
      ensures Linked()
      ensures ranges == Splice(old(ranges), k, k, [Range(begin, end)])
      ensures fresh(repr - old(repr))
    {
      var range := new AlphaRange(begin, end, r);
      DistinctInsert(nodes, k, range);
      hide Distinct;
      if q != null {
        q.next := range;
      } else {
        firstRange := range;
      }
      repr := repr + {range};
      nodes := nodes[..k] + [range] + nodes[k..];
      ranges := Splice(ranges, k, k, [Range(begin, end)]);
      forall i | 0 <= i < |nodes|
        ensures nodes[i] in repr && nodes[i].next == At(nodes, i + 1)
        ensures nodes[i].begin == ranges[i].begin && nodes[i].end == ranges[i].end
      {
        if i < k {
          assert nodes[i] == old(nodes)[i];
          assert i + 1 < k ==> old(nodes)[i] != old(nodes)[k - 1];
        } else if i > k {
          assert nodes[i] == old(nodes)[i - 1];
        }
      }
    }

    /** Skips the ranges that end before `begin`. */
    method SkipBefore(begin: AlphaChar) returns (q: AlphaRange?, r: AlphaRange?, covered: bool, ghost k: int)
      requires Valid()
      ensures 0 <= k <= |nodes| && r == At(nodes, k) && q == At(nodes, k - 1)
      ensures k > 0 ==> ranges[k - 1].end < begin
      ensures covered ==> k < |nodes| && ranges[k].begin <= begin <= ranges[k].end
      ensures !covered && k < |nodes| ==> begin < ranges[k].begin
    {
      q, r, k, covered := null, firstRange, 0, false;
      while r != null && r.begin <= begin
        invariant 0 <= k <= |nodes| && r == At(nodes, k) && q == At(nodes, k - 1)
        invariant k > 0 ==> ranges[k - 1].end < begin
        invariant !covered
        decreases |nodes| - k
      {
        if begin <= r.end {
          covered := true;
          break;
        }
        q, r := r, r.next;
        k := k + 1;
      }
    }

    /** Runs up to the first range that exceeds `end`, removing the ranges after
        `beginNode` that lie before `end`.  `rs` are the ranges before the call to
        `AddRange`, of which the first `m` have been dealt with. */
    method RemoveCovered(beginNode: AlphaRange, q0: AlphaRange?, end: AlphaChar, ghost k: int, ghost rs: seq<Range>, ghost first: Range)
      returns (q: AlphaRange?, endNode: AlphaRange?, ghost m: int)
      requires Linked() && 0 <= k < |nodes| && beginNode == nodes[k] && q0 == At(nodes, k - 1)
      requires Sorted(rs) && k < |rs| && ranges == Splice(rs, k, k + 1, [first]) && first.begin <= end && first.end == rs[k].end
      modifies this, beginNode
      ensures Linked() && k < |nodes| && beginNode == nodes[k]
      ensures repr == old(repr)
      ensures k <= m <= |rs| && ranges == Splice(rs, k, if m == k then k + 1 else m, [first])
      ensures endNode == beginNode <==> m == k
      ensures m == k ==> end <= rs[k].end
      ensures m > k ==> q == beginNode && rs[k].end < end && rs[m - 1].end < end
      ensures endNode != null && m > k ==> m < |rs| && endNode == At(nodes, k + 1) && rs[m].begin <= end <= rs[m].end
      ensures endNode == null ==> m < |rs| ==> end < rs[m].begin
    {
      hide AlphaMap.Linked, Splice, Sorted;
      var r: AlphaRange? := beginNode;
      q, endNode, m := q0, null, k;
      while r != null && r.begin <= end
        invariant Linked() && k < |nodes| && beginNode == nodes[k] && endNode == null
        invariant repr == old(repr)
        invariant k <= m <= |rs| && ranges == Splice(rs, k, if m == k then k + 1 else m, [first])
        invariant if m == k then r == beginNode && q == q0 else r == At(nodes, k + 1) && q == beginNode && rs[k].end < end && rs[m - 1].end < end
        decreases |rs| - m
      {
        SpliceTail(rs, k, if m == k then k + 1 else m, first);
        NodeAt(if m == k then k else k + 1);
        if end <= r.end {
          endNode := r;
          break;
        } else if r != beginNode {
          r := Remove(k + 1, q, r);
          m := m + 1;
        } else {
          q, r := r, r.next;
          m := m + 1;
        }
      }
      SpliceTail(rs, k, if m == k then k + 1 else m, first);
      if r != null {
        NodeAt(if m == k then k else k + 1);
      } else {
        SameLength();
      }
    }

    /** The part of `AddRange` for a range that meets one in the list: `beginNode`
        covers `begin` already; it takes in the rest. */
    method Absorb(beginNode: AlphaRange, q0: AlphaRange?, begin: AlphaChar, end: AlphaChar, ghost k: int, ghost rs: seq<Range>, ghost first: Range)
      requires Linked() && 0 <= k < |nodes| && beginNode == nodes[k] && q0 == At(nodes, k - 1)
      requires Sorted(rs) && k < |rs| && ranges == Splice(rs, k, k + 1, [first]) && first.end == rs[k].end
      requires first.begin == (if begin < rs[k].begin then begin else rs[k].begin) && first.begin <= end
      requires begin <= end && begin <= rs[k].end && rs[k].begin <= end && (k > 0 ==> rs[k - 1].end < begin)
      modifies this, beginNode
      ensures Linked() && Added(rs, begin, end, ranges)
      ensures repr == old(repr)
    {
      hide AlphaMap.Linked, Splice, Added, Sorted;
      var q, endNode, m := RemoveCovered(beginNode, q0, end, k, rs, first);
      SpliceTail(rs, k, if m == k then k + 1 else m, first);
      NodeAt(k);
      SortedAt(rs, if m == k then k else m - 1);
      if endNode == null && q != null && begin <= q.end {
        SetEnd(k, q, end);
        SpliceUpdate(rs, k, m, first, Range(first.begin, end));
        AddedAs(rs, k, m, begin, end, Range(first.begin, end));
        endNode := q;
      } else if endNode != beginNode {
        SameLength();
        MergeNext(beginNode, endNode, k, m, rs, first);
        AddedAs(rs, k, m + 1, begin, end, Range(first.begin, rs[m].end));
      } else {
        AddedAs(rs, k, k + 1, begin, end, first);
      }
    }

    /** The range behind `beginNode` gives its end to it and goes. */
    method MergeNext(beginNode: AlphaRange, endNode: AlphaRange, ghost k: int, ghost m: int, ghost rs: seq<Range>, ghost first: Range)
      requires Linked() && 0 <= k < |nodes| && beginNode == nodes[k] && endNode == At(nodes, k + 1)
      requires k < m < |rs| && ranges == Splice(rs, k, m, [first])
      modifies this, beginNode
      ensures Linked() && ranges == Splice(rs, k, m + 1, [Range(first.begin, rs[m].end)]) && repr == old(repr)
    {
      hide AlphaMap.Linked, Splice;
      SpliceTail(rs, k, m, first);
      NodeAt(k);
      NodeAt(k + 1);
      var e := endNode.end;
      SetEnd(k, beginNode, e);
      SpliceUpdate(rs, k, m, first, Range(first.begin, e));
      SpliceTail(rs, k, m, Range(first.begin, e));
      var _ := Remove(k + 1, beginNode, endNode);
    }

    /** The part of `AddRange` for a range that meets `r`, which covers `begin` or is
        extended to it. */
    method Overlap(q: AlphaRange?, r: AlphaRange, covered: bool, begin: AlphaChar, end: AlphaChar, ghost k: int)
      requires Valid() && begin <= end && 0 <= k < |nodes| && r == nodes[k] && q == At(nodes, k - 1)
      requires k > 0 ==> ranges[k - 1].end < begin
      requires if covered then ranges[k].begin <= begin <= ranges[k].end else begin < ranges[k].begin <= end
      modifies this, r
      ensures Linked() && Added(old(ranges), begin, end, ranges) && repr == old(repr)
    {
      hide AlphaMap.Linked, Splice, Sorted, Added;
      ghost var rs := ranges;
      SameLength();
      SortedAt(rs, k);
      SpliceSame(rs, k);
      if !covered {
        SetBegin(k, r, begin);
        SpliceUpdate(rs, k, k + 1, rs[k], Range(begin, rs[k].end));
      }
      Absorb(r, q, begin, end, k, rs, ranges[k]);
    }

    /** Adds the characters begin..end.  When no range meets begin..end the search for
        the end and the extension of `q` change nothing and a new range is inserted. */
    method AddRange(begin: AlphaChar, end: AlphaChar) returns (res: int)
      requires Valid()
      modifies this, repr
      ensures Valid() && fresh(repr - old(repr))
      ensures res == if begin > end then -1 else 0
      ensures begin > end ==> ranges == old(ranges)
      ensures begin <= end ==> Added(old(ranges), begin, end, ranges)
    {
      if begin > end {
        return -1;
      }
      var q, r, covered, k := SkipBefore(begin);
      if covered || (r != null && r.begin <= end) {
        Overlap(q, r, covered, begin, end, k);
      } else {
        assert Meets(ranges, k, k, begin, end) && Hull(ranges, k, k, begin, end) == Range(begin, end);
        InsertBetween(k, q, r, begin, end);
      }
      AddedIsUnion(old(ranges), begin, end, ranges);
      return 0;
    }

    method CharToTrie(ac: int) returns (tc: int)
      requires Linked()
      ensures tc == Code(ranges, ac)
    {
      if ac == 0 {
        return 0;
      }
      var alphaBegin := 1;
      var range := firstRange;
      ghost var k := 0;
      while range != null
        invariant 0 <= k <= |nodes| && range == At(nodes, k)
        invariant Code(ranges, ac) == CodeFrom(ranges[k..], alphaBegin, ac)
        decreases |nodes| - k
      {
        if range.begin <= ac && ac <= range.end {
          return (alphaBegin + (ac - range.begin)) % 256;
        }
        alphaBegin := (alphaBegin + (range.end - range.begin + 1)) % 256;
        range := range.next;
        k := k + 1;
      }
      return TRIE_CHAR_MAX;
    }

    method TrieToChar(tc: int) returns (ac: int)
      requires Linked()
      ensures ac == Char(ranges, tc)
    {
      if tc == 0 {
        return 0;
      }
      var alphaBegin := 1;
      var range := firstRange;
      ghost var k := 0;
      while range != null
        invariant 0 <= k <= |nodes| && range == At(nodes, k)
        invariant Char(ranges, tc) == CharFrom(ranges[k..], alphaBegin, tc)
        decreases |nodes| - k
      {
        if tc <= alphaBegin + (range.end - range.begin) {
          return range.begin + (tc - alphaBegin);
        }
        alphaBegin := (alphaBegin + (range.end - range.begin + 1)) % 256;
        range := range.next;
        k := k + 1;
      }
      return ALPHA_CHAR_ERROR;
    }

    /** A copy with the same ranges, hence the same coding. */
    method Clone() returns (copy: AlphaMap)
      requires Valid()
      ensures copy.Valid() && fresh(copy) && fresh(copy.repr)
      ensures copy.ranges == ranges
    {
      hide AlphaMap.Linked, Sorted, Added;
      SameLength();
      copy := new AlphaMap();
      var range := firstRange;
      ghost var k := 0;
      while range != null
        invariant 0 <= k <= |nodes| && range == At(nodes, k)
        invariant copy.Valid() && fresh(copy) && fresh(copy.repr) && copy.ranges == ranges[..k]
        invariant Valid() && nodes == old(nodes) && ranges == old(ranges)
        decreases |nodes| - k
      {
        NodeAt(k);
        SortedAt(ranges, k);
        ghost var before := copy.ranges;
        var res := copy.AddRange(range.begin, range.end);
        AddedLast(before, range.begin, range.end, copy.ranges);
        range := range.next;
        k := k + 1;
      }
    }
  }
}
