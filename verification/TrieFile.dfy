/** Saving a trie and loading it again: what is loaded is what was saved. */
module TrieFile {
  import opened FileBytes
  import opened TrieFormat
  import opened TrieReader
  import opened FreeList
  import opened CellTree
  import opened DoubleArray
  import opened TailPool
  import opened AlphaMaps
  import opened TrieContents
  import opened Tries
  import A = AlphaRanges

  /** What a number that was written reads back as. */
  function ReadBack(v: int): int { Signed(Unsigned32(v), 0x8000_0000) }

  function Cells(ps: seq<Pair>): (cells: seq<Cell>)
    ensures |cells| == |ps|
    ensures forall i {:trigger cells[i]} :: 0 <= i < |ps| ==> cells[i] == Cell(ps[i].0, ps[i].1)
  {
    seq(|ps|, i requires 0 <= i < |ps| => Cell(ps[i].0, ps[i].1))
  }

  /** The bounds of a range are read as signed and passed on as unsigned numbers. */
  function Ranges(ps: seq<Pair>): (rs: seq<A.Range>)
    ensures |rs| == |ps|
    ensures forall i {:trigger rs[i]} :: 0 <= i < |ps| ==> rs[i] == A.Range(Unsigned32(ps[i].0), Unsigned32(ps[i].1))
  {
    seq(|ps|, i requires 0 <= i < |ps| => A.Range(Unsigned32(ps[i].0), Unsigned32(ps[i].1)))
  }

  /** Elements read before those of `p`. */
  function Prepend<T>(xs: seq<T>, p: Parsed<seq<T>>): Parsed<seq<T>> {
    if p.Bad? then Bad else Got(xs + p.value, p.rest)
  }

  lemma PrependMore<T>(xs: seq<T>, x: T, p: Parsed<seq<T>>)
    ensures Prepend(xs, Prepend([x], p)) == Prepend(xs + [x], p)
  {
    if p.Got? {
      assert xs + ([x] + p.value) == xs + [x] + p.value;
    }
  }

  lemma PrependNothing<T>(p: Parsed<seq<T>>)
    ensures Prepend([], p) == p
    ensures p.Got? && p.value == [] ==> forall xs: seq<T> :: Prepend(xs, p) == Got(xs, p.rest)
  {
    if p.Got? {
      assert [] + p.value == p.value;
      assert p.value == [] ==> forall xs: seq<T> :: xs + p.value == xs;
    }
  }

  // ---- pairs of numbers ----

  function ParsePair(b: seq<Byte>): Parsed<Pair> {
    var first := ParseInt32(b);
    if first.Bad? then Bad
    else
      var second := ParseInt32(first.rest);
      if second.Bad? then Bad else Got((first.value, second.value), second.rest)
  }

  function ParsePairs(b: seq<Byte>, n: int): Parsed<seq<Pair>>
    decreases n
  {
    if n <= 0 then Got([], b)
    else
      var p := ParsePair(b);
      if p.Bad? then Bad else Prepend([p.value], ParsePairs(p.rest, n - 1))
  }

  lemma PairRoundTrip(p: Pair, rest: seq<Byte>)
    requires IsWord(p.0) && IsWord(p.1)
    ensures ParsePair(PairBytes(p) + rest) == Got((ReadBack(p.0), ReadBack(p.1)), rest)
  {
    assert PairBytes(p) + rest == Int32Bytes(p.0) + (Int32Bytes(p.1) + rest);
    Int32RoundTrip(p.0, Int32Bytes(p.1) + rest);
    Int32RoundTrip(p.1, rest);
  }

  /** `qs` are the pairs `ps` as they are read back. */
  ghost predicate AreReadBack(ps: seq<Pair>, qs: seq<Pair>) {
    && |qs| == |ps|
    && forall i {:trigger qs[i]} :: 0 <= i < |ps| ==> qs[i] == (ReadBack(ps[i].0), ReadBack(ps[i].1))
  }

  lemma Regroup(a: seq<Byte>, b: seq<Byte>, rest: seq<Byte>)
    ensures a + b + rest == a + (b + rest)
  {
  }

  lemma ReadBackMore(ps: seq<Pair>, q: Pair, qs: seq<Pair>)
    requires ps != [] && q == (ReadBack(ps[0].0), ReadBack(ps[0].1)) && AreReadBack(ps[1..], qs)
    ensures AreReadBack(ps, [q] + qs)
  {
    hide ReadBack;
  }

  lemma {:induction false} PairsRoundTrip(ps: seq<Pair>, rest: seq<Byte>)
    requires AreWords(ps)
    ensures var r := ParsePairs(PairsBytes(ps) + rest, |ps|); r.Got? && AreReadBack(ps, r.value) && r.rest == rest
  {
    if ps == [] {
      assert PairsBytes(ps) + rest == rest;
    } else {
      WordsTail(ps);
      hide IsWord, ReadBack, PairBytes, ParsePair, AreWords, AreReadBack;
      var tail := ps[1..];
      PairRoundTrip(ps[0], PairsBytes(tail) + rest);
      PairsRoundTrip(tail, rest);
      Regroup(PairBytes(ps[0]), PairsBytes(tail), rest);
      ReadBackMore(ps, (ReadBack(ps[0].0), ReadBack(ps[0].1)), ParsePairs(PairsBytes(tail) + rest, |tail|).value);
    }
  }

  method ReadPair(file: File) returns (r: Parsed<Pair>)
    requires file.Valid()
    modifies file`pos
    ensures file.Valid() && r == ParsePair(old(file.Rest()))
    ensures r.Got? ==> file.Rest() == r.rest
  {
    var first := file.ReadInt32();
    if first.Bad? {
      return Bad;
    }
    var second := file.ReadInt32();
    if second.Bad? {
      return Bad;
    }
    r := Got((first.value, second.value), second.rest);
  }

  // ---- the double array ----

  function ParseDa(b: seq<Byte>): Parsed<seq<Cell>> {
    var sig := ParseInt32(b);
    if sig.Bad? || sig.value != DA_SIGNATURE then Bad
    else
      var n := ParseInt32(sig.rest);
      if n.Bad? || n.value <= 0 then Bad
      else
        var ps := ParsePairs(n.rest, n.value - 1);
        if ps.Bad? then Bad else Got([Cell(DA_SIGNATURE, n.value)] + Cells(ps.value), ps.rest)
  }

  /** The cells can be read back from their bytes; the header cell is found there too. */
  lemma DaRoundTrip(cells: seq<Cell>, rest: seq<Byte>)
    requires cells != [] && cells[0] == Cell(DA_SIGNATURE, |cells|) && |cells| <= TRIE_INDEX_MAX
    requires forall i {:trigger cells[i]} :: 0 <= i < |cells| ==> IsInt32(cells[i].base) && IsInt32(cells[i].check)
    ensures ParseDa(PairsBytes(CellPairs(cells)) + rest) == Got(cells, rest)
  {
    var ps := CellPairs(cells)[1..];
    DaTail(cells, ps, rest);
    DaHeader(cells, rest);
    hide PairsBytes, ParsePairs, ParseInt32, Int32Bytes, CellPairs;
    Int32RoundTrip(DA_SIGNATURE, Int32Bytes(|cells|) + (PairsBytes(ps) + rest));
    Int32RoundTrip(|cells|, PairsBytes(ps) + rest);
  }

  lemma DaHeader(cells: seq<Cell>, rest: seq<Byte>)
    requires cells != [] && cells[0] == Cell(DA_SIGNATURE, |cells|)
    ensures PairsBytes(CellPairs(cells)) + rest == Int32Bytes(DA_SIGNATURE) + (Int32Bytes(|cells|) + (PairsBytes(CellPairs(cells)[1..]) + rest))
  {
    hide Int32Bytes;
    assert CellPairs(cells)[0] == (DA_SIGNATURE, |cells|);
    Regroup(PairBytes((DA_SIGNATURE, |cells|)), PairsBytes(CellPairs(cells)[1..]), rest);
    Regroup(Int32Bytes(DA_SIGNATURE), Int32Bytes(|cells|), PairsBytes(CellPairs(cells)[1..]) + rest);
  }

  lemma DaTail(cells: seq<Cell>, ps: seq<Pair>, rest: seq<Byte>)
    requires cells != [] && ps == CellPairs(cells)[1..]
    requires forall i {:trigger cells[i]} :: 0 <= i < |cells| ==> IsInt32(cells[i].base) && IsInt32(cells[i].check)
    ensures var r := ParsePairs(PairsBytes(ps) + rest, |cells| - 1);
            r.Got? && r.rest == rest && [cells[0]] + Cells(r.value) == cells
  {
    hide PairsBytes, ParsePairs;
    assert forall i {:trigger ps[i]} :: 0 <= i < |ps| ==> ps[i] == (cells[i + 1].base, cells[i + 1].check);
    PairsRoundTrip(ps, rest);
    var qs := ParsePairs(PairsBytes(ps) + rest, |cells| - 1).value;
    forall i {:trigger qs[i]} | 0 <= i < |qs|
      ensures qs[i] == ps[i]
    {
      Int32RoundTrip(ps[i].0, []);
      Int32RoundTrip(ps[i].1, []);
    }
  }

  method WriteDa(cells: seq<Cell>, file: File)
    modifies file`bytes
    ensures file.bytes == old(file.bytes) + PairsBytes(CellPairs(cells))
  {
    hide Int32Bytes;
    ghost var ps := CellPairs(cells);
    assert ps[0..] == ps;
    var i := 0;
    while i < |cells|
      invariant 0 <= i <= |cells|
      invariant file.bytes + PairsBytes(ps[i..]) == old(file.bytes) + PairsBytes(ps)
    {
      ghost var before := file.bytes;
      file.WriteInt32(cells[i].base);
      file.WriteInt32(cells[i].check);
      assert ps[i..][1..] == ps[i + 1..] && ps[i..][0] == ps[i];
      assert file.bytes + PairsBytes(ps[i + 1..]) == before + (PairBytes(ps[i]) + PairsBytes(ps[i + 1..]));
      i := i + 1;
    }
    assert ps[i..] == [] && file.bytes + [] == file.bytes;
  }

  /** Reads the cells; on failure the file is where it was. */
  method ReadDa(file: File) returns (r: Parsed<seq<Cell>>)
    requires file.Valid()
    modifies file`pos
    ensures file.Valid() && r == ParseDa(old(file.Rest()))
    ensures if r.Got? then file.Rest() == r.rest else file.pos == old(file.pos)
  {
    hide ParseInt32, ParsePair;
    var savePos := file.pos;
    var sig := file.ReadInt32();
    if sig.Bad? || sig.value != DA_SIGNATURE {
      file.pos := savePos;
      return Bad;
    }
    var n := file.ReadInt32();
    if n.Bad? || n.value <= 0 {
      file.pos := savePos;
      return Bad;
    }
    var ps := ReadPairs(file, n.value - 1);
    if ps.Bad? {
      file.pos := savePos;
      return Bad;
    }
    r := Got([Cell(DA_SIGNATURE, n.value)] + Cells(ps.value), ps.rest);
  }

  method ReadPairs(file: File, total: int) returns (r: Parsed<seq<Pair>>)
    requires file.Valid()
    modifies file`pos
    ensures file.Valid() && r == ParsePairs(old(file.Rest()), total)
    ensures r.Got? ==> file.Rest() == r.rest
  {
    hide ParsePair;
    var ps: seq<Pair> := [];
    ghost var b := file.Rest();
    PrependNothing(ParsePairs(b, total));
    var i := 0;
    while i < total
      invariant 0 <= i && (i <= total || total < 0) && file.Valid()
      invariant ParsePairs(b, total) == Prepend(ps, ParsePairs(file.Rest(), total - i))
    {
      var p := ReadPair(file);
      if p.Bad? {
        return Bad;
      }
      PrependMore(ps, p.value, ParsePairs(p.rest, total - i - 1));
      ps := ps + [p.value];
      i := i + 1;
    }
    PrependNothing(ParsePairs(file.Rest(), total - i));
    r := Got(ps, file.bytes[file.pos..]);
  }

  // ---- the alphabet ----

  function ParseRanges(b: seq<Byte>): Parsed<seq<A.Range>> {
    var sig := ParseInt32(b);
    if sig.Bad? || Unsigned32(sig.value) != ALPHAMAP_SIGNATURE then Bad
    else
      var total := ParseInt32(sig.rest);
      if total.Bad? then Bad
      else
        var ps := ParsePairs(total.rest, total.value);
        if ps.Bad? then Bad else Got(Ranges(ps.value), ps.rest)
  }

  lemma RangesRoundTrip(rs: seq<A.Range>, rest: seq<Byte>)
    requires |rs| < 0x8000_0000
    ensures ParseRanges(RangesBytes(rs) + rest) == Got(rs, rest)
  {
    var ps := RangePairs(rs);
    var more := PairsBytes(ps) + rest;
    assert RangesBytes(rs) + rest == Int32Bytes(ALPHAMAP_SIGNATURE) + (Int32Bytes(|rs|) + more);
    Int32RoundTrip(ALPHAMAP_SIGNATURE, Int32Bytes(|rs|) + more);
    Int32RoundTrip(|rs|, more);
    hide PairsBytes, ParsePairs, ParseInt32, Int32Bytes;
    PairsRoundTrip(ps, rest);
    var qs := ParsePairs(more, |rs|).value;
    RangesReadBack(rs, qs);
  }

  lemma RangesReadBack(rs: seq<A.Range>, qs: seq<Pair>)
    requires AreReadBack(RangePairs(rs), qs)
    ensures Ranges(qs) == rs
  {
    forall i {:trigger qs[i]} | 0 <= i < |qs|
      ensures Unsigned32(qs[i].0) == rs[i].begin && Unsigned32(qs[i].1) == rs[i].end
    {
      Int32RoundTrip(rs[i].begin, []);
      Int32RoundTrip(rs[i].end, []);
    }
  }

  /** `ranges` is what adding the ranges `rs` one by one makes: it covers what they
      cover, and ranges already in order stay as they are. */
  ghost predicate Built(rs: seq<A.Range>, ranges: seq<A.Range>) {
    && (forall c {:trigger A.Covers(ranges, c)} :: A.Covers(ranges, c) <==> A.Covers(rs, c))
    && (A.Sorted(rs) ==> ranges == rs)
  }

  lemma CoversMore(rs: seq<A.Range>, r: A.Range, c: int)
    ensures A.Covers(rs + [r], c) <==> A.Covers(rs, c) || r.begin <= c <= r.end
  {
    var s := rs + [r];
    if A.Covers(rs, c) {
      var i :| 0 <= i < |rs| && rs[i].begin <= c <= rs[i].end;
      assert s[i].begin <= c <= s[i].end;
    }
    if r.begin <= c <= r.end {
      assert s[|rs|] == r;
    }
    if A.Covers(s, c) {
      var i :| 0 <= i < |s| && s[i].begin <= c <= s[i].end;
      assert i < |rs| ==> s[i] == rs[i];
    }
  }

  lemma BuiltStep(rs: seq<A.Range>, ranges: seq<A.Range>, r: A.Range, ranges': seq<A.Range>)
    requires Built(rs, ranges) && A.Sorted(ranges)
    requires if r.begin <= r.end then Added(ranges, r.begin, r.end, ranges') else ranges' == ranges
    ensures Built(rs + [r], ranges')
  {
    if r.begin <= r.end {
      AddedIsUnion(ranges, r.begin, r.end, ranges');
    }
    if A.Sorted(rs + [r]) {
      SortedParts(rs, r);
      AddedLast(ranges, r.begin, r.end, ranges');
    }
    hide A.Sorted, A.Covers, Added;
    forall c
      ensures A.Covers(ranges', c) <==> A.Covers(rs + [r], c)
    {
      CoversMore(rs, r, c);
    }
  }

  lemma SortedParts(rs: seq<A.Range>, r: A.Range)
    requires A.Sorted(rs + [r])
    ensures A.Sorted(rs) && r.begin <= r.end && (rs != [] ==> rs[|rs| - 1].end < r.begin)
  {
    var s := rs + [r];
    assert forall i {:trigger rs[i]} :: 0 <= i < |rs| ==> s[i] == rs[i];
    assert s[|rs|] == r;
  }

  method TotalRanges(alphabet: AlphaMap) returns (n: int)
    requires alphabet.Valid()
    ensures n == |alphabet.ranges|
  {
    n := 0;
    var range := alphabet.firstRange;
    while range != null
      invariant 0 <= n <= |alphabet.nodes| && range == At(alphabet.nodes, n)
      decreases |alphabet.nodes| - n
    {
      n := n + 1;
      range := range.next;
    }
  }

  method WriteRanges(alphabet: AlphaMap, file: File)
    requires alphabet.Valid()
    modifies file`bytes
    ensures file.bytes == old(file.bytes) + RangesBytes(alphabet.ranges)
  {
    hide Int32Bytes, A.Sorted, Distinct;
    var n := TotalRanges(alphabet);
    file.WriteInt32(ALPHAMAP_SIGNATURE);
    file.WriteInt32(n);
    WriteList(alphabet, file);
    assert file.bytes == old(file.bytes) + RangesBytes(alphabet.ranges);
  }

  method WriteList(alphabet: AlphaMap, file: File)
    requires alphabet.Valid()
    modifies file`bytes
    ensures file.bytes == old(file.bytes) + PairsBytes(RangePairs(alphabet.ranges))
  {
    hide AlphaMap.Linked, Int32Bytes, A.Sorted;
    ghost var ps, i := RangePairs(alphabet.ranges), 0;
    assert ps[0..] == ps;
    alphabet.SameLength();
    var range := alphabet.firstRange;
    while range != null
      invariant 0 <= i <= |alphabet.nodes| == |ps| && range == At(alphabet.nodes, i) && alphabet.Valid()
      invariant file.bytes + PairsBytes(ps[i..]) == old(file.bytes) + PairsBytes(ps)
      decreases |ps| - i
    {
      ghost var before := file.bytes;
      alphabet.NodeAt(i);
      file.WriteInt32(range.begin);
      file.WriteInt32(range.end);
      assert ps[i..][1..] == ps[i + 1..] && ps[i..][0] == ps[i];
      assert file.bytes + PairsBytes(ps[i + 1..]) == before + (PairBytes(ps[i]) + PairsBytes(ps[i + 1..]));
      range := range.next;
      i := i + 1;
    }
    assert ps[i..] == [] && file.bytes + [] == file.bytes;
  }

  /** Reads the alphabet; on failure the file is where it was. */
  method ReadRanges(file: File) returns (alphabet: AlphaMap?)
    requires file.Valid()
    modifies file`pos
    ensures file.Valid()
    ensures var r := ParseRanges(old(file.Rest()));
            if r.Bad? then alphabet == null && file.pos == old(file.pos)
            else alphabet != null && file.Rest() == r.rest && fresh(alphabet) && fresh(alphabet.repr)
                 && alphabet.Valid() && Built(r.value, alphabet.ranges)
  {
    hide ParseInt32, AlphaMap.Valid, Built, Ranges;
    var savePos := file.pos;
    var sig := file.ReadInt32();
    if sig.Bad? || Unsigned32(sig.value) != ALPHAMAP_SIGNATURE {
      file.pos := savePos;
      return null;
    }
    var total := file.ReadInt32();
    if total.Bad? {
      file.pos := savePos;
      return null;
    }
    alphabet := ReadList(file, total.value);
    if alphabet == null {
      file.pos := savePos;
    }
  }

  method ReadList(file: File, total: int) returns (alphabet: AlphaMap?)
    requires file.Valid()
    modifies file`pos
    ensures file.Valid()
    ensures var r := ParsePairs(old(file.Rest()), total);
            if r.Bad? then alphabet == null
            else alphabet != null && file.Rest() == r.rest && fresh(alphabet) && fresh(alphabet.repr)
                 && alphabet.Valid() && Built(Ranges(r.value), alphabet.ranges)
  {
    hide ParsePair, AlphaMap.Linked, A.Sorted, Built, Added;
    alphabet := new AlphaMap();
    ghost var ps: seq<Pair> := [];
    ghost var b := file.Rest();
    PrependNothing(ParsePairs(b, total));
    BuiltNothing();
    assert Ranges(ps) == [];
    var i := 0;
    while i < total
      invariant 0 <= i && (i <= total || total < 0) && file.Valid()
      invariant alphabet != null && alphabet.Valid() && fresh(alphabet) && fresh(alphabet.repr)
      invariant Built(Ranges(ps), alphabet.ranges)
      invariant ParsePairs(b, total) == Prepend(ps, ParsePairs(file.Rest(), total - i))
    {
      var p := ReadPair(file);
      if p.Bad? {
        return null;
      }
      PrependMore(ps, p.value, ParsePairs(p.rest, total - i - 1));
      ghost var before := alphabet.ranges;
      var r := A.Range(Unsigned32(p.value.0), Unsigned32(p.value.1));
      var _ := alphabet.AddRange(r.begin, r.end);
      BuiltStep(Ranges(ps), before, r, alphabet.ranges);
      assert Ranges(ps + [p.value]) == Ranges(ps) + [r];
      ps := ps + [p.value];
      i := i + 1;
    }
    PrependNothing(ParsePairs(file.Rest(), total - i));
  }

  lemma BuiltNothing()
    ensures Built([], [])
  {
  }

  // ---- the tail pool ----

  /** The C string in a buffer of characters. */
  function UpToZero(chars: seq<int>): (r: seq<int>)
    ensures r <= chars && 0 !in r && (|r| < |chars| ==> chars[|r|] == 0)
  {
    if chars == [] || chars[0] == 0 then [] else [chars[0]] + UpToZero(chars[1..])
  }

  lemma {:induction false} NoZero(chars: seq<int>)
    requires AreBytes(chars)
    ensures UpToZero(chars) == chars
  {
    if chars != [] {
      assert chars[0] in chars;
      assert forall c {:trigger c in chars[1..]} :: c in chars[1..] ==> c in chars;
      NoZero(chars[1..]);
    }
  }

  function ParseSuffix(b: seq<Byte>): Parsed<Suffix> {
    var length := ParseInt16(b);
    if length.Bad? || length.value < 0 then Bad
    else
      var chars := ParseChars(length.rest, length.value);
      if chars.Bad? then Bad else Got(Chars(UpToZero(chars.value)), chars.rest)
  }

  function ParseBlock(b: seq<Byte>): Parsed<TailBlock> {
    var p := ParsePair(b);
    if p.Bad? then Bad
    else
      var suffix := ParseSuffix(p.rest);
      if suffix.Bad? then Bad else Got(TailBlock(p.value.0, p.value.1, suffix.value), suffix.rest)
  }

  function ParseBlocks(b: seq<Byte>, n: int): Parsed<seq<TailBlock>>
    decreases n
  {
    if n <= 0 then Got([], b)
    else
      var t := ParseBlock(b);
      if t.Bad? then Bad else Prepend([t.value], ParseBlocks(t.rest, n - 1))
  }

  function ParseTail(b: seq<Byte>): Parsed<Pool> {
    var sig := ParseInt32(b);
    if sig.Bad? || Unsigned32(sig.value) != TAIL_SIGNATURE then Bad
    else
      var p := ParsePair(sig.rest);
      if p.Bad? || p.value.1 < 0 then Bad
      else
        var ts := ParseBlocks(p.rest, p.value.1);
        if ts.Bad? then Bad else Got(Pool(p.value.0, ts.value), ts.rest)
  }

  /** A missing suffix is read back as an empty one. */
  function Reread(t: TailBlock): TailBlock {
    t.(suffix := Chars(SuffixChars(t.suffix)))
  }

  function RereadAll(ts: seq<TailBlock>): (r: seq<TailBlock>)
    ensures |r| == |ts|
    ensures forall i {:trigger r[i]} :: 0 <= i < |ts| ==> r[i] == Reread(ts[i])
  {
    seq(|ts|, i requires 0 <= i < |ts| => Reread(ts[i]))
  }

  lemma SuffixRoundTrip(s: Suffix, rest: seq<Byte>)
    requires AreBytes(SuffixChars(s)) && |SuffixChars(s)| <= SHRT_MAX
    ensures ParseSuffix(SuffixBytes(s) + rest) == Got(Chars(SuffixChars(s)), rest)
  {
    var chars := SuffixChars(s);
    var bytes := ToBytes(chars);
    assert bytes[..|chars|] == bytes;
    assert SuffixBytes(s) + rest == Int16Bytes(|chars|) + (bytes + rest);
    Int16RoundTrip(|chars|, bytes + rest);
    assert (bytes + rest)[..|chars|] == bytes && (bytes + rest)[|chars|..] == rest;
    NoZero(chars);
  }

  lemma BlockRoundTrip(t: TailBlock, rest: seq<Byte>)
    requires Storable(t)
    ensures ParseBlock(BlockBytes(t) + rest) == Got(Reread(t), rest)
  {
    var p := (t.nextFree, t.data);
    assert BlockBytes(t) + rest == PairBytes(p) + (SuffixBytes(t.suffix) + rest);
    PairRoundTrip(p, SuffixBytes(t.suffix) + rest);
    Int32RoundTrip(t.nextFree, []);
    Int32RoundTrip(t.data, []);
    hide PairBytes, SuffixBytes, ParsePair, ParseSuffix;
    SuffixRoundTrip(t.suffix, rest);
  }

  lemma RereadStep(ts: seq<TailBlock>)
    requires ts != []
    ensures [Reread(ts[0])] + RereadAll(ts[1..]) == RereadAll(ts)
  {
    hide Reread;
  }

  lemma {:induction false} BlocksRoundTrip(ts: seq<TailBlock>, rest: seq<Byte>)
    requires AllStorable(ts)
    ensures ParseBlocks(BlocksBytes(ts) + rest, |ts|) == Got(RereadAll(ts), rest)
  {
    if ts == [] {
      assert BlocksBytes(ts) + rest == rest;
    } else {
      StorableTail(ts);
      hide Storable, AllStorable, Reread, BlockBytes, ParseBlock, RereadAll;
      var more := ts[1..];
      BlockRoundTrip(ts[0], BlocksBytes(more) + rest);
      BlocksRoundTrip(more, rest);
      Regroup(BlockBytes(ts[0]), BlocksBytes(more), rest);
      RereadStep(ts);
    }
  }

  lemma TailRoundTrip(first: int, ts: seq<TailBlock>, rest: seq<Byte>)
    requires IsInt32(first) && |ts| < 0x8000_0000 && AllStorable(ts)
    ensures ParseTail(TailBytes(first, ts) + rest) == Got(Pool(first, RereadAll(ts)), rest)
  {
    var more := BlocksBytes(ts) + rest;
    var p := (first, |ts|);
    assert TailBytes(first, ts) + rest == Int32Bytes(TAIL_SIGNATURE) + (PairBytes(p) + more);
    Int32RoundTrip(TAIL_SIGNATURE, PairBytes(p) + more);
    PairRoundTrip(p, more);
    Int32RoundTrip(first, []);
    Int32RoundTrip(|ts|, []);
    hide PairBytes, ParsePair, BlocksBytes, ParseBlocks, ParseInt32, Int32Bytes, AllStorable;
    BlocksRoundTrip(ts, rest);
  }

  method WriteTail(tail: Tail, file: File)
    modifies file`bytes
    ensures file.bytes == old(file.bytes) + TailBytes(tail.firstFree, tail.tails)
  {
    hide Int32Bytes, BlocksBytes;
    file.WriteInt32(TAIL_SIGNATURE);
    file.WriteInt32(tail.firstFree);
    file.WriteInt32(|tail.tails|);
    WriteBlocks(tail.tails, file);
    FourAfter(old(file.bytes), Int32Bytes(TAIL_SIGNATURE), Int32Bytes(tail.firstFree), Int32Bytes(|tail.tails|), BlocksBytes(tail.tails));
  }

  lemma FourAfter(before: seq<Byte>, a: seq<Byte>, b: seq<Byte>, c: seq<Byte>, d: seq<Byte>)
    ensures before + a + b + c + d == before + (a + ((b + c) + d))
  {
  }

  method WriteBlocks(ts: seq<TailBlock>, file: File)
    modifies file`bytes
    ensures file.bytes == old(file.bytes) + BlocksBytes(ts)
  {
    hide BlockBytes;
    assert ts[0..] == ts;
    var i := 0;
    while i < |ts|
      invariant 0 <= i <= |ts|
      invariant file.bytes + BlocksBytes(ts[i..]) == old(file.bytes) + BlocksBytes(ts)
    {
      ghost var before := file.bytes;
      WriteBlock(ts[i], file);
      assert ts[i..][1..] == ts[i + 1..];
      assert file.bytes + BlocksBytes(ts[i + 1..]) == before + (BlockBytes(ts[i]) + BlocksBytes(ts[i + 1..]));
      i := i + 1;
    }
    assert ts[i..] == [] && file.bytes + [] == file.bytes;
  }

  /** A missing suffix is written as an empty one. */
  method WriteBlock(t: TailBlock, file: File)
    modifies file`bytes
    ensures file.bytes == old(file.bytes) + BlockBytes(t)
  {
    hide Int32Bytes, Int16Bytes;
    file.WriteInt32(t.nextFree);
    file.WriteInt32(t.data);
    var length := Signed((if t.suffix.Chars? then |t.suffix.chars| else 0) % 0x1_0000, 0x8000);
    file.WriteInt16(length);
    if length > 0 {
      file.WriteChars(ToBytes(t.suffix.chars)[..length]);
    }
    assert file.bytes == old(file.bytes) + BlockBytes(t);
  }

  /** Reads the pool; on failure the file is where it was. */
  method ReadTail(file: File) returns (r: Parsed<Pool>)
    requires file.Valid()
    modifies file`pos
    ensures file.Valid() && r == ParseTail(old(file.Rest()))
    ensures if r.Got? then file.Rest() == r.rest else file.pos == old(file.pos)
  {
    hide ParseInt32, ParseBlock;
    var savePos := file.pos;
    var sig := file.ReadInt32();
    if sig.Bad? || Unsigned32(sig.value) != TAIL_SIGNATURE {
      file.pos := savePos;
      return Bad;
    }
    var p := ReadPair(file);
    if p.Bad? || p.value.1 < 0 {
      file.pos := savePos;
      return Bad;
    }
    var ts := ReadBlocks(file, p.value.1);
    if ts.Bad? {
      file.pos := savePos;
      return Bad;
    }
    r := Got(Pool(p.value.0, ts.value), ts.rest);
  }

  method ReadBlocks(file: File, total: int) returns (r: Parsed<seq<TailBlock>>)
    requires file.Valid()
    modifies file`pos
    ensures file.Valid() && r == ParseBlocks(old(file.Rest()), total)
    ensures r.Got? ==> file.Rest() == r.rest
  {
    hide ParseBlock;
    var ts: seq<TailBlock> := [];
    ghost var b := file.Rest();
    PrependNothing(ParseBlocks(b, total));
    var i := 0;
    while i < total
      invariant 0 <= i && (i <= total || total < 0) && file.Valid()
      invariant ParseBlocks(b, total) == Prepend(ts, ParseBlocks(file.Rest(), total - i))
    {
      var t := ReadBlock(file);
      if t.Bad? {
        return Bad;
      }
      PrependMore(ts, t.value, ParseBlocks(t.rest, total - i - 1));
      ts := ts + [t.value];
      i := i + 1;
    }
    PrependNothing(ParseBlocks(file.Rest(), total - i));
    r := Got(ts, file.bytes[file.pos..]);
  }

  method ReadBlock(file: File) returns (r: Parsed<TailBlock>)
    requires file.Valid()
    modifies file`pos
    ensures file.Valid() && r == ParseBlock(old(file.Rest()))
    ensures r.Got? ==> file.Rest() == r.rest
  {
    hide ParseInt32, ParseInt16, UpToZero;
    var p := ReadPair(file);
    if p.Bad? {
      return Bad;
    }
    var length := file.ReadInt16();
    if length.Bad? || length.value < 0 {
      return Bad;
    }
    var chars := file.ReadChars(length.value);
    if chars.Bad? {
      return Bad;
    }
    r := Got(TailBlock(p.value.0, p.value.1, Chars(UpToZero(chars.value))), chars.rest);
  }

  // ---- the trie ----

  function ParseTrie(b: seq<Byte>): Parsed<Image> {
    var rs := ParseRanges(b);
    if rs.Bad? then Bad
    else
      var cells := ParseDa(rs.rest);
      if cells.Bad? then Bad
      else
        var pool := ParseTail(cells.rest);
        if pool.Bad? then Bad else Got(Image(rs.value, cells.value, pool.value), pool.rest)
  }

  /** The image is that of a trie which stores `m`. */
  ghost predicate IsImage(im: Image, path: map<int, Path>, node: map<Path, int>, free: set<int>, m: map<Key, int>) {
    && A.IsAlphabet(im.ranges)
    && IsPool(im.cells) && IsTree(im.cells, path, node) && Placed(im.cells, node)
    && IsChain(im.pool.blocks, im.pool.first, free)
    && IsTrie(Shape(im.cells, node), im.pool.blocks) && NoDeadEnds(Shape(im.cells, node))
    && Represents(Shape(im.cells, node), im.pool.blocks, m)
    && AllInRange(im.ranges, m)
  }

  /** Whoever reads the numbers of the image as they are, starting at cell 2, finds for any
      string what the trie stores for it. */
  lemma ImageIsRead(im: Image, path: map<int, Path>, node: map<Path, int>, free: set<int>, m: map<Key, int>, key: AlphaString)
    requires IsImage(im, path, node, free, m) && IsString(key)
    ensures var k := Codes(im.ranges, key);
            Read(im.cells, im.pool.blocks, 2, k + [0]) == if k in m then There(m[k]) else NotThere
  {
    hide IsTree, Placed, IsTrie, Represents, NoDeadEnds, IsChain, Read, Shape, AllInRange, A.IsAlphabet, Codes, IsPool;
    CodesAreCoded(im.ranges, key);
    ReadFromRoot(im.cells, im.pool.blocks, path, node, m, Codes(im.ranges, key));
  }

  lemma CodesAreCoded(rs: seq<A.Range>, key: AlphaString)
    requires A.IsAlphabet(rs) && IsString(key)
    ensures IsCoded(Codes(rs, key))
  {
    hide A.IsAlphabet, IsString;
    var k := Codes(rs, key);
    forall c {:trigger c in k} | c in k
      ensures 1 <= c
    {
      var i :| 0 <= i < |k| && k[i] == c;
      CodeOfChar(rs, key, i);
      assert Way(rs, key)[i] == k[i];
    }
  }

  ghost function ImageOf(trie: Trie): Image
    reads trie, trie.alphaMap, trie.da, trie.tail
  {
    Image(trie.alphaMap.ranges, trie.da.cells, Pool(trie.tail.firstFree, trie.tail.tails))
  }

  function RereadImage(im: Image): Image {
    im.(pool := Pool(im.pool.first, RereadAll(im.pool.blocks)))
  }

  lemma {:induction false} FewRanges(rs: seq<A.Range>)
    requires A.Sorted(rs)
    ensures |rs| <= A.Size(rs)
  {
    if rs != [] {
      A.SortedTail(rs);
      FewRanges(rs[1..]);
    }
  }

  /** Parsing the bytes of a trie yields the trie, with empty suffixes for missing
      ones, and stops where they end. */
  lemma TrieRoundTrip(im: Image, rest: seq<Byte>)
    requires A.IsAlphabet(im.ranges) && IsPool(im.cells) && FitsFields(im)
    ensures ParseTrie(ImageBytes(im) + rest) == Got(RereadImage(im), rest)
  {
    FewRanges(im.ranges);
    var cells, pool := PairsBytes(CellPairs(im.cells)), TailBytes(im.pool.first, im.pool.blocks);
    assert ImageBytes(im) + rest == RangesBytes(im.ranges) + (cells + (pool + rest));
    hide RangesBytes, PairsBytes, CellPairs, TailBytes, ParseRanges, ParseDa, ParseTail, IsFreeList, AllStorable;
    RangesRoundTrip(im.ranges, cells + (pool + rest));
    DaRoundTrip(im.cells, pool + rest);
    TailRoundTrip(im.pool.first, im.pool.blocks, rest);
  }

  lemma RereadKeepsChain(ts: seq<TailBlock>, first: int, free: set<int>)
    requires IsChain(ts, first, free)
    ensures IsChain(RereadAll(ts), first, free)
  {
    assert forall b {:trigger NextFree(RereadAll(ts), b)} :: NextFree(RereadAll(ts), b) == NextFree(ts, b);
  }

  lemma RereadKeepsTrie(shape: map<Path, int>, ts: seq<TailBlock>, m: map<Key, int>)
    requires IsTrie(shape, ts) && Represents(shape, ts, m)
    ensures IsTrie(shape, RereadAll(ts)) && Represents(shape, RereadAll(ts), m)
  {
    var ts' := RereadAll(ts);
    assert forall t {:trigger SuffixAt(ts', t)} :: SuffixAt(ts', t) == SuffixAt(ts, t);
    assert forall t {:trigger DataAt(ts', t)} :: DataAt(ts', t) == DataAt(ts, t);
    assert forall q {:trigger KeyAt(shape, ts', q)} :: KeyAt(shape, ts', q) == KeyAt(shape, ts, q);
    forall q {:trigger IsLeaf(shape, q)} | IsLeaf(shape, q)
      ensures OwnsBlock(q, ts', TailAt(shape, q))
    {
      assert OwnsBlock(q, ts, TailAt(shape, q));
    }
  }

  /** Empty suffixes in place of missing ones change nothing. */
  lemma RereadIsImage(im: Image, path: map<int, Path>, node: map<Path, int>, free: set<int>, m: map<Key, int>)
    requires IsImage(im, path, node, free, m)
    ensures IsImage(RereadImage(im), path, node, free, m)
  {
    hide IsPool, IsTree, Placed, IsChain, IsTrie, NoDeadEnds, Represents, A.IsAlphabet, RereadAll, Shape, AllInRange;
    RereadKeepsChain(im.pool.blocks, im.pool.first, free);
    RereadKeepsTrie(Shape(im.cells, node), im.pool.blocks, m);
  }

  method Save(trie: Trie, file: File)
    requires trie.Valid()
    modifies trie`isDirty, file`bytes
    ensures file.bytes == old(file.bytes) + ImageBytes(ImageOf(trie)) && !trie.isDirty
    ensures FitsFields(ImageOf(trie)) ==> Lies(file.bytes[|old(file.bytes)|..], ImageOf(trie))
  {
    hide ImageBytes, Lies, FitsFields, DArray.Valid, Tail.Valid, IsTrie, NoDeadEnds, Represents, A.IsAlphabet, AlphaMap.Linked, A.Sorted,
         RangesBytes, TailBytes, PairsBytes;
    WriteRanges(trie.alphaMap, file);
    WriteDa(trie.da.cells, file);
    WriteTail(trie.tail, file);
    trie.isDirty := false;
    ThreeParts(old(file.bytes), ImageOf(trie));
    assert file.bytes[|old(file.bytes)|..] == ImageBytes(ImageOf(trie));
    if FitsFields(ImageOf(trie)) {
      SmallAlphabet(trie.alphaMap.ranges);
      LiesIff(file.bytes[|old(file.bytes)|..], ImageOf(trie));
    }
  }

  lemma SmallAlphabet(rs: seq<A.Range>)
    requires A.IsAlphabet(rs)
    ensures |rs| < 0x8000_0000
  {
    FewRanges(rs);
  }

  lemma ThreeParts(before: seq<Byte>, im: Image)
    ensures before + RangesBytes(im.ranges) + PairsBytes(CellPairs(im.cells)) + TailBytes(im.pool.first, im.pool.blocks) == before + ImageBytes(im)
  {
    hide RangesBytes, PairsBytes, CellPairs, TailBytes;
  }

  /** Any bytes in which the image of a trie lies as the format says are loaded as it. */
  lemma LaidOutIsParsed(b: seq<Byte>, im: Image, rest: seq<Byte>)
    requires A.IsAlphabet(im.ranges) && IsPool(im.cells) && FitsFields(im) && Lies(b, im)
    ensures ParseTrie(b + rest) == Got(RereadImage(im), rest)
  {
    hide ImageBytes, ParseTrie, RereadImage, Lies, FitsFields, IsPool;
    SmallAlphabet(im.ranges);
    LiesIff(b, im);
    TrieRoundTrip(im, rest);
  }

  /** Loads whatever parses; when that is the image of a trie storing `m` the loaded
      trie is one storing `m`. */
  method Load(file: File, ghost path: map<int, Path>, ghost node: map<Path, int>, ghost free: set<int>, ghost m: map<Key, int>)
    returns (trie: Trie?)
    requires file.Valid()
    modifies file`pos
    ensures file.Valid()
    ensures var r := ParseTrie(old(file.Rest()));
            if r.Bad? then trie == null
            else trie != null && fresh(trie) && fresh(trie.da) && fresh(trie.tail) && fresh(trie.alphaMap) && fresh(trie.alphaMap.repr)
                 && file.Rest() == r.rest && !trie.isDirty
                 && ImageOf(trie).cells == r.value.cells && ImageOf(trie).pool == r.value.pool && Built(r.value.ranges, trie.alphaMap.ranges)
                 && (IsImage(r.value, path, node, free, m) ==>
                       trie.Valid() && trie.contents == m && trie.alphaMap.ranges == r.value.ranges)
  {
    hide ParseRanges, ParseDa, ParseTail, AlphaMap.Linked, A.Sorted, IsPool, IsTree, Placed, IsChain, IsTrie,
         NoDeadEnds, Represents, Shape, AllInRange;
    var alphabet := ReadRanges(file);
    if alphabet == null {
      return null;
    }
    var cells := ReadDa(file);
    if cells.Bad? {
      return null;
    }
    var pool := ReadTail(file);
    if pool.Bad? {
      return null;
    }
    var da := new DArray.Loaded(cells.value, path, node);
    var tail := new Tail.Loaded(pool.value.blocks, pool.value.first, free);
    trie := new Trie.Assembled(alphabet, da, tail, m);
  }

  /** A trie saved at the end of a file, followed by anything, is loaded as a trie with
      the same contents over the same alphabet, and reading stops at what follows. */
  method SaveAndLoad(trie: Trie, file: File, rest: seq<Byte>) returns (copy: Trie?)
    requires trie.Valid() && FitsFields(ImageOf(trie)) && file.Valid() && file.pos == |file.bytes|
    modifies trie`isDirty, file
    ensures copy != null && copy.Valid() && fresh(copy)
    ensures copy.contents == trie.contents && copy.alphaMap.ranges == trie.alphaMap.ranges
    ensures file.Valid() && file.Rest() == rest
  {
    hide ImageBytes, Lies, ParseTrie, AlphaMap.Linked, A.Sorted, IsPool, IsTree, Placed, IsChain, IsTrie, NoDeadEnds,
         Represents, FitsFields, IsImage, Built, RereadAll;
    ghost var im := ImageOf(trie);
    ImageIsImage(trie);
    Save(trie, file);
    file.WriteChars(rest);
    assert file.Rest() == ImageBytes(im) + rest;
    TrieRoundTrip(im, rest);
    RereadIsImage(im, trie.da.path, trie.da.node, trie.tail.free, trie.contents);
    copy := Load(file, trie.da.path, trie.da.node, trie.tail.free, trie.contents);
  }

  lemma ImageIsImage(trie: Trie)
    requires trie.Valid()
    ensures IsImage(ImageOf(trie), trie.da.path, trie.da.node, trie.tail.free, trie.contents)
    ensures A.IsAlphabet(ImageOf(trie).ranges) && IsPool(ImageOf(trie).cells)
  {
    hide A.IsAlphabet, IsPool, IsTree, Placed, IsChain, IsTrie, NoDeadEnds, Represents, AlphaMap.Linked;
  }
}
