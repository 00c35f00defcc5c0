/** The file of a trie: the bytes of each part, and where everything lies in them. */
module TrieFormat {
  import opened FileBytes
  import opened FreeList
  import opened TailPool
  import A = AlphaRanges

  const ALPHAMAP_SIGNATURE := 0xD9FCD9FC
  const TAIL_SIGNATURE := 0xDFFCDFFC

  type Pair = (int, int)

  predicate IsWord(v: int) { -0x8000_0000 <= v < 0x1_0000_0000 }

  // ---- pairs of numbers ----

  function CellPairs(cells: seq<Cell>): (ps: seq<Pair>)
    ensures |ps| == |cells|
    ensures forall i {:trigger ps[i]} :: 0 <= i < |ps| ==> ps[i] == (cells[i].base, cells[i].check)
  {
    seq(|cells|, i requires 0 <= i < |cells| => (cells[i].base, cells[i].check))
  }

  function RangePairs(rs: seq<A.Range>): (ps: seq<Pair>)
    ensures |ps| == |rs|
    ensures forall i {:trigger ps[i]} :: 0 <= i < |ps| ==> ps[i] == (rs[i].begin, rs[i].end)
  {
    seq(|rs|, i requires 0 <= i < |rs| => (rs[i].begin as int, rs[i].end as int))
  }

  function PairBytes(p: Pair): seq<Byte> { Int32Bytes(p.0) + Int32Bytes(p.1) }

  function PairsBytes(ps: seq<Pair>): seq<Byte> {
    if ps == [] then [] else PairBytes(ps[0]) + PairsBytes(ps[1..])
  }

  ghost predicate AreWords(ps: seq<Pair>) {
    forall i {:trigger ps[i]} :: 0 <= i < |ps| ==> IsWord(ps[i].0) && IsWord(ps[i].1)
  }

  lemma WordsTail(ps: seq<Pair>)
    requires AreWords(ps) && ps != []
    ensures IsWord(ps[0].0) && IsWord(ps[0].1) && AreWords(ps[1..])
  {
    hide IsWord;
  }

  // ---- the parts ----

  function RangesBytes(rs: seq<A.Range>): seq<Byte> {
    Int32Bytes(ALPHAMAP_SIGNATURE) + (Int32Bytes(|rs|) + PairsBytes(RangePairs(rs)))
  }

  function SuffixChars(s: Suffix): seq<int> {
    if s.Null? then [] else s.chars
  }

  ghost predicate AreBytes(chars: seq<int>) {
    forall c {:trigger c in chars} :: c in chars ==> 1 <= c < 256
  }

  /** A character is an unsigned byte in memory and in the file. */
  function ToBytes(chars: seq<int>): (b: seq<Byte>)
    ensures |b| == |chars|
    ensures AreBytes(chars) ==> b == chars
  {
    assert forall i {:trigger chars[i]} :: 0 <= i < |chars| ==> chars[i] in chars;
    seq(|chars|, i requires 0 <= i < |chars| => chars[i] % 256)
  }

  /** The block fits the fields the source keeps it in. */
  ghost predicate Storable(t: TailBlock) {
    IsInt32(t.nextFree) && IsInt32(t.data) && AreBytes(SuffixChars(t.suffix)) && |SuffixChars(t.suffix)| <= SHRT_MAX
  }

  ghost predicate AllStorable(ts: seq<TailBlock>) {
    forall i {:trigger ts[i]} :: 0 <= i < |ts| ==> Storable(ts[i])
  }

  lemma StorableTail(ts: seq<TailBlock>)
    requires AllStorable(ts) && ts != []
    ensures Storable(ts[0]) && AllStorable(ts[1..])
  {
    hide Storable;
  }

  /** The length is kept in 16 bits; of a suffix too long for them the file gets what
      the truncated length says. */
  function StoredLength(s: Suffix): (n: int)
    ensures n <= |SuffixChars(s)|
    ensures |SuffixChars(s)| <= SHRT_MAX ==> n == |SuffixChars(s)|
  {
    Signed(|SuffixChars(s)| % 0x1_0000, 0x8000)
  }

  function SuffixBytes(s: Suffix): seq<Byte> {
    var n := StoredLength(s);
    Int16Bytes(n) + if n > 0 then ToBytes(SuffixChars(s))[..n] else []
  }

  function BlockBytes(t: TailBlock): seq<Byte> {
    PairBytes((t.nextFree, t.data)) + SuffixBytes(t.suffix)
  }

  function BlocksBytes(ts: seq<TailBlock>): seq<Byte> {
    if ts == [] then [] else BlockBytes(ts[0]) + BlocksBytes(ts[1..])
  }

  function TailBytes(first: int, ts: seq<TailBlock>): seq<Byte> {
    Int32Bytes(TAIL_SIGNATURE) + (PairBytes((first, |ts|)) + BlocksBytes(ts))
  }

  datatype Pool = Pool(first: int, blocks: seq<TailBlock>)

  /** What a file says of a trie. */
  datatype Image = Image(ranges: seq<A.Range>, cells: seq<Cell>, pool: Pool)

  function ImageBytes(im: Image): seq<Byte> {
    RangesBytes(im.ranges) + (PairsBytes(CellPairs(im.cells)) + TailBytes(im.pool.first, im.pool.blocks))
  }

  /** Every number fits the 32-bit field, and every suffix the 16-bit length, in which
      the source keeps it. */
  ghost predicate FitsFields(im: Image) {
    && (forall i {:trigger im.cells[i]} :: 0 <= i < |im.cells| ==> IsInt32(im.cells[i].base) && IsInt32(im.cells[i].check))
    && IsInt32(im.pool.first) && |im.pool.blocks| < 0x8000_0000 && AllStorable(im.pool.blocks)
  }

  // ---- where things lie ----

  /** Numbers lie at `at`, two after the other for each pair. */
  ghost predicate PairsLie(b: seq<Byte>, at: int, ps: seq<Pair>) {
    forall i {:trigger ps[i]} :: 0 <= i < |ps| ==> HasWord(b, at + 8 * i, ps[i].0) && HasWord(b, at + 8 * i + 4, ps[i].1)
  }

  lemma PairLiesIff(b: seq<Byte>, at: nat, p: Pair)
    requires IsWord(p.0) && IsWord(p.1) && at + 8 <= |b|
    ensures HasWord(b, at, p.0) && HasWord(b, at + 4, p.1) <==> b[at..at + 8] == PairBytes(p)
  {
    hide HasWord, Int32Bytes;
    HasWordIff(b, at, p.0);
    HasWordIff(b, at + 4, p.1);
    FourLong(p.0);
    Halves(b[at..at + 8], b[at..at + 4], b[at + 4..at + 8], Int32Bytes(p.0), Int32Bytes(p.1));
  }

  lemma FourLong(v: int)
    ensures |Int32Bytes(v)| == 4
  {
  }

  lemma Halves(b: seq<Byte>, x: seq<Byte>, y: seq<Byte>, u: seq<Byte>, v: seq<Byte>)
    requires b == x + y && |x| == |u|
    ensures b == u + v <==> x == u && y == v
  {
    assert b[..|x|] == x && b[|x|..] == y;
    assert (u + v)[..|u|] == u && (u + v)[|u|..] == v;
  }

  lemma {:induction false} PairsLength(ps: seq<Pair>)
    ensures |PairsBytes(ps)| == 8 * |ps|
  {
    if ps != [] {
      PairsLength(ps[1..]);
    }
  }

  lemma FirstLies(b: seq<Byte>, at: int, ps: seq<Pair>)
    requires ps != []
    ensures PairsLie(b, at, ps) <==> HasWord(b, at, ps[0].0) && HasWord(b, at + 4, ps[0].1) && PairsLie(b, at + 8, ps[1..])
  {
    hide HasWord;
    assert forall i {:trigger ps[1..][i]} :: 0 <= i < |ps| - 1 ==> ps[1..][i] == ps[i + 1];
    forall i {:trigger ps[i]} | 0 < i < |ps| && PairsLie(b, at + 8, ps[1..])
      ensures HasWord(b, at + 8 * i, ps[i].0) && HasWord(b, at + 8 * i + 4, ps[i].1)
    {
      assert ps[1..][i - 1] == ps[i];
    }
  }

  lemma {:induction false} PairsLieIff(b: seq<Byte>, at: nat, ps: seq<Pair>)
    requires AreWords(ps) && at + 8 * |ps| <= |b|
    ensures PairsLie(b, at, ps) <==> b[at..at + 8 * |ps|] == PairsBytes(ps)
    decreases |ps|
  {
    hide HasWord, PairBytes, PairsLie;
    if ps == [] {
      assert PairsLie(b, at, ps) by { NoPairs(b, at); }
    } else {
      WordsTail(ps);
      FirstLies(b, at, ps);
      PairLiesIff(b, at, ps[0]);
      PairsLieIff(b, at + 8, ps[1..]);
      PairLength(ps[0]);
      Halves(b[at..at + 8 * |ps|], b[at..at + 8], b[at + 8..at + 8 * |ps|], PairBytes(ps[0]), PairsBytes(ps[1..]));
    }
  }

  lemma PairLength(p: Pair)
    ensures |PairBytes(p)| == 8
  {
  }

  lemma NoPairs(b: seq<Byte>, at: int)
    ensures PairsLie(b, at, [])
  {
  }

  /** Where the block `i` starts: each block before it takes ten bytes and its characters. */
  function BlockStart(ts: seq<TailBlock>, i: nat): nat
    requires i <= |ts|
  {
    if i == 0 then 0 else 10 + |SuffixChars(ts[0].suffix)| + BlockStart(ts[1..], i - 1)
  }

  /** The block lies at `at`: the next free one, the data, the length of the suffix in two
      bytes and its characters. */
  ghost predicate BlockLies(b: seq<Byte>, at: int, t: TailBlock) {
    var chars := SuffixChars(t.suffix);
    && HasWord(b, at, t.nextFree) && HasWord(b, at + 4, t.data)
    && 0 <= at && at + 10 + |chars| <= |b|
    && b[at + 8] as int * 0x100 + b[at + 9] as int == |chars|
    && b[at + 10..at + 10 + |chars|] == chars
  }

  ghost predicate BlocksLie(b: seq<Byte>, at: int, ts: seq<TailBlock>) {
    forall i {:trigger ts[i]} :: 0 <= i < |ts| ==> BlockLies(b, at + BlockStart(ts, i), ts[i])
  }

  lemma SizeIs(t: TailBlock)
    requires Storable(t)
    ensures |BlockBytes(t)| == 10 + |SuffixChars(t.suffix)|
  {
  }

  lemma SuffixLiesIff(b: seq<Byte>, at: nat, s: Suffix)
    requires var chars := SuffixChars(s); AreBytes(chars) && |chars| <= SHRT_MAX && at + 2 + |chars| <= |b|
    ensures var chars := SuffixChars(s);
            b[at] as int * 0x100 + b[at + 1] as int == |chars| && b[at + 2..at + 2 + |chars|] == chars
            <==> b[at..at + 2 + |chars|] == SuffixBytes(s)
  {
    var chars := SuffixChars(s);
    var n := |chars|;
    var x := Int16Bytes(n);
    assert x == [n / 0x100, n % 0x100] && n == n / 0x100 * 0x100 + n % 0x100;
    assert SuffixBytes(s) == x + ToBytes(chars);
    var two := b[at..at + 2];
    assert two == x <==> two[0] == x[0] && two[1] == x[1];
    assert two[0] == b[at] && two[1] == b[at + 1];
    Halves(b[at..at + 2 + n], two, b[at + 2..at + 2 + n], x, ToBytes(chars));
  }

  lemma BlockLiesIff(b: seq<Byte>, at: nat, t: TailBlock)
    requires Storable(t) && at + 10 + |SuffixChars(t.suffix)| <= |b|
    ensures BlockLies(b, at, t) <==> b[at..at + 10 + |SuffixChars(t.suffix)|] == BlockBytes(t)
  {
    hide HasWord, PairBytes, SuffixBytes, AreBytes, SuffixChars;
    var n := |SuffixChars(t.suffix)|;
    PairLiesIff(b, at, (t.nextFree, t.data));
    SuffixLiesIff(b, at + 8, t.suffix);
    PairLength((t.nextFree, t.data));
    Halves(b[at..at + 10 + n], b[at..at + 8], b[at + 8..at + 10 + n], PairBytes((t.nextFree, t.data)), SuffixBytes(t.suffix));
  }

  lemma StartsLater(ts: seq<TailBlock>, i: nat)
    requires 0 < i <= |ts|
    ensures BlockStart(ts, i) == 10 + |SuffixChars(ts[0].suffix)| + BlockStart(ts[1..], i - 1)
  {
  }

  lemma FirstBlockLies(b: seq<Byte>, at: int, ts: seq<TailBlock>)
    requires ts != []
    ensures BlocksLie(b, at, ts) <==>
            BlockLies(b, at, ts[0]) && BlocksLie(b, at + 10 + |SuffixChars(ts[0].suffix)|, ts[1..])
  {
    hide BlockLies;
    var n, more := 10 + |SuffixChars(ts[0].suffix)|, ts[1..];
    forall i {:trigger more[i]} | 0 <= i < |more|
      ensures more[i] == ts[i + 1] && BlockStart(ts, i + 1) == n + BlockStart(more, i)
    {
      StartsLater(ts, i + 1);
    }
    hide BlockStart;
    forall i {:trigger ts[i]} | 0 < i < |ts| && BlocksLie(b, at + n, more)
      ensures BlockLies(b, at + BlockStart(ts, i), ts[i])
    {
      assert more[i - 1] == ts[i];
    }
  }

  lemma {:induction false} BlocksLieIff(b: seq<Byte>, at: nat, ts: seq<TailBlock>)
    requires AllStorable(ts) && at + BlockStart(ts, |ts|) <= |b|
    ensures BlocksLie(b, at, ts) <==> b[at..at + BlockStart(ts, |ts|)] == BlocksBytes(ts)
    ensures |BlocksBytes(ts)| == BlockStart(ts, |ts|)
    decreases |ts|
  {
    hide BlockLies, BlocksLie, BlockBytes, BlocksBytes, Storable, BlockStart, SuffixChars, AllStorable;
    if ts == [] {
      NoBlocks(b, at);
    } else {
      StorableTail(ts);
      StartsLater(ts, |ts|);
      var n := 10 + |SuffixChars(ts[0].suffix)|;
      FirstBlockLies(b, at, ts);
      BlockLiesIff(b, at, ts[0]);
      BlocksLieIff(b, at + n, ts[1..]);
      SizeIs(ts[0]);
      MoreBlocks(ts);
      Parts(b, at, n, BlockStart(ts, |ts|), BlockBytes(ts[0]), BlocksBytes(ts[1..]));
    }
  }

  lemma MoreBlocks(ts: seq<TailBlock>)
    requires ts != []
    ensures BlocksBytes(ts) == BlockBytes(ts[0]) + BlocksBytes(ts[1..])
  {
  }

  lemma Parts(b: seq<Byte>, at: nat, n: nat, all: nat, x: seq<Byte>, y: seq<Byte>)
    requires at + all <= |b| && |x| == n <= all
    ensures b[at..at + all] == x + y <==> b[at..at + n] == x && b[at + n..at + all] == y
  {
    Halves(b[at..at + all], b[at..at + n], b[at + n..at + all], x, y);
  }

  lemma NoBlocks(b: seq<Byte>, at: int)
    ensures BlocksLie(b, at, []) && BlockStart([], 0) == 0 && BlocksBytes([]) == []
  {
  }

  // ---- the whole file ----

  /** The alphabet: the signature, the number of ranges and their bounds. */
  ghost predicate RangesLie(b: seq<Byte>, at: int, rs: seq<A.Range>) {
    && 0 <= at && at + 8 <= |b|
    && b[at..at + 4] == [0xD9, 0xFC, 0xD9, 0xFC] && HasWord(b, at + 4, |rs|)
    && forall i {:trigger rs[i]} :: 0 <= i < |rs| ==> HasWord(b, at + 8 + 8 * i, rs[i].begin) && HasWord(b, at + 12 + 8 * i, rs[i].end)
  }

  /** The double array: BASE and CHECK of every cell. */
  ghost predicate CellsLie(b: seq<Byte>, at: int, cells: seq<Cell>) {
    forall i {:trigger cells[i]} :: 0 <= i < |cells| ==> HasWord(b, at + 8 * i, cells[i].base) && HasWord(b, at + 8 * i + 4, cells[i].check)
  }

  /** The tail pool: the signature, the first free block, the number of blocks and the
      blocks. */
  ghost predicate PoolLies(b: seq<Byte>, at: int, pool: Pool) {
    && 0 <= at && at + 12 <= |b|
    && b[at..at + 4] == [0xDF, 0xFC, 0xDF, 0xFC] && HasWord(b, at + 4, pool.first) && HasWord(b, at + 8, |pool.blocks|)
    && BlocksLie(b, at + 12, pool.blocks)
  }

  /** The three parts lie one after the other, and nothing else. */
  ghost predicate Lies(b: seq<Byte>, im: Image) {
    var cells := 8 + 8 * |im.ranges|;
    var tail := cells + 8 * |im.cells|;
    && |b| == tail + 12 + BlockStart(im.pool.blocks, |im.pool.blocks|)
    && RangesLie(b, 0, im.ranges) && CellsLie(b, cells, im.cells) && PoolLies(b, tail, im.pool)
  }

  lemma Signatures()
    ensures Int32Bytes(ALPHAMAP_SIGNATURE) == [0xD9, 0xFC, 0xD9, 0xFC] && Int32Bytes(TAIL_SIGNATURE) == [0xDF, 0xFC, 0xDF, 0xFC]
  {
  }

  lemma RangesLieIff(b: seq<Byte>, rs: seq<A.Range>)
    requires |rs| < 0x8000_0000 && 8 + 8 * |rs| <= |b|
    ensures RangesLie(b, 0, rs) <==> b[..8 + 8 * |rs|] == RangesBytes(rs)
  {
    hide HasWord, Int32Bytes, PairsBytes;
    Signatures();
    var ps, n := RangePairs(rs), |rs|;
    HasWordIff(b, 4, n);
    PairsLieIff(b, 8, ps);
    assert PairsLie(b, 8, ps) <==> forall i {:trigger rs[i]} :: 0 <= i < n ==> HasWord(b, 8 + 8 * i, rs[i].begin) && HasWord(b, 12 + 8 * i, rs[i].end) by {
      RangePairsLie(b, ps, rs);
    }
    hide PairsLie;
    FourLong(n);
    Halves(b[4..8 + 8 * n], b[4..8], b[8..8 + 8 * n], Int32Bytes(n), PairsBytes(ps));
    Halves(b[..8 + 8 * n], b[0..4], b[4..8 + 8 * n], Int32Bytes(ALPHAMAP_SIGNATURE), Int32Bytes(n) + PairsBytes(ps));
  }

  lemma RangePairsLie(b: seq<Byte>, ps: seq<Pair>, rs: seq<A.Range>)
    requires ps == RangePairs(rs)
    ensures PairsLie(b, 8, ps) <==> forall i {:trigger rs[i]} :: 0 <= i < |rs| ==> HasWord(b, 8 + 8 * i, rs[i].begin) && HasWord(b, 12 + 8 * i, rs[i].end)
  {
    hide HasWord;
    assert forall i {:trigger rs[i]} {:trigger ps[i]} :: 0 <= i < |rs| ==> ps[i] == (rs[i].begin as int, rs[i].end as int);
    assert forall i {:trigger rs[i]} :: 0 <= i < |rs| ==> 8 + 8 * i + 4 == 12 + 8 * i;
  }

  lemma CellsLieIff(b: seq<Byte>, at: nat, cells: seq<Cell>)
    requires forall i {:trigger cells[i]} :: 0 <= i < |cells| ==> IsInt32(cells[i].base) && IsInt32(cells[i].check)
    requires at + 8 * |cells| <= |b|
    ensures CellsLie(b, at, cells) <==> b[at..at + 8 * |cells|] == PairsBytes(CellPairs(cells))
  {
    hide HasWord, PairsBytes;
    var ps := CellPairs(cells);
    assert forall i {:trigger cells[i]} {:trigger ps[i]} :: 0 <= i < |cells| ==> ps[i] == (cells[i].base, cells[i].check);
    PairsLieIff(b, at, ps);
  }

  lemma PoolLiesIff(b: seq<Byte>, at: nat, pool: Pool)
    requires IsInt32(pool.first) && |pool.blocks| < 0x8000_0000 && AllStorable(pool.blocks)
    requires at + 12 + BlockStart(pool.blocks, |pool.blocks|) == |b|
    ensures PoolLies(b, at, pool) <==> b[at..] == TailBytes(pool.first, pool.blocks)
  {
    Signatures();
    hide HasWord, Int32Bytes, BlocksBytes, BlocksLie, BlockStart, AllStorable;
    var n, p := |pool.blocks|, (pool.first, |pool.blocks|);
    PairLiesIff(b, at + 4, p);
    BlocksLieIff(b, at + 12, pool.blocks);
    PairLength(p);
    hide PairBytes;
    Halves(b[at + 4..], b[at + 4..at + 12], b[at + 12..], PairBytes(p), BlocksBytes(pool.blocks));
    Halves(b[at..], b[at..at + 4], b[at + 4..], Int32Bytes(TAIL_SIGNATURE), PairBytes(p) + BlocksBytes(pool.blocks));
  }

  lemma ImageLength(im: Image)
    requires AllStorable(im.pool.blocks)
    ensures |RangesBytes(im.ranges)| == 8 + 8 * |im.ranges| && |PairsBytes(CellPairs(im.cells))| == 8 * |im.cells|
    ensures |TailBytes(im.pool.first, im.pool.blocks)| == 12 + BlockStart(im.pool.blocks, |im.pool.blocks|)
  {
    var ts := im.pool.blocks;
    PairsLength(RangePairs(im.ranges));
    PairsLength(CellPairs(im.cells));
    var b: seq<Byte> := seq(BlockStart(ts, |ts|), _ => 0);
    BlocksLieIff(b, 0, ts);
    PairLength((im.pool.first, |ts|));
    hide PairsBytes, BlocksBytes, BlockStart;
  }

  /** The bytes that are saved are those, and only those, in which the image lies like
      this. */
  lemma LiesIff(b: seq<Byte>, im: Image)
    requires |im.ranges| < 0x8000_0000 && FitsFields(im)
    ensures Lies(b, im) <==> b == ImageBytes(im)
  {
    hide RangesBytes, PairsBytes, TailBytes, RangesLie, CellsLie, PoolLies, BlockStart, AllStorable, CellPairs;
    ImageLength(im);
    var cells := 8 + 8 * |im.ranges|;
    var tail := cells + 8 * |im.cells|;
    if |b| == tail + 12 + BlockStart(im.pool.blocks, |im.pool.blocks|) {
      RangesLieIff(b, im.ranges);
      CellsLieIff(b, cells, im.cells);
      PoolLiesIff(b, tail, im.pool);
      Halves(b[cells..], b[cells..tail], b[tail..], PairsBytes(CellPairs(im.cells)), TailBytes(im.pool.first, im.pool.blocks));
      Halves(b, b[..cells], b[cells..], RangesBytes(im.ranges), PairsBytes(CellPairs(im.cells)) + TailBytes(im.pool.first, im.pool.blocks));
    }
  }
}
