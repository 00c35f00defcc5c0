/** The chunk allocator: chunks of 2^cap bytes from preallocated pools and, when a pool
    is used up or there is none, from extra lists.  An extra list holds idle chunks and
    chunks handed out; the first `idleNum` are the idle ones. */
module ChunkAllocator {
  import opened SLists

  const SMALL := 1
  const BIG := 20
  const BIGGEST_CAP := 30
  const CHUNK_TYPE_NUM := BIG - SMALL + 1
  const DEFAULT_EXTRA := 2
  const UINT16_MAX := 0xffff
  const WRAP := 0x1_0000

  /** How many chunks of each class are preallocated. */
  function ChunksNum(pos: int): nat {
    if 0 <= pos < 5 then 512 else if 5 <= pos < 10 then 256 else if 10 <= pos < 15 then 128 else 56
  }

  lemma PoolSizes()
    ensures forall pos {:trigger ChunksNum(pos)} :: 0 <= pos < CHUNK_TYPE_NUM ==>
      ChunksNum(pos) == if pos < 5 then 512 else if pos < 10 then 256 else if pos < 15 then 128 else 56
  {
  }

  // ---- size classes ----

  function Pow2(n: nat): (r: nat)
    ensures 0 < r
  {
    if n == 0 then 1 else 2 * Pow2(n - 1)
  }

  lemma {:induction false} Pow2Sum(a: nat, b: nat)
    ensures Pow2(a + b) == Pow2(a) * Pow2(b)
  {
    if a != 0 {
      Pow2Sum(a - 1, b);
      assert Pow2(a + b) == 2 * Pow2(a - 1 + b) && Pow2(a) == 2 * Pow2(a - 1);
      hide Pow2;
      MulAssoc(2, Pow2(a - 1), Pow2(b));
    }
  }

  lemma {:induction false} Pow2Grows(a: nat, b: nat)
    requires a <= b
    ensures Pow2(a) <= Pow2(b)
  {
    if a < b {
      Pow2Grows(a, b - 1);
    }
  }

  /** `m` is `n` shifted left by 32 - c, and nothing was shifted out. */
  ghost predicate Shifted(n: nat, m: nat, c: nat) {
    c <= 32 && m == n * Pow2(32 - c) && m < 0x1_0000_0000
  }

  lemma ShiftMore(n: nat, m: nat, c: nat, k: nat)
    requires Shifted(n, m, c) && k <= c && m * Pow2(k) < 0x1_0000_0000
    ensures Shifted(n, m * Pow2(k), c - k)
  {
    Pow2Sum(32 - c, k);
    hide Pow2;
    MulAssoc(n, Pow2(32 - c), Pow2(k));
  }

  lemma MulAssoc(a: nat, b: nat, c: nat)
    ensures a * b * c == a * (b * c)
  {
  }

  lemma Pow2Is32()
    ensures Pow2(32) == 0x1_0000_0000 && Pow2(31) == 0x8000_0000
  {
    assert Pow2(16) == 0x1_0000 && Pow2(15) == 0x8000;
    Pow2Sum(16, 16);
    Pow2Sum(16, 15);
  }

  lemma Pow2Of32(c: nat)
    requires 0 < c <= 32
    ensures Pow2(32 - c) * Pow2(c) == 0x1_0000_0000 && Pow2(32 - c) * Pow2(c - 1) == 0x8000_0000
  {
    hide Pow2;
    Pow2Is32();
    Pow2Sum(32 - c, c);
    Pow2Sum(32 - c, c - 1);
  }

  lemma Position(n: nat, m: nat, c: nat)
    requires Shifted(n, m, c) && 0x8000_0000 <= m && 0 < c
    ensures Pow2(c - 1) <= n < Pow2(c)
  {
    hide Pow2;
    Pow2Of32(c);
    Between(n, Pow2(32 - c), Pow2(c - 1), Pow2(c), m);
  }

  lemma Between(n: nat, p: nat, low: nat, high: nat, m: nat)
    requires 0 < p && m == n * p && 0x8000_0000 <= m < 0x1_0000_0000
    requires p * high == 0x1_0000_0000 && p * low == 0x8000_0000
    ensures low <= n < high
  {
    if high <= n {
      MulLe(p, high, n);
    }
    if n < low {
      MulLt(p, n, low);
    }
  }

  lemma MulLe(p: nat, a: nat, b: nat)
    requires a <= b
    ensures p * a <= p * b
  {
  }

  lemma MulLt(p: nat, a: nat, b: nat)
    requires a < b && 0 < p
    ensures p * a < p * b
  {
  }

  lemma Pow2Small()
    ensures Pow2(1) == 2 && Pow2(2) == 4 && Pow2(4) == 0x10 && Pow2(8) == 0x100 && Pow2(16) == 0x1_0000
  {
    Pow2Sum(4, 4);
    Pow2Sum(8, 8);
  }

  /** The position, from 1, of the highest bit set in a 32-bit number; the masks test
      whether the number is below a power of two. */
  method FirstBit(num: nat) returns (c: nat)
    requires num < 0x1_0000_0000
    ensures num == 0 ==> c == 0
    ensures num != 0 ==> 0 < c <= 32 && Pow2(c - 1) <= num < Pow2(c)
  {
    if num == 0 {
      return 0;
    }
    var n := num;
    c := 32;
    hide Pow2;
    Pow2Small();
    if n < 0x1_0000 {
      ShiftMore(num, n, c, 16);
      c := c - 16;
      n := n * 0x1_0000;
    }
    if n < 0x100_0000 {
      ShiftMore(num, n, c, 8);
      c := c - 8;
      n := n * 0x100;
    }
    if n < 0x1000_0000 {
      ShiftMore(num, n, c, 4);
      c := c - 4;
      n := n * 0x10;
    }
    if n < 0x4000_0000 {
      ShiftMore(num, n, c, 2);
      c := c - 2;
      n := n * 4;
    }
    if n < 0x8000_0000 {
      ShiftMore(num, n, c, 1);
      c := c - 1;
      n := n * 2;
    }
    Position(num, n, c);
  }

  /** `cap` is the least class whose chunks hold `size` bytes. */
  ghost predicate IsClass(size: nat, cap: nat) {
    size <= Pow2(cap) && forall c: nat {:trigger Pow2(c)} :: c < cap ==> Pow2(c) < size
  }

  method SizeClass(size: nat) returns (cap: nat)
    requires 0 < size < 0x1_0000_0000
    ensures IsClass(size, cap)
  {
    var c := FirstBit(size);
    cap := c - 1;
    forall k: nat {:trigger Pow2(k)} | k < cap
      ensures Pow2(k) < size
    {
      Pow2Grows(k, cap - 1);
    }
    if size > Pow2(cap) {
      forall k: nat {:trigger Pow2(k)} | k < cap + 1
        ensures Pow2(k) < size
      {
        Pow2Grows(k, cap);
      }
      cap := cap + 1;
    }
  }

  // ---- one size class ----

  datatype Pool = Pool(idleNum: int, idle: seq<Ptr>, alloced: seq<Ptr>)

  /** Both counters of an extra list are kept modulo 2^16. */
  datatype Extra = NoExtra | Extra(idleNum: int, totalNum: int, chunks: seq<Ptr>)

  /** New chunks `l` pushed onto an extra list. */
  function Grown(e: Extra, l: seq<Ptr>): Extra {
    if e.NoExtra? then Extra(|l| % WRAP, |l| % WRAP, l)
    else Extra((e.idleNum + |l|) % WRAP, (e.totalNum + |l|) % WRAP, l + e.chunks)
  }

  /** The first chunk goes to the end. */
  function Taken(e: Extra): Extra {
    if e.NoExtra? || e.chunks == [] then e
    else Extra((e.idleNum - 1) % WRAP, e.totalNum, e.chunks[1..] + [e.chunks[0]])
  }

  /** The chunk `x` goes to the front; the list goes when its counters meet. */
  function GivenBack(e: Extra, x: Ptr): Extra {
    if e.NoExtra? then e
    else
      var idleNum := (e.idleNum + 1) % WRAP;
      if idleNum == e.totalNum then NoExtra else Extra(idleNum, e.totalNum, MovedToFront(e.chunks, x))
  }

  /** The chunks of the extra list that come before and after position `idleNum`. */
  function IdlePart(e: Extra): seq<Ptr> {
    if e.Extra? && 0 <= e.idleNum <= |e.chunks| then e.chunks[..e.idleNum] else []
  }

  function BusyPart(e: Extra): seq<Ptr> {
    if e.Extra? && 0 <= e.idleNum <= |e.chunks| then e.chunks[e.idleNum..] else []
  }

  predicate PoolCounted(n: nat, p: Pool) {
    p.idleNum == |p.idle| && |p.idle| + |p.alloced| == n
  }

  /** The counters of an extra list are the numbers of its chunks, and one of them is
      handed out. */
  predicate ExtraCounted(e: Extra) {
    e.Extra? ==> 0 <= e.idleNum < e.totalNum == |e.chunks| <= UINT16_MAX
  }

  predicate Counted(n: nat, p: Pool, e: Extra) {
    PoolCounted(n, p) && ExtraCounted(e)
  }

  /** When the next chunk is handed out the counter of the list still holds its length. */
  predicate Countable(e: Extra) {
    e.Extra? && e.idleNum == 0 ==> |e.chunks| + DEFAULT_EXTRA <= UINT16_MAX
  }

  /** Of the chunks `blocks` that exist, each is in exactly one place, once; those handed
      out are exactly the allocated ones of the pool and those of the extra list behind
      the first `idleNum`. */
  ghost predicate Accounted(p: Pool, e: Extra, held: set<Ptr>, blocks: set<Ptr>) {
    && multiset(held) == multiset(p.alloced) + multiset(BusyPart(e))
    && multiset(blocks) == multiset(held) + (multiset(p.idle) + multiset(IdlePart(e)))
  }

  ghost predicate ClassOk(n: nat, p: Pool, e: Extra, held: set<Ptr>, blocks: set<Ptr>) {
    Counted(n, p, e) && Accounted(p, e, held, blocks)
  }

  lemma SplitFirst(s: seq<Ptr>)
    requires s != []
    ensures multiset(s) == multiset{s[0]} + multiset(s[1..])
  {
    assert s == [s[0]] + s[1..];
  }

  /** An idle chunk is not held. */
  lemma IdleNotHeld(p: Pool, e: Extra, held: set<Ptr>, blocks: set<Ptr>, x: Ptr)
    requires Accounted(p, e, held, blocks) && (x in p.idle || x in IdlePart(e))
    ensures x !in held && x in blocks
  {
    assert multiset(blocks)[x] <= 1;
    assert multiset(p.idle)[x] + multiset(IdlePart(e))[x] >= 1;
  }

  lemma MoveOne(held: set<Ptr>, blocks: set<Ptr>, idle: multiset<Ptr>, idle': multiset<Ptr>, x: Ptr)
    requires multiset(blocks) == multiset(held) + idle && idle == multiset{x} + idle' && x !in held
    ensures multiset(held + {x}) == multiset(held) + multiset{x}
    ensures multiset(blocks) == multiset(held + {x}) + idle'
  {
  }

  /** Handing out the first chunk of the pool. */
  lemma TakesPooled(n: nat, p: Pool, e: Extra, held: set<Ptr>, blocks: set<Ptr>)
    requires ClassOk(n, p, e, held, blocks) && p.idle != []
    ensures p.idle[0] !in held && p.idle[0] in blocks
    ensures ClassOk(n, Pool(p.idleNum - 1, p.idle[1..], [p.idle[0]] + p.alloced), e, held + {p.idle[0]}, blocks)
  {
    var x := p.idle[0];
    IdleNotHeld(p, e, held, blocks, x);
    SplitFirst(p.idle);
    assert ([x] + p.alloced)[1..] == p.alloced;
    SplitFirst([x] + p.alloced);
    hide IdlePart, BusyPart;
    MoveOne(held, blocks, multiset(p.idle) + multiset(IdlePart(e)), multiset(p.idle[1..]) + multiset(IdlePart(e)), x);
  }

  /** Handing out the first chunk of the extra list, which goes to its end. */
  lemma TakesExtra(p: Pool, e: Extra, held: set<Ptr>, blocks: set<Ptr>)
    requires e.Extra? && 0 < e.idleNum <= |e.chunks| && e.idleNum < WRAP && Accounted(p, e, held, blocks)
    ensures e.chunks[0] !in held && e.chunks[0] in blocks
    ensures Accounted(p, Taken(e), held + {e.chunks[0]}, blocks)
  {
    var x := e.chunks[0];
    assert IdlePart(e)[0] == x;
    IdleNotHeld(p, e, held, blocks, x);
    TakenParts(e);
    hide IdlePart, BusyPart, Taken;
    MoveOne(held, blocks, multiset(p.idle) + multiset(IdlePart(e)), multiset(p.idle) + multiset(IdlePart(Taken(e))), x);
  }

  lemma TakenParts(e: Extra)
    requires e.Extra? && 0 < e.idleNum <= |e.chunks| && e.idleNum < WRAP
    ensures multiset(IdlePart(e)) == multiset{e.chunks[0]} + multiset(IdlePart(Taken(e)))
    ensures multiset(BusyPart(Taken(e))) == multiset(BusyPart(e)) + multiset{e.chunks[0]}
  {
    var x, e' := e.chunks[0], Taken(e);
    assert e'.idleNum == e.idleNum - 1;
    assert IdlePart(e) == [x] + IdlePart(e');
    assert BusyPart(e') == BusyPart(e) + [x];
  }

  /** New chunks at the front of an extra list without idle ones, or of a new list. */
  lemma AddsExtra(p: Pool, e: Extra, l: seq<Ptr>, held: set<Ptr>, blocks: set<Ptr>, blocks': set<Ptr>)
    requires Accounted(p, e, held, blocks) && multiset(blocks') == multiset(blocks) + multiset(l)
    requires (e.Extra? ==> e.idleNum == 0) && |l| < WRAP
    ensures Accounted(p, Grown(e, l), held, blocks')
  {
    assert IdlePart(e) == [] && IdlePart(Grown(e, l)) == l && BusyPart(Grown(e, l)) == BusyPart(e);
  }

  /** A list that grows and hands out a chunk is accounted for at any length; its
      counters stay right exactly while they can hold its length. */
  lemma GrowthIff(n: nat, p: Pool, e: Extra, l: seq<Ptr>, held: set<Ptr>, blocks: set<Ptr>, blocks': set<Ptr>)
    requires ClassOk(n, p, e, held, blocks) && e.Extra? && e.idleNum == 0 && |l| == DEFAULT_EXTRA
    requires multiset(blocks') == multiset(blocks) + multiset(l)
    ensures l[0] !in held && Accounted(p, Taken(Grown(e, l)), held + {l[0]}, blocks')
    ensures ClassOk(n, p, Taken(Grown(e, l)), held + {l[0]}, blocks') <==> |e.chunks| + DEFAULT_EXTRA <= UINT16_MAX
  {
    AddsExtra(p, e, l, held, blocks, blocks');
    assert Grown(e, l).chunks[0] == l[0];
    TakesExtra(p, Grown(e, l), held, blocks');
    GrownCounted(e, l);
    hide Accounted, Grown, Taken;
  }

  lemma TakenCounted(e: Extra)
    requires e.Extra? && 0 < e.idleNum <= e.totalNum == |e.chunks| <= UINT16_MAX
    ensures ExtraCounted(Taken(e)) && Countable(e)
  {
  }

  lemma GrownCounted(e: Extra, l: seq<Ptr>)
    requires e.Extra? && ExtraCounted(e) && e.idleNum == 0 && |l| == DEFAULT_EXTRA
    ensures ExtraCounted(Taken(Grown(e, l))) <==> Countable(e)
  {
  }

  /** Whatever the length, a list goes exactly when the number of chunks that are still
      handed out is a multiple of 2^16. */
  lemma GoneIff(e: Extra, idle: nat, x: Ptr)
    requires e.Extra? && idle < |e.chunks| && e.idleNum == idle % WRAP && e.totalNum == |e.chunks| % WRAP
    ensures GivenBack(e, x) == NoExtra <==> (|e.chunks| - (idle + 1)) % WRAP == 0
  {
  }

  /** The allocator loses chunks: with 65534 chunks handed out the list grows twice, and
      the next chunk given back takes along 65536 that are held. */
  lemma {:induction false} WrapLoses(e: Extra, a: seq<Ptr>, b: seq<Ptr>)
    requires ExtraCounted(e) && e.Extra? && e.idleNum == 0 && e.totalNum == UINT16_MAX - 1
    requires |a| == |b| == DEFAULT_EXTRA
    ensures var e1 := Taken(Taken(Grown(e, a)));
            var e2 := Taken(Grown(e1, b));
            && e1 == Extra(0, 0, e.chunks + a)
            && e2 == Extra(1, 2, [b[1]] + e.chunks + a + [b[0]])
            && BusyPart(e2) == e.chunks + a + [b[0]]
            && GivenBack(e2, b[0]) == NoExtra
  {
    var e0, e1 := Grown(e, a), Extra(0, 0, e.chunks + a);
    TakesNew(e0, a, e.chunks);
    assert a == [a[0], a[1]];
    TakesNew(Taken(e0), a[1..], e.chunks + [a[0]]);
    TakesNew(Grown(e1, b), b, e1.chunks);
    hide Taken;
    assert e.chunks + [a[0]] + [a[1]] == e1.chunks;
    assert b[1..] == [b[1]];
  }

  /** Taking the first chunk of `l` in front of `rest`. */
  lemma TakesNew(e: Extra, l: seq<Ptr>, rest: seq<Ptr>)
    requires e.Extra? && 0 < e.idleNum < WRAP && l != [] && e.chunks == l + rest
    ensures Taken(e) == Extra(e.idleNum - 1, e.totalNum, l[1..] + (rest + [l[0]]))
  {
    assert (l + rest)[1..] + [l[0]] == l[1..] + (rest + [l[0]]);
  }

  /** The list of a class from which chunks are only taken, twice `turns` of them. */
  function HandedOut(turns: nat): Extra {
    if turns == 0 then NoExtra else Taken(Taken(Grown(HandedOut(turns - 1), [2 * turns, 2 * turns - 1])))
  }

  /** Lists of each even length are reached, `WrapLoses` after 32767 turns. */
  lemma {:induction false} HandedOutCounts(turns: nat)
    requires 0 < turns
    ensures var e := HandedOut(turns); e.Extra? && e.idleNum == 0 && e.totalNum == 2 * turns % WRAP && |e.chunks| == 2 * turns
  {
    var e, l := HandedOut(turns - 1), [2 * turns, 2 * turns - 1];
    assert HandedOut(turns) == Taken(Taken(Grown(e, l)));
    if turns > 1 {
      HandedOutCounts(turns - 1);
    }
    hide HandedOut;
    Turn(e, l);
    hide Grown, Taken;
    WrapAdd(2 * turns - 2);
  }

  lemma WrapAdd(a: nat)
    ensures (a % WRAP + DEFAULT_EXTRA) % WRAP == (a + DEFAULT_EXTRA) % WRAP
  {
    var q, r := a / WRAP, a % WRAP;
    assert a + DEFAULT_EXTRA == q * WRAP + (r + DEFAULT_EXTRA);
    if r + DEFAULT_EXTRA < WRAP {
      assert (a + DEFAULT_EXTRA) / WRAP == q;
    } else {
      assert (a + DEFAULT_EXTRA) / WRAP == q + 1;
    }
  }

  lemma Turn(e: Extra, l: seq<Ptr>)
    requires (e.Extra? ==> e.idleNum == 0) && |l| == DEFAULT_EXTRA
    ensures var e' := Taken(Taken(Grown(e, l)));
            && e'.Extra? && e'.idleNum == 0
            && e'.totalNum == ((if e.Extra? then e.totalNum else 0) + DEFAULT_EXTRA) % WRAP
            && |e'.chunks| == (if e.Extra? then |e.chunks| else 0) + DEFAULT_EXTRA
  {
    var e1 := Taken(Grown(e, l));
    assert e1.idleNum == 1;
  }

  lemma GiveOne(held: set<Ptr>, blocks: set<Ptr>, idle: multiset<Ptr>, busy: multiset<Ptr>, idle': multiset<Ptr>, busy': multiset<Ptr>, x: Ptr)
    requires multiset(blocks) == multiset(held) + idle && x in held && multiset(held) == busy
    requires idle' == multiset{x} + idle && busy == busy' + multiset{x}
    ensures multiset(held - {x}) == busy'
    ensures multiset(blocks) == multiset(held - {x}) + idle'
  {
    forall y
      ensures multiset(held - {x})[y] == busy'[y]
    {
      assert multiset(held)[y] == busy'[y] + multiset{x}[y];
    }
    assert multiset(held) == multiset(held - {x}) + multiset{x};
  }

  lemma TakeOut(s: seq<Ptr>, k: nat)
    requires k < |s|
    ensures multiset(s) == multiset(s[..k] + s[k + 1..]) + multiset{s[k]}
  {
    assert s == s[..k] + [s[k]] + s[k + 1..];
  }

  /** Giving back a chunk of the pool: the move to the front, `pop` and `push`. */
  lemma GivesPooled(n: nat, p: Pool, e: Extra, held: set<Ptr>, blocks: set<Ptr>, x: Ptr)
    requires ClassOk(n, p, e, held, blocks) && x in p.alloced
    ensures MovedToFront(p.alloced, x) != [] && MovedToFront(p.alloced, x)[0] == x && x in held
    ensures ClassOk(n, Pool(p.idleNum + 1, [x] + p.idle, MovedToFront(p.alloced, x)[1..]), e, held - {x}, blocks)
  {
    hide MovedToFront, IdlePart, BusyPart;
    assert x in multiset(p.alloced) && x in multiset(held);
    MovedOut(p.alloced, x);
    var rest := MovedToFront(p.alloced, x)[1..];
    PooledParts(p, e, rest, x);
    GiveOne(held, blocks, multiset(p.idle) + multiset(IdlePart(e)), multiset(p.alloced) + multiset(BusyPart(e)),
            multiset([x] + p.idle) + multiset(IdlePart(e)), multiset(rest) + multiset(BusyPart(e)), x);
  }

  lemma MovedOut(s: seq<Ptr>, x: Ptr)
    requires x in s
    ensures MovedToFront(s, x) != [] && MovedToFront(s, x)[0] == x
    ensures multiset(s) == multiset(MovedToFront(s, x)[1..]) + multiset{x}
  {
    MovedKeepsOrder(s, x);
    TakeOut(s, IndexOf(s, x));
  }

  lemma PooledParts(p: Pool, e: Extra, rest: seq<Ptr>, x: Ptr)
    requires multiset(p.alloced) == multiset(rest) + multiset{x}
    ensures |rest| + 1 == |p.alloced|
    ensures multiset([x] + p.idle) + multiset(IdlePart(e)) == multiset{x} + (multiset(p.idle) + multiset(IdlePart(e)))
    ensures multiset(p.alloced) + multiset(BusyPart(e)) == multiset(rest) + multiset(BusyPart(e)) + multiset{x}
  {
    hide IdlePart, BusyPart;
    assert |multiset(p.alloced)| == |multiset(rest)| + 1;
  }

  /** A held chunk that is not in the pool is behind the idle ones of the extra list. */
  lemma HeldIsBusy(n: nat, p: Pool, e: Extra, held: set<Ptr>, blocks: set<Ptr>, x: Ptr)
    requires ClassOk(n, p, e, held, blocks) && x in held && x !in p.alloced
    ensures e.Extra? && x in e.chunks && e.idleNum <= IndexOf(e.chunks, x)
  {
    assert multiset(held)[x] == 1;
    assert multiset(p.alloced)[x] == 0;
    assert x in BusyPart(e);
    assert multiset(blocks)[x] <= 1;
    assert x !in IdlePart(e);
    var j :| 0 <= j < |BusyPart(e)| && BusyPart(e)[j] == x;
    assert e.chunks[e.idleNum + j] == x;
    NotInPrefix(e.chunks, e.idleNum, x);
  }

  lemma NotInPrefix(s: seq<Ptr>, i: int, x: Ptr)
    requires 0 <= i <= |s| && x !in s[..i]
    ensures i <= IndexOf(s, x)
  {
    var k := IndexOf(s, x);
    assert forall j :: 0 <= j < i ==> s[j] == s[..i][j];
  }

  /** Giving back a chunk of the extra list: the move to the front makes it idle. */
  lemma GivesExtra(n: nat, p: Pool, e: Extra, held: set<Ptr>, blocks: set<Ptr>, x: Ptr)
    requires ClassOk(n, p, e, held, blocks) && x in held && x !in p.alloced
    ensures e.Extra? && x in e.chunks
    ensures Accounted(p, Extra(e.idleNum + 1, e.totalNum, MovedToFront(e.chunks, x)), held - {x}, blocks)
  {
    HeldIsBusy(n, p, e, held, blocks, x);
    var k, i := IndexOf(e.chunks, x), e.idleNum;
    GivenParts(e, x, k);
    GivesParts(p, e, Extra(i + 1, e.totalNum, MovedToFront(e.chunks, x)), held, blocks, x);
  }

  lemma GivesParts(p: Pool, e: Extra, e': Extra, held: set<Ptr>, blocks: set<Ptr>, x: Ptr)
    requires Accounted(p, e, held, blocks) && x in held
    requires multiset(IdlePart(e')) == multiset{x} + multiset(IdlePart(e))
    requires multiset(BusyPart(e)) == multiset(BusyPart(e')) + multiset{x}
    ensures Accounted(p, e', held - {x}, blocks)
  {
    hide IdlePart, BusyPart;
    GiveOne(held, blocks, multiset(p.idle) + multiset(IdlePart(e)), multiset(p.alloced) + multiset(BusyPart(e)),
            multiset(p.idle) + multiset(IdlePart(e')), multiset(p.alloced) + multiset(BusyPart(e')), x);
  }

  lemma GivenParts(e: Extra, x: Ptr, k: int)
    requires e.Extra? && 0 <= e.idleNum <= k < |e.chunks| && k == IndexOf(e.chunks, x)
    ensures var e' := Extra(e.idleNum + 1, e.totalNum, MovedToFront(e.chunks, x));
            && multiset(IdlePart(e')) == multiset{x} + multiset(IdlePart(e))
            && multiset(BusyPart(e)) == multiset(BusyPart(e')) + multiset{x}
  {
    GivenIdle(e.chunks, e.idleNum, k, MovedToFront(e.chunks, x));
    GivenBusy(e.chunks, e.idleNum, k, MovedToFront(e.chunks, x));
    hide MovedToFront, IndexOf;
  }

  lemma GivenIdle(s: seq<Ptr>, i: nat, k: nat, s': seq<Ptr>)
    requires i <= k < |s| && s' == [s[k]] + s[..k] + s[k + 1..]
    ensures multiset(s'[..i + 1]) == multiset{s[k]} + multiset(s[..i])
  {
    assert s'[..i + 1] == [s[k]] + s[..i];
  }

  lemma GivenBusy(s: seq<Ptr>, i: nat, k: nat, s': seq<Ptr>)
    requires i <= k < |s| && s' == [s[k]] + s[..k] + s[k + 1..]
    ensures multiset(s[i..]) == multiset(s'[i + 1..]) + multiset{s[k]}
  {
    assert s'[i + 1..] == s[i..k] + s[k + 1..];
    assert s[i..][..k - i] == s[i..k] && s[i..][k - i + 1..] == s[k + 1..];
    TakeOut(s[i..], k - i);
  }

  lemma IdleExist(p: Pool, e: Extra, held: set<Ptr>, blocks: set<Ptr>, x: Ptr)
    requires Accounted(p, e, held, blocks) && e.Extra? && e.idleNum == |e.chunks| && x in e.chunks
    ensures x in blocks
  {
    assert IdlePart(e) == e.chunks;
    IdleNotHeld(p, e, held, blocks, x);
  }

  /** When every chunk of the extra list is idle the list and its chunks go. */
  lemma DropsExtra(n: nat, p: Pool, e: Extra, held: set<Ptr>, blocks: set<Ptr>)
    requires PoolCounted(n, p) && Accounted(p, e, held, blocks)
    requires e.Extra? && e.idleNum == |e.chunks|
    ensures ClassOk(n, p, NoExtra, held, blocks - (set x | x in e.chunks))
  {
    assert IdlePart(e) == e.chunks && BusyPart(e) == [];
    var gone := set x | x in e.chunks;
    forall x
      ensures multiset(blocks - gone)[x] == multiset(held)[x] + multiset(p.idle)[x]
    {
      assert multiset(blocks)[x] == multiset(held)[x] + multiset(p.idle)[x] + multiset(e.chunks)[x];
      assert x in gone <==> multiset(e.chunks)[x] > 0;
    }
  }

  // ---- the allocator ----

  function Num(cap: int): nat {
    if SMALL <= cap <= BIG then ChunksNum(cap - SMALL) else 0
  }

  function PoolAt(pools: seq<Pool>, cap: int): Pool {
    if 0 <= cap - SMALL < |pools| then pools[cap - SMALL] else Pool(0, [], [])
  }

  /** The pool of the class has an idle chunk. */
  predicate FromPool(pools: seq<Pool>, cap: int) {
    0 <= cap - SMALL < |pools| && pools[cap - SMALL].idle != []
  }

  /** The word before each of the chunks `b` says `cap`. */
  ghost predicate Headers(capOf: map<Ptr, int>, next: Ptr, b: set<Ptr>, cap: int) {
    forall p {:trigger p in b} :: p in b ==> p in capOf && capOf[p] == cap && 0 < p < next
  }

  /** Chunks of different classes are different. */
  lemma OtherClass(capOf: map<Ptr, int>, next: Ptr, b: set<Ptr>, cap: int, b': set<Ptr>, cap': int)
    requires Headers(capOf, next, b, cap) && Headers(capOf, next, b', cap') && cap != cap'
    ensures b !! b'
  {
  }

  lemma SmallEnough(size: nat)
    requires size <= Pow2(BIGGEST_CAP)
    ensures size <= 0x4000_0000
  {
    assert Pow2(15) == 0x8000;
    Pow2Sum(15, 15);
  }

  lemma AtMost30(size: nat, cap: nat)
    requires IsClass(size, cap) && size <= Pow2(BIGGEST_CAP)
    ensures cap <= BIGGEST_CAP
  {
    hide Pow2;
    var big: nat := BIGGEST_CAP;
    assert big < cap ==> Pow2(big) < size;
  }

  lemma HeldExist(n: nat, p: Pool, e: Extra, held: set<Ptr>, blocks: set<Ptr>)
    requires ClassOk(n, p, e, held, blocks)
    ensures held <= blocks
  {
    hide IdlePart, BusyPart;
    forall x | x in held
      ensures x in blocks
    {
      assert multiset(blocks)[x] >= multiset(held)[x] >= 1;
    }
  }

  class Allocator {
    var pools: seq<Pool>        // the class `cap` is at position cap - SMALL
    var extras: seq<Extra>      // by class
    var capOf: map<Ptr, int>    // the word before each chunk
    var next: Ptr
    ghost var held: seq<set<Ptr>>    // by class: chunks handed out and not given back
    ghost var blocks: seq<set<Ptr>>  // by class: chunks that exist

    /** Preallocates the pools; there are no extra lists yet and nothing is handed out. */
    constructor ()
      ensures Valid() && held == seq(BIGGEST_CAP + 1, _ => {})
      ensures forall cap {:trigger extras[cap]} :: 0 <= cap <= BIGGEST_CAP ==> extras[cap] == NoExtra
      ensures forall pos {:trigger pools[pos]} :: 0 <= pos < CHUNK_TYPE_NUM ==>
        pools[pos].idleNum == (if pos < 5 then 512 else if pos < 10 then 256 else if pos < 15 then 128 else 56) && pools[pos].alloced == []
    {
      hide Headers, ChunksNum, ClassOk;
      pools, extras := seq(CHUNK_TYPE_NUM, _ => Pool(0, [], [])), seq(BIGGEST_CAP + 1, _ => NoExtra);
      capOf, next := map[], 1;
      held, blocks := seq(BIGGEST_CAP + 1, _ => {}), seq(BIGGEST_CAP + 1, _ => {});
      new;
      NoHeaders();
      EmptyClass();
      var i := CHUNK_TYPE_NUM;
      while i > 0
        invariant 0 <= i <= CHUNK_TYPE_NUM && Tables() && extras == seq(BIGGEST_CAP + 1, _ => NoExtra) && held == seq(BIGGEST_CAP + 1, _ => {})
        invariant forall cap {:trigger held[cap]} :: 0 <= cap <= BIGGEST_CAP && !(SMALL <= cap < SMALL + i) ==>
          ClassOk(Num(cap), PoolAt(pools, cap), extras[cap], held[cap], blocks[cap])
        invariant forall pos {:trigger pools[pos]} :: i <= pos < CHUNK_TYPE_NUM ==> pools[pos].idleNum == ChunksNum(pos) && pools[pos].alloced == []
        invariant forall cap {:trigger blocks[cap]} :: SMALL <= cap < SMALL + i ==> blocks[cap] == {}
      {
        i := i - 1;
        var list := MmPreAlloc(SMALL + i, ChunksNum(i));
        NewClass(ChunksNum(i), list, blocks[SMALL + i]);
        pools := pools[i := Pool(ChunksNum(i), list, [])];
      }
      PoolSizes();
    }

    ghost predicate Tables()
      reads this
    {
      && |pools| == CHUNK_TYPE_NUM && |extras| == |held| == |blocks| == BIGGEST_CAP + 1 && 0 < next
      && forall cap {:trigger blocks[cap]} :: 0 <= cap <= BIGGEST_CAP ==> Headers(capOf, next, blocks[cap], cap)
    }

    ghost predicate OkBut(but: int)
      reads this
    {
      Tables() && forall cap {:trigger held[cap]} :: 0 <= cap <= BIGGEST_CAP && cap != but ==>
        ClassOk(Num(cap), PoolAt(pools, cap), extras[cap], held[cap], blocks[cap])
    }

    ghost predicate Valid()
      reads this
    {
      OkBut(-1)
    }

    /** `p` is handed out, in some class. */
    ghost predicate Held(p: Ptr)
      reads this
      requires Tables()
    {
      p in capOf && 0 <= capOf[p] <= BIGGEST_CAP && p in held[capOf[p]]
    }

    lemma At(cap: int)
      requires Valid() && 0 <= cap <= BIGGEST_CAP
      ensures ClassOk(Num(cap), PoolAt(pools, cap), extras[cap], held[cap], blocks[cap])
      ensures Headers(capOf, next, blocks[cap], cap) && OkBut(cap)
    {
      hide ClassOk;
      assert held[cap] == held[cap];
    }

    method Malloc(cap: int) returns (p: Ptr)
      requires Tables() && 0 <= cap <= BIGGEST_CAP
      modifies this`capOf, this`next, this`blocks
      ensures Tables() && p != NULL && p == old(next) && next == p + 1 && p !in old(blocks[cap])
      ensures blocks == old(blocks)[cap := old(blocks[cap]) + {p}]
    {
      hide Headers;
      p := next;
      Unborn(cap);
      next := next + 1;
      capOf := capOf[p := cap];
      blocks := blocks[cap := blocks[cap] + {p}];
      forall c | 0 <= c <= BIGGEST_CAP
        ensures Headers(capOf, next, blocks[c], c)
      {
        assert Headers(old(capOf), old(next), old(blocks)[c], c);
        OneMore(old(capOf), old(next), old(blocks)[c], c, cap);
      }
    }

    /** A list of `counts` new chunks, the last one first. */
    method MmPreAlloc(cap: int, counts: nat) returns (list: seq<Ptr>)
      requires Tables() && 0 <= cap <= BIGGEST_CAP
      modifies this`capOf, this`next, this`blocks
      ensures Tables() && |list| == counts
      ensures blocks == old(blocks)[cap := blocks[cap]]
      ensures multiset(blocks[cap]) == multiset(old(blocks)[cap]) + multiset(list)
    {
      hide Headers, ChunksNum;
      list := [];
      var left := counts;
      while left != 0
        invariant Tables() && 0 <= left && |list| == counts - left
        invariant blocks == old(blocks)[cap := blocks[cap]]
        invariant multiset(blocks[cap]) == multiset(old(blocks)[cap]) + multiset(list)
      {
        ghost var before := blocks[cap];
        var ptr := Malloc(cap);
        NewBlock(before, ptr, list);
        list := [ptr] + list;
        left := left - 1;
      }
    }

    /** Makes the extra list of a class. */
    method MkEl(cap: int)
      requires Tables() && OkBut(cap) && 0 <= cap <= BIGGEST_CAP && extras[cap].NoExtra?
      requires Accounted(PoolAt(pools, cap), NoExtra, held[cap], blocks[cap])
      modifies this`capOf, this`next, this`blocks, this`extras
      ensures OkBut(cap) && Accounted(PoolAt(pools, cap), extras[cap], held[cap], blocks[cap])
      ensures extras == old(extras)[cap := extras[cap]] && extras[cap].Extra?
      ensures extras[cap].idleNum == extras[cap].totalNum == |extras[cap].chunks| == DEFAULT_EXTRA
      ensures blocks == old(blocks)[cap := blocks[cap]]
    {
      hide Headers, ChunksNum, ClassOk, Accounted;
      var list := MmPreAlloc(cap, DEFAULT_EXTRA);
      AddsExtra(PoolAt(pools, cap), NoExtra, list, held[cap], old(blocks[cap]), blocks[cap]);
      extras := extras[cap := Extra(DEFAULT_EXTRA, DEFAULT_EXTRA, list)];
    }

    /** Puts new chunks in front of a list. */
    method PushNew(cap: int, rest: seq<Ptr>) returns (chunks: seq<Ptr>, ghost list: seq<Ptr>)
      requires Tables() && 0 <= cap <= BIGGEST_CAP
      modifies this`capOf, this`next, this`blocks
      ensures Tables() && |list| == DEFAULT_EXTRA && chunks == list + rest
      ensures blocks == old(blocks)[cap := blocks[cap]]
      ensures multiset(blocks[cap]) == multiset(old(blocks)[cap]) + multiset(list)
    {
      hide Headers;
      chunks, list := rest, [];
      var i := DEFAULT_EXTRA;
      while i != 0
        invariant Tables() && 0 <= i && |list| == DEFAULT_EXTRA - i && chunks == list + rest
        invariant blocks == old(blocks)[cap := blocks[cap]]
        invariant multiset(blocks[cap]) == multiset(old(blocks)[cap]) + multiset(list)
      {
        ghost var before := blocks[cap];
        var ptr := Malloc(cap);
        NewBlock(before, ptr, list);
        chunks := [ptr] + chunks;
        list := [ptr] + list;
        i := i - 1;
      }
    }

    /** Adds chunks to an extra list that has no idle one. */
    method ExpandEl(cap: int) returns (ghost list: seq<Ptr>)
      requires Tables() && OkBut(cap) && 0 <= cap <= BIGGEST_CAP && extras[cap].Extra? && extras[cap].idleNum == 0
      requires Accounted(PoolAt(pools, cap), extras[cap], held[cap], blocks[cap])
      modifies this`capOf, this`next, this`blocks, this`extras
      ensures OkBut(cap) && Accounted(PoolAt(pools, cap), extras[cap], held[cap], blocks[cap])
      ensures |list| == DEFAULT_EXTRA && extras == old(extras)[cap := Grown(old(extras[cap]), list)]
      ensures blocks == old(blocks)[cap := blocks[cap]]
    {
      hide Headers, ChunksNum, ClassOk, Accounted, Grown;
      var e := extras[cap];
      var chunks;
      chunks, list := PushNew(cap, e.chunks);
      AddsExtra(PoolAt(pools, cap), e, list, held[cap], old(blocks[cap]), blocks[cap]);
      GrownIs(e, list);
      extras := extras[cap := Extra((e.idleNum + DEFAULT_EXTRA) % WRAP, (e.totalNum + DEFAULT_EXTRA) % WRAP, chunks)];
    }

    /** Hands out the first chunk of an extra list with idle ones. */
    method SelectExtra(cap: int) returns (ptr: Ptr)
      requires OkBut(cap) && 0 <= cap <= BIGGEST_CAP && extras[cap].Extra?
      requires 0 < extras[cap].idleNum <= |extras[cap].chunks| && extras[cap].idleNum < WRAP
      requires Accounted(PoolAt(pools, cap), extras[cap], held[cap], blocks[cap])
      modifies this`extras, this`held
      ensures OkBut(cap) && ptr in blocks[cap] && ptr !in old(held[cap])
      ensures Accounted(PoolAt(pools, cap), extras[cap], held[cap], blocks[cap])
      ensures extras == old(extras)[cap := Taken(old(extras[cap]))]
      ensures held == old(held)[cap := old(held[cap]) + {ptr}]
    {
      hide Headers, ChunksNum, ClassOk, Accounted;
      var e := extras[cap];
      ptr := e.chunks[0];
      TakesExtra(PoolAt(pools, cap), e, held[cap], blocks[cap]);
      extras := extras[cap := Extra((e.idleNum - 1) % WRAP, e.totalNum, e.chunks[1..] + [ptr])];
      held := held[cap := held[cap] + {ptr}];
    }

    /** Hands out the first chunk of a pool with idle ones. */
    method SelectPreAlloced(cap: int) returns (ptr: Ptr)
      requires Valid() && SMALL <= cap <= BIG && pools[cap - SMALL].idleNum != 0
      modifies this`pools, this`held
      ensures Valid() && ptr in blocks[cap] && ptr !in old(held[cap]) && FromPool(old(pools), cap) && ptr == old(pools)[cap - SMALL].idle[0]
      ensures held == old(held)[cap := old(held[cap]) + {ptr}]
    {
      hide Headers, ChunksNum, Accounted;
      At(cap);
      var p := pools[cap - SMALL];
      TakesPooled(Num(cap), p, extras[cap], held[cap], blocks[cap]);
      hide ClassOk;
      ptr := p.idle[0];
      pools := pools[cap - SMALL := Pool(p.idleNum - 1, p.idle[1..], [ptr] + p.alloced)];
      held := held[cap := held[cap] + {ptr}];
    }

    /** Makes sure the extra list of a class has an idle chunk and hands it out. */
    method AllocExtra(cap: int) returns (ptr: Ptr)
      requires Valid() && 0 <= cap <= BIGGEST_CAP
      modifies this`capOf, this`next, this`blocks, this`extras, this`held
      ensures OkBut(cap) && ptr in blocks[cap] && ptr !in old(held[cap]) && blocks == old(blocks)[cap := blocks[cap]]
      ensures Accounted(PoolAt(pools, cap), extras[cap], held[cap], blocks[cap])
      ensures extras == old(extras)[cap := extras[cap]] && held == old(held)[cap := old(held[cap]) + {ptr}]
      ensures Valid() <==> Countable(old(extras[cap]))
    {
      hide Headers, ChunksNum, Accounted, ClassOk, Grown, Taken;
      ClassParts(cap);
      ghost var e, list := extras[cap], [];
      if extras[cap].NoExtra? {
        MkEl(cap);
        TakenCounted(extras[cap]);
      } else if extras[cap].idleNum == 0 {
        list := ExpandEl(cap);
        GrownIdle(e, list);
        GrownCounted(e, list);
      } else {
        TakenCounted(e);
      }
      ptr := SelectExtra(cap);
      ValidIff(cap);
    }

    /** With the chunks of a class accounted for only its counters can be wrong. */
    lemma ValidIff(cap: int)
      requires OkBut(cap) && 0 <= cap <= BIGGEST_CAP && PoolCounted(Num(cap), PoolAt(pools, cap))
      requires Accounted(PoolAt(pools, cap), extras[cap], held[cap], blocks[cap])
      ensures Valid() <==> ExtraCounted(extras[cap])
    {
      hide Headers, ChunksNum, Accounted, ExtraCounted;
      assert Valid() ==> ClassOk(Num(cap), PoolAt(pools, cap), extras[cap], held[cap], blocks[cap]) by {
        assert held[cap] == held[cap];
      }
    }

    lemma ClassParts(cap: int)
      requires Valid() && 0 <= cap <= BIGGEST_CAP
      ensures OkBut(cap) && PoolCounted(Num(cap), PoolAt(pools, cap)) && Accounted(PoolAt(pools, cap), extras[cap], held[cap], blocks[cap])
      ensures ExtraCounted(extras[cap])
    {
      hide Headers, ChunksNum, Accounted, ExtraCounted;
      At(cap);
    }

    /** Hands out a chunk that is not held, of the least class that holds `size` bytes.
        Every chunk is still accounted for, and the allocator stays valid exactly unless
        this class grows beyond what its 16-bit counter holds. */
    method DcAlloc(size: nat) returns (ptr: Ptr)
      requires Valid() && size != 1 && size <= Pow2(BIGGEST_CAP)
      modifies this
      ensures size == 0 ==> Valid() && ptr == NULL && held == old(held)
      ensures size != 0 ==> Tables() && ptr != NULL && !old(Held(ptr)) && Held(ptr) && IsClass(size, capOf[ptr])
      ensures size != 0 ==> held == old(held)[capOf[ptr] := old(held)[capOf[ptr]] + {ptr}] && extras == old(extras)[capOf[ptr] := extras[capOf[ptr]]]
      ensures size != 0 ==> var cap := capOf[ptr]; OkBut(cap) && Accounted(PoolAt(pools, cap), extras[cap], held[cap], blocks[cap])
      ensures size != 0 ==> (Valid() <==> FromPool(old(pools), capOf[ptr]) || Countable(old(extras)[capOf[ptr]]))
      ensures size != 0 && FromPool(old(pools), capOf[ptr]) ==> ptr == old(pools)[capOf[ptr] - SMALL].idle[0] && extras == old(extras)
      ensures size != 0 && !FromPool(old(pools), capOf[ptr]) ==> pools == old(pools)
    {
      hide Headers, ChunksNum, Accounted, ClassOk, Pow2, Countable, ExtraCounted;
      if size == 0 {
        return NULL;
      }
      SmallEnough(size);
      AllHeldExist();
      var cap := SizeClass(size);
      AtMost30(size, cap);
      ClassParts(cap);
      if cap < SMALL || cap > BIG || pools[cap - SMALL].idleNum == 0 {
        ptr := AllocExtra(cap);
      } else {
        ptr := SelectPreAlloced(cap);
        ClassParts(cap);
      }
      HeaderOf(cap, ptr);
      forall c | 0 <= c <= BIGGEST_CAP && c != cap
        ensures ptr !in old(held)[c]
      {
        OtherClass(capOf, next, blocks[c], c, blocks[cap], cap);
      }
    }

    lemma AllHeldExist()
      requires Valid()
      ensures forall c {:trigger held[c]} :: 0 <= c <= BIGGEST_CAP ==> held[c] <= blocks[c]
    {
      hide Headers, ChunksNum, ClassOk;
      forall c {:trigger held[c]} | 0 <= c <= BIGGEST_CAP
        ensures held[c] <= blocks[c]
      {
        At(c);
        HeldExist(Num(c), PoolAt(pools, c), extras[c], held[c], blocks[c]);
      }
    }

    lemma HeaderOf(cap: int, p: Ptr)
      requires Tables() && 0 <= cap <= BIGGEST_CAP && p in blocks[cap]
      ensures p in capOf && capOf[p] == cap && 0 < p < next
    {
    }

    /** Gives a chunk of an extra list back; when the last one comes back the list goes. */
    method FreeExtra(cap: int, ptr: Ptr)
      requires Valid() && 0 <= cap <= BIGGEST_CAP && ptr in held[cap] && ptr !in PoolAt(pools, cap).alloced
      modifies this`extras, this`held, this`blocks, this`capOf
      ensures Valid() && held == old(held)[cap := old(held[cap]) - {ptr}]
      ensures extras == old(extras)[cap := GivenBack(old(extras[cap]), ptr)]
    {
      hide Headers, ChunksNum, Accounted;
      At(cap);
      var e := extras[cap];
      ghost var p, h := PoolAt(pools, cap), held[cap] - {ptr};
      GivesExtra(Num(cap), p, e, held[cap], blocks[cap], ptr);
      hide ClassOk;
      ClassParts(cap);
      var e' := Extra((e.idleNum + 1) % WRAP, e.totalNum, MovedToFront(e.chunks, ptr));
      held := held[cap := h];
      if e'.idleNum == e'.totalNum {
        DropsExtra(Num(cap), p, e', h, blocks[cap]);
        forall x {:trigger x in e'.chunks} | x in e'.chunks
          ensures x in blocks[cap]
        {
          IdleExist(p, e', h, blocks[cap], x);
        }
        ReleaseChunks(cap, e'.chunks);
        extras := extras[cap := NoExtra];
      } else {
        GivenCounted(Num(cap), p, e', h, blocks[cap]);
        extras := extras[cap := e'];
      }
    }

    /** Frees the chunks of a list. */
    method ReleaseChunks(cap: int, chunks: seq<Ptr>)
      requires Tables() && 0 <= cap <= BIGGEST_CAP && forall x {:trigger x in chunks} :: x in chunks ==> x in blocks[cap]
      modifies this`blocks, this`capOf
      ensures Tables() && blocks == old(blocks)[cap := old(blocks[cap]) - (set x | x in chunks)]
    {
      var gone := set x | x in chunks;
      hide Headers;
      forall c | 0 <= c <= BIGGEST_CAP
        ensures Headers(capOf - gone, next, if c == cap then blocks[c] - gone else blocks[c], c)
      {
        assert Headers(capOf, next, blocks[c], c) && Headers(capOf, next, blocks[cap], cap);
        Without(capOf, next, blocks[c], c, blocks[cap], cap, gone);
      }
      capOf := capOf - gone;
      blocks := blocks[cap := blocks[cap] - gone];
    }

    /** Gives a held chunk back; `NULL` is ignored. */
    method DcFree(ptr: Ptr)
      requires Valid() && (ptr != NULL ==> Held(ptr))
      modifies this
      ensures Valid()
      ensures held == if ptr == NULL then old(held) else old(held)[old(capOf[ptr]) := old(held)[old(capOf[ptr])] - {ptr}]
    {
      hide Headers, ChunksNum, Accounted;
      if ptr == NULL {
        return;
      }
      var cap := capOf[ptr];
      if cap < SMALL || cap > BIG {
        FreeExtra(cap, ptr);
        return;
      }
      var p := pools[cap - SMALL];
      At(cap);
      if ptr in p.alloced {
        GivesPooled(Num(cap), p, extras[cap], held[cap], blocks[cap], ptr);
        hide ClassOk;
        var moved := MovedToFront(p.alloced, ptr);
        pools := pools[cap - SMALL := Pool(p.idleNum + 1, [moved[0]] + p.idle, moved[1..])];
        held := held[cap := held[cap] - {ptr}];
        return;
      }
      FreeExtra(cap, ptr);
    }

    lemma Unborn(cap: int)
      requires Tables() && 0 <= cap <= BIGGEST_CAP
      ensures next !in blocks[cap]
    {
      assert Headers(capOf, next, blocks[cap], cap);
    }
  }

  lemma GivenCounted(n: nat, p: Pool, e: Extra, held: set<Ptr>, blocks: set<Ptr>)
    requires PoolCounted(n, p) && Accounted(p, e, held, blocks)
    requires ExtraCounted(e)
    ensures ClassOk(n, p, e, held, blocks)
  {
  }

  lemma GrownIs(e: Extra, l: seq<Ptr>)
    requires e.Extra? && |l| == DEFAULT_EXTRA
    ensures Grown(e, l) == Extra((e.idleNum + DEFAULT_EXTRA) % WRAP, (e.totalNum + DEFAULT_EXTRA) % WRAP, l + e.chunks)
  {
  }

  lemma GrownIdle(e: Extra, l: seq<Ptr>)
    requires e.Extra? && e.idleNum == 0 && |l| == DEFAULT_EXTRA
    ensures Grown(e, l).Extra? && Grown(e, l).idleNum == DEFAULT_EXTRA && DEFAULT_EXTRA <= |Grown(e, l).chunks|
  {
  }

  lemma Without(capOf: map<Ptr, int>, next: Ptr, b: set<Ptr>, c: int, b': set<Ptr>, cap: int, gone: set<Ptr>)
    requires Headers(capOf, next, b, c) && Headers(capOf, next, b', cap) && gone <= b' && (c == cap ==> b' == b)
    ensures Headers(capOf - gone, next, if c == cap then b - gone else b, c)
  {
  }

  lemma NoHeaders()
    ensures forall next, cap {:trigger Headers(map[], next, {}, cap)} :: Headers(map[], next, {}, cap)
  {
  }

  lemma EmptyClass()
    ensures ClassOk(0, Pool(0, [], []), NoExtra, {}, {})
  {
  }

  /** A class of which all chunks are idle. */
  lemma NewClass(n: nat, list: seq<Ptr>, blocks: set<Ptr>)
    requires |list| == n && multiset(blocks) == multiset({}) + multiset(list)
    ensures ClassOk(n, Pool(n, list, []), NoExtra, {}, blocks)
  {
  }

  lemma NewBlock(b: set<Ptr>, p: Ptr, list: seq<Ptr>)
    requires p !in b
    ensures multiset(b + {p}) == multiset(b) + multiset{p}
    ensures multiset([p] + list) == multiset{p} + multiset(list)
  {
  }

  lemma OneMore(capOf: map<Ptr, int>, next: Ptr, b: set<Ptr>, c: int, cap: int)
    requires Headers(capOf, next, b, c) && 0 < next
    ensures Headers(capOf[next := cap], next + 1, if c == cap then b + {next} else b, c)
  {
  }
}
