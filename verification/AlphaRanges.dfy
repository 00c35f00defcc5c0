/** What an alphabet map means: a sorted list of disjoint character ranges, the set
    of characters it covers, and the coding of these characters by 1, 2, 3, ... */
module AlphaRanges {
  const ALPHA_CHAR_ERROR := 0xffff_ffff
  const TRIE_CHAR_MAX := 255

  /** Wide characters are unsigned 32-bit numbers. */
  type AlphaChar = c: int | 0 <= c <= ALPHA_CHAR_ERROR

  datatype Range = Range(begin: AlphaChar, end: AlphaChar)

  ghost predicate Sorted(rs: seq<Range>) {
    && (forall i {:trigger rs[i]} :: 0 <= i < |rs| ==> rs[i].begin <= rs[i].end)
    && (forall i, j {:trigger rs[i], rs[j]} :: 0 <= i < j < |rs| ==> rs[i].end < rs[j].begin)
  }

  ghost predicate Covers(rs: seq<Range>, c: int) {
    exists i {:trigger rs[i]} :: 0 <= i < |rs| && rs[i].begin <= c <= rs[i].end
  }

  /** `rs'` covers what `rs` and begin..end cover. */
  ghost predicate IsUnion(rs: seq<Range>, begin: int, end: int, rs': seq<Range>) {
    forall c :: Covers(rs', c) <==> Covers(rs, c) || begin <= c <= end
  }

  /** The number of covered characters. */
  function Size(rs: seq<Range>): int {
    if rs == [] then 0 else rs[0].end - rs[0].begin + 1 + Size(rs[1..])
  }

  /** The code of a non-zero character when the first range starts at code `base`; the
      running code is an unsigned char. */
  function CodeFrom(rs: seq<Range>, base: int, c: int): int {
    if rs == [] then TRIE_CHAR_MAX
    else if rs[0].begin <= c <= rs[0].end then (base + (c - rs[0].begin)) % 256
    else CodeFrom(rs[1..], (base + (rs[0].end - rs[0].begin + 1)) % 256, c)
  }

  function Code(rs: seq<Range>, c: int): int {
    if c == 0 then 0 else CodeFrom(rs, 1, c)
  }

  function CharFrom(rs: seq<Range>, base: int, t: int): int {
    if rs == [] then ALPHA_CHAR_ERROR
    else if t <= base + (rs[0].end - rs[0].begin) then rs[0].begin + (t - base)
    else CharFrom(rs[1..], (base + (rs[0].end - rs[0].begin + 1)) % 256, t)
  }

  function Char(rs: seq<Range>, t: int): int {
    if t == 0 then 0 else CharFrom(rs, 1, t)
  }

  /** The alphabets the trie can work with: no more than 254 characters, not zero. */
  ghost predicate IsAlphabet(rs: seq<Range>) {
    Sorted(rs) && Size(rs) < TRIE_CHAR_MAX && !Covers(rs, 0)
  }

  lemma {:induction false} SizeIsNat(rs: seq<Range>)
    requires Sorted(rs)
    ensures 0 <= Size(rs)
  {
    if rs != [] {
      SortedTail(rs);
      SizeIsNat(rs[1..]);
    }
  }

  lemma SortedTail(rs: seq<Range>)
    requires Sorted(rs) && rs != []
    ensures Sorted(rs[1..]) && rs[0].begin <= rs[0].end
    ensures forall c :: Covers(rs, c) <==> rs[0].begin <= c <= rs[0].end || Covers(rs[1..], c)
    ensures forall c :: Covers(rs[1..], c) ==> rs[0].end < c
  {
    var tail := rs[1..];
    assert forall i {:trigger tail[i]} :: 0 <= i < |tail| ==> tail[i] == rs[i + 1];
    forall c | Covers(rs, c)
      ensures rs[0].begin <= c <= rs[0].end || Covers(tail, c)
    {
      var i :| 0 <= i < |rs| && rs[i].begin <= c <= rs[i].end;
      if i != 0 {
        assert tail[i - 1].begin <= c <= tail[i - 1].end;
      }
    }
    forall c | Covers(tail, c)
      ensures Covers(rs, c) && rs[0].end < c
    {
      var i :| 0 <= i < |tail| && tail[i].begin <= c <= tail[i].end;
      assert rs[i + 1].begin <= c <= rs[i + 1].end;
    }
  }

  /** From `c` on, one of the next Size(rs) + 1 characters is not covered. */
  lemma {:induction false} Gap(rs: seq<Range>, c: int) returns (g: int)
    requires Sorted(rs)
    ensures !Covers(rs, g) && c <= g <= c + Size(rs)
  {
    if rs == [] {
      return c;
    }
    SortedTail(rs);
    SizeIsNat(rs[1..]);
    hide Sorted, Covers;
    if c < rs[0].begin {
      g := c;
    } else {
      g := Gap(rs[1..], if c <= rs[0].end then rs[0].end + 1 else c);
    }
  }

  /** With at most 254 characters no code wraps. */
  lemma NoWrap(rs: seq<Range>, base: int, c: int, t: int)
    requires rs != [] && rs[0].begin <= rs[0].end && 0 <= Size(rs[1..]) && 1 <= base && base + Size(rs) <= TRIE_CHAR_MAX
    ensures var next := base + (rs[0].end - rs[0].begin + 1);
            && next + Size(rs[1..]) == base + Size(rs) && base < next
            && CodeFrom(rs, base, c) == (if rs[0].begin <= c <= rs[0].end then base + (c - rs[0].begin) else CodeFrom(rs[1..], next, c))
            && CharFrom(rs, base, t) == (if t < next then rs[0].begin + (t - base) else CharFrom(rs[1..], next, t))
  {
    var next := base + (rs[0].end - rs[0].begin + 1);
    assert Size(rs) == rs[0].end - rs[0].begin + 1 + Size(rs[1..]);
    assert next % 256 == next;
  }

  lemma {:induction false} CodeFromRange(rs: seq<Range>, base: int, c: int)
    requires Sorted(rs) && 1 <= base && base + Size(rs) <= TRIE_CHAR_MAX
    ensures if Covers(rs, c) then base <= CodeFrom(rs, base, c) < base + Size(rs) else CodeFrom(rs, base, c) == TRIE_CHAR_MAX
    ensures Covers(rs, c) ==> CharFrom(rs, base, CodeFrom(rs, base, c)) == c
  {
    if rs == [] {
      assert !Covers(rs, c);
    } else {
      SortedTail(rs);
      SizeIsNat(rs[1..]);
      hide Sorted, Covers, CodeFrom, CharFrom, Size;
      NoWrap(rs, base, c, CodeFrom(rs, base, c));
      CodeFromRange(rs[1..], base + (rs[0].end - rs[0].begin + 1), c);
    }
  }

  lemma {:induction false} CodeFromIncreases(rs: seq<Range>, base: int, c: int, c': int)
    requires Sorted(rs) && 1 <= base && base + Size(rs) <= TRIE_CHAR_MAX
    requires Covers(rs, c) && Covers(rs, c') && c < c'
    ensures CodeFrom(rs, base, c) < CodeFrom(rs, base, c')
  {
    SortedTail(rs);
    SizeIsNat(rs[1..]);
    hide Sorted, Covers, CodeFrom, CharFrom, Size;
    NoWrap(rs, base, c, base);
    NoWrap(rs, base, c', base);
    var next := base + (rs[0].end - rs[0].begin + 1);
    if rs[0].end < c {
      CodeFromIncreases(rs[1..], next, c, c');
    } else if rs[0].end < c' {
      CodeFromRange(rs[1..], next, c');
    }
  }

  lemma {:induction false} CharFromRange(rs: seq<Range>, base: int, t: int)
    requires Sorted(rs) && 1 <= base && base + Size(rs) <= TRIE_CHAR_MAX && base <= t <= TRIE_CHAR_MAX
    ensures t < base + Size(rs) ==> Covers(rs, CharFrom(rs, base, t)) && CodeFrom(rs, base, CharFrom(rs, base, t)) == t
    ensures base + Size(rs) <= t ==> CharFrom(rs, base, t) == ALPHA_CHAR_ERROR
  {
    if rs != [] {
      SortedTail(rs);
      SizeIsNat(rs[1..]);
      hide Sorted, Covers, CodeFrom, CharFrom, Size;
      var next := base + (rs[0].end - rs[0].begin + 1);
      NoWrap(rs, base, CharFrom(rs, base, t), t);
      if next <= t {
        CharFromRange(rs[1..], next, t);
      } else {
        assert rs[0].begin <= rs[0].begin + (t - base) <= rs[0].end;
      }
    }
  }

  /** Coding is a strictly increasing bijection between the covered characters and the
      codes 1..Size(rs); decoding is its inverse; every other non-zero character gets
      the code 255, which no covered character has. */
  lemma CodingIsBijective(rs: seq<Range>)
    requires IsAlphabet(rs)
    ensures forall c {:trigger Code(rs, c)} :: Covers(rs, c) ==> 1 <= Code(rs, c) <= Size(rs) && Char(rs, Code(rs, c)) == c
    ensures forall c {:trigger Code(rs, c)} :: c != 0 && !Covers(rs, c) ==> Code(rs, c) == TRIE_CHAR_MAX
    ensures forall t {:trigger Char(rs, t)} :: 1 <= t <= Size(rs) ==> Covers(rs, Char(rs, t)) && Code(rs, Char(rs, t)) == t
    ensures forall t {:trigger Char(rs, t)} :: Size(rs) < t <= TRIE_CHAR_MAX ==> Char(rs, t) == ALPHA_CHAR_ERROR
    ensures forall c, c' {:trigger Code(rs, c), Code(rs, c')} ::
      Covers(rs, c) && Covers(rs, c') && c < c' ==> Code(rs, c) < Code(rs, c')
  {
    SizeIsNat(rs);
    forall c | c != 0
      ensures if Covers(rs, c) then 1 <= Code(rs, c) <= Size(rs) && Char(rs, Code(rs, c)) == c else Code(rs, c) == TRIE_CHAR_MAX
    {
      CodeFromRange(rs, 1, c);
    }
    forall t | 1 <= t <= TRIE_CHAR_MAX
      ensures if t <= Size(rs) then Covers(rs, Char(rs, t)) && Code(rs, Char(rs, t)) == t else Char(rs, t) == ALPHA_CHAR_ERROR
    {
      CharFromRange(rs, 1, t);
    }
    forall c, c' | Covers(rs, c) && Covers(rs, c') && c < c'
      ensures Code(rs, c) < Code(rs, c')
    {
      CodeFromIncreases(rs, 1, c, c');
    }
  }
}
