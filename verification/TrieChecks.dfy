/** Which files are refused: the exact conditions under which each part of a trie file
    can be read. */
module TrieChecks {
  import opened FileBytes
  import opened FreeList
  import opened TailPool
  import opened TrieFormat
  import opened TrieFile
  import A = AlphaRanges

  // ---- pairs of numbers ----

  lemma ParsesPair(b: seq<Byte>)
    ensures ParsePair(b).Got? <==> 8 <= |b|
    ensures 8 <= |b| ==> var p := ParsePair(b); p.rest == b[8..] && HasWord(b, 0, p.value.0) && HasWord(b, 4, p.value.1)
  {
    hide HasWord, ParseInt32;
    TooShort(b);
    if 4 <= |b| {
      ParsesWord(b);
      TooShort(b[4..]);
      if 8 <= |b| {
        ParsesWord(b[4..]);
        WordFurther(b, 4, 0, ParseInt32(b[4..]).value);
        assert b[4..][4..] == b[8..];
      }
    }
  }

  lemma TooShort(b: seq<Byte>)
    ensures ParseInt32(b).Got? <==> 4 <= |b|
  {
  }

  /** What lies in a part of the file lies further on in the whole. */
  lemma WordFurther(b: seq<Byte>, k: nat, at: nat, v: int)
    requires k <= |b|
    ensures HasWord(b[k..], at, v) <==> HasWord(b, k + at, v)
  {
  }

  lemma PairsFurther(b: seq<Byte>, k: nat, ps: seq<Pair>)
    requires k <= |b|
    ensures PairsLie(b[k..], 0, ps) <==> PairsLie(b, k, ps)
  {
    hide HasWord;
    forall i {:trigger ps[i]} | 0 <= i < |ps|
      ensures HasWord(b[k..], 8 * i, ps[i].0) <==> HasWord(b, k + 8 * i, ps[i].0)
      ensures HasWord(b[k..], 8 * i + 4, ps[i].1) <==> HasWord(b, k + 8 * i + 4, ps[i].1)
    {
      WordFurther(b, k, 8 * i, ps[i].0);
      WordFurther(b, k, 8 * i + 4, ps[i].1);
    }
  }

  function AtLeastZero(n: int): nat {
    if n < 0 then 0 else n
  }

  /** Pairs can be read exactly if the file is long enough; what is read lies there. */
  lemma {:induction false} ParsesPairs(b: seq<Byte>, n: int)
    ensures ParsePairs(b, n).Got? <==> 8 * n <= |b|
    ensures 8 * n <= |b| ==>
      var r := ParsePairs(b, n); |r.value| == AtLeastZero(n) && r.rest == b[8 * AtLeastZero(n)..] && PairsLie(b, 0, r.value)
    decreases n
  {
    hide HasWord, ParsePair, PairsLie;
    if n <= 0 {
      NoPairs(b, 0);
    } else {
      ParsesPair(b);
      if 8 <= |b| {
        ParsesPairs(b[8..], n - 1);
        if 8 * n <= |b| {
          var p, more := ParsePair(b).value, ParsePairs(b[8..], n - 1).value;
          FirstLies(b, 0, [p] + more);
          PairsFurther(b, 8, more);
          assert ([p] + more)[1..] == more && b[8..][8 * (n - 1)..] == b[8 * n..];
        }
      }
    }
  }

  // ---- the parts ----

  /** An alphabet is read exactly if it has its signature and the ranges it announces. */
  lemma RangesParsedIff(b: seq<Byte>)
    ensures ParseRanges(b).Got? <==>
            4 <= |b| && b[..4] == [0xD9, 0xFC, 0xD9, 0xFC] && exists n {:trigger HasWord(b, 4, n)} :: IsInt32(n) && HasWord(b, 4, n) && 8 + 8 * n <= |b|
  {
    hide HasWord, ParseInt32, ParsePairs, Int32Bytes, IsInt32, Ranges;
    TooShort(b);
    if 4 <= |b| {
      SignatureIs(b, ALPHAMAP_SIGNATURE);
      Signatures();
      ParsesWord(b);
      CountIs(b);
      if 8 <= |b| {
        ParsesPairs(b[8..], ParseInt32(b[4..]).value);
      }
    }
  }

  /** A number read is the signature exactly if the bytes are. */
  lemma SignatureIs(b: seq<Byte>, sig: int)
    requires 4 <= |b| && -0x8000_0000 <= sig < 0x1_0000_0000
    ensures Unsigned32(ParseInt32(b).value) == Unsigned32(sig) <==> b[..4] == Int32Bytes(sig)
    ensures IsInt32(sig) ==> (ParseInt32(b).value == sig <==> b[..4] == Int32Bytes(sig))
  {
    HasWordIff(b, 0, sig);
    ParsesWord(b);
    var v := ParseInt32(b).value;
    hide ParseInt32, Int32Bytes;
    assert HasWord(b, 0, sig) <==> v % 0x1_0000_0000 == sig % 0x1_0000_0000;
  }

  /** The number behind the signature. */
  lemma CountIs(b: seq<Byte>)
    requires 4 <= |b|
    ensures ParseInt32(b[4..]).Got? <==> 8 <= |b|
    ensures 8 <= |b| ==>
      var r := ParseInt32(b[4..]);
      && r.rest == b[8..] && IsInt32(r.value) && HasWord(b, 4, r.value)
      && forall n {:trigger HasWord(b, 4, n)} :: IsInt32(n) && HasWord(b, 4, n) ==> n == r.value
    ensures |b| < 8 ==> forall n {:trigger HasWord(b, 4, n)} :: !HasWord(b, 4, n)
  {
    TooShort(b[4..]);
    if 8 <= |b| {
      ParsesWord(b[4..]);
      assert b[4..][4..] == b[8..];
      forall n {:trigger HasWord(b, 4, n)}
        ensures HasWord(b[4..], 0, n) <==> HasWord(b, 4, n)
      {
        WordFurther(b, 4, 0, n);
      }
    }
    hide ParseInt32;
  }

  lemma DaSignature()
    ensures IsInt32(DA_SIGNATURE) && Int32Bytes(DA_SIGNATURE) == [0xDA, 0xFC, 0xDA, 0xFC]
  {
  }

  /** A double array is read exactly if its first cell is the signature and the number of
      cells, and as many are there; the cells read are those that lie there. */
  lemma DaParsedIff(b: seq<Byte>)
    ensures ParseDa(b).Got? <==>
            4 <= |b| && b[..4] == [0xDA, 0xFC, 0xDA, 0xFC]
            && exists n {:trigger HasWord(b, 4, n)} :: IsInt32(n) && HasWord(b, 4, n) && 0 < n && 8 * n <= |b|
    ensures ParseDa(b).Got? ==> CellsLie(b, 0, ParseDa(b).value)
  {
    hide HasWord, ParseInt32, ParsePairs, Int32Bytes, IsInt32, Cells;
    TooShort(b);
    if 4 <= |b| {
      DaSignature();
      SignatureIs(b, DA_SIGNATURE);
      ParsesWord(b);
      CountIs(b);
      if 8 <= |b| {
        var n := ParseInt32(b[4..]).value;
        ParsesPairs(b[8..], n - 1);
        if ParseDa(b).Got? {
          CellsAsPairs(b, n, ParsePairs(b[8..], n - 1).value);
        }
      }
    }
  }

  lemma CellsAsPairs(b: seq<Byte>, n: int, ps: seq<Pair>)
    requires 8 <= |b| && HasWord(b, 0, DA_SIGNATURE) && HasWord(b, 4, n) && PairsLie(b[8..], 0, ps)
    ensures CellsLie(b, 0, [Cell(DA_SIGNATURE, n)] + Cells(ps))
  {
    hide HasWord;
    PairsFurther(b, 8, ps);
    var cells := [Cell(DA_SIGNATURE, n)] + Cells(ps);
    forall i {:trigger cells[i]} | 0 < i < |cells|
      ensures HasWord(b, 8 * i, cells[i].base) && HasWord(b, 8 * i + 4, cells[i].check)
    {
      assert cells[i] == Cell(ps[i - 1].0, ps[i - 1].1);
    }
  }

  /** As many blocks as announced are there, each with the ten bytes in front and the
      characters that its length, which must not be negative, says. */
  predicate BlocksFit(b: seq<Byte>, n: int)
    decreases n
  {
    n <= 0 || (10 <= |b| && b[8] < 128 && var size := 10 + b[8] as int * 0x100 + b[9] as int; size <= |b| && BlocksFit(b[size..], n - 1))
  }

  lemma BlockParsedIff(b: seq<Byte>)
    ensures ParseBlock(b).Got? <==> 10 <= |b| && b[8] < 128 && 10 + b[8] as int * 0x100 + b[9] as int <= |b|
    ensures ParseBlock(b).Got? ==> ParseBlock(b).rest == b[10 + b[8] as int * 0x100 + b[9] as int..]
  {
    hide ParsePair, UpToZero;
    ParsesPair(b);
    if 10 <= |b| {
      var c, n := b[8..], b[8] as int * 0x100 + b[9] as int;
      assert c[0] == b[8] && c[1] == b[9] && c[2..] == b[10..];
      if b[8] < 128 && 10 + n <= |b| {
        assert b[10..][n..] == b[10 + n..];
      }
    }
  }

  lemma {:induction false} BlocksParsedIff(b: seq<Byte>, n: int)
    ensures ParseBlocks(b, n).Got? <==> BlocksFit(b, n)
    decreases n
  {
    hide ParseBlock;
    if n > 0 {
      BlockParsedIff(b);
      if ParseBlock(b).Got? {
        BlocksParsedIff(ParseBlock(b).rest, n - 1);
      }
    }
  }

  /** A tail pool is read exactly if it has its signature and the blocks it announces. */
  lemma TailParsedIff(b: seq<Byte>)
    ensures ParseTail(b).Got? <==>
            12 <= |b| && b[..4] == [0xDF, 0xFC, 0xDF, 0xFC]
            && exists n {:trigger HasWord(b, 8, n)} :: IsInt32(n) && HasWord(b, 8, n) && 0 <= n && BlocksFit(b[12..], n)
  {
    hide HasWord, ParseInt32, ParseBlocks, Int32Bytes, IsInt32, BlocksFit;
    TooShort(b);
    if 4 <= |b| {
      Signatures();
      SignatureIs(b, TAIL_SIGNATURE);
      ParsesWord(b);
      ParsesPair(b[4..]);
      if 12 <= |b| {
        PoolCount(b);
        BlocksParsedIff(b[12..], ParsePair(b[4..]).value.1);
      }
    }
  }

  lemma PoolCount(b: seq<Byte>)
    requires 12 <= |b|
    ensures var p := ParsePair(b[4..]);
            && p.Got? && p.rest == b[12..] && IsInt32(p.value.1) && HasWord(b, 8, p.value.1)
            && forall n {:trigger HasWord(b, 8, n)} :: IsInt32(n) && HasWord(b, 8, n) ==> n == p.value.1
  {
    hide ParseInt32, HasWord;
    ParsesWord(b[4..]);
    assert b[4..][4..] == b[8..] && b[8..][4..] == b[12..];
    ParsesWord(b[8..]);
    forall n {:trigger HasWord(b, 8, n)}
      ensures HasWord(b[8..], 0, n) <==> HasWord(b, 8, n)
    {
      WordFurther(b, 8, 0, n);
    }
    WordFurther(b, 8, 0, ParseInt32(b[8..]).value);
  }
}
