/** Looking a key up in the numbers of a trie file, without the names of the nodes: what
    any reader of the format sees. */
module TrieReader {
  import opened FreeList
  import opened CellTree
  import opened TailPool
  import opened TrieContents

  datatype Reading = NotThere | There(data: int)

  /** From the cell `s` with the codes `w` still to be matched, the terminator included: a
      negative BASE names a block of the tail pool, a positive one leads on. */
  function Read(cells: seq<Cell>, blocks: seq<TailBlock>, s: int, w: seq<int>): Reading
    decreases |w|
  {
    if s < 0 || |cells| <= s then NotThere
    else if cells[s].base < 0 then InBlock(blocks, -cells[s].base, w)
    else if w == [] then NotThere
    else
      var next := cells[s].base + w[0];
      if 0 <= next < |cells| && cells[next].check == s then Read(cells, blocks, next, w[1..]) else NotThere
  }

  /** Blocks are numbered from 1; the suffix must be what is left of the key. */
  function InBlock(blocks: seq<TailBlock>, t: int, w: seq<int>): Reading {
    if t < 1 || |blocks| < t || blocks[t - 1].suffix.Null? then NotThere
    else
      var chars := blocks[t - 1].suffix.chars;
      if (if w == [] then chars == [] else chars + [0] == w) then There(blocks[t - 1].data) else NotThere
  }

  /** The codes of a string of characters, whether or not they are in the alphabet. */
  ghost predicate IsCoded(k: Key) {
    forall c {:trigger c in k} :: c in k ==> 1 <= c
  }

  /** Where the reader is on the way of the key `k`. */
  ghost predicate OnTheWay(cells: seq<Cell>, path: map<int, Path>, node: map<Path, int>, s: int, k: Key, i: nat) {
    IsTree(cells, path, node) && Placed(cells, node) && s in path && i <= |k| + 1 && path[s] == (k + [0])[..i]
  }

  lemma AtLeaf(shape: map<Path, int>, blocks: seq<TailBlock>, m: map<Key, int>, q: Path, k: Key, i: nat)
    requires IsTrie(shape, blocks) && Represents(shape, blocks, m) && IsLeaf(shape, q)
    requires IsCoded(k) && i <= |k| + 1 && q == (k + [0])[..i]
    ensures InBlock(blocks, TailAt(shape, q), (k + [0])[i..]) == if k in m then There(m[k]) else NotThere
  {
    hide Represents, KindsOk, BlocksNotShared, IsShape;
    var w := k + [0];
    assert q <= w;
    StoredAtLeaf(shape, blocks, m, k, q);
    LeafIsNotEmpty(shape, q);
    assert OwnsBlock(q, blocks, TailAt(shape, q));
    RestMatches(q, SuffixAt(blocks, TailAt(shape, q)), k, i);
  }

  lemma LeafIsNotEmpty(shape: map<Path, int>, q: Path)
    requires IsShape(shape) && IsLeaf(shape, q)
    ensures q != []
  {
  }

  /** The key of the leaf is `k` exactly if its suffix is what is left of `k`. */
  lemma RestMatches(q: Path, chars: seq<int>, k: Key, i: nat)
    requires IsCoded(k) && IsKey(chars) && 0 < i <= |k| + 1 && q == (k + [0])[..i] && (Last(q) == 0 ==> chars == [])
    ensures KeyOf(q, chars) == k <==> if (k + [0])[i..] == [] then chars == [] else chars + [0] == (k + [0])[i..]
  {
    var w := k + [0];
    assert Last(q) == w[i - 1];
    if i <= |k| {
      assert k[i - 1] in k;
      assert w[i..] == k[i..] + [0] && k == q + k[i..];
      assert chars + [0] == k[i..] + [0] <==> chars == k[i..] by {
        assert (chars + [0])[..|chars|] == chars && (k[i..] + [0])[..|k[i..]|] == k[i..];
      }
      assert q + chars == q + k[i..] <==> chars == k[i..] by {
        assert (q + chars)[|q|..] == chars && (q + k[i..])[|q|..] == k[i..];
      }
    } else {
      assert q == w && Init(q) == k;
    }
  }

  /** In the image of a trie a reader finds exactly the stored keys, with their data. */
  lemma {:induction false} ReadsStored(cells: seq<Cell>, blocks: seq<TailBlock>, path: map<int, Path>, node: map<Path, int>,
                                       m: map<Key, int>, s: int, k: Key, i: nat)
    requires OnTheWay(cells, path, node, s, k, i) && IsCoded(k)
    requires IsTrie(Shape(cells, node), blocks) && Represents(Shape(cells, node), blocks, m)
    ensures Read(cells, blocks, s, (k + [0])[i..]) == if k in m then There(m[k]) else NotThere
    decreases |k| + 1 - i
  {
    hide IsTree, Placed, Represents, IsTrie, Shape, InBlock, IsCoded;
    var w, q, shape := k + [0], path[s], Shape(cells, node);
    ShapeAt(cells, path, node, s);
    if cells[s].base < 0 {
      AtLeaf(shape, blocks, m, q, k, i);
    } else {
      InnerGoesOn(shape, blocks, q, k, i);
      BaseIsPositive(shape, blocks, q, cells[s].base);
      var c := w[i];
      CodeIsNat(k, i);
      ChildAt(cells, path, node, s, c);
      assert w[i..][0] == c && w[i..][1..] == w[i + 1..] && q + [c] == w[..i + 1];
      NodesAreShape(cells, node, q + [c]);
      if q + [c] in node {
        NameAt(cells, path, node, q + [c]);
        ShapeAt(cells, path, node, node[q + [c]]);
        ReadsStored(cells, blocks, path, node, m, node[q + [c]], k, i + 1);
      } else {
        NotStored(shape, blocks, m, k, i);
      }
    }
  }

  lemma NodesAreShape(cells: seq<Cell>, node: map<Path, int>, q: Path)
    ensures q in node <==> q in Shape(cells, node)
  {
  }

  lemma CodeIsNat(k: Key, i: nat)
    requires IsCoded(k) && i <= |k|
    ensures 0 <= (k + [0])[i]
  {
    if i < |k| {
      assert k[i] in k;
    }
  }

  /** A node that is not a leaf is not at the end of the way. */
  lemma InnerGoesOn(shape: map<Path, int>, blocks: seq<TailBlock>, q: Path, k: Key, i: nat)
    requires IsTrie(shape, blocks) && q in shape && 0 <= shape[q] && i <= |k| + 1 && q == (k + [0])[..i]
    ensures i <= |k| && shape[q] == INNER
  {
    assert i == |k| + 1 ==> Last(q) == 0;
  }

  lemma BaseIsPositive(shape: map<Path, int>, blocks: seq<TailBlock>, q: Path, base: int)
    requires IsTrie(shape, blocks) && q in shape && shape[q] == Kind(base) && 0 <= base
    ensures 0 < base
  {
  }

  /** The same from the root. */
  lemma ReadFromRoot(cells: seq<Cell>, blocks: seq<TailBlock>, path: map<int, Path>, node: map<Path, int>, m: map<Key, int>, k: Key)
    requires IsTree(cells, path, node) && Placed(cells, node) && IsCoded(k)
    requires IsTrie(Shape(cells, node), blocks) && Represents(Shape(cells, node), blocks, m)
    ensures Read(cells, blocks, 2, k + [0]) == if k in m then There(m[k]) else NotThere
  {
    hide Placed, Represents, IsTrie, Shape, IsCoded, Read;
    assert [] in node && path[node[[]]] == [];
    assert (k + [0])[..0] == [] && (k + [0])[0..] == k + [0];
    hide IsTree;
    ReadsStored(cells, blocks, path, node, m, 2, k, 0);
  }
}
