/** Numbers as bytes in a file, most significant byte first. */
module FileBytes {
  type Byte = b: int | 0 <= b < 256

  datatype Parsed<+T> = Bad | Got(value: T, rest: seq<Byte>)

  predicate IsInt32(v: int) { -0x8000_0000 <= v < 0x8000_0000 }

  predicate IsInt16(v: int) { -0x8000 <= v < 0x8000 }

  /** Shifting right floors and masking keeps the low byte, also of negative numbers. */
  function Int32Bytes(v: int): seq<Byte> {
    [v / 0x100_0000 % 256, v / 0x1_0000 % 256, v / 0x100 % 256, v % 256]
  }

  function Int16Bytes(v: int): seq<Byte> {
    [v / 0x100 % 256, v % 256]
  }

  /** The unsigned number reinterpreted as a signed one. */
  function Signed(u: int, half: int): int {
    if u < half then u else u - 2 * half
  }

  function Unsigned32(v: int): int {
    v % 0x1_0000_0000
  }

  function BigEndian32(b0: int, b1: int, b2: int, b3: int): int {
    b0 * 0x100_0000 + b1 * 0x1_0000 + b2 * 0x100 + b3
  }

  function ParseInt32(b: seq<Byte>): Parsed<int> {
    if |b| < 4 then Bad
    else Got(Signed(BigEndian32(b[0], b[1], b[2], b[3]), 0x8000_0000), b[4..])
  }

  function ParseInt16(b: seq<Byte>): Parsed<int> {
    if |b| < 2 then Bad else Got(Signed((b[0] as int) * 0x100 + b[1] as int, 0x8000), b[2..])
  }

  function ParseChars(b: seq<Byte>, n: nat): Parsed<seq<Byte>> {
    if |b| < n then Bad else Got(b[..n], b[n..])
  }

  lemma Nested(v: int)
    ensures v / 0x1_0000 == v / 0x100 / 0x100 && v / 0x100_0000 == v / 0x1_0000 / 0x100
  {
    var l, m := v / 0x100, v / 0x1_0000;
    assert v == l * 0x100 + v % 0x100;
    assert l == l / 0x100 * 0x100 + l % 0x100;
    assert m == m / 0x100 * 0x100 + m % 0x100;
  }

  lemma TopByte(h: int)
    requires -128 <= h < 256
    ensures h % 256 == if h < 0 then h + 256 else h
  {
  }

  lemma FourBytes(v: int)
    requires -0x8000_0000 <= v < 0x1_0000_0000
    ensures BigEndian32(v / 0x100_0000 % 256, v / 0x1_0000 % 256, v / 0x100 % 256, v % 256) == Unsigned32(v)
  {
    var h, m, l := v / 0x100_0000, v / 0x1_0000, v / 0x100;
    Nested(v);
    assert v == l * 0x100 + v % 256;
    assert l == m * 0x100 + l % 256;
    assert m == h * 0x100 + m % 256;
    TopByte(h);
    assert Unsigned32(v) == if v < 0 then v + 0x1_0000_0000 else v;
  }

  /** Writing takes signed and unsigned numbers; reading yields the signed one. */
  lemma Int32RoundTrip(v: int, rest: seq<Byte>)
    requires -0x8000_0000 <= v < 0x1_0000_0000
    ensures ParseInt32(Int32Bytes(v) + rest) == Got(Signed(Unsigned32(v), 0x8000_0000), rest)
    ensures IsInt32(v) ==> Signed(Unsigned32(v), 0x8000_0000) == v
    ensures 0 <= v ==> Unsigned32(Signed(Unsigned32(v), 0x8000_0000)) == v
  {
    hide BigEndian32;
    FourBytes(v);
    assert (Int32Bytes(v) + rest)[4..] == rest;
  }

  lemma Int16RoundTrip(v: int, rest: seq<Byte>)
    requires IsInt16(v)
    ensures ParseInt16(Int16Bytes(v) + rest) == Got(v, rest)
  {
    var b := Int16Bytes(v) + rest;
    assert b[2..] == rest;
    var h := v / 0x100;
    assert v == h * 0x100 + v % 256;
    assert -128 <= h < 128 && h % 256 == if h < 0 then h + 256 else h;
  }

  /** The most significant byte comes first: smaller numbers have lexicographically smaller
      bytes. */
  lemma Int32Order(v: int, w: int)
    requires 0 <= v < w < 0x1_0000_0000
    ensures exists i {:trigger Int32Bytes(v)[i]} :: 0 <= i < 4 && Int32Bytes(v)[..i] == Int32Bytes(w)[..i] && Int32Bytes(v)[i] < Int32Bytes(w)[i]
  {
    BytesMean(v);
    BytesMean(w);
    hide Int32Bytes, BigEndian32;
    FirstDifference(Int32Bytes(v), Int32Bytes(w));
  }

  lemma BytesMean(v: int)
    requires 0 <= v < 0x1_0000_0000
    ensures var b := Int32Bytes(v); |b| == 4 && BigEndian32(b[0], b[1], b[2], b[3]) == v
  {
    FourBytes(v);
    hide BigEndian32;
  }

  lemma FirstDifference(a: seq<Byte>, b: seq<Byte>)
    requires |a| == |b| == 4 && BigEndian32(a[0], a[1], a[2], a[3]) < BigEndian32(b[0], b[1], b[2], b[3])
    ensures exists i {:trigger a[i]} :: 0 <= i < 4 && a[..i] == b[..i] && a[i] < b[i]
  {
    var i := if a[0] != b[0] then 0 else if a[1] != b[1] then 1 else if a[2] != b[2] then 2 else 3;
    assert a[..i] == b[..i] && a[i] < b[i];
  }

  lemma Int16Order(v: int, w: int)
    requires 0 <= v < w < 0x1_0000
    ensures exists i {:trigger Int16Bytes(v)[i]} :: 0 <= i < 2 && Int16Bytes(v)[..i] == Int16Bytes(w)[..i] && Int16Bytes(v)[i] < Int16Bytes(w)[i]
  {
    var i := if v / 0x100 < w / 0x100 then 0 else 1;
    assert v == v / 0x100 * 0x100 + v % 0x100 && w == w / 0x100 * 0x100 + w % 0x100;
    assert Int16Bytes(v)[..i] == Int16Bytes(w)[..i] && Int16Bytes(v)[i] < Int16Bytes(w)[i];
  }

  /** The number `v`, or `v` plus 2^32 if it is negative, lies at `at` with the most
      significant byte first. */
  ghost predicate HasWord(b: seq<Byte>, at: int, v: int) {
    && 0 <= at && at + 4 <= |b|
    && b[at] as int * 0x100_0000 + b[at + 1] as int * 0x1_0000 + b[at + 2] as int * 0x100 + b[at + 3] as int == v % 0x1_0000_0000
  }

  /** That is so exactly if the bytes there are those that are written. */
  lemma HasWordIff(b: seq<Byte>, at: nat, v: int)
    requires at + 4 <= |b| && -0x8000_0000 <= v < 0x1_0000_0000
    ensures HasWord(b, at, v) <==> b[at..at + 4] == Int32Bytes(v)
  {
    FourBytes(v);
    var x := Int32Bytes(v);
    hide Int32Bytes;
    var c := b[at..at + 4];
    assert c[0] == b[at] && c[1] == b[at + 1] && c[2] == b[at + 2] && c[3] == b[at + 3];
    assert c == x <==> c[0] == x[0] && c[1] == x[1] && c[2] == x[2] && c[3] == x[3];
  }

  /** Reading yields the only signed number that lies there. */
  lemma ParsesWord(b: seq<Byte>)
    requires 4 <= |b|
    ensures var r := ParseInt32(b); r.Got? && IsInt32(r.value) && HasWord(b, 0, r.value) && r.rest == b[4..]
    ensures forall u {:trigger HasWord(b, 0, u)} :: IsInt32(u) && HasWord(b, 0, u) ==> u == ParseInt32(b).value
  {
    var x := BigEndian32(b[0], b[1], b[2], b[3]);
    assert 0 <= x < 0x1_0000_0000;
    SameWord(Signed(x, 0x8000_0000), x);
    forall u {:trigger HasWord(b, 0, u)} | IsInt32(u) && HasWord(b, 0, u)
      ensures u == ParseInt32(b).value
    {
      SameWord(u, x);
    }
  }

  /** A signed number and the unsigned one in whose bytes it lies. */
  lemma SameWord(u: int, x: int)
    requires IsInt32(u) && 0 <= x < 0x1_0000_0000
    ensures u % 0x1_0000_0000 == x <==> u == Signed(x, 0x8000_0000)
  {
    assert u % 0x1_0000_0000 == if u < 0 then u + 0x1_0000_0000 else u;
  }

  /** An open file: what it holds and where the next read starts. */
  class File {
    var bytes: seq<Byte>
    var pos: nat

    ghost predicate Valid()
      reads this
    {
      pos <= |bytes|
    }

    /** What is still to be read. */
    ghost function Rest(): seq<Byte>
      reads this
      requires Valid()
    {
      bytes[pos..]
    }

    constructor ()
      ensures Valid() && bytes == [] && pos == 0
    {
      bytes, pos := [], 0;
    }

    method WriteInt32(v: int)
      modifies this`bytes
      ensures bytes == old(bytes) + Int32Bytes(v)
    {
      bytes := bytes + [v / 0x100_0000 % 256, v / 0x1_0000 % 256, v / 0x100 % 256, v % 256];
    }

    method WriteInt16(v: int)
      modifies this`bytes
      ensures bytes == old(bytes) + Int16Bytes(v)
    {
      bytes := bytes + [v / 0x100 % 256, v % 256];
    }

    method WriteChars(chars: seq<Byte>)
      modifies this`bytes
      ensures bytes == old(bytes) + chars
    {
      bytes := bytes + chars;
    }

    method ReadInt32() returns (r: Parsed<int>)
      requires Valid()
      modifies this`pos
      ensures Valid() && r == ParseInt32(old(Rest()))
      ensures r.Got? ==> Rest() == r.rest
    {
      if |bytes| - pos < 4 {
        pos := |bytes|;
        return Bad;
      }
      var v := BigEndian32(bytes[pos], bytes[pos + 1], bytes[pos + 2], bytes[pos + 3]);
      r := Got(Signed(v, 0x8000_0000), bytes[pos + 4..]);
      assert bytes[pos..][4..] == bytes[pos + 4..];
      pos := pos + 4;
    }

    method ReadInt16() returns (r: Parsed<int>)
      requires Valid()
      modifies this`pos
      ensures Valid() && r == ParseInt16(old(Rest()))
      ensures r.Got? ==> Rest() == r.rest
    {
      if |bytes| - pos < 2 {
        pos := |bytes|;
        return Bad;
      }
      r := Got(Signed((bytes[pos] as int) * 0x100 + bytes[pos + 1] as int, 0x8000), bytes[pos + 2..]);
      assert bytes[pos..][2..] == bytes[pos + 2..];
      pos := pos + 2;
    }

    method ReadChars(n: nat) returns (r: Parsed<seq<Byte>>)
      requires Valid()
      modifies this`pos
      ensures Valid() && r == ParseChars(old(Rest()), n)
      ensures r.Got? ==> Rest() == r.rest
    {
      if |bytes| - pos < n {
        pos := |bytes|;
        return Bad;
      }
      r := Got(bytes[pos..pos + n], bytes[pos + n..]);
      assert bytes[pos..][..n] == bytes[pos..pos + n] && bytes[pos..][n..] == bytes[pos + n..];
      pos := pos + n;
    }
  }
}
