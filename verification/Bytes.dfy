/** Little-endian fields and in-place writes into fixed-size byte buffers. */
module Bytes {
  import opened Base

  function Le2(v: U16): (b: seq<Byte>)
    ensures |b| == 2
  {
    [v % 0x100, v / 0x100]
  }

  function Le4(v: U32): (b: seq<Byte>)
    ensures |b| == 4
  {
    Le2(v % 0x1_0000) + Le2(v / 0x1_0000)
  }

  function Get1(b: seq<Byte>, off: nat): Byte {
    if off < |b| then b[off] else 0
  }

  function Get2(b: seq<Byte>, off: nat): U16 {
    Get1(b, off) + 0x100 * Get1(b, off + 1)
  }

  function Get4(b: seq<Byte>, off: nat): U32 {
    Get2(b, off) + 0x1_0000 * Get2(b, off + 2)
  }

  /** The lowest byte comes first, in what is written and in what is read. */
  lemma LowestFirst(b: seq<Byte>, off: nat, v: U32)
    requires off + 4 <= |b|
    ensures Get2(b, off) == b[off] as int + 0x100 * b[off + 1] as int
    ensures Get4(b, off) == Get2(b, off) as int + 0x1_0000 * b[off + 2] as int + 0x100_0000 * b[off + 3] as int
    ensures Le4(v)[0] == v % 0x100 && Le4(v)[1] == v / 0x100 % 0x100
    ensures Le4(v)[2] == v / 0x1_0000 % 0x100 && Le4(v)[3] == v / 0x100_0000
  {
    assert Le4(v) == Le2(v % 0x1_0000) + Le2(v / 0x1_0000);
  }

  /** The bytes of part stand in b from off on. */
  predicate Holds(b: seq<Byte>, off: nat, part: seq<Byte>) {
    off + |part| <= |b| && b[off..off + |part|] == part
  }

  lemma HoldsPart(b: seq<Byte>, off: nat, x: seq<Byte>, y: seq<Byte>)
    requires Holds(b, off, x + y)
    ensures Holds(b, off, x) && Holds(b, off + |x|, y)
  {
    var s := b[off..off + |x + y|];
    assert s[..|x|] == x && s[|x|..] == y;
    assert b[off..off + |x|] == s[..|x|];
    assert b[off + |x|..off + |x| + |y|] == s[|x|..];
  }

  lemma HoldsJoin(b: seq<Byte>, off: nat, x: seq<Byte>, y: seq<Byte>)
    requires Holds(b, off, x) && Holds(b, off + |x|, y)
    ensures Holds(b, off, x + y)
  {
  }

  lemma Get2Le2(b: seq<Byte>, off: nat, v: U16)
    requires Holds(b, off, Le2(v))
    ensures Get2(b, off) == v
  {
  }

  lemma Get4Le4(b: seq<Byte>, off: nat, v: U32)
    requires Holds(b, off, Le4(v))
    ensures Get4(b, off) == v
  {
  }

  /** memcpy: b with part written over it from off on. */
  function WriteAt(b: seq<Byte>, off: nat, part: seq<Byte>): (r: seq<Byte>)
    requires off + |part| <= |b|
    ensures |r| == |b| && Holds(r, off, part)
    ensures r[..off] == b[..off] && r[off + |part|..] == b[off + |part|..]
  {
    b[..off] + part + b[off + |part|..]
  }

  /** A write elsewhere leaves a field where it is. */
  lemma HoldsElsewhere(b: seq<Byte>, off: nat, part: seq<Byte>, at: nat, w: seq<Byte>)
    requires Holds(b, off, part) && at + |w| <= |b| && (at + |w| <= off || off + |part| <= at)
    ensures Holds(WriteAt(b, at, w), off, part)
  {
  }

  lemma WriteTwice(b: seq<Byte>, off: nat, x: seq<Byte>, y: seq<Byte>)
    requires off + |x| + |y| <= |b|
    ensures WriteAt(WriteAt(b, off, x), off + |x|, y) == WriteAt(b, off, x + y)
  {
  }

  function Zeros(n: nat): (b: seq<Byte>)
    ensures |b| == n && forall k :: 0 <= k < n ==> b[k] == 0
  {
    if n == 0 then [] else [0] + Zeros(n - 1)
  }
}
