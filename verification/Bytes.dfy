/**
  Bytes, the little-endian integers that the wallet stores, and files as byte strings.
 */
module Bytes {

  type byte = x: int | 0 <= x < 256

  function Pow2(n: nat): nat {
    if n == 0 then 1 else 2 * Pow2(n - 1)
  }

  function Pow256(n: nat): nat {
    if n == 0 then 1 else 256 * Pow256(n - 1)
  }

  /** The bit worth the k-th power of two. */
  function Bit(n: nat, k: nat): bool {
    if k == 0 then n % 2 == 1 else Bit(n / 2, k - 1)
  }

  /** The low `width` bytes of n, least significant first: what memcpy of an integer stores. */
  function Le(n: nat, width: nat): (b: seq<byte>)
    ensures |b| == width
    decreases width
  {
    if width == 0 then [] else [n % 256] + Le(n / 256, width - 1)
  }

  function FromLe(b: seq<byte>): (n: nat)
    ensures n < Pow256(|b|)
  {
    if b == [] then 0 else b[0] + 256 * FromLe(b[1..])
  }

  lemma {:induction false} FromLeLe(n: nat, width: nat)
    requires n < Pow256(width)
    ensures FromLe(Le(n, width)) == n
    decreases width
  {
    if width > 0 {
      FromLeLe(n / 256, width - 1);
      assert Le(n, width)[1..] == Le(n / 256, width - 1);
    }
  }

  lemma {:induction false} LeFromLe(b: seq<byte>)
    ensures Le(FromLe(b), |b|) == b
  {
    if b != [] {
      var n, m := FromLe(b), FromLe(b[1..]);
      assert n % 256 == b[0] && n / 256 == m;
      LeFromLe(b[1..]);
      assert Le(n, |b|) == [b[0]] + Le(m, |b| - 1);
    }
  }

  const U32: nat := 0x1_0000_0000
  const U64: nat := 0x1_0000_0000_0000_0000

  lemma Widths()
    ensures Pow256(2) == 0x1_0000 && Pow256(4) == U32 && Pow256(8) == U64
  {
    assert Pow256(1) == 256;
    assert Pow256(3) == 0x100_0000;
    assert Pow256(5) == 0x100_0000_0000;
    assert Pow256(6) == 0x1_0000_0000_0000;
    assert Pow256(7) == 0x100_0000_0000_0000;
  }

  /** The integer stored in `width` bytes at an offset. */
  function ReadLe(b: seq<byte>, at: nat, width: nat): nat
    requires at + width <= |b|
    decreases width
  {
    if width == 0 then 0 else b[at] + 256 * ReadLe(b, at + 1, width - 1)
  }

  lemma {:induction false} ReadLeIsFromLe(b: seq<byte>, at: nat, width: nat)
    requires at + width <= |b|
    ensures ReadLe(b, at, width) == FromLe(b[at..at + width])
    decreases width
  {
    if width > 0 {
      ReadLeIsFromLe(b, at + 1, width - 1);
      assert b[at..at + width][1..] == b[at + 1..at + 1 + (width - 1)];
    }
  }

  /** The number that four bytes stand for, low byte first. */
  function Quad(b0: nat, b1: nat, b2: nat, b3: nat): nat {
    b0 + 0x100 * b1 + 0x1_0000 * b2 + 0x100_0000 * b3
  }

  /** What the bytes are worth in the widths that the wallet uses. */
  lemma WeightsOfBytes(b: seq<byte>, at: nat)
    ensures at + 2 <= |b| ==> ReadLe(b, at, 2) == Quad(b[at], b[at + 1], 0, 0)
    ensures at + 4 <= |b| ==> ReadLe(b, at, 4) == Quad(b[at], b[at + 1], b[at + 2], b[at + 3])
    ensures at + 8 <= |b| ==> ReadLe(b, at, 8) == ReadLe(b, at, 4) + U32 * ReadLe(b, at + 4, 4)
  {}

  /** Writing `data` over the start of a file that is not truncated first. */
  function Overlay(file: seq<byte>, data: seq<byte>): (r: seq<byte>)
    ensures |r| == if |file| <= |data| then |data| else |file|
    ensures r[..|data|] == data
    ensures |data| <= |file| ==> r[|data|..] == file[|data|..]
  {
    if |file| <= |data| then data else data + file[|data|..]
  }

  /** Writing `data` behind `done` over what is left of a file is writing both over the file. */
  lemma OverlayMore(file: seq<byte>, done: seq<byte>, data: seq<byte>)
    ensures var f := Overlay(file, done);
            f[..|done|] + Overlay(f[|done|..], data) == Overlay(file, done + data)
  {}
}
