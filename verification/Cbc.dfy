/**
  A block cipher used in cipher block chaining mode (section 6.2 of NIST SP 800-38A), over an
  abstract invertible cipher on 16-byte blocks and an abstract key derivation.
 */
module Cbc {
  import opened Bytes
  import opened Sequences

  type Block = b: seq<byte> | |b| == 16 witness seq(16, _ => 0)
  type Key = b: seq<byte> | |b| == 32 witness seq(32, _ => 0)

  datatype Crypto = Crypto(
    encrypt: (Key, Block) -> Block,
    decrypt: (Key, Block) -> Block,
    derive: (Block, seq<byte>) -> Key)

  ghost predicate Invertible(c: Crypto) {
    forall k: Key, b: Block :: c.decrypt(k, c.encrypt(k, b)) == b
  }

  //// Xor of blocks

  /** Exclusive or, place by place. */
  function XorPlaces(a: nat, b: nat, places: nat): (r: nat)
    ensures r < Pow2(places)
    decreases places
  {
    if places == 0 then 0
    else (if a % 2 == b % 2 then 0 else 1) + 2 * XorPlaces(a / 2, b / 2, places - 1)
  }

  /** Each place of the result is set exactly when the two numbers differ there. */
  lemma {:induction false} XorPlacesBit(a: nat, b: nat, places: nat, k: nat)
    requires k < places
    ensures Bit(XorPlaces(a, b, places), k) <==> Bit(a, k) != Bit(b, k)
    decreases places
  {
    var x := XorPlaces(a, b, places);
    assert x % 2 == (if a % 2 == b % 2 then 0 else 1) && x / 2 == XorPlaces(a / 2, b / 2, places - 1);
    if k > 0 { XorPlacesBit(a / 2, b / 2, places - 1, k - 1); }
  }

  lemma {:induction false} XorPlacesTwice(a: nat, b: nat, places: nat)
    requires a < Pow2(places)
    ensures XorPlaces(XorPlaces(a, b, places), b, places) == a
    decreases places
  {
    if places > 0 {
      XorPlacesTwice(a / 2, b / 2, places - 1);
      var x := XorPlaces(a, b, places);
      assert x / 2 == XorPlaces(a / 2, b / 2, places - 1);
    }
  }

  lemma BytePlaces()
    ensures Pow2(8) == 256
  {}

  function Xor(a: byte, b: byte): byte {
    BytePlaces();
    XorPlaces(a, b, 8)
  }

  lemma XorTwice(a: byte, b: byte)
    ensures Xor(Xor(a, b), b) == a
  {
    BytePlaces();
    XorPlacesTwice(a, b, 8);
  }

  function XorBlock(a: Block, b: Block): Block {
    seq(16, i requires 0 <= i < 16 => Xor(a[i], b[i]))
  }

  /** Every bit of every byte of the result is the exclusive or of the two bits there. */
  lemma XorBlockBit(a: Block, b: Block, i: nat, k: nat)
    requires i < 16 && k < 8
    ensures Bit(XorBlock(a, b)[i], k) <==> Bit(a[i], k) != Bit(b[i], k)
  {
    XorPlacesBit(a[i], b[i], 8, k);
  }

  lemma XorBlockTwice(a: Block, b: Block)
    ensures XorBlock(XorBlock(a, b), b) == a
  {
    forall i | 0 <= i < 16 ensures XorBlock(XorBlock(a, b), b)[i] == a[i] { XorTwice(a[i], b[i]); }
  }

  //// The chaining

  function Encrypt(c: Crypto, k: Key, iv: Block, p: seq<byte>): (r: seq<byte>)
    requires |p| % 16 == 0
    ensures |r| == |p|
    decreases |p|
  {
    if p == [] then []
    else
      var y: Block := c.encrypt(k, XorBlock(p[..16], iv));
      y + Encrypt(c, k, y, p[16..])
  }

  function Decrypt(c: Crypto, k: Key, iv: Block, y: seq<byte>): (r: seq<byte>)
    requires |y| % 16 == 0
    ensures |r| == |y|
    decreases |y|
  {
    if y == [] then [] else XorBlock(c.decrypt(k, y[..16]), iv) + Decrypt(c, k, y[..16], y[16..])
  }

  /** Every block is encrypted under exclusive or with the cipher block before it, the first with the vector. */
  lemma {:induction false} CipherBlock(c: Crypto, k: Key, iv: Block, p: seq<byte>, j: nat)
    requires |p| % 16 == 0 && 16 * j < |p|
    ensures var y, at := Encrypt(c, k, iv, p), 16 * j;
            y[at..at + 16] == c.encrypt(k, XorBlock(p[at..at + 16], if j == 0 then iv else y[at - 16..at]))
    decreases j
  {
    hide XorBlock;
    var first: Block := c.encrypt(k, XorBlock(p[..16], iv));
    var y, rest, at := Encrypt(c, k, iv, p), Encrypt(c, k, first, p[16..]), 16 * j;
    assert y == first + rest;
    if j > 0 {
      CipherBlock(c, k, first, p[16..], j - 1);
      assert p[16..][at - 16..at] == p[at..at + 16] && y[at..at + 16] == rest[at - 16..at];
      assert j > 1 ==> y[at - 16..at] == rest[at - 32..at - 16];
    }
  }

  /** Every plain block is the decrypted block under exclusive or with the cipher block before it. */
  lemma {:induction false} PlainBlock(c: Crypto, k: Key, iv: Block, y: seq<byte>, j: nat)
    requires |y| % 16 == 0 && 16 * j < |y|
    ensures var p, at := Decrypt(c, k, iv, y), 16 * j;
            p[at..at + 16] == XorBlock(c.decrypt(k, y[at..at + 16]), if j == 0 then iv else y[at - 16..at])
    decreases j
  {
    hide XorBlock;
    var p, rest, at := Decrypt(c, k, iv, y), Decrypt(c, k, y[..16], y[16..]), 16 * j;
    assert p == XorBlock(c.decrypt(k, y[..16]), iv) + rest;
    if j > 0 {
      PlainBlock(c, k, y[..16], y[16..], j - 1);
      assert y[16..][at - 16..at] == y[at..at + 16] && p[at..at + 16] == rest[at - 16..at];
      assert j > 1 ==> y[16..][at - 32..at - 16] == y[at - 16..at];
    }
  }

  /** The chaining value after some cipher text. */
  function NextIv(iv: Block, y: seq<byte>): Block
    requires |y| % 16 == 0
  {
    if y == [] then iv else y[|y| - 16..]
  }

  lemma NextIvBehind(iv: Block, y: Block, t: seq<byte>)
    requires |t| % 16 == 0
    ensures NextIv(iv, y + t) == NextIv(y, t)
  {}

  lemma {:induction false} EncryptAppend(c: Crypto, k: Key, iv: Block, p: seq<byte>, q: seq<byte>)
    requires |p| % 16 == 0 && |q| % 16 == 0
    ensures var y := Encrypt(c, k, iv, p);
            Encrypt(c, k, iv, p + q) == y + Encrypt(c, k, NextIv(iv, y), q)
    decreases |p|
  {
    if p == [] {
      assert p + q == q;
    } else {
      var y: Block := c.encrypt(k, XorBlock(p[..16], iv));
      var t := Encrypt(c, k, y, p[16..]);
      EncryptAppend(c, k, y, p[16..], q);
      TakeDropAppend(p, q, 16);
      NextIvBehind(iv, y, t);
      Associative(y, t, Encrypt(c, k, NextIv(y, t), q));
    }
  }

  lemma {:induction false} DecryptAppend(c: Crypto, k: Key, iv: Block, y: seq<byte>, z: seq<byte>)
    requires |y| % 16 == 0 && |z| % 16 == 0
    ensures Decrypt(c, k, iv, y + z) == Decrypt(c, k, iv, y) + Decrypt(c, k, NextIv(iv, y), z)
    decreases |y|
  {
    if y == [] {
      assert y + z == z;
    } else {
      var h: Block, t := y[..16], y[16..];
      DecryptAppend(c, k, h, t, z);
      TakeDropAppend(y, z, 16);
      SplitAt(y, 16);
      NextIvBehind(iv, h, t);
      Associative(XorBlock(c.decrypt(k, h), iv), Decrypt(c, k, h, t), Decrypt(c, k, NextIv(h, t), z));
    }
  }

  lemma DecryptTake(c: Crypto, k: Key, iv: Block, y: seq<byte>, at: nat)
    requires |y| % 16 == 0 && at <= |y| && at % 16 == 0
    ensures Decrypt(c, k, iv, y)[..at] == Decrypt(c, k, iv, y[..at])
  {
    hide Decrypt, NextIv;
    SplitAt(y, at);
    DecryptAppend(c, k, iv, y[..at], y[at..]);
  }

  lemma {:induction false} DecryptEncrypt(c: Crypto, k: Key, iv: Block, p: seq<byte>)
    requires Invertible(c) && |p| % 16 == 0
    ensures Decrypt(c, k, iv, Encrypt(c, k, iv, p)) == p
    decreases |p|
  {
    if p != [] {
      var x: Block := XorBlock(p[..16], iv);
      var y: Block := c.encrypt(k, x);
      var r := Encrypt(c, k, iv, p);
      assert r[..16] == y && r[16..] == Encrypt(c, k, y, p[16..]);
      assert c.decrypt(k, y) == x;
      XorBlockTwice(p[..16], iv);
      DecryptEncrypt(c, k, y, p[16..]);
      assert p == p[..16] + p[16..];
    }
  }

  /** Cipher text cut short at a block still decrypts to the start of the plain text, whatever follows. */
  lemma DecryptPrefix(c: Crypto, k: Key, iv: Block, p: seq<byte>, tail: seq<byte>)
    requires Invertible(c) && |p| % 16 == 0 && |tail| % 16 == 0
    ensures Decrypt(c, k, iv, Encrypt(c, k, iv, p) + tail)[..|p|] == p
  {
    DecryptAppend(c, k, iv, Encrypt(c, k, iv, p), tail);
    DecryptEncrypt(c, k, iv, p);
  }

  /** A cipher handle after setkey and setiv: each call goes on where the last one stopped. */
  class CipherHandle {
    const crypto: Crypto
    const key: Key
    var iv: Block

    constructor (crypto: Crypto, key: Key, iv: Block)
      ensures this.crypto == crypto && this.key == key && this.iv == iv
    {
      this.crypto, this.key, this.iv := crypto, key, iv;
    }

    /** gcry_cipher_encrypt in place; refused when the length is not a whole number of blocks. */
    method EncryptInPlace(buf: array<byte>) returns (ok: bool)
      modifies this, buf
      ensures ok == (buf.Length % 16 == 0)
      ensures !ok ==> buf[..] == old(buf[..]) && iv == old(iv)
      ensures ok ==> buf[..] == Encrypt(crypto, key, old(iv), old(buf[..])) && iv == NextIv(old(iv), buf[..])
    {
      ok := buf.Length % 16 == 0;
      if ok {
        var y := Encrypt(crypto, key, iv, buf[..]);
        forall i | 0 <= i < buf.Length { buf[i] := y[i]; }
        assert buf[..] == y;
        iv := NextIv(iv, y);
      }
    }

    /** gcry_cipher_decrypt in place. */
    method DecryptInPlace(buf: array<byte>) returns (ok: bool)
      modifies this, buf
      ensures ok == (buf.Length % 16 == 0)
      ensures !ok ==> buf[..] == old(buf[..]) && iv == old(iv)
      ensures ok ==> buf[..] == Decrypt(crypto, key, old(iv), old(buf[..])) && iv == NextIv(old(iv), old(buf[..]))
    {
      ok := buf.Length % 16 == 0;
      if ok {
        var p := Decrypt(crypto, key, iv, buf[..]);
        iv := NextIv(iv, buf[..]);
        forall i | 0 <= i < buf.Length { buf[i] := p[i]; }
        assert buf[..] == p;
      }
    }
  }
}
