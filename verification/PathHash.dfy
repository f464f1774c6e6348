/**
  The 32-bit hash of a path: what every round and the final mix do to the 32-bit state, and which paths
  can never share a hash.
 */
module PathHash {
  import opened Bytes

  //// Characters as bytes

  function FromBits(b7: bool, b6: bool, b5: bool, b4: bool, b3: bool, b2: bool, b1: bool, b0: bool): bv8 {
    (if b7 then 0x80 else 0) | (if b6 then 0x40 else 0) | (if b5 then 0x20 else 0) | (if b4 then 0x10 else 0)
    | (if b3 then 0x08 else 0) | (if b2 then 0x04 else 0) | (if b1 then 0x02 else 0) | (if b0 then 0x01 else 0)
  }

  function OctetOf(n: nat): bv8 {
    FromBits(Bit(n, 7), Bit(n, 6), Bit(n, 5), Bit(n, 4), Bit(n, 3), Bit(n, 2), Bit(n, 1), Bit(n, 0))
  }

  /** QString::toLatin1 of one character; what Latin-1 cannot hold becomes a question mark. */
  function Octet(c: char): bv8 {
    if c as int < 256 then OctetOf(c as int) else 0x3F
  }

  function Worth(bit: bool): int { if bit then 1 else 0 }

  /** The number with these bits. */
  function Weigh(w7: int, w6: int, w5: int, w4: int, w3: int, w2: int, w1: int, w0: int): int {
    0x80 * w7 + 0x40 * w6 + 0x20 * w5 + 0x10 * w4 + 8 * w3 + 4 * w2 + 2 * w1 + w0
  }

  function Sum8(b7: bool, b6: bool, b5: bool, b4: bool, b3: bool, b2: bool, b1: bool, b0: bool): int {
    Weigh(Worth(b7), Worth(b6), Worth(b5), Worth(b4), Worth(b3), Worth(b2), Worth(b1), Worth(b0))
  }

  lemma BitsWorth(b7: bool, b6: bool, b5: bool, b4: bool, b3: bool, b2: bool, b1: bool, b0: bool)
    ensures FromBits(b7, b6, b5, b4, b3, b2, b1, b0) as int == Sum8(b7, b6, b5, b4, b3, b2, b1, b0)
  {}

  function Half(n: nat): (h: nat)
    ensures n == 2 * h + Worth(Bit(n, 0))
  {
    n / 2
  }

  lemma BitHalf(n: nat, k: nat)
    ensures Bit(n, k + 1) == Bit(Half(n), k)
  {}

  /** n without its low four bits, and those four. */
  lemma LowFour(n: nat) returns (h: nat)
    ensures n == 16 * h + 8 * Worth(Bit(n, 3)) + 4 * Worth(Bit(n, 2)) + 2 * Worth(Bit(n, 1)) + Worth(Bit(n, 0))
    ensures forall k: nat {:trigger Bit(h, k)} :: Bit(n, k + 4) == Bit(h, k)
  {
    hide Bit, Worth, Half;
    var a := Half(n);
    var b := Half(a);
    var c := Half(b);
    h := Half(c);
    BitHalf(n, 0); BitHalf(n, 1); BitHalf(n, 2);
    BitHalf(a, 0); BitHalf(a, 1);
    BitHalf(b, 0);
    forall k: nat ensures Bit(n, k + 4) == Bit(h, k) {
      BitHalf(n, k + 3); BitHalf(a, k + 2); BitHalf(b, k + 1); BitHalf(c, k);
    }
  }

  lemma TwoNibbles(n: int, h: int, z: int, w7: int, w6: int, w5: int, w4: int, w3: int, w2: int, w1: int, w0: int)
    requires n == 16 * h + 8 * w3 + 4 * w2 + 2 * w1 + w0 && h == 16 * z + 8 * w7 + 4 * w6 + 2 * w5 + w4
    requires 0 <= h < 16 && 0 <= z && w7 >= 0 && w6 >= 0 && w5 >= 0 && w4 >= 0
    ensures n == Weigh(w7, w6, w5, w4, w3, w2, w1, w0)
  {}

  lemma BitsAddUp(n: nat)
    requires n < 256
    ensures n == Sum8(Bit(n, 7), Bit(n, 6), Bit(n, 5), Bit(n, 4), Bit(n, 3), Bit(n, 2), Bit(n, 1), Bit(n, 0))
  {
    hide Bit, Weigh;
    var h := LowFour(n);
    var z := LowFour(h);
    assert Bit(n, 4) == Bit(h, 0) && Bit(n, 5) == Bit(h, 1) && Bit(n, 6) == Bit(h, 2) && Bit(n, 7) == Bit(h, 3);
    TwoNibbles(
      n, h, z, Worth(Bit(n, 7)), Worth(Bit(n, 6)), Worth(Bit(n, 5)), Worth(Bit(n, 4)),
      Worth(Bit(n, 3)), Worth(Bit(n, 2)), Worth(Bit(n, 1)), Worth(Bit(n, 0)));
  }

  lemma OctetOfValue(n: nat)
    requires n < 256
    ensures OctetOf(n) as int == n
  {
    hide FromBits, Bit, Sum8;
    BitsWorth(Bit(n, 7), Bit(n, 6), Bit(n, 5), Bit(n, 4), Bit(n, 3), Bit(n, 2), Bit(n, 1), Bit(n, 0));
    BitsAddUp(n);
  }

  /** A Latin-1 character becomes the byte of its own number, any other a question mark. */
  lemma OctetValue(c: char)
    ensures Octet(c) as int == if c as int < 256 then c as int else '?' as int
  {
    hide OctetOf;
    if c as int < 256 { OctetOfValue(c as int); }
  }

  lemma OctetInjective(c: char, d: char)
    requires c as int < 256 && d as int < 256 && c != d
    ensures Octet(c) != Octet(d)
  {
    hide Octet;
    OctetValue(c);
    OctetValue(d);
  }

  lemma OctetIs(c: char, b: bv8)
    requires c as int == b as int
    ensures Octet(c) == b
  {
    hide Octet;
    OctetValue(c);
    SameNumber(Octet(c), b);
  }

  lemma SameNumber(x: bv8, y: bv8)
    requires x as int == y as int
    ensures x == y
  {}

  /** A signed char converted to unsigned int. */
  function Extend(b: bv8): bv32 {
    if b < 0x80 then b as bv32 else 0xFFFF_FF00 | (b as bv32)
  }

  /** The byte as a signed number, modulo 2^32. */
  lemma ExtendValue(b: bv8)
    ensures Extend(b) + (if b < 0x80 then 0 else 0x100) == b as bv32
  {}

  lemma ExtendInjective(a: bv8, b: bv8)
    requires a != b
    ensures Extend(a) != Extend(b)
  {}

  //// The mixing steps

  function Sum(hash: bv32, c: bv32): bv32 { hash + c }
  function Add3(x: bv32): bv32 { x + (x << 3) }
  function Add10(x: bv32): bv32 { x + (x << 10) }
  function Add15(x: bv32): bv32 { x + (x << 15) }
  function Fold6(x: bv32): bv32 { x ^ (x >> 6) }
  function Fold11(x: bv32): bv32 { x ^ (x >> 11) }

  /** One turn of the loop. */
  function Round(hash: bv32, c: bv32): bv32 {
    Fold6(Add10(Sum(hash, c)))
  }

  function Finish(hash: bv32): bv32 {
    Add15(Fold11(Add3(hash)))
  }

  //// Every mixing step is a bijection of the 32-bit states: adding a shifted copy is multiplying by an odd
  //// number, and folding a shifted copy in is undone by folding in all its repetitions.

  function Less(y: bv32, c: bv32): bv32 { y - c }

  lemma LessBase(h: bv32, c: bv32)
    ensures Less(h + c, c) == h && Less(h + c, h) == c
  {}

  lemma SumBase(y: bv32, c: bv32)
    ensures Sum(y - c, c) == y
  {}

  lemma SumUndone(h: bv32, c: bv32)
    ensures Less(Sum(h, c), c) == h && Less(Sum(h, c), h) == c
  {
    hide Less;
    LessBase(h, c);
  }

  lemma SumReaches(y: bv32, c: bv32)
    ensures Sum(Less(y, c), c) == y
  {
    hide Sum;
    SumBase(y, c);
  }

  function Times9(x: bv32): bv32 { x * 9 }
  function Unadd3(y: bv32): bv32 { y * 0x38E3_8E39 }

  lemma Add3Base(x: bv32)
    ensures Add3(x) == x * 9
  {}

  lemma Add3IsProduct(x: bv32)
    ensures Add3(x) == Times9(x)
  {
    hide Add3;
    Add3Base(x);
  }

  lemma Unadd3Base(x: bv32)
    ensures Unadd3(x * 9) == x
  {}

  lemma Times9Base(y: bv32)
    ensures Times9(y * 0x38E3_8E39) == y
  {}

  lemma Times9Undone(x: bv32)
    ensures Unadd3(Times9(x)) == x
  {
    hide Unadd3;
    Unadd3Base(x);
  }

  lemma Times9Reaches(y: bv32)
    ensures Times9(Unadd3(y)) == y
  {
    hide Times9;
    Times9Base(y);
  }

  lemma Add3Undone(x: bv32)
    ensures Unadd3(Add3(x)) == x && Add3(Unadd3(x)) == x
  {
    hide Add3, Unadd3, Times9;
    Add3IsProduct(x);
    Add3IsProduct(Unadd3(x));
    Times9Undone(x);
    Times9Reaches(x);
  }

  function Times1025(x: bv32): bv32 { x * 1025 }
  function Unadd10(y: bv32): bv32 { y * 0xC00F_FC01 }

  lemma Add10Base(x: bv32)
    ensures Add10(x) == x * 1025
  {}

  lemma Add10IsProduct(x: bv32)
    ensures Add10(x) == Times1025(x)
  {
    hide Add10;
    Add10Base(x);
  }

  lemma Unadd10Base(x: bv32)
    ensures Unadd10(x * 1025) == x
  {}

  lemma Times1025Base(y: bv32)
    ensures Times1025(y * 0xC00F_FC01) == y
  {}

  lemma Times1025Undone(x: bv32)
    ensures Unadd10(Times1025(x)) == x
  {
    hide Unadd10;
    Unadd10Base(x);
  }

  lemma Times1025Reaches(y: bv32)
    ensures Times1025(Unadd10(y)) == y
  {
    hide Times1025;
    Times1025Base(y);
  }

  lemma Add10Undone(x: bv32)
    ensures Unadd10(Add10(x)) == x && Add10(Unadd10(x)) == x
  {
    hide Add10, Unadd10, Times1025;
    Add10IsProduct(x);
    Add10IsProduct(Unadd10(x));
    Times1025Undone(x);
    Times1025Reaches(x);
  }

  function Times32769(x: bv32): bv32 { x * 32769 }
  function Unadd15(y: bv32): bv32 { y * 0x3FFF_8001 }

  lemma Add15Base(x: bv32)
    ensures Add15(x) == x * 32769
  {}

  lemma Add15IsProduct(x: bv32)
    ensures Add15(x) == Times32769(x)
  {
    hide Add15;
    Add15Base(x);
  }

  lemma Unadd15Base(x: bv32)
    ensures Unadd15(x * 32769) == x
  {}

  lemma Times32769Base(y: bv32)
    ensures Times32769(y * 0x3FFF_8001) == y
  {}

  lemma Times32769Undone(x: bv32)
    ensures Unadd15(Times32769(x)) == x
  {
    hide Unadd15;
    Unadd15Base(x);
  }

  lemma Times32769Reaches(y: bv32)
    ensures Times32769(Unadd15(y)) == y
  {
    hide Times32769;
    Times32769Base(y);
  }

  lemma Add15Undone(x: bv32)
    ensures Unadd15(Add15(x)) == x && Add15(Unadd15(x)) == x
  {
    hide Add15, Unadd15, Times32769;
    Add15IsProduct(x);
    Add15IsProduct(Unadd15(x));
    Times32769Undone(x);
    Times32769Reaches(x);
  }

  function Unfold6(y: bv32): bv32 { y ^ (y >> 6) ^ (y >> 12) ^ (y >> 18) ^ (y >> 24) ^ (y >> 30) }

  lemma Unfold6Base(x: bv32)
    ensures Unfold6(x ^ (x >> 6)) == x
  {}

  lemma Fold6Undone(x: bv32)
    ensures Unfold6(Fold6(x)) == x
  {
    hide Unfold6;
    Unfold6Base(x);
  }

  lemma Fold6Base(y: bv32)
    ensures Fold6(y ^ (y >> 6) ^ (y >> 12) ^ (y >> 18) ^ (y >> 24) ^ (y >> 30)) == y
  {}

  lemma Fold6Reaches(y: bv32)
    ensures Fold6(Unfold6(y)) == y
  {
    hide Fold6;
    Fold6Base(y);
  }

  function Unfold11(y: bv32): bv32 { y ^ (y >> 11) ^ (y >> 22) }

  lemma Unfold11Base(x: bv32)
    ensures Unfold11(x ^ (x >> 11)) == x
  {}

  lemma Fold11Undone(x: bv32)
    ensures Unfold11(Fold11(x)) == x
  {
    hide Unfold11;
    Unfold11Base(x);
  }

  lemma Fold11Base(y: bv32)
    ensures Fold11(y ^ (y >> 11) ^ (y >> 22)) == y
  {}

  lemma Fold11Reaches(y: bv32)
    ensures Fold11(Unfold11(y)) == y
  {
    hide Fold11;
    Fold11Base(y);
  }

  function Unround(y: bv32, c: bv32): bv32 {
    Less(Unadd10(Unfold6(y)), c)
  }

  /** The byte that a turn of the loop has taken in. */
  function Taken(y: bv32, hash: bv32): bv32 {
    Less(Unadd10(Unfold6(y)), hash)
  }

  /** A turn of the loop is a bijection of the states for each byte, and of the bytes for each state. */
  lemma RoundBijective(h: bv32, c: bv32)
    ensures Unround(Round(h, c), c) == h && Round(Unround(h, c), c) == h
    ensures Taken(Round(h, c), h) == c
  {
    hide Sum, Less, Add10, Unadd10, Fold6, Unfold6;
    var x, y := Sum(h, c), Unadd10(Unfold6(h));
    SumUndone(h, c);
    Add10Undone(x);
    Fold6Undone(Add10(x));
    SumReaches(y, c);
    Add10Undone(Unfold6(h));
    Fold6Reaches(h);
  }

  function Unfinish(y: bv32): bv32 {
    Unadd3(Unfold11(Unadd15(y)))
  }

  lemma FinishBijective(h: bv32)
    ensures Unfinish(Finish(h)) == h && Finish(Unfinish(h)) == h
  {
    hide Add3, Unadd3, Fold11, Unfold11, Add15, Unadd15;
    Add3Undone(h);
    Fold11Undone(Add3(h));
    Add15Undone(Fold11(Add3(h)));
    Add15Undone(h);
    Fold11Reaches(Unadd15(h));
    Add3Undone(Unfold11(Unadd15(h)));
  }

  //// Hashing a path

  function Rounds(hash: bv32, path: string): bv32
    decreases |path|
  {
    if path == [] then hash else Round(Rounds(hash, path[..|path| - 1]), Extend(Octet(path[|path| - 1])))
  }

  function Hash(path: string): bv32 {
    Finish(Rounds(0, path))
  }

  /** utility::hashPath, before it is printed. */
  method HashPath(path: string) returns (hash: bv32)
    ensures hash == Hash(path)
  {
    hide Extend, Octet, Sum, Add3, Add10, Add15, Fold6, Fold11;
    hash := 0;
    for i := 0 to |path|
      invariant hash == Rounds(0, path[..i])
    {
      assert path[..i + 1][..i] == path[..i];
      hash := Sum(hash, Extend(Octet(path[i])));
      hash := Add10(hash);
      hash := Fold6(hash);
    }
    assert path[..|path|] == path;
    hash := Add3(hash);
    hash := Fold11(hash);
    hash := Add15(hash);
  }

  /** The paths agree everywhere but at the place i. */
  ghost predicate DifferAt(p: string, q: string, i: nat) {
    && |p| == |q| && i < |p| && p[i] != q[i]
    && forall j | 0 <= j < |p| && j != i :: p[j] == q[j]
  }

  lemma RoundAgrees(h: bv32, k: bv32, c: bv32, d: bv32)
    ensures c == d ==> (Round(h, c) == Round(k, d) <==> h == k)
    ensures h == k ==> (Round(h, c) == Round(k, d) <==> c == d)
  {
    hide Round, Unround, Taken;
    RoundBijective(h, c);
    RoundBijective(k, d);
  }

  lemma ExtendAgrees(a: bv8, b: bv8)
    ensures Extend(a) == Extend(b) <==> a == b
  {
    hide Extend;
    if a != b { ExtendInjective(a, b); }
  }

  lemma {:induction false} RoundsAgree(p: string, q: string, i: nat)
    requires DifferAt(p, q, i)
    ensures Rounds(0, p) == Rounds(0, q) <==> Octet(p[i]) == Octet(q[i])
    decreases |p|
  {
    hide Round, Extend, Octet;
    var n := |p| - 1;
    var a, b := Octet(p[n]), Octet(q[n]);
    RoundAgrees(Rounds(0, p[..n]), Rounds(0, q[..n]), Extend(a), Extend(b));
    if i == n {
      assert p[..n] == q[..n];
      ExtendAgrees(a, b);
    } else {
      RoundsAgree(p[..n], q[..n], i);
    }
  }

  /** Two paths of one length that differ in exactly one character hash alike exactly when the two characters
      become the same byte. */
  lemma HashOfNeighbours(p: string, q: string, i: nat)
    requires DifferAt(p, q, i)
    ensures Hash(p) == Hash(q) <==> Octet(p[i]) == Octet(q[i])
  {
    hide Rounds, Finish, Unfinish, Octet;
    RoundsAgree(p, q, i);
    FinishBijective(Rounds(0, p));
    FinishBijective(Rounds(0, q));
  }

  /** In Latin-1 that never happens: two paths that differ in one byte never hash alike. */
  lemma OneByteChangesHash(p: string, q: string, i: nat)
    requires DifferAt(p, q, i) && p[i] as int < 256 && q[i] as int < 256
    ensures Hash(p) != Hash(q)
  {
    hide Hash, Octet;
    HashOfNeighbours(p, q, i);
    OctetInjective(p[i], q[i]);
  }

  /** Different characters that become the same byte: one at least lies outside Latin-1, and the byte is that
      of the question mark. */
  lemma SharedOctet(c: char, d: char)
    requires c != d
    ensures Octet(c) == Octet(d) <==>
      (c as int >= 256 || c == '?') && (d as int >= 256 || d == '?')
  {
    hide OctetOf;
    QuestionMark();
    if c as int < 256 && d as int < 256 { OctetInjective(c, d); }
    if c as int < 256 && c != '?' { OctetInjective(c, '?'); }
    if d as int < 256 && d != '?' { OctetInjective(d, '?'); }
  }

  lemma QuestionMark()
    ensures Octet('?') == 0x3F
  {
    OctetIs('?', 0x3F);
  }

  //// Values

  /** A byte of ASCII enters a round as its own number. */
  lemma NextRound(path: string, k: nat, b: bv8)
    requires k < |path| && path[k] as int == b as int && b < 0x80
    ensures Rounds(0, path[..k + 1]) == Round(Rounds(0, path[..k]), b as bv32)
  {
    hide Round, Octet;
    OctetIs(path[k], b);
    assert path[..k + 1][..k] == path[..k];
  }

  lemma NoRounds()
    ensures Rounds(0, "") == 0
  {}

  lemma HashOfNothing()
    ensures Hash("") == 0
  {}

  lemma RoundsOfA()
    ensures Round(0x0000_0000, 0x61) == 0x0001_8270
  {}

  lemma FinishOfA()
    ensures Finish(0x0001_8270) == 0xCA2E_9442
  {}

  /** The published value of the function for this text. */
  lemma HashOfA()
    ensures Hash("a") == 0xCA2E_9442
  {
    hide Round, Rounds, Finish, Octet;
    NoRounds();
    var path := "a";
    RoundsOfA();
    FinishOfA();
    assert path[..0] == "" && path[..1] == path;
    NextRound(path, 0, 0x61);
  }

  lemma RoundsOfDevice()
    ensures Round(0x0000_0000, 0x2F) == 0x0000_BEDF
    ensures Round(0x0000_BEDF, 0x64) == 0x02F6_3C6E
    ensures Round(0x02F6_3C6E, 0x65) == 0xD886_2EF0
    ensures Round(0xD886_2EF0, 0x76) == 0xF286_C87B
    ensures Round(0xF286_C87B, 0x2F) == 0x0D9F_D568
    ensures Round(0x0D9F_D568, 0x73) == 0x8EC4_9CDC
    ensures Round(0x8EC4_9CDC, 0x64) == 0xA3BD_7B35
    ensures Round(0xA3BD_7B35, 0x61) == 0x9BCD_7CD8
    ensures Round(0x9BCD_7CD8, 0x31) == 0xD286_A78D
  {}

  lemma FinishOfDevice()
    ensures Finish(0xD286_A78D) == 0x00FB_B489
  {}

  /** The hash in the mapper name of a partition. */
  lemma HashOfDevice()
    ensures Hash("/dev/sda1") == 0x00FB_B489
  {
    hide Round, Rounds, Finish, Octet;
    NoRounds();
    var path := "/dev/sda1";
    RoundsOfDevice();
    FinishOfDevice();
    assert path[..0] == "" && path[..9] == path;
    NextRound(path, 0, 0x2F); NextRound(path, 1, 0x64); NextRound(path, 2, 0x65);
    NextRound(path, 3, 0x76); NextRound(path, 4, 0x2F); NextRound(path, 5, 0x73);
    NextRound(path, 6, 0x64); NextRound(path, 7, 0x61); NextRound(path, 8, 0x31);
  }
}
