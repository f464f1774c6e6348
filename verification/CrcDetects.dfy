/**
  What a CRC-32 check promises its user: every error burst of at most 32 bits is seen, a message
  followed by its own CRC always leaves the same residue, and a computation can be resumed.
 */
module CrcDetects {
  import opened CrcTable
  import opened LinearRegister
  import opened Crc32

  //// Resuming

  function Fold(table: bv8 -> bv32, crc: bv32, m: seq<bv8>): bv32
    decreases |m|
  {
    if m == [] then crc else Fold(table, Intermediate(table, crc, m[0]), m[1..])
  }

  lemma {:induction false} FoldIsFeed(table: bv8 -> bv32, crc: bv32, m: seq<bv8>)
    requires Feedback(table)
    ensures Fold(table, crc, m) == Feed(DIVISION, crc, Bits(m))
    decreases |m|
  {
    if m != [] {
      IntermediateIsFeed(table, crc, m[0]);
      FeedAppend(DIVISION, crc, ByteBits(m[0]), Bits(m[1..]));
      FoldIsFeed(table, Intermediate(table, crc, m[0]), m[1..]);
    }
  }

  lemma ComplementTwice(c: bv32)
    ensures Complement(Complement(c)) == c
  {}

  lemma AfterAppend(a: seq<bv8>, b: seq<bv8>)
    ensures After(a + b) == Feed(DIVISION, After(a), Bits(b))
  {
    hide Feed, Bits;
    BitsAppend(a, b);
    FeedAppend(DIVISION, 0xFFFF_FFFF, Bits(a), Bits(b));
  }

  /** The CRC of a whole message from the CRC of its first part. */
  lemma Resume(table: bv8 -> bv32, a: seq<bv8>, b: seq<bv8>)
    requires Feedback(table)
    ensures Crc(a + b) == Complement(Fold(table, Complement(Crc(a)), b))
  {
    hide Feed, Fold, Bits, Feedback, After, Complement;
    ComplementTwice(After(a));
    FoldIsFeed(table, After(a), b);
    AfterAppend(a, b);
  }

  //// Values

  lemma StepsOneToThree()
    ensures Intermediate(Entry, 0xFFFF_FFFF, 0x31) == 0x7C23_1048
    ensures Intermediate(Entry, 0x7C23_1048, 0x32) == 0xB0AC_BB32
    ensures Intermediate(Entry, 0xB0AC_BB32, 0x33) == 0x77B7_9C2D
  {}

  lemma StepsFourToSix()
    ensures Intermediate(Entry, 0x77B7_9C2D, 0x34) == 0x641C_1F5C
    ensures Intermediate(Entry, 0x641C_1F5C, 0x35) == 0x340A_C5E3
    ensures Intermediate(Entry, 0x340A_C5E3, 0x36) == 0xF68D_2C9E
  {}

  lemma StepsSevenToNine()
    ensures Intermediate(Entry, 0xF68D_2C9E, 0x37) == 0xAFFC_9660
    ensures Intermediate(Entry, 0xAFFC_9660, 0x38) == 0x651F_2550
    ensures Intermediate(Entry, 0x651F_2550, 0x39) == 0x340B_C6D9
  {}

  lemma ThreeMore(m: seq<bv8>, a: bv8, b: bv8, c: bv8)
    ensures After(m + [a, b, c]) ==
      Intermediate(Entry, Intermediate(Entry, Intermediate(Entry, After(m), a), b), c)
  {
    hide Entry, Intermediate, Feed, Bits;
    AfterAppend(m, [a, b, c]);
    TableIsFeedback();
    FoldIsFeed(Entry, After(m), [a, b, c]);
    FoldThree(After(m), a, b, c);
  }

  lemma FoldThree(r: bv32, a: bv8, b: bv8, c: bv8)
    ensures Fold(Entry, r, [a, b, c]) == Intermediate(Entry, Intermediate(Entry, Intermediate(Entry, r, a), b), c)
  {
    hide Entry, Intermediate;
    assert [a, b, c][1..] == [b, c] && [b, c][1..] == [c];
    assert Fold(Entry, r, [a, b, c]) == Fold(Entry, Intermediate(Entry, r, a), [b, c]);
    FoldOne(Intermediate(Entry, Intermediate(Entry, r, a), b), [c]);
  }

  lemma AfterNothing()
    ensures After([]) == 0xFFFF_FFFF
  {}

  /** The CRC of nothing. */
  lemma CrcOfNothing()
    ensures Crc([]) == 0
  {}

  /** The check value that the CRC is known by: that of the nine digits. */
  lemma CheckValue()
    ensures Crc([0x31, 0x32, 0x33, 0x34, 0x35, 0x36, 0x37, 0x38, 0x39]) == 0xCBF4_3926
  {
    hide After, Intermediate, Complement;
    var none: seq<bv8>, x: seq<bv8>, y: seq<bv8>, z: seq<bv8> :=
      [], [0x31, 0x32, 0x33], [0x34, 0x35, 0x36], [0x37, 0x38, 0x39];
    AfterNothing();
    StepsOneToThree();
    ThreeMore(none, 0x31, 0x32, 0x33);
    StepsFourToSix();
    ThreeMore(none + x, 0x34, 0x35, 0x36);
    StepsSevenToNine();
    ThreeMore(none + x + y, 0x37, 0x38, 0x39);
    ComplementOfDigits();
    assert none + x + y + z == [0x31, 0x32, 0x33, 0x34, 0x35, 0x36, 0x37, 0x38, 0x39];
  }

  lemma ComplementOfDigits()
    ensures Complement(0x340B_C6D9) == 0xCBF4_3926
  {}

  /** The start value makes leading zeros count: one more of them always changes the CRC. */
  lemma LeadingZeroSeen(m: seq<bv8>)
    ensures Crc([0] + m) != Crc(m)
  {
    hide Feed, Bits, Complement, After, Linear, Injective;
    AfterZero();
    AfterAppend([0], m);
    AfterNothing();
    AfterAppend([], m);
    assert [] + m == m;
    DivisionLinear();
    DivisionInjective();
    if After([0] + m) == After(m) { FeedInjective(DIVISION, After([0]), After([]), Bits(m)); }
    ComplementTwice(After(m));
    ComplementTwice(After([0] + m));
  }

  lemma AfterZero()
    ensures After([0]) == 0x2DFD_1072
  {
    hide After, Entry, Intermediate;
    AfterNothing();
    NextRegister([0]);
    ZeroStep();
  }

  /** The register after a single byte. */
  lemma NextRegister(m: seq<bv8>)
    requires |m| == 1
    ensures After(m) == Intermediate(Entry, After([]), m[0])
  {
    hide Entry, Intermediate, Feed, Bits;
    assert m == [] + m;
    AfterAppend([], m);
    TableIsFeedback();
    FoldIsFeed(Entry, After([]), m);
    FoldOne(After([]), m);
  }

  lemma FoldOne(r: bv32, m: seq<bv8>)
    requires |m| == 1
    ensures Fold(Entry, r, m) == Intermediate(Entry, r, m[0])
  {
    hide Entry, Intermediate;
  }

  lemma ZeroStep()
    ensures Intermediate(Entry, 0xFFFF_FFFF, 0) == 0x2DFD_1072
  {}

  //// Bursts

  ghost predicate AgreeOutside<T>(a: seq<T>, b: seq<T>, lo: nat, hi: nat) {
    |a| == |b| && forall i | 0 <= i < |a| && !(lo <= i < hi) :: a[i] == b[i]
  }

  lemma ByteBitsInjective(a: bv8, b: bv8)
    requires ByteBits(a) == ByteBits(b)
    ensures a == b
  {}

  lemma {:induction false} BitsInjective(a: seq<bv8>, b: seq<bv8>)
    requires |a| == |b| && Bits(a) == Bits(b)
    ensures a == b
    decreases |a|
  {
    if a != [] {
      assert ByteBits(a[0]) == Bits(a)[..8] == Bits(b)[..8] == ByteBits(b[0]);
      assert Bits(a[1..]) == Bits(a)[8..] == Bits(b)[8..] == Bits(b[1..]);
      ByteBitsInjective(a[0], b[0]);
      BitsInjective(a[1..], b[1..]);
    }
  }

  lemma FeedWindowInjective(c: bv32, pre: seq<bool>, v: seq<bool>, w: seq<bool>, post: seq<bool>)
    requires |v| == |w| <= 32
    requires Feed(DIVISION, c, pre + v + post) == Feed(DIVISION, c, pre + w + post)
    ensures v == w
  {
    var p := Feed(DIVISION, c, pre);
    FeedAppend(DIVISION, c, pre + v, post);
    FeedAppend(DIVISION, c, pre + w, post);
    FeedAppend(DIVISION, c, pre, v);
    FeedAppend(DIVISION, c, pre, w);
    DivisionLinear();
    DivisionInjective();
    FeedInjective(DIVISION, Feed(DIVISION, p, v), Feed(DIVISION, p, w), post);
    FeedInjectiveInBits(p, v, w);
  }

  lemma SameRegister(a: seq<bv8>, b: seq<bv8>)
    requires Crc(a) == Crc(b)
    ensures After(a) == After(b)
  {
    hide After, Complement;
    ComplementTwice(After(a));
    ComplementTwice(After(b));
  }

  function Least(a: nat, b: nat): nat { if a <= b then a else b }

  lemma SplitAround<T>(x: seq<T>, y: seq<T>, lo: nat, hi: nat)
    requires AgreeOutside(x, y, lo, hi) && lo <= hi
    ensures var l, h := Least(lo, |x|), Least(hi, |x|);
            x == x[..l] + x[l..h] + x[h..] && y == x[..l] + y[l..h] + x[h..]
  {}

  lemma BurstInjective(c: bv32, x: seq<bool>, y: seq<bool>, lo: nat)
    requires AgreeOutside(x, y, lo, lo + 32)
    requires Feed(DIVISION, c, x) == Feed(DIVISION, c, y)
    ensures x == y
  {
    var l, h := Least(lo, |x|), Least(lo + 32, |x|);
    SplitAround(x, y, lo, lo + 32);
    FeedWindowInjective(c, x[..l], x[l..h], y[l..h], x[h..]);
  }

  /** Two different messages whose bits agree outside some 32 consecutive bits have different CRCs. */
  lemma BurstDetected(a: seq<bv8>, b: seq<bv8>, lo: nat)
    requires a != b && AgreeOutside(Bits(a), Bits(b), lo, lo + 32)
    ensures Crc(a) != Crc(b)
  {
    if Crc(a) == Crc(b) {
      SameRegister(a, b);
      BurstInjective(0xFFFF_FFFF, Bits(a), Bits(b), lo);
      BitsInjective(a, b);
    }
  }

  lemma AgreeAround<T>(p: seq<T>, u: seq<T>, v: seq<T>, q: seq<T>, w: nat)
    requires |u| == |v| <= w
    ensures AgreeOutside(p + u + q, p + v + q, |p|, |p| + w)
  {}

  lemma BitsOfThree(p: seq<bv8>, u: seq<bv8>, q: seq<bv8>)
    ensures Bits(p + u + q) == Bits(p) + Bits(u) + Bits(q)
  {
    BitsAppend(p + u, q);
    BitsAppend(p, u);
  }

  /** In bytes: a change confined to any four consecutive bytes is always seen. */
  lemma FourByteWindowDetected(a: seq<bv8>, b: seq<bv8>, at: nat)
    requires a != b && AgreeOutside(a, b, at, at + 4)
    ensures Crc(a) != Crc(b)
  {
    var l, h := Least(at, |a|), Least(at + 4, |a|);
    SplitAround(a, b, at, at + 4);
    BitsOfThree(a[..l], a[l..h], a[h..]);
    BitsOfThree(a[..l], b[l..h], a[h..]);
    AgreeAround(Bits(a[..l]), Bits(a[l..h]), Bits(b[l..h]), Bits(a[h..]), 32);
    BurstDetected(a, b, 8 * l);
  }

  //// The residue

  function LittleEndian(w: bv32): seq<bv8> {
    [Low(w), Low(w >> 8), Low(w >> 16), Low(w >> 24)]
  }

  function UpBy(v: bv32, n: nat): bv32 { if n == 0 then v else UpBy(v, n - 1) << 1 }

  /** The number n is made of the lower part a and the upper part b. */
  ghost predicate Joined(n: bv32, a: bv32, b: bv32) { n == a ^ b }

  lemma PushJoined(n: bv32, a: bv32, b: bv32, bit: bool, n': bv32, a': bv32, b': bv32)
    requires n == a ^ b && n' == (n << 1) ^ BitValue(bit) && a' == (a << 1) ^ BitValue(bit) && b' == b << 1
    ensures n' == a' ^ b'
  {}

  lemma PushedJoined(n: bv32, a: bv32, b: bv32, bit: bool, n': bv32, a': bv32)
    requires Joined(n, a, b) && Pushed(n', n, bit) && Pushed(a', a, bit)
    ensures Joined(n', a', b << 1)
  {
    PushJoined(n, a, b, bit, n', a', b << 1);
  }

  lemma {:induction false} NumberJoin(x: seq<bool>, y: seq<bool>)
    ensures Joined(Number(x + y), Number(x), UpBy(Number(y), |x|))
    decreases |x|
  {
    if x == [] {
      assert x + y == y;
    } else {
      var z := x + y;
      assert z[0] == x[0] && z[1..] == x[1..] + y;
      NumberJoin(x[1..], y);
      NumberUnfold(z);
      NumberUnfold(x);
      PushedJoined(Number(z[1..]), Number(x[1..]), UpBy(Number(y), |x| - 1), x[0], Number(z), Number(x));
    }
  }

  lemma UpByUnfold(v: bv32, n: nat)
    ensures UpBy(v, n + 1) == UpBy(v, n) << 1
  {}

  lemma UpByEight(v: bv32)
    ensures UpBy(v, 8) == v << 8
  {
    assert UpBy(v, 0) == v;
    UpByUnfold(v, 0); UpByUnfold(v, 1); UpByUnfold(v, 2); UpByUnfold(v, 3);
    UpByUnfold(v, 4); UpByUnfold(v, 5); UpByUnfold(v, 6); UpByUnfold(v, 7);
    EightDoublings(v);
  }

  lemma EightDoublings(v: bv32)
    ensures v << 1 << 1 << 1 << 1 << 1 << 1 << 1 << 1 == v << 8
  {}

  lemma NumberJoinByte(d: bv8, m: seq<bv8>)
    ensures Number(Bits([d] + m)) == Widen(d) ^ (Number(Bits(m)) << 8)
  {
    NumberJoin(ByteBits(d), Bits(m));
    NumberOfByte(d);
    UpByEight(Number(Bits(m)));
    assert ([d] + m)[1..] == m;
  }

  lemma WordOfBytes(w: bv32)
    ensures Widen(Low(w)) ^ ((Widen(Low(w >> 8)) ^
              ((Widen(Low(w >> 16)) ^ ((Widen(Low(w >> 24)) ^ (0 << 8)) << 8)) << 8)) << 8) == w
  {}

  lemma NumberOfWord(w: bv32)
    ensures Number(Bits(LittleEndian(w))) == w
  {
    var d0, d1, d2, d3 := Low(w), Low(w >> 8), Low(w >> 16), Low(w >> 24);
    assert LittleEndian(w) == [d0] + ([d1] + ([d2] + ([d3] + [])));
    NumberJoinByte(d0, [d1] + ([d2] + ([d3] + [])));
    NumberJoinByte(d1, [d2] + ([d3] + []));
    NumberJoinByte(d2, [d3] + []);
    NumberJoinByte(d3, []);
    WordOfBytes(w);
  }

  lemma EightStepsFromOnes()
    ensures Steps(DIVISION, 0xFFFF_FFFF, 8) == 0x2DFD_1072
    ensures Steps(DIVISION, 0x2DFD_1072, 8) == 0xBE26_ED00
    ensures Steps(DIVISION, 0xBE26_ED00, 8) == 0x00BE_26ED
    ensures Steps(DIVISION, 0x00BE_26ED, 8) == 0xDEBB_20E3
  {}

  lemma StepsOfOnes()
    ensures Steps(DIVISION, 0xFFFF_FFFF, 32) == 0xDEBB_20E3
  {
    EightStepsFromOnes();
    StepsAdd(DIVISION, 0xFFFF_FFFF, 8, 24);
    StepsAdd(DIVISION, 0x2DFD_1072, 8, 16);
    StepsAdd(DIVISION, 0xBE26_ED00, 8, 8);
  }

  lemma ComplementXor(s: bv32)
    ensures s ^ Complement(s) == 0xFFFF_FFFF
  {}

  lemma FeedToOnes(s: bv32, bits: seq<bool>)
    requires |bits| <= 32 && Number(bits) == Complement(s)
    ensures Feed(DIVISION, s, bits) == Steps(DIVISION, 0xFFFF_FFFF, |bits|)
  {
    hide Complement, Number;
    FeedNumber(s, bits);
    ComplementXor(s);
  }

  lemma FeedComplement(s: bv32)
    ensures Feed(DIVISION, s, Bits(LittleEndian(Complement(s)))) == 0xDEBB_20E3
  {
    hide Complement, Number, Feed, Bits, LittleEndian;
    FourBytes(Complement(s));
    NumberOfWord(Complement(s));
    FeedToOnes(s, Bits(LittleEndian(Complement(s))));
    StepsOfOnes();
  }

  lemma FourBytes(w: bv32)
    ensures |Bits(LittleEndian(w))| == 32
  {}

  lemma ComplementOfResidue()
    ensures Complement(0xDEBB_20E3) == 0x2144_DF1C
  {}

  /** Appending the CRC of a message, low byte first, always gives the same CRC. */
  lemma Residue(m: seq<bv8>)
    ensures Crc(m + LittleEndian(Crc(m))) == 0x2144_DF1C
  {
    hide After, Complement, Feed, Bits, LittleEndian;
    AfterAppend(m, LittleEndian(Crc(m)));
    FeedComplement(After(m));
    ComplementOfResidue();
  }
}
