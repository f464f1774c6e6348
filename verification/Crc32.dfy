/**
  The CRC-32 of the volume header code: the byte-at-a-time loop over the feedback table
  against the bit-at-a-time division of section 8 of RFC 1952, and what that division detects.
 */
module Crc32 {
  import opened CrcTable
  import opened LinearRegister
  import opened Sequences

  function Low(x: bv32): bv8 { (x & 0xFF) as bv8 }

  function Widen(d: bv8): bv32 { d as bv32 }

  function High(x: bv32): bv32 { x >> 8 }

  /** crc32_intermediate, over the table in memory. */
  function Intermediate(table: bv8 -> bv32, crc: bv32, d: bv8): bv32 {
    table(Low(crc ^ Widen(d))) ^ (crc >> 8)
  }

  //// The reference: feed the message one bit at a time, low bit of each byte first.

  function BitValue(b: bool): bv32 { if b then 1 else 0 }

  function Xor(a: bv32, b: bv32): bv32 { a ^ b }

  const DIVISION: Register<bv32> := Register(Shift, Xor, BitValue)

  function ByteBits(d: bv8): (bits: seq<bool>)
    ensures |bits| == 8
  {
    [d & 1 != 0, d & 2 != 0, d & 4 != 0, d & 8 != 0, d & 16 != 0, d & 32 != 0, d & 64 != 0, d & 128 != 0]
  }

  function Bits(m: seq<bv8>): (bits: seq<bool>)
    ensures |bits| == 8 * |m|
  {
    if m == [] then [] else ByteBits(m[0]) + Bits(m[1..])
  }

  /** The register after a message. */
  function After(m: seq<bv8>): bv32 {
    Feed(DIVISION, 0xFFFF_FFFF, Bits(m))
  }

  function Complement(c: bv32): bv32 { c ^ 0xFFFF_FFFF }

  /** The CRC-32 of m by its definition. */
  function Crc(m: seq<bv8>): bv32 {
    Complement(After(m))
  }

  //// The division step is linear and injective, and Unshift undoes it.

  function Unshift(c: bv32): bv32 {
    if c & 0x8000_0000 == 0 then c << 1 else ((c ^ 0xEDB88320) << 1) | 1
  }

  lemma ShiftLinear(a: bv32, b: bv32)
    ensures Shift(a ^ b) == Shift(a) ^ Shift(b)
  {
    assert (a ^ b) & 1 == (a & 1) ^ (b & 1);
    if
    case a & 1 == 0 && b & 1 == 0 =>
    case a & 1 == 1 && b & 1 == 0 =>
    case a & 1 == 0 && b & 1 == 1 =>
    case a & 1 == 1 && b & 1 == 1 =>
  }

  lemma ShiftInjective(a: bv32, b: bv32)
    requires Shift(a) == Shift(b)
    ensures a == b
  {}

  lemma ShiftEven(x: bv32)
    requires x & 0x8000_0000 == 0
    ensures Shift(x << 1) == x
  {}

  lemma PolynomialTop(c: bv32)
    requires c & 0x8000_0000 != 0
    ensures ((((c ^ 0xEDB88320) << 1) | 1) >> 1) ^ 0xEDB88320 == c
  {}

  lemma LowBitSet(x: bv32)
    ensures ((x << 1) | 1) & 1 == 1
  {}

  lemma XorAssociative(a: bv32, b: bv32, c: bv32)
    ensures (a ^ b) ^ c == a ^ (b ^ c)
  {}

  lemma XorCancels(a: bv32, b: bv32, c: bv32)
    requires a ^ b == a ^ c
    ensures b == c
  {}

  lemma ShiftUnshiftOdd(c: bv32)
    requires c & 0x8000_0000 != 0
    ensures Shift(Unshift(c)) == c
  {
    PolynomialTop(c);
    LowBitSet(c ^ 0xEDB88320);
  }

  lemma ShiftUnshift(c: bv32)
    ensures Shift(Unshift(c)) == c
  {
    if c & 0x8000_0000 == 0 { ShiftEven(c); } else { ShiftUnshiftOdd(c); }
  }

  lemma DivisionStep(a: bv32)
    ensures DIVISION.step(a) == Shift(a)
  {}

  lemma DivisionXor(a: bv32, b: bv32)
    ensures DIVISION.xor(a, b) == a ^ b
  {}

  lemma DivisionBit(b: bool)
    ensures DIVISION.bit(b) == BitValue(b)
  {}

  lemma DivisionStepLinear()
    ensures forall a, b :: DIVISION.step(DIVISION.xor(a, b)) == DIVISION.xor(DIVISION.step(a), DIVISION.step(b))
  {
    forall a, b ensures DIVISION.step(DIVISION.xor(a, b)) == DIVISION.xor(DIVISION.step(a), DIVISION.step(b)) {
      DivisionXor(a, b);
      DivisionStep(a ^ b);
      DivisionStep(a);
      DivisionStep(b);
      DivisionXor(Shift(a), Shift(b));
      ShiftLinear(a, b);
    }
  }

  lemma DivisionXorAssociative()
    ensures forall a, b, c :: DIVISION.xor(DIVISION.xor(a, b), c) == DIVISION.xor(a, DIVISION.xor(b, c))
  {
    forall a, b, c ensures DIVISION.xor(DIVISION.xor(a, b), c) == DIVISION.xor(a, DIVISION.xor(b, c)) {
      XorAssociative(a, b, c);
    }
  }

  lemma DivisionXorCommutes()
    ensures forall a, b :: DIVISION.xor(a, b) == DIVISION.xor(b, a)
  {}

  lemma DivisionLinear()
    ensures Linear(DIVISION)
  {
    DivisionStepLinear();
    DivisionXorAssociative();
    DivisionXorCommutes();
  }

  lemma DivisionInjective()
    ensures Injective(DIVISION)
  {
    var r := DIVISION;
    forall a, b | r.step(a) == r.step(b) ensures a == b { ShiftInjective(a, b); }
    forall a, b, c | r.xor(a, b) == r.xor(a, c) ensures b == c { XorCancels(a, b, c); }
  }

  lemma DivisionUndone()
    ensures Undoes(DIVISION, Unshift, 0)
  {
    forall a ensures DIVISION.step(Unshift(a)) == a { ShiftUnshift(a); }
  }

  //// At most 32 bits fit in one register word.

  function Mask(n: nat): bv32 { if n == 0 then 0 else (Mask(n - 1) << 1) | 1 }

  lemma {:induction false} MaskContiguous(n: nat)
    ensures Mask(n) & (Mask(n) + 1) == 0
  {
    if n > 0 {
      MaskContiguous(n - 1);
      NextMask(Mask(n - 1));
    }
  }

  lemma NextMask(m: bv32)
    requires m & (m + 1) == 0
    ensures m & ((m << 1) | 1) == m
    ensures ((m << 1) | 1) & (((m << 1) | 1) + 1) == 0
  {}

  lemma {:induction false} MaskTopClear(n: nat)
    requires n <= 31
    ensures Mask(n) & 0x7FFF_FFFF == Mask(n)
    decreases 31 - n
  {
    if n == 31 {
      assert Mask(11) == 0x7FF;
      assert Mask(22) == 0x3F_FFFF;
    } else {
      MaskTopClear(n + 1);
      MaskContiguous(n);
      NextMask(Mask(n));
    }
  }

  /** The bits as a number, the first one lowest. */
  function Number(bits: seq<bool>): bv32
    decreases |bits|
  {
    if bits == [] then 0 else (Number(bits[1..]) << 1) ^ BitValue(bits[0])
  }

  ghost predicate Within(w: bv32, m: bv32) { w & m == w }

  ghost predicate Grown(m': bv32, m: bv32) { m' == (m << 1) | 1 }

  /** The number w' is the bit b below the number w. */
  ghost predicate Pushed(w': bv32, w: bv32, b: bool) { w' == (w << 1) ^ BitValue(b) }

  function Push(w: bv32, b: bool): bv32 { (w << 1) ^ BitValue(b) }

  lemma NumberUnfold(bits: seq<bool>)
    requires bits != []
    ensures Pushed(Number(bits), Number(bits[1..]), bits[0])
  {}

  lemma MaskUnfold(n: nat)
    requires n > 0
    ensures Grown(Mask(n), Mask(n - 1))
  {}

  lemma PushBits(w: bv32, m: bv32, b: bool, w': bv32, m': bv32)
    requires w & m == w && w' == (w << 1) ^ BitValue(b) && m' == (m << 1) | 1
    ensures w' & m' == w'
  {}

  lemma PushWithin(w: bv32, m: bv32, b: bool, w': bv32, m': bv32)
    requires Within(w, m) && Pushed(w', w, b) && Grown(m', m)
    ensures Within(w', m')
  {
    PushBits(w, m, b, w', m');
  }

  lemma {:induction false} NumberWithinMask(bits: seq<bool>)
    ensures Within(Number(bits), Mask(|bits|))
    decreases |bits|
  {
    if bits != [] {
      hide Within, Pushed, Grown;
      NumberWithinMask(bits[1..]);
      NumberUnfold(bits);
      MaskUnfold(|bits|);
      PushWithin(Number(bits[1..]), Mask(|bits| - 1), bits[0], Number(bits), Mask(|bits|));
    }
  }

  ghost predicate TopClear(w: bv32) { w & 0x8000_0000 == 0 }

  lemma WithinTopClear(w: bv32, m: bv32)
    requires Within(w, m) && m & 0x7FFF_FFFF == m
    ensures TopClear(w)
  {}

  lemma NumberTopClear(bits: seq<bool>)
    requires |bits| <= 31
    ensures TopClear(Number(bits))
  {
    NumberWithinMask(bits);
    MaskTopClear(|bits|);
    WithinTopClear(Number(bits), Mask(|bits|));
  }

  lemma LowBitApart(v: bv32, w: bv32, a: bool, b: bool)
    requires (v << 1) ^ BitValue(a) == (w << 1) ^ BitValue(b)
    ensures a == b && v << 1 == w << 1
  {}

  lemma ShiftedApart(v: bv32, w: bv32)
    requires v & 0x8000_0000 == 0 && w & 0x8000_0000 == 0 && v << 1 == w << 1
    ensures v == w
  {}

  lemma PushedApart(n: bv32, v: bv32, w: bv32, a: bool, b: bool)
    requires Pushed(n, v, a) && Pushed(n, w, b) && TopClear(v) && TopClear(w)
    ensures v == w && a == b
  {
    LowBitApart(v, w, a, b);
    ShiftedApart(v, w);
  }

  lemma NumberHead(code: seq<bool> -> bv32, n: bv32, a: seq<bool>, b: seq<bool>)
    requires 0 < |a| && 0 < |b|
    requires Pushed(n, code(a[1..]), a[0]) && TopClear(code(a[1..]))
    requires Pushed(n, code(b[1..]), b[0]) && TopClear(code(b[1..]))
    ensures a[0] == b[0] && code(a[1..]) == code(b[1..])
  {
    PushedApart(n, code(a[1..]), code(b[1..]), a[0], b[0]);
  }

  lemma NumberDecodes()
    ensures Decodes(Number, 32)
  {
    forall x, y | 0 < |x| == |y| <= 32 && Number(x) == Number(y)
      ensures x[0] == y[0] && Number(x[1..]) == Number(y[1..])
    {
      NumberUnfold(x);
      NumberUnfold(y);
      NumberTopClear(x[1..]);
      NumberTopClear(y[1..]);
      NumberHead(Number, Number(x), x, y);
    }
  }

  lemma DivisionDouble(w: bv32, b: bool)
    requires w & 0x8000_0000 == 0
    ensures DIVISION.xor(Unshift(w), DIVISION.bit(b)) == (w << 1) ^ BitValue(b)
  {
    DivisionBit(b);
    DivisionXor(w << 1, BitValue(b));
  }

  lemma DivisionPush(w': bv32, w: bv32, b: bool)
    requires Pushed(w', w, b) && TopClear(w)
    ensures w' == DIVISION.xor(Unshift(w), DIVISION.bit(b))
  {
    DivisionDouble(w, b);
  }

  lemma NumberPush(bits: seq<bool>)
    requires 0 < |bits| <= 32
    ensures Number(bits) == DIVISION.xor(Unshift(Number(bits[1..])), DIVISION.bit(bits[0]))
  {
    NumberUnfold(bits);
    NumberTopClear(bits[1..]);
    DivisionPush(Number(bits), Number(bits[1..]), bits[0]);
  }

  lemma NumberCodes()
    ensures Codes(DIVISION, Unshift, 0, Number, 32)
  {
    forall x | 0 < |x| <= 32 ensures Number(x) == DIVISION.xor(Unshift(Number(x[1..])), DIVISION.bit(x[0])) {
      NumberPush(x);
    }
  }

  lemma FeedNumber(c: bv32, bits: seq<bool>)
    requires |bits| <= 32
    ensures Feed(DIVISION, c, bits) == Steps(DIVISION, c ^ Number(bits), |bits|)
  {
    DivisionLinear();
    DivisionUndone();
    NumberCodes();
    FeedIsCodedSteps(DIVISION, Unshift, 0, Number, 32, c, bits);
    DivisionXor(c, Number(bits));
  }

  lemma FeedInjectiveInBits(c: bv32, a: seq<bool>, b: seq<bool>)
    requires |a| == |b| <= 32
    requires Feed(DIVISION, c, a) == Feed(DIVISION, c, b)
    ensures a == b
  {
    DivisionLinear();
    DivisionInjective();
    DivisionUndone();
    NumberCodes();
    NumberDecodes();
    FeedBitsInjective(DIVISION, Unshift, 0, Number, 32, c, a, b);
  }

  //// The table step is eight steps of the division.

  lemma EightUps(y: bv32)
    requires y & 0xFF00_0000 == 0
    ensures Ups(Unshift, y, 8) == y << 8
  {}

  lemma HighBits(x: bv32)
    ensures x == Widen(Low(x)) ^ (High(x) << 8) && High(x) & 0xFF00_0000 == 0
  {}

  lemma SplitLowByte(x: bv32)
    ensures x == DIVISION.xor(Widen(Low(x)), Ups(Unshift, High(x), 8))
  {
    HighBits(x);
    EightUps(High(x));
    DivisionXor(Widen(Low(x)), High(x) << 8);
  }

  lemma EightSteps(x: bv32)
    ensures Steps(DIVISION, x, 8) == Shift8(x)
  {}

  lemma EntryIsSteps(table: bv8 -> bv32, d: bv8)
    requires Feedback(table)
    ensures table(d) == Steps(DIVISION, Widen(d), 8)
  {
    EightSteps(Widen(d));
  }

  lemma TableTabulates(table: bv8 -> bv32)
    requires Feedback(table)
    ensures Tabulates(DIVISION, Unshift, Low, Widen, High, table, 8)
  {
    forall x ensures x == DIVISION.xor(Widen(Low(x)), Ups(Unshift, High(x), 8)) { SplitLowByte(x); }
    forall x ensures table(Low(x)) == Steps(DIVISION, Widen(Low(x)), 8) { EntryIsSteps(table, Low(x)); }
  }

  /** Eight bits pushed one behind the other, b7 first. */
  function Packed(b0: bool, b1: bool, b2: bool, b3: bool, b4: bool, b5: bool, b6: bool, b7: bool): bv32 {
    Push(Push(Push(Push(Push(Push(Push(Push(0, b7), b6), b5), b4), b3), b2), b1), b0)
  }

  lemma PackedByte(d: bv8)
    ensures Packed(d & 1 != 0, d & 2 != 0, d & 4 != 0, d & 8 != 0, d & 16 != 0, d & 32 != 0, d & 64 != 0, d & 128 != 0)
         == d as bv32
  {}

  lemma NumberIsPush(bits: seq<bool>)
    requires bits != []
    ensures Number(bits) == Push(Number(bits[1..]), bits[0])
  {}

  lemma NumberTail(bits: seq<bool>, k: nat)
    requires k < |bits|
    ensures Number(bits[k..]) == Push(Number(bits[k + 1..]), bits[k])
  {
    hide Number, Push;
    NumberIsPush(bits[k..]);
    assert bits[k..][1..] == bits[k + 1..];
  }

  lemma NumberOfNothing(bits: seq<bool>)
    requires bits == []
    ensures Number(bits) == 0
  {}

  lemma NumberOfEight(bits: seq<bool>)
    requires |bits| == 8
    ensures Number(bits) == Packed(bits[0], bits[1], bits[2], bits[3], bits[4], bits[5], bits[6], bits[7])
  {
    hide Number, Push;
    NumberOfNothing(bits[8..]);
    NumberTail(bits, 7);
    NumberTail(bits, 6);
    NumberTail(bits, 5);
    NumberTail(bits, 4);
    NumberTail(bits, 3);
    NumberTail(bits, 2);
    NumberTail(bits, 1);
    NumberTail(bits, 0);
    assert bits[0..] == bits;
  }

  lemma NumberOfByte(d: bv8)
    ensures Number(ByteBits(d)) == Widen(d)
  {
    NumberOfEight(ByteBits(d));
    PackedByte(d);
  }

  lemma IntermediateIsLookUp(table: bv8 -> bv32, c: bv32, d: bv8, x: bv32)
    requires x == c ^ Widen(d)
    ensures Intermediate(table, c, d) == DIVISION.xor(table(Low(x)), High(x))
  {
    assert c >> 8 == (c ^ (d as bv32)) >> 8;
  }

  lemma XoredByte(c: bv32, d: bv8)
    ensures DIVISION.xor(c, Number(ByteBits(d))) == c ^ Widen(d)
  {
    NumberOfByte(d);
    DivisionXor(c, Widen(d));
  }

  lemma FeedByte(table: bv8 -> bv32, c: bv32, d: bv8, n: nat)
    requires Tabulates(DIVISION, Unshift, Low, Widen, High, table, n) && n == |ByteBits(d)|
    requires Linear(DIVISION) && Undoes(DIVISION, Unshift, 0) && Codes(DIVISION, Unshift, 0, Number, n)
    ensures var x := DIVISION.xor(c, Number(ByteBits(d)));
            Feed(DIVISION, c, ByteBits(d)) == DIVISION.xor(table(Low(x)), High(x))
  {
    FeedIsLookUp(DIVISION, Unshift, 0, Number, Low, Widen, High, table, n, c, ByteBits(d));
  }

  lemma DivisionTabulated(table: bv8 -> bv32)
    requires Feedback(table)
    ensures Tabulates(DIVISION, Unshift, Low, Widen, High, table, 8)
    ensures Linear(DIVISION) && Undoes(DIVISION, Unshift, 0) && Codes(DIVISION, Unshift, 0, Number, 8)
  {
    TableTabulates(table);
    DivisionLinear();
    DivisionUndone();
    NumberCodes();
  }

  lemma FeedByteIsLookUp(table: bv8 -> bv32, c: bv32, d: bv8)
    requires Feedback(table)
    ensures var x := DIVISION.xor(c, Number(ByteBits(d)));
            Feed(DIVISION, c, ByteBits(d)) == DIVISION.xor(table(Low(x)), High(x))
  {
    DivisionTabulated(table);
    FeedByte(table, c, d, 8);
  }

  lemma IntermediateIsFeed(table: bv8 -> bv32, c: bv32, d: bv8)
    requires Feedback(table)
    ensures Intermediate(table, c, d) == Feed(DIVISION, c, ByteBits(d))
  {
    XoredByte(c, d);
    IntermediateIsLookUp(table, c, d, DIVISION.xor(c, Number(ByteBits(d))));
    FeedByteIsLookUp(table, c, d);
  }

  //// crc32

  lemma BitsStep(m: seq<bv8>)
    requires m != []
    ensures Bits(m) == ByteBits(m[0]) + Bits(m[1..])
  {}

  lemma BitsOfNothing()
    ensures Bits([]) == []
  {}

  lemma {:induction false} BitsAppend(a: seq<bv8>, b: seq<bv8>)
    ensures Bits(a + b) == Bits(a) + Bits(b)
    decreases |a|
  {
    hide Bits, ByteBits;
    BitsOfNothing();
    if a == [] {
      assert a + b == b;
    } else {
      TakeDropAppend(a, b, 1);
      BitsAppend(a[1..], b);
      BitsStep(a);
      BitsStep(a + b);
      Associative(ByteBits(a[0]), Bits(a[1..]), Bits(b));
    }
  }

  lemma FeedNextByte(table: bv8 -> bv32, c: bv32, m: seq<bv8>, p: nat)
    requires Feedback(table) && p < |m|
    ensures Feed(DIVISION, c, Bits(m[..p + 1])) == Intermediate(table, Feed(DIVISION, c, Bits(m[..p])), m[p])
  {
    assert m[..p + 1] == m[..p] + [m[p]];
    BitsAppend(m[..p], [m[p]]);
    assert Bits([m[p]]) == ByteBits(m[p]);
    FeedAppend(DIVISION, c, Bits(m[..p]), ByteBits(m[p]));
    IntermediateIsFeed(table, Feed(DIVISION, c, Bits(m[..p])), m[p]);
  }

  /** The register after the bytes seen so far. */
  ghost predicate Running(crc: bv32, seen: seq<bv8>) {
    crc == After(seen)
  }

  lemma RunningStep(table: bv8 -> bv32, c: bv32, m: seq<bv8>, p: nat)
    requires Feedback(table) && p < |m| && Running(c, m[..p])
    ensures Running(Intermediate(table, c, m[p]), m[..p + 1])
  {
    FeedNextByte(table, 0xFFFF_FFFF, m, p);
  }

  lemma RunningOn(table: bv8 -> bv32, c: bv32, c': bv32, m: seq<bv8>, p: nat)
    requires p < |m| && Running(Intermediate(table, c, m[p]), m[..p + 1])
    requires c' == table(Low(c ^ Widen(m[p]))) ^ (c >> 8)
    ensures Running(c', m[..p + 1])
  {}

  lemma LoopEnd(c: bv32, m: seq<bv8>)
    requires Running(c, m)
    ensures c ^ 0xFFFF_FFFF == Crc(m)
  {}

  /** crc32: the table-driven loop computes the CRC of the definition. */
  method Crc32(table: bv8 -> bv32, buf: seq<bv8>) returns (crc: bv32)
    requires Feedback(table)
    ensures crc == Crc(buf)
  {
    crc := 0xFFFF_FFFF;
    var p := 0;
    while p < |buf|
      invariant p <= |buf|
      invariant Running(crc, buf[..p])
    {
      ghost var before := crc;
      crc := table(Low(crc ^ Widen(buf[p]))) ^ (crc >> 8);
      RunningStep(table, before, buf, p);
      RunningOn(table, before, crc, buf, p);
      p := p + 1;
    }
    assert buf[..p] == buf;
    LoopEnd(crc, buf);
    crc := crc ^ 0xFFFF_FFFF;
  }

  /** crc32 with the program's own table. */
  method CrcOf(buf: seq<bv8>) returns (crc: bv32)
    ensures crc == Crc(buf) && (buf == [] ==> crc == 0)
  {
    hide Entry;
    TableIsFeedback();
    crc := Crc32(Entry, buf);
  }
}
