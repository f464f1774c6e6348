/**
  A register over any type that is stepped by a linear, injective map and fed one bit at a time.
  The laws are those of a shift register over GF(2); nothing here depends on its width.
 */
module LinearRegister {

  datatype Register<!T> = Register(step: T -> T, xor: (T, T) -> T, bit: bool -> T)

  ghost predicate Linear<T(!new)>(r: Register<T>) {
    && (forall a, b :: r.step(r.xor(a, b)) == r.xor(r.step(a), r.step(b)))
    && (forall a, b, c :: r.xor(r.xor(a, b), c) == r.xor(a, r.xor(b, c)))
    && (forall a, b :: r.xor(a, b) == r.xor(b, a))
  }

  ghost predicate Injective<T(!new)>(r: Register<T>) {
    && (forall a, b :: r.step(a) == r.step(b) ==> a == b)
    && (forall a, b, c :: r.xor(a, b) == r.xor(a, c) ==> b == c)
  }

  ghost predicate Undoes<T(!new)>(r: Register<T>, up: T -> T, zero: T) {
    && (forall a :: r.step(up(a)) == a)
    && (forall a :: r.xor(a, zero) == a)
  }

  function Steps<T>(r: Register<T>, c: T, n: nat): T
    decreases n
  {
    if n == 0 then c else Steps(r, r.step(c), n - 1)
  }

  /** Feed the bits in order: xor each in, then step. */
  function Feed<T>(r: Register<T>, c: T, bits: seq<bool>): T
    decreases |bits|
  {
    if bits == [] then c else Feed(r, r.step(r.xor(c, r.bit(bits[0]))), bits[1..])
  }

  lemma {:induction false} StepsLinear<T(!new)>(r: Register<T>, a: T, b: T, n: nat)
    requires Linear(r)
    ensures Steps(r, r.xor(a, b), n) == r.xor(Steps(r, a, n), Steps(r, b, n))
    decreases n
  {
    if n > 0 {
      StepsLinear(r, r.step(a), r.step(b), n - 1);
    }
  }

  lemma {:induction false} StepsAdd<T>(r: Register<T>, c: T, m: nat, n: nat)
    ensures Steps(r, c, m + n) == Steps(r, Steps(r, c, m), n)
    decreases m
  {
    if m > 0 {
      StepsAdd(r, r.step(c), m - 1, n);
    }
  }

  lemma {:induction false} StepsInjective<T(!new)>(r: Register<T>, a: T, b: T, n: nat)
    requires Injective(r)
    requires Steps(r, a, n) == Steps(r, b, n)
    ensures a == b
    decreases n
  {
    if n > 0 {
      StepsInjective(r, r.step(a), r.step(b), n - 1);
    }
  }

  lemma {:induction false} FeedInjective<T(!new)>(r: Register<T>, a: T, b: T, bits: seq<bool>)
    requires Linear(r) && Injective(r)
    requires Feed(r, a, bits) == Feed(r, b, bits)
    ensures a == b
    decreases |bits|
  {
    if bits != [] {
      var v := r.bit(bits[0]);
      FeedInjective(r, r.step(r.xor(a, v)), r.step(r.xor(b, v)), bits[1..]);
      assert r.xor(v, a) == r.xor(v, b);
    }
  }

  lemma {:induction false} FeedAppend<T>(r: Register<T>, c: T, a: seq<bool>, b: seq<bool>)
    ensures Feed(r, c, a + b) == Feed(r, Feed(r, c, a), b)
    decreases |a|
  {
    if a == [] {
      assert a + b == b;
    } else {
      FeedAppend(r, r.step(r.xor(c, r.bit(a[0]))), a[1..], b);
      assert (a + b)[1..] == a[1..] + b;
    }
  }

  /** The bits as one register value, each behind the next; `up` undoes a step. */
  function Word<T>(r: Register<T>, up: T -> T, zero: T, bits: seq<bool>): T
    decreases |bits|
  {
    if bits == [] then zero else r.xor(up(Word(r, up, zero, bits[1..])), r.bit(bits[0]))
  }

  /** A step takes a pushed word down by one place again. */
  lemma StepOfPushed<T(!new)>(r: Register<T>, up: T -> T, zero: T, c: T, b: T, w: T)
    requires Linear(r) && Undoes(r, up, zero)
    ensures r.step(r.xor(c, r.xor(up(w), b))) == r.xor(r.step(r.xor(c, b)), w)
  {
    assert r.xor(up(w), b) == r.xor(b, up(w));
    assert r.xor(c, r.xor(b, up(w))) == r.xor(r.xor(c, b), up(w));
    assert r.step(r.xor(r.xor(c, b), up(w))) == r.xor(r.step(r.xor(c, b)), r.step(up(w)));
    assert r.step(up(w)) == w;
  }

  /** Feeding bits is one xor of their word followed by as many steps. */
  lemma {:induction false} FeedIsSteps<T(!new)>(r: Register<T>, up: T -> T, zero: T, c: T, bits: seq<bool>)
    requires Linear(r) && Undoes(r, up, zero)
    ensures Feed(r, c, bits) == Steps(r, r.xor(c, Word(r, up, zero, bits)), |bits|)
    decreases |bits|
  {
    hide Linear;
    if bits != [] {
      var b, w := r.bit(bits[0]), Word(r, up, zero, bits[1..]);
      StepOfPushed(r, up, zero, c, b, w);
      FeedIsSteps(r, up, zero, r.step(r.xor(c, b)), bits[1..]);
    }
  }

  /** A code of bit runs, up to `most` bits, that is built from the front by `up` and `bit`. */
  ghost predicate Codes<T(!new)>(r: Register<T>, up: T -> T, zero: T, code: seq<bool> -> T, most: nat) {
    && code([]) == zero
    && (forall x | 0 < |x| <= most :: code(x) == r.xor(up(code(x[1..])), r.bit(x[0])))
  }

  /** ... and that can be taken apart again from the front. */
  ghost predicate Decodes<T(!new)>(code: seq<bool> -> T, most: nat) {
    forall x, y | 0 < |x| == |y| <= most && code(x) == code(y) :: x[0] == y[0] && code(x[1..]) == code(y[1..])
  }

  lemma {:induction false} CodeInjective<T(!new)>(code: seq<bool> -> T, most: nat, a: seq<bool>, b: seq<bool>)
    requires Decodes(code, most)
    requires |a| == |b| <= most && code(a) == code(b)
    ensures a == b
    decreases |a|
  {
    if a != [] {
      CodeInjective(code, most, a[1..], b[1..]);
      assert a == [a[0]] + a[1..] && b == [b[0]] + b[1..];
    }
  }

  lemma {:induction false} WordIsCode<T(!new)>(
    r: Register<T>, up: T -> T, zero: T, code: seq<bool> -> T, most: nat, bits: seq<bool>)
    requires Codes(r, up, zero, code, most) && |bits| <= most
    ensures Word(r, up, zero, bits) == code(bits)
    decreases |bits|
  {
    if bits != [] {
      WordIsCode(r, up, zero, code, most, bits[1..]);
    }
  }

  /** Feeding at most `most` bits is one xor of their code followed by as many steps. */
  lemma FeedIsCodedSteps<T(!new)>(
    r: Register<T>, up: T -> T, zero: T, code: seq<bool> -> T, most: nat, c: T, bits: seq<bool>)
    requires Linear(r) && Undoes(r, up, zero) && Codes(r, up, zero, code, most) && |bits| <= most
    ensures Feed(r, c, bits) == Steps(r, r.xor(c, code(bits)), |bits|)
  {
    WordIsCode(r, up, zero, code, most, bits);
    FeedIsSteps(r, up, zero, c, bits);
  }

  /** Different runs of at most `most` bits leave a register in different states. */
  lemma FeedBitsInjective<T(!new)>(
    r: Register<T>, up: T -> T, zero: T, code: seq<bool> -> T, most: nat, c: T, a: seq<bool>, b: seq<bool>)
    requires Linear(r) && Injective(r) && Undoes(r, up, zero)
    requires Codes(r, up, zero, code, most) && Decodes(code, most)
    requires |a| == |b| <= most && Feed(r, c, a) == Feed(r, c, b)
    ensures a == b
  {
    FeedIsCodedSteps(r, up, zero, code, most, c, a);
    FeedIsCodedSteps(r, up, zero, code, most, c, b);
    StepsInjective(r, r.xor(c, code(a)), r.xor(c, code(b)), |a|);
    CodeInjective(code, most, a, b);
  }

  function Ups<T>(up: T -> T, c: T, n: nat): T {
    if n == 0 then c else up(Ups(up, c, n - 1))
  }

  lemma {:induction false} StepsUps<T(!new)>(r: Register<T>, up: T -> T, zero: T, c: T, n: nat)
    requires Undoes(r, up, zero)
    ensures Steps(r, Ups(up, c, n), n) == c
  {
    if n > 0 {
      StepsUps(r, up, zero, c, n - 1);
    }
  }

  /** Every value is its low part plus its high part n places up, and `entry` holds the low parts stepped n times. */
  ghost predicate Tabulates<T(!new), U>(
    r: Register<T>, up: T -> T, low: T -> U, widen: U -> T, high: T -> T, entry: U -> T, n: nat)
  {
    && (forall x :: x == r.xor(widen(low(x)), Ups(up, high(x), n)))
    && (forall x :: entry(low(x)) == Steps(r, widen(low(x)), n))
  }

  /** One look-up does the work of n steps. */
  lemma LookUpIsSteps<T(!new), U>(
    r: Register<T>, up: T -> T, zero: T, low: T -> U, widen: U -> T, high: T -> T, entry: U -> T, n: nat, x: T)
    requires Linear(r) && Undoes(r, up, zero) && Tabulates(r, up, low, widen, high, entry, n)
    ensures Steps(r, x, n) == r.xor(entry(low(x)), high(x))
  {
    StepsLinear(r, widen(low(x)), Ups(up, high(x), n), n);
    StepsUps(r, up, zero, high(x), n);
  }

  /** Feeding n bits is one look-up. */
  lemma FeedIsLookUp<T(!new), U>(
    r: Register<T>, up: T -> T, zero: T, code: seq<bool> -> T,
    low: T -> U, widen: U -> T, high: T -> T, entry: U -> T, n: nat, c: T, bits: seq<bool>)
    requires Linear(r) && Undoes(r, up, zero) && Codes(r, up, zero, code, n)
    requires Tabulates(r, up, low, widen, high, entry, n) && |bits| == n
    ensures var x := r.xor(c, code(bits)); Feed(r, c, bits) == r.xor(entry(low(x)), high(x))
  {
    FeedIsCodedSteps(r, up, zero, code, n, c, bits);
    LookUpIsSteps(r, up, zero, low, widen, high, entry, n, r.xor(c, code(bits)));
  }
}
