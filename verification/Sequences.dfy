/**
  Facts about slices and concatenations that the proofs use by name.
 */
module Sequences {

  lemma SliceOfSlice<T>(s: seq<T>, i: nat, j: nat, a: nat, b: nat)
    requires i <= j <= |s| && a <= b && i + b <= j
    ensures s[i..j][a..b] == s[i + a..i + b]
  {
    var x, y := s[i..j][a..b], s[i + a..i + b];
    assert |x| == |y|;
    assert forall n | 0 <= n < b - a :: x[n] == y[n];
  }

  lemma TakeDropAppend<T>(a: seq<T>, b: seq<T>, n: nat)
    requires n <= |a|
    ensures (a + b)[..n] == a[..n] && (a + b)[n..] == a[n..] + b
  {}

  lemma Associative<T>(x: seq<T>, y: seq<T>, z: seq<T>)
    ensures x + (y + z) == (x + y) + z
  {}

  lemma SplitAt<T>(s: seq<T>, n: nat)
    requires n <= |s|
    ensures s[..n] + s[n..] == s
  {}

  lemma FiveInOrder<T>(a: seq<T>, b: seq<T>, c: seq<T>, d: seq<T>, e: seq<T>)
    ensures a + b + c + d + e == a + (b + c + d + e)
  {}

  /** The place behind the last separator before n; the start when there is none. */
  function BehindLast<T(==)>(s: seq<T>, separator: T, n: nat): (i: nat)
    requires n <= |s|
    ensures i <= n && forall j | i <= j < n :: s[j] != separator
    ensures i > 0 ==> s[i - 1] == separator
  {
    if n == 0 || s[n - 1] == separator then n else BehindLast(s, separator, n - 1)
  }

  /** What follows the last separator: everything when there is none. */
  function LastPart<T(==)>(s: seq<T>, separator: T): (part: seq<T>)
    ensures separator !in part && |part| <= |s|
    ensures forall x | x in part :: x in s
  {
    s[BehindLast(s, separator, |s|)..]
  }

  lemma LastPartIs<T>(front: seq<T>, separator: T, part: seq<T>)
    requires separator !in part
    ensures LastPart(front + [separator] + part, separator) == part && LastPart(part, separator) == part
  {
    var s := front + [separator] + part;
    assert s[|front|] == separator && s[|front| + 1..] == part;
    assert forall k | 0 <= k < |part| :: s[|front| + 1 + k] == part[k] && part[k] in part;
  }
}
