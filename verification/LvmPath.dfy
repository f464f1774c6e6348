/**
  The device path of a logical volume, decoded from the name under which the device mapper knows it:
  there, a dash joins the names of the volume group and the volume, and their own dashes are doubled.
 */
module LvmPath {

  //// The decoder

  /** A dash between two characters that are none, the second of them at i. */
  predicate Single(s: string, i: nat) {
    2 <= i < |s| && s[i - 2] != '-' && s[i - 1] == '-' && s[i] != '-'
  }

  /** Each run of dashes shortened to one. */
  function Squeezed(s: string): string {
    if |s| <= 1 then s
    else if s[0] == '-' && s[1] == '-' then Squeezed(s[1..])
    else [s[0]] + Squeezed(s[1..])
  }

  predicate NoDouble(s: string) {
    forall i | 0 <= i < |s| - 1 :: !(s[i] == '-' && s[i + 1] == '-')
  }

  /** dev is decoded to volume: at its first single dash from the third character on, if it has one. */
  ghost predicate Decoded(dev: string, volume: string) {
    || (volume == dev && forall i: nat | 3 <= i :: !Single(dev, i))
    || (exists i: nat :: 3 <= i && Single(dev, i) && (forall j: nat | 3 <= j < i :: !Single(dev, j))
                         && volume == Squeezed(dev[i - 1 := '/']))
  }

  /** replace( "--","-" ): from left to right, matches that do not overlap. */
  function Halved(s: string): string {
    if "--" <= s then "-" + Halved(s[2..]) else if s == "" then "" else [s[0]] + Halved(s[1..])
  }

  predicate ContainsDouble(s: string) {
    exists i | 0 <= i < |s| - 1 :: s[i] == '-' && s[i + 1] == '-'
  }

  /** _convert_lvm_path */
  method ConvertLvmPath(dev: string) returns (volume: string)
    ensures Decoded(dev, volume)
  {
    volume := dev;
    var e := new char[|dev|](i requires 0 <= i < |dev| => dev[i]);
    assert e[..] == dev;
    var it := 3;
    while it < e.Length
      invariant 3 <= it && e[..] == dev && volume == dev
      invariant forall j: nat | 3 <= j < it :: !Single(dev, j)
    {
      if e[it - 2] != '-' && e[it - 1] == '-' && e[it] != '-' {
        assert Single(dev, it);
        e[it - 1] := '/';
        volume := e[..];
        assert volume == dev[it - 1 := '/'];
        volume := Collapse(volume);
        return;
      }
      it := it + 1;
    }
  }

  /** The loop that replaces until no double dash is left. */
  method Collapse(s: string) returns (volume: string)
    ensures volume == Squeezed(s) && NoDouble(volume)
  {
    volume := s;
    while ContainsDouble(volume)
      invariant Squeezed(volume) == Squeezed(s)
      decreases |volume|
    {
      HalvedSqueezed(volume);
      HalvedShorter(volume);
      volume := Halved(volume);
    }
    SqueezedWhole(volume);
  }

  //// Halving and squeezing

  lemma SqueezedDash(u: string)
    ensures Squeezed("-" + u) == if u == "" then "-" else if u[0] == '-' then Squeezed(u) else "-" + Squeezed(u)
  {
    assert ("-" + u)[1..] == u;
  }

  lemma SqueezedPlain(c: char, u: string)
    requires c != '-'
    ensures Squeezed([c] + u) == [c] + Squeezed(u)
  {
    assert ([c] + u)[1..] == u;
    if u == "" { assert [c] + u == [c]; }
  }

  lemma HalvedFirst(s: string)
    ensures s == "" ==> Halved(s) == ""
    ensures s != "" ==> Halved(s) != "" && Halved(s)[0] == s[0]
  {}

  lemma {:induction false} HalvedSqueezed(s: string)
    ensures Squeezed(Halved(s)) == Squeezed(s)
    decreases |s|
  {
    hide Squeezed;
    if "--" <= s {
      var t := s[2..];
      HalvedSqueezed(t);
      HalvedFirst(t);
      assert s == "-" + ("-" + t);
      SqueezedDash("-" + t);
      SqueezedDash(t);
      SqueezedDash(Halved(t));
    } else if s != "" {
      var t := s[1..];
      HalvedSqueezed(t);
      HalvedFirst(t);
      assert s == [s[0]] + t;
      if s[0] == '-' {
        SqueezedDash(t);
        SqueezedDash(Halved(t));
      } else {
        SqueezedPlain(s[0], t);
        SqueezedPlain(s[0], Halved(t));
      }
    }
  }

  lemma {:induction false} HalvedNotLonger(s: string)
    ensures |Halved(s)| <= |s|
    decreases |s|
  {
    if "--" <= s { HalvedNotLonger(s[2..]); } else if s != "" { HalvedNotLonger(s[1..]); }
  }

  lemma {:induction false} HalvedShorter(s: string)
    requires ContainsDouble(s)
    ensures |Halved(s)| < |s|
    decreases |s|
  {
    if "--" <= s {
      HalvedNotLonger(s[2..]);
    } else {
      assert s[..2] == [s[0], s[1]];
      var i :| 0 <= i < |s| - 1 && s[i] == '-' && s[i + 1] == '-';
      assert s[1..][i - 1] == '-' && s[1..][i] == '-';
      HalvedShorter(s[1..]);
    }
  }

  /** Squeezing changes nothing exactly when there is nothing to squeeze. */
  lemma {:induction false} SqueezedWhole(s: string)
    ensures |Squeezed(s)| <= |s|
    ensures Squeezed(s) == s <==> NoDouble(s)
    decreases |s|
  {
    if |s| > 1 {
      SqueezedWhole(s[1..]);
      if s[0] == '-' && s[1] == '-' {
        assert !NoDouble(s);
      } else {
        NoDoubleCons(s);
        assert s == [s[0]] + s[1..];
      }
    }
  }

  lemma NoDoubleCons(s: string)
    requires |s| > 1 && !(s[0] == '-' && s[1] == '-')
    ensures NoDouble(s) <==> NoDouble(s[1..])
  {}

  lemma SqueezedCons(c: char, t: string, b: string)
    requires Squeezed(t + "/" + b) == Squeezed(t) + "/" + Squeezed(b)
    ensures Squeezed([c] + (t + "/" + b)) == Squeezed([c] + t) + "/" + Squeezed(b)
  {
    hide Squeezed;
    var u := t + "/" + b;
    Behind(c, Squeezed(t), Squeezed(b));
    if c != '-' {
      SqueezedPlain(c, t);
      SqueezedPlain(c, u);
    } else {
      SqueezedDash(t);
      SqueezedDash(u);
      SqueezedShort("");
      assert u[0] == if t == "" then '/' else t[0];
    }
  }

  lemma Behind(c: char, x: string, y: string)
    ensures [c] + (x + "/" + y) == [c] + x + "/" + y
  {}

  lemma {:induction false} SqueezedSlash(a: string, b: string)
    ensures Squeezed(a + "/" + b) == Squeezed(a) + "/" + Squeezed(b)
    decreases |a|
  {
    hide Squeezed;
    if a == "" {
      assert a + "/" + b == ['/'] + b;
      SqueezedPlain('/', b);
      SqueezedShort("");
    } else {
      SqueezedSlash(a[1..], b);
      SqueezedCons(a[0], a[1..], b);
      Behind(a[0], a[1..], b);
      assert a == [a[0]] + a[1..];
    }
  }

  lemma SqueezedShort(s: string)
    requires |s| <= 1
    ensures Squeezed(s) == s
  {}

  function Run(n: nat): (s: string)
    ensures |s| == n && forall c | c in s :: c == '-'
  {
    seq(n, _ => '-')
  }

  lemma {:induction false} SqueezedRun(n: nat, y: string)
    requires n > 0 && (y == "" || y[0] != '-')
    ensures Squeezed(Run(n) + y) == "-" + Squeezed(y)
    decreases n
  {
    hide Squeezed;
    assert Run(n) + y == "-" + (Run(n - 1) + y);
    SqueezedDash(Run(n - 1) + y);
    if n == 1 {
      assert Run(0) + y == y;
      SqueezedShort("");
    } else {
      assert (Run(n - 1) + y)[0] == Run(n - 1)[0] && Run(n - 1)[0] in Run(n - 1);
      SqueezedRun(n - 1, y);
    }
  }

  lemma {:induction false} SqueezedFront(x: string, z: string)
    requires x == "" || x[|x| - 1] != '-'
    ensures Squeezed(x + z) == Squeezed(x) + Squeezed(z)
    decreases |x|
  {
    hide Squeezed;
    if x == "" {
      assert x + z == z;
      SqueezedShort("");
    } else {
      var t := x[1..];
      SqueezedFront(t, z);
      assert x == [x[0]] + t && x + z == [x[0]] + (t + z);
      if x[0] == '-' {
        SqueezedDash(t);
        SqueezedDash(t + z);
      } else {
        SqueezedPlain(x[0], t);
        SqueezedPlain(x[0], t + z);
      }
    }
  }

  /** A run of dashes, however long and wherever it stands, shrinks to one; what is around it is squeezed alone. */
  lemma RunShrinks(x: string, n: nat, y: string)
    requires n > 0 && (x == "" || x[|x| - 1] != '-') && (y == "" || y[0] != '-')
    ensures Squeezed(x + Run(n) + y) == Squeezed(x) + "-" + Squeezed(y)
  {
    hide Squeezed, Run;
    assert x + Run(n) + y == x + (Run(n) + y);
    SqueezedFront(x, Run(n) + y);
    SqueezedRun(n, y);
  }

  /** The first dash, behind at least two characters and alone, becomes a slash; what follows is squeezed. */
  lemma FirstDash(a: string, b: string, path: string)
    requires Decoded(a + "-" + b, path) && '-' !in a && |a| >= 2 && b != "" && b[0] != '-'
    ensures path == a + "/" + Squeezed(b)
  {
    hide Squeezed;
    var s, i := a + "-" + b, |a| + 1;
    assert Single(s, i);
    forall j: nat | 3 <= j < i ensures !Single(s, j) { assert s[j - 1] == a[j - 1]; }
    assert s[|a| := '/'] == a + "/" + b;
    SqueezedSlash(a, b);
    SqueezedWhole(a);
  }

  /** A dash among the first two characters is not looked at. */
  lemma EarlyDashStays(dev: string, path: string)
    requires Decoded(dev, path) && forall j | 2 <= j < |dev| :: dev[j] != '-'
    ensures path == dev
  {}

  //// The encoding

  /** The dashes of a name doubled. */
  function Doubled(s: string): string {
    if s == "" then "" else (if s[0] == '-' then "--" else [s[0]]) + Doubled(s[1..])
  }

  const DEV: string := "/dev/"

  /** The path that the device mapper gives a logical volume. */
  function Encoded(group: string, volume: string): string {
    DEV + Doubled(group) + "-" + Doubled(volume)
  }

  function Path(group: string, volume: string): string {
    DEV + group + "/" + volume
  }

  lemma {:induction false} DoubledSqueezed(s: string)
    ensures Squeezed(Doubled(s)) == Squeezed(s)
    decreases |s|
  {
    hide Squeezed;
    if s != "" {
      var c, t := s[0], s[1..];
      DoubledSqueezed(t);
      assert s == [c] + t;
      DoubledFirst(t);
      if c == '-' {
        assert Doubled(s) == "-" + ("-" + Doubled(t));
        SqueezedDash("-" + Doubled(t));
        SqueezedDash(Doubled(t));
        SqueezedDash(t);
      } else {
        SqueezedPlain(c, t);
        SqueezedPlain(c, Doubled(t));
      }
    }
  }

  lemma DoubledFirst(s: string)
    ensures s == "" ==> Doubled(s) == ""
    ensures s != "" ==> Doubled(s) != "" && Doubled(s)[0] == s[0]
  {}

  lemma {:induction false} DoubledLast(s: string)
    ensures s != "" ==> Doubled(s) != "" && Doubled(s)[|Doubled(s)| - 1] == s[|s| - 1]
    decreases |s|
  {
    if |s| > 1 { DoubledLast(s[1..]); }
  }

  /** There is a dash next to the place i. */
  predicate Beside(s: string, i: nat)
    requires i < |s|
  {
    (i > 0 && s[i - 1] == '-') || (i + 1 < |s| && s[i + 1] == '-')
  }

  /** Every dash of a doubled name stands beside another. */
  predicate Paired(s: string) {
    forall i: nat | i < |s| && s[i] == '-' :: Beside(s, i)
  }

  lemma {:induction false} DoubledPaired(s: string)
    ensures Paired(Doubled(s))
    decreases |s|
  {
    if s != "" {
      var front, rest := if s[0] == '-' then "--" else [s[0]], Doubled(s[1..]);
      DoubledPaired(s[1..]);
      PairedAppend(front, rest);
    }
  }

  lemma PairedAppend(a: string, b: string)
    requires Paired(a) && Paired(b)
    ensures Paired(a + b)
  {}

  /** In x-y with paired x and y, only the joint can be a single dash. */
  lemma OnlyTheJoint(x: string, y: string, i: nat)
    requires Paired(x) && Paired(y) && Single(x + "-" + y, i)
    ensures i == |x| + 1
  {}

  lemma JointIsSingle(x: string, y: string)
    requires |x| > 0
    ensures Single(x + "-" + y, |x| + 1) <==> x[|x| - 1] != '-' && y != "" && y[0] != '-'
  {}

  /** What a caller can check of the names. */
  predicate Decodable(group: string, volume: string) {
    && volume != "" && volume[0] != '-' && (group != "" ==> group[|group| - 1] != '-')
    && NoDouble(group) && NoDouble(volume)
  }

  lemma DevPaired(group: string)
    ensures Paired(DEV + Doubled(group))
  {
    hide Doubled;
    DoubledPaired(group);
    PairedAppend(DEV, Doubled(group));
  }

  lemma EdgesOfEncoded(group: string, volume: string)
    ensures var x, y := DEV + Doubled(group), Doubled(volume);
            (x[|x| - 1] != '-' && y != "" && y[0] != '-')
            <==> (volume != "" && volume[0] != '-' && (group != "" ==> group[|group| - 1] != '-'))
  {
    hide Doubled;
    DoubledFirst(group);
    DoubledFirst(volume);
    DoubledLast(group);
    var x := DEV + Doubled(group);
    if group == "" { assert x == DEV; } else { assert x[|x| - 1] == Doubled(group)[|Doubled(group)| - 1]; }
  }

  lemma SqueezedDev(s: string)
    ensures Squeezed(DEV + s) == DEV + Squeezed(s)
  {
    hide Squeezed;
    SqueezedSlash("/dev", s);
    assert DEV + s == "/dev" + "/" + s;
    SqueezedWhole("/dev");
    assert "/dev" + "/" + Squeezed(s) == DEV + Squeezed(s);
  }

  lemma DecodedAt(dev: string, path: string, i: nat)
    requires Decoded(dev, path) && (forall j: nat | Single(dev, j) :: j == i) && 3 <= i && Single(dev, i)
    ensures path == Squeezed(dev[i - 1 := '/'])
  {
    hide Single, Squeezed;
  }

  lemma EncodedSingles(group: string, volume: string)
    ensures var x, y, s := DEV + Doubled(group), Doubled(volume), Encoded(group, volume);
            && (forall i: nat | Single(s, i) :: i == |x| + 1)
            && (Single(s, |x| + 1) <==>
                  volume != "" && volume[0] != '-' && (group != "" ==> group[|group| - 1] != '-'))
  {
    hide Doubled, Paired, Single;
    var x, y, s := DEV + Doubled(group), Doubled(volume), Encoded(group, volume);
    assert s == x + "-" + y;
    DevPaired(group);
    DoubledPaired(volume);
    EdgesOfEncoded(group, volume);
    JointIsSingle(x, y);
    forall i: nat | Single(s, i) ensures i == |x| + 1 { OnlyTheJoint(x, y, i); }
  }

  /** When the joint is a single dash, the decoder finds it and squeezes both names. */
  lemma JointDecoded(group: string, volume: string, path: string)
    requires Decoded(Encoded(group, volume), path)
    requires volume != "" && volume[0] != '-' && (group != "" ==> group[|group| - 1] != '-')
    ensures path == DEV + Squeezed(group) + "/" + Squeezed(volume)
  {
    hide Squeezed, Doubled, Decoded, Single;
    var x, y, s := DEV + Doubled(group), Doubled(volume), Encoded(group, volume);
    EncodedSingles(group, volume);
    DecodedAt(s, path, |x| + 1);
    assert s[|x| := '/'] == x + "/" + y;
    SqueezedSlash(x, y);
    SqueezedDev(Doubled(group));
    DoubledSqueezed(group);
    DoubledSqueezed(volume);
  }

  /** When it is not, the path is left as it is. */
  lemma JointMissed(group: string, volume: string, path: string)
    requires Decoded(Encoded(group, volume), path)
    requires !(volume != "" && volume[0] != '-' && (group != "" ==> group[|group| - 1] != '-'))
    ensures path == Encoded(group, volume)
  {
    hide Squeezed, Doubled, Single;
    EncodedSingles(group, volume);
  }

  lemma {:induction false} DoubledLonger(s: string)
    ensures |Doubled(s)| >= |s|
    ensures |Doubled(s)| == |s| ==> Doubled(s) == s
    decreases |s|
  {
    if s != "" { DoubledLonger(s[1..]); }
  }

  lemma EncodedIsNotPath(group: string, volume: string)
    ensures Encoded(group, volume) != Path(group, volume)
  {
    hide Doubled;
    DoubledLonger(group);
    DoubledLonger(volume);
    if |Encoded(group, volume)| == |Path(group, volume)| {
      var k := |DEV + group|;
      assert Path(group, volume)[k] == '/' && Encoded(group, volume)[k] == '-';
    }
  }

  lemma SamePath(g: string, v: string, group: string, volume: string)
    requires |g| <= |group| && |v| <= |volume|
    ensures DEV + g + "/" + v == Path(group, volume) <==> g == group && v == volume
  {
    var a, b := DEV + g + "/" + v, Path(group, volume);
    if a == b {
      assert |g| == |group|;
      assert a[5..5 + |g|] == g && b[5..5 + |g|] == group;
      assert a[6 + |g|..] == v && b[6 + |g|..] == volume;
    }
  }

  /** Decoding gives back the group and the volume exactly when neither name has two dashes together, the
      group ends in none, and the volume starts with none and is not empty. */
  lemma DecodeUndoesEncode(group: string, volume: string, path: string)
    requires Decoded(Encoded(group, volume), path)
    ensures path == Path(group, volume) <==> Decodable(group, volume)
  {
    hide Squeezed, Doubled, Decoded, Encoded, Path, NoDouble;
    SqueezedWhole(group);
    SqueezedWhole(volume);
    if volume != "" && volume[0] != '-' && (group != "" ==> group[|group| - 1] != '-') {
      JointDecoded(group, volume, path);
      SamePath(Squeezed(group), Squeezed(volume), group, volume);
    } else {
      JointMissed(group, volume, path);
      EncodedIsNotPath(group, volume);
    }
  }

  /** A group whose name has two dashes together does not come back. */
  lemma DoubleDashIsLost(path: string)
    requires Decoded(Encoded("a--b", "v"), path)
    ensures path != Path("a--b", "v")
  {
    hide Decoded, Encoded, Path;
    DecodeUndoesEncode("a--b", "v", path);
    assert "a--b"[1] == '-' && "a--b"[2] == '-';
  }
}
