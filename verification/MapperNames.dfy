/**
  Which volumes can share a mapper name. Two paths of one length that differ in one character and are given no
  component, as by every caller, do so in two families and in no other case: a UUID written with an equals sign
  where the other has a dash, and paths that differ above their last component in characters that the hash
  cannot tell apart.
 */
module MapperNames {
  import opened Sequences
  import opened PathHash
  import opened MapperPath

  //// Splitting a name at its last dash

  lemma HashesDiffer(a: bv32, b: bv32)
    requires a as nat == b as nat
    ensures a == b
  {
    assert (a as int) as bv32 == a;
    assert (b as int) as bv32 == b;
  }

  lemma PrintedHashDetermines(p: string, q: string)
    requires PrintedHash(p) == PrintedHash(q)
    ensures Hash(Key(p)) == Hash(Key(q))
  {
    hide Hash, Key, Digits;
    NumberOfDigits(Hash(Key(p)) as nat);
    NumberOfDigits(Hash(Key(q)) as nat);
    HashesDiffer(Hash(Key(p)), Hash(Key(q)));
  }

  lemma DashPlace(x: string, d: string)
    requires '-' !in d
    ensures (x + "-" + d)[|x|] == '-' && (x + "-" + d)[..|x|] == x && (x + "-" + d)[|x| + 1..] == d
    ensures forall j | |x| < j < |x| + 1 + |d| :: (x + "-" + d)[j] != '-'
  {}

  lemma SplitAtLast(x: string, d: string, y: string, e: string)
    requires x + "-" + d == y + "-" + e && '-' !in d && '-' !in e
    ensures x == y && d == e
  {
    DashPlace(x, d);
    DashPlace(y, e);
    assert |x| == |y|;
  }

  lemma DigitsStay(n: nat)
    ensures Cleaned(Digits(n), Specials()) == Digits(n) && '-' !in Digits(n)
  {
    hide Digits, Specials;
    forall i | 0 <= i < |Digits(n)| ensures Cleaned(Digits(n), Specials())[i] == Digits(n)[i] {
      assert IsDigit(Digits(n)[i]);
      WordsAreNotSpecial(Digits(n)[i]);
    }
  }

  lemma CleanedAppend(a: string, b: string)
    ensures Cleaned(a + b, Specials()) == Cleaned(a, Specials()) + Cleaned(b, Specials())
  {
    hide Specials;
  }

  /** A name is its cleaned stem, a dash and the printed hash. */
  lemma NameParts(uid: nat, path: string, component: string)
    ensures Name(uid, path, component) == Cleaned(Stem(uid, path, component), Specials()) + "-" + PrintedHash(path)
    ensures '-' !in PrintedHash(path)
  {
    hide Stem, Cleaned, Digits, Hash, Key, Specials;
    CleanedAppend(Stem(uid, path, component) + "-", PrintedHash(path));
    CleanedAppend(Stem(uid, path, component), "-");
    DashStays();
    DigitsStay(Hash(Key(path)) as nat);
  }

  lemma DashStays()
    ensures Cleaned("-", Specials()) == "-"
  {}

  /** Equal names have equal stems, once cleaned, and equal hashes. */
  lemma NamesDetermine(uid: nat, p: string, q: string, component: string)
    requires Name(uid, p, component) == Name(uid, q, component)
    ensures Cleaned(Stem(uid, p, component), Specials()) == Cleaned(Stem(uid, q, component), Specials())
    ensures Hash(Key(p)) == Hash(Key(q))
  {
    hide Name, Stem, Cleaned, PrintedHash, Hash, Key, Specials;
    NameParts(uid, p, component);
    NameParts(uid, q, component);
    SplitAtLast(Cleaned(Stem(uid, p, component), Specials()), PrintedHash(p),
                Cleaned(Stem(uid, q, component), Specials()), PrintedHash(q));
    PrintedHashDetermines(p, q);
  }

  //// What the replacement does, character by character

  ghost predicate AfterUuid(s: string, m: nat)
    requires m <= |s|
  {
    4 <= m && s[m - 4..m] == "UUID"
  }

  ghost function Rewritten(s: string, m: nat): char
    requires m < |s|
  {
    if s[m] == '=' && AfterUuid(s, m) then '-' else s[m]
  }

  /** Dropping a front that ends in no letter of UUID, or does not matter, leaves what comes before m. */
  lemma AfterUuidDropped(s: string, n: nat, m: nat)
    requires n <= m <= |s|
    requires m < n + 4 ==> exists j :: m - 4 <= j < n && 0 <= j && !Letter(s[j])
    ensures AfterUuid(s, m) <==> AfterUuid(s[n..], m - n)
  {}

  lemma ReplaceStep(s: string)
    requires s != ""
    ensures ReplaceUuid(s) == if UUID_IS <= s then UUID_DASH + ReplaceUuid(s[5..]) else [s[0]] + ReplaceUuid(s[1..])
  {}

  /** An equals sign behind UUID becomes a dash, and nothing else changes. */
  lemma {:induction false} ReplacedAt(s: string, m: nat)
    requires m < |s|
    ensures ReplaceUuid(s)[m] == Rewritten(s, m)
    decreases |s|
  {
    hide AfterUuid, ReplaceUuid;
    ReplaceStep(s);
    if UUID_IS <= s {
      ReplacedFront(s, m);
      if m >= 5 {
        ReplacedAt(s[5..], m - 5);
        AfterUuidDropped(s, 5, m);
      }
    } else if m >= 1 {
      ReplacedAt(s[1..], m - 1);
      if m >= 5 { AfterUuidDropped(s, 1, m); } else { NoFront(s, m); }
    } else {
      NoFront(s, m);
    }
  }

  lemma ReplacedFront(s: string, m: nat)
    requires UUID_IS <= s && m < |s|
    ensures m < 4 ==> s[m] != '=' && UUID_DASH[m] == s[m]
    ensures s[4] == '=' && (m == 4 ==> AfterUuid(s, m))
  {
    assert s[..4] == UUID_IS[..4] == "UUID";
  }

  lemma NoFront(s: string, m: nat)
    requires !(UUID_IS <= s) && m < |s| && m < 5
    ensures !(s[m] == '=' && AfterUuid(s, m))
    ensures m > 0 ==> !AfterUuid(s[1..], m - 1)
  {}

  predicate Letter(c: char) {
    c == 'U' || c == 'I' || c == 'D'
  }

  /** Away from a changed character that is no letter of UUID the replacement does the same. */
  lemma RewrittenElsewhere(a: string, x: char, y: char, b: string, m: nat)
    requires !Letter(x) && !Letter(y) && m < |a| + 1 + |b| && m != |a|
    ensures Rewritten(a + [x] + b, m) == Rewritten(a + [y] + b, m)
  {
    var v, w, j := a + [x] + b, a + [y] + b, |a|;
    assert v[m] == w[m];
    if 4 <= m {
      if m - 4 <= j < m {
        assert v[m - 4..m][j - (m - 4)] == x && w[m - 4..m][j - (m - 4)] == y;
        assert Letter("UUID"[j - (m - 4)]);
      } else {
        assert v[m - 4..m] == w[m - 4..m];
      }
    }
  }

  lemma AfterUuidFront(a: string, x: char, b: string)
    ensures AfterUuid(a + [x] + b, |a|) <==> AfterUuid(a, |a|)
  {
    var v, m := a + [x] + b, |a|;
    if 4 <= m { assert v[m - 4..m] == a[m - 4..m]; }
  }

  /** The two characters are an equals sign and a dash, and stand behind UUID. */
  ghost predicate Confusing(a: string, x: char, y: char) {
    ((x == '=' && y == '-') || (x == '-' && y == '=')) && AfterUuid(a, |a|)
  }

  lemma SameWhenReplaced(a: string, x: char, y: char, b: string)
    requires x != y
    ensures ReplaceUuid(a + [x] + b) == ReplaceUuid(a + [y] + b) <==> Confusing(a, x, y)
  {
    hide ReplaceUuid, AfterUuid;
    var v, w, j := a + [x] + b, a + [y] + b, |a|;
    AfterUuidFront(a, x, b);
    AfterUuidFront(a, y, b);
    ReplacedAt(v, j);
    ReplacedAt(w, j);
    if Confusing(a, x, y) {
      forall m | 0 <= m < |v| ensures ReplaceUuid(v)[m] == ReplaceUuid(w)[m] {
        ReplacedAt(v, m);
        ReplacedAt(w, m);
        if m != j { RewrittenElsewhere(a, x, y, b, m); }
      }
    }
  }

  lemma RewrittenHere(a: string, x: char, b: string)
    ensures Rewritten(a + [x] + b, |a|) == x || (x == '=' && Rewritten(a + [x] + b, |a|) == '-')
  {}

  lemma LetterStays(c: char, d: char)
    requires Letter(c) && Clean(c, Specials()) == Clean(d, Specials())
    ensures c == d
  {
    hide Specials;
    WordsAreNotSpecial(c);
  }

  lemma SpecialsAreLatin1()
    ensures forall c | c in Specials() :: c as int < 128
  {
    hide Specials;
    forall c | c in Specials() ensures c as int < 128 { SpecialsOnly(c); }
  }

  /** What a character looks like in the name and the byte it is hashed as, together, determine it. */
  lemma LookAndByteDetermine(c: char, d: char)
    requires Clean(c, Specials()) == Clean(d, Specials()) && Octet(c) == Octet(d)
    ensures c == d
  {
    hide Specials, Octet;
    SpecialsAreLatin1();
    if c != d {
      if c in Specials() && d in Specials() { OctetInjective(c, d); }
      if c in Specials() && d !in Specials() { OctetInjective(c, '_'); }
      if c !in Specials() && d in Specials() { OctetInjective(d, '_'); }
    }
  }

  /** Replaced strings that look alike once cleaned and hash alike are the same. */
  lemma AlikeMeansSame(a: string, x: char, y: char, b: string)
    requires x != y
    requires var v, w := ReplaceUuid(a + [x] + b), ReplaceUuid(a + [y] + b);
             Cleaned(v, Specials()) == Cleaned(w, Specials()) && Hash(v) == Hash(w)
    ensures ReplaceUuid(a + [x] + b) == ReplaceUuid(a + [y] + b)
  {
    hide ReplaceUuid, AfterUuid, Rewritten, Hash, Cleaned, Clean, Specials, Octet;
    var v, w, j := a + [x] + b, a + [y] + b, |a|;
    var r, t := ReplaceUuid(v), ReplaceUuid(w);
    ReplacedAt(v, j);
    ReplacedAt(w, j);
    RewrittenHere(a, x, b);
    RewrittenHere(a, y, b);
    assert Clean(r[j], Specials()) == Cleaned(r, Specials())[j] == Clean(t[j], Specials());
    if Letter(r[j]) { LetterStays(r[j], t[j]); }
    if Letter(t[j]) { LetterStays(t[j], r[j]); }
    forall m | 0 <= m < |v| && m != j ensures r[m] == t[m] {
      ReplacedAt(v, m);
      ReplacedAt(w, m);
      RewrittenElsewhere(a, x, y, b, m);
    }
    if r[j] != t[j] {
      HashOfNeighbours(r, t, j);
      LookAndByteDetermine(r[j], t[j]);
    }
  }

  //// Removing the quotes

  lemma WithoutStep(s: string, c: char)
    requires s != ""
    ensures Without(s, c) == (if s[0] == c then "" else [s[0]]) + Without(s[1..], c)
  {}

  lemma WithoutEmpty(c: char)
    ensures Without("", c) == ""
  {}

  lemma {:induction false} WithoutAppend(a: string, b: string, c: char)
    ensures Without(a + b, c) == Without(a, c) + Without(b, c)
    decreases |a|
  {
    hide Without;
    WithoutEmpty(c);
    if a == "" {
      assert a + b == b;
    } else {
      TakeDropAppend(a, b, 1);
      WithoutAppend(a[1..], b, c);
      WithoutStep(a, c);
      WithoutStep(a + b, c);
      Associative(if a[0] == c then "" else [a[0]], Without(a[1..], c), Without(b, c));
    }
  }

  lemma WithoutMiddle(s: string, i: nat, c: char)
    requires i < |s|
    ensures Without(s, c) == Without(s[..i], c) + (if s[i] == c then "" else [s[i]]) + Without(s[i + 1..], c)
  {
    assert s == s[..i] + [s[i]] + s[i + 1..];
    WithoutAppend(s[..i] + [s[i]], s[i + 1..], c);
    WithoutAppend(s[..i], [s[i]], c);
    assert [s[i]][1..] == "";
  }

  //// The names of neighbours

  lemma ByUuidKeys(p: string, q: string, i: nat)
    requires DifferAt(p, q, i) && ByUuid(p) && ByUuid(q)
    requires Cleaned(Key(p), Specials()) == Cleaned(Key(q), Specials()) && Hash(Key(p)) == Hash(Key(q))
    ensures p[i] != '\"' && q[i] != '\"' && Confusing(Without(p[..i], '\"'), p[i], q[i])
  {
    hide ReplaceUuid, Hash, Cleaned, Confusing, Without, Specials;
    var a, b := Without(p[..i], '\"'), Without(p[i + 1..], '\"');
    assert p[..i] == q[..i] && p[i + 1..] == q[i + 1..];
    WithoutMiddle(p, i, '\"');
    WithoutMiddle(q, i, '\"');
    assert |Without(p, '\"')| == |Without(q, '\"')|;
    AlikeMeansSame(a, p[i], q[i], b);
    SameWhenReplaced(a, p[i], q[i], b);
  }

  lemma ConfusedKeys(p: string, q: string, i: nat)
    requires DifferAt(p, q, i) && ByUuid(p) && ByUuid(q)
    requires Confusing(Without(p[..i], '\"'), p[i], q[i])
    ensures Key(p) == Key(q)
  {
    hide ReplaceUuid, Without, AfterUuid;
    assert p[..i] == q[..i] && p[i + 1..] == q[i + 1..];
    WithoutMiddle(p, i, '\"');
    WithoutMiddle(q, i, '\"');
    SameWhenReplaced(Without(p[..i], '\"'), p[i], q[i], Without(p[i + 1..], '\"'));
  }

  lemma StemParts(uid: nat, path: string, component: string)
    ensures Cleaned(Stem(uid, path, component), Specials())
            == Cleaned(PREFIX + Digits(uid), Specials()) + Cleaned(Middle(path, component), Specials())
  {
    hide Digits, Middle;
    CleanedAppend(PREFIX + Digits(uid), Middle(path, component));
  }

  lemma EqualTails(x: string, y: string, z: string)
    requires x + y == x + z
    ensures y == z
  {
    assert (x + y)[|x|..] == y && (x + z)[|x|..] == z;
  }

  /** Equal names have equal middles, once cleaned. */
  lemma MiddlesDetermined(uid: nat, p: string, q: string, component: string)
    requires Name(uid, p, component) == Name(uid, q, component)
    ensures Cleaned(Middle(p, component), Specials()) == Cleaned(Middle(q, component), Specials())
    ensures Hash(Key(p)) == Hash(Key(q))
  {
    hide Name, Stem, Cleaned, Hash, Key, Middle, Digits, Specials;
    NamesDetermine(uid, p, q, component);
    StemParts(uid, p, component);
    StemParts(uid, q, component);
    EqualTails(Cleaned(PREFIX + Digits(uid), Specials()),
               Cleaned(Middle(p, component), Specials()), Cleaned(Middle(q, component), Specials()));
  }

  /** The first family: two UUIDs with an equals sign and a dash behind another UUID. */
  ghost predicate Confused(p: string, q: string, i: nat)
    requires i < |p| && i < |q|
  {
    ByUuid(p) && ByUuid(q) && Confusing(Without(p[..i], '\"'), p[i], q[i])
  }

  lemma UuidStarts(p: string)
    requires ByUuid(p)
    ensures |Key(p)| > 0 && Key(p)[0] == 'U'
  {}

  lemma LettersDiffer()
    ensures Clean('U', Specials()) != Clean('N', Specials())
  {}

  lemma UuidIsNotNaan(p: string, q: string)
    requires ByUuid(p) && !ByUuid(q)
    ensures Cleaned(Middle(p, ""), Specials()) != Cleaned(Middle(q, ""), Specials())
  {
    hide Cleaned, Clean, Specials, Key, ByUuid, LastPart;
    UuidStarts(p);
    var m, n := Middle(p, ""), Middle(q, "");
    assert m[1] == 'U' && n[1] == 'N';
    LettersDiffer();
    assert Cleaned(m, Specials())[1] == Clean('U', Specials()) && Cleaned(n, Specials())[1] == Clean('N', Specials());
  }

  /** The second family: the characters become the same byte, and the name does not show them because the
      last component begins behind them. */
  ghost predicate Blurred(p: string, q: string, i: nat)
    requires i < |p| && i < |q|
  {
    !ByUuid(p) && !ByUuid(q) && Octet(p[i]) == Octet(q[i]) && '/' in p[i + 1..]
  }

  lemma SameLastPart(p: string, q: string, i: nat)
    requires DifferAt(p, q, i) && '/' in p[i + 1..]
    ensures LastPart(p, '/') == LastPart(q, '/')
  {
    var m :| 0 <= m < |p[i + 1..]| && p[i + 1..][m] == '/';
    assert p[i + 1 + m] == '/' && q[i + 1 + m] == '/';
    var j, k := BehindLast(p, '/', |p|), BehindLast(q, '/', |q|);
    assert j > i && k > i && j == k;
    assert p[j..] == q[j..];
  }

  /** Without a slash behind it, the changed character is part of the last component. */
  lemma ShownInLastPart(p: string, q: string, i: nat) returns (j: nat)
    requires DifferAt(p, q, i) && '/' !in p[i + 1..] && p[i] != '/' && q[i] != '/'
    ensures j < |LastPart(p, '/')| == |LastPart(q, '/')|
    ensures LastPart(p, '/')[j] == p[i] && LastPart(q, '/')[j] == q[i]
  {
    var k := BehindLast(p, '/', |p|);
    forall m | i < m < |p| ensures p[m] != '/' { assert p[m] == p[i + 1..][m - i - 1]; }
    assert k <= i && k == BehindLast(q, '/', |q|);
    j := i - k;
  }

  lemma ByPathHidden(uid: nat, p: string, q: string, component: string, i: nat)
    requires DifferAt(p, q, i) && !ByUuid(p) && !ByUuid(q)
    requires Name(uid, p, component) == Name(uid, q, component)
    ensures Blurred(p, q, i)
  {
    hide Name, Cleaned, Clean, Hash, ByUuid, Specials, Octet, LastPart;
    MiddlesDetermined(uid, p, q, component);
    HashOfNeighbours(p, q, i);
    if '/' !in p[i + 1..] {
      SlashAlone(p[i], q[i]);
      var j := ShownInLastPart(p, q, i);
      var front := if component == "" then "-NAAN-" else component;
      CleanedAppend(front, LastPart(p, '/'));
      CleanedAppend(front, LastPart(q, '/'));
      EqualTails(Cleaned(front, Specials()),
                 Cleaned(LastPart(p, '/'), Specials()), Cleaned(LastPart(q, '/'), Specials()));
      LookAndByteDetermine(p[i], q[i]);
    }
  }

  /** No other character becomes the byte of the slash. */
  lemma SlashAlone(c: char, d: char)
    requires c != d && Octet(c) == Octet(d)
    ensures c != '/' && d != '/'
  {
    hide Octet;
    SharedOctet(c, d);
  }

  lemma BlurredSameName(uid: nat, p: string, q: string, component: string, i: nat)
    requires DifferAt(p, q, i) && Blurred(p, q, i)
    ensures Name(uid, p, component) == Name(uid, q, component)
  {
    hide Cleaned, Hash, ByUuid, Specials, Octet, LastPart, Digits;
    SameLastPart(p, q, i);
    HashOfNeighbours(p, q, i);
  }

  /** What is left to chance: under a component that is given, a UUID and another path may look and hash alike. */
  ghost predicate Coincide(p: string, q: string, component: string) {
    && ByUuid(p) != ByUuid(q) && component != ""
    && Cleaned(Middle(p, component), Specials()) == Cleaned(Middle(q, component), Specials())
    && Hash(Key(p)) == Hash(Key(q))
  }

  lemma MiddlesDetermine(uid: nat, p: string, q: string, component: string)
    requires Cleaned(Middle(p, component), Specials()) == Cleaned(Middle(q, component), Specials())
    requires Hash(Key(p)) == Hash(Key(q))
    ensures Name(uid, p, component) == Name(uid, q, component)
  {
    hide Name, Stem, Cleaned, Hash, Key, Middle, Digits, Specials;
    NameParts(uid, p, component);
    NameParts(uid, q, component);
    StemParts(uid, p, component);
    StemParts(uid, q, component);
  }

  /** For every user, and every two paths that differ in one character: the names are the same exactly in the
      two families and, under a component, where a UUID and another path coincide. */
  lemma NamesOfNeighbours(uid: nat, p: string, q: string, component: string, i: nat)
    requires DifferAt(p, q, i)
    ensures Name(uid, p, component) == Name(uid, q, component) <==>
      Confused(p, q, i) || Blurred(p, q, i) || Coincide(p, q, component)
  {
    hide Name, Cleaned, Hash, Without, ReplaceUuid, Confusing, ByUuid, Specials, Octet;
    if Name(uid, p, component) == Name(uid, q, component) {
      MiddlesDetermined(uid, p, q, component);
      if ByUuid(p) && ByUuid(q) {
        EqualDashed(Key(p), Key(q));
        ByUuidKeys(p, q, i);
      } else if ByUuid(p) {
        if component == "" { UuidIsNotNaan(p, q); }
      } else if ByUuid(q) {
        if component == "" { UuidIsNotNaan(q, p); }
      } else {
        ByPathHidden(uid, p, q, component, i);
      }
    } else if Confused(p, q, i) {
      ConfusedKeys(p, q, i);
      SameKeySameName(uid, p, q, component);
    } else if Blurred(p, q, i) {
      BlurredSameName(uid, p, q, component, i);
    } else if Coincide(p, q, component) {
      MiddlesDetermine(uid, p, q, component);
    }
  }

  /** The second family at work: files of one name in two directories with Cyrillic names. */
  lemma TwoDirectoriesOneName(uid: nat)
    ensures "/\U{0434}/a" != "/\U{044F}/a" && Name(uid, "/\U{0434}/a", "") == Name(uid, "/\U{044F}/a", "")
  {
    hide Name, ByUuid, Octet;
    var p, q := "/\U{0434}/a", "/\U{044F}/a";
    assert p[0] == '/' && q[0] == '/' && p[2..][0] == '/';
    SlashIsNoUuid(p);
    SlashIsNoUuid(q);
    SharedOctet(p[1], q[1]);
    NamesOfNeighbours(uid, p, q, "", 1);
  }

  lemma SlashIsNoUuid(p: string)
    requires p != "" && p[0] == '/'
    ensures !ByUuid(p)
  {}

  lemma EqualDashed(x: string, y: string)
    requires Cleaned("-" + x, Specials()) == Cleaned("-" + y, Specials())
    ensures Cleaned(x, Specials()) == Cleaned(y, Specials())
  {
    CleanedAppend("-", x);
    CleanedAppend("-", y);
    EqualTails(Cleaned("-", Specials()), Cleaned(x, Specials()), Cleaned(y, Specials()));
  }

  lemma SameKeySameName(uid: nat, p: string, q: string, component: string)
    requires ByUuid(p) && ByUuid(q) && Key(p) == Key(q)
    ensures Name(uid, p, component) == Name(uid, q, component)
  {}

  lemma {:induction false} WithoutNothing(s: string, c: char)
    requires c !in s
    ensures Without(s, c) == s
    decreases |s|
  {
    if s != "" { WithoutNothing(s[1..], c); }
  }

  /** Two different volumes, one name. */
  lemma TwoVolumesOneName(uid: nat)
    ensures "UUID=UUID=" != "UUID=UUID-" && Name(uid, "UUID=UUID=", "") == Name(uid, "UUID=UUID-", "")
  {
    hide Name, Without;
    var a := "UUID=UUID";
    assert a + "=" == "UUID=UUID=" && a + "-" == "UUID=UUID-";
    WithoutNothing(a, '\"');
    SharedName(uid, a);
  }

  lemma SharedName(uid: nat, a: string)
    requires ByUuid(a) && AfterUuid(Without(a, '\"'), |Without(a, '\"')|)
    ensures Name(uid, a + "=", "") == Name(uid, a + "-", "")
  {
    hide Name, Without, AfterUuid;
    var p, q := a + "=", a + "-";
    assert p[..|a|] == a && UUID_IS <= p && UUID_IS <= q;
    NamesOfNeighbours(uid, p, q, "", |a|);
  }

  //// Names that show everything

  lemma WordsStay(s: string)
    requires forall c | c in s :: Word(c)
    ensures Cleaned(s, Specials()) == s
  {
    hide Specials, Word;
    forall i | 0 <= i < |s| ensures Cleaned(s, Specials())[i] == s[i] { WordsAreNotSpecial(s[i]); }
  }

  /** The name of a file or device whose own name has no special character. */
  lemma NameOfDevice(uid: nat, dir: string, name: string, component: string)
    requires '/' !in name && !(UUID_IS <= dir + "/" + name) && forall c | c in name + component :: c !in Specials()
    ensures Name(uid, dir + "/" + name, component) ==
      "/dev/mapper/zuluCrypt-" + Digits(uid) + (if component == "" then "-NAAN-" else component) + name
      + "-" + Digits(Hash(dir + "/" + name) as nat)
  {
    hide Name, Digits, Hash, Specials, Cleaned;
    var path, kind := dir + "/" + name, if component == "" then "-NAAN-" else component;
    NameParts(uid, path, component);
    StemParts(uid, path, component);
    CleanedPrefix(uid);
    CleanedMiddle(dir, name, component);
    assert PREFIX + Digits(uid) + (kind + name) == PREFIX + Digits(uid) + kind + name;
  }

  lemma CleanedPrefix(uid: nat)
    ensures Cleaned(PREFIX + Digits(uid), Specials()) == PREFIX + Digits(uid)
  {
    hide Digits, Specials, Cleaned;
    WordsStay(PREFIX);
    DigitsStay(uid);
    CleanedAppend(PREFIX, Digits(uid));
  }

  lemma CleanedMiddle(dir: string, name: string, component: string)
    requires '/' !in name && !(UUID_IS <= dir + "/" + name) && forall c | c in name + component :: c !in Specials()
    ensures Cleaned(Middle(dir + "/" + name, component), Specials())
         == (if component == "" then "-NAAN-" else component) + name
  {
    hide Specials, LastPart, Cleaned;
    LastPartIs(dir, '/', name);
    WordsStay("-NAAN-");
    PlainStays(name);
    PlainStays(component);
    CleanedAppend(if component == "" then "-NAAN-" else component, name);
  }

  lemma PlainStays(s: string)
    requires forall c | c in s :: c !in Specials()
    ensures Cleaned(s, Specials()) == s
  {
    hide Specials;
  }

  /** A name letter by letter. */
  lemma NameOfPartition()
    ensures Name(1000, "/dev/sda1", "") == "/dev/mapper/zuluCrypt-1000-NAAN-sda1-16495753"
  {
    hide Name, Hash, Specials, Digits, UUID_IS;
    assert "/dev" + "/" + "sda1" == "/dev/sda1";
    SlashIsNoUuid("/dev/sda1");
    WordsArePlain("sda1");
    NameOfDevice(1000, "/dev", "sda1", "");
    HashOfDevice();
    PrintedThousand();
    PrintedDeviceHash();
  }

  lemma WordsArePlain(s: string)
    requires forall c | c in s :: Word(c)
    ensures forall c | c in s + "" :: c !in Specials()
  {
    hide Specials, Word;
    forall c | c in s + "" ensures c !in Specials() { WordsAreNotSpecial(c); }
  }

  lemma NextDigit(n: nat, d: nat)
    requires d < 10
    ensures Digits(10 * n + d) == if n == 0 then [Digit(d)] else Digits(n) + [Digit(d)]
  {}

  lemma PrintedThousand()
    ensures Digits(1000) == "1000"
  {
    hide Digits;
    NextDigit(0, 1); NextDigit(1, 0); NextDigit(10, 0); NextDigit(100, 0);
  }

  lemma PrintedDeviceHash()
    ensures Digits(16495753) == "16495753"
  {
    hide Digits;
    NextDigit(0, 1); NextDigit(1, 6); NextDigit(16, 4); NextDigit(164, 9);
    NextDigit(1649, 5); NextDigit(16495, 7); NextDigit(164957, 5); NextDigit(1649575, 3);
  }
}
