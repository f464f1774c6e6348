/**
  Reading a volume's UUID back out of its mapper name, with the string edited in place.
 */
module VolumeStatus {
  import opened Sequences
  import opened PathHash
  import opened MapperPath
  import opened MapperNames

  //// The string library

  predicate Matches(s: string, pattern: string, i: nat) {
    i + |pattern| <= |s| && s[i..i + |pattern|] == pattern
  }

  /** strstr from the place i on; -1 when there is no match. */
  function IndexFrom(s: string, pattern: string, i: nat): (k: int)
    requires i <= |s|
    ensures k == -1 || (i <= k <= |s| - |pattern| && Matches(s, pattern, k))
    decreases |s| - i
  {
    if Matches(s, pattern, i) then i else if i == |s| then -1 else IndexFrom(s, pattern, i + 1)
  }

  lemma {:induction false} IndexIsFirst(s: string, pattern: string, i: nat, k: nat)
    requires i <= k <= |s| && Matches(s, pattern, k) && forall j | i <= j < k :: !Matches(s, pattern, j)
    ensures IndexFrom(s, pattern, i) == k
    decreases k - i
  {
    if i < k { IndexIsFirst(s, pattern, i + 1, k); }
  }

  /** The text as a C string. */
  function UpToTerminator(s: string): string {
    if s == "" || s[0] == '\0' then "" else [s[0]] + UpToTerminator(s[1..])
  }

  lemma {:induction false} UpToFirst(a: string, b: string)
    requires '\0' !in a && (b == "" || b[0] == '\0')
    ensures UpToTerminator(a + b) == a
    decreases |a|
  {
    if a == "" {
      assert a + b == b;
    } else {
      TakeDropAppend(a, b, 1);
      UpToFirst(a[1..], b);
    }
  }

  /** string_t */
  class EditString {
    var text: string

    constructor (text: string)
      ensures this.text == text
    {
      this.text := text;
    }

    method RemoveLeft(x: nat)
      modifies this
      ensures text == if x >= old(|text|) then "" else old(text)[x..]
    {
      text := if x >= |text| then "" else text[x..];
    }

    method Prepend(s: string)
      modifies this
      ensures text == s + old(text)
    {
      text := s + text;
    }

    /** Scans back from the end; the first character is never looked at. */
    method LastIndexOfChar(c: char) returns (i: int)
      requires text != ""
      ensures i == -1 || (0 < i < |text| && text[i] == c)
      ensures forall j | (if i == -1 then 0 else i) < j < |text| :: text[j] != c
    {
      i := |text| - 1;
      while i != 0
        invariant 0 <= i < |text|
        invariant forall j | i < j < |text| :: text[j] != c
        decreases i
      {
        if text[i] == c { return; }
        i := i - 1;
      }
      i := -1;
    }

    method SubChar(x: nat, c: char)
      modifies this
      ensures text == if x >= old(|text|) then old(text) else old(text)[x := c]
    {
      if x < |text| { text := text[x := c]; }
    }
  }

  //// The parse

  const MARK: string := "-UUID-"
  const OPENING: string := "UUID=\""

  /** What stands between the mark and the last dash, in quotes; without a dash the quotes stay open. */
  function Quoted(rest: string): string {
    var j := BehindLast(rest, '-', |rest|);
    if j == 0 then OPENING + rest else OPENING + rest[..j - 1] + "\""
  }

  /** The device name shown for the mapper path q, whose device is x. */
  function Parsed(q: string, x: string): string {
    var k := IndexFrom(q, MARK, 0);
    if k == -1 then x else Quoted(q[k + 6..])
  }

  /** The part of _print_device_properties that names the device. */
  method DeviceName(q: string, x: string) returns (e: string)
    requires '\0' !in q
    ensures e == Parsed(q, x)
  {
    hide IndexFrom, Matches, UpToTerminator, Quoted;
    var index := IndexFrom(q, MARK, 0);
    if index == -1 { return x; }
    var st := new EditString(q);
    st.RemoveLeft(index + 6);
    ghost var rest := q[index + 6..];
    assert st.text == rest;
    st.Prepend(OPENING);
    index := st.LastIndexOfChar('-');
    QuotedAt(rest, index);
    ghost var t := OPENING + rest;
    assert '\0' !in t;
    if index >= 0 {
      st.SubChar(index, '\"');
      st.SubChar(index + 1, '\0');
      Cut(t, index, st.text);
    } else {
      UpToFirst(t, "");
      assert t + "" == t;
    }
    e := UpToTerminator(st.text);
  }

  /** The scan finds the last dash behind the mark. */
  lemma LastDash(rest: string, index: int)
    requires var t := OPENING + rest;
             && (index == -1 || (0 < index < |t| && t[index] == '-'))
             && forall j | (if index == -1 then 0 else index) < j < |t| :: t[j] != '-'
    ensures var j := BehindLast(rest, '-', |rest|);
            if index == -1 then j == 0 else j > 0 && index == 6 + j - 1
  {
    var j := BehindLast(rest, '-', |rest|);
    if j > 0 { assert (OPENING + rest)[6 + j - 1] == '-'; }
    if index >= 6 { assert rest[index - 6] == '-'; }
  }

  /** What the edit leaves is the text before the dash found, in quotes; without a dash, all of it. */
  lemma QuotedAt(rest: string, index: int)
    requires var t := OPENING + rest;
             && (index == -1 || (0 < index < |t| && t[index] == '-'))
             && forall j | (if index == -1 then 0 else index) < j < |t| :: t[j] != '-'
    ensures Quoted(rest) == if index == -1 then OPENING + rest else (OPENING + rest)[..index] + "\""
  {
    hide BehindLast;
    LastDash(rest, index);
    if index != -1 { assert (OPENING + rest)[..index] == OPENING + rest[..index - 6]; }
  }

  /** Writing a quote and a terminator behind it cuts the string there. */
  lemma Cut(t: string, index: nat, s: string)
    requires index < |t| && '\0' !in t
    requires s == if index + 1 < |t| then t[index := '\"'][index + 1 := '\0'] else t[index := '\"']
    ensures UpToTerminator(s) == t[..index] + "\""
  {
    hide UpToTerminator;
    var a, b := t[..index] + "\"", s[index + 1..];
    assert s == a + b;
    assert '\0' !in t[..index];
    UpToFirst(a, b);
  }

  //// There and back

  /** Nothing in X that the naming changes. */
  ghost predicate Undisturbed(x: string) {
    && (forall c | c in x :: c !in Specials())
    && (forall i: nat :: !Matches(x, UUID_IS, i))
  }

  ghost function UuidPath(x: string): string {
    OPENING + x + "\""
  }

  /** What of X reaches the name. */
  ghost function Kept(x: string): string {
    Cleaned(ReplaceUuid(Without(x, '\"')), Specials())
  }

  lemma PathWithoutQuotes(x: string)
    ensures Without(UuidPath(x), '\"') == UUID_IS + Without(x, '\"')
  {
    hide Without;
    OneQuote();
    WithoutNothing(UUID_IS, '\"');
    WithoutAppend(UUID_IS, "\"", '\"');
    WithoutAppend(UUID_IS + "\"", x, '\"');
    WithoutAppend(UUID_IS + "\"" + x, "\"", '\"');
    assert UuidPath(x) == UUID_IS + "\"" + x + "\"";
  }

  lemma OneQuote()
    ensures Without("\"", '\"') == ""
  {}

  lemma UuidKey(x: string)
    ensures ByUuid(UuidPath(x)) && Key(UuidPath(x)) == UUID_DASH + ReplaceUuid(Without(x, '\"'))
  {
    hide ReplaceUuid, Without;
    PathWithoutQuotes(x);
    assert UUID_IS <= UuidPath(x);
    ReplaceFront(Without(x, '\"'));
  }

  lemma ReplaceFront(w: string)
    ensures ReplaceUuid(UUID_IS + w) == UUID_DASH + ReplaceUuid(w)
  {
    assert (UUID_IS + w)[5..] == w;
  }

  lemma UuidName(uid: nat, x: string)
    ensures Name(uid, UuidPath(x), "") == PREFIX + Digits(uid) + MARK + (Kept(x) + "-" + PrintedHash(UuidPath(x)))
    ensures '-' !in PrintedHash(UuidPath(x))
  {
    hide Name, Cleaned, Specials, Hash, ReplaceUuid, Without, PrintedHash, Digits;
    var path, y := UuidPath(x), ReplaceUuid(Without(x, '\"'));
    UuidKey(x);
    NameParts(uid, path, "");
    StemParts(uid, path, "");
    WordsStay(PREFIX);
    DigitsStay(uid);
    CleanedAppend(PREFIX, Digits(uid));
    WordsStay(MARK);
    assert Middle(path, "") == MARK + y;
    CleanedAppend(MARK, y);
  }

  /** The first mark in the name is the one behind the user. */
  lemma MarkIsFirst(uid: nat, rest: string)
    ensures IndexFrom(PREFIX + Digits(uid) + MARK + rest, MARK, 0) == |PREFIX + Digits(uid)|
  {
    hide Digits;
    var head := PREFIX + Digits(uid);
    var s := head + MARK + rest;
    assert s[|head|..|head| + 6] == MARK;
    forall j | 0 <= j < |head| ensures !Matches(s, MARK, j) {
      if s[j] == '-' { HeadHasOneDash(uid, j); }
      NoMatch(s, j);
    }
    IndexIsFirst(s, MARK, 0, |head|);
  }

  lemma NoMatch(s: string, j: nat)
    requires j < |s| && (s[j] != '-' || (j + 1 < |s| && s[j + 1] != 'U'))
    ensures !Matches(s, MARK, j)
  {
    if j + 6 <= |s| { assert s[j..j + 6][0] == s[j] && s[j..j + 6][1] == s[j + 1]; }
  }

  lemma HeadHasOneDash(uid: nat, j: nat)
    requires j < |PREFIX + Digits(uid)| && (PREFIX + Digits(uid))[j] == '-'
    ensures j + 1 < |PREFIX + Digits(uid)| && IsDigit((PREFIX + Digits(uid))[j + 1])
  {}

  lemma QuotedStem(x: string, d: string)
    requires '-' !in d
    ensures Quoted(x + "-" + d) == OPENING + x + "\""
  {
    var rest, j := x + "-" + d, BehindLast(x + "-" + d, '-', |x + "-" + d|);
    DashPlace(x, d);
    assert j == |x| + 1;
  }

  /** Printing the mapper path of a UUID and parsing it back gives the UUID exactly when it holds no quote, no
      other special character and no second UUID=. */
  lemma UuidComesBack(uid: nat, x: string, device: string)
    ensures Parsed(Name(uid, UuidPath(x), ""), device) == UuidPath(x) <==> Undisturbed(x)
  {
    hide Name, Cleaned, Specials, ReplaceUuid, Without, PrintedHash, Digits, Quoted, IndexFrom, Undisturbed;
    var d := PrintedHash(UuidPath(x));
    var head := PREFIX + Digits(uid);
    UuidName(uid, x);
    MarkIsFirst(uid, Kept(x) + "-" + d);
    assert (head + MARK + (Kept(x) + "-" + d))[|head| + 6..] == Kept(x) + "-" + d;
    QuotedStem(Kept(x), d);
    KeptWhole(x);
    if OPENING + Kept(x) + "\"" == UuidPath(x) { MiddleOfThree(OPENING, Kept(x), x, "\""); }
  }

  lemma MiddleOfThree(a: string, x: string, y: string, b: string)
    requires a + x + b == a + y + b
    ensures x == y
  {
    assert |x| == |y|;
    assert (a + x + b)[|a|..|a| + |x|] == x && (a + y + b)[|a|..|a| + |y|] == y;
  }

  lemma {:induction false} WithoutShortens(s: string, c: char)
    ensures |Without(s, c)| <= |s| && (|Without(s, c)| == |s| ==> c !in s)
    decreases |s|
  {
    if s != "" { WithoutShortens(s[1..], c); }
  }

  lemma MatchIsAfter(x: string, i: nat)
    requires i + 5 <= |x|
    ensures Matches(x, UUID_IS, i) <==> x[i + 4] == '=' && AfterUuid(x, i + 4)
  {
    assert x[i..i + 5] == x[i..i + 4] + [x[i + 4]];
    assert x[i..i + 5][..4] == x[i..i + 4] == x[(i + 4) - 4..i + 4];
    assert UUID_IS == "UUID" + ['='] && UUID_IS[..4] == "UUID";
  }

  lemma KeptWhole(x: string)
    ensures Kept(x) == x <==> Undisturbed(x)
  {
    if Kept(x) == x { KeptMeansUndisturbed(x); }
    if Undisturbed(x) { UndisturbedIsKept(x); }
  }

  lemma KeptMeansUndisturbed(x: string)
    requires Kept(x) == x
    ensures Undisturbed(x)
  {
    hide Specials, ReplaceUuid, Without, AfterUuid, Matches;
    WithoutShortens(x, '\"');
    WithoutNothing(x, '\"');
    forall i | 0 <= i < |x| ensures x[i] !in Specials() && Rewritten(x, i) == x[i] { KeptAt(x, i); }
    forall i: nat ensures !Matches(x, UUID_IS, i) {
      if i + 5 <= |x| { MatchIsAfter(x, i); } else { TooShort(x, i); }
    }
  }

  lemma TooShort(x: string, i: nat)
    requires i + 5 > |x|
    ensures !Matches(x, UUID_IS, i)
  {}

  /** A character that the name keeps is neither special nor replaced. */
  lemma KeptAt(x: string, i: nat)
    requires i < |x| && Without(x, '\"') == x && Kept(x) == x
    ensures x[i] !in Specials() && Rewritten(x, i) == x[i]
  {
    hide Specials, ReplaceUuid, Without, AfterUuid;
    ReplacedAt(x, i);
    var r := ReplaceUuid(x)[i];
    assert Clean(r, Specials()) == x[i];
    WordsAreNotSpecial('_');
    WordsAreNotSpecial('-');
  }

  lemma UndisturbedIsReplaced(x: string)
    requires Undisturbed(x)
    ensures Without(x, '\"') == x && ReplaceUuid(x) == x
  {
    hide ReplaceUuid, Without, AfterUuid, Matches, Specials;
    QuoteIsSpecial();
    WithoutNothing(x, '\"');
    forall i | 0 <= i < |x| ensures ReplaceUuid(x)[i] == x[i] {
      ReplacedAt(x, i);
      if i >= 4 { MatchIsAfter(x, i - 4); } else { NotAfter(x, i); }
    }
  }

  lemma UndisturbedIsKept(x: string)
    requires Undisturbed(x)
    ensures Kept(x) == x
  {
    hide ReplaceUuid, Without, Specials;
    UndisturbedIsReplaced(x);
  }

  lemma QuoteIsSpecial()
    ensures '\"' in Specials()
  {
    assert Specials()[2] == '\"';
  }

  lemma NotAfter(x: string, i: nat)
    requires i < 4 && i <= |x|
    ensures !AfterUuid(x, i)
  {}

  /** A UUID that holds UUID= does not come back. */
  lemma SecondUuidIsLost(uid: nat, device: string)
    ensures Parsed(Name(uid, UuidPath("UUID="), ""), device) != UuidPath("UUID=")
  {
    hide Name, Parsed, UuidPath;
    UuidComesBack(uid, "UUID=", device);
    assert "UUID="[0..5] == UUID_IS;
    assert Matches("UUID=", UUID_IS, 0);
  }

  /** Without the mark, the device is named. */
  lemma NoMarkNamesDevice(q: string, x: string)
    requires forall i: nat :: !Matches(q, "-UUID-", i)
    ensures Parsed(q, x) == x
  {}

  /** With it, what stands between the first mark and the last dash behind it, in quotes. */
  lemma MarkNamesUuid(a: string, y: string, z: string, x: string)
    requires (forall i | 0 <= i < |a| :: !Matches(a + "-UUID-" + (y + "-" + z), "-UUID-", i)) && '-' !in z
    ensures Parsed(a + "-UUID-" + (y + "-" + z), x) == "UUID=\"" + y + "\""
  {
    hide IndexFrom, Quoted;
    var b := y + "-" + z;
    MarkFirst(a, b);
    assert (a + MARK + b)[|a| + 6..] == b;
    QuotedStem(y, z);
  }

  /** Without a dash behind the mark, everything behind it, and the quotes stay open. */
  lemma MarkWithoutDash(a: string, b: string, x: string)
    requires (forall i | 0 <= i < |a| :: !Matches(a + "-UUID-" + b, "-UUID-", i)) && '-' !in b
    ensures Parsed(a + "-UUID-" + b, x) == "UUID=\"" + b
  {
    hide IndexFrom;
    MarkFirst(a, b);
    assert (a + MARK + b)[|a| + 6..] == b;
    assert BehindLast(b, '-', |b|) == 0;
  }

  lemma MarkFirst(a: string, b: string)
    requires forall i | 0 <= i < |a| :: !Matches(a + MARK + b, MARK, i)
    ensures IndexFrom(a + MARK + b, MARK, 0) == |a|
  {
    assert (a + MARK + b)[|a|..|a| + 6] == MARK;
    IndexIsFirst(a + MARK + b, MARK, 0, |a|);
  }

  /** The name of a UUID that the naming leaves as it is. */
  lemma NameOfUuid(uid: nat, x: string)
    requires Undisturbed(x)
    ensures Name(uid, "UUID=\"" + x + "\"", "") ==
      "/dev/mapper/zuluCrypt-" + Digits(uid) + "-UUID-" + x + "-" + Digits(Hash("UUID-" + x) as nat)
  {
    hide Name, Digits, Hash, ReplaceUuid, Without, Specials;
    UuidName(uid, x);
    KeptWhole(x);
    UndisturbedIsReplaced(x);
    UuidKey(x);
    assert Key(UuidPath(x)) == "UUID-" + x;
    var u, h := Digits(uid), PrintedHash(UuidPath(x));
    assert PREFIX + u + MARK + (x + "-" + h) == "/dev/mapper/zuluCrypt-" + u + "-UUID-" + x + "-" + h;
  }
}
