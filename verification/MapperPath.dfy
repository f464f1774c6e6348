/**
  The name under /dev/mapper that a volume is opened by: how it is built from the volume's path, and
  which volumes can share one.
 */
module MapperPath {
  import opened Sequences
  import opened PathHash

  const PREFIX: string := "/dev/mapper/zuluCrypt-"

  /** BASH_SPECIAL_CHARS, with the terminator that the loop over the array meets last. */
  function Specials(): string {
    "#;\"',\\`:!*?&$@(){}[]><|%~^ \n\0"
  }

  predicate IsDigit(c: char) {
    '0' <= c <= '9'
  }

  /** Characters of names that the shell does not treat in a special way. */
  predicate Word(c: char) {
    IsDigit(c) || 'A' <= c <= 'Z' || 'a' <= c <= 'z' || c == '-' || c == '/' || c == '_'
  }

  lemma WordsAreNotSpecial(c: char)
    requires Word(c)
    ensures c !in Specials()
  {
    hide Specials;
    if c in Specials() { SpecialsOnly(c); }
  }

  /** The special characters: the terminator, the line feed, and the printable ones of ASCII other than digits,
      letters and these six. */
  lemma SpecialsAre(c: char)
    ensures c in Specials() <==> c == '\0' || c == '\n' || (' ' <= c <= '~' && !Plain(c))
  {
    if c in Specials() { SpecialsOnly(c); }
    if c == '\0' || c == '\n' || (' ' <= c <= '~' && !Plain(c)) { SpecialsAll(c); }
  }

  predicate Plain(c: char) {
    '0' <= c <= '9' || 'A' <= c <= 'Z' || 'a' <= c <= 'z' || c in "+-./=_"
  }

  lemma SpecialsOnly(c: char)
    requires c in Specials()
    ensures c == '\0' || c == '\n' || (' ' <= c <= '~' && !Plain(c))
  {
    var i :| 0 <= i < |Specials()| && Specials()[i] == c;
    if i < 16 { FirstSpecials(i); } else { LastSpecials(i); }
  }

  lemma FirstSpecials(i: nat)
    requires i < 16 && i < |Specials()|
    ensures ' ' <= Specials()[i] <= '~' && !Plain(Specials()[i])
  {}

  lemma LastSpecials(i: nat)
    requires 16 <= i < |Specials()|
    ensures var c := Specials()[i]; c == '\0' || c == '\n' || (' ' <= c <= '~' && !Plain(c))
  {}

  lemma SpecialsAll(c: char)
    requires c == '\0' || c == '\n' || (' ' <= c <= '~' && !Plain(c))
    ensures c in Specials()
  {}

  //// Printing numbers

  function Digit(d: nat): char
    requires d < 10
  {
    ('0' as int + d) as char
  }

  /** QString::number */
  function Digits(n: nat): (s: string)
    ensures |s| > 0 && forall c | c in s :: IsDigit(c)
  {
    if n < 10 then [Digit(n)] else Digits(n / 10) + [Digit(n % 10)]
  }

  function Number(s: string): nat
    requires forall c | c in s :: IsDigit(c)
    decreases |s|
  {
    if s == "" then 0
    else
      assert forall c | c in s[..|s| - 1] :: c in s;
      assert IsDigit(s[|s| - 1]);
      10 * Number(s[..|s| - 1]) + (s[|s| - 1] as int - '0' as int)
  }

  lemma {:induction false} NumberOfDigits(n: nat)
    ensures Number(Digits(n)) == n
  {
    if n >= 10 {
      NumberOfDigits(n / 10);
      assert Digits(n)[..|Digits(n)| - 1] == Digits(n / 10);
    } else {
      assert Digits(n)[..0] == "";
    }
  }

  /** No number is printed with zeros in front. */
  lemma {:induction false} NoZeroInFront(n: nat)
    ensures Digits(n)[0] == '0' ==> n == 0 && Digits(n) == "0"
    decreases n
  {
    if n >= 10 { NoZeroInFront(n / 10); }
  }

  //// The pieces of the name

  /** QString::remove of a character. */
  function Without(s: string, c: char): string {
    if s == "" then "" else (if s[0] == c then "" else [s[0]]) + Without(s[1..], c)
  }

  const UUID_IS: string := "UUID="
  const UUID_DASH: string := "UUID-"

  /** replace( "UUID=","UUID-" ) */
  function ReplaceUuid(s: string): (r: string)
    ensures |r| == |s|
    decreases |s|
  {
    if UUID_IS <= s then UUID_DASH + ReplaceUuid(s[5..])
    else if s == "" then ""
    else [s[0]] + ReplaceUuid(s[1..])
  }

  predicate ByUuid(path: string) {
    UUID_IS <= path
  }

  /** The string that is hashed. */
  function Key(path: string): string {
    if ByUuid(path) then ReplaceUuid(Without(path, '\"')) else path
  }

  /** What comes between the user and the hash. */
  function Middle(path: string, component: string): string {
    if ByUuid(path) then "-" + Key(path)
    else (if component == "" then "-NAAN-" else component) + LastPart(path, '/')
  }

  function Clean(c: char, specials: string): char {
    if c in specials then '_' else c
  }

  function Cleaned(s: string, specials: string): (r: string)
    ensures |r| == |s| && forall i | 0 <= i < |s| :: r[i] == Clean(s[i], specials)
  {
    seq(|s|, i requires 0 <= i < |s| => Clean(s[i], specials))
  }

  /** The name without its hash, and the hash as it is printed. */
  function Stem(uid: nat, path: string, component: string): string {
    PREFIX + Digits(uid) + Middle(path, component)
  }

  function PrintedHash(path: string): string {
    Digits(Hash(Key(path)) as nat)
  }

  function Name(uid: nat, path: string, component: string): string {
    Cleaned(Stem(uid, path, component) + "-" + PrintedHash(path), Specials())
  }

  /** path.replace( it,'_' ) for every special character. */
  method CleanInPlace(s: string) returns (path: string)
    ensures path == Cleaned(s, Specials())
  {
    path := s;
    for k := 0 to |Specials()|
      invariant path == Cleaned(s, Specials()[..k])
    {
      var it := Specials()[k];
      assert Specials()[..k + 1] == Specials()[..k] + [it];
      path := seq(|path|, i requires 0 <= i < |path| => if path[i] == it then '_' else path[i]);
    }
    assert Specials()[..|Specials()|] == Specials();
  }

  /** utility::mapperPath */
  method MapperPath(uid: nat, r: string, component: string) returns (path: string)
    ensures path == Name(uid, r, component)
  {
    path := PREFIX + Digits(uid);
    var rpath := r;
    if UUID_IS <= rpath {
      rpath := Without(rpath, '\"');
      rpath := ReplaceUuid(rpath);
      var hash := HashPath(rpath);
      path := path + ("-" + rpath) + "-" + Digits(hash as nat);
    } else {
      var hash := HashPath(rpath);
      if component == "" {
        path := path + ("-NAAN-" + LastPart(rpath, '/')) + "-" + Digits(hash as nat);
      } else {
        path := path + (component + LastPart(rpath, '/')) + "-" + Digits(hash as nat);
      }
    }
    path := CleanInPlace(path);
  }
}
