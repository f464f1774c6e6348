/**
  The command line client of the wallet: files kept under their base names. A run of the client opens
  the wallet, carries out one command and closes it.
 */
module ZuluSafe {
  import opened Bytes
  import opened Sequences
  import opened WalletNodes
  import opened OpenWallet

  /** A C string without its terminator; with it, its length fits 32 bits. */
  type Path = p: seq<byte> | 0 !in p && |p| + 1 < U32 witness []

  const SLASH: byte := 0x2F

  /** The file system that the commands see: regular files, and the paths where a file can be made. */
  class FileSystem {
    var files: map<Path, seq<byte>>
    const creatable: Path -> bool

    constructor (files: map<Path, seq<byte>>, creatable: Path -> bool)
      ensures this.files == files && this.creatable == creatable
    {
      this.files, this.creatable := files, creatable;
    }
  }

  //// Names and keys

  /** _fileName: what follows the last slash. */
  function FileName(path: Path): (name: Path)
    ensures SLASH !in name
  {
    LastPart(path, SLASH)
  }

  lemma FileNameOfName(name: Path)
    requires SLASH !in name
    ensures FileName(name) == name
  {
    LastPartIs([], SLASH, name);
  }

  /** The path of a file in a directory. */
  predicate IsIn(path: Path, dir: seq<byte>, name: Path) {
    path == dir + ['/' as int] + name && '/' as int !in name
  }

  /** A file goes by its own name, whatever directory it is in. */
  lemma FileNameInDirectory(path: Path, dir: seq<byte>, name: Path)
    requires IsIn(path, dir, name)
    ensures FileName(path) == name
  {
    LastPartIs(dir, SLASH, name);
  }

  /** The _file macro: a string and its terminator. */
  function KeyOf(name: Path): (key: seq<byte>)
    ensures 0 < |key| < U32
  {
    name + [0]
  }

  /** The key of the path's file. */
  function FileKey(path: Path): seq<byte> {
    KeyOf(FileName(path))
  }

  /** A file's bytes as the wallet gets them: the size is passed as a 32-bit integer. */
  function Value(content: seq<byte>): (v: seq<byte>)
    ensures |v| < U32 && v <= content
    ensures v == content <==> |content| < U32
    ensures (|content| - |v|) % U32 == 0
  {
    content[..|content| % U32]
  }

  /** The entry was stored by this client: its key is a file name and the terminator. */
  predicate Named(e: Entry) {
    && 0 < |e.key| < U32
    && 0 !in e.key[..|e.key| - 1] && e.key[|e.key| - 1] == 0 && SLASH !in e.key
  }

  predicate AllNamed(es: seq<Entry>) {
    forall e | e in es :: Named(e)
  }

  function NameOf(e: Entry): (name: Path)
    requires Named(e)
    ensures KeyOf(name) == e.key && SLASH !in name
  {
    assert e.key == e.key[..|e.key| - 1] + [0];
    e.key[..|e.key| - 1]
  }

  /** A key used as a C string: the bytes before the first zero. */
  function CString(key: seq<byte>): (s: Path)
    requires |key| < U32 && 0 in key
    ensures |s| < |key| && key[..|s|] == s && key[|s|] == 0
  {
    if key[0] == 0 then [] else [key[0]] + CString(key[1..])
  }

  lemma {:induction false} CStringOfKey(name: Path)
    ensures CString(KeyOf(name)) == name
    decreases |name|
  {
    if name != [] {
      CStringOfKey(name[1..]);
      assert KeyOf(name)[1..] == KeyOf(name[1..]);
    }
  }

  //// The commands on a plain sequence of entries

  /** A change of the wallet, with the files as they are when it is made. Adding a whole directory is
      adding its regular files one after the other. */
  datatype Step = AddPath(path: Path, files: map<Path, seq<byte>>) | DeletePath(path: Path)

  predicate Adds(es: seq<Entry>, path: Path, files: map<Path, seq<byte>>) {
    !HasKey(es, FileKey(path)) && path in files
  }

  function Stepped(s: WalletState, step: Step): WalletState {
    match step
    case AddPath(path, files) =>
      if Adds(s.entries, path, files) then Added(s, FileKey(path), Value(files[path])) else s
    case DeletePath(path) => Deleted(s, FileKey(path))
  }

  function SteppedAll(s: WalletState, steps: seq<Step>): WalletState
    decreases |steps|
  {
    if steps == [] then s else SteppedAll(Stepped(s, steps[0]), steps[1..])
  }

  //// The commands

  /** _addFileToWallet_1, for a file that cannot be mapped: its name reaches the wallet by the same key. */
  method AddUnmapped(w: Wallet, name: Path, content: seq<byte>) returns (k: int)
    requires w.Valid()
    modifies w
    ensures w.Valid() && (w.data == old(w.data) || fresh(w.data))
    ensures w.State() == Added(old(w.State()), FileKey(name), Value(content))
    ensures k == if AddResult(old(w.State()), FileKey(name), Value(content)) == NoError then 0 else 1
  {
    var r := w.AddKey(FileKey(name), Value(content));
    k := if r != NoError then 1 else 0;
  }

  /** _addFileToWallet; `mapped` says whether mmap succeeds. */
  method AddFile(w: Wallet, fs: FileSystem, path: Path, mapped: bool) returns (k: int)
    requires w.Valid()
    modifies w
    ensures w.Valid() && (w.data == old(w.data) || fresh(w.data))
    ensures w.State() == Stepped(old(w.State()), AddPath(path, fs.files))
    ensures k == if Adds(old(w.Entries()), path, fs.files)
                    && AddResult(old(w.State()), FileKey(path), Value(fs.files[path])) == NoError then 0 else 1
  {
    hide ParseAt, KeyOf, Value, FileName, AddResult;
    var name := FileName(path);
    var has := w.HasKey(KeyOf(name));
    if has { return 1; }
    if path !in fs.files { return 1; }
    if !mapped {
      FileNameOfName(name);
      k := AddUnmapped(w, name, fs.files[path]);
    } else {
      var r := w.AddKey(KeyOf(name), Value(fs.files[path]));
      k := if r != NoError then 1 else 0;
    }
  }

  /** _deleteFileFromWallet */
  method DeleteFile(w: Wallet, path: Path) returns (k: int)
    requires w.Valid()
    modifies w, w.data
    ensures w.Valid() && (w.data == old(w.data) || fresh(w.data))
    ensures w.State() == Stepped(old(w.State()), DeletePath(path)) && k == 0
  {
    var r := w.DeleteKey(FileKey(path));
    k := 0;
  }

  const PATH_MAX: nat := 4096

  /** snprintf( path_1,PATH_MAX,"%s/%s",.. ) */
  function Join(dir: Path, name: Path): (path: Path)
    ensures path <= dir + ['/' as int] + name
    ensures |path| == if |dir| + 1 + |name| <= 4095 then |dir| + 1 + |name| else 4095
  {
    var whole := dir + [SLASH] + name;
    if |whole| < PATH_MAX then whole else whole[..PATH_MAX - 1]
  }

  function StepsOf(dir: Path, names: seq<Path>, files: map<Path, seq<byte>>): seq<Step>
    decreases |names|
  {
    if names == [] then []
    else
      var path, rest := Join(dir, names[0]), StepsOf(dir, names[1..], files);
      if path in files then [AddPath(path, files)] + rest else rest
  }

  /** _addAllFilesToTheWallet; `names` are what readdir finds, None for a directory that cannot be opened. */
  method AddAllFiles(w: Wallet, fs: FileSystem, dir: Path, names: Option<seq<Path>>, mapped: Path -> bool)
    returns (k: int)
    requires w.Valid()
    modifies w
    ensures w.Valid() && (w.data == old(w.data) || fresh(w.data))
    ensures k == if names.None? then 1 else 0
    ensures w.State() ==
      if names.None? then old(w.State()) else SteppedAll(old(w.State()), StepsOf(dir, names.value, fs.files))
  {
    if names.None? { return 1; }
    var rest := names.value;
    while rest != []
      invariant w.Valid() && (w.data == old(w.data) || fresh(w.data))
      invariant SteppedAll(w.State(), StepsOf(dir, rest, fs.files))
                == SteppedAll(old(w.State()), StepsOf(dir, names.value, fs.files))
      decreases |rest|
    {
      var path := Join(dir, rest[0]);
      if path in fs.files { var r := AddFile(w, fs, path, mapped(path)); }
      rest := rest[1..];
    }
    k := 0;
  }

  /** A file made at a path that is free. */
  function Made(files: map<Path, seq<byte>>, creatable: Path -> bool, path: Path, content: seq<byte>)
    : map<Path, seq<byte>>
  {
    if path in files || !creatable(path) then files else files[path := content]
  }

  /** _getFileFromWallet */
  method GetFile(w: Wallet, fs: FileSystem, path: Path) returns (k: int)
    requires w.Valid()
    modifies fs
    ensures match FirstWithKey(w.Entries(), FileKey(path))
            case None => k == 1 && fs.files == old(fs.files)
            case Some(e) =>
              && fs.files == Made(old(fs.files), fs.creatable, path, e.value)
              && k == if path !in old(fs.files) && fs.creatable(path) then 0 else 1
  {
    var r := w.ReadKeyValue(FileKey(path));
    if r.None? { return 1; }
    if path in fs.files { return 1; }
    if !fs.creatable(path) { return 1; }
    fs.files := fs.files[path := r.value.value];
    k := 0;
  }

  //// The wallet as a map from file names to contents

  /** The files that the entries keep; for a key that occurs twice, its first value. */
  function Kept(es: seq<Entry>): map<Path, seq<byte>>
    requires AllNamed(es)
  {
    if es == [] then map[] else Kept(es[1..])[NameOf(es[0]) := es[0].value]
  }

  ghost predicate Distinct(es: seq<Entry>) {
    forall i, j | 0 <= i < j < |es| :: es[i].key != es[j].key
  }

  /** What every command keeps: each key is a file name, and no two entries have the same. */
  ghost predicate IsMap(es: seq<Entry>) {
    AllNamed(es) && Distinct(es)
  }

  lemma SameKey(e: Entry, name: Path)
    requires Named(e)
    ensures e.key == KeyOf(name) <==> NameOf(e) == name
  {
    if e.key == KeyOf(name) { assert KeyOf(name)[..|name|] == name; }
  }

  /** Looking a name up in the entries is looking it up in the map. */
  lemma {:induction false} KeptLookup(es: seq<Entry>, name: Path)
    requires AllNamed(es)
    ensures match FirstWithKey(es, KeyOf(name))
            case None => name !in Kept(es)
            case Some(e) => name in Kept(es) && Kept(es)[name] == e.value
    decreases |es|
  {
    hide Named, KeyOf;
    if es != [] {
      SameKey(es[0], name);
      KeptLookup(es[1..], name);
    }
  }

  lemma KeptHas(es: seq<Entry>, name: Path)
    requires AllNamed(es)
    ensures name in Kept(es) <==> HasKey(es, KeyOf(name))
  {}

  lemma {:induction false} KeptSnoc(es: seq<Entry>, e: Entry)
    requires AllNamed(es) && Named(e)
    ensures AllNamed(es + [e])
    ensures Kept(es + [e]) == if NameOf(e) in Kept(es) then Kept(es) else Kept(es)[NameOf(e) := e.value]
    decreases |es|
  {
    hide Named;
    if es == [] {
      assert es + [e] == [e] && [e][1..] == [];
    } else {
      TakeDropAppend(es, [e], 1);
      KeptSnoc(es[1..], e);
    }
  }

  lemma DistinctWithout(es: seq<Entry>, i: nat)
    requires i < |es| && Distinct(es)
    ensures Distinct(es[..i] + es[i + 1..])
  {}

  lemma RemoveKeepsMap(es: seq<Entry>, key: seq<byte>)
    requires IsMap(es)
    ensures IsMap(RemoveFirst(es, key))
  {
    hide Named, RemoveFirst, FirstWithKey, Distinct;
    var i := FirstKeyPlace(es, key);
    if i < |es| {
      DistinctWithout(es, i);
      forall e | e in es[..i] + es[i + 1..] ensures Named(e) { assert e in es; }
    }
  }

  lemma KeptCons(e: Entry, es: seq<Entry>)
    requires Named(e) && AllNamed(es)
    ensures AllNamed([e] + es) && Kept([e] + es) == Kept(es)[NameOf(e) := e.value]
  {}

  lemma {:induction false} KeptRemove(es: seq<Entry>, name: Path)
    requires IsMap(es)
    ensures IsMap(RemoveFirst(es, KeyOf(name))) && Kept(RemoveFirst(es, KeyOf(name))) == Kept(es) - {name}
    decreases |es|
  {
    hide Named, KeyOf;
    var key := KeyOf(name);
    RemoveKeepsMap(es, key);
    if es != [] {
      var e, rest := es[0], es[1..];
      SameKey(e, name);
      KeptHas(rest, name);
      if e.key != key {
        KeptRemove(rest, name);
        KeptCons(e, RemoveFirst(rest, key));
      }
    }
  }

  lemma DistinctSnoc(es: seq<Entry>, e: Entry)
    requires Distinct(es) && !HasKey(es, e.key)
    ensures Distinct(es + [e])
  {}

  //// Every run keeps a map

  /** The step does not run out of memory. */
  predicate Room(s: WalletState, step: Step) {
    step.AddPath? && Adds(s.entries, step.path, step.files) ==>
      AddResult(s, FileKey(step.path), Value(step.files[step.path])) == NoError
  }

  predicate RoomAll(s: WalletState, steps: seq<Step>)
    decreases |steps|
  {
    steps == [] || (Room(s, steps[0]) && RoomAll(Stepped(s, steps[0]), steps[1..]))
  }

  /** The same on a map: adding leaves a kept file alone, deleting takes the name out. */
  function MapStepped(m: map<Path, seq<byte>>, step: Step): map<Path, seq<byte>> {
    var name := FileName(step.path);
    match step
    case AddPath(path, files) => if name in m || path !in files then m else m[name := Value(files[path])]
    case DeletePath(_) => m - {name}
  }

  function MapSteppedAll(m: map<Path, seq<byte>>, steps: seq<Step>): map<Path, seq<byte>>
    decreases |steps|
  {
    if steps == [] then m else MapSteppedAll(MapStepped(m, steps[0]), steps[1..])
  }

  lemma KeyIsNamed(path: Path, value: seq<byte>)
    ensures Named(Entry(FileKey(path), value)) && NameOf(Entry(FileKey(path), value)) == FileName(path)
  {}

  lemma StepKeepsMap(s: WalletState, step: Step)
    requires IsMap(s.entries)
    ensures IsMap(Stepped(s, step).entries)
    ensures Room(s, step) ==> Kept(Stepped(s, step).entries) == MapStepped(Kept(s.entries), step)
    ensures !Room(s, step) ==> Stepped(s, step) == s
  {
    hide Named, KeyOf, Kept, Value;
    var es, name := s.entries, FileName(step.path);
    KeptHas(es, name);
    match step
    case AddPath(path, files) =>
      if path in files {
        var e := Entry(FileKey(path), Value(files[path]));
        KeyIsNamed(path, e.value);
        if Adds(es, path, files) {
          KeptSnoc(es, e);
          DistinctSnoc(es, e);
        }
      }
    case DeletePath(path) =>
      KeptRemove(es, name);
      HasKeyIffFound(es, FileKey(path));
  }

  /** Every run of commands keeps the keys distinct; and the entries it ends with are exactly the map that
      the same commands make, as long as memory lasts. */
  lemma {:induction false} RunKeepsMap(s: WalletState, steps: seq<Step>)
    requires IsMap(s.entries)
    ensures IsMap(SteppedAll(s, steps).entries)
    ensures RoomAll(s, steps) ==> Kept(SteppedAll(s, steps).entries) == MapSteppedAll(Kept(s.entries), steps)
    decreases |steps|
  {
    hide IsMap, Room, Stepped, MapStepped, Kept;
    assert IsMap(s.entries) ==> AllNamed(s.entries) by { MapIsNamed(s.entries); }
    if steps != [] {
      StepKeepsMap(s, steps[0]);
      RunKeepsMap(Stepped(s, steps[0]), steps[1..]);
    }
  }

  lemma MapIsNamed(es: seq<Entry>)
    ensures IsMap(es) ==> AllNamed(es)
  {}

  /** Every directory's files are kept, each under its own name. */
  lemma {:induction false} AllFilesKept(m: map<Path, seq<byte>>, dir: Path, names: seq<Path>,
      files: map<Path, seq<byte>>)
    requires forall n | n in names :: '/' as int !in n && |dir| + 1 + |n| < 4096
    ensures var r := MapSteppedAll(m, StepsOf(dir, names, files));
            && (forall n: Path :: n in r <==> n in m || (n in names && dir + ['/' as int] + n in files))
            && (forall n: Path | n in m :: r[n] == m[n])
            && (forall n: Path | n in r && n !in m :: r[n] == Value(files[dir + ['/' as int] + n]))
    decreases |names|
  {
    if names != [] {
      var n, rest := names[0], names[1..];
      var path := Join(dir, n);
      assert path == dir + ['/' as int] + n;
      FileNameInDirectory(path, dir, n);
      var next := if path in files then MapStepped(m, AddPath(path, files)) else m;
      AllFilesKept(next, dir, rest, files);
    }
  }

  //// Taking the files out

  /** The part of a map whose paths can be made. */
  function Creatable(m: map<Path, seq<byte>>, creatable: Path -> bool): map<Path, seq<byte>> {
    map p | p in m && creatable(p) :: m[p]
  }

  /** The entry's key can be used as a C string. */
  predicate Terminated(e: Entry) {
    |e.key| < U32 && 0 in e.key
  }

  predicate AllTerminated(es: seq<Entry>) {
    forall i | 0 <= i < |es| :: Terminated(es[i])
  }

  function TextOf(e: Entry): Path
    requires Terminated(e)
  {
    CString(e.key)
  }

  /** Some entry's key, used as a C string, is the path. */
  ghost predicate Shows(es: seq<Entry>, path: Path) {
    exists e | e in es :: Terminated(e) && TextOf(e) == path
  }

  /** The files after the entries seen have been taken out of the wallet: those from before, and one for each
      path shown that is free, can be made and finds an entry under its base name, with that entry's value. */
  ghost predicate TakenOut(now: map<Path, seq<byte>>, before: map<Path, seq<byte>>, creatable: Path -> bool,
      all: seq<Entry>, seen: seq<Entry>)
  {
    && (forall p: Path :: p in now <==>
          p in before || (creatable(p) && Shows(seen, p) && FirstWithKey(all, FileKey(p)).Some?))
    && (forall p: Path | p in before :: now[p] == before[p])
    && (forall p: Path | p in now && p !in before :: FirstWithKey(all, FileKey(p)) == Some(Entry(FileKey(p), now[p])))
  }

  /** What _getFileFromWallet does to the files. */
  function Got(files: map<Path, seq<byte>>, creatable: Path -> bool, all: seq<Entry>, path: Path): map<Path, seq<byte>> {
    match FirstWithKey(all, FileKey(path))
    case None => files
    case Some(e) => Made(files, creatable, path, e.value)
  }

  lemma NothingTakenOut(before: map<Path, seq<byte>>, creatable: Path -> bool, all: seq<Entry>)
    ensures TakenOut(before, before, creatable, all, [])
  {}

  lemma ShowsMore(seen: seq<Entry>, e: Entry, p: Path)
    requires Terminated(e)
    ensures Shows(seen + [e], p) <==> Shows(seen, p) || TextOf(e) == p
  {
    hide TextOf;
    if Shows(seen, p) {
      var x :| x in seen && Terminated(x) && TextOf(x) == p;
      assert x in seen + [e];
    }
    assert e in seen + [e];
  }

  lemma FoundHasKey(es: seq<Entry>, key: seq<byte>)
    ensures FirstWithKey(es, key).Some? ==> FirstWithKey(es, key).value.key == key
  {}

  /** One turn of the loop below. */
  lemma TakeOne(now: map<Path, seq<byte>>, before: map<Path, seq<byte>>, creatable: Path -> bool,
      all: seq<Entry>, seen: seq<Entry>, e: Entry)
    requires TakenOut(now, before, creatable, all, seen) && Terminated(e)
    ensures TakenOut(Got(now, creatable, all, TextOf(e)), before, creatable, all, seen + [e])
  {
    hide TextOf, FirstWithKey, FileKey, Shows, Terminated;
    var path := TextOf(e);
    FoundHasKey(all, FileKey(path));
    forall p: Path ensures Shows(seen + [e], p) <==> Shows(seen, p) || path == p { ShowsMore(seen, e, p); }
  }

  lemma NamedIsTerminated(e: Entry)
    requires Named(e)
    ensures Terminated(e) && TextOf(e) == NameOf(e)
  {
    assert e.key[|e.key| - 1] == 0;
    CStringOfKey(NameOf(e));
  }

  lemma NamedShows(es: seq<Entry>, p: Path)
    requires AllNamed(es)
    ensures Shows(es, p) <==> p in Kept(es)
    ensures p in Kept(es) ==> FileKey(p) == KeyOf(p)
  {
    hide Named, TextOf, KeyOf, Kept, Terminated;
    KeptHas(es, p);
    if Shows(es, p) {
      var e :| e in es && Terminated(e) && TextOf(e) == p;
      NamedIsTerminated(e);
    }
    if HasKey(es, KeyOf(p)) {
      var e :| e in es && e.key == KeyOf(p);
      SameKey(e, p);
      NamedIsTerminated(e);
      FileNameOfName(p);
    }
  }

  /** When the wallet holds file names, that is the map of kept files where paths are free. */
  lemma NamedTakenOut(now: map<Path, seq<byte>>, before: map<Path, seq<byte>>, creatable: Path -> bool, es: seq<Entry>)
    requires AllNamed(es) && TakenOut(now, before, creatable, es, es)
    ensures now == Creatable(Kept(es), creatable) + before
  {
    hide Named, AllNamed, KeyOf, FileKey, Kept, Shows, FirstWithKey;
    forall p: Path
      ensures p in now <==> p in Creatable(Kept(es), creatable) + before
      ensures p in now ==> now[p] == (Creatable(Kept(es), creatable) + before)[p]
    {
      NamedShows(es, p);
      KeptLookup(es, p);
    }
  }

  lemma NamedAreTerminated(es: seq<Entry>)
    ensures AllNamed(es) ==> AllTerminated(es)
  {
    hide Named, Terminated;
    if AllNamed(es) {
      forall i | 0 <= i < |es| ensures Terminated(es[i]) {
        assert es[i] in es;
        NamedIsTerminated(es[i]);
      }
    }
  }

  /** _getAllFilesFromWallet, on keys that are C strings. */
  method GetAllFiles(w: Wallet, fs: FileSystem) returns (k: int)
    requires w.Valid() && AllTerminated(w.Entries())
    modifies fs
    ensures k == 0
    ensures TakenOut(fs.files, old(fs.files), fs.creatable, w.Entries(), w.Entries())
    ensures AllNamed(w.Entries()) ==> fs.files == Creatable(Kept(w.Entries()), fs.creatable) + old(fs.files)
  {
    hide ParseAt, KeyLength, ValueLength, AllNamed, Terminated, Made, Creatable, Kept, TextOf, FirstWithKey, FileKey,
      TakenOut;
    var iter := new Iterator();
    w.Start();
    ghost var seen, es := [], w.Entries();
    NothingTakenOut(fs.files, fs.creatable, es);
    while true
      invariant iter.pos <= w.size && w.Reached(iter.pos, seen) && w.Entries() == es
      invariant TakenOut(fs.files, old(fs.files), fs.creatable, es, seen)
      decreases w.size - iter.pos
    {
      ghost var at := iter.pos;
      var more := w.IterReadValue(iter);
      if !more { break; }
      assert iter.entry == es[|seen|];
      TakeOne(fs.files, old(fs.files), fs.creatable, es, seen, iter.entry);
      var r := GetFile(w, fs, TextOf(iter.entry));
      w.Advance(at, seen, iter.entry, iter.pos);
      seen := seen + [iter.entry];
    }
    w.Finish(seen);
    if AllNamed(es) { NamedTakenOut(fs.files, old(fs.files), fs.creatable, es); }
    k := 0;
  }

  /** _printListOfManagedFiles, on keys that are C strings. */
  method ListFiles(w: Wallet) returns (names: seq<Path>)
    requires w.Valid() && AllTerminated(w.Entries())
    ensures |names| == w.count && forall i | 0 <= i < |names| :: names[i] == TextOf(w.Entries()[i])
    ensures AllNamed(w.Entries()) ==> forall i | 0 <= i < |names| :: KeyOf(names[i]) == w.Entries()[i].key
  {
    hide ParseAt, KeyLength, ValueLength, Named, Terminated, TextOf, KeyOf;
    var seen := w.Iterate();
    names := [];
    for i := 0 to |seen|
      invariant |names| == i && forall j | 0 <= j < i :: names[j] == TextOf(seen[j])
    {
      names := names + [TextOf(seen[i])];
    }
    forall i | 0 <= i < |names| && AllNamed(seen) ensures KeyOf(names[i]) == seen[i].key {
      assert seen[i] in seen;
      NamedIsTerminated(seen[i]);
    }
  }

  //// What runs leave alone

  predicate Deletes(step: Step, name: Path) {
    step.DeletePath? && FileName(step.path) == name
  }

  predicate AddsUnder(step: Step, name: Path) {
    step.AddPath? && FileName(step.path) == name
  }

  lemma {:induction false} RunLeaves(s: WalletState, steps: seq<Step>, name: Path)
    requires IsMap(s.entries)
    ensures IsMap(SteppedAll(s, steps).entries)
    ensures var m, n := Kept(s.entries), Kept(SteppedAll(s, steps).entries);
            && (name in m && (forall st | st in steps :: !Deletes(st, name)) ==> name in n && n[name] == m[name])
            && (name !in m && (forall st | st in steps :: !AddsUnder(st, name)) ==> name !in n)
    decreases |steps|
  {
    hide IsMap, Room, Stepped, Kept, FileName, Value;
    MapIsNamed(s.entries);
    if steps != [] {
      var t := Stepped(s, steps[0]);
      StepKeepsMap(s, steps[0]);
      MapIsNamed(t.entries);
      RunLeaves(t, steps[1..], name);
      assert steps[0] in steps;
      assert forall st | st in steps[1..] :: st in steps;
    }
  }

  /** A file that was added comes back byte for byte, whatever else is added, deleted or added again, until
      its name is deleted; bytes beyond 32 bits of size are all that can be missing. */
  lemma AddedComesBack(s: WalletState, path: Path, files: map<Path, seq<byte>>, steps: seq<Step>)
    requires IsMap(s.entries) && Adds(s.entries, path, files) && Room(s, AddPath(path, files))
    requires forall st | st in steps :: !Deletes(st, FileName(path))
    ensures var t := SteppedAll(Stepped(s, AddPath(path, files)), steps);
            var found := FirstWithKey(t.entries, FileKey(path));
            && found.Some? && found.value.value == Value(files[path])
            && (|files[path]| < U32 ==> found.value.value == files[path])
  {
    hide IsMap, Room, Stepped, Kept, FileName, KeyOf, SteppedAll;
    var step, name := AddPath(path, files), FileName(path);
    var u := Stepped(s, step);
    MapIsNamed(s.entries);
    StepKeepsMap(s, step);
    KeptHas(s.entries, name);
    RunLeaves(u, steps, name);
    var t := SteppedAll(u, steps);
    MapIsNamed(u.entries);
    MapIsNamed(t.entries);
    KeptLookup(t.entries, name);
  }

  /** A name that was deleted is absent until a file is added under it. */
  lemma DeletedIsGone(s: WalletState, path: Path, steps: seq<Step>)
    requires IsMap(s.entries) && forall st | st in steps :: !AddsUnder(st, FileName(path))
    ensures !HasKey(SteppedAll(Stepped(s, DeletePath(path)), steps).entries, FileKey(path))
  {
    hide IsMap, Stepped, Kept, FileName, KeyOf, SteppedAll;
    var step, name := DeletePath(path), FileName(path);
    var u := Stepped(s, step);
    MapIsNamed(s.entries);
    StepKeepsMap(s, step);
    RunLeaves(u, steps, name);
    var t := SteppedAll(u, steps);
    MapIsNamed(u.entries);
    MapIsNamed(t.entries);
    KeptHas(t.entries, name);
  }

  /** Files of different names, in any directories, are kept side by side, each under its name. */
  lemma KeptApart(s: WalletState, p: Path, d: seq<byte>, m: Path, q: Path, e: seq<byte>, n: Path,
      files: map<Path, seq<byte>>)
    requires IsMap(s.entries) && IsIn(p, d, m) && IsIn(q, e, n) && m != n && p in files && q in files
    requires !HasKey(s.entries, m + [0]) && !HasKey(s.entries, n + [0])
    requires RoomAll(s, [AddPath(p, files), AddPath(q, files)])
    ensures var t := SteppedAll(s, [AddPath(p, files), AddPath(q, files)]);
            && FirstWithKey(t.entries, m + [0]) == Some(Entry(m + [0], Value(files[p])))
            && FirstWithKey(t.entries, n + [0]) == Some(Entry(n + [0], Value(files[q])))
            && |t.entries| == |s.entries| + 2
  {
    hide HasKey, FirstWithKey, FileName, Value;
    FileNameInDirectory(p, d, m);
    FileNameInDirectory(q, e, n);
    var a, b := AddPath(p, files), AddPath(q, files);
    var x, y := Entry(m + [0], Value(files[p])), Entry(n + [0], Value(files[q]));
    assert x.key[..|m|] == m && y.key[..|n|] == n;
    assert [a, b][1..] == [b] && [b][1..] == [];
    var u := Stepped(s, a);
    assert RoomAll(u, [b]);
    assert u.entries == s.entries + [x];
    FoundSnoc(s.entries, x, y.key);
    FoundSnoc(s.entries, x, x.key);
    var t := Stepped(u, b);
    assert t.entries == u.entries + [y];
    FoundSnoc(u.entries, y, y.key);
    FoundSnoc(u.entries, y, x.key);
    assert SteppedAll(s, [a, b]) == SteppedAll(u, [b]) == SteppedAll(t, []) == t;
  }

  lemma {:induction false} FoundSnoc(es: seq<Entry>, e: Entry, key: seq<byte>)
    ensures FirstWithKey(es + [e], key) ==
      if HasKey(es, key) then FirstWithKey(es, key) else if e.key == key then Some(e) else None
    ensures HasKey(es + [e], key) <==> HasKey(es, key) || e.key == key
    decreases |es|
  {
    if es == [] {
      assert es + [e] == [e];
    } else {
      TakeDropAppend(es, [e], 1);
      FoundSnoc(es[1..], e, key);
    }
  }

  /** A second file of the same name, in whatever directory, is not added. */
  lemma SameNameRefused(s: WalletState, p: Path, d: seq<byte>, q: Path, e: seq<byte>, n: Path,
      files: map<Path, seq<byte>>)
    requires IsIn(p, d, n) && IsIn(q, e, n) && HasKey(s.entries, n + [0])
    ensures Stepped(s, AddPath(q, files)) == s == Stepped(s, AddPath(p, files))
  {
    FileNameInDirectory(p, d, n);
    FileNameInDirectory(q, e, n);
  }
}
