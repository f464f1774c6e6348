/**
  Whole lives of a wallet under its command line client: every run of the client is a session, and what
  the file holds is the map that the same commands make on a plain map.
 */
module ClientLives {
  import opened Bytes
  import opened Sequences
  import opened Cbc
  import opened WalletNodes
  import opened OpenWallet
  import opened WalletFile
  import opened WalletSessions
  import opened ZuluSafe

  /** The calls that a command makes on the wallet. */
  function OpsOf(es: seq<Entry>, step: Step): seq<Op> {
    match step
    case AddPath(path, files) =>
      if Adds(es, path, files) then [WalletSessions.Add(FileKey(path), Value(files[path]))] else []
    case DeletePath(path) => [WalletSessions.Delete(FileKey(path))]
  }

  function OpsOfAll(s: WalletState, steps: seq<Step>): seq<Op>
    decreases |steps|
  {
    if steps == [] then [] else OpsOf(s.entries, steps[0]) + OpsOfAll(Stepped(s, steps[0]), steps[1..])
  }

  /** One run of the client: its steps, and what closing the wallet does not decide itself. */
  datatype Invocation = Invocation(steps: seq<Step>, iv: Block, fill: HeaderFill, pad: nat -> byte, stale: seq<byte>)

  function SessionsOf(s: WalletState, invocations: seq<Invocation>): seq<Session>
    decreases |invocations|
  {
    if invocations == [] then []
    else
      var i := invocations[0];
      [Session(OpsOfAll(s, i.steps), i.iv, i.fill, i.pad, i.stale)]
      + SessionsOf(SteppedAll(s, i.steps), invocations[1..])
  }

  function StepsIn(invocations: seq<Invocation>): seq<Step>
    decreases |invocations|
  {
    if invocations == [] then [] else invocations[0].steps + StepsIn(invocations[1..])
  }

  predicate QuietOp(op: Op) {
    Passable(op) && !op.ChangePassword?
  }

  lemma StepIsOutcome(s: WalletState, step: Step)
    ensures Stepped(s, step).entries == OutcomeAll(s.entries, OpsOf(s.entries, step))
    ensures forall op | op in OpsOf(s.entries, step) :: QuietOp(op)
  {
    hide FileName, KeyOf, Value, RemoveFirst, HasKey;
    HasKeyIffFound(s.entries, FileKey(step.path));
    var ops := OpsOf(s.entries, step);
    if ops != [] {
      assert ops[1..] == [];
      assert OutcomeAll(s.entries, ops) == Outcome(s.entries, ops[0]);
    }
  }

  lemma {:induction false} StepsAreOutcome(s: WalletState, steps: seq<Step>)
    ensures SteppedAll(s, steps).entries == OutcomeAll(s.entries, OpsOfAll(s, steps))
    ensures forall op | op in OpsOfAll(s, steps) :: QuietOp(op)
    decreases |steps|
  {
    hide Stepped, OpsOf, OutcomeAll, QuietOp;
    if steps == [] {
      NoOps(s.entries, []);
    } else {
      var t := Stepped(s, steps[0]);
      StepIsOutcome(s, steps[0]);
      StepsAreOutcome(t, steps[1..]);
      OutcomeAllAppend(s.entries, OpsOf(s.entries, steps[0]), OpsOfAll(t, steps[1..]));
    }
  }

  lemma {:induction false} SteppedAllAppend(s: WalletState, a: seq<Step>, b: seq<Step>)
    ensures SteppedAll(s, a + b) == SteppedAll(SteppedAll(s, a), b)
    decreases |a|
  {
    hide Stepped;
    if a == [] {
      assert a + b == b;
    } else {
      TakeDropAppend(a, b, 1);
      SteppedAllAppend(Stepped(s, a[0]), a[1..], b);
    }
  }

  lemma {:induction false} SessionsAreSteps(s: WalletState, invocations: seq<Invocation>)
    ensures OutcomeAll(s.entries, AllOps(SessionsOf(s, invocations))) == SteppedAll(s, StepsIn(invocations)).entries
    ensures forall op | op in AllOps(SessionsOf(s, invocations)) :: QuietOp(op)
    decreases |invocations|
  {
    hide SteppedAll, OpsOfAll, OutcomeAll, QuietOp;
    if invocations == [] {
      NoOps(s.entries, []);
      NoSteps(s);
    } else {
      var i, rest := invocations[0], invocations[1..];
      var t := SteppedAll(s, i.steps);
      StepsAreOutcome(s, i.steps);
      SessionsAreSteps(t, rest);
      SteppedAllAppend(s, i.steps, StepsIn(rest));
      var sessions := SessionsOf(s, invocations);
      assert sessions[1..] == SessionsOf(t, rest);
      OutcomeAllAppend(s.entries, OpsOfAll(s, i.steps), AllOps(SessionsOf(t, rest)));
    }
  }

  lemma NoSteps(s: WalletState)
    ensures SteppedAll(s, []) == s
  {}

  lemma {:induction false} QuietKeepsPassword(password: seq<byte>, ops: seq<Op>)
    requires forall op | op in ops :: QuietOp(op)
    ensures PasswordAfter(password, ops) == password
    decreases |ops|
  {
    if ops != [] {
      assert QuietOp(ops[0]);
      QuietKeepsPassword(password, ops[1..]);
    }
  }

  lemma {:induction false} SessionsProper(s: WalletState, invocations: seq<Invocation>)
    ensures forall se | se in SessionsOf(s, invocations) :: Proper(se)
    decreases |invocations|
  {
    hide SteppedAll, OpsOfAll;
    if invocations != [] {
      StepsAreOutcome(s, invocations[0].steps);
      assert forall op | op in OpsOfAll(s, invocations[0].steps) :: QuietOp(op) && Passable(op);
      SessionsProper(SteppedAll(s, invocations[0].steps), invocations[1..]);
    }
  }

  /** From the creation of a wallet on, through any runs of the client under its password: the entries that
      the runs make are a map, the one the same commands make on a plain map; and the file opens to them
      exactly when no run is troubled by an old temporary file. */
  lemma ClientLife(c: Crypto, password: seq<byte>, salt: Block, iv: Block, invocations: seq<Invocation>)
    requires Invertible(c)
    ensures var created := Image(c, c.derive(salt, password), salt, iv, Header([0, 0, 0], 0, 0));
            var s, steps := WalletState([], c.derive(salt, password), salt, false), StepsIn(invocations);
            var sessions, es := SessionsOf(s, invocations), SteppedAll(s, steps).entries;
            var f := Live(c, created, password, sessions);
            && (f.Some? && Stores(c, f.value, password, es) <==> AllUntroubled([], sessions))
            && IsMap(es) && (RoomAll(s, steps) ==> Kept(es) == MapSteppedAll(map[], steps))
  {
    hide SteppedAll, Stores, Live, Proper, RoomAll, MapSteppedAll, IsMap, OutcomeAll, PasswordAfter, AllUntroubled;
    var s := WalletState([], c.derive(salt, password), salt, false);
    SessionsProper(s, invocations);
    SessionsAreSteps(s, invocations);
    LifeFromCreation(c, password, salt, iv, SessionsOf(s, invocations));
    QuietKeepsPassword(password, AllOps(SessionsOf(s, invocations)));
    EmptyIsMap();
    RunKeepsMap(s, StepsIn(invocations));
    MapIsNamed(SteppedAll(s, StepsIn(invocations)).entries);
  }

  lemma EmptyIsMap()
    ensures IsMap([]) && Kept([]) == map[]
  {}

  /** The most that the steps can add to a wallet. */
  function SpaceFor(steps: seq<Step>): nat
    decreases |steps|
  {
    if steps == [] then 0
    else
      var st := steps[0];
      SpaceFor(steps[1..])
      + (if st.AddPath? && st.path in st.files then NodeSize(Entry(FileKey(st.path), Value(st.files[st.path]))) else 0)
  }

  /** Memory lasts when all the files together fit. */
  lemma {:induction false} RoomBySize(s: WalletState, steps: seq<Step>)
    requires TotalSize(s.entries) + SpaceFor(steps) <= MAX_ALLOCATION
    ensures RoomAll(s, steps)
    decreases |steps|
  {
    hide FileName, KeyOf, Value, RemoveFirst, TotalSize;
    if steps != [] {
      var st := steps[0];
      if st.AddPath? && st.path in st.files {
        TotalSizeSnoc(s.entries, Entry(FileKey(st.path), Value(st.files[st.path])));
      }
      RemovedSize(s.entries, FileKey(st.path));
      RoomBySize(Stepped(s, steps[0]), steps[1..]);
    }
  }

  lemma TotalSizeSnoc(es: seq<Entry>, e: Entry)
    ensures TotalSize(es + [e]) == TotalSize(es) + NodeSize(e)
  {
    TotalSizeAppend(es, [e]);
  }

  //// The client runs sessions

  lemma {:induction false} ApplyAllAppend(c: Crypto, s: WalletState, a: seq<Op>, b: seq<Op>)
    ensures ApplyAll(c, s, a + b) == ApplyAll(c, ApplyAll(c, s, a), b)
    decreases |a|
  {
    hide Apply;
    if a == [] {
      assert a + b == b;
    } else {
      TakeDropAppend(a, b, 1);
      ApplyAllAppend(c, Apply(c, s, a[0]), a[1..], b);
    }
  }

  lemma StepIsCall(c: Crypto, s: WalletState, step: Step)
    ensures ApplyAll(c, s, OpsOf(s.entries, step)) == Stepped(s, step)
  {
    hide FileName, KeyOf, Value, Adds, Added, Deleted;
    var ops := OpsOf(s.entries, step);
    if ops != [] {
      assert ops[1..] == [];
      assert ApplyAll(c, s, ops) == Apply(c, s, ops[0]);
    }
  }

  /** The calls that the steps make leave the very state of the steps. */
  lemma {:induction false} StepsAreCalls(c: Crypto, s: WalletState, steps: seq<Step>)
    ensures ApplyAll(c, s, OpsOfAll(s, steps)) == SteppedAll(s, steps)
    decreases |steps|
  {
    hide Stepped, OpsOf, ApplyAll;
    if steps == [] {
      NoCalls(c, s);
    } else {
      var t := Stepped(s, steps[0]);
      StepIsCall(c, s, steps[0]);
      StepsAreCalls(c, t, steps[1..]);
      ApplyAllAppend(c, s, OpsOf(s.entries, steps[0]), OpsOfAll(t, steps[1..]));
    }
  }

  lemma NoCalls(c: Crypto, s: WalletState)
    ensures ApplyAll(c, s, []) == s
  {}

  /** What the command line asks for. */
  datatype Command =
    | AddCommand(path: Path, mapped: bool)
    | AddAllCommand(dir: Path, names: Option<seq<Path>>, mappable: Path -> bool)
    | DeleteCommand(path: Path)
    | GetCommand(path: Path)
    | GetAllCommand
    | ListCommand

  /** The changes of the wallet that a command stands for. */
  function StepsFor(command: Command, files: map<Path, seq<byte>>): seq<Step> {
    match command
    case AddCommand(path, _) => [AddPath(path, files)]
    case AddAllCommand(dir, names, _) => if names.None? then [] else StepsOf(dir, names.value, files)
    case DeleteCommand(path) => [DeletePath(path)]
    case _ => []
  }

  /** What each command makes of the map of kept files, for a path of a directory and a name. */
  lemma EachCommand(m: map<Path, seq<byte>>, files: map<Path, seq<byte>>, path: Path, dir: seq<byte>, name: Path,
      command: Command)
    requires IsIn(path, dir, name)
    ensures var r := MapSteppedAll(m, StepsFor(command, files));
            match command
            case AddCommand(p, _) =>
              p == path ==> r == if name in m || path !in files then m else m[name := Value(files[path])]
            case AddAllCommand(_, names, _) => names.None? ==> r == m
            case DeleteCommand(p) => p == path ==> r == m - {name}
            case _ => r == m
  {
    FileNameInDirectory(path, dir, name);
  }

  /** Adding a directory keeps every regular file of it under its own name, unless the name is kept already. */
  lemma AddAllKeeps(m: map<Path, seq<byte>>, files: map<Path, seq<byte>>, dir: Path, names: seq<Path>,
      mappable: Path -> bool, name: Path)
    requires forall n | n in names :: '/' as int !in n && |dir| + 1 + |n| < 4096
    ensures var r := MapSteppedAll(m, StepsFor(AddAllCommand(dir, Some(names), mappable), files));
            var path := dir + ['/' as int] + name;
            && (name in r <==> name in m || (name in names && path in files))
            && (name in m ==> r[name] == m[name])
            && (name in r && name !in m ==> r[name] == Value(files[path]))
  {
    AllFilesKept(m, dir, names, files);
  }

  lemma OneStep(s: WalletState, step: Step)
    ensures SteppedAll(s, [step]) == Stepped(s, step)
  {
    NoSteps(Stepped(s, step));
    assert [step][1..] == [];
  }

  /** The branches of main on an open wallet: each leaves the state of its steps. */
  method Dispatch(w: Wallet, fs: FileSystem, command: Command) returns (k: int)
    requires w.Valid() && (command.GetAllCommand? || command.ListCommand? ==> AllTerminated(w.Entries()))
    modifies w, w.data, fs
    ensures w.Valid() && (w.data == old(w.data) || fresh(w.data))
    ensures w.State() == SteppedAll(old(w.State()), StepsFor(command, old(fs.files)))
    ensures match command
            case GetCommand(path) => fs.files == Got(old(fs.files), fs.creatable, old(w.Entries()), path)
            case GetAllCommand => TakenOut(fs.files, old(fs.files), fs.creatable, old(w.Entries()), old(w.Entries()))
            case _ => fs.files == old(fs.files)
  {
    hide Stepped, TakenOut, ParseAt, FileName, AllTerminated;
    NoSteps(w.State());
    match command
    case AddCommand(path, mapped) =>
      OneStep(w.State(), AddPath(path, fs.files));
      k := AddFile(w, fs, path, mapped);
    case AddAllCommand(dir, names, mappable) =>
      k := AddAllFiles(w, fs, dir, names, mappable);
    case DeleteCommand(path) =>
      OneStep(w.State(), DeletePath(path));
      k := DeleteFile(w, path);
    case GetCommand(path) => k := GetFile(w, fs, path);
    case GetAllCommand => k := GetAllFiles(w, fs);
    case ListCommand =>
      var names := ListFiles(w);
      k := 0;
  }

  /** One run of the client over a stored wallet: it opens the file, carries out the command and closes, and
      leaves exactly the file of the session that the command stands for. */
  method RunClient(c: Crypto, disk: Disk, fs: FileSystem, password: seq<byte>, command: Command, iv: Block,
      ghost es: seq<Entry>)
    returns (k: int, ghost se: Session)
    requires disk.wallet.Some? && Stores(c, disk.wallet.value, password, es) && |disk.wallet.value| < U64 / 2
    requires command.GetAllCommand? || command.ListCommand? ==> AllTerminated(es)
    modifies disk, fs
    ensures var s := Loaded(OpenFile(c, old(disk.wallet.value), password));
            s.Some? && s.value.entries == es && se.ops == OpsOfAll(s.value, StepsFor(command, old(fs.files)))
    ensures se.iv == iv && se.stale == Stale(old(disk.temp))
    ensures disk.wallet == RunSession(c, old(disk.wallet.value), password, se)
    ensures match command
            case GetCommand(path) => fs.files == Got(old(fs.files), fs.creatable, es, path)
            case GetAllCommand => TakenOut(fs.files, old(fs.files), fs.creatable, es, es)
            case _ => fs.files == old(fs.files)
  {
    hide OpenFile, ParseAt, Flatten, Closed, Stores, TakenOut, Got, AllTerminated;
    hide StepsFor, Loaded, SteppedAll, OpsOfAll;
    StoredIsLong(c, disk.wallet.value, password, es);
    var w := OpenStored(c, disk, password, es);
    ghost var s, steps := w.State(), StepsFor(command, fs.files);
    k := Dispatch(w, fs, command);
    StepsAreCalls(c, s, steps);
    se := CloseAfter(c, w, disk, iv, OpsOfAll(s, steps));
  }

  lemma StoredIsLong(c: Crypto, file: seq<byte>, password: seq<byte>, es: seq<Entry>)
    requires Stores(c, file, password, es)
    ensures |file| >= 64
  {}
}
