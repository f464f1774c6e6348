/**
  Lives of a wallet file in which the program may crash while it closes: between any two writes, or before
  the new file takes the place of the old one. The wallet always opens to its last completed close.
 */
module WalletCrashes {
  import opened Arithmetic
  import opened Bytes
  import opened Sequences
  import opened Cbc
  import opened Files
  import opened WalletNodes
  import opened OpenWallet
  import opened WalletFile
  import opened WalletSessions

  //// One interrupted close

  /** How many bytes of an image the first so many writes put out: salt, vector, header and load. */
  function WrittenBy(writes: nat, length: nat): (n: nat)
    requires length >= 64
    ensures n <= length
    ensures length % 16 == 0 ==> n % 16 == 0
  {
    if writes == 0 then 0 else if writes == 1 then 16 else if writes == 2 then 32 else if writes == 3 then 64 else length
  }

  /** What closing a modified wallet writes. */
  function ClosingImage(c: Crypto, s: WalletState, iv: Block, fill: seq<byte>, pad: seq<byte>): (f: seq<byte>)
    requires |fill| == 3 && |pad| == Padding(TotalSize(s.entries))
    ensures |f| == 64 + TotalSize(s.entries) + |pad| && |f| % 16 == 0
  {
    hide Image, Plain, Padding, Encode, TotalSize;
    SumOfBlocks(32, |Plain(fill, s.entries, pad)|);
    Image(c, s.key, s.salt, iv, Plain(fill, s.entries, pad))
  }

  /** The temporary file after a crash behind so many writes. */
  function Interrupted(c: Crypto, s: WalletState, iv: Block, fill: seq<byte>, pad: seq<byte>, stale: seq<byte>,
      writes: nat): seq<byte>
    requires |fill| == 3 && |pad| == Padding(TotalSize(s.entries))
  {
    var image := ClosingImage(c, s, iv, fill, pad);
    Overlay(stale, image[..WrittenBy(writes, |image|)])
  }

  lemma FourParts(a: seq<byte>, b: seq<byte>, h: seq<byte>, e: seq<byte>)
    requires |a| == 16 && |b| == 16 && |h| == 32
    ensures var f := a + b + h + e;
            f[..0] == [] && f[..16] == a && f[..32] == a + b && f[..64] == a + b + h && f[..|f|] == f
  {}

  /** The writes of lxqt_wallet_close, of which only the first so many happen. */
  method WriteUntil(fd: Descriptor, salt: Block, iv: Block, header: seq<byte>, load: seq<byte>, writes: nat,
      ghost stale: seq<byte>)
    requires fd.content == stale && fd.pos == 0 && |header| == 32
    modifies fd
    ensures var image := salt + iv + header + load;
            fd.content == Overlay(stale, image[..WrittenBy(writes, |image|)])
  {
    FourParts(salt, iv, header, load);
    assert Overlay(stale, []) == stale;
    assert [] + salt == salt;
    if writes == 0 { return; }
    WriteOn(fd, salt, stale, []);
    if writes == 1 { return; }
    WriteOn(fd, iv, stale, salt);
    if writes == 2 { return; }
    WriteOn(fd, header, stale, salt + iv);
    if writes == 3 { return; }
    WriteOn(fd, load, stale, salt + iv + header);
  }

  /** lxqt_wallet_close, interrupted before it renames the temporary file. */
  method CloseInterrupted(c: Crypto, w: Wallet, disk: Disk, iv: Block, writes: nat)
    returns (ghost fill: seq<byte>, ghost pad: seq<byte>)
    requires w.Valid()
    modifies w, disk
    ensures disk.wallet == old(disk.wallet)
    ensures !old(w.modified) ==> disk.temp == old(disk.temp)
    ensures old(w.modified) ==>
      && |fill| == 3 && |pad| == Padding(TotalSize(old(w.Entries())))
      && disk.temp == Some(Interrupted(c, old(w.State()), iv, fill, pad, Stale(old(disk.temp)), writes))
  {
    hide ParseAt, Encrypt, NextIv, Flatten, Header, Padding;
    fill, pad := [], [];
    if !w.modified { return; }
    w.Layout();
    var handle := new CipherHandle(c, w.key, iv);
    var buffer, f := CloseHeader(handle, w.size, w.count);
    ghost var stale, es := Stale(disk.temp), w.Entries();
    var fd := new Descriptor(Stale(disk.temp));
    fill := f;
    var load := [];
    if w.size == 0 {
      EmptyPlain(fill, es);
      assert buffer[..] + [] == buffer[..];
    } else {
      var e, p := CloseLoad(handle, w.data, w.size);
      pad, load := p, e[..];
      OneEncryption(c, w.key, iv, Header(fill, w.size, w.count), Encode(es) + pad);
    }
    Associative(w.salt + iv, buffer[..], load);
    WriteUntil(fd, w.salt, iv, buffer[..], load, writes, stale);
    disk.temp := Some(fd.content);
  }

  //// What a crash leaves does no harm

  /** Behind every write, over whole cipher blocks, there are whole cipher blocks again. */
  lemma CrashLeavesWholeBlocks(c: Crypto, s: WalletState, iv: Block, fill: seq<byte>, pad: seq<byte>,
      stale: seq<byte>, writes: nat)
    requires |fill| == 3 && |pad| == Padding(TotalSize(s.entries))
    requires TotalSize(s.entries) <= MAX_ALLOCATION && WholeBlocksLeft(stale)
    ensures WholeBlocksLeft(Interrupted(c, s, iv, fill, pad, stale, writes))
  {
    hide Image, Padding;
    PaddedFits(TotalSize(s.entries));
  }

  //// Lives with crashes

  /** The wallet file and the temporary file beside it, empty when there is none. */
  datatype OnDisk = OnDisk(wallet: seq<byte>, temp: seq<byte>)

  /** A session that closes, or crashes behind so many writes of its close. */
  datatype Run = Completed(session: Session) | Crashed(session: Session, writes: nat)

  /** What one run leaves. The old temporary file is the one that earlier runs have left. */
  function RunOn(c: Crypto, d: OnDisk, password: seq<byte>, run: Run): Option<OnDisk> {
    var se := run.session.(stale := d.temp);
    match run
    case Completed(_) =>
      (match RunSession(c, d.wallet, password, se)
       case None => None
       case Some(f) => Some(OnDisk(f, if Closes(c, d.wallet, password, se) then [] else d.temp)))
    case Crashed(_, writes) =>
      if |d.wallet| < 64 then None
      else match Loaded(OpenFile(c, d.wallet, password))
        case None => None
        case Some(s) =>
          var t := ApplyAll(c, s, se.ops);
          if !t.modified then Some(d)
          else
            var pad := PadBytes(se.pad, TotalSize(t.entries));
            Some(d.(temp := Interrupted(c, t, se.iv, se.fill, pad, d.temp, writes)))
  }

  /** The session writes a new wallet file, by way of the temporary file. */
  predicate Closes(c: Crypto, file: seq<byte>, password: seq<byte>, se: Session) {
    |file| >= 64 && var s := Loaded(OpenFile(c, file, password)); s.Some? && ApplyAll(c, s.value, se.ops).modified
  }

  function RunAll(c: Crypto, d: OnDisk, password: seq<byte>, runs: seq<Run>): Option<OnDisk>
    decreases |runs|
  {
    if runs == [] then Some(d)
    else match RunOn(c, d, password, runs[0])
      case None => None
      case Some(next) => RunAll(c, next, PasswordAfter(password, Lasting(runs[0])), runs[1..])
  }

  /** The calls of a run that last: all when it completes, none when it crashes. */
  function Lasting(run: Run): seq<Op> {
    match run
    case Completed(se) => se.ops
    case Crashed(_, _) => []
  }

  function LastingOps(runs: seq<Run>): seq<Op>
    decreases |runs|
  {
    if runs == [] then [] else Lasting(runs[0]) + LastingOps(runs[1..])
  }

  lemma BlocksAreHarmless(es: seq<Entry>, se: Session)
    requires WholeBlocksLeft(se.stale)
    ensures Untroubled(es, se)
  {}

  /** One run, over what earlier crashes have left: the file stores what the run makes of its entries, or what it
      stored before when the run crashes, and the temporary file is again of whole cipher blocks. */
  lemma RunKeeps(c: Crypto, d: OnDisk, password: seq<byte>, es: seq<Entry>, run: Run)
    requires Invertible(c) && Stores(c, d.wallet, password, es) && WholeBlocksLeft(d.temp) && Proper(run.session)
    ensures var next, ops := RunOn(c, d, password, run), Lasting(run);
            && next.Some? && WholeBlocksLeft(next.value.temp)
            && Stores(c, next.value.wallet, PasswordAfter(password, ops), OutcomeAll(es, ops))
  {
    hide OpenFile, Loaded, Sound, ApplyAll, OutcomeAll, PasswordAfter, Represents, Interrupted, Padding, RunSession,
      Closes;
    var se := run.session.(stale := d.temp);
    match run
    case Completed(_) =>
      BlocksAreHarmless(es, se);
      SessionKeeps(c, d.wallet, password, es, se);
    case Crashed(_, writes) =>
      LoadedIsStored(c, d.wallet, password, es);
      var s := Loaded(OpenFile(c, d.wallet, password)).value;
      ApplyAllSound(c, s, password, se.ops);
      var t := ApplyAll(c, s, se.ops);
      SoundFits(c, t, PasswordAfter(password, se.ops));
      NoOps(es, password);
      if t.modified {
        CrashLeavesWholeBlocks(c, t, se.iv, se.fill, PadBytes(se.pad, TotalSize(t.entries)), d.temp, writes);
      }
  }

  lemma SoundFits(c: Crypto, s: WalletState, password: seq<byte>)
    requires Sound(c, s, password)
    ensures TotalSize(s.entries) <= MAX_ALLOCATION
  {}

  /** Every life, whatever its crashes: each run opens, and the file it ends with opens, under the password of
      the last completed close, to what the calls of the completed runs amount to. */
  lemma {:induction false} CrashesLoseNothing(c: Crypto, d: OnDisk, password: seq<byte>, es: seq<Entry>, runs: seq<Run>)
    requires Invertible(c) && Stores(c, d.wallet, password, es) && WholeBlocksLeft(d.temp)
    requires forall run | run in runs :: Proper(run.session)
    ensures var last, ops := RunAll(c, d, password, runs), LastingOps(runs);
            && last.Some? && WholeBlocksLeft(last.value.temp)
            && Stores(c, last.value.wallet, PasswordAfter(password, ops), OutcomeAll(es, ops))
    decreases |runs|
  {
    hide Stores, RunOn, OutcomeAll, PasswordAfter, WholeBlocksLeft, Lasting, Proper;
    if runs == [] {
      NoOps(es, password);
    } else {
      var run, rest := runs[0], runs[1..];
      var ops := Lasting(run);
      assert Proper(runs[0].session);
      RunKeeps(c, d, password, es, run);
      CrashesLoseNothing(c, RunOn(c, d, password, run).value, PasswordAfter(password, ops), OutcomeAll(es, ops), rest);
      OutcomeAllAppend(es, ops, LastingOps(rest));
      PasswordAfterAppend(password, ops, LastingOps(rest));
    }
  }

  /** From the creation of the wallet on. */
  lemma CrashesLoseNothingFromCreation(c: Crypto, password: seq<byte>, salt: Block, iv: Block, runs: seq<Run>)
    requires Invertible(c) && forall run | run in runs :: Proper(run.session)
    ensures var created := Image(c, c.derive(salt, password), salt, iv, Header([0, 0, 0], 0, 0));
            var last, ops := RunAll(c, OnDisk(created, []), password, runs), LastingOps(runs);
            last.Some? && Stores(c, last.value.wallet, PasswordAfter(password, ops), OutcomeAll([], ops))
  {
    hide Stores, RunAll, OutcomeAll, PasswordAfter, Proper, Header;
    CreatedStores(c, password, salt, iv);
    var created := Image(c, c.derive(salt, password), salt, iv, Header([0, 0, 0], 0, 0));
    CrashesLoseNothing(c, OnDisk(created, []), password, [], runs);
  }

  //// The code crashes like this

  /** Opening and using a stored wallet, then closing it or crashing in the close, leaves the files of the run. */
  method UseWalletUntil(c: Crypto, disk: Disk, password: seq<byte>, ops: seq<Op>, iv: Block,
      crash: Option<nat>, ghost es: seq<Entry>)
    returns (ghost run: Run)
    requires disk.wallet.Some? && Stores(c, disk.wallet.value, password, es) && |disk.wallet.value| < U64 / 2
    requires forall op | op in ops :: Passable(op)
    modifies disk
    ensures run.session.ops == ops && run.session.iv == iv && run.Completed? == crash.None?
    ensures run.Crashed? ==> Some(run.writes) == crash
    ensures disk.wallet.Some?
    ensures RunOn(c, old(OnDisk(disk.wallet.value, Stale(disk.temp))), password, run)
            == Some(OnDisk(disk.wallet.value, Stale(disk.temp)))
  {
    hide OpenFile, ParseAt, Flatten, Closed, Padding, Interrupted, Loaded;
    var w := OpenStored(c, disk, password, es);
    Perform(c, w, ops);
    ghost var t := w.State();
    match crash
    case None =>
      ghost var se := CloseAfter(c, w, disk, iv, ops);
      run := Completed(se);
    case Some(writes) =>
      ghost var fill, pad := CloseInterrupted(c, w, disk, iv, writes);
      ghost var se := SessionOf(ops, iv, if t.modified then fill else [0, 0, 0], pad);
      assert t.modified ==> PadBytes(se.pad, TotalSize(t.entries)) == pad;
      run := Crashed(se, writes);
  }

  /** The session with this padding. */
  ghost function SessionOf(ops: seq<Op>, iv: Block, fill: HeaderFill, pad: seq<byte>): Session {
    Session(ops, iv, fill, (i: nat) => if i < |pad| then pad[i] else 0, [])
  }
}
