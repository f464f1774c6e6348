/**
  Whole lives of a wallet file: created once, then opened with the current password, used and closed
  any number of times. What is found on opening is what was left on closing.
 */
module WalletSessions {
  import opened Bytes
  import opened Sequences
  import opened Cbc
  import opened WalletNodes
  import opened OpenWallet
  import opened WalletFile

  datatype Op =
    | Add(key: seq<byte>, value: seq<byte>)
    | Delete(key: seq<byte>)
    | Read(key: seq<byte>)
    | ChangePassword(password: seq<byte>)

  /** Lengths are passed as 32-bit integers. */
  predicate Passable(op: Op) {
    op.Add? ==> |op.key| < U32 && |op.value| < U32
  }

  /** The effect of one call on an open wallet. */
  function Apply(c: Crypto, s: WalletState, op: Op): WalletState {
    match op
    case Add(key, value) => Added(s, key, value)
    case Delete(key) => Deleted(s, key)
    case Read(_) => s
    case ChangePassword(password) => s.(key := c.derive(s.salt, password), modified := true)
  }

  function ApplyAll(c: Crypto, s: WalletState, ops: seq<Op>): WalletState
    decreases |ops|
  {
    if ops == [] then s else ApplyAll(c, Apply(c, s, ops[0]), ops[1..])
  }

  //// The same on a plain sequence of pairs

  function Outcome(es: seq<Entry>, op: Op): seq<Entry> {
    match op
    case Add(key, value) =>
      if key == [] || TotalSize(es) + NodeSize(Entry(key, value)) > MAX_ALLOCATION then es
      else es + [Entry(key, value)]
    case Delete(key) => RemoveFirst(es, key)
    case Read(_) => es
    case ChangePassword(_) => es
  }

  function OutcomeAll(es: seq<Entry>, ops: seq<Op>): seq<Entry>
    decreases |ops|
  {
    if ops == [] then es else OutcomeAll(Outcome(es, ops[0]), ops[1..])
  }

  /** The call changes the wallet. */
  predicate Alters(es: seq<Entry>, op: Op) {
    match op
    case Add(key, value) => key != [] && TotalSize(es) + NodeSize(Entry(key, value)) <= MAX_ALLOCATION
    case Delete(key) => HasKey(es, key)
    case Read(_) => false
    case ChangePassword(_) => true
  }

  predicate AltersAny(es: seq<Entry>, ops: seq<Op>)
    decreases |ops|
  {
    ops != [] && (Alters(es, ops[0]) || AltersAny(Outcome(es, ops[0]), ops[1..]))
  }

  function PasswordAfter(password: seq<byte>, ops: seq<Op>): seq<byte>
    decreases |ops|
  {
    if ops == [] then password
    else PasswordAfter(if ops[0].ChangePassword? then ops[0].password else password, ops[1..])
  }

  //// What every call keeps

  /** A state that an open wallet can be in under its current password. */
  ghost predicate Sound(c: Crypto, s: WalletState, password: seq<byte>) {
    AllStorable(s.entries) && TotalSize(s.entries) <= MAX_ALLOCATION && s.key == c.derive(s.salt, password)
  }

  lemma {:induction false} TotalSizeAppend(a: seq<Entry>, b: seq<Entry>)
    ensures TotalSize(a + b) == TotalSize(a) + TotalSize(b)
    decreases |a|
  {
    if a == [] {
      assert a + b == b;
    } else {
      TotalSizeAppend(a[1..], b);
      TakeDropAppend(a, b, 1);
    }
  }

  lemma RemovedSize(es: seq<Entry>, key: seq<byte>)
    ensures TotalSize(RemoveFirst(es, key)) <= TotalSize(es)
  {}

  lemma ApplySound(c: Crypto, s: WalletState, password: seq<byte>, op: Op)
    requires Sound(c, s, password) && Passable(op)
    ensures Sound(c, Apply(c, s, op), if op.ChangePassword? then op.password else password)
    ensures Apply(c, s, op).salt == s.salt && Apply(c, s, op).entries == Outcome(s.entries, op)
    ensures !Apply(c, s, op).modified ==> Apply(c, s, op) == s
    ensures Apply(c, s, op).modified == (s.modified || Alters(s.entries, op))
  {
    match op
    case Add(key, value) =>
      if AddResult(s, key, value) == NoError {
        TotalSizeAppend(s.entries, [Entry(key, value)]);
        StorableSnoc(s.entries, Entry(key, value));
      }
    case Delete(key) =>
      RemovedStorable(s.entries, key);
      RemovedSize(s.entries, key);
      HasKeyIffFound(s.entries, key);
    case Read(_) =>
    case ChangePassword(_) =>
  }

  /** After any calls: the entries are those of the plain sequence, the key is that of the last password, the
      flag says whether some call changed the wallet, and a wallet still unmodified is exactly what was opened. */
  lemma {:induction false} ApplyAllSound(c: Crypto, s: WalletState, password: seq<byte>, ops: seq<Op>)
    requires Sound(c, s, password) && forall op | op in ops :: Passable(op)
    ensures Sound(c, ApplyAll(c, s, ops), PasswordAfter(password, ops))
    ensures ApplyAll(c, s, ops).salt == s.salt && ApplyAll(c, s, ops).entries == OutcomeAll(s.entries, ops)
    ensures !ApplyAll(c, s, ops).modified ==> ApplyAll(c, s, ops) == s && PasswordAfter(password, ops) == password
    ensures ApplyAll(c, s, ops).modified == (s.modified || AltersAny(s.entries, ops))
    decreases |ops|
  {
    hide Apply, Outcome, Alters, Sound;
    if ops != [] {
      var next := if ops[0].ChangePassword? then ops[0].password else password;
      ApplySound(c, s, password, ops[0]);
      ApplyAllSound(c, Apply(c, s, ops[0]), next, ops[1..]);
      ChangeModifies(c, s, ops[0]);
    }
  }

  lemma ChangeModifies(c: Crypto, s: WalletState, op: Op)
    ensures op.ChangePassword? ==> Apply(c, s, op).modified
  {}

  //// Closing and opening again

  /** Opening gave exactly these entries, with their count and size. */
  ghost predicate Represents(r: OpenResult, es: seq<Entry>) {
    && r.Opened?
    && r.size == TotalSize(es) <= |r.data| && r.count == |es|
    && r.data[..r.size] == Encode(es)
    && AllStorable(es) && r.size <= MAX_ALLOCATION
  }

  /** The file opens under the password, to these entries. */
  ghost predicate Stores(c: Crypto, file: seq<byte>, password: seq<byte>, es: seq<Entry>) {
    |file| >= 64 && Represents(OpenFile(c, file, password), es)
  }

  /** What an old temporary file may hold without spoiling the next opening: nothing behind the new
      bytes, or whole cipher blocks (of a size that can be loaded). */
  predicate StaleHarmless(stale: seq<byte>, written: nat) {
    |stale| <= written || (|stale| % 16 == 0 && |stale| - 64 <= MAX_ALLOCATION)
  }

  lemma {:induction false} NoSizeNoEntries(es: seq<Entry>)
    ensures TotalSize(es) == 0 <==> es == []
  {}

  /** The parts of an image under an old file. */
  lemma OverlaidImage(c: Crypto, key: Key, salt: Block, iv: Block, head: seq<byte>, load: seq<byte>, stale: seq<byte>)
    requires |head| == 32 && |load| % 16 == 0
    ensures |head + load| % 16 == 0
    ensures var f := Overlay(stale, Image(c, key, salt, iv, head + load));
            var y := Encrypt(c, key, iv, head);
            && |f| >= 64 + |load| && f[..16] == salt && f[16..32] == iv && f[32..64] == y
            && f[64..64 + |load|] == Encrypt(c, key, NextIv(iv, y), load)
  {
    hide Encrypt, NextIv;
    OneEncryption(c, key, iv, head, load);
    var y := Encrypt(c, key, iv, head);
    var z := Encrypt(c, key, NextIv(iv, y), load);
    var image := Image(c, key, salt, iv, head + load);
    var f := Overlay(stale, image);
    assert image == salt + iv + y + z;
    assert f[..|image|] == image;
  }

  lemma PaddedFits(size: nat)
    requires size <= MAX_ALLOCATION
    ensures size + Padding(size) <= MAX_ALLOCATION
  {}

  /** What opening an image under an old file comes to: refused, or nothing, or the load and what lies behind it. */
  ghost predicate Finds(r: OpenResult, key: Key, salt: Block, head: seq<byte>, load: seq<byte>, harmless: bool)
    requires |head| == 32
  {
    match r
    case Refused(_) => !harmless
    case Opened(data, size, count, k, s) =>
      && harmless && k == key && s == salt
      && (if data == [] then load == [] && size == 0 && count == 0
          else |load| <= |data| && data[..|load|] == load && size == LoadSize(head) && count == LoadCount(head))
  }

  /** Opening finds the salt, the header and the load of the image. */
  lemma OpenImage(c: Crypto, password: seq<byte>, salt: Block, iv: Block, head: seq<byte>, load: seq<byte>,
      stale: seq<byte>)
    requires Invertible(c) && |head| == 32 && |load| % 16 == 0 && |head + load| % 16 == 0 && |load| <= MAX_ALLOCATION
    requires PasswordMatch(head) && Compatible(head)
    ensures var key := c.derive(salt, password);
            var f := Overlay(stale, Image(c, key, salt, iv, head + load));
            |f| >= 64 && Finds(OpenFile(c, f, password), key, salt, head, load, StaleHarmless(stale, 64 + |load|))
  {
    hide Encrypt, Decrypt, NextIv, ReadLe, PasswordMatch;
    var key := c.derive(salt, password);
    var f := Overlay(stale, Image(c, key, salt, iv, head + load));
    OverlaidImage(c, key, salt, iv, head, load, stale);
    DecryptEncrypt(c, key, iv, head);
    if |f| > 64 && |f| % 16 == 0 {
      var y := Encrypt(c, key, iv, head);
      var z := Encrypt(c, key, NextIv(iv, y), load);
      var tail := f[64 + |load|..];
      assert f[64..] == z + tail;
      DecryptPrefix(c, key, NextIv(iv, y), load, tail);
    }
  }

  /** A load that starts with the nodes and their padding stands for the entries. */
  lemma LoadRepresents(r: OpenResult, es: seq<Entry>, pad: seq<byte>)
    requires r.Opened? && AllStorable(es) && r.size == TotalSize(es) <= MAX_ALLOCATION && r.count == |es|
    requires |Encode(es) + pad| <= |r.data| && r.data[..|Encode(es) + pad|] == Encode(es) + pad
    ensures Represents(r, es)
  {
    hide Flatten, TotalSize, Storable;
    EncodedSize(es);
    var load := Encode(es) + pad;
    assert load[..r.size] == Encode(es);
    SliceOfSlice(r.data, 0, |load|, 0, r.size);
  }

  /** A closed wallet opens again under its password, to its own entries, exactly when no old temporary
      file has left part of a cipher block behind it. */
  lemma ReopenClosed(c: Crypto, s: WalletState, password: seq<byte>, iv: Block,
      fill: seq<byte>, pad: seq<byte>, stale: seq<byte>)
    requires Invertible(c) && Sound(c, s, password)
    requires |fill| == 3 && |pad| == Padding(TotalSize(s.entries))
    ensures var f := ClosedFile(c, s, iv, fill, pad, stale);
            && (StaleHarmless(stale, 64 + TotalSize(s.entries) + |pad|) ==>
                  Stores(c, f, password, s.entries) && OpenFile(c, f, password).salt == s.salt)
            && (!StaleHarmless(stale, 64 + TotalSize(s.entries) + |pad|) ==>
                  |f| >= 64 && OpenFile(c, f, password).Refused?)
  {
    hide LoadSize, LoadCount, Header, Padding, Flatten, PasswordMatch, Compatible, OpenFile, Represents, Image,
      AllStorable, StaleHarmless;
    var es, size := s.entries, TotalSize(s.entries);
    var head, load := Header(fill, size, |es|), Encode(es) + pad;
    EncodedSize(es);
    PaddedIsWhole(size);
    PaddedFits(size);
    CountBelowSize(es);
    HeaderReadsBack(fill, size, |es|);
    OpenImage(c, password, s.salt, iv, head, load, stale);
    NoSizeNoEntries(es);
    var r := OpenFile(c, ClosedFile(c, s, iv, fill, pad, stale), password);
    if r.Opened? { LoadRepresents(r, es, pad); }
  }

  /** An old temporary file of 65 bytes spoils an emptied wallet. */
  lemma LeftoverSpoils(c: Crypto, s: WalletState, password: seq<byte>, iv: Block, fill: seq<byte>)
    requires Invertible(c) && Sound(c, s, password) && s.entries == [] && |fill| == 3
    ensures Padding(TotalSize(s.entries)) == 0
    ensures var f := ClosedFile(c, s, iv, fill, [], seq(65, _ => 0));
            |f| == 65 && OpenFile(c, f, password).Refused?
  {
    hide OpenFile;
    ReopenClosed(c, s, password, iv, fill, [], seq(65, _ => 0));
  }

  /** A file just created opens under its password, to no entries. */
  lemma CreatedStores(c: Crypto, password: seq<byte>, salt: Block, iv: Block)
    requires Invertible(c)
    ensures var f := Image(c, c.derive(salt, password), salt, iv, Header([0, 0, 0], 0, 0));
            Stores(c, f, password, [])
  {
    hide Encrypt, Decrypt, NextIv, ReadLe, Header, PasswordMatch, OpenFile;
    var head := Header([0, 0, 0], 0, 0);
    HeaderReadsBack([0, 0, 0], 0, 0);
    assert head + [] == head;
    OpenImage(c, password, salt, iv, head, [], []);
    EncodeEmpty();
  }

  //// Sessions

  type HeaderFill = b: seq<byte> | |b| == 3 witness [0, 0, 0]

  /** One session: the calls made, and everything the closing does not decide itself: the random vector,
      the header and padding bytes nobody sets, and what an old temporary file holds. */
  datatype Session = Session(ops: seq<Op>, iv: Block, fill: HeaderFill, pad: nat -> byte, stale: seq<byte>)

  predicate Proper(se: Session) {
    forall op | op in se.ops :: Passable(op)
  }

  /** How many bytes closing a modified wallet of these entries writes. */
  function Written(es: seq<Entry>): nat {
    64 + TotalSize(es) + Padding(TotalSize(es))
  }

  /** The session writes nothing, or over an old temporary file that does no harm. */
  predicate Untroubled(es: seq<Entry>, se: Session) {
    AltersAny(es, se.ops) ==> StaleHarmless(se.stale, Written(OutcomeAll(es, se.ops)))
  }

  predicate AllUntroubled(es: seq<Entry>, sessions: seq<Session>)
    decreases |sessions|
  {
    sessions == []
    || (Untroubled(es, sessions[0]) && AllUntroubled(OutcomeAll(es, sessions[0].ops), sessions[1..]))
  }

  /** Whole cipher blocks of a size that can be loaded: what a crash between two writes leaves. */
  predicate WholeBlocksLeft(stale: seq<byte>) {
    |stale| % 16 == 0 && |stale| - 64 <= MAX_ALLOCATION
  }

  /** Old temporary files of whole cipher blocks trouble no life. */
  lemma {:induction false} LeftoversHarmless(es: seq<Entry>, sessions: seq<Session>)
    requires forall se | se in sessions :: WholeBlocksLeft(se.stale)
    ensures AllUntroubled(es, sessions)
    decreases |sessions|
  {
    hide OutcomeAll, AltersAny, Written;
    if sessions != [] {
      assert WholeBlocksLeft(sessions[0].stale);
      LeftoversHarmless(OutcomeAll(es, sessions[0].ops), sessions[1..]);
    }
  }

  /** Neither does having none. */
  lemma NoLeftovers(es: seq<Entry>, sessions: seq<Session>)
    requires forall se | se in sessions :: se.stale == []
    ensures AllUntroubled(es, sessions)
  {
    LeftoversHarmless(es, sessions);
  }

  function PadBytes(pad: nat -> byte, size: nat): (p: seq<byte>)
    ensures |p| == Padding(size) && forall i | 0 <= i < |p| :: p[i] == pad(i)
  {
    seq(Padding(size), i requires 0 <= i => pad(i))
  }

  /** The file that closing leaves. */
  function Closed(c: Crypto, file: seq<byte>, s: WalletState, se: Session): seq<byte>
  {
    if !s.modified then file
    else ClosedFile(c, s, se.iv, se.fill, PadBytes(se.pad, TotalSize(s.entries)), se.stale)
  }

  /** The wallet that opening puts into memory, when there is one. */
  function Loaded(r: OpenResult): Option<WalletState> {
    if r.Refused? || r.size > |r.data| then None
    else match Parse(r.data[..r.size])
      case None => None
      case Some(es) => Some(WalletState(es, r.key, r.salt, false))
  }

  /** Opening, making the calls and closing: the file that this leaves. */
  function RunSession(c: Crypto, file: seq<byte>, password: seq<byte>, se: Session): Option<seq<byte>>
  {
    if |file| < 64 then None
    else match Loaded(OpenFile(c, file, password))
      case None => None
      case Some(s) => Some(Closed(c, file, ApplyAll(c, s, se.ops), se))
  }

  /** A whole life: every session is opened with the password that the sessions before it have left. */
  function Live(c: Crypto, file: seq<byte>, password: seq<byte>, sessions: seq<Session>): Option<seq<byte>>
    decreases |sessions|
  {
    if sessions == [] then Some(file)
    else match RunSession(c, file, password, sessions[0])
      case None => None
      case Some(f) => Live(c, f, PasswordAfter(password, sessions[0].ops), sessions[1..])
  }

  function AllOps(sessions: seq<Session>): seq<Op>
    decreases |sessions|
  {
    if sessions == [] then [] else sessions[0].ops + AllOps(sessions[1..])
  }

  lemma LoadedIsStored(c: Crypto, file: seq<byte>, password: seq<byte>, es: seq<Entry>)
    requires Stores(c, file, password, es)
    ensures var r := OpenFile(c, file, password);
            && Loaded(r) == Some(WalletState(es, r.key, r.salt, false))
            && Sound(c, Loaded(r).value, password)
  {
    hide Parse, Flatten, Decrypt, PasswordMatch, Compatible;
    ParseEncode(es);
  }

  lemma SessionKeeps(c: Crypto, file: seq<byte>, password: seq<byte>, es: seq<Entry>, se: Session)
    requires Invertible(c) && Stores(c, file, password, es) && Proper(se)
    ensures var f, next := RunSession(c, file, password, se), PasswordAfter(password, se.ops);
            && f.Some? && |f.value| >= 64
            && (Untroubled(es, se) ==> Stores(c, f.value, next, OutcomeAll(es, se.ops)))
            && (!Untroubled(es, se) ==> OpenFile(c, f.value, next).Refused?)
  {
    hide AltersAny, StaleHarmless, OpenFile, Flatten, ClosedFile, Sound, Loaded, Represents, Padding;
    LoadedIsStored(c, file, password, es);
    var s := Loaded(OpenFile(c, file, password)).value;
    ApplyAllSound(c, s, password, se.ops);
    var t := ApplyAll(c, s, se.ops);
    if t.modified {
      var pad := PadBytes(se.pad, TotalSize(t.entries));
      ReopenClosed(c, t, PasswordAfter(password, se.ops), se.iv, se.fill, pad, se.stale);
    }
  }

  lemma {:induction false} OutcomeAllAppend(es: seq<Entry>, a: seq<Op>, b: seq<Op>)
    ensures OutcomeAll(es, a + b) == OutcomeAll(OutcomeAll(es, a), b)
    decreases |a|
  {
    hide Outcome;
    if a == [] {
      assert a + b == b;
    } else {
      TakeDropAppend(a, b, 1);
      OutcomeAllAppend(Outcome(es, a[0]), a[1..], b);
    }
  }

  lemma {:induction false} PasswordAfterAppend(password: seq<byte>, a: seq<Op>, b: seq<Op>)
    ensures PasswordAfter(password, a + b) == PasswordAfter(PasswordAfter(password, a), b)
    decreases |a|
  {
    if a == [] {
      assert a + b == b;
    } else {
      TakeDropAppend(a, b, 1);
      PasswordAfterAppend(if a[0].ChangePassword? then a[0].password else password, a[1..], b);
    }
  }

  /** A life goes well exactly when no session is troubled by an old temporary file: then every session opens,
      and the file it ends with opens to what all the calls, made one after the other on a plain sequence of
      pairs, amount to. */
  lemma {:induction false} LifeKeeps(c: Crypto, file: seq<byte>, password: seq<byte>, es: seq<Entry>,
      sessions: seq<Session>)
    requires Invertible(c) && Stores(c, file, password, es)
    requires forall se | se in sessions :: Proper(se)
    ensures var f, ops := Live(c, file, password, sessions), AllOps(sessions);
            f.Some? && Stores(c, f.value, PasswordAfter(password, ops), OutcomeAll(es, ops))
            <==> AllUntroubled(es, sessions)
    decreases |sessions|
  {
    hide Stores, RunSession, OutcomeAll, PasswordAfter, Untroubled, OpenFile;
    if sessions == [] {
      NoOps(es, password);
    } else {
      var se, rest := sessions[0], sessions[1..];
      SessionKeeps(c, file, password, es, se);
      var f, next := RunSession(c, file, password, se).value, PasswordAfter(password, se.ops);
      if Untroubled(es, se) {
        LifeKeeps(c, f, next, OutcomeAll(es, se.ops), rest);
      } else {
        RefusedEnds(c, f, next, rest, OutcomeAll(OutcomeAll(es, se.ops), AllOps(rest)));
      }
      OutcomeAllAppend(es, se.ops, AllOps(rest));
      PasswordAfterAppend(password, se.ops, AllOps(rest));
    }
  }

  /** A file that does not open ends a life: it stores nothing, and no session can follow. */
  lemma RefusedEnds(c: Crypto, file: seq<byte>, password: seq<byte>, sessions: seq<Session>, es: seq<Entry>)
    requires |file| >= 64 && OpenFile(c, file, password).Refused?
    ensures var f := Live(c, file, password, sessions);
            f.None? || (f == Some(file) && !Stores(c, file, PasswordAfter(password, AllOps(sessions)), es))
  {
    hide OpenFile, OutcomeAll;
  }

  lemma NoOps(es: seq<Entry>, password: seq<byte>)
    ensures OutcomeAll(es, []) == es && PasswordAfter(password, []) == password
  {}

  /** From creation on. */
  lemma LifeFromCreation(c: Crypto, password: seq<byte>, salt: Block, iv: Block, sessions: seq<Session>)
    requires Invertible(c) && forall se | se in sessions :: Proper(se)
    ensures var file := Image(c, c.derive(salt, password), salt, iv, Header([0, 0, 0], 0, 0));
            var f, ops := Live(c, file, password, sessions), AllOps(sessions);
            f.Some? && Stores(c, f.value, PasswordAfter(password, ops), OutcomeAll([], ops))
            <==> AllUntroubled([], sessions)
  {
    CreatedStores(c, password, salt, iv);
    LifeKeeps(c, Image(c, c.derive(salt, password), salt, iv, Header([0, 0, 0], 0, 0)), password, [], sessions);
  }

  //// The code runs sessions

  /** The calls of a session, one after the other, on the wallet itself. */
  method Perform(c: Crypto, w: Wallet, ops: seq<Op>)
    requires w.Valid() && forall op | op in ops :: Passable(op)
    modifies w, w.data
    ensures w.Valid() && (w.data == old(w.data) || fresh(w.data))
    ensures w.State() == ApplyAll(c, old(w.State()), ops)
  {
    var rest := ops;
    while rest != []
      invariant w.Valid() && (w.data == old(w.data) || fresh(w.data))
      invariant forall op | op in rest :: Passable(op)
      invariant ApplyAll(c, w.State(), rest) == ApplyAll(c, old(w.State()), ops)
      decreases |rest|
    {
      PerformOne(c, w, rest[0]);
      rest := rest[1..];
    }
  }

  method PerformOne(c: Crypto, w: Wallet, op: Op)
    requires w.Valid() && Passable(op)
    modifies w, w.data
    ensures w.Valid() && (w.data == old(w.data) || fresh(w.data))
    ensures w.State() == Apply(c, old(w.State()), op)
  {
    match op
    case Add(key, value) => var r := w.AddKey(key, value);
    case Delete(key) => var r := w.DeleteKey(key);
    case Read(key) => var r := w.ReadKeyValue(key);
    case ChangePassword(password) => var r := w.ChangePassword(c, password);
  }

  /** A wallet opened on a stored file is a valid one, in the state the file stands for. */
  lemma OpenedIsValid(c: Crypto, w: Wallet, file: seq<byte>, password: seq<byte>, es: seq<Entry>)
    requires Stores(c, file, password, es)
    requires var r := OpenFile(c, file, password);
             w.data[..] == r.data && w.size == r.size && w.count == r.count
             && w.key == r.key && w.salt == r.salt && !w.modified
    ensures w.Valid() && Some(w.State()) == Loaded(OpenFile(c, file, password))
  {
    hide OpenFile, ParseAt, Flatten;
    assert w.Bytes() == w.data[..][..w.size];
    w.Laid(es);
    LoadedIsStored(c, file, password, es);
  }

  /** Opening a stored wallet. */
  method OpenStored(c: Crypto, disk: Disk, password: seq<byte>, ghost es: seq<Entry>) returns (w: Wallet)
    requires disk.wallet.Some? && Stores(c, disk.wallet.value, password, es) && |disk.wallet.value| < U64 / 2
    ensures fresh(w) && fresh(w.data) && w.Valid() && w.Entries() == es
    ensures Some(w.State()) == Loaded(OpenFile(c, disk.wallet.value, password))
  {
    hide OpenFile, ParseAt, Flatten;
    var r, wallet := Open(c, disk.wallet, password);
    w := wallet;
    OpenedIsValid(c, w, disk.wallet.value, password, es);
    LoadedIsStored(c, disk.wallet.value, password, es);
  }

  /** Closing a wallet after some calls; the ghost session records what closing does not decide itself. */
  method CloseAfter(c: Crypto, w: Wallet, disk: Disk, iv: Block, ghost ops: seq<Op>) returns (ghost se: Session)
    requires w.Valid() && disk.wallet.Some?
    modifies w, disk
    ensures se.ops == ops && se.iv == iv && se.stale == Stale(old(disk.temp))
    ensures disk.wallet == Some(Closed(c, old(disk.wallet.value), old(w.State()), se))
    ensures disk.temp == if old(w.modified) then None else old(disk.temp)
  {
    hide ParseAt, Flatten, Padding, ClosedFile;
    ghost var s := w.State();
    ghost var fill, pad;
    var r;
    r, fill, pad := Close(c, w, disk, iv);
    se := Session(ops, iv, if s.modified then fill else [0, 0, 0],
      (i: nat) => if i < |pad| then pad[i] else 0, Stale(old(disk.temp)));
    assert s.modified ==> PadBytes(se.pad, TotalSize(s.entries)) == pad;
  }

  /** Opening, using and closing a stored wallet leaves the file that the session stands for. */
  method UseWallet(c: Crypto, disk: Disk, password: seq<byte>, ops: seq<Op>, iv: Block, ghost es: seq<Entry>)
    returns (ghost se: Session)
    requires disk.wallet.Some? && Stores(c, disk.wallet.value, password, es) && |disk.wallet.value| < U64 / 2
    requires forall op | op in ops :: Passable(op)
    modifies disk
    ensures se.ops == ops && se.iv == iv && se.stale == Stale(old(disk.temp))
    ensures disk.wallet == RunSession(c, old(disk.wallet.value), password, se)
  {
    hide OpenFile, ParseAt, Flatten, Closed;
    var w := OpenStored(c, disk, password, es);
    Perform(c, w, ops);
    se := CloseAfter(c, w, disk, iv, ops);
  }
}
