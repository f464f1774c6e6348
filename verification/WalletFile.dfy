/**
  The wallet on disk: 16 bytes of salt, 16 bytes of initialization vector, then, in one chained
  encryption, a 32-byte header, the nodes and their padding. Creating, opening and closing.
 */
module WalletFile {
  import opened Bytes
  import opened Sequences
  import opened Cbc
  import opened Files
  import opened WalletNodes
  import opened OpenWallet

  //// The header

  const MAGIC_STRING: seq<byte> := [0x6C, 0x78, 0x71, 0x74, 0x5F, 0x77, 0x61, 0x6C, 0x6C, 0x65, 0x74]
  const VERSION: nat := 200

  /** The 32 header bytes; `fill` is whatever the three bytes behind the version held before. */
  function Header(fill: seq<byte>, size: nat, count: nat): (h: seq<byte>)
    requires |fill| == 3
    ensures |h| == 32
  {
    MAGIC_STRING + Le(VERSION, 2) + fill + Le(size, 8) + Le(count, 8)
  }

  predicate PasswordMatch(h: seq<byte>)
    requires |h| == 32
  {
    h[..11] == MAGIC_STRING
  }

  predicate Compatible(h: seq<byte>)
    requires |h| == 32
  {
    VERSION <= ReadLe(h, 11, 2) < VERSION + 100
  }

  function LoadSize(h: seq<byte>): nat
    requires |h| == 32
  {
    ReadLe(h, 16, 8)
  }

  function LoadCount(h: seq<byte>): nat
    requires |h| == 32
  {
    ReadLe(h, 24, 8)
  }

  lemma HeaderParts(m: seq<byte>, v: seq<byte>, f: seq<byte>, s: seq<byte>, c: seq<byte>)
    requires |m| == 11 && |v| == 2 && |f| == 3 && |s| == 8 && |c| == 8
    ensures var h := m + v + f + s + c;
            h[..11] == m && h[11..13] == v && h[13..16] == f && h[16..24] == s && h[24..32] == c
  {}

  lemma HeaderReadsBack(fill: seq<byte>, size: nat, count: nat)
    requires |fill| == 3 && size < U64 && count < U64
    ensures var h := Header(fill, size, count);
            PasswordMatch(h) && Compatible(h) && LoadSize(h) == size && LoadCount(h) == count
  {
    hide Le, ReadLe, FromLe;
    var h := Header(fill, size, count);
    HeaderParts(MAGIC_STRING, Le(VERSION, 2), fill, Le(size, 8), Le(count, 8));
    Widths();
    ReadLeIsFromLe(h, 11, 2);
    ReadLeIsFromLe(h, 16, 8);
    ReadLeIsFromLe(h, 24, 8);
    FromLeLe(VERSION, 2);
    FromLeLe(size, 8);
    FromLeLe(count, 8);
  }

  /** The text in the magic string. */
  ghost predicate Known(h: seq<byte>)
    requires |h| == 32
  {
    forall i | 0 <= i < 11 :: h[i] == "lxqt_wallet"[i] as int
  }

  /** The text, and behind it a version of the two hundreds. */
  ghost predicate Ours(h: seq<byte>)
    requires |h| == 32
  {
    Known(h) && 200 <= h[11] as int + 256 * h[12] as int < 300
  }

  lemma HeaderChecks(h: seq<byte>)
    requires |h| == 32
    ensures PasswordMatch(h) <==> Known(h)
    ensures PasswordMatch(h) && Compatible(h) <==> Ours(h)
  {
    hide ReadLe;
    WeightsOfBytes(h, 11);
    assert forall i | 0 <= i < 11 :: MAGIC_STRING[i] == "lxqt_wallet"[i] as int;
    assert forall i | 0 <= i < 11 :: h[..11][i] == h[i];
  }

  lemma VersionBytes()
    ensures Le(VERSION, 2) == [200, 0]
  {}

  /** What the header holds byte by byte: a text, the version, the fill, the size and the count. */
  lemma HeaderLayout(fill: seq<byte>, size: nat, count: nat)
    requires |fill| == 3 && size < U64 && count < U64
    ensures var h := Header(fill, size, count);
            && Known(h)
            && h[11] == 200 && h[12] == 0 && h[13..16] == fill
            && ReadLe(h, 16, 8) == size && ReadLe(h, 24, 8) == count
  {
    hide Le, ReadLe, FromLe;
    var h := Header(fill, size, count);
    HeaderReadsBack(fill, size, count);
    HeaderParts(MAGIC_STRING, Le(VERSION, 2), fill, Le(size, 8), Le(count, 8));
    assert h[11..13][0] == h[11] && h[11..13][1] == h[12];
    VersionBytes();
    assert MAGIC_STRING[0] == 'l' as int;
  }

  //// The file

  /** A file with this salt and vector that decrypts to `plain`. */
  function Image(c: Crypto, key: Key, salt: Block, iv: Block, plain: seq<byte>): (f: seq<byte>)
    requires |plain| % 16 == 0
    ensures |f| == 32 + |plain|
  {
    salt + iv + Encrypt(c, key, iv, plain)
  }

  /** The salt, the vector, then one chained encryption of everything else. */
  lemma ImageLayout(c: Crypto, key: Key, salt: Block, iv: Block, plain: seq<byte>)
    requires |plain| % 16 == 0
    ensures var f := Image(c, key, salt, iv, plain);
            f[..16] == salt && f[16..32] == iv && f[32..] == Encrypt(c, key, iv, plain)
  {
    hide Encrypt;
  }

  datatype OpenResult =
    | Refused(error: WalletError)
    | Opened(data: seq<byte>, size: nat, count: nat, key: Key, salt: Block)

  /** What opening a file of at least 64 bytes comes to. */
  function OpenFile(c: Crypto, file: seq<byte>, password: seq<byte>): OpenResult
    requires |file| >= 64
  {
    hide Decrypt, NextIv, ReadLe;
    var salt: Block, iv: Block := file[..16], file[16..32];
    var key := c.derive(salt, password);
    var h := Decrypt(c, key, iv, file[32..64]);
    if !PasswordMatch(h) then Refused(WrongPassword)
    else if !Compatible(h) then Refused(IncompatibleWallet)
    else if |file| == 64 then Opened([], 0, 0, key, salt)
    else if |file| - 64 > MAX_ALLOCATION then Refused(FailedToAllocateMemory)
    else if |file| % 16 != 0 then Refused(DecryptFailed)
    else Opened(Decrypt(c, key, NextIv(iv, file[32..64]), file[64..]), LoadSize(h), LoadCount(h), key, salt)
  }

  /** Every outcome by what the decrypted header holds and by the length of the file. */
  lemma OpenOutcomes(c: Crypto, file: seq<byte>, password: seq<byte>)
    requires |file| >= 64
    ensures var h := Decrypt(c, c.derive(file[..16], password), file[16..32], file[32..64]);
            var r, fits := OpenFile(c, file, password), |file| - 64 <= MAX_ALLOCATION;
            && (r == Refused(WrongPassword) <==> !Known(h))
            && (r == Refused(IncompatibleWallet) <==> Known(h) && !Ours(h))
            && (r == Refused(FailedToAllocateMemory) <==> Ours(h) && !fits)
            && (r == Refused(DecryptFailed) <==> Ours(h) && fits && |file| % 16 != 0)
            && (r.Opened? <==> Ours(h) && fits && |file| % 16 == 0)
  {
    hide Decrypt, NextIv, PasswordMatch, Compatible, Known, Ours;
    var h := Decrypt(c, c.derive(file[..16], password), file[16..32], file[32..64]);
    HeaderChecks(h);
  }

  /** What a file that opens decrypts to, in one piece: the header and the load that opening decrypts. */
  lemma TwoPieces(c: Crypto, key: Key, file: seq<byte>)
    requires |file| >= 64 && |file| % 16 == 0
    ensures |file[32..]| % 16 == 0 && |file[64..]| % 16 == 0
    ensures var iv := file[16..32];
            Decrypt(c, key, iv, file[32..]) ==
              Decrypt(c, key, iv, file[32..64]) + Decrypt(c, key, NextIv(iv, file[32..64]), file[64..])
  {
    hide Decrypt, NextIv;
    assert file[32..] == file[32..64] + file[64..];
    DecryptAppend(c, key, file[16..32], file[32..64], file[64..]);
  }

  /** The numbers in a header, read where it stands in front of a load. */
  lemma HeadNumbers(h: seq<byte>, load: seq<byte>)
    requires |h| == 32
    ensures ReadLe(h + load, 16, 8) == LoadSize(h) && ReadLe(h + load, 24, 8) == LoadCount(h)
  {
    hide ReadLe, FromLe;
    assert (h + load)[16..24] == h[16..24] && (h + load)[24..32] == h[24..32];
    ReadLeIsFromLe(h, 16, 8);
    ReadLeIsFromLe(h, 24, 8);
    ReadLeIsFromLe(h + load, 16, 8);
    ReadLeIsFromLe(h + load, 24, 8);
  }

  /** A wallet that opens holds the decryption of everything behind the vector, less the header in front of it. */
  lemma OpenedHolds(c: Crypto, file: seq<byte>, password: seq<byte>, plain: seq<byte>)
    requires |file| >= 64 && |file[32..]| % 16 == 0 && OpenFile(c, file, password).Opened?
    requires plain == Decrypt(c, c.derive(file[..16], password), file[16..32], file[32..])
    ensures var r := OpenFile(c, file, password);
            && r.salt == file[..16] && r.key == c.derive(file[..16], password) && r.data == plain[32..]
            && (if |file| == 64 then r.size == 0 && r.count == 0
                else r.size == ReadLe(plain, 16, 8) && r.count == ReadLe(plain, 24, 8))
  {
    hide Decrypt, NextIv, PasswordMatch, Compatible, ReadLe, LoadSize, LoadCount;
    var key, iv: Block := c.derive(file[..16], password), file[16..32];
    TwoPieces(c, key, file);
    var h, load := Decrypt(c, key, iv, file[32..64]), Decrypt(c, key, NextIv(iv, file[32..64]), file[64..]);
    assert plain == h + load;
    HeadNumbers(h, load);
  }

  class Disk {
    var wallet: Option<seq<byte>>
    var temp: Option<seq<byte>>
  }

  /** _create_magic_string_header: 13 bytes of a header buffer. */
  method CreateMagicStringHeader(buffer: array<byte>)
    requires buffer.Length == 32
    modifies buffer
    ensures buffer[..13] == MAGIC_STRING + Le(VERSION, 2) && buffer[13..] == old(buffer[13..])
  {
    hide Le;
    var at := Memcpy(buffer, 0, MAGIC_STRING, []);
    assert [] + MAGIC_STRING == MAGIC_STRING;
    at := Memcpy(buffer, at, Le(VERSION, 2), MAGIC_STRING);
  }

  /** write( fd,data,.. ) behind what this descriptor has already written over an old file. */
  method WriteOn(fd: Descriptor, data: seq<byte>, ghost stale: seq<byte>, ghost done: seq<byte>)
    requires fd.content == Overlay(stale, done) && fd.pos == |done|
    modifies fd
    ensures fd.content == Overlay(stale, done + data) && fd.pos == |done + data|
  {
    OverlayMore(stale, done, data);
    fd.Write(data);
  }

  //// Creating

  /** lxqt_wallet_create: a wallet file without entries, unless there is a file already. */
  method Create(c: Crypto, disk: Disk, password: seq<byte>, salt: Block, iv: Block) returns (r: WalletError)
    modifies disk
    ensures disk.temp == old(disk.temp)
    ensures old(disk.wallet).Some? ==> r == WalletExists && disk.wallet == old(disk.wallet)
    ensures old(disk.wallet).None? ==>
      && r == NoError
      && disk.wallet == Some(Image(c, c.derive(salt, password), salt, iv, Header([0, 0, 0], 0, 0)))
  {
    hide Encrypt, NextIv, Le, Header;
    if disk.wallet.Some? { return WalletExists; }
    var key := c.derive(salt, password);
    var handle := new CipherHandle(c, key, iv);
    var buffer := new byte[32](_ => 0);
    CreateMagicStringHeader(buffer);
    EmptyHeader(buffer[..]);
    var ok := handle.EncryptInPlace(buffer);
    var fd := new Descriptor([]);
    WriteOn(fd, salt, [], []);
    WriteOn(fd, iv, [], [] + salt);
    WriteOn(fd, buffer[..16], [], [] + salt + iv);
    WriteOn(fd, buffer[16..], [], [] + salt + iv + buffer[..16]);
    assert [] + salt + iv + buffer[..16] + buffer[16..] == salt + iv + buffer[..];
    disk.wallet := Some(fd.content);
    r := NoError;
  }

  /** A zeroed buffer under the magic string is the header of an empty wallet. */
  lemma EmptyHeader(h: seq<byte>)
    requires |h| == 32 && h[..13] == MAGIC_STRING + Le(VERSION, 2)
    requires forall i | 13 <= i < 32 :: h[i] == 0
    ensures h == Header([0, 0, 0], 0, 0)
  {}

  lemma {:induction false} LeZero(width: nat)
    ensures forall i | 0 <= i < width :: Le(0, width)[i] == 0
  {
    if width > 0 { LeZero(width - 1); }
  }

  //// Opening

  /** lseek, then read into the whole buffer. */
  method ReadAt(fd: Descriptor, at: nat, buf: array<byte>)
    modifies fd, buf
    ensures fd.content == old(fd.content)
    ensures at + buf.Length <= |fd.content| ==>
      buf[..] == fd.content[at..at + buf.Length] && fd.pos == at + buf.Length
  {
    fd.Seek(at);
    var k := fd.Read(buf);
    assert buf[..buf.Length] == buf[..];
  }

  /** _lxqt_wallet_open_0: the key from the stored salt, the handle on the stored vector, and the decrypted header. */
  method OpenHandle(c: Crypto, fd: Descriptor, password: seq<byte>)
    returns (handle: CipherHandle, salt: Block, header: array<byte>)
    modifies fd
    ensures fresh(handle) && fresh(header) && header.Length == 32 && fd.content == old(fd.content)
    ensures handle.crypto == c && handle.key == c.derive(salt, password)
    ensures |fd.content| >= 64 ==>
      var iv := fd.content[16..32];
      && salt == fd.content[..16] && fd.pos == 64
      && header[..] == Decrypt(c, handle.key, iv, fd.content[32..64])
      && handle.iv == NextIv(iv, fd.content[32..64])
  {
    hide Decrypt, NextIv;
    var s := new byte[16](_ => 0);
    ReadAt(fd, 0, s);
    salt := s[..];
    var iv := new byte[16];
    ReadAt(fd, 16, iv);
    handle := new CipherHandle(c, c.derive(salt, password), iv[..]);
    header := new byte[32];
    ReadAt(fd, 32, header);
    var ok := handle.DecryptInPlace(header);
  }

  /** lxqt_wallet_open */
  method Open(c: Crypto, file: Option<seq<byte>>, password: seq<byte>) returns (r: WalletError, w: Wallet?)
    requires file.Some? ==> |file.value| < U64 / 2
    ensures w != null ==> fresh(w) && fresh(w.data)
    ensures (r == NoError) == (w != null)
    ensures file.None? ==> r == FailedToOpenFile
    ensures file.Some? && |file.value| < 64 ==> r in {WrongPassword, IncompatibleWallet, FailedToAllocateMemory}
    ensures file.Some? && |file.value| >= 64 ==>
      match OpenFile(c, file.value, password)
      case Refused(error) => r == error && error != NoError
      case Opened(data, size, count, key, salt) =>
        && r == NoError && w.data[..] == data && w.size == size && w.count == count
        && w.key == key && w.salt == salt && !w.modified
  {
    hide Decrypt, NextIv, ReadLe, PasswordMatch;
    w := null;
    if file.None? { return FailedToOpenFile, null; }
    var fd := new Descriptor(file.value);
    var handle, salt, header := OpenHandle(c, fd, password);
    if !PasswordMatch(header[..]) { return WrongPassword, null; }
    if !Compatible(header[..]) { return IncompatibleWallet, null; }
    var len := (|fd.content| - 64) % U64;
    if len == 0 {
      var none := new byte[0];
      w := new Wallet(none, 0, 0, handle.key, salt);
      return NoError, w;
    }
    if len > MAX_ALLOCATION { return FailedToAllocateMemory, null; }
    var e := new byte[len];
    var k := fd.Read(e);
    assert len == |fd.content| - 64 == k;
    assert e[..] == e[..k] == file.value[64..64 + len] == file.value[64..];
    var ok := handle.DecryptInPlace(e);
    if !ok { return DecryptFailed, null; }
    w := new Wallet(e, LoadSize(header[..]), LoadCount(header[..]), handle.key, salt);
    r := NoError;
  }

  //// Closing

  /** The padding that brings a load to a multiple of 32 bytes. */
  function Padding(size: nat): (n: nat)
    ensures n < 32 && (size + n) % 32 == 0
  {
    if size % 32 == 0 then 0 else 32 - size % 32
  }

  lemma PaddingStep(k: nat)
    requires k % 32 != 0
    ensures Padding(k + 1) == Padding(k) - 1
  {}

  lemma PaddedIsWhole(size: nat)
    ensures (32 + (size + Padding(size))) % 16 == 0 && (size + Padding(size)) % 16 == 0
  {}

  /** What closing a modified wallet encrypts. */
  function Plain(fill: seq<byte>, es: seq<Entry>, pad: seq<byte>): (p: seq<byte>)
    requires |fill| == 3 && |pad| == Padding(TotalSize(es))
    ensures |p| == 32 + TotalSize(es) + |pad| && |p| % 16 == 0
  {
    EncodedSize(es);
    PaddedIsWhole(TotalSize(es));
    Header(fill, TotalSize(es), |es|) + (Encode(es) + pad)
  }

  /** The new file: the image of the wallet, over whatever an old temporary file holds. */
  function ClosedFile(c: Crypto, s: WalletState, iv: Block, fill: seq<byte>, pad: seq<byte>, stale: seq<byte>): seq<byte>
    requires |fill| == 3 && |pad| == Padding(TotalSize(s.entries))
  {
    Overlay(stale, Image(c, s.key, s.salt, iv, Plain(fill, s.entries, pad)))
  }

  function Stale(temp: Option<seq<byte>>): seq<byte> {
    match temp
    case None => []
    case Some(bytes) => bytes
  }

  lemma EmptyPlain(fill: seq<byte>, es: seq<Entry>)
    requires |fill| == 3 && TotalSize(es) == 0
    ensures Padding(TotalSize(es)) == 0 && Plain(fill, es, []) == Header(fill, TotalSize(es), |es|)
  {}

  /** The 64 bytes that every wallet file starts with. */
  method WriteHead(fd: Descriptor, salt: Block, iv: Block, buffer: array<byte>, ghost stale: seq<byte>)
    requires fd.content == stale && fd.pos == 0
    modifies fd
    ensures fd.content == Overlay(stale, salt + iv + buffer[..]) && fd.pos == |salt + iv + buffer[..]|
  {
    assert [] + salt == salt;
    assert Overlay(stale, []) == stale;
    WriteOn(fd, salt, stale, []);
    WriteOn(fd, iv, stale, salt);
    WriteOn(fd, buffer[..], stale, salt + iv);
  }

  /** The encrypted header of a wallet that is being closed; `fill` are the bytes nobody has set. */
  method CloseHeader(handle: CipherHandle, size: nat, count: nat) returns (buffer: array<byte>, ghost fill: seq<byte>)
    modifies handle
    ensures fresh(buffer) && buffer.Length == 32 && |fill| == 3
    ensures buffer[..] == Encrypt(handle.crypto, handle.key, old(handle.iv), Header(fill, size, count))
    ensures handle.iv == NextIv(old(handle.iv), buffer[..])
  {
    hide Le, Encrypt, NextIv;
    buffer := new byte[32];
    CreateMagicStringHeader(buffer);
    fill := buffer[13..16];
    ghost var m, v := MAGIC_STRING, Le(VERSION, 2);
    assert buffer[..16] == m + v + fill;
    var at := Memcpy(buffer, 16, Le(size, 8), m + v + fill);
    at := Memcpy(buffer, at, Le(count, 8), m + v + fill + Le(size, 8));
    assert buffer[..] == Header(fill, size, count);
    var ok := handle.EncryptInPlace(buffer);
  }

  /** The loop that rounds the load size up. */
  method PaddedSize(size: nat) returns (k: nat)
    ensures k == size + Padding(size) && k % 32 == 0
    ensures forall m: nat | m >= size && m % 32 == 0 :: k <= m
  {
    k := size;
    while k % 32 != 0
      invariant size <= k && k + Padding(k) == size + Padding(size)
      invariant forall m: nat | size <= m < k :: m % 32 != 0
      decreases Padding(k)
    {
      PaddingStep(k);
      k := k + 1;
    }
  }

  /** The encrypted load: the nodes in a block grown to a multiple of 32; `pad` is what the growth left in it. */
  method CloseLoad(handle: CipherHandle, data: array<byte>, size: nat) returns (e: array<byte>, ghost pad: seq<byte>)
    requires size <= data.Length && size > 0
    modifies handle
    ensures fresh(e) && |pad| == Padding(size) && |data[..size] + pad| % 16 == 0
    ensures e[..] == Encrypt(handle.crypto, handle.key, old(handle.iv), data[..size] + pad)
  {
    hide Encrypt, NextIv, Padding;
    var k := PaddedSize(size);
    PaddedIsWhole(size);
    e := new byte[k];
    var at := Memcpy(e, 0, data[..size], []);
    pad := e[size..];
    assert [] + data[..size] == data[..size];
    SplitAt(e[..], size);
    var ok := handle.EncryptInPlace(e);
  }

  lemma OneEncryption(c: Crypto, key: Key, iv: Block, head: seq<byte>, load: seq<byte>)
    requires |head| % 16 == 0 && |load| % 16 == 0
    ensures var y := Encrypt(c, key, iv, head);
            |head + load| % 16 == 0 && Encrypt(c, key, iv, head + load) == y + Encrypt(c, key, NextIv(iv, y), load)
  {
    EncryptAppend(c, key, iv, head, load);
  }

  /** lxqt_wallet_close. An unmodified wallet writes nothing. The temporary file is opened without being
      truncated, so what an old one holds behind the new bytes stays. */
  method Close(c: Crypto, w: Wallet, disk: Disk, iv: Block)
    returns (r: WalletError, ghost fill: seq<byte>, ghost pad: seq<byte>)
    requires w.Valid()
    modifies w, disk
    ensures r == NoError
    ensures !old(w.modified) ==> disk.wallet == old(disk.wallet) && disk.temp == old(disk.temp)
    ensures old(w.modified) ==>
      && |fill| == 3 && |pad| == Padding(TotalSize(old(w.Entries())))
      && disk.temp == None
      && disk.wallet == Some(ClosedFile(c, old(w.State()), iv, fill, pad, Stale(old(disk.temp))))
  {
    hide ParseAt, Encrypt, NextIv, Flatten, Header, Padding;
    fill, pad := [], [];
    if !w.modified { return NoError, fill, pad; }
    w.Layout();
    var handle := new CipherHandle(c, w.key, iv);
    var buffer, f := CloseHeader(handle, w.size, w.count);
    ghost var stale, es := Stale(disk.temp), w.Entries();
    var fd := new Descriptor(Stale(disk.temp));
    ghost var head := w.salt + iv + buffer[..];
    fill := f;
    if w.size == 0 {
      WriteHead(fd, w.salt, iv, buffer, stale);
      EmptyPlain(fill, es);
    } else {
      var e, p := CloseLoad(handle, w.data, w.size);
      pad := p;
      WriteHead(fd, w.salt, iv, buffer, stale);
      WriteOn(fd, e[..], stale, head);
      OneEncryption(c, w.key, iv, Header(fill, w.size, w.count), Encode(es) + pad);
      Associative(w.salt + iv, buffer[..], e[..]);
    }
    disk.wallet := Some(fd.content);
    disk.temp := None;
    r := NoError;
  }
}
