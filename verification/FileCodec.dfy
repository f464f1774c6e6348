/**
  Encrypting a file and decrypting it again: the writer's chained calls of 32 and then 1024 bytes, the
  reader's count of whole blocks and its remainder, and the progress both report.
 */
module FileCodec {
  import opened Arithmetic
  import opened Bytes
  import opened Sequences
  import opened Cbc
  import opened Files
  import opened WalletNodes
  import opened OpenWallet
  import opened WalletFile

  const FILE_BLOCK_SIZE: nat := 1024

  //// Progress

  /** ( i * 100 / size ) on 64-bit integers. */
  function Percent(done: nat, size: nat): nat
    requires size > 0
  {
    done * 100 % U64 / size
  }

  function Last(reports: seq<nat>): nat {
    if reports == [] then 0 else reports[|reports| - 1]
  }

  /** What has been reported after so many whole blocks. */
  function Reports(size: nat, blocks: nat): seq<nat> {
    if blocks == 0 || size == 0 then []
    else
      var before, j := Reports(size, blocks - 1), Percent(blocks * FILE_BLOCK_SIZE, size);
      if j > Last(before) then before + [j] else before
  }

  ghost predicate Increasing(reports: seq<nat>) {
    forall i, j | 0 <= i < j < |reports| :: reports[i] < reports[j]
  }

  lemma PercentInRange(done: nat, size: nat)
    requires done <= size && size > 0
    ensures Percent(done, size) <= 100
  {}

  /** For every size, even one whose hundredfold does not fit 64 bits: each report is larger than the one
      before it and lies in 1..100, so there are at most a hundred of them. */
  lemma {:induction false} ReportsGrow(size: nat, blocks: nat)
    requires blocks * FILE_BLOCK_SIZE <= size
    ensures var r := Reports(size, blocks);
            Increasing(r) && (forall x | x in r :: 1 <= x <= 100) && |r| <= Last(r) <= 100
    decreases blocks
  {
    if blocks > 0 {
      ReportsGrow(size, blocks - 1);
      PercentInRange(blocks * FILE_BLOCK_SIZE, size);
    }
  }

  /** The report of a block: no block before it has reached that percentage. */
  ghost predicate FirstAt(size: nat, b: nat, x: nat)
    requires size > 0
  {
    b > 0 && Percent(b * FILE_BLOCK_SIZE, size) == x && forall e: nat | e < b :: Percent(e * FILE_BLOCK_SIZE, size) < x
  }

  /** The reports are the percentages that some block is the first to reach, and no others. */
  lemma {:induction false} ReportsAre(size: nat, blocks: nat, x: nat)
    requires 0 < size
    ensures x in Reports(size, blocks) <==> exists b: nat | b <= blocks :: FirstAt(size, b, x)
    decreases blocks
  {
    hide Percent;
    if blocks > 0 {
      ReportsAre(size, blocks - 1, x);
      LastIsHighest(size, blocks - 1);
      var j := Percent(blocks * FILE_BLOCK_SIZE, size);
      if j > Last(Reports(size, blocks - 1)) && x == j { assert FirstAt(size, blocks, x); }
    }
  }

  /** The last report is the highest percentage so far, and some block has it. */
  lemma {:induction false} LastIsHighest(size: nat, blocks: nat)
    requires 0 < size
    ensures forall e: nat | e <= blocks :: Percent(e * FILE_BLOCK_SIZE, size) <= Last(Reports(size, blocks))
    ensures exists e: nat :: e <= blocks && Percent(e * FILE_BLOCK_SIZE, size) == Last(Reports(size, blocks))
    decreases blocks
  {
    assert Percent(0 * FILE_BLOCK_SIZE, size) == 0;
    hide Percent;
    if blocks > 0 { LastIsHighest(size, blocks - 1); }
  }

  /** A hundred times the last whole block fits 64 bits. */
  predicate Fits(size: nat) {
    size / FILE_BLOCK_SIZE * FILE_BLOCK_SIZE * 100 < U64
  }

  /** Every percentage that the loops compute is the true one exactly when a hundred times the last whole
      block fits 64 bits. */
  lemma PercentExact(size: nat)
    requires 0 < size < U64
    ensures (forall b: nat | b * FILE_BLOCK_SIZE <= size ::
               Percent(b * FILE_BLOCK_SIZE, size) == b * FILE_BLOCK_SIZE * 100 / size)
            <==> Fits(size)
  {
    var n := size / FILE_BLOCK_SIZE;
    if Fits(size) {
      forall b: nat | b * FILE_BLOCK_SIZE <= size
        ensures Percent(b * FILE_BLOCK_SIZE, size) == b * FILE_BLOCK_SIZE * 100 / size
      {
        TrueWhenFits(size, b);
      }
    } else {
      var x := n * FILE_BLOCK_SIZE * 100;
      assert x % U64 <= x - U64 <= x - size;
      QuotientMonotone(x % U64, x - size, size);
      QuotientLess(x, size);
      assert Percent(n * FILE_BLOCK_SIZE, size) != x / size;
    }
  }

  lemma TrueWhenFits(size: nat, b: nat)
    requires 0 < size && b * FILE_BLOCK_SIZE <= size && Fits(size)
    ensures Percent(b * FILE_BLOCK_SIZE, size) == b * FILE_BLOCK_SIZE * 100 / size
  {
    hide Percent;
    QuotientMonotone(b * FILE_BLOCK_SIZE, size, FILE_BLOCK_SIZE);
    assert b * FILE_BLOCK_SIZE * 100 < U64;
    TrueWhenSmall(b * FILE_BLOCK_SIZE, size);
  }

  lemma TrueWhenSmall(done: nat, size: nat)
    requires size > 0 && done * 100 < U64
    ensures Percent(done, size) == done * 100 / size
  {}

  /** A size that does not fit: the loops compute 2 half way through. */
  lemma PercentOfHugeFile()
    ensures var size, half := 0x4000_0000_0000_0000, 0x8_0000_0000_0000;
            && half * FILE_BLOCK_SIZE * 2 == size
            && Percent(half * FILE_BLOCK_SIZE, size) == 2 && half * FILE_BLOCK_SIZE * 100 / size == 50
  {}

  /** Then the last report is always the percentage reached. */
  lemma {:induction false} LastReport(size: nat, blocks: nat)
    requires blocks * FILE_BLOCK_SIZE <= size && 0 < size && Fits(size)
    ensures Last(Reports(size, blocks)) == blocks * FILE_BLOCK_SIZE * 100 / size
    decreases blocks
  {
    hide Percent;
    if blocks > 0 {
      LastReport(size, blocks - 1);
      TrueWhenFits(size, blocks);
      QuotientMonotone((blocks - 1) * FILE_BLOCK_SIZE * 100, blocks * FILE_BLOCK_SIZE * 100, size);
    } else {
      assert 0 / size == 0;
    }
  }

  /** The callback lets the work go on. It may decide by everything that it has been told so far. */
  predicate GoesOn(cancel: seq<nat> -> bool, reports: seq<nat>) {
    reports == [] || !cancel(reports)
  }

  /** The loop over the whole blocks ends behind this many of them: at the first report that cancels. */
  ghost predicate StopsBehind(cancel: seq<nat> -> bool, size: nat, blocks: nat) {
    && blocks <= size / FILE_BLOCK_SIZE
    && (forall k: nat | k < blocks :: GoesOn(cancel, Reports(size, k)))
    && (blocks < size / FILE_BLOCK_SIZE ==> !GoesOn(cancel, Reports(size, blocks)))
  }

  ghost predicate NeverCancels(cancel: seq<nat> -> bool) {
    forall reports :: !cancel(reports)
  }

  //// Chaining across calls

  lemma NextIvAppend(iv: Block, y: seq<byte>, z: seq<byte>)
    requires |y| % 16 == 0 && |z| % 16 == 0
    ensures |y + z| % 16 == 0 && NextIv(iv, y + z) == NextIv(NextIv(iv, y), z)
  {
    SumOfBlocks(|y|, |z|);
    if z == [] { assert y + z == y; } else { assert (y + z)[|y + z| - 16..] == z[|z| - 16..]; }
  }

  /** The handle has encrypted `plain` since it started on `iv`, and the file holds the result behind `head`. */
  ghost predicate Wrote(handle: CipherHandle, out: Descriptor, iv: Block, head: seq<byte>, plain: seq<byte>)
    reads handle, out
  {
    && |plain| % 16 == 0
    && out.content == head + Encrypt(handle.crypto, handle.key, iv, plain) && out.pos == |out.content|
    && handle.iv == NextIv(iv, Encrypt(handle.crypto, handle.key, iv, plain))
  }

  lemma NothingYet(handle: CipherHandle, out: Descriptor, head: seq<byte>)
    requires out.content == head && out.pos == |head|
    ensures Wrote(handle, out, handle.iv, head, [])
  {
    assert head + [] == head;
  }

  /** One gcry_cipher_encrypt and one write of a whole buffer. */
  method EncryptBlock(handle: CipherHandle, out: Descriptor, buf: array<byte>,
      ghost iv: Block, ghost head: seq<byte>, ghost plain: seq<byte>)
    requires Wrote(handle, out, iv, head, plain) && buf.Length % 16 == 0
    modifies handle, out, buf
    ensures Wrote(handle, out, iv, head, plain + old(buf[..]))
  {
    hide Encrypt, NextIv;
    ghost var y := Encrypt(handle.crypto, handle.key, iv, plain);
    EncryptAppend(handle.crypto, handle.key, iv, plain, buf[..]);
    var ok := handle.EncryptInPlace(buf);
    NextIvAppend(iv, y, buf[..]);
    Append(out, buf[..]);
    Associative(head, y, buf[..]);
  }

  /** write( fd,data,size ) at the end of a file. */
  method Append(out: Descriptor, data: seq<byte>)
    requires out.pos == |out.content|
    modifies out
    ensures out.content == old(out.content) + data && out.pos == |out.content|
  {
    assert out.content[..out.pos] == out.content && out.content[out.pos..] == [];
    assert Overlay([], data) == data;
    out.Write(data);
  }

  //// Encrypting

  /** The bytes that a file of this size takes in whole blocks. */
  function RoundUp(size: nat): (n: nat)
    ensures size <= n < size + FILE_BLOCK_SIZE && n % FILE_BLOCK_SIZE == 0 && n % 16 == 0
  {
    var q := (size + FILE_BLOCK_SIZE - 1) / FILE_BLOCK_SIZE;
    WholeBlocks(q);
    q * FILE_BLOCK_SIZE
  }

  lemma WholeBlocks(q: nat)
    ensures q * FILE_BLOCK_SIZE % FILE_BLOCK_SIZE == 0 && q * FILE_BLOCK_SIZE % 16 == 0
  {
    assert q * FILE_BLOCK_SIZE == 16 * (64 * q);
  }

  lemma RoundUpIs(size: nat, q: nat)
    requires size <= q * FILE_BLOCK_SIZE < size + FILE_BLOCK_SIZE
    ensures RoundUp(size) == q * FILE_BLOCK_SIZE
  {
    WholeBlocks(q);
    assert (size + FILE_BLOCK_SIZE - 1) / FILE_BLOCK_SIZE == q;
  }

  /** Between whole blocks: there is room for the next one. */
  lemma WholeBlock(size: nat, i: nat)
    requires i <= size && i % FILE_BLOCK_SIZE == 0
    ensures i % 16 == 0 && if i < size then i + FILE_BLOCK_SIZE <= RoundUp(size) else RoundUp(size) == i
    ensures i < size <= i + FILE_BLOCK_SIZE ==> RoundUp(size) == i + FILE_BLOCK_SIZE
  {
    var b := i / FILE_BLOCK_SIZE;
    assert i == b * FILE_BLOCK_SIZE;
    WholeBlocks(b);
    if size == i { RoundUpIs(size, b); } else if size <= i + FILE_BLOCK_SIZE { RoundUpIs(size, b + 1); }
  }

  /** The header of an encrypted file: its size, and zeros where a wallet keeps its entry count. */
  function FileHeader(size: nat): (h: seq<byte>)
    ensures |h| == 32
  {
    Header([0, 0, 0], size, 0)
  }

  /** Byte by byte: the text, the version, zeros, the size, zeros. */
  lemma FileHeaderLayout(size: nat)
    requires size < U64
    ensures var h := FileHeader(size);
            && Known(h) && h[11..16] == [200, 0, 0, 0, 0] && ReadLe(h, 16, 8) == size
            && (forall i | 24 <= i < 32 :: h[i] == 0)
  {
    hide ReadLe, Le;
    var h := FileHeader(size);
    HeaderLayout([0, 0, 0], size, 0);
    LeZero(8);
    assert h[11..16] == [h[11], h[12]] + h[13..16];
    assert forall i | 24 <= i < 32 :: h[i] == Le(0, 8)[i - 24];
  }

  method FileHeaderBuffer(size: nat) returns (buffer: array<byte>)
    ensures fresh(buffer) && buffer[..] == FileHeader(size)
  {
    hide Le;
    buffer := new byte[32](_ => 0);
    CreateMagicStringHeader(buffer);
    ghost var m, v := MAGIC_STRING, Le(VERSION, 2);
    assert forall i | 13 <= i < 32 :: buffer[i] == buffer[13..][i - 13] == 0;
    assert buffer[13..16] == [0, 0, 0];
    assert buffer[..16] == buffer[..13] + buffer[13..16];
    var at := Memcpy(buffer, 16, Le(size, 8), m + v + [0, 0, 0]);
    LeZero(8);
    assert buffer[24..] == Le(0, 8);
    SplitAt(buffer[..], 24);
  }

  /** What lxqt_wallet_create_encrypted_file has put into the destination: the image of the first `done`
      bytes of the source, under the header that states the full size. */
  ghost predicate EncryptedFile(c: Crypto, dest: seq<byte>, key: Key, salt: Block, iv: Block,
      source: seq<byte>, done: nat, pad: seq<byte>)
  {
    && done <= |source| && |FileHeader(|source|) + (source[..done] + pad)| % 16 == 0
    && dest == Image(c, key, salt, iv, FileHeader(|source|) + (source[..done] + pad))
  }

  /** Up to a cancelling report; else everything, padded to whole blocks. */
  ghost predicate Finished(cancel: seq<nat> -> bool, source: seq<byte>, blocks: nat, done: nat, pad: seq<byte>) {
    if GoesOn(cancel, Reports(|source|, blocks))
    then done == |source| && |pad| == RoundUp(|source|) - |source|
    else done == blocks * FILE_BLOCK_SIZE && pad == []
  }

  /** lxqt_wallet_create_encrypted_file. `existing` says whether the destination is there already;
      `dest` is the file that has been made, if any. */
  method CreateEncryptedFile(c: Crypto, source: Option<seq<byte>>, existing: bool, password: seq<byte>,
      salt: Block, iv: Block, cancel: seq<nat> -> bool)
    returns (r: WalletError, dest: Option<seq<byte>>, reports: seq<nat>,
      ghost blocks: nat, ghost done: nat, ghost pad: seq<byte>)
    requires source.Some? ==> |source.value| < U64 / 2
    ensures existing ==> r == FailedToOpenFile && dest == None && reports == []
    ensures !existing && source.None? ==> r == FailedToOpenFile && dest == Some([]) && reports == []
    ensures !existing && source.Some? ==>
      && r == NoError && dest.Some?
      && EncryptedFile(c, dest.value, c.derive(salt, password), salt, iv, source.value, done, pad)
      && StopsBehind(cancel, |source.value|, blocks)
      && Finished(cancel, source.value, blocks, done, pad)
      && reports == Reports(|source.value|, blocks) + [100]
  {
    hide Encrypt, NextIv, FileHeader, RoundUp, Finished, StopsBehind, Reports;
    blocks, done, pad, reports := 0, 0, [], [];
    if existing { return FailedToOpenFile, None, [], 0, 0, []; }
    var out := new Descriptor([]);
    if source.None? { return FailedToOpenFile, Some(out.content), [], 0, 0, []; }
    var handle := new CipherHandle(c, c.derive(salt, password), iv);
    Append(out, salt);
    Append(out, iv);
    var buffer := FileHeaderBuffer(|source.value|);
    NothingYet(handle, out, salt + iv);
    EncryptBlock(handle, out, buffer, iv, salt + iv, []);
    var fd := new Descriptor(source.value);
    ghost var h := FileHeader(|source.value|);
    assert [] + h == h + (fd.content[..0] + []);
    reports, blocks, done, pad := EncryptBlocks(handle, fd, out, iv, salt + iv, h, cancel);
    reports := reports + [100];
    dest, r := Some(out.content), NoError;
  }

  /** One read and, unless the source has ended, one encrypted block; `pad` is what the read left in the buffer. */
  method EncryptNext(handle: CipherHandle, fd: Descriptor, out: Descriptor, buf: array<byte>,
      ghost iv: Block, ghost head: seq<byte>, ghost h: seq<byte>)
    returns (k: nat, ghost pad: seq<byte>)
    requires fd != out && buf.Length == FILE_BLOCK_SIZE && fd.pos <= |fd.content|
    requires Wrote(handle, out, iv, head, h + (fd.content[..fd.pos] + []))
    modifies handle, fd, out, buf
    ensures fd.content == old(fd.content) && k == old(fd.Available(FILE_BLOCK_SIZE)) && fd.pos == old(fd.pos) + k
    ensures |pad| == (if k == 0 then 0 else FILE_BLOCK_SIZE - k) && fd.pos <= |fd.content|
    ensures Wrote(handle, out, iv, head, h + (fd.content[..fd.pos] + pad))
  {
    hide Encrypt, NextIv;
    ghost var at := fd.pos;
    k := fd.Read(buf);
    pad := [];
    if k == 0 { return; }
    ghost var was := buf[..];
    pad := was[k..];
    SplitAt(was, k);
    EncryptBlock(handle, out, buf, iv, head, h + (fd.content[..at] + []));
    assert h + (fd.content[..at] + []) + was == h + (fd.content[..at + k] + pad);
  }

  /** The loop that encrypts 1024 bytes at a time and breaks behind a short read. */
  method EncryptBlocks(handle: CipherHandle, fd: Descriptor, out: Descriptor, ghost iv: Block, ghost head: seq<byte>,
      ghost h: seq<byte>, cancel: seq<nat> -> bool)
    returns (reports: seq<nat>, ghost blocks: nat, ghost done: nat, ghost pad: seq<byte>)
    requires fd != out && fd.pos == 0 && |h| == 32 && Wrote(handle, out, iv, head, h + (fd.content[..0] + []))
    modifies handle, fd, out
    ensures fd.content == old(fd.content)
    ensures StopsBehind(cancel, |fd.content|, blocks) && reports == Reports(|fd.content|, blocks)
    ensures Finished(cancel, fd.content, blocks, done, pad) && done <= |fd.content|
    ensures Wrote(handle, out, iv, head, h + (fd.content[..done] + pad))
  {
    hide Wrote, Percent, RoundUp;
    var buf := new byte[FILE_BLOCK_SIZE];
    var size := |fd.content|;
    var i, l: nat := 0, 0;
    reports, blocks, done, pad := [], 0, 0, [];
    while true
      invariant buf.Length == FILE_BLOCK_SIZE && fresh(buf)
      invariant fd.content == old(fd.content) && fd.pos == i == blocks * FILE_BLOCK_SIZE <= size == |fd.content|
      invariant forall k: nat | k <= blocks :: GoesOn(cancel, Reports(size, k))
      invariant reports == Reports(size, blocks) && l == Last(reports)
      invariant pad == [] && Wrote(handle, out, iv, head, h + (fd.content[..i] + pad))
      decreases size - i
    {
      WholeBlock(size, i);
      var k;
      k, pad := EncryptNext(handle, fd, out, buf, iv, head, h);
      done := fd.pos;
      if k < FILE_BLOCK_SIZE { break; }
      i := i + FILE_BLOCK_SIZE;
      var j := Percent(i, size);
      blocks := blocks + 1;
      if j > l {
        reports := reports + [j];
        if cancel(reports) { break; }
        l := j;
      }
    }
  }

  //// Decrypting

  /** The file is long enough for a load of this size. */
  predicate Whole(file: seq<byte>, size: nat) {
    64 + RoundUp(size) <= |file|
  }

  /** The cipher text of a load of this size: whole blocks, as far as the file holds them. */
  function LoadText(file: seq<byte>, size: nat): (y: seq<byte>)
    requires |file| >= 64
    ensures 64 + |y| <= |file| && |y| % FILE_BLOCK_SIZE == 0 && y == file[64..64 + |y|]
    ensures Whole(file, size) <==> |y| == RoundUp(size)
    ensures !Whole(file, size) ==> |file| < 64 + |y| + FILE_BLOCK_SIZE
  {
    var there := (|file| - 64) / FILE_BLOCK_SIZE;
    WholeBlocks(there);
    if Whole(file, size) then file[64..64 + RoundUp(size)] else file[64..64 + there * FILE_BLOCK_SIZE]
  }

  lemma BlocksAreWhole(n: nat)
    requires n % FILE_BLOCK_SIZE == 0
    ensures n % 16 == 0
  {
    WholeBlocks(n / FILE_BLOCK_SIZE);
  }

  function Min(a: nat, b: nat): nat {
    if a <= b then a else b
  }

  /** What can be read out of an encrypted file. */
  function Decrypted(c: Crypto, file: seq<byte>, key: Key, iv: Block, size: nat): (p: seq<byte>)
    requires |file| >= 64
    ensures |p| == Min(size, |LoadText(file, size)|)
  {
    var y := LoadText(file, size);
    BlocksAreWhole(|y|);
    Decrypt(c, key, iv, y)[..Min(size, |y|)]
  }

  /** The handle has decrypted the text y since it started on `iv`, and the file holds the result. */
  ghost predicate WroteBack(handle: CipherHandle, out: Descriptor, iv: Block, y: seq<byte>)
    reads handle, out
  {
    && |y| % 16 == 0
    && out.content == Decrypt(handle.crypto, handle.key, iv, y) && out.pos == |out.content|
    && handle.iv == NextIv(iv, y)
  }

  /** _read, gcry_cipher_decrypt and _write of a buffer, of which `wanted` bytes are written. */
  method DecryptBlock(handle: CipherHandle, fd: Descriptor, out: Descriptor, buf: array<byte>, wanted: nat,
      ghost iv: Block, ghost y: seq<byte>)
    requires fd != out && out.pos == |out.content| && buf.Length == FILE_BLOCK_SIZE && wanted <= FILE_BLOCK_SIZE
    modifies handle, fd, out, buf
    ensures fd.content == old(fd.content) && out.pos == |out.content| == |old(out.content)| + wanted
    ensures out.content[..|old(out.content)|] == old(out.content)
    ensures old(fd.pos) + FILE_BLOCK_SIZE <= |fd.content| && old(WroteBack(handle, out, iv, y)) ==>
      && fd.pos == old(fd.pos) + FILE_BLOCK_SIZE
      && var z := y + fd.content[old(fd.pos)..fd.pos];
         && |z| % 16 == 0
         && out.content == Decrypt(handle.crypto, handle.key, iv, z)[..|y| + wanted]
         && (wanted == FILE_BLOCK_SIZE ==> WroteBack(handle, out, iv, z))
  {
    hide Decrypt, NextIv;
    ghost var at := fd.pos;
    var k := fd.Read(buf);
    assert buf[..FILE_BLOCK_SIZE] == buf[..];
    ghost var x := buf[..];
    if |y| % 16 == 0 {
      DecryptAppend(handle.crypto, handle.key, iv, y, x);
      NextIvAppend(iv, y, x);
    }
    var ok := handle.DecryptInPlace(buf);
    Append(out, buf[..wanted]);
  }

  /** Whole blocks of a file behind its header. */
  ghost predicate Text(text: seq<byte>, file: seq<byte>) {
    && |text| % FILE_BLOCK_SIZE == 0 && |text| % 16 == 0
    && (text != [] ==> 64 + |text| <= |file| && text == file[64..64 + |text|])
  }

  /** The first i bytes have been read: within the text everything is decrypted so far, and behind its end the
      output keeps starting with its decryption. */
  ghost predicate Reached(handle: CipherHandle, fd: Descriptor, out: Descriptor, iv: Block, text: seq<byte>, i: nat)
    reads handle, fd, out
  {
    && Text(text, fd.content) && i % FILE_BLOCK_SIZE == 0 && |out.content| == out.pos == i
    && (i <= |text| ==> (text != [] ==> fd.pos == 64 + i) && WroteBack(handle, out, iv, text[..i]))
    && (i > |text| ==> out.content[..|text|] == Decrypt(handle.crypto, handle.key, iv, text))
  }

  lemma NextText(file: seq<byte>, text: seq<byte>, i: nat)
    requires Text(text, file) && i % FILE_BLOCK_SIZE == 0 && i < |text|
    ensures i + FILE_BLOCK_SIZE <= |text| && i % 16 == 0
    ensures text[..i] + file[64 + i..64 + i + FILE_BLOCK_SIZE] == text[..i + FILE_BLOCK_SIZE]
  {
    BlocksAreWhole(i);
    SliceOfSlice(file, 64, 64 + |text|, i, i + FILE_BLOCK_SIZE);
    assert text[..i + FILE_BLOCK_SIZE] == text[..i] + text[i..i + FILE_BLOCK_SIZE];
  }

  /** One whole block. */
  method DecryptNext(handle: CipherHandle, fd: Descriptor, out: Descriptor, buf: array<byte>,
      ghost iv: Block, ghost text: seq<byte>, ghost i: nat)
    requires fd != out && buf.Length == FILE_BLOCK_SIZE && Reached(handle, fd, out, iv, text, i)
    modifies handle, fd, out, buf
    ensures fd.content == old(fd.content) && Reached(handle, fd, out, iv, text, i + FILE_BLOCK_SIZE)
  {
    hide Decrypt, NextIv;
    if i < |text| { NextText(fd.content, text, i); }
    assert i == |text| ==> text[..i] == text;
    DecryptBlock(handle, fd, out, buf, FILE_BLOCK_SIZE, iv, if i <= |text| then text[..i] else []);
    if i >= |text| { TakeTake(out.content, i, |text|); }
  }

  /** The loop over the whole blocks. */
  method DecryptBlocks(handle: CipherHandle, fd: Descriptor, out: Descriptor, buf: array<byte>, size: nat,
      ghost iv: Block, ghost text: seq<byte>, cancel: seq<nat> -> bool)
    returns (reports: seq<nat>, i: nat, ghost blocks: nat)
    requires fd != out && buf.Length == FILE_BLOCK_SIZE && Reached(handle, fd, out, iv, text, 0)
    modifies handle, fd, out, buf
    ensures fd.content == old(fd.content) && i == blocks * FILE_BLOCK_SIZE <= size
    ensures StopsBehind(cancel, size, blocks) && reports == Reports(size, blocks)
    ensures Reached(handle, fd, out, iv, text, i)
  {
    hide Reached, Percent;
    var n := size / FILE_BLOCK_SIZE;
    var l, t: nat := 0, 0;
    reports, i, blocks := [], 0, 0;
    while t < n
      invariant t <= n && blocks == t && i == t * FILE_BLOCK_SIZE <= size && fd.content == old(fd.content)
      invariant forall k: nat | k <= t :: GoesOn(cancel, Reports(size, k))
      invariant reports == Reports(size, t) && l == Last(reports)
      invariant Reached(handle, fd, out, iv, text, i)
    {
      DecryptNext(handle, fd, out, buf, iv, text, i);
      i := i + FILE_BLOCK_SIZE;
      var j := Percent(i, size);
      blocks := blocks + 1;
      if j > l {
        reports := reports + [j];
        if cancel(reports) { break; }
        l := j;
      }
      t := t + 1;
    }
  }

  /** The output so far starts with the decryption of the text, as far as both go. */
  lemma ReachedSoFar(handle: CipherHandle, fd: Descriptor, out: Descriptor, iv: Block, text: seq<byte>, i: nat)
    requires Reached(handle, fd, out, iv, text, i)
    ensures var m := Min(|text|, i);
            |text| % 16 == 0 && out.content[..m] == Decrypt(handle.crypto, handle.key, iv, text)[..m]
  {
    hide Decrypt, NextIv;
    BlocksAreWhole(i);
    if i <= |text| { DecryptTake(handle.crypto, handle.key, iv, text, i); }
  }

  lemma ReachedInside(handle: CipherHandle, fd: Descriptor, out: Descriptor, iv: Block, text: seq<byte>, i: nat)
    requires Reached(handle, fd, out, iv, text, i) && i < |text|
    ensures i + FILE_BLOCK_SIZE <= |text| && (i + FILE_BLOCK_SIZE) % 16 == 0 && |text| % 16 == 0
    ensures fd.pos == 64 + i && fd.pos + FILE_BLOCK_SIZE <= |fd.content| && WroteBack(handle, out, iv, text[..i])
    ensures text[..i] + fd.content[fd.pos..fd.pos + FILE_BLOCK_SIZE] == text[..i + FILE_BLOCK_SIZE]
    ensures var next := i + FILE_BLOCK_SIZE;
            Decrypt(handle.crypto, handle.key, iv, text[..next]) == Decrypt(handle.crypto, handle.key, iv, text)[..next]
  {
    hide Decrypt, NextIv;
    NextText(fd.content, text, i);
    DecryptTake(handle.crypto, handle.key, iv, text, i + FILE_BLOCK_SIZE);
  }

  lemma WholeTake(s: seq<byte>)
    ensures s[..|s|] == s
  {}

  /** One more read, of which `wanted` bytes are written. */
  method DecryptLast(handle: CipherHandle, fd: Descriptor, out: Descriptor, buf: array<byte>, wanted: nat,
      ghost i: nat, ghost iv: Block, ghost text: seq<byte>)
    requires fd != out && buf.Length == FILE_BLOCK_SIZE && wanted <= FILE_BLOCK_SIZE
    requires Reached(handle, fd, out, iv, text, i)
    requires |out.content| == out.pos == i
    modifies handle, fd, out, buf
    ensures |out.content| == out.pos == i + wanted
    ensures var m := Min(|text|, i + wanted);
            |text| % 16 == 0 && out.content[..m] == Decrypt(handle.crypto, handle.key, iv, text)[..m]
  {
    hide Decrypt, NextIv, Text, Reached, WroteBack;
    ReachedSoFar(handle, fd, out, iv, text, i);
    if i < |text| { ReachedInside(handle, fd, out, iv, text, i); }
    DecryptBlock(handle, fd, out, buf, wanted, iv, if i < |text| then text[..i] else []);
    if i < |text| {
      TakeTake(Decrypt(handle.crypto, handle.key, iv, text), i + FILE_BLOCK_SIZE, i + wanted);
      WholeTake(out.content);
    } else {
      TakeTake(out.content, i, |text|);
    }
  }

  /** What the memory behind the buffer holds. */
  function Beyond(beyond: nat -> byte, n: nat): (b: seq<byte>)
    ensures |b| == n && forall k | 0 <= k < n :: b[k] == beyond(k)
  {
    seq(n, k requires 0 <= k => beyond(k))
  }

  /** What is left behind the whole blocks. When the callback has cancelled, more than a buffer can be left;
      the bytes written then from beyond the buffer are those of `beyond`. */
  method DecryptRest(handle: CipherHandle, fd: Descriptor, out: Descriptor, buf: array<byte>, size: nat, i: nat,
      beyond: nat -> byte, ghost iv: Block, ghost text: seq<byte>)
    requires fd != out && buf.Length == FILE_BLOCK_SIZE && i <= size && Reached(handle, fd, out, iv, text, i)
    modifies handle, fd, out, buf
    ensures |out.content| == size
    ensures var m := Min(|text|, Min(size, i + FILE_BLOCK_SIZE));
            |text| % 16 == 0 && out.content[..m] == Decrypt(handle.crypto, handle.key, iv, text)[..m]
    ensures size > i + FILE_BLOCK_SIZE ==>
      out.content[i + FILE_BLOCK_SIZE..] == Beyond(beyond, size - i - FILE_BLOCK_SIZE)
  {
    hide Decrypt, NextIv, Text, WroteBack;
    ReachedSoFar(handle, fd, out, iv, text, i);
    if i < size {
      var wanted := if size <= i + FILE_BLOCK_SIZE then size - i else FILE_BLOCK_SIZE;
      DecryptLast(handle, fd, out, buf, wanted, i, iv, text);
      if size > i + FILE_BLOCK_SIZE {
        ghost var last, m := out.content, Min(|text|, i + wanted);
        var more := Beyond(beyond, size - i - FILE_BLOCK_SIZE);
        Append(out, more);
        TakeDropAppend(last, more, m);
        TakeDropAppend(last, more, |last|);
        assert last[|last|..] + more == more;
      }
    }
  }

  lemma TakeTake(s: seq<byte>, a: nat, b: nat)
    requires b <= a <= |s|
    ensures s[..a][..b] == s[..b]
  {}

  function FileKey(c: Crypto, file: seq<byte>, password: seq<byte>): Key
    requires |file| >= 64
  {
    c.derive(file[..16], password)
  }

  /** The chaining value behind the header. */
  function LoadIv(file: seq<byte>): Block
    requires |file| >= 64
  {
    NextIv(file[16..32], file[32..64])
  }

  /** The size in the header, when the password shows a header. */
  function Unlocked(c: Crypto, file: seq<byte>, password: seq<byte>): Option<nat>
    requires |file| >= 64
  {
    hide Decrypt;
    var h := Decrypt(c, FileKey(c, file, password), file[16..32], file[32..64]);
    if PasswordMatch(h) && Compatible(h) then Some(LoadSize(h)) else None
  }

  /** Refused exactly when the decrypted header does not hold the text and a version of ours; else the size in it. */
  lemma UnlockedExactly(c: Crypto, file: seq<byte>, password: seq<byte>)
    requires |file| >= 64
    ensures var h := Decrypt(c, c.derive(file[..16], password), file[16..32], file[32..64]);
            var r := Unlocked(c, file, password);
            (r == None <==> !Ours(h)) && (r.Some? ==> r.value == ReadLe(h, 16, 8))
  {
    hide Decrypt, ReadLe, PasswordMatch, Compatible, Ours, Known;
    HeaderChecks(Decrypt(c, c.derive(file[..16], password), file[16..32], file[32..64]));
  }

  /** What the part behind the header comes to. The size of the new file is always the one in the header; its
      bytes are those that can be read out of the old one, up to one block behind a cancelling report; and when
      more than that block is left, the rest comes from beyond the buffer. */
  ghost predicate Restored(c: Crypto, file: seq<byte>, key: Key, iv: Block, size: nat, cancel: seq<nat> -> bool,
      beyond: nat -> byte, dest: seq<byte>, reports: seq<nat>, blocks: nat)
    requires |file| >= 64
  {
    && |dest| == size && StopsBehind(cancel, size, blocks) && reports == Reports(size, blocks) + [100]
    && var p, next := Decrypted(c, file, key, iv, size), (blocks + 1) * FILE_BLOCK_SIZE;
       && dest[..Min(|p|, next)] == p[..Min(|p|, next)]
       && (size > next ==> dest[next..] == Beyond(beyond, size - next))
  }

  /** Bytes from beyond the buffer are written only behind a cancelling report, with more than a block left. */
  lemma BeyondOnlyCancelled(cancel: seq<nat> -> bool, size: nat, blocks: nat)
    requires StopsBehind(cancel, size, blocks)
    ensures size > (blocks + 1) * FILE_BLOCK_SIZE <==>
      !GoesOn(cancel, Reports(size, blocks)) && size - blocks * FILE_BLOCK_SIZE > FILE_BLOCK_SIZE
  {
    hide Reports;
  }

  method DecryptLoad(handle: CipherHandle, fd: Descriptor, size: nat, cancel: seq<nat> -> bool, beyond: nat -> byte)
    returns (dest: seq<byte>, reports: seq<nat>, ghost blocks: nat)
    requires |fd.content| >= 64 ==> fd.pos == 64
    modifies handle, fd
    ensures |old(fd.content)| >= 64 ==>
      Restored(handle.crypto, old(fd.content), handle.key, old(handle.iv), size, cancel,
               beyond, dest, reports, blocks)
  {
    hide Decrypt, NextIv, Reports, LoadText;
    var out := new Descriptor([]);
    var buf := new byte[FILE_BLOCK_SIZE];
    ghost var file, iv := fd.content, handle.iv;
    ghost var text := if |file| >= 64 then LoadText(file, size) else [];
    BlocksAreWhole(|text|);
    StartBack(handle, fd, out, text);
    var i;
    reports, i, blocks := DecryptBlocks(handle, fd, out, buf, size, iv, text, cancel);
    DecryptRest(handle, fd, out, buf, size, i, beyond, iv, text);
    reports := reports + [100];
    dest := out.content;
    AsFarAsBoth(dest, Decrypt(handle.crypto, handle.key, iv, text), size, i + FILE_BLOCK_SIZE);
  }

  lemma StartBack(handle: CipherHandle, fd: Descriptor, out: Descriptor, text: seq<byte>)
    requires Text(text, fd.content) && out.content == [] && out.pos == 0 && (text != [] ==> fd.pos == 64)
    ensures Reached(handle, fd, out, handle.iv, text, 0)
  {}

  lemma AsFarAsBoth(dest: seq<byte>, p: seq<byte>, size: nat, next: nat)
    requires |dest| == size
    requires var m := Min(|p|, Min(size, next)); dest[..m] == p[..m]
    ensures var q := p[..Min(size, |p|)]; dest[..Min(|q|, next)] == q[..Min(|q|, next)]
  {}

  /** lxqt_wallet_create_decrypted_file */
  method CreateDecryptedFile(c: Crypto, source: Option<seq<byte>>, existing: bool, password: seq<byte>,
      cancel: seq<nat> -> bool, beyond: nat -> byte)
    returns (r: WalletError, dest: Option<seq<byte>>, reports: seq<nat>, ghost blocks: nat)
    ensures existing || source.None? ==> r == FailedToOpenFile && dest == None && reports == []
    ensures !existing && source.Some? ==>
      (r == NoError && dest.Some?) || (r == WrongPassword && dest == None && reports == [])
    ensures !existing && source.Some? && |source.value| >= 64 ==>
      match Unlocked(c, source.value, password)
      case None => r == WrongPassword && dest == None && reports == []
      case Some(size) =>
        && r == NoError && dest.Some?
        && Restored(c, source.value, FileKey(c, source.value, password), LoadIv(source.value), size,
                    cancel, beyond, dest.value, reports, blocks)
  {
    hide Decrypt, NextIv, LoadSize, PasswordMatch, Compatible, Restored;
    dest, reports, blocks := None, [], 0;
    if existing { return FailedToOpenFile, None, [], 0; }
    if source.None? { return FailedToOpenFile, None, [], 0; }
    var fd := new Descriptor(source.value);
    var handle, salt, header := OpenHandle(c, fd, password);
    if !(PasswordMatch(header[..]) && Compatible(header[..])) { return WrongPassword, None, [], 0; }
    var d;
    d, reports, blocks := DecryptLoad(handle, fd, LoadSize(header[..]), cancel, beyond);
    dest, r := Some(d), NoError;
  }

  //// There and back

  /** For every file, every password, salt, vector and padding: decrypting the encrypted file gives the
      bytes of the original. */
  lemma DecryptUndoesEncrypt(c: Crypto, file: seq<byte>, password: seq<byte>, salt: Block, iv: Block,
      source: seq<byte>, pad: seq<byte>)
    requires Invertible(c) && |source| < U64 && |pad| == RoundUp(|source|) - |source|
    requires EncryptedFile(c, file, c.derive(salt, password), salt, iv, source, |source|, pad)
    ensures |file| >= 64 && Unlocked(c, file, password) == Some(|source|) && Whole(file, |source|)
    ensures Decrypted(c, file, FileKey(c, file, password), LoadIv(file), |source|) == source
  {
    hide Encrypt, Decrypt, NextIv, ReadLe, PasswordMatch, FileHeader, RoundUp;
    var size := |source|;
    var head, load := FileHeader(size), source[..size] + pad;
    var key := c.derive(salt, password);
    UnderHeader(size, load);
    OneEncryption(c, key, iv, head, load);
    var y := Encrypt(c, key, iv, head);
    var z := Encrypt(c, key, NextIv(iv, y), load);
    assert file == salt + iv + y + z;
    assert file[..16] == salt && file[16..32] == iv && file[32..64] == y;
    assert LoadText(file, size) == z;
    assert source[..size] == source;
    DecryptEncrypt(c, key, iv, head);
    DecryptEncrypt(c, key, NextIv(iv, y), load);
  }

  lemma UnderHeader(size: nat, load: seq<byte>)
    requires size < U64 && |load| == RoundUp(size)
    ensures var h := FileHeader(size);
            PasswordMatch(h) && Compatible(h) && LoadSize(h) == size && |h| % 16 == 0 && |h + load| % 16 == 0
  {
    hide Header, PasswordMatch, Compatible, LoadSize, RoundUp;
    HeaderReadsBack([0, 0, 0], size, 0);
    assert (32 + RoundUp(size)) % 16 == 0;
  }

  /** A file that is whole and not cancelled comes back whole. */
  lemma WholeRestored(c: Crypto, file: seq<byte>, key: Key, iv: Block, size: nat, cancel: seq<nat> -> bool,
      beyond: nat -> byte, dest: seq<byte>, reports: seq<nat>, blocks: nat)
    requires |file| >= 64 && Restored(c, file, key, iv, size, cancel, beyond, dest, reports, blocks)
    requires Whole(file, size) && GoesOn(cancel, Reports(size, blocks))
    ensures dest == Decrypted(c, file, key, iv, size)
  {
    hide Decrypt, LoadText, RoundUp, Reports;
    var p := Decrypted(c, file, key, iv, size);
    assert dest[..size] == dest && p[..size] == p;
  }

  lemma Uncancelled(cancel: seq<nat> -> bool, size: nat, blocks: nat)
    requires NeverCancels(cancel) && StopsBehind(cancel, size, blocks)
    ensures blocks == size / FILE_BLOCK_SIZE && GoesOn(cancel, Reports(size, blocks))
  {}

  /** The two operations one after the other, with callbacks that never cancel. */
  method ThereAndBack(c: Crypto, source: seq<byte>, password: seq<byte>, salt: Block, iv: Block,
      cancel: seq<nat> -> bool, cancelBack: seq<nat> -> bool, beyond: nat -> byte)
    returns (back: seq<byte>, reports: seq<nat>, reportsBack: seq<nat>)
    requires Invertible(c) && |source| < U64 / 2 && NeverCancels(cancel) && NeverCancels(cancelBack)
    ensures back == source
    ensures reports == reportsBack && 1 <= |reports| <= 101 && Last(reports) == 100
  {
    hide Decrypt, Encrypt, RoundUp, NeverCancels, StopsBehind, Reports, Decrypted, LoadText, EncryptedFile, Unlocked;
    var r, file, dest;
    ghost var blocks, done, pad, blocksBack;
    r, file, reports, blocks, done, pad := CreateEncryptedFile(c, Some(source), false, password, salt, iv, cancel);
    Uncancelled(cancel, |source|, blocks);
    DecryptUndoesEncrypt(c, file.value, password, salt, iv, source, pad);
    r, dest, reportsBack, blocksBack := CreateDecryptedFile(c, file, false, password, cancelBack, beyond);
    back := dest.value;
    Uncancelled(cancelBack, |source|, blocksBack);
    WholeRestored(c, file.value, FileKey(c, file.value, password), LoadIv(file.value), |source|, cancelBack,
      beyond, back, reportsBack, blocksBack);
    ReportsGrow(|source|, blocks);
  }
}
