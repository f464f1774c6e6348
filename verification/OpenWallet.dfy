/**
  An open wallet: the growable byte array of nodes, its size and entry count, and the operations
  that work on the array in place.
 */
module OpenWallet {
  import opened Bytes
  import opened Cbc
  import opened Sequences
  import opened WalletNodes

  datatype WalletError =
    | NoError
    | WrongPassword
    | WalletExists
    | DecryptFailed
    | FailedToOpenFile
    | FailedToAllocateMemory
    | InvalidArgument
    | IncompatibleWallet

  /** The largest block realloc hands out: PTRDIFF_MAX, rounded down to the padding unit. */
  const MAX_ALLOCATION: nat := 0x7FFF_FFFF_FFFF_FFE0

  /** What an open wallet stands for. */
  datatype WalletState = WalletState(entries: seq<Entry>, key: Key, salt: Block, modified: bool)

  function AddResult(s: WalletState, key: seq<byte>, value: seq<byte>): WalletError {
    if key == [] then InvalidArgument
    else if TotalSize(s.entries) + NodeSize(Entry(key, value)) > MAX_ALLOCATION then FailedToAllocateMemory
    else NoError
  }

  function Added(s: WalletState, key: seq<byte>, value: seq<byte>): WalletState {
    if AddResult(s, key, value) != NoError then s
    else s.(entries := s.entries + [Entry(key, value)], modified := true)
  }

  function Deleted(s: WalletState, key: seq<byte>): WalletState {
    if !HasKey(s.entries, key) then s else s.(entries := RemoveFirst(s.entries, key), modified := true)
  }

  /** memcpy( dst + at,src,|src| ), behind the bytes already copied. Returns the offset that follows. */
  method Memcpy(dst: array<byte>, at: nat, src: seq<byte>, ghost copied: seq<byte>) returns (next: nat)
    requires at + |src| <= dst.Length && dst[..at] == copied
    modifies dst
    ensures next == at + |src| && dst[..next] == copied + src && dst[next..] == old(dst[at + |src|..])
  {
    forall i | 0 <= i < |src| { dst[at + i] := src[i]; }
    next := at + |src|;
    assert dst[..at] == copied && dst[at..next] == src;
  }

  class Wallet {
    var data: array<byte>
    var size: nat
    var count: nat
    var modified: bool
    var key: Key
    var salt: Block

    /** The bytes in use. */
    function Bytes(): (b: seq<byte>)
      requires size <= data.Length
      reads this, data
    {
      data[..size]
    }

    /** The offset i is a node boundary: whole nodes lie between it and the end. */
    ghost predicate Boundary(i: nat)
      reads this, data
    {
      i <= size <= data.Length && ParseAt(Bytes(), i).Some?
    }

    /** The entries from a node boundary on. */
    ghost function Rest(i: nat): seq<Entry>
      requires Boundary(i)
      reads this, data
    {
      ParseAt(Bytes(), i).value
    }

    /** The first `size` bytes are whole nodes, `count` of them, and nothing else. */
    ghost predicate Valid()
      reads this, data
    {
      Boundary(0) && count == |Rest(0)| && size <= MAX_ALLOCATION
    }

    ghost function Entries(): seq<Entry>
      requires Valid()
      reads this, data
    {
      Rest(0)
    }

    ghost function State(): WalletState
      requires Valid()
      reads this, data
    {
      WalletState(Entries(), key, salt, modified)
    }

    constructor (data: array<byte>, size: nat, count: nat, key: Key, salt: Block)
      ensures this.data == data && this.size == size && this.count == count
      ensures this.key == key && this.salt == salt && !modified
    {
      this.data, this.size, this.count := data, size, count;
      this.key, this.salt, modified := key, salt, false;
    }

    /** The array is the encoding of the entries, and both counters describe it. */
    lemma Layout()
      requires Valid()
      ensures Bytes() == Encode(Entries()) && AllStorable(Entries())
      ensures size == TotalSize(Entries()) && count == |Entries()|
    {
      EncodeParseAt(Bytes(), 0);
      EncodedSize(Entries());
    }

    //// Reading

    /** The entry e lies at the boundary i, and the next boundary is `next`. */
    ghost predicate NodeFrom(i: nat, e: Entry, next: nat)
      reads this, data
    {
      Boundary(i) && Boundary(next) && i < next && Rest(i) == [e] + Rest(next)
    }

    /** The boundary i has been reached past the entries `front`. */
    ghost predicate Reached(i: nat, front: seq<Entry>)
      reads this, data
    {
      Valid() && Boundary(i) && Entries() == front + Rest(i)
    }

    lemma Start()
      requires Valid()
      ensures Reached(0, [])
    {}

    lemma Advance(i: nat, front: seq<Entry>, e: Entry, next: nat)
      requires Reached(i, front) && NodeFrom(i, e, next)
      ensures Reached(next, front + [e])
    {
      hide ParseAt, KeyLength, ValueLength;
      Associative(front, [e], Rest(next));
    }

    lemma Finish(front: seq<Entry>)
      requires Reached(size, front)
      ensures Entries() == front
    {}

    lemma HeaderLemma(i: nat)
      requires Boundary(i) && i < size
      ensures HasNode(Bytes(), i)
      ensures var k, v := KeyLength(Bytes(), i), ValueLength(Bytes(), i);
              NodeFrom(i, EntryAt(Bytes(), i, k, v), i + NODE_HEADER_SIZE + k + v)
    {}

    /** _get_header_components at a node boundary. */
    method GetHeaderComponents(i: nat) returns (keyLength: nat, valueLength: nat)
      requires Boundary(i) && i < size
      ensures i + NODE_HEADER_SIZE + keyLength + valueLength <= size
      ensures NodeFrom(i, EntryAt(Bytes(), i, keyLength, valueLength), i + NODE_HEADER_SIZE + keyLength + valueLength)
    {
      hide ParseAt;
      HeaderLemma(i);
      keyLength, valueLength := KeyLength(Bytes(), i), ValueLength(Bytes(), i);
    }

    /** The scan by key that reading and deleting share: the first entry with the key and where it lies. */
    method FindKey(key: seq<byte>) returns (found: Option<Entry>, i: nat, next: nat, ghost front: seq<Entry>)
      requires Valid()
      ensures found.Some? ==>
        Reached(i, front) && NodeFrom(i, found.value, next) && !WalletNodes.HasKey(front, key) && found.value.key == key
      ensures found.None? ==> !WalletNodes.HasKey(Entries(), key)
    {
      hide ParseAt, KeyLength, ValueLength;
      i, front := 0, [];
      Start();
      while i < size
        invariant i <= size && Reached(i, front) && !WalletNodes.HasKey(front, key)
      {
        var keyLength, valueLength := GetHeaderComponents(i);
        var e := EntryAt(Bytes(), i, keyLength, valueLength);
        next := i + NODE_HEADER_SIZE + keyLength + valueLength;
        if keyLength == |key| && e.key == key { return Some(e), i, next, front; }
        Advance(i, front, e, next);
        NoKeyAppend(front, e, key);
        i, front := next, front + [e];
      }
      Finish(front);
      found, next := None, i;
    }

    /** lxqt_wallet_read_key_value */
    method ReadKeyValue(key: seq<byte>) returns (r: Option<Entry>)
      requires Valid()
      ensures r == FirstWithKey(Entries(), key)
    {
      hide ParseAt, KeyLength, ValueLength;
      var found, i, next, front := FindKey(key);
      if found.Some? {
        FoundKey(front, found.value, Rest(next), key);
      } else {
        HasKeyIffFound(Entries(), key);
      }
      r := found;
    }

    /** lxqt_wallet_wallet_has_key */
    method HasKey(key: seq<byte>) returns (r: bool)
      requires Valid()
      ensures r == WalletNodes.HasKey(Entries(), key)
    {
      var found := ReadKeyValue(key);
      HasKeyIffFound(Entries(), key);
      r := found.Some?;
    }

    lemma ValueHit(i: nat, front: seq<Entry>, e: Entry, next: nat, value: seq<byte>)
      requires Reached(i, front) && NodeFrom(i, e, next) && !WalletNodes.HasValue(front, value) && e.value == value
      ensures FirstWithValue(Entries(), value) == Some(e)
    {
      hide ParseAt, FirstWithValue;
      FoundValue(front, e, Rest(next), value);
    }

    /** lxqt_wallet_wallet_has_value */
    method HasValue(value: seq<byte>) returns (r: Option<Entry>)
      requires Valid()
      ensures r == FirstWithValue(Entries(), value)
    {
      hide ParseAt, KeyLength, ValueLength;
      var i: nat := 0;
      ghost var front := [];
      Start();
      while i < size
        invariant i <= size && Reached(i, front) && !WalletNodes.HasValue(front, value)
      {
        var keyLength, valueLength := GetHeaderComponents(i);
        var e := EntryAt(Bytes(), i, keyLength, valueLength);
        var next := i + NODE_HEADER_SIZE + keyLength + valueLength;
        if valueLength == |value| && e.value == value {
          ValueHit(i, front, e, next, value);
          return Some(e);
        }
        Advance(i, front, e, next);
        NoValueAppend(front, e, value);
        i, front := next, front + [e];
      }
      Finish(front);
      NotFoundValue(front, value);
      r := None;
    }

    /** lxqt_wallet_read_value_at. The guard lets a position equal to the entry count pass; then the header is
        read at the offset `at` behind the used bytes, and `beyond` is what the code makes of what lies there. */
    method ReadValueAt(pos: nat, beyond: Entry) returns (r: Option<Entry>, ghost at: nat)
      requires Valid()
      ensures count == 0 || pos > count ==> r == None
      ensures pos < count ==> r == Some(Entries()[pos]) && at < size
      ensures 0 < pos == count ==> r == Some(beyond) && at == size
    {
      hide ParseAt, KeyLength, ValueLength;
      at := 0;
      if count == 0 || pos > count { return None, 0; }
      var i: nat, k: nat := 0, 0;
      ghost var front := [];
      Start();
      while true
        invariant Reached(i, front) && k == |front| <= pos
        decreases pos - k
      {
        at := i;
        if i == size {
          Finish(front);
          return Some(beyond), i;
        }
        var keyLength, valueLength := GetHeaderComponents(i);
        var e := EntryAt(Bytes(), i, keyLength, valueLength);
        var next := i + NODE_HEADER_SIZE + keyLength + valueLength;
        PlaceHit(i, front, e, next);
        if k == pos { return Some(e), i; }
        Advance(i, front, e, next);
        i, front, k := next, front + [e], k + 1;
      }
    }

    lemma PlaceHit(i: nat, front: seq<Entry>, e: Entry, next: nat)
      requires Reached(i, front) && NodeFrom(i, e, next)
      ensures |front| < |Entries()| && Entries()[|front|] == e
    {}

    /** lxqt_wallet_iter_read_value */
    method IterReadValue(iter: Iterator) returns (more: bool)
      requires Valid()
      requires iter.pos < size ==> Boundary(iter.pos)
      modifies iter
      ensures more == (old(iter.pos) < size)
      ensures !more ==> iter.pos == old(iter.pos) && iter.entry == old(iter.entry)
      ensures more ==> NodeFrom(old(iter.pos), iter.entry, iter.pos)
    {
      hide ParseAt, KeyLength, ValueLength;
      if iter.pos >= size { return false; }
      var keyLength, valueLength := GetHeaderComponents(iter.pos);
      iter.entry := EntryAt(Bytes(), iter.pos, keyLength, valueLength);
      iter.pos := iter.pos + NODE_HEADER_SIZE + keyLength + valueLength;
      more := true;
    }

    /** The loop that every client runs over a fresh iterator: it meets every entry once, in order. */
    method Iterate() returns (seen: seq<Entry>)
      requires Valid()
      ensures seen == Entries()
    {
      hide ParseAt, KeyLength, ValueLength;
      var iter := new Iterator();
      Start();
      seen := [];
      while true
        invariant iter.pos <= size && Reached(iter.pos, seen)
        decreases size - iter.pos
      {
        ghost var at := iter.pos;
        var more := IterReadValue(iter);
        if !more { break; }
        Advance(at, seen, iter.entry, iter.pos);
        seen := seen + [iter.entry];
      }
      Finish(seen);
    }

    //// Changing

    /** A buffer that holds the encoding of some entries is a wallet of exactly those. */
    lemma Laid(es: seq<Entry>)
      requires size <= data.Length && Bytes() == Encode(es) && AllStorable(es)
      ensures Boundary(0) && Rest(0) == es
    {
      ParseEncode(es);
    }

    /** lxqt_wallet_add_key */
    method AddKey(key: seq<byte>, value: seq<byte>) returns (r: WalletError)
      requires Valid() && |key| < U32 && |value| < U32
      modifies this
      ensures Valid() && (data == old(data) || fresh(data))
      ensures r == AddResult(old(State()), key, value)
      ensures State() == Added(old(State()), key, value)
    {
      hide ParseAt, Flatten;
      Layout();
      if |key| == 0 { return InvalidArgument; }
      var len := NODE_HEADER_SIZE + |key| + |value|;
      if size + len > MAX_ALLOCATION { return FailedToAllocateMemory; }
      var f := Appended(key, value);
      ghost var es, e := Entries(), Entry(key, value);
      EncodeSnoc(es, e);
      StorableSnoc(es, e);
      size := size + len;
      modified := true;
      data := f;
      count := count + 1;
      Laid(es + [e]);
      r := NoError;
    }

    /** The grown array: the old nodes, then the new one. */
    method Appended(key: seq<byte>, value: seq<byte>) returns (f: array<byte>)
      requires size <= data.Length
      ensures fresh(f) && f.Length == size + NodeSize(Entry(key, value))
      ensures f[..f.Length] == Bytes() + Node(Entry(key, value))
    {
      hide Le;
      ghost var d, k, v := Bytes(), Le(|key|, 4), Le(|value|, 4);
      f := new byte[size + NODE_HEADER_SIZE + |key| + |value|];
      assert [] + d == d;
      var at := Memcpy(f, 0, data[..size], []);
      at := Memcpy(f, at, Le(|key|, 4), d);
      at := Memcpy(f, at, Le(|value|, 4), d + k);
      at := Memcpy(f, at, key, d + k + v);
      at := Memcpy(f, at, value, d + k + v + key);
      FiveInOrder(d, k, v, key, value);
    }

    /** The bytes before a boundary are the encoding of the entries before it. */
    lemma BytesBefore(i: nat, front: seq<Entry>)
      requires Reached(i, front)
      ensures data[..i] == Encode(front)
    {
      EncodeParseAt(Bytes(), 0);
      EncodeParseAt(Bytes(), i);
      EncodeAppend(front, Rest(i));
      assert Bytes()[..i] == data[..i];
    }

    lemma BytesFrom(i: nat)
      requires Boundary(i)
      ensures data[i..size] == Encode(Rest(i))
    {
      EncodeParseAt(Bytes(), i);
      assert Bytes()[i..] == data[i..size];
    }

    /** memmove of the tail over a block of the buffer, then memset of what it vacates. */
    method Compact(i: nat, blockSize: nat)
      requires i + blockSize <= size <= data.Length
      modifies data
      ensures data[..i] == old(data[..i]) && data[i..size - blockSize] == old(data[i + blockSize..size])
      ensures forall j | size - blockSize <= j < size :: data[j] == 0
      ensures data[size..] == old(data[size..])
    {
      forall j | i <= j < size - blockSize { data[j] := data[j + blockSize]; }
      assert data[i..size - blockSize] == old(data[i + blockSize..size]);
      label Moved:
      forall j | size - blockSize <= j < size { data[j] := 0; }
      assert data[i..size - blockSize] == old@Moved(data[i..size - blockSize]);
    }

    /** The branch for the last entry: the buffer is wiped and given back. */
    method RemoveOnly()
      requires size <= data.Length
      modifies this, data
      ensures size == 0 && count == 0 && modified && key == old(key) && salt == old(salt)
      ensures fresh(data) && data.Length == 0 && Boundary(0) && Rest(0) == []
      ensures forall j | 0 <= j < old(size) :: old(data)[j] == 0
    {
      forall j | 0 <= j < size { data[j] := 0; }
      data := new byte[0];
      size, modified, count := 0, true, 0;
      Laid([]);
    }

    /** The branch for one entry among others. */
    method RemoveBlock(i: nat, blockSize: nat, ghost front: seq<Entry>, ghost tail: seq<Entry>)
      requires i + blockSize <= size <= data.Length && count > 0
      requires data[..i] == Encode(front) && data[i + blockSize..size] == Encode(tail)
      requires AllStorable(front + tail)
      modifies this, data
      ensures size == old(size) - blockSize && count == old(count) - 1 && modified
      ensures key == old(key) && salt == old(salt) && data == old(data)
      ensures Boundary(0) && Rest(0) == front + tail
      ensures forall j | size <= j < old(size) :: data[j] == 0
    {
      hide ParseAt, Flatten;
      Compact(i, blockSize);
      SplitAt(data[..size - blockSize], i);
      EncodeAppend(front, tail);
      size := size - blockSize;
      modified := true;
      count := count - 1;
      assert Bytes()[..i] == data[..i] && Bytes()[i..] == data[i..size];
      Laid(front + tail);
    }

    /** lxqt_wallet_delete_key */
    method DeleteKey(key: seq<byte>) returns (r: WalletError)
      requires Valid()
      modifies this, data
      ensures Valid() && r == NoError && (data == old(data) || fresh(data))
      ensures State() == Deleted(old(State()), key)
      ensures !WalletNodes.HasKey(old(Entries()), key) ==> data == old(data) && data[..] == old(data[..])
      ensures WalletNodes.HasKey(old(Entries()), key) && old(count) == 1 ==>
        size == 0 && data.Length == 0 && forall j | 0 <= j < old(size) :: old(data)[j] == 0
      ensures WalletNodes.HasKey(old(Entries()), key) && old(count) != 1 ==>
        data == old(data) && forall j | size <= j < old(size) :: data[j] == 0
    {
      hide ParseAt, KeyLength, ValueLength;
      var found, i, next, front := FindKey(key);
      if found.Some? {
        Hit(key, i, front, found.value, next);
        if count == 1 { RemoveOnly(); } else { RemoveBlock(i, next - i, front, Rest(next)); }
      } else {
        HasKeyIffFound(Entries(), key);
      }
      r := NoError;
    }

    /** What the scan has found is all that the two branches of the deletion need. */
    lemma Hit(key: seq<byte>, i: nat, front: seq<Entry>, e: Entry, next: nat)
      requires Reached(i, front) && NodeFrom(i, e, next) && !WalletNodes.HasKey(front, key) && e.key == key
      ensures WalletNodes.HasKey(Entries(), key) && RemoveFirst(Entries(), key) == front + Rest(next)
      ensures next <= size && AllStorable(front + Rest(next)) && count == |front + Rest(next)| + 1
      ensures data[..i] == Encode(front) && data[next..size] == Encode(Rest(next))
    {
      FoundKey(front, e, Rest(next), key);
      Layout();
      RemovedStorable(Entries(), key);
      BytesBefore(i, front);
      BytesFrom(next);
    }

    /** lxqt_wallet_change_wallet_password: a new key over the same salt. */
    method ChangePassword(crypto: Crypto, password: seq<byte>) returns (r: WalletError)
      requires Valid()
      modifies this
      ensures Valid() && r == NoError && data == old(data)
      ensures State() == old(State()).(key := crypto.derive(old(salt), password), modified := true)
    {
      key := crypto.derive(salt, password);
      modified := true;
      r := NoError;
    }
  }

  /** lxqt_wallet_iterator_t */
  class Iterator {
    var pos: nat
    var entry: Entry

    constructor ()
      ensures pos == 0
    {
      pos, entry := 0, Entry([], []);
    }
  }
}
