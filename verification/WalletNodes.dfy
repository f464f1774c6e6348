/**
  How the wallet lays its entries out in one byte array: a node is two 32-bit lengths, then the key,
  then the value, and the nodes follow one another without gaps.
 */
module WalletNodes {
  import opened Bytes
  import opened Sequences

  datatype Option<+T> = None | Some(value: T)

  datatype Entry = Entry(key: seq<byte>, value: seq<byte>)

  const NODE_HEADER_SIZE: nat := 8

  /** What lxqt_wallet_add_key lets in: a key of at least one byte, lengths that fit 32 bits. */
  predicate Storable(e: Entry) {
    0 < |e.key| < U32 && |e.value| < U32
  }

  predicate AllStorable(es: seq<Entry>) {
    forall e | e in es :: Storable(e)
  }

  function NodeSize(e: Entry): nat {
    NODE_HEADER_SIZE + |e.key| + |e.value|
  }

  function Node(e: Entry): (b: seq<byte>)
    ensures |b| == NodeSize(e)
  {
    Le(|e.key|, 4) + Le(|e.value|, 4) + e.key + e.value
  }

  function Flatten(node: Entry -> seq<byte>, es: seq<Entry>): seq<byte> {
    if es == [] then [] else node(es[0]) + Flatten(node, es[1..])
  }

  /** The nodes of the entries one after the other. */
  function Encode(es: seq<Entry>): seq<byte> {
    Flatten(Node, es)
  }

  //// Reading nodes back

  function KeyLength(b: seq<byte>, at: nat): nat
    requires at + NODE_HEADER_SIZE <= |b|
  {
    ReadLe(b, at, 4)
  }

  function ValueLength(b: seq<byte>, at: nat): nat
    requires at + NODE_HEADER_SIZE <= |b|
  {
    ReadLe(b, at + 4, 4)
  }

  /** A whole node starts at the offset. */
  predicate HasNode(b: seq<byte>, at: nat) {
    && at + NODE_HEADER_SIZE <= |b|
    && KeyLength(b, at) > 0
    && at + NODE_HEADER_SIZE + KeyLength(b, at) + ValueLength(b, at) <= |b|
  }

  /** The key and value bytes that a header at the offset announces. */
  function EntryAt(b: seq<byte>, at: nat, keyLength: nat, valueLength: nat): Entry
    requires at + NODE_HEADER_SIZE + keyLength + valueLength <= |b|
  {
    var k, v := at + NODE_HEADER_SIZE, at + NODE_HEADER_SIZE + keyLength;
    Entry(b[k..v], b[v..v + valueLength])
  }

  /** The entries from an offset on, when whole nodes and nothing else lie between it and the end. */
  function ParseAt(b: seq<byte>, at: nat): Option<seq<Entry>>
    requires at <= |b|
    decreases |b| - at
  {
    if at == |b| then Some([])
    else if !HasNode(b, at) then None
    else
      var k, v := KeyLength(b, at), ValueLength(b, at);
      match ParseAt(b, at + NODE_HEADER_SIZE + k + v)
      case None => None
      case Some(rest) => Some([EntryAt(b, at, k, v)] + rest)
  }

  function Parse(b: seq<byte>): Option<seq<Entry>> {
    ParseAt(b, 0)
  }

  lemma SixParts(x: seq<byte>, a: seq<byte>, b: seq<byte>, c: seq<byte>, d: seq<byte>, rest: seq<byte>)
    ensures var y, i, j, k, l := x + (a + b + c + d + rest), |x| + |a|, |x| + |a| + |b|, |x| + |a| + |b| + |c|,
                                 |x| + |a| + |b| + |c| + |d|;
            y[|x|..i] == a && y[i..j] == b && y[j..k] == c && y[k..l] == d
  {}

  lemma NodeHead(x: seq<byte>, e: Entry, rest: seq<byte>)
    requires Storable(e)
    ensures var b := x + (Node(e) + rest);
            && HasNode(b, |x|) && KeyLength(b, |x|) == |e.key| && ValueLength(b, |x|) == |e.value|
            && EntryAt(b, |x|, |e.key|, |e.value|) == e
  {
    hide ReadLe, FromLe, Le;
    SixParts(x, Le(|e.key|, 4), Le(|e.value|, 4), e.key, e.value, rest);
    Widths();
    FromLeLe(|e.key|, 4);
    FromLeLe(|e.value|, 4);
    var b := x + (Node(e) + rest);
    ReadLeIsFromLe(b, |x|, 4);
    ReadLeIsFromLe(b, |x| + 4, 4);
  }

  /** A node byte by byte: the two lengths in four bytes each, low byte first, then the key, then the value. */
  lemma NodeLayout(e: Entry)
    requires Storable(e)
    ensures var b, k := Node(e), |e.key|;
            && |b| == 8 + k + |e.value| && b[8..8 + k] == e.key && b[8 + k..] == e.value
            && Quad(b[0], b[1], b[2], b[3]) == k && Quad(b[4], b[5], b[6], b[7]) == |e.value|
  {
    hide ReadLe, Le;
    NodeHead([], e, []);
    assert [] + (Node(e) + []) == Node(e);
    WeightsOfBytes(Node(e), 0);
    WeightsOfBytes(Node(e), 4);
  }

  lemma EncodeEmpty()
    ensures Encode([]) == []
  {}

  lemma EncodeCons(e: Entry, es: seq<Entry>)
    ensures Encode([e] + es) == Node(e) + Encode(es)
  {
    assert ([e] + es)[1..] == es;
  }

  lemma {:induction false} ParseAtEncode(x: seq<byte>, es: seq<Entry>)
    requires AllStorable(es)
    ensures ParseAt(x + Encode(es), |x|) == Some(es)
    decreases |es|
  {
    hide Node, KeyLength, ValueLength, HasNode, EntryAt;
    if es == [] {
      assert x + Encode(es) == x;
    } else {
      var e, rest := es[0], es[1..];
      assert es == [e] + rest;
      EncodeCons(e, rest);
      NodeHead(x, e, Encode(rest));
      Associative(x, Node(e), Encode(rest));
      ParseAtEncode(x + Node(e), rest);
    }
  }

  /** Parsing undoes encoding: the bytes determine the entries. */
  lemma ParseEncode(es: seq<Entry>)
    requires AllStorable(es)
    ensures Parse(Encode(es)) == Some(es)
  {
    ParseAtEncode([], es);
    assert [] + Encode(es) == Encode(es);
  }

  lemma NodeBytes(b: seq<byte>, at: nat)
    requires HasNode(b, at)
    ensures var k, v := KeyLength(b, at), ValueLength(b, at);
            Storable(EntryAt(b, at, k, v)) && Node(EntryAt(b, at, k, v)) == b[at..at + NODE_HEADER_SIZE + k + v]
  {
    hide ReadLe, FromLe, Le;
    var k, v := KeyLength(b, at), ValueLength(b, at);
    var e := EntryAt(b, at, k, v);
    Widths();
    ReadLeIsFromLe(b, at, 4);
    ReadLeIsFromLe(b, at + 4, 4);
    LeFromLe(b[at..at + 4]);
    LeFromLe(b[at + 4..at + 8]);
    assert Node(e) == b[at..at + 4] + b[at + 4..at + 8] + e.key + e.value;
  }

  /** Encoding undoes parsing: bytes that parse are exactly the encoding of their entries. */
  lemma {:induction false} EncodeParseAt(b: seq<byte>, at: nat)
    requires at <= |b| && ParseAt(b, at).Some?
    ensures AllStorable(ParseAt(b, at).value) && Encode(ParseAt(b, at).value) == b[at..]
    decreases |b| - at
  {
    hide Node, KeyLength, ValueLength, EntryAt, Flatten;
    EncodeEmpty();
    if at < |b| {
      var k, v := KeyLength(b, at), ValueLength(b, at);
      var next := at + NODE_HEADER_SIZE + k + v;
      EncodeParseAt(b, next);
      NodeBytes(b, at);
      EncodeCons(EntryAt(b, at, k, v), ParseAt(b, next).value);
      assert b[at..] == b[at..next] + b[next..];
    }
  }

  lemma {:induction false} FlattenAppend(node: Entry -> seq<byte>, a: seq<Entry>, b: seq<Entry>)
    ensures Flatten(node, a + b) == Flatten(node, a) + Flatten(node, b)
    decreases |a|
  {
    if a == [] {
      assert a + b == b;
    } else {
      FlattenAppend(node, a[1..], b);
      TakeDropAppend(a, b, 1);
      Associative(node(a[0]), Flatten(node, a[1..]), Flatten(node, b));
    }
  }

  lemma EncodeAppend(a: seq<Entry>, b: seq<Entry>)
    ensures Encode(a + b) == Encode(a) + Encode(b)
  {
    FlattenAppend(Node, a, b);
  }

  /** The size the wallet keeps: eight bytes and the lengths of key and value, for each entry. */
  function TotalSize(es: seq<Entry>): nat {
    if es == [] then 0 else NodeSize(es[0]) + TotalSize(es[1..])
  }

  lemma {:induction false} EncodedSize(es: seq<Entry>)
    ensures |Encode(es)| == TotalSize(es)
    decreases |es|
  {
    if es != [] { EncodedSize(es[1..]); }
  }

  lemma {:induction false} CountBelowSize(es: seq<Entry>)
    ensures 8 * |es| <= TotalSize(es)
    decreases |es|
  {
    if es != [] { CountBelowSize(es[1..]); }
  }

  //// The operations on a plain sequence of pairs

  function FirstWithKey(es: seq<Entry>, key: seq<byte>): Option<Entry> {
    if es == [] then None else if es[0].key == key then Some(es[0]) else FirstWithKey(es[1..], key)
  }

  function FirstWithValue(es: seq<Entry>, value: seq<byte>): Option<Entry> {
    if es == [] then None else if es[0].value == value then Some(es[0]) else FirstWithValue(es[1..], value)
  }

  function RemoveFirst(es: seq<Entry>, key: seq<byte>): seq<Entry> {
    if es == [] then [] else if es[0].key == key then es[1..] else [es[0]] + RemoveFirst(es[1..], key)
  }

  predicate HasKey(es: seq<Entry>, key: seq<byte>) {
    exists e | e in es :: e.key == key
  }

  /** i is the first place whose entry satisfies p; the length when there is none. */
  ghost predicate IsFirst(es: seq<Entry>, i: nat, p: Entry -> bool) {
    && i <= |es|
    && (i < |es| ==> p(es[i]))
    && forall j | 0 <= j < i :: !p(es[j])
  }

  function KeyIs(key: seq<byte>): Entry -> bool { (e: Entry) => e.key == key }

  function ValueIs(value: seq<byte>): Entry -> bool { (e: Entry) => e.value == value }

  lemma IsFirstBehind(es: seq<Entry>, i: nat, p: Entry -> bool)
    requires es != [] && !p(es[0]) && IsFirst(es[1..], i, p)
    ensures IsFirst(es, i + 1, p)
  {}

  lemma WithoutPlace(es: seq<Entry>, i: nat)
    requires i + 1 < |es|
    ensures [es[0]] + (es[1..][..i] + es[1..][i + 1..]) == es[..i + 1] + es[i + 2..]
  {}

  /** Looking a key up finds the entry at its first place; removing it takes out that entry and no other. */
  lemma {:induction false} FirstKeyPlace(es: seq<Entry>, key: seq<byte>) returns (i: nat)
    ensures IsFirst(es, i, KeyIs(key))
    ensures FirstWithKey(es, key) == if i < |es| then Some(es[i]) else None
    ensures RemoveFirst(es, key) == if i < |es| then es[..i] + es[i + 1..] else es
    decreases |es|
  {
    if es == [] || es[0].key == key {
      i := 0;
    } else {
      i := FirstKeyPlace(es[1..], key);
      IsFirstBehind(es, i, KeyIs(key));
      if i + 1 < |es| { WithoutPlace(es, i); } else { assert es == [es[0]] + es[1..]; }
      i := i + 1;
    }
  }

  lemma {:induction false} FirstValuePlace(es: seq<Entry>, value: seq<byte>) returns (i: nat)
    ensures IsFirst(es, i, ValueIs(value))
    ensures FirstWithValue(es, value) == if i < |es| then Some(es[i]) else None
    decreases |es|
  {
    if es == [] || es[0].value == value {
      i := 0;
    } else {
      i := FirstValuePlace(es[1..], value);
      IsFirstBehind(es, i, ValueIs(value));
      i := i + 1;
    }
  }

  lemma HasKeyIffFound(es: seq<Entry>, key: seq<byte>)
    ensures HasKey(es, key) <==> FirstWithKey(es, key).Some?
    ensures !HasKey(es, key) ==> RemoveFirst(es, key) == es
  {}

  lemma {:induction false} RemoveFirstPast(front: seq<Entry>, rest: seq<Entry>, key: seq<byte>)
    requires !HasKey(front, key)
    ensures RemoveFirst(front + rest, key) == front + RemoveFirst(rest, key)
    ensures FirstWithKey(front + rest, key) == FirstWithKey(rest, key)
    decreases |front|
  {
    if front == [] {
      assert front + rest == rest;
    } else {
      assert front[0] in front;
      assert !HasKey(front[1..], key);
      RemoveFirstPast(front[1..], rest, key);
      TakeDropAppend(front, rest, 1);
    }
  }

  lemma NoKeyAppend(front: seq<Entry>, e: Entry, key: seq<byte>)
    requires !HasKey(front, key) && e.key != key
    ensures !HasKey(front + [e], key)
  {}

  /** What the first match in the middle of the entries means. */
  lemma FoundKey(front: seq<Entry>, e: Entry, tail: seq<Entry>, key: seq<byte>)
    requires !HasKey(front, key) && e.key == key
    ensures HasKey(front + ([e] + tail), key)
    ensures FirstWithKey(front + ([e] + tail), key) == Some(e)
    ensures RemoveFirst(front + ([e] + tail), key) == front + tail
  {
    RemoveFirstPast(front, [e] + tail, key);
    assert ([e] + tail)[1..] == tail;
    assert e in front + ([e] + tail);
  }

  ghost predicate HasValue(es: seq<Entry>, value: seq<byte>) {
    exists e | e in es :: e.value == value
  }

  lemma NoValueAppend(front: seq<Entry>, e: Entry, value: seq<byte>)
    requires !HasValue(front, value) && e.value != value
    ensures !HasValue(front + [e], value)
  {}

  lemma {:induction false} FoundValue(front: seq<Entry>, e: Entry, tail: seq<Entry>, value: seq<byte>)
    requires !HasValue(front, value) && e.value == value
    ensures FirstWithValue(front + ([e] + tail), value) == Some(e)
    decreases |front|
  {
    if front == [] {
      assert front + ([e] + tail) == [e] + tail;
    } else {
      assert front[0] in front;
      assert !HasValue(front[1..], value);
      FoundValue(front[1..], e, tail, value);
      TakeDropAppend(front, [e] + tail, 1);
    }
  }

  lemma {:induction false} NotFoundValue(es: seq<Entry>, value: seq<byte>)
    requires !HasValue(es, value)
    ensures FirstWithValue(es, value) == None
    decreases |es|
  {
    if es != [] {
      assert es[0] in es;
      assert !HasValue(es[1..], value);
      NotFoundValue(es[1..], value);
    }
  }

  lemma EncodeSnoc(es: seq<Entry>, e: Entry)
    ensures Encode(es + [e]) == Encode(es) + Node(e)
  {
    EncodeAppend(es, [e]);
    EncodeCons(e, []);
    assert [e] + [] == [e];
    assert Node(e) + [] == Node(e);
  }

  lemma StorableSnoc(es: seq<Entry>, e: Entry)
    requires AllStorable(es) && Storable(e)
    ensures AllStorable(es + [e])
  {}

  lemma RemovedStorable(es: seq<Entry>, key: seq<byte>)
    requires AllStorable(es)
    ensures AllStorable(RemoveFirst(es, key))
  {}
}
