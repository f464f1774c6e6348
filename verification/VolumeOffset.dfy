/**
  Where a hidden volume is placed behind its cover file, and how the file is grown to hold it.
 */
module VolumeOffset {
  import opened Arithmetic
  import opened Bytes
  import opened MapperPath

  const KB: nat := 1024
  const MB: nat := 1024 * 1024
  const GB: nat := 1024 * 1024 * 1024

  /** The unit in which a cover file of this size is measured, and its letter. */
  function UnitOf(s: nat): nat {
    if s >= GB then GB else if s >= MB then MB else if s >= KB then KB else 1
  }

  function LetterOf(s: nat): char {
    if s >= GB then 'g' else if s >= MB then 'm' else if s >= KB then 'k' else 'b'
  }

  /** The largest unit that does not exceed the size; a byte for an empty file. */
  lemma LargestUnit(s: nat)
    ensures var units := {1, 0x400, 0x10_0000, 0x4000_0000};
            && UnitOf(s) in units && (UnitOf(s) <= s || UnitOf(s) == 1)
            && (forall u | u in units && u <= s :: u <= UnitOf(s))
  {}

  /** o is the least multiple of the unit that is not below s. */
  ghost predicate LeastMultiple(o: nat, s: nat, unit: nat)
    requires unit > 0
  {
    o >= s && o % unit == 0 && forall m: nat | m >= s && m % unit == 0 :: o <= m
  }

  /** The number that a printed offset stands for: its digits times its unit. */
  function Meaning(printed: string): nat
    requires |printed| > 0 && forall c | c in printed[..|printed| - 1] :: IsDigit(c)
  {
    var n := Number(printed[..|printed| - 1]);
    match printed[|printed| - 1]
    case 'g' => n * GB
    case 'm' => n * MB
    case 'k' => n * KB
    case _ => n
  }

  /** What the letters stand for. */
  lemma LettersMean(n: nat)
    ensures Meaning(Digits(n) + "b") == n && Meaning(Digits(n) + "k") == n * 0x400
    ensures Meaning(Digits(n) + "m") == n * 0x10_0000 && Meaning(Digits(n) + "g") == n * 0x4000_0000
  {
    hide Digits, Number;
    NumberOfDigits(n);
    forall c: char ensures (Digits(n) + [c])[..|Digits(n)|] == Digits(n) {}
  }

  lemma UpToMultiple(s: nat, unit: nat)
    requires unit > 0
    ensures ((s + unit - 1) / unit) * unit % unit == 0 && s <= ((s + unit - 1) / unit) * unit < s + unit
  {
    var q, n := (s + unit - 1) / unit, s + unit - 1;
    assert n == q * unit + n % unit;
    MultipleOf(q, unit);
  }

  lemma WholeQuotient(o: nat, unit: nat)
    requires unit > 0 && o % unit == 0
    ensures o / unit * unit == o
  {}

  /** _offset */
  method Offset(size: nat, unit: nat, letter: char) returns (s: nat, printed: string)
    requires unit > 0
    ensures LeastMultiple(s, size, unit) && s < size + unit
    ensures printed == Digits(s / unit) + [letter]
  {
    s := size;
    ghost var end := (size + unit - 1) / unit * unit;
    UpToMultiple(size, unit);
    while s % unit != 0
      invariant size <= s <= end
      invariant forall m: nat | size <= m < s :: m % unit != 0
      decreases end - s
    {
      s := s + 1;
    }
    var m := s / unit;
    printed := Digits(m) + [letter];
  }

  /** _volumeOffset: the least multiple of its unit behind the cover file, printed so that it can be read back. */
  method VolumeOffset(s: nat) returns (offset: nat, printed: string)
    ensures LeastMultiple(offset, s, UnitOf(s)) && s <= offset < s + UnitOf(s)
    ensures |printed| > 1 && (forall c | c in printed[..|printed| - 1] :: IsDigit(c)) && Meaning(printed) == offset
  {
    hide Digits, Number;
    if s >= GB {
      offset, printed := Offset(s, GB, 'g');
    } else if s >= MB {
      offset, printed := Offset(s, MB, 'm');
    } else if s >= KB {
      offset, printed := Offset(s, KB, 'k');
    } else {
      offset, printed := s, Digits(s) + ['b'];
    }
    ghost var n := offset / UnitOf(s);
    assert printed == Digits(n) + [LetterOf(s)];
    assert printed[..|printed| - 1] == Digits(n);
    NumberOfDigits(n);
    WholeQuotient(offset, UnitOf(s));
  }

  //// Growing the cover file

  const CHUNK: nat := 1024

  /** The bytes that resize appends: at least one chunk, else as many chunks as the need takes. */
  function Appended(need: int): (n: nat)
  {
    if need <= CHUNK then CHUNK else (need + CHUNK - 1) / CHUNK * CHUNK
  }

  /** A cover file open for appending, and the source of random bytes. */
  class CoverFile {
    var content: seq<byte>
    const random: nat -> byte

    constructor (content: seq<byte>, random: nat -> byte)
      ensures this.content == content && this.random == random
    {
      this.content, this.random := content, random;
    }

    /** createHiddenVolume::resize, with every write complete. */
    method Resize(containerSize: int, offset: int)
      modifies this
      ensures |content| == |old(content)| + Appended(containerSize + offset - |old(content)|)
      ensures content[..|old(content)|] == old(content)
      ensures forall i | |old(content)| <= i < |content| :: content[i] == random(i)
    {
      var buffer := new byte[CHUNK];
      var written: nat := 0;
      var need := containerSize + offset - |content|;
      ghost var was := content;
      while true
        invariant |content| == |was| + written && content[..|was|] == was
        invariant forall i | |was| <= i < |content| :: content[i] == random(i)
        invariant written % CHUNK == 0 && (written == 0 || written < need)
        decreases need - written
      {
        forall i | 0 <= i < CHUNK { buffer[i] := random(|content| + i); }
        content := content + buffer[..];
        written := written + CHUNK;
        if written >= need { break; }
      }
      ChunksWritten(written, need);
    }
  }

  /** The least number of whole chunks that covers the need, and at least one. */
  lemma LeastChunks(need: int, n: nat)
    ensures n == Appended(need) <==> n % 1024 == 0 && n >= 1024 && n >= need && (n == 1024 || n - 1024 < need)
  {}

  lemma ChunksWritten(written: nat, need: int)
    requires written % CHUNK == 0 && written > 0 && written >= need && (written == CHUNK || written - CHUNK < need)
    ensures written == Appended(need)
  {}

  /** The hidden volume fits into bytes that were not there before, and less than a chunk is too much, exactly
      when something is missing; the container lies behind the cover file whatever is asked for. */
  lemma HiddenVolumeFits(cover: nat, container: nat, offset: nat)
    requires cover <= offset
    ensures var end := cover + Appended(container + offset - cover);
            && cover <= offset <= offset + container <= end
            && (end - (offset + container) < CHUNK <==> container + offset - cover > 0)
  {}
}
