/**
  An open file: its bytes and the position that read and write advance.
 */
module Files {
  import opened Bytes

  class Descriptor {
    var content: seq<byte>
    var pos: nat

    constructor (content: seq<byte>)
      ensures this.content == content && pos == 0
    {
      this.content, pos := content, 0;
    }

    /** How many of `wanted` bytes are left to read. */
    function Available(wanted: nat): (k: nat)
      reads this
      ensures k <= wanted
      ensures k == wanted <==> pos + wanted <= |content| || wanted == 0
      ensures k < wanted ==> k == if |content| <= pos then 0 else |content| - pos
    {
      if |content| <= pos then 0 else if |content| - pos <= wanted then |content| - pos else wanted
    }

    /** read( fd,buf,sizeof buf ): a short count only at the end of the file; the rest of buf is left as it was. */
    method Read(buf: array<byte>) returns (k: nat)
      modifies this`pos, buf
      ensures k == old(Available(buf.Length)) && pos == old(pos) + k
      ensures 0 < k ==> buf[..k] == content[old(pos)..old(pos) + k]
      ensures buf[k..] == old(buf[k..])
    {
      k := Available(buf.Length);
      forall i | 0 <= i < k { buf[i] := content[pos + i]; }
      pos := pos + k;
    }

    /** write( fd,data,size ): over what is there, growing the file at its end. */
    method Write(data: seq<byte>)
      requires pos <= |content|
      modifies this
      ensures pos == old(pos) + |data| && pos <= |content|
      ensures content == old(content[..pos]) + Overlay(old(content[pos..]), data)
    {
      content := content[..pos] + Overlay(content[pos..], data);
      pos := pos + |data|;
    }

    /** lseek( fd,at,SEEK_SET ) */
    method Seek(at: nat)
      modifies this`pos
      ensures pos == at
    {
      pos := at;
    }
  }
}
