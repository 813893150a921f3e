/** The byte stream the decoder reads: a fixed sequence of bytes and a
    cursor. Tell, absolute seek, seek from the end and reads that may come
    up short are the only operations the decoder uses. */
module PcxStream {
  import opened PcxBase

  class Stream {
    const data: seq<byte>
    var pos: nat

    ghost predicate Valid()
      reads this
    {
      pos <= |data|
    }

    constructor (data: seq<byte>, pos: nat)
      requires pos <= |data|
      ensures Valid() && this.data == data && this.pos == pos
    {
      this.data := data;
      this.pos := pos;
    }

    method Tell() returns (p: nat)
      requires Valid()
      ensures p == pos
    {
      p := pos;
    }

    method Seek(p: nat)
      requires p <= |data|
      modifies this
      ensures Valid() && pos == p
    {
      pos := p;
    }

    /** Seek to `back` bytes before the end. A seek before the start of the
        stream fails and leaves the cursor where it was. */
    method SeekFromEnd(back: nat) returns (ok: bool)
      requires Valid()
      modifies this
      ensures Valid()
      ensures ok == (back <= |data|)
      ensures pos == if ok then |data| - back else old(pos)
    {
      ok := back <= |data|;
      if ok {
        pos := |data| - back;
      }
    }

    /** Read one byte; `got` is false at the end of the stream. */
    method ReadByte() returns (got: bool, b: byte)
      requires Valid()
      modifies this
      ensures Valid()
      ensures got == (old(pos) < |data|)
      ensures got ==> b == data[old(pos)] && pos == old(pos) + 1
      ensures !got ==> pos == old(pos)
    {
      got := pos < |data|;
      if got {
        b := data[pos];
        pos := pos + 1;
      } else {
        b := 0;
      }
    }

    /** Read up to `n` bytes into `buf[0..n)`; returns how many were read,
        fewer than `n` only at the end of the stream. */
    method Read(buf: array<byte>, n: nat) returns (got: nat)
      requires Valid() && n <= buf.Length
      modifies this, buf
      ensures Valid()
      ensures got == Min(n, |data| - old(pos))
      ensures pos == old(pos) + got
      ensures buf[..got] == data[old(pos)..old(pos) + got]
      ensures buf[got..] == old(buf[got..])
    {
      got := Min(n, |data| - pos);
      forall i | 0 <= i < got {
        buf[i] := data[pos + i];
      }
      pos := pos + got;
    }
  }
}
