/**
  The byte buffer with a read and a write pointer that sits between two sockets.
 */
module Buffers {
  import opened Buckets

  /** A buffer of cap bytes on values: content starts off bytes into it. */
  datatype Buf = Buf(cap: nat, off: nat, content: seq<byte>) {
    function Room(): int { cap - off - |content| }

    predicate CanWrite() { Room() > 0 }

    predicate CanRead() { content != [] }

    /** Bytes written at the write pointer, which then advances. */
    function Put(bytes: seq<byte>): Buf { this.(content := content + bytes) }

    /** The read pointer advances; an emptied buffer is compacted. */
    function Drop(n: nat): Buf
      requires n <= |content|
    {
      if n == |content| then Buf(cap, 0, []) else Buf(cap, off + n, content[n..])
    }

    ghost predicate Valid() {
      cap > 0 && Room() >= 0 && (content == [] ==> off == 0)
    }
  }

  function EmptyBuf(cap: nat): Buf { Buf(cap, 0, []) }

  /** Taking bytes off one at a time or at once leaves the same buffer. */
  lemma DropOneMore(b: Buf, n: nat)
    requires n < |b.content|
    ensures b.Drop(n).content != [] && b.Drop(n).content[0] == b.content[n]
    ensures b.Drop(n).Drop(1) == b.Drop(n + 1)
  {}

  lemma DropNothing(b: Buf)
    requires b.Valid()
    ensures b.Drop(0) == b
  {
    assert b.content[0..] == b.content;
  }

  lemma DropReads(b: Buf, n: nat)
    requires n <= |b.content|
    ensures b.Drop(n).CanRead() <==> n < |b.content|
    ensures n < |b.content| ==> b.Drop(n).content[0] == b.content[n] && b.Drop(n).Drop(1) == b.Drop(n + 1)
    ensures |b.Drop(n).content| == |b.content| - n
  {
    if n < |b.content| { DropOneMore(b, n); }
  }

  class Buffer {
    const data: array<byte>  // its length is the limit
    var read: nat
    var write: nat

    ghost predicate Valid()
      reads this
    {
      0 < data.Length && read <= write <= data.Length && (read == write ==> read == 0)
    }

    ghost function View(): Buf
      reads this, data
      requires Valid()
    {
      Buf(data.Length, read, data[read..write])
    }

    /** buffer_init over n freshly allocated bytes */
    constructor (n: nat)
      requires n > 0
      ensures Valid() && View() == EmptyBuf(n) && fresh(data)
    {
      data := new byte[n];
      read, write := 0, 0;
    }

    predicate CanWrite()
      reads this
    {
      write < data.Length
    }

    predicate CanRead()
      reads this
    {
      read < write
    }

    /** What the two pointers say about room and content. */
    lemma PointersSay()
      requires Valid()
      ensures View().Room() == data.Length - write && |View().content| == write - read
      ensures (View().CanWrite() <==> write != data.Length) && (View().CanRead() <==> read != write)
    {}

    /** The kernel stores the bytes of a recv from the write pointer on, and the pointer advances. */
    method Receive(bytes: seq<byte>)
      requires Valid() && |bytes| <= View().Room()
      modifies this, data
      ensures Valid() && View() == old(View()).Put(bytes)
      ensures View().content == old(View()).content + bytes && View().Room() == old(View()).Room() - |bytes|
    {
      forall i | 0 <= i < |bytes| {
        data[write + i] := bytes[i];
      }
      write := write + |bytes|;
    }

    /** What buffer_read_ptr points at. */
    lemma FrontOfContent(n: nat)
      requires Valid() && n <= |View().content|
      ensures read + n <= data.Length && View().content[..n] == data[read..read + n]
    {}

    /** buffer_read_adv; a negative count is ignored. */
    method ReadAdv(bytes: int)
      requires Valid() && bytes <= |View().content|
      modifies this, data
      ensures Valid() && View() == if bytes < 0 then old(View()) else old(View()).Drop(bytes)
      ensures View().content == old(View()).content[if bytes < 0 then 0 else bytes..]
      ensures View().content == [] ==> read == write == 0
    {
      if bytes > -1 {
        read := read + bytes;
        if read == write {
          Compact();
        }
      }
    }

    /** buffer_compact: the content moves to the start of the block. */
    method Compact()
      requires 0 < data.Length && read <= write <= data.Length
      modifies this, data
      ensures Valid() && View() == Buf(data.Length, 0, old(data[read..write]))
    {
      if read == 0 {
      } else if read == write {
        read, write := 0, 0;
      } else {
        var n := write - read;
        forall i | 0 <= i < n {
          data[i] := data[read + i];
        }
        read, write := 0, n;
      }
    }

    /** buffer_read: the next byte, or 0 when there is none. */
    method ReadByte() returns (b: byte)
      requires Valid()
      modifies this, data
      ensures Valid()
      ensures old(View()).CanRead() ==> b == old(View()).content[0] && View() == old(View()).Drop(1)
      ensures old(View()).content == [b] + View().content || (old(View()).content == View().content == [] && b == 0)
      ensures !old(View()).CanRead() ==> b == 0 && View() == old(View())
    {
      b := 0;
      if CanRead() {
        b := data[read];
        ReadAdv(1);
      }
    }

    /** buffer_write: appends the byte when there is room. */
    method WriteByte(c: byte)
      requires Valid()
      modifies this, data
      ensures Valid() && View() == if old(View()).CanWrite() then old(View()).Put([c]) else old(View())
      ensures if old(write) < data.Length then View().content == old(View()).content + [c] else View() == old(View())
    {
      if CanWrite() {
        data[write] := c;
        write := write + 1;
      }
    }
  }
}
