/** The growable byte buffer with a read cursor that sits between sockets, parser and writer. */
module Buffers {
  import opened Octets

  const DOUBLING_LIMIT: nat := 16 * 1024 * 1024
  const INITIAL_SIZE: nat := 1024

  /**
   A first-in first-out queue of bytes. Its abstract value is `Contents()`; the consumed
   prefix and the unwritten suffix of `data` are storage only.
   */
  class Buffer {
    var data: array<Octet>
    var readPos: nat
    var writePos: nat

    ghost predicate Valid()
      reads this
    {
      readPos <= writePos <= data.Length
    }

    ghost function Contents(): (s: Bytes)
      reads this, data
      requires Valid()
      ensures |s| == writePos - readPos
    {
      data[readPos..writePos]
    }

    function Readable(): (n: nat)
      reads this
      requires Valid()
    {
      writePos - readPos
    }

    function Writable(): (n: nat)
      reads this
      requires Valid()
    {
      data.Length - writePos
    }

    constructor ()
      ensures Valid() && fresh(data)
      ensures Contents() == [] && data.Length == 0
    {
      data := new Octet[0];
      readPos, writePos := 0, 0;
    }

    /** Moves the live bytes to the front of the storage (memmove). */
    method Compact()
      requires Valid()
      modifies this, data
      ensures Valid() && data == old(data)
      ensures readPos == 0 && Contents() == old(Contents())
    {
      var n := Readable();
      var from := readPos;
      if n > 0 && from > 0 {
        forall i | 0 <= i < n {
          data[i] := data[i + from];
        }
      }
      readPos, writePos := 0, n;
    }

    /**
     Room for `n` more bytes. The storage is replaced only when the consumed prefix and the
     free suffix together are too small, and then by little more than what is needed.
     */
    method EnsureWritable(n: nat)
      requires Valid()
      modifies this, data
      ensures Valid() && (data == old(data) || fresh(data))
      ensures Writable() >= n && Contents() == old(Contents())
      ensures data == old(data) <==> old(|Contents()|) + n <= old(data.Length)
      ensures data != old(data) && data.Length != INITIAL_SIZE ==>
                data.Length < 2 * (old(|Contents()|) + n) && data.Length < old(|Contents()|) + n + DOUBLING_LIMIT
    {
      if Writable() >= n {
        return;
      }
      if readPos + Writable() >= n {
        Compact();
        return;
      }
      Compact();
      var want := writePos + n;
      var next := if data.Length > INITIAL_SIZE then data.Length else INITIAL_SIZE;
      while next < want
        invariant next >= data.Length && next >= INITIAL_SIZE
        invariant next == INITIAL_SIZE || next == data.Length || (next < 2 * want && next < want + DOUBLING_LIMIT)
      {
        next := next + (if next < DOUBLING_LIMIT then next else DOUBLING_LIMIT);
      }
      var bigger := new Octet[next](_ => 0);
      forall i | 0 <= i < data.Length {
        bigger[i] := data[i];
      }
      data := bigger;
    }

    /** Records that `n` bytes were written straight into the free suffix. */
    method Commit(n: nat)
      requires Valid() && n <= Writable()
      modifies this`writePos
      ensures Valid()
      ensures Contents() == old(Contents()) + data[old(writePos)..old(writePos) + n]
    {
      writePos := writePos + n;
    }

    method Append(p: Bytes)
      requires Valid()
      modifies this, data
      ensures Valid() && (data == old(data) || fresh(data))
      ensures Contents() == old(Contents()) + p
    {
      if |p| == 0 {
        return;
      }
      EnsureWritable(|p|);
      Store(p);
      Commit(|p|);
    }

    /** Copies `p` into the free suffix without moving a cursor (memcpy, or the kernel in read). */
    method Store(p: Bytes)
      requires Valid() && |p| <= Writable()
      modifies data
      ensures data[writePos..writePos + |p|] == p
      ensures Contents() == old(Contents())
    {
      forall i | 0 <= i < |p| {
        data[writePos + i] := p[i];
      }
    }

    method Consume(n: nat)
      requires Valid()
      modifies this`readPos, this`writePos
      ensures Valid()
      ensures Contents() == old(Contents())[if n < old(|Contents()|) then n else old(|Contents()|)..]
    {
      if n >= Readable() {
        readPos, writePos := 0, 0;
      } else {
        readPos := readPos + n;
      }
    }

    /** The readable bytes (peek and to_string). */
    method Peek() returns (s: Bytes)
      requires Valid()
      ensures s == Contents()
    {
      s := data[readPos..writePos];
    }
  }
}
