/** The bounded byte queue both halves of a connection are built on, and the append loop over it. */
module RingBuffers {
  import opened Bytes

  /** `ink::RingBuffer` seen as a bounded FIFO. How much one call moves is the buffer's own choice. */
  class RingBuffer {
    const capacity: nat
    var contents: seq<Byte>

    ghost predicate Valid()
      reads this
    {
      |contents| <= capacity < TWO_64
    }

    function Room(): nat
      requires Valid()
      reads this
    {
      capacity - |contents|
    }

    constructor (capacity: nat)
      requires capacity < TWO_64
      ensures Valid() && this.capacity == capacity && contents == []
    {
      this.capacity := capacity;
      contents := [];
    }

    constructor Holding(capacity: nat, contents: seq<Byte>)
      requires |contents| <= capacity < TWO_64
      ensures Valid() && this.capacity == capacity && this.contents == contents
    {
      this.capacity := capacity;
      this.contents := contents;
    }

    /** Appends some prefix of `data`: a nonempty one whenever there is data and space. */
    method Write(data: seq<Byte>) returns (n: nat)
      requires Valid()
      modifies this
      ensures Valid()
      ensures n <= |data| && n <= old(Room())
      ensures data != [] && old(Room()) > 0 ==> n > 0
      ensures contents == old(contents) + data[..n]
    {
      n := 0;
      if data != [] && Room() > 0 {
        assert 0 < 1 <= |data| && 1 <= Room();
        n :| 0 < n <= |data| && n <= Room();
      }
      contents := contents + data[..n];
    }

    /** Length of the contiguous region `getWriteBuffer` offers: zero only when the buffer is full. */
    method WriteRegion() returns (n: nat)
      requires Valid()
      ensures n <= Room() && (n == 0 <==> Room() == 0)
    {
      n := 0;
      if Room() > 0 {
        assert 0 < 1 <= Room();
        n :| 0 < n <= Room();
      }
    }

    /** Length of the contiguous region `getReadBuffer` offers on the write side: zero only when empty. */
    method ReadRegion() returns (n: nat)
      requires Valid()
      ensures n <= |contents| && (n == 0 <==> contents == [])
    {
      n := 0;
      if contents != [] {
        assert 0 < 1 <= |contents|;
        n :| 0 < n <= |contents|;
      }
    }

    /** `bytes` were stored in the offered region; make them readable. */
    method AdvanceWritePos(bytes: seq<Byte>)
      requires Valid() && |bytes| <= Room()
      modifies this
      ensures Valid() && contents == old(contents) + bytes
    {
      contents := contents + bytes;
    }

    /** Drops the first `n` bytes; told to drop more than there are, it is taken to be left empty. */
    method AdvanceReadPos(n: nat)
      requires Valid()
      modifies this
      ensures Valid() && contents == Drop(old(contents), n)
    {
      contents := Drop(contents, n);
    }
  }

  /** Appends `data` through as many partial writes as the buffer asks for. */
  method WriteAll(rb: RingBuffer, data: seq<Byte>) returns (ok: bool)
    requires rb.Valid()
    modifies rb
    ensures rb.Valid()
    ensures rb.contents == old(rb.contents) + Clip(data, old(rb.Room()))
    ensures ok <==> |data| <= old(rb.Room())
  {
    var written := 0;
    while written < |data|
      invariant rb.Valid()
      invariant written <= |data| && written <= old(rb.Room())
      invariant rb.contents == old(rb.contents) + data[..written]
    {
      var n := rb.Write(data[written..]);
      if n == 0 {
        return false;
      }
      SliceJoins(data, 0, written, written + n);
      Assoc(old(rb.contents), data[..written], data[written..][..n]);
      written := written + n;
    }
    assert data[..written] == data;
    return true;
  }
}
