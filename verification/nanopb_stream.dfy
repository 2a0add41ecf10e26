/** nanopb's output and input streams over memory buffers. */
module PbStream {
  import opened Bytes

  /** pb_ostream_t.  `state` stands for the destination pointer: everything before it, written so far. */
  class OStream {
    const sizing: bool  // callback == NULL: only counts
    const maxSize: nat
    var state: seq<Byte>
    var bytesWritten: nat

    ghost predicate Valid()
      reads this
    {
      !sizing ==> bytesWritten <= maxSize
    }

    /** Room for `n` more bytes. */
    ghost predicate Room(n: nat)
      reads this
    {
      sizing || bytesWritten + n <= maxSize
    }

    /** `bytes` have been written since the stream was in the given state. */
    ghost predicate Appended(state0: seq<Byte>, written0: nat, bytes: seq<Byte>)
      reads this
    {
      bytesWritten == written0 + |bytes| && state == (if sizing then state0 else state0 + bytes)
    }

    /** PB_OSTREAM_SIZING */
    constructor Sizing()
      ensures Valid() && sizing && bytesWritten == 0 && state == []
    {
      sizing, maxSize, state, bytesWritten := true, 0, [], 0;
    }

    /** pb_ostream_from_buffer, and the writing substream of a submessage. */
    constructor Buffer(state: seq<Byte>, maxSize: nat)
      ensures Valid() && !sizing && bytesWritten == 0 && this.state == state && this.maxSize == maxSize
    {
      sizing := false;
      this.maxSize, this.state, bytesWritten := maxSize, state, 0;
    }

    /** pb_write */
    method Write(buf: seq<Byte>) returns (ok: bool)
      requires Valid()
      modifies this
      ensures Valid()
      ensures ok <==> old(Room(|buf|))
      ensures Appended(old(state), old(bytesWritten), if ok then buf else [])
    {
      if |buf| > 0 && !sizing {
        if bytesWritten + |buf| > maxSize {
          return false;
        }
        state := state + buf;
      }
      bytesWritten := bytesWritten + |buf|;
      return true;
    }

    /** pb_write(stream, NULL, size) on a sizing stream. */
    method Count(size: nat) returns (ok: bool)
      requires sizing
      modifies this
      ensures ok && bytesWritten == old(bytesWritten) + size && state == old(state)
    {
      bytesWritten := bytesWritten + size;
      return true;
    }
  }

  /** pb_istream_t over a buffer: `state` is the read position. */
  class IStream {
    const buf: seq<Byte>
    var state: nat
    var bytesLeft: nat

    ghost predicate Valid()
      reads this
    {
      state + bytesLeft <= |buf|
    }

    /** What can still be read. */
    ghost function Left(): (s: seq<Byte>)
      requires Valid()
      reads this
      ensures |s| == bytesLeft
    {
      buf[state..state + bytesLeft]
    }

    /** pb_istream_from_buffer, and the substream of a length-delimited field. */
    constructor (buf: seq<Byte>, state: nat, bytesLeft: nat)
      requires state + bytesLeft <= |buf|
      ensures Valid() && this.buf == buf && this.state == state && this.bytesLeft == bytesLeft
    {
      this.buf, this.state, this.bytesLeft := buf, state, bytesLeft;
    }

    /** pb_read */
    method Read(count: nat) returns (ok: bool, bytes: seq<Byte>)
      requires Valid()
      modifies this
      ensures Valid()
      ensures ok <==> count <= old(bytesLeft)
      ensures ok ==> bytes == old(Left())[..count] && Left() == old(Left())[count..] && state == old(state) + count
      ensures !ok ==> state == old(state) && bytesLeft == old(bytesLeft)
    {
      if bytesLeft < count {
        return false, [];
      }
      bytes := buf[state..state + count];
      state := state + count;
      bytesLeft := bytesLeft - count;
      ok := true;
    }

    /** pb_readbyte */
    method ReadByte() returns (ok: bool, b: Byte)
      requires Valid()
      modifies this
      ensures Valid()
      ensures ok <==> old(bytesLeft) > 0
      ensures ok ==> b == old(Left())[0] && Left() == old(Left())[1..] && state == old(state) + 1
      ensures !ok ==> state == old(state) && bytesLeft == old(bytesLeft)
    {
      if bytesLeft == 0 {
        return false, 0;
      }
      b := buf[state];
      state := state + 1;
      bytesLeft := bytesLeft - 1;
      ok := true;
    }
  }
}
