/** PosixWritableFile: what the system has taken, and a buffer in front of it. */
module PosixFile {
  import opened Bytes

  const BUFFER_SIZE := 65536

  class WritableFile {
    var disk: seq<Byte>
    var buf: seq<Byte>  // buf_[..pos_]

    ghost predicate Valid()
      reads this
    {
      |buf| <= BUFFER_SIZE
    }

    ghost function Contents(): seq<Byte>
      reads this
    {
      disk + buf
    }

    constructor (disk: seq<Byte>)
      ensures Valid() && this.disk == disk && buf == []
    {
      this.disk := disk;
      buf := [];
    }

    /** The system takes as many bytes at a time as it likes, or fails. */
    method WriteUnbuffered(data: seq<Byte>) returns (ok: bool)
      modifies this`disk
      ensures old(disk) <= disk <= old(disk) + data
      ensures ok <==> disk == old(disk) + data
    {
      var left := data;
      while left != []
        invariant old(disk) <= disk && disk + left == old(disk) + data
        decreases |left|
      {
        var taken: int :| -1 <= taken <= |left| && taken != 0;
        if taken < 0 {
          return false;
        }
        disk := disk + left[..taken];
        left := left[taken..];
      }
      ok := true;
    }

    /** Whether it fails or not, the buffer is empty afterwards. */
    method FlushBuffer() returns (ok: bool)
      modifies this
      ensures buf == [] && old(disk) <= disk <= old(Contents())
      ensures ok <==> disk == old(Contents())
    {
      ok := WriteUnbuffered(buf);
      buf := [];
    }

    /** Fails only short of the end of `data`, and never where the buffer has room for it. */
    method Append(data: seq<Byte>) returns (ok: bool)
      requires Valid()
      modifies this
      ensures Valid() && old(disk) <= disk
      ensures ok ==> Contents() == old(Contents()) + data
      ensures !ok ==> disk < old(Contents()) + data && buf == []
      ensures |old(buf)| + |data| <= BUFFER_SIZE ==> ok && disk == old(disk) && buf == old(buf) + data
    {
      var copySize := if |data| < BUFFER_SIZE - |buf| then |data| else BUFFER_SIZE - |buf|;
      buf := buf + data[..copySize];
      var rest := data[copySize..];
      if rest == [] {
        return true;
      }
      ghost var all := disk + buf + rest;
      assert all == old(Contents()) + data;
      ok := FlushBuffer();
      if !ok {
        return;
      }
      if |rest| < BUFFER_SIZE {
        buf := rest;
        return true;
      }
      ok := WriteUnbuffered(rest);
    }
  }
}
