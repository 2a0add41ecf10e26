/** log::Writer: frames records and appends them to a file that may fail anywhere. */
module LogWriter {
  import opened Bytes
  import opened LogFormat
  import opened PosixFile

  class Writer {
    const crc: Checksum
    const dest: WritableFile
    var blockOffset: nat

    ghost predicate Valid()
      reads this, dest
    {
      dest.buf == [] && blockOffset <= BLOCK_SIZE
    }

    /** The writer knows where in a block the file ends; not so after a failure. */
    ghost predicate Aligned()
      reads this, dest
    {
      Valid() && blockOffset % 32768 == |dest.disk| % 32768
    }

    /** On a file that already has contents; with none this is the one-argument constructor. */
    constructor (crc: Checksum, dest: WritableFile)
      requires dest.buf == []
      ensures Aligned() && this.crc == crc && this.dest == dest
    {
      this.crc := crc;
      this.dest := dest;
      blockOffset := |dest.disk| % 32768;
    }

    /** Either all of it is in the file, or the file ends within it; the offset moves on in any case. */
    method EmitPhysicalRecord(t: Byte, payload: seq<Byte>) returns (ok: bool)
      requires dest.Valid() && |payload| <= 0xffff && blockOffset + HEADER_SIZE + |payload| <= BLOCK_SIZE
      modifies this`blockOffset, dest
      ensures Valid() && old(dest.disk) <= dest.disk
      ensures ok ==> dest.disk == old(dest.Contents()) + Physical(crc, t, payload)
      ensures !ok ==> dest.disk < old(dest.Contents()) + Physical(crc, t, payload)
      ensures blockOffset == old(blockOffset) + HEADER_SIZE + |payload|
    {
      var buf := EncodeFixed(crc(t, payload), 4) + [|payload| % 256, |payload| / 256, t];
      ghost var file := dest.Contents();
      Regroup(file, buf, payload);
      ok := dest.Append(buf);
      if ok {
        ok := dest.Append(payload);
        if ok {
          ok := dest.FlushBuffer();
        }
      }
      blockOffset := blockOffset + HEADER_SIZE + |payload|;
    }

    /** Switches to a new block when no header fits in this one.  The result of Append is not looked at;
        it is always true, since these few bytes go into an empty buffer. */
    method FillTrailer()
      requires Valid()
      modifies this`blockOffset, dest
      ensures dest.Valid() && dest.disk == old(dest.disk)
      ensures dest.buf == Zeros(HeaderAt(old(blockOffset)) - old(blockOffset))
      ensures blockOffset == HeaderAt(old(blockOffset)) % 32768
    {
      var leftover := BLOCK_SIZE - blockOffset;
      if leftover < HEADER_SIZE {
        if leftover > 0 {
          var ignored := dest.Append(Zeros(leftover));
        }
        blockOffset := 0;
      }
    }

    /** One turn of AddRecord's loop: the trailer if the block is full, then one fragment. */
    method AddFragment(rest: seq<Byte>, begin: bool) returns (ok: bool, fragmentLength: nat)
      requires Valid()
      modifies this`blockOffset, dest
      ensures Valid() && old(dest.disk) <= dest.disk
      ensures ok ==> dest.disk == old(dest.disk) + FirstFrame(crc, old(blockOffset), rest, begin)
      ensures !ok ==> dest.disk < old(dest.disk) + FirstFrame(crc, old(blockOffset), rest, begin)
      ensures fragmentLength == FragmentLength(HeaderAt(old(blockOffset)), |rest|)
      ensures blockOffset % 32768 == FrameEnd(old(blockOffset), rest) % 32768
      ensures ok && old(Aligned()) ==> Aligned()
    {
      ghost var b, before := blockOffset, |dest.disk|;
      FillTrailer();
      FragmentFits(b, rest, begin);
      var avail := BLOCK_SIZE - blockOffset - HEADER_SIZE;
      fragmentLength := if |rest| < avail then |rest| else avail;
      var end := |rest| == fragmentLength;
      Regroup(dest.disk, dest.buf, Physical(crc, FragmentType(begin, end), rest[..fragmentLength]));
      ok := EmitPhysicalRecord(FragmentType(begin, end), rest[..fragmentLength]);
      SameShift(b, before, FrameEnd(b, rest) - b);
    }

    /** True exactly when all of the record is in the file; otherwise the file ends within it. */
    method AddRecord(data: seq<Byte>) returns (ok: bool)
      requires Valid()
      modifies this`blockOffset, dest
      ensures Valid() && old(dest.disk) <= dest.disk
      ensures ok ==> dest.disk == old(dest.disk) + Frames(crc, old(blockOffset), data, true)
      ensures !ok ==> dest.disk < old(dest.disk) + Frames(crc, old(blockOffset), data, true)
      ensures ok && old(Aligned()) ==> Aligned()
    {
      var rest := data;
      var begin := true;
      ghost var goal := dest.disk + Frames(crc, blockOffset, data, true);
      ok := true;
      while true
        invariant Valid() && old(dest.disk) <= dest.disk && (old(Aligned()) ==> Aligned())
        invariant dest.disk + Frames(crc, blockOffset, rest, begin) == goal
        decreases |rest|, Progress(blockOffset, rest)
      {
        ghost var offset, disk := blockOffset, dest.disk;
        FramesStep(crc, disk, offset, rest, begin);
        var fragmentLength;
        ok, fragmentLength := AddFragment(rest, begin);
        if !ok {
          ProperPrefix(dest.disk, disk + FirstFrame(crc, offset, rest, begin), goal);
          return;
        }
        NextFrames(crc, offset, blockOffset, rest);
        rest := rest[fragmentLength..];
        begin := false;
        if |rest| == 0 {
          break;
        }
      }
    }
  }

  /** The block offset behind a trailer does as the position does. */
  lemma FragmentFits(b: nat, data: seq<Byte>, begin: bool)
    requires b <= BLOCK_SIZE
    ensures var q := HeaderAt(b) % 32768; var avail := BLOCK_SIZE - q - HEADER_SIZE;
      && q + HEADER_SIZE <= BLOCK_SIZE
      && FragmentLength(HeaderAt(b), |data|) == (if |data| < avail then |data| else avail)
      && (q + HEADER_SIZE + FragmentLength(HeaderAt(b), |data|)) % 32768 == FrameEnd(b, data) % 32768
  {
  }

  lemma SameShift(a: nat, b: nat, n: nat)
    ensures a % 32768 == b % 32768 ==> (a + n) % 32768 == (b + n) % 32768
  {
  }

  lemma ProperPrefix(a: seq<Byte>, b: seq<Byte>, c: seq<Byte>)
    requires a < b <= c
    ensures a < c
  {
  }

  /** The frames that follow, from any offset that is the same within its block. */
  lemma NextFrames(crc: Checksum, p: nat, q: nat, data: seq<Byte>)
    requires q % 32768 == FrameEnd(p, data) % 32768
    ensures Frames(crc, q, Remaining(p, data), false) == Frames(crc, FrameEnd(p, data), Remaining(p, data), false)
    ensures Remaining(p, data) != [] ==>
      || |Remaining(p, data)| < |data|
      || (|Remaining(p, data)| == |data| && Progress(q, Remaining(p, data)) < Progress(p, data))
  {
    var rest := Remaining(p, data);
    StepModBlock(q, FrameEnd(p, data), rest);
    FramesModBlock(crc, q, FrameEnd(p, data), rest, false);
    if rest != [] { StepProgress(p, data); }
  }

  /** One fragment written to `file`, the rest to go. */
  lemma FramesStep(crc: Checksum, file: seq<Byte>, p: nat, data: seq<Byte>, begin: bool)
    ensures file + Frames(crc, p, data, begin) == file + FirstFrame(crc, p, data, begin)
      + (if Remaining(p, data) == [] then [] else Frames(crc, FrameEnd(p, data), Remaining(p, data), false))
    ensures file + FirstFrame(crc, p, data, begin) <= file + Frames(crc, p, data, begin)
  {
    var first := FirstFrame(crc, p, data, begin);
    var tail := if Remaining(p, data) == [] then []
      else Frames(crc, FrameEnd(p, data), Remaining(p, data), false);
    FramesUnfold(crc, p, data, begin);
    Regroup(file, first, tail);
  }
}
