/** log::Reader: what it makes of any bytes, and that this is what was written. */
module LogReader {
  import opened Bytes
  import opened LogFormat
  import LogWriter
  import opened PosixFile
  import opened Wrappers

  const EOF_RECORD: nat := 5
  const BAD_RECORD: nat := 6

  // ---------- What any bytes read as ----------

  /** What stands at a position of a file, and where reading goes on. */
  datatype Parsed =
    | Eof
    | Bad(next: nat)
    | Fragment(typ: Byte, payload: seq<Byte>, next: nat)

  /** The end of the block of `q`, or of the file. */
  function BlockEnd(q: nat, size: nat): (e: nat)
    requires q <= size
    ensures q <= e <= size && (q < size ==> q < e)
    ensures e % 32768 == 0 || e == size
  {
    var b := q - q % 32768 + 32768;
    if b <= size then b else size
  }

  /** What the rest of a block says, that ends at `end`.  A bad length, checksum or zero record costs all of it; in the
      last block, when that is not full, a length that is too large is a record torn by a crash. */
  function ParseBlock(crc: Checksum, b: seq<Byte>, end: nat): (r: Parsed)
    requires HEADER_SIZE <= |b| <= end
    ensures r.Bad? ==> r.next == end
    ensures r.Fragment? ==> end - |b| < r.next <= end
  {
    var n := LengthField(b);
    if HEADER_SIZE + n > |b| then (if end % 32768 == 0 then Bad(end) else Eof)
    else if b[6] == ZERO_TYPE && n == 0 then Bad(end)
    else if DecodeFixed(b[..4]) != crc(b[6], b[HEADER_SIZE..HEADER_SIZE + n]) then Bad(end)
    else Fragment(b[6], b[HEADER_SIZE..HEADER_SIZE + n], end - |b| + HEADER_SIZE + n)
  }

  /** A header of zeros, as in a file that was allocated in advance, ends its block; nothing is taken for a record. */
  lemma ZerosAreSkipped(crc: Checksum, b: seq<Byte>, end: nat)
    requires HEADER_SIZE <= |b| <= end && forall k :: 0 <= k < 7 ==> b[k] == 0
    ensures ParseBlock(crc, b, end) == Bad(end)
  {
  }

  function Parse(crc: Checksum, file: seq<Byte>, p: nat): (r: Parsed)
    requires p <= |file|
    ensures !r.Eof? ==> p < r.next <= |file|
  {
    var q := HeaderAt(p);
    if q + HEADER_SIZE > |file| then Eof
    else
      BlockHoldsHeader(q, |file|);
      ParseBlock(crc, file[q..BlockEnd(q, |file|)], BlockEnd(q, |file|))
  }

  lemma BlockHoldsHeader(q: nat, size: nat)
    requires q + HEADER_SIZE <= size && q % 32768 + HEADER_SIZE <= BLOCK_SIZE
    ensures q + HEADER_SIZE <= BlockEnd(q, size)
  {
  }

  /** What is made of a file, position by position. */
  type Parser = nat -> Parsed

  function ParserOf(crc: Checksum, file: seq<Byte>): Parser {
    (p: nat) => if p <= |file| then Parse(crc, file, p) else Eof
  }

  /** Reading ends here.  The format has no record of type 5, but where one is found with the right checksum the code
      takes its type for its own mark of the end. */
  predicate Ends(r: Parsed, p: nat, size: nat) {
    r.Eof? || (r.Fragment? && r.typ as nat == EOF_RECORD) || !(p < r.next <= size)
  }

  /** The records completed by what was read, and what there is of one that is not complete. */
  function Take(r: Parsed, partial: Option<seq<Byte>>): (seq<seq<Byte>>, Option<seq<Byte>>) {
    match r
    case Fragment(t, f, next) =>
      if t == FULL_TYPE then ([f], None)
      else if t == FIRST_TYPE then ([], Some(f))
      else if t == MIDDLE_TYPE then ([], Extended(partial, f))
      else if t == LAST_TYPE then (Finished(partial, f), None)
      else ([], None)
    case _ => ([], None)
  }

  function Extended(partial: Option<seq<Byte>>, f: seq<Byte>): Option<seq<Byte>> {
    if partial.Some? then Some(partial.value + f) else None
  }

  function Finished(partial: Option<seq<Byte>>, f: seq<Byte>): seq<seq<Byte>> {
    if partial.Some? then [partial.value + f] else []
  }

  /** The records read from position `p` on, after the fragments in `partial` of one that is not complete. */
  function RecordsFrom(parse: Parser, size: nat, p: nat, partial: Option<seq<Byte>>): seq<seq<Byte>>
    decreases size - p
  {
    var r := parse(p);
    if Ends(r, p, size) then []
    else Take(r, partial).0 + RecordsFrom(parse, size, r.next, Take(r, partial).1)
  }

  /** What is read from here on, by what comes first. */
  lemma TakeOne(parse: Parser, size: nat, p: nat, inRecord: bool, scratch: seq<Byte>, kind: nat, fragment: seq<Byte>,
      next: nat, all: seq<seq<Byte>>)
    requires RecordsFrom(parse, size, p, Partial(inRecord, scratch)) == all
    requires Shows(parse(p), kind, fragment, next) && (kind != EOF_RECORD ==> p < next <= size)
    ensures kind == EOF_RECORD ==> all == []
    ensures kind == FULL_TYPE as nat ==> all == [fragment] + RecordsFrom(parse, size, next, None)
    ensures kind == FIRST_TYPE as nat ==> all == RecordsFrom(parse, size, next, Some(fragment))
    ensures kind == MIDDLE_TYPE as nat ==>
      all == RecordsFrom(parse, size, next, Partial(inRecord, scratch + fragment))
    ensures kind == LAST_TYPE as nat && inRecord ==>
      all == [scratch + fragment] + RecordsFrom(parse, size, next, None)
    ensures kind == LAST_TYPE as nat && !inRecord ==> all == RecordsFrom(parse, size, next, None)
    ensures !(1 <= kind <= 4) && kind != EOF_RECORD ==> all == RecordsFrom(parse, size, next, None)
  {
  }

  /** The local variables of ReadRecord. */
  function Partial(inFragmentedRecord: bool, scratch: seq<Byte>): Option<seq<Byte>> {
    if inFragmentedRecord then Some(scratch) else None
  }

  /** The first record from `start` on ends at `p`. */
  ghost predicate NextRecord(parse: Parser, size: nat, start: nat, r: Option<seq<Byte>>, p: int) {
    && (r.None? ==> RecordsFrom(parse, size, start, None) == [])
    && (r.Some? ==>
      start < p && RecordsFrom(parse, size, start, None) == [r.value] + RecordsFrom(parse, size, p, None))
  }

  /** What ReadPhysicalRecord returns for it, and where the reader then stands. */
  ghost predicate Shows(r: Parsed, kind: nat, fragment: seq<Byte>, position: int) {
    match r
    case Eof => kind == EOF_RECORD
    case Bad(next) => kind == BAD_RECORD && position == next
    case Fragment(t, f, next) => kind == t as nat && fragment == f && position == next
  }

  /** Every record of a file. */
  function Records(crc: Checksum, file: seq<Byte>): seq<seq<Byte>> {
    RecordsFrom(ParserOf(crc, file), |file|, 0, None)
  }

  // ---------- The reader ----------

  class Reader {
    const crc: Checksum
    const contents: seq<Byte>  // the file
    var consumed: nat          // bytes of it read so far
    var buffer: seq<Byte>
    var eof: bool

    /** The buffer is the unread end of one block. */
    ghost predicate Valid()
      reads this
    {
      && |buffer| <= consumed <= |contents|
      && buffer == contents[Position()..consumed]
      && (eof ==> consumed == |contents|)
      && (if eof && buffer != [] then consumed % 32768 != 0 else !eof ==> consumed % 32768 == 0)
      && (|buffer| > 0 ==> Position() % 32768 + |buffer| <= BLOCK_SIZE)
    }

    ghost function Position(): int
      reads this
    {
      consumed - |buffer|
    }

    constructor (crc: Checksum, contents: seq<Byte>)
      ensures Valid() && Position() == 0 && this.crc == crc && this.contents == contents
    {
      this.crc := crc;
      this.contents := contents;
      consumed := 0;
      buffer := contents[0..0];
      eof := false;
    }

    /** Reads the next block; a short read means the end of the file. */
    method FillBuffer()
      requires Valid() && !eof
      modifies this
      ensures Valid() && Position() == old(consumed)
      ensures |buffer| < BLOCK_SIZE ==> eof
      ensures buffer != [] || eof
    {
      var n := if |contents| - consumed < BLOCK_SIZE then |contents| - consumed else BLOCK_SIZE;
      buffer := contents[consumed..consumed + n];
      consumed := consumed + n;
      if |buffer| < BLOCK_SIZE {
        eof := true;
      }
    }

    /** Skips a block's trailer and gets at least a header into the buffer, unless the file ends. */
    method NeedHeader() returns (ok: bool)
      requires Valid()
      modifies this
      ensures Valid()
      ensures ok ==> Position() == HeaderAt(old(Position())) && |buffer| >= HEADER_SIZE
      ensures !ok ==> eof && |contents| < HeaderAt(old(Position())) + HEADER_SIZE && buffer == []
    {
      ghost var p := Position();
      while |buffer| < HEADER_SIZE
        invariant Valid() && (Position() == p || Position() == HeaderAt(p))
        invariant !eof && |buffer| < HEADER_SIZE ==> Position() == p
        decreases !eof, |buffer| < HEADER_SIZE
      {
        if eof {
          buffer := [];
          return false;
        }
        TrailerEnds(Position(), consumed);
        FillBuffer();
      }
      return true;
    }

    /** The header at the front of the buffer decides what is returned and what is dropped. */
    method ParseBuffer() returns (kind: nat, fragment: seq<Byte>)
      requires Valid() && |buffer| >= HEADER_SIZE && Position() == HeaderAt(Position())
      modifies this`buffer
      ensures Valid() && Shows(Parse(crc, contents, old(Position())), kind, fragment, Position())
    {
      BlockEndIs(Position(), |contents|, consumed);
      var length := LengthField(buffer);
      var typ := buffer[6];
      if HEADER_SIZE + length > |buffer| {
        buffer := [];
        if !eof {
          return BAD_RECORD, [];
        }
        return EOF_RECORD, [];
      }
      if typ == ZERO_TYPE && length == 0 {
        buffer := [];
        return BAD_RECORD, [];
      }
      if DecodeFixed(buffer[..4]) != crc(typ, buffer[HEADER_SIZE..HEADER_SIZE + length]) {
        buffer := [];
        return BAD_RECORD, [];
      }
      fragment := buffer[HEADER_SIZE..HEADER_SIZE + length];
      DropFront(contents, Position(), consumed, HEADER_SIZE + length);
      buffer := buffer[HEADER_SIZE + length..];
      kind := typ;
    }

    /** ReadPhysicalRecord, for a reader that checks checksums and starts at offset 0. */
    method ReadPhysicalRecord() returns (kind: nat, fragment: seq<Byte>)
      requires Valid()
      modifies this
      ensures Valid() && Shows(ParserOf(crc, contents)(old(Position())), kind, fragment, Position())
    {
      ghost var p := Position();
      var ok := NeedHeader();
      if !ok {
        return EOF_RECORD, [];
      }
      ParseAtHeader(crc, contents, p);
      kind, fragment := ParseBuffer();
    }

    /** ReadRecord */
    method ReadRecord() returns (r: Option<seq<Byte>>)
      requires Valid()
      modifies this
      ensures Valid() && NextRecord(ParserOf(crc, contents), |contents|, old(Position()), r, Position())
    {
      var scratch: seq<Byte> := [];
      var inFragmentedRecord := false;
      ghost var parse := ParserOf(crc, contents);
      ghost var all := RecordsFrom(parse, |contents|, Position(), None);
      while true
        invariant Valid() && Position() >= old(Position())
        invariant RecordsFrom(parse, |contents|, Position(), Partial(inFragmentedRecord, scratch)) == all
        decreases |contents| - Position()
      {
        ghost var p := Position();
        var kind, fragment := ReadPhysicalRecord();
        TakeOne(parse, |contents|, p, inFragmentedRecord, scratch, kind, fragment, Position(), all);
        if kind == FULL_TYPE as nat {
          return Some(fragment);
        } else if kind == FIRST_TYPE as nat {
          scratch := fragment;
          inFragmentedRecord := true;
        } else if kind == MIDDLE_TYPE as nat {
          if inFragmentedRecord {
            scratch := scratch + fragment;
          }
        } else if kind == LAST_TYPE as nat {
          if inFragmentedRecord {
            scratch := scratch + fragment;
            return Some(scratch);
          }
        } else if kind == EOF_RECORD {
          return None;
        } else {
          inFragmentedRecord := false;
          scratch := [];
        }
      }
    }
  }

  lemma DropFront(s: seq<Byte>, from: nat, to: nat, n: nat)
    requires from + n <= to <= |s|
    ensures s[from..to][n..] == s[from + n..to] && (n < to - from ==> (from + n) % 32768 <= from % 32768 + n)
  {
  }

  lemma TrailerEnds(p: nat, c: nat)
    requires p <= c < p + HEADER_SIZE && c % 32768 == 0
    ensures HeaderAt(p) == c && HeaderAt(c) == c
  {
  }

  lemma BlockEndIs(q: nat, size: nat, e: nat)
    requires q < e <= size && q % 32768 + (e - q) <= 32768 && (e == size || e % 32768 == 0)
    ensures e == BlockEnd(q, size)
  {
  }

  /** A trailer is skipped. */
  lemma ParseAtHeader(crc: Checksum, file: seq<Byte>, p: nat)
    requires p <= |file| && HeaderAt(p) <= |file|
    ensures HeaderAt(HeaderAt(p)) == HeaderAt(p) && Parse(crc, file, p) == Parse(crc, file, HeaderAt(p))
  {
  }

  // ---------- A file that starts with whole records ----------

  /** At position `p` of `full`, the next physical record is (t, payload), and whole. */
  ghost predicate NextIs(crc: Checksum, full: seq<Byte>, p: nat, t: Byte, payload: seq<Byte>) {
    var q := HeaderAt(p);
    && q % 32768 + HEADER_SIZE + |payload| <= BLOCK_SIZE
    && q + HEADER_SIZE + |payload| <= |full|
    && full[q..q + HEADER_SIZE + |payload|] == Physical(crc, t, payload)
  }

  /** Of a physical record of `full`, a file that ends before its end shows nothing. */
  lemma ParseNext(crc: Checksum, file: seq<Byte>, full: seq<Byte>, p: nat, t: Byte, payload: seq<Byte>)
    requires file <= full && p <= |file| && t != ZERO_TYPE && NextIs(crc, full, p, t, payload)
    ensures var e := HeaderAt(p) + HEADER_SIZE + |payload|;
      Parse(crc, file, p) == if e <= |file| then Fragment(t, payload, e) else Eof
  {
    var q := HeaderAt(p);
    var e := q + HEADER_SIZE + |payload|;
    if q + HEADER_SIZE <= |file| {
      var end := BlockEnd(q, |file|);
      BlockHoldsHeader(q, |file|);
      StartOfBlock(full, q, e, file[q..end]);
      BlockShows(crc, file[q..end], end, t, payload);
    }
  }

  lemma StartOfBlock(full: seq<Byte>, q: nat, e: nat, b: seq<Byte>)
    requires q <= e <= |full| && q + |b| <= |full| && b == full[q..q + |b|]
    ensures b <= full[q..e] || full[q..e] <= b
  {
    assert forall i :: 0 <= i < |b| && i < e - q ==> b[i] == full[q..e][i];
  }

  lemma BlockShows(crc: Checksum, b: seq<Byte>, end: nat, t: Byte, payload: seq<Byte>)
    requires |payload| < 65536 && HEADER_SIZE <= |b| <= end && t != ZERO_TYPE
    requires b <= Physical(crc, t, payload) || Physical(crc, t, payload) <= b
    ensures ParseBlock(crc, b, end) ==
      if HEADER_SIZE + |payload| <= |b| then Fragment(t, payload, end - |b| + HEADER_SIZE + |payload|)
      else if end % 32768 == 0 then Bad(end) else Eof
  {
    var piece := Physical(crc, t, payload);
    HeaderBytes(crc, t, payload);
    assert forall i :: 0 <= i < HEADER_SIZE ==> b[i] == piece[i];
    assert b[..4] == piece[..4];
    if |piece| <= |b| {
      assert b[HEADER_SIZE..|piece|] == piece[HEADER_SIZE..];
    }
  }

  /** `full` holds the frames of `data` from position `p` to `e`. */
  ghost predicate Pending(crc: Checksum, full: seq<Byte>, p: nat, data: seq<Byte>, begin: bool, e: nat) {
    p <= e <= |full| && full[p..e] == Frames(crc, p, data, begin)
  }

  /** The first physical record of what is pending. */
  lemma FirstIsNext(crc: Checksum, full: seq<Byte>, p: nat, data: seq<Byte>, begin: bool, e: nat)
    requires Pending(crc, full, p, data, begin, e)
    ensures var n := FragmentLength(HeaderAt(p), |data|);
      && NextIs(crc, full, p, FragmentType(begin, n == |data|), data[..n])
      && (if n == |data| then e == FrameEnd(p, data)
          else e > FrameEnd(p, data) && Pending(crc, full, FrameEnd(p, data), data[n..], false, e))
  {
    var n := FragmentLength(HeaderAt(p), |data|);
    var f, first := FrameEnd(p, data), FirstFrame(crc, p, data, begin);
    FramesUnfold(crc, p, data, begin);
    assert Remaining(p, data) == data[n..];
    if n < |data| {
      SplitSpan(full, p, e, first, Frames(crc, f, data[n..], false));
    }
    FirstSpan(crc, full, p, data, begin);
  }

  lemma SplitSpan(full: seq<Byte>, p: nat, e: nat, first: seq<Byte>, rest: seq<Byte>)
    requires p <= e <= |full| && full[p..e] == first + rest
    ensures p + |first| <= e && full[p..p + |first|] == first && full[p + |first|..e] == rest
  {
    assert full[p..e][..|first|] == first && full[p..e][|first|..] == rest;
    assert full[p..p + |first|] == full[p..e][..|first|] && full[p + |first|..e] == full[p..e][|first|..];
  }

  lemma FirstSpan(crc: Checksum, full: seq<Byte>, p: nat, data: seq<Byte>, begin: bool)
    requires FrameEnd(p, data) <= |full| && full[p..FrameEnd(p, data)] == FirstFrame(crc, p, data, begin)
    ensures var n := FragmentLength(HeaderAt(p), |data|);
      NextIs(crc, full, p, FragmentType(begin, n == |data|), data[..n])
  {
    var q, n, f := HeaderAt(p), FragmentLength(HeaderAt(p), |data|), FrameEnd(p, data);
    SplitSpan(full, p, f, Zeros(q - p), Physical(crc, FragmentType(begin, n == |data|), data[..n]));
  }

  /** What the frames of `data` add to the records, given what came before of the same one. */
  function Yield(partial: Option<seq<Byte>>, data: seq<Byte>, begin: bool): seq<seq<Byte>> {
    if begin then [data] else Finished(partial, data)
  }

  /** One fragment of `data` is read, or the file ends within it. */
  lemma FragmentIsRead(crc: Checksum, file: seq<Byte>, full: seq<Byte>, p: nat, data: seq<Byte>, begin: bool, e: nat)
    requires file <= full && p <= |file| && Pending(crc, full, p, data, begin, e)
    ensures var n, f, r := FragmentLength(HeaderAt(p), |data|), FrameEnd(p, data), ParserOf(crc, file)(p);
      && (n == |data| ==> f == e)
      && (n < |data| ==> f < e && Pending(crc, full, f, data[n..], false, e))
      && r == if f <= |file| then Fragment(FragmentType(begin, n == |data|), data[..n], f) else Eof
  {
    var n := FragmentLength(HeaderAt(p), |data|);
    FirstIsNext(crc, full, p, data, begin, e);
    ParseNext(crc, file, full, p, FragmentType(begin, n == |data|), data[..n]);
  }

  /** The frames of a record are read as it, or not at all if the file ends within them. */
  ghost predicate IsRead(parse: Parser, size: nat, p: nat, data: seq<Byte>, begin: bool, e: nat,
      partial: Option<seq<Byte>>) {
    RecordsFrom(parse, size, p, partial) ==
      if e <= size then Yield(partial, data, begin) + RecordsFrom(parse, size, e, None) else []
  }

  lemma IsReadStep(parse: Parser, size: nat, p: nat, data: seq<Byte>, n: nat, f: nat, begin: bool, e: nat,
      partial: Option<seq<Byte>>)
    requires n <= |data| && p < f <= e && p <= size && (n == |data| ==> f == e)
    requires parse(p) == if f <= size then Fragment(FragmentType(begin, n == |data|), data[..n], f) else Eof
    requires n < |data| && f <= size ==>
      IsRead(parse, size, f, data[n..], false, e, if begin then Some(data[..n]) else Extended(partial, data[..n]))
    ensures IsRead(parse, size, p, data, begin, e, partial)
  {
    if n == |data| {
      assert data[..n] == data;
    } else if f <= size {
      assert data[..n] + data[n..] == data;
      assert partial.Some? ==> partial.value + data[..n] + data[n..] == partial.value + data;
    }
  }

  lemma {:induction false} FramesAreRead(crc: Checksum, file: seq<Byte>, full: seq<Byte>, p: nat, data: seq<Byte>,
      begin: bool, e: nat, partial: Option<seq<Byte>>)
    requires file <= full && p <= |file| && Pending(crc, full, p, data, begin, e)
    ensures IsRead(ParserOf(crc, file), |file|, p, data, begin, e, partial)
    decreases |data|, Progress(p, data)
  {
    var n, f := FragmentLength(HeaderAt(p), |data|), FrameEnd(p, data);
    FragmentIsRead(crc, file, full, p, data, begin, e);
    if n < |data| && f <= |file| {
      StepProgress(p, data);
      var next := if begin then Some(data[..n]) else Extended(partial, data[..n]);
      FramesAreRead(crc, file, full, f, data[n..], false, e, next);
    }
    IsReadStep(ParserOf(crc, file), |file|, p, data, n, f, begin, e, partial);
  }

  /** Wherever `full` holds what is written for a record, reading `file` gives the record. */
  ghost predicate ReadsBack(parse: Parser, file: seq<Byte>, full: seq<Byte>, write: (nat, seq<Byte>) -> seq<Byte>) {
    && parse(|file|) == Eof
    && forall p: nat, r, partial :: RecordIsRead(parse, file, full, write, p, r, partial)
  }

  ghost predicate RecordIsRead(parse: Parser, file: seq<Byte>, full: seq<Byte>, write: (nat, seq<Byte>) -> seq<Byte>,
      p: nat, r: seq<Byte>, partial: Option<seq<Byte>>) {
    p <= |file| && SpanIs(full, p, write(p, r)) ==> IsRead(parse, |file|, p, r, true, p + |write(p, r)|, partial)
  }

  ghost predicate SpanIs(full: seq<Byte>, p: nat, b: seq<Byte>) {
    p + |b| <= |full| && full[p..p + |b|] == b
  }

  lemma OneIsRead(crc: Checksum, file: seq<Byte>, full: seq<Byte>, p: nat, r: seq<Byte>, partial: Option<seq<Byte>>)
    requires file <= full
    ensures RecordIsRead(ParserOf(crc, file), file, full, FrameWriter(crc), p, r, partial)
  {
    var b := Frames(crc, p, r, true);
    SpanIsReadIf(crc, file, full, p, r, b, partial);
    WrittenIsRead(ParserOf(crc, file), file, full, FrameWriter(crc), p, r, b, partial);
  }

  lemma SpanIsReadIf(crc: Checksum, file: seq<Byte>, full: seq<Byte>, p: nat, r: seq<Byte>, b: seq<Byte>,
      partial: Option<seq<Byte>>)
    requires file <= full && b == Frames(crc, p, r, true)
    ensures !(p <= |file| && SpanIs(full, p, b)) || IsRead(ParserOf(crc, file), |file|, p, r, true, p + |b|, partial)
  {
    if p <= |file| && SpanIs(full, p, b) { SpanIsRead(crc, file, full, p, r, b, p + |b|, partial); }
  }

  lemma WrittenIsRead(parse: Parser, file: seq<Byte>, full: seq<Byte>, write: (nat, seq<Byte>) -> seq<Byte>, p: nat,
      r: seq<Byte>, b: seq<Byte>, partial: Option<seq<Byte>>)
    requires b == write(p, r)
    requires p <= |file| && SpanIs(full, p, b) ==> IsRead(parse, |file|, p, r, true, p + |b|, partial)
    ensures RecordIsRead(parse, file, full, write, p, r, partial)
  {
  }

  lemma SpanIsRead(crc: Checksum, file: seq<Byte>, full: seq<Byte>, p: nat, r: seq<Byte>, b: seq<Byte>, e: nat,
      partial: Option<seq<Byte>>)
    requires file <= full && p <= |file| && b == Frames(crc, p, r, true) && SpanIs(full, p, b) && e == p + |b|
    ensures IsRead(ParserOf(crc, file), |file|, p, r, true, e, partial)
  {
    FramesAreRead(crc, file, full, p, r, true, e, partial);
  }

  lemma FramesReadBack(crc: Checksum, file: seq<Byte>, full: seq<Byte>)
    requires file <= full
    ensures ReadsBack(ParserOf(crc, file), file, full, FrameWriter(crc))
  {
    forall p: nat, r, partial
      ensures RecordIsRead(ParserOf(crc, file), file, full, FrameWriter(crc), p, r, partial)
    {
      OneIsRead(crc, file, full, p, r, partial);
    }
  }

  /** Of records that end one after the other, `n` end within `size`. */
  ghost predicate EndWithin(at: nat -> nat, size: nat, count: nat, n: nat) {
    n <= count && at(n) <= size && (n < count ==> size < at(n + 1))
  }

  ghost predicate StepIsRead(parse: Parser, size: nat, records: seq<seq<Byte>>, at: nat -> nat, i: nat) {
    i < |records| && at(i) <= size ==> IsRead(parse, size, at(i), records[i], true, at(i + 1), None)
  }

  lemma {:induction false} ChainIsRead(parse: Parser, size: nat, records: seq<seq<Byte>>, at: nat -> nat, k: nat)
    requires forall i :: StepIsRead(parse, size, records, at, i)
    requires parse(size) == Eof && at(|records|) >= size && k <= |records| && at(k) <= size
    ensures var out := RecordsFrom(parse, size, at(k), None);
      out <= records[k..] && EndWithin(at, size, |records|, k + |out|)
    decreases |records| - k
  {
    if k < |records| {
      assert StepIsRead(parse, size, records, at, k);
      if at(k + 1) <= size {
        ChainIsRead(parse, size, records, at, k + 1);
        assert records[k..] == [records[k]] + records[k + 1..];
      }
    }
  }

  /** Where what is written for the first `n` records ends. */
  function EndsOf(write: (nat, seq<Byte>) -> seq<Byte>, records: seq<seq<Byte>>): nat -> nat {
    (n: nat) => if n <= |records| then |WriteAll(write, 0, records[..n])| else 0
  }

  /** The first `n` records are complete in a file of that size, and no more. */
  ghost predicate IsComplete(write: (nat, seq<Byte>) -> seq<Byte>, size: nat, records: seq<seq<Byte>>, n: nat) {
    EndWithin(EndsOf(write, records), size, |records|, n)
  }

  lemma PrefixIsRead(parse: Parser, file: seq<Byte>, write: (nat, seq<Byte>) -> seq<Byte>, records: seq<seq<Byte>>)
    requires ReadsBack(parse, file, WriteAll(write, 0, records), write) && file <= WriteAll(write, 0, records)
    ensures var out := RecordsFrom(parse, |file|, 0, None);
      out <= records && IsComplete(write, |file|, records, |out|)
  {
    var at := EndsOf(write, records);
    forall i: nat
      ensures StepIsRead(parse, |file|, records, at, i)
    {
      if i < |records| && at(i) <= |file| { NextIsRead(parse, file, write, records, i); }
    }
    assert records[..|records|] == records && records[..0] == [] && records[0..] == records;
    ChainIsRead(parse, |file|, records, at, 0);
  }

  lemma NextIsRead(parse: Parser, file: seq<Byte>, write: (nat, seq<Byte>) -> seq<Byte>, records: seq<seq<Byte>>,
      k: nat)
    requires ReadsBack(parse, file, WriteAll(write, 0, records), write) && file <= WriteAll(write, 0, records)
    requires k < |records| && |WriteAll(write, 0, records[..k])| <= |file|
    ensures IsRead(parse, |file|, |WriteAll(write, 0, records[..k])|, records[k], true,
                   |WriteAll(write, 0, records[..k + 1])|, None)
  {
    var p := |WriteAll(write, 0, records[..k])|;
    RecordSpan(write, records, k);
    assert RecordIsRead(parse, file, WriteAll(write, 0, records), write, p, records[k], None);
  }

  lemma WrittenIsComplete(write: (nat, seq<Byte>) -> seq<Byte>, size: nat, records: seq<seq<Byte>>, n: nat, done: nat)
    requires IsComplete(write, size, records, n)
    requires done <= |records| && |WriteAll(write, 0, records[..done])| <= size
    ensures done <= n
  {
    if n < done {
      WriteAllPrefix(write, 0, records[..done], n + 1);
      PrefixOfPrefix(records, n + 1, done);
    }
  }

  lemma PrefixOfPrefix(rs: seq<seq<Byte>>, m: nat, n: nat)
    requires m <= n <= |rs|
    ensures rs[..n][..m] == rs[..m]
  {
  }

  /** From a log that may be cut anywhere, exactly the complete records come back. */
  lemma CutIsRead(crc: Checksum, file: seq<Byte>, records: seq<seq<Byte>>)
    requires file <= AllFrames(crc, records)
    ensures var out := Records(crc, file);
      out <= records && IsComplete(FrameWriter(crc), |file|, records, |out|)
  {
    FramesReadBack(crc, file, AllFrames(crc, records));
    PrefixIsRead(ParserOf(crc, file), file, FrameWriter(crc), records);
  }

  // ---------- A file that starts with anything ----------

  /** Reading from `p` meets, before `b`, a checksummed record of type 5. */
  predicate FalseEnd(parse: Parser, size: nat, p: nat, b: nat)
    decreases size - p
  {
    var r := parse(p);
    && HeaderAt(p) < b && !r.Eof? && p < r.next <= size
    && (Ends(r, p, size) || FalseEnd(parse, size, r.next, b))
  }

  /** Before a block boundary `b` within the file nothing is the end of it, and nothing crosses it. */
  lemma ParseBefore(crc: Checksum, file: seq<Byte>, p: nat, b: nat)
    requires b % 32768 == 0 && HeaderAt(p) < b <= |file|
    ensures var r := Parse(crc, file, p); !r.Eof? && p < r.next <= b
  {
    var q := HeaderAt(p);
    assert q - q % 32768 + 32768 <= b;
  }

  /** Whatever is in the blocks before, the reader gets to the next block. */
  lemma {:induction false} Resync(crc: Checksum, file: seq<Byte>, p: nat, b: nat, partial: Option<seq<Byte>>)
    returns (before: seq<seq<Byte>>, left: Option<seq<Byte>>)
    requires p <= b <= |file| && b % 32768 == 0 && !FalseEnd(ParserOf(crc, file), |file|, p, b)
    ensures RecordsFrom(ParserOf(crc, file), |file|, p, partial) ==
      before + RecordsFrom(ParserOf(crc, file), |file|, b, left)
    decreases b - p
  {
    if HeaderAt(p) < b {
      ParseBefore(crc, file, p, b);
      var r := Parse(crc, file, p);
      before, left := Resync(crc, file, r.next, b, Take(r, partial).1);
      before := Take(r, partial).0 + before;
    } else {
      assert HeaderAt(p) == b;
      ParseAtHeader(crc, file, p);
      before, left := [], partial;
    }
  }

  /** From `b` on the file holds the end of a record that began earlier, if any, and from `e` on whole ones. */
  ghost predicate Holds(crc: Checksum, file: seq<Byte>, b: nat, tail: Option<seq<Byte>>, e: nat, rs: seq<seq<Byte>>) {
    && b <= e <= |file| && file[e..] == WriteAll(FrameWriter(crc), e, rs)
    && (if tail.Some? then Pending(crc, file, b, tail.value, false, e) else e == b)
  }

  lemma {:induction false} WholeAreRead(parse: Parser, file: seq<Byte>, write: (nat, seq<Byte>) -> seq<Byte>, b: nat,
      rs: seq<seq<Byte>>, partial: Option<seq<Byte>>)
    requires ReadsBack(parse, file, file, write) && b <= |file| && file[b..] == WriteAll(write, b, rs)
    ensures RecordsFrom(parse, |file|, b, partial) == rs
    decreases |rs|
  {
    if rs != [] {
      var first := write(b, rs[0]);
      TailSpan(file, b, first, WriteAll(write, b + |first|, rs[1..]));
      assert RecordIsRead(parse, file, file, write, b, rs[0], partial);
      WholeAreRead(parse, file, write, b + |first|, rs[1..], None);
    } else {
      assert |file| == b;
    }
  }

  lemma TailSpan(file: seq<Byte>, b: nat, first: seq<Byte>, rest: seq<Byte>)
    requires b <= |file| && file[b..] == first + rest
    ensures SpanIs(file, b, first) && file[b + |first|..] == rest
  {
    var e := b + |first|;
    assert file[b..e] == file[b..][..|first|] && file[e..] == file[b..][|first|..];
  }

  lemma WholeBehind(crc: Checksum, file: seq<Byte>, e: nat, rs: seq<seq<Byte>>, partial: Option<seq<Byte>>)
    requires e <= |file| && file[e..] == WriteAll(FrameWriter(crc), e, rs)
    ensures RecordsFrom(ParserOf(crc, file), |file|, e, partial) == rs
  {
    FramesReadBack(crc, file, file);
    WholeAreRead(ParserOf(crc, file), file, FrameWriter(crc), e, rs, partial);
  }

  lemma Join(parse: Parser, size: nat, b: nat, tail: seq<Byte>, e: nat, left: Option<seq<Byte>>, rs: seq<seq<Byte>>)
    requires e <= size && IsRead(parse, size, b, tail, false, e, left) && RecordsFrom(parse, size, e, None) == rs
    ensures RecordsFrom(parse, size, b, left) == Finished(left, tail) + rs
  {
  }

  lemma JoinBehind(parse: Parser, size: nat, b: nat, before: seq<seq<Byte>>, left: Option<seq<Byte>>,
      first: seq<seq<Byte>>, rs: seq<seq<Byte>>)
    requires RecordsFrom(parse, size, 0, None) == before + RecordsFrom(parse, size, b, left)
    requires RecordsFrom(parse, size, b, left) == first + rs
    ensures RecordsFrom(parse, size, 0, None) == before + first + rs
  {
  }

  /** What the end of the record that began earlier completes. */
  function Completed(left: Option<seq<Byte>>, tail: Option<seq<Byte>>): (first: seq<seq<Byte>>)
    ensures |first| <= 1
  {
    if tail.Some? then Finished(left, tail.value) else []
  }

  lemma TailIsRead(crc: Checksum, file: seq<Byte>, b: nat, tail: Option<seq<Byte>>, e: nat, rs: seq<seq<Byte>>,
      left: Option<seq<Byte>>)
    requires Holds(crc, file, b, tail, e, rs)
    ensures RecordsFrom(ParserOf(crc, file), |file|, b, left) == Completed(left, tail) + rs
  {
    match tail
    case Some(t) =>
      WholeBehind(crc, file, e, rs, None);
      FramesAreRead(crc, file, file, b, t, false, e, left);
      Join(ParserOf(crc, file), |file|, b, t, e, left, rs);
    case None =>
      WholeBehind(crc, file, e, rs, left);
  }

  /** Whatever a file starts with, torn records or garbage, all that was written behind the next block boundary is
      read, unless a false end comes before. */
  lemma WrittenBehindIsRead(crc: Checksum, file: seq<Byte>, b: nat, tail: Option<seq<Byte>>, e: nat,
      rs: seq<seq<Byte>>) returns (before: seq<seq<Byte>>)
    requires b % 32768 == 0 && Holds(crc, file, b, tail, e, rs) && !FalseEnd(ParserOf(crc, file), |file|, 0, b)
    ensures Records(crc, file) == before + rs
  {
    var left;
    before, left := Resync(crc, file, 0, b, None);
    TailIsRead(crc, file, b, tail, e, rs, left);
    JoinBehind(ParserOf(crc, file), |file|, b, before, left, Completed(left, tail), rs);
    before := before + Completed(left, tail);
  }

  /** The other half: behind a false end nothing is read. */
  lemma {:induction false} FalseEndHides(crc: Checksum, file: seq<Byte>, other: seq<Byte>, p: nat, b: nat,
      partial: Option<seq<Byte>>)
    requires p <= b && b % 32768 == 0 && b <= |file| && b <= |other| && file[..b] == other[..b]
    requires FalseEnd(ParserOf(crc, file), |file|, p, b)
    ensures RecordsFrom(ParserOf(crc, file), |file|, p, partial) ==
      RecordsFrom(ParserOf(crc, other), |other|, p, partial)
    decreases b - p
  {
    ParseBefore(crc, file, p, b);
    SameBlock(crc, file, other, p, b);
    var r := Parse(crc, file, p);
    if !Ends(r, p, |file|) {
      FalseEndHides(crc, file, other, r.next, b, Take(r, partial).1);
    }
  }

  /** What is read before a block boundary does not depend on what is behind it. */
  lemma SameBlock(crc: Checksum, file: seq<Byte>, other: seq<Byte>, p: nat, b: nat)
    requires b % 32768 == 0 && HeaderAt(p) < b && b <= |file| && b <= |other| && file[..b] == other[..b]
    ensures Parse(crc, other, p) == Parse(crc, file, p)
  {
    var q := HeaderAt(p);
    SameBlockEnd(q, b, |file|, |other|);
    SameSlice(file, other, b, q, BlockEnd(q, |file|));
  }

  lemma SameBlockEnd(q: nat, b: nat, n: nat, m: nat)
    requires b % 32768 == 0 && q < b <= n && b <= m
    ensures BlockEnd(q, n) == BlockEnd(q, m) <= b && BlockEnd(q, n) % 32768 == 0
  {
  }

  lemma SameSlice(file: seq<Byte>, other: seq<Byte>, b: nat, i: nat, j: nat)
    requires i <= j <= b && b <= |file| && b <= |other| && file[..b] == other[..b]
    ensures file[i..j] == other[i..j]
  {
    assert file[i..j] == file[..b][i..j] && other[i..j] == other[..b][i..j];
  }

  // ---------- Whole logs ----------

  lemma NextFrames(crc: Checksum, records: seq<seq<Byte>>, k: nat, offset: nat)
    requires k < |records| && offset % 32768 == |AllFrames(crc, records[..k])| % 32768
    ensures AllFrames(crc, records[..k + 1]) == AllFrames(crc, records[..k]) + Frames(crc, offset, records[k], true)
    ensures AllFrames(crc, records[..k + 1]) <= AllFrames(crc, records)
  {
    assert records[..k + 1] == records[..k] + [records[k]];
    AllFramesAppend(crc, records[..k], records[k]);
    WriteAllPrefix(FrameWriter(crc), 0, records, k + 1);
    FramesModBlock(crc, offset, |AllFrames(crc, records[..k])|, records[k], true);
  }

  /** Writes records until one fails, closing and reopening the writer wherever `reopen` says; of `done` the
      writer was told that they are written. */
  method WriteLog(crc: Checksum, records: seq<seq<Byte>>, reopen: nat -> bool)
    returns (file: seq<Byte>, done: nat)
    ensures done <= |records| && AllFrames(crc, records[..done]) <= file <= AllFrames(crc, records)
    ensures done == |records| ==> file == AllFrames(crc, records)
  {
    var dest := new WritableFile([]);
    var w := new LogWriter.Writer(crc, dest);
    done := 0;
    while done < |records|
      invariant done <= |records| && w.Aligned() && w.crc == crc && w.dest == dest && fresh(w) && fresh(dest)
      invariant dest.disk == AllFrames(crc, records[..done])
    {
      if reopen(done) {
        dest := new WritableFile(dest.disk);
        w := new LogWriter.Writer(crc, dest);
      }
      NextFrames(crc, records, done, w.blockOffset);
      var ok := w.AddRecord(records[done]);
      if !ok {
        return dest.disk, done;
      }
      done := done + 1;
    }
    assert records[..done] == records;
    file := dest.disk;
  }

  /** The records read up to position `p`. */
  ghost predicate SoFar(crc: Checksum, file: seq<Byte>, out: seq<seq<Byte>>, p: nat) {
    Records(crc, file) == out + RecordsFrom(ParserOf(crc, file), |file|, p, None)
  }

  lemma OneMore(crc: Checksum, file: seq<Byte>, out: seq<seq<Byte>>, p: nat, r: Option<seq<Byte>>, next: nat)
    requires SoFar(crc, file, out, p) && NextRecord(ParserOf(crc, file), |file|, p, r, next)
    ensures r.None? ==> out == Records(crc, file)
    ensures r.Some? ==> SoFar(crc, file, out + [r.value], next)
  {
    if r.Some? {
      Regroup(out, [r.value], RecordsFrom(ParserOf(crc, file), |file|, next, None));
    }
  }

  /** Reads a file to its end, whatever it holds. */
  method ReadLog(crc: Checksum, contents: seq<Byte>) returns (out: seq<seq<Byte>>)
    ensures out == Records(crc, contents)
  {
    var reader := new Reader(crc, contents);
    out := [];
    while true
      invariant reader.Valid() && reader.crc == crc && reader.contents == contents && fresh(reader)
      invariant reader.Position() >= 0 && SoFar(crc, contents, out, reader.Position())
      decreases |contents| - reader.Position()
    {
      ghost var p := reader.Position();
      var r := reader.ReadRecord();
      OneMore(crc, contents, out, p, r, reader.Position());
      if r.None? {
        break;
      }
      out := out + [r.value];
    }
  }

  /** Round trip: every record that was reported written is read back, in order and before any other, wherever a
      write fails. */
  method WriteThenRead(crc: Checksum, records: seq<seq<Byte>>, reopen: nat -> bool)
    returns (done: nat, out: seq<seq<Byte>>)
    ensures done <= |out| <= |records| && out == records[..|out|]
    ensures done == |records| ==> out == records
  {
    var file;
    file, done := WriteLog(crc, records, reopen);
    CutIsRead(crc, file, records);
    out := ReadLog(crc, file);
    WrittenIsComplete(FrameWriter(crc), |file|, records, |out|, done);
  }
}
