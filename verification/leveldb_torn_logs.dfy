/** A log with a torn record inside: which of the records behind it are read. */
module TornLogs {
  import opened Bytes
  import opened LogFormat
  import opened LogReader
  import opened Wrappers
  import Durability

  // ---------- Whole records in front ----------

  /** The records `rs` are read first, and then what is read from `p` on. */
  ghost predicate ReadUpTo(parse: Parser, size: nat, rs: seq<seq<Byte>>, p: nat) {
    RecordsFrom(parse, size, 0, None) == rs + RecordsFrom(parse, size, p, None)
  }

  lemma ReadOneMore(parse: Parser, size: nat, rs: seq<seq<Byte>>, p: nat, r: seq<Byte>, e: nat)
    requires ReadUpTo(parse, size, rs, p) && IsRead(parse, size, p, r, true, e, None) && e <= size
    ensures ReadUpTo(parse, size, rs + [r], e)
  {
    assert rs + ([r] + RecordsFrom(parse, size, e, None)) == rs + [r] + RecordsFrom(parse, size, e, None);
  }

  lemma {:induction false} WholeInFront(crc: Checksum, file: seq<Byte>, rs: seq<seq<Byte>>)
    requires AllFrames(crc, rs) <= file
    ensures ReadUpTo(ParserOf(crc, file), |file|, rs, |AllFrames(crc, rs)|)
  {
    if rs == [] {
      NothingInFront(ParserOf(crc, file), |file|);
    } else {
      var before, r := rs[..|rs| - 1], rs[|rs| - 1];
      assert rs == before + [r];
      AllFramesAppend(crc, before, r);
      WholeInFront(crc, file, before);
      OneInFront(crc, file, before, r, |AllFrames(crc, before)|, |AllFrames(crc, rs)|);
    }
  }

  lemma NothingInFront(parse: Parser, size: nat)
    ensures ReadUpTo(parse, size, [], 0)
  {
  }

  lemma OneInFront(crc: Checksum, file: seq<Byte>, before: seq<seq<Byte>>, r: seq<Byte>, p: nat, e: nat)
    requires p == |AllFrames(crc, before)| && e == p + |Frames(crc, p, r, true)|
    requires AllFrames(crc, before) + Frames(crc, p, r, true) <= file
    requires ReadUpTo(ParserOf(crc, file), |file|, before, p)
    ensures ReadUpTo(ParserOf(crc, file), |file|, before + [r], e)
  {
    SpanAfter(AllFrames(crc, before), Frames(crc, p, r, true), file);
    FramesAreRead(crc, file, file, p, r, true, e, None);
    ReadOneMore(ParserOf(crc, file), |file|, before, p, r, e);
  }

  lemma SpanAfter(a: seq<Byte>, b: seq<Byte>, file: seq<Byte>)
    requires a + b <= file
    ensures file[|a|..|a| + |b|] == b
  {
    assert file[..|a + b|] == a + b;
  }

  // ---------- A torn record ----------

  /** From `p` on the file holds the first `n` bytes of the frames of `data`, and something else behind. */
  ghost predicate Torn(crc: Checksum, file: seq<Byte>, p: nat, data: seq<Byte>, begin: bool, n: nat) {
    var frames := Frames(crc, p, data, begin);
    n < |frames| && p + n <= |file| && file[p..p + n] == frames[..n]
  }

  /** The fragment that is torn has its header, and the checksum there is not that of the bytes in its place. */
  ghost predicate Detected(crc: Checksum, file: seq<Byte>, p: nat, data: seq<Byte>, begin: bool, n: nat)
    decreases |data|, Progress(p, data)
  {
    var q, f, m := HeaderAt(p), FrameEnd(p, data), FragmentLength(HeaderAt(p), |data|);
    var t := FragmentType(begin, m == |data|);
    if p + n < f then
      q + HEADER_SIZE <= p + n && (f <= |file| ==> crc(t, file[q + HEADER_SIZE..f]) != crc(t, data[..m]))
    else
      && Remaining(p, data) != []
      && (StepProgress(p, data); Detected(crc, file, f, Remaining(p, data), false, p + n - f))
  }

  /** The first fragment has its header, but not all of its payload. */
  lemma TornFragment(crc: Checksum, file: seq<Byte>, p: nat, data: seq<Byte>, begin: bool, n: nat)
    requires Torn(crc, file, p, data, begin, n) && Detected(crc, file, p, data, begin, n) && p + n < FrameEnd(p, data)
    ensures var end := BlockEnd(p + n, |file|);
      (end == |file| && Parse(crc, file, p) == Eof) || Parse(crc, file, p) == Bad(end)
  {
    var q, m := HeaderAt(p), FragmentLength(HeaderAt(p), |data|);
    var t := FragmentType(begin, m == |data|);
    var end := BlockEnd(q, |file|);
    SameBlockEnd(q, p + n, |file|);
    HeaderIntact(crc, file, p, data, begin, n);
    if q + HEADER_SIZE + m <= end { SliceOfSlice(file, q, end, HEADER_SIZE, HEADER_SIZE + m); }
    BadBlock(crc, file[q..end], end, t, data[..m]);
  }

  lemma BadBlock(crc: Checksum, b: seq<Byte>, end: nat, t: Byte, payload: seq<Byte>)
    requires HEADER_SIZE <= |b| <= end && t != ZERO_TYPE
    requires LengthField(b) == |payload| && b[6] == t && DecodeFixed(b[..4]) == crc(t, payload)
    requires HEADER_SIZE + |payload| <= |b| ==> crc(t, b[HEADER_SIZE..HEADER_SIZE + |payload|]) != crc(t, payload)
    ensures ParseBlock(crc, b, end) == Bad(end) || (end % 32768 != 0 && ParseBlock(crc, b, end) == Eof)
  {
  }

  lemma SameBlockEnd(q: nat, x: nat, size: nat)
    requires q <= x <= size && q % 32768 + (x - q) < 32768
    ensures BlockEnd(q, size) == BlockEnd(x, size)
  {
  }

  lemma SliceOfSlice(s: seq<Byte>, i: nat, j: nat, a: nat, b: nat)
    requires i <= j <= |s| && a <= b <= j - i
    ensures s[i..j][a..b] == s[i + a..i + b]
  {
    var x, y := s[i..j][a..b], s[i + a..i + b];
    assert |x| == |y| && forall k :: 0 <= k < |x| ==> x[k] == y[k];
  }

  lemma HeaderIntact(crc: Checksum, file: seq<Byte>, p: nat, data: seq<Byte>, begin: bool, n: nat)
    requires Torn(crc, file, p, data, begin, n) && HeaderAt(p) + HEADER_SIZE <= p + n
    ensures var q, m := HeaderAt(p), FragmentLength(HeaderAt(p), |data|);
      var t := FragmentType(begin, m == |data|);
      && q + HEADER_SIZE <= BlockEnd(q, |file|)
      && var b := file[q..BlockEnd(q, |file|)];
        LengthField(b) == m && b[6] == t && DecodeFixed(b[..4]) == crc(t, data[..m])
  {
    var q, m := HeaderAt(p), FragmentLength(HeaderAt(p), |data|);
    var t := FragmentType(begin, m == |data|);
    BlockHoldsHeader(q, |file|);
    FrameHeader(crc, file, p, data, begin, n);
    SliceOfSlice(file, q, BlockEnd(q, |file|), 0, HEADER_SIZE);
    SameHeader(crc, file[q..BlockEnd(q, |file|)], t, data[..m]);
  }

  lemma FrameHeader(crc: Checksum, file: seq<Byte>, p: nat, data: seq<Byte>, begin: bool, n: nat)
    requires Torn(crc, file, p, data, begin, n) && HeaderAt(p) + HEADER_SIZE <= p + n
    ensures var q, m := HeaderAt(p), FragmentLength(HeaderAt(p), |data|);
      file[q..q + HEADER_SIZE] == Physical(crc, FragmentType(begin, m == |data|), data[..m])[..HEADER_SIZE]
  {
    var q, m := HeaderAt(p), FragmentLength(HeaderAt(p), |data|);
    var t := FragmentType(begin, m == |data|);
    FramesUnfold(crc, p, data, begin);
    SliceOfSlice(file, p, p + n, q - p, q - p + HEADER_SIZE);
    HeaderInFrames(Frames(crc, p, data, begin), n, Zeros(q - p), Physical(crc, t, data[..m]));
  }

  lemma HeaderInFrames(frames: seq<Byte>, n: nat, z: seq<Byte>, piece: seq<Byte>)
    requires z + piece <= frames && HEADER_SIZE <= |piece| && |z| + HEADER_SIZE <= n <= |frames|
    ensures frames[..n][|z|..|z| + HEADER_SIZE] == piece[..HEADER_SIZE]
  {
    assert frames[..|z| + |piece|] == z + piece;
    var x := frames[..n][|z|..|z| + HEADER_SIZE];
    assert forall i :: 0 <= i < |x| ==> x[i] == piece[i];
  }

  lemma SameHeader(crc: Checksum, b: seq<Byte>, t: Byte, payload: seq<Byte>)
    requires |payload| < 65536 && HEADER_SIZE <= |b| && b[0..HEADER_SIZE] == Physical(crc, t, payload)[..HEADER_SIZE]
    ensures LengthField(b) == |payload| && b[6] == t && DecodeFixed(b[..4]) == crc(t, payload)
  {
    var piece := Physical(crc, t, payload);
    HeaderBytes(crc, t, payload);
    assert forall i :: 0 <= i < HEADER_SIZE ==> b[i] == b[0..HEADER_SIZE][i] == piece[i];
    assert b[..4] == piece[..4];
  }

  lemma DropOne(parse: Parser, size: nat, p: nat, partial: Option<seq<Byte>>, end: nat)
    requires parse(size) == Eof && p < end <= size && ((end == size && parse(p) == Eof) || parse(p) == Bad(end))
    ensures Drops(parse, size, p, partial, end)
  {
  }

  lemma DropsMore(parse: Parser, size: nat, p: nat, partial: Option<seq<Byte>>, begin: bool, payload: seq<Byte>,
      f: nat, end: nat)
    requires p < f <= size && parse(p) == Fragment(FragmentType(begin, false), payload, f)
    requires Drops(parse, size, f, if begin then Some(payload) else Extended(partial, payload), end)
    ensures Drops(parse, size, p, partial, end)
  {
  }

  /** Nothing of it is read, and nothing behind it in the block. */
  ghost predicate Drops(parse: Parser, size: nat, p: nat, partial: Option<seq<Byte>>, end: nat) {
    RecordsFrom(parse, size, p, partial) == RecordsFrom(parse, size, end, None)
  }

  lemma TornHere(crc: Checksum, file: seq<Byte>, p: nat, data: seq<Byte>, begin: bool, n: nat,
      partial: Option<seq<Byte>>, end: nat)
    requires Torn(crc, file, p, data, begin, n) && Detected(crc, file, p, data, begin, n) && p + n < FrameEnd(p, data)
    requires end == BlockEnd(p + n, |file|)
    ensures Drops(ParserOf(crc, file), |file|, p, partial, end)
  {
    TornFragment(crc, file, p, data, begin, n);
    DropOne(ParserOf(crc, file), |file|, p, partial, end);
  }

  lemma {:induction false} TornIsDropped(crc: Checksum, file: seq<Byte>, p: nat, data: seq<Byte>, begin: bool, n: nat,
      partial: Option<seq<Byte>>, end: nat)
    requires Torn(crc, file, p, data, begin, n) && Detected(crc, file, p, data, begin, n)
    requires end == BlockEnd(p + n, |file|)
    ensures Drops(ParserOf(crc, file), |file|, p, partial, end)
    decreases |data|, Progress(p, data)
  {
    var f, m := FrameEnd(p, data), FragmentLength(HeaderAt(p), |data|);
    if p + n < f {
      TornHere(crc, file, p, data, begin, n, partial, end);
    } else {
      StepProgress(p, data);
      WholeFragment(crc, file, p, data, begin, n, f);
      var next := if begin then Some(data[..m]) else Extended(partial, data[..m]);
      TornIsDropped(crc, file, f, Remaining(p, data), false, p + n - f, next, end);
      DropsMore(ParserOf(crc, file), |file|, p, partial, begin, data[..m], f, end);
    }
  }

  lemma SplitPrefix(s: seq<Byte>, p: nat, n: nat, first: seq<Byte>, second: seq<Byte>)
    requires p + n <= |s| && |first| <= n <= |first| + |second| && s[p..p + n] == (first + second)[..n]
    ensures s[p..p + |first|] == first && s[p + |first|..p + n] == second[..n - |first|]
  {
    SliceOfSlice(s, p, p + n, 0, |first|);
    SliceOfSlice(s, p, p + n, |first|, n);
    assert (first + second)[..n][0..|first|] == first;
    assert (first + second)[..n][|first|..n] == second[..n - |first|];
  }

  /** A fragment that is whole in the file. */
  lemma FragmentIsNext(crc: Checksum, file: seq<Byte>, p: nat, f: nat, data: seq<Byte>, begin: bool)
    requires f == FrameEnd(p, data) <= |file| && file[p..f] == FirstFrame(crc, p, data, begin)
    ensures var m := FragmentLength(HeaderAt(p), |data|);
      Parse(crc, file, p) == Fragment(FragmentType(begin, m == |data|), data[..m], f)
  {
    var m := FragmentLength(HeaderAt(p), |data|);
    FirstSpan(crc, file, p, data, begin);
    ParseNext(crc, file, file, p, FragmentType(begin, m == |data|), data[..m]);
  }

  lemma WholeFragment(crc: Checksum, file: seq<Byte>, p: nat, data: seq<Byte>, begin: bool, n: nat, f: nat)
    requires Torn(crc, file, p, data, begin, n) && Remaining(p, data) != [] && f == FrameEnd(p, data) <= p + n
    ensures var m := FragmentLength(HeaderAt(p), |data|);
      && Parse(crc, file, p) == Fragment(FragmentType(begin, false), data[..m], f)
      && Torn(crc, file, f, Remaining(p, data), false, p + n - f)
  {
    FramesUnfold(crc, p, data, begin);
    SplitPrefix(file, p, n, FirstFrame(crc, p, data, begin), Frames(crc, f, Remaining(p, data), false));
    FragmentIsNext(crc, file, p, f, data, begin);
  }

  /** Behind whole records and a torn one, the next to be read is what begins in the next block. */
  lemma LostBehindTorn(crc: Checksum, file: seq<Byte>, rs: seq<seq<Byte>>, a: seq<Byte>, p: nat, n: nat, end: nat)
    requires AllFrames(crc, rs) <= file && p == |AllFrames(crc, rs)|
    requires Torn(crc, file, p, a, true, n) && Detected(crc, file, p, a, true, n) && end == BlockEnd(p + n, |file|)
    ensures ReadUpTo(ParserOf(crc, file), |file|, rs, end)
  {
    WholeInFront(crc, file, rs);
    TornIsDropped(crc, file, p, a, true, n, None, end);
    SameUpTo(ParserOf(crc, file), |file|, rs, p, end);
  }

  lemma SameUpTo(parse: Parser, size: nat, rs: seq<seq<Byte>>, p: nat, q: nat)
    requires ReadUpTo(parse, size, rs, p) && Drops(parse, size, p, None, q)
    ensures ReadUpTo(parse, size, rs, q)
  {
  }

  // ---------- A log reused behind a torn record ----------

  /** The end of the block in which `x` lies. */
  function Boundary(x: nat): (b: nat)
    ensures x < b && b % 32768 == 0
  {
    x - x % 32768 + 32768
  }

  /** Frames that go on behind the end of their first block fill it with their first fragment. */
  lemma Straddles(crc: Checksum, p: nat, data: seq<Byte>, begin: bool)
    requires HeaderAt(p) == p && p + |Frames(crc, p, data, begin)| > Boundary(p)
    ensures FrameEnd(p, data) == Boundary(p)
    ensures Frames(crc, p, data, begin)[Boundary(p) - p..] == Frames(crc, Boundary(p), Remaining(p, data), false)
  {
    FramesUnfold(crc, p, data, begin);
  }

  /** From within a trailer the frames are those from the next block on. */
  lemma SkipTrailer(crc: Checksum, p: nat, data: seq<Byte>, begin: bool)
    requires HeaderAt(p) != p
    ensures HeaderAt(p) == Boundary(p)
    ensures Frames(crc, p, data, begin) == Zeros(Boundary(p) - p) + Frames(crc, Boundary(p), data, begin)
  {
    var b := Boundary(p);
    FramesUnfold(crc, p, data, begin);
    FramesUnfold(crc, b, data, begin);
    TrailerFirst(crc, p, data, begin);
    if Remaining(p, data) != [] {
      Regroup(Zeros(b - p), FirstFrame(crc, b, data, begin), Frames(crc, FrameEnd(p, data), Remaining(p, data), false));
    }
  }

  lemma TrailerFirst(crc: Checksum, p: nat, data: seq<Byte>, begin: bool)
    requires HeaderAt(p) != p
    ensures var b := Boundary(p);
      && HeaderAt(b) == b == HeaderAt(p) && FrameEnd(b, data) == FrameEnd(p, data)
      && FirstFrame(crc, p, data, begin) == Zeros(b - p) + FirstFrame(crc, b, data, begin)
  {
    assert Zeros(0) == [];
  }

  /** Where record `i` of those written from `o` on starts. */
  function StartOf(crc: Checksum, o: nat, rs: seq<seq<Byte>>, i: nat): nat
    requires i <= |rs|
  {
    o + |WriteAll(FrameWriter(crc), o, rs[..i])|
  }

  /** Record `i` has its first header in front of `b`. */
  predicate BeginsBefore(crc: Checksum, o: nat, rs: seq<seq<Byte>>, i: nat, b: nat)
    requires i <= |rs|
  {
    HeaderAt(StartOf(crc, o, rs, i)) < b
  }

  lemma StartAfterFirst(crc: Checksum, o: nat, rs: seq<seq<Byte>>, i: nat)
    requires 0 < i <= |rs|
    ensures StartOf(crc, o, rs, i) == StartOf(crc, o + |Frames(crc, o, rs[0], true)|, rs[1..], i - 1)
  {
    assert rs[..i][0] == rs[0] && rs[..i][1..] == rs[1..][..i - 1];
  }

  lemma StartsBehind(crc: Checksum, o: nat, rs: seq<seq<Byte>>, i: nat)
    requires i <= |rs|
    ensures HeaderAt(StartOf(crc, o, rs, i)) >= HeaderAt(o)
  {
    if i > 0 {
      StartAfterFirst(crc, o, rs, i);
      FramesUnfold(crc, o, rs[0], true);
    } else {
      assert rs[..0] == [];
    }
  }

  /** Records `rs` fill the file from `o` on; those whose first header is not in front of the boundary are read from
      there. */
  lemma {:induction false} ReadFromBoundary(crc: Checksum, file: seq<Byte>, o: nat, rs: seq<seq<Byte>>, b: nat)
    returns (k: nat)
    requires o <= b <= |file| && (o == b || Boundary(o) == b) && b % 32768 == 0
    requires file[o..] == WriteAll(FrameWriter(crc), o, rs)
    ensures k <= |rs| && RecordsFrom(ParserOf(crc, file), |file|, b, None) == rs[k..]
    ensures forall i :: 0 <= i < |rs| ==> (BeginsBefore(crc, o, rs, i, b) <==> i < k)
    decreases |rs|
  {
    if HeaderAt(o) == b {
      k := 0;
      AllFromBoundary(crc, file, o, rs, b);
    } else {
      var first := Frames(crc, o, rs[0], true);
      var e := o + |first|;
      TailSpan(file, o, first, WriteAll(FrameWriter(crc), e, rs[1..]));
      if e <= b {
        SameBoundary(o, e, b);
        var more := ReadFromBoundary(crc, file, e, rs[1..], b);
        k := 1 + more;
        assert rs[1..][more..] == rs[k..];
      } else {
        k := 1;
        ReadBehindStraddling(crc, file, o, rs, b);
        NoneBeginsBefore(crc, e, rs[1..], b);
      }
      BeginBehindFirst(crc, o, e, rs, b, k);
    }
  }

  lemma SameBoundary(o: nat, e: nat, b: nat)
    requires (o == b || Boundary(o) == b) && o <= e <= b
    ensures e == b || Boundary(e) == b
  {
  }

  lemma NoneBeginsBefore(crc: Checksum, o: nat, rs: seq<seq<Byte>>, b: nat)
    requires b <= o
    ensures forall i :: 0 <= i < |rs| ==> !BeginsBefore(crc, o, rs, i, b)
  {
  }

  lemma AllFromBoundary(crc: Checksum, file: seq<Byte>, o: nat, rs: seq<seq<Byte>>, b: nat)
    requires o <= b <= |file| && (o == b || Boundary(o) == b) && HeaderAt(o) == b
    requires file[o..] == WriteAll(FrameWriter(crc), o, rs)
    ensures RecordsFrom(ParserOf(crc, file), |file|, b, None) == rs[0..]
    ensures forall i :: 0 <= i < |rs| ==> !BeginsBefore(crc, o, rs, i, b)
  {
    if o < b { WithoutTrailer(crc, file, o, rs, b); }
    WholeBehind(crc, file, b, rs, None);
    assert rs[0..] == rs;
    forall i | 0 <= i < |rs|
      ensures !BeginsBefore(crc, o, rs, i, b)
    {
      StartsBehind(crc, o, rs, i);
    }
  }

  lemma WithoutTrailer(crc: Checksum, file: seq<Byte>, o: nat, rs: seq<seq<Byte>>, b: nat)
    requires o < b <= |file| && Boundary(o) == b == HeaderAt(o) && file[o..] == WriteAll(FrameWriter(crc), o, rs)
    ensures file[b..] == WriteAll(FrameWriter(crc), b, rs)
  {
    var z, first := Zeros(b - o), Frames(crc, b, rs[0], true);
    SkipTrailer(crc, o, rs[0], true);
    Regroup(z, first, WriteAll(FrameWriter(crc), b + |first|, rs[1..]));
    DropTrailer(file, o, z, WriteAll(FrameWriter(crc), b, rs));
  }

  lemma DropTrailer(file: seq<Byte>, o: nat, z: seq<Byte>, rest: seq<Byte>)
    requires o <= |file| && file[o..] == z + rest
    ensures file[o + |z|..] == rest
  {
    assert file[o..][|z|..] == rest;
  }

  /** The record that begins in front of the boundary and ends behind it is not read. */
  lemma ReadBehindStraddling(crc: Checksum, file: seq<Byte>, o: nat, rs: seq<seq<Byte>>, b: nat)
    requires rs != [] && o < b <= |file| && Boundary(o) == b && HeaderAt(o) == o
    requires file[o..] == WriteAll(FrameWriter(crc), o, rs) && b < o + |Frames(crc, o, rs[0], true)|
    ensures RecordsFrom(ParserOf(crc, file), |file|, b, None) == rs[1..]
  {
    var first := Frames(crc, o, rs[0], true);
    var e := o + |first|;
    TailSpan(file, o, first, WriteAll(FrameWriter(crc), e, rs[1..]));
    Straddles(crc, o, rs[0], true);
    SliceOfSlice(file, o, e, b - o, e - o);
    assert Pending(crc, file, b, Remaining(o, rs[0]), false, e);
    TailIsRead(crc, file, b, Some(Remaining(o, rs[0])), e, rs[1..], None);
  }

  lemma BeginBehindFirst(crc: Checksum, o: nat, e: nat, rs: seq<seq<Byte>>, b: nat, k: nat)
    requires rs != [] && 0 < k <= |rs| && HeaderAt(o) < b && e == o + |Frames(crc, o, rs[0], true)|
    requires forall i :: 0 <= i < |rs| - 1 ==> (BeginsBefore(crc, e, rs[1..], i, b) <==> i < k - 1)
    ensures forall i :: 0 <= i < |rs| ==> (BeginsBefore(crc, o, rs, i, b) <==> i < k)
  {
    forall i | 0 <= i < |rs|
      ensures BeginsBefore(crc, o, rs, i, b) <==> i < k
    {
      if i > 0 {
        StartAfterFirst(crc, o, rs, i);
        assert BeginsBefore(crc, e, rs[1..], i - 1, b) <==> i - 1 < k - 1;
      } else {
        assert rs[..0] == [];
      }
    }
  }

  /** A log that ends within the frames of `a`, and that a reopened writer goes on with. */
  function ReusedLog(crc: Checksum, rs: seq<seq<Byte>>, a: seq<Byte>, n: nat, later: seq<seq<Byte>>): seq<Byte>
    requires n <= |Frames(crc, |AllFrames(crc, rs)|, a, true)|
  {
    var p := |AllFrames(crc, rs)|;
    AllFrames(crc, rs) + Frames(crc, p, a, true)[..n] + WriteAll(FrameWriter(crc), p + n, later)
  }

  lemma ReusedLogParts(crc: Checksum, file: seq<Byte>, rs: seq<seq<Byte>>, a: seq<Byte>, p: nat, n: nat, o: nat,
      later: seq<seq<Byte>>)
    requires p == |AllFrames(crc, rs)| && n < |Frames(crc, p, a, true)| && o == p + n
    requires file == ReusedLog(crc, rs, a, n, later)
    ensures AllFrames(crc, rs) <= file && Torn(crc, file, p, a, true, n)
    ensures o <= |file| && file[o..] == WriteAll(FrameWriter(crc), o, later)
  {
    ThreeSpans(file, AllFrames(crc, rs), Frames(crc, p, a, true)[..n], WriteAll(FrameWriter(crc), o, later));
  }

  lemma ThreeSpans(file: seq<Byte>, a: seq<Byte>, b: seq<Byte>, c: seq<Byte>)
    requires file == a + b + c
    ensures a <= file && file[|a|..|a| + |b|] == b && file[|a| + |b|..] == c
  {
  }

  /** What is read from the end of the block on. */
  lemma ReadBehindTorn(crc: Checksum, file: seq<Byte>, o: nat, later: seq<seq<Byte>>, end: nat) returns (k: nat)
    requires o <= |file| && file[o..] == WriteAll(FrameWriter(crc), o, later) && end == BlockEnd(o, |file|)
    ensures k <= |later| && RecordsFrom(ParserOf(crc, file), |file|, end, None) == later[k..]
    ensures forall i :: 0 <= i < |later| ==> (BeginsBefore(crc, o, later, i, Boundary(o)) <==> i < k)
  {
    if Boundary(o) <= |file| {
      k := ReadFromBoundary(crc, file, o, later, end);
    } else {
      k := |later|;
      NothingAtEnd(crc, file, later);
      AllBeginBefore(crc, o, later, Boundary(o));
    }
  }

  lemma NothingAtEnd(crc: Checksum, file: seq<Byte>, later: seq<seq<Byte>>)
    ensures RecordsFrom(ParserOf(crc, file), |file|, |file|, None) == later[|later|..]
  {
  }

  lemma ReadAll(parse: Parser, size: nat, rs: seq<seq<Byte>>, p: nat, rest: seq<seq<Byte>>)
    requires ReadUpTo(parse, size, rs, p) && RecordsFrom(parse, size, p, None) == rest
    ensures RecordsFrom(parse, size, 0, None) == rs + rest
  {
  }

  /** Of what is written behind the torn end exactly the records that begin in its block are lost. */
  lemma TornAndLater(crc: Checksum, file: seq<Byte>, rs: seq<seq<Byte>>, a: seq<Byte>, p: nat, n: nat, o: nat,
      later: seq<seq<Byte>>)
    returns (k: nat)
    requires AllFrames(crc, rs) <= file && p == |AllFrames(crc, rs)| && o == p + n
    requires Torn(crc, file, p, a, true, n) && Detected(crc, file, p, a, true, n)
    requires file[o..] == WriteAll(FrameWriter(crc), o, later)
    ensures k <= |later| && Records(crc, file) == rs + later[k..]
    ensures forall i :: 0 <= i < |later| ==> (BeginsBefore(crc, o, later, i, Boundary(o)) <==> i < k)
  {
    var end := BlockEnd(o, |file|);
    LostBehindTorn(crc, file, rs, a, p, n, end);
    k := ReadBehindTorn(crc, file, o, later, end);
    ReadAll(ParserOf(crc, file), |file|, rs, end, later[k..]);
  }

  lemma ReusedLogIsRead(crc: Checksum, file: seq<Byte>, rs: seq<seq<Byte>>, a: seq<Byte>, p: nat, n: nat, o: nat,
      later: seq<seq<Byte>>)
    returns (k: nat)
    requires p == |AllFrames(crc, rs)| && n < |Frames(crc, p, a, true)| && o == p + n
    requires file == ReusedLog(crc, rs, a, n, later) && Detected(crc, file, p, a, true, n)
    ensures k <= |later| && Records(crc, file) == rs + later[k..]
    ensures forall i :: 0 <= i < |later| ==> (BeginsBefore(crc, o, later, i, Boundary(o)) <==> i < k)
  {
    ReusedLogParts(crc, file, rs, a, p, n, o, later);
    k := TornAndLater(crc, file, rs, a, p, n, o, later);
  }

  lemma AllBeginBefore(crc: Checksum, o: nat, rs: seq<seq<Byte>>, b: nat)
    requires o + |WriteAll(FrameWriter(crc), o, rs)| < b
    ensures forall i :: 0 <= i < |rs| ==> BeginsBefore(crc, o, rs, i, b)
  {
    forall i | 0 <= i < |rs|
      ensures BeginsBefore(crc, o, rs, i, b)
    {
      StartsInside(crc, o, rs, i);
    }
  }

  lemma {:induction false} StartsInside(crc: Checksum, o: nat, rs: seq<seq<Byte>>, i: nat)
    requires i < |rs|
    ensures HeaderAt(StartOf(crc, o, rs, i)) + HEADER_SIZE <= o + |WriteAll(FrameWriter(crc), o, rs)|
    decreases i
  {
    if i > 0 {
      StartAfterFirst(crc, o, rs, i);
      StartsInside(crc, o + |Frames(crc, o, rs[0], true)|, rs[1..], i - 1);
    } else {
      FirstInside(crc, o, rs);
    }
  }

  lemma FirstInside(crc: Checksum, o: nat, rs: seq<seq<Byte>>)
    requires rs != []
    ensures HeaderAt(StartOf(crc, o, rs, 0)) + HEADER_SIZE <= o + |WriteAll(FrameWriter(crc), o, rs)|
  {
    assert rs[..0] == [];
    FramesUnfold(crc, o, rs[0], true);
  }

  // ---------- What a recovery sees ----------

  function Payloads(records: seq<Durability.Record>, payload: Durability.Batch -> seq<Byte>): (r: seq<seq<Byte>>)
    ensures |r| == |records|
  {
    seq(|records|, i requires 0 <= i < |records| => payload(records[i].batch))
  }

  function SeenPayloads(records: seq<Durability.Record>, payload: Durability.Batch -> seq<Byte>): seq<seq<Byte>> {
    if records == [] then []
    else
      var n := |records| - 1;
      SeenPayloads(records[..n], payload) + (if records[n].seen then [payload(records[n].batch)] else [])
  }

  lemma {:induction false} SeenBehind(records: seq<Durability.Record>, k: nat, payload: Durability.Batch -> seq<Byte>)
    requires k <= |records| && forall i :: 0 <= i < |records| ==> (records[i].seen <==> i >= k)
    ensures SeenPayloads(records, payload) == Payloads(records, payload)[k..]
  {
    if k < |records| {
      var n := |records| - 1;
      SeenBehind(records[..n], k, payload);
      assert Payloads(records, payload)[k..] == Payloads(records[..n], payload)[k..] + [payload(records[n].batch)];
    } else if records != [] {
      var n := |records| - 1;
      SeenBehind(records[..n], n, payload);
    }
  }

  lemma {:induction false} SeenOfBoth(a: seq<Durability.Record>, b: seq<Durability.Record>,
      payload: Durability.Batch -> seq<Byte>)
    ensures SeenPayloads(a + b, payload) == SeenPayloads(a, payload) + SeenPayloads(b, payload)
    decreases |b|
  {
    if b == [] {
      assert a + b == a;
    } else {
      var n := |b| - 1;
      SeenOfBoth(a, b[..n], payload);
      assert (a + b)[..|a| + n] == a + b[..n];
    }
  }

  /** The records of a log that Durability takes to be seen are those that are read: behind a torn end, those that do
      not begin in its block. */
  lemma SeenAreRead(crc: Checksum, file: seq<Byte>, front: seq<Durability.Record>, a: seq<Byte>, p: nat, n: nat, o: nat,
      behind: seq<Durability.Record>, payload: Durability.Batch -> seq<Byte>)
    requires forall r :: r in front ==> r.seen
    requires p == |AllFrames(crc, Payloads(front, payload))| && n < |Frames(crc, p, a, true)| && o == p + n
    requires file == ReusedLog(crc, Payloads(front, payload), a, n, Payloads(behind, payload))
    requires Detected(crc, file, p, a, true, n)
    requires forall i :: 0 <= i < |behind| ==>
      (behind[i].seen <==> !BeginsBefore(crc, o, Payloads(behind, payload), i, Boundary(o)))
    ensures Records(crc, file) == SeenPayloads(front + behind, payload)
  {
    var k := ReusedLogIsRead(crc, file, Payloads(front, payload), a, p, n, o, Payloads(behind, payload));
    SeenBehind(front, 0, payload);
    SeenBehind(behind, k, payload);
    SeenOfBoth(front, behind, payload);
  }
}
