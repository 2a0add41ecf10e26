/** The log file format: records cut into fragments that never cross a 32768-byte block. */
module LogFormat {
  import opened Bytes

  const BLOCK_SIZE := 32768  // written out where it divides: the solver wants a literal there
  const HEADER_SIZE := 7

  const ZERO_TYPE: Byte := 0
  const FULL_TYPE: Byte := 1
  const FIRST_TYPE: Byte := 2
  const MIDDLE_TYPE: Byte := 3
  const LAST_TYPE: Byte := 4

  /** The masked checksum of a type byte and payload, as stored in the header. */
  type Checksum = (Byte, seq<Byte>) -> U32

  // ---------- The format ----------

  function Zeros(n: nat): (r: seq<Byte>)
    ensures |r| == n
  {
    seq(n, _ => 0)
  }

  function Header(crc: Checksum, t: Byte, payload: seq<Byte>): (r: seq<Byte>)
    requires |payload| < 65536
    ensures |r| == HEADER_SIZE
  {
    EncodeFixed(crc(t, payload), 4) + [|payload| % 256, |payload| / 256, t]
  }

  /** One physical record. */
  function Physical(crc: Checksum, t: Byte, payload: seq<Byte>): (r: seq<Byte>)
    requires |payload| < 65536
    ensures |r| == HEADER_SIZE + |payload|
  {
    Header(crc, t, payload) + payload
  }

  /** Where the next header goes, from file position `p`: a block's last bytes hold no header. */
  function HeaderAt(p: nat): (q: nat)
    ensures p <= q < p + HEADER_SIZE && q % 32768 + HEADER_SIZE <= BLOCK_SIZE
  {
    if BLOCK_SIZE - p % 32768 < HEADER_SIZE then p + (BLOCK_SIZE - p % 32768) else p
  }

  /** How much of `left` bytes fits after a header at `q`. */
  function FragmentLength(q: nat, left: nat): (n: nat)
    requires q % 32768 + HEADER_SIZE <= BLOCK_SIZE
    ensures n <= left && q % 32768 + HEADER_SIZE + n <= BLOCK_SIZE
  {
    var avail := BLOCK_SIZE - q % 32768 - HEADER_SIZE;
    if left < avail then left else avail
  }

  function FragmentType(begin: bool, end: bool): (t: Byte)
    ensures 1 <= t <= 4
  {
    if begin && end then FULL_TYPE else if begin then FIRST_TYPE else if end then LAST_TYPE else MIDDLE_TYPE
  }

  /** The first fragment of `data` written at file position `p`, after any trailer. */
  function FirstFrame(crc: Checksum, p: nat, data: seq<Byte>, begin: bool): (r: seq<Byte>)
    ensures |r| == HeaderAt(p) - p + HEADER_SIZE + FragmentLength(HeaderAt(p), |data|)
  {
    var n := FragmentLength(HeaderAt(p), |data|);
    Zeros(HeaderAt(p) - p) + Physical(crc, FragmentType(begin, n == |data|), data[..n])
  }

  /** Where the first fragment ends. */
  function FrameEnd(p: nat, data: seq<Byte>): (e: nat)
    ensures e > p
  {
    HeaderAt(p) + HEADER_SIZE + FragmentLength(HeaderAt(p), |data|)
  }

  /** What the first fragment leaves of `data`. */
  function Remaining(p: nat, data: seq<Byte>): seq<Byte> {
    data[FragmentLength(HeaderAt(p), |data|)..]
  }

  /** A step makes progress, even when a zero-length fragment exactly fills a block. */
  function Progress(p: nat, data: seq<Byte>): nat {
    if FragmentLength(HeaderAt(p), |data|) == 0 then 1 else 0
  }

  lemma StepProgress(p: nat, data: seq<Byte>)
    requires Remaining(p, data) != []
    ensures |Remaining(p, data)| < |data|
         || (|Remaining(p, data)| == |data| && Progress(FrameEnd(p, data), data) < Progress(p, data))
  {
  }

  /** The bytes that `data` becomes when written at file position `p`: Full, or First Middle* Last. */
  function Frames(crc: Checksum, p: nat, data: seq<Byte>, begin: bool): (r: seq<Byte>)
    ensures |r| >= HEADER_SIZE
    decreases |data|, Progress(p, data)
  {
    if Remaining(p, data) == [] then FirstFrame(crc, p, data, begin)
    else
      StepProgress(p, data);
      FirstFrame(crc, p, data, begin) + Frames(crc, FrameEnd(p, data), Remaining(p, data), false)
  }

  /** `f` starts with `q` zeros, the checksum, length and type of a fragment, and its payload: all low byte first. */
  ghost predicate StartsWith(crc: Checksum, f: seq<Byte>, q: nat, t: Byte, payload: seq<Byte>) {
    && |f| >= q + 7 + |payload|
    && (forall k :: 0 <= k < q ==> f[k] == 0)
    && (forall k :: 0 <= k < 4 ==> f[q + k] == crc(t, payload) / Pow256(k) % 256)
    && f[q + 4] == |payload| % 256 && f[q + 5] == |payload| / 256 && f[q + 6] == t
    && f[q + 7..q + 7 + |payload|] == payload
  }

  /** The fragments of a record in numbers: zeros where less than seven bytes of the block are left, a header, and as
      much of the data as the block takes.  Type 1 is a whole record, 2 the first fragment of one, 4 the last, 3 a
      fragment between. */
  lemma FramesInNumbers(crc: Checksum, p: nat, data: seq<Byte>, begin: bool, q: nat, m: nat, t: Byte)
    requires var left := 32768 - p % 32768;
      if left < 7 then q == left && m == (if |data| < 32761 then |data| else 32761)
      else q == 0 && m == if |data| < left - 7 then |data| else left - 7
    requires t == if begin then if m == |data| then 1 else 2 else if m == |data| then 4 else 3
    ensures var frames := Frames(crc, p, data, begin);
      && StartsWith(crc, frames, q, t, data[..m])
      && frames[q + 7 + m..] == if m == |data| then [] else Frames(crc, p + q + 7 + m, data[m..], false)
  {
    HeaderInNumbers(p, |data|);
    FirstAndRest(crc, p, data, begin, q, m, t);
  }

  lemma FirstAndRest(crc: Checksum, p: nat, data: seq<Byte>, begin: bool, q: nat, m: nat, t: Byte)
    requires HeaderAt(p) == p + q && m == FragmentLength(p + q, |data|) && t == FragmentType(begin, m == |data|)
    ensures var frames := Frames(crc, p, data, begin);
      && StartsWith(crc, frames, q, t, data[..m])
      && frames[q + 7 + m..] == if m == |data| then [] else Frames(crc, p + q + 7 + m, data[m..], false)
  {
    RestInNumbers(p, data, q, m);
    BehindFirst(crc, p, data, begin, q + 7 + m, p + q + 7 + m, data[m..]);
    FirstInNumbers(crc, p, data, begin, q, m, t);
    StillStartsWith(crc, FirstFrame(crc, p, data, begin), Frames(crc, p, data, begin), q, t, data[..m]);
  }

  lemma FirstInNumbers(crc: Checksum, p: nat, data: seq<Byte>, begin: bool, q: nat, m: nat, t: Byte)
    requires HeaderAt(p) == p + q && m == FragmentLength(p + q, |data|) && t == FragmentType(begin, m == |data|)
    ensures StartsWith(crc, FirstFrame(crc, p, data, begin), q, t, data[..m])
    ensures |FirstFrame(crc, p, data, begin)| == q + 7 + m
  {
    PhysicalInNumbers(crc, q, t, data[..m]);
  }

  lemma RestInNumbers(p: nat, data: seq<Byte>, q: nat, m: nat)
    requires HeaderAt(p) == p + q && m == FragmentLength(p + q, |data|)
    ensures Remaining(p, data) == data[m..] && FrameEnd(p, data) == p + q + 7 + m
    ensures m == |data| <==> data[m..] == []
  {
  }

  lemma HeaderInNumbers(p: nat, size: nat)
    ensures var left := 32768 - p % 32768;
      && HeaderAt(p) == p + (if left < 7 then left else 0)
      && FragmentLength(HeaderAt(p), size) ==
        var room := if left < 7 then 32761 else left - 7; if size < room then size else room
  {
  }

  lemma BehindFirst(crc: Checksum, p: nat, data: seq<Byte>, begin: bool, n: nat, e: nat, rest: seq<Byte>)
    requires n == |FirstFrame(crc, p, data, begin)| && e == FrameEnd(p, data) && rest == Remaining(p, data)
    ensures var frames := Frames(crc, p, data, begin);
      && FirstFrame(crc, p, data, begin) <= frames
      && frames[n..] == if rest == [] then [] else Frames(crc, e, rest, false)
  {
  }

  lemma PhysicalInNumbers(crc: Checksum, q: nat, t: Byte, payload: seq<Byte>)
    requires |payload| < 65536
    ensures StartsWith(crc, Zeros(q) + Physical(crc, t, payload), q, t, payload)
  {
    forall k | 0 <= k < 4
      ensures (Zeros(q) + Physical(crc, t, payload))[q + k] == crc(t, payload) / Pow256(k) % 256
    {
      EncodedByte(crc(t, payload), 4, k);
    }
  }

  lemma StillStartsWith(crc: Checksum, f: seq<Byte>, g: seq<Byte>, q: nat, t: Byte, payload: seq<Byte>)
    requires StartsWith(crc, f, q, t, payload) && f <= g
    ensures StartsWith(crc, g, q, t, payload)
  {
    assert g[q + 7..q + 7 + |payload|] == f[q + 7..q + 7 + |payload|];
  }

  /** The records one after the other, each written by `write` where the last one ended. */
  function WriteAll(write: (nat, seq<Byte>) -> seq<Byte>, p: nat, records: seq<seq<Byte>>): seq<Byte>
    decreases |records|
  {
    if records == [] then []
    else write(p, records[0]) + WriteAll(write, p + |write(p, records[0])|, records[1..])
  }

  lemma {:induction false} WriteAllAppend(write: (nat, seq<Byte>) -> seq<Byte>, p: nat, rs: seq<seq<Byte>>,
      r: seq<Byte>)
    ensures WriteAll(write, p, rs + [r]) == WriteAll(write, p, rs) + write(p + |WriteAll(write, p, rs)|, r)
    decreases |rs|
  {
    if rs == [] {
      assert (rs + [r])[1..] == [];
    } else {
      WriteAllAppend(write, p + |write(p, rs[0])|, rs[1..], r);
      assert (rs + [r])[1..] == rs[1..] + [r];
    }
  }

  lemma {:induction false} WriteAllPrefix(write: (nat, seq<Byte>) -> seq<Byte>, p: nat, rs: seq<seq<Byte>>, k: nat)
    requires k <= |rs|
    ensures WriteAll(write, p, rs[..k]) <= WriteAll(write, p, rs)
    decreases |rs|
  {
    if k > 0 {
      var first := write(p, rs[0]);
      WriteAllPrefix(write, p + |first|, rs[1..], k - 1);
      assert rs[..k][1..] == rs[1..][..k - 1];
      assert WriteAll(write, p, rs[..k]) == first + WriteAll(write, p + |first|, rs[1..][..k - 1]);
    }
  }

  function FrameWriter(crc: Checksum): (nat, seq<Byte>) -> seq<Byte> {
    (at, data) => Frames(crc, at, data, true)
  }

  /** The log of these records, from the start of a file. */
  function AllFrames(crc: Checksum, records: seq<seq<Byte>>): seq<Byte> {
    WriteAll(FrameWriter(crc), 0, records)
  }

  lemma AllFramesAppend(crc: Checksum, rs: seq<seq<Byte>>, r: seq<Byte>)
    ensures AllFrames(crc, rs + [r]) == AllFrames(crc, rs) + Frames(crc, |AllFrames(crc, rs)|, r, true)
  {
    WriteAllAppend(FrameWriter(crc), 0, rs, r);
  }

  lemma StepModBlock(p: nat, q: nat, data: seq<Byte>)
    requires p % 32768 == q % 32768
    ensures HeaderAt(p) - p == HeaderAt(q) - q && HeaderAt(p) % 32768 == HeaderAt(q) % 32768
    ensures Remaining(p, data) == Remaining(q, data) && Progress(p, data) == Progress(q, data)
    ensures FrameEnd(p, data) % 32768 == FrameEnd(q, data) % 32768
  {
  }

  /** Only the offset within the block matters: a writer reopened on the file length goes on as one
      that was never closed. */
  lemma {:induction false} FramesModBlock(crc: Checksum, p: nat, q: nat, data: seq<Byte>, begin: bool)
    requires p % 32768 == q % 32768
    ensures Frames(crc, p, data, begin) == Frames(crc, q, data, begin)
    decreases |data|, Progress(p, data)
  {
    StepModBlock(p, q, data);
    assert FirstFrame(crc, p, data, begin) == FirstFrame(crc, q, data, begin);
    if Remaining(p, data) != [] {
      StepProgress(p, data);
      FramesModBlock(crc, FrameEnd(p, data), FrameEnd(q, data), Remaining(p, data), false);
    }
  }

  lemma FramesUnfold(crc: Checksum, p: nat, data: seq<Byte>, begin: bool)
    ensures p + |FirstFrame(crc, p, data, begin)| == FrameEnd(p, data)
    ensures Frames(crc, p, data, begin) == FirstFrame(crc, p, data, begin)
      + (if Remaining(p, data) == [] then [] else Frames(crc, FrameEnd(p, data), Remaining(p, data), false))
  {
  }

  function LengthField(header: seq<Byte>): nat
    requires |header| >= HEADER_SIZE
  {
    header[4] as int + 256 * header[5] as int
  }

  /** What stands in the bytes of a physical record. */
  lemma HeaderBytes(crc: Checksum, t: Byte, payload: seq<Byte>)
    requires |payload| < 65536
    ensures var h := Physical(crc, t, payload);
      && h[..4] == EncodeFixed(crc(t, payload), 4) && DecodeFixed(h[..4]) == crc(t, payload)
      && LengthField(h) == |payload| && h[6] == t && h[HEADER_SIZE..] == payload
  {
    Pow256Of8();
    DecodeEncodeFixed(crc(t, payload), 4);
  }

  /** Where record `k` stands among all. */
  lemma RecordSpan(write: (nat, seq<Byte>) -> seq<Byte>, rs: seq<seq<Byte>>, k: nat)
    requires k < |rs|
    ensures var full, p := WriteAll(write, 0, rs), |WriteAll(write, 0, rs[..k])|;
      var e := p + |write(p, rs[k])|;
      e <= |full| && full[p..e] == write(p, rs[k]) && e == |WriteAll(write, 0, rs[..k + 1])|
  {
    assert rs[..k + 1] == rs[..k] + [rs[k]];
    WriteAllAppend(write, 0, rs[..k], rs[k]);
    WriteAllPrefix(write, 0, rs, k + 1);
  }
}
