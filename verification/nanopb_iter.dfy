/** nanopb's cyclic field iterator, and the bitmap of required fields that rests on it. */
module PbFieldIter {
  const PB_SIZE_MAX := 0xFFFF
  const PTR_SIZE := 8
  const PB_MAX_REQUIRED_FIELDS := 64

  datatype HType = REQUIRED | OPTIONAL | REPEATED | ONEOF
  datatype AType = STATIC | PTR | CALLBACK

  /** What the iterator looks at in a pb_field_t. */
  datatype Descriptor = Descriptor(tag: nat, htype: HType, atype: AType, extension: bool,
                                   dataOffset: int, sizeOffset: int, dataSize: nat, arraySize: nat)

  /** Nonzero tags: zero marks the end of the array. */
  ghost predicate ValidFields(fields: seq<Descriptor>) {
    forall i :: 0 <= i < |fields| ==> fields[i].tag > 0
  }

  // ---------- Where each field lives ----------

  /** The later members of a union share its address. */
  predicate InsideUnion(fields: seq<Descriptor>, i: nat)
    requires 0 < i < |fields|
  {
    fields[i - 1].htype == ONEOF && fields[i].htype == ONEOF && fields[i].dataOffset == PB_SIZE_MAX
  }

  function SizeInStruct(d: Descriptor): int {
    if d.atype == STATIC && d.htype == REPEATED then d.dataSize * d.arraySize
    else if d.atype == PTR then PTR_SIZE
    else d.dataSize
  }

  /** The address of field `i`, in a struct at `dest`; 0 is NULL. */
  function DataAt(fields: seq<Descriptor>, dest: int, i: nat): int
    requires i < |fields|
  {
    if i == 0 then (if dest == 0 then 0 else dest + fields[0].dataOffset)
    else if InsideUnion(fields, i) then DataAt(fields, dest, i - 1)
    else DataAt(fields, dest, i - 1) + SizeInStruct(fields[i - 1]) + fields[i].dataOffset
  }

  /** The address of its has, count or which field. */
  function SizeAt(fields: seq<Descriptor>, dest: int, i: nat): int
    requires i < |fields|
  {
    if i == 0 && dest == 0 then 0
    else if i > 0 && InsideUnion(fields, i) then SizeAt(fields, dest, i - 1)
    else DataAt(fields, dest, i) + fields[i].sizeOffset
  }

  /** Fields as the macros of the generated code describe the members of a struct, whose offsets these are: a member is
      placed from the end of the one before it, and the later members of a union where the first one is. */
  ghost predicate LaidOut(fields: seq<Descriptor>, offsets: seq<nat>)
    requires |offsets| == |fields|
  {
    && (fields != [] ==> fields[0].dataOffset == offsets[0])
    && forall i :: 0 < i < |fields| ==>
      if fields[i - 1].htype == ONEOF && fields[i].htype == ONEOF && fields[i].dataOffset == 0xFFFF then
        offsets[i] == offsets[i - 1] && fields[i].sizeOffset == fields[i - 1].sizeOffset
      else PlacedBehind(fields[i - 1], fields[i], offsets[i - 1], offsets[i])
  }

  /** What is taken up by the member before is all entries of an array, or a pointer of eight bytes. */
  ghost predicate PlacedBehind(d: Descriptor, e: Descriptor, offsetD: nat, offsetE: nat) {
    if d.atype == STATIC && d.htype == REPEATED then e.dataOffset == offsetE - (offsetD + d.dataSize * d.arraySize)
    else if d.atype == PTR then e.dataOffset == offsetE - (offsetD + 8)
    else e.dataOffset == offsetE - (offsetD + d.dataSize)
  }

  /** Then the iterator points at the member itself, and at its has, count or which field. */
  lemma {:induction false} PointsAtMember(fields: seq<Descriptor>, offsets: seq<nat>, dest: int, i: nat)
    requires |offsets| == |fields| && LaidOut(fields, offsets) && i < |fields| && dest > 0
    ensures DataAt(fields, dest, i) == dest + offsets[i]
    ensures SizeAt(fields, dest, i) == dest + offsets[i] + fields[i].sizeOffset
  {
    if i > 0 {
      PointsAtMember(fields, offsets, dest, i - 1);
      assert InsideUnion(fields, i) || PlacedBehind(fields[i - 1], fields[i], offsets[i - 1], offsets[i]);
    }
  }

  /** How many required fields there are before field `i`. */
  function RequiredBefore(fields: seq<Descriptor>, i: nat): (n: nat)
    requires i <= |fields|
    ensures n <= i
  {
    if i == 0 then 0 else RequiredBefore(fields, i - 1) + (if fields[i - 1].htype == REQUIRED then 1 else 0)
  }

  predicate Matches(d: Descriptor, tag: nat) {
    d.tag == tag && !d.extension
  }

  ghost predicate NoMatch(fields: seq<Descriptor>, tag: nat, from: nat, to: nat) {
    forall i :: from <= i < to && i < |fields| ==> !Matches(fields[i], tag)
  }

  class FieldIter {
    const fields: seq<Descriptor>  // without its terminator
    const dest: int
    var pos: nat
    var pData: int
    var pSize: int
    var requiredFieldIndex: nat

    /** Everything is a function of the position. */
    ghost predicate Valid()
      reads this
    {
      && ValidFields(fields)
      && (if fields == [] then pos == 0 && requiredFieldIndex == 0
          else pos < |fields| && pData == DataAt(fields, dest, pos) && pSize == SizeAt(fields, dest, pos)
               && requiredFieldIndex == RequiredBefore(fields, pos))
    }

    /** pb_field_iter_begin */
    constructor (fields: seq<Descriptor>, dest: int)
      requires ValidFields(fields)
      ensures Valid() && pos == 0 && this.fields == fields && this.dest == dest
    {
      this.fields, this.dest, pos, requiredFieldIndex := fields, dest, 0, 0;
      if dest == 0 || fields == [] {
        pData, pSize := dest, dest;
      } else {
        pData := dest + fields[0].dataOffset;
        pSize := dest + fields[0].dataOffset + fields[0].sizeOffset;
      }
    }

    /** pb_field_iter_begin, on the same fields. */
    method Begin() returns (more: bool)
      requires ValidFields(fields)
      modifies this
      ensures Valid() && pos == 0 && (more <==> fields != [])
    {
      pos := 0;
      requiredFieldIndex := 0;
      if dest == 0 || fields == [] {
        pData, pSize := dest, dest;
      } else {
        pData := dest + fields[0].dataOffset;
        pSize := pData + fields[0].sizeOffset;
      }
      more := fields != [];
    }

    /** pb_field_iter_next: cyclic; false when it wraps around. */
    method Next() returns (more: bool)
      requires Valid()
      modifies this
      ensures Valid()
      ensures if old(pos) + 1 < |fields| then more && pos == old(pos) + 1 else !more && pos == 0
    {
      if fields == [] {
        return false;
      }
      var prevField := fields[pos];
      if pos + 1 == |fields| {
        var _ := Begin();
        return false;
      }
      pos := pos + 1;
      var prevSize := prevField.dataSize;
      if prevField.htype == ONEOF && fields[pos].htype == ONEOF && fields[pos].dataOffset == PB_SIZE_MAX {
        return true;
      } else if prevField.atype == STATIC && prevField.htype == REPEATED {
        prevSize := prevSize * prevField.arraySize;
      } else if prevField.atype == PTR {
        prevSize := PTR_SIZE;
      }
      if prevField.htype == REQUIRED {
        requiredFieldIndex := requiredFieldIndex + 1;
      }
      pData := pData + prevSize + fields[pos].dataOffset;
      pSize := pData + fields[pos].sizeOffset;
      return true;
    }

    /** pb_field_iter_find: within one lap, from anywhere, the next field with this tag; if there is none,
        back where it was.  (An empty message's terminator has tag zero.) */
    method Find(tag: nat) returns (found: bool)
      requires Valid()
      modifies this
      ensures Valid()
      ensures found <==> (fields == [] && tag == 0) || exists i :: 0 <= i < |fields| && Matches(fields[i], tag)
      ensures found && fields != [] ==> pos < |fields| && Matches(fields[pos], tag)
      ensures found && fields != [] ==> if pos >= old(pos) then NoMatch(fields, tag, old(pos), pos)
                        else NoMatch(fields, tag, old(pos), |fields|) && NoMatch(fields, tag, 0, pos)
      ensures !found ==> pos == old(pos)
    {
      var start := pos;
      while true
        invariant Valid()
        invariant if pos >= start then NoMatch(fields, tag, start, pos)
                  else NoMatch(fields, tag, start, |fields|) && NoMatch(fields, tag, 0, pos)
        decreases pos >= start, |fields| - pos
      {
        if (if fields == [] then tag == 0 else Matches(fields[pos], tag)) {
          return true;
        }
        var _ := Next();
        if pos == start {
          assert NoMatch(fields, tag, 0, |fields|);
          break;
        }
      }
      found := false;
    }

    /** pb_decode.c, find_extension_field: the extension field, wherever the iterator stands. */
    method FindExtension() returns (found: bool)
      requires Valid()
      modifies this
      ensures Valid()
      ensures found <==> exists i :: 0 <= i < |fields| && fields[i].extension
      ensures if found then pos < |fields| && fields[pos].extension else pos == old(pos)
    {
      var start := pos;
      while true
        invariant Valid()
        invariant forall i :: 0 <= i < |fields| && fields[i].extension ==>
                    if pos >= start then i < start || i >= pos else pos <= i < start
        decreases pos >= start, |fields| - pos
      {
        if fields != [] && fields[pos].extension {
          return true;
        }
        var _ := Next();
        if pos == start {
          break;
        }
      }
      found := false;
    }
  }

  // ---------- The bitmap of required fields ----------

  /** A uint32_t, bit by bit, least significant first. */
  type Word = w: seq<bool> | |w| == 32 witness seq(32, _ => false)

  function LowBits(n: nat): Word
    requires n <= 32
  {
    seq(32, i => i < n)
  }

  const ALL_BITS := LowBits(32)

  ghost predicate Bit(words: seq<Word>, r: nat)
    requires |words| == 2 && r < 64
  {
    words[r / 32][r % 32]
  }

  predicate Required(fields: seq<Descriptor>, i: nat) {
    i < |fields| && fields[i].htype == REQUIRED
  }

  /** The bits are those of the required fields in `seen`, as far as there are bits for them. */
  ghost predicate Recorded(fields: seq<Descriptor>, words: seq<Word>, seen: set<nat>) {
    && |words| == 2
    && (forall r :: 0 <= r < 64 ==> (Bit(words, r) <==> exists i :: i in seen && HasIndex(fields, i, r)))
  }

  /** Field `i` is the required field number `r`. */
  predicate HasIndex(fields: seq<Descriptor>, i: nat, r: nat) {
    Required(fields, i) && RequiredBefore(fields, i) == r
  }

  /** Every required field among the first 64 is in `seen`. */
  ghost predicate AllSeen(fields: seq<Descriptor>, seen: set<nat>) {
    forall i :: Required(fields, i) && RequiredBefore(fields, i) < PB_MAX_REQUIRED_FIELDS ==> i in seen
  }

  lemma {:induction false} RequiredMonotone(fields: seq<Descriptor>, i: nat, j: nat)
    requires i <= j <= |fields|
    ensures RequiredBefore(fields, i) <= RequiredBefore(fields, j)
  {
    if i < j {
      RequiredMonotone(fields, i, j - 1);
    }
  }

  lemma SameIndex(fields: seq<Descriptor>, i: nat, j: nat, r: nat)
    requires HasIndex(fields, i, r) && HasIndex(fields, j, r)
    ensures i == j
  {
    if i < j {
      RequiredMonotone(fields, i + 1, j);
    } else if j < i {
      RequiredMonotone(fields, j + 1, i);
    }
  }

  /** Each number below the count belongs to a field. */
  lemma {:induction false} IndexExists(fields: seq<Descriptor>, n: nat, r: nat) returns (i: nat)
    requires n <= |fields| && r < RequiredBefore(fields, n)
    ensures i < n && HasIndex(fields, i, r)
  {
    if RequiredBefore(fields, n - 1) == r {
      i := n - 1;
    } else {
      i := IndexExists(fields, n - 1, r);
    }
  }

  /** The marking step of pb_decode_noinit. */
  method MarkSeen(iter: FieldIter, words: array<Word>, ghost seen: set<nat>)
    requires iter.Valid() && iter.fields != [] && Recorded(iter.fields, words[..], seen)
    modifies words
    ensures Recorded(iter.fields, words[..], seen + {iter.pos})
  {
    ghost var before := words[..];
    if iter.fields[iter.pos].htype == REQUIRED && iter.requiredFieldIndex < PB_MAX_REQUIRED_FIELDS {
      var r := iter.requiredFieldIndex;
      words[r / 32] := words[r / 32][r % 32 := true];
      BitSet(before, words[..], r);
    }
    RecordedMore(iter.fields, before, words[..], seen, iter.pos);
  }

  lemma BitSet(before: seq<Word>, words: seq<Word>, r: nat)
    requires |before| == 2 && r < 64 && words == before[r / 32 := before[r / 32][r % 32 := true]]
    ensures forall q :: 0 <= q < 64 ==> (Bit(words, q) <==> Bit(before, q) || q == r)
  {
  }

  lemma RecordedMore(fields: seq<Descriptor>, before: seq<Word>, words: seq<Word>, seen: set<nat>, i: nat)
    requires Recorded(fields, before, seen) && |words| == 2
    requires forall q :: 0 <= q < 64 ==> (Bit(words, q) <==> Bit(before, q) || HasIndex(fields, i, q))
    ensures Recorded(fields, words, seen + {i})
  {
    forall q | 0 <= q < 64
      ensures (exists j :: j in seen + {i} && HasIndex(fields, j, q)) <==>
              (exists j :: j in seen && HasIndex(fields, j, q)) || HasIndex(fields, i, q)
    {
      if HasIndex(fields, i, q) { assert i in seen + {i}; }
      if j :| j in seen && HasIndex(fields, j, q) { assert j in seen + {i}; }
    }
  }

  function Min64(n: nat): nat {
    if n > PB_MAX_REQUIRED_FIELDS then PB_MAX_REQUIRED_FIELDS else n
  }

  /** No bits are set above the count. */
  lemma NoneAbove(fields: seq<Descriptor>, words: seq<Word>, seen: set<nat>)
    requires Recorded(fields, words, seen)
    ensures forall r :: Min64(RequiredBefore(fields, |fields|)) <= r < 64 ==> !Bit(words, r)
  {
    forall i: nat, r: nat | HasIndex(fields, i, r) ensures r < RequiredBefore(fields, |fields|) {
      RequiredMonotone(fields, i + 1, |fields|);
    }
  }

  /** All have been seen when all bits below the count are set. */
  lemma SeenIsBits(fields: seq<Descriptor>, words: seq<Word>, seen: set<nat>)
    requires Recorded(fields, words, seen)
    ensures AllSeen(fields, seen) <==> forall r :: 0 <= r < Min64(RequiredBefore(fields, |fields|)) ==> Bit(words, r)
  {
    if AllSeen(fields, seen) { SeenSets(fields, words, seen); }
    if forall r :: 0 <= r < Min64(RequiredBefore(fields, |fields|)) ==> Bit(words, r) { SetsSeen(fields, words, seen); }
  }

  lemma SeenSets(fields: seq<Descriptor>, words: seq<Word>, seen: set<nat>)
    requires Recorded(fields, words, seen) && AllSeen(fields, seen)
    ensures forall r :: 0 <= r < Min64(RequiredBefore(fields, |fields|)) ==> Bit(words, r)
  {
    forall r | 0 <= r < Min64(RequiredBefore(fields, |fields|)) ensures Bit(words, r) {
      var i := IndexExists(fields, |fields|, r);
      assert Required(fields, i);
    }
  }

  lemma SetsSeen(fields: seq<Descriptor>, words: seq<Word>, seen: set<nat>)
    requires Recorded(fields, words, seen)
    requires forall r :: 0 <= r < Min64(RequiredBefore(fields, |fields|)) ==> Bit(words, r)
    ensures AllSeen(fields, seen)
  {
    forall i: nat | Required(fields, i) && RequiredBefore(fields, i) < PB_MAX_REQUIRED_FIELDS ensures i in seen {
      RequiredMonotone(fields, i + 1, |fields|);
      BitSeen(fields, words, seen, i);
    }
  }

  lemma BitSeen(fields: seq<Descriptor>, words: seq<Word>, seen: set<nat>, i: nat)
    requires Recorded(fields, words, seen) && Required(fields, i) && RequiredBefore(fields, i) < 64
    requires Bit(words, RequiredBefore(fields, i))
    ensures i in seen
  {
    var r := RequiredBefore(fields, i);
    var j :| j in seen && HasIndex(fields, j, r);
    SameIndex(fields, i, j, r);
  }

  lemma WordFull(w: Word, words: seq<Word>, k: nat)
    requires |words| == 2 && k < 2 && w == words[k]
    ensures w == ALL_BITS <==> forall r :: 32 * k <= r < 32 * k + 32 ==> Bit(words, r)
  {
    if forall r :: 32 * k <= r < 32 * k + 32 ==> Bit(words, r) {
      forall b | 0 <= b < 32 ensures w[b] {
        assert Bit(words, 32 * k + b);
      }
    }
  }

  lemma WordPartial(words: seq<Word>, k: nat, n: nat)
    requires |words| == 2 && k < 2 && n < 32
    requires forall r :: 32 * k + n <= r < 64 ==> !Bit(words, r)
    ensures words[k] == LowBits(n) <==> forall r :: 32 * k <= r < 32 * k + n ==> Bit(words, r)
  {
    if forall r :: 32 * k <= r < 32 * k + n ==> Bit(words, r) {
      forall b | 0 <= b < 32 ensures words[k][b] == (b < n) {
        assert Bit(words, 32 * k + b) <==> words[k][b];
      }
    } else {
      var r :| 32 * k <= r < 32 * k + n && !Bit(words, r);
      assert !words[k][r - 32 * k];
    }
  }

  /** Walks on to the last field to count the required ones. */
  method CountRequired(iter: FieldIter) returns (count: nat)
    requires iter.Valid()
    modifies iter
    ensures iter.Valid() && count == RequiredBefore(iter.fields, |iter.fields|)
  {
    count := 0;
    var lastRequired := true;
    while true
      invariant iter.Valid()
      decreases |iter.fields| - iter.pos
    {
      count := iter.requiredFieldIndex;
      lastRequired := iter.fields == [] || iter.fields[iter.pos].htype == REQUIRED;  // the terminator's type is 0
      var more := iter.Next();
      if !more {
        break;
      }
    }
    if lastRequired && iter.fields != [] {
      count := count + 1;
    }
  }

  /** The final check of pb_decode_noinit: counts the required fields, then compares the words. */
  method CheckRequired(iter: FieldIter, words: array<Word>, ghost seen: set<nat>) returns (ok: bool)
    requires iter.Valid() && Recorded(iter.fields, words[..], seen)
    modifies iter
    ensures ok <==> AllSeen(iter.fields, seen)
  {
    var count := CountRequired(iter);
    if count > PB_MAX_REQUIRED_FIELDS {
      count := PB_MAX_REQUIRED_FIELDS;
    }
    NoneAbove(iter.fields, words[..], seen);
    SeenIsBits(iter.fields, words[..], seen);
    var i := 0;
    while i < count / 32
      invariant i <= count / 32
      invariant forall r :: 0 <= r < 32 * i ==> Bit(words[..], r)
    {
      WordFull(words[i], words[..], i);
      if words[i] != ALL_BITS {
        return false;
      }
      i := i + 1;
    }
    if count % 32 != 0 {
      WordPartial(words[..], i, count % 32);
      if words[count / 32] != LowBits(count % 32) {
        return false;
      }
    }
    ok := true;
  }
}
