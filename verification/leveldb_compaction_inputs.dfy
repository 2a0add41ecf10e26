/** Picking the inputs of a compaction: what is taken with them, and what may be left behind. */
module CompactionInputs {
  import opened MvccStore
  import opened VersionFiles
  import opened Wrappers

  // ---------- Boundary files ----------

  /** Behind `l`, and with the same user key. */
  predicate IsBoundary(f: File, l: Entry) {
    Before(l, f.smallest) && f.smallest.key == l.key
  }

  method FindSmallestBoundaryFile(levelFiles: seq<File>, largestKey: Entry) returns (r: Option<File>)
    ensures r.None? ==> forall f :: f in levelFiles ==> !IsBoundary(f, largestKey)
    ensures r.Some? ==>
      && r.value in levelFiles && IsBoundary(r.value, largestKey)
      && forall f :: f in levelFiles && IsBoundary(f, largestKey) ==> !Before(f.smallest, r.value.smallest)
  {
    r := None;
    for i := 0 to |levelFiles|
      invariant r.None? ==> forall j :: 0 <= j < i ==> !IsBoundary(levelFiles[j], largestKey)
      invariant r.Some? ==> r.value in levelFiles && IsBoundary(r.value, largestKey)
      invariant r.Some? ==> forall j :: 0 <= j < i && IsBoundary(levelFiles[j], largestKey) ==>
        !Before(levelFiles[j].smallest, r.value.smallest)
    {
      var f := levelFiles[i];
      if IsBoundary(f, largestKey) && (r.None? || Before(f.smallest, r.value.smallest)) {
        if r.Some? {
          forall j | 0 <= j < i && IsBoundary(levelFiles[j], largestKey)
            ensures !Before(levelFiles[j].smallest, f.smallest)
          {
            Order(f.smallest, r.value.smallest, levelFiles[j].smallest);
          }
        }
        r := Some(f);
      }
    }
  }

  /** Files of the level, and no gap between them. */
  ghost predicate Contiguous(level: seq<File>, ins: seq<File>) {
    exists a: nat, b: nat :: IsStretch(level, ins, a, b)
  }

  ghost predicate IsStretch(level: seq<File>, ins: seq<File>, a: nat, b: nat) {
    a <= b <= |level| && ins == level[a..b]
  }

  ghost predicate NoBoundary(level: seq<File>, ins: seq<File>) {
    forall l, f :: IsLargest(l, ins) && f in level ==> !IsBoundary(f, l)
  }

  /** Files of the level, with every other one that overlaps one of them. */
  ghost predicate OverlapClosed(level: seq<File>, ins: seq<File>) {
    && (forall f :: f in ins ==> f in level)
    && (forall f, g :: f in ins && g in level && Overlaps(g, f.smallest.key, f.largest.key) ==> g in ins)
  }

  /** What is picked from the level of a compaction, before boundary files: in level 0 with all files that overlap,
      in the others without a gap. */
  ghost predicate Picked(level0: bool, level: seq<File>, ins: seq<File>) {
    if level0 then ValidFiles(level) && OverlapClosed(level, ins) else LevelOk(level) && Contiguous(level, ins)
  }

  ghost predicate GoesOn(f: File, ins: seq<File>) {
    exists l :: IsLargest(l, ins) && IsBoundary(f, l)
  }

  /** Behind `ins` only files that go on with the last key of those before. */
  ghost predicate Chained(ins: seq<File>, r: seq<File>) {
    ins <= r && forall k {:trigger r[..k]} :: |ins| <= k < |r| ==> GoesOn(r[k], r[..k])
  }

  /** `r` is `ins` with its boundary files. */
  ghost predicate WithBoundary(level0: bool, level: seq<File>, ins: seq<File>, r: seq<File>) {
    Picked(level0, level, r) && NoBoundary(level, r) && Chained(ins, r)
  }

  lemma ChainOneMore(ins: seq<File>, r: seq<File>, f: File)
    requires Chained(ins, r) && GoesOn(f, r)
    ensures Chained(ins, r + [f])
  {
    var s := r + [f];
    assert s[..|r|] == r;
    assert forall k :: |ins| <= k < |r| ==> s[..k] == r[..k];
  }

  /** While boundary files are added: `start` and `stop` are where in the level the files are. */
  ghost predicate Adding(level0: bool, level: seq<File>, ins: seq<File>, r: seq<File>, l: Entry, start: nat, stop: nat)
  {
    && (if level0 then Picked(true, level, r) else LevelOk(level) && start < stop && IsStretch(level, r, start, stop))
    && Chained(ins, r) && IsLargest(l, r)
  }

  lemma NoneToAdd(level0: bool, level: seq<File>)
    requires Picked(level0, level, [])
    ensures WithBoundary(level0, level, [], [])
  {
  }

  lemma AddingStarts(level0: bool, level: seq<File>, ins: seq<File>, l: Entry) returns (start: nat, stop: nat)
    requires Picked(level0, level, ins) && IsLargest(l, ins)
    ensures Adding(level0, level, ins, ins, l, start, stop) && stop <= |level|
  {
    start, stop := 0, 0;
    if !level0 {
      start, stop :| IsStretch(level, ins, start, stop);
    }
  }

  lemma AddOneMore(level0: bool, level: seq<File>, ins: seq<File>, r: seq<File>, l: Entry, start: nat, stop: nat,
      b: File)
    requires Adding(level0, level, ins, r, l, start, stop) && b in level && IsBoundary(b, l)
    requires forall f :: f in level && IsBoundary(f, l) ==> !Before(f.smallest, b.smallest)
    ensures stop < |level| && Adding(level0, level, ins, r + [b], b.largest, start, stop + 1)
  {
    if level0 {
      ClosedHasNoBoundary(level, r, l);
    } else {
      BoundaryIsNext(level, start, stop, l, b);
      OneLonger(level, start, stop);
      ChainOneMore(ins, r, b);
    }
  }

  lemma AddingEnds(level0: bool, level: seq<File>, ins: seq<File>, r: seq<File>, l: Entry, start: nat, stop: nat)
    requires Adding(level0, level, ins, r, l, start, stop) && forall f :: f in level ==> !IsBoundary(f, l)
    ensures WithBoundary(level0, level, ins, r)
  {
    LargestIsUnique(r, l, level);
  }

  /** AddBoundaryInputs: one file after the other, as long as the last key goes on in the next one. */
  method AddBoundaryInputs(ghost level0: bool, level: seq<File>, ins: seq<File>) returns (r: seq<File>)
    requires Picked(level0, level, ins)
    ensures WithBoundary(level0, level, ins, r)
  {
    r := ins;
    var largest := FindLargestKey(r);
    if largest.None? {
      NoneToAdd(level0, level);
      return;
    }
    var largestKey := largest.value;
    ghost var start, stop := AddingStarts(level0, level, ins, largestKey);
    while true
      invariant stop <= |level| && Adding(level0, level, ins, r, largestKey, start, stop)
      decreases |level| - stop
    {
      var boundary := FindSmallestBoundaryFile(level, largestKey);
      if boundary.None? {
        AddingEnds(level0, level, ins, r, largestKey, start, stop);
        break;
      }
      AddOneMore(level0, level, ins, r, largestKey, start, stop, boundary.value);
      r := r + [boundary.value];
      largestKey := boundary.value.largest;
      stop := stop + 1;
    }
  }

  /** What overlaps is there already. */
  lemma ClosedHasNoBoundary(level: seq<File>, ins: seq<File>, l: Entry)
    requires ValidFiles(level) && OverlapClosed(level, ins) && IsLargest(l, ins)
    ensures forall f :: f in level ==> !IsBoundary(f, l)
  {
    forall f | f in level
      ensures !IsBoundary(f, l)
    {
      var g :| g in ins && g.largest == l;
      assert ValidFile(f) && ValidFile(g);
      if f.smallest.key == l.key {
        assert Overlaps(f, g.smallest.key, g.largest.key);
        Order(l, f.smallest, f.largest);
      }
    }
  }

  lemma LargestIsLast(level: seq<File>, a: nat, b: nat, l: Entry)
    requires LevelOk(level) && a < b <= |level| && IsLargest(l, level[a..b])
    ensures l == level[b - 1].largest
  {
    var f :| f in level[a..b] && f.largest == l;
    var i :| a <= i < b && level[i] == f;
    assert level[a..b][b - 1 - a] == level[b - 1];
    if i < b - 1 { Ascending(level, i, b - 1); }
  }

  lemma LastIsLargest(level: seq<File>, a: nat, b: nat)
    requires LevelOk(level) && a < b <= |level|
    ensures IsLargest(level[b - 1].largest, level[a..b])
  {
    assert level[a..b][b - 1 - a] == level[b - 1];
    forall f | f in level[a..b]
      ensures !Before(level[b - 1].largest, f.largest)
    {
      var i :| a <= i < b && level[i] == f;
      if i < b - 1 { Ascending(level, i, b - 1); }
    }
  }

  lemma LargestIsUnique(ins: seq<File>, l: Entry, level: seq<File>)
    requires IsLargest(l, ins) && forall f :: f in level ==> !IsBoundary(f, l)
    ensures NoBoundary(level, ins)
  {
    forall m, f | IsLargest(m, ins) && f in level
      ensures !IsBoundary(f, m)
    {
      assert !Before(l, m) && !Before(m, l);
      assert IsBoundary(f, m) ==> IsBoundary(f, l);
    }
  }

  /** The smallest boundary file is the next one of the level. */
  lemma BoundaryIsNext(level: seq<File>, a: nat, stop: nat, l: Entry, b: File)
    requires LevelOk(level) && a < stop <= |level| && IsLargest(l, level[a..stop])
    requires b in level && IsBoundary(b, l)
    requires forall f :: f in level && IsBoundary(f, l) ==> !Before(f.smallest, b.smallest)
    ensures stop < |level| && b == level[stop] && IsLargest(b.largest, level[a..stop] + [b])
  {
    LargestIsLast(level, a, stop, l);
    var j :| 0 <= j < |level| && level[j] == b;
    NotBehind(level, stop - 1, j);
    NextIsBoundary(level, stop - 1, j);
    assert ValidFile(b);
    Order(l, b.smallest, b.largest);
    LargestOfMore(l, level[a..stop], b);
  }

  lemma NotBehind(level: seq<File>, last: nat, j: nat)
    requires LevelOk(level) && last < |level| && j < |level| && Before(level[last].largest, level[j].smallest)
    ensures last < j
  {
    assert ValidFile(level[j]);
    if j < last { Ascending(level, j, last); }
    Order(level[last].largest, level[j].smallest, level[j].largest);
  }

  lemma NextIsBoundary(level: seq<File>, last: nat, j: nat)
    requires LevelOk(level) && last < j < |level| && IsBoundary(level[j], level[last].largest)
    ensures last + 1 < j ==>
      IsBoundary(level[last + 1], level[last].largest) && Before(level[last + 1].smallest, level[j].smallest)
  {
    if last + 1 < j { Ascending(level, last + 1, j); }
  }

  /** Whatever else the level holds of the keys of the inputs is newer. */
  ghost predicate OlderTaken(level: seq<File>, ins: seq<File>) {
    forall x, e, g, f ::
      x in ins && e in x.entries && g in level && g !in ins && f in g.entries && f.key == e.key ==> Tag(f) > Tag(e)
  }

  lemma BoundaryFilesSuffice(level: seq<File>, ins: seq<File>)
    requires LevelOk(level) && Contiguous(level, ins) && NoBoundary(level, ins)
    ensures OlderTaken(level, ins)
  {
    forall x, e, g, f | x in ins && e in x.entries && g in level && g !in ins && f in g.entries && f.key == e.key
      ensures Tag(f) > Tag(e)
    {
      LeftIsNewer(level, ins, x, e, g, f);
    }
  }

  lemma LeftIsNewer(level: seq<File>, ins: seq<File>, x: File, e: Entry, g: File, f: Entry)
    requires LevelOk(level) && Contiguous(level, ins) && NoBoundary(level, ins)
    requires x in ins && e in x.entries && g in level && g !in ins && f in g.entries && f.key == e.key
    ensures Tag(f) > Tag(e)
  {
    var a: nat, b: nat :| IsStretch(level, ins, a, b);
    var i :| a <= i < b && level[i] == x;
    var j :| 0 <= j < |level| && level[j] == g;
    if a <= j < b { InStretch(level, a, b, j); }
    if j < i {
      EarlierIsNewer(level, j, i, f, e);
    } else {
      LaterIsBoundary(level, a, b, i, j, e, f);
    }
  }

  lemma InStretch(level: seq<File>, a: nat, b: nat, j: nat)
    requires a <= j < b <= |level|
    ensures level[j] in level[a..b]
  {
    assert level[j] == level[a..b][j - a];
  }

  lemma EarlierIsNewer(level: seq<File>, j: nat, i: nat, f: Entry, e: Entry)
    requires LevelOk(level) && j < i < |level| && f in level[j].entries && e in level[i].entries && f.key == e.key
    ensures Tag(f) > Tag(e)
  {
    assert ValidFile(level[j]) && ValidFile(level[i]);
    Order(f, level[j].largest, level[i].smallest);
    Order(f, level[i].smallest, e);
  }

  /** A key of the inputs does not go on behind them. */
  lemma LaterIsBoundary(level: seq<File>, a: nat, b: nat, i: nat, j: nat, e: Entry, f: Entry)
    requires LevelOk(level) && a <= i < b <= j < |level| && NoBoundary(level, level[a..b])
    requires e in level[i].entries && f in level[j].entries
    ensures f.key != e.key
  {
    LastIsLargest(level, a, b);
    var l := level[b - 1].largest;
    assert ValidFile(level[i]) && ValidFile(level[j]);
    if i < b - 1 { Ascending(level, i, b - 1); }
    Order(e, level[i].largest, l);
    assert !IsBoundary(level[j], l);
    Order(l, level[j].smallest, f);
  }

  // ---------- Overlapping files ----------

  /** The files that overlap [lo, hi], in order. */
  function Overlapping(files: seq<File>, lo: UserKey, hi: UserKey): (r: seq<File>)
    ensures |r| <= |files| && forall f :: f in r <==> f in files && Overlaps(f, lo, hi)
  {
    if files == [] then []
    else
      var last := files[|files| - 1];
      Overlapping(files[..|files| - 1], lo, hi) + (if Overlaps(last, lo, hi) then [last] else [])
  }

  lemma OverlappingNextFile(files: seq<File>, i: nat, lo: UserKey, hi: UserKey)
    requires i < |files|
    ensures Overlapping(files[..i + 1], lo, hi) ==
      Overlapping(files[..i], lo, hi) + (if Overlaps(files[i], lo, hi) then [files[i]] else [])
  {
    assert files[..i + 1][..i] == files[..i];
  }

  predicate Within(files: seq<File>, lo: UserKey, hi: UserKey) {
    forall f :: f in files ==> lo <= f.smallest.key && f.largest.key <= hi
  }

  /** How many files reach out of [lo, hi] below, and how many above. */
  function Outside(files: seq<File>, lo: UserKey, hi: UserKey): nat {
    if files == [] then 0
    else
      var last := files[|files| - 1];
      Outside(files[..|files| - 1], lo, hi)
        + (if last.smallest.key < lo then 1 else 0) + (if last.largest.key > hi then 1 else 0)
  }

  lemma {:induction false} OutsideShrinks(files: seq<File>, lo: UserKey, hi: UserKey, lo': UserKey, hi': UserKey,
      f: File)
    requires lo' <= lo && hi <= hi'
    ensures Outside(files, lo', hi') <= Outside(files, lo, hi)
    ensures f in files && ((lo' <= f.smallest.key < lo) || (hi < f.largest.key <= hi')) ==>
      Outside(files, lo', hi') < Outside(files, lo, hi)
  {
    if files != [] {
      OutsideShrinks(files[..|files| - 1], lo, hi, lo', hi', f);
    }
  }

  /** A range around [begin, end] that holds all files that overlap it. */
  predicate Encloses(files: seq<File>, begin: UserKey, end: UserKey, lo: UserKey, hi: UserKey) {
    lo <= begin && end <= hi && Within(Overlapping(files, lo, hi), lo, hi)
  }

  /** All files that overlap [lo, hi], which is [begin, end], or in level 0 the least range that encloses it. */
  ghost predicate OverlapsOf(level0: bool, files: seq<File>, begin: UserKey, end: UserKey, inputs: seq<File>,
      lo: UserKey, hi: UserKey)
  {
    && inputs == Overlapping(files, lo, hi)
    && if level0 then Encloses(files, begin, end, lo, hi) && InEvery(files, begin, end, lo, hi)
       else lo == begin && hi == end
  }

  ghost predicate InEvery(files: seq<File>, begin: UserKey, end: UserKey, lo: UserKey, hi: UserKey) {
    forall l, h :: Encloses(files, begin, end, l, h) ==> l <= lo && hi <= h
  }

  /** A file that overlaps the range so far is in every one that encloses it. */
  lemma GrowsInEvery(files: seq<File>, begin: UserKey, end: UserKey, lo: UserKey, hi: UserKey, f: File)
    requires InEvery(files, begin, end, lo, hi) && f in files && Overlaps(f, lo, hi)
    ensures f.smallest.key < lo ==> InEvery(files, begin, end, f.smallest.key, hi)
    ensures f.largest.key > hi ==> InEvery(files, begin, end, lo, f.largest.key)
  {
    forall l, h | Encloses(files, begin, end, l, h)
      ensures l <= f.smallest.key && f.largest.key <= h
    {
      assert f in Overlapping(files, l, h);
    }
  }

  /** Version::GetOverlappingInputs: in level 0 the range grows with the files that are found. */
  method GetOverlappingInputs(level0: bool, files: seq<File>, begin: UserKey, end: UserKey)
    returns (inputs: seq<File>)
    ensures exists lo, hi :: OverlapsOf(level0, files, begin, end, inputs, lo, hi)
  {
    var userBegin, userEnd := begin, end;
    inputs := [];
    var i := 0;
    while i < |files|
      invariant i <= |files| && userBegin <= begin && end <= userEnd && InEvery(files, begin, end, userBegin, userEnd)
      invariant !level0 ==> userBegin == begin && userEnd == end
      invariant inputs == Overlapping(files[..i], userBegin, userEnd)
      invariant level0 ==> Within(inputs, userBegin, userEnd)
      decreases Outside(files, userBegin, userEnd), |files| - i
    {
      var f := files[i];
      OverlappingNextFile(files, i, userBegin, userEnd);
      i := i + 1;
      if f.largest.key < userBegin || f.smallest.key > userEnd {
        continue;
      }
      inputs := inputs + [f];
      if level0 {
        GrowsInEvery(files, begin, end, userBegin, userEnd, f);
        if f.smallest.key < userBegin {
          OutsideShrinks(files, userBegin, userEnd, f.smallest.key, userEnd, f);
          userBegin := f.smallest.key;
          inputs := [];
          i := 0;
        } else if f.largest.key > userEnd {
          OutsideShrinks(files, userBegin, userEnd, userBegin, f.largest.key, f);
          userEnd := f.largest.key;
          inputs := [];
          i := 0;
        }
      }
    }
    assert files[..i] == files;
    assert OverlapsOf(level0, files, begin, end, inputs, userBegin, userEnd);
  }

  /** In a level from 1 on these are a stretch of it. */
  lemma {:induction false} OverlappingIsStretch(level: seq<File>, lo: UserKey, hi: UserKey) returns (a: nat, b: nat)
    requires LevelOk(level)
    ensures IsStretch(level, Overlapping(level, lo, hi), a, b)
  {
    a, b := 0, 0;
    if level != [] {
      var n := |level| - 1;
      var few := level[..n];
      a, b := OverlappingIsStretch(few, lo, hi);
      SameStretch(level, a, b, n);
      if Overlaps(level[n], lo, hi) {
        if a < b { StretchGoesOn(level, lo, hi, a, b); } else { a, b := n, n; }
        OneLonger(level, a, n);
        b := n + 1;
      }
    }
  }

  lemma SameStretch(level: seq<File>, a: nat, b: nat, n: nat)
    requires a <= b <= n <= |level|
    ensures level[..n][a..b] == level[a..b]
  {
  }

  lemma OneLonger(level: seq<File>, a: nat, n: nat)
    requires a <= n < |level|
    ensures level[a..n] + [level[n]] == level[a..n + 1]
  {
  }

  lemma StretchGoesOn(level: seq<File>, lo: UserKey, hi: UserKey, a: nat, b: nat)
    requires LevelOk(level) && level != [] && a < b < |level| && Overlaps(level[|level| - 1], lo, hi)
    requires Overlapping(level[..|level| - 1], lo, hi) == level[a..b]
    ensures b == |level| - 1
  {
    var n := |level| - 1;
    if b < n {
      InStretch(level, a, b, b - 1);
      BetweenOverlaps(level, lo, hi, b - 1, b, n);
      assert level[b] == level[..n][b];
      NotInStretch(level, a, b);
    }
  }

  lemma BetweenOverlaps(level: seq<File>, lo: UserKey, hi: UserKey, i: nat, j: nat, k: nat)
    requires LevelOk(level) && i < j < k < |level| && Overlaps(level[i], lo, hi) && Overlaps(level[k], lo, hi)
    ensures Overlaps(level[j], lo, hi)
  {
    Ascending(level, i, j);
    Ascending(level, j, k);
  }

  lemma NotInStretch(level: seq<File>, a: nat, b: nat)
    requires LevelOk(level) && a <= b < |level|
    ensures level[b] !in level[a..b]
  {
    forall i | a <= i < b
      ensures level[i] != level[b]
    {
      Ascending(level, i, b);
    }
  }

  /** So is everything that overlaps a range ... */
  lemma OverlappingIsPicked(level0: bool, level: seq<File>, lo: UserKey, hi: UserKey)
    requires if level0 then ValidFiles(level) else LevelOk(level)
    requires level0 ==> Within(Overlapping(level, lo, hi), lo, hi)
    ensures Picked(level0, level, Overlapping(level, lo, hi))
  {
    if !level0 {
      var a, b := OverlappingIsStretch(level, lo, hi);
    }
  }

  /** ... and a single file ... */
  lemma SingleIsPicked(level: seq<File>, i: nat)
    requires LevelOk(level) && i < |level|
    ensures Picked(false, level, [level[i]])
  {
    assert IsStretch(level, [level[i]], i, i + 1);
  }

  /** ... and the first few of such a list, where a manual compaction would be too large. */
  lemma FirstFewArePicked(level: seq<File>, lo: UserKey, hi: UserKey, n: nat)
    requires LevelOk(level) && n <= |Overlapping(level, lo, hi)|
    ensures Picked(false, level, Overlapping(level, lo, hi)[..n])
  {
    var a, b := OverlappingIsStretch(level, lo, hi);
    assert IsStretch(level, Overlapping(level, lo, hi)[..n], a, a + n);
  }

  // ---------- All inputs ----------

  /** From the next level all files that overlap the range of the inputs. */
  ghost predicate TargetTaken(next: seq<File>, in0: seq<File>, in1: seq<File>) {
    exists s, l :: TakenBetween(next, in0, in1, s, l)
  }

  ghost predicate TakenBetween(next: seq<File>, in0: seq<File>, in1: seq<File>, s: Entry, l: Entry) {
    IsSmallest(s, in0) && IsLargest(l, in0) && in1 == Overlapping(next, s.key, l.key)
  }

  method OverlappingNext(next: seq<File>, in0: seq<File>) returns (in1: seq<File>)
    requires in0 != []
    ensures TargetTaken(next, in0, in1)
  {
    var smallest, largest := GetRange(in0);
    in1 := GetOverlappingInputs(false, next, smallest.key, largest.key);
    assert TakenBetween(next, in0, in1, smallest, largest);
  }

  lemma InRange(level: seq<File>, in0: seq<File>, in1: seq<File>, s: Entry, l: Entry, lo: UserKey, hi: UserKey)
    requires ValidFiles(level) && forall f :: f in in0 ==> f in level
    requires IsSmallest(s, in0 + in1) && IsLargest(l, in0 + in1) && lo <= s.key && l.key <= hi
    ensures forall f :: f in in0 ==> f in Overlapping(level, lo, hi)
  {
    forall f | f in in0
      ensures Overlaps(f, lo, hi)
    {
      assert f in in0 + in1 && ValidFile(f);
    }
  }

  /** `over` is all of the level that overlaps the range of `ins`. */
  ghost predicate OverRange(level0: bool, level: seq<File>, ins: seq<File>, over: seq<File>) {
    exists s, l, lo, hi ::
      IsSmallest(s, ins) && IsLargest(l, ins) && OverlapsOf(level0, level, s.key, l.key, over, lo, hi)
  }

  /** All files of the level in the range of `ins`, with boundary files. */
  ghost predicate IsExpanded(level0: bool, level: seq<File>, ins: seq<File>, r: seq<File>) {
    exists over :: OverRange(level0, level, ins, over) && WithBoundary(level0, level, over, r)
  }

  /** All files of the level in the range of all inputs. */
  method Expand(level0: bool, level: seq<File>, in0: seq<File>, in1: seq<File>) returns (expanded0: seq<File>)
    requires Picked(level0, level, in0) && in0 != []
    ensures Picked(level0, level, expanded0) && NoBoundary(level, expanded0)
    ensures forall f :: f in in0 ==> f in expanded0
    ensures IsExpanded(level0, level, in0 + in1, expanded0)
  {
    var allStart, allLimit := GetRange(in0 + in1);
    expanded0 := GetOverlappingInputs(level0, level, allStart.key, allLimit.key);
    ghost var lo, hi :| OverlapsOf(level0, level, allStart.key, allLimit.key, expanded0, lo, hi);
    assert OverRange(level0, level, in0 + in1, expanded0);
    OverlappingIsPicked(level0, level, lo, hi);
    InRange(level, in0, in1, allStart, allLimit, lo, hi);
    expanded0 := AddBoundaryInputs(level0, level, expanded0);
  }

  /** What was picked, with boundary files; or more of the level, if that takes as many files of the next one. */
  ghost predicate GrownFrom(level0: bool, level: seq<File>, next: seq<File>, picked: seq<File>, mayGrow: bool,
      few0: seq<File>, few1: seq<File>, in0: seq<File>, in1: seq<File>)
  {
    && WithBoundary(level0, level, picked, few0) && TargetTaken(next, few0, few1)
    && ((in0 == few0 && in1 == few1)
        || (mayGrow && few1 != [] && |in0| > |few0| && |in1| == |few1|
            && IsExpanded(level0, level, few0 + few1, in0) && TargetTaken(next, in0, in1)))
  }

  /** SetupOtherInputs: boundary files, the next level's files, and more of the first level's if that takes no more of
      the next one's; `mayGrow` is the test of sizes. */
  method SetupOtherInputs(level0: bool, level: seq<File>, next: seq<File>, picked: seq<File>, mayGrow: bool)
    returns (in0: seq<File>, in1: seq<File>)
    requires Picked(level0, level, picked) && picked != []
    ensures Picked(level0, level, in0) && NoBoundary(level, in0) && TargetTaken(next, in0, in1)
    ensures forall f :: f in picked ==> f in in0
    ensures exists few0, few1 :: GrownFrom(level0, level, next, picked, mayGrow, few0, few1, in0, in1)
  {
    in0 := AddBoundaryInputs(level0, level, picked);
    in1 := OverlappingNext(next, in0);
    assert GrownFrom(level0, level, next, picked, mayGrow, in0, in1, in0, in1);
    if in1 == [] {
      return;
    }
    var expanded0 := Expand(level0, level, in0, in1);
    if |expanded0| > |in0| && mayGrow {
      var expanded1 := OverlappingNext(next, expanded0);
      if |expanded1| == |in1| {
        assert GrownFrom(level0, level, next, picked, mayGrow, in0, in1, expanded0, expanded1);
        in0, in1 := expanded0, expanded1;
      }
    }
  }

  // ---------- An automatic compaction ----------

  /** From one file: in level 0 all in the least range around it. */
  ghost predicate PickedFrom(level0: bool, level: seq<File>, x: File, picked: seq<File>) {
    && x in level
    && if level0 then
         exists lo, hi :: OverlapsOf(true, level, x.smallest.key, x.largest.key, picked, lo, hi)
       else picked == [x]
  }

  /** The first file behind the compaction pointer of the level, or else the first of all. */
  method FileToCompact(level: seq<File>, pointer: Option<Entry>) returns (x: File)
    requires level != []
    ensures x in level
    ensures pointer.None? ==> x == level[0]
    ensures pointer.Some? ==>
      || (exists i: nat :: IsFirstBehind(level, pointer.value, i) && x == level[i])
      || (x == level[0] && forall f :: f in level ==> !Before(pointer.value, f.largest))
  {
    for i := 0 to |level|
      invariant pointer.None? ==> i == 0
      invariant pointer.Some? ==> forall j :: 0 <= j < i ==> !Before(pointer.value, level[j].largest)
    {
      if pointer.None? || Before(pointer.value, level[i].largest) {
        assert pointer.Some? ==> IsFirstBehind(level, pointer.value, i);
        return level[i];
      }
    }
    x := level[0];
  }

  ghost predicate IsFirstBehind(level: seq<File>, pointer: Entry, i: nat) {
    i < |level| && Before(pointer, level[i].largest)
    && forall j :: 0 <= j < i ==> !Before(pointer, level[j].largest)
  }

  /** The inputs of a compaction that nobody asked for. */
  ghost predicate AutomaticInputs(level0: bool, level: seq<File>, next: seq<File>, in0: seq<File>, in1: seq<File>) {
    exists x, picked, mayGrow, few0, few1 ::
      AutomaticFrom(level0, level, next, x, picked, mayGrow, few0, few1, in0, in1)
  }

  ghost predicate AutomaticFrom(level0: bool, level: seq<File>, next: seq<File>, x: File, picked: seq<File>,
      mayGrow: bool, few0: seq<File>, few1: seq<File>, in0: seq<File>, in1: seq<File>)
  {
    PickedFrom(level0, level, x, picked) && GrownFrom(level0, level, next, picked, mayGrow, few0, few1, in0, in1)
  }

  /** PickCompaction, for the file to start with: FileToCompact, or one that was sought in too often. */
  method PickCompaction(level0: bool, level: seq<File>, next: seq<File>, x: File, mayGrow: bool)
    returns (in0: seq<File>, in1: seq<File>)
    requires (if level0 then ValidFiles(level) else LevelOk(level)) && x in level
    ensures x in in0 && Picked(level0, level, in0) && NoBoundary(level, in0) && TargetTaken(next, in0, in1)
    ensures AutomaticInputs(level0, level, next, in0, in1)
  {
    var picked := [x];
    if level0 {
      var smallest, largest := GetRange([x]);
      picked := GetOverlappingInputs(true, level, smallest.key, largest.key);
      PickedInLevel0(level, x, picked);
    } else {
      ghost var i :| 0 <= i < |level| && level[i] == x;
      SingleIsPicked(level, i);
    }
    assert PickedFrom(level0, level, x, picked);
    in0, in1 := SetupOtherInputs(level0, level, next, picked, mayGrow);
    ghost var few0, few1 :| GrownFrom(level0, level, next, picked, mayGrow, few0, few1, in0, in1);
    assert AutomaticFrom(level0, level, next, x, picked, mayGrow, few0, few1, in0, in1);
  }

  lemma PickedInLevel0(level: seq<File>, x: File, picked: seq<File>)
    requires ValidFiles(level) && PickedFrom(true, level, x, picked)
    ensures x in picked && Picked(true, level, picked)
  {
    var lo, hi :| OverlapsOf(true, level, x.smallest.key, x.largest.key, picked, lo, hi);
    assert ValidFile(x);
    OverlappingIsPicked(true, level, lo, hi);
  }

  /** All entries of the inputs' keys in the next level are inputs. */
  ghost predicate AllTaken(next: seq<File>, in0: seq<File>, in1: seq<File>) {
    forall x, e, g, f ::
      x in in0 && e in x.entries && g in next && f in g.entries && f.key == e.key ==> g in in1
  }

  /** What a compaction relies on, for the inputs from the level it compacts. */
  lemma SourceInputsSuffice(level0: bool, level: seq<File>, next: seq<File>, in0: seq<File>, in1: seq<File>)
    requires Picked(level0, level, in0) && NoBoundary(level, in0)
    requires ValidFiles(next) && TargetTaken(next, in0, in1)
    ensures OlderTaken(level, in0) && AllTaken(next, in0, in1)
  {
    if level0 {
      ClosedTakesAll(level, in0);
    } else {
      BoundaryFilesSuffice(level, in0);
    }
    OverlapsSuffice(next, in0, in1);
  }

  lemma OverlapsSuffice(next: seq<File>, in0: seq<File>, in1: seq<File>)
    requires ValidFiles(in0) && ValidFiles(next) && TargetTaken(next, in0, in1)
    ensures AllTaken(next, in0, in1)
  {
    var s, l :| TakenBetween(next, in0, in1, s, l);
    forall x, e, g, f | x in in0 && e in x.entries && g in next && f in g.entries && f.key == e.key
      ensures g in in1
    {
      SameKeyOverlaps(s, l, x, e, g, f);
    }
  }

  lemma SameKeyOverlaps(s: Entry, l: Entry, x: File, e: Entry, g: File, f: Entry)
    requires ValidFile(x) && ValidFile(g) && e in x.entries && f in g.entries && f.key == e.key
    requires !Before(x.smallest, s) && !Before(l, x.largest)
    ensures Overlaps(g, s.key, l.key)
  {
  }

  lemma ClosedTakesAll(level: seq<File>, ins: seq<File>)
    requires ValidFiles(level) && OverlapClosed(level, ins)
    ensures OlderTaken(level, ins)
  {
    forall x, e, g, f | x in ins && e in x.entries && g in level && f in g.entries && f.key == e.key
      ensures g in ins
    {
      assert ValidFile(x) && ValidFile(g);
      assert Overlaps(g, x.smallest.key, x.largest.key);
    }
  }

  /** Of the keys of its inputs from the next level it takes all older entries there exactly if no file there goes on
      with the key on which they end. */
  lemma OlderTakenIff(level: seq<File>, ins: seq<File>)
    requires LevelOk(level) && Contiguous(level, ins)
    ensures OlderTaken(level, ins) <==> NoBoundary(level, ins)
  {
    if NoBoundary(level, ins) {
      BoundaryFilesSuffice(level, ins);
    } else {
      var l, b :| IsLargest(l, ins) && b in level && IsBoundary(b, l);
      var x :| x in ins && x.largest == l;
      assert ValidFile(x) && ValidFile(b);
      Order(l, b.smallest, b.largest);
      assert b !in ins;
      assert Tag(b.smallest) < Tag(l);
    }
  }

  /** And such a file may be there, since no boundary files are added to the inputs from the next level. */
  lemma BoundaryOfNextIsLeft() returns (level: seq<File>, next: seq<File>, in1: seq<File>)
    ensures LevelOk(level) && LevelOk(next) && Picked(false, level, level) && NoBoundary(level, level)
    ensures TargetTaken(next, level, in1) && !OlderTaken(next, in1)
  {
    var a, b, c, d := Entry(0, 4, TypeValue, "new"), Entry(0, 1, TypeValue, "old"),
      Entry(1, 3, TypeDeletion, ""), Entry(1, 2, TypeValue, "deleted");
    var x, y, z := File(3, a, a, {a}), File(1, b, c, {b, c}), File(2, d, d, {d});
    level, next, in1 := [x], [y, z], [y];
    SingleIsWhole(x);
    TwoFiles(y, z);
    FirstOverlaps(y, z, 0, 0);
    TargetOfOne(x, next);
    LeftBehind(y, z, c, d);
  }

  lemma TwoFiles(y: File, z: File)
    requires ValidFile(y) && ValidFile(z) && Before(y.largest, z.smallest)
    ensures LevelOk([y, z])
  {
  }

  lemma TargetOfOne(x: File, next: seq<File>)
    ensures TargetTaken(next, [x], Overlapping(next, x.smallest.key, x.largest.key))
  {
    assert x in [x];
    assert TakenBetween(next, [x], Overlapping(next, x.smallest.key, x.largest.key), x.smallest, x.largest);
  }

  lemma SingleIsWhole(x: File)
    requires ValidFile(x)
    ensures LevelOk([x]) && Picked(false, [x], [x]) && NoBoundary([x], [x])
  {
    assert IsStretch([x], [x], 0, 1);
    forall l, f | IsLargest(l, [x]) && f in [x]
      ensures !IsBoundary(f, l)
    {
      assert x in [x] && l == x.largest;
    }
  }

  lemma FirstOverlaps(y: File, z: File, lo: UserKey, hi: UserKey)
    requires Overlaps(y, lo, hi) && !Overlaps(z, lo, hi)
    ensures Overlapping([y, z], lo, hi) == [y]
  {
    assert [y, z][..1] == [y] && [y][..0] == [];
    assert Overlapping([], lo, hi) == [] && Overlapping([y], lo, hi) == [] + [y];
  }

  lemma LeftBehind(y: File, z: File, c: Entry, d: Entry)
    requires y != z && c in y.entries && d in z.entries && c.key == d.key && Tag(d) < Tag(c)
    ensures !OlderTaken([y, z], [y])
  {
    assert y in [y] && z in [y, z] && z !in [y];
  }
}
