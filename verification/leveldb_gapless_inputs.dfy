/** The inputs of automatic compactions leave no gap, so that with them alone the levels stay in order. */
module GaplessInputs {
  import opened CompactionInputs
  import opened LevelRanges
  import opened MvccStore
  import opened VersionFiles

  function AsSet(files: seq<File>): set<File> {
    set f | f in files
  }

  ghost predicate AllValid(files: set<File>) {
    forall f :: f in files ==> ValidFile(f)
  }

  /** The user keys of the files go from `begin` to `end`. */
  ghost predicate IsKeyRange(files: set<File>, begin: UserKey, end: UserKey) {
    && (exists a :: a in files && a.smallest.key == begin)
    && (exists b :: b in files && b.largest.key == end)
    && forall f :: f in files ==> begin <= f.smallest.key && f.largest.key <= end
  }

  // ---------- Level 0 ----------

  /** A gap in front of [begin, end] would make a smaller range that encloses it, */
  lemma NoGapBefore(level: seq<File>, begin: UserKey, end: UserKey, over: seq<File>, lo: UserKey, hi: UserKey, f: File)
    requires OverlapsOf(true, level, begin, end, over, lo, hi) && ValidFiles(level) && ValidFile(f)
    requires f.largest.key < begin && exists a :: a in over && a.smallest.key <= f.largest.key
    ensures exists g :: g in over && Touches(f, g)
  {
    if forall g :: g in over ==> !Touches(f, g) {
      EnclosesBehind(level, begin, end, over, lo, hi, f);
    }
  }

  lemma EnclosesBehind(level: seq<File>, begin: UserKey, end: UserKey, over: seq<File>, lo: UserKey, hi: UserKey,
      f: File)
    requires over == Overlapping(level, lo, hi) && Encloses(level, begin, end, lo, hi)
    requires ValidFiles(level) && ValidFile(f) && lo <= f.largest.key < begin
    requires forall g :: g in over ==> !Touches(f, g)
    ensures Encloses(level, begin, end, f.largest.key + 1, hi)
  {
    forall g | g in Overlapping(level, f.largest.key + 1, hi)
      ensures f.largest.key + 1 <= g.smallest.key && g.largest.key <= hi
    {
      assert g in over;
    }
  }

  /** and so would one behind it. */
  lemma NoGapBehind(level: seq<File>, begin: UserKey, end: UserKey, over: seq<File>, lo: UserKey, hi: UserKey, f: File)
    requires OverlapsOf(true, level, begin, end, over, lo, hi) && ValidFiles(level) && ValidFile(f)
    requires end < f.smallest.key && exists b :: b in over && f.smallest.key <= b.largest.key
    ensures exists g :: g in over && Touches(f, g)
  {
    if forall g :: g in over ==> !Touches(f, g) {
      EnclosesBefore(level, begin, end, over, lo, hi, f);
    }
  }

  lemma EnclosesBefore(level: seq<File>, begin: UserKey, end: UserKey, over: seq<File>, lo: UserKey, hi: UserKey,
      f: File)
    requires over == Overlapping(level, lo, hi) && Encloses(level, begin, end, lo, hi)
    requires ValidFiles(level) && ValidFile(f) && end < f.smallest.key <= hi
    requires forall g :: g in over ==> !Touches(f, g)
    ensures Encloses(level, begin, end, lo, f.smallest.key - 1)
  {
    forall g | g in Overlapping(level, lo, f.smallest.key - 1)
      ensures lo <= g.smallest.key && g.largest.key <= f.smallest.key - 1
    {
      assert g in over;
    }
  }

  /** The files of the least range that encloses files without gaps add none. */
  lemma LeastRangeIsCovered(level: seq<File>, ins: set<File>, begin: UserKey, end: UserKey, over: seq<File>,
      lo: UserKey, hi: UserKey)
    requires Covered(ins) && IsKeyRange(ins, begin, end)
    requires ValidFiles(level) && OverlapsOf(true, level, begin, end, over, lo, hi)
    ensures Covered(ins + AsSet(over))
  {
    forall f | ValidFile(f) && Spanned(f, ins + AsSet(over))
      ensures exists g :: g in ins + AsSet(over) && Touches(f, g)
    {
      if f.largest.key < begin {
        NoGapBefore(level, begin, end, over, lo, hi, f);
        var g :| g in over && Touches(f, g);
        assert g in ins + AsSet(over);
      } else if end < f.smallest.key {
        NoGapBehind(level, begin, end, over, lo, hi, f);
        var g :| g in over && Touches(f, g);
        assert g in ins + AsSet(over);
      } else {
        assert Spanned(f, ins);
        var g :| g in ins && Touches(f, g);
        assert g in ins + AsSet(over);
      }
    }
  }

  // ---------- The other inputs ----------

  /** From the next level exactly the files in the range of the inputs are taken. */
  lemma TargetIsSpanned(next: seq<File>, in0: seq<File>, in1: seq<File>, g: File)
    requires TargetTaken(next, in0, in1)
    ensures g in in1 <==> g in next && Spanned(g, AsSet(in0))
  {
    var s, l :| TakenBetween(next, in0, in1, s, l);
    var a :| a in in0 && a.smallest == s;
    var b :| b in in0 && b.largest == l;
    assert a in AsSet(in0) && b in AsSet(in0);
  }

  lemma BoundaryIsSpanned(f: File, ins: seq<File>)
    requires GoesOn(f, ins) && ValidFile(f) && forall x :: x in ins ==> ValidFile(x)
    ensures Spanned(f, AsSet(ins))
  {
    var l :| IsLargest(l, ins) && IsBoundary(f, l);
    var x :| x in ins && x.largest == l;
    assert x in AsSet(ins) && ValidFile(x);
  }

  lemma SpannedByMore(f: File, few: set<File>, many: set<File>)
    requires few <= many && Spanned(f, few)
    ensures Spanned(f, many)
  {
    var a :| a in few && a.smallest.key <= f.largest.key;
    var b :| b in few && f.smallest.key <= b.largest.key;
    assert a in many && b in many;
  }

  lemma OneMoreIsCovered(ins: set<File>, f: File)
    requires Covered(ins) && AllValid(ins) && ValidFile(f) && Spanned(f, ins)
    ensures Covered(ins + {f})
  {
    MoreAreCovered(ins, {f});
  }

  lemma OneBoundaryIsCovered(ins: set<File>, before: seq<File>, f: File)
    requires Covered(ins + AsSet(before)) && GoesOn(f, before)
    requires AllValid(ins) && ValidFiles(before) && ValidFile(f)
    ensures Covered(ins + AsSet(before + [f]))
  {
    BoundaryIsSpanned(f, before);
    SpannedByMore(f, AsSet(before), ins + AsSet(before));
    OneMoreIsCovered(ins + AsSet(before), f);
    OneMoreInSet(ins, before, f);
  }

  lemma OneMoreInSet(ins: set<File>, before: seq<File>, f: File)
    ensures ins + AsSet(before) + {f} == ins + AsSet(before + [f])
  {
  }

  lemma {:induction false} BoundaryIsCovered(ins: set<File>, p: seq<File>, r: seq<File>, k: nat)
    requires Covered(ins + AsSet(p)) && Chained(p, r) && |p| <= k <= |r|
    requires AllValid(ins) && ValidFiles(r)
    ensures Covered(ins + AsSet(r[..k]))
    decreases k
  {
    if k == |p| {
      assert r[..k] == p;
    } else {
      BoundaryIsCovered(ins, p, r, k - 1);
      NextBoundaryIsCovered(ins, p, r, k);
    }
  }

  lemma NextBoundaryIsCovered(ins: set<File>, p: seq<File>, r: seq<File>, k: nat)
    requires Chained(p, r) && |p| < k <= |r| && Covered(ins + AsSet(r[..k - 1]))
    requires AllValid(ins) && ValidFiles(r)
    ensures Covered(ins + AsSet(r[..k]))
  {
    assert r[..k] == r[..k - 1] + [r[k - 1]];
    OneBoundaryIsCovered(ins, r[..k - 1], r[k - 1]);
  }

  lemma AllBoundaryIsCovered(ins: set<File>, p: seq<File>, r: seq<File>)
    requires Covered(ins + AsSet(p)) && Chained(p, r) && AllValid(ins) && ValidFiles(r)
    ensures Covered(ins + AsSet(r))
  {
    BoundaryIsCovered(ins, p, r, |r|);
    assert r[..|r|] == r;
  }

  lemma TargetIsCovered(ins: set<File>, next: seq<File>, in0: seq<File>, in1: seq<File>)
    requires Covered(ins + AsSet(in0)) && TargetTaken(next, in0, in1)
    requires AllValid(ins) && ValidFiles(in0) && ValidFiles(next)
    ensures Covered(ins + AsSet(in0) + AsSet(in1))
  {
    forall g | g in in1
      ensures g in next && Spanned(g, ins + AsSet(in0))
    {
      TargetIsSpanned(next, in0, in1, g);
      SpannedByMore(g, AsSet(in0), ins + AsSet(in0));
    }
    MoreAreCovered(ins + AsSet(in0), AsSet(in1));
  }

  lemma RangeOfSeq(ins: seq<File>, s: Entry, l: Entry)
    requires IsSmallest(s, ins) && IsLargest(l, ins)
    ensures IsKeyRange(AsSet(ins), s.key, l.key)
  {
    var a :| a in ins && a.smallest == s;
    var b :| b in ins && b.largest == l;
    assert a in AsSet(ins) && b in AsSet(ins);
  }

  /** The files of the level in the range of all inputs. */
  lemma OverRangeIsCovered(level0: bool, level: seq<File>, ins: seq<File>, over: seq<File>)
    requires Covered(AsSet(ins)) && OverRange(level0, level, ins, over) && ValidFiles(level) && ValidFiles(ins)
    ensures Covered(AsSet(ins) + AsSet(over))
  {
    var s, l, lo, hi :|
      IsSmallest(s, ins) && IsLargest(l, ins) && OverlapsOf(level0, level, s.key, l.key, over, lo, hi);
    RangeOfSeq(ins, s, l);
    if level0 {
      LeastRangeIsCovered(level, AsSet(ins), s.key, l.key, over, lo, hi);
    } else {
      MoreAreCovered(AsSet(ins), AsSet(over));
    }
  }

  lemma OverRangeKeeps(level0: bool, level: seq<File>, ins: seq<File>, over: seq<File>, f: File)
    requires OverRange(level0, level, ins, over) && f in ins && f in level && ValidFile(f)
    ensures f in over
  {
    var s, l, lo, hi :|
      IsSmallest(s, ins) && IsLargest(l, ins) && OverlapsOf(level0, level, s.key, l.key, over, lo, hi);
  }

  lemma ExpandedIsCovered(level0: bool, level: seq<File>, ins: seq<File>, in0: seq<File>)
    requires Covered(AsSet(ins)) && IsExpanded(level0, level, ins, in0) && ValidFiles(level) && ValidFiles(ins)
    ensures Covered(AsSet(ins) + AsSet(in0))
    ensures forall f :: f in ins && f in level ==> f in in0
  {
    var over :| OverRange(level0, level, ins, over) && WithBoundary(level0, level, over, in0);
    OverRangeIsCovered(level0, level, ins, over);
    forall f | f in ins && f in level ensures f in in0 { OverRangeKeeps(level0, level, ins, over, f); }
    AllBoundaryIsCovered(AsSet(ins), over, in0);
  }

  /** Inputs with boundary files, and the files of the next level. */
  lemma FewAreCovered(level0: bool, level: seq<File>, next: seq<File>, picked: seq<File>, few0: seq<File>,
      few1: seq<File>)
    requires Covered(AsSet(picked)) && WithBoundary(level0, level, picked, few0) && TargetTaken(next, few0, few1)
    requires ValidFiles(level) && ValidFiles(next)
    ensures Covered(AsSet(few0) + AsSet(few1)) && ValidFiles(few0)
  {
    assert {} + AsSet(picked) == AsSet(picked) && {} + AsSet(few0) == AsSet(few0);
    AllBoundaryIsCovered({}, picked, few0);
    TargetIsCovered({}, next, few0, few1);
  }

  /** All that SetupOtherInputs adds to inputs without gaps. */
  lemma SetupIsCovered(level0: bool, level: seq<File>, next: seq<File>, picked: seq<File>, mayGrow: bool,
      few0: seq<File>, few1: seq<File>, in0: seq<File>, in1: seq<File>)
    requires Covered(AsSet(picked)) && GrownFrom(level0, level, next, picked, mayGrow, few0, few1, in0, in1)
    requires ValidFiles(level) && ValidFiles(next)
    ensures Covered(AsSet(in0) + AsSet(in1))
  {
    FewAreCovered(level0, level, next, picked, few0, few1);
    if !(in0 == few0 && in1 == few1) {
      GrownIsCovered(level0, level, next, few0, few1, in0, in1);
    }
  }

  lemma GrownIsCovered(level0: bool, level: seq<File>, next: seq<File>, few0: seq<File>, few1: seq<File>,
      in0: seq<File>, in1: seq<File>)
    requires Covered(AsSet(few0) + AsSet(few1)) && ValidFiles(level) && ValidFiles(next)
    requires (forall f :: f in few0 ==> f in level) && TargetTaken(next, few0, few1)
    requires IsExpanded(level0, level, few0 + few1, in0) && TargetTaken(next, in0, in1)
    ensures Covered(AsSet(in0) + AsSet(in1))
  {
    var few := few0 + few1;
    SetOfBoth(few0, few1);
    forall f | f in few1 ensures f in next { TargetIsSpanned(next, few0, few1, f); }
    ExpandedIsCovered(level0, level, few, in0);
    ExpandedIsValid(level0, level, few, in0);
    TargetIsCovered(AsSet(few), next, in0, in1);
    AllAreKept(next, few0, few1, in0, in1);
    FewAreIn(few0, few1, in0, in1);
  }

  lemma SetOfBoth(a: seq<File>, b: seq<File>)
    ensures AsSet(a + b) == AsSet(a) + AsSet(b)
  {
  }

  lemma FewAreIn(few0: seq<File>, few1: seq<File>, in0: seq<File>, in1: seq<File>)
    requires (forall f :: f in few0 ==> f in in0) && (forall f :: f in few1 ==> f in in1)
    ensures AsSet(few0 + few1) + AsSet(in0) + AsSet(in1) == AsSet(in0) + AsSet(in1)
  {
  }

  lemma ExpandedIsValid(level0: bool, level: seq<File>, ins: seq<File>, in0: seq<File>)
    requires IsExpanded(level0, level, ins, in0) && ValidFiles(level)
    ensures ValidFiles(in0)
  {
  }

  lemma AllAreKept(next: seq<File>, few0: seq<File>, few1: seq<File>, in0: seq<File>, in1: seq<File>)
    requires TargetTaken(next, few0, few1) && TargetTaken(next, in0, in1) && forall f :: f in few0 ==> f in in0
    ensures forall f :: f in few1 ==> f in in1
  {
    forall f | f in few1
      ensures f in in1
    {
      TargetIsSpanned(next, few0, few1, f);
      SpannedByMore(f, AsSet(few0), AsSet(in0));
      TargetIsSpanned(next, in0, in1, f);
    }
  }

  lemma PickIsCovered(level0: bool, level: seq<File>, x: File, picked: seq<File>)
    requires PickedFrom(level0, level, x, picked) && ValidFiles(level)
    ensures Covered(AsSet(picked))
  {
    SingleIsCovered(x);
    assert x in {x} && ValidFile(x);
    if level0 {
      var lo, hi :| OverlapsOf(true, level, x.smallest.key, x.largest.key, picked, lo, hi);
      LeastRangeIsCovered(level, {x}, x.smallest.key, x.largest.key, picked, lo, hi);
      PickedInLevel0(level, x, picked);
      assert {x} + AsSet(picked) == AsSet(picked);
    } else {
      assert AsSet([x]) == {x};
    }
  }

  /** The inputs that PickCompaction and SetupOtherInputs choose leave no gap. */
  lemma AutomaticIsCovered(level0: bool, level: seq<File>, next: seq<File>, in0: seq<File>, in1: seq<File>)
    requires AutomaticInputs(level0, level, next, in0, in1) && ValidFiles(level) && ValidFiles(next)
    ensures Covered(AsSet(in0) + AsSet(in1))
  {
    var x, picked, mayGrow, few0, few1 :|
      AutomaticFrom(level0, level, next, x, picked, mayGrow, few0, few1, in0, in1);
    PickIsCovered(level0, level, x, picked);
    SetupIsCovered(level0, level, next, picked, mayGrow, few0, few1, in0, in1);
  }

  // ---------- Runs ----------

  /** The compaction starts with such inputs, of the files the two levels have, in whatever order. */
  ghost predicate IsAutomatic(s: State, j: Job) {
    exists level, next, in0, in1 :: FromFiles(s, j, level, next, in0, in1)
  }

  ghost predicate FromFiles(s: State, j: Job, level: seq<File>, next: seq<File>, in0: seq<File>, in1: seq<File>) {
    && j.level + 1 < |s.levels| && AsSet(level) == s.levels[j.level] && AsSet(next) == s.levels[j.level + 1]
    && AutomaticInputs(j.level == 0, level, next, in0, in1)
    && j.in0 == AsSet(in0)
  }

  ghost predicate NoManual(states: seq<State>) {
    forall i :: 0 <= i < |states| - 1 && states[i].job.None? && states[i + 1].job.Some? ==>
      IsAutomatic(states[i], states[i + 1].job.value)
  }

  lemma TargetOfSet(next: seq<File>, in0: seq<File>, in1: seq<File>, files: set<File>)
    requires TargetTaken(next, in0, in1) && AsSet(next) == files
    ensures AsSet(in1) == set g | g in files && Spanned(g, AsSet(in0))
  {
    forall g
      ensures g in AsSet(in1) <==> g in files && Spanned(g, AsSet(in0))
    {
      TargetIsSpanned(next, in0, in1, g);
      assert g in files <==> g in next;
    }
  }

  lemma FromFilesIsCovered(s: State, j: Job, level: seq<File>, next: seq<File>, in0: seq<File>, in1: seq<File>)
    requires AllFilesValid(s) && FromFiles(s, j, level, next, in0, in1)
    ensures Covered(AsSet(in0) + AsSet(in1)) && TargetTaken(next, in0, in1)
  {
    assert ValidFiles(level) by {
      forall f | f in level ensures ValidFile(f) { assert f in AsSet(level); }
    }
    assert ValidFiles(next) by {
      forall f | f in next ensures ValidFile(f) { assert f in AsSet(next); }
    }
    AutomaticIsCovered(j.level == 0, level, next, in0, in1);
  }

  lemma InputsFromFiles(s: State, j: Job, level: seq<File>, next: seq<File>, in0: seq<File>, in1: seq<File>)
    requires AllFilesValid(s) && FromFiles(s, j, level, next, in0, in1)
    requires j.in1 == set g | g in s.levels[j.level + 1] && Spanned(g, j.in0)
    ensures Covered(Inputs(j))
  {
    FromFilesIsCovered(s, j, level, next, in0, in1);
    TargetOfSet(next, in0, in1, s.levels[j.level + 1]);
    assert Inputs(j) == AsSet(in0) + AsSet(in1);
  }

  lemma StartIsCovered(s: State, j: Job)
    requires AllFilesValid(s) && IsAutomatic(s, j) && j.level + 1 < |s.levels|
    requires j.in1 == set g | g in s.levels[j.level + 1] && Spanned(g, j.in0)
    ensures Covered(Inputs(j))
  {
    var level, next, in0, in1 :| FromFiles(s, j, level, next, in0, in1);
    InputsFromFiles(s, j, level, next, in0, in1);
  }

  lemma {:induction false} AllCovered(states: seq<State>, n: nat)
    requires Run(states) && NoManual(states) && n < |states| && states[n].job.Some?
    ensures Covered(Inputs(states[n].job.value))
  {
    var i := n - 1;
    assert Step(states[i], states[i + 1]);
    if states[i].job.Some? {
      AllCovered(states, i);
      assert states[n].job == states[i].job;
    } else {
      var level: nat, in0 :| Start(states[i], states[n], level, in0);
      JobOkAlong(states, i);
      StartIsCovered(states[i], states[n].job.value);
    }
  }

  /** Over all runs without manual compactions no flush goes between inputs, and in every state the files of each level
      from 1 on are disjoint and stay so. */
  lemma WithoutManualCompactions(states: seq<State>)
    requires Run(states) && NoManual(states)
    ensures NoGapFlush(states)
    ensures forall i :: 0 <= i < |states| ==> FilesOk(states[i]) && !MayOverlap(states[i])
  {
    forall i | 0 <= i < |states| && states[i].job.Some?
      ensures Covered(Inputs(states[i].job.value))
    {
      AllCovered(states, i);
    }
    forall i | 0 <= i < |states|
      ensures FilesOk(states[i]) && !MayOverlap(states[i])
    {
      CoveredKeepsInv(states, i);
      InvIff(states[i]);
    }
    LevelsStayDisjoint(states);
  }
}
