/** The key ranges of the files of a level: flushes and compactions, and when they stay disjoint. */
module LevelRanges {
  import opened MvccStore
  import opened VersionFiles
  import opened Wrappers

  const NUM_LEVELS := 7
  const MAX_MEM_COMPACT_LEVEL := 2

  /** A running compaction of `level`. */
  datatype Job = Job(level: nat, in0: set<File>, in1: set<File>)

  datatype State = State(levels: seq<set<File>>, job: Option<Job>)

  ghost predicate Apart(f: File, g: File) {
    Before(f.largest, g.smallest) || Before(g.largest, f.smallest)
  }

  ghost predicate Disjoint(files: set<File>) {
    forall f, g :: f in files && g in files && f != g ==> Apart(f, g)
  }

  /** The files may have a user key in common. */
  predicate Touches(f: File, g: File) {
    Overlaps(f, g.smallest.key, g.largest.key)
  }

  /** In user keys, `f` reaches into the range of all the inputs. */
  ghost predicate Spanned(f: File, ins: set<File>) {
    && (exists a :: a in ins && a.smallest.key <= f.largest.key)
    && (exists b :: b in ins && f.smallest.key <= b.largest.key)
  }

  /** The same in internal keys. */
  ghost predicate Crossed(f: File, ins: set<File>) {
    && (exists a :: a in ins && !Before(f.largest, a.smallest))
    && (exists b :: b in ins && !Before(b.largest, f.smallest))
  }

  ghost function Inputs(j: Job): set<File> {
    j.in0 + j.in1
  }

  // ---------- Steps ----------

  ghost predicate Init(s: State) {
    s == State(seq(NUM_LEVELS, _ => {}), None)
  }

  ghost predicate Fresh(s: State, f: File) {
    ValidFile(f) && forall l :: 0 <= l < |s.levels| ==> f !in s.levels[l]
  }

  /** A memtable becomes a file of level `t` (PickLevelForMemTableOutput): above 0 only if no file down to there has a
      user key in its range.  Also while a compaction is running. */
  ghost predicate Flush(s: State, s': State, f: File, t: nat) {
    && |s.levels| == NUM_LEVELS && t <= MAX_MEM_COMPACT_LEVEL && Fresh(s, f)
    && (t > 0 ==> forall l, g :: 0 <= l <= t && g in s.levels[l] ==> !Touches(f, g))
    && s' == s.(levels := s.levels[t := s.levels[t] + {f}])
  }

  /** A compaction of some files of a level, and of all in the next one in the range of these. */
  ghost predicate Start(s: State, s': State, level: nat, in0: set<File>) {
    && s.job.None? && level + 1 < NUM_LEVELS == |s.levels| && in0 != {} && in0 <= s.levels[level]
    && s' == s.(job := Some(Job(level, in0, set g | g in s.levels[level + 1] && Spanned(g, in0))))
  }

  /** Output files hold entries of the inputs, */
  ghost predicate MadeOf(o: File, ins: set<File>) {
    forall e :: e in o.entries ==> exists x :: x in ins && e in x.entries
  }

  /** and so are within their range. */
  ghost predicate Within(o: File, ins: set<File>) {
    && (exists a :: a in ins && !Before(o.smallest, a.smallest))
    && (exists b :: b in ins && !Before(b.largest, o.largest))
  }

  lemma MadeOfIsWithin(o: File, ins: set<File>)
    requires ValidFile(o) && MadeOf(o, ins) && forall x :: x in ins ==> ValidFile(x)
    ensures Within(o, ins)
  {
    var a :| a in ins && o.smallest in a.entries;
    var b :| b in ins && o.largest in b.entries;
    assert ValidFile(a) && ValidFile(b);
  }

  ghost predicate Outputs(s: State, outs: set<File>, j: Job) {
    Disjoint(outs) && forall o :: o in outs ==> Fresh(s, o) && MadeOf(o, Inputs(j))
  }

  ghost predicate Finish(s: State, s': State, outs: set<File>) {
    && |s.levels| == NUM_LEVELS && s.job.Some? && s.job.value.level + 1 < NUM_LEVELS
    && var j := s.job.value;
    && Outputs(s, outs, j)
    && s' == s.(levels := s.levels[j.level := s.levels[j.level] - j.in0]
                                  [j.level + 1 := s.levels[j.level + 1] - j.in1 + outs], job := None)
  }

  /** The trivial move of a file with nothing in its range in the next level. */
  ghost predicate Move(s: State, s': State, level: nat, f: File) {
    && s.job.None? && level + 1 < NUM_LEVELS == |s.levels| && f in s.levels[level]
    && (forall g :: g in s.levels[level + 1] ==> !Spanned(g, {f}))
    && s' == s.(levels := s.levels[level := s.levels[level] - {f}][level + 1 := s.levels[level + 1] + {f}])
  }

  ghost predicate Abandon(s: State, s': State) {
    s.job.Some? && s' == s.(job := None)
  }

  ghost predicate Step(s: State, s': State) {
    || (exists f, t: nat :: Flush(s, s', f, t))
    || (exists level: nat, in0 :: Start(s, s', level, in0))
    || (exists outs :: Finish(s, s', outs))
    || (exists level: nat, f :: Move(s, s', level, f))
    || Abandon(s, s')
  }

  // ---------- Invariant ----------

  ghost predicate FilesOk(s: State) {
    && AllFilesValid(s)
    && (forall l :: 1 <= l < NUM_LEVELS ==> Disjoint(s.levels[l]))
  }

  ghost predicate AllFilesValid(s: State) {
    |s.levels| == NUM_LEVELS && forall l, f :: 0 <= l < NUM_LEVELS && f in s.levels[l] ==> ValidFile(f)
  }

  ghost predicate JobOk(s: State) {
    s.job.Some? ==>
      var j := s.job.value;
      && j.level + 1 < |s.levels| && j.in0 <= s.levels[j.level] && j.in1 <= s.levels[j.level + 1]
  }

  /** The levels are in order, and nothing stands in the way of the outputs. */
  ghost predicate Inv(s: State) {
    && FilesOk(s) && JobOk(s)
    && (s.job.Some? ==>
      forall g :: g in s.levels[s.job.value.level + 1] - s.job.value.in1 ==> !Crossed(g, Inputs(s.job.value)))
  }

  /** What is outside the range of the files picked from a level is outside that of all inputs. */
  lemma OutsideOfAll(in0: set<File>, in1: set<File>, next: set<File>, g: File)
    requires (forall f :: f in in0 + next ==> ValidFile(f)) && Disjoint(next) && in0 != {}
    requires in1 == (set f | f in next && Spanned(f, in0)) && g in next - in1
    ensures !Crossed(g, in0 + in1)
  {
    var x :| x in in0;
    if exists a :: a in in0 && a.smallest.key <= g.largest.key {
      forall b | b in in0 + in1
        ensures Before(b.largest, g.smallest)
      {
        if b in in1 { AboveInput(in0, b, g); }
      }
    } else {
      forall a | a in in0 + in1
        ensures Before(g.largest, a.smallest)
      {
        if a in in1 { BelowInput(in0, a, g); }
      }
    }
  }

  lemma AboveInput(in0: set<File>, b: File, g: File)
    requires ValidFile(b) && ValidFile(g) && Apart(b, g) && Spanned(b, in0)
    requires forall a :: a in in0 ==> ValidFile(a) && a.largest.key < g.smallest.key
    ensures Before(b.largest, g.smallest)
  {
  }

  lemma BelowInput(in0: set<File>, a: File, g: File)
    requires ValidFile(a) && ValidFile(g) && Apart(a, g) && Spanned(a, in0)
    requires forall b :: b in in0 ==> ValidFile(b) && g.largest.key < b.smallest.key
    ensures Before(g.largest, a.smallest)
  {
  }

  lemma StartKeeps(s: State, s': State, level: nat, in0: set<File>)
    requires Inv(s) && Start(s, s', level, in0)
    ensures Inv(s')
  {
    var next, in1 := s.levels[level + 1], s'.job.value.in1;
    forall g | g in next - in1
      ensures !Crossed(g, in0 + in1)
    {
      OutsideOfAll(in0, in1, next, g);
    }
  }

  lemma AddApart(files: set<File>, f: File)
    requires Disjoint(files) && forall g :: g in files ==> Apart(f, g)
    ensures Disjoint(files + {f})
  {
  }

  /** A flush into the range of the inputs, in the output level. */
  ghost predicate FlushInGap(s: State, f: File, t: nat) {
    s.job.Some? && t == s.job.value.level + 1 && Crossed(f, Inputs(s.job.value))
  }

  lemma FlushKeeps(s: State, s': State, f: File, t: nat)
    requires Inv(s) && Flush(s, s', f, t) && !FlushInGap(s, f, t)
    ensures Inv(s')
  {
    FlushKeepsFiles(s, s', f, t);
  }

  lemma FlushKeepsFiles(s: State, s': State, f: File, t: nat)
    requires FilesOk(s) && JobOk(s) && Flush(s, s', f, t)
    ensures FilesOk(s') && JobOk(s')
  {
    if t > 0 {
      forall g | g in s.levels[t]
        ensures Apart(f, g)
      {
        assert !Touches(f, g);
      }
      AddApart(s.levels[t], f);
    }
  }

  /** Installing the outputs: the level stays in order exactly if no output overlaps a file that is not an input. */
  lemma FinishIff(s: State, s': State, outs: set<File>)
    requires FilesOk(s) && JobOk(s) && Finish(s, s', outs)
    ensures var j := s.job.value;
      FilesOk(s') <==> forall o, g :: o in outs && g in s.levels[j.level + 1] - j.in1 ==> Apart(o, g)
  {
    var j := s.job.value;
    var kept := s.levels[j.level + 1] - j.in1;
    assert forall l :: 0 <= l < NUM_LEVELS && l != j.level && l != j.level + 1 ==> s'.levels[l] == s.levels[l];
    if forall o, g :: o in outs && g in kept ==> Apart(o, g) {
      assert Disjoint(kept + outs);
    } else {
      var o, g :| o in outs && g in kept && !Apart(o, g);
      assert o in s'.levels[j.level + 1] && g in s'.levels[j.level + 1] && o != g;
    }
  }

  lemma FinishKeeps(s: State, s': State, outs: set<File>)
    requires Inv(s) && Finish(s, s', outs)
    ensures Inv(s')
  {
    var j := s.job.value;
    forall o, g | o in outs && g in s.levels[j.level + 1] - j.in1
      ensures Apart(o, g)
    {
      MadeOfIsWithin(o, Inputs(j));
      OutputIsApart(o, g, Inputs(j));
    }
    FinishIff(s, s', outs);
  }

  lemma OutputIsApart(o: File, g: File, ins: set<File>)
    requires ValidFile(o) && ValidFile(g) && Within(o, ins) && !Crossed(g, ins)
    ensures Apart(o, g)
  {
    var a :| a in ins && !Before(o.smallest, a.smallest);
    var b :| b in ins && !Before(b.largest, o.largest);
    Order(a.smallest, o.smallest, g.largest);
    Order(g.smallest, o.largest, b.largest);
  }

  // ---------- When the levels can get out of order ----------

  /** Some outputs of the running compaction leave two files of a level overlapping. */
  ghost predicate MayOverlap(s: State) {
    exists s', outs :: Finish(s, s', outs) && !FilesOk(s')
  }

  /** A file of the output level that is no input reaches into the range of all the inputs. */
  ghost predicate InTheWay(s: State, g: File)
    requires s.job.Some? && s.job.value.level + 1 < |s.levels|
  {
    g in s.levels[s.job.value.level + 1] - s.job.value.in1 && Crossed(g, Inputs(s.job.value))
  }

  lemma FreshNumber(files: set<File>) returns (n: nat)
    ensures forall f :: f in files ==> f.number < n
    decreases files
  {
    if files == {} {
      n := 0;
    } else {
      var f :| f in files;
      var m := FreshNumber(files - {f});
      n := if f.number < m then m else f.number + 1;
      assert forall g :: g in files ==> g == f || g in files - {f};
    }
  }

  /** An output within the range of the inputs that overlaps `g`. */
  lemma OverlappingOutput(g: File, ins: set<File>, number: nat) returns (o: File)
    requires ValidFile(g) && Crossed(g, ins) && forall f :: f in ins ==> ValidFile(f)
    ensures ValidFile(o) && o.number == number && MadeOf(o, ins) && !Apart(o, g)
  {
    var a :| a in ins && !Before(g.largest, a.smallest);
    var b :| b in ins && !Before(b.largest, g.smallest);
    o := if Before(b.largest, a.smallest) then Table(number, b.smallest, a.largest)
         else Table(number, a.smallest, b.largest);
    assert ValidFile(a) && ValidFile(b);
    if Before(b.largest, a.smallest) { WrongWayRound(a, b, g); }
  }

  lemma WrongWayRound(a: File, b: File, g: File)
    requires ValidFile(a) && ValidFile(b) && Before(b.largest, a.smallest)
    requires !Before(g.largest, a.smallest) && !Before(b.largest, g.smallest)
    ensures !Before(a.largest, b.smallest) && !Before(a.largest, g.smallest) && !Before(g.largest, b.smallest)
  {
    Order(b.smallest, b.largest, a.smallest);
    Order(b.smallest, a.smallest, a.largest);
    Order(g.smallest, b.largest, a.smallest);
    Order(g.smallest, a.smallest, a.largest);
    Order(b.smallest, a.smallest, g.largest);
  }

  lemma FinishWith(s: State, o: File) returns (s': State)
    requires FilesOk(s) && JobOk(s) && s.job.Some? && Fresh(s, o) && MadeOf(o, Inputs(s.job.value))
    ensures Finish(s, s', {o})
  {
    var j := s.job.value;
    s' := s.(levels := s.levels[j.level := s.levels[j.level] - j.in0]
                               [j.level + 1 := s.levels[j.level + 1] - j.in1 + {o}], job := None);
    assert Outputs(s, {o}, j);
  }

  lemma OverlapMeansInTheWay(s: State, s': State, outs: set<File>) returns (g: File)
    requires FilesOk(s) && JobOk(s) && Finish(s, s', outs) && !FilesOk(s')
    ensures InTheWay(s, g)
  {
    FinishIff(s, s', outs);
    var j := s.job.value;
    var o: File;
    o, g :| o in outs && g in s.levels[j.level + 1] - j.in1 && !Apart(o, g);
    MadeOfIsWithin(o, Inputs(j));
    if !Crossed(g, Inputs(j)) { OutputIsApart(o, g, Inputs(j)); }
  }

  lemma InTheWayOverlaps(s: State, g: File)
    requires FilesOk(s) && JobOk(s) && s.job.Some? && InTheWay(s, g)
    ensures MayOverlap(s)
  {
    var number := FreshNumber(set l, f | 0 <= l < |s.levels| && f in s.levels[l] :: f);
    var o := OverlappingOutput(g, Inputs(s.job.value), number);
    assert Fresh(s, o);
    var s' := FinishWith(s, o);
    FinishIff(s, s', {o});
    assert o in {o};
  }

  /** The running compaction may leave files overlapping exactly if a file of its output level is in the way. */
  lemma MayOverlapIff(s: State)
    requires FilesOk(s) && JobOk(s) && s.job.Some?
    ensures MayOverlap(s) <==> exists g :: InTheWay(s, g)
  {
    if s', outs :| Finish(s, s', outs) && !FilesOk(s') {
      var g := OverlapMeansInTheWay(s, s', outs);
    }
    if g :| InTheWay(s, g) {
      InTheWayOverlaps(s, g);
    }
  }

  /** Known before the flush: it makes an overlap possible exactly if it goes into the range of the inputs. */
  lemma FlushInGapIff(s: State, s': State, f: File, t: nat)
    requires Inv(s) && Flush(s, s', f, t) && s.job.Some?
    ensures FlushInGap(s, f, t) <==> MayOverlap(s')
  {
    FlushKeepsFiles(s, s', f, t);
    MayOverlapIff(s');
    var o := s.job.value.level + 1;
    if FlushInGap(s, f, t) {
      assert InTheWay(s', f);
    }
    if g :| InTheWay(s', g) {
      assert g in s.levels[o] || (t == o && g == f);
    }
  }

  /** The levels are in order, and stay so whatever the running compaction writes, exactly in states of the
      invariant. */
  lemma InvIff(s: State)
    requires JobOk(s)
    ensures Inv(s) <==> FilesOk(s) && !MayOverlap(s)
  {
    if FilesOk(s) && s.job.Some? {
      MayOverlapIff(s);
      assert forall g :: g in s.levels[s.job.value.level + 1] - s.job.value.in1 ==>
        (InTheWay(s, g) <==> Crossed(g, Inputs(s.job.value)));
    }
  }

  lemma MoveKeeps(s: State, s': State, level: nat, f: File)
    requires Inv(s) && Move(s, s', level, f)
    ensures Inv(s')
  {
    forall g | g in s.levels[level + 1]
      ensures Apart(f, g)
    {
      assert f in {f} && !Spanned(g, {f});
    }
    AddApart(s.levels[level + 1], f);
  }

  lemma StepKeeps(s: State, s': State)
    requires Inv(s) && Step(s, s')
    requires forall f, t: nat :: Flush(s, s', f, t) ==> !FlushInGap(s, f, t)
    ensures Inv(s')
  {
    if f, t: nat :| Flush(s, s', f, t) {
      FlushKeeps(s, s', f, t);
    } else if level: nat, in0 :| Start(s, s', level, in0) {
      StartKeeps(s, s', level, in0);
    } else if outs :| Finish(s, s', outs) {
      FinishKeeps(s, s', outs);
    } else if level: nat, f :| Move(s, s', level, f) {
      MoveKeeps(s, s', level, f);
    }
  }

  ghost predicate Run(states: seq<State>) {
    states != [] && Init(states[0]) && forall i :: 0 <= i < |states| - 1 ==> Step(states[i], states[i + 1])
  }

  /** No flush goes into a gap between the inputs of a compaction that is running. */
  ghost predicate NoGapFlush(states: seq<State>) {
    forall i, f, t: nat :: 0 <= i < |states| - 1 && Flush(states[i], states[i + 1], f, t) ==>
      !FlushInGap(states[i], f, t)
  }

  lemma {:induction false} NoGapKeepsInv(states: seq<State>, n: nat)
    requires Run(states) && NoGapFlush(states) && n < |states|
    ensures Inv(states[n])
  {
    if n > 0 {
      var i := n - 1;
      NoGapKeepsInv(states, i);
      assert Step(states[i], states[i + 1]);
      StepKeeps(states[i], states[i + 1]);
    }
  }

  lemma {:induction false} JobOkAlong(states: seq<State>, n: nat)
    requires Run(states) && n < |states|
    ensures AllFilesValid(states[n]) && JobOk(states[n])
  {
    if n > 0 {
      var i := n - 1;
      JobOkAlong(states, i);
      assert Step(states[i], states[i + 1]);
    }
  }

  /** Over all runs: in every state the files of each level from 1 on are disjoint, and stay so whatever the running
      compaction writes, if and only if no flush goes into the range of the inputs of a running compaction. */
  lemma LevelsStayDisjoint(states: seq<State>)
    requires Run(states)
    ensures NoGapFlush(states) <==> forall i :: 0 <= i < |states| ==> FilesOk(states[i]) && !MayOverlap(states[i])
  {
    forall i | 0 <= i < |states|
      ensures NoGapFlush(states) ==> FilesOk(states[i]) && !MayOverlap(states[i])
    {
      JobOkAlong(states, i);
      if NoGapFlush(states) { NoGapKeepsInv(states, i); }
      InvIff(states[i]);
    }
    if i, f, t: nat :| 0 <= i < |states| - 1 && Flush(states[i], states[i + 1], f, t) && FlushInGap(states[i], f, t) {
      JobOkAlong(states, i);
      InvIff(states[i]);
      if Inv(states[i]) { FlushInGapIff(states[i], states[i + 1], f, t); }
    }
  }

  // ---------- No file twice ----------

  ghost predicate OneLevelEach(s: State) {
    forall k, l :: 0 <= k < l < |s.levels| ==> s.levels[k] !! s.levels[l]
  }

  lemma StepKeepsFilesApart(s: State, s': State)
    requires OneLevelEach(s) && JobOk(s) && Step(s, s')
    ensures OneLevelEach(s')
  {
    if outs :| Finish(s, s', outs) {
      FinishMoves(s, s', outs);
    } else if level: nat, f :| Move(s, s', level, f) {
      MoveMoves(s, s', level, f);
    }
  }

  /** The inputs of a compaction are in no level any more, all other files are where they were, and the outputs are in
      its output level. */
  lemma FinishMoves(s: State, s': State, outs: set<File>)
    requires OneLevelEach(s) && JobOk(s) && Finish(s, s', outs)
    ensures OneLevelEach(s')
    ensures forall l, f :: 0 <= l < NUM_LEVELS ==>
      (f in s'.levels[l] <==>
        (f in s.levels[l] && f !in Inputs(s.job.value)) || (f in outs && l == s.job.value.level + 1))
  {
  }

  /** A trivial move takes a file to the next level, and leaves all others where they are. */
  lemma MoveMoves(s: State, s': State, level: nat, f: File)
    requires OneLevelEach(s) && Move(s, s', level, f)
    ensures OneLevelEach(s')
    ensures forall l, g :: 0 <= l < NUM_LEVELS ==>
      (g in s'.levels[l] <==> if g == f then l == level + 1 else g in s.levels[l])
  {
  }

  /** In every state of every run each file is in one level. */
  lemma {:induction false} FilesInOneLevel(states: seq<State>, n: nat)
    requires Run(states) && n < |states|
    ensures OneLevelEach(states[n])
  {
    if n > 0 {
      var i := n - 1;
      FilesInOneLevel(states, i);
      JobOkAlong(states, i);
      StepKeepsFilesApart(states[i], states[i + 1]);
    }
  }

  /** Any memtable may become a file of level 0. */
  lemma MayFlush(s: State, f: File)
    requires |s.levels| == 7 && Fresh(s, f)
    ensures exists s' :: Flush(s, s', f, 0)
  {
    assert Flush(s, s.(levels := s.levels[0 := s.levels[0] + {f}]), f, 0);
  }

  /** Any files of any level but the last may be compacted. */
  lemma MayStart(s: State, level: nat, in0: set<File>)
    requires |s.levels| == 7 && s.job.None? && level <= 5 && in0 != {} && in0 <= s.levels[level]
    ensures exists s' :: Start(s, s', level, in0)
  {
    var in1 := set g | g in s.levels[level + 1] && Spanned(g, in0);
    assert Start(s, s.(job := Some(Job(level, in0, in1))), level, in0);
  }

  // ---------- Compactions without gaps ----------

  /** Whatever reaches into the range of the files touches one of them. */
  ghost predicate Covered(ins: set<File>) {
    forall f {:trigger Spanned(f, ins)} :: ValidFile(f) && Spanned(f, ins) ==> exists g :: g in ins && Touches(f, g)
  }

  /** One file has no gap, */
  lemma SingleIsCovered(x: File)
    ensures Covered({x})
  {
    forall f | ValidFile(f) && Spanned(f, {x})
      ensures x in {x} && Touches(f, x)
    {
    }
  }

  /** and files in the range of others that have none add none. */
  lemma MoreAreCovered(ins: set<File>, more: set<File>)
    requires Covered(ins) && forall a :: a in ins + more ==> ValidFile(a)
    requires forall a :: a in more ==> Spanned(a, ins)
    ensures Covered(ins + more)
  {
    forall f | ValidFile(f) && Spanned(f, ins + more)
      ensures exists g :: g in ins + more && Touches(f, g)
    {
      if forall g :: g in more ==> !Touches(f, g) {
        SpannedWithout(f, ins, more);
        var g :| g in ins && Touches(f, g);
        assert g in ins + more;
      }
    }
  }

  /** What reaches into the range of all, and touches none of those added, reaches into that of the others. */
  lemma SpannedWithout(f: File, ins: set<File>, more: set<File>)
    requires Covered(ins) && ValidFile(f) && Spanned(f, ins + more)
    requires forall a :: a in ins + more ==> ValidFile(a)
    requires forall a :: a in more ==> Spanned(a, ins) && !Touches(f, a)
    ensures Spanned(f, ins)
  {
    var a :| a in ins + more && a.smallest.key <= f.largest.key;
    var b :| b in ins + more && f.smallest.key <= b.largest.key;
    var c := LowInput(f, ins, a);
    var d := HighInput(f, ins, b);
  }

  lemma LowInput(f: File, ins: set<File>, a: File) returns (c: File)
    requires Covered(ins) && ValidFile(f) && ValidFile(a) && a.smallest.key <= f.largest.key
    requires a in ins || (Spanned(a, ins) && !Touches(f, a))
    ensures c in ins && c.smallest.key <= f.largest.key
  {
    if a in ins { c := a; } else { c :| c in ins && Touches(a, c); }
  }

  lemma HighInput(f: File, ins: set<File>, b: File) returns (d: File)
    requires Covered(ins) && ValidFile(f) && ValidFile(b) && f.smallest.key <= b.largest.key
    requires b in ins || (Spanned(b, ins) && !Touches(f, b))
    ensures d in ins && f.smallest.key <= d.largest.key
  {
    if b in ins { d := b; } else { d :| d in ins && Touches(b, d); }
  }

  /** No memtable fits into the range of inputs without gaps. */
  lemma CoveredHasNoGap(s: State, s': State, f: File, t: nat)
    requires Inv(s) && Flush(s, s', f, t) && s.job.Some? && Covered(Inputs(s.job.value))
    ensures !FlushInGap(s, f, t)
  {
    if t == s.job.value.level + 1 {
      assert forall g :: g in Inputs(s.job.value) ==> !Touches(f, g);
      CrossedIsSpanned(f, Inputs(s.job.value));
    }
  }

  lemma CrossedIsSpanned(f: File, ins: set<File>)
    ensures Crossed(f, ins) ==> Spanned(f, ins)
  {
  }

  /** So as long as all inputs are without gaps the levels stay disjoint. */
  lemma {:induction false} CoveredKeepsInv(states: seq<State>, n: nat)
    requires Run(states) && n < |states|
    requires forall i :: 0 <= i < n && states[i].job.Some? ==> Covered(Inputs(states[i].job.value))
    ensures Inv(states[n])
  {
    if n > 0 {
      var i := n - 1;
      CoveredKeepsInv(states, i);
      assert Step(states[i], states[i + 1]);
      forall f, t: nat | Flush(states[i], states[n], f, t)
        ensures !FlushInGap(states[i], f, t)
      {
        if states[i].job.Some? { CoveredHasNoGap(states[i], states[n], f, t); }
      }
      StepKeeps(states[i], states[n]);
    }
  }

  // ---------- A run in which two files overlap ----------

  function Table(number: nat, lo: Entry, hi: Entry): File {
    File(number, lo, hi, {lo, hi})
  }

  function Put(k: UserKey, s: nat): Entry {
    Entry(k, s, TypeValue, "")
  }

  function A(): File { Table(1, Put(1, 1), Put(2, 1)) }

  function B(): File { Table(2, Put(9, 2), Put(10, 2)) }

  function Between(): File { Table(3, Put(5, 3), Put(6, 3)) }

  function Merged(): File { File(4, Put(1, 1), Put(10, 2), {Put(1, 1), Put(2, 1), Put(9, 2), Put(10, 2)}) }

  function Levels(level1: set<File>, level2: set<File>): seq<set<File>> {
    [{}, level1, level2, {}, {}, {}, {}]
  }

  /** Level 1 is compacted as a whole; meanwhile a memtable with keys between its files becomes a file of level 2. */
  function OverlapRun(): seq<State> {
    [ State(Levels({}, {}), None),
      State(Levels({A()}, {}), None),
      State(Levels({A(), B()}, {}), None),
      State(Levels({A(), B()}, {}), Some(Job(1, {A(), B()}, {}))),
      State(Levels({A(), B()}, {Between()}), Some(Job(1, {A(), B()}, {}))),
      State(Levels({}, {Between(), Merged()}), None)]
  }

  lemma FlushLevels(s: State, s': State, f: File, t: nat, l1: set<File>, l2: set<File>)
    requires s.levels == Levels(l1, l2) && 1 <= t <= 2 && ValidFile(f)
    requires forall g :: g in l1 + l2 ==> !Touches(f, g)
    requires s' == s.(levels := if t == 1 then Levels(l1 + {f}, l2) else Levels(l1, l2 + {f}))
    ensures Flush(s, s', f, t)
  {
    assert Touches(f, f);
  }

  lemma OverlapRunStarts()
    ensures var r := OverlapRun();
      Init(r[0]) && Flush(r[0], r[1], A(), 1) && Flush(r[1], r[2], B(), 1) && Start(r[2], r[3], 1, {A(), B()})
  {
    var r := OverlapRun();
    assert {} + {A()} == {A()} && {A()} + {B()} == {A(), B()};
    FlushLevels(r[0], r[1], A(), 1, {}, {});
    FlushLevels(r[1], r[2], B(), 1, {A()}, {});
    assert (set g | g in r[2].levels[2] && Spanned(g, {A(), B()})) == {};
  }

  lemma MergedIsMade()
    ensures Outputs(OverlapRun()[4], {Merged()}, Job(1, {A(), B()}, {}))
  {
    var ins := Inputs(Job(1, {A(), B()}, {}));
    assert A() in ins && B() in ins && Put(1, 1) in A().entries && Put(10, 2) in B().entries;
  }

  lemma GapFlush()
    ensures Flush(OverlapRun()[3], OverlapRun()[4], Between(), 2)
  {
    var r := OverlapRun();
    assert {} + {Between()} == {Between()};
    FlushLevels(r[3], r[4], Between(), 2, {A(), B()}, {});
  }

  lemma OverlapRunEnds()
    ensures Finish(OverlapRun()[4], OverlapRun()[5], {Merged()})
  {
    MergedIsMade();
    assert {A(), B()} - {A(), B()} == {} && {Between()} - {} + {Merged()} == {Between(), Merged()};
  }

  lemma NotFound()
    ensures var files := [Merged(), Between()];
      && IsNewest(EntriesOf(files), 5, 3, Put(5, 3))
      && LookIn(files, 5, 3) == Some(Merged()) && Put(5, 3) !in Merged().entries
  {
    var files := [Merged(), Between()];
    assert Between() in files && Put(5, 3) in Between().entries;
    assert Search(files, Put(5, 3), 0, 1) == 0;
  }

  lemma TwoInLevel()
    ensures var level := {Between(), Merged()};
      !Disjoint(level) && (set f | f in [Merged(), Between()]) == level && Before(Merged().smallest, Between().smallest)
  {
    assert Between() in {Between(), Merged()} && Merged() in {Between(), Merged()} && !Apart(Merged(), Between());
  }

  /** Then the new file of level 2 is not found any more: the search ends in the one around it. */
  lemma GapFlushLosesKey() returns (states: seq<State>, files: seq<File>)
    ensures Run(states) && |states[|states| - 1].levels| == NUM_LEVELS && |files| == 2
    ensures var level := states[|states| - 1].levels[2];
      !Disjoint(level) && (set f | f in files) == level && Before(files[0].smallest, files[1].smallest)
    ensures IsNewest(EntriesOf(files), 5, 3, Put(5, 3))
    ensures LookIn(files, 5, 3).Some? && Put(5, 3) !in LookIn(files, 5, 3).value.entries
  {
    OverlapRunStarts();
    GapFlush();
    OverlapRunEnds();
    NotFound();
    TwoInLevel();
    states, files := OverlapRun(), [Merged(), Between()];
  }
}
