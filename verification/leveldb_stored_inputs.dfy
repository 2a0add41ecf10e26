/** The files that a compaction picks, and the entries that the layers of the store hold of them. */
module StoredInputs {
  import opened MvccStore
  import opened LsmStore
  import opened VersionFiles
  import opened Wrappers
  import CompactionInputs

  /** The layers compacted from hold the files of `level`, and the one behind them those of the next level. */
  ghost predicate Holds(d: Db, level: nat, files: seq<File>, next: seq<File>) {
    && level + 1 < NUM_LEVELS
    && |d.layers| >= FirstTable(d) + NUM_LEVELS - 1
    && var first, o := SourceIndex(d, level), LevelIndex(d, level + 1);
    && (forall i, e :: first <= i < o && e in d.layers[i] ==> e in EntriesOf(files))
    && (forall e :: e in EntriesOf(files) ==> exists i :: first <= i < o && e in d.layers[i])
    && d.layers[o] == EntriesOf(next)
  }

  /** What AddBoundaryInputs and SetupOtherInputs promise. */
  ghost predicate ArePicked(level: nat, files: seq<File>, next: seq<File>, in0: seq<File>, in1: seq<File>) {
    && LevelOk(next)
    && CompactionInputs.Picked(level == 0, files, in0)
    && CompactionInputs.NoBoundary(files, in0)
    && CompactionInputs.TargetTaken(next, in0, in1)
  }

  /** The running compaction has the entries of the files as its inputs. */
  ghost predicate JobOf(d: Db, level: nat, in0: seq<File>, in1: seq<File>) {
    && d.job.Some?
    && d.job.value.below == NUM_LEVELS - 2 - level
    && d.job.value.inputs == EntriesOf(in0) + EntriesOf(in1)
  }

  lemma InputsAreFiles(level: nat, files: seq<File>, next: seq<File>, in0: seq<File>, in1: seq<File>)
    requires ArePicked(level, files, next, in0, in1)
    ensures (forall f :: f in in0 ==> f in files) && (forall f :: f in in1 ==> f in next)
    ensures EntriesOf(in0) <= EntriesOf(files) && EntriesOf(in1) <= EntriesOf(next)
  {
    assert forall f :: f in in0 ==> f in files;
    assert forall f :: f in in1 ==> f in next;
  }

  lemma PickedSuffice(level: nat, files: seq<File>, next: seq<File>, in0: seq<File>, in1: seq<File>)
    requires ArePicked(level, files, next, in0, in1)
    ensures CompactionInputs.OlderTaken(files, in0) && CompactionInputs.AllTaken(next, in0, in1)
  {
    CompactionInputs.SourceInputsSuffice(level == 0, files, next, in0, in1);
  }

  /** The two levels share no entry. */
  lemma LevelsAreApart(d: Db, level: nat, files: seq<File>, next: seq<File>)
    requires Ordered(d.layers) && Holds(d, level, files, next)
    ensures EntriesOf(files) !! EntriesOf(next)
  {
    forall e | e in EntriesOf(files)
      ensures e !in EntriesOf(next)
    {
      var i :| SourceIndex(d, level) <= i < LevelIndex(d, level + 1) && e in d.layers[i];
      NotInBoth(d, i, LevelIndex(d, level + 1), e);
    }
  }

  lemma NotInBoth(d: Db, i: nat, o: nat, e: Entry)
    requires Ordered(d.layers) && i < o < |d.layers| && e in d.layers[i]
    ensures e !in d.layers[o]
  {
    assert e in d.layers[o] ==> Tag(e) > Tag(e);
  }

  /** What is picked on files may be compacted. */
  lemma PickedMayStart(d: Db, d': Db, level: nat, files: seq<File>, next: seq<File>, in0: seq<File>, in1: seq<File>,
      base: set<UserKey>)
    requires Ordered(d.layers) && d.job.None?
    requires Holds(d, level, files, next) && ArePicked(level, files, next, in0, in1)
    requires IsBase(d.layers, LevelIndex(d, level + 1), base)
    requires d' == d.(job := Some(Job(NUM_LEVELS - 2 - level, EntriesOf(in0) + EntriesOf(in1), base,
                                      if d.snapshots == [] then d.lastSequence else d.snapshots[0])))
    ensures StartCompaction(d, d', level, EntriesOf(in0) + EntriesOf(in1), base) && JobOf(d', level, in0, in1)
  {
    PickedEntriesMayStart(d, level, files, next, in0, in1);
  }

  lemma PickedEntriesMayStart(d: Db, level: nat, files: seq<File>, next: seq<File>, in0: seq<File>, in1: seq<File>)
    requires Ordered(d.layers) && Holds(d, level, files, next) && ArePicked(level, files, next, in0, in1)
    ensures
      var first, o, inputs := SourceIndex(d, level), LevelIndex(d, level + 1), EntriesOf(in0) + EntriesOf(in1);
      && InputsStored(d.layers, first, o, inputs)
      && OlderTaken(d.layers, first, o, inputs)
      && NextTaken(d.layers, first, o, inputs)
  {
    InputsAreFiles(level, files, next, in0, in1);
    PickedSuffice(level, files, next, in0, in1);
    EntriesMayStart(d, level, files, next, in0, in1);
  }

  lemma EntriesMayStart(d: Db, level: nat, files: seq<File>, next: seq<File>, in0: seq<File>, in1: seq<File>)
    requires Ordered(d.layers) && Holds(d, level, files, next)
    requires EntriesOf(in0) <= EntriesOf(files) && EntriesOf(in1) <= EntriesOf(next)
    requires CompactionInputs.OlderTaken(files, in0) && CompactionInputs.AllTaken(next, in0, in1)
    ensures
      var first, o, inputs := SourceIndex(d, level), LevelIndex(d, level + 1), EntriesOf(in0) + EntriesOf(in1);
      && InputsStored(d.layers, first, o, inputs)
      && OlderTaken(d.layers, first, o, inputs)
      && NextTaken(d.layers, first, o, inputs)
  {
    InputsAreHeld(d, level, files, next, in0, in1);
    OthersAreNewer(d, level, files, next, in0, in1);
    TargetIsTaken(d, level, files, next, in0, in1);
  }

  lemma InputsAreHeld(d: Db, level: nat, files: seq<File>, next: seq<File>, in0: seq<File>, in1: seq<File>)
    requires Holds(d, level, files, next)
    requires EntriesOf(in0) <= EntriesOf(files) && EntriesOf(in1) <= EntriesOf(next)
    ensures InputsStored(d.layers, SourceIndex(d, level), LevelIndex(d, level + 1), EntriesOf(in0) + EntriesOf(in1))
  {
    var first, o := SourceIndex(d, level), LevelIndex(d, level + 1);
    forall e | e in EntriesOf(in0) + EntriesOf(in1)
      ensures exists i :: first <= i <= o && e in d.layers[i]
    {
      if e in EntriesOf(in0) {
        var i :| first <= i < o && e in d.layers[i];
      } else {
        assert e in d.layers[o];
      }
    }
  }

  lemma OthersAreNewer(d: Db, level: nat, files: seq<File>, next: seq<File>, in0: seq<File>, in1: seq<File>)
    requires Ordered(d.layers) && Holds(d, level, files, next)
    requires CompactionInputs.OlderTaken(files, in0) && EntriesOf(in1) <= EntriesOf(next)
    ensures OlderTaken(d.layers, SourceIndex(d, level), LevelIndex(d, level + 1), EntriesOf(in0) + EntriesOf(in1))
  {
    var first, o := SourceIndex(d, level), LevelIndex(d, level + 1);
    forall e: Entry, i, f: Entry |
      e in EntriesOf(in0) + EntriesOf(in1) && first <= i < o && f in d.layers[i] && f !in EntriesOf(in0)
      && f.key == e.key
      ensures Tag(f) > Tag(e)
    {
      if e in EntriesOf(in0) {
        OtherIsNewer(files, in0, e, f);
      } else {
        assert e in d.layers[o];
      }
    }
  }

  lemma OtherIsNewer(files: seq<File>, ins: seq<File>, e: Entry, f: Entry)
    requires CompactionInputs.OlderTaken(files, ins) && e in EntriesOf(ins) && f.key == e.key
    requires f in EntriesOf(files) && f !in EntriesOf(ins)
    ensures Tag(f) > Tag(e)
  {
    var x :| x in ins && e in x.entries;
    var g :| g in files && f in g.entries;
  }

  lemma TargetIsTaken(d: Db, level: nat, files: seq<File>, next: seq<File>, in0: seq<File>, in1: seq<File>)
    requires Ordered(d.layers) && Holds(d, level, files, next)
    requires CompactionInputs.AllTaken(next, in0, in1) && EntriesOf(in1) <= EntriesOf(next)
    ensures NextTaken(d.layers, SourceIndex(d, level), LevelIndex(d, level + 1), EntriesOf(in0) + EntriesOf(in1))
  {
    LevelsAreApart(d, level, files, next);
    forall e: Entry, f: Entry | e in EntriesOf(in0) && f in EntriesOf(next) && f.key == e.key
      ensures f in EntriesOf(in1)
    {
      SameKeyIsTaken(next, in0, in1, e, f);
    }
  }

  lemma SameKeyIsTaken(next: seq<File>, in0: seq<File>, in1: seq<File>, e: Entry, f: Entry)
    requires CompactionInputs.AllTaken(next, in0, in1) && e in EntriesOf(in0) && f.key == e.key
    requires f in EntriesOf(next)
    ensures f in EntriesOf(in1)
  {
    var x :| x in in0 && e in x.entries;
    var g :| g in next && f in g.entries;
    assert g in in1;
  }

  /** It takes all older entries along exactly if no file of the next level goes on with the key on which its inputs
      from there end. */
  lemma ClosedIffNoBoundary(d: Db, level: nat, files: seq<File>, next: seq<File>, in0: seq<File>, in1: seq<File>)
    requires Ordered(d.layers) && Holds(d, level, files, next) && ArePicked(level, files, next, in0, in1)
    requires JobOf(d, level, in0, in1)
    ensures Closed(d) <==> CompactionInputs.NoBoundary(next, in1)
  {
    TargetIsStretch(next, in0, in1);
    CompactionInputs.OlderTakenIff(next, in1);
    ClosedIffOlderTaken(d, level, files, next, in0, in1);
  }

  lemma ClosedIffOlderTaken(d: Db, level: nat, files: seq<File>, next: seq<File>, in0: seq<File>, in1: seq<File>)
    requires Ordered(d.layers) && Holds(d, level, files, next) && ArePicked(level, files, next, in0, in1)
    requires JobOf(d, level, in0, in1)
    ensures Closed(d) <==> CompactionInputs.OlderTaken(next, in1)
  {
    PickedSuffice(level, files, next, in0, in1);
    InputsAreFiles(level, files, next, in0, in1);
    LevelsAreApart(d, level, files, next);
    if CompactionInputs.OlderTaken(next, in1) {
      OlderTakenCloses(d, level, next, in0, in1);
    } else if Closed(d) {
      ClosedTakesOlder(d, level, next, in0, in1);
    }
  }

  lemma TargetIsStretch(next: seq<File>, in0: seq<File>, in1: seq<File>)
    requires LevelOk(next) && CompactionInputs.TargetTaken(next, in0, in1)
    ensures CompactionInputs.Contiguous(next, in1)
  {
    var s, l :| CompactionInputs.TakenBetween(next, in0, in1, s, l);
    var a, b := CompactionInputs.OverlappingIsStretch(next, s.key, l.key);
  }

  lemma OlderTakenCloses(d: Db, level: nat, next: seq<File>, in0: seq<File>, in1: seq<File>)
    requires level + 1 < NUM_LEVELS <= |d.layers| && d.layers[LevelIndex(d, level + 1)] == EntriesOf(next)
    requires JobOf(d, level, in0, in1)
    requires CompactionInputs.OlderTaken(next, in1) && CompactionInputs.AllTaken(next, in0, in1)
    ensures Closed(d)
  {
    forall e: Entry, f: Entry |
      e in d.job.value.inputs && f in EntriesOf(next) && f !in d.job.value.inputs && f.key == e.key
      ensures Tag(f) > Tag(e)
    {
      if e in EntriesOf(in0) {
        SameKeyIsTaken(next, in0, in1, e, f);
      } else {
        OtherIsNewer(next, in1, e, f);
      }
    }
  }

  lemma ClosedTakesOlder(d: Db, level: nat, next: seq<File>, in0: seq<File>, in1: seq<File>)
    requires level + 1 < NUM_LEVELS <= |d.layers| && d.layers[LevelIndex(d, level + 1)] == EntriesOf(next)
    requires JobOf(d, level, in0, in1) && Closed(d)
    requires LevelOk(next) && (forall x :: x in in1 ==> x in next) && EntriesOf(in0) !! EntriesOf(next)
    ensures CompactionInputs.OlderTaken(next, in1)
  {
    forall x: File, e: Entry, g: File, f: Entry |
      x in in1 && e in x.entries && g in next && g !in in1 && f in g.entries && f.key == e.key
      ensures Tag(f) > Tag(e)
    {
      assert e in EntriesOf(in1) && f in EntriesOf(next);
      InOneFile(next, in1, g, f);
    }
  }

  /** What one file of a level from 1 on holds, no other one does. */
  lemma InOneFile(files: seq<File>, ins: seq<File>, g: File, f: Entry)
    requires LevelOk(files) && (forall x :: x in ins ==> x in files) && g in files && g !in ins && f in g.entries
    ensures f !in EntriesOf(ins)
  {
    forall x | x in ins
      ensures f !in x.entries
    {
      var i, j :| 0 <= i < |files| && files[i] == x && 0 <= j < |files| && files[j] == g;
      FilesAreApart(files, i, j, f);
    }
  }

  lemma FilesAreApart(files: seq<File>, i: nat, j: nat, f: Entry)
    requires LevelOk(files) && i < |files| && j < |files| && i != j && f in files[j].entries
    ensures f !in files[i].entries
  {
    assert ValidFile(files[i]) && ValidFile(files[j]);
    if i < j {
      Order(files[i].largest, files[j].smallest, f);
    } else {
      Order(files[j].largest, files[i].smallest, f);
    }
  }

  // ---------- Runs ----------

  /** The compaction starts with files that no other one of the next level goes on behind. */
  ghost predicate StartsSafely(d: Db, d': Db) {
    exists level: nat, files, next, in0, in1 :: SafeFiles(d, d', level, files, next, in0, in1)
  }

  ghost predicate SafeFiles(d: Db, d': Db, level: nat, files: seq<File>, next: seq<File>, in0: seq<File>,
      in1: seq<File>)
  {
    && Holds(d, level, files, next)
    && ArePicked(level, files, next, in0, in1)
    && JobOf(d', level, in0, in1)
    && CompactionInputs.NoBoundary(next, in1)
  }

  lemma SafeStartIsClosed(d: Db, d': Db)
    requires Ordered(d.layers) && StartsSafely(d, d') && d' == d.(job := d'.job)
    ensures Closed(d')
  {
    var level: nat, files, next, in0, in1 :| SafeFiles(d, d', level, files, next, in0, in1);
    HoldsTheSame(d, d', level, files, next);
    ClosedIffNoBoundary(d', level, files, next, in0, in1);
  }

  lemma HoldsTheSame(d: Db, d': Db, level: nat, files: seq<File>, next: seq<File>)
    requires Holds(d, level, files, next) && d'.layers == d.layers && d'.hasImm == d.hasImm
    ensures Holds(d', level, files, next)
  {
  }

  /** A compaction starts in no other step. */
  lemma IsStart(d: Db, d': Db)
    requires Step(d, d') && d.job.None? && d'.job.Some?
    ensures d' == d.(job := d'.job)
  {
  }

  lemma FlushKeepsClosed(d: Db, d': Db, t: nat)
    requires JobOk(d) && d.job.Some? && Closed(d) && FlushMemTable(d, d', t)
    ensures Closed(d')
  {
    var j := d.job.value;
    var o := |d.layers| - 1 - j.below;
    forall e, f | e in j.inputs && f in d'.layers[o] && f !in j.inputs && f.key == e.key
      ensures Tag(f) > Tag(e)
    {
      var i :| FirstTable(d) <= i <= o && e in d.layers[i];
    }
  }

  lemma StepKeepsClosed(d: Db, d': Db)
    requires Inv(d) && Step(d, d') && Closed(d)
    requires d.job.None? && d'.job.Some? ==> StartsSafely(d, d')
    ensures Closed(d')
  {
    if d'.job.Some? {
      if d.job.None? {
        IsStart(d, d');
        SafeStartIsClosed(d, d');
      } else if t: nat :| FlushMemTable(d, d', t) {
        FlushKeepsClosed(d, d', t);
      } else {
        OtherStepKeepsClosed(d, d');
      }
    }
  }

  lemma OtherStepKeepsClosed(d: Db, d': Db)
    requires JobOk(d) && Step(d, d') && d.job.Some? && d'.job.Some? && Closed(d)
    requires forall t: nat :: !FlushMemTable(d, d', t)
    ensures Closed(d')
  {
  }

  lemma {:induction false} ClosedAlong(states: seq<Db>, n: nat)
    requires Run(states) && Inv(states[0]) && Closed(states[0]) && n < |states|
    requires forall i :: 0 <= i < |states| - 1 && states[i].job.None? && states[i + 1].job.Some? ==>
        StartsSafely(states[i], states[i + 1])
    ensures Inv(states[n]) && Closed(states[n])
  {
    InvAlong(states, n);
    if n > 0 {
      ClosedAlong(states, n - 1);
      StepKeepsClosed(states[n - 1], states[n]);
    }
  }

  /** If no compaction of a run starts while a file of the next level goes on behind its inputs from there, every read
      at a held snapshot has the same answer in all states. */
  lemma CheckedRunsAreIsolated(states: seq<Db>, s: nat)
    requires Run(states) && Inv(states[0]) && Closed(states[0])
    requires forall i :: 0 <= i < |states| - 1 && states[i].job.None? && states[i + 1].job.Some? ==>
        StartsSafely(states[i], states[i + 1])
    requires forall i :: 0 <= i < |states| ==> s in states[i].snapshots
    ensures forall i :: 0 <= i < |states| ==> SameReads(Contents(states[0]), Contents(states[i]), s)
  {
    forall i | 0 <= i < |states|
      ensures Closed(states[i])
    {
      ClosedAlong(states, i);
    }
    ClosedRunsAreIsolated(states, s);
  }
}
