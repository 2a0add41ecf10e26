/** What a crash of the machine leaves of the logs: at least what was synced, and then as much as had got to the disk.
    Tables and the manifest are synced before anything relies on them. */
module SyncedLogs {
  import opened Durability
  import opened Wrappers

  /** The database, how many records of each log are synced, and, as history, the batches acknowledged as synced. */
  datatype Machine = Machine(db: State, synced: map<nat, nat>, syncAcked: set<Batch>)

  // ---------- Steps ----------

  /** A new log has nothing synced. */
  ghost function Kept(synced: map<nat, nat>, logs: map<nat, Log>): map<nat, nat> {
    map n | n in logs :: if n in synced then synced[n] else 0
  }

  /** Everything but a synced write; WriteOptions::sync is false for a write acknowledged here. */
  ghost predicate PlainStep(x: Machine, x': Machine) {
    Step(x.db, x'.db) && x' == x.(db := x'.db, synced := Kept(x.synced, x'.db.logs))
  }

  /** With WriteOptions::sync the log is synced as far as it goes before the write is acknowledged. */
  ghost predicate SyncedAcknowledge(x: Machine, x': Machine) {
    && Acknowledge(x.db, x'.db)
    && var l := x.db.memory.logfile;
    && l in x.db.logs
    && x' == Machine(x'.db, x.synced[l := |x.db.logs[l].records|], x.syncAcked + {x.db.memory.inflight.value.batch})
  }

  /** What may be left of a log with `k` synced records.  Where it is cut it may end torn. */
  ghost predicate IsCut(l: Log, l': Log, k: nat) {
    && k <= |l'.records|
    && l'.records <= l.records
    && (l'.torn || (AllSeen(l'.records) && (l'.records == l.records || k < |l.records|)))
    && (l'.records == l.records && !l.torn ==> !l'.torn)
  }

  /** A log without synced records may be gone as a file. */
  ghost predicate AreCut(logs: map<nat, Log>, logs': map<nat, Log>, synced: map<nat, nat>) {
    && (forall n :: n in logs' ==> n in logs && n in synced && IsCut(logs[n], logs'[n], synced[n]))
    && (forall n :: n in logs && n !in logs' ==> n in synced && synced[n] == 0)
  }

  /** After it, what is left of acknowledged batches that no recovery sees any more is history. */
  ghost function After(s: State, logs': map<nat, Log>): State {
    var s' := s.(logs := logs', memory := Down);
    s'.(lost := s.lost + set b | b in s.acked && !Recoverable(s', b))
  }

  ghost predicate MachineCrash(x: Machine, x': Machine) {
    && AreCut(x.db.logs, x'.db.logs, x.synced)
    && x' == Machine(After(x.db, x'.db.logs), map n | n in x'.db.logs :: |x'.db.logs[n].records|, x.syncAcked)
  }

  ghost predicate MachineStep(x: Machine, x': Machine) {
    PlainStep(x, x') || SyncedAcknowledge(x, x') || MachineCrash(x, x')
  }

  ghost predicate MachineRun(xs: seq<Machine>) {
    && xs != [] && Init(xs[0].db) && xs[0].synced == map[] && xs[0].syncAcked == {}
    && Linked(xs)
  }

  ghost predicate Linked(xs: seq<Machine>) {
    forall i :: 0 <= i < |xs| - 1 ==> MachineStep(xs[i], xs[i + 1])
  }

  // ---------- Invariant ----------

  /** The batch is in a table, or in a synced record that a recovery sees. */
  ghost predicate OnDisk(x: Machine, b: Batch) {
    b in Stored(x.db) || exists n, i :: n >= x.db.manifest.logNumber && SyncedAt(x, n, i, b)
  }

  ghost predicate SyncedAt(x: Machine, n: nat, i: nat, b: Batch) {
    && n in x.db.logs && n in x.synced && i < x.synced[n]
    && i < |x.db.logs[n].records| && x.db.logs[n].records[i] == Record(b, true)
  }

  ghost predicate SyncedOk(x: Machine) {
    && x.synced.Keys == x.db.logs.Keys
    && forall n :: n in x.synced ==> x.synced[n] <= |x.db.logs[n].records|
  }

  ghost predicate MachineInv(x: Machine) {
    Inv(x.db) && SyncedOk(x) && x.syncAcked <= x.db.acked
  }

  lemma AfterHasBatches(s: State, logs': map<nat, Log>, b: Batch)
    ensures Recoverable(After(s, logs'), b) <==> Recoverable(s.(logs := logs', memory := Down), b)
  {
    var s' := s.(logs := logs', memory := Down);
    assert Stored(After(s, logs')) == Stored(s');
    assert forall n :: Logged(After(s, logs'), n, b) <==> Logged(s', n, b);
  }

  lemma CutInvents(s: State, logs': map<nat, Log>, synced: map<nat, nat>)
    requires NothingInvented(s) && AreCut(s.logs, logs', synced)
    ensures NothingInvented(After(s, logs'))
  {
    forall n, r | n in logs' && r in logs'[n].records
      ensures r.batch in s.attempted
    {
      assert r in s.logs[n].records;
    }
  }

  lemma MachineCrashKeeps(x: Machine, x': Machine)
    requires MachineInv(x) && MachineCrash(x, x')
    ensures MachineInv(x')
  {
    CutInvents(x.db, x'.db.logs, x.synced);
    forall b | Safe(x'.db, b)
      ensures Recoverable(x'.db, b)
    {
      AfterHasBatches(x.db, x'.db.logs, b);
    }
  }

  // ---------- What gets to the disk stays there ----------

  /** Tables lose nothing, and a log loses nothing until it is in tables. */
  ghost predicate MovesOn(s: State, s': State) {
    && Stored(s) <= Stored(s')
    && (forall n, b :: n >= s.manifest.logNumber && Logged(s, n, b) && Safe(s, b) ==>
      b in Stored(s') || (n >= s'.manifest.logNumber && n in s'.logs))
    && (forall n :: n in s.logs && n in s'.logs ==> s.logs[n].records <= s'.logs[n].records)
  }

  lemma SameFilesMoveOn(s: State, s': State)
    requires s'.manifest == s.manifest && Stored(s) <= Stored(s')
    requires forall n :: n in s.logs ==> n in s'.logs && s.logs[n].records <= s'.logs[n].records
    ensures MovesOn(s, s')
  {
  }

  lemma WritesMoveOn(s: State, s': State)
    requires Inv(s) && WriteStep(s, s')
    ensures MovesOn(s, s')
  {
    assert Stored(s') == Stored(s);
    SameFilesMoveOn(s, s');
  }

  lemma FlushMovesOn(s: State, s': State)
    requires Inv(s) && (InstallFlush(s, s') || FlushError(s, s'))
    ensures MovesOn(s, s')
  {
    if MayInstall(s) && s'.manifest == FlushedManifest(s) {
      FlushedIsDurable(s, s');
      forall n: nat, b | n >= s.manifest.logNumber && Logged(s, n, b) && Safe(s, b)
        ensures b in Stored(s') || n >= s'.manifest.logNumber
      {
        assert n < s.memory.logfile ==> Earlier(s, n, b);
      }
    } else {
      assert Stored(s') == Stored(s);
      SameFilesMoveOn(s, s');
    }
  }

  lemma CompactionMovesOn(s: State, s': State, inputs: set<nat>)
    requires Inv(s) && (InstallCompaction(s, s', inputs) || CompactionError(s, s', inputs))
    ensures MovesOn(s, s')
  {
    if MayReplace(s, inputs) && s'.manifest == CompactedManifest(s, inputs) {
      CompactedIsDurable(s, s', inputs);
    } else {
      assert Stored(s') == Stored(s);
      SameFilesMoveOn(s, s');
    }
  }

  lemma NewTablesMoveOn(s: State, s': State)
    requires Inv(s) && (BuildTable(s, s') || exists contents :: WriteOutput(s, s', contents))
    ensures MovesOn(s, s')
  {
    var n := s.memory.nextFile;
    NewTable(s.tables, n, s'.tables[n], s.manifest.tables);
    SameFilesMoveOn(s, s');
  }

  lemma DeletionsMoveOn(s: State, s': State, n: nat)
    requires Inv(s) && (DeleteLog(s, s', n) || DeleteTable(s, s', n))
    ensures MovesOn(s, s')
  {
    if DeleteTable(s, s', n) {
      RestKept(s.tables, n, s.manifest.tables);
    } else {
      assert Stored(s') == Stored(s);
    }
  }

  lemma FilesMoveOn(s: State, s': State)
    requires Inv(s) && FileStep(s, s')
    ensures MovesOn(s, s')
  {
    if InstallFlush(s, s') || FlushError(s, s') {
      FlushMovesOn(s, s');
    } else if inputs :| InstallCompaction(s, s', inputs) || CompactionError(s, s', inputs) {
      CompactionMovesOn(s, s', inputs);
    } else if n :| DeleteLog(s, s', n) || DeleteTable(s, s', n) {
      DeletionsMoveOn(s, s', n);
    } else {
      NewTablesMoveOn(s, s');
    }
  }

  lemma FinishMovesOn(s: State, s': State)
    requires Inv(s) && FinishRecovery(s, s')
    ensures MovesOn(s, s')
  {
    ContentsUnion(s.tables, s.manifest.tables, s.memory.edit);
    assert Finished(s, s.memory.kept.value);
    forall n: nat, b | n >= s.manifest.logNumber && Logged(s, n, b)
      ensures b in Stored(s') || n >= s'.manifest.logNumber
    {
      assert Finished(s, n);
      assert n != s.memory.kept.value ==> b in Contents(s.tables, s.memory.edit) && s.memory.edit != {};
    }
  }

  lemma ReplayMovesOn(s: State, s': State)
    requires Inv(s)
    requires (exists big :: ReplayRecord(s, s', big)) || (exists reuse :: FinishLog(s, s', reuse))
    ensures MovesOn(s, s')
  {
    var n := s.memory.nextFile;
    if n in s'.tables && s'.tables != s.tables {
      NewTable(s.tables, n, s'.tables[n], s.manifest.tables);
    }
    SameFilesMoveOn(s, s');
  }

  lemma RecoveryMovesOn(s: State, s': State)
    requires Inv(s) && RecoveryStep(s, s')
    ensures MovesOn(s, s')
  {
    if FinishRecovery(s, s') {
      FinishMovesOn(s, s');
    } else if (exists big :: ReplayRecord(s, s', big)) || (exists reuse :: FinishLog(s, s', reuse)) {
      ReplayMovesOn(s, s');
    } else {
      if CreateLog(s, s') { NewLogIsNew(s); }
      assert Stored(s') == Stored(s);
      SameFilesMoveOn(s, s');
    }
  }

  lemma NewLogIsNew(s: State)
    requires Inv(s) && s.memory.Recovering? && s.memory.todo == []
    ensures s.memory.nextFile !in s.logs
  {
    assert !Finished(s, s.memory.nextFile);
  }

  lemma StepMovesOn(s: State, s': State)
    requires Inv(s) && Step(s, s')
    ensures MovesOn(s, s')
  {
    if WriteStep(s, s') {
      WritesMoveOn(s, s');
    } else if FileStep(s, s') {
      FilesMoveOn(s, s');
    } else {
      RecoveryMovesOn(s, s');
    }
  }

  lemma SyncedStays(x: Machine, x': Machine, n: nat, i: nat, b: Batch)
    requires SyncedAt(x, n, i, b) && n in x'.db.logs && x.db.logs[n].records <= x'.db.logs[n].records
    requires n in x'.synced && x.synced[n] <= x'.synced[n]
    ensures SyncedAt(x', n, i, b)
  {
  }

  lemma SyncedIsLogged(x: Machine, n: nat, i: nat, b: Batch)
    requires SyncedAt(x, n, i, b)
    ensures Logged(x.db, n, b)
  {
    assert x.db.logs[n].records[i] in x.db.logs[n].records;
  }

  lemma OnDiskMovesOn(x: Machine, x': Machine, b: Batch)
    requires MovesOn(x.db, x'.db) && Safe(x.db, b) && OnDisk(x, b)
    requires forall n :: n in x.synced && n in x'.db.logs ==> n in x'.synced && x.synced[n] <= x'.synced[n]
    ensures OnDisk(x', b)
  {
    if b !in Stored(x.db) {
      var n, i :| n >= x.db.manifest.logNumber && SyncedAt(x, n, i, b);
      SyncedIsLogged(x, n, i, b);
      if b !in Stored(x'.db) { SyncedStays(x, x', n, i, b); }
    }
  }

  lemma OnDiskOutlastsCrash(x: Machine, x': Machine, b: Batch)
    requires MachineInv(x) && MachineCrash(x, x') && OnDisk(x, b)
    ensures OnDisk(x', b)
  {
    if b !in Stored(x.db) {
      var n, i :| n >= x.db.manifest.logNumber && SyncedAt(x, n, i, b);
      SyncedOutlasts(x, x', n, i, b);
    } else {
      assert Stored(x'.db) == Stored(x.db);
    }
  }

  lemma SyncedOutlasts(x: Machine, x': Machine, n: nat, i: nat, b: Batch)
    requires MachineInv(x) && MachineCrash(x, x') && SyncedAt(x, n, i, b)
    ensures SyncedAt(x', n, i, b)
  {
    assert n in x'.db.logs;
    assert IsCut(x.db.logs[n], x'.db.logs[n], x.synced[n]);
  }

  lemma OnDiskIsRecoverable(x: Machine, b: Batch)
    requires OnDisk(x, b)
    ensures Recoverable(x.db, b)
  {
    if b !in Stored(x.db) {
      var n, i :| n >= x.db.manifest.logNumber && SyncedAt(x, n, i, b);
      SyncedIsLogged(x, n, i, b);
    }
  }

  // ---------- Every step keeps the invariant ----------

  lemma PlainStepKeeps(x: Machine, x': Machine)
    requires MachineInv(x) && PlainStep(x, x')
    ensures MachineInv(x')
  {
    StepKeepsInv(x.db, x'.db);
    StepMovesOn(x.db, x'.db);
    AckedStays(x.db, x'.db);
    forall n | n in x'.synced
      ensures x'.synced[n] <= |x'.db.logs[n].records|
    {
      if n in x.synced { assert x.db.logs[n].records <= x'.db.logs[n].records; }
    }
  }

  lemma AckedStays(s: State, s': State)
    requires Step(s, s')
    ensures s.acked <= s'.acked
  {
  }

  lemma SyncedAcknowledgeKeeps(x: Machine, x': Machine)
    requires MachineInv(x) && SyncedAcknowledge(x, x')
    ensures MachineInv(x')
  {
    AcknowledgeKeeps(x.db, x'.db);
  }

  lemma MachineStepKeepsInv(x: Machine, x': Machine)
    requires MachineInv(x) && MachineStep(x, x')
    ensures MachineInv(x')
  {
    if PlainStep(x, x') {
      PlainStepKeeps(x, x');
    } else if SyncedAcknowledge(x, x') {
      SyncedAcknowledgeKeeps(x, x');
    } else {
      MachineCrashKeeps(x, x');
    }
  }

  lemma MachineInitInv(x: Machine)
    requires Init(x.db) && x.synced == map[] && x.syncAcked == {}
    ensures MachineInv(x)
  {
    assert Stored(x.db) == {};
  }

  /** In every reachable state, crashes of the machine included, a recovery finds every acknowledged batch that was
      neither dropped behind a torn end nor cut off by such a crash. */
  lemma {:induction false} MachineReachableInv(xs: seq<Machine>, n: nat)
    requires MachineRun(xs) && n < |xs|
    ensures MachineInv(xs[n])
  {
    if n == 0 {
      MachineInitInv(xs[0]);
    } else {
      assert MachineStep(xs[n - 1], xs[n]);
      MachineReachableInv(xs, n - 1);
      MachineStepKeepsInv(xs[n - 1], xs[n]);
    }
  }

  // ---------- Synced writes ----------

  ghost predicate Protected(x: Machine) {
    forall b :: b in x.syncAcked ==> Safe(x.db, b) && OnDisk(x, b)
  }

  /** Success of a synced write is reported for a record that no recovery sees. */
  ghost predicate AcksUnseenSynced(x: Machine, x': Machine) {
    SyncedAcknowledge(x, x') && !x.db.memory.inflight.value.seen
  }

  ghost predicate NoneUnseenSynced(xs: seq<Machine>) {
    forall i :: 0 <= i < |xs| - 1 ==> !AcksUnseenSynced(xs[i], xs[i + 1])
  }

  lemma SafeStays(s: State, s': State, b: Batch)
    requires Inv(s) && Step(s, s') && Safe(s, b)
    ensures Safe(s', b)
  {
    AckedStays(s, s');
    if !AcksUnseen(s, s') { OnlyAcksLose(s, s'); }
  }

  lemma PlainStepProtects(x: Machine, x': Machine)
    requires MachineInv(x) && PlainStep(x, x') && Protected(x)
    ensures Protected(x')
  {
    StepMovesOn(x.db, x'.db);
    forall b | b in x'.syncAcked
      ensures Safe(x'.db, b) && OnDisk(x', b)
    {
      SafeStays(x.db, x'.db, b);
      OnDiskMovesOn(x, x', b);
    }
  }

  /** After a synced write the whole log is on disk. */
  lemma CurrentLogIsOnDisk(x: Machine, x': Machine, b: Batch)
    requires MachineInv(x) && SyncedAcknowledge(x, x') && Logged(x.db, x.db.memory.logfile, b)
    ensures OnDisk(x', b)
  {
    var l := x.db.memory.logfile;
    var i :| 0 <= i < |x.db.logs[l].records| && x.db.logs[l].records[i] == Record(b, true);
    assert SyncedAt(x', l, i, b);
  }

  lemma SyncedAcknowledgeProtects(x: Machine, x': Machine)
    requires MachineInv(x) && SyncedAcknowledge(x, x') && Protected(x) && !AcksUnseenSynced(x, x')
    ensures Protected(x')
  {
    assert Step(x.db, x'.db);
    StepMovesOn(x.db, x'.db);
    var r := x.db.memory.inflight.value;
    forall b | b in x'.syncAcked
      ensures Safe(x'.db, b) && OnDisk(x', b)
    {
      if b in x.syncAcked {
        SafeStays(x.db, x'.db, b);
        OnDiskMovesOn(x, x', b);
      } else {
        assert r == Record(b, true) && Logged(x.db, x.db.memory.logfile, b);
        CurrentLogIsOnDisk(x, x', b);
      }
    }
  }

  lemma CrashProtects(x: Machine, x': Machine)
    requires MachineInv(x) && MachineCrash(x, x') && Protected(x)
    ensures Protected(x')
  {
    forall b | b in x'.syncAcked
      ensures Safe(x'.db, b) && OnDisk(x', b)
    {
      OnDiskOutlastsCrash(x, x', b);
      OnDiskIsRecoverable(x', b);
      AfterHasBatches(x.db, x'.db.logs, b);
    }
  }

  lemma {:induction false} ProtectedAlong(xs: seq<Machine>, n: nat)
    requires MachineRun(xs) && NoneUnseenSynced(xs) && n < |xs|
    ensures Protected(xs[n])
  {
    if n > 0 {
      var x, x' := xs[n - 1], xs[n];
      assert MachineStep(x, x') && !AcksUnseenSynced(x, x');
      MachineReachableInv(xs, n - 1);
      ProtectedAlong(xs, n - 1);
      if PlainStep(x, x') {
        PlainStepProtects(x, x');
      } else if SyncedAcknowledge(x, x') {
        SyncedAcknowledgeProtects(x, x');
      } else {
        CrashProtects(x, x');
      }
    }
  }

  ghost predicate SyncedDurable(x: Machine) {
    forall b :: b in x.syncAcked ==> Recoverable(x.db, b)
  }

  lemma AllSyncedDurable(xs: seq<Machine>, n: nat)
    requires MachineRun(xs) && NoneUnseenSynced(xs) && n < |xs|
    ensures SyncedDurable(xs[n])
  {
    ProtectedAlong(xs, n);
    forall b | b in xs[n].syncAcked
      ensures Recoverable(xs[n].db, b)
    {
      OnDiskIsRecoverable(xs[n], b);
    }
  }

  /** Over all runs with crashes of the machine: every state holds every batch acknowledged as synced for a recovery, if
      and only if success was never reported for a synced one that had been appended where no recovery sees it. */
  lemma SyncedWritesSurviveIff(xs: seq<Machine>)
    requires MachineRun(xs)
    ensures (forall i :: 0 <= i < |xs| ==> SyncedDurable(xs[i])) <==> NoneUnseenSynced(xs)
  {
    if NoneUnseenSynced(xs) {
      forall i | 0 <= i < |xs|
        ensures SyncedDurable(xs[i])
      {
        AllSyncedDurable(xs, i);
      }
    } else {
      var i :| 0 <= i < |xs| - 1 && AcksUnseenSynced(xs[i], xs[i + 1]);
      MachineReachableInv(xs, i);
      UnseenIsLost(xs[i].db, xs[i + 1].db);
      assert !SyncedDurable(xs[i + 1]);
    }
  }

  // ---------- Writes that are not synced ----------

  ghost predicate MayBeCutOff(x: Machine, b: Batch) {
    exists x' :: MachineCrash(x, x') && !Recoverable(x'.db, b)
  }

  /** Every log cut to what is synced. */
  ghost function Worst(x: Machine): Machine
    requires SyncedOk(x)
  {
    var logs' := map n | n in x.db.logs ::
      Log(x.db.logs[n].records[..x.synced[n]], x.db.logs[n].torn || x.synced[n] < |x.db.logs[n].records|);
    Machine(After(x.db, logs'), map n | n in logs' :: |logs'[n].records|, x.syncAcked)
  }

  lemma WorstIsCrash(x: Machine)
    requires MachineInv(x)
    ensures MachineCrash(x, Worst(x))
  {
    var logs' := Worst(x).db.logs;
    forall n | n in logs'
      ensures IsCut(x.db.logs[n], logs'[n], x.synced[n])
    {
      assert x.synced[n] == |x.db.logs[n].records| ==> logs'[n].records == x.db.logs[n].records;
    }
  }

  lemma WorstKeepsSyncedOnly(x: Machine, b: Batch)
    requires MachineInv(x) && Recoverable(Worst(x).db, b)
    ensures OnDisk(x, b)
  {
    var w := Worst(x).db;
    assert Stored(w) == Stored(x.db);
    if b !in Stored(w) {
      var n :| n >= w.manifest.logNumber && Logged(w, n, b);
      var i :| 0 <= i < |w.logs[n].records| && w.logs[n].records[i] == Record(b, true);
      assert SyncedAt(x, n, i, b);
    }
  }

  /** What a crash of the machine can cost is known before it: exactly the batches that are neither in a table nor in
      what is synced of a log. */
  lemma CutOffIff(x: Machine, b: Batch)
    requires MachineInv(x)
    ensures MayBeCutOff(x, b) <==> !OnDisk(x, b)
  {
    if OnDisk(x, b) {
      forall x' | MachineCrash(x, x')
        ensures Recoverable(x'.db, b)
      {
        OnDiskOutlastsCrash(x, x', b);
        OnDiskIsRecoverable(x', b);
      }
    } else {
      WorstIsCrash(x);
      if Recoverable(Worst(x).db, b) { WorstKeepsSyncedOnly(x, b); }
    }
  }

  /** The acknowledged batches of the memtable that is being flushed. */
  ghost function Flushing(s: State): set<Batch> {
    if s.memory.Up? && s.memory.imm.Some? then s.memory.imm.value else {}
  }

  ghost predicate AllOnDisk(x: Machine) {
    forall b :: Safe(x.db, b) ==> OnDisk(x, b)
  }

  /** A synced write also puts every earlier one on the disk, if and only if those of the memtable that is still being
      flushed are there; their log is not synced when the memtable is switched. */
  lemma EarlierAreSyncedIff(x: Machine, x': Machine)
    requires MachineInv(x) && SyncedAcknowledge(x, x')
    ensures AllOnDisk(x') <==> forall b :: b in Flushing(x'.db) && Safe(x'.db, b) ==> OnDisk(x', b)
    ensures x.db.memory.imm.None? ==> AllOnDisk(x')
  {
    SyncedAcknowledgeKeeps(x, x');
    var m := x'.db.memory;
    forall b | Safe(x'.db, b) && !OnDisk(x', b)
      ensures b in Flushing(x'.db)
    {
      assert Recoverable(x'.db, b);
      var n :| n >= x'.db.manifest.logNumber && Logged(x'.db, n, b);
      if n == m.logfile {
        CurrentLogIsOnDisk(x, x', b);
      } else {
        assert Earlier(x'.db, n, b);
      }
    }
  }

  // ---------- A run in which a write is lost although a later one was synced ----------

  const FIRST := Record(0, true)
  const SECOND := Record(1, true)

  /** A new database, open; batch 0 is written without sync, and the memtable switched. */
  function FirstWrite(): seq<Machine> {
    var s0 := State(Manifest({}, 0, 2), map[], map[], Down, {}, {}, {});
    var s1 := s0.(memory := Recovering([], 0, {}, 0, {}, true, None, {}, 3));
    var s2 := s1.(logs := map[3 := Log([], false)], memory := Recovering([], 0, {}, 0, {}, true, Some(3), {}, 4));
    var s3 := s2.(manifest := Manifest({}, 3, 4), memory := Up({}, None, None, {}, {}, 3, 3, 4, None, false));
    var s4 := s3.(logs := map[3 := Log([FIRST], false)], attempted := {0},
                  memory := Up({}, None, None, {}, {}, 3, 3, 4, Some(FIRST), false));
    var s5 := s4.(acked := {0}, memory := Up({0}, None, None, {}, {}, 3, 3, 4, None, false));
    var none: map<nat, nat> := map[];
    [Machine(s0, none, {}), Machine(s1, none, {}), Machine(s2, map[3 := 0], {}), Machine(s3, map[3 := 0], {}),
     Machine(s4, map[3 := 0], {}), Machine(s5, map[3 := 0], {})]
  }

  /** Batch 1 is written with sync, to the new log. */
  function SecondWrite(): seq<Machine> {
    var logs := map[3 := Log([FIRST], false), 4 := Log([], false)];
    var up := Up({}, Some({0}), None, {}, {}, 4, 3, 5, None, false);
    var s6 := State(Manifest({}, 3, 4), map[], logs, up, {0}, {}, {0});
    var s7 := s6.(logs := map[3 := Log([FIRST], false), 4 := Log([SECOND], false)], attempted := {0, 1},
                  memory := Up({}, Some({0}), None, {}, {}, 4, 3, 5, Some(SECOND), false));
    var s8 := s7.(acked := {0, 1}, memory := Up({1}, Some({0}), None, {}, {}, 4, 3, 5, None, false));
    [Machine(s6, map[3 := 0, 4 := 0], {}), Machine(s7, map[3 := 0, 4 := 0], {}), Machine(s8, map[3 := 0, 4 := 1], {1})]
  }

  lemma Opens()
    ensures var xs := FirstWrite(); PlainStep(xs[0], xs[1]) && PlainStep(xs[1], xs[2]) && PlainStep(xs[2], xs[3])
  {
    var xs := FirstWrite();
    assert BeginRecovery(xs[0].db, xs[1].db, [], true) && CreateLog(xs[1].db, xs[2].db);
    assert RecoveredManifest(xs[2].db) == xs[3].db.manifest;
    assert FinishRecovery(xs[2].db, xs[3].db);
  }

  lemma AppendsFirst(s: State, s': State)
    requires s == FirstWrite()[3].db && s' == FirstWrite()[4].db
    ensures Append(s, s', FIRST)
  {
    assert Appended(s.logs[3], FIRST) == s'.logs[3];
    assert s.logs[3 := s'.logs[3]] == s'.logs;
    assert s.attempted + {0} == s'.attempted;
  }

  lemma AcknowledgesFirst(s: State, s': State)
    requires s == FirstWrite()[4].db && s' == FirstWrite()[5].db
    ensures Acknowledge(s, s')
  {
    assert s.acked + {0} == s'.acked && s.memory.mem + {0} == s'.memory.mem;
  }

  lemma WritesFirst()
    ensures var xs := FirstWrite();
      PlainStep(xs[3], xs[4]) && PlainStep(xs[4], xs[5]) && PlainStep(xs[5], SecondWrite()[0])
  {
    var xs, x := FirstWrite(), SecondWrite()[0];
    AppendsFirst(xs[3].db, xs[4].db);
    AcknowledgesFirst(xs[4].db, xs[5].db);
    assert SwitchMemTable(xs[5].db, x.db);
  }

  lemma AppendsSecond(s: State, s': State)
    requires s == SecondWrite()[0].db && s' == SecondWrite()[1].db
    ensures Append(s, s', SECOND)
  {
    assert Appended(s.logs[4], SECOND) == s'.logs[4];
    assert s.logs[4 := s'.logs[4]] == s'.logs;
    assert s.attempted + {1} == s'.attempted;
  }

  lemma AcknowledgesSecond(s: State, s': State)
    requires s == SecondWrite()[1].db && s' == SecondWrite()[2].db
    ensures Acknowledge(s, s')
  {
    assert s.acked + {1} == s'.acked && s.memory.mem + {1} == s'.memory.mem;
  }

  lemma WritesSecond()
    ensures var xs := SecondWrite(); PlainStep(xs[0], xs[1]) && SyncedAcknowledge(xs[1], xs[2])
  {
    var xs := SecondWrite();
    AppendsSecond(xs[0].db, xs[1].db);
    AcknowledgesSecond(xs[1].db, xs[2].db);
    assert xs[1].synced[4 := 1] == xs[2].synced && xs[1].syncAcked + {1} == xs[2].syncAcked;
  }

  lemma Joined(a: seq<Machine>, b: seq<Machine>)
    requires a != [] && b != [] && Linked(a) && Linked(b) && MachineStep(a[|a| - 1], b[0])
    ensures Linked(a + b)
  {
    forall i | 0 <= i < |a + b| - 1
      ensures MachineStep((a + b)[i], (a + b)[i + 1])
    {
      if i >= |a| { assert MachineStep(b[i - |a|], b[i - |a| + 1]); }
    }
  }

  lemma StartRuns()
    ensures MachineRun(FirstWrite() + SecondWrite())
  {
    Opens();
    WritesFirst();
    WritesSecond();
    Joined(FirstWrite(), SecondWrite());
  }

  lemma FirstIsNotOnDisk(x: Machine)
    requires x == SecondWrite()[2]
    ensures !OnDisk(x, 0)
  {
    assert Stored(x.db) == {};
  }

  /** Batch 0 was acknowledged before batch 1, which is synced; and the crash of the machine costs batch 0. */
  lemma EarlierIsLost() returns (xs: seq<Machine>)
    ensures MachineRun(xs) && |xs| > 6 && 0 in xs[5].db.acked && 1 !in xs[5].db.attempted
    ensures var x := xs[|xs| - 1]; x.syncAcked == {1} && Recoverable(x.db, 1) && !Recoverable(x.db, 0)
  {
    StartRuns();
    var start, x := FirstWrite() + SecondWrite(), SecondWrite()[2];
    assert start[8] == x && start[5] == FirstWrite()[5];
    xs := CrashAtWorst(start);
    OnlySecondIsLeft(x);
  }

  lemma CrashAtWorst(xs: seq<Machine>) returns (more: seq<Machine>)
    requires MachineRun(xs)
    ensures MachineInv(xs[|xs| - 1]) && more == xs + [Worst(xs[|xs| - 1])] && MachineRun(more)
  {
    var x := xs[|xs| - 1];
    MachineReachableInv(xs, |xs| - 1);
    WorstIsCrash(x);
    Joined(xs, [Worst(x)]);
    more := xs + [Worst(x)];
  }

  lemma OnlySecondIsLeft(x: Machine)
    requires x == SecondWrite()[2] && MachineInv(x)
    ensures var w := Worst(x).db; Recoverable(w, 1) && !Recoverable(w, 0)
  {
    FirstIsNotOnDisk(x);
    assert SyncedAt(x, 4, 0, 1);
    WorstIsCrash(x);
    OnDiskOutlastsCrash(x, Worst(x), 1);
    OnDiskIsRecoverable(Worst(x), 1);
    if Recoverable(Worst(x).db, 0) { WorstKeepsSyncedOnly(x, 0); }
  }
}
