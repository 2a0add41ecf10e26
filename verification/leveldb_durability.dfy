/** Memtable rotation, log files, tables, the manifest and recovery: which acknowledged writes survive a crash. */
module Durability {
  import opened Wrappers

  type Batch = nat

  /** A record of a log.  What stands behind a torn end may be dropped with the rest of its block, and then no
      recovery sees it; block boundaries decide, as LogReader says, and are left open here. */
  datatype Record = Record(batch: Batch, seen: bool)

  /** A log file.  `torn`: it does not end the way a writer behind it takes it to. */
  datatype Log = Log(records: seq<Record>, torn: bool)

  /** What the manifest names: its tables, the oldest log still needed, and the next file number. */
  datatype Manifest = Manifest(tables: set<nat>, logNumber: nat, nextFile: nat)

  datatype Memory =
    | Down
    | Up(mem: set<Batch>,                 // mem_
         imm: Option<set<Batch>>,         // imm_
         built: Option<nat>,              // the table for imm_, written but not installed
         live: set<nat>,                  // the tables of the current version
         pending: set<nat>,               // pending_outputs_ of a compaction
         logfile: nat,                    // logfile_number_
         logNumber: nat,                  // versions_->LogNumber()
         nextFile: nat,
         inflight: Option<Record>,        // a record appended but not yet acknowledged
         broken: bool)                    // bg_error_ is set
    | Recovering(todo: seq<nat>,          // logs not yet finished, ascending
                 read: nat,               // records read from todo[0]
                 mem: set<Batch>,         // the memtable of RecoverLogFile
                 compactions: nat,        // tables written for todo[0]
                 edit: set<nat>,          // tables added to the pending edit
                 save: bool,              // save_manifest
                 kept: Option<nat>,       // the log being reused
                 keptMem: set<Batch>,     // and its memtable
                 nextFile: nat)

  /** What is on disk, and what is in memory.  The last three are history: batches acknowledged, those of them
      acknowledged although no recovery sees their record, and batches whose writing began. */
  datatype State = State(
    manifest: Manifest,
    tables: map<nat, set<Batch>>,
    logs: map<nat, Log>,
    memory: Memory,
    acked: set<Batch>,
    lost: set<Batch>,
    attempted: set<Batch>)

  function Max(a: nat, b: nat): nat {
    if a > b then a else b
  }

  ghost predicate Ascending(q: seq<nat>) {
    forall i, j :: 0 <= i < j < |q| ==> q[i] < q[j]
  }

  ghost function Contents(tables: map<nat, set<Batch>>, names: set<nat>): set<Batch> {
    set n, b | n in names && n in tables && b in tables[n] :: b
  }

  /** The batches in the tables that the manifest names. */
  ghost function Stored(s: State): set<Batch> {
    Contents(s.tables, s.manifest.tables)
  }

  ghost predicate Logged(s: State, n: nat, b: Batch) {
    n in s.logs && Record(b, true) in s.logs[n].records
  }

  // ---------- Writing ----------

  /** What NewDB leaves: an empty manifest and no logs, not yet opened. */
  ghost predicate Init(s: State) {
    s == State(Manifest({}, 0, 2), map[], map[], Down, {}, {}, {})
  }

  ghost predicate MayAppend(s: State, b: Batch) {
    s.memory.Up? && s.memory.inflight.None? && b !in s.attempted && s.memory.logfile in s.logs
  }

  function Appended(l: Log, r: Record): Log {
    l.(records := l.records + [r])
  }

  /** AddRecord for a group; nothing is acknowledged yet. */
  ghost predicate Append(s: State, s': State, r: Record) {
    && MayAppend(s, r.batch)
    && var l := s.memory.logfile;
    && (!s.logs[l].torn ==> r.seen)
    && s' == s.(logs := s.logs[l := Appended(s.logs[l], r)], attempted := s.attempted + {r.batch},
                memory := s.memory.(inflight := Some(r)))
  }

  /** AddRecord fails: without a sync error nothing is remembered of it, and the log goes on behind what was
      written of the record, or behind a position that the writer has wrong. */
  ghost predicate AppendFails(s: State, s': State, b: Batch) {
    && MayAppend(s, b)
    && var l := s.memory.logfile;
    && s' == s.(logs := s.logs[l := s.logs[l].(torn := true)], attempted := s.attempted + {b})
  }

  /** The process dies within AddRecord. */
  ghost predicate CrashInAppend(s: State, s': State, b: Batch) {
    && MayAppend(s, b)
    && var l := s.memory.logfile;
    && s' == s.(logs := s.logs[l := s.logs[l].(torn := true)], attempted := s.attempted + {b}, memory := Down)
  }

  /** InsertInto the memtable and report success. */
  ghost predicate Acknowledge(s: State, s': State) {
    && s.memory.Up? && s.memory.inflight.Some?
    && var r := s.memory.inflight.value;
    && s' == s.(acked := s.acked + {r.batch}, lost := if r.seen then s.lost else s.lost + {r.batch},
                memory := s.memory.(mem := s.memory.mem + {r.batch}, inflight := None))
  }

  /** The sync fails, or the insertion: the record stays; after a failed sync every later group fails too. */
  ghost predicate WriteFails(s: State, s': State) {
    && s.memory.Up? && s.memory.inflight.Some?
    && (s'.memory == s.memory.(inflight := None) || s'.memory == s.memory.(inflight := None, broken := true))
    && s' == s.(memory := s'.memory)
  }

  /** MakeRoomForWrite switches to a new log and memtable.  Creating the log truncates that file. */
  ghost predicate SwitchMemTable(s: State, s': State) {
    && s.memory.Up? && s.memory.inflight.None? && !s.memory.broken && s.memory.imm.None?
    && var m := s.memory;
    && s' == s.(logs := s.logs[m.nextFile := Log([], false)],
                memory := m.(logfile := m.nextFile, nextFile := m.nextFile + 1, imm := Some(m.mem), mem := {},
                  built := None))
  }

  // ---------- Flushing and compacting ----------

  /** WriteLevel0Table.  Creating the table truncates that file. */
  ghost predicate BuildTable(s: State, s': State) {
    && s.memory.Up? && s.memory.imm.Some? && s.memory.built.None?
    && var m := s.memory;
    && s' == s.(tables := s.tables[m.nextFile := m.imm.value],
                memory := m.(built := Some(m.nextFile), nextFile := m.nextFile + 1))
  }

  ghost predicate MayInstall(s: State) {
    s.memory.Up? && s.memory.imm.Some? && s.memory.built.Some? && !s.memory.broken
  }

  ghost function FlushedManifest(s: State): Manifest
    requires MayInstall(s)
  {
    Manifest(s.memory.live + {s.memory.built.value}, s.memory.logfile, s.memory.nextFile)
  }

  /** CompactMemTable installs the table; logs before the current one are no longer needed. */
  ghost predicate InstallFlush(s: State, s': State) {
    && MayInstall(s)
    && var manifest := FlushedManifest(s);
    && s' == s.(manifest := manifest,
                memory := s.memory.(imm := None, built := None, live := manifest.tables,
                  logNumber := manifest.logNumber))
  }

  /** Building the table fails, or LogAndApply: its manifest record may or may not have reached the disk. */
  ghost predicate FlushError(s: State, s': State) {
    && s.memory.Up? && s.memory.imm.Some? && !s.memory.broken
    && (s'.manifest == s.manifest || (s.memory.built.Some? && s'.manifest == FlushedManifest(s)))
    && s' == s.(manifest := s'.manifest, memory := s.memory.(broken := true))
  }

  /** A compaction writes a table; it is pending until the compaction is over. */
  ghost predicate WriteOutput(s: State, s': State, contents: set<Batch>) {
    && s.memory.Up? && contents <= Contents(s.tables, s.memory.live)
    && var m := s.memory;
    && s' == s.(tables := s.tables[m.nextFile := contents],
                memory := m.(pending := m.pending + {m.nextFile}, nextFile := m.nextFile + 1))
  }

  /** The outputs hold what is left of each batch of the inputs. */
  ghost predicate MayReplace(s: State, inputs: set<nat>) {
    && s.memory.Up? && !s.memory.broken && s.memory.built.None?
    && inputs <= s.memory.live && Contents(s.tables, inputs) <= Contents(s.tables, s.memory.pending)
  }

  ghost function CompactedManifest(s: State, inputs: set<nat>): Manifest
    requires s.memory.Up?
  {
    Manifest(s.memory.live - inputs + s.memory.pending, s.memory.logNumber, s.memory.nextFile)
  }

  /** InstallCompactionResults */
  ghost predicate InstallCompaction(s: State, s': State, inputs: set<nat>) {
    && MayReplace(s, inputs)
    && var manifest := CompactedManifest(s, inputs);
    && s' == s.(manifest := manifest, memory := s.memory.(live := manifest.tables, pending := {}))
  }

  /** The compaction fails, or LogAndApply for it. */
  ghost predicate CompactionError(s: State, s': State, inputs: set<nat>) {
    && s.memory.Up? && !s.memory.broken
    && (s'.manifest == s.manifest || (MayReplace(s, inputs) && s'.manifest == CompactedManifest(s, inputs)))
    && s' == s.(manifest := s'.manifest, memory := s.memory.(broken := true))
  }

  /** DeleteObsoleteFiles, one file at a time, never after a background error: a log ... */
  ghost predicate DeleteLog(s: State, s': State, n: nat) {
    && s.memory.Up? && !s.memory.broken
    && n in s.logs && n < s.memory.logNumber
    && s' == s.(logs := s.logs - {n})
  }

  /** ... or a table.  The background thread calls it, never between building a table and installing it. */
  ghost predicate DeleteTable(s: State, s': State, n: nat) {
    && s.memory.Up? && !s.memory.broken && s.memory.built.None?
    && n in s.tables && n !in s.memory.live + s.memory.pending
    && s' == s.(tables := s.tables - {n})
  }

  // ---------- Crash and recovery ----------

  /** Also an error of recovery, which gives up. */
  ghost predicate Crash(s: State, s': State) {
    s' == s.(memory := Down)
  }

  /** Recover reads the manifest and lists the logs numbered at least its log number. */
  ghost predicate BeginRecovery(s: State, s': State, todo: seq<nat>, save: bool) {
    && s.memory.Down?
    && Ascending(todo)
    && (forall n :: n in todo <==> n in s.logs && n >= s.manifest.logNumber)
    && s' == s.(memory := Recovering(todo, 0, {}, 0, {}, save, None, {}, s.manifest.nextFile + 1))
  }

  ghost predicate Reading(s: State) {
    s.memory.Recovering? && s.memory.todo != [] && s.memory.todo[0] in s.logs
  }

  /** RecoverLogFile reads one record, or passes one that the reader drops, and may write out a memtable that
      grew too big. */
  ghost predicate ReplayRecord(s: State, s': State, tooBig: bool) {
    && Reading(s)
    && var m := s.memory;
    && var records := s.logs[m.todo[0]].records;
    && m.read < |records|
    && var r := records[m.read];
    && s' ==
         if !r.seen then s.(memory := m.(read := m.read + 1))
         else if !tooBig then s.(memory := m.(read := m.read + 1, mem := m.mem + {r.batch}))
         else s.(tables := s.tables[m.nextFile := m.mem + {r.batch}],
                 memory := m.(read := m.read + 1, mem := {}, compactions := m.compactions + 1,
                              edit := m.edit + {m.nextFile}, save := true, nextFile := m.nextFile + 1))
  }

  /** The end of a log, whole or torn: reuse it if it is the last and nothing of it was written out, else write
      out what is left.  Its number is marked used. */
  ghost predicate FinishLog(s: State, s': State, reuse: bool) {
    && Reading(s)
    && var m := s.memory;
    && m.read == |s.logs[m.todo[0]].records|
    && (reuse ==> |m.todo| == 1 && m.compactions == 0)
    && var left := m.(todo := m.todo[1..], read := 0, mem := {}, compactions := 0);
    && s' ==
         if reuse then
           s.(memory := left.(kept := Some(m.todo[0]), keptMem := m.mem, nextFile := Max(m.nextFile, m.todo[0] + 1)))
         else if m.mem == {} then
           s.(memory := left.(nextFile := Max(m.nextFile, m.todo[0] + 1)))
         else
           s.(tables := s.tables[m.nextFile := m.mem],
              memory := left.(edit := m.edit + {m.nextFile}, save := true,
                nextFile := Max(m.nextFile + 1, m.todo[0] + 1)))
  }

  /** Without a reused log, Open creates a new one; creating it truncates that file. */
  ghost predicate CreateLog(s: State, s': State) {
    && s.memory.Recovering? && s.memory.todo == [] && s.memory.kept.None?
    && var m := s.memory;
    && s' == s.(logs := s.logs[m.nextFile := Log([], false)],
                memory := m.(kept := Some(m.nextFile), keptMem := {}, nextFile := m.nextFile + 1))
  }

  ghost function RecoveredManifest(s: State): Manifest
    requires s.memory.Recovering? && s.memory.kept.Some?
  {
    if s.memory.save then
      Manifest(s.manifest.tables + s.memory.edit, s.memory.kept.value, s.memory.nextFile)
    else s.manifest
  }

  /** Open installs the edit, if the manifest has to be saved, and the database is up. */
  ghost predicate FinishRecovery(s: State, s': State) {
    && s.memory.Recovering? && s.memory.todo == [] && s.memory.kept.Some?
    && var m := s.memory;
    && var manifest := RecoveredManifest(s);
    && s' == s.(manifest := manifest,
                memory := Up(m.keptMem, None, None, manifest.tables, {}, m.kept.value, manifest.logNumber, m.nextFile,
                  None, false))
  }

  ghost predicate WriteStep(s: State, s': State) {
    || (exists r :: Append(s, s', r)) || (exists b :: AppendFails(s, s', b)) || (exists b :: CrashInAppend(s, s', b))
    || Acknowledge(s, s') || WriteFails(s, s') || SwitchMemTable(s, s')
  }

  ghost predicate FileStep(s: State, s': State) {
    || BuildTable(s, s') || InstallFlush(s, s') || FlushError(s, s')
    || (exists contents :: WriteOutput(s, s', contents)) || (exists inputs :: InstallCompaction(s, s', inputs))
    || (exists inputs :: CompactionError(s, s', inputs))
    || (exists n :: DeleteLog(s, s', n)) || (exists n :: DeleteTable(s, s', n))
  }

  ghost predicate RecoveryStep(s: State, s': State) {
    || Crash(s, s') || (exists todo, save :: BeginRecovery(s, s', todo, save))
    || (exists big :: ReplayRecord(s, s', big)) || (exists reuse :: FinishLog(s, s', reuse))
    || CreateLog(s, s') || FinishRecovery(s, s')
  }

  ghost predicate Step(s: State, s': State) {
    WriteStep(s, s') || FileStep(s, s') || RecoveryStep(s, s')
  }

  // ---------- Invariant ----------

  /** Batch `b` would be seen by a recovery starting now. */
  ghost predicate Recoverable(s: State, b: Batch) {
    b in Stored(s) || exists n :: n >= s.manifest.logNumber && Logged(s, n, b)
  }

  ghost predicate Durable(s: State) {
    forall b :: b in s.acked ==> Recoverable(s, b)
  }

  /** Acknowledged with a record that a recovery sees. */
  ghost predicate Safe(s: State, b: Batch) {
    b in s.acked && b !in s.lost
  }

  ghost predicate SafeOnes(s: State) {
    forall b :: Safe(s, b) ==> Recoverable(s, b)
  }

  /** Nothing on disk was never written. */
  ghost predicate NothingInvented(s: State) {
    && s.acked <= s.attempted && s.lost <= s.acked
    && (forall n :: n in s.tables ==> s.tables[n] <= s.attempted)
    && (forall n, r :: n in s.logs && r in s.logs[n].records ==> r.batch in s.attempted)
    && (forall n :: n in s.logs ==> s.logs[n].torn || AllSeen(s.logs[n].records))
  }

  ghost predicate AllSeen(records: seq<Record>) {
    forall r :: r in records ==> r.seen
  }

  ghost predicate NamesBelow(names: set<nat>, tables: map<nat, set<Batch>>, n: nat) {
    names <= tables.Keys && forall k :: k in names ==> k < n
  }

  ghost predicate ManifestOk(s: State) {
    s.manifest.logNumber < s.manifest.nextFile && NamesBelow(s.manifest.tables, s.tables, s.manifest.nextFile)
  }

  ghost predicate UpFiles(s: State)
    requires s.memory.Up?
  {
    var m := s.memory;
    && m.logfile in s.logs
    && m.logNumber <= s.manifest.logNumber <= m.logfile < m.nextFile
    && s.manifest.nextFile <= m.nextFile
    && (forall n :: n in s.logs ==> n <= m.logfile)
    && NamesBelow(m.live + m.pending, s.tables, m.nextFile)
    && m.live !! m.pending && (m.built.Some? ==> m.built.value !in m.live + m.pending)
    && (m.built.Some? ==> m.imm.Some? && m.built.value in s.tables && m.built.value < m.nextFile
                          && s.tables[m.built.value] == m.imm.value)
    && (!m.broken ==> m.live == s.manifest.tables && m.logNumber == s.manifest.logNumber)
  }

  ghost predicate UpMemory(s: State)
    requires s.memory.Up?
  {
    var m := s.memory;
    && m.mem <= s.attempted && (m.imm.Some? ==> m.imm.value <= s.attempted)
    // what the manifest may name after a failed install is still in memory
    && Stored(s) <= Contents(s.tables, m.live) + (if m.imm.Some? then m.imm.value else {})
    && Contents(s.tables, m.pending) <= Contents(s.tables, m.live)
    // logs before the current one are in the immutable memtable or in tables
    && (forall n: nat, b :: Earlier(s, n, b) ==> b in Stored(s) || (m.imm.Some? && b in m.imm.value))
    // the current log is in the memtable
    && (forall b :: Logged(s, m.logfile, b) && Safe(s, b) ==> b in m.mem || b in Stored(s))
  }

  ghost predicate Earlier(s: State, n: nat, b: Batch)
    requires s.memory.Up?
  {
    s.manifest.logNumber <= n < s.memory.logfile && Logged(s, n, b) && Safe(s, b)
  }

  /** A record in flight is nowhere but at the end of the current log. */
  ghost predicate UpInflight(s: State)
    requires s.memory.Up? && s.memory.logfile in s.logs
  {
    var m := s.memory;
    m.inflight.Some? ==>
      var r := m.inflight.value;
      && r in s.logs[m.logfile].records && r.batch in s.attempted && r.batch !in s.acked && r.batch !in m.mem
      && (m.imm.Some? ==> r.batch !in m.imm.value)
      && (forall n :: n in s.tables ==> r.batch !in s.tables[n])
      && (forall n, q :: n in s.logs && q in s.logs[n].records && q.batch == r.batch ==> n == m.logfile && q == r)
  }

  ghost predicate RecoveringFiles(s: State)
    requires s.memory.Recovering?
  {
    var m := s.memory;
    && s.manifest.nextFile < m.nextFile
    && NamesBelow(m.edit, s.tables, m.nextFile)
    && Ascending(m.todo)
    && (forall n :: n in m.todo ==> n in s.logs && n >= s.manifest.logNumber)
    && (m.todo != [] ==> m.read <= |s.logs[m.todo[0]].records| && m.kept.None?)
    && (m.todo == [] ==> m.read == 0 && m.mem == {})
    && (m.edit != {} ==> m.save)
    && (forall n: nat :: Finished(s, n) ==> n < m.nextFile && (m.todo != [] ==> n < m.todo[0]))
    && (m.kept.Some? ==>
      Finished(s, m.kept.value) && forall n :: n in s.logs && n >= s.manifest.logNumber ==> n <= m.kept.value)
  }

  /** Batches of finished logs, and of the part read of the current one, are in the edit or kept. */
  ghost predicate RecoveringMemory(s: State)
    requires s.memory.Recovering? && (s.memory.todo != [] ==> s.memory.todo[0] in s.logs)
  {
    var m := s.memory;
    && m.mem <= s.attempted && m.keptMem <= s.attempted
    && (forall n: nat, b :: Finished(s, n) && Logged(s, n, b) ==>
          b in Contents(s.tables, m.edit) || (m.kept == Some(n) && b in m.keptMem))
    && (m.todo != [] ==> ReadIn(s.logs[m.todo[0]].records, m.read, m.mem + Contents(s.tables, m.edit)))
    && (m.todo != [] && m.compactions == 0 ==> ReadIn(s.logs[m.todo[0]].records, m.read, m.mem))
  }

  /** The batches of the first `n` records that are seen. */
  ghost predicate ReadIn(records: seq<Record>, n: nat, batches: set<Batch>) {
    forall i :: 0 <= i < n && i < |records| && records[i].seen ==> records[i].batch in batches
  }

  ghost predicate Finished(s: State, n: nat)
    requires s.memory.Recovering?
  {
    n in s.logs && n >= s.manifest.logNumber && n !in s.memory.todo
  }

  ghost predicate Inv(s: State) {
    && SafeOnes(s) && NothingInvented(s) && ManifestOk(s)
    && (s.memory.Up? ==> UpFiles(s) && UpMemory(s) && UpInflight(s))
    && (s.memory.Recovering? ==> RecoveringFiles(s) && RecoveringMemory(s))
  }

  /** What the open database can read. */
  ghost function Readable(s: State): set<Batch>
    requires s.memory.Up?
  {
    s.memory.mem + (if s.memory.imm.Some? then s.memory.imm.value else {}) + Contents(s.tables, s.memory.live)
  }

  // ---------- Every step keeps the invariant ----------

  /** A new table under a number that is not in use. */
  lemma NewTable(tables: map<nat, set<Batch>>, n: nat, contents: set<Batch>, names: set<nat>)
    requires NamesBelow(names, tables, n)
    ensures Contents(tables[n := contents], names) == Contents(tables, names)
    ensures Contents(tables[n := contents], names + {n}) == Contents(tables, names) + contents
  {
    var after := tables[n := contents];
    forall b | b in Contents(tables, names) + contents
      ensures b in Contents(after, names + {n}) && (b in Contents(tables, names) ==> b in Contents(after, names))
    {
      if b in Contents(tables, names) {
        var k :| k in names && k in tables && b in tables[k];
        assert k in after && after[k] == tables[k];
      } else {
        assert after[n] == contents;
      }
    }
  }

  lemma ContentsUnion(tables: map<nat, set<Batch>>, a: set<nat>, b: set<nat>)
    ensures Contents(tables, a + b) == Contents(tables, a) + Contents(tables, b)
  {
  }

  /** Changes to a log under writing, and to the memory, leave everything else recoverable. */
  lemma SafeStill(s: State, s': State)
    requires SafeOnes(s) && s'.manifest == s.manifest && Stored(s) <= Stored(s')
    requires forall b :: Safe(s', b) ==> Safe(s, b)
    requires forall n, b :: n >= s.manifest.logNumber && Logged(s, n, b) ==> Logged(s', n, b)
    ensures SafeOnes(s')
  {
    forall b | Safe(s', b)
      ensures Recoverable(s', b)
    {
      assert Recoverable(s, b);
    }
  }

  /** Logs before the current one are as well off as they were. */
  lemma EarlierStill(s: State, s': State)
    requires s.memory.Up? && s'.memory.Up? && UpMemory(s)
    requires forall n: nat, b :: Earlier(s', n, b) ==> Earlier(s, n, b)
    requires var held := if s.memory.imm.Some? then s.memory.imm.value else {};
      Stored(s) + held <= Stored(s') + (if s'.memory.imm.Some? then s'.memory.imm.value else {})
    ensures forall n: nat, b :: Earlier(s', n, b) ==>
      b in Stored(s') || (s'.memory.imm.Some? && b in s'.memory.imm.value)
  {
    forall n: nat, b | Earlier(s', n, b)
      ensures b in Stored(s') || (s'.memory.imm.Some? && b in s'.memory.imm.value)
    {
      assert Earlier(s, n, b);
    }
  }

  lemma AppendKeeps(s: State, s': State, r: Record)
    requires Inv(s) && Append(s, s', r)
    ensures Inv(s')
  {
    SafeStill(s, s');
    EarlierStill(s, s');
  }

  lemma TornKeeps(s: State, s': State, b: Batch)
    requires Inv(s) && (AppendFails(s, s', b) || CrashInAppend(s, s', b))
    ensures Inv(s')
  {
    SafeStill(s, s');
    if s'.memory.Up? { EarlierStill(s, s'); }
  }

  lemma AcknowledgeKeeps(s: State, s': State)
    requires Inv(s) && Acknowledge(s, s')
    ensures Inv(s')
  {
    var r := s.memory.inflight.value;
    EarlierStill(s, s');
    forall b | Safe(s', b)
      ensures Recoverable(s', b)
    {
      if b == r.batch {
        assert Logged(s', s.memory.logfile, b);
      } else {
        assert Safe(s, b) && Recoverable(s, b);
        if b !in Stored(s) {
          var n :| n >= s.manifest.logNumber && Logged(s, n, b);
          assert Logged(s', n, b);
        }
      }
    }
  }

  lemma WriteFailsKeeps(s: State, s': State)
    requires Inv(s) && WriteFails(s, s')
    ensures Inv(s')
  {
    SafeStill(s, s');
    EarlierStill(s, s');
  }

  lemma SwitchKeeps(s: State, s': State)
    requires Inv(s) && SwitchMemTable(s, s')
    ensures Inv(s')
  {
    SafeStill(s, s');
    forall n: nat, b | Earlier(s', n, b)
      ensures b in Stored(s') || b in s'.memory.imm.value
    {
      assert Logged(s, n, b) && Safe(s, b);
      assert n < s.memory.logfile ==> Earlier(s, n, b);
    }
  }

  lemma BuildKeeps(s: State, s': State)
    requires Inv(s) && BuildTable(s, s')
    ensures Inv(s')
  {
    var m := s.memory;
    NewTable(s.tables, m.nextFile, m.imm.value, s.manifest.tables);
    NewTable(s.tables, m.nextFile, m.imm.value, m.live);
    NewTable(s.tables, m.nextFile, m.imm.value, m.pending);
    SafeStill(s, s');
    EarlierStill(s, s');
  }

  lemma WriteOutputKeeps(s: State, s': State, contents: set<Batch>)
    requires Inv(s) && WriteOutput(s, s', contents)
    ensures Inv(s')
  {
    var m := s.memory;
    NewTable(s.tables, m.nextFile, contents, s.manifest.tables);
    NewTable(s.tables, m.nextFile, contents, m.live);
    NewTable(s.tables, m.nextFile, contents, m.pending);
    SafeStill(s, s');
    EarlierStill(s, s');
  }

  /** Moving the manifest's log number forward to the current log loses nothing. */
  lemma FlushedIsDurable(s: State, s': State)
    requires Inv(s) && MayInstall(s) && s'.manifest == FlushedManifest(s)
    requires s'.logs == s.logs && s'.tables == s.tables && s'.acked == s.acked && s'.lost == s.lost
    ensures SafeOnes(s') && Stored(s') == Stored(s) + s.memory.imm.value
  {
    var m := s.memory;
    ContentsUnion(s.tables, m.live, {m.built.value});
    assert Contents(s.tables, {m.built.value}) == m.imm.value;
    forall b | Safe(s', b)
      ensures Recoverable(s', b)
    {
      assert Safe(s, b) && Recoverable(s, b);
      if b !in Stored(s) {
        var n :| n >= s.manifest.logNumber && Logged(s, n, b);
        if n < m.logfile {
          assert Earlier(s, n, b);
        } else {
          assert Logged(s', n, b);
        }
      }
    }
  }

  lemma FlushKeeps(s: State, s': State)
    requires Inv(s) && (InstallFlush(s, s') || FlushError(s, s'))
    ensures Inv(s')
  {
    if MayInstall(s) && s'.manifest == FlushedManifest(s) {
      FlushedIsDurable(s, s');
    } else {
      SafeStill(s, s');
    }
    EarlierStill(s, s');
  }

  /** Replacing tables by others that hold their batches loses nothing. */
  lemma CompactedIsDurable(s: State, s': State, inputs: set<nat>)
    requires Inv(s) && MayReplace(s, inputs) && s'.manifest == CompactedManifest(s, inputs)
    requires s'.logs == s.logs && s'.tables == s.tables && s'.acked == s.acked && s'.lost == s.lost
    ensures SafeOnes(s') && Stored(s') == Stored(s)
  {
    var m := s.memory;
    ContentsUnion(s.tables, m.live - inputs, m.pending);
    ContentsUnion(s.tables, m.live - inputs, inputs);
    assert m.live - inputs + inputs == m.live;
    forall b | Safe(s', b)
      ensures Recoverable(s', b)
    {
      assert Safe(s, b) && Recoverable(s, b);
      if b !in Stored(s') {
        var n :| n >= s.manifest.logNumber && Logged(s, n, b);
        assert Logged(s', n, b);
      }
    }
  }

  lemma CompactionKeeps(s: State, s': State, inputs: set<nat>)
    requires Inv(s) && (InstallCompaction(s, s', inputs) || CompactionError(s, s', inputs))
    ensures Inv(s')
  {
    if MayReplace(s, inputs) && s'.manifest == CompactedManifest(s, inputs) {
      CompactedIsDurable(s, s', inputs);
    } else {
      SafeStill(s, s');
    }
    EarlierStill(s, s');
  }

  lemma DeleteKeeps(s: State, s': State, n: nat)
    requires Inv(s) && DeleteLog(s, s', n)
    ensures Inv(s')
  {
    assert forall k, b :: k >= s.manifest.logNumber && Logged(s, k, b) ==> Logged(s', k, b);
    SafeStill(s, s');
    EarlierStill(s, s');
  }

  lemma DeleteTableKeeps(s: State, s': State, n: nat)
    requires Inv(s) && DeleteTable(s, s', n)
    ensures Inv(s')
  {
    RestKept(s.tables, n, s.manifest.tables);
    RestKept(s.tables, n, s.memory.pending);
    SafeStill(s, s');
    EarlierStill(s, s');
  }

  lemma RestKept(tables: map<nat, set<Batch>>, n: nat, names: set<nat>)
    requires n !in names
    ensures Contents(tables - {n}, names) == Contents(tables, names)
  {
    forall b | b in Contents(tables, names)
      ensures b in Contents(tables - {n}, names)
    {
      var k :| k in names && k in tables && b in tables[k];
      assert k in tables - {n} && (tables - {n})[k] == tables[k];
    }
  }

  lemma BeginRecoveryKeeps(s: State, s': State, todo: seq<nat>, save: bool)
    requires Inv(s) && BeginRecovery(s, s', todo, save)
    ensures Inv(s')
  {
    SafeStill(s, s');
  }

  /** Logs that were finished are as well off as they were. */
  lemma FinishedStill(s: State, s': State)
    requires s.memory.Recovering? && s'.memory.Recovering? && s'.manifest == s.manifest && s'.logs == s.logs
    requires RecoveringFiles(s) && RecoveringMemory(s) && s'.memory.todo == s.memory.todo
      && s'.memory.kept == s.memory.kept
    requires s'.memory.keptMem == s.memory.keptMem
    requires Contents(s.tables, s.memory.edit) <= Contents(s'.tables, s'.memory.edit)
    ensures forall n: nat :: Finished(s', n) <==> Finished(s, n)
    ensures forall n: nat, b :: Finished(s', n) && Logged(s', n, b) ==>
      b in Contents(s'.tables, s'.memory.edit) || (s'.memory.kept == Some(n) && b in s'.memory.keptMem)
  {
    forall n: nat, b | Finished(s', n) && Logged(s', n, b)
      ensures b in Contents(s'.tables, s'.memory.edit) || (s'.memory.kept == Some(n) && b in s'.memory.keptMem)
    {
      assert Finished(s, n) && Logged(s, n, b);
    }
  }

  /** What is on disk after a record has been read. */
  lemma ReplayStores(s: State, s': State, tooBig: bool)
    requires Inv(s) && ReplayRecord(s, s', tooBig)
    ensures SafeOnes(s') && NothingInvented(s') && ManifestOk(s')
    ensures Contents(s.tables, s.memory.edit) <= Contents(s'.tables, s'.memory.edit)
    ensures s'.memory.mem + Contents(s'.tables, s'.memory.edit) >= s.memory.mem + Contents(s.tables, s.memory.edit)
  {
    var m := s.memory;
    var r := s.logs[m.todo[0]].records[m.read];
    assert r in s.logs[m.todo[0]].records;
    NewTable(s.tables, m.nextFile, m.mem + {r.batch}, m.edit);
    NewTable(s.tables, m.nextFile, m.mem + {r.batch}, s.manifest.tables);
    SafeStill(s, s');
  }

  lemma ReplayReads(s: State, s': State, tooBig: bool)
    requires Inv(s) && ReplayRecord(s, s', tooBig)
    ensures var r := s.logs[s.memory.todo[0]].records[s.memory.read];
      r.seen ==> r.batch in s'.memory.mem + Contents(s'.tables, s'.memory.edit)
  {
    var m := s.memory;
    var r := s.logs[m.todo[0]].records[m.read];
    NewTable(s.tables, m.nextFile, m.mem + {r.batch}, m.edit);
  }

  lemma ReplayKeeps(s: State, s': State, tooBig: bool)
    requires Inv(s) && ReplayRecord(s, s', tooBig)
    ensures Inv(s')
  {
    ReplayStores(s, s', tooBig);
    ReplayReads(s, s', tooBig);
    FinishedStill(s, s');
    var m := s.memory;
    assert s.logs[m.todo[0]].records[m.read] in s.logs[m.todo[0]].records;
  }

  lemma TodoTail(todo: seq<nat>, n: nat)
    requires Ascending(todo) && todo != []
    ensures n in todo[1..] <==> n in todo && n != todo[0]
  {
    if n in todo && n != todo[0] {
      var i :| 0 <= i < |todo| && todo[i] == n;
      assert todo[1..][i - 1] == n;
    }
  }

  /** The logs that are finished afterwards. */
  lemma FinishLogFinishes(s: State, s': State, reuse: bool, n: nat)
    requires Inv(s) && FinishLog(s, s', reuse)
    ensures Finished(s', n) <==> Finished(s, n) || n == s.memory.todo[0]
    ensures reuse && n in s.logs && n >= s.manifest.logNumber ==> n <= s.memory.todo[0]
  {
    TodoTail(s.memory.todo, n);
    assert n in s.logs && n >= s.manifest.logNumber ==> Finished(s, n) || n in s.memory.todo;
  }

  lemma FinishLogRead(s: State, b: Batch)
    requires Inv(s) && Reading(s) && s.memory.read == |s.logs[s.memory.todo[0]].records|
      && Logged(s, s.memory.todo[0], b)
    ensures b in s.memory.mem + Contents(s.tables, s.memory.edit)
    ensures s.memory.compactions == 0 ==> b in s.memory.mem
  {
    var records := s.logs[s.memory.todo[0]].records;
    var i :| 0 <= i < |records| && records[i] == Record(b, true);
  }

  /** What is on disk after a log has been finished. */
  lemma FinishLogStores(s: State, s': State, reuse: bool)
    requires Inv(s) && FinishLog(s, s', reuse)
    ensures SafeOnes(s') && NothingInvented(s') && ManifestOk(s')
    ensures Contents(s.tables, s.memory.edit) <= Contents(s'.tables, s'.memory.edit)
    ensures !reuse ==> s.memory.mem <= Contents(s'.tables, s'.memory.edit)
  {
    var m := s.memory;
    NewTable(s.tables, m.nextFile, m.mem, m.edit);
    NewTable(s.tables, m.nextFile, m.mem, s.manifest.tables);
    SafeStill(s, s');
  }

  lemma FinishLogFiles(s: State, s': State, reuse: bool)
    requires Inv(s) && FinishLog(s, s', reuse)
    ensures RecoveringFiles(s')
  {
    var m := s.memory;
    forall n: nat
      ensures Finished(s', n) <==> Finished(s, n) || n == m.todo[0]
      ensures reuse && n in s.logs && n >= s.manifest.logNumber ==> n <= m.todo[0]
    {
      FinishLogFinishes(s, s', reuse, n);
    }
    assert m.todo[1..] != [] ==> m.todo[1..][0] == m.todo[1];
  }

  lemma FinishLogMemory(s: State, s': State, reuse: bool)
    requires Inv(s) && FinishLog(s, s', reuse)
    requires Contents(s.tables, s.memory.edit) <= Contents(s'.tables, s'.memory.edit)
    requires !reuse ==> s.memory.mem <= Contents(s'.tables, s'.memory.edit)
    ensures forall n: nat, b :: Finished(s', n) && Logged(s', n, b) ==>
      b in Contents(s'.tables, s'.memory.edit) || (s'.memory.kept == Some(n) && b in s'.memory.keptMem)
  {
    var m := s.memory;
    forall n: nat, b | Finished(s', n) && Logged(s', n, b)
      ensures b in Contents(s'.tables, s'.memory.edit) || (s'.memory.kept == Some(n) && b in s'.memory.keptMem)
    {
      FinishLogFinishes(s, s', reuse, n);
      assert Logged(s, n, b);
      if n == m.todo[0] { FinishLogRead(s, b); }
    }
  }

  lemma FinishLogKeeps(s: State, s': State, reuse: bool)
    requires Inv(s) && FinishLog(s, s', reuse)
    ensures Inv(s')
  {
    FinishLogStores(s, s', reuse);
    FinishLogFiles(s, s', reuse);
    FinishLogMemory(s, s', reuse);
  }

  lemma CreateLogKeeps(s: State, s': State)
    requires Inv(s) && CreateLog(s, s')
    ensures Inv(s')
  {
    var l := s.memory.nextFile;
    forall n | n in s.logs
      ensures n < l
    {
      assert n >= s.manifest.logNumber ==> Finished(s, n);
    }
    SafeStill(s, s');
    assert forall n: nat :: Finished(s', n) <==> Finished(s, n) || n == l;
    forall n: nat, b | Finished(s', n) && Logged(s', n, b)
      ensures b in Contents(s'.tables, s'.memory.edit)
    {
      assert Finished(s, n) && Logged(s, n, b);
    }
  }

  lemma FinishRecoveryKeeps(s: State, s': State)
    requires Inv(s) && FinishRecovery(s, s')
    ensures Inv(s')
  {
    var m := s.memory;
    var l := m.kept.value;
    ContentsUnion(s.tables, s.manifest.tables, m.edit);
    assert Finished(s, l);
    forall n: nat, b | n >= s.manifest.logNumber && Logged(s, n, b)
      ensures n <= l && (n < l ==> b in Stored(s')) && (n == l ==> b in m.keptMem || b in Stored(s'))
    {
      assert Finished(s, n);
      assert n != l ==> b in Contents(s.tables, m.edit) && m.edit != {};
    }
    forall n | n in s.logs
      ensures n <= l
    {
    }
    forall b | Safe(s', b)
      ensures Recoverable(s', b)
    {
      assert Safe(s, b) && Recoverable(s, b);
      if b !in Stored(s') {
        var n :| n >= s.manifest.logNumber && Logged(s, n, b);
        assert n == l && Logged(s', n, b);
      }
    }
    forall n: nat, b | Earlier(s', n, b)
      ensures b in Stored(s')
    {
      assert Logged(s, n, b);
    }
  }

  lemma WriteStepKeepsInv(s: State, s': State)
    requires Inv(s) && WriteStep(s, s')
    ensures Inv(s')
  {
    if r :| Append(s, s', r) {
      AppendKeeps(s, s', r);
    } else if b :| AppendFails(s, s', b) {
      TornKeeps(s, s', b);
    } else if b :| CrashInAppend(s, s', b) {
      TornKeeps(s, s', b);
    } else if Acknowledge(s, s') {
      AcknowledgeKeeps(s, s');
    } else if WriteFails(s, s') {
      WriteFailsKeeps(s, s');
    } else {
      SwitchKeeps(s, s');
    }
  }

  lemma FileStepKeepsInv(s: State, s': State)
    requires Inv(s) && FileStep(s, s')
    ensures Inv(s')
  {
    if BuildTable(s, s') {
      BuildKeeps(s, s');
    } else if InstallFlush(s, s') || FlushError(s, s') {
      FlushKeeps(s, s');
    } else if contents :| WriteOutput(s, s', contents) {
      WriteOutputKeeps(s, s', contents);
    } else if inputs :| InstallCompaction(s, s', inputs) || CompactionError(s, s', inputs) {
      CompactionKeeps(s, s', inputs);
    } else if n :| DeleteLog(s, s', n) {
      DeleteKeeps(s, s', n);
    } else {
      var n :| DeleteTable(s, s', n);
      DeleteTableKeeps(s, s', n);
    }
  }

  lemma RecoveryStepKeepsInv(s: State, s': State)
    requires Inv(s) && RecoveryStep(s, s')
    ensures Inv(s')
  {
    if Crash(s, s') {
      SafeStill(s, s');
    } else if todo, save :| BeginRecovery(s, s', todo, save) {
      BeginRecoveryKeeps(s, s', todo, save);
    } else if big :| ReplayRecord(s, s', big) {
      ReplayKeeps(s, s', big);
    } else if reuse :| FinishLog(s, s', reuse) {
      FinishLogKeeps(s, s', reuse);
    } else if CreateLog(s, s') {
      CreateLogKeeps(s, s');
    } else {
      FinishRecoveryKeeps(s, s');
    }
  }

  lemma StepKeepsInv(s: State, s': State)
    requires Inv(s) && Step(s, s')
    ensures Inv(s')
  {
    if WriteStep(s, s') {
      WriteStepKeepsInv(s, s');
    } else if FileStep(s, s') {
      FileStepKeepsInv(s, s');
    } else {
      RecoveryStepKeepsInv(s, s');
    }
  }

  // ---------- Main results ----------

  ghost predicate Run(states: seq<State>) {
    && states != [] && Init(states[0])
    && forall i :: 0 <= i < |states| - 1 ==> Step(states[i], states[i + 1])
  }

  lemma {:induction false} ReachableInv(states: seq<State>)
    requires Run(states)
    ensures Inv(states[|states| - 1])
    decreases |states|
  {
    var n := |states| - 1;
    if n > 0 {
      assert Step(states[n - 1], states[n]);
      ReachableInv(states[..n]);
      StepKeepsInv(states[n - 1], states[n]);
    }
  }

  /** In every reachable state, before, during or after any crash, the tables named by the manifest and the logs it
      still needs hold every batch acknowledged with a record that recoveries see, and nothing never written. */
  lemma SafeWritesSurvive(states: seq<State>, b: Batch)
    requires Run(states)
    ensures var s := states[|states| - 1];
      && (b in s.acked && b !in s.lost ==> Recoverable(s, b))
      && (Recoverable(s, b) ==> b in s.attempted)
  {
    ReachableInv(states);
    assert Safe(states[|states| - 1], b) <==> b in states[|states| - 1].acked && b !in states[|states| - 1].lost;
  }

  /** Success is reported for a record that no recovery sees. */
  ghost predicate AcksUnseen(s: State, s': State) {
    Acknowledge(s, s') && !s.memory.inflight.value.seen
  }

  ghost predicate NoneUnseen(states: seq<State>) {
    forall i :: 0 <= i < |states| - 1 ==> !AcksUnseen(states[i], states[i + 1])
  }

  lemma OnlyAcksLose(s: State, s': State)
    requires Step(s, s') && !AcksUnseen(s, s')
    ensures s'.lost == s.lost
  {
  }

  lemma {:induction false} NothingLost(states: seq<State>)
    requires Run(states) && NoneUnseen(states)
    ensures states[|states| - 1].lost == {}
    decreases |states|
  {
    var n := |states| - 1;
    if n > 0 {
      assert Step(states[n - 1], states[n]) && !AcksUnseen(states[n - 1], states[n]);
      NothingLost(states[..n]);
      OnlyAcksLose(states[n - 1], states[n]);
    }
  }

  lemma UnseenIsLost(s: State, s': State)
    requires Inv(s) && AcksUnseen(s, s')
    ensures s.logs[s.memory.logfile].torn
    ensures s.memory.inflight.value.batch in s'.acked && !Recoverable(s', s.memory.inflight.value.batch)
  {
  }

  lemma AllDurable(states: seq<State>, i: nat)
    requires Run(states) && NoneUnseen(states) && i < |states|
    ensures Durable(states[i])
  {
    var prefix := states[..i + 1];
    ReachableInv(prefix);
    NothingLost(prefix);
    forall b | b in states[i].acked
      ensures Recoverable(states[i], b)
    {
      assert Safe(states[i], b);
    }
  }

  lemma UnseenIsNotDurable(states: seq<State>, i: nat)
    requires Run(states) && i < |states| - 1 && AcksUnseen(states[i], states[i + 1])
    ensures !Durable(states[i + 1])
  {
    ReachableInv(states[..i + 1]);
    UnseenIsLost(states[i], states[i + 1]);
  }

  /** Durability, over all runs: every state holds every acknowledged batch for a recovery, if and only if success
      is never reported for a record that the reader drops behind a torn end. */
  lemma AcknowledgedWritesSurviveIff(states: seq<State>)
    requires Run(states)
    ensures (forall i :: 0 <= i < |states| ==> Durable(states[i])) <==> NoneUnseen(states)
  {
    if NoneUnseen(states) {
      forall i | 0 <= i < |states|
        ensures Durable(states[i])
      {
        AllDurable(states, i);
      }
    } else {
      var i: nat :| i < |states| - 1 && AcksUnseen(states[i], states[i + 1]);
      UnseenIsNotDurable(states, i);
    }
  }

  lemma FreshBatch(bs: set<Batch>) returns (b: Batch)
    ensures b !in bs && forall x :: x in bs ==> x < b
    decreases bs
  {
    b := 0;
    if bs != {} {
      var x :| x in bs;
      var rest := FreshBatch(bs - {x});
      b := if x < rest then rest else x + 1;
      assert bs == (bs - {x}) + {x};
    }
  }

  /** The next group can be acknowledged and not be recoverable. */
  ghost predicate MayLose(s: State) {
    exists r, s1, s2 :: Append(s, s1, r) && Acknowledge(s1, s2) && !Recoverable(s2, r.batch)
  }

  /** Whether the next acknowledged write can be lost is known before it: exactly when the current log ends torn. */
  lemma LossIffTorn(states: seq<State>)
    requires Run(states)
    requires states[|states| - 1].memory.Up? && states[|states| - 1].memory.inflight.None?
    ensures var s := states[|states| - 1]; s.memory.logfile in s.logs && (MayLose(s) <==> s.logs[s.memory.logfile].torn)
  {
    ReachableInv(states);
    var s := states[|states| - 1];
    var l := s.memory.logfile;
    if s.logs[l].torn {
      var b := FreshBatch(s.attempted);
      var r := Record(b, false);
      var s1 := s.(logs := s.logs[l := Appended(s.logs[l], r)], attempted := s.attempted + {b},
                   memory := s.memory.(inflight := Some(r)));
      var s2 := s1.(acked := s1.acked + {b}, lost := s1.lost + {b},
        memory := s1.memory.(mem := s1.memory.mem + {b}, inflight := None));
      AppendKeeps(s, s1, r);
      UnseenIsLost(s1, s2);
      assert Append(s, s1, r) && Acknowledge(s1, s2) && !Recoverable(s2, r.batch);
    } else {
      forall r, s1, s2 | Append(s, s1, r) && Acknowledge(s1, s2)
        ensures Recoverable(s2, r.batch)
      {
        assert Logged(s2, l, r.batch);
      }
    }
  }

  /** A new database, opened: one empty log. */
  lemma Opening() returns (states: seq<State>)
    ensures Run(states) && |states| == 4
    ensures states[3] == State(Manifest({}, 3, 4), map[], map[3 := Log([], false)],
                               Up({}, None, None, {}, {}, 3, 3, 4, None, false), {}, {}, {})
  {
    var s0 := State(Manifest({}, 0, 2), map[], map[], Down, {}, {}, {});
    var s1 := s0.(memory := Recovering([], 0, {}, 0, {}, true, None, {}, 3));
    var s2 := s1.(logs := map[3 := Log([], false)], memory := s1.memory.(kept := Some(3), nextFile := 4));
    var s3 := s2.(manifest := Manifest({}, 3, 4), memory := Up({}, None, None, {}, {}, 3, 3, 4, None, false));
    assert BeginRecovery(s0, s1, [], true) && CreateLog(s1, s2);
    assert RecoveredManifest(s2) == s3.manifest;
    assert FinishRecovery(s2, s3);
    states := [s0, s1, s2, s3];
  }

  lemma {:induction false} RunOn(states: seq<State>, s': State)
    requires Run(states) && Step(states[|states| - 1], s')
    ensures Run(states + [s'])
  {
    var all := states + [s'];
    forall i | 0 <= i < |all| - 1
      ensures Step(all[i], all[i + 1])
    {
      assert i < |states| - 1 ==> Step(states[i], states[i + 1]);
    }
  }

  lemma SameDisk(s: State, s': State, b: Batch)
    requires s'.manifest == s.manifest && s'.tables == s.tables && s'.logs == s.logs && Recoverable(s, b)
    ensures Recoverable(s', b)
  {
    if b !in Stored(s) {
      var n :| n >= s.manifest.logNumber && Logged(s, n, b);
      assert Logged(s', n, b);
    }
  }

  /** Behind a torn end: append, acknowledge, crash. */
  lemma LosingEnd(states: seq<State>) returns (more: seq<State>)
    requires Run(states)
    requires var s := states[|states| - 1];
      && s.memory.Up? && s.memory.inflight.None? && s.memory.logfile in s.logs && s.logs[s.memory.logfile].torn
    ensures Run(more) && states <= more && !Durable(more[|more| - 1])
  {
    LossIffTorn(states);
    var s := states[|states| - 1];
    var r, s1, s2 :| Append(s, s1, r) && Acknowledge(s1, s2) && !Recoverable(s2, r.batch);
    assert Step(s, s1) && Step(s1, s2);
    RunOn(states, s1);
    RunOn(states + [s1], s2);
    var s3 := s2.(memory := Down);
    assert Crash(s2, s3) && Step(s2, s3);
    RunOn(states + [s1] + [s2], s3);
    more := states + [s1] + [s2] + [s3];
    if Recoverable(s3, r.batch) { SameDisk(s3, s2, r.batch); }
  }

  /** An append that fails is enough to lose what is acknowledged after it. */
  lemma FailedAppendLoses() returns (states: seq<State>)
    ensures Run(states) && |states| > 4 && AppendFails(states[3], states[4], 0) && !Durable(states[|states| - 1])
  {
    var start := Opening();
    var s := start[3];
    var s' := s.(logs := s.logs[3 := Log([], true)], attempted := {0});
    assert AppendFails(s, s', 0);
    RunOn(start, s');
    states := LosingEnd(start + [s']);
  }

  /** So is a crash within an append, when the log is then reused. */
  lemma ReusedTornLogLoses() returns (states: seq<State>)
    ensures Run(states) && |states| > 7 && CrashInAppend(states[3], states[4], 0)
      && FinishLog(states[5], states[6], true)
    ensures !Durable(states[|states| - 1])
  {
    var start := Opening();
    var s := start[3];
    var s4 := s.(logs := s.logs[3 := Log([], true)], attempted := {0}, memory := Down);
    var s5 := s4.(memory := Recovering([3], 0, {}, 0, {}, false, None, {}, 5));
    var s6 := s5.(memory := Recovering([], 0, {}, 0, {}, false, Some(3), {}, 5));
    var s7 := s6.(memory := Up({}, None, None, {}, {}, 3, 3, 5, None, false));
    assert CrashInAppend(s, s4, 0);
    RecoverTorn(s4, s5, s6, s7);
    RunOn(start, s4);
    RunOn(start + [s4], s5);
    RunOn(start + [s4] + [s5], s6);
    RunOn(start + [s4] + [s5] + [s6], s7);
    states := LosingEnd(start + [s4] + [s5] + [s6] + [s7]);
  }

  /** The recovery of a single torn log, which is reused. */
  lemma RecoverTorn(s4: State, s5: State, s6: State, s7: State)
    requires s4 == State(Manifest({}, 3, 4), map[], map[3 := Log([], true)], Down, {}, {}, {0})
    requires s5 == s4.(memory := Recovering([3], 0, {}, 0, {}, false, None, {}, 5))
    requires s6 == s5.(memory := Recovering([], 0, {}, 0, {}, false, Some(3), {}, 5))
    requires s7 == s6.(memory := Up({}, None, None, {}, {}, 3, 3, 5, None, false))
    ensures BeginRecovery(s4, s5, [3], false) && FinishLog(s5, s6, true) && FinishRecovery(s6, s7)
  {
    assert RecoveredManifest(s6) == s6.manifest;
  }

  /** AddRecord does not fail, and a log is reused only if it ended whole, or not at all. */
  ghost predicate CleanStep(s: State, s': State) {
    && !(exists b :: AppendFails(s, s', b))
    && !(FinishLog(s, s', true) && s.logs[s.memory.todo[0]].torn)
  }

  ghost predicate CleanRun(states: seq<State>) {
    Run(states) && forall i :: 0 <= i < |states| - 1 ==> CleanStep(states[i], states[i + 1])
  }

  ghost predicate WholeEnd(s: State) {
    && (s.memory.Up? && s.memory.logfile in s.logs ==> !s.logs[s.memory.logfile].torn)
    && (s.memory.Recovering? && s.memory.kept.Some? && s.memory.kept.value in s.logs ==>
      !s.logs[s.memory.kept.value].torn)
  }

  lemma CleanWriteKeepsWhole(s: State, s': State)
    requires Inv(s) && WholeEnd(s) && WriteStep(s, s') && CleanStep(s, s')
    ensures WholeEnd(s')
  {
  }

  lemma CleanRecoveryKeepsWhole(s: State, s': State)
    requires Inv(s) && WholeEnd(s) && RecoveryStep(s, s') && CleanStep(s, s')
    ensures WholeEnd(s')
  {
    if reuse :| FinishLog(s, s', reuse) {
      assert !reuse ==> s'.memory.kept.None?;
    }
  }

  lemma CleanStepKeepsWhole(s: State, s': State)
    requires Inv(s) && WholeEnd(s) && Step(s, s') && CleanStep(s, s')
    ensures WholeEnd(s')
  {
    if WriteStep(s, s') {
      CleanWriteKeepsWhole(s, s');
    } else if RecoveryStep(s, s') {
      CleanRecoveryKeepsWhole(s, s');
    }
  }

  lemma {:induction false} CleanRunIsWhole(states: seq<State>)
    requires CleanRun(states)
    ensures WholeEnd(states[|states| - 1]) && Inv(states[|states| - 1])
    decreases |states|
  {
    var n := |states| - 1;
    if n > 0 {
      assert Step(states[n - 1], states[n]) && CleanStep(states[n - 1], states[n]);
      CleanRunIsWhole(states[..n]);
      CleanStepKeepsWhole(states[n - 1], states[n]);
      StepKeepsInv(states[n - 1], states[n]);
    }
  }

  /** As long as no append fails and no torn log is reused, crashes within an append included, nothing acknowledged
      is ever lost. */
  lemma CleanRunsAreDurable(states: seq<State>)
    requires CleanRun(states)
    ensures NoneUnseen(states) && forall i :: 0 <= i < |states| ==> Durable(states[i])
  {
    forall i | 0 <= i < |states| - 1
      ensures !AcksUnseen(states[i], states[i + 1])
    {
      CleanRunIsWhole(states[..i + 1]);
      if AcksUnseen(states[i], states[i + 1]) {
        UnseenIsLost(states[i], states[i + 1]);
      }
    }
    AcknowledgedWritesSurviveIff(states);
  }

  /** Whenever the database is up, after any number of crashes and recoveries, it reads every acknowledged batch but
      those lost, and nothing never written. */
  lemma OpenDatabaseHasAllAcknowledged(states: seq<State>)
    requires Run(states) && states[|states| - 1].memory.Up?
    ensures var s := states[|states| - 1]; s.acked - s.lost <= Readable(s) <= s.attempted
    ensures NoneUnseen(states) ==> states[|states| - 1].acked <= Readable(states[|states| - 1])
  {
    ReachableInv(states);
    if NoneUnseen(states) { NothingLost(states); }
    var s := states[|states| - 1];
    forall b | b in s.acked - s.lost
      ensures b in Readable(s)
    {
      assert Safe(s, b) && Recoverable(s, b);
      if b !in Stored(s) {
        var n :| n >= s.manifest.logNumber && Logged(s, n, b);
        if n < s.memory.logfile {
          assert Earlier(s, n, b);
        }
      }
    }
  }

  /** No log that a recovery would read is ever deleted. */
  lemma DeletedLogsAreObsolete(states: seq<State>, s': State, n: nat)
    requires Run(states) && DeleteLog(states[|states| - 1], s', n)
    ensures n < states[|states| - 1].manifest.logNumber && !states[|states| - 1].memory.broken
  {
    ReachableInv(states);
  }

  /** Any tables can be compacted, unless a flush or another compaction is going on, or after an error. */
  lemma MayCompact(states: seq<State>, inputs: set<nat>) returns (s1: State, s2: State)
    requires Run(states) && states[|states| - 1].memory.Up? && !states[|states| - 1].memory.broken
    requires states[|states| - 1].memory.built.None? && states[|states| - 1].memory.pending == {}
    requires inputs <= states[|states| - 1].memory.live
    ensures var s := states[|states| - 1];
      && WriteOutput(s, s1, Contents(s.tables, inputs)) && InstallCompaction(s1, s2, inputs)
      && Stored(s2) == Stored(s) && s2.manifest.tables == s.manifest.tables - inputs + {s.memory.nextFile}
  {
    var s := states[|states| - 1];
    ReachableInv(states);
    var m, contents := s.memory, Contents(s.tables, inputs);
    s1 := s.(tables := s.tables[m.nextFile := contents], attempted := s.attempted,
             memory := m.(pending := m.pending + {m.nextFile}, nextFile := m.nextFile + 1));
    assert WriteOutput(s, s1, contents);
    WriteOutputKeeps(s, s1, contents);
    OutputHolds(s, s1, inputs);
    s2 := s1.(manifest := CompactedManifest(s1, inputs),
              memory := s1.memory.(live := CompactedManifest(s1, inputs).tables, pending := {}));
    assert InstallCompaction(s1, s2, inputs);
    CompactedIsDurable(s1, s2, inputs);
  }

  lemma OutputHolds(s: State, s1: State, inputs: set<nat>)
    requires Inv(s) && s.memory.Up? && s.memory.pending == {} && inputs <= s.memory.live
    requires WriteOutput(s, s1, Contents(s.tables, inputs))
    ensures Contents(s1.tables, inputs) == Contents(s.tables, inputs) == Contents(s1.tables, s1.memory.pending)
    ensures Stored(s1) == Stored(s)
  {
    var n := s.memory.nextFile;
    NewTable(s.tables, n, Contents(s.tables, inputs), inputs);
    NewTable(s.tables, n, Contents(s.tables, inputs), s.manifest.tables);
    NewTable(s.tables, n, Contents(s.tables, inputs), {});
    assert {} + {n} == {n} && Contents(s.tables, {}) == {};
  }

  /** The tables that a compaction replaces are named no more, and may be deleted. */
  lemma ReplacedAreObsolete(states: seq<State>, s': State, inputs: set<nat>, n: nat)
    requires Run(states) && InstallCompaction(states[|states| - 1], s', inputs) && n in inputs
    ensures n !in s'.manifest.tables && n in s'.tables && DeleteTable(s', s'.(tables := s'.tables - {n}), n)
  {
    ReachableInv(states);
  }

  /** Every table that the manifest names is there, so recovery never finds one missing; none of them is deleted,
      nor one that a running compaction has written. */
  lemma NamedTablesExist(states: seq<State>)
    requires Run(states)
    ensures var s := states[|states| - 1];
      && s.manifest.tables <= s.tables.Keys
      && forall s', n :: DeleteTable(s, s', n) ==> n !in s.manifest.tables && n !in s.memory.pending
  {
    ReachableInv(states);
  }

  /** Creating a log file never truncates an existing one, and creating a table none that the manifest names. */
  lemma NewFilesAreNew(states: seq<State>, s': State)
    requires Run(states)
    ensures var s := states[|states| - 1];
      && (SwitchMemTable(s, s') || CreateLog(s, s') ==> s.memory.nextFile !in s.logs)
      && (s.memory.Up? || s.memory.Recovering? ==> s.memory.nextFile !in s.manifest.tables)
  {
    ReachableInv(states);
    var s := states[|states| - 1];
    if CreateLog(s, s') {
      forall n | n in s.logs
        ensures n < s.memory.nextFile
      {
        assert n >= s.manifest.logNumber ==> Finished(s, n);
      }
    }
  }
}
