/** The log-structured store as a state machine: writes, snapshots, memtable switches, flushes and
    compactions over a stack of layers.  A read at a held snapshot never changes. */
module LsmStore {
  import opened MvccStore
  import opened Compaction
  import opened Wrappers

  const NUM_LEVELS := 7
  const MAX_MEM_COMPACT_LEVEL := 2

  /** A running compaction.  `below` counts the levels under the output level. */
  datatype Job = Job(below: nat, inputs: set<Entry>, base: set<UserKey>, smallest: nat)

  /** Layers, newest first: the memtable, the immutable memtable if any, the level-0 tables from newest
      to oldest, then levels 1 to 6 (always the last six). */
  datatype Db = Db(
    lastSequence: nat,
    snapshots: seq<nat>,
    layers: seq<set<Entry>>,
    hasImm: bool,
    job: Option<Job>)

  ghost function Union(layers: seq<set<Entry>>): (r: set<Entry>)
    ensures forall e :: e in r <==> exists i :: 0 <= i < |layers| && e in layers[i]
  {
    set i, e | 0 <= i < |layers| && e in layers[i] :: e
  }

  ghost function Contents(d: Db): set<Entry> {
    Union(d.layers)
  }

  /** The layer of level `t` >= 1. */
  function LevelIndex(d: Db, t: nat): int {
    |d.layers| - NUM_LEVELS + t
  }

  /** The first layer that is a table. */
  function FirstTable(d: Db): nat {
    if d.hasImm then 2 else 1
  }

  // ---------- Invariant ----------

  /** Entries of one key only get older going down. */
  ghost predicate Ordered(layers: seq<set<Entry>>) {
    forall i, j, e, f :: 0 <= i < j < |layers| && e in layers[i] && f in layers[j] && e.key == f.key ==>
      Tag(e) > Tag(f)
  }

  ghost predicate SnapshotsOk(d: Db) {
    && (forall i, j :: 0 <= i < j < |d.snapshots| ==> d.snapshots[i] <= d.snapshots[j])
    && (forall s :: s in d.snapshots ==> s <= d.lastSequence)
  }

  ghost predicate JobOk(d: Db) {
    d.job.Some? ==>
      var j := d.job.value;
      var o := |d.layers| - 1 - j.below;
      && FirstTable(d) <= o
      && j.smallest <= d.lastSequence
      && (forall s :: s in d.snapshots ==> j.smallest <= s)
      && InputsStored(d.layers, FirstTable(d), o, j.inputs)
      && OthersAbove(d.layers, o, j.inputs)
      && NoneBelow(d.layers, o, j.inputs, j.base)
  }

  ghost predicate InputsStored(layers: seq<set<Entry>>, first: nat, o: int, inputs: set<Entry>)
    requires o < |layers|
  {
    forall e :: e in inputs ==> exists i :: first <= i <= o && e in layers[i]
  }

  /** Above the output layer, what shares a key with an input but is none is newer. */
  ghost predicate OthersAbove(layers: seq<set<Entry>>, o: int, inputs: set<Entry>)
    requires o < |layers|
  {
    forall e, i, f :: e in inputs && 0 <= i < o && f in layers[i] && f !in inputs && f.key == e.key ==>
      Tag(f) > Tag(e)
  }

  ghost predicate NoneBelow(layers: seq<set<Entry>>, o: int, inputs: set<Entry>, base: set<UserKey>) {
    forall e, i, f :: e in inputs && e.key in base && 0 <= i && o < i < |layers| && f in layers[i] ==> f.key != e.key
  }

  ghost predicate Inv(d: Db) {
    && |d.layers| >= FirstTable(d) + NUM_LEVELS - 1
    && Ordered(d.layers)
    && UniqueTags(Contents(d))
    && (forall e :: e in Contents(d) ==> e.seqno <= d.lastSequence)
    && SnapshotsOk(d)
    && JobOk(d)
  }

  // ---------- Steps ----------

  ghost predicate Init(d: Db) {
    d == Db(0, [], seq(NUM_LEVELS, _ => {}), false, None)
  }

  /** A write group: fresh entries above LastSequence go to the memtable. */
  ghost predicate Write(d: Db, d': Db, es: set<Entry>) {
    && |d.layers| > 0
    && d.lastSequence <= d'.lastSequence
    && UniqueTags(es)
    && (forall e :: e in es ==> d.lastSequence < e.seqno <= d'.lastSequence)
    && d' == d.(lastSequence := d'.lastSequence, layers := d.layers[0 := d.layers[0] + es])
  }

  ghost predicate GetSnapshot(d: Db, d': Db) {
    d' == d.(snapshots := d.snapshots + [d.lastSequence])
  }

  ghost predicate ReleaseSnapshot(d: Db, d': Db, i: nat) {
    i < |d.snapshots| && d' == d.(snapshots := d.snapshots[..i] + d.snapshots[i + 1..])
  }

  /** MakeRoomForWrite: the memtable becomes immutable under a fresh one. */
  ghost predicate SwitchMemTable(d: Db, d': Db) {
    !d.hasImm && d' == d.(layers := [{}] + d.layers, hasImm := true)
  }

  /** CompactMemTable: the immutable memtable becomes the newest level-0 table, or is pushed down to
      level `t` when no level from 0 to `t` holds any of its keys (PickLevelForMemTableOutput). */
  ghost predicate FlushMemTable(d: Db, d': Db, t: nat) {
    && d.hasImm
    && t <= MAX_MEM_COMPACT_LEVEL
    && |d.layers| >= NUM_LEVELS + 1
    && if t == 0 then d' == d.(hasImm := false)
       else
         var p := LevelIndex(d, t);
         && (forall i, e, f :: 2 <= i <= p && e in d.layers[1] && f in d.layers[i] ==> e.key != f.key)
         && d' == d.(hasImm := false, layers := d.layers[p := d.layers[p] + d.layers[1]][1 := {}])
  }

  /** The first layer compacted from: all of level 0, or just level `level`. */
  function SourceIndex(d: Db, level: nat): int {
    if level == 0 then FirstTable(d) else LevelIndex(d, level)
  }

  /** What else the layers compacted from hold of the keys of the inputs is newer. */
  ghost predicate OlderTaken(layers: seq<set<Entry>>, first: nat, o: int, inputs: set<Entry>)
    requires o < |layers|
  {
    forall e, i, f :: e in inputs && first <= i < o && f in layers[i] && f !in inputs && f.key == e.key ==>
      Tag(f) > Tag(e)
  }

  /** All that the output layer holds of the keys of the inputs from those before it is an input. */
  ghost predicate NextTaken(layers: seq<set<Entry>>, first: nat, o: int, inputs: set<Entry>)
    requires o < |layers|
  {
    forall e, i, f :: first <= i < o && e in inputs && e in layers[i] && f in layers[o] && f.key == e.key ==>
      f in inputs
  }

  /** No layer under the output layer has the keys. */
  ghost predicate IsBase(layers: seq<set<Entry>>, o: int, base: set<UserKey>) {
    forall k, i, f :: k in base && 0 <= i && o < i < |layers| && f in layers[i] ==> f.key != k
  }

  /** The background thread picks inputs from `level` and `level + 1`, and fixes the smallest snapshot.  Of the keys
      of its inputs from `level` it takes all older entries there (boundary files), and all there are in `level + 1`
      (overlapping files).  Of the keys that only its inputs from `level + 1` have, it may leave entries in that
      level: no boundary files are added to those. */
  ghost predicate StartCompaction(d: Db, d': Db, level: nat, inputs: set<Entry>, base: set<UserKey>) {
    && d.job.None?
    && level + 1 < NUM_LEVELS
    && |d.layers| >= FirstTable(d) + NUM_LEVELS - 1
    && var first, o := SourceIndex(d, level), LevelIndex(d, level + 1);
    && InputsStored(d.layers, first, o, inputs)
    && OlderTaken(d.layers, first, o, inputs)
    && NextTaken(d.layers, first, o, inputs)
    && IsBase(d.layers, o, base)
    && d' == d.(job := Some(Job(NUM_LEVELS - 2 - level, inputs, base,
                                if d.snapshots == [] then d.lastSequence else d.snapshots[0])))
  }

  /** Removes `inputs` everywhere and adds `output` to layer `o`. */
  ghost function Install(layers: seq<set<Entry>>, o: nat, inputs: set<Entry>, output: set<Entry>): (r: seq<set<Entry>>)
    requires o < |layers|
    ensures |r| == |layers|
    ensures forall i :: 0 <= i < |layers| ==> r[i] == if i == o then layers[i] - inputs + output else layers[i] - inputs
  {
    seq(|layers|, i requires 0 <= i < |layers| => if i == o then layers[i] - inputs + output else layers[i] - inputs)
  }

  /** InstallCompactionResults, for whatever the loop in DoCompactionWork kept. */
  ghost predicate FinishCompaction(d: Db, d': Db, output: set<Entry>) {
    && d.job.Some?
    && var j := d.job.value;
    && j.below < |d.layers|
    && IsCompacted(j.inputs, output, j.smallest, j.base)
    && d' == d.(layers := Install(d.layers, |d.layers| - 1 - j.below, j.inputs, output), job := None)
  }

  /** BackgroundCompaction's trivial move: a table that overlaps nothing in the next level changes
      level without being rewritten. */
  ghost predicate TrivialMove(d: Db, d': Db, level: nat, inputs: set<Entry>) {
    exists picked, base ::
      && StartCompaction(d, picked, level, inputs, base)
      && d' == d.(layers := Install(d.layers, LevelIndex(d, level + 1), inputs, inputs))
  }

  /** A compaction that fails or is shut down installs nothing. */
  ghost predicate AbandonCompaction(d: Db, d': Db) {
    d.job.Some? && d' == d.(job := None)
  }

  ghost predicate Step(d: Db, d': Db) {
    || (exists es :: Write(d, d', es))
    || GetSnapshot(d, d')
    || (exists i: nat :: ReleaseSnapshot(d, d', i))
    || SwitchMemTable(d, d')
    || (exists t: nat :: FlushMemTable(d, d', t))
    || (exists level: nat, inputs, base :: StartCompaction(d, d', level, inputs, base))
    || (exists output :: FinishCompaction(d, d', output))
    || (exists level: nat, inputs :: TrivialMove(d, d', level, inputs))
    || AbandonCompaction(d, d')
  }

  /** Reads at `s` answer the same in both states. */
  ghost predicate SameReads(a: set<Entry>, b: set<Entry>, s: nat) {
    forall k, r :: Reads(a, k, s, r) <==> Reads(b, k, s, r)
  }

  // ---------- Each step keeps the invariant, and reads at every relevant sequence ----------

  /** One direction is enough, since reads have exactly one answer on both sides. */
  lemma SameReadsFromOneSide(a: set<Entry>, b: set<Entry>, s: nat)
    requires UniqueTags(a) && UniqueTags(b)
    requires forall k, r :: Reads(a, k, s, r) ==> Reads(b, k, s, r)
    ensures SameReads(a, b, s)
  {
    forall k, r | Reads(b, k, s, r)
      ensures Reads(a, k, s, r)
    {
      ReadsIsTotalAndUnique(a, k, s);
      ReadsIsTotalAndUnique(b, k, s);
    }
  }

  lemma InitInv(d: Db)
    requires Init(d)
    ensures Inv(d)
  {
  }

  lemma WriteKeeps(d: Db, d': Db, es: set<Entry>)
    requires Inv(d) && Write(d, d', es)
    ensures Inv(d')
    ensures forall s: nat :: s <= d.lastSequence ==> SameReads(Contents(d), Contents(d'), s)
  {
    UnionAddTop(d.layers, es);
    FreshEntriesKeepOrder(d, es);
    WriteKeepsJob(d, d', es);
    forall s: nat | s <= d.lastSequence
      ensures SameReads(Contents(d), Contents(d'), s)
    {
      InvisibleEntriesAreNotRead(Contents(d), es, s);
    }
  }

  /** The operations of a batch, with the sequence numbers that follow the last one. */
  ghost predicate AreNumbered(ops: seq<Entry>, last: nat) {
    forall i :: 0 <= i < |ops| ==> ops[i].seqno == last + 1 + i
  }

  /** After a batch is written its last operation on a key is what is read of that key, and other keys read as
      before. */
  lemma WriteIsRead(d: Db, d': Db, ops: seq<Entry>)
    requires Inv(d) && AreNumbered(ops, d.lastSequence) && d'.lastSequence == d.lastSequence + |ops|
    requires Write(d, d', set e | e in ops)
    ensures forall i :: 0 <= i < |ops| && (forall j :: i < j < |ops| ==> ops[j].key != ops[i].key) ==>
      Reads(Contents(d'), ops[i].key, d'.lastSequence, if ops[i].typ.TypeValue? then Some(ops[i].value) else None)
    ensures forall k, r :: (forall i :: 0 <= i < |ops| ==> ops[i].key != k) ==>
      (Reads(Contents(d'), k, d'.lastSequence, r) <==> Reads(Contents(d), k, d.lastSequence, r))
  {
    var es := set e | e in ops;
    UnionAddTop(d.layers, es);
    forall i | 0 <= i < |ops| && forall j :: i < j < |ops| ==> ops[j].key != ops[i].key
      ensures IsNewest(Contents(d'), ops[i].key, d'.lastSequence, ops[i])
    {
      LastIsNewest(Contents(d), ops, d.lastSequence, i);
    }
    forall k, r | forall i :: 0 <= i < |ops| ==> ops[i].key != k
      ensures Reads(Contents(d'), k, d'.lastSequence, r) <==> Reads(Contents(d), k, d.lastSequence, r)
    {
      OtherKeysRead(Contents(d), es, k, d.lastSequence, d'.lastSequence, r);
    }
  }

  lemma LastIsNewest(known: set<Entry>, ops: seq<Entry>, last: nat, i: nat)
    requires AreNumbered(ops, last) && i < |ops| && forall j :: i < j < |ops| ==> ops[j].key != ops[i].key
    requires forall e :: e in known ==> e.seqno <= last
    ensures IsNewest(known + (set e | e in ops), ops[i].key, last + |ops|, ops[i])
  {
    forall f | f in ops && f.key == ops[i].key
      ensures Tag(f) <= Tag(ops[i])
    {
      var j :| 0 <= j < |ops| && ops[j] == f;
    }
  }

  lemma OtherKeysRead(known: set<Entry>, es: set<Entry>, k: UserKey, s: nat, s': nat, r: Option<string>)
    requires s <= s' && (forall e :: e in known ==> e.seqno <= s) && forall e :: e in es ==> e.key != k
    ensures Reads(known + es, k, s', r) <==> Reads(known, k, s, r)
  {
    assert forall e :: IsNewest(known, k, s, e) <==> IsNewest(known + es, k, s', e);
  }

  lemma InvisibleEntriesAreNotRead(known: set<Entry>, es: set<Entry>, s: nat)
    requires forall e :: e in es ==> s < e.seqno
    ensures SameReads(known, known + es, s)
  {
    assert forall k, e :: IsNewest(known, k, s, e) <==> IsNewest(known + es, k, s, e);
    assert forall k :: Absent(known, k, s) <==> Absent(known + es, k, s);
  }

  lemma WriteKeepsJob(d: Db, d': Db, es: set<Entry>)
    requires JobOk(d) && Write(d, d', es)
    requires forall e :: e in Contents(d) ==> e.seqno <= d.lastSequence
    ensures JobOk(d')
  {
    if d.job.Some? {
      var j, o := d.job.value, |d.layers| - 1 - d.job.value.below;
      WriteKeepsInputs(d.layers, FirstTable(d), o, j.inputs, es, d.lastSequence);
      WriteKeepsBelow(d.layers, o, j.inputs, j.base, es);
    }
  }

  lemma WriteKeepsInputs(layers: seq<set<Entry>>, first: nat, o: int, inputs: set<Entry>, es: set<Entry>, last: nat)
    requires 0 < first <= o < |layers|
    requires InputsStored(layers, first, o, inputs) && OthersAbove(layers, o, inputs)
    requires forall e :: e in Union(layers) ==> e.seqno <= last
    requires forall e :: e in es ==> last < e.seqno
    ensures InputsStored(layers[0 := layers[0] + es], first, o, inputs)
    ensures OthersAbove(layers[0 := layers[0] + es], o, inputs)
  {
    var after := layers[0 := layers[0] + es];
    forall e | e in inputs
      ensures e.seqno <= last
      ensures exists i :: first <= i <= o && e in after[i]
    {
      var i :| first <= i <= o && e in layers[i];
      assert e in after[i] && e in Union(layers);
    }
  }

  lemma WriteKeepsBelow(layers: seq<set<Entry>>, o: int, inputs: set<Entry>, base: set<UserKey>, es: set<Entry>)
    requires 0 < o < |layers| && NoneBelow(layers, o, inputs, base)
    ensures NoneBelow(layers[0 := layers[0] + es], o, inputs, base)
  {
  }

  lemma UnionAddTop(layers: seq<set<Entry>>, es: set<Entry>)
    requires |layers| > 0
    ensures Union(layers[0 := layers[0] + es]) == Union(layers) + es
  {
    var after := layers[0 := layers[0] + es];
    forall e
      ensures e in Union(after) <==> e in Union(layers) + es
    {
      if e in es { assert e in after[0]; }
      if e in Union(layers) {
        var i :| 0 <= i < |layers| && e in layers[i];
        assert e in after[i];
      }
    }
  }

  lemma FreshEntriesKeepOrder(d: Db, es: set<Entry>)
    requires Inv(d)
    requires forall e :: e in es ==> d.lastSequence < e.seqno
    ensures Ordered(d.layers[0 := d.layers[0] + es])
  {
    var after := d.layers[0 := d.layers[0] + es];
    forall i, j, e: Entry, f: Entry | 0 <= i < j < |after| && e in after[i] && f in after[j] && e.key == f.key
      ensures Tag(e) > Tag(f)
    {
      assert f in d.layers[j] && f in Contents(d);
    }
  }

  lemma SameContents(d: Db, d': Db)
    requires Contents(d) == Contents(d')
    ensures forall s :: SameReads(Contents(d), Contents(d'), s)
  {
  }

  lemma OrderedPrepend(layers: seq<set<Entry>>)
    requires Ordered(layers)
    ensures Ordered([{}] + layers)
    ensures Union([{}] + layers) == Union(layers)
  {
    var after := [{}] + layers;
    assert forall i :: 1 <= i < |after| ==> after[i] == layers[i - 1];
    forall e
      ensures e in Union(after) <==> e in Union(layers)
    {
      if e in Union(layers) {
        var i :| 0 <= i < |layers| && e in layers[i];
        assert e in after[i + 1];
      }
    }
  }

  lemma SwitchKeeps(d: Db, d': Db)
    requires Inv(d) && SwitchMemTable(d, d')
    ensures Inv(d') && Contents(d') == Contents(d)
    ensures d'.hasImm && d'.layers[0] == {} && d'.layers[1..] == d.layers
  {
    OrderedPrepend(d.layers);
    SwitchKeepsJob(d, d');
  }

  lemma SwitchKeepsJob(d: Db, d': Db)
    requires JobOk(d) && SwitchMemTable(d, d')
    ensures JobOk(d')
  {
    if d.job.Some? {
      var j := d.job.value;
      SwitchKeepsInputs(d.layers, FirstTable(d), |d.layers| - 1 - j.below, j.inputs, j.base);
    }
  }

  lemma SwitchKeepsInputs(layers: seq<set<Entry>>, first: nat, o: int, inputs: set<Entry>, base: set<UserKey>)
    requires first <= o < |layers| && InputsStored(layers, first, o, inputs)
    requires OthersAbove(layers, o, inputs) && NoneBelow(layers, o, inputs, base)
    ensures InputsStored([{}] + layers, first + 1, o + 1, inputs)
    ensures OthersAbove([{}] + layers, o + 1, inputs) && NoneBelow([{}] + layers, o + 1, inputs, base)
  {
    var after := [{}] + layers;
    assert forall i :: 1 <= i < |after| ==> after[i] == layers[i - 1];
    forall e | e in inputs
      ensures exists i :: first + 1 <= i <= o + 1 && e in after[i]
    {
      var i :| first <= i <= o && e in layers[i];
      assert e in after[i + 1];
    }
  }

  /** Moving layer 1 into layer `p` keeps the order when nothing between shares a key with it. */
  lemma OrderedPush(layers: seq<set<Entry>>, p: nat)
    requires Ordered(layers) && 1 < p < |layers|
    requires forall i, e, f :: 2 <= i <= p && e in layers[1] && f in layers[i] ==> e.key != f.key
    ensures Ordered(layers[p := layers[p] + layers[1]][1 := {}])
    ensures Union(layers[p := layers[p] + layers[1]][1 := {}]) == Union(layers)
  {
    var after := layers[p := layers[p] + layers[1]][1 := {}];
    forall e
      ensures e in Union(after) <==> e in Union(layers)
    {
      if e in Union(layers) {
        var i :| 0 <= i < |layers| && e in layers[i];
        assert e in after[if i == 1 then p else i];
      }
      if e in Union(after) {
        var i :| 0 <= i < |after| && e in after[i];
        assert e in layers[i] || e in layers[1];
      }
    }
    forall i, j, e: Entry, f: Entry | 0 <= i < j < |after| && e in after[i] && f in after[j] && e.key == f.key
      ensures Tag(e) > Tag(f)
    {
      var x := if e in layers[i] then i else 1;
      var y := if f in layers[j] then j else 1;
      assert e in layers[x] && f in layers[y];
      assert x < y;
    }
  }

  lemma FlushKeeps(d: Db, d': Db, t: nat)
    requires Inv(d) && FlushMemTable(d, d', t)
    ensures Inv(d') && Contents(d') == Contents(d) && !d'.hasImm
  {
    if t > 0 {
      OrderedPush(d.layers, LevelIndex(d, t));
      if d.job.Some? {
        FlushKeepsJob(d, d', t);
      }
    } else {
      FlushToLevel0KeepsJob(d, d');
    }
  }

  lemma FlushToLevel0KeepsJob(d: Db, d': Db)
    requires JobOk(d) && FlushMemTable(d, d', 0)
    ensures JobOk(d')
  {
    if d.job.Some? {
      var j := d.job.value;
      forall e | e in j.inputs
        ensures exists i :: FirstTable(d') <= i <= |d.layers| - 1 - j.below && e in d'.layers[i]
      {
        var i :| FirstTable(d) <= i <= |d.layers| - 1 - j.below && e in d.layers[i];
        assert e in d'.layers[i];
      }
    }
  }

  lemma FlushKeepsJob(d: Db, d': Db, t: nat)
    requires Ordered(d.layers) && JobOk(d) && t > 0 && FlushMemTable(d, d', t) && d.job.Some?
    ensures JobOk(d')
  {
    var p := LevelIndex(d, t);
    var j := d.job.value;
    var o := |d.layers| - 1 - j.below;
    forall e, f | e in j.inputs && f in d.layers[1] && f.key == e.key
      ensures f !in j.inputs && Tag(f) > Tag(e) && p < o
    {
      PushedEntryIsAboveJob(d, d', t, e, f);
    }
    PushKeepsInputs(d.layers, p, o, j.inputs);
    PushKeepsOthers(d.layers, p, o, j.inputs);
    PushKeepsBelow(d.layers, p, o, j.inputs, j.base);
  }

  lemma PushKeepsInputs(layers: seq<set<Entry>>, p: nat, o: nat, inputs: set<Entry>)
    requires 1 < p < |layers| && o < |layers| && InputsStored(layers, 2, o, inputs)
    ensures InputsStored(layers[p := layers[p] + layers[1]][1 := {}], 1, o, inputs)
  {
    var after := layers[p := layers[p] + layers[1]][1 := {}];
    forall e | e in inputs
      ensures exists i :: 1 <= i <= o && e in after[i]
    {
      var i :| 2 <= i <= o && e in layers[i];
      assert e in after[i];
    }
  }

  lemma PushKeepsOthers(layers: seq<set<Entry>>, p: nat, o: nat, inputs: set<Entry>)
    requires 1 < p < |layers| && o < |layers| && OthersAbove(layers, o, inputs)
    requires forall e, f :: e in inputs && f in layers[1] && f.key == e.key ==> Tag(f) > Tag(e)
    ensures OthersAbove(layers[p := layers[p] + layers[1]][1 := {}], o, inputs)
  {
    var after := layers[p := layers[p] + layers[1]][1 := {}];
    forall e: Entry, i, f: Entry | e in inputs && 0 <= i < o && f in after[i] && f !in inputs && f.key == e.key
      ensures Tag(f) > Tag(e)
    {
      assert f in layers[i] || (i == p && f in layers[1]);
    }
  }

  lemma PushKeepsBelow(layers: seq<set<Entry>>, p: nat, o: nat, inputs: set<Entry>, base: set<UserKey>)
    requires 1 < p < |layers| && o < |layers| && NoneBelow(layers, o, inputs, base)
    requires forall e, f :: e in inputs && f in layers[1] && f.key == e.key ==> p < o
    ensures NoneBelow(layers[p := layers[p] + layers[1]][1 := {}], o, inputs, base)
  {
    var after := layers[p := layers[p] + layers[1]][1 := {}];
    forall e: Entry, i, f: Entry | e in inputs && e.key in base && o < i < |after| && f in after[i]
      ensures f.key != e.key
    {
      assert f in layers[i] || (i == p && f in layers[1]);
    }
  }

  lemma PushedEntryIsAboveJob(d: Db, d': Db, t: nat, e: Entry, f: Entry)
    requires Ordered(d.layers) && JobOk(d) && t > 0 && FlushMemTable(d, d', t) && d.job.Some?
    requires e in d.job.value.inputs && f in d.layers[1] && f.key == e.key
    ensures f !in d.job.value.inputs && Tag(f) > Tag(e)
    ensures LevelIndex(d, t) < |d.layers| - 1 - d.job.value.below
  {
    var j := d.job.value;
    var o := |d.layers| - 1 - j.below;
    var i :| FirstTable(d) <= i <= o && e in d.layers[i];
    assert LevelIndex(d, t) < i;
    forall x | 1 < x < |d.layers|
      ensures f !in d.layers[x]
    {
      assert f in d.layers[x] ==> Tag(f) > Tag(f);
    }
  }

  lemma StartKeeps(d: Db, d': Db, level: nat, inputs: set<Entry>, base: set<UserKey>)
    requires Inv(d) && StartCompaction(d, d', level, inputs, base)
    ensures Inv(d')
  {
    var o := LevelIndex(d, level + 1);
    assert |d.layers| - 1 - d'.job.value.below == o;
    assert d.snapshots != [] ==> d.snapshots[0] in d.snapshots;
    forall e: Entry, i, f: Entry | e in inputs && 0 <= i < o && f in d.layers[i] && f !in inputs && f.key == e.key
      ensures Tag(f) > Tag(e)
    {
      var x :| SourceIndex(d, level) <= x <= o && e in d.layers[x];
    }
  }

  lemma FinishKeepsOrder(d: Db, d': Db, output: set<Entry>)
    requires Inv(d) && d.job.Some? && output <= d.job.value.inputs
    requires d'.layers == Install(d.layers, |d.layers| - 1 - d.job.value.below, d.job.value.inputs, output)
    ensures Ordered(d'.layers)
    ensures Contents(d') == Contents(d) - d.job.value.inputs + output
  {
    var j := d.job.value;
    var o := |d.layers| - 1 - j.below;
    forall e
      ensures e in Contents(d') <==> e in Contents(d) - j.inputs + output
    {
      if e in output { assert e in d'.layers[o]; }
      if e in Contents(d) && e !in j.inputs {
        var i :| 0 <= i < |d.layers| && e in d.layers[i];
        assert e in d'.layers[i];
      }
      if e in Contents(d') {
        var i :| 0 <= i < |d'.layers| && e in d'.layers[i];
        assert e in output || (e in d.layers[i] && e !in j.inputs);
      }
    }
    forall x, y, e: Entry, f: Entry | 0 <= x < y < |d'.layers| && e in d'.layers[x] && f in d'.layers[y]
      && e.key == f.key
      ensures Tag(e) > Tag(f)
    {
      if e in output && e !in d.layers[x] - j.inputs {
        assert x == o && e in j.inputs;
        var i :| FirstTable(d) <= i <= o && e in d.layers[i];
        assert f in d.layers[y];
      } else if f in output && f !in d.layers[y] - j.inputs {
        assert y == o && f in j.inputs && e in d.layers[x];
      }
    }
  }

  /** What the inputs leave in the output level. */
  ghost function LeftBehind(d: Db): set<Entry> {
    if d.job.Some? && d.job.value.below < |d.layers| then
      d.layers[|d.layers| - 1 - d.job.value.below] - d.job.value.inputs
    else {}
  }

  /** The deletion `e` is what a read at `s` relies on, and is going to be dropped, and `f` is what it hides in the part
      of the output level that is left behind. */
  ghost predicate Uncovers(d: Db, s: nat, e: Entry, f: Entry) {
    && d.job.Some? && e in d.job.value.inputs && ObsoleteDeletion(d.job.value.smallest, d.job.value.base, e)
    && IsNewest(Contents(d), e.key, s, e)
    && IsNewest(LeftBehind(d), e.key, s, f) && f.typ.TypeValue?
  }

  ghost predicate Uncovering(d: Db, s: nat) {
    exists e, f :: Uncovers(d, s, e, f)
  }

  /** What was older than an obsolete deletion of the inputs is not written again, */
  lemma OlderIsDropped(d: Db, output: set<Entry>, s: nat, e: Entry, g: Entry)
    requires Inv(d) && d.job.Some? && IsCompacted(d.job.value.inputs, output, d.job.value.smallest, d.job.value.base)
    requires e in d.job.value.inputs && ObsoleteDeletion(d.job.value.smallest, d.job.value.base, e)
    requires IsNewest(Contents(d), e.key, s, e) && g.key == e.key && g.seqno <= s
    ensures g !in output
  {
    var j := d.job.value;
    InputsAreStored(d);
    assert g in j.inputs && Tag(g) == Tag(e) ==> g == e;
    assert g in j.inputs && Tag(g) < Tag(e) ==> Superseded(j.inputs, j.smallest, g);
  }

  /** and what else there is of its key is in the output level. */
  lemma OlderIsLeft(d: Db, s: nat, e: Entry, g: Entry)
    requires Inv(d) && d.job.Some? && e in d.job.value.inputs && e.key in d.job.value.base
    requires IsNewest(Contents(d), e.key, s, e) && g.key == e.key && g.seqno <= s
    ensures g in Contents(d) && g !in d.job.value.inputs <==> g in LeftBehind(d)
  {
    var o := |d.layers| - 1 - d.job.value.below;
    if g in Contents(d) && g !in d.job.value.inputs {
      assert Tag(g) <= Tag(e);
      var i :| 0 <= i < |d.layers| && g in d.layers[i];
      assert i < o ==> Tag(g) > Tag(e);
    }
  }

  /** The newest entry stays, or is a deletion that is not missed. */
  lemma NewestStays(d: Db, output: set<Entry>, s: nat, e: Entry)
    requires Inv(d) && d.job.Some? && IsCompacted(d.job.value.inputs, output, d.job.value.smallest, d.job.value.base)
    requires d.job.value.smallest <= s && !Uncovering(d, s) && IsNewest(Contents(d), e.key, s, e)
    ensures Reads(Contents(d) - d.job.value.inputs + output, e.key, s, if e.typ.TypeValue? then Some(e.value) else None)
  {
    var j := d.job.value;
    InputsAreStored(d);
    if e in Contents(d) - j.inputs + output {
      NewestIsRead(Contents(d) - j.inputs + output, e.key, s, e);
    } else {
      assert !Superseded(j.inputs, j.smallest, e);
      assert ObsoleteDeletion(j.smallest, j.base, e);
      DroppedDeletionIsNotMissed(d, output, s, e);
    }
  }

  /** Dropping superseded entries and obsolete deletions changes no read at or above `smallest`, unless a dropped
      deletion uncovers an older value. */
  lemma CompactionPreservesReads(d: Db, d': Db, output: set<Entry>, s: nat)
    requires Inv(d) && FinishCompaction(d, d', output)
    requires d.job.value.smallest <= s && !Uncovering(d, s)
    requires Contents(d') == Contents(d) - d.job.value.inputs + output
    ensures SameReads(Contents(d), Contents(d'), s)
  {
    InputsAreStored(d);
    forall k, r | Reads(Contents(d), k, s, r)
      ensures Reads(Contents(d'), k, s, r)
    {
      if !Absent(Contents(d), k, s) {
        var e :| IsNewest(Contents(d), k, s, e)
          && (r.None? <==> e.typ.TypeDeletion?) && (r.Some? ==> r.value == e.value);
        NewestStays(d, output, s, e);
      }
    }
    SameReadsFromOneSide(Contents(d), Contents(d'), s);
  }

  lemma InputsAreStored(d: Db)
    requires Inv(d) && d.job.Some?
    ensures d.job.value.inputs <= Contents(d)
  {
  }

  lemma DroppedDeletionIsNotMissed(d: Db, output: set<Entry>, s: nat, e: Entry)
    requires Inv(d) && d.job.Some? && IsCompacted(d.job.value.inputs, output, d.job.value.smallest, d.job.value.base)
    requires e in d.job.value.inputs && ObsoleteDeletion(d.job.value.smallest, d.job.value.base, e)
    requires IsNewest(Contents(d), e.key, s, e) && !Uncovering(d, s)
    ensures Reads(Contents(d) - d.job.value.inputs + output, e.key, s, None)
  {
    NewestOfLeft(d, output, s, e);
    var f := NewestExists(Contents(d) - d.job.value.inputs + output, e.key, s);
    if f.Some? {
      assert !Uncovers(d, s, e, f.value);
    }
  }

  lemma NewestOfLeft(d: Db, output: set<Entry>, s: nat, e: Entry)
    requires Inv(d) && d.job.Some? && IsCompacted(d.job.value.inputs, output, d.job.value.smallest, d.job.value.base)
    requires e in d.job.value.inputs && ObsoleteDeletion(d.job.value.smallest, d.job.value.base, e)
    requires IsNewest(Contents(d), e.key, s, e)
    ensures forall f ::
      IsNewest(Contents(d) - d.job.value.inputs + output, e.key, s, f) <==> IsNewest(LeftBehind(d), e.key, s, f)
  {
    forall g: Entry | g.key == e.key && g.seqno <= s
      ensures g in Contents(d) - d.job.value.inputs + output <==> g in LeftBehind(d)
    {
      OlderIsDropped(d, output, s, e, g);
      OlderIsLeft(d, s, e, g);
    }
  }

  /** Exactly then: a compaction that uncovers a value changes what is read. */
  lemma CompactionPreservesReadsIff(d: Db, d': Db, output: set<Entry>, s: nat)
    requires Inv(d) && FinishCompaction(d, d', output) && d.job.value.smallest <= s
    ensures SameReads(Contents(d), Contents(d'), s) <==> !Uncovering(d, s)
  {
    InputsAreStored(d);
    FinishKeepsOrder(d, d', output);
    if e, f :| Uncovers(d, s, e, f) {
      NewestOfLeft(d, output, s, e);
      UncoveredIsRead(Contents(d), Contents(d'), LeftBehind(d), s, e, f);
    } else {
      CompactionPreservesReads(d, d', output, s);
    }
  }

  lemma UncoveredIsRead(before: set<Entry>, after: set<Entry>, left: set<Entry>, s: nat, e: Entry, f: Entry)
    requires UniqueTags(before) && IsNewest(before, e.key, s, e) && e.typ.TypeDeletion?
    requires IsNewest(left, e.key, s, f) && f.typ.TypeValue?
    requires forall g :: IsNewest(after, e.key, s, g) <==> IsNewest(left, e.key, s, g)
    ensures !SameReads(before, after, s)
  {
    NewestIsRead(before, e.key, s, e);
    NewestIsRead(after, e.key, s, f);
    ReadsIsTotalAndUnique(before, e.key, s);
  }

  lemma NewestIsRead(es: set<Entry>, k: UserKey, s: nat, e: Entry)
    requires IsNewest(es, k, s, e)
    ensures Reads(es, k, s, if e.typ.TypeValue? then Some(e.value) else None)
  {
  }

  /** Boundary files of the output level too: of the keys of the inputs, no older entry is left there. */
  ghost predicate Closed(d: Db) {
    d.job.Some? ==>
      var j := d.job.value;
      var o := |d.layers| - 1 - j.below;
      forall e, f :: e in j.inputs && 0 <= o && f in d.layers[o] && f !in j.inputs && f.key == e.key ==>
        Tag(f) > Tag(e)
  }

  lemma MovePickedKeeps(picked: Db, d': Db)
    requires Inv(picked) && picked.job.Some?
    requires d' == picked.(job := None, layers := Install(picked.layers, |picked.layers| - 1 - picked.job.value.below,
                                                          picked.job.value.inputs, picked.job.value.inputs))
    ensures Inv(d') && Contents(d') == Contents(picked)
  {
    var inputs := picked.job.value.inputs;
    FinishKeepsOrder(picked, d', inputs);
    InputsAreStored(picked);
    assert Contents(picked) - inputs + inputs == Contents(picked);
  }

  lemma MoveKeeps(d: Db, d': Db, level: nat, inputs: set<Entry>)
    requires Inv(d) && TrivialMove(d, d', level, inputs)
    ensures Inv(d') && Contents(d') == Contents(d)
  {
    var picked, base :| StartCompaction(d, picked, level, inputs, base)
      && d' == d.(layers := Install(d.layers, LevelIndex(d, level + 1), inputs, inputs));
    StartKeeps(d, picked, level, inputs, base);
    MovePickedKeeps(picked, d');
  }

  lemma ClosedUncoversNothing(d: Db, s: nat)
    requires Inv(d) && d.job.Some? && Closed(d)
    ensures !Uncovering(d, s)
  {
    forall e, f
      ensures !Uncovers(d, s, e, f)
    {
      if e in d.job.value.inputs && f in LeftBehind(d) && f.key == e.key { LeftIsNewer(d, e, f); }
    }
  }

  lemma LeftIsNewer(d: Db, e: Entry, f: Entry)
    requires Inv(d) && d.job.Some? && Closed(d)
    requires e in d.job.value.inputs && f in LeftBehind(d) && f.key == e.key
    ensures f in Contents(d) && Tag(f) > Tag(e)
  {
    assert f in d.layers[|d.layers| - 1 - d.job.value.below];
  }

  lemma FinishKeeps(d: Db, d': Db, output: set<Entry>)
    requires Inv(d) && FinishCompaction(d, d', output)
    ensures Inv(d')
    ensures forall s: nat :: d.job.value.smallest <= s ==>
      (SameReads(Contents(d), Contents(d'), s) <==> !Uncovering(d, s))
  {
    InputsAreStored(d);
    FinishKeepsOrder(d, d', output);
    forall s: nat | d.job.value.smallest <= s
      ensures SameReads(Contents(d), Contents(d'), s) <==> !Uncovering(d, s)
    {
      CompactionPreservesReadsIff(d, d', output, s);
    }
  }

  lemma SnapshotStepKeeps(d: Db, d': Db)
    requires Inv(d) && (GetSnapshot(d, d') || exists i: nat :: ReleaseSnapshot(d, d', i))
    ensures Inv(d') && Contents(d') == Contents(d)
  {
    SnapshotListKeeps(d, d');
    SnapshotsKeepJob(d, d', d'.snapshots);
  }

  /** A snapshot sees all that was written before it and nothing that is written later. */
  lemma SnapshotSeesWrites(d: Db, d': Db)
    requires Inv(d) && GetSnapshot(d, d')
    ensures d'.snapshots != [] && d'.snapshots[..|d.snapshots|] == d.snapshots
    ensures var s := d'.snapshots[|d.snapshots|];
      && (forall e :: e in Contents(d) ==> e.seqno <= s)
      && forall d'': Db, es: set<Entry>, e: Entry :: Write(d', d'', es) && e in es ==> e.seqno > s
  {
  }

  lemma SnapshotsKeepJob(d: Db, d': Db, snapshots: seq<nat>)
    requires JobOk(d) && d' == d.(snapshots := snapshots)
    requires forall s :: s in snapshots ==> s in d.snapshots || s == d.lastSequence
    ensures JobOk(d')
  {
  }

  lemma SnapshotListKeeps(d: Db, d': Db)
    requires SnapshotsOk(d) && (GetSnapshot(d, d') || exists i: nat :: ReleaseSnapshot(d, d', i))
    ensures SnapshotsOk(d') && d' == d.(snapshots := d'.snapshots)
    ensures forall s :: s in d'.snapshots ==> s in d.snapshots || s == d.lastSequence
  {
    assert forall i :: 0 <= i < |d.snapshots| ==> d.snapshots[i] in d.snapshots;
  }

  lemma AbandonKeeps(d: Db, d': Db)
    requires Inv(d) && AbandonCompaction(d, d')
    ensures Inv(d') && Contents(d') == Contents(d)
  {
  }

  /** The smallest snapshot fixed when a compaction starts is at or below every snapshot listed while
      it runs, and at or below every one taken later. */
  lemma JobSnapshotIsSmallest(d: Db, s: nat)
    requires Inv(d) && d.job.Some?
    requires s in d.snapshots || d.lastSequence <= s
    ensures d.job.value.smallest <= s
  {
  }

  /** A compaction is installed that brings back to a read at `s` what was deleted. */
  ghost predicate BringsBack(d: Db, d': Db, s: nat) {
    Uncovering(d, s) && exists output :: FinishCompaction(d, d', output)
  }

  /** Every step keeps the invariant; and the answers of reads at a held snapshot, or at the sequence that was current
      before the step, unless it installs a compaction that uncovers something. */
  lemma StepKeepsReads(d: Db, d': Db)
    requires Inv(d) && Step(d, d')
    ensures Inv(d')
    ensures forall s: nat :: s in d.snapshots || s == d.lastSequence ==>
      (SameReads(Contents(d), Contents(d'), s) <==> !BringsBack(d, d', s))
  {
    if output :| FinishCompaction(d, d', output) {
      FinishKeeps(d, d', output);
    } else if es :| Write(d, d', es) {
      WriteKeeps(d, d', es);
    } else {
      QuietStepKeeps(d, d');
      SameContents(d, d');
    }
  }

  /** The steps that move entries between layers, or none at all. */
  lemma QuietStepKeeps(d: Db, d': Db)
    requires Inv(d) && Step(d, d')
    requires forall es :: !Write(d, d', es)
    requires forall output :: !FinishCompaction(d, d', output)
    ensures Inv(d') && Contents(d') == Contents(d)
  {
    if SwitchMemTable(d, d') {
      SwitchKeeps(d, d');
    } else if t: nat :| FlushMemTable(d, d', t) {
      FlushKeeps(d, d', t);
    } else if level: nat, inputs, base :| StartCompaction(d, d', level, inputs, base) {
      StartKeeps(d, d', level, inputs, base);
    } else if AbandonCompaction(d, d') {
      AbandonKeeps(d, d');
    } else if level: nat, inputs :| TrivialMove(d, d', level, inputs) {
      MoveKeeps(d, d', level, inputs);
    } else {
      SnapshotStepKeeps(d, d');
    }
  }

  ghost predicate Run(states: seq<Db>) {
    states != [] && forall i :: 0 <= i < |states| - 1 ==> Step(states[i], states[i + 1])
  }

  lemma ReachableInv(states: seq<Db>)
    requires Run(states) && Init(states[0])
    ensures Inv(states[|states| - 1])
  {
    InvAlong(states, |states| - 1);
  }

  lemma SameReadsChain(a: set<Entry>, b: set<Entry>, c: set<Entry>, s: nat)
    requires SameReads(a, b, s) && SameReads(b, c, s)
    ensures SameReads(a, c, s)
  {
  }

  ghost predicate NothingBroughtBack(states: seq<Db>, s: nat) {
    forall i :: 0 <= i < |states| - 1 ==> !BringsBack(states[i], states[i + 1], s)
  }

  /** Snapshot isolation over whole runs: as long as a snapshot is held, its reads never change, if and only if no
      compaction is installed that uncovers something for it. */
  lemma SnapshotIsolation(states: seq<Db>, s: nat)
    requires Run(states) && Inv(states[0])
    requires forall i :: 0 <= i < |states| ==> s in states[i].snapshots
    ensures (forall i :: 0 <= i < |states| ==> SameReads(Contents(states[0]), Contents(states[i]), s)) <==>
      NothingBroughtBack(states, s)
  {
    forall i | 0 <= i < |states| - 1
      ensures SameReads(Contents(states[i]), Contents(states[i + 1]), s) <==> !BringsBack(states[i], states[i + 1], s)
    {
      StepIsIsolated(states, i, s);
    }
    if NothingBroughtBack(states, s) {
      forall i | 0 <= i < |states| ensures SameReads(Contents(states[0]), Contents(states[i]), s) {
        ReadsAlong(states, s, i);
      }
    } else {
      var i :| 0 <= i < |states| - 1 && BringsBack(states[i], states[i + 1], s);
      assert !SameReads(Contents(states[i]), Contents(states[i + 1]), s);
    }
  }

  lemma StepIsIsolated(states: seq<Db>, i: nat, s: nat)
    requires Run(states) && Inv(states[0]) && i < |states| - 1 && s in states[i].snapshots
    ensures SameReads(Contents(states[i]), Contents(states[i + 1]), s) <==> !BringsBack(states[i], states[i + 1], s)
  {
    InvAlong(states, i);
    assert Step(states[i], states[i + 1]);
    StepKeepsReads(states[i], states[i + 1]);
  }

  lemma {:induction false} InvAlong(states: seq<Db>, i: nat)
    requires Run(states) && Inv(states[0]) && i < |states|
    ensures Inv(states[i])
  {
    if i > 0 {
      var j := i - 1;
      InvAlong(states, j);
      assert Step(states[j], states[j + 1]);
      StepKeepsReads(states[j], states[j + 1]);
    }
  }

  lemma {:induction false} ReadsAlong(states: seq<Db>, s: nat, i: nat)
    requires i < |states|
    requires forall k :: 0 <= k < |states| - 1 ==> SameReads(Contents(states[k]), Contents(states[k + 1]), s)
    ensures SameReads(Contents(states[0]), Contents(states[i]), s)
  {
    if i > 0 {
      var j := i - 1;
      ReadsAlong(states, s, j);
      SameReadsChain(Contents(states[0]), Contents(states[j]), Contents(states[j + 1]), s);
    }
  }

  /** So if every compaction takes along the older entries of its inputs' keys. */
  lemma ClosedRunsAreIsolated(states: seq<Db>, s: nat)
    requires Run(states) && Inv(states[0])
    requires forall i :: 0 <= i < |states| ==> s in states[i].snapshots && Closed(states[i])
    ensures forall i :: 0 <= i < |states| ==> SameReads(Contents(states[0]), Contents(states[i]), s)
  {
    forall i | 0 <= i < |states| - 1
      ensures !BringsBack(states[i], states[i + 1], s)
    {
      InvAlong(states, i);
      if states[i].job.Some? { ClosedUncoversNothing(states[i], s); }
    }
    SnapshotIsolation(states, s);
  }

  // ---------- A run in which a deleted value comes back ----------

  const OLD0 := Entry(0, 1, TypeValue, "old")
  const OLD1 := Entry(1, 2, TypeValue, "deleted")
  const DELETE1 := Entry(1, 3, TypeDeletion, "")
  const NEW0 := Entry(0, 4, TypeValue, "new")

  /** Memtables and level-0 tables, and levels 1 to 6, of which only 2 and 3 are used. */
  function Layers(upper: seq<set<Entry>>, level2: set<Entry>, level3: set<Entry>): seq<set<Entry>> {
    upper + [{}, level2, level3, {}, {}, {}]
  }

  /** A value and its deletion are compacted to level 3 while a snapshot needs both, so that the table there may be cut
      between them ... */
  function FirstHalf(): seq<Db> {
    var three := {OLD0, OLD1, DELETE1};
    [ Db(0, [], Layers([{}], {}, {}), false, None),
      Db(2, [], Layers([{OLD0, OLD1}], {}, {}), false, None),
      Db(2, [2], Layers([{OLD0, OLD1}], {}, {}), false, None),
      Db(3, [2], Layers([three], {}, {}), false, None),
      Db(3, [2], Layers([{}, three], {}, {}), true, None),
      Db(3, [2], Layers([{}, {}], three, {}), false, None),
      Db(3, [2], Layers([{}, {}], three, {}), false, Some(Job(3, three, {}, 2))),
      Db(3, [2], Layers([{}, {}], {}, three), false, None)]
  }

  /** ... and after the snapshot a compaction takes the deletion only, for the sake of the other key in its table. */
  function SecondHalf(): seq<Db> {
    var three := {OLD0, OLD1, DELETE1};
    [ Db(3, [], Layers([{}, {}], {}, three), false, None),
      Db(4, [], Layers([{NEW0}, {}], {}, three), false, None),
      Db(4, [4], Layers([{NEW0}, {}], {}, three), false, None),
      Db(4, [4], Layers([{}, {NEW0}, {}], {}, three), true, None),
      Db(4, [4], Layers([{}, {}, {}], {NEW0}, three), false, None),
      Db(4, [4], Layers([{}, {}, {}], {NEW0}, three), false, Some(Job(3, {NEW0, OLD0, DELETE1}, {1}, 4))),
      Db(4, [4], Layers([{}, {}, {}], {}, {NEW0, OLD1}), false, None)]
  }

  lemma WriteLayers(d: Db, d': Db, upper: seq<set<Entry>>, es: set<Entry>, l2: set<Entry>, l3: set<Entry>)
    requires upper != [] && d.layers == Layers(upper, l2, l3)
    requires d' == d.(lastSequence := d'.lastSequence, layers := Layers(upper[0 := upper[0] + es], l2, l3))
    requires d.lastSequence <= d'.lastSequence && UniqueTags(es)
    requires forall e :: e in es ==> d.lastSequence < e.seqno <= d'.lastSequence
    ensures Write(d, d', es)
  {
    assert d'.layers == d.layers[0 := d.layers[0] + es];
  }

  lemma FlushLayers(d: Db, d': Db, mem: set<Entry>, more: seq<set<Entry>>, es: set<Entry>, l3: set<Entry>)
    requires d.hasImm && d.layers == Layers([mem, es] + more, {}, l3) && (forall u :: u in more ==> u == {})
    requires d' == d.(hasImm := false, layers := Layers([mem, {}] + more, es, l3))
    ensures FlushMemTable(d, d', 2)
  {
    var p := LevelIndex(d, 2);
    assert {} + es == es;
    assert forall i :: 2 <= i < p ==> d.layers[i] in more || d.layers[i] == {};
    assert d'.layers == d.layers[p := d.layers[p] + d.layers[1]][1 := {}];
  }

  lemma StartLayers(d: Db, upper: seq<set<Entry>>, l2: set<Entry>, l3: set<Entry>, inputs: set<Entry>,
      base: set<UserKey>, smallest: nat)
    requires d.layers == Layers(upper, l2, l3) && |upper| > 1 && !d.hasImm && d.job.None?
    requires l2 <= inputs <= l2 + l3 && smallest == if d.snapshots == [] then d.lastSequence else d.snapshots[0]
    requires forall e, f :: e in l2 && f in l3 && e.key == f.key ==> f in inputs
    ensures StartCompaction(d, d.(job := Some(Job(3, inputs, base, smallest))), 2, inputs, base)
  {
    var o := LevelIndex(d, 3);
    assert d.layers[o - 1] == l2 && d.layers[o] == l3 && forall i :: o < i < |d.layers| ==> d.layers[i] == {};
    forall e | e in inputs
      ensures exists i :: o - 1 <= i <= o && e in d.layers[i]
    {
      assert e in d.layers[if e in l2 then o - 1 else o];
    }
  }

  lemma FinishLayers(d: Db, d': Db, upper: seq<set<Entry>>, l2: set<Entry>, l3: set<Entry>, output: set<Entry>)
    requires d.layers == Layers(upper, l2, l3) && (forall u :: u in upper ==> u == {})
    requires d.job.Some? && d.job.value.below == 3
    requires var j := d.job.value; IsCompacted(j.inputs, output, j.smallest, j.base)
    requires d' == d.(layers := Layers(upper, l2 - d.job.value.inputs, l3 - d.job.value.inputs + output), job := None)
    ensures FinishCompaction(d, d', output)
  {
    var o := |d.layers| - 4;
    assert forall i :: 0 <= i < |d.layers| && i != o && i != o - 1 ==> d.layers[i] in upper || d.layers[i] == {};
    assert forall u: set<Entry> :: u == {} ==> u - d.job.value.inputs == u;
    var after := Install(d.layers, o, d.job.value.inputs, output);
    assert forall i :: 0 <= i < |after| ==> after[i] == d'.layers[i];
    assert d'.layers == after;
  }

  lemma LayersHold(upper: seq<set<Entry>>, l2: set<Entry>, l3: set<Entry>)
    requires forall u :: u in upper ==> u == {}
    ensures Union(Layers(upper, l2, l3)) == l2 + l3
  {
    var layers := Layers(upper, l2, l3);
    assert layers[|upper| + 1] == l2 && layers[|upper| + 2] == l3;
    assert forall i :: 0 <= i < |layers| ==>
      layers[i] == l2 || layers[i] == l3 || layers[i] in upper || layers[i] == {};
  }

  lemma FirstWrites()
    ensures var st := FirstHalf();
      Init(st[0]) && Write(st[0], st[1], {OLD0, OLD1}) && Write(st[2], st[3], {DELETE1})
  {
    var st := FirstHalf();
    assert {} + {OLD0, OLD1} == {OLD0, OLD1} && {OLD0, OLD1} + {DELETE1} == {OLD0, OLD1, DELETE1};
    WriteLayers(st[0], st[1], [{}], {OLD0, OLD1}, {}, {});
    WriteLayers(st[2], st[3], [{OLD0, OLD1}], {DELETE1}, {}, {});
  }

  lemma FirstSwitch()
    ensures var st := FirstHalf(); SwitchMemTable(st[3], st[4]) && FlushMemTable(st[4], st[5], 2)
  {
    var st, three := FirstHalf(), {OLD0, OLD1, DELETE1};
    assert st[4].layers == [{}] + st[3].layers;
    FlushLayers(st[4], st[5], {}, [], three, {});
  }

  lemma AllKept()
    ensures var three := {OLD0, OLD1, DELETE1}; IsCompacted(three, three, 2, {})
  {
  }

  lemma FirstCompaction(d: Db, d1: Db, d2: Db)
    requires var three := {OLD0, OLD1, DELETE1};
      && d == Db(3, [2], Layers([{}, {}], three, {}), false, None)
      && d1 == d.(job := Some(Job(3, three, {}, 2)))
      && d2 == Db(3, [2], Layers([{}, {}], {}, three), false, None)
    ensures var three := {OLD0, OLD1, DELETE1}; StartCompaction(d, d1, 2, three, {}) && FinishCompaction(d1, d2, three)
  {
    var three := {OLD0, OLD1, DELETE1};
    AllKept();
    StartLayers(d, [{}, {}], three, {}, three, {}, 2);
    assert three - three == {} && {} - three + three == three;
    FinishLayers(d1, d2, [{}, {}], three, {}, three);
  }

  lemma FirstHalfRuns()
    ensures Run(FirstHalf()) && Init(FirstHalf()[0])
  {
    var st := FirstHalf();
    FirstWrites();
    assert GetSnapshot(st[1], st[2]);
    FirstSwitch();
    FirstCompaction(st[5], st[6], st[7]);
  }

  lemma SecondWrite()
    ensures var st := SecondHalf();
      Write(st[0], st[1], {NEW0}) && SwitchMemTable(st[2], st[3]) && FlushMemTable(st[3], st[4], 2)
  {
    var st, three := SecondHalf(), {OLD0, OLD1, DELETE1};
    assert {} + {NEW0} == {NEW0};
    WriteLayers(st[0], st[1], [{}, {}], {NEW0}, {}, three);
    assert st[3].layers == [{}] + st[2].layers;
    FlushLayers(st[3], st[4], {}, [{}], {NEW0}, three);
  }

  lemma TwoDropped()
    ensures IsCompacted({NEW0, OLD0, DELETE1}, {NEW0}, 4, {1})
  {
    assert Superseded({NEW0, OLD0, DELETE1}, 4, OLD0) && ObsoleteDeletion(4, {1}, DELETE1);
  }

  lemma SecondStart(d: Db)
    requires d == Db(4, [4], Layers([{}, {}, {}], {NEW0}, {OLD0, OLD1, DELETE1}), false, None)
    ensures
      var inputs := {NEW0, OLD0, DELETE1};
      StartCompaction(d, d.(job := Some(Job(3, inputs, {1}, 4))), 2, inputs, {1})
  {
    StartLayers(d, [{}, {}, {}], {NEW0}, {OLD0, OLD1, DELETE1}, {NEW0, OLD0, DELETE1}, {1}, 4);
  }

  lemma SecondFinish(d1: Db, d2: Db)
    requires d1 == Db(4, [4], Layers([{}, {}, {}], {NEW0}, {OLD0, OLD1, DELETE1}), false,
                      Some(Job(3, {NEW0, OLD0, DELETE1}, {1}, 4)))
    requires d2 == Db(4, [4], Layers([{}, {}, {}], {}, {NEW0, OLD1}), false, None)
    ensures FinishCompaction(d1, d2, {NEW0})
  {
    var three, inputs := {OLD0, OLD1, DELETE1}, {NEW0, OLD0, DELETE1};
    TwoDropped();
    assert {NEW0} - inputs == {} && three - inputs + {NEW0} == {NEW0, OLD1};
    FinishLayers(d1, d2, [{}, {}, {}], {NEW0}, three, {NEW0});
  }

  lemma SnapshotReleased()
    ensures Step(FirstHalf()[7], SecondHalf()[0])
  {
    assert ReleaseSnapshot(FirstHalf()[7], SecondHalf()[0], 0);
  }

  lemma SecondHalfRuns()
    ensures Run(SecondHalf())
  {
    var st := SecondHalf();
    assert GetSnapshot(st[1], st[2]);
    SecondWrite();
    SecondStart(st[4]);
    SecondFinish(st[5], st[6]);
  }

  /** Key 1 is deleted, also as the snapshot at 4 reads it, until the last compaction. */
  lemma DeletedComesBack() returns (states: seq<Db>)
    ensures Run(states) && Init(states[0]) && |states| > 1
    ensures var n := |states| - 1;
      && 4 in states[n - 1].snapshots && Reads(Contents(states[n - 1]), 1, 4, None)
      && 4 in states[n].snapshots && Reads(Contents(states[n]), 1, 4, Some("deleted"))
  {
    FirstHalfRuns();
    SecondHalfRuns();
    SnapshotReleased();
    JoinRuns(FirstHalf(), SecondHalf());
    states := FirstHalf() + SecondHalf();
    KeyIsDeleted();
    KeyIsBack();
  }

  lemma KeyIsDeleted()
    ensures Reads(Contents(SecondHalf()[5]), 1, 4, None)
  {
    LayersHold([{}, {}, {}], {NEW0}, {OLD0, OLD1, DELETE1});
    NewestIsRead({NEW0} + {OLD0, OLD1, DELETE1}, 1, 4, DELETE1);
  }

  lemma KeyIsBack()
    ensures Reads(Contents(SecondHalf()[6]), 1, 4, Some("deleted"))
  {
    LayersHold([{}, {}, {}], {}, {NEW0, OLD1});
    NewestIsRead({} + {NEW0, OLD1}, 1, 4, OLD1);
  }

  lemma JoinRuns(a: seq<Db>, b: seq<Db>)
    requires Run(a) && Run(b) && Step(a[|a| - 1], b[0])
    ensures Run(a + b)
  {
    forall i | 0 <= i < |a + b| - 1
      ensures Step((a + b)[i], (a + b)[i + 1])
    {
      if i >= |a| { assert Step(b[i - |a|], b[i - |a| + 1]); }
    }
  }

  // ---------- Get: stop at the first layer that hits ----------

  /** The newest visible entry of `k` in one layer (a memtable or table seek). */
  method LayerGet(layer: set<Entry>, k: UserKey, s: nat) returns (r: Option<Entry>)
    ensures r.None? ==> Absent(layer, k, s)
    ensures r.Some? ==> IsNewest(layer, k, s, r.value)
  {
    r := None;
    var rest := layer;
    while rest != {}
      invariant rest <= layer
      invariant r.None? ==> Absent(layer - rest, k, s)
      invariant r.Some? ==> IsNewest(layer - rest, k, s, r.value)
      decreases rest
    {
      var e :| e in rest;
      rest := rest - {e};
      if e.key == k && e.seqno <= s && (r.None? || Tag(r.value) < Tag(e)) {
        r := Some(e);
      }
    }
    assert layer - rest == layer;
  }

  /** DBImpl::Get and Version::Get: layer by layer, newest first, the first hit decides.  It agrees
      with the flat meaning over all layers together. */
  method Get(layers: seq<set<Entry>>, k: UserKey, s: nat) returns (r: Option<string>)
    requires Ordered(layers)
    ensures Reads(Union(layers), k, s, r)
  {
    var i := 0;
    while i < |layers|
      invariant i <= |layers|
      invariant forall j :: 0 <= j < i ==> Absent(layers[j], k, s)
    {
      var hit := LayerGet(layers[i], k, s);
      if hit.Some? {
        var e := hit.value;
        forall f | f in Union(layers) && f.key == k && f.seqno <= s
          ensures Tag(f) <= Tag(e)
        {
          var j :| 0 <= j < |layers| && f in layers[j];
        }
        assert IsNewest(Union(layers), k, s, e);
        return if e.typ.TypeValue? then Some(e.value) else None;
      }
      i := i + 1;
    }
    r := None;
  }

  /** The answer of Get in any reachable state is the one answer the flat store allows. */
  lemma GetIsDetermined(states: seq<Db>, k: UserKey, s: nat, r: Option<string>, q: Option<string>)
    requires Run(states) && Init(states[0])
    requires Reads(Contents(states[|states| - 1]), k, s, r) && Reads(Contents(states[|states| - 1]), k, s, q)
    ensures Ordered(states[|states| - 1].layers) && r == q
  {
    ReachableInv(states);
    ReadsIsTotalAndUnique(Contents(states[|states| - 1]), k, s);
  }
}
