/** DBImpl::Write: writers queue up, the front one commits a group for several of them. */
module WriteQueue {
  import opened Wrappers

  /** One Put or Delete inside a batch, with its encoded size. */
  datatype Op = Op(key: string, value: Option<string>, size: nat)

  type Batch = seq<Op>

  const BATCH_HEADER := 12

  /** WriteBatchInternal::ByteSize. */
  function ByteSize(b: Batch): nat {
    if b == [] then BATCH_HEADER else b[0].size + ByteSize(b[1..])
  }

  /** A queued writer; a null batch asks for a memtable compaction. */
  datatype Writer = Writer(id: nat, batch: Option<Batch>, sync: bool)

  /** The group being logged by the front writer outside the mutex: it ends at index `last`. */
  datatype Group = Group(last: nat, ops: Batch, first: nat, inserted: bool, syncError: bool)

  /** A finished group: its writers, operations, first sequence number and outcome. */
  datatype Commit = Commit(writers: seq<Writer>, ops: Batch, first: nat, ok: bool)

  // ---------- Specification functions ----------

  function BatchOf(w: Writer): Batch {
    if w.batch.Some? then w.batch.value else []
  }

  /** The batches of the first `n` writers, one after the other. */
  function Concat(ws: seq<Writer>, n: nat): Batch
    requires n <= |ws|
  {
    if n == 0 then [] else Concat(ws, n - 1) + BatchOf(ws[n - 1])
  }

  function TotalSize(ws: seq<Writer>, n: nat): nat
    requires n <= |ws|
  {
    if n == 0 then 0 else TotalSize(ws, n - 1) + (if ws[n - 1].batch.Some? then ByteSize(ws[n - 1].batch.value) else 0)
  }

  /** Among the first `n` writers only the first contributes a batch. */
  predicate OnlyFirstWrites(ws: seq<Writer>, n: nat)
    requires n <= |ws|
  {
    n <= 1 || (ws[n - 1].batch.None? && OnlyFirstWrites(ws, n - 1))
  }

  lemma {:induction false} ConcatSame(ws: seq<Writer>, vs: seq<Writer>, n: nat)
    requires n <= |ws| && n <= |vs| && forall i :: 0 <= i < n ==> ws[i] == vs[i]
    ensures Concat(ws, n) == Concat(vs, n)
  {
    if n > 0 { ConcatSame(ws, vs, n - 1); }
  }

  lemma {:induction false} ConcatMonotone(ws: seq<Writer>, i: nat, n: nat)
    requires i <= n <= |ws|
    ensures Concat(ws, i) <= Concat(ws, n)
    decreases n
  {
    if i < n { ConcatMonotone(ws, i, n - 1); }
  }

  lemma ConcatAt(ws: seq<Writer>, i: nat, k: nat)
    requires i < |ws| && k < |BatchOf(ws[i])|
    ensures var at := |Concat(ws, i)| + k; at < |Concat(ws, |ws|)| && Concat(ws, |ws|)[at] == BatchOf(ws[i])[k]
  {
    ConcatMonotone(ws, i + 1, |ws|);
    assert Concat(ws, i + 1)[|Concat(ws, i)| + k] == BatchOf(ws[i])[k];
  }

  // ---------- Invariants ----------

  ghost predicate DistinctIds(ws: seq<Writer>) {
    forall i, j :: 0 <= i < j < |ws| ==> ws[i].id != ws[j].id
  }

  /** Writers finish in the order they arrived, each once, with one status; the rest are queued. */
  ghost predicate QueueOk(arrived: seq<Writer>, finished: seq<Writer>, statuses: seq<(Writer, bool)>,
      writers: seq<Writer>) {
    && arrived == finished + writers
    && |statuses| == |finished|
    && (forall i :: 0 <= i < |statuses| ==> statuses[i].0 == finished[i])
  }

  /** A group is a prefix of the queue; a non-sync leader carries no sync writer. */
  ghost predicate GroupOk(g: Group, writers: seq<Writer>, lastSequence: nat) {
    && g.last < |writers| && writers[0].batch.Some?
    && g.ops == Concat(writers, g.last + 1)
    && g.first == lastSequence + 1
    && (forall i :: 0 < i <= g.last && writers[i].sync ==> writers[0].sync)
  }

  /** The first sequence number after commit `i`. */
  function EndOf(c: Commit): nat {
    c.first + |c.ops|
  }

  /** Groups take the sequence numbers from 1 on, without gap or overlap, up to LastSequence. */
  ghost predicate RangesOk(commits: seq<Commit>, lastSequence: nat) {
    if commits == [] then lastSequence == 0
    else
      var c := commits[|commits| - 1];
      && c.ops == Concat(c.writers, |c.writers|)
      && lastSequence + 1 == EndOf(c)
      && c.first > 0
      && RangesOk(commits[..|commits| - 1], c.first - 1)
  }

  ghost predicate HoldsAt(mem: map<nat, Op>, first: nat, ops: Batch, k: nat)
    requires k < |ops|
  {
    first + k in mem && mem[first + k] == ops[k]
  }

  /** Memtable entries from `first` on are these operations. */
  ghost predicate Holds(mem: map<nat, Op>, first: nat, ops: Batch) {
    forall k :: 0 <= k < |ops| ==> HoldsAt(mem, first, ops, k)
  }

  /** The memtable holds every operation of every successful group, and beyond LastSequence only
      operations of the group in progress. */
  ghost predicate MemOk(mem: map<nat, Op>, commits: seq<Commit>, busy: Option<Group>, lastSequence: nat) {
    && (forall c :: c in commits && c.ok ==> Holds(mem, c.first, c.ops))
    && (forall s :: s in mem ==> s <= lastSequence || (busy.Some? && s < busy.value.first + |busy.value.ops|))
    && (busy.Some? && busy.value.inserted ==> Holds(mem, busy.value.first, busy.value.ops))
  }

  /** Sequence `s` splits no group. */
  ghost predicate Boundary(commits: seq<Commit>, s: nat) {
    forall c :: c in commits ==> EndOf(c) <= s + 1 || s < c.first
  }

  ghost predicate SnapshotsOk(snapshots: seq<nat>, commits: seq<Commit>, lastSequence: nat) {
    forall s :: s in snapshots ==> s <= lastSequence && Boundary(commits, s)
  }

  /** Every writer of a group was told the group's outcome. */
  ghost predicate StatusOk(commits: seq<Commit>, statuses: seq<(Writer, bool)>) {
    forall c, w :: c in commits && w in c.writers ==> (w, c.ok) in statuses
  }

  lemma {:induction false} CommitInRange(commits: seq<Commit>, lastSequence: nat, c: Commit)
    requires RangesOk(commits, lastSequence) && c in commits
    ensures EndOf(c) <= lastSequence + 1 && c.first > 0 && c.ops == Concat(c.writers, |c.writers|)
    decreases |commits|
  {
    var n := |commits| - 1;
    if c != commits[n] {
      CommitInRange(commits[..n], commits[n].first - 1, c);
    }
  }

  lemma {:induction false} CommitsInOrder(commits: seq<Commit>, lastSequence: nat, i: nat, j: nat)
    requires RangesOk(commits, lastSequence) && i < j < |commits|
    ensures EndOf(commits[i]) <= commits[j].first
    ensures j == i + 1 ==> EndOf(commits[i]) == commits[j].first
    decreases |commits|
  {
    var n := |commits| - 1;
    if j < n {
      CommitsInOrder(commits[..n], commits[n].first - 1, i, j);
    } else {
      CommitInRange(commits[..n], commits[n].first - 1, commits[i]);
    }
  }

  // ---------- One more commit ----------

  lemma CommitRanges(commits: seq<Commit>, lastSequence: nat, c: Commit)
    requires RangesOk(commits, lastSequence)
    requires c.first == lastSequence + 1 && c.ops == Concat(c.writers, |c.writers|)
    ensures RangesOk(commits + [c], lastSequence + |c.ops|)
  {
    assert (commits + [c])[..|commits|] == commits;
  }

  lemma CommitMem(mem: map<nat, Op>, commits: seq<Commit>, g: Group, lastSequence: nat, c: Commit)
    requires MemOk(mem, commits, Some(g), lastSequence)
    requires c.first == g.first == lastSequence + 1 && c.ops == g.ops && c.ok == g.inserted
    ensures MemOk(mem, commits + [c], None, lastSequence + |g.ops|)
  {
  }

  lemma CommitSnapshots(snapshots: seq<nat>, commits: seq<Commit>, lastSequence: nat, c: Commit)
    requires SnapshotsOk(snapshots, commits, lastSequence) && c.first == lastSequence + 1
    ensures SnapshotsOk(snapshots, commits + [c], lastSequence + |c.ops|)
  {
    forall s | s in snapshots
      ensures Boundary(commits + [c], s)
    {
      assert Boundary(commits, s);
    }
  }

  lemma CommittedIn(mem: map<nat, Op>, commits: seq<Commit>, busy: Option<Group>, lastSequence: nat, c: Commit, i: nat,
      k: nat)
    requires RangesOk(commits, lastSequence) && MemOk(mem, commits, busy, lastSequence)
    requires c in commits && c.ok && i < |c.writers| && k < |BatchOf(c.writers[i])|
    ensures var at := |Concat(c.writers, i)| + k;
      at < |c.ops| && c.first + at in mem && mem[c.first + at] == BatchOf(c.writers[i])[k]
  {
    CommitInRange(commits, lastSequence, c);
    HeldOf(mem, c.first, c.writers, i, k);
  }

  lemma HeldOf(mem: map<nat, Op>, first: nat, ws: seq<Writer>, i: nat, k: nat)
    requires Holds(mem, first, Concat(ws, |ws|)) && i < |ws| && k < |BatchOf(ws[i])|
    ensures var at := |Concat(ws, i)| + k;
      at < |Concat(ws, |ws|)| && first + at in mem && mem[first + at] == BatchOf(ws[i])[k]
  {
    ConcatAt(ws, i, k);
    HeldAt(mem, first, Concat(ws, |ws|), |Concat(ws, i)| + k);
  }

  lemma HeldAt(mem: map<nat, Op>, first: nat, ops: Batch, at: nat)
    requires Holds(mem, first, ops) && at < |ops|
    ensures first + at in mem && mem[first + at] == ops[at]
  {
    assert HoldsAt(mem, first, ops, at);
  }

  /** The group becomes a commit. */
  lemma CommitGroup(mem: map<nat, Op>, commits: seq<Commit>, snapshots: seq<nat>, writers: seq<Writer>, g: Group,
      lastSequence: nat)
    requires GroupOk(g, writers, lastSequence) && RangesOk(commits, lastSequence)
    requires MemOk(mem, commits, Some(g), lastSequence) && SnapshotsOk(snapshots, commits, lastSequence)
    ensures var c := Commit(writers[..g.last + 1], g.ops, g.first, g.inserted);
      && RangesOk(commits + [c], lastSequence + |c.ops|)
      && MemOk(mem, commits + [c], None, lastSequence + |c.ops|)
      && SnapshotsOk(snapshots, commits + [c], lastSequence + |c.ops|)
  {
    var c := Commit(writers[..g.last + 1], g.ops, g.first, g.inserted);
    ConcatSame(writers, c.writers, g.last + 1);
    CommitRanges(commits, lastSequence, c);
    CommitMem(mem, commits, g, lastSequence, c);
    CommitSnapshots(snapshots, commits, lastSequence, c);
  }

  /** Writing operations at and beyond LastSequence + 1 leaves finished groups alone. */
  lemma InsertKeepsCommits(mem: map<nat, Op>, mem': map<nat, Op>, commits: seq<Commit>, lastSequence: nat)
    requires RangesOk(commits, lastSequence)
    requires forall c :: c in commits && c.ok ==> Holds(mem, c.first, c.ops)
    requires forall s :: s in mem && s <= lastSequence ==> s in mem' && mem'[s] == mem[s]
    ensures forall c :: c in commits && c.ok ==> Holds(mem', c.first, c.ops)
  {
    forall c | c in commits && c.ok
      ensures Holds(mem', c.first, c.ops)
    {
      CommitInRange(commits, lastSequence, c);
      HoldsStill(mem, mem', c.first, c.ops);
    }
  }

  lemma HoldsStill(mem: map<nat, Op>, mem': map<nat, Op>, first: nat, ops: Batch)
    requires Holds(mem, first, ops)
    requires forall s :: s in mem && s < first + |ops| ==> s in mem' && mem'[s] == mem[s]
    ensures Holds(mem', first, ops)
  {
    forall k | 0 <= k < |ops|
      ensures HoldsAt(mem', first, ops, k)
    {
      assert HoldsAt(mem, first, ops, k);
    }
  }

  // ---------- The object ----------

  /** What the first `n` writers write, in the first one's own batch or in tmp_batch_. */
  ghost predicate Collected(writers: seq<Writer>, n: nat, isTmp: bool, tmp: Batch, size: nat) {
    && 0 < n <= |writers| && writers[0].batch.Some?
    && (isTmp <==> !OnlyFirstWrites(writers, n)) && (!isTmp ==> tmp == [])
    && Concat(writers, n) == (if isTmp then tmp else writers[0].batch.value)
    && (isTmp ==> !IsTooBig(writers, n)) && size == TotalSize(writers, n)
    && MayCarry(writers, n)
  }

  /** A writer that is to be synced is carried only by one that is synced itself. */
  predicate MayCarry(writers: seq<Writer>, n: nat)
    requires 0 < n <= |writers|
  {
    forall j :: 0 < j < n && writers[j].sync ==> writers[0].sync
  }

  /** A group ends only at the end of the queue, at a sync writer it may not carry, or when full. */
  predicate MayEnd(writers: seq<Writer>, last: nat)
    requires last < |writers| && writers[0].batch.Some?
  {
    last + 1 < |writers| ==>
      || (writers[last + 1].sync && !writers[0].sync)
      || (writers[last + 1].batch.Some? && IsTooBig(writers, last + 2))
  }

  /** More than 1 MiB, or more than 128 KiB on top of a first batch of no more than that. */
  predicate IsTooBig(writers: seq<Writer>, n: nat)
    requires n <= |writers| && writers != [] && writers[0].batch.Some?
  {
    var size, first := TotalSize(writers, n), ByteSize(writers[0].batch.value);
    size > 0x100000 || (first <= 0x20000 && size > first + 0x20000)
  }

  function MaxSize(first: nat): nat {
    if first <= 0x20000 then first + 0x20000 else 0x100000
  }

  /** One writer more: without a batch, or with one that is not too much. */
  lemma CollectOne(writers: seq<Writer>, n: nat, isTmp: bool, tmp: Batch, size: nat)
    requires Collected(writers, n, isTmp, tmp, size) && n < |writers|
    ensures writers[n].sync && !writers[0].sync ==> MayEnd(writers, n - 1)
    ensures !writers[n].sync || writers[0].sync ==>
      if writers[n].batch.None? then Collected(writers, n + 1, isTmp, tmp, size)
      else
        var more := size + ByteSize(writers[n].batch.value);
        if more > MaxSize(ByteSize(writers[0].batch.value)) then MayEnd(writers, n - 1)
        else Collected(writers, n + 1, true, (if isTmp then tmp else writers[0].batch.value) + writers[n].batch.value,
                       more)
  {
  }

  lemma CollectFirst(writers: seq<Writer>)
    requires writers != [] && writers[0].batch.Some?
    ensures Collected(writers, 1, false, [], ByteSize(writers[0].batch.value))
  {
    assert Concat(writers, 0) == [] && TotalSize(writers, 0) == 0;
  }

  lemma CollectDone(writers: seq<Writer>, last: nat, isTmp: bool, tmp: Batch, size: nat)
    requires Collected(writers, last + 1, isTmp, tmp, size)
    ensures Concat(writers, last + 1) == if isTmp then tmp else writers[0].batch.value
    ensures forall i :: 0 < i <= last && writers[i].sync ==> writers[0].sync
    ensures isTmp <==> !OnlyFirstWrites(writers, last + 1)
    ensures if isTmp then !IsTooBig(writers, last + 1) else tmp == []
  {
  }

  class DBWriter {
    var writers: seq<Writer>      // writers_
    var tmpBatch: Batch           // tmp_batch_
    var lastSequence: nat         // versions_->LastSequence()
    var mem: map<nat, Op>         // memtable entries by sequence number
    var bgError: bool             // !bg_error_.ok()
    var busy: Option<Group>       // the group between BeginGroup and EndGroup
    var snapshots: seq<nat>       // sequences handed to readers
    ghost var arrived: seq<Writer>
    ghost var finished: seq<Writer>
    ghost var statuses: seq<(Writer, bool)>
    ghost var commits: seq<Commit>

    ghost predicate Valid()
      reads this
    {
      && DistinctIds(arrived)
      && QueueOk(arrived, finished, statuses, writers)
      && (busy.Some? ==> GroupOk(busy.value, writers, lastSequence))
      && (busy.None? ==> tmpBatch == [])
      && RangesOk(commits, lastSequence)
      && MemOk(mem, commits, busy, lastSequence)
      && SnapshotsOk(snapshots, commits, lastSequence)
      && StatusOk(commits, statuses)
    }

    constructor ()
      ensures Valid() && writers == [] && lastSequence == 0 && arrived == [] && commits == []
    {
      writers, tmpBatch, lastSequence, mem, bgError, busy, snapshots := [], [], 0, map[], false, None, [];
      arrived, finished, statuses, commits := [], [], [], [];
    }

    /** A writer enters the queue. */
    method Enqueue(w: Writer)
      requires Valid() && forall x :: x in arrived ==> x.id != w.id
      modifies this`writers, this`arrived
      ensures Valid() && writers == old(writers) + [w] && arrived == old(arrived) + [w]
    {
      if busy.Some? {
        ConcatSame(writers, writers + [w], busy.value.last + 1);
      }
      assert forall i :: 0 <= i < |arrived| ==> arrived[i] in arrived;
      writers := writers + [w];
      arrived := arrived + [w];
    }

    /** A reader starts at LastSequence. */
    method GetSnapshot() returns (s: nat)
      requires Valid()
      modifies this`snapshots
      ensures Valid() && s == lastSequence && snapshots == old(snapshots) + [s]
    {
      s := lastSequence;
      snapshots := snapshots + [s];
      forall c | c in commits
        ensures EndOf(c) <= s + 1
      {
        CommitInRange(commits, lastSequence, c);
      }
    }

    /** Collects a prefix of the queue into one batch, in tmp_batch_ when it is more than the first
        writer's own. */
    method BuildBatchGroup() returns (result: Batch, last: nat)
      requires writers != [] && writers[0].batch.Some? && tmpBatch == []
      modifies this`tmpBatch
      ensures last < |writers|
      ensures result == Concat(writers, last + 1)
      ensures forall i :: 0 < i <= last && writers[i].sync ==> writers[0].sync
      // the caller's own batch is used only when no other writer contributes
      ensures
        || (OnlyFirstWrites(writers, last + 1) && tmpBatch == [] && result == writers[0].batch.value)
        || (!OnlyFirstWrites(writers, last + 1) && tmpBatch == result)
      ensures MayEnd(writers, last)
      ensures OnlyFirstWrites(writers, last + 1) || !IsTooBig(writers, last + 1)
    {
      var first := writers[0];
      var resultIsTmp := false;
      var size: nat := ByteSize(first.batch.value);
      var maxSize := if size <= 0x20000 then size + 0x20000 else 0x100000;
      last := 0;
      CollectFirst(writers);
      ghost var total := size;
      var i := 1;
      while i < |writers|
        invariant 1 <= i <= |writers| && last == i - 1
        invariant Collected(writers, i, resultIsTmp, tmpBatch, size) && total == size
      {
        var w := writers[i];
        CollectOne(writers, i, resultIsTmp, tmpBatch, size);
        if w.sync && !first.sync {
          break;
        }
        if w.batch.Some? {
          size := size + ByteSize(w.batch.value);
          if size > maxSize {
            break;
          }
          if !resultIsTmp {
            resultIsTmp := true;
            tmpBatch := tmpBatch + first.batch.value;
          }
          tmpBatch := tmpBatch + w.batch.value;
        }
        last := i;
        i := i + 1;
        total := size;
      }
      CollectDone(writers, last, resultIsTmp, tmpBatch, total);
      result := if resultIsTmp then tmpBatch else first.batch.value;
    }

    /** The front writer after MakeRoomForWrite succeeded, with a batch: its group takes the next
        sequence numbers. */
    method BeginGroup()
      requires Valid() && writers != [] && busy.None? && !bgError && writers[0].batch.Some?
      modifies this`tmpBatch, this`busy
      ensures Valid() && busy.Some? && busy.value.first == lastSequence + 1
      ensures !busy.value.inserted && !busy.value.syncError
    {
      assert tmpBatch == [];  // Count(tmp_batch_) == 0
      var ops, last := BuildBatchGroup();
      busy := Some(Group(last, ops, lastSequence + 1, false, false));
    }

    /** The front writer when MakeRoomForWrite failed, or without a batch: it finishes alone. */
    method FinishAlone(roomOk: bool)
      requires Valid() && writers != [] && busy.None?
      requires roomOk ==> writers[0].batch.None? && !bgError
      modifies this`writers, this`finished, this`statuses
      ensures Valid() && writers == old(writers)[1..]
      ensures (old(writers)[0], roomOk) in statuses
    {
      FinishPrefix(0, roomOk);
    }

    /** Pops and notifies the writers up to index `last`, in queue order. */
    method FinishPrefix(last: nat, ok: bool)
      requires last < |writers| && QueueOk(arrived, finished, statuses, writers) && DistinctIds(arrived)
      modifies this`writers, this`finished, this`statuses
      ensures QueueOk(arrived, finished, statuses, writers)
      ensures writers == old(writers)[last + 1..]
      ensures old(statuses) <= statuses
      ensures forall w :: w in old(writers)[..last + 1] ==> (w, ok) in statuses
    {
      ghost var f, ws := |finished|, writers;
      var lastWriter := writers[last];
      assert lastWriter == arrived[f + last];
      ghost var n := 0;
      while true
        invariant n <= last && |finished| == f + n
        invariant QueueOk(arrived, finished, statuses, writers)
        invariant old(statuses) <= statuses
        invariant forall i :: 0 <= i < n ==> (ws[i], ok) in statuses
        decreases last - n
      {
        var ready := writers[0];
        assert ready == arrived[f + n] == ws[n];
        PopFront(ready, ok);
        n := n + 1;
        if ready.id == lastWriter.id {
          break;
        }
      }
      assert writers == arrived[f + last + 1..] == ws[last + 1..];
    }

    method PopFront(ready: Writer, ok: bool)
      requires writers != [] && ready == writers[0] && QueueOk(arrived, finished, statuses, writers)
      modifies this`writers, this`finished, this`statuses
      ensures QueueOk(arrived, finished, statuses, writers) && |finished| == old(|finished|) + 1
      ensures old(statuses) <= statuses && (ready, ok) in statuses
      ensures forall x :: x in old(statuses) ==> x in statuses
    {
      writers := writers[1..];
      finished := finished + [ready];
      statuses := statuses + [(ready, ok)];
    }

    /** Outside the mutex: log, sync, and insert the first `inserted` operations into the memtable. */
    method LogAndInsert(logOk: bool, syncOk: bool, inserted: nat)
      requires Valid() && busy.Some? && !busy.value.inserted && inserted <= |busy.value.ops|
      requires !(logOk && syncOk) ==> inserted == 0
      modifies this`mem, this`busy
      ensures Valid()
      ensures busy == Some(old(busy).value.(inserted := logOk && syncOk && inserted == |old(busy).value.ops|,
                                            syncError := logOk && writers[0].sync && !syncOk))
      ensures forall s :: s <= lastSequence ==> (s in mem <==> s in old(mem)) && (s in mem ==> mem[s] == old(mem)[s])
    {
      var g := busy.value;
      InsertInto(g.first, g.ops, inserted);
      assert inserted == |g.ops| ==> g.ops[..inserted] == g.ops;
      InsertKeepsCommits(old(mem), mem, commits, lastSequence);
      busy := Some(g.(inserted := logOk && syncOk && inserted == |g.ops|,
        syncError := logOk && writers[0].sync && !syncOk));
    }

    /** WriteBatchInternal::InsertInto, up to the operation where it stops. */
    method InsertInto(first: nat, ops: Batch, count: nat)
      requires count <= |ops|
      modifies this`mem
      ensures Holds(mem, first, ops[..count])
      ensures forall s :: s in mem <==> s in old(mem) || first <= s < first + count
      ensures forall s :: s in old(mem) && !(first <= s < first + count) ==> mem[s] == old(mem)[s]
    {
      var i := 0;
      while i < count
        invariant i <= count
        invariant forall s :: s in mem <==> s in old(mem) || first <= s < first + i
        invariant forall s :: s in mem ==> mem[s] == if first <= s < first + i then ops[s - first] else old(mem)[s]
      {
        mem := mem[first + i := ops[i]];
        i := i + 1;
      }
    }

    /** Back under the mutex: record a sync error, clear tmp_batch_, and publish the new LastSequence,
        whatever the outcome. */
    method PublishGroup(ghost c: Commit)
      requires busy.Some? && GroupOk(busy.value, writers, lastSequence)
      requires RangesOk(commits, lastSequence) && MemOk(mem, commits, busy, lastSequence)
        && SnapshotsOk(snapshots, commits, lastSequence)
      requires c == Commit(writers[..busy.value.last + 1], busy.value.ops, busy.value.first, busy.value.inserted)
      modifies this`bgError, this`tmpBatch, this`lastSequence, this`busy, this`commits
      ensures RangesOk(commits, lastSequence) && MemOk(mem, commits, busy, lastSequence)
        && SnapshotsOk(snapshots, commits, lastSequence)
      ensures commits == old(commits) + [c] && lastSequence == old(lastSequence) + |c.ops|
      ensures busy.None? && tmpBatch == [] && bgError == (old(bgError) || old(busy).value.syncError)
    {
      var g := busy.value;
      CommitGroup(mem, commits, snapshots, writers, g, lastSequence);
      if g.syncError {
        bgError := true;
      }
      tmpBatch := [];
      lastSequence := lastSequence + |g.ops|;
      commits := commits + [c];
      busy := None;
    }

    /** The end of Write for a leader: publish, then finish the group's writers. */
    method EndGroup()
      requires Valid() && busy.Some?
      modifies this
      ensures Valid() && busy.None?
      ensures var g := old(busy).value;
        && lastSequence == old(lastSequence) + |g.ops|
        && commits == old(commits) + [Commit(old(writers)[..g.last + 1], g.ops, g.first, g.inserted)]
        && writers == old(writers)[g.last + 1..]
        && bgError == (old(bgError) || g.syncError)
      ensures unchanged(`mem, `snapshots, `arrived)
    {
      var g := busy.value;
      ghost var c := Commit(writers[..g.last + 1], g.ops, g.first, g.inserted);
      PublishGroup(c);
      FinishPrefix(g.last, g.inserted);
      StatusesGrow(old(commits), old(statuses), statuses, c);
    }

    // ---------- What the invariant says ----------

    /** Atomic visibility: a reader at a sequence it was handed sees a successful group entirely or
        not at all. */
    lemma AllOrNothing(s: nat, c: Commit)
      requires Valid() && s in snapshots && c in commits && c.ok
      ensures EndOf(c) <= s + 1 || s < c.first
      ensures Holds(mem, c.first, c.ops)
    {
      assert Boundary(commits, s);
    }

    /** The operations of the group in progress are beyond every reader. */
    lemma GroupInProgressIsInvisible(s: nat)
      requires Valid() && busy.Some? && s in snapshots
      ensures s < busy.value.first
    {
    }

    /** Groups take fresh, contiguous sequence numbers in queue order. */
    lemma GroupsAreContiguous(i: nat, j: nat)
      requires Valid() && i < j < |commits|
      ensures EndOf(commits[i]) <= commits[j].first
      ensures j == i + 1 ==> EndOf(commits[i]) == commits[j].first
      ensures EndOf(commits[j]) <= lastSequence + 1
    {
      CommitInRange(commits, lastSequence, commits[j]);
      CommitsInOrder(commits, lastSequence, i, j);
    }

    /** Each writer of a group owns consecutive sequence numbers, after those of earlier writers. */
    lemma WriterRange(c: Commit, i: nat, k: nat)
      requires Valid() && c in commits && c.ok && i < |c.writers| && k < |BatchOf(c.writers[i])|
      ensures var at := |Concat(c.writers, i)| + k;
        at < |c.ops| && c.first + at in mem && mem[c.first + at] == BatchOf(c.writers[i])[k]
    {
      CommittedIn(mem, commits, busy, lastSequence, c, i, k);
    }

    /** A queued writer has not been told anything; a finished one was told once. */
    lemma FinishedOnce(i: nat, j: nat)
      requires Valid() && i < |statuses| && j < |arrived| && statuses[i].0.id == arrived[j].id
      ensures i == j
      ensures statuses[i].0 !in writers
    {
      assert arrived[i] == finished[i];
      forall k | 0 <= k < |writers|
        ensures writers[k] != statuses[i].0
      {
        assert arrived[|finished| + k] == writers[k];
      }
    }
  }

  lemma StatusesGrow(commits: seq<Commit>, before: seq<(Writer, bool)>, after: seq<(Writer, bool)>, c: Commit)
    requires StatusOk(commits, before) && before <= after
    requires forall w :: w in c.writers ==> (w, c.ok) in after
    ensures StatusOk(commits + [c], after)
  {
    forall x, w | x in commits + [c] && w in x.writers
      ensures (w, x.ok) in after
    {
      if x in commits { assert (w, x.ok) in before; }
    }
  }
}
