/** libuv's thread pool as a protocol of atomic steps: one per critical section. */
module ThreadPool {
  import opened Wrappers

  type Id = nat  // a submitted request

  /** What can be linked in `wq`. */
  datatype Msg = Work(id: Id) | RunSlow | Exit

  /** The field w->work: the function, NULL once run, or uv__cancelled. */
  datatype WorkField = Function | Null | CancelledFn

  datatype Status = Ok | Canceled

  /** Where a request is.  Kept per request as history; `PlacesOk` ties it to the real queues. */
  datatype Place = SharedQueue | SlowQueue | Hands(worker: nat) | Cancelling | LoopQueue | LocalQueue | Finished

  /** A request with its history: how often its work ran, whether a cancel returned 0, the statuses its `done`
      was called with, and how often it was cancelled when it was finished. */
  datatype Item = Item(loop: nat, work: WorkField, place: Place, ran: nat, cancelled: bool, dones: seq<Status>,
    again: nat)

  datatype Worker =
    | Ready                         // at the head of its loop, wanting the mutex
    | Asleep                        // waiting on the condition, not signalled
    | Signalled                     // woken, not yet running
    | Working(id: Id, slow: bool)   // has a request, its work not yet called
    | Ran(id: Id, slow: bool)       // work returned, result not yet published
    | Posted(slow: bool)            // result published, mutex not yet retaken
    | Exited

  /** One event loop: its finished queue, the queue uv__work_done is walking, a cancel in progress. */
  datatype Loop = Loop(queue: seq<Id>, local: seq<Id>, hands: Option<Id>)

  datatype State = State(
    workers: seq<Worker>,
    idle: nat,
    slowRunning: nat,
    wq: seq<Msg>,
    slowPending: seq<Id>,
    loops: seq<Loop>,
    items: map<Id, Item>)

  function Threshold(s: State): nat {
    (|s.workers| + 1) / 2
  }

  /** A worker finding this sleeps. */
  predicate MustWait(s: State) {
    s.wq == [] || (s.wq == [RunSlow] && s.slowRunning >= Threshold(s))
  }

  function HandOf(w: Worker): Option<Id> {
    if w.Working? || w.Ran? then Some(w.id) else None
  }

  predicate IsIdle(w: Worker) {
    w.Asleep? || w.Signalled?
  }

  predicate IsSlow(w: Worker) {
    (w.Working? || w.Ran? || w.Posted?) && w.slow
  }

  predicate IsAwake(w: Worker) {
    !w.Asleep? && !w.Exited?
  }

  ghost function Count(ws: seq<Worker>, p: Worker -> bool): nat {
    if ws == [] then 0 else Count(ws[..|ws| - 1], p) + (if p(ws[|ws| - 1]) then 1 else 0)
  }

  // ---------- Steps ----------

  /** uv_cond_signal: wakes one sleeper, if any. */
  ghost predicate Signal(ws: seq<Worker>, ws': seq<Worker>) {
    if forall i :: 0 <= i < |ws| ==> !ws[i].Asleep? then ws' == ws
    else exists i :: 0 <= i < |ws| && ws[i].Asleep? && ws' == ws[i := Signalled]
  }

  /** `if (idle_threads > 0) uv_cond_signal(&cond)`. */
  ghost predicate SignalIfIdle(idle: nat, ws: seq<Worker>, ws': seq<Worker>) {
    if idle > 0 then Signal(ws, ws') else ws' == ws
  }

  ghost predicate Init(s: State) {
    && |s.workers| >= 1
    && (forall i :: 0 <= i < |s.workers| ==> s.workers[i] == Ready)
    && (forall i :: 0 <= i < |s.loops| ==> s.loops[i] == Loop([], [], None))
    && s == State(s.workers, 0, 0, [], [], s.loops, map[])
  }

  /** uv__work_submit of CPU work. */
  ghost predicate SubmitCpu(s: State, s': State, id: Id, loop: nat) {
    && id !in s.items && loop < |s.loops|
    && SignalIfIdle(s.idle, s.workers, s'.workers)
    && s' == s.(items := s.items[id := Item(loop, Function, SharedQueue, 0, false, [], 0)],
                wq := s.wq + [Work(id)], workers := s'.workers)
  }

  /** uv__work_submit of slow I/O: the sentinel is posted unless it is already linked. */
  ghost predicate SubmitSlow(s: State, s': State, id: Id, loop: nat) {
    && id !in s.items && loop < |s.loops|
    && var items := s.items[id := Item(loop, Function, SlowQueue, 0, false, [], 0)];
    && var pending := s.slowPending + [id];
    && if RunSlow in s.wq then s' == s.(items := items, slowPending := pending)
       else SignalIfIdle(s.idle, s.workers, s'.workers)
            && s' == s.(items := items, slowPending := pending, wq := s.wq + [RunSlow], workers := s'.workers)
  }

  /** The destructor posts the exit message. */
  ghost predicate PostExit(s: State, s': State) {
    && Exit !in s.wq
    && SignalIfIdle(s.idle, s.workers, s'.workers)
    && s' == s.(wq := s.wq + [Exit], workers := s'.workers)
  }

  /** A spurious wakeup. */
  ghost predicate SpuriousWake(s: State, s': State, i: nat) {
    i < |s.workers| && s.workers[i].Asleep? && s' == s.(workers := s.workers[i := Signalled])
  }

  /** A signalled worker returns from uv_cond_wait. */
  ghost predicate Wake(s: State, s': State, i: nat) {
    && i < |s.workers| && s.workers[i].Signalled? && s.idle > 0
    && s' == s.(workers := s.workers[i := Ready], idle := s.idle - 1)
  }

  ghost predicate Sleep(s: State, s': State, i: nat) {
    && i < |s.workers| && s.workers[i].Ready? && MustWait(s)
    && s' == s.(workers := s.workers[i := Asleep], idle := s.idle + 1)
  }

  /** The worker finds the exit message, which it leaves linked, and wakes another. */
  ghost predicate TakeExit(s: State, s': State, i: nat) {
    && i < |s.workers| && s.workers[i].Ready? && !MustWait(s) && s.wq[0] == Exit
    && Signal(s.workers[i := Exited], s'.workers)
    && s' == s.(workers := s'.workers)
  }

  ghost predicate TakeWork(s: State, s': State, i: nat) {
    && i < |s.workers| && s.workers[i].Ready? && !MustWait(s) && s.wq[0].Work?
    && s.wq[0].id in s.items
    && var id := s.wq[0].id;
    && s' == s.(wq := s.wq[1..], workers := s.workers[i := Working(id, false)],
                items := s.items[id := s.items[id].(place := Hands(i))])
  }

  /** The worker takes the sentinel: it puts it back at the threshold, drops it when no slow work is
      left, or else takes slow work and posts the sentinel again if more is pending. */
  ghost predicate TakeSentinel(s: State, s': State, i: nat) {
    && i < |s.workers| && s.workers[i].Ready? && !MustWait(s) && s.wq[0] == RunSlow
    && if s.slowRunning >= Threshold(s) then s' == s.(wq := s.wq[1..] + [RunSlow])
       else if s.slowPending == [] then s' == s.(wq := s.wq[1..])
       else TakeSlow(s, s', i)
  }

  ghost predicate TakeSlow(s: State, s': State, i: nat)
    requires i < |s.workers| && s.wq != [] && s.slowPending != []
  {
    && s.slowPending[0] in s.items
    && var id := s.slowPending[0];
    && var items := s.items[id := s.items[id].(place := Hands(i))];
    && var ws := s.workers[i := Working(id, true)];
    && if |s.slowPending| == 1
       then s' == s.(wq := s.wq[1..], workers := ws, slowRunning := s.slowRunning + 1, slowPending := [],
         items := items)
       else SignalIfIdle(s.idle, ws, s'.workers)
            && s' == s.(wq := s.wq[1..] + [RunSlow], workers := s'.workers, slowRunning := s.slowRunning + 1,
                        slowPending := s.slowPending[1..], items := items)
  }

  /** w->work(w), outside any lock. */
  ghost predicate Execute(s: State, s': State, i: nat) {
    && i < |s.workers| && s.workers[i].Working? && s.workers[i].id in s.items
    && var w := s.workers[i];
    && s' == s.(workers := s.workers[i := Ran(w.id, w.slow)],
                items := s.items[w.id := s.items[w.id].(ran := s.items[w.id].ran + 1)])
  }

  /** Under the loop's wq_mutex. */
  ghost predicate Publish(s: State, s': State, i: nat) {
    && i < |s.workers| && s.workers[i].Ran? && s.workers[i].id in s.items
    && var w := s.workers[i];
    && var l := s.items[w.id].loop;
    && l < |s.loops|
    && s' == s.(workers := s.workers[i := Posted(w.slow)],
                loops := s.loops[l := s.loops[l].(queue := s.loops[l].queue + [w.id])],
                items := s.items[w.id := s.items[w.id].(work := Null, place := LoopQueue)])
  }

  ghost predicate Relock(s: State, s': State, i: nat) {
    && i < |s.workers| && s.workers[i].Posted?
    && (s.workers[i].slow ==> s.slowRunning > 0)
    && s' == s.(workers := s.workers[i := Ready], slowRunning := s.slowRunning - if s.workers[i].slow then 1 else 0)
  }

  /** Without the element `x`. */
  ghost function Without<T>(q: seq<T>, x: T): seq<T> {
    if q == [] then [] else if q[0] == x then Without(q[1..], x) else [q[0]] + Without(q[1..], x)
  }

  /** What !QUEUE_EMPTY(&w->wq) says: linked in some queue, or finished, since uv__work_done does not initialise
      the node it removes. */
  ghost predicate IsLinked(s: State, id: Id)
    requires id in s.items
  {
    || s.items[id].place == Finished
    || Work(id) in s.wq
    || id in s.slowPending
    || exists l :: 0 <= l < |s.loops| && (id in s.loops[l].queue || id in s.loops[l].local)
  }

  /** First half of uv__work_cancel, both mutexes held, on a request of loop `l`: unlink it from wherever it is,
      unless it is executing or has run.  (Of a finished request, in its own `done`, nothing is left to unlink.) */
  ghost predicate CancelUnlink(s: State, s': State, id: Id) {
    && id in s.items && s.items[id].loop < |s.loops|
    && var it, l := s.items[id], s.items[id].loop;
    && s.loops[l].hands.None?
    && IsLinked(s, id) && it.work != Null
    && s' == s.(wq := Without(s.wq, Work(id)), slowPending := Without(s.slowPending, id),
                loops := s.loops[l := Loop(Without(s.loops[l].queue, id), Without(s.loops[l].local, id), Some(id))],
                items := s.items[id := it.(place := Cancelling,
                  again := it.again + if it.place.Finished? then 1 else 0)])
  }

  /** Second half: mark it cancelled, hand it to the loop, return 0. */
  ghost predicate CancelRelink(s: State, s': State, l: nat) {
    && l < |s.loops| && s.loops[l].hands.Some? && s.loops[l].hands.value in s.items
    && var id := s.loops[l].hands.value;
    && s' == s.(loops := s.loops[l := s.loops[l].(queue := s.loops[l].queue + [id], hands := None)],
                items := s.items[id := s.items[id].(work := CancelledFn, cancelled := true, place := LoopQueue)])
  }

  /** uv__work_done moves the loop's queue aside ... */
  ghost predicate Drain(s: State, s': State, l: nat) {
    && l < |s.loops| && s.loops[l].local == []
    && s' == s.(loops := s.loops[l := s.loops[l].(local := s.loops[l].queue, queue := [])],
                items := map id | id in s.items ::
                  if id in s.loops[l].queue then s.items[id].(place := LocalQueue) else s.items[id])
  }

  /** ... and calls `done` on its head. */
  ghost predicate CallDone(s: State, s': State, l: nat) {
    && l < |s.loops| && s.loops[l].local != [] && s.loops[l].local[0] in s.items
    && var id := s.loops[l].local[0];
    && var it := s.items[id];
    && s' == s.(loops := s.loops[l := s.loops[l].(local := s.loops[l].local[1..])],
                items := s.items[id := it.(place := Finished,
                  dones := it.dones + [if it.work.CancelledFn? then Canceled else Ok])])
  }

  ghost predicate WorkerStep(s: State, s': State, i: nat) {
    || SpuriousWake(s, s', i) || Wake(s, s', i) || Sleep(s, s', i)
    || TakeExit(s, s', i) || TakeWork(s, s', i) || TakeSentinel(s, s', i)
    || Execute(s, s', i) || Publish(s, s', i) || Relock(s, s', i)
  }

  ghost predicate LoopStep(s: State, s': State, l: nat) {
    CancelRelink(s, s', l) || Drain(s, s', l) || CallDone(s, s', l)
  }

  ghost predicate UserStep(s: State, s': State, id: Id, l: nat) {
    SubmitCpu(s, s', id, l) || SubmitSlow(s, s', id, l) || CancelUnlink(s, s', id)
  }

  ghost predicate Step(s: State, s': State) {
    || (exists i: nat :: WorkerStep(s, s', i))
    || (exists l: nat :: LoopStep(s, s', l))
    || (exists id, l: nat :: UserStep(s, s', id, l))
    || PostExit(s, s')
  }

  // ---------- Invariants ----------

  ghost predicate NoDup<T>(q: seq<T>) {
    forall i, j :: 0 <= i < j < |q| ==> q[i] != q[j]
  }

  /** Every queue holds exactly the requests whose place it is, each once. */
  ghost predicate PlacesOk(s: State) {
    && NoDup(s.wq) && NoDup(s.slowPending)
    && (forall id :: Work(id) in s.wq <==> id in s.items && s.items[id].place == SharedQueue)
    && (forall id :: id in s.slowPending <==> id in s.items && s.items[id].place == SlowQueue)
    && (forall i, id :: 0 <= i < |s.workers| ==>
          (HandOf(s.workers[i]) == Some(id) <==> id in s.items && s.items[id].place == Hands(i)))
    && (forall id :: id in s.items && s.items[id].place.Hands? ==> s.items[id].place.worker < |s.workers|)
  }

  ghost predicate LoopsOk(s: State) {
    && (forall id :: id in s.items ==> s.items[id].loop < |s.loops|)
    && (forall l :: 0 <= l < |s.loops| ==> LoopOk(s, l))
  }

  ghost predicate LoopOk(s: State, l: nat)
    requires l < |s.loops|
  {
    && NoDup(s.loops[l].queue) && NoDup(s.loops[l].local)
    && (forall id :: id in s.loops[l].queue <==>
      id in s.items && s.items[id].place == LoopQueue && s.items[id].loop == l)
    && (forall id :: id in s.loops[l].local <==>
      id in s.items && s.items[id].place == LocalQueue && s.items[id].loop == l)
    && (forall id :: s.loops[l].hands == Some(id) <==>
      id in s.items && s.items[id].place == Cancelling && s.items[id].loop == l)
  }

  /** What the history of a request is, given its place. */
  ghost predicate ItemOk(s: State, it: Item) {
    && AllCanceled(it)
    && match it.place
       case SharedQueue => Fresh(it) && it.ran == 0
       case SlowQueue => Fresh(it) && it.ran == 0
       case Hands(i) => i < |s.workers| && Fresh(it) && it.ran == (if s.workers[i].Ran? then 1 else 0)
       case Cancelling => it.ran == 0 && |it.dones| == it.again
         && (if it.cancelled then it.work == CancelledFn else it.work == Function)
       case LoopQueue => Settled(it) && |it.dones| == it.again
       case LocalQueue => Settled(it) && |it.dones| == it.again
       case Finished => Settled(it) && |it.dones| == it.again + 1
  }

  ghost predicate Fresh(it: Item) {
    it.work == Function && !it.cancelled && it.dones == [] && it.again == 0
  }

  /** All statuses are those of a cancelled request, or there is one at most. */
  ghost predicate AllCanceled(it: Item) {
    && (forall k :: 0 <= k < |it.dones| ==> it.dones[k] == if it.cancelled then Canceled else Ok)
    && (it.again > 0 ==> it.cancelled)
  }

  ghost predicate Settled(it: Item) {
    if it.cancelled then it.work == CancelledFn && it.ran == 0 else it.work == Null && it.ran == 1
  }

  ghost predicate ItemsOk(s: State) {
    forall id :: id in s.items ==> ItemOk(s, s.items[id])
  }

  ghost predicate CountersOk(s: State) {
    && |s.workers| >= 1
    && s.idle == Count(s.workers, IsIdle)
    && s.slowRunning == Count(s.workers, IsSlow)
    && s.slowRunning <= Threshold(s)
  }

  predicate IsReady(w: Worker) {
    w.Ready? || w.Signalled?
  }

  /** The messages that call for a worker: all but a sentinel at the threshold. */
  ghost function Due(s: State): int {
    |s.wq| - if RunSlow in s.wq && s.slowRunning >= Threshold(s) then 1 else 0
  }

  ghost predicate HasSleeper(ws: seq<Worker>) {
    exists i :: 0 <= i < |ws| && ws[i].Asleep?
  }

  /** While some worker sleeps unsignalled, enough others are on their way to the queue. */
  ghost predicate WakeupOk(s: State) {
    HasSleeper(s.workers) ==> Count(s.workers, IsReady) >= Due(s)
  }

  ghost predicate SentinelOk(s: State) {
    s.slowPending != [] ==> RunSlow in s.wq
  }

  ghost predicate Inv(s: State) {
    PlacesOk(s) && LoopsOk(s) && ItemsOk(s) && CountersOk(s) && WakeupOk(s) && SentinelOk(s)
  }

  // ---------- Sequences without duplicates ----------

  lemma Appended<T>(q: seq<T>, x: T)
    requires NoDup(q) && x !in q
    ensures NoDup(q + [x])
    ensures forall y :: y in q + [x] <==> y in q || y == x
  {
  }

  lemma HeadRemoved<T>(q: seq<T>)
    requires NoDup(q) && q != []
    ensures NoDup(q[1..])
    ensures forall y :: y in q[1..] <==> y in q && y != q[0]
  {
    forall y | y in q && y != q[0]
      ensures y in q[1..]
    {
      var i :| 0 <= i < |q| && q[i] == y;
      assert q[1..][i - 1] == y;
    }
  }

  lemma {:induction false} Removed<T>(q: seq<T>, x: T)
    requires NoDup(q)
    ensures NoDup(Without(q, x))
    ensures forall y :: y in Without(q, x) <==> y in q && y != x
  {
    if q != [] {
      Removed(q[1..], x);
      HeadRemoved(q);
      var rest := Without(q[1..], x);
      assert forall j :: 0 <= j < |rest| ==> rest[j] in rest;
      assert q[0] !in q[1..];
    }
  }

  lemma {:induction false} CountUpdate(ws: seq<Worker>, p: Worker -> bool, i: nat, w: Worker)
    requires i < |ws|
    ensures Count(ws[i := w], p) == Count(ws, p) - (if p(ws[i]) then 1 else 0) + (if p(w) then 1 else 0)
  {
    var n := |ws| - 1;
    if i < n {
      assert ws[i := w][..n] == ws[..n][i := w];
      CountUpdate(ws[..n], p, i, w);
    } else {
      assert ws[i := w][..n] == ws[..n];
    }
  }

  lemma {:induction false} CountNone(ws: seq<Worker>, p: Worker -> bool)
    requires forall i :: 0 <= i < |ws| ==> !p(ws[i])
    ensures Count(ws, p) == 0
  {
    if ws != [] { CountNone(ws[..|ws| - 1], p); }
  }

  lemma {:induction false} CountSome(ws: seq<Worker>, p: Worker -> bool, i: nat)
    requires i < |ws| && p(ws[i])
    ensures Count(ws, p) > 0
  {
    if i < |ws| - 1 { CountSome(ws[..|ws| - 1], p, i); }
  }

  // ---------- Signals ----------

  /** A signal disturbs nothing but one sleeper, who is then on its way. */
  lemma SignalEffect(ws: seq<Worker>, ws': seq<Worker>)
    requires Signal(ws, ws')
    ensures |ws'| == |ws|
    ensures Count(ws', IsIdle) == Count(ws, IsIdle) && Count(ws', IsSlow) == Count(ws, IsSlow)
    ensures Count(ws', IsReady) == Count(ws, IsReady) + if HasSleeper(ws) then 1 else 0
    ensures forall i :: 0 <= i < |ws| ==> ws'[i] == ws[i] || (ws[i] == Asleep && ws'[i] == Signalled)
  {
    if HasSleeper(ws) {
      var i: nat :| i < |ws| && ws[i].Asleep? && ws' == ws[i := Signalled];
      CountUpdate(ws, IsIdle, i, Signalled);
      CountUpdate(ws, IsSlow, i, Signalled);
      CountUpdate(ws, IsReady, i, Signalled);
    }
  }

  lemma SignalIfIdleEffect(idle: nat, ws: seq<Worker>, ws': seq<Worker>)
    requires SignalIfIdle(idle, ws, ws')
    ensures |ws'| == |ws|
    ensures Count(ws', IsIdle) == Count(ws, IsIdle) && Count(ws', IsSlow) == Count(ws, IsSlow)
    ensures idle == Count(ws, IsIdle) ==> Count(ws', IsReady) == Count(ws, IsReady) + if HasSleeper(ws) then 1 else 0
    ensures forall i :: 0 <= i < |ws| ==> ws'[i] == ws[i] || (ws[i] == Asleep && ws'[i] == Signalled)
  {
    if idle > 0 {
      SignalEffect(ws, ws');
    } else if HasSleeper(ws) {
      var i: nat :| i < |ws| && ws[i].Asleep?;
      CountSome(ws, IsIdle, i);
    }
  }

  ghost predicate SomeoneAwake(ws: seq<Worker>) {
    || (exists i :: 0 <= i < |ws| && IsAwake(ws[i]))
    || (forall i :: 0 <= i < |ws| ==> ws[i].Exited?)
  }

  lemma {:induction false} CountWitness(ws: seq<Worker>, p: Worker -> bool) returns (i: nat)
    requires Count(ws, p) > 0
    ensures i < |ws| && p(ws[i])
  {
    var n := |ws| - 1;
    if p(ws[n]) {
      i := n;
    } else {
      i := CountWitness(ws[..n], p);
    }
  }

  /** Work that a worker may take never meets only unsignalled sleepers. */
  lemma EnoughAreAwake(s: State)
    requires WakeupOk(s) && !MustWait(s)
    ensures SomeoneAwake(s.workers)
  {
    if HasSleeper(s.workers) {
      assert |s.wq| == 1 ==> s.wq == [s.wq[0]];
      var i := CountWitness(s.workers, IsReady);
      assert IsAwake(s.workers[i]);
    } else {
      assert forall i :: 0 <= i < |s.workers| ==> IsAwake(s.workers[i]) || s.workers[i].Exited?;
    }
  }

  // ---------- Counters, wakeups, sentinel ----------

  ghost predicate Sync(s: State) {
    CountersOk(s) && WakeupOk(s) && SentinelOk(s)
  }

  function One(b: bool): nat {
    if b then 1 else 0
  }

  /** Replacing worker `i` by one that does not sleep, with the counters adjusted. */
  lemma WorkerChange(s: State, s': State, i: nat, w: Worker)
    requires CountersOk(s) && WakeupOk(s) && i < |s.workers| && !w.Asleep?
    requires s'.workers == s.workers[i := w]
    requires s'.idle == s.idle - One(IsIdle(s.workers[i])) + One(IsIdle(w))
    requires s'.slowRunning == s.slowRunning - One(IsSlow(s.workers[i])) + One(IsSlow(w)) <= Threshold(s)
    requires Due(s') <= Due(s) - One(IsReady(s.workers[i])) + One(IsReady(w))
    ensures CountersOk(s') && WakeupOk(s')
  {
    CountUpdate(s.workers, IsIdle, i, w);
    CountUpdate(s.workers, IsSlow, i, w);
    CountUpdate(s.workers, IsReady, i, w);
    if HasSleeper(s'.workers) {
      var k: nat :| k < |s'.workers| && s'.workers[k].Asleep?;
      assert s.workers[k].Asleep?;
    }
  }

  /** A signal after a worker has changed, or none has, makes up for one message more. */
  lemma SignalSync(s: State, ws: seq<Worker>, s': State)
    requires |s.workers| >= 1 && |ws| == |s.workers| && SignalIfIdle(s.idle, ws, s'.workers)
    requires s'.idle == s.idle == Count(ws, IsIdle) && s'.slowRunning == Count(ws, IsSlow) <= Threshold(s)
    requires HasSleeper(ws) ==> Count(ws, IsReady) + 1 >= Due(s')
    ensures CountersOk(s') && WakeupOk(s')
  {
    SignalIfIdleEffect(s.idle, ws, s'.workers);
    if HasSleeper(s'.workers) {
      var k: nat :| k < |s'.workers| && s'.workers[k].Asleep?;
      assert ws[k].Asleep?;
    }
  }

  lemma TakeSlowSync(s: State, s': State, i: nat)
    requires Sync(s) && NoDup(s.wq) && i < |s.workers| && s.workers[i].Ready? && s.slowRunning < Threshold(s)
    requires s.wq != [] && s.wq[0] == RunSlow && s.slowPending != [] && TakeSlow(s, s', i)
    ensures Sync(s')
  {
    var w := Working(s.slowPending[0], true);
    HeadRemoved(s.wq);
    if |s.slowPending| == 1 {
      WorkerChange(s, s', i, w);
    } else {
      var ws := s.workers[i := w];
      CountUpdate(s.workers, IsIdle, i, w);
      CountUpdate(s.workers, IsSlow, i, w);
      CountUpdate(s.workers, IsReady, i, w);
      if HasSleeper(ws) {
        var k: nat :| k < |ws| && ws[k].Asleep?;
        assert s.workers[k].Asleep?;
      }
      assert s'.wq[|s'.wq| - 1] == RunSlow;
      SignalSync(s, ws, s');
    }
  }

  lemma TakeSentinelSync(s: State, s': State, i: nat)
    requires Sync(s) && NoDup(s.wq) && TakeSentinel(s, s', i)
    ensures Sync(s')
  {
    HeadRemoved(s.wq);
    if s.slowRunning >= Threshold(s) || s.slowPending == [] {
      assert s.slowRunning >= Threshold(s) ==> s'.wq[|s'.wq| - 1] == RunSlow;
      WorkerChange(s, s', i, Ready);
    } else {
      TakeSlowSync(s, s', i);
    }
  }

  lemma TakeExitSync(s: State, s': State, i: nat)
    requires Sync(s) && TakeExit(s, s', i)
    ensures Sync(s')
  {
    var ws := s.workers[i := Exited];
    CountUpdate(s.workers, IsIdle, i, Exited);
    CountUpdate(s.workers, IsSlow, i, Exited);
    CountUpdate(s.workers, IsReady, i, Exited);
    SignalEffect(ws, s'.workers);
    if HasSleeper(s'.workers) {
      var k: nat :| k < |s'.workers| && s'.workers[k].Asleep?;
      assert ws[k].Asleep? && s.workers[k].Asleep?;
    }
  }

  lemma SleepSync(s: State, s': State, i: nat)
    requires Sync(s) && Sleep(s, s', i)
    ensures Sync(s')
  {
    CountUpdate(s.workers, IsIdle, i, Asleep);
    CountUpdate(s.workers, IsSlow, i, Asleep);
    assert Due(s') <= 0;
  }

  lemma WorkerSync(s: State, s': State, i: nat)
    requires Sync(s) && NoDup(s.wq) && WorkerStep(s, s', i)
    ensures Sync(s')
  {
    if SpuriousWake(s, s', i) {
      WorkerChange(s, s', i, Signalled);
    } else if Wake(s, s', i) {
      WorkerChange(s, s', i, Ready);
    } else if Sleep(s, s', i) {
      SleepSync(s, s', i);
    } else if TakeExit(s, s', i) {
      TakeExitSync(s, s', i);
    } else if TakeWork(s, s', i) {
      HeadRemoved(s.wq);
      WorkerChange(s, s', i, Working(s.wq[0].id, false));
    } else if TakeSentinel(s, s', i) {
      TakeSentinelSync(s, s', i);
    } else {
      BusyWorkerSync(s, s', i);
    }
  }

  lemma BusyWorkerSync(s: State, s': State, i: nat)
    requires Sync(s) && (Execute(s, s', i) || Publish(s, s', i) || Relock(s, s', i))
    ensures Sync(s')
  {
    WorkerChange(s, s', i, s'.workers[i]);
  }

  /** A message is posted, with a signal if anyone idles. */
  lemma PostSync(s: State, s': State, m: Msg)
    requires Sync(s) && SignalIfIdle(s.idle, s.workers, s'.workers)
    requires s'.wq == s.wq + [m] && s'.idle == s.idle && s'.slowRunning == s.slowRunning
    requires s'.slowPending == s.slowPending || m == RunSlow
    ensures Sync(s')
  {
    assert s'.wq[|s.wq|] == m && forall x :: x in s.wq ==> x in s'.wq;
    SignalSync(s, s.workers, s');
  }

  lemma WithoutIsShorter<T>(q: seq<T>, x: T)
    ensures |Without(q, x)| <= |q|
  {
  }

  lemma CancelSync(s: State, s': State, id: Id)
    requires Sync(s) && NoDup(s.wq) && CancelUnlink(s, s', id)
    ensures Sync(s')
  {
    Removed(s.wq, Work(id));
    WithoutIsShorter(s.wq, Work(id));
    assert s.slowPending == [] ==> s'.slowPending == [];
  }

  lemma UserSync(s: State, s': State, id: Id, l: nat)
    requires Sync(s) && NoDup(s.wq) && UserStep(s, s', id, l)
    ensures Sync(s')
  {
    if SubmitCpu(s, s', id, l) {
      PostSync(s, s', Work(id));
    } else if SubmitSlow(s, s', id, l) {
      if RunSlow !in s.wq { PostSync(s, s', RunSlow); }
    } else {
      CancelSync(s, s', id);
    }
  }

  lemma StepSync(s: State, s': State)
    requires Sync(s) && NoDup(s.wq) && Step(s, s')
    ensures Sync(s')
  {
    if i: nat :| WorkerStep(s, s', i) {
      WorkerSync(s, s', i);
    } else if l: nat :| LoopStep(s, s', l) {
    } else if id, l: nat :| UserStep(s, s', id, l) {
      UserSync(s, s', id, l);
    } else {
      PostSync(s, s', Exit);
    }
  }

  // ---------- Places and histories ----------

  ghost predicate Conserved(s: State) {
    PlacesOk(s) && LoopsOk(s) && ItemsOk(s)
  }

  predicate InLoop(p: Place) {
    p.Cancelling? || p.LoopQueue? || p.LocalQueue?
  }

  /** Loops stay consistent when neither they nor the requests in them change. */
  lemma LoopsFrame(s: State, s': State)
    requires LoopsOk(s) && s'.loops == s.loops
    requires forall id :: id in s.items ==> id in s'.items
    requires forall id :: id in s'.items && id in s.items ==>
      && s'.items[id].loop == s.items[id].loop
      && (InLoop(s.items[id].place) || InLoop(s'.items[id].place) ==> s'.items[id].place == s.items[id].place)
    requires forall id :: id in s'.items && id !in s.items ==>
      !InLoop(s'.items[id].place) && s'.items[id].loop < |s.loops|
    ensures LoopsOk(s')
  {
    forall l | 0 <= l < |s'.loops|
      ensures LoopOk(s', l)
    {
      assert LoopOk(s, l);
    }
  }

  /** The loops other than `l`, when request `id` of loop `l` is the only one to change. */
  lemma OtherLoops(s: State, s': State, l: nat, id: Id)
    requires LoopsOk(s) && l < |s.loops| && |s'.loops| == |s.loops|
    requires forall k :: 0 <= k < |s.loops| && k != l ==> s'.loops[k] == s.loops[k]
    requires id in s.items && s.items[id].loop == l
    requires s'.items.Keys == s.items.Keys && s'.items[id].loop == l
    requires forall x :: x in s.items && x != id ==> s'.items[x] == s.items[x]
    requires LoopOk(s', l)
    ensures LoopsOk(s')
  {
    forall k | 0 <= k < |s'.loops|
      ensures LoopOk(s', k)
    {
      assert LoopOk(s, k);
    }
  }

  /** Histories stay consistent when only request `id` changes, and worker `i`, who held it or nothing. */
  lemma ItemsFrame(s: State, s': State, id: Id)
    requires PlacesOk(s) && ItemsOk(s) && |s'.workers| == |s.workers|
    requires forall x :: x in s'.items && x != id ==> x in s.items && s'.items[x] == s.items[x]
    requires forall k :: 0 <= k < |s.workers| ==>
      s'.workers[k].Ran? == s.workers[k].Ran? || HandOf(s.workers[k]) == None || HandOf(s.workers[k]) == Some(id)
    requires id in s'.items ==> ItemOk(s', s'.items[id])
    ensures ItemsOk(s')
  {
    forall x | x in s'.items && x != id
      ensures ItemOk(s', s'.items[x])
    {
      assert ItemOk(s, s.items[x]);
      if s.items[x].place.Hands? {
        assert HandOf(s.workers[s.items[x].place.worker]) == Some(x);
      }
    }
  }

  lemma PlacesSameHands(s: State, s': State)
    requires PlacesOk(s) && |s'.workers| == |s.workers|
    requires s'.wq == s.wq && s'.slowPending == s.slowPending && s'.items == s.items
    requires forall i :: 0 <= i < |s.workers| ==> HandOf(s'.workers[i]) == HandOf(s.workers[i])
    ensures PlacesOk(s')
  {
  }

  /** A request moves in or out of a loop. */
  lemma PlacesLoopMove(s: State, s': State, id: Id)
    requires PlacesOk(s) && id in s.items && |s'.workers| == |s.workers|
    requires s'.wq == s.wq && s'.slowPending == s.slowPending
    requires s'.items.Keys == s.items.Keys && forall x :: x in s.items && x != id ==> s'.items[x] == s.items[x]
    requires s.items[id].place.Hands? || InLoop(s.items[id].place)
    requires InLoop(s'.items[id].place) || s'.items[id].place == Finished
    requires forall i :: 0 <= i < |s.workers| ==>
      HandOf(s'.workers[i]) == if HandOf(s.workers[i]) == Some(id) then None else HandOf(s.workers[i])
    ensures PlacesOk(s')
  {
    forall i, x | 0 <= i < |s'.workers|
      ensures HandOf(s'.workers[i]) == Some(x) <==> x in s'.items && s'.items[x].place == Hands(i)
    {
      assert HandOf(s.workers[i]) == Some(x) <==> x in s.items && s.items[x].place == Hands(i);
    }
  }

  /** Workers may change freely as long as what each holds does not. */
  lemma SameHands(s: State, s': State)
    requires Conserved(s) && |s'.workers| == |s.workers|
    requires s' == s.(workers := s'.workers, idle := s'.idle, slowRunning := s'.slowRunning)
    requires forall i :: 0 <= i < |s.workers| ==>
      HandOf(s'.workers[i]) == HandOf(s.workers[i]) && s'.workers[i].Ran? == s.workers[i].Ran?
    ensures Conserved(s')
  {
    LoopsFrame(s, s');
  }

  lemma SubmitCpuPlaces(s: State, mid: State, id: Id, l: nat)
    requires PlacesOk(s) && id !in s.items
    requires mid == s.(items := s.items[id := Item(l, Function, SharedQueue, 0, false, [], 0)], wq := s.wq + [Work(id)])
    ensures PlacesOk(mid)
  {
    Appended(s.wq, Work(id));
  }

  lemma SubmitCpuConserved(s: State, s': State, id: Id, l: nat)
    requires Conserved(s) && SubmitCpu(s, s', id, l)
    ensures Conserved(s')
  {
    SignalIfIdleEffect(s.idle, s.workers, s'.workers);
    SubmitCpuPlaces(s, s'.(workers := s.workers), id, l);
    PlacesSameHands(s'.(workers := s.workers), s');
    LoopsFrame(s, s');
    ItemsFrame(s, s', id);
  }

  lemma SubmitSlowPlaces(s: State, mid: State, id: Id, l: nat)
    requires PlacesOk(s) && id !in s.items
    requires mid.items == s.items[id := Item(l, Function, SlowQueue, 0, false, [], 0)]
    requires mid.slowPending == s.slowPending + [id] && mid.workers == s.workers
    requires mid.wq == if RunSlow in s.wq then s.wq else s.wq + [RunSlow]
    ensures PlacesOk(mid)
  {
    Appended(s.slowPending, id);
    if RunSlow !in s.wq {
      Appended(s.wq, RunSlow);
    }
  }

  lemma SubmitSlowConserved(s: State, s': State, id: Id, l: nat)
    requires Conserved(s) && SubmitSlow(s, s', id, l)
    ensures Conserved(s')
  {
    if RunSlow !in s.wq { SignalIfIdleEffect(s.idle, s.workers, s'.workers); }
    SubmitSlowPlaces(s, s'.(workers := s.workers), id, l);
    PlacesSameHands(s'.(workers := s.workers), s');
    LoopsFrame(s, s');
    ItemsFrame(s, s', id);
  }

  lemma TakeWorkPlaces(s: State, s': State, i: nat)
    requires PlacesOk(s) && TakeWork(s, s', i)
    ensures PlacesOk(s')
  {
    HeadRemoved(s.wq);
    assert s.wq[0] in s.wq;
  }

  lemma TakeWorkConserved(s: State, s': State, i: nat)
    requires Conserved(s) && TakeWork(s, s', i)
    ensures Conserved(s')
  {
    TakeWorkPlaces(s, s', i);
    assert s.wq[0] in s.wq;
    assert ItemOk(s, s.items[s.wq[0].id]);
    LoopsFrame(s, s');
    ItemsFrame(s, s', s.wq[0].id);
  }

  lemma TakeSlowPlaces(s: State, s': State, i: nat, id: Id)
    requires PlacesOk(s) && i < |s.workers| == |s'.workers| && s.workers[i].Ready?
    requires s.wq != [] && s.wq[0] == RunSlow && s.slowPending != [] && id == s.slowPending[0] && id in s.items
    requires s'.wq == s.wq[1..] || s'.wq == s.wq[1..] + [RunSlow]
    requires s'.slowPending == s.slowPending[1..]
    requires s'.items == s.items[id := s.items[id].(place := Hands(i))]
    requires forall k :: 0 <= k < |s.workers| ==>
      HandOf(s'.workers[k]) == if k == i then Some(id) else HandOf(s.workers[k])
    ensures PlacesOk(s')
  {
    HeadRemoved(s.wq);
    Appended(s.wq[1..], RunSlow);
    HeadRemoved(s.slowPending);
    assert id in s.slowPending;
  }

  /** What the worker that takes slow work leaves of the state. */
  lemma TakeSlowHands(s: State, s': State, i: nat)
    requires TakeSentinel(s, s', i) && s.slowRunning < Threshold(s) && s.slowPending != []
    ensures |s'.workers| == |s.workers| && s'.workers[i] == Working(s.slowPending[0], true)
    ensures forall k :: 0 <= k < |s.workers| && k != i ==>
      HandOf(s'.workers[k]) == HandOf(s.workers[k]) && s'.workers[k].Ran? == s.workers[k].Ran?
    ensures s'.slowPending == s.slowPending[1..] && s'.loops == s.loops
    ensures s'.wq == s.wq[1..] || s'.wq == s.wq[1..] + [RunSlow]
  {
    if |s.slowPending| > 1 {
      SignalIfIdleEffect(s.idle, s.workers[i := Working(s.slowPending[0], true)], s'.workers);
    }
  }

  lemma TakeSlowItems(s: State, s': State, i: nat)
    requires PlacesOk(s) && ItemsOk(s) && TakeSentinel(s, s', i)
    requires s.slowRunning < Threshold(s) && s.slowPending != []
    ensures ItemsOk(s')
  {
    var id := s.slowPending[0];
    TakeSlowHands(s, s', i);
    assert id in s.slowPending && ItemOk(s, s.items[id]);
    ItemsFrame(s, s', id);
  }

  lemma TakeSlowConserved(s: State, s': State, i: nat)
    requires Conserved(s) && TakeSentinel(s, s', i)
    requires s.slowRunning < Threshold(s) && s.slowPending != []
    ensures Conserved(s')
  {
    var id := s.slowPending[0];
    TakeSlowHands(s, s', i);
    TakeSlowItems(s, s', i);
    TakeSlowPlaces(s, s', i, id);
    assert id in s.slowPending;
    LoopsFrame(s, s');
  }

  lemma TakeSentinelConserved(s: State, s': State, i: nat)
    requires Conserved(s) && TakeSentinel(s, s', i)
    ensures Conserved(s')
  {
    if s.slowRunning >= Threshold(s) || s.slowPending == [] {
      HeadRemoved(s.wq);
      Appended(s.wq[1..], RunSlow);
      LoopsFrame(s, s');
    } else {
      TakeSlowConserved(s, s', i);
    }
  }

  lemma ExecuteItems(s: State, s': State, i: nat)
    requires PlacesOk(s) && ItemsOk(s) && Execute(s, s', i)
    ensures ItemsOk(s') && s.items[s.workers[i].id].work == Function && s.items[s.workers[i].id].place == Hands(i)
  {
    var id := s.workers[i].id;
    assert HandOf(s.workers[i]) == Some(id);
    assert ItemOk(s, s.items[id]);
    ItemsFrame(s, s', id);
  }

  lemma ExecuteConserved(s: State, s': State, i: nat)
    requires Conserved(s) && Execute(s, s', i)
    ensures Conserved(s')
  {
    ExecuteItems(s, s', i);
    ExecutePlaces(s, s', i);
    LoopsFrame(s, s');
  }

  lemma ExecutePlaces(s: State, s': State, i: nat)
    requires PlacesOk(s) && Execute(s, s', i)
    ensures PlacesOk(s')
  {
    assert forall j :: 0 <= j < |s.workers| ==> HandOf(s'.workers[j]) == HandOf(s.workers[j]);
    assert forall id :: id in s.items ==> s'.items[id].place == s.items[id].place;
  }

  lemma PublishItems(s: State, s': State, i: nat)
    requires PlacesOk(s) && ItemsOk(s) && Publish(s, s', i)
    ensures PlacesOk(s') && ItemsOk(s') && s.items[s.workers[i].id].place == Hands(i)
  {
    var id := s.workers[i].id;
    assert HandOf(s.workers[i]) == Some(id);
    assert ItemOk(s, s.items[id]);
    ItemsFrame(s, s', id);
    PlacesLoopMove(s, s', id);
  }

  lemma PublishConserved(s: State, s': State, i: nat)
    requires Conserved(s) && Publish(s, s', i)
    ensures Conserved(s')
  {
    PublishItems(s, s', i);
    var id := s.workers[i].id;
    var l := s.items[id].loop;
    assert LoopOk(s, l);
    Appended(s.loops[l].queue, id);
    OtherLoops(s, s', l, id);
  }

  lemma WorkerConserved(s: State, s': State, i: nat)
    requires Conserved(s) && WorkerStep(s, s', i)
    ensures Conserved(s')
  {
    if TakeWork(s, s', i) {
      TakeWorkConserved(s, s', i);
    } else if TakeSentinel(s, s', i) {
      TakeSentinelConserved(s, s', i);
    } else if Execute(s, s', i) {
      ExecuteConserved(s, s', i);
    } else if Publish(s, s', i) {
      PublishConserved(s, s', i);
    } else {
      if TakeExit(s, s', i) { SignalEffect(s.workers[i := Exited], s'.workers); }
      SameHands(s, s');
    }
  }

  lemma LinkedPlace(s: State, id: Id)
    requires PlacesOk(s) && LoopsOk(s) && id in s.items && IsLinked(s, id)
    ensures s.items[id].place in {SharedQueue, SlowQueue, LoopQueue, LocalQueue, Finished}
  {
    if l :| 0 <= l < |s.loops| && (id in s.loops[l].queue || id in s.loops[l].local) {
      assert LoopOk(s, l);
    }
  }

  lemma CancelUnlinkPlaces(s: State, s': State, id: Id)
    requires PlacesOk(s) && LoopsOk(s) && CancelUnlink(s, s', id)
    ensures PlacesOk(s')
  {
    Removed(s.wq, Work(id));
    Removed(s.slowPending, id);
    LinkedPlace(s, id);
  }

  lemma CancelUnlinkConserved(s: State, s': State, id: Id)
    requires Conserved(s) && CancelUnlink(s, s', id)
    ensures Conserved(s')
  {
    CancelUnlinkPlaces(s, s', id);
    LinkedPlace(s, id);
    assert ItemOk(s, s.items[id]);
    ItemsFrame(s, s', id);
    var l := s.items[id].loop;
    assert LoopOk(s, l);
    Removed(s.loops[l].queue, id);
    Removed(s.loops[l].local, id);
    OtherLoops(s, s', l, id);
  }

  lemma CancelRelinkLoops(s: State, s': State, l: nat)
    requires LoopsOk(s) && CancelRelink(s, s', l)
    ensures LoopsOk(s')
  {
    var id := s.loops[l].hands.value;
    assert LoopOk(s, l);
    Appended(s.loops[l].queue, id);
    OtherLoops(s, s', l, id);
  }

  lemma CancelRelinkItems(s: State, s': State, l: nat)
    requires PlacesOk(s) && l < |s.loops| && LoopOk(s, l) && ItemsOk(s) && CancelRelink(s, s', l)
    ensures PlacesOk(s') && ItemsOk(s')
  {
    var id := s.loops[l].hands.value;
    assert ItemOk(s, s.items[id]);
    ItemsFrame(s, s', id);
    PlacesLoopMove(s, s', id);
  }

  lemma CancelRelinkConserved(s: State, s': State, l: nat)
    requires Conserved(s) && CancelRelink(s, s', l)
    ensures Conserved(s')
  {
    CancelRelinkLoops(s, s', l);
    CancelRelinkItems(s, s', l);
  }

  lemma DrainConserved(s: State, s': State, l: nat)
    requires Conserved(s) && Drain(s, s', l)
    ensures Conserved(s')
  {
    assert LoopOk(s, l);
    forall id | id in s.items
      ensures ItemOk(s', s'.items[id])
    {
      assert ItemOk(s, s.items[id]);
    }
    DrainLoops(s, s', l);
  }

  lemma DrainLoops(s: State, s': State, l: nat)
    requires LoopsOk(s) && Drain(s, s', l)
    ensures LoopsOk(s')
  {
    assert LoopOk(s, l);
    forall k | 0 <= k < |s'.loops|
      ensures LoopOk(s', k)
    {
      assert LoopOk(s, k);
    }
  }

  lemma CallDoneLoops(s: State, s': State, l: nat)
    requires LoopsOk(s) && CallDone(s, s', l)
    ensures LoopsOk(s')
  {
    var id := s.loops[l].local[0];
    assert LoopOk(s, l) && id in s.loops[l].local;
    HeadRemoved(s.loops[l].local);
    OtherLoops(s, s', l, id);
  }

  lemma CallDoneItems(s: State, s': State, l: nat)
    requires PlacesOk(s) && l < |s.loops| && LoopOk(s, l) && ItemsOk(s) && CallDone(s, s', l)
    ensures PlacesOk(s') && ItemsOk(s')
  {
    var id := s.loops[l].local[0];
    assert id in s.loops[l].local;
    assert ItemOk(s, s.items[id]);
    ItemsFrame(s, s', id);
    PlacesLoopMove(s, s', id);
  }

  lemma CallDoneConserved(s: State, s': State, l: nat)
    requires Conserved(s) && CallDone(s, s', l)
    ensures Conserved(s')
  {
    CallDoneLoops(s, s', l);
    CallDoneItems(s, s', l);
  }

  lemma PostExitConserved(s: State, s': State)
    requires Conserved(s) && PostExit(s, s')
    ensures Conserved(s')
  {
    SignalIfIdleEffect(s.idle, s.workers, s'.workers);
    Appended(s.wq, Exit);
    LoopsFrame(s, s');
  }

  lemma StepConserved(s: State, s': State)
    requires Conserved(s) && Step(s, s')
    ensures Conserved(s')
  {
    if i: nat :| WorkerStep(s, s', i) {
      WorkerConserved(s, s', i);
    } else if l: nat :| LoopStep(s, s', l) {
      if CancelRelink(s, s', l) {
        CancelRelinkConserved(s, s', l);
      } else if Drain(s, s', l) {
        DrainConserved(s, s', l);
      } else {
        CallDoneConserved(s, s', l);
      }
    } else if id, l: nat :| UserStep(s, s', id, l) {
      if CancelUnlink(s, s', id) {
        CancelUnlinkConserved(s, s', id);
      } else if SubmitCpu(s, s', id, l) {
        SubmitCpuConserved(s, s', id, l);
      } else {
        SubmitSlowConserved(s, s', id, l);
      }
    } else {
      PostExitConserved(s, s');
    }
  }

  // ---------- Main results ----------

  lemma InitInv(s: State)
    requires Init(s)
    ensures Inv(s)
  {
    CountNone(s.workers, IsIdle);
    CountNone(s.workers, IsSlow);
  }

  ghost predicate Run(states: seq<State>) {
    && states != [] && Init(states[0])
    && forall i :: 0 <= i < |states| - 1 ==> Step(states[i], states[i + 1])
  }

  /** Every invariant holds in every state of every interleaving. */
  lemma {:induction false} InvAt(states: seq<State>, n: nat)
    requires Run(states) && n < |states|
    ensures Inv(states[n])
  {
    if n == 0 {
      InitInv(states[0]);
    } else {
      var i := n - 1;
      InvAt(states, i);
      assert Step(states[i], states[i + 1]);
      StepKeepsInv(states[i], states[i + 1]);
    }
  }

  lemma StepKeepsInv(s: State, s': State)
    requires Inv(s) && Step(s, s')
    ensures Inv(s')
  {
    StepSync(s, s');
    StepConserved(s, s');
  }

  lemma ReachableInv(states: seq<State>)
    requires Run(states)
    ensures Inv(states[|states| - 1])
  {
    InvAt(states, |states| - 1);
  }

  /** The real location of a request. */
  ghost predicate IsAt(s: State, id: Id, p: Place)
    requires id in s.items && s.items[id].loop < |s.loops|
  {
    match p
    case SharedQueue => Work(id) in s.wq
    case SlowQueue => id in s.slowPending
    case Hands(i) => i < |s.workers| && HandOf(s.workers[i]) == Some(id)
    case Cancelling => exists l :: 0 <= l < |s.loops| && s.loops[l].hands == Some(id)
    case LoopQueue => exists l :: 0 <= l < |s.loops| && id in s.loops[l].queue
    case LocalQueue => exists l :: 0 <= l < |s.loops| && id in s.loops[l].local
    case Finished => |s.items[id].dones| == s.items[id].again + 1
  }

  /** Conservation: in every reachable state a submitted request is in exactly one place, and its work ran at most
      once, and not at all once a cancel returned 0. */
  lemma ExactlyOnePlace(states: seq<State>, id: Id)
    requires Run(states) && id in states[|states| - 1].items
    ensures var s := states[|states| - 1];
      var it := s.items[id];
      && it.loop < |s.loops|
      && (exists p :: IsAt(s, id, p))
      && (forall p, q :: IsAt(s, id, p) && IsAt(s, id, q) ==> p == q)
      && it.ran <= 1 && (it.cancelled ==> it.ran == 0)
  {
    ReachableInv(states);
    var s := states[|states| - 1];
    assert ItemOk(s, s.items[id]);
    assert LoopOk(s, s.items[id].loop);
    forall p | IsAt(s, id, p)
      ensures p == s.items[id].place
    {
      PlaceIsReal(s, id, p);
    }
    assert IsAt(s, id, s.items[id].place);
  }

  lemma PlaceIsReal(s: State, id: Id, p: Place)
    requires Conserved(s) && id in s.items && IsAt(s, id, p)
    ensures p == s.items[id].place
  {
    assert ItemOk(s, s.items[id]);
    match p {
      case Cancelling => var l :| 0 <= l < |s.loops| && s.loops[l].hands == Some(id); assert LoopOk(s, l);
      case LoopQueue => var l :| 0 <= l < |s.loops| && id in s.loops[l].queue; assert LoopOk(s, l);
      case LocalQueue => var l :| 0 <= l < |s.loops| && id in s.loops[l].local; assert LoopOk(s, l);
      case _ =>
    }
  }

  /** What `done` was told: UV_ECANCELED exactly when a cancel returned 0, and then the work never ran; once for
      every time the request was finished. */
  lemma DoneHistory(states: seq<State>, id: Id)
    requires Run(states) && id in states[|states| - 1].items
    ensures var it := states[|states| - 1].items[id];
      && (it.dones != [] ==> (Canceled in it.dones <==> it.cancelled) && (Ok in it.dones <==> it.ran == 1))
      && |it.dones| == it.again + (if it.place.Finished? then 1 else 0)
      && (it.again > 0 ==> it.cancelled)
  {
    ReachableInv(states);
    var s := states[|states| - 1];
    assert ItemOk(s, s.items[id]);
    var it := s.items[id];
    assert it.dones != [] ==> it.dones[0] in it.dones;
  }

  /** uv_cancel is called on a request whose `done` has been called. */
  ghost predicate LateCancel(s: State, s': State) {
    exists id :: id in s.items && s.items[id].dones != [] && CancelUnlink(s, s', id)
  }

  ghost predicate NoLateCancel(states: seq<State>) {
    forall i :: 0 <= i < |states| - 1 ==> !LateCancel(states[i], states[i + 1])
  }

  ghost predicate NoneAgain(s: State) {
    forall id :: id in s.items ==> s.items[id].again == 0
  }

  lemma WorkerKeepsAgain(s: State, s': State, i: nat, id: Id)
    requires WorkerStep(s, s', i) && (id in s.items || id in s'.items)
    ensures id in s.items && id in s'.items && s'.items[id].again == s.items[id].again
  {
  }

  lemma LoopKeepsAgain(s: State, s': State, l: nat, id: Id)
    requires LoopStep(s, s', l) && (id in s.items || id in s'.items)
    ensures id in s.items && id in s'.items && s'.items[id].again == s.items[id].again
  {
  }

  /** Only a cancel of a finished request changes how often it was so cancelled. */
  lemma AgainChange(s: State, s': State, id: Id)
    requires Step(s, s') && (id in s.items || id in s'.items)
    ensures id in s'.items && (id !in s.items ==> s'.items[id].again == 0)
    ensures id in s.items && s'.items[id].again != s.items[id].again ==>
      s'.items[id].again == s.items[id].again + 1 && s.items[id].place.Finished? && CancelUnlink(s, s', id)
  {
    if i: nat :| WorkerStep(s, s', i) {
      WorkerKeepsAgain(s, s', i, id);
    } else if l: nat :| LoopStep(s, s', l) {
      LoopKeepsAgain(s, s', l, id);
    }
  }

  lemma AgainByLateCancel(s: State, s': State)
    requires ItemsOk(s) && Step(s, s') && NoneAgain(s) && !LateCancel(s, s')
    ensures NoneAgain(s')
  {
    forall id | id in s'.items
      ensures s'.items[id].again == 0
    {
      AgainChange(s, s', id);
      assert id in s.items ==> ItemOk(s, s.items[id]);
    }
  }

  lemma ReachableItems(states: seq<State>, n: nat)
    requires Run(states) && n < |states|
    ensures ItemsOk(states[n])
  {
    InvAt(states, n);
  }

  lemma StillNoneAgain(states: seq<State>, i: nat)
    requires Run(states) && NoLateCancel(states) && i < |states| - 1 && NoneAgain(states[i])
    ensures NoneAgain(states[i + 1])
  {
    assert Step(states[i], states[i + 1]) && !LateCancel(states[i], states[i + 1]);
    ReachableItems(states, i);
    AgainByLateCancel(states[i], states[i + 1]);
  }

  lemma {:induction false} NoneAgainAt(states: seq<State>, n: nat)
    requires Run(states) && NoLateCancel(states) && n < |states|
    ensures NoneAgain(states[n])
  {
    if n > 0 {
      NoneAgainAt(states, n - 1);
      StillNoneAgain(states, n - 1);
    }
  }

  lemma NoLateNoneAgain(states: seq<State>)
    requires Run(states) && NoLateCancel(states)
    ensures NoneAgain(states[|states| - 1])
  {
    NoneAgainAt(states, |states| - 1);
  }

  lemma {:induction false} AgainStays(states: seq<State>, i: nat, id: Id)
    requires Run(states) && i < |states| && id in states[i].items
    ensures id in states[|states| - 1].items && states[|states| - 1].items[id].again >= states[i].items[id].again
    decreases |states| - i
  {
    if i < |states| - 1 {
      AgainChange(states[i], states[i + 1], id);
      AgainStays(states, i + 1, id);
    }
  }

  /** A late cancel finds a request that is finished, or was cancelled late before. */
  lemma LateCancelCounts(s: State, s': State) returns (id: Id)
    requires ItemsOk(s) && LateCancel(s, s')
    ensures id in s'.items && s'.items[id].again > 0
  {
    id :| id in s.items && s.items[id].dones != [] && CancelUnlink(s, s', id);
    assert ItemOk(s, s.items[id]);
  }

  lemma DoneAtMostOnce(states: seq<State>, id: Id)
    requires Run(states) && NoLateCancel(states) && id in states[|states| - 1].items
    ensures states[|states| - 1].items[id].again == 0 && |states[|states| - 1].items[id].dones| <= 1
  {
    ReachableInv(states);
    NoLateNoneAgain(states);
    assert ItemOk(states[|states| - 1], states[|states| - 1].items[id]);
  }

  lemma LateCancelShows(states: seq<State>) returns (id: Id)
    requires Run(states) && !NoLateCancel(states)
    ensures id in states[|states| - 1].items && states[|states| - 1].items[id].again > 0
  {
    var i: nat :| i < |states| - 1 && LateCancel(states[i], states[i + 1]);
    id := LateCancelAt(states, i);
    AgainStays(states, i + 1, id);
  }

  lemma LateCancelAt(states: seq<State>, i: nat) returns (id: Id)
    requires Run(states) && i < |states| - 1 && LateCancel(states[i], states[i + 1])
    ensures id in states[i + 1].items && states[i + 1].items[id].again > 0
  {
    ReachableInv(states[..i + 1]);
    id := LateCancelCounts(states[i], states[i + 1]);
  }

  ghost predicate AllFinished(s: State) {
    forall id :: id in s.items ==> s.items[id].place.Finished?
  }

  ghost predicate EachDoneAtMostOnce(s: State) {
    forall id :: id in s.items ==> |s.items[id].dones| <= 1
  }

  ghost predicate EachDoneOnce(s: State) {
    forall id :: id in s.items ==> |s.items[id].dones| == 1
  }

  /** `done` is called at most once on each request, in a run without a late cancel; and whenever everything is
      finished, exactly once on each request if and only if there was none. */
  lemma DoneOnceIff(states: seq<State>)
    requires Run(states)
    ensures NoLateCancel(states) ==> EachDoneAtMostOnce(states[|states| - 1])
    ensures AllFinished(states[|states| - 1]) ==> (EachDoneOnce(states[|states| - 1]) <==> NoLateCancel(states))
  {
    if NoLateCancel(states) {
      var s := states[|states| - 1];
      forall id | id in s.items
        ensures |s.items[id].dones| <= 1 && (s.items[id].place.Finished? ==> |s.items[id].dones| == 1)
      {
        DoneAtMostOnce(states, id);
        DoneHistory(states, id);
      }
    } else {
      var id := LateCancelShows(states);
      DoneHistory(states, id);
    }
  }

  lemma {:induction false} RunOn(states: seq<State>, s': State)
    requires Run(states) && Step(states[|states| - 1], s')
    ensures Run(states + [s'])
  {
    var all := states + [s'];
    forall i | 0 <= i < |all| - 1
      ensures Step(all[i], all[i + 1])
    {
      assert i < |states| - 1 ==> Step(states[i], states[i + 1]);
    }
  }

  /** A pool of one worker and one loop, with one request. */
  function Small(wq: seq<Msg>, loop: Loop, it: Item): State {
    State([Ready], 0, 0, wq, [], [loop], map[0 := it])
  }

  lemma SmallUnlink(s: State, s': State, wq: seq<Msg>, it: Item)
    requires it.loop == 0 && (if wq == [] then it.place == Finished && it.work == CancelledFn
                              else wq == [Work(0)] && it.place == SharedQueue && it.work == Function)
    requires s == Small(wq, Loop([], [], None), it)
    requires s' == Small([], Loop([], [], Some(0)),
      it.(place := Cancelling, again := it.again + if it.place.Finished? then 1 else 0))
    ensures Step(s, s')
  {
    assert wq != [] ==> wq[1..] == [] && Work(0) in s.wq;
    assert s'.loops == s.loops[0 := Loop([], [], Some(0))];
    assert CancelUnlink(s, s', 0);
    assert UserStep(s, s', 0, 0);
  }

  lemma SmallRelink(s: State, s': State, it: Item)
    requires s == Small([], Loop([], [], Some(0)), it)
    requires s' == Small([], Loop([0], [], None), it.(work := CancelledFn, cancelled := true, place := LoopQueue))
    ensures Step(s, s')
  {
    var loop := s.loops[0].(queue := s.loops[0].queue + [0], hands := None);
    assert loop == Loop([0], [], None) && s'.loops == s.loops[0 := loop];
    assert CancelRelink(s, s', 0) && LoopStep(s, s', 0);
  }

  lemma SmallDrain(s: State, s': State, it: Item)
    requires s == Small([], Loop([0], [], None), it) && s' == Small([], Loop([], [0], None), it.(place := LocalQueue))
    ensures Step(s, s')
  {
    assert s'.loops == s.loops[0 := Loop([], [0], None)];
    assert Drain(s, s', 0) && LoopStep(s, s', 0);
  }

  lemma SmallDone(s: State, s': State, it: Item)
    requires it.work.CancelledFn? && s == Small([], Loop([], [0], None), it)
    requires s' == Small([], Loop([], [], None), it.(place := Finished, dones := it.dones + [Canceled]))
    ensures Step(s, s')
  {
    var loop := s.loops[0].(local := s.loops[0].local[1..]);
    assert loop == Loop([], [], None) && s'.loops == s.loops[0 := loop];
    assert CallDone(s, s', 0) && LoopStep(s, s', 0);
  }

  /** The request is cancelled, whether queued or done with UV_ECANCELED, and its `done` called. */
  lemma CancelRound(states: seq<State>, wq: seq<Msg>, it: Item) returns (more: seq<State>, it': Item)
    requires Run(states) && states[|states| - 1] == Small(wq, Loop([], [], None), it)
    requires it.loop == 0 && (if wq == [] then it.place == Finished && it.work == CancelledFn
                              else wq == [Work(0)] && it.place == SharedQueue && it.work == Function)
    ensures Run(more) && states <= more && more[|more| - 1] == Small([], Loop([], [], None), it')
    ensures it'.loop == 0 && it'.place == Finished && it'.work == CancelledFn && it'.dones == it.dones + [Canceled]
  {
    var s := states[|states| - 1];
    var a := it.(place := Cancelling, again := it.again + if it.place.Finished? then 1 else 0);
    var b := a.(work := CancelledFn, cancelled := true, place := LoopQueue);
    var c := b.(place := LocalQueue);
    it' := c.(place := Finished, dones := it.dones + [Canceled]);
    var s1, s2 := Small([], Loop([], [], Some(0)), a), Small([], Loop([0], [], None), b);
    var s3, s4 := Small([], Loop([], [0], None), c), Small([], Loop([], [], None), it');
    SmallUnlink(s, s1, wq, it);
    SmallRelink(s1, s2, a);
    SmallDrain(s2, s3, b);
    SmallDone(s3, s4, c);
    RunOn(states, s1);
    RunOn(states + [s1], s2);
    RunOn(states + [s1] + [s2], s3);
    RunOn(states + [s1] + [s2] + [s3], s4);
    more := states + [s1] + [s2] + [s3] + [s4];
  }

  /** A request cancelled once more after its `done` was told UV_ECANCELED has its `done` called twice. */
  lemma DoneTwice() returns (states: seq<State>)
    ensures Run(states) && 0 in states[|states| - 1].items
      && states[|states| - 1].items[0].dones == [Canceled, Canceled]
  {
    var s0 := State([Ready], 0, 0, [], [], [Loop([], [], None)], map[]);
    var it := Item(0, Function, SharedQueue, 0, false, [], 0);
    var s1 := Small([Work(0)], Loop([], [], None), it);
    assert SubmitCpu(s0, s1, 0, 0) && UserStep(s0, s1, 0, 0);
    assert Init(s0);
    RunOn([s0], s1);
    var once, it1 := CancelRound([s0] + [s1], [Work(0)], it);
    var it2;
    states, it2 := CancelRound(once, [], it1);
  }

  /** After `done` was called with 0 a cancel finds nothing to cancel; after UV_ECANCELED it succeeds again. */
  lemma CancelAfterDone(states: seq<State>, id: Id)
    requires Run(states) && id in states[|states| - 1].items && states[|states| - 1].items[id].place.Finished?
    ensures var s := states[|states| - 1];
      && s.items[id].loop < |s.loops|
      && (s.loops[s.items[id].loop].hands.None? ==>
            ((exists s' :: CancelUnlink(s, s', id)) <==> Canceled in s.items[id].dones))
  {
    ReachableInv(states);
    var s := states[|states| - 1];
    var it, l := s.items[id], s.items[id].loop;
    assert ItemOk(s, it);
    assert it.dones[0] in it.dones;
    if s.loops[l].hands.None? && it.cancelled {
      var s' := s.(wq := Without(s.wq, Work(id)), slowPending := Without(s.slowPending, id),
                   loops := s.loops[l := Loop(Without(s.loops[l].queue, id), Without(s.loops[l].local, id), Some(id))],
                   items := s.items[id := it.(place := Cancelling, again := it.again + 1)]);
      assert CancelUnlink(s, s', id);
    }
  }

  /** No lost wakeup: not all workers sleep when there is work to take, and while one sleeps unsignalled, as many others
      as there are messages to take are on their way; bounded slow work; and a sentinel for pending slow work. */
  lemma NoLostWakeup(states: seq<State>)
    requires Run(states)
    ensures var s := states[|states| - 1];
      && (!MustWait(s) ==> SomeoneAwake(s.workers))
      && (HasSleeper(s.workers) ==> Count(s.workers, IsReady) >= Due(s))
      && s.slowRunning == Count(s.workers, IsSlow) <= (|s.workers| + 1) / 2
      && (s.slowPending != [] ==> RunSlow in s.wq)
  {
    ReachableInv(states);
    var s := states[|states| - 1];
    if !MustWait(s) { EnoughAreAwake(s); }
  }

  /** uv__cancelled, which aborts, is never called: a worker only calls the request's own function. */
  lemma NeverRunsCancelled(states: seq<State>, s': State, i: nat)
    requires Run(states) && Execute(states[|states| - 1], s', i)
    ensures
      var s := states[|states| - 1];
      s.items[s.workers[i].id].work == Function && s.items[s.workers[i].id].ran == 0
  {
    ReachableInv(states);
    var s := states[|states| - 1];
    assert HandOf(s.workers[i]) == Some(s.workers[i].id);
  }
}
