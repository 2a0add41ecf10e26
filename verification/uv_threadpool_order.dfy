/** The thread pool's queues are first come, first served: what is submitted first is taken first, and what is handed
    to a loop first has its `done` called first. */
module ThreadPoolOrder {
  import opened ThreadPool
  import opened Wrappers

  // ---------- One in front of another ----------

  ghost predicate Ahead<T>(q: seq<T>, x: T, y: T) {
    exists i, j :: 0 <= i < j < |q| && q[i] == x && q[j] == y
  }

  lemma AheadOnAppend<T>(q: seq<T>, x: T, y: T, z: T)
    ensures Ahead(q, x, y) ==> Ahead(q + [z], x, y)
    ensures x in q ==> Ahead(q + [y], x, y)
  {
    if Ahead(q, x, y) {
      var i, j :| 0 <= i < j < |q| && q[i] == x && q[j] == y;
      assert (q + [z])[i] == x && (q + [z])[j] == y;
    }
    if x in q {
      var i :| 0 <= i < |q| && q[i] == x;
      assert (q + [y])[i] == x && (q + [y])[|q|] == y;
    }
  }

  lemma AheadOfTail<T>(q: seq<T>, x: T, y: T)
    requires NoDup(q) && Ahead(q, x, y)
    ensures q[0] != y && (q[0] != x ==> Ahead(q[1..], x, y))
  {
    var i, j :| 0 <= i < j < |q| && q[i] == x && q[j] == y;
    if q[0] != x { assert q[1..][i - 1] == x && q[1..][j - 1] == y; }
  }

  lemma {:induction false} AheadWithout<T>(q: seq<T>, x: T, y: T, z: T)
    requires Ahead(q, x, y) && z != x && z != y
    ensures Ahead(Without(q, z), x, y)
  {
    var i, j :| 0 <= i < j < |q| && q[i] == x && q[j] == y;
    var rest := q[1..];
    if i == 0 {
      assert rest[j - 1] == y;
      StaysIn(rest, y, z);
      var k :| 0 <= k < |Without(rest, z)| && Without(rest, z)[k] == y;
      assert Without(q, z)[0] == x && Without(q, z)[k + 1] == y;
    } else {
      assert rest[i - 1] == x && rest[j - 1] == y;
      AheadWithout(rest, x, y, z);
      var m, n :| 0 <= m < n < |Without(rest, z)| && Without(rest, z)[m] == x && Without(rest, z)[n] == y;
      if q[0] != z { assert Without(q, z)[m + 1] == x && Without(q, z)[n + 1] == y; }
    }
  }

  lemma {:induction false} StaysIn<T>(q: seq<T>, x: T, z: T)
    requires x in q && z != x
    ensures x in Without(q, z)
  {
    if q[0] == x {
      assert Without(q, z)[0] == x;
    } else {
      assert x in q[1..];
      StaysIn(q[1..], x, z);
      var k :| 0 <= k < |Without(q[1..], z)| && Without(q[1..], z)[k] == x;
      if q[0] != z { assert Without(q, z)[k + 1] == x; }
    }
  }

  // ---------- Submitted first, taken first ----------

  /** The request is being cancelled, or has been. */
  ghost predicate CalledOff(s: State, id: Id) {
    id in s.items && (s.items[id].place.Cancelling? || s.items[id].cancelled)
  }

  /** In the queue of CPU work, or in that of slow work. */
  ghost predicate Waits(s: State, id: Id, slow: bool) {
    id in s.items && s.items[id].place == if slow then SlowQueue else SharedQueue
  }

  /** The queue in which it waits. */
  ghost predicate InFront(s: State, a: Id, b: Id, slow: bool) {
    if slow then Ahead(s.slowPending, a, b) else Ahead(s.wq, Work(a), Work(b))
  }

  lemma CalledOffStays(s: State, s': State, id: Id)
    requires Inv(s) && Step(s, s') && CalledOff(s, id)
    ensures CalledOff(s', id)
  {
    if i: nat :| WorkerStep(s, s', i) {
      CalledOffAtWork(s, s', i, id);
    } else if l: nat :| LoopStep(s, s', l) {
      CalledOffInLoop(s, s', l, id);
    } else if x: Id, l: nat :| UserStep(s, s', x, l) {
      CalledOffByUser(s, s', x, l, id);
    }
  }

  lemma CalledOffAtWork(s: State, s': State, i: nat, id: Id)
    requires Inv(s) && WorkerStep(s, s', i) && CalledOff(s, id)
    ensures CalledOff(s', id)
  {
    CalledOffNeverRuns(s, id);
  }

  lemma CalledOffInLoop(s: State, s': State, l: nat, id: Id)
    requires Inv(s) && LoopStep(s, s', l) && CalledOff(s, id)
    ensures CalledOff(s', id)
  {
    assert LoopOk(s, l);
    if s.items[id].place.Cancelling? {
      assert id !in s.loops[l].queue && id !in s.loops[l].local;
      assert CancelRelink(s, s', l) || s'.items[id] == s.items[id];
    }
  }

  lemma CalledOffByUser(s: State, s': State, x: Id, l: nat, id: Id)
    requires Inv(s) && UserStep(s, s', x, l) && CalledOff(s, id)
    ensures CalledOff(s', id)
  {
  }

  /** Called off before it was taken, a request never runs. */
  lemma CalledOffNeverRuns(s: State, id: Id)
    requires Inv(s) && CalledOff(s, id)
    ensures s.items[id].ran == 0 && !s.items[id].place.Hands? && !Waits(s, id, false) && !Waits(s, id, true)
  {
    assert ItemOk(s, s.items[id]);
  }

  /** While `a` waits, `b` behind it is not taken. */
  lemma OrderIsKept(s: State, s': State, a: Id, b: Id, slow: bool)
    requires Inv(s) && Step(s, s') && Waits(s, a, slow) && Waits(s', a, slow)
    requires InFront(s, a, b, slow) && a != b
    ensures InFront(s', a, b, slow) || CalledOff(s', b)
  {
    if i: nat :| WorkerStep(s, s', i) {
      OrderAtWork(s, s', i, a, b, slow);
    } else if l: nat :| LoopStep(s, s', l) {
    } else if x: Id, l: nat :| UserStep(s, s', x, l) {
      OrderByUser(s, s', x, l, a, b, slow);
    } else {
      AheadOnAppend(s.wq, Work(a), Work(b), Exit);
    }
  }

  lemma OrderAtWork(s: State, s': State, i: nat, a: Id, b: Id, slow: bool)
    requires Inv(s) && WorkerStep(s, s', i) && Waits(s', a, slow) && InFront(s, a, b, slow)
    ensures InFront(s', a, b, slow)
  {
    if TakeWork(s, s', i) {
      if !slow { AheadOfTail(s.wq, Work(a), Work(b)); }
    } else if TakeSentinel(s, s', i) {
      if !slow {
        AheadOfTail(s.wq, Work(a), Work(b));
        AheadOnAppend(s.wq[1..], Work(a), Work(b), RunSlow);
      } else if s'.slowPending != s.slowPending {
        AheadOfTail(s.slowPending, a, b);
      }
    }
  }

  lemma OrderByUser(s: State, s': State, x: Id, l: nat, a: Id, b: Id, slow: bool)
    requires Inv(s) && UserStep(s, s', x, l) && Waits(s', a, slow) && InFront(s, a, b, slow) && a != b
    ensures InFront(s', a, b, slow) || CalledOff(s', b)
  {
    if SubmitCpu(s, s', x, l) {
      AheadOnAppend(s.wq, Work(a), Work(b), Work(x));
    } else if SubmitSlow(s, s', x, l) {
      AheadOnAppend(s.wq, Work(a), Work(b), RunSlow);
      AheadOnAppend(s.slowPending, a, b, x);
    } else if x != a && x != b {
      if slow {
        AheadWithout(s.slowPending, a, b, x);
      } else {
        AheadWithout(s.wq, Work(a), Work(b), Work(x));
      }
    }
  }

  /** The step submits the request: it waits now, and was not known before. */
  ghost predicate Submits(s: State, s': State, id: Id, slow: bool) {
    id !in s.items && Waits(s', id, slow)
  }

  lemma SubmittedBehind(s: State, s': State, a: Id, b: Id, slow: bool)
    requires Inv(s) && Step(s, s') && Submits(s, s', b, slow) && Waits(s, a, slow)
    ensures InFront(s', a, b, slow)
  {
    SubmitAppends(s, s', b, slow);
    if slow {
      AheadOnAppend(s.slowPending, a, b, b);
    } else {
      AheadOnAppend(s.wq, Work(a), Work(b), Work(b));
    }
  }

  lemma SubmitAppends(s: State, s': State, b: Id, slow: bool)
    requires Step(s, s') && Submits(s, s', b, slow)
    ensures if slow then s'.slowPending == s.slowPending + [b] else s'.wq == s.wq + [Work(b)]
  {
    if i: nat :| WorkerStep(s, s', i) {
      NothingNewAtWork(s, s', i, b);
    } else if l: nat :| LoopStep(s, s', l) {
      NothingNewInLoop(s, s', l, b);
    } else {
      var x: Id, l: nat :| UserStep(s, s', x, l);
      SubmitsOne(s, s', x, l, b, slow);
    }
  }

  lemma NothingNewAtWork(s: State, s': State, i: nat, b: Id)
    requires WorkerStep(s, s', i)
    ensures b in s'.items ==> b in s.items
  {
  }

  lemma NothingNewInLoop(s: State, s': State, l: nat, b: Id)
    requires LoopStep(s, s', l)
    ensures b in s'.items ==> b in s.items
  {
  }

  lemma SubmitsOne(s: State, s': State, x: Id, l: nat, b: Id, slow: bool)
    requires UserStep(s, s', x, l) && b !in s.items && Waits(s', b, slow)
    ensures if slow then s'.slowPending == s.slowPending + [b] else s'.wq == s.wq + [Work(b)]
  {
  }

  /** A request that is known stays so, and never comes back to where it waited. */
  ghost predicate GoesOn(s: State, s': State, a: Id) {
    a in s.items ==> a in s'.items && forall slow :: Waits(s', a, slow) ==> Waits(s, a, slow)
  }

  lemma WaitedBefore(s: State, s': State, a: Id)
    requires Step(s, s')
    ensures GoesOn(s, s', a)
  {
    if i: nat :| WorkerStep(s, s', i) {
      WaitedBeforeWork(s, s', i, a);
    } else if l: nat :| LoopStep(s, s', l) {
      WaitedBeforeLoop(s, s', l, a);
    } else if x: Id, l: nat :| UserStep(s, s', x, l) {
      WaitedBeforeUser(s, s', x, l, a);
    }
  }

  lemma WaitedBeforeWork(s: State, s': State, i: nat, a: Id)
    requires WorkerStep(s, s', i)
    ensures GoesOn(s, s', a)
  {
  }

  lemma WaitedBeforeLoop(s: State, s': State, l: nat, a: Id)
    requires LoopStep(s, s', l)
    ensures GoesOn(s, s', a)
  {
  }

  lemma WaitedBeforeUser(s: State, s': State, x: Id, l: nat, a: Id)
    requires UserStep(s, s', x, l)
    ensures GoesOn(s, s', a)
  {
  }

  lemma BehindStep(s: State, s': State, a: Id, b: Id, slow: bool)
    requires Inv(s) && Step(s, s') && Waits(s, a, slow) && Waits(s', a, slow) && a != b
    requires InFront(s, a, b, slow) || CalledOff(s, b)
    ensures InFront(s', a, b, slow) || CalledOff(s', b)
  {
    if CalledOff(s, b) {
      CalledOffStays(s, s', b);
    } else {
      OrderIsKept(s, s', a, b, slow);
    }
  }

  ghost predicate IsBehind(s: State, a: Id, b: Id, slow: bool) {
    InFront(s, a, b, slow) || CalledOff(s, b)
  }

  /** One step: `a` waits only if it did, and then `b` stays behind it. */
  ghost predicate KeepsBehind(s: State, s': State, a: Id, b: Id, slow: bool) {
    a in s.items ==>
      && a in s'.items
      && (Waits(s', a, slow) ==> Waits(s, a, slow) && (IsBehind(s, a, b, slow) ==> IsBehind(s', a, b, slow)))
  }

  lemma KeepsBehindStep(s: State, s': State, a: Id, b: Id, slow: bool)
    requires Inv(s) && Step(s, s') && a != b
    ensures KeepsBehind(s, s', a, b, slow)
  {
    WaitedBefore(s, s', a);
    if Waits(s, a, slow) && Waits(s', a, slow) && IsBehind(s, a, b, slow) { BehindStep(s, s', a, b, slow); }
  }

  /** What a step of a run says of `a` and `b`. */
  ghost predicate InOrder(s: State, s': State, a: Id, b: Id, slow: bool) {
    && KeepsBehind(s, s', a, b, slow)
    && (Submits(s, s', b, slow) && Waits(s, a, slow) ==> IsBehind(s', a, b, slow))
    && (IsBehind(s', a, b, slow) ==> b in s'.items && s'.items[b].ran == 0 && !s'.items[b].place.Hands?)
  }

  lemma InOrderAt(states: seq<State>, i: nat, a: Id, b: Id, slow: bool)
    requires Run(states) && i + 1 < |states| && a != b
    ensures InOrder(states[i], states[i + 1], a, b, slow)
  {
    InvAt(states, i);
    InvAt(states, i + 1);
    StepInOrder(states[i], states[i + 1], a, b, slow);
  }

  lemma StepInOrder(s: State, s': State, a: Id, b: Id, slow: bool)
    requires Inv(s) && Inv(s') && Step(s, s') && a != b
    ensures InOrder(s, s', a, b, slow)
  {
    KeepsBehindStep(s, s', a, b, slow);
    if Submits(s, s', b, slow) && Waits(s, a, slow) { SubmittedBehind(s, s', a, b, slow); }
    if IsBehind(s', a, b, slow) { NotYetTaken(s', a, b, slow); }
  }

  ghost predicate AllInOrder(states: seq<State>, a: Id, b: Id, slow: bool) {
    forall i :: 0 <= i < |states| - 1 ==> InOrder(states[i], states[i + 1], a, b, slow)
  }

  lemma RunsInOrder(states: seq<State>, a: Id, b: Id, slow: bool)
    requires Run(states) && a != b
    ensures AllInOrder(states, a, b, slow)
  {
    forall i | 0 <= i < |states| - 1
      ensures InOrder(states[i], states[i + 1], a, b, slow)
    {
      InOrderAt(states, i, a, b, slow);
    }
  }

  lemma NotYetTaken(s: State, a: Id, b: Id, slow: bool)
    requires Inv(s) && (InFront(s, a, b, slow) || CalledOff(s, b))
    ensures b in s.items && s.items[b].ran == 0 && !s.items[b].place.Hands?
  {
    if CalledOff(s, b) {
      CalledOffNeverRuns(s, b);
    } else if slow {
      assert b in s.slowPending;
      assert ItemOk(s, s.items[b]);
    } else {
      assert Work(b) in s.wq;
      assert ItemOk(s, s.items[b]);
    }
  }

  lemma {:induction false} StillBehind(states: seq<State>, j: nat, n: nat, a: Id, b: Id, slow: bool)
    requires j < n < |states| && AllInOrder(states, a, b, slow)
    requires Waits(states[j], a, slow) && Submits(states[j], states[j + 1], b, slow)
    ensures a in states[n].items && (Waits(states[n], a, slow) ==> IsBehind(states[n], a, b, slow))
    decreases n
  {
    var i := n - 1;
    assert InOrder(states[i], states[i + 1], a, b, slow);
    if j < i { StillBehind(states, j, i, a, b, slow); }
  }

  /** Over all runs, of CPU work and of slow work alike: as long as a request waits, no worker takes one that was
      submitted after it. */
  lemma FirstSubmittedFirstTaken(states: seq<State>, j: nat, n: nat, a: Id, b: Id, slow: bool)
    requires Run(states) && j < n < |states| && Waits(states[j], a, slow) && Submits(states[j], states[j + 1], b, slow)
    requires Waits(states[n], a, slow)
    ensures b in states[n].items && states[n].items[b].ran == 0 && !states[n].items[b].place.Hands?
  {
    RunsInOrder(states, a, b, slow);
    NotTakenAtEnd(states, j, n, a, b, slow);
  }

  lemma NotTakenAtEnd(states: seq<State>, j: nat, n: nat, a: Id, b: Id, slow: bool)
    requires AllInOrder(states, a, b, slow) && j < n < |states|
    requires Waits(states[j], a, slow) && Submits(states[j], states[j + 1], b, slow) && Waits(states[n], a, slow)
    ensures b in states[n].items && states[n].items[b].ran == 0 && !states[n].items[b].place.Hands?
  {
    var i := n - 1;
    StillBehind(states, j, n, a, b, slow);
    assert InOrder(states[i], states[i + 1], a, b, slow);
  }

  // ---------- Handed over first, done first ----------

  /** What a loop still has to call `done` for, in order: first the queue that uv__work_done walks. */
  function Line(s: State, l: nat): seq<Id>
    requires l < |s.loops|
  {
    s.loops[l].local + s.loops[l].queue
  }

  ghost predicate InLine(s: State, id: Id, l: nat) {
    id in s.items && s.items[id].loop == l && (s.items[id].place.LoopQueue? || s.items[id].place.LocalQueue?)
  }

  lemma LineHolds(s: State, l: nat, id: Id)
    requires l < |s.loops| && LoopOk(s, l)
    ensures id in Line(s, l) <==> InLine(s, id, l)
    ensures NoDup(Line(s, l))
  {
    forall i, j | 0 <= i < j < |Line(s, l)|
      ensures Line(s, l)[i] != Line(s, l)[j]
    {
      var q, m := s.loops[l].queue, |s.loops[l].local|;
      if i < m <= j { assert s.loops[l].local[i] in s.loops[l].local && q[j - m] in q; }
    }
  }

  function DoneCalls(s: State, id: Id): nat {
    if id in s.items then |s.items[id].dones| else 0
  }

  lemma {:induction false} WithoutBoth<T>(p: seq<T>, q: seq<T>, x: T)
    ensures Without(p + q, x) == Without(p, x) + Without(q, x)
  {
    if p == [] {
      assert p + q == q;
    } else {
      assert (p + q)[1..] == p[1..] + q;
      WithoutBoth(p[1..], q, x);
    }
  }

  /** A step of a worker adds to the line of a loop at its end, or not at all. */
  lemma LineAtWork(s: State, s': State, i: nat, l: nat)
    requires WorkerStep(s, s', i) && l < |s.loops|
    ensures l < |s'.loops| && (Line(s', l) == Line(s, l) || exists x :: Line(s', l) == Line(s, l) + [x])
    ensures forall id :: DoneCalls(s', id) == DoneCalls(s, id)
  {
    if Publish(s, s', i) {
      var w := s.workers[i];
      if s.items[w.id].loop == l { assert Line(s', l) == Line(s, l) + [w.id]; }
    }
  }

  lemma LineInLoop(s: State, s': State, k: nat, l: nat)
    requires LoopStep(s, s', k) && l < |s.loops|
    ensures l < |s'.loops|
    ensures
      || Line(s', l) == Line(s, l)
      || (exists x :: Line(s', l) == Line(s, l) + [x])
      || (k == l && CallDone(s, s', l) && Line(s, l) != [] && Line(s', l) == Line(s, l)[1..])
    ensures forall id :: DoneCalls(s', id) == DoneCalls(s, id) || (CallDone(s, s', k) && s.loops[k].local[0] == id)
  {
    if k == l {
      if CancelRelink(s, s', l) {
        assert Line(s', l) == Line(s, l) + [s.loops[l].hands.value];
      } else if Drain(s, s', l) {
        assert Line(s', l) == Line(s, l);
      }
    }
  }

  lemma LineByUser(s: State, s': State, x: Id, k: nat, l: nat)
    requires UserStep(s, s', x, k) && l < |s.loops|
    ensures l < |s'.loops| && (Line(s', l) == Line(s, l) || Line(s', l) == Without(Line(s, l), x))
    ensures forall id :: DoneCalls(s', id) == DoneCalls(s, id)
  {
    if CancelUnlink(s, s', x) { LineAtUnlink(s, s', x, l); }
  }

  lemma LineAtUnlink(s: State, s': State, x: Id, l: nat)
    requires CancelUnlink(s, s', x) && l < |s.loops|
    ensures l < |s'.loops| && (Line(s', l) == Line(s, l) || Line(s', l) == Without(Line(s, l), x))
    ensures forall id :: DoneCalls(s', id) == DoneCalls(s, id)
  {
    WithoutBoth(s.loops[l].local, s.loops[l].queue, x);
  }

  /** Not behind `a` in the line of the loop it is not in line at all. */
  ghost predicate NotBefore(s: State, l: nat, a: Id, b: Id)
    requires l < |s.loops|
  {
    b in Line(s, l) ==> Ahead(Line(s, l), a, b)
  }

  /** In line, and in front of `b`, if that is there at all. */
  ghost predicate Leads(s: State, l: nat, a: Id, b: Id) {
    l < |s.loops| && InLine(s, a, l) && NotBefore(s, l, a, b) && (b in s.items ==> s.items[b].loop == l)
  }

  lemma JoinsBehind(q: seq<Id>, q': seq<Id>, a: Id, b: Id)
    requires a in q && (b in q ==> Ahead(q, a, b)) && exists x :: q' == q + [x]
    ensures b in q' ==> Ahead(q', a, b)
  {
    var x :| q' == q + [x];
    AheadOnAppend(q, a, b, x);
    if b in q' && b !in q { assert x == b; }
  }

  lemma LeavesBetween(q: seq<Id>, a: Id, b: Id, x: Id)
    requires NoDup(q) && a in Without(q, x) && (b in q ==> Ahead(q, a, b))
    ensures b in Without(q, x) ==> Ahead(Without(q, x), a, b)
  {
    Removed(q, x);
    if b in Without(q, x) { AheadWithout(q, a, b, x); }
  }

  /** While `a` stays in line, nobody gets in front of it, and `done` is called for nobody behind. */
  lemma LineIsKept(s: State, s': State, l: nat, a: Id, b: Id)
    requires Inv(s) && Inv(s') && Step(s, s') && a != b && Leads(s, l, a, b) && InLine(s', a, l)
    ensures l < |s'.loops| && NotBefore(s', l, a, b) && DoneCalls(s', b) == DoneCalls(s, b)
  {
    LineHolds(s, l, a);
    if i: nat :| WorkerStep(s, s', i) {
      LineAtWork(s, s', i, l);
      if Line(s', l) != Line(s, l) { JoinsBehind(Line(s, l), Line(s', l), a, b); }
    } else if k: nat :| LoopStep(s, s', k) {
      LoopKeepsLine(s, s', k, l, a, b);
    } else if x: Id, k: nat :| UserStep(s, s', x, k) {
      LineByUser(s, s', x, k, l);
      LineHolds(s', l, a);
      if Line(s', l) != Line(s, l) { LeavesBetween(Line(s, l), a, b, x); }
    }
  }

  lemma LoopKeepsLine(s: State, s': State, k: nat, l: nat, a: Id, b: Id)
    requires Inv(s) && Inv(s') && LoopStep(s, s', k) && a != b && Leads(s, l, a, b) && InLine(s', a, l)
    ensures l < |s'.loops| && NotBefore(s', l, a, b) && DoneCalls(s', b) == DoneCalls(s, b)
  {
    LineHolds(s, l, a);
    LineInLoop(s, s', k, l);
    if CallDone(s, s', k) {
      FirstIsDone(s, s', k, l, a, b);
    } else if Line(s', l) != Line(s, l) {
      JoinsBehind(Line(s, l), Line(s', l), a, b);
    }
  }

  lemma FirstIsDone(s: State, s': State, k: nat, l: nat, a: Id, b: Id)
    requires Inv(s) && CallDone(s, s', k) && a != b && Leads(s, l, a, b) && InLine(s', a, l)
    ensures l < |s'.loops| && NotBefore(s', l, a, b) && DoneCalls(s', b) == DoneCalls(s, b)
  {
    var id := s.loops[k].local[0];
    LineHolds(s, l, b);
    LineHolds(s, k, id);
    assert id in Line(s, k);
    assert id != a;
    if k == l {
      assert Line(s, l)[0] == id && Line(s', l) == Line(s, l)[1..];
      if b in Line(s, l) { AheadOfTail(Line(s, l), a, b); }
    }
  }

  /** One step: requests stay at their loop, and as long as `a` is in line `b` does not get in front of it. */
  ghost predicate KeepsLine(s: State, s': State, l: nat, a: Id, b: Id) {
    && (b in s.items ==> b in s'.items && s'.items[b].loop == s.items[b].loop)
    && (Leads(s, l, a, b) && InLine(s', a, l) ==>
      l < |s'.loops| && NotBefore(s', l, a, b) && DoneCalls(s', b) == DoneCalls(s, b))
  }

  lemma KeepsLineAt(states: seq<State>, i: nat, l: nat, a: Id, b: Id)
    requires Run(states) && i + 1 < |states| && a != b
    ensures KeepsLine(states[i], states[i + 1], l, a, b)
  {
    InvAt(states, i);
    InvAt(states, i + 1);
    KeepsLineStep(states[i], states[i + 1], l, a, b);
  }

  lemma KeepsLineStep(s: State, s': State, l: nat, a: Id, b: Id)
    requires Inv(s) && Inv(s') && Step(s, s') && a != b
    ensures KeepsLine(s, s', l, a, b)
  {
    if b in s.items { LoopStays(s, s', b); }
    if Leads(s, l, a, b) && InLine(s', a, l) { LineIsKept(s, s', l, a, b); }
  }

  lemma LoopStays(s: State, s': State, b: Id)
    requires Step(s, s') && b in s.items
    ensures b in s'.items && s'.items[b].loop == s.items[b].loop
  {
    if i: nat :| WorkerStep(s, s', i) {
      LoopStaysAtWork(s, s', i, b);
    } else if l: nat :| LoopStep(s, s', l) {
      LoopStaysInLoop(s, s', l, b);
    } else if x: Id, l: nat :| UserStep(s, s', x, l) {
      LoopStaysByUser(s, s', x, l, b);
    }
  }

  lemma LoopStaysAtWork(s: State, s': State, i: nat, b: Id)
    requires WorkerStep(s, s', i) && b in s.items
    ensures b in s'.items && s'.items[b].loop == s.items[b].loop
  {
  }

  lemma LoopStaysInLoop(s: State, s': State, l: nat, b: Id)
    requires LoopStep(s, s', l) && b in s.items
    ensures b in s'.items && s'.items[b].loop == s.items[b].loop
  {
  }

  lemma LoopStaysByUser(s: State, s': State, x: Id, l: nat, b: Id)
    requires UserStep(s, s', x, l) && b in s.items
    ensures b in s'.items && s'.items[b].loop == s.items[b].loop
  {
  }

  lemma {:induction false} StillInFront(states: seq<State>, j: nat, n: nat, l: nat, a: Id, b: Id)
    requires j <= n < |states| && l < |states[j].loops| && NotBefore(states[j], l, a, b)
    requires forall i :: j <= i < n ==> KeepsLine(states[i], states[i + 1], l, a, b)
    requires forall i :: j <= i <= n ==> InLine(states[i], a, l)
    requires b in states[n].items ==> states[n].items[b].loop == l
    ensures l < |states[n].loops| && NotBefore(states[n], l, a, b)
    ensures DoneCalls(states[n], b) == DoneCalls(states[j], b)
    decreases n
  {
    if j < n {
      var i := n - 1;
      assert KeepsLine(states[i], states[i + 1], l, a, b);
      StillInFront(states, j, i, l, a, b);
    }
  }

  /** Over all runs: as long as a request is in the line of its loop, `done` is called for none that came into it
      later. */
  lemma HandedOverFirstDoneFirst(states: seq<State>, j: nat, n: nat, l: nat, a: Id, b: Id)
    requires Run(states) && j <= n < |states| && forall i :: j <= i <= n ==> InLine(states[i], a, l)
    requires !InLine(states[j], b, l) && (b in states[n].items ==> states[n].items[b].loop == l)
    ensures DoneCalls(states[n], b) == DoneCalls(states[j], b)
  {
    InvAt(states, j);
    assert InLine(states[j], a, l) && LoopOk(states[j], l);
    LineHolds(states[j], l, b);
    forall i | j <= i < n
      ensures KeepsLine(states[i], states[i + 1], l, a, b)
    {
      KeepsLineAt(states, i, l, a, b);
    }
    StillInFront(states, j, n, l, a, b);
  }

  /** A request that was executed stays in line until its `done` has been called. */
  ghost predicate RanGoesOn(s: State, s': State, l: nat, a: Id) {
    && (InLine(s, a, l) && s.items[a].work.Null? ==>
      a in s'.items && s'.items[a].work.Null? && (InLine(s', a, l) || s'.items[a].place.Finished?))
    && (a in s.items && s.items[a].work.Null? && s.items[a].place.Finished? ==>
      a in s'.items && s'.items[a].work.Null? && s'.items[a].place.Finished?)
  }

  lemma RanGoesOnAt(states: seq<State>, i: nat, l: nat, a: Id)
    requires Run(states) && i + 1 < |states|
    ensures RanGoesOn(states[i], states[i + 1], l, a)
  {
    InvAt(states, i);
    RanStep(states[i], states[i + 1], l, a);
  }

  lemma RanStep(s: State, s': State, l: nat, a: Id)
    requires Inv(s) && Step(s, s')
    ensures RanGoesOn(s, s', l, a)
  {
    if i: nat :| WorkerStep(s, s', i) {
      RanAtWork(s, s', i, l, a);
    } else if k: nat :| LoopStep(s, s', k) {
      RanInLoop(s, s', k, l, a);
    } else if x: Id, k: nat :| UserStep(s, s', x, k) {
      RanByUser(s, s', x, k, l, a);
    }
  }

  lemma RanAtWork(s: State, s': State, i: nat, l: nat, a: Id)
    requires Inv(s) && WorkerStep(s, s', i)
    ensures RanGoesOn(s, s', l, a)
  {
    if a in s.items { assert ItemOk(s, s.items[a]); }
  }

  lemma RanInLoop(s: State, s': State, k: nat, l: nat, a: Id)
    requires Inv(s) && LoopStep(s, s', k)
    ensures RanGoesOn(s, s', l, a)
  {
    assert LoopOk(s, k);
  }

  lemma RanByUser(s: State, s': State, x: Id, k: nat, l: nat, a: Id)
    requires Inv(s) && UserStep(s, s', x, k)
    ensures RanGoesOn(s, s', l, a)
  {
  }

  lemma {:induction false} RanUntil(states: seq<State>, j: nat, n: nat, l: nat, a: Id)
    requires j <= n < |states| && forall i :: j <= i < n ==> RanGoesOn(states[i], states[i + 1], l, a)
    requires InLine(states[j], a, l) && states[j].items[a].work.Null?
    ensures a in states[n].items && states[n].items[a].work.Null?
    ensures (forall i :: j <= i <= n ==> InLine(states[i], a, l)) || states[n].items[a].place.Finished?
    decreases n
  {
    if j < n {
      var i := n - 1;
      RanUntil(states, j, i, l, a);
      assert RanGoesOn(states[i], states[i + 1], l, a);
    }
  }

  /** So if `a` was executed and handed over before `b` was, the `done` of `b` comes after that of `a`. */
  lemma DoneInOrder(states: seq<State>, j: nat, n: nat, l: nat, a: Id, b: Id)
    requires Run(states) && j <= n < |states| && InLine(states[j], a, l) && states[j].items[a].work.Null?
    requires !InLine(states[j], b, l) && (b in states[n].items ==> states[n].items[b].loop == l)
    requires DoneCalls(states[n], b) != DoneCalls(states[j], b)
    ensures a in states[n].items && states[n].items[a].place.Finished? && states[n].items[a].dones == [Ok]
  {
    forall i | j <= i < n
      ensures RanGoesOn(states[i], states[i + 1], l, a)
    {
      RanGoesOnAt(states, i, l, a);
    }
    RanUntil(states, j, n, l, a);
    if !states[n].items[a].place.Finished? {
      HandedOverFirstDoneFirst(states, j, n, l, a, b);
    }
    InvAt(states, n);
    assert ItemOk(states[n], states[n].items[a]);
  }

  // ---------- Nobody is stuck ----------

  lemma MaySignal(ws: seq<Worker>) returns (ws': seq<Worker>)
    ensures Signal(ws, ws')
  {
    ws' := ws;
    if HasSleeper(ws) {
      var i :| 0 <= i < |ws| && ws[i].Asleep?;
      ws' := ws[i := Signalled];
    }
  }

  lemma MaySignalIfIdle(idle: nat, ws: seq<Worker>) returns (ws': seq<Worker>)
    ensures SignalIfIdle(idle, ws, ws')
  {
    ws' := ws;
    if idle > 0 { ws' := MaySignal(ws); }
  }

  /** In every reachable state each worker that neither sleeps nor has ended can take its next step. */
  lemma WorkersMayMove(states: seq<State>, i: nat)
    requires Run(states)
    requires var s := states[|states| - 1]; i < |s.workers| && !s.workers[i].Asleep? && !s.workers[i].Exited?
    ensures MayMove(states[|states| - 1], i)
  {
    InvAt(states, |states| - 1);
    var s' := MovesOn(states[|states| - 1], i);
  }

  ghost predicate MayMove(s: State, i: nat) {
    exists s' :: WorkerStep(s, s', i)
  }

  lemma MovesOn(s: State, i: nat) returns (s': State)
    requires Inv(s) && i < |s.workers| && !s.workers[i].Asleep? && !s.workers[i].Exited?
    ensures WorkerStep(s, s', i)
  {
    match s.workers[i]
    case Ready => s' := ReadyMovesOn(s, i);
    case Signalled =>
      CountsOne(s.workers, IsIdle, i);
      s' := s.(workers := s.workers[i := Ready], idle := s.idle - 1);
      assert Wake(s, s', i);
    case Working(id, slow) =>
      assert HandOf(s.workers[i]) == Some(id);
      s' := s.(workers := s.workers[i := Ran(id, slow)],
               items := s.items[id := s.items[id].(ran := s.items[id].ran + 1)]);
      assert Execute(s, s', i);
    case Ran(id, slow) =>
      assert HandOf(s.workers[i]) == Some(id);
      var l := s.items[id].loop;
      s' := s.(workers := s.workers[i := Posted(slow)],
               loops := s.loops[l := s.loops[l].(queue := s.loops[l].queue + [id])],
               items := s.items[id := s.items[id].(work := Null, place := LoopQueue)]);
      assert Publish(s, s', i);
    case Posted(slow) =>
      if slow { CountsOne(s.workers, IsSlow, i); }
      s' := s.(workers := s.workers[i := Ready], slowRunning := s.slowRunning - if slow then 1 else 0);
      assert Relock(s, s', i);
  }

  lemma {:induction false} CountsOne(ws: seq<Worker>, p: Worker -> bool, i: nat)
    requires i < |ws| && p(ws[i])
    ensures Count(ws, p) > 0
  {
    if i < |ws| - 1 { CountsOne(ws[..|ws| - 1], p, i); }
  }

  lemma ReadyMovesOn(s: State, i: nat) returns (s': State)
    requires Inv(s) && i < |s.workers| && s.workers[i].Ready?
    ensures WorkerStep(s, s', i)
  {
    if MustWait(s) {
      s' := s.(workers := s.workers[i := Asleep], idle := s.idle + 1);
      assert Sleep(s, s', i);
    } else if s.wq[0].Exit? {
      var ws := MaySignal(s.workers[i := Exited]);
      s' := s.(workers := ws);
      assert TakeExit(s, s', i);
    } else if s.wq[0].Work? {
      var id := s.wq[0].id;
      assert Work(id) in s.wq;
      s' := s.(wq := s.wq[1..], workers := s.workers[i := Working(id, false)],
               items := s.items[id := s.items[id].(place := Hands(i))]);
      assert TakeWork(s, s', i);
    } else {
      s' := SentinelMovesOn(s, i);
    }
  }

  lemma SentinelMovesOn(s: State, i: nat) returns (s': State)
    requires Inv(s) && i < |s.workers| && s.workers[i].Ready? && !MustWait(s) && s.wq[0].RunSlow?
    ensures TakeSentinel(s, s', i)
  {
    if s.slowRunning >= Threshold(s) {
      s' := s.(wq := s.wq[1..] + [RunSlow]);
    } else if s.slowPending == [] {
      s' := s.(wq := s.wq[1..]);
    } else {
      var id := s.slowPending[0];
      assert id in s.slowPending;
      var items, ws := s.items[id := s.items[id].(place := Hands(i))], s.workers[i := Working(id, true)];
      if |s.slowPending| == 1 {
        s' := s.(wq := s.wq[1..], workers := ws, slowRunning := s.slowRunning + 1, slowPending := [], items := items);
      } else {
        var ws' := MaySignalIfIdle(s.idle, ws);
        s' := s.(wq := s.wq[1..] + [RunSlow], workers := ws', slowRunning := s.slowRunning + 1,
                 slowPending := s.slowPending[1..], items := items);
      }
    }
  }

  // ---------- What a worker takes ----------

  /** A worker that comes to the sentinel takes slow work exactly if there is some and fewer than (n + 1) / 2 of the `n`
      workers are on slow work. */
  lemma TakesSlowIff(s: State, s': State, i: nat)
    requires Inv(s) && WorkerStep(s, s', i) && s.workers[i].Ready? && s.wq != [] && s.wq[0].RunSlow?
    ensures s'.workers[i].Working? <==> s.slowPending != [] && s.slowRunning < (|s.workers| + 1) / 2
    ensures s'.workers[i].Working? ==> s'.workers[i] == Working(s.slowPending[0], true)
  {
    if TakeSentinel(s, s', i) {
      if s.slowRunning < Threshold(s) && s.slowPending != [] { TakesFirst(s, s', i); }
    }
  }

  lemma TakesFirst(s: State, s': State, i: nat)
    requires i < |s.workers| && s.wq != [] && s.slowPending != [] && TakeSlow(s, s', i)
    ensures i < |s'.workers| && s'.workers[i] == Working(s.slowPending[0], true)
  {
  }

  /** The exit message stays, and only then workers end. */
  ghost predicate EndsAtExit(s: State) {
    (exists i :: 0 <= i < |s.workers| && s.workers[i].Exited?) ==> Exit in s.wq
  }

  lemma ExitStays(s: State, s': State)
    requires Step(s, s') && Exit in s.wq
    ensures Exit in s'.wq
  {
    if i: nat :| WorkerStep(s, s', i) {
      ExitStaysAtWork(s, s', i);
    } else if x: Id, l: nat :| UserStep(s, s', x, l) {
      if CancelUnlink(s, s', x) { StaysIn(s.wq, Exit, Work(x)); }
    }
  }

  lemma ExitStaysAtWork(s: State, s': State, i: nat)
    requires WorkerStep(s, s', i) && Exit in s.wq
    ensures Exit in s'.wq
  {
    assert s.wq[0] != Exit ==> Exit in s.wq[1..];
  }

  lemma EndsStep(s: State, s': State)
    requires Step(s, s') && EndsAtExit(s)
    ensures EndsAtExit(s')
  {
    if Exit in s.wq {
      ExitStays(s, s');
    } else {
      assert forall i :: 0 <= i < |s.workers| ==> !s.workers[i].Exited?;
      NoneEnds(s, s');
    }
  }

  lemma NoneEnds(s: State, s': State)
    requires Step(s, s') && Exit !in s.wq && forall i :: 0 <= i < |s.workers| ==> !s.workers[i].Exited?
    ensures forall i :: 0 <= i < |s'.workers| ==> !s'.workers[i].Exited?
  {
    if i: nat :| WorkerStep(s, s', i) { NoneEndsAtWork(s, s', i); }
  }

  lemma NoneEndsAtWork(s: State, s': State, i: nat)
    requires WorkerStep(s, s', i) && Exit !in s.wq
    requires forall j :: 0 <= j < |s.workers| ==> !s.workers[j].Exited?
    ensures forall j :: 0 <= j < |s'.workers| ==> !s'.workers[j].Exited?
  {
    assert s.wq != [] ==> s.wq[0] in s.wq;
    assert !s'.workers[i].Exited?;
  }

  /** No worker ends before the exit message is posted. */
  lemma {:induction false} WorkersEndAtExit(states: seq<State>, n: nat)
    requires Run(states) && n < |states|
    ensures EndsAtExit(states[n])
  {
    if n > 0 {
      var i := n - 1;
      WorkersEndAtExit(states, i);
      EndsStep(states[i], states[i + 1]);
    }
  }
}
