/** libuv's timers: a loop keeps its active ones in a heap, here the set of its members. */
module TimerLoop {
  import opened Wrappers

  const MAX64 := 0xFFFF_FFFF_FFFF_FFFF
  const INT_MAX := 0x7FFF_FFFF
  const EINVAL := -22

  type U64 = x: nat | x <= 0xFFFF_FFFF_FFFF_FFFF

  class Timer {
    var cb: Option<nat>  // timer_cb; None is NULL
    var timeout: U64
    var repeat: U64
    var startId: nat
    var active: bool     // UV_HANDLE_ACTIVE
    var hasRef: bool     // UV_HANDLE_REF
    var closing: bool    // UV_HANDLE_CLOSING

    /** uv_timer_init */
    constructor ()
      ensures cb.None? && repeat == 0 && !active && hasRef && !closing
    {
      cb, timeout, repeat, startId := None, 0, 0, 0;
      active, hasRef, closing := false, true, false;
    }
  }

  /** timer_less_than, on (timeout, start_id) */
  predicate Less(timeoutA: nat, idA: nat, timeoutB: nat, idB: nat) {
    timeoutA < timeoutB || (timeoutA == timeoutB && idA < idB)
  }

  predicate Before(a: Timer, b: Timer)
    reads a, b
  {
    Less(a.timeout, a.startId, b.timeout, b.startId)
  }

  /** When a timer started at `time` is due: the sum stops at the end of the 64-bit range. */
  function DueTime(time: U64, timeout: U64): (d: U64)
    ensures time <= d && timeout <= d
  {
    if time + timeout <= MAX64 then time + timeout else MAX64
  }

  /** A repeating timer is due strictly later than now, except at the very end of time. */
  lemma RepeatIsLater(time: U64, repeat: U64)
    requires repeat > 0
    ensures DueTime(time, repeat) > time <==> time < MAX64
  {
  }

  predicate IsLeast(t: Timer, s: set<Timer>)
    reads t, s
  {
    forall u :: u in s ==> !Before(u, t)
  }

  /** Some timer of a nonempty set is not after any other. */
  lemma {:induction false} LeastExists(s: set<Timer>)
    requires s != {}
    ensures exists t :: t in s && IsLeast(t, s)
    decreases |s|
  {
    var t :| t in s;
    var rest := s - {t};
    if rest == {} {
      assert s == {t};
      assert IsLeast(t, s);
    } else {
      LeastExists(rest);
      var m :| m in rest && IsLeast(m, rest);
      assert s == rest + {t};
      if Before(t, m) {
        LeastStep(t, m, rest);
        assert IsLeast(t, s);
      } else {
        assert IsLeast(m, s);
      }
    }
  }

  lemma LeastStep(t: Timer, m: Timer, rest: set<Timer>)
    requires IsLeast(m, rest) && Before(t, m)
    ensures IsLeast(t, rest)
  {
    forall u | u in rest ensures !Before(u, t) {
      assert !Before(u, m);
    }
  }

  /** A timer's fields, as they are on entry to uv__run_timers. */
  datatype Key = Key(timeout: U64, startId: nat, repeat: U64)

  predicate KeyLess(a: Key, b: Key) {
    Less(a.timeout, a.startId, b.timeout, b.startId)
  }

  predicate KeyIs(t: Timer, k: Key)
    reads t
  {
    t.active && t.timeout == k.timeout && t.startId == k.startId && t.repeat == k.repeat
  }

  /** What firing makes of a timer: it stops, or is due again after its repeat. */
  predicate FiredTo(t: Timer, time: U64, repeat: U64)
    reads t
  {
    && t.repeat == repeat
    && (t.active <==> repeat > 0)
    && (repeat > 0 ==>
      t.timeout == if time + repeat <= 0xFFFF_FFFF_FFFF_FFFF then time + repeat else 0xFFFF_FFFF_FFFF_FFFF)
  }

  /** What a turn of the timers makes of a timer. */
  predicate After(t: Timer, time: U64, k: Key)
    reads t
  {
    if k.timeout <= time then FiredTo(t, time, k.repeat) else KeyIs(t, k)
  }

  function DueAt(entry: map<Timer, Key>, time: U64): set<Timer> {
    set t | t in entry.Keys && entry[t].timeout <= time
  }

  /** The timers fired are those due that are not in `todo`, each once, in order, and before those. */
  ghost predicate InOrder(fired: seq<Timer>, todo: set<Timer>, entry: map<Timer, Key>, time: U64) {
    && todo <= DueAt(entry, time) && (forall t :: t in DueAt(entry, time) ==> (t in fired <==> t !in todo))
    && (forall i :: 0 <= i < |fired| ==> fired[i] in DueAt(entry, time))
    && (forall i, j :: 0 <= i < j < |fired| ==> KeyLess(entry[fired[i]], entry[fired[j]]))
    && (forall i, t :: 0 <= i < |fired| && t in todo ==> KeyLess(entry[fired[i]], entry[t]))
  }

  /** In order: by due time, and by start where that is the same. */
  lemma OrderInNumbers(fired: seq<Timer>, entry: map<Timer, Key>, time: U64)
    requires InOrder(fired, {}, entry, time)
    ensures forall t :: t in fired <==> t in entry.Keys && entry[t].timeout <= time
    ensures forall i, j :: 0 <= i < j < |fired| ==>
      var a, b := entry[fired[i]], entry[fired[j]];
      a.timeout < b.timeout || (a.timeout == b.timeout && a.startId < b.startId)
  {
    forall t
      ensures t in fired <==> t in entry.Keys && entry[t].timeout <= time
    {
      assert t in DueAt(entry, time) <==> t in entry.Keys && entry[t].timeout <= time;
    }
  }

  lemma OrderStep(fired: seq<Timer>, todo: set<Timer>, entry: map<Timer, Key>, time: U64, h: Timer)
    requires InOrder(fired, todo, entry, time) && h in todo
    requires forall t :: t in todo && t != h ==> KeyLess(entry[h], entry[t])
    ensures InOrder(fired + [h], todo - {h}, entry, time)
  {
  }

  lemma RepeatIsLaterIf(time: U64, repeat: U64)
    requires time < MAX64 || repeat == 0
    ensures repeat > 0 ==> DueTime(time, repeat) > time
  {
  }

  class Loop {
    var time: U64
    var timerCounter: nat
    var heap: set<Timer>
    var activeHandles: nat
    ghost var timers: set<Timer>   // every timer initialised on this loop
    ghost var counted: set<Timer>  // the active referenced ones
    ghost var others: nat          // active referenced handles of other types

    /** The heap holds exactly the active timers; active_handles counts the active referenced handles. */
    ghost predicate Valid()
      reads this, timers
    {
      && heap <= timers && counted <= timers && activeHandles == others + |counted|
      && (forall t :: t in timers ==> Tracked(t, heap, counted))
      && (forall t :: t in heap ==> Startable(t, timerCounter))
      && (forall t, u :: t in heap && u in heap ==> Distinct(t, u))
    }

    /** The timer is in the heap and counted as its flags say. */
    static ghost predicate Tracked(t: Timer, heap: set<Timer>, counted: set<Timer>)
      reads t
    {
      (t in heap <==> t.active) && (t in counted <==> t.active && t.hasRef)
    }

    static ghost predicate Startable(t: Timer, counter: nat)
      reads t
    {
      t.cb.Some? && !t.closing && t.startId < counter
    }

    static ghost predicate Distinct(t: Timer, u: Timer)
      reads t, u
    {
      t != u ==> t.startId != u.startId
    }

    constructor (time: U64)
      ensures Valid() && timers == {} && this.time == time && heap == {}
    {
      this.time, timerCounter, heap, activeHandles, timers, counted, others := time, 0, {}, 0, {}, {}, 0;
    }

    /** uv__handle_start */
    method HandleStart(h: Timer)
      requires h in timers && h !in counted && activeHandles == others + |counted|
      requires !h.active
      modifies this`activeHandles, this`counted, h`active
      ensures h.active && activeHandles == others + |counted|
      ensures h in counted <==> h.hasRef
      ensures forall t :: t != h ==> (t in counted <==> t in old(counted))
    {
      if h.active {
        return;
      }
      h.active := true;
      if h.hasRef {
        activeHandles := activeHandles + 1;
        counted := counted + {h};
      }
    }

    /** uv__handle_stop */
    method HandleStop(h: Timer)
      requires h in timers && activeHandles == others + |counted| && (h in counted <==> h.active && h.hasRef)
      modifies this`activeHandles, this`counted, h`active
      ensures !h.active && counted == old(counted) - {h}
      ensures activeHandles == others + |counted|
    {
      if !h.active {
        return;
      }
      h.active := false;
      if h.hasRef {
        activeHandles := activeHandles - 1;
        counted := counted - {h};
      }
    }

    /** uv__handle_ref */
    method HandleRef(h: Timer)
      requires Valid() && h in timers
      modifies this`activeHandles, this`counted, h`hasRef
      ensures Valid() && h.hasRef
    {
      if h.hasRef {
        return;
      }
      h.hasRef := true;
      if h.closing {
        return;
      }
      if h.active {
        activeHandles := activeHandles + 1;
        counted := counted + {h};
      }
    }

    /** uv__handle_unref */
    method HandleUnref(h: Timer)
      requires Valid() && h in timers
      modifies this`activeHandles, this`counted, h`hasRef
      ensures Valid() && !h.hasRef
    {
      if !h.hasRef {
        return;
      }
      h.hasRef := false;
      if h.closing {
        return;
      }
      if h.active {
        activeHandles := activeHandles - 1;
        counted := counted - {h};
      }
    }

    /** uv_timer_init, on this loop. */
    method Init() returns (h: Timer)
      requires Valid()
      modifies this`timers
      ensures Valid() && fresh(h) && timers == old(timers) + {h} && !h.active
    {
      h := new Timer();
      timers := timers + {h};
    }

    /** uv_timer_stop */
    method Stop(h: Timer)
      requires Valid() && h in timers
      modifies this`heap, this`activeHandles, this`counted, h`active
      ensures Valid() && !h.active && heap == old(heap) - {h}
    {
      if !h.active {
        return;
      }
      HeapRemove(h);
      HandleStop(h);
    }

    /** Nothing about a timer has changed, nor the loop. */
    twostate predicate Same(h: Timer)
      reads this, h
    {
      unchanged(h) && heap == old(heap) && timerCounter == old(timerCounter) && activeHandles == old(activeHandles)
    }

    /** uv_timer_start */
    method Start(h: Timer, cb: Option<nat>, timeout: U64, repeat: U64) returns (rc: int)
      requires Valid() && h in timers
      modifies this`heap, this`activeHandles, this`counted, this`timerCounter, h
      ensures Valid() && h.hasRef == old(h.hasRef) && h.closing == old(h.closing)
      ensures rc == if h.closing || cb.None? then EINVAL else 0
      ensures rc != 0 ==> Same(h)
      ensures rc == 0 ==>
        && heap == old(heap) + {h} && h.active && h.cb == cb && h.repeat == repeat
        && h.timeout == DueTime(time, timeout) && h.startId == old(timerCounter)
          && timerCounter == old(timerCounter) + 1
      ensures rc == 0 ==>
        h.timeout == if time + timeout <= 0xFFFF_FFFF_FFFF_FFFF then time + timeout else 0xFFFF_FFFF_FFFF_FFFF
    {
      if h.closing || cb.None? {
        return EINVAL;
      }
      if h.active {
        Stop(h);
      }
      StartInactive(h, cb, timeout, repeat);
      rc := 0;
    }

    /** The rest of uv_timer_start: the due time stops at the end of the 64-bit range. */
    method StartInactive(h: Timer, cb: Option<nat>, timeout: U64, repeat: U64)
      requires Valid() && h in timers && !h.active && !h.closing && cb.Some?
      modifies this`heap, this`activeHandles, this`counted, this`timerCounter, h
      ensures Valid() && h.hasRef == old(h.hasRef) && !h.closing
      ensures heap == old(heap) + {h} && h.active && h.cb == cb && h.repeat == repeat
      ensures h.timeout == DueTime(time, timeout) && h.startId == old(timerCounter)
        && timerCounter == old(timerCounter) + 1
    {
      assert h !in heap && h !in counted;
      var clampedTimeout := Wrap(time + timeout);
      if clampedTimeout < timeout {
        clampedTimeout := MAX64;
      }
      Schedule(h, cb, clampedTimeout, repeat);
      Insert(h);
    }

    /** The fields of a started timer. */
    method Schedule(h: Timer, cb: Option<nat>, dueTime: U64, repeat: U64)
      requires Valid() && h in timers && h !in heap && cb.Some?
      modifies this`timerCounter, h`cb, h`timeout, h`repeat, h`startId
      ensures Valid() && Startable(h, timerCounter) == !h.closing
      ensures h.cb == cb && h.timeout == dueTime && h.repeat == repeat
      ensures h.startId == old(timerCounter) && timerCounter == old(timerCounter) + 1
      ensures forall t :: t in heap ==> t.startId < h.startId
    {
      h.cb, h.timeout, h.repeat := cb, dueTime, repeat;
      h.startId := timerCounter;
      timerCounter := timerCounter + 1;
    }

    /** The same, but for the flags of one timer. */
    ghost predicate ValidBut(h: Timer)
      reads this, timers
    {
      && heap <= timers && counted <= timers && activeHandles == others + |counted|
      && (forall t :: t in timers && t != h ==> Tracked(t, heap, counted))
      && (forall t :: t in heap ==> Startable(t, timerCounter))
      && (forall t, u :: t in heap && u in heap ==> Distinct(t, u))
    }

    method HeapInsert(h: Timer)
      requires Valid() && h in timers && Startable(h, timerCounter)
      requires forall t :: t in heap ==> t.startId < h.startId
      modifies this`heap
      ensures ValidBut(h) && heap == old(heap) + {h}
    {
      heap := heap + {h};
    }

    method HeapRemove(h: Timer)
      requires Valid()
      modifies this`heap
      ensures ValidBut(h) && heap == old(heap) - {h}
    {
      heap := heap - {h};
    }

    method Insert(h: Timer)
      requires Valid() && h in timers && !h.active && Startable(h, timerCounter)
      requires forall t :: t in heap ==> t.startId < h.startId
      modifies this`heap, this`activeHandles, this`counted, h`active
      ensures Valid() && h.active && heap == old(heap) + {h}
    {
      HeapInsert(h);
      HandleStart(h);
    }

    /** uv_timer_again */
    method Again(h: Timer) returns (rc: int)
      requires Valid() && h in timers
      modifies this`heap, this`activeHandles, this`counted, this`timerCounter, h
      ensures Valid() && h.hasRef == old(h.hasRef) && h.closing == old(h.closing)
      ensures h.cb == old(h.cb) && h.repeat == old(h.repeat)
      ensures rc == if h.cb.None? then EINVAL else 0
      ensures rc != 0 || h.repeat == 0 ==> Same(h)
      ensures rc == 0 && h.repeat > 0 && h.closing ==> !h.active && heap == old(heap) - {h}
      ensures rc == 0 && h.repeat > 0 && !h.closing ==>
        && heap == old(heap) + {h} && h.active && h.timeout == DueTime(time, h.repeat) && h.startId == old(timerCounter)
    {
      if h.cb.None? {
        return EINVAL;
      }
      if h.repeat > 0 {
        Stop(h);
        var _ := Start(h, h.cb, h.repeat, h.repeat);
      }
      rc := 0;
    }

    /** heap_min */
    method HeapMin() returns (t: Timer?)
      requires Valid()
      ensures t == null <==> heap == {}
      ensures t != null ==> t in heap && IsLeast(t, heap)
      ensures t != null ==>
        forall u :: u in heap ==> t.timeout <= u.timeout && (t.timeout == u.timeout ==> t.startId <= u.startId)
    {
      if heap == {} {
        return null;
      }
      LeastExists(heap);
      var m :| m in heap && IsLeast(m, heap);
      forall u | u in heap
        ensures m.timeout <= u.timeout && (m.timeout == u.timeout ==> m.startId <= u.startId)
      {
        assert !Before(u, m);
      }
      t := m;
    }

    /** uv__next_timeout: no timer is due before that much time has passed, and one is then, unless the
        number of milliseconds does not fit an int. */
    method NextTimeout() returns (r: int)
      requires Valid()
      ensures -1 <= r <= INT_MAX && (r == -1 <==> heap == {})
      ensures r > 0 ==> forall t :: t in heap ==> t.timeout >= time + r
      ensures 0 < r < INT_MAX ==> exists t :: t in heap && t.timeout == time + r
      ensures r == 0 ==> exists t :: t in heap && t.timeout <= time
    {
      var h := HeapMin();
      if h == null {
        return -1;
      }
      if h.timeout <= time {
        return 0;
      }
      var diff := h.timeout - time;
      if diff > INT_MAX {
        diff := INT_MAX;
      }
      forall t | t in heap ensures t.timeout >= time + diff {
        assert !Before(t, h);
      }
      return diff;
    }

    /** The turn of uv__run_timers for one timer, before its callback. */
    method FireOne(h: Timer)
      requires Valid() && h in heap
      modifies this`heap, this`activeHandles, this`counted, this`timerCounter, h
      ensures Valid() && FiredTo(h, time, old(h.repeat))
      ensures heap == if h.repeat == 0 then old(heap) - {h} else old(heap)
    {
      Stop(h);
      assert h.cb.Some? && !h.closing;
      var _ := Again(h);
    }

    /** Timers in `todo` are still to be fired; those that were due and are not in it have been. */
    ghost predicate Running(entry: map<Timer, Key>, todo: set<Timer>)
      reads this, timers, entry.Keys
    {
      && heap <= entry.Keys && todo <= heap
      && (forall t :: t in todo ==> KeyIs(t, entry[t]) && entry[t].timeout <= time)
      && (forall t :: t in heap && t !in todo ==> t.timeout > time)
      && (forall t :: t in entry.Keys && t !in todo ==> After(t, time, entry[t]))
    }

    lemma DueIsTodo(entry: map<Timer, Key>, todo: set<Timer>, h: Timer)
      requires Valid() && Running(entry, todo) && h in heap && IsLeast(h, heap) && h.timeout <= time
      ensures h in todo && forall t :: t in todo && t != h ==> KeyLess(entry[h], entry[t])
    {
      forall t | t in todo && t != h ensures KeyLess(entry[h], entry[t]) {
        assert !Before(t, h) && Distinct(t, h);
      }
    }

    lemma RunningStarts()
      requires Valid()
      ensures Running(Entry(), DueAt(Entry(), time)) && InOrder([], DueAt(Entry(), time), Entry(), time)
    {
    }

    lemma NoneIsDue(entry: map<Timer, Key>, todo: set<Timer>, h: Timer)
      requires Running(entry, todo) && h in heap && IsLeast(h, heap) && h.timeout > time
      ensures todo == {} && forall t :: t in heap ==> t.timeout > time
    {
      forall t | t in heap ensures t.timeout > time {
        assert !Before(t, h);
      }
    }

    /** One turn of the loop: fires the least timer, which is the next one in order. */
    method FireNext(h: Timer, ghost entry: map<Timer, Key>, ghost todo: set<Timer>, fired: seq<Timer>)
      returns (nowFired: seq<Timer>)
      requires Valid() && Running(entry, todo) && InOrder(fired, todo, entry, time)
      requires h in heap && IsLeast(h, heap) && h.timeout <= time && (time < MAX64 || h.repeat == 0)
      modifies this`heap, this`activeHandles, this`counted, this`timerCounter, h
      ensures h in todo && Valid() && Running(entry, todo - {h})
      ensures nowFired == fired + [h] && InOrder(nowFired, todo - {h}, entry, time)
    {
      DueIsTodo(entry, todo, h);
      OrderStep(fired, todo, entry, time, h);
      Fire(h, entry, todo);
      nowFired := fired + [h];  // timer_cb
    }

    method Fire(h: Timer, ghost entry: map<Timer, Key>, ghost todo: set<Timer>)
      requires Valid() && Running(entry, todo) && h in todo && (time < MAX64 || h.repeat == 0)
      modifies this`heap, this`activeHandles, this`counted, this`timerCounter, h
      ensures Valid() && Running(entry, todo - {h})
    {
      FireOne(h);
      RepeatIsLaterIf(time, h.repeat);
    }

    ghost function Entry(): map<Timer, Key>
      reads this, heap
    {
      map t | t in heap :: Key(t.timeout, t.startId, t.repeat)
    }

    /** uv__run_timers, when the callbacks leave the timers alone: calls back exactly the timers that are due
        on entry, each once, in the order of due time and start; repeating ones are due again later.  At the
        very end of time a repeating timer would be due again forever. */
    method RunTimers() returns (fired: seq<Timer>)
      requires Valid() && (time < MAX64 || forall t :: t in heap ==> t.repeat == 0)
      modifies this`heap, this`activeHandles, this`counted, this`timerCounter, heap
      ensures Valid() && InOrder(fired, {}, old(Entry()), time)
      ensures forall t :: t in fired <==> t in old(heap) && old(t.timeout) <= time
      ensures forall i, j :: 0 <= i < j < |fired| ==>
        old(fired[i].timeout) < old(fired[j].timeout)
        || (old(fired[i].timeout) == old(fired[j].timeout) && old(fired[i].startId) < old(fired[j].startId))
      ensures forall t :: t in old(heap) ==> After(t, time, old(Entry())[t])
      ensures heap <= old(heap) && forall t :: t in heap ==> t.timeout > time
    {
      ghost var entry := Entry();
      ghost var todo := DueAt(entry, time);
      fired := [];
      RunningStarts();
      while true
        invariant Valid() && Running(entry, todo) && InOrder(fired, todo, entry, time)
        decreases todo
      {
        var h := HeapMin();
        if h == null {
          break;
        }
        if h.timeout > time {
          NoneIsDue(entry, todo, h);
          break;
        }
        fired := FireNext(h, entry, todo, fired);
        todo := todo - {h};
      }
      OrderInNumbers(fired, entry, time);
    }

    ghost predicate HasRepeating()
      reads this, heap
    {
      exists t :: t in heap && t.repeat > 0
    }

    /** The condition above is needed: at the very end of time, with a repeating timer, every turn leaves a timer that
        is due, so that any number of turns is taken without reaching the end of the loop. */
    method RunTurns(n: nat) returns (fired: seq<Timer>)
      requires Valid() && time == MAX64 && HasRepeating()
      modifies this`heap, this`activeHandles, this`counted, this`timerCounter, heap
      ensures Valid() && |fired| == n && HasRepeating()
      ensures heap != {} && heap <= old(heap) && forall t :: t in heap ==> t.timeout <= time
    {
      fired := [];
      while |fired| < n
        invariant Valid() && |fired| <= n && HasRepeating() && heap <= old(heap)
        decreases n - |fired|
      {
        var h := HeapMin();
        FireAtEnd(h);
        fired := fired + [h];  // timer_cb
      }
    }

    method FireAtEnd(h: Timer)
      requires Valid() && HasRepeating() && h in heap
      modifies this`heap, this`activeHandles, this`counted, this`timerCounter, h
      ensures Valid() && HasRepeating() && heap <= old(heap)
    {
      ghost var r :| r in heap && r.repeat > 0;
      FireOne(h);
      assert r in heap && r.repeat > 0;
    }

    /** uv__timer_close, with the flag that uv_close sets. */
    method Close(h: Timer)
      requires Valid() && h in timers
      modifies this`heap, this`activeHandles, this`counted, h`active, h`closing
      ensures Valid() && h.closing && !h.active && heap == old(heap) - {h}
    {
      Stop(h);
      h.closing := true;
    }
  }

  /** The sum of two 64-bit numbers, as 64 bits. */
  function Wrap(x: nat): (r: U64)
    requires x <= 2 * MAX64
  {
    if x <= MAX64 then x else x - MAX64 - 1
  }
}
