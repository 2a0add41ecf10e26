/** After any crash recovery can go on to the end: the database can always be opened again. */
module Reopening {
  import opened Durability
  import opened Wrappers

  lemma {:induction false} Greatest(ns: set<nat>) returns (n: nat)
    requires ns != {}
    ensures n in ns && forall k :: k in ns ==> k <= n
    decreases ns
  {
    n :| n in ns;
    var rest := ns - {n};
    assert forall k :: k in ns ==> k == n || k in rest;
    if rest != {} {
      var m := Greatest(rest);
      if m > n { n := m; }
    }
  }

  /** The numbers in ascending order. */
  lemma {:induction false} InOrder(ns: set<nat>) returns (q: seq<nat>)
    ensures Ascending(q) && forall n :: n in q <==> n in ns
    decreases ns
  {
    if ns == {} {
      q := [];
    } else {
      var n := Greatest(ns);
      var rest := InOrder(ns - {n});
      q := rest + [n];
      forall i | 0 <= i < |rest|
        ensures rest[i] < n
      {
        assert rest[i] in rest;
      }
    }
  }

  /** Recovery reads the manifest. */
  lemma MayBegin(states: seq<State>) returns (more: seq<State>)
    requires Run(states) && states[|states| - 1].memory.Down?
    ensures Run(more) && states <= more && more[|more| - 1].memory.Recovering?
  {
    var s := states[|states| - 1];
    var todo := InOrder(set n | n in s.logs && n >= s.manifest.logNumber);
    var s' := s.(memory := Recovering(todo, 0, {}, 0, {}, false, None, {}, s.manifest.nextFile + 1));
    assert BeginRecovery(s, s', todo, false);
    RunOn(states, s');
    more := states + [s'];
  }

  /** How much of the logs is left to read. */
  function RecordsLeft(s: State): nat {
    if s.memory.Recovering? && s.memory.todo != [] && s.memory.todo[0] in s.logs
      && s.memory.read <= |s.logs[s.memory.todo[0]].records|
    then |s.logs[s.memory.todo[0]].records| - s.memory.read else 0
  }

  function LogsLeft(s: State): nat {
    if s.memory.Recovering? then |s.memory.todo| else 0
  }

  lemma NextRecord(s: State) returns (s': State)
    requires Inv(s) && s.memory.Recovering? && s.memory.todo != [] && RecordsLeft(s) > 0
    ensures Step(s, s') && s'.memory.Recovering? && s'.memory.todo == s.memory.todo && RecordsLeft(s') < RecordsLeft(s)
  {
    var m := s.memory;
    var r := s.logs[m.todo[0]].records[m.read];
    var mem := if r.seen then m.mem + {r.batch} else m.mem;
    s' := s.(memory := Recovering(m.todo, m.read + 1, mem, m.compactions, m.edit, m.save, m.kept, m.keptMem,
                                  m.nextFile));
    assert ReplayRecord(s, s', false);
  }

  lemma NextLog(s: State) returns (s': State)
    requires Inv(s) && s.memory.Recovering? && s.memory.todo != [] && RecordsLeft(s) == 0
    ensures Step(s, s') && s'.memory.Recovering? && s'.memory.todo == s.memory.todo[1..]
  {
    var m := s.memory;
    if m.mem == {} {
      s' := s.(memory := Recovering(m.todo[1..], 0, {}, 0, m.edit, m.save, m.kept, m.keptMem,
                                    Max(m.nextFile, m.todo[0] + 1)));
    } else {
      s' := s.(tables := s.tables[m.nextFile := m.mem],
               memory := Recovering(m.todo[1..], 0, {}, 0, m.edit + {m.nextFile}, true, m.kept, m.keptMem,
                                    Max(m.nextFile + 1, m.todo[0] + 1)));
    }
    assert FinishLog(s, s', false);
  }

  lemma Opened(states: seq<State>) returns (more: seq<State>)
    requires Run(states) && states[|states| - 1].memory.Recovering? && states[|states| - 1].memory.todo == []
    ensures Run(more) && states <= more && more[|more| - 1].memory.Up?
  {
    var s := states[|states| - 1];
    var all := states;
    if s.memory.kept.None? {
      var m := s.memory;
      var s1 := s.(logs := s.logs[m.nextFile := Log([], false)],
                   memory := m.(kept := Some(m.nextFile), keptMem := {}, nextFile := m.nextFile + 1));
      assert CreateLog(s, s1);
      RunOn(states, s1);
      all := states + [s1];
      s := s1;
    }
    var s2 := s.(manifest := RecoveredManifest(s),
                 memory := Up(s.memory.keptMem, None, None, RecoveredManifest(s).tables, {}, s.memory.kept.value,
                   RecoveredManifest(s).logNumber, s.memory.nextFile, None, false));
    assert FinishRecovery(s, s2);
    RunOn(all, s2);
    more := all + [s2];
  }

  /** All logs are read, and the database is open. */
  lemma {:induction false} MayFinish(states: seq<State>) returns (more: seq<State>)
    requires Run(states) && states[|states| - 1].memory.Recovering?
    ensures Run(more) && states <= more && more[|more| - 1].memory.Up?
    decreases LogsLeft(states[|states| - 1]), RecordsLeft(states[|states| - 1])
  {
    var s := states[|states| - 1];
    ReachableInv(states);
    if s.memory.todo == [] {
      more := Opened(states);
    } else {
      var s';
      if RecordsLeft(s) > 0 { s' := NextRecord(s); } else { s' := NextLog(s); }
      RunOn(states, s');
      more := MayFinish(states + [s']);
    }
  }

  /** From every reachable state in which the database is down a run leads to one in which it is open, and has every
      acknowledged batch but those behind a torn end. */
  lemma MayReopen(states: seq<State>) returns (more: seq<State>)
    requires Run(states) && states[|states| - 1].memory.Down?
    ensures Run(more) && states <= more && more[|more| - 1].memory.Up?
    ensures var s := more[|more| - 1]; s.acked - s.lost <= Readable(s)
  {
    var begun := MayBegin(states);
    more := MayFinish(begun);
    OpenDatabaseHasAllAcknowledged(more);
  }
}
