/** The compaction loop: which entries of a sorted input survive, and into which output tables. */
module Compaction {
  import opened MvccStore
  import opened Wrappers

  /** A newer entry of the same key already answers every read at or above `smallest`. */
  ghost predicate Superseded(input: set<Entry>, smallest: nat, e: Entry) {
    exists f :: f in input && f.key == e.key && Tag(f) > Tag(e) && f.seqno <= smallest
  }

  /** A deletion with nothing underneath it. */
  ghost predicate ObsoleteDeletion(smallest: nat, base: set<UserKey>, e: Entry) {
    e.typ.TypeDeletion? && e.seqno <= smallest && e.key in base
  }

  /** `output` keeps exactly the entries of `input` that some read may still need. */
  ghost predicate IsCompacted(input: set<Entry>, output: set<Entry>, smallest: nat, base: set<UserKey>) {
    forall e :: e in output <==>
      e in input && !Superseded(input, smallest, e) && !ObsoleteDeletion(smallest, base, e)
  }

  /** Each user key keeps at most one entry at or below the smallest snapshot. */
  lemma OneEntryBelowSnapshot(input: set<Entry>, output: set<Entry>, smallest: nat, base: set<UserKey>, e: Entry,
      f: Entry)
    requires UniqueTags(input) && IsCompacted(input, output, smallest, base)
    requires e in output && f in output && e.key == f.key
    requires e.seqno <= smallest && f.seqno <= smallest
    ensures e == f
  {
    assert Tag(e) > Tag(f) ==> Superseded(input, smallest, f);
    assert Tag(e) < Tag(f) ==> Superseded(input, smallest, e);
  }

  ghost function Flatten(tables: seq<seq<Entry>>): seq<Entry> {
    if tables == [] then [] else Flatten(tables[..|tables| - 1]) + tables[|tables| - 1]
  }

  lemma FlattenPush(tables: seq<seq<Entry>>, t: seq<Entry>)
    ensures Flatten(tables + [t]) == Flatten(tables) + t
  {
    assert (tables + [t])[..|tables|] == tables;
  }

  /** FinishCompactionOutputFile: the open table joins the outputs. */
  method FinishCompactionOutputFile(outputs: seq<seq<Entry>>, builder: seq<Entry>) returns (r: seq<seq<Entry>>)
    requires builder != [] && NoneEmpty(outputs)
    ensures NoneEmpty(r) && Flatten(r) == Flatten(outputs) + builder
  {
    FlattenPush(outputs, builder);
    r := outputs + [builder];
  }

  predicate NoneEmpty(tables: seq<seq<Entry>>) {
    forall t :: t in tables ==> t != []
  }

  /** The loop of DoCompactionWork.  `stopBefore` and `bigEnough` decide where output tables end
      (ShouldStopBefore and MaxOutputFileSize); they may not change what is kept. */
  method DoCompactionWork(input: seq<Entry>, smallestSnapshot: nat, base: set<UserKey>,
                          stopBefore: nat -> bool, bigEnough: seq<Entry> -> bool)
    returns (outputs: seq<seq<Entry>>)
    requires Sorted(input)
    requires smallestSnapshot < MAX_SEQUENCE_NUMBER
    ensures NoneEmpty(outputs)
    ensures Sorted(Flatten(outputs))
    ensures IsCompacted((set e | e in input), (set e | e in Flatten(outputs)), smallestSnapshot, base)
  {
    outputs := [];
    var builder: seq<Entry> := [];  // the open table; [] when no table is open
    var currentUserKey: Option<UserKey> := None;
    var lastSequenceForKey := MAX_SEQUENCE_NUMBER;
    ghost var kept: seq<Entry> := [];
    var i := 0;
    while i < |input|
      invariant i <= |input|
      invariant kept == Flatten(outputs) + builder
      invariant NoneEmpty(outputs)
      invariant i == 0 ==> currentUserKey.None?
      invariant i > 0 ==> currentUserKey == Some(input[i - 1].key) && lastSequenceForKey == input[i - 1].seqno
      invariant Sorted(kept) && AreSurvivors(input, smallestSnapshot, base, i, kept)
    {
      var ikey := input[i];
      if stopBefore(i) && builder != [] {
        outputs := FinishCompactionOutputFile(outputs, builder);
        builder := [];
      }
      var drop := false;
      if currentUserKey.None? || currentUserKey.value != ikey.key {
        currentUserKey := Some(ikey.key);
        lastSequenceForKey := MAX_SEQUENCE_NUMBER;
      }
      if lastSequenceForKey <= smallestSnapshot {
        drop := true;  // hidden by a newer entry for the same user key
      } else if ikey.typ.TypeDeletion? && ikey.seqno <= smallestSnapshot && ikey.key in base {
        drop := true;
      }
      lastSequenceForKey := ikey.seqno;
      assert drop == !Survives(input, smallestSnapshot, base, i);
      SurvivorStep(input, smallestSnapshot, base, i, kept);
      if !drop {
        kept := kept + [ikey];
        builder := builder + [ikey];
        if bigEnough(builder) {
          outputs := FinishCompactionOutputFile(outputs, builder);
          builder := [];
        }
      }
      i := i + 1;
    }
    if builder != [] {
      outputs := FinishCompactionOutputFile(outputs, builder);
    }
    assert kept == Flatten(outputs);
    SurvivorsAreCompacted(input, kept, smallestSnapshot, base);
  }

  /** The test the loop makes at index `i`, looking only one entry back. */
  ghost predicate Survives(input: seq<Entry>, smallest: nat, base: set<UserKey>, i: nat)
    requires i < |input|
  {
    && !(i > 0 && input[i - 1].key == input[i].key && input[i - 1].seqno <= smallest)
    && !ObsoleteDeletion(smallest, base, input[i])
  }

  /** `kept` holds exactly the survivors among the first `n` entries. */
  ghost predicate AreSurvivors(input: seq<Entry>, smallest: nat, base: set<UserKey>, n: nat, kept: seq<Entry>)
    requires n <= |input|
  {
    forall e :: e in kept <==> exists j :: 0 <= j < n && input[j] == e && Survives(input, smallest, base, j)
  }

  lemma SurvivorStep(input: seq<Entry>, smallest: nat, base: set<UserKey>, i: nat, kept: seq<Entry>)
    requires Sorted(input) && i < |input| && Sorted(kept) && AreSurvivors(input, smallest, base, i, kept)
    ensures !Survives(input, smallest, base, i) ==> AreSurvivors(input, smallest, base, i + 1, kept)
    ensures Survives(input, smallest, base, i) ==>
      Sorted(kept + [input[i]]) && AreSurvivors(input, smallest, base, i + 1, kept + [input[i]])
  {
    forall j | 0 <= j < |kept|
      ensures Before(kept[j], input[i])
    {
      assert kept[j] in kept;
    }
  }

  /** Looking one entry back is enough: the input is sorted. */
  lemma SurvivesIffNotSuperseded(input: seq<Entry>, smallest: nat, base: set<UserKey>, i: nat)
    requires Sorted(input) && i < |input|
    ensures Survives(input, smallest, base, i)
       <==> !Superseded((set e | e in input), smallest, input[i]) && !ObsoleteDeletion(smallest, base, input[i])
  {
    var es := set e | e in input;
    if i > 0 && input[i - 1].key == input[i].key && input[i - 1].seqno <= smallest {
      assert input[i - 1] in es && Before(input[i - 1], input[i]);
      assert Superseded(es, smallest, input[i]);
    }
    if Superseded(es, smallest, input[i]) {
      var f :| f in es && f.key == input[i].key && Tag(f) > Tag(input[i]) && f.seqno <= smallest;
      var j :| 0 <= j < |input| && input[j] == f;
      if i <= j {
        assert i < j ==> Before(input[i], input[j]);
      } else if j < i - 1 {
        assert Before(input[j], input[i - 1]) && Before(input[i - 1], input[i]);
      }
    }
  }

  lemma SurvivorsAreCompacted(input: seq<Entry>, kept: seq<Entry>, smallest: nat, base: set<UserKey>)
    requires Sorted(input)
    requires AreSurvivors(input, smallest, base, |input|, kept)
    ensures IsCompacted((set e | e in input), (set e | e in kept), smallest, base)
  {
    var es := set e | e in input;
    forall e
      ensures e in kept <==> e in es && !Superseded(es, smallest, e) && !ObsoleteDeletion(smallest, base, e)
    {
      if e in es {
        var i :| 0 <= i < |input| && input[i] == e;
        SurvivesIffNotSuperseded(input, smallest, base, i);
        if e in kept {
          var j :| 0 <= j < |input| && input[j] == e && Survives(input, smallest, base, j);
          SurvivesIffNotSuperseded(input, smallest, base, j);
        }
      }
    }
  }
}
