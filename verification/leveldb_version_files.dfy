/** The files of one version: finding a key in a level by file ranges, and picking the inputs of a compaction. */
module VersionFiles {
  import opened MvccStore
  import opened Wrappers

  /** FileMetaData, with what is in the table. */
  datatype File = File(number: nat, smallest: Entry, largest: Entry, entries: set<Entry>)

  ghost predicate ValidFile(f: File) {
    && f.smallest in f.entries && f.largest in f.entries
    && forall e :: e in f.entries ==> e.seqno <= MAX_SEQUENCE_NUMBER && !Before(e, f.smallest) && !Before(f.largest, e)
  }

  ghost predicate ValidFiles(files: seq<File>) {
    forall f :: f in files ==> ValidFile(f)
  }

  /** A level from 1 on: one file behind the other. */
  ghost predicate LevelOk(files: seq<File>) {
    ValidFiles(files) && forall i, j :: 0 <= i < j < |files| ==> Before(files[i].largest, files[j].smallest)
  }

  /** Transitivity, with Before as less than. */
  lemma Order(a: Entry, b: Entry, c: Entry)
    ensures Before(a, b) && !Before(c, b) ==> Before(a, c)
    ensures !Before(b, a) && Before(b, c) ==> Before(a, c)
    ensures !Before(b, a) && !Before(c, b) ==> !Before(c, a)
  {
  }

  lemma Ascending(files: seq<File>, i: nat, j: nat)
    requires LevelOk(files) && i < j < |files|
    ensures Before(files[i].largest, files[j].largest) && Before(files[i].smallest, files[j].smallest)
  {
    assert ValidFile(files[i]) && ValidFile(files[j]);
    Order(files[i].largest, files[j].smallest, files[j].largest);
    Order(files[i].smallest, files[i].largest, files[j].smallest);
  }

  // ---------- Finding a key ----------

  /** What the binary search finds, in whatever files. */
  function Search(files: seq<File>, key: Entry, left: nat, right: nat): (r: nat)
    requires left <= right <= |files|
    ensures left <= r <= right
    decreases right - left
  {
    if left == right then right
    else
      var mid := (left + right) / 2;
      if Before(files[mid].largest, key) then Search(files, key, mid + 1, right) else Search(files, key, left, mid)
  }

  /** `index` is the earliest file whose largest key is at or behind `key`. */
  ghost predicate IsFound(files: seq<File>, key: Entry, index: nat) {
    index <= |files| && forall i :: 0 <= i < |files| ==> (Before(files[i].largest, key) <==> i < index)
  }

  method FindFile(files: seq<File>, key: Entry) returns (right: nat)
    ensures right == Search(files, key, 0, |files|)
    ensures LevelOk(files) ==> IsFound(files, key, right)
  {
    var left := 0;
    right := |files|;
    while left < right
      invariant left <= right <= |files| && Search(files, key, left, right) == Search(files, key, 0, |files|)
    {
      var mid := (left + right) / 2;
      if Before(files[mid].largest, key) {
        left := mid + 1;
      } else {
        right := mid;
      }
    }
    if LevelOk(files) { SearchFinds(files, key, 0, |files|); }
  }

  lemma {:induction false} SearchFinds(files: seq<File>, key: Entry, left: nat, right: nat)
    requires LevelOk(files) && left <= right <= |files|
    requires forall i :: 0 <= i < left ==> Before(files[i].largest, key)
    requires forall i :: right <= i < |files| ==> !Before(files[i].largest, key)
    ensures IsFound(files, key, Search(files, key, left, right))
    decreases right - left
  {
    if left < right {
      var mid := (left + right) / 2;
      if Before(files[mid].largest, key) {
        forall i | 0 <= i < mid ensures Before(files[i].largest, key) {
          Ascending(files, i, mid);
          Order(files[i].largest, files[mid].largest, key);
        }
        SearchFinds(files, key, mid + 1, right);
      } else {
        forall i | mid < i < |files| ensures !Before(files[i].largest, key) {
          Ascending(files, mid, i);
          Order(files[mid].largest, files[i].largest, key);
        }
        SearchFinds(files, key, left, mid);
      }
    }
  }

  /** Some key of the file may be in [lo, hi]. */
  predicate Overlaps(f: File, lo: UserKey, hi: UserKey) {
    f.smallest.key <= hi && lo <= f.largest.key
  }

  /** SomeFileOverlapsRange: one by one, or by binary search in a level from 1 on. */
  method SomeFileOverlapsRange(disjointSortedFiles: bool, files: seq<File>, lo: UserKey, hi: UserKey)
    returns (r: bool)
    requires disjointSortedFiles ==> LevelOk(files)
    ensures r <==> exists f :: f in files && Overlaps(f, lo, hi)
  {
    if !disjointSortedFiles {
      for i := 0 to |files|
        invariant forall j :: 0 <= j < i ==> !Overlaps(files[j], lo, hi)
      {
        if !(lo > files[i].largest.key || hi < files[i].smallest.key) {
          assert files[i] in files;
          return true;
        }
      }
      return false;
    }
    var index := FindFile(files, Entry(lo, MAX_SEQUENCE_NUMBER, TypeValue, ""));
    r := index < |files| && files[index].smallest.key <= hi;
    FoundFirst(files, lo, hi, index);
  }

  lemma FoundFirst(files: seq<File>, lo: UserKey, hi: UserKey, index: nat)
    requires LevelOk(files) && IsFound(files, Entry(lo, MAX_SEQUENCE_NUMBER, TypeValue, ""), index)
    ensures (exists f :: f in files && Overlaps(f, lo, hi)) <==> index < |files| && files[index].smallest.key <= hi
  {
    if index < |files| {
      assert ValidFile(files[index]);
      assert lo <= files[index].largest.key;
    }
    if f :| f in files && Overlaps(f, lo, hi) {
      var i :| 0 <= i < |files| && f == files[i];
      assert ValidFile(files[i]);
      assert !(i < index);
      if index < i { Ascending(files, index, i); }
    }
  }

  /** Everything stored in a level. */
  ghost function EntriesOf(files: seq<File>): set<Entry> {
    set f, e | f in files && e in f.entries :: e
  }

  /** The one file of a level from 1 on in which Version::Get looks for user key `k` at sequence `s`. */
  function LookIn(files: seq<File>, k: UserKey, s: nat): Option<File> {
    var index := Search(files, Entry(k, s, TypeValue, ""), 0, |files|);
    if index >= |files| || k < files[index].smallest.key then None else Some(files[index])
  }

  /** Where one file is behind the other, what decides the key in the level is in that file. */
  method FileFor(files: seq<File>, k: UserKey, s: nat) returns (r: Option<File>)
    ensures r == LookIn(files, k, s)
    ensures LevelOk(files) ==>
      forall e :: IsNewest(EntriesOf(files), k, s, e) ==> r.Some? && r.value in files && e in r.value.entries
  {
    var index := FindFile(files, Entry(k, s, TypeValue, ""));
    if LevelOk(files) {
      forall e | IsNewest(EntriesOf(files), k, s, e)
        ensures index < |files| && e in files[index].entries && files[index].smallest.key <= k
      {
        NewestIsThere(files, k, s, e, index);
      }
    }
    if index >= |files| || k < files[index].smallest.key {
      return None;
    }
    r := Some(files[index]);
  }

  lemma NewestIsThere(files: seq<File>, k: UserKey, s: nat, e: Entry, index: nat)
    requires LevelOk(files) && IsFound(files, Entry(k, s, TypeValue, ""), index)
    requires IsNewest(EntriesOf(files), k, s, e)
    ensures index < |files| && e in files[index].entries && files[index].smallest.key <= k
  {
    var f :| f in files && e in f.entries;
    var i :| 0 <= i < |files| && f == files[i];
    assert ValidFile(f);
    Order(Entry(k, s, TypeValue, ""), e, f.largest);
    if index < i { NewerBefore(files, k, s, e, index, i); }
  }

  /** Where a key's entries go on from file `index` to file `i`, the first of these ends with a newer one. */
  lemma NewerBefore(files: seq<File>, k: UserKey, s: nat, e: Entry, index: nat, i: nat)
    requires LevelOk(files) && index < i < |files| && e in files[i].entries && e.key == k
    requires !Before(files[index].largest, Entry(k, s, TypeValue, ""))
    ensures var g := files[index].largest; g in EntriesOf(files) && g.key == k && g.seqno <= s && Tag(g) > Tag(e)
  {
    assert ValidFile(files[index]) && ValidFile(files[i]);
    Order(files[index].largest, files[i].smallest, e);
  }

  // ---------- Ranges ----------

  ghost predicate IsLargest(l: Entry, files: seq<File>) {
    (exists f :: f in files && f.largest == l) && forall f :: f in files ==> !Before(l, f.largest)
  }

  ghost predicate IsSmallest(s: Entry, files: seq<File>) {
    (exists f :: f in files && f.smallest == s) && forall f :: f in files ==> !Before(f.smallest, s)
  }

  method FindLargestKey(files: seq<File>) returns (r: Option<Entry>)
    ensures r.None? <==> files == []
    ensures r.Some? ==> IsLargest(r.value, files)
  {
    if files == [] {
      return None;
    }
    var largest := files[0].largest;
    for i := 1 to |files|
      invariant IsLargest(largest, files[..i])
    {
      LargestOfMore(largest, files[..i], files[i]);
      assert files[..i + 1] == files[..i] + [files[i]];
      if Before(largest, files[i].largest) {
        largest := files[i].largest;
      }
    }
    assert files[..|files|] == files;
    r := Some(largest);
  }

  lemma LargestOfMore(l: Entry, files: seq<File>, f: File)
    requires IsLargest(l, files)
    ensures IsLargest(if Before(l, f.largest) then f.largest else l, files + [f])
  {
    var m := if Before(l, f.largest) then f.largest else l;
    forall g | g in files + [f]
      ensures !Before(m, g.largest)
    {
      if g in files { Order(m, g.largest, l); }
    }
    assert f in files + [f];
  }

  /** GetRange */
  method GetRange(files: seq<File>) returns (smallest: Entry, largest: Entry)
    requires files != []
    ensures IsSmallest(smallest, files) && IsLargest(largest, files)
  {
    smallest, largest := files[0].smallest, files[0].largest;
    for i := 1 to |files|
      invariant IsSmallest(smallest, files[..i]) && IsLargest(largest, files[..i])
    {
      LargestOfMore(largest, files[..i], files[i]);
      SmallestOfMore(smallest, files[..i], files[i]);
      assert files[..i + 1] == files[..i] + [files[i]];
      if Before(files[i].smallest, smallest) {
        smallest := files[i].smallest;
      }
      if Before(largest, files[i].largest) {
        largest := files[i].largest;
      }
    }
    assert files[..|files|] == files;
  }

  lemma SmallestOfMore(s: Entry, files: seq<File>, f: File)
    requires IsSmallest(s, files)
    ensures IsSmallest(if Before(f.smallest, s) then f.smallest else s, files + [f])
  {
    var m := if Before(f.smallest, s) then f.smallest else s;
    forall g | g in files + [f]
      ensures !Before(g.smallest, m)
    {
      if g in files { Order(s, g.smallest, m); }
    }
    assert f in files + [f];
  }
}
