/** DBIter: the user-visible iterator over a sorted list of internal entries, in both directions. */
module DbIterator {
  import opened MvccStore
  import opened Wrappers

  // ---------- What is visible ----------

  ghost predicate Visible(list: seq<Entry>, s: nat, i: int) {
    0 <= i < |list| && list[i].seqno <= s
  }

  /** Entry `i` decides its user key at sequence `s`. */
  ghost predicate Decides(list: seq<Entry>, s: nat, i: int) {
    Visible(list, s, i) && forall j :: 0 <= j < i && list[j].key == list[i].key ==> list[j].seqno > s
  }

  ghost predicate Live(list: seq<Entry>, s: nat, i: int) {
    Decides(list, s, i) && list[i].typ.TypeValue?
  }

  /** The live entries among the first `n`, in key order. */
  ghost function LiveUpTo(list: seq<Entry>, s: nat, n: nat): (r: seq<Entry>)
    requires n <= |list|
  {
    if n == 0 then []
    else if Live(list, s, n - 1) then LiveUpTo(list, s, n - 1) + [list[n - 1]]
    else LiveUpTo(list, s, n - 1)
  }

  ghost function LiveEntries(list: seq<Entry>, s: nat): seq<Entry> {
    LiveUpTo(list, s, |list|)
  }

  // ---------- The specification: a plain cursor over a sorted sequence ----------

  /** The first index of `live` whose key is at least `target`. */
  ghost function LowerBound(live: seq<Entry>, target: UserKey): (r: nat)
    ensures r <= |live|
    ensures forall i :: 0 <= i < r ==> live[i].key < target
    ensures r < |live| ==> target <= live[r].key
  {
    if live == [] || target <= live[0].key then 0 else 1 + LowerBound(live[1..], target)
  }

  /** `at == |live|` is the one invalid position. */
  datatype PlainCursor = PlainCursor(live: seq<Entry>, at: nat) {
    ghost predicate Valid() { at < |live| }
    ghost function Invalid(): PlainCursor { this.(at := |live|) }
    ghost function SeekToFirst(): PlainCursor { this.(at := 0) }
    ghost function SeekToLast(): PlainCursor { if live == [] then Invalid() else this.(at := |live| - 1) }
    ghost function Seek(target: UserKey): PlainCursor { this.(at := LowerBound(live, target)) }
    ghost function Next(): PlainCursor
      requires Valid()
    {
      this.(at := at + 1)
    }
    ghost function Prev(): PlainCursor
      requires Valid()
    {
      if at == 0 then Invalid() else this.(at := at - 1)
    }
  }

  // ---------- Properties of the live entries ----------

  lemma {:induction false} LiveSkip(list: seq<Entry>, s: nat, a: nat, b: nat)
    requires a <= b <= |list|
    requires forall i :: a <= i < b ==> !Live(list, s, i)
    ensures LiveUpTo(list, s, a) == LiveUpTo(list, s, b)
    decreases b
  {
    if a < b {
      LiveSkip(list, s, a, b - 1);
    }
  }

  lemma {:induction false} LivePrefix(list: seq<Entry>, s: nat, a: nat, b: nat)
    requires a <= b <= |list|
    ensures LiveUpTo(list, s, a) <= LiveUpTo(list, s, b)
    decreases b
  {
    if a < b {
      LivePrefix(list, s, a, b - 1);
    }
  }

  /** The entry at a live index is the element of LiveEntries at position |LiveUpTo(i)|. */
  lemma LiveRank(list: seq<Entry>, s: nat, i: nat)
    requires Live(list, s, i)
    ensures |LiveUpTo(list, s, i)| < |LiveEntries(list, s)|
    ensures LiveEntries(list, s)[|LiveUpTo(list, s, i)|] == list[i]
    ensures |LiveUpTo(list, s, i + 1)| == |LiveUpTo(list, s, i)| + 1
  {
    LivePrefix(list, s, i + 1, |list|);
  }

  lemma {:induction false} LiveUpToMembers(list: seq<Entry>, s: nat, n: nat, e: Entry)
    requires n <= |list|
    ensures e in LiveUpTo(list, s, n) <==> exists i :: 0 <= i < n && Live(list, s, i) && list[i] == e
    decreases n
  {
    if n > 0 {
      LiveUpToMembers(list, s, n - 1, e);
      if Live(list, s, n - 1) && list[n - 1] == e {
        assert LiveUpTo(list, s, n)[|LiveUpTo(list, s, n)| - 1] == e;
      }
    }
  }

  /** LiveEntries is exactly the map of keys live at `s`: an entry is in it iff it is the newest entry
      of its key at `s` and is a value. */
  lemma LiveEntriesAreNewest(list: seq<Entry>, s: nat, e: Entry)
    requires Sorted(list)
    ensures e in LiveEntries(list, s)
       <==> IsNewest((set x | x in list), e.key, s, e) && e.typ.TypeValue?
  {
    var es := set x | x in list;
    LiveUpToMembers(list, s, |list|, e);
    if e in LiveEntries(list, s) {
      var i :| 0 <= i < |list| && Live(list, s, i) && list[i] == e;
      forall f | f in es && f.key == e.key && f.seqno <= s
        ensures Tag(f) <= Tag(e)
      {
        var j :| 0 <= j < |list| && list[j] == f;
        if j > i { assert Before(list[i], list[j]); }
      }
    }
    if IsNewest(es, e.key, s, e) && e.typ.TypeValue? {
      var i :| 0 <= i < |list| && list[i] == e;
      forall j | 0 <= j < i && list[j].key == e.key
        ensures list[j].seqno > s
      {
        assert Before(list[j], list[i]);
        assert list[j] in es;
      }
      assert Live(list, s, i);
    }
  }

  lemma {:induction false} LiveUpToSorted(list: seq<Entry>, s: nat, n: nat)
    requires Sorted(list) && n <= |list|
    ensures forall i, j :: 0 <= i < j < |LiveUpTo(list, s, n)|
              ==> LiveUpTo(list, s, n)[i].key < LiveUpTo(list, s, n)[j].key
    decreases n
  {
    if n > 0 {
      LiveUpToSorted(list, s, n - 1);
      if Live(list, s, n - 1) {
        var prev := LiveUpTo(list, s, n - 1);
        forall i | 0 <= i < |prev|
          ensures prev[i].key < list[n - 1].key
        {
          LiveUpToMembers(list, s, n - 1, prev[i]);
          assert prev[i] in prev;
          var k :| 0 <= k < n - 1 && Live(list, s, k) && list[k] == prev[i];
          assert Before(list[k], list[n - 1]);
        }
      }
    }
  }

  /** What a read of `k` at `s` finds in the list. */
  ghost predicate Stores(list: seq<Entry>, s: nat, k: UserKey, v: string) {
    Reads((set e | e in list), k, s, Some(v))
  }

  /** Live entries are what reads find, */
  lemma LiveIsStored(list: seq<Entry>, s: nat, i: nat)
    requires Sorted(list) && Live(list, s, i)
    ensures Stores(list, s, list[i].key, list[i].value)
  {
    LiveUpToMembers(list, s, |list|, list[i]);
    LiveEntriesAreNewest(list, s, list[i]);
  }

  /** and all of it. */
  lemma StoredIsLive(list: seq<Entry>, s: nat, k: UserKey, v: string) returns (i: nat)
    requires Sorted(list) && Stores(list, s, k, v)
    ensures Live(list, s, i) && list[i].key == k && list[i].value == v
  {
    var e :| IsNewest((set x | x in list), k, s, e) && e.typ.TypeValue? && e.value == v;
    LiveEntriesAreNewest(list, s, e);
    LiveUpToMembers(list, s, |list|, e);
    i :| 0 <= i < |list| && Live(list, s, i) && list[i] == e;
  }

  /** Where nothing is live between two indices, nothing is stored between their keys ... */
  lemma NoneStoredBetween(list: seq<Entry>, s: nat, c: nat, n: nat)
    requires Sorted(list) && c < |list| && n <= |list| && forall i :: c < i < n ==> !Live(list, s, i)
    ensures forall k, v :: Stores(list, s, k, v) && k > list[c].key ==> n < |list| && list[n].key <= k
  {
    forall k, v | Stores(list, s, k, v) && k > list[c].key
      ensures n < |list| && list[n].key <= k
    {
      var i := StoredIsLive(list, s, k, v);
      if i <= c { KeysAscend(list, i, c); }
      KeysAscend(list, n, i);
    }
  }

  /** ... nor below the first of them, if nothing is live in front of it ... */
  lemma NoneStoredBelow(list: seq<Entry>, s: nat, n: nat)
    requires Sorted(list) && n <= |list| && forall i :: 0 <= i < n ==> !Live(list, s, i)
    ensures forall k, v :: Stores(list, s, k, v) ==> n < |list| && list[n].key <= k
  {
    forall k, v | Stores(list, s, k, v)
      ensures n < |list| && list[n].key <= k
    {
      var i := StoredIsLive(list, s, k, v);
      KeysAscend(list, n, i);
    }
  }

  /** ... nor from `target` on ... */
  lemma NoneStoredUpTo(list: seq<Entry>, s: nat, target: UserKey, n: nat)
    requires Sorted(list) && n <= |list| && forall i :: 0 <= i < n && Live(list, s, i) ==> list[i].key < target
    ensures forall k, v :: Stores(list, s, k, v) && k >= target ==> n < |list| && list[n].key <= k
  {
    forall k, v | Stores(list, s, k, v) && k >= target
      ensures n < |list| && list[n].key <= k
    {
      var i := StoredIsLive(list, s, k, v);
      KeysAscend(list, n, i);
    }
  }

  /** ... nor above the last, going back from index `c`, or from the end. */
  lemma NoneStoredAbove(list: seq<Entry>, s: nat, m: int, c: nat)
    requires Sorted(list) && -1 <= m < |list| && c <= |list| && forall i :: m < i < c ==> !Live(list, s, i)
    ensures forall k, v :: Stores(list, s, k, v) && (c < |list| ==> k < list[c].key) ==> 0 <= m && k <= list[m].key
  {
    forall k, v | Stores(list, s, k, v) && (c < |list| ==> k < list[c].key)
      ensures 0 <= m && k <= list[m].key
    {
      var i := StoredIsLive(list, s, k, v);
      if i >= c { KeysAscend(list, c, i); }
      KeysAscend(list, i, m);
    }
  }

  /** What is before position `q` shares no key with what is behind it. */
  lemma KeysApart(list: seq<Entry>, q: nat)
    requires Sorted(list) && (0 < q < |list| ==> list[q - 1].key < list[q].key)
    ensures forall i, j :: 0 <= i < q <= j < |list| ==> list[i].key != list[j].key
  {
    forall i, j | 0 <= i < q <= j < |list|
      ensures list[i].key != list[j].key
    {
      KeysAscend(list, i, q - 1);
      KeysAscend(list, q, j);
    }
  }

  lemma KeysAscend(list: seq<Entry>, i: nat, j: nat)
    requires Sorted(list) && i <= j < |list|
    ensures list[i].key <= list[j].key
  {
    if i < j { assert Before(list[i], list[j]); }
  }

  /** A visible entry hides the later ones of its key. */
  lemma NewerHides(list: seq<Entry>, s: nat, i: nat, j: nat)
    requires Sorted(list) && i < j && Visible(list, s, i) && Visible(list, s, j) && list[j].key <= list[i].key
    ensures !Live(list, s, j)
  {
    KeysAscend(list, i, j);
  }

  /** Behind a live entry, an entry of a key not above its key is not live. */
  lemma NoneLiveAfter(list: seq<Entry>, s: nat, c: nat, n: nat)
    requires Sorted(list) && Live(list, s, c) && n <= |list|
    requires forall i :: 0 <= i < n && Live(list, s, i) ==> list[i].key <= list[c].key
    ensures forall i :: c < i < n ==> !Live(list, s, i)
  {
    forall i: nat | c < i < n
      ensures !Live(list, s, i)
    {
      if Live(list, s, i) { NewerHides(list, s, c, i); }
    }
  }

  lemma RankNext(list: seq<Entry>, s: nat, c: nat, n: nat)
    requires Live(list, s, c) && c < n <= |list| && forall i :: c < i < n ==> !Live(list, s, i)
    ensures |LiveUpTo(list, s, n)| == |LiveUpTo(list, s, c)| + 1 <= |LiveEntries(list, s)|
  {
    LiveRank(list, s, c);
    LiveSkip(list, s, c + 1, n);
  }

  lemma LiveAscend(list: seq<Entry>, s: nat, i: nat, j: nat)
    requires Sorted(list) && i < j && Live(list, s, i) && Live(list, s, j)
    ensures list[i].key < list[j].key
  {
    KeysAscend(list, i, j);
  }

  ghost predicate NoLive(list: seq<Entry>, s: nat, a: int, b: int) {
    forall i :: a <= i < b ==> !Live(list, s, i)
  }

  /** Entries [c, q) have been scanned backwards; `m` is the least visible one if its value was saved. */
  ghost predicate BackScanned(list: seq<Entry>, s: nat, c: int, q: nat, m: int, typ: ValueType, key: SavedKey,
      value: string) {
    && 0 <= c <= q <= |list|
    && (typ.TypeDeletion? ==> NoLive(list, s, c, q))
    && (typ.TypeValue? ==>
      && c <= m < q && Visible(list, s, m) && list[m].typ.TypeValue?
      && key == Saved(list[m].key) && value == list[m].value
      && (forall i :: c <= i < m ==> !Visible(list, s, i)) && NoLive(list, s, m + 1, q))
  }

  /** One more entry, unless it ends the scan. */
  lemma BackStep(list: seq<Entry>, s: nat, c: int, q: nat, m: int, typ: ValueType, key: SavedKey, value: string)
    requires Sorted(list) && c > 0 && BackScanned(list, s, c, q, m, typ, key, value)
    ensures !Visible(list, s, c - 1) ==> BackScanned(list, s, c - 1, q, m, typ, key, value)
    ensures Visible(list, s, c - 1) && (typ.TypeValue? ==> key.key <= list[c - 1].key) ==>
      && (list[c - 1].typ.TypeDeletion? ==> BackScanned(list, s, c - 1, q, c - 1, TypeDeletion, Cleared, ""))
      && (list[c - 1].typ.TypeValue? ==>
        BackScanned(list, s, c - 1, q, c - 1, TypeValue, Saved(list[c - 1].key), list[c - 1].value))
  {
    if typ.TypeValue? && Visible(list, s, c - 1) && key.key <= list[c - 1].key {
      NewerHides(list, s, c - 1, m);
    }
  }

  /** The least visible entry of those scanned backwards decides its key, once the scan has left that key. */
  lemma LeastVisibleDecides(list: seq<Entry>, s: nat, c: nat, m: nat)
    requires Sorted(list) && c <= m && Visible(list, s, m)
    requires forall i :: c <= i < m ==> !Visible(list, s, i)
    requires c > 0 ==> list[c - 1].key < list[m].key
    ensures Decides(list, s, m)
  {
    forall j: nat | j < m && list[j].key == list[m].key
      ensures list[j].seqno > s
    {
      if j < c {
        KeysAscend(list, j, c - 1);
      } else {
        assert !Visible(list, s, j);
      }
    }
  }

  // ---------- The internal iterator ----------

  /** A merged iterator over memtables and tables.  Past either end it is merely invalid. */
  class InternalIterator {
    const entries: seq<Entry>
    var pos: nat

    constructor (entries: seq<Entry>)
      ensures this.entries == entries && !Valid()
    {
      this.entries := entries;
      pos := |entries|;
    }

    predicate Valid()
      reads this
    {
      pos < |entries|
    }

    function Current(): Entry
      requires Valid()
      reads this
    {
      entries[pos]
    }

    method SeekToFirst()
      modifies this
      ensures pos == 0
    {
      pos := 0;
    }

    method SeekToLast()
      modifies this
      ensures pos == if entries == [] then 0 else |entries| - 1
    {
      pos := if entries == [] then 0 else |entries| - 1;
    }

    method Next()
      requires Valid()
      modifies this
      ensures pos == old(pos) + 1
    {
      pos := pos + 1;
    }

    method Prev()
      requires Valid()
      modifies this
      ensures pos == if old(pos) == 0 then |entries| else old(pos) - 1
    {
      pos := if pos == 0 then |entries| else pos - 1;
    }

    /** Positions at the first entry at or after the internal key (target, tag). */
    method Seek(target: UserKey, tag: nat)
      modifies this
      ensures pos <= |entries|
      ensures forall i :: 0 <= i < pos ==>
        entries[i].key < target || (entries[i].key == target && Tag(entries[i]) > tag)
      ensures Valid() ==> target < Current().key || (target == Current().key && Tag(Current()) <= tag)
    {
      pos := 0;
      while pos < |entries| && (entries[pos].key < target || (entries[pos].key == target && Tag(entries[pos]) > tag))
        invariant pos <= |entries|
        invariant forall i :: 0 <= i < pos ==>
          entries[i].key < target || (entries[i].key == target && Tag(entries[i]) > tag)
      {
        pos := pos + 1;
      }
    }
  }

  // ---------- DBIter ----------

  datatype Direction = Forward | Reverse

  /** The string saved_key_: cleared, a user key, or (during Seek) an internal key. */
  datatype SavedKey = Cleared | Saved(key: UserKey) | SeekTarget(key: UserKey, tag: nat)

  /** Entries before `start` cannot hide one from there on, unless its key is at most the saved one. */
  ghost predicate MayScan(list: seq<Entry>, s: nat, start: nat, skipping0: bool, k0: SavedKey) {
    && Sorted(list)
    && (!skipping0 ==> forall j, i :: 0 <= j < start <= i < |list| && Visible(list, s, j) ==>
      list[j].key != list[i].key)
    && (skipping0 ==>
          && k0.Saved?
          && (forall j :: 0 <= j < start <= |list| ==> list[j].key <= k0.key)
          && (forall j :: start <= j && Visible(list, s, j) ==> k0.key <= list[j].key))
  }

  /** Entries [start, p) have been scanned: the saved key is the greatest visible one among them. */
  ghost predicate Scanned(list: seq<Entry>, s: nat, start: nat, p: nat, skipping0: bool, k0: SavedKey, skipping: bool,
      saved: SavedKey)
    requires p <= |list|
  {
    && MayScan(list, s, start, skipping0, k0)
    && (skipping0 ==> skipping && saved.Saved? && k0.key <= saved.key)
    && (skipping ==> saved.Saved? && ((skipping0 && saved == k0) || HasVisible(list, s, start, p, saved.key)))
    && (forall j :: start <= j < p && Visible(list, s, j) ==> skipping && list[j].key <= saved.key)
    && (forall i :: start <= i < p && Live(list, s, i) ==> skipping0 && list[i].key <= k0.key)
  }

  ghost predicate HasVisible(list: seq<Entry>, s: nat, start: nat, p: nat, key: UserKey) {
    exists j :: start <= j < p && Visible(list, s, j) && list[j].key == key
  }

  /** One entry more: invisible, a deletion, hidden, or the one looked for. */
  lemma ScanStep(list: seq<Entry>, s: nat, start: nat, p: nat, skipping0: bool, k0: SavedKey, skipping: bool,
      saved: SavedKey)
    requires start <= p < |list| && Scanned(list, s, start, p, skipping0, k0, skipping, saved)
    ensures list[p].seqno > s ==> Scanned(list, s, start, p + 1, skipping0, k0, skipping, saved)
    ensures list[p].seqno <= s && list[p].typ.TypeDeletion? ==>
      Scanned(list, s, start, p + 1, skipping0, k0, true, Saved(list[p].key))
    ensures list[p].seqno <= s && list[p].typ.TypeValue? && skipping && list[p].key <= saved.key ==>
      Scanned(list, s, start, p + 1, skipping0, k0, skipping, saved)
    ensures list[p].seqno <= s && list[p].typ.TypeValue? && !(skipping && list[p].key <= saved.key) ==>
      Live(list, s, p) && (skipping0 ==> k0.key < list[p].key)
  {
    forall j | start <= j < p
      ensures list[j].key <= list[p].key
    {
      KeysAscend(list, j, p);
    }
    if list[p].seqno <= s {
      assert Visible(list, s, p);
      if list[p].typ.TypeValue? && skipping && list[p].key <= saved.key {
        HiddenStep(list, s, start, p, skipping0, k0, saved);
      }
    }
  }

  lemma HiddenStep(list: seq<Entry>, s: nat, start: nat, p: nat, skipping0: bool, k0: SavedKey, saved: SavedKey)
    requires start <= p && Visible(list, s, p) && saved.Saved? && list[p].key <= saved.key
    requires Scanned(list, s, start, p, skipping0, k0, true, saved)
    ensures Scanned(list, s, start, p + 1, skipping0, k0, true, saved)
  {
    if HasVisible(list, s, start, p, saved.key) {
      var j :| start <= j < p && Visible(list, s, j) && list[j].key == saved.key;
      KeysAscend(list, j, p);
      assert !Live(list, s, p);
    }
  }

  class DBIter {
    const iter: InternalIterator
    const sequence: nat
    var savedKey: SavedKey
    var savedValue: string
    var direction: Direction
    var valid: bool
    ghost var cur: nat  // index of the entry being yielded, when valid

    ghost predicate Inv()
      reads this, iter
    {
      var list := iter.entries;
      && Sorted(list)
      && iter.pos <= |list|
      && (valid ==> Live(list, sequence, cur))
      && (valid && direction.Forward? ==> iter.pos == cur)
      && (valid && direction.Reverse? ==>
            && savedKey == Saved(list[cur].key)
            && savedValue == list[cur].value
            && (iter.pos == |list| ==> Unseen(0, cur))
            && (iter.pos < |list| ==>
                  iter.pos < cur && Visible(list, sequence, iter.pos)
                  && list[iter.pos].key < list[cur].key && Unseen(iter.pos + 1, cur)))
    }

    /** No entry in [a, b) is visible at the read sequence. */
    ghost predicate Unseen(a: int, b: int)
      reads iter
    {
      forall i :: 0 <= a <= i < b <= |iter.entries| ==> !Visible(iter.entries, sequence, i)
    }

    ghost predicate NoneLive(a: int, b: int)
      reads iter
    {
      forall i :: 0 <= a <= i < b <= |iter.entries| ==> !Live(iter.entries, sequence, i)
    }

    /** Where the iterator stands, as Key and Value report it. */
    ghost function CurrentKey(): UserKey
      requires Inv() && valid
      reads this, iter
    {
      if direction.Forward? then iter.entries[iter.pos].key else savedKey.key
    }

    ghost function CurrentValue(): string
      requires Inv() && valid
      reads this, iter
    {
      if direction.Forward? then iter.entries[iter.pos].value else savedValue
    }

    /** A read of `k` at the sequence of the iterator finds `v`. */
    ghost predicate Stored(k: UserKey, v: string)
      reads iter
    {
      Stores(iter.entries, sequence, k, v)
    }

    lemma Standing()
      requires Inv() && valid
      ensures CurrentKey() == iter.entries[cur].key && CurrentValue() == iter.entries[cur].value
      ensures Stored(CurrentKey(), CurrentValue())
    {
      LiveIsStored(iter.entries, sequence, cur);
    }

    /** The abstract state: which element of the live map the iterator stands on. */
    ghost function Cursor(): PlainCursor
      requires Inv()
      reads this, iter
    {
      var live := LiveEntries(iter.entries, sequence);
      PlainCursor(live, if valid then |LiveUpTo(iter.entries, sequence, cur)| else |live|)
    }

    constructor (iter: InternalIterator, sequence: nat)
      requires Sorted(iter.entries) && iter.pos <= |iter.entries|
      ensures Inv() && this.iter == iter && this.sequence == sequence
      ensures Cursor() == PlainCursor(LiveEntries(iter.entries, sequence), 0).Invalid()
    {
      this.iter := iter;
      this.sequence := sequence;
      savedKey, savedValue, direction, valid := Cleared, "", Forward, false;
    }

    method Valid() returns (b: bool)
      requires Inv()
      ensures b == valid == Cursor().Valid()
    {
      if valid { LiveRank(iter.entries, sequence, cur); }
      b := valid;
    }

    method Key() returns (k: UserKey)
      requires Inv() && valid
      ensures Cursor().Valid() && k == Cursor().live[Cursor().at].key
      ensures k == CurrentKey() && Stored(k, CurrentValue())
    {
      Standing();
      LiveRank(iter.entries, sequence, cur);
      k := if direction.Forward? then iter.Current().key else savedKey.key;
    }

    method Value() returns (v: string)
      requires Inv() && valid
      ensures Cursor().Valid() && v == Cursor().live[Cursor().at].value
      ensures v == CurrentValue() && Stored(CurrentKey(), v)
    {
      Standing();
      LiveRank(iter.entries, sequence, cur);
      v := if direction.Forward? then iter.Current().value else savedValue;
    }

    method FindNextUserEntry(skipping0: bool)
      requires iter.Valid() && direction.Forward?
      requires MayScan(iter.entries, sequence, iter.pos, skipping0, savedKey)
      modifies this, iter
      ensures direction.Forward? && iter.pos <= |iter.entries|
      ensures valid ==> iter.pos == cur && old(iter.pos) <= cur && Live(iter.entries, sequence, cur)
      ensures valid && skipping0 ==> old(savedKey).key < iter.entries[cur].key
      ensures forall i ::
        old(iter.pos) <= i < (if valid then cur else |iter.entries|) && Live(iter.entries, sequence, i) ==>
        skipping0 && iter.entries[i].key <= old(savedKey).key
    {
      var skipping := skipping0;
      ghost var start, k0, list := iter.pos, savedKey, iter.entries;
      while true
        invariant iter.Valid() && start <= iter.pos && direction.Forward?
        invariant Scanned(list, sequence, start, iter.pos, skipping0, k0, skipping, savedKey)
        decreases |list| - iter.pos
      {
        var ikey := iter.Current();
        ScanStep(list, sequence, start, iter.pos, skipping0, k0, skipping, savedKey);
        if ikey.seqno <= sequence {
          match ikey.typ {
            case TypeDeletion =>
              savedKey := Saved(ikey.key);
              skipping := true;
            case TypeValue =>
              if skipping && ikey.key <= savedKey.key {
                // entry hidden
              } else {
                valid := true;
                cur := iter.pos;
                savedKey := Cleared;
                return;
              }
          }
        }
        iter.Next();
        if !iter.Valid() {
          break;
        }
      }
      savedKey := Cleared;
      valid := false;
    }

    /** Entries before `q` are scanned backwards; `q` starts a new user key. */
    method FindPrevUserEntry(ghost q: nat)
      requires Sorted(iter.entries)
      requires direction.Reverse? && q <= |iter.entries|
      requires iter.pos == (if q == 0 then |iter.entries| else q - 1)
      requires forall i, j :: 0 <= i < q <= j < |iter.entries| ==> iter.entries[i].key != iter.entries[j].key
      modifies this, iter
      ensures Inv()
      ensures valid ==> cur < q && NoneLive(cur + 1, q)
      ensures !valid ==> NoneLive(0, q)
    {
      var valueType := TypeDeletion;
      ghost var list := iter.entries;
      ghost var c := q;  // entries [c, q) have been scanned
      ghost var m := q;  // least visible scanned index, if any
      if iter.Valid() {
        while true
          invariant iter.Valid() && direction.Reverse? && 0 < c <= q && iter.pos == c - 1
          invariant BackScanned(list, sequence, c, q, m, valueType, savedKey, savedValue)
          decreases c
        {
          var ikey := iter.Current();
          BackStep(list, sequence, c, q, m, valueType, savedKey, savedValue);
          if ikey.seqno <= sequence {
            if valueType != TypeDeletion && ikey.key < savedKey.key {
              break;
            }
            valueType := ikey.typ;
            if valueType.TypeDeletion? {
              savedKey := Cleared;
              savedValue := "";
            } else {
              savedKey := Saved(ikey.key);
              savedValue := ikey.value;
            }
            m := c - 1;
          }
          iter.Prev();
          c := c - 1;
          if !iter.Valid() {
            break;
          }
        }
      }
      if valueType == TypeDeletion {
        valid := false;
        savedKey := Cleared;
        savedValue := "";
        direction := Forward;
      } else {
        LeastVisibleDecides(list, sequence, c, m);
        valid := true;
        cur := m;
      }
    }

    method Seek(target: UserKey)
      requires Inv()
      modifies this, iter
      ensures Inv() && Cursor() == old(Cursor()).Seek(target)
      ensures valid ==> CurrentKey() >= target && Stored(CurrentKey(), CurrentValue())
      ensures forall k, v :: Stored(k, v) && k >= target ==> valid && CurrentKey() <= k
    {
      direction := Forward;
      savedValue := "";
      savedKey := SeekTarget(target, PackSequenceAndType(sequence, TypeValue));
      iter.Seek(savedKey.key, savedKey.tag);
      ghost var list, p := iter.entries, iter.pos;
      forall i | 0 <= i < p && Live(list, sequence, i)
        ensures list[i].key < target
      {
      }
      if iter.Valid() {
        forall j, i | 0 <= j < p <= i < |list| && Visible(list, sequence, j)
          ensures list[j].key != list[i].key
        {
          KeysAscend(list, p, i);
        }
        FindNextUserEntry(false);
      } else {
        valid := false;
      }
      SeekLands(target);
      NoneStoredUpTo(list, sequence, target, if valid then cur else |list|);
      if valid { Standing(); }
    }

    /** The first live entry at or after `target` has rank LowerBound(target). */
    lemma SeekLands(target: UserKey)
      requires Inv()
      requires forall i :: 0 <= i < (if valid then cur else |iter.entries|) && Live(iter.entries, sequence, i)
                 ==> iter.entries[i].key < target
      requires valid ==> target <= iter.entries[cur].key
      ensures Cursor().at == LowerBound(Cursor().live, target)
    {
      var list := iter.entries;
      var live := LiveEntries(list, sequence);
      var n := if valid then cur else |list|;
      LiveUpToSorted(list, sequence, |list|);
      LivePrefix(list, sequence, n, |list|);
      var at := |LiveUpTo(list, sequence, n)|;
      forall i | 0 <= i < at
        ensures live[i].key < target
      {
        LiveUpToMembers(list, sequence, n, live[i]);
        assert live[i] == LiveUpTo(list, sequence, n)[i];
      }
      if valid { LiveRank(list, sequence, cur); }
    }

    method SeekToFirst()
      requires Inv()
      modifies this, iter
      ensures Inv() && Cursor() == old(Cursor()).SeekToFirst()
      ensures valid ==> Stored(CurrentKey(), CurrentValue())
      ensures forall k, v :: Stored(k, v) ==> valid && CurrentKey() <= k
    {
      direction := Forward;
      savedValue := "";
      iter.SeekToFirst();
      if iter.Valid() {
        FindNextUserEntry(false);
      } else {
        valid := false;
      }
      LiveSkip(iter.entries, sequence, 0, if valid then cur else |iter.entries|);
      NoneStoredBelow(iter.entries, sequence, if valid then cur else |iter.entries|);
      if valid { Standing(); }
    }

    method SeekToLast()
      requires Inv()
      modifies this, iter
      ensures Inv() && Cursor() == old(Cursor()).SeekToLast()
      ensures valid ==> Stored(CurrentKey(), CurrentValue())
      ensures forall k, v :: Stored(k, v) ==> valid && CurrentKey() >= k
    {
      direction := Reverse;
      savedValue := "";
      iter.SeekToLast();
      FindPrevUserEntry(|iter.entries|);
      LandsLast();
    }

    lemma LandsLast()
      requires Inv() && if valid then NoneLive(cur + 1, |iter.entries|) else NoneLive(0, |iter.entries|)
      ensures Cursor() == Cursor().SeekToLast()
      ensures valid ==> Stored(CurrentKey(), CurrentValue())
      ensures forall k, v :: Stored(k, v) ==> valid && CurrentKey() >= k
    {
      NoneStoredAbove(iter.entries, sequence, if valid then cur else -1, |iter.entries|);
      if valid {
        Standing();
        LiveRank(iter.entries, sequence, cur);
        LiveSkip(iter.entries, sequence, cur + 1, |iter.entries|);
      } else {
        LiveSkip(iter.entries, sequence, 0, |iter.entries|);
      }
    }

    method Next()
      requires Inv() && valid
      modifies this, iter
      ensures Inv() && old(Cursor()).Valid() && Cursor() == old(Cursor()).Next()
      ensures valid ==> CurrentKey() > old(CurrentKey()) && Stored(CurrentKey(), CurrentValue())
      ensures forall k, v :: Stored(k, v) && k > old(CurrentKey()) ==> valid && CurrentKey() <= k
    {
      ghost var list, c := iter.entries, cur;
      Standing();
      if direction == Reverse {
        TurnForward();
      } else {
        savedKey := Saved(iter.Current().key);
      }
      MayScanOn(list, c, iter.pos, savedKey);
      FindNextUserEntry(true);
      NextLands(c);
    }

    /** Switching to forward: the internal iterator stands just before the entries of the current key. */
    method TurnForward()
      requires Inv() && valid && direction.Reverse?
      modifies this`direction, iter
      ensures direction.Forward? && iter.Valid() && iter.pos <= cur && savedKey == Saved(iter.entries[cur].key)
      ensures forall i :: 0 <= i < iter.pos ==> iter.entries[i].key < iter.entries[cur].key
      ensures forall i :: iter.pos <= i < cur ==> !Visible(iter.entries, sequence, i)
    {
      direction := Forward;
      if !iter.Valid() {
        iter.SeekToFirst();
      } else {
        ghost var p := iter.pos;
        iter.Next();
        forall i | 0 <= i <= p
          ensures iter.entries[i].key < iter.entries[cur].key
        {
          KeysAscend(iter.entries, i, p);
        }
      }
      if !iter.Valid() {
        assert false;  // the current entry lies ahead
      }
    }

    /** Scanning goes on from the current key, which is skipped. */
    lemma MayScanOn(list: seq<Entry>, c: nat, p: nat, key: SavedKey)
      requires Sorted(list) && p <= c < |list| && key == Saved(list[c].key)
      requires forall i :: p <= i < c ==> !Visible(list, sequence, i)
      ensures MayScan(list, sequence, p, true, key)
    {
      forall j | 0 <= j < |list|
        ensures if j < c then list[j].key <= list[c].key else list[c].key <= list[j].key
      {
        if j < c { KeysAscend(list, j, c); } else { KeysAscend(list, c, j); }
      }
    }

    /** The next live entry has the next rank, and no key is stored before it. */
    lemma NextLands(c: nat)
      requires Inv() && Live(iter.entries, sequence, c) && (valid ==> iter.entries[c].key < iter.entries[cur].key)
      requires forall i :: 0 <= i < (if valid then cur else |iter.entries|) && Live(iter.entries, sequence, i) ==>
        iter.entries[i].key <= iter.entries[c].key
      ensures Cursor().at == |LiveUpTo(iter.entries, sequence, c)| + 1 <= |Cursor().live|
      ensures valid ==> CurrentKey() > iter.entries[c].key && Stored(CurrentKey(), CurrentValue())
      ensures forall k, v :: Stored(k, v) && k > iter.entries[c].key ==> valid && CurrentKey() <= k
    {
      var list, n := iter.entries, if valid then cur else |iter.entries|;
      if valid && cur < c { KeysAscend(list, cur, c); }
      NoneLiveAfter(list, sequence, c, n);
      RankNext(list, sequence, c, n);
      NoneStoredBetween(list, sequence, c, n);
      if valid { Standing(); }
    }

    /** Switching to reverse: back to before all entries of the current key, if there is anything. */
    method ScanBack() returns (found: bool, ghost q: nat)
      requires Inv() && valid && direction.Forward?
      modifies this`savedKey, this`savedValue, this`valid, iter
      ensures found ==> 0 < q <= cur && iter.pos == q - 1 && valid
      ensures found ==> iter.entries[q - 1].key < iter.entries[q].key && iter.entries[q].key == iter.entries[cur].key
      ensures !found ==> !valid && savedKey == Cleared && savedValue == "" && iter.pos == |iter.entries|
      ensures !found ==> forall i :: 0 <= i < cur ==> iter.entries[i].key == iter.entries[cur].key
    {
      ghost var list := iter.entries;
      q := cur;
      savedKey := Saved(iter.Current().key);
      while true
        invariant iter.Valid() && savedKey == Saved(list[cur].key) && valid
        invariant iter.pos == q <= cur && list[q].key == list[cur].key
        decreases q
      {
        iter.Prev();
        if !iter.Valid() {
          valid := false;
          savedKey := Cleared;
          savedValue := "";
          forall i | 0 <= i < cur
            ensures list[i].key == list[cur].key
          {
            KeysAscend(list, 0, i);
            KeysAscend(list, i, cur);
          }
          return false, q;
        }
        if iter.Current().key < savedKey.key {
          break;
        }
        KeysAscend(list, q - 1, cur);
        q := q - 1;
      }
      found := true;
    }

    method Prev()
      requires Inv() && valid
      modifies this, iter
      ensures Inv() && old(Cursor()).Valid() && Cursor() == old(Cursor()).Prev()
      ensures valid ==> CurrentKey() < old(CurrentKey()) && Stored(CurrentKey(), CurrentValue())
      ensures forall k, v :: Stored(k, v) && k < old(CurrentKey()) ==> valid && CurrentKey() >= k
    {
      ghost var list, c := iter.entries, cur;
      Standing();
      LiveRank(list, sequence, c);
      ghost var q := if direction.Forward? then c else if iter.pos == |list| then 0 else iter.pos + 1;
      if direction == Forward {
        var found;
        found, q := ScanBack();
        if !found {
          NotLiveBefore(list, 0, c);
          LiveSkip(list, sequence, 0, c);
          NoneStoredAbove(list, sequence, -1, c);
          return;
        }
        direction := Reverse;
      } else {
        KeyChanges(q);
      }
      KeysApart(list, q);
      forall i | q <= i < c
        ensures !Live(list, sequence, i)
      {
      }
      FindPrevUserEntry(q);
      PrevLands(q, c);
    }

    /** The live entry before has the rank before, and no key is stored between. */
    lemma PrevLands(q: nat, c: nat)
      requires Inv() && q <= c && Live(iter.entries, sequence, c) && NoneLive(q, c)
      requires if valid then cur < q && NoneLive(cur + 1, q) else NoneLive(0, q)
      ensures if valid then Cursor().at + 1 == |LiveUpTo(iter.entries, sequence, c)|
              else |LiveUpTo(iter.entries, sequence, c)| == 0
      ensures valid ==> CurrentKey() < iter.entries[c].key && Stored(CurrentKey(), CurrentValue())
      ensures forall k, v :: Stored(k, v) && k < iter.entries[c].key ==> valid && CurrentKey() >= k
    {
      LivePrefixes(iter.entries, q, c);
      NoneStoredAbove(iter.entries, sequence, if valid then cur else -1, c);
      if valid {
        Standing();
        LiveAscend(iter.entries, sequence, cur, c);
      }
    }

    /** Going in reverse, the internal iterator stands where the key changes. */
    lemma KeyChanges(q: nat)
      requires Inv() && valid && direction.Reverse? && q == if iter.pos == |iter.entries| then 0 else iter.pos + 1
      ensures q <= cur && (0 < q ==> iter.entries[q - 1].key < iter.entries[q].key)
    {
      var list := iter.entries;
      if 0 < q {
        KeysAscend(list, q - 1, q);
        if list[q - 1].key == list[q].key {
          assert Before(list[q - 1], list[q]);
          assert Visible(list, sequence, q);
        }
      }
    }

    /** An entry of a live entry's key in front of it is not live. */
    lemma NotLiveBefore(list: seq<Entry>, a: nat, c: nat)
      requires Live(list, sequence, c) && forall i :: a <= i < c ==> list[i].key == list[c].key
      ensures forall i :: a <= i < c ==> !Live(list, sequence, i)
    {
    }

    lemma LivePrefixes(list: seq<Entry>, q: nat, c: nat)
      requires Inv() && list == iter.entries && q <= c < |list|
      requires Live(list, sequence, c) && NoneLive(q, c)
      requires if valid then cur < q && NoneLive(cur + 1, q) else NoneLive(0, q)
      ensures if valid then |LiveUpTo(list, sequence, cur)| + 1 == |LiveUpTo(list, sequence, c)|
              else |LiveUpTo(list, sequence, c)| == 0
    {
      if valid {
        LiveRank(list, sequence, cur);
        LiveSkip(list, sequence, cur + 1, c);
      } else {
        LiveSkip(list, sequence, 0, c);
      }
    }
  }
}
