/** The multi-version meaning of a LevelDB store.

    Memtables and tables hold entries (user key, sequence, type, value).  At a read sequence `s` the
    newest entry of a key with sequence <= s decides: a value is returned, a deletion hides the key.

    A user key is represented by its rank under the user comparator: only the order of keys is used,
    and every total order on finitely many keys embeds in the integers. */
module MvccStore {
  import opened Wrappers

  const MAX_SEQUENCE_NUMBER := 0xFF_FFFF_FFFF_FFFF

  type UserKey = int

  datatype ValueType = TypeDeletion | TypeValue

  datatype Entry = Entry(key: UserKey, seqno: nat, typ: ValueType, value: string)

  /** The trailer of an internal key: sequence in the high bits, type in the low eight. */
  function PackSequenceAndType(seqno: nat, t: ValueType): nat {
    seqno * 256 + (if t.TypeValue? then 1 else 0)
  }

  function Tag(e: Entry): nat {
    PackSequenceAndType(e.seqno, e.typ)
  }

  /** InternalKeyComparator: user key ascending, then trailer descending. */
  predicate Before(a: Entry, b: Entry) {
    a.key < b.key || (a.key == b.key && Tag(a) > Tag(b))
  }

  predicate Sorted(entries: seq<Entry>) {
    forall i, j :: 0 <= i < j < |entries| ==> Before(entries[i], entries[j])
  }

  /** `e` is the entry that decides key `k` at sequence `s`. */
  ghost predicate IsNewest(es: set<Entry>, k: UserKey, s: nat, e: Entry) {
    && e in es && e.key == k && e.seqno <= s
    && forall f :: f in es && f.key == k && f.seqno <= s ==> Tag(f) <= Tag(e)
  }

  /** Nothing is stored for `k` at or below sequence `s`. */
  ghost predicate Absent(es: set<Entry>, k: UserKey, s: nat) {
    forall f :: f in es && f.key == k ==> f.seqno > s
  }

  /** What a read of `k` at sequence `s` returns: None is LevelDB's NotFound. */
  ghost predicate Reads(es: set<Entry>, k: UserKey, s: nat, r: Option<string>) {
    match r
    case None => Absent(es, k, s) || exists e :: IsNewest(es, k, s, e) && e.typ.TypeDeletion?
    case Some(v) => exists e :: IsNewest(es, k, s, e) && e.typ.TypeValue? && e.value == v
  }

  /** Two entries with the same key and trailer are the same entry. */
  ghost predicate UniqueTags(es: set<Entry>) {
    forall e, f :: e in es && f in es && e.key == f.key && Tag(e) == Tag(f) ==> e == f
  }

  /** Every read has an answer ... */
  lemma {:induction false} NewestExists(es: set<Entry>, k: UserKey, s: nat) returns (r: Option<Entry>)
    ensures r.None? ==> Absent(es, k, s)
    ensures r.Some? ==> IsNewest(es, k, s, r.value)
    decreases es
  {
    if es == {} {
      return None;
    }
    var e :| e in es;
    var rest := es - {e};
    r := NewestExists(rest, k, s);
    assert es == rest + {e};
    if e.key == k && e.seqno <= s && (r.None? || Tag(r.value) < Tag(e)) {
      r := Some(e);
    }
  }

  /** ... and, when trailers are unique per key, only one: `Reads` is a function of (key, sequence). */
  lemma ReadsIsTotalAndUnique(es: set<Entry>, k: UserKey, s: nat)
    requires UniqueTags(es)
    ensures exists r :: Reads(es, k, s, r) && forall q :: Reads(es, k, s, q) ==> q == r
  {
    var n := NewestExists(es, k, s);
    var r := if n.Some? && n.value.typ.TypeValue? then Some(n.value.value) else None;
    assert Reads(es, k, s, r);
    forall q | Reads(es, k, s, q)
      ensures q == r
    {
      if n.Some? {
        assert forall e :: IsNewest(es, k, s, e) ==> e == n.value;
      }
    }
  }
}
