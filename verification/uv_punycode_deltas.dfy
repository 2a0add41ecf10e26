/** The integers of a Punycode text, by the code points they stand for: section 6.3 of RFC 3492, without limit. */
module PunycodeDeltas {
  import opened Arith
  import opened Punycode

  const MAX_DELTA := 0xFFFF_FFFF

  /** The code point at `k` is not ASCII, and handled before round `n` reaches index `j`. */
  predicate Inserted(cps: seq<nat>, n: nat, j: nat, k: int) {
    0 <= k < |cps| && cps[k] >= 128 && Handled(cps[k], k, n, j)
  }

  /** `k` is the last of those. */
  ghost predicate IsLatest(cps: seq<nat>, n: nat, j: nat, k: int) {
    Inserted(cps, n, j, k) && forall l :: Inserted(cps, n, j, l) ==> l == k || Handled(cps[l], l, cps[k], k)
  }

  /** Where a decoder is that has inserted them: code point `m`, position `i`. */
  ghost predicate IsReached(cps: seq<nat>, n: nat, j: nat, m: nat, i: nat) {
    if exists k :: Inserted(cps, n, j, k) then
      exists k :: IsLatest(cps, n, j, k) && m == cps[k] && i == Ahead(cps, cps[k], k) + 1
    else m == 128 && i == 0
  }

  lemma ReachedIsUnique(cps: seq<nat>, n: nat, j: nat, m: nat, i: nat, m': nat, i': nat)
    requires IsReached(cps, n, j, m, i) && IsReached(cps, n, j, m', i')
    ensures m == m' && i == i'
  {
  }

  /** `delta` takes a decoder from `m` and `i` to code point `n` at the position of index `j`. */
  predicate Leads(cps: seq<nat>, n: nat, j: nat, m: nat, i: nat, delta: nat)
    requires j <= |cps|
  {
    var len := |Kept(cps, n, j)| + 1;
    Times(m, len) + i + delta == Times(n, len) + Ahead(cps, n, j)
  }

  /** The integer for the code point at `k`. */
  ghost predicate IsDelta(cps: seq<nat>, k: int, q: nat) {
    && 0 <= k < |cps| && cps[k] >= 128
    && exists m: nat, i: nat :: IsReached(cps, cps[k], k, m, i) && Leads(cps, cps[k], k, m, i, q)
  }

  /** Some integer of the text takes more than 32 bits. */
  ghost predicate Overflows(cps: seq<nat>) {
    exists k, q: nat :: IsDelta(cps, k, q) && q > MAX_DELTA
  }

  /** Those that have been inserted do not. */
  ghost predicate AllFit(cps: seq<nat>, n: nat, j: nat) {
    forall k, q: nat :: Inserted(cps, n, j, k) && IsDelta(cps, k, q) ==> q <= MAX_DELTA
  }

  /** The decoder is at `m` and `i`, and has been given no integer that is too large. */
  ghost predicate Exact(cps: seq<nat>, n: nat, j: nat, m: nat, i: nat) {
    IsReached(cps, n, j, m, i) && AllFit(cps, n, j)
  }

  lemma ExactInitially(cps: seq<nat>)
    ensures Exact(cps, 128, 0, 128, 0)
  {
  }

  lemma ExactSame(cps: seq<nat>, n: nat, j: nat, n': nat, j': nat, m: nat, i: nat)
    requires Exact(cps, n, j, m, i)
    requires forall k :: Inserted(cps, n, j, k) <==> Inserted(cps, n', j', k)
    ensures Exact(cps, n', j', m, i)
  {
    assert forall k :: IsLatest(cps, n, j, k) <==> IsLatest(cps, n', j', k);
  }

  lemma DeltaIsUnique(cps: seq<nat>, k: nat, m: nat, i: nat, q: nat, r: nat)
    requires k < |cps| && IsReached(cps, cps[k], k, m, i) && Leads(cps, cps[k], k, m, i, q) && IsDelta(cps, k, r)
    ensures q == r
  {
    var m': nat, i': nat :| IsReached(cps, cps[k], k, m', i') && Leads(cps, cps[k], k, m', i', r);
    ReachedIsUnique(cps, cps[k], k, m, i, m', i');
  }

  /** One more insertion. */
  lemma ExactInsert(cps: seq<nat>, n: nat, j: nat, m: nat, i: nat, delta: nat)
    requires j < |cps| && cps[j] == n >= 128 && Exact(cps, n, j, m, i)
    requires Leads(cps, n, j, m, i, delta) && delta <= MAX_DELTA
    ensures Exact(cps, n, j + 1, n, Ahead(cps, n, j) + 1)
  {
    assert IsLatest(cps, n, j + 1, j);
    forall k, q: nat | Inserted(cps, n, j + 1, k) && IsDelta(cps, k, q)
      ensures q <= MAX_DELTA
    {
      if k == j {
        DeltaIsUnique(cps, j, m, i, delta, q);
      } else {
        assert Inserted(cps, n, j, k);
      }
    }
  }

  lemma LeadsOn(cps: seq<nat>, n: nat, j: nat, m: nat, i: nat, delta: nat)
    requires j < |cps| && cps[j] != n && Leads(cps, n, j, m, i, delta)
    ensures Leads(cps, n, j + 1, m, i, delta + (if cps[j] < n then 1 else 0))
  {
    AheadPass(cps, n, j);
  }

  /** Once too much is counted, it is too much for the next code point of the round. */
  lemma {:induction false} OverflowsLater(cps: seq<nat>, n: nat, j: nat, m: nat, i: nat, delta: nat)
    requires j <= |cps| && n >= 128 && Exact(cps, n, j, m, i) && Leads(cps, n, j, m, i, delta)
    requires delta > MAX_DELTA && n in cps[j..]
    ensures Overflows(cps)
    decreases |cps| - j
  {
    if cps[j] == n {
      assert IsDelta(cps, j, delta);
    } else {
      LeadsOn(cps, n, j, m, i, delta);
      ExactSame(cps, n, j, n, j + 1, m, i);
      OverflowsLater(cps, n, j + 1, m, i, delta + (if cps[j] < n then 1 else 0));
    }
  }

  /** All are inserted, and none was too large. */
  lemma AllInserted(cps: seq<nat>, n: nat, m: nat, i: nat)
    requires Exact(cps, n, 0, m, i) && |Kept(cps, n, 0)| == |cps|
    ensures !Overflows(cps)
  {
    KeptAll(cps, n, 0);
    forall k, q: nat | IsDelta(cps, k, q)
      ensures q <= MAX_DELTA
    {
      assert Inserted(cps, n, 0, k);
    }
  }

  /** Only for labels longer than 3855 code points. */
  lemma OverflowsOnlyLong(cps: seq<nat>)
    requires Overflows(cps) && forall c :: c in cps ==> c <= 0x10FFFF
    ensures |cps| > 3855
  {
    var k, q: nat :| IsDelta(cps, k, q) && q > MAX_DELTA;
    DeltaBound(cps, k, q);
  }

  lemma NotAllKept(cps: seq<nat>, k: nat)
    requires k < |cps|
    ensures |Kept(cps, cps[k], k)| < |cps|
  {
    KeptAll(cps, cps[k], k);
    assert !Handled(cps[k], k, cps[k], k);
  }

  lemma DeltaBound(cps: seq<nat>, k: nat, q: nat)
    requires IsDelta(cps, k, q) && forall c :: c in cps ==> c <= 0x10FFFF
    ensures q <= 0x110000 * |cps|
  {
    var m: nat, i: nat :| IsReached(cps, cps[k], k, m, i) && Leads(cps, cps[k], k, m, i, q);
    var len := |Kept(cps, cps[k], k)| + 1;
    NotAllKept(cps, k);
    assert cps[k] in cps;
    MulMono(cps[k], 0x10FFFF, len);
    assert Times(cps[k], len) <= 0x10FFFF * len;
  }
}
