/** libuv's conversion of host names to ASCII: each label through Punycode, into a bounded buffer. */
module Idna {
  import opened Arith
  import opened Bytes
  import opened Utf8
  import opened Punycode
  import opened Wrappers
  import Deltas = PunycodeDeltas

  const EINVAL := -22
  const E2BIG := -7
  const MAX: U32 := 0xFFFF_FFFF

  // ---------- The bounded output ----------

  /** Of the output `full`, what fits has been written: the first `d` bytes of the buffer. */
  ghost predicate Wrote(buf: seq<Byte>, d: nat, full: seq<Byte>) {
    d <= |buf| && d <= |full| && buf[..d] == full[..d] && (d == |full| || d == |buf|)
  }

  method Put(dst: array<Byte>, d: nat, b: Byte, ghost full: seq<Byte>) returns (d': nat)
    requires Wrote(dst[..], d, full)
    modifies dst
    ensures Wrote(dst[..], d', full + [b])
  {
    d' := d;
    if d' < dst.Length {
      dst[d'] := b;
      assert dst[..d'] == full[..d];
      d' := d' + 1;
      assert dst[..][..d'] == full[..d] + [b];
    } else {
      assert (full + [b])[..d] == full[..d];
    }
  }

  method PutAll(dst: array<Byte>, d: nat, bytes: seq<Byte>, ghost full: seq<Byte>) returns (d': nat)
    requires Wrote(dst[..], d, full)
    modifies dst
    ensures Wrote(dst[..], d', full + bytes)
  {
    d' := d;
    var i := 0;
    assert full + bytes[..0] == full;
    while i < |bytes|
      invariant i <= |bytes| && Wrote(dst[..], d', full + bytes[..i])
    {
      d' := Put(dst, d', bytes[i], full + bytes[..i]);
      assert full + bytes[..i] + [bytes[i]] == full + bytes[..i + 1];
      i := i + 1;
    }
    assert bytes[..i] == bytes;
  }

  // ---------- Walking the code points of a label ----------

  /** The code points of a label from `lo` to `hi`; the beginning of another one may follow. */
  predicate IsLabel(s: seq<Byte>, lo: nat, hi: nat, cps: seq<U32>) {
    Readable(s, hi) && Reads(s, lo, hi, cps)
  }

  /** From index `j` on they are still to be read. */
  predicate ToGo(s: seq<Byte>, p: nat, hi: nat, cps: seq<U32>, j: nat) {
    j <= |cps| && IsLabel(s, p, hi, cps[j..])
  }

  lemma AllToGo(s: seq<Byte>, lo: nat, hi: nat, cps: seq<U32>)
    requires IsLabel(s, lo, hi, cps)
    ensures ToGo(s, lo, hi, cps, 0)
  {
    assert cps[0..] == cps;
  }

  /** One turn of foreach_codepoint: reads first, and stops when that took it past the end. */
  method NextCodepoint(s: seq<Byte>, p: nat, hi: nat, ghost cps: seq<U32>, ghost j: nat)
    returns (more: bool, c: U32, p': nat)
    requires ToGo(s, p, hi, cps, j)
    ensures more <==> j < |cps|
    ensures more ==> c == cps[j] && p < p' <= hi && ToGo(s, p', hi, cps, j + 1)
  {
    if j < |cps| { assert cps[j..][1..] == cps[j + 1..]; }
    if p < hi {
      c, p' := Decode1(s, p).0, Decode1(s, p).1;
    } else {
      c, p' := DecodeAtEnd(s, p).0, DecodeAtEnd(s, p).1;
    }
    more := p' <= hi;
  }

  /** The first loop: how many ASCII and how many other code points; stops at an invalid one. */
  method CountCodepoints(s: seq<Byte>, lo: nat, hi: nat, ghost cps: seq<U32>) returns (ok: bool, h: nat, todo: nat)
    requires IsLabel(s, lo, hi, cps)
    ensures ok <==> INVALID !in cps
    ensures ok ==> h == |Kept(cps, 128, 0)| && h + todo == |cps|
  {
    h, todo := 0, 0;
    var p := lo;
    ghost var j := 0;
    AllToGo(s, lo, hi, cps);
    while true
      invariant ToGo(s, p, hi, cps, j)
      invariant INVALID !in cps[..j]
      invariant h == |Kept(cps[..j], 128, 0)| && h + todo == j
      decreases hi - p
    {
      var more, c;
      more, c, p := NextCodepoint(s, p, hi, cps, j);
      if !more {
        break;
      }
      assert cps[..j + 1] == cps[..j] + [c];
      assert cps[..j + 1][..j] == cps[..j];
      if c < 128 {
        h := h + 1;
      } else if c == INVALID {
        return false, h, todo;
      } else {
        todo := todo + 1;
      }
      j := j + 1;
    }
    assert cps[..j] == cps;
    ok := true;
  }

  /** The second loop copies the `h` ASCII code points. */
  method CopyAscii(s: seq<Byte>, lo: nat, hi: nat, ghost cps: seq<U32>, h: nat, dst: array<Byte>, d: nat,
      ghost full: seq<Byte>)
    returns (d': nat)
    requires IsLabel(s, lo, hi, cps) && h == |Kept(cps, 128, 0)| && Wrote(dst[..], d, full)
    modifies dst
    ensures Wrote(dst[..], d', full + Basic(cps))
  {
    d' := d;
    var x := 0;
    var p := lo;
    ghost var j, text: seq<Byte> := 0, full;
    assert full + Basic(cps[..0]) == full;
    AllToGo(s, lo, hi, cps);
    while true
      invariant ToGo(s, p, hi, cps, j)
      invariant Copied(cps, j, x, text, full) && Wrote(dst[..], d', text)
      decreases hi - p
    {
      var more, c;
      more, c, p := NextCodepoint(s, p, hi, cps, j);
      if !more {
        break;
      }
      BasicStep(cps, j, x, text, full);
      j := j + 1;
      if c > 127 {
        continue;
      }
      d' := Put(dst, d', c, text);
      text := text + [c];
      x := x + 1;
      if x == h {
        AllCopied(cps, j);
        return;
      }
    }
    assert cps[..j] == cps;
  }

  /** The ASCII code points of a label. */
  function Basic(cps: seq<nat>): (r: seq<Byte>)
    ensures forall b :: b in r ==> b < 128
  {
    KeptBelow(cps);
    var r := Kept(cps, 128, 0);
    assert forall i :: 0 <= i < |r| ==> r[i] in r;
    r
  }

  lemma AllCopied(cps: seq<nat>, j: nat)
    requires j <= |cps| && |Basic(cps[..j])| == |Kept(cps, 128, 0)|
    ensures Basic(cps[..j]) == Basic(cps)
  {
    KeptPrefix(cps, 128, 0, j);
  }

  /** Of the first `j` code points `x` are ASCII, and written behind `full`. */
  ghost predicate Copied(cps: seq<nat>, j: nat, x: nat, text: seq<Byte>, full: seq<Byte>) {
    j <= |cps| && x == |Basic(cps[..j])| && text == full + Basic(cps[..j])
  }

  lemma BasicStep(cps: seq<nat>, j: nat, x: nat, text: seq<Byte>, full: seq<Byte>)
    requires j < |cps| && Copied(cps, j, x, text, full)
    ensures cps[j] >= 128 ==> Copied(cps, j + 1, x, text, full)
    ensures cps[j] < 128 ==> Copied(cps, j + 1, x + 1, text + [cps[j]], full)
  {
    assert cps[..j + 1][..j] == cps[..j];
  }

  lemma {:induction false} KeptBelow(cps: seq<nat>)
    ensures forall c :: c in Kept(cps, 128, 0) ==> c < 128
  {
    if cps != [] {
      KeptBelow(cps[..|cps| - 1]);
    }
  }

  /** The smallest code point not handled yet. */
  method NextSmallest(s: seq<Byte>, lo: nat, hi: nat, ghost cps: seq<U32>, n: U32) returns (m: U32)
    requires IsLabel(s, lo, hi, cps) && INVALID !in cps
    requires exists c :: c in cps && c >= n
    ensures m in cps && m >= n && forall c :: c in cps ==> c < n || c >= m
  {
    m := MAX;
    var p := lo;
    ghost var j := 0;
    AllToGo(s, lo, hi, cps);
    while true
      invariant ToGo(s, p, hi, cps, j)
      invariant forall i :: 0 <= i < j ==> cps[i] < n || cps[i] >= m
      invariant m == MAX || (m in cps && m >= n)
      decreases hi - p
    {
      var more, c;
      more, c, p := NextCodepoint(s, p, hi, cps, j);
      if !more {
        break;
      }
      if c >= n {
        if c < m {
          m := c;
        }
      }
      j := j + 1;
    }
    assert forall c :: c in cps ==> exists i :: 0 <= i < j && cps[i] == c;
  }

  // ---------- One integer and the bias ----------

  method WriteInt(dst: array<Byte>, d: nat, delta: U32, bias: nat, ghost full: seq<Byte>) returns (d': nat)
    requires Wrote(dst[..], d, full)
    modifies dst
    ensures Wrote(dst[..], d', full + WrittenInt(delta, 36, bias))
  {
    d' := d;
    var k: nat, q: U32 := 36, delta;
    ghost var done := full;
    while true
      invariant Wrote(dst[..], d', done)
      invariant done + WrittenInt(q, k, bias) == full + WrittenInt(delta, 36, bias)
      decreases q
    {
      var t := 1;
      if k > bias {
        t := k - bias;
      }
      if t > 26 {
        t := 26;
      }
      assert t == Threshold(k, bias);
      if q < t {
        break;
      }
      WrittenStep(done, q, k, bias);
      ghost var digit, rest := LowDigit(q, t), Quotient(q, t);
      var x, y := q - t, 36 - t;
      q := x / y;
      t := t + x % y;
      assert q == rest && t == digit;
      d' := Put(dst, d', Digit(t), done);
      done := done + [Digit(t)];
      k := k + 36;
    }
    d' := Put(dst, d', Digit(q), done);
  }

  lemma WrittenStep(done: seq<Byte>, q: nat, k: nat, bias: nat)
    requires q >= Threshold(k, bias)
    ensures var t := Threshold(k, bias);
      done + WrittenInt(q, k, bias) == done + [Digit(LowDigit(q, t))] + WrittenInt(Quotient(q, t), k + 36, bias)
  {
  }

  method AdaptBias(delta: U32, h: nat, first: bool) returns (bias: nat)
    requires h > 0
    ensures bias == Adapt(delta, h, first)
  {
    var x: U32 := delta / 2;
    if first {
      x := x / 350;
    }
    assert x == if first then delta / 700 else delta / 2;
    ShareBound(x, h);
    x := x + x / h;
    bias := 0;
    while x > 455
      invariant AdaptLoop(x, bias) == Adapt(delta, h, first)
      decreases x
    {
      x := x / 35;
      bias := bias + 36;
    }
    bias := bias + 36 * x / (x + 38);
  }

  // ---------- Encoder and decoder side by side ----------

  /** The encoder's variables besides `n`. */
  datatype Vars = Vars(delta: nat, h: nat, todo: nat, bias: nat, first: bool)

  /** What they say about a decoder that has read everything written so far: it is in state `st`, and
      `delta` more takes it to code point `n`, position of index `j`. */
  ghost predicate Synced(cps: seq<nat>, n: nat, j: nat, v: Vars, st: State) {
    && j <= |cps|
    && st.out == Kept(cps, n, j) && v.h == |st.out| && v.h + v.todo == |cps|
    && st.bias == v.bias && (v.first <==> st.i == 0) && 128 <= st.n <= n
    && st.n * (v.h + 1) + st.i + v.delta == n * (v.h + 1) + Ahead(cps, n, j)
  }

  /** And no integer written so far takes more than 32 bits. */
  ghost predicate Tracked(cps: seq<nat>, n: nat, j: nat, v: Vars, st: State) {
    Synced(cps, n, j, v, st) && Deltas.Exact(cps, n, j, st.n, st.i)
  }

  ghost predicate Emitted(digits: seq<Byte>, basic: seq<nat>, st: State) {
    AreDigits(digits) && Extend(digits, Initial(basic)) == Some(st)
  }

  /** The variables after a code point has been written. */
  function Inserted(v: Vars): Vars
    requires v.todo > 0
  {
    Vars(0, v.h + 1, v.todo - 1, Adapt(v.delta, v.h + 1, v.first), false)
  }

  lemma InsertStep(cps: seq<nat>, n: nat, j: nat, v: Vars, st: State, digits: seq<Byte>, basic: seq<nat>)
    requires Synced(cps, n, j, v, st) && Emitted(digits, basic, st)
    requires j < |cps| && cps[j] == n
    ensures v.todo > 0
    ensures var next := Insert(st, st.i + v.delta);
      Synced(cps, n, j + 1, Inserted(v), next) && next.n == n && next.i == Ahead(cps, n, j) + 1
    ensures Emitted(digits + WrittenInt(v.delta, 36, v.bias), basic, Insert(st, st.i + v.delta))
  {
    var at := Ahead(cps, n, j);
    AheadInsert(cps, n, j);
    InsertLands(st, v.delta, n, at);
    EmitStep(digits, basic, st, v.delta);
  }

  lemma EmitStep(digits: seq<Byte>, basic: seq<nat>, st: State, q: nat)
    requires Emitted(digits, basic, st)
    ensures Emitted(digits + WrittenInt(q, 36, st.bias), basic, Insert(st, st.i + q))
  {
    ExtendAppend(digits, Initial(basic), st, q);
  }

  /** The decoder, given `q`, inserts code point `n` at position `at`. */
  lemma InsertLands(st: State, q: nat, n: nat, at: nat)
    requires st.n <= n && at <= |st.out|
    requires st.n * (|st.out| + 1) + st.i + q == n * (|st.out| + 1) + at
    ensures Insert(st, st.i + q) ==
      State(n, at + 1, Adapt(q, |st.out| + 1, st.i == 0), st.out[..at] + [n] + st.out[at..])
  {
    Gap(n, st.n, |st.out| + 1, st.i + q, at);
    DivMod(n - st.n, |st.out| + 1, at);
  }

  lemma Gap(n: nat, m: nat, len: nat, i: nat, at: nat)
    requires m <= n && m * len + i == n * len + at
    ensures i == (n - m) * len + at
  {
    Distribute(n, m, len);
  }

  lemma SkipStep(cps: seq<nat>, n: nat, m: nat, v: Vars, st: State)
    requires Synced(cps, n, 0, v, st)
    requires n <= m && forall c :: c in cps ==> c < n || c >= m
    ensures (m - n) * (v.h + 1) >= 0 && Synced(cps, m, 0, v.(delta := v.delta + (m - n) * (v.h + 1)), st)
  {
    SkipRounds(cps, n, m);
    Distribute(m, n, v.h + 1);
    MulMono(n, m, v.h + 1);
    assert Ahead(cps, n, 0) == 0 == Ahead(cps, m, 0);
  }

  lemma PassStep(cps: seq<nat>, n: nat, j: nat, v: Vars, st: State)
    requires Synced(cps, n, j, v, st) && j < |cps| && cps[j] != n
    ensures Synced(cps, n, j + 1, v.(delta := v.delta + (if cps[j] < n then 1 else 0)), st)
  {
    AheadPass(cps, n, j);
  }

  lemma RoundStep(cps: seq<nat>, n: nat, v: Vars, st: State)
    requires Synced(cps, n, |cps|, v, st)
    ensures Synced(cps, n + 1, 0, v.(delta := v.delta + 1), st)
  {
    RoundDone(cps, n);
    assert Ahead(cps, n + 1, 0) == 0;
    Distribute(n, 1, v.h + 1);
  }

  lemma SomeLeft(cps: seq<nat>, n: nat)
    requires |Kept(cps, n, 0)| < |cps|
    ensures exists c :: c in cps && c >= n
  {
    KeptAll(cps, n, 0);
    var k :| 0 <= k < |cps| && !Handled(cps[k], k, n, 0);
    assert cps[k] in cps;
  }

  // ---------- The same, with the integers counted ----------

  lemma SyncedLeads(cps: seq<nat>, n: nat, j: nat, v: Vars, st: State)
    requires Synced(cps, n, j, v, st)
    ensures Deltas.Leads(cps, n, j, st.n, st.i, v.delta)
  {
  }

  lemma TrackInsert(cps: seq<nat>, n: nat, j: nat, v: Vars, st: State, digits: seq<Byte>, basic: seq<nat>)
    requires Tracked(cps, n, j, v, st) && Emitted(digits, basic, st)
    requires j < |cps| && cps[j] == n && v.delta <= MAX
    ensures v.todo > 0 && Tracked(cps, n, j + 1, Inserted(v), Insert(st, st.i + v.delta))
    ensures Emitted(digits + WrittenInt(v.delta, 36, v.bias), basic, Insert(st, st.i + v.delta))
  {
    InsertStep(cps, n, j, v, st, digits, basic);
    SyncedLeads(cps, n, j, v, st);
    Deltas.ExactInsert(cps, n, j, st.n, st.i, v.delta);
  }

  lemma TrackPass(cps: seq<nat>, n: nat, j: nat, v: Vars, st: State)
    requires Tracked(cps, n, j, v, st) && j < |cps| && cps[j] != n
    ensures Tracked(cps, n, j + 1, v.(delta := v.delta + (if cps[j] < n then 1 else 0)), st)
  {
    PassStep(cps, n, j, v, st);
    Deltas.ExactSame(cps, n, j, n, j + 1, st.n, st.i);
  }

  lemma TrackRound(cps: seq<nat>, n: nat, v: Vars, st: State)
    requires Tracked(cps, n, |cps|, v, st)
    ensures Tracked(cps, n + 1, 0, v.(delta := v.delta + 1), st)
  {
    RoundStep(cps, n, v, st);
    Deltas.ExactSame(cps, n, |cps|, n + 1, 0, st.n, st.i);
  }

  lemma TrackSkip(cps: seq<nat>, n: nat, m: nat, v: Vars, st: State)
    requires Tracked(cps, n, 0, v, st)
    requires n <= m && forall c :: c in cps ==> c < n || c >= m
    ensures Tracked(cps, m, 0, v.(delta := v.delta + Times(m - n, v.h + 1)), st)
  {
    SkipStep(cps, n, m, v, st);
    assert forall k :: 0 <= k < |cps| ==> cps[k] in cps;
    Deltas.ExactSame(cps, n, 0, m, 0, st.n, st.i);
  }

  /** More than 32 bits have been counted, and a code point to write is still to come. */
  lemma TooMuch(cps: seq<nat>, n: nat, j: nat, v: Vars, st: State)
    requires Tracked(cps, n, j, v, st) && v.delta > MAX && n in cps[j..]
    ensures Deltas.Overflows(cps)
  {
    SyncedLeads(cps, n, j, v, st);
    Deltas.OverflowsLater(cps, n, j, st.n, st.i, v.delta);
  }

  /** Adds x * y, after a test that no 32-bit value wraps around. */
  method AddProduct(delta: U32, x: U32, y: U32) returns (ok: bool, sum: U32)
    requires y > 0
    ensures ok <==> delta + Times(x, y) <= MAX
    ensures ok ==> sum == delta + Times(x, y)
  {
    var room := MAX - delta;
    Division(room, y);
    if x > room / y {
      MulMono(room / y + 1, x, y);
      Distribute(room / y, 1, y);
      return false, delta;
    }
    MulMono(x, room / y, y);
    return true, delta + x * y;
  }

  // ---------- A label ----------

  /** The ASCII form of a label: itself, or a prefix and what section 6.2 of RFC 3492 decodes to it. */
  ghost predicate IsAscii(cps: seq<U32>, text: seq<Byte>) {
    if forall c :: c in cps ==> c < 128 then text == cps
    else
      && |text| >= 4 && text[..4] == [0x78, 0x6E, 0x2D, 0x2D] && Decode(text[4..]) == Some(cps)
      && Basic(cps) <= text[4..] && IsTail(Basic(cps), text[4..][|Basic(cps)|..])
  }

  /** Behind the ASCII code points, if any, a hyphen, and then small letters and numerals only. */
  predicate IsTail(basic: seq<nat>, tail: seq<Byte>) {
    if basic == [] then AreDigits(tail) else tail != [] && tail[0] == 0x2D && AreDigits(tail[1..])
  }

  const PREFIX: seq<Byte> := [120, 110, 45, 45]  // "xn--"

  /** Writes the code point at index `j`, which is `n`. */
  method WriteCodepoint(ghost cps: seq<U32>, ghost n: U32, ghost j: nat, v: Vars, dst: array<Byte>, d: nat,
                        ghost full: seq<Byte>, ghost digits: seq<Byte>, ghost st: State)
    returns (v': Vars, d': nat, ghost digits': seq<Byte>, ghost st': State)
    requires j < |cps| && cps[j] == n && v.delta <= MAX
    requires Tracked(cps, n, j, v, st) && Emitted(digits, Basic(cps), st)
    requires Wrote(dst[..], d, full + digits)
    modifies dst
    ensures v.todo > 0 && v' == Inserted(v)
    ensures Tracked(cps, n, j + 1, v', st') && Emitted(digits', Basic(cps), st')
    ensures Wrote(dst[..], d', full + digits')
  {
    TrackInsert(cps, n, j, v, st, digits, Basic(cps));
    d' := WriteInt(dst, d, v.delta, v.bias, full + digits);
    Regroup(full, digits, WrittenInt(v.delta, 36, v.bias));
    digits' := digits + WrittenInt(v.delta, 36, v.bias);
    st' := Insert(st, st.i + v.delta);
    var bias := AdaptBias(v.delta, v.h + 1, v.first);
    v' := Vars(0, v.h + 1, v.todo - 1, bias, false);
  }

  /** Within round `n`, which has `before` code points to go at its start. */
  ghost predicate InRound(cps: seq<nat>, n: nat, j: nat, v: Vars, st: State, digits: seq<Byte>, basic: seq<nat>,
      before: nat) {
    && Tracked(cps, n, j, v, st) && Emitted(digits, basic, st) && v.delta <= MAX
    && (if n in cps[..j] then v.delta <= j && v.todo < before else v.todo == before)
  }

  lemma StillToCome(cps: seq<nat>, n: nat, j: nat)
    requires j < |cps| && n in cps && n !in cps[..j] && cps[j] != n
    ensures n in cps[j + 1..]
  {
    assert cps == cps[..j] + [cps[j]] + cps[j + 1..];
  }

  lemma BodyWrites(cps: seq<nat>, n: nat, j: nat, v: Vars, st: State, digits: seq<Byte>, basic: seq<nat>, before: nat)
    requires j < |cps| && cps[j] == n && v.delta == 0 && v.todo < before
    requires Tracked(cps, n, j + 1, v, st) && Emitted(digits, basic, st)
    ensures InRound(cps, n, j + 1, v, st, digits, basic, before)
  {
    assert cps[..j + 1] == cps[..j] + [n];
  }

  lemma SamePrefix(cps: seq<nat>, n: nat, j: nat)
    requires j < |cps| && cps[j] != n
    ensures n in cps[..j + 1] <==> n in cps[..j]
  {
    assert cps[..j + 1] == cps[..j] + [cps[j]];
  }

  lemma BodyPasses(cps: seq<nat>, n: nat, j: nat, v: Vars, st: State, digits: seq<Byte>, basic: seq<nat>, before: nat)
    requires j < |cps| < MAX && cps[j] != n && n in cps && InRound(cps, n, j, v, st, digits, basic, before)
    ensures var next := v.(delta := v.delta + (if cps[j] < n then 1 else 0));
      if next.delta > MAX then Deltas.Overflows(cps) else InRound(cps, n, j + 1, next, st, digits, basic, before)
  {
    SamePrefix(cps, n, j);
    TrackPass(cps, n, j, v, st);
    if cps[j] < n && v.delta == MAX {
      StillToCome(cps, n, j);
      TooMuch(cps, n, j + 1, v.(delta := v.delta + 1), st);
    }
  }

  /** The body of a round: the code point at index `j`. */
  method RoundBody(ghost cps: seq<U32>, n: U32, ghost j: nat, c: U32, v: Vars, dst: array<Byte>, d: nat,
                   ghost full: seq<Byte>, ghost digits: seq<Byte>, ghost st: State, ghost before: nat)
    returns (ok: bool, v': Vars, d': nat, ghost digits': seq<Byte>, ghost st': State)
    requires j < |cps| < MAX && c == cps[j] && n in cps
    requires InRound(cps, n, j, v, st, digits, Basic(cps), before)
    requires Wrote(dst[..], d, full + digits)
    modifies dst
    ensures Wrote(dst[..], d', full + digits')
    ensures ok ==> InRound(cps, n, j + 1, v', st', digits', Basic(cps), before)
    ensures !ok ==> Deltas.Overflows(cps)
  {
    ok, v', d', digits', st' := true, v, d, digits, st;
    if c == n {
      v', d', digits', st' := WriteCodepoint(cps, n, j, v, dst, d, full, digits, st);
      BodyWrites(cps, n, j, v', st', digits', Basic(cps), before);
      return;
    }
    BodyPasses(cps, n, j, v, st, digits, Basic(cps), before);
    if c < n {
      if v.delta == MAX {
        ok := false;
        return;
      }
      v' := v.(delta := v.delta + 1);
    }
  }

  /** One pass over the label: writes every code point equal to `n`. */
  method EncodeRound(s: seq<Byte>, lo: nat, hi: nat, ghost cps: seq<U32>, n: U32, v0: Vars, dst: array<Byte>, d: nat,
                     ghost full: seq<Byte>, ghost digits0: seq<Byte>, ghost st0: State)
    returns (ok: bool, v: Vars, d': nat, ghost digits: seq<Byte>, ghost st: State)
    requires IsLabel(s, lo, hi, cps) && n in cps && |cps| < MAX && v0.todo > 0
    requires InRound(cps, n, 0, v0, st0, digits0, Basic(cps), v0.todo)
    requires Wrote(dst[..], d, full + digits0)
    modifies dst
    ensures Wrote(dst[..], d', full + digits)
    ensures ok ==> InRound(cps, n, |cps|, v, st, digits, Basic(cps), v0.todo) && v.todo < v0.todo && v.delta <= |cps|
    ensures !ok ==> Deltas.Overflows(cps)
  {
    ok, v, d', digits, st := true, v0, d, digits0, st0;
    var p := lo;
    ghost var j := 0;
    AllToGo(s, lo, hi, cps);
    while true
      invariant ToGo(s, p, hi, cps, j) && InRound(cps, n, j, v, st, digits, Basic(cps), v0.todo)
      invariant Wrote(dst[..], d', full + digits)
      decreases hi - p
    {
      var more, c, p';
      more, c, p' := NextCodepoint(s, p, hi, cps, j);
      if !more {
        break;
      }
      ok, v, d', digits, st := RoundBody(cps, n, j, c, v, dst, d', full, digits, st, v0.todo);
      if !ok {
        return;
      }
      p := p';
      j := j + 1;
    }
    RoundEnds(cps, n, j, v, st, digits, Basic(cps), v0.todo);
  }

  lemma RoundEnds(cps: seq<nat>, n: nat, j: nat, v: Vars, st: State, digits: seq<Byte>, basic: seq<nat>, before: nat)
    requires j == |cps| && InRound(cps, n, j, v, st, digits, basic, before) && n in cps
    ensures v.todo < before && v.delta <= |cps|
  {
    assert cps[..|cps|] == cps;
  }

  lemma RoundStarts(cps: seq<nat>, n: nat, v: Vars, st: State)
    requires Tracked(cps, n, 0, v, st) && v.todo > 0
    ensures v.h < |cps| && exists c :: c in cps && c >= n
  {
    SomeLeft(cps, n);
  }

  lemma NextDelta(cps: seq<nat>, n: nat, m: nat, v: Vars, st: State)
    requires Tracked(cps, n, 0, v, st) && n <= m && m in cps && forall c :: c in cps ==> c < n || c >= m
    ensures var next := v.(delta := v.delta + Times(m - n, v.h + 1));
      Tracked(cps, m, 0, next, st) && (next.delta > MAX ==> Deltas.Overflows(cps))
  {
    TrackSkip(cps, n, m, v, st);
    assert cps[0..] == cps;
    var next := v.(delta := v.delta + Times(m - n, v.h + 1));
    if next.delta > MAX { TooMuch(cps, m, 0, next, st); }
  }

  /** Goes to the next code point to write, counting in `delta` what the decoder has to skip. */
  method NextRound(s: seq<Byte>, lo: nat, hi: nat, ghost cps: seq<U32>, n: U32, v: Vars, ghost st: State)
    returns (ok: bool, m: U32, v': Vars)
    requires IsLabel(s, lo, hi, cps) && INVALID !in cps && |cps| < MAX && v.todo > 0 && v.delta <= MAX
    requires forall c :: c in cps ==> IsScalar(c)
    requires Tracked(cps, n, 0, v, st)
    ensures m in cps
    ensures ok ==> Tracked(cps, m, 0, v', st) && v'.delta <= MAX && v'.todo == v.todo
    ensures !ok ==> Deltas.Overflows(cps)
  {
    RoundStarts(cps, n, v, st);
    m := NextSmallest(s, lo, hi, cps, n);
    NextDelta(cps, n, m, v, st);
    var sum;
    ok, sum := AddProduct(v.delta, m - n, v.h + 1);
    v' := v.(delta := if ok then sum else v.delta);
  }

  /** One turn of the main loop. */
  method OneRound(s: seq<Byte>, lo: nat, hi: nat, ghost cps: seq<U32>, n: U32, v: Vars, dst: array<Byte>, d: nat,
                  ghost full: seq<Byte>, ghost digits: seq<Byte>, ghost st: State)
    returns (ok: bool, n': U32, v': Vars, d': nat, ghost digits': seq<Byte>, ghost st': State)
    requires IsLabel(s, lo, hi, cps) && INVALID !in cps && |cps| < MAX && v.todo > 0 && v.delta <= MAX
    requires forall c :: c in cps ==> IsScalar(c)
    requires Tracked(cps, n, 0, v, st) && Emitted(digits, Basic(cps), st)
    requires Wrote(dst[..], d, full + digits)
    modifies dst
    ensures Wrote(dst[..], d', full + digits')
    ensures ok ==>
      && Tracked(cps, n', 0, v', st') && Emitted(digits', Basic(cps), st')
      && v'.todo < v.todo && v'.delta <= MAX
    ensures !ok ==> Deltas.Overflows(cps)
  {
    n', d', digits', st' := n, d, digits, st;
    ok, n', v' := NextRound(s, lo, hi, cps, n, v, st);
    if !ok {
      return;
    }
    assert cps[..0] == [];
    ok, v', d', digits', st' := EncodeRound(s, lo, hi, cps, n', v', dst, d, full, digits, st);
    if !ok {
      return;
    }
    TrackRound(cps, n', v', st');
    v' := v'.(delta := v'.delta + 1);
    n' := n' + 1;
  }

  /** The rounds: writes one integer per code point that is not ASCII. */
  method EncodeRounds(s: seq<Byte>, lo: nat, hi: nat, ghost cps: seq<U32>, h: nat, todo: nat,
                      dst: array<Byte>, d: nat, ghost full: seq<Byte>)
    returns (rc: int, d': nat, ghost digits: seq<Byte>)
    requires IsLabel(s, lo, hi, cps) && INVALID !in cps && |cps| < MAX
    requires h == |Kept(cps, 128, 0)| && h + todo == |cps|
    requires forall c :: c in cps ==> IsScalar(c)
    requires Wrote(dst[..], d, full)
    modifies dst
    ensures (rc == 0 && !Deltas.Overflows(cps)) || (rc == E2BIG && Deltas.Overflows(cps))
    ensures Wrote(dst[..], d', full + digits)
    ensures rc == 0 ==>
      AreDigits(digits) && var r := Extend(digits, Initial(Basic(cps))); r.Some? && r.value.out == cps
  {
    rc, d', digits := 0, d, [];
    var n: U32, v := 128, Vars(0, h, todo, 72, true);
    ghost var st := Initial(Basic(cps));
    assert full + digits == full;
    Deltas.ExactInitially(cps);
    while v.todo > 0
      invariant v.delta <= MAX
      invariant Tracked(cps, n, 0, v, st) && Emitted(digits, Basic(cps), st)
      invariant Wrote(dst[..], d', full + digits)
      decreases v.todo
    {
      var ok;
      ok, n, v, d', digits, st := OneRound(s, lo, hi, cps, n, v, dst, d', full, digits, st);
      if !ok {
        return E2BIG, d', digits;
      }
    }
    KeptAll(cps, n, 0);
    Deltas.AllInserted(cps, n, st.n, st.i);
  }

  /** The prefix, if any, and the ASCII code points. */
  method WriteBasic(s: seq<Byte>, lo: nat, hi: nat, ghost cps: seq<U32>, h: nat, todo: nat,
                    dst: array<Byte>, d: nat, ghost full: seq<Byte>)
    returns (d': nat)
    requires IsLabel(s, lo, hi, cps) && h == |Kept(cps, 128, 0)| && Wrote(dst[..], d, full)
    modifies dst
    ensures Wrote(dst[..], d', full + ((if todo > 0 then PREFIX else []) + Basic(cps)))
  {
    ghost var head := if todo > 0 then PREFIX else [];
    d' := d;
    assert full + [] == full;
    if todo > 0 {
      d' := PutAll(dst, d', PREFIX, full);
    }
    d' := CopyAscii(s, lo, hi, cps, h, dst, d', full + head);
    Regroup(full, head, Basic(cps));
  }

  /** What follows the ASCII code points when there are others: the delimiter, if needed, and the integers. */
  method WriteExtended(s: seq<Byte>, lo: nat, hi: nat, ghost cps: seq<U32>, h: nat, todo: nat,
                       dst: array<Byte>, d: nat, ghost full: seq<Byte>)
    returns (rc: int, d': nat, ghost tail: seq<Byte>)
    requires IsLabel(s, lo, hi, cps) && INVALID !in cps && |cps| < MAX
    requires h == |Kept(cps, 128, 0)| && h + todo == |cps| && Wrote(dst[..], d, full)
    modifies dst
    ensures (rc == 0 && !Deltas.Overflows(cps)) || (rc == E2BIG && Deltas.Overflows(cps))
    ensures Wrote(dst[..], d', full + tail)
    ensures rc == 0 ==> Decode(Basic(cps) + tail) == Some(cps) && IsTail(Basic(cps), tail)
  {
    DecodedAreScalars(s, lo, hi, cps);
    ghost var head := if h > 0 then [DELIMITER] else [];
    assert full + [] == full;
    d' := d;
    if h > 0 {
      d' := Put(dst, d', DELIMITER, full);
    }
    ghost var digits;
    rc, d', digits := EncodeRounds(s, lo, hi, cps, h, todo, dst, d', full + head);
    Regroup(full, head, digits);
    tail := head + digits;
    if rc == 0 {
      assert tail[|head|..] == digits;
      Regroup(Basic(cps), head, digits);
      assert Basic(cps) + head == if Basic(cps) == [] then [] else Basic(cps) + [DELIMITER];
      DecodeParts(Basic(cps), digits, Extend(digits, Initial(Basic(cps))).value);
    }
  }

  /** An invalid code point, an integer of more than 32 bits, or neither. */
  ghost predicate LabelResult(cps: seq<U32>, rc: int) {
    || (rc == EINVAL && INVALID in cps)
    || (rc == E2BIG && INVALID !in cps && Deltas.Overflows(cps))
    || (rc >= 0 && INVALID !in cps && !Deltas.Overflows(cps))
  }

  lemma AsciiFits(cps: seq<nat>)
    requires forall c :: c in cps ==> c < 128
    ensures !Deltas.Overflows(cps)
  {
    assert forall k :: 0 <= k < |cps| ==> cps[k] in cps;
  }

  /** uv__idna_toascii_label. */
  method ToAsciiLabel(s: seq<Byte>, lo: nat, hi: nat, ghost cps: seq<U32>, dst: array<Byte>, d: nat,
      ghost full: seq<Byte>)
    returns (rc: int, d': nat, ghost text: seq<Byte>)
    requires IsLabel(s, lo, hi, cps) && |cps| < MAX && Wrote(dst[..], d, full)
    modifies dst
    ensures Wrote(dst[..], d', full + text)
    ensures rc >= 0 ==> IsAscii(cps, text)
    ensures LabelResult(cps, rc)
  {
    d', text := d, [];
    var ok, h, todo := CountCodepoints(s, lo, hi, cps);
    if !ok {
      assert full + [] == full;
      return EINVAL, d', [];
    }
    d' := WriteBasic(s, lo, hi, cps, h, todo, dst, d', full);
    text := (if todo > 0 then PREFIX else []) + Basic(cps);
    if todo == 0 {
      AllAscii(cps);
      AsciiFits(cps);
      return h, d', text;
    }
    NotAllAscii(cps);
    ghost var tail;
    rc, d', tail := WriteExtended(s, lo, hi, cps, h, todo, dst, d', full + text);
    Regroup(full, text, tail);
    Regroup(PREFIX, Basic(cps), tail);
    text := PREFIX + (Basic(cps) + tail);
    assert text[..4] == PREFIX && text[4..] == Basic(cps) + tail && text[4..][|Basic(cps)|..] == tail;
  }

  lemma {:induction false} DecodedAreScalars(s: seq<Byte>, lo: nat, hi: nat, cps: seq<U32>)
    requires IsLabel(s, lo, hi, cps) && INVALID !in cps
    ensures forall c :: c in cps ==> IsScalar(c)
    decreases |cps|
  {
    if cps != [] {
      assert forall c :: c in cps[1..] ==> c in cps;
      assert cps[0] in cps && forall c :: c in cps ==> c == cps[0] || c in cps[1..];
      DecodedAreScalars(s, Decode1(s, lo).1, hi, cps[1..]);
    }
  }

  lemma AllAscii(cps: seq<nat>)
    requires |Kept(cps, 128, 0)| == |cps|
    ensures (forall c :: c in cps ==> c < 128) && Basic(cps) == cps
  {
    KeptAll(cps, 128, 0);
    forall c | c in cps ensures c < 128 {
      var k :| 0 <= k < |cps| && cps[k] == c;
      assert Handled(cps[k], k, 128, 0);
    }
  }

  lemma NotAllAscii(cps: seq<nat>)
    requires |Kept(cps, 128, 0)| < |cps|
    ensures !forall c :: c in cps ==> c < 128
  {
    SomeLeft(cps, 128);
  }

  // ---------- A host name ----------

  /** The four full stops of IDNA. */
  predicate IsDot(c: U32) {
    c == 0x2E || c == 0x3002 || c == 0xFF0E || c == 0xFF61
  }

  /** The labels between full stops. */
  function Split(cps: seq<U32>): (labels: seq<seq<U32>>)
    ensures |labels| > 0
  {
    if cps == [] then [[]]
    else
      var labels, c := Split(cps[..|cps| - 1]), cps[|cps| - 1];
      var last := |labels| - 1;
      if IsDot(c) then labels + [[]] else labels[..last] + [labels[last] + [c]]
  }

  /** The labels, and a separator between any two of them. */
  function Interleaved(labels: seq<seq<U32>>, dots: seq<U32>): seq<U32>
    requires |labels| == |dots| + 1
  {
    var n := |dots|;
    if n == 0 then labels[0] else Interleaved(labels[..n], dots[..n - 1]) + [dots[n - 1]] + labels[n]
  }

  ghost predicate AreBetween(cps: seq<U32>, labels: seq<seq<U32>>, dots: seq<U32>) {
    && |labels| == |dots| + 1
    && Interleaved(labels, dots) == cps
    && (forall c :: c in dots ==> c == 0x2E || c == 0x3002 || c == 0xFF0E || c == 0xFF61)
    && (forall l, c :: l in labels && c in l ==> c != 0x2E && c != 0x3002 && c != 0xFF0E && c != 0xFF61)
  }

  /** `labels` is `cps` without the full stops, taken apart exactly there. */
  ghost predicate TakenApart(cps: seq<U32>, labels: seq<seq<U32>>) {
    exists dots :: AreBetween(cps, labels, dots)
  }

  lemma {:induction false} SplitTakesApart(cps: seq<U32>)
    ensures TakenApart(cps, Split(cps))
  {
    if cps == [] {
      assert AreBetween(cps, [[]], []);
    } else {
      var n, c := |cps| - 1, cps[|cps| - 1];
      SplitTakesApart(cps[..n]);
      var dots :| AreBetween(cps[..n], Split(cps[..n]), dots);
      assert cps == cps[..n] + [c];
      if IsDot(c) {
        DotBetween(cps[..n], Split(cps[..n]), dots, c);
      } else {
        OneMoreInLast(cps[..n], Split(cps[..n]), dots, c);
      }
    }
  }

  lemma DotBetween(cps: seq<U32>, labels: seq<seq<U32>>, dots: seq<U32>, c: U32)
    requires AreBetween(cps, labels, dots) && IsDot(c)
    ensures AreBetween(cps + [c], labels + [[]], dots + [c])
  {
    var n := |labels|;
    assert (labels + [[]])[..n] == labels && (dots + [c])[..n - 1] == dots;
    assert Interleaved(labels, dots) + [c] + [] == cps + [c];
  }

  lemma OneMoreInLast(cps: seq<U32>, labels: seq<seq<U32>>, dots: seq<U32>, c: U32)
    requires AreBetween(cps, labels, dots) && !IsDot(c)
    ensures var last := |labels| - 1; AreBetween(cps + [c], labels[..last] + [labels[last] + [c]], dots)
  {
    var last := |labels| - 1;
    var more := labels[..last] + [labels[last] + [c]];
    assert more[..last] == labels[..last] && more[last] == labels[last] + [c];
    LastGrows(labels, dots, more, c);
    forall l, x | l in more && x in l
      ensures !IsDot(x)
    {
      if l in labels[..last] { assert l in labels; } else { assert x == c || x in labels[last]; }
    }
  }

  lemma LastGrows(labels: seq<seq<U32>>, dots: seq<U32>, more: seq<seq<U32>>, c: U32)
    requires |more| == |labels| == |dots| + 1 && more[..|dots|] == labels[..|dots|]
    requires more[|dots|] == labels[|dots|] + [c]
    ensures Interleaved(more, dots) == Interleaved(labels, dots) + [c]
  {
  }

  /** There is only one way to take code points apart. */
  lemma {:induction false} OnlyOneWay(cps: seq<U32>, a: seq<seq<U32>>, d: seq<U32>, b: seq<seq<U32>>, e: seq<U32>)
    requires AreBetween(cps, a, d) && AreBetween(cps, b, e)
    ensures a == b && d == e
    decreases |d|
  {
    var m, n := |d|, |e|;
    if m == 0 {
      NoDotWithin(cps, a, b, e);
    } else if n == 0 {
      NoDotWithin(cps, b, a, d);
    } else {
      InFront(cps, a, d);
      InFront(cps, b, e);
      SameEnd(Interleaved(a[..m], d[..m - 1]), d[m - 1], a[m], Interleaved(b[..n], e[..n - 1]), e[n - 1], b[n]);
      OnlyOneWay(Interleaved(a[..m], d[..m - 1]), a[..m], d[..m - 1], b[..n], e[..n - 1]);
      assert a == a[..m] + [a[m]] && b == b[..n] + [b[n]];
      assert d == d[..m - 1] + [d[m - 1]] && e == e[..n - 1] + [e[n - 1]];
    }
  }

  /** What is in front of the last full stop, and that full stop and the last label. */
  lemma InFront(cps: seq<U32>, a: seq<seq<U32>>, d: seq<U32>)
    requires AreBetween(cps, a, d) && d != []
    ensures var m := |d|; AreBetween(Interleaved(a[..m], d[..m - 1]), a[..m], d[..m - 1])
    ensures IsDot(d[|d| - 1]) && d[|d| - 1] in cps && forall c :: c in a[|d|] ==> !IsDot(c)
  {
    var m := |d|;
    assert d[m - 1] in d && a[m] in a;
    assert cps == Interleaved(a[..m], d[..m - 1]) + [d[m - 1]] + a[m];
    FewerLabels(a, a[..m]);
    FewerDots(d, d[..m - 1]);
  }

  lemma FewerLabels(labels: seq<seq<U32>>, few: seq<seq<U32>>)
    requires few <= labels && forall l, c :: l in labels && c in l ==> !IsDot(c)
    ensures forall l, c :: l in few && c in l ==> !IsDot(c)
  {
    assert forall l :: l in few ==> l in labels;
  }

  lemma FewerDots(dots: seq<U32>, few: seq<U32>)
    requires few <= dots && forall c :: c in dots ==> IsDot(c)
    ensures forall c :: c in few ==> IsDot(c)
  {
    assert forall c :: c in few ==> c in dots;
  }

  lemma NoDotWithin(cps: seq<U32>, a: seq<seq<U32>>, b: seq<seq<U32>>, e: seq<U32>)
    requires AreBetween(cps, a, []) && AreBetween(cps, b, e)
    ensures e == [] && a == b
  {
    assert a[0] in a && a[0] == cps;
    if e != [] {
      InFront(cps, b, e);
      assert false;
    }
  }

  /** The last full stop decides. */
  lemma SameEnd(x: seq<U32>, c: U32, l: seq<U32>, y: seq<U32>, d: U32, m: seq<U32>)
    requires x + [c] + l == y + [d] + m && IsDot(c) && IsDot(d)
    requires (forall u :: u in l ==> !IsDot(u)) && (forall u :: u in m ==> !IsDot(u))
    ensures x == y && c == d && l == m
  {
    NotBehind(x, c, l, |y|);
    NotBehind(y, d, m, |x|);
    assert (x + [c] + l)[|x|] == c && (y + [d] + m)[|y|] == d;
    assert (x + [c] + l)[..|x|] == x && (y + [d] + m)[..|y|] == y;
    assert (x + [c] + l)[|x| + 1..] == l && (y + [d] + m)[|y| + 1..] == m;
  }

  lemma NotBehind(x: seq<U32>, c: U32, l: seq<U32>, i: nat)
    requires forall u :: u in l ==> !IsDot(u)
    ensures |x| < i < |x + [c] + l| ==> !IsDot((x + [c] + l)[i])
  {
    if |x| < i < |x + [c] + l| { assert (x + [c] + l)[i] == l[i - |x| - 1]; }
  }

  /** Texts, each followed by a full stop. */
  function Dotted(texts: seq<seq<Byte>>): seq<Byte> {
    if texts == [] then [] else Dotted(texts[..|texts| - 1]) + texts[|texts| - 1] + [46]
  }

  ghost predicate CanConvert(cps: seq<U32>) {
    INVALID !in cps && !Deltas.Overflows(cps)
  }

  ghost predicate Converted(cps: seq<U32>, text: seq<Byte>) {
    IsAscii(cps, text) && CanConvert(cps)
  }

  ghost predicate AllAsciiForms(labels: seq<seq<U32>>, texts: seq<seq<Byte>>) {
    |texts| == |labels| && forall i :: 0 <= i < |labels| ==> Converted(labels[i], texts[i])
  }

  /** The label at `i` is the first that cannot be converted, and why. */
  ghost predicate FailsAt(labels: seq<seq<U32>>, i: nat, rc: int) {
    && i < |labels| && rc < 0 && LabelResult(labels[i], rc)
    && forall k :: 0 <= k < i ==> CanConvert(labels[k])
  }

  /** Why a host name is not converted. */
  ghost predicate Fails(cps: seq<U32>, rc: int) {
    exists i: nat :: FailsAt(Split(cps), i, rc)
  }

  /** The labels that have ended stay. */
  lemma {:induction false} SplitPrefix(cps: seq<U32>, j: nat)
    requires j <= |cps|
    ensures var ended := Split(cps[..j]); |ended| <= |Split(cps)| && ended[..|ended| - 1] <= Split(cps)
  {
    if j < |cps| {
      var ended, before := Split(cps[..j]), Split(cps[..|cps| - 1]);
      SplitPrefix(cps[..|cps| - 1], j);
      assert cps[..|cps| - 1][..j] == cps[..j];
      SplitGrows(cps);
      PrefixChain(ended[..|ended| - 1], before, Split(cps));
    } else {
      assert cps[..j] == cps;
    }
  }

  lemma PrefixChain<T>(a: seq<T>, b: seq<T>, c: seq<T>)
    requires a <= b && |a| < |b| <= |c| && b[..|b| - 1] == c[..|b| - 1]
    ensures a <= c
  {
    assert a == b[..|b| - 1][..|a|] == c[..|b| - 1][..|a|];
  }

  lemma SplitGrows(cps: seq<U32>)
    requires cps != []
    ensures var before := Split(cps[..|cps| - 1]);
      |before| <= |Split(cps)| && before[..|before| - 1] == Split(cps)[..|before| - 1]
  {
  }

  /** All but the full stops are in some label. */
  lemma {:induction false} SplitKeeps(cps: seq<U32>, c: U32)
    requires c in cps && !IsDot(c)
    ensures exists l :: l in Split(cps) && c in l
  {
    var before, labels := cps[..|cps| - 1], Split(cps);
    if c in before {
      SplitKeeps(before, c);
      var i :| 0 <= i < |Split(before)| && c in Split(before)[i];
      assert c in labels[i];
    } else {
      assert c in labels[|labels| - 1];
    }
  }

  lemma {:induction false} SplitContents(cps: seq<U32>)
    ensures forall l, c :: l in Split(cps) && c in l ==> c in cps
    ensures forall l :: l in Split(cps) ==> |l| <= |cps|
  {
    if cps != [] {
      SplitContents(cps[..|cps| - 1]);
    }
  }

  /** The labels that have ended have their ASCII forms; the last one so far goes from `start` to `si`. */
  ghost predicate Halfway(s: seq<Byte>, start: nat, si: nat, labels: seq<seq<U32>>, texts: seq<seq<Byte>>) {
    |labels| > 0 && Decodes(s, start, si, labels[|labels| - 1]) && AllAsciiForms(labels[..|labels| - 1], texts)
  }

  lemma HalfwayOn(s: seq<Byte>, start: nat, si: nat, cps: seq<U32>, j: nat, texts: seq<seq<Byte>>)
    requires j < |cps| && Halfway(s, start, si, Split(cps[..j]), texts)
    requires si < |s| && si + Units(s[si]) <= |s| && Decode1(s, si).0 == cps[j] && !IsDot(cps[j])
    ensures Halfway(s, start, Decode1(s, si).1, Split(cps[..j + 1]), texts)
  {
    var labels := Split(cps[..j]);
    var last := |labels| - 1;
    DecodesSnoc(s, start, si, labels[last]);
    assert cps[..j + 1][..j] == cps[..j];
    assert Split(cps[..j + 1])[..last] == labels[..last];
  }

  lemma HalfwayDot(s: seq<Byte>, start: nat, si: nat, si': nat, cps: seq<U32>, j: nat, texts: seq<seq<Byte>>,
      text: seq<Byte>)
    requires j < |cps| && Halfway(s, start, si, Split(cps[..j]), texts) && IsDot(cps[j]) && si' <= |s|
    requires var labels := Split(cps[..j]); Converted(labels[|labels| - 1], text)
    ensures Halfway(s, si', si', Split(cps[..j + 1]), texts + [text])
  {
    var labels := Split(cps[..j]);
    assert cps[..j + 1][..j] == cps[..j];
    assert Split(cps[..j + 1])[..|labels|] == labels;
    OneMoreForm(labels, texts, text);
  }

  lemma OneMoreForm(labels: seq<seq<U32>>, texts: seq<seq<Byte>>, text: seq<Byte>)
    requires |labels| > 0 && AllAsciiForms(labels[..|labels| - 1], texts) && Converted(labels[|labels| - 1], text)
    ensures AllAsciiForms(labels, texts + [text])
  {
    forall i | 0 <= i < |labels|
      ensures Converted(labels[i], (texts + [text])[i])
    {
      if i < |labels| - 1 { assert Converted(labels[..|labels| - 1][i], texts[i]); }
    }
  }

  lemma DottedSnoc(texts: seq<seq<Byte>>, text: seq<Byte>)
    ensures Dotted(texts + [text]) == Dotted(texts) + text + [46]
  {
    assert (texts + [text])[..|texts|] == texts;
  }

  /** What the loop over a host name hears: its code points, and one that reaches beyond the end if memory there makes
      it a full stop; any other that does is dropped. */
  function Heard(s: seq<Byte>, p: nat, e: nat): (cps: seq<U32>)
    requires Readable(s, e)
    decreases e - p
  {
    if p >= e then []
    else
      var (c, q) := Decode1(s, p);
      if q <= e || IsDot(c) then [c] + Heard(s, q, e) else []
  }

  /** Of a host name that does not end within a code point these are all its code points. */
  lemma {:induction false} HeardAll(s: seq<Byte>, p: nat, e: nat, cps: seq<U32>)
    requires Readable(s, e) && Decodes(s, p, e, cps)
    ensures Heard(s, p, e) == cps
    decreases |cps|
  {
    if cps != [] {
      HeardAll(s, Decode1(s, p).1, e, cps[1..]);
    }
  }

  /** All labels but the last have their ASCII forms; the last one goes from `start` to the end. */
  ghost predicate AtEnd(s: seq<Byte>, start: nat, e: nat, labels: seq<seq<U32>>, texts: seq<seq<Byte>>) {
    && |labels| > 0 && AllAsciiForms(labels[..|labels| - 1], texts)
    && (if start < e then IsLabel(s, start, e, labels[|labels| - 1]) else labels[|labels| - 1] == [])
  }

  /** `j` code points have been heard, up to `si`. */
  ghost predicate Hearing(s: seq<Byte>, e: nat, cps: seq<U32>, start: nat, si: nat, j: nat, texts: seq<seq<Byte>>) {
    && Readable(s, e) && j <= |cps| && cps[j..] == Heard(s, si, e) && start <= si
    && (if si <= e then Halfway(s, start, si, Split(cps[..j]), texts)
        else j == |cps| && AtEnd(s, start, e, Split(cps), texts))
  }

  lemma HalfwayAtEnd(s: seq<Byte>, e: nat, start: nat, q: nat, labels: seq<seq<U32>>, texts: seq<seq<Byte>>)
    requires Readable(s, e) && start <= q <= e && q < |s| && q + Units(s[q]) > e && Halfway(s, start, q, labels, texts)
    ensures AtEnd(s, start, e, labels, texts)
  {
    var last := labels[|labels| - 1];
    if start < e {
      DecodesThenReads(s, start, q, e, last);
    } else {
      Ordered(s, start, q, last);
    }
  }

  /** Not a full stop: one more code point of the label, or the end of it. */
  lemma HearingOn(s: seq<Byte>, e: nat, cps: seq<U32>, start: nat, si: nat, j: nat, texts: seq<seq<Byte>>)
    requires Hearing(s, e, cps, start, si, j, texts) && si < e && !IsDot(Decode1(s, si).0)
    ensures var q := Decode1(s, si).1; Hearing(s, e, cps, start, q, if q <= e then j + 1 else j, texts)
  {
    var q := Decode1(s, si).1;
    if q <= e {
      assert cps[j..][0] == cps[j] && cps[j..][1..] == cps[j + 1..];
      HalfwayOn(s, start, si, cps, j, texts);
    } else {
      assert cps[..j] == cps;
      HalfwayAtEnd(s, e, start, si, Split(cps), texts);
    }
  }

  /** A full stop: the next label starts. */
  lemma HearingDot(s: seq<Byte>, e: nat, cps: seq<U32>, si: nat, j: nat, texts: seq<seq<Byte>>)
    requires Readable(s, e) && j < |cps| && si < e && cps[j..] == Heard(s, si, e) && IsDot(Decode1(s, si).0)
    requires var q := Decode1(s, si).1; Halfway(s, q, q, Split(cps[..j + 1]), texts)
    ensures var q := Decode1(s, si).1; Hearing(s, e, cps, q, q, j + 1, texts)
  {
    var q := Decode1(s, si).1;
    assert cps[j..][1..] == cps[j + 1..];
    if q > e {
      assert cps[..j + 1] == cps;
      Ordered(s, q, q, Split(cps)[|Split(cps)| - 1]);
    }
  }

  lemma HeardDot(s: seq<Byte>, e: nat, cps: seq<U32>, si: nat, j: nat)
    requires Readable(s, e) && j <= |cps| && si < e && cps[j..] == Heard(s, si, e) && IsDot(Decode1(s, si).0)
    ensures j < |cps| && cps[j] == Decode1(s, si).0
  {
    assert cps[j..][0] == Decode1(s, si).0;
  }

  lemma HearingEnds(s: seq<Byte>, e: nat, cps: seq<U32>, start: nat, si: nat, j: nat, texts: seq<seq<Byte>>)
    requires Hearing(s, e, cps, start, si, j, texts) && si >= e
    ensures AtEnd(s, start, e, Split(cps), texts)
  {
    if si == e {
      assert cps[..j] == cps;
      HalfwayAtEnd(s, e, start, e, Split(cps), texts);
    }
  }

  /** A full stop at `st`, which ends at `si`: writes the label before it, and a full stop. */
  method LabelAtDot(s: seq<Byte>, start: nat, st: nat, ghost si: nat, ghost cps: seq<U32>, ghost j: nat,
                    dst: array<Byte>, d: nat, ghost before: seq<seq<Byte>>)
    returns (rc: int, d': nat, ghost texts: seq<seq<Byte>>)
    requires j < |cps| < MAX && IsDot(cps[j]) && si <= |s| && Readable(s, st)
    requires Halfway(s, start, st, Split(cps[..j]), before) && Wrote(dst[..], d, Dotted(before))
    modifies dst
    ensures if rc >= 0 then Halfway(s, si, si, Split(cps[..j + 1]), texts) && Wrote(dst[..], d', Dotted(texts))
            else Fails(cps, rc)
  {
    ghost var current := Split(cps[..j])[|Split(cps[..j])| - 1];
    ghost var text;
    LabelOf(cps, j);
    DecodesThenReads(s, start, st, st, current);
    texts := before;
    rc, d', text := ToAsciiLabel(s, start, st, current, dst, d, Dotted(before));
    if rc < 0 {
      LabelFails(cps, j, rc, before);
    } else {
      d' := Put(dst, d', 46, Dotted(before) + text);
      HalfwayDot(s, start, st, si, cps, j, before, text);
      DottedSnoc(before, text);
      texts := before + [text];
    }
  }

  /** No code point heard is invalid, and no label has an integer of more than 32 bits. */
  ghost predicate AllConvertible(cps: seq<U32>) {
    INVALID !in cps && forall l :: l in Split(cps) ==> !Deltas.Overflows(l)
  }

  /** uv__idna_toascii, on a host name that ends at `se`: writes the ASCII forms of the labels, full stops between them
      and a NUL, as far as the buffer goes. */
  method ToAscii(s: seq<Byte>, se: nat, dst: array<Byte>) returns (rc: int, ghost texts: seq<seq<Byte>>)
    requires Readable(s, se) && |Heard(s, 0, se)| < MAX
    modifies dst
    ensures rc >= 0 ==>
      && |texts| > 0 && AllAsciiForms(Split(Heard(s, 0, se)), texts)
      && Wrote(dst[..], rc, Dotted(texts[..|texts| - 1]) + texts[|texts| - 1] + [0])
    ensures TakenApart(Heard(s, 0, se), Split(Heard(s, 0, se)))
    ensures rc < 0 ==> Fails(Heard(s, 0, se), rc)
    ensures rc >= 0 <==> AllConvertible(Heard(s, 0, se))
  {
    texts := [];
    var d: nat, start: nat, si: nat := 0, 0, 0;
    ghost var cps, j := Heard(s, 0, se), 0;
    SplitTakesApart(cps);
    assert cps[0..] == cps && Split(cps[..0]) == [[]];
    while si < se
      invariant Hearing(s, se, cps, start, si, j, texts)
      invariant Wrote(dst[..], d, Dotted(texts))
      decreases se - si
    {
      var st, c := si, Decode1(s, si).0;
      si := Decode1(s, si).1;
      if !IsDot(c) {
        HearingOn(s, se, cps, start, st, j, texts);
        j := if si <= se then j + 1 else j;
        continue;
      }
      HeardDot(s, se, cps, st, j);
      var r;
      r, d, texts := LabelAtDot(s, start, st, si, cps, j, dst, d, texts);
      if r < 0 {
        FailureIsReal(cps, r);
        return r, texts;
      }
      HearingDot(s, se, cps, st, j, texts);
      start := si;
      j := j + 1;
    }
    HearingEnds(s, se, cps, start, si, j, texts);
    rc, texts := LastLabel(s, start, se, cps, dst, d, texts);
    if rc < 0 { FailureIsReal(cps, rc); } else { AllAreConvertible(cps, texts); }
  }

  lemma FailureIsReal(cps: seq<U32>, rc: int)
    requires Fails(cps, rc)
    ensures !AllConvertible(cps)
  {
    var i: nat :| FailsAt(Split(cps), i, rc);
    SplitContents(cps);
    assert Split(cps)[i] in Split(cps);
  }

  lemma AllAreConvertible(cps: seq<U32>, texts: seq<seq<Byte>>)
    requires AllAsciiForms(Split(cps), texts)
    ensures AllConvertible(cps)
  {
    forall l | l in Split(cps)
      ensures CanConvert(l)
    {
      var i :| 0 <= i < |Split(cps)| && Split(cps)[i] == l;
      assert Converted(Split(cps)[i], texts[i]);
    }
    if INVALID in cps { SplitKeeps(cps, INVALID); }
  }

  lemma LabelOf(cps: seq<U32>, j: nat)
    requires j <= |cps|
    ensures var labels := Split(cps[..j]);
      && |labels[|labels| - 1]| <= |cps|
      && (j == |cps| || IsDot(cps[j]) ==> labels <= Split(cps))
  {
    var labels := Split(cps[..j]);
    SplitContents(cps[..j]);
    assert labels[|labels| - 1] in labels;
    if j == |cps| {
      assert cps[..j] == cps;
    } else if IsDot(cps[j]) {
      assert cps[..j + 1][..j] == cps[..j];
      SplitPrefix(cps, j + 1);
    }
  }

  lemma LabelFails(cps: seq<U32>, j: nat, rc: int, before: seq<seq<Byte>>)
    requires j <= |cps| && (j == |cps| || IsDot(cps[j])) && rc < 0
    requires var labels := Split(cps[..j]);
      LabelResult(labels[|labels| - 1], rc) && AllAsciiForms(labels[..|labels| - 1], before)
    ensures Fails(cps, rc)
  {
    var labels := Split(cps[..j]);
    LabelOf(cps, j);
    forall k | 0 <= k < |labels| - 1
      ensures CanConvert(Split(cps)[k])
    {
      assert Converted(labels[..|labels| - 1][k], before[k]);
    }
    assert FailsAt(Split(cps), |labels| - 1, rc);
  }

  /** What follows the last full stop, and the NUL. */
  method LastLabel(s: seq<Byte>, start: nat, se: nat, ghost cps: seq<U32>, dst: array<Byte>, d: nat,
      ghost before: seq<seq<Byte>>)
    returns (rc: int, ghost texts: seq<seq<Byte>>)
    requires |cps| < MAX && AtEnd(s, start, se, Split(cps), before) && Wrote(dst[..], d, Dotted(before))
    modifies dst
    ensures rc >= 0 ==>
      && |texts| > 0 && AllAsciiForms(Split(cps), texts)
      && Wrote(dst[..], rc, Dotted(texts[..|texts| - 1]) + texts[|texts| - 1] + [0])
    ensures rc < 0 ==> Fails(cps, rc)
  {
    ghost var current := Split(cps)[|Split(cps)| - 1];
    assert cps[..|cps|] == cps;
    LabelOf(cps, |cps|);
    var d' := d;
    ghost var text := [];
    assert Dotted(before) + [] == Dotted(before);
    if start < se {
      var r;
      r, d', text := ToAsciiLabel(s, start, se, current, dst, d', Dotted(before));
      if r < 0 {
        LabelFails(cps, |cps|, r, before);
        return r, before;
      }
    } else {
      AsciiFits(current);
    }
    d' := Put(dst, d', 0, Dotted(before) + text);
    OneMoreForm(Split(cps), before, text);
    texts := before + [text];
    assert texts[..|texts| - 1] == before;
    rc := d';
  }
}
