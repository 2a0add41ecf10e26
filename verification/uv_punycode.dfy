/** Punycode by its definition: the decoding procedure of section 6.2 of RFC 3492, and the facts that
    make the encoder's output decode. */
module Punycode {
  import opened Arith
  import opened Bytes
  import opened Wrappers

  const DELIMITER: Byte := 45  // '-'

  /** "abcdefghijklmnopqrstuvwxyz0123456789" */
  function Digit(d: nat): (b: Byte)
    requires d < 36
    ensures b != DELIMITER
  {
    if d < 26 then 97 + d else 22 + d
  }

  /** Small letters and numerals. */
  predicate AreDigits(text: seq<Byte>) {
    forall b :: b in text ==> 97 <= b <= 122 || 48 <= b <= 57
  }

  function DigitValue(b: Byte): Option<nat> {
    if 97 <= b < 123 then Some(b - 97)
    else if 65 <= b < 91 then Some(b - 65)
    else if 48 <= b < 58 then Some(b - 22)
    else None
  }

  /** A digit is read from the character that is written for it, or from the capital letter, and from no other. */
  lemma DigitIsRead(b: Byte, d: nat)
    ensures DigitValue(b) == Some(d) <==> d < 36 && (b == Digit(d) || (d < 26 && b == Digit(d) - 32))
  {
  }

  /** The threshold at weight position `k`, between tmin = 1 and tmax = 26. */
  function Threshold(k: nat, bias: nat): (t: nat)
    ensures 1 <= t <= 26
  {
    if k <= bias + 1 then 1 else if k >= bias + 26 then 26 else k - bias
  }

  /** Section 6.1. */
  function Adapt(delta: nat, numPoints: nat, first: bool): nat
    requires numPoints > 0
  {
    var d := if first then delta / 700 else delta / 2;
    ShareBound(d, numPoints);
    AdaptLoop(d + d / numPoints, 0)
  }

  function AdaptLoop(delta: nat, k: nat): nat {
    if delta > 455 then AdaptLoop(delta / 35, k + 36) else k + 36 * delta / (delta + 38)
  }

  /** Reads one generalized variable-length integer into `i`: its new value and the input left. */
  function ReadInt(input: seq<Byte>, i: nat, w: nat, k: nat, bias: nat): (r: Option<(nat, seq<Byte>)>)
    ensures r.Some? ==> |r.value.1| < |input|
    decreases |input|
  {
    if input == [] then None
    else match DigitValue(input[0])
      case None => None
      case Some(digit) =>
        var t := Threshold(k, bias);
        if digit < t then Some((i + Times(digit, w), input[1..]))
        else ReadInt(input[1..], i + Times(digit, w), Times(w, 36 - t), k + 36, bias)
  }

  datatype State = State(n: nat, i: nat, bias: nat, out: seq<nat>)

  /** The body of the main loop once `i` has been read. */
  function Insert(st: State, i: nat): State
    requires i >= st.i
  {
    var len := |st.out| + 1;
    var n, at := st.n + i / len, i % len;
    State(n, at + 1, Adapt(i - st.i, len, st.i == 0), st.out[..at] + [n] + st.out[at..])
  }

  lemma {:induction false} ReadIntGrows(input: seq<Byte>, i: nat, w: nat, k: nat, bias: nat)
    ensures var r := ReadInt(input, i, w, k, bias); r.Some? ==> r.value.0 >= i
    decreases |input|
  {
    if input != [] && DigitValue(input[0]).Some? {
      var digit := DigitValue(input[0]).value;
      ReadIntGrows(input[1..], i + Times(digit, w), Times(w, 36 - Threshold(k, bias)), k + 36, bias);
    }
  }

  /** The main loop: reads all of `input`. */
  function Extend(input: seq<Byte>, st: State): Option<State>
    decreases |input|
  {
    if input == [] then Some(st)
    else
      var r := ReadInt(input, st.i, 1, 36, st.bias);
      ReadIntGrows(input, st.i, 1, 36, st.bias);
      if r.None? then None else Extend(r.value.1, Insert(st, r.value.0))
  }

  /** The position of the last delimiter, or 0 if there is none. */
  function BasicLength(input: seq<Byte>): (b: nat)
    ensures b <= |input|
  {
    if input == [] then 0
    else if input[|input| - 1] == DELIMITER then |input| - 1
    else BasicLength(input[..|input| - 1])
  }

  function Initial(basic: seq<nat>): State {
    State(128, 0, 72, basic)
  }

  /** Section 6.2. */
  function Decode(input: seq<Byte>): Option<seq<nat>> {
    var b := BasicLength(input);
    if exists k :: 0 <= k < b && input[k] >= 128 then None
    else match Extend(if b > 0 then input[b + 1..] else input, Initial(input[..b]))
      case None => None
      case Some(st) => Some(st.out)
  }

  // ---------- What an encoder writes ----------

  /** The digit written for `q` at threshold `t`, when another one follows, and what is left of `q`. */
  function LowDigit(q: nat, t: nat): (d: nat)
    requires 1 <= t <= 26 && q >= t
    ensures t <= d < 36
  {
    t + (q - t) % (36 - t)
  }

  function Quotient(q: nat, t: nat): (r: nat)
    requires 1 <= t <= 26 && q >= t
    ensures r < q
  {
    QuotientBound(q, t);
    (q - t) / (36 - t)
  }

  lemma QuotientBound(q: nat, t: nat)
    requires 1 <= t <= 26 && q >= t
    ensures 0 <= (q - t) / (36 - t) <= q - t
  {
    ShareBound(q - t, 36 - t);
  }

  /** `q` as a generalized variable-length integer: section 6.3. */
  function WrittenInt(q: nat, k: nat, bias: nat): (r: seq<Byte>)
    ensures |r| > 0 && DELIMITER !in r && AreDigits(r)
    decreases q
  {
    var t := Threshold(k, bias);
    if q < t then [Digit(q)]
    else [Digit(LowDigit(q, t))] + WrittenInt(Quotient(q, t), k + 36, bias)
  }

  lemma Weights(q: nat, t: nat, w: nat)
    requires 1 <= t <= 26 && q >= t
    ensures Times(LowDigit(q, t), w) + Times(Quotient(q, t), Times(w, 36 - t)) == Times(q, w)
  {
    Division(q - t, 36 - t);
    WeightsOf(q, LowDigit(q, t), Quotient(q, t), 36 - t, w);
  }

  lemma WeightsOf(q: nat, low: nat, d: nat, y: nat, w: nat)
    requires q == low + d * y
    ensures low * w + d * (w * y) == q * w
  {
    assert d * (w * y) == (d * y) * w;
    Distribute(low, d * y, w);
  }

  /** One digit is read, another follows. */
  lemma ReadsOneDigit(q: nat, k: nat, bias: nat, i: nat, w: nat, rest: seq<Byte>)
    requires q >= Threshold(k, bias)
    ensures var t := Threshold(k, bias);
      ReadInt(WrittenInt(q, k, bias) + rest, i, w, k, bias) ==
        ReadInt(WrittenInt(Quotient(q, t), k + 36, bias) + rest, i + Times(LowDigit(q, t), w), Times(w, 36 - t),
                k + 36, bias)
  {
    var t := Threshold(k, bias);
    var digit, tail := LowDigit(q, t), WrittenInt(Quotient(q, t), k + 36, bias) + rest;
    var all := WrittenInt(q, k, bias) + rest;
    assert all == [Digit(digit)] + tail;
    assert DigitValue(all[0]) == Some(digit) && all[1..] == tail;
  }

  lemma {:induction false} ReadsWhatIsWritten(q: nat, k: nat, bias: nat, i: nat, w: nat, rest: seq<Byte>)
    ensures ReadInt(WrittenInt(q, k, bias) + rest, i, w, k, bias) == Some((i + Times(q, w), rest))
    decreases q
  {
    var t := Threshold(k, bias);
    if q < t {
      ReadsLastDigit(q, k, bias, i, w, rest);
    } else {
      var next, i', w' := Quotient(q, t), i + Times(LowDigit(q, t), w), Times(w, 36 - t);
      ReadsOneDigit(q, k, bias, i, w, rest);
      ReadsWhatIsWritten(next, k + 36, bias, i', w', rest);
      assert i' + Times(next, w') == i + Times(q, w) by { Weights(q, t, w); }
    }
  }

  lemma ReadsLastDigit(q: nat, k: nat, bias: nat, i: nat, w: nat, rest: seq<Byte>)
    requires q < Threshold(k, bias)
    ensures ReadInt(WrittenInt(q, k, bias) + rest, i, w, k, bias) == Some((i + Times(q, w), rest))
  {
    assert (WrittenInt(q, k, bias) + rest)[1..] == rest;
  }

  lemma {:induction false} ReadIntAppend(a: seq<Byte>, b: seq<Byte>, i: nat, w: nat, k: nat, bias: nat)
    ensures var r := ReadInt(a, i, w, k, bias);
      r.Some? ==> ReadInt(a + b, i, w, k, bias) == Some((r.value.0, r.value.1 + b))
    decreases |a|
  {
    if a != [] && DigitValue(a[0]).Some? {
      assert (a + b)[1..] == a[1..] + b;
      var digit := DigitValue(a[0]).value;
      ReadIntAppend(a[1..], b, i + Times(digit, w), Times(w, 36 - Threshold(k, bias)), k + 36, bias);
    }
  }

  /** One more integer, written with the bias the decoder has reached, is one more insertion. */
  lemma {:induction false} ExtendAppend(a: seq<Byte>, from: State, st: State, q: nat)
    requires Extend(a, from) == Some(st)
    ensures Extend(a + WrittenInt(q, 36, st.bias), from) == Some(Insert(st, st.i + q))
    decreases |a|
  {
    var b := WrittenInt(q, 36, st.bias);
    if a == [] {
      assert a + b == b + [];
      ReadsWhatIsWritten(q, 36, st.bias, st.i, 1, []);
    } else {
      var r := ReadInt(a, from.i, 1, 36, from.bias);
      ReadIntGrows(a, from.i, 1, 36, from.bias);
      ReadIntAppend(a, b, from.i, 1, 36, from.bias);
      ExtendAppend(r.value.1, Insert(from, r.value.0), st, q);
    }
  }

  lemma {:induction false} NoDelimiter(a: seq<Byte>, b: seq<Byte>)
    requires DELIMITER !in b
    ensures BasicLength(a + b) == BasicLength(a)
    decreases |b|
  {
    if b == [] {
      assert a + b == a;
    } else {
      assert (a + b)[..|a + b| - 1] == a + b[..|b| - 1];
      NoDelimiter(a, b[..|b| - 1]);
    }
  }

  /** Basic code points, a delimiter if there are any, and integers: how it is taken apart. */
  lemma DecodeParts(basic: seq<Byte>, digits: seq<Byte>, st: State)
    requires forall b :: b in basic ==> b < 128
    requires DELIMITER !in digits && Extend(digits, Initial(basic)) == Some(st)
    ensures Decode((if basic == [] then [] else basic + [DELIMITER]) + digits) == Some(st.out)
  {
    var head := if basic == [] then [] else basic + [DELIMITER];
    NoDelimiter(head, digits);
    assert BasicLength(head) == |basic|;
    TakenApart(basic, head, digits);
  }

  lemma TakenApart(basic: seq<Byte>, head: seq<Byte>, digits: seq<Byte>)
    requires head == if basic == [] then [] else basic + [DELIMITER]
    ensures var input, b := head + digits, |basic|;
      && input[..b] == basic && (if b > 0 then input[b + 1..] else input) == digits
      && forall k :: 0 <= k < b ==> input[k] in basic
  {
    assert forall k :: 0 <= k < |basic| ==> (head + digits)[k] == basic[k];
  }

  // ---------- Code points in the order they are handled ----------

  /** Code point `c` at index `k` is handled before round `n` reaches index `j`. */
  predicate Handled(c: nat, k: nat, n: nat, j: nat) {
    c < n || (c == n && k < j)
  }

  /** The handled code points, in their order of appearance. */
  function Kept(cps: seq<nat>, n: nat, j: nat): (r: seq<nat>)
    ensures |r| <= |cps|
    ensures forall c :: c in r ==> c <= n && c in cps
  {
    if cps == [] then []
    else
      var k := |cps| - 1;
      Kept(cps[..k], n, j) + (if Handled(cps[k], k, n, j) then [cps[k]] else [])
  }

  /** How many of the first `j` are handled when round `n` is at index `j`. */
  function Ahead(cps: seq<nat>, n: nat, j: nat): nat
    requires j <= |cps|
  {
    |Kept(cps[..j], n, j)|
  }

  lemma {:induction false} KeptSame(cps: seq<nat>, n: nat, j: nat, n': nat, j': nat)
    requires forall k :: 0 <= k < |cps| ==> (Handled(cps[k], k, n, j) <==> Handled(cps[k], k, n', j'))
    ensures Kept(cps, n, j) == Kept(cps, n', j')
  {
    if cps != [] {
      KeptSame(cps[..|cps| - 1], n, j, n', j');
    }
  }

  /** The first `m` code points' handled ones come first. */
  lemma {:induction false} KeptPrefix(cps: seq<nat>, n: nat, j: nat, m: nat)
    requires m <= |cps|
    ensures Kept(cps[..m], n, j) <= Kept(cps, n, j)
  {
    if m < |cps| {
      KeptPrefix(cps[..|cps| - 1], n, j, m);
      assert cps[..|cps| - 1][..m] == cps[..m];
    } else {
      assert cps[..m] == cps;
    }
  }

  lemma {:induction false} KeptAll(cps: seq<nat>, n: nat, j: nat)
    ensures |Kept(cps, n, j)| == |cps| <==> forall k :: 0 <= k < |cps| ==> Handled(cps[k], k, n, j)
    ensures |Kept(cps, n, j)| == |cps| ==> Kept(cps, n, j) == cps
  {
    if cps != [] {
      var k := |cps| - 1;
      KeptAll(cps[..k], n, j);
      OneMoreHandled(cps, n, j);
      assert cps == cps[..k] + [cps[k]];
    }
  }

  lemma OneMoreHandled(cps: seq<nat>, n: nat, j: nat)
    requires cps != []
    ensures var m := |cps| - 1;
      (forall k :: 0 <= k < |cps| ==> Handled(cps[k], k, n, j)) <==>
      (forall k :: 0 <= k < m ==> Handled(cps[..m][k], k, n, j)) && Handled(cps[m], m, n, j)
  {
    var m := |cps| - 1;
    assert forall k :: 0 <= k < m ==> cps[..m][k] == cps[k];
  }

  /** Passing index `j` without a code point to insert. */
  lemma AheadPass(cps: seq<nat>, n: nat, j: nat)
    requires j < |cps| && cps[j] != n
    ensures Kept(cps, n, j + 1) == Kept(cps, n, j)
    ensures Ahead(cps, n, j + 1) == Ahead(cps, n, j) + (if cps[j] < n then 1 else 0)
  {
    KeptSame(cps, n, j, n, j + 1);
    KeptSame(cps[..j], n, j, n, j + 1);
    assert cps[..j + 1][..j] == cps[..j];
  }

  /** Inserting the code point at index `j` puts it right after the handled ones before it. */
  lemma AheadInsert(cps: seq<nat>, n: nat, j: nat)
    requires j < |cps| && cps[j] == n
    ensures var kept, at := Kept(cps, n, j), Ahead(cps, n, j);
      at <= |kept| && Kept(cps, n, j + 1) == kept[..at] + [n] + kept[at..] && Ahead(cps, n, j + 1) == at + 1
  {
    KeptSame(cps[..j], n, j, n, j + 1);
    assert cps[..j + 1][..j] == cps[..j];
    InsertInto(cps, |cps|, n, j);
    assert cps[..|cps|] == cps;
  }

  lemma {:induction false} InsertInto(cps: seq<nat>, m: nat, n: nat, j: nat)
    requires j < m <= |cps| && cps[j] == n
    ensures var kept, at := Kept(cps[..m], n, j), Ahead(cps, n, j);
      at <= |kept| && Kept(cps[..m], n, j + 1) == kept[..at] + [n] + kept[at..]
    decreases m
  {
    assert cps[..m][..m - 1] == cps[..m - 1];
    if m == j + 1 {
      KeptSame(cps[..j], n, j, n, j + 1);
    } else {
      InsertInto(cps, m - 1, n, j);
      var kept, at := Kept(cps[..m - 1], n, j), Ahead(cps, n, j);
      InsertBefore(kept, at, n, if Handled(cps[m - 1], m - 1, n, j) then [cps[m - 1]] else []);
    }
  }

  lemma InsertBefore(kept: seq<nat>, at: nat, n: nat, more: seq<nat>)
    requires at <= |kept|
    ensures kept[..at] + [n] + kept[at..] + more == (kept + more)[..at] + [n] + (kept + more)[at..]
  {
  }

  /** At the end of a round all code points up to `n` are handled: round `n + 1` starts there. */
  lemma RoundDone(cps: seq<nat>, n: nat)
    ensures Kept(cps, n + 1, 0) == Kept(cps, n, |cps|)
    ensures Ahead(cps, n, |cps|) == |Kept(cps, n, |cps|)|
  {
    KeptSame(cps, n + 1, 0, n, |cps|);
    assert cps[..|cps|] == cps;
  }

  /** Rounds without a code point of their own can be skipped. */
  lemma SkipRounds(cps: seq<nat>, n: nat, m: nat)
    requires n <= m && forall c :: c in cps ==> c < n || c >= m
    ensures Kept(cps, n, 0) == Kept(cps, m, 0)
  {
    assert forall k :: 0 <= k < |cps| ==> cps[k] in cps;
    KeptSame(cps, n, 0, m, 0);
  }
}
