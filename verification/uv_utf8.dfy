/** UTF-8 as libuv's IDNA encoder reads it. */
module Utf8 {
  import opened Bytes

  const INVALID: U32 := 0xFFFF_FFFF  // (unsigned) -1

  predicate IsScalar(c: int) {
    0 <= c < 0xD800 || 0xE000 <= c <= 0x10FFFF
  }

  /** The octets of a code point: section 3 of RFC 3629. */
  function Encode(c: nat): (r: seq<Byte>)
    requires IsScalar(c)
    ensures 1 <= |r| <= 4
  {
    if c < 0x80 then [c]
    else if c < 0x800 then [0xC0 + c / 64, 0x80 + c % 64]
    else if c < 0x10000 then [0xE0 + c / 4096, 0x80 + c / 64 % 64, 0x80 + c % 64]
    else [0xF0 + c / 262144, 0x80 + c / 4096 % 64, 0x80 + c / 64 % 64, 0x80 + c % 64]
  }

  /** One code point of each length. */
  lemma Encoded()
    ensures Encode(0x24) == [0x24] && Encode(0xA3) == [0xC2, 0xA3]
    ensures Encode(0x20AC) == [0xE2, 0x82, 0xAC] && Encode(0x10348) == [0xF0, 0x90, 0x8D, 0x88]
  {
  }

  function EncodeAll(cps: seq<nat>): seq<Byte>
    requires forall c :: c in cps ==> IsScalar(c)
  {
    if cps == [] then [] else Encode(cps[0]) + EncodeAll(cps[1..])
  }

  /** How many bytes the decoder takes, from the first of them. */
  function Units(a: Byte): (n: nat)
    ensures 1 <= n <= 4
  {
    if a < 0xC0 || a > 0xF7 then 1 else if a < 0xE0 then 2 else if a < 0xF0 then 3 else 4
  }

  /** The two top bits of a byte, and the six others. */
  function Top(b: Byte): (t: Byte)
    ensures t < 4 && t * 64 <= b < t * 64 + 64
  {
    if b < 64 then 0 else if b < 128 then 1 else if b < 192 then 2 else 3
  }

  function Low(b: Byte): (n: Byte)
    ensures n == b % 64
  {
    b - 64 * Top(b)
  }

  /** Exclusive or of two-bit numbers. */
  function Xor(x: Byte, y: Byte): Byte
    requires x < 4 && y < 4
  {
    if x == y then 0 else if x == 0 then y else if y == 0 then x else 6 - x - y
  }

  /** The second half of uv__utf8_decode1_slow. */
  function Combine(min: nat, a: nat, b: Byte, c: Byte, d: Byte): (r: U32)
    requires a < 8
    ensures r == INVALID || (IsScalar(r) && r >= min)
  {
    var v := a * 262144 + Low(b) * 4096 + Low(c) * 64 + Low(d);
    if Xor(Xor(Top(b), Top(c)), Top(d)) != 2 then INVALID
    else if v < min || v > 0x10FFFF || 0xD800 <= v <= 0xDFFF then INVALID
    else v
  }

  /** uv__utf8_decode1 before the end of the text: the code point at `p`, or INVALID, and the position after it.  `s`
      is memory: the end is not looked at, so that up to three bytes behind it are read. */
  function Decode1(s: seq<Byte>, p: nat): (r: (U32, nat))
    requires p < |s| && p + Units(s[p]) <= |s|
    ensures r.1 == p + Units(s[p])
    ensures r.0 == INVALID || IsScalar(r.0)
  {
    var a := s[p];
    if a < 128 then (a, p + 1)
    else if a > 0xF7 then (INVALID, p + 1)
    else if a > 0xEF then (Combine(0x10000, a - 0xF0, s[p + 1], s[p + 2], s[p + 3]), p + 4)  // a & 7
    else if a > 0xDF then (Combine(0x800, 0, 0x80 + (a - 0xE0), s[p + 1], s[p + 2]), p + 3)  // a & 15
    else if a > 0xBF then (Combine(0x80, 0, 0x80, 0x80 + (a - 0xC0), s[p + 1]), p + 2)       // a & 31
    else (INVALID, p + 1)
  }

  /** How many bytes the decoder takes where the text ends: the switch then has the case for two bytes at most. */
  function UnitsAtEnd(a: Byte): (n: nat)
    ensures 1 <= n <= 2 && n <= Units(a)
  {
    if 0xBF < a <= 0xF7 then 2 else 1
  }

  /** uv__utf8_decode1 at the end of the text. */
  function DecodeAtEnd(s: seq<Byte>, p: nat): (r: (U32, nat))
    requires p < |s| && p + UnitsAtEnd(s[p]) <= |s|
    ensures r.1 == p + UnitsAtEnd(s[p])
    ensures r.0 == INVALID || IsScalar(r.0)
  {
    var a := s[p];
    if a < 128 then (a, p + 1)
    else if 0xBF < a <= 0xF7 then (Combine(0x80, 0, 0x80, 0x80 + a % 32, s[p + 1]), p + 2)  // a & 31
    else (INVALID, p + 1)
  }

  predicate IsContinuation(b: Byte) {
    0x80 <= b < 0xC0
  }

  /** All bytes after the first look like continuation bytes. */
  predicate Continued(s: seq<Byte>, p: nat, n: nat)
    requires p + n <= |s|
  {
    forall i :: p < i < p + n ==> IsContinuation(s[i])
  }

  /** A number below 2^21 from its six-bit digits. */
  lemma Digits(a: nat, b: nat, c: nat, d: nat, v: nat)
    requires b < 64 && c < 64 && d < 64
    ensures v == a * 262144 + b * 4096 + c * 64 + d <==>
      v / 262144 == a && v / 4096 % 64 == b && v / 64 % 64 == c && v % 64 == d
  {
    var w := a * 262144 + b * 4096 + c * 64 + d;
    assert w / 64 == a * 4096 + b * 64 + c && w / 64 / 64 == a * 64 + b;
    assert w / 4096 == w / 64 / 64 && w / 262144 == w / 64 / 64 / 64;
    assert v / 4096 == v / 64 / 64 && v / 262144 == v / 64 / 64 / 64;
  }

  /** On continuation bytes the test of the top bits passes, and the low six bits are the digits. */
  lemma CombineDigits(min: nat, a: nat, b: Byte, c: Byte, d: Byte)
    requires a < 8 && IsContinuation(b) && IsContinuation(c) && IsContinuation(d)
    ensures var v := a * 262144 + (b - 128) * 4096 + (c - 128) * 64 + (d - 128);
      Combine(min, a, b, c, d) == if v < min || v > 0x10FFFF || 0xD800 <= v <= 0xDFFF then INVALID else v
  {
  }

  lemma DecodeOfEncode(s: seq<Byte>, p: nat, c: nat)
    requires IsScalar(c) && p + |Encode(c)| <= |s| && s[p..p + |Encode(c)|] == Encode(c)
    ensures Units(s[p]) == |Encode(c)| && Decode1(s, p) == (c, p + |Encode(c)|)
  {
    var e := Encode(c);
    assert forall i :: 0 <= i < |e| ==> s[p + i] == e[i];
    assert s[p + 0] == e[0];
    if |e| > 1 { assert s[p + 1] == e[1]; }
    if |e| > 2 { assert s[p + 2] == e[2]; }
    if |e| > 3 { assert s[p + 3] == e[3]; }
    DecodeEncoded(s, p, c);
  }

  /** The bytes of the code point stand at `p`. */
  predicate StandsAt(s: seq<Byte>, p: nat, e: seq<Byte>) {
    p + |e| <= |s| && |e| > 0 && s[p] == e[0]
    && (|e| > 1 ==> s[p + 1] == e[1]) && (|e| > 2 ==> s[p + 2] == e[2]) && (|e| > 3 ==> s[p + 3] == e[3])
  }

  /** The same, on the bytes themselves. */
  lemma DecodeEncoded(s: seq<Byte>, p: nat, c: nat)
    requires IsScalar(c) && StandsAt(s, p, Encode(c))
    ensures Units(s[p]) == |Encode(c)| && Decode1(s, p) == (c, p + |Encode(c)|)
  {
    if c >= 0x10000 {
      DecodeFour(s, p, c);
    } else if c >= 0x800 {
      DecodeThree(s, p, c);
    } else if c >= 0x80 {
      DecodeTwo(s, p, c);
    }
  }

  lemma DecodeFour(s: seq<Byte>, p: nat, c: nat)
    requires IsScalar(c) && c >= 0x10000 && StandsAt(s, p, Encode(c))
    ensures Units(s[p]) == 4 && Decode1(s, p) == (c, p + 4)
  {
    var c0, c1, c2, c3 := c / 262144, c / 4096 % 64, c / 64 % 64, c % 64;
    Digits(c0, c1, c2, c3, c);
    CombineDigits(0x10000, c0, 0x80 + c1, 0x80 + c2, 0x80 + c3);
  }

  lemma DecodeThree(s: seq<Byte>, p: nat, c: nat)
    requires IsScalar(c) && 0x800 <= c < 0x10000 && StandsAt(s, p, Encode(c))
    ensures Units(s[p]) == 3 && Decode1(s, p) == (c, p + 3)
  {
    var c1, c2, c3 := c / 4096 % 64, c / 64 % 64, c % 64;
    Digits(0, c1, c2, c3, c);
    assert c / 4096 == c1 && c1 < 16;
    CombineDigits(0x800, 0, 0x80 + c1, 0x80 + c2, 0x80 + c3);
  }

  lemma DecodeTwo(s: seq<Byte>, p: nat, c: nat)
    requires 0x80 <= c < 0x800 && StandsAt(s, p, Encode(c))
    ensures Units(s[p]) == 2 && Decode1(s, p) == (c, p + 2)
  {
    var c2, c3 := c / 64 % 64, c % 64;
    Digits(0, 0, c2, c3, c);
    assert c / 64 == c2 && c2 < 32;
    CombineDigits(0x80, 0, 0x80, 0x80 + c2, 0x80 + c3);
  }

  /** What is accepted is well-formed exactly when every later byte is a continuation byte: the decoder
      only looks at the exclusive or of their top bits. */
  lemma AcceptedIsWellFormed(s: seq<Byte>, p: nat)
    requires p < |s| && p + Units(s[p]) <= |s| && Decode1(s, p).0 != INVALID
    ensures Continued(s, p, Units(s[p])) <==> s[p..Decode1(s, p).1] == Encode(Decode1(s, p).0)
  {
    var n, c := Units(s[p]), Decode1(s, p).0;
    var e := Encode(c);
    if Continued(s, p, n) {
      if n > 1 { assert IsContinuation(s[p + 1]); }
      if n > 2 { assert IsContinuation(s[p + 2]); }
      if n > 3 { assert IsContinuation(s[p + 3]); }
      EncodeDecoded(s, p);
      assert |s[p..p + n]| == n;
      assert s[p..p + n] == e;
    } else if s[p..p + n] == e {
      LaterBytes(c);
      forall i | p < i < p + n ensures IsContinuation(s[i]) {
        assert s[i] == s[p..p + n][i - p];
      }
    }
  }

  lemma LaterBytes(c: nat)
    requires IsScalar(c)
    ensures forall i :: 0 < i < |Encode(c)| ==> IsContinuation(Encode(c)[i])
  {
  }

  lemma EncodeDecoded(s: seq<Byte>, p: nat)
    requires p < |s| && p + Units(s[p]) <= |s| && Decode1(s, p).0 != INVALID
    requires var n := Units(s[p]);
      && (n > 1 ==> IsContinuation(s[p + 1]))
      && (n > 2 ==> IsContinuation(s[p + 2]))
      && (n > 3 ==> IsContinuation(s[p + 3]))
    ensures var n, e := Units(s[p]), Encode(Decode1(s, p).0);
      && |e| == n && s[p] == e[0]
      && (n > 1 ==> s[p + 1] == e[1])
      && (n > 2 ==> s[p + 2] == e[2])
      && (n > 3 ==> s[p + 3] == e[3])
  {
    var a, c := s[p], Decode1(s, p).0;
    if a > 0xEF {
      CombineDigits(0x10000, a - 0xF0, s[p + 1], s[p + 2], s[p + 3]);
      Digits(a - 0xF0, s[p + 1] - 128, s[p + 2] - 128, s[p + 3] - 128, c);
    } else if a > 0xDF {
      CombineDigits(0x800, 0, 0x80 + (a - 0xE0), s[p + 1], s[p + 2]);
      Digits(0, a - 0xE0, s[p + 1] - 128, s[p + 2] - 128, c);
      assert c / 4096 == a - 0xE0;
    } else if a > 0xBF {
      CombineDigits(0x80, 0, 0x80, 0x80 + (a - 0xC0), s[p + 1]);
      Digits(0, 0, a - 0xC0, s[p + 1] - 128, c);
      assert c / 64 == a - 0xC0;
    }
  }

  lemma MalformedAccepted()
    ensures Decode1([0xE1, 0x41, 0x41], 0) == (0x1041, 3)
    ensures [0xE1, 0x41, 0x41] != Encode(0x1041)
  {
    assert Encode(0x1041) == [0xE1, 0x81, 0x81];
  }

  /** Reading from `p` to `e` gives these code points, INVALID ones among them, and stops at `e`. */
  predicate Decodes(s: seq<Byte>, p: nat, e: nat, cps: seq<U32>)
    decreases |cps|
  {
    if cps == [] then p == e <= |s|
    else p < e <= |s| && p + Units(s[p]) <= e && Decode1(s, p).0 == cps[0] && Decodes(s, Decode1(s, p).1, e, cps[1..])
  }

  /** The first of the code points in well-formed text, and where the others are. */
  lemma FirstEncoded(s: seq<Byte>, p: nat, e: nat, cps: seq<U32>) returns (q: nat)
    requires cps != [] && (forall c :: c in cps ==> IsScalar(c)) && p <= e <= |s| && s[p..e] == EncodeAll(cps)
    ensures p < q <= e && Units(s[p]) == q - p && Decode1(s, p) == (cps[0], q) && s[q..e] == EncodeAll(cps[1..])
  {
    var head := Encode(cps[0]);
    q := p + |head|;
    SliceSplit(s, p, head, EncodeAll(cps[1..]));
    DecodeOfEncode(s, p, cps[0]);
  }

  lemma DecodesCons(s: seq<Byte>, p: nat, q: nat, e: nat, cps: seq<U32>)
    requires cps != [] && p < q <= e <= |s| && Units(s[p]) == q - p
    requires Decode1(s, p) == (cps[0], q) && Decodes(s, q, e, cps[1..])
    ensures Decodes(s, p, e, cps)
  {
  }

  /** Well-formed text decodes to its code points. */
  lemma {:induction false} EncodeAllDecodes(s: seq<Byte>, p: nat, e: nat, cps: seq<U32>)
    requires forall c :: c in cps ==> IsScalar(c)
    requires p <= e <= |s| && s[p..e] == EncodeAll(cps)
    ensures Decodes(s, p, e, cps)
    decreases |cps|
  {
    if cps != [] {
      var q := FirstEncoded(s, p, e, cps);
      EncodeAllDecodes(s, q, e, cps[1..]);
      DecodesCons(s, p, q, e, cps);
    }
  }

  /** One more code point read. */
  lemma {:induction false} DecodesSnoc(s: seq<Byte>, p: nat, e: nat, cps: seq<U32>)
    requires Decodes(s, p, e, cps) && e < |s| && e + Units(s[e]) <= |s|
    ensures Decodes(s, p, Decode1(s, e).1, cps + [Decode1(s, e).0])
    decreases |cps|
  {
    if cps != [] {
      DecodesSnoc(s, Decode1(s, p).1, e, cps[1..]);
      assert (cps + [Decode1(s, e).0])[1..] == cps[1..] + [Decode1(s, e).0];
    }
  }

  /** Memory can be read as far as the decoder goes from any position up to `e`. */
  predicate Readable(s: seq<Byte>, e: nat) {
    e < |s| && e + UnitsAtEnd(s[e]) <= |s| && forall p :: 0 <= p < e ==> p + Units(s[p]) <= |s|
  }

  /** Reading from `p` gives these code points that end by `e`; the next one does not. */
  predicate Reads(s: seq<Byte>, p: nat, e: nat, cps: seq<U32>)
    decreases |cps|
  {
    if cps == [] then p <= e < |s| && p + Units(s[p]) > e
    else p < e < |s| && p + Units(s[p]) <= e && Decode1(s, p).0 == cps[0] && Reads(s, Decode1(s, p).1, e, cps[1..])
  }

  /** Code points up to `q`, where another one starts that does not end by `e`, or where `e` is. */
  lemma {:induction false} DecodesThenReads(s: seq<Byte>, p: nat, q: nat, e: nat, cps: seq<U32>)
    requires Decodes(s, p, q, cps) && q <= e < |s| && q + Units(s[q]) > e
    ensures Reads(s, p, e, cps)
    decreases |cps|
  {
    if cps != [] {
      Ordered(s, Decode1(s, p).1, q, cps[1..]);
      DecodesThenReads(s, Decode1(s, p).1, q, e, cps[1..]);
    }
  }

  /** A code point takes at least one byte. */
  lemma {:induction false} Ordered(s: seq<Byte>, p: nat, e: nat, cps: seq<U32>)
    requires Decodes(s, p, e, cps)
    ensures p + |cps| <= e <= |s|
    decreases |cps|
  {
    if cps != [] {
      Ordered(s, Decode1(s, p).1, e, cps[1..]);
    }
  }
}
