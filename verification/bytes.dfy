/** Bytes and little-endian integers. */
module Bytes {
  import opened Arith

  type Byte = b: nat | b < 256
  type U32 = x: nat | x < 0x1_0000_0000

  /** Two pieces next to each other in `s`. */
  lemma SliceSplit<T>(s: seq<T>, p: nat, a: seq<T>, b: seq<T>)
    requires p + |a| + |b| <= |s| && s[p..p + |a| + |b|] == a + b
    ensures s[p..p + |a|] == a && s[p + |a|..p + |a| + |b|] == b
  {
    var all := s[p..p + |a| + |b|];
    assert s[p..p + |a|] == all[..|a|];
    assert s[p + |a|..p + |a| + |b|] == all[|a|..];
  }

  lemma Regroup<T>(a: seq<T>, b: seq<T>, c: seq<T>)
    ensures a + (b + c) == a + b + c
  {
  }

  /** 256^n. */
  function Pow256(n: nat): (r: nat)
    ensures r > 0
  {
    if n == 0 then 1 else 256 * Pow256(n - 1)
  }

  /** The `n` low bytes of `v`, least significant first (EncodeFixed32, EncodeFixed64). */
  function EncodeFixed(v: nat, n: nat): (r: seq<Byte>)
    ensures |r| == n
  {
    if n == 0 then [] else [v % 256] + EncodeFixed(v / 256, n - 1)
  }

  function DecodeFixed(b: seq<Byte>): nat {
    if b == [] then 0 else b[0] + 256 * DecodeFixed(b[1..])
  }

  /** Byte `k` has the weight 256^k. */
  lemma {:induction false} EncodedByte(v: nat, n: nat, k: nat)
    requires k < n
    ensures EncodeFixed(v, n)[k] == v / Pow256(k) % 256
    decreases n
  {
    if k > 0 {
      EncodedByte(v / 256, n - 1, k - 1);
      DivideTwice(v, Pow256(k - 1));
    }
  }

  lemma DivideTwice(v: nat, p: nat)
    requires p > 0
    ensures v / 256 / p == v / (256 * p)
  {
    var a, b, r := v / 256 / p, v / 256 % p, v % 256;
    Division(v / 256, p);
    assert v == 256 * (a * p + b) + r;
    Scale(a, p, b, r);
    DivMod(a, 256 * p, 256 * b + r);
  }

  lemma Scale(a: nat, p: nat, b: nat, r: nat)
    ensures 256 * (a * p + b) + r == a * (256 * p) + (256 * b + r)
  {
  }

  lemma {:induction false} DecodeEncodeFixed(v: nat, n: nat)
    requires v < Pow256(n)
    ensures DecodeFixed(EncodeFixed(v, n)) == v
  {
    if n > 0 {
      assert v / 256 < Pow256(n - 1);
      DecodeEncodeFixed(v / 256, n - 1);
      assert EncodeFixed(v, n)[1..] == EncodeFixed(v / 256, n - 1);
    }
  }

  lemma {:induction false} EncodeDecodeFixed(b: seq<Byte>)
    ensures DecodeFixed(b) < Pow256(|b|)
    ensures EncodeFixed(DecodeFixed(b), |b|) == b
  {
    if b != [] {
      EncodeDecodeFixed(b[1..]);
      assert DecodeFixed(b) % 256 == b[0] && DecodeFixed(b) / 256 == DecodeFixed(b[1..]);
      assert b == [b[0]] + b[1..];
    }
  }

  lemma Pow256Of8()
    ensures Pow256(4) == 0x1_0000_0000
    ensures Pow256(8) == 0x1_0000_0000_0000_0000
  {
    assert Pow256(2) == 65536;
    assert Pow256(3) == 0x100_0000;
    assert Pow256(4) == 0x1_0000_0000;
    assert Pow256(5) == 0x100_0000_0000;
    assert Pow256(6) == 0x1_0000_0000_0000;
    assert Pow256(7) == 0x100_0000_0000_0000;
  }
}
